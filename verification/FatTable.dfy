// The file allocation table on the disk: the bytes of the FAT sectors, and the sequence of entry
// values they encode.
module FatTable {
  import opened Words
  import opened Volume
  import FatBits

  // The image is large enough to hold the volume.
  predicate Holds(g: Geometry, v: Image) {
    DataEnd(g) <= |v|
  }

  // The bytes of the first FAT.
  function Table(g: Geometry, v: Image): (b: seq<byte>)
    requires Holds(g, v)
    ensures |b| == g.fsize * SS
  {
    AreasInOrder(g);
    seq<byte>(g.fsize * SS, i requires 0 <= i < g.fsize * SS => v[g.fatbase + i / SS][i % SS])
  }

  // Every byte of every entry lies in the first FAT.
  lemma EntryInTable(g: Geometry, c: nat)
    requires c < g.nFatent
    ensures EntryOffset(g.fsType, c) + EntrySize(g.fsType) <= g.fsize * SS
  {
  }

  // The values of all FAT entries.
  function Fat(g: Geometry, v: Image): (f: seq<nat>)
    requires Holds(g, v)
    ensures |f| == g.nFatent
  {
    seq(g.nFatent, c requires 0 <= c < g.nFatent => EntryInTable(g, c); FatBits.Entry(g.fsType, Table(g, v), c))
  }

  // The FAT depends on its own sectors only.
  lemma FatElsewhere(g: Geometry, v: Image, w: Image)
    requires Holds(g, v) && Holds(g, w)
    requires forall i :: InFat(g, i) ==> AgreeAt(v, w, i)
    ensures Fat(g, w) == Fat(g, v)
  {
    AreasInOrder(g);
    var a, b := Table(g, v), Table(g, w);
    forall i | 0 <= i < g.fsize * SS
      ensures a[i] == b[i]
    {
      assert AgreeAt(v, w, g.fatbase + i / SS);
    }
    assert a == b;
  }

  ghost predicate AgreeAt(v: Image, w: Image, i: int) {
    0 <= i < |v| && i < |w| && v[i] == w[i]
  }

  lemma EntriesAreSmall(g: Geometry, v: Image)
    requires Holds(g, v)
    ensures forall c :: 0 <= c < g.nFatent ==> Fat(g, v)[c] < EntryLimit(g.fsType)
  {
    forall c | 0 <= c < g.nFatent
      ensures Fat(g, v)[c] < EntryLimit(g.fsType)
    {
      EntryInTable(g, c);
    }
  }

  // The image with byte i of the FAT replaced.
  function SetByte(g: Geometry, v: Image, i: nat, b: byte): (w: Image)
    requires Holds(g, v) && i < g.fsize * SS
    ensures |w| == |v|
  {
    AreasInOrder(g);
    v[g.fatbase + i / SS := v[g.fatbase + i / SS][i % SS := b]]
  }

  lemma PlaceIsUnique(i: nat, j: nat)
    requires i / SS == j / SS && i % SS == j % SS
    ensures i == j
  {
  }

  lemma ByteOfSet(g: Geometry, v: Image, i: nat, b: byte, j: nat)
    requires Holds(g, v) && i < g.fsize * SS && j < g.fsize * SS
    ensures Table(g, SetByte(g, v, i, b))[j] == if i == j then b else Table(g, v)[j]
  {
    AreasInOrder(g);
    if i != j && i / SS == j / SS && i % SS == j % SS {
      PlaceIsUnique(i, j);
    }
  }

  lemma TableOfSet(g: Geometry, v: Image, i: nat, b: byte)
    requires Holds(g, v) && i < g.fsize * SS
    ensures Table(g, SetByte(g, v, i, b)) == Table(g, v)[i := b]
  {
    forall j | 0 <= j < g.fsize * SS
      ensures Table(g, SetByte(g, v, i, b))[j] == Table(g, v)[i := b][j]
    {
      ByteOfSet(g, v, i, b, j);
    }
  }

  // The image once put_fat has stored the first k bytes of entry c.
  function PutBytes(g: Geometry, v: Image, c: nat, val: nat, k: nat): (w: Image)
    requires Holds(g, v) && c < g.nFatent && k <= EntrySize(g.fsType)
    ensures |w| == |v|
  {
    if k == 0 then v
    else
      EntryInTable(g, c);
      var i := EntryOffset(g.fsType, c) + k - 1;
      var w := PutBytes(g, v, c, val, k - 1);
      SetByte(g, w, i, FatBits.NewByte(g.fsType, c, val, k - 1, Table(g, w)[i]))
  }

  function PutEntry(g: Geometry, v: Image, c: nat, val: nat): (w: Image)
    requires Holds(g, v) && c < g.nFatent
    ensures |w| == |v|
  {
    PutBytes(g, v, c, val, EntrySize(g.fsType))
  }

  lemma {:induction false} TableOfPut(g: Geometry, v: Image, c: nat, val: nat, k: nat)
    requires Holds(g, v) && c < g.nFatent && k <= EntrySize(g.fsType)
    requires FatBits.InTable(g.fsType, Table(g, v), c)
    ensures Table(g, PutBytes(g, v, c, val, k)) == FatBits.Put(g.fsType, Table(g, v), c, val, k)
  {
    hide SoundLayout, SetByte;
    if k > 0 {
      var i := EntryOffset(g.fsType, c) + k - 1;
      var w := PutBytes(g, v, c, val, k - 1);
      TableOfPut(g, v, c, val, k - 1);
      TableOfSet(g, w, i, FatBits.NewByte(g.fsType, c, val, k - 1, Table(g, w)[i]));
    }
  }

  // While an entry is being stored, every other entry keeps its value.
  lemma OthersKept(g: Geometry, v: Image, c: nat, val: nat, k: nat, d: nat)
    requires Holds(g, v) && c < g.nFatent && d < g.nFatent && c != d && k <= EntrySize(g.fsType)
    ensures Fat(g, PutBytes(g, v, c, val, k))[d] == Fat(g, v)[d]
  {
    EntryInTable(g, c);
    EntryInTable(g, d);
    TableOfPut(g, v, c, val, k);
    FatBits.OthersKept(g.fsType, Table(g, v), c, val, k, d);
  }

  // put_fat changes the table of entries at one place, to the value cut to the entry width.
  lemma FatOfPut(g: Geometry, v: Image, c: nat, val: nat)
    requires Holds(g, v) && c < g.nFatent
    ensures Fat(g, PutEntry(g, v, c, val)) == Fat(g, v)[c := val % EntryLimit(g.fsType)]
  {
    EntryInTable(g, c);
    TableOfPut(g, v, c, val, EntrySize(g.fsType));
    FatBits.PutIsRead(g.fsType, Table(g, v), c, val);
    forall d | 0 <= d < g.nFatent && d != c
      ensures Fat(g, PutEntry(g, v, c, val))[d] == Fat(g, v)[d]
    {
      OthersKept(g, v, c, val, EntrySize(g.fsType), d);
    }
  }

  // Storing bytes of an entry changes no sector outside the first FAT.
  lemma {:induction false} PutStaysInFat(g: Geometry, v: Image, c: nat, val: nat, k: nat, s: nat)
    requires Holds(g, v) && c < g.nFatent && k <= EntrySize(g.fsType)
    requires s < |v| && !InFat(g, s)
    ensures PutBytes(g, v, c, val, k)[s] == v[s]
  {
    if k > 0 {
      EntryInTable(g, c);
      PutStaysInFat(g, v, c, val, k - 1, s);
    }
  }
}
