// get_fat and put_fat: reading and changing a FAT entry through the window.
module FatAccess {
  import opened Words
  import opened Volume
  import opened Window
  import opened FatTable
  import FatBits

  // The sector that holds byte i of the FAT.
  function SectorOf(g: Geometry, i: nat): nat {
    g.fatbase + i / SS
  }

  lemma SectorOfIsFat(g: Geometry, i: nat)
    requires i < g.fsize * SS
    ensures InFat(g, SectorOf(g, i)) && !IsHidden(g, SectorOf(g, i)) && SectorOf(g, i) < DataEnd(g)
  {
    AreasInOrder(g);
  }

  lemma PlaceOf(i: nat, k: nat)
    requires i % SS + k < SS
    ensures (i + k) / SS == i / SS && (i + k) % SS == i % SS + k
  {
  }

  // A window on the sector of byte i shows the n bytes of the FAT from there on.
  lemma WindowShows(s: State, i: nat, n: nat)
    requires Sound(s) && i + n <= s.geo.fsize * SS && i % SS + n <= SS
    requires i < s.geo.fsize * SS && SectorOf(s.geo, i) < |s.data| && s.win == Logical(s)[SectorOf(s.geo, i)]
    ensures s.win[i % SS..i % SS + n] == Table(s.geo, Logical(s))[i..i + n]
  {
    var p, q := s.win[i % SS..i % SS + n], Table(s.geo, Logical(s))[i..i + n];
    forall k | 0 <= k < n
      ensures p[k] == q[k]
    {
      PlaceOf(i, k);
    }
  }

  // Storing a byte in a window that shows a FAT sector.
  ghost function Poked(s: State, i: nat, b: byte): State {
    s.(win := s.win[i % SS := b], wflag := true)
  }

  lemma PokeStores(s: State, i: nat, b: byte)
    requires Sound(s) && i < s.geo.fsize * SS
    requires s.winsect == SectorOf(s.geo, i)
    ensures Steps(s, Poked(s, i, b), iset{})
    ensures Logical(Poked(s, i, b)) == SetByte(s.geo, Logical(s), i, b)
  {
    SectorOfIsFat(s.geo, i);
    var t := Poked(s, i, b);
    VisibleUpdate(s.geo, s.data, s.winsect, s.win);
    VisibleUpdate(s.geo, s.data, s.winsect, t.win);
    assert Logical(s)[s.winsect] == s.win;
    assert Logical(t) == Logical(s)[s.winsect := t.win];
  }

  // Brings the n bytes of the FAT from byte i on, which share a sector, into the window.
  method MoveToFat(fs: Fatfs, i: nat, n: nat) returns (res: FResult)
    requires fs.Valid() && 0 < n && i + n <= fs.geo.fsize * SS && i % SS + n <= SS
    modifies fs`wflag, fs`winsect, fs.win, fs.disk
    ensures fs.Valid() && Quiet(old(fs.Now()), fs.Now())
    ensures res == Ok || (res == DiskErr && !fs.disk.reliable)
    ensures res == Ok ==> fs.winsect == SectorOf(fs.geo, i) && InFat(fs.geo, fs.winsect)
    ensures res == Ok ==> fs.win[i % SS..i % SS + n] == Table(fs.geo, fs.View())[i..i + n]
    ensures res != Ok ==> fs.winsect == old(fs.winsect) || fs.winsect == ALL_ONES
  {
    SectorOfIsFat(fs.geo, i);
    res := MoveWindow(fs, fs.geo.fatbase + i / SS);
    if res == Ok {
      WindowShows(fs.Now(), i, n);
    }
  }

  lemma Aligned(t: FatType, c: nat)
    requires t != FAT12
    ensures EntryOffset(t, c) % SS + EntrySize(t) <= SS
  {
  }

  method GetFat(fs: Fatfs, clst: u32) returns (val: u32)
    requires fs.Valid()
    modifies fs`wflag, fs`winsect, fs.win, fs.disk
    ensures fs.Valid() && Quiet(old(fs.Now()), fs.Now())
    ensures !(2 <= clst < fs.geo.nFatent) ==> val == 1
    ensures 2 <= clst < fs.geo.nFatent ==>
      val == Fat(fs.geo, fs.View())[clst] || (val == ALL_ONES && !fs.disk.reliable)
    ensures fs.winsect == old(fs.winsect) || fs.winsect == ALL_ONES || InFat(fs.geo, fs.winsect)
    ensures 2 <= clst < fs.geo.nFatent && val != ALL_ONES ==> InFat(fs.geo, fs.winsect)
  {
    if clst < 2 || clst >= fs.geo.nFatent {
      QuietRefl(fs.Now());
      val := 1;
    } else {
      match fs.geo.fsType {
        case FAT12 => val := GetFat12(fs, clst);
        case FAT16 => val := GetFat16(fs, clst);
        case FAT32 => val := GetFat32(fs, clst);
      }
    }
  }

  lemma EntryFromBytes(g: Geometry, v: Image, c: nat, p: seq<byte>)
    requires Holds(g, v) && c < g.nFatent && EntryOffset(g.fsType, c) + EntrySize(g.fsType) <= g.fsize * SS
    requires p == Table(g, v)[EntryOffset(g.fsType, c)..EntryOffset(g.fsType, c) + EntrySize(g.fsType)]
    ensures Fat(g, v)[c] ==
      match g.fsType
      case FAT12 => if c % 2 == 1 then LdWord(p, 0) / 0x10 else LdWord(p, 0) % 0x1000
      case FAT16 => LdWord(p, 0)
      case FAT32 => LdDword(p, 0) % 0x1000_0000
  {
    assert forall k :: 0 <= k < |p| ==> p[k] == Table(g, v)[EntryOffset(g.fsType, c) + k];
  }

  lemma EntryFromTwoSectors(g: Geometry, v: Image, c: nat, p: seq<byte>, q: seq<byte>)
    requires Holds(g, v) && c < g.nFatent && g.fsType == FAT12 && c + c / 2 + 2 <= g.fsize * SS
    requires p == Table(g, v)[c + c / 2..c + c / 2 + 1] && q == Table(g, v)[c + c / 2 + 1..c + c / 2 + 2]
    ensures Fat(g, v)[c] == if c % 2 == 1 then LdWord(p + q, 0) / 0x10 else LdWord(p + q, 0) % 0x1000
  {
    EntryFromBytes(g, v, c, p + q);
  }

  // The FAT12 branch of get_fat: the two bytes may lie in different sectors.
  method GetFat12(fs: Fatfs, clst: u32) returns (val: u32)
    requires fs.Valid() && fs.geo.fsType == FAT12 && 2 <= clst < fs.geo.nFatent
    modifies fs`wflag, fs`winsect, fs.win, fs.disk
    ensures fs.Valid() && Quiet(old(fs.Now()), fs.Now())
    ensures val == Fat(fs.geo, fs.View())[clst] || (val == ALL_ONES && !fs.disk.reliable)
    ensures fs.winsect == old(fs.winsect) || fs.winsect == ALL_ONES || InFat(fs.geo, fs.winsect)
    ensures val != ALL_ONES ==> InFat(fs.geo, fs.winsect)
  {
    hide Table, Fat, Reached, Undisturbed, Logical, SoundLayout;
    EntryInTable(fs.geo, clst);
    val := ALL_ONES;
    var bc := clst + clst / 2;
    var res := MoveToFat(fs, bc, 1);
    if res == Ok {
      ghost var t := fs.Now();
      var p := fs.win[bc % SS..bc % SS + 1];
      bc := bc + 1;
      res := MoveToFat(fs, bc, 1);
      QuietCompose(old(fs.Now()), t, fs.Now());
      QuietKeepsView(t, fs.Now());
      if res == Ok {
        var q := fs.win[bc % SS..bc % SS + 1];
        EntryFromTwoSectors(fs.geo, fs.View(), clst, p, q);
        var wc := LdWord(p + q, 0);
        val := if clst % 2 == 1 then wc / 0x10 else wc % 0x1000;
      }
    }
  }

  method GetFat16(fs: Fatfs, clst: u32) returns (val: u32)
    requires fs.Valid() && fs.geo.fsType == FAT16 && 2 <= clst < fs.geo.nFatent
    modifies fs`wflag, fs`winsect, fs.win, fs.disk
    ensures fs.Valid() && Quiet(old(fs.Now()), fs.Now())
    ensures val == Fat(fs.geo, fs.View())[clst] || (val == ALL_ONES && !fs.disk.reliable)
    ensures fs.winsect == old(fs.winsect) || fs.winsect == ALL_ONES || InFat(fs.geo, fs.winsect)
    ensures val != ALL_ONES ==> InFat(fs.geo, fs.winsect)
  {
    EntryInTable(fs.geo, clst);
    Aligned(FAT16, clst);
    val := ALL_ONES;
    var res := MoveToFat(fs, 2 * clst, 2);
    if res == Ok {
      var p := fs.win[2 * clst % SS..2 * clst % SS + 2];
      EntryFromBytes(fs.geo, fs.View(), clst, p);
      val := LdWord(p, 0);
    }
  }

  method GetFat32(fs: Fatfs, clst: u32) returns (val: u32)
    requires fs.Valid() && fs.geo.fsType == FAT32 && 2 <= clst < fs.geo.nFatent
    modifies fs`wflag, fs`winsect, fs.win, fs.disk
    ensures fs.Valid() && Quiet(old(fs.Now()), fs.Now())
    ensures val == Fat(fs.geo, fs.View())[clst] || (val == ALL_ONES && !fs.disk.reliable)
    ensures fs.winsect == old(fs.winsect) || fs.winsect == ALL_ONES || InFat(fs.geo, fs.winsect)
    ensures val != ALL_ONES ==> InFat(fs.geo, fs.winsect)
  {
    EntryInTable(fs.geo, clst);
    Aligned(FAT32, clst);
    val := ALL_ONES;
    var res := MoveToFat(fs, 4 * clst, 4);
    if res == Ok {
      var p := fs.win[4 * clst % SS..4 * clst % SS + 4];
      EntryFromBytes(fs.geo, fs.View(), clst, p);
      val := LdDword(p, 0) % 0x1000_0000;
    }
  }

  // The views put_fat may leave on the disk while it works: FAT12 entries are stored byte by
  // byte, and the window may be written back in between.
  ghost function Partial(g: Geometry, v: Image, c: nat, val: nat): iset<Image>
    requires Holds(g, v) && c < g.nFatent
  {
    if g.fsType == FAT12 then iset{v, PutBytes(g, v, c, val, 1)} else iset{v}
  }

  method Poke(fs: Fatfs, i: nat, b: byte)
    requires fs.Valid() && i < fs.geo.fsize * SS && fs.winsect == SectorOf(fs.geo, i)
    modifies fs`wflag, fs.win
    ensures Steps(old(fs.Now()), fs.Now(), iset{})
    ensures fs.View() == SetByte(fs.geo, old(fs.View()), i, b)
    ensures fs.wflag
  {
    PokeStores(fs.Now(), i, b);
    fs.win[i % SS] := b;
    fs.wflag := true;
    assert fs.Now() == Poked(old(fs.Now()), i, b);
  }

  // t is reached from s by storing the first k bytes of entry c.
  ghost predicate Putting(s: State, t: State, c: nat, val: nat, k: nat)
    requires Sound(s) && c < s.geo.nFatent && k <= EntrySize(s.geo.fsType)
  {
    && Steps(s, t, Partial(s.geo, Logical(s), c, val))
    && Logical(t) == PutBytes(s.geo, Logical(s), c, val, k)
  }

  lemma PuttingStarts(s: State, t: State, c: nat, val: nat)
    requires Sound(s) && c < s.geo.nFatent && Quiet(s, t)
    ensures Putting(s, t, c, val, 0)
  {
  }

  lemma PuttingMoves(s: State, t: State, u: State, c: nat, val: nat)
    requires Sound(s) && c < s.geo.nFatent && s.geo.fsType == FAT12
    requires Putting(s, t, c, val, 1) && Quiet(t, u)
    ensures Putting(s, u, c, val, 1)
  {
  }

  lemma PuttingPokes(s: State, t: State, u: State, c: nat, val: nat, k: nat, i: nat, b: byte)
    requires Sound(s) && c < s.geo.nFatent && k < EntrySize(s.geo.fsType)
    requires Putting(s, t, c, val, k) && Steps(t, u, iset{})
    requires i == EntryOffset(s.geo.fsType, c) + k < s.geo.fsize * SS
    requires b == FatBits.NewByte(s.geo.fsType, c, val, k, Table(s.geo, Logical(t))[i])
    requires Logical(u) == SetByte(s.geo, Logical(t), i, b)
    ensures Putting(s, u, c, val, k + 1)
  {
  }

  lemma WindowByte(s: State, i: nat)
    requires Sound(s) && i < s.geo.fsize * SS && s.winsect == SectorOf(s.geo, i)
    ensures s.win[i % SS] == Table(s.geo, Logical(s))[i]
  {
    SectorOfIsFat(s.geo, i);
  }

  // Stores byte k of entry clst in the window, once the bytes before it are stored.
  method PutByte(fs: Fatfs, clst: u32, val: u32, k: nat, ghost s: State)
    requires Sound(s) && clst < s.geo.nFatent && k < EntrySize(s.geo.fsType)
    requires fs.Valid() && Putting(s, fs.Now(), clst, val, k)
    requires fs.winsect == SectorOf(fs.geo, EntryOffset(fs.geo.fsType, clst) + k)
    modifies fs`wflag, fs.win
    ensures fs.Valid() && Putting(s, fs.Now(), clst, val, k + 1)
    ensures fs.wflag
  {
    ghost var t := fs.Now();
    EntryInTable(fs.geo, clst);
    var i := EntryOffset(fs.geo.fsType, clst) + k;
    WindowByte(t, i);
    var b := FatBits.NewByte(fs.geo.fsType, clst, val, k, fs.win[i % SS]);
    Poke(fs, i, b);
    PuttingPokes(s, t, fs.Now(), clst, val, k, i, b);
  }

  // Stores two neighbouring bytes of a FAT16 or FAT32 entry.
  method PutTwoBytes(fs: Fatfs, clst: u32, val: u32, k: nat, ghost s: State)
    requires Sound(s) && clst < s.geo.nFatent && k + 1 < EntrySize(s.geo.fsType) && s.geo.fsType != FAT12
    requires fs.Valid() && Putting(s, fs.Now(), clst, val, k)
    requires fs.winsect == SectorOf(fs.geo, EntryOffset(fs.geo.fsType, clst))
    modifies fs`wflag, fs.win
    ensures fs.Valid() && Putting(s, fs.Now(), clst, val, k + 2)
    ensures fs.wflag
  {
    hide Table, PutBytes, FatBits.NewByte;
    Aligned(s.geo.fsType, clst);
    PlaceOf(EntryOffset(s.geo.fsType, clst), k);
    PlaceOf(EntryOffset(s.geo.fsType, clst), k + 1);
    PutByte(fs, clst, val, k, s);
    PutByte(fs, clst, val, k + 1, s);
  }

  // What the three branches of put_fat share: Ok when the whole entry is stored, DiskErr when the
  // window could not be moved.
  ghost predicate PutOutcome(s: State, t: State, clst: nat, val: nat, res: FResult)
    requires Sound(s) && clst < s.geo.nFatent
  {
    if res == Ok
    then Putting(s, t, clst, val, EntrySize(s.geo.fsType)) && InFat(s.geo, t.winsect) && t.wflag
    else
      && res == DiskErr && !s.reliable
      && (Putting(s, t, clst, val, 0) || (s.geo.fsType == FAT12 && Putting(s, t, clst, val, 1)))
      && (t.winsect == s.winsect || t.winsect == ALL_ONES || InFat(s.geo, t.winsect))
  }

  method PutFat12(fs: Fatfs, clst: u32, val: u32) returns (res: FResult)
    requires fs.Valid() && fs.geo.fsType == FAT12 && 2 <= clst < fs.geo.nFatent
    modifies fs`wflag, fs`winsect, fs.win, fs.disk
    ensures PutOutcome(old(fs.Now()), fs.Now(), clst, val, res)
  {
    hide Table, PutBytes, FatBits.NewByte, Reached, Undisturbed, Logical, Partial;
    ghost var s := fs.Now();
    EntryInTable(fs.geo, clst);
    var bc := clst + clst / 2;
    res := MoveToFat(fs, bc, 1);
    PuttingStarts(s, fs.Now(), clst, val);
    if res == Ok {
      PutByte(fs, clst, val, 0, s);
      ghost var t := fs.Now();
      bc := bc + 1;
      res := MoveToFat(fs, bc, 1);
      PuttingMoves(s, t, fs.Now(), clst, val);
      if res == Ok {
        PutByte(fs, clst, val, 1, s);
      }
    }
  }

  method PutFat16(fs: Fatfs, clst: u32, val: u32) returns (res: FResult)
    requires fs.Valid() && fs.geo.fsType == FAT16 && 2 <= clst < fs.geo.nFatent
    modifies fs`wflag, fs`winsect, fs.win, fs.disk
    ensures PutOutcome(old(fs.Now()), fs.Now(), clst, val, res)
  {
    hide Table, PutBytes, FatBits.NewByte, Reached, Undisturbed, Logical, Partial;
    ghost var s := fs.Now();
    EntryInTable(fs.geo, clst);
    Aligned(FAT16, clst);
    res := MoveToFat(fs, 2 * clst, 2);
    PuttingStarts(s, fs.Now(), clst, val);
    if res == Ok {
      PutTwoBytes(fs, clst, val, 0, s);
    }
  }

  method PutFat32(fs: Fatfs, clst: u32, val: u32) returns (res: FResult)
    requires fs.Valid() && fs.geo.fsType == FAT32 && 2 <= clst < fs.geo.nFatent
    modifies fs`wflag, fs`winsect, fs.win, fs.disk
    ensures PutOutcome(old(fs.Now()), fs.Now(), clst, val, res)
  {
    hide Table, PutBytes, FatBits.NewByte, Reached, Undisturbed, Logical, Partial;
    ghost var s := fs.Now();
    EntryInTable(fs.geo, clst);
    Aligned(FAT32, clst);
    res := MoveToFat(fs, 4 * clst, 4);
    PuttingStarts(s, fs.Now(), clst, val);
    if res == Ok {
      PutTwoBytes(fs, clst, val, 0, s);
      PutTwoBytes(fs, clst, val, 2, s);
    }
  }

  method PutFat(fs: Fatfs, clst: u32, val: u32) returns (res: FResult)
    requires fs.Valid()
    modifies fs`wflag, fs`winsect, fs.win, fs.disk
    ensures fs.Valid()
    ensures !(2 <= clst < fs.geo.nFatent) ==> res == IntErr && fs.Now() == old(fs.Now())
    ensures 2 <= clst < fs.geo.nFatent ==> PutOutcome(old(fs.Now()), fs.Now(), clst, val, res)
  {
    if clst < 2 || clst >= fs.geo.nFatent {
      res := IntErr;
    } else {
      match fs.geo.fsType {
        case FAT12 => res := PutFat12(fs, clst, val);
        case FAT16 => res := PutFat16(fs, clst, val);
        case FAT32 => res := PutFat32(fs, clst, val);
      }
    }
  }
}
