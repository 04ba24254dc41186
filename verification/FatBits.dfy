// The file allocation table as bytes: entries of 12, 16 or 28 bits packed one after another.
module FatBits {
  import opened Words
  import opened Digits
  import opened Volume

  predicate InTable(t: FatType, b: seq<byte>, c: nat) {
    EntryOffset(t, c) + EntrySize(t) <= |b|
  }

  // The 16 or 32 raw bits stored at entry c; for FAT12, the two bytes it has a part in.
  function Raw(t: FatType, b: seq<byte>, c: nat): nat
    requires InTable(t, b, c)
  {
    if t == FAT32 then LdDword(b, EntryOffset(t, c)) else LdWord(b, EntryOffset(t, c))
  }

  // The value of entry c.
  function Entry(t: FatType, b: seq<byte>, c: nat): (e: nat)
    requires InTable(t, b, c)
  {
    match t
    case FAT12 => if c % 2 == 1 then Raw(t, b, c) / 0x10 else Raw(t, b, c) % 0x1000
    case FAT16 => Raw(t, b, c)
    case FAT32 => Raw(t, b, c) % 0x1000_0000
  }

  // The bits of two nibbles combined, as | does on the top four bits of a FAT32 entry.
  function OrNibble(a: nat, b: nat): (r: nat)
    requires a < 16 && b < 16
    ensures r < 16
    ensures a == 0 ==> r == b
  {
    var r: bv4 := (a as bv4) | (b as bv4);
    r as nat
  }

  // Byte k of what put_fat stores for entry c over the byte cur that is there.
  function NewByte(t: FatType, c: nat, val: nat, k: nat, cur: byte): (b: byte)
    requires k < EntrySize(t)
  {
    match t
    case FAT12 =>
      if k == 0 then
        if c % 2 == 1 then cur as int % 0x10 + 0x10 * (val % 0x10) else val % 0x100
      else
        if c % 2 == 1 then val / 0x10 % 0x100 else val / 0x100 % 0x10 + 0x10 * (cur as int / 0x10)
    case FAT16 => if k == 0 then val % 0x100 else val / 0x100 % 0x100
    case FAT32 =>
      if k == 0 then val % 0x100
      else if k == 1 then val / 0x100 % 0x100
      else if k == 2 then val / 0x1_0000 % 0x100
      else val / 0x100_0000 % 0x10 + 0x10 * OrNibble(val / 0x1000_0000 % 0x10, cur as int / 0x10)
  }

  // The table once put_fat has stored the first k bytes of entry c.
  function Put(t: FatType, b: seq<byte>, c: nat, val: nat, k: nat): (b': seq<byte>)
    requires InTable(t, b, c) && k <= EntrySize(t)
    ensures |b'| == |b|
    ensures forall i :: 0 <= i < |b| ==>
      b'[i] == if EntryOffset(t, c) <= i < EntryOffset(t, c) + k
               then NewByte(t, c, val, i - EntryOffset(t, c), b[i]) else b[i]
  {
    if k == 0 then b
    else
      var i := EntryOffset(t, c) + k - 1;
      var b1 := Put(t, b, c, val, k - 1);
      b1[i := NewByte(t, c, val, k - 1, b1[i])]
  }

  // Two entries share a byte only in FAT12, an even one with the odd one after it.
  predicate ShareByte(t: FatType, c: nat, d: nat) {
    t == FAT12 && c % 2 == 0 && d == c + 1
  }

  lemma EntriesApart(t: FatType, c: nat, d: nat)
    requires c < d
    ensures if ShareByte(t, c, d)
      then EntryOffset(t, d) == EntryOffset(t, c) + 1
      else EntryOffset(t, c) + EntrySize(t) <= EntryOffset(t, d)
  {
  }

  // The upper nibble of a shared byte belongs to the odd entry, the lower one to the even.
  lemma SharedNibble(c: nat, val: nat, cur: byte)
    ensures c % 2 == 0 ==> NewByte(FAT12, c, val, 1, cur) as int / 0x10 == cur as int / 0x10
    ensures c % 2 == 1 ==> NewByte(FAT12, c, val, 0, cur) as int % 0x10 == cur as int % 0x10
  {
    if c % 2 == 0 {
      JoinNibbles(val / 0x100 % 0x10, cur as int / 0x10);
    } else {
      JoinNibbles(cur as int % 0x10, val % 0x10);
    }
  }

  lemma NeighbourKept(b: seq<byte>, c: nat, val: nat, k: nat, d: nat)
    requires InTable(FAT12, b, c) && InTable(FAT12, b, d) && k <= 2
    requires ShareByte(FAT12, c, d) || ShareByte(FAT12, d, c)
    ensures Entry(FAT12, Put(FAT12, b, c, val, k), d) == Entry(FAT12, b, d)
  {
    var b' := Put(FAT12, b, c, val, k);
    var o := EntryOffset(FAT12, d);
    if c < d {
      EntriesApart(FAT12, c, d);
      SharedNibble(c, val, b[o]);
      DropNibble(b[o], b[o + 1]);
      DropNibble(b'[o], b'[o + 1]);
    } else {
      EntriesApart(FAT12, d, c);
      SharedNibble(c, val, b[o + 1]);
      DropHighNibble(b[o], b[o + 1]);
      DropHighNibble(b'[o], b'[o + 1]);
    }
  }

  // Storing the first bytes of an entry leaves every other entry alone, whatever nibble of a
  // shared byte it lives in.
  lemma OthersKept(t: FatType, b: seq<byte>, c: nat, val: nat, k: nat, d: nat)
    requires InTable(t, b, c) && InTable(t, b, d) && c != d && k <= EntrySize(t)
    ensures Entry(t, Put(t, b, c, val, k), d) == Entry(t, b, d)
  {
    if ShareByte(t, c, d) || ShareByte(t, d, c) {
      NeighbourKept(b, c, val, k, d);
    } else {
      if c < d {
        EntriesApart(t, c, d);
      } else {
        EntriesApart(t, d, c);
      }
      assert Raw(t, Put(t, b, c, val, k), d) == Raw(t, b, d);
    }
  }

  lemma PutIsRead12(b: seq<byte>, c: nat, val: nat)
    requires InTable(FAT12, b, c)
    ensures Entry(FAT12, Put(FAT12, b, c, val, 2), c) == val % 0x1000
  {
    var b' := Put(FAT12, b, c, val, 2);
    var o := EntryOffset(FAT12, c);
    if c % 2 == 1 {
      NibbleAndByte(val);
      JoinNibbles(b[o] as int % 0x10, val % 0x10);
      DropNibble(b'[o], b'[o + 1]);
    } else {
      ByteAndNibble(val);
      JoinNibbles(val / 0x100 % 0x10, b[o + 1] as int / 0x10);
      DropHighNibble(b'[o], b'[o + 1]);
    }
  }

  lemma TopOfRaw(b: seq<byte>, c: nat)
    requires InTable(FAT32, b, c)
    ensures var o := EntryOffset(FAT32, c);
      && Raw(FAT32, b, c) / 0x1000_0000 == b[o + 3] as int / 0x10
      && Raw(FAT32, b, c) % 0x1000_0000 ==
         LdWord(b, o) + 0x1_0000 * (b[o + 2] as int) + 0x100_0000 * (b[o + 3] as int % 0x10)
  {
    var o := EntryOffset(FAT32, c);
    SplitTop(LdWord(b, o) + 0x1_0000 * (b[o + 2] as int) + 0x100_0000 * (b[o + 3] as int % 0x10), b[o + 3] as int / 0x10);
  }

  lemma PutIsRead32(b: seq<byte>, c: nat, val: nat)
    requires InTable(FAT32, b, c)
    ensures var b' := Put(FAT32, b, c, val, 4);
      && Entry(FAT32, b', c) == val % 0x1000_0000
      && (val < 0x1000_0000 ==> Raw(FAT32, b', c) / 0x1000_0000 == Raw(FAT32, b, c) / 0x1000_0000)
  {
    var b' := Put(FAT32, b, c, val, 4);
    TopOfRaw(b, c);
    TopOfRaw(b', c);
    var o := EntryOffset(FAT32, c);
    JoinNibbles(val / 0x100_0000 % 0x10, OrNibble(val / 0x1000_0000 % 0x10, b[o + 3] as int / 0x10));
    Bytes2(val);
    Bytes3(val);
    Bytes3AndNibble(val);
  }

  // put_fat then get_fat: the stored value cut to the entry width; in FAT32, the top four bits
  // of the stored double word are preserved.
  lemma PutIsRead(t: FatType, b: seq<byte>, c: nat, val: nat)
    requires InTable(t, b, c)
    ensures var b' := Put(t, b, c, val, EntrySize(t));
      && Entry(t, b', c) == val % EntryLimit(t)
      && (t == FAT32 && val < 0x1000_0000 ==> Raw(t, b', c) / 0x1000_0000 == Raw(t, b, c) / 0x1000_0000)
  {
    match t
    case FAT12 => PutIsRead12(b, c, val);
    case FAT16 => Bytes2(val);
    case FAT32 => PutIsRead32(b, c, val);
  }
}
