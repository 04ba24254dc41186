// Taking numbers apart into bytes and nibbles and putting them together again.
module Digits {
  import Arith

  lemma Bytes2(val: nat)
    ensures val % 0x1_0000 == val % 0x100 + 0x100 * (val / 0x100 % 0x100)
  {
    Arith.Split(val, 0x100, 0x100);
  }

  lemma Bytes3(val: nat)
    ensures val % 0x100_0000 == val % 0x1_0000 + 0x1_0000 * (val / 0x1_0000 % 0x100)
  {
    Arith.Split(val, 0x1_0000, 0x100);
  }

  lemma Bytes3AndNibble(val: nat)
    ensures val % 0x1000_0000 == val % 0x100_0000 + 0x100_0000 * (val / 0x100_0000 % 0x10)
  {
    Arith.Split(val, 0x100_0000, 0x10);
  }

  lemma ByteAndNibble(val: nat)
    ensures val % 0x1000 == val % 0x100 + 0x100 * (val / 0x100 % 0x10)
  {
    Arith.Split(val, 0x100, 0x10);
  }

  lemma NibbleAndByte(val: nat)
    ensures val % 0x1000 == val % 0x10 + 0x10 * (val / 0x10 % 0x100)
  {
    Arith.Split(val, 0x10, 0x100);
  }

  lemma DropNibble(low: nat, high: nat)
    ensures (low + 0x100 * high) / 0x10 == low / 0x10 + 0x10 * high
  {
  }

  lemma DropHighNibble(low: nat, high: nat)
    requires low < 0x100
    ensures (low + 0x100 * high) % 0x1000 == low + 0x100 * (high % 0x10)
  {
  }

  lemma SplitTop(low: nat, top: nat)
    requires low < 0x1000_0000
    ensures (low + 0x1000_0000 * top) / 0x1000_0000 == top
    ensures (low + 0x1000_0000 * top) % 0x1000_0000 == low
  {
  }

  lemma JoinNibbles(low: nat, high: nat)
    requires low < 0x10
    ensures (low + 0x10 * high) % 0x10 == low
    ensures (low + 0x10 * high) / 0x10 == high
  {
  }
}
