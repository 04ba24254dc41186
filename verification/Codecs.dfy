// Reading back what the byte codecs have stored, and what they leave alone.
module Codecs {
  import opened Words
  import Arith
  import Digits

  lemma WordOfSt(p: seq<byte>, o: nat, x: nat)
    requires o + 2 <= |p| && x < 0x1_0000
    ensures LdWord(StWord(p, o, x), o) == x
  {
    Digits.Bytes2(x);
  }

  lemma LdOfSt(p: seq<byte>, o: nat, x: u32)
    requires o + 4 <= |p|
    ensures LdDword(StDword(p, o, x), o) == x
  {
    FourBytes(x);
    var q := StDword(p, o, x);
    assert q[o] == x % 0x100 && q[o + 1] == x / 0x100 % 0x100;
    assert q[o + 2] == x / 0x1_0000 % 0x100 && q[o + 3] == x / 0x100_0000 % 0x100;
  }

  lemma FourBytes(x: u32)
    ensures x ==
      x % 0x100 + 0x100 * (x / 0x100 % 0x100) + 0x1_0000 * (x / 0x1_0000 % 0x100) + 0x100_0000 * (x / 0x100_0000 % 0x100)
  {
    Digits.Bytes2(x);
    Digits.Bytes3(x);
    Arith.Split(x, 0x100_0000, 0x100);
  }

  lemma LdElsewhere(p: seq<byte>, o: nat, x: u32, k: nat)
    requires o + 4 <= |p| && (k + 4 <= o || o + 4 <= k <= |p| - 4)
    ensures LdDword(StDword(p, o, x), k) == LdDword(p, k)
  {
  }

  lemma KeptByte(p: seq<byte>, o: nat, x: u32, j: nat)
    requires o + 4 <= |p| && j < |p|
    ensures !(o <= j < o + 4) ==> StDword(p, o, x)[j] == p[j]
  {
  }
}
