// Machine words of the kernel: bytes, 32-bit unsigned numbers and the little-endian byte
// codecs LD_WORD, LD_DWORD, ST_WORD and ST_DWORD that FatFs uses on sector buffers.
module Words {

  type byte = x: int | 0 <= x < 0x100

  type u32 = x: int | 0 <= x < 0x1_0000_0000

  const ALL_ONES: u32 := 0xFFFF_FFFF

  // Reduction modulo 2^32, as every uint32_t operation of the sources does.
  function Wrap32(x: int): u32 {
    x % 0x1_0000_0000
  }

  lemma SmallWrap(x: int)
    requires 0 <= x < 0x1_0000_0000
    ensures Wrap32(x) == x
  {
  }

  // The int that the bits of a 32-bit word stand for.
  function Int32(x: int): (r: int)
    ensures -0x8000_0000 <= r < 0x8000_0000
    ensures -0x8000_0000 <= x < 0x8000_0000 ==> r == x
  {
    (x + 0x8000_0000) % 0x1_0000_0000 - 0x8000_0000
  }

  function LdWord(p: seq<byte>, o: nat): (w: int)
    requires o + 2 <= |p|
    ensures 0 <= w < 0x1_0000
  {
    var lo: int, hi: int := p[o], p[o + 1];
    lo + 0x100 * hi
  }

  function LdDword(p: seq<byte>, o: nat): u32
    requires o + 4 <= |p|
  {
    LdWord(p, o) + 0x1_0000 * LdWord(p, o + 2)
  }

  function StWord(p: seq<byte>, o: nat, val: nat): (q: seq<byte>)
    requires o + 2 <= |p|
    ensures |q| == |p|
  {
    p[o := val % 0x100][o + 1 := val / 0x100 % 0x100]
  }

  function StDword(p: seq<byte>, o: nat, val: nat): (q: seq<byte>)
    requires o + 4 <= |p|
    ensures |q| == |p|
  {
    p[o := val % 0x100]
     [o + 1 := val / 0x100 % 0x100]
     [o + 2 := val / 0x1_0000 % 0x100]
     [o + 3 := val / 0x100_0000 % 0x100]
  }
}
