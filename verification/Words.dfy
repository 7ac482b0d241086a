/** Machine words: bytes, 16- and 32-bit unsigned values, wrap-around and little-endian layout. */
module Words {
  type byte = x: int | 0 <= x < 0x100
  type u16 = x: int | 0 <= x < 0x1_0000
  type u32 = x: int | 0 <= x < 0x1_0000_0000

  /** The sixteen general or floating-point registers. */
  type Regs = s: seq<u32> | |s| == 16 witness seq(16, _ => 0)

  /** The u32 a C expression holds once its mathematical value has wrapped. */
  function Wrap(x: int): u32 {
    x % 0x1_0000_0000
  }

  /** A word plus a signed displacement, as an address or register adder computes it. */
  function Add32(a: u32, i: int): u32
    requires -0x1_0000_0000 <= i <= 0x1_0000_0000
  {
    var s := a + i;
    if s < 0 then s + 0x1_0000_0000 else if s > 0xffff_ffff then s - 0x1_0000_0000 else s
  }

  /** Python's struct.pack("<H", v). */
  function Pack16(v: u16): (s: seq<byte>)
    ensures |s| == 2
  {
    [v % 0x100, v / 0x100]
  }

  /** Python's struct.pack("<I", v). */
  function Pack32(v: u32): (s: seq<byte>)
    ensures |s| == 4
  {
    [v % 0x100, v / 0x100 % 0x100, v / 0x100 / 0x100 % 0x100, v / 0x100 / 0x100 / 0x100]
  }

  /** The 16-bit little-endian value at s[i]. */
  function Le16(s: seq<byte>, i: nat): u16
    requires i + 2 <= |s|
  {
    (s[i] as int) + 0x100 * (s[i + 1] as int)
  }

  /** The 32-bit little-endian value at s[i]. */
  function Le32(s: seq<byte>, i: nat): u32
    requires i + 4 <= |s|
  {
    (s[i] as int) + 0x100 * (s[i + 1] as int) + 0x1_0000 * (s[i + 2] as int) + 0x100_0000 * (s[i + 3] as int)
  }

  lemma Repack16(s: seq<byte>)
    requires |s| == 2
    ensures s == Pack16(Le16(s, 0))
  {}

  lemma Repack32(s: seq<byte>)
    requires |s| == 4
    ensures s == Pack32(Le32(s, 0))
  {
    var v: int := Le32(s, 0);
    assert v / 0x100 == s[1] as int + 0x100 * (s[2] as int) + 0x1_0000 * (s[3] as int);
    assert v / 0x100 / 0x100 == s[2] as int + 0x100 * (s[3] as int);
  }

  lemma Unpack16(s: seq<byte>, i: nat, v: u16)
    requires i + 2 <= |s| && s[i..i + 2] == Pack16(v)
    ensures Le16(s, i) == v
  {
    assert s[i] == s[i..i + 2][0] && s[i + 1] == s[i..i + 2][1];
  }

  lemma Unpack32(s: seq<byte>, i: nat, v: u32)
    requires i + 4 <= |s| && s[i..i + 4] == Pack32(v)
    ensures Le32(s, i) == v
  {
    var p := s[i..i + 4];
    assert s[i] == p[0] && s[i + 1] == p[1] && s[i + 2] == p[2] && s[i + 3] == p[3];
  }
}
