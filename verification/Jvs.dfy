/** Pad words and the digital-read reply: the active-low to active-high translation, the reset combination,
    and the checksummed frame. */
module Jvs {
  import opened Words
  import opened Bits

  // ---- words as bits ----

  function FromBits(s: seq<bool>): nat {
    if s == [] then 0 else (if s[0] then 1 else 0) + 2 * FromBits(s[1..])
  }

  lemma {:induction false} OrBits(s: seq<bool>, t: seq<bool>, u: seq<bool>)
    requires |s| == |t| == |u| && forall i | 0 <= i < |s| :: u[i] == (s[i] || t[i])
    ensures Or(FromBits(s), FromBits(t)) == FromBits(u)
  {
    if s == [] {
    } else {
      OrBits(s[1..], t[1..], u[1..]);
      HalfOf(FromBits(s[1..]), s[0]);
      HalfOf(FromBits(t[1..]), t[0]);
    }
  }

  function Only(k: nat, n: nat): seq<bool> { seq(n, i => i == k) }

  lemma {:induction false} NoBits(n: nat)
    ensures FromBits(seq(n, _ => false)) == 0
  {
    if n == 0 {
    } else {
      assert seq(n, _ => false)[1..] == seq(n - 1, _ => false);
      NoBits(n - 1);
    }
  }

  /** The word with the one bit k, out of n. */
  lemma {:induction false} OneBit(k: nat, n: nat)
    requires k < n
    ensures FromBits(Only(k, n)) == Pow2(k)
  {
    if k == 0 {
      NoBits(n - 1);
      assert Only(0, n)[1..] == seq(n - 1, _ => false);
    } else {
      assert Only(k, n)[1..] == Only(k - 1, n - 1);
      OneBit(k - 1, n - 1);
    }
  }

  /** Or-ing in one bit sets it. */
  lemma SetBit(s: seq<bool>, k: nat)
    requires k < |s|
    ensures Or(FromBits(s), Pow2(k)) == FromBits(s[k := true])
  {
    OneBit(k, |s|);
    OrBits(s, Only(k, |s|), s[k := true]);
  }

  /** The complement within n bits. */
  lemma {:induction false} NotBit(v: nat, k: nat, n: nat)
    requires v < Pow2(n) && k < n
    ensures Bit(Pow2(n) - 1 - v, k) <==> !Bit(v, k)
  {
    var c := Pow2(n) - 1 - v;
    assert c / 2 == Pow2(n - 1) - 1 - v / 2;
    if k == 0 {
    } else {
      NotBit(v / 2, k - 1, n - 1);
    }
  }

  /** Masking keeps a whole mask exactly when every bit of the mask is present. */
  lemma {:induction false} MaskWhole(v: nat, m: nat, n: nat)
    requires m < Pow2(n)
    ensures And(v, m) == m <==> forall k | 0 <= k < n :: Bit(m, k) ==> Bit(v, k)
  {
    if n == 0 {
    } else {
      MaskWhole(v / 2, m / 2, n - 1);
      AndHalf(v, m);
      AndBit(v, m, 0);
      if And(v, m) == m {
        forall k | 0 <= k < n && Bit(m, k) ensures Bit(v, k) { AndBit(v, m, k); }
      }
      if forall k | 0 <= k < n :: Bit(m, k) ==> Bit(v, k) {
        forall k | 0 <= k < n - 1 ensures Bit(m / 2, k) ==> Bit(v / 2, k) {
          assert Bit(m, k + 1) ==> Bit(v, k + 1);
        }
        assert Bit(m, 0) ==> Bit(v, 0);
      }
    }
  }

  // ---- dc_to_jvs ----

  /** The pad bit behind each bit of the JVS word: Start, Up, Down, Left, Right, A, B. */
  function Wired(k: nat): int {
    match k
    case 15 => 3
    case 13 => 4
    case 12 => 5
    case 11 => 6
    case 10 => 7
    case 9 => 2
    case 8 => 1
    case _ => -1
  }

  /** Pad bits read zero while the button is held. */
  predicate Held(dc: u16, k: nat) { !Bit(dc, k) }

  predicate Lit(dc: u16, k: nat) { Wired(k) >= 0 && Held(dc, Wired(k)) }

  lemma {:induction false} BitsBelow(s: seq<bool>)
    ensures FromBits(s) < Pow2(|s|)
  {
    if s == [] {
    } else {
      BitsBelow(s[1..]);
    }
  }

  /** The JVS word of a pad word, bit by bit: set exactly where the wired button is held. */
  function Buttons(dc: u16): (v: u16) {
    BitsBelow(seq(16, k requires 0 <= k => Lit(dc, k)));
    Pow2Values();
    FromBits(seq(16, k requires 0 <= k => Lit(dc, k)))
  }

  lemma {:induction false} FromBitsBit(s: seq<bool>, k: nat)
    ensures Bit(FromBits(s), k) <==> k < |s| && s[k]
  {
    if s == [] {
      ShrZero(k);
    } else {
      HalfOf(FromBits(s[1..]), s[0]);
      if k > 0 { FromBitsBit(s[1..], k - 1); }
    }
  }

  /** The wiring, bit by bit. */
  lemma ButtonsBits(dc: u16)
    ensures var v := Buttons(dc);
            && (Bit(v, 15) <==> !Bit(dc, 3)) && (Bit(v, 13) <==> !Bit(dc, 4)) && (Bit(v, 12) <==> !Bit(dc, 5))
            && (Bit(v, 11) <==> !Bit(dc, 6)) && (Bit(v, 10) <==> !Bit(dc, 7))
            && (Bit(v, 9) <==> !Bit(dc, 2)) && (Bit(v, 8) <==> !Bit(dc, 1))
            && forall k: nat | k !in {15, 13, 12, 11, 10, 9, 8} :: !Bit(v, k)
  {
    var s := seq(16, k requires 0 <= k => Lit(dc, k));
    forall k: nat ensures Bit(Buttons(dc), k) <==> k < 16 && s[k] { FromBitsBit(s, k); }
  }

  function Complement(v: u16): u16 { 0xffff - v }

  lemma ComplementBit(dc: u16, k: nat)
    requires k < 16
    ensures Bit(Complement(dc), k) <==> Held(dc, k)
  {
    Pow2Values();
    NotBit(dc, k, 16);
  }

  lemma TestHeld(dc: u16, k: nat)
    requires k < 16
    ensures And(Complement(dc), Pow2(k)) != 0 <==> Held(dc, k)
  {
    TestBit(Complement(dc), k);
    ComplementBit(dc, k);
  }

  /** The bits from position i up. */
  function From(dc: u16, i: nat): (s: seq<bool>)
    ensures |s| == 16
  {
    seq(16, k requires 0 <= k => k >= i && Lit(dc, k))
  }

  /** if (b & (1u << Wired(i))) j |= 1 << i, coming down from the last wired position. */
  method Merge(dc: u16, j: nat, i: nat, ghost last: nat) returns (j': nat)
    requires i < 16 && Wired(i) >= 0 && i < last && forall k | i < k < last :: Wired(k) < 0
    requires j == FromBits(From(dc, last))
    ensures j' == FromBits(From(dc, i))
  {
    var k := Wired(i);
    j' := j;
    TestHeld(dc, k);
    if And(Complement(dc), Pow2(k)) != 0 {
      SetBit(From(dc, last), i);
      assert From(dc, last)[i := true] == From(dc, i);
      j' := Or(j, Pow2(i));
    } else {
      assert From(dc, last) == From(dc, i);
    }
  }

  lemma AllWired(dc: u16)
    ensures FromBits(From(dc, 8)) == Buttons(dc)
  {
    assert From(dc, 8) == seq(16, k requires 0 <= k => Lit(dc, k));
  }

  /** Start, Up, Down, Left, Right, A and B, each where the board expects it, and nothing else. */
  method DcToJvs(dc: u16) returns (v: u16)
    ensures v == Buttons(dc)
    ensures (Bit(v, 15) <==> !Bit(dc, 3)) && (Bit(v, 13) <==> !Bit(dc, 4)) && (Bit(v, 12) <==> !Bit(dc, 5))
    ensures (Bit(v, 11) <==> !Bit(dc, 6)) && (Bit(v, 10) <==> !Bit(dc, 7))
    ensures (Bit(v, 9) <==> !Bit(dc, 2)) && (Bit(v, 8) <==> !Bit(dc, 1))
    ensures forall k: nat | k !in {15, 13, 12, 11, 10, 9, 8} :: !Bit(v, k)
  {
    ButtonsBits(dc);
    NoBits(16);
    assert From(dc, 16) == seq(16, _ => false);
    var j := Merge(dc, 0, 15, 16);
    j := Merge(dc, j, 13, 15);
    j := Merge(dc, j, 12, 13);
    j := Merge(dc, j, 11, 12);
    j := Merge(dc, j, 10, 11);
    j := Merge(dc, j, 9, 10);
    j := Merge(dc, j, 8, 9);
    AllWired(dc);
    v := j;
  }

  /** Two pads wired together press what either presses. */
  lemma PressesUnite(a: u16, b: u16)
    ensures And(a, b) < 0x1_0000 && Buttons(And(a, b)) == Or(Buttons(a), Buttons(b))
  {
    var s := seq(16, k requires 0 <= k => Lit(a, k));
    var t := seq(16, k requires 0 <= k => Lit(b, k));
    var u := seq(16, k requires 0 <= k => Lit(And(a, b), k));
    forall k | 0 <= k < 16 ensures u[k] == (s[k] || t[k]) {
      if Wired(k) >= 0 { AndBit(a, b, Wired(k)); }
    }
    OrBits(s, t, u);
  }

  lemma NothingHeld(k: nat)
    requires k < 16
    ensures !Held(0xffff, k)
  {
    Pow2Values();
    NotBit(0, k, 16);
    ShrZero(k);
  }

  lemma {:induction false} LowBits(s: seq<bool>, n: nat)
    requires n <= |s| && forall k | 0 <= k < n :: !s[k]
    ensures FromBits(s) % Pow2(n) == 0
  {
    if n == 0 {
    } else {
      LowBits(s[1..], n - 1);
      var q := FromBits(s[1..]) / Pow2(n - 1);
      assert FromBits(s) == Pow2(n) * q;
      DivModUnique(FromBits(s), Pow2(n), q, 0);
    }
  }

  /** No button, no bits; and the low byte of the word is never used. */
  lemma IdleIsZero(dc: u16)
    ensures Buttons(0xffff) == 0 && Buttons(dc) % 0x100 == 0
  {
    var s := seq(16, k requires 0 <= k => Lit(dc, k));
    LowBits(s, 8);
    assert Pow2(8) == 0x100;
    forall k | 0 <= k < 16 ensures !Lit(0xffff, k) {
      if Wired(k) >= 0 { NothingHeld(Wired(k)); }
    }
    assert seq(16, k requires 0 <= k => Lit(0xffff, k)) == seq(16, _ => false);
    NoBits(16);
  }

  // ---- dc_reset_combo ----

  const COMBO: u16 := 0x060e

  predicate ResetCombo(dc: u16) { And(Complement(dc), COMBO) == COMBO }

  lemma {:induction false} ShrFrom(v: nat, j: nat, k: nat)
    requires j <= k && Shr(v, j) == 0
    ensures Shr(v, k) == 0
  {
    if j == k {
    } else {
      ShrNext(v, k - 1);
      ShrFrom(v, j, k - 1);
    }
  }

  lemma ComboBits()
    ensures forall k | 0 <= k < 16 :: Bit(COMBO, k) <==> k in {1, 2, 3, 9, 10}
  {
    assert Shr(COMBO, 1) == 0x307 && Shr(COMBO, 2) == 0x183 && Shr(COMBO, 3) == 0xc1 && Shr(COMBO, 4) == 0x60;
    assert Shr(COMBO, 5) == 0x30 && Shr(COMBO, 6) == 0x18 && Shr(COMBO, 7) == 0xc && Shr(COMBO, 8) == 6;
    assert Shr(COMBO, 9) == 3 && Shr(COMBO, 10) == 1 && Shr(COMBO, 11) == 0;
    forall k | 11 <= k < 16 ensures Shr(COMBO, k) == 0 { ShrFrom(COMBO, 11, k); }
  }

  /** The combination is A, B, X, Y and Start, all held. */
  lemma ComboIsFive(dc: u16)
    ensures ResetCombo(dc) <==> Held(dc, 1) && Held(dc, 2) && Held(dc, 3) && Held(dc, 9) && Held(dc, 10)
  {
    assert COMBO < Pow2(16) by { Pow2Values(); }
    MaskWhole(Complement(dc), COMBO, 16);
    ComboBits();
    forall k | 0 <= k < 16 ensures Bit(Complement(dc), k) <==> Held(dc, k) { ComplementBit(dc, k); }
  }

  // ---- the digital-read reply ----

  const FRAME := 64
  const FIRST := 0x1b
  const LAST := 0x39

  /** jvs_hasdata, byte by byte: maple header, report header, sync and length, coin count, eight idle
      analog channels, checksum. */
  function TemplateByte(i: nat): byte {
    match i
    case 0 => 0x87
    case 2 => 0x20
    case 3 => 0x0f
    case 4 => 0x16
    case 5 => 0xff
    case 6 => 0xff
    case 7 => 0xff
    case 9 => 0xff
    case 10 => 0xff
    case 11 => 0xff
    case 22 => 0x8e
    case 23 => 0x01
    case 25 => 0x21
    case 26 => 0xe0
    case 28 => 0x1e
    case 29 => 0x01
    case 30 => 0x01
    case 36 => 0x01
    case 41 => 0x01
    case 58 => 0x22
    case _ => if 42 <= i < 58 && i % 2 == 0 then 0x80 else 0
  }

  function Template(): (f: seq<byte>)
    ensures |f| == FRAME
  {
    seq<byte>(FRAME, i requires 0 <= i => TemplateByte(i))
  }

  function Sum(f: seq<byte>, lo: nat, hi: nat): nat
    requires lo <= hi <= |f|
  {
    if lo == hi then 0 else Sum(f, lo, hi - 1) + f[hi - 1] as int
  }

  method Checksum(f: array<byte>) returns (c: byte)
    requires f.Length == FRAME
    ensures c == Sum(f[..], 0x1b, 0x3a) % 0x100
  {
    var s := 0;
    for i := FIRST to LAST + 1
      invariant s == Sum(f[..], FIRST, i)
    {
      s := s + f[i] as int;
    }
    c := s % 0x100;
  }

  /** The template with both players' words, high byte first, and the checksum made good. */
  function DigitalFrame(j: u16, j2: u16): (f: seq<byte>)
    ensures |f| == FRAME
  {
    var f := Template()[0x20 := j / 0x100][0x21 := j % 0x100][0x22 := j2 / 0x100][0x23 := j2 % 0x100];
    f[0x3a := Sum(f, FIRST, LAST + 1) % 0x100]
  }

  /** The frame built in place from two raw pad words. */
  method Digital(raw: u16, raw2: u16) returns (f: array<byte>)
    ensures fresh(f) && f[..] == DigitalFrame(Buttons(raw), Buttons(raw2))
  {
    var j := DcToJvs(raw);
    var j2 := DcToJvs(raw2);
    f := new byte[FRAME](i requires 0 <= i < FRAME => Template()[i]);
    assert f[..] == Template();
    f[0x20] := j / 0x100;
    f[0x21] := j % 0x100;
    f[0x22] := j2 / 0x100;
    f[0x23] := j2 % 0x100;
    assert f[..] == Template()[0x20 := j / 0x100][0x21 := j % 0x100][0x22 := j2 / 0x100][0x23 := j2 % 0x100];
    var c := Checksum(f);
    f[0x3a] := c;
  }

  lemma {:induction false} SumAgrees(f: seq<byte>, g: seq<byte>, lo: nat, hi: nat)
    requires lo <= hi <= |f| && |f| == |g| && f[lo..hi] == g[lo..hi]
    ensures Sum(f, lo, hi) == Sum(g, lo, hi)
  {
    if lo == hi {
    } else {
      assert f[lo..hi][..hi - 1 - lo] == f[lo..hi - 1] && g[lo..hi][..hi - 1 - lo] == g[lo..hi - 1];
      assert f[lo..hi][hi - 1 - lo] == f[hi - 1] && g[lo..hi][hi - 1 - lo] == g[hi - 1];
      SumAgrees(f, g, lo, hi - 1);
    }
  }

  /** Whatever the two words, a reply differs from the idle one only in the button bytes and the checksum,
      its checksum covers what was stored, and both words read back. */
  lemma FrameIsSound(j: u16, j2: u16)
    ensures var f := DigitalFrame(j, j2);
            && (forall k | 0 <= k < FRAME && !(0x20 <= k <= 0x23) && k != 0x3a :: f[k] == Template()[k])
            && f[0x3a] == Sum(f, 0x1b, 0x3a) % 0x100
            && 0x100 * (f[0x20] as int) + f[0x21] as int == j && 0x100 * (f[0x22] as int) + f[0x23] as int == j2
  {
    var f := Template()[0x20 := j / 0x100][0x21 := j % 0x100][0x22 := j2 / 0x100][0x23 := j2 % 0x100];
    var g := DigitalFrame(j, j2);
    assert f[FIRST..LAST + 1] == g[FIRST..LAST + 1];
    SumAgrees(f, g, FIRST, LAST + 1);
  }

  /** The reply is a Maple response whose word count covers it, with the board's status in front. */
  lemma FrameHeader(j: u16, j2: u16)
    ensures var f := DigitalFrame(j, j2);
            && Le32(f, 0) == 0x0f20_0087 && 4 + 4 * (f[3] as int) == |f|
            && Le32(f, 4) == 0xffff_ff16 && Le32(f, 8) == 0xffff_ff00
            && forall k | 12 <= k < 0x16 :: f[k] == 0
  {
    FrameIsSound(j, j2);
    forall k | 0 <= k < 0x16 ensures DigitalFrame(j, j2)[k] == TemplateByte(k) {}
  }

  /** After the sync comes a JVS packet whose length byte counts what follows up to the checksum, with coin
      and idle analog channels in their places. */
  lemma FramePacket(j: u16, j2: u16)
    ensures var f := DigitalFrame(j, j2);
            && Le32(f, 0x16) == 0x2100_018e && f[0x1a] == 0xe0 && f[0x1b] == 0 && 0x1d + (f[0x1c] as int) == 0x3b
            && f[0x1d] == 1 && f[0x1e] == 1 && f[0x1f] == 0 && Le32(f, 0x24) == 1 && f[0x28] == 0 && f[0x29] == 1
            && (forall c | 0 <= c < 8 :: f[0x2a + 2 * c] == 0x80 && f[0x2b + 2 * c] == 0)
            && forall k | 0x3b <= k < 64 :: f[k] == 0
  {
    FrameIsSound(j, j2);
    forall k | 0x16 <= k < 64 && !(0x20 <= k <= 0x23) && k != 0x3a ensures DigitalFrame(j, j2)[k] == TemplateByte(k) {}
    forall c | 0 <= c < 8 ensures TemplateByte(0x2a + 2 * c) == 0x80 && TemplateByte(0x2b + 2 * c) == 0 {}
  }

  lemma SumFour(f: seq<byte>, lo: nat, hi: nat)
    requires lo <= hi && hi + 4 <= |f|
    ensures Sum(f, lo, hi + 4) == Sum(f, lo, hi) + f[hi] as int + f[hi + 1] as int + f[hi + 2] as int + f[hi + 3] as int
  {
    assert Sum(f, lo, hi + 4) == Sum(f, lo, hi + 3) + f[hi + 3] as int;
    assert Sum(f, lo, hi + 3) == Sum(f, lo, hi + 2) + f[hi + 2] as int;
    assert Sum(f, lo, hi + 2) == Sum(f, lo, hi + 1) + f[hi + 1] as int;
  }

  lemma HeadSum()
    ensures Sum(Template(), FIRST, 35) == 0x20
  {
    SumFour(Template(), FIRST, 27);
    SumFour(Template(), FIRST, 31);
  }

  lemma SumThree(f: seq<byte>, lo: nat, hi: nat)
    requires lo <= hi && hi + 3 <= |f|
    ensures Sum(f, lo, hi + 3) == Sum(f, lo, hi) + f[hi] as int + f[hi + 1] as int + f[hi + 2] as int
  {
    assert Sum(f, lo, hi + 3) == Sum(f, lo, hi + 2) + f[hi + 2] as int;
    assert Sum(f, lo, hi + 2) == Sum(f, lo, hi + 1) + f[hi + 1] as int;
  }

  lemma StructureSum()
    ensures Sum(Template(), FIRST, 42) == 0x22
  {
    HeadSum();
    SumFour(Template(), FIRST, 35);
    SumThree(Template(), FIRST, 39);
  }

  /** Each idle analog channel is 0x8000, high byte first. */
  lemma {:induction false} AnalogSum(n: nat)
    requires n <= 8
    ensures Sum(Template(), FIRST, 42 + 2 * n) == 0x22 + 0x80 * n
  {
    if n == 0 {
      StructureSum();
    } else {
      var hi := 40 + 2 * n;
      AnalogSum(n - 1);
      assert Sum(Template(), FIRST, hi + 2) == Sum(Template(), FIRST, hi + 1) + Template()[hi + 1] as int;
      assert Sum(Template(), FIRST, hi + 1) == Sum(Template(), FIRST, hi) + Template()[hi] as int;
    }
  }

  lemma TemplateSum()
    ensures Sum(Template(), FIRST, LAST + 1) % 0x100 == 0x22
  {
    AnalogSum(8);
  }

  /** The template is itself the frame of two idle pads, checksum included. */
  lemma IdleFrame()
    ensures DigitalFrame(Buttons(0xffff), Buttons(0xffff)) == Template()
  {
    IdleIsZero(0xffff);
    assert Template()[0x20 := 0][0x21 := 0][0x22 := 0][0x23 := 0] == Template();
    TemplateSum();
    assert Template()[0x3a := 0x22] == Template();
  }
}
