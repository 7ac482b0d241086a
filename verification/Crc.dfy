/** The disc header's CRC: a 16-bit register, shifted out bit by bit. The loop works on integers; the
    properties are proved about their bits, most significant first. */
module Crc {
  import opened Words
  import Bits

  type Reg = s: seq<bool> | |s| == 16 witness seq(16, _ => false)
  type Octet = s: seq<bool> | |s| == 8 witness seq(8, _ => false)

  const BITS: nat := 8

  function Fill(b: bool): Reg { seq(16, _ => b) }
  function Zeros(k: nat): (s: seq<bool>) ensures |s| == k { seq(k, _ => false) }

  /** Exclusive or, place by place. */
  function Xor(a: seq<bool>, b: seq<bool>): (r: seq<bool>)
    requires |a| == |b|
    ensures |r| == |a|
  {
    seq(|a|, i requires 0 <= i < |a| => a[i] != b[i])
  }

  /** 0x1021 */
  function Poly(): Reg { seq(16, i => i == 3 || i == 10 || i == 15) }

  /** (n << 1) within 16 bits, folding the polynomial in when a one falls out. */
  function Round(n: Reg): Reg {
    if n[0] then Xor(n[1..] + [false], Poly()) else n[1..] + [false]
  }

  function Run(n: Reg, k: nat): Reg
    decreases k
  {
    if k == 0 then n else Run(Round(n), k - 1)
  }

  /** b << 8 as a register. */
  function High(b: Octet): Reg { b + Zeros(8) }

  function Feed(n: Reg, b: Octet): Reg { Run(Xor(n, High(b)), BITS) }

  function FeedAll(n: Reg, data: seq<Octet>): Reg
    decreases |data|
  {
    if data == [] then n else FeedAll(Feed(n, data[0]), data[1..])
  }

  function Crc(data: seq<Octet>): Reg { FeedAll(Fill(true), data) }

  // ---- integers and their bits ----

  function Digit(b: bool): nat { if b then 1 else 0 }

  function Value(s: seq<bool>): nat {
    if s == [] then 0 else Digit(s[|s| - 1]) + 2 * Value(s[..|s| - 1])
  }

  /** The low k bits of v. */
  function BitsOf(v: nat, k: nat): (s: seq<bool>)
    ensures |s| == k
  {
    if k == 0 then [] else BitsOf(v / 2, k - 1) + [v % 2 == 1]
  }

  function Octets(data: seq<byte>): (r: seq<Octet>)
    ensures |r| == |data|
  {
    seq(|data|, i requires 0 <= i < |data| => BitsOf(data[i], 8))
  }

  lemma {:induction false} ValueBelow(s: seq<bool>)
    ensures Value(s) < Bits.Pow2(|s|)
  {
    if s == [] {
    } else {
      ValueBelow(s[..|s| - 1]);
    }
  }

  lemma ValueNext(s: seq<bool>, b: bool)
    ensures Value(s + [b]) == Digit(b) + 2 * Value(s)
  {
    assert (s + [b])[..|s|] == s;
  }

  lemma {:induction false} ValueOfBits(v: nat, k: nat)
    requires v < Bits.Pow2(k)
    ensures Value(BitsOf(v, k)) == v
  {
    if k == 0 {
    } else {
      ValueOfBits(v / 2, k - 1);
      ValueNext(BitsOf(v / 2, k - 1), v % 2 == 1);
    }
  }

  lemma {:induction false} ValueXor(s: seq<bool>, t: seq<bool>)
    requires |s| == |t|
    ensures Value(Xor(s, t)) == Bits.Xor(Value(s), Value(t))
  {
    if s == [] {
    } else {
      var k := |s| - 1;
      ValueXor(s[..k], t[..k]);
      assert Xor(s, t)[..k] == Xor(s[..k], t[..k]);
      Bits.XorHalves(Value(s[..k]), Value(t[..k]), s[k], t[k]);
    }
  }

  lemma {:induction false} ValueHead(b: bool, s: seq<bool>)
    ensures Value([b] + s) == Digit(b) * Bits.Pow2(|s|) + Value(s)
  {
    if s == [] {
      assert [b] + s == [b] && [b][..0] == [];
    } else {
      var k := |s| - 1;
      ValueHead(b, s[..k]);
      assert ([b] + s)[..|s|] == [b] + s[..k] && ([b] + s)[|s|] == s[k];
    }
  }

  lemma {:induction false} ValueShift(s: seq<bool>, k: nat)
    ensures Value(s + Zeros(k)) == Bits.Shl(Value(s), k)
  {
    if k == 0 {
      assert s + Zeros(0) == s;
    } else {
      var t := s + Zeros(k);
      ValueShift(s, k - 1);
      assert t[..|t| - 1] == s + Zeros(k - 1) && !t[|t| - 1];
    }
  }

  lemma {:induction false} ValueZeros(k: nat)
    ensures Value(Zeros(k)) == 0
  {
    if k == 0 {
    } else {
      ValueZeros(k - 1);
      assert Zeros(k)[..k - 1] == Zeros(k - 1);
    }
  }

  lemma PolyTerms()
    ensures Poly() == Zeros(3) + [true] + Zeros(6) + [true] + Zeros(4) + [true]
  {}

  lemma ValuePoly()
    ensures Value(Poly()) == 0x1021
  {
    var p := Zeros(3) + [true];
    var q := p + Zeros(6) + [true];
    PolyTerms();
    ValueZeros(3);
    ValueNext(Zeros(3), true);
    ValueShift(p, 6);
    assert Bits.Shl(1, 6) == 64;
    ValueNext(p + Zeros(6), true);
    ValueShift(q, 4);
    assert Bits.Shl(129, 4) == 2064;
    ValueNext(q + Zeros(4), true);
  }

  lemma {:induction false} HighBit(v: nat, k: nat)
    requires v < 2 * Bits.Pow2(k)
    ensures Bits.Bit(v, k) <==> v >= Bits.Pow2(k)
  {
    if k == 0 {
    } else {
      HighBit(v / 2, k - 1);
    }
  }

  lemma TopBit(n: Reg)
    ensures Bits.And(Value(n), 0x8000) != 0 <==> n[0]
  {
    Bits.Pow2Values();
    assert Bits.Pow2(16) == 2 * Bits.Pow2(15);
    assert n == [n[0]] + n[1..];
    ValueHead(n[0], n[1..]);
    ValueBelow(n[1..]);
    Bits.TestBit(Value(n), 15);
    HighBit(Value(n), 15);
  }

  /** Dropping the bit that falls out is masking it off. */
  lemma MaskLow(b: bool, n: Reg)
    ensures Bits.And(Value([b] + n), 0xffff) == Value(n)
  {
    Bits.Pow2Values();
    ValueHead(b, n);
    ValueBelow(n);
    Bits.AndMask(Value([b] + n), 16);
    Bits.DivModUnique(Value([b] + n), 0x1_0000, Digit(b), Value(n));
  }

  /** The integer round is the register's. */
  lemma RoundIsInteger(n: Reg)
    ensures var v := Value(n);
            Value(Round(n)) == if Bits.And(v, 0x8000) != 0 then Bits.And(Bits.Xor(Bits.Shl(v, 1), 0x1021), 0xffff)
                               else Bits.And(Bits.Shl(v, 1), 0xffff)
  {
    var low := n[1..] + [false];
    TopBit(n);
    ValueShift(n, 1);
    assert Zeros(1) == [false] && n + Zeros(1) == [n[0]] + low;
    if n[0] {
      ValuePoly();
      ValueHead(false, Poly());
      assert Xor([n[0]] + low, [false] + Poly()) == [n[0]] + Xor(low, Poly());
      ValueXor([n[0]] + low, [false] + Poly());
      MaskLow(n[0], Xor(low, Poly()));
    } else {
      MaskLow(n[0], low);
    }
  }

  /** Folding a byte in: n ^= b << 8. */
  lemma FoldIsInteger(n: Reg, b: byte)
    ensures Value(Xor(n, High(BitsOf(b, 8)))) == Bits.Xor(Value(n), Bits.Shl(b, 8))
  {
    Bits.Pow2Values();
    ValueOfBits(b, 8);
    ValueShift(BitsOf(b, 8), 8);
    ValueXor(n, High(BitsOf(b, 8)));
  }

  method ShiftOne(n0: nat, ghost reg: Reg) returns (n: nat)
    requires n0 == Value(reg)
    ensures n == Value(Round(reg))
  {
    RoundIsInteger(reg);
    if Bits.And(n0, 0x8000) != 0 {
      n := Bits.And(Bits.Xor(Bits.Shl(n0, 1), 0x1021), 0xffff);
    } else {
      n := Bits.And(Bits.Shl(n0, 1), 0xffff);
    }
  }

  method Rounds(n0: nat, k: nat, ghost reg: Reg) returns (n: nat)
    requires n0 == Value(reg)
    ensures n == Value(Run(reg, k))
  {
    n := n0;
    ghost var r := reg;
    for j := 0 to k
      invariant n == Value(r) && Run(r, k - j) == Run(reg, k)
    {
      n := ShiftOne(n, r);
      r := Round(r);
    }
  }

  /** A byte folded in, and the eight rounds after it. */
  method Shift(n0: nat, b: byte, ghost reg: Reg) returns (n: nat)
    requires n0 == Value(reg)
    ensures n == Value(Feed(reg, BitsOf(b, 8)))
  {
    FoldIsInteger(reg, b);
    n := Bits.Xor(n0, Bits.Shl(b, 8));
    n := Rounds(n, BITS, Xor(reg, High(BitsOf(b, 8))));
  }

  lemma {:induction false} OnesOf(k: nat)
    ensures Value(seq(k, _ => true)) == Bits.Pow2(k) - 1
  {
    if k == 0 {
    } else {
      OnesOf(k - 1);
      assert seq(k, _ => true)[..k - 1] == seq(k - 1, _ => true);
    }
  }

  lemma ValueOnes()
    ensures Value(Fill(true)) == 0xffff
  {
    Bits.Pow2Values();
    OnesOf(16);
    assert seq(16, _ => true) == Fill(true);
  }

  /** What ip_crc16 returns. */
  function Crc16(data: seq<byte>): nat { Value(Crc(Octets(data))) }

  /** Nothing shifted in leaves the initial value. */
  lemma CrcOfNothing()
    ensures Crc16([]) == 0xffff
  {
    ValueOnes();
  }

  method IpCrc16(data: seq<byte>) returns (n: nat)
    ensures n == Crc16(data)
  {
    n := 0xffff;
    ghost var reg, octets := Fill(true), Octets(data);
    ValueOnes();
    for i := 0 to |data|
      invariant n == Value(reg) && FeedAll(reg, octets[i..]) == Crc(octets)
    {
      assert octets[i..][0] == octets[i] && octets[i..][1..] == octets[i + 1..];
      n := Shift(n, data[i], reg);
      reg := Feed(reg, octets[i]);
    }
    assert octets[|data|..] == [];
  }

  /** Different registers are different integers. */
  lemma {:induction false} ValueApart(s: seq<bool>, t: seq<bool>)
    requires |s| == |t| && s != t
    ensures Value(s) != Value(t)
  {
    var k := |s| - 1;
    if s[k] != t[k] {
    } else {
      assert s == s[..k] + [s[k]] && t == t[..k] + [t[k]];
      ValueApart(s[..k], t[..k]);
    }
  }

  // ---- the register is linear over exclusive or, and loses nothing ----

  lemma RoundXor(a: Reg, b: Reg)
    ensures Round(Xor(a, b)) == Xor(Round(a), Round(b))
  {}

  lemma RoundApart(a: Reg, b: Reg)
    requires Round(a) == Round(b)
    ensures a == b
  {
    assert Round(a)[15] == a[0] && Round(b)[15] == b[0];
    forall i | 1 <= i < 16 ensures a[i] == b[i] {
      assert Round(a)[i - 1] == (a[i] != (a[0] && Poly()[i - 1]));
      assert Round(b)[i - 1] == (b[i] != (b[0] && Poly()[i - 1]));
    }
  }

  lemma {:induction false} RunXor(a: Reg, b: Reg, k: nat)
    ensures Run(Xor(a, b), k) == Xor(Run(a, k), Run(b, k))
    decreases k
  {
    if k == 0 {
    } else {
      RoundXor(a, b);
      RunXor(Round(a), Round(b), k - 1);
    }
  }

  lemma {:induction false} RunApart(a: Reg, b: Reg, k: nat)
    requires a != b
    ensures Run(a, k) != Run(b, k)
    decreases k
  {
    if k == 0 {
    } else {
      if Round(a) == Round(b) { RoundApart(a, b); }
      RunApart(Round(a), Round(b), k - 1);
    }
  }

  function XorAll(s: seq<Octet>, t: seq<Octet>): (r: seq<Octet>)
    requires |s| == |t|
    ensures |r| == |s|
  {
    seq(|s|, i requires 0 <= i < |s| => Xor(s[i], t[i]))
  }

  lemma FeedXor(a: Reg, b: Reg, c: Octet, d: Octet)
    ensures Feed(Xor(a, b), Xor(c, d)) == Xor(Feed(a, c), Feed(b, d))
  {
    assert Xor(Xor(a, b), High(Xor(c, d))) == Xor(Xor(a, High(c)), Xor(b, High(d)));
    RunXor(Xor(a, High(c)), Xor(b, High(d)), BITS);
  }

  lemma {:induction false} FeedAllXor(a: Reg, b: Reg, s: seq<Octet>, t: seq<Octet>)
    requires |s| == |t|
    ensures FeedAll(Xor(a, b), XorAll(s, t)) == Xor(FeedAll(a, s), FeedAll(b, t))
    decreases |s|
  {
    if s == [] {
    } else {
      FeedXor(a, b, s[0], t[0]);
      assert XorAll(s, t)[1..] == XorAll(s[1..], t[1..]);
      FeedAllXor(Feed(a, s[0]), Feed(b, t[0]), s[1..], t[1..]);
    }
  }

  /** Affine: the CRCs of three equal-length messages combine as the messages do. */
  lemma AffineBits(s: seq<Octet>, t: seq<Octet>, u: seq<Octet>)
    requires |s| == |t| == |u|
    ensures Crc(XorAll(XorAll(s, t), u)) == Xor(Xor(Crc(s), Crc(t)), Crc(u))
  {
    var ones := Fill(true);
    FeedAllXor(ones, ones, s, t);
    FeedAllXor(Fill(false), ones, XorAll(s, t), u);
    assert Xor(ones, ones) == Fill(false) && Xor(Fill(false), ones) == ones;
  }

  // ---- one bit at a time ----

  /** A bit folded in at the top, and one round. */
  function Bite(n: Reg, b: bool): Reg { Round(Xor(n, [b] + Zeros(15))) }

  function Serial(n: Reg, bits: seq<bool>): Reg
    decreases |bits|
  {
    if bits == [] then n else Serial(Bite(n, bits[0]), bits[1..])
  }

  function Flat(data: seq<Octet>): seq<bool> {
    if data == [] then [] else data[0] + Flat(data[1..])
  }

  lemma {:induction false} SerialPlus(n: Reg, s: seq<bool>, t: seq<bool>)
    ensures Serial(n, s + t) == Serial(Serial(n, s), t)
    decreases |s|
  {
    if s == [] {
      assert s + t == t;
    } else {
      assert (s + t)[0] == s[0] && (s + t)[1..] == s[1..] + t;
      SerialPlus(Bite(n, s[0]), s[1..], t);
    }
  }

  lemma PushDown(n: Reg, s: seq<bool>)
    requires 0 < |s| <= 16
    ensures Xor(Bite(n, s[0]), s[1..] + Zeros(17 - |s|)) == Round(Xor(n, s + Zeros(16 - |s|)))
  {
    var rest: Reg := [false] + s[1..] + Zeros(16 - |s|);
    assert Round(rest) == s[1..] + Zeros(17 - |s|);
    RoundXor(Xor(n, [s[0]] + Zeros(15)), rest);
    assert Xor(Xor(n, [s[0]] + Zeros(15)), rest) == Xor(n, s + Zeros(16 - |s|));
  }

  /** Up to sixteen bits fed one at a time are as many rounds of them folded in at once: none has reached
      the top before its turn. */
  lemma {:induction false} SerialIsRun(n: Reg, s: seq<bool>)
    requires |s| <= 16
    ensures Serial(n, s) == Run(Xor(n, s + Zeros(16 - |s|)), |s|)
    decreases |s|
  {
    if s == [] {
      assert Xor(n, [] + Zeros(16)) == n;
    } else {
      SerialIsRun(Bite(n, s[0]), s[1..]);
      PushDown(n, s);
    }
  }

  lemma {:induction false} FeedAllIsSerial(n: Reg, data: seq<Octet>)
    ensures FeedAll(n, data) == Serial(n, Flat(data))
    decreases |data|
  {
    if data == [] {
    } else {
      SerialIsRun(n, data[0]);
      SerialPlus(n, data[0], Flat(data[1..]));
      FeedAllIsSerial(Feed(n, data[0]), data[1..]);
    }
  }

  lemma {:induction false} FlatPlus(s: seq<Octet>, t: seq<Octet>)
    ensures Flat(s + t) == Flat(s) + Flat(t)
    decreases |s|
  {
    if s == [] {
      assert s + t == t;
    } else {
      assert (s + t)[1..] == s[1..] + t;
      FlatPlus(s[1..], t);
      assert s[0] + (Flat(s[1..]) + Flat(t)) == s[0] + Flat(s[1..]) + Flat(t);
    }
  }

  lemma XorApart(a: seq<bool>, b: seq<bool>, c: seq<bool>)
    requires |a| == |b| == |c| && a != b
    ensures Xor(a, c) != Xor(b, c) && Xor(c, a) != Xor(c, b)
  {
    var i :| 0 <= i < |a| && a[i] != b[i];
    assert Xor(a, c)[i] != Xor(b, c)[i] && Xor(c, a)[i] != Xor(c, b)[i];
  }

  /** Feeding the same bits into two different registers keeps them different. */
  lemma {:induction false} SerialApart(a: Reg, b: Reg, bits: seq<bool>)
    requires a != b
    ensures Serial(a, bits) != Serial(b, bits)
    decreases |bits|
  {
    if bits == [] {
    } else {
      var top := [bits[0]] + Zeros(15);
      XorApart(a, b, top);
      if Bite(a, bits[0]) == Bite(b, bits[0]) { RoundApart(Xor(a, top), Xor(b, top)); }
      SerialApart(Bite(a, bits[0]), Bite(b, bits[0]), bits[1..]);
    }
  }

  // ---- what the CRC detects ----

  lemma BurstApart(n: Reg, burst: seq<bool>, burst': seq<bool>)
    requires |burst| == |burst'| <= 16 && burst != burst'
    ensures Serial(n, burst) != Serial(n, burst')
  {
    var pad := Zeros(16 - |burst|);
    SerialIsRun(n, burst);
    SerialIsRun(n, burst');
    var i :| 0 <= i < |burst| && burst[i] != burst'[i];
    assert (burst + pad)[i] != (burst' + pad)[i];
    XorApart(burst + pad, burst' + pad, n);
    RunApart(Xor(n, burst + pad), Xor(n, burst' + pad), |burst|);
  }

  /** Every burst of up to sixteen bits is caught, at any bit offset: messages that agree before and after
      it, and are not the same, leave different registers. */
  lemma BurstsApart(s: seq<Octet>, t: seq<Octet>, head: seq<bool>, burst: seq<bool>, burst': seq<bool>,
                       tail: seq<bool>)
    requires Flat(s) == head + burst + tail && Flat(t) == head + burst' + tail
    requires |burst| == |burst'| <= 16 && burst != burst'
    ensures Crc(s) != Crc(t)
  {
    var ones := Fill(true);
    var n := Serial(ones, head);
    FeedAllIsSerial(ones, s);
    FeedAllIsSerial(ones, t);
    SerialPlus(ones, head + burst, tail);
    SerialPlus(ones, head + burst', tail);
    SerialPlus(ones, head, burst);
    SerialPlus(ones, head, burst');
    BurstApart(n, burst, burst');
    SerialApart(Serial(n, burst), Serial(n, burst'), tail);
  }

  /** How many bits are set, modulo two. */
  function Odd(s: seq<bool>): bool {
    if s == [] then false else Odd(s[..|s| - 1]) != s[|s| - 1]
  }

  lemma {:induction false} OddPlus(s: seq<bool>, t: seq<bool>)
    ensures Odd(s + t) == (Odd(s) != Odd(t))
  {
    if t == [] {
      assert s + t == s;
    } else {
      assert (s + t)[..|s + t| - 1] == s + t[..|t| - 1];
      OddPlus(s, t[..|t| - 1]);
    }
  }

  lemma {:induction false} OddXor(s: seq<bool>, t: seq<bool>)
    requires |s| == |t|
    ensures Odd(Xor(s, t)) == (Odd(s) != Odd(t))
  {
    if s == [] {
    } else {
      var k := |s| - 1;
      OddXor(s[..k], t[..k]);
      assert Xor(s, t)[..k] == Xor(s[..k], t[..k]);
    }
  }

  lemma OddOne(b: bool)
    ensures Odd([b]) == b
  {
    assert [b][..0] == [];
  }

  lemma {:induction false} OddZeros(k: nat)
    ensures !Odd(Zeros(k))
  {
    if k == 0 {
    } else {
      OddZeros(k - 1);
      assert Zeros(k)[..k - 1] == Zeros(k - 1);
    }
  }

  lemma OddPoly()
    ensures Odd(Poly())
  {
    var p := Zeros(3) + [true];
    var q := p + Zeros(6) + [true];
    PolyTerms();
    OddPlus(Zeros(3), [true]);
    OddPlus(p, Zeros(6));
    OddPlus(p + Zeros(6), [true]);
    OddPlus(q, Zeros(4));
    OddPlus(q + Zeros(4), [true]);
    OddOne(true);
    OddZeros(3);
    OddZeros(4);
    OddZeros(6);
  }

  /** The polynomial has three low terms besides the one that falls out, so a round keeps the parity: the
      full polynomial has the factor x + 1. */
  lemma RoundKeepsParity(n: Reg)
    ensures Odd(Round(n)) == Odd(n)
  {
    var low := n[1..] + [false];
    assert n == [n[0]] + n[1..];
    OddPlus([n[0]], n[1..]);
    OddPlus(n[1..], [false]);
    OddOne(n[0]);
    OddOne(false);
    if n[0] {
      OddXor(low, Poly());
      OddPoly();
    }
  }

  lemma {:induction false} SerialParity(n: Reg, bits: seq<bool>)
    ensures Odd(Serial(n, bits)) == (Odd(n) != Odd(bits))
    decreases |bits|
  {
    if bits == [] {
    } else {
      var top := [bits[0]] + Zeros(15);
      OddPlus([bits[0]], Zeros(15));
      OddOne(bits[0]);
      OddZeros(15);
      OddXor(n, top);
      RoundKeepsParity(Xor(n, top));
      SerialParity(Bite(n, bits[0]), bits[1..]);
      assert bits == [bits[0]] + bits[1..];
      OddPlus([bits[0]], bits[1..]);
    }
  }

  /** Every error in an odd number of bits is caught, wherever the bits are. */
  lemma OddErrorsApart(s: seq<Octet>, t: seq<Octet>)
    requires |Flat(s)| == |Flat(t)| && Odd(Xor(Flat(s), Flat(t)))
    ensures Crc(s) != Crc(t)
  {
    var ones := Fill(true);
    FeedAllIsSerial(ones, s);
    FeedAllIsSerial(ones, t);
    SerialParity(ones, Flat(s));
    SerialParity(ones, Flat(t));
    OddXor(Flat(s), Flat(t));
  }

  lemma {:induction false} RunClear(k: nat)
    ensures Run(Fill(false), k) == Fill(false)
  {
    if k == 0 {
    } else {
      assert Round(Fill(false)) == Fill(false);
      RunClear(k - 1);
    }
  }

  lemma FlatTwo(a: Octet, b: Octet)
    ensures Flat([a, b]) == a + b
  {
    assert [a, b][1..] == [b] && [b][1..] == [];
    assert Flat([b]) == b + Flat([]);
  }

  /** A register fed its own bits is cleared. */
  lemma FedItself(n: Reg)
    ensures Serial(n, n) == Fill(false)
  {
    SerialIsRun(n, n);
    assert n + Zeros(0) == n && Xor(n, n) == Fill(false);
    RunClear(16);
  }

  lemma CrcPlus(data: seq<Octet>, last: seq<Octet>)
    ensures Crc(data + last) == Serial(Crc(data), Flat(last))
  {
    FeedAllIsSerial(Fill(true), data);
    FeedAllIsSerial(Fill(true), data + last);
    FlatPlus(data, last);
    SerialPlus(Fill(true), Flat(data), Flat(last));
  }

  // ---- the same of bytes and integers ----

  /** A message as one number, first byte most significant. */
  function Number(data: seq<byte>): nat {
    if data == [] then 0 else data[|data| - 1] + 0x100 * Number(data[..|data| - 1])
  }

  function XorByte(a: byte, b: byte): byte {
    Bits.Pow2Values();
    Bits.XorBelow(a, b, 8);
    Bits.Xor(a, b)
  }

  function XorBytes(s: seq<byte>, t: seq<byte>): (r: seq<byte>)
    requires |s| == |t|
    ensures |r| == |s|
  {
    seq(|s|, i requires 0 <= i < |s| => XorByte(s[i], t[i]))
  }

  /** How many bits of v are set. */
  function Weight(v: nat): nat {
    if v == 0 then 0 else v % 2 + Weight(v / 2)
  }

  lemma {:induction false} BitsOfXor(a: nat, b: nat, k: nat)
    ensures BitsOf(Bits.Xor(a, b), k) == Xor(BitsOf(a, k), BitsOf(b, k))
  {
    if k == 0 {
    } else {
      BitsOfXor(a / 2, b / 2, k - 1);
      Bits.XorHalf(a, b);
    }
  }

  lemma OctetsXor(s: seq<byte>, t: seq<byte>)
    requires |s| == |t|
    ensures Octets(XorBytes(s, t)) == XorAll(Octets(s), Octets(t))
  {
    forall i | 0 <= i < |s| ensures Octets(XorBytes(s, t))[i] == XorAll(Octets(s), Octets(t))[i] {
      BitsOfXor(s[i], t[i], 8);
    }
  }

  /** Affine: the CRCs of three equal-length messages combine as the messages do. */
  lemma Affine(s: seq<byte>, t: seq<byte>, u: seq<byte>)
    requires |s| == |t| == |u|
    ensures Crc16(XorBytes(XorBytes(s, t), u)) == Bits.Xor(Bits.Xor(Crc16(s), Crc16(t)), Crc16(u))
  {
    OctetsXor(s, t);
    OctetsXor(XorBytes(s, t), u);
    AffineBits(Octets(s), Octets(t), Octets(u));
    ValueXor(Crc(Octets(s)), Crc(Octets(t)));
    ValueXor(Xor(Crc(Octets(s)), Crc(Octets(t))), Crc(Octets(u)));
  }

  lemma {:induction false} ValuePlus(s: seq<bool>, t: seq<bool>)
    ensures Value(s + t) == Bits.Shl(Value(s), |t|) + Value(t)
  {
    if t == [] {
      assert s + t == s;
    } else {
      var k := |t| - 1;
      assert (s + t)[..|s + t| - 1] == s + t[..k];
      ValuePlus(s, t[..k]);
    }
  }

  lemma FlatOne(b: Octet)
    ensures Flat([b]) == b
  {
    assert [b][1..] == [];
    assert b + Flat([]) == b;
  }

  lemma FlatLast(init: seq<byte>, last: byte)
    ensures Flat(Octets(init + [last])) == Flat(Octets(init)) + BitsOf(last, 8)
  {
    assert Octets(init + [last]) == Octets(init) + [BitsOf(last, 8)];
    FlatPlus(Octets(init), [BitsOf(last, 8)]);
    FlatOne(BitsOf(last, 8));
  }

  /** The bits of a message, in order, are those of its number. */
  lemma {:induction false} FlatIsNumber(data: seq<byte>)
    ensures |Flat(Octets(data))| == 8 * |data| && Value(Flat(Octets(data))) == Number(data)
  {
    if data == [] {
    } else {
      var init, last := data[..|data| - 1], data[|data| - 1];
      FlatIsNumber(init);
      FlatLast(init, last);
      ValuePlus(Flat(Octets(init)), BitsOf(last, 8));
      Bits.ShlEight(Number(init));
      Bits.Pow2Values();
      ValueOfBits(last, 8);
      assert data == init + [last];
    }
  }

  lemma ValueOfPair(high: byte, low: byte)
    ensures Value(BitsOf(high, 8) + BitsOf(low, 8)) == 0x100 * high + low
  {
    Bits.Pow2Values();
    ValueOfBits(high, 8);
    ValueOfBits(low, 8);
    ValuePlus(BitsOf(high, 8), BitsOf(low, 8));
    Bits.ShlEight(high);
  }

  lemma WeightNext(v: nat, b: bool)
    ensures Weight(Digit(b) + 2 * v) == Digit(b) + Weight(v)
  {
    assert (Digit(b) + 2 * v) / 2 == v && (Digit(b) + 2 * v) % 2 == Digit(b);
  }

  lemma {:induction false} OddIsWeight(s: seq<bool>)
    ensures Odd(s) <==> Weight(Value(s)) % 2 == 1
  {
    if s == [] {
    } else {
      OddIsWeight(s[..|s| - 1]);
      WeightNext(Value(s[..|s| - 1]), s[|s| - 1]);
    }
  }

  lemma Fits(d: nat, k: nat, n: nat) returns (w: nat)
    requires 0 < d < 0x1_0000 && Bits.Shl(d, k) < Bits.Pow2(n)
    ensures w <= 16 && w + k <= n && d < Bits.Pow2(w)
  {
    Bits.Pow2Values();
    Bits.ShlWithin(d, k, n);
    w := if n - k < 16 then n - k else 16;
  }

  /** How many bits of x, whose value is d moved up k places, the pattern d takes. */
  lemma BurstWidth(x: seq<bool>, d: nat, k: nat) returns (w: nat)
    requires 0 < d < 0x1_0000 && Value(x) == Bits.Shl(d, k)
    ensures w <= 16 && w + k <= |x| && x == Zeros(|x| - k - w) + BitsOf(d, w) + Zeros(k)
  {
    ValueBelow(x);
    w := Fits(d, k, |x|);
    var y := Zeros(|x| - k - w) + BitsOf(d, w) + Zeros(k);
    ValueOfBits(d, w);
    ValueZeros(|x| - k - w);
    ValuePlus(Zeros(|x| - k - w), BitsOf(d, w));
    Bits.ShlZero(w);
    ValueShift(Zeros(|x| - k - w) + BitsOf(d, w), k);
    if x != y { ValueApart(x, y); }
  }

  lemma SameWhereZero(a: seq<bool>, b: seq<bool>, lo: nat, hi: nat)
    requires |a| == |b| && lo <= hi <= |a| && forall i | lo <= i < hi :: !Xor(a, b)[i]
    ensures a[lo..hi] == b[lo..hi]
  {
    forall i | lo <= i < hi ensures a[i] == b[i] { assert !Xor(a, b)[i]; }
  }

  lemma XorSelf(a: seq<bool>)
    ensures Value(Xor(a, a)) == 0
  {
    ValueZeros(|a|);
    assert Xor(a, a) == Zeros(|a|);
  }

  /** Where the difference lies: the same before place i and from place j on, and not in between. */
  lemma BurstPlace(a: seq<bool>, b: seq<bool>, d: nat, k: nat) returns (i: nat, j: nat)
    requires |a| == |b| && 0 < d < 0x1_0000 && Value(Xor(a, b)) == Bits.Shl(d, k)
    ensures i <= j <= |a| && j - i <= 16 && a[..i] == b[..i] && a[j..] == b[j..] && a != b
  {
    var x := Xor(a, b);
    var w := BurstWidth(x, d, k);
    i, j := |a| - k - w, |a| - k;
    var zeros, last, burst := Zeros(i), Zeros(k), BitsOf(d, w);
    assert x == zeros + burst + last;
    forall n | 0 <= n < i ensures !x[n] { assert x[n] == zeros[n]; }
    forall n | j <= n < |a| ensures !x[n] { assert x[n] == last[n - j]; }
    SameWhereZero(a, b, 0, i);
    SameWhereZero(a, b, j, |a|);
    if a == b {
      XorSelf(a);
      Bits.ShlPositive(d, k);
    }
  }

  lemma Around(a: seq<bool>, i: nat, j: nat)
    requires i <= j <= |a|
    ensures a == a[..i] + a[i..j] + a[j..]
  {}

  lemma FlatAround(data: seq<byte>, k: nat)
    requires k < |data|
    ensures Flat(Octets(data)) == Flat(Octets(data[..k])) + BitsOf(data[k], 8) + Flat(Octets(data[k + 1..]))
  {
    var upto, rest := Octets(data[..k]) + [BitsOf(data[k], 8)], Octets(data[k + 1..]);
    assert Octets(data) == upto + rest;
    FlatPlus(upto, rest);
    FlatPlus(Octets(data[..k]), [BitsOf(data[k], 8)]);
    FlatOne(BitsOf(data[k], 8));
  }

  /** Messages of one length whose numbers differ by a pattern d of at most sixteen bits, k places up, never
      have the same CRC. */
  lemma BurstsDetected(s: seq<byte>, t: seq<byte>, d: nat, k: nat)
    requires |s| == |t| && 0 < d < 0x1_0000 && Bits.Xor(Number(s), Number(t)) == Bits.Shl(d, k)
    ensures Crc16(s) != Crc16(t)
  {
    var a, b := Flat(Octets(s)), Flat(Octets(t));
    FlatIsNumber(s);
    FlatIsNumber(t);
    ValueXor(a, b);
    var i, j := BurstPlace(a, b, d, k);
    Around(a, i, j);
    Around(b, i, j);
    BurstsApart(Octets(s), Octets(t), a[..i], a[i..j], b[i..j], a[j..]);
    ValueApart(Crc(Octets(s)), Crc(Octets(t)));
  }

  /** One differing byte is such a burst. */
  lemma OneByteDetected(data: seq<byte>, k: nat, v: byte)
    requires k < |data| && data[k] != v
    ensures Crc16(data) != Crc16(data[k := v])
  {
    var head, tail := Flat(Octets(data[..k])), Flat(Octets(data[k + 1..]));
    FlatAround(data, k);
    FlatAround(data[k := v], k);
    assert data[k := v][..k] == data[..k] && data[k := v][k + 1..] == data[k + 1..];
    Bits.Pow2Values();
    ValueOfBits(data[k], 8);
    ValueOfBits(v, 8);
    BurstsApart(Octets(data), Octets(data[k := v]), head, BitsOf(data[k], 8), BitsOf(v, 8), tail);
    ValueApart(Crc(Octets(data)), Crc(Octets(data[k := v])));
  }

  /** Messages of one length whose numbers differ in an odd number of bits never have the same CRC. */
  lemma OddErrorsDetected(s: seq<byte>, t: seq<byte>)
    requires |s| == |t| && Weight(Bits.Xor(Number(s), Number(t))) % 2 == 1
    ensures Crc16(s) != Crc16(t)
  {
    var a, b := Flat(Octets(s)), Flat(Octets(t));
    FlatIsNumber(s);
    FlatIsNumber(t);
    ValueXor(a, b);
    OddIsWeight(Xor(a, b));
    OddErrorsApart(Octets(s), Octets(t));
    ValueApart(Crc(Octets(s)), Crc(Octets(t)));
  }

  /** Two bytes appended to a message bring its CRC to zero if and only if they are its CRC, high byte first. */
  lemma SelfCheck(data: seq<byte>, high: byte, low: byte)
    ensures Crc16(data + [high, low]) == 0 <==> Crc16(data) == 0x100 * high + low
  {
    var n, last := Crc(Octets(data)), BitsOf(high, 8) + BitsOf(low, 8);
    assert Octets(data + [high, low]) == Octets(data) + [BitsOf(high, 8), BitsOf(low, 8)];
    CrcPlus(Octets(data), [BitsOf(high, 8), BitsOf(low, 8)]);
    FlatTwo(BitsOf(high, 8), BitsOf(low, 8));
    ValueOfPair(high, low);
    ValueZeros(16);
    assert Fill(false) == Zeros(16);
    FedItself(n);
    if last != n {
      ValueApart(last, n);
      BurstApart(n, last, n);
      ValueApart(Serial(n, last), Fill(false));
    }
  }
}
