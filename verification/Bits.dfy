/** Bitwise operations on naturals, defined bit by bit, and the identities that turn masks and
    disjoint unions into arithmetic. */
module Bits {
  function Pow2(k: nat): (p: nat)
    ensures p > 0
  {
    if k == 0 then 1 else 2 * Pow2(k - 1)
  }

  lemma Pow2Plus(a: nat, b: nat)
    ensures Pow2(a + b) == Pow2(a) * Pow2(b)
    decreases b
  {
    if b > 0 {
      Pow2Plus(a, b - 1);
      assert a + b - 1 == a + (b - 1);
    }
  }

  lemma Pow2Values()
    ensures Pow2(8) == 0x100 && Pow2(16) == 0x1_0000
    ensures Pow2(24) == 0x100_0000 && Pow2(32) == 0x1_0000_0000
  {
    assert Pow2(8) == 0x100;
    Pow2Plus(8, 8);
    Pow2Plus(16, 8);
    Pow2Plus(16, 16);
  }

  function And(a: nat, b: nat): (r: nat)
    ensures r <= a && r <= b
  {
    if a == 0 || b == 0 then 0
    else (if a % 2 == 1 && b % 2 == 1 then 1 else 0) + 2 * And(a / 2, b / 2)
  }

  function Or(a: nat, b: nat): nat
    decreases a + b
  {
    if a == 0 && b == 0 then 0
    else (if a % 2 == 1 || b % 2 == 1 then 1 else 0) + 2 * Or(a / 2, b / 2)
  }

  lemma AndOdd(a: nat, m: nat, mask: nat)
    requires mask == 2 * m + 1
    ensures And(a, mask) == a % 2 + 2 * And(a / 2, m)
  {
    assert mask / 2 == m;
  }

  lemma MulNonNegative(x: nat, y: nat)
    ensures x * y >= 0
  {}

  lemma DivModUnique(a: int, d: int, q: int, r: int)
    requires d > 0 && a == d * q + r && 0 <= r < d
    ensures a / d == q && a % d == r
  {
    var k := a / d - q;
    assert d * k == r - a % d;
    if k > 0 {
      assert d * k == d + d * (k - 1);
      MulNonNegative(d, k - 1);
    } else if k < 0 {
      assert d * -k == d + d * (-k - 1);
      MulNonNegative(d, -k - 1);
    }
  }

  lemma TwiceProduct(n: nat, p: nat, q: nat)
    requires n == 2 * p
    ensures n * q == 2 * (p * q)
  {}

  lemma HalfMod(a: nat, p: nat, n: nat)
    requires n == 2 * p > 0
    ensures a % n == a % 2 + 2 * (a / 2 % p)
  {
    var half := a / 2;
    var q, r := half / p, half % p;
    assert a == a % 2 + 2 * (p * q + r);
    assert a == n * q + (a % 2 + 2 * r) by { TwiceProduct(n, p, q); }
    DivModUnique(a, n, q, a % 2 + 2 * r);
  }

  /** Masking with k low ones is the remainder modulo 2^k. */
  lemma {:induction false} AndMask(a: nat, k: nat)
    ensures And(a, Pow2(k) - 1) == a % Pow2(k)
  {
    if k == 0 {
    } else {
      AndMask(a / 2, k - 1);
      AndOdd(a, Pow2(k - 1) - 1, Pow2(k) - 1);
      HalfMod(a, Pow2(k - 1), Pow2(k));
    }
  }

  lemma AndComm(a: nat, b: nat)
    ensures And(a, b) == And(b, a)
  {}

  lemma {:induction false} OrBelow(a: nat, b: nat, k: nat)
    requires a < Pow2(k) && b < Pow2(k)
    ensures Or(a, b) < Pow2(k)
  {
    if k == 0 {
    } else {
      OrBelow(a / 2, b / 2, k - 1);
    }
  }

  lemma OrZero(a: nat)
    ensures Or(a, 0) == a && Or(0, a) == a
  {}

  lemma OrComm(a: nat, b: nat)
    ensures Or(a, b) == Or(b, a)
    decreases a + b
  {}

  /** Left and right shift by k. */
  function Shl(a: nat, k: nat): nat {
    if k == 0 then a else 2 * Shl(a, k - 1)
  }

  function Shr(a: nat, k: nat): nat {
    if k == 0 then a else Shr(a / 2, k - 1)
  }

  lemma {:induction false} ShrNext(a: nat, k: nat)
    ensures Shr(a, k + 1) == Shr(a, k) / 2
  {
    if k == 0 {
    } else {
      ShrNext(a / 2, k - 1);
    }
  }

  lemma {:induction false} ShlPlus(a: nat, b: nat, k: nat)
    ensures Shl(a + b, k) == Shl(a, k) + Shl(b, k)
  {
    if k == 0 {
    } else {
      ShlPlus(a, b, k - 1);
    }
  }

  lemma {:induction false} ShlTwice(a: nat, k: nat)
    ensures Shl(2 * a, k) == 2 * Shl(a, k) == Shl(a, k + 1)
  {
    if k == 0 {
    } else {
      ShlTwice(a, k - 1);
    }
  }

  lemma {:induction false} ShlBelow(a: nat, k: nat, j: nat)
    requires a < Pow2(j)
    ensures Shl(a, k) + Pow2(k) <= Pow2(k + j)
  {
    if k > 0 {
      ShlBelow(a, k - 1, j);
      assert k + j - 1 == k - 1 + j;
    } else {
      assert Pow2(0) == 1;
    }
  }

  lemma OrHalves(a: nat, b: nat, bit: nat)
    requires bit <= 1
    ensures Or(2 * a, 2 * b + bit) == bit + 2 * Or(a, b)
  {
    assert 2 * a / 2 == a && (2 * b + bit) / 2 == b;
  }

  /** A shifted value and a value below the shift have no bit in common, so their union is their sum. */
  lemma {:induction false} OrShifted(a: nat, b: nat, k: nat)
    requires b < Pow2(k)
    ensures Or(Shl(a, k), b) == Or(b, Shl(a, k)) == Shl(a, k) + b
  {
    if k == 0 {
      OrZero(a);
    } else {
      OrShifted(a, b / 2, k - 1);
      OrHalves(Shl(a, k - 1), b / 2, b % 2);
      OrComm(Shl(a, k), b);
    }
  }

  // ---- single bits ----

  function Bit(v: nat, k: nat): bool { Shr(v, k) % 2 == 1 }

  lemma HalfOf(v: nat, bit: bool)
    ensures ((if bit then 1 else 0) + 2 * v) / 2 == v && ((if bit then 1 else 0) + 2 * v) % 2 == if bit then 1 else 0
  {}

  lemma AndHalf(a: nat, b: nat)
    ensures And(a, b) / 2 == And(a / 2, b / 2)
  {
    if a == 0 || b == 0 {} else { HalfOf(And(a / 2, b / 2), a % 2 == 1 && b % 2 == 1); }
  }

  lemma {:induction false} AndBit(a: nat, b: nat, k: nat)
    ensures Bit(And(a, b), k) <==> Bit(a, k) && Bit(b, k)
  {
    if k == 0 {
      if a == 0 || b == 0 {} else { HalfOf(And(a / 2, b / 2), a % 2 == 1 && b % 2 == 1); }
    } else {
      AndBit(a / 2, b / 2, k - 1);
      AndHalf(a, b);
    }
  }

  lemma ShrZero(k: nat)
    ensures Shr(0, k) == 0
  {}

  /** Testing against one bit. */
  lemma {:induction false} TestBit(v: nat, k: nat)
    ensures And(v, Pow2(k)) != 0 <==> Bit(v, k)
  {
    if k == 0 {
    } else {
      TestBit(v / 2, k - 1);
      if v == 0 { ShrZero(k); }
    }
  }

  lemma ShlEight(w: nat)
    ensures Shl(w, 8) == 256 * w
  {
    assert Shl(w, 4) == 2 * Shl(w, 3) && Shl(w, 2) == 2 * Shl(w, 1) && Shl(w, 3) == 2 * Shl(w, 2);
    assert Shl(w, 8) == 2 * Shl(w, 7) && Shl(w, 7) == 2 * Shl(w, 6);
    assert Shl(w, 6) == 2 * Shl(w, 5) && Shl(w, 5) == 2 * Shl(w, 4);
  }

  /** Exclusive or. */
  function Xor(a: nat, b: nat): nat
    decreases a + b
  {
    if a == 0 && b == 0 then 0
    else (if a % 2 != b % 2 then 1 else 0) + 2 * Xor(a / 2, b / 2)
  }

  lemma XorHalves(a: nat, b: nat, p: bool, q: bool)
    ensures Xor((if p then 1 else 0) + 2 * a, (if q then 1 else 0) + 2 * b) == (if p != q then 1 else 0) + 2 * Xor(a, b)
  {
    HalfOf(a, p);
    HalfOf(b, q);
  }

  lemma AndEven(v: nat, m: nat)
    ensures And(v, 2 * m) == 2 * And(v / 2, m)
  {
    assert 2 * m / 2 == m;
    if v == 0 || m == 0 {
      assert And(v / 2, m) == 0;
    }
  }

  lemma {:induction false} AndShifted(v: nat, m: nat, k: nat)
    ensures And(v, Shl(m, k)) == Shl(And(Shr(v, k), m), k)
  {
    if k == 0 {
    } else {
      AndShifted(v / 2, m, k - 1);
      AndEven(v, Shl(m, k - 1));
    }
  }

  /** Taking a set bit away clears it and leaves every other bit. */
  lemma {:induction false} DropBit(v: nat, k: nat, j: nat)
    requires Bit(v, k)
    ensures v >= Pow2(k) && (Bit(v - Pow2(k), j) <==> j != k && Bit(v, j))
  {
    if k == 0 {
      assert (v - 1) / 2 == v / 2;
    } else {
      DropBit(v / 2, k - 1, if j == 0 then k else j - 1);
      assert Pow2(k) == 2 * Pow2(k - 1);
      assert (v - Pow2(k)) / 2 == v / 2 - Pow2(k - 1) && (v - Pow2(k)) % 2 == v % 2;
    }
  }

  // ---- shifts and masks as arithmetic ----

  lemma HalfDiv(v: nat, p: nat, n: nat)
    requires n == 2 * p > 0
    ensures v / 2 / p == v / n
  {
    var half := v / 2;
    var q, r := half / p, half % p;
    assert v == v % 2 + 2 * (p * q + r);
    assert v == n * q + (v % 2 + 2 * r) by { TwiceProduct(n, p, q); }
    DivModUnique(v, n, q, v % 2 + 2 * r);
  }

  lemma {:induction false} ShrIsDiv(v: nat, k: nat)
    ensures Shr(v, k) == v / Pow2(k)
  {
    if k == 0 {
    } else {
      ShrIsDiv(v / 2, k - 1);
      HalfDiv(v, Pow2(k - 1), Pow2(k));
    }
  }

  lemma {:induction false} ShlIsMul(v: nat, k: nat)
    ensures Shl(v, k) == v * Pow2(k)
  {
    if k == 0 {
    } else {
      ShlIsMul(v, k - 1);
      TwiceProduct(Pow2(k), Pow2(k - 1), v);
      assert Pow2(k) == 2 * Pow2(k - 1);
    }
  }

  /** A field of w bits, k places up, moved down. */
  lemma Field(v: nat, k: nat, w: nat)
    ensures And(Shr(v, k), Pow2(w) - 1) == v / Pow2(k) % Pow2(w)
  {
    ShrIsDiv(v, k);
    AndMask(Shr(v, k), w);
  }

  /** And left in its place. */
  lemma FieldInPlace(v: nat, k: nat, w: nat)
    ensures And(v, Shl(Pow2(w) - 1, k)) == v / Pow2(k) % Pow2(w) * Pow2(k)
  {
    AndShifted(v, Pow2(w) - 1, k);
    Field(v, k, w);
    ShlIsMul(v / Pow2(k) % Pow2(w), k);
  }

  lemma XorHalf(a: nat, b: nat)
    ensures Xor(a, b) / 2 == Xor(a / 2, b / 2) && (Xor(a, b) % 2 == 1 <==> a % 2 != b % 2)
  {
    if a == 0 && b == 0 {} else { HalfOf(Xor(a / 2, b / 2), a % 2 != b % 2); }
  }

  lemma {:induction false} XorBelow(a: nat, b: nat, k: nat)
    requires a < Pow2(k) && b < Pow2(k)
    ensures Xor(a, b) < Pow2(k)
  {
    if k == 0 {
    } else {
      XorBelow(a / 2, b / 2, k - 1);
      XorHalf(a, b);
    }
  }

  lemma {:induction false} ShlZero(k: nat)
    ensures Shl(0, k) == 0
  {
    if k == 0 {
    } else {
      ShlZero(k - 1);
    }
  }

  lemma {:induction false} ShlPositive(a: nat, k: nat)
    requires a > 0
    ensures Shl(a, k) > 0
  {
    if k == 0 {
    } else {
      ShlPositive(a, k - 1);
    }
  }

  /** A positive value moved up k places below 2^n leaves n - k places for the value. */
  lemma {:induction false} ShlWithin(a: nat, k: nat, n: nat)
    requires a > 0 && Shl(a, k) < Pow2(n)
    ensures k <= n && a < Pow2(n - k)
  {
    if k == 0 {
    } else {
      ShlPositive(a, k);
      ShlWithin(a, k - 1, n - 1);
    }
  }
}
