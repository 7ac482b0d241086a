/** Square-twiddled (Morton) order: the encoder's spread table and the viewer's bit loop, two
    independently written forms of one permutation. */
module Morton {
  import opened Bits

  /** The position of pixel (x, y), k bits a side: its base-4 digits pair the bits of y, in the low
      place, with those of x. */
  function Index(x: nat, y: nat, k: nat): nat {
    if k == 0 then 0 else y % 2 + 2 * (x % 2) + 4 * Index(x / 2, y / 2, k - 1)
  }

  /** The pixel stored at position i. */
  function Col(i: nat, k: nat): nat {
    if k == 0 then 0 else i % 4 / 2 + 2 * Col(i / 4, k - 1)
  }

  function Row(i: nat, k: nat): nat {
    if k == 0 then 0 else i % 4 % 2 + 2 * Row(i / 4, k - 1)
  }

  function Pow4(k: nat): (p: nat)
    ensures p > 0
  {
    if k == 0 then 1 else 4 * Pow4(k - 1)
  }

  lemma Quad(xb: nat, yb: nat, j: nat)
    requires xb <= 1 && yb <= 1
    ensures var i := yb + 2 * xb + 4 * j; i / 4 == j && i % 4 / 2 == xb && i % 4 % 2 == yb
  {
    DivModUnique(yb + 2 * xb + 4 * j, 4, j, yb + 2 * xb);
  }

  lemma {:induction false} Recovered(x: nat, y: nat, k: nat)
    requires x < Pow2(k) && y < Pow2(k)
    ensures Col(Index(x, y, k), k) == x && Row(Index(x, y, k), k) == y && Index(x, y, k) < Pow4(k)
  {
    if k == 0 {
    } else {
      Recovered(x / 2, y / 2, k - 1);
      Quad(x % 2, y % 2, Index(x / 2, y / 2, k - 1));
    }
  }

  lemma Rejoin(v: nat, bit: nat, p: nat)
    requires bit <= 1 && v < p
    ensures (bit + 2 * v) / 2 == v && (bit + 2 * v) % 2 == bit && bit + 2 * v < 2 * p
  {}

  lemma {:induction false} Reached(i: nat, k: nat)
    requires i < Pow4(k)
    ensures Index(Col(i, k), Row(i, k), k) == i && Col(i, k) < Pow2(k) && Row(i, k) < Pow2(k)
  {
    if k == 0 {
    } else {
      Reached(i / 4, k - 1);
      var d, x, y := i % 4, Col(i / 4, k - 1), Row(i / 4, k - 1);
      Rejoin(x, d / 2, Pow2(k - 1));
      Rejoin(y, d % 2, Pow2(k - 1));
      assert i == d % 2 + 2 * (d / 2) + 4 * (i / 4);
    }
  }

  /** For every bit width k, Index is a bijection from [0, 2^k)^2 to [0, 4^k): it lands there, distinct
      pixels land apart, and every position is reached. */
  lemma Bijection(k: nat)
    ensures forall x: nat, y: nat | x < Pow2(k) && y < Pow2(k) :: Index(x, y, k) < Pow4(k)
    ensures forall x: nat, y: nat, x': nat, y': nat
              | x < Pow2(k) && y < Pow2(k) && x' < Pow2(k) && y' < Pow2(k) && Index(x, y, k) == Index(x', y', k)
              :: x == x' && y == y'
    ensures forall i: nat | i < Pow4(k) ::
              Col(i, k) < Pow2(k) && Row(i, k) < Pow2(k) && Index(Col(i, k), Row(i, k), k) == i
  {
    forall x: nat, y: nat | x < Pow2(k) && y < Pow2(k)
      ensures Index(x, y, k) < Pow4(k) && Col(Index(x, y, k), k) == x && Row(Index(x, y, k), k) == y
    {
      Recovered(x, y, k);
    }
    forall i: nat | i < Pow4(k)
      ensures Col(i, k) < Pow2(k) && Row(i, k) < Pow2(k) && Index(Col(i, k), Row(i, k), k) == i
    {
      Reached(i, k);
    }
  }

  /** More bits than the coordinates have add nothing, so widths that both fit agree. */
  lemma {:induction false} Widen(x: nat, y: nat, k: nat, j: nat)
    requires x < Pow2(k) && y < Pow2(k)
    ensures Index(x, y, k + j) == Index(x, y, k)
    decreases k + j
  {
    if k > 0 {
      Widen(x / 2, y / 2, k - 1, j);
      assert k + j - 1 == k - 1 + j;
    } else if j > 0 {
      assert Pow2(0) == 1 && x == 0 && y == 0;
      Widen(0, 0, 0, j - 1);
    }
  }

  // ---- the encoder's form: a table of sums, and one or ----

  /** sum(((v >> b) & 1) << (2 * b) for b in range(n)) */
  function SpreadSum(v: nat, n: nat): nat {
    if n == 0 then 0 else SpreadSum(v, n - 1) + Shl(Shr(v, n - 1) % 2, 2 * (n - 1))
  }

  lemma {:induction false} SumLow(v: nat, n: nat)
    requires n > 0
    ensures SpreadSum(v, n) == v % 2 + 4 * SpreadSum(v / 2, n - 1)
  {
    if n == 1 {
      assert SpreadSum(v, 0) == 0 && Shr(v, 0) == v && Shl(v % 2, 0) == v % 2;
    } else {
      SumLow(v, n - 1);
      var bit, k := Shr(v, n - 1) % 2, 2 * (n - 2);
      assert 2 * (n - 1) == k + 2 && Shl(bit, k + 2) == 2 * Shl(bit, k + 1) == 4 * Shl(bit, k);
    }
  }

  lemma {:induction false} SumIsIndex(x: nat, y: nat, n: nat)
    ensures SpreadSum(y, n) + 2 * SpreadSum(x, n) == Index(x, y, n)
  {
    if n == 0 {
    } else {
      SumLow(x, n);
      SumLow(y, n);
      SumIsIndex(x / 2, y / 2, n - 1);
    }
  }

  lemma OrBits(p: nat, a: nat, q: nat, b: nat)
    requires p <= 1 && q <= 1
    ensures Or(p + 2 * a, q + 2 * b) == (if p == 1 || q == 1 then 1 else 0) + 2 * Or(a, b)
  {
    assert (p + 2 * a) / 2 == a && (q + 2 * b) / 2 == b && (p + 2 * a) % 2 == p && (q + 2 * b) % 2 == q;
  }

  lemma OrQuad(xb: nat, yb: nat, a: nat, b: nat)
    requires xb <= 1 && yb <= 1
    ensures Or(yb + 4 * a, 2 * xb + 4 * b) == yb + 2 * xb + 4 * Or(a, b)
  {
    OrBits(yb, 2 * a, 0, xb + 2 * b);
    OrBits(0, a, xb, b);
  }

  lemma {:induction false} OrIsSum(x: nat, y: nat, n: nat)
    ensures Or(SpreadSum(y, n), 2 * SpreadSum(x, n)) == SpreadSum(y, n) + 2 * SpreadSum(x, n)
  {
    if n == 0 {
    } else {
      var a, b := SpreadSum(y / 2, n - 1), 2 * SpreadSum(x / 2, n - 1);
      OrIsSum(x / 2, y / 2, n - 1);
      OrQuad(x % 2, y % 2, a, b);
      assert SpreadSum(y, n) == y % 2 + 4 * a && 2 * SpreadSum(x, n) == 2 * (x % 2) + 4 * b by {
        SumLow(x, n);
        SumLow(y, n);
      }
    }
  }

  /** spread[y] | spread[x] << 1 is the position: the two entries have no bit in common. */
  lemma TableIndex(x: nat, y: nat, n: nat)
    ensures SpreadSum(y, n) + 2 * SpreadSum(x, n) == Index(x, y, n)
    ensures Or(SpreadSum(y, n), 2 * SpreadSum(x, n)) == Index(x, y, n)
  {
    SumIsIndex(x, y, n);
    OrIsSum(x, y, n);
  }

  // ---- the viewer's form: ten iterations of shift and or ----

  /** The low digits of total are in idx, k bits of them; the rest is the position of what remains of the
      coordinates, m bits a side. */
  predicate Gathered(total: nat, idx: nat, k: nat, x: nat, y: nat, m: nat) {
    idx < Pow2(k) && total == idx + Shl(Index(x, y, m), k)
  }

  lemma TwoBits(yb: nat, xb: nat, k: nat)
    requires yb <= 1 && xb <= 1
    ensures Or(Shl(yb, k), Shl(xb, k + 1)) == Shl(yb + 2 * xb, k)
  {
    ShlPlus(yb, 2 * xb, k);
    ShlTwice(xb, k);
    assert Pow2(1) == 2;
    ShlBelow(yb, k, 1);
    OrShifted(xb, Shl(yb, k), k + 1);
  }

  /** One base-4 digit, given as two shifted bits, or-ed above idx. */
  lemma OrDigit(idx: nat, yb: nat, xb: nat, k: nat)
    requires idx < Pow2(k) && yb <= 1 && xb <= 1
    ensures var next := Or(idx, Or(Shl(yb, k), Shl(xb, k + 1)));
            next == idx + Shl(yb + 2 * xb, k) && next < Pow2(k + 2)
  {
    var d := yb + 2 * xb;
    assert Or(Shl(yb, k), Shl(xb, k + 1)) == Shl(d, k) by { TwoBits(yb, xb, k); }
    OrShifted(d, idx, k);
    assert Pow2(2) == 4;
    ShlBelow(d, k, 2);
  }

  lemma ShlDigit(d: nat, rest: nat, k: nat)
    ensures Shl(d + 4 * rest, k) == Shl(d, k) + Shl(rest, k + 2)
  {
    ShlPlus(d, 4 * rest, k);
    ShlTwice(2 * rest, k);
    ShlTwice(rest, k + 1);
    assert Shl(2 * rest, k + 1) == Shl(4 * rest, k);
  }

  lemma GatherNext(total: nat, idx: nat, k: nat, x: nat, y: nat, m: nat)
    requires m > 0 && Gathered(total, idx, k, x, y, m)
    ensures Gathered(total, Or(idx, Or(Shl(y % 2, k), Shl(x % 2, k + 1))), k + 2, x / 2, y / 2, m - 1)
  {
    OrDigit(idx, y % 2, x % 2, k);
    ShlDigit(y % 2 + 2 * (x % 2), Index(x / 2, y / 2, m - 1), k);
  }

  lemma GatherStarts(x: nat, y: nat, m: nat)
    ensures Gathered(Index(x, y, m), 0, 0, x, y, m)
  {
    assert Pow2(0) == 1 && Shl(Index(x, y, m), 0) == Index(x, y, m);
  }

  lemma GatherEnds(total: nat, idx: nat, k: nat, x: nat, y: nat)
    requires Gathered(total, idx, k, x, y, 0)
    ensures idx == total
  {
    ShlZero(k);
  }

  /** detwiddle_index keeps ten bits of each coordinate. */
  method Detwiddle(x: nat, y: nat) returns (idx: nat)
    ensures idx == Index(x, y, 10)
  {
    idx := 0;
    ghost var total, xr, yr := Index(x, y, 10), x, y;
    GatherStarts(x, y, 10);
    for i := 0 to 10
      invariant xr == Shr(x, i) && yr == Shr(y, i)
      invariant Gathered(total, idx, 2 * i, xr, yr, 10 - i)
    {
      GatherNext(total, idx, 2 * i, xr, yr, 10 - i);
      ShrNext(x, i);
      ShrNext(y, i);
      idx := Or(idx, Or(Shl(Shr(y, i) % 2, 2 * i), Shl(Shr(x, i) % 2, 2 * i + 1)));
      xr, yr := xr / 2, yr / 2;
    }
    GatherEnds(total, idx, 20, xr, yr);
  }

  /** The encoder's eight-bit table and the viewer's ten-bit loop put a 256-wide pixel in one place. */
  lemma FormsAgree(x: nat, y: nat)
    requires x < 256 && y < 256
    ensures Or(SpreadSum(y, 8), 2 * SpreadSum(x, 8)) == Index(x, y, 10) == Index(x, y, 8) < 65536
  {
    assert Pow2(8) == 256 && Pow4(8) == 65536;
    TableIndex(x, y, 8);
    Widen(x, y, 8, 2);
    Recovered(x, y, 8);
  }
}
