/** The find-driven scans: maple-register literals in an image, and CDI marks in a loader. */
module Scan {
  import opened Words
  import opened Bits

  predicate Occurs(data: seq<byte>, pat: seq<byte>, i: int) {
    0 <= i <= |data| - |pat| && data[i..i + |pat|] == pat
  }

  /** Python's data.find(pat, start). */
  function Find(data: seq<byte>, pat: seq<byte>, start: nat): (r: int)
    ensures if r == -1 then forall i | start <= i :: !Occurs(data, pat, i)
            else start <= r && Occurs(data, pat, r) && forall i | start <= i < r :: !Occurs(data, pat, i)
    decreases |data| - start
  {
    if start + |pat| > |data| then -1
    else if data[start..start + |pat|] == pat then start
    else Find(data, pat, start + 1)
  }

  // ---- test_maple_literals.scan ----

  const PAIR: seq<byte> := [0x6c, 0x5f]

  /** (v & 0x1fffff00) == 0x005f6c00 */
  predicate IsMaple(v: u32) { And(v, 0x1fff_ff00) == 0x005f_6c00 }

  lemma MaskField(v: nat)
    ensures And(v, 0x1fff_ff00) == 256 * (v / 256 % 0x20_0000)
  {
    var field := v / 256;
    assert Shl(0x1f_ffff, 8) == 0x1fff_ff00;
    AndShifted(v, 0x1f_ffff, 8);
    ShrIsDiv(v, 8);
    Pow2Values();
    assert Pow2(5) == 32;
    Pow2Plus(16, 5);
    AndMask(field, 21);
    ShlEight(And(field, 0x1f_ffff));
  }

  lemma FieldBytes(v: u32, b0: byte, b1: byte, b2: byte, b3: byte)
    requires v == b0 as int + 0x100 * (b1 as int) + 0x1_0000 * (b2 as int) + 0x100_0000 * (b3 as int)
    ensures v / 256 % 0x20_0000 == b1 as int + 0x100 * (b2 as int) + 0x1_0000 * (b3 % 32)
  {
    var f: int := b1 as int + 0x100 * (b2 as int) + 0x1_0000 * (b3 as int);
    DivModUnique(v, 256, f, b0);
    DivModUnique(f, 0x20_0000, b3 / 32, b1 as int + 0x100 * (b2 as int) + 0x1_0000 * (b3 % 32));
  }

  /** In bytes: the second and third are the pair searched for, and the fourth is one of the mirrors. */
  lemma MapleBytes(v: u32, b0: byte, b1: byte, b2: byte, b3: byte)
    requires v == b0 as int + 0x100 * (b1 as int) + 0x1_0000 * (b2 as int) + 0x100_0000 * (b3 as int)
    ensures IsMaple(v) <==> b1 == 0x6c && b2 == 0x5f && b3 % 32 == 0
  {
    var field, r: int := v / 256, b1 as int + 0x100 * (b2 as int) + 0x1_0000 * (b3 % 32);
    assert And(v, 0x1fff_ff00) == 256 * (field % 0x20_0000) by { MaskField(v); }
    assert field % 0x20_0000 == r by { FieldBytes(v, b0, b1, b2, b3); }
  }

  /** Every aligned word that matches, by looking at every aligned word. */
  function Naive(data: seq<byte>): set<(int, u32)> {
    set off | 0 <= off <= |data| - 4 && off % 4 == 0 && IsMaple(Le32(data, off)) :: (off, Le32(data, off))
  }

  /** The matching words whose pair lies before pos; all of them once the search has failed. */
  ghost function Before(data: seq<byte>, pos: int): set<(int, u32)> {
    set h | h in Naive(data) && (pos == -1 || h.0 + 1 < pos)
  }

  /** The word around the pair at pos, if it matches. */
  function Hit(data: seq<byte>, pos: nat): set<(int, u32)> {
    var off := pos - 1;
    if off >= 0 && off % 4 == 0 && off + 4 <= |data| && IsMaple(Le32(data, off)) then {(off, Le32(data, off))} else {}
  }

  lemma HitHasPair(data: seq<byte>, off: int)
    requires 0 <= off <= |data| - 4 && IsMaple(Le32(data, off))
    ensures Occurs(data, PAIR, off + 1)
  {
    MapleBytes(Le32(data, off), data[off], data[off + 1], data[off + 2], data[off + 3]);
  }

  lemma NextHit(data: seq<byte>, pos: nat, next: int, h: (int, u32))
    requires next == Find(data, PAIR, pos + 1) && h in Before(data, next)
    ensures h in Before(data, pos) || h in Hit(data, pos)
  {
    HitHasPair(data, h.0);
    assert h.0 + 1 <= pos;
  }

  lemma NextHits(data: seq<byte>, pos: nat, next: int)
    requires next == Find(data, PAIR, pos + 1)
    ensures Before(data, next) == Before(data, pos) + Hit(data, pos)
  {
    forall h | h in Before(data, next) ensures h in Before(data, pos) + Hit(data, pos) { NextHit(data, pos, next, h); }
    forall h | h in Hit(data, pos) ensures h in Before(data, next) {}
  }

  lemma NoHits(data: seq<byte>)
    ensures Before(data, Find(data, PAIR, 0)) == {}
  {
    forall h | h in Before(data, Find(data, PAIR, 0)) ensures false { HitHasPair(data, h.0); }
  }

  method Scan(data: seq<byte>) returns (hits: set<(int, u32)>)
    ensures hits == Naive(data)
  {
    hits := {};
    var pos := Find(data, PAIR, 0);
    NoHits(data);
    while pos != -1
      invariant pos == -1 || Occurs(data, PAIR, pos)
      invariant hits == Before(data, pos)
      decreases pos != -1, |data| - pos
    {
      var off := pos - 1;
      ghost var seen := hits;
      if off >= 0 && off % 4 == 0 && off + 4 <= |data| {
        var v := Le32(data, off);
        if IsMaple(v) {
          hits := hits + {(off, v)};
        }
      }
      assert hits == seen + Hit(data, pos);
      NextHits(data, pos, Find(data, PAIR, pos + 1));
      pos := Find(data, PAIR, pos + 1);
    }
  }

  // ---- make_gdi.cdi_marks ----

  const MAGIC: seq<byte> := [0xde, 0xc0, 0xad, 0x0f]

  /** int.from_bytes(s, "little"), for any length. */
  function FromBytes(s: seq<byte>): nat {
    if s == [] then 0 else s[0] as int + 0x100 * FromBytes(s[1..])
  }

  /** Python's s[lo:hi], which clips. */
  function Clip(s: seq<byte>, lo: nat, hi: nat): seq<byte>
    requires lo <= hi
  {
    s[if lo < |s| then lo else |s|..if hi < |s| then hi else |s|]
  }

  /** The marks at or after i, by looking at every position. */
  function Marks(ldr: seq<byte>, i: nat): seq<nat>
    decreases |ldr| - i
  {
    if i >= |ldr| then []
    else (if Occurs(ldr, MAGIC, i) then [FromBytes(Clip(ldr, i + 4, i + 8))] else []) + Marks(ldr, i + 1)
  }

  lemma {:induction false} MarksSkip(ldr: seq<byte>, i: nat, j: nat)
    requires i <= j && forall k | i <= k < j :: !Occurs(ldr, MAGIC, k)
    ensures Marks(ldr, i) == Marks(ldr, j)
    decreases j - i
  {
    if i == j {
    } else {
      MarksSkip(ldr, i + 1, j);
    }
  }

  /** Of a packed word it is the word. */
  lemma FromPacked(v: u32)
    ensures FromBytes(Pack32(v)) == v
  {
    var s := Pack32(v);
    assert FromBytes(s) == s[0] as int + 0x100 * FromBytes(s[1..]);
    assert FromBytes(s[1..]) == s[1] as int + 0x100 * FromBytes(s[1..][1..]) && s[1..][1..] == s[2..];
    assert FromBytes(s[2..]) == s[2] as int + 0x100 * FromBytes(s[2..][1..]) && s[2..][1..] == s[3..];
    assert FromBytes(s[3..]) == s[3] as int + 0x100 * FromBytes(s[3..][1..]) && s[3..][1..] == [];
    Repack32(s);
    var v1 := v / 0x100;
    assert v == 0x100 * v1 + v % 0x100 && v1 == 0x100 * (v1 / 0x100) + v1 % 0x100;
  }

  /** A mark planted at i, followed by its word, is among the marks. */
  lemma {:induction false} MarkFound(ldr: seq<byte>, i: nat, from: nat, fad: u32)
    requires from <= i && i + 8 <= |ldr| && ldr[i..i + 4] == Pack32(0x0fad_c0de) && ldr[i + 4..i + 8] == Pack32(fad)
    ensures fad in Marks(ldr, from)
    decreases i - from
  {
    if from == i {
      FromPacked(fad);
      assert Occurs(ldr, MAGIC, i) && Clip(ldr, i + 4, i + 8) == Pack32(fad);
    } else {
      MarkFound(ldr, i, from + 1, fad);
    }
  }

  /** The four bytes at i are the mark's, and v is what the next four bytes, or fewer at the end, read as. */
  predicate MarkAt(ldr: seq<byte>, i: nat, v: nat) {
    && i + 4 <= |ldr| && ldr[i..i + 4] == [0xde, 0xc0, 0xad, 0x0f]
    && v == FromBytes(ldr[i + 4..if i + 8 <= |ldr| then i + 8 else |ldr|])
  }

  /** Nothing else is among the marks. */
  lemma {:induction false} MarkComesFrom(ldr: seq<byte>, from: nat, v: nat) returns (i: nat)
    requires v in Marks(ldr, from)
    ensures from <= i && MarkAt(ldr, i, v)
    decreases |ldr| - from
  {
    if Occurs(ldr, MAGIC, from) && v == FromBytes(Clip(ldr, from + 4, from + 8)) {
      i := from;
    } else {
      i := MarkComesFrom(ldr, from + 1, v);
    }
  }

  /** The marks from position i on, or none when the search has failed. */
  function Rest(ldr: seq<byte>, i: int): seq<nat>
    requires i >= -1
  {
    if i == -1 then [] else Marks(ldr, i)
  }

  lemma TakeMark(ldr: seq<byte>, i: nat, fads: seq<nat>, v: nat)
    requires Occurs(ldr, MAGIC, i) && v == FromBytes(Clip(ldr, i + 4, i + 8))
    ensures fads + Marks(ldr, i) == fads + [v] + Marks(ldr, i + 1)
  {
    assert i < |ldr|;
    assert Marks(ldr, i) == [v] + Marks(ldr, i + 1);
  }

  /** ldr.find(magic, start) */
  method NextMark(ldr: seq<byte>, start: nat) returns (i: int)
    requires start <= |ldr|
    ensures i == -1 || (start <= i && Occurs(ldr, MAGIC, i))
    ensures Rest(ldr, i) == Marks(ldr, start)
  {
    i := Find(ldr, MAGIC, start);
    MarksSkip(ldr, start, if i == -1 then |ldr| else i);
  }

  method CdiMarks(ldr: seq<byte>) returns (fads: seq<nat>)
    ensures fads == Marks(ldr, 0)
  {
    fads := [];
    var i := NextMark(ldr, 0);
    while i != -1
      invariant i == -1 || Occurs(ldr, MAGIC, i)
      invariant fads + Rest(ldr, i) == Marks(ldr, 0)
      decreases i != -1, |ldr| - i
    {
      var v := FromBytes(Clip(ldr, i + 4, i + 8));
      TakeMark(ldr, i, fads, v);
      fads := fads + [v];
      i := NextMark(ldr, i + 1);
    }
  }
}
