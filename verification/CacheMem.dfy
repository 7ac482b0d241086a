/** Physical RAM behind the SH-4's write-back operand cache, with 32-byte lines. A line the cache holds
    may differ from RAM: a dirty one because it was stored to, a clean one because RAM was written
    behind it. */
module CacheMem {
  import opened Words

  datatype LineState = Absent | Clean | Dirty

  /** ram is what DMA, uncached accesses and other bus masters see; copy is the cached byte where the
      line is present. Addresses are physical byte addresses, line(a) == a / 32. bios marks the lines the
      BIOS and the drive emulation keep for themselves, of which nothing is promised. fetched is a history
      variable: the lines that cached activity elsewhere filled since they were last invalidated. */
  datatype Mem = Mem(ram: int -> byte, copy: int -> byte, line: int -> LineState, bios: int -> bool,
                     fetched: int -> bool)
  {
    /** What a cached load of byte a returns. */
    function View(a: int): byte {
      if line(a / 32).Absent? then ram(a) else copy(a)
    }

    predicate Settled(a: int) { line(a / 32) != Dirty }
    /** One value, cached or not, with no write-back outstanding. */
    predicate Coherent(a: int) { Settled(a) && View(a) == ram(a) }
    /** A clean line may hold a byte RAM has moved on from. */
    predicate Stale(a: int) { line(a / 32).Clean? && copy(a) != ram(a) }
    /** Not one of the BIOS's own bytes. */
    predicate Ours(a: int) { !bios(a / 32) }
  }

  predicate In(a: int, lo: int, hi: int) { lo <= a < hi }

  /** The bytes of data as a total function of the address, for writes based at lo. */
  function Over(base: int -> byte, lo: int, data: seq<byte>): int -> byte {
    (a: int) => if lo <= a < lo + |data| then data[a - lo] else base(a)
  }

  /** Stores through the uncached P2 alias, and DMA into RAM: the cache is not consulted. */
  function WriteRam(m: Mem, lo: int, data: seq<byte>): Mem {
    m.(ram := Over(m.ram, lo, data))
  }

  predicate Touches(l: int, lo: int, hi: int) { lo < 32 * l + 32 && 32 * l < hi }

  /** Stores through a cached alias, copy-back with write-allocate: missing lines are filled first. */
  function WriteCached(m: Mem, lo: int, data: seq<byte>): Mem {
    m.(copy := Over((a: int) => m.View(a), lo, data),
       line := (l: int) => if |data| > 0 && Touches(l, lo, lo + |data|) then Dirty else m.line(l))
  }

  /** OCBI on every line of [lo, hi): drop the line, dirty or not, without writing it back. */
  function Invalidate(m: Mem, lo: int, hi: int): Mem {
    m.(line := (l: int) => if Touches(l, lo, hi) then Absent else m.line(l),
       fetched := (l: int) => !Touches(l, lo, hi) && m.fetched(l))
  }

  function PurgedByte(m: Mem, lo: int, hi: int, a: int): byte {
    if Touches(a / 32, lo, hi) && !m.Settled(a) then m.copy(a) else m.ram(a)
  }

  /** OCBP on every line of [lo, hi): write dirty lines back, then drop them. */
  function Purge(m: Mem, lo: int, hi: int): Mem {
    m.(ram := (a: int) => PurgedByte(m, lo, hi, a),
       line := (l: int) => if Touches(l, lo, hi) then Absent else m.line(l))
  }

  /** What cached activity elsewhere does to one line. */
  datatype LineOp = Leave | WriteBack | Evict | Fill

  function DriftLine(s: LineState, op: LineOp): LineState {
    match op
    case Leave     => s
    case WriteBack => if s.Dirty? then Clean else s
    case Evict     => Absent
    case Fill      => if s.Absent? then Clean else s
  }

  function DriftRam(m: Mem, plan: int -> LineOp, a: int): byte {
    if m.line(a / 32).Dirty? && (plan(a / 32).WriteBack? || plan(a / 32).Evict?) then m.copy(a) else m.ram(a)
  }

  function DriftCopy(m: Mem, plan: int -> LineOp, a: int): byte {
    if m.line(a / 32).Absent? && plan(a / 32).Fill? then m.ram(a) else m.copy(a)
  }

  /** Cached activity elsewhere in the program: any mixture of evictions, write-backs and fills. */
  function Drift(m: Mem, plan: int -> LineOp): Mem {
    Mem((a: int) => DriftRam(m, plan, a), (a: int) => DriftCopy(m, plan, a),
        (l: int) => DriftLine(m.line(l), plan(l)), m.bios,
        (l: int) => m.fetched(l) || (plan(l).Fill? && m.line(l).Absent?))
  }

  /** Byte a keeps its cached value unless a stale clean line held it, and its RAM value unless a dirty
      line did; and while a dirty line stays dirty, RAM stays as it is behind it. */
  ghost predicate KeptAt(m: Mem, m': Mem, a: int) {
    && (!m.Stale(a) ==> m'.View(a) == m.View(a) && !m'.Stale(a))
    && (m.Settled(a) ==> m'.ram(a) == m.ram(a) && m'.Settled(a))
    && (!m.Settled(a) && !m'.Settled(a) ==> m'.ram(a) == m.ram(a))
  }

  /** Every byte outside [lo, hi) that is not the BIOS's own is kept. */
  ghost predicate Kept(m: Mem, m': Mem, lo: int, hi: int) {
    m'.bios == m.bios && forall a | !In(a, lo, hi) && m.Ours(a) :: KeptAt(m, m', a)
  }

  /** Storing nothing allocates no line. */
  lemma WriteNothing(m: Mem, lo: int, l: int)
    ensures WriteCached(m, lo, []).line(l) == m.line(l)
  {}

  lemma WriteKeeps(m: Mem, lo: int, data: seq<byte>, a: int)
    requires !Touches(a / 32, lo, lo + |data|)
    ensures KeptAt(m, WriteCached(m, lo, data), a)
  {}

  /** A byte outside a range of whole lines shares no line with anything inside it. */
  lemma OutsideLines(lo: int, hi: int, p: int, q: int, a: int)
    requires lo % 32 == 0 && hi % 32 == 0 && lo <= p && q <= hi && !In(a, lo, hi)
    ensures !Touches(a / 32, p, q)
  {}

  lemma DriftKeeps(m: Mem, plan: int -> LineOp)
    ensures forall a :: KeptAt(m, Drift(m, plan), a)
  {}

  /** A cached write inside a range of whole lines keeps everything outside it. */
  lemma InnerWriteKeeps(m: Mem, lo: int, hi: int, at: int, data: seq<byte>)
    requires lo % 32 == 0 && hi % 32 == 0 && lo <= at && at + |data| <= hi
    ensures Kept(m, WriteCached(m, at, data), lo, hi)
  {
    forall a | !In(a, lo, hi) && m.Ours(a) ensures KeptAt(m, WriteCached(m, at, data), a) {
      OutsideLines(lo, hi, at, at + |data|, a);
      WriteKeeps(m, at, data, a);
    }
  }

  lemma KeptAtTrans(m0: Mem, m1: Mem, m2: Mem, a: int)
    requires KeptAt(m0, m1, a) && KeptAt(m1, m2, a)
    ensures KeptAt(m0, m2, a)
  {}

  lemma KeptTrans(m0: Mem, m1: Mem, m2: Mem, lo: int, hi: int)
    requires Kept(m0, m1, lo, hi) && Kept(m1, m2, lo, hi)
    ensures Kept(m0, m2, lo, hi)
  {
    forall a | !In(a, lo, hi) && m0.Ours(a) ensures KeptAt(m0, m2, a) {
      assert KeptAt(m0, m1, a) && KeptAt(m1, m2, a);
    }
  }

  // ---- uncached stores behind a dirty line ----

  /** Everything that can have become of byte a when want was stored there uncached, somewhere between m
      and m', with evictions before and after. Behind a dirty line the old copy may still land on top. */
  predicate LandedAt(m: Mem, m': Mem, a: int, want: byte) {
    if m.Settled(a) then m'.Settled(a) && m'.ram(a) == want
    else if m'.Settled(a) then m'.ram(a) == want || m'.ram(a) == m.copy(a)
    else m'.ram(a) == want && m'.copy(a) == m.copy(a)
  }

  lemma KeptThenLanded(m0: Mem, m1: Mem, m2: Mem, a: int, want: byte)
    requires KeptAt(m0, m1, a) && LandedAt(m1, m2, a, want)
    ensures LandedAt(m0, m2, a, want)
  {}

  lemma LandedThenKept(m0: Mem, m1: Mem, m2: Mem, a: int, want: byte)
    requires LandedAt(m0, m1, a, want) && KeptAt(m1, m2, a)
    ensures LandedAt(m0, m2, a, want)
  {}

  /** Exactly when an uncached write stays put. A later eviction can undo the write of data at lo if and
      only if some byte of it lies in a dirty line whose copy differs from it. */
  lemma UncachedWriteSticks(m: Mem, lo: int, data: seq<byte>)
    ensures (forall plan: int -> LineOp, i | 0 <= i < |data| ::
               Drift(WriteRam(m, lo, data), plan).ram(lo + i) == data[i])
       <==> (forall i | 0 <= i < |data| :: m.Settled(lo + i) || m.copy(lo + i) == data[i])
  {
    if i :| 0 <= i < |data| && !m.Settled(lo + i) && m.copy(lo + i) != data[i] {
      assert Drift(WriteRam(m, lo, data), l => Evict).ram(lo + i) != data[i];
    }
  }

  // ---- DMA behind a clean line ----

  /** Byte i of data, DMA'd to lo when memory is m, and after more cached activity. */
  predicate CoherentAfter(m: Mem, lo: int, data: seq<byte>, after: int -> LineOp, i: nat)
    requires i < |data|
  {
    var m' := Drift(WriteRam(m, lo, data), after);
    m'.Coherent(lo + i) && m'.ram(lo + i) == data[i]
  }

  /** A DMA'd byte is coherent from then on, whatever runs next, exactly when no dirty line covers it and
      no clean line holds another value. */
  lemma DmaCoherentExactly(m: Mem, lo: int, data: seq<byte>, i: nat)
    requires i < |data|
    ensures (forall after: int -> LineOp :: CoherentAfter(m, lo, data, after, i))
       <==> m.Settled(lo + i) && (m.line((lo + i) / 32).Absent? || m.copy(lo + i) == data[i])
  {
    var a := lo + i;
    if !(m.Settled(a) && (m.line(a / 32).Absent? || m.copy(a) == data[i])) {
      assert !CoherentAfter(m, lo, data, l => Leave, i);
    }
  }

  /** The line of byte lo + i, absent after its invalidation, is filled before the DMA's bytes arrive: the
      byte ends coherent only if RAM already held it. */
  lemma FillSpoils(m: Mem, lo: int, data: seq<byte>, before: int -> LineOp, i: nat)
    requires i < |data| && m.line((lo + i) / 32).Absent? && before((lo + i) / 32).Fill?
    ensures CoherentAfter(Drift(m, before), lo, data, l => Leave, i) <==> m.ram(lo + i) == data[i]
  {}

  predicate Unfilled(lo: int, n: nat, before: int -> LineOp, l: int) {
    n > 0 && Touches(l, lo, lo + n) ==> !before(l).Fill?
  }

  lemma UnfilledStaysCoherent(m: Mem, lo: int, data: seq<byte>, before: int -> LineOp, after: int -> LineOp, i: nat)
    requires i < |data| && forall l | Touches(l, lo, lo + |data|) :: m.line(l).Absent?
    requires forall l :: Unfilled(lo, |data|, before, l)
    ensures CoherentAfter(Drift(m, before), lo, data, after, i)
  {
    assert Touches((lo + i) / 32, lo, lo + |data|) && Unfilled(lo, |data|, before, (lo + i) / 32);
    DmaCoherentExactly(Drift(m, before), lo, data, i);
  }

  function Ones(n: nat): (s: seq<byte>)
    ensures |s| == n
  {
    seq<byte>(n, _ => 1)
  }

  /** A DMA into lines just invalidated is coherent, cached and uncached views both equal to the new bytes
      whatever RAM held and whatever arrives, if and only if none of those lines is filled in between. */
  lemma CoherentIffUnfilled(m: Mem, lo: int, n: nat, before: int -> LineOp)
    requires forall l | Touches(l, lo, lo + n) :: m.line(l).Absent?
    ensures (forall ram: int -> byte, data: seq<byte>, after: int -> LineOp, i: nat | i < |data| == n ::
               CoherentAfter(Drift(m.(ram := ram), before), lo, data, after, i))
       <==> (forall l :: Unfilled(lo, n, before, l))
  {
    if l :| !Unfilled(lo, n, before, l) {
      var a := if 32 * l < lo then lo else 32 * l;
      var m' := m.(ram := (x: int) => 0);
      FillSpoils(m', lo, Ones(n), before, a - lo);
      assert !CoherentAfter(Drift(m', before), lo, Ones(n), l => Leave, a - lo);
    } else {
      forall ram: int -> byte, data: seq<byte>, after: int -> LineOp, i: nat | i < |data| == n
        ensures CoherentAfter(Drift(m.(ram := ram), before), lo, data, after, i)
      {
        UnfilledStaysCoherent(m.(ram := ram), lo, data, before, after, i);
      }
    }
  }

  // ---- the processor's own accesses ----

  /** One operand access, by virtual address. */
  datatype Access = Load(va: u32) | Store(va: u32, data: seq<byte>)

  /** The P2 segment bypasses the cache. */
  predicate Uncached(va: u32) { 0xa000_0000 <= va < 0xc000_0000 }
  function Physical(va: u32): int { va % 0x2000_0000 }

  /** The top three bits select the segment. */
  lemma PhysicalOfP2(va: u32)
    ensures Uncached(va) <==> va / 0x2000_0000 == 5
    ensures Uncached(va) ==> Physical(va) == va - 0xa000_0000
  {}

  /** A cached access may miss, and a miss may fill, write back or evict lines as plan says. An uncached
      one goes to RAM and finds nothing to replace. */
  function After(m: Mem, acc: Access, plan: int -> LineOp): Mem {
    if Uncached(acc.va) then
      if acc.Store? then WriteRam(m, Physical(acc.va), acc.data) else m
    else Drift(if acc.Store? then WriteCached(m, Physical(acc.va), acc.data) else m, plan)
  }

  function Ran(m: Mem, accs: seq<Access>, plans: seq<int -> LineOp>): Mem
    requires |accs| == |plans|
  {
    if accs == [] then m
    else After(Ran(m, accs[..|accs| - 1], plans[..|accs| - 1]), accs[|accs| - 1], plans[|accs| - 1])
  }

  predicate StoresAt(acc: Access, a: int) {
    acc.Store? && Physical(acc.va) <= a < Physical(acc.va) + |acc.data|
  }

  predicate StoredTo(accs: seq<Access>, a: int) {
    exists i :: 0 <= i < |accs| && StoresAt(accs[i], a)
  }

  /** No run of uncached accesses moves a cache line or writes one back: RAM changes only where it is
      stored to, however many dirty lines there are. */
  lemma {:induction false} NothingWrittenBack(m: Mem, accs: seq<Access>, plans: seq<int -> LineOp>, a: int)
    requires |accs| == |plans| && forall i | 0 <= i < |accs| :: Uncached(accs[i].va)
    ensures Ran(m, accs, plans).line == m.line && Ran(m, accs, plans).copy == m.copy
    ensures !StoredTo(accs, a) ==> Ran(m, accs, plans).ram(a) == m.ram(a)
  {
    if accs == [] {
    } else {
      var k := |accs| - 1;
      NothingWrittenBack(m, accs[..k], plans[..k], a);
      if StoredTo(accs[..k], a) {
        var i :| 0 <= i < k && StoresAt(accs[..k][i], a);
        assert StoresAt(accs[i], a);
      }
      if !StoredTo(accs, a) { assert !StoresAt(accs[k], a); }
    }
  }

  /** One cached load is enough to write any dirty line back. */
  lemma CachedMayWriteBack(m: Mem, va: u32, a: int)
    requires !Uncached(va) && !m.Settled(a)
    ensures exists plan: int -> LineOp :: After(m, Load(va), plan).ram(a) == m.copy(a)
  {
    assert After(m, Load(va), l => WriteBack).ram(a) == m.copy(a);
  }
}
