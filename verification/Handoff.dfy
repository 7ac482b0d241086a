/** The loader's last act: place the patched image, the shim and the BIOS slices through a write-back
    cache, purge what the game will read uncached, copy the image over memory the loader's own dirty
    lines may cover, and jump. */
module Handoff {
  import opened Words
  import opened CacheMem
  import opened Iface
  import P = Patch

  // Physical addresses of the region map.
  const STAGING := Phys(STAGING_ADDR)
  const SCRATCH_ADDR: u32 := 0x8ce0_0000                // HANDOFF_SCRATCH
  const SCRATCH := Phys(SCRATCH_ADDR)
  const GAME := Phys(GAME_LOAD_ADDR)
  const GAME_END := GAME + GAME_LEN
  const SHIM := Phys(SHIM_BASE)
  const G1 := Phys(G1_MIRROR)
  const BIOS_A := Phys(BIOS_DATA_60000)
  const BIOS_B := Phys(BIOS_DATA_1FFD00)
  const MAPLE := Phys(MAPLE_MIRROR)
  const TOP := MAPLE + MAPLE_MIRROR_LEN

  predicate ShownAt(m: Mem, lo: int, data: seq<byte>, a: int) {
    0 <= a - lo < |data| && m.View(a) == data[a - lo] && !m.Stale(a)
  }

  predicate InRamAt(m: Mem, lo: int, data: seq<byte>, a: int) {
    0 <= a - lo < |data| && m.ram(a) == data[a - lo] && m.Settled(a)
  }

  /** Cached code reads data at lo. */
  ghost predicate Shows(m: Mem, lo: int, data: seq<byte>) {
    forall a | In(a, lo, lo + |data|) :: ShownAt(m, lo, data, a)
  }

  /** RAM itself holds data at lo, and no write-back is outstanding there. */
  ghost predicate InRam(m: Mem, lo: int, data: seq<byte>) {
    forall a | In(a, lo, lo + |data|) :: InRamAt(m, lo, data, a)
  }

  /** The bytes being placed. */
  datatype Payload = Payload(image: seq<byte>, shim: seq<byte>, biosA: seq<byte>, biosB: seq<byte>, stub: seq<byte>)
  {
    predicate Fits() {
      && |image| == GAME_LEN && |shim| <= SHIM_CODE_MAX && |biosA| == BIOS_DATA_60000_LEN
      && |biosB| == BIOS_DATA_1FFD00_LEN && 0 < |stub| <= 0x1000
    }
  }

  function Zeros(n: nat): seq<byte> { seq(n, _ => 0) }

  /** Everything the loader places or zeroes lies here; its own stack and data do not. */
  predicate Zone(a: int) { In(a, STAGING, SCRATCH + 0x1000) || In(a, SHIM, TOP) }

  predicate Elsewhere(lo: int, hi: int) {
    && (hi <= STAGING || SCRATCH + 0x1000 <= lo)
    && (hi <= SHIM || TOP <= lo)
  }

  datatype Region = Region(lo: int, data: seq<byte>)
  {
    function Hi(): int { lo + |data| }
  }

  /** What goes where, in the order the loader writes it. */
  function Regions(p: Payload): (r: seq<Region>)
    requires p.Fits()
    ensures |r| == 6
  {
    [Region(STAGING, p.image),
     Region(SHIM, p.shim),
     Region(SHIM + |p.shim|, Zeros(SHIM_CODE_MAX - |p.shim|)),   // the shim's .bss, and the gap after it
     Region(BIOS_A, p.biosA),
     Region(BIOS_B, p.biosB),
     Region(SCRATCH, p.stub)]
  }

  predicate Mirror(a: int) {
    In(a, G1, G1 + G1_MIRROR_LEN) || In(a, MAPLE, MAPLE + MAPLE_MIRROR_LEN)
  }

  /** The region map: regions lie in the zone, apart from one another and, line for line, from the
      register mirrors. */
  lemma RegionMap(p: Payload)
    requires p.Fits()
    ensures forall i, a | 0 <= i < 6 && In(a, Regions(p)[i].lo, Regions(p)[i].Hi()) :: Zone(a) && !Mirror(a)
    ensures forall i, j | 0 <= i < j < 6 ::
              Regions(p)[i].Hi() <= Regions(p)[j].lo || Regions(p)[j].Hi() <= Regions(p)[i].lo
    ensures forall i, a | 0 <= i < 6 && Mirror(a) :: !Touches(a / 32, Regions(p)[i].lo, Regions(p)[i].Hi())
  {}

  ghost predicate ShownUpTo(m: Mem, p: Payload, k: nat)
    requires p.Fits() && k <= 6
  {
    forall i | 0 <= i < k :: Shows(m, Regions(p)[i].lo, Regions(p)[i].data)
  }

  ghost predicate Committed(m: Mem, p: Payload, done: set<int>)
    requires p.Fits()
  {
    forall i | i in done && 0 <= i < 6 :: InRam(m, Regions(p)[i].lo, Regions(p)[i].data)
  }

  lemma ShowsKept(m: Mem, m': Mem, lo: int, data: seq<byte>)
    requires forall a | In(a, lo, lo + |data|) :: KeptAt(m, m', a)
    ensures Shows(m, lo, data) ==> Shows(m', lo, data)
    ensures InRam(m, lo, data) ==> InRam(m', lo, data)
  {
    forall a | In(a, lo, lo + |data|)
      ensures ShownAt(m, lo, data, a) ==> ShownAt(m', lo, data, a)
      ensures InRamAt(m, lo, data, a) ==> InRamAt(m', lo, data, a)
    {
      assert KeptAt(m, m', a);
    }
  }

  lemma ZoneKeepsRegions(m: Mem, m': Mem, p: Payload, k: nat, done: set<int>)
    requires p.Fits() && k <= 6 && forall a | Zone(a) && !Mirror(a) :: KeptAt(m, m', a)
    ensures ShownUpTo(m, p, k) ==> ShownUpTo(m', p, k)
    ensures Committed(m, p, done) ==> Committed(m', p, done)
  {
    RegionMap(p);
    forall i | 0 <= i < 6
      ensures Shows(m, Regions(p)[i].lo, Regions(p)[i].data) ==> Shows(m', Regions(p)[i].lo, Regions(p)[i].data)
      ensures InRam(m, Regions(p)[i].lo, Regions(p)[i].data) ==> InRam(m', Regions(p)[i].lo, Regions(p)[i].data)
    {
      ShowsKept(m, m', Regions(p)[i].lo, Regions(p)[i].data);
    }
  }

  /** What can have become of mirror byte a, zeroed uncached somewhere between m0 and m. */
  predicate ZeroedAt(m0: Mem, m: Mem, a: int) { LandedAt(m0, m, a, 0) }

  ghost predicate MirrorsZeroed(m0: Mem, m: Mem) {
    forall a | Mirror(a) :: ZeroedAt(m0, m, a)
  }

  /** All that can have become of a mirror byte at the jump, its line dropped without a write-back. */
  predicate FoundAt(m0: Mem, m: Mem, a: int) {
    m.ram(a) == 0 || (!m0.Settled(a) && m.ram(a) == m0.copy(a))
  }

  ghost predicate MirrorsFound(m0: Mem, m: Mem) {
    forall a | Mirror(a) :: FoundAt(m0, m, a)
  }

  ghost predicate MirrorsZero(m: Mem) {
    forall a | Mirror(a) :: m.ram(a) == 0
  }

  /** The run in which every dirty line is evicted after the mirrors are zeroed. */
  function Evicted(m0: Mem): Mem {
    var m1 := WriteRam(m0, G1, Zeros(G1_MIRROR_LEN));
    Drift(WriteRam(m1, MAPLE, Zeros(MAPLE_MIRROR_LEN)), l => Evict)
  }

  /** Exactly when the game finds its mirrors zeroed: every possible outcome has them zero if and only if
      no dirty line with another value covered a mirror byte when the loader started. */
  lemma MirrorsExact(m0: Mem)
    ensures (forall m | MirrorsFound(m0, m) :: MirrorsZero(m))
       <==> (forall a | Mirror(a) :: m0.Settled(a) || m0.copy(a) == 0)
  {
    if a :| Mirror(a) && !m0.Settled(a) && m0.copy(a) != 0 {
      var m := Evicted(m0);
      assert MirrorsFound(m0, m);
      assert m.ram(a) != 0 && !MirrorsZero(m);
    } else {
      forall m | MirrorsFound(m0, m) ensures MirrorsZero(m) {
        forall a | Mirror(a) ensures m.ram(a) == 0 { assert FoundAt(m0, m, a); }
      }
    }
  }

  ghost predicate ZoneKept(m: Mem, m': Mem) {
    forall a | Zone(a) :: KeptAt(m, m', a)
  }

  /** A cached write shows where it went and leaves every other byte showing what it showed. */
  lemma WriteShows(m: Mem, lo: int, data: seq<byte>, at: int, other: seq<byte>)
    ensures Shows(WriteCached(m, lo, data), lo, data)
    ensures (at + |other| <= lo || lo + |data| <= at) && Shows(m, at, other)
            ==> Shows(WriteCached(m, lo, data), at, other)
  {
    var m' := WriteCached(m, lo, data);
    forall a | In(a, lo, lo + |data|) ensures ShownAt(m', lo, data, a) {
      assert Touches(a / 32, lo, lo + |data|);
    }
    if (at + |other| <= lo || lo + |data| <= at) && Shows(m, at, other) {
      forall a | In(a, at, at + |other|) ensures ShownAt(m', at, other, a) {
        assert ShownAt(m, at, other, a);
      }
    }
  }

  /** A purge changes nothing cached code can see, and puts its own range into RAM. */
  lemma PurgeCommits(m: Mem, lo: int, hi: int, at: int, data: seq<byte>)
    ensures forall a :: KeptAt(m, Purge(m, lo, hi), a)
    ensures lo <= at && at + |data| <= hi && Shows(m, at, data) ==> InRam(Purge(m, lo, hi), at, data)
  {
    if lo <= at && at + |data| <= hi && Shows(m, at, data) {
      forall a | In(a, at, at + |data|) ensures InRamAt(Purge(m, lo, hi), at, data, a) {
        assert ShownAt(m, at, data, a) && Touches(a / 32, lo, hi);
      }
    }
  }

  /** After a copy from src to [dst, end), RAM byte a of m against the RAM of m0. */
  predicate CopiedAt(m0: Mem, m: Mem, src: int, dst: int, end: int, a: int) {
    m.ram(a) == if In(a, dst, end) then m0.ram(a - dst + src) else m0.ram(a)
  }

  ghost predicate CopiedTo(m0: Mem, m: Mem, src: int, dst: int, end: int) {
    forall a :: CopiedAt(m0, m, src, dst, end, a)
  }

  function WordAt(m: Mem, a: int): (w: seq<byte>)
    ensures |w| == 4
  {
    [m.ram(a), m.ram(a + 1), m.ram(a + 2), m.ram(a + 3)]
  }

  lemma CopiedOn(m0: Mem, m: Mem, m': Mem, src: int, dst: int, r4: int, r5: int, end: int)
    requires r4 - src == r5 - dst >= 0 && end == r5 + 4 && (r4 + 4 <= dst || r5 <= src)
    requires m' == WriteRam(m, r5, WordAt(m, r4)) && CopiedTo(m0, m, src, dst, r5)
    ensures CopiedTo(m0, m', src, dst, end)
  {
    forall a ensures CopiedAt(m0, m', src, dst, end, a) {
      assert CopiedAt(m0, m, src, dst, r5, a) && CopiedAt(m0, m, src, dst, r5, a - dst + src);
    }
  }

  ghost predicate MirrorsKept(m: Mem, m': Mem) {
    forall a | Mirror(a) :: KeptAt(m, m', a)
  }

  lemma MirrorsKeptTrans(m0: Mem, m1: Mem, m2: Mem)
    requires MirrorsKept(m0, m1) && MirrorsKept(m1, m2)
    ensures MirrorsKept(m0, m2)
  {
    forall a | Mirror(a) ensures KeptAt(m0, m2, a) { KeptAtTrans(m0, m1, m2, a); }
  }

  /** One mirror zeroed and then the other, and other things placed before and after. */
  lemma BothZeroed(m0: Mem, m1: Mem, m2: Mem, m3: Mem, m4: Mem)
    requires MirrorsKept(m0, m1) && MirrorsKept(m3, m4)
    requires forall a | Mirror(a) :: if In(a, G1, G1 + G1_MIRROR_LEN) then ZeroedAt(m1, m2, a) else KeptAt(m1, m2, a)
    requires forall a | Mirror(a) ::
               if In(a, MAPLE, MAPLE + MAPLE_MIRROR_LEN) then ZeroedAt(m2, m3, a) else KeptAt(m2, m3, a)
    ensures MirrorsZeroed(m0, m4)
  {
    forall a | Mirror(a) ensures ZeroedAt(m0, m4, a) {
      assert KeptAt(m0, m1, a) && KeptAt(m3, m4, a);
      if In(a, G1, G1 + G1_MIRROR_LEN) {
        KeptThenLanded(m0, m1, m2, a, 0);
        LandedThenKept(m0, m2, m3, a, 0);
      } else {
        KeptAtTrans(m0, m1, m2, a);
        KeptThenLanded(m0, m2, m3, a, 0);
      }
      LandedThenKept(m0, m3, m4, a, 0);
    }
  }

  predicate ZeroAt(m: Mem, a: int) { m.ram(a) == 0 }

  /** Memory as the game finds it, from memory m0 when the loader began to place things: the image, the shim
      and every byte after it in its budget zero, both BIOS slices and the stub in RAM, no line in the
      cache, and the G1 and Maple mirrors zeroed but for what dirty lines covered them. */
  ghost predicate AtJump(p: Payload, m0: Mem, m: Mem) {
    && InRam(m, 0x0c02_0000, p.image)
    && InRam(m, 0x0cfc_0000, p.shim) && (forall a | 0x0cfc_0000 + |p.shim| <= a < 0x0cfc_8000 :: ZeroAt(m, a))
    && InRam(m, 0x0cfc_b000, p.biosA) && InRam(m, 0x0cfd_2000, p.biosB)
    && InRam(m, 0x0ce0_0000, p.stub)
    && (forall l :: m.line(l).Absent?)
    && (forall a | 0x0cfc_8800 <= a < 0x0cfc_9000 || 0x0cfd_3000 <= a < 0x0cfd_3100 :: FoundAt(m0, m, a))
  }

  lemma RegionsAtJump(p: Payload, m0: Mem, m: Mem)
    requires p.Fits() && InRam(m, GAME, p.image) && (forall l :: m.line(l).Absent?) && MirrorsFound(m0, m)
    requires forall k | 1 <= k < 6 :: InRam(m, Regions(p)[k].lo, Regions(p)[k].data)
    ensures AtJump(p, m0, m)
  {
    var r := Regions(p);
    assert InRam(m, r[1].lo, r[1].data) && InRam(m, r[2].lo, r[2].data) && InRam(m, r[3].lo, r[3].data);
    assert InRam(m, r[4].lo, r[4].data) && InRam(m, r[5].lo, r[5].data);
    forall a | In(a, SHIM + |p.shim|, SHIM + SHIM_CODE_MAX) ensures ZeroAt(m, a) {
      assert InRamAt(m, r[2].lo, r[2].data, a);
    }
  }

  lemma StubSpares(m: Mem, m': Mem, p: Payload, k: nat)
    requires p.Fits() && 1 <= k < 6 && InRam(m, Regions(p)[k].lo, Regions(p)[k].data)
    requires forall l :: m'.line(l).Absent?
    requires CopiedTo(m, m', STAGING, GAME, GAME_END)
    ensures InRam(m', Regions(p)[k].lo, Regions(p)[k].data)
  {
    var r := Regions(p)[k];
    RegionMap(p);
    forall a | In(a, r.lo, r.lo + |r.data|) ensures InRamAt(m', r.lo, r.data, a) {
      assert InRamAt(m, r.lo, r.data, a) && In(a, r.lo, r.Hi()) && Zone(a);
      assert CopiedAt(m, m', STAGING, GAME, GAME_END, a);
    }
  }

  class Loader {
    var mem: Mem

    constructor (mem: Mem)
      ensures this.mem == mem
    {
      this.mem := mem;
    }

    /** The rest of the loader running between two steps: its own cached stores, and any evictions. */
    method Chatter()
      modifies this
      ensures ZoneKept(old(mem), mem)
    {
      var lo: int, data: seq<byte>, plan: int -> LineOp := *, *, *;
      ghost var m0 := mem;
      if Elsewhere(lo, lo + |data|) {
        mem := WriteCached(mem, lo, data);
        forall a | Zone(a) ensures KeptAt(m0, mem, a) { WriteKeeps(m0, lo, data, a); }
      }
      ghost var m1 := mem;
      mem := Drift(mem, plan);
      DriftKeeps(m1, plan);
      forall a | Zone(a) ensures KeptAt(m0, mem, a) { assert KeptAt(m1, mem, a); }
    }

    /** One operand access of the processor; plan is what a miss would do to the cache. */
    method Operand(acc: Access) returns (plan: int -> LineOp)
      modifies this
      ensures mem == After(old(mem), acc, plan)
    {
      plan := *;
      mem := After(mem, acc, plan);
    }

    /** mov.l @r4+,r1; mov.l r1,@r5 */
    method CopyWord(r4: u32, r5: u32)
      requires Uncached(r4) && Uncached(r5)
      modifies this
      ensures mem == WriteRam(old(mem), Physical(r5), WordAt(old(mem), Physical(r4)))
    {
      var _ := Operand(Load(r4));
      var r1 := WordAt(mem, Physical(r4));
      var _ := Operand(Store(r5, r1));
    }

    /** The word-copy loop of the stub. It counts down from len / 4 and tests at the bottom. Both pointers
        are uncached aliases, and that is why nothing is written back while it runs. */
    method CopyWords(src: u32, dst: u32, len: u32)
      requires len % 4 == 0 && len > 0
      requires Uncached(src) && src + len < 0xc000_0000 && Uncached(dst) && dst + len < 0xc000_0000
      requires src + len <= dst || dst + len <= src
      modifies this
      ensures mem == old(mem).(ram := mem.ram)
      ensures var from, to := src - 0xa000_0000, dst - 0xa000_0000;
              CopiedTo(old(mem), mem, from, to, to + len)
    {
      ghost var m0, from, to := mem, src - 0xa000_0000, dst - 0xa000_0000;
      var r0: nat, r4: u32, r5: u32 := len / 4, src, dst;
      ghost var end := to;
      while true
        invariant 0 < r0 && r4 - src == r5 - dst == end - to == len - 4 * r0
        invariant mem == m0.(ram := mem.ram)
        invariant CopiedTo(m0, mem, from, to, end)
        decreases r0
      {
        ghost var before := mem;
        PhysicalOfP2(r4);
        PhysicalOfP2(r5);
        CopyWord(r4, r5);
        CopiedOn(m0, before, mem, from, to, r4 - 0xa000_0000, end, end + 4);
        r4, r5, end := r4 + 4, r5 + 4, end + 4;
        r0 := r0 - 1;
        if r0 == 0 { return; }
      }
    }

    /** The stub, run from its own uncached alias: the copy, the CCR store that invalidates both caches
        without writing anything back, the jump. */
    method Stub(src: u32, dst: u32)
      requires src == P2Addr(STAGING_ADDR) && dst == P2Addr(GAME_LOAD_ADDR)
      modifies this
      ensures forall l :: mem.line(l).Absent?
      ensures CopiedTo(old(mem), mem, STAGING, GAME, GAME_END)
    {
      ghost var m0 := mem;
      CopyWords(src, dst, GAME_LEN);
      ghost var m1 := mem;
      mem := mem.(line := (l: int) => Absent);
      forall a ensures CopiedAt(m0, mem, STAGING, GAME, GAME_END, a) {
        assert CopiedAt(m0, m1, STAGING, GAME, GAME_END, a);
      }
    }

    /** A cached copy into region k, and whatever else runs before the next. */
    method Place(ghost p: Payload, ghost k: nat, lo: int, data: seq<byte>, ghost base: Mem)
      requires p.Fits() && k < 6 && Regions(p)[k] == Region(lo, data) && ShownUpTo(mem, p, k)
      requires MirrorsKept(base, mem)
      modifies this
      ensures ShownUpTo(mem, p, k + 1) && MirrorsKept(base, mem)
    {
      ghost var m0 := mem;
      mem := WriteCached(mem, lo, data);
      ghost var m1 := mem;
      RegionMap(p);
      forall i | 0 <= i <= k ensures Shows(m1, Regions(p)[i].lo, Regions(p)[i].data) {
        WriteShows(m0, lo, data, Regions(p)[i].lo, Regions(p)[i].data);
      }
      forall a | Mirror(a) ensures KeptAt(m0, m1, a) { WriteKeeps(m0, lo, data, a); }
      Chatter();
      ZoneKeepsRegions(m1, mem, p, k + 1, {});
      forall a | Mirror(a) ensures KeptAt(m1, mem, a) { assert Zone(a); }
      MirrorsKeptTrans(base, m0, m1);
      MirrorsKeptTrans(base, m1, mem);
    }

    /** Zero a register mirror through the uncached alias, a word at a time. */
    method ZeroMirror(ghost p: Payload, ghost k: nat, lo: int, len: nat)
      requires p.Fits() && k <= 6 && ShownUpTo(mem, p, k)
      requires len % 4 == 0 && forall a | In(a, lo, lo + len) :: Mirror(a)
      modifies this
      ensures ShownUpTo(mem, p, k)
      ensures forall a | Mirror(a) ::
                if In(a, lo, lo + len) then ZeroedAt(old(mem), mem, a) else KeptAt(old(mem), mem, a)
    {
      ghost var m0 := mem;
      var i := 0;
      while i < len / 4
        invariant 0 <= i <= len / 4 && mem == m0.(ram := mem.ram)
        invariant forall a :: mem.ram(a) == if In(a, lo, lo + 4 * i) then 0 else m0.ram(a)
      {
        mem := WriteRam(mem, lo + 4 * i, [0, 0, 0, 0]);
        i := i + 1;
      }
      ghost var m1 := mem;
      forall a | !In(a, lo, lo + len) ensures KeptAt(m0, m1, a) {}
      ZoneKeepsRegions(m0, m1, p, k, {});
      Chatter();
      ZoneKeepsRegions(m1, mem, p, k, {});
      forall a | Mirror(a)
        ensures if In(a, lo, lo + len) then ZeroedAt(m0, mem, a) else KeptAt(m0, mem, a)
      {
        assert Zone(a) && KeptAt(m1, mem, a);
      }
    }

    /** dcache_purge_range over regions now, and whatever else runs before the next. */
    method PurgeRange(ghost p: Payload, lo: int, hi: int, ghost done: set<int>, ghost now: set<int>, ghost base: Mem)
      requires p.Fits() && ShownUpTo(mem, p, 6) && Committed(mem, p, done) && MirrorsKept(base, mem)
      requires forall i | i in now && 0 <= i < 6 :: lo <= Regions(p)[i].lo && Regions(p)[i].Hi() <= hi
      modifies this
      ensures ShownUpTo(mem, p, 6) && Committed(mem, p, done + now) && MirrorsKept(base, mem)
    {
      ghost var m0 := mem;
      mem := Purge(mem, lo, hi);
      ghost var m1 := mem;
      PurgeCommits(m0, lo, hi, 0, []);
      ZoneKeepsRegions(m0, m1, p, 6, done);
      forall i | i in now && 0 <= i < 6 ensures InRam(m1, Regions(p)[i].lo, Regions(p)[i].data) {
        PurgeCommits(m0, lo, hi, Regions(p)[i].lo, Regions(p)[i].data);
      }
      Chatter();
      ZoneKeepsRegions(m1, mem, p, 6, done + now);
      forall a | Mirror(a) ensures KeptAt(m1, mem, a) { assert Zone(a); }
      MirrorsKeptTrans(base, m0, m1);
      MirrorsKeptTrans(base, m1, mem);
    }

    /** Everything in its place, as cached code sees it. */
    method PlaceAll(p: Payload)
      requires p.Fits()
      modifies this
      ensures ShownUpTo(mem, p, 6) && MirrorsZeroed(old(mem), mem)
    {
      ghost var m0 := mem;
      Place(p, 0, STAGING, p.image, m0);
      Place(p, 1, SHIM, p.shim, m0);
      Place(p, 2, SHIM + |p.shim|, Zeros(SHIM_CODE_MAX - |p.shim|), m0);
      Place(p, 3, BIOS_A, p.biosA, m0);
      Place(p, 4, BIOS_B, p.biosB, m0);
      ghost var m1 := mem;
      ZeroMirror(p, 5, G1, G1_MIRROR_LEN);
      ghost var m2 := mem;
      ZeroMirror(p, 5, MAPLE, MAPLE_MIRROR_LEN);
      ghost var m3 := mem;
      Place(p, 5, SCRATCH, p.stub, m3);
      BothZeroed(m0, m1, m2, m3, mem);
    }

    /** The five purges, which between them cover every region placed through the cache. */
    method PurgeAll(p: Payload)
      requires p.Fits() && ShownUpTo(mem, p, 6)
      modifies this
      ensures Committed(mem, p, {0, 1, 2, 3, 4, 5}) && MirrorsKept(old(mem), mem)
    {
      ghost var m := mem;
      PurgeRange(p, STAGING, STAGING + GAME_LEN, {}, {0}, m);
      PurgeRange(p, SHIM, SHIM + SHIM_CODE_MAX, {0}, {1, 2}, m);
      PurgeRange(p, SCRATCH, SCRATCH + |p.stub|, {0} + {1, 2}, {5}, m);
      PurgeRange(p, BIOS_A, BIOS_A + BIOS_DATA_60000_LEN, {0} + {1, 2} + {5}, {3}, m);
      PurgeRange(p, BIOS_B, BIOS_B + BIOS_DATA_1FFD00_LEN, {0} + {1, 2} + {5} + {3}, {4}, m);
    }

    /** From the patched image to the jump. Nothing is assumed about the cache the loader starts with,
        except that a register mirror is only certain to read zero where no dirty line covered it. */
    method Launch(p: Payload)
      requires p.Fits()
      modifies this
      ensures AtJump(p, old(mem), mem)
    {
      ghost var m0 := mem;
      PlaceAll(p);
      ghost var m1 := mem;
      PurgeAll(p);
      ghost var m := mem;
      Stub(P2Addr(STAGING_ADDR), P2Addr(GAME_LOAD_ADDR));
      assert InRam(mem, GAME, p.image) by {
        assert InRam(m, Regions(p)[0].lo, Regions(p)[0].data);
        forall a | In(a, GAME, GAME_END) ensures InRamAt(mem, GAME, p.image, a) {
          assert CopiedAt(m, mem, STAGING, GAME, GAME_END, a) && In(a - GAME + STAGING, STAGING, STAGING + GAME_LEN);
          assert InRamAt(m, STAGING, p.image, a - GAME + STAGING);
        }
      }
      forall k | 1 <= k < 6 ensures InRam(mem, Regions(p)[k].lo, Regions(p)[k].data) {
        StubSpares(m, mem, p, k);
      }
      forall a | Mirror(a) ensures FoundAt(m0, mem, a) {
        assert ZeroedAt(m0, m1, a) && KeptAt(m1, m, a);
        LandedThenKept(m0, m1, m, a, 0);
        assert CopiedAt(m, mem, STAGING, GAME, GAME_END, a);
      }
      RegionsAtJump(p, m0, mem);
    }
  }

  /** apply_patches on the staged boot image, then everything up to the jump. */
  method Boot(loader: Loader, stage: array<byte>, table: seq<P.Patch>, shim: seq<byte>,
              biosA: seq<byte>, biosB: seq<byte>, stub: seq<byte>) returns (launched: bool)
    requires P.AllFit(table, stage.Length) && Payload(stage[..], shim, biosA, biosB, stub).Fits()
    modifies loader, stage
    ensures launched == P.Apply(old(stage[..]), table).ok
    ensures launched ==> var p := Payload(P.Apply(old(stage[..]), table).img, shim, biosA, biosB, stub);
                         p.Fits() && AtJump(p, old(loader.mem), loader.mem)
    ensures !launched ==> loader.mem == old(loader.mem)
  {
    var r := P.ApplyPatches(stage, table);
    if r != 0 {
      return false;
    }
    loader.Launch(Payload(stage[..], shim, biosA, biosB, stub));
    launched := true;
  }
}
