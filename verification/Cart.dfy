/** Cart streaming: a byte-granular read request, split into sectors and served from the disc. */
module Cart {
  import opened Options
  import opened Words
  import Bits
  import opened CacheMem
  import opened Drive
  import opened Iface

  const SHIM_HOME := Phys(SHIM_BASE)            // physical, as are all addresses below
  const BOUNCE: u32 := Phys(SHIM_BOUNCE)
  const RAM_BASE := 0x0c00_0000

  // Word indices of the register mirror the game programs.
  const DMA_OFFSETH := 0x00c / 4
  const DMA_OFFSETL := 0x010 / 4
  const SB_GDSTAR := 0x404 / 4
  const SB_GDLEN := 0x408 / 4
  const SB_GDST := 0x418 / 4
  const MIRROR_WORDS := 0x800 / 4

  // The mastered track: the loader padded to the donor's boot region, then the cart image.
  const TRACK4_LBA := 450000
  const BOOT_REGION := 3538944
  const BOOT_FILE_SIZE := 3538016

  function Track4(loader: seq<byte>, rom: seq<byte>): seq<byte>
    requires |loader| <= BOOT_FILE_SIZE
  {
    loader + seq(BOOT_REGION - |loader|, _ => 0) + rom
  }

  /** The disc, by absolute byte: sector f (a FAD, 150 past its LBA) starts at 2048 * f. */
  function DiscByte(track: seq<byte>, at: int): byte {
    var i := at - 2048 * (TRACK4_LBA + 150);
    if 0 <= i < |track| then track[i] else 0
  }

  /** The streamer's FAD is where mastering put the cart, byte for byte. */
  lemma Mastered(loader: seq<byte>, rom: seq<byte>, i: nat)
    requires |loader| <= BOOT_FILE_SIZE && |rom| == CART_SIZE && i < CART_SIZE
    ensures DiscByte(Track4(loader, rom), 2048 * CART_FAD + i) == rom[i]
  {
    assert Track4(loader, rom)[BOOT_REGION + i] == rom[i];
  }

  ghost predicate Holds(disc: int -> byte, rom: seq<byte>) {
    |rom| == CART_SIZE && forall i | 0 <= i < CART_SIZE :: disc(2048 * CART_FAD + i) == rom[i]
  }

  /** The mastered disc holds the cart where the streamer looks for it. */
  lemma MasteredHolds(loader: seq<byte>, rom: seq<byte>)
    requires |loader| <= BOOT_FILE_SIZE && |rom| == CART_SIZE
    ensures Holds(at => DiscByte(Track4(loader, rom), at), rom)
  {
    forall i | 0 <= i < CART_SIZE ensures DiscByte(Track4(loader, rom), 2048 * CART_FAD + i) == rom[i] {
      Mastered(loader, rom, i);
    }
  }

  /** The mastered track starts with the loader, zeros up to the cart after it. */
  lemma LoaderMastered(loader: seq<byte>, rom: seq<byte>, i: nat)
    requires |loader| <= BOOT_FILE_SIZE && i < 3538944
    ensures DiscByte(Track4(loader, rom), 2048 * (450000 + 150) + i) == if i < |loader| then loader[i] else 0
  {
    assert Track4(loader, rom)[i] == if i < |loader| then loader[i] else 0;
  }

  datatype Split = Split(headFad: u32, headSkip: u32, headTake: u32, bodyFad: u32, bodySect: u32,
                         tailFad: u32, tailTake: u32)

  /** s cuts [off, off + len) into a partial head, whole sectors and a partial tail, in that order and
      with nothing between them. */
  predicate Cuts(s: Split, off: nat, len: nat) {
    && s.headTake + 2048 * s.bodySect + s.tailTake == len
    && (if off % 2048 == 0 || len == 0 then s.headTake == 0
        else s.headTake > 0 && 2048 * s.headFad + s.headSkip == off && s.headSkip + s.headTake <= 2048)
    && (s.bodySect > 0 ==> 2048 * s.bodyFad == off + s.headTake)
    && (s.tailTake > 0 ==> 2048 * s.tailFad == off + s.headTake + 2048 * s.bodySect)
    && s.tailTake < 2048
  }

  /** The bytes before the first sector boundary of a request. */
  function HeadBytes(off: nat, len: nat): nat {
    var gap := (2048 - off % 2048) % 2048;
    if gap < len then gap else len
  }

  lemma ReachesBoundary(off: nat, take: nat, sector: nat)
    requires 2048 * sector == off + take && 0 < take <= 2048 - off % 2048 && off % 2048 != 0
    ensures take == 2048 - off % 2048
  {}

  lemma CutsHead(s: Split, off: nat, len: nat)
    requires Cuts(s, off, len)
    ensures s.headTake == HeadBytes(off, len) && s.bodySect == (len - HeadBytes(off, len)) / 2048
  {
    if off % 2048 != 0 && len != 0 {
      Bits.DivModUnique(off, 2048, s.headFad, s.headSkip);
      if s.bodySect > 0 {
        ReachesBoundary(off, s.headTake, s.bodyFad);
      } else if s.tailTake > 0 {
        ReachesBoundary(off, s.headTake, s.tailFad);
      }
    }
    Bits.DivModUnique(len - s.headTake, 2048, s.bodySect, s.tailTake);
  }

  /** Cuts leaves no choice: any two splits of a request move the same bytes from the same sectors. */
  lemma CutsIsUnique(s: Split, s': Split, off: nat, len: nat)
    requires Cuts(s, off, len) && Cuts(s', off, len)
    ensures s.headTake == s'.headTake && s.bodySect == s'.bodySect && s.tailTake == s'.tailTake
    ensures s.headTake > 0 ==> s.headFad == s'.headFad && s.headSkip == s'.headSkip
    ensures s.bodySect > 0 ==> s.bodyFad == s'.bodyFad
    ensures s.tailTake > 0 ==> s.tailFad == s'.tailFad
  {
    CutsHead(s, off, len);
    CutsHead(s', off, len);
    if s.headTake > 0 {
      Bits.DivModUnique(off, 2048, s.headFad, s.headSkip);
      Bits.DivModUnique(off, 2048, s'.headFad, s'.headSkip);
    }
  }

  method CartSplit(off: u32, len0: u32) returns (s: Split)
    ensures Cuts(s, off, len0)
  {
    var len, sec, skip := len0, off / 2048, off % 2048;
    s := Split(0, 0, 0, 0, 0, 0, 0);
    if skip != 0 {
      var take := 2048 - skip;
      if take > len { take := len; }
      s := s.(headFad := sec, headSkip := skip, headTake := take);
      len := len - take;
      sec := sec + 1;
    }
    s := s.(bodyFad := sec, bodySect := len / 2048);
    sec := sec + s.bodySect;
    len := len % 2048;
    if len != 0 {
      s := s.(tailFad := sec, tailTake := len);
    }
  }

  /** Request validation as the C computes it, with 32-bit sums. */
  predicate Accepts(off: u32, len: u32, dest: u32) {
    !(len == 0 || len > 0x0100_0000 || Wrap(off + len) > CART_SIZE
      || dest / 0x0100_0000 % 0x20 != 0x0c || Wrap(dest + len) > SHIM_HOME)
  }

  /** No sum wraps: for the masked offset and destination, the check accepts exactly the requests whose
      unbounded bounds lie inside the cart and inside RAM below the shim's home. */
  lemma GuardIsExact(off: u32, len: u32, dest: u32)
    requires off < 0x1000_0000 && dest < 0x2000_0000
    ensures Accepts(off, len, dest) <==>
            0 < len <= 0x0100_0000 && off + len <= 0x680_0000 && 0x0c00_0000 <= dest && dest + len <= 0x0cfc_0000
  {}

  predicate Home(a: int) { In(a, BOUNCE, BOUNCE + 2048) }

  /** Where the whole sectors of a request go, when they go by DMA; empty otherwise. */
  function BodyLo(off: nat, len: nat, dest: nat): nat { dest + HeadBytes(off, len) }

  function BodyHi(off: nat, len: nat, dest: nat): nat {
    var lo := BodyLo(off, len, dest);
    if lo % 32 == 0 then lo + (dest + len - lo) / 2048 * 2048 else lo
  }

  predicate ByDma(off: nat, len: nat, dest: nat, a: int) {
    In(a, BodyLo(off, len, dest), BodyHi(off, len, dest))
  }

  /** In the terms of the split: the whole sectors, when they start on a cache line. */
  lemma ByDmaMeans(s: Split, off: nat, len: nat, dest: nat, a: int)
    requires Cuts(s, off, len)
    ensures ByDma(off, len, dest, a) <==>
            (dest + s.headTake) % 32 == 0 && dest + s.headTake <= a < dest + s.headTake + 2048 * s.bodySect
  {
    CutsHead(s, off, len);
  }

  /** Byte a, part of a request for rom[off..] at dest, was stored uncached between m and m'. */
  predicate Landed(rom: seq<byte>, off: nat, dest: nat, m: Mem, m': Mem, a: int) {
    0 <= off + a - dest < |rom| && LandedAt(m, m', a, rom[off + a - dest])
  }

  /** The same byte by DMA: in RAM, with no write-back outstanding, whatever the cache held. */
  predicate Copied(rom: seq<byte>, off: nat, dest: nat, m': Mem, a: int) {
    0 <= off + a - dest < |rom| && m'.Settled(a) && m'.ram(a) == rom[off + a - dest]
  }

  /** Everything outside [lo, hi) is kept, bounce buffer and BIOS apart. */
  ghost predicate OnlyAt(m: Mem, m': Mem, lo: nat, hi: nat) {
    m'.bios == m.bios && forall a | !In(a, lo, hi) && !Home(a) && m.Ours(a) :: KeptAt(m, m', a)
  }

  lemma OnlyTrans(m0: Mem, m1: Mem, m2: Mem, lo: nat, hi: nat, lo1: nat, hi1: nat, lo2: nat, hi2: nat)
    requires OnlyAt(m0, m1, lo1, hi1) && OnlyAt(m1, m2, lo2, hi2)
    requires lo <= lo1 && hi1 <= hi && lo <= lo2 && hi2 <= hi
    ensures OnlyAt(m0, m2, lo, hi)
  {
    forall a | !In(a, lo, hi) && !Home(a) && m0.Ours(a) ensures KeptAt(m0, m2, a) {
      assert m1.Ours(a) && KeptAt(m0, m1, a) && KeptAt(m1, m2, a);
    }
  }

  /** The bytes going to [lo, hi) landed and everything outside is kept. */
  ghost predicate Stored(rom: seq<byte>, off: nat, dest: nat, m: Mem, m': Mem, lo: nat, hi: nat) {
    && OnlyAt(m, m', lo, hi)
    && (forall a | In(a, lo, hi) && m.Ours(a) :: Landed(rom, off, dest, m, m', a))
  }

  lemma StoredTrans(rom: seq<byte>, off: nat, dest: nat, m0: Mem, m1: Mem, m2: Mem, lo: nat, mid: nat, hi: nat)
    requires lo <= mid <= hi <= SHIM_HOME
    requires Stored(rom, off, dest, m0, m1, lo, mid) && Stored(rom, off, dest, m1, m2, mid, hi)
    ensures Stored(rom, off, dest, m0, m2, lo, hi)
  {
    forall a | !In(a, lo, hi) && !Home(a) && m0.Ours(a) ensures KeptAt(m0, m2, a) {
      assert KeptAt(m0, m1, a) && KeptAt(m1, m2, a);
    }
    forall a | In(a, lo, hi) && m0.Ours(a) ensures Landed(rom, off, dest, m0, m2, a) {
      if a < mid {
        assert Landed(rom, off, dest, m0, m1, a) && KeptAt(m1, m2, a);
        LandedThenKept(m0, m1, m2, a, rom[off + a - dest]);
      } else {
        assert KeptAt(m0, m1, a) && Landed(rom, off, dest, m1, m2, a);
        KeptThenLanded(m0, m1, m2, a, rom[off + a - dest]);
      }
    }
  }

  /** A DMA'd byte reads the same cached and uncached, unless its line was fetched after the invalidation
      and still held another value when the DMA arrived and found landing. */
  predicate Viewed(rom: seq<byte>, off: nat, dest: nat, landing: Mem, m': Mem, a: int) {
    && 0 <= off + a - dest < |rom|
    && (!landing.fetched(a / 32) || landing.line(a / 32).Absent? || landing.copy(a) == rom[off + a - dest]
        ==> m'.Coherent(a))
  }

  /** The DMA body, if there is one, is in RAM and viewed as above. */
  ghost predicate DmaDone(rom: seq<byte>, off: nat, len: nat, dest: nat, landing: Mem, m': Mem) {
    forall a | ByDma(off, len, dest, a) && m'.Ours(a) ::
      Copied(rom, off, dest, m', a) && Viewed(rom, off, dest, landing, m', a)
  }

  // ---- every way a request can come out ----

  /** All that can have become of memory when a request has been served. */
  ghost predicate Possible(rom: seq<byte>, off: nat, len: nat, dest: nat, m: Mem, m': Mem) {
    && Stored(rom, off, dest, m, m', dest, dest + len)
    && forall a | ByDma(off, len, dest, a) && m.Ours(a) :: Copied(rom, off, dest, m', a)
  }

  predicate Correct(rom: seq<byte>, off: nat, dest: nat, m': Mem, a: int) {
    0 <= off + a - dest < |rom| && m'.ram(a) == rom[off + a - dest]
  }

  /** RAM holds the requested bytes. */
  ghost predicate AllCorrect(rom: seq<byte>, off: nat, len: nat, dest: nat, m: Mem, m': Mem) {
    forall a | In(a, dest, dest + len) && m.Ours(a) :: Correct(rom, off, dest, m', a)
  }

  /** No dirty line with another value lies over byte a. */
  predicate Unobstructed(rom: seq<byte>, off: nat, dest: nat, m: Mem, a: int)
    requires 0 <= off + a - dest < |rom|
  {
    m.Settled(a) || m.copy(a) == rom[off + a - dest]
  }

  /** The bytes of a request stored at once, a DMA body's lines invalidated first, and everything evicted. */
  function Prompt(rom: seq<byte>, off: nat, len: nat, dest: nat, m: Mem): Mem
    requires off + len <= |rom|
  {
    var lo, hi := BodyLo(off, len, dest), BodyHi(off, len, dest);
    var m1 := if lo < hi then Invalidate(m, lo, hi) else m;
    Drift(WriteRam(m1, dest, rom[off..off + len]), l => Evict)
  }

  lemma BodyIsLines(off: nat, len: nat, dest: nat)
    requires BodyLo(off, len, dest) < BodyHi(off, len, dest)
    ensures BodyLo(off, len, dest) % 32 == 0 && BodyHi(off, len, dest) % 32 == 0
    ensures BodyHi(off, len, dest) <= dest + len
  {}

  lemma PromptByte(rom: seq<byte>, off: nat, len: nat, dest: nat, m: Mem, a: int)
    requires off + len <= |rom|
    ensures var m' := Prompt(rom, off, len, dest, m);
            if !In(a, dest, dest + len) then KeptAt(m, m', a)
            else Landed(rom, off, dest, m, m', a)
                 && (ByDma(off, len, dest, a) ==> Copied(rom, off, dest, m', a))
                 && (!ByDma(off, len, dest, a) && !m.Settled(a) ==> m'.ram(a) == m.copy(a))
  {
    var lo, hi := BodyLo(off, len, dest), BodyHi(off, len, dest);
    if lo < hi {
      BodyIsLines(off, len, dest);
      if !ByDma(off, len, dest, a) { OutsideLines(lo, hi, lo, hi, a); }
      else { assert Touches(a / 32, lo, hi); }
    }
  }

  lemma PromptPossible(rom: seq<byte>, off: nat, len: nat, dest: nat, m: Mem)
    requires off + len <= |rom|
    ensures Possible(rom, off, len, dest, m, Prompt(rom, off, len, dest, m))
  {
    var m' := Prompt(rom, off, len, dest, m);
    forall a | !In(a, dest, dest + len) && !Home(a) && m.Ours(a) ensures KeptAt(m, m', a) {
      PromptByte(rom, off, len, dest, m, a);
    }
    forall a | In(a, dest, dest + len) && m.Ours(a) ensures Landed(rom, off, dest, m, m', a) {
      PromptByte(rom, off, len, dest, m, a);
    }
    forall a | ByDma(off, len, dest, a) && m.Ours(a) ensures Copied(rom, off, dest, m', a) {
      BodyIsLines(off, len, dest);
      PromptByte(rom, off, len, dest, m, a);
    }
  }

  /** Exactly when a request is safe. Every way it can come out leaves the requested bytes in RAM if and
      only if, outside a DMA body, no dirty line with another value covered its destination. */
  lemma RequestExact(rom: seq<byte>, off: nat, len: nat, dest: nat, m: Mem)
    requires off + len <= |rom|
    ensures (forall m' | Possible(rom, off, len, dest, m, m') :: AllCorrect(rom, off, len, dest, m, m'))
       <==> (forall a | In(a, dest, dest + len) && m.Ours(a) && !ByDma(off, len, dest, a) ::
               Unobstructed(rom, off, dest, m, a))
  {
    if a :| In(a, dest, dest + len) && m.Ours(a) && !ByDma(off, len, dest, a) && !Unobstructed(rom, off, dest, m, a) {
      var m' := Prompt(rom, off, len, dest, m);
      PromptPossible(rom, off, len, dest, m);
      PromptByte(rom, off, len, dest, m, a);
      assert !Correct(rom, off, dest, m', a);
    } else {
      forall m' | Possible(rom, off, len, dest, m, m') ensures AllCorrect(rom, off, len, dest, m, m') {
        forall a | In(a, dest, dest + len) && m.Ours(a) ensures Correct(rom, off, dest, m', a) {
          if ByDma(off, len, dest, a) { assert Copied(rom, off, dest, m', a); }
          else { assert Landed(rom, off, dest, m, m', a) && Unobstructed(rom, off, dest, m, a); }
        }
      }
    }
  }

  /** The failing run of the code's own steps: the drive delivers at once into the bounce buffer, the copy
      goes out, and then every line is evicted. A byte under a dirty line ends as that line had it. */
  lemma HeadSpoils(disc: int -> byte, m: Mem, fad: u32, skip: nat, n: nat, dst: nat, i: nat)
    requires skip + n <= 2048 && dst + n <= SHIM_HOME && i < n
    ensures var t := Transfer(P1, fad, 1, BOUNCE);
            var m1 := Arrived(disc, m, t);
            var m2 := Drift(WriteRam(m1, dst, seq<byte>(n, j => m1.View(BOUNCE + skip + j))), l => Evict);
            m2.ram(dst + i) == if m.Settled(dst + i) then disc(2048 * fad + skip + i) else m.copy(dst + i)
  {
    var t := Transfer(P1, fad, 1, BOUNCE);
    var sector, m1, a := seq<byte>(2048, j => disc(2048 * fad + j)), Arrived(disc, m, t), dst + i;
    assert m1 == WriteCached(m, BOUNCE, sector);
    OutsideLines(BOUNCE, BOUNCE + 2048, BOUNCE, BOUNCE + 2048, a);
    assert m1.line(a / 32) == m.line(a / 32) && (!m.Settled(a) ==> m1.copy(a) == m.copy(a));
    assert Touches((BOUNCE + skip + i) / 32, BOUNCE, BOUNCE + 2048);
    assert m1.View(BOUNCE + skip + i) == sector[skip + i];
  }

  /** Byte a is what the bounce buffer showed for it. */
  predicate CopiedOut(m: Mem, m': Mem, skip: nat, dst: nat, a: int) {
    LandedAt(m, m', a, m.View(BOUNCE + skip + a - dst))
  }

  datatype Result = Served | Halted(code: u32, a: u32, b: u32)

  /** What an accepted request leaves: everything else kept, and if it was served, one of the possible
      outcomes, coherent over a DMA body as far as the cache was clear when it landed. */
  ghost predicate Handled(rom: seq<byte>, off: nat, len: nat, dest: nat, m: Mem, r: Result, landing: Mem, m': Mem) {
    && OnlyAt(m, m', dest, dest + len)
    && (r.Served? ==> Possible(rom, off, len, dest, m, m') && DmaDone(rom, off, len, dest, landing, m'))
  }

  lemma DmaStays(rom: seq<byte>, off: nat, len: nat, dest: nat, landing: Mem, m: Mem, m': Mem, end: nat)
    requires BodyHi(off, len, dest) <= end <= SHIM_HOME && OnlyAt(m, m', end, dest + len)
    requires DmaDone(rom, off, len, dest, landing, m)
    ensures DmaDone(rom, off, len, dest, landing, m')
  {
    forall a | ByDma(off, len, dest, a) && m'.Ours(a)
      ensures Copied(rom, off, dest, m', a) && Viewed(rom, off, dest, landing, m', a)
    {
      assert m.Ours(a) && KeptAt(m, m', a);
      assert Copied(rom, off, dest, m, a) && Viewed(rom, off, dest, landing, m, a);
    }
  }

  class Streamer {
    const gd: Gd
    ghost const rom: seq<byte>
    var mirror: seq<u32>

    constructor (gd: Gd, ghost rom: seq<byte>)
      ensures this.gd == gd && this.rom == rom && |mirror| == MIRROR_WORDS
    {
      this.gd, this.rom, mirror := gd, rom, seq(MIRROR_WORDS, _ => 0);
    }

    /** The bounce buffer is the shim's, not the BIOS's. */
    ghost predicate Ready()
      reads this, gd
    {
      && Holds(gd.disc, rom) && gd.active.None? && |mirror| == MIRROR_WORDS
      && forall a | Home(a) :: gd.mem.Ours(a)
    }

    /** gd_or_die and gd_or_die_dma. */
    method ReadOrDie(t: Transfer, rel: u32)
      returns (r: Result, ghost out: Outcome, ghost attempts: seq<Attempt>, ghost fatal: Option<Recovery>)
      requires t.Placed() && gd.active.None?
      modifies gd
      ensures Spared(old(gd.mem), gd.mem, t)
      ensures r.Served? ==> Fulfilled(gd.disc, old(gd.mem), gd.landing, gd.mem, t) && gd.active.None?
      ensures Verdicts(t, attempts, fatal, out, old(gd.lastErr), gd.lastErr)
      ensures r.Halted? ==> r == Halted(4, rel, gd.lastErr) || r.code == 5
      ensures r.Served? <==> out.Done?
      ensures out.GaveUp? ==> r == Halted(4, rel, gd.lastErr)
      ensures out.Died? ==> r == Halted(5, 0xdead_1217, 0) || r == Halted(5, t.fad, t.n)
    {
      var o;
      o, attempts, fatal := gd.Read(t);
      out := o;
      r := match o
           case Done => Served
           case GaveUp => Halted(4, rel, gd.lastErr)
           case Died(code, a, b) => Halted(code, a, b);
    }

    /** xmemcpy from the cached bounce buffer to an uncached destination. */
    method CopyOut(skip: nat, dst: nat, n: nat)
      modifies gd`mem
      ensures Kept(old(gd.mem), gd.mem, dst, dst + n)
      ensures forall a | In(a, dst, dst + n) && old(gd.mem).Ours(a) :: CopiedOut(old(gd.mem), gd.mem, skip, dst, a)
    {
      var m0 := gd.mem;
      var data := seq<byte>(n, i => m0.View(BOUNCE + skip + i));
      gd.mem := WriteRam(gd.mem, dst, data);
      ghost var w := gd.mem;
      gd.Idle();
      forall a | !In(a, dst, dst + n) && m0.Ours(a) ensures KeptAt(m0, gd.mem, a) {
        assert KeptAt(w, gd.mem, a);
      }
      forall a | In(a, dst, dst + n) && m0.Ours(a)
        ensures CopiedOut(m0, gd.mem, skip, dst, a)
      {
        assert KeptAt(w, gd.mem, a);
        LandedThenKept(m0, w, gd.mem, a, data[a - dst]);
      }
    }

    /** Bytes [skip, skip + n) of one sector, through the bounce buffer, to dst. */
    method Bounced(fad: u32, skip: nat, n: nat, ghost off: nat, ghost dest: nat, dst: nat) returns (r: Result)
      requires Ready() && skip + n <= 2048 && dest <= dst && dst + n <= SHIM_HOME
      requires 2048 * fad + skip == off + dst - dest && off + dst - dest + n <= CART_SIZE && n > 0
      modifies gd
      ensures r.Served? ==> Stored(rom, off, dest, old(gd.mem), gd.mem, dst, dst + n) && Ready()
      ensures OnlyAt(old(gd.mem), gd.mem, dst, dst + n)
      ensures r.Halted? ==> r == Halted(4, fad, gd.lastErr) || r.code == 5
    {
      ghost var m0 := gd.mem;
      var t := Transfer(P1, CART_FAD + fad, 1, BOUNCE);
      ghost var out, attempts, fatal;
      r, out, attempts, fatal := ReadOrDie(t, fad);
      if r.Halted? { return; }
      ghost var m1 := gd.mem;
      CopyOut(skip, dst, n);
      forall a | !In(a, dst, dst + n) && !Home(a) && m0.Ours(a) ensures KeptAt(m0, gd.mem, a) {
        assert KeptAt(m0, m1, a) && KeptAt(m1, gd.mem, a);
      }
      forall a | In(a, dst, dst + n) && m0.Ours(a) ensures Landed(rom, off, dest, m0, gd.mem, a) {
        ghost var i := skip + a - dst;
        assert Home(BOUNCE + i) && m0.Ours(t.buf + i) && DeliveredAt(gd.disc, m0, m1, t, i);
        assert m1.Ours(a) && CopiedOut(m1, gd.mem, skip, dst, a) && KeptAt(m0, m1, a);
        assert gd.disc(2048 * CART_FAD + (off + a - dest)) == rom[off + a - dest];
        KeptThenLanded(m0, m1, gd.mem, a, rom[off + a - dest]);
      }
    }

    /** Whole sectors straight to their destination: G1-DMA when it starts on a cache line, else PIO
        through the uncached alias. A DMA also ends coherent wherever no clean line with another value
        was in the cache as it arrived, and none was that nobody fetched after its invalidation. */
    method Body(fad: u32, n: u32, ghost off: nat, ghost dest: nat, dst: nat) returns (r: Result)
      requires Ready() && n > 0 && dest <= dst && dst + 2048 * n <= SHIM_HOME
      requires 2048 * fad == off + dst - dest && off + dst - dest + 2048 * n <= CART_SIZE
      modifies gd
      ensures r.Served? ==> Stored(rom, off, dest, old(gd.mem), gd.mem, dst, dst + 2048 * n) && Ready()
      ensures r.Served? && dst % 32 == 0 ==>
                forall a | In(a, dst, dst + 2048 * n) && gd.mem.Ours(a) ::
                  Copied(rom, off, dest, gd.mem, a) && Viewed(rom, off, dest, gd.landing, gd.mem, a)
      ensures OnlyAt(old(gd.mem), gd.mem, dst, dst + 2048 * n)
      ensures r.Halted? ==> r == Halted(4, fad, gd.lastErr) || r.code == 5
    {
      ghost var m0 := gd.mem;
      var t := Transfer(if dst % 32 == 0 then G1 else P2, CART_FAD + fad, n, dst);
      ghost var out, attempts, fatal;
      r, out, attempts, fatal := ReadOrDie(t, fad);
      if r.Halted? { return; }
      forall a | In(a, dst, dst + 2048 * n) && m0.Ours(a)
        ensures Landed(rom, off, dest, m0, gd.mem, a)
        ensures dst % 32 == 0 ==>
                  Copied(rom, off, dest, gd.mem, a) && Viewed(rom, off, dest, gd.landing, gd.mem, a)
      {
        assert DeliveredAt(gd.disc, m0, gd.mem, t, a - dst);
        assert gd.disc(2048 * CART_FAD + (off + a - dest)) == rom[off + a - dest];
        if dst % 32 == 0 {
          assert Touches(a / 32, t.buf, t.End()) && gd.landing.Ours(t.buf + (a - dst));
          assert FreshAt(gd.disc, gd.landing, gd.mem, t, a - dst);
        }
      }
    }

    method Head(s: Split, ghost off: nat, ghost len: nat, dest: u32) returns (r: Result)
      requires Ready() && Cuts(s, off, len) && off + len <= CART_SIZE && dest + len <= SHIM_HOME
      modifies gd
      ensures r.Served? ==> Stored(rom, off, dest, old(gd.mem), gd.mem, dest, dest + s.headTake) && Ready()
      ensures OnlyAt(old(gd.mem), gd.mem, dest, dest + s.headTake)
      ensures r.Halted? ==> r.code == 5 || (r.code == 4 && r.b == gd.lastErr)
    {
      r := Served;
      if s.headTake != 0 {
        r := Bounced(s.headFad, s.headSkip, s.headTake, off, dest, dest);
      }
    }

    /** landing is memory as the DMA found it. */
    method Middle(s: Split, ghost off: nat, ghost len: nat, dest: u32) returns (r: Result, ghost landing: Mem)
      requires Ready() && Cuts(s, off, len) && off + len <= CART_SIZE && dest + len <= SHIM_HOME
      modifies gd
      ensures var lo, hi := dest + s.headTake, dest + s.headTake + 2048 * s.bodySect;
              && OnlyAt(old(gd.mem), gd.mem, lo, hi)
              && (r.Served? ==> Stored(rom, off, dest, old(gd.mem), gd.mem, lo, hi) && Ready())
      ensures r.Served? ==> DmaDone(rom, off, len, dest, landing, gd.mem)
      ensures r.Halted? ==> r.code == 5 || (r.code == 4 && r.b == gd.lastErr)
    {
      CutsHead(s, off, len);
      r, landing := Served, gd.mem;
      if s.bodySect != 0 {
        r := Body(s.bodyFad, s.bodySect, off, dest, dest + s.headTake);
        landing := gd.landing;
      }
    }

    method Tail(s: Split, ghost off: nat, ghost len: nat, dest: u32, ghost landing: Mem) returns (r: Result)
      requires Ready() && Cuts(s, off, len) && off + len <= CART_SIZE && dest + len <= SHIM_HOME
      requires DmaDone(rom, off, len, dest, landing, gd.mem)
      modifies gd
      ensures var lo := dest + len - s.tailTake;
              && OnlyAt(old(gd.mem), gd.mem, lo, dest + len)
              && (r.Served? ==> Stored(rom, off, dest, old(gd.mem), gd.mem, lo, dest + len) && Ready())
      ensures r.Served? ==> DmaDone(rom, off, len, dest, landing, gd.mem)
      ensures r.Halted? ==> r.code == 5 || (r.code == 4 && r.b == gd.lastErr)
    {
      CutsHead(s, off, len);
      r := Served;
      if s.tailTake != 0 {
        ghost var m := gd.mem;
        r := Bounced(s.tailFad, 0, s.tailTake, off, dest, dest + s.headTake + 2048 * s.bodySect);
        DmaStays(rom, off, len, dest, landing, m, gd.mem, dest + len - s.tailTake);
      }
    }

    /** cart_read: head, body, tail, in the order of their destination bytes. landing is memory as the body's
        DMA found it. */
    method CartRead(off: u32, len: u32, dest: u32) returns (r: Result, ghost landing: Mem)
      requires Ready() && len > 0 && off + len <= CART_SIZE && dest + len <= SHIM_HOME
      modifies gd
      ensures Handled(rom, off, len, dest, old(gd.mem), r, landing, gd.mem) && (r.Served? ==> Ready())
      ensures r.Halted? ==> r.code == 5 || (r.code == 4 && r.b == gd.lastErr)
    {
      ghost var m0 := gd.mem;
      var s := CartSplit(off, len);
      ghost var body, tail := dest + s.headTake, dest + len - s.tailTake;
      landing := gd.mem;
      r := Head(s, off, len, dest);
      OnlyTrans(m0, m0, gd.mem, dest, dest + len, dest, dest, dest, body);
      if r.Halted? { return; }
      ghost var m1 := gd.mem;
      r, landing := Middle(s, off, len, dest);
      OnlyTrans(m0, m1, gd.mem, dest, dest + len, dest, body, body, tail);
      if r.Halted? { return; }
      StoredTrans(rom, off, dest, m0, m1, gd.mem, dest, body, tail);
      ghost var m2 := gd.mem;
      r := Tail(s, off, len, dest, landing);
      OnlyTrans(m0, m2, gd.mem, dest, dest + len, dest, tail, tail, dest + len);
      if r.Halted? { return; }
      StoredTrans(rom, off, dest, m0, m2, gd.mem, dest, tail, dest + len);
    }

    /** shim_cart_service: take the request from the mirrored registers, refuse it or serve it, and on
        success tell the game its DMA is over. */
    method Service() returns (r: Result, ghost landing: Mem)
      requires Ready()
      modifies this, gd
      ensures var high, low := old(mirror)[0x00c / 4] % 0x1_0000, old(mirror)[0x010 / 4] % 0x1_0000;
              var off := (high * 0x1_0000 + low) % 0x1000_0000;
              var len := old(mirror)[0x408 / 4];
              var dest := old(mirror)[0x404 / 4] % 0x2000_0000;
              if !(0 < len <= 0x0100_0000 && off + len <= 0x680_0000)
                 || !(0x0c00_0000 <= dest && dest + len <= 0x0cfc_0000)
              then r == Halted(2, off, dest) && gd.mem == old(gd.mem)
              else Handled(rom, off, len, dest, old(gd.mem), r, landing, gd.mem)
                   && (r.Served? ==> Ready()) && (r.Halted? ==> r.code == 5 || (r.code == 4 && r.b == gd.lastErr))
      ensures mirror == if r.Served? then old(mirror)[0x418 / 4 := 0] else old(mirror)
    {
      var off := (mirror[DMA_OFFSETH] % 0x1_0000 * 0x1_0000 + mirror[DMA_OFFSETL] % 0x1_0000) % 0x1000_0000;
      var len := mirror[SB_GDLEN];
      var dest := mirror[SB_GDSTAR] % 0x2000_0000;
      GuardIsExact(off, len, dest);
      landing := gd.mem;
      if !Accepts(off, len, dest) {
        return Halted(2, off, dest), landing;
      }
      r, landing := CartRead(off, len, dest);
      if r.Served? {
        mirror := mirror[SB_GDST := 0];
      }
    }
  }
}
