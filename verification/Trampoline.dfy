/** The GD syscall trampoline gdc_call: stack swap, two-bank FPU quarantine, backend probe and the
    MMU-off window around an unknown syscall. The opcodes are functions on the processor state; the
    trampoline is the instruction sequence itself, one opcode a line. */
module Trampoline {
  import opened Words
  import opened Bits
  import opened Iface

  type Fpscr = x: int | 0 <= x < 0x40_0000   // the register has 22 bits

  const FRAME: int := 136                    // FPSCR, FPUL and two banks of sixteen
  const VEC: u32 := 0x8c00_00bc
  const VEC2: u32 := 0x8c00_00c0
  const MMUCR: u32 := 0xff00_0010
  const FPSCR_KOS: u32 := 0x0004_0001

  function Word(m: map<u32, u32>, a: u32): u32 {
    if a in m then m[a] else 0
  }

  /** The registers from lo up to hi agree. */
  predicate Same(a: Regs, b: Regs, lo: nat, hi: nat)
    requires hi <= 16
  {
    forall i | lo <= i < hi :: a[i] == b[i]
  }

  function FrBit(f: Fpscr): int { f / 0x20_0000 }
  function SzBit(f: Fpscr): int { f / 0x10_0000 % 2 }
  function PrBit(f: Fpscr): int { f / 0x8_0000 % 2 }

  /** FR, SZ and PR are bits 21, 20 and 19. */
  lemma FpscrBits(f: Fpscr)
    ensures (FrBit(f) == 1 <==> Bit(f, 21)) && (SzBit(f) == 1 <==> Bit(f, 20)) && (PrBit(f) == 1 <==> Bit(f, 19))
  {
    Pow2Values();
    Pow2Plus(16, 3);
    assert Pow2(3) == 8 && Pow2(19) == 0x8_0000 && Pow2(20) == 0x10_0000 && Pow2(21) == 0x20_0000;
    ShrIsDiv(f, 21);
    ShrIsDiv(f, 20);
    ShrIsDiv(f, 19);
  }

  /** The SH-4 state the trampoline can see. bank0 and bank1 are the physical FPU banks; FPSCR.FR says
      which one answers to fr0..fr15. mmu records every store to MMUCR, and ok turns false on a step
      these opcodes do not define: a misaligned access, fmov.s under SZ=1, frchg under PR=1. */
  datatype Cpu = Cpu(r: Regs, t: bool, pr: u32, fpul: u32, fpscr: Fpscr, bank0: Regs, bank1: Regs,
                     mem: map<u32, u32>, mmu: seq<u32>, ok: bool)
  {
    function Set(n: nat, v: u32): Cpu
      requires n < 16
    {
      this.(r := r[n := v])
    }

    function Store(a: u32, v: u32): Cpu {
      this.(mem := mem[a := v], mmu := if a == MMUCR then mmu + [v] else mmu, ok := ok && a % 4 == 0)
    }

    function Fetch(a: u32, n: nat): Cpu
      requires n < 16
    {
      Set(n, Word(mem, a)).(ok := ok && a % 4 == 0)
    }

    function Push(v: u32): Cpu {
      var a := Add32(r[15], -4);
      Set(15, a).Store(a, v)
    }

    function Popped(): Cpu {
      Set(15, Add32(r[15], 4)).(ok := ok && r[15] % 4 == 0)
    }

    function Front(): Regs {
      if FrBit(fpscr) == 0 then bank0 else bank1
    }

    // mov.l label,Rn and mov #i,Rn
    function MovPool(v: u32, n: nat): Cpu requires n < 16 { Set(n, v) }
    function MovImm(v: u32, n: nat): Cpu requires n < 16 { Set(n, v) }
    // mov.l Rm,@Rn and mov.l @Rm,Rn
    function MovStore(m: nat, n: nat): Cpu requires m < 16 && n < 16 { Store(r[n], r[m]) }
    function MovLoad(m: nat, n: nat): Cpu requires m < 16 && n < 16 { Fetch(r[m], n) }
    function AddImm(i: int, n: nat): Cpu requires n < 16 && -128 <= i < 128 { Set(n, Add32(r[n], i)) }
    function CmpEq(m: nat, n: nat): Cpu requires m < 16 && n < 16 { this.(t := r[n] == r[m]) }
    function CmpHs(m: nat, n: nat): Cpu requires m < 16 && n < 16 { this.(t := r[n] >= r[m]) }
    function Movt(n: nat): Cpu requires n < 16 { Set(n, if t then 1 else 0) }
    function AndR(m: nat, n: nat): Cpu requires m < 16 && n < 16 { Set(n, And(r[n], r[m])) }
    function OrR(m: nat, n: nat): Cpu requires m < 16 && n < 16 {
      Pow2Values();
      OrBelow(r[n], r[m], 32);
      Set(n, Or(r[n], r[m]))
    }
    function Tst(m: nat, n: nat): Cpu requires m < 16 && n < 16 { this.(t := And(r[n], r[m]) == 0) }
    // sts.l x,@-r15, lds.l @r15+,x and lds Rm,fpscr
    function StsLPr(): Cpu { Push(pr) }
    function StsLFpscr(): Cpu { Push(fpscr) }
    function StsLFpul(): Cpu { Push(fpul) }
    function LdsLPr(): Cpu { Popped().(pr := Word(mem, r[15])) }
    function LdsLFpul(): Cpu { Popped().(fpul := Word(mem, r[15])) }
    function LdsLFpscr(): Cpu { Popped().(fpscr := Word(mem, r[15]) % 0x40_0000) }
    function LdsFpscr(m: nat): Cpu requires m < 16 { this.(fpscr := r[m] % 0x40_0000) }
    // fmov.s FRm,@-r15, fmov.s @r15+,FRn and frchg
    function FmovPush(m: nat): Cpu requires m < 16 {
      var s := Push(Front()[m]);
      s.(ok := s.ok && SzBit(fpscr) == 0)
    }
    function FmovPop(n: nat): Cpu requires n < 16 {
      var s := Popped();
      var v := Word(mem, r[15]);
      var s' := if FrBit(fpscr) == 0 then s.(bank0 := bank0[n := v]) else s.(bank1 := bank1[n := v]);
      s'.(ok := s'.ok && SzBit(fpscr) == 0)
    }
    function Frchg(): Cpu {
      this.(fpscr := if FrBit(fpscr) == 0 then fpscr + 0x20_0000 else fpscr - 0x20_0000,
            ok := ok && PrBit(fpscr) == 0)
    }
  }

  /** The three words gdstack.S keeps in .data: _gdc_saved_sp, _gdc_saved_mmucr, _gdc_mmu_gate. */
  datatype Cells = Cells(sp: u32, mmucr: u32, gate: u32)
  {
    predicate Linked() {
      && SHIM_BASE <= sp && mmucr == sp + 4 && gate == sp + 8 && gate + 4 <= SHIM_BASE + SHIM_CODE_MAX
      && sp % 4 == 0
    }

    predicate Has(a: u32) { a == sp || a == mmucr || a == gate }
  }

  predicate InFrame(a: u32) { GD_STACK_TOP - FRAME <= a < GD_STACK_TOP }

  /** What an entry state must satisfy: an aligned stack whose next slot is plain memory, apart from the
      trampoline's own words, the vectors and MMUCR. Nothing is asked of the FPU or of FPSCR. */
  predicate Entry(c: Cells, e: Cpu) {
    && c.Linked() && e.ok
    && e.r[15] % 4 == 0 && e.r[15] >= 4
    && var slot := e.r[15] - 4;
       !InFrame(slot) && !c.Has(slot) && slot != VEC && slot != VEC2 && slot != MMUCR
  }

  /** The saved context: where each register of the entry state e sits in memory. */
  ghost predicate Saved(c: Cells, e: Cpu, m: map<u32, u32>)
    requires Entry(c, e)
  {
    && Word(m, c.sp) == e.r[15] - 4 && Word(m, e.r[15] - 4) == e.pr
    && Word(m, GD_STACK_TOP - 4) == e.fpscr && Word(m, GD_STACK_TOP - 8) == e.fpul
    && (forall i | 0 <= i < 16 :: Word(m, GD_STACK_TOP - 12 - 4 * i) == e.bank0[i])
    && (forall i | 0 <= i < 16 :: Word(m, GD_STACK_TOP - 76 - 4 * i) == e.bank1[i])
  }

  /** s is s0 after k pushes of the front bank. */
  ghost predicate Pushed(s0: Cpu, s: Cpu, k: nat)
    requires k <= 16 && 64 <= s0.r[15]
  {
    && s == s0.(r := s0.r[15 := s0.r[15] - 4 * k], mem := s.mem)
    && (forall i | 0 <= i < k :: Word(s.mem, s0.r[15] - 4 - 4 * i) == s0.Front()[i])
    && (forall a: u32 | !(s0.r[15] - 4 * k <= a < s0.r[15]) :: Word(s.mem, a) == Word(s0.mem, a))
  }

  predicate Pushable(s0: Cpu) {
    s0.ok && SzBit(s0.fpscr) == 0 && 64 <= s0.r[15] <= GD_STACK_TOP && s0.r[15] % 4 == 0
  }

  method PushStep(ghost s0: Cpu, s: Cpu, m: nat) returns (s': Cpu)
    requires m < 16 && Pushable(s0) && Pushed(s0, s, m)
    ensures Pushed(s0, s', m + 1)
  {
    s' := s.FmovPush(m);
  }

  method PushFrontBank(s0: Cpu) returns (s: Cpu)
    requires Pushable(s0)
    ensures Pushed(s0, s, 16)
  {
    s := s0;
    assert s == s0.(r := s0.r[15 := s0.r[15] - 0], mem := s.mem);
    s := PushStep(s0, s, 0);
    s := PushStep(s0, s, 1);
    s := PushStep(s0, s, 2);
    s := PushStep(s0, s, 3);
    s := PushStep(s0, s, 4);
    s := PushStep(s0, s, 5);
    s := PushStep(s0, s, 6);
    s := PushStep(s0, s, 7);
    s := PushStep(s0, s, 8);
    s := PushStep(s0, s, 9);
    s := PushStep(s0, s, 10);
    s := PushStep(s0, s, 11);
    s := PushStep(s0, s, 12);
    s := PushStep(s0, s, 13);
    s := PushStep(s0, s, 14);
    s := PushStep(s0, s, 15);
  }

  /** s is s0 after popping fr15 down to fr(n) into the front bank. */
  ghost predicate Popped(s0: Cpu, s: Cpu, n: nat)
    requires n <= 16 && s0.r[15] <= GD_STACK_TOP
  {
    && s == s0.(r := s0.r[15 := s0.r[15] + 4 * (16 - n)], bank0 := s.bank0, bank1 := s.bank1)
    && (if FrBit(s0.fpscr) == 0 then s.bank1 == s0.bank1 else s.bank0 == s0.bank0)
    && (forall i | n <= i < 16 :: s.Front()[i] == Word(s0.mem, s0.r[15] + 4 * (15 - i)))
  }

  predicate Poppable(s0: Cpu) {
    s0.ok && SzBit(s0.fpscr) == 0 && s0.r[15] <= GD_STACK_TOP && s0.r[15] % 4 == 0
  }

  method PopStep(ghost s0: Cpu, s: Cpu, n: nat) returns (s': Cpu)
    requires n < 16 && Poppable(s0) && Popped(s0, s, n + 1)
    ensures Popped(s0, s', n)
  {
    s' := s.FmovPop(n);
    assert s.r[15] == s0.r[15] + 4 * (15 - n);
    assert s'.Front()[n] == Word(s0.mem, s0.r[15] + 4 * (15 - n));
    assert forall i | n < i < 16 :: s'.Front()[i] == s.Front()[i];
  }

  method PopFrontBank(s0: Cpu) returns (s: Cpu)
    requires Poppable(s0)
    ensures Popped(s0, s, 0)
  {
    s := s0;
    assert s == s0.(r := s0.r[15 := s0.r[15] + 0], bank0 := s.bank0, bank1 := s.bank1);
    s := PopStep(s0, s, 15);
    s := PopStep(s0, s, 14);
    s := PopStep(s0, s, 13);
    s := PopStep(s0, s, 12);
    s := PopStep(s0, s, 11);
    s := PopStep(s0, s, 10);
    s := PopStep(s0, s, 9);
    s := PopStep(s0, s, 8);
    s := PopStep(s0, s, 7);
    s := PopStep(s0, s, 6);
    s := PopStep(s0, s, 5);
    s := PopStep(s0, s, 4);
    s := PopStep(s0, s, 3);
    s := PopStep(s0, s, 2);
    s := PopStep(s0, s, 1);
    s := PopStep(s0, s, 0);
  }

  /** Save PR on the caller's stack, park the stack pointer in its cell and switch to the private stack. */
  method ParkStack(c: Cells, e: Cpu) returns (s: Cpu)
    requires Entry(c, e)
    ensures Word(s.mem, c.sp) == e.r[15] - 4 && Word(s.mem, e.r[15] - 4) == e.pr
    ensures s == e.(r := s.r, mem := s.mem)
    ensures Same(s.r, e.r, 2, 15) && s.r[15] == GD_STACK_TOP
    ensures forall a: u32 | a != c.sp && a != e.r[15] - 4 :: Word(s.mem, a) == Word(e.mem, a)
  {
    s := e;
    s := s.StsLPr();
    s := s.MovPool(c.sp, 0);
    s := s.MovStore(15, 0);
    s := s.MovPool(GD_STACK_TOP, 15);
  }

  /** Park the caller's stack pointer, switch to the private stack and save FPSCR and FPUL. */
  method SwapStack(c: Cells, e: Cpu) returns (s: Cpu)
    requires Entry(c, e)
    ensures Word(s.mem, c.sp) == e.r[15] - 4 && Word(s.mem, e.r[15] - 4) == e.pr
    ensures Word(s.mem, GD_STACK_TOP - 4) == e.fpscr && Word(s.mem, GD_STACK_TOP - 8) == e.fpul
    ensures s == e.(r := s.r, fpscr := FPSCR_KOS, mem := s.mem)
    ensures Same(s.r, e.r, 2, 15) && s.r[15] == GD_STACK_TOP - 8
    ensures forall a: u32 | !InFrame(a) && a != c.sp && a != e.r[15] - 4 :: Word(s.mem, a) == Word(e.mem, a)
  {
    s := ParkStack(c, e);
    s := s.StsLFpscr();
    s := s.StsLFpul();
    s := s.MovPool(FPSCR_KOS, 1);
    s := s.LdsFpscr(1);
  }

  /** Stack swap and FPU quarantine: every register of the entry state reaches the private frame, and no
      other word changes but the caller's next slot and the saved-SP cell. */
  method SaveContext(c: Cells, e: Cpu) returns (s: Cpu)
    requires Entry(c, e)
    ensures Saved(c, e, s.mem)
    ensures s == e.(r := s.r, fpscr := FPSCR_KOS, mem := s.mem)
    ensures Same(s.r, e.r, 2, 15) && s.r[15] == GD_STACK_TOP - FRAME
    ensures forall a: u32 | !InFrame(a) && a != c.sp && a != e.r[15] - 4 :: Word(s.mem, a) == Word(e.mem, a)
  {
    var s1 := SwapStack(c, e);
    var s2 := PushFrontBank(s1);
    var s3 := s2.Frchg();
    var s4 := PushFrontBank(s3);
    s := s4.Frchg();
    assert s1.Front() == e.bank0 && s3.Front() == e.bank1;
    forall i | 0 <= i < 16 ensures Word(s.mem, GD_STACK_TOP - 12 - 4 * i) == e.bank0[i] {
      assert s1.r[15] - 4 - 4 * i == GD_STACK_TOP - 12 - 4 * i;
    }
    forall i | 0 <= i < 16 ensures Word(s.mem, GD_STACK_TOP - 76 - 4 * i) == e.bank1[i] {
      assert s3.r[15] - 4 - 4 * i == GD_STACK_TOP - 76 - 4 * i;
    }
  }

  /** Whether the installed GD vectors belong to an isoldr-class loader: the two stubs sit 8 bytes apart,
      or the entry lies above the BIOS syscall RAM. */
  predicate Isoldr(entry: u32, entry2: u32) {
    entry2 == Add32(entry, 8) || entry % 0x100_0000 >= 0x1_0000
  }

  lemma FlagBits(a: nat, b: nat)
    requires a <= 1 && b <= 1
    ensures Or(a, b) == if a == 1 || b == 1 then 1 else 0
    ensures And(a, a) == a
  {
    assert And(0, 0) == 0 && And(1, 1) == 1;
    assert Or(0, 0) == 0 && Or(0, 1) == 1 && Or(1, 0) == 1 && Or(1, 1) == 1;
  }

  lemma OffsetMask(entry: u32)
    ensures And(0x00ff_ffff, entry) == entry % 0x100_0000
  {
    Pow2Values();
    AndMask(entry, 24);
    AndComm(entry, 0x00ff_ffff);
  }

  /** The arithmetic behind the probe's masks: the wrapped comparison is the +8 test, and the and-mask
      is the 16 MB RAM offset. */
  lemma ProbeVerdict(entry: u32, entry2: u32)
    ensures Add32(entry2, -8) == entry <==> entry2 == Add32(entry, 8)
    ensures And(0x00ff_ffff, entry) == entry % 0x100_0000
  {
    OffsetMask(entry);
  }

  /** Backend probe: r3 is the verdict. */
  method Probe(s0: Cpu) returns (s: Cpu)
    requires s0.ok
    ensures s.r[3] == if Isoldr(Word(s0.mem, VEC), Word(s0.mem, VEC2)) then 1 else 0
    ensures s == s0.(r := s.r, t := s.t) && Same(s.r, s0.r, 4, 16)
  {
    s := s0;
    s := s.MovPool(VEC, 1);
    s := s.MovLoad(1, 2);
    s := s.MovPool(VEC2, 1);
    s := s.MovLoad(1, 1);
    s := s.AddImm(-8, 1);
    s := s.CmpEq(2, 1);
    s := s.Movt(3);
    s := s.MovPool(0x00ff_ffff, 1);
    s := s.AndR(2, 1);
    ProbeVerdict(Word(s0.mem, VEC), Word(s0.mem, VEC2));
    assert s.r[1] == Word(s0.mem, VEC) % 0x100_0000;
    s := s.MovPool(0x0001_0000, 2);
    s := s.CmpHs(2, 1);
    s := s.Movt(1);
    FlagBits(s.r[3], s.r[1]);
    s := s.OrR(1, 3);
  }

  /** Latch the verdict, and save and clear MMUCR exactly when it says isoldr. */
  method OpenWindow(c: Cells, s0: Cpu) returns (s: Cpu)
    requires c.Linked() && s0.ok && s0.r[3] <= 1
    ensures var gate := s0.r[3] == 1;
            && Word(s.mem, c.gate) == s0.r[3]
            && (gate ==> Word(s.mem, c.mmucr) == Word(s0.mem, MMUCR) && Word(s.mem, MMUCR) == 0)
            && s.mmu == s0.mmu + (if gate then [0] else [])
            && forall a: u32 | a != c.gate && (gate ==> a != c.mmucr && a != MMUCR) :: Word(s.mem, a) == Word(s0.mem, a)
    ensures s == s0.(r := s.r, t := s.t, mem := s.mem, mmu := s.mmu) && Same(s.r, s0.r, 4, 16)
  {
    s := s0;
    s := s.MovPool(c.gate, 2);
    s := s.MovStore(3, 2);
    FlagBits(s.r[3], 0);
    s := s.Tst(3, 3);
    if !s.t {                        // bt .Lmmu_skip_clear
      s := s.MovPool(MMUCR, 1);
      s := s.MovLoad(1, 2);
      s := s.MovPool(c.mmucr, 3);
      s := s.MovStore(2, 3);
      s := s.MovImm(0, 2);
      s := s.MovStore(2, 1);
    }
  }

  /** The words the restore half depends on. */
  predicate Guarded(c: Cells, e: Cpu, a: u32) {
    InFrame(a) || c.Has(a) || a == Add32(e.r[15], -4)
  }

  lemma SavedPersists(c: Cells, e: Cpu, m: map<u32, u32>, m': map<u32, u32>)
    requires Entry(c, e) && Saved(c, e, m)
    requires forall a: u32 | Guarded(c, e, a) && a != c.gate && a != c.mmucr :: Word(m', a) == Word(m, a)
    ensures Saved(c, e, m')
  {
    assert Guarded(c, e, c.sp) && Guarded(c, e, e.r[15] - 4);
    assert Guarded(c, e, GD_STACK_TOP - 4) && Guarded(c, e, GD_STACK_TOP - 8);
    forall i | 0 <= i < 16
      ensures Word(m', GD_STACK_TOP - 12 - 4 * i) == e.bank0[i]
      ensures Word(m', GD_STACK_TOP - 76 - 4 * i) == e.bank1[i]
    {
      assert Guarded(c, e, GD_STACK_TOP - 12 - 4 * i) && Guarded(c, e, GD_STACK_TOP - 76 - 4 * i);
    }
  }

  /** An adversarial syscall: it may do anything at all to memory, registers and MMUCR, as long as it
      keeps r8-r15, the private frame, the trampoline's cells and the caller's saved PR. */
  ghost predicate Abides(callee: (u32, Cpu) -> Cpu, c: Cells, e: Cpu) {
    forall target: u32, k: Cpu | k.ok && k.r[15] == GD_STACK_TOP - FRAME ::
      var k' := callee(target, k);
      && k'.ok && Same(k'.r, k.r, 8, 16)
      && forall a: u32 | Guarded(c, e, a) :: Word(k'.mem, a) == Word(k.mem, a)
  }

  /** The second half: put MMUCR back when the window was open. r0 holds the result throughout. */
  method CloseWindow(c: Cells, s0: Cpu) returns (s: Cpu)
    requires c.Linked() && s0.ok && Word(s0.mem, c.gate) <= 1
    ensures var gate := Word(s0.mem, c.gate) == 1;
            && s.mmu == s0.mmu + (if gate then [Word(s0.mem, c.mmucr)] else [])
            && (gate ==> Word(s.mem, MMUCR) == Word(s0.mem, c.mmucr))
            && forall a: u32 | gate ==> a != MMUCR :: Word(s.mem, a) == Word(s0.mem, a)
    ensures s == s0.(r := s.r, t := s.t, mem := s.mem, mmu := s.mmu)
    ensures s.r[0] == s0.r[0] && Same(s.r, s0.r, 8, 16)
  {
    s := s0;
    s := s.MovPool(c.gate, 1);
    s := s.MovLoad(1, 1);
    FlagBits(s.r[1], 0);
    s := s.Tst(1, 1);
    if !s.t {                        // bt .Lmmu_skip_restore
      s := s.MovPool(c.mmucr, 3);
      s := s.MovLoad(3, 2);
      s := s.MovPool(MMUCR, 1);
      s := s.MovStore(2, 1);
    }
  }

  /** Both FPU banks come back from memory alone, whatever FPSCR the syscall left. */
  method RestoreBanks(c: Cells, ghost e: Cpu, s0: Cpu) returns (s: Cpu)
    requires Entry(c, e) && Saved(c, e, s0.mem)
    requires s0.ok && s0.r[15] == GD_STACK_TOP - FRAME
    ensures s == s0.(r := s.r, fpscr := FPSCR_KOS, bank0 := e.bank0, bank1 := e.bank1)
    ensures Same(s.r, s0.r, 2, 15) && s.r[0] == s0.r[0] && s.r[15] == GD_STACK_TOP - 8
  {
    s := s0;
    s := s.MovPool(FPSCR_KOS, 1);
    s := s.LdsFpscr(1);
    s := s.Frchg();
    var s1 := PopFrontBank(s);
    forall i | 0 <= i < 16 ensures s1.bank1[i] == e.bank1[i] {
      assert s1.Front()[i] == s1.bank1[i];
      assert s.r[15] + 4 * (15 - i) == GD_STACK_TOP - 76 - 4 * i;
    }
    var s2 := s1.Frchg();
    s := PopFrontBank(s2);
    forall i | 0 <= i < 16 ensures s.bank0[i] == e.bank0[i] {
      assert s.Front()[i] == s.bank0[i];
      assert s2.r[15] + 4 * (15 - i) == GD_STACK_TOP - 12 - 4 * i;
    }
    assert s.bank0 == e.bank0 && s.bank1 == s1.bank1 == e.bank1;
  }

  /** Undo SaveContext from memory alone. */
  method RestoreContext(c: Cells, ghost e: Cpu, s0: Cpu) returns (s: Cpu)
    requires Entry(c, e) && Saved(c, e, s0.mem)
    requires s0.ok && s0.r[15] == GD_STACK_TOP - FRAME
    ensures s == e.(r := s.r, t := s.t, mem := s0.mem, mmu := s0.mmu)
    ensures s.r[15] == e.r[15] && s.r[0] == s0.r[0] && Same(s.r, s0.r, 8, 15)
  {
    s := RestoreBanks(c, e, s0);
    s := s.LdsLFpul();
    s := s.LdsLFpscr();
    s := s.MovPool(c.sp, 1);
    s := s.MovLoad(1, 15);
    s := s.LdsLPr();                 // then rts
  }

  /** Everything before the jsr: the context saved, the window open if the probe says so, the arguments
      untouched and the syscall's entry point in r0. */
  method Enter(c: Cells, e: Cpu) returns (s: Cpu)
    requires Entry(c, e)
    ensures s == e.(r := s.r, t := s.t, fpscr := FPSCR_KOS, mem := s.mem, mmu := s.mmu)
    ensures Saved(c, e, s.mem)
    ensures s.r[0] == Word(e.mem, VEC) && Same(s.r, e.r, 4, 15) && s.r[15] == GD_STACK_TOP - FRAME
    ensures var mmucr := Word(e.mem, MMUCR);
            if Isoldr(Word(e.mem, VEC), Word(e.mem, VEC2))
            then s.mmu == e.mmu + [0] && Word(s.mem, MMUCR) == 0
                 && Word(s.mem, c.gate) == 1 && Word(s.mem, c.mmucr) == mmucr
            else s.mmu == e.mmu && Word(s.mem, MMUCR) == mmucr && Word(s.mem, c.gate) == 0
    ensures forall a: u32 | !Guarded(c, e, a) && a != MMUCR :: Word(s.mem, a) == Word(e.mem, a)
  {
    s := SaveContext(c, e);
    ghost var saved := s.mem;
    s := Probe(s);
    s := OpenWindow(c, s);
    SavedPersists(c, e, saved, s.mem);
    s := s.MovPool(VEC, 0);
    s := s.MovLoad(0, 0);
  }

  /** The gate opens for an isoldr pair wherever it is placed, and stays closed for both stock BIOS
      vector pairs on record. */
  lemma GateVerdicts(entry: u32)
    ensures Isoldr(entry, Add32(entry, 8))
    ensures !Isoldr(0x8c00_1000, 0x8c00_10f0) && !Isoldr(0x8c00_1006, 0x8c00_10f0)
  {}

  /** The two signatures, on the words themselves. */
  lemma IsoldrMeans(entry: u32, entry2: u32)
    ensures Isoldr(entry, entry2) <==>
            entry2 == (entry + 8) % 0x1_0000_0000 || And(entry, 0x00ff_ffff) >= 0x1_0000
  {
    OffsetMask(entry);
    AndComm(entry, 0x00ff_ffff);
  }

  predicate Stock(entry: u32, entry2: u32) {
    (entry == 0x8c00_1000 || entry == 0x8c00_1006) && entry2 == 0x8c00_10f0
  }

  /** gdc_call against any syscall that abides: the caller gets back both FPU banks, FPSCR, FPUL, PR, r15
      and r8-r14 as they were, and r0 from the syscall. The syscall sees r4-r7 unchanged and runs 136
      bytes down the private stack under the KOS FPSCR. Whatever the syscall itself stores to MMUCR, the
      trampoline adds two stores, a zero before and the entry value after, or none: two at every placement
      of an isoldr vector pair, none under either stock pair. Of memory it changes only its own words and
      the caller's next slot before the syscall, and nothing but MMUCR after it. The vectors are at
      0x8c0000bc and 0x8c0000c0, MMUCR at 0xff000010. */
  method GdcCall(c: Cells, callee: (u32, Cpu) -> Cpu, returnTo: u32, e: Cpu) returns (s: Cpu, atCall: Cpu)
    requires Entry(c, e) && Abides(callee, c, e)
    ensures s.ok
    ensures s.bank0 == e.bank0 && s.bank1 == e.bank1 && s.fpscr == e.fpscr && s.fpul == e.fpul
    ensures s.pr == e.pr && s.r[8..] == e.r[8..]
    ensures s.r[0] == callee(Word(e.mem, 0x8c00_00bc), atCall).r[0]
    ensures atCall.r[4..8] == e.r[4..8] && atCall.r[15] == 0x8cfd_8000 - 136 && atCall.pr == returnTo
    ensures atCall.fpscr == 0x0004_0001 && atCall.bank0 == e.bank0
    ensures var mmucr, back := Word(e.mem, 0xff00_0010), callee(Word(e.mem, 0x8c00_00bc), atCall);
            var entry, entry2 := Word(e.mem, 0x8c00_00bc), Word(e.mem, 0x8c00_00c0);
            if entry2 == (entry + 8) % 0x1_0000_0000 || And(entry, 0x00ff_ffff) >= 0x1_0000
            then && atCall.mmu == e.mmu + [0] && Word(atCall.mem, 0xff00_0010) == 0
                 && s.mmu == back.mmu + [mmucr] && Word(s.mem, 0xff00_0010) == mmucr
            else && atCall.mmu == e.mmu && Word(atCall.mem, 0xff00_0010) == mmucr
                 && s.mmu == back.mmu && Word(s.mem, 0xff00_0010) == Word(back.mem, 0xff00_0010)
    ensures Word(e.mem, 0x8c00_00c0) == Add32(Word(e.mem, 0x8c00_00bc), 8) ==> atCall.mmu == e.mmu + [0]
    ensures Stock(Word(e.mem, 0x8c00_00bc), Word(e.mem, 0x8c00_00c0))
            ==> atCall.mmu == e.mmu && s.mmu == callee(Word(e.mem, 0x8c00_00bc), atCall).mmu
    ensures forall a: u32 | !Guarded(c, e, a) && a != 0xff00_0010 :: Word(atCall.mem, a) == Word(e.mem, a)
    ensures forall a: u32 | a != 0xff00_0010 :: Word(s.mem, a) == Word(callee(Word(e.mem, 0x8c00_00bc), atCall).mem, a)
  {
    GateVerdicts(Word(e.mem, VEC));
    IsoldrMeans(Word(e.mem, VEC), Word(e.mem, VEC2));
    s := Enter(c, e);
    var target := s.r[0];            // jsr @r0, nop in its delay slot
    atCall := s.(pr := returnTo);
    s := callee(target, atCall);
    assert Guarded(c, e, c.gate) && Guarded(c, e, c.mmucr);
    s := CloseWindow(c, s);
    SavedPersists(c, e, atCall.mem, s.mem);
    s := RestoreContext(c, e, s);
  }
}
