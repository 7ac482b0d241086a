/** The patch table: the generator that verifies old bytes and emits entry thunks, the loader's in-place
    application, and the SH-4 decoding that says what an emitted thunk does. */
module Patch {
  import opened Options
  import opened Words
  import opened Bits
  import opened Iface

  datatype Patch = Patch(addr: u32, was: seq<byte>, now: seq<byte>)
  {
    function Lo(): int { addr - GAME_LOAD_ADDR }
    function Hi(): int { Lo() + |was| }
    predicate Covers(k: int) { Lo() <= k < Hi() }
    function Swapped(): Patch { Patch(addr, now, was) }
    /** A non-empty site inside an image of n bytes, replaced by as many bytes as it had. */
    predicate Fits(n: nat) { 0 <= Lo() && Hi() <= n && 0 < |was| == |now| }
  }

  predicate Matches(img: seq<byte>, p: Patch)
    requires p.Fits(|img|)
  {
    img[p.Lo()..p.Hi()] == p.was
  }

  predicate AllFit(ps: seq<Patch>, n: nat) {
    forall i | 0 <= i < |ps| :: ps[i].Fits(n)
  }

  predicate AllMatch(img: seq<byte>, ps: seq<Patch>)
    requires AllFit(ps, |img|)
  {
    forall i | 0 <= i < |ps| :: Matches(img, ps[i])
  }

  predicate Apart(p: Patch, q: Patch) { p.Hi() <= q.Lo() || q.Hi() <= p.Lo() }

  predicate Disjoint(ps: seq<Patch>) {
    forall i, j | 0 <= i < |ps| && 0 <= j < |ps| && i != j :: Apart(ps[i], ps[j])
  }

  // ---- applying a table ----

  function Overlay(img: seq<byte>, p: Patch): (r: seq<byte>)
    requires p.Fits(|img|)
    ensures |r| == |img|
    ensures forall k | 0 <= k < |img| :: r[k] == if p.Covers(k) then p.now[k - p.Lo()] else img[k]
  {
    img[..p.Lo()] + p.now + img[p.Hi()..]
  }

  datatype Applied = Applied(img: seq<byte>, ok: bool)

  /** Entry by entry: stop at the first site whose old bytes are not there. */
  function Apply(img: seq<byte>, ps: seq<Patch>): (r: Applied)
    requires AllFit(ps, |img|)
    ensures |r.img| == |img|
    decreases |ps|
  {
    if ps == [] then Applied(img, true)
    else if !Matches(img, ps[0]) then Applied(img, false)
    else Apply(Overlay(img, ps[0]), ps[1..])
  }

  method ApplyPatches(img: array<byte>, ps: seq<Patch>) returns (r: int)
    requires AllFit(ps, img.Length)
    modifies img
    ensures Applied(img[..], r == 0) == Apply(old(img[..]), ps)
    ensures r == 0 || r == -1
  {
    for i := 0 to |ps|
      invariant Apply(old(img[..]), ps) == Apply(img[..], ps[i..])
    {
      var p := ps[i];
      ghost var before := img[..];
      if img[p.Lo()..p.Hi()] != p.was {
        return -1;
      }
      forall k | p.Lo() <= k < p.Hi() {
        img[k] := p.now[k - p.Lo()];
      }
      assert img[..] == Overlay(before, p);
    }
    r := 0;
  }

  predicate Uncovered(ps: seq<Patch>, k: int) {
    forall i | 0 <= i < |ps| :: !ps[i].Covers(k)
  }

  /** img with every site of ps replaced at once. */
  ghost predicate Substituted(img: seq<byte>, ps: seq<Patch>, r: seq<byte>)
    requires AllFit(ps, |img|)
  {
    && |r| == |img|
    && (forall i, k | 0 <= i < |ps| && ps[i].Covers(k) :: r[k] == ps[i].now[k - ps[i].Lo()])
    && (forall k | 0 <= k < |img| && Uncovered(ps, k) :: r[k] == img[k])
  }

  /** Putting in the first entry of a disjoint table leaves the others to match. */
  lemma RestMatches(img: seq<byte>, ps: seq<Patch>)
    requires ps != [] && AllFit(ps, |img|) && AllMatch(img, ps) && Disjoint(ps)
    ensures AllMatch(Overlay(img, ps[0]), ps[1..]) && Disjoint(ps[1..])
  {
    var p, rest := ps[0], ps[1..];
    var next := Overlay(img, p);
    forall i | 0 <= i < |rest| ensures Matches(next, rest[i]) {
      assert rest[i] == ps[i + 1] && Apart(p, rest[i]) && Matches(img, ps[i + 1]);
      assert next[rest[i].Lo()..rest[i].Hi()] == img[rest[i].Lo()..rest[i].Hi()];
    }
    assert Disjoint(rest) by {
      assert forall i | 0 <= i < |rest| :: rest[i] == ps[i + 1];
    }
  }

  /** Replacing the other sites at once in that image replaces them all in the first. */
  lemma SubstitutedNext(img: seq<byte>, ps: seq<Patch>, r: seq<byte>)
    requires ps != [] && AllFit(ps, |img|) && Disjoint(ps) && Substituted(Overlay(img, ps[0]), ps[1..], r)
    ensures Substituted(img, ps, r)
  {
    var rest := ps[1..];
    forall i, k | 0 <= i < |ps| && ps[i].Covers(k) ensures r[k] == ps[i].now[k - ps[i].Lo()] {
      if i == 0 {
        forall j | 0 <= j < |rest| ensures !rest[j].Covers(k) { assert Apart(ps[0], ps[j + 1]); }
        assert Uncovered(rest, k);
      } else {
        assert rest[i - 1] == ps[i];
      }
    }
    forall k | 0 <= k < |img| && Uncovered(ps, k) ensures r[k] == img[k] {
      assert !ps[0].Covers(k);
      forall j | 0 <= j < |rest| ensures !rest[j].Covers(k) { assert !ps[j + 1].Covers(k); }
      assert Uncovered(rest, k);
    }
  }

  /** On the image it was generated from, a disjoint table applies, and one entry after another is the
      same as all at once. */
  lemma {:induction false} DisjointApplies(img: seq<byte>, ps: seq<Patch>)
    requires AllFit(ps, |img|) && AllMatch(img, ps) && Disjoint(ps)
    ensures Apply(img, ps).ok && Substituted(img, ps, Apply(img, ps).img)
    decreases |ps|
  {
    if ps == [] {
    } else {
      RestMatches(img, ps);
      DisjointApplies(Overlay(img, ps[0]), ps[1..]);
      assert Matches(img, ps[0]);
      SubstitutedNext(img, ps, Apply(img, ps).img);
    }
  }

  lemma SubstitutedUnique(img: seq<byte>, ps: seq<Patch>, ps': seq<Patch>, r: seq<byte>, r': seq<byte>)
    requires AllFit(ps, |img|) && AllFit(ps', |img|)
    requires forall p :: p in ps <==> p in ps'
    requires Substituted(img, ps, r) && Substituted(img, ps', r')
    ensures r == r'
  {
    forall k | 0 <= k < |img| ensures r[k] == r'[k] {
      if i :| 0 <= i < |ps| && ps[i].Covers(k) {
        assert ps[i] in ps';
        var j :| 0 <= j < |ps'| && ps'[j] == ps[i];
        assert ps'[j].Covers(k);
      } else {
        forall j | 0 <= j < |ps'| ensures !ps'[j].Covers(k) { assert ps'[j] in ps; }
        assert Uncovered(ps, k) && Uncovered(ps', k);
      }
    }
  }

  lemma {:induction false} Twice(ps: seq<Patch>, p: Patch) returns (i: nat, j: nat)
    requires multiset(ps)[p] >= 2
    ensures i < j < |ps| && ps[i] == p && ps[j] == p
  {
    var last := |ps| - 1;
    assert ps == ps[..last] + [ps[last]];
    if ps[last] == p {
      assert p in multiset(ps[..last]);
      i :| 0 <= i < last && ps[..last][i] == p;
      j := last;
    } else {
      i, j := Twice(ps[..last], p);
    }
  }

  lemma CountsTwo(ps: seq<Patch>, i: nat, j: nat)
    requires i < j < |ps| && ps[i] == ps[j]
    ensures multiset(ps)[ps[i]] >= 2
  {
    assert ps == ps[..j] + [ps[j]] + ps[j + 1..];
    assert ps[..j][i] == ps[i] && ps[i] in multiset(ps[..j]);
  }

  /** Reordering a disjoint table changes nothing. */
  lemma OrderIndependent(img: seq<byte>, ps: seq<Patch>, ps': seq<Patch>)
    requires multiset(ps) == multiset(ps')
    requires AllFit(ps, |img|) && AllMatch(img, ps) && Disjoint(ps)
    ensures AllFit(ps', |img|) && Apply(img, ps') == Apply(img, ps)
  {
    assert forall p :: p in ps <==> p in multiset(ps);
    assert forall p :: p in ps' <==> p in multiset(ps');
    forall i | 0 <= i < |ps'| ensures ps'[i].Fits(|img|) && Matches(img, ps'[i]) {
      assert ps'[i] in ps;
    }
    forall i, j | 0 <= i < |ps'| && 0 <= j < |ps'| && i != j ensures Apart(ps'[i], ps'[j]) {
      var p, q := ps'[i], ps'[j];
      assert p in ps && q in ps;
      if p == q {
        CountsTwo(ps', if i < j then i else j, if i < j then j else i);
        var a, b := Twice(ps, p);
        assert Apart(ps[a], ps[b]);
      }
    }
    DisjointApplies(img, ps);
    DisjointApplies(img, ps');
    SubstitutedUnique(img, ps, ps', Apply(img, ps).img, Apply(img, ps').img);
  }

  function Swap(ps: seq<Patch>): (r: seq<Patch>)
    ensures |r| == |ps| && forall i | 0 <= i < |ps| :: r[i] == ps[i].Swapped()
  {
    seq(|ps|, i requires 0 <= i < |ps| => ps[i].Swapped())
  }

  lemma SwapMatches(img: seq<byte>, ps: seq<Patch>, patched: seq<byte>)
    requires AllFit(ps, |img|) && Disjoint(ps) && Substituted(img, ps, patched)
    ensures AllFit(Swap(ps), |img|) && AllMatch(patched, Swap(ps)) && Disjoint(Swap(ps))
  {
    var back := Swap(ps);
    forall i | 0 <= i < |back| ensures Matches(patched, back[i]) {
      var p := ps[i];
      assert forall k | p.Lo() <= k < p.Hi() :: p.Covers(k);
      assert patched[p.Lo()..p.Hi()] == p.now;
    }
    forall i, j | 0 <= i < |back| && 0 <= j < |back| && i != j ensures Apart(back[i], back[j]) {
      assert Apart(ps[i], ps[j]);
    }
  }

  lemma SwapRestores(img: seq<byte>, ps: seq<Patch>, patched: seq<byte>)
    requires AllFit(ps, |img|) && AllMatch(img, ps) && Substituted(img, ps, patched)
    requires AllFit(Swap(ps), |img|)
    ensures Substituted(patched, Swap(ps), img)
  {
    var back := Swap(ps);
    forall i, k | 0 <= i < |back| && back[i].Covers(k) ensures img[k] == back[i].now[k - back[i].Lo()] {
      var p := ps[i];
      assert Matches(img, p) && img[k] == img[p.Lo()..p.Hi()][k - p.Lo()];
    }
    forall k | 0 <= k < |img| && Uncovered(back, k) ensures img[k] == patched[k] {
      forall i | 0 <= i < |ps| ensures !ps[i].Covers(k) { assert !back[i].Covers(k); }
      assert Uncovered(ps, k);
    }
  }

  /** The table with old and new exchanged takes the patched image back. */
  lemma SwapUndoes(img: seq<byte>, ps: seq<Patch>)
    requires AllFit(ps, |img|) && AllMatch(img, ps) && Disjoint(ps)
    ensures AllFit(Swap(ps), |img|)
    ensures Apply(Apply(img, ps).img, Swap(ps)) == Applied(img, true)
  {
    var patched, back := Apply(img, ps).img, Swap(ps);
    DisjointApplies(img, ps);
    SwapMatches(img, ps, patched);
    SwapRestores(img, ps, patched);
    DisjointApplies(patched, back);
    SubstitutedUnique(patched, back, back, img, Apply(patched, back).img);
  }

  lemma TakeRest(ps: seq<Patch>, j: nat)
    requires j < |ps|
    ensures ps[..j + 1][0] == ps[0] && ps[..j + 1][1..] == ps[1..][..j]
  {}

  /** A table that does not apply stops at a definite entry: everything before it went in, the entry's
      old bytes are not there, and no byte beyond the earlier sites has changed. */
  lemma {:induction false} FailureStops(img: seq<byte>, ps: seq<Patch>) returns (i: nat)
    requires AllFit(ps, |img|) && !Apply(img, ps).ok
    ensures i < |ps| && AllFit(ps[..i], |img|)
    ensures Apply(img, ps[..i]) == Applied(Apply(img, ps).img, true)
    ensures !Matches(Apply(img, ps).img, ps[i])
    ensures forall k | 0 <= k < |img| && Uncovered(ps[..i], k) :: Apply(img, ps).img[k] == img[k]
    decreases |ps|
  {
    if !Matches(img, ps[0]) {
      i := 0;
    } else {
      var next, rest := Overlay(img, ps[0]), ps[1..];
      var j := FailureStops(next, rest);
      i := j + 1;
      TakeRest(ps, j);
      forall k | 0 <= k < |img| && Uncovered(ps[..i], k) ensures Apply(img, ps).img[k] == img[k] {
        assert !ps[..i][0].Covers(k);
        forall x | 0 <= x < j ensures !rest[..j][x].Covers(k) { assert !ps[..i][x + 1].Covers(k); }
        assert Uncovered(rest[..j], k);
      }
    }
  }

  // ---- the generator ----

  /** sh-4 entry thunk for fn: mov.l @(disp,PC),r0; jmp @r0; nop; padding; the target. */
  function Slot(fn: nat): nat { (fn + 6 + 3) / 4 * 4 }
  function Disp(fn: nat): int { (Slot(fn) - (fn / 4 * 4 + 4)) / 4 }
  function Padding(fn: nat): int { (Slot(fn) - (fn + 6)) / 2 }

  function Nops(n: nat): seq<byte> {
    if n == 0 then [] else Pack16(0x0009) + Nops(n - 1)
  }

  /** disp has eight bits, so or-ing it into the opcode adds it. */
  lemma LoadOpcode(disp: nat)
    requires disp <= 255
    ensures Or(0xd000, disp) == 0xd000 + disp
  {
    Pow2Values();
    OrShifted(0xd0, disp, 8);
    assert Shl(0xd0, 8) == 0xd000;
  }

  function Thunk(disp: nat, nops: nat, target: u32): seq<byte>
    requires disp <= 255
  {
    Pack16(0xd000 + disp) + Pack16(0x402b) + Pack16(0x0009) + Nops(nops) + Pack32(target)
  }

  /** Where the pooled word belongs, by the address's remainder modulo 4. */
  lemma SlotAt(fn: nat)
    ensures fn % 4 == 0 ==> Slot(fn) == fn + 8 && Disp(fn) == 1 && Padding(fn) == 1
    ensures fn % 4 == 1 ==> Slot(fn) == fn + 7 && Disp(fn) == 1 && Padding(fn) == 0
    ensures fn % 4 == 2 ==> Slot(fn) == fn + 6 && Disp(fn) == 1 && Padding(fn) == 0
    ensures fn % 4 == 3 ==> Slot(fn) == fn + 9 && Disp(fn) == 2 && Padding(fn) == 1
  {
    assert fn == 4 * (fn / 4) + fn % 4;
    assert (fn + 6 + 3) / 4 == fn / 4 + (if fn % 4 == 3 then 3 else 2);
  }

  function ThunkCode(fn: nat, target: u32): seq<byte> {
    SlotAt(fn);
    Thunk(Disp(fn), Padding(fn), target)
  }

  /** Everything the generator may have appended: a site inside the image, as long as its replacement,
      holding the bytes the image holds there. */
  predicate Emitted(boot: seq<byte>, p: Patch) {
    p.Fits(|boot|) && Matches(boot, p)
  }

  /** 0xD000 | disp */
  method LoadAt(disp: nat) returns (op: u16)
    requires disp <= 255
    ensures op == 0xd000 + disp
  {
    LoadOpcode(disp);
    op := Or(0xd000, disp);
  }

  /** The thunk's bytes, as the generator packs them. */
  method Assemble(fn: u32, target: u32) returns (code: seq<byte>)
    ensures code == ThunkCode(fn, target)
  {
    SlotAt(fn);
    var slot := Slot(fn);
    var pad := slot - (fn + 6);
    var disp := (slot - (fn / 4 * 4 + 4)) / 4;
    var load := LoadAt(disp);
    code := Pack16(load) + Pack16(0x402b) + Pack16(0x0009);
    code := code + Nops(pad / 2) + Pack32(target);
  }

  lemma NopsLength(n: nat)
    ensures |Nops(n)| == 2 * n
  {}

  lemma ThunkLength(disp: nat, nops: nat, target: u32)
    requires disp <= 255
    ensures |Thunk(disp, nops, target)| == 10 + 2 * nops
  {
    NopsLength(nops);
  }

  lemma CodeLength(fn: nat, target: u32)
    ensures |ThunkCode(fn, target)| == 10 + 2 * Padding(fn) && 0 <= Padding(fn)
  {
    SlotAt(fn);
    ThunkLength(Disp(fn), Padding(fn), target);
  }

  class Generator {
    const boot: seq<byte>
    var patches: seq<Patch>

    ghost predicate Valid()
      reads this
    {
      |boot| == GAME_LEN && forall i | 0 <= i < |patches| :: Emitted(boot, patches[i])
    }

    constructor (boot: seq<byte>)
      requires |boot| == GAME_LEN
      ensures this.boot == boot && patches == [] && Valid()
    {
      this.boot, patches := boot, [];
    }

    /** rd: n bytes at addr, or nothing where Python's assertion fails. */
    function Rd(addr: u32, n: nat): (r: seq<byte>)
      requires |boot| == GAME_LEN
      ensures r != [] ==> 0 <= addr - GAME_LOAD_ADDR <= GAME_LEN - n
                          && |r| == n && r == boot[addr - GAME_LOAD_ADDR..addr - GAME_LOAD_ADDR + n]
    {
      if 0 <= addr - GAME_LOAD_ADDR <= GAME_LEN - n then boot[addr - GAME_LOAD_ADDR..addr - GAME_LOAD_ADDR + n] else []
    }

    /** pool and ptr: replace a 32-bit word that reads as expected. */
    method Word(addr: u32, wanted: u32, value: u32) returns (ok: bool)
      requires Valid()
      modifies `patches
      ensures Valid()
      ensures ok <==> 0 <= addr - GAME_LOAD_ADDR <= GAME_LEN - 4 && Le32(boot, addr - GAME_LOAD_ADDR) == wanted
      ensures patches == old(patches) + if ok then [Patch(addr, Pack32(wanted), Pack32(value))] else []
    {
      var was := Rd(addr, 4);
      if |was| != 4 || Le32(was, 0) != wanted {
        return false;
      }
      Repack32(was);
      patches := patches + [Patch(addr, was, Pack32(value))];
      ok := true;
    }

    /** insn16: replace a 16-bit instruction that reads as expected. */
    method Insn16(addr: u32, wanted: u16, value: u16) returns (ok: bool)
      requires Valid()
      modifies `patches
      ensures Valid()
      ensures ok <==> 0 <= addr - GAME_LOAD_ADDR <= GAME_LEN - 2 && Le16(boot, addr - GAME_LOAD_ADDR) == wanted
      ensures patches == old(patches) + if ok then [Patch(addr, Pack16(wanted), Pack16(value))] else []
    {
      var was := Rd(addr, 2);
      if |was| != 2 || Le16(was, 0) != wanted {
        return false;
      }
      Repack16(was);
      patches := patches + [Patch(addr, was, Pack16(value))];
      ok := true;
    }

    /** Replace a function's first bytes by code, if its first instruction reads as expected. */
    method Emit(fn: u32, wanted: u16, code: seq<byte>) returns (ok: bool)
      requires Valid() && |code| >= 2
      modifies `patches
      ensures Valid()
      ensures ok <==> 0 <= fn - GAME_LOAD_ADDR <= GAME_LEN - |code| && Le16(boot, fn - GAME_LOAD_ADDR) == wanted
      ensures ok ==> var was := boot[fn - GAME_LOAD_ADDR..fn - GAME_LOAD_ADDR + |code|];
                     patches == old(patches) + [Patch(fn, was, code)]
      ensures !ok ==> patches == old(patches)
    {
      var first := Rd(fn, 2);
      if |first| != 2 || Le16(first, 0) != wanted {
        return false;
      }
      var was := Rd(fn, |code|);
      if was == [] {
        return false;
      }
      patches := patches + [Patch(fn, was, code)];
      ok := true;
    }

    /** hook: put a thunk over a function whose first instruction reads as expected. */
    method Hook(fn: u32, wanted: u16, target: u32) returns (ok: bool)
      requires Valid()
      modifies `patches
      ensures Valid()
      ensures ok <==> && 0 <= fn - GAME_LOAD_ADDR <= GAME_LEN - |ThunkCode(fn, target)|
                      && Le16(boot, fn - GAME_LOAD_ADDR) == wanted
      ensures ok ==> var code := ThunkCode(fn, target);
                     var was := boot[fn - GAME_LOAD_ADDR..fn - GAME_LOAD_ADDR + |code|];
                     patches == old(patches) + [Patch(fn, was, code)]
      ensures !ok ==> patches == old(patches)
    {
      CodeLength(fn, target);
      var code := Assemble(fn, target);
      ok := Emit(fn, wanted, code);
    }
  }

  /** From the generator to the loader: whatever was emitted for a boot image, if the sites are disjoint,
      applies to that image, as if all at once, and can be taken back. */
  lemma GeneratedApplies(boot: seq<byte>, ps: seq<Patch>)
    requires (forall i | 0 <= i < |ps| :: Emitted(boot, ps[i])) && Disjoint(ps)
    ensures AllFit(ps, |boot|) && Apply(boot, ps).ok && Substituted(boot, ps, Apply(boot, ps).img)
    ensures AllFit(Swap(ps), |boot|) && Apply(Apply(boot, ps).img, Swap(ps)) == Applied(boot, true)
  {
    assert AllFit(ps, |boot|);
    DisjointApplies(boot, ps);
    SwapUndoes(boot, ps);
  }

  // ---- what a thunk does when the processor runs it ----

  /** pc, the registers, and the branch a delay slot is waiting for. */
  datatype Flow = Flow(pc: int, r: Regs, pending: Option<u32>) | Undefined

  /** The three encodings a thunk uses. */
  datatype Op = MovPc(n: nat, disp: nat) | Jmp(m: nat) | Nop | Unknown

  function Decode(op: u16): (r: Op)
    ensures r.MovPc? ==> r.n < 16
    ensures r.Jmp? ==> r.m < 16
  {
    if op == 0x0009 then Nop
    else if op / 0x1000 == 0xd then MovPc(op / 0x100 % 0x10, op % 0x100)
    else if op / 0x1000 == 0x4 && op % 0x100 == 0x2b then Jmp(op / 0x100 % 0x10)
    else Unknown
  }

  /** mov.l @(disp,PC),Rn is 0xdndd, jmp @Rn is 0x4n2b, nop is 0x0009. */
  lemma DecodeForms(n: nat, disp: byte)
    requires n < 16
    ensures Decode(0xd000 + 0x100 * n + disp) == MovPc(n, disp) && Decode(0x402b + 0x100 * n) == Jmp(n)
    ensures Decode(0x0009) == Nop
  {
    DivModUnique(0xd000 + 0x100 * n + disp, 0x1000, 0xd, 0x100 * n + disp);
    DivModUnique(0xd000 + 0x100 * n + disp, 0x100, 0xd0 + n, disp);
    DivModUnique(0x402b + 0x100 * n, 0x1000, 4, 0x100 * n + 0x2b);
    DivModUnique(0x402b + 0x100 * n, 0x100, 0x40 + n, 0x2b);
  }

  /** The effect of an instruction fetched at s.pc; next is where control goes after it. */
  function Execute(img: seq<byte>, s: Flow, op: Op, next: int): Flow
    requires s.Flow? && (op.MovPc? ==> op.n < 16) && (op.Jmp? ==> op.m < 16)
  {
    match op
    case Nop => Flow(next, s.r, None)
    case MovPc(n, disp) =>
      var at := disp * 4 + s.pc / 4 * 4 + 4 - GAME_LOAD_ADDR;
      if s.pending.None? && 0 <= at <= |img| - 4 then Flow(next, s.r[n := Le32(img, at)], None) else Undefined
    case Jmp(m) => if s.pending.None? then Flow(next, s.r, Some(s.r[m])) else Undefined
    case Unknown => Undefined
  }

  /** One SH-4 instruction from the image loaded at GAME_LOAD_ADDR. An instruction in a delay slot hands over
      to the pending branch. */
  function Step(img: seq<byte>, s: Flow): Flow {
    if s.Undefined? || s.pc % 2 != 0 || !(0 <= s.pc - GAME_LOAD_ADDR <= |img| - 2) then Undefined
    else Execute(img, s, Decode(Le16(img, s.pc - GAME_LOAD_ADDR)),
                 if s.pending.Some? then s.pending.value else s.pc + 2)
  }

  function Steps(img: seq<byte>, s: Flow, n: nat): Flow
    decreases n
  {
    if n == 0 then s else Steps(img, Step(img, s), n - 1)
  }

  lemma Parity(n: nat)
    ensures n % 2 == 0 <==> n % 4 == 0 || n % 4 == 2
  {}

  /** The thunk's length, and exactly when its target lands in the slot the load reads: for every even
      address and no odd one. */
  lemma ThunkShape(fn: nat, target: u32)
    ensures |ThunkCode(fn, target)| == if fn % 4 == 0 || fn % 4 == 3 then 12 else 10
    ensures fn + |ThunkCode(fn, target)| - 4 == Slot(fn) <==> fn % 2 == 0
  {
    CodeLength(fn, target);
    SlotAt(fn);
    Parity(fn);
  }

  /** One decoded opcode at a time: the load at pc reads the pooled word at slot, the jump waits for its
      delay slot, and the nop in it hands over. */
  lemma RunMov(img: seq<byte>, pc: nat, slot: nat, r: Regs)
    requires pc % 2 == 0 && slot == pc / 4 * 4 + 8 && 0 <= pc - GAME_LOAD_ADDR && slot - GAME_LOAD_ADDR <= |img| - 4
    requires Le16(img, pc - GAME_LOAD_ADDR) == 0xd001
    ensures Step(img, Flow(pc, r, None)) == Flow(pc + 2, r[0 := Le32(img, slot - GAME_LOAD_ADDR)], None)
  {
    assert Decode(0xd001) == MovPc(0, 1);
  }

  lemma RunJmp(img: seq<byte>, pc: nat, r: Regs)
    requires pc % 2 == 0 && 0 <= pc - GAME_LOAD_ADDR <= |img| - 2 && Le16(img, pc - GAME_LOAD_ADDR) == 0x402b
    ensures Step(img, Flow(pc, r, None)) == Flow(pc + 2, r, Some(r[0]))
  {
    assert Decode(0x402b) == Jmp(0);
  }

  lemma RunNop(img: seq<byte>, pc: nat, r: Regs, target: u32)
    requires pc % 2 == 0 && 0 <= pc - GAME_LOAD_ADDR <= |img| - 2 && Le16(img, pc - GAME_LOAD_ADDR) == 0x0009
    ensures Step(img, Flow(pc, r, Some(target))) == Flow(target, r, None)
  {
    assert Decode(0x0009) == Nop;
  }

  /** Reading back the three instructions and the pooled word. */
  lemma ThunkReads(code: seq<byte>, nops: nat, target: u32)
    requires nops <= 1 && code == Thunk(1, nops, target)
    ensures |code| == 10 + 2 * nops
    ensures Le16(code, 0) == 0xd001 && Le16(code, 2) == 0x402b && Le16(code, 4) == 0x0009
    ensures Le32(code, |code| - 4) == target && (nops == 1 ==> Le16(code, 6) == 0x0009)
  {
    ThunkLength(1, nops, target);
    var n := |code|;
    if nops == 1 {
      assert Nops(1) == Pack16(0x0009) + Nops(0);
      assert code[6..8] == Pack16(0x0009);
      Unpack16(code, 6, 0x0009);
    }
    assert code[0..2] == Pack16(0xd001) && code[2..4] == Pack16(0x402b) && code[4..6] == Pack16(0x0009);
    assert code[n - 4..n] == Pack32(target);
    Unpack16(code, 0, 0xd001);
    Unpack16(code, 2, 0x402b);
    Unpack16(code, 4, 0x0009);
    Unpack32(code, n - 4, target);
  }

  /** Three steps through named states. */
  lemma Chain(img: seq<byte>, s0: Flow, s1: Flow, s2: Flow, s3: Flow)
    requires Step(img, s0) == s1 && Step(img, s1) == s2 && Step(img, s2) == s3
    ensures Steps(img, s0, 3) == s3
  {
    assert Steps(img, s2, 1) == Steps(img, s3, 0);
    assert Steps(img, s1, 2) == Steps(img, s2, 1);
  }

  lemma ReadWithin(img: seq<byte>, at: nat, code: seq<byte>, i: nat)
    requires at + |code| <= |img| && img[at..at + |code|] == code
    ensures i + 2 <= |code| ==> Le16(img, at + i) == Le16(code, i)
    ensures i + 4 <= |code| ==> Le32(img, at + i) == Le32(code, i)
  {
    assert forall k | 0 <= k < |code| :: code[k] == img[at + k];
  }

  predicate Loaded(img: seq<byte>, fn: nat, target: u32) {
    && 0 <= fn - GAME_LOAD_ADDR <= |img| - |ThunkCode(fn, target)|
    && img[fn - GAME_LOAD_ADDR..fn - GAME_LOAD_ADDR + |ThunkCode(fn, target)|] == ThunkCode(fn, target)
  }

  lemma ThunkDecoded(img: seq<byte>, fn: nat, target: u32)
    requires fn % 2 == 0 && Loaded(img, fn, target)
    ensures |ThunkCode(fn, target)| == if fn % 4 == 0 then 12 else 10
    ensures var at := fn - GAME_LOAD_ADDR;
            && Le16(img, at) == 0xd001 && Le16(img, at + 2) == 0x402b && Le16(img, at + 4) == 0x0009
            && fn / 4 * 4 + 12 - GAME_LOAD_ADDR <= |img|
            && Le32(img, fn / 4 * 4 + 8 - GAME_LOAD_ADDR) == target
  {
    SlotAt(fn);
    var at, code := fn - GAME_LOAD_ADDR, ThunkCode(fn, target);
    ThunkReads(code, if fn % 4 == 0 then 1 else 0, target);
    ReadWithin(img, at, code, 0);
    ReadWithin(img, at, code, 2);
    ReadWithin(img, at, code, 4);
    ReadWithin(img, at, code, |code| - 4);
    assert fn / 4 * 4 + 8 == fn + |code| - 4;
  }

  lemma DecodedRuns(img: seq<byte>, p0: nat, p1: nat, p2: nat, slot: nat, target: u32, r: Regs)
    requires p0 % 2 == p1 % 2 == p2 % 2 == 0 && p1 == p0 + 2 && p2 == p1 + 2 && 0 <= p0 - GAME_LOAD_ADDR
    requires slot == p0 / 4 * 4 + 8 && slot - GAME_LOAD_ADDR <= |img| - 4 && p2 - GAME_LOAD_ADDR <= |img| - 2
    requires Le16(img, p0 - GAME_LOAD_ADDR) == 0xd001 && Le16(img, p1 - GAME_LOAD_ADDR) == 0x402b
    requires Le16(img, p2 - GAME_LOAD_ADDR) == 0x0009 && Le32(img, slot - GAME_LOAD_ADDR) == target
    ensures Steps(img, Flow(p0, r, None), 3) == Flow(target, r[0 := target], None)
  {
    var r' := r[0 := target];
    RunMov(img, p0, slot, r);
    RunJmp(img, p1, r');
    RunNop(img, p2, r', target);
    Chain(img, Flow(p0, r, None), Flow(p1, r', None), Flow(p2, r', Some(target)), Flow(target, r', None));
  }

  lemma EvenOn(n: nat)
    requires n % 2 == 0
    ensures (n + 2) % 2 == 0 && (n + 4) % 2 == 0
  {}

  /** For every even address, under both word alignments: wherever the thunk's bytes sit in the image,
      running three instructions from fn lands on the target with only r0 changed. */
  lemma ThunkTransfers(img: seq<byte>, fn: nat, target: u32, r: Regs)
    requires fn % 2 == 0 && Loaded(img, fn, target)
    ensures |ThunkCode(fn, target)| == if fn % 4 == 0 then 12 else 10
    ensures Steps(img, Flow(fn, r, None), 3) == Flow(target, r[0 := target], None)
  {
    ThunkDecoded(img, fn, target);
    EvenOn(fn);
    DecodedRuns(img, fn, fn + 2, fn + 4, fn / 4 * 4 + 8, target, r);
  }

  lemma SubstitutedSite(img: seq<byte>, ps: seq<Patch>, r: seq<byte>, i: nat)
    requires AllFit(ps, |img|) && i < |ps| && Substituted(img, ps, r)
    ensures r[ps[i].Lo()..ps[i].Hi()] == ps[i].now
  {
    var p := ps[i];
    forall j | 0 <= j < |p.now| ensures r[p.Lo()..p.Hi()][j] == p.now[j] {
      assert p.Covers(p.Lo() + j);
    }
  }

  lemma SiteHolds(img: seq<byte>, ps: seq<Patch>, i: nat)
    requires AllFit(ps, |img|) && AllMatch(img, ps) && Disjoint(ps) && i < |ps|
    ensures Apply(img, ps).img[ps[i].Lo()..ps[i].Hi()] == ps[i].now
  {
    DisjointApplies(img, ps);
    SubstitutedSite(img, ps, Apply(img, ps).img, i);
  }

  /** A hook in an applied disjoint table really is live: in the loaded image it transfers control. */
  lemma HookIsLive(img: seq<byte>, ps: seq<Patch>, i: nat, target: u32, r: Regs)
    requires AllFit(ps, |img|) && AllMatch(img, ps) && Disjoint(ps)
    requires i < |ps| && ps[i].addr % 2 == 0 && ps[i].now == ThunkCode(ps[i].addr, target)
    ensures var patched := Apply(img, ps).img;
            Steps(patched, Flow(ps[i].addr, r, None), 3) == Flow(target, r[0 := target], None)
  {
    var patched, p := Apply(img, ps).img, ps[i];
    assert Loaded(patched, p.addr, target) by { SiteHolds(img, ps, i); }
    ThunkTransfers(patched, p.addr, target, r);
  }
}
