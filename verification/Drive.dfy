/** The GD-ROM driver of the shim: a send / pump / check loop with recovery and retry over a drive that
    may refuse, stall, fail, lie about progress and scribble over the buffer it was given. */
module Drive {
  import opened Options
  import opened Words
  import opened CacheMem
  import Bits

  const CMD_PIOREAD := 16
  const CMD_DMAREAD := 17
  const CMD_INIT := 24
  const COMPLETED := 2
  const NOT_FOUND := 0
  const FAILED := -1
  const ATTEMPTS := 4
  const EARLY := 1_000_000          // polls during which NOT_FOUND is tolerated
  const POLL_MAX := 100_000_001     // CHECKs before the hang detector fires
  const REFUSED: u32 := 0xcafe_0002
  const LOST: u32 := 0xcafe_0001

  /** How a read reaches memory: BIOS stores through the cached or the uncached alias, or G1-DMA. */
  datatype Route = P1 | P2 | G1

  datatype Transfer = Transfer(route: Route, fad: u32, n: u32, buf: u32)
  {
    function End(): nat { buf + 2048 * n }
    function Cmd(): int { if route.G1? then CMD_DMAREAD else CMD_PIOREAD }
    /** Cached and DMA buffers start on a line; uncached ones may not. */
    predicate Placed() { End() <= 0x2000_0000 && (!route.P2? ==> buf % 32 == 0) }
  }

  datatype Poll = Poll(status: int, word: u32)

  /** One operation the drive or the cache saw. */
  datatype Event =
    | Ocbi(line: int)
    | Send(cmd: int, fad: nat, n: nat, buf: nat, req: int)
    | Exec
    | Check(req: int, poll: Poll)
    | SysInit
    | SectorMode

  /** The rebuild between attempts: gdGdcInitSystem, then a polled drive re-init. mode tells whether the
      sector mode was set again afterwards, as a CDI build does. */
  datatype Recovery = Recovery(req: int, polls: seq<Poll>, mode: bool)

  datatype Attempt = Attempt(recovery: Option<Recovery>, req: int, polls: seq<Poll>)

  datatype Outcome = Done | GaveUp | Died(code: u32, a: u32, b: u32)

  function PollTrace(req: int, polls: seq<Poll>): seq<Event> {
    if polls == [] then []
    else PollTrace(req, polls[..|polls| - 1]) + [Exec, Check(req, polls[|polls| - 1])]
  }

  function InitTrace(r: Recovery): seq<Event> {
    [Send(24, 0, 0, 0, r.req)] + PollTrace(r.req, r.polls)
  }

  function ModeTrace(mode: bool): seq<Event> { if mode then [SectorMode] else [] }

  function RecoveryTrace(r: Option<Recovery>): seq<Event> {
    if r.None? then [] else [SysInit] + InitTrace(r.value) + ModeTrace(r.value.mode)
  }

  function OcbiTrace(first: int, k: nat): seq<Event> {
    seq(k, i => Ocbi(first + i))
  }

  /** The lines from the one phys falls in up to phys + len, and those before a multiple of 32. */
  function LineCount(phys: nat, len: nat): nat { (phys + len + 31) / 32 - phys / 32 }

  predicate Passed(l: int, phys: nat, a: nat) { phys / 32 <= l < a / 32 }

  function SendTrace(t: Transfer, req: int, polls: seq<Poll>): seq<Event> {
    [Send(if t.route.G1? then 17 else 16, t.fad, t.n, t.buf, req)] + PollTrace(req, polls)
  }

  /** A DMA attempt first invalidates exactly the lines of its buffer, each once. */
  function TryTrace(t: Transfer, req: int, polls: seq<Poll>): seq<Event> {
    (if t.route.G1? then OcbiTrace(t.buf / 32, 64 * t.n) else []) + SendTrace(t, req, polls)
  }

  function AttemptTrace(t: Transfer, a: Attempt): seq<Event> {
    RecoveryTrace(a.recovery) + TryTrace(t, a.req, a.polls)
  }

  function Trace(t: Transfer, attempts: seq<Attempt>): seq<Event> {
    if attempts == [] then []
    else Trace(t, attempts[..|attempts| - 1]) + AttemptTrace(t, attempts[|attempts| - 1])
  }

  /** A CHECK verdict at poll number guard after which the loop goes on. */
  predicate Pending(p: Poll, guard: nat) {
    p.status != COMPLETED && p.status > FAILED && !(p.status == NOT_FOUND && guard > EARLY)
  }

  /** Every verdict but the last kept the loop going, and the bound was respected. */
  predicate Polled(polls: seq<Poll>) {
    |polls| <= POLL_MAX && forall i | 0 <= i < |polls| - 1 :: Pending(polls[i], i)
  }

  predicate Ended(polls: seq<Poll>) {
    polls != [] && Polled(polls) && !Pending(polls[|polls| - 1], |polls| - 1)
  }

  predicate Hung(polls: seq<Poll>) {
    |polls| == POLL_MAX && Polled(polls) && Pending(polls[|polls| - 1], |polls| - 1)
  }

  predicate Completed(a: Attempt) {
    a.req > 0 && Ended(a.polls) && a.polls[|a.polls| - 1].status == COMPLETED
  }

  predicate Failed(a: Attempt) {
    if a.req <= 0 then a.polls == []
    else Ended(a.polls) && a.polls[|a.polls| - 1].status != COMPLETED
  }

  /** What gd_last_err records for a failed attempt. */
  function Verdict(a: Attempt): u32
    requires Failed(a)
  {
    if a.req <= 0 then REFUSED
    else if a.polls[|a.polls| - 1].status <= FAILED then a.polls[|a.polls| - 1].word
    else LOST
  }

  predicate Recovered(r: Recovery) {
    if r.req <= 0 then r.polls == [] else Ended(r.polls)
  }

  /** Attempt number i was preceded by a recovery, unless it was the first. */
  predicate Prepared(i: nat, a: Attempt) {
    if i == 0 then a.recovery.None? else a.recovery.Some? && Recovered(a.recovery.value)
  }

  ghost predicate Retrying(attempts: seq<Attempt>) {
    forall i | 0 <= i < |attempts| :: Prepared(i, attempts[i]) && Failed(attempts[i])
  }

  /** gd_last_err after a run of failed attempts. */
  function ErrAfter(attempts: seq<Attempt>, err0: u32): u32
    requires Retrying(attempts)
  {
    if attempts == [] then err0 else Verdict(attempts[|attempts| - 1])
  }

  /** The history a read may end with, by outcome. fatal is the recovery that hung, if one did. */
  ghost predicate Verdicts(t: Transfer, attempts: seq<Attempt>, fatal: Option<Recovery>, out: Outcome,
                           err0: u32, err: u32)
  {
    var k := |attempts| - 1;
    match out
    case Done => fatal.None? && 0 <= k < ATTEMPTS && Retrying(attempts[..k]) && Prepared(k, attempts[k])
                 && Completed(attempts[k]) && err == ErrAfter(attempts[..k], err0)
    case GaveUp => fatal.None? && k + 1 == ATTEMPTS && Retrying(attempts) && err == ErrAfter(attempts, err0)
    case Died(code, a, b) =>
      && code == 5
      && match fatal
         case None => a == t.fad && b == t.n && 0 <= k < ATTEMPTS && Retrying(attempts[..k])
                      && Prepared(k, attempts[k]) && attempts[k].req > 0 && Hung(attempts[k].polls)
         case Some(r) => a == 0xdead_1217 && b == 0 && 0 <= k < ATTEMPTS - 1 && Retrying(attempts)
                         && r.req > 0 && Hung(r.polls)
  }

  /** The loop saw status -1 or less, or, past the first million polls, 0. */
  predicate LooksFailed(polls: seq<Poll>) {
    polls != [] && (polls[|polls| - 1].status <= -1 || (polls[|polls| - 1].status == 0 && |polls| > 1_000_001))
  }

  predicate Busy(polls: seq<Poll>, i: nat)
    requires i < |polls|
  {
    polls[i].status >= 0 && polls[i].status != 2 && (polls[i].status == 0 ==> i <= 1_000_000)
  }

  /** Every poll before the last saw neither 2 nor a failure. */
  ghost predicate StillBusy(polls: seq<Poll>) {
    forall i | 0 <= i < |polls| - 1 :: Busy(polls, i)
  }

  /** The word an attempt leaves behind: refused, the drive's own word, or lost. */
  function ErrorWord(a: Attempt): u32 {
    if a.polls == [] then 0xcafe_0002
    else if a.polls[|a.polls| - 1].status < 0 then a.polls[|a.polls| - 1].word else 0xcafe_0001
  }

  lemma PolledMeans(polls: seq<Poll>)
    requires Polled(polls)
    ensures |polls| <= 100_000_001 && StillBusy(polls)
  {
    forall i | 0 <= i < |polls| - 1 ensures Busy(polls, i) { assert Pending(polls[i], i); }
  }

  lemma FailedMeans(a: Attempt)
    requires Failed(a)
    ensures if a.req <= 0 then a.polls == [] else LooksFailed(a.polls) && StillBusy(a.polls)
    ensures Verdict(a) == ErrorWord(a)
  {
    if a.req > 0 { PolledMeans(a.polls); }
  }

  /** The drive re-init was polled to an end. */
  ghost predicate RecoveryEnds(polls: seq<Poll>) {
    polls != [] && StillBusy(polls) && (LooksFailed(polls) || polls[|polls| - 1].status == 2)
  }

  ghost predicate Recovers(i: nat, a: Attempt) {
    if i == 0 then a.recovery.None?
    else a.recovery.Some? && (a.recovery.value.req <= 0 || RecoveryEnds(a.recovery.value.polls))
  }

  lemma PreparedMeans(i: nat, a: Attempt)
    requires Prepared(i, a)
    ensures Recovers(i, a)
  {
    if i > 0 && a.recovery.value.req > 0 { PolledMeans(a.recovery.value.polls); }
  }

  /** Attempt number i was refused or failed, after a recovery unless it was the first. */
  ghost predicate FailsAt(attempts: seq<Attempt>, i: nat)
    requires i < |attempts|
  {
    var a := attempts[i];
    Recovers(i, a) && if a.req <= 0 then a.polls == [] else LooksFailed(a.polls) && StillBusy(a.polls)
  }

  ghost predicate FailsTo(attempts: seq<Attempt>, k: nat) {
    k <= |attempts| && forall i: nat | i < k :: FailsAt(attempts, i)
  }

  lemma RetryingMeans(attempts: seq<Attempt>, k: nat)
    requires k <= |attempts| && Retrying(attempts[..k])
    ensures FailsTo(attempts, k)
  {
    forall i: nat | i < k ensures FailsAt(attempts, i) {
      assert Prepared(i, attempts[..k][i]) && Failed(attempts[..k][i]);
      PreparedMeans(i, attempts[i]);
      FailedMeans(attempts[i]);
    }
  }

  function ErrorAfter(attempts: seq<Attempt>, k: nat, err0: u32): u32
    requires k <= |attempts|
  {
    if k == 0 then err0 else ErrorWord(attempts[k - 1])
  }

  /** A read that is done: after at most three attempts that failed, one that was accepted and polled until
      it showed 2. */
  lemma DoneMeans(t: Transfer, attempts: seq<Attempt>, fatal: Option<Recovery>, err0: u32, err: u32)
    requires Verdicts(t, attempts, fatal, Done, err0, err)
    ensures var k := |attempts| - 1;
            && 0 <= k < 4 && FailsTo(attempts, k) && err == ErrorAfter(attempts, k, err0)
            && var polls := attempts[k].polls;
               Recovers(k, attempts[k]) && attempts[k].req > 0 && StillBusy(polls)
               && polls != [] && polls[|polls| - 1].status == 2
  {
    var k := |attempts| - 1;
    RetryingMeans(attempts, k);
    PreparedMeans(k, attempts[k]);
    PolledMeans(attempts[k].polls);
    if k > 0 { FailedMeans(attempts[..k][k - 1]); }
  }

  /** One given up: four attempts, all failed, the last one's word left behind. */
  lemma GaveUpMeans(t: Transfer, attempts: seq<Attempt>, fatal: Option<Recovery>, err0: u32, err: u32)
    requires Verdicts(t, attempts, fatal, GaveUp, err0, err)
    ensures |attempts| == 4 && FailsTo(attempts, 4) && err == ErrorAfter(attempts, 4, err0)
  {
    assert attempts[..4] == attempts;
    RetryingMeans(attempts, 4);
    FailedMeans(attempts[3]);
  }

  ghost predicate Hangs(polls: seq<Poll>) {
    |polls| == 100_000_001 && StillBusy(polls)
    && polls[100_000_000].status > 0 && polls[100_000_000].status != 2
  }

  /** One that died: of a hundred million and one polls that never ended, of the attempt or of the recovery
      before the next. */
  lemma DiedMeans(t: Transfer, attempts: seq<Attempt>, fatal: Option<Recovery>, code: u32, a: u32, b: u32, err0: u32,
                  err: u32)
    requires Verdicts(t, attempts, fatal, Died(code, a, b), err0, err)
    ensures code == 5 && 0 < |attempts| <= 4
    ensures fatal.None? ==> var k := |attempts| - 1;
              a == t.fad && b == t.n && FailsTo(attempts, k) && Recovers(k, attempts[k]) && attempts[k].req > 0
              && Hangs(attempts[k].polls)
    ensures fatal.Some? ==>
              a == 0xdead_1217 && b == 0 && |attempts| < 4 && FailsTo(attempts, |attempts|) && fatal.value.req > 0
              && Hangs(fatal.value.polls)
  {
    var k := |attempts| - 1;
    if fatal.None? {
      RetryingMeans(attempts, k);
      PreparedMeans(k, attempts[k]);
      PolledMeans(attempts[k].polls);
    } else {
      assert attempts[..|attempts|] == attempts;
      RetryingMeans(attempts, |attempts|);
      PolledMeans(fatal.value.polls);
    }
  }

  function Count(ev: seq<Event>, f: Event -> bool): nat {
    if ev == [] then 0 else Count(ev[..|ev| - 1], f) + (if f(ev[|ev| - 1]) then 1 else 0)
  }

  lemma {:induction false} CountPlus(a: seq<Event>, b: seq<Event>, f: Event -> bool)
    ensures Count(a + b, f) == Count(a, f) + Count(b, f)
    decreases |b|
  {
    if b == [] {
      assert a + b == a;
    } else {
      assert (a + b)[..|a + b| - 1] == a + b[..|b| - 1];
      CountPlus(a, b[..|b| - 1], f);
    }
  }

  /** A polling loop sends nothing, re-initialises nothing and touches no cache line. */
  lemma {:induction false} PollCount(req: int, polls: seq<Poll>, f: Event -> bool)
    requires forall e :: f(e) ==> !e.Exec? && !e.Check?
    ensures Count(PollTrace(req, polls), f) == 0
  {
    if polls == [] {
    } else {
      PollCount(req, polls[..|polls| - 1], f);
      var last := [Exec, Check(req, polls[|polls| - 1])];
      CountPlus(PollTrace(req, polls[..|polls| - 1]), last, f);
      assert !f(last[0]) && !f(last[1]);
      assert last[..1] == [Exec] && [Exec][..0] == [] && Count([Exec], f) == 0;
    }
  }

  lemma {:induction false} OcbiCount(first: int, k: nat, f: Event -> bool, l: int)
    requires forall e :: f(e) ==> !e.Ocbi? || e.line == l
    ensures Count(OcbiTrace(first, k), f) == if f(Ocbi(l)) && first <= l < first + k then 1 else 0
  {
    if k == 0 {
    } else {
      OcbiCount(first, k - 1, f, l);
      assert OcbiTrace(first, k)[..k - 1] == OcbiTrace(first, k - 1);
    }
  }

  function IsRead(t: Transfer): Event -> bool { (e: Event) => e.Send? && e.cmd == t.Cmd() }
  function IsDrop(l: int): Event -> bool { (e: Event) => e == Ocbi(l) }

  lemma SendTraffic(t: Transfer, req: int, polls: seq<Poll>, f: Event -> bool)
    requires forall e :: f(e) ==> !e.Exec? && !e.Check?
    ensures Count(SendTrace(t, req, polls), f) == if f(Send(t.Cmd(), t.fad, t.n, t.buf, req)) then 1 else 0
  {
    var send := [Send(t.Cmd(), t.fad, t.n, t.buf, req)];
    CountPlus(send, PollTrace(req, polls), f);
    PollCount(req, polls, f);
    assert send[..0] == [];
  }

  lemma {:induction false} PollsOnly(req: int, polls: seq<Poll>, k: nat)
    requires k < |PollTrace(req, polls)|
    ensures PollTrace(req, polls)[k].Exec? || PollTrace(req, polls)[k].Check?
  {
    var n := |polls| - 1;
    if k < |PollTrace(req, polls[..n])| { PollsOnly(req, polls[..n], k); }
  }

  predicate ReadSent(e: Event) { e.Send? && (e.cmd == 16 || e.cmd == 17) }

  /** What belongs before a read is sent: rebuilding the drive's state, and dropping cache lines. */
  predicate Preparing(e: Event) { e.SysInit? || e.SectorMode? || e.Ocbi? || (e.Send? && e.cmd == 24) }

  lemma RecoveryPrepares(r: Option<Recovery>, k: nat)
    requires k < |RecoveryTrace(r)|
    ensures !ReadSent(RecoveryTrace(r)[k]) && (k == 0 ==> RecoveryTrace(r)[k].SysInit?)
    ensures k == 1 ==> RecoveryTrace(r)[k] == Send(24, 0, 0, 0, r.value.req)
    ensures r.value.mode && k == |RecoveryTrace(r)| - 1 ==> RecoveryTrace(r)[k].SectorMode?
  {
    if 2 <= k < 2 + |PollTrace(r.value.req, r.value.polls)| { PollsOnly(r.value.req, r.value.polls, k - 2); }
  }

  /** In every attempt the recovery and the invalidation are over when the one read is sent. */
  lemma AttemptOrder(t: Transfer, a: Attempt, i: nat, j: nat)
    requires i < |AttemptTrace(t, a)| && j < |AttemptTrace(t, a)|
    requires ReadSent(AttemptTrace(t, a)[i]) && Preparing(AttemptTrace(t, a)[j])
    ensures j < i
  {
    var trace, rec := AttemptTrace(t, a), RecoveryTrace(a.recovery);
    var drops := if t.route.G1? then OcbiTrace(t.buf / 32, 64 * t.n) else [];
    var at := |rec| + |drops|;
    assert trace == rec + (drops + SendTrace(t, a.req, a.polls));
    if i < |rec| { RecoveryPrepares(a.recovery, i); }
    if i > at { PollsOnly(a.req, a.polls, i - at - 1); }
    if j > at { PollsOnly(a.req, a.polls, j - at - 1); }
  }

  /** A recovery sends no read and touches no cache line. */
  lemma RecoveryTraffic(recovery: Option<Recovery>, f: Event -> bool)
    requires forall e :: f(e) ==> e.Ocbi? || (e.Send? && e.cmd != CMD_INIT)
    ensures Count(RecoveryTrace(recovery), f) == 0
  {
    if r :| recovery == Some(r) {
      var init := [Send(CMD_INIT, 0, 0, 0, r.req)];
      CountPlus([SysInit] + InitTrace(r), ModeTrace(r.mode), f);
      CountPlus([SysInit], InitTrace(r), f);
      CountPlus(init, PollTrace(r.req, r.polls), f);
      PollCount(r.req, r.polls, f);
      assert [SysInit][..0] == [] && init[..0] == [] && [SectorMode][..0] == [];
    }
  }

  lemma AttemptTraffic(t: Transfer, a: Attempt, l: int, f: Event -> bool)
    requires forall e :: f(e) ==> e == Ocbi(l) || (e.Send? && e.cmd == t.Cmd())
    ensures Count(AttemptTrace(t, a), f) ==
            (if f(Send(t.Cmd(), t.fad, t.n, t.buf, a.req)) then 1 else 0)
            + if f(Ocbi(l)) && t.route.G1? && t.buf / 32 <= l < t.buf / 32 + 64 * t.n then 1 else 0
  {
    CountPlus(RecoveryTrace(a.recovery), TryTrace(t, a.req, a.polls), f);
    RecoveryTraffic(a.recovery, f);
    var drops := if t.route.G1? then OcbiTrace(t.buf / 32, 64 * t.n) else [];
    CountPlus(drops, SendTrace(t, a.req, a.polls), f);
    SendTraffic(t, a.req, a.polls, f);
    OcbiCount(t.buf / 32, 64 * t.n, f, l);
  }

  lemma {:induction false} ReadTraffic(t: Transfer, attempts: seq<Attempt>)
    requires t.Placed()
    ensures Count(Trace(t, attempts), IsRead(t)) == |attempts|
  {
    if attempts == [] {
    } else {
      var before, a := attempts[..|attempts| - 1], attempts[|attempts| - 1];
      ReadTraffic(t, before);
      AttemptTraffic(t, a, 0, IsRead(t));
      CountPlus(Trace(t, before), AttemptTrace(t, a), IsRead(t));
    }
  }

  lemma {:induction false} DropTraffic(t: Transfer, attempts: seq<Attempt>, l: int)
    requires t.Placed()
    ensures Count(Trace(t, attempts), IsDrop(l))
         == if t.route.G1? && Touches(l, t.buf, t.End()) then |attempts| else 0
  {
    if attempts == [] {
    } else {
      var before, a := attempts[..|attempts| - 1], attempts[|attempts| - 1];
      DropTraffic(t, before, l);
      AttemptTraffic(t, a, l, IsDrop(l));
      CountPlus(Trace(t, before), AttemptTrace(t, a), IsDrop(l));
    }
  }

  /** The traffic of n attempts on t, whatever the drive answers: exactly n reads sent, and each cache
      line of a DMA buffer, and no other line, invalidated exactly n times. */
  lemma Traffic(t: Transfer, attempts: seq<Attempt>, l: int)
    requires t.Placed()
    ensures Count(Trace(t, attempts), IsRead(t)) == |attempts|
    ensures Count(Trace(t, attempts), IsDrop(l))
         == if t.route.G1? && Touches(l, t.buf, t.End()) then |attempts| else 0
  {
    ReadTraffic(t, attempts);
    DropTraffic(t, attempts, l);
  }

  predicate WithinBounds(i: nat, a: Attempt) { Prepared(i, a) && |a.polls| <= POLL_MAX }

  lemma FailedBounds(attempts: seq<Attempt>, i: nat)
    requires Retrying(attempts) && i < |attempts|
    ensures WithinBounds(i, attempts[i])
  {}

  lemma AttemptBounds(t: Transfer, attempts: seq<Attempt>, fatal: Option<Recovery>, out: Outcome, err0: u32, err: u32,
                      i: nat)
    requires Verdicts(t, attempts, fatal, out, err0, err) && i < |attempts|
    ensures |attempts| <= ATTEMPTS && WithinBounds(i, attempts[i])
  {
    var k := |attempts| - 1;
    match out
    case GaveUp => FailedBounds(attempts, i);
    case Done =>
      if i < k { FailedBounds(attempts[..k], i); }
    case Died(_, _, _) =>
      if fatal.Some? { FailedBounds(attempts, i); }
      else if i < k { FailedBounds(attempts[..k], i); }
  }

  /** Whatever the drive does: at most four reads are sent, each retry comes after a recovery that ended,
      and no attempt polls past the hang detector. */
  lemma ReadIsBounded(t: Transfer, attempts: seq<Attempt>, fatal: Option<Recovery>, out: Outcome, err0: u32, err: u32)
    requires t.Placed() && Verdicts(t, attempts, fatal, out, err0, err)
    ensures Count(Trace(t, attempts), IsRead(t)) <= 4
    ensures forall i | 0 <= i < |attempts| :: WithinBounds(i, attempts[i])
  {
    Traffic(t, attempts, 0);
    if attempts != [] { AttemptBounds(t, attempts, fatal, out, err0, err, 0); }
    forall i | 0 <= i < |attempts| ensures WithinBounds(i, attempts[i]) {
      AttemptBounds(t, attempts, fatal, out, err0, err, i);
    }
  }

  /** A byte of RAM the transfer writes behind the cache: a settled line stays settled, and a dirty one
      keeps its copy until it is written back. */
  predicate StaysAt(m: Mem, m': Mem, a: int) {
    if m.Settled(a) then m'.Settled(a) else m'.Settled(a) || m'.copy(a) == m.copy(a)
  }

  /** A line that is absent stays so unless it is fetched, and the history of fetches only grows. */
  predicate Watched(m: Mem, m': Mem, l: int) {
    (m.fetched(l) ==> m'.fetched(l)) && (m.line(l).Absent? && !m'.fetched(l) ==> m'.line(l).Absent?)
  }

  /** What any amount of activity during t may do to memory, from m to m'. */
  ghost predicate Worked(m: Mem, m': Mem, t: Transfer) {
    && Kept(m, m', t.buf, t.End())
    && (!t.route.P1? ==> forall a | In(a, t.buf, t.End()) && m.Ours(a) :: StaysAt(m, m', a))
    && (!t.route.P1? ==> forall l | Touches(l, t.buf, t.End()) && !m.bios(l) :: Watched(m, m', l))
  }

  /** Byte i of the transfer is where its route puts it, starting from memory m: in the cached view, on top
      of whatever dirty line was there, or in RAM with no write-back outstanding. */
  predicate DeliveredAt(disc: int -> byte, m: Mem, m': Mem, t: Transfer, i: nat) {
    var a := t.buf + i;
    var want := disc(2048 * t.fad + i);
    match t.route
    case P1 => m'.View(a) == want && !m'.Stale(a)
    case P2 => LandedAt(m, m', a, want)
    case G1 => m'.Settled(a) && m'.ram(a) == want
  }

  ghost predicate Delivered(disc: int -> byte, m: Mem, m': Mem, t: Transfer) {
    forall i | 0 <= i < 2048 * t.n && m.Ours(t.buf + i) :: DeliveredAt(disc, m, m', t, i)
  }

  /** Bytes arriving at offset p of the buffer by the transfer's route. */
  function Put(m: Mem, t: Transfer, p: nat, data: seq<byte>): Mem {
    if t.route.P1? then WriteCached(m, t.buf + p, data) else WriteRam(m, t.buf + p, data)
  }

  lemma CachedPutKeeps(m: Mem, t: Transfer, p: nat, data: seq<byte>)
    requires t.Placed() && t.route.P1? && p + |data| <= 2048 * t.n
    ensures Kept(m, WriteCached(m, t.buf + p, data), t.buf, t.End())
  {
    InnerWriteKeeps(m, t.buf, t.End(), t.buf + p, data);
  }

  lemma PutWorks(m: Mem, t: Transfer, p: nat, data: seq<byte>)
    requires t.Placed() && p + |data| <= 2048 * t.n
    ensures Worked(m, Put(m, t, p, data), t)
  {
    if t.route.P1? {
      CachedPutKeeps(m, t, p, data);
    } else {
      assert Put(m, t, p, data) == WriteRam(m, t.buf + p, data);
    }
  }

  lemma WorkedTrans(m0: Mem, m1: Mem, m2: Mem, t: Transfer)
    requires Worked(m0, m1, t) && Worked(m1, m2, t)
    ensures Worked(m0, m2, t)
  {
    KeptTrans(m0, m1, m2, t.buf, t.End());
    if !t.route.P1? {
      forall a | In(a, t.buf, t.End()) && m0.Ours(a) ensures StaysAt(m0, m2, a) {
        assert StaysAt(m0, m1, a) && StaysAt(m1, m2, a);
      }
      forall l | Touches(l, t.buf, t.End()) && !m0.bios(l) ensures Watched(m0, m2, l) {
        assert Watched(m0, m1, l) && Watched(m1, m2, l);
      }
    }
  }

  /** Lines [lo / 32, (lo + n) / 32] all belong to the BIOS. */
  predicate BiosOwns(m: Mem, lo: int, n: nat) {
    forall l | lo / 32 <= l <= (lo + n) / 32 :: m.bios(l)
  }

  /** What the BIOS stores in its own lines, cached or not, disturbs no other line. */
  ghost predicate Aloof(m: Mem, m': Mem) {
    && m'.bios == m.bios && (forall a | m.Ours(a) :: KeptAt(m, m', a) && StaysAt(m, m', a))
    && forall l | !m.bios(l) :: Watched(m, m', l)
  }

  lemma BiosStoresAloof(m: Mem, lo: int, data: seq<byte>)
    requires BiosOwns(m, lo, |data|)
    ensures Aloof(m, WriteCached(m, lo, data)) && Aloof(m, WriteRam(m, lo, data))
  {
    var m1, m2 := WriteCached(m, lo, data), WriteRam(m, lo, data);
    forall a | m.Ours(a) ensures KeptAt(m, m1, a) && StaysAt(m, m1, a) && KeptAt(m, m2, a) && StaysAt(m, m2, a) {
      assert !(lo / 32 <= a / 32 <= (lo + |data|) / 32);
      assert !Touches(a / 32, lo, lo + |data|);
    }
    forall l | !m.bios(l) ensures Watched(m, m1, l) { assert !(lo / 32 <= l <= (lo + |data|) / 32); }
  }

  lemma DriftAloof(m: Mem, plan: int -> LineOp)
    ensures Aloof(m, Drift(m, plan))
  {}

  lemma AloofTrans(m0: Mem, m1: Mem, m2: Mem)
    requires Aloof(m0, m1) && Aloof(m1, m2)
    ensures Aloof(m0, m2)
  {
    forall a | m0.Ours(a) ensures KeptAt(m0, m2, a) && StaysAt(m0, m2, a) {
      assert KeptAt(m0, m1, a) && KeptAt(m1, m2, a) && StaysAt(m0, m1, a) && StaysAt(m1, m2, a);
    }
    forall l | !m0.bios(l) ensures Watched(m0, m2, l) {
      assert Watched(m0, m1, l) && Watched(m1, m2, l);
    }
  }

  lemma AloofDelivers(disc: int -> byte, m: Mem, w: Mem, m': Mem, t: Transfer)
    requires m.bios == w.bios && Delivered(disc, m, w, t) && Aloof(w, m')
    ensures Delivered(disc, m, m', t)
  {
    forall i | 0 <= i < 2048 * t.n && m.Ours(t.buf + i) ensures DeliveredAt(disc, m, m', t, i) {
      assert DeliveredAt(disc, m, w, t, i) && KeptAt(w, m', t.buf + i);
    }
  }

  /** No dirty line in the way of a DMA. */
  ghost predicate Clear(m: Mem, t: Transfer) {
    forall a | In(a, t.buf, t.End()) && m.Ours(a) :: m.Settled(a)
  }

  /** The last byte of a completed transfer has arrived. */
  function Arrived(disc: int -> byte, m: Mem, t: Transfer): Mem {
    Put(m, t, 0, seq(2048 * t.n, i => disc(2048 * t.fad + i)))
  }

  lemma ArrivedDelivers(disc: int -> byte, m: Mem, t: Transfer)
    requires t.Placed() && (t.route.G1? ==> Clear(m, t))
    ensures Delivered(disc, m, Arrived(disc, m, t), t)
  {
    var m' := Arrived(disc, m, t);
    forall i | 0 <= i < 2048 * t.n && m.Ours(t.buf + i) ensures DeliveredAt(disc, m, m', t, i) {
      assert Touches((t.buf + i) / 32, t.buf, t.End()) && In(t.buf + i, t.buf, t.End());
    }
  }

  /** Byte i of a DMA that found memory as landing says is coherent in m', unless a clean line held another
      value when it arrived. */
  predicate FreshAt(disc: int -> byte, landing: Mem, m': Mem, t: Transfer, i: nat) {
    var a := t.buf + i;
    landing.line(a / 32).Absent? || landing.copy(a) == disc(2048 * t.fad + i) ==> m'.Coherent(a)
  }

  ghost predicate Fresh(disc: int -> byte, landing: Mem, m': Mem, t: Transfer) {
    forall i | 0 <= i < 2048 * t.n && landing.Ours(t.buf + i) :: FreshAt(disc, landing, m', t, i)
  }

  lemma ArrivedFresh(disc: int -> byte, m: Mem, m': Mem, t: Transfer)
    requires t.route.G1? && Clear(m, t) && Aloof(Arrived(disc, m, t), m')
    ensures Fresh(disc, m, m', t)
  {
    var w := Arrived(disc, m, t);
    forall i | 0 <= i < 2048 * t.n && m.Ours(t.buf + i) ensures FreshAt(disc, m, m', t, i) {
      assert In(t.buf + i, t.buf, t.End()) && KeptAt(w, m', t.buf + i);
    }
  }

  /** Lines of the buffer not fetched since their invalidation are not in the cache. */
  ghost predicate Pristine(m: Mem, t: Transfer) {
    forall l | Touches(l, t.buf, t.End()) && !m.bios(l) && !m.fetched(l) :: m.line(l).Absent?
  }

  lemma WorkedClear(m: Mem, m': Mem, t: Transfer)
    requires Worked(m, m', t) && t.route.G1?
    ensures (Clear(m, t) ==> Clear(m', t)) && (Pristine(m, t) ==> Pristine(m', t))
  {
    if Clear(m, t) {
      forall a | In(a, t.buf, t.End()) && m'.Ours(a) ensures m'.Settled(a) { assert StaysAt(m, m', a); }
    }
    if Pristine(m, t) {
      forall l | Touches(l, t.buf, t.End()) && !m'.bios(l) && !m'.fetched(l) ensures m'.line(l).Absent? {
        assert Watched(m, m', l);
      }
    }
  }

  lemma AloofWorks(m: Mem, m': Mem, t: Transfer)
    requires Aloof(m, m')
    ensures Worked(m, m', t)
  {}

  /** t is complete in m', starting from m: delivered, and after a DMA, which found memory as landing says,
      coherent but for what a clean line held. A DMA needs the way clear. */
  ghost predicate Complete(disc: int -> byte, m: Mem, landing: Mem, m': Mem, t: Transfer) {
    (t.route.G1? ==> Clear(m, t)) ==>
      Delivered(disc, m, m', t) && (t.route.G1? ==> Worked(m, landing, t) && Fresh(disc, landing, m', t))
  }

  /** What a whole read may do to memory: as Worked, but a DMA attempt also drops the buffer's lines. */
  ghost predicate Spared(m: Mem, m': Mem, t: Transfer) {
    Kept(m, m', t.buf, t.End()) && (!t.route.G1? ==> Worked(m, m', t))
  }

  lemma DeliveredFrom(disc: int -> byte, m0: Mem, m1: Mem, m': Mem, t: Transfer)
    requires Spared(m0, m1, t) && Delivered(disc, m1, m', t)
    ensures Delivered(disc, m0, m', t)
  {
    forall i | 0 <= i < 2048 * t.n && m0.Ours(t.buf + i) ensures DeliveredAt(disc, m0, m', t, i) {
      assert DeliveredAt(disc, m1, m', t, i) && In(t.buf + i, t.buf, t.End());
      if t.route.P2? { assert StaysAt(m0, m1, t.buf + i); }
    }
  }

  lemma Completes(disc: int -> byte, m: Mem, landing: Mem, m': Mem, t: Transfer)
    requires t.Placed() && Worked(m, landing, t) && Aloof(Arrived(disc, landing, t), m')
    ensures Complete(disc, m, landing, m', t)
  {
    if t.route.G1? ==> Clear(m, t) {
      if t.route.G1? { WorkedClear(m, landing, t); }
      ArrivedDelivers(disc, landing, t);
      AloofDelivers(disc, landing, Arrived(disc, landing, t), m', t);
      DeliveredFrom(disc, m, landing, m', t);
      if t.route.G1? { ArrivedFresh(disc, landing, m', t); }
    }
  }

  lemma CompleteFrom(disc: int -> byte, m0: Mem, m1: Mem, landing: Mem, m': Mem, t: Transfer)
    requires Worked(m0, m1, t) && Complete(disc, m1, landing, m', t)
    ensures Complete(disc, m0, landing, m', t)
  {
    if t.route.G1? ==> Clear(m0, t) {
      if t.route.G1? {
        WorkedClear(m0, m1, t);
        WorkedTrans(m0, m1, landing, t);
      }
      DeliveredFrom(disc, m0, m1, m', t);
    }
  }

  /** What a successful read promises: as Complete, from any memory, and no line of a DMA's buffer was in
      the cache when it landed unless somebody fetched it after its invalidation. */
  ghost predicate Fulfilled(disc: int -> byte, m: Mem, landing: Mem, m': Mem, t: Transfer) {
    && Delivered(disc, m, m', t)
    && (t.route.G1? ==> landing.bios == m.bios && Fresh(disc, landing, m', t) && Pristine(landing, t))
  }

  lemma FulfilledFrom(disc: int -> byte, m0: Mem, m1: Mem, landing: Mem, m': Mem, t: Transfer)
    requires Spared(m0, m1, t) && Fulfilled(disc, m1, landing, m', t)
    ensures Fulfilled(disc, m0, landing, m', t)
  {
    DeliveredFrom(disc, m0, m1, m', t);
  }

  lemma SparedTrans(m0: Mem, m1: Mem, m2: Mem, t: Transfer)
    requires Spared(m0, m1, t) && Spared(m1, m2, t)
    ensures Spared(m0, m2, t)
  {
    KeptTrans(m0, m1, m2, t.buf, t.End());
    if !t.route.G1? { WorkedTrans(m0, m1, m2, t); }
  }

  /** m' is m with the lines of the buffer dropped. */
  ghost predicate Dropped(m: Mem, m': Mem, t: Transfer) {
    && m' == m.(line := m'.line, fetched := m'.fetched)
    && (forall l :: m'.line(l) == if Touches(l, t.buf, t.End()) then Absent else m.line(l))
    && (forall l :: m'.fetched(l) == (!Touches(l, t.buf, t.End()) && m.fetched(l)))
  }

  lemma OutsideKept(m: Mem, m': Mem, t: Transfer, a: int)
    requires t.Placed() && t.route.G1? && Dropped(m, m', t) && !In(a, t.buf, t.End())
    ensures KeptAt(m, m', a)
  {
    OutsideLines(t.buf, t.End(), t.buf, t.End(), a);
    assert m'.line(a / 32) == m.line(a / 32);
  }

  lemma InsideAbsent(m: Mem, m': Mem, t: Transfer, a: int)
    requires Dropped(m, m', t) && In(a, t.buf, t.End())
    ensures m'.line(a / 32).Absent?
  {
    assert Touches(a / 32, t.buf, t.End());
  }

  lemma InvalidatedSpares(m: Mem, m': Mem, t: Transfer)
    requires t.Placed() && t.route.G1? && Dropped(m, m', t)
    ensures Spared(m, m', t) && Clear(m', t) && Pristine(m', t)
  {
    forall a | !In(a, t.buf, t.End()) && m.Ours(a) ensures KeptAt(m, m', a) { OutsideKept(m, m', t, a); }
    forall a | In(a, t.buf, t.End()) && m'.Ours(a) ensures m'.Settled(a) { InsideAbsent(m, m', t, a); }
  }

  lemma TraceSnoc(t: Transfer, log: seq<Event>, before: seq<Attempt>, a: Attempt)
    ensures log + Trace(t, before) + AttemptTrace(t, a) == log + Trace(t, before + [a])
    ensures log + Trace(t, before + [a]) == log + Trace(t, before + [a]) + RecoveryTrace(None)
  {
    assert (before + [a])[..|before|] == before;
  }

  /** How one more classified attempt, or a recovery that hung, extends the history of a read. */
  lemma DoneVerdict(t: Transfer, before: seq<Attempt>, a: Attempt, err0: u32)
    requires Retrying(before) && |before| < ATTEMPTS && Prepared(|before|, a) && Completed(a)
    ensures Verdicts(t, before + [a], None, Done, err0, ErrAfter(before, err0))
  {
    assert (before + [a])[..|before|] == before;
  }

  lemma HungVerdict(t: Transfer, before: seq<Attempt>, a: Attempt, err0: u32, err: u32)
    requires Retrying(before) && |before| < ATTEMPTS && Prepared(|before|, a) && a.req > 0 && Hung(a.polls)
    ensures Verdicts(t, before + [a], None, Died(5, t.fad, t.n), err0, err)
  {
    assert (before + [a])[..|before|] == before;
  }

  /** What one pass through the loop came to: a recovery that hung, an attempt that hung, completed or
      failed. */
  predicate Classified(before: seq<Attempt>, a: Attempt, dead: bool, hung: bool, done: bool) {
    if dead then before != [] && a.recovery.Some? && a.recovery.value.req > 0 && Hung(a.recovery.value.polls)
    else Prepared(|before|, a) && if hung then a.req > 0 && Hung(a.polls) else if done then Completed(a) else Failed(a)
  }

  lemma DeadVerdict(t: Transfer, before: seq<Attempt>, r: Recovery, err0: u32, err: u32)
    requires Retrying(before) && 0 < |before| < ATTEMPTS && r.req > 0 && Hung(r.polls)
    ensures Verdicts(t, before, Some(r), Died(5, 0xdead_1217, 0), err0, err)
  {}

  lemma FailedAgain(before: seq<Attempt>, a: Attempt, err0: u32)
    requires Retrying(before) && Prepared(|before|, a) && Failed(a)
    ensures Retrying(before + [a]) && ErrAfter(before + [a], err0) == Verdict(a)
  {}

  lemma PollLogged(log: seq<Event>, id: int, before: seq<Poll>, p: Poll)
    ensures log + PollTrace(id, before) + [Exec] + [Check(id, p)] == log + PollTrace(id, before + [p])
  {
    assert (before + [p])[..|before|] == before;
    assert [Exec] + [Check(id, p)] == [Exec, Check(id, p)];
  }

  lemma Assoc(a: seq<Event>, b: seq<Event>, c: seq<Event>)
    ensures a + b + c == a + (b + c)
  {}

  lemma RecoveryLogged(log: seq<Event>, r: Recovery)
    requires !r.mode
    ensures log + [SysInit] + InitTrace(r) == log + RecoveryTrace(Some(r))
    ensures log + [SysInit] + InitTrace(r) + [SectorMode] == log + RecoveryTrace(Some(r.(mode := true)))
  {
    var init := [SysInit] + InitTrace(r);
    Assoc(log, [SysInit], InitTrace(r));
    Assoc(log, init, [SectorMode]);
    assert RecoveryTrace(Some(r)) == init;
    assert RecoveryTrace(Some(r.(mode := true))) == init + [SectorMode];
  }

  function ClearBit14(v: u32): u32 {
    if v / 0x4000 % 2 == 1 then v - 0x4000 else v
  }

  lemma Bit14Cleared(v: u32, k: nat)
    ensures Bits.Bit(ClearBit14(v), k) <==> k != 14 && Bits.Bit(v, k)
  {
    assert Bits.Pow2(14) == 0x4000;
    Bits.ShrIsDiv(v, 14);
    if Bits.Bit(v, 14) { Bits.DropBit(v, 14, k); }
  }

  /** The ASIC interrupt masks for the three IRQ levels, at 0xa05f6910, 0xa05f6920 and 0xa05f6930. */
  datatype Masks = Masks(irqd: u32, irqb: u32, irq9: u32)
  {
    /** GD-DMA completion, bit 14, masked on every level. */
    function WithoutGdDma(): Masks {
      Masks(ClearBit14(irqd), ClearBit14(irqb), ClearBit14(irq9))
    }
  }

  /** Exactly the caller's 32-byte alignment test makes invalidation safe: OCBI over [lo, hi) loses no
      byte outside it, whatever the cache holds, if and only if both ends fall on a line. */
  lemma InvalidateIsExact(lo: int, hi: int)
    requires lo < hi
    ensures (forall m :: Kept(m, Invalidate(m, lo, hi), lo, hi)) <==> lo % 32 == 0 && hi % 32 == 0
  {
    if lo % 32 == 0 && hi % 32 == 0 {
      forall m ensures Kept(m, Invalidate(m, lo, hi), lo, hi) {
        forall a | !In(a, lo, hi) && m.Ours(a) ensures KeptAt(m, Invalidate(m, lo, hi), a) {
          assert !Touches(a / 32, lo, hi);
        }
      }
    } else {
      var m := Mem(a => 0, a => 1, l => Dirty, l => false, l => false);
      var a := if lo % 32 != 0 then lo - 1 else hi;
      assert Touches(a / 32, lo, hi) && !In(a, lo, hi);
      assert !KeptAt(m, Invalidate(m, lo, hi), a);
    }
  }

  class Gd {
    const disc: int -> byte
    const cdxa: bool                 // SHIM_CDXA: the CDI build
    var mem: Mem
    var lastErr: u32
    var active: Option<Transfer>     // the request the drive is working on
    var req: int
    var masks: Masks
    var acks: nat                    // GD-DMA completions acknowledged in SB_ISTNRM
    ghost var log: seq<Event>
    ghost var landing: Mem           // memory as the last bytes of the last completed request arrived

    constructor (disc: int -> byte, cdxa: bool, mem: Mem)
      ensures this.disc == disc && this.cdxa == cdxa && this.mem == mem && active.None? && log == [] && acks == 0
    {
      this.disc, this.cdxa, this.mem, lastErr, active, req, log := disc, cdxa, mem, 0xcafe_0000, None, 0, [];
      masks, acks, landing := Masks(0, 0, 0), 0, mem;
    }

    /** One thing the rest of the machine does: cached activity fills, writes back and evicts lines
        anywhere, or the BIOS stores into its own, cached or not. */
    method Nudge()
      modifies `mem
      ensures Aloof(old(mem), mem)
    {
      var own: bool, cached: bool, lo: int, data: seq<byte>, plan: int -> LineOp := *, *, *, *, *;
      if own && BiosOwns(mem, lo, |data|) {
        BiosStoresAloof(mem, lo, data);
        mem := if cached then WriteCached(mem, lo, data) else WriteRam(mem, lo, data);
      } else {
        DriftAloof(mem, plan);
        mem := Drift(mem, plan);
      }
    }

    /** Any number of them. */
    method Idle()
      modifies `mem
      ensures Aloof(old(mem), mem)
    {
      var more: int := *;
      var steps := if more > 0 then more else 0;
      for k := 0 to steps
        invariant Aloof(old(mem), mem)
      {
        ghost var m := mem;
        Nudge();
        AloofTrans(old(mem), m, mem);
      }
    }

    /** The same, while the drive also moves any bytes it likes into the buffer. */
    method Stir()
      requires active.Some? && active.value.Placed()
      modifies `mem
      ensures Worked(old(mem), mem, active.value)
    {
      var t := active.value;
      var more: int := *;
      var steps := if more > 0 then more else 0;
      for k := 0 to steps
        invariant Worked(old(mem), mem, t)
      {
        ghost var m := mem;
        var p: nat, data: seq<byte> := *, *;
        if p + |data| <= 2048 * t.n {
          PutWorks(mem, t, p, data);
          mem := Put(mem, t, p, data);
        }
        WorkedTrans(old(mem), m, mem, t);
        m := mem;
        Nudge();
        WorkedTrans(old(mem), m, mem, t);
      }
    }

    method Exec()
      requires active.Some? && active.value.Placed()
      modifies `mem, `log
      ensures Worked(old(mem), mem, active.value) && log == old(log) + [Event.Exec]
    {
      Stir();
      log := log + [Event.Exec];
    }

    /** CHECK of request id: any verdict at all, but COMPLETED for the request in progress means its
        bytes have arrived, finding memory as landing records. */
    method Check(id: int) returns (p: Poll)
      requires active.Some? && active.value.Placed()
      modifies `mem, `log, `landing
      ensures Worked(old(mem), mem, active.value) && log == old(log) + [Event.Check(id, p)]
      ensures p.status == COMPLETED && id == req ==> Complete(disc, old(mem), landing, mem, active.value)
    {
      var status: int, word: u32 := *, *;
      p := Poll(status, word);
      var t := active.value;
      Stir();
      if status == COMPLETED && id == req {
        ghost var m := mem;
        landing := mem;
        PutWorks(mem, t, 0, seq(2048 * t.n, i => disc(2048 * t.fad + i)));
        mem := Arrived(disc, mem, t);
        ghost var w := mem;
        Idle();
        AloofWorks(w, mem, t);
        WorkedTrans(m, w, mem, t);
        Completes(disc, old(mem), m, mem, t);
        WorkedTrans(old(mem), m, mem, t);
      }
      log := log + [Event.Check(id, p)];
    }

    /** One pump and check, related to the memory m0 and the log log0 the loop started from. */
    method PollOnce(id: int, ghost before: seq<Poll>, ghost m0: Mem, ghost log0: seq<Event>) returns (p: Poll)
      requires active.Some? && active.value.Placed()
      requires Worked(m0, mem, active.value) && log == log0 + PollTrace(id, before)
      modifies `mem, `log, `landing
      ensures Worked(m0, mem, active.value) && log == log0 + PollTrace(id, before + [p])
      ensures p.status == COMPLETED && id == req ==> Complete(disc, m0, landing, mem, active.value)
    {
      ghost var t, m1 := active.value, mem;
      Exec();
      WorkedTrans(m0, m1, mem, t);
      ghost var m2 := mem;
      p := Check(id);
      WorkedTrans(m0, m2, mem, t);
      PollLogged(log0, id, before, p);
      if p.status == COMPLETED && id == req {
        CompleteFrom(disc, m0, m2, landing, mem, t);
      }
    }

    /** The pump-and-check loop both the read and the drive re-init run. */
    method Await(id: int) returns (polls: seq<Poll>, hung: bool)
      requires active.Some? && active.value.Placed()
      modifies `mem, `log, `landing
      ensures if hung then Hung(polls) else Ended(polls)
      ensures log == old(log) + PollTrace(id, polls) && Worked(old(mem), mem, active.value)
      ensures !hung && polls[|polls| - 1].status == COMPLETED && id == req
              ==> Complete(disc, old(mem), landing, mem, active.value)
    {
      polls := [];
      var guard := 0;
      while true
        invariant guard == |polls| < POLL_MAX
        invariant forall i | 0 <= i < |polls| :: Pending(polls[i], i)
        invariant log == old(log) + PollTrace(id, polls) && Worked(old(mem), mem, active.value)
        decreases POLL_MAX - guard
      {
        var p := PollOnce(id, polls, old(mem), old(log));
        polls := polls + [p];
        if p.status == COMPLETED || p.status <= FAILED { return polls, false; }
        if p.status == NOT_FOUND && guard > EARLY { return polls, false; }
        guard := guard + 1;
        if guard > 100_000_000 { return polls, true; }
      }
    }

    /** gd_init_drive: CMD_INIT, polled to its end. */
    method InitDrive() returns (r: Recovery, hung: bool)
      requires active.Some? && active.value.Placed()
      modifies `mem, `log, `req, `landing
      ensures if hung then r.req > 0 && Hung(r.polls) else Recovered(r)
      ensures !r.mode && log == old(log) + InitTrace(r) && Worked(old(mem), mem, active.value)
    {
      ghost var m0 := mem;
      Stir();
      var id: int := *;
      req := 0;                      // no read is pending under this request
      log := log + [Send(CMD_INIT, 0, 0, 0, id)];
      if id <= 0 {
        return Recovery(id, [], false), false;
      }
      ghost var m1 := mem;
      var polls;
      polls, hung := Await(id);
      WorkedTrans(m0, m1, mem, active.value);
      r := Recovery(id, polls, false);
    }

    /** gd_recover: gdGdcInitSystem, then the drive, then in a CDI build the sector mode. */
    method Recover() returns (r: Recovery, hung: bool)
      requires active.Some? && active.value.Placed()
      modifies `mem, `log, `req, `landing
      ensures if hung then r.req > 0 && Hung(r.polls) else Recovered(r)
      ensures r.mode == (cdxa && !hung)
      ensures log == old(log) + RecoveryTrace(Some(r)) && Worked(old(mem), mem, active.value)
    {
      ghost var m0 := mem;
      Stir();
      log := log + [SysInit];
      ghost var m1 := mem;
      r, hung := InitDrive();
      WorkedTrans(m0, m1, mem, active.value);
      RecoveryLogged(old(log), r);
      if cdxa && !hung {
        ghost var m2 := mem;
        Stir();
        WorkedTrans(m0, m2, mem, active.value);
        r := r.(mode := true);
        log := log + [SectorMode];
      }
    }

    /** dcache_inval: one OCBI per line from the one phys falls in up to phys + len, and no other. */
    method DcacheInval(phys: nat, len: nat)
      modifies `mem, `log
      ensures log == old(log) + OcbiTrace(phys / 32, LineCount(phys, len))
      ensures mem == old(mem).(line := mem.line, fetched := mem.fetched)
      ensures forall l :: mem.line(l) == if Touches(l, phys, phys + len) then Absent else old(mem).line(l)
      ensures forall l :: mem.fetched(l) == (!Touches(l, phys, phys + len) && old(mem).fetched(l))
    {
      var a, end := phys / 32 * 32, phys + len;
      while a < end
        invariant phys / 32 * 32 <= a < end + 32 && a % 32 == 0
        invariant log == old(log) + OcbiTrace(phys / 32, a / 32 - phys / 32)
        invariant mem == old(mem).(line := mem.line, fetched := mem.fetched)
        invariant forall l :: mem.line(l) == if Passed(l, phys, a) then Absent else old(mem).line(l)
        invariant forall l :: mem.fetched(l) == (!Passed(l, phys, a) && old(mem).fetched(l))
      {
        mem := Invalidate(mem, a, a + 32);
        log := log + [Ocbi(a / 32)];
        ghost var k := a / 32 - phys / 32;
        assert OcbiTrace(phys / 32, k + 1) == OcbiTrace(phys / 32, k) + [Ocbi(a / 32)];
        a := a + 32;
      }
    }

    /** The SEND of a read, the request now being in progress whether or not it was accepted. */
    method SendRead(t: Transfer) returns (id: int)
      requires t.Placed()
      modifies `mem, `log, `req, `active, `landing
      ensures active == Some(t) && req == id && Worked(old(mem), mem, t)
      ensures log == old(log) + [Send(t.Cmd(), t.fad, t.n, t.buf, id)]
    {
      active := Some(t);
      Stir();
      id := *;
      req := id;
      log := log + [Send(t.Cmd(), t.fad, t.n, t.buf, id)];
    }

    /** Send, then poll if the drive accepted. */
    method SendAndAwait(t: Transfer) returns (id: int, polls: seq<Poll>, hung: bool)
      requires t.Placed()
      modifies `mem, `log, `req, `active, `landing
      ensures active == Some(t) && Worked(old(mem), mem, t)
      ensures if id <= 0 then polls == [] && !hung else if hung then Hung(polls) else Ended(polls)
      ensures log == old(log) + SendTrace(t, id, polls)
      ensures id > 0 && !hung && polls[|polls| - 1].status == COMPLETED ==> Complete(disc, old(mem), landing, mem, t)
    {
      ghost var m0 := mem;
      id := SendRead(t);
      ghost var m1 := mem;
      if id <= 0 {
        return id, [], false;
      }
      polls, hung := Await(id);
      Assoc(old(log), [Send(t.Cmd(), t.fad, t.n, t.buf, id)], PollTrace(id, polls));
      WorkedTrans(m0, m1, mem, t);
      if !hung && polls[|polls| - 1].status == COMPLETED {
        CompleteFrom(disc, m0, m1, landing, mem, t);
      }
    }

    /** One attempt after any recovery: for DMA, invalidate the buffer's lines first. */
    method Try(t: Transfer) returns (id: int, polls: seq<Poll>, hung: bool)
      requires t.Placed()
      modifies `mem, `log, `req, `active, `landing
      ensures active == Some(t)
      ensures if id <= 0 then polls == [] && !hung else if hung then Hung(polls) else Ended(polls)
      ensures log == old(log) + TryTrace(t, id, polls)
      ensures Spared(old(mem), mem, t)
      ensures id > 0 && !hung && polls[|polls| - 1].status == COMPLETED ==> Fulfilled(disc, old(mem), landing, mem, t)
    {
      if !t.route.G1? {
        id, polls, hung := SendAndAwait(t);
        assert [] + SendTrace(t, id, polls) == SendTrace(t, id, polls);
        return;
      }
      ghost var m0 := mem;
      DcacheInval(t.buf, 2048 * t.n);
      ghost var m1 := mem;
      InvalidatedSpares(m0, m1, t);
      id, polls, hung := SendAndAwait(t);
      Assoc(old(log), OcbiTrace(t.buf / 32, 64 * t.n), SendTrace(t, id, polls));
      SparedTrans(m0, m1, mem, t);
      if id > 0 && !hung && polls[|polls| - 1].status == COMPLETED {
        WorkedClear(m1, landing, t);
        FulfilledFrom(disc, m0, m1, landing, mem, t);
      }
    }

    /** The attempt made, and how it came out. */
    method Attempted(t: Transfer, recovery: Option<Recovery>) returns (a: Attempt, hung: bool, done: bool)
      requires t.Placed()
      modifies `mem, `log, `req, `active, `landing
      ensures a.recovery == recovery && active == Some(t) && Spared(old(mem), mem, t)
      ensures log == old(log) + TryTrace(t, a.req, a.polls)
      ensures if hung then a.req > 0 && Hung(a.polls) else if done then Completed(a) else Failed(a)
      ensures !hung && done ==> Fulfilled(disc, old(mem), landing, mem, t)
    {
      var id, polls;
      id, polls, hung := Try(t);
      a := Attempt(recovery, id, polls);
      done := id > 0 && !hung && polls[|polls| - 1].status == COMPLETED;
    }

    /** The recovery before a retry; dead is one that hung. */
    method Prepare(t: Transfer, attempt: nat) returns (recovery: Option<Recovery>, dead: bool)
      requires t.Placed() && if attempt == 0 then active.None? else active == Some(t)
      modifies `mem, `log, `req, `landing
      ensures Spared(old(mem), mem, t) && log == old(log) + RecoveryTrace(recovery)
      ensures if attempt == 0 then recovery.None? && !dead && active.None? else recovery.Some? && active == Some(t)
      ensures attempt > 0 ==> if dead then recovery.value.req > 0 && Hung(recovery.value.polls)
                              else Recovered(recovery.value)
    {
      recovery, dead := None, false;
      if attempt > 0 {
        var r;
        r, dead := Recover();
        recovery := Some(r);
      }
    }

    /** The body of the retry loop, recovery included. */
    method Pass(t: Transfer, ghost before: seq<Attempt>, attempt: nat)
      returns (a: Attempt, dead: bool, hung: bool, done: bool)
      requires t.Placed() && attempt == |before| && if attempt == 0 then active.None? else active == Some(t)
      modifies `mem, `log, `req, `active, `landing
      ensures active == Some(t) && Spared(old(mem), mem, t) && Classified(before, a, dead, hung, done)
      ensures log == old(log) + if dead then RecoveryTrace(a.recovery) else AttemptTrace(t, a)
      ensures !dead && !hung && done ==> Fulfilled(disc, old(mem), landing, mem, t)
    {
      ghost var m0 := mem;
      var recovery;
      recovery, dead := Prepare(t, attempt);
      if dead {
        return Attempt(recovery, 0, []), true, false, false;
      }
      ghost var m1 := mem;
      a, hung, done := Attempted(t, recovery);
      Assoc(old(log), RecoveryTrace(recovery), TryTrace(t, a.req, a.polls));
      SparedTrans(m0, m1, mem, t);
      if !hung && done {
        FulfilledFrom(disc, m0, m1, landing, mem, t);
      }
    }

    /** Pass, related to the memory m0 and the log log0 the read started from. */
    method NextPass(t: Transfer, ghost before: seq<Attempt>, attempt: nat, ghost m0: Mem, ghost log0: seq<Event>)
      returns (a: Attempt, dead: bool, hung: bool, done: bool)
      requires t.Placed() && attempt == |before| && if attempt == 0 then active.None? else active == Some(t)
      requires Spared(m0, mem, t) && log == log0 + Trace(t, before)
      modifies `mem, `log, `req, `active, `landing
      ensures active == Some(t) && Spared(m0, mem, t)
      ensures Classified(before, a, dead, hung, done)
      ensures dead ==> log == log0 + Trace(t, before) + RecoveryTrace(a.recovery)
      ensures !dead ==> log == log0 + Trace(t, before + [a]) == log0 + Trace(t, before + [a]) + RecoveryTrace(None)
      ensures !dead && !hung && done ==> Fulfilled(disc, m0, landing, mem, t)
    {
      ghost var m1 := mem;
      a, dead, hung, done := Pass(t, before, attempt);
      SparedTrans(m0, m1, mem, t);
      TraceSnoc(t, log0, before, a);
      if !dead && !hung && done {
        FulfilledFrom(disc, m0, m1, landing, mem, t);
      }
    }

    /** The verdict of one classified attempt: stop with it, or go on with gd_last_err recorded. */
    method Record(t: Transfer, ghost before: seq<Attempt>, a: Attempt, dead: bool, hung: bool, done: bool,
                  ghost err0: u32)
      returns (stop: bool, out: Outcome, ghost attempts: seq<Attempt>, ghost fatal: Option<Recovery>)
      requires |before| < ATTEMPTS && Retrying(before) && lastErr == ErrAfter(before, err0)
      requires Classified(before, a, dead, hung, done)
      modifies `active, `lastErr
      ensures stop == (dead || hung || done) && (stop ==> Verdicts(t, attempts, fatal, out, err0, lastErr))
      ensures if dead then attempts == before && fatal == a.recovery else attempts == before + [a] && fatal == None
      ensures stop && out.Done? ==> !dead && !hung && done && active.None?
      ensures !stop ==> Retrying(attempts) && lastErr == ErrAfter(attempts, err0) && active == old(active)
    {
      stop := dead || hung || done;
      attempts, fatal := if dead then before else before + [a], if dead then a.recovery else None;
      if dead {
        DeadVerdict(t, before, a.recovery.value, err0, lastErr);
        out := Died(5, 0xdead_1217, 0);
      } else if hung {
        HungVerdict(t, before, a, err0, lastErr);
        out := Died(5, t.fad, t.n);
      } else if done {
        DoneVerdict(t, before, a, err0);
        active, out := None, Done;
      } else {
        FailedAgain(before, a, err0);
        lastErr, out := Verdict(a), GaveUp;
      }
    }

    /** One turn of the retry loop. */
    method Turn(t: Transfer, ghost before: seq<Attempt>, attempt: nat, ghost m0: Mem, ghost log0: seq<Event>,
                ghost err0: u32)
      returns (stop: bool, out: Outcome, ghost attempts: seq<Attempt>, ghost fatal: Option<Recovery>)
      requires t.Placed() && attempt == |before| < ATTEMPTS && if attempt == 0 then active.None? else active == Some(t)
      requires Spared(m0, mem, t) && log == log0 + Trace(t, before)
      requires Retrying(before) && lastErr == ErrAfter(before, err0)
      modifies `mem, `log, `req, `active, `lastErr, `landing
      ensures Spared(m0, mem, t) && log == log0 + Trace(t, attempts) + RecoveryTrace(fatal)
      ensures stop ==> Verdicts(t, attempts, fatal, out, err0, lastErr)
      ensures stop && out.Done? ==> Fulfilled(disc, m0, landing, mem, t) && active.None?
      ensures !stop ==> log == log0 + Trace(t, attempts) && active == Some(t)
      ensures !stop ==> |attempts| == attempt + 1 && Retrying(attempts) && lastErr == ErrAfter(attempts, err0)
    {
      var a, dead, hung, done := NextPass(t, before, attempt, m0, log0);
      stop, out, attempts, fatal := Record(t, before, a, dead, hung, done, err0);
    }

    /** The retry loop: up to four attempts, a recovery before each retry. */
    method Retry(t: Transfer) returns (out: Outcome, ghost attempts: seq<Attempt>, ghost fatal: Option<Recovery>)
      requires t.Placed() && active.None?
      modifies `mem, `log, `req, `active, `lastErr, `landing
      ensures Verdicts(t, attempts, fatal, out, old(lastErr), lastErr)
      ensures log == old(log) + Trace(t, attempts) + RecoveryTrace(fatal)
      ensures Spared(old(mem), mem, t)
      ensures out.Done? ==> Fulfilled(disc, old(mem), landing, mem, t) && active.None?
    {
      attempts, fatal := [], None;
      for attempt := 0 to ATTEMPTS
        invariant |attempts| == attempt && Retrying(attempts)
        invariant lastErr == ErrAfter(attempts, old(lastErr))
        invariant log == old(log) + Trace(t, attempts) && log == log + RecoveryTrace(None)
        invariant Spared(old(mem), mem, t)
        invariant if attempt == 0 then active.None? else active == Some(t)
      {
        var stop;
        stop, out, attempts, fatal := Turn(t, attempts, attempt, old(mem), old(log), old(lastErr));
        if stop { return; }
      }
      out, fatal := GaveUp, None;
    }

    /** gd_read_sectors, and over G1 gd_read_sectors_dma. On success the bytes are delivered; whatever
        happens, memory outside the buffer is kept and the history is one the driver promises. */
    method Read(t: Transfer) returns (out: Outcome, ghost attempts: seq<Attempt>, ghost fatal: Option<Recovery>)
      requires t.Placed() && active.None?
      modifies this
      ensures Verdicts(t, attempts, fatal, out, old(lastErr), lastErr)
      ensures log == old(log) + Trace(t, attempts) + RecoveryTrace(fatal)
      ensures Spared(old(mem), mem, t)
      ensures out.Done? ==> Fulfilled(disc, old(mem), landing, mem, t) && active.None?
      ensures !t.route.G1? ==> masks == old(masks)
      ensures t.route.G1? ==> forall k: nat ::
                && (Bits.Bit(masks.irqd, k) <==> k != 14 && Bits.Bit(old(masks).irqd, k))
                && (Bits.Bit(masks.irqb, k) <==> k != 14 && Bits.Bit(old(masks).irqb, k))
                && (Bits.Bit(masks.irq9, k) <==> k != 14 && Bits.Bit(old(masks).irq9, k))
      ensures acks == old(acks) + if t.route.G1? && out.Done? then 1 else 0
    {
      if t.route.G1? {
        ghost var m := masks;
        masks := masks.WithoutGdDma();
        forall k: nat
          ensures && (Bits.Bit(masks.irqd, k) <==> k != 14 && Bits.Bit(m.irqd, k))
                  && (Bits.Bit(masks.irqb, k) <==> k != 14 && Bits.Bit(m.irqb, k))
                  && (Bits.Bit(masks.irq9, k) <==> k != 14 && Bits.Bit(m.irq9, k))
        {
          Bit14Cleared(m.irqd, k);
          Bit14Cleared(m.irqb, k);
          Bit14Cleared(m.irq9, k);
        }
      }
      out, attempts, fatal := Retry(t);
      if t.route.G1? && out.Done? {
        acks := acks + 1;
      }
    }
  }
}
