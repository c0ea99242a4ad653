/** The token bucket as an interleaved system: one monitor (src/server_monitor.c:137-207), one
    poster thread (src/ioctl_hook.c:35-76) and any number of launch threads
    (src/cuda_hook.c:104-122) over one shared segment and one semaphore.  A step is one atomic
    operation, or one plain access, of one of them. */
module TokenSystem {
  import opened Wrappers
  import opened Controller
  import opened LaunchWindow

  type RingSeq = s: seq<int> | |s| == LAUNCH_SAMPLES witness Zeros()

  // ---------------------------------------------------------------- state

  /** token_attr_t, and the semaphore. */
  datatype Shared = Shared(changed: bool, rate: int, avg0: int, avg1: int, idx: nat, launches: nat, tokens: nat)

  /** FinishInit is the last store of init_attr, which comes after the poster has been let go. */
  datatype MonitorPc = FinishInit | LoadChanged | LoadIdx | ReadCur | ReadLast | LoadRate | StoreRate | StoreChanged

  /** `finite` says whether util_per_kernel, the quotient util / cur, came out finite. */
  datatype Monitor = Monitor(
    pc: MonitorPc, util: nat, idx: nat, cur: int, last: int, finite: bool, newRate: int, modTimes: nat)

  datatype PosterPc = CheckChanged | CopyRate | ClearChanged | ResetLaunches | PostTokens | WriteAvg | BumpIdx
  datatype Poster = Poster(pc: PosterPc, loop: nat, copy: int, i: int, ring: RingSeq, newAvg: int)

  /** What has happened so far; no thread reads it. */
  datatype History = History(
    published: seq<int>,   // rates, each when its flag was raised
    adopted: seq<int>,     // rates the poster copied
    cycles: seq<int>,      // rate of each completed poster cycle
    samples: seq<int>,     // launch count of each cycle
    averages: seq<int>,    // average written by each cycle
    posted: nat,           // tokens posted
    passes: nat,           // launches let through
    fails: nat)            // waits that failed

  /** `uncounted` launch threads are between their sem_wait and their fetch_add.  `fault` records
      an attempt to correct the rate from an average or rate that is not positive. */
  datatype State = State(limit: nat, sh: Shared, m: Monitor, p: Poster, uncounted: nat, h: History, fault: bool)

  function Slot(sh: Shared, k: nat): (n: int) { if k % 2 == 0 then sh.avg0 else sh.avg1 }

  function SetSlot(sh: Shared, k: nat, n: int): (r: Shared) {
    if k % 2 == 0 then sh.(avg0 := n) else sh.(avg1 := n)
  }

  // ---------------------------------------------------------------- steps

  /** `util` is the utilisation a tick is called with; `junk` is used up only by a correction from a
      utilisation of 0, see Decide. */
  datatype Action = MonitorStep(util: nat, junk: int) | PosterStep | WaitOk | WaitFails | CountLaunch

  function StepMonitor(s: State, util: nat, junk: int): (r: State) {
    var m := s.m;
    match m.pc
    case FinishInit => Raised(s)
    case LoadChanged => if s.sh.changed then s else s.(m := m.(pc := LoadIdx, util := util))
    case LoadIdx => s.(m := m.(pc := ReadCur, idx := s.sh.idx))
    case ReadCur => s.(m := m.(pc := ReadLast, cur := Slot(s.sh, m.idx)))
    case ReadLast =>
      s.(m := m.(pc := LoadRate, last := Slot(s.sh, m.idx + 1), finite := m.cur != 0))
    case LoadRate =>
      var tick, old_ := m.modTimes + 1, s.sh.rate;
      if old_ < 1 || (IsCorrectionTick(tick) && (m.cur < 1 || m.last < 1)) then s.(fault := true)
      else Decided(s, Decide(tick, old_, m.util, s.limit, m.cur, m.last, junk))
    case StoreRate => s.(sh := s.sh.(rate := m.newRate), m := m.(pc := StoreChanged))
    case StoreChanged => Raised(s)
  }

  /** The tick is counted and its decision taken. */
  function Decided(s: State, decision: Option<int>): (r: State) {
    match decision
    case Some(rate) => s.(m := s.m.(pc := StoreRate, newRate := rate, modTimes := s.m.modTimes + 1))
    case None => s.(m := s.m.(pc := LoadChanged, modTimes := s.m.modTimes + 1))
  }

  /** The flag goes up: the rate is published. */
  function Raised(s: State): (r: State) {
    s.(sh := s.sh.(changed := true), m := s.m.(pc := LoadChanged),
       h := s.h.(published := s.h.published + [s.sh.rate]))
  }

  function StepPoster(s: State): (r: State) {
    var p := s.p;
    match p.pc
    case CheckChanged => s.(p := p.(loop := p.loop + 1, pc := if s.sh.changed then CopyRate else ResetLaunches))
    case CopyRate =>
      s.(p := p.(pc := ClearChanged, copy := s.sh.rate), h := s.h.(adopted := s.h.adopted + [s.sh.rate]))
    case ClearChanged => s.(sh := s.sh.(changed := false), p := p.(pc := ResetLaunches))
    case ResetLaunches => s.(sh := s.sh.(launches := 0), p := p.(pc := PostTokens, i := 0))
    case PostTokens =>
      if p.i < p.copy then
        s.(sh := s.sh.(tokens := s.sh.tokens + 1), p := p.(i := p.i + 1), h := s.h.(posted := s.h.posted + 1))
      else
        var ring := p.ring[p.loop % LAUNCH_SAMPLES := s.sh.launches];
        s.(p := p.(pc := WriteAvg, ring := ring, newAvg := Average(ring)),
           h := s.h.(samples := s.h.samples + [s.sh.launches]))
    case WriteAvg =>
      s.(sh := SetSlot(s.sh, s.sh.idx, p.newAvg), p := p.(pc := BumpIdx),
         h := s.h.(averages := s.h.averages + [p.newAvg]))
    case BumpIdx =>
      s.(sh := s.sh.(idx := s.sh.idx + 1), p := p.(pc := CheckChanged),
         h := s.h.(cycles := s.h.cycles + [p.copy]))
  }

  /** rate_limit: sem_wait, then the launch is counted.  An interrupted wait is no step; one that
      fails is counted but does not pass. */
  function StepLaunch(s: State, a: Action): (r: State) {
    match a
    case WaitOk =>
      if s.sh.tokens == 0 then s
      else s.(sh := s.sh.(tokens := s.sh.tokens - 1), uncounted := s.uncounted + 1,
              h := s.h.(passes := s.h.passes + 1))
    case WaitFails => s.(uncounted := s.uncounted + 1, h := s.h.(fails := s.h.fails + 1))
    case CountLaunch =>
      if s.uncounted == 0 then s
      else s.(uncounted := s.uncounted - 1, sh := s.sh.(launches := s.sh.launches + 1))
    case _ => s
  }

  function Step(s: State, a: Action): (r: State) {
    match a
    case MonitorStep(util, junk) => StepMonitor(s, util, junk)
    case PosterStep => StepPoster(s)
    case _ => StepLaunch(s, a)
  }

  /** A fresh init_attr up to its last store, and sem_init.  The poster may already run, and its copy
      of the rate is still garbage. */
  function Start(limit: nat, garbage: int): (s: State) {
    State(limit,
          Shared(false, 1, 0, 0, 0, 0, limit),
          Monitor(FinishInit, 0, 0, 0, 0, true, 0, 0),
          Poster(CheckChanged, 0, garbage, 0, Zeros(), 0),
          0, History([], [], [], [], [], 0, 0, 0), false)
  }

  function Continue(s: State, as_: seq<Action>): (r: State) {
    if as_ == [] then s else Step(Continue(s, as_[..|as_| - 1]), as_[|as_| - 1])
  }

  function Run(limit: nat, garbage: int, as_: seq<Action>): (s: State) { Continue(Start(limit, garbage), as_) }

  // ---------------------------------------------------------------- the handshake

  function Last(s: seq<int>): (n: int)
    requires s != []
  {
    s[|s| - 1]
  }

  /** The poster is caught up: every rate whose flag was raised has been copied. */
  predicate CaughtUp(s: State) { !s.sh.changed || s.p.pc == ClearChanged }

  ghost predicate Handshake(s: State) {
    && (s.p.pc == CopyRate || s.p.pc == ClearChanged ==> s.sh.changed)
    && (s.m.pc != LoadChanged ==> !s.sh.changed)
    && (s.h.published == [] <==> s.m.pc == FinishInit)
    && (s.m.pc != StoreChanged && s.m.pc != FinishInit ==> s.sh.rate == Last(s.h.published))
    && (CaughtUp(s) ==> s.h.adopted == s.h.published)
    && (!CaughtUp(s) ==> s.h.published != [] && s.h.adopted == s.h.published[..|s.h.published| - 1])
    && (s.h.adopted != [] ==> s.p.copy == Last(s.h.adopted))
  }

  lemma HandshakeRaised(s: State)
    requires Handshake(s) && (s.m.pc == StoreChanged || s.m.pc == FinishInit)
    ensures Handshake(Raised(s))
  {
    var published := Raised(s).h.published;
    assert published[..|published| - 1] == s.h.published;
  }

  /** What the monitor does up to its decision concerns nobody else. */
  lemma HandshakeLocal(s: State, r: State)
    requires Handshake(s) && s.m.pc != StoreChanged && s.m.pc != FinishInit
    requires r.sh == s.sh && r.p == s.p && r.h == s.h
    requires r.m.pc != StoreChanged && r.m.pc != FinishInit && (s.sh.changed ==> r.m.pc == LoadChanged)
    ensures Handshake(r)
  {
  }

  lemma HandshakeMonitor(s: State, util: nat, junk: int)
    requires Handshake(s)
    ensures Handshake(StepMonitor(s, util, junk))
  {
    if s.m.pc == StoreChanged || s.m.pc == FinishInit {
      HandshakeRaised(s);
    } else if s.m.pc != StoreRate {
      HandshakeLocal(s, StepMonitor(s, util, junk));
    }
  }

  lemma HandshakePoster(s: State)
    requires Handshake(s)
    ensures Handshake(StepPoster(s))
  {
    if s.p.pc == CopyRate {
      assert s.h.published == StepPoster(s).h.adopted;
    }
  }

  lemma HandshakeLaunch(s: State, a: Action)
    requires Handshake(s)
    ensures Handshake(StepLaunch(s, a))
  {
  }

  lemma HandshakeStep(s: State, a: Action)
    requires Handshake(s)
    ensures Handshake(Step(s, a))
  {
    match a
    case MonitorStep(util, junk) => HandshakeMonitor(s, util, junk);
    case PosterStep => HandshakePoster(s);
    case _ => HandshakeLaunch(s, a);
  }

  lemma {:induction false} HandshakeAlways(limit: nat, garbage: int, as_: seq<Action>)
    ensures Handshake(Run(limit, garbage, as_))
  {
    if as_ != [] {
      var n := |as_| - 1;
      HandshakeAlways(limit, garbage, as_[..n]);
      HandshakeStep(Run(limit, garbage, as_[..n]), as_[n]);
    }
  }

  /** Exactly-once delivery: in every interleaving the adopted rates are the published ones, in
      order, at most one behind; no rate is published while another waits; and whenever the flag
      is down and no publication is in progress the poster's copy is the shared rate. */
  lemma ExactlyOnceDelivery(limit: nat, garbage: int, as_: seq<Action>)
    ensures var s := Run(limit, garbage, as_);
      && s.h.adopted <= s.h.published
      && |s.h.published| <= |s.h.adopted| + 1
      && (s.m.pc == StoreRate || s.m.pc == StoreChanged ==> s.h.adopted == s.h.published)
      && (!s.sh.changed && s.m.pc != StoreChanged && s.m.pc != FinishInit ==> s.p.copy == s.sh.rate)
  {
    HandshakeAlways(limit, garbage, as_);
  }

  /** Mutual exclusion on the rate: while the poster copies it the monitor is at its flag test. */
  lemma MutualExclusion(limit: nat, garbage: int, as_: seq<Action>)
    ensures var s := Run(limit, garbage, as_);
      s.p.pc == CopyRate || s.p.pc == ClearChanged ==> s.m.pc == LoadChanged
  {
    HandshakeAlways(limit, garbage, as_);
  }

  // ---------------------------------------------------------------- positive rates

  ghost predicate AllPositive(s: seq<int>) { forall i :: 0 <= i < |s| ==> s[i] >= 1 }

  ghost predicate Positive(s: State) {
    && s.sh.rate >= 1
    && AllPositive(s.h.published)
    && (s.m.pc == StoreRate ==> s.m.newRate >= 1)
  }

  lemma PositiveStep(s: State, a: Action)
    requires Positive(s)
    ensures Positive(Step(s, a))
  {
  }

  lemma {:induction false} PositiveAlways(limit: nat, garbage: int, as_: seq<Action>)
    ensures Positive(Run(limit, garbage, as_))
  {
    if as_ != [] {
      var n := |as_| - 1;
      PositiveAlways(limit, garbage, as_[..n]);
      PositiveStep(Run(limit, garbage, as_[..n]), as_[n]);
    }
  }

  // ---------------------------------------------------------------- tokens

  function Sum(s: seq<int>): (n: int) {
    if s == [] then 0 else Sum(s[..|s| - 1]) + s[|s| - 1]
  }

  /** Tokens that a cycle at this rate posts. */
  function TokensOf(rate: int): (n: nat) { if rate > 0 then rate else 0 }

  function TotalTokens(rates: seq<int>): (n: nat) {
    if rates == [] then 0 else TotalTokens(rates[..|rates| - 1]) + TokensOf(rates[|rates| - 1])
  }

  lemma {:induction false} AtLeastOneEach(rates: seq<int>)
    requires AllPositive(rates)
    ensures TotalTokens(rates) >= |rates|
  {
    if rates != [] { AtLeastOneEach(rates[..|rates| - 1]); }
  }

  /** Tokens of the cycle that is under way. */
  function UnderWay(s: State): (n: int) {
    if s.p.pc == PostTokens || s.p.pc == WriteAvg || s.p.pc == BumpIdx then s.p.i else 0
  }

  ghost predicate TokensBalance(s: State) {
    && s.sh.tokens + s.h.passes == s.limit + s.h.posted
    && s.h.posted == TotalTokens(s.h.cycles) + UnderWay(s)
    && (s.p.pc == PostTokens ==> 0 <= s.p.i <= TokensOf(s.p.copy))
    && (s.p.pc == WriteAvg || s.p.pc == BumpIdx ==> s.p.i == TokensOf(s.p.copy))
    && |s.h.cycles| == s.sh.idx
  }

  lemma TokensPoster(s: State)
    requires TokensBalance(s)
    ensures TokensBalance(StepPoster(s))
  {
    var r := StepPoster(s);
    if s.p.pc == BumpIdx {
      assert r.h.cycles[..|r.h.cycles| - 1] == s.h.cycles;
    }
  }

  lemma TokensOthers(s: State, a: Action)
    requires TokensBalance(s) && !a.PosterStep?
    ensures TokensBalance(Step(s, a))
  {
  }

  lemma {:induction false} TokensAlways(limit: nat, garbage: int, as_: seq<Action>)
    ensures TokensBalance(Run(limit, garbage, as_))
  {
    if as_ != [] {
      var n := |as_| - 1;
      TokensAlways(limit, garbage, as_[..n]);
      if as_[n].PosterStep? {
        TokensPoster(Run(limit, garbage, as_[..n]));
      } else {
        TokensOthers(Run(limit, garbage, as_[..n]), as_[n]);
      }
    }
  }

  lemma LimitStep(s: State, a: Action)
    ensures Step(s, a).limit == s.limit
  {
  }

  lemma {:induction false} LimitIsFixed(limit: nat, garbage: int, as_: seq<Action>)
    ensures Run(limit, garbage, as_).limit == limit
  {
    if as_ != [] {
      var n := |as_| - 1;
      LimitIsFixed(limit, garbage, as_[..n]);
      LimitStep(Run(limit, garbage, as_[..n]), as_[n]);
    }
  }

  // ---------------------------------------------------------------- which rates the cycles post

  /** The poster has taken a step. */
  predicate Started(as_: seq<Action>) { exists i :: 0 <= i < |as_| && as_[i].PosterStep? }

  /** The last store of init_attr came before the poster's first step, its first test of the flag. */
  predicate InitFirst(as_: seq<Action>) {
    if as_ == [] then false
    else
      var n := |as_| - 1;
      InitFirst(as_[..n]) || (as_[n].MonitorStep? && !Started(as_[..n]))
  }

  /** The first `early` cycles post garbage, all others an adopted rate. */
  ghost predicate Rated(s: State, garbage: int, early: nat) {
    && early <= |s.h.cycles|
    && (forall j :: 0 <= j < early ==> s.h.cycles[j] == garbage)
    && (forall j :: early <= j < |s.h.cycles| ==> s.h.cycles[j] in s.h.adopted)
    && (s.h.adopted != [] ==> s.p.copy in s.h.adopted)
    && (s.h.adopted == [] ==> s.p.copy == garbage && early == |s.h.cycles|)
  }

  /** How that depends on who came first. */
  ghost predicate FirstCycle(s: State, started: bool, first: bool, early: nat) {
    && (!started ==>
          s.p.pc == CheckChanged && s.h.cycles == [] && s.h.adopted == [] &&
          (first <==> s.sh.changed) && (s.m.pc == FinishInit <==> !first))
    && (started && first ==> early == 0 && (s.h.adopted == [] ==> s.p.pc == CopyRate))
    && (started && !first ==>
          if s.h.cycles == [] then s.h.adopted == [] && s.p.pc !in {CheckChanged, CopyRate, ClearChanged}
          else early >= 1)
  }

  lemma RatedStep(s: State, a: Action, garbage: int, early: nat) returns (next: nat)
    requires Rated(s, garbage, early)
    ensures Rated(Step(s, a), garbage, next)
    ensures next == if a.PosterStep? && s.p.pc == BumpIdx && s.h.adopted == [] then early + 1 else early
  {
    next := if a.PosterStep? && s.p.pc == BumpIdx && s.h.adopted == [] then early + 1 else early;
  }

  lemma FirstCycleStep(s: State, a: Action, started: bool, first: bool, early: nat, next: nat)
    requires FirstCycle(s, started, first, early) && early <= |s.h.cycles|
    requires next == if a.PosterStep? && s.p.pc == BumpIdx && s.h.adopted == [] then early + 1 else early
    ensures FirstCycle(Step(s, a), started || a.PosterStep?, first || (a.MonitorStep? && !started), next)
  {
  }

  lemma InitFirstStep(as_: seq<Action>)
    requires as_ != []
    ensures var n := |as_| - 1;
      && (Started(as_) <==> Started(as_[..n]) || as_[n].PosterStep?)
      && (InitFirst(as_) <==> InitFirst(as_[..n]) || (as_[n].MonitorStep? && !Started(as_[..n])))
  {
  }

  ghost predicate Cycles(s: State, garbage: int, started: bool, first: bool, early: nat) {
    Rated(s, garbage, early) && FirstCycle(s, started, first, early)
  }

  lemma CyclesStep(s: State, a: Action, garbage: int, started: bool, first: bool, early: nat) returns (next: nat)
    requires Cycles(s, garbage, started, first, early)
    ensures Cycles(Step(s, a), garbage, started || a.PosterStep?, first || (a.MonitorStep? && !started), next)
  {
    next := RatedStep(s, a, garbage, early);
    FirstCycleStep(s, a, started, first, early, next);
  }

  lemma {:induction false} CyclesAlways(limit: nat, garbage: int, as_: seq<Action>) returns (early: nat)
    ensures Cycles(Run(limit, garbage, as_), garbage, Started(as_), InitFirst(as_), early)
  {
    if as_ == [] {
      early := 0;
    } else {
      var n := |as_| - 1;
      early := CyclesAlways(limit, garbage, as_[..n]);
      var s, started, first := Run(limit, garbage, as_[..n]), Started(as_[..n]), InitFirst(as_[..n]);
      early := CyclesStep(s, as_[n], garbage, started, first, early);
      InitFirstStep(as_);
    }
  }

  /** In every interleaving the first few cycles post whatever the poster's copy happened to hold and
      all others a published rate; and there are no such first cycles if and only if init_attr
      raised the flag before the poster first tested it (or no cycle is done yet). */
  lemma CycleRates(limit: nat, garbage: int, as_: seq<Action>) returns (early: nat)
    ensures var s := Run(limit, garbage, as_);
      && early <= |s.h.cycles|
      && (forall j :: 0 <= j < early ==> s.h.cycles[j] == garbage)
      && (forall j :: early <= j < |s.h.cycles| ==> s.h.cycles[j] in s.h.published)
      && (early == 0 <==> InitFirst(as_) || s.h.cycles == [])
  {
    early := CyclesAlways(limit, garbage, as_);
    HandshakeAlways(limit, garbage, as_);
    var s := Run(limit, garbage, as_);
    assert forall r :: r in s.h.adopted ==> r in s.h.published;
  }

  /** A poster that is too early, with a copy that is not positive: a whole cycle without a token. */
  lemma EarlyPosterPostsNothing(limit: nat, garbage: int)
    requires garbage <= 0
    ensures var s := Run(limit, garbage, Times(PosterStep, 2) + Times(PosterStep, 3));
      s.h.cycles == [garbage] && s.h.posted == 0
  {
    var s := Start(limit, garbage);
    RunTimes(limit, garbage, [], PosterStep, 2);
    assert [] + Times(PosterStep, 2) == Times(PosterStep, 2);
    RunTimes(limit, garbage, Times(PosterStep, 2), PosterStep, 3);
    FourSteps(s, PosterStep);
    PosterCompletes(StepTimes(s, PosterStep, 2));
  }

  // ---------------------------------------------------------------- launch counts

  /** One launch, uninterrupted: it is blocked exactly while there is no token; otherwise it takes one
      and is counted.  A failed wait is counted without a token. */
  lemma LaunchCounts(s: State)
    ensures Step(s, WaitOk) == s <==> s.sh.tokens == 0
    ensures s.sh.tokens > 0 ==>
      Step(Step(s, WaitOk), CountLaunch) ==
        s.(sh := s.sh.(tokens := s.sh.tokens - 1, launches := s.sh.launches + 1),
           h := s.h.(passes := s.h.passes + 1))
    ensures Step(Step(s, WaitFails), CountLaunch) ==
      s.(sh := s.sh.(launches := s.sh.launches + 1), h := s.h.(fails := s.h.fails + 1))
  {
  }

  /** The current count without what the newest sample has already seen. */
  function Unsampled(s: State): (n: int) {
    if s.p.pc == PostTokens || s.h.samples == [] then s.sh.launches else s.sh.launches - Last(s.h.samples)
  }

  /** What happened to launches in a run, read off its actions: waits that found a token, waits that
      failed, launches counted, and counted launches that a reset threw away unsampled. */
  datatype Tally = Tally(passed: nat, failed: nat, counted: nat, discarded: int)

  function Tallying(t: Tally, s: State, a: Action): (r: Tally) {
    match a
    case WaitOk => if s.sh.tokens > 0 then t.(passed := t.passed + 1) else t
    case WaitFails => t.(failed := t.failed + 1)
    case CountLaunch => if s.uncounted > 0 then t.(counted := t.counted + 1) else t
    case PosterStep => if s.p.pc == ResetLaunches then t.(discarded := t.discarded + Unsampled(s)) else t
    case MonitorStep(_, _) => t
  }

  function TallyOf(limit: nat, garbage: int, as_: seq<Action>): (t: Tally) {
    if as_ == [] then Tally(0, 0, 0, 0)
    else
      var n := |as_| - 1;
      Tallying(TallyOf(limit, garbage, as_[..n]), Run(limit, garbage, as_[..n]), as_[n])
  }

  ghost predicate Tallied(s: State, t: Tally) {
    && s.h.passes == t.passed && s.h.fails == t.failed
    && t.counted + s.uncounted == t.passed + t.failed
    && Sum(s.h.samples) + t.discarded + Unsampled(s) == t.counted
    && t.discarded >= 0 && Unsampled(s) >= 0
  }

  lemma TalliedPoster(s: State, t: Tally)
    requires Tallied(s, t)
    ensures Tallied(StepPoster(s), Tallying(t, s, PosterStep))
  {
    var r := StepPoster(s);
    if r.h.samples != s.h.samples {
      assert r.h.samples[..|r.h.samples| - 1] == s.h.samples;
    }
  }

  lemma TalliedOthers(s: State, t: Tally, a: Action)
    requires Tallied(s, t) && !a.PosterStep?
    ensures Tallied(Step(s, a), Tallying(t, s, a))
  {
  }

  lemma {:induction false} TalliedAlways(limit: nat, garbage: int, as_: seq<Action>)
    ensures Tallied(Run(limit, garbage, as_), TallyOf(limit, garbage, as_))
  {
    if as_ != [] {
      var n := |as_| - 1;
      TalliedAlways(limit, garbage, as_[..n]);
      if as_[n].PosterStep? {
        TalliedPoster(Run(limit, garbage, as_[..n]), TallyOf(limit, garbage, as_[..n]));
      } else {
        TalliedOthers(Run(limit, garbage, as_[..n]), TallyOf(limit, garbage, as_[..n]), as_[n]);
      }
    }
  }

  /** Every launch is accounted for, over every interleaving, although launches are counted, sampled
      and reset without a lock: those let through and those failed are in exactly one sample, or
      counted since the newest sample, or thrown away by a reset, or not counted yet. */
  lemma LaunchesAccounted(limit: nat, garbage: int, as_: seq<Action>)
    ensures var s, t := Run(limit, garbage, as_), TallyOf(limit, garbage, as_);
      && t.passed + t.failed == Sum(s.h.samples) + Unsampled(s) + t.discarded + s.uncounted
      && s.h.passes == t.passed && s.h.fails == t.failed
      && Unsampled(s) >= 0 && t.discarded >= 0
  {
    TalliedAlways(limit, garbage, as_);
  }

  /** So the samples never overcount, and fall short by exactly what was counted after the newest
      sample or between a sample and the reset that follows it. */
  lemma SamplesNeverOvercount(limit: nat, garbage: int, as_: seq<Action>)
    ensures var s, t := Run(limit, garbage, as_), TallyOf(limit, garbage, as_);
      && Sum(s.h.samples) + s.uncounted <= s.h.passes + s.h.fails
      && (Sum(s.h.samples) + s.uncounted == s.h.passes + s.h.fails <==> Unsampled(s) == 0 && t.discarded == 0)
  {
    LaunchesAccounted(limit, garbage, as_);
  }

  /** Token conservation for any number of launch threads, over every interleaving.  After n completed
      cycles, launches let through are at most the initial tokens, what the n cycles posted, and what
      the current one has posted so far; and if init_attr was first, every cycle posted a published
      rate and at least n tokens have been posted.  The passes are the waits that found a token, and
      every launch that passed or failed has been counted or is about to be. */
  lemma TokenConservation(limit: nat, garbage: int, as_: seq<Action>)
    ensures var s := Run(limit, garbage, as_);
      && s.sh.tokens + s.h.passes == limit + s.h.posted
      && s.h.passes <= limit + TotalTokens(s.h.cycles) + UnderWay(s)
      && UnderWay(s) <= TokensOf(s.p.copy)
      && |s.h.cycles| == s.sh.idx
      && s.h.passes == TallyOf(limit, garbage, as_).passed && s.h.fails == TallyOf(limit, garbage, as_).failed
      && TallyOf(limit, garbage, as_).counted + s.uncounted == s.h.passes + s.h.fails
      && (InitFirst(as_) ==>
            s.h.posted >= |s.h.cycles| && forall k :: 0 <= k < |s.h.cycles| ==> s.h.cycles[k] in s.h.published)
  {
    LimitIsFixed(limit, garbage, as_);
    TokensAlways(limit, garbage, as_);
    TalliedAlways(limit, garbage, as_);
    var early := CycleRates(limit, garbage, as_);
    if InitFirst(as_) {
      PositiveAlways(limit, garbage, as_);
      AtLeastOneEach(Run(limit, garbage, as_).h.cycles);
    }
  }

  // ---------------------------------------------------------------- averages

  ghost predicate Sampled(s: State) {
    && s.p.ring == RingAfter(s.h.samples)
    && s.p.loop == |s.h.samples| + (if s.p.pc in {CopyRate, ClearChanged, ResetLaunches, PostTokens} then 1 else 0)
    && |s.h.samples| == s.sh.idx + (if s.p.pc == WriteAvg || s.p.pc == BumpIdx then 1 else 0)
    && (s.p.pc == WriteAvg ==> s.p.newAvg == Average(LastTen(s.h.samples)))
  }

  /** The sample goes to the slot after the newest one. */
  lemma SampledStores(ring: RingSeq, loop: nat, samples: seq<int>, sample: int)
    requires ring == RingAfter(samples) && loop == |samples| + 1
    ensures var stored := ring[loop % LAUNCH_SAMPLES := sample];
      stored == RingAfter(samples + [sample]) && Average(stored) == Average(LastTen(samples + [sample]))
  {
    assert (samples + [sample])[..|samples|] == samples;
    RingAverage(samples + [sample]);
  }

  lemma SampledPoster(s: State)
    requires Sampled(s)
    ensures Sampled(StepPoster(s))
  {
    if s.p.pc == PostTokens && s.p.i >= s.p.copy {
      SampledStores(s.p.ring, s.p.loop, s.h.samples, s.sh.launches);
    }
  }

  lemma SampledOthers(s: State, a: Action)
    requires Sampled(s) && !a.PosterStep?
    ensures Sampled(Step(s, a))
  {
  }

  lemma {:induction false} SampledAlways(limit: nat, garbage: int, as_: seq<Action>)
    ensures Sampled(Run(limit, garbage, as_))
  {
    if as_ != [] {
      var n := |as_| - 1;
      SampledAlways(limit, garbage, as_[..n]);
      if as_[n].PosterStep? {
        SampledPoster(Run(limit, garbage, as_[..n]));
      } else {
        SampledOthers(Run(limit, garbage, as_[..n]), as_[n]);
      }
    }
  }

  /** Average k is that of the ten samples up to sample k. */
  ghost predicate AveragesExact(s: State) {
    && |s.h.averages| == s.sh.idx + (if s.p.pc == BumpIdx then 1 else 0)
    && |s.h.averages| <= |s.h.samples|
    && forall k :: 0 <= k < |s.h.averages| ==> s.h.averages[k] == Average(LastTen(s.h.samples[..k + 1]))
  }

  lemma AveragesStep(s: State, a: Action)
    requires Sampled(s) && AveragesExact(s)
    ensures AveragesExact(Step(s, a))
  {
    var r := Step(s, a);
    forall k | 0 <= k < |r.h.averages| ensures r.h.averages[k] == Average(LastTen(r.h.samples[..k + 1])) {
      if k < |s.h.averages| {
        assert r.h.samples[..k + 1] == s.h.samples[..k + 1];
      } else {
        assert r.h.samples[..k + 1] == s.h.samples;
      }
    }
  }

  lemma {:induction false} AveragesAlways(limit: nat, garbage: int, as_: seq<Action>)
    ensures AveragesExact(Run(limit, garbage, as_))
  {
    if as_ != [] {
      var n := |as_| - 1;
      AveragesAlways(limit, garbage, as_[..n]);
      SampledAlways(limit, garbage, as_[..n]);
      AveragesStep(Run(limit, garbage, as_[..n]), as_[n]);
    }
  }

  /** The slot that is not being written holds the newest finished average; once two cycles are
      done, the other one holds the average before it. */
  ghost predicate SlotsHold(s: State) {
    var i := s.sh.idx;
    && |s.h.averages| == i + (if s.p.pc == BumpIdx then 1 else 0)
    && (i >= 1 ==> Slot(s.sh, i + 1) == s.h.averages[i - 1])
    && (s.p.pc == BumpIdx ==> Slot(s.sh, i) == s.h.averages[i])
    && (s.p.pc != BumpIdx && i >= 2 ==> Slot(s.sh, i) == s.h.averages[i - 2])
  }

  lemma SlotsPoster(s: State)
    requires SlotsHold(s)
    ensures SlotsHold(StepPoster(s))
  {
  }

  lemma SlotsOthers(s: State, a: Action)
    requires SlotsHold(s) && !a.PosterStep?
    ensures SlotsHold(Step(s, a))
  {
  }

  lemma {:induction false} SlotsAlways(limit: nat, garbage: int, as_: seq<Action>)
    ensures SlotsHold(Run(limit, garbage, as_))
  {
    if as_ != [] {
      var n := |as_| - 1;
      SlotsAlways(limit, garbage, as_[..n]);
      if as_[n].PosterStep? {
        SlotsPoster(Run(limit, garbage, as_[..n]));
      } else {
        SlotsOthers(Run(limit, garbage, as_[..n]), as_[n]);
      }
    }
  }

  /** Between poster cycles, after at least two of them: slot idx + 1 holds the average of the ten
      newest samples, slot idx (which the monitor calls the current one) the average before it, and
      both are positive. */
  lemma SlotsHoldNewestAverages(limit: nat, garbage: int, as_: seq<Action>)
    ensures var s := Run(limit, garbage, as_);
      var n := |s.h.samples|;
      s.p.pc == CheckChanged && s.sh.idx >= 2 ==>
        && n == s.sh.idx
        && Slot(s.sh, s.sh.idx + 1) == Average(LastTen(s.h.samples)) >= 1
        && Slot(s.sh, s.sh.idx) == Average(LastTen(s.h.samples[..n - 1])) >= 1
  {
    SampledAlways(limit, garbage, as_);
    AveragesAlways(limit, garbage, as_);
    SlotsAlways(limit, garbage, as_);
    var s := Run(limit, garbage, as_);
    var n := |s.h.samples|;
    assert s.h.samples[..n] == s.h.samples;
  }

  // ---------------------------------------------------------------- what a tick reads

  /** Either slot holds the newest average of its parity. */
  lemma SlotIsNewest(s: State, k: nat) returns (a: nat)
    requires SlotsHold(s) && s.sh.idx >= 2
    ensures |s.h.averages| - 2 <= a < |s.h.averages| && a % 2 == k % 2 && Slot(s.sh, k) == s.h.averages[a]
    ensures k <= s.sh.idx + 1 ==> k <= a + 2
  {
    var n := |s.h.averages|;
    a := if (n - 1) % 2 == k % 2 then n - 1 else n - 2;
    assert Slot(s.sh, k) == Slot(s.sh, if k % 2 == s.sh.idx % 2 then s.sh.idx else s.sh.idx + 1);
  }

  /** The monitor found the averages number `a` and `b`. */
  ghost predicate Read(s: State, a: nat, b: nat) {
    var i, averages := s.m.idx, s.h.averages;
    && (s.m.pc in {ReadCur, ReadLast, LoadRate} ==> i <= s.sh.idx)
    && (i >= 2 && s.m.pc in {ReadLast, LoadRate} ==>
          i - 2 <= a < |averages| && a % 2 == i % 2 && s.m.cur == averages[a])
    && (i >= 2 && s.m.pc == LoadRate ==>
          i - 1 <= b < |averages| && b % 2 != i % 2 && s.m.last == averages[b] && a <= b + 1)
  }

  lemma ReadMonitor(s: State, util: nat, junk: int, a: nat, b: nat) returns (a': nat, b': nat)
    requires SlotsHold(s) && Read(s, a, b)
    ensures Read(StepMonitor(s, util, junk), a', b')
  {
    a', b' := a, b;
    if s.m.idx >= 2 && s.m.pc == ReadCur {
      a' := SlotIsNewest(s, s.m.idx);
    } else if s.m.idx >= 2 && s.m.pc == ReadLast {
      b' := SlotIsNewest(s, s.m.idx + 1);
    }
  }

  lemma ReadOthers(s: State, act: Action, a: nat, b: nat)
    requires Read(s, a, b) && !act.MonitorStep?
    ensures Read(Step(s, act), a, b)
  {
    assert s.h.averages <= Step(s, act).h.averages;
  }

  lemma {:induction false} ReadAlways(limit: nat, garbage: int, as_: seq<Action>) returns (a: nat, b: nat)
    ensures Read(Run(limit, garbage, as_), a, b)
  {
    a, b := 0, 0;
    if as_ != [] {
      var n := |as_| - 1;
      a, b := ReadAlways(limit, garbage, as_[..n]);
      SlotsAlways(limit, garbage, as_[..n]);
      match as_[n]
      case MonitorStep(util, junk) => a, b := ReadMonitor(Run(limit, garbage, as_[..n]), util, junk, a, b);
      case _ => ReadOthers(Run(limit, garbage, as_[..n]), as_[n], a, b);
    }
  }

  /** What a tick gets when it reads index and slots one by one while the poster writes them.  With
      index i it sees two published averages, of i's parity and not older than i - 2, and of the
      other parity and not older than i - 1; the first is at most one cycle newer than the second.
      If no average was written meanwhile, they are exactly numbers i - 2 and i - 1. */
  lemma TickSeesAverages(limit: nat, garbage: int, as_: seq<Action>) returns (a: nat, b: nat)
    ensures var s := Run(limit, garbage, as_);
      var i, n := s.m.idx, |s.h.averages|;
      s.m.pc == LoadRate && i >= 2 ==>
        && n <= |s.h.samples|
        && i - 2 <= a < n && a % 2 == i % 2 && s.m.cur == s.h.averages[a] == Average(LastTen(s.h.samples[..a + 1]))
        && i - 1 <= b < n && b % 2 != i % 2 && s.m.last == s.h.averages[b] == Average(LastTen(s.h.samples[..b + 1]))
        && a <= b + 1
        && (n == i ==> a == i - 2 && b == i - 1)
  {
    a, b := ReadAlways(limit, garbage, as_);
    AveragesAlways(limit, garbage, as_);
  }

  // ---------------------------------------------------------------- schedule

  function Min(x: int, y: int): (n: int) { if x < y then x else y }

  predicate Publishing(s: State) { s.m.pc == StoreRate || s.m.pc == StoreChanged }

  /** The rate as a function of the tick count during the ramp, and how many rates have been
      published by then; later, publications happen at correction ticks only. */
  ghost predicate Scheduled(s: State) {
    var k := s.m.modTimes;
    && (s.m.pc == FinishInit ==> k == 0)
    && (!Publishing(s) && s.m.pc != FinishInit ==> |s.h.published| >= Min(k + 1, 4))
    && (Publishing(s) ==> k >= 1 && |s.h.published| >= Min(k, 4) && (k <= SAMPLE_TICKS || IsCorrectionTick(k)))
    && (k <= SAMPLE_TICKS ==>
          if s.m.pc == StoreRate then s.sh.rate == Min(k, 4) && s.m.newRate == Min(k + 1, 4)
          else s.sh.rate == Min(k + 1, 4))
  }

  lemma ScheduledMonitor(s: State, util: nat, junk: int)
    requires Positive(s) && Scheduled(s)
    ensures Scheduled(StepMonitor(s, util, junk))
  {
  }

  lemma ScheduledOthers(s: State, a: Action)
    requires Scheduled(s) && !a.MonitorStep?
    ensures Scheduled(Step(s, a))
  {
  }

  lemma {:induction false} ScheduledAlways(limit: nat, garbage: int, as_: seq<Action>)
    ensures Scheduled(Run(limit, garbage, as_))
  {
    if as_ != [] {
      var n := |as_| - 1;
      ScheduledAlways(limit, garbage, as_[..n]);
      PositiveAlways(limit, garbage, as_[..n]);
      match as_[n]
      case MonitorStep(util, junk) => ScheduledMonitor(Run(limit, garbage, as_[..n]), util, junk);
      case _ => ScheduledOthers(Run(limit, garbage, as_[..n]), as_[n]);
    }
  }

  /** From `s` to `r` the rate changes only as the schedule allows. */
  ghost predicate OnSchedule(s: State, r: State) {
    var k := s.m.modTimes;
    && (k > SAMPLE_TICKS && r.sh.rate != s.sh.rate ==> k % SAMPLE_TICKS == 0 && k >= 2 * SAMPLE_TICKS)
    && (s.m.pc == LoadChanged && s.sh.changed ==> r.m.modTimes == k)
  }

  lemma OnScheduleStep(s: State, a: Action)
    requires Scheduled(s)
    ensures OnSchedule(s, Step(s, a))
  {
  }

  /** In every run the rate is at least 1, and outside a publication it is min(1 + k, 4) after k
      unblocked ticks for k up to 50. */
  lemma RampUp(limit: nat, garbage: int, as_: seq<Action>)
    ensures var s := Run(limit, garbage, as_);
      && s.sh.rate >= 1
      && (s.m.modTimes <= SAMPLE_TICKS && s.m.pc != StoreRate ==> s.sh.rate == Min(1 + s.m.modTimes, 4))
  {
    PositiveAlways(limit, garbage, as_);
    ScheduledAlways(limit, garbage, as_);
  }

  /** After fifty ticks a step changes the rate only at a tick count that is a multiple of 50, from
      100 on; a tick blocked by a pending change is not counted. */
  lemma CorrectionsOnly(limit: nat, garbage: int, as_: seq<Action>, a: Action)
    ensures OnSchedule(Run(limit, garbage, as_), Step(Run(limit, garbage, as_), a))
  {
    ScheduledAlways(limit, garbage, as_);
    OnScheduleStep(Run(limit, garbage, as_), a);
  }

  // ---------------------------------------------------------------- division by the average

  /** Each poster cycle adopts at most one rate. */
  ghost predicate Lagging(s: State) {
    |s.h.adopted| <= s.sh.idx + (if s.p.pc == CheckChanged || s.p.pc == CopyRate then 0 else 1)
  }

  lemma LaggingStep(s: State, a: Action)
    requires Lagging(s)
    ensures Lagging(Step(s, a))
  {
  }

  lemma {:induction false} LaggingAlways(limit: nat, garbage: int, as_: seq<Action>)
    ensures Lagging(Run(limit, garbage, as_))
  {
    if as_ != [] {
      var n := |as_| - 1;
      LaggingAlways(limit, garbage, as_[..n]);
      LaggingStep(Run(limit, garbage, as_[..n]), as_[n]);
    }
  }

  /** The monitor is inside a tick and has not decided yet. */
  predicate Reading(s: State) { s.m.pc in {LoadIdx, ReadCur, ReadLast, LoadRate} }

  /** A third or later unblocked tick implies two finished cycles: the rates 1 to 3 were published
      one by one and each was adopted in a cycle of its own. */
  lemma TwoCyclesDone(s: State)
    requires Handshake(s) && Scheduled(s) && Lagging(s)
    requires s.m.modTimes >= 2 && Reading(s)
    ensures s.sh.idx >= 2
  {
  }

  lemma SlotsPositive(s: State, k: nat)
    requires AveragesExact(s) && SlotsHold(s) && s.sh.idx >= 2
    ensures Slot(s.sh, k) >= 1
  {
    var i := s.sh.idx;
    assert Slot(s.sh, i) >= 1 && Slot(s.sh, i + 1) >= 1;
    assert k % 2 == i % 2 || k % 2 == (i + 1) % 2;
  }

  /** From the third tick on both averages the monitor reads are positive. */
  ghost predicate ReadsUsable(s: State) {
    && !s.fault
    && (s.m.modTimes >= 2 ==>
          && (s.m.pc == ReadLast || s.m.pc == LoadRate ==> s.m.cur >= 1)
          && (s.m.pc == LoadRate ==> s.m.last >= 1 && s.m.finite))
  }

  lemma ReadsStep(s: State, a: Action)
    requires ReadsUsable(s) && s.sh.rate >= 1
    requires s.m.modTimes >= 2 && Reading(s) ==> Slot(s.sh, s.m.idx) >= 1 && Slot(s.sh, s.m.idx + 1) >= 1
    ensures ReadsUsable(Step(s, a))
  {
  }

  /** In no interleaving does a correction, or any tick from the third on, see an average or a rate
      below 1, although the averages start at 0 and are read without a lock while the poster writes
      them. */
  lemma {:induction false} LaterTicksReadPositive(limit: nat, garbage: int, as_: seq<Action>)
    ensures ReadsUsable(Run(limit, garbage, as_))
  {
    if as_ != [] {
      var n := |as_| - 1;
      var p := as_[..n];
      LaterTicksReadPositive(limit, garbage, p);
      PositiveAlways(limit, garbage, p);
      var s := Run(limit, garbage, p);
      if s.m.modTimes >= 2 && Reading(s) {
        HandshakeAlways(limit, garbage, p);
        ScheduledAlways(limit, garbage, p);
        LaggingAlways(limit, garbage, p);
        TwoCyclesDone(s);
        AveragesAlways(limit, garbage, p);
        SlotsAlways(limit, garbage, p);
        SlotsPositive(s, s.m.idx);
        SlotsPositive(s, s.m.idx + 1);
      }
      ReadsStep(s, as_[n]);
    }
  }

  /** What a correction of a run decides: at every tick count that is a multiple of 50 from 100 on,
      the whole-number correction of the shared rate by the two averages read; at any other count
      above 50, nothing. */
  lemma CorrectionInRun(limit: nat, garbage: int, as_: seq<Action>, util: nat, junk: int)
    ensures var s := Run(limit, garbage, as_);
      var k, r := s.m.modTimes + 1, Step(s, MonitorStep(util, junk));
      s.m.pc == LoadRate && k > 50 ==>
        && r.m.modTimes == k && s.sh.rate >= 1 && s.m.cur >= 1 && s.m.last >= 1
        && (k % 50 != 0 ==> r.m.pc == LoadChanged && r.sh == s.sh)
        && (k % 50 == 0 ==>
              var u := if s.m.util >= 1 then WholeStep(s.m.util, limit, s.m.cur) else if junk < 0 then 1 else junk;
              r.m.pc == StoreRate && r.m.newRate == WholeRate(s.sh.rate, u, s.m.util < limit, s.m.cur, s.m.last))
  {
    LaterTicksReadPositive(limit, garbage, as_);
    PositiveAlways(limit, garbage, as_);
    LimitIsFixed(limit, garbage, as_);
    CorrectionStep(Run(limit, garbage, as_), util, junk);
  }

  lemma CorrectionStep(s: State, util: nat, junk: int)
    requires s.m.pc == LoadRate && s.m.modTimes >= 50 ==> s.sh.rate >= 1 && s.m.cur >= 1 && s.m.last >= 1
    ensures var k, r := s.m.modTimes + 1, Step(s, MonitorStep(util, junk));
      s.m.pc == LoadRate && k > 50 ==>
        && r.m.modTimes == k
        && (k % 50 != 0 ==> r.m.pc == LoadChanged && r.sh == s.sh)
        && (k % 50 == 0 ==>
              var u := if s.m.util >= 1 then WholeStep(s.m.util, s.limit, s.m.cur) else if junk < 0 then 1 else junk;
              r.m.pc == StoreRate && r.m.newRate == WholeRate(s.sh.rate, u, s.m.util < s.limit, s.m.cur, s.m.last))
  {
    if s.m.pc == LoadRate && s.m.modTimes >= 50 {
      DecideIsWhole(s.m.modTimes + 1, s.sh.rate, s.m.util, s.limit, s.m.cur, s.m.last, junk);
    }
  }

  /** Tick number k has divided by an average of 0. */
  predicate DividedByZero(s: State, k: nat) {
    s.m.pc == LoadRate && s.m.modTimes + 1 == k && !s.m.finite
  }

  const TICK := MonitorStep(1, 0)

  /** The flag goes up, the poster adopts the rate, the first tick reads slot 0. */
  function ToFirstTick(): (as_: seq<Action>) { [TICK] + Times(PosterStep, 3) + Times(TICK, 4) }

  /** The first tick publishes, the poster finishes its cycle and adopts, the second tick reads slot 1. */
  function ToSecondTick(): (as_: seq<Action>) {
    ToFirstTick() + Times(TICK, 3) + Times(PosterStep, 2) + Times(PosterStep, 3) + Times(PosterStep, 3) + Times(TICK, 4)
  }

  lemma FirstTickDivides(limit: nat, garbage: int)
    ensures var s := Run(limit, garbage, ToFirstTick());
      DividedByZero(s, 1) && s.p.pc == ResetLaunches && s.p.copy == 1 && !s.sh.changed && s.sh.rate == 1 &&
      s.sh.idx == 0 && s.sh.avg1 == 0
  {
    var s1 := Step(Start(limit, garbage), TICK);
    ContinueSnoc(Start(limit, garbage), [], TICK);
    assert [] + [TICK] == [TICK];
    RunTimes(limit, garbage, [TICK], PosterStep, 3);
    PosterAdopts(s1);
    RunTimes(limit, garbage, [TICK] + Times(PosterStep, 3), TICK, 4);
    TickReads(StepTimes(s1, PosterStep, 3), 1, 0);
  }

  lemma SecondTickDivides(limit: nat, garbage: int)
    ensures DividedByZero(Run(limit, garbage, ToSecondTick()), 2)
  {
    FirstTickDivides(limit, garbage);
    var a1 := ToFirstTick();
    var a2 := a1 + Times(TICK, 3);
    var a3 := a2 + Times(PosterStep, 2);
    var a4 := a3 + Times(PosterStep, 3);
    var a5 := a4 + Times(PosterStep, 3);
    RunTimes(limit, garbage, a1, TICK, 3);
    TickRampsUp(Run(limit, garbage, a1));
    RunTimes(limit, garbage, a2, PosterStep, 2);
    PosterPostsOne(Run(limit, garbage, a2));
    RunTimes(limit, garbage, a3, PosterStep, 3);
    PosterCompletes(Run(limit, garbage, a3));
    RunTimes(limit, garbage, a4, PosterStep, 3);
    PosterAdopts(Run(limit, garbage, a4));
    RunTimes(limit, garbage, a5, TICK, 4);
    TickReads(Run(limit, garbage, a5), 1, 0);
  }

  /** Test, copy, clear. */
  lemma PosterAdopts(s: State)
    requires s.p.pc == CheckChanged && s.sh.changed
    ensures StepTimes(s, PosterStep, 3) ==
      s.(sh := s.sh.(changed := false),
         p := s.p.(pc := ResetLaunches, loop := s.p.loop + 1, copy := s.sh.rate),
         h := s.h.(adopted := s.h.adopted + [s.sh.rate]))
  {
    FourSteps(s, PosterStep);
  }

  /** The end of a cycle: sample, average, index. */
  lemma PosterCompletes(s: State)
    requires s.p.pc == PostTokens && s.p.i >= s.p.copy
    ensures var r := StepTimes(s, PosterStep, 3);
      && r.p.pc == CheckChanged && r.m == s.m && r.sh.idx == s.sh.idx + 1
      && r.sh.changed == s.sh.changed && r.sh.rate == s.sh.rate
      && (s.sh.idx % 2 == 0 ==> r.sh.avg1 == s.sh.avg1)
      && r.h.cycles == s.h.cycles + [s.p.copy] && r.h.posted == s.h.posted
      && r.h.samples == s.h.samples + [s.sh.launches] && r.p.copy == s.p.copy
  {
    FourSteps(s, PosterStep);
  }

  lemma PosterPostsOne(s: State)
    requires s.p.pc == ResetLaunches && s.p.copy == 1
    ensures var r := StepTimes(s, PosterStep, 2);
      && r.p == s.p.(pc := PostTokens, i := 1) && r.m == s.m
      && r.sh == s.sh.(launches := 0, tokens := s.sh.tokens + 1)
      && r.h == s.h.(posted := s.h.posted + 1)
  {
    FourSteps(s, PosterStep);
  }

  /** Flag, index, both averages, quotient. */
  lemma TickReads(s: State, util: nat, junk: int)
    requires s.m.pc == LoadChanged && !s.sh.changed
    ensures StepTimes(s, MonitorStep(util, junk), 4) == AfterReads(s, util)
  {
    var a := MonitorStep(util, junk);
    FourSteps(s, a);
    var s2 := s.(m := s.m.(pc := ReadCur, util := util, idx := s.sh.idx));
    assert Step(Step(s, a), a) == s2;
    var s3 := s2.(m := s2.m.(pc := ReadLast, cur := Slot(s.sh, s.sh.idx)));
    assert Step(s2, a) == s3;
  }

  lemma TickRampsUp(s: State)
    requires s.m.pc == LoadRate && s.m.modTimes < SAMPLE_TICKS && 1 <= s.sh.rate <= MIN_SAMPLE_UTIL
    ensures var r := StepTimes(s, TICK, 3);
      && r.m.pc == LoadChanged && r.m.modTimes == s.m.modTimes + 1
      && r.sh == s.sh.(rate := s.sh.rate + 1, changed := true) && r.p == s.p
  {
    TickDecides(s, 1, 0);
  }

  /** Exactly the first two ticks can divide by zero, in some interleaving each; the quotient is not
      used there. */
  lemma DividesByZeroIff(limit: nat, garbage: int, k: nat)
    requires k >= 1
    ensures (exists as_ :: DividedByZero(Run(limit, garbage, as_), k)) <==> k <= 2
  {
    if k >= 3 {
      forall as_ ensures !DividedByZero(Run(limit, garbage, as_), k) {
        LaterTicksReadPositive(limit, garbage, as_);
      }
    } else if k == 1 {
      FirstTickDivides(limit, garbage);
      assert DividedByZero(Run(limit, garbage, ToFirstTick()), k);
    } else {
      SecondTickDivides(limit, garbage);
      assert DividedByZero(Run(limit, garbage, ToSecondTick()), k);
    }
  }

  // ---------------------------------------------------------------- threads running alone

  function Times(a: Action, n: nat): (as_: seq<Action>)
    ensures |as_| == n
  {
    if n == 0 then [] else Times(a, n - 1) + [a]
  }

  function StepTimes(s: State, a: Action, n: nat): (r: State) {
    if n == 0 then s else Step(StepTimes(s, a, n - 1), a)
  }

  lemma ContinueSnoc(s: State, as_: seq<Action>, a: Action)
    ensures Continue(s, as_ + [a]) == Step(Continue(s, as_), a)
  {
    assert (as_ + [a])[..|as_|] == as_;
  }

  lemma {:induction false} ContinueTimes(s: State, a: Action, n: nat)
    ensures Continue(s, Times(a, n)) == StepTimes(s, a, n)
  {
    if n > 0 { ContinueTimes(s, a, n - 1); }
  }

  lemma ThenTimes(s: State, as_: seq<Action>, a: Action, n: nat)
    ensures Continue(s, as_ + Times(a, n)) == StepTimes(Continue(s, as_), a, n)
  {
    ContinueConcat(s, as_, Times(a, n));
    ContinueTimes(Continue(s, as_), a, n);
  }

  lemma RunTimes(limit: nat, garbage: int, as_: seq<Action>, a: Action, n: nat)
    ensures Run(limit, garbage, as_ + Times(a, n)) == StepTimes(Run(limit, garbage, as_), a, n)
  {
    ThenTimes(Start(limit, garbage), as_, a, n);
  }

  lemma FourSteps(s: State, a: Action)
    ensures StepTimes(s, a, 1) == Step(s, a)
    ensures StepTimes(s, a, 2) == Step(Step(s, a), a)
    ensures StepTimes(s, a, 3) == Step(StepTimes(s, a, 2), a)
    ensures StepTimes(s, a, 4) == Step(StepTimes(s, a, 3), a)
  {
    assert StepTimes(s, a, 0) == s;
  }

  /** The tick from `s` to `r` was counted and published `d`, or left the shared segment alone. */
  ghost predicate Ticked(s: State, r: State, d: Option<int>) {
    && r.m.pc == LoadChanged && r.m.modTimes == s.m.modTimes + 1 && r.fault == s.fault && r.p == s.p
    && r.sh == if d.Some? then s.sh.(rate := d.value, changed := true) else s.sh
  }

  /** What a monitor that has read the flag, the index and both averages knows. */
  function AfterReads(s: State, util: nat): (r: State) {
    var cur, last := Slot(s.sh, s.sh.idx), Slot(s.sh, s.sh.idx + 1);
    s.(m := s.m.(pc := LoadRate, util := util, idx := s.sh.idx, cur := cur, last := last, finite := cur != 0))
  }

  /** A tick that nobody interrupts does what delta_change does as one call: it counts the tick and
      publishes what Decide says, or leaves the shared segment alone. */
  lemma UninterruptedTick(s: State, util: nat, junk: int)
    requires s.m.pc == LoadChanged && !s.sh.changed && s.sh.rate >= 1
    requires IsCorrectionTick(s.m.modTimes + 1) ==> Slot(s.sh, s.sh.idx) >= 1 && Slot(s.sh, s.sh.idx + 1) >= 1
    ensures var cur, last := Slot(s.sh, s.sh.idx), Slot(s.sh, s.sh.idx + 1);
      var d := Decide(s.m.modTimes + 1, s.sh.rate, util, s.limit, cur, last, junk);
      var a := MonitorStep(util, junk);
      var r := StepTimes(StepTimes(s, a, 4), a, if d.Some? then 3 else 1);
      Ticked(s, r, d) && (r.m.finite <==> PerKernel(util, cur).Finite?)
  {
    TickReads(s, util, junk);
    TickDecides(AfterReads(s, util), util, junk);
  }

  lemma TickPublishes(s: State, util: nat, junk: int)
    requires s.m.pc == StoreRate
    ensures var a := MonitorStep(util, junk);
      Step(Step(s, a), a) == Raised(s.(sh := s.sh.(rate := s.m.newRate)))
  {
  }

  lemma TickDecides(s: State, util: nat, junk: int)
    requires s.m.pc == LoadRate && s.sh.rate >= 1
    requires IsCorrectionTick(s.m.modTimes + 1) ==> s.m.cur >= 1 && s.m.last >= 1
    ensures var d := Decide(s.m.modTimes + 1, s.sh.rate, s.m.util, s.limit, s.m.cur, s.m.last, junk);
      var r := StepTimes(s, MonitorStep(util, junk), if d.Some? then 3 else 1);
      Ticked(s, r, d) && r.m.finite == s.m.finite
  {
    var a := MonitorStep(util, junk);
    var d := Decide(s.m.modTimes + 1, s.sh.rate, s.m.util, s.limit, s.m.cur, s.m.last, junk);
    FourSteps(s, a);
    assert Step(s, a) == Decided(s, d);
    if d.Some? {
      TickPublishes(Decided(s, d), util, junk);
    }
  }

  // ---------------------------------------------------------------- a torn read

  /** Both loops at their start with nothing pending and a rate of 1; the samples so far. */
  ghost predicate Idle(s: State, samples: seq<int>) {
    && s.p.pc == CheckChanged && s.p.copy == 1 && s.m.pc == LoadChanged && !s.sh.changed
    && s.h.samples == samples && s.sh.idx == |samples|
  }

  /** init_attr finishes, the poster adopts its rate and completes a first cycle. */
  function FirstIdle(): (as_: seq<Action>) {
    [TICK] + Times(PosterStep, 3) + Times(PosterStep, 2) + Times(PosterStep, 3)
  }

  lemma FirstIdleReached(limit: nat, garbage: int)
    ensures Idle(Run(limit, garbage, FirstIdle()), [0])
  {
    var s := Start(limit, garbage);
    var a1 := [TICK];
    var a2 := a1 + Times(PosterStep, 3);
    var a3 := a2 + Times(PosterStep, 2);
    ContinueSnoc(s, [], TICK);
    assert [] + [TICK] == a1;
    ThenTimes(s, a1, PosterStep, 3);
    PosterAdopts(Continue(s, a1));
    ThenTimes(s, a2, PosterStep, 2);
    PosterPostsOne(Continue(s, a2));
    ThenTimes(s, a3, PosterStep, 3);
    PosterCompletes(Continue(s, a3));
  }

  /** A poster cycle up to the end of its posting, with `n` launches counted in it. */
  function Busy(n: nat): (as_: seq<Action>) {
    Times(PosterStep, 1) + Times(PosterStep, 2) + Times(WaitFails, n) + Times(CountLaunch, n)
  }

  lemma {:induction false} WaitsFail(s: State, n: nat)
    ensures StepTimes(s, WaitFails, n) == s.(uncounted := s.uncounted + n, h := s.h.(fails := s.h.fails + n))
  {
    if n > 0 { WaitsFail(s, n - 1); }
  }

  lemma {:induction false} LaunchesCounted(s: State, n: nat)
    requires s.uncounted >= n
    ensures StepTimes(s, CountLaunch, n) ==
      s.(uncounted := s.uncounted - n, sh := s.sh.(launches := s.sh.launches + n))
  {
    if n > 0 { LaunchesCounted(s, n - 1); }
  }

  lemma BusyPosts(s: State, n: nat, samples: seq<int>)
    requires Idle(s, samples)
    ensures var r := Continue(s, Busy(n));
      && r.p.pc == PostTokens && r.p.copy == 1 && r.p.i == 1 && r.m == s.m && !r.sh.changed
      && r.sh.launches == n && r.h.samples == samples && r.sh.idx == |samples|
  {
    var a1 := Times(PosterStep, 1);
    var a2 := a1 + Times(PosterStep, 2);
    var a3 := a2 + Times(WaitFails, n);
    ContinueTimes(s, PosterStep, 1);
    FourSteps(s, PosterStep);
    ThenTimes(s, a1, PosterStep, 2);
    PosterPostsOne(Continue(s, a1));
    ThenTimes(s, a2, WaitFails, n);
    WaitsFail(Continue(s, a2), n);
    ThenTimes(s, a3, CountLaunch, n);
    LaunchesCounted(Continue(s, a3), n);
  }

  lemma IdleCycle(s: State, n: nat, samples: seq<int>)
    requires Idle(s, samples)
    ensures Idle(Continue(s, Busy(n) + Times(PosterStep, 3)), samples + [n])
  {
    BusyPosts(s, n, samples);
    ThenTimes(s, Busy(n), PosterStep, 3);
    PosterCompletes(Continue(s, Busy(n)));
  }

  /** The poster is about to write an average while the monitor is about to read index and slots. */
  lemma RaceReached(s: State, n: nat, samples: seq<int>)
    requires Idle(s, samples)
    ensures var r := Continue(s, Busy(n) + [PosterStep] + [TICK]);
      r.p.pc == WriteAvg && r.m.pc == LoadIdx && r.h.samples == samples + [n] && r.sh.idx == |samples|
  {
    BusyPosts(s, n, samples);
    ContinueSnoc(s, Busy(n), PosterStep);
    ContinueSnoc(s, Busy(n) + [PosterStep], TICK);
  }

  /** The monitor reads the index, then the poster writes its average. */
  lemma IndexBeforeWrite(s: State)
    requires SlotsHold(s) && s.p.pc == WriteAvg && s.m.pc == LoadIdx && s.sh.idx >= 2
    ensures var r := Step(Step(s, TICK), PosterStep);
      && r.m.pc == ReadCur && r.m.idx == s.sh.idx && |r.h.averages| == s.sh.idx + 1
      && Slot(r.sh, r.m.idx) == r.h.averages[s.sh.idx] && Slot(r.sh, r.m.idx + 1) == r.h.averages[s.sh.idx - 1]
      && r.h.samples == s.h.samples
  {
  }

  /** Then it reads both slots. */
  lemma SlotsRead(s: State)
    requires s.m.pc == ReadCur
    ensures var r := Step(Step(s, TICK), TICK);
      && r.m.pc == LoadRate && r.m.idx == s.m.idx && r.h == s.h
      && r.m.cur == Slot(s.sh, s.m.idx) && r.m.last == Slot(s.sh, s.m.idx + 1)
  {
  }

  /** From every such state that interleaving tears the read: the slot the monitor takes for the
      current average already holds the new one. */
  lemma TornRead(s: State)
    requires SlotsHold(s) && s.p.pc == WriteAvg && s.m.pc == LoadIdx && s.sh.idx >= 2
    ensures var r := Step(Step(Step(Step(s, TICK), PosterStep), TICK), TICK);
      && r.m.pc == LoadRate && r.m.idx == s.sh.idx && |r.h.averages| == s.sh.idx + 1
      && r.m.cur == r.h.averages[s.sh.idx] && r.m.last == r.h.averages[s.sh.idx - 1]
      && r.h.samples == s.h.samples
  {
    IndexBeforeWrite(s);
    SlotsRead(Step(Step(s, TICK), PosterStep));
  }

  lemma ContinueFour(s: State, as_: seq<Action>, a: Action, b: Action, c: Action, d: Action)
    ensures Continue(s, as_ + [a] + [b] + [c] + [d]) == Step(Step(Step(Step(Continue(s, as_), a), b), c), d)
  {
    ContinueSnoc(s, as_, a);
    ContinueSnoc(s, as_ + [a], b);
    ContinueSnoc(s, as_ + [a] + [b], c);
    ContinueSnoc(s, as_ + [a] + [b] + [c], d);
  }

  /** Two idle cycles, `n` launches in the third, and the torn read. */
  function TornRun(n: nat): (as_: seq<Action>) {
    FirstIdle() + (Busy(0) + Times(PosterStep, 3)) + (Busy(n) + [PosterStep] + [TICK])
      + [TICK] + [PosterStep] + [TICK] + [TICK]
  }

  /** A run in which it matters: the tick compares the newest average, at least 2, with the one
      before it, which is 1, as if it were the older one. */
  lemma TornReadHappens(limit: nat, garbage: int, n: nat)
    requires n >= 2 * (LAUNCH_SAMPLES + 1)
    ensures var s := Run(limit, garbage, TornRun(n));
      && s.m.pc == LoadRate && s.m.idx == 2 && |s.h.averages| == 3
      && s.m.cur == s.h.averages[2] >= 2 && s.m.last == s.h.averages[1] == 1
  {
    var s := Start(limit, garbage);
    var a1 := FirstIdle();
    var a2 := a1 + (Busy(0) + Times(PosterStep, 3));
    var a3 := a2 + (Busy(n) + [PosterStep] + [TICK]);
    FirstIdleReached(limit, garbage);
    ContinueConcat(s, a1, Busy(0) + Times(PosterStep, 3));
    IdleCycle(Continue(s, a1), 0, [0]);
    ContinueConcat(s, a2, Busy(n) + [PosterStep] + [TICK]);
    RaceReached(Continue(s, a2), n, [0] + [0]);
    ContinueFour(s, a3, TICK, PosterStep, TICK, TICK);
    SlotsAlways(limit, garbage, a3);
    TornRead(Continue(s, a3));
    AveragesAlways(limit, garbage, TornRun(n));
    OldAndNew(n);
  }

  lemma OldAndNew(n: nat)
    requires n >= 2 * (LAUNCH_SAMPLES + 1)
    ensures var samples := [0] + [0] + [n];
      Average(LastTen(samples[..2])) == 1 && Average(LastTen(samples[..3])) >= 2
  {
    var samples: seq<int> := [0] + [0] + [n];
    assert samples[..2] == [0, 0] && samples[..3] == samples;
    AverageBelowLargest(LastTen([0, 0]), 0);
    assert LastTen(samples)[LAUNCH_SAMPLES - 1] == n;
    AverageAboveOne(LastTen(samples), LAUNCH_SAMPLES - 1);
  }

  // ---------------------------------------------------------------- bounded response

  lemma {:induction false} ContinueConcat(s: State, as_: seq<Action>, more: seq<Action>)
    ensures Continue(s, as_ + more) == Continue(Continue(s, as_), more)
  {
    if more == [] {
      assert as_ + more == as_;
    } else {
      var n := |more| - 1;
      calc {
        Continue(s, as_ + more);
        { assert as_ + more == as_ + more[..n] + [more[n]]; ContinueSnoc(s, as_ + more[..n], more[n]); }
        Step(Continue(s, as_ + more[..n]), more[n]);
        { ContinueConcat(s, as_, more[..n]); }
        Step(Continue(Continue(s, as_), more[..n]), more[n]);
        { ContinueSnoc(Continue(s, as_), more[..n], more[n]); assert more[..n] + [more[n]] == more; }
        Continue(Continue(s, as_), more);
      }
    }
  }

  function PosterSteps(as_: seq<Action>): (n: nat) {
    if as_ == [] then 0
    else PosterSteps(as_[..|as_| - 1]) + if as_[|as_| - 1].PosterStep? then 1 else 0
  }

  /** How many poster steps a pending rate still has to wait. */
  function Distance(s: State): (n: nat) {
    match s.p.pc
    case CopyRate => 1
    case CheckChanged => 2
    case BumpIdx => 3
    case WriteAvg => 4
    case PostTokens => 5 + if s.p.i < s.p.copy then s.p.copy - s.p.i else 0
    case ResetLaunches => 6 + TokensOf(s.p.copy)
    case ClearChanged => 0
  }

  /** From `s` to `r`, with `n` poster steps, the pending rate has come `n` nearer. */
  ghost predicate StillPending(s: State, r: State, n: nat) {
    && r.h.adopted == s.h.adopted && r.h.published == s.h.published
    && !CaughtUp(r) && Distance(r) + n == Distance(s)
  }

  lemma PendingStep(s: State, r: State, n: nat, a: Action)
    requires Handshake(r) && StillPending(s, r, n)
    ensures var q := Step(r, a);
      var m := if a.PosterStep? then n + 1 else n;
      StillPending(s, q, m) || (q.h.adopted == s.h.published && m == Distance(s))
  {
    if a.PosterStep? && r.p.pc == CopyRate {
      assert Step(r, a).h.adopted == r.h.published;
    }
  }

  lemma AdoptedGrows(r: State, a: Action)
    ensures r.h.adopted <= Step(r, a).h.adopted
  {
  }

  lemma {:induction false} PendingOrAdopted(s: State, as_: seq<Action>)
    requires Handshake(s) && !CaughtUp(s)
    ensures var r, n := Continue(s, as_), PosterSteps(as_);
      Handshake(r) && (StillPending(s, r, n) || (s.h.published <= r.h.adopted && n >= Distance(s)))
  {
    if as_ != [] {
      var k := |as_| - 1;
      PendingOrAdopted(s, as_[..k]);
      var r := Continue(s, as_[..k]);
      HandshakeStep(r, as_[k]);
      if StillPending(s, r, PosterSteps(as_[..k])) {
        PendingStep(s, r, PosterSteps(as_[..k]), as_[k]);
      } else {
        AdoptedGrows(r, as_[k]);
      }
    }
  }

  lemma PendingIsNotAdopted(s: State, r: State, n: nat)
    requires Handshake(s) && !CaughtUp(s) && StillPending(s, r, n)
    ensures !(s.h.published <= r.h.adopted) && n < Distance(s)
  {
  }

  lemma AdoptedIff(s: State, as_: seq<Action>)
    requires Handshake(s) && !CaughtUp(s)
    ensures s.h.published <= Continue(s, as_).h.adopted <==> PosterSteps(as_) >= Distance(s)
  {
    PendingOrAdopted(s, as_);
    if StillPending(s, Continue(s, as_), PosterSteps(as_)) {
      PendingIsNotAdopted(s, Continue(s, as_), PosterSteps(as_));
    }
  }

  /** Bounded response: from every reachable state with a pending rate, in every continuation, that
      rate has been adopted if and only if the poster has taken Distance steps, which is what is
      left of its cycle.  What the other threads do does not matter. */
  lemma PendingRateIsAdopted(limit: nat, garbage: int, as_: seq<Action>, more: seq<Action>)
    requires !CaughtUp(Run(limit, garbage, as_))
    ensures var s := Run(limit, garbage, as_);
      s.h.published <= Run(limit, garbage, as_ + more).h.adopted <==> PosterSteps(more) >= Distance(s)
  {
    HandshakeAlways(limit, garbage, as_);
    ContinueConcat(Start(limit, garbage), as_, more);
    AdoptedIff(Run(limit, garbage, as_), more);
  }
}
