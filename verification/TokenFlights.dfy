/** Any number of goroutines running `accessToken` (provider/http.go:21-70) against one cache,
    interleaved with invalidations, as a transition system.  A step is one region under the
    mutex or one action outside it; the issuer's answers, cancellations and the monotone clock
    are the environment's.  The regions are the functions of TokenCache, which its class
    implements in place. */
module TokenFlights {
  import opened Wrappers
  import opened TokenCache
  import opened Counting

  type Tid = nat
  type FlightId = nat

  /** Where one call stands; the comments give lines of provider/http.go. */
  datatype Pc =
    | Idle                                     // no call yet
    | Top                                      // 22
    | Waiting(flight: FlightId)                // 36
    | Launched(flight: FlightId)               // 49, start not read yet
    | Fetching(flight: FlightId, start: int)   // 50, inside acquire
    | Fetched(flight: FlightId, start: int, answer: Answer) // 51
    | Returned(outcome: Outcome)

  /** The issuer's answer: a token with its expires_in, or whatever error acquire reports. */
  datatype Answer = Grant(token: string, expiresIn: int) | Refuse(error: Error)

  /** A returned token carries the flight that obtained it and the instant of the decision. */
  datatype Outcome = Served(token: string, source: FlightId, at: int) | Failed(error: Error)

  datatype FlightState =
    | Open(initiator: Tid)
    | Landed(token: string, start: int, expiresIn: int)
    | Crashed(error: Error)

  /** begun: acquisitions this call initiated.  joined: flights it waited for and looped on. */
  datatype Thread = Thread(pc: Pc, begun: nat, joined: seq<FlightId>)

  /** flights is every flight ever opened, in order; source is the one that filled the cache. */
  datatype Sys = Sys(
    maxSeconds: int,
    now: int,
    shared: Shared<FlightId>,
    source: FlightId,
    flights: seq<FlightState>,
    threads: seq<Thread>)

  datatype Step =
    | Tick(elapsed: nat)
    | Call(tid: Tid)
    | GiveUp(tid: Tid)                   // 23-25 and 42-43
    | EnterLock(tid: Tid)                // 26-48
    | ReadStart(tid: Tid)                // 49
    | Answered(tid: Tid, answer: Answer) // 50
    | SettleLock(tid: Tid)               // 51-68
    | Wake(tid: Tid)                     // 37-41
    | Drop(token: string, zeroTime: int) // invalidate, from anywhere

  function Initiated(pc: Pc): Option<FlightId> {
    match pc
    case Launched(f) => Some(f)
    case Fetching(f, _) => Some(f)
    case Fetched(f, _, _) => Some(f)
    case _ => None
  }

  function Deadline(f: FlightState, maxSeconds: int): int
    requires f.Landed?
  {
    f.start + Lifetime(f.expiresIn, maxSeconds)
  }

  function ToAcquired(a: Answer, maxSeconds: int): Acquired {
    match a
    case Grant(token, e) => Granted(token, Lifetime(e, maxSeconds))
    case Refuse(e) => Refused(e)
  }

  predicate Init(s: Sys) {
    && 1 <= s.maxSeconds
    && s.shared.token == "" && s.shared.acquiring == None
    && s.flights == []
    && forall t | 0 <= t < |s.threads| :: s.threads[t] == Thread(Idle, 0, [])
  }

  predicate Enabled(s: Sys, step: Step) {
    match step
    case Tick(_) => true
    case Drop(_, _) => true
    case Call(t) => t < |s.threads| && (s.threads[t].pc.Idle? || s.threads[t].pc.Returned?)
    case GiveUp(t) => t < |s.threads| && (s.threads[t].pc.Top? || s.threads[t].pc.Waiting?)
    case EnterLock(t) => t < |s.threads| && s.threads[t].pc.Top?
    case ReadStart(t) => t < |s.threads| && s.threads[t].pc.Launched?
    case Answered(t, a) => t < |s.threads| && s.threads[t].pc.Fetching? && (a.Grant? ==> a.token != "" && 1 <= a.expiresIn)
    case SettleLock(t) => t < |s.threads| && s.threads[t].pc.Fetched? && s.threads[t].pc.flight < |s.flights|
    case Wake(t) =>
      && t < |s.threads| && s.threads[t].pc.Waiting?
      && s.threads[t].pc.flight < |s.flights| && !s.flights[s.threads[t].pc.flight].Open?
  }

  function Moved(s: Sys, t: Tid, pc: Pc): Sys
    requires t < |s.threads|
  {
    s.(threads := s.threads[t := s.threads[t].(pc := pc)])
  }

  function Apply(s: Sys, step: Step): Sys
    requires Enabled(s, step)
  {
    match step
    case Tick(d) => s.(now := s.now + d)
    case Drop(token, zeroTime) => s.(shared := Invalidated(s.shared, token, zeroTime))
    case Call(t) => s.(threads := s.threads[t := Thread(Top, 0, [])])
    case GiveUp(t) => Moved(s, t, Returned(Failed(ErrUnavailable)))
    case EnterLock(t) => Entering(s, t)
    case ReadStart(t) => Moved(s, t, Fetching(s.threads[t].pc.flight, s.now))
    case Answered(t, a) => Moved(s, t, Fetched(s.threads[t].pc.flight, s.threads[t].pc.start, a))
    case SettleLock(t) => Settling(s, t)
    case Wake(t) => Waking(s, t)
  }

  function Entering(s: Sys, t: Tid): Sys
    requires Enabled(s, EnterLock(t))
  {
    var (shared, decision) := Entered(s.shared, s.now, |s.flights|);
    match decision
    case Serve(token) => Moved(s, t, Returned(Served(token, s.source, s.now)))
    case Wait(f) => Moved(s, t, Waiting(f)).(shared := shared)
    case Launch(f) =>
      var th := s.threads[t];
      s.(shared := shared, flights := s.flights + [Open(t)],
         threads := s.threads[t := Thread(Launched(f), th.begun + 1, th.joined)])
  }

  function Settling(s: Sys, t: Tid): Sys
    requires Enabled(s, SettleLock(t))
  {
    var pc := s.threads[t].pc;
    var (shared, r) := Settled(s.shared, s.now, pc.start, ToAcquired(pc.answer, s.maxSeconds));
    match r
    case Err(e) => Moved(s, t, Returned(Failed(e))).(shared := shared, flights := s.flights[pc.flight := Crashed(e)])
    case Ok(token) =>
      Moved(s, t, Returned(Served(token, pc.flight, s.now))).(
        shared := shared, source := pc.flight,
        flights := s.flights[pc.flight := Landed(token, pc.start, pc.answer.expiresIn)])
  }

  function Waking(s: Sys, t: Tid): Sys
    requires Enabled(s, Wake(t))
  {
    var th := s.threads[t];
    match s.flights[th.pc.flight]
    case Crashed(e) => Moved(s, t, Returned(Failed(e)))
    case _ => s.(threads := s.threads[t := Thread(Top, th.begun, th.joined + [th.pc.flight])])
  }

  // ---------------------------------------------------------------- the invariant

  predicate Distinct(xs: seq<FlightId>) {
    forall i, j | 0 <= i < j < |xs| :: xs[i] != xs[j]
  }

  /** Open flights, the lock's `acquiring` field and the initiating threads are one and the same. */
  predicate FlightsInv(s: Sys) {
    && (s.shared.acquiring.Some? ==>
          && s.shared.token == ""
          && s.shared.acquiring.value < |s.flights| && s.flights[s.shared.acquiring.value].Open?)
    && (forall f | 0 <= f < |s.flights| && s.flights[f].Open? ::
          && s.shared.acquiring == Some(f)
          && s.flights[f].initiator < |s.threads|
          && Initiated(s.threads[s.flights[f].initiator].pc) == Some(f))
    && (forall t | 0 <= t < |s.threads| && Initiated(s.threads[t].pc).Some? ::
          s.shared.acquiring == Initiated(s.threads[t].pc) && s.flights[s.shared.acquiring.value] == Open(t))
  }

  predicate LandedWell(s: Sys, f: FlightId, token: string) {
    && f < |s.flights| && s.flights[f].Landed? && s.flights[f].token == token
    && 1 <= s.flights[f].expiresIn && s.flights[f].start <= s.now
  }

  predicate CacheInv(s: Sys) {
    s.shared.token != "" ==>
      LandedWell(s, s.source, s.shared.token) && s.shared.deadline == Deadline(s.flights[s.source], s.maxSeconds)
  }

  predicate PcInv(s: Sys, pc: Pc) {
    match pc
    case Waiting(f) => f < |s.flights|
    case Fetching(_, start) => start <= s.now
    case Fetched(_, start, a) => start <= s.now && (a.Grant? ==> a.token != "" && 1 <= a.expiresIn)
    case Returned(Served(token, f, at)) =>
      && token != "" && LandedWell(s, f, token)
      && s.flights[f].start <= at <= s.now && at < Deadline(s.flights[f], s.maxSeconds)
    case _ => true
  }

  predicate ThreadInv(s: Sys, th: Thread) {
    && PcInv(s, th.pc)
    && th.begun <= 1
    && (th.begun == 1 ==> Initiated(th.pc).Some? || th.pc.Returned?)
    && Distinct(th.joined)
    && (forall i | 0 <= i < |th.joined| :: th.joined[i] < |s.flights| && s.flights[th.joined[i]].Landed?)
    && (th.pc.Waiting? ==> th.pc.flight !in th.joined)
  }

  predicate Inv(s: Sys) {
    && 1 <= s.maxSeconds
    && FlightsInv(s)
    && CacheInv(s)
    && forall t | 0 <= t < |s.threads| :: ThreadInv(s, s.threads[t])
  }

  /** Nothing already recorded about a closed flight is ever rewritten. */
  predicate Extends(s: Sys, s': Sys) {
    && s'.maxSeconds == s.maxSeconds && s.now <= s'.now && |s.threads| == |s'.threads|
    && |s.flights| <= |s'.flights|
    && forall f | 0 <= f < |s.flights| && !s.flights[f].Open? :: s'.flights[f] == s.flights[f]
  }

  lemma StepExtends(s: Sys, step: Step)
    requires Inv(s) && Enabled(s, step)
    ensures Extends(s, Apply(s, step))
  {
  }

  lemma ThreadKept(s: Sys, s': Sys, th: Thread)
    requires ThreadInv(s, th) && Extends(s, s')
    ensures ThreadInv(s', th)
  {
  }

  lemma SettlingKeepsFlights(s: Sys, t: Tid)
    requires Inv(s) && Enabled(s, SettleLock(t))
    ensures FlightsInv(Settling(s, t))
  {
  }

  lemma EnteringKeepsFlights(s: Sys, t: Tid)
    requires Inv(s) && Enabled(s, EnterLock(t))
    ensures FlightsInv(Entering(s, t))
  {
  }

  /** Every other step leaves the lock's fields and the set of initiating threads alone,
      except that it may forget the token. */
  lemma StepKeepsFlights(s: Sys, step: Step)
    requires Inv(s) && Enabled(s, step)
    ensures FlightsInv(Apply(s, step))
  {
    var s' := Apply(s, step);
    if step.SettleLock? {
      SettlingKeepsFlights(s, step.tid);
    } else if step.EnterLock? {
      EnteringKeepsFlights(s, step.tid);
    } else {
      assert s'.flights == s.flights && s'.shared.acquiring == s.shared.acquiring;
      forall u | 0 <= u < |s'.threads|
        ensures Initiated(s'.threads[u].pc) == Initiated(s.threads[u].pc)
      {
      }
    }
  }

  lemma StepKeepsCache(s: Sys, step: Step)
    requires Inv(s) && Enabled(s, step)
    ensures CacheInv(Apply(s, step))
  {
  }

  lemma EnteringKeepsActor(s: Sys, t: Tid)
    requires Inv(s) && Enabled(s, EnterLock(t))
    ensures ThreadInv(Entering(s, t), Entering(s, t).threads[t])
  {
    assert ThreadInv(s, s.threads[t]);
  }

  lemma SettlingKeepsActor(s: Sys, t: Tid)
    requires Inv(s) && Enabled(s, SettleLock(t))
    ensures ThreadInv(Settling(s, t), Settling(s, t).threads[t])
  {
    assert ThreadInv(s, s.threads[t]);
  }

  lemma WakingKeepsActor(s: Sys, t: Tid)
    requires Inv(s) && Enabled(s, Wake(t))
    ensures ThreadInv(Waking(s, t), Waking(s, t).threads[t])
  {
    assert ThreadInv(s, s.threads[t]);
  }

  lemma StepKeepsActor(s: Sys, step: Step, t: Tid)
    requires Inv(s) && Enabled(s, step)
    requires t < |s.threads| && !step.Tick? && !step.Drop? && step.tid == t
    ensures ThreadInv(Apply(s, step), Apply(s, step).threads[t])
  {
    if step.EnterLock? {
      EnteringKeepsActor(s, t);
    } else if step.SettleLock? {
      SettlingKeepsActor(s, t);
    } else if step.Wake? {
      WakingKeepsActor(s, t);
    } else {
      assert ThreadInv(s, s.threads[t]);
    }
  }

  lemma StepKeepsInv(s: Sys, step: Step)
    requires Inv(s) && Enabled(s, step)
    ensures Inv(Apply(s, step)) && Extends(s, Apply(s, step))
  {
    var s' := Apply(s, step);
    StepExtends(s, step);
    StepKeepsFlights(s, step);
    StepKeepsCache(s, step);
    forall t | 0 <= t < |s'.threads|
      ensures ThreadInv(s', s'.threads[t])
    {
      if !step.Tick? && !step.Drop? && step.tid == t {
        StepKeepsActor(s, step, t);
      } else {
        assert s'.threads[t] == s.threads[t];
        ThreadKept(s, s', s.threads[t]);
      }
    }
  }

  // ---------------------------------------------------------------- whole runs

  /** A run: each state follows from the one before by one enabled step. */
  predicate IsRun(ss: seq<Sys>, steps: seq<Step>) {
    && |ss| == |steps| + 1
    && Init(ss[0])
    && forall i | 0 <= i < |steps| :: Enabled(ss[i], steps[i]) && ss[i + 1] == Apply(ss[i], steps[i])
  }

  lemma {:induction false} RunKeepsInv(ss: seq<Sys>, steps: seq<Step>, i: nat)
    requires IsRun(ss, steps) && i < |ss|
    ensures Inv(ss[i])
  {
    if i > 0 {
      RunKeepsInv(ss, steps, i - 1);
      StepKeepsInv(ss[i - 1], steps[i - 1]);
    }
  }

  lemma {:induction false} RunExtends(ss: seq<Sys>, steps: seq<Step>, i: nat, j: nat)
    requires IsRun(ss, steps) && i <= j < |ss|
    ensures Extends(ss[i], ss[j])
  {
    if i < j {
      RunExtends(ss, steps, i, j - 1);
      RunKeepsInv(ss, steps, j - 1);
      StepKeepsInv(ss[j - 1], steps[j - 1]);
    }
  }

  /** Single flight: at most one thread is between lines 47 and 62; while it is, `acquiring` is its
      flight and the cache is empty; and whenever `acquiring` is set there is such a thread. */
  lemma SingleFlight(ss: seq<Sys>, steps: seq<Step>, i: nat)
    requires IsRun(ss, steps) && i < |ss|
    ensures forall t, u | 0 <= t < |ss[i].threads| && 0 <= u < |ss[i].threads| ::
              Initiated(ss[i].threads[t].pc).Some? && Initiated(ss[i].threads[u].pc).Some? ==> t == u
    ensures forall t | 0 <= t < |ss[i].threads| && Initiated(ss[i].threads[t].pc).Some? ::
              ss[i].shared.acquiring == Initiated(ss[i].threads[t].pc) && ss[i].shared.token == ""
    ensures ss[i].shared.acquiring.Some? ==>
              ss[i].shared.token == ""
              && exists t :: 0 <= t < |ss[i].threads| && Initiated(ss[i].threads[t].pc) == ss[i].shared.acquiring
  {
    RunKeepsInv(ss, steps, i);
    var s := ss[i];
    if s.shared.acquiring.Some? {
      assert Initiated(s.threads[s.flights[s.shared.acquiring.value].initiator].pc) == s.shared.acquiring;
    }
  }

  predicate Launches(s: Sys, step: Step) {
    step.EnterLock? && Enabled(s, step) && Entered(s.shared, s.now, |s.flights|).1.Launch?
  }

  /** Step k lands a flight: the cache is filled with `token` until `deadline`. */
  predicate Lands(s: Sys, step: Step, token: string, deadline: int) {
    && step.SettleLock? && Enabled(s, step)
    && var pc := s.threads[step.tid].pc;
    && pc.answer.Grant? && pc.answer.token == token
    && deadline == pc.start + Lifetime(pc.answer.expiresIn, s.maxSeconds)
    && s.now < deadline
  }

  /** Until the token is dropped, the cache keeps it or the clock has passed its deadline. */
  predicate HeldOrStale(s: Sys, token: string, deadline: int) {
    deadline <= s.now || (s.shared.token == token && s.shared.deadline == deadline)
  }

  lemma StepHolds(s: Sys, step: Step, token: string, deadline: int)
    requires Inv(s) && Enabled(s, step)
    requires token != "" && HeldOrStale(s, token, deadline)
    requires !(step.Drop? && step.token == token)
    ensures HeldOrStale(Apply(s, step), token, deadline)
  {
  }

  lemma LandedNonEmpty(s: Sys, step: Step, token: string, deadline: int)
    requires Inv(s) && Lands(s, step, token, deadline)
    ensures token != "" && HeldOrStale(Apply(s, step), token, deadline)
  {
  }

  lemma {:induction false} HeldUntilStale(ss: seq<Sys>, steps: seq<Step>, k: nat, j: nat, token: string, deadline: int)
    requires IsRun(ss, steps) && k < j < |ss|
    requires Lands(ss[k], steps[k], token, deadline)
    requires forall i | k < i < j :: !(steps[i].Drop? && steps[i].token == token)
    ensures token != "" && HeldOrStale(ss[j], token, deadline)
  {
    RunKeepsInv(ss, steps, j - 1);
    if j == k + 1 {
      LandedNonEmpty(ss[k], steps[k], token, deadline);
    } else {
      HeldUntilStale(ss, steps, k, j - 1, token, deadline);
      StepHolds(ss[j - 1], steps[j - 1], token, deadline);
    }
  }

  /** Flights never overlap: when one is launched, every flight before it is closed, those launched
      earlier in the run among them, and no live token is cached. */
  lemma FlightsNeverOverlap(ss: seq<Sys>, steps: seq<Step>, j: nat)
    requires IsRun(ss, steps) && j < |steps| && Launches(ss[j], steps[j])
    ensures forall f | 0 <= f < |ss[j].flights| :: !ss[j].flights[f].Open?
    ensures ss[j + 1].flights == ss[j].flights + [Open(steps[j].tid)]
    ensures forall i | 0 <= i < j && Launches(ss[i], steps[i]) ::
              |ss[i].flights| < |ss[j].flights| && !ss[j].flights[|ss[i].flights|].Open?
    ensures !Cached(ss[j].shared, ss[j].now)
  {
    RunKeepsInv(ss, steps, j);
    forall i | 0 <= i < j && Launches(ss[i], steps[i])
      ensures |ss[i].flights| < |ss[j].flights|
    {
      RunExtends(ss, steps, i + 1, j);
    }
  }

  /** A launch after a landing needs the landed token to have reached its deadline or to have been
      invalidated in between; and that deadline is counted from the clock read before the request. */
  lemma LaunchesJustified(ss: seq<Sys>, steps: seq<Step>, k: nat, j: nat, token: string, deadline: int)
    requires IsRun(ss, steps) && k < j < |steps|
    requires Lands(ss[k], steps[k], token, deadline) && Launches(ss[j], steps[j])
    ensures forall f | 0 <= f < |ss[j].flights| :: !ss[j].flights[f].Open?
    ensures deadline <= ss[j].now || exists i :: k < i < j && steps[i].Drop? && steps[i].token == token
    ensures exists start, e :: deadline == start + Lifetime(e, ss[k].maxSeconds)
              && AnsweredBefore(ss, steps, k, steps[k].tid, ss[k].threads[steps[k].tid].pc.flight, start, Grant(token, e))
  {
    AcquisitionHistory(ss, steps, k, steps[k].tid);
    FlightsNeverOverlap(ss, steps, j);
    if forall i | k < i < j :: !(steps[i].Drop? && steps[i].token == token) {
      HeldUntilStale(ss, steps, k, j, token, deadline);
    }
  }

  lemma {:induction false} GoneUntilLanded(ss: seq<Sys>, steps: seq<Step>, k: nat, j: nat, token: string)
    requires IsRun(ss, steps) && k < j < |ss| && token != ""
    requires steps[k].Drop? && steps[k].token == token
    requires forall i, deadline: int | k < i < j :: !Lands(ss[i], steps[i], token, deadline)
    ensures ss[j].shared.token != token
  {
    if j > k + 1 {
      GoneUntilLanded(ss, steps, k, j - 1, token);
      var s, step := ss[j - 1], steps[j - 1];
      if step.SettleLock? && s.threads[step.tid].pc.answer.Grant? {
        var pc := s.threads[step.tid].pc;
        assert !Lands(s, step, token, pc.start + Lifetime(pc.answer.expiresIn, s.maxSeconds));
      }
    }
  }

  /** Invalidation is exact: a dropped token is served from the cache again only if a flight
      settling later obtained it again, and dropping a token other than the cached one changes
      nothing. */
  lemma InvalidationExact(ss: seq<Sys>, steps: seq<Step>, k: nat, j: nat)
    requires IsRun(ss, steps) && k < j < |steps|
    requires steps[k].Drop?
    ensures ss[k].shared.token != steps[k].token ==> ss[k + 1] == ss[k]
    ensures steps[j].EnterLock? && Cached(ss[j].shared, ss[j].now) && ss[j].shared.token == steps[k].token ==>
              exists i, deadline: int :: k < i < j && Lands(ss[i], steps[i], steps[k].token, deadline)
  {
    if steps[j].EnterLock? && Cached(ss[j].shared, ss[j].now) && ss[j].shared.token == steps[k].token {
      if forall i, deadline: int | k < i < j :: !Lands(ss[i], steps[i], steps[k].token, deadline) {
        GoneUntilLanded(ss, steps, k, j, steps[k].token);
      }
    }
  }

  // ---------------------------------------------------------------- what a run remembers

  /** A launch of this flight by this thread, before step j. */
  ghost predicate LaunchedBefore(ss: seq<Sys>, steps: seq<Step>, j: nat, t: Tid, f: FlightId)
    requires IsRun(ss, steps) && j < |ss|
  {
    exists l: nat :: l < j && Launches(ss[l], steps[l]) && steps[l].tid == t && f == |ss[l].flights|
  }

  /** The clock read, after that launch, as the start of the acquisition. */
  ghost predicate StartedBefore(ss: seq<Sys>, steps: seq<Step>, j: nat, t: Tid, f: FlightId, start: int)
    requires IsRun(ss, steps) && j < |ss|
  {
    exists i: nat :: i < j && steps[i] == ReadStart(t) && ss[i].threads[t].pc == Launched(f) && ss[i].now == start
                     && LaunchedBefore(ss, steps, i, t, f)
  }

  /** The issuer's answer to that acquisition. */
  ghost predicate AnsweredBefore(ss: seq<Sys>, steps: seq<Step>, j: nat, t: Tid, f: FlightId, start: int, a: Answer)
    requires IsRun(ss, steps) && j < |ss|
  {
    exists m: nat :: m < j && steps[m] == Answered(t, a) && ss[m].threads[t].pc == Fetching(f, start)
                     && StartedBefore(ss, steps, m, t, f, start)
  }

  /** A flight that began, was answered and settled as its record says. */
  ghost predicate SettledBefore(ss: seq<Sys>, steps: seq<Step>, j: nat, f: FlightId, result: FlightState)
    requires IsRun(ss, steps) && j < |ss|
  {
    exists k: nat, start, a ::
      && k < j && steps[k].SettleLock? && AnsweredBefore(ss, steps, k, steps[k].tid, f, start, a)
      && SettlesAs(ss[k], start, a, result)
  }

  /** The rule of lines 52-61: a token still live at the second reading lands, an error is passed
      on, a token that took too long is ErrUnavailable. */
  predicate SettlesAs(s: Sys, start: int, a: Answer, result: FlightState) {
    match a
    case Refuse(e) => result == Crashed(e)
    case Grant(token, e) =>
      if s.now < start + e * 1_000_000_000 && s.now < start + s.maxSeconds * 1_000_000_000 then result == Landed(token, start, e)
      else result == Crashed(ErrUnavailable)
  }

  predicate Moves(step: Step, t: Tid) {
    !step.Tick? && !step.Drop? && step.tid == t
  }

  /** Which step of its own brings a thread to each point of an acquisition. */
  lemma PcComesFrom(s: Sys, step: Step, t: Tid)
    requires Enabled(s, step) && t < |s.threads|
    ensures !Moves(step, t) ==> Apply(s, step).threads[t] == s.threads[t]
    ensures Moves(step, t) ==>
              var before, after := s.threads[t].pc, Apply(s, step).threads[t].pc;
              && (after.Launched? ==> Launches(s, step) && after.flight == |s.flights|)
              && (after.Fetching? ==> step.ReadStart? && before == Launched(after.flight) && after.start == s.now)
              && (after.Fetched? ==> step == Answered(t, after.answer) && before == Fetching(after.flight, after.start))
  {
  }

  lemma {:induction false} LaunchHistory(ss: seq<Sys>, steps: seq<Step>, j: nat, t: Tid)
    requires IsRun(ss, steps) && j < |ss| && t < |ss[j].threads| && ss[j].threads[t].pc.Launched?
    ensures LaunchedBefore(ss, steps, j, t, ss[j].threads[t].pc.flight)
  {
    var s, step := ss[j - 1], steps[j - 1];
    PcComesFrom(s, step, t);
    if !Moves(step, t) {
      LaunchHistory(ss, steps, j - 1, t);
    }
  }

  lemma {:induction false} StartHistory(ss: seq<Sys>, steps: seq<Step>, j: nat, t: Tid)
    requires IsRun(ss, steps) && j < |ss| && t < |ss[j].threads| && ss[j].threads[t].pc.Fetching?
    ensures StartedBefore(ss, steps, j, t, ss[j].threads[t].pc.flight, ss[j].threads[t].pc.start)
  {
    var s, step := ss[j - 1], steps[j - 1];
    PcComesFrom(s, step, t);
    if Moves(step, t) {
      LaunchHistory(ss, steps, j - 1, t);
    } else {
      StartHistory(ss, steps, j - 1, t);
    }
  }

  /** A thread carries exactly what its own steps gave it: the start is the clock at line 49, not
      later, and the answer is the issuer's. */
  lemma {:induction false} AcquisitionHistory(ss: seq<Sys>, steps: seq<Step>, j: nat, t: Tid)
    requires IsRun(ss, steps) && j < |ss| && t < |ss[j].threads| && ss[j].threads[t].pc.Fetched?
    ensures var pc := ss[j].threads[t].pc; AnsweredBefore(ss, steps, j, t, pc.flight, pc.start, pc.answer)
  {
    var s, step := ss[j - 1], steps[j - 1];
    PcComesFrom(s, step, t);
    if Moves(step, t) {
      StartHistory(ss, steps, j - 1, t);
    } else {
      AcquisitionHistory(ss, steps, j - 1, t);
    }
  }

  /** Every closed flight is what its own launch, clock reading, answer and settling make of it. */
  lemma {:induction false} FlightHistory(ss: seq<Sys>, steps: seq<Step>, j: nat, f: FlightId)
    requires IsRun(ss, steps) && j < |ss| && f < |ss[j].flights| && !ss[j].flights[f].Open?
    ensures SettledBefore(ss, steps, j, f, ss[j].flights[f])
  {
    var s, step := ss[j - 1], steps[j - 1];
    RunKeepsInv(ss, steps, j - 1);
    ClosedComesFrom(s, step, f);
    if f < |s.flights| && !s.flights[f].Open? {
      FlightHistory(ss, steps, j - 1, f);
      SettledLater(ss, steps, j, f, s.flights[f]);
    } else {
      SettlesNow(ss, steps, j - 1, ss[j].flights[f]);
    }
  }

  lemma SettledLater(ss: seq<Sys>, steps: seq<Step>, j: nat, f: FlightId, result: FlightState)
    requires IsRun(ss, steps) && 0 < j < |ss| && SettledBefore(ss, steps, j - 1, f, result)
    ensures SettledBefore(ss, steps, j, f, result)
  {
  }

  lemma SettlesNow(ss: seq<Sys>, steps: seq<Step>, k: nat, result: FlightState)
    requires IsRun(ss, steps) && k < |steps| && steps[k].SettleLock?
    requires var pc := ss[k].threads[steps[k].tid].pc; SettlesAs(ss[k], pc.start, pc.answer, result)
    ensures SettledBefore(ss, steps, k + 1, ss[k].threads[steps[k].tid].pc.flight, result)
  {
    AcquisitionHistory(ss, steps, k, steps[k].tid);
  }

  lemma ClosedComesFrom(s: Sys, step: Step, f: FlightId)
    requires Inv(s) && Enabled(s, step)
    requires f < |Apply(s, step).flights| && !Apply(s, step).flights[f].Open?
    ensures f < |s.flights|
    ensures if !s.flights[f].Open? then Apply(s, step).flights[f] == s.flights[f]
            else step.SettleLock? && s.threads[step.tid].pc.flight == f
                 && SettlesAs(s, s.threads[step.tid].pc.start, s.threads[step.tid].pc.answer, Apply(s, step).flights[f])
  {
    StepExtends(s, step);
  }

  /** Why a call ended as it did: step k of its own decided it. */
  predicate Decides(ss: seq<Sys>, steps: seq<Step>, k: nat, t: Tid, outcome: Outcome)
    requires IsRun(ss, steps) && k < |steps|
  {
    match steps[k]
    case EnterLock(u) =>
      u == t && Cached(ss[k].shared, ss[k].now) && outcome == Served(ss[k].shared.token, ss[k].source, ss[k].now)
    case SettleLock(u) =>
      && u == t && ss[k].threads[t].pc.flight < |ss[k + 1].flights|
      && var f := ss[k].threads[t].pc.flight;
      && (match ss[k + 1].flights[f]
          case Landed(token, _, _) => outcome == Served(token, f, ss[k].now)
          case Crashed(e) => outcome == Failed(e)
          case Open(_) => false)
    case Wake(u) => u == t && ss[k].flights[ss[k].threads[t].pc.flight].Crashed?
                    && outcome == Failed(ss[k].flights[ss[k].threads[t].pc.flight].error)
    case GiveUp(u) => u == t && outcome == Failed(ErrUnavailable)
    case _ => false
  }

  /** Every result of a call has such a cause: the cached token, its own flight's result, the error
      of the flight it waited for, or ErrUnavailable for a cancelled call. */
  lemma {:induction false} OutcomesHaveCauses(ss: seq<Sys>, steps: seq<Step>, j: nat, t: Tid)
    requires IsRun(ss, steps) && j < |ss| && t < |ss[j].threads| && ss[j].threads[t].pc.Returned?
    ensures exists k: nat :: k < j && Decides(ss, steps, k, t, ss[j].threads[t].pc.outcome)
  {
    var s, step := ss[j - 1], steps[j - 1];
    RunKeepsInv(ss, steps, j - 1);
    if step.Tick? || step.Drop? || step.tid != t {
      assert ss[j].threads[t] == s.threads[t];
      OutcomesHaveCauses(ss, steps, j - 1, t);
    } else {
      assert Decides(ss, steps, j - 1, t, ss[j].threads[t].pc.outcome);
    }
  }

  /** What entering the lock leads to: the cached token while it lives; otherwise the token is
      forgotten, and the call joins the flight that is open, or opens one if none is. */
  lemma EnteringDecides(ss: seq<Sys>, steps: seq<Step>, j: nat, t: Tid)
    requires IsRun(ss, steps) && j < |steps| && steps[j] == EnterLock(t)
    ensures var s, s' := ss[j], ss[j + 1];
            var live := s.shared.token != "" && s.now < s.shared.deadline;
            && s'.shared.token == (if live then s.shared.token else "")
            && s'.threads[t].begun == (if s'.threads[t].pc.Launched? then 1 else 0)
            && (live <==> s'.threads[t].pc == Returned(Served(s.shared.token, s.source, s.now)))
            && (!live ==>
                  if exists f: nat :: f < |s.flights| && s.flights[f].Open?
                  then s'.flights == s.flights && s'.threads[t].pc.Waiting?
                       && s'.threads[t].pc.flight < |s.flights| && s.flights[s'.threads[t].pc.flight].Open?
                  else s'.threads[t].pc == Launched(|s.flights|) && s'.flights == s.flights + [Open(t)])
  {
    RunKeepsInv(ss, steps, j);
  }

  /** Freshness: every token handed out, from the cache or to its initiator, came from a flight
      that obtained it, and the decision fell before start + min(expires_in, maximum), where start
      is the clock when that flight's acquisition began and expires_in is what the issuer answered. */
  lemma ServedFresh(ss: seq<Sys>, steps: seq<Step>, i: nat, t: Tid)
    requires IsRun(ss, steps) && i < |ss| && t < |ss[i].threads|
    requires ss[i].threads[t].pc.Returned? && ss[i].threads[t].pc.outcome.Served?
    ensures var o := ss[i].threads[t].pc.outcome;
            && o.token != "" && o.source < |ss[i].flights| && ss[i].flights[o.source].Landed?
            && var f := ss[i].flights[o.source];
            && f.token == o.token
            && f.start <= o.at <= ss[i].now
            && o.at < f.start + f.expiresIn * 1_000_000_000
            && o.at < f.start + ss[i].maxSeconds * 1_000_000_000
            && SettledBefore(ss, steps, i, o.source, f)
  {
    RunKeepsInv(ss, steps, i);
    FlightHistory(ss, steps, i, ss[i].threads[t].pc.outcome.source);
    assert ThreadInv(ss[i], ss[i].threads[t]);
  }

  /** One call initiates at most one acquisition, and its loop-backs are distinct landed flights. */
  lemma OneAcquisitionPerCall(ss: seq<Sys>, steps: seq<Step>, i: nat, t: Tid)
    requires IsRun(ss, steps) && i < |ss| && t < |ss[i].threads|
    ensures ss[i].threads[t].begun <= 1
    ensures Distinct(ss[i].threads[t].joined)
    ensures forall f | f in ss[i].threads[t].joined :: f < |ss[i].flights| && ss[i].flights[f].Landed?
  {
    RunKeepsInv(ss, steps, i);
    assert ThreadInv(ss[i], ss[i].threads[t]);
  }

  /** Once a call has launched, it never comes back to the top of the loop. */
  lemma {:induction false} LaunchedNeverLoops(ss: seq<Sys>, steps: seq<Step>, l: nat, j: nat, t: Tid)
    requires IsRun(ss, steps) && l < j < |ss| && steps[l] == EnterLock(t) && Launches(ss[l], steps[l])
    requires forall c | l < c < j :: steps[c] != Call(t)
    ensures t < |ss[j].threads| && (Initiated(ss[j].threads[t].pc).Some? || ss[j].threads[t].pc.Returned?)
  {
    if j > l + 1 {
      LaunchedNeverLoops(ss, steps, l, j - 1, t);
    }
  }

  /** Counted in steps: between two launches of one goroutine there is a new call. */
  lemma OneLaunchPerCall(ss: seq<Sys>, steps: seq<Step>, l: nat, j: nat)
    requires IsRun(ss, steps) && l < j < |steps|
    requires Launches(ss[l], steps[l]) && Launches(ss[j], steps[j]) && steps[l].tid == steps[j].tid
    ensures exists c :: l < c < j && steps[c] == Call(steps[j].tid)
  {
    if forall c | l < c < j :: steps[c] != Call(steps[j].tid) {
      LaunchedNeverLoops(ss, steps, l, j, steps[j].tid);
    }
  }

  /** Step w is a loop-back: this thread wakes to a flight that landed. */
  predicate LoopsBack(ss: seq<Sys>, steps: seq<Step>, w: nat, t: Tid)
    requires IsRun(ss, steps) && w < |steps|
  {
    steps[w] == Wake(t) && ss[w].flights[ss[w].threads[t].pc.flight].Landed?
  }

  lemma JoinedGrows(s: Sys, step: Step, t: Tid)
    requires Enabled(s, step) && t < |s.threads| && step != Call(t)
    ensures |Apply(s, step).threads| == |s.threads| && s.threads[t].joined <= Apply(s, step).threads[t].joined
  {
  }

  lemma {:induction false} JoinedStays(ss: seq<Sys>, steps: seq<Step>, w: nat, j: nat, t: Tid)
    requires IsRun(ss, steps) && w < j < |ss| && LoopsBack(ss, steps, w, t)
    requires forall c | w < c < j :: steps[c] != Call(t)
    ensures t < |ss[j].threads| && ss[w].threads[t].pc.flight in ss[j].threads[t].joined
  {
    if j > w + 1 {
      JoinedStays(ss, steps, w, j - 1, t);
      JoinedGrows(ss[j - 1], steps[j - 1], t);
    }
  }

  /** Counted in steps: k loop-backs of one call are k different flights. */
  lemma LoopBacksDiffer(ss: seq<Sys>, steps: seq<Step>, w: nat, j: nat, t: Tid)
    requires IsRun(ss, steps) && w < j < |steps| && LoopsBack(ss, steps, w, t) && LoopsBack(ss, steps, j, t)
    requires forall c | w < c < j :: steps[c] != Call(t)
    ensures ss[w].threads[t].pc.flight != ss[j].threads[t].pc.flight
  {
    JoinedStays(ss, steps, w, j, t);
    RunKeepsInv(ss, steps, j);
    assert ThreadInv(ss[j], ss[j].threads[t]);
  }

  /** A flight's error is final, and every waiter that wakes to it returns that error and no other. */
  lemma FailureShared(ss: seq<Sys>, steps: seq<Step>, i: nat, j: nat, f: FlightId)
    requires IsRun(ss, steps) && i <= j < |steps|
    requires f < |ss[i].flights| && ss[i].flights[f].Crashed?
    ensures f < |ss[j].flights| && ss[j].flights[f] == ss[i].flights[f]
    ensures steps[j].Wake? && ss[j].threads[steps[j].tid].pc.flight == f ==>
              ss[j + 1].threads[steps[j].tid].pc == Returned(Failed(ss[i].flights[f].error))
  {
    RunExtends(ss, steps, i, j);
  }

  /** In every run, a settling that returns an error leaves the cache empty and its flight crashed
      with that error, one that returns a token leaves it landed with that token, and a waiter that
      wakes to a landed flight tries the cache again. */
  lemma NoCachedFailure(ss: seq<Sys>, steps: seq<Step>, j: nat)
    requires IsRun(ss, steps) && j < |steps|
    ensures steps[j].SettleLock? ==>
              && var f := ss[j].threads[steps[j].tid].pc.flight;
              && var outcome := ss[j + 1].threads[steps[j].tid].pc.outcome;
              && ss[j].flights[f] == Open(steps[j].tid)
              && (outcome.Failed? ==> ss[j + 1].shared.token == "" && ss[j + 1].flights[f] == Crashed(outcome.error))
              && (outcome.Served? ==>
                    && outcome.source == ss[j + 1].source == f && ss[j + 1].shared.token == outcome.token
                    && LandedWell(ss[j + 1], f, outcome.token))
    ensures steps[j].Wake? && ss[j].flights[ss[j].threads[steps[j].tid].pc.flight].Landed? ==>
              ss[j + 1].threads[steps[j].tid].pc == Top
  {
    RunKeepsInv(ss, steps, j);
    if steps[j].SettleLock? {
      assert Initiated(ss[j].threads[steps[j].tid].pc).Some?;
    }
  }

  /** A step of thread t that needs neither a new call nor a cancellation. */
  predicate Advances(s: Sys, step: Step, t: Tid) {
    && Enabled(s, step) && (step.EnterLock? || step.ReadStart? || step.Answered? || step.SettleLock? || step.Wake?)
    && step.tid == t
  }

  lemma InitiatorCanAdvance(s: Sys, t: Tid) returns (step: Step)
    requires Inv(s) && t < |s.threads| && Initiated(s.threads[t].pc).Some?
    ensures Advances(s, step, t)
  {
    assert s.flights[s.shared.acquiring.value] == Open(t);
    match s.threads[t].pc {
      case Launched(_) => step := ReadStart(t);
      case Fetching(_, _) => step := Answered(t, Refuse(ErrUnavailable));
      case Fetched(_, _, _) => step := SettleLock(t);
    }
  }

  /** The thread can move on itself, or it waits for a flight whose initiator can. */
  ghost predicate CanGoOn(s: Sys, t: Tid)
    requires t < |s.threads|
  {
    exists u: Tid, step :: Advances(s, step, u)
      && (u == t || (s.threads[t].pc.Waiting? && u < |s.threads|
                     && Initiated(s.threads[u].pc) == Some(s.threads[t].pc.flight)))
  }

  lemma NotStuck(s: Sys, t: Tid)
    requires Inv(s) && t < |s.threads| && !s.threads[t].pc.Idle? && !s.threads[t].pc.Returned?
    ensures CanGoOn(s, t)
  {
    assert ThreadInv(s, s.threads[t]);
    var pc := s.threads[t].pc;
    if pc.Top? {
      assert Advances(s, EnterLock(t), t);
    } else if Initiated(pc).Some? {
      var step := InitiatorCanAdvance(s, t);
      assert Advances(s, step, t);
    } else if s.flights[pc.flight].Open? {
      var step := InitiatorCanAdvance(s, s.flights[pc.flight].initiator);
      assert Advances(s, step, s.flights[pc.flight].initiator);
    } else {
      assert Advances(s, Wake(t), t);
    }
  }

  /** No lost wake-up: a waiter's flight is closed, and then it can wake, or it has a live
      initiator, which can advance.  So no call is ever stuck. */
  lemma NoLostWakeUp(ss: seq<Sys>, steps: seq<Step>, i: nat, t: Tid)
    requires IsRun(ss, steps) && i < |ss| && t < |ss[i].threads|
    requires !ss[i].threads[t].pc.Idle? && !ss[i].threads[t].pc.Returned?
    ensures CanGoOn(ss[i], t)
  {
    RunKeepsInv(ss, steps, i);
    NotStuck(ss[i], t);
  }

  // ---------------------------------------------------------------- the loop of line 22 ends

  /** 1 for a call that may still open a flight. */
  function MayLaunch(th: Thread): nat {
    if th.begun == 0 && (th.pc.Top? || th.pc.Waiting?) then 1 else 0
  }

  /** All flights there can be before the next call begins. */
  function FlightBudget(s: Sys): nat {
    |s.flights| + Sum(s.threads, MayLaunch)
  }

  /** How many more steps a thread can take with that many flights to join. */
  function Rank(th: Thread, budget: nat): nat {
    var left := if |th.joined| <= budget then budget - |th.joined| else 0;
    match th.pc
    case Idle => 0
    case Returned(_) => 0
    case Fetched(_, _, _) => 1
    case Fetching(_, _) => 2
    case Launched(_) => 3
    case Waiting(_) => 3 + 2 * left
    case Top => 4 + 2 * left
  }

  function RankUnder(budget: nat): Thread -> nat {
    th => Rank(th, budget)
  }

  function Measure(s: Sys): nat {
    Sum(s.threads, RankUnder(FlightBudget(s)))
  }

  predicate ThreadStep(step: Step) {
    !step.Tick? && !step.Drop? && !step.Call?
  }

  lemma BudgetNeverGrows(s: Sys, step: Step)
    requires Inv(s) && Enabled(s, step) && !step.Call?
    ensures FlightBudget(Apply(s, step)) <= FlightBudget(s)
  {
    var s' := Apply(s, step);
    if ThreadStep(step) {
      var t := step.tid;
      assert s'.threads == s.threads[t := s'.threads[t]];
      SumUpdate(s.threads, MayLaunch, t, s'.threads[t]);
      assert ThreadInv(s, s.threads[t]);
    }
  }

  lemma JoinedWithinBudget(s: Sys, t: Tid)
    requires Inv(s) && t < |s.threads|
    ensures |s.threads[t].joined| <= |s.flights|
    ensures s.threads[t].pc.Waiting? ==>
              |s.threads[t].joined| < |s.flights|
  {
    var th := s.threads[t];
    assert ThreadInv(s, th);
    Pigeonhole(th.joined, |s.flights|);
    if th.pc.Waiting? {
      Pigeonhole(th.joined + [th.pc.flight], |s.flights|);
    }
  }

  lemma RankMonotone(th: Thread, b: nat, b': nat)
    requires b' <= b
    ensures Rank(th, b') <= Rank(th, b)
  {
  }

  lemma ActorRankDrops(s: Sys, step: Step, budget: nat)
    requires Inv(s) && Enabled(s, step) && ThreadStep(step)
    requires |s.flights| <= budget
    ensures Rank(Apply(s, step).threads[step.tid], budget) < Rank(s.threads[step.tid], budget)
  {
    JoinedWithinBudget(s, step.tid);
  }

  lemma MeasureDrops(s: Sys, step: Step)
    requires Inv(s) && Enabled(s, step) && !step.Call?
    ensures Measure(Apply(s, step)) + (if ThreadStep(step) then 1 else 0) <= Measure(s)
  {
    var s' := Apply(s, step);
    BudgetNeverGrows(s, step);
    var b, b' := FlightBudget(s), FlightBudget(s');
    var i := if ThreadStep(step) then step.tid else |s.threads|;
    if ThreadStep(step) {
      ActorRankDrops(s, step, b);
    }
    forall k | 0 <= k < |s.threads|
      ensures Rank(s'.threads[k], b') <= Rank(s.threads[k], b)
      ensures ThreadStep(step) && k == step.tid ==> Rank(s'.threads[k], b') < Rank(s.threads[k], b)
    {
      RankMonotone(s'.threads[k], b, b');
      assert k == i || s'.threads[k] == s.threads[k];
    }
    SumDrops(s.threads, RankUnder(b), s'.threads, RankUnder(b'), i);
  }

  /** The steps threads take from i up to j. */
  function Taken(steps: seq<Step>, i: nat, j: nat): set<nat>
    requires j <= |steps|
  {
    set k | i <= k < j && ThreadStep(steps[k])
  }

  lemma NoneTaken(steps: seq<Step>, i: nat)
    requires i <= |steps|
    ensures |Taken(steps, i, i)| == 0
  {
  }

  lemma TakenGrows(steps: seq<Step>, i: nat, j: nat)
    requires i <= j < |steps|
    ensures |Taken(steps, i, j + 1)| == |Taken(steps, i, j)| + (if ThreadStep(steps[j]) then 1 else 0)
  {
    assert Taken(steps, i, j + 1) == Taken(steps, i, j) + (if ThreadStep(steps[j]) then {j} else {});
  }

  /** However calls wait, loop and are woken, they end: between two new calls the threads take
      no more steps than the measure of the state they start from. */
  lemma {:induction false} CallsEnd(ss: seq<Sys>, steps: seq<Step>, i: nat, j: nat)
    requires IsRun(ss, steps) && i <= j <= |steps|
    requires forall k | i <= k < j :: !steps[k].Call?
    ensures |Taken(steps, i, j)| + Measure(ss[j]) <= Measure(ss[i])
  {
    if i < j {
      CallsEnd(ss, steps, i, j - 1);
      RunKeepsInv(ss, steps, j - 1);
      MeasureDrops(ss[j - 1], steps[j - 1]);
      TakenGrows(steps, i, j - 1);
    } else {
      NoneTaken(steps, i);
    }
  }
}
