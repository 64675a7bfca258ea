/** Any number of goroutines in `SendOTP` and `Authenticate` over one Mailpit verifier
    (provider/mailpit.go:73-151, provider/provider.go:105-124), as a transition system.  A step
    is one region under the mutex or one action outside it; the clock is monotone. */
module ChallengeRuns {
  import opened Requests
  import opened ChallengeStore
  import opened Counting

  datatype Pc =
    | Idle
    | Reserved(key: Key)                        // mailpit.go:93, reservation taken
    | Prepared(key: Key, challenge: Challenge)  // 106-112, code being delivered
    | Releasing                                 // 114, published, release still deferred
    | Failing                                   // an error exit, release still deferred
    | Approved                                  // provider.go:121, verified in a live context
    | Armed                                     // http.go:135, holding an access token

  /** What happened to the store, in lock order: challenges published and codes compared or refused. */
  datatype Event = Published(key: Key, challenge: Challenge) | Tried(key: Key, code: string)

  datatype Sys = Sys(
    now: int,
    pending: map<Key, Challenge>,
    inFlight: int,
    threads: seq<Pc>,
    log: seq<Event>,
    approvals: nat,
    tokenRequests: nat,
    lookups: nat)

  datatype Step =
    | Tick(elapsed: nat)
    | Reserve(tid: nat, key: Key, kept: map<Key, Challenge>, since: int)
    | Prepare(tid: nat, salt: Salt, code: string)
    | Publish(tid: nat)
    | Abandon(tid: nat)
    | Release(tid: nat)
    | Verify(tid: nat, key: Key, code: string)
    | TakeToken(tid: nat, requested: bool)
    | Lookup(tid: nat)
    | Refuse(tid: nat)

  predicate Init(s: Sys) {
    && s.pending == map[] && s.inFlight == 0 && s.log == []
    && s.approvals == s.tokenRequests == s.lookups == 0
    && forall t | 0 <= t < |s.threads| :: s.threads[t] == Idle
  }

  predicate Enabled(s: Sys, step: Step) {
    step.Tick? || (step.tid < |s.threads| && EnabledAt(s, s.threads[step.tid], step))
  }

  predicate EnabledAt(s: Sys, pc: Pc, step: Step) {
    match step
    case Tick(_) => true
    case Reserve(_, _, kept, since) => pc.Idle? && since <= s.now && Swept(s.pending, kept, since, s.now)
    case Prepare(_, _, _) => pc.Reserved?
    case Publish(_) => pc.Prepared?
    case Abandon(_) => pc.Reserved? || pc.Prepared?
    case Release(_) => pc.Releasing? || pc.Failing?
    case Verify(_, _, _) => pc.Idle?
    case TakeToken(_, _) => pc.Approved?
    case Lookup(_) => pc.Armed?
    case Refuse(_) => pc.Approved? || pc.Armed?
  }

  function Moved(s: Sys, t: nat, pc: Pc): Sys
    requires t < |s.threads|
  {
    s.(threads := s.threads[t := pc])
  }

  function Apply(h: Hash, s: Sys, step: Step): Sys
    requires Enabled(s, step)
  {
    match step
    case Tick(d) => s.(now := s.now + d)
    case Reserve(t, key, kept, _) =>
      if |kept| + s.inFlight >= MAX_PENDING then s.(pending := kept)
      else Moved(s, t, Reserved(key)).(pending := kept, inFlight := s.inFlight + 1)
    case Prepare(t, salt, code) =>
      Moved(s, t, Prepared(s.threads[t].key, Challenge(h(salt, code), salt, s.now + TTL, 0)))
    case Publish(t) =>
      var Prepared(key, c) := s.threads[t];
      Moved(s, t, Releasing).(pending := s.pending[key := c], log := s.log + [Published(key, c)])
    case Abandon(t) => Moved(s, t, Failing)
    case Release(t) => Moved(s, t, Idle).(inFlight := s.inFlight - 1)
    case Verify(t, key, code) =>
      var (pending, ok) := Verified(h, s.pending, key, code, s.now);
      Moved(s, t, if ok then Approved else Idle).(
        pending := pending, log := s.log + [Tried(key, code)], approvals := s.approvals + if ok then 1 else 0)
    case TakeToken(t, requested) => Moved(s, t, Armed).(tokenRequests := s.tokenRequests + if requested then 1 else 0)
    case Lookup(t) => Moved(s, t, Idle).(lookups := s.lookups + 1)
    case Refuse(t) => Moved(s, t, Idle)
  }

  predicate IsRun(h: Hash, ss: seq<Sys>, steps: seq<Step>) {
    && |ss| == |steps| + 1
    && Init(ss[0])
    && forall i | 0 <= i < |steps| :: Enabled(ss[i], steps[i]) && ss[i + 1] == Apply(h, ss[i], steps[i])
  }

  // ---------------------------------------------------------------- capacity

  function Holds(pc: Pc): nat {
    if pc.Reserved? || pc.Prepared? || pc.Releasing? || pc.Failing? then 1 else 0
  }

  function Unpublished(pc: Pc): nat {
    if pc.Reserved? || pc.Prepared? || pc.Failing? then 1 else 0
  }

  function PublishedHolding(pc: Pc): nat {
    if pc.Releasing? then 1 else 0
  }

  predicate CapacityInv(s: Sys) {
    && s.inFlight == Sum(s.threads, Holds)
    && |s.pending| + Sum(s.threads, Unpublished) <= MAX_PENDING
  }

  lemma SubmapSize(a: map<Key, Challenge>, b: map<Key, Challenge>)
    requires a.Keys <= b.Keys
    ensures |a| <= |b|
  {
    SubsetSize(a.Keys, b.Keys);
    assert |a| == |a.Keys| && |b| == |b.Keys|;
  }

  lemma {:induction false} SubsetSize<T>(a: set<T>, b: set<T>)
    requires a <= b
    ensures |a| <= |b|
  {
    assert b == a + (b - a);
  }

  lemma VerifiedShrinks(h: Hash, pending: map<Key, Challenge>, key: Key, code: string, now: int)
    ensures Verified(h, pending, key, code, now).0.Keys <= pending.Keys
    ensures Verified(h, pending, key, code, now).1 ==>
              key in pending && Verified(h, pending, key, code, now).0.Keys == pending.Keys - {key}
  {
  }

  lemma HoldsSplit(threads: seq<Pc>)
    ensures Sum(threads, Holds) == Sum(threads, Unpublished) + Sum(threads, PublishedHolding)
  {
  }

  /** One thread moving from one place to another shifts both sums by its own share. */
  lemma MoveShifts(threads: seq<Pc>, t: nat, pc: Pc)
    requires t < |threads|
    ensures Sum(threads[t := pc], Holds) == Sum(threads, Holds) - Holds(threads[t]) + Holds(pc)
    ensures Sum(threads[t := pc], Unpublished) == Sum(threads, Unpublished) - Unpublished(threads[t]) + Unpublished(pc)
    ensures Sum(threads, Unpublished) <= Sum(threads, Holds)
  {
    SumUpdate(threads, Holds, t, pc);
    SumUpdate(threads, Unpublished, t, pc);
    HoldsSplit(threads);
  }

  lemma ReserveKeepsCapacity(h: Hash, s: Sys, step: Step)
    requires CapacityInv(s) && Enabled(s, step) && step.Reserve?
    ensures CapacityInv(Apply(h, s, step))
  {
    MoveShifts(s.threads, step.tid, Reserved(step.key));
    SubmapSize(step.kept, s.pending);
  }

  lemma PublishKeepsCapacity(h: Hash, s: Sys, step: Step)
    requires CapacityInv(s) && Enabled(s, step) && step.Publish?
    ensures CapacityInv(Apply(h, s, step))
  {
    MoveShifts(s.threads, step.tid, Releasing);
    PublishGrows(s.pending, s.threads[step.tid].key, s.threads[step.tid].challenge);
  }

  lemma VerifyKeepsCapacity(h: Hash, s: Sys, step: Step)
    requires CapacityInv(s) && Enabled(s, step) && step.Verify?
    ensures CapacityInv(Apply(h, s, step))
  {
    var s' := Apply(h, s, step);
    MoveShifts(s.threads, step.tid, s'.threads[step.tid]);
    VerifiedShrinks(h, s.pending, step.key, step.code, s.now);
    SubmapSize(s'.pending, s.pending);
  }

  lemma StepKeepsCapacity(h: Hash, s: Sys, step: Step)
    requires CapacityInv(s) && Enabled(s, step)
    ensures CapacityInv(Apply(h, s, step))
  {
    if step.Reserve? {
      ReserveKeepsCapacity(h, s, step);
    } else if step.Publish? {
      PublishKeepsCapacity(h, s, step);
    } else if step.Verify? {
      VerifyKeepsCapacity(h, s, step);
    } else if !step.Tick? {
      MoveShifts(s.threads, step.tid, Apply(h, s, step).threads[step.tid]);
    }
  }

  lemma {:induction false} RunKeepsCapacity(h: Hash, ss: seq<Sys>, steps: seq<Step>, i: nat)
    requires IsRun(h, ss, steps) && i < |ss|
    ensures CapacityInv(ss[i])
  {
    if i == 0 {
      SumZero(ss[0].threads, Holds);
      SumZero(ss[0].threads, Unpublished);
    } else {
      RunKeepsCapacity(h, ss, steps, i - 1);
      StepKeepsCapacity(h, ss[i - 1], steps[i - 1]);
    }
  }

  /** The bound in every reachable state: pending challenges and sends still to publish share
      1024 places; the source's own sum exceeds that by no more than the senders between
      publish and release; and no reservation outlives its send. */
  lemma CapacityBound(h: Hash, ss: seq<Sys>, steps: seq<Step>, i: nat)
    requires IsRun(h, ss, steps) && i < |ss|
    ensures |ss[i].pending| + Sum(ss[i].threads, Unpublished) <= 1024
    ensures |ss[i].pending| <= 1024
    ensures |ss[i].pending| + ss[i].inFlight <= 1024 + Sum(ss[i].threads, PublishedHolding)
    ensures 0 <= ss[i].inFlight
    ensures (forall t | 0 <= t < |ss[i].threads| :: Holds(ss[i].threads[t]) == 0) ==> ss[i].inFlight == 0
  {
    RunKeepsCapacity(h, ss, steps, i);
    HoldsSplit(ss[i].threads);
    if forall t | 0 <= t < |ss[i].threads| :: Holds(ss[i].threads[t]) == 0 {
      SumZero(ss[i].threads, Holds);
    }
  }

  lemma {:induction false} ReserveAll(h: Hash, key: Key, n: nat) returns (ss: seq<Sys>, steps: seq<Step>)
    requires n <= MAX_PENDING
    ensures IsRun(h, ss, steps)
    ensures var s := ss[|ss| - 1];
            && s.pending == map[] && s.inFlight == n && |s.threads| == MAX_PENDING
            && (forall t | 0 <= t < n :: s.threads[t] == Reserved(key))
            && (forall t | n <= t < MAX_PENDING :: s.threads[t] == Idle)
  {
    if n == 0 {
      steps := [];
      ss := [Sys(0, map[], 0, seq(MAX_PENDING, _ => Idle), [], 0, 0, 0)];
    } else {
      ss, steps := ReserveAll(h, key, n - 1);
      var s := ss[|ss| - 1];
      var step := Reserve(n - 1, key, map[], s.now);
      var s' := Apply(h, s, step);
      ss, steps := ss + [s'], steps + [step];
    }
  }

  /** The sum the source tests is not itself bounded by 1024: 1024 sends reserve, one publishes. */
  lemma SourceSumExceedsBound(h: Hash, key: Key) returns (ss: seq<Sys>, steps: seq<Step>)
    ensures IsRun(h, ss, steps)
    ensures |ss[|ss| - 1].pending| + ss[|ss| - 1].inFlight == 1025
  {
    ss, steps := ReserveAll(h, key, MAX_PENDING);
    var s0 := ss[|ss| - 1];
    var s1 := Apply(h, s0, Prepare(0, [], ""));
    var s2 := Apply(h, s1, Publish(0));
    ss, steps := ss + [s1, s2], steps + [Prepare(0, [], ""), Publish(0)];
    assert s2.pending.Keys == {key};
  }

  // ---------------------------------------------------------------- the store and its history

  /** Entry i is the last challenge published for exactly this key. */
  ghost predicate LastPublished(log: seq<Event>, key: Key, i: nat) {
    && i < |log| && log[i].Published? && log[i].key == key
    && forall j | i < j < |log| :: !(log[j].Published? && log[j].key == key)
  }

  /** The codes submitted for this key after entry i. */
  ghost function Tries(log: seq<Event>, key: Key, i: nat): set<nat> {
    set j | i < j < |log| && log[j].Tried? && log[j].key == key
  }

  ghost predicate Untouched(h: Hash, log: seq<Event>, key: Key, i: nat)
    requires i < |log| && log[i].Published?
  {
    && |Tries(log, key, i)| < MAX_ATTEMPTS
    && forall j | j in Tries(log, key, i) :: !Matches(h, log[i].challenge, log[j].code)
  }

  /** What the history alone says of a submitted code: the challenge last published for that
      identifier, type and binding is unexpired, fewer than five codes were tried on it, none of
      them matched, and this one does. */
  ghost predicate HistoryAccepts(h: Hash, log: seq<Event>, key: Key, code: string, now: int) {
    exists i: nat :: LastPublished(log, key, i)
      && Live(log[i].challenge, now) && Untouched(h, log, key, i) && Matches(h, log[i].challenge, code)
  }

  /** The store holds a key exactly as far as the history keeps it usable. */
  ghost predicate KeyInv(h: Hash, s: Sys, key: Key) {
    && (key in s.pending ==>
          exists i: nat :: LastPublished(s.log, key, i) && Untouched(h, s.log, key, i)
            && s.pending[key] == s.log[i].challenge.(attempts := |Tries(s.log, key, i)|))
    && (key !in s.pending ==>
          forall i: nat :: LastPublished(s.log, key, i) ==> !Live(s.log[i].challenge, s.now) || !Untouched(h, s.log, key, i))
  }

  ghost predicate HistoryInv(h: Hash, s: Sys) {
    && (forall key :: KeyInv(h, s, key))
    && (forall t | 0 <= t < |s.threads| && s.threads[t].Prepared? :: s.threads[t].challenge.attempts == 0)
  }

  /** How one more event moves the last publication and the tries of a key. */
  lemma LogGrows(log: seq<Event>, e: Event, key: Key, i: nat)
    ensures LastPublished(log + [e], key, i) <==>
              if e.Published? && e.key == key then i == |log| else LastPublished(log, key, i)
    ensures i < |log| && e.Tried? && e.key == key ==>
              Tries(log + [e], key, i) == Tries(log, key, i) + {|log|} && |Tries(log + [e], key, i)| == |Tries(log, key, i)| + 1
    ensures !(e.Tried? && e.key == key) ==> Tries(log + [e], key, i) == Tries(log, key, i)
  {
    assert forall j | 0 <= j < |log| :: (log + [e])[j] == log[j];
    if e.Published? && e.key == key && i != |log| {
      assert (log + [e])[|log|] == e;
    }
    if i < |log| && e.Tried? && e.key == key {
      assert Tries(log + [e], key, i) == Tries(log, key, i) + {|log|};
      assert |log| !in Tries(log, key, i);
    }
  }

  lemma LastPublishedUnique(log: seq<Event>, key: Key, i: nat, j: nat)
    requires LastPublished(log, key, i) && LastPublished(log, key, j)
    ensures i == j
  {
  }

  /** What the store answers is what the history says, whatever was purged meanwhile. */
  lemma StoreAnswersHistory(h: Hash, s: Sys, key: Key, code: string)
    requires KeyInv(h, s, key)
    ensures Verified(h, s.pending, key, code, s.now).1 <==> HistoryAccepts(h, s.log, key, code, s.now)
  {
  }

  lemma QuietKeepsKey(h: Hash, s: Sys, s': Sys, key: Key)
    requires KeyInv(h, s, key)
    requires s'.log == s.log && s.now <= s'.now
    requires key in s'.pending ==> key in s.pending && s'.pending[key] == s.pending[key]
    requires key in s.pending && key !in s'.pending ==> !Live(s.pending[key], s'.now)
    ensures KeyInv(h, s', key)
  {
  }

  /** An event about another key leaves this one alone. */
  lemma ElsewhereKeepsKey(h: Hash, s: Sys, s': Sys, key: Key, e: Event)
    requires KeyInv(h, s, key)
    requires s'.log == s.log + [e] && s'.now == s.now && e.key != key
    requires key in s'.pending <==> key in s.pending
    requires key in s'.pending ==> s'.pending[key] == s.pending[key]
    ensures KeyInv(h, s', key)
  {
    forall i: nat
      ensures LastPublished(s'.log, key, i) <==> LastPublished(s.log, key, i)
      ensures LastPublished(s.log, key, i) ==> (Untouched(h, s'.log, key, i) <==> Untouched(h, s.log, key, i))
      ensures LastPublished(s.log, key, i) ==> s'.log[i] == s.log[i] && Tries(s'.log, key, i) == Tries(s.log, key, i)
    {
      LogGrows(s.log, e, key, i);
    }
  }

  lemma PublishKeepsKey(h: Hash, s: Sys, step: Step)
    requires Enabled(s, step) && step.Publish? && s.threads[step.tid].challenge.attempts == 0
    ensures KeyInv(h, Apply(h, s, step), s.threads[step.tid].key)
  {
    var Prepared(key, c) := s.threads[step.tid];
    var s' := Apply(h, s, step);
    LogGrows(s.log, Published(key, c), key, |s.log|);
    assert Tries(s'.log, key, |s.log|) == {};
    assert LastPublished(s'.log, key, |s.log|) && Untouched(h, s'.log, key, |s.log|);
  }

  lemma VerifyKeepsKey(h: Hash, s: Sys, step: Step)
    requires step.Verify? && Enabled(s, step) && KeyInv(h, s, step.key)
    ensures KeyInv(h, Apply(h, s, step), step.key)
  {
    var key := step.key;
    var e := Tried(key, step.code);
    var s' := Apply(h, s, step);
    forall i: nat
      ensures LastPublished(s'.log, key, i) <==> LastPublished(s.log, key, i)
      ensures LastPublished(s.log, key, i) ==>
                && s'.log[i] == s.log[i] && |Tries(s'.log, key, i)| == |Tries(s.log, key, i)| + 1
                && (Untouched(h, s'.log, key, i) <==>
                      && |Tries(s.log, key, i)| + 1 < MAX_ATTEMPTS
                      && Untouched(h, s.log, key, i) && !Matches(h, s.log[i].challenge, step.code))
    {
      LogGrows(s.log, e, key, i);
      if LastPublished(s.log, key, i) {
        TriedTouches(h, s.log, e, i);
      }
    }
    if key in s.pending {
      var i: nat :| LastPublished(s.log, key, i) && Untouched(h, s.log, key, i)
                    && s.pending[key] == s.log[i].challenge.(attempts := |Tries(s.log, key, i)|);
      assert LastPublished(s'.log, key, i);
      forall j: nat | LastPublished(s'.log, key, j)
        ensures j == i
      {
        LastPublishedUnique(s.log, key, i, j);
      }
    }
  }

  lemma TriedTouches(h: Hash, log: seq<Event>, e: Event, i: nat)
    requires e.Tried? && LastPublished(log, e.key, i)
    ensures Untouched(h, log + [e], e.key, i) <==>
              && |Tries(log, e.key, i)| + 1 < MAX_ATTEMPTS
              && Untouched(h, log, e.key, i) && !Matches(h, log[i].challenge, e.code)
  {
    LogGrows(log, e, e.key, i);
    var log' := log + [e];
    assert log'[|log|] == e && |log| in Tries(log', e.key, i);
    assert forall j | j in Tries(log, e.key, i) :: j in Tries(log', e.key, i) && log'[j] == log[j];
  }

  lemma StepKeepsHistory(h: Hash, s: Sys, step: Step)
    requires HistoryInv(h, s) && Enabled(s, step)
    ensures HistoryInv(h, Apply(h, s, step))
  {
    var s' := Apply(h, s, step);
    forall key
      ensures KeyInv(h, s', key)
    {
      assert KeyInv(h, s, key);
      if step.Publish? {
        var Prepared(k, c) := s.threads[step.tid];
        if key == k {
          PublishKeepsKey(h, s, step);
        } else {
          ElsewhereKeepsKey(h, s, s', key, Published(k, c));
        }
      } else if step.Verify? {
        if key == step.key {
          VerifyKeepsKey(h, s, step);
        } else {
          ElsewhereKeepsKey(h, s, s', key, Tried(step.key, step.code));
        }
      } else {
        QuietKeepsKey(h, s, s', key);
      }
    }
  }

  lemma {:induction false} RunKeepsHistory(h: Hash, ss: seq<Sys>, steps: seq<Step>, i: nat)
    requires IsRun(h, ss, steps) && i < |ss|
    ensures HistoryInv(h, ss[i])
  {
    if i > 0 {
      RunKeepsHistory(h, ss, steps, i - 1);
      StepKeepsHistory(h, ss[i - 1], steps[i - 1]);
    }
  }

  /** Refinement: in every run, a verification succeeds exactly when the history of publications
      and attempts says so. */
  lemma VerifyAnswersHistory(h: Hash, ss: seq<Sys>, steps: seq<Step>, i: nat)
    requires IsRun(h, ss, steps) && i < |steps| && steps[i].Verify?
    ensures ss[i + 1].threads[steps[i].tid].Approved? <==>
              HistoryAccepts(h, ss[i].log, steps[i].key, steps[i].code, ss[i].now)
  {
    RunKeepsHistory(h, ss, steps, i);
    StoreAnswersHistory(h, ss[i], steps[i].key, steps[i].code);
  }

  /** The purge and the lazy deletes are invisible: two runs that agree on the history and the
      clock give every code the same answer, however their stores differ. */
  lemma PurgeChangesNoAnswer(h: Hash, ss: seq<Sys>, steps: seq<Step>, i: nat,
                             ss': seq<Sys>, steps': seq<Step>, j: nat, key: Key, code: string)
    requires IsRun(h, ss, steps) && i < |ss|
    requires IsRun(h, ss', steps') && j < |ss'|
    requires ss[i].log == ss'[j].log && ss[i].now == ss'[j].now
    ensures Verified(h, ss[i].pending, key, code, ss[i].now).1 == Verified(h, ss'[j].pending, key, code, ss[i].now).1
  {
    RunKeepsHistory(h, ss, steps, i);
    RunKeepsHistory(h, ss', steps', j);
    StoreAnswersHistory(h, ss[i], key, code);
    StoreAnswersHistory(h, ss'[j], key, code);
  }

  // ---------------------------------------------------------------- lookups are paid for

  function IsPublication(e: Event): nat {
    if e.Published? then 1 else 0
  }

  function OwesToken(pc: Pc): nat {
    if pc.Approved? then 1 else 0
  }

  function OwesLookup(pc: Pc): nat {
    if pc.Approved? || pc.Armed? then 1 else 0
  }

  predicate PaidInv(s: Sys) {
    && |s.pending| + s.approvals <= Sum(s.log, IsPublication)
    && s.tokenRequests + Sum(s.threads, OwesToken) <= s.approvals
    && s.lookups + Sum(s.threads, OwesLookup) <= s.approvals
  }

  lemma {:induction false} SumAppend(log: seq<Event>, e: Event)
    ensures Sum(log + [e], IsPublication) == Sum(log, IsPublication) + IsPublication(e)
  {
    if log == [] {
      assert log + [e] == [e];
    } else {
      assert (log + [e])[1..] == log[1..] + [e];
      SumAppend(log[1..], e);
    }
  }

  lemma OwedShifts(threads: seq<Pc>, t: nat, pc: Pc)
    requires t < |threads|
    ensures Sum(threads[t := pc], OwesToken) == Sum(threads, OwesToken) - OwesToken(threads[t]) + OwesToken(pc)
    ensures Sum(threads[t := pc], OwesLookup) == Sum(threads, OwesLookup) - OwesLookup(threads[t]) + OwesLookup(pc)
  {
    SumUpdate(threads, OwesToken, t, pc);
    SumUpdate(threads, OwesLookup, t, pc);
  }

  lemma VerifyKeepsPaid(h: Hash, s: Sys, step: Step)
    requires PaidInv(s) && Enabled(s, step) && step.Verify?
    ensures PaidInv(Apply(h, s, step))
  {
    var s' := Apply(h, s, step);
    OwedShifts(s.threads, step.tid, s'.threads[step.tid]);
    VerifiedShrinks(h, s.pending, step.key, step.code, s.now);
    SubmapSize(s'.pending, s.pending);
    SumAppend(s.log, Tried(step.key, step.code));
    if Verified(h, s.pending, step.key, step.code, s.now).1 {
      assert |s'.pending| == |s'.pending.Keys| == |s.pending.Keys - {step.key}| == |s.pending| - 1;
    }
  }

  lemma PublishGrows(pending: map<Key, Challenge>, key: Key, c: Challenge)
    ensures |pending[key := c]| <= |pending| + 1
  {
    assert pending[key := c].Keys == pending.Keys + {key};
    assert |pending[key := c]| == |pending[key := c].Keys| && |pending| == |pending.Keys|;
  }

  lemma StepKeepsPaid(h: Hash, s: Sys, step: Step)
    requires PaidInv(s) && Enabled(s, step)
    ensures PaidInv(Apply(h, s, step))
  {
    var s' := Apply(h, s, step);
    if step.Verify? {
      VerifyKeepsPaid(h, s, step);
    } else if !step.Tick? {
      OwedShifts(s.threads, step.tid, s'.threads[step.tid]);
      if step.Reserve? {
        SubmapSize(step.kept, s.pending);
      } else if step.Publish? {
        var Prepared(key, c) := s.threads[step.tid];
        SumAppend(s.log, Published(key, c));
        PublishGrows(s.pending, key, c);
      }
    }
  }

  lemma {:induction false} RunKeepsPaid(h: Hash, ss: seq<Sys>, steps: seq<Step>, i: nat)
    requires IsRun(h, ss, steps) && i < |ss|
    ensures PaidInv(ss[i])
  {
    if i == 0 {
      SumZero(ss[0].threads, OwesToken);
      SumZero(ss[0].threads, OwesLookup);
    } else {
      RunKeepsPaid(h, ss, steps, i - 1);
      StepKeepsPaid(h, ss[i - 1], steps[i - 1]);
    }
  }

  /** Step k is this thread's successful verification and it took nothing up since but a token. */
  ghost predicate ApprovedSince(h: Hash, ss: seq<Sys>, steps: seq<Step>, t: nat, k: nat, j: nat)
    requires IsRun(h, ss, steps) && j < |ss|
  {
    && k < j && steps[k].Verify? && steps[k].tid == t
    && HistoryAccepts(h, ss[k].log, steps[k].key, steps[k].code, ss[k].now)
    && forall i | k < i < j && !steps[i].Tick? && steps[i].tid == t :: steps[i].TakeToken?
  }

  /** Whoever asks for a token or looks an account up verified a code itself, just before, and
      history accepts that code; so a failed verification causes no token request and no lookup. */
  lemma {:induction false} LookupFollowsApproval(h: Hash, ss: seq<Sys>, steps: seq<Step>, j: nat, t: nat)
    requires IsRun(h, ss, steps) && j < |ss| && t < |ss[j].threads|
    requires ss[j].threads[t].Approved? || ss[j].threads[t].Armed?
    ensures exists k: nat :: ApprovedSince(h, ss, steps, t, k, j)
  {
    var s, step := ss[j - 1], steps[j - 1];
    if step.Verify? && step.tid == t {
      VerifyAnswersHistory(h, ss, steps, j - 1);
      assert ApprovedSince(h, ss, steps, t, j - 1, j);
    } else {
      LookupFollowsApproval(h, ss, steps, j - 1, t);
      var k: nat :| ApprovedSince(h, ss, steps, t, k, j - 1);
      assert ApprovedSince(h, ss, steps, t, k, j);
    }
  }
}
