/** The two transition systems together: goroutines that authenticate over one Mailpit verifier
    (ChallengeRuns) and take the registry's access token from one cache (TokenFlights), as
    provider/provider.go:105-124 has each call the one and then, through provider/http.go:127-134,
    the other. */
module PaidRuns {
  import opened Counting
  import C = ChallengeRuns
  import T = TokenFlights
  import ChallengeStore

  /** due: the goroutines that have verified a code and not yet called accessToken for it. */
  datatype Sys = Sys(c: C.Sys, k: T.Sys, due: set<nat>)

  datatype Step = Challenge(c: C.Step) | Token(k: T.Step)

  predicate Init(s: Sys) {
    C.Init(s.c) && T.Init(s.k) && s.due == {} && |s.c.threads| == |s.k.threads|
  }

  /** accessToken is called once for each verified code; its caller goes on when it has returned,
      with the token or with its error. */
  predicate Enabled(s: Sys, step: Step) {
    match step
    case Challenge(c) =>
      && C.Enabled(s.c, c)
      && (c.TakeToken? ==>
            && c.tid !in s.due && c.tid < |s.k.threads|
            && s.k.threads[c.tid].pc.Returned? && s.k.threads[c.tid].pc.outcome.Served?
            && c.requested == (s.k.threads[c.tid].begun == 1))
      && (c.Refuse? ==> c.tid in s.due || (c.tid < |s.k.threads| && s.k.threads[c.tid].pc.Returned?))
    case Token(k) =>
      T.Enabled(s.k, k) && (k.Call? ==> k.tid in s.due)
  }

  function Apply(h: ChallengeStore.Hash, s: Sys, step: Step): Sys
    requires Enabled(s, step)
  {
    match step
    case Challenge(c) =>
      var next := C.Apply(h, s.c, c);
      Sys(next, s.k,
          if c.Verify? && next.threads[c.tid].Approved? then s.due + {c.tid}
          else if c.Refuse? then s.due - {c.tid}
          else s.due)
    case Token(k) =>
      Sys(s.c, T.Apply(s.k, k), if k.Call? then s.due - {k.tid} else s.due)
  }

  predicate IsRun(h: ChallengeStore.Hash, ss: seq<Sys>, steps: seq<Step>) {
    && |ss| == |steps| + 1
    && Init(ss[0])
    && forall i | 0 <= i < |steps| :: Enabled(ss[i], steps[i]) && ss[i + 1] == Apply(h, ss[i], steps[i])
  }

  /** Inside accessToken. */
  predicate Calling(pc: T.Pc) {
    !pc.Idle? && !pc.Returned?
  }

  predicate CallersApproved(s: Sys) {
    && |s.c.threads| == |s.k.threads|
    && (forall t | t in s.due :: t < |s.c.threads| && s.c.threads[t].Approved? && !Calling(s.k.threads[t].pc))
    && (forall t: nat | t < |s.k.threads| && Calling(s.k.threads[t].pc) :: s.c.threads[t].Approved?)
    && (forall t: nat | t < |s.c.threads| && s.c.threads[t].Approved? ::
          t in s.due || Calling(s.k.threads[t].pc) || s.k.threads[t].pc.Returned?)
  }

  /** All the flights there can be without another verified code are paid for. */
  predicate FlightsPaid(s: Sys) {
    T.FlightBudget(s.k) + |s.due| <= s.c.approvals
  }

  predicate Inv(s: Sys) {
    T.Inv(s.k) && C.PaidInv(s.c) && CallersApproved(s) && FlightsPaid(s)
  }

  lemma CallAddsOne(k: T.Sys, t: nat)
    requires T.Enabled(k, T.Call(t))
    ensures T.FlightBudget(T.Apply(k, T.Call(t))) <= T.FlightBudget(k) + 1
  {
    SumUpdate(k.threads, T.MayLaunch, t, T.Thread(T.Top, 0, []));
  }

  lemma ChallengeKeepsCallers(h: ChallengeStore.Hash, s: Sys, c: C.Step)
    requires CallersApproved(s) && Enabled(s, Challenge(c))
    ensures CallersApproved(Apply(h, s, Challenge(c)))
  {
  }

  lemma TokenKeepsCallers(h: ChallengeStore.Hash, s: Sys, k: T.Step)
    requires CallersApproved(s) && Enabled(s, Token(k))
    ensures CallersApproved(Apply(h, s, Token(k)))
  {
  }

  lemma StepKeepsFlightsPaid(h: ChallengeStore.Hash, s: Sys, step: Step)
    requires Inv(s) && Enabled(s, step)
    ensures FlightsPaid(Apply(h, s, step))
  {
    match step {
      case Challenge(c) => ApprovalsPay(h, s.c, c);
      case Token(k) =>
        if k.Call? {
          CallAddsOne(s.k, k.tid);
        } else {
          T.BudgetNeverGrows(s.k, k);
        }
    }
  }

  /** Only a verified code adds to the approvals, and it is verified by an idle goroutine. */
  lemma ApprovalsPay(h: ChallengeStore.Hash, s: C.Sys, c: C.Step)
    requires C.Enabled(s, c)
    ensures var next := C.Apply(h, s, c);
            next.approvals == s.approvals + (if c.Verify? && next.threads[c.tid].Approved? then 1 else 0)
  {
  }

  lemma {:induction false} RunKeepsInv(h: ChallengeStore.Hash, ss: seq<Sys>, steps: seq<Step>, i: nat)
    requires IsRun(h, ss, steps) && i < |ss|
    ensures Inv(ss[i])
  {
    if i == 0 {
      SumZero(ss[0].c.threads, C.OwesToken);
      SumZero(ss[0].c.threads, C.OwesLookup);
      SumZero(ss[0].k.threads, T.MayLaunch);
    } else {
      var s, step := ss[i - 1], steps[i - 1];
      RunKeepsInv(h, ss, steps, i - 1);
      StepKeepsFlightsPaid(h, s, step);
      if step.Challenge? {
        ChallengeKeepsCallers(h, s, step.c);
        C.StepKeepsPaid(h, s.c, step.c);
      } else {
        TokenKeepsCallers(h, s, step.k);
        T.StepKeepsInv(s.k, step.k);
      }
    }
  }

  /** Requests to the issuer are paid for: over any interleaving of sends, authentications, waits,
      wake-ups and invalidations, the acquisitions ever started never exceed the verified codes, nor
      those the published challenges. */
  lemma AcquisitionsPaidFor(h: ChallengeStore.Hash, ss: seq<Sys>, steps: seq<Step>, i: nat)
    requires IsRun(h, ss, steps) && i < |ss|
    ensures |ss[i].k.flights| <= ss[i].c.approvals <= Sum(ss[i].c.log, C.IsPublication)
    ensures ss[i].c.lookups <= ss[i].c.approvals
  {
    RunKeepsInv(h, ss, steps, i);
  }

  /** Whoever is inside accessToken, and so whoever starts an acquisition, has verified a code and
      waits for nothing else. */
  lemma AcquirersVerified(h: ChallengeStore.Hash, ss: seq<Sys>, steps: seq<Step>, i: nat, t: nat)
    requires IsRun(h, ss, steps) && i < |ss| && t < |ss[i].k.threads|
    requires Calling(ss[i].k.threads[t].pc)
    ensures t < |ss[i].c.threads| && ss[i].c.threads[t].Approved? && t !in ss[i].due
  {
    RunKeepsInv(h, ss, steps, i);
  }

  /** And whoever has verified a code is served: it can call accessToken, or is inside it and not
      stuck, or can take what it returned, a token for its lookup or a refusal. */
  lemma VerifiedGoOn(h: ChallengeStore.Hash, ss: seq<Sys>, steps: seq<Step>, i: nat, t: nat)
    requires IsRun(h, ss, steps) && i < |ss| && t < |ss[i].c.threads| && ss[i].c.threads[t].Approved?
    ensures t < |ss[i].k.threads|
    ensures var pc := ss[i].k.threads[t].pc;
            || (Calling(pc) && T.CanGoOn(ss[i].k, t))
            || Enabled(ss[i], Token(T.Call(t)))
            || (pc.Returned? && pc.outcome.Served?
                && Enabled(ss[i], Challenge(C.TakeToken(t, ss[i].k.threads[t].begun == 1))))
            || (pc.Returned? && pc.outcome.Failed? && Enabled(ss[i], Challenge(C.Refuse(t))))
  {
    RunKeepsInv(h, ss, steps, i);
    if Calling(ss[i].k.threads[t].pc) {
      T.NotStuck(ss[i].k, t);
    }
  }
}
