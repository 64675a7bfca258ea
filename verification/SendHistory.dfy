/** What a run of ChallengeRuns means in terms of its steps alone: which send published which
    challenge, and which code a verification therefore accepts. */
module SendHistory {
  import opened Requests
  import opened ChallengeStore
  import opened ChallengeRuns
  import opened Counting

  // ---------------------------------------------------------------- one send

  /** Between two steps this goroutine takes none. */
  predicate Quiet(steps: seq<Step>, t: nat, from: nat, to: nat)
    requires to <= |steps|
  {
    forall k | from < k < to :: steps[k].Tick? || steps[k].tid != t
  }

  /** Steps r, q and p are one send: its reservation, its code, its publication. */
  predicate Sends(steps: seq<Step>, r: nat, q: nat, p: nat) {
    && r < q < p < |steps|
    && steps[r].Reserve? && steps[q].Prepare? && steps[p].Publish?
    && steps[r].tid == steps[q].tid == steps[p].tid
    && Quiet(steps, steps[p].tid, r, q) && Quiet(steps, steps[p].tid, q, p)
  }

  /** The last own step before this one was a reservation, for this key. */
  ghost predicate ReservedBefore(steps: seq<Step>, t: nat, r: nat, j: nat, key: Key)
    requires j <= |steps|
  {
    r < j && steps[r].Reserve? && steps[r].tid == t && steps[r].key == key && Quiet(steps, t, r, j)
  }

  /** What this reservation and this code make of a challenge, as of the clock at step q. */
  ghost predicate PreparedBefore(h: Hash, ss: seq<Sys>, steps: seq<Step>, t: nat, r: nat, q: nat, j: nat,
                                 key: Key, c: Challenge)
    requires IsRun(h, ss, steps) && j <= |steps|
  {
    && q < j && steps[q].Prepare? && steps[q].tid == t && Quiet(steps, t, q, j)
    && ReservedBefore(steps, t, r, q, key)
    && c == Challenge(h(steps[q].salt, steps[q].code), steps[q].salt, ss[q].now + 300 * 1_000_000_000, 0)
  }

  /** A goroutine is where its own last step put it. */
  lemma PcComesFrom(h: Hash, s: Sys, step: Step, t: nat)
    requires Enabled(s, step) && t < |s.threads|
    ensures step.Tick? || step.tid != t ==> Apply(h, s, step).threads[t] == s.threads[t]
    ensures !step.Tick? && step.tid == t ==>
              var before, after := s.threads[t], Apply(h, s, step).threads[t];
              && (after.Reserved? ==> step.Reserve? && after.key == step.key)
              && (after.Prepared? ==>
                    step.Prepare? && before.Reserved? && after.key == before.key
                    && after.challenge == Challenge(h(step.salt, step.code), step.salt, s.now + 300 * 1_000_000_000, 0))
  {
  }

  lemma {:induction false} ReservedHasStep(h: Hash, ss: seq<Sys>, steps: seq<Step>, j: nat, t: nat) returns (r: nat)
    requires IsRun(h, ss, steps) && j < |ss| && t < |ss[j].threads| && ss[j].threads[t].Reserved?
    ensures ReservedBefore(steps, t, r, j, ss[j].threads[t].key)
  {
    var s, step := ss[j - 1], steps[j - 1];
    PcComesFrom(h, s, step, t);
    if !step.Tick? && step.tid == t {
      r := j - 1;
    } else {
      r := ReservedHasStep(h, ss, steps, j - 1, t);
    }
  }

  /** A challenge about to be published was made from this send's own key, code and salt. */
  lemma {:induction false} PreparedHasSteps(h: Hash, ss: seq<Sys>, steps: seq<Step>, j: nat, t: nat) returns (r: nat, q: nat)
    requires IsRun(h, ss, steps) && j < |ss| && t < |ss[j].threads| && ss[j].threads[t].Prepared?
    ensures PreparedBefore(h, ss, steps, t, r, q, j, ss[j].threads[t].key, ss[j].threads[t].challenge)
  {
    var s, step := ss[j - 1], steps[j - 1];
    PcComesFrom(h, s, step, t);
    if !step.Tick? && step.tid == t {
      q := j - 1;
      r := ReservedHasStep(h, ss, steps, q, t);
    } else {
      r, q := PreparedHasSteps(h, ss, steps, j - 1, t);
    }
  }

  lemma SendUnique(steps: seq<Step>, p: nat, r: nat, q: nat, r': nat, q': nat)
    requires Sends(steps, r, q, p) && Sends(steps, r', q', p)
    ensures r == r' && q == q'
  {
  }

  // ---------------------------------------------------------------- the log, step by step

  predicate Logged(step: Step) {
    step.Publish? || step.Verify?
  }

  /** The steps before i that leave an entry in the log, in order. */
  function Marks(steps: seq<Step>, i: nat): seq<nat>
    requires i <= |steps|
  {
    if i == 0 then [] else Marks(steps, i - 1) + (if Logged(steps[i - 1]) then [i - 1] else [])
  }

  lemma {:induction false} MarksExact(steps: seq<Step>, i: nat)
    requires i <= |steps|
    ensures forall k | 0 <= k < |Marks(steps, i)| :: Marks(steps, i)[k] < i && Logged(steps[Marks(steps, i)[k]])
    ensures forall k, l | 0 <= k < l < |Marks(steps, i)| :: Marks(steps, i)[k] < Marks(steps, i)[l]
    ensures forall j: nat | j < i && Logged(steps[j]) :: j in Marks(steps, i)
  {
    if i > 0 {
      MarksExact(steps, i - 1);
    }
  }

  function EventOf(s: Sys, step: Step): Event
    requires Enabled(s, step) && Logged(step)
  {
    if step.Publish? then Published(s.threads[step.tid].key, s.threads[step.tid].challenge) else Tried(step.key, step.code)
  }

  lemma LogComesFrom(h: Hash, s: Sys, step: Step)
    requires Enabled(s, step)
    ensures Apply(h, s, step).log == s.log + (if Logged(step) then [EventOf(s, step)] else [])
  {
  }

  lemma {:induction false} LogIsMarked(h: Hash, ss: seq<Sys>, steps: seq<Step>, i: nat)
    requires IsRun(h, ss, steps) && i < |ss|
    ensures |ss[i].log| == |Marks(steps, i)|
    ensures forall k | 0 <= k < |ss[i].log| ::
              && Marks(steps, i)[k] < i && Logged(steps[Marks(steps, i)[k]])
              && ss[i].log[k] == EventOf(ss[Marks(steps, i)[k]], steps[Marks(steps, i)[k]])
  {
    if i > 0 {
      LogIsMarked(h, ss, steps, i - 1);
      LogComesFrom(h, ss[i - 1], steps[i - 1]);
    }
  }

  // ---------------------------------------------------------------- which code is accepted

  /** A send for this key, published before step i. */
  predicate SentFor(steps: seq<Step>, key: Key, r: nat, q: nat, p: nat, i: nat) {
    Sends(steps, r, q, p) && p < i && steps[r].key == key
  }

  ghost predicate LatestFor(steps: seq<Step>, key: Key, r: nat, q: nat, p: nat, i: nat) {
    && SentFor(steps, key, r, q, p, i)
    && forall r': nat, q': nat, p': nat | SentFor(steps, key, r', q', p', i) :: p' <= p
  }

  /** The codes submitted for this key between two steps. */
  ghost function Attempts(steps: seq<Step>, key: Key, p: nat, i: nat): set<nat>
    requires i <= |steps|
  {
    set j | p < j < i && steps[j].Verify? && steps[j].key == key
  }

  /** As far as the salted hash tells, this is the code that was sent. */
  predicate SameCode(h: Hash, steps: seq<Step>, q: nat, code: string)
    requires q < |steps| && steps[q].Prepare?
  {
    h(steps[q].salt, code) == h(steps[q].salt, steps[q].code)
  }

  /** The code matches the latest send for exactly this identifier, type and binding, made less
      than five minutes ago, fewer than five codes were tried since, and none of them matched. */
  ghost predicate Acceptable(h: Hash, ss: seq<Sys>, steps: seq<Step>, key: Key, code: string, r: nat, q: nat, p: nat, i: nat)
    requires IsRun(h, ss, steps) && i < |steps|
  {
    && LatestFor(steps, key, r, q, p, i)
    && ss[i].now < ss[q].now + 300 * 1_000_000_000
    && |Attempts(steps, key, p, i)| < 5
    && (forall j | j in Attempts(steps, key, p, i) :: !SameCode(h, steps, q, steps[j].code))
    && SameCode(h, steps, q, code)
  }

  lemma {:induction false} ImageSize(a: set<nat>, m: seq<nat>)
    requires forall k | k in a :: k < |m|
    requires forall k, l | 0 <= k < l < |m| :: m[k] != m[l]
    ensures |set k | k in a :: m[k]| == |a|
  {
    var b := set k | k in a :: m[k];
    if a != {} {
      var k :| k in a;
      ImageSize(a - {k}, m);
      assert b == (set l | l in a - {k} :: m[l]) + {m[k]};
      assert m[k] !in (set l | l in a - {k} :: m[l]);
    }
  }

  /** Entry k of the log, a publication, is the send whose publication is step p. */
  lemma EntryIsSend(h: Hash, ss: seq<Sys>, steps: seq<Step>, i: nat, k: nat) returns (r: nat, q: nat, p: nat)
    requires IsRun(h, ss, steps) && i < |ss| && k < |ss[i].log| && ss[i].log[k].Published?
    ensures k < |Marks(steps, i)| && p == Marks(steps, i)[k]
    ensures SentFor(steps, ss[i].log[k].key, r, q, p, i)
    ensures PreparedBefore(h, ss, steps, steps[p].tid, r, q, p, ss[i].log[k].key, ss[i].log[k].challenge)
  {
    LogIsMarked(h, ss, steps, i);
    p := Marks(steps, i)[k];
    r, q := PreparedHasSteps(h, ss, steps, p, steps[p].tid);
  }

  /** And every send is such an entry. */
  lemma SendIsEntry(h: Hash, ss: seq<Sys>, steps: seq<Step>, key: Key, r: nat, q: nat, p: nat, i: nat) returns (k: nat)
    requires IsRun(h, ss, steps) && i < |ss| && SentFor(steps, key, r, q, p, i)
    ensures k < |ss[i].log| && k < |Marks(steps, i)| && p == Marks(steps, i)[k]
    ensures ss[i].log[k].Published? && ss[i].log[k].key == key
    ensures PreparedBefore(h, ss, steps, steps[p].tid, r, q, p, key, ss[i].log[k].challenge)
  {
    LogIsMarked(h, ss, steps, i);
    MarksExact(steps, i);
    k :| 0 <= k < |Marks(steps, i)| && Marks(steps, i)[k] == p;
    var r', q', p' := EntryIsSend(h, ss, steps, i, k);
    SendUnique(steps, p, r, q, r', q');
  }

  lemma TryIsAttempt(h: Hash, ss: seq<Sys>, steps: seq<Step>, key: Key, i: nat, k: nat, j: nat)
    requires IsRun(h, ss, steps) && i < |steps| && k < |ss[i].log| && j < |ss[i].log|
    ensures |Marks(steps, i)| == |ss[i].log|
    ensures j in Tries(ss[i].log, key, k) <==> Marks(steps, i)[j] in Attempts(steps, key, Marks(steps, i)[k], i)
    ensures j in Tries(ss[i].log, key, k) ==>
              Marks(steps, i)[j] < i && steps[Marks(steps, i)[j]].Verify? && ss[i].log[j].code == steps[Marks(steps, i)[j]].code
  {
    LogIsMarked(h, ss, steps, i);
    MarksExact(steps, i);
    var m := Marks(steps, i);
    if j <= k {
      assert m[j] <= m[k];
    } else {
      assert m[k] < m[j];
    }
  }

  /** The tries after entry k are the attempts after step p. */
  lemma TriesAreAttempts(h: Hash, ss: seq<Sys>, steps: seq<Step>, key: Key, i: nat, k: nat)
    requires IsRun(h, ss, steps) && i < |steps| && k < |ss[i].log| && |Marks(steps, i)| == |ss[i].log|
    ensures var m := Marks(steps, i);
            && Attempts(steps, key, m[k], i) == (set j | j in Tries(ss[i].log, key, k) :: m[j])
            && |Attempts(steps, key, m[k], i)| == |Tries(ss[i].log, key, k)|
    ensures forall j | j in Tries(ss[i].log, key, k) ::
              Marks(steps, i)[j] < i && steps[Marks(steps, i)[j]].Verify? && ss[i].log[j].code == steps[Marks(steps, i)[j]].code
  {
    var m := Marks(steps, i);
    MarksExact(steps, i);
    forall j: nat | j < |m|
      ensures j in Tries(ss[i].log, key, k) <==> m[j] in Attempts(steps, key, m[k], i)
      ensures j in Tries(ss[i].log, key, k) ==> m[j] < i && steps[m[j]].Verify? && ss[i].log[j].code == steps[m[j]].code
    {
      TryIsAttempt(h, ss, steps, key, i, k, j);
    }
    forall x | x in Attempts(steps, key, m[k], i)
      ensures exists j: nat :: j < |m| && m[j] == x
    {
      assert x in m;
    }
    ImageSize(Tries(ss[i].log, key, k), m);
  }

  lemma LastIsLatest(h: Hash, ss: seq<Sys>, steps: seq<Step>, key: Key, i: nat, k: nat, r: nat, q: nat, p: nat)
    requires IsRun(h, ss, steps) && i < |steps| && k < |ss[i].log| && k < |Marks(steps, i)| && p == Marks(steps, i)[k]
    requires SentFor(steps, key, r, q, p, i) && LastPublished(ss[i].log, key, k)
    ensures LatestFor(steps, key, r, q, p, i)
  {
    forall r': nat, q': nat, p': nat | SentFor(steps, key, r', q', p', i)
      ensures p' <= p
    {
      NoLaterSend(h, ss, steps, key, i, k, r', q', p');
    }
  }

  lemma NoLaterSend(h: Hash, ss: seq<Sys>, steps: seq<Step>, key: Key, i: nat, k: nat, r: nat, q: nat, p: nat)
    requires IsRun(h, ss, steps) && i < |steps| && k < |ss[i].log| && k < |Marks(steps, i)|
    requires SentFor(steps, key, r, q, p, i) && LastPublished(ss[i].log, key, k)
    ensures p <= Marks(steps, i)[k]
  {
    MarksExact(steps, i);
    var l := SendIsEntry(h, ss, steps, key, r, q, p, i);
    assert l <= k;
  }

  lemma LatestIsLast(h: Hash, ss: seq<Sys>, steps: seq<Step>, key: Key, i: nat, k: nat, r: nat, q: nat, p: nat)
    requires IsRun(h, ss, steps) && i < |steps| && k < |ss[i].log| && k < |Marks(steps, i)| && p == Marks(steps, i)[k]
    requires ss[i].log[k].Published? && ss[i].log[k].key == key && LatestFor(steps, key, r, q, p, i)
    ensures LastPublished(ss[i].log, key, k)
  {
    MarksExact(steps, i);
    forall l | k < l < |ss[i].log|
      ensures !(ss[i].log[l].Published? && ss[i].log[l].key == key)
    {
      LogIsMarked(h, ss, steps, i);
      assert Marks(steps, i)[k] < Marks(steps, i)[l];
      if ss[i].log[l].Published? && ss[i].log[l].key == key {
        var r', q', p' := EntryIsSend(h, ss, steps, i, l);
      }
    }
  }

  lemma EntryAccepts(h: Hash, ss: seq<Sys>, steps: seq<Step>, key: Key, code: string, i: nat, k: nat, r: nat, q: nat, p: nat)
    requires IsRun(h, ss, steps) && i < |steps| && k < |ss[i].log| && k < |Marks(steps, i)| && p == Marks(steps, i)[k]
    requires SentFor(steps, key, r, q, p, i) && ss[i].log[k].Published? && ss[i].log[k].key == key
    requires PreparedBefore(h, ss, steps, steps[p].tid, r, q, p, key, ss[i].log[k].challenge)
    ensures LastPublished(ss[i].log, key, k) && Live(ss[i].log[k].challenge, ss[i].now)
            && Untouched(h, ss[i].log, key, k) && Matches(h, ss[i].log[k].challenge, code)
            <==> Acceptable(h, ss, steps, key, code, r, q, p, i)
  {
    if LastPublished(ss[i].log, key, k) {
      LastIsLatest(h, ss, steps, key, i, k, r, q, p);
    }
    if LatestFor(steps, key, r, q, p, i) {
      LatestIsLast(h, ss, steps, key, i, k, r, q, p);
    }
    LogIsMarked(h, ss, steps, i);
    TriesAreAttempts(h, ss, steps, key, i, k);
    var m, log, c := Marks(steps, i), ss[i].log, ss[i].log[k].challenge;
    assert forall x :: Matches(h, c, x) <==> SameCode(h, steps, q, x);
    assert forall j | j in Tries(log, key, k) :: m[j] in Attempts(steps, key, p, i) && log[j].code == steps[m[j]].code;
  }

  /** The law of the store over the steps of a run, whatever was purged, interleaved or overtaken:
      a verification succeeds exactly when its code is acceptable. */
  lemma VerifyAnswersSends(h: Hash, ss: seq<Sys>, steps: seq<Step>, i: nat)
    requires IsRun(h, ss, steps) && i < |steps| && steps[i].Verify?
    ensures ss[i + 1].threads[steps[i].tid].Approved? <==>
              exists r: nat, q: nat, p: nat :: Acceptable(h, ss, steps, steps[i].key, steps[i].code, r, q, p, i)
  {
    var key, code := steps[i].key, steps[i].code;
    VerifyAnswersHistory(h, ss, steps, i);
    if HistoryAccepts(h, ss[i].log, key, code, ss[i].now) {
      var k: nat :| LastPublished(ss[i].log, key, k) && Live(ss[i].log[k].challenge, ss[i].now)
                    && Untouched(h, ss[i].log, key, k) && Matches(h, ss[i].log[k].challenge, code);
      var r, q, p := EntryIsSend(h, ss, steps, i, k);
      EntryAccepts(h, ss, steps, key, code, i, k, r, q, p);
    }
    if r: nat, q: nat, p: nat :| Acceptable(h, ss, steps, key, code, r, q, p, i) {
      var k := SendIsEntry(h, ss, steps, key, r, q, p, i);
      EntryAccepts(h, ss, steps, key, code, i, k, r, q, p);
    }
  }

  /** So an accepted code was generated, less than five minutes before, by a send for exactly that
      identifier, type and binding, as far as the salted hash tells codes apart. */
  lemma AcceptedCodeWasSent(h: Hash, ss: seq<Sys>, steps: seq<Step>, i: nat)
    requires IsRun(h, ss, steps) && i < |steps| && steps[i].Verify?
    requires ss[i + 1].threads[steps[i].tid].Approved?
    ensures exists r: nat, q: nat, p: nat ::
              && SentFor(steps, steps[i].key, r, q, p, i) && SameCode(h, steps, q, steps[i].code)
              && ss[i].now < ss[q].now + 300 * 1_000_000_000
  {
    VerifyAnswersSends(h, ss, steps, i);
    var r: nat, q: nat, p: nat :| Acceptable(h, ss, steps, steps[i].key, steps[i].code, r, q, p, i);
    assert SentFor(steps, steps[i].key, r, q, p, i);
  }

  /** And a code that was sent is good: the first code tried on the latest send, in time, is
      accepted if it is that send's own. */
  lemma SentCodeIsAccepted(h: Hash, ss: seq<Sys>, steps: seq<Step>, i: nat, r: nat, q: nat, p: nat)
    requires IsRun(h, ss, steps) && i < |steps| && steps[i].Verify?
    requires LatestFor(steps, steps[i].key, r, q, p, i) && Attempts(steps, steps[i].key, p, i) == {}
    requires steps[i].code == steps[q].code && ss[i].now < ss[q].now + 300 * 1_000_000_000
    ensures ss[i + 1].threads[steps[i].tid].Approved?
  {
    VerifyAnswersSends(h, ss, steps, i);
    assert Acceptable(h, ss, steps, steps[i].key, steps[i].code, r, q, p, i);
  }

  /** A reservation is taken exactly when, after the purge, pending challenges and reservations are
      fewer than 1024; the purge spares what is live at its first reading, and takes nothing that is
      live at its last. */
  lemma ReservationExact(h: Hash, ss: seq<Sys>, steps: seq<Step>, j: nat)
    requires IsRun(h, ss, steps) && j < |steps| && steps[j].Reserve?
    ensures var s, s', t := ss[j], ss[j + 1], steps[j].tid;
            && (forall k | k in s'.pending ::
                  k in s.pending && s'.pending[k] == s.pending[k] && steps[j].since < s.pending[k].expires)
            && (forall k | k in s.pending && k !in s'.pending :: s.pending[k].expires <= s.now)
            && (if |s'.pending| + s.inFlight < 1024
                then s'.threads[t] == Reserved(steps[j].key) && s'.inFlight == s.inFlight + 1
                else s'.threads == s.threads && s'.inFlight == s.inFlight)
  {
  }

  // ---------------------------------------------------------------- counting steps

  predicate Approves(ss: seq<Sys>, steps: seq<Step>, k: nat) {
    && k + 1 < |ss| && k < |steps| && steps[k].Verify? && steps[k].tid < |ss[k + 1].threads|
    && ss[k + 1].threads[steps[k].tid].Approved?
  }

  function Publishing(steps: seq<Step>): nat -> bool {
    (k: nat) => k < |steps| && steps[k].Publish?
  }

  function Approving(ss: seq<Sys>, steps: seq<Step>): nat -> bool {
    (k: nat) => Approves(ss, steps, k)
  }

  function Requesting(steps: seq<Step>): nat -> bool {
    (k: nat) => k < |steps| && steps[k].TakeToken? && steps[k].requested
  }

  function LookingUp(steps: seq<Step>): nat -> bool {
    (k: nat) => k < |steps| && steps[k].Lookup?
  }

  lemma CountersComeFrom(h: Hash, s: Sys, step: Step)
    requires Enabled(s, step)
    ensures var s' := Apply(h, s, step);
            && s'.approvals == s.approvals + (if step.Verify? && s'.threads[step.tid].Approved? then 1 else 0)
            && s'.tokenRequests == s.tokenRequests + (if step.TakeToken? && step.requested then 1 else 0)
            && s'.lookups == s.lookups + (if step.Lookup? then 1 else 0)
            && Sum(s'.log, IsPublication) == Sum(s.log, IsPublication) + (if step.Publish? then 1 else 0)
  {
    LogComesFrom(h, s, step);
    if Logged(step) {
      SumAppend(s.log, EventOf(s, step));
    } else {
      assert s.log + [] == s.log;
    }
  }

  /** The counters of the run count its steps. */
  lemma {:induction false} CountersAreSteps(h: Hash, ss: seq<Sys>, steps: seq<Step>, i: nat)
    requires IsRun(h, ss, steps) && i < |ss|
    ensures Sum(ss[i].log, IsPublication) == Count(Publishing(steps), i) && ss[i].approvals == Count(Approving(ss, steps), i)
    ensures ss[i].tokenRequests == Count(Requesting(steps), i) && ss[i].lookups == Count(LookingUp(steps), i)
  {
    if i > 0 {
      var k, step := i - 1, steps[i - 1];
      CountersAreSteps(h, ss, steps, k);
      CountersComeFrom(h, ss[k], step);
      assert Approves(ss, steps, k) <==> step.Verify? && ss[i].threads[step.tid].Approved?;
    }
  }

  /** Over any interleaving, account lookups and the token requests made for them are no more than
      the successful verifications, and those no more than the challenges published. */
  lemma LookupsPaidFor(h: Hash, ss: seq<Sys>, steps: seq<Step>, i: nat)
    requires IsRun(h, ss, steps) && i <= |steps|
    ensures Count(LookingUp(steps), i) <= Count(Approving(ss, steps), i) <= Count(Publishing(steps), i)
    ensures Count(Requesting(steps), i) <= Count(Approving(ss, steps), i)
  {
    CountersAreSteps(h, ss, steps, i);
    RunKeepsPaid(h, ss, steps, i);
  }
}
