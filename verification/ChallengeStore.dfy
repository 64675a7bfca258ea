/** The one-time challenge store of the Mailpit verifier (provider/mailpit.go): what each region
    under `v.mu` does to `pending` and `inFlight`, first on values, then in place. */
module ChallengeStore {
  import opened Wrappers
  import opened Text
  import opened Requests

  const TTL: int := 300_000_000_000 // five minutes in nanoseconds
  const MAX_PENDING: nat := 1024
  const MAX_ATTEMPTS: nat := 5

  type Salt = seq<bv8>
  type Digest = seq<bv8>

  /** mailpitDigest: SHA-256 of salt and code, any function here. */
  type Hash = (Salt, string) -> Digest

  datatype Challenge = Challenge(digest: Digest, salt: Salt, expires: int, attempts: nat)

  predicate Live(c: Challenge, now: int) {
    now < c.expires
  }

  predicate Matches(h: Hash, c: Challenge, code: string) {
    h(c.salt, code) == c.digest
  }

  function Without(pending: map<Key, Challenge>, key: Key): map<Key, Challenge> {
    pending - {key}
  }

  /** Lines 134-150: the store after one verification, and whether it succeeds. */
  function Verified(h: Hash, pending: map<Key, Challenge>, key: Key, code: string, now: int): (map<Key, Challenge>, bool) {
    if key !in pending || !Live(pending[key], now) then (Without(pending, key), false)
    else
      var c := pending[key].(attempts := pending[key].attempts + 1);
      if Matches(h, c, code) then (Without(pending, key), true)
      else if c.attempts >= MAX_ATTEMPTS then (Without(pending, key), false)
      else (pending[key := c], false)
  }

  /** One verification, clause by clause: it succeeds exactly on a live challenge that matches, and
      the challenge survives exactly a live mismatch that is not the fifth attempt. */
  lemma VerifiedExact(h: Hash, pending: map<Key, Challenge>, key: Key, code: string, now: int)
    ensures var (after, ok) := Verified(h, pending, key, code, now);
            && (ok <==> key in pending && now < pending[key].expires && h(pending[key].salt, code) == pending[key].digest)
            && (key in after <==> key in pending && now < pending[key].expires
                                  && h(pending[key].salt, code) != pending[key].digest && pending[key].attempts + 1 < 5)
            && (key in after ==> after[key] == pending[key].(attempts := pending[key].attempts + 1))
            && (forall k | k != key :: (k in after <==> k in pending) && (k in pending ==> after[k] == pending[k]))
  {
  }

  /** Lines 82-86, a purge whose clock readings fall between `from` and `to`: it only deletes,
      only what has expired by then, and everything that had expired before. */
  predicate Swept(before: map<Key, Challenge>, after: map<Key, Challenge>, from: int, to: int) {
    && after.Keys <= before.Keys
    && (forall k | k in after :: after[k] == before[k] && Live(before[k], from))
    && (forall k | k in before && k !in after :: !Live(before[k], to))
  }

  /** now(): every reading is at least the last one. */
  class Clock {
    var now: int

    constructor (start: int)
      ensures now == start
    {
      now := start;
    }

    method Read() returns (t: int)
      modifies this
      ensures old(now) <= now && t == now
    {
      var later :| now <= later;
      now := later;
      return now;
    }
  }

  /** ctx.Err() of a context that is done, or one of the provider's errors. */
  datatype StoreError = ContextDone | Failure(error: Error)

  /** One attempt to send: whatever randomness, delivery and the context bring. */
  datatype Sending = Sending(randomOk: bool, code: string, salt: Salt, delivered: bool, liveAfter: bool)

  class Verifier {
    const hash: Hash
    const clock: Clock
    var pending: map<Key, Challenge>
    var inFlight: int

    constructor (hash: Hash, clock: Clock)
      ensures this.hash == hash && this.clock == clock && pending == map[] && inFlight == 0
    {
      this.hash, this.clock := hash, clock;
      pending, inFlight := map[], 0;
    }

    /** Lines 81-92: purge, then take a reservation if there is room. */
    method Reserve() returns (ok: bool)
      modifies this, clock
      ensures Swept(old(pending), pending, old(clock.now), clock.now) && old(clock.now) <= clock.now
      ensures forall k | k in pending ::
                k in old(pending) && pending[k] == old(pending)[k] && old(clock.now) < pending[k].expires
      ensures forall k | k in old(pending) && k !in pending :: old(pending)[k].expires <= clock.now
      ensures ok <==> |pending| + old(inFlight) < 1024
      ensures inFlight == old(inFlight) + (if ok then 1 else 0)
    {
      var todo := pending.Keys;
      while todo != {}
        invariant todo <= pending.Keys <= old(pending).Keys
        invariant forall k | k in pending :: pending[k] == old(pending)[k]
        invariant forall k | k in pending && k !in todo :: Live(pending[k], old(clock.now))
        invariant forall k | k in old(pending) && k !in pending :: !Live(old(pending)[k], clock.now)
        invariant old(clock.now) <= clock.now && inFlight == old(inFlight)
      {
        var k :| k in todo;
        todo := todo - {k};
        var t := clock.Read();
        if !Live(pending[k], t) {
          pending := Without(pending, k);
        }
      }
      if |pending| + inFlight >= MAX_PENDING {
        return false;
      }
      inFlight := inFlight + 1;
      return true;
    }

    /** Lines 112-114. */
    method Publish(key: Key, challenge: Challenge)
      modifies this
      ensures pending == old(pending)[key := challenge] && inFlight == old(inFlight)
    {
      pending := pending[key := challenge];
    }

    /** Line 93, run when SendOTP returns. */
    method Release()
      modifies this
      ensures pending == old(pending) && inFlight == old(inFlight) - 1
    {
      inFlight := inFlight - 1;
    }

    /** Lines 73-116 with nothing in between: the reservation is given back on every path, and
        the only way to success publishes exactly one fresh challenge. */
    method SendOTP(live: bool, channels: seq<string>, key: Key, s: Sending) returns (err: Option<StoreError>)
      modifies this, clock
      ensures inFlight == old(inFlight)
      ensures !live ==> err == Some(ContextDone) && pending == old(pending)
      ensures live && !WellFormed(channels, key) ==> err == Some(Failure(ErrInvalidRequest)) && pending == old(pending)
      ensures live && WellFormed(channels, key) && (!s.randomOk || !s.delivered) ==> err == Some(Failure(ErrUnavailable))
      ensures live && WellFormed(channels, key) && s.randomOk && s.delivered && !s.liveAfter ==>
                err == Some(ContextDone) || (err == Some(Failure(ErrUnavailable)) && |pending| + inFlight >= 1024)
      ensures live && WellFormed(channels, key) && s.randomOk && s.delivered && s.liveAfter ==>
                err == None || (err == Some(Failure(ErrUnavailable)) && |pending| + inFlight >= 1024)
      ensures err.Some? ==> pending == old(pending) || Swept(old(pending), pending, old(clock.now), clock.now)
      ensures err.None? ==>
                && s.randomOk && s.delivered && s.liveAfter
                && key in pending && Fresh(pending[key], s, old(clock.now), clock.now)
                && exists before: map<Key, Challenge> ::
                     && Swept(old(pending), before, old(clock.now), clock.now)
                     && |before| + old(inFlight) < 1024 && pending == before[key := pending[key]]
    {
      if !live {
        return Some(ContextDone);
      }
      if |channels| != 1 || channels[0] != "email" || !ValidBinding(key.binding)
          || !ValidText(key.identifier) || !ValidText(key.identifierType) {
        return Some(Failure(ErrInvalidRequest));
      }
      var ok := Reserve();
      if !ok {
        return Some(Failure(ErrUnavailable));
      }
      ghost var before := pending;
      if !s.randomOk {
        Release();
        return Some(Failure(ErrUnavailable));
      }
      var t := clock.Read();
      assert Swept(old(pending), before, old(clock.now), clock.now);
      var challenge := Challenge(hash(s.salt, s.code), s.salt, t + TTL, 0);
      if !s.delivered {
        Release();
        return Some(Failure(ErrUnavailable));
      }
      if !s.liveAfter {
        Release();
        return Some(ContextDone);
      }
      Publish(key, challenge);
      Release();
      assert pending == before[key := pending[key]];
      return None;
    }

    ghost predicate Fresh(c: Challenge, s: Sending, from: int, to: int) {
      && c.attempts == 0 && c.salt == s.salt && c.digest == hash(s.salt, s.code)
      && from + 300 * 1_000_000_000 <= c.expires <= to + 300 * 1_000_000_000
    }

    /** Lines 77-79. */
    predicate WellFormed(channels: seq<string>, key: Key) {
      channels == ["email"] && ValidKey(key)
    }

    /** Lines 127-151; `at` is the clock when the store is consulted, at line 135 if it gets there. */
    method Verify(live: bool, key: Key, code: string) returns (err: Option<StoreError>, ghost at: int)
      modifies this, clock
      ensures old(clock.now) <= at == clock.now && inFlight == old(inFlight)
      ensures !live ==> pending == old(pending) && err == Some(ContextDone)
      ensures live ==> (pending, err.None?) == Verified(hash, old(pending), key, code, at)
      ensures live && err.Some? ==> err.value == Failure(ErrChallengeFailed)
    {
      if !live {
        return Some(ContextDone), clock.now;
      }
      if key !in pending {
        at := clock.now;
        pending := Without(pending, key);
        return Some(Failure(ErrChallengeFailed)), at;
      }
      var challenge := pending[key];
      var t := clock.Read();
      at := t;
      if !(t < challenge.expires) {
        pending := Without(pending, key);
        return Some(Failure(ErrChallengeFailed)), at;
      }
      challenge := challenge.(attempts := challenge.attempts + 1);
      var submitted := hash(challenge.salt, code);
      var matched := challenge.digest == submitted;
      if matched || challenge.attempts >= MAX_ATTEMPTS {
        pending := Without(pending, key);
      } else {
        pending := pending[key := challenge];
      }
      if !matched {
        return Some(Failure(ErrChallengeFailed)), at;
      }
      return None, at;
    }
  }
}
