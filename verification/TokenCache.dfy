/** The shared token cache: what each region of provider/http.go that runs under `p.mu`
    does to `token`, `tokenDeadline` and `acquiring`.  The functions say it on values, for
    any kind of flight handle; the class does it in place and is proved equal to them. */
module TokenCache {
  import opened Wrappers
  import opened Int64

  /** time.Second, in the nanoseconds that time.Duration counts. */
  const SECOND: int := 1_000_000_000

  /** An empty token is an absent one: the source tests len(p.token). */
  datatype Shared<+F> = Shared(token: string, deadline: int, acquiring: Option<F>)

  datatype Decision<+F> = Serve(token: string) | Wait(flight: F) | Launch(flight: F)

  /** What `acquire` hands back: a token with its lifetime in nanoseconds, or an error. */
  datatype Acquired = Granted(token: string, lifetime: int) | Refused(error: Error)

  predicate Cached<F>(s: Shared<F>, now: int) {
    s.token != "" && now < s.deadline
  }

  /** Lines 26-48: serve the cached token, join the open flight, or open one. */
  function Entered<F>(s: Shared<F>, now: int, created: F): (Shared<F>, Decision<F>) {
    if Cached(s, now) then (s, Serve(s.token))
    else
      var cleared := s.(token := "");
      match s.acquiring
      case Some(f) => (cleared, Wait(f))
      case None => (cleared.(acquiring := Some(created)), Launch(created))
  }

  /** Lines 51-68: install a token that is still live, close the flight, report to the caller. */
  function Settled<F>(s: Shared<F>, now: int, start: int, got: Acquired): (Shared<F>, Result<string, Error>) {
    match got
    case Refused(e) => (s.(acquiring := None), Err(e))
    case Granted(token, lifetime) =>
      if now < start + lifetime
      then (Shared(token, start + lifetime, None), Ok(token))
      else (s.(acquiring := None), Err(ErrUnavailable))
  }

  /** Lines 71-79: forget the token, but only the very token that was refused. */
  function Invalidated<F>(s: Shared<F>, refused: string, zeroTime: int): Shared<F> {
    if s.token == refused then s.(token := "", deadline := zeroTime) else s
  }

  /** Lines 121-125: the lifetime `acquire` reports for an issuer lifetime of `expiresIn` seconds. */
  function Lifetime(expiresIn: int, maxSeconds: int): int {
    (if expiresIn > maxSeconds then maxSeconds else expiresIn) * SECOND
  }

  /** The cap comes before the multiplication, so no issuer can push the nanosecond count out
      of time.Duration's 64 bits, and the lifetime is the smaller of the two bounds. */
  lemma LifetimeFitsDuration(expiresIn: int, maxSeconds: int)
    requires 1 <= expiresIn <= MAX_INT64
    requires 1 <= maxSeconds <= 86400
    ensures SECOND <= Lifetime(expiresIn, maxSeconds) <= 86400 * SECOND <= MAX_INT64
    ensures Lifetime(expiresIn, maxSeconds) <= expiresIn * SECOND
    ensures Lifetime(expiresIn, maxSeconds) == expiresIn * SECOND || Lifetime(expiresIn, maxSeconds) == maxSeconds * SECOND
  {
  }

  class Flight {
    var done: bool
    var err: Option<Error>

    constructor ()
      ensures !done && err == None
    {
      done, err := false, None;
    }
  }

  class Cache {
    var token: array?<char>
    var tokenDeadline: int
    var acquiring: Flight?

    constructor (zeroTime: int)
      ensures View() == Shared("", zeroTime, None)
    {
      token, tokenDeadline, acquiring := null, zeroTime, null;
    }

    /** The abstract value of the three shared fields. */
    ghost function View(): Shared<Flight>
      reads this, token
    {
      Shared(if token == null then "" else token[..],
             tokenDeadline,
             if acquiring == null then None else Some(acquiring))
    }

    /** `clear(p.token); p.token = nil`: the old buffer is zeroed, not just dropped. */
    method Forget()
      modifies this`token, token
      ensures token == null
      ensures var was := old(token); was != null ==> forall i :: 0 <= i < was.Length ==> was[i] == '\0'
    {
      if token != null {
        forall i | 0 <= i < token.Length {
          token[i] := '\0';
        }
      }
      token := null;
    }

    method Enter(now: int) returns (decision: Decision<Flight>)
      modifies this, token
      ensures decision.Launch? ==> fresh(decision.flight) && !decision.flight.done
      ensures decision.Launch? ==> (View(), decision) == Entered(old(View()), now, decision.flight)
      ensures !decision.Launch? ==> forall f: Flight :: (View(), decision) == Entered(old(View()), now, f)
      ensures var was := old(token); !decision.Serve? && was != null ==> forall i :: 0 <= i < was.Length ==> was[i] == '\0'
    {
      if token != null && token.Length > 0 && now < tokenDeadline {
        return Serve(token[..]);
      }
      Forget();
      if acquiring != null {
        return Wait(acquiring);
      }
      var flight := new Flight();
      acquiring := flight;
      return Launch(flight);
    }

    /** Only the initiator calls this, with the flight it opened. */
    method Settle(flight: Flight, start: int, got: Acquired, now: int) returns (r: Result<string, Error>)
      requires acquiring == flight && !flight.done
      modifies this, flight
      ensures (View(), r) == Settled(old(View()), now, start, got)
      ensures flight.done && flight.err == (if r.Ok? then None else Some(r.error))
    {
      var err: Option<Error> := None;
      match got {
        case Refused(e) => err := Some(e);
        case Granted(secret, lifetime) =>
          var deadline := start + lifetime;
          if !(now < deadline) {
            err := Some(ErrUnavailable);
          } else {
            token := new char[|secret|](i requires 0 <= i < |secret| => secret[i]);
            assert token[..] == secret;
            tokenDeadline := deadline;
          }
      }
      flight.err := err;
      acquiring := null;
      flight.done := true;
      if err.Some? {
        return Err(err.value);
      }
      return Ok(got.token);
    }

    method Invalidate(refused: string, zeroTime: int)
      modifies this, token
      ensures View() == Invalidated(old(View()), refused, zeroTime)
    {
      var held := if token == null then "" else token[..];
      if held == refused {
        Forget();
        tokenDeadline := zeroTime;
      }
    }
  }
}
