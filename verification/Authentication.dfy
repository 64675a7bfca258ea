/** One lookup in the registry (provider/http.go:127-180) and the account check that decides an
    authentication (provider/provider.go:105-139). */
module Authentication {
  import opened Wrappers
  import opened Text
  import opened Config
  import opened Requests
  import opened TokenCache
  import opened IdentityContext

  /** A value of the registry's record; anything but null and a string is told apart by a tag. */
  datatype Datum = NullValue | TextValue(s: string) | OtherValue(tag: nat)

  type Record = map<string, Datum>

  /** What comes back from the one POST: nothing usable, a problem document, or a record. */
  datatype Answer = NoAnswer | Problem(code: Option<string>) | Found(domainData: Option<Record>)

  const UNRESOLVED := "lookup.unresolved"
  const NOT_FOUND := "resource.not_found"
  const REFUSED := "authentication.refused"

  predicate SubjectRefusal(answer: Answer) {
    answer == Problem(Some("lookup.unresolved")) || answer == Problem(Some("resource.not_found"))
  }

  /** At most one request, of exactly this query, and only with fields and a token; a refusal of
      that token invalidates it and is not retried; every failure but the two subject refusals and
      a call without fields is ErrUnavailable. */
  method Lookup(cache: Cache, q: Query, token: Result<string, Error>, registry: Query -> Answer, zeroTime: int)
    returns (r: Result<Record, Error>, sent: seq<Query>)
    modifies cache, cache.token
    ensures sent == (if q.fields != [] && token.Ok? then [q] else [])
    ensures r.Ok? <==> q.fields != [] && token.Ok? && registry(q).Found? && registry(q).domainData.Some?
    ensures r.Ok? ==> r.value == registry(q).domainData.value
    ensures r == Err(ErrInvalidRequest) <==> q.fields == []
    ensures r == Err(ErrSubjectDenied) <==> q.fields != [] && token.Ok? && SubjectRefusal(registry(q))
    ensures r.Err? ==> r.error in {ErrInvalidRequest, ErrSubjectDenied, ErrUnavailable}
    ensures cache.View() ==
              if q.fields != [] && token.Ok? && registry(q) == Problem(Some("authentication.refused"))
              then Invalidated(old(cache.View()), token.value, zeroTime) else old(cache.View())
  {
    if |q.fields| == 0 {
      return Err(ErrInvalidRequest), [];
    }
    if token.Err? {
      return Err(ErrUnavailable), [];
    }
    sent := [q];
    match registry(q) {
      case NoAnswer =>
        return Err(ErrUnavailable), sent;
      case Problem(code) =>
        if code == Some(UNRESOLVED) || code == Some(NOT_FOUND) {
          return Err(ErrSubjectDenied), sent;
        }
        if code == Some(REFUSED) {
          cache.Invalidate(token.value, zeroTime);
        }
        return Err(ErrUnavailable), sent;
      case Found(data) =>
        if data.None? {
          return Err(ErrUnavailable), sent;
        }
        return Ok(data.value), sent;
    }
  }

  /** How the challenge verifier ended: in time and well, in time and badly, or not in time. */
  datatype Verification = Passed | Rejected | Interrupted

  /** What the account check demands of a record. */
  predicate AccountHolds(b: Breg, record: Record, identifier: string) {
    && (forall f | f in b.accountCheckFields :: f in record && record[f] != NullValue)
    && (b.selectorField in record ==> record[b.selectorField] == TextValue(identifier))
  }

  method CheckAccount(b: Breg, record: Record, identifier: string) returns (ok: bool)
    ensures ok <==> AccountHolds(b, record, identifier)
    ensures ok <==>
              && (forall i | 0 <= i < |b.accountCheckFields| ::
                    b.accountCheckFields[i] in record && record[b.accountCheckFields[i]] != NullValue)
              && (b.selectorField !in record || record[b.selectorField] == TextValue(identifier))
  {
    for i := 0 to |b.accountCheckFields|
      invariant forall j | 0 <= j < i :: b.accountCheckFields[j] in record && record[b.accountCheckFields[j]] != NullValue
    {
      var field := b.accountCheckFields[i];
      if field !in record || record[field] == NullValue {
        return false;
      }
    }
    if b.selectorField in record && record[b.selectorField] != TextValue(identifier) {
      return false;
    }
    return true;
  }

  /** Under a validated configuration the selector cannot be left out of the check: an account
      that holds has that very identifier on record.  Without it being checked, a record that
      says nothing of the selector passes. */
  lemma AccountCheckBinds(b: Breg, identifier: string)
    ensures b.selectorField in b.accountCheckFields <==>
              forall record: Record | AccountHolds(b, record, identifier) ::
                b.selectorField in record && record[b.selectorField] == TextValue(identifier)
  {
    if b.selectorField !in b.accountCheckFields {
      var record: Record := map f | f in b.accountCheckFields :: TextValue("");
      assert AccountHolds(b, record, identifier);
    }
  }

  predicate WellFormed(c: Config, request: Key, challenge: string) {
    && ValidSubject(c.subjectIdType, request.identifier, request.identifierType)
    && ValidBinding(request.binding) && ValidText(challenge)
  }

  /** Identifier, challenge and all three parts of the binding are text, none blank, none over 4096
      bytes, and the type is the configured one. */
  lemma WellFormedExact(c: Config, request: Key, challenge: string)
    ensures WellFormed(c, request, challenge) <==>
              && request.identifierType == c.subjectIdType
              && forall s | s in [request.identifier, challenge, request.binding.relyingPartyId, request.binding.clientId,
                                  request.binding.transactionId] :: !Blank(s) && ByteLen(s) <= 4096
  {
    var texts := [request.identifier, challenge, request.binding.relyingPartyId, request.binding.clientId,
                  request.binding.transactionId];
    assert texts[0] in texts && texts[1] in texts && texts[2] in texts && texts[3] in texts && texts[4] in texts;
  }

  /** The account check of a request whose challenge was verified. */
  function AccountQuery(c: Config, request: Key): Query {
    Query(request.identifier, c.breg.accountCheckFields)
  }

  /** Authenticate.  `asked` says whether a token was wanted and `sent` lists the requests made to
      the registry; both are nothing unless the challenge was verified in a live context.  Then one
      request about the submitted identifier decides. */
  method Authenticate(
      c: Config, request: Key, challenge: string, live: bool, verification: Verification,
      cache: Cache, token: Result<string, Error>, registry: Query -> Answer, zeroTime: int,
      mac: string -> string, clock: int)
    returns (r: Result<(string, map<string, Value>), Error>, asked: bool, sent: seq<Query>)
    requires ClockFits(clock)
    modifies cache, cache.token
    ensures asked <==> WellFormed(c, request, challenge) && live && verification == Passed && c.breg.accountCheckFields != []
    ensures sent == if asked && token.Ok? then [AccountQuery(c, request)] else []
    ensures cache.View() ==
              if asked && token.Ok? && registry(AccountQuery(c, request)) == Problem(Some("authentication.refused"))
              then Invalidated(old(cache.View()), token.value, zeroTime) else old(cache.View())
    ensures r == Err(ErrChallengeFailed) <==> WellFormed(c, request, challenge) && live && verification == Rejected
    ensures r == Err(ErrInvalidRequest) <==>
              || !WellFormed(c, request, challenge)
              || (live && verification == Passed && c.breg.accountCheckFields == [])
    ensures r == Err(ErrSubjectDenied) <==> asked && token.Ok? && SubjectRefusal(registry(AccountQuery(c, request)))
    ensures r.Err? ==> r.error in {ErrChallengeFailed, ErrInvalidRequest, ErrSubjectDenied, ErrUnavailable}
    ensures r.Ok? <==>
              && asked && token.Ok?
              && var answer := registry(AccountQuery(c, request));
              && answer.Found? && answer.domainData.Some?
              && AccountHolds(c.breg, answer.domainData.value, request.identifier)
    ensures r.Ok? ==> r.value == (Psut(mac, Issued(request, clock)), ContextMap(request, clock))
    ensures r.Ok? && FieldsBound(c.breg) ==>
              var record := registry(AccountQuery(c, request)).domainData.value;
              && c.breg.selectorField in record && record[c.breg.selectorField] == TextValue(request.identifier)
              && forall f | f in c.breg.accountCheckFields :: f in record && record[f] != NullValue
  {
    asked, sent := false, [];
    if !WellFormed(c, request, challenge) {
      return Err(ErrInvalidRequest), asked, sent;
    }
    if !live {
      return Err(ErrUnavailable), asked, sent;
    }
    if verification == Interrupted {
      return Err(ErrUnavailable), asked, sent;
    }
    if verification == Rejected {
      return Err(ErrChallengeFailed), asked, sent;
    }
    asked := |c.breg.accountCheckFields| > 0;
    var found;
    found, sent := Lookup(cache, Query(request.identifier, c.breg.accountCheckFields), token, registry, zeroTime);
    if found.Err? {
      return Err(found.error), asked, sent;
    }
    var ok := CheckAccount(c.breg, found.value, request.identifier);
    if !ok {
      return Err(ErrUnavailable), asked, sent;
    }
    return Ok((Psut(mac, Issued(request, clock)), ContextMap(request, clock))), asked, sent;
  }

  /** Any Provider that New builds: whoever it authenticates has, on the registry's record, every
      account-check field and that very identifier under the selector, whatever the operator wrote. */
  method AuthenticateOverNew(
      written: Config, urls: Addresses, s: Surroundings,
      request: Key, challenge: string, live: bool, verification: Verification,
      cache: Cache, token: Result<string, Error>, registry: Query -> Answer, zeroTime: int,
      mac: string -> string, clock: int)
    returns (r: Option<Result<(string, map<string, Value>), Error>>)
    requires ClockFits(clock)
    modifies cache, cache.token
    ensures r.Some? ==> ValidConfig(Defaulted(written), urls)
    ensures r.Some? && r.value.Ok? ==>
              var b := Defaulted(written).breg;
              var answer := registry(AccountQuery(Defaulted(written), request));
              && answer.Found? && answer.domainData.Some?
              && var record := answer.domainData.value;
              && b.selectorField in b.accountCheckFields
              && b.selectorField in record && record[b.selectorField] == TextValue(request.identifier)
              && forall f | f in b.accountCheckFields :: f in record && record[f] != NullValue
  {
    var built := New(written, urls, s);
    if built.None? {
      return None;
    }
    var answered, asked, sent :=
      Authenticate(built.value, request, challenge, live, verification, cache, token, registry, zeroTime, mac, clock);
    return Some(answered);
  }
}
