/** How `acquire` reads the issuer's answer (provider/http.go:80-126).  Signing the assertion,
    the HTTP exchange and JSON decoding are one outcome: an answer or none. */
module TokenIssuer {
  import opened Wrappers
  import opened Int64
  import opened Text
  import opened Config
  import opened TokenCache

  /** A decoded 200 response; expiresIn is the int64 the decoder read. */
  datatype Reply = NoReply | Reply(accessToken: string, tokenType: string, expiresIn: int, scope: Option<string>)

  function LowerAscii(s: string): string {
    seq(|s|, i requires 0 <= i < |s| => if 'A' <= s[i] <= 'Z' then ((s[i] as int + 32) as char) else s[i])
  }

  predicate IsBearer(tokenType: string) {
    LowerAscii(tokenType) == "bearer"
  }

  /** Each letter in either case, and nothing more. */
  lemma BearerIgnoresCase(tokenType: string)
    ensures IsBearer(tokenType) <==>
              |tokenType| == 6 && forall i | 0 <= i < 6 :: tokenType[i] == "bearer"[i] || tokenType[i] == "BEARER"[i]
  {
    var low := LowerAscii(tokenType);
    assert |low| == |tokenType|;
    if |tokenType| == 6 {
      assert low == "bearer" <==> forall i | 0 <= i < 6 :: low[i] == "bearer"[i];
    }
  }

  predicate Grants(scope: Option<string>, requested: seq<string>) {
    scope.Some? ==>
      && ParseScope(scope.value).Some?
      && forall i | 0 <= i < |requested| :: requested[i] in ParseScope(scope.value).value
  }

  method Contains(items: seq<string>, item: string) returns (found: bool)
    ensures found <==> item in items
  {
    for i := 0 to |items|
      invariant item !in items[..i]
    {
      if items[i] == item {
        return true;
      }
    }
    return false;
  }

  /** A token comes back exactly from a reply with visible ASCII of bounded size for a token, bearer
      type, a positive lifetime and a scope that covers the request, and then with the capped
      lifetime; anything else is ErrUnavailable. */
  method Acquire(r: Reply, requested: seq<string>, maxSeconds: int) returns (got: Acquired)
    requires 1 <= maxSeconds <= 86400
    requires r.Reply? ==> r.expiresIn <= MAX_INT64
    ensures got.Granted? <==>
              && r.Reply?
              && r.accessToken != "" && ByteLen(r.accessToken) <= 64 * 1024
              && (forall i | 0 <= i < |r.accessToken| :: ' ' < r.accessToken[i] <= '~')
              && IsBearer(r.tokenType) && r.expiresIn > 0
              && Grants(r.scope, requested)
    ensures got.Granted? ==> got.token == r.accessToken && got.lifetime == Lifetime(r.expiresIn, maxSeconds)
    ensures got.Granted? ==> SECOND <= got.lifetime <= MAX_INT64
    ensures got.Refused? ==> got.error == ErrUnavailable
  {
    if r.NoReply? {
      return Refused(ErrUnavailable);
    }
    var expiresIn := r.expiresIn;
    if r.accessToken == "" || ByteLen(r.accessToken) > 0x1_0000 || !IsBearer(r.tokenType) || expiresIn <= 0 {
      return Refused(ErrUnavailable);
    }
    if r.scope.Some? {
      var granted := ParseScope(r.scope.value);
      if granted.None? {
        return Refused(ErrUnavailable);
      }
      for i := 0 to |requested|
        invariant forall j | 0 <= j < i :: requested[j] in granted.value
      {
        var found := Contains(granted.value, requested[i]);
        if !found {
          return Refused(ErrUnavailable);
        }
      }
    }
    for i := 0 to |r.accessToken|
      invariant forall j | 0 <= j < i :: 33 <= r.accessToken[j] as int <= 126
    {
      if r.accessToken[i] as int <= 32 || r.accessToken[i] as int >= 127 {
        return Refused(ErrUnavailable);
      }
    }
    if expiresIn > maxSeconds {
      expiresIn := maxSeconds;
    }
    LifetimeFitsDuration(r.expiresIn, maxSeconds);
    return Granted(r.accessToken, expiresIn * SECOND);
  }

  /** The scope-tokens a granted scope joins, within the limit on its size. */
  predicate IsScope(scope: string, granted: seq<string>) {
    && granted != [] && (forall i | 0 <= i < |granted| :: ValidScopeToken(granted[i]))
    && Join(granted, ' ') == scope && ByteLen(scope) <= 4096
  }

  /** Of all strings an issuer can name as the granted scope, exactly those pass that join
      scope-tokens with every requested one among them. */
  lemma GrantedExactly(scope: string, requested: seq<string>)
    ensures Grants(Some(scope), requested) <==>
              exists granted: seq<string> ::
                IsScope(scope, granted) && forall i | 0 <= i < |requested| :: requested[i] in granted
  {
    if ParseScope(scope).Some? {
      ParseScopeExact(scope, ParseScope(scope).value);
      assert IsScope(scope, ParseScope(scope).value);
    }
    forall granted: seq<string> | IsScope(scope, granted)
      ensures ParseScope(scope) == Some(granted)
    {
      ParseScopeExact(scope, granted);
    }
  }

  /** So an issuer that echoes the configured scopes passes, one that grants others passes exactly
      if it leaves none of the configured ones out, and one that grants nothing never does. */
  lemma EchoedScopeGranted(requested: seq<string>, granted: seq<string>)
    requires AcceptableScopes(requested)
    requires forall i | 0 <= i < |granted| :: ValidScopeToken(granted[i])
    ensures Grants(Some(Join(requested, ' ')), requested)
    ensures Grants(Some(Join(granted, ' ')), requested) <==>
              ByteLen(Join(granted, ' ')) <= 4096 && forall i | 0 <= i < |requested| :: requested[i] in granted
  {
    ParseScopeExact(Join(requested, ' '), requested);
    ParseScopeExact(Join(granted, ' '), granted);
  }
}
