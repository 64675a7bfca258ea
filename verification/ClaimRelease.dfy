/** Which registry fields are asked for and which claims are released (provider/provider.go:
    162-209), against a specification on sets, and the adapter in front of it
    (integration/overlay/internal/engine/breg/authenticator.go:54-77 and 134-170). */
module ClaimRelease {
  import opened Wrappers
  import opened Text
  import opened Sorting
  import opened Config
  import opened Requests
  import IdentityContext

  datatype Policy = Policy(claimMap: map<string, string>, provisioned: seq<string>)

  /** A released value: the pairwise subject, or what the registry holds. */
  datatype Released<V> = PairwiseSubject(s: string) | Registered(v: V)

  type Registry<V> = Query -> Result<map<string, V>, Error>

  /** The state of a session, as the host stores it. */
  type State = Option<map<string, IdentityContext.Value>>

  type Restored = Result<IdentityContext.AuthContext, Error>

  // ---------------------------------------------------------------- what may be released

  predicate FromRegistry(p: Policy, claim: string) {
    claim in p.claimMap && p.claimMap[claim] != PSUT_SOURCE && p.claimMap[claim] in p.provisioned
  }

  predicate Supported(p: Policy, claim: string) {
    claim in p.claimMap && (p.claimMap[claim] == PSUT_SOURCE || p.claimMap[claim] in p.provisioned)
  }

  /** The fields consent calls for: the provisioned sources of the approved mapped claims. */
  function NeededFields(p: Policy, approved: seq<string>): set<string> {
    set claim | claim in approved && FromRegistry(p, claim) :: p.claimMap[claim]
  }

  /** The attributes consent releases. */
  function Release<V>(p: Policy, approved: seq<string>, psut: string, values: map<string, V>): map<string, Released<V>> {
    map claim | claim in approved && Supported(p, claim)
                && (p.claimMap[claim] == PSUT_SOURCE || p.claimMap[claim] in values)
      :: if p.claimMap[claim] == PSUT_SOURCE then PairwiseSubject(psut) else Registered(values[p.claimMap[claim]])
  }

  /** The fields in the order they are asked for: first mention first. */
  function FieldList(p: Policy, approved: seq<string>): seq<string> {
    if approved == [] then []
    else
      var before := FieldList(p, approved[..|approved| - 1]);
      var claim := approved[|approved| - 1];
      if FromRegistry(p, claim) && p.claimMap[claim] !in before then before + [p.claimMap[claim]] else before
  }

  /** The list holds each needed field once and nothing else. */
  lemma {:induction false} FieldListExact(p: Policy, approved: seq<string>)
    ensures DistinctStrings(FieldList(p, approved))
    ensures forall f :: f in FieldList(p, approved) <==> f in NeededFields(p, approved)
  {
    if approved != [] {
      var init := approved[..|approved| - 1];
      var last := approved[|approved| - 1];
      FieldListExact(p, init);
      assert approved == init + [last];
      assert forall c :: c in approved <==> c in init || c == last;
      forall f
        ensures f in NeededFields(p, approved) <==> f in NeededFields(p, init) || (FromRegistry(p, last) && f == p.claimMap[last])
      {
      }
    }
  }

  /** The order is that of first mention: approving more claims only adds fields at the end. */
  lemma {:induction false} FieldListGrows(p: Policy, approved: seq<string>, more: seq<string>)
    ensures FieldList(p, approved) <= FieldList(p, approved + more)
  {
    if more == [] {
      assert approved + more == approved;
    } else {
      var init := more[..|more| - 1];
      FieldListGrows(p, approved, init);
      assert (approved + more)[..|approved + more| - 1] == approved + init;
    }
  }

  /** Nothing outside the requested fields can influence what is released. */
  lemma ReleaseIgnoresUnrequested<V>(p: Policy, approved: seq<string>, psut: string, a: map<string, V>, b: map<string, V>)
    requires forall f | f in NeededFields(p, approved) :: (f in a <==> f in b) && (f in a ==> a[f] == b[f])
    ensures Release(p, approved, psut, a) == Release(p, approved, psut, b)
  {
  }

  /** Consent is a set: the order and repetition of approved claims change no released value. */
  lemma ReleaseIgnoresOrder<V>(p: Policy, a: seq<string>, b: seq<string>, psut: string, values: map<string, V>)
    requires forall c :: c in a <==> c in b
    ensures Release(p, a, psut, values) == Release(p, b, psut, values)
    ensures NeededFields(p, a) == NeededFields(p, b)
  {
  }

  // ---------------------------------------------------------------- the provider's loops

  method CollectFields(p: Policy, approved: seq<string>) returns (fields: seq<string>)
    ensures fields == FieldList(p, approved)
  {
    fields := [];
    for i := 0 to |approved|
      invariant fields == FieldList(p, approved[..i])
    {
      assert approved[..i + 1][..i] == approved[..i];
      var claim := approved[i];
      if claim in p.claimMap {
        var source := p.claimMap[claim];
        if source != PSUT_SOURCE && source in p.provisioned && source !in fields {
          fields := fields + [source];
        }
      }
    }
    assert approved[..|approved|] == approved;
  }

  /** The second loop, over the values of the fields that were asked for. */
  method FillResult<V>(p: Policy, approved: seq<string>, fields: seq<string>, psut: string, values: map<string, V>)
    returns (result: map<string, Released<V>>)
    requires fields == FieldList(p, approved)
    ensures result == Release(p, approved, psut, values)
  {
    FieldListExact(p, approved);
    result := map[];
    for i := 0 to |approved|
      invariant result == Release(p, approved[..i], psut, values)
    {
      var claim := approved[i];
      assert forall c :: c in approved[..i + 1] <==> c in approved[..i] || c == claim;
      assert claim in approved;
      if claim !in p.claimMap {
        continue;
      }
      var source := p.claimMap[claim];
      if source == PSUT_SOURCE {
        result := result[claim := PairwiseSubject(psut)];
      } else if source in fields {
        if source in values {
          result := result[claim := Registered(values[source])];
        }
      } else {
        assert !FromRegistry(p, claim);
      }
    }
    assert approved[..|approved|] == approved;
  }

  /** The lookups consent calls for: none, or one of exactly the needed fields of this person. */
  function LookupsFor(p: Policy, approved: seq<string>, identifier: string): seq<Query> {
    if NeededFields(p, approved) == {} then [] else [Query(identifier, FieldList(p, approved))]
  }

  /** What consent releases of the registry's answer, if one is needed, or that answer's error. */
  function Outcome<V>(p: Policy, approved: seq<string>, identifier: string, psut: string, registry: Registry<V>):
    Result<map<string, Released<V>>, Error> {
    if NeededFields(p, approved) == {} then Ok(Release(p, approved, psut, map[]))
    else
      match registry(Query(identifier, FieldList(p, approved)))
      case Err(e) => Err(e)
      case Ok(values) => Ok(Release(p, approved, psut, values))
  }

  /** GetAttributes on a list of approved claims, after restore has spoken: the person looked up is
      the one the context names, and the subject released is that person's. */
  function Answered<V>(p: Policy, mac: string -> string, approved: seq<string>, restored: Restored, registry: Registry<V>):
    (Result<map<string, Released<V>>, Error>, seq<Query>) {
    match restored
    case Err(e) => (Err(e), [])
    case Ok(s) => (Outcome(p, approved, s.identifier, IdentityContext.Psut(mac, s), registry),
                   LookupsFor(p, approved, s.identifier))
  }

  ghost predicate Agree<V>(fields: set<string>, a: Result<map<string, V>, Error>, b: Result<map<string, V>, Error>) {
    if a.Err? then a == b
    else b.Ok? && forall f | f in fields :: (f in a.value <==> f in b.value) && (f in a.value ==> a.value[f] == b.value[f])
  }

  /** Two registries that agree on the needed fields, in what they hold or in refusing, lead to
      the same outcome, whatever else their answers contain. */
  lemma OutcomeIgnoresUnrequested<V>(p: Policy, approved: seq<string>, identifier: string, psut: string,
                                     a: Registry<V>, b: Registry<V>)
    requires var q := Query(identifier, FieldList(p, approved));
             Agree(NeededFields(p, approved), a(q), b(q))
    ensures Outcome(p, approved, identifier, psut, a) == Outcome(p, approved, identifier, psut, b)
  {
    var q := Query(identifier, FieldList(p, approved));
    if a(q).Ok? {
      ReleaseIgnoresUnrequested(p, approved, psut, a(q).value, b(q).value);
    }
  }

  /** A registry whose answer depends on which fields are asked for, not on how they are listed. */
  ghost predicate OrderBlind<V>(registry: Registry<V>) {
    forall q: Query, r: Query ::
      q.identifier == r.identifier && (forall f :: f in q.fields <==> f in r.fields) ==> registry(q) == registry(r)
  }

  /** Consent is a set: approved lists with the same claims, in any order and however often each is
      named, lead to the same outcome, and to lookups of the same fields. */
  lemma OutcomeIgnoresOrder<V>(p: Policy, a: seq<string>, b: seq<string>, identifier: string, psut: string,
                               registry: Registry<V>)
    requires OrderBlind(registry) && forall c :: c in a <==> c in b
    ensures Outcome(p, a, identifier, psut, registry) == Outcome(p, b, identifier, psut, registry)
    ensures |LookupsFor(p, a, identifier)| == |LookupsFor(p, b, identifier)|
    ensures forall q, r | q in LookupsFor(p, a, identifier) && r in LookupsFor(p, b, identifier) ::
              q.identifier == r.identifier && multiset(q.fields) == multiset(r.fields)
  {
    FieldListExact(p, a);
    FieldListExact(p, b);
    ReleaseIgnoresOrder<V>(p, a, b, psut, map[]);
    var q, r := Query(identifier, FieldList(p, a)), Query(identifier, FieldList(p, b));
    assert registry(q) == registry(r);
    if registry(q).Ok? {
      ReleaseIgnoresOrder(p, a, b, psut, registry(q).value);
    }
    SameElementsOnce(FieldList(p, a), FieldList(p, b));
  }

  lemma SameElementsOnce(a: seq<string>, b: seq<string>)
    requires DistinctStrings(a) && DistinctStrings(b) && forall f :: f in a <==> f in b
    ensures multiset(a) == multiset(b)
  {
    forall f
      ensures multiset(a)[f] == multiset(b)[f]
    {
      OccursOnce(a, f);
      OccursOnce(b, f);
    }
  }

  lemma {:induction false} OccursOnce(a: seq<string>, f: string)
    requires DistinctStrings(a)
    ensures multiset(a)[f] == if f in a then 1 else 0
  {
    if a != [] {
      OccursOnce(a[1..], f);
      assert a == [a[0]] + a[1..];
    }
  }

  /** The request's `$select` names exactly the fields asked for: those of the account check of a
      bound configuration, and any list consent calls for under it. */
  lemma RequestsSelectTheirFields(b: Breg, p: Policy, approved: seq<string>)
    requires FieldsBound(b) && p.provisioned == b.provisionedFields
    ensures Split(Join(b.accountCheckFields, ','), ',') == b.accountCheckFields
    ensures var fields := FieldList(p, approved);
            fields != [] ==> Split(Join(fields, ','), ',') == fields
  {
    SelectRoundTrip(b.accountCheckFields);
    var fields := FieldList(p, approved);
    FieldListExact(p, approved);
    if fields != [] {
      forall i | 0 <= i < |fields|
        ensures ValidField(fields[i])
      {
        assert fields[i] in NeededFields(p, approved);
      }
      SelectRoundTrip(fields);
    }
  }

  /** Lines 180-208; `lookups` lists the requests made to the registry. */
  method Attributes<V>(p: Policy, approved: seq<string>, identifier: string, psut: string, registry: Registry<V>)
    returns (r: Result<map<string, Released<V>>, Error>, lookups: seq<Query>)
    ensures lookups == LookupsFor(p, approved, identifier)
    ensures r == Outcome(p, approved, identifier, psut, registry)
    ensures |lookups| <= 1 && forall e :: r == Err(e) <==> exists q :: q in lookups && registry(q) == Err(e)
  {
    var fields := CollectFields(p, approved);
    FieldListExact(p, approved);
    var values: map<string, V> := map[];
    lookups := [];
    if |fields| > 0 {
      assert fields[0] in fields;
      lookups := [Query(identifier, fields)];
      var answer := registry(lookups[0]);
      if answer.Err? {
        return Err(answer.error), lookups;
      }
      values := answer.value;
    }
    var result := FillResult(p, approved, fields, psut, values);
    return Ok(result), lookups;
  }

  method GetAttributes<V>(p: Policy, kind: string, mac: string -> string, state: State, b: Binding, now: int,
                          approved: Option<seq<string>>, registry: Registry<V>)
    returns (r: Result<map<string, Released<V>>, Error>, lookups: seq<Query>)
    ensures approved.None? ==> r == Err(ErrInvalidRequest) && lookups == []
    ensures approved.Some? ==>
              (r, lookups) == Answered(p, mac, approved.value, IdentityContext.Restore(kind, state, b, now), registry)
    ensures var restored := IdentityContext.Restore(kind, state, b, now);
            approved.Some? && restored.Err? ==> r == Err(restored.error) && lookups == []
    ensures approved.Some? && IdentityContext.Restore(kind, state, b, now).Ok? ==>
              && |lookups| <= 1
              && forall e :: r == Err(e) <==> exists q :: q in lookups && registry(q) == Err(e)
  {
    if approved.None? {
      return Err(ErrInvalidRequest), [];
    }
    var restored := IdentityContext.Restore(kind, state, b, now);
    if restored.Err? {
      return Err(restored.error), [];
    }
    var s := restored.value;
    r, lookups := Attributes(p, approved.value, s.identifier, IdentityContext.Psut(mac, s), registry);
  }

  /** The one lookup, if a field is needed, is about this person and of exactly the needed fields. */
  ghost predicate AsksForNeeded(p: Policy, approved: seq<string>, identifier: string, lookups: seq<Query>) {
    && |lookups| == (if exists claim :: claim in approved && Wants(p, claim) then 1 else 0)
    && forall q | q in lookups ::
         && q.identifier == identifier && DistinctStrings(q.fields)
         && forall f :: f in q.fields <==> exists claim :: claim in approved && Wants(p, claim) && p.claimMap[claim] == f
  }

  /** The claim is mapped to a provisioned field of the registry. */
  predicate Wants(p: Policy, claim: string) {
    claim in p.claimMap && p.claimMap[claim] != "$psut" && p.claimMap[claim] in p.provisioned
  }

  /** What the lookups found under this field. */
  ghost predicate Held<V>(registry: Registry<V>, lookups: seq<Query>, field: string, v: V) {
    exists q | q in lookups :: registry(q).Ok? && field in registry(q).value && registry(q).value[field] == v
  }

  /** The result holds exactly the approved claims that are mapped to `$psut`, with this subject,
      or to a provisioned field, with what a lookup found there. */
  ghost predicate ReleasesExactly<V(!new)>(p: Policy, approved: seq<string>, psut: string, registry: Registry<V>,
                                     lookups: seq<Query>, result: map<string, Released<V>>) {
    forall claim, value: Released<V> ::
      claim in result && result[claim] == value <==>
      && claim in approved && claim in p.claimMap
      && (if p.claimMap[claim] == "$psut" then value == PairwiseSubject(psut)
          else p.claimMap[claim] in p.provisioned && value.Registered? && Held(registry, lookups, p.claimMap[claim], value.v))
  }

  lemma OutcomeExact<V(!new)>(p: Policy, approved: seq<string>, identifier: string, psut: string, registry: Registry<V>)
    ensures var lookups := LookupsFor(p, approved, identifier);
            var r := Outcome(p, approved, identifier, psut, registry);
            && AsksForNeeded(p, approved, identifier, lookups)
            && (forall e :: r == Err(e) <==> exists q :: q in lookups && registry(q) == Err(e))
            && (r.Ok? ==> ReleasesExactly(p, approved, psut, registry, lookups, r.value))
  {
    FieldListExact(p, approved);
    assert forall claim | claim in approved && FromRegistry(p, claim) :: p.claimMap[claim] in NeededFields(p, approved);
    assert forall claim | claim in approved :: FromRegistry(p, claim) <==> Wants(p, claim);
    var q := Query(identifier, FieldList(p, approved));
    assert forall x :: x in LookupsFor(p, approved, identifier) <==> NeededFields(p, approved) != {} && x == q;
  }

  /** The end-to-end promise.  From the context Authenticate issued for a subject, under the binding
      it was issued for and within its 300 s, the registry is asked about that very subject, and
      the claims released carry the pairwise subject Authenticate returned. */
  lemma IssuedContextReleases<V(!new)>(p: Policy, kind: string, mac: string -> string, subject: Key, clock: int, now: int,
                                 approved: seq<string>, registry: Registry<V>)
    requires 0 < clock <= IdentityContext.TWO53 - IdentityContext.CONTEXT_TTL
    requires clock <= now < clock + IdentityContext.CONTEXT_TTL
    requires IdentityContext.Admitted(kind, subject)
    requires ByteLen(IdentityContext.ContextText(subject, clock)) <= IdentityContext.MAX_ENCODED
    ensures var state := Some(IdentityContext.ContextMap(subject, clock));
            var psut := IdentityContext.Psut(mac, IdentityContext.Issued(subject, clock));
            var restored := IdentityContext.Restore(kind, state, subject.binding, now);
            var (r, lookups) := Answered(p, mac, approved, restored, registry);
            && AsksForNeeded(p, approved, subject.identifier, lookups)
            && (forall e :: r == Err(e) <==> exists q :: q in lookups && registry(q) == Err(e))
            && (r.Ok? ==> ReleasesExactly(p, approved, psut, registry, lookups, r.value))
  {
    IdentityContext.ContextRoundTrip(kind, subject, clock, subject.binding, now);
    var psut := IdentityContext.Psut(mac, IdentityContext.Issued(subject, clock));
    OutcomeExact(p, approved, subject.identifier, psut, registry);
  }

  /** The claims on offer, in sorted order, whatever order the map is walked in. */
  method SupportedClaims(p: Policy) returns (claims: seq<string>)
    ensures claims == SortedKeys(set c | c in p.claimMap && Supported(p, c))
  {
    claims := [];
    var todo := p.claimMap.Keys;
    while todo != {}
      invariant todo <= p.claimMap.Keys
      invariant forall c :: c in claims <==> c in p.claimMap && c !in todo && Supported(p, c)
      invariant DistinctStrings(claims)
    {
      var k :| k in todo;
      todo := todo - {k};
      if p.claimMap[k] == PSUT_SOURCE || p.claimMap[k] in p.provisioned {
        claims := claims + [k];
      }
    }
    SortedListIsCanonical(claims, set c | c in p.claimMap && Supported(p, c));
    claims := SortBy(Codes, claims);
  }

  // ---------------------------------------------------------------- the adapter

  datatype ServiceError = InvalidRequest | ClientNotFound | InternalServer

  datatype ClientAnswer = Client(clientId: string, rpId: string) | NotFound | Unresolved

  function ValuesOf(metadata: map<string, seq<string>>, key: string): seq<string> {
    if key in metadata then metadata[key] else []
  }

  const CLIENT_KEY := "initiator_query_client_id"
  const TRANSACTION_KEY := "provider_ext_TransactionID"

  /** binding: it names the one client the request names, as the registry of clients knows it, and
      a transaction exactly when the host put a single one there; a missing one is tolerated only
      if it is not required, an ambiguous or empty one never. */
  method BindingFor(metadata: map<string, seq<string>>, clients: Option<string -> ClientAnswer>, requireTransaction: bool)
    returns (r: Result<Binding, ServiceError>)
    ensures var ids, ts := ValuesOf(metadata, "initiator_query_client_id"), ValuesOf(metadata, "provider_ext_TransactionID");
            var named := |ids| == 1 && ids[0] != "" && clients.Some?;
            && (r.Ok? <==>
                  && named && clients.value(ids[0]).Client?
                  && clients.value(ids[0]).clientId == ids[0] && clients.value(ids[0]).rpId != ""
                  && ((|ts| == 1 && ts[0] != "") || (|ts| == 0 && !requireTransaction)))
            && (r.Ok? ==>
                  && ids == [r.value.clientId]
                  && clients.value(r.value.clientId) == Client(r.value.clientId, r.value.relyingPartyId)
                  && (requireTransaction ==> r.value.transactionId != "")
                  && ts == (if r.value.transactionId == "" then [] else [r.value.transactionId]))
            && (r == Err(ClientNotFound) <==> named && clients.value(ids[0]).NotFound?)
            && (r == Err(InternalServer) <==> named && clients.value(ids[0]).Unresolved?)
  {
    var ids := ValuesOf(metadata, CLIENT_KEY);
    if |ids| != 1 || ids[0] == "" || clients.None? {
      return Err(InvalidRequest);
    }
    var client := clients.value(ids[0]);
    if client.NotFound? {
      return Err(ClientNotFound);
    }
    if client.Unresolved? {
      return Err(InternalServer);
    }
    if client.clientId != ids[0] || client.rpId == "" {
      return Err(InvalidRequest);
    }
    var binding := Binding(client.rpId, client.clientId, "");
    var transactions := ValuesOf(metadata, TRANSACTION_KEY);
    if |transactions| == 1 && transactions[0] != "" {
      binding := binding.(transactionId := transactions[0]);
    } else if requireTransaction || |transactions| != 0 {
      return Err(InvalidRequest);
    }
    return Ok(binding);
  }

  /** Lines 151-158: the requested names, refused if any carries a constraint, in sorted order
      whatever order the map is walked in. */
  method RequestedNames(requested: map<string, bool>) returns (names: Option<seq<string>>)
    ensures names.None? <==> exists k :: k in requested && requested[k]
    ensures names.Some? ==> names.value == SortedKeys(requested.Keys)
  {
    var found: seq<string> := [];
    var todo := requested.Keys;
    while todo != {}
      invariant todo <= requested.Keys
      invariant forall k :: k in found <==> k in requested && k !in todo
      invariant forall k | k in found :: !requested[k]
      invariant DistinctStrings(found)
    {
      var k :| k in todo;
      todo := todo - {k};
      if requested[k] {
        return None;
      }
      found := found + [k];
    }
    SortedListIsCanonical(found, requested.Keys);
    return Some(SortBy(Codes, found));
  }

  /** Lines 163-168: every value comes back under one of the names, so nothing is dropped. */
  method PassOn<V>(names: seq<string>, values: map<string, V>) returns (result: map<string, V>)
    ensures forall k :: k in result <==> k in values && k in names
    ensures forall k | k in result :: result[k] == values[k]
    ensures (forall k | k in values :: k in names) ==> result == values
  {
    result := map[];
    for i := 0 to |names|
      invariant forall k :: k in result <==> k in values && k in names[..i]
      invariant forall k | k in result :: result[k] == values[k]
    {
      assert forall k :: k in names[..i + 1] <==> k in names[..i] || k == names[i];
      if names[i] in values {
        result := result[names[i] := values[names[i]]];
      }
    }
    assert names[..|names|] == names;
  }

  lemma ReleasedWereApproved<V>(p: Policy, mac: string -> string, approved: seq<string>, restored: Restored,
                                registry: Registry<V>)
    ensures var (r, _) := Answered(p, mac, approved, restored, registry);
            r.Ok? ==> forall k | k in r.value :: k in approved
  {
  }

  /** Lines 151-169: the adapter asks for the sorted names, and passes on exactly what consent
      releases for them.  A true entry is a constrained one. */
  method AdapterAttributes<V>(p: Policy, kind: string, mac: string -> string, state: State, b: Binding, now: int,
                              requested: map<string, bool>, registry: Registry<V>)
    returns (r: Option<Result<map<string, Released<V>>, Error>>, lookups: seq<Query>)
    ensures r.None? <==> exists k :: k in requested && requested[k]
    ensures r.None? ==> lookups == []
    ensures r.Some? ==>
              (r.value, lookups) ==
              Answered(p, mac, SortedKeys(requested.Keys), IdentityContext.Restore(kind, state, b, now), registry)
  {
    var names := RequestedNames(requested);
    if names.None? {
      return None, [];
    }
    var values;
    values, lookups := GetAttributes(p, kind, mac, state, b, now, Some(names.value), registry);
    if values.Err? {
      return Some(Err(values.error)), lookups;
    }
    ReleasedWereApproved(p, mac, names.value, IdentityContext.Restore(kind, state, b, now), registry);
    var result := PassOn(names.value, values.value);
    return Some(Ok(result)), lookups;
  }
}
