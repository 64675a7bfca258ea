/** The identity context (provider/provider.go:133-138, 210-262): the record Authenticate issues,
    its way through JSON into a map and back, and the pairwise subject computed from it. */
module IdentityContext {
  import opened Wrappers
  import opened Int64
  import opened Text
  import opened Sorting
  import opened Requests
  import opened Json

  const CONTEXT_TTL: int := 300
  const MAX_ENCODED: nat := 0x8000
  const TWO53: int := 0x20_0000_0000_0000

  datatype AuthContext = AuthContext(
    version: int, identifier: string, identifierType: string,
    relyingPartyId: string, clientId: string, transactionId: string,
    issuedAt: int, expiresAt: int)

  const ZERO := AuthContext(0, "", "", "", "", "", 0, 0)

  /** A value of the state map: a JSON scalar, or anything else Go can put there. */
  datatype Value = Plain(scalar: Scalar) | Composite

  datatype Field =
    | Version | Identifier | IdentifierType | RelyingParty | Client | Transaction | IssuedAt | ExpiresAt

  function FieldName(f: Field): string {
    match f
    case Version => "version"
    case Identifier => "subject_locator"
    case IdentifierType => "subject_type"
    case RelyingParty => "relying_party_id"
    case Client => "client_id"
    case Transaction => "transaction_id"
    case IssuedAt => "issued_at"
    case ExpiresAt => "expires_at"
  }

  // ---------------------------------------------------------------- numbers

  function IntText(n: int): string {
    if n < 0 then ['-'] + Decimal(-n) else Decimal(n)
  }

  predicate AllDigits(s: string) {
    forall c | c in s :: IsDigit(c)
  }

  /** strconv.ParseInt(s, 10, 64). */
  function ToInt64(s: string): Option<int> {
    var negative := s != "" && s[0] == '-';
    var digits := if negative then s[1..] else s;
    if digits == "" || !AllDigits(digits) then None
    else
      var n: int := if negative then 0 - FromDecimal(digits) else FromDecimal(digits);
      if MIN_INT64 <= n <= MAX_INT64 then Some(n) else None
  }

  lemma DigitsAreLiteral(digits: string)
    requires digits != "" && AllDigits(digits)
    ensures IsLiteral(digits) && IsLiteral(['-'] + digits)
  {
  }

  lemma IntTextRoundTrip(n: int)
    requires MIN_INT64 <= n <= MAX_INT64
    ensures ToInt64(IntText(n)) == Some(n) && IsLiteral(IntText(n))
  {
    var size: nat := if n < 0 then 0 - n else n;
    var digits := Decimal(size);
    DecimalRoundTrip(size);
    assert digits[0] in digits;
    DigitsAreLiteral(digits);
    if n < 0 {
      assert IntText(n)[1..] == digits;
    }
  }

  /** The nearest float64, ties to the even significand, of an integer below 2^54 in size. */
  function Float64(n: int): (f: int)
    requires -2 * TWO53 <= n <= 2 * TWO53
    ensures -2 * TWO53 <= f <= 2 * TWO53
  {
    if -TWO53 <= n <= TWO53 || n % 2 == 0 then n
    else if (n - 1) % 4 == 0 then n - 1
    else n + 1
  }

  /** Below 2^53 nothing is lost; above, an odd number goes to the neighbour that is a multiple of
      four. */
  lemma Float64Nearest(n: int)
    requires -2 * TWO53 <= n <= 2 * TWO53
    ensures Float64(n) == n <==> -0x20_0000_0000_0000 <= n <= 0x20_0000_0000_0000 || n % 2 == 0
    ensures Float64(n) != n ==> Float64(n) % 4 == 0 && (Float64(n) == n - 1 || Float64(n) == n + 1)
  {
  }

  // ---------------------------------------------------------------- issuing

  /** Line 134. */
  function Issued(subject: Key, clock: int): AuthContext {
    AuthContext(1, subject.identifier, subject.identifierType, subject.binding.relyingPartyId,
                subject.binding.clientId, subject.binding.transactionId, clock, clock + CONTEXT_TTL)
  }

  function ScalarOf(s: AuthContext, f: Field): Scalar {
    match f
    case Version => Num(IntText(s.version))
    case Identifier => Str(s.identifier)
    case IdentifierType => Str(s.identifierType)
    case RelyingParty => Str(s.relyingPartyId)
    case Client => Str(s.clientId)
    case Transaction => Str(s.transactionId)
    case IssuedAt => Num(IntText(s.issuedAt))
    case ExpiresAt => Num(IntText(s.expiresAt))
  }

  function MembersFor(s: AuthContext, fields: seq<Field>): seq<Member> {
    if fields == [] then [] else [(FieldName(fields[0]), ScalarOf(s, fields[0]))] + MembersFor(s, fields[1..])
  }

  /** The struct's fields in their order, and in the byte order of their names, which is the
      order of a marshalled map. */
  const FIELDS := [Version, Identifier, IdentifierType, RelyingParty, Client, Transaction, IssuedAt, ExpiresAt]
  const BY_NAME := [Client, ExpiresAt, IssuedAt, RelyingParty, Identifier, IdentifierType, Transaction, Version]

  predicate SafeNumber(v: Scalar) {
    v.Num? ==> ToInt64(v.literal).Some? && -2 * TWO53 <= ToInt64(v.literal).value <= 2 * TWO53
  }

  /** Decoding into `any` turns every number into a float64, which is printed back. */
  function ThroughAny(v: Scalar): Scalar
    requires SafeNumber(v)
  {
    if v.Num? then Num(IntText(Float64(ToInt64(v.literal).value))) else v
  }

  /** Unmarshalling into a map: of equal keys the last wins. */
  function ToMap(ms: seq<Member>): map<string, Value>
    requires forall i | 0 <= i < |ms| :: SafeNumber(ms[i].1)
  {
    if ms == [] then map[] else map[ms[0].0 := Plain(ThroughAny(ms[0].1))] + ToMap(ms[1..])
  }

  predicate ClockFits(clock: int) {
    -2 * TWO53 <= clock && clock + CONTEXT_TTL <= 2 * TWO53
  }

  predicate Issuable(s: AuthContext) {
    s.version == 1 && ClockFits(s.issuedAt) && s.expiresAt == s.issuedAt + CONTEXT_TTL
  }

  predicate FitsInt64(s: AuthContext) {
    && MIN_INT64 <= s.version <= MAX_INT64 && MIN_INT64 <= s.issuedAt <= MAX_INT64
    && MIN_INT64 <= s.expiresAt <= MAX_INT64
  }

  lemma ScalarEncodable(s: AuthContext, f: Field)
    requires FitsInt64(s)
    ensures Encodable(ScalarOf(s, f)) && (Issuable(s) ==> SafeNumber(ScalarOf(s, f)))
  {
    if IsNumeric(f) {
      IntTextRoundTrip(if f.Version? then s.version else if f.IssuedAt? then s.issuedAt else s.expiresAt);
    }
  }

  lemma {:induction false} MembersEncodable(s: AuthContext, fields: seq<Field>)
    requires FitsInt64(s)
    ensures forall i | 0 <= i < |MembersFor(s, fields)| ::
              Encodable(MembersFor(s, fields)[i].1) && (Issuable(s) ==> SafeNumber(MembersFor(s, fields)[i].1))
  {
    if fields != [] {
      ScalarEncodable(s, fields[0]);
      MembersEncodable(s, fields[1..]);
    }
  }

  lemma StructReadBack(s: AuthContext)
    requires Issuable(s)
    ensures DecodeObject(EncodeObject(MembersFor(s, FIELDS))) == Some(MembersFor(s, FIELDS))
    ensures forall i | 0 <= i < |MembersFor(s, FIELDS)| :: SafeNumber(MembersFor(s, FIELDS)[i].1)
  {
    MembersEncodable(s, FIELDS);
    ObjectRoundTrip(MembersFor(s, FIELDS));
  }

  /** Lines 133-138: marshal the struct, unmarshal the text into a map. */
  function ContextMap(subject: Key, clock: int): map<string, Value>
    requires ClockFits(clock)
  {
    var text := EncodeObject(MembersFor(Issued(subject, clock), FIELDS));
    StructReadBack(Issued(subject, clock));
    ToMap(DecodeObject(text).value)
  }

  // ---------------------------------------------------------------- restoring

  /** The case folding encoding/json applies to a key that is no field's exact name. */
  function Fold(s: string): string {
    seq(|s|, i requires 0 <= i < |s| =>
      if 'a' <= s[i] <= 'z' then (s[i] as int - 32) as char
      else if s[i] as int == 0x17F then 'S'
      else if s[i] as int == 0x212A then 'K'
      else s[i])
  }

  function FindField(key: string, folded: bool, among: seq<Field>): Option<Field> {
    if among == [] then None
    else if (if folded then Fold(FieldName(among[0])) == Fold(key) else FieldName(among[0]) == key) then Some(among[0])
    else FindField(key, folded, among[1..])
  }

  function FieldOf(key: string): Option<Field> {
    var exact := FindField(key, false, FIELDS);
    if exact.Some? then exact else FindField(key, true, FIELDS)
  }

  predicate IsNumeric(f: Field) {
    f.Version? || f.IssuedAt? || f.ExpiresAt?
  }

  function SetText(s: AuthContext, f: Field, v: string): AuthContext
    requires !IsNumeric(f)
  {
    match f
    case Identifier => s.(identifier := v)
    case IdentifierType => s.(identifierType := v)
    case RelyingParty => s.(relyingPartyId := v)
    case Client => s.(clientId := v)
    case Transaction => s.(transactionId := v)
  }

  function SetNumber(s: AuthContext, f: Field, n: int): AuthContext
    requires IsNumeric(f)
  {
    match f
    case Version => s.(version := n)
    case IssuedAt => s.(issuedAt := n)
    case ExpiresAt => s.(expiresAt := n)
  }

  /** One member into the struct; null leaves the field, a wrong type or range is an error. */
  function Assign(s: AuthContext, f: Field, v: Scalar): Option<AuthContext> {
    if v.Null? then Some(s)
    else if IsNumeric(f) then
      if v.Num? && ToInt64(v.literal).Some? then Some(SetNumber(s, f, ToInt64(v.literal).value)) else None
    else
      if v.Str? then Some(SetText(s, f, v.s)) else None
  }

  /** Decoding with unknown fields disallowed. */
  function AssignAll(s: AuthContext, ms: seq<Member>): Option<AuthContext>
    decreases |ms|
  {
    if ms == [] then Some(s)
    else
      var f := FieldOf(ms[0].0);
      if f.None? then None
      else
        var next := Assign(s, f.value, ms[0].1);
        if next.None? then None else AssignAll(next.value, ms[1..])
  }

  predicate AllPlain(state: map<string, Value>) {
    forall k | k in state :: state[k].Plain?
  }

  function Pairs(state: map<string, Value>, keys: seq<string>): seq<Member>
    requires AllPlain(state) && forall k | k in keys :: k in state
  {
    if keys == [] then [] else [(keys[0], state[keys[0]].scalar)] + Pairs(state, keys[1..])
  }

  /** json.Marshal of the map. */
  function MapText(state: map<string, Value>): string
    requires AllPlain(state)
  {
    EncodeObject(Pairs(state, SortedKeys(state.Keys)))
  }

  predicate SameBinding(s: AuthContext, b: Binding) {
    s.relyingPartyId == b.relyingPartyId && s.clientId == b.clientId && s.transactionId == b.transactionId
  }

  predicate ValidSubject(kind: string, identifier: string, identifierType: string) {
    ValidText(identifier) && identifierType == kind
  }

  /** Lines 248-255 on a decoded context of the right version, subject type and binding. */
  function InWindow(s: AuthContext, now: int): Result<AuthContext, Error> {
    if s.issuedAt <= 0 || s.issuedAt > now || s.expiresAt <= s.issuedAt || s.expiresAt - s.issuedAt > CONTEXT_TTL
    then Err(ErrContextInvalid)
    else if s.expiresAt <= now then Err(ErrContextExpired)
    else Ok(s)
  }

  /** The decoder's record for the text of a state map. */
  function Decoded(raw: string): Option<AuthContext> {
    var ms := DecodeObject(raw);
    if ms.None? then None else AssignAll(ZERO, ms.value)
  }

  /** restore. */
  function Restore(kind: string, state: Option<map<string, Value>>, b: Binding, now: int): Result<AuthContext, Error> {
    if state.None? || !ValidBinding(b) || !AllPlain(state.value) then Err(ErrContextInvalid)
    else
      var raw := MapText(state.value);
      if ByteLen(raw) > MAX_ENCODED then Err(ErrContextInvalid)
      else
        var s := Decoded(raw);
        if s.None? || s.value.version != 1
           || !ValidSubject(kind, s.value.identifier, s.value.identifierType) || !SameBinding(s.value, b)
        then Err(ErrContextInvalid)
        else InWindow(s.value, now)
  }

  /** Whatever the map holds, an accepted context is for this binding and subject type, was issued
      in the past, expires in the future, lasts at most 300 s, and none of the arithmetic that
      checks it leaves int64. */
  lemma AcceptedWindow(kind: string, state: Option<map<string, Value>>, b: Binding, now: int)
    ensures var r := Restore(kind, state, b, now);
            r.Ok? ==>
              && var s := r.value;
              && s.version == 1 && ValidSubject(kind, s.identifier, s.identifierType)
              && b == Binding(s.relyingPartyId, s.clientId, s.transactionId) && ValidBinding(b)
              && 0 < s.issuedAt <= now < s.expiresAt <= s.issuedAt + CONTEXT_TTL
              && s.issuedAt <= MAX_INT64 && s.expiresAt <= MAX_INT64
              && 0 < s.expiresAt - s.issuedAt <= MAX_INT64
  {
    if Restore(kind, state, b, now).Ok? {
      DecodedFits(MapText(state.value));
    }
  }

  /** Whatever the text, the decoded numbers are int64, and so is the one difference restore takes:
      line 249 subtracts only when the earlier tests have failed. */
  lemma DecodedFits(raw: string)
    requires Decoded(raw).Some?
    ensures var s := Decoded(raw).value;
            && FitsInt64(s)
            && (0 < s.issuedAt && s.issuedAt < s.expiresAt ==> 0 < s.expiresAt - s.issuedAt <= MAX_INT64)
  {
    AssignedFits(ZERO, DecodeObject(raw).value);
  }

  lemma {:induction false} AssignedFits(s: AuthContext, ms: seq<Member>)
    requires FitsInt64(s) && AssignAll(s, ms).Some?
    ensures FitsInt64(AssignAll(s, ms).value)
    decreases |ms|
  {
    if ms != [] {
      AssignedFits(Assign(s, FieldOf(ms[0].0).value, ms[0].1).value, ms[1..]);
    }
  }

  // ---------------------------------------------------------------- the round trip

  lemma FieldNamesDiffer(f: Field, g: Field)
    requires f != g
    ensures FieldName(f) != FieldName(g)
  {
  }

  lemma {:induction false} FindExact(f: Field, among: seq<Field>)
    requires f in among
    ensures FindField(FieldName(f), false, among) == Some(f)
  {
    if among[0] != f {
      FieldNamesDiffer(among[0], f);
      FindExact(f, among[1..]);
    }
  }

  lemma FieldListed(f: Field)
    ensures f in FIELDS
  {
  }

  lemma FieldOfName(f: Field)
    ensures FieldOf(FieldName(f)) == Some(f)
  {
    FieldListed(f);
    FindExact(f, FIELDS);
  }

  function NamesOf(fields: seq<Field>): seq<string> {
    if fields == [] then [] else [FieldName(fields[0])] + NamesOf(fields[1..])
  }

  lemma {:induction false} NamesAt(fields: seq<Field>)
    ensures |NamesOf(fields)| == |fields|
    ensures forall i | 0 <= i < |fields| :: NamesOf(fields)[i] == FieldName(fields[i])
  {
    if fields != [] {
      NamesAt(fields[1..]);
    }
  }

  predicate LessByHead(a: string, b: string) {
    a != "" && b != "" && a[0] < b[0]
  }

  lemma HeadDecides(a: string, b: string)
    requires LessByHead(a, b)
    ensures Less(Codes(a), Codes(b))
  {
  }

  lemma {:induction false} CommonPrefix(p: seq<int>, a: seq<int>, b: seq<int>)
    ensures Less(p + a, p + b) <==> Less(a, b)
  {
    if p == [] {
      assert p + a == a && p + b == b;
    } else {
      assert (p + a)[1..] == p[1..] + a && (p + b)[1..] == p[1..] + b;
      CommonPrefix(p[1..], a, b);
    }
  }

  lemma SubjectNamesOrdered()
    ensures Less(Codes("subject_locator"), Codes("subject_type"))
  {
    var p, a, b := Codes("subject_"), Codes("locator"), Codes("type");
    assert Codes("subject_locator") == p + a;
    assert Codes("subject_type") == p + b;
    HeadDecides("locator", "type");
    CommonPrefix(p, a, b);
  }

  lemma NamesOrdered(i: nat, j: nat)
    requires i < j < 8
    ensures Less(Codes(FieldName(BY_NAME[i])), Codes(FieldName(BY_NAME[j])))
  {
    var a, b := FieldName(BY_NAME[i]), FieldName(BY_NAME[j]);
    if i == 4 && j == 5 {
      SubjectNamesOrdered();
    } else {
      assert a[0] == ['c', 'e', 'i', 'r', 's', 's', 't', 'v'][i];
      assert b[0] == ['c', 'e', 'i', 'r', 's', 's', 't', 'v'][j];
      HeadDecides(a, b);
    }
  }

  lemma SortedNames(keys: set<string>)
    requires forall k :: k in keys <==> exists f :: FieldName(f) == k
    ensures SortedKeys(keys) == NamesOf(BY_NAME)
  {
    var names := NamesOf(BY_NAME);
    NamesAt(BY_NAME);
    forall i, j | 0 <= i < j < |names|
      ensures Less(Codes(names[i]), Codes(names[j]))
    {
      NamesOrdered(i, j);
    }
    forall k
      ensures k in names <==> k in keys
    {
      if k in keys {
        var f :| FieldName(f) == k;
        var i := match f case Client => 0 case ExpiresAt => 1 case IssuedAt => 2 case RelyingParty => 3
                         case Identifier => 4 case IdentifierType => 5 case Transaction => 6 case Version => 7;
        assert names[i] == FieldName(BY_NAME[i]) == k;
      }
    }
    SortedKeysUnique(keys, names);
  }

  /** The map holds exactly the eight fields, each as the struct has it. */
  predicate HoldsContext(state: map<string, Value>, s: AuthContext) {
    && (forall k | k in state :: FieldOf(k).Some? && FieldName(FieldOf(k).value) == k)
    && (forall f: Field :: FieldName(f) in state && state[FieldName(f)] == Plain(ScalarOf(s, f)))
  }

  lemma {:induction false} PairsOf(state: map<string, Value>, s: AuthContext, fields: seq<Field>)
    requires AllPlain(state) && HoldsContext(state, s)
    requires forall k | k in NamesOf(fields) :: k in state
    ensures Pairs(state, NamesOf(fields)) == MembersFor(s, fields)
  {
    if fields != [] {
      assert NamesOf(fields)[1..] == NamesOf(fields[1..]);
      PairsOf(state, s, fields[1..]);
    }
  }

  /** The text restore decodes, for a map that holds this context. */
  lemma TextOfContext(state: map<string, Value>, s: AuthContext)
    requires HoldsContext(state, s)
    ensures AllPlain(state) && MapText(state) == EncodeObject(MembersFor(s, BY_NAME))
  {
    assert AllPlain(state);
    SortedNames(state.Keys);
    NamesAt(BY_NAME);
    PairsOf(state, s, BY_NAME);
  }

  function Copied(into: AuthContext, s: AuthContext, f: Field): AuthContext {
    match f
    case Version => into.(version := s.version)
    case Identifier => into.(identifier := s.identifier)
    case IdentifierType => into.(identifierType := s.identifierType)
    case RelyingParty => into.(relyingPartyId := s.relyingPartyId)
    case Client => into.(clientId := s.clientId)
    case Transaction => into.(transactionId := s.transactionId)
    case IssuedAt => into.(issuedAt := s.issuedAt)
    case ExpiresAt => into.(expiresAt := s.expiresAt)
  }

  function CopiedAll(into: AuthContext, s: AuthContext, fields: seq<Field>): AuthContext
    decreases |fields|
  {
    if fields == [] then into else CopiedAll(Copied(into, s, fields[0]), s, fields[1..])
  }

  lemma AssignsField(into: AuthContext, s: AuthContext, f: Field)
    requires FitsInt64(s)
    ensures Assign(into, f, ScalarOf(s, f)) == Some(Copied(into, s, f))
  {
    if IsNumeric(f) {
      IntTextRoundTrip(if f.Version? then s.version else if f.IssuedAt? then s.issuedAt else s.expiresAt);
    }
  }

  lemma AssignAllStep(into: AuthContext, f: Field, v: Scalar, rest: seq<Member>)
    requires Assign(into, f, v).Some?
    ensures AssignAll(into, [(FieldName(f), v)] + rest) == AssignAll(Assign(into, f, v).value, rest)
  {
    FieldOfName(f);
    assert ([(FieldName(f), v)] + rest)[1..] == rest;
  }

  lemma {:induction false} AssignsFields(into: AuthContext, s: AuthContext, fields: seq<Field>)
    requires FitsInt64(s)
    ensures AssignAll(into, MembersFor(s, fields)) == Some(CopiedAll(into, s, fields))
    decreases |fields|
  {
    if fields != [] {
      AssignsField(into, s, fields[0]);
      AssignAllStep(into, fields[0], ScalarOf(s, fields[0]), MembersFor(s, fields[1..]));
      AssignsFields(Copied(into, s, fields[0]), s, fields[1..]);
    }
  }

  lemma CopiedEverything(s: AuthContext)
    ensures CopiedAll(ZERO, s, BY_NAME) == s
  {
  }

  /** restore, on a map that holds a context: the size, the subject type, the binding and the
      window decide. */
  lemma RestoreHeld(kind: string, state: map<string, Value>, s: AuthContext, b: Binding, now: int)
    requires HoldsContext(state, s) && FitsInt64(s)
    ensures Restore(kind, Some(state), b, now) ==
            if !ValidBinding(b) || ByteLen(EncodeObject(MembersFor(s, BY_NAME))) > MAX_ENCODED
               || s.version != 1 || !ValidSubject(kind, s.identifier, s.identifierType) || !SameBinding(s, b)
            then Err(ErrContextInvalid) else InWindow(s, now)
  {
    TextOfContext(state, s);
    MembersEncodable(s, BY_NAME);
    ObjectRoundTrip(MembersFor(s, BY_NAME));
    AssignsFields(ZERO, s, BY_NAME);
    CopiedEverything(s);
  }

  /** restore on a map that holds a context, condition by condition. */
  lemma RestoreExact(kind: string, state: map<string, Value>, s: AuthContext, b: Binding, now: int)
    requires HoldsContext(state, s) && FitsInt64(s)
    ensures AllPlain(state)
    ensures var r := Restore(kind, Some(state), b, now);
            var admitted := ByteLen(MapText(state)) <= 32 * 1024 && ValidBinding(b) && s.version == 1
              && ValidText(s.identifier) && s.identifierType == kind
              && s.relyingPartyId == b.relyingPartyId && s.clientId == b.clientId && s.transactionId == b.transactionId
              && 0 < s.issuedAt <= now && s.issuedAt < s.expiresAt <= s.issuedAt + 300;
            && (r == Ok(s) <==> admitted && now < s.expiresAt)
            && (r == Err(ErrContextExpired) <==> admitted && s.expiresAt <= now)
            && (r.Err? ==> r.error in {ErrContextInvalid, ErrContextExpired}) && (r.Ok? ==> r.value == s)
  {
    TextOfContext(state, s);
    RestoreHeld(kind, state, s, b, now);
  }

  // ---------------------------------------------------------------- what restore refuses

  /** A member some field takes: null, or a value of its type, a number being a whole int64. */
  predicate Takes(f: Field, v: Scalar) {
    v.Null? || (if IsNumeric(f) then v.Num? && ToInt64(v.literal).Some? else v.Str?)
  }

  lemma {:induction false} FindFolded(key: string, among: seq<Field>)
    ensures FindField(key, true, among).None? <==> forall f | f in among :: Fold(FieldName(f)) != Fold(key)
    ensures FindField(key, false, among).Some? ==> FieldName(FindField(key, false, among).value) == key
  {
    if among != [] {
      FindFolded(key, among[1..]);
      assert forall f :: f in among <==> f == among[0] || f in among[1..];
    }
  }

  /** A key names a field exactly if it spells one of the eight names, but for case. */
  lemma FieldOfExact(key: string)
    ensures FieldOf(key).Some? <==> exists f: Field :: Fold(FieldName(f)) == Fold(key)
  {
    FindFolded(key, FIELDS);
    if f: Field :| Fold(FieldName(f)) == Fold(key) {
      FieldListed(f);
    }
  }

  lemma {:induction false} AssignAllRefuses(s: AuthContext, ms: seq<Member>, i: nat)
    requires i < |ms| && (FieldOf(ms[i].0).None? || !Takes(FieldOf(ms[i].0).value, ms[i].1))
    ensures AssignAll(s, ms).None?
    decreases |ms|
  {
    if i > 0 && FieldOf(ms[0].0).Some? && Assign(s, FieldOf(ms[0].0).value, ms[0].1).Some? {
      AssignAllRefuses(Assign(s, FieldOf(ms[0].0).value, ms[0].1).value, ms[1..], i - 1);
    }
  }

  lemma {:induction false} PairsAt(state: map<string, Value>, keys: seq<string>)
    requires AllPlain(state) && forall k | k in keys :: k in state
    ensures |Pairs(state, keys)| == |keys|
    ensures forall i | 0 <= i < |keys| :: Pairs(state, keys)[i] == (keys[i], state[keys[i]].scalar)
  {
    if keys != [] {
      PairsAt(state, keys[1..]);
    }
  }

  /** A state with a member restore knows no field for, or of the wrong type, or a number no int64,
      is refused, whatever else it holds. */
  lemma StrangeMemberRefused(kind: string, state: map<string, Value>, b: Binding, now: int, key: string)
    requires forall k | k in state :: state[k].Plain? ==> Encodable(state[k].scalar)
    requires key in state && state[key].Plain?
    requires FieldOf(key).None? || !Takes(FieldOf(key).value, state[key].scalar)
    ensures Restore(kind, Some(state), b, now) == Err(ErrContextInvalid)
  {
    if AllPlain(state) {
      var keys := SortedKeys(state.Keys);
      var ms := Pairs(state, keys);
      PairsAt(state, keys);
      ObjectRoundTrip(ms);
      var i :| 0 <= i < |keys| && keys[i] == key;
      AssignAllRefuses(ZERO, ms, i);
    }
  }

  /** What the issued record has become after its passage through float64. */
  function Rounded(s: AuthContext): AuthContext
    requires Issuable(s)
  {
    s.(issuedAt := Float64(s.issuedAt), expiresAt := Float64(s.expiresAt))
  }

  lemma RoundedScalar(s: AuthContext, f: Field)
    requires Issuable(s)
    ensures SafeNumber(ScalarOf(s, f)) && ThroughAny(ScalarOf(s, f)) == ScalarOf(Rounded(s), f)
  {
    if IsNumeric(f) {
      IntTextRoundTrip(if f.Version? then s.version else if f.IssuedAt? then s.issuedAt else s.expiresAt);
    }
  }

  /** The map has each of these fields, as rounded, and nothing else. */
  predicate MapsFields(m: map<string, Value>, s: AuthContext, fields: seq<Field>) {
    && (forall k | k in m :: k in NamesOf(fields))
    && (forall f | f in fields :: FieldName(f) in m && m[FieldName(f)] == Plain(ScalarOf(s, f)))
  }

  lemma {:induction false} NotNamed(f: Field, fields: seq<Field>)
    requires f !in fields
    ensures FieldName(f) !in NamesOf(fields)
  {
    if fields != [] {
      FieldNamesDiffer(f, fields[0]);
      NotNamed(f, fields[1..]);
    }
  }

  lemma MapsOneMore(m: map<string, Value>, s: AuthContext, f: Field, fields: seq<Field>)
    requires MapsFields(m, s, fields) && f !in fields
    ensures MapsFields(map[FieldName(f) := Plain(ScalarOf(s, f))] + m, s, [f] + fields)
  {
    NotNamed(f, fields);
    assert NamesOf([f] + fields) == [FieldName(f)] + NamesOf(fields) by { assert ([f] + fields)[1..] == fields; }
    assert forall g | g in [f] + fields :: g == f || g in fields;
  }

  lemma {:induction false} ToMapFor(s: AuthContext, fields: seq<Field>)
    requires Issuable(s) && forall i, j | 0 <= i < j < |fields| :: fields[i] != fields[j]
    requires forall i | 0 <= i < |MembersFor(s, fields)| :: SafeNumber(MembersFor(s, fields)[i].1)
    ensures MapsFields(ToMap(MembersFor(s, fields)), Rounded(s), fields)
  {
    if fields != [] {
      var ms := MembersFor(s, fields);
      assert ms[1..] == MembersFor(s, fields[1..]);
      ToMapFor(s, fields[1..]);
      RoundedScalar(s, fields[0]);
      MapsOneMore(ToMap(ms[1..]), Rounded(s), fields[0], fields[1..]);
      assert fields == [fields[0]] + fields[1..];
    }
  }

  lemma IssuedMapHolds(subject: Key, clock: int)
    requires ClockFits(clock)
    ensures HoldsContext(ContextMap(subject, clock), Rounded(Issued(subject, clock)))
  {
    var s := Issued(subject, clock);
    StructReadBack(s);
    ToMapFor(s, FIELDS);
    MapsAllHolds(ContextMap(subject, clock), Rounded(s));
  }

  lemma MapsAllHolds(m: map<string, Value>, s: AuthContext)
    requires MapsFields(m, s, FIELDS)
    ensures HoldsContext(m, s)
  {
    forall f: Field
      ensures FieldName(f) in m && m[FieldName(f)] == Plain(ScalarOf(s, f))
    {
      FieldListed(f);
    }
    forall k | k in m
      ensures FieldOf(k).Some? && FieldName(FieldOf(k).value) == k
    {
      NamedIsField(k, FIELDS);
    }
  }

  lemma {:induction false} NamedIsField(k: string, fields: seq<Field>)
    requires k in NamesOf(fields)
    ensures FieldOf(k).Some? && FieldName(FieldOf(k).value) == k
  {
    if FieldName(fields[0]) == k {
      FieldOfName(fields[0]);
    } else {
      assert NamesOf(fields) == [FieldName(fields[0])] + NamesOf(fields[1..]);
      NamedIsField(k, fields[1..]);
    }
  }

  /** The names of the eight members. */
  lemma FieldNames()
    ensures FieldName(Version) == "version" && FieldName(Identifier) == "subject_locator"
    ensures FieldName(IdentifierType) == "subject_type" && FieldName(RelyingParty) == "relying_party_id"
    ensures FieldName(Client) == "client_id" && FieldName(Transaction) == "transaction_id"
    ensures FieldName(IssuedAt) == "issued_at" && FieldName(ExpiresAt) == "expires_at"
  {
  }

  predicate Holds(m: map<string, Value>, f: Field, v: Scalar) {
    FieldName(f) in m && m[FieldName(f)] == Plain(v)
  }

  /** The eight members, with these values, and no others. */
  ghost predicate StateReads(m: map<string, Value>, subject: Key, issued: int, expires: int) {
    && Holds(m, Version, Num("1"))
    && Holds(m, Identifier, Str(subject.identifier)) && Holds(m, IdentifierType, Str(subject.identifierType))
    && Holds(m, RelyingParty, Str(subject.binding.relyingPartyId)) && Holds(m, Client, Str(subject.binding.clientId))
    && Holds(m, Transaction, Str(subject.binding.transactionId))
    && Holds(m, IssuedAt, Num(IntText(issued))) && Holds(m, ExpiresAt, Num(IntText(expires)))
    && forall k | k in m :: exists f: Field :: FieldName(f) == k
  }

  lemma HeldReads(m: map<string, Value>, subject: Key, s: AuthContext)
    requires HoldsContext(m, s) && s == Issued(subject, s.issuedAt).(expiresAt := s.expiresAt)
    ensures StateReads(m, subject, s.issuedAt, s.expiresAt)
  {
    assert IntText(1) == Decimal(1) == "1";
    forall f: Field
      ensures Holds(m, f, ScalarOf(s, f))
    {
    }
  }

  /** The state Authenticate hands the host: the subject and binding it was asked about, under their
      names, and the 300 s from the clock at hand. */
  lemma IssuedMapReads(subject: Key, clock: int)
    requires 0 < clock <= TWO53 - CONTEXT_TTL
    ensures StateReads(ContextMap(subject, clock), subject, clock, clock + 300)
  {
    IssuedMapHolds(subject, clock);
    HeldReads(ContextMap(subject, clock), subject, Rounded(Issued(subject, clock)));
  }

  /** The text a context of this subject, issued at this time, is read back from. */
  function ContextText(subject: Key, clock: int): string
    requires ClockFits(clock)
  {
    EncodeObject(MembersFor(Rounded(Issued(subject, clock)), BY_NAME))
  }

  /** A request Authenticate takes further, line 106. */
  predicate Admitted(kind: string, subject: Key) {
    ValidSubject(kind, subject.identifier, subject.identifierType) && ValidBinding(subject.binding)
  }

  /** What restore makes of an issued map: size and binding first, then the rounded times. */
  lemma RestoreIssued(kind: string, subject: Key, clock: int, b: Binding, now: int)
    requires ClockFits(clock) && Admitted(kind, subject)
    ensures Restore(kind, Some(ContextMap(subject, clock)), b, now) ==
            if ByteLen(ContextText(subject, clock)) > MAX_ENCODED || b != subject.binding
            then Err(ErrContextInvalid) else InWindow(Rounded(Issued(subject, clock)), now)
  {
    IssuedMapHolds(subject, clock);
    RestoreHeld(kind, ContextMap(subject, clock), Rounded(Issued(subject, clock)), b, now);
  }

  /** The round trip: what Authenticate issued restores to the same record, under the same
      binding only, from the second it was issued until 300 s later, and reports expiry after
      that, provided the clock is positive and its text fits the limit. */
  lemma ContextRoundTrip(kind: string, subject: Key, clock: int, b: Binding, now: int)
    requires 0 < clock <= TWO53 - CONTEXT_TTL
    requires Admitted(kind, subject)
    ensures Restore(kind, Some(ContextMap(subject, clock)), b, now) ==
            if ByteLen(ContextText(subject, clock)) > MAX_ENCODED || b != subject.binding || now < clock then Err(ErrContextInvalid)
            else if now < clock + CONTEXT_TTL then Ok(Issued(subject, clock))
            else Err(ErrContextExpired)
  {
    RestoreIssued(kind, subject, clock, b, now);
  }

  lemma WindowExact(s: AuthContext, now: int)
    requires Issuable(s) && 0 < s.issuedAt <= now < s.expiresAt
    ensures InWindow(Rounded(s), now) == Ok(s) <==> s.issuedAt <= TWO53 - CONTEXT_TTL || s.issuedAt % 2 == 0
  {
    Float64Nearest(s.issuedAt);
    Float64Nearest(s.expiresAt);
    assert Rounded(s) == s <==> Float64(s.issuedAt) == s.issuedAt && Float64(s.expiresAt) == s.expiresAt;
  }

  lemma WindowLate(s: AuthContext)
    requires Issuable(s) && s.issuedAt == TWO53 + 1
    ensures InWindow(Rounded(s), s.issuedAt + CONTEXT_TTL - 1) == Err(ErrContextExpired)
  {
  }

  /** Past 2^53 the seconds no longer survive float64: at any moment of its 300 s the record
      restores to itself exactly when its text fits and both times are still representable. */
  lemma ContextRoundTripExact(kind: string, subject: Key, clock: int, now: int)
    requires 0 < clock && ClockFits(clock) && clock <= now < clock + CONTEXT_TTL
    requires Admitted(kind, subject)
    ensures Restore(kind, Some(ContextMap(subject, clock)), subject.binding, now) == Ok(Issued(subject, clock))
            <==> ByteLen(ContextText(subject, clock)) <= MAX_ENCODED && (clock <= TWO53 - CONTEXT_TTL || clock % 2 == 0)
  {
    RestoreIssued(kind, subject, clock, subject.binding, now);
    WindowExact(Issued(subject, clock), now);
  }

  /** A clock that shows the difference: issued one second past 2^53, the context is back-dated
      by a second, and so expires a second early. */
  lemma LateClockExpiresEarly(kind: string, subject: Key, clock: int)
    requires clock == TWO53 + 1
    requires Admitted(kind, subject)
    requires ByteLen(ContextText(subject, clock)) <= MAX_ENCODED
    ensures Restore(kind, Some(ContextMap(subject, clock)), subject.binding, clock + CONTEXT_TTL - 1) == Err(ErrContextExpired)
  {
    RestoreIssued(kind, subject, clock, subject.binding, clock + CONTEXT_TTL - 1);
    WindowLate(Issued(subject, clock));
  }

  // ---------------------------------------------------------------- the size limit

  lemma {:induction false} EscapeSize(s: string)
    ensures ByteLen(Escape(s)) <= 6 * |s|
    ensures NeedsNoEscape(s) ==> Escape(s) == s
    ensures (forall i | 0 <= i < |s| :: s[i] == '<') ==> ByteLen(Escape(s)) == 6 * |s|
  {
    if s != "" {
      var c := EscapeChar(s[0]);
      EscapeSize(s[1..]);
      ByteLenConcat(c, Escape(s[1..]));
      EscapeCharSize(s[0]);
      assert forall i | 0 <= i < |s[1..]| :: s[1..][i] == s[i + 1];
      assert s == [s[0]] + s[1..];
    }
  }

  lemma EscapeCharSize(c: char)
    ensures ByteLen(EscapeChar(c)) <= 6
    ensures c == '<' ==> ByteLen(EscapeChar(c)) == 6
  {
    var e := EscapeChar(c);
    if |e| == 1 {
      ByteLenBounds(e);
    } else {
      assert forall x | x in e :: x as int < 0x80;
      ByteLenBounds(e);
    }
  }

  lemma QuoteSize(s: string)
    ensures ByteLen(Quote(s)) == ByteLen(Escape(s)) + 2
  {
    ByteLenConcat(['"'] + Escape(s), ['"']);
    ByteLenConcat(['"'], Escape(s));
  }

  function ScalarBytes(s: AuthContext, fields: seq<Field>): nat {
    if fields == [] then 0 else ByteLen(EncodeScalar(ScalarOf(s, fields[0]))) + ScalarBytes(s, fields[1..])
  }

  lemma MemberSize(s: AuthContext, f: Field)
    ensures var n := ByteLen(EncodeMember((FieldName(f), ScalarOf(s, f))));
            ByteLen(EncodeScalar(ScalarOf(s, f))) <= n <= ByteLen(EncodeScalar(ScalarOf(s, f))) + 99
  {
    EscapeSize(FieldName(f));
    QuoteSize(FieldName(f));
    ByteLenConcat(Quote(FieldName(f)) + [':'], EncodeScalar(ScalarOf(s, f)));
    ByteLenConcat(Quote(FieldName(f)), [':']);
  }

  lemma {:induction false} MembersSize(s: AuthContext, fields: seq<Field>)
    ensures ScalarBytes(s, fields) <= ByteLen(Members(MembersFor(s, fields))) <= ScalarBytes(s, fields) + 100 * |fields|
  {
    if fields != [] {
      var ms := MembersFor(s, fields);
      var first := EncodeMember(ms[0]);
      MemberSize(s, fields[0]);
      MembersSize(s, fields[1..]);
      assert ms[1..] == MembersFor(s, fields[1..]);
      if |fields| > 1 {
        assert fields[1..] != [];
        ByteLenConcat(first + [','], Members(ms[1..]));
        ByteLenConcat(first, [',']);
      }
    }
  }

  /** Apart from at most 802 bytes of names and punctuation, the text is the eight values. */
  lemma ContextTextSize(subject: Key, clock: int)
    requires ClockFits(clock)
    ensures var s := Rounded(Issued(subject, clock));
            ScalarBytes(s, BY_NAME) <= ByteLen(ContextText(subject, clock)) <= ScalarBytes(s, BY_NAME) + 802
  {
    var s := Rounded(Issued(subject, clock));
    var body := Members(MembersFor(s, BY_NAME));
    MembersSize(s, BY_NAME);
    ByteLenConcat(['{'] + body, ['}']);
    ByteLenConcat(['{'], body);
  }

  lemma ScalarBytesByName(s: AuthContext)
    ensures ScalarBytes(s, BY_NAME) ==
            ByteLen(Quote(s.clientId)) + ByteLen(IntText(s.expiresAt)) + ByteLen(IntText(s.issuedAt))
            + ByteLen(Quote(s.relyingPartyId)) + ByteLen(Quote(s.identifier)) + ByteLen(Quote(s.identifierType))
            + ByteLen(Quote(s.transactionId)) + ByteLen(IntText(s.version))
  {
    assert BY_NAME[1..][1..] == BY_NAME[2..] && BY_NAME[2..][1..] == BY_NAME[3..] && BY_NAME[3..][1..] == BY_NAME[4..];
    assert BY_NAME[4..][1..] == BY_NAME[5..] && BY_NAME[5..][1..] == BY_NAME[6..] && BY_NAME[6..][1..] == BY_NAME[7..];
    assert BY_NAME[7..][1..] == [];
    assert ScalarBytes(s, BY_NAME[7..]) == ByteLen(IntText(s.version));
    assert ScalarBytes(s, BY_NAME[6..]) == ByteLen(Quote(s.transactionId)) + ScalarBytes(s, BY_NAME[7..]);
    assert ScalarBytes(s, BY_NAME[5..]) == ByteLen(Quote(s.identifierType)) + ScalarBytes(s, BY_NAME[6..]);
    assert ScalarBytes(s, BY_NAME[4..]) == ByteLen(Quote(s.identifier)) + ScalarBytes(s, BY_NAME[5..]);
    assert ScalarBytes(s, BY_NAME[3..]) == ByteLen(Quote(s.relyingPartyId)) + ScalarBytes(s, BY_NAME[4..]);
    assert ScalarBytes(s, BY_NAME[2..]) == ByteLen(IntText(s.issuedAt)) + ScalarBytes(s, BY_NAME[3..]);
    assert ScalarBytes(s, BY_NAME[1..]) == ByteLen(IntText(s.expiresAt)) + ScalarBytes(s, BY_NAME[2..]);
  }

  lemma IntTextSize(n: int)
    requires -2 * TWO53 <= n <= 2 * TWO53
    ensures ByteLen(IntText(n)) <= 18
  {
    var size := if n < 0 then -n else n;
    assert Power10(3) == 1_000 && Power10(5) == 100 * Power10(3) && Power10(7) == 100 * Power10(5);
    assert Power10(9) == 100 * Power10(7) && Power10(11) == 100 * Power10(9) && Power10(13) == 100 * Power10(11);
    assert Power10(15) == 100 * Power10(13) && Power10(17) == 100 * Power10(15);
    DecimalLength(size, 17);
    assert forall c | c in IntText(n) :: c as int < 0x80;
    ByteLenBounds(IntText(n));
  }

  predicate PlainKey(k: Key) {
    && NeedsNoEscape(k.identifier) && NeedsNoEscape(k.identifierType)
    && NeedsNoEscape(k.binding.relyingPartyId) && NeedsNoEscape(k.binding.clientId) && NeedsNoEscape(k.binding.transactionId)
  }

  /** When no character needs escaping, the 4096-byte limits on the fields already keep the
      context within 32 KiB. */
  lemma PlainContextFits(subject: Key, clock: int)
    requires ValidKey(subject) && PlainKey(subject) && ClockFits(clock)
    ensures ByteLen(ContextText(subject, clock)) <= MAX_ENCODED
  {
    var s := Rounded(Issued(subject, clock));
    ContextTextSize(subject, clock);
    ScalarBytesByName(s);
    IntTextSize(s.version);
    IntTextSize(s.issuedAt);
    IntTextSize(s.expiresAt);
    PlainQuote(s.identifier);
    PlainQuote(s.identifierType);
    PlainQuote(s.relyingPartyId);
    PlainQuote(s.clientId);
    PlainQuote(s.transactionId);
  }

  lemma PlainQuote(s: string)
    requires NeedsNoEscape(s)
    ensures ByteLen(Quote(s)) == ByteLen(s) + 2
  {
    EscapeSize(s);
    QuoteSize(s);
  }

  /** But not otherwise: an identifier and a transaction of 4096 `<` each are valid fields, and
      the context issued for them is refused from the very start. */
  lemma EscapedContextRefused(kind: string, subject: Key, clock: int)
    requires Admitted(kind, subject) && ClockFits(clock)
    requires subject.identifier == seq(4096, _ => '<') && subject.binding.transactionId == seq(4096, _ => '<')
    ensures Restore(kind, Some(ContextMap(subject, clock)), subject.binding, clock) == Err(ErrContextInvalid)
  {
    var s := Rounded(Issued(subject, clock));
    ContextTextSize(subject, clock);
    ScalarBytesByName(s);
    EscapeSize(s.identifier);
    EscapeSize(s.transactionId);
    QuoteSize(s.identifier);
    QuoteSize(s.transactionId);
    RestoreIssued(kind, subject, clock, subject.binding, clock);
  }

  lemma AnglesAreValidText()
    ensures ValidText(seq(4096, _ => '<'))
  {
    var s := seq(4096, _ => '<');
    assert forall c | c in s :: c as int < 0x80;
    ByteLenBounds(s);
    assert !IsSpace(s[0]);
  }

  // ---------------------------------------------------------------- the pairwise subject

  /** The text under the HMAC, lines 258-260; it is determined by its UTF-8 bytes. */
  function PsutText(s: AuthContext): string {
    EncodeArray(["registry-psut-v1", s.relyingPartyId, s.clientId, s.identifierType, s.identifier])
  }

  /** psut, with keyed hash and base64 together as one function of the text. */
  function Psut(mac: string -> string, s: AuthContext): string {
    mac(PsutText(s))
  }

  predicate SamePerson(s: AuthContext, t: AuthContext) {
    s.relyingPartyId == t.relyingPartyId && s.clientId == t.clientId
    && s.identifierType == t.identifierType && s.identifier == t.identifier
  }

  /** The text under the HMAC names the relying party, the client, the type and the identifier
      and nothing else: it differs whenever one of the four does, whatever quotes, commas or
      escapes they hold, and is the same for every transaction and time. */
  lemma PsutTextExact(s: AuthContext, t: AuthContext)
    ensures PsutText(s) == PsutText(t) <==> SamePerson(s, t)
  {
    if PsutText(s) == PsutText(t) {
      PsutTextReads(s);
      PsutTextReads(t);
      var a := ["registry-psut-v1", s.relyingPartyId, s.clientId, s.identifierType, s.identifier];
      var b := ["registry-psut-v1", t.relyingPartyId, t.clientId, t.identifierType, t.identifier];
      assert a[1] == b[1] && a[2] == b[2] && a[3] == b[3] && a[4] == b[4];
    }
  }

  /** Read as JSON, the text under the HMAC is the version tag, the relying party, the client, the
      type and the identifier, in that order. */
  lemma PsutTextReads(s: AuthContext)
    ensures DecodeArray(PsutText(s)) == Some(["registry-psut-v1", s.relyingPartyId, s.clientId, s.identifierType, s.identifier])
  {
    ArrayRoundTrip(["registry-psut-v1", s.relyingPartyId, s.clientId, s.identifierType, s.identifier]);
  }

  /** So two people, or one person at two clients, share a subject exactly if they are one person at
      one client, as far as the MAC tells the two texts apart. */
  lemma PsutPairwise(mac: string -> string, s: AuthContext, t: AuthContext)
    ensures SamePerson(s, t) ==> Psut(mac, s) == Psut(mac, t)
    ensures (mac(PsutText(s)) == mac(PsutText(t)) ==> PsutText(s) == PsutText(t)) ==>
              (Psut(mac, s) == Psut(mac, t) <==> SamePerson(s, t))
  {
    PsutTextExact(s, t);
  }

  /** Subject (lines 210-219), with a live context. */
  function Subject(mac: string -> string, kind: string, state: Option<map<string, Value>>, b: Binding, now: int):
    Result<string, Error> {
    match Restore(kind, state, b, now)
    case Ok(s) => Ok(Psut(mac, s))
    case Err(e) => Err(e)
  }

  /** Subject asks nothing but that the context restores, and names the person it restores to. */
  lemma SubjectExact(mac: string -> string, kind: string, state: Option<map<string, Value>>, b: Binding, now: int)
    ensures var r := Restore(kind, state, b, now);
            && (forall e :: Subject(mac, kind, state, b, now) == Err(e) <==> r == Err(e))
            && (r.Ok? ==> Subject(mac, kind, state, b, now) == Ok(Psut(mac, r.value)))
  {
  }

  /** The subject asked for later is the one first returned, for as long as the context lives. */
  lemma SubjectStable(mac: string -> string, kind: string, subject: Key, clock: int, now: int)
    requires 0 < clock <= TWO53 - CONTEXT_TTL && clock <= now < clock + CONTEXT_TTL
    requires Admitted(kind, subject)
    requires ByteLen(ContextText(subject, clock)) <= MAX_ENCODED
    ensures Subject(mac, kind, Some(ContextMap(subject, clock)), subject.binding, now) == Ok(Psut(mac, Issued(subject, clock)))
  {
    ContextRoundTrip(kind, subject, clock, subject.binding, now);
  }
}
