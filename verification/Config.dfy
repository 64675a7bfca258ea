/** The operator's configuration (provider/config.go): its defaults, the check that rejects it,
    and the scope and field grammars the check enforces. */
module Config {
  import opened Wrappers
  import opened Text

  datatype Breg = Breg(
    route: string, selector: string, selectorField: string,
    provisionedFields: seq<string>, accountCheckFields: seq<string>)

  datatype TokenClient = TokenClient(
    clientId: string, privateKeyFile: string, keyId: string,
    scopes: seq<string>, assertionTtlSeconds: int, tokenCacheMaxSeconds: int)

  datatype Http = Http(timeoutSeconds: int, maxResponseBytes: int)

  datatype Mailpit = Mailpit(enabled: bool, sender: string, recipient: string)

  datatype Demo = Demo(staticOtpEnabled: bool, staticOtpFile: string, mailpit: Mailpit)

  datatype Config = Config(
    subjectIdType: string, psutSecretFile: string, breg: Breg, tokenClient: TokenClient,
    claimMap: map<string, string>, http: Http, demo: Demo)

  /** What net/url and net say of the five addresses; parsing them is not part of this model. */
  datatype Addresses = Addresses(tokenEndpoint: bool, assertionAudience: bool, resource: bool, baseUrl: bool, smtp: bool)

  const PSUT_SOURCE := "$psut"

  const RESERVED_CLAIMS: set<string> := {
    "iss", "aud", "exp", "iat", "nbf", "jti", "nonce", "auth_time", "acr", "amr", "azp",
    "at_hash", "c_hash", "sid", "cnf", "verified_claims" }

  // ---------------------------------------------------------------- grammars

  /** scope-token characters, section 3.3 of RFC 6749. */
  predicate ScopeChar(c: char) {
    c == '!' || '#' <= c <= '[' || ']' <= c <= '~'
  }

  predicate ValidScopeToken(s: string) {
    s != "" && forall i | 0 <= i < |s| :: ScopeChar(s[i])
  }

  predicate FieldChar(c: char) {
    'a' <= c <= 'z' || 'A' <= c <= 'Z' || '0' <= c <= '9' || c == '_' || c == '-' || c == '.'
  }

  predicate ValidField(s: string) {
    s != "" && forall i | 0 <= i < |s| :: FieldChar(s[i])
  }

  /** A scope-token is visible ASCII but for the quote and the backslash; a field is ASCII digits,
      capital and small letters, hyphens, dots and underscores; neither is empty. */
  lemma GrammarsExact(s: string)
    ensures ValidScopeToken(s) <==> s != "" && forall c | c in s :: 0x21 <= c as int <= 0x7E && c as int !in {0x22, 0x5C}
    ensures ValidField(s) <==>
              s != "" && forall c | c in s ::
                var n := c as int; 0x30 <= n <= 0x39 || 0x41 <= n <= 0x5A || 0x61 <= n <= 0x7A || n in {0x2D, 0x2E, 0x5F}
  {
    assert forall i | 0 <= i < |s| :: s[i] in s;
    assert forall c :: ScopeChar(c) <==> 0x21 <= c as int <= 0x7E && c as int !in {0x22, 0x5C};
  }

  predicate DistinctStrings(xs: seq<string>) {
    forall i, j | 0 <= i < j < |xs| :: xs[i] != xs[j]
  }

  predicate AcceptableScopes(scopes: seq<string>) {
    && 1 <= |scopes| <= 32
    && (forall i | 0 <= i < |scopes| :: ByteLen(scopes[i]) <= 256 && ValidScopeToken(scopes[i]))
    && DistinctStrings(scopes)
    && ByteLen(Join(scopes, ' ')) <= 4096
  }

  method ValidScopes(scopes: seq<string>) returns (ok: bool)
    ensures ok <==> AcceptableScopes(scopes)
    ensures ok <==>
              && 1 <= |scopes| <= 32 && ByteLen(Join(scopes, ' ')) <= 4096
              && (forall i | 0 <= i < |scopes| :: ByteLen(scopes[i]) <= 256 && ValidScopeToken(scopes[i]))
              && forall i, j | 0 <= i < j < |scopes| :: scopes[i] != scopes[j]
  {
    if |scopes| == 0 || |scopes| > 32 {
      return false;
    }
    var seen: set<string> := {};
    for i := 0 to |scopes|
      invariant seen == set j | 0 <= j < i :: scopes[j]
      invariant forall j | 0 <= j < i :: ByteLen(scopes[j]) <= 256 && ValidScopeToken(scopes[j])
      invariant DistinctStrings(scopes[..i])
    {
      if ByteLen(scopes[i]) > 256 || !ValidScopeToken(scopes[i]) {
        return false;
      }
      if scopes[i] in seen {
        return false;
      }
      seen := seen + {scopes[i]};
    }
    assert scopes[..|scopes|] == scopes;
    return ByteLen(Join(scopes, ' ')) <= 4096;
  }

  function ParseScope(scope: string): Option<seq<string>> {
    if scope == "" || ByteLen(scope) > 4096 then None
    else
      var values := Split(scope, ' ');
      if forall i | 0 <= i < |values| :: ValidScopeToken(values[i]) then Some(values) else None
  }

  /** A scope parses to a list exactly when the list is one or more scope-tokens whose join with
      single spaces is that scope, of at most 4096 bytes. */
  lemma ParseScopeExact(scope: string, values: seq<string>)
    ensures ParseScope(scope) == Some(values) <==>
              && values != [] && (forall i | 0 <= i < |values| :: ValidScopeToken(values[i]))
              && Join(values, ' ') == scope && ByteLen(scope) <= 4096
  {
    JoinSplit(scope, ' ');
    if values != [] && forall i | 0 <= i < |values| :: ValidScopeToken(values[i]) {
      forall p | p in values
        ensures ' ' !in p
      {
        var i :| 0 <= i < |values| && values[i] == p;
        assert ValidScopeToken(values[i]) && !ScopeChar(' ');
      }
      SplitJoin(values, ' ');
      assert ValidScopeToken(values[0]) && (|values| == 1 || values[0] <= Join(values, ' '));
    }
  }

  /** Every scope list the configuration accepts comes back from its joined form. */
  lemma ScopesRoundTrip(scopes: seq<string>)
    requires AcceptableScopes(scopes)
    ensures ParseScope(Join(scopes, ' ')) == Some(scopes)
  {
    ParseScopeExact(Join(scopes, ' '), scopes);
  }

  /** The `$select` value names exactly the fields it was joined from (provider/http.go:139). */
  lemma SelectRoundTrip(fields: seq<string>)
    requires fields != [] && forall i | 0 <= i < |fields| :: ValidField(fields[i])
    ensures Split(Join(fields, ','), ',') == fields
  {
    forall p | p in fields
      ensures ',' !in p
    {
      var i :| 0 <= i < |fields| && fields[i] == p;
      assert ValidField(fields[i]) && !FieldChar(',');
    }
    SplitJoin(fields, ',');
  }

  // ---------------------------------------------------------------- defaults and validation

  function OrString(s: string, default: string): string {
    if s == "" then default else s
  }

  function OrInt(n: int, default: int): int {
    if n == 0 then default else n
  }

  function Defaulted(c: Config): Config {
    c.(subjectIdType := OrString(c.subjectIdType, "uin"),
       breg := c.breg.(
         accountCheckFields := if c.breg.accountCheckFields == [] then ["uin", "status"] else c.breg.accountCheckFields,
         selectorField := OrString(c.breg.selectorField, "uin")),
       tokenClient := c.tokenClient.(
         assertionTtlSeconds := OrInt(c.tokenClient.assertionTtlSeconds, 120),
         tokenCacheMaxSeconds := OrInt(c.tokenClient.tokenCacheMaxSeconds, 300)),
       http := Http(OrInt(c.http.timeoutSeconds, 10), OrInt(c.http.maxResponseBytes, 0x10_0000)))
  }

  predicate ValidMailAddress(a: string) {
    && 3 <= ByteLen(a) <= 254
    && (forall i | 0 <= i < |a| :: 33 <= a[i] as int <= 126 && a[i] != '<' && a[i] != '>')
    && var parts := Split(a, '@');
    && |parts| == 2 && parts[0] != "" && parts[1] != ""
  }

  predicate ValidRoute(r: string) {
    && ValidText(r) && r != "." && r != ".."
    && forall i | 0 <= i < |r| :: r[i] != '/' && r[i] != '\\' && r[i] != '?' && r[i] != '#'
  }

  predicate ValidClaim(claim: string, source: string) {
    && !Blank(claim) && (ValidField(source) || source == PSUT_SOURCE)
    && (claim == "sub" ==> source == PSUT_SOURCE) && claim !in RESERVED_CLAIMS
  }

  /** The selector is one of the account-check fields, and those are provisioned. */
  predicate FieldsBound(b: Breg) {
    && b.provisionedFields != []
    && (forall f | f in b.provisionedFields :: ValidField(f))
    && (forall f | f in b.accountCheckFields :: ValidField(f) && f in b.provisionedFields)
    && ValidField(b.selectorField) && b.selectorField in b.accountCheckFields
  }

  predicate TextsValid(c: Config) {
    && ValidText(c.subjectIdType) && !Blank(c.psutSecretFile)
    && ValidText(c.tokenClient.clientId) && !Blank(c.tokenClient.privateKeyFile) && ValidText(c.tokenClient.keyId)
    && ValidRoute(c.breg.route) && ValidText(c.breg.selector) && ValidField(c.breg.selectorField)
  }

  predicate LimitsValid(c: Config, urls: Addresses) {
    && urls.tokenEndpoint && urls.assertionAudience && urls.resource && urls.baseUrl
    && 1 <= c.tokenClient.assertionTtlSeconds <= 300
    && 1 <= c.tokenClient.tokenCacheMaxSeconds <= 86400
    && AcceptableScopes(c.tokenClient.scopes)
    && 1 <= c.http.timeoutSeconds <= 120 && 1 <= c.http.maxResponseBytes <= 0x100_0000
  }

  /** The static code and Mailpit exclude each other, and each needs its own settings. */
  predicate DemoValid(d: Demo, smtpOk: bool) {
    && (d.staticOtpEnabled ==> !Blank(d.staticOtpFile) && !d.mailpit.enabled)
    && (d.mailpit.enabled ==> smtpOk && ValidMailAddress(d.mailpit.sender) && ValidMailAddress(d.mailpit.recipient))
  }

  /** What validate accepts. */
  predicate ValidConfig(c: Config, urls: Addresses) {
    && TextsValid(c) && LimitsValid(c, urls) && DemoValid(c.demo, urls.smtp) && FieldsBound(c.breg)
    && forall k | k in c.claimMap :: ValidClaim(k, c.claimMap[k])
  }

  /** With no fields named, the defaults bind the check to "uin" and "status", and so hold exactly
      when the operator provisions both; what the operator set, each setting by itself, is never
      replaced. */
  lemma DefaultFieldsBound(c: Config)
    ensures c.breg.accountCheckFields == [] && c.breg.selectorField == "" ==>
              (FieldsBound(Defaulted(c).breg) <==>
                 && (forall f | f in c.breg.provisionedFields :: ValidField(f))
                 && "uin" in c.breg.provisionedFields && "status" in c.breg.provisionedFields)
    ensures c.breg.accountCheckFields != [] ==> Defaulted(c).breg.accountCheckFields == c.breg.accountCheckFields
    ensures c.breg.selectorField != "" ==> Defaulted(c).breg.selectorField == c.breg.selectorField
    ensures c.subjectIdType != "" ==> Defaulted(c).subjectIdType == c.subjectIdType
    ensures c.tokenClient.assertionTtlSeconds != 0 ==>
              Defaulted(c).tokenClient.assertionTtlSeconds == c.tokenClient.assertionTtlSeconds
    ensures c.tokenClient.tokenCacheMaxSeconds != 0 ==>
              Defaulted(c).tokenClient.tokenCacheMaxSeconds == c.tokenClient.tokenCacheMaxSeconds
    ensures c.http.timeoutSeconds != 0 ==> Defaulted(c).http.timeoutSeconds == c.http.timeoutSeconds
    ensures c.http.maxResponseBytes != 0 ==> Defaulted(c).http.maxResponseBytes == c.http.maxResponseBytes
    ensures var d := Defaulted(c);
            && d.psutSecretFile == c.psutSecretFile && d.claimMap == c.claimMap && d.demo == c.demo
            && d.breg == c.breg.(selectorField := d.breg.selectorField, accountCheckFields := d.breg.accountCheckFields)
            && d.tokenClient == c.tokenClient.(assertionTtlSeconds := d.tokenClient.assertionTtlSeconds,
                                               tokenCacheMaxSeconds := d.tokenClient.tokenCacheMaxSeconds)
    ensures Defaulted(Defaulted(c)) == Defaulted(c)
  {
  }

  /** What a setting left out becomes. */
  lemma DefaultValues(c: Config)
    ensures var d := Defaulted(c);
            && (c.subjectIdType == "" ==> d.subjectIdType == "uin")
            && (c.breg.selectorField == "" ==> d.breg.selectorField == "uin")
            && (c.breg.accountCheckFields == [] ==> d.breg.accountCheckFields == ["uin", "status"])
            && (c.tokenClient.assertionTtlSeconds == 0 ==> d.tokenClient.assertionTtlSeconds == 120)
            && (c.tokenClient.tokenCacheMaxSeconds == 0 ==> d.tokenClient.tokenCacheMaxSeconds == 300)
            && (c.http.timeoutSeconds == 0 ==> d.http.timeoutSeconds == 10)
            && (c.http.maxResponseBytes == 0 ==> d.http.maxResponseBytes == 1024 * 1024)
  {
  }

  // ---------------------------------------------------------------- what validate reports

  /** One call of validate's `check`: a condition, and the setting named when it fails. */
  datatype Check = Check(ok: bool, setting: string)

  predicate AllOk(checks: seq<Check>) {
    forall i | 0 <= i < |checks| :: checks[i].ok
  }

  /** Some check that this setting has to pass fails. */
  predicate Fails(checks: seq<Check>, setting: string) {
    exists i | 0 <= i < |checks| :: checks[i].setting == setting && !checks[i].ok
  }

  function TextChecks(c: Config): seq<Check> {
    [ Check(ValidText(c.subjectIdType), "subject_id_type"),
      Check(!Blank(c.psutSecretFile), "psut_secret_file"),
      Check(ValidText(c.tokenClient.clientId), "token_client.client_id"),
      Check(!Blank(c.tokenClient.privateKeyFile), "token_client.private_key_file"),
      Check(ValidText(c.tokenClient.keyId), "token_client.key_id") ]
  }

  function RouteChecks(b: Breg): seq<Check> {
    [ Check(ValidRoute(b.route), "breg.route"),
      Check(ValidText(b.selector), "breg.selector"),
      Check(ValidField(b.selectorField), "breg.selector_field") ]
  }

  function AddressChecks(urls: Addresses): seq<Check> {
    [ Check(urls.tokenEndpoint, "token_client.token_endpoint"),
      Check(urls.assertionAudience, "token_client.assertion_audience"),
      Check(urls.resource, "token_client.resource"),
      Check(urls.baseUrl, "breg.base_url") ]
  }

  function LimitChecks(c: Config): seq<Check> {
    [ Check(1 <= c.tokenClient.assertionTtlSeconds <= 300, "token_client.assertion_ttl_seconds"),
      Check(1 <= c.tokenClient.tokenCacheMaxSeconds <= 86400, "token_client.token_cache_max_seconds"),
      Check(AcceptableScopes(c.tokenClient.scopes), "token_client.scopes"),
      Check(1 <= c.http.timeoutSeconds <= 120, "http.timeout_seconds"),
      Check(1 <= c.http.maxResponseBytes <= 0x100_0000, "http.max_response_bytes") ]
  }

  function DemoChecks(d: Demo, smtpOk: bool): seq<Check> {
    [ Check(!d.staticOtpEnabled || !Blank(d.staticOtpFile), "demo.static_otp_file"),
      Check(!d.staticOtpEnabled || !d.mailpit.enabled, "demo.challenge_mode"),
      Check(d.mailpit.enabled ==> smtpOk, "demo.mailpit.smtp_address"),
      Check(d.mailpit.enabled ==> ValidMailAddress(d.mailpit.sender), "demo.mailpit.sender"),
      Check(d.mailpit.enabled ==> ValidMailAddress(d.mailpit.recipient), "demo.mailpit.recipient") ]
  }

  function ProvisionedChecks(b: Breg): seq<Check> {
    [ Check(b.provisionedFields != [], "breg.provisioned_fields"),
      Check(forall f | f in b.provisionedFields :: ValidField(f), "breg.provisioned_fields") ]
  }

  function AccountChecks(b: Breg): seq<Check> {
    [ Check(b.accountCheckFields != [], "breg.account_check_fields"),
      Check(forall f | f in b.accountCheckFields :: ValidField(f) && f in b.provisionedFields, "breg.account_check_fields"),
      Check(b.selectorField in b.accountCheckFields, "breg.account_check_fields") ]
  }

  function ClaimChecks(claimMap: map<string, string>): seq<Check> {
    [ Check(forall k | k in claimMap :: ValidClaim(k, claimMap[k]), "claim_map") ]
  }

  function AllChecks(c: Config, urls: Addresses): seq<Check> {
    TextChecks(c) + RouteChecks(c.breg) + AddressChecks(urls) + LimitChecks(c)
    + DemoChecks(c.demo, urls.smtp) + ProvisionedChecks(c.breg) + AccountChecks(c.breg) + ClaimChecks(c.claimMap)
  }

  /** validate's `check`. */
  function Checked(invalid: seq<string>, ok: bool, setting: string): seq<string> {
    if ok then invalid else invalid + [setting]
  }

  /** These checks in turn, after some others. */
  function Report(before: seq<string>, checks: seq<Check>): seq<string> {
    if checks == [] then before
    else
      var last := checks[|checks| - 1];
      Checked(Report(before, checks[..|checks| - 1]), last.ok, last.setting)
  }

  /** Reported are exactly the settings that fail a check. */
  lemma {:induction false} ReportExact(checks: seq<Check>)
    ensures Report([], checks) == [] <==> AllOk(checks)
    ensures forall n :: n in Report([], checks) <==> Fails(checks, n)
  {
    if checks != [] {
      var init, last := checks[..|checks| - 1], checks[|checks| - 1];
      ReportExact(init);
      assert forall i | 0 <= i < |init| :: init[i] == checks[i];
      forall n
        ensures Fails(checks, n) <==> Fails(init, n) || (n == last.setting && !last.ok)
      {
        if Fails(init, n) {
          var i :| 0 <= i < |init| && init[i].setting == n && !init[i].ok;
          assert checks[i].setting == n;
        }
      }
    }
  }

  lemma {:induction false} ReportConcat(before: seq<string>, a: seq<Check>, b: seq<Check>)
    ensures Report(before, a + b) == Report(Report(before, a), b)
  {
    if b == [] {
      assert a + b == a;
    } else {
      var init := b[..|b| - 1];
      ReportConcat(before, a, init);
      assert (a + b)[..|a + b| - 1] == a + init;
    }
  }

  /** A list of checks, one after the other. */
  lemma ReportSteps(before: seq<string>, checks: seq<Check>)
    ensures Report(before, checks[..0]) == before && checks[..|checks|] == checks
    ensures forall i | 0 <= i < |checks| ::
              Report(before, checks[..i + 1]) == Checked(Report(before, checks[..i]), checks[i].ok, checks[i].setting)
  {
    forall i | 0 <= i < |checks|
      ensures Report(before, checks[..i + 1]) == Checked(Report(before, checks[..i]), checks[i].ok, checks[i].setting)
    {
      assert checks[..i + 1][..i] == checks[..i];
    }
  }

  /** The checks together are what validate accepts. */
  lemma ChecksAreValidity(c: Config, urls: Addresses)
    ensures AllOk(AllChecks(c, urls)) <==> ValidConfig(c, urls)
  {
    var t, r, a, l := TextChecks(c), RouteChecks(c.breg), AddressChecks(urls), LimitChecks(c);
    var d, p := DemoChecks(c.demo, urls.smtp), ProvisionedChecks(c.breg);
    var f, m := AccountChecks(c.breg), ClaimChecks(c.claimMap);
    AllOkConcat(t, r);
    AllOkConcat(t + r, a);
    AllOkConcat(t + r + a, l);
    AllOkConcat(t + r + a + l, d);
    AllOkConcat(t + r + a + l + d, p);
    AllOkConcat(t + r + a + l + d + p, f);
    AllOkConcat(t + r + a + l + d + p + f, m);
    TextsAgree(c);
    LimitsAgree(c, urls);
    DemoAgrees(c.demo, urls.smtp);
    FieldsAgree(c.breg);
    assert AllOk(m) <==> m[0].ok;
  }

  lemma TextsAgree(c: Config)
    ensures AllOk(TextChecks(c)) && AllOk(RouteChecks(c.breg)) <==> TextsValid(c)
  {
    var t, r := TextChecks(c), RouteChecks(c.breg);
    assert AllOk(t) <==> t[0].ok && t[1].ok && t[2].ok && t[3].ok && t[4].ok;
    assert AllOk(r) <==> r[0].ok && r[1].ok && r[2].ok;
  }

  lemma LimitsAgree(c: Config, urls: Addresses)
    ensures AllOk(AddressChecks(urls)) && AllOk(LimitChecks(c)) <==> LimitsValid(c, urls)
  {
    var a, l := AddressChecks(urls), LimitChecks(c);
    assert AllOk(a) <==> a[0].ok && a[1].ok && a[2].ok && a[3].ok;
    assert AllOk(l) <==> l[0].ok && l[1].ok && l[2].ok && l[3].ok && l[4].ok;
  }

  lemma DemoAgrees(d: Demo, smtpOk: bool)
    ensures AllOk(DemoChecks(d, smtpOk)) <==> DemoValid(d, smtpOk)
  {
    var k := DemoChecks(d, smtpOk);
    assert AllOk(k) <==> k[0].ok && k[1].ok && k[2].ok && k[3].ok && k[4].ok;
  }

  lemma FieldsAgree(b: Breg)
    ensures AllOk(ProvisionedChecks(b)) && AllOk(AccountChecks(b)) <==> FieldsBound(b)
  {
    var p, f := ProvisionedChecks(b), AccountChecks(b);
    assert AllOk(p) <==> p[0].ok && p[1].ok;
    assert AllOk(f) <==> f[0].ok && f[1].ok && f[2].ok;
  }

  lemma AllOkConcat(a: seq<Check>, b: seq<Check>)
    ensures AllOk(a + b) <==> AllOk(a) && AllOk(b)
  {
    assert a == (a + b)[..|a|] && b == (a + b)[|a|..];
  }

  // ---------------------------------------------------------------- validate

  method CheckTexts(c: Config, before: seq<string>) returns (invalid: seq<string>)
    ensures invalid == Report(before, TextChecks(c))
  {
    ghost var ks := TextChecks(c);
    ReportSteps(before, ks);
    invalid := Checked(before, ValidText(c.subjectIdType), "subject_id_type");
    invalid := Checked(invalid, !Blank(c.psutSecretFile), "psut_secret_file");
    assert invalid == Report(before, ks[..2]);
    invalid := Checked(invalid, ValidText(c.tokenClient.clientId), "token_client.client_id");
    invalid := Checked(invalid, !Blank(c.tokenClient.privateKeyFile), "token_client.private_key_file");
    assert invalid == Report(before, ks[..4]);
    invalid := Checked(invalid, ValidText(c.tokenClient.keyId), "token_client.key_id");
    assert invalid == Report(before, ks[..5]);
  }

  method CheckRoute(b: Breg, before: seq<string>) returns (invalid: seq<string>)
    ensures invalid == Report(before, RouteChecks(b))
  {
    ghost var ks := RouteChecks(b);
    ReportSteps(before, ks);
    invalid := Checked(before, ValidRoute(b.route), "breg.route");
    invalid := Checked(invalid, ValidText(b.selector), "breg.selector");
    assert invalid == Report(before, ks[..2]);
    invalid := Checked(invalid, ValidField(b.selectorField), "breg.selector_field");
    assert invalid == Report(before, ks[..3]);
  }

  method CheckAddresses(urls: Addresses, before: seq<string>) returns (invalid: seq<string>)
    ensures invalid == Report(before, AddressChecks(urls))
  {
    ghost var ks := AddressChecks(urls);
    ReportSteps(before, ks);
    invalid := Checked(before, urls.tokenEndpoint, "token_client.token_endpoint");
    invalid := Checked(invalid, urls.assertionAudience, "token_client.assertion_audience");
    assert invalid == Report(before, ks[..2]);
    invalid := Checked(invalid, urls.resource, "token_client.resource");
    invalid := Checked(invalid, urls.baseUrl, "breg.base_url");
    assert invalid == Report(before, ks[..4]);
  }

  method CheckLimits(c: Config, before: seq<string>) returns (invalid: seq<string>)
    ensures invalid == Report(before, LimitChecks(c))
  {
    ghost var ks := LimitChecks(c);
    ReportSteps(before, ks);
    invalid := Checked(before, 1 <= c.tokenClient.assertionTtlSeconds <= 300, "token_client.assertion_ttl_seconds");
    invalid := Checked(invalid, 1 <= c.tokenClient.tokenCacheMaxSeconds <= 86400, "token_client.token_cache_max_seconds");
    assert invalid == Report(before, ks[..2]);
    var scopesOk := ValidScopes(c.tokenClient.scopes);
    invalid := Checked(invalid, scopesOk, "token_client.scopes");
    invalid := Checked(invalid, 1 <= c.http.timeoutSeconds <= 120, "http.timeout_seconds");
    assert invalid == Report(before, ks[..4]);
    invalid := Checked(invalid, 1 <= c.http.maxResponseBytes <= 0x100_0000, "http.max_response_bytes");
    assert invalid == Report(before, ks[..5]);
  }

  method CheckDemo(d: Demo, smtpOk: bool, before: seq<string>) returns (invalid: seq<string>)
    ensures invalid == Report(before, DemoChecks(d, smtpOk))
  {
    ghost var ks := DemoChecks(d, smtpOk);
    ReportSteps(before, ks);
    invalid := Checked(before, !d.staticOtpEnabled || !Blank(d.staticOtpFile), "demo.static_otp_file");
    assert invalid == Report(before, ks[..1]);
    invalid := Checked(invalid, !d.staticOtpEnabled || !d.mailpit.enabled, "demo.challenge_mode");
    assert invalid == Report(before, ks[..2]);
    if d.mailpit.enabled {
      invalid := Checked(invalid, smtpOk, "demo.mailpit.smtp_address");
      invalid := Checked(invalid, ValidMailAddress(d.mailpit.sender), "demo.mailpit.sender");
      invalid := Checked(invalid, ValidMailAddress(d.mailpit.recipient), "demo.mailpit.recipient");
    }
    assert d.mailpit.enabled || invalid == Report(before, ks[..3]) == Report(before, ks[..4]);
    assert invalid == Report(before, ks[..5]);
  }

  /** The loop reports at the first field that fails, and no more. */
  method CheckProvisioned(b: Breg, before: seq<string>) returns (invalid: seq<string>)
    ensures invalid == Report(before, ProvisionedChecks(b))
  {
    ghost var ks := ProvisionedChecks(b);
    ReportSteps(before, ks);
    invalid := Checked(before, |b.provisionedFields| > 0, "breg.provisioned_fields");
    assert invalid == Report(before, ks[..1]);
    for i := 0 to |b.provisionedFields|
      invariant invalid == Report(before, ks[..1])
      invariant forall j | 0 <= j < i :: ValidField(b.provisionedFields[j])
    {
      if !ValidField(b.provisionedFields[i]) {
        invalid := Checked(invalid, false, "breg.provisioned_fields");
        assert !ks[1].ok;
        return;
      }
    }
    assert ks[1].ok;
  }

  method CheckAccountFields(b: Breg, before: seq<string>) returns (invalid: seq<string>)
    ensures invalid == Report(before, AccountChecks(b))
  {
    ghost var ks := AccountChecks(b);
    ReportSteps(before, ks);
    invalid := Checked(before, |b.accountCheckFields| > 0, "breg.account_check_fields");
    assert invalid == Report(before, ks[..1]);
    for i := 0 to |b.accountCheckFields|
      invariant invalid == Report(before, ks[..1])
      invariant forall j | 0 <= j < i :: ValidField(b.accountCheckFields[j]) && b.accountCheckFields[j] in b.provisionedFields
    {
      if !ValidField(b.accountCheckFields[i]) || b.accountCheckFields[i] !in b.provisionedFields {
        invalid := Checked(invalid, false, "breg.account_check_fields");
        break;
      }
    }
    assert invalid == Report(before, ks[..2]);
    invalid := Checked(invalid, b.selectorField in b.accountCheckFields, "breg.account_check_fields");
  }

  /** Reported once at most, in whatever order the map is walked. */
  method CheckClaims(claimMap: map<string, string>, before: seq<string>) returns (invalid: seq<string>)
    ensures invalid == Report(before, ClaimChecks(claimMap))
  {
    ReportSteps(before, ClaimChecks(claimMap));
    invalid := before;
    var keys := claimMap.Keys;
    while keys != {}
      invariant keys <= claimMap.Keys && invalid == before
      invariant forall k | k in claimMap && k !in keys :: ValidClaim(k, claimMap[k])
    {
      var k :| k in keys;
      keys := keys - {k};
      var v := claimMap[k];
      if Blank(k) || (!ValidField(v) && v != PSUT_SOURCE) || (k == "sub" && v != PSUT_SOURCE) || k in RESERVED_CLAIMS {
        invalid := Checked(invalid, false, "claim_map");
        break;
      }
    }
  }

  /** validate: a setting is reported exactly when it fails a check, and nothing is exactly for a
      valid configuration. */
  method Validate(c: Config, urls: Addresses) returns (invalid: seq<string>)
    ensures forall n :: n in invalid <==> Fails(AllChecks(c, urls), n)
    ensures invalid == [] <==> ValidConfig(c, urls)
  {
    var t, r, a, l := TextChecks(c), RouteChecks(c.breg), AddressChecks(urls), LimitChecks(c);
    var d, p, f := DemoChecks(c.demo, urls.smtp), ProvisionedChecks(c.breg), AccountChecks(c.breg);
    invalid := CheckTexts(c, []);
    invalid := CheckRoute(c.breg, invalid);
    ReportConcat([], t, r);
    invalid := CheckAddresses(urls, invalid);
    ReportConcat([], t + r, a);
    invalid := CheckLimits(c, invalid);
    ReportConcat([], t + r + a, l);
    invalid := CheckDemo(c.demo, urls.smtp, invalid);
    ReportConcat([], t + r + a + l, d);
    invalid := CheckProvisioned(c.breg, invalid);
    ReportConcat([], t + r + a + l + d, p);
    invalid := CheckAccountFields(c.breg, invalid);
    ReportConcat([], t + r + a + l + d + p, f);
    invalid := CheckClaims(c.claimMap, invalid);
    ReportConcat([], t + r + a + l + d + p + f, ClaimChecks(c.claimMap));
    ReportExact(AllChecks(c, urls));
    ChecksAreValidity(c, urls);
  }

  /** What New reads besides the configuration: whether it was handed a verifier, the static code
      and the pairwise secret if they can be read, and whether key and CA file load. */
  datatype Surroundings = Surroundings(verifier: bool, staticCode: Option<string>, secret: Option<seq<bv8>>, keyOk: bool, caOk: bool)

  /** New: a provider exists only over a defaulted, validated configuration, with a verifier and a
      secret of at least 32 bytes; so its account check is bound to the selector. */
  method New(c: Config, urls: Addresses, s: Surroundings) returns (built: Option<Config>)
    ensures built.Some? <==>
              && ValidConfig(Defaulted(c), urls)
              && (s.verifier || c.demo.mailpit.enabled
                  || (c.demo.staticOtpEnabled && s.staticCode.Some? && !Blank(s.staticCode.value)))
              && s.secret.Some? && |s.secret.value| >= 32 && s.keyOk && s.caOk
    ensures built.Some? ==> built.value == Defaulted(c) && FieldsBound(built.value.breg)
  {
    var d := Defaulted(c);
    var invalid := Validate(d, urls);
    if |invalid| > 0 {
      return None;
    }
    if !s.verifier && !d.demo.mailpit.enabled {
      if !d.demo.staticOtpEnabled {
        return None;
      }
      if s.staticCode.None? || Blank(s.staticCode.value) {
        return None;
      }
    }
    if s.secret.None? || |s.secret.value| < 32 || !s.keyOk || !s.caOk {
      return None;
    }
    return Some(d);
  }
}
