# Verified model of the eSignet registry authenticator

Registrystack's eSignet provider authenticates a citizen with a one-time code, looks the person up
in a base registry with an access token it shares among all calls, issues an identity context with
a pairwise subject, and later releases consented attributes.  Its image is built from sources whose
digest is recorded and from module archives checked against a pinned checksum.  This project models
that logic in Dafny and proves what it is for.

| file | what it models |
|---|---|
| `TokenCache.dfy` | the regions of `accessToken` and `invalidate` that run under the mutex, as functions and as a class that clears and fills the token buffer in place |
| `TokenFlights.dfy` | any number of goroutines in `accessToken`, with waiting, waking, cancellation, invalidation and a monotone clock, as a transition system over those regions |
| `TokenIssuer.dfy` | how `acquire` reads the issuer's reply: token, type, granted scope, capped lifetime |
| `ChallengeStore.dfy` | the Mailpit verifier's store: the class with its purge, reservation, publication, release and verification |
| `ChallengeRuns.dfy` | any number of goroutines in `SendOTP` and `Authenticate` over one store, with the history of publications and attempts |
| `SendHistory.dfy` | what those runs mean in terms of their steps alone: which send published what, and which code is accepted |
| `PaidRuns.dfy` | the two transition systems in one: who verifies a code and then takes a token |
| `IdentityContext.dfy`, `Json.dfy` | the identity context, its way through JSON text and a map and back, and the text under the pairwise subject's HMAC |
| `ClaimRelease.dfy` | which fields are requested and which claims released, and the adapter in front |
| `Authentication.dfy` | one registry lookup, the account check, and `Authenticate` |
| `Config.dfy` | defaults, validation, scope and field grammars |
| `SourceDigest.dfy` | the framed, sorted byte stream of `source_hash` |
| `ModuleArchive.dfy` | the sorted manifest, the path rules, and the write phase of `extract` over a file system |
| `FlowSearch.dfy` | the worklist search that decides whether a login flow seeds its transaction id before any other task |
| `Counting.dfy`, `Sorting.dfy`, `Text.dfy`, `Octets.dfy`, `Int64.dfy`, `Requests.dfy`, `Wrappers.dfy` | shared vocabulary |

How the concurrent parts fit together: a step of a transition system is one region under the mutex
or one action outside it.  The step functions call the very functions (`Entered`, `Settled`,
`Invalidated`, `Verified`, `Swept`) that the class methods are proved equal to.  The environment
chooses the issuer's answers, deliveries, cancellations, purge readings and the passage of time.
Hash functions, the HMAC with its base64, and the `h1:` formatting are arbitrary functions;
that they do not collide is assumed only where a lemma names it, and only on the two inputs at hand.

Where the model shows something the documentation does not say:

- A context is not always restorable.  Escaping can push five valid fields past the 32 KiB limit
  (`EscapedContextRefused`); with no character to escape it cannot (`PlainContextFits`).
- The context's times pass through float64.  The round trip is exact up to 2^53 seconds, and beyond
  that exactly for even clocks (`ContextRoundTripExact`, `LateClockExpiresEarly`).  No deployment
  reads such a clock, 285 million years from now; for every real one `ContextRoundTrip` holds.
- `len(pending)+inFlight` is not bounded by 1024 (`SourceSumExceedsBound`); what is bounded is
  pending challenges plus sends that have yet to publish (`CapacityBound`).

## Model

| member | source | states |
|---|---|---|
| TokenCache.Cache.Enter | provider/http.go:26-48 | In place, the region under the lock serves a live token, else zeroes the old buffer and joins the open flight or opens a new one. |
| TokenCache.Cache.Settle | provider/http.go:51-68 | In place, a token still live at the second clock reading is installed with the deadline from the acquisition's start; otherwise nothing is cached; either way the flight closes with the error the caller gets. |
| TokenCache.Cache.Invalidate | provider/http.go:71-79 | Forgets the token and its deadline exactly when it is the refused one. |
| TokenCache.Cache.Forget | provider/http.go:32-33 | The buffer of a forgotten token holds only zeroes. |
| TokenIssuer.Acquire | provider/http.go:92-126 | A token comes back exactly from a Bearer reply of printable ASCII, positive lifetime and a scope covering the request, with the capped lifetime, which for any int64 expires_in is at least a second and fits int64 nanoseconds; every other reply is ErrUnavailable. |
| TokenIssuer.BearerIgnoresCase | provider/http.go:102 | The token type is "bearer" in any mixture of cases, and nothing else. |
| TokenIssuer.GrantedExactly | provider/http.go:105-115 | Of all strings, exactly those pass the granted-scope check that join scope-tokens, within the limit, with every requested one among them. |
| TokenIssuer.EchoedScopeGranted | provider/http.go:105-115 | An issuer that echoes the configured scopes passes; one that grants any other list of scope-tokens passes exactly if the join fits and none of the configured ones is left out. |
| TokenIssuer.Contains | provider/provider.go:263-270 | Membership, both ways. |
| TokenFlights.StepKeepsInv | provider/http.go:21-79 | Every step of every thread keeps the invariant: open flight, `acquiring` field and initiating thread are one and the same, the cache is empty meanwhile, a cached token comes from a landed flight with that flight's deadline. |
| TokenFlights.SingleFlight | provider/http.go:34-63 | In every reachable state at most one thread is between lines 47 and 62; while one is, `acquiring` is its flight and the cache is empty; and `acquiring` is set only while one is. |
| TokenFlights.FlightsNeverOverlap | provider/http.go:34-47 | At every launch of every run all earlier flights are closed, and no live token is cached. |
| TokenFlights.EnteringDecides | provider/http.go:26-48 | The region under the lock serves a live token; otherwise it forgets the token and joins the open flight, or opens one if none is. |
| TokenFlights.AcquisitionHistory | provider/http.go:49-51 | What a thread settles with is its own launch, the clock it read right after, and the issuer's answer to it. |
| TokenFlights.FlightHistory | provider/http.go:49-62 | Every closed flight was launched, timed, answered and settled as its record says: landed if still live, else failed with the issuer's error or ErrUnavailable. |
| TokenFlights.OutcomesHaveCauses | provider/http.go:22-69 | Every result of a call is the cached token, its own flight's result, the error of the flight it waited for, or ErrUnavailable for a cancelled call. |
| TokenFlights.LaunchesJustified | provider/http.go:26-53 | A flight after a successful one starts only at or after that token's deadline, counted from the clock read before its request, or after an invalidation of that token in between. |
| TokenFlights.InvalidationExact | provider/http.go:71-79 | After an invalidation the token is served from the cache again only if a later flight obtained it again; invalidating another token changes nothing. |
| TokenFlights.ServedFresh | provider/http.go:27-31 | Any token handed out, cached or fresh, was handed out before start + min(expires_in, configured maximum), where start is the clock at line 49 of the flight that obtained it and expires_in the issuer's own answer. |
| TokenFlights.OneAcquisitionPerCall | provider/http.go:22-69 | One call initiates at most one acquisition however often it loops, and its loop-backs are distinct successful flights. |
| TokenFlights.OneLaunchPerCall | provider/http.go:22-69 | Counted in steps: between two launches of one goroutine there is a new call. |
| TokenFlights.LoopBacksDiffer | provider/http.go:36-41 | Counted in steps: two loop-backs of one call are two different landed flights. |
| TokenFlights.FailureShared | provider/http.go:36-41 | A closed flight's error never changes, and each waiter that wakes to it returns that error. |
| TokenFlights.NoCachedFailure | provider/http.go:36-68 | In every run, a settling that fails leaves the cache empty and its flight crashed with the error it returns, one that succeeds leaves both with its token, and a waiter that wakes to a landed flight retries. |
| TokenFlights.NoLostWakeUp | provider/http.go:34-64 | No call is ever stuck: it can step itself, or it waits for an open flight whose initiator is live and can step. |
| TokenFlights.MeasureDrops | provider/http.go:22-69 | Every step of a thread lowers a measure of the work left, whatever the others do. |
| TokenFlights.CallsEnd | provider/http.go:22-69 | The loop ends: between new calls the threads take no more steps than the measure of the state they start from. |
| ChallengeStore.Clock.Read | provider/mailpit.go:40 | Readings never go back. |
| ChallengeStore.Verifier.Reserve | provider/mailpit.go:81-92 | The purge deletes only what has expired and everything that had expired before it; a reservation is taken exactly when there is room. |
| ChallengeStore.Verifier.SendOTP | provider/mailpit.go:73-116 | On every exit path the reservation is given back and the error is the one for what went wrong; success publishes one fresh challenge, of the code and salt at hand, for that key, after a delivery in a live context and with room for it. |
| ChallengeStore.Verifier.Verify | provider/mailpit.go:127-151 | The stored challenge is consumed, counted or dropped as `Verified` says, the answer is its answer, and a dead context changes nothing. |
| ChallengeStore.VerifiedExact | provider/mailpit.go:134-150 | One verification succeeds exactly on a live challenge that matches; the challenge survives exactly a live mismatch that is not the fifth attempt; no other key is touched. |
| ChallengeRuns.StepKeepsCapacity | provider/mailpit.go:81-115 | Every step keeps `inFlight` equal to the number of reservations held, and pending plus unpublished within 1024. |
| ChallengeRuns.CapacityBound | provider/mailpit.go:87-115 | In every reachable state pending challenges plus sends yet to publish are at most 1024, `len(pending)+inFlight` exceeds that by at most the senders between publish and release, and `inFlight` is 0 when none is running. |
| ChallengeRuns.SourceSumExceedsBound | provider/mailpit.go:87-114 | A run in which the sum the source compares reaches 1025. |
| ChallengeRuns.StepKeepsHistory | provider/mailpit.go:82-150 | Every step keeps the store in agreement with the plain history of publications and attempts, key by key. |
| ChallengeRuns.VerifyAnswersHistory | provider/mailpit.go:127-151 | In every run a verification succeeds exactly when the challenge last published for that identifier, type and binding is unexpired, fewer than 5 codes were tried on it, none matched, and this one does. |
| SendHistory.VerifyAnswersSends | provider/mailpit.go:73-151 | In every run a verification succeeds exactly when its code is that of the latest send for its very identifier, type and binding, generated less than 300 s before, with fewer than 5 codes tried since and none of them right. |
| SendHistory.AcceptedCodeWasSent | provider/mailpit.go:80-113 | An accepted code was generated for exactly that identifier, type and binding by one send, less than five minutes before, as far as the salted hash tells codes apart. |
| SendHistory.SentCodeIsAccepted | provider/mailpit.go:95-150 | The code of the latest send, tried first and in time, is accepted. |
| SendHistory.PreparedHasSteps | provider/mailpit.go:80-113 | What a send is about to publish is made of its own reservation's key and its own code, salt and clock. |
| SendHistory.ReservationExact | provider/mailpit.go:82-91 | A reservation is taken exactly when, after a purge of expired challenges only, pending and reserved are fewer than 1024. |
| ChallengeRuns.PurgeChangesNoAnswer | provider/mailpit.go:82-86 | Two runs with the same history and clock answer every code alike, whatever each has purged. |
| SendHistory.LookupsPaidFor | provider/provider.go:114-124 | Over any interleaving, the steps that look up an account or ask for a token are no more than the successful verifications, and those no more than the publications. |
| SendHistory.CountersAreSteps | provider/provider.go:114-124 | The counters the runs keep are the numbers of those steps. |
| ChallengeRuns.LookupFollowsApproval | provider/provider.go:114-124 | A thread that asks for a token or looks up verified an acceptable code itself and has done nothing else since; a failed verification leads to neither. |
| PaidRuns.AcquisitionsPaidFor | provider/provider.go:114-124 | With the token cache in the same run, acquisitions ever started never exceed verified codes, nor those the published challenges. |
| PaidRuns.AcquirersVerified | provider/provider.go:114-121 | Whoever is inside accessToken has verified a code and not yet used it. |
| PaidRuns.VerifiedGoOn | provider/provider.go:121-124 | Whoever has verified a code can call accessToken, is inside it and not stuck, or can go on with what it returned. |
| Authentication.Lookup | provider/http.go:127-180 | At most one registry request, of exactly the query, and none without fields and a token; two problem codes deny the subject, no fields is an invalid request, everything else unavailable; only a refusal of the token invalidates it. |
| Authentication.CheckAccount | provider/provider.go:125-132 | Accepts exactly a record with every account-check field non-null and no contradicting selector. |
| Authentication.AccountCheckBinds | provider/provider.go:125-132 | A passing account is bound to the submitted identifier exactly when the selector is among the account-check fields, as validation demands. |
| Authentication.Authenticate | provider/provider.go:105-139 | One request about the submitted identifier, sent exactly for a well-formed request verified in a live context; success exactly when the account holds; and for each error exactly when it is returned. |
| Authentication.WellFormedExact | provider/provider.go:98-106 | Identifier, challenge and all three parts of the binding are text, none blank, none over 4096 bytes, and the type is the configured one. |
| Authentication.AuthenticateOverNew | provider/provider.go:36-139 | Over any provider New builds, a successful Authenticate means a record with every account-check field and the submitted identifier under the selector. |
| IdentityContext.ContextRoundTrip | provider/provider.go:133-138 | A restored context is the issued one under the same binding from issue until 300 s later, expired after, and invalid under any other binding, before its time or over 32 KiB. |
| IdentityContext.RestoreIssued | provider/provider.go:234-256 | What restore makes of an issued map for any clock below 2^54: size and binding first, then the rounded times. |
| IdentityContext.RestoreExact | provider/provider.go:234-256 | Of any map that holds a context, restore gives the record, expiry or refusal exactly under the stated conditions. |
| IdentityContext.StrangeMemberRefused | provider/provider.go:243-247 | A member of no known name, of the wrong type, or a number no int64, refuses the state whatever else it holds. |
| IdentityContext.FieldOfExact | provider/provider.go:223-232 | A key names a field exactly if it spells one of the eight names but for case. |
| IdentityContext.IssuedMapReads | provider/provider.go:134-138 | The issued map holds the subject, the binding, the version and the 300 s under their members, and no others. |
| IdentityContext.FieldNames | provider/provider.go:224-231 | The names of the eight members. |
| IdentityContext.Float64Nearest | provider/provider.go:136-137 | Up to 2^53 nothing is lost; above, an odd number goes to the neighbouring multiple of four. |
| IdentityContext.ContextRoundTripExact | provider/provider.go:134-137 | The exact condition for restoring at any moment of the 300 s: text within 32 KiB, and both times at most 2^53 or even. |
| IdentityContext.LateClockExpiresEarly | provider/provider.go:134-137 | One second past 2^53 the context expires a second early. |
| IdentityContext.AcceptedWindow | provider/provider.go:234-256 | Whatever the map holds, an accepted context is version 1, of this subject type and binding, with 0 < issued <= now < expires <= issued + 300. |
| IdentityContext.DecodedFits | provider/provider.go:245-249 | Whatever the text, decoded numbers are int64, and where restore subtracts them the difference is too. |
| IdentityContext.PlainContextFits | provider/provider.go:101-102 | With nothing to escape, the 4096-byte field limits imply the 32 KiB bound. |
| IdentityContext.EscapedContextRefused | provider/provider.go:240-242 | Valid fields of 4096 `<` give a context that restore refuses at once. |
| IdentityContext.AnglesAreValidText | provider/provider.go:101 | Those fields are valid text. |
| IdentityContext.PsutTextReads | provider/provider.go:258 | Read as JSON, the text under the HMAC is the version tag, the relying party, the client, the type and the identifier, in that order. |
| IdentityContext.PsutTextExact | provider/provider.go:257-258 | The text under the HMAC is equal exactly when relying party, client, type and identifier are; transaction and times do not enter. |
| IdentityContext.PsutPairwise | provider/provider.go:257-262 | Subjects are equal exactly for the same relying party, client, type and identifier, unless the MAC collides on the two texts. |
| IdentityContext.SubjectStable | provider/provider.go:210-219 | The subject asked for later equals the one first returned, for the context's lifetime. |
| IdentityContext.SubjectExact | provider/provider.go:210-219 | In a live context Subject fails exactly as restore does, and otherwise names the person restored. |
| Json.StringRoundTrip | provider/provider.go:258 | A string escaped as encoding/json does is read back whole, whatever follows it. |
| Json.EscapedIsSafe | provider/provider.go:258 | No control, `<`, `>`, `&`, U+2028 or U+2029 is left in an encoded string, and no quote without a backslash before it. |
| Json.EscapeTable | provider/psut_golden_test.go:15 | Character by character, what is written for quotes, backslashes, controls, `<`, `>`, `&`, U+2028 and U+2029, and that nothing else is escaped. |
| Json.ArrayRoundTrip | provider/provider.go:258 | A written list of strings is read back element for element, in order. |
| Json.ArrayInjective | provider/psut_golden_test.go:14-15 | No delimiter, quote or escape makes two lists of strings encode alike. |
| Json.ObjectRoundTrip | provider/provider.go:135-137 | A written flat object is read back member for member. |
| ClaimRelease.CollectFields | provider/provider.go:181-187 | The loop builds the list of needed fields, first mention first. |
| ClaimRelease.FieldListExact | provider/provider.go:181-187 | That list is duplicate-free and holds exactly the provisioned sources of approved mapped claims. |
| ClaimRelease.FieldListGrows | provider/provider.go:181-187 | The order is that of first mention: approving more only adds fields at the end. |
| ClaimRelease.FillResult | provider/provider.go:195-207 | The second loop's result is the set-level release. |
| ClaimRelease.GetAttributes | provider/provider.go:172-209 | Without consent an invalid request, with a context that does not restore its very error, and no lookup in either case; otherwise the answer for the restored record, failing exactly with the error of its one lookup. |
| ClaimRelease.OutcomeExact | provider/provider.go:180-208 | One lookup of exactly the provisioned fields approved claims are mapped to, or none if there are none; it fails exactly with that lookup's error; released is exactly, claim by claim, what consent, mapping and the registry's answer call for. |
| ClaimRelease.IssuedContextReleases | provider/provider.go:133-209 | From the context Authenticate issued, under its binding and within 300 s: the lookup is about the subject authenticated, and the released subject is the one Authenticate returned. |
| ClaimRelease.OutcomeIgnoresUnrequested | provider/provider.go:188-207 | Two registries that agree on the needed fields, in what they hold or in refusing, lead to the same outcome whatever else they answer. |
| ClaimRelease.OutcomeIgnoresOrder | provider/provider.go:181-207 | Approved lists with the same claims lead to the same outcome and to lookups of the same fields, over any registry whose answer does not depend on the order of the fields. |
| ClaimRelease.RequestsSelectTheirFields | provider/http.go:139 | Under a validated configuration `$select` splits back to the fields of the account check, and to those of every claim lookup. |
| ClaimRelease.SupportedClaims | provider/provider.go:162-171 | The sorted list of subject and provisioned claims, for any map iteration order. |
| ClaimRelease.BindingFor | integration/overlay/internal/engine/breg/authenticator.go:54-77 | A binding exists exactly for one named, resolved client with a relying party and an unambiguous transaction, required or absent as asked, and names just these; an unknown client and a failed resolution have their own errors, anything else is an invalid request. |
| ClaimRelease.RequestedNames | integration/overlay/internal/engine/breg/authenticator.go:151-158 | The same sorted request for every map iteration order; any constraint refuses. |
| ClaimRelease.PassOn | integration/overlay/internal/engine/breg/authenticator.go:163-168 | The adapter passes on every value it got under a requested name, and so all of them. |
| ClaimRelease.AdapterAttributes | integration/overlay/internal/engine/breg/authenticator.go:151-169 | Through the adapter, the provider's answer and lookups for the sorted names, and neither if a constraint is present. |
| Config.GrammarsExact | provider/config.go:204-255 | A scope-token is visible ASCII but for quote and backslash (section 3.3 of RFC 6749); a field is ASCII letters, digits, hyphens, dots and underscores; neither is empty. |
| Config.ValidScopes | provider/config.go:187-202 | Accepts exactly 1 to 32 distinct scope-tokens of at most 256 bytes whose join is at most 4096. |
| Config.ParseScopeExact | provider/config.go:216-227 | A scope parses to a list exactly when the list is non-empty scope-tokens whose join with single spaces it is, within 4096 bytes. |
| Config.ScopesRoundTrip | provider/config.go:187-227 | Every accepted scope list is parsed back from its join. |
| Config.SelectRoundTrip | provider/http.go:139 | `$select` splits back to the fields it was joined from. |
| Config.Validate | provider/config.go:116-172 | A setting is reported exactly when it fails one of its checks, and nothing is reported exactly for a valid configuration. |
| Config.New | provider/provider.go:36-97 | A provider exists exactly over a defaulted, validated configuration with a verifier, a key and a secret of 32 bytes, and its account check is bound to the selector. |
| Config.ReportExact | provider/config.go:117-122 | The closure, over any checks, names exactly the settings of the failed ones. |
| Config.ChecksAreValidity | provider/config.go:123-167 | All checks hold exactly for a valid configuration, whose selector is an account-check field and whose account-check fields are provisioned and well formed. |
| Config.CheckAccountFields | provider/config.go:154-161 | The loop and the selector check report as their three conditions demand. |
| Config.CheckClaims | provider/config.go:162-167 | One report exactly when some claim mapping is invalid, for any iteration order. |
| Config.DefaultFieldsBound | provider/config.go:93-115 | The defaults bind the account check exactly when uin and status are provisioned; each value that is set is kept; defaulting twice is defaulting once. |
| Config.DefaultValues | provider/config.go:93-115 | What each setting left out becomes. |
| SourceDigest.SourceHash | integration/source-metadata.py:17-39 | The digest of the selected files' stream, or the first input that is missing. |
| SourceDigest.SelectedExact | integration/source-metadata.py:18-26 | Exactly the files and links the inputs stand for are selected, and selection fails exactly when an input is missing. |
| SourceDigest.SelectedInOrder | integration/source-metadata.py:18-26 | Inputs are gone through in order, each file is kept each time it is met, and the first missing input ends it. |
| SourceDigest.RecordReads | integration/source-metadata.py:30-38 | A record, spelled out: kind, path, executable digit, decimal length and content, each closed by a NUL. |
| SourceDigest.StreamReads | integration/source-metadata.py:27-29 | Behind the header the records come in ascending order of their paths. |
| SourceDigest.RecordSplits | integration/source-metadata.py:30-38 | One record can be read off the front of a stream whatever its content holds. |
| SourceDigest.StreamDetermines | integration/source-metadata.py:27-38 | For NUL-free paths equal streams mean equal files, kinds, executable bits and contents. |
| SourceDigest.StreamIgnoresOrder | integration/source-metadata.py:28 | The stream does not depend on enumeration order. |
| SourceDigest.DigestPinsSources | integration/source-metadata.py:17-39 | Two trees have equal digests exactly when they have the same files, unless the hash collides on the two streams. |
| ModuleArchive.Check | integration/modulearchive/main.go:24-56 | Accepts the sorted files exactly when names are distinct, newline-free, prefixed, local, no symlinks, all readable, and the manifest seals to the expected checksum; a mismatch is reported exactly when only that fails. |
| ModuleArchive.CheckEntry | integration/modulearchive/main.go:27-50 | One file passes exactly when it keeps every rule and does not repeat its predecessor; otherwise the error names a rule it breaks. |
| ModuleArchive.SortedByName | integration/modulearchive/main.go:22-23 | The files are taken in ascending order of their names. |
| ModuleArchive.LocalExact | integration/modulearchive/main.go:35 | A name is local exactly if it is not empty, not rooted and never climbs above its starting point. |
| ModuleArchive.CleanExact | integration/modulearchive/main.go:59 | Cleaning keeps ordinary components, lets `..` take back the one before it, and drops it at a root. |
| ModuleArchive.HexExact | integration/modulearchive/main.go:51 | Digests are written as two lower-case digits a byte, the high one first. |
| ModuleArchive.ManifestLines | integration/modulearchive/main.go:51 | Split at its newlines, the manifest is a line for each file: digest, two spaces, name. |
| ModuleArchive.AcceptanceIgnoresOrder | integration/modulearchive/main.go:22-56 | Any two sorted arrangements of the same entries get the same verdict. |
| ModuleArchive.ManifestDetermines | integration/modulearchive/main.go:51 | The manifest is uniquely decodable into names and digests. |
| ModuleArchive.ChecksumPinsContents | integration/modulearchive/main.go:42-56 | Two archives accepted under one checksum have the same names and contents unless a hash collides on them. |
| ModuleArchive.TargetInside | integration/modulearchive/main.go:34-59 | A local name lands lexically inside any destination, at its own cleaned form. |
| ModuleArchive.SilentComponents | integration/modulearchive/main.go:59 | Different spellings such as a/./b and a/b clean to one path. |
| ModuleArchive.Disk.MkdirAll | integration/modulearchive/main.go:61-66 | Succeeds exactly if no component on the way is a file; only missing directories on the way are made and nothing existing changes. |
| ModuleArchive.Disk.WriteEntry | integration/modulearchive/main.go:59-93 | Succeeds exactly where the way is free, the place not taken and the content readable; then the entry is at its target with its content and mode; nothing existing changes and nothing but the way is added. |
| ModuleArchive.Disk.Extract | integration/modulearchive/main.go:16-96 | Nothing is written unless the whole manifest matches; existing files are never changed; nothing is made outside the destination; on success every file entry is a new file with its content and distinct entries have distinct targets; and it succeeds where the manifest matches and no entry is in the way of another or of what is there. |
| FlowSearch.BuildGraph | integration/overlay/internal/engine/breg_flow_test.go:47-54 | The ids are those defined, each standing for its last definition, and the start is the id of the last START, empty without one. |
| FlowSearch.PushReferences | integration/overlay/internal/engine/breg_flow_test.go:79-87 | Exactly the references of the node are pushed, in order. |
| FlowSearch.ReferencesExact | integration/overlay/internal/engine/breg_flow_test.go:79-87 | A node refers to its four successors, its skip target and the action of each prompt that has one, and to nothing else. |
| FlowSearch.Search | integration/overlay/internal/engine/breg_flow_test.go:47-91 | Ends on every graph and accepts exactly when a START exists, everything reachable without passing a task is known, every task so reached is the seed, and a seed is reached; a refusal names a reachable culprit. |
| FlowSearch.SeedBeforeEveryTask | integration/overlay/internal/engine/breg_flow_test.go:38-40 | On acceptance every walk from START runs the seed before any other task. |
| Sorting.LessExact | integration/modulearchive/main.go:23 | Strings are compared byte by byte: a proper prefix first, otherwise the first difference decides. |
| Text.Utf8WidthExact | provider/provider.go:101 | Lengths count UTF-8 bytes, one to four a character (section 3 of RFC 3629). |

## Left out

- HTTP, TLS, SMTP, zip and file input, signing, randomness and key parsing: outcomes and parameters of the modelled operations.
- URL, address and general JSON and YAML parsing: verdicts are parameters of `Validate`, and only scalars in flat objects and arrays of strings are encoded and read.
- Config.Defaulted: the source fills the receiver's fields in place; here it is a function on a record.
- IdentityContext.RestoreIssued: clocks of 2^54 seconds and beyond, where the shortest decimal of a float64 matters, are not modelled.
- Json.ObjectRoundTrip: the reader handles what the encoder writes; whitespace, surrogate escapes and nested values, which it never writes, are not modelled, and a state map with a value that is no scalar is taken to be refused.
- IdentityContext.PsutTextExact: texts are sequences of Unicode scalar values; strings that are not valid UTF-8 are not modelled.
- ModuleArchive.Disk.Extract: symlinks already at the destination, Windows path rules and file permissions beyond the executable bit are not modelled; places are lists of components, so `/a` and `a` are one place and a `..` in the destination is an ordinary directory.
- SourceDigest.SourceHash: walking the directory tree is a listing per input; a path that cannot be encoded is not modelled.
- TokenFlights.NoLostWakeUp: that an initiator's HTTP request returns is the transport's business; the model has it return at some step.
- ChallengeStore.Verifier.SendOTP: the method runs its regions with nothing in between; interleavings are the subject of `ChallengeRuns`.
- Authentication.Authenticate: requires a clock below 2^54 seconds; the verifier's and the token cache's outcomes are inputs here; their own runs are the subject of `ChallengeRuns` and `TokenFlights`.
- PaidRuns.AcquisitionsPaidFor: runs of sends and authentications; the accessToken calls of claim release, which need no code, are not among them.
- `Provider.SendOTP`, the adapter's `SendOTP` and `Authenticate`, consent configuration, `providerError`, the static verifier and the not-implemented adapter methods: single branches around the modelled ones.
- Artifact metadata, the Thunder and eSignet patches, the UI, build scripts and deployment files.
