# Arcature: models and proofs

Dafny models of the parts of the Arcature web framework that carry hard guarantees, with the
guarantees stated and proved. `dafny verify dfyconfig.toml` checks the whole project.

| file | models |
|---|---|
| `Assets.dfy` | the Vite manifest walk that collects an entry's stylesheets |
| `Base64Url.dfy` | the strict unpadded base64url codec (sections 3.5 and 5 of RFC 4648) |
| `Encrypter.dfy` | the versioned token frame around an abstract AEAD |
| `Text.dfy`, `AppKey.dfy` | trimming and lower case; hexadecimal, reading `APP_KEY`, framing the subkey messages |
| `Lifecycle.dfy` | the lifecycle byte under every interleaving, the health reports, the health prefix |
| `Auth.dfy` | login, request, rebind, logout on one session, and runs over many of them |
| `Flash.dfy`, `Csrf.dfy` | one-shot messages; double-submit CSRF between browser and server |
| `Pipeline.dfy`, `Builder.dfy` | routers as symbols, the stages of `apply`, the builder's slots and `build` |
| `RequestCache.dfy` | the memo key and the wrapper `#[request_cache]` generates |
| `Cache.dfy` | namespaces, single-key cache commands, `remember` with callers in flight |
| `TokenPrinter.dfy`, `CaseNames.dfy` | the token printer and the two name converters of the macros |

How the models are built:

- An object the source changes in place is a class (`Lifecycle.AtomicState`, `AuthSession.TowerSession`,
  `Flash.FlashEntry`, `Builder.ApplicationBuilder`, `RequestCache.Store`, `Remember.Cache`), and a loop is
  a method with a loop; each is proved equal to a function on values, and the theorems are about that function.
  `AtomicState` carries the configuration of the step machine along: its methods, with other threads
  interfering between their atomic steps, are proved to be runs of that machine.
- Concurrency is a schedule: a sequence of atomic steps of any threads, so a statement about every
  schedule is one about every interleaving. One atomic byte is sequentially consistent.
- Clocks, random bytes, the user loader, the cookie library, the JSON codec, the AEAD, the digest and the
  Unicode tables are parameters. What is asked of them is spelled out: `Encrypter.Correct`,
  `AuthSession.Injective`, `Remember.RoundTrips`, `Csrf.Parses`, `CaseNames.Sensible`, `TokenPrinter.WordTest`.
- A router is a symbol: a map from routes, each a method on a path, to a layer list and a handler, and a
  fallback. Merging two routers panics exactly if they share a route or both have a fallback of their own;
  patterns such as `/{id}` are compared as texts, and every path is taken to be one that axum accepts (it
  panics by itself over a prefix such as `/:up`).
- A failing session or cache operation is an explicit fault. A session operation that fails leaves the
  record as it was; a cache write that fails may or may not have taken effect.
- `RequestCache` uses a step budget only to make its interpreter total: the theorems hold for every budget,
  and say that memoized and plain calls finish together with the same outcome.

Where the code and its documentation differ, the model follows the code:

- `src/cache/namespace.rs` says the prefix prevents key collisions, and gives `a` with `bc` against `ab` with
  `c`, which indeed never meet. `a` with `b:c` and `a:b` with `c` do; `Namespace.NamespacesMeet` says exactly
  which prefixes can.
- `src/application/health.rs` says a trailing slash is trimmed from the prefix. A prefix of slashes only
  becomes `/`; `HealthPrefix.NormalisedShape` gives the exact condition.
- `src/auth/extract.rs` says a login stores the user on success. A login that returns an error after the
  user entry is written has bound the user all the same, and the next request may be authenticated;
  `AuthRuns.FailedLoginBoundary` says exactly when, for any session. A leftover stamp of another user refuses
  it, for instance, while an error before that entry leaves a session of another user as it was. The source
  also says `saturating_sub` clamps a negative age to zero; it does not, and `AuthSession.ClampedAge` shows
  that the outcome is the same.
- `src/auth/csrf.rs` says the CSRF cookie is read from the header if present. A cookie that does not parse in
  front of it, or a byte outside visible ASCII in any cookie, hides it: posts are then refused and a safe visit
  replaces the token (`Csrf.HiddenToken`). Its builder takes any text for the header and the cookie name; under
  a header name that is no HTTP field name, or an empty cookie name, every post without a bearer token is refused
  (`Csrf.UnusableNames`). `Csrf.VisitExactly` and `Csrf.TokenLasts` give the exact condition for all of these.
- `src/assets.rs` calls the stylesheet order "dependency order". It is preorder, last import first, with
  the entry's own stylesheets always leading (`Assets.EntryCssLeads`). Importers come before what they import
  exactly when the walk never meets a chunk after something it imports (`Assets.ImportersFirstExactly`);
  `Assets.ImportBeforeImporter` is an instance of the other case.
- `macros/src/field_shape.rs` promises a space between adjacent identifiers. Around a group without
  brackets two words can still meet; `TokenPrinter.PrintedTextRelexes` gives the exact condition and
  `TokenPrinter.InvisibleGroupGlues` an instance.
- `macros/src/request_cache.rs` says a body runs once per key and request. A call that ends in an error runs each
  time it is made (`RequestCache.ErringRunsEachTime`), and a body that makes a call under its own key lets that
  one run too (`RequestCache.OwnKeyRunsTwice`). After a success was kept under a key no body runs under it again,
  exactly when no two calls that finish share a key at different types, one of them with a success
  (`RequestCache.RunsOnceExactly`).
- `src/crypt/encrypter.rs` says any changed byte gives `Authentication`. A changed version tag or a
  broken spelling gives the other two errors; `Encrypter.DecryptErrors` is the exact partition.

## Model

| member | source | states |
|---|---|---|
| `Assets.CollectCss` | src/assets.rs:350-371 | the explicit-stack loop ends on every manifest (cyclic, dangling, repeating) and returns the stylesheets along the recursive preorder walk |
| `Assets.AppendCss` | src/assets.rs:362-367 | the inner loop keeps first occurrences only, in order |
| `Assets.DfsAllConcat` | src/assets.rs:368-368 | pushing imports on the stack is the same as visiting them, last first, before the rest |
| `Assets.PopTop` | src/assets.rs:355-368 | what one turn of the loop leaves to visit, in each of its three cases |
| `Assets.PreorderIsReachability` | src/assets.rs:345-371 | the walk visits exactly the chunks reachable from the entry through present keys, each once |
| `Assets.CssIsReachableCss` | src/assets.rs:345-376 | the list repeats nothing and names exactly the stylesheet URLs of reachable chunks, each the prefix, one slash and the file without slashes in front |
| `Assets.UrlExactly` | src/assets.rs:373-376 | one slash between prefix and file, however many the file starts with |
| `Assets.EntryCssLeads` | src/assets.rs:345-371 | the entry's own stylesheets come first |
| `Assets.ImportersFirstExactly` | src/assets.rs:345-371 | importers precede what they import exactly when the walk never meets a chunk after something it imports |
| `Assets.ImportBeforeImporter` | src/assets.rs:345-371 | a diamond in which an import precedes its importer |
| `Assets.Resolve` | src/assets.rs:327-343 | `None` exactly for a key missing from a manifest; otherwise the URL of its file and its stylesheets; development resolves everything, without stylesheets |
| `Base64Url.AlphabetTable` | src/crypt/base64url.rs:19-19 | the symbol of an index stands in the literal table at that index |
| `Base64Url.EncodeText` | src/crypt/base64url.rs:22-40 | the encoding loop computes `Encode` |
| `Base64Url.EncodeChunk` | src/crypt/base64url.rs:24-38 | one chunk: the or-ed word and the pushed symbols |
| `Base64Url.PackGroup` | src/crypt/base64url.rs:56-59 | the inner loop ors the symbol values into the word, and stops at a foreign byte |
| `Base64Url.DecodeGroup` | src/crypt/base64url.rs:55-71 | one group: refuse set bits below the whole bytes, then push those bytes |
| `Base64Url.DecodeText` | src/crypt/base64url.rs:48-74 | the decoding loop computes `Decode` |
| `Base64Url.DecodeEncode` | src/crypt/base64url.rs:22-74 | every byte string decodes back from its encoding |
| `Base64Url.EncodeDecode` | src/crypt/base64url.rs:42-74 | a text that decodes is the encoding of what it decodes to, so every byte string has one spelling |
| `Base64Url.AcceptedTexts` | src/crypt/base64url.rs:45-47 | accepted exactly: length not 1 modulo 4, alphabet only, zero trailing bits |
| `Base64Url.EncodeSpellsBits` | src/crypt/base64url.rs:22-40 | the encoding is the bit string of the bytes cut by sixes, padded with fewer than six zeros |
| `Base64Url.EncodeLength` | src/crypt/base64url.rs:22-40 | the exact length of an encoding, never 1 modulo 4 |
| `Encrypter.Encrypt` | src/crypt/encrypter.rs:136-155 | the two errors exactly, else the token of the nonce and the sealed message |
| `Encrypter.DecryptEncrypt` | src/crypt/encrypter.rs:136-237 | decryption undoes encryption for every plaintext and nonce, given a correct AEAD |
| `Encrypter.DecryptedTokens` | src/crypt/encrypter.rs:217-237 | a token decrypts to a plaintext exactly when it spells a pair the AEAD opens to it |
| `Encrypter.OneSpelling` | src/crypt/encrypter.rs:151-154 | tokens are equal exactly when nonce and sealed part are |
| `Encrypter.TokenStarts` | src/crypt/encrypter.rs:151-154 | a token is the text `v1.` and the base64url of nonce and sealed part |
| `Encrypter.DecryptErrors` | src/crypt/encrypter.rs:187-237 | the three errors partition refused tokens by prefix, by shape or length, by AEAD refusal |
| `Hex.EncodeLoop` | src/auth/csrf.rs:285-293 | the loop over the digit table computes lowercase hexadecimal |
| `Hex.EncodeAt` | src/auth/csrf.rs:285-293 | where each byte is spelled, high nibble first |
| `Hex.DecodeLoop` | src/crypt/key.rs:142-151 | the pair loop computes the decoded bytes, or stops at a foreign byte |
| `Hex.DecodeEncode` | src/crypt/key.rs:142-151 | decoding inverts encoding on every byte string |
| `Hex.EncodeDecode` | src/crypt/key.rs:142-151 | encoding what was decoded gives the text in lower case |
| `Text.TrimExactly` | src/crypt/key.rs:134-134 | trimming removes exactly the whitespace at both ends |
| `AppKey.FromHex` | src/crypt/key.rs:133-156 | the method computes the classified result |
| `AppKey.Utf8Hex` | src/crypt/key.rs:225-237 | no byte of a multi-byte character is a digit, so bytes and characters agree |
| `AppKey.AcceptedKeys` | src/crypt/key.rs:100-156 | accepted exactly when the text trims to 128 digits; the exact cause of each error |
| `AppKey.KeyFromItsHex` | src/crypt/key.rs:100-156 | a key's hexadecimal reads back as the key, whatever outer whitespace or capitals |
| `AppKey.SameKey` | src/crypt/key.rs:100-156 | two accepted texts are one key exactly when they agree up to case and outer whitespace |
| `AppKey.SubkeyPrefixFree` | src/crypt/key.rs:163-172 | no subkey message is a prefix of another one's |
| `AppKey.SubkeyMessageReadsBack` | src/crypt/key.rs:163-172 | a message is the domain text, eight bytes spelling the label's length most significant first, and the label |
| `Lifecycle.StepKeeps` | src/application/lifecycle.rs:81-137 | every atomic step of every thread keeps the invariant |
| `Lifecycle.StateMovesForward` | src/application/lifecycle.rs:81-137 | along every interleaving the byte never falls, Stopped stays, Ready is never re-entered |
| `Lifecycle.DrainReturns` | src/application/lifecycle.rs:111-131 | a `begin_drain` loses at most two exchanges and leaves the byte past Ready |
| `Lifecycle.TwoLostExchanges` | src/application/lifecycle.rs:111-131 | a schedule on which a drain does lose two |
| `Lifecycle.DrainIsWaitFree` | src/application/lifecycle.rs:111-131 | at most five steps of its own bring a drain to its return, however others are scheduled |
| `Lifecycle.NotReadyAfterDrain` | src/application/health.rs:180-247 | no readiness report begun after a drain returned answers OK |
| `Lifecycle.NotLiveAfterStop` | src/application/health.rs:163-172 | no liveness report begun after the stop returned answers OK |
| `Lifecycle.ReportExactly` | src/application/health.rs:163-247 | over every interleaving a readiness report is OK exactly when it saw the byte at Ready, between its call and its return, and every probe answered; a liveness report exactly when it saw anything but Stopped |
| `Lifecycle.ReadyAfterMarkReady` | src/application/health.rs:180-247 | while nobody drains or stops, a report begun after `mark_ready` returned is OK exactly when every probe answered |
| `Lifecycle.StaleReportWitness` | src/application/health.rs:180-247 | a report begun before the drain may still answer OK after it |
| `Lifecycle.AtomicState.BeginDrain` | src/application/lifecycle.rs:111-131 | the retry loop with interference between its steps is a run of the step machine that ends in its return: past Ready, at most two failures |
| `Lifecycle.AtomicState.MarkReady` | src/application/lifecycle.rs:100-107 | the machine's step: to Ready only from Starting |
| `Lifecycle.AtomicState.MarkStopped` | src/application/lifecycle.rs:134-137 | the machine's step: always to Stopped |
| `HealthPrefix.Normalise` | src/application/health.rs:80-87 | the popping loop computes the normalised prefix |
| `HealthPrefix.NormalisedIs` | src/application/health.rs:80-87 | the text up to its trailing slashes, behind one slash if there is none in front |
| `HealthPrefix.NormalisedShape` | src/application/health.rs:73-93 | leading slash, idempotent, same for added slashes; no trailing slash exactly when something else was given |
| `HealthPrefix.CoversExactly` | src/application/health.rs:102-114 | covers the prefix and what is below it, so every mounted endpoint, and nothing else |
| `AuthSession.StampsDistinct` | src/auth/extract.rs:56-67 | distinct credentials get distinct stamps, if their digests differ |
| `AuthSession.ClampedAge` | src/auth/extract.rs:489-494 | an age below zero counts as zero would |
| `AuthSession.TowerSession.Login` | src/auth/extract.rs:341-379 | rotation and inserts up to the failing one; the exact condition for `Ok` |
| `AuthSession.TowerSession.Load` | src/auth/extract.rs:440-594 | the record and the answer after every path through `load_user` |
| `AuthSession.LoadUserExactly` | src/auth/extract.rs:440-594 | the exact cause of each answer: an outage on the way is a failure and never a visitor |
| `AuthSession.TowerSession.Rebind` | src/auth/extract.rs:251-260 | the stamp is replaced unless there is no credential or the write fails |
| `AuthRuns.StepRecord` | src/auth/extract.rs:251-594 | what each event does to the session followed, and that events on other sessions do nothing to it |
| `AuthRuns.StepUsers` | src/auth/extract.rs:522-531 | only writing or deleting a row changes a user |
| `AuthRuns.GoneOrUnreachable` | src/auth/extract.rs:522-531 | a deleted user is a visitor, an unreachable database a failure; the session is kept |
| `AuthRuns.Provenance` | src/auth/extract.rs:341-593 | over any run, an entry of a session was there from the start or was written by an event of the run, and nothing touched it since, whatever ids the session went by |
| `AuthRuns.SignedInByLogin` | src/auth/extract.rs:341-379 | over any run, an authenticated request answers for the user of the last login that bound one to its session |
| `AuthRuns.LifetimeIsAbsolute` | src/auth/extract.rs:474-520 | over any run, a request is authenticated only within the maximum age of the time last stamped by a login or the first request of an untimed session; past it the session is emptied, database up or down, unless one of three session operations fails |
| `AuthRuns.AuthenticatedRequest` | src/auth/extract.rs:474-593 | every authenticated request leaves a time in bounds and the stamp of the current credential |
| `AuthRuns.StampMustBeCurrent` | src/auth/extract.rs:533-593 | over any run, a user with a credential is authenticated only if the last login, rebind or first tracked request to stamp the session bound the current one; the exact condition for another stamp to empty it |
| `AuthRuns.AuthenticatedIsAccountedFor` | src/auth/extract.rs:251-593 | from a world without sessions, every authenticated request has an event that bound its user, one that stamped its time and one that bound its credential, each the last to do so |
| `AuthRuns.RefusedStaysRefused` | src/auth/extract.rs:469-472 | an empty session answers for nobody until a login binds a user |
| `AuthRuns.RefusedForGood` | src/auth/extract.rs:488-570 | a session refused for age or stamp never revives, whatever the clock does |
| `AuthRuns.OldIdIsDead` | src/auth/extract.rs:280-351 | the id a login or a regeneration rotated away from answers for nobody |
| `AuthRuns.LoggedOutIsOut` | src/auth/extract.rs:262-290 | after a logout the session answers for nobody until a login |
| `AuthRuns.FailedLoginBoundary` | src/auth/extract.rs:341-379 | for any session and any failing step: the exact condition under which the next request is authenticated as the new user, and no effect at all before the user entry is written |
| `AuthRuns.BoundSessionSurvives` | src/auth/extract.rs:229-260 | a session bound to the current credential keeps authenticating within its lifetime |
| `AuthRuns.PasswordChangeSignsOthersOut` | src/auth/extract.rs:229-260 | after a password change one rebind keeps this session; another lives on exactly when it is in time and carries no stamp but the new one, so one stamped with the old credential ends |
| `Flash.FlashEntry.Extract` | src/auth/flash.rs:173-183 | read then clear, either failure swallowed; the extraction step of a run |
| `Flash.FlashEntry.Add` | src/auth/flash.rs:140-156 | read, push, write back; nothing on failure; the adding step of a run |
| `Flash.StepConserves` | src/auth/flash.rs:140-183 | one event keeps delivered plus pending equal to written exactly when it reads and clears both or neither, or nothing was pending |
| `Flash.DeliveredOnceInOrder` | src/auth/flash.rs:140-203 | over any run of such events every message is delivered once and in order |
| `Flash.BooksKeptExactly` | src/auth/flash.rs:140-203 | over any run, failures included, delivered plus pending always equals written exactly when every event is whole or finds nothing pending |
| `Csrf.ChainsKeepHostRule` | src/auth/csrf.rs:65-180 | no chain of builder calls reaches a `__Host-` name without Secure (section 4.1.3.2 of RFC 6265bis) |
| `Csrf.ChainExactly` | src/auth/csrf.rs:130-180 | a chain leaves the last of each setting and is refused exactly if it switches Secure off under a `__Host-` name |
| `Csrf.PresetsAreUsable` | src/auth/csrf.rs:65-128 | the presets' names are usable and their cookies secure enough for them |
| `Csrf.ExtractCookie` | src/auth/csrf.rs:426-439 | the loop over the pieces computes the cookie token |
| `Csrf.FindCookieExactly` | src/auth/csrf.rs:426-439 | readable exactly when every piece before the cookie is empty or parses to another name |
| `Csrf.Generated` | src/auth/csrf.rs:243-259 | a generated token parses |
| `Csrf.TokenExactly` | src/auth/csrf.rs:254-259 | a token is the hexadecimal of 32 bytes, in capitals or not |
| `Csrf.BearerExactly` | src/auth/csrf.rs:412-423 | a bearer request is one whose `Authorization` is `bearer` in any case, alone or before whitespace |
| `Csrf.DoubleSubmit` | src/auth/csrf.rs:363-482 | a request without a bearer token, of any method but GET, HEAD, OPTIONS and TRACE, passes exactly with two equal well-formed tokens; the exact cause of each refusal |
| `Csrf.ReadableTokenIsKept` | src/auth/csrf.rs:369-408 | those four methods and bearer requests pass; a cookie is injected exactly on one of those methods, without a bearer token or a readable token |
| `Csrf.CookieExactly` | src/auth/csrf.rs:426-439 | which token the server reads, whatever cookies surround the browser's own |
| `Csrf.VisitExactly` | src/auth/csrf.rs:363-468 | exactly which visits pass untouched, get a fresh cookie, or are refused for want of one, whatever else the browser sends and whatever names are configured |
| `Csrf.HiddenToken` | src/auth/csrf.rs:426-439 | a malformed cookie in front, or a byte outside visible ASCII anywhere, gets posts refused and the token replaced |
| `Csrf.UnusableNames` | src/auth/csrf.rs:138-153 | under a header name that is no field name, or an empty cookie name, every unsafe request without a bearer token is refused |
| `Csrf.UnusableNamesAreAccepted` | src/auth/csrf.rs:138-153 | the builder accepts such names |
| `Csrf.TokenLasts` | src/auth/csrf.rs:363-468 | over any run a browser passes every visit and keeps its token exactly when no visit is disturbed |
| `Csrf.EchoIsAccepted` | src/auth/csrf.rs:65-468 | under any builder chain, the exact condition for a post after one safe visit; with a usable header name, well-formed visible cookies meet it |
| `Routing.MergeExactly` | src/application/pipeline.rs:328-354 | merging keeps the routes of both sides and the fallback that was set, or is refused |
| `Pipeline.ChainIsSlots` | src/application/pipeline.rs:190-326 | the chain of stages is the documented list of slots |
| `Pipeline.WrapUserIsWrapAll` | src/application/pipeline.rs:181-188 | the reversed fold leaves user layers in call order |
| `Pipeline.OrderIsUnique` | src/application/pipeline.rs:10-37 | the documented order leaves no freedom |
| `Pipeline.ApplyIsNormalForm` | src/application/pipeline.rs:172-354 | panics exactly on overlapping routes; otherwise every route and the fallback carry the whole stack in documented order, exempt routes carry none |
| `Builder.ApplicationBuilder.Invoke` | src/application/builder.rs:557-984 | one call writes its slots and no other |
| `Builder.ApplicationBuilder.InvokeAll` | src/application/builder.rs:557-984 | a chain of calls on a fresh builder |
| `Builder.ChainHoldsLastWrites` | src/application/builder.rs:557-984 | every slot holds its last write, user layers are in call order |
| `Builder.ChainsAgree` | src/application/builder.rs:557-984 | two chains give equal builders exactly when last writes and user layers agree |
| `Builder.CallsCommute` | src/application/builder.rs:557-984 | two calls commute in every state exactly when they never write different values to one slot |
| `Builder.HealthAndPrefixShareASlot` | src/application/builder.rs:846-860 | `.health(..)` and `.health_prefix(..)` commute exactly when health is switched on |
| `Builder.BuildIsNormalForm` | src/application/builder.rs:990-1047 | in terms of the last calls alone: the layers of every route in documented order, the health routes and their exemption, the graph endpoint in debug builds only; or a panic over an overlapping route |
| `Builder.DefaultBuild` | src/application/builder.rs:180-187 | without any call: health under `/up`, the redirect mapper, nothing else |
| `Builder.BuildIgnoresCallOrder` | src/application/builder.rs:990-1047 | chains of the same effect build the same router |
| `RequestCacheKey.RenderInjective` | src/dx/request_cache_store.rs:70-79 | rendered keys are equal exactly for equal field lists: no value forges a boundary |
| `RequestCacheKey.BoundaryIsNotForged` | src/dx/request_cache_store.rs:46-51 | the documented pair of field lists and their spellings |
| `RequestCacheKey.DecimalSpells` | src/dx/request_cache_store.rs:70-79 | a length is spelled in decimal |
| `RequestCache.KeyIsItsFields` | macros/src/request_cache.rs:182-183 | two calls share a key exactly when they agree on the resolver's name and on the key fields and their values |
| `RequestCache.KeptForItsKey` | macros/src/request_cache.rs:185-201 | what is kept for a call is found by the calls of its key and type, and by no others |
| `RequestCache.Store.CallWrapped` | macros/src/request_cache.rs:177-205 | the generated wrapper: look, else run the body and keep a success |
| `RequestCache.Store.CallBody` | macros/src/request_cache.rs:145-191 | the uncached body, whose nested calls share the store |
| `RequestCache.WrappedIsPlain` | macros/src/request_cache.rs:177-205 | a memoized answer is the plain answer, nested calls included, and the store stays sound |
| `RequestCache.PlainIsWrapped` | macros/src/request_cache.rs:177-205 | memoizing never costs an answer the plain program gives |
| `RequestCache.RequestPreservesMeaning` | macros/src/request_cache.rs:137-206 | over any sequence of calls of a request the results agree |
| `RequestCache.RewritePreservesMeaning` | macros/src/request_cache.rs:137-206 | the same for a whole request on its fresh store, if outcomes depend on name, key fields and type alone |
| `RequestCache.RunsOnceExactly` | macros/src/request_cache.rs:185-201 | no request runs a body under a key after keeping a success there, exactly when no two calls clash |
| `RequestCache.RequestRunsOnce` | macros/src/request_cache.rs:185-201 | one type per key rules reruns and clashes out |
| `RequestCache.ErringRunsEachTime` | macros/src/request_cache.rs:193-201 | a call that ends in an error is run again by the next such call |
| `RequestCache.OwnKeyRunsTwice` | macros/src/request_cache.rs:185-201 | a body whose first nested call has its own key lets it run as well |
| `RequestCache.ClashRunsAgain` | src/dx/request_cache_store.rs:28-32 | two clashing calls in a row run under a kept key, and the second evicts the first if it succeeds |
| `Namespace.New` | src/cache/namespace.rs:42-53 | accepted exactly: not empty, no trailing separator, no control character; the cause of each refusal |
| `Namespace.NamespacesMeet` | src/cache/namespace.rs:55-66 | distinct namespaces share a backend key exactly when one extends the other by a separator |
| `Namespace.ResolveInjective` | src/cache/namespace.rs:55-66 | within a namespace distinct keys stay distinct |
| `CacheStore.NoInterference` | src/cache/store.rs:147-495 | a namespace gets the same replies with or without the operations of unrelated namespaces |
| `CacheStore.CountersAdd` | src/cache/store.rs:369-394 | two changes of a counter are one by the sum, so a decrement takes an increment back |
| `CacheStore.CounterExactly` | src/cache/store.rs:369-394 | when a counter moves, what it reads as and for how long |
| `CacheStore.DecrementExactly` | src/cache/store.rs:382-394 | a decrement is the opposite increment |
| `CacheStore.OneKeyOnly` | src/cache/store.rs:147-495 | an operation never shows in another key, nor at all if refused |
| `CacheStore.RefusedExactly` | src/cache/store.rs:147-495 | zero time to live and oversized values are refused before the backend |
| `CacheStore.GetExactly` | src/cache/store.rs:158-166 | a read gives what is found, unless over the limit |
| `CacheStore.SetExactly` | src/cache/store.rs:204-280 | after a write every read finds the value, none from the deadline on |
| `CacheStore.LeaseExactly` | src/cache/store.rs:448-495 | a lease is taken exactly where nothing is found; a held one is left alone |
| `CacheStore.ForgetExactly` | src/cache/store.rs:347-353 | a forgotten key is found by no one; the count says whether it was there |
| `CacheStore.ExistsExactly` | src/cache/store.rs:360-368 | exists exactly if a read finds it |
| `CacheStore.ExpireExactly` | src/cache/store.rs:403-415 | what is there stays until the new deadline |
| `CacheStore.TtlExactly` | src/cache/store.rs:425-439 | the whole seconds a key is still there, `None` for ever |
| `CacheStore.ReadYourWrites` | src/cache/store.rs:147-495 | over any run on other keys a read finds the written bytes before the deadline and nothing after |
| `Remember.PutExactly` | src/cache/store.rs:235-252 | which values are stored, until when, and the cause of each error |
| `Remember.GetTypedExactly` | src/cache/store.rs:179-195 | absent, decoded, or one of the errors |
| `Remember.RememberedUntilDeadline` | src/cache/store.rs:319-339 | over every run, once stored and until written, forgotten or dropped, a value is served without the loader before its deadline and loaded again after it |
| `Remember.ForgottenIsReloaded` | src/cache/store.rs:319-353 | over every run, once forgotten or dropped a key is loaded again |
| `Remember.Cache.Remember` | src/cache/store.rs:319-339 | the loader is asked exactly on a miss; every result and what is stored |
| `Remember.RememberIsTwoHalves` | src/cache/store.rs:319-339 | an uninterrupted call is its read half and its write half, so the theorems about runs cover it |
| `Remember.AnswersAreLoaded` | src/cache/store.rs:319-339 | over every interleaving every answer is the loader's value, and the loader ran only where the key was absent |
| `Remember.AnswersFromEmpty` | src/cache/store.rs:319-339 | the same for every observation of a run from an empty backend |
| `Remember.OnlyLoadsAreStored` | src/cache/store.rs:331-337 | failing reads and loaders store nothing |
| `TokenPrinter.CleanTokenStream` | macros/src/field_shape.rs:115-157 | the recursive loop computes `Print` |
| `TokenPrinter.SpacesExactly` | macros/src/field_shape.rs:136-153 | where the spaces are: between two that start like words, and after a comma that no bracket closes |
| `TokenPrinter.GroupsExactly` | macros/src/field_shape.rs:122-131 | a group is printed between its own pair of brackets |
| `TokenPrinter.PrintedTextRelexes` | macros/src/field_shape.rs:110-157 | lexing the printed text gives the flattened tokens back exactly when no two words are glued |
| `TokenPrinter.BracketedIsSeparable` | macros/src/field_shape.rs:122-131 | with brackets on every group nothing is glued |
| `TokenPrinter.PrintingIsInjective` | macros/src/field_shape.rs:110-157 | on bracketed trees the text determines the tokens |
| `TokenPrinter.InvisibleGroupGlues` | macros/src/field_shape.rs:127-127 | an instance where an invisible group loses a boundary |
| `CaseNames.ToSnakeCase` | macros/src/util.rs:9-22 | the loop computes `Snake` |
| `CaseNames.ToPascalCase` | macros/src/util.rs:28-42 | the loop computes `Pascal` |
| `CaseNames.PascalOfSnake` | macros/src/util.rs:9-42 | to snake case and back is the identity exactly on names without underscore whose first character is its own upper case |
| `CaseNames.SnakeOfPascal` | macros/src/util.rs:9-42 | to Pascal case and back is the identity exactly on snake-case names |
| `CaseNames.JobKindsDistinct` | macros/src/job.rs:61-61 | distinct type names get distinct default job kinds |

## Left out

- Cryptography itself (XChaCha20-Poly1305, HMAC-SHA256, SHA-256, the operating system's randomness), timing, zeroization: parameters with stated assumptions, or not modelled.
- TokenPrinter.PrintedTextRelexes: string, character and float literals and raw identifiers are printed as they are but are not words of the lexer.
- Remember.AnswersAreLoaded: every writer of a key is a `remember` with that key's loader; other writers are outside the claim, as in the source.
- Csrf.TokenLasts: how the cookie library percent-encodes a name is a parameter; whether the transport lets a browser store a Secure cookie is not modelled.
- Builder: `routes` and `merge_routes`, which only choose the router given to `build`; the error `.session(..)` returns for an inconsistent configuration, after which there is no builder to go on with; and the fields `build` hands to the server or its background tasks (ports, database, jobs, cache, storage, mail, proxies), which no layer or route of the built router reads.
- `Lifecycle`: the order of draining and listener shutdown in `serve`, and teardown after a failed start.
- Flash data written by `redirect().with(..)`, application writes to the reserved session keys, and raw Redis connections.
- Attribute parsing and signature checks of `#[request_cache]`, error and problem mappings, `looks_hashed`, listeners, CLI and configuration parsing: finite tables, I/O or naming heuristics.
