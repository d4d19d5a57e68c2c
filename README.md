# access-kontrol, modelled in Dafny

access-kontrol is a small Kotlin library for authorization decisions. A
checker (a subclass of `AccessKontrol`) answers "may this subject do this to
that resource?" with an `AccessResponse`. The response is either a
`GrantedResponse`, whose message and code are optional, or a
`DeniedResponse`, whose message and code are mandatory. `canAll` fans one
check out over a list of items and classifies the result as
`GrantedResponses` or `DeniedResponses`. `assert` turns a denial into an
`AccessDeniedException`, and the exception's queries (`first`,
`hasErrorCode`, `getErrorCode`, `getMessages`, `getFirstMessage`) read the
denial details back.

The repository holds two versions of the library, and both are modelled as
written:

- `io.github.flecomte.AccessKontrol` (current), module `AccessKontrol`.
  - `canAll` fails with `NoDecision` on no items.
  - Otherwise it returns every response, wrapped in a set whose kind says
    whether one of them is denied.
  - Its exception queries read only the denied responses.
- `fr.dcproject.common.security.AccessControl` (earlier), module `AccessControl`.
  - `canAll` returns one response: the first denied one, or else a bare
    granted response. This includes the case of no items at all.
  - Its exception's `first`, `getMessages` and `getFirstMessage` read every
    wrapped response, granted ones included.

Both versions are pure: immutable values and list expressions. The model
uses datatypes and functions only. Every exception becomes a value:

- `Result.Failure` for a throwing function that returns a value.
- `Outcome.Fail` for a throwing `assert`.
- A `Valid()` predicate for exception or set objects whose Kotlin
  constructor would have thrown. Factory functions that return a `Result`
  model those constructors.

Files:

- `Wrappers.dfy`: `Option`, `Result`, `Outcome`.
- `Lists.dfy`: the Kotlin list operations the library uses (`filter`,
  `firstOrNull`, `mapNotNull`), with lemmas that they keep order.
- `AccessKontrol.dfy`: the current version.
- `AccessControl.dfy`: the earlier version.
- `Versions.dfy`: how the two versions relate. On non-empty input they
  agree on the decision: of `canAll`, of the list `assert`, and of
  `hasErrorCode`. They differ on empty input, on the issuer, message and
  code of a granted aggregate, on what the exception of the list `assert`
  wraps, and on what `first` and `getMessages` read.
- `Sample.dfy`: the `AccessControlSample` checker from the test suite, with
  its test scenarios as lemmas.

One discrepancy inside the earlier version is modelled as written. The doc
comment on the public `getOneResponse` says that an empty list gives
GRANTED (src/main/kotlin/AccessControl.kt:53). The code calls `first()` on
that list, which throws (line 55). `AccessControl.GetOneResponse` therefore
fails with `NoSuchElement` on the empty list. `AccessControl.AssertAll` is
built on it, so it fails in the same way. The private `getOneResponse`
inside the checker (line 33) does return GRANTED on an empty list.

## Model

| member | source | states |
|---|---|---|
| `AccessKontrol.AccessDecision.ToBoolean` | src/main/kotlin/io/github/flecomte/AccessKontrol.kt:11-14 | true exactly for GRANTED, false exactly for DENIED |
| `AccessKontrol.AccessResponse.Decision` | src/main/kotlin/io/github/flecomte/AccessKontrol.kt:147-157 | a granted response always has decision GRANTED, a denied one always DENIED |
| `AccessKontrol.AccessResponse.Message` | src/main/kotlin/io/github/flecomte/AccessKontrol.kt:153-157 | a response whose decision is DENIED always has a message |
| `AccessKontrol.AccessResponse.Code` | src/main/kotlin/io/github/flecomte/AccessKontrol.kt:153-157 | a response whose decision is DENIED always has a code |
| `AccessKontrol.AccessResponse.ToBoolean` | src/main/kotlin/io/github/flecomte/AccessKontrol.kt:135 | equals the decision's boolean; true exactly for granted responses |
| `AccessKontrol.AccessResponse.Assert` | src/main/kotlin/io/github/flecomte/AccessKontrol.kt:140-144 | throws exactly when the decision is DENIED; the exception wraps this response alone and is well formed |
| `AccessKontrol.GrantedBy` | src/main/kotlin/io/github/flecomte/AccessKontrol.kt:21 | a GRANTED response of the issuer, carrying the given optional message and code |
| `AccessKontrol.DeniedBy` | src/main/kotlin/io/github/flecomte/AccessKontrol.kt:26 | a DENIED response of the issuer, carrying the given message and code |
| `AccessKontrol.GrantedOf` | src/main/kotlin/io/github/flecomte/AccessKontrol.kt:72 | holds exactly the granted elements of the list |
| `AccessKontrol.DeniedOf` | src/main/kotlin/io/github/flecomte/AccessKontrol.kt:73 | holds exactly the denied elements of the list |
| `AccessKontrol.ResponsesToBoolean` | src/main/kotlin/io/github/flecomte/AccessKontrol.kt:78 | true iff every response of the list is true, i.e. no denied response remains after filtering |
| `AccessKontrol.AssertAll` | src/main/kotlin/io/github/flecomte/AccessKontrol.kt:67-71 | throws iff the list's boolean is false, iff some response is DENIED; the exception wraps the whole list and is well formed |
| `AccessKontrol.GetFirstDecisionResponse` | src/main/kotlin/io/github/flecomte/AccessKontrol.kt:59-62 | NoDecision iff the list is empty; otherwise an element of the list, DENIED iff one is, and then the first denied one, else the first element |
| `AccessKontrol.AccessResponses.AsResponse` | src/main/kotlin/io/github/flecomte/AccessKontrol.kt:159-175 | the response a set stands for is the first granted (resp. denied) element of its list, with that decision |
| `AccessKontrol.NewGrantedResponses` | src/main/kotlin/io/github/flecomte/AccessKontrol.kt:159-166 | succeeds iff some element is granted, leaving the list unchanged; otherwise fails as `first()` does |
| `AccessKontrol.NewDeniedResponses` | src/main/kotlin/io/github/flecomte/AccessKontrol.kt:168-175 | succeeds iff some element is denied, leaving the list unchanged and taking message and code from the first denied element; otherwise fails with the illegal-state error |
| `AccessKontrol.CanAll` | src/main/kotlin/io/github/flecomte/AccessKontrol.kt:33-42 | NoDecision iff there are no items; otherwise one response per item, in item order, in a well-formed set that is `DeniedResponses` iff some item's response is DENIED |
| `AccessKontrol.AccessDeniedException.First` | src/main/kotlin/io/github/flecomte/AccessKontrol.kt:86 | the first DENIED response of the wrapped list |
| `AccessKontrol.AccessDeniedException.HasErrorCode` | src/main/kotlin/io/github/flecomte/AccessKontrol.kt:94-96 | true iff some DENIED response of the list has the code |
| `AccessKontrol.AccessDeniedException.GetErrorCode` | src/main/kotlin/io/github/flecomte/AccessKontrol.kt:101-103 | present iff `HasErrorCode`; equals the first response of the whole list that is DENIED with that code |
| `AccessKontrol.AccessDeniedException.GetMessages` | src/main/kotlin/io/github/flecomte/AccessKontrol.kt:108-110 | one message per denied response, and exactly the messages of denied responses |
| `AccessKontrol.AccessDeniedException.GetFirstMessage` | src/main/kotlin/io/github/flecomte/AccessKontrol.kt:115-118 | the message of `First()`, which is also the head of `GetMessages()` |
| `AccessKontrol.NewAccessDeniedException` | src/main/kotlin/io/github/flecomte/AccessKontrol.kt:80-81 | constructing the exception succeeds iff some response is DENIED |
| `AccessKontrol.MessagesAppend` | src/main/kotlin/io/github/flecomte/AccessKontrol.kt:108-110 | the messages over `a + b` are those over `a` then those over `b`, so the order of the responses is kept |
| `AccessControl.AccessDecision.ToBoolean` | src/main/kotlin/AccessControl.kt:11-14 | true exactly for GRANTED, false exactly for DENIED |
| `AccessControl.AccessResponse.Decision` | src/main/kotlin/AccessControl.kt:123-133 | a granted response always has decision GRANTED, a denied one always DENIED |
| `AccessControl.AccessResponse.Message` | src/main/kotlin/AccessControl.kt:129-133 | a response whose decision is DENIED always has a message |
| `AccessControl.AccessResponse.Code` | src/main/kotlin/AccessControl.kt:129-133 | a response whose decision is DENIED always has a code |
| `AccessControl.AccessResponse.ToBoolean` | src/main/kotlin/AccessControl.kt:111 | equals the decision's boolean; true exactly for granted responses |
| `AccessControl.AccessResponse.Assert` | src/main/kotlin/AccessControl.kt:116-120 | throws exactly when the decision is DENIED; the exception wraps this response alone |
| `AccessControl.GrantedBy` | src/main/kotlin/AccessControl.kt:21 | a GRANTED response of the issuer, carrying the given optional message and code |
| `AccessControl.DeniedBy` | src/main/kotlin/AccessControl.kt:26 | a DENIED response of the issuer, carrying the given message and code |
| `AccessControl.OneResponseOf` | src/main/kotlin/AccessControl.kt:33 | DENIED iff some response is, and then the first denied one; otherwise a bare granted response of the checker itself, also for the empty list |
| `AccessControl.CanAll` | src/main/kotlin/AccessControl.kt:38-40 | DENIED iff some item's response is, and then the response of the first such item; otherwise a bare granted response of the checker, also for no items |
| `AccessControl.GetOneResponse` | src/main/kotlin/AccessControl.kt:55 | fails iff the list is empty; otherwise the first denied response, or a bare granted response of the first element's issuer |
| `AccessControl.AssertAll` | src/main/kotlin/AccessControl.kt:60 | passes iff the list is non-empty and all granted; fails on the empty list; otherwise the exception wraps the first denied response alone |
| `AccessControl.AccessDeniedException.First` | src/main/kotlin/AccessControl.kt:68 | the first response of the wrapped list, whatever its decision |
| `AccessControl.AccessDeniedException.HasErrorCode` | src/main/kotlin/AccessControl.kt:73-75 | true iff some DENIED response of the list has the code |
| `AccessControl.AccessDeniedException.GetErrorCode` | src/main/kotlin/AccessControl.kt:80-81 | present iff `HasErrorCode`; then the first response that is DENIED with that code |
| `AccessControl.AccessDeniedException.GetMessages` | src/main/kotlin/AccessControl.kt:86-87 | exactly the messages present on any response, granted ones included, at most one per response |
| `AccessControl.AccessDeniedException.GetFirstMessage` | src/main/kotlin/AccessControl.kt:92-94 | the possibly absent message of `First()`; when present it heads `GetMessages()` |
| `AccessControl.NewAccessDeniedException` | src/main/kotlin/AccessControl.kt:62-63 | constructing the exception succeeds iff the list is non-empty |
| `AccessControl.MessagesAppend` | src/main/kotlin/AccessControl.kt:86-87 | the messages over `a + b` are those over `a` then those over `b` |
| `Lists.Filter` | src/main/kotlin/io/github/flecomte/AccessKontrol.kt:72-73 | keeps exactly the elements satisfying the predicate, never more than the input |
| `Lists.FilterAppend` | src/main/kotlin/io/github/flecomte/AccessKontrol.kt:72-73 | filtering distributes over concatenation, so relative order is kept |
| `Lists.FilterHead` | src/main/kotlin/io/github/flecomte/AccessKontrol.kt:86 | the head of a filtered list is the first match in the unfiltered list |
| `Lists.FirstOrNull` | src/main/kotlin/io/github/flecomte/AccessKontrol.kt:61 | absent iff nothing matches; otherwise the element at the first matching position |
| `Lists.FirstOrNullOfFilter` | src/main/kotlin/io/github/flecomte/AccessKontrol.kt:101-103 | the first `q` among the `p` elements is the first element satisfying both |
| `Lists.MapNotNull` | src/main/kotlin/AccessControl.kt:86-87 | holds exactly the present results, at most one per element |
| `Lists.MapNotNullAppend` | src/main/kotlin/AccessControl.kt:86-87 | `mapNotNull` distributes over concatenation, so order is kept |
| `Versions.Upgrade` | src/main/kotlin/AccessControl.kt:123-133 | a response of the earlier package becomes the same response of the current one: same boolean, issuer, message and code |
| `Versions.CanAllOnNoItems` | src/main/kotlin/io/github/flecomte/AccessKontrol.kt:33-34 | on no items the current `canAll` fails with NoDecision while the earlier one grants |
| `Versions.FirstDeniedAgree` | src/main/kotlin/AccessControl.kt:33 | the first denied response of the upgraded list is the upgrade of the earlier version's first denied response |
| `Versions.CanAllAgree` | src/main/kotlin/io/github/flecomte/AccessKontrol.kt:33-42 | on some items the current `canAll` succeeds, is `DeniedResponses` iff the earlier one denies, and then stands for the very response the earlier one returns |
| `Versions.AssertAllAgree` | src/main/kotlin/AccessControl.kt:60 | both list assertions pass on the same non-empty lists; on the empty list the current one passes and the earlier one throws |
| `Versions.HasErrorCodeAgree` | src/main/kotlin/AccessControl.kt:73-75 | both exceptions answer `hasErrorCode` alike over the same responses |
| `Versions.ExceptionQueriesDiffer` | src/main/kotlin/AccessControl.kt:86-87 | over granted-then-denied, the earlier `first` is granted and its messages include the granted one, while the current version reads only the denial |
| `Versions.GrantedAggregateDiffers` | src/main/kotlin/AccessControl.kt:33 | on one granted item, the current set stands for that item's response (issuer 7, message "ok") while the earlier `canAll` returns a bare granted response of the checker |
| `Versions.AssertAllWrapsDiffer` | src/main/kotlin/AccessControl.kt:60 | on two denials, the current list assertion's exception wraps both responses, the earlier one only the first |
| `AccessKontrolSample.CanView` | src/test/kotlin/io/github/flecomte/AccessKontrolTest.kt:17-25 | granted iff the title is "granted" and a user is given; a denial carries code "ko2" for "wrong2", else "ko" |
| `AccessKontrolSample.CanViewAll` | src/test/kotlin/io/github/flecomte/AccessKontrolTest.kt:27-29 | fails iff there are no objects; a granted set iff a user is given and every title is "granted" |
| `AccessKontrolSample.NoObjectsNoDecision` | src/main/kotlin/io/github/flecomte/AccessKontrol.kt:34 | an empty list of objects gives NoDecision whoever looks |
| `AccessKontrolSample.CanAllGranted` | src/test/kotlin/io/github/flecomte/AccessKontrolTest.kt:48-60 | two granted objects give a granted set whose first element is true |
| `AccessKontrolSample.CanAllDenied` | src/test/kotlin/io/github/flecomte/AccessKontrolTest.kt:62-75 | a wrong object among granted ones gives a denied set whose list is false |
| `AccessKontrolSample.AssertSingle` | src/test/kotlin/io/github/flecomte/AccessKontrolTest.kt:77-87 | asserting a denied view throws and asserting a granted one passes |
| `AccessKontrolSample.MixedResponses` | src/test/kotlin/io/github/flecomte/AccessKontrolTest.kt:92 | wrong, granted, wrong2 give denied KO/ko, granted ok, denied KO2/ko2, in that order, as a denied set |
| `AccessKontrolSample.ExceptionQueries` | src/test/kotlin/io/github/flecomte/AccessKontrolTest.kt:89-102 | asserting that list throws; first code "ko", code "ko" present, "notExists" absent, messages KO then KO2, first message KO |
| `AccessKontrolSample.AssertListSuccess` | src/test/kotlin/io/github/flecomte/AccessKontrolTest.kt:104-109 | asserting the list of two granted views passes |
| `AccessKontrolSample.FirstDecision` | src/test/kotlin/io/github/flecomte/AccessKontrolTest.kt:111-129 | the first decision of two granted views is true, and of granted then denied is false |
| `AccessKontrolSample.DeniedResponsesOfGranted` | src/test/kotlin/io/github/flecomte/AccessKontrolTest.kt:136-143 | building `DeniedResponses` from one granted response fails |

## Left out

- Build, coverage and publishing configuration (build.gradle.kts) is not runtime logic.
- `Throwable` message plumbing is not modelled: the exception's message is the first denied (current) or first (earlier) message. Only its precondition is kept: the exception's `Valid()` and its factory function.
- The receiver-lambda form `checker.assert { ... }` (AccessKontrol.kt:48-50, AccessControl.kt:46-48) is not modelled separately. It is `action().assert()`, that is `AccessResponse.Assert` applied to the check's result.
- Kotlin class delegation is not modelled. `GrantedResponses` and `DeniedResponses` are both a list and a response, but here they are a wrapper over a sequence. Their response face is `AsResponse`. Member-versus-extension dispatch between the two faces is not modelled. Anything typed as a list of responses (the result of `canAll`) uses the list functions.
- The issuer back-reference (`accessControl`) is a natural number that is carried along and never compared. The checker object itself is not modelled.
- The exception's `deniedResponses` property (AccessKontrol.kt:88-89) is `DeniedOf` of the wrapped list. It has no member of its own.
- `protected` and `private` visibility is not modelled.
- Exceptions are values, not thrown, and stack unwinding is not modelled.
- `action` is a total function here. An `action` that throws, which in Kotlin aborts `canAll` at that item and reaches its caller, is not modelled.
- `AccessControl.AccessDeniedException.GetMessages`: its contract states membership and size only. The order of the messages is stated by `AccessControl.MessagesAppend`.
- `AccessKontrol.AccessDeniedException.GetMessages`: its contract states size and membership only. The order is stated by `AccessKontrol.MessagesAppend`.
