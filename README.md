# Request router of `sdk/HTTP_mux.go`, modelled in Dafny

This project models the HTTP request router of the `forest` SDK. It has five parts:

- **Path patterns** (`muxMatcherPattern`). `parsePattern` scans a pattern with user-chosen start and end delimiters (by default `:` and `/`). It builds a list of literal and placeholder tokens and a `%s` scaffold.
  - A compiled pattern is either exact or keyed.
  - An exact pattern matches by string equality.
  - A keyed pattern walks its tokens over the request path and captures named arguments.
- **Method matcher** (`muxMatcherMethods`). It accepts `*` or the nine standard verbs and computes a specificity priority.
- **Matcher algebra.** This covers the Mock, Or and And matchers and the de-duplication helpers `uniqueMuxMatcher` and `uniqueString`.
- **Registration and dispatch** (`Mux.With`, `Mux.Handle`, `Mux.ServeHTTP`).
  - Entries are de-duplicated by key.
  - Entries are kept sorted by non-increasing priority, with ties in registration order.
  - A request is served by the first entry that matches. Otherwise the not-found handler is served on a cancelled request.
- **Cancellable middleware** (`CancelRequest`, `Middleware`).

Module layout:

- `Text`: the string helpers `strings.ToLower` (ASCII), `strings.HasPrefix`, `strings.Index` and `lookahead`.
- `Requests`: the request record. It holds the method, the path, the named arguments attached through the context, and a cancellation flag.
- `Patterns`: `parsePattern`, modelled as a step function plus a scanning method, and the `parseURI` walk, modelled as a function plus a looping method.
- `Collections`: `uniqueString`, `sort.Strings`, and the "keep the last of each key" de-duplication.
- `Matchers`: the matcher datatype with `Test`, `Match`, `Priority` and the de-duplication key.
- `MatcherLaws`: what `Test` and `Match` promise.
- `Constructors`: `MuxMatcherOr`, `MuxMatcherAnd`, `MuxMatcherMethods`, `MuxMatcherPattern` and `uniqueMuxMatcher`.
- `Router`: handlers, the middleware chain, and the `Mux` class.
- `Scenarios`: worked examples from `sdk/HTTP_mux_test.go`.

How the model represents the Go code:

- **Matchers are values.** A Go `Test()` mutates its receiver, changing its priority, its pattern, its delimiters and its memo. In the model, `Test(m)` returns the verdict together with the updated matcher. A Go `Match(r)` rewrites `*r` through `set`. In the model, `Match(m, r)` returns the verdict together with the request.
- **The `Mux` is a class.** Its fields `entries`, `notFoundHandler` and `middleware` are updated by `With`, `Handle` and `ServeHTTP`.
- **Response writers** are numbered. Their contents are a map from writer number to response that handlers thread through.

Where the code and its tests or comments disagree, the model follows the code:

- A placeholder followed by a literal is skipped but not recorded (sdk/HTTP_mux.go:487-490). So `/:args1/:args2/:args3` on `/x/yyy/z` captures only `args3`. The test at sdk/HTTP_mux_test.go:145-146 expects `x` and `yyy` too. See `Scenarios.ThreeArgsCaptureLast`.
- Captured values are stored with `Set`, which overwrites. The comment at sdk/HTTP_mux.go:566-569 speaks of adding values.
- Literal text after the last placeholder is never flushed into the token list (sdk/HTTP_mux.go:436), so it is never checked.
- The `l` that `parsePattern` returns counts all tokens, not only placeholders.
- An And with a nil first child never passes.
- The default not-found handler is a closure created on the first unmatched request (sdk/HTTP_mux.go:66-70). It writes to that request's `ResponseWriter` and ignores the writer it is served with. The model keeps this behaviour: `NotFound(w)` remembers writer `w`, and `Scenarios.NotFoundKeepsFirstWriter` shows a second unmatched request writing its 404 to the first writer.

## Model

| member | source | states |
|---|---|---|
| Text.Lower | sdk/HTTP_mux.go:380-384 | lower-casing keeps the length and maps each ASCII capital to its small letter, leaving every other character alone; no capital remains |
| Text.LowerIdempotent | sdk/HTTP_mux.go:380-384 | lower-casing an already lower-cased string changes nothing, so a case-insensitive pattern compiles the same when re-tested |
| Text.IndexOf | sdk/HTTP_mux.go:489-492 | `strings.Index` is -1 exactly when the substring does not occur, and otherwise the first position where it occurs |
| Requests.WithArgs | sdk/HTTP_mux.go:609-611 | `set` attaches the named arguments and leaves the method, path and cancellation unchanged |
| Requests.NamedArgs | sdk/HTTP_mux.go:570-574 | a request with nothing attached yields empty arguments, otherwise exactly the attached ones |
| Requests.CancelRequest | sdk/HTTP_mux.go:583-591 | the request becomes cancelled and nothing else about it changes |
| Patterns.ParsePattern | sdk/HTTP_mux.go:373-437 | the scanning loop returns the scaffold and tokens of the step-by-step scan `Parse`, and `l` is the number of all tokens |
| Patterns.KeysIffStartOccurs | sdk/HTTP_mux.go:386-398 | the scan yields at least one token exactly when the start delimiter occurs in the pattern |
| Patterns.FirstTokenLiteral | sdk/HTTP_mux.go:393-394 | the first token of a scan is always the literal before the first start delimiter |
| Patterns.ParseURI | sdk/HTTP_mux.go:471-508 | the walking loop returns the captures and verdict of the token walk `Extract` |
| Patterns.ExtractSound | sdk/HTTP_mux.go:471-508 | on success at least one value is captured, each literal consumed exactly its text, each placeholder stopped at the first occurrence of the next delimiter, the consumed slices are a prefix of the path (all of it when the last token is a placeholder), and each captured value is the slice consumed by a placeholder of that name that is the last token or is followed by another placeholder |
| Patterns.ExtractComplete | sdk/HTTP_mux.go:471-508 | the converse of `ExtractSound` for tokens that end in a placeholder and have no two placeholders adjacent: any split of the path into slices that agree with the tokens (literals verbatim, each placeholder stopping at the first occurrence of the literal after it) is the one the walk finds, and the last placeholder captures the last slice |
| Patterns.ParseNames | sdk/HTTP_mux.go:386-433 | given a non-empty start delimiter, the name of every placeholder `parsePattern` emits is the text of the pattern that directly follows an occurrence of the start delimiter and runs up to the next end delimiter (or to the end of the pattern), with no end delimiter inside it |
| Patterns.StepOpen | sdk/HTTP_mux.go:386-433 | one pass of the scanning loop keeps every emitted name delimited, and tracks where the open placeholder's name begins: right after the start delimiter, with `skipFound` counting its characters |
| Patterns.ParseNoAdjacent | sdk/HTTP_mux.go:386-436 | `parsePattern` never emits two placeholders in a row: a literal token is emitted only when a start delimiter opens a placeholder, and a placeholder only when one closes |
| Patterns.StepAlternates | sdk/HTTP_mux.go:386-436 | one pass of the scanning loop keeps placeholders apart, and keeps a literal as the last token while a placeholder is open |
| Patterns.ParsedCapturesLast | sdk/HTTP_mux.go:471-508 | a walk over the tokens of any compiled pattern succeeds only when the last token is a placeholder, and then captures that placeholder alone, as the rest of the path |
| Patterns.OnlyLastCaptured | sdk/HTTP_mux.go:484-507 | when no two placeholders are adjacent and the last token is a placeholder, a successful walk captures only that last placeholder, as everything left of the path |
| Patterns.ParseStep | sdk/HTTP_mux.go:477-503 | one pass of the loop: when it reports no match the walk fails at this token; otherwise it consumes one slice, and the walk from the next token over the rest gives the same result |
| Patterns.WalkCaptures | sdk/HTTP_mux.go:507 | a walk succeeds only with at least one captured value |
| Patterns.LiteralsNeverMatch | sdk/HTTP_mux.go:476-483 | a token list of literals only never matches, since nothing is captured |
| Collections.EqualFollows | sdk/HTTP_mux.go:554-556 | the inner scan ends with `skip` true exactly when an equal string occurs later in the slice |
| Collections.UniqueStrings | sdk/HTTP_mux.go:551-564 | the double loop returns the strings that do not occur again later, in input order |
| Collections.KeepLastFromInput | sdk/HTTP_mux.go:531-564 | every kept element comes from the input |
| Collections.KeepLastDistinct | sdk/HTTP_mux.go:531-564 | no two kept elements share a key |
| Collections.KeepLastKeepsLast | sdk/HTTP_mux.go:531-564 | an element whose key does not occur again later is kept |
| Collections.KeepLastCovers | sdk/HTTP_mux.go:531-564 | every key of the input is the key of some kept element |
| Collections.KeepLastSameElements | sdk/HTTP_mux.go:551-564 | de-duplicating strings keeps exactly the strings of the input |
| Collections.SortStrings | sdk/HTTP_mux.go:269 | `sort.Strings` returns a sorted permutation of its input |
| Collections.LexLeTransitive | sdk/HTTP_mux.go:269 | the byte-wise string order is transitive |
| Collections.LexLeTotal | sdk/HTTP_mux.go:269 | any two strings are ordered one way or the other |
| Collections.LexLeAntisymmetric | sdk/HTTP_mux.go:269 | strings ordered both ways are equal |
| Collections.KeepLastOfSorted | sdk/HTTP_mux.go:269-271 | de-duplicating a sorted list gives a strictly increasing list |
| Matchers.MethodsMatch | sdk/HTTP_mux.go:307-318 | a method list matches exactly when it holds `*` or the request's method, compared case-sensitively |
| MatcherLaws.MethodsTestSpec | sdk/HTTP_mux.go:274-305 | `Test` passes exactly when the list is non-empty and every entry up to the first `*` is one of the nine verbs; a passing list with `*` gets priority 0, any other passing list `10 - n` for n < 10 methods and 1 otherwise |
| MatcherLaws.MethodsScanSpec | sdk/HTTP_mux.go:279-304 | the same, for the loop from any position, given that earlier entries are verbs and not `*` |
| MatcherLaws.OrTestSpec | sdk/HTTP_mux.go:173-185 | an Or passes exactly when some child passes; its children keep their number, and a zero priority becomes the mean of the children's priorities |
| MatcherLaws.AndTestSpec | sdk/HTTP_mux.go:216-235 | an And passes exactly when it has children, child 0 is non-nil, and every non-nil child passes |
| MatcherLaws.AndTestPriority | sdk/HTTP_mux.go:226-232 | a zero And priority becomes the sum of its children's priorities, a non-zero one is kept |
| MatcherLaws.OrMatchSpec | sdk/HTTP_mux.go:187-197 | an Or matches exactly when some non-nil child matches the request |
| MatcherLaws.AndMatchSpec | sdk/HTTP_mux.go:237-251 | an And matches exactly when it has children, child 0 is non-nil, and every non-nil child matches |
| MatcherLaws.MatchAttaches | sdk/HTTP_mux.go:187-251 | the request `Match` hands back is the input with the arguments named by `Attach` set, or the input itself when none are named: a keyed pattern names its captures when its walk succeeds, an Or names those of its last non-nil child that names some, and an And does the same among the children it asks |
| MatcherLaws.OrMatchArgs | sdk/HTTP_mux.go:187-197 | an Or asks every non-nil child: when none attaches arguments the request comes back untouched, otherwise it carries the arguments of the last child that attaches some |
| MatcherLaws.AndMatchArgs | sdk/HTTP_mux.go:237-251 | an And asks its children up to and including its first failing non-nil child, and every non-nil child before that one matches; with no children or a nil child 0, or when no asked child attaches arguments, the request comes back untouched, otherwise it carries the arguments of the last asked child that attaches some |
| MatcherLaws.FailFromSpec | sdk/HTTP_mux.go:240-247 | the position where an And stops asking is its first failing non-nil child: every non-nil child before it matches |
| MatcherLaws.LastAttachNone | sdk/HTTP_mux.go:190-194 | when no child attaches arguments, none are attached |
| MatcherLaws.LastAttachOf | sdk/HTTP_mux.go:190-194 | a later `set` shadows an earlier one: the arguments attached are those of the last child that attaches some |
| MatcherLaws.MethodsThenMatch | sdk/HTTP_mux.go:237-251 | an And of a methods list and one more child hands back the request with that child's arguments attached when the method matches, and untouched otherwise |
| MatcherLaws.PatternAttach | sdk/HTTP_mux.go:515-527 | a pattern attaches the walk's captures exactly when it is keyed and its walk over the path succeeds |
| MatcherLaws.OrTestKeeps | sdk/HTTP_mux.go:173-185 | testing an Or of settled children keeps its children, and a zero priority becomes the mean of theirs |
| MatcherLaws.AndTestKeeps | sdk/HTTP_mux.go:216-235 | testing an And of settled children keeps its children, and a zero priority becomes the sum of theirs |
| MatcherLaws.MatchRoute | sdk/HTTP_mux.go:187-251 | matching never changes the request's method, path or cancellation, and its verdict does not depend on arguments attached earlier |
| MatcherLaws.TestFixed | sdk/HTTP_mux.go:439-442 | testing a settled matcher (a tested pattern, a methods list at its priority, settled groups) returns it unchanged |
| MatcherLaws.TestSettles | sdk/HTTP_mux.go:531-541 | testing a matcher built by the constructors yields a settled matcher, and testing again returns the same verdict and matcher, so the repeated `Test` calls of `uniqueMuxMatcher` and `With` are harmless |
| MatcherLaws.PatternTestSpec | sdk/HTTP_mux.go:439-469 | a fresh pattern passes exactly when non-empty and is memoised either way; without its start delimiter it becomes exact with priority ten per character and cleared delimiters; otherwise it becomes keyed, its first token a literal, its delimiters the (lower-cased unless case-sensitive) given ones, and a zero priority becomes ten per scaffold character plus two per token |
| MatcherLaws.ExactPatternMatch | sdk/HTTP_mux.go:515-527 | an exact pattern matches exactly when the (lower-cased unless case-sensitive) path equals it, and attaches nothing |
| MatcherLaws.KeyedPatternMatch | sdk/HTTP_mux.go:515-527 | a keyed pattern matches exactly when the token walk succeeds, and then attaches the captured values; on failure the request is untouched |
| MatcherLaws.UnparsedNeverMatches | sdk/HTTP_mux.go:515-527 | a pattern that was never compiled matches nothing |
| Constructors.ScanLater | sdk/HTTP_mux.go:537-541 | the inner loop tests every matcher and reports whether a later matcher has the same key |
| Constructors.UniqueMatchers | sdk/HTTP_mux.go:531-549 | `uniqueMuxMatcher` returns the tested matchers whose key does not occur again later, in order |
| Constructors.UniqueSettled | sdk/HTTP_mux.go:531-549 | its result is settled, and non-empty when its input is |
| Constructors.MakeOr | sdk/HTTP_mux.go:167-171 | `MuxMatcherOr` keeps the given priority and the de-duplicated tested children |
| Constructors.MakeAnd | sdk/HTTP_mux.go:210-214 | `MuxMatcherAnd` keeps the given priority and the de-duplicated tested children |
| Constructors.MakeMethods | sdk/HTTP_mux.go:266-272 | `MuxMatcherMethods` keeps the priority and stores the same methods, strictly sorted and so duplicate-free |
| Constructors.MakePattern | sdk/HTTP_mux.go:354-366 | `MuxMatcherPattern` defaults an empty start to `:` and an empty end to `/`, keeps the rest, and is untested |
| Router.HttpError | sdk/HTTP_mux.go:67-69 | `http.Error` appends the text and a newline, and sets the status unless one was written |
| Router.ServeMiddleware | sdk/HTTP_mux.go:598-607 | the middleware loop gives the request and responses of the chain `Serve(Chain(hs))` |
| Router.CancelledSkipsRest | sdk/HTTP_mux.go:598-607 | once the request is cancelled no later handler runs |
| Router.ChainComposes | sdk/HTTP_mux.go:593-607 | `Middleware(a..., b...)` runs `a` and then `b` on what `a` left, and stops after `a` if `a` cancelled |
| Router.InsertIndex | sdk/HTTP_mux.go:93-99 | the position of a new entry: after every entry of at least its priority, before the lower ones from there on |
| Router.StableInsertPlaces | sdk/HTTP_mux.go:93-99 | stable insertion puts the new entry at that position and shifts only the later ones |
| Router.StableInsertOrdered | sdk/HTTP_mux.go:93-99 | inserting keeps the entries ordered by non-increasing priority, ties in registration order |
| Router.StableInsertDistinct | sdk/HTTP_mux.go:84-99 | inserting an entry with a new key keeps all keys distinct and registers the key |
| Router.StableInsertValid | sdk/HTTP_mux.go:84-99 | registering a usable entry with a new key keeps the entries usable, sorted and key-distinct, and registers its key |
| Router.Registers | sdk/HTTP_mux.go:84-91 | the duplicate scan finds exactly the keys some entry already has |
| Router.InsertByPriority | sdk/HTTP_mux.go:93-99 | the append and stable sort give the stable insertion |
| Router.FirstMatchSpec | sdk/HTTP_mux.go:55-63 | dispatch picks a usable entry that matches, no earlier usable entry matches, and the request keeps its method, path and cancellation |
| Router.FirstMatchHighest | sdk/HTTP_mux.go:55-63 | on sorted entries the chosen entry has the highest priority of all matching entries |
| Router.Mux.constructor | sdk/HTTP_mux.go:18-26 | a new mux has no entries, no not-found handler and no middleware |
| Router.Mux.With | sdk/HTTP_mux.go:78-102 | a duplicate key leaves the entries unchanged, otherwise the tested matcher is inserted stably by priority; the entries stay usable, sorted and key-distinct |
| Router.Mux.Handle | sdk/HTTP_mux.go:107-112 | registers the And of the one-method matcher and the case-insensitive pattern, as `With` does |
| Router.HandleMatcherPasses | sdk/HTTP_mux.go:107-112 | that And passes its test exactly when the method is `*` or a verb and the pattern is non-empty |
| Router.HandleMatchArgs | sdk/HTTP_mux.go:107-112 | a route registered by `Handle` hands its handler the request with the pattern's captures attached exactly when the method matches and the keyed walk over the path succeeds, and the request untouched otherwise |
| Router.HandlePriority | sdk/HTTP_mux.go:107-112 | its priority is 9 (0 for `*`) plus the compiled pattern's priority |
| Router.Mux.ServeHTTP | sdk/HTTP_mux.go:29-75 | the first matching entry's handler is served through the middleware, on the request as matching left it; otherwise the not-found handler on the cancelled request, and when none was set the default one, which writes a 404 to this request's writer, whatever that writer already holds, and keeps that writer for every later unmatched request; the identity middleware is installed if none was set |
| Scenarios.ThreeArgsCaptureLast | sdk/HTTP_mux_test.go:136-148 | on any path, the tokens of `/:args1/:args2/:args3` capture `args3` alone, as the slice its placeholder consumed; `args1` and `args2` read as empty |
| Scenarios.ThreeArgsMatchPath | sdk/HTTP_mux_test.go:137-147 | the tokens of `/:args1/:args2/:args3` do match the test's path `/x/yyy/z`: the walk consumes `/`, `x`, `/`, `yyy`, `/`, `z` and captures `args3` as `z`, and nothing else |
| Scenarios.MiddlewareStopsAtCancel | sdk/HTTP_mux_test.go:43-51 | a 200 handler, a cancelling handler and a 500 handler leave 200 `OK` on the writer |
| Scenarios.EmptyMuxNotFound | sdk/HTTP_mux_test.go:62-67 | a mux without entries, on writers nothing was written to yet, writes 404 `Not Found\n` |
| Scenarios.NotFoundKeepsFirstWriter | sdk/HTTP_mux.go:65-73 | a second unmatched request leaves its own writer empty and writes a second `Not Found\n` to the first writer |
| Scenarios.CustomNotFound | sdk/HTTP_mux_test.go:86-95 | a not-found handler set by the user is served instead of the 404 |
| Scenarios.OrOfMocks | sdk/HTTP_mux.go:173-185 | an Or of two passing mocks of priorities a and b passes with priority their mean |
| Scenarios.OrOfSameMock | sdk/HTTP_mux.go:531-549 | an Or of the same mock twice keeps one of them |
| Scenarios.RegisterMocks | sdk/HTTP_mux_test.go:99-107 | the Or of one mock (the duplicate dropped) is registered first; the Or of two mocks, priority 0.15, ends up ahead of it |
| Scenarios.MockRoutes | sdk/HTTP_mux_test.go:97-110 | the Or of mean priority 0.15 is sorted ahead of the one of priority 0 registered before it, and the request is served with 200 `OK` |

## Left out

- Panic recovery is commented out in the code (sdk/HTTP_mux.go:39-51). The `PanicHandler` path and `PanicRecoveryFromRequest` are not modelled.
- Every Go panic becomes a precondition: a nil handler, the mux itself as handler, a nil matcher, or a failing `Test` in `With`, and a nil child in an Or or in `uniqueMuxMatcher`.
- Serialising matchers with `JSON.Marshal` to compare them is replaced by a key of their exported fields: priority, children, methods, pattern, delimiters and case sensitivity.
- `ResponseWriter`, headers and `http.Error` are reduced to a status and a body per writer. A handler function is a function from the request and its writer's response to a new request and response.
- `context.Context` is replaced by a cancellation flag and an optional argument map in the request record.
- Priorities are reals, not `float64`, so rounding is not modelled. The empty Or with zero priority, whose mean is 0/0 at sdk/HTTP_mux.go:181, is excluded by the well-formedness predicate `WF`.
- Strings are ASCII. `parsePattern` ranges over runes but indexes bytes; the model works on characters.
- Patterns.Walk: when a placeholder is followed by another placeholder and the end delimiter is missing, Go slices with -1 and panics (sdk/HTTP_mux.go:491-493). The model reports no match. No token list that `parsePattern` produces has two adjacent placeholders (`Patterns.ParseNoAdjacent`), so this branch is only reachable from tokens written by hand.
- MatcherLaws.UnparsedNeverMatches: Go calls the nil `parseURI` of a pattern whose `Test` failed, and panics. The model answers no match. `With` cannot register such a pattern on its own, but an Or can hold one next to a passing child.
- Handlers that are nil, and a middleware that returns nil, are no-ops. A `Mux` served as a handler inside another mux is not served; it exists only for the "handler is not the mux itself" check.
- Matchers are values, so aliasing is not captured. Go's `Test` and the constructors' de-duplication update the caller's matchers in place; the model returns the updated matchers instead.
- Router.Mux.With: the stable sort of the whole slice is modelled as a stable insertion into entries that are already sorted. `With` keeps them sorted, so this gives the same order.
- Collections.SortStrings: `sort.Strings` is modelled as an insertion sort. Only its result is modelled: a sorted permutation.
- Constructors.UniqueMatchers, Constructors.MakeOr, Constructors.MakeAnd: these require children whose first `Test` settles them. Go's constructors produce such children. Children that do not settle would need their changing priorities tracked across the repeated `Test` calls, which the model does not do.
- Scenarios.ThreeArgsCaptureLast: the token list of the test pattern is written down, not computed by `Parse`, because evaluating the scanner on literal strings is beyond what the verifier does quickly. The lemma is stated for every path rather than for `/x/yyy/z` alone; `Scenarios.ThreeArgsMatchPath` shows that `/x/yyy/z` itself is matched.
