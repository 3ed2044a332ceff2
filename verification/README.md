# Verified models of Aquilia's core algorithms

Aquilia is a Python web framework. This project models the parts of it that are real algorithms or state
machines, one Dafny module per component, and proves what these parts promise: over every input, every
run, and every interleaving. `dafny verify dfyconfig.toml` checks everything.

| module | component |
|---|---|
| `Layers` | dependency-ordered construction of effect layers |
| `FlowOrder` | node ordering and composition of flow pipelines |
| `FlowRun` | one pipeline execution: acquisition, five phases, release in every exit |
| `FlowBalance` | exactly when an execution releases what it acquires |
| `FlowOutcome` | how an execution ends, told from its calls |
| `EffectScopes` | effects held for the body of an `async with` |
| `Base64`, `Signing` | canonical base64url; signed, timestamped and rotating tokens; `dumps`/`loads` |
| `Multipart` | the multipart callback machine with spilling to disk |
| `RequestBody`, `JsonDepth` | the streamed and cached request body; the JSON nesting limit and cached parse |
| `Dotenv`, `DotenvText`, `Interpolate` | the multi-line dotenv parser; what dotenv text means; variable expansion |
| `Lifecycle` | startup, rollback, shutdown and restart |
| `LazyProxy` | double-checked lazy imports by any number of threads |
| `Ranges` | `Range` headers and the file slice they select |
| `Common` | shared vocabulary |

Code that works by assigning to state is written as classes and loops (`Layers.BuildOrderSearch`,
`FlowRun.Execute`, `Multipart.Parser`, `RequestBody.Request`, `Lifecycle.LifecycleCoordinator`, ...). Each
such method is proved equal to a functional specification, and the theorems are about that specification.
Whatever lies outside (node callables, effect providers, hooks, MACs, codecs, clocks, ASGI messages, thread
scheduling) is an arbitrary parameter, so a theorem holds for every behaviour of it. Assumptions a theorem
needs appear in its `requires` clause.

## Where the code surprises

These facts are proved of the code as it is.

- A pipeline whose transform returns a context without the acquired effects succeeds and releases nothing
  (`FlowBalance.FreshContextLeaks`). When every acquire returns and no node writes the effects map, the account
  balances if and only if no called transform returned a context or the last one returned still holds what was
  acquired (`FlowBalance.BalancedIffContextKept`).
- A failing acquire releases everything in the context, also what the pipeline did not acquire
  (`FlowBalance.PreacquiredIsReleased`); the exact condition over all ways to acquire is `FlowBalance.BalancedIff`.
- A release that is cancelled in `finally` ends the pass: what is held under the required names behind it is never
  released (`FlowBalance.CancelledReleaseLeaksRest`).
- An exception outside `Exception`, such as SystemExit, releases its effects with `success=True`
  (`FlowRun.ToldSuccess`, used in `FlowRun.EveryResourceReleasedExactlyOnce`).
- An `EffectScope` that fails while it is being entered never releases what it had acquired by then
  (`EffectScopes.SecondFailureLeaksFirst`), and one that names an effect twice loses the first resource;
  `EffectScopes.ScopeBalancedIff` gives the exact condition on names and registry. Effects of the context
  that a scope shadows are removed, not restored (`EffectScopes.ContextRestoredIff`).
- The separator check of `Signer` is a substring test. Separators such as `AC` pass it although a MAC exists
  under which a signed value does not come back (`Signing.AcceptedSeparatorThatFails`);
  `Signing.SeparatorWorksIff` gives the exact condition on the separator.
- A `TimestampSigner` with `.` as separator can sign nothing (`Signing.DotSeparatorSignsNothing`).
- The body limit holds per attempt: after a rejected read a second read returns the tail of a body that is too
  large, exactly when what follows the offending message is itself finished and fits
  (`RequestBody.RetryReturnsTail`). A negative chunk size yields nothing from a cached body.
- `json_max_depth` is documented as the maximum nesting, but one level more is accepted, because counting
  starts at 0; and a value refused for its depth is cached, so that the next call returns it
  (`JsonDepth.JsonBody.GetTwice`).
- A quoted dotenv value loses the white space before its first line break (`Dotenv.ReadsBackIffClean`), and an
  unquoted one loses unescaped backslashes (`Dotenv.BeforeCommentIff`).
- A double-quoted value ends at its first double quote, escaped or not (`DotenvText.EscapedQuoteEnds`), and an
  escaped backslash before an `n` reads as a backslash and a newline (`DotenvText.EscapedBackslashMisread`).
- In `$A${B}` the name `A` runs on into the value of `B` (`Interpolate.BraceRunsIntoName`).
- A reference to a later key, or to its own, takes the unexpanded text. Expansion is complete if and only if no
  such reference meets a value that contains a reference itself (`Interpolate.ExpansionIsFullIff`; an instance is
  `Interpolate.LaterReferenceStaysRaw`).
- A `Range` with a negative start, an entry without bounds, an empty list, or a unit that is not a word does
  not read back from its own text (`Ranges.RangeRoundTripIff`). A header with several ranges is answered with
  the whole file (`Ranges.SeveralRangesIgnored`), and a range whose end precedes its start as not satisfiable,
  although section 14.1.1 of RFC 9110 calls such a range invalid.

## Model

| member | source | states |
|---|---|---|
| Layers.BuildOrderSearch.Visit | aquilia/flow.py:631-643 | the depth-first visit appends a layer after everything it depends on, never touches the current path, and fails only where the graph has a cycle |
| Layers.LayerComposition.ResolveBuildOrder | aquilia/flow.py:621-648 | without an explicit order the circular-dependency error is raised if and only if the dependency graph has a cycle; otherwise every layer is listed once, dependencies strictly first |
| Layers.WalkFallsThroughOrder | aquilia/flow.py:621-648 | along any dependency walk the positions in a dependency-first listing strictly fall |
| Layers.TopologicalOrderExcludesCycles | aquilia/flow.py:621-648 | a graph with a dependency-first listing has no cycle |
| Layers.PathReentryIsCycle | aquilia/flow.py:634-635 | a name found again on the current path closes a cycle, so the error is never spurious |
| Layers.Unsupplied | aquilia/flow.py:600-602 | the missing list holds exactly the declared names not supplied, and is empty iff all are |
| Layers.UnsuppliedInOrder | aquilia/flow.py:600-602 | the missing names are listed in declaration order |
| Layers.MissingIsUnsupplied | aquilia/flow.py:600-602 | what is missing when a layer's turn comes is exactly what neither the initial dependencies nor any layer supplies |
| Layers.KwargsStable | aquilia/flow.py:519-542 | recording a later provider cannot change the arguments of a layer built earlier |
| Layers.Layer.Build | aquilia/flow.py:519-542 | a built provider that is not None is returned as it is; otherwise the factory gets exactly the declared dependencies that are resolved, each with its recorded provider, and its result is kept |
| Layers.LayerComposition.GetLayer | aquilia/flow.py:650-654 | finds a layer of the name if and only if there is one |
| Layers.LayerComposition.BuildNext | aquilia/flow.py:594-606 | one round of the build loop keeps every earlier layer resolved and every later one untouched, or reports a dependency that really is missing |
| Layers.LayerComposition.BuildAll | aquilia/flow.py:579-608 | for distinct names: circular iff cyclic, missing only what nobody supplies, an error only at a layer before which nothing is missing in a dependency-first order, success only when everything is supplied; then every provider is the cached one or what its factory makes of exactly its declared names with their final providers |
| FlowOrder.SortIsStable | aquilia/flow.py:1071-1084 | the order is sorted by band and priority, a permutation, and keeps insertion order among equal keys |
| FlowOrder.SortOrder | aquilia/flow.py:1071-1084 | middleware, guards, transforms, effects, handlers, hooks, in this order; within a kind the lower priority number first; equals in insertion order; no node lost or added |
| FlowOrder.StableCopyIsPermutation | aquilia/flow.py:1071-1084 | nodes that agree key by key are a permutation of each other |
| FlowOrder.StableSortIsUnique | aquilia/flow.py:1071-1084 | there is only one sorted stable arrangement, so any stable sort by this key computes it |
| FlowOrder.SwapSortsSameIff | aquilia/flow.py:835-852 | two pipelines call the same callables in the same order whichever is composed first if and only if their nodes, callables included, commute key by key |
| FlowOrder.SwapWithoutTies | aquilia/flow.py:835-852 | without a tie in band and priority across two pipelines their composition order does not matter |
| FlowOrder.FlowPipeline.AddNode | aquilia/flow.py:823-826 | appends one node and changes nothing else |
| FlowOrder.FlowPipeline.Compose | aquilia/flow.py:835-852 | a new pipeline with all nodes in order; the operands are unchanged |
| FlowOrder.FlowPipeline.ComposeAssociates | aquilia/flow.py:850-852 | the composition operator is associative on names, timeouts and node lists |
| FlowRun.PhasesAreOneWalk | aquilia/flow.py:893-1004 | the five filtered scans are one pass over the sorted nodes |
| FlowRun.EligibleShape | aquilia/flow.py:893-1004 | the nodes that may run are a rising subsequence with at most one handler and no middleware |
| FlowRun.CallsFollowSortedOrder | aquilia/flow.py:856-1045 | in every run the calls made are a prefix of that subsequence, and all of it when the run succeeds |
| FlowRun.ReleaseAllCounts | aquilia/flow.py:1134-1155 | a release pass hands back each listed, registered, non-None resource once, with the given flag |
| FlowRun.AcquireCounts | aquilia/flow.py:1097-1132 | after acquisition, failed or not, every acquired resource is either held or was released once as a failure; a failed acquire leaves nothing held |
| FlowRun.TryBlockCounts | aquilia/flow.py:856-1004 | when `finally` is reached every acquisition is accounted for: still held, or already released with the flag the outcome calls for |
| FlowRun.EveryResourceReleasedExactlyOnce | aquilia/flow.py:856-1045 | in every run (success, guard, error, cancellation, failed acquire) each resource is released exactly as often as acquired, at most once, with the flag of the outcome and never the other, and none stays in the context |
| FlowRun.EveryRunKeepsProtocol | aquilia/flow.py:856-1045 | with no assumption at all: acquisitions precede node calls, these precede releases, and no effect is released twice |
| FlowBalance.AcquireStops | aquilia/flow.py:1097-1132 | acquisition acquires the names before the first failing one and then rolls back, or is cancelled, or escapes, as that one asks |
| FlowBalance.LeftIsLastContext | aquilia/flow.py:954-955 | if no node writes the map, the effects after some calls are those of the last context a transform returned, or the initial ones |
| FlowBalance.RunAccount | aquilia/flow.py:856-1155 | what any run acquires and releases under each name: one resource at most, by the first failing acquire, the prior context and the calls made |
| FlowBalance.BalancedIff | aquilia/flow.py:856-1155 | for all nodes, providers and prior contexts a run releases every resource as often as acquired iff the map left by its calls holds what was acquired or, when an acquire fails, nothing registered was in the context under names not yet acquired (the required ones only, unless it raised) |
| FlowBalance.BalancedIffContextKept | aquilia/flow.py:941-957 | when every acquire returns and no node writes the map: balanced iff no called transform returned a context, or the last one returned still holds each required, registered resource |
| FlowBalance.ReleaseReaches | aquilia/flow.py:1134-1155 | a release pass hands back exactly what is held under the names up to and including the first cancelled release |
| FlowBalance.CancelledReleaseLeaksRest | aquilia/flow.py:1005-1155 | when a release in `finally` is cancelled exactly what is held under the names behind it is never released |
| FlowBalance.PreacquiredIsReleased | aquilia/flow.py:1123-1128 | a raising acquire releases, as failed, a resource that was in the context before |
| FlowBalance.FreshContextLeaks | aquilia/flow.py:954-955 | a transform that returns a context without effects leaks an acquired resource in a successful run |
| FlowRun.CollectEffects | aquilia/flow.py:1086-1095 | collects the own and declared effects of every node |
| FlowRun.AcquireEffects | aquilia/flow.py:1097-1132 | the acquisition loop, with rollback of everything in the context when an acquire raises, refines its specification |
| FlowRun.ReleaseEffects | aquilia/flow.py:1134-1155 | the release loop refines its specification, a cancelled release ending it |
| FlowRun.RunPhases | aquilia/flow.py:893-1004 | the five loops over one context, rebound by transforms, refine the single walk |
| FlowRun.Execute | aquilia/flow.py:856-1045 | status, calls in order and remaining effects of an execution are those of the specified run |
| FlowOutcome.WalkExplained | aquilia/flow.py:893-1004 | one walk over the sorted nodes ends as its last call, a raising condition, or its results say |
| FlowOutcome.RunOutcome | aquilia/flow.py:893-1045 | status and value of every run whose acquires return, from its calls and what they returned: no call before the last is final; a final last call gives guarded, error, cancelled or escaped; otherwise an asked condition that raises gives an error; otherwise success with the value of the last hook that returned one, else of the handler, else None |
| FlowOutcome.GuardedIff | aquilia/flow.py:893-938 | guarded iff the last call is a guard that raised, returned False or returned a response, with the matching error flag and value |
| FlowOutcome.SuccessIff | aquilia/flow.py:893-1015 | success iff no call was final and no asked condition raised |
| FlowOutcome.FailedAcquireOutcome | aquilia/flow.py:1017-1045 | a run with a failing acquire calls no node and ends as an error, cancelled or escaped, by that acquire and the releases on the way out |
| FlowOutcome.CancelledIff | aquilia/flow.py:1134-1155 | a release pass is cancelled iff the release of some held, registered resource under its names is |
| FlowOutcome.CalledWithEffects | aquilia/flow.py:1086-1132 | no node is called before every registered effect it names or declares is acquired |
| EffectScopes.ScopeNests | aquilia/flow.py:1653-1678 | the provider calls of an entered scope with distinct effects are its acquisitions followed by their exact mirror image |
| EffectScopes.LeaveCounts | aquilia/flow.py:1665-1678 | leaving releases each held resource once, with the flag of the body |
| EffectScopes.EntersIff | aquilia/flow.py:1653-1663 | entering succeeds iff every effect is registered and acquired, and acquires nothing iff there is no first one to be had |
| EffectScopes.ScopeBalancedIff | aquilia/flow.py:1653-1678 | everything acquired is released iff every effect can be obtained and none is named twice, or not even the first can be obtained |
| EffectScopes.SecondFailureLeaksFirst | aquilia/flow.py:1653-1663 | when the second of two acquires raises, the first resource is acquired and nothing is ever released |
| EffectScopes.ContextRestoredIff | aquilia/flow.py:1653-1678 | after an entered scope its names are gone from the context, so the effects from before are back iff the scope shadowed none of them |
| EffectScopes.BodySeesEffects | aquilia/flow.py:1653-1663 | while the body runs the context holds the acquired resources under their names and is otherwise unchanged |
| EffectScopes.EffectScope.Aenter | aquilia/flow.py:1653-1663 | the acquiring loop refines its specification, in the scope and in its context |
| EffectScopes.EffectScope.Aexit | aquilia/flow.py:1665-1678 | the releasing loop refines its specification, in the scope and in its context |
| Base64.EncodeLength | aquilia/signing.py:173-186 | an encoding has 0, 2 or 3 characters beyond whole groups of four, by the length of the input |
| Base64.ScanInvertsEncode | aquilia/signing.py:173-227 | the lenient decoder underneath inverts the encoder whenever enough padding follows |
| Base64.DecodeExactlyCanonical | aquilia/signing.py:189-227 | decoding returns x iff the text without trailing `=` is exactly the encoding of x; the uncaught encoding error is raised iff the text is not ASCII |
| Base64.DecodeInvertsEncode | aquilia/signing.py:173-227 | the round trip for byte strings of every length and any number of trailing `=` |
| Base64.EncodeInjective | aquilia/signing.py:173-186 | different byte strings have different encodings |
| Base64.OnlyZeroFillAccepted | aquilia/signing.py:217-227 | of the sixteen texts the decoder underneath maps to one byte only the canonical one is accepted |
| Signing.SingleSepIsForeign | aquilia/signing.py:508-536 | a one-character separator is accepted iff it is outside the base64url alphabet and not `=` |
| Signing.LastOccurrence | aquilia/signing.py:561-593 | a separator with an element the signature cannot contain is found where `sign` put it |
| Signing.UnsignAcceptsExactly | aquilia/signing.py:561-593 | `unsign(t)` is v iff t is v, separator, canonical signature of v and possibly trailing `=` |
| Signing.RefusedTokens | aquilia/signing.py:561-593 | a token that is not accepted is malformed iff it has no separator, and otherwise a bad signature, unless it is not ASCII behind the last separator |
| Signing.UnsignInvertsSign | aquilia/signing.py:540-593 | `sign` accepts exactly the values without the separator, and `unsign` returns them |
| Signing.SeparatorWorksIff | aquilia/signing.py:508-593 | signing round-trips under every MAC iff the separator has a character outside the alphabet |
| Signing.AcceptedSeparatorThatFails | aquilia/signing.py:517-522 | the constructor accepts `AC`, with which signing does not always round-trip |
| Signing.UnsignBytesInvertsSignBytes | aquilia/signing.py:595-637 | the byte round trip for all data, also data containing the separator |
| Signing.UnsignBytesAcceptsExactly | aquilia/signing.py:611-637 | accepted byte strings are exactly data, separator, canonical signature of the data and possibly trailing `=` |
| Signing.UnpackInvertsPack | aquilia/signing.py:740-774 | the eight-byte big-endian packing succeeds exactly on signed 64-bit offsets and is inverted by unpacking |
| Signing.PackInvertsUnpack | aquilia/signing.py:740-774 | eight bytes unpack to an offset iff the offset packs to them |
| Signing.PackIsBigEndian | aquilia/signing.py:740-753 | byte i of the packing has weight 256 to the power 7 - i in two's complement |
| Signing.UnsignAtInvertsSignAt | aquilia/signing.py:778-902 | signing with a timestamp is total on strings for 64-bit times; unsigning returns the same string and time, or an expiry exactly when the age exceeds the maximum |
| Signing.UnsignAtAcceptsExactly | aquilia/signing.py:794-902 | accepted timestamped tokens are exactly the signed compounds of an encoded value and a packed time, up to trailing `=`, that are not too old |
| Signing.DotSeparatorSignsNothing | aquilia/signing.py:720-792 | with `.` as separator every timestamped signing fails |
| Signing.TimestampSepIff | aquilia/signing.py:720-846 | an accepted one-character separator signs and reads back every string at every 64-bit time iff it is not `.` |
| Signing.AgeMonotone | aquilia/signing.py:883-902 | a token accepted for one maximum age and clock is accepted, with the same value, for any larger age and earlier clock |
| Signing.RotatingAcceptsIff | aquilia/signing.py:980-1010 | a token is accepted with value v iff some configured secret accepts it with v |
| Signing.RotatingRefuses | aquilia/signing.py:980-1010 | a token no secret accepts has a bad signature, unless it is not ASCII behind the separator |
| Signing.RotationPreservesTokens | aquilia/signing.py:941-1010 | acceptance and value do not depend on the order of secrets, and adding secrets preserves every accepted token |
| Signing.RotatedTokenVerifies | aquilia/signing.py:941-1010 | a token signed under one list verifies under any list that contains its first secret |
| Signing.PlainIsNotCompound | aquilia/signing.py:1135-1153 | a plain token is never read as a timestamped one, so the fallback is taken exactly for it |
| Signing.PayloadCompresses | aquilia/signing.py:1081-1092 | the payload is compressed and flagged iff asked for and shorter, and otherwise the JSON text |
| Signing.LoadsInvertsDumps | aquilia/signing.py:1044-1153 | `loads` returns the object for all four combinations of timestamp and compression, unless its age exceeds the maximum |
| Multipart.ReceiveMerges | aquilia/request.py:1070-1113 | two data chunks act as their concatenation, also when only the second crosses the threshold or the limit |
| Multipart.FragmentationInvariant | aquilia/request.py:1044-1202 | callback scripts that differ only in how chunks are cut end in the same state or fault |
| Multipart.RunContent | aquilia/request.py:1070-1113 | any content ends too large iff it is a file above the limit, and on disk iff it is a file above the threshold |
| Multipart.PartOutcome | aquilia/request.py:1044-1202 | from any state the callbacks of one part add what the part means by its headers and whole content |
| Multipart.BodyOutcome | aquilia/request.py:1044-1202 | any fragmentation of a list of parts yields the form or the first fault the parts mean |
| Multipart.ArrivalOrder | aquilia/request.py:1115-1156 | a body is accepted iff it has no part too many and no rejected part; then each name holds exactly its fields and files in order of arrival |
| Multipart.KeysInOrder | aquilia/request.py:1139-1156 | the keys of an accepted form are the names of its fields, and of its files, in order of first use |
| Multipart.PartMeaning | aquilia/request.py:1070-1202 | a part without a name is dropped, one with a file name that is not empty is a file, any other a field |
| Multipart.Parser.OnPartBegin | aquilia/request.py:1044-1068 | counts the part and resets everything about it, or refuses it |
| Multipart.Parser.OnPartData | aquilia/request.py:1070-1113 | the buffer, temporary file and size updates refine the specified step |
| Multipart.Parser.OnHeadersFinished | aquilia/request.py:1177-1202 | the reading of name, file name and type refines the specified step |
| Multipart.Parser.OnPartEnd | aquilia/request.py:1115-1156 | files the part as upload or field, or drops it if it has no name |
| Multipart.ParseMultipart | aquilia/request.py:1007-1249 | the whole parse of a fragmented body returns the form its parts mean, or their first fault |
| RequestBody.DrainMeaning | aquilia/request.py:650-698 | for every message script: too large iff the bytes sent exceed the limit, complete iff they fit and a last message arrives; then exactly the bytes sent are yielded |
| RequestBody.DrainChunks | aquilia/request.py:678-696 | however it ends, a drain yields exactly the non-empty chunks received, one by one, up to the end of the body or the offending message |
| RequestBody.SlicesRejoin | aquilia/request.py:668-672 | slices of the cache have the asked size, the last may be shorter, and concatenate to the body |
| RequestBody.Request.IterBytes | aquilia/request.py:650-698 | slices the cache without receiving, yields nothing after an uncached drain, or drains the stream |
| RequestBody.Request.ReadBody | aquilia/request.py:714-736 | returns the cache or drains; caches on success and leaves a failed stream to be resumed |
| RequestBody.Request.ReadTwice | aquilia/request.py:650-736 | a first read succeeds iff the body is finished and fits, and reading and slicing again reproduce it without receiving |
| RequestBody.OverrunIsFirst | aquilia/request.py:681-690 | the offending message is the first, before the end of the body, at which the bytes sent so far exceed the limit |
| RequestBody.RetryReturnsTail | aquilia/request.py:674-698 | for every script too large, reading continues behind the offending message with the count reset: the retry succeeds iff what follows is itself a finished body that fits, and yields exactly that tail |
| RequestBody.OversizedBodyByRetry | aquilia/request.py:674-698 | an instance: of a body of two messages, the first too large, a retry returns the second |
| RequestBody.Request.ReadAfterOverrun | aquilia/request.py:714-736 | the same for two calls of `body` on one request: the first is refused, the second returns and caches the tail iff it is readable |
| JsonDepth.WithinIffHeight | aquilia/request.py:864-906 | a value is within the limit iff it is a scalar or its nesting height from the starting depth is |
| JsonDepth.LastLayer | aquilia/request.py:892-900 | at the last permitted depth it is enough that no child is a container |
| JsonDepth.PushChildren | aquilia/request.py:901-905 | pushing only the container children keeps the verdict and loses exactly one container of remaining work |
| JsonDepth.CheckJsonDepth | aquilia/request.py:864-906 | the stack version decides the recursive definition, hence the height bound, and terminates |
| JsonDepth.JsonBody.GetJson | aquilia/request.py:784-844 | size, syntax and depth are checked in this order, once; the value is cached before its depth is checked |
| JsonDepth.JsonBody.GetTwice | aquilia/request.py:806-839 | a value refused for its depth is returned by the next call; every other result repeats |
| Dotenv.ParseQuoted | aquilia/dotenv.py:351-378 | the collecting loop refines the quoted-value specification, its index staying in bounds |
| Dotenv.ReadEntry | aquilia/dotenv.py:268-314 | one round reads one entry or none and always advances the index within bounds |
| Dotenv.ParseContent | aquilia/dotenv.py:255-316 | the index-driven parser computes the dictionary of its lines |
| Dotenv.StripInlineComment | aquilia/dotenv.py:381-397 | the character loop refines the recursive reading, then strips |
| Dotenv.BeforeCommentIff | aquilia/dotenv.py:381-397 | an unquoted value reads as t iff it begins with a spelling of t, backslashes before every `#` and backslash of t and dropped, that ends at the first bare `#`, at the end, or at a lone last backslash |
| Dotenv.EscapedTextReadsBack | aquilia/dotenv.py:381-397 | escaping backslashes and `#` reads back the text, alone and with a comment behind it |
| Dotenv.UnclosedQuote | aquilia/dotenv.py:319-378 | a quote that is never closed takes the rest of the text into the value |
| Dotenv.EntryOfBlock | aquilia/dotenv.py:255-378 | the lines of one rendered entry are consumed exactly, whatever follows |
| Dotenv.ReadsBackIffClean | aquilia/dotenv.py:255-378 | a rendered entry reads back its value iff the value has no single quote, no line break but newlines, and no white space before its first newline |
| Dotenv.ParseInvertsRender | aquilia/dotenv.py:255-378 | rendering distinct valid keys with such values and parsing the text gives the same entries in order |
| DotenvText.TextIsParsed | aquilia/dotenv.py:255-316 | text of exported and plain assignments (values bare, before a comment, in single or double quotes), blank lines, comments, lines without `=` and lines with a bad key parses to every key once, in order of first assignment, with the value last assigned |
| DotenvText.OneAssignment | aquilia/dotenv.py:284-314 | `k=v` and `export k=v` give exactly that entry, however the value is written |
| DotenvText.MeaningAssigns | aquilia/dotenv.py:314 | a further assignment replaces the value of a known key in place and appends a new one |
| DotenvText.EscapesInvert | aquilia/dotenv.py:400-412 | escaping newlines, carriage returns, tabs and dollar signs is undone by the sequential replacements, for text without backslashes and double quotes |
| DotenvText.BomIsIgnored | aquilia/dotenv.py:269-270 | a byte order mark in front changes nothing |
| DotenvText.EscapedQuoteEnds | aquilia/dotenv.py:326-332 | a double-quoted value ends at its first double quote, also behind a backslash |
| DotenvText.EscapedBackslashMisread | aquilia/dotenv.py:400-412 | an escaped backslash followed by `n` reads as a backslash and a newline |
| Interpolate.InterpolateAll | aquilia/dotenv.py:415-440 | the loop over the dictionary it is still building refines the one-pass expansion |
| Interpolate.FullValueIsUnique | aquilia/dotenv.py:415-440 | a value has at most one full substitution, with references followed back and forward to their end |
| Interpolate.FullHasNoDollar | aquilia/dotenv.py:415-440 | a fully substituted value has no dollar sign |
| Interpolate.SelfReferenceNeverEnds | aquilia/dotenv.py:415-440 | a value that refers to itself has no full substitution |
| Interpolate.SubBracesIsOnce | aquilia/dotenv.py:415-440 | one left-to-right substitution of braced references gives expanded values for earlier keys and raw ones for later keys |
| Interpolate.OnceBraced | aquilia/dotenv.py:415-440 | every dollar sign left behind opens a braced reference, so the second substitution changes nothing |
| Interpolate.ExpansionIsFullIff | aquilia/dotenv.py:415-440 | the pass leaves no dollar sign, and equals full recursive substitution, iff no value refers to its own or a later key whose value contains a reference |
| Interpolate.ExpansionIsFull | aquilia/dotenv.py:415-440 | in particular when references only name earlier keys or nothing in the file |
| Interpolate.BareReferencesResolve | aquilia/dotenv.py:434-438 | a value with references without braces expands to what each resolves to, and nothing put in is expanded again |
| Interpolate.BraceRunsIntoName | aquilia/dotenv.py:434-438 | a reference without braces directly before one with braces swallows its value |
| Interpolate.LaterReferenceStaysRaw | aquilia/dotenv.py:424-431 | an instance: a reference to a later key takes its raw text |
| Lifecycle.StartupOutcome | aquilia/lifecycle.py:112-194 | startup from INIT ends READY, or raises and ends STOPPED with everything started unwound; from other phases it raises and changes nothing |
| Lifecycle.ShutdownUnwinds | aquilia/lifecycle.py:196-266 | shutdown calls the shutdown hooks of the started apps once, in reverse order, whatever raises |
| Lifecycle.EveryRunKeepsInv | aquilia/lifecycle.py:112-273 | over any sequence of calls the started apps are a prefix of the app order, all of it when READY, and every finished epoch was unwound |
| Lifecycle.EveryEpochLog | aquilia/lifecycle.py:112-273 | over any sequence of calls, every hook call of every epoch: workspace startup, then container and startup hook app by app, cut behind the first that raised; then the shutdown hooks of the started apps in reverse, then the workspace shutdown hook, once each |
| Lifecycle.RestartOutcome | aquilia/lifecycle.py:268-273 | a restart closes the epoch and runs a full new startup, or one that is unwound |
| Lifecycle.StopHooksAtMostOnce | aquilia/lifecycle.py:196-273 | for distinct names, in each epoch of every run a shutdown hook runs at most once and, once stopped, exactly for the started apps that have one |
| Lifecycle.ShutdownIdempotent | aquilia/lifecycle.py:202-203 | a second shutdown calls no hook and changes nothing |
| Lifecycle.LifecycleCoordinator.StartupApp | aquilia/lifecycle.py:156-194 | starts one app, recording it only if nothing raised |
| Lifecycle.LifecycleCoordinator.DoStartup | aquilia/lifecycle.py:112-154 | startup with rollback refines its specification |
| Lifecycle.LifecycleCoordinator.DoShutdown | aquilia/lifecycle.py:196-266 | shutdown refines its specification |
| Lifecycle.LifecycleCoordinator.DoRestart | aquilia/lifecycle.py:268-273 | restart refines its specification |
| LazyProxy.StepKeepsInv | aquilia/lazy.py:114-130 | every step of every thread keeps mutual exclusion and the agreement of slots, threads and log |
| LazyProxy.RunKeepsInv | aquilia/lazy.py:193-216 | the invariant holds after any interleaving of any number of threads |
| LazyProxy.OneImportOneObject | aquilia/lazy.py:114-130 | in every run at most one import of a proxy succeeds, none follows it, and every call that returns has that object, imported before |
| LazyProxy.OwnImportDecides | aquilia/lazy.py:114-130 | a call whose own import succeeded returns that object, and a call raises only because its own import failed |
| LazyProxy.NeverStuck | aquilia/lazy.py:114-130 | a thread can always move unless it waits for the lock, and then the lock's holder can |
| Ranges.Parse | aquilia/_datastructures.py:364-393 | the parsing loop refines the specification, a bad integer raising |
| Ranges.ToString | aquilia/_datastructures.py:395-406 | the collecting loop prints the comma-separated ranges |
| Ranges.IntRoundTrip | aquilia/_datastructures.py:385-386 | a printed integer reads back |
| Ranges.SpecRoundTripIff | aquilia/_datastructures.py:378-404 | one printed range reads back iff it has a bound and no negative start |
| Ranges.RangeRoundTripIff | aquilia/_datastructures.py:364-406 | a printed header reads back iff its unit is a word and its ranges are a non-empty list of such ranges |
| Ranges.SpacedRangesParse | aquilia/_datastructures.py:378-395 | white space around ranges and pieces without a dash make no difference |
| Ranges.SingleRangeIsExact | aquilia/response.py:1389-1425 | a single range with natural bounds selects exactly the bytes it denotes as one slice inside the file, and is refused iff it denotes none |
| Ranges.SliceInBounds | aquilia/response.py:1395-1425 | whatever the header, a selected slice is non-empty and inside the file |
| Ranges.SeveralRangesIgnored | aquilia/response.py:1395-1425 | a header with a comma is answered with the whole file |
| Ranges.OtherUnitsIgnored | aquilia/response.py:1391-1392 | a header printed for another unit is answered with the whole file |
| Ranges.NoDigitsIgnored | aquilia/response.py:1395-1425 | a header without a digit is malformed and answered with the whole file |
| Ranges.FileResponse.HandleRangeRequest | aquilia/response.py:1371-1425 | sets status, headers and slice together for a selected slice, and changes nothing when the header is ignored or refused |

## Left out

- Cryptography: the MAC is an arbitrary function with bytes as result; key derivation and the asymmetric
  backends are not modelled, and comparison is equality.
- zlib, JSON text, UTF-8 and the conversion of times to datetimes: inverse pairs where a theorem needs them;
  times and ages are integer microseconds.
- Rotating signers with timestamps, `sign_object` and `unsign_object`: compositions of what is modelled.
- `FlowPipeline.execute_with_timeout`, node timings, the node trace, metadata, events and logging.
- `_call_node`: argument injection and dependency resolution; a node call is a value, an exception, a
  cancellation or an exception outside `Exception`.
- Effect providers and their registry beyond registered names and the outcome of each call; the registry does
  not change during a run.
- Layers.LayerComposition.BuildAll: for distinct names and no explicit order; an explicit order
  (`Layer.provide`) and repeated names are covered by ResolveBuildOrder only.
- EffectScopes.ScopeBalancedIff, like ContextRestoredIff: assumes that providers do not return None and releases are not cancelled;
  nested or repeated use of one scope object is not stated.
- FlowRun.EveryResourceReleasedExactlyOnce: assumes an initially empty effects map, providers that do not
  return None, releases that are not cancelled, and nodes that keep the effects map; the lemmas of FlowBalance
  and EveryRunKeepsProtocol say what holds without these.
- FlowBalance.BalancedIff: assumes that no release is cancelled; CancelledReleaseLeaksRest does not, for runs in
  which every acquire returns.
- The python-multipart tokenizer and real files: the callbacks are the input and a temporary file is its
  contents; removal of temporary files is not modelled. Part data arrives between the headers and the end.
- Multipart.BodyOutcome: for scripts that are fragmentations of whole parts; other scripts are covered by
  FragmentationInvariant only.
- Generators abandoned before their end: `readexactly`, and loops over `iter_bytes` that break off.
- Validation of JSON models, and the text, form and upload interfaces of the request.
- Interpolate.ExpansionIsFullIff: for references in braces. References without braces have their own theorem,
  BareReferencesResolve; values that mix both, and dollar signs in literal text or the environment, have none.
- Workspace discovery, loading of files and writing to the environment in `dotenv.py`.
- DotenvText.EscapesInvert: for text without backslashes and double quotes, which the escapes cannot represent
  faithfully. Names, digits and word characters are the ASCII ones.
- Node conditions: an arbitrary answer for each position, asked at most once in a run.
- Ranges.RangeRoundTripIff: ASCII digits only, and no limit on the number of digits of an integer.
- Ranges.SingleRangeIsExact: the reading of the file behind the slice is not part of this model.
- Lifecycle: cancellation and exceptions outside `Exception` during a hook, events, and status reports.
- LazyProxy: resolution nested in another import (the lock is not reentrant), and module objects that are None.
