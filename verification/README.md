# kse-static-rewrite-proxy, verified

The proxy rewrites text responses while they stream through it: it inserts a configured base path into
HTML, JavaScript and metadata, in whatever pieces the network delivers them. This project models that
engine and what decides its use, and proves that the result does not depend on the pieces.

| file | what it is about |
|---|---|
| `Bytes.dfy`, `Utf8.dfy`, `Utf8Encoding.dfy` | byte strings, leftmost search, and UTF-8 as a byte-at-a-time automaton proved equal to the grammar of section 4 of RFC 3629, and that to the encodings of the scalar values by section 3 |
| `LiteralSpec.dfy`, `LiteralRewriter.dfy` | literal substitution (prepend, exact, append) on a whole text, and the streaming class that holds bytes back, remembers history and validates UTF-8 |
| `ExpressionSpec.dfy`, `ExpressionRewriter.dfy`, `Names.dfy` | prefix-expression-suffix patterns on a whole text, the streaming class, and what an expression is in characters |
| `Stages.dfy`, `Pipeline.dfy`, `Response.dfy`, `Growth.dfy` | buffered stages, chains of stages, limits and errors, a whole response in chunks, and how long it can get |
| `PrependIdempotence.dfy`, `AppendIdempotence.dfy`, `ExactIdempotence.dfy` | exactly when inserting before or after a literal, or replacing it, is idempotent |
| `StageEffects.dfy` | what a stage that replaces matches can bring into being, and when it leaves nothing to do for stages before it or for itself |
| `Html.dfy`, `MigMeta.dfy`, `HtmlMigMeta.dfy` | the twenty attribute stages as one pass; splicing the base URI into `window._mig_meta`; the one after the other |
| `Profiles.dfy` | the rule sets of the seven profiles, and a response of any of them |
| `Occurrences.dfy`, `BundleResponses.dfy`, `PageResponses.dfy`, `ConsoleResponses.dfy` | what a stage makes of a text occurrence by occurrence, and with it what each profile writes, spelled out for every base path and every name |
| `ProfileIdempotence.dfy`, `KubekeyPages.dfy`, `ConsoleIdempotence.dfy` | profile by profile, exactly when a second pass changes nothing, for every base path the configuration accepts |
| `StaticPrefixes.dfy` | the two stages with which a console response begins, and when a second round of both changes nothing |
| `CodeTests.dfy`, `ExactRules.dfy`, `MemberRules.dfy`, `IdentifierRules.dfy`, `ConsoleRewrites.dfy`, `ConsoleSettling.dfy` | the eleven stages behind them: none writes anything for itself, or for a stage before it, to rewrite |
| `BasePath.dfy`, `PercentEncoding.dfy`, `SafePaths.dfy` | percent-decoding to a fixpoint, what an escape stands for, and what an accepted base path is free of at every depth, told in characters and segments |
| `Policy.dfy` | the router, proved sound and complete for a declarative path grammar, and the gate for extensions told without it |
| `Admission.dfy` | semaphores and gauges under every interleaving of requests |

Every stage is a class whose ghost fields record all input accepted (`seen`) and all output written
(`emitted`). The invariant of a stage is that `emitted`, followed by what the whole-text function makes
of the bytes not yet consumed, is the whole-text function of the input, *whatever input is still to
come*. Chunk independence, the prefix property and the error behaviour of a pipeline all follow from it.

Bytes are `bv8`; the `usize` counters are unbounded integers with the 64-bit overflow written out.

## Where the code and its documentation differ

* The documentation promises that every transform is idempotent (README.md:248-250). Over all base paths
  that the configuration accepts, the profiles keep this promise as follows; every failing case comes with
  an accepted base path and a body.

  | profile | idempotent |
  |---|---|
  | JSBundle, Frontend Index | always: `ProfileIdempotence.BundlesAreIdempotent` |
  | ys1000 Frontend Index | only without a base path, since neighbouring literals can share a quote: `ProfileIdempotence.Ys1000FrontendIndexIsIdempotentExactlyWhen`. With one, a body settles exactly when it holds no two that do: `ProfileIdempotence.Ys1000FrontendIndexSettlesExactlyWhen` |
  | kubekey assets | exactly when the base path is the legacy root, or is not empty, does not hold the legacy root and has no end that begins it: `ProfileIdempotence.KubekeyAssetIsIdempotentExactlyWhen`; it fails for `/regions/5` (`ProfileIdempotence.BasePathBeginsLegacyRoot`) |
  | Named Proxy HTML | exactly when the base path is empty or keeps the proxy root from being found again: `ProfileIdempotence.NamedProxyHtmlIsIdempotentExactlyWhen` |
  | Named Proxy HTML of kubekey | exactly when the base path also keeps the legacy root away, and does not make a proxy root in its place: `KubekeyPages.KubekeyHtmlIsIdempotentExactlyWhen`; it fails for `/kubekey` (`KubekeyPages.BasePathMakesRoot`) |
  | ys1000 HTML | with a base path, exactly when it keeps the proxy root from being found again: `ProfileIdempotence.Ys1000HtmlIsIdempotentExactlyWhen`; it fails, as without metadata, for `/proxy/ys1000` (`ProfileIdempotence.BasePathBeginsLikeRoot`) |
  | Console V3 | exactly when the static root does not occur in the base path closed by a slash and, unless the extension is named `extensions-static`, the base path completes no source begun before it: `ConsoleIdempotence.ConsoleIsIdempotentExactlyWhen`. A base path completes one when, closed by a slash, it begins with `/NAME/dist/v3dist/`, `/dist/v3dist/` or `/v3dist/`, and does not itself end what stands before (`StaticPrefixes.NeverCompletedExactlyWhen`). It fails for `/extensions-static` (`ConsoleIdempotence.BasePathIsStaticRoot`) and, with extension `x`, for `/x/dist/v3dist` (`ConsoleIdempotence.BasePathCompletesSource`) |

* When a body is both too long and malformed, where it was cut decides which error a run ends with:
  `Responses.FirstErrorExactlyWhen`, and `Responses.ErrorDependsOnTheChunks` for an example.
* The gauge of queued rewrites does not come back to zero once a request has been dropped while it waited
  in the line: `Admission.QueuedGaugeIsZeroExactlyWhen`, and `Admission.DroppedRequestStaysCounted` for a run
  of two requests. Permits are conserved all the same.
* After a template that renders to nothing the expression stage looks back at an earlier byte of the same
  call, or at none. This never shows in the output, because no byte before a match is an identifier byte:
  `ExpressionRewriters.LastByteAfter`. Chunk independence therefore needs no condition on templates.

## Model

| member | source | states |
|---|---|---|
| Utf8.AcceptedIffWellFormed | src/literal.rs:739-748 | a slice is accepted whole exactly when it is a sequence of characters of the UTF-8 grammar; what those are says `Utf8Encoding.CharsAreScalarsEncoded` |
| Utf8.AliveIffCompletable | src/literal.rs:722-736 | reading goes on without an error exactly while some continuation makes the text well formed |
| Utf8.TailIsUnfinishedCharacter | src/literal.rs:739-748 | the bytes kept are an unfinished character at the end of an otherwise well-formed text |
| Utf8.TailWithinOneChar | src/literal.rs:712-720 | completing a kept character takes exactly the bytes its lead byte announces |
| Utf8.SequenceLength | src/literal.rs:825-832 | only lead bytes are asked about, so the unreachable arm is dead; the answer is 2, 3 or 4 |
| Utf8Encoding.CharsAreScalarsEncoded | src/literal.rs:739-748 | the byte strings taken for one character are exactly the shortest encodings of 0 to 0xD7FF and 0xE000 to 0x10FFFF, by the arithmetic of section 3 of RFC 3629 |
| Utf8Encoding.AcceptedIffEncoded | src/literal.rs:707-748 | a text is accepted if and only if it is the encoding of some sequence of scalar values |
| Utf8Encoding.EncodeAllIsInjective | src/literal.rs:707-748 | no text is the encoding of two sequences of scalar values |
| LiteralSpec.SubstituteSkips | src/literal.rs:776-806 | searching for the next occurrence and copying up to it is the same as going byte by byte |
| LiteralSpec.SubstitutePreservesUtf8 | src/literal.rs:750-822 | with well-formed literals a well-formed text stays well formed, even read from inside a character |
| LiteralSpec.GrowthIsBounded | src/literal.rs:776-806 | the output exceeds the input by at most one inserted prefix per source length of input |
| LiteralRewriters.HistorySuffices | src/literal.rs:834-853 | the last bytes remembered decide "already prefixed" as the whole original input would |
| LiteralRewriters.RememberInput | src/literal.rs:855-875 | the history is again the last bytes of the input, as many as the prefix has |
| LiteralRewriters.EmittedIsPrefix | src/literal.rs:676-694 | what is written so far begins the substitution of every continuation of the input |
| LiteralRewriters.SettledRenderingIsFinal | src/literal.rs:784-798 | once enough bytes follow a match, later bytes cannot change how it is rendered |
| LiteralRewriters.LiteralRewriter.constructor | src/literal.rs:656-674 | a new rewriter has seen and written nothing |
| LiteralRewriters.LiteralRewriter.Push | src/literal.rs:676-694 | when a chunk is accepted, which error it gets otherwise and what then stays; the bounds on all held-back memory hold after every call |
| LiteralRewriters.LiteralRewriter.Finish | src/literal.rs:696-705 | all output together is the substitution of all input; an unfinished character is InvalidUtf8 |
| LiteralRewriters.LiteralRewriter.ValidateUtf8 | src/literal.rs:707-737 | incremental validation, through the boundary buffer, is validation of everything since the start |
| LiteralRewriters.LiteralRewriter.ValidateUtf8Slice | src/literal.rs:739-748 | the tail kept is the unfinished character of the slice |
| LiteralRewriters.LiteralRewriter.ProcessAvailable | src/literal.rs:750-822 | the loop keeps the stage invariant in all three modes and holds back fewer bytes than stated |
| ExpressionSpec.VerdictIsStable | src/literal.rs:477-517 | Match and NoMatch before the end of the stream never change when input arrives |
| ExpressionSpec.MatchIsExpressionBetween | src/literal.rs:477-517 | a match is prefix, identifier or member expression, and a suffix that could not have extended it, and conversely; in characters the expressions are those of `Names.ExpressionsAreNames` |
| ExpressionSpec.RewriteSkips | src/literal.rs:416-438 | searching for the prefix and copying up to it is the same as going byte by byte |
| ExpressionSpec.RewritePreservesUtf8 | src/literal.rs:409-475 | with well-formed literals a well-formed text stays well formed |
| Names.IdentifierBytesOf | src/literal.rs:563-570 | identifier bytes are those of ASCII letters, digits, `_` and `$`, and a digit is not the first |
| Names.NoOtherIdentifierBytes | src/literal.rs:563-570 | no byte of 128 or more belongs to an identifier |
| Names.ExpressionsAreNames | src/literal.rs:477-549 | the expressions scanned are exactly the names, or with member syntax the names joined by dots, written in those characters |
| Occurrences.FirstExpression | src/literal.rs:409-475 | up to the first prefix all is copied; an expression there, not behind an identifier and with the suffix behind it, is rendered; what follows is rewritten on its own, looking back at what was written |
| Occurrences.NothingBehindName | src/literal.rs:434-446 | behind an identifier byte nothing is rewritten |
| ExpressionRewriters.ScanIdentifierSegment | src/literal.rs:526-549 | the scan loop finds the greedy end of an identifier, or says that more is needed |
| ExpressionRewriters.RenderIdentifierTemplate | src/literal.rs:551-561 | every marker of the template becomes the expression, as exact substitution has it |
| ExpressionRewriters.LastByteAfter | src/literal.rs:461-461 | looking back at this call's output is looking back at the whole output, as far as identifiers go |
| ExpressionRewriters.EmittedIsPrefix | src/literal.rs:393-399 | what is written so far begins the rewriting of every continuation of the input |
| ExpressionRewriters.ExpressionRewriter.Push | src/literal.rs:393-399 | a chunk is added to what was seen, its output to what was written |
| ExpressionRewriters.ExpressionRewriter.Finish | src/literal.rs:401-407 | all output together is the rewriting of all input |
| ExpressionRewriters.ExpressionRewriter.MatchCandidate | src/literal.rs:477-517 | the scanning loops give the verdict function |
| ExpressionRewriters.ExpressionRewriter.ProcessAvailable | src/literal.rs:409-475 | the loop keeps the stage invariant and makes progress |
| Stages.BufferedRewriter.Push | src/literal.rs:293-299 | nothing is written before the end |
| Stages.BufferedRewriter.Finish | src/literal.rs:301-307 | the transform of everything received |
| Stages.Stage.Push | src/literal.rs:36-42 | one contract for the three kinds of stage: what is read, written and refused |
| Stages.Stage.Finish | src/literal.rs:44-50 | a finished stage of any kind has written its whole-text function of all it read |
| Stages.FlowsThrough | src/literal.rs:247-255 | a stage extends the prefix property of the stages before it by one |
| Stages.LaterStagesAccept | src/literal.rs:251-255 | no later stage refuses what an accepted body prefix has become, wherever it is cut |
| Stages.ComposePreservesUtf8 | src/literal.rs:258-271 | a chain of stages that keep text well formed keeps it well formed |
| Pipelines.Pipeline.constructor | src/literal.rs:186-199 | new stages make a pipeline that has received and delivered nothing |
| Pipelines.Pipeline.Push | src/literal.rs:231-256 | size errors from the original bytes alone and for ever; otherwise success exactly while the body can be UTF-8 |
| Pipelines.Pipeline.Finish | src/literal.rs:258-271 | everything delivered is the composition of the stages on the whole body; failure exactly for a body cut mid-character |
| Pipelines.Pipeline.DeliveredIsPrefix | src/literal.rs:231-256 | everything delivered so far begins the output for every continuation of the body |
| Responses.SpecOf | src/literal.rs:599-674 | which rules have a stage and which error the others get; what the stage searches for, and that its literals fit together |
| Responses.PipelineSpecs | src/literal.rs:54-139 | a pipeline is never empty and consists of valid stages |
| Responses.NewPipeline | src/literal.rs:186-199 | the objects built stand for the stages asked for and are distinct |
| Responses.FilterBody | src/proxy.rs:377-389 | one call of the body filter: push, and at the end of the stream finish |
| Responses.FirstErrorExactlyWhen | src/literal.rs:231-246 | InvalidUtf8 exactly when a chunk is refused while the text is within the limit, TooLarge exactly when the body is too long and that does not happen; with only one of the two faults the body alone decides |
| Responses.ErrorDependsOnTheChunks | src/literal.rs:231-246 | one body, one limit, two ways to cut it, two errors |
| Responses.RewriteBody | src/proxy.rs:362-390 | for all rules and all chunks: the composed output, or exactly the first error |
| Growth.SmallBodiesNeverOverflow | src/literal.rs:676-694 | no counter of any stage overflows on a body that stays below 2^64 bytes when every byte of it grows as much as the stages allow |
| PrependIdempotence.IdempotentExactlyWhen | src/literal.rs:776-806 | prepending is idempotent for all texts if and only if the source occurs in the insertion only as its end and no beginning of it is completed by an insertion |
| PrependIdempotence.StaticRootIsIdempotentExactlyWhen | src/rewrite.rs:502-503 | for the static root: if and only if it does not occur in the base path closed by a slash |
| ExactIdempotence.IdempotentExactlyWhen | src/literal.rs:776-806 | replacing a literal that holds its first byte once is idempotent if and only if the replacement is the literal itself, or is not empty, does not hold the literal and has no end that begins it |
| ExactIdempotence.SharedQuote | src/rewrite.rs:372-377 | of two quoted literals that share a quote, the first pass rewrites one and the second pass the other |
| ExactIdempotence.QuotedSettlesExactlyWhen | src/rewrite.rs:372-377 | text by text: replacing a quoted literal settles after one pass if and only if no two of them share a quote |
| AppendIdempotence.IdempotentExactlyWhen | src/literal.rs:784-798 | appending is idempotent for all texts if and only if the source is not inside the suffix and every source begun by its end goes on with the suffix |
| AppendIdempotence.HostLiteralIsIdempotent | src/rewrite.rs:366-370 | the host literal is rewritten idempotently for every suffix without a backtick |
| Occurrences.Splits | src/literal.rs:776-806 | every text is what stands before, between and after the occurrences of a literal |
| Occurrences.ReplacedBetweenPieces | src/literal.rs:776-806 | an exact rule whose literal holds its first byte once replaces every occurrence and nothing else |
| Occurrences.InsertedBetweenPieces | src/literal.rs:784-798 | an appending rule inserts behind every occurrence that the insertion does not follow, and nowhere else |
| Occurrences.FirstReplaced | src/literal.rs:776-806 | for any literal: the first occurrence is replaced and what follows it rewritten on its own |
| Occurrences.OnePrefixed | src/literal.rs:784-798 | a prepending rule inserts before the only occurrence unless the insertion stands there |
| Html.StagesAreOnePass | src/rewrite.rs:393-403 | exact stages for distinct attribute heads, one after the other, equal one simultaneous insertion |
| Html.OrderDoesNotMatter | src/rewrite.rs:393-403 | the insertion depends on the set of heads only |
| Html.HtmlHeadsAreHeads | src/rewrite.rs:393-396 | the twenty boundary and attribute pairs are distinct and none begins another |
| Html.HtmlStagesAreOnePass | src/rewrite.rs:391-411 | the twenty stages in any order equal the one pass over the twenty heads |
| Html.HtmlStagesAreIdempotentExactlyWhen | src/rewrite.rs:391-411 | the stages are idempotent if and only if the base path is empty or keeps the root from being found again |
| MigMeta.RewriteMigMetaBaseUri | src/rewrite.rs:424-467 | the cursor loop terminates, stays in range and computes the splicing function |
| MigMeta.SkipAsciiWhitespace | src/rewrite.rs:483-487 | the position of the first byte that is not whitespace |
| MigMeta.SpliceChangesOnlyPayloads | src/rewrite.rs:424-467 | only payloads between equal quotes change, each into its rewriting; every other byte is kept in order |
| MigMeta.SpliceIsIdempotent | src/rewrite.rs:424-467 | idempotent for every payload function whose results hold no quote and are not rewritten again |
| MigMeta.PayloadCarriesBaseUri | src/rewrite.rs:469-481 | a rewritten payload had the legacy base URI, is the encoding of its metadata with that replaced, and reads as having the desired one |
| MigMeta.PayloadSettlesExactlyWhen | src/rewrite.rs:469-481 | rewritten payloads are final if and only if the desired base URI is not the legacy one, or no payload has that |
| MigMeta.MigMetaIsIdempotent | src/rewrite.rs:412-416 | the transform is idempotent for every non-empty base path |
| MigMeta.LetterCodecIsLawful | src/rewrite.rs:469-481 | some codec meets the law that the payload theorems ask for, and has a payload with the legacy base URI |
| PageResponses.AssignmentIsRewritten | src/rewrite.rs:424-467 | the name, whitespace, an equals sign, whitespace and a quoted payload: always found, whatever the whitespace and the quotes; the payload is rewritten and the rest of the page on its own |
| PageResponses.OtherUseIsPassed | src/rewrite.rs:432-445 | the name with anything else behind it is passed over, and the rest is rewritten on its own |
| PageResponses.UnclosedStringIsTheEnd | src/rewrite.rs:446-448 | from a string that is not closed on nothing is changed |
| PageResponses.PageWithoutNameIsKept | src/rewrite.rs:463-465 | nor on a page without the name |
| PageResponses.MetadataGetsBaseUri | src/rewrite.rs:412-481 | a payload whose first member `baseURI` is `/proxy/ys1000` is printed again with the base path in front of `/proxy/NAME` there and nothing else changed; every other payload is kept |
| PageResponses.WhitespaceIs | src/rewrite.rs:483-487 | the whitespace skipped is space, tab, line feed, form feed and carriage return |
| HtmlMigMeta.SpliceKeepsPage | src/rewrite.rs:391-420 | splicing the metadata of a page with nothing left to insert makes no new place to insert at |
| Profiles.ProfilesBuildUtf8Chains | src/rewrite.rs:348-422 | no profile fails to build, and all validate first and keep text well formed |
| Profiles.RewriteResponse | src/rewrite.rs:348-422 | a response of any profile in any chunks: output, or error, are those of the whole body; what the stages write is in the rows below |
| Profiles.HtmlResponseIsOnePass | src/rewrite.rs:391-420 | an HTML response is the one-pass insertion, with the legacy root replaced for kubekey and the metadata spliced for ys1000 |
| PageResponses.AttributeIsPrefixed | src/rewrite.rs:391-411 | behind any of five boundaries each of the four attributes that points to `/proxy/NAME/` gets the base path, and the two sides of the page are rewritten on their own |
| PageResponses.LegacyRootsBecomeBasePaths | src/rewrite.rs:386-390 | in a kubekey asset every legacy root becomes the base path and nothing else changes |
| BundleResponses.HostsAreSentBelow | src/rewrite.rs:365-371 | every bundle, told piece by piece: behind each `//${window.location.host}` in a template literal stands the base path and a slash, inserted unless it was there, and all else is kept |
| BundleResponses.HostIsSentBelow | README.md:53-53 | `//${window.location.host}/` becomes `//${window.location.host}BASE/` for every accepted base path BASE but the empty one, in the first stage of all three bundle profiles |
| BundleResponses.QuotedRootIsPrefixed | src/rewrite.rs:372-385 | a quoted `/proxy/ys1000/` gets the base path, in the stage for its quote |
| ConsoleResponses.StaticUrlIsPrefixed | src/rewrite.rs:355-363 | the static URLs of the extension, and of any, get the base path unless it stands before them |
| ConsoleResponses.SentenceIsReplaced | src/rewrite.rs:504-525 | each of four sentences of code is replaced, with the base path between the parts of its replacement |
| ConsoleResponses.RequestSentence | src/rewrite.rs:505-511 | the first sentence: URLs stay, paths go below the base path unless they are there, with their slashes collapsed |
| ConsoleResponses.RootedSentences | src/rewrite.rs:512-519 | the second and third, in plain and in escaped quotes: a path is put below the root only when it is not there |
| ConsoleResponses.SchemeSentence | src/rewrite.rs:520-524 | the fourth: only `http://` and `https://`, in any case, begin a URL |
| ConsoleResponses.BasenameIsRewritten | src/rewrite.rs:526-547 | a router basename in any of its four spellings, joined from nothing and any dotted names, is joined from the base path and a slash |
| ConsoleResponses.RootedPathIsGuarded | src/rewrite.rs:560-575 | the minified forms, plain and behind `return`: for every name the comparison with the base path is written, with that name in all its places |
| ConsoleResponses.CollapsedPathIsGuarded | src/rewrite.rs:576-583 | the minified form that first takes out repeated slashes |
| ConsoleResponses.LongerNameIsKept | src/literal.rs:434-446 | behind a letter, a digit, `_` or `$` none of the seven expression rules applies |
| ProfileIdempotence.BundlesAreIdempotent | src/rewrite.rs:365-371 | bundle responses are idempotent for every accepted base path |
| ProfileIdempotence.Ys1000FrontendIndexIsIdempotentExactlyWhen | src/rewrite.rs:372-386 | idempotent if and only if there is no base path |
| ProfileIdempotence.Ys1000FrontendIndexSettlesExactlyWhen | src/rewrite.rs:372-386 | with a base path: a body settles after one pass if and only if no two quoted proxy roots share a quote in it |
| ProfileIdempotence.SharedQuoteChangesTwice | README.md:248-250 | two proxy roots that share a quote, changed by a second pass under every base path but the empty one |
| ProfileIdempotence.KubekeyAssetIsIdempotentExactlyWhen | src/rewrite.rs:386-390 | idempotent if and only if the base path does not bring the legacy root back |
| ProfileIdempotence.BasePathBeginsLegacyRoot | README.md:248-250 | an accepted base path and a body for which kubekey assets change again |
| ProfileIdempotence.NamedProxyHtmlIsIdempotentExactlyWhen | src/rewrite.rs:391-411 | idempotent, for other names than kubekey, if and only if the root is not found again |
| ProfileIdempotence.Ys1000HtmlIsIdempotentExactlyWhen | src/rewrite.rs:391-420 | attributes and metadata together: with a base path, idempotent if and only if the root is not found again |
| ProfileIdempotence.BasePathBeginsLikeRoot | README.md:248-250 | an accepted base path and a body for which both HTML profiles change their output again |
| ConsoleIdempotence.ConsoleIsIdempotentExactlyWhen | src/rewrite.rs:355-363 | all thirteen stages, every accepted base path and extension: idempotent if and only if the base path keeps the static root apart |
| ConsoleIdempotence.BasePathIsStaticRoot | README.md:248-250 | a base path that every URL library which keeps it lets through, and a body that the whole console pipeline changes twice |
| ConsoleIdempotence.BasePathCompletesSource | README.md:248-250 | the same for a base path without the static root, which completes a source |
| StaticPrefixes.PrefixedIsIdempotentExactlyWhen | src/rewrite.rs:549-553 | the two prefix stages together: idempotent on all texts if and only if the static root is not in the base path closed by a slash and no source begun is completed |
| StaticPrefixes.NeverCompletedExactlyWhen | src/rewrite.rs:356-357 | which base paths complete a source: told by three beginnings and what stands before them |
| StageEffects.StageKeepsQuiet | src/literal.rs:247-255 | a stage leaves a text without matches of another stage when no match of that touches what it writes beyond what it has replaced |
| StageEffects.StageBecomesQuiet | src/literal.rs:776-806 | a stage whose matches do not touch its own replacements has nothing left to do after one pass |
| ConsoleRewrites.StagesKeepAway | src/rewrite.rs:504-586 | of the eleven stages that rewrite code none writes what it or an earlier one would match, whatever the accepted base path, the expression matched and the text around |
| ConsoleSettling.OnePassSettles | src/rewrite.rs:549-586 | after one pass of all stages the two prefix stages and the other eleven each find nothing to do |
| KubekeyPages.KubekeyHtmlIsIdempotentExactlyWhen | src/rewrite.rs:391-411 | pages of kubekey: idempotent if and only if the base path keeps the legacy root and the proxy root apart |
| KubekeyPages.BasePathMakesRoot | README.md:248-250 | an accepted base path and a body of kubekey in which a proxy root is made and then prefixed |
| BasePath.ValidatePercentEncoding | src/config.rs:363-380 | the index loop accepts exactly when every percent sign begins an escape |
| BasePath.DecodeRepeatedly | src/config.rs:382-396 | the capped loop is decoding for at most 1024 rounds |
| BasePath.DecodingRemovesAscii | src/config.rs:386-393 | a round that changes anything removes at least two ASCII bytes |
| BasePath.CapIsNeverReached | src/config.rs:382-396 | up to 1024 characters the cap plays no part, and what is accepted is a fixpoint without percent signs |
| BasePath.DecodingSucceedsWhen | src/config.rs:382-396 | decoding succeeds exactly when every round is validly encoded UTF-8, and gives one of the rounds |
| BasePath.ForbiddenPersists | src/config.rs:348-355 | a forbidden character at one depth of decoding is there at the next |
| BasePath.DoubleSlashPersists | src/config.rs:324-324 | a double slash at one depth of decoding is there at the next |
| BasePath.DotSegmentPersists | src/config.rs:357-361 | a dot segment at one depth of decoding is there at the next |
| BasePath.AcceptedExactlyWhen | src/config.rs:305-342 | checking the first and last forms is checking every depth: acceptance if and only if all depths are clean |
| BasePath.AcceptedPathIsSafe | src/config.rs:305-342 | the path used is absolute, has no slash at its end and is clean at every depth of decoding |
| BasePath.AcceptedPathIsPlain | src/config.rs:333-342 | an accepted path is ASCII without quotes, backticks, backslashes or whitespace |
| BasePath.SimplePathIsAccepted | src/config.rs:305-342 | names of letters, digits and hyphens after single slashes are accepted as they are |
| BasePath.BasePathBegins | src/config.rs:312-314 | an accepted base path begins with exactly one slash |
| PercentEncoding.HexDigitsAre | src/config.rs:368-371 | the hexadecimal digits are `0` to `9`, `A` to `F` and `a` to `f` |
| PercentEncoding.DecodingUndoesEscaping | src/config.rs:382-396 | an escape stands for sixteen times its first digit and its second, digits of either case; bytes before the first percent sign stand for themselves |
| PercentEncoding.NestedComesToLight | src/config.rs:382-396 | what was escaped any number of times is there again after as many rounds, whatever stands around it |
| SafePaths.ForbiddenExactlyWhen | src/config.rs:348-355 | a text holds a forbidden character exactly when one of its scalar values is a control, `?`, `#`, a quote, a backslash, 0x2028 or 0x2029 |
| SafePaths.LongPathsAreRejected | src/config.rs:309-311 | paths of more than 1024 characters, counted as scalar values, are rejected as too long |
| SafePaths.DotSegmentExactlyWhen | src/config.rs:357-361 | there is a dot segment exactly when `.` or `..` is one of the parts between slashes |
| SafePaths.CleanExactlyWhen | src/config.rs:321-331 | clean is: no forbidden scalar value, no two slashes in a row, no part `.` or `..` |
| SafePaths.NothingIsHidden | src/config.rs:305-342 | an input in which anything that is not clean is escaped, to any depth, is not accepted |
| SafePaths.PathOfNamesIsAccepted | src/config.rs:305-342 | names of letters, digits and hyphens, a slash before each, are accepted as they are |
| SafePaths.UrlPathBytesAre | src/config.rs:333-339 | the bytes that a URL keeps in its path, in characters |
| Policy.DecideIsTheGrammar | src/rewrite.rs:173-266 | the router selects a profile and extension if and only if the path grammar does |
| Policy.AssetIsBelowDirectory | src/rewrite.rs:333-346 | an asset is what follows a directory named like the extension, with or without `-frontend` |
| Policy.TextAssetsEndInTheirSuffix | src/rewrite.rs:326-331 | looking at the last segment only is looking at the whole asset path |
| Policy.MoreRulesOnlySpecialise | src/rewrite.rs:181-265 | enabling rules never ends a rewrite and changes at most its profile, to a more specific one |
| Policy.RewrittenExtensionsAreEnabled | src/rewrite.rs:287-296 | the extension of a bundle or console rewrite is not disabled, is on the list if there is one, has 1 to 128 characters, a letter or digit first, and then only those, hyphens, underscores and dots |
| Policy.SafeNamesAre | src/rewrite.rs:317-324 | a name is safe exactly when it is of that form |
| Policy.EnabledBundlesAreRewritten | src/rewrite.rs:211-241 | conversely, every script right below a distribution of such an extension is rewritten, with the profile that its name and the rules call for |
| Policy.EnabledAssetsAreRewritten | src/rewrite.rs:243-265 | every asset below `/dist/v3dist/` of such an extension that ends in one of six suffixes is rewritten as a console asset |
| Policy.RewrittenBundleIsScript | src/rewrite.rs:211-241 | only such scripts are rewritten as bundles |
| Policy.RewrittenAssetIsText | src/rewrite.rs:243-265 | only such assets are rewritten for the console |
| Policy.KubekeyAssetsAre | src/rewrite.rs:180-209 | with the rule for them, exactly the scripts below `/proxy/kubekey/assets/` are rewritten as kubekey assets |
| Policy.PagesAreRewritten | src/rewrite.rs:180-209 | every path of ys1000 is a page, with metadata if there is a rule for that; of any other name exactly the paths that do not end in `.js` are |
| Policy.MethodsAre | src/rewrite.rs:174-178 | the methods are GET and HEAD, letter by letter in either case |
| Admission.ReachableStatesAreBalanced | src/proxy.rs:97-144 | in every interleaving permits are conserved, gauges count the requests between their increment and decrement, and permits are taken and given back once |
| Admission.AllIsGivenBack | src/proxy.rs:398-400 | when all requests are over all permits are free, and each permit taken was given back exactly once |
| Admission.QueuedGaugeIsZeroExactlyWhen | src/proxy.rs:118-130 | the gauge of queued rewrites returns to zero if and only if nobody was dropped in the line |
| Admission.DroppedRequestStaysCounted | src/proxy.rs:118-130 | a run of two requests after which all is over and the gauge stands at one |
| Admission.LimitsHold | src/proxy.rs:72-75 | never more running or waiting rewrites than the limits allow; the gauge of active rewrites is the number of those running, or just stopped or logged |
| Admission.FirstComeFirstServed | src/proxy.rs:118-130 | while a request waits, over any number of steps, nobody takes a permit but those who joined the line before it, and it keeps its place behind them |
| Admission.RefusedExactlyWhenFull | src/proxy.rs:97-116 | a request queues exactly when all permits are held, and is refused exactly when as many are queued as may be |
| Admission.SomeHolderCanGoOn | src/proxy.rs:120-128 | while a request waits, some permit holder can go on |
| Admission.EveryRequestCanEnd | src/proxy.rs:97-144 | no reachable state is a dead end: with at least one permit some run from there ends every request, without stopping or dropping any |

## Left out

- Pipelines.Pipeline.Push: that a later stage never fails is stated for bodies whose intermediate texts stay below 2^64 bytes; beyond that the counters of the literal stages overflow, as the model has it.
- Html.HtmlStagesAreOnePass: for base paths and names without boundary whitespace. Every accepted base path is one (`BasePath.AcceptedPathIsPlain`); a name comes from a URL path, which cannot hold whitespace either.
- BasePath.AcceptedExactlyWhen: `Url::join` is a parameter that says whether it leaves a path as it is; all that is asked of it is that it percent-encodes what a URL path must not hold.
- Growth.SmallBodiesNeverOverflow: the bound multiplies what each stage can make of one byte, so it says much for the profiles of one or a few stages and little for the twenty of a page or the thirteen of the console.
- MigMeta.PayloadCarriesBaseUri: base64 is known by its round trip and its alphabet, and JSON by one law: a base URI survives printing. That other members survive (numbers need not) is not claimed.
- ProfileIdempotence.Ys1000HtmlIsIdempotentExactlyWhen: without a base path the metadata is printed anew by each pass; whether that settles is up to the JSON library and is left open.
- Admission.ReachableStatesAreBalanced: a step system over values with one program counter per request, not methods over a shared heap; a semaphore hands a released permit to the oldest waiter; only waiting requests are dropped.
- Responses.FilterBody: the branches for a suppressed body and for a request without a rewriter, and the byte counters for metrics.
- What the JavaScript that the console stages insert means when it runs.
- Header editing, ETags, content types, compression and the HTTP sessions of Pingora.
- YAML parsing, socket checks, the admin endpoints, process start-up and the other metrics.
- How a `RewritePolicy` is put together: the wildcard for all extensions, and slashes cut off the end of its base path.
- `api_uri_with_base_path` and `metrics_extension_label`: settled by reading one expression.
