# Verified models of shared packages

A Dafny 4.11 model of the parts of this monorepo's shared packages that carry its hardest promises,
and proofs of those promises. `dafny verify dfyconfig.toml` checks all of it.

Texts are sequences of UTF-16 code units, as the programs see them, and buffers are sequences of
bytes. Hashes, ciphers and other supplied functions are parameters that are known by their laws
alone; where a proof rests on a hash, its conclusion names the two strings, among those actually
hashed, that would have to collide.

| modules | what they model |
|---|---|
| `Texts`, `Utf8Encoding`, `JsonStrings` | strings, numbers as text, UTF-8, JSON string literals (section 7 of RFC 8259) |
| `Canonical`, `CanonicalProofs`, `JsonReader` | the canonical JSON printer, and a reader that inverts it; members are ordered as in section 3.2.3 of RFC 8785 |
| `LengthPrefix`, `Structures`, `Receipts`, `Sealing`, `SealingProofs`, `Bindings` | the length-prefixed encoding, what labels are for, the receipt chain, sealing and opening, and what an envelope is bound to |
| `Ranges`, `UrlScan`, `UrlRedaction`, `UrlCut`, `UrlText` | text redaction by ranges, whole and cut texts |
| `Telemetry`, `TelemetryProofs`, `TelemetryReentry`, `TelemetryEffects` | starts, refusals and shutdowns of the SDK as a transition system with a call stack |
| `Disclosure`, `DisclosureProofs`, `DisclosureShapes`, `DisclosurePieces`, `DisclosureExact` | the absence-hazard decision, from the token language on |
| `Decimals`, `DecimalReading`, `StoredMessages`, `StoredMessageProofs`, `StoredProblems` | exact decimals, and the walk over a stored message |
| `LogScrub`, `LogScrubProofs`, `LogTokens`, `LogMessages`, `LogLiterals`, `LogLines`, `ErrorSerializer`, `ErrorTree`, `StackParts`, `StackSchemes` | scrubbing of messages, of serialised lines and of errors |
| `StartupOptions`, `StartupOptionProofs`, `OptionWords`, `OptionTrims`, `StatementTimeouts`, `DatabaseUrls`, `DatabaseUrlProofs`, `TimeoutRefusals`, `TimeoutReread` | startup options in a database URL |
| `Frames`, `FrameCuts` | length-framed stream decoding, however the stream is cut |

Each scanner is a method with the source's loop, proved against a rule or a function that does not
scan; what the source promises is then proved of the rule or the function.

## What the proofs found

- UTF-8 replaces lone surrogates, so texts that differ only in them are hashed alike. Two such scopes
  share every receipt chain (`Receipts.LoneSurrogateScopesShareChains`), two such entries can trade
  their receipts (`Receipts.ConfusedIdsTrade`), and two such labels are accepted although two
  kinds of structure are then encoded alike (`Structures.LoneSurrogateLabelsMeet`).
- A sparse array is not refused by the canonical printer: `[,]` and `[]` share a text, and such content
  does not open to what was sealed (`JsonReader.HolePrintsNothing`, `SealingProofs.SealThenOpen`).
- `seal` draws the salt before it builds the plaintext, so content that is refused then, because it is
  nested too deep once wrapped or too large, leaves the salt unzeroed (`Sealing.Seal`,
  `SealingProofs.DeepestRefusedOnceWrapped`).
- `releaseOnce` keeps the promise only once the call has returned, so a shutdown that calls back in can
  run the same part's shutdown a second time (`TelemetryProofs.ReentryRunsTwice`); nothing else can
  (`TelemetryReentry.SecondRunIff`).
- In a text cut right before a quoted JSON source, the dots that open the quote survive although the
  whole text would lose them, and nothing else does (`UrlCut.DotsSurviveCut`, `UrlCut.CutFailsClosed`).
- The shape of an instant allows one without seconds and with a numeric offset, such as
  `2024-01-01T10:00+02:00`. The positions of the seconds are then those of the offset's hour, which
  counts as generated although the offset is meant to be literal (disclosure.ts:130-135;
  `DisclosureShapes.ShortOffsetVaries`, and exactly when in `DisclosureShapes.ZoneKeptIff`).
- A digest needs a letter to be found, but its positions allow digits alone, so a refilling of it need not be
  found as one again (`DisclosureShapes.FillsIff`).
- A stack whose message ends in `bearer` is written with that word right before its first frame, which
  a second scrub would take for a token (`ErrorSerializer.HangingStack`).
- A frame size of -4 or less counts back from the end of what is buffered, so what it gives depends on how
  much has arrived (`FrameCuts.SizesBackChunksMatter`), except for -5, -6 and -7 at the very end of the
  stream (`FrameCuts.MinusFiveAlone`); the exact conditions are `FrameCuts.EndsAlikeIff` and
  `FrameCuts.ChunksDoNotMatterIff`. A size of -4 takes nothing off the buffer: where the process outlives
  the exception of the refused empty frame, the same frame is refused again with the next chunk
  (`FrameCuts.MinusFourRepeats`).
- Options that end in an open backslash, a `--` word or a flag that awaits its argument swallow the
  setting that is written after them (`StartupOptionProofs.SettingsWithIff`, `BackslashSwallows`,
  `FlagsEndSwallows`, `FlagSwallows`).
- Trimming can open a backslash that was closed: after `-c a=b\` and two spaces, the timeout written
  before a UTC option is never read (`DatabaseUrlProofs.EscapedSpaceLosesTimeout`). Options such as
  `-- -c TimeZone=UTC` are kept as ending with UTC and set nothing (`DatabaseUrlProofs.UtcUnread`).

## Model

| member | source | states |
|---|---|---|
| `JsonStrings.StringRoundTrip` | packages/sealing/src/canonical.ts:32-33 | reading a written string literal gives the string back and leaves exactly what follows it, for every string, lone surrogates included |
| `JsonStrings.QuoteWellFormed` | packages/sealing/src/canonical.ts:32-33 | a written literal is well-formed UTF-16 whatever string it states |
| `Canonical.SortSorts` | packages/sealing/src/canonical.ts:54-55 | the sorted keys of an object are strictly increasing in UTF-16 code unit order |
| `Canonical.SortKeepsKeys` | packages/sealing/src/canonical.ts:54-55 | sorting keeps exactly the keys |
| `Canonical.SortedDetermined` | packages/sealing/src/canonical.ts:54-55 | a strictly sorted list is determined by the keys in it, so insertion order cannot show |
| `CanonicalProofs.WriteIffSealable` | packages/sealing/src/canonical.ts:27-58 | the printer refuses a value exactly when it is nested too deep, holds a number that is no safe integer, or holds anything that is not plain data |
| `CanonicalProofs.NormalOfSameData` | packages/sealing/src/canonical.ts:53-57 | the same data, its members in whatever order, has one normal form |
| `CanonicalProofs.SameDataOfNormal` | packages/sealing/src/canonical.ts:53-57 | values with one normal form are the same data |
| `CanonicalProofs.WriteOfNormal` | packages/sealing/src/canonical.ts:27-58 | the canonical text depends on the normal form alone |
| `CanonicalProofs.NormalSorted` | packages/sealing/src/canonical.ts:54-56 | members are strictly sorted at every level of what is printed |
| `CanonicalProofs.WriteWellFormed` | packages/sealing/src/canonical.ts:27-58 | a canonical text never holds a lone surrogate, so its bytes determine it |
| `JsonReader.ValueRoundTrip` | packages/sealing/src/canonical.ts:27-58 | reading the canonical text of any value, whatever follows it, gives its members in key order and leaves what follows; read as JSON for values without an unassigned slot, and for all values when an item of no text is read as such a slot |
| `JsonReader.CanonicalRoundTrip` | packages/sealing/src/canonical.ts:23-58 | reading a canonical text as JSON gives the data back, and gives it with members sorted at every level, exactly when no array in it has an unassigned slot |
| `JsonReader.SameTextIffSameData` | packages/sealing/src/canonical.ts:23-58 | any two values the printer accepts have one canonical text exactly when they are equal as JSON data, member order aside, once every array of one unassigned slot alone is read as an empty one |
| `CanonicalProofs.WriteOfFolded` | packages/sealing/src/canonical.ts:45-47 | an array of one unassigned slot alone is printed as an empty one, at every level |
| `JsonReader.HolePrintsNothing` | packages/sealing/src/canonical.ts:45-47 | a sparse array is not refused: an unassigned slot prints as nothing, so two different values share a text |
| `Utf8Encoding.SameBytesIffSameScalars` | packages/sealing/src/sealing.ts:141 | two strings become the same bytes exactly when they are equal once lone surrogates are replaced |
| `Utf8Encoding.Utf8Injective` | packages/sealing/src/sealing.ts:141 | well-formed strings with the same bytes are equal |
| `Utf8Encoding.LoneSurrogatesShareBytes` | packages/sealing/src/sealing.ts:141 | any two lone surrogates become the same bytes |
| `LengthPrefix.LengthPrefixed` | packages/sealing/src/sealing.ts:138-147 | the loop computes the encoding of the parts in order, or refuses a part too long for its length |
| `LengthPrefix.EncodingInjective` | packages/sealing/src/sealing.ts:138-147 | two lists of parts, of any lengths, with the same encoding are the same list of byte strings |
| `LengthPrefix.LabelsSeparate` | packages/sealing/src/sealing.ts:110-147 | encodings under labels with different bytes never coincide, whatever follows the labels |
| `Structures.KindsApartIff` | packages/sealing/src/sealing.ts:110-131 | under accepted labels no two of the five kinds of structure are ever encoded alike, exactly when the associated-data label and the ciphertext label differ as bytes |
| `Structures.WellFormedLabelsApart` | packages/sealing/src/sealing.ts:110-131 | accepted labels without lone surrogates keep the five kinds apart |
| `Structures.LoneSurrogateLabelsMeet` | packages/sealing/src/sealing.ts:352-366 | labels that differ in a lone surrogate are accepted, and two kinds of structure are then encoded alike |
| `Structures.AlikeIff` | packages/sealing/src/sealing.ts:110-147 | two structures of one kind, each under any labels, accepted or not, are encoded alike exactly when the labels of that kind and every field the structure states are the same bytes, and revisions the same number |
| `Utf8Encoding.OwnBytesIff` | packages/sealing/src/sealing.ts:141 | a string has its bytes to itself exactly when it holds neither a lone surrogate nor U+FFFD |
| `Receipts.SameDigestExact` | packages/sealing/src/sealing.ts:211-215 | comparing a hex digest as bytes with any text accepts only that digest |
| `Receipts.VerifyReceiptChain` | packages/sealing/src/sealing.ts:598-613 | verifies exactly the chains in which every link follows from the one before, from the genesis to the trusted head; a broken link is the first that does not follow; a head mismatch is a sound chain that ends elsewhere; and it throws exactly where a link too long to encode is met with all before it in order |
| `Receipts.HeadDeterminesChain` | packages/sealing/src/sealing.ts:566-613 | two chains, even of two scopes, that verify to one head are the same byte for byte, or two different byte strings hashed for them have one hash |
| `Receipts.ChainUnique` | packages/sealing/src/sealing.ts:566-613 | without such a collision a second chain verifies to the head exactly when it is the same scope and links |
| `Receipts.SameChainEqual` | packages/sealing/src/sealing.ts:570-583 | for well-formed texts the same bytes are the same scope and the same list of links |
| `Receipts.LoneSurrogateScopesShareChains` | packages/sealing/src/sealing.ts:566-568 | two scopes named by lone surrogates verify exactly the same chains |
| `Receipts.NewestIndex` | packages/sealing/src/sealing.ts:636-638 | the map filled in chain order gives, for every entry, what a backward scan of the chain finds |
| `SealingProofs.LastForIsLast` | packages/sealing/src/sealing.ts:636-638 | that scan finds a link of the entry with no later one, and nothing only when the entry has no link |
| `Sealing.NewScheme` | packages/sealing/src/sealing.ts:352-366 | the tests on lengths and on the size of the set of labels let through exactly five labels that are non-empty, short enough and pairwise different |
| `Receipts.NewestAlike` | packages/sealing/src/sealing.ts:636-638 | chains that are the same byte for byte have the same newest link of an entry, unless some link names another entry whose id has the same bytes |
| `Receipts.PlainNeverConfused` | packages/sealing/src/sealing.ts:636-638 | that never happens to an id with neither a lone surrogate nor U+FFFD |
| `Receipts.ConfusedIdsTrade` | packages/sealing/src/sealing.ts:598-640 | where it does, two receipts can trade their ids: the chain verifies to the same head and the newest link of an entry is another |
| `Sealing.Registry.VerifyReceipts` | packages/sealing/src/sealing.ts:621-640 | succeeds exactly for chains that verify; the fresh handle is indexed by the newest link of each entry; all other handles are untouched, and the registry holds only what a verification established |
| `Sealing.Registry.TrustedReceiptsOf` | packages/sealing/src/sealing.ts:653-666 | succeeds exactly when the evidence names the scope's own genesis and its chain verifies to its head |
| `Sealing.Seal` | packages/sealing/src/sealing.ts:410-457 | the envelope is the one made from the values the buffers held before the call; once the plaintext is within its limit all three buffers are zero when the call ends, whether it succeeds or fails; content refused before that leaves the salt as it was |
| `SealingProofs.WrappedIff` | packages/sealing/src/sealing.ts:415-422 | there is a plaintext to encrypt exactly when the content fits one level deeper and its wrapper is within the limit |
| `SealingProofs.DeepestRefusedOnceWrapped` | packages/sealing/src/sealing.ts:415-422 | arrays nested as deep as the printer allows are printed as content and refused once wrapped, after the salt was drawn |
| `Sealing.Registry.Open` | packages/sealing/src/sealing.ts:482-559 | the outcome is that of the checks in their order on the unzeroed values, which the `Bindings` rows say one by one, while the content key and the plaintext are zero when the call ends |
| `SealingProofs.SealThenOpen` | packages/sealing/src/sealing.ts:410-457 | sealed content, whose receipt is the newest of its entry, opens to the same data exactly when it has no unassigned array slot |
| `SealingProofs.OpenRecomputes` | packages/sealing/src/sealing.ts:504-553 | a successful opening recomputed the digest of the stored bytes and the commitment of the content, and both are the newest receipt's |
| `Bindings.AssociatedDataIff` | packages/sealing/src/sealing.ts:369-378 | the associated data of two bindings is the same exactly when the label, scope, entry, submitter and key id are the same bytes and the revision the same number |
| `Bindings.OpensOnlyAsSealed` | packages/sealing/src/sealing.ts:482-559 | an envelope that opens under a binding was sealed under that binding and label, byte for byte, or the cipher gave something for other associated data than the sealing handed it, and the two are named |
| `Bindings.OtherBindingIsTampered` | packages/sealing/src/sealing.ts:75-84 | without that, an envelope whose receipts pass is refused as tampered with under every binding that differs in any field |
| `Bindings.ReceiptedIff` | packages/sealing/src/sealing.ts:489-511 | the receipts pass exactly when the version and key id fit, the verification is of this scope under this scheme, the entry's newest link is of this revision, and the digest recomputed from the stored bytes, the stored digest and the stored commitment are that link's |
| `Bindings.OpensIff` | packages/sealing/src/sealing.ts:482-559 | an opening gives a value exactly when the receipts pass and the envelope holds some salt and that value, whose recomputed commitment is the receipted one |
| `Bindings.NothingOpensUnvouched` | packages/sealing/src/sealing.ts:493-503 | without a verification of the scope under the scheme, or a newest receipt of the revision, nothing opens |
| `Bindings.OpenRefusedFor` | packages/sealing/src/sealing.ts:482-559 | which refusal an opening ends in, in the order of the checks: tampered, chain broken, receipt mismatch, what decrypting ends in, commitment mismatch |
| `Bindings.SealRefusedFor` | packages/sealing/src/sealing.ts:410-457 | sealing is refused as invalid exactly for content that cannot be written once wrapped or is too large, for its key exactly when the rest is in order and the key does not wrap, and otherwise for sizes alone |
| `SealingProofs.SameReceiptSameContent` | packages/sealing/src/sealing.ts:482-559 | two openings against receipts with the same bytes used the same stored bytes and gave the same data, or two strings hashed for them collide |
| `SealingProofs.OpeningDetermined` | packages/sealing/src/sealing.ts:482-559 | two openings of one entry under receipts that verify to one head agree on revision, key id, nonce, ciphertext, tag, wrapped key and content, and on the bytes of the scope, or a collision among the strings actually hashed, or a second entry id with the same bytes, is exhibited |
| `SealingProofs.HandlesAgree` | packages/sealing/src/sealing.ts:482-640 | the same for any two handles of one registry: what is in it was verified, so chains to blame exist if two openings with one head do not agree |
| `Ranges.UnionRanges` | packages/observability/src/url-redaction.ts:262-283 | the union is sorted and strictly apart and covers exactly the positions of the two lists |
| `Ranges.ApartDetermined` | packages/observability/src/url-redaction.ts:262-283 | a list of apart ranges is determined by the positions it covers, so the union is the only such list |
| `Ranges.RedactRanges` | packages/observability/src/url-redaction.ts:250-259 | the loop computes the text with each range replaced |
| `Ranges.ReplacedIsRendered` | packages/observability/src/url-redaction.ts:250-259 | that text is the kept characters and one mark per range, cell by cell |
| `Ranges.TakenCellsKeep` | packages/observability/src/url-redaction.ts:250-259 | every character outside the ranges is kept exactly once and in order, and none inside them is |
| `UrlScan.QueryStart` | packages/observability/src/url-redaction.ts:130-148 | finds the first start of a query or fragment in a run, by the rule at every position |
| `UrlScan.QueryRanges` | packages/observability/src/url-redaction.ts:173-192 | the ranges are apart and cover exactly the positions the query rule takes, run by run |
| `UrlScan.CredentialRanges` | packages/observability/src/url-redaction.ts:212-234 | the skip-ahead scan takes exactly what the rule takes when it is evaluated at every `://` |
| `UrlScan.EarlierQuoteEarlier` | packages/observability/src/url-redaction.ts:289-304 | once a closing phrase has a quote, every earlier phrase has its own quote earlier still, which is why the walk may leave |
| `UrlScan.JsonSourceEnd` | packages/observability/src/url-redaction.ts:289-304 | the backward walk, early exit included, returns the last closing phrase whose quote is after the opening one, or nothing when there is none |
| `UrlScan.JsonSource` | packages/observability/src/url-redaction.ts:328-338 | the quoted source runs from the first quote, or the dots before it, to the last phrase that closes it; in a cut text, to the end |
| `UrlRedaction.SourceDetermined` | packages/observability/src/url-redaction.ts:328-338 | the JSON rule finds one source at most in a text |
| `UrlRedaction.RedactAll` | packages/observability/src/url-redaction.ts:359-378 | the loop that clips and shifts the credential ranges around the replaced source yields exactly the text all rules together leave |
| `UrlRedaction.Provenance` | packages/observability/src/url-redaction.ts:359-378 | an original character reaches the output exactly when it is outside the quoted source, every credential, every bearer token and every query of the rewritten text; each once, and in order |
| `UrlCut.QueryFailsClosed` | packages/observability/src/url-redaction.ts:173-192 | every position before a cut that the query rule takes in the whole text is taken in the cut one |
| `UrlCut.CredentialFailsClosed` | packages/observability/src/url-redaction.ts:212-234 | likewise for passwords in user-info |
| `UrlCut.JsonTakesRest` | packages/observability/src/url-redaction.ts:328-338 | in a cut text the JSON rule takes everything from the first quote on |
| `UrlCut.CutFailsClosed` | packages/observability/src/url-redaction.ts:359-378 | a character that survives in the cut text survives in the whole one exactly when it is not one of the three dots before the first quote, that quote lying past the cut and its source being closed |
| `UrlCut.DotsSurviveCut` | packages/observability/src/url-redaction.ts:328-338 | a text whose dots survive when it is cut after them and do not when it is whole |
| `UrlText.RedactQueries` | packages/observability/src/url-redaction.ts:165-192 | computes the query rule alone on a text |
| `UrlText.QueriesIdempotent` | packages/observability/src/url-redaction.ts:165-192 | redacting the queries of an uncut text twice is redacting them once |
| `UrlText.Capped` | packages/observability/src/url-redaction.ts:384-390 | the kept part is a prefix within the limit that never ends between the halves of a pair, and is said to be cut exactly when the text is longer |
| `UrlText.RedactText` | packages/observability/src/url-redaction.ts:404-407 | every rule on the capped text, and an output of at most 22709 code units for a text of any length |
| `TelemetryProofs.StepKeeps` | packages/observability/src/telemetry.ts:206-331 | every step of a start, a refusal, a shutdown or a part's own code, re-entrant calls included, keeps the invariant that ties the module's variables, ledgers, fences and call stack together; what a step does is in the `TelemetryEffects` rows |
| `TelemetryProofs.ReachableHolds` | packages/observability/src/telemetry.ts:362-477 | the invariant holds in every reachable state |
| `TelemetryProofs.SdkHasItsLedger` | packages/observability/src/telemetry.ts:362-477 | the SDK is set exactly when its ledger is, never while a teardown is pending, and always the ledger of a committed start |
| `TelemetryEffects.InitBeginsIff` | packages/observability/src/telemetry.ts:362-373 | a call for a start begins a build, with an empty ledger, exactly when it is enabled and no SDK is kept, built or torn down; any other changes nothing |
| `TelemetryEffects.ShutdownTearsDown` | packages/observability/src/telemetry.ts:692-711 | in every reachable state a shutdown of a running SDK clears both variables and publishes a fence of its start whose tiers are the SDK's own shutdown, the pipelines and the releases; without an SDK it does nothing |
| `TelemetryEffects.ShutdownSettles` | packages/observability/src/telemetry.ts:291-331 | from every reachable state with an SDK there is a run in which the shutdown ends: the SDK's own shutdown, every pipeline and every release have run and settled, and a start is accepted again |
| `TelemetryEffects.AlwaysRestartable` | packages/observability/src/telemetry.ts:206-331 | from every reachable state there is a run to one in which a start is accepted |
| `TelemetryEffects.LedgerIsWhatWasOwned` | packages/observability/src/telemetry.ts:226-270 | until the next build, the newest start's releases and pipelines are what they were and what was owned into each since, in order; likewise what was deferred and activated |
| `TelemetryEffects.SettlesOnlyBy` | packages/observability/src/telemetry.ts:272-283 | a promise settles by its own settling, as that says, or rejected by its run throwing, and by no other step, and only once |
| `TelemetryEffects.StepIsLater` | packages/observability/src/telemetry.ts:206-331 | no step changes a settled promise, a start that is sealed or a fence that is over |
| `TelemetryReentry.ClearKept` | packages/observability/src/telemetry.ts:291-331 | whatever step is taken, a start or a tier never finds a part of its own running below it on the stack |
| `TelemetryReentry.SecondRunIff` | packages/observability/src/telemetry.ts:272-283 | a step begins a second run of a part exactly when it calls the part's shutdown from inside a run of it, before any run of it has returned; a fence never does |
| `TelemetryReentry.RunsAtMostOnce` | packages/observability/src/telemetry.ts:248-283 | over any run from the start, a part's real shutdown runs at most once exactly when no step calls it from inside itself |
| `TelemetryReentry.BuildFindsEachSettledOnce` | packages/observability/src/telemetry.ts:362-373 | and then the next build finds each part of the earlier starts run once and settled |
| `TelemetryProofs.ReentryRunsTwice` | packages/observability/src/telemetry.ts:272-283 | a reachable run in which an exporter whose shutdown calls back in is shut down twice: the promise is kept only after the call returns |
| `TelemetryProofs.BuildBeginsClear` | packages/observability/src/telemetry.ts:362-373 | no build begins before the fence of every earlier start is over, and the promise that fence itself was given by every release, and every pipeline of a committed start, has settled |
| `TelemetryProofs.ActivationsOnlyOnCommit` | packages/observability/src/telemetry.ts:466-476 | a refused start has run no activation, a committed one all of them |
| `TelemetryProofs.TiersInOrder` | packages/observability/src/telemetry.ts:291-298 | no tier is started before every member of the earlier ones has settled, the fence is clean exactly when every member succeeded, and it is over when no tier is left |
| `TelemetryProofs.FenceNeverSticks` | packages/observability/src/telemetry.ts:312-331 | a pending fence always waits for a promise that has not settled, or its tier can be seen to be settled |
| `Disclosure.ClassesOf` | packages/testing/src/disclosure.ts:157-175 | the loops compute, per position, the class of the last generated value that has one there; which classes those are is in the `DisclosureShapes` rows |
| `DisclosureProofs.ClassAtProper` | packages/testing/src/disclosure.ts:28-30 | a class of digits found at a position ends at a digit, so every class found has members |
| `DisclosureShapes.FillsIff` | packages/testing/src/disclosure.ts:32-42 | for each shape by its own pattern: a text of the length of a generated value fills its positions exactly when it has that shape itself, an instant with its year, separators and zone kept |
| `DisclosureShapes.ClassIsWhatCouldBe` | packages/testing/src/disclosure.ts:130-175 | a position of a generated value has a class exactly when another such value differs there, and the class is the characters those have there |
| `DisclosureShapes.RefillsIff` | packages/testing/src/disclosure.ts:156-175 | the refillings of a text are exactly the texts another run could write in its place, every generated value replaced by one of its shape |
| `DisclosureShapes.SentinelHazardIff` | packages/testing/src/disclosure.ts:95-123 | a string sentinel that is no identity is a hazard exactly when such a text holds it over a generated character |
| `DisclosureShapes.ZoneKeptIff` | packages/testing/src/disclosure.ts:130-154 | an instant's zone is literal exactly when the instant has seconds or no numeric offset |
| `DisclosureShapes.ShortOffsetVaries` | packages/testing/src/disclosure.ts:130-154 | an instant without seconds whose hour of the offset counts as generated |
| `Disclosure.FitsTemplate` | packages/testing/src/disclosure.ts:184-222 | the first position where a piece fits with its boundary and wordless flags and at least one generated character, or none when it fits nowhere |
| `Disclosure.PiecesOf` | packages/testing/src/disclosure.ts:296-341 | the loop computes the pieces of a token sequence |
| `DisclosurePieces.PiecesAreRuns` | packages/testing/src/disclosure.ts:296-341 | the pieces are exactly the longest runs of characters no condition or split interrupts, each with exactly the boundary and wordless conditions next to it |
| `DisclosurePieces.PiecesInOrder` | packages/testing/src/disclosure.ts:296-341 | their texts one after the other are the characters of the sequence, in order |
| `Disclosure.AbsenceHazard` | packages/testing/src/disclosure.ts:95-123 | reports that a pattern cannot be reduced, or a hazard exactly when a piece of a non-identity alternative fits |
| `DisclosureProofs.LiteralFitsIff` | packages/testing/src/disclosure.ts:184-222 | a text fits at a position exactly when some refilling of the generated positions holds it there across one of them |
| `DisclosureProofs.LiteralHazardIff` | packages/testing/src/disclosure.ts:95-123 | for a string sentinel that is no identity a hazard is reported exactly when some refilling contains it across a generated position |
| `DisclosureExact.PieceFitsIff` | packages/testing/src/disclosure.ts:184-222 | a piece with its boundary and wordless flags fits at a position exactly when some refilling holds it there, flags satisfied, over a generated character |
| `DisclosureExact.IrreducibleIff` | packages/testing/src/disclosure.ts:267-294 | a pattern is given up exactly when the groups at some point of its expansion take the alternatives past 256, and otherwise has as many as its groups multiply out to |
| `DisclosureProofs.ExpandExact` | packages/testing/src/disclosure.ts:282-294 | the expansions of a sequence with nested groups match exactly what the sequence matches |
| `DisclosureProofs.MatchInPieces` | packages/testing/src/disclosure.ts:296-341 | whatever a flat sequence matches, each alphanumeric character of the match lies in a piece that stands there, flags included |
| `DisclosureProofs.NoHazardMissed` | packages/testing/src/disclosure.ts:95-123 | whenever a pattern matches some refilling over a generated position, some expansion matches there, each that does has a piece that fits, and it makes the pattern hazardous unless that very expansion is an identity |
| `DisclosureProofs.QuantifiedCovers` | packages/testing/src/disclosure.ts:503-518 | any number of repetitions of a reducible atom is matched by the token it is reduced to |
| `DisclosureExact.QuantifiedIff` | packages/testing/src/disclosure.ts:503-517 | a quantified atom is given up exactly when a letter or digit stands in it at any depth |
| `DisclosureExact.RepeatedReads` | packages/testing/src/disclosure.ts:512-515 | a repeated condition leaves the pieces of a sequence as they are without it; whatever else is repeated separates the pieces before it from those after it |
| `Decimals.CanonicalDecimal` | packages/testing/src/stored-message.ts:179-192 | the canonical text of the literal a text is, or nothing when it is none |
| `DecimalReading.ReadIff` | packages/testing/src/stored-message.ts:174-182 | a text is read as a literal exactly when it is that literal written with a sign or none, digits with at most one point among or around them, and an exponent or none |
| `Decimals.SameCanonicalIffSameValue` | packages/testing/src/stored-message.ts:174-192 | two decimal literals have one canonical text exactly when they denote the same number, for all signs, zeros and unbounded exponents |
| `StoredMessages.Walker.Visit` | packages/testing/src/stored-message.ts:265-329 | the recursive walk appends the problems below a place, in order, and counts its leaves |
| `StoredMessages.StoredMessageProblems` | packages/testing/src/stored-message.ts:214-333 | the list of problems is that of the rules, the top level, the walk and the leaf count |
| `StoredMessageProofs.WordsAreRuns` | packages/testing/src/stored-message.ts:176-203 | the words searched are the maximal runs between separators, all of them and nothing else |
| `StoredMessageProofs.SameNumberIff` | packages/testing/src/stored-message.ts:244-251 | a word's canonical text is a marker's exactly when both state the same number |
| `StoredMessageProofs.NoProblemsIff` | packages/testing/src/stored-message.ts:214-333 | no problem is found exactly when the rules are usable, the message conforms to its shape at every depth with no extra or missing key, and no key or leaf at any path carries a text marker, a number a marker states or a near one, save instants where the shape designates them |
| `StoredProblems.ProblemListedIff` | packages/testing/src/stored-message.ts:214-333 | a problem is in the list exactly when it is true: of the rules, of the message, or of the value, shape and key at the very path it names |
| `StoredProblems.PinnedIff` | packages/testing/src/stored-message.ts:60-85 | a pin to a value accepts that value alone, and nothing at all when it is not a string, a truth value or a number that is one |
| `StoredProblems.FitsIff` | packages/testing/src/stored-message.ts:306-322 | a leaf fits exactly when it may stand where one of the designated kinds may: an instant where strings are, and no number that is not finite |
| `StoredProblems.ExemptIff` | packages/testing/src/stored-message.ts:323-324 | a leaf is left unsearched exactly when it is a strict instant where instants are designated |
| `StoredProblems.StrictInstantIff` | packages/testing/src/stored-message.ts:35 | a leaf is an instant exactly when it has the general shape of an instant with seconds, at most six digits of a fraction, and `Z` |
| `LogScrub.ScrubConnectionStrings` | packages/logging/src/redaction.ts:158-192 | the one-pass scan computes the text with each connection string's password replaced |
| `LogScrub.ScrubAuthSchemes` | packages/logging/src/redaction.ts:206-237 | the one-pass scan computes the text with each bearer or basic token replaced; which characters those are is `LogTokens.AuthPlaceIff` |
| `LogScrubProofs.ConnPlaceIff` | packages/logging/src/redaction.ts:158-192 | a character is removed exactly when it is in a password by the rule at some `://` |
| `LogScrubProofs.ConnsIdempotent` | packages/logging/src/redaction.ts:158-192 | scrubbing connection strings twice is scrubbing them once |
| `LogScrubProofs.AuthsGone` | packages/logging/src/redaction.ts:206-237 | no token after a scheme is left in the result, whatever the text |
| `LogTokens.AuthPlaceIff` | packages/logging/src/redaction.ts:206-237 | a character is removed exactly when it lies in the whitespace, the maximal run of token characters or the `=` after it, of a scheme on a word boundary that no such token before it covers |
| `LogTokens.RemovedCharacters` | packages/logging/src/redaction.ts:206-237 | every character removed with a token is whitespace, a token character or `=` |
| `LogScrubProofs.AuthsIdempotent` | packages/logging/src/redaction.ts:206-237 | scrubbing tokens twice is scrubbing them once |
| `LogScrubProofs.ScrubFixesIff` | packages/logging/src/redaction.ts:256-260 | both passes leave a text as it is exactly when it has no token and no password but the replacement, so both passes together are idempotent |
| `LogScrubProofs.ConnsLocal` | packages/logging/src/redaction.ts:158-192 | where whitespace ends the first part, scrubbing two parts together is scrubbing each |
| `LogScrubProofs.PlaceTrue` | packages/logging/src/redaction.ts:158-237 | a character that survives stands in the result where it is said to |
| `LogScrubProofs.PlaceOrdered` | packages/logging/src/redaction.ts:158-237 | the characters that survive keep their order, each once |
| `LogScrubProofs.CutHidesNothing` | packages/logging/src/redaction.ts:262-274 | after a cut at whitespace, every other character that survives scrubbing what is left would survive scrubbing all of it |
| `LogMessages.Head` | packages/logging/src/redaction.ts:269-274 | the text, or its longest prefix within the limit that ends after whitespace |
| `LogMessages.ScrubMessage` | packages/logging/src/redaction.ts:256-260 | cut, both passes, and cut again |
| `LogMessages.MessageIs` | packages/logging/src/redaction.ts:256-274 | a message that is short enough before and after scrubbing is all that scrubbing leaves of it; any other is the longest part of that which fits and ends after whitespace, and the marker |
| `LogMessages.MessageScrubbed` | packages/logging/src/redaction.ts:256-260 | whatever the message and the limit, the result has no token, no password but the replacement, and at most the limit and the marker |
| `LogMessages.MessageIdempotent` | packages/logging/src/redaction.ts:256-260 | scrubbing a message again changes nothing, marker included |
| `LogMessages.CutMessageHidesNothing` | packages/logging/src/redaction.ts:256-274 | cutting an over-long message first lets through no character but whitespace that scrubbing all of it would have removed |
| `LogLiterals.RewriteLiterals` | packages/logging/src/scrubbing-destination.ts:82-111 | the loop over the literals of a line computes what becomes of it, or finds that a literal is not closed or its body is bad |
| `LogLines.EscapeDecodes` | packages/logging/src/scrubbing-destination.ts:103-107 | a literal written anew states exactly the string it was written for |
| `LogLines.LineRewritten` | packages/logging/src/scrubbing-destination.ts:78-115 | read again, the line has the same text between its literals, and its k-th literal states the scrubbed string of the k-th before |
| `LogLines.RewrittenScrubbed` | packages/logging/src/scrubbing-destination.ts:78-115 | no string of a written line has anything left to scrub, or is longer than the limit and the marker |
| `LogLines.ScrubLine` | packages/logging/src/scrubbing-destination.ts:78-115 | a line is dropped exactly when it is too long before or after, refused exactly when it does not scan, and otherwise written within the limit, changed in its strings alone |
| `ErrorSerializer.SerializeError` | packages/logging/src/error-serializer.ts:96-138 | the recursion with its loops computes the bounded tree of an error graph |
| `ErrorTree.TreeHolds` | packages/logging/src/error-serializer.ts:96-138 | the tree holds exactly the places that at most three steps lead to, each to a cause or to one of the first ten members in order, and at each that very value: its scrubbed message followed by its causes', its stack and its allowed properties |
| `ErrorSerializer.ContinuedScrubbed` | packages/logging/src/error-serializer.ts:118-130 | a message continued with its cause's has nothing to scrub if neither has |
| `ErrorSerializer.SerializedTame` | packages/logging/src/error-serializer.ts:64-138 | every text of the tree is scrubbed and bounded, at every depth, a stack in its two halves |
| `StackParts.StackInParts` | packages/logging/src/error-serializer.ts:64-77 | a stack is taken apart into all before its first line that looks like a frame, and at most fifty lines from there on; only lines past those, and what lies past the scanned part, are dropped |
| `StackParts.ShortStackWhole` | packages/logging/src/error-serializer.ts:64-77 | a stack within both limits is its two parts joined, with nothing dropped |
| `StackSchemes.StackScrubbedIff` | packages/logging/src/error-serializer.ts:64-80 | told from the stack as it came: it is written with something left to scrub exactly when a scheme that scrubbing does not take hangs at the end of its message part, that part is not cut before or after it is scrubbed, and its first frame starts within the limit |
| `StackSchemes.ScrubKeepsHanging` | packages/logging/src/redaction.ts:158-237 | a scheme hangs at the end of a scrubbed text exactly when one hangs at the end of the text and is no part of a token that is replaced |
| `StackSchemes.FramesOpenIff` | packages/logging/src/error-serializer.ts:64-80 | scrubbed frames open with a character of a token exactly when the first frame starts within the limit |
| `ErrorSerializer.HalvesScrubbedIff` | packages/logging/src/error-serializer.ts:64-80 | the same from the scrubbed halves: a scheme ends the first, whitespace aside, and a character of a token opens the second |
| `ErrorSerializer.TwoLinesScrubbedIff` | packages/logging/src/error-serializer.ts:64-80 | the same of any two scrubbed texts on either side of a line end |
| `ErrorSerializer.HangingStack` | packages/logging/src/error-serializer.ts:64-80 | a stack that is written as it is and, scrubbed again as one text, would lose its frame |
| `ErrorSerializer.ErrorsBounded` | packages/logging/src/error-serializer.ts:64-138 | whatever is thrown, cycles included: at most 1464 nodes, every text scrubbed, and the joined message at most 16438 code units |
| `StartupOptions.StartupWords` | packages/config/src/database-session.ts:201-219 | the loop computes the words of an options text |
| `StartupOptions.SettingsIn` | packages/config/src/database-session.ts:233-254 | the loop, which passes over a word it took as an argument, reads exactly the settings a word-by-word reader does |
| `OptionWords.WordsIff` | packages/config/src/database-session.ts:201-219 | options are split into some words exactly when these words are written in them one after the other, separators and backslashes in a word escaped, separators between them, with at most one backslash left open at the end |
| `OptionWords.WordReads` | packages/config/src/database-session.ts:233-254 | a setting is read from a word exactly when it stands behind `-c` or `--` in it, other flags without an argument before that or not; the next word is awaited exactly behind a flag that ends the word |
| `OptionWords.AwaitedReads` | packages/config/src/database-session.ts:233-254 | the word a flag waits for is its argument, whatever it looks like |
| `OptionWords.SettingIs` | packages/config/src/database-session.ts:233-260 | an argument states the name before its first `=`, letter case and dashes ignored, and all that follows it |
| `OptionWords.SameNameIff` | packages/config/src/database-session.ts:256-258 | two names are read as one exactly when they are the same character by character but for ASCII case, a dash and an underscore being one |
| `StartupOptionProofs.SettingsWithIff` | packages/config/src/database-session.ts:201-254 | options with a setting added state the settings they stated and that one exactly when no backslash was open, no `--` word ended the flags and no flag awaited its argument |
| `StatementTimeouts.StatementTimeoutsIn` | packages/config/src/database-session.ts:186-193 | the values read for the timeout, and whether a mention is left unread |
| `StatementTimeouts.ValuesAreMentions` | packages/config/src/database-session.ts:186-193 | no more values are read than the name is mentioned |
| `DatabaseUrlProofs.ParsedJoined` | packages/config/src/database-session.ts:147-159 | a URL put together from parts is taken apart into the same base, pairs and fragment |
| `DatabaseUrlProofs.RewrittenReads` | packages/config/src/database-session.ts:140-177 | a rewritten URL states the new options and keeps base, fragment and every other non-empty pair, in order |
| `DatabaseUrlProofs.UtcIdempotent` | packages/config/src/database-session.ts:42-46 | `withUtcSession` is idempotent |
| `DatabaseUrlProofs.UtcFixesTimeout` | packages/config/src/database-session.ts:72-103 | `withUtcSession` keeps every URL that `withStatementTimeout` returns from its output |
| `DatabaseUrlProofs.UtcSettings` | packages/config/src/database-session.ts:42-46 | the server reads the words and settings the untrimmed options stated, and UTC after them, exactly when only separators were trimmed and what was left is complete |
| `DatabaseUrlProofs.UtcKept` | packages/config/src/database-session.ts:42-46 | for options that already end with UTC, which are kept: it is read after what comes before it, exactly when it starts a word, only separators follow it and what comes before ended no flags and left none waiting |
| `DatabaseUrlProofs.UtcUnread` | packages/config/src/database-session.ts:42-46 | options that end with UTC, are kept, and state no setting at all |
| `OptionTrims.TrimmedAppendedIff` | packages/config/src/database-session.ts:42-46 | trimming options and adding a setting: read as before and the setting last, exactly when all that was trimmed are separators and the rest is complete |
| `OptionTrims.InsertedIff` | packages/config/src/database-session.ts:101-103 | trimming the options before a last setting and writing one between: read as before with the new one second to last, under the same exact condition |
| `OptionTrims.TrimmedSettingsIff` | packages/config/src/database-session.ts:42-46 | of the settings alone: where only separators are trimmed, the setting is read after those of before exactly when what is left is complete |
| `OptionTrims.InsertedSettingsIff` | packages/config/src/database-session.ts:101-103 | of the settings alone, for a setting written before a last one |
| `OptionTrims.TrimmedCoincidence` | packages/config/src/database-session.ts:42-46 | where other whitespace is trimmed the settings can agree although the setting written is never read |
| `OptionTrims.TrimmedWordAlone` | packages/config/src/database-session.ts:42-46 | or although a word changes: why the other laws are on words too |
| `DatabaseUrlProofs.UtcSettingsAlone` | packages/config/src/database-session.ts:42-46 | of the settings alone, for a URL: where only separators are trimmed, UTC is added to those of before exactly when what was left is complete |
| `DatabaseUrlProofs.TimeoutSettingsAlone` | packages/config/src/database-session.ts:72-103 | of the settings alone, for a URL and a timeout, after all settings or before a UTC option |
| `StartupOptionProofs.TwoSettingsIff` | packages/config/src/database-session.ts:201-254 | two settings added are both read after the others exactly when the options were complete |
| `DatabaseUrlProofs.TimeoutUrlSettings` | packages/config/src/database-session.ts:72-103 | the server reads the words and settings the untrimmed options stated with the timeout last, or second to last before a UTC option, exactly when only separators were trimmed and what is left before the timeout is complete |
| `TimeoutRefusals.TimeoutRefusedFor` | packages/config/src/database-session.ts:72-103 | which refusal when: without a timeout a URL is returned, and unchanged, exactly when its options name none anywhere; with one it is refused when they name one that is not read, then when any that is read differs, and otherwise returned |
| `TimeoutRefusals.ReturnedTimeoutAgrees` | packages/config/src/database-session.ts:72-103 | whenever a URL is returned for a timeout, every setting of it read from the options that were given, and from those returned, is that number |
| `TimeoutRefusals.UnreadableFor` | packages/config/src/database-session.ts:140-177 | a URL is refused before its options are read exactly for a raw control character, a parameter that does not decode or a second options parameter, in the order of the checks |
| `DatabaseUrlProofs.EscapedSpaceLosesTimeout` | packages/config/src/database-session.ts:101-103 | complete options, with an escaped space before the UTC option, in which the timeout written is never read and an old value changes |
| `TimeoutReread.AcceptsOwnOutput` | packages/config/src/database-session.ts:72-103 | `withStatementTimeout` accepts its own output exactly when the options it wrote after were complete, and otherwise refuses it as a mention it cannot read; which other URLs it refuses is in the `TimeoutRefusals` rows |
| `StartupOptionProofs.BackslashSwallows` | packages/config/src/database-session.ts:201-219 | options of one backslash swallow a setting added to them |
| `StartupOptionProofs.FlagsEndSwallows` | packages/config/src/database-session.ts:233-254 | so do options of one `--` word |
| `StartupOptionProofs.FlagSwallows` | packages/config/src/database-session.ts:233-254 | and options of one flag that awaits its argument |
| `Frames.Connection.Data` | packages/testing/src/stub-kafka-broker.ts:162-184 | a chunk hands over the frames it completes, in order and up to the first the handler refuses, and keeps what is left |
| `Frames.FramedRoundTrip` | packages/testing/src/stub-kafka-broker.ts:168-177 | frames written one after another are the frames of the stream, with nothing left |
| `FrameCuts.EndsAlikeIff` | packages/testing/src/stub-kafka-broker.ts:162-184 | in a process that ends with the first refused frame, as one does by default, every split of a stream into chunks hands over the same frames, exactly unless a size of -4 or less is met with all before it accepted and gives a frame that is not empty |
| `FrameCuts.ChunksDoNotMatterIff` | packages/testing/src/stub-kafka-broker.ts:162-184 | in a process that outlives a refused frame, every split of any stream hands over the same frames and leaves the same rest exactly when each frame but perhaps the last is accepted; or, where a size of -4 or less is met, when all before it are accepted, its four bytes end the stream and it is -5, -6 or -7 |
| `FrameCuts.BytewiseAll` | packages/testing/src/stub-kafka-broker.ts:162-177 | in such a process every frame is handed over byte by byte, whatever the handler refuses |
| `FrameCuts.SizesBackChunksMatter` | packages/testing/src/stub-kafka-broker.ts:169-175 | any stream that opens with a size of -4 or less and goes on gives other frames or another rest when it is cut after that size, in such a process |
| `FrameCuts.MinusFourRepeats` | packages/testing/src/stub-kafka-broker.ts:169-182 | in such a process a size of -4 takes no byte: the empty frame is refused, and again with the chunk that follows |
| `FrameCuts.MinusFiveAlone` | packages/testing/src/stub-kafka-broker.ts:169-182 | the four bytes of a size of -5 alone: one empty frame and one byte left, however they are cut |

## Left out

- SHA-256, AES-GCM, RSA-OAEP, base64, the decoding of UTF-8 and `JSON.parse` on arbitrary text: known by the laws `Sealing.Lawful` and `Sealing.ParsesPlainData` state, nothing more.
- Timing: constant-time comparison, linear running time, clocks and time-outs.
- Receipts: `receivedAt` is its ISO text and a revision an integer; dates that are no dates are not modelled.
- Canonical numbers: `-0`, which prints as `0`, is not told apart from `0`.
- Sealing.Registry.Open: the salt buffer of a plaintext whose content cannot be printed again is not zeroed, as in the source.
- Objects with getters or a prototype of their own are the one value that is refused as other.
- Telemetry: modelled on values, a state and its steps, rather than on objects whose `shutdown` is replaced in place; exporter selection, instrumentations and diagnostics appear as steps that may refuse.
- Telemetry: `isOwned` and the choice `ownProcessor` makes between releases and pipelines; a step says which of the two a part is owned into.
- Redaction: `bearerRanges` is any sorted, apart list of ranges, and which characters past ASCII are letters or numbers is a parameter.
- Redaction: `redactUrl`, stack traces, attributes, the redacting span processor and sampler; they call what is modelled.
- Disclosure: the search for generated values in a text and the parser from a pattern's source to tokens; the values with their shapes and positions, and the tokens, are given.
- Disclosure: letter case is ASCII case.
- Disclosure: `expectNotDisclosed` and the metadata matchers.
- Stored messages: lower-casing, pinned patterns and nearness of floating-point values are parameters; the wording of problems, and how often one nearness is reported, are not modelled; arrays have no unassigned slots.
- Stored messages: `envelopeShape` and the pins of an envelope, which only build shapes.
- Logging: the key-based redaction paths, the envelope of a dropped line, the proxy around a destination and the containment of stream errors.
- LogLines.ScrubLine: takes the scrubbing of one string as a function; `LogLines.RewrittenScrubbed` is about the function that `LogMessages.ScrubMessage` computes.
- ErrorSerializer.SerializedTame: promises a stack in two scrubbed halves; when both together are scrubbed as one text is what `StackSchemes.StackScrubbedIff` says.
- Errors: each property is read once, and what a getter returns, or that it throws, is part of the graph.
- Options: `encodeURIComponent` and the decoding of a form component (section 2.1 of RFC 3986) are known by their round trip; a name's case is ASCII case.
- Options: `withDatabasePool` and the environment's budget checks.
- The broker's answers, held requests and the `Writer` and `Reader` of its fields: which frames `handle` reads without throwing is a parameter, of which it is known that they hold the ten bytes read first.
- FrameCuts.ChunksDoNotMatterIff: about a process that outlives an exception thrown in a `data` listener; by default such an exception ends the process, which is what `FrameCuts.EndsAlikeIff` is about.
- FrameCuts.BytewiseAll: likewise only where the process outlives that exception.
- FrameCuts.SizesBackChunksMatter: likewise only where the process outlives that exception.
- FrameCuts.MinusFourRepeats: likewise only where the process outlives that exception.
- FrameCuts.MinusFiveAlone: likewise only where the process outlives that exception.
- The services, the web application, seeds and configuration: wiring and input/output.
