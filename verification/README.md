# Verification of the ZoikoTax gates and tools

A Dafny model of the parts of the repository that promise something a finite test cannot settle: the
JSON Schema evaluator and alert generator for the NFR documents, the hostname-pattern intersection
behind the egress check, the content release steps and their four-eyes rule, the sealed release
manifest, the evaluation report's hash and counts, the demo report's apportionment, and the register
rewrite. `dafny verify dfyconfig.toml` checks everything.

## How it is laid out

| files | component |
|---|---|
| `Options`, `Orders`, `Json`, `JsonText`, `CanonicalJson`, `JsonPrinted` | optional values; sorting; JSON values; their text: escapes, tokens, a parser, compact and indented printing; the compact text written out member by member |
| `Pointers` | RFC 6901 pointers as the tool walks and prints them |
| `SchemaGraph`, `SchemaMeaning`, `SchemaEval`, `SchemaTheorems`, `SchemaFindings`, `SchemaReferences`, `SchemaTermination` | the evaluator: its store and `$ref` graph, keyword meaning, the finding list under a given stack, what an empty list means, what each finding means and where its path points, where references lead, how much stack it takes |
| `NfrDocuments`, `NfrServices`, `NfrGate` | the corpus dictionaries, service cards and resilience profiles, the cross-document gate |
| `AlertRules`, `AlertFile`, `AlertReading`, `AlertMeaning`, `AlertStability` | the rule generator; the file it makes as a whole; a rule's fields read back; what its expressions mean; when the text is the same on every run |
| `Globs`, `EgressPolicy` | pattern intersection and the Cilium policy check that uses it |
| `Governance`, `ReleaseSteps`, `ReleaseRuns`, `ReleaseProgress`, `Keyring` | four eyes, the release directory and its steps, what every run keeps, what a run has on file at its end, the development keyring |
| `Defects`, `ReleaseManifest`, `ManifestRecord` | release blockers, the sealed manifest, and what its JSON records |
| `ReportHash`, `ReportCounts` | the evaluation report |
| `Apportionment`, `ReportFixture` | rounding, chart geometry and regrouping of the demo report |
| `Register`, `RegisterLines` | the document register's hash clause and the draft rehash; the same said of lines and fields |

Code that changes state keeps that form: loops are loops with invariants, `SchemaStore`, `Intersection`,
`Workspace` and `KeyringFile` are classes, and `existingKeys` filters an array in place. Each such
method equals a function or predicate of its inputs, and the theorems are about that. What a function
computes is said a second time in plainer terms, by positions, characters, JSON members or literals, with
a theorem that both agree: `SchemaTheorems`, `SchemaFindings`, `ManifestRecord`, `ReleaseProgress`,
`AlertFile`, `AlertMeaning` and `RegisterLines` hold little else.

Python dictionaries are member lists in insertion order. Hash functions are parameters, assumed
injective where a theorem says so. A signature is a record that only an approve or sign step makes.
Regular-expression matching, float spelling and rounding, dates and key validity are parameters, and
dates are instants or day numbers.

## What the code does that its documentation does not say

Each of these is modelled as the code has it, with an input that shows it and the exact condition under
which code and promise agree.

- `const` and `enum`: Python's `==` makes `true` equal `1` (`TrueEqualsOne`); the comparison is JSON Schema's exactly where no boolean stands against a number (`PyEqVersusStandard`).
- `uniqueItems` compares printed text, so `[1, 1.0]` passes (`OneAndOnePointZeroAreUnique`); two items print alike exactly when they are equal by JSON Schema and write their numbers alike (`SameJsonVersusStandard`, `UniqueVersusStandard`).
- `1.0` is not an `integer` (`WholeFloatIsNoInteger`); the type test is JSON Schema's exactly for values that are not floats of whole value (`IntegerVersusStandard`).
- A finding's path is not escaped, so `validate` can report `/a/b` for a key `a/b` and the path names nothing (`SlashKeyLosesThePath`); a path reads back exactly when its keys are plain (`PathReadsBack`).
- A `$ref` with an empty key, `#/`, is taken for the whole file (`EmptyKeyIsPassedOver`); a reference leads where RFC 6901 says, whatever the files, exactly when none of its keys is empty (`LeadsAsWrittenIff`).
- Two SLOs record under one name exactly when their ids differ only in characters that are no letter and no digit (`SameNameIff`): `a-b` and `a.b` do.
- `rules_for` sorts a set of windows by duration only, and `60s` and `1m` have one duration (`SixtySecondsAndOneMinute`); for a corpus the gate passes, a service's file is the same on every run exactly when no SLO of the service burns over two windows of one duration (`RulesAreStableIff`).
- An egress entry with a harmless `matchName` hides a provider in its `matchPattern` (`MaskedProviderIsClean`); an entry is examined whole exactly unless it names two different patterns (`TakenIsAllNamed`).
- A SENIOR_APPROVER satisfies four eyes, although `content/README.md` asks for an APPROVER (`SeniorApproverSuffices`); code and document agree exactly unless the approvals are a separate author and senior approver without an APPROVER (`AgreesWithDocumentIff`).
- A new waiver under a used id can add a blocker (`ReusedIdCanAddBlocker`); it adds none exactly when it takes no cover away (`NewWaiverShrinksIff`).
- `exact_matches` counts NOT_APPROVED cases, whatever the docstring says, so `proposed_accuracy` can be two (`ProposedAccuracyCanBeTwo`); it exceeds one exactly when something is PROPOSED and exact NOT_APPROVED cases outnumber wrong PROPOSED ones (`ProposedAccuracyAboveOneIff`).
- `rehash_drafts` counts a document whose block has no hash line as changed and changes nothing (`NoHashLineStillCounts`); a second run counts nothing exactly when every stale document has a hash line (`SecondRunIsIdleIff`).

## Model

| member | source | states |
|---|---|---|
| Orders.SortForgetsOrder | docs/tools/build_release_manifest.py:90-95 | sorting by a total preorder without ties gives the same list for every order of the input |
| JsonText.StringRoundTrip | docs/tools/build_release_manifest.py:90-95 | reading an escaped string back gives the string, surrogate pairs and control characters included, whatever follows it |
| JsonText.LexRender | docs/tools/build_release_manifest.py:90-95 | tokens printed with any spacing that keeps words apart lex back to themselves |
| CanonicalJson.ParseInverts | docs/tools/build_release_manifest.py:90-95 | the recursive-descent parser recovers every well-formed value from its tokens and leaves the rest of the input |
| CanonicalJson.LoadsDumps | docs/tools/build_release_manifest.py:90-95 | parsing the canonical text gives the value back with its keys sorted |
| CanonicalJson.NormIffSame | docs/tools/build_release_manifest.py:90-95 | two values normalise to the same value exactly when they are the same document up to member order |
| CanonicalJson.DumpsDeterminesValue | docs/tools/build_release_manifest.py:90-95 | two values have the same canonical text exactly when they are the same document |
| JsonPrinted.DumpsIsPrinted | docs/tools/build_release_manifest.py:90-95 | the canonical text is the same document with its keys ascending, printed member by member with exactly the given separators |
| JsonPrinted.EscapesAre | docs/tools/build_release_manifest.py:90-95 | which characters are escaped in either mode, and which of them by a letter |
| JsonPrinted.HexIsLowerCase | docs/tools/build_release_manifest.py:90-95 | the hexadecimal digits of an escape are lower-case |
| Orders.LeqIsLexicographic | docs/tools/build_release_manifest.py:90-95 | keys are ordered as a prefix or by the first character that differs |
| CanonicalJson.LoadsAnyLayout | docs/tools/build_release_manifest.py:116-119 | any text that lexes to a document's tokens, however it is spaced and its strings escaped, parses to that document |
| CanonicalJson.RenderedIsLayout | docs/tools/build_release_manifest.py:90-95 | the tokens printed with any whitespace, in either escape mode, are such a text |
| CanonicalJson.MixedEscapesAreLayout | docs/tools/build_release_manifest.py:116-119 | a text that escapes the solidus and not the accent, which `json.dumps` never writes, is such a text |
| CanonicalJson.DumpsPrettyIsLayout | docs/tools/build_release_manifest.py:208-251 | the indented, sorted file that build writes is a layout of the normalised document |
| JsonPrinted.DumpsPrettyIsPrinted | docs/tools/build_release_manifest.py:208-251 | and is that document with its keys ascending, one item or member a line, two spaces further in at every level |
| ReleaseManifest.CheckManifest | docs/tools/build_release_manifest.py:102-113 | passes exactly when the recorded hash is the hash of the document without its hash field |
| ReleaseManifest.Assemble | docs/tools/build_release_manifest.py:130-205 | refuses or seals by the specification whose acceptance `AssembledIff` and whose content `AssembledRecords` state on the JSON itself |
| ReleaseManifest.OnlyConsultedDatesMatter | docs/tools/check_defects.py:74-149 | the count rests on no expiry but those of the waivers some open QA-SEV-2 defect names and that are in force for it |
| ManifestRecord.AssembledIff | docs/tools/build_release_manifest.py:130-205 | it goes through exactly when both snapshots are there, the three registers list entries of their shapes, no defect id repeats, every waiver reference is good, the timestamp reads, and so does every expiry that some open QA-SEV-2 consults |
| ManifestRecord.AssembledRecords | docs/tools/build_release_manifest.py:178-205 | in the manifest's own JSON, the registers are recorded and blocking_count is the number of places of `defects.list` whose status is OPEN and that are QA-SEV-1, or whose waiver id names no last-listed QA-REQ-0100 waiver with an expiry at or after `generated_at`; the hash is that of everything else |
| ReleaseManifest.BuildThenVerify | docs/tools/build_release_manifest.py:208-283 | what build writes, read back from its file, passes verify |
| ReleaseManifest.AnyLayoutStaysIntact | docs/tools/build_release_manifest.py:102-113 | re-formatting or re-ordering an intact manifest, in any spacing and any escaping, leaves it intact |
| ManifestRecord.ChangeIsReported | docs/tools/build_release_manifest.py:98-113 | under an injective hash, a manifest keeping an intact one's recorded hash passes exactly when it agrees with it on every other member |
| Defects.BlockingDefects | docs/tools/check_defects.py:123-149 | the loop returns exactly the blocking defects, in register order |
| Defects.TimeOnlyAddsBlockers | docs/tools/check_defects.py:78-83 | the blockers at an earlier instant are a subsequence of those at a later one |
| Defects.FreshWaiverOnlyRemovesBlockers | docs/tools/check_defects.py:123-149 | a waiver under a new id never adds a blocker |
| Defects.NewWaiverShrinksIff | docs/tools/check_defects.py:131 | a further waiver adds no blocker exactly when it does not take away the cover of an open QA-SEV-2 |
| Defects.ReusedIdCanAddBlocker | docs/tools/check_defects.py:131 | a concrete waiver under a used id that adds a blocker |
| Defects.WhatIsLeftOut | docs/tools/check_defects.py:133-149 | an open QA-SEV-1 always blocks, and an open QA-SEV-2 left out has a live QA-REQ-0100 waiver |
| Defects.CheckEntries | docs/tools/check_defects.py:91-120 | reports exactly the repeated ids and the bad waiver references |
| Defects.WaiverFindingIs | docs/tools/check_defects.py:104-120 | which finding a defect's waiver reference draws: unknown, on a QA-SEV-1, or of another requirement |
| Defects.CleanIffNothingDue | docs/tools/check_defects.py:91-120 | nothing is due exactly when ids are unique and every waiver reference is good |
| Defects.CleanRegisterBlocksByExpiryOnly | docs/tools/check_defects.py:106-149 | in a register that passes the gate a waived QA-SEV-2 blocks exactly once its waiver has expired |
| Pointers.JsonPointer | infra/tools/nfr.py:250-260 | the loop finds a value exactly when walking the unescaped tokens does |
| Pointers.UnescapeInvertsEscape | infra/tools/nfr.py:253 | `~1` then `~0` replacement inverts RFC 6901 section 4 escaping for every key |
| Pointers.UnescapeFixes | infra/tools/nfr.py:253 | unescaping leaves a token alone exactly when it contains neither `~0` nor `~1` |
| Pointers.PathReadsBack | infra/tools/nfr.py:175 | an unescaped path splits back into the keys it was made of exactly when every key is plain |
| Pointers.PlainPathResolves | infra/tools/nfr.py:250-260 | the printed path of plain steps leads to the value the steps lead to |
| SchemaGraph.SchemaStore.Load | infra/tools/nfr.py:88-94 | returns the named schema or refuses, with only true copies in the cache and none lost |
| SchemaGraph.SchemaStore.ResolveRef | infra/tools/nfr.py:96-107 | gives the node the reference names, or the refusal, as the specification of resolution does |
| SchemaGraph.TargetInScope | infra/tools/nfr.py:96-107 | a resolved reference is one of the finitely many nodes of the schema files |
| SchemaReferences.ReferenceLeads | infra/tools/nfr.py:96-107 | a reference written from a file name and keys leads to the member the keys name, in the named file or the current one; an empty key is passed over |
| SchemaReferences.LeadsAsWrittenIff | infra/tools/nfr.py:96-107 | it leads where it says, whatever the files, exactly when no key is empty |
| SchemaReferences.EmptyKeyIsPassedOver | infra/tools/nfr.py:100-104 | `#/` leads to the whole file and not to the member under the empty key |
| SchemaGraph.EdgeDescends | infra/tools/nfr.py:137-204 | an in-place edge to a node on no cycle leads to a node with strictly fewer nodes below it |
| SchemaMeaning.PyEqVersusStandard | infra/tools/nfr.py:146-149 | JSON Schema equality is Python equality plus booleans standing against booleans |
| SchemaMeaning.TrueEqualsOne | infra/tools/nfr.py:146-149 | `true` and `1` are equal to the code and different to the standard |
| SchemaMeaning.IntegerVersusStandard | infra/tools/nfr.py:120-121 | the `integer` test is the standard's exactly for values that are not floats of whole value |
| SchemaMeaning.WholeFloatIsNoInteger | infra/tools/nfr.py:120-121 | `1.0` is an integer to the standard and not to the code |
| SchemaMeaning.SameJsonVersusStandard | infra/tools/nfr.py:188-191 | two items are one document exactly when they are equal by the standard, no integer stands against a float, and equal floats are spelled alike |
| SchemaMeaning.UniqueVersusStandard | infra/tools/nfr.py:188-191 | a repeat is reported exactly when two items are equal by the standard and write their numbers alike |
| SchemaMeaning.OneAndOnePointZeroAreUnique | infra/tools/nfr.py:188-191 | `[1, 1.0]` repeats an item by the standard and passes here |
| SchemaMeaning.TextsFindRepeats | infra/tools/nfr.py:188-191 | comparing the sorted texts finds a repeat exactly when two items are the same document |
| SchemaEval.Validate | infra/tools/nfr.py:128-206 | for every value, schema and stack the recursive method over a caching store returns the specified finding list or refusal, stack overflow among them, ending the call early on a wrong type, and loses no cached schema |
| SchemaEval.ValidateObject | infra/tools/nfr.py:169-183 | the object part: missing names, then each member under its schema or as unexpected |
| SchemaEval.ValidateArray | infra/tools/nfr.py:185-194 | the array part: count, repeats, then each item under its path |
| SchemaEval.ValidateIf | infra/tools/nfr.py:199-204 | the conditional: the findings of the branch the test selects, none of the test's own |
| SchemaTheorems.ValidateDecides | infra/tools/nfr.py:128-206 | for every value, every schema and every stack, when a finding list comes back it is empty exactly when the value satisfies the schema's declarative meaning, and not empty exactly when the value violates it |
| SchemaTheorems.ValidateJudges | infra/tools/nfr.py:128-206 | with any stack, an empty list exactly when the value satisfies the schema's own members within that depth, findings exactly when it violates them, an exception otherwise |
| SchemaTheorems.EveryVerdictIsReached | infra/tools/nfr.py:128-206 | a value satisfies the schema exactly when some stack gives an empty list, and violates it exactly when some stack gives findings |
| SchemaTheorems.NeverBoth | infra/tools/nfr.py:128-206 | no value both satisfies and violates a schema, however deep the two arguments go |
| SchemaTermination.EnoughStack | infra/tools/nfr.py:137-206 | started where no in-place cycle can be reached, evaluation never needs more nested calls than one pass over the schema nodes for each level of the value, even when the schema recurses through properties or items |
| SchemaTermination.EnforceableGivesVerdict | infra/tools/nfr.py:137-206 | if the nodes it reaches use supported, well-shaped keywords, it always returns a finding list with that much stack |
| SchemaTermination.MeaningIsTotal | infra/tools/nfr.py:128-206 | on such schemas every value either satisfies or violates, and not both |
| SchemaTermination.TreeGivesVerdict | infra/tools/nfr.py:137-183 | a schema that refers to itself through its members meets those conditions, and gives every value a verdict |
| SchemaTermination.LoopStopsAtTheType | infra/tools/nfr.py:141-144 | and a value of another type still gets its finding, for the type test comes first |
| SchemaTermination.LoopRunsOut | infra/tools/nfr.py:137-197 | on a schema whose `allOf` refers to itself a string uses up any stack |
| SchemaFindings.FindingsAreSo | infra/tools/nfr.py:128-206 | every finding points at a value inside the document that breaks the rule it names of a schema node that is visited, and every exception but a full stack is a fault of a visited node |
| SchemaFindings.EnforceableIsEnforced | infra/tools/nfr.py:128-206 | where every node reached uses supported keywords of the right shape, the only exception is a full stack |
| SchemaFindings.FindingsResolve | infra/tools/nfr.py:101-260 | in a document with plain keys every path below the root resolves under `json_pointer`, whatever the schema |
| SchemaFindings.SlashKeyLosesThePath | infra/tools/nfr.py:175 | a schema and a value for which `validate` reports exactly the path `/a/b`, and that path resolves to nothing |
| NfrDocuments.DurationReadsBack | infra/tools/nfr.py:242-247 | a count of milliseconds, seconds, minutes, hours or days reads as n/1000, n, 60n, 3600n or 86400n seconds |
| NfrDocuments.TimedIff | infra/tools/nfr.py:242-247 | a text is a duration exactly when it is digits and then one of the five units |
| NfrDocuments.SpelledTwice | infra/tools/nfr.py:242-247 | sixty times as many seconds and as many minutes are one duration under two spellings |
| NfrDocuments.OfHolds | infra/tools/nfr.py:238-239 | a per-kind dictionary holds documents of the corpus and kind, each id once, none of the ids missing |
| NfrDocuments.OfCoversIff | infra/tools/nfr.py:238-239 | the dictionary covers every document of its kind exactly when no two different ones share an id |
| NfrDocuments.UniqueIdsCover | infra/tools/nfr.py:296-301 | with unique ids the dictionary is the corpus, document by document |
| NfrDocuments.CardIsLast | infra/tools/nfr.py:303 | with unique ids the card the service dictionary holds is the last one in the corpus |
| NfrDocuments.LastCardIs | infra/tools/nfr.py:303 | that is the card no later card of the service follows |
| NfrGate.DuplicateErrors | infra/tools/nfr.py:296-301 | reports exactly the documents with an earlier twin, and nothing exactly when ids are unique per kind |
| NfrServices.HighestIsTheClass | infra/tools/nfr.py:308-312 | a card's class is the most critical of its journeys in force exactly when it is the minimum the loop finds |
| NfrServices.OperatedToIff | infra/tools/nfr.py:308-312 | that minimum is the class of a journey no later one of its id follows, and no such journey has a class nearer C0 |
| NfrServices.CardSoundIff | infra/tools/nfr.py:304-332 | a card draws no complaint exactly when it is operated to its most critical journey, names each dependency once, and each dependency called from a C0 journey is none of the four forbidden kinds and, if one of the four stores, fails closed |
| NfrServices.ResilienceSoundIff | infra/tools/nfr.py:417-447 | a resilience profile draws no complaint exactly when its failures are those the card declares and, for C0, it has three zones, loses at most 60 s, recovers in 900 s, loses no evidence, and states every database, key service or object store called synchronously |
| NfrGate.SloProblems | infra/tools/nfr.py:334-383 | names exactly the rules an SLO breaks, stopping after the missing SLI |
| NfrGate.WindowProblems | infra/tools/nfr.py:365-369 | reports exactly the burn-rate windows that are not shorter or exceed the SLO window |
| NfrGate.ProfileProblems | infra/tools/nfr.py:385-406 | names exactly the rules a capacity profile breaks, placeholders resolved through the pointer walk |
| NfrGate.AllSloErrors | infra/tools/nfr.py:334-383 | the findings are exactly the broken rules of the SLOs in the dictionary |
| NfrGate.SloCleanIffHolds | infra/tools/nfr.py:334-415 | with unique ids, reading an SLO's references through the dictionaries is the same as asking the documents |
| NfrGate.CrossReferenceErrors | infra/tools/nfr.py:293-447 | no finding exactly when the corpus is sound: ids unique, the last card of every service sound, and every SLI, SLO, capacity profile and resilience profile sound against the documents and those cards |
| NfrGate.ApprovedRestsOnMeasurement | infra/tools/nfr.py:378-415 | in a sound corpus every approved SLO rests on an instrumented SLI, and a profile it names is approved, free of placeholders, benchmarked and lists its p99 threshold |
| AlertRules.RatioGroup | infra/tools/nfr.py:505-530 | the two loops emit one record per window, in order, then one alert per burn rate |
| AlertRules.RulesFor | infra/tools/nfr.py:481-572 | the loop writes the text whose groups and rules `RulesTextIsFile` states and whose absence `GeneratedIff` states |
| AlertFile.RulesTextIsFile | infra/tools/nfr.py:481-572 | the text is the head, then one group for each SLO of the service in the order of their ids, each listing, six spaces in, the rules its SLO and the SLI it names ask for: over every window once, shortest first, a record, and then an alert for every burn rate in order; or the one latency or zero alert |
| AlertFile.GeneratedIff | infra/tools/nfr.py:481-572 | there is a text exactly when the rules of every SLO of the service can be written |
| AlertReading.WindowFilledIn | infra/tools/nfr.py:509-510 | the window stands in the query wherever the placeholder stood, and nothing else changes |
| AlertReading.RecordIsLabelled | infra/tools/nfr.py:511-516 | a record rule's labels read back as the service, the SLO and its class |
| AlertReading.BurnIsLabelled | infra/tools/nfr.py:521-530 | and a burn-rate alert's, with its severity, its summary and its source |
| AlertReading.LatencyIsLabelled | infra/tools/nfr.py:537-547 | and a latency alert's, with how long it must hold |
| AlertReading.ZeroIsLabelled | infra/tools/nfr.py:551-566 | and a zero alert's, which must hold only for a positive time |
| AlertMeaning.RecordMeans | infra/tools/nfr.py:508-516 | a record rule's expression, unquoted and read with division before subtraction, is worth one minus good over valid at its window |
| AlertMeaning.BurnMeans | infra/tools/nfr.py:517-530 | a burn-rate alert's expression holds exactly when the recorded ratios over both its windows exceed its threshold |
| AlertMeaning.BarIsNear | infra/tools/nfr.py:506-518 | and that threshold is factor times (1 - target/100), up to the two roundings to ten places |
| AlertMeaning.AlertFiresOnErrors | infra/tools/nfr.py:505-530 | records and alerts together: the alert holds exactly when 1 - good/valid exceeds the threshold over the long and the short window |
| AlertMeaning.LatencyMeans | infra/tools/nfr.py:531-547 | a latency alert holds exactly when the histogram quantile exceeds the threshold in seconds |
| AlertMeaning.ZeroMeans | infra/tools/nfr.py:548-566 | a zero alert holds exactly when the counter's summed increase is positive |
| AlertMeaning.SameNameIff | infra/tools/nfr.py:468-469 | two ids give one metric name exactly when they differ only in what is no letter and no digit |
| AlertMeaning.NameIs | infra/tools/nfr.py:468-469 | a letter or digit of the id stays, and anything else becomes an underscore |
| AlertRules.AlertsReadEarlierRecords | infra/tools/nfr.py:505-530 | both ratios a burn-rate alert compares are recorded earlier in its group |
| AlertRules.GroupIsStableIff | infra/tools/nfr.py:507 | a ratio SLO's rules are the same for every walk of the window set exactly when its windows differ in duration |
| AlertRules.RulesForgetOrder | infra/tools/nfr.py:481-572 | the text is the same for every permutation of a corpus with unique ids and every set walk, when durations differ |
| AlertStability.RulesAreStableIff | infra/tools/nfr.py:481-572 | for a corpus the gate passes, the text of a service's file is the same for every two set walks exactly when no SLO of the service burns over two windows of one duration |
| AlertStability.SixtySecondsAndOneMinute | infra/tools/nfr.py:507 | an SLO that burns over `60s` and `1m` is such an SLO |
| AlertRules.SoundCorpusGenerates | infra/tools/nfr.py:450-572 | a corpus the gate passes never makes the generator miss a field, for any service |
| Globs.MeetGivesHost | infra/tools/check_manifests.py:97-117 | a yes comes with a hostname both patterns match |
| Globs.HostGivesMeet | infra/tools/check_manifests.py:97-117 | a hostname both patterns match makes the answer yes |
| Globs.IntersectIffShared | infra/tools/check_manifests.py:97-117 | true exactly when some hostname matches both patterns as written, letters compared without ASCII case and trailing dots of a pattern ignored |
| Globs.NoMeansNoHostInLabel | infra/tools/check_manifests.py:98-100 | a no also rules out every hostname under the single-label star |
| Globs.Intersection.F | infra/tools/check_manifests.py:103-115 | the memoised call returns the plain recursion's answer and fills only cells at or past its own |
| Globs.Intersection.MissesBounded | infra/tools/check_manifests.py:103 | at most (a+1)(b+1) bodies run |
| Globs.Intersect | infra/tools/check_manifests.py:97-117 | the whole function, memo included, is true exactly when a hostname matches both patterns as written, after at most (a+1)(b+1) bodies |
| EgressPolicy.CollectPatterns | infra/tools/check_manifests.py:270-275 | collects exactly the patterns of the FQDN and DNS entries |
| EgressPolicy.SelectsGoIff | infra/tools/check_manifests.py:148-150 | a selector selects Go exactly when its labels say the language go or one of the three binaries |
| EgressPolicy.TakenIsAllNamed | infra/tools/check_manifests.py:272-275 | an entry is examined whole exactly unless it names two different patterns |
| EgressPolicy.MaskedProviderIsClean | infra/tools/check_manifests.py:270-279 | a policy that names a provider in `matchPattern` draws no message |
| EgressPolicy.CheckPolicy | infra/tools/check_manifests.py:249-286 | the messages come in the specified order and number, exactly for the world entities, open CIDRs and shared hostnames, and the flag is exactly the deny clause |
| EgressPolicy.PolicyProblemsAre | infra/tools/check_manifests.py:256-279 | a message is in the list exactly when the policy is wrong in that way |
| EgressPolicy.CleanPolicyReachesNoProvider | infra/tools/check_manifests.py:256-279 | in a clean policy no hostname matches both a collected pattern of a Go workload and a provider pattern, under either star |
| EgressPolicy.CleanPolicyNamesNoProvider | infra/tools/check_manifests.py:256-279 | in a clean policy whose entries name one pattern each, nothing an entry names shares a hostname with a provider |
| Governance.CheckFourEyes | backend/internal/domain/content/governance.go:103-144 | the single pass accepts exactly the approvals with valid distinct people and keys, none the release key, an author and an approver |
| Governance.PersonIff | backend/internal/domain/content/governance.go:55-84 | a principal is accepted exactly when it is `kind:id`, the kind lower-case and none of the seven kinds of machine, and neither part empty or blank |
| Governance.FourEyesMeansTwoPeople | backend/internal/domain/content/governance.go:103-144 | passing gives an author and an approver who are two people with two keys, neither the release key |
| Governance.AgreesWithDocumentIff | backend/internal/domain/content/governance.go:103-144 | for every set of approvals the code's rule and the documented one agree exactly unless it is a separate author and senior approver with no APPROVER |
| Governance.SeniorApproverSuffices | backend/internal/domain/content/governance.go:103-144 | an author and a senior approver pass the code and not the documented rule |
| Governance.FourEyesForgetsOrder | backend/internal/domain/content/governance.go:103-144 | the verdict does not depend on the order of the approvals |
| ReleaseSteps.Workspace.ApprovalsFor | backend/internal/content/bundle/approval.go:256-270 | returns the claims exactly when every approval decodes and covers the manifest |
| ReleaseSteps.Workspace.Compile | backend/cmd/ztax-contentc/main.go:329-404 | the directory after a compile: the new manifest, and its approvals dropped if any covers other bytes |
| ReleaseSteps.Workspace.DiscardStaleApprovals | backend/cmd/ztax-contentc/main.go:690-701 | drops the approvals exactly when one does not cover the manifest, and touches no other bundle |
| ReleaseSteps.Workspace.Keep | backend/cmd/ztax-contentc/main.go:616-636 | keeps the approvals of the same digest by other signers, refusing an undecodable one |
| ReleaseSteps.Workspace.Approve | backend/cmd/ztax-contentc/main.go:555-646 | the directory after an approve: the filed list replaces the old one, or nothing changes |
| ReleaseSteps.Workspace.Sign | backend/cmd/ztax-contentc/main.go:445-550 | the directory after a sign: a seal over the manifest and its approvals when the rule allows, or nothing changes |
| ReleaseRuns.AlwaysConsistent | backend/cmd/ztax-contentc/main.go:388-701 | over every run, manifests sit under their id and approvals on file cover the manifest beside them, one per signer and role |
| ReleaseProgress.ManifestIffCompiled | backend/cmd/ztax-contentc/main.go:329-404 | over every run a bundle has a manifest on file exactly when some compile of the run was under its id |
| ReleaseProgress.ManifestIsLastCompiled | backend/cmd/ztax-contentc/main.go:386-390 | and it is the manifest of the last such compile |
| ReleaseProgress.CompileGoesAhead | backend/cmd/ztax-contentc/main.go:329-404 | after any run a compile of a named bundle goes ahead: its manifest is on file, approvals stay exactly if it is the manifest from before, and seals and other bundles are as they were |
| ReleaseProgress.ApproveGoesAheadIff | backend/cmd/ztax-contentc/main.go:555-646 | an approve step goes ahead exactly for a person in a role at an instant, with a manifest and a signature; then exactly the new approval joins the others but the one it replaces |
| ReleaseProgress.CompileAnywhere | backend/cmd/ztax-contentc/main.go:386-394 | from any directory, whoever wrote it, a compile keeps a bundle's approvals exactly if each decodes and is of the new manifest |
| ReleaseProgress.ApproveAnywhere | backend/cmd/ztax-contentc/main.go:555-646 | and an approve step goes ahead exactly when, besides, every stored approval decodes, and keeps exactly those of the manifest's bytes by anyone else or in another role |
| ReleaseProgress.SignAnywhere | backend/cmd/ztax-contentc/main.go:445-550 | and a sign step exactly when, besides, every stored approval decodes and is of the manifest |
| ReleaseProgress.OnFileIffStanding | backend/cmd/ztax-contentc/main.go:555-701 | an approval is on file after a run exactly when an approve step made it and no later step replaced it or compiled other bytes |
| ReleaseProgress.FilesAreInOrder | backend/internal/content/bundle/approval.go:185-210 | after any run an approvals file is in the order of its payloads, one per person and role, all about the bytes on file |
| ReleaseProgress.SignGoesAheadIff | backend/cmd/ztax-contentc/main.go:445-550 | a sign step goes ahead exactly when four eyes or an unapproved development bundle allow it, and leaves exactly that seal |
| ReleaseProgress.SealIffSigned | backend/cmd/ztax-contentc/main.go:445-550 | a bundle has a seal exactly when some sign step of the run went ahead for it |
| ReleaseProgress.SealIsLastSigned | backend/cmd/ztax-contentc/main.go:535-550 | and it is the seal the last of them left |
| ReleaseRuns.ApprovalsHaveAStep | backend/cmd/ztax-contentc/main.go:555-646 | every approval on file was made by an approve step of the run over exactly the manifest on file, unchanged since |
| ReleaseRuns.SealsHaveAStep | backend/cmd/ztax-contentc/main.go:445-550 | every seal was left by a sign step of the run |
| ReleaseRuns.EverySealHasFourEyes | backend/cmd/ztax-contentc/main.go:479-506 | over every run, a seal with approvals was preceded by an author's and an approver's approval of exactly the sealed bytes, two people, two keys, neither the release key, nothing recompiled between; one without arises only in development |
| ReleaseRuns.ProductionSealsHaveFourEyes | backend/internal/platform/kms/kms.go:293-321 | outside development no seal lacks the two people, and the in-process signer seals nothing there |
| ReleaseRuns.AcceptedMeansApproved | backend/internal/adapter/content/loader.go:104-203 | a production cell accepts only a manifest two people approved byte for byte |
| ReleaseRuns.SignedIsAccepted | backend/internal/adapter/content/loader.go:184-193 | what sign just sealed is accepted exactly with approvals or in development |
| ReleaseRuns.BatchForgetsOrder | backend/cmd/ztax-contentc/main.go:616-646 | filing the approvals of different signers in any order gives the same approvals file |
| ReleaseRuns.ApproveStepsForgetOrder | backend/cmd/ztax-contentc/main.go:555-646 | after any run, different signers may run their approve steps in any order: the directory ends up the same |
| ReleaseRuns.RunOfApprovals | backend/cmd/ztax-contentc/main.go:555-646 | a run of approve steps, refused ones included, leaves the directory with exactly the approvals of those that went ahead filed |
| ReleaseRuns.FileAllCount | backend/cmd/ztax-contentc/main.go:616-646 | after a batch everything added is on file and an older approval stays exactly if it survives all of them |
| ReleaseRuns.ReapprovingReplaces | backend/cmd/ztax-contentc/main.go:616-636 | approving again in a role replaces the earlier approval and nothing else |
| ReleaseRuns.ApprovalsOnFile | backend/cmd/ztax-contentc/main.go:616-701 | after any run there is at most one approval per principal and role, all over the current manifest |
| Keyring.FilterInPlace | backend/cmd/ztax-contentc/main.go:917-923 | the in-place filter leaves every key of another id, in order, at the front of the shared array |
| Keyring.RingIsLatest | backend/cmd/ztax-contentc/main.go:864-868 | after any run of keygens the ring is the last key generated under each id, oldest first |
| Keyring.RingIsUsable | backend/internal/platform/kms/kms.go:157-197 | that ring has one entry per id ever generated |
| Keyring.KeyringFile.Keygen | backend/cmd/ztax-contentc/main.go:829-930 | adds the key and keeps the file usable, or leaves an unusable file alone |
| ReportHash.CleanSameIffAgree | intelligence/tools/evaluate_gateway.py:350-360 | cleaned reports are the same document exactly when the reports agree outside volatile keys, at every depth |
| ReportHash.SameHashIffAgree | intelligence/tools/evaluate_gateway.py:363-367 | two reports have one hash exactly when they agree outside volatile keys |
| ReportHash.VolatileIff | intelligence/tools/evaluate_gateway.py:345-357 | a key is left out exactly when it is one of the two ids, the two times or the stamp, or has `latency` in it |
| ReportHash.HashIsOfTheRest | intelligence/tools/evaluate_gateway.py:350-367 | what is hashed is the compact ASCII text, keys in order, of a report that agrees with the given one and has no such key at any depth |
| ReportHash.CleanTwice | intelligence/tools/evaluate_gateway.py:350-360 | cleaning a cleaned report changes nothing |
| ReportHash.StampVerifies | intelligence/tools/evaluate_gateway.py:918-924 | re-hashing the stamped report gives the stamp |
| ReportHash.ReasonCountsAreHashed | intelligence/tools/evaluate_gateway.py:267-275 | reports with one hash count every reason code alike: stripping latency keys reaches none of that closed upper-case vocabulary |
| ReportCounts.EvaluateCoherent | intelligence/tools/evaluate_gateway.py:577-716 | a case carries a code exactly when it is PROPOSED or NOT_APPROVED, and the match flag is about that code |
| ReportCounts.EvaluateIs | intelligence/tools/evaluate_gateway.py:577-716 | which status a reply gets and which reason code it is counted under: refusals, the two errors, blank answers, malformed ones, unapproved ones and proposals |
| ReportCounts.StripIsBared | intelligence/tools/evaluate_gateway.py:382-392 | a stripped code is the code without the white space at its two ends |
| ReportCounts.FamilyIs | intelligence/tools/evaluate_gateway.py:827-838 | the family of `ontology:a/b` is `a` |
| ReportCounts.Tally | intelligence/tools/evaluate_gateway.py:822-825 | the counting loop gives each key that occurs its number of occurrences |
| ReportCounts.StatusCountsSumToTotal | intelligence/tools/evaluate_gateway.py:764-774 | the six status counts add up to the cases |
| ReportCounts.ReasonAndFamilyCountsSumToTotal | intelligence/tools/evaluate_gateway.py:817-850 | reason-code and family counts each add up to the cases |
| ReportCounts.PerClass | intelligence/tools/evaluate_gateway.py:419-475 | one row per class expected or proposed anywhere, in order, each with its three counts |
| ReportCounts.SharesOfCases | intelligence/tools/evaluate_gateway.py:456-463 | precision is the share of the cases answered with the class that expect it, recall the share of the cases expecting it that are answered with it, and of no cases zero |
| ReportCounts.RowTotals | intelligence/tools/evaluate_gateway.py:435-455 | over the rows tp sums to exact_matches, tp+fn to the cases, tp+fp to the cases carrying a code |
| ReportCounts.ProposedAccuracyAboveOneIff | intelligence/tools/evaluate_gateway.py:775-779 | the reported quotient, zero when nothing is PROPOSED, exceeds one exactly when something is PROPOSED and exact NOT_APPROVED cases outnumber wrong PROPOSED ones |
| ReportCounts.ProposedAccuracyCanBeTwo | intelligence/tools/evaluate_gateway.py:775-779 | two evaluated cases make it two, and the second alone makes it zero |
| ReportCounts.F1Identity | intelligence/tools/evaluate_gateway.py:456-463 | the harmonic mean of a row that counts something is 2tp/(2tp+fp+fn) and lies between precision and recall |
| ReportCounts.ReportedF1 | intelligence/tools/evaluate_gateway.py:429-463 | every row the code returns counts something, so every reported F1 is 2tp/(2tp+fp+fn), between precision and recall |
| ReportCounts.PercentileOrder | intelligence/tools/evaluate_gateway.py:405-411 | a percentile is one of the values, and a higher one is never smaller |
| ReportCounts.PercentileShare | intelligence/tools/evaluate_gateway.py:405-411 | more than the asked share of the values are at most the percentile and at least the rest are at least it |
| Apportionment.HalfUpIsNearest | intelligence/tools/report_fixture.py:137-142 | half-up rounding is off by at most half a unit, sends ties away from zero and keeps whole numbers |
| Apportionment.PipelineSegments | intelligence/tools/report_fixture.py:426-440 | the cumulative loop cuts the bar at the truncated cumulative shares |
| Apportionment.SegmentsTile | intelligence/tools/report_fixture.py:426-440 | segments run from 0 without gaps, each starting at the whole per mille the counts before it reach, none negative, summing to exactly 1000, each less than one from its exact share |
| Apportionment.SeparateSharesFallShort | intelligence/tools/report_fixture.py:426-440 | truncating each share by itself would lose part of the bar |
| Apportionment.Bars | intelligence/tools/report_fixture.py:408-424 | the two bar loops give each value its truncated share of the largest |
| Apportionment.PercentsAddUp | intelligence/tools/report_fixture.py:141-142 | n rounded percentages of a whole sum to 100 within 0.05 n |
| ReportFixture.Obligations | intelligence/tools/report_fixture.py:155-180 | one row per specification, numbered from one, with its amount and its dollars, at 1.08 to the euro, to the nearest cent |
| Apportionment.BarsFit | intelligence/tools/report_fixture.py:408-424 | the tallest bar is exactly 1000, none passes it, each is its exact share with the fraction dropped |
| Apportionment.BarsKeepOrder | intelligence/tools/report_fixture.py:408-424 | a larger value never gets a shorter bar |
| ReportFixture.RowIsNear | intelligence/tools/report_fixture.py:145-172 | a row's dollars are within half a cent of the unrounded conversion, and exact for whole cents not in euros |
| ReportFixture.RowsAreNumbered | intelligence/tools/report_fixture.py:155-180 | row ids rise |
| ReportFixture.TotalIsNear | intelligence/tools/report_fixture.py:145-172 | the total is within half a cent per euro row of the unrounded conversion |
| ReportFixture.RegroupingConserves | intelligence/tools/report_fixture.py:250-266 | group totals over any distinct keys that cover the rows add up to the whole |
| ReportFixture.Trend | intelligence/tools/report_fixture.py:250-266 | one point per assessed month, in order, with exactly its rows' ids and sum |
| ReportFixture.ByAuthority | intelligence/tools/report_fixture.py:349-364 | one figure per authority, largest first and ties by name, with exactly its rows' ids and sum |
| ReportFixture.FigureLists | intelligence/tools/report_fixture.py:250-364 | a figure lists the ids of exactly the rows of its month or authority, lowest first |
| ReportFixture.ThreeWaysOneTotal | intelligence/tools/report_fixture.py:293-364 | trend points, authority figures and the total figure tell one sum, within half a cent per euro row of the unrounded conversion |
| ReportFixture.FilingPipeline | intelligence/tools/report_fixture.py:228-247 | raises exactly on no obligations; otherwise four buckets, each listing exactly its obligations in order |
| ReportFixture.PipelineLists | intelligence/tools/report_fixture.py:216-247 | the four buckets by name: five statuses are filed whatever their date, the rest are overdue past theirs, and of the others two statuses are under review and the rest drafts; each shows its ids, their number and the nearest tenth of a percent |
| ReportFixture.PipelinePartitions | intelligence/tools/report_fixture.py:216-247 | bucket counts add up to the obligations and every id is listed as often as it occurs |
| ReportFixture.PipelineChart | intelligence/tools/report_fixture.py:228-440 | the pipeline's segments tile the bar and its four percentages sum to 100 within 0.2 |
| Register.RehashDrafts | docs/tools/check_registry.py:351-381 | raises exactly when a stale document has no entry; otherwise counts the stale documents, changes only the first hash line of their blocks, keeping every other line and the count, and writes each its new hash |
| RegisterLines.RunRewrites | docs/tools/check_registry.py:351-381 | of the lines themselves: a run fails exactly when a DRAFT or PROPOSED document with another hash than its file opens no line; otherwise it counts such documents, changes no line but their hash lines, and with distinct ids makes each say `sha256:` and its file's hash |
| RegisterLines.SpotIs | docs/tools/check_registry.py:370-377 | a document's hash line is the first `publication_hash: ` line after the first line that is just its id, with no other entry between |
| RegisterLines.NoFindingIff | docs/tools/check_registry.py:152-165 | a document draws no hash finding exactly when it has neither source nor hash, or the hash is its source's |
| Register.RewrittenReads | docs/tools/check_registry.py:377 | a rewritten line is still a hash line and reads back as the new hash |
| Register.HashSpellings | docs/tools/check_registry.py:153-163 | a hash in double quotes, in single quotes or plain, with a comment after it or not, reads as the hash |
| Register.SpotsDiffer | docs/tools/check_registry.py:370-379 | documents with different ids have different hash lines |
| Register.SameSpot | docs/tools/check_registry.py:370-379 | rewriting hash lines never moves where another document's hash line is found |
| Register.RehashSettles | docs/tools/check_registry.py:153-163 | after a run a stale document with a hash line has no hash finding, and every other document reads as before |
| Register.SecondRunIsIdleIff | docs/tools/check_registry.py:351-381 | a second run over the register parsed from the first run's text never changes a line, and counts nothing exactly when every stale document had a hash line |
| Register.NoHashLineStillCounts | docs/tools/check_registry.py:377-379 | a stale document whose block has no hash line is counted as changed and the text stays as it was |

## Left out

- SchemaEval.Validate: the stack is a number of nested `validate` calls, where Python counts frames; a keyword value of the wrong shape is a refusal, where the original raises whatever Python raises or misreads it.
- CanonicalJson.LoadsDumps: floats are opaque lexemes, so respelling a number on re-parse, NaN and Infinity are not modelled; lone surrogates are not characters here.
- ReleaseRuns.EverySealHasFourEyes: steps are atomic and share one directory; a crash between two file writes or two tools at once is not modelled.
- Governance.CheckFourEyes: says whether the rule passes, not which error text is returned; key validity windows, PEM and the signatures themselves are opaque.
- ReleaseManifest.Assemble: of the two schemas it states what is read here and takes the rest as a predicate; which exception a refusal raises is not told apart.
- NfrGate.CrossReferenceErrors: takes cards as their schema shapes them, with at least one journey and classes C0 to C4; findings are said as the set of rules broken by each document, without order, repetition or text, and of two cards for one service only the last is looked at, as in the code.
- AlertRules.RulesFor: takes documents whose schema holds; the text of floats, their rounding and the file's head comment are parameters, so the thresholds' digits are not fixed.
- AlertMeaning.BurnMeans: expressions are read by the four operators the generator writes, outside brackets; what a query is worth is a parameter, queries are taken to balance their brackets, and a printed number to read as itself.
- Globs.IntersectIffShared: letters are compared without case over ASCII only; Python's `lower()` folds others too.
- Governance.PersonIff: the kind is taken to be in lower case over ASCII only.
- NfrDocuments.DurationReadsBack: a duration with a trailing newline, which the schema's `$` lets through and `duration_seconds` refuses, is outside the gate's model, where an unreadable duration counts as zero seconds.
- ReportCounts.F1Identity: ratios are exact rationals; the float arithmetic and the rounding to six places are not modelled.
- ReportCounts.ReportedF1: in exact rationals, as above.
- ReportFixture.ThreeWaysOneTotal: decimals are exact rationals and dates are day numbers; the 28-digit context, the seeded amounts, payments, shadow rows and the upcoming figure are left out.
- Register.RehashDrafts: the text is its list of lines and the parsed register is related to it through the first hash line of each block; a hash is read as a one-line YAML scalar, quoted or plain, with a comment or not, and YAML's escapes, quoted keys and multi-line scalars are not modelled.
- Files, git, subprocesses, YAML, flags, environment variables and message texts: they become parameters, results or problem names.
- Regular-expression matching in `pattern` and shape validation by `jsonschema`: abstract predicates.
- The evaluation report's normalised matches, evidence grade, prompt-hash list and usage fields: each is one expression over the cases, and no other modelled result depends on it.
- Fiscal arithmetic, the pack resolver, the tax pipeline, the services and the front end: not part of this model.
