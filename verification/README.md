# Dump imports, endpoint selection, release scripts and wake timers, verified

A Dafny model of the algorithmic cores of the repository, with proofs of what they promise.

* **The dump planner and importer** (`DumpSchema`, `DumpPlan`, `DumpOrder`, `Database`, `DumpStages`, `DumpImport`,
  `DumpTarget`, over `Graphs`). `PlanOpsDump` is the planner with its loops; `Database` writes down SQLite's rules (NOT
  NULL, CHECK, PRIMARY KEY, UNIQUE, immediate FOREIGN KEY, each checked after every row write); `Target` runs the
  importer's statements against them. For every schema the planner accepts and every source database that keeps its
  rules, the whole import runs without a refused row write and ends at the source. `StagedIsConsistent` is the heart of
  it: any state between "every deferred column NULL" and "whole" keeps every rule. `DumpKeys` says what the planner
  leaves unasked of a foreign key; `DumpAccepts` (over `DumpAlike`) which schemas it must accept, and what of a table
  makes no difference to its plan.
* **The dump's texts and pages** (`RowCodec` over `Json`, `DumpPages`, `DumpHash`, `DumpVerify`, `Sha256` over `Fips180`
  and `Words`): the row and line encodings are bijections, a wide table's blocks reassemble to its rows, the hash does
  not depend on how a table was cut into pages and tells rows apart up to a digest collision, a verification in steps
  lets an import complete only when every table matches, whatever cursors it is sent, and the digest is FIPS 180-4.
* **SQL scanning** (`SqlScan`, with `SqlWriting`: the texts that scan are exactly the written ones), **endpoints**
  (`Endpoints`, `EndpointOrder`, `CanonicalPath`), **mail HTML** (`MailHtml`, with `MailSpelling`: a body reads as a list
  of tokens exactly when it spells it), the **wake timer** (`WakeTimer`), **transitions** (`Transitions`), **release
  scripts** (`ReleaseOrder`, `UnifiedDiff`, `RegistryWait`), **contract canonical form** (`ContractArtifact` over
  `ContractCanonical`), **region locators** (`Region`) and **UUIDs** (`UuidV7`).

Loops are methods proved against functions or relations; what the source promises is then proved of those. Where a
property does not hold of every input, a lemma gives the exact condition: `UuidV7.RisesIffSteady`,
`ContractCanonical.OrderForgottenIff`, `Transitions.OrderForgottenIff`, `WakeTimer.FiringLosesIff`,
`DumpKeys.BackedIffNamed`, `DumpKeys.DeferredStoredIff`.

Four places where the code and what is written about it differ, the model following the code:

* A foreign key "without the named key" is documented as refused (`ops.ts:627-629`), but of a key that names its parent's
  columns the planner only compares their number (`ops.ts:1608-1609`). `DumpKeys.NamedKeyUnchecked` is a schema with a
  plan whose key names a column its parent lacks; `DumpKeys.BackedIffNamed` shows that such keys are the only ones that
  can be without a parent key. The import theorem takes the backing of these keys alone from SQLite
  (`Database.Faithful`), which refuses row writes under any other.
* A stored generated column can be the child of a key into its own table, and the plan then lists it as deferred, though
  no UPDATE can set it (`import.ts:394-405`): `DumpKeys.GeneratedKeyDeferred`, with the exact condition in
  `DumpKeys.DeferredStoredIff`. `Database.Faithful` asks stored key columns only of tables that defer one.
* The wake timer can lose sight of an unseen wake: a timeout that fires into a refresh under way, or before jobs are
  attached, leaves a passed time in `#at` that keeps later `#lower` calls from arming (`WakeTimer.FiringIntoRefresh`,
  `WakeTimer.FiringBeforeAttach`). `WakeTimer.FiringLosesIff`: exactly these firings have a continuation, without another
  firing, that ends idle and unarmed with an unseen wake. The wake itself is never dropped (`WakeTimer.WakeIsHeld`).
* The ids of one millisecond sort in order only up to 4096 of them: the counter wraps at the next one.

Run `dafny verify dfyconfig.toml`.

## Model

| member | source | states |
|---|---|---|
| Graphs.ReachOf | packages/auth-core/src/ops.ts:1619-1630 | The worklist of one table ends with exactly the tables a non-empty walk of parent edges reaches |
| DumpPlan.CycleIds | packages/auth-core/src/ops.ts:1616-1638 | Every table's id is the least name among the tables that it reaches and that reach it, or its own |
| Graphs.CycleIdsAgree | packages/auth-core/src/ops.ts:1615-1638 | Two tables have one id exactly when they are the same or each reaches the other |
| DumpPlan.SomethingEligible | packages/auth-core/src/ops.ts:1648-1649 | While a table is unplaced, some unplaced table waits for nothing but its own cycle, so the throw is dead |
| DumpPlan.FirstToPlace | packages/auth-core/src/ops.ts:1645-1649 | The search always finds a table, and it is the first one by name that can be placed |
| DumpPlan.LoadOrder | packages/auth-core/src/ops.ts:1640-1654 | Returns an order whose every step is the first placeable table |
| DumpOrder.LoadOrderIsSafe | packages/auth-core/src/ops.ts:616-617 | Such an order holds every table once, after all its parents but those of its own cycle |
| DumpOrder.LoadOrderUnique | packages/auth-core/src/ops.ts:1640-1654 | There is only one such order |
| DumpSchema.ResolveForeignKeys | packages/auth-core/src/ops.ts:1602-1613 | Resolves all keys or none: a missing parent, an initially deferred, an empty or a key of the wrong width refuses |
| DumpAccepts.ResolvableIff | packages/auth-core/src/ops.ts:1602-1613 | A table's keys resolve exactly when each has a known parent, is not initially deferred, and has as many columns, at least one, as it names or as its parent's primary key has |
| DumpAccepts.KeysetNamesTheRowid | packages/auth-core/src/ops.ts:1592-1600 | A table is read by the column that aliases its rowid, else by a built-in name no column has; it cannot be read exactly when it is virtual, has no rowid, or has neither |
| DumpKeys.NamedKeyUnchecked | packages/auth-core/src/ops.ts:1606-1610 | A schema whose key names a column that its parent lacks gets a plan, whatever that name is |
| DumpKeys.BackedIffNamed | packages/auth-core/src/ops.ts:1602-1613 | In a planned schema every foreign key has a parent key behind it exactly when those that name columns do |
| DumpKeys.GeneratedKeyDeferred | packages/auth-core/src/ops.ts:645-655 | A generated column of a key into its own table is planned as deferred |
| DumpKeys.DeferredStoredIff | packages/auth-core/src/ops.ts:645-655 | A plan defers only columns its rows carry exactly when no key into the table's own cycle has a generated child column |
| DumpPlan.DescribeTables | packages/auth-core/src/ops.ts:634-641 | Describes every table, or names the first one by name that cannot be described |
| DumpPlan.PlanTable | packages/auth-core/src/ops.ts:645-655 | A table is planned exactly when it defers nothing or takes a temporary NULL; the plan lists its stored columns and, in order, those of keys into its own cycle |
| DumpPlan.PlanOpsDump | packages/auth-core/src/ops.ts:631-658 | The plan in load order, or the refusal with the first table refused, as a relation of the schema alone |
| DumpOrder.PlanIsDetermined | packages/auth-core/src/ops.ts:621-623 | Producer and importer, applying the rule to one schema, get one plan or one refusal |
| DumpOrder.PlanForgetsOrder | packages/auth-core/src/ops.ts:631-633 | The order the tables are listed in does not matter |
| DumpOrder.PlannedIffSupported | packages/auth-core/src/ops.ts:623-629 | A plan is given exactly when every table can be described and can hold its temporary NULLs |
| DumpAccepts.DeferredIff | packages/auth-core/src/ops.ts:645-648 | A column is deferred exactly when a key uses it whose parent is the table itself or leads back to it |
| DumpAccepts.AcyclicIsPlanned | packages/auth-core/src/ops.ts:621-629 | A describable schema without a cycle of foreign keys is planned and defers nothing |
| DumpAccepts.WaitingIsPlanned | packages/auth-core/src/ops.ts:1878-1890 | A describable schema is planned if the columns it defers are nullable, part of no primary key, among no key's parent columns and in no CHECK, beside nullable generated columns no CHECK names and indexes no NULL can clash in |
| DumpAccepts.OtherChecksPlanAlike | packages/auth-core/src/ops.ts:1880-1882 | What CHECKs read beside the deferred and the generated columns makes no difference to the plan or the refusal |
| DumpAccepts.HarmlessIndexPlansAlike | packages/auth-core/src/ops.ts:1883-1886 | Nor does an index that is not unique, or a whole unique one over stored columns |
| DumpAccepts.GeneratedPlansAlike | packages/auth-core/src/ops.ts:1878-1886 | Nor does a nullable generated column that no CHECK, index or key names |
| DumpStages.CheckStays | packages/auth-core/src/ops.ts:1880-1882 | A CHECK that holds of the source row holds of every stage of it |
| DumpStages.ClashStays | packages/auth-core/src/ops.ts:1883-1886 | Two stages clash in a unique index only where the source rows do |
| DumpStages.KeyStays | packages/auth-core/src/ops.ts:1887-1889 | A foreign key of a staged row is NULL or still finds its parent |
| DumpStages.StagedIsConsistent | packages/auth-core/src/ops.ts:1878-1890 | Every database of staged rows, with the parents its whole keys need, keeps every rule of every row |
| DumpImport.InsertedIsBare | packages/app/src/cloudflare/import.ts:328-359 | The columns and values an insert binds make the source row with its deferred columns NULL |
| DumpImport.LinkedIsWhole | packages/app/src/cloudflare/import.ts:394-405 | The columns a link update sets turn any stage of the row into the source row |
| DumpImport.UnlinkedIsWhole | packages/app/src/cloudflare/import.ts:396-398 | A row the link pass passes over is whole already |
| DumpTarget.PlanIsImportable | packages/auth-core/src/ops.ts:621-629 | An accepted schema's plan is all an import needs, beyond a faithful description |
| DumpTarget.Target.InsertRow | packages/app/src/cloudflare/import.ts:328-359 | Writes one bare row, answers whether a deferred key waits, and is refused exactly when the rowid is taken or a rule breaks |
| DumpTarget.Target.LinkRow | packages/app/src/cloudflare/import.ts:392-405 | Sets a row's deferred columns, unless all are NULL |
| DumpTarget.Target.Clear | packages/app/src/cloudflare/import.ts:268-276 | From any database that keeps its rules, empties every table without a refused row write, in any row order |
| DumpTarget.Target.LoadParts | packages/app/src/cloudflare/import.ts:312-317 | Loads every row in plan order without a refused row write |
| DumpTarget.Target.LinkParts | packages/app/src/cloudflare/import.ts:391-407 | Links rows in any order, repeated or not, without a refused row write, leaving each visited row whole |
| DumpTarget.Target.Import | packages/app/src/cloudflare/import.ts:287-414 | The load and a link pass over at least the waiting rows: no row write refused, and the database equals the source |
| DumpTarget.Target.Restore | packages/app/src/cloudflare/import.ts:268-414 | Over any target that keeps its rules, clearing, loading and linking refuse no row write and end at the source |
| RowCodec.Int64TextIff | packages/auth-core/src/ops.ts:1203-1205 | The integer texts accepted are exactly the decimal texts of the 64-bit integers |
| RowCodec.ReadRowValues | packages/auth-core/src/ops.ts:1454-1463 | Reads every item of an array or refuses the whole |
| RowCodec.ValueReads | packages/auth-core/src/ops.ts:1404-1452 | A valid value reads back from its tagged text, the negative zero and the infinities included |
| RowCodec.DecodesIffEncodes | packages/auth-core/src/ops.ts:504-512 | A text decodes to a row exactly when it is that row's encoding |
| RowCodec.EncodingIsInjective | packages/auth-core/src/ops.ts:498-506 | No two valid rows share an encoding |
| RowCodec.DocumentedForm | packages/auth-core/src/ops.ts:498-506 | The documented text of a row that holds a value of each kind |
| RowCodec.OtherSpellingIsRefused | packages/auth-core/src/ops.ts:508-512 | White space before any item of any row's encoding gives a text that parses to the same row and does not decode |
| RowCodec.LineDecodesIffEncodes | packages/auth-core/src/ops.ts:520-534 | A text decodes to a line exactly when it is that line's encoding |
| DumpPages.StatementsCover | packages/auth-core/src/ops.ts:434-441 | The statements' blocks are all columns in order, and none projects more than 100 result columns |
| DumpPages.ReadRow | packages/auth-core/src/ops.ts:445-457 | A row is read exactly when all blocks name its rowid and every pair is a value; cell c comes from the record of block c / 49 |
| DumpPages.ReadPage | packages/auth-core/src/ops.ts:430-459 | Reads exactly when the limit is one, the blocks are of one length and every row is readable |
| DumpPages.ReadTurn | packages/auth-core/src/ops.ts:421-429 | Over the same stored rows, a page is each row's rowid and then all its columns in order |
| DumpHash.FoldTableHash | packages/auth-core/src/ops.ts:543-548 | Folds the rows from a hash, or throws exactly for a text that is none |
| DumpHash.FoldResumes | packages/auth-core/src/ops.ts:539-542 | Folding goes on from where it stopped as if in one pass |
| DumpHash.PageIsNext | packages/app/src/cloudflare/import.ts:497-501 | The page after the last rowid starts with the next row, and skips and repeats none |
| DumpHash.ReadTable | packages/app/src/cloudflare/import.ts:459-484 | Pages of any sizes give the count and the hash of one pass |
| DumpHash.HashTellsRows | packages/auth-core/src/ops.ts:539-548 | As many rows with the same hash are the same rows, or the two folds digest different texts to one hash at some row |
| DumpHash.VerifiedIsSame | packages/app/src/cloudflare/import.ts:473-483 | Without such a collision, count and hash agree exactly when the loaded rows are the dump's, value for value |
| DumpVerify.ReadOn | packages/app/src/cloudflare/import.ts:459-484 | A step from a true cursor ends at a true cursor further on, within a page of its row bound and short of it only at the end, having read no more of a table than the manifest lists; it reports exactly the tables it finished, and a mismatch of a table that differs; its throw is dead |
| DumpVerify.Verification.Verify | packages/app/src/cloudflare/import.ts:422-489 | For any cursor: what was answered to it last is answered again, any other cursor not handed out clears the progress, and a mismatch after the start or the cursor handed out names a table that differs |
| DumpVerify.Verification.Answered | packages/app/src/cloudflare/import.ts:449-488 | From the start or the cursor handed out last, a step reports exactly the tables between where it started and where it stands, gets further, and goes on in no table it finished |
| DumpVerify.Verification.MayComplete | packages/app/src/cloudflare/import.ts:519-521 | The marker allows completion only when every table has the manifest's count and hash |
| DumpVerify.Verification.Write | packages/app/src/cloudflare/import.ts:408-410 | Writing rows forgets what was verified |
| DumpVerify.Verification.VerifyAll | packages/control/src/data-operations.ts:1290-1296 | Following the cursors from `null` ends, matches exactly when every table does, and then reports each table once, in order |
| DumpVerify.NotContinued | packages/auth-core/src/ops.ts:1918-1920 | No answer goes on in a table it finished, the answers a caller refuses |
| DumpVerify.AllMatchIffSame | packages/app/src/cloudflare/import.ts:473-483 | Without a collision every table matches the manifest of a dump exactly when every table's rows are the dump's |
| Sha256.RotateIsRotr | packages/auth-core/src/sha256.ts:73-75 | The signed result of `rotateRight` stands for the rotated word |
| Sha256.SigmasAreFips | packages/auth-core/src/sha256.ts:98-107 | The four mixing expressions stand for the functions of section 4.1.2 |
| Sha256.ChoiceIsFips | packages/auth-core/src/sha256.ts:105 | `(e & f) ^ (~e & g)` on signed numbers is Ch |
| Sha256.MajorityIsFips | packages/auth-core/src/sha256.ts:108 | The majority expression is Maj |
| Sha256.ScheduleStep | packages/auth-core/src/sha256.ts:100 | The mixed sum stays below 2^53 and its stored value is the sum modulo 2^32 |
| Sha256.RoundStep | packages/auth-core/src/sha256.ts:104-117 | The two sums of a round and the registers they make are those of section 6.2.2 |
| Sha256.FirstIsT1 | packages/auth-core/src/sha256.ts:106 | The five-term sum stays below 2^53 and reduces to T1 |
| Sha256.PaddedLengthIsLeast | packages/auth-core/src/sha256.ts:80-81 | The padded length is the least multiple of 64 that holds n + 9 bytes |
| Sha256.PadMessage | packages/auth-core/src/sha256.ts:81-87 | The padded array is section 5.1.1's padding of the message |
| Sha256.FillSchedule | packages/auth-core/src/sha256.ts:92-101 | The array filled in place is the message schedule of the block |
| Sha256.RunRounds | packages/auth-core/src/sha256.ts:102-118 | Sixty-four turns over eight variables are section 6.2.2's rounds |
| Sha256.CompressBlock | packages/auth-core/src/sha256.ts:91-122 | One block turns the hash array into the next hash value |
| Sha256.Sha256Hex | packages/auth-core/src/sha256.ts:78-125 | The text is the FIPS 180-4 hash of the message in hexadecimal |
| DumpHash.ShaGivesHashes | packages/auth-core/src/ops.ts:1197 | The modelled SHA-256 always gives a text the fold accepts as a hash, so the digest the dump's theorems ask for exists |
| SqlScan.SqlTokens | packages/auth-core/src/ops.ts:1770-1813 | Ends on every text with the tokens its grammar gives, or null for an unclosed quote or comment |
| SqlWriting.PieceScans | packages/auth-core/src/ops.ts:1770-1813 | A written word, quote, mark or comment scans to what it means, an identifier in double quotes, backticks or brackets to its undoubled text and a string literal to nothing, and what follows is scanned after it |
| SqlWriting.ScansIffWritten | packages/auth-core/src/ops.ts:1770-1813 | The texts that scan are exactly those written of such pieces, and their tokens are the pieces' meanings |
| SqlScan.UnquotedSql | packages/auth-core/src/ops.ts:1816-1845 | Ends on every text with its quotes and comments blanked |
| SqlScan.ScannersAgree | packages/auth-core/src/ops.ts:1769-1845 | Scanning the blanked text gives the tokens without the quoted names |
| SqlScan.UnquotedIsBare | packages/auth-core/src/ops.ts:1815 | In blanked text no quote opens and no comment starts anywhere |
| SqlScan.UnquotedTwice | packages/auth-core/src/ops.ts:1815-1845 | Blanking twice is blanking once |
| SqlScan.CheckNamesOf | packages/auth-core/src/ops.ts:1748-1767 | The loop that skips past each clause collects the clauses' names |
| SqlScan.CheckNamesComplete | packages/auth-core/src/ops.ts:1742-1747 | A name is listed exactly when some CHECK's parentheses hold it, nested ones included; null exactly when some CHECK never closes |
| SqlWriting.ClauseNames | packages/auth-core/src/ops.ts:1742-1747 | Wherever a CHECK is written, each word and each quoted identifier that its parentheses hold is listed |
| SqlWriting.NamesAreGiven | packages/auth-core/src/ops.ts:1742-1747 | Every name listed is that of a word or of a quoted identifier |
| SqlWriting.UnreadNamesNothing | packages/auth-core/src/ops.ts:1742-1747 | What string literals and comments say changes no name |
| Transitions.NeverFalls | packages/auth-core/src/ops.ts:154-161 | Between any two moments of a run the generation does not fall and a published generation keeps its mode |
| Transitions.DeliveryForgotten | packages/auth-core/src/ops.ts:154-161 | Requests delivered in any order, any number of times, end at the one of highest generation |
| Transitions.OrderForgottenIff | packages/auth-core/src/ops.ts:158-161 | The final state is independent of the order exactly when the highest generation carries one mode |
| CanonicalPath.CanonicalSegmentsAreInert | packages/auth-core/src/canonical-path.ts:10-27 | No segment of a canonical path decodes to a dot segment or to text with a separator |
| CanonicalPath.CanonicalIff | packages/auth-core/src/canonical-path.ts:10-27 | A path is canonical exactly when after its `/` every segment decodes, to no dot segment and no separator, and only the last may be empty |
| CanonicalPath.DecodedSeparators | packages/auth-core/src/canonical-path.ts:7-21 | A text decodes to a separator exactly when it holds one plain or as `%2f` or `%5c` in either case |
| CanonicalPath.DecodedDots | packages/auth-core/src/canonical-path.ts:63-66 | Replacing `%2e` finds exactly the segments that decode to dots alone |
| Endpoints.ParsePattern | packages/auth-core/src/endpoints.ts:188-221 | The segments of a pattern, or the first problem in it |
| Endpoints.PatternIsWritten | packages/auth-core/src/endpoints.ts:188-221 | An accepted pattern is well formed and its segments write the path it was read from |
| EndpointOrder.PatternIff | packages/auth-core/src/endpoints.ts:188-221 | The segments a canonical path is the pattern of are exactly the well-formed ones it is written of: literals, plain parameter names, a last wildcard |
| Endpoints.MatchSegments | packages/auth-core/src/endpoints.ts:247-270 | The loop's parameters, the last binding of a name staying |
| Endpoints.MatchesIffAdmits | packages/auth-core/src/endpoints.ts:247-270 | A path matches exactly when literals agree, parameters are non-empty and only a wildcard takes a rest |
| Endpoints.ParamsAreBound | packages/auth-core/src/endpoints.ts:255-268 | Every parameter is bound to the segment, or the joined rest, at its own place |
| Endpoints.CompareSpecificity | packages/auth-core/src/endpoints.ts:278-292 | The first segment kind that differs decides, then the length |
| Endpoints.SpecificityReverses | packages/auth-core/src/endpoints.ts:278-292 | Exchanging the patterns reverses the comparison |
| Endpoints.SpecificityTransitive | packages/auth-core/src/endpoints.ts:278-292 | The comparison is transitive, so a total preorder |
| EndpointOrder.NarrowerIsMoreSpecific | packages/auth-core/src/endpoints.ts:272-292 | A pattern that admits strictly fewer paths than another is the more specific one |
| Endpoints.LongestPrefixOf | packages/auth-core/src/endpoints.ts:233-241 | The longest reserved prefix the path lies under, if any |
| EndpointOrder.UnderIff | packages/auth-core/src/endpoints.ts:229-231 | A path lies under a prefix exactly when the prefix's segments start its own and it has more |
| Endpoints.Analyse | packages/auth-core/src/endpoints.ts:96-133 | Accepts exactly the tables with readable paths, distinct ids, no overlapping rows of one shape and valid prefixes; else the problems reported are those of the table, all of them |
| Endpoints.Select | packages/auth-core/src/endpoints.ts:135-169 | The loop's answer is the untied least competing row, or no endpoint |
| Endpoints.NeverTied | packages/auth-core/src/endpoints.ts:96-169 | In an accepted table two competing rows never tie |
| EndpointOrder.AmbiguousIffTied | packages/auth-core/src/endpoints.ts:76-81 | Two rows are refused side by side exactly when some request ties them |
| Endpoints.TieIsShape | packages/auth-core/src/endpoints.ts:243-245 | Two patterns that match one path with equal specificity have one shape |
| Endpoints.AcceptedSelects | packages/auth-core/src/endpoints.ts:135-169 | On an accepted table a canonical path gets the one least row among those that serve, match and lie under its prefix, and none exactly when there is none |
| EndpointOrder.SelectedIsNarrowest | packages/auth-core/src/endpoints.ts:135-169 | No row that competes with the selected one admits strictly fewer paths |
| Endpoints.AcceptanceForgetsOrder | packages/auth-core/src/endpoints.ts:96-133 | Acceptance does not depend on the order of rows and prefixes |
| Endpoints.AnswerForgetsOrder | packages/auth-core/src/endpoints.ts:135-169 | Nor does any answer of an accepted table |
| ReleaseOrder.Visitor.Visit | scripts/release.ts:227-240 | One visit either reports a real cycle or places the package after all it depends on, keeping the stack and what was placed |
| ReleaseOrder.PackageOrder | scripts/release.ts:223-242 | Reports a cycle exactly when the graph has one, along a path that holds it; else every package once, after its dependencies |
| ReleaseOrder.OrderedIsAcyclic | scripts/release.ts:223-242 | An order with every dependency earlier leaves no package that reaches itself |
| UnifiedDiff.FindHunks | scripts/release.ts:1056-1064 | The hunks are exactly the lines within the context of a change, ascending and with a line between any two |
| UnifiedDiff.WriteHunk | scripts/release.ts:1066-1081 | The loop writes the header and the body of the hunk |
| UnifiedDiff.BodyCounts | scripts/release.ts:1067-1068 | A hunk's body has as many old as new lines, the count its header gives |
| UnifiedDiff.BodyIsMinimal | scripts/release.ts:1069-1080 | A hunk keeps a line exactly as often as one did not change, and shows the old lines of a run before its new ones |
| UnifiedDiff.DiffApplies | scripts/release.ts:1050-1083 | Applying the entries to the old lines gives the new lines |
| UnifiedDiff.EntryReads | scripts/release.ts:1067-1080 | Every written line reads back as the entry it was written for |
| UnifiedDiff.Unified | scripts/release.ts:1050-1083 | Empty for equal texts, an error for a changed line count, else the diff of the found hunks |
| UnifiedDiff.DiffPatches | scripts/release.ts:1049-1083 | Patching the old text with the text of the diff gives the new text, each hunk taking exactly the lines its header counts |
| RegistryWait.LookUp | scripts/release.ts:945-960 | A round keeps, in order, exactly the names not at the version, with what they answered |
| RegistryWait.AwaitRegistryTag | scripts/release.ts:935-973 | Ends within 62 rounds, sleeps the backoff and never past the deadline, looks up exactly the unseen names, returns exactly when none is left and else throws them with their last answers |
| RegistryWait.PendingMeansUnseen | scripts/release.ts:943-961 | Nothing is pending exactly when every name was seen at or above the version |
| RegistryWait.SleepsAreBounded | scripts/release.ts:905-908 | The backoff and the deadline admit at most 61 sleeps |
| WakeTimer.WakeTimer.ProjectWake | packages/app/src/bun.ts:190-198 | Takes the write's step: the unseen wake is no later than before or than the projected one, and the watch is kept |
| WakeTimer.WakeTimer.StartRefresh | packages/app/src/bun.ts:201-226 | Starts a refresh only when none is under way, forgets no wake, and keeps the watch; else notes that another look is wanted |
| WakeTimer.WakeTimer.JobsWoken | packages/app/src/bun.ts:227-246 | The step after the jobs answered: the timer is armed no later than the wake they answered, a wake not found stays unseen with a look for it set and the next one twice as far, and the watch is kept |
| WakeTimer.WakeTimer.RefreshEnds | packages/app/src/bun.ts:209-215 | Ends the refresh, leaves a time set if another look was asked for, touches no unseen wake and keeps the watch |
| WakeTimer.OneRefreshAtATime | packages/app/src/bun.ts:201-218 | In every run, between two starts of a refresh the first one ends |
| WakeTimer.AnswerSetsTheTime | packages/app/src/bun.ts:227-246 | Once the jobs answered, the armed time is the soonest of the time set, the second look for a wake not found, and the wake answered |
| WakeTimer.AnsweredIsWatched | packages/app/src/bun.ts:243-274 | In every run, from the answer to the next start, firing or stop the timer is armed no later than the wake that was answered |
| WakeTimer.MissedIsWatched | packages/app/src/bun.ts:233-262 | Likewise the second look for a wake not found |
| WakeTimer.FiringAsksTheJobs | packages/app/src/bun.ts:201-226 | A timer that fires while idle with jobs attached asks them, with the wake it had not seen |
| WakeTimer.ArmedTimeNeverRises | packages/app/src/bun.ts:265-274 | Between starts of a refresh the armed time never rises |
| WakeTimer.NoKickAfterStop | packages/app/src/bun.ts:258-263 | No kick happens after `stop()` resolved |
| WakeTimer.StoppedIsQuiet | packages/app/src/bun.ts:258-275 | A stopped timer is never armed again and starts no refresh |
| WakeTimer.UnseenIsWatched | packages/app/src/bun.ts:164-275 | With no timeout firing into a refresh or before jobs are attached, an unstopped idle timer with an unseen wake is armed |
| WakeTimer.FiringLosesIff | packages/app/src/bun.ts:201-226 | From a watching, armed timer: a firing can be followed, with no other firing, by an idle unarmed state with an unseen wake, exactly when it fires into a refresh or before jobs are attached |
| WakeTimer.WakeIsHeld | packages/app/src/bun.ts:190-246 | In every run a projected wake stays unseen or with the refresh until the jobs answer one due by then or its time is over |
| WakeTimer.RefreshWatchesAgain | packages/app/src/bun.ts:220-247 | Starting a refresh with jobs attached drops a stale time, so the timer watches again |
| WakeTimer.ProjectionLowers | packages/app/src/bun.ts:190-198 | After a projection the armed time is no later than the wake it projected, or a retry from now |
| WakeTimer.FiringIntoRefresh | packages/app/src/bun.ts:205-208 | A run in which a timeout fires into a refresh leaves an unseen wake unwatched |
| WakeTimer.FiringBeforeAttach | packages/app/src/bun.ts:220-224 | So does one that fires before jobs are attached |
| MailHtml.MailHtmlTokens | packages/auth-core/src/mail.ts:120-179 | The loop with its stack ends on every text with the reading the grammar gives |
| MailHtml.ReadNests | packages/auth-core/src/mail.ts:114-179 | Accepted tokens are well nested: allowed elements, voids never closed, no link in a link, no `<` in text, no two texts in a row |
| MailHtml.PrintReads | packages/auth-core/src/mail.ts:120-179 | Printing well-nested tokens and reading them gives the same tokens |
| MailHtml.ReadingsAreWellNested | packages/auth-core/src/mail.ts:120-179 | The token lists some text reads as are exactly the well-nested ones |
| MailSpelling.SpacingReads | packages/auth-core/src/mail.ts:143-171 | White space before a link's `href` or a tag's end changes nothing, on any stack and before any rest, nor does the slash of a void element; that of any other is refused |
| MailSpelling.ReadsIffSpelled | packages/auth-core/src/mail.ts:120-179 | A body reads as a list of tokens exactly when the list is well nested and the body spells it |
| MailSpelling.ReferenceIff | packages/auth-core/src/mail.ts:98 | A character reference is exactly an `&`, a name or number of allowed length, and a `;` |
| ContractCanonical.SortedTupleIsSorted | packages/auth-core/src/contract-canonical.ts:217-221 | Sorting a non-empty list by head and rest is sorting it |
| ContractCanonical.CanonicalAscends | packages/auth-core/src/contract-canonical.ts:208-225 | Canonical names ascend, CSP sources by origin and endpoints by id |
| Sorting.AtMostIff | packages/auth-core/src/contract-canonical.ts:208-211 | The order is by code unit: a text comes no later than another exactly when it starts it or is the lower where they first differ |
| ContractCanonical.CanonicalIffPermuted | packages/auth-core/src/contract-canonical.ts:186-207 | Two shapes have one canonical form exactly when they differ in the order of enum values alone, at any depth |
| ContractCanonical.CanonicalTwice | packages/auth-core/src/contract-canonical.ts:186-207 | Canonicalizing a shape is idempotent |
| ContractCanonical.OutputIffPermuted | packages/auth-core/src/contract-canonical.ts:175-184 | Outputs likewise: attachment columns keep their order, redirect origins do not |
| ContractCanonical.EndpointIffPermuted | packages/auth-core/src/contract-canonical.ts:157-173 | Endpoints likewise, with callers and content types free of order |
| ContractCanonical.EndpointsIffPermuted | packages/auth-core/src/contract-canonical.ts:57 | Lists of endpoints with distinct ids have one canonical form exactly when each endpoint has its permuted counterpart in the other list |
| ContractArtifact.RolesCanonicalize | packages/auth-core/src/contract-canonical.ts:99-105 | Roles have one canonical form exactly when they differ in the order of grants and assigners, and canonicalizing is idempotent |
| ContractArtifact.MountsCanonicalize | packages/auth-core/src/contract-canonical.ts:107-120 | Mounts likewise: callers, grants, actions or published paths by kind, and nothing of the other kinds |
| ContractArtifact.FilesCanonicalize | packages/auth-core/src/contract-canonical.ts:31-35 | File collections likewise: types, and the links' names unless they are a boolean |
| ContractArtifact.CspIffPermuted | packages/auth-core/src/contract-canonical.ts:46-55 | Policies likewise, source list by source list, where origins differ |
| ContractArtifact.TablesCanonicalize | packages/auth-core/src/contract-canonical.ts:131-155 | Tables likewise: actions in lists but not a lone action, a child's inherited columns, the columns to insert and update |
| ContractArtifact.ReachesCanonicalize | packages/auth-core/src/contract-canonical.ts:59-70 | Declared reaches likewise: connections, and the four optional lists |
| ContractArtifact.ArtifactIffPermuted | packages/auth-core/src/contract-canonical.ts:23-87 | With distinct endpoint ids and CSP origins, two artifacts have one canonical form exactly when they differ in order-free lists alone, field by field |
| ContractArtifact.ArtifactTwice | packages/auth-core/src/contract-canonical.ts:23-87 | Canonicalizing an artifact is idempotent, repeated ids and origins included |
| ContractCanonical.OrderForgottenIff | packages/auth-core/src/contract-canonical.ts:223-225 | A CSP list's order is forgotten exactly when no two different sources share an origin |
| ContractCanonical.RepeatedOriginLeaks | packages/auth-core/src/contract-canonical.ts:223-225 | Two sources of one origin show their order in the canonical form |
| Region.ParseIffFormats | packages/annotations/src/regionTarget.ts:147-165 | A snippet parses to a locator exactly when the locator is valid and formats to it |
| Region.GreedyFinds | packages/annotations/src/regionTarget.ts:44-47 | The greedy group ends at the end of the image's path, whatever the path holds |
| Region.PointIsNearest | packages/annotations/src/regionTarget.ts:63-75 | A pointer lands on the nearest grid point inside the image, on its edge outside, and nowhere on an image without extent |
| Region.CornersSpan | packages/annotations/src/regionTarget.ts:78-91 | The box has exactly the two corners as its sides, lies in the image, does not depend on which came first, and is drawable exactly at 30 units both ways |
| Region.DrawnReadsBack | packages/annotations/src/regionTarget.ts:69-165 | A drawable box between any two pointer positions reads back from its snippet |
| UuidV7.Generator.Next | packages/canvas-share/src/util.ts:44-59 | Counts within one clock reading and writes the fields of section 5.7 of RFC 9562 |
| UuidV7.Fields | packages/canvas-share/src/util.ts:48-56 | The byte loop and the masks, as 32-bit operators, give the digits of the time, of version and counter, and of the variant |
| UuidV7.VersionAndVariant | packages/canvas-share/src/util.ts:54-58 | Every id has version 7, the RFC's variant and dashes at their places |
| UuidV7.Issue | packages/canvas-share/src/util.ts:41-60 | The ids of a run count each reading's place within its millisecond |
| UuidV7.RankOrders | packages/canvas-share/src/util.ts:37-40 | Ids of rising time and counter rise as text, whatever their random bytes |
| UuidV7.RisesIffSteady | packages/canvas-share/src/util.ts:37-60 | With times below 2^48, the ids of a run rise as text exactly when the clock never goes back and no millisecond takes more than 4096 |

## Left out

- InsertRow: does not model `sqlite_sequence`, the row an AUTOINCREMENT insert writes and the importer replaces (`import.ts:346-350`); `opsDumpValueBinding` is taken to write the value it was given.
- Import: does not model receipts, transactions and the cut of a dump into parts (a repeated part or link step answers its receipt); the marker is modelled as far as a verification reads and writes it (`DumpVerify.Verification`).
- Restore: leaves out, beyond what `Import` does, the triggers that `begin` drops and `complete` recreates, and the comparison of schemas.
- ReadTable: reads one table to its end; the row budget, the cursors between steps and the early mismatch are those of `DumpVerify`.
- Sha256Hex: takes the bytes of a text, and `DumpHash` a digest of texts; UTF-8 is not modelled.
- PointIsNearest: over reals, so the rounding of doubles in `regionPointIn` is not covered.
- DrawnReadsBack: likewise takes pointer positions and the image's box as reals.
- `describeOpsDumpSchema` and the PRAGMA readers: the model starts from a described schema, faithful to the real one as `Database.Faithful` spells out (distinct columns, no generated primary key, keys over columns that exist and are stored where a table defers, named keys that SQLite can look up, `checkNames` complete).
- SQLite's type affinity, collations and foreign-key actions: values compare by identity and an import writes no parent key; a CHECK, a generated column, a partial index's condition and an index expression are arbitrary functions of a row.
- R2 parts, gzip and `readWholeParts`; the structural wire parsers of `ops.ts`, which are single-branch shape checks.
- Doubles: `String` and `Number` are parameters of `RowCodec` with the round trip `Faithful` states.
- JSON numbers and surrogate escapes in `Json`: no encoding holds them, so the answer of a decoder, null, is the same.
- Strings are sequences of characters and not of UTF-16 code units.
- Text of problems, reports and log lines; `mail.ts`' size limits, placeholders and `fillMailTemplate`.
- The inventory checks of `packageGraph` before its search, and npm itself: `RegistryWait` takes what each round answers for a name, one answer for a name within a round, and versions as ranked by their order.
- `createBunHandler`'s pending set and drain; the wake timer's clock, scheduler and job runner are the environment of a run, each reading of the clock its own.
- Contract artifacts: nested values that are copied and never looked into (a form's settings, a webhook's scheme, a dimension, a procedure's other rules) are single texts, an `external` that is not true is false, and `canonicalJson`'s key order is not modelled.
- The DOM, React and network parts of the packages, and every file not named in the table.
