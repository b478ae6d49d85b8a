# Verified models of the Caveman Engine

Dafny models of the parts of the Caveman Engine whose correctness is hard to see from one function, and proofs of
what those parts promise.

- **Annotation stripper** (`JsonText`, `ConcreteJson`, `SchemaStrip`, `StripPaths`, `AnnotationCuts`,
  `ValueSkipping`, `AnnotationStripper`). The stripper deletes byte ranges from a serialized tool catalog without building a tree. The
  specification is a concrete syntax tree that keeps white space, its printer, and a tree-level removal; the byte form
  is proved to print the stripped tree for every JSON text, including which comma goes with each deletion. What is
  removed is said over paths from the root of the catalog, with the keys spelled out.
- **TOON codec** (`GoText`, `ToonText`, `ToonReader`, `ToonScalars`, `ToonShapes`, `ToonLines`, `ToonRoundTrip`,
  `ToonTheorems`, `ToonGrammar`, `ToonOrder`, `ToonWriter`, `ToonParser`). Writer and reader are given as functions over
  lines, the round trip is proved over all recursive values, the reader is proved to accept exactly a grammar, and the
  loops of the program are proved to compute those functions.
- **Recovery store** (`RecoveryObjects`, `ObjectTable`, `ObjectLaws`, `StorageUsage`, `StoreReclaim`, `RecoveryStore`,
  `StoreRepair`, `Engine`). The deduplicating object table refines the plain map of the in-memory store; the retained
  bytes counter, the budget, consolidation, expiry and repair keep their promises; and a handle the engine has issued
  retrieves its exact input after any later calls.
- **Memory lineage** (`MemoryLineage`, `MemoryStore`). Remember, Supersede and Forget keep a table of doubly linked
  version chains; History returns whole chains, and no two versions of a chain are valid at the same time.
- **Elision claims** (`Elision`, `DiffElision`, `RepetitionElision`, `RedundancyGuard`, `ListingNumbers`,
  `LogElision`, `ListingViews`, `ListingLaws`, `ElisionLaws`, `DenseCoverage`, `ElisionFacts`, `FieldTally`,
  `ElisionSummary`, `SummaryReader`, `SummaryWriter`). What a marker states is true of the lines it replaced and is what
  a reader finds in its text, counts are exact, dropped units are represented, line numbers come back truly, and second
  passes decline where the program guarantees it.

`dafny verify dfyconfig.toml` checks the whole project.

## How it is modelled

- Each loop or object that changes state is a method or a class, proved against a function; the theorems are about
  those functions. State machines (`MemoryLineage.Run`, `ObjectTable.Run`, the calls of `Engine.Serve`) quantify over
  every sequence of steps.
- A hash is an uninterpreted function. Where a theorem needs it, it is assumed to have no collisions
  (`RecoveryObjects.Ideal`, `MemoryLineage.Injective`); nothing else is assumed about it.
- A database transaction is one step. A full disk, the pages that must be freed, the result of an integrity check, the
  clock, and everything a damaged database answers are inputs.
- The TOON round trip is about values a JSON reader makes, whose numbers carry no white space. The number test of the
  writer alone would let white space pass, which the reader refuses (`ToonTheorems.SpacedNumberIsLost`).
- Text is a sequence of characters. Where the program counts bytes, `GoText.ByteLength` counts the bytes of their
  encoding; the stripper reads each element as one byte.

## Findings

- An id of a memory may name another text. Reverting from a text `x` to an earlier text `t` mints a version id from `t`,
  a marker and the id of `x`; a text that spells this derivation out has the same id, so remembering it returns the row
  that holds `t`. Over all runs this happens to exactly the texts that spell out such a derivation
  (`MemoryLineage.IdNamesOtherExactly`); `MemoryLineage.IdMayNameOtherText` is one run.
- The budget check of a recovery put trusts that the bytes under a handle belong to it.
  `StorageUsage.PutBudgetExactly` says when a put ends within the budget: where older metadata stays, the bytes alone
  must fit in the place of those they replace, which is not what is checked. The two differ only on a damaged row
  (`StorageUsage.PutStaysInBudget`), and there the put can pass the budget (`StorageUsage.DamagedRowPassesBudget`).
- Repair counts every listing of an unreadable key. With an index that is in step its counts add up to the ids known
  exactly when no key that neither a scan nor its own lookup reads is listed twice
  (`StoreRepair.EachIdCountsOnce`; `StoreRepair.RepeatedKeyCountsTwice` is an instance).
- Repair can lose a verified row. It marks an id as seen before it verifies the row, so when damage makes an id stand
  twice and the bytes read first fail, the verified row read later is skipped (`StoreRepair.LaterReadingIsLost`). When
  some reading of an id is a full row that verifies, the id survives as a full row exactly when its first reading is one
  (`StoreRepair.VerifiedReadingSurvivesExactly`).
- Run-length markers carry no escape. Expanding an accepted output gives the input back exactly when every input line
  that reads as the marker of a run, behind a line that may be collapsed, follows a run that is collapsed and so gets
  its own marker (`RepetitionElision.ExpandRestoresExactly`). `RepetitionElision.MarkerInInputIsExpanded` is an
  accepted input that fails, and since two inputs can share an output, no other expander restores them all
  (`RepetitionElision.AcceptedOutputIsShared`).
- A restored listing may number a blank line that had no number. The comment on the restorer says such a line is written
  bare; it is exactly when the line before it was written with the number it has
  (`ListingLaws.BlankStaysBareExactly`), and behind a dropped run it gets the number of the last line dropped
  (`ListingLaws.BlankMayGetNumber`).
- A summary does not escape what parts its entries, so a value may spell out another entry
  (`SummaryReader.ValueMayTellMore`). A number such as `1.` makes the two ends of a range ambiguous; they can be told
  apart exactly when the low end brings no two dots of its own (`SummaryReader.EndsReadExactly`).
- The identity of an object joins its fields with NUL and escapes none, so objects of different sessions can share an id
  (`ObjectLaws.NulMovesBorder`); without NUL in the fields they cannot (`ObjectLaws.IdNamesObject`).

## Model

| member | source | states |
|---|---|---|
| AnnotationStripper.StripToolSchemaAnnotations | engine/compressors/toolschema_annotations.go:97-115 | Succeeds exactly on JSON texts and returns everything else unchanged; on every text with a concrete syntax tree the output is the printed tree without the annotation members at schema positions, and the two texts are a document and one with exactly the nodes whose path from the root passes no removed member |
| AnnotationStripper.StripUnique | engine/compressors/toolschema_annotations.go:97-115 | The result does not depend on how the text is read as a tree; it is JSON again; a text with nothing to cut comes back byte for byte |
| AnnotationStripper.SameTextSameDoc | engine/compressors/toolschema_annotations.go:129-141 | A JSON text, white space included, is the print of only one document, so the tree form is a specification of the byte form |
| StripPaths.StripRemovesExactly | engine/compressors/toolschema_annotations.go:14-70 | A node of the input is in the output exactly when no member on its path stands directly in a schema under one of the four annotation keys, with envelopes, schemas and name maps defined over paths from the root by the literal keys; order and own characters are kept |
| StripPaths.NodesSayAll | engine/compressors/toolschema_annotations.go:178-226 | The nodes with their paths determine a document up to white space, so the statement above leaves nothing open |
| StripPaths.NamesStay | engine/compressors/toolschema_annotations.go:35-45 | An object at an envelope or name-map position keeps all its names, in order |
| StripPaths.UnlistedStays | engine/compressors/toolschema_annotations.go:213-224 | A value reached through a key that is not listed is unchanged |
| StripPaths.TitlesOfOneTool | engine/compressors/toolschema_annotations.go:14-70 | One tool with literal keys: the title of its schema goes, and a property named title stays |
| AnnotationStripper.Stripper.Walk | engine/compressors/toolschema_annotations.go:129-226 | One dispatch over the zones envelope, schema, name map and untouched: it ends where the value ends and appends exactly the cuts of that value |
| AnnotationStripper.Stripper.WalkArray | engine/compressors/toolschema_annotations.go:143-159 | An array of envelopes or schemas is walked element by element, with the cuts of each in order |
| AnnotationStripper.Stripper.WalkObject | engine/compressors/toolschema_annotations.go:237-302 | Members in order; a dropped member takes the comma on its left when a kept one stands before it, else everything up to the next member |
| AnnotationStripper.Stripper.ApplyCuts | engine/compressors/toolschema_annotations.go:306-317 | Copies everything outside the cuts, in one pass, and refuses cuts that are out of order or out of bounds |
| AnnotationStripper.SkipValue | engine/compressors/toolschema_annotations.go:322-355 | The depth-counting loop computes the depth scan |
| AnnotationStripper.StringEnd | engine/compressors/toolschema_annotations.go:357-370 | Finds the closing quotation mark of a string token, or none |
| AnnotationStripper.SkipSpace | engine/compressors/toolschema_annotations.go:372-377 | Stops at the first character that is not JSON white space |
| ValueSkipping.SkipEndsValue | engine/compressors/toolschema_annotations.go:319-355 | The depth scan always lands on the grammar's end of the value, whatever braces its strings hold |
| AnnotationCuts.DocCutsPrintStripped | engine/compressors/toolschema_annotations.go:83-93 | The cuts of a document are ascending, disjoint and in bounds, and copying around them prints the stripped tree |
| AnnotationCuts.CutsPrintStripped | engine/compressors/toolschema_annotations.go:237-302 | The same for one value at any position of a text |
| SchemaStrip.StripWellFormed | engine/compressors/toolschema_annotations.go:178-226 | Removing members leaves a well-formed tree whose data is the data with the annotation keys pruned at schema positions, and nothing else changed |
| SchemaStrip.PruneCleans | engine/compressors/toolschema_annotations.go:178-226 | Pruned data has no annotation key left at any schema position, and data is unchanged by pruning exactly when it had none |
| SchemaStrip.StripIdempotent | engine/compressors/toolschema_annotations.go:91-93 | Stripping a stripped document changes nothing |
| SchemaStrip.StripCleanIsIdentity | engine/compressors/toolschema_annotations.go:91-93 | A value without annotation keys at schema positions is not touched |
| ToonTheorems.RoundTrip | engine/compressors/toon_encode.go:50-66 | For every value with distinct keys and JSON numbers, if it can be written then the text decodes, every line consumed, to the data of the value |
| ToonTheorems.WritesExactlySupported | engine/compressors/toon_encode.go:194-342 | A value can be written exactly when it is in the supported subset: safe keys, readable numbers, and arrays that are empty, all scalar, or tables of uniform flat objects |
| ToonTheorems.SameTextSameData | engine/compressors/toon_encode.go:47-66 | Two values with the same text are the same JSON data |
| ToonTheorems.SpacedNumberIsLost | engine/compressors/toon_encode.go:397-408 | The domain of the round trip is needed: the writer's number test passes a number that carries white space, and the reader refuses its text |
| ToonTheorems.ValueWrites | engine/compressors/toon_encode.go:194-301 | Under a key or at the root, writing succeeds exactly on safe names and supported values |
| ToonGrammar.DecodesExactly | engine/compressors/toon_decode.go:33-312 | The decoder accepts a text as certain data exactly when a grammar of lines, cells and scalars says that the text is this data: counts are those of the header, rows have one cell for each column, names are not repeated, indents are steps of two, and nothing is left over |
| ToonGrammar.CellsExactly | engine/compressors/toon_decode.go:247-281 | A row splits into cells exactly when it is these cells with commas between them, every comma of a cell inside its quotes and every quote closed |
| ToonGrammar.ScalarExactly | engine/compressors/toon_decode.go:283-312 | What a scalar text stands for: a word, a number with white space, a JSON string, or itself |
| ToonGrammar.ArrayExactly | engine/compressors/toon_decode.go:160-227 | Both array forms are accepted exactly when header, count, indents and cells agree |
| ToonGrammar.ScansExactly | engine/compressors/toon_decode.go:48-66 | The lines that are scanned are exactly those whose rendering is the text, final line breaks aside, none of them blank |
| ToonOrder.OrderDoesNotMatter | engine/compressors/toon_encode.go:235-249 | Values that differ only in the order of fields, at any depth outside arrays, have the same text |
| ToonOrder.FieldsAscend | engine/compressors/toon_encode.go:235-239 | Fields are written in the ascending order of their names, each once |
| ToonOrder.BareExactly | engine/compressors/toon_encode.go:376-395 | A string is written without quotes exactly when the grammar reads it as itself, it holds no quote, colon or comma, and it does not start as an array, an object, a dash or a digit |
| ToonOrder.SafeKeyExactly | engine/compressors/toon_encode.go:45 | A name is safe exactly when it starts with a letter or an underscore and goes on with letters, digits, underscores, dots and dashes |
| ToonScalars.ScalarRoundTrip | engine/compressors/toon_encode.go:348-395 | Every written scalar, quoted or not, reads back as the same data and holds no line break |
| ToonScalars.CellsRoundTrip | engine/compressors/toon_decode.go:247-281 | Joined cells split into the same cells, whatever delimiters their quotes hide |
| ToonShapes.TableHeaderReads | engine/compressors/toon_decode.go:16-20 | A table header is recognised and gives back its key, its row count and its columns |
| ToonShapes.ListTextReads | engine/compressors/toon_decode.go:16-20 | A line of scalars is recognised, is no table header, and gives back its count and its cells |
| ToonShapes.KeyedReads | engine/compressors/toon_decode.go:16-20 | A field line is recognised, is neither form of array, and gives back its rest |
| ToonLines.LinesRoundTrip | engine/compressors/toon_decode.go:48-66 | Rendering lines, dropping the last line break and scanning the text gives the same lines and indents |
| ToonRoundTrip.SortKeeps | engine/compressors/toon_encode.go:235-239 | Sorting the fields of an object keeps its data |
| ToonRoundTrip.ArrayReads | engine/compressors/toon_decode.go:160-227 | Reading an array at the line where it was written gives its items and the line after it |
| ToonRoundTrip.FieldsRead | engine/compressors/toon_decode.go:90-158 | Reading an object at the line where it was written gives its fields and stops at the first line that is not its own |
| ToonWriter.EncodeTOON | engine/compressors/toon_encode.go:50-66 | The encoder produces the specified text, or fails exactly when there is none |
| ToonWriter.Writer.WriteValue | engine/compressors/toon_encode.go:194-233 | Appends exactly the lines of a value to the buffer, or fails |
| ToonWriter.Writer.WriteObject | engine/compressors/toon_encode.go:235-249 | Appends the fields in the order of their names, or fails |
| ToonWriter.Writer.WriteArray | engine/compressors/toon_encode.go:251-301 | Appends the line or the table of an array, or fails |
| ToonWriter.TabularRows | engine/compressors/toon_encode.go:312-342 | Finds columns and cells exactly when the items have the shape of a table |
| ToonParser.DecodeTOON | engine/compressors/toon_decode.go:33-46 | The decoder computes the specified value, or fails exactly when the specification does |
| ToonParser.ScanTOONLines | engine/compressors/toon_decode.go:48-66 | Lines with their indents, or failure on a blank line or an odd indent |
| ToonParser.ParseTOONRoot | engine/compressors/toon_decode.go:68-88 | The case analysis of the root |
| ToonParser.ParseTOONObject | engine/compressors/toon_decode.go:90-158 | The field loop, which refuses repeated keys and wrong indents, is the recursive reader |
| ToonParser.ParseTOONArray | engine/compressors/toon_decode.go:160-227 | Both array forms with their counts checked |
| ToonParser.SplitTOONFields | engine/compressors/toon_decode.go:229-245 | Columns, or none when one is unsafe or repeated |
| ToonParser.SplitTOONCells | engine/compressors/toon_decode.go:247-281 | The quote-aware cell loop is the recursive splitter |
| JsonText.QuoteRoundTrip | engine/compressors/toon_encode.go:364-370 | A string written as JSON is a string token without control characters that denotes the same string (sections 7 of RFC 8259) |
| ObjectTable.RunRefinesPlain | engine/ccr/store_sqlite.go:933-1201 | Over every run of puts, marks, consolidations and closed deletions the deduplicating table gives the outcomes and the reads of the plain map, and stays sound, so no reference ever names a reference |
| ObjectTable.StoredReadsBack | engine/ccr/store_sqlite.go:933-1034 | A stored object reads back with the exact bytes that were put, until a deletion names it |
| ObjectTable.PutRefinesPlain | engine/ccr/store_wasm.go:118-133 | One put, new or repeated, has the outcome and the effect of the in-memory store's put |
| ObjectTable.MarkRefinesPlain | engine/ccr/store_wasm.go:145-173 | Currentness and lifecycle changes likewise, unknown values and ids included |
| ObjectTable.ConsolidationIsInvisible | engine/ccr/store_reclaim.go:216-296 | Readers cannot tell a consolidated table from the one before, and references still name full rows |
| ObjectTable.DeletionSparesReaders | engine/ccr/store_reclaim.go:397-400 | Deleting rows together with all that read them leaves every other row readable with the same bytes |
| ObjectTable.ReadNeverLies | engine/ccr/store_sqlite.go:1060-1127 | On any table, however damaged, bytes that are returned match the content hash of the row that was asked for |
| ObjectTable.ReadObject | engine/ccr/store_sqlite.go:1068-1127 | Own or owner's bytes first, then up to four full copies, oldest first |
| ObjectTable.FindOldest | engine/ccr/store_sqlite.go:184-191 | The oldest row by creation time and id |
| ObjectLaws.ReadsExactly | engine/ccr/store_sqlite.go:1060-1127 | On any table a row reads exactly when the bytes it names match its content hash or one of the four oldest other full copies of its type and content does |
| ObjectLaws.StoresExactly | engine/ccr/store_sqlite.go:933-1034 | A new object is one new row: a repository map whose content is stored in full becomes a reference without bytes to the oldest such row, anything else is stored in full |
| ObjectLaws.RepeatsExactly | engine/ccr/store_sqlite.go:933-1034 | An object that is there stays as it is; storing it again succeeds exactly when what the row reads as differs in nothing but currentness, lifecycle and creation time, and fails as unreadable exactly when it does not read |
| ObjectLaws.MarksExactly | engine/ccr/store_sqlite.go:1161-1201 | A mark changes one field of one row and only to one of the known values |
| ObjectLaws.ConsolidatesExactly | engine/ccr/store_reclaim.go:221-296 | Exactly the full repository maps that nothing points at and that are not the keeper of their content become references to it, where the keeper is the oldest true copy among those pointed at, or among all when none is |
| ObjectLaws.DamagedMapsStay | engine/ccr/store_reclaim.go:249-267 | A content without a copy whose bytes match is left alone |
| RecoveryObjects.PrepareObject | engine/ccr/store.go:121-169 | The steps that fill in an object fail and fill exactly as specified |
| ObjectLaws.PreparesExactly | engine/ccr/store.go:121-169 | An object is accepted exactly when its type, session, currentness, lifecycle, hash and lengths are acceptable, and then exactly the fields that were empty are filled in |
| ObjectLaws.SameExactly | engine/ccr/store.go:171-186 | Two objects are the same when they differ in nothing but currentness, lifecycle and creation time |
| ObjectLaws.IdNamesObject | engine/ccr/store.go:121-169 | While no field holds a NUL, objects with the same derived id agree in type, session, source, state and content |
| ObjectLaws.NulMovesBorder | engine/ccr/store.go:121-169 | With a NUL they may not: two sessions share an id |
| RecoveryObjects.PreparedIsSound | engine/ccr/store.go:121-169 | Whatever passes has a name, holds the hash of its bytes and keeps the caller's bytes |
| RecoveryObjects.PrepareTwice | engine/ccr/store.go:171-186 | Preparing a stored object again passes and is the same immutable object, so storing what was read is a repeat |
| RecoveryObjects.HandleIsNoObjectId | engine/ccr/store.go:260-263 | Handles of recoveries never look like object ids, so the two name spaces do not meet |
| RecoveryObjects.DepsAreStrings | engine/ccr/store_sqlite.go:972-988 | Dependencies are stored as a JSON array of strings, each of which denotes its dependency |
| StorageUsage.PutKeepsOriginals | engine/ccr/store_sqlite.go:671-684 | An upsert stores the bytes it was given under their handle and changes the bytes of no recovery |
| StorageUsage.UpsertIsInMemoryPut | engine/ccr/store_wasm.go:52-74 | The database upsert and the in-memory put are the same function of what both keep |
| StorageUsage.ScanPutRecovery | engine/ccr/store_sqlite.go:777-785 | The insert and update triggers change the counter as the full scan changes |
| StorageUsage.ScanDeleteRow | engine/ccr/store_sqlite.go:799-802 | So does the delete trigger |
| StorageUsage.PutBudgetExactly | engine/ccr/store_sqlite.go:671-684 | On any tables a put ends within the budget exactly when it passes the check or, where older metadata stays, when the bytes alone fit in the place of those they replace |
| StorageUsage.PutStaysInBudget | engine/ccr/store_sqlite.go:724-740 | A put that passes the check stays within the budget, also when it keeps older and longer metadata, if the row under its handle is no shorter than the bytes it gets; an undamaged row has the same bytes |
| StorageUsage.DamagedRowPassesBudget | engine/ccr/store_sqlite.go:671-684 | On a damaged row it can fail: replaced bytes beside kept metadata pass the budget |
| StorageUsage.RowStaysInBudget | engine/ccr/store_sqlite.go:972-988 | The check of an object put counts the dependencies in bytes, never less than the characters the counter adds |
| RecoveryStore.Store.PutOnce | engine/ccr/store_sqlite.go:647-699 | One attempt: the upsert, or a refusal exactly when the recovery is new or changed and the budget or the disk is full; counter and budget kept |
| RecoveryStore.Store.Put | engine/ccr/store_sqlite.go:633-645 | A put refused for room frees room under the policy and is tried once more, otherwise nothing expires; it fails only on a damaged store or when the first attempt found no room; recoveries change only by that upsert |
| RecoveryStore.Store.Get | engine/ccr/store_sqlite.go:874-894 | Exact bytes, or unknown, expired or damaged, for both kinds of names |
| RecoveryStore.Store.GetMetadata | engine/ccr/store_sqlite.go:898-914 | Metadata of a recovery; none for an object that reads |
| RecoveryStore.Store.GetObject | engine/ccr/store_sqlite.go:1135-1159 | An object's bytes, or whether its id expired |
| RecoveryStore.Store.PutObjectOnce | engine/ccr/store_sqlite.go:933-1034 | One attempt is one step of the table; it is refused exactly when the budget or, for a new row, the disk has no room; counter and budget kept |
| RecoveryStore.Store.PutObject | engine/ccr/store_sqlite.go:922-931 | Likewise for objects: readers see the plain put on what expiry left, and objects expire, or the put is refused, only when the first attempt found no room |
| RecoveryStore.Store.SetObjectCurrentness | engine/ccr/store_sqlite.go:1161-1180 | The step of the object table, refused on a damaged store |
| RecoveryStore.Store.SetObjectLifecycle | engine/ccr/store_sqlite.go:1182-1201 | The step of the object table, refused on a damaged store |
| RecoveryStore.Store.ReclaimForWrite | engine/ccr/store_reclaim.go:75-105 | Changes nothing unless the last refusal was for pages or budget and no reclaim was futile a short time ago; otherwise one reclaim, which made room exactly when the objects changed |
| RecoveryStore.Store.Reclaim | engine/ccr/store_reclaim.go:131-188 | A damaged store stays as it is; an intact one is consolidated and then loses exactly what one expiry takes. Every object that goes had a session whose every write is older than 30 days, or 14 when the object is archived; if something is still needed, every such object that stays is read by one that is not past its time. Something was freed exactly when the objects changed, tombstones go after 180 days and not before, and recoveries are never touched |
| RecoveryStore.ReclaimsExactly | engine/ccr/store_reclaim.go:75-84 | A full disk frees nothing, and after a futile reclaim ten minutes pass before the next |
| RecoveryStore.ConsolidationKeepsPolicy | engine/ccr/store_reclaim.go:342-353 | Consolidating does not change which objects the policy lists |
| RecoveryStore.OnlyRefusalsExpire | engine/ccr/store_reclaim.go:22-23 | A store with room keeps every object: objects go only in a write whose first attempt the page cap or the budget refused |
| StoreReclaim.ConsolidateRepositoryMaps | engine/ccr/store_reclaim.go:221-296 | The loop over duplicated hashes gives the consolidated table, keeps the counter equal to the scan, and counts exactly the rows it changed |
| StoreReclaim.ConsolidateGroup | engine/ccr/store_reclaim.go:233-287 | One group: every copy that is neither the keeper nor referenced becomes a reference to the keeper |
| StoreReclaim.ChooseKeeper | engine/ccr/store_reclaim.go:249-267 | The first verified copy in order, referenced ones first |
| StoreReclaim.ExpireBatch | engine/ccr/store_reclaim.go:401-484 | Takes candidates in order until enough is freed: what goes is each candidate consumed that no kept row reads, with all its readers; without the last candidate less than the need was freed, and fewer than all are consumed only when the need is met |
| StoreReclaim.ExpireObjects | engine/ccr/store_reclaim.go:358-395 | Takes a prefix of the listed objects, oldest first, round by round, each round as much as it still needs; everything it takes is past its time, by the writes of its session; it ends with the need of the tables it leaves, either none or with only objects left that one not past its time reads; it takes nothing from a store under its target; each full copy goes with all that read it, every other row still reads, and tombstones are kept as long as batches leave room for them |
| StoreReclaim.ListedExactly | engine/ccr/store_reclaim.go:342-353 | The policy lists exactly the objects all writes of whose session are older than 30 days, or 14 when the object is archived |
| StoreReclaim.ActiveSessionStays | engine/ccr/store_reclaim.go:342-353 | A session that is still writing keeps its old objects too |
| StoreReclaim.NeedIsLeast | engine/ccr/store_reclaim.go:190-214 | What a reclaim frees is the least that frees the pages and brings the payload down to four fifths of the budget |
| StoreReclaim.InOrder | engine/ccr/store_reclaim.go:342-353 | The rows once each, in the one order by creation time and id |
| StoreRepair.EachIdCountsOnce | engine/ccr/store_repair.go:450-515 | Every id seen is counted exactly once; when lookups are in step the unreadable count is the number of listings of keys that no path reads, and all counts add up to the ids named exactly when no such key is listed twice |
| StoreRepair.RepeatedKeyCountsTwice | engine/ccr/store_repair.go:495-515 | A key that the damaged index lists twice is counted twice when it cannot be read |
| StoreRepair.FirstReadingDecides | engine/ccr/store_repair.go:453-515 | For every id, on any damaged database: the first reading decides, whether a scan or a keyed lookup gives it; if it verifies it is carried over as read, if it fails the id is dropped, a reference is held back, and nothing else is carried over |
| StoreRepair.ListedRowIsRead | engine/ccr/store_repair.go:495-515 | A row that no scan reaches is read through its key when the index lists it and is in step; a scanned row is what the scan read first |
| StoreRepair.RebuiltRecoveriesAreTrue | engine/ccr/store_repair.go:450-491 | Every recovery carried over stands under the handle of its bytes |
| StoreRepair.RecoverySurvivesExactly | engine/ccr/store_repair.go:450-491 | A recovery is carried over exactly when the first reading of its handle holds the bytes that the handle names, and then as it was read |
| StoreRepair.RepairedObjectsRead | engine/ccr/store_repair.go:546-618 | After repair every full row matches its hash, every reference names a full row with the same hash, and everything carried over reads |
| StoreRepair.VerifiedRowSurvives | engine/ccr/store_repair.go:549-618 | For every id, by its first reading: a full row that verifies is carried over unchanged, one that fails is dropped, a reference goes where the full rows carried over send it, and what no path reads is not in the table |
| StoreRepair.VerifiedReadingSurvivesExactly | engine/ccr/store_repair.go:549-572 | When some reading of an id is a full row that verifies, the id survives as a full row exactly when its first reading is one, and then as that one; a reference read first goes its own way |
| StoreRepair.LaterReadingIsLost | engine/ccr/store_repair.go:556-565 | An id that stands twice, first with bytes that fail, is dropped although a verified row of it is read |
| StoreRepair.RepairedIsSound | engine/ccr/store_repair.go:546-618 | When the rows read carry their own ids, and references and their owners are repository maps, the repaired table is sound, so all that holds of runs holds after a repair |
| StoreRepair.ReferencesDecided | engine/ccr/store_repair.go:590-616 | A held reference is carried over, re-pointed, exactly when the full rows carried over give it an owner |
| StoreRepair.ReferenceSurvivesExactly | engine/ccr/store_repair.go:588-616 | An id whose first reading is a reference is in the repaired table exactly when its own owner, or else some full row of its type, was carried over with the same content; it then names its own owner if that is there, else the oldest such row, and reads bytes that match its hash |
| StoreRepair.SalvageTable | engine/ccr/store_repair.go:428-515 | The passes and the keyed lookups compute the specified rescue |
| StoreRepair.SalvageReferences | engine/ccr/store_repair.go:590-616 | The loop over references, with each one kept or dropped |
| StoreRepair.SalvageObjects | engine/ccr/store_repair.go:546-618 | The rebuilt table and its counts: kept is its size, kept and dropped are the ids seen, and with an index in step all counts add up to the ids named exactly when no unread key is listed twice |
| Engine.Engine.Compress | engine/engine.go:72-144 | Output is the input or the planned transform. Changed bytes of a class-4 compressor leave only with a handle under which the store holds the exact input, unless the caller keeps it; the other classes store nothing and answer no handle, and an unknown class passes through; a failed put passes through |
| Engine.PlanByClass | engine/safety/safety.go:43-51 | Exactly when a transform is planned and what it is: classes 0 to 4 may run, class 4 alone needs a handle, classes 3 and 4 count as lossy unless the compressor says otherwise |
| Engine.PublishedIs | engine/engine.go:104-144 | The counts, ratio and type of a published result are those of input and output, and the recovery beside it holds the input |
| Engine.PathTaken | engine/engine.go:211-223 | A compressor that describes its work is asked to, and one that knows queries gets a query when there is one |
| Engine.Engine.Simulate | engine/engine.go:157-206 | Predicts the token counts, ratio and method that Compress publishes, and whether it could |
| Engine.Engine.Retrieve | engine/engine.go:251-270 | Recoveries first, then objects, and the first miss when neither has the name |
| Engine.ObjectIsRetrieved | engine/engine.go:251-270 | A name that no recovery has retrieves the object that has it, as far as that reads |
| Engine.PassedThroughIsExact | engine/result.go:72 | A result reports that it passed through exactly when its bytes are the input's |
| Engine.HeldForever | engine/engine.go:242-270 | A held recovery retrieves its exact bytes after any number of calls, whatever the object tables hold then |
| Engine.ServeOne | engine/engine.go:72-144 | One call: a compression answers the planned transform, under a handle once the store took its recovery, or the input; compressions and observations write to the store as specified, marks change one field, a reclaim is one reclaim; what was held stays held |
| Engine.Serve | engine/engine.go:72-144 | Serves any sequence of compressions, observations, marks and reclaims, each call as specified; every compression that answers changed bytes of a class-4 compressor, unless the caller keeps the input, answers the handle of its input, and every handle answered retrieves its exact input at the end |
| MemoryStore.Store.Remember | mem/store.go:166-207 | Adds exactly one row, or none when the text is blank, too large or its id is taken; returns the row of a new or current text, refuses expired text, and says when the returned row holds the text asked for |
| MemoryStore.Store.Supersede | mem/store.go:214-288 | Succeeds exactly when both texts, the replaced row and the new id allow it; then one new current row stands behind the replaced one, which ends at that time, and no other row changes; otherwise nothing changes |
| MemoryStore.Store.Forget | mem/store.go:346-385 | Deletes exactly the row and relinks exactly its neighbours |
| MemoryStore.Store.History | mem/store.go:299-341 | Ends on any table; in every lineage it succeeds for known ids and returns a history, oldest first |
| MemoryStore.HistoryIsChain | mem/store.go:299-341 | A history is the complete chain that holds the id |
| MemoryStore.HistorySame | mem/store.go:299-341 | Every member of a chain has the same history |
| MemoryLineage.RunKeepsLineage | mem/store.go:166-385 | Over every run of Remember, Supersede and Forget, ids reused or not, links are mutual inverses, nothing dangles, replaced rows are expired and chains are acyclic |
| MemoryLineage.ReachableIsLineage | mem/store.go:166-385 | So it is in every state reached from an empty store |
| MemoryLineage.ChainUnique | mem/store.go:214-288 | Two chains that share a row are the same chain |
| MemoryLineage.OnlyTailIsCurrent | mem/store.go:214-288 | Only the tail of a chain can be current |
| MemoryLineage.RememberAddsChain | mem/store.go:173-184 | Remembering a new text starts a chain of one row and leaves every chain as it is |
| MemoryLineage.SupersedeExtendsChain | mem/store.go:214-288 | The new row becomes the tail of the replaced row's chain and no other chain changes |
| MemoryLineage.SupersedeSwapsOneCurrent | mem/store.go:214-288 | Exactly one current row is swapped for one other |
| MemoryLineage.ForgetShortensChain | mem/store.go:346-385 | Forgetting takes one row out of its chain and closes the gap |
| MemoryLineage.ForgetKeepsOtherChains | mem/store.go:346-385 | No other chain changes |
| MemoryLineage.ForgetRevivesNothing | mem/store.go:346-385 | The current rows afterwards are those before without the forgotten one |
| MemoryLineage.StepNeverRevives | mem/store.go:166-385 | No step changes the text of a row or makes an expired row current |
| MemoryLineage.OneVersionAtATime | mem/store.go:258-270 | Over every run whose clock does not run backwards, no two versions of a chain are valid at the same time |
| MemoryLineage.ExactlyOneVersionAtATime | mem/store.go:258-270 | Until something is forgotten, exactly one version of a chain is valid at every time from its first one on |
| MemoryLineage.IdNamesOtherExactly | mem/store.go:746-753 | Some run makes the id of a text name another text exactly when the text spells out how a revert to that other text derives its id |
| MemoryLineage.RevertNamesOther | mem/store.go:245-256 | For every text that spells it out, remembering, replacing and reverting is such a run, and the row it leaves is current |
| MemoryLineage.IdNamesText | mem/store.go:746-753 | The id of a text without the version marker names a row with that text in every reachable state |
| MemoryLineage.IdMayNameOtherText | mem/store.go:746-753 | An instance: "a" replaced by "b" and restored |
| Elision.LinesRoundTrip | engine/compressors/lineends.go:17-36 | Splitting undoes joining for lines as splitting makes them |
| Elision.SplitLinesAreLines | engine/compressors/lineends.go:17-36 | Joining undoes splitting for every text |
| Elision.ViewIsExact | engine/compressors/diff.go:46-64 | Every line is shown once or counted by exactly one marker, kept lines are shown, and shown lines and counts add up |
| DiffElision.ViewKeepsChanges | engine/compressors/diff.go:38-64 | Headers and changed lines stay in order with two lines around them; every other line is counted |
| DiffElision.SecondPassDeclines | engine/compressors/diff.go:29-69 | A second pass over any output keeps everything and declines |
| ElisionLaws.DiffKeepsExactly | engine/compressors/diff.go:38-45 | A line of a diff stays exactly when a changed line, a header or an earlier marker stands within two lines of it |
| ElisionLaws.DiffElidesExactly | engine/compressors/diff.go:29-69 | A diff is elided exactly when it has at least twelve lines and two neighbouring ones go |
| ElisionLaws.CrExactly | engine/compressors/lineends.go:39-52 | A synthesized line ends in a carriage return exactly when more than half of the line breaks have one |
| DiffElision.Compress | engine/compressors/diff.go:29-69 | The keep array and the output loop compute the specified view |
| RepetitionElision.ExpandRestoresInput | engine/compressors/repetition.go:43-86 | When no input line starts as a marker does, expanding the markers gives the input back byte for byte |
| RepetitionElision.ExpandRestoresExactly | engine/compressors/repetition.go:43-86 | Expanding the markers of any accepted output gives the input back byte for byte exactly when no line that reads as the marker of a run follows a line that may be collapsed but was not |
| RepetitionElision.MarkerInInputIsExpanded | engine/compressors/repetition.go:43-86 | An accepted input with such a line, which expanding does not restore |
| RepetitionElision.OutputIsShared | engine/compressors/repetition.go:43-86 | A run, and its first line with a marker already in the input, become the same lines |
| RepetitionElision.AcceptedOutputIsShared | engine/compressors/repetition.go:43-86 | Two different accepted texts have the same output, so no expander restores both |
| RepetitionElision.SecondPassDeclines | engine/compressors/repetition.go:43-86 | Compressing any accepted output again declines, whatever lines the input had |
| RepetitionElision.CollapseLeavesNoTriple | engine/compressors/repetition.go:43-72 | The output has no run left to collapse, not even where two runs meet |
| ElisionLaws.RepetitionActsExactly | engine/compressors/repetition.go:43-86 | A text is compressed exactly when it has two hundred bytes, some line that is not blank and no marker stands three times in a row, and the result is smaller |
| RepetitionElision.Compress | engine/compressors/repetition.go:43-86 | The two-index scan computes the specified output |
| RedundancyGuard.DroppedUnitsAreRepresented | engine/compressors/redundancy.go:39-86 | No keep is cleared, and every unit still dropped with a vocabulary has one surviving unit of the same masking that holds nine tenths of it |
| RedundancyGuard.StaysExactly | engine/compressors/redundancy.go:39-86 | A unit that was to be dropped stays exactly when a hundred and twenty-eight before it stayed, or it has words and neither a kept unit of the seed, at most sixty-four spread over all of them, nor one of those that stayed before it carries nine tenths of them |
| RedundancyGuard.NeedIsNineTenths | engine/compressors/redundancy.go:146 | The rounded threshold is the least number that is nine tenths or more |
| RedundancyGuard.CoversExactly | engine/compressors/redundancy.go:142-162 | Counting up to the threshold is the same as carrying nine tenths |
| RedundancyGuard.DocumentIsKept | engine/compressors/redundancy.go:66-72 | After the last promotion nothing more is dropped |
| RedundancyGuard.DistinctUnitsStay | engine/compressors/redundancy.go:23-33 | Where no unit is covered by another, nothing is dropped |
| RedundancyGuard.KeepNonRedundant | engine/compressors/redundancy.go:39-86 | The guard, in place on the keep array, computes the specified decisions |
| RedundancyGuard.RepresentedBy | engine/compressors/redundancy.go:142-162 | The counting loops find a covering class exactly when there is one |
| RedundancyGuard.SeedClasses | engine/compressors/redundancy.go:55-61 | Every step-th kept unit, at most sixty-four |
| LogElision.ViewIsExact | engine/compressors/log.go:121-158 | Every line is shown once or counted by the marker of its run, with the exact count, and kept lines are shown |
| ElisionLaws.LogElidesExactly | engine/compressors/log.go:121-158 | A run of dropped lines becomes one marker exactly when it has three lines, or says something and halves them; otherwise its lines are shown |
| LogElision.ElideLines | engine/compressors/log.go:121-158 | The keep-and-flush loop computes the specified view |
| LogElision.Flusher.Flush | engine/compressors/log.go:124-149 | A run becomes its marker or its own lines, and the replaced bytes are added up |
| LogElision.ViewRestoresNumbers | engine/compressors/code_listing.go:143-217 | Line numbers come back truly on every log view in which no marker equals a line of the source |
| ListingNumbers.RestoredNumbersAreTrue | engine/compressors/code_listing.go:119-142 | When dropped runs became markers of their exact length, every kept line that is not blank gets the number it had, repeated lines included |
| ListingNumbers.ListingNumbersSurvive | engine/compressors/code_listing.go:18-26 | From the listing to the restored view a kept line is written with the number and the text the listing gave it |
| ListingNumbers.TextNumbersSurvive | engine/compressors/code_listing.go:143-217 | The same from text to text, final line breaks included, and also when the listing ends in an empty line that the source text no longer shows |
| ListingLaws.EveryLineRestored | engine/compressors/code_listing.go:119-142 | Every line of a restored view: a kept line has its own number, a marker that of the first line it replaced, and a blank one is bare exactly when it has no number beyond the line before it |
| ListingLaws.BlankNumberSurvives | engine/compressors/code_listing.go:119-142 | A kept blank line that had a number gets it back |
| ListingLaws.BlankStaysBareExactly | engine/compressors/code_listing.go:184-203 | A kept blank line without a number stays bare exactly when the line before it was written with the number it has |
| ListingLaws.BlankMayGetNumber | engine/compressors/code_listing.go:184-203 | Behind a dropped run it may not: it is written with the number of the last line dropped |
| ListingLaws.RestoresExactly | engine/compressors/code_listing.go:208-215 | A view is restored exactly when at least half of its visible lines are lines of the source |
| ListingNumbers.ListingAligns | engine/compressors/code_listing.go:37-83 | Source and numbers line up with the listing and numbered lines have growing numbers |
| ListingLaws.ListingExactly | engine/compressors/code_listing.go:37-83 | A text is a listing exactly when at least eight lines are numbered, the numbers are positive and grow, and every other line is blank |
| ListingLaws.GutterReadsExactly | engine/compressors/code_listing.go:85-117 | A line has a number and a text exactly when it is spaces, one to twelve digits, and a tab, a bar, a colon or nothing before that text |
| ListingNumbers.MarkerStatesCount | engine/compressors/code_listing.go:219-223 | The count of a run marker is read from it whatever follows |
| ListingLaws.CountNeedsElision | engine/compressors/code_listing.go:219-223 | Only a line that says lines, rows or sections were elided states a count |
| ListingNumbers.SplitLineNumberedListing | engine/compressors/code_listing.go:37-83 | The loop takes the gutters off as specified, or refuses |
| ListingNumbers.RestoreLineNumberedListing | engine/compressors/code_listing.go:143-217 | The cursor loop puts the numbers back as specified, or refuses |
| ListingNumbers.IndexSourceLines | engine/compressors/code_listing.go:228-235 | The index lists every line's positions in ascending order |
| ListingNumbers.FindNextMatch | engine/compressors/code_listing.go:238-249 | The first occurrence at or after the cursor |
| ListingViews.DiffMarkerCounts | engine/compressors/diff.go:14 | The marker of the diff elider states its count |
| ListingViews.RepetitionMarkerCounts | engine/compressors/repetition.go:20-22 | The marker of the run-length elider states its count |
| ListingViews.DiffViewRestoresNumbers | engine/compressors/code_listing.go:143-217 | Line numbers come back truly on every diff view none of whose own markers equals a line of the source |
| ListingViews.RepetitionViewRestoresNumbers | engine/compressors/code_listing.go:143-217 | Likewise on every run-length view none of whose own markers equals a line of the source |
| DenseCoverage.FindDense | engine/compressors/invariants.go:886-926 | Accepts exactly the sets that are one prefix followed by every fixed-width number of an interval, and returns their two ends, in whatever order the set is visited |
| DenseCoverage.NoRoomForGaps | engine/compressors/invariants.go:876-884 | By pigeonhole, as many shaped values as the interval has numbers are all of them |
| DenseCoverage.DenseIsShaped | engine/compressors/invariants.go:868-884 | Conversely a dense set has the shape, the count and the bounds that are tested |
| SummaryWriter.DenseEndsUnique | engine/compressors/invariants.go:883-884 | The ends stated do not depend on iteration order |
| ElisionFacts.FactHolds | engine/compressors/invariants.go:18-32 | Whatever a field is stated to be, it is that in every unit of the run |
| ElisionFacts.EnumerationHolds | engine/compressors/invariants.go:562-616 | An enumeration covers every value with its exact count, and counts and absent bucket add up to the run |
| ElisionFacts.RangeHolds | engine/compressors/invariants.go:412-415 | A range bounds every unit's number, and both bounds are values of units |
| ElisionFacts.CoverHolds | engine/compressors/invariants.go:851-866 | A coverage entry counts the distinct values exactly and bounds them, or names a dense set |
| ElisionFacts.ConstantExactly | engine/compressors/invariants.go:402-411 | A field is stated as a constant exactly when every unit has that value and name and value may be printed |
| ElisionFacts.RangeExactly | engine/compressors/invariants.go:412-415 | As a range exactly when every unit has a number, the numbers are not all equal, and the first of the least and the first of the largest may be printed |
| ElisionFacts.EnumerationExactly | engine/compressors/invariants.go:562-616 | As an enumeration exactly when it is neither of these, has at most five buckets with the absent one, all printable, and some two units share one |
| ElisionFacts.BucketsDescend | engine/compressors/invariants.go:580-586 | Buckets stand in descending order of their counts, equal counts in the order in which the values appear |
| ElisionFacts.PrintableExactly | engine/compressors/invariants.go:654-680 | Which values may be printed, and which may stand in a list |
| ElisionSummary.SummaryIsSound | engine/compressors/invariants.go:279-510 | Every fact of a summary holds for every unit; the text fits the budget; the omitted count is the number of facts shed; what was shed matters less than all that stayed |
| ElisionSummary.FieldIsStated | engine/compressors/invariants.go:402-447 | Whatever can be stated of a tracked field as a constant, a range or an enumeration is stated, unless it is shed |
| ElisionSummary.FewNamesAreTracked | engine/compressors/invariants.go:312-401 | While there are at most forty-eight names, every field of every unit is tracked |
| ElisionSummary.AtMostTwoCoverages | engine/compressors/invariants.go:143-149 | At most two fields are stated by how many values they have |
| ElisionSummary.KindsStay | engine/compressors/invariants.go:449-510 | Identifier-like enumerations go before all else, then ranges, bounds, constants and dense coverage, and class enumerations go last; among equals the last goes first |
| ElisionSummary.SummaryBudget | engine/compressors/invariants.go:622-637 | The most that is within 160 bytes, half of what was replaced, and the larger of 96 bytes and a quarter of it |
| FieldTally.TallyKnows | engine/compressors/invariants.go:319-398 | The accumulator of a field, fed value by value, knows everything the values say |
| SummaryWriter.SummarizeElided | engine/compressors/invariants.go:279-510 | The single pass with its shedding loop computes the specified summary. The returned text is empty or tells the facts of the run as a reader finds them: every fact kept stands in an entry that reads as this fact and is true of every unit, the text ends by saying how many were shed, and where names and values are plain the whole text reads as these facts and this number and nothing else; it has at most 160 bytes and at most half of what it replaces |
| SummaryReader.SummaryTells | engine/compressors/invariants.go:279-555 | What every non-empty summary tells a reader, as above |
| SummaryReader.AllReadIsTrue | engine/compressors/invariants.go:512-555 | Where names and values are plain, all that is read from a text is true of the units: counts are those of the units, the low end stands first, absent and distinct counts are the true ones, and the omitted number is the number shed |
| SummaryReader.TextReads | engine/compressors/invariants.go:512-555 | Reading a rendered selection gives exactly the selected facts, section by section, and the omitted number |
| SummaryReader.EndsReadExactly | engine/compressors/invariants.go:412-415 | The two ends of a range or a bound can be told apart exactly when the low end brings no two dots of its own |
| SummaryReader.ValueMayTellMore | engine/compressors/invariants.go:512-555 | Plain values are needed: a value may spell out that facts were left out |
| SummaryReader.SuchValueIsUsable | engine/compressors/invariants.go:664-680 | Such a value may be printed |
| SummaryWriter.TallyUnits | engine/compressors/invariants.go:312-401 | One accumulator for each of the first forty-eight names, or nothing when a unit cannot be read |
| SummaryWriter.FieldEntry | engine/compressors/invariants.go:405-447 | The entry of a field from its accumulator is the fact its values define |
| SummaryWriter.EnumerateField | engine/compressors/invariants.go:562-616 | The bucket loops compute the specified enumeration or refuse it |
| SummaryWriter.CoverageEntry | engine/compressors/invariants.go:851-866 | Dense when it can be, bounded otherwise |
| SummaryWriter.ShedLoop | engine/compressors/invariants.go:486-509 | The loop drops the last of the least important facts until the text fits |

## Left out

- JSON validity in the stripper is the parameter `jsonValid` with the grammar as its meaning; the nesting limit of Go's own check is not part of this model.
- The envelope, schema and name-map walkers of the stripper are one dispatch over zones, and their two array loops are one method.
- Invalid UTF-8: texts are sequences of characters, so the compressors' checks for it are not modelled.
- The TOON encoder with a tab as delimiter: the compressor always uses a comma, and the reader splits on nothing else.
- Parsing JSON text into TOON values: the round trip starts from values with distinct keys, which is what that parser guarantees.
- SQLite itself, file identity and permissions, journals, concurrent processes and the busy retry.
- Storage errors other than a full disk, and a counter row that was removed, for which the program falls back to the scan.
- Creation times are integers; the program orders their RFC 3339 text, which is not exactly chronological when fractions differ in length.
- A batch of an expiry that finds the disk full even without tombstones: the program then ends the reclaim with an error.
- The wall-clock limit of an expiry, and the fields of its report other than what was freed and kept.
- Absent metadata and empty metadata of a recovery are the same; a recovery of no bytes is stored like any other.
- A claim that repair keeps every id the damaged store could still read: reads fall back to a healthy twin, while repair drops a full row whose own bytes fail.
- The lists of ids in a repair report, which are cut at two hundred.
- Listing a session's objects, finding a decision, statistics and inspection.
- Recall in the memory store, and its search index.
- The two loops of History are the methods Earlier and Later.
- RedundancyGuard.KeepNonRedundant: takes the vocabulary of each unit, with its digits masked or not, as an input.
- LogElision.ElideLines: takes the keep decision of each line and the summary of a run as inputs, and leaves out the note that may follow the view.
- SummaryWriter.SummarizeElided: takes units as name and value pairs; how log lines, rows and objects are read as fields is not modelled. Which values are numbers and which names look secret are inputs.
- SummaryReader.TextReads: reads a whole text back where no kept name or value holds a space or a semicolon, and names of constants and ranges no equals sign; the summary escapes none of these. `SummaryReader.SummaryTells` says entry by entry what holds without that.
- ListingNumbers.RestoredNumbersAreTrue: says nothing about bodies whose markers also occur in the source, where a marker would be taken for that line.
- StoreRepair.EachIdCountsOnce: compares the total with the ids named only for an index whose lookups find no row of another id; otherwise a lookup may bring a new id while its own key stays uncounted.
- MemoryLineage.IdNamesOtherExactly: ranges over runs with texts of any size, while the store refuses texts beyond its cap.
- Token counters, detection and the compressors behind the engine are parameters; query relevance and the other compressors are not modelled.
- Overflow of counts read from text: a count beyond the machine's integers exceeds any number of lines or cells, so it is refused either way.
