# SchemaBrain: audit log and indexer, verified

A Dafny model of the two parts of SchemaBrain whose correctness does not show in any single
function, with proofs that hold for every input, every run and every reachable store.

**The tamper-evident audit log.** Canonical row bytes, the hash chain over them, the walk that
verifies the chain in all its modes, the `--since` cursor, the writer that extends the chain, the
RFC 6962 Merkle tree with its leaf-to-root verifier, and the browser's copy of that verifier.
SHA-256 is a parameter `H` of every statement: any total function from byte strings to 32-byte
digests, never assumed injective. Where security is claimed, a compiled extractor returns the
evidence: two different byte strings with one hash, or a byte string hashing to the all-zero
genesis value. `Breaks(H, e)` says that the evidence is real; no statement says merely that a
collision exists.

**The cache-aware indexer.** The SQLite cache as a class whose methods are its transactions, the
indexing pass with aborts, its dry run, and the store-call log of a run, so that a kill between any
two calls is a prefix of that log.

## Layout

| file | module | content |
|---|---|---|
| `Bytes.dfy`, `Wrappers.dfy`, `Text.dfy`, `Encodings.dfy` | | digests and evidence, results, sorted strings, hex and UTF-8 (section 3 of RFC 3629) |
| `Json.dfy`, `JsonForm.dfy` | | compact sorted JSON (section 7 of RFC 8259) with and without ASCII escapes, a reader, round trip; the printed form said without printer or reader |
| `Canonical.dfy`, `CanonicalForm.dfy`, `RowDict.dfy` | | the 13-field canonical row and its reader; the one text of a row; the column-by-column copy from SQLite |
| `Chain.dfy`, `RowOutcomes.dfy`, `ChainSecurity.dfy`, `ChainTampering.dfy`, `ChainMoves.dfy` | | the walk; which rows stop it; what it means; what edits and moves it reports |
| `Cursor.dfy`, `AuditWriter.dfy`, `Fingerprint.dfy` | | since-cursors; writers; the per-call fingerprint |
| `Merkle.dfy`, `MerkleSecurity.dfy`, `MerkleMembership.dfy`, `BrowserVerifier.dfy`, `LogRoots.dfy` | | the tree and its verifiers; untrusted indices; chain and tree together |
| `Store.dfy`, `Indexer.dfy` | `CatalogStore`, `Indexing` | the cache and one pass over it |
| `IndexerRuns.dfy`, `IndexerCounts.dfy`, `CrashRecovery.dfy`, `CrashHistory.dfy`, `CacheHistory.dfy` | | aborts, counters, kills, histories |
| `ColumnFingerprint.dfy`, `TagOutcome.dfy`, `Namesakes.dfy` | | what a cache hit certifies; the tags after a run; tables that share a dotted name |

Functions specify; methods carry the loops and state changes of the original and are proved equal to
the functions. Recursive functions over `H` or a configuration list it in their `decreases` clause.

## Where the code and its documentation differ

The model follows the code.

- `verify_inclusion` checks no lengths. An accepted leaf value is the genuine one exactly when it is
  32 bytes wide (`MerkleSecurity.SoundIffDigest`), and values of other widths are accepted for every
  log of two or more rows (`MerkleSecurity.WidthUnbound`). The browser's verifier checks widths, so
  it is not "byte-identical" to the Python one; `BrowserVerifier.VerifyInclusion` states the exact
  difference.
- A proof's index means something only together with the log's size (`MerkleMembership.IndexNeedsSize`).
  An accepted row is the one that the left and right turns of the claimed leaf land on in the true tree
  (`MerkleMembership.Membership`), so a claimed index can be believed for a log size iff they land on
  nothing or on that index (`MerkleMembership.IndexBound`).
- The walker's documentation says that editing a stored hash makes subsequent rows fail. Only the
  next one does (`ChainTampering.HashEdit`).
- The walker promises to report unserialisable rows rather than crash. It catches `ValueError` only:
  text in a BLOB column, or a BLOB in a text column of an otherwise well-formed row, raises `TypeError`; a
  stored hash that does not read as 32 bytes makes the next serialisable row raise outside the `try`; then
  nothing more is reported. `ChainSecurity.WalkMeaning` says from the cells exactly when the walk survives.
- An edit of `id` that moves a row is reported at up to three places (`ChainMoves.MovedLater`,
  `ChainMoves.MovedEarlier`).
- An integer `n` in a BLOB column reads back as `n` zero bytes, so a row's cells are bound only up to
  that exchange (`ChainTampering.FieldByField`, `ChainTampering.IntegerPassesForZeros`).
- The `--since` walk covers all rows at or after a time only when timestamps never decrease with the
  id (`Cursor.CoverageIff`). A duration of eight or more characters made of digits and a final `d` is
  taken for a hash prefix (`Cursor.LongDurationIsPrefix`).
- A writer caches the tail of the chain. Two writers on one file therefore break it; the rows reported
  are exactly those written from a stale tail (`AuditWriting.RunReports`).
- The indexer's documentation names the window between descriptions and embeddings. A kill anywhere
  behind the fingerprint write loses whatever of descriptions, embeddings and tags was still to come, and
  a kill behind the first write of a table without columns loses its tags; `CrashRecovery.TableCrash` gives the exact condition. A kill
  between dropping a vanished table and wiping its tags leaves the tags (`CrashHistory.DropCrash`).
- A table without columns is never written (`IndexerRuns.CachedIff`).
- PII tags hang on `schema.table` as one string, which two tables can share
  (`Namesakes.DottedNamesCollide`). An unchanged table therefore keeps its tags only under the condition
  of `Namesakes.TagsSurvive`; `Namesakes.TagsLost` is a store in which it does not. Without dots in
  schema names every table keeps its own (`Namesakes.UndottedRun`).
- Rewriting a changed table deletes its row first, and the cascade deletes example queries, entities, joins
  and metrics along with it. Only the derived rows the indexer rewrites are documented to go;
  `IndexerRuns.DependentSurvives` says exactly what stays.
- Renaming a foreign key, or regrouping composite keys with the same column pairs, is no change to the
  indexer (`ColumnFingerprint.HashesBindShape`).

## Model

| member | source | states |
|---|---|---|
| Merkle.VerifyInclusion | schemabrain/audit/merkle.py:140-185 | the fn/sn loop with its inner collapse keeps fn <= sn, terminates, and accepts exactly when the index is in range and rebuilding the root by the recursive RFC 6962 tree from leaf value and path gives the claimed root |
| Merkle.TreeHead | schemabrain/audit/merkle.py:46-127 | the root of no row, of one row and of any tree split at its power of two, as the hashes of the very bytes RFC 6962 lists, prefixes included |
| Merkle.RunIsFold | schemabrain/audit/merkle.py:162-185 | from every index, size, leaf and path the leaf-to-root walk computes the root-to-leaf recursion, border collapse included |
| MerkleSecurity.SplitByBitLength | schemabrain/audit/merkle.py:80-87 | the bit-length shift is the power of two k with k < n <= 2k |
| MerkleSecurity.Completeness | schemabrain/audit/merkle.py:101-185 | the proof of every leaf of every log is accepted against that log's root |
| MerkleSecurity.AcceptanceShape | schemabrain/audit/merkle.py:162-185 | acceptance forces the path length of a genuine proof for that index and size, whatever the hashes, at most the bit length of n-1 |
| MerkleSecurity.WrongRootOnly | schemabrain/audit/merkle.py:162-185 | a path of that length is rejected for no other reason than a wrong root, and other lengths always |
| MerkleSecurity.TwoProofs | schemabrain/audit/merkle.py:160-185 | two accepted proofs for one index, size and root with 32-byte leaf values agree in leaf and path, or the extractor returns a collision |
| MerkleSecurity.Soundness | schemabrain/audit/merkle.py:140-185 | against a root built from a log, an accepted 32-byte leaf value and path are the genuine ones, or a collision is extracted |
| MerkleSecurity.SoundIffDigest | schemabrain/audit/merkle.py:140-185 | an accepted leaf value is the genuine one iff it is 32 bytes wide, up to an extracted collision |
| MerkleSecurity.WidthUnbound | schemabrain/audit/merkle.py:140-185 | for every log of at least two rows, index and width up to 64 the verifier accepts a leaf value of that width |
| MerkleSecurity.Position | schemabrain/audit/merkle.py:61-69 | with the true size, an accepted row is the row at the claimed index, or a collision is extracted |
| MerkleSecurity.RootBinding | schemabrain/audit/merkle.py:90-98 | equal roots are equal logs, of whatever lengths, the empty one included, or a collision is extracted |
| MerkleMembership.Membership | schemabrain/audit/merkle.py:140-185 | whatever index and size a proof claims, an accepted row is the row the claim lands on, or a collision is extracted |
| MerkleMembership.LandingAccepted | schemabrain/audit/merkle.py:140-185 | wherever a claim lands, the genuine proof of that row is accepted under it |
| MerkleMembership.IndexBound | schemabrain/audit/merkle.py:140-185 | in all logs of a size the row accepted under a claimed index and size is the one at that index, up to an extracted collision, iff the claim lands there on nothing or on that index |
| MerkleMembership.TrueSizeLands | schemabrain/audit/merkle.py:101-118 | with the true size every index lands on itself |
| MerkleMembership.IndexNeedsSize | schemabrain/audit/merkle.py:140-185 | an instance: the proof of the last of three rows is also accepted as the second of two |
| BrowserVerifier.VerifyInclusion | web/lib/merkle.ts:83-117 | accepts exactly what the Python verifier accepts with a 32-byte leaf and 32-byte siblings |
| BrowserVerifier.WidthsDecide | web/lib/merkle.ts:83-117 | the extra condition is 32 bytes in the leaf, the root and every sibling |
| BrowserVerifier.BrowserCompleteness | web/lib/merkle.ts:83-117 | accepts every proof the server builds |
| BrowserVerifier.VerifiersAgree | web/lib/merkle.ts:75-117 | on a 32-byte leaf value both verifiers agree against a root built from a log, up to an extracted collision |
| Json.RoundTrip | schemabrain/audit/canonical.py:94-100 | every flat object is read back from its compact sorted bytes, under either escaping |
| JsonForm.QuoteForm | schemabrain/audit/canonical.py:94-100 | inside a string every character from the blank up stands for itself but the quote and the backslash (and, with ASCII escapes, DEL and above); seven have a two-character escape; the others are the lowercase `\u` escapes of their UTF-16 units |
| JsonForm.DumpsForm | schemabrain/audit/canonical.py:94-100 | the bytes of an object are the shortest UTF-8 encoding of one text: its members in code-point order of their names, single commas and colons, no blank outside a string |
| Canonical.CanonicalAuditRow | schemabrain/audit/canonical.py:63-100 | in whatever order the fields are visited, bytes and kind of exception are those of the order-free specification |
| Canonical.RoundTrip | schemabrain/audit/canonical.py:63-114 | every row that serialises is recovered field by field from its bytes |
| Canonical.Injective | schemabrain/audit/canonical.py:63-100 | different rows have different bytes |
| CanonicalForm.RowForm | schemabrain/audit/canonical.py:30-114 | the bytes of a row that serialises: thirteen named fields in code-point order, NULL as `null`, integers in decimal, text unescaped but for quote, backslash and controls, digests as lowercase digits, in shortest UTF-8 |
| CanonicalForm.RowExact | schemabrain/audit/canonical.py:63-100 | and any bytes of that form are the bytes of the row |
| CanonicalForm.FieldKinds | schemabrain/audit/canonical.py:49-114 | NULL passes in `caller_id`, `refusal_reason`, `ast_shape_hash` and `rule_id` alone, a 32-byte BLOB in `ast_shape_hash` and `fingerprint` alone |
| Canonical.Outcomes | schemabrain/audit/canonical.py:63-114 | which rows serialise, and which raise `TypeError` instead of `ValueError`, both exactly |
| RowDict.RowToCanonicalDict | schemabrain/audit/verify.py:155-166 | the column loop builds the normalised dict, or raises for the first binary column `bytes()` rejects |
| RowDict.LockStep | schemabrain/audit/verify.py:38-55 | the selected columns are the canonical fields |
| Chain.WalkChain | schemabrain/audit/verify.py:69-152 | in all modes the generator yields and raises what the recursive walk says, fail-fast being the full walk up to its first report |
| ChainSecurity.FailFast | schemabrain/audit/verify.py:69-152 | from any start the default mode yields exactly the report of the first row that fails, if all rows before it pass, and raises nothing; with no such row it ends as the full walk does |
| ChainSecurity.NoStart | schemabrain/audit/verify.py:98-111 | an unknown starting id yields nothing; an unreadable stored hash there raises |
| ChainSecurity.Compose | schemabrain/audit/verify.py:123-152 | walking two blocks is walking the first, then the second from the hash the first left, unless the first raised |
| RowOutcomes.RowOutcome | schemabrain/audit/verify.py:155-166 | from the stored cells: which rows serialise and which raise the exception the walk does not catch, both exactly |
| ChainSecurity.WalkMeaning | schemabrain/audit/verify.py:123-152 | the full walk survives iff no row's hash cell is unreadable, no row raises uncaught and no serialisable row stands behind a hash that does not read as 32 bytes; it then reports exactly the failing links |
| ChainSecurity.ReportsAre | schemabrain/audit/verify.py:123-152 | the reports are, with id and both hashes, those of the rows whose stored hash is not the hash of the stored hash before them and their own bytes, and those of the rows without canonical bytes |
| ChainSecurity.ReportOrder | schemabrain/audit/verify.py:117-152 | reports come in id order, at most one a row |
| ChainSecurity.Decomposition | schemabrain/audit/verify.py:98-152 | for an existing row N the genesis walk is the walk up to N, with reports at ids up to N, followed by the since-walk from N, with reports behind N |
| ChainSecurity.TruncationUnseen | schemabrain/audit/verify.py:123-152 | a clean log cut short is clean |
| ChainTampering.HeadBinding | schemabrain/audit/chain.py:32-44 | two clean logs with one head hash hold the same rows in the same order, whatever their lengths, or a collision or genesis preimage is extracted |
| ChainTampering.HeadBindsCells | schemabrain/audit/verify.py:106-152 | and then the same stored cells, field by field, exactly where binary columns are stored alike |
| ChainTampering.FieldByField | schemabrain/audit/verify.py:155-166 | rows with one canonical dict have the same cells iff the same binary columns hold integers |
| ChainTampering.IntegerPassesForZeros | schemabrain/audit/verify.py:160-166 | the integer 32 and 32 zero bytes in `fingerprint` are one row to the walk |
| ChainTampering.InteriorDeletion | schemabrain/audit/verify.py:123-152 | deleting a non-empty block that is no suffix makes the full walk report exactly the first row behind the gap, or evidence is extracted |
| ChainTampering.ContentEdit | schemabrain/audit/verify.py:125-152 | editing a row but neither its hash nor its place in id order is reported there and nowhere else iff it changed a canonical column, as unserialisable on `ValueError`; a `TypeError` ends the walk; up to an extracted collision |
| ChainMoves.MovedLater | schemabrain/audit/verify.py:115-152 | an edited id that moves a row behind others: the first row it passed, the moved row and the row behind it are reported, each with its hash, and nothing else, unless the moved row ends the walk; up to extracted evidence |
| ChainMoves.MovedEarlier | schemabrain/audit/verify.py:115-152 | an edited id that moves a row before others: the moved row, the first row it passed and the row that stood behind it are reported, likewise |
| ChainTampering.HashEdit | schemabrain/audit/verify.py:125-152 | replacing only the stored hash cell by any other: one that cannot be read ends the walk there; other bytes are reported at that row and its successor if any, and nowhere else, up to an extracted collision; bytes not 32 wide end the walk at the successor |
| Cursor.ResolveSinceCursor | schemabrain/audit/verify.py:207-257 | the outcome in every case: unique match, none, the first two of several, latest row before the threshold, none, malformed |
| Cursor.DecidedByTime | schemabrain/audit/verify.py:213-257 | a text shorter than eight characters, or with one outside 0-9 and a-f, is decided by the time parser: malformed, the last earlier row, or nothing before |
| Cursor.DecidedByHash | schemabrain/audit/verify.py:213-233 | every other text is decided by the stored hashes, whatever the parser says |
| Cursor.WeekIsDuration | schemabrain/audit/verify.py:213-239 | `7d` is never looked up as a hash |
| Cursor.HitMeans | schemabrain/audit/verify.py:218-224 | a prefix matches a stored hash iff its characters are the leading hexadecimal digits of the bytes |
| Cursor.PrefixResolves | schemabrain/audit/verify.py:213-233 | a hex prefix resolves iff exactly one row matches, and to it |
| Cursor.TimeResolves | schemabrain/audit/verify.py:239-257 | a time resolves iff some row precedes it, and to the last such row |
| Cursor.CoveredRows | schemabrain/audit/verify.py:239-257 | the since-walk covers the rows behind the cursor, none of which precedes the threshold |
| Cursor.LongDurationIsPrefix | schemabrain/audit/verify.py:213-217 | `1234567d` is looked up as a hash prefix, whatever the duration parser says |
| Cursor.CoverageIff | schemabrain/audit/verify.py:194-199 | every time cursor covers exactly the rows at or after its threshold iff timestamps never decrease with the id |
| Cursor.PastedHashResolves | schemabrain/audit/verify.py:215-233 | the full hash of any row of a clean log resolves to that row, or a collision is extracted |
| AuditWriting.AuditWriter.Open | schemabrain/audit/writer.py:292-318 | opening loads the stored tail, genesis for an empty table, or fails |
| AuditWriting.AuditWriter.Write | schemabrain/audit/writer.py:320-419 | commits exactly one row chained to the cached tail, or, if it does not serialise or the INSERT is refused, changes nothing; keeps ids increasing, an up-to-date tail up to date and a clean log clean |
| AuditWriting.TailMeans | schemabrain/audit/writer.py:292-318 | the loaded tail: 32 zero bytes for an empty table, else the last stored hash, which must read as 32 bytes |
| AuditWriting.CommitsIff | schemabrain/audit/writer.py:355-409 | a write commits a row iff it serialises under the next id, the cached tail is 32 bytes wide and SQLite does not refuse; the row holds that id (1 on an empty table), the bound columns and the hash of tail and bytes |
| AuditWriting.WriteFailsIff | schemabrain/audit/writer.py:355-409 | and what stops it, with the exception raised in each case |
| AuditWriting.RunExtends | schemabrain/audit/writer.py:355-409 | over any run of any writers no stored row changes and every new row takes the next id |
| AuditWriting.ReopenedIsFresh | schemabrain/audit/writer.py:290-318 | reopening brings a writer up to date, so that its next row is not reported |
| AuditWriting.VerifierReadsTheSame | schemabrain/audit/writer.py:361-377 | the verifier recomputes from the stored cells the bytes the writer hashed |
| AuditWriting.RunReports | schemabrain/audit/writer.py:320-419 | after any interleaving of any writers opening and writing, the walk reports exactly the rows written from a stale tail, or a collision is extracted |
| AuditWriting.LoneWriterStaysClean | schemabrain/audit/writer.py:410-419 | one writer keeps a clean log clean through any run |
| AuditWriting.SecondWriterForks | schemabrain/audit/writer.py:285-290 | two writers opened on one clean file: the second to commit is reported, or evidence is extracted |
| Fingerprint.PreimageInjective | schemabrain/audit/fingerprint.py:62-82 | equal preimages are equal inputs |
| Fingerprint.PreimageReads | schemabrain/audit/fingerprint.py:70-81 | the hashed bytes read as six members, each under its name, version and sorted tags included |
| Fingerprint.PreimageForm | schemabrain/audit/fingerprint.py:70-81 | and are the one printed form of them, everything from DEL up escaped |
| Fingerprint.FingerprintBinding | schemabrain/audit/fingerprint.py:62-82 | one fingerprint for two inputs gives a collision |
| Fingerprint.OrderIrrelevant | schemabrain/audit/fingerprint.py:70-82 | the preimage depends on the set of tags, not on how it is enumerated |
| LogRoots.AuditLeafPreimages | schemabrain/dashboard/sidecar.py:1084-1117 | exports every row's canonical bytes in order, or names the first row that does not serialise |
| LogRoots.RootBindsLog | schemabrain/dashboard/sidecar.py:1084-1117 | two exported logs with one Merkle root hold the same rows, or a collision is extracted |
| LogRoots.ProvenRow | schemabrain/audit/merkle.py:140-185 | a row accepted at a position of a log's root has the content of the row there, or a collision is extracted |
| LogRoots.HeadIffRoot | schemabrain/dashboard/sidecar.py:1084-1092 | two clean logs have one chain head iff they have one Merkle root, up to extracted evidence |
| CatalogStore.Store.WriteTable | schemabrain/core/store.py:1416-1492 | replaces the table row; its derived rows and everything that hangs on it are gone |
| CatalogStore.Store.DeleteTable | schemabrain/core/store.py:1551-1563 | removes the row with its derived rows and what hangs on it, and leaves the tags |
| CatalogStore.Store.WriteTableFingerprints | schemabrain/core/store.py:1584-1629 | replaces the fingerprints of a stored table and nothing else |
| CatalogStore.Store.WriteTableDescriptions | schemabrain/core/store.py:1695-1740 | replaces the descriptions of a stored table and nothing else |
| CatalogStore.Store.WriteTableEmbeddings | schemabrain/core/store.py:1848-1905 | replaces the embeddings of a stored table and nothing else |
| CatalogStore.Store.WriteColumnPiiTags | schemabrain/core/store.py:3074-3176 | replaces the tags under one dotted name; an empty mapping removes them |
| Indexing.UnchangedIff | schemabrain/indexer.py:290-306 | nothing added, removed or changed iff cached columns and hashes equal the new ones |
| Indexing.DropVanished | schemabrain/indexer.py:267-274 | all vanished tables, what hangs on them and the tags under their names are gone, and nothing else |
| Indexing.PersistTable | schemabrain/indexer.py:377-460 | the separate writes together leave the table's complete new entry and tags |
| Indexing.Index | schemabrain/indexer.py:219-495 | a pass completes iff profiling or enrichment raises for no table it works on, with the specified store and counters; otherwise it stops at the first such table, with the tables before it done and nothing of that table |
| Indexing.DryRunIndex | schemabrain/indexer.py:514-636 | returns the counters of a diff of every table against the store as it is, which it does not modify |
| IndexerRuns.AbortConvergence | schemabrain/indexer.py:40-47 | any sequence of aborted runs followed by a complete one ends in the store of one complete run, and all of them together rewrite what that run would have, in its order |
| IndexerRuns.RewrittenOnce | schemabrain/indexer.py:285-466 | over such a sequence a table is rewritten iff it differed from the cache at the beginning, and never twice |
| IndexerRuns.Idempotence | schemabrain/indexer.py:9-19 | a second run works on no table, leaves the store equal and counts every table unchanged and none removed |
| IndexerRuns.CacheMatchesSource | schemabrain/indexer.py:285-309 | after a complete run from any store the cache holds no other tables and agrees on every column's hash |
| IndexerRuns.CachedIff | schemabrain/indexer.py:297-309 | a source table is cached after a run iff it has a column or was cached before |
| IndexerRuns.EntryAfterRun | schemabrain/indexer.py:285-460 | an unchanged source table keeps its row and derived data; a changed one has, column by column, the new fingerprints, what the pipeline returned and the embeddings of that |
| IndexerRuns.DependentSurvives | schemabrain/core/store.py:1416-1448 | an example query, entity, join or metric outlives a run iff no table it hangs on has vanished or changed |
| IndexerCounts.DryRunFidelity | schemabrain/indexer.py:563-634 | the dry run predicts tables and columns exactly, descriptions and embeddings from above, and the whole result iff every enriched table gets a description for each column |
| IndexerCounts.TableCounters | schemabrain/indexer.py:267-479 | the tables counted as changed are those rewritten, as unchanged the rest of the source, as removed the cached ones it no longer lists |
| IndexerCounts.ColumnCounters | schemabrain/indexer.py:285-466 | what one table counts: new columns, columns with another hash, vanished columns, descriptions returned and embeddings, or nothing |
| IndexerCounts.RunTotals | schemabrain/indexer.py:285-479 | every counter of a run is the sum over the tables, each compared with the store the run began with |
| IndexerCounts.DryTableCounters | schemabrain/indexer.py:563-634 | the dry run counts as changed exactly the tables a run would rewrite |
| IndexerCounts.ColumnConservation | schemabrain/indexer.py:462-479 | cached columns after plus removed equal cached columns before plus added, and tables seen are changed plus unchanged |
| CrashRecovery.TableCrash | schemabrain/indexer.py:377-460 | a run killed after w writes of a table, then a complete one: everything but that table is as undisturbed; the whole store iff the table is retried, or its row is as the lost writes would have left it and so are its tags or a later changed namesake writes them anew |
| CrashRecovery.RetriedIff | schemabrain/indexer.py:24-38 | the next run retries a killed table iff nothing was written, or only its row and it has columns |
| CrashRecovery.KilledStages | schemabrain/indexer.py:377-460 | what stands after each write of a table: row, fingerprints, descriptions, embeddings in this order, the tags last |
| CrashHistory.RunOpsMeaning | schemabrain/indexer.py:267-460 | the log of store calls, applied in full, is the run, whatever the order of drops |
| CrashHistory.DropCrash | schemabrain/indexer.py:267-274 | a kill between a drop and its tag wipe costs at most those tags, and nothing iff there are none, another vanished namesake is still to be dropped or a changed source table is a namesake |
| CrashHistory.AnyCrash | schemabrain/indexer.py:24-38 | killed at any store call, the next complete run ends as an undisturbed one except for at most one table's row, derived data, dependents and tags |
| CacheHistory.KilledRunKeeps | schemabrain/indexer.py:377-402 | at every store call of every run, stored fingerprints are those of the stored table or absent |
| CacheHistory.CacheAgreement | schemabrain/indexer.py:24-38 | after any history of complete, aborted and killed runs over changing sources, one complete run stores every source table with a column in a version with the source's hashes |
| ColumnFingerprint.PreimageBinds | schemabrain/core/fingerprint.py:61-78 | equal structural preimages are equal columns with equal foreign-key targets |
| ColumnFingerprint.PreimageReads | schemabrain/core/fingerprint.py:61-78 | the hashed bytes read as seven members, each under its name, targets sorted |
| ColumnFingerprint.PreimageForm | schemabrain/core/fingerprint.py:156-167 | and are the one printed form of them |
| ColumnFingerprint.HashesBindShape | schemabrain/core/fingerprint.py:46-78 | the comparison takes two tables for the same iff they have the same columns and their foreign keys pair the same columns with the same dotted targets, up to an extracted collision |
| ColumnFingerprint.MovedTarget | schemabrain/core/fingerprint.py:46-78 | a foreign key that pairs a column with a target the other version does not makes the tables different, or a collision is extracted |
| ColumnFingerprint.StoredShape | schemabrain/indexer.py:9-19 | after any history and a complete run every source table with a column is stored in the source's shape, or a collision is extracted |
| Namesakes.DottedNamesCollide | schemabrain/indexer.py:425 | two tables can share a dotted name |
| Namesakes.UndottedSchemas | schemabrain/indexer.py:425 | without dots in schema names they cannot |
| Namesakes.UndottedRun | schemabrain/indexer.py:425-460 | then a run leaves every source table its own tags: the old ones if unchanged, the new ones otherwise |
| TagOutcome.RunTags | schemabrain/indexer.py:267-460 | the tags under any dotted name after a run: what the last changed table of that name wrote; else none if a vanished table of that name was dropped; else the old ones |
| Namesakes.TagsSurvive | schemabrain/indexer.py:267-460 | tags survive a run iff the last changed namesake writes the same ones, or there is none and no vanished namesake is dropped while there are tags |
| Namesakes.NamesakeLosesTags | schemabrain/indexer.py:267-274 | where all tables of a name are unchanged, its tags survive iff there are none or no vanished namesake is dropped; what is lost stays lost on the same source |
| Namesakes.TagsLost | schemabrain/indexer.py:267-274 | a store and source in which an unchanged table loses its tags |

## Left out

- SHA-256 itself: `H` is any function to 32-byte digests.
- SQLite: a table is its rows in id order, a transaction is one step; REAL values, 64-bit ids, column affinity and the append-only triggers are not modelled. A child write without its parent row, which SQLite would reject, changes nothing.
- Texts of exceptions: only their kind is modelled, so a report for an unserialisable row carries no message.
- Python's limit on converting very long integers to text.
- AuditWriting.AuditWriter.Write: does not assemble the draft, its timestamp and fingerprint or the non-canonical `anchor_entity` column, because they only fill the columns; it takes the bound columns.
- `parse_since` and the clock: a parameter that gives the threshold text or an error.
- BrowserVerifier.VerifyInclusion: does not model JavaScript's 32-bit shifts, because indices are unbounded here; it speaks for logs of at most 2^31 rows. Hex decoding in the browser is not modelled.
- Profiler, enrichment pipeline, embedder, classifier and row-count estimate: pure functions of the table; their failure is a choice made before a table's first write. The semantic fingerprint is one more such function.
- Indexing.Index: keeps its counters in one record and leaves out cost figures, because reporters and cost do not touch the tables.
- The cost ledger, concurrency inside the pipeline, reporters, cost figures and result texts: no effect on the store's tables.
- Operator PII overrides and other `source_connection_id` values: kept apart by the store, untouched by a run.
- CatalogStore.Store.WriteTable: takes example queries, entities, joins and metrics as named dependents with the set of tables they hang on, because a run only deletes them; their contents and the calls that write them are not modelled.
- Finite-value checks on embedding vectors: vectors are real.
- Sources that list a table twice: the database does not, and the run theorems ask for distinct tables.
