# mnemonic: a verified model

mnemonic is a scored memory store with a vector index beside it. The same entries exist in several
representations at once: nested slices in memory, category files, SQL rows, a snapshot map, an index of
vectors, the index's own metadata and files. This project models those representations in Dafny and proves
when they stay in agreement, when the stores give the same answer to the same query, and what the
operations above them (deduplication, merging, linting, semantic search, the query handler) do to them.
The stores differ in three ways that the theorems name: the SQL store refuses a scope that is not configured
and takes an empty category as any category, its own ranking ignores the creation time, and the snapshot does
not default an empty scope.

`dafny verify dfyconfig.toml` checks everything.

## How it is organised

| file | models |
|---|---|
| `Text.dfy`, `Entries.dfy`, `Selection.dfy`, `Heads.dfy` | strings, the stored entry, the matching loops and what a query finds, category counts |
| `StableSort.dfy` | the in-place stable sort, ranking a set, and how sorting, filtering and truncating commute |
| `Ranking.dfy` | weighted scores, the tolerant comparator, and `Answer`, the reference answer of every query |
| `Effects.dfy` | what each operation does to one entry, field by field, and what that adds up to over several |
| `YamlState.dfy`, `YamlListing.dfy`, `YamlStore.dfy` | the YAML store: its steps on values, its listing order, and the class that updates its fields |
| `SnapshotStore.dfy`, `SqliteStore.dfy` | the other two stores |
| `VectorTables.dfy`, `Rebuild.dfy`, `IndexSqlite.dfy` | the two-table vector index, what a rebuild leaves behind, the manager over the tables |
| `Managers.dfy` | what either index manager holds and does to it, as the controller sees it, and when the two managers agree |
| `FlushProtocol.dfy`, `IndexHnsw.dfy` | the HNSW manager's critical sections as interleaved steps, and the manager whose methods are runs of them |
| `Deduplication.dfy`, `Merging.dfy`, `Controller.dfy` | deduplication, merging, semantic search and rebuilding over store and index together |
| `ControllerRuns.dfy` | what each controller operation makes of store and index as values, and the runs of such operations |
| `Lint.dfy`, `Server.dfy`, `Compact.dfy` | the linter, the query handler, and cosine similarity with the choice of a compaction |

Each method is proved against a function of its inputs or of the old state, and the promises are lemmas about
those functions. `Answer(w, m, q, k)` is the shared reference for queries: rank the set of entries of the map
`m` that match the request `q` and truncate to `k`. What matching means is said without it, from the strings up:
`Selection.WordHit` and `TagHit`, and the laws of queries beside them. `View` turns the nested buckets into the flat id → entry
map `m`, and the two tables into one id → vector map. `ControllerRuns.Did` is the specification of the controller:
each of its methods ends in the state `Did` gives for its event (`Follows`), and `OrphansIff` says of every run of
events which ids are left in the index without an entry.

## Hypotheses the code does not enforce

- **Well-formed store** (`YamlState.WellFormed`): ids are unique, each entry sits in the bucket of its own
  category and normalised scope, no configured scope has an empty name. `UpsertWellFormedIff` says exactly
  which upserts keep it.
- **Clean tags** (`YamlState.CleanTags`): loading rewrites tags without marking the file dirty, so closing and
  reopening gives memory back exactly when the tags are already in sanitised form (`CloseThenNew`).
- **Ranking** (`Ranking.Rankable`): scores are reals, one `now` is used for a whole sort, and two weights are
  equal or at least 1e-10 apart. Without the gap the comparator is not transitive
  (`ToleranceIsNotTransitive`).
- **Distinct requests**: the ranked answers assume a scope is not asked for twice; the YAML store lists the
  entries of a repeated scope twice.
- **Exponential decay** (`Ranking.Exponential`, `SqliteStore.Decays`): positive, multiplicative, and for the
  SQL comparison strictly decreasing.
- **No empty scope in the SQL table** (`SqliteStore.Store.Valid`): an upsert fills the scope, and only `Promote`
  to the empty scope breaks it, which it does exactly when it succeeds.
- **Parameters**: an id generated for a merge is new to the store, an index search returns each id at most once
  (`Controller.DistinctHits`), and `math.Sqrt` is the square root (`Compact.SquareRoot`). What fails is a parameter
  too: file writes and SQL statements of the stores, and in the two-table index the statements of each insertion,
  deletion, lookup and listing (`landed`, `gone`, `stuck`, `Rebuild.Failures`), which its manager mostly ignores.
- **Symmetric similarity** (`Lint.Symmetric`), only for one half of the linter's independence: a lookup looks at
  the ten nearest entries, which need not be mutual. In the order of the pass no symmetry is needed.
- **Aligned index** (`Managers.Aligned`): the HNSW manager's graph and metadata name the same ids. No run of the
  controller ends this (`RunAligned`), a forced rebuild restores it, but a restart need not
  (`RemovedNodeComesBack`, `RestartHidesIff`). Each result that needs it says so, or gives the exact condition
  (`DroppedIff`, `RebuildingOrphans`, `RebuildingIsExactIff`, `RecoversIff`).
- **Gaps in the search** (`Controller.NearGapped`): distances, and weights, of the hits are equal or further
  apart than the search's own tolerance of 1e-10.
- **Successful flushes** (`FlushProtocol.Succeeds`): `Flush` clears the flag before it writes; `FailedFlushIff`
  says for each of its errors what is left.

## Where the code falls short of what one would expect

- A failed `Flush` ends clean. It leaves the files right exactly if they already were (the file could not be
  created), nothing is indexed (the export failed) or the old metadata still fits (the metadata could not be
  saved): `FailedFlushIff`.
- A build that aborts after pruning writes nothing. Files that were right stay right exactly when nothing was
  pruned, or nothing was indexed for a forced build, which has already cleared the index: `AbortedBuildIff`.
- A flush between the two sections of `RemoveFromIndex` saves the doomed node; after a restart it is in the
  graph without metadata and `RemoveFromIndex` no longer touches it (`RemovedNodeComesBack`). Once a node is out
  of the graph it stays in the file exactly until the next flush (`RemovedNodeSurvivesIff`).
- A load keeps the metadata of ids without vectors when the index file does not open or does not import, as after
  a flush whose export failed, or when it is older or newer than the metadata (`RestartHidesIff`). Unforced rebuilds
  skip such an id as long as they list it (`HiddenIff`, `FailedExportHides`). `RecoversIff` gives, for each failing
  write and each fault of the load, the exact condition for the next rebuild to index exactly the entries, and
  `RecoversWhen` what it comes to when the load itself goes well.
- The two managers do not rebuild alike: when a forced rebuild fails, or a vector has the wrong size, the HNSW
  manager has lost vectors that the two-table manager keeps (`ForcedAlikeIff`).
- The two-table manager only logs a failed deletion or insertion. A rebuild reports success with stale ids left or
  entries missing, exactly as `OutcomeHasNoOrphansIff` and `OutcomeIsExactIff` say.
- `Merge` deletes from the store without telling the index, so the loser's vector stays behind; so does the vector
  of a deletion that the index does not hear of. `OrphansIff` says when an id is such an orphan after a run, and
  `OrphansWereMerged` that nothing but merges makes orphans when deletions succeed and there is an embedder.
- `Save` does not look at the bucket a known id is in: an entry that names another one is stored twice
  (`MemoryController.Save`, `UpsertWellFormedIff`).
- The SQL store promotes to any scope, configured or not, and even to the one the entry is in, which the YAML store
  refuses (`PromotesAlikeIff`).
- Merging an entry with itself deletes it; hits are conserved exactly when the ids differ or there were none
  (`HitsConservedIff`). A maximum score of 0 comes out as 1, because an upsert fills a zero score.
- The SQL `ORDER BY` never falls back to the creation time, since a zero time is not stored as the empty
  string (`SqlWeightIff`), so that the two sort paths can rank differently (`QueryRanksDifferently`).
- Semantic search and the snapshot compare an entry's own scope, the stores its bucket's
  (`ScopesReadAlikeIff`, `Server.Relevant`).
- Building an index lists all entries through `All`, which counts a hit on every one of them
  (`MemoryController.BuildIndexes`).
- In a lint session, merging or deleting the left entry makes a later proposal against the same left entry
  fail (`ChoicesSucceedIff`, `LeftChoicesDangle`); over the SQL store, which does not mind deleting an unknown
  id, only if the later choice is a merge.
- `SemanticSearch` with a limit below 1 still returns one entry (`Controller.Best`).

## Model

| member | source | states |
|---|---|---|
| `Ranking.SortByWeightedScore` | internal/store/ranking.go:12-23 | sorts in place; the result is always a permutation, and under the gap it is the one ascending enumeration of the entries by weight then id |
| `Ranking.ComparatorIsStrict` | internal/store/ranking.go:13-22 | under the gap the tolerant comparator is a strict total order on entries with distinct ids |
| `Ranking.ToleranceIsNotTransitive` | internal/store/ranking.go:16-19 | for every exponential decay and every time, three weighted scores closer than the tolerance on which the comparator is cyclic |
| `Ranking.ArrivalOrderDoesNotMatter` | internal/store/ranking.go:12-23 | any two orders of the same entries sort to the same sequence |
| `Ranking.AnySortAgrees` | internal/store/ranking.go:12-23 | under the gap every sorting algorithm gives this result: an ascending permutation is unique |
| `Ranking.WeightsScaleTogether` | internal/store/ranking.go:28-36 | evaluating later multiplies every weight by the same factor |
| `Ranking.SignIsTimeless` | internal/store/ranking.go:28-36 | which of two entries weighs more is the same at every evaluation time |
| `Ranking.TimeOnlyTies` | internal/store/ranking.go:12-36 | a pair strictly ordered at one time is at any other ordered the same way, or tied and ordered by id |
| `Ranking.RankingIsTimeless` | internal/store/ranking.go:12-36 | two evaluation times that respect the gap sort every list alike |
| `Ranking.AnswerMembers` | internal/store/yamlstore/yaml.go:161-178 | the reference answer has no repeats, only matching entries, all of them without a limit, and as many as limit and matches allow |
| `Ranking.WeightIs` | internal/store/ranking.go:28-36 | the weight is the score decayed by the age since the last hit, or since creation for an entry never hit |
| `Ranking.CompareIs` | internal/store/ranking.go:13-22 | weights at least 1e-10 apart decide the order, nearer ones leave it to the ids |
| `Ranking.AnswerIsInOrder` | internal/store/ranking.go:12-23 | the reference answer goes down in weight, and up in id where weights are equal |
| `Text.LessIff` | internal/store/ranking.go:21 | ids are ordered by their first difference, a prefix first |
| `Text.ToLowerIs` | internal/store/yamlstore/yaml.go:561-581 | folding works letter by letter, is done after one pass, and leaves no capital |
| `Text.ContainsIff` | internal/store/yamlstore/yaml.go:561-581 | a term occurs exactly when it can be cut out of the text |
| `Text.FieldsSplit` | internal/store/yamlstore/yaml.go:185 | a blank separates words: the fields around it are the fields of the two parts |
| `Text.FieldsOfWord` | internal/store/yamlstore/yaml.go:185 | a text without blanks is its own one field |
| `Text.FieldsAreWords` | internal/store/yamlstore/yaml.go:185 | no field is empty or holds a blank, and there is none exactly in a blank text |
| `Text.TrimmedIs` | internal/server/server.go:247-251 | trimming takes blanks off both ends, all of them, and nothing else |
| `Selection.KeywordMatch` | internal/store/yamlstore/yaml.go:561-581 | the two loops decide whether any term occurs in the folded content or a folded tag |
| `Selection.TagsMatch` | internal/store/yamlstore/yaml.go:544-558 | the loops over a set of folded tags decide whether every required tag is among them |
| `Selection.WordsDecide` | internal/store/yamlstore/yaml.go:561-581 | the keyword test accepts exactly the entries that mention a word of the query, and all for a query of blanks |
| `Selection.TagsDecide` | internal/store/yamlstore/yaml.go:544-558 | the tag test accepts exactly the entries that carry every tag asked for, in any case |
| `Selection.WordsFind` | internal/store/yamlstore/yaml.go:182-204 | what matches a keyword query: the stored entries of the category and scopes that mention any of its words |
| `Selection.TagsFind` | internal/store/yamlstore/yaml.go:206-228 | what matches a tag query: the stored entries, of the category if one is given, that carry all of the tags |
| `Selection.WordsUnite` | internal/store/yamlstore/yaml.go:182-204 | two queries joined by a blank find what either finds |
| `Selection.TagsIntersect` | internal/store/yamlstore/yaml.go:206-228 | asking for two lists of tags finds what both find |
| `Selection.NothingAsked` | internal/store/yamlstore/yaml.go:161-204 | a query of blanks is the listing of the category, and no tags exclude nothing |
| `Heads.CountHeads` | internal/store/yamlstore/yaml.go:133-146 | one head for each occurring category, in name order, with its number of entries |
| `Heads.MandatoryHeads` | internal/store/mandatory.go:10-18 | exactly the heads of avoidance and security are mandatory |
| `YamlState.UpsertRefines` | internal/store/yamlstore/yaml.go:230-278 | an upsert that keeps a known id's bucket is one map update and keeps the store well formed |
| `YamlState.UpsertWellFormedIff` | internal/store/yamlstore/yaml.go:230-278 | an upsert keeps the store well formed exactly when a known id names the bucket it is already in |
| `YamlState.PromoteRefines` | internal/store/yamlstore/yaml.go:280-313 | promoting moves one entry between buckets, changing only its scope in the map; a failed source write changes nothing |
| `YamlState.ScoreRefines` | internal/store/yamlstore/yaml.go:315-333 | rescoring the entry where it lies is the flat map's rescoring and keeps the store well formed |
| `YamlState.DeleteRefines` | internal/store/yamlstore/yaml.go:335-349 | deleting removes exactly that id from the map |
| `YamlState.MarkHitsRefines` | internal/store/yamlstore/yaml.go:365-385 | marking the buckets is marking the flat map and keeps the store well formed |
| `Effects.ScoreDoes` | internal/store/yamlstore/yaml.go:315-333 | one entry's score becomes the larger of zero and score plus delta; its hits grow by one, last hit now, exactly when hits are counted; nothing else changes |
| `Effects.ScoreIsMonotone` | internal/store/yamlstore/yaml.go:315-333 | no score falls below zero, and a larger delta never leaves a smaller score |
| `Effects.ScoresAddUpIff` | internal/store/yamlstore/yaml.go:315-333 | two scores come to one by the sum exactly when the first does not stop at zero or the second does not raise |
| `Effects.MarkHitsDoes` | internal/store/yamlstore/yaml.go:365-385 | exactly the listed entries have one hit more, the last of them now, when hits are counted |
| `Effects.HitsAddUp` | internal/store/yamlstore/yaml.go:365-385 | counting hits adds one to the total for each stored id that is listed |
| `Effects.PromoteDoes` | internal/store/yamlstore/yaml.go:280-313 | promoting changes one entry's scope and nothing else, exactly to another configured scope and when the first write succeeds |
| `Effects.FilledDoes` | internal/store/yamlstore/yaml.go:247-258 | an upsert fills in a missing id, a zero score and a missing creation time, and leaves every other field alone |
| `YamlState.StepRefines` | internal/store/yamlstore/yaml.go:230-402 | every operation on the nested store is one operation on the flat map and keeps it well formed |
| `YamlState.RunRefines` | internal/store/yamlstore/yaml.go:230-402 | so does every run, whatever writes fail, as long as upserts keep buckets |
| `YamlState.StepSynced` | internal/store/yamlstore/yaml.go:230-402 | each operation keeps every clean bucket equal to its file, failed flushes and a failed first write of a promotion included |
| `YamlState.RunSynced` | internal/store/yamlstore/yaml.go:230-402 | the same over every run |
| `YamlState.WriteThroughSyncedIff` | internal/store/yamlstore/yaml.go:498-510 | a write-through keeps memory and disk in agreement exactly when the write succeeds, the bucket was dirty, or the file already held the new content |
| `YamlState.LoadedIs` | internal/store/yamlstore/yaml.go:405-445 | loading takes every file of a configured scope entry by entry and changes nothing but the tags |
| `YamlState.CloseThenNew` | internal/store/yamlstore/yaml.go:84-122 | a successful close followed by loading gives back memory, exactly when tags are clean |
| `YamlState.RunCloseNew` | internal/store/yamlstore/yaml.go:84-122 | the same after every run whose writes succeed |
| `YamlListing.ScopesCover` | internal/store/yamlstore/yaml.go:513-539 | the listing of the covered scopes, filtered, is each matching entry exactly once |
| `YamlListing.CategoryCovers` | internal/store/yamlstore/yaml.go:161-195 | reading only the category's own files loses and adds nothing |
| `YamlListing.CategoryWithin` | internal/store/yamlstore/yaml.go:161-195 | and even with a repeated scope yields matching entries only |
| `YamlListing.EverythingIsListed` | internal/store/yamlstore/yaml.go:523-539 | the full listing is exactly the map's entries |
| `YamlStore.Store.constructor` | internal/store/yamlstore/yaml.go:84-112 | loads every file of every configured scope, tags sanitised, nothing dirty |
| `YamlStore.Store.New` | internal/store/yamlstore/yaml.go:405-445 | fails exactly when the directory of a configured scope cannot be created or listed, or a file of one cannot be read, and otherwise loads them all |
| `YamlStore.Store.Flush` | internal/store/yamlstore/yaml.go:388-402 | writes dirty buckets until one fails; those written are clean and on disk, the rest stay dirty |
| `YamlStore.Store.Close` | internal/store/yamlstore/yaml.go:115-122 | flushes once, reporting what a failed flush still wrote; a second close does nothing |
| `YamlStore.Store.Upsert` | internal/store/yamlstore/yaml.go:230-278 | the new memory and disk, both rejections, the stored entry field by field, and exactly when the store stays well formed |
| `YamlStore.Store.Score` | internal/store/yamlstore/yaml.go:315-333 | not found exactly when no bucket holds the id; otherwise its score goes up by delta but not below zero, its hits by one when hits are counted, and nothing else changes |
| `YamlStore.Store.Delete` | internal/store/yamlstore/yaml.go:335-349 | not found exactly when unknown; otherwise the map loses exactly that id |
| `YamlStore.Store.Promote` | internal/store/yamlstore/yaml.go:280-313 | in-place splices, rollback included, move one entry; every refusal leaves memory and disk as they were |
| `YamlStore.Store.MarkHits` | internal/store/yamlstore/yaml.go:365-385 | hits for exactly the answered ids, and dirty marks for exactly the buckets touched |
| `YamlStore.Store.All` | internal/store/yamlstore/yaml.go:124-131 | the reference answer, a listing of every id, and one hit for each entry returned |
| `YamlStore.Store.AllByCategory` | internal/store/yamlstore/yaml.go:161-178 | the reference answer for one category, truncated |
| `YamlStore.Store.QueryByCategory` | internal/store/yamlstore/yaml.go:182-204 | the reference answer; everything in it is of the category and scopes and mentions a word of the query, and without a limit nothing that does is left out |
| `YamlStore.Store.Query` | internal/store/yamlstore/yaml.go:206-228 | the reference answer: exactly the entries that carry all of the tags |
| `YamlStore.Store.Get` | internal/store/yamlstore/yaml.go:148-157 | the map's entry, or none when the id is unknown |
| `YamlStore.Store.ListHeads` | internal/store/yamlstore/yaml.go:133-146 | the reference heads of the requested scopes |
| `SnapshotStore.ScopesReadAlikeIff` | internal/store/snapshot_store.go:143-164 | the snapshot reads every scope list as the stores do exactly when no entry leaves its scope empty |
| `SnapshotStore.SortedReply` | internal/store/snapshot_store.go:43-105 | any visiting order gives the one ranked, truncated selection |
| `SnapshotStore.RepliesAreAnswers` | internal/store/snapshot_store.go:43-105 | without empty scopes that is the YAML store's reference answer |
| `SnapshotStore.SnapshotOfAll` | internal/store/snapshot_store.go:21-28 | a snapshot of everything a store lists holds what the store holds |
| `SnapshotStore.Snapshot.EntriesForScopes` | internal/store/snapshot_store.go:143-164 | whatever order the map is visited in, the same entries once each |
| `SnapshotStore.Snapshot.All` | internal/store/snapshot_store.go:43-47 | a ranked selection independent of map order, and the YAML store's answer when no scope is empty |
| `SnapshotStore.Snapshot.AllByCategory` | internal/store/snapshot_store.go:49-62 | a ranked selection independent of map order, and the YAML store's answer when no scope is empty |
| `SnapshotStore.Snapshot.QueryByCategory` | internal/store/snapshot_store.go:88-105 | a ranked selection independent of map order, of what mentions a word of the query; without a limit all of it; the YAML store's answer when no scope is empty |
| `SnapshotStore.Snapshot.Query` | internal/store/snapshot_store.go:73-86 | a ranked selection independent of map order, of exactly the entries that carry all of the tags |
| `SnapshotStore.Snapshot.ListHeads` | internal/store/snapshot_store.go:30-41 | the counted heads in name order, the same as the YAML store's when no scope is empty |
| `SqliteStore.SqlWeightIff` | internal/store/sqlitestore/sqlite.go:417-423 | the query's weight equals the program's exactly when the entry was hit, or scores zero, or has no creation time |
| `SqliteStore.QueryRanksDifferently` | internal/store/sqlitestore/sqlite.go:417-423 | for every decay and time, two entries that the program sorts one way and the query the other |
| `SqliteStore.RankingNarrows` | internal/store/sqlitestore/sqlite.go:180-231 | filtering a ranked list is ranking the filtered set |
| `SqliteStore.SqlSortThenFilter` | internal/store/sqlitestore/sqlite.go:180-231 | sort, filter, truncate equals filter, sort, truncate equals the reference answer |
| `SqliteStore.RowsAnswer` | internal/store/sqlitestore/sqlite.go:474-480 | whichever side sorts, the truncated rows are the reference answer, as long as the rows of the category and scopes weigh alike on both sides |
| `SqliteStore.SqlAnswer` | internal/store/sqlitestore/sqlite.go:389-448 | when the query sorts, the filtered, truncated rows are the reference answer for the query's own weight, with no gap needed |
| `SqliteStore.KeptMembers` | internal/store/sqlitestore/sqlite.go:180-231 | the answer holds only what matches, without a limit all of it, and is empty exactly when nothing matches |
| `SqliteStore.RowsFound` | internal/store/sqlitestore/sqlite.go:389-472 | the rows a request selects: of the category if one is given, in a scope asked for, or else in a configured one |
| `SqliteStore.Store.ResolveQueryScopes` | internal/store/sqlitestore/sqlite.go:450-472 | an error exactly for an unconfigured scope; otherwise the requested scopes, or all configured ones |
| `SqliteStore.Store.Rows` | internal/store/sqlitestore/sqlite.go:389-448 | an error exactly for an unconfigured scope or a failing read; otherwise the matching rows once each, their tags cleaned up, ranked when the engine can rank |
| `SqliteStore.ScannedIs` | internal/store/sqlitestore/sqlite.go:639-684 | a scanned row differs from the table's only in its tags |
| `SqliteStore.Store.MarkHits` | internal/store/sqlitestore/sqlite.go:511-547 | one hit for each answered row, however often it was answered; a failing transaction changes nothing |
| `SqliteStore.Store.All` | internal/store/sqlitestore/sqlite.go:148-158 | exactly when it fails, and then nothing changes; otherwise the query's own ranking when it sorts, and the same reference answer on either path when the rows weigh alike |
| `SqliteStore.Store.AllByCategory` | internal/store/sqlitestore/sqlite.go:160-174 | exactly when it fails; otherwise the ranking of either sort path over the rows of category and scopes |
| `SqliteStore.Store.QueryByCategory` | internal/store/sqlitestore/sqlite.go:207-231 | the same over the rows that mention a word of the query, all of them without a limit |
| `SqliteStore.Store.Query` | internal/store/sqlitestore/sqlite.go:180-205 | the same over exactly the rows that carry all of the tags |
| `SqliteStore.Store.ListHeads` | internal/store/sqlitestore/sqlite.go:122-146 | an error exactly for an unconfigured scope or a failing read; otherwise the same heads as the other stores' |
| `SqliteStore.Store.Upsert` | internal/store/sqlitestore/sqlite.go:233-296 | refuses unknown categories; one row for each id, whatever its category or scope was; a failing statement changes nothing |
| `SqliteStore.SqlUpsertDoes` | internal/store/sqlitestore/sqlite.go:233-296 | the row it leaves, field by field: what the entry leaves out is filled in, its scope included |
| `SqliteStore.Store.Score` | internal/store/sqlitestore/sqlite.go:298-326 | not found exactly when unknown; otherwise the score goes up by delta but not below zero, hits by one when hits are counted, and nothing else changes; a failing statement changes nothing |
| `SqliteStore.Store.Delete` | internal/store/sqlitestore/sqlite.go:328-344 | one id removed and no error for an unknown one; a failing statement changes nothing |
| `SqliteStore.Store.Promote` | internal/store/sqlitestore/sqlite.go:346-363 | not found exactly when unknown; otherwise any scope is written, and the table stays valid exactly when it is not empty |
| `SqliteStore.PromotesAlikeIff` | internal/store/sqlitestore/sqlite.go:346-363 | promoting does the same to the map in both stores exactly when the id is unknown, already says that scope, or moves to another configured one |
| `SqliteStore.UpsertsAlike` | internal/store/sqlitestore/sqlite.go:233-296 | the YAML store's upsert is the same map update exactly when it keeps the known id's bucket |
| `VectorTables.InsertView` | internal/index/sqlitevec/sqlitevec.go:58-106 | inserting keeps both tables aligned and is one map update |
| `VectorTables.DeleteView` | internal/index/sqlitevec/sqlitevec.go:108-135 | deleting keeps both tables aligned and removes one id |
| `VectorTables.RunRefines` | internal/index/sqlitevec/sqlitevec.go:58-135 | over every run, failed transactions included, the two tables are one id to vector map |
| `VectorTables.ReusedRowIsClean` | internal/index/sqlitevec/sqlitevec.go:58-135 | the next owner of a freed rowid sees only its own embedding |
| `VectorTables.Index.InsertVector` | internal/index/sqlitevec/sqlitevec.go:58-106 | all or nothing; fails exactly for a vector of the wrong size or a failing statement, the fourth of which is not reached for an id that has a vector |
| `VectorTables.Index.DeleteVector` | internal/index/sqlitevec/sqlitevec.go:108-135 | all or nothing; fails exactly for an unknown id or a failing statement |
| `VectorTables.Index.ListIDs` | internal/index/sqlitevec/sqlitevec.go:137-160 | an error exactly when the query fails; otherwise exactly the map's ids, each once |
| `VectorTables.Index.LookupVector` | internal/index/sqlitevec/sqlitevec.go:213-233 | the map's vector, or none, also when reading fails |
| `Rebuild.RebuiltExactlyIff` | internal/controller/index_sqlite.go:78-139 | exactly the entries' ids are indexed, exactly when no stale id is stuck and no missing one refused; refused entries, and in an unforced rebuild all that could be looked up, keep the vectors they had |
| `Rebuild.ForcedIsFresh` | internal/controller/index_sqlite.go:78-139 | when no statement fails, a forced rebuild by overwrite and prune equals clearing and rebuilding: every entry has its new vector |
| `Rebuild.RebuiltIdempotent` | internal/controller/index_sqlite.go:78-139 | an unforced rebuild after one whose failures did no harm embeds nothing and changes nothing |
| `Rebuild.OutcomeHasNoOrphansIff` | internal/controller/index_sqlite.go:78-139 | whatever the outcome, a failed embedding included, no id is left that is not an entry's, exactly when there was none or the ids were listed and every stale one deleted |
| `Rebuild.OutcomeIsExactIff` | internal/controller/index_sqlite.go:78-139 | a rebuild that reports success, with right-sized vectors, indexes exactly the entries, exactly when no stale id is stuck and no missing one refused |
| `Rebuild.RebuiltEmbeds` | internal/controller/index_sqlite.go:78-139 | after a reported success an entry whose insertion did not fail has the vector of its own content if it was missing, unread or forced, and otherwise the vector it had |
| `IndexSqlite.SqliteManager.IndexEntry` | internal/controller/index_sqlite.go:62-71 | one map update, or nothing, exactly when embedding or the insertion failed or the size is wrong |
| `IndexSqlite.SqliteManager.RemoveFromIndex` | internal/controller/index_sqlite.go:73-76 | one id removed, or nothing, exactly when the deletion failed |
| `IndexSqlite.SqliteManager.BuildIndexes` | internal/controller/index_sqlite.go:78-139 | the loops end in exactly the specified outcome and map, whichever lookups, deletions, insertions or listings fail, and embed each entry's own content |
| `Managers.DroppedIff` | internal/controller/index_hnsw.go:179-192 | removing an indexed id removes its vector exactly when the two tables' deletion succeeds, or the metadata knows the id; alignment is kept |
| `Managers.DroppedAllExact` | internal/controller/index_hnsw.go:179-192 | of several ids exactly those stay whose deletion fails or that the metadata does not know |
| `Managers.RebuildingAligned` | internal/controller/index_hnsw.go:194-275 | every rebuild keeps graph and metadata aligned, a forced one aligns them |
| `Managers.RebuildingOrphans` | internal/controller/index_hnsw.go:194-275 | for every outcome of either manager, exactly which ids are left that are no entry's: those it could not delete or list, or that drift has hidden |
| `Managers.RebuildingIsExactIff` | internal/controller/index_hnsw.go:194-275 | a rebuild that ran through leaves exactly the entries' ids, exactly when no failed statement did harm, or graph and metadata had not drifted apart; the metadata always |
| `Managers.RebuildEmbeds` | internal/controller/index_hnsw.go:194-275 | either manager's rebuild that ran through gives each entry the vector of its own content, or leaves the one it had |
| `Managers.UnforcedAlike` | internal/controller/index_hnsw.go:211-275 | from an aligned graph an unforced rebuild is the two-table manager's without failing statements, errors included |
| `Managers.ForcedAlikeIff` | internal/controller/index_hnsw.go:194-209 | without failing statements, clear-and-rebuild ends like overwrite-and-prune exactly when the batch has a right-sized vector for every listed id that is indexed |
| `Managers.HiddenIff` | internal/controller/index_hnsw.go:211-275 | over every run of unforced rebuilds, an id is in the metadata without a vector exactly when it was before and every rebuild lists it |
| `IndexHnsw.AbortedBuildIff` | internal/controller/index_hnsw.go:194-258 | an aborted build leaves right files right exactly when nothing was pruned, or for a forced one when nothing was indexed |
| `FlushProtocol.StepKeepsInv` | internal/controller/index_hnsw.go:102-192 | every critical section keeps the debt invariant: whatever disk lacks is owed by the flag, a flusher or the mutator |
| `FlushProtocol.RunKeepsInv` | internal/controller/index_hnsw.go:102-192 | so does every interleaving of one mutator with any number of flushes |
| `FlushProtocol.NoLostUpdate` | internal/controller/index_hnsw.go:102-281 | after any such interleaving, nothing in progress and a clean flag mean disk agrees with memory on the metadata and on every indexed vector |
| `FlushProtocol.FlushSaves` | internal/controller/index_hnsw.go:102-133 | one undisturbed flush from any settled state saves everything and changes no memory |
| `FlushProtocol.FlushRuns` | internal/controller/index_hnsw.go:102-133 | what an undisturbed flush leaves, successful or failing at any of its three writes |
| `FlushProtocol.FlushThenRestart` | internal/controller/index_hnsw.go:69-133 | a successful flush and a restart give back graph and metadata whole |
| `FlushProtocol.FailedFlushIff` | internal/controller/index_hnsw.go:102-133 | for each of the three errors a flush can end with: clean, and in agreement exactly if it was before, if nothing is indexed, or if the old metadata still fits |
| `FlushProtocol.RestartKeepsIndexed` | internal/controller/index_hnsw.go:69-100 | loading agreeing files gives back the metadata and every indexed vector |
| `FlushProtocol.RestartHidesIff` | internal/controller/index_hnsw.go:69-100 | for every fault, a restart keeps metadata of ids without vectors exactly when it does not start over and what it loads lacks an id of the saved metadata |
| `FlushProtocol.RemovedNodeSurvivesIff` | internal/controller/index_hnsw.go:102-192 | a node out of the graph is still in the file exactly when it was there and no flush has touched the file since |
| `FlushProtocol.RemovedNodeComesBack` | internal/controller/index_hnsw.go:179-192 | a successful run after which a removed node reappears on restart and cannot be removed |
| `IndexHnsw.RecoversIff` | internal/controller/index_hnsw.go:69-281 | a flush failing anywhere or nowhere, a restart with any fault, an unforced rebuild: exactly the entries are indexed exactly when what was loaded fits the metadata that was saved |
| `IndexHnsw.RecoversWhen` | internal/controller/index_hnsw.go:69-133 | for an aligned manager, a load without faults and a cut-off file that yields nothing, that is: always after a whole flush; after a failed export when the old metadata has none of the entries; after a failed save of the metadata when the old one has every indexed id that is no entry's, and no entry that is not indexed |
| `IndexHnsw.FailedExportHides` | internal/controller/index_hnsw.go:69-281 | after a failed export and a restart, an id stays without a vector through every number of unforced rebuilds exactly when the old metadata has it, the import does not recover it, and all of them list it |
| `IndexHnsw.HnswManager.IndexEntry` | internal/controller/index_hnsw.go:159-177 | a run of successful protocol steps; graph, metadata and flag change together or not at all |
| `IndexHnsw.HnswManager.RemoveFromIndex` | internal/controller/index_hnsw.go:179-192 | a run of successful protocol steps; does nothing without metadata |
| `IndexHnsw.HnswManager.Flush` | internal/controller/index_hnsw.go:102-133 | a run of the flush steps up to its first error; an error exactly when dirty and a write fails |
| `IndexHnsw.HnswManager.Load` | internal/controller/index_hnsw.go:69-100 | the restarted state for each way a load can end, a truncated file and a missing one apart, and which of them are errors |
| `IndexHnsw.HnswManager.BuildIndexes` | internal/controller/index_hnsw.go:194-275 | a run of protocol steps, all successful exactly when it returns no error; the resulting graph, metadata and files; each entry's own content embedded; when an aborted one leaves the files right |
| `Merging.MissingExact` | internal/controller/controller.go:404-417 | the tags added are exactly those missing, once each, in their order |
| `Merging.HitsConservedIff` | internal/controller/controller.go:394-435 | a merge conserves the store's total hits exactly when the ids differ or the doomed entry had none |
| `Merging.MergeKeeps` | internal/controller/controller.go:394-435 | the merged entry field by field: its own content, bucket, source and creation time, the sum of hits, the tags of both, the later hit and the larger score; every third entry untouched; only the loser gone |
| `ControllerRuns.StepOrphans` | internal/controller/controller.go:179-449 | for every operation, whatever fails in it, exactly which ids become orphans of the index and which cease to be |
| `ControllerRuns.OrphansIff` | internal/controller/controller.go:179-449 | after every run an id is indexed without being stored exactly when some operation abandoned it, or it began so, and none since has stored it again, met it in a search or rebuilt without it |
| `ControllerRuns.OrphansWereMerged` | internal/controller/controller.go:179-449 | with an embedder and no failed deletion, every indexed id is stored or was merged away and not reclaimed since |
| `ControllerRuns.RunAligned` | internal/controller/index_hnsw.go:159-275 | no run of operations makes the HNSW manager's graph and metadata drift apart |
| `ControllerRuns.RebuildIsReindex` | internal/controller/controller.go:438-460 | a rebuild gives an entry the vector that indexing it alone gives it |
| `Deduplication.DedupedChoice` | internal/controller/controller.go:198-234 | the first hit nearer than 0.05 in the entry's own bucket is taken over: its id, hits, creation time and source, its score plus 0.1, its tags only if the caller has none; without one the entry stays as it is |
| `Deduplication.DedupedKeepsBucketIff` | internal/controller/controller.go:198-234 | with a reused id the upsert always keeps its bucket; otherwise exactly when the caller's own id does |
| `Deduplication.UpsertsStayWellFormed` | internal/controller/controller.go:179-237 | no run of controller upserts puts one id in two buckets, and each is the run over the flat map |
| `Deduplication.ReuseKeepsHits` | internal/controller/controller.go:198-234 | an upsert that reuses an entry touches no other and leaves the total of hits alone |
| `Deduplication.ReusesAddUp` | internal/controller/controller.go:198-234 | n duplicates in a row raise a score that is not negative by n tenths and keep hits, creation time and source |
| `Controller.CandidatesExact` | internal/controller/controller.go:298-312 | the candidates are exactly the stored hits whose scope is among the scopes, if any are given, and whose category is among the categories, if any are, once each |
| `Controller.SemanticAnswer` | internal/controller/controller.go:259-334 | distinct stored entries as asked for, min(max(limit, 1), number found) of them |
| `Controller.FoundIntersect` | internal/controller/controller.go:285-312 | asking for scopes and categories finds what both find alone; asking for neither, every stored hit |
| `Controller.NearerIsStrict` | internal/controller/controller.go:314-323 | under the gaps the search's comparator is the strict order by distance, then weight, then id |
| `Controller.SemanticIsNearest` | internal/controller/controller.go:259-334 | the answer is the first k of all eligible hits in that order, whatever order the hits came in |
| `Controller.NoneOmittedIsNearer` | internal/controller/controller.go:325-331 | no eligible hit that the limit drops is nearer than one it keeps |
| `Controller.RankedByDistance` | internal/controller/controller.go:314-323 | the ranking goes up in distance, at equal distance down in weight, at equal weight up in id |
| `Controller.ResemblingExact` | internal/controller/controller.go:369-387 | a similarity search returns exactly the stored hits near enough, never the entry itself |
| `Controller.SimilarIs` | internal/controller/controller.go:342-390 | the search starts from the indexed vector and only without one from the stored content; each error; exactly the stored hits whose similarity reaches the threshold |
| `Controller.ResemblingInOrder` | internal/controller/controller.go:369-387 | similar entries come in the order of the hits |
| `Controller.MemoryController.Save` | internal/controller/controller.go:451-460 | the store's step, then the index's, of either manager; the ids the store holds; a well-formed store stays so exactly when a known id keeps its bucket, and then both are the specified event's |
| `Controller.MemoryController.Upsert` | internal/controller/controller.go:179-237 | which hit is taken over and what of it, and then what Save says of the deduplicated entry |
| `Controller.MemoryController.Delete` | internal/controller/controller.go:246-254 | store first, index only after a success; exactly which deletions leave an orphan, failed statements of the index included |
| `Controller.MemoryController.Merge` | internal/controller/controller.go:394-435 | for every outcome the contents, the index and the orphans; a merge that saved leaves an indexed loser as an orphan |
| `Controller.MemoryController.AdminMerge` | internal/daemon/daemon_admin.go:149-195 | refuses empty ids; otherwise for every outcome the same contents as the controller's merge, and an indexed loser becomes an orphan exactly when the index did not hear of it or could not delete it |
| `Controller.MemoryController.SemanticSearch` | internal/controller/controller.go:259-334 | the nearest hits as asked for in order, as many as the limit and what was found allow; exactly the orphans it met are dropped from the index, but for those whose deletion fails or drift hides |
| `Controller.MemoryController.FindSimilar` | internal/controller/controller.go:342-390 | the similarity lookup as a function of the id, its errors included |
| `Controller.MemoryController.BuildIndexes` | internal/controller/controller.go:438-449 | an error without an embedder; otherwise the manager's rebuild of everything listed: which orphans it leaves, when it indexes exactly the stored ids, and that every stored entry ends with the vector of its content or the one it had; listing counts a hit on each |
| `Lint.HasUniqueTags` | internal/lint/lint.go:93-104 | whether the first entry has a tag the second lacks |
| `Lint.Analyze` | internal/lint/lint.go:44-91 | the nested loops compute the specified proposals, failed lookups marking nothing |
| `Lint.ActionsAreProper` | internal/lint/lint.go:50-88 | no entry is proposed twice, and no left entry is ever itself proposed |
| `Lint.NeverProposedAreIndependent` | internal/lint/lint.go:44-91 | with symmetric successful lookups no two entries left unproposed are similar |
| `Lint.ProposalsPointForward` | internal/lint/lint.go:50-88 | every proposed entry is a hit of a never proposed left entry that precedes it in the listing, its similarity 1 minus the distance; a deletion exactly for a distance of at most 0.02 without tags of its own |
| `Lint.ControllerLookup` | internal/controller/controller.go:369-387 | the controller's similarity search never returns the entry asked about, and returns stored entries only |
| `Lint.ChoicesSucceedIff` | cmd/mnemonic/lint.go:236-266 | over a store that minds deleting an unknown id, and over one that does not: a session errs exactly when an earlier choice took away a left entry that a later one needs |
| `Lint.SessionSucceedsIff` | cmd/mnemonic/lint.go:236-266 | the same over the linter's own proposals; choices that spare the left entries always succeed |
| `Lint.SessionSpares` | cmd/mnemonic/lint.go:236-266 | a session that goes through rewrites nobody's content and moves nobody, and one that only keeps and merges loses no hits |
| `Lint.LeftChoicesDangle` | cmd/mnemonic/lint.go:236-266 | a lookup, a listing and a session over the linter's own proposals that deletes a left entry and then fails |
| `Server.NormalizeCategories` | internal/server/server.go:236-265 | refused exactly for a name that is neither blank nor known; otherwise each trimmed name once, the single category first, then in order |
| `Server.FillWithAdditional` | internal/server/server.go:303-326 | the existing entries, then the additional ones with new ids, up to the limit |
| `Server.FillExact` | internal/server/server.go:303-326 | distinct ids, existing ones first, and as many as the limit and the union of ids allow |
| `Server.TopKAcross` | internal/server/server.go:267-301 | truncating each category, merging, ranking and truncating is ranking everything and truncating once |
| `Server.AcrossFinds` | internal/server/server.go:267-301 | what matches across categories: the stored entries of any of them, in the scopes, that mention a word of the query |
| `Server.GatherOne` | internal/server/server.go:274-294 | hits counted for one category leave the answers of the later ones as they were |
| `Server.QueryByCategories` | internal/server/server.go:267-301 | an error exactly when a category's query fails; otherwise distinct entries that mention a word of the query, the first topK of all that do in any category; only hits change |
| `Server.SemanticIsRelevant` | internal/controller/controller.go:259-334 | a semantic answer is within its limit, distinct, stored, and in the categories and scopes asked for |
| `Server.HandleQuery` | internal/server/server.go:167-234 | an error exactly for an unknown category or a store query that fails; with categories at most topK distinct relevant entries, semantic ones first in order, min(topK, size of the union); otherwise the semantic answer or the fallback's reference answer; only hits change in the store and only orphans leave the index |
| `Server.ReplyIs` | internal/server/server.go:167-234 | a positive limit is kept, else five; with categories the reply fills it as far as both answers reach, and whatever is not semantic mentions a word of the query in one of the categories; without categories it is the semantic answer, or else the blank category's hits or the first entries of the scopes |
| `Compact.CauchySchwarz` | internal/compact/compact.go:272-286 | the squared dot product is at most the product of the squared norms, with equality exactly for parallel vectors |
| `Compact.CosineSimilarity` | internal/compact/compact.go:264-287 | an error exactly for vectors of different length, empty ones and zero ones |
| `Compact.CosineBound` | internal/compact/compact.go:264-287 | the similarity lies between -1 and 1, and is 1 exactly for a positive multiple |
| `Compact.MostSimilar` | internal/compact/compact.go:192-210 | the first highest-scoring choice before the first failure, if one beats -1 |
| `Compact.Compact` | internal/compact/compact.go:77-86 | the winner's message, or its plain text without one; the last choice's when there is no winner or it is empty; the input when there are no choices |
| `Compact.WinnerIff` | internal/compact/compact.go:192-216 | at most one winner, and one exactly when some usable choice scores above -1 |
| `Compact.PerfectChoiceWins` | internal/compact/compact.go:206-209 | nothing beats a similarity of 1: the first choice in the original's direction wins |

## Left out

- The index search, the graph algorithm, embeddings, SQLite and the vec1 extension: results of searches and embeddings are parameters.
- YAML and JSON encoding, file paths, partial file writes: disk is a map from scope and category to entries, and each write either happens whole or not at all.
- `YamlStore.Store`: the nested scope and category maps are one map keyed by the pair.
- `YamlState.CloseThenNew`: tag sanitising is a parameter; its parsing of stringified lists is not modelled.
- `Selection.Terms`: lower-casing covers ASCII, blanks are those of Latin-1.
- `Ranking.SortByWeightedScore`: the sort is written as an insertion sort; without the gap, where the comparator is no order, the library's sort may permute differently. Scores and weights are reals, with one evaluation time for a whole sort; float rounding and a clock that moves during the sort are not modelled.
- `Server.QueryByCategories`: uses one weight function for all categories and the final sort, so the milliseconds between them are not modelled; a query either fails without effect or answers as the YAML store does, and a failure after the answer is not modelled.
- `Server.HandleQuery`: likewise for its fallback queries.
- `Merging.HitsConservedIff`: hit counts are unbounded integers.
- `FlushProtocol.NoLostUpdate`: one mutator at a time; two flushes writing the same file at the same moment are two whole writes in some order.
- `FlushProtocol.Restarted`: time stamps in the metadata are dropped; a failed save of the metadata leaves the old file, not a truncated one.
- `SqliteStore.Store.Rows`: what cleaning up tags does to them is a parameter.
- `SnapshotStore.Snapshot`: its Upsert, Score, Delete and Promote are single updates of its map and left out.
- `IndexSqlite.SqliteManager.BuildIndexes`: whether a statement fails depends on the id alone, so an entry listed twice fails twice or not at all.
- `Controller.MemoryController`: holds what the manager holds between calls, so it does not interleave with the flush protocol; an index lookup that fails in a similarity search is not modelled.
- `Controller.MemoryController.Delete`: over the YAML store; the SQL store reports no error for an unknown id.
- `Controller.MemoryController.BuildIndexes`: over the YAML store, whose listing does not fail.
- `SqliteStore.Store.Promote`: an error on reading the number of affected rows, here and in `Delete`, is not modelled.
- `Lint.DecideAll`: no write fails, and stored categories and scopes are still accepted.
- Scoring, promoting and listing through the controller, which only forward; adding, reinforcing and listing heads in the server, which call one operation each.
- The configured extra mandatory categories, which only change a flag in the heads.
- HTTP, MCP, the daemon's life cycle, the terminal interface, logging, configuration merging and random ids (a generated id is a parameter).
