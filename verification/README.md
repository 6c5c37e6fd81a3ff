# itemservicecentral: a verified model

itemservicecentral stores JSON documents in PostgreSQL tables and serves them over HTTP. This project models
the logic around the SQL and proves what it keeps, over every input, every interleaving and every history.

- **Paged lists.** The statements of the list, scan and index endpoints are built as clauses, arguments and
  placeholder numbers, evaluated under three-valued logic, and answered by any database that returns a sorted
  prefix of the selected rows. The collation is an arbitrary strict total order on text. The main results are
  about whole walks of pages: over a table while other requests change it, and over an index exactly when they
  stop, miss nothing and repeat nothing (`Queries`, `Lists`, `Walks`, `Listings`, `Indexes`, `KeyWalks`,
  `IndexPages`, `IndexWalks`, `Trails`, `SteadyWalks`, `Cursors`, `LikePatterns`).
- **The item protocol.** GET, PUT, DELETE and the two halves of PATCH are atomic steps over a row store with a
  history of commits. Merge patch is compared with section 2 of RFC 7396 and also done on mutable objects in
  place (`Documents`, `MergeInPlace`, `Items`, `Answers`, `ItemServer`, `Traffic`).
- **Migration.** A run is one transaction over `_meta`, the physical tables and the indexes, any statement of
  which may fail. The results are about all histories of runs of validated configurations, about names that
  collide, and about the hash that gates startup (`Configs`, `CanonicalForms`, `Migrations`, `Reconciling`,
  `Leftovers`, `Collisions`, `DryRuns`, `Histories`, `KeyChecks`, `Reruns`, `StartupCheck`, `ValidConfigs`).
- **The document cache.** Double-checked locking with byte-wise copies, for one caller and for any number
  (`Providers`).

What requests and configurations are refused, what is stored, listed and answered, and what a migration records is
stated once more in terms of the request, the rows and the configuration alone (`Answers`, `Listings`, `KeyChecks`,
`ValidConfigs`), beside the step functions that the larger results are about.

## What the proofs found

- One MergePatch is not the merge of RFC 7396, which `docs/API.md:102` says PATCH applies: nulls inside an object
  that the target lacks are stored. One application meets the RFC exactly if no such null is grafted
  (`Documents.MergeMeetsRfcIff`); two applications always do (`Documents.MergeTwiceIsRfc`).
- A query of an index with a range key, without range key filters, also returns rows that are not in the partial
  index (`Indexes.QueryIndexInsidePartialIndexIff`). An index scan leaves out rows that have the index primary key
  but not its range key, where `docs/API.md:195` promises all rows with the primary key
  (`Indexes.ScanIndexReadsPartialIndex`).
- `docs/API.md:207-212` promises that following tokens ends and is complete. Over an index with a range key a walk
  can return one page for ever (`Indexes.RangeIndexWalkCanLoop`): its cursor filter compares the index range value
  of a row with the base range key in the token. Walks stop exactly if no matching row passes its own cursor
  together with another row that its page may leave over (`IndexWalks.IndexWalksStopIff`). With one limit for all
  pages they stop exactly if no cursor can come again, where the next cursor of each is found by counting rows
  (`SteadyWalks.SteadyWalksStopIff`). Over an index without a range key they always stop, but can miss rows that
  never moved (`Indexes.PkIndexWalkCanMiss`); they miss nothing exactly if of any two matching rows the second has the
  greater base primary key or must come before the first (`IndexWalks.PkIndexWalkCompleteIff`), and for one index
  value and one limit exactly if all its rows fit on one page (`IndexWalks.PkIndexQueryCompleteIff`). When rows come
  back is in `IndexWalks.IndexWalkRepeatsIff`.
- Tables, primary key indexes and other indexes share one name space, so a new table's name can be taken: by
  `a_pkey` of table `a`, or by `idx_a_b` of its index `b`. `CREATE TABLE IF NOT EXISTS` then does nothing, and `_meta`
  records a table that does not exist. From a database in step, a committed run keeps the two in step exactly if no
  new table finds its name taken (`Collisions.StaysInStepIff`, in closed form `Collisions.NoneMissingWithout` and
  `Collisions.NoneMissingWith`), and so do whole histories (`Histories.HistoryInStepIff`). From any database that
  histories lead to, `Collisions.InStepAfterIff` says when a run brings them in step.
- A cleanup that meets a configured table whose name starts with `idx` fails, because `LIKE 'idx_%'` finds its primary
  key index. A cleanup also fails where `DROP TABLE IF EXISTS` meets a recorded name that is not a table's but an
  index's: in every order of the rows of `_meta` if the index is that of a table that stays, otherwise if the name is
  found before the table that has it (`Collisions.CleanupOrderIff`, `DryRuns.LeftoverBlocksCleanup`,
  `DryRuns.OrderDecides`). These two, indexes on a table that does not come to exist, and changed key fields are the
  only reasons for which a run fails of itself, from any database that histories lead to (`Collisions.TransactionIff`,
  `Histories.HistorySound`). A dry run sees the last reason only (`DryRuns.DryRunPredictsIff`,
  `DryRuns.DryRunMisleads`).
- Index names are unique only within a table, so `idx_a_b_c` can stand for two indexes. A cleanup run then can
  leave a configured index out, and a second run of the same configuration changes the database
  (`Reruns.RerunCanChange`); `Reruns.CleanupExactIff` and `Reruns.CleanupRerunIff` give the exact conditions.
- The protocol loses no update as long as no write of a row gets the `updated_at` that a PATCH of it, still under way,
  has read. That is needed too: after any write of the row such a PATCH is refused exactly if the stamps differ
  (`Items.StampDecides`, `Items.SameStampLosesUpdate`).

## Assumptions

- A single SQL statement is atomic, transactions roll back, and the collation is deterministic and total.
- `now()` never gives a write of a row the stamp that a PATCH of the same row, read but not yet committed, has read
  (`Items.FreshStamp`); every theorem that needs this names it.
- The JSON Schema library, the regular expressions of key patterns, document generation and SHA-256 are
  parameters. Where two configurations are told apart, the hash is assumed to tell those two apart.
- A table's primary key index is its name with `_pkey`.
- The rows of `_meta` can be found in any order; each run carries its own (`Migrations.Run`).

## Model

| member | source | states |
|---|---|---|
| `Text.RulesAre` | internal/validate/keys.go:8-29 | the rules for key values, object keys, names and key fields, by the alphabets of their first and other characters |
| `JsonValues.KeysOkIff` | internal/validate/keys.go:45-66 | a document keeps the key rule if and only if no path through objects and arrays leads to an object with a bad key |
| `Documents.StripKeys` | internal/model/model.go:9-21 | the loop, in any key order, removes exactly the key fields |
| `Documents.InjectKeys` | internal/model/model.go:25-33 | the loop, in any key order, gives the document with both key fields set |
| `Documents.InjectUndoesStrip` | internal/model/model.go:7-33 | a document stored without its keys is read back as itself if and only if it carried both; otherwise with them filled in |
| `Documents.StripUndoesInject` | internal/model/model.go:7-33 | storing what was read back changes nothing |
| `Documents.NullFreeIffRfcKeepsIt` | internal/model/model.go:35-57 | the RFC keeps a grafted object as it is if and only if no null is reachable in it through objects |
| `Documents.MergeMeetsRfcIff` | internal/model/model.go:35-57 | one application equals section 2 of RFC 7396 if and only if no nulls are grafted |
| `Documents.MergeWithItself` | internal/model/model.go:42-57 | a patch merged into itself loses exactly what the RFC leaves out |
| `Documents.MergeTwiceIsRfc` | internal/model/model.go:42-57 | two applications equal section 2 of RFC 7396 for all documents |
| `Documents.RfcAbsorbsMerge` | internal/model/model.go:42-57 | the RFC's result absorbs a further application |
| `Documents.MergeSettles` | internal/model/model.go:42-57 | from the second application on, the document is the RFC's result and stays so |
| `Documents.MergeCanMissRfc` | internal/model/model.go:54 | {"a": {"b": null}} applied once to {} stores the null, and the RFC does not |
| `Documents.MergeKeepsKeysOk` | internal/model/model.go:42-57 | merging keeps the JSON key rule at every depth |
| `MergeInPlace.MergePatch` | internal/model/model.go:42-57 | on mutable objects, in any key order, the target ends as the merge of the old target and the patch and stays a tree, made of no other objects than its own and the patch's |
| `MergeInPlace.ApplyKey` | internal/model/model.go:44-54 | one key in place: the same change as applying that key alone |
| `MergeInPlace.MergeOneMore` | internal/model/model.go:43-54 | one more key changes that key only, whichever keys came before |
| `MergeInPlace.MergeDecoded` | internal/handler/item.go:216-226 | the stored document and the patch, decoded into objects, merged in place and read back, are the merge |
| `Cursors.DecodeUndoesEncode` | internal/database/store.go:66-72 | unpadded base64url decodes to the bytes encoded, for every length residue |
| `Cursors.EncodedBits` | internal/database/store.go:66-68 | symbol k of a token stands for bits 6k to 6k + 5 of the text, and there are as many as needed |
| `Cursors.SymbolIs` | internal/database/store.go:66-68 | the symbols are those of the URL-safe alphabet in order |
| `Cursors.CursorRoundTrip` | internal/database/store.go:66-80 | a token gives back its position if and only if the primary key has no bar, and is never empty |
| `Cursors.KeyValuesRoundTrip` | internal/validate/keys.go:18-29 | accepted key values always survive the token |
| `LikePatterns.PlainPrefixIsPrefix` | internal/database/store.go:420-424 | for a prefix without wildcard or escape, the LIKE filter is the prefix test |
| `LikePatterns.FilterKeepsKeys` | internal/database/store.go:420-424 | for any prefix, no valid key that begins with it is lost |
| `LikePatterns.FilterIsPrefixIff` | internal/database/store.go:420-424 | the filter is the prefix test on all texts if and only if the prefix has no wildcard or escape |
| `Queries.MoreArgsChangeNothing` | internal/database/store.go:416-501 | appending arguments does not change what earlier clauses mean |
| `Queries.Appended` | internal/database/store.go:416-501 | a clause over the next placeholders adds its meaning by AND and keeps the numbering |
| `Queries.AppendRKFilters` | internal/database/store.go:416-446 | the placeholders stay numbered, and the clauses select the rows that meet every range key option given |
| `Queries.AppendIndexRKFilters` | internal/database/store.go:449-476 | the same over a data expression, where NULL meets no filter |
| `Queries.AppendCursorFilter` | internal/database/store.go:479-501 | the clauses select the rows after the cursor; an undecodable token asks for the first page |
| `Lists.BuildStatement` | internal/database/store.go:353-358 | the LIMIT placeholder names the limit plus one, and the WHERE means what it meant before |
| `Lists.CollectPage` | internal/database/store.go:371-412 | the first rows are kept, with the token of the last one exactly if a spare row came |
| `Lists.QueryItems` | internal/database/store.go:342-413 | a limit of zero or less is fifty; statement and page as above |
| `Lists.BasePage` | internal/database/store.go:342-413 | the kept rows are the first eligible ones in key order, and the token is there exactly if some are left |
| `Lists.ListItems` | internal/database/store.go:244-253 | returns a page of the rows of the partition that meet the options, in key order |
| `Lists.ScanTable` | internal/database/store.go:256-264 | returns a page of the rows of the table, in key order |
| `Lists.IndexPage` | internal/database/store.go:342-413 | with ties broken at will, kept rows are eligible, distinct and first in index order |
| `Lists.QueryIndex` | internal/database/store.go:267-284 | returns a page of the rows with the index value that meet the options |
| `Lists.ScanIndex` | internal/database/store.go:287-305 | returns a page of the rows of the partial index |
| `Walks.WalkIncreases` | internal/database/store.go:479-501 | whatever happens to the table between pages, the keys of a walk strictly increase |
| `Walks.WalkFindsStayer` | internal/database/store.go:342-413 | a key that is there at every page is returned |
| `Walks.WalkUnderTraffic` | internal/database/store.go:256-264 | a complete walk returns no key twice, every staying key exactly once, and only keys that some page saw |
| `Walks.StillPages` | internal/database/store.go:342-413 | pages of a still table are full up to the last, which is empty only if nothing is listed |
| `Walks.StillWalk` | internal/database/store.go:244-264 | on a still table the walk is the sorted list of matching keys, in max(1, ceil(n / limit)) pages, with no token on the last page only |
| `Walks.TokenMakesProgress` | internal/database/store.go:407-410 | following a token strictly shrinks the set of rows still to come |
| `Walks.FollowTokens` | internal/database/store.go:244-264 | a client that follows the tokens of a still table stops with a complete walk |
| `Listings.FiltersIff` | internal/database/store.go:416-446 | with a plain prefix the range key filters are the four comparisons and the prefix test; with any prefix they let every key pass that meets these; NULL meets none |
| `Listings.ListedIff` | internal/database/store.go:244-253 | a row of the partition is listed if and only if its range key is greater than rkGt, not less than rkGte, less than rkLt, not greater than rkLte, as given, begins with the prefix, and the row follows the token |
| `Listings.ListKeeps` | internal/database/store.go:420-424 | with any prefix at all, no valid key that begins with it and is within the bounds is left out |
| `Listings.ListPage` | internal/database/store.go:244-253 | the page returned holds such rows, by primary and range key ascending, up to the limit or else fifty, all of them exactly if there is no token |
| `Listings.ScanPage` | internal/database/store.go:256-264 | the page of a scan holds rows that follow the token, likewise |
| `Listings.StillPartition` | internal/database/store.go:244-253 | a complete walk of a still partition returns each row within the options once and no other, in order and in as many pages as it takes |
| `Listings.IndexListedIff` | internal/database/store.go:267-284 | a row is listed for an index value if and only if its field has that text, some text of the range field is within the options if any is given, and it follows the token |
| `Listings.IndexQueryPage` | internal/database/store.go:267-284 | the page returned holds such rows, each once, by the text of the range field ascending and rows without it last, up to the limit or else fifty, all of them exactly if there is no token |
| `Listings.IndexScannedIff` | internal/database/store.go:287-305 | a row is scanned if and only if its index fields are there and not null, and it follows the token |
| `Indexes.StrippedSelectsAlike` | internal/database/store.go:267-305 | selecting on stripped data is selecting on whole documents, for indexes apart from the base keys |
| `Indexes.ScanIndexReadsPartialIndex` | internal/database/migrate.go:291-318 | whatever an index scan returns meets the WHERE of the partial index, and a scan without cursor that fits on one page returns all rows that meet it |
| `Indexes.QueryIndexInsidePartialIndexIff` | internal/database/store.go:267-284 | index queries stay in the partial index if and only if the index has no range key or a range filter is given |
| `Indexes.PkIndexWalkStops` | internal/database/store.go:494-498 | however ties are broken, a walk of an index without range key has at most one page more than distinct matching base keys |
| `IndexWalks.PkIndexWalkClimbs` | internal/database/store.go:494-498 | each row of a later page has a base key beyond the last one of an earlier page |
| `Indexes.EveryPageFrom` | internal/database/store.go:267-305 | every row of every page of such a walk is in the partial index |
| `Indexes.LastRowReadmittedIff` | internal/database/store.go:489-493 | in any table, the cursor of an index with range key lets its own row through again if and only if the index range value is greater than the base range key, empty where there is none |
| `Indexes.RangeIndexWalkCanLoop` | internal/database/store.go:489-493 | a table and index on which walks of any length return one page over and over |
| `Indexes.PkIndexWalkCanMiss` | internal/database/store.go:494-498 | a still table and index on which a complete walk misses a row |
| `IndexWalks.PassesItselfIff` | internal/database/store.go:489-498 | a row passes its own cursor if and only if the index has a range key and its value there is greater than the base range key |
| `IndexWalks.IndexWalkStops` | internal/database/store.go:407-410 | without a row that passes its own cursor along with one left over, a walk from any token has at most one page more than there are matching rows |
| `IndexWalks.IndexWalkLoops` | internal/database/store.go:489-493 | with such a pair of rows there are walks of every length |
| `IndexWalks.IndexWalksStopIff` | internal/database/store.go:267-305 | with page limits free, the walks of a still table are bounded if and only if there is no such pair |
| `IndexWalks.IndexWalkCompleteIff` | internal/database/store.go:267-305 | with page limits free, all complete walks return all matching rows if and only if of any two the second passes the cursor of the first or must come before it |
| `IndexWalks.PkIndexWalkCompleteIff` | internal/database/store.go:494-498 | the same for an index without range key: the second has the greater base primary key or must come before |
| `IndexWalks.PkIndexQueryCompleteIff` | internal/database/store.go:267-284 | with one limit for all pages, walks of one value of such an index miss nothing if and only if its rows fit on one page |
| `IndexWalks.IndexWalkRepeatsIff` | internal/database/store.go:267-305 | with page limits free, no walk returns a row on two pages if and only if no row passes the cursor of one that it may share a page with while another is left over |
| `Trails.PageCanEnd` | internal/database/store.go:342-413 | a page that leaves rows over can end in a row only if fewer rows than its limit must come before it and at least as many can come no later |
| `Trails.PageAtLimit` | internal/database/store.go:342-413 | and for every such row and limit there is such a page |
| `SteadyWalks.SteadyWalkStops` | internal/database/store.go:407-410 | where no cursor can come again, a walk with one limit has at most one page more than there are matching rows |
| `SteadyWalks.SteadyWalkLoops` | internal/database/store.go:489-498 | where one can, there are walks of every length with that limit |
| `SteadyWalks.SteadyWalksStopIff` | internal/database/store.go:267-305 | with one limit for all pages, the walks of a still table are bounded if and only if no cursor can come again |
| `Items.NextKeepsInv` | internal/handler/item.go:216-245 | every step keeps: table equal to replay, pending PATCHes outdated exactly by commits on their key, answers right |
| `Items.NoLostUpdates` | internal/handler/item.go:216-245 | in every interleaving with fresh stamps the table is the sequential replay of the commits, each PATCH one atomic merge, and every answer agrees with it |
| `Items.ConflictIff` | internal/handler/item.go:235-243 | a conditional update is answered 409 if and only if a write or delete of its key was committed since its read; a 409 changes no row |
| `Items.PutThenGet` | internal/handler/item.go:132-139 | an accepted PUT answers with the document and its keys, and a GET sees the same |
| `Items.DeleteThenGet` | internal/handler/item.go:276-281 | after a DELETE a GET answers 404 |
| `Items.PatchThenGet` | internal/handler/item.go:226-245 | a PATCH answered 200 shows what a GET sees next |
| `Items.UndisturbedPatch` | internal/handler/item.go:216-245 | an acceptable PATCH that nothing comes between succeeds, answers with the merged document, and touches no other row |
| `Items.StampDecides` | internal/database/store.go:183-221 | after a write of its row, by a PUT or another PATCH, a pending PATCH is refused if and only if the stamp of the write is not the one it has read |
| `Items.SameStampLosesUpdate` | internal/database/store.go:183-221 | without fresh stamps, a run whose committed update is lost although all is answered 200 |
| `Answers.GetAnswers` | internal/handler/item.go:13-58 | in every state a GET answers 400 exactly for a bad key, else 404 without a row and 200 with the row, its keys and its type; nothing changes |
| `Answers.PutAnswers` | internal/handler/item.go:61-141 | a PUT answers 400 exactly for a bad key, no document, a bad object key, another value in a key field, or a document that the schema rejects; else 200, and the row holds the document without its keys |
| `Answers.DeleteAnswers` | internal/handler/item.go:250-283 | a DELETE answers 400 exactly for a bad key, else 204, and the row is gone and no other |
| `Answers.PatchReadAnswers` | internal/handler/item.go:145-232 | a PATCH answers 400 exactly for a bad key, no document, a bad object key, or a key field that is missing or has another value; else 404 without a row and 400 if the schema rejects the merged document; else it goes on |
| `Answers.PatchCommitAnswers` | internal/handler/item.go:234-245 | its update answers 409 exactly if the row is gone or has another stamp, else 200 with the merged document, which the row then holds |
| `Answers.AnswersTyped` | internal/handler/response.go:30-35 | in every interleaving every 200 answer has the type of an item |
| `ItemServer.Store.GetItemForUpdate` | internal/database/store.go:113-145 | finds the one row of the key, or none |
| `ItemServer.Store.PutItem` | internal/database/store.go:149-180 | the row of the key is created or replaced, and no other changes |
| `ItemServer.Store.PutItemIfUnchanged` | internal/database/store.go:183-221 | updates, and says so, exactly if the row has the expected stamp |
| `ItemServer.Store.DeleteItem` | internal/database/store.go:224-241 | the row of the key is gone, and no other |
| `ItemServer.Server.HandleGet` | internal/handler/item.go:13-58 | takes the GET step of the protocol and returns its answer: 400, 404 or 200 by the key and the row |
| `ItemServer.Server.HandlePut` | internal/handler/item.go:61-141 | takes the PUT step and returns its answer: 400 or 200 by the key and the document |
| `ItemServer.Server.HandleDelete` | internal/handler/item.go:250-283 | takes the DELETE step and returns its answer: 400 or 204 by the key |
| `ItemServer.Server.BeginPatch` | internal/handler/item.go:145-232 | takes the read step of a PATCH: answered, with 400 for a refused request and 404 exactly without a row, or pending with the merged document |
| `ItemServer.Server.FinishPatch` | internal/handler/item.go:234-245 | takes the commit step of a PATCH and returns its answer |
| `ItemServer.Server.Serve` | internal/handler/item.go:13-283 | any sequence of statements of any requests is a run of the protocol |
| `ItemServer.Server.HandlePatch` | internal/handler/item.go:144-247 | a whole PATCH with other requests between its statements is that run with its two steps; a refused request is answered 400, one without a row 404 |
| `Traffic.ReachableClean` | internal/handler/item.go:104-140 | in every reachable table keys are valid, no row's data holds a base key field, and object keys follow the rule at every depth |
| `Traffic.TypeFieldIsFree` | internal/handler/response.go:30-35 | adding the type field to an answer never replaces a field of the document |
| `Traffic.ReachableValid` | internal/handler/item.go:127-132 | if the schema requires the key fields, every row of every reachable table, keys injected, is schema-valid |
| `Traffic.StaysUnlessDeleted` | internal/handler/item.go:276 | only a DELETE of a key takes it away |
| `Traffic.WalkBetweenRequests` | internal/database/store.go:244-264 | pages fetched between arbitrary requests: no key twice, and once each key present at the first page and not deleted before the last |
| `Configs.Validate` | internal/config/config.go:82-211 | accepts exactly the valid configurations, and sets the default port even when it rejects |
| `Configs.ValidateTable` | internal/config/config.go:106-207 | accepts exactly the valid tables, with unique index names |
| `Configs.ValidateIndex` | internal/config/config.go:159-206 | accepts exactly the valid indexes, whose fields are apart from the base keys |
| `Configs.ValidateSchemaKeys` | internal/config/config.go:213-236 | accepts exactly the schemas that list no properties or describe the key fields |
| `Configs.ValidateSchemaKeyField` | internal/config/config.go:238-263 | accepts exactly a property that is a string with a pattern that compiles |
| `ValidConfigs.ConfigAcceptedIff` | internal/config/config.go:82-211 | a configuration is valid if and only if it has tables, no table or index name comes twice, names and fields are spelled by the rules, key fields of table and index differ, patterns are there, schemas describe the key fields, and projections have attributes exactly if they include some |
| `ValidConfigs.HandlerFieldsOk` | internal/config/config.go:107-131 | the handler of a valid table has its key fields and patterns, and they meet what the item protocol needs of them |
| `ValidConfigs.IndexesSelectAlike` | internal/config/config.go:159-190 | every index of every valid table is queried by its own fields, and selection on stored data is selection on whole documents |
| `ValidConfigs.ValidNames` | internal/config/config.go:92-157 | every valid configuration is one that the results about migrations cover |
| `Text.LexLtIff` | internal/config/minimal_structure.go:66-74 | the order of names: after a common beginning the first ends or has the smaller character |
| `CanonicalForms.SortSlice` | internal/config/minimal_structure.go:66-74 | a sorted rearrangement; ties may fall either way |
| `CanonicalForms.SortedUnique` | internal/config/minimal_structure.go:66-74 | with distinct names there is one sorted rearrangement |
| `CanonicalForms.BuildMinimalTableStructure` | internal/config/minimal_structure.go:35-77 | shows each table with its key fields and each of its indexes with its key fields, a range key exactly where there is one, and nothing else; indexes and tables sorted by name |
| `CanonicalForms.CanonicalIff` | internal/config/minimal_structure.go:35-77 | with unique names, two configurations have one canonical form if and only if each table of one has in the other one of its name, key fields and indexes, each index with its name and key fields |
| `CanonicalForms.StructureIsReordering` | internal/config/minimal_structure.go:33-77 | that is: the two are the same sets of tables, with indexes as sets |
| `Migrations.Tx.DoReconcileIndexes` | internal/database/migrate.go:147-212 | the loops do what the specification of index reconciliation says, unless a statement breaks |
| `Migrations.Tx.DropStaleIndexes` | internal/database/migrate.go:181-209 | in any order of the rows found, exactly the stale indexes are dropped, or the step fails on a primary key index |
| `Migrations.Tx.DoReconcileTable` | internal/database/migrate.go:87-144 | a new table is created and recorded; a recorded one with other key fields is refused |
| `Migrations.Tx.DoCleanupTables` | internal/database/migrate.go:215-253 | in whatever order the rows are found, the recorded tables that are not configured are dropped and forgotten one after the other, up to the first whose name is an index's, at which the step fails |
| `Migrations.Tx.DoTransaction` | internal/database/migrate.go:27-59 | the transaction ends in the specified state, or fails |
| `Migrations.Database.Migrate` | internal/database/migrate.go:27-65 | a run that fails, for whatever reason, or is dry commits nothing; any other commits the whole transaction with the hash of a canonical form |
| `Reconciling.DropStaleFailsIff` | internal/database/migrate.go:181-203 | cleaning the indexes of an existing table fails if and only if its name starts with idx |
| `Reconciling.IndexesReconciled` | internal/database/migrate.go:147-212 | reconciling the indexes of an existing table fails if and only if it is a cleanup and the name starts with idx; otherwise each index name goes to the table, stays, or is dropped as configured |
| `Reconciling.ReconcileIff` | internal/database/migrate.go:87-144 | a table is refused if and only if its key fields changed, it has indexes but cannot come to exist, or a cleanup meets its name; otherwise rows, tables and indexes come out as described |
| `Collisions.ReconcileAllComesOut` | internal/database/migrate.go:38-45 | the same for all tables in order, from any sound database, with the tables that do not come to exist computed from the database and the configuration |
| `Leftovers.DropEachIff` | internal/database/migrate.go:238-250 | dropping names one after the other goes through if and only if each is in its turn a table's, or held by no index of a table still there |
| `Collisions.CleanupIff` | internal/database/migrate.go:215-253 | the same of the cleanup that ends a run, in terms of the database and the configuration that the run began with |
| `Collisions.TransactionIff` | internal/database/migrate.go:27-65 | from any sound database, in step or not, a whole run of a validated configuration fails of itself if and only if a key field would change, a missing table has indexes, or a cleanup meets a table named idx... or a name to drop that an index still has; otherwise it leaves the described database |
| `Collisions.CleanupOrderIff` | internal/database/migrate.go:238-250 | a cleanup whose keys and names pass fails in every order of the rows if and only if a recorded name to drop that is no table's stays that of an index, and passes in every order if and only if moreover no index of a table that goes has such a name |
| `Collisions.InStepAfterIff` | internal/database/migrate.go:27-65 | a committed run leaves _meta and the tables in step if and only if all its tables come to exist and, without a cleanup, all other recorded tables exist |
| `Collisions.StaysInStepIff` | internal/database/migrate.go:98-121 | from a database in step, that is: if and only if no new table finds its name taken |
| `Collisions.NoneMissingWithout` | internal/database/migrate.go:255-289 | without a cleanup, none is missing if and only if each table exists, or is new with a name apart from all relations and from the primary key and other indexes of earlier tables |
| `Collisions.NoneMissingWith` | internal/database/migrate.go:181-209 | with a cleanup whose names pass, none is missing if and only if no name starts with idx and each table exists, or is new with a name apart from tables and primary key indexes |
| `DryRuns.PkeyNameOutOfStep` | internal/database/migrate.go:255-289 | a configuration after which _meta records a table that was never created, its name being taken by a primary key index |
| `DryRuns.IndexNameOutOfStep` | internal/database/migrate.go:255-289 | another, where an index of an earlier table has the name |
| `DryRuns.DryRunPredictsIff` | internal/database/migrate.go:57-59 | from any sound database a dry run succeeds wherever the run would, and the two agree if and only if kept key fields imply that no name gets in the way, of a configured table or of one to drop |
| `DryRuns.DryRunMisleads` | internal/database/migrate.go:195-203 | a configuration whose cleanup fails although its dry run succeeds |
| `DryRuns.LeftoverBlocksCleanup` | internal/database/migrate.go:243-245 | after the configuration of `PkeyNameOutOfStep`, every cleanup that keeps the first table fails although its dry run succeeds |
| `DryRuns.OrderDecides` | internal/database/migrate.go:216-227 | after it, a cleanup of another configuration succeeds or fails with the order in which the rows are found |
| `Histories.HistorySound` | internal/database/migrate.go:27-65 | every history of validated configurations leads to a sound database, which the results about single runs cover |
| `Histories.HistoryInStepIff` | internal/database/migrate.go:27-65 | through a history of validated configurations _meta and the tables are in step if and only if in no committed run a table does not come to exist |
| `Histories.HistoryInStep` | internal/database/migrate.go:27-65 | so with table names that neither start with idx nor end with _pkey they always are |
| `Reruns.OwnerAfterIs` | internal/database/migrate.go:154-209 | which table an index name belongs to after a cleanup has reconciled some tables, in closed form |
| `Reruns.CleanupExactIff` | internal/database/migrate.go:215-253 | after a cleanup of any sound database the recorded tables are the configured ones, all exist if and only if none was missing, and each has exactly its configured indexes if and only if their names were free |
| `Reruns.RerunSettled` | internal/database/migrate.go:147-178 | from any database, a second run without cleanup of a validated configuration changes nothing |
| `Reruns.CleanupRerunIff` | internal/database/migrate.go:147-253 | from any sound database and in any order of the rows, a second cleanup run changes nothing if and only if each configured index name went to some table that wants it; free names suffice |
| `Reruns.RerunCanChange` | internal/database/migrate.go:156 | a history from the empty database after which a second run does change it |
| `Histories.RunStep` | internal/database/migrate.go:87-136 | one run of any configuration keeps a recorded row, unless it is a successful cleanup without that table, which removes it |
| `Histories.KeyFieldsFixed` | internal/database/migrate.go:124-135 | over any history a recorded table keeps its key fields, and stays, until a successful cleanup of a configuration without it |
| `KeyChecks.RecordsKeys` | internal/database/migrate.go:87-121 | a committed run records for each configured table its primary key field and its range key field, empty without one; the table has a range part exactly if it has a range key |
| `KeyChecks.ChangeRefused` | internal/database/migrate.go:124-135 | a recorded table with another primary key field, another range key field or the one without the other is refused |
| `KeyChecks.RunIff` | internal/database/migrate.go:27-65 | from any sound database a dry run succeeds if and only if no key field changes, and the run itself if and only if moreover no name gets in the way |
| `KeyChecks.CommittedKeysBind` | internal/database/migrate.go:124-135 | once any history has committed a table, no run with other key fields for it succeeds until a cleanup of a configuration without it |
| `KeyChecks.IndexesAsConfigured` | internal/database/migrate.go:291-318 | every index after a run was there with the same definition, or has the name, table and key fields of a configured one |
| `KeyChecks.IndexesOfHistory` | internal/database/migrate.go:291-318 | so every index that a history leads to is one that some run of it configured |
| `StartupCheck.ValidateTablesConfigHash` | internal/database/config_hash.go:36-66 | which of the outcomes it is, by what _meta holds: passed exactly if it is the hash of a canonical form, and not blank |
| `StartupCheck.CheckAfterMigrate` | internal/database/config_hash.go:36-96 | after a migration to one valid configuration, another passes if and only if the two have the same tables, key fields and indexes, and fails with a mismatch |
| `StartupCheck.StartupCheckIff` | internal/database/config_hash.go:36-96 | after any history the check passes exactly for the tables, key fields and indexes of the last committed run, and reports a missing _meta if there is none |
| `Providers.DirectOfListed` | internal/swagger/openapi.go:56-80 | with unique names a listed table is generated by its name, and any other name is refused |
| `Providers.Provider.constructor` | internal/swagger/openapi.go:56-66 | an empty cache over exactly the names listed, each with the last table of that name |
| `Providers.Provider.YAML` | internal/swagger/openapi.go:69-97 | succeeds exactly if the name is known and its table is generated, with these bytes in a new buffer that no cache entry shares; entries stay |
| `Providers.CopyBytes` | internal/swagger/openapi.go:784-788 | a new buffer with the same bytes |
| `Providers.NextKeepsInv` | internal/swagger/openapi.go:69-97 | every step of every caller keeps cached documents equal to direct generation and copies in progress true so far |
| `Providers.AnswersAreDirect` | internal/swagger/openapi.go:69-97 | in every interleaving, every finished call got the bytes of direct generation, or its refusal |
| `Providers.StepsForward` | internal/swagger/openapi.go:69-97 | each step of a call brings it one nearer to its answer, which is for the name it was entered with |
| `Providers.CallIsAnswered` | internal/swagger/openapi.go:69-97 | a caller that takes the steps its call needs, among any events of others, gets exactly one answer, that of direct generation for its name |
| `Providers.AnswersAreDocuments` | internal/swagger/openapi.go:69-97 | in every interleaving over listed tables, every finished call got the document of the table of its name, or was refused for want of such a table or document |
| `Providers.ListedIsAnswered` | internal/swagger/openapi.go:69-97 | a caller that enters for a listed table and takes enough steps gets exactly one answer, the document of that table or a refusal if it is not generated |
| `Providers.CacheStays` | internal/swagger/openapi.go:87-94 | a filled cache entry is never replaced |
| `Providers.BuffersStayApart` | internal/swagger/openapi.go:784-788 | documents never change, and a returned copy changes only by writes into itself |

## Left out

- Range key filters on scans: the scan endpoints ignore them, and so does the model.
- GetItemByIndex: it returns an arbitrary one of the matching rows, in one statement without paging.
- Overflow of the limit plus one: limits are unbounded integers here.
- Field and index projection, error messages, and the paths in validation errors: local and without effect on stored data.
- JSON Schema internals, HTTP routing, body size limits, JWT, YAML and JSON text, and document generation: library calls or parameters.
- Errors of the database inside item requests (status 500): a failing statement there has no effect.
- Arrays and numbers inside documents are values: merge patch replaces arrays whole, and numbers are compared by their text.
- Texts of cursors are sequences of bytes: a character of a key is one byte, as every accepted key value is ASCII.
- The sort of the canonical form: any sorted rearrangement, since sort.Slice promises no more.
- The definition of an existing index: the migration looks at its name only, and so do the theorems.
- PostgreSQL's cutting of names at 63 bytes and its numbering of taken primary key index names.
- The created_at and updated_at columns of _meta, and rows in dropped tables.
- What the driver does with a statement issued while rows are still being read (`internal/database/migrate.go:191-205`).
- Walks.WalkUnderTraffic: each page is one atomic statement on one state of the table.
- Providers.AnswersAreDirect: memory ordering is that of the lock; steps of different callers interleave but do not overlap.
