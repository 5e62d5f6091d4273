# CodeWiki: a verified model of the indexing, resolution and sync core

CodeWiki keeps a graph of a source tree in SQLite: files are parsed into nodes, edges and
unresolved references, references are resolved into more edges, queries walk the result, and
a sync loop keeps it in step with the disk. This project models that core in Dafny and proves
what it promises. The program's own shape is kept: the store, the extraction context, the
sync store and the hooks directory are classes whose methods change their fields, the scanners
overwrite an array in place, loops are loops, and each method is proved against a function or
predicate that the theorems are then about. Threads are state machines: a theorem about runs
holds for every interleaving.

| file | what it models |
|---|---|
| `Graph.dfy`, `Seqs.dfy`, `Ordering.dfy` | shared entities, order-preserving selection, string order |
| `Store.dfy`, `StoreInvariants.dfy`, `StoreLaws.dfy` | the graph store: tables with foreign keys, full-text shadow index and its triggers, transactions, node cache; what its runs keep, and what each operation does row by row |
| `Drain.dfy`, `ParallelDrain.dfy` | draining the unresolved-reference table, serially and in parallel |
| `Pipeline.dfy`, `IndexRun.dfy` | the bounded-channel single-writer pipeline, and the full index run on top of it |
| `Impact.dfy`, `ImpactLaws.dfy` | the bounded impact query, and its answers by kinds of edges and nodes |
| `WalkSpec.dfy`, `Walker.dfy`, `WalkCases.dfy` | the extraction walk over an abstract syntax tree, and what it does to calls and impl blocks |
| `WalkNames.dfy`, `WalkLaws.dfy` | the names the walk reads off a tree, and what a tree leaves in the batch |
| `SyncCycle.dfy`, `LiveSync.dfy`, `EditBuilder.dfy` | one sync cycle, the live-sync loop, building one text edit |
| `Lexer.dfy`, `Utf8.dfy`, `StripComments.dfy`, `Comments.dfy`, `Jsonc.dfy` | comment strippers against a lexical state machine, what a comment is in each language, and UTF-8 validity |
| `GoScanners.dfy`, `GoInterfaces.dfy` | Go brace and comma scanners, structural `implements` edges |
| `NameMatcher.dfy`, `NameIndex.dfy`, `MatchLaws.dfy`, `Resolver.dfy`, `PathAliases.dfy` | the five-tier name matcher, its in-memory indexes, what each tier finds, the choice among strategies, path aliases |
| `GitHooks.dfy` | installing and removing the sync hook |

Where a promise turned out not to hold on all inputs, the code is kept as it is and the exact
condition under which it does hold is proved, in nearly every case beside an input outside it;
where a condition is only sufficient, the entry says so:

- The full-text index stays in step with the nodes table if and only if a stored batch has fresh
  ids: `INSERT OR REPLACE` fires no delete trigger, so a duplicate id leaves a stale entry
  (`StoreKeepsSyncIffFresh`, `DuplicateIdLeavesStaleEntry`).
- A bulk load writes outside its transaction: it drops three triggers before and, after the
  commit, rebuilds the index and creates them again. It keeps the index and the triggers if and
  only if the very first of these writes is refused or none is (`BulkInitIndex`). When one after
  the commit is refused the load reports failure, the rows are in, and the node cache is kept: it
  stays right if and only if the load leaves every cached row as it is, which a fold over the
  batches tells beforehand (`InterruptedLoadKeepsCacheIff`, `InterruptedLoadLeavesOldRow`). Over
  whole runs a cached entry is right if and only if this fold says so of the last interrupted load
  since it was cached, if there was one (`EveryRunIsGood`).
- A comment in `get_impact_aggregated` says that all answer nodes are kept. Only roots and direct
  dependants are; all of them are kept exactly when they fit (`AllAnswersKeptIffTheyFit`,
  `DeepAnswerIsDropped`).
- The per-cycle metadata update does not ask whether the batch was stored, so a failed store is
  recorded as done (`ConsistentAfter`). Files whose extractor records modification time 0, files
  that are not UTF-8 and files without a syntax tree are found changed in every cycle
  (`SecondCycleIsQuiet`); the last kind leaves a record with an empty path (`PathsAfter`). An edit
  that keeps mtime and size is missed (`HashAfter`). `FailedStoreIsRecorded`,
  `UnstampedFileChangesAgain` and `SilentEditIsMissed` are inputs.
- Live sync loses a notified edit when a cycle fails and nothing else is edited
  (`FailedCycleLosesEdit`). In every reachable state, at rest after a failed cycle too, a file is
  up to date if and only if the last step that changed it or its record was a stamp of its present
  text, the drop of a file that is gone or the deletion of a file without a record, or it was up
  to date from the start (`MirrorsIffCaughtUp`). At rest after a cycle that did not fail, a record
  holds an old text if and only if its last stamp was torn, that is the file had changed since its
  text was read and kept its size, and the file was left alone since, or the record was already
  stale when the loop started (`AtRestRecordsMirrorDisk`, `TornReadLosesEdit`). So over honest
  records, runs without a same-size edit between read and stamp lose nothing
  (`UntornRunsLoseNothing`).
- An unterminated block comment keeps its last byte; if that byte ends a multi-byte character the
  stripper falls back to the unstripped text (`FallbackIffCut`, `OpenCommentKeepsComment`).
  Removing trailing commas is not idempotent on `,,]` (`CommaPassIdempotentIff`,
  `TwoCommasTakeTwoPasses`).
- The edit builder slices text at byte offsets and panics when one lies inside a character, as for
  é to è (`PanicsIff`, `TrailingByteEditPanics`); after an insertion before a shared tail the
  whole tail counts as changed (`EditIsMinimalIff`, `InsertionReplacesTail`).
- A Rust `impl` block whose Self type is not a plain identifier leaves an entry on the scope
  stack; a block with no such block inside leaves the scope as it was if and only if its own Self
  type is plain (`ImplLeavesEntryIff`). For whole subtrees the absence of such blocks is only
  sufficient, as one in a part the walk does not visit leaves nothing (`NoLeak`); what each visit
  leaves is part of `ExtractWithConfig`. What is declared in an `impl` block is named after its
  container if and only if the target type is qualified by the scope the block stands in
  (`ImplNamesFollowIff`); a block for a type declared inside a function breaks this
  (`ImplOfNestedTypeMisnames`), blocks at file level for file-level types do not
  (`ExtractWithConfig`, `OrdinaryImplFits`).
- Two or more foreign exact-name candidates are dropped although a single one is kept
  (`DroppedIff`, `SecondForeignCandidateHidesFirst`). The case-insensitive tier sees a plain name
  only if an import brings it in, by a cache that nothing fills (`PlainNamesAreMatchedExactly`).
  Although the source's comment speaks of the last component of dotted names, only `::` is split
  on.
- A hook block that is never closed takes the rest of the user's script with it
  (`UnclosedBlockTakesTheRest`); a script without user lines changes once more on the second
  install (`SecondInstallAddsBlankLine`).
- Of two alias wildcards equal up to the star the first listed wins, whatever follows the star
  (`SharedPrefixDependsOnOrder`). For a path the listing order is irrelevant if and only if the
  winner is tied with no other entry (`ListingOrderIsIrrelevantIff`).

## Model

| member | source | states |
|---|---|---|
| Store.StorageImpl.StoreExtractionBatch | crates/codewiki-storage/src/storage_impl.rs:354-400 | storing one file: the hash gate, the transaction with delete, insert and upsert, rollback to the old tables on a foreign-key violation, cache cleared only after a commit |
| Store.StorageImpl.StoreExtractionBatchBulkInit | crates/codewiki-storage/src/storage_impl.rs:97-222 | the bulk load: three trigger drops, each a write of its own, one transaction that skips unchanged files and orphan edges and is rolled back on a foreign-key violation, index rebuild, three creates; a refused write returns at once and leaves what was done before it, the cache is cleared only at the very end, and the statistics count the files skipped and the files, nodes and edges inserted |
| Store.StorageImpl.DeleteFile | crates/codewiki-storage/src/storage_impl.rs:402-423 | deleting a file removes its references, the edges of its nodes, its nodes and its record in one transaction, or nothing |
| Store.StorageImpl.GetNodeById | crates/codewiki-storage/src/storage_impl.rs:494-504 | a cached entry is returned as it is, otherwise the table answers and a hit is cached |
| Store.StorageImpl.CommitResolvedBatch | crates/codewiki-storage/src/storage_impl.rs:2051-2131 | edges whose ends both exist are inserted, the resolved rows are deleted by id or, without an id, by the three columns; both or neither |
| StoreInvariants.ClosedBatchStores | crates/codewiki-storage/src/storage_impl.rs:147-172 | a closed batch never violates a foreign key and the orphan backstop drops none of its edges |
| StoreInvariants.StoreReplacesFile | crates/codewiki-storage/src/storage_impl.rs:373-399 | what a store leaves, for any batch: the last node of each id, all other nodes but those of the file, the old edges and references that touch none of these ids followed by the batch's, references numbered on, the record with the new node count |
| StoreInvariants.StoringTwiceIsStoringOnce | crates/codewiki-storage/src/storage_impl.rs:354-400 | storing the same batch again changes nothing and succeeds even under a lock; a failed store changed nothing |
| StoreInvariants.BulkTwiceIsBulkOnce | crates/codewiki-storage/src/storage_impl.rs:97-193 | a second bulk load of the same distinct files changes nothing but, when it is refused on its way, the triggers |
| StoreInvariants.StoreKeepsSyncIffFresh | crates/codewiki-storage/src/queries/nodes.rs:65-113 | with triggers installed a store keeps the full-text index equal to the nodes table if and only if its ids are distinct and not those of other files |
| StoreInvariants.DuplicateIdLeavesStaleEntry | crates/codewiki-storage/src/queries/nodes.rs:65-113 | two nodes with one id leave an index entry that no row accounts for |
| StoreInvariants.BulkInitIndex | crates/codewiki-storage/src/storage_impl.rs:107-222 | a bulk load that succeeds puts the index in step and installs all triggers whatever they were, one that does not commit changes nothing but triggers, and over an indexed store index and triggers are kept if and only if the first write is refused or none is |
| StoreInvariants.EveryRunIsGood | crates/codewiki-storage/src/storage_impl.rs:97-504 | over every run of store, bulk load, delete, commit, lookup and eviction, with refusals and rollbacks anywhere, foreign keys hold, and for every id a cached lookup equals the table lookup if and only if the entry is gone, or was right before and no interrupted load came, or the last interrupted load left its row, or brought it back, to what the entry says |
| StoreInvariants.RowAfterLoad | crates/codewiki-storage/src/storage_impl.rs:115-178 | the transaction of a bulk load does to the row of each id what a fold over the batches says: nothing for a skipped file, the last node of that id for a file that has it, removal for the file the row belonged to |
| StoreInvariants.InterruptedLoadKeepsCacheIff | crates/codewiki-storage/src/storage_impl.rs:180-193 | a bulk load that is refused after its COMMIT leaves a coherent cache coherent if and only if this fold leaves every cached row as it is |
| StoreInvariants.UninterruptedRunsKeepCache | crates/codewiki-storage/src/storage_impl.rs:97-504 | over runs without an interrupted load a right entry stays right |
| StoreInvariants.InterruptedLoadLeavesOldRow | crates/codewiki-storage/src/storage_impl.rs:180-193 | a bulk load whose index rebuild is refused has stored the new row while a lookup answers the old one, and the triggers are gone |
| StoreInvariants.RunOps | crates/codewiki-storage/src/storage_impl.rs:97-504 | a run of operations on a store leaves its fields as the step function of these runs says |
| StoreInvariants.EmptyStoreIsGood | crates/codewiki-storage/src/connection.rs:21-27 | a new store is well formed, coherent and indexed |
| StoreInvariants.CarefulRunsKeepIndex | crates/codewiki-storage/src/storage_impl.rs:97-222 | over every run whose batches have fresh ids and whose bulk loads are refused at their first write or not at all, the triggers are installed and the index equals the table after each operation |
| StoreLaws.DeleteFileRemovesFile | crates/codewiki-storage/src/storage_impl.rs:402-423 | an unlocked delete leaves no record of the path and no node of the file, all other nodes and records, the old edges in order that touch none of its nodes, and the old references in order of other paths that come from none of them |
| StoreLaws.DeletedFileIsStoredAgain | crates/codewiki-storage/src/storage_impl.rs:354-372 | a batch of a deleted path is not skipped |
| StoreLaws.GatedIff | crates/codewiki-storage/src/storage_impl.rs:358-372 | a store passes without the database exactly when the path is recorded with this hash and this number of nodes |
| StoreLaws.StoreReplacesNodes | crates/codewiki-storage/src/storage_impl.rs:373-399 | a stored file leaves the nodes of other files and other ids and, of each id of the batch, the last node |
| StoreLaws.StoreReplacesLinks | crates/codewiki-storage/src/storage_impl.rs:373-399 | it leaves the old edges and references in order that touch neither its old nodes nor an id of the batch, then the batch's, the references numbered on, and the record of the file |
| StoreLaws.IndexFinds | crates/codewiki-storage/src/connection.rs:21-27 | in an indexed store a document is in the index exactly when a node has its id, name, qualified name, docstring and signature |
| StoreLaws.LoadIsReported | crates/codewiki-storage/src/storage_impl.rs:115-178 | the statistics of a bulk load count one more closed batch as skipped, or as written with its nodes and edges |
| StoreLaws.UntriggeredLoadKeepsIndex | crates/codewiki-storage/src/storage_impl.rs:107-178 | without triggers a bulk load does not write the index |
| StoreLaws.CommitAddsEdges | crates/codewiki-storage/src/storage_impl.rs:2051-2131 | a commit appends the edges whose ends exist, in the order of the batch |
| StoreLaws.CommitDeletesRows | crates/codewiki-storage/src/storage_impl.rs:2051-2131 | it keeps, in order, the rows that no edge of the batch names by row id or, without one, by origin, name and kind |
| Drain.CommitWithRetry | crates/codewiki-resolution/src/batch.rs:130-145 | a commit gives up exactly when the first attempt and all three retries find the database locked, and then nothing has changed |
| Drain.RunUntilEmpty | crates/codewiki-resolution/src/batch.rs:78-162 | the offset-paged drain over the shrinking table asks the resolver for the first rows in order, each once, up to 100,000 pages; on success the store is what resolving exactly those rows makes of it, on failure a prefix of that work |
| Drain.CommitPage | crates/codewiki-resolution/src/batch.rs:126-152 | committing the page at the offset on top of k drained rows leaves the table of k plus the page drained: the offset skips and repeats nothing |
| Drain.DrainedCompletely | crates/codewiki-resolution/src/batch.rs:78-162 | a complete drain leaves exactly the unresolvable rows in their order, and every row is resolved or left |
| Drain.RunForRefs | crates/codewiki-resolution/src/batch.rs:343-400 | the scoped run does in chunks what one commit of everything that resolves does |
| Drain.RunForRefsScope | crates/codewiki-resolution/src/batch.rs:343-400 | a row disappears if and only if some listed reference with its id resolves; all other rows stay |
| Drain.MadeEdgesAreFaithful | crates/codewiki-resolution/src/resolver.rs:884-917 | edges as the name matcher and, in `framework/mod.rs`, the framework resolvers make them carry the row id of their reference, which the offset accounting needs, and lead from the origin of the reference to what was found |
| Drain.UnrecordedIdSkipsRows | crates/codewiki-storage/src/storage_impl.rs:2099-2108 | with row id 0 committing the first of two rows that agree on origin, name and kind deletes both, so that a drain by pages of one row goes on with the row after them and never asks the second |
| Drain.FourAttempts | crates/codewiki-resolution/src/batch.rs:130-145 | a commit gives up exactly when four attempts in a row find the database locked |
| Drain.ReachesAllIff | crates/codewiki-resolution/src/batch.rs:83-92 | a drain reaches every row exactly when the table has at most 100,000 pages |
| ParallelDrain.FetchAll | crates/codewiki-resolution/src/batch.rs:212-232 | cursor pagination reads every row once, in order |
| ParallelDrain.ShardRefs | crates/codewiki-resolution/src/batch.rs:247-252 | each shard holds, in table order, the references whose file hashes to it |
| ParallelDrain.FetchAndShard | crates/codewiki-resolution/src/batch.rs:212-252 | fetching and sharding a table in id order hands the workers shards over which every completed schedule is a parallel drain of the store |
| ParallelDrain.ShardsPartition | crates/codewiki-resolution/src/batch.rs:247-252 | the shards together hold each reference exactly once |
| ParallelDrain.WorkIsResolveAll | crates/codewiki-resolution/src/batch.rs:284-316 | the workers offer exactly the edges the serial drain resolves |
| ParallelDrain.ParallelRefinesSerial | crates/codewiki-resolution/src/batch.rs:192-332 | for any thread count, hash, resolver and interleaving, a run whose writer ends without error leaves the serial drain's unresolved rows, its edges up to order, and its total |
| ParallelDrain.AbortedRunCommitsAPart | crates/codewiki-resolution/src/batch.rs:260-324 | when the writer gives up, what it committed is part of the serial work and nothing is committed twice |
| ParallelDrain.CommitsTenThousand | crates/codewiki-resolution/src/batch.rs:260-300 | the writer commits 10,000 edges at a time, all but the last time |
| ParallelDrain.FileStaysTogether | crates/codewiki-resolution/src/batch.rs:412-418 | the references of one file are in one shard |
| Pipeline.CompletedRun | crates/codewiki-resolution/src/batch.rs:255-324 | in a completed run each sent item is in exactly one flushed chunk unless the writer aborted, all chunks but the last are full, and every input is committed, given up, dropped or had nothing to send |
| Pipeline.Progress | crates/codewiki-resolution/src/batch.rs:255-324 | no reachable state is stuck, including after the writer stopped early: the writer can move or every unfinished worker can |
| Pipeline.MeasureDecreases | crates/codewiki-extraction/src/orchestrator.rs:208-256 | every step of workers and writer decreases a measure |
| Pipeline.RunsAreBounded | crates/codewiki-extraction/src/orchestrator.rs:208-256 | every run is finite, with a bound from its first state |
| Pipeline.ChannelIsBounded | crates/codewiki-resolution/src/batch.rs:255 | the channel never holds more than its depth |
| Pipeline.ChunkIsRetried | crates/codewiki-resolution/src/batch.rs:421-445 | a failing chunk is tried again as often as configured, and nothing else happens meanwhile |
| Pipeline.ChunkIsGivenUp | crates/codewiki-resolution/src/batch.rs:421-445 | the failure after that gives exactly this chunk up, and stops the writer where an error aborts |
| IndexRun.EveryFileIsAccountedFor | crates/codewiki-extraction/src/orchestrator.rs:151-276 | files counted, files of failed chunks and unreadable files add up to the discovered ones; without errors everything is indexed, with an error the count says so |
| IndexRun.IndexIsScheduleIndependent | crates/codewiki-extraction/src/orchestrator.rs:151-276 | two error-free runs over the same files, any number of them without a syntax tree, and any store leave the same nodes and records, and the same edges and references up to order and row ids, whatever the schedule and the split over workers: the store with each file of another hash or node count replaced; they report the same counts, the nodes and edges being those of the replaced files |
| IndexRun.FlushesTwoHundred | crates/codewiki-extraction/src/orchestrator.rs:226-240 | the writer flushes 200 files at a time, all but the last time |
| Impact.Merge | crates/codewiki-storage/src/storage_impl.rs:606-634 | the union of the family's subgraphs: nodes by id, and of the edges in order the first for each pair of ends |
| Impact.FirstOfItsPair | crates/codewiki-storage/src/storage_impl.rs:626-630 | an edge whose ends no earlier edge has is kept |
| Impact.Distances | crates/codewiki-storage/src/storage_impl.rs:717-733 | the queue loop computes for every node the exact shortest distance from the roots over answer edges, and none for unreachable nodes |
| Impact.GetImpactAggregated | crates/codewiki-storage/src/storage_impl.rs:595-819 | the query returns the capped, marker-free merge ranked by root, answer, distance, degree and id, with exactly the edges between survivors |
| Impact.AnswerGuarantees | crates/codewiki-storage/src/storage_impl.rs:595-819 | every root and every direct dependant that is no marker survives, no other marker does, the size is at most the cap or the protected floor, no edge dangles |
| Impact.DirectDependantsSurvive | crates/codewiki-storage/src/storage_impl.rs:783-803 | the cap never drops a root or a direct dependant |
| Impact.CapIsFair | crates/codewiki-storage/src/storage_impl.rs:760-803 | no context node is kept while an answer node is dropped, nor a farther node while a nearer one of its class is, nor at the same distance one of a lower degree, nor at the same degree one of a greater id |
| Impact.CapIsDeterministic | crates/codewiki-storage/src/storage_impl.rs:759-803 | the survivors do not depend on the order the hash map yields its keys in |
| Ordering.FirstDifference | crates/codewiki-storage/src/storage_impl.rs:774-784 | ids are compared by their first difference, a prefix coming first |
| Impact.AllAnswersKeptIffTheyFit | crates/codewiki-storage/src/storage_impl.rs:742-803 | all answer nodes are kept if and only if they fit the budget or the protected floor |
| Impact.DeepAnswerIsDropped | crates/codewiki-storage/src/storage_impl.rs:595-819 | a subgraph in which x depends on d and d on the root: within a budget of two every answer of the query drops x, although x is an answer node |
| ImpactLaws.AnswersAre | crates/codewiki-storage/src/storage_impl.rs:651-712 | the answers are the roots, every source of a merged edge of one of the six kinds calls, references, implements, extends, instantiates and uses with both ends in the graph, and what the direct query of a root finds |
| ImpactLaws.ContextYields | crates/codewiki-storage/src/storage_impl.rs:742-803 | in every answer of the query, no node without such an edge is kept, roots and their direct dependants apart, while one that has it and is no file or namespace is dropped |
| ImpactLaws.DirectNeedStays | crates/codewiki-storage/src/storage_impl.rs:742-803 | what has such an edge to a root stays whatever the budget |
| ImpactLaws.OnlyMarkersGo | crates/codewiki-storage/src/storage_impl.rs:735-741 | a merge that fits the budget loses exactly its files and namespaces that are no roots |
| ImpactLaws.UnreachedIsFarthest | crates/codewiki-storage/src/storage_impl.rs:733-771 | of two nodes of one class the one that depends on no root comes after the one that does |
| Walker.ExtractWithConfig | crates/codewiki-extraction/src/ast_walker.rs:241-371 | for every tree and language table the batch is closed and tree-shaped, every node and reference is explained by a tree node of the right kind, name and line, and everything the tree asks for is in it, through functions, types, enums, namespaces, impl blocks and scope-dependent kinds: each declaration below the innermost entry of the scope it is visited in and under the name this scope spells, each call, import and implements reference from it, with the scope followed exactly where impl blocks leave entries on it; qualified names follow containment when ids are distinct, impl blocks stand at file level for types nested nowhere, and at most one file-scoped namespace is declared |
| Walker.ExtractCtx.EmitNode | crates/codewiki-extraction/src/ast_walker.rs:132-181 | an empty or anonymous name emits nothing; otherwise one node with its id, kind, name, line and scope-qualified name and one contains edge from the innermost scope |
| Walker.ExtractCtx.WalkNode | crates/codewiki-extraction/src/ast_walker.rs:705-770 | visiting a subtree only appends and covers the subtree from the scope it was visited in to the scope it leaves |
| Walker.ExtractCtx.ExtractRustImpl | crates/codewiki-extraction/src/ast_walker.rs:1316-1445 | an impl block hangs its body on the first type of its name, a type node of its own or the file, records the trait as implemented by that node, and pops it only for a plain Self type, so every other impl leaks a scope entry |
| WalkCases.NoLeak | crates/codewiki-extraction/src/ast_walker.rs:1430-1443 | a visit leaves the scope as it was when the subtree holds no impl block whose Self type is no plain identifier (sufficient only) |
| WalkCases.ImplLeavesEntryIff | crates/codewiki-extraction/src/ast_walker.rs:1430-1443 | an impl block with no such block inside leaves the scope as it was if and only if its own Self type is a plain identifier, and otherwise leaves the file on it |
| WalkCases.CallsBelongToCallable | crates/codewiki-extraction/src/ast_walker.rs:950-1028 | every call in the body of a function or method, at any depth of statements and expressions, is a reference of the node emitted for exactly that callable, by the name its callee has behind the last dot |
| WalkNames.CalleeNameIs | crates/codewiki-extraction/src/ast_walker.rs:1296-1314 | a call is named by the text of its function field, else its name field, else its callee field, from behind the last dot |
| WalkNames.ModuleNameIs | crates/codewiki-extraction/src/ast_walker.rs:1254-1265 | an import is named by what its source, else its module name, else its path, else its name field holds between the quotes |
| WalkNames.ModuleNameOfChild | crates/codewiki-extraction/src/ast_walker.rs:1266-1286 | without such a field, by the first qualified name, identifier or name among its children that is not only quotes |
| WalkNames.NameOfIs | crates/codewiki-extraction/src/ast_walker.rs:824-842 | a declaration is named by its name field, else by the first of the four kinds of identifier among its named children |
| WalkNames.NamespaceNameIs | crates/codewiki-extraction/src/ast_walker.rs:884-915 | a namespace is named by its name field unless that is empty, else by the first qualified name or identifier |
| WalkNames.ImplTypeIs | crates/codewiki-extraction/src/ast_walker.rs:1322-1334 | of several type identifiers of an impl block the last is the Self type and the first the trait |
| WalkLaws.DeclarationIsEmitted | crates/codewiki-extraction/src/ast_walker.rs:705-770 | every visited tree node of a kind the language table lists for functions, methods, classes, interfaces, structs, enums, type aliases, properties or fields has its node, with its kind, name, line, id, export flag and scope-qualified name, contained in the innermost scope entry |
| WalkLaws.NamespaceIsEmitted | crates/codewiki-extraction/src/ast_walker.rs:871-945 | so has every namespace that is not file-scoped |
| WalkLaws.VariableIsEmitted | crates/codewiki-extraction/src/ast_walker.rs:1220-1246 | outside classes and callables so has each declarator of a variable declaration |
| WalkLaws.BareVariableIsEmitted | crates/codewiki-extraction/src/ast_walker.rs:1220-1246 | and a variable declaration without declarators |
| WalkLaws.TypeBodyIsVisited | crates/codewiki-extraction/src/ast_walker.rs:1091-1155 | all named children of a class, interface or struct are visited below its node |
| WalkLaws.CallableBodyIsVisited | crates/codewiki-extraction/src/ast_walker.rs:950-1028 | all named children of the body of a function or method are visited below its node |
| WalkLaws.NamespaceBodyIsVisited | crates/codewiki-extraction/src/ast_walker.rs:924-945 | all named children of the body of a namespace, or without one all but its names, are visited below its node |
| WalkLaws.EnumBodyIsVisited | crates/codewiki-extraction/src/ast_walker.rs:1157-1193 | of the named children of an enum each variant has its node below the enum, lists of variants are visited through and anything else is visited |
| WalkLaws.PlainTreeIsVisited | crates/codewiki-extraction/src/ast_walker.rs:705-770 | what declares nothing is passed through, calls and imports included |
| WalkLaws.CallIsReferred | crates/codewiki-extraction/src/ast_walker.rs:1296-1314 | every visited call is a reference from the innermost scope entry by the name behind the last dot, new excepted |
| WalkLaws.ImportIsReferred | crates/codewiki-extraction/src/ast_walker.rs:1248-1294 | every visited import is a reference to the module named between the quotes |
| WalkLaws.TraitIsReferred | crates/codewiki-extraction/src/ast_walker.rs:1336-1428 | a trait impl is a reference to the trait from the node the block hangs on |
| WalkLaws.ReferencesAreAsked | crates/codewiki-extraction/src/ast_walker.rs:1248-1428 | every reference of a batch is a call, an import or a trait impl of the tree, with its name |
| WalkLaws.InClassIs | crates/codewiki-extraction/src/ast_walker.rs:787-822 | the innermost entry that is the file or a type decides whether a scope is in a class, and the innermost function, method or file whether it is in a function; each entry but the file adds its name |
| WalkLaws.TargetIs | crates/codewiki-extraction/src/ast_walker.rs:1336-1390 | an impl block hangs on the first struct, trait, class or enum of its name emitted so far, else on a type node of its own line |
| WalkCases.ImplNamesFollowIff | crates/codewiki-extraction/src/ast_walker.rs:132-150 | what is emitted inside an impl block is named after its target if and only if the target is qualified by the scope the block stands in |
| WalkCases.ImplOfNestedTypeMisnames | crates/codewiki-extraction/src/ast_walker.rs:1336-1437 | walking a function that declares a type, and then an impl block for it at file level, leaves a method under a name that is not its container's, unless two of the emitted nodes share an id |
| WalkCases.OrdinaryImplFits | crates/codewiki-extraction/src/ast_walker.rs:1336-1437 | a type at file level and its impl block meet the condition under which names follow containment |
| WalkSpec.NameInScope | crates/codewiki-extraction/src/ast_walker.rs:132-150 | in a scope that mirrors containment a new name is its container's qualified name, two colons and the name |
| Walker.ShapedIsClosed | crates/codewiki-extraction/src/ast_walker.rs:132-223 | every edge end and every reference origin of a walked batch is one of its nodes |
| Walker.EveryNodeIsReachable | crates/codewiki-extraction/src/ast_walker.rs:132-181 | every emitted node is reached from the file node by contains edges |
| Walker.ExactlyOneParent | crates/codewiki-extraction/src/ast_walker.rs:132-181 | with distinct ids every node but the file is the target of exactly one contains edge |
| Walker.WalkedBatchIsStored | crates/codewiki-storage/src/storage_impl.rs:147-172 | a walked batch is stored whole and the orphan backstop skips none of its edges |
| SyncCycle.SyncStore.ClassifyDisk | crates/codewiki-sync/src/sync_loop.rs:191-212 | exactly the untracked files are added; exactly those with another mtime, or another size and another hash, are modified |
| SyncCycle.SyncStore.FindRemoved | crates/codewiki-sync/src/sync_loop.rs:221-226 | exactly the tracked paths that are neither on disk nor below the manifest directory are removed |
| SyncCycle.SyncStore.ProcessChanges | crates/codewiki-extraction/src/orchestrator.rs:124-137 | removed files are deleted, the changed ones extracted and stored, and the batches returned whether stored or not |
| SyncCycle.SyncStore.RunSyncCycle | crates/codewiki-sync/src/sync_loop.rs:115-304 | the whole cycle, in any iteration order, is one function of the state it starts in, and a quiet one touches nothing |
| SyncCycle.PathsAfter | crates/codewiki-sync/src/sync_loop.rs:191-278 | exactly which paths have a record after a cycle, including buffered removes and files without a tree |
| SyncCycle.AbsentFileIsDropped | crates/codewiki-sync/src/sync_loop.rs:216-226 | a cycle drops the record of an absent file unless it is the manifest directory or a path below it |
| SyncCycle.ChangedFileIsRecorded | crates/codewiki-sync/src/sync_loop.rs:191-271 | a new file, one with another time, or with another size and another hash gets the record of its present text, without a byte order mark |
| SyncCycle.UnchangedFileKeepsRecord | crates/codewiki-sync/src/sync_loop.rs:191-212 | any other file keeps its record |
| SyncCycle.ChangedFileIsIndexed | crates/codewiki-extraction/src/orchestrator.rs:124-137 | its nodes are stored anew unless the store fails or hash and node count are those of the record |
| SyncCycle.TreelessFileIsRecorded | crates/codewiki-sync/src/sync_loop.rs:262-271 | a new file without a tree gets no record and leaves one with an empty path |
| SyncCycle.BomIsDropped | crates/codewiki-extraction/src/file_reader.rs:12-40 | three bytes of byte order mark, and nothing less, are not part of a text |
| SyncCycle.CycleMirrorsDisk | crates/codewiki-sync/src/sync_loop.rs:115-304 | without buffered removes and with extractable files the stored paths are the walked ones and the old virtual ones |
| SyncCycle.HashAfter | crates/codewiki-sync/src/sync_loop.rs:77-82 | after a cycle the stored hash is the file's if and only if the edit did not keep both mtime and size |
| SyncCycle.SilentEditIsMissed | crates/codewiki-sync/src/sync_loop.rs:77-82 | an edit that keeps both leaves the whole store as it was |
| SyncCycle.SecondCycleIsQuiet | crates/codewiki-sync/src/sync_loop.rs:191-243 | an immediate second cycle is a no-op if and only if every file found changed extracts to a batch of its own that records its time |
| SyncCycle.UnstampedFileChangesAgain | crates/codewiki-sync/src/sync_loop.rs:191-212 | after the first cycle over a file whose extractor records time 0 the next one is not quiet |
| SyncCycle.ConsistentAfter | crates/codewiki-sync/src/sync_loop.rs:262-271 | records keep describing the stored nodes if and only if no store fails for a text the store did not have |
| SyncCycle.FailedStoreIsRecorded | crates/codewiki-sync/src/sync_loop.rs:262-271 | a new file whose store fails has a record and no nodes |
| LiveSync.NoNotifiedEditIsLost | crates/codewiki-sync/src/live_sync.rs:167-233 | in every reachable state a path whose edits were notified is settled, or a queued batch names it, or the loop is between receive and its visit, or the last ended cycle failed |
| LiveSync.AtRestRecordsMirrorDisk | crates/codewiki-sync/src/live_sync.rs:167-233 | at rest after a cycle that did not fail the records are those of the disk with its mtimes, and one holds an old text if and only if its last stamp was torn, or it was stale at the start, and the file was left alone since |
| LiveSync.UntornRunsLoseNothing | crates/codewiki-sync/src/live_sync.rs:167-233 | over honest records, in runs without a same-size edit between the read of a text and its stamp, every record at rest holds the text of the file |
| LiveSync.MirrorsIffCaughtUp | crates/codewiki-sync/src/live_sync.rs:167-233 | for every run from any state without versions from the future and any mix of failed cycles, a file is up to date at the end (it has a record if and only if it exists, with its text) if and only if the run ends caught up with it: edits put it behind, a deletion unless it had no record, a stamp of the present text or the drop of a gone file's record brings it back |
| LiveSync.FailedCycleLosesEdit | crates/codewiki-sync/src/live_sync.rs:224-228 | a run in which a failed cycle uses up its trigger and the loop rests over an old record |
| LiveSync.TornReadLosesEdit | crates/codewiki-extraction/src/ast_walker.rs:376-388 | a run in which a same-size edit between read and stamp is recorded as seen and never indexed |
| LiveSync.LoopStepsDecrease | crates/codewiki-sync/src/live_sync.rs:176-231 | every step of the loop takes a batch off the queue or does part of the work at hand |
| LiveSync.LoopNeverSticks | crates/codewiki-sync/src/live_sync.rs:176-231 | while there is a batch or work at hand the loop has a step that is not a failure |
| EditBuilder.EditSplices | crates/codewiki-sync/src/edit_builder.rs:26-90 | a returned edit is in range and splicing its middle into the old text gives the new text, and the other way round |
| EditBuilder.EditPoints | crates/codewiki-sync/src/edit_builder.rs:68-88 | its points denote its offsets, and the start point is the same in both texts |
| EditBuilder.EditWithinRatio | crates/codewiki-sync/src/edit_builder.rs:60-65 | a returned edit changes at most the given fraction of the old text |
| EditBuilder.EditWithinLines | crates/codewiki-sync/src/edit_builder.rs:68-79 | a returned edit spans at most 500 lines of either text |
| EditBuilder.BuiltIff | crates/codewiki-sync/src/edit_builder.rs:26-90 | an edit is built if and only if the texts differ, the changed part is within the threshold, no cut is inside a character and neither text changes in more than 500 rows |
| EditBuilder.EditIsMinimalIff | crates/codewiki-sync/src/edit_builder.rs:39-58 | the changed region is the smallest possible if and only if the shorter remainder is empty or no suffix of the longer one |
| EditBuilder.InsertionReplacesTail | crates/codewiki-sync/src/edit_builder.rs:39-58 | after one byte is inserted before a tail the texts share all the rest, but the edit replaces the whole tail |
| EditBuilder.PointRoundTrip | crates/codewiki-sync/src/edit_builder.rs:96-105 | every offset can be read back from its point |
| EditBuilder.PointsAreMonotone | crates/codewiki-sync/src/edit_builder.rs:96-105 | offsets and points are ordered alike, strictly |
| EditBuilder.PanicsIff | crates/codewiki-sync/src/edit_builder.rs:96-98 | the builder panics if and only if the edit is small enough and starts, or its suffix starts, inside a character |
| EditBuilder.AsciiNeverPanics | crates/codewiki-sync/src/edit_builder.rs:96-98 | an ASCII old text never makes the builder panic |
| EditBuilder.TrailingByteEditPanics | crates/codewiki-sync/src/edit_builder.rs:96-98 | changing one trailing byte of a character panics in every long enough text |
| StripComments.StripPython | crates/codewiki-resolution/src/strip_comments.rs:51-122 | the in-place scanner equals the per-byte state machine |
| StripComments.StripRuby | crates/codewiki-resolution/src/strip_comments.rs:126-208 | the in-place scanner equals the per-byte state machine, with begin and end blocks at line starts |
| StripComments.StripCStyle | crates/codewiki-resolution/src/strip_comments.rs:212-308 | the in-place scanner equals the per-byte state machine, with and without single-quoted strings |
| StripComments.StripGo | crates/codewiki-resolution/src/strip_comments.rs:312-385 | the in-place scanner equals the per-byte state machine |
| StripComments.StripRust | crates/codewiki-resolution/src/strip_comments.rs:389-452 | the in-place scanner equals the per-byte state machine, with nested blocks |
| StripComments.StripPhp | crates/codewiki-resolution/src/strip_comments.rs:456-534 | the in-place scanner equals the per-byte state machine |
| StripComments.StripKeepsText | crates/codewiki-resolution/src/strip_comments.rs:43-47 | stripping keeps the length and every newline, and changes a byte only to a space inside a comment or blanked string |
| Comments.CommentsAreBlanked | crates/codewiki-resolution/src/strip_comments.rs:51-534 | however a text of any of the seven languages is divided into comments, literals and plain bytes, by what begins and closes them, stripping turns exactly the bytes of the comments, newlines apart, into spaces |
| Comments.EveryTextIsSegmented | crates/codewiki-resolution/src/strip_comments.rs:51-534 | every text can be divided so |
| Comments.StripsAfresh | crates/codewiki-resolution/src/strip_comments.rs:51-534 | where a segment begins, and in Ruby a line, the rest is stripped as a text of its own |
| Lexer.StrippingTwice | crates/codewiki-resolution/src/strip_comments.rs:51-534 | a second pass changes nothing, in every language, terminated or not |
| Utf8.StrippedIsValidIff | crates/codewiki-resolution/src/strip_comments.rs:43-47 | blanked UTF-8 text stays valid if and only if it does not end inside an open block comment in the middle of a character |
| Utf8.EncodedIsValid | crates/codewiki-resolution/src/strip_comments.rs:43-47 | the encoding of any code points that are no surrogates is valid |
| Utf8.ValidIsEncoded | crates/codewiki-resolution/src/strip_comments.rs:43-47 | and every valid text is such an encoding |
| StripComments.FallbackIffCut | crates/codewiki-resolution/src/strip_comments.rs:307 | the unstripped text is returned exactly in that case |
| StripComments.OpenCommentKeepsComment | crates/codewiki-resolution/src/strip_comments.rs:226-240 | a four-byte text that takes the fallback |
| Jsonc.StripJsonc | crates/codewiki-resolution/src/path_aliases.rs:88-206 | the two index loops compute comment blanking followed by comma removal |
| Jsonc.PassesAgreeOnStrings | crates/codewiki-resolution/src/path_aliases.rs:88-206 | the second pass is inside a string exactly where the first was, even with quotes inside comments |
| Jsonc.TwoPassesByteByByte | crates/codewiki-resolution/src/path_aliases.rs:88-206 | what both passes do to each byte: comments to spaces, trailing commas outside strings to spaces, nothing else, same length and lines |
| Jsonc.StringsSurvive | crates/codewiki-resolution/src/path_aliases.rs:88-206 | every JSON string comes out as it went in |
| Jsonc.CommaGoesIff | crates/codewiki-resolution/src/path_aliases.rs:152-206 | a comma outside strings goes exactly when only blanks stand between it and a closing bracket or brace |
| Jsonc.CommaPassIdempotentIff | crates/codewiki-resolution/src/path_aliases.rs:152-206 | removing commas twice is removing them once if and only if no comma stands directly before a trailing one |
| Jsonc.TwoCommasTakeTwoPasses | crates/codewiki-resolution/src/path_aliases.rs:152-206 | one pass over `,,]` leaves its first comma, a second one removes it |
| GoScanners.ReadBalancedBraces | crates/codewiki-resolution/src/structural_interface.rs:498-536 | the loop finds the block that closes the brace, skipping string, rune and raw literals |
| GoScanners.ReadsExactlyTheBodies | crates/codewiki-resolution/src/structural_interface.rs:498-536 | the reader returns t if and only if t is a well-formed body and stands between braces at that place, whatever surrounds it |
| GoScanners.LiteralsHideBraces | crates/codewiki-resolution/src/structural_interface.rs:498-536 | a brace inside a string, rune or raw literal closes nothing, nor one after an escaped quote; a raw literal has no escapes |
| GoScanners.SplitTopLevelCommas | crates/codewiki-resolution/src/structural_interface.rs:474-492 | the loop cuts at exactly the commas at bracket depth 0 |
| GoScanners.JoiningTheGroups | crates/codewiki-resolution/src/structural_interface.rs:474-492 | the groups joined by commas are the text |
| GoScanners.GroupsConcat | crates/codewiki-resolution/src/structural_interface.rs:474-492 | after a comma at depth 0 the splitter starts afresh |
| GoScanners.ParamArity | crates/codewiki-resolution/src/structural_interface.rs:451-471 | arity counts the non-blank groups of the untrimmed list |
| GoScanners.ArityAdds | crates/codewiki-resolution/src/structural_interface.rs:451-492 | arity adds over a comma after a bracket-balanced list |
| GoScanners.NestedIsOneGroup | crates/codewiki-resolution/src/structural_interface.rs:474-492 | a list never back at depth 0 before a comma is one group |
| GoScanners.BracketsHideCommas | crates/codewiki-resolution/src/structural_interface.rs:474-492 | parentheses, brackets and braces each hide a comma, and the comma behind them splits |
| GoScanners.BlanksAreNoParameter | crates/codewiki-resolution/src/structural_interface.rs:451-471 | a blank is no parameter, any other byte is one |
| GoInterfaces.Build | crates/codewiki-resolution/src/structural_interface.rs:113-213 | the inventory does not depend on the order in which files are parsed and merged |
| GoInterfaces.SynthesizeFromNodes | crates/codewiki-resolution/src/structural_interface.rs:113-257 | the edges are exactly the pairs of exported concrete type and exported interface with a non-empty method set covered by the type's, per package, each pair once for distinct ids |
| GoInterfaces.SoundAndComplete | crates/codewiki-resolution/src/structural_interface.rs:113-257 | an edge with its confidence is synthesized if and only if the type covers the interface |
| GoInterfaces.EdgesAreSatisfied | crates/codewiki-resolution/src/structural_interface.rs:113-257 | an edge is synthesized exactly from an exported struct, enum or type alias to an exported interface for whose every method, of which there is one, some Go file of the type's package gives the type that method, with confidence 0.75 for two methods or more and else 0.55 |
| GoInterfaces.PackageDirIs | crates/codewiki-resolution/src/structural_interface.rs:549-556 | the package of a file is its path before the last slash or backslash |
| GoInterfaces.OnceForEachPair | crates/codewiki-resolution/src/structural_interface.rs:221-247 | with distinct node ids no pair is synthesized twice |
| NameIndex.WarmCaches | crates/codewiki-resolution/src/resolver.rs:400-470 | after the loop each of the four maps returns, for every key, the nodes with that key in list order; interning changes nothing |
| NameIndex.IndexedMatchIsScanMatch | crates/codewiki-resolution/src/resolver.rs:936-993 | matching through the indexes finds the node and confidence that matching by scans finds, in whatever order the file map yields its keys |
| NameIndex.OneMoreFileHidesMatch | crates/codewiki-resolution/src/resolver.rs:977-985 | the files table can name a file without nodes, and one more qualifying file hides a suffix match |
| NameIndex.PlainNamesAreMatchedExactly | crates/codewiki-resolution/src/resolver.rs:547-678 | a plain name passes the guard exactly when a node has it or an import brings it in, and when a node has it, is matched by the exact-name tier |
| MatchLaws.DottedNamePasses | crates/codewiki-resolution/src/resolver.rs:630-646 | a dotted name passes the guard exactly when a node or an import has it, its receiver, the receiver with a capital, or what follows the first dot |
| MatchLaws.ColonNamePasses | crates/codewiki-resolution/src/resolver.rs:647-653 | a name with colons exactly when one has it or what stands before or after the first colons |
| MatchLaws.PathNamePasses | crates/codewiki-resolution/src/resolver.rs:654-659 | a path exactly when one has it or its last part |
| NameMatcher.AgreeingContextsMatchAlike | crates/codewiki-resolution/src/name_matcher.rs:34-61 | the matcher depends on the lookups only and is invariant under permutations of the file list |
| MatchLaws.PathIsMatched | crates/codewiki-resolution/src/name_matcher.rs:63-91 | a reference by the path of a file finds the first node of the file with 0.95 |
| MatchLaws.PathSuffixIsMatched | crates/codewiki-resolution/src/name_matcher.rs:92-107 | otherwise the only file that ends in the name gives its first node with 0.85 |
| MatchLaws.FileNameIsMatched | crates/codewiki-resolution/src/name_matcher.rs:108-130 | otherwise the only file whose own name begins with the last part gives it with 0.70 |
| MatchLaws.QualifiedNameIsMatched | crates/codewiki-resolution/src/name_matcher.rs:136-153 | where no file is found, the first node with that qualified name is, with 0.95 |
| MatchLaws.QualifiedSuffixIsMatched | crates/codewiki-resolution/src/name_matcher.rs:154-175 | without one, the first node of the last component whose qualified name ends in the name, with 0.85 |
| MatchLaws.DirectCallIsMatched | crates/codewiki-resolution/src/name_matcher.rs:180-221 | where both find nothing, a call `a.b` or `a::b` finds a callable b in a file with a class, struct or interface a, with 0.85 |
| MatchLaws.CapitalCallIsMatched | crates/codewiki-resolution/src/name_matcher.rs:222-246 | else one in a file with any node named like a with a capital, with 0.75 |
| MatchLaws.CalledNameIsMatched | crates/codewiki-resolution/src/name_matcher.rs:247-265 | else a callable b that no callable b outscores, with 0.65 |
| MatchLaws.OnlyNodeIsMatched | crates/codewiki-resolution/src/name_matcher.rs:267-287 | where all three find nothing, the only node of the name, with 0.9 or, in another language, 0.5 |
| MatchLaws.BestNodeIsMatched | crates/codewiki-resolution/src/name_matcher.rs:288-300 | of several nodes one that none outscores, with 0.4 and the two-hundredth part of its score, up to 0.9 |
| MatchLaws.OtherCaseIsMatched | crates/codewiki-resolution/src/name_matcher.rs:302-332 | without one, the first function, method or class that has the name in another case, with 0.5 or 0.3 |
| MatchLaws.SameFileIsPreferred | crates/codewiki-resolution/src/name_matcher.rs:337-353 | a node of the file of the reference outscores every node of another file that agrees with it on the language |
| MatchLaws.SameLanguageIsPreferred | crates/codewiki-resolution/src/name_matcher.rs:354-360 | a node of the language of the reference outscores every one of another language, unless only that one is in the file of the reference |
| MatchLaws.WantedKindIsPreferred | crates/codewiki-resolution/src/name_matcher.rs:361-388 | of nodes alike in file, line and language, calls prefer callables, instantiations classes and structs, decorators functions and then classes, and otherwise being exported counts ten |
| MatchLaws.NearerLineIsPreferred | crates/codewiki-resolution/src/name_matcher.rs:344-351 | in the file of the reference each line nearer, within twenty, counts one |
| MatchLaws.ScoreValues | crates/codewiki-resolution/src/name_matcher.rs:337-388 | for a call, an unexported callable of another file and language scores -55, one of the same without a line 175 |
| MatchLaws.LanguagesOfFiles | crates/codewiki-resolution/src/name_matcher.rs:401-460 | which languages a reference accepts, by the extension of its file |
| NameMatcher.BestIsLastOfTheHighest | crates/codewiki-resolution/src/name_matcher.rs:390-399 | the chosen candidate scores highest and is the last of those that do |
| NameMatcher.DroppedIff | crates/codewiki-resolution/src/resolver.rs:737-740 | a match is dropped for low confidence exactly when the exact-name tier had several candidates and the best is of another language and another file |
| NameMatcher.SecondForeignCandidateHidesFirst | crates/codewiki-resolution/src/resolver.rs:737-740 | a plain name of one foreign node is resolved with confidence 0.5, and no longer resolved when there is a second one |
| Resolver.ResolveOne | crates/codewiki-resolution/src/resolver.rs:547-626 | skipped references give nothing; the first sure framework answer wins, then a sure import, otherwise the last of the most confident answers of framework, import and name matcher |
| Resolver.MostConfident | crates/codewiki-resolution/src/resolver.rs:620-625 | the candidate taken is at least as confident as all and more than all that come later |
| PathAliases.Resolve | crates/codewiki-resolution/src/path_aliases.rs:52-80 | the first matching entry is expanded, exact patterns by equality and wildcards by prefix; no match gives nothing |
| PathAliases.MostSpecificWins | crates/codewiki-resolution/src/path_aliases.rs:250-256 | in the sorted entries the winner has the longest prefix of all that match, and an exact pattern beats every wildcard |
| PathAliases.WildcardExpands | crates/codewiki-resolution/src/path_aliases.rs:52-80 | a wildcard matches exactly the paths with its prefix, and what follows the prefix replaces the first star of each template |
| PathAliases.ExactExpands | crates/codewiki-resolution/src/path_aliases.rs:52-80 | an exact pattern matches itself only, and a star directory at the end of its template is cut |
| PathAliases.ListingOrderIsIrrelevantIff | crates/codewiki-resolution/src/path_aliases.rs:250-256 | the entry that a path resolves by is the same for every order in which the file lists its aliases if and only if no other entry is a wildcard, or exact pattern, with the same text up to the star |
| PathAliases.SharedPrefixDependsOnOrder | crates/codewiki-resolution/src/path_aliases.rs:250-256 | of two different wildcards equal up to the star each wins when it is listed first |
| GitHooks.StripMarkerBlock | crates/codewiki-sync/src/git_hooks.rs:247-264 | the loop keeps exactly the lines that are no marker and whose last marker before is not an opening one |
| GitHooks.PairedKeepsUserLines | crates/codewiki-sync/src/git_hooks.rs:247-264 | with paired markers exactly the lines outside the blocks are kept |
| GitHooks.UnclosedBlockTakesTheRest | crates/codewiki-sync/src/git_hooks.rs:247-264 | a block that is never closed takes all lines after it |
| GitHooks.InstallKeepsUserLines | crates/codewiki-sync/src/git_hooks.rs:130-153 | an installed script is the user's lines, a blank line and exactly one block, or a shebang and the block |
| GitHooks.InstallsSettle | crates/codewiki-sync/src/git_hooks.rs:130-153 | from the second install on no byte changes, and from the first if the user has a line |
| GitHooks.SecondInstallAddsBlankLine | crates/codewiki-sync/src/git_hooks.rs:135-145 | without user lines the second install adds one blank line |
| GitHooks.RemoveUndoesInstalls | crates/codewiki-sync/src/git_hooks.rs:183-205 | removing after any number of installs gives the user's text trimmed with one newline, or deletes the script when only shebangs and blank lines are the user's |
| GitHooks.TheBlockIs | crates/codewiki-sync/src/git_hooks.rs:232-245 | the eight lines of the block |
| GitHooks.MarkersMayBeIndented | crates/codewiki-sync/src/git_hooks.rs:247-264 | a marker counts with blanks around it |
| GitHooks.InertLinesAre | crates/codewiki-sync/src/git_hooks.rs:269-278 | blank lines and shebangs keep no script alive, other comments do |
| GitHooks.OneLineIsKept | crates/codewiki-sync/src/git_hooks.rs:130-153 | the script of one line becomes the line, a blank line and the block |
| GitHooks.HooksDir.InstallGitSyncHook | crates/codewiki-sync/src/git_hooks.rs:130-153 | each hook is installed as often as it is named and no other file changes |
| GitHooks.HooksDir.RemoveGitSyncHook | crates/codewiki-sync/src/git_hooks.rs:183-205 | each hook is removed as often as it is named, the reported ones are exactly the named ones that had a marker, and no other file changes |

## Left out

- SQLite itself, WAL, pragmas, the advisory lock and migrations: a database is a value, and which writes are refused is an input. COMMIT and ROLLBACK are taken to succeed, row ids are not reused, and taking an entry out of the index that is not in it has no effect.
- The store trait's other methods (`store_extraction_batch_bulk`, counters of the bulk load, graph traversals, full-text queries): the impact query takes the traversal's subgraphs, the edge table's incoming edges and the degrees as inputs.
- `resolve_symbol_family`, `rank_and_cap_neighbors` and `find_relevant_context`: rankings without a promise beyond their sort keys.
- tree-sitter, WASM grammars and parser pools: a tree is an abstract labelled tree; language hooks are the default ones, docstrings, signatures and metadata are empty.
- Regex-based import and Go declaration parsing, framework resolvers, the built-in lists: their answers and the parsed method sets are inputs.
- Cold caches: matching by database queries orders the nodes of a file by start line and lowercases ASCII only; the scans of the model keep table order. The serial fallback of the parallel drain is the serial drain.
- IndexRun.IndexIsScheduleIndependent: files that yield anything share neither path nor node id, and an id of a file is in use in the store for that file only, as hashes of path, kind, name and line are. In the log of a run a failed flush is one refused at its first write.
- SyncCycle.SyncStore.RunSyncCycle: the disk holds still during a cycle (the live-sync module covers edits in between), deletes and the metadata update do not fail, inodes are not recorded, paths are compared as strings, and walked files pass the extractor's own language and size filter.
- LiveSync.NoNotifiedEditIsLost: shutdown and a closed watcher end the loop and are not steps; each edit has a new modification time and the hash tells versions apart; the look at a file and its hash are one moment.
- Drain.RunUntilEmpty: the resolver is a function of the reference, as it is once caches are warm.
- MatchLaws.SameLanguageIsPreferred: for line numbers below two to the 31st; farther apart the difference of lines, cast to 32 bits, turns negative and counts (`FarLineOutweighsLanguage`).
- Floating point: the edit threshold and all confidences are real numbers.
- White space in Go parameter lists is ASCII white space; in hook scripts it is Unicode white space.
- PathAliases.Resolve: results are the expanded templates; joining them to the base URL and reading the JSON are not modelled.
- File-system errors of the hook commands and file permissions.
- MCP server, web server, command line, watch policy, event coalescing, configuration layers and benchmarks: plumbing or easy members.
