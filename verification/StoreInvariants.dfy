/** What every operation of the store keeps, over every run, and exactly when the
    full-text index stays in step with the nodes table. */
module StoreInvariants {
  import opened Graph
  import opened Seqs
  import opened Store

  ghost predicate Keyed(db: Db)
  {
    forall id :: id in db.nodes ==> db.nodes[id].node.id == id
  }

  ghost predicate RowidsOk(db: Db)
  {
    && (forall id :: id in db.nodes ==> db.nodes[id].rowid < db.nextRowid)
    && (forall a, b :: a in db.nodes && b in db.nodes && a != b ==> db.nodes[a].rowid != db.nodes[b].rowid)
    && (forall p :: p in db.fts ==> p.0 < db.nextRowid)
  }

  ghost predicate Numbering(refs: seq<UnresolvedRef>, next: int)
  {
    && next > 0
    && (forall i :: 0 <= i < |refs| ==> 0 < refs[i].id < next)
    && (forall i, j :: 0 <= i < j < |refs| ==> refs[i].id < refs[j].id)
  }

  /** Keys, row numbers and foreign keys are in order. */
  ghost predicate WellFormed(db: Db)
  {
    Keyed(db) && RowidsOk(db) && Numbering(db.refs, db.nextRef) && EdgesOk(db, db.edges) && RefsOk(db, db.refs)
  }

  ghost predicate FtsSync(db: Db)
  {
    db.fts == FtsOf(db.nodes)
  }

  ghost predicate CacheCoherent(db: Db, cache: map<string, Node>)
  {
    forall id :: id in cache ==> Lookup(db, id) == Some(cache[id])
  }

  // ----- foreign keys and row numbers -----------------------------------------

  lemma {:induction false} FilterNumbering(refs: seq<UnresolvedRef>, keep: UnresolvedRef -> bool, next: int)
    requires Numbering(refs, next)
    ensures Numbering(Filter(refs, keep), next)
  {
    if |refs| > 0 {
      var init := refs[..|refs|-1];
      FilterNumbering(init, keep, next);
      forall r | r in Filter(init, keep) ensures r.id < refs[|refs|-1].id { FilterMember(init, keep, r); }
    }
  }

  lemma FilterEdgesOk(db: Db, edges: seq<Edge>, keep: Edge -> bool, d: Db)
    requires forall e :: e in edges && keep(e) ==> EdgeOk(d, e)
    ensures EdgesOk(d, Filter(edges, keep))
  {
    forall e | e in Filter(edges, keep) ensures EdgeOk(d, e) { FilterMember(edges, keep, e); }
  }

  lemma FilterRefsOk(refs: seq<UnresolvedRef>, keep: UnresolvedRef -> bool, d: Db)
    requires forall r :: r in refs && keep(r) ==> r.fromNode in d.nodes
    ensures RefsOk(d, Filter(refs, keep))
  {
    forall r | r in Filter(refs, keep) ensures r.fromNode in d.nodes { FilterMember(refs, keep, r); }
  }

  lemma CascadeWellFormed(db: Db, gone: set<string>)
    requires WellFormed(db)
    ensures WellFormed(Cascade(db, gone))
  {
    var d := Cascade(db, gone);
    FilterEdgesOk(db, db.edges, Detached(gone), d);
    FilterRefsOk(db.refs, NotFrom(gone), d);
    FilterNumbering(db.refs, NotFrom(gone), db.nextRef);
  }

  lemma FilteredRefsWellFormed(db: Db, keep: UnresolvedRef -> bool)
    requires WellFormed(db)
    ensures WellFormed(db.(refs := Filter(db.refs, keep)))
  {
    FilterRefsOk(db.refs, keep, db);
    FilterNumbering(db.refs, keep, db.nextRef);
  }

  lemma DeleteNodesWellFormed(db: Db, path: string)
    requires WellFormed(db)
    ensures WellFormed(DeleteNodesByFile(db, path))
  {
    CascadeWellFormed(db, IdsOfFile(db, path));
  }

  lemma InsertNodeWellFormed(db: Db, n: Node)
    requires WellFormed(db)
    ensures WellFormed(InsertNode(db, n))
  {
    if n.id in db.nodes { CascadeWellFormed(db, {n.id}); }
  }

  lemma {:induction false} InsertNodesWellFormed(db: Db, ns: seq<Node>)
    requires WellFormed(db)
    ensures WellFormed(InsertNodes(db, ns))
  {
    if |ns| > 0 {
      InsertNodesWellFormed(db, ns[..|ns|-1]);
      InsertNodeWellFormed(InsertNodes(db, ns[..|ns|-1]), ns[|ns|-1]);
    }
  }

  lemma {:induction false} InsertNodesKeys(db: Db, ns: seq<Node>)
    ensures InsertNodes(db, ns).nodes.Keys == db.nodes.Keys + NodeIds(ns)
    ensures InsertNodes(db, ns).triggers == db.triggers && InsertNodes(db, ns).files == db.files
  {
    if |ns| > 0 {
      var init, n := ns[..|ns|-1], ns[|ns|-1];
      InsertNodesKeys(db, init);
      assert ns == init + [n];
      assert NodeIds(ns) == NodeIds(init) + {n.id};
    }
  }

  lemma NodesReplacedFacts(db: Db, b: ExtractionBatch)
    requires WellFormed(db)
    ensures WellFormed(NodesReplaced(db, b))
    ensures NodesReplaced(db, b).nodes.Keys == (db.nodes.Keys - IdsOfFile(db, b.file.path)) + NodeIds(b.nodes)
    ensures NodesReplaced(db, b).triggers == db.triggers && NodesReplaced(db, b).files == db.files
  {
    DeleteNodesWellFormed(db, b.file.path);
    var d := DeleteNodesByFile(db, b.file.path);
    FilteredRefsWellFormed(d, NotFrom({b.file.path}));
    InsertNodesWellFormed(d.(refs := KeepRefs(d.refs, {b.file.path})), b.nodes);
    InsertNodesKeys(d.(refs := KeepRefs(d.refs, {b.file.path})), b.nodes);
  }

  lemma StoreTxWellFormed(db: Db, b: ExtractionBatch, backstop: bool)
    requires WellFormed(db) && StoreTx(db, b, backstop).Some?
    ensures WellFormed(StoreTx(db, b, backstop).value)
    ensures StoreTx(db, b, backstop).value.triggers == db.triggers
  {
    NodesReplacedFacts(db, b);
    var d := NodesReplaced(db, b);
    hide NodesReplaced;
    var es := if backstop then WithoutOrphans(b.edges, NodeIds(b.nodes)) else b.edges;
    RowsAppended(d, es, b.refs, b.file.(nodeCount := |b.nodes|));
    hide WellFormed, InsertRefs, UpsertFile, WithoutOrphans;
  }

  lemma RowsAppended(d: Db, es: seq<Edge>, refs: seq<UnresolvedRef>, f: FileRecord)
    requires WellFormed(d) && EdgesOk(d, es) && RefsOk(d, refs)
    ensures WellFormed(UpsertFile(InsertRefs(d.(edges := d.edges + es), refs), f))
    ensures UpsertFile(InsertRefs(d.(edges := d.edges + es), refs), f).triggers == d.triggers
  {
  }

  lemma {:induction false} BulkTxWellFormed(db: Db, bs: seq<ExtractionBatch>)
    requires WellFormed(db) && BulkTx(db, bs).Some?
    ensures WellFormed(BulkTx(db, bs).value)
  {
    if |bs| > 0 {
      BulkTxWellFormed(db, bs[..|bs|-1]);
      var d := BulkTx(db, bs[..|bs|-1]).value;
      if !Unchanged(d, bs[|bs|-1]) { StoreTxWellFormed(d, bs[|bs|-1], true); }
    }
  }

  lemma BulkInitWellFormed(db: Db, bs: seq<ExtractionBatch>, locks: seq<bool>)
    requires WellFormed(db)
    ensures WellFormed(BulkInitEffect(db, bs, locks).db)
  {
    var bare := db.(triggers := DropTriggers(db.triggers, locks).triggers);
    if |bs| > 0 && BulkTx(bare, bs).Some? { BulkTxWellFormed(bare, bs); }
  }

  lemma DeleteFileWellFormed(db: Db, path: string, locked: bool)
    requires WellFormed(db)
    ensures WellFormed(DeleteFileEffect(db, path, locked).db)
  {
    EmptiedWellFormed(db, path);
    hide WellFormed;
    DeleteNodesWellFormed(Emptied(db, path), path);
  }

  /** A file's references and edges are deleted before its nodes. */
  function Emptied(db: Db, path: string): Db
  {
    db.(refs := DeleteRefsOfFile(db.refs, path), edges := KeepEdges(db.edges, IdsOfFile(db, path)))
  }

  lemma EmptiedWellFormed(db: Db, path: string)
    requires WellFormed(db)
    ensures WellFormed(Emptied(db, path))
  {
    FilteredRefsWellFormed(db, NotInFile(path));
    FilterEdgesOk(db, db.edges, Detached(IdsOfFile(db, path)), db);
  }

  lemma {:induction false} ValidEdgesOk(db: Db, batch: seq<ResolvedEdge>)
    ensures EdgesOk(db, ValidEdges(batch, db.nodes.Keys))
  {
    if |batch| > 0 { ValidEdgesOk(db, batch[..|batch|-1]); }
  }

  lemma CommitWellFormed(db: Db, batch: seq<ResolvedEdge>)
    requires WellFormed(db)
    ensures WellFormed(CommitBatch(db, batch))
  {
    ValidEdgesOk(db, batch);
    FilteredRefsWellFormed(db, Untouched(batch));
  }

  // ----- a closed batch is stored whole ----------------------------------------

  /** A batch whose edges and references stay inside it never violates a foreign key,
      and the orphan backstop finds nothing to drop. */
  lemma ClosedBatchStores(db: Db, b: ExtractionBatch, backstop: bool)
    requires WellFormed(db) && Closed(b.nodes, b.edges, b.refs)
    ensures WithoutOrphans(b.edges, NodeIds(b.nodes)) == b.edges
    ensures StoreTx(db, b, backstop).Some? && StoreTx(db, b, backstop) == StoreTx(db, b, false)
  {
    NodesReplacedFacts(db, b);
    FilterAll(b.edges, Within(NodeIds(b.nodes)));
    hide NodesReplaced, WellFormed;
  }

  // ----- what storing a file does ----------------------------------------------

  /** The ids of the batch are distinct, and one that is in the table already belongs
      to the file being stored. */
  ghost predicate FreshIds(db: Db, b: ExtractionBatch)
  {
    && DistinctIds(b.nodes)
    && forall n :: n in b.nodes && n.id in db.nodes ==> db.nodes[n.id].node.filePath == b.file.path
  }

  /** The last node of the list with this id: what a keyed table is left with. */
  function LastWith(ns: seq<Node>, id: string): Option<Node>
  {
    if |ns| == 0 then None else if ns[|ns|-1].id == id then Some(ns[|ns|-1]) else LastWith(ns[..|ns|-1], id)
  }

  lemma {:induction false} LastWithDistinct(ns: seq<Node>, n: Node)
    requires DistinctIds(ns) && n in ns
    ensures LastWith(ns, n.id) == Some(n)
  {
    var init, last := ns[..|ns|-1], ns[|ns|-1];
    if n in init {
      var k :| 0 <= k < |init| && init[k] == n;
      assert ns[k].id != ns[|ns|-1].id;
      forall i, j | 0 <= i < j < |init| ensures init[i].id != init[j].id { assert ns[i].id != ns[j].id; }
      LastWithDistinct(init, n);
    }
  }

  /** A replaced row takes its edges and references with it, a new one has none. */
  lemma InsertNodeRows(db: Db, n: Node)
    requires WellFormed(db)
    ensures InsertNode(db, n).edges == KeepEdges(db.edges, {n.id}) && InsertNode(db, n).refs == KeepRefs(db.refs, {n.id})
    ensures InsertNode(db, n).nextRef == db.nextRef
    ensures forall id :: Lookup(InsertNode(db, n), id) == if id == n.id then Some(n) else Lookup(db, id)
  {
    if n.id !in db.nodes {
      FilterAll(db.edges, Detached({n.id}));
      FilterAll(db.refs, NotFrom({n.id}));
    }
  }

  lemma KeepTwice(edges: seq<Edge>, refs: seq<UnresolvedRef>, a: set<string>, b: set<string>)
    ensures KeepEdges(KeepEdges(edges, a), b) == KeepEdges(edges, a + b)
    ensures KeepRefs(KeepRefs(refs, a), b) == KeepRefs(refs, a + b)
  {
    FilterTwice(edges, Detached(a), Detached(b), Detached(a + b));
    FilterTwice(refs, NotFrom(a), NotFrom(b), NotFrom(a + b));
  }

  /** `d` is `db` after the rows of `gone` and of the ids of `ns` left it and `ns` came in. */
  ghost predicate Replaced(db: Db, gone: set<string>, ns: seq<Node>, d: Db)
  {
    && d.edges == KeepEdges(db.edges, gone + NodeIds(ns)) && d.refs == KeepRefs(db.refs, gone + NodeIds(ns))
    && d.nextRef == db.nextRef
    && forall id :: Lookup(d, id) == if id in NodeIds(ns) then LastWith(ns, id)
                                     else if id in gone then None else Lookup(db, id)
  }

  lemma ReplacedStep(db: Db, gone: set<string>, ns: seq<Node>, d: Db, n: Node)
    requires Replaced(db, gone, ns, d) && WellFormed(d)
    ensures Replaced(db, gone, ns + [n], InsertNode(d, n))
  {
    InsertNodeRows(d, n);
    var all := ns + [n];
    assert all[..|all|-1] == ns;
    assert NodeIds(all) == NodeIds(ns) + {n.id};
    KeepTwice(db.edges, db.refs, gone + NodeIds(ns), {n.id});
    assert gone + NodeIds(ns) + {n.id} == gone + NodeIds(all);
    hide WellFormed, InsertNode, KeepEdges, KeepRefs, NodeIds, Lookup;
  }

  lemma {:induction false} InsertNodesRows(db: Db, gone: set<string>, start: Db, ns: seq<Node>)
    requires WellFormed(start) && Replaced(db, gone, [], start)
    ensures Replaced(db, gone, ns, InsertNodes(start, ns))
  {
    hide Replaced, WellFormed, InsertNode;
    if |ns| == 0 {
      assert ns == [];
    } else {
      var init, n := ns[..|ns|-1], ns[|ns|-1];
      InsertNodesRows(db, gone, start, init);
      InsertNodesWellFormed(start, init);
      ReplacedStep(db, gone, init, InsertNodes(start, init), n);
      assert ns == init + [n];
    }
  }

  /** A successful store replaces exactly the file. Its nodes are the last ones of each id
      in the batch, every other node is as before; the edges are the old ones that touch
      neither an old node of the file nor an id of the batch, followed by the batch's; the
      references likewise, numbered on; the record carries the new node count. */
  lemma StoreReplacesFile(db: Db, b: ExtractionBatch)
    requires WellFormed(db) && StoreTx(db, b, false).Some?
    ensures var d := StoreTx(db, b, false).value;
            var gone := IdsOfFile(db, b.file.path) + NodeIds(b.nodes);
            && (forall id :: Lookup(d, id) == if id in NodeIds(b.nodes) then LastWith(b.nodes, id)
                                              else if id in gone then None else Lookup(db, id))
            && d.edges == KeepEdges(db.edges, gone) + b.edges
            && d.refs == KeepRefs(KeepRefs(db.refs, {b.file.path}), gone) + Numbered(b.refs, db.nextRef)
            && d.nextRef == db.nextRef + |b.refs|
            && d.files == db.files[b.file.path := b.file.(nodeCount := |b.nodes|)]
  {
    var d := NodesReplaced(db, b);
    NodesReplacedFacts(db, b);
    NodesReplacedRows(db, b);
    hide NodesReplaced, WellFormed, KeepEdges, KeepRefs, IdsOfFile, NodeIds;
    assert forall id :: Lookup(StoreTx(db, b, false).value, id) == Lookup(d, id);
  }

  lemma NodesReplacedRows(db: Db, b: ExtractionBatch)
    requires WellFormed(db)
    ensures Replaced(db.(refs := KeepRefs(db.refs, {b.file.path})), IdsOfFile(db, b.file.path), b.nodes, NodesReplaced(db, b))
  {
    var path := b.file.path;
    var gone := IdsOfFile(db, path);
    var d := DeleteNodesByFile(db, path);
    DeleteNodesWellFormed(db, path);
    FilteredRefsWellFormed(d, NotFrom({path}));
    var start := d.(refs := KeepRefs(d.refs, {path}));
    FileEmptied(db, path);
    hide Replaced, WellFormed, InsertNodes;
    InsertNodesRows(db.(refs := KeepRefs(db.refs, {path})), gone, start, b.nodes);
  }

  lemma FileEmptied(db: Db, path: string)
    ensures var d := DeleteNodesByFile(db, path);
            Replaced(db.(refs := KeepRefs(db.refs, {path})), IdsOfFile(db, path), [],
                     d.(refs := KeepRefs(d.refs, {path})))
  {
    var gone := IdsOfFile(db, path);
    KeepTwice(db.edges, db.refs, gone, {path});
    KeepTwice(db.edges, db.refs, {path}, gone);
    assert gone + {path} == {path} + gone && gone + NodeIds([]) == gone;
    hide IdsOfFile, KeepEdges, KeepRefs;
  }

  // ----- idempotence -------------------------------------------------------------

  /** Once a batch is stored, storing it again changes nothing and succeeds even while
      the database is locked; a store that failed changed nothing either. */
  lemma StoringTwiceIsStoringOnce(db: Db, b: ExtractionBatch, locked: bool, lockedAgain: bool)
    ensures var once := StoreEffect(db, b, locked);
            if once.outcome == Done then StoreEffect(once.db, b, lockedAgain) == once else once.db == db
  {
  }

  ghost predicate DistinctPaths(bs: seq<ExtractionBatch>)
  {
    forall i, j :: 0 <= i < j < |bs| ==> bs[i].file.path != bs[j].file.path
  }

  lemma {:induction false} BulkRecordsAll(db: Db, bs: seq<ExtractionBatch>)
    requires DistinctPaths(bs) && BulkTx(db, bs).Some?
    ensures forall i :: 0 <= i < |bs| ==> Unchanged(BulkTx(db, bs).value, bs[i])
  {
    if |bs| > 0 {
      var init, b := bs[..|bs|-1], bs[|bs|-1];
      BulkRecordsAll(db, init);
      var d := BulkTx(db, init).value;
      if !Unchanged(d, b) {
        var cleared := DeleteNodesByFile(d, b.file.path);
        InsertNodesKeys(cleared.(refs := KeepRefs(cleared.refs, {b.file.path})), b.nodes);
        var after := BulkTx(db, bs).value;
        assert after.files == d.files[b.file.path := b.file.(nodeCount := |b.nodes|)];
        forall i | 0 <= i < |init| ensures Unchanged(after, bs[i]) { assert Unchanged(d, init[i]); }
      } else {
        forall i | 0 <= i < |init| ensures Unchanged(d, bs[i]) { assert Unchanged(d, init[i]); }
      }
    }
  }

  lemma {:induction false} BulkSkipsAll(db: Db, bs: seq<ExtractionBatch>)
    requires forall i :: 0 <= i < |bs| ==> Unchanged(db, bs[i])
    ensures BulkTx(db, bs) == Some(db)
  {
    if |bs| > 0 {
      var init := bs[..|bs|-1];
      forall i | 0 <= i < |init| ensures Unchanged(db, init[i]) { assert init[i] == bs[i]; }
      BulkSkipsAll(db, init);
      assert Unchanged(db, bs[|bs|-1]);
    }
  }

  lemma DoneEffect(db: Db, bs: seq<ExtractionBatch>, locks: seq<bool>)
    requires |bs| > 0 && BulkInitEffect(db, bs, locks).outcome == Done
    ensures var d := BulkTx(db.(triggers := {}), bs);
            d.Some? && BulkInitEffect(db, bs, locks).db == d.value.(fts := FtsOf(d.value.nodes), triggers := ALL_TRIGGERS)
  {
    var dropped := DropTriggers(db.triggers, locks);
    AllDropped(db.triggers, locks);
    assert db.(triggers := dropped.triggers) == db.(triggers := {});
    BulkTxWithoutTriggers(db.(triggers := {}), bs);
    AllCreated({}, AfterWrite(AfterWrite(dropped.locks)));
    hide DropTriggers, CreateTriggers, FtsOf;
  }

  /** A bulk load that skips every file changes nothing but the triggers. */
  lemma SkippedEffect(db: Db, bs: seq<ExtractionBatch>, locks: seq<bool>)
    requires |bs| > 0 && BulkTx(db.(triggers := {}), bs) == Some(db.(triggers := {})) && FtsSync(db)
    ensures var e := BulkInitEffect(db, bs, locks);
            e.db == db.(triggers := e.db.triggers) && e.outcome != ForeignKeyViolation
    ensures BulkInitEffect(db, bs, locks).outcome == Done ==> BulkInitEffect(db, bs, locks).db.triggers == ALL_TRIGGERS
  {
    var dropped := DropTriggers(db.triggers, locks);
    AllDropped(db.triggers, locks);
    if dropped.ok {
      assert db.(triggers := dropped.triggers) == db.(triggers := {});
      SkippedRebuild(db, AfterWrite(dropped.locks));
    }
    hide DropTriggers, Rebuilt, FtsOf;
  }

  lemma SkippedRebuild(db: Db, locks: seq<bool>)
    requires FtsSync(db)
    ensures var e := Rebuilt(db.(triggers := {}), locks);
            && e.db == db.(triggers := e.db.triggers) && e.outcome != ForeignKeyViolation
            && (e.outcome == Done ==> e.db.triggers == ALL_TRIGGERS)
  {
    AllCreated({}, AfterWrite(locks));
    hide CreateTriggers, FtsOf;
  }

  /** A second bulk load of the same files changes nothing but, when it is refused on its
      way, the triggers. */
  lemma BulkTwiceIsBulkOnce(db: Db, bs: seq<ExtractionBatch>, locks: seq<bool>, locksAgain: seq<bool>)
    requires |bs| > 0 && DistinctPaths(bs) && BulkInitEffect(db, bs, locks).outcome == Done
    ensures var once := BulkInitEffect(db, bs, locks).db;
            var twice := BulkInitEffect(once, bs, locksAgain);
            && twice.db == once.(triggers := twice.db.triggers)
            && twice.outcome != ForeignKeyViolation && (twice.outcome == Done ==> twice.db == once)
  {
    var once := BulkInitEffect(db, bs, locks).db;
    DoneEffect(db, bs, locks);
    var bare := db.(triggers := {});
    var d := BulkTx(bare, bs).value;
    BulkRecordsAll(bare, bs);
    var again := once.(triggers := {});
    forall i | 0 <= i < |bs| ensures Unchanged(again, bs[i]) { assert Unchanged(d, bs[i]); }
    BulkSkipsAll(again, bs);
    hide BulkInitEffect, FtsOf, BulkTx, Unchanged;
    SkippedEffect(once, bs, locksAgain);
  }

  // ----- the full-text index -------------------------------------------------------

  /** An index entry no row of the table accounts for. */
  ghost predicate HasStale(db: Db)
  {
    exists p :: p in db.fts && p !in FtsOf(db.nodes)
  }

  lemma DeleteKeepsSync(db: Db, path: string)
    requires WellFormed(db) && FtsSync(db) && AfterDelete in db.triggers
    ensures FtsSync(DeleteNodesByFile(db, path))
  {
    var gone := IdsOfFile(db, path);
    var d := DeleteNodesByFile(db, path);
    var taken := set id | id in gone :: (db.nodes[id].rowid, Doc(db.nodes[id].node));
    forall p ensures p in d.fts <==> p in FtsOf(d.nodes) {
      if p in FtsOf(d.nodes) {
        var id :| id in d.nodes && p == (d.nodes[id].rowid, Doc(d.nodes[id].node));
        assert id in db.nodes && id !in gone;
      }
      if p in d.fts {
        var id :| id in db.nodes && p == (db.nodes[id].rowid, Doc(db.nodes[id].node));
        assert id !in gone;
        assert d.nodes[id] == db.nodes[id];
      }
    }
  }

  lemma InsertNewKeepsSync(db: Db, n: Node)
    requires FtsSync(db) && AfterInsert in db.triggers && n.id !in db.nodes
    ensures FtsSync(InsertNode(db, n))
  {
    var d := InsertNode(db, n);
    forall p ensures p in d.fts <==> p in FtsOf(d.nodes) {
      if p in FtsOf(db.nodes) {
        var id :| id in db.nodes && p == (db.nodes[id].rowid, Doc(db.nodes[id].node));
        assert d.nodes[id] == db.nodes[id];
      }
      assert d.nodes[n.id] == Row(db.nextRowid, n);
    }
  }

  lemma ReplaceLeavesStale(db: Db, n: Node)
    requires WellFormed(db) && FtsSync(db) && AfterInsert in db.triggers && n.id in db.nodes
    ensures HasStale(InsertNode(db, n))
  {
    var d := InsertNode(db, n);
    var p := (db.nodes[n.id].rowid, Doc(db.nodes[n.id].node));
    assert p in d.fts;
  }

  ghost predicate AllNew(db: Db, ns: seq<Node>)
  {
    DistinctIds(ns) && forall n :: n in ns ==> n.id !in db.nodes
  }

  lemma AllNewAppend(db: Db, ns: seq<Node>, n: Node)
    ensures AllNew(db, ns + [n]) <==> AllNew(db, ns) && n.id !in db.nodes && n.id !in NodeIds(ns)
  {
    var all := ns + [n];
    assert forall m :: m in all <==> m in ns || m == n;
    if AllNew(db, all) {
      forall i, j | 0 <= i < j < |ns| ensures ns[i].id != ns[j].id { assert all[i].id != all[j].id; }
      forall m | m in ns ensures m.id != n.id {
        var k :| 0 <= k < |ns| && ns[k] == m;
        assert all[k].id != all[|ns|].id;
      }
    }
    if AllNew(db, ns) && n.id !in db.nodes && n.id !in NodeIds(ns) {
      forall i, j | 0 <= i < j < |all| ensures all[i].id != all[j].id {
        if j < |ns| { assert ns[i].id != ns[j].id; } else { assert ns[i] in ns; }
      }
    }
  }

  lemma {:induction false} InsertNodesSync(db: Db, ns: seq<Node>)
    requires WellFormed(db) && FtsSync(db) && AfterInsert in db.triggers
    ensures AllNew(db, ns) ==> FtsSync(InsertNodes(db, ns))
    ensures !AllNew(db, ns) ==> HasStale(InsertNodes(db, ns))
  {
    hide WellFormed, FtsSync, HasStale, AllNew, InsertNode;
    if |ns| == 0 {
      NothingIsNew(db);
      assert ns == [];
    } else {
      var init, n := ns[..|ns|-1], ns[|ns|-1];
      assert ns == init + [n];
      InsertNodesSync(db, init);
      InsertNodesWellFormed(db, init);
      InsertNodesKeys(db, init);
      AllNewAppend(db, init, n);
      InsertSyncStep(InsertNodes(db, init), n);
    }
  }

  lemma NothingIsNew(db: Db)
    ensures AllNew(db, [])
  {
  }

  lemma InsertSyncStep(d: Db, n: Node)
    requires WellFormed(d) && AfterInsert in d.triggers
    ensures HasStale(d) ==> HasStale(InsertNode(d, n))
    ensures FtsSync(d) && n.id in d.nodes ==> HasStale(InsertNode(d, n))
    ensures FtsSync(d) && n.id !in d.nodes ==> FtsSync(InsertNode(d, n))
  {
    hide WellFormed;
    if HasStale(d) { StaleStays(d, n); }
    if FtsSync(d) {
      if n.id in d.nodes { ReplaceLeavesStale(d, n); } else { InsertNewKeepsSync(d, n); }
    }
    hide FtsSync, HasStale, InsertNode;
  }

  lemma StaleStays(d: Db, n: Node)
    requires WellFormed(d) && HasStale(d) && AfterInsert in d.triggers
    ensures HasStale(InsertNode(d, n))
  {
    var p :| p in d.fts && p !in FtsOf(d.nodes);
    assert p.0 < d.nextRowid;
    assert p in InsertNode(d, n).fts;
  }

  /** With the triggers installed and the index in step, a store leaves it in step if
      and only if the ids of the batch are fresh. The other branch is real: two
      declarations of one kind and name on one line get the same id. */
  lemma StoreKeepsSyncIffFresh(db: Db, b: ExtractionBatch)
    requires WellFormed(db) && Indexed(db) && StoreTx(db, b, false).Some?
    ensures FtsSync(StoreTx(db, b, false).value) <==> FreshIds(db, b)
  {
    var d := DeleteNodesByFile(db, b.file.path);
    DeleteKeepsSync(db, b.file.path);
    DeleteNodesWellFormed(db, b.file.path);
    FilteredRefsWellFormed(d, NotFrom({b.file.path}));
    var d' := d.(refs := KeepRefs(d.refs, {b.file.path}));
    InsertNodesSync(d', b.nodes);
    assert AllNew(d', b.nodes) <==> FreshIds(db, b);
    var after := StoreTx(db, b, false).value;
    assert after.nodes == NodesReplaced(db, b).nodes && after.fts == NodesReplaced(db, b).fts;
    if HasStale(NodesReplaced(db, b)) {
      var p :| p in after.fts && p !in FtsOf(after.nodes);
      assert !FtsSync(after);
    }
  }

  /** The smallest batch that leaves a stale entry behind. */
  lemma DuplicateIdLeavesStaleEntry(n: Node)
    requires n.filePath == "a.js"
    ensures var empty := EmptyDb();
            var b := ExtractionBatch(FileRecord("a.js", "h", 2), [n, n], [], []);
            FtsSync(empty) && StoreTx(empty, b, false).Some? && !FtsSync(StoreTx(empty, b, false).value)
  {
    var empty := EmptyDb();
    var b := ExtractionBatch(FileRecord("a.js", "h", 2), [n, n], [], []);
    assert FtsOf(empty.nodes) == {};
    assert WellFormed(empty);
    ClosedBatchStores(empty, b, false);
    assert b.nodes[0].id == b.nodes[1].id;
    StoreKeepsSyncIffFresh(empty, b);
  }

  ghost predicate Indexed(db: Db) { db.triggers == ALL_TRIGGERS && FtsSync(db) }

  // ----- a bulk load refused on its way ------------------------------------------------

  lemma AllCreated(triggers: set<Trigger>, locks: seq<bool>)
    ensures CreateTriggers(triggers, locks).ok ==> CreateTriggers(triggers, locks).triggers == ALL_TRIGGERS
  {
    forall t | t in CreateTriggers(triggers, locks).triggers ensures t in ALL_TRIGGERS { AllThree(t); }
  }

  lemma {:induction false} BulkTxWithoutTriggers(db: Db, bs: seq<ExtractionBatch>)
    ensures BulkTx(db, bs).Some? ==> BulkTx(db, bs).value.triggers == db.triggers
  {
    if |bs| > 0 {
      BulkTxWithoutTriggers(db, bs[..|bs|-1]);
      var prev := BulkTx(db, bs[..|bs|-1]);
      if prev.Some? {
        var b := bs[|bs|-1];
        var d := DeleteNodesByFile(prev.value, b.file.path);
        InsertNodesKeys(d.(refs := KeepRefs(d.refs, {b.file.path})), b.nodes);
      }
    }
  }

  /** None of the next `writes` writes is refused. */
  predicate NoneRefused(locks: seq<bool>, writes: nat)
  {
    forall i :: 0 <= i < writes && i < |locks| ==> !locks[i]
  }

  function AfterWrites(locks: seq<bool>, n: nat): seq<bool> { if |locks| <= n then [] else locks[n..] }

  lemma DropsFromAll(locks: seq<bool>)
    ensures var d := DropTriggers(ALL_TRIGGERS, locks);
            && (d.ok <==> NoneRefused(locks, 3)) && (d.ok ==> d.locks == AfterWrites(locks, 3))
            && (!d.ok ==> (d.triggers == ALL_TRIGGERS <==> NextLocked(locks)))
  {
    NextThree(locks);
    hide NoneRefused;
  }

  lemma CreatesFromNone(locks: seq<bool>)
    ensures CreateTriggers({}, locks).triggers == ALL_TRIGGERS <==> NoneRefused(locks, 3)
    ensures CreateTriggers({}, locks).ok <==> NoneRefused(locks, 3)
  {
    NextThree(locks);
    hide NoneRefused;
    AllCreated({}, locks);
  }

  lemma NextThree(locks: seq<bool>)
    ensures NoneRefused(locks, 3)
            <==> !NextLocked(locks) && !NextLocked(AfterWrite(locks)) && !NextLocked(AfterWrite(AfterWrite(locks)))
  {
    NoneRefusedSplits(locks, 1, 2);
    NoneRefusedSplits(AfterWrite(locks), 1, 1);
  }

  lemma NoneRefusedSplits(locks: seq<bool>, n: nat, m: nat)
    ensures NoneRefused(locks, n + m) <==> NoneRefused(locks, n) && NoneRefused(AfterWrites(locks, n), m)
    ensures NoneRefused(locks, 1) <==> !NextLocked(locks)
    ensures AfterWrites(locks, 1) == AfterWrite(locks)
    ensures AfterWrites(AfterWrites(locks, n), m) == AfterWrites(locks, n + m)
  {
    if NoneRefused(locks, n) && NoneRefused(AfterWrites(locks, n), m) {
      forall i | 0 <= i < n + m && i < |locks| ensures !locks[i] {
        if i >= n { assert !AfterWrites(locks, n)[i - n]; }
      }
    }
  }

  /** The writes of a bulk load over a store with all triggers: three drops, BEGIN, the
      index rebuild if the transaction commits, three creates. */
  function WritesOfBulkInit(db: Db, bs: seq<ExtractionBatch>): nat
  {
    if BulkTx(db.(triggers := {}), bs).Some? then 8 else 7
  }

  predicate Committed(db: Db, bs: seq<ExtractionBatch>, locks: seq<bool>)
  {
    var dropped := DropTriggers(db.triggers, locks);
    |bs| > 0 && dropped.ok && !NextLocked(dropped.locks) && BulkTx(db.(triggers := {}), bs).Some?
  }

  /** A bulk load that succeeds puts the index in step and installs all triggers, whatever
      they were before; one that does not commit changes nothing but the triggers. Over an
      indexed store the index is kept if and only if the very first write is refused or
      none is: any other refusal leaves triggers missing. */
  lemma BulkInitIndex(db: Db, bs: seq<ExtractionBatch>, locks: seq<bool>)
    requires |bs| > 0
    ensures var e := BulkInitEffect(db, bs, locks);
            && (e.outcome == Done ==> Committed(db, bs, locks) && Indexed(e.db))
            && (!Committed(db, bs, locks) ==> e.db == db.(triggers := e.db.triggers))
            && (db.triggers == ALL_TRIGGERS ==>
                  (e.db.triggers == ALL_TRIGGERS <==> NextLocked(locks) || NoneRefused(locks, WritesOfBulkInit(db, bs))))
            && (Indexed(db) ==> (Indexed(e.db) <==> e.db.triggers == ALL_TRIGGERS))
  {
    var dropped := DropTriggers(db.triggers, locks);
    AllDropped(db.triggers, locks);
    if dropped.ok && !NextLocked(dropped.locks) {
      var bare := db.(triggers := dropped.triggers);
      assert bare == db.(triggers := {});
      BulkTxWithoutTriggers(bare, bs);
      RebuiltIndex(BulkTx(bare, bs), AfterWrite(dropped.locks));
    }
    if db.triggers == ALL_TRIGGERS { BulkInitTriggers(db, bs, locks); }
    hide DropTriggers, CreateTriggers, BulkTx, Rebuilt, FtsOf, WritesOfBulkInit;
  }

  lemma RebuiltIndex(d: Option<Db>, locks: seq<bool>)
    ensures d.Some? && Rebuilt(d.value, locks).outcome == Done ==> Indexed(Rebuilt(d.value, locks).db)
    ensures d.Some? && d.value.triggers == {} && Rebuilt(d.value, locks).db.triggers == ALL_TRIGGERS
            ==> FtsSync(Rebuilt(d.value, locks).db)
    ensures d.Some? ==> Rebuilt(d.value, locks).outcome != ForeignKeyViolation
  {
    if d.Some? { AllCreated(d.value.triggers, AfterWrite(locks)); }
  }

  lemma BulkInitTriggers(db: Db, bs: seq<ExtractionBatch>, locks: seq<bool>)
    requires |bs| > 0 && db.triggers == ALL_TRIGGERS
    ensures BulkInitEffect(db, bs, locks).db.triggers == ALL_TRIGGERS
            <==> NextLocked(locks) || NoneRefused(locks, WritesOfBulkInit(db, bs))
  {
    var dropped := DropTriggers(db.triggers, locks);
    DropsFromAll(locks);
    NoneRefusedSplits(locks, 3, 4);
    NoneRefusedSplits(locks, 3, 5);
    if dropped.ok {
      AllDropped(db.triggers, locks);
      var bare, rest := db.(triggers := dropped.triggers), dropped.locks;
      assert bare == db.(triggers := {});
      BulkTxWithoutTriggers(bare, bs);
      NoneRefusedSplits(rest, 1, 3);
      NoneRefusedSplits(rest, 1, 4);
      NoneRefusedSplits(AfterWrite(rest), 1, 3);
      CreatesFromNone(AfterWrite(rest));
      CreatesFromNone(AfterWrite(AfterWrite(rest)));
    }
    hide DropTriggers, CreateTriggers, BulkTx, FtsOf;
  }

  lemma DeleteFileKeepsSync(db: Db, path: string, locked: bool)
    requires WellFormed(db) && Indexed(db)
    ensures Indexed(DeleteFileEffect(db, path, locked).db)
  {
    if !locked {
      EmptiedWellFormed(db, path);
      DeleteKeepsSync(Emptied(db, path), path);
    }
  }

  // ----- runs ------------------------------------------------------------------------

  datatype Op =
    | StoreOp(batch: ExtractionBatch) | BulkOp(batches: seq<ExtractionBatch>) | DeleteOp(path: string)
    | CommitOp(resolved: seq<ResolvedEdge>) | GetOp(id: string) | EvictOp(id: string)

  /** The fields of a `StorageImpl`. */
  datatype Fields = Fields(db: Db, cache: map<string, Node>, locks: seq<bool>)

  /** The step each method of `StorageImpl` takes; eviction is the cache's own. */
  function Exec(s: Fields, op: Op): Fields
  {
    var locked := NextLocked(s.locks);
    match op
    case StoreOp(b) =>
      var e := StoreEffect(s.db, b, locked);
      if Unchanged(s.db, b) then s
      else Fields(e.db, if e.outcome == Done then map[] else s.cache, AfterWrite(s.locks))
    case BulkOp(bs) =>
      var e := BulkInitEffect(s.db, bs, s.locks);
      Fields(e.db, if e.outcome == Done && |bs| > 0 then map[] else s.cache, e.locks)
    case DeleteOp(path) =>
      var e := DeleteFileEffect(s.db, path, locked);
      Fields(e.db, if e.outcome == Done then map[] else s.cache, AfterWrite(s.locks))
    case CommitOp(batch) =>
      if |batch| == 0 then s
      else Fields(if locked then s.db else CommitBatch(s.db, batch), s.cache, AfterWrite(s.locks))
    case GetOp(id) => s.(cache := AfterGet(s.db, s.cache, id))
    case EvictOp(id) => s.(cache := s.cache - {id})
  }

  function ExecAll(s: Fields, ops: seq<Op>): Fields
  {
    if |ops| == 0 then s else Exec(ExecAll(s, ops[..|ops|-1]), ops[|ops|-1])
  }

  /** Runs operations on a store. Entries also leave the cache on their own. */
  method RunOps(store: StorageImpl, ops: seq<Op>)
    modifies store
    ensures Fields(store.db, store.nodeCache, store.locks)
            == ExecAll(Fields(old(store.db), old(store.nodeCache), old(store.locks)), ops)
  {
    ghost var start := Fields(store.db, store.nodeCache, store.locks);
    for i := 0 to |ops|
      invariant Fields(store.db, store.nodeCache, store.locks) == ExecAll(start, ops[..i])
    {
      assert ops[..i+1][..i] == ops[..i];
      RunOp(store, ops[i]);
    }
    assert ops[..|ops|] == ops;
  }

  method RunOp(store: StorageImpl, op: Op)
    modifies store
    ensures Fields(store.db, store.nodeCache, store.locks)
            == Exec(Fields(old(store.db), old(store.nodeCache), old(store.locks)), op)
  {
    match op
    case StoreOp(b) => var _ := store.StoreExtractionBatch(b);
    case BulkOp(bs) => var _, _ := store.StoreExtractionBatchBulkInit(bs);
    case DeleteOp(path) => var _ := store.DeleteFile(path);
    case CommitOp(batch) => var _ := store.CommitResolvedBatch(batch);
    case GetOp(id) => var _ := store.GetNodeById(id);
    case EvictOp(id) => store.nodeCache := store.nodeCache - {id};
  }

  ghost predicate Good(s: Fields)
  {
    WellFormed(s.db) && CacheCoherent(s.db, s.cache)
  }

  /** A store starts well formed, coherent and indexed. */
  lemma EmptyStoreIsGood(locks: seq<bool>)
    ensures Good(Fields(EmptyDb(), map[], locks)) && Indexed(EmptyDb())
  {
    assert FtsOf(EmptyDb().nodes) == {};
  }

  /** A bulk load that commits and is refused a write after that: it reports failure, and
      does not clear the cache. */
  predicate Interrupted(s: Fields, op: Op)
  {
    op.BulkOp? && Committed(s.db, op.batches, s.locks) && BulkInitEffect(s.db, op.batches, s.locks).outcome == Busy
  }

  lemma StepKeepsWellFormed(s: Fields, op: Op)
    requires WellFormed(s.db)
    ensures WellFormed(Exec(s, op).db)
  {
    hide WellFormed, StoreTx, BulkTx;
    match op
    case StoreOp(b) =>
      if StoreEffect(s.db, b, NextLocked(s.locks)).db != s.db { StoreTxWellFormed(s.db, b, false); }
    case BulkOp(bs) => BulkInitWellFormed(s.db, bs, s.locks);
    case DeleteOp(path) => DeleteFileWellFormed(s.db, path, NextLocked(s.locks));
    case CommitOp(batch) => CommitWellFormed(s.db, batch);
    case GetOp(id) =>
    case EvictOp(id) =>
  }

  // ----- when a cached lookup is right -------------------------------------------------

  /** What a bulk load makes of the row of one id and of the file records, batch by batch:
      the hash gate, then the last node of that id, then the rows of the file. */
  function RowAfter(files: map<string, FileRecord>, row: Option<Node>, id: string, bs: seq<ExtractionBatch>)
    : (map<string, FileRecord>, Option<Node>)
  {
    if |bs| == 0 then (files, row)
    else
      var (f, r) := RowAfter(files, row, id, bs[..|bs|-1]);
      var b := bs[|bs|-1];
      if IsRecorded(f, b) then (f, r)
      else (f[b.file.path := b.file.(nodeCount := |b.nodes|)],
            if id in NodeIds(b.nodes) then LastWith(b.nodes, id)
            else if r.Some? && r.value.filePath == b.file.path then None
            else r)
  }

  lemma RowAfterStore(db: Db, b: ExtractionBatch, id: string)
    requires WellFormed(db) && StoreTx(db, b, true).Some?
    ensures var d := StoreTx(db, b, true).value;
            && d.files == db.files[b.file.path := b.file.(nodeCount := |b.nodes|)]
            && Lookup(d, id) == if id in NodeIds(b.nodes) then LastWith(b.nodes, id)
                                else if id in IdsOfFile(db, b.file.path) then None else Lookup(db, id)
  {
    NodesReplacedRows(db, b);
    NodesReplacedFacts(db, b);
    hide NodesReplaced, WellFormed, KeepEdges, KeepRefs, IdsOfFile, NodeIds;
    assert Lookup(StoreTx(db, b, true).value, id) == Lookup(NodesReplaced(db, b), id);
  }

  /** The transaction of a bulk load does to each row what the fold says. */
  lemma {:induction false} RowAfterLoad(db: Db, bs: seq<ExtractionBatch>, id: string)
    requires WellFormed(db) && BulkTx(db, bs).Some?
    ensures RowAfter(db.files, Lookup(db, id), id, bs) == (BulkTx(db, bs).value.files, Lookup(BulkTx(db, bs).value, id))
  {
    if |bs| > 0 {
      var init, b := bs[..|bs|-1], bs[|bs|-1];
      RowAfterLoad(db, init, id);
      BulkTxWellFormed(db, init);
      var d := BulkTx(db, init).value;
      if !Unchanged(d, b) { RowAfterStore(d, b, id); }
      hide WellFormed, StoreTx, LastWith, NodeIds;
    }
  }

  /** The table is as the transaction left it, and the cache as it was. */
  lemma InterruptedEffect(s: Fields, bs: seq<ExtractionBatch>, id: string)
    requires Interrupted(s, BulkOp(bs))
    ensures var d := BulkTx(s.db.(triggers := {}), bs);
            d.Some? && Lookup(Exec(s, BulkOp(bs)).db, id) == Lookup(d.value, id)
    ensures Exec(s, BulkOp(bs)).cache == s.cache
  {
    AllDropped(s.db.triggers, s.locks);
    var dropped := DropTriggers(s.db.triggers, s.locks);
    assert s.db.(triggers := dropped.triggers) == s.db.(triggers := {});
    hide DropTriggers, CreateTriggers, BulkTx, FtsOf;
  }

  lemma RowAfterInterrupted(s: Fields, bs: seq<ExtractionBatch>, id: string)
    requires WellFormed(s.db) && Interrupted(s, BulkOp(bs))
    ensures Lookup(Exec(s, BulkOp(bs)).db, id) == RowAfter(s.db.files, Lookup(s.db, id), id, bs).1
  {
    InterruptedEffect(s, bs, id);
    WithoutTriggers(s.db);
    hide WellFormed, Interrupted, Exec, BulkTx;
    RowAfterLoad(s.db.(triggers := {}), bs, id);
  }

  /** An interrupted load leaves the cache right if and only if it leaves every cached row
      as it is, which the cache, the file records and the batches tell beforehand. */
  lemma InterruptedLoadKeepsCacheIff(s: Fields, bs: seq<ExtractionBatch>)
    requires Good(s) && Interrupted(s, BulkOp(bs))
    ensures CacheCoherent(Exec(s, BulkOp(bs)).db, Exec(s, BulkOp(bs)).cache)
            <==> forall id :: id in s.cache ==> RowAfter(s.db.files, Some(s.cache[id]), id, bs).1 == Some(s.cache[id])
  {
    InterruptedEffect(s, bs, "");
    forall id ensures Lookup(Exec(s, BulkOp(bs)).db, id) == RowAfter(s.db.files, Lookup(s.db, id), id, bs).1 {
      RowAfterInterrupted(s, bs, id);
    }
    hide WellFormed, Interrupted, Exec, RowAfter;
  }

  /** The cached entry of the id, if there is one, is its row. */
  predicate Fresh(s: Fields, id: string)
  {
    id in s.cache ==> Lookup(s.db, id) == Some(s.cache[id])
  }

  /** Only an interrupted load can part a cached entry from its row, or bring them together
      again; everything else leaves both or drops the entry. */
  predicate FreshAfter(s: Fields, op: Op, id: string, was: bool)
  {
    if id !in Exec(s, op).cache then true
    else if Interrupted(s, op) then
      id in s.cache && RowAfter(s.db.files, Lookup(s.db, id), id, op.batches).1 == Some(s.cache[id])
    else was
  }

  predicate FreshRun(s: Fields, ops: seq<Op>, id: string)
  {
    if |ops| == 0 then Fresh(s, id)
    else FreshAfter(ExecAll(s, ops[..|ops|-1]), ops[|ops|-1], id, FreshRun(s, ops[..|ops|-1], id))
  }

  lemma StepFreshIff(s: Fields, op: Op, id: string)
    requires WellFormed(s.db)
    ensures Fresh(Exec(s, op), id) <==> FreshAfter(s, op, id, Fresh(s, id))
  {
    if Interrupted(s, op) {
      InterruptedEffect(s, op.batches, id);
      RowAfterInterrupted(s, op.batches, id);
      hide WellFormed, Interrupted, Exec, RowAfter;
    } else {
      hide WellFormed, StoreTx, BulkTx, DeleteNodesByFile, RowAfter;
      if op.BulkOp? && |op.batches| > 0 { BulkInitIndex(s.db, op.batches, s.locks); }
    }
  }

  /** In every reachable state, with operations refused or rolled back at any point, no
      foreign key dangles, and a cached lookup answers what the table holds if and only if
      no interrupted load parted them since the entry was made. */
  lemma {:induction false} EveryRunIsGood(s: Fields, ops: seq<Op>)
    requires WellFormed(s.db)
    ensures WellFormed(ExecAll(s, ops).db)
    ensures forall id :: CachedGet(ExecAll(s, ops).db, ExecAll(s, ops).cache, id) == Lookup(ExecAll(s, ops).db, id)
                         <==> FreshRun(s, ops, id)
  {
    if |ops| > 0 {
      var before, op := ExecAll(s, ops[..|ops|-1]), ops[|ops|-1];
      EveryRunIsGood(s, ops[..|ops|-1]);
      StepKeepsWellFormed(before, op);
      forall id ensures Fresh(Exec(before, op), id) <==> FreshRun(s, ops, id) {
        assert Fresh(before, id) <==> FreshRun(s, ops[..|ops|-1], id);
        StepFreshIff(before, op, id);
        hide WellFormed, Exec, FreshAfter;
      }
      hide WellFormed, Exec;
    }
  }

  /** So without interrupted loads a coherent cache stays coherent. */
  lemma {:induction false} UninterruptedRunsKeepCache(s: Fields, ops: seq<Op>, id: string)
    requires Fresh(s, id) && forall k :: 0 <= k < |ops| ==> !Interrupted(ExecAll(s, ops[..k]), ops[k])
    ensures FreshRun(s, ops, id)
  {
    if |ops| > 0 {
      var init := ops[..|ops|-1];
      forall k | 0 <= k < |init| ensures !Interrupted(ExecAll(s, init[..k]), init[k]) {
        assert init[..k] == ops[..k] && init[k] == ops[k];
      }
      UninterruptedRunsKeepCache(s, init, id);
      assert !Interrupted(ExecAll(s, ops[..|ops|-1]), ops[|ops|-1]);
    }
  }

  /** The other case is real: after a file was loaded again, with the rebuild refused, a
      lookup still answers the old row. */
  lemma InterruptedLoadLeavesOldRow(n: Node, m: Node)
    requires n.filePath == m.filePath == "a.js" && n.id == m.id && n != m
    ensures var loaded := ExecAll(Fields(EmptyDb(), map[], []), [StoreOp(OneNode("1", n)), GetOp(n.id)]);
            var again := Exec(loaded.(locks := [false, false, false, false, true]), BulkOp([OneNode("2", m)]));
            && CachedGet(again.db, again.cache, n.id) == Some(n) && Lookup(again.db, n.id) == Some(m)
            && again.db.triggers == {}
  {
    var first, second := OneNode("1", n), OneNode("2", m);
    EmptyStoreIsGood([]);
    hide StoreTx, BulkInitEffect, WellFormed, FreshIds, ExecAll;
    OneNodeStored(EmptyDb(), first, n, false);
    GetAfterStore(first, n);
    var db := StoreTx(EmptyDb(), first, false).value;
    var bare := db.(triggers := {});
    WithoutTriggers(db);
    OneNodeStored(bare, second, m, true);
    RefusedRebuild(db, second);
  }

  lemma WithoutTriggers(db: Db)
    requires WellFormed(db)
    ensures WellFormed(db.(triggers := {}))
  {
  }

  lemma OneNodeStored(db: Db, b: ExtractionBatch, n: Node, backstop: bool)
    requires WellFormed(db) && b == ExtractionBatch(b.file, [n], [], []) && n.filePath == b.file.path
    requires forall id :: id in db.nodes ==> db.nodes[id].node.filePath == b.file.path
    ensures StoreTx(db, b, backstop).Some? && WellFormed(StoreTx(db, b, backstop).value)
    ensures Lookup(StoreTx(db, b, backstop).value, n.id) == Some(n)
    ensures forall id :: id in StoreTx(db, b, backstop).value.nodes ==>
              StoreTx(db, b, backstop).value.nodes[id].node.filePath == b.file.path
    ensures StoreTx(db, b, backstop).value.triggers == db.triggers
    ensures StoreTx(db, b, backstop).value.files == db.files[b.file.path := b.file.(nodeCount := 1)]
  {
    assert NodeIds(b.nodes) == {n.id};
    ClosedBatchStores(db, b, backstop);
    hide StoreTx, WellFormed;
    StoreTxWellFormed(db, b, backstop);
    StoreReplacesFile(db, b);
    assert LastWith(b.nodes, n.id) == Some(n);
    var d := StoreTx(db, b, false).value;
    hide KeepEdges, KeepRefs;
    forall id | id in d.nodes ensures d.nodes[id].node.filePath == b.file.path {
      assert Lookup(d, id) == Some(d.nodes[id].node);
    }
  }

  lemma RefusedRebuild(db: Db, b: ExtractionBatch)
    requires db.triggers == ALL_TRIGGERS && !Unchanged(db, b) && StoreTx(db.(triggers := {}), b, true).Some?
    ensures BulkInitEffect(db, [b], [false, false, false, false, true])
            == BulkEffect(StoreTx(db.(triggers := {}), b, true).value, Busy, [])
  {
    var locks := [false, false, false, false, true];
    DropsFromAll(locks);
    AllDropped(db.triggers, locks);
    assert AfterWrites(locks, 3) == [false, true] && AfterWrite([false, true]) == [true] && AfterWrite([true]) == [];
    assert [b][..0] == [] && BulkTx(db.(triggers := {}), [b]) == StoreTx(db.(triggers := {}), b, true);
    hide DropTriggers, StoreTx;
  }

  lemma GetAfterStore(b: ExtractionBatch, n: Node)
    requires !Unchanged(EmptyDb(), b) && StoreTx(EmptyDb(), b, false).Some?
    requires Lookup(StoreTx(EmptyDb(), b, false).value, n.id) == Some(n)
    ensures ExecAll(Fields(EmptyDb(), map[], []), [StoreOp(b), GetOp(n.id)])
            == Fields(StoreTx(EmptyDb(), b, false).value, map[n.id := n], [])
  {
    var ops, start := [StoreOp(b), GetOp(n.id)], Fields(EmptyDb(), map[], []);
    assert ops[..1] == [StoreOp(b)] && ops[..1][..0] == [];
    hide StoreTx;
    assert ExecAll(start, ops[..1][..0]) == start;
    assert ExecAll(start, ops[..1]) == Exec(start, StoreOp(b));
    assert map[][n.id := n] == map[n.id := n];
  }

  function OneNode(hash: string, n: Node): ExtractionBatch
  {
    ExtractionBatch(FileRecord("a.js", hash, 1), [n], [], [])
  }

  /** What a caller has to respect for the index: fresh ids when a batch is stored, and
      no bulk load that is refused after its first write. */
  ghost predicate Careful(s: Fields, op: Op)
  {
    match op
    case StoreOp(b) => FreshIds(s.db, b)
    case BulkOp(bs) => |bs| > 0 ==> NextLocked(s.locks) || NoneRefused(s.locks, WritesOfBulkInit(s.db, bs))
    case _ => true
  }

  ghost predicate CarefulRun(s: Fields, ops: seq<Op>)
  {
    |ops| > 0 ==> CarefulRun(s, ops[..|ops|-1]) && Careful(ExecAll(s, ops[..|ops|-1]), ops[|ops|-1])
  }

  lemma StepKeepsIndex(s: Fields, op: Op)
    requires WellFormed(s.db) && Indexed(s.db) && Careful(s, op)
    ensures Indexed(Exec(s, op).db)
  {
    hide BulkInitEffect;
    match op
    case StoreOp(b) =>
      if StoreEffect(s.db, b, NextLocked(s.locks)).db != s.db {
        StoreTxWellFormed(s.db, b, false);
        StoreKeepsSyncIffFresh(s.db, b);
      }
    case BulkOp(bs) => BulkKeepsIndex(s.db, bs, s.locks);
    case DeleteOp(path) => DeleteFileKeepsSync(s.db, path, NextLocked(s.locks));
    case _ =>
  }

  lemma BulkKeepsIndex(db: Db, bs: seq<ExtractionBatch>, locks: seq<bool>)
    requires Indexed(db)
    requires |bs| > 0 ==> NextLocked(locks) || NoneRefused(locks, WritesOfBulkInit(db, bs))
    ensures Indexed(BulkInitEffect(db, bs, locks).db)
  {
    if |bs| > 0 { BulkInitIndex(db, bs, locks); }
  }

  /** Over every careful run the triggers are installed between operations and the
      index equals the nodes table, including after refused and rolled-back ones. */
  lemma {:induction false} CarefulRunsKeepIndex(s: Fields, ops: seq<Op>)
    requires Good(s) && Indexed(s.db) && CarefulRun(s, ops)
    ensures Indexed(ExecAll(s, ops).db)
  {
    if |ops| > 0 {
      var init := ops[..|ops|-1];
      CarefulRunsKeepIndex(s, init);
      EveryRunIsGood(s, init);
      StepKeepsIndex(ExecAll(s, init), ops[|ops|-1]);
    }
  }
}
