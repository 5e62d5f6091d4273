/** The SQLite-backed graph store: tables with foreign keys, the FTS shadow of the
    nodes table kept by triggers, transactions and the node cache.

    A database is a value, so BEGIN remembers it and ROLLBACK restores it. */
module Store {
  import opened Graph
  import opened Seqs

  datatype FtsDoc = FtsDoc(
    id: string, name: string, qualifiedName: string, docstring: Option<string>, signature: Option<string>)

  function Doc(n: Node): FtsDoc
  {
    FtsDoc(n.id, n.name, n.qualifiedName, n.docstring, n.signature)
  }

  datatype Row = Row(rowid: nat, node: Node)

  /** What keeps the index in step with the table, row by row. */
  datatype Trigger = AfterInsert | AfterDelete | AfterUpdate

  const ALL_TRIGGERS: set<Trigger> := {AfterInsert, AfterDelete, AfterUpdate}

  /** `fts` holds the (rowid, document) pairs of the full-text index. */
  datatype Db = Db(
    nodes: map<string, Row>, edges: seq<Edge>, refs: seq<UnresolvedRef>,
    files: map<string, FileRecord>, fts: set<(nat, FtsDoc)>, triggers: set<Trigger>,
    nextRowid: nat, nextRef: int)

  /** What the index holds when it agrees with the table. */
  function FtsOf(nodes: map<string, Row>): set<(nat, FtsDoc)>
  {
    set id | id in nodes :: (nodes[id].rowid, Doc(nodes[id].node))
  }

  function Lookup(db: Db, id: string): Option<Node>
  {
    if id in db.nodes then Some(db.nodes[id].node) else None
  }

  // ----- statements -----------------------------------------------------------

  function Detached(gone: set<string>): Edge -> bool
  {
    (e: Edge) => e.source !in gone && e.target !in gone
  }

  function KeepEdges(edges: seq<Edge>, gone: set<string>): seq<Edge>
  {
    Filter(edges, Detached(gone))
  }

  function NotFrom(gone: set<string>): UnresolvedRef -> bool
  {
    (r: UnresolvedRef) => r.fromNode !in gone
  }

  function KeepRefs(refs: seq<UnresolvedRef>, gone: set<string>): seq<UnresolvedRef>
  {
    Filter(refs, NotFrom(gone))
  }

  /** Rows leave the table and the foreign keys cascade; no trigger fires. */
  function Cascade(db: Db, gone: set<string>): Db
  {
    db.(nodes := db.nodes - gone, edges := KeepEdges(db.edges, gone), refs := KeepRefs(db.refs, gone))
  }

  function IdsOfFile(db: Db, path: string): set<string>
  {
    set id | id in db.nodes && db.nodes[id].node.filePath == path
  }

  /** DELETE FROM nodes WHERE file_path = ?: cascades, and the delete trigger, when
      it is installed, takes the rows out of the index. */
  function DeleteNodesByFile(db: Db, path: string): Db
  {
    var gone := IdsOfFile(db, path);
    var d := Cascade(db, gone);
    if AfterDelete in db.triggers then d.(fts := db.fts - set id | id in gone :: (db.nodes[id].rowid, Doc(db.nodes[id].node)))
    else d
  }

  /** INSERT OR REPLACE INTO nodes. A replaced row cascades like a deleted one, but
      SQLite fires no delete trigger for it (recursive_triggers is off). */
  function InsertNode(db: Db, n: Node): Db
  {
    var d := if n.id in db.nodes then Cascade(db, {n.id}) else db;
    d.(nodes := d.nodes[n.id := Row(db.nextRowid, n)],
       nextRowid := db.nextRowid + 1,
       fts := if AfterInsert in db.triggers then db.fts + {(db.nextRowid, Doc(n))} else db.fts)
  }

  function InsertNodes(db: Db, ns: seq<Node>): Db
  {
    if |ns| == 0 then db else InsertNode(InsertNodes(db, ns[..|ns|-1]), ns[|ns|-1])
  }

  predicate EdgeOk(db: Db, e: Edge) { e.source in db.nodes && e.target in db.nodes }

  predicate EdgesOk(db: Db, es: seq<Edge>) { forall e :: e in es ==> EdgeOk(db, e) }

  predicate RefsOk(db: Db, rs: seq<UnresolvedRef>) { forall r :: r in rs ==> r.fromNode in db.nodes }

  /** The rows AUTOINCREMENT makes of new references. */
  function Numbered(rs: seq<UnresolvedRef>, first: int): seq<UnresolvedRef>
  {
    seq(|rs|, i requires 0 <= i < |rs| => rs[i].(id := first + i))
  }

  function InsertRefs(db: Db, rs: seq<UnresolvedRef>): Db
  {
    db.(refs := db.refs + Numbered(rs, db.nextRef), nextRef := db.nextRef + |rs|)
  }

  function UpsertFile(db: Db, f: FileRecord): Db
  {
    db.(files := db.files[f.path := f])
  }

  // ----- transactions ---------------------------------------------------------

  /** The hash gate: the file is recorded with this hash and this many nodes. */
  predicate IsRecorded(files: map<string, FileRecord>, b: ExtractionBatch)
  {
    && b.file.path in files
    && files[b.file.path].contentHash == b.file.contentHash && files[b.file.path].nodeCount == |b.nodes|
  }

  predicate Unchanged(db: Db, b: ExtractionBatch) { IsRecorded(db.files, b) }

  function Within(ids: set<string>): Edge -> bool
  {
    (e: Edge) => e.source in ids && e.target in ids
  }

  /** The orphan backstop drops edges with an endpoint outside the batch. */
  function WithoutOrphans(edges: seq<Edge>, ids: set<string>): seq<Edge>
  {
    Filter(edges, Within(ids))
  }

  /** The tables after the old rows of the file are gone and the new nodes are in. The
      second statement deletes references whose origin *is* the path. */
  function NodesReplaced(db: Db, b: ExtractionBatch): Db
  {
    var d := DeleteNodesByFile(db, b.file.path);
    InsertNodes(d.(refs := KeepRefs(d.refs, {b.file.path})), b.nodes)
  }

  /** The body of the transaction that stores one file; `None` is a foreign key
      violation. */
  function StoreTx(db: Db, b: ExtractionBatch, backstop: bool): Option<Db>
  {
    var d := NodesReplaced(db, b);
    var es := if backstop then WithoutOrphans(b.edges, NodeIds(b.nodes)) else b.edges;
    if EdgesOk(d, es) && RefsOk(d, b.refs) then
      Some(UpsertFile(InsertRefs(d.(edges := d.edges + es), b.refs), b.file.(nodeCount := |b.nodes|)))
    else None
  }

  function BulkTx(db: Db, bs: seq<ExtractionBatch>): Option<Db>
  {
    if |bs| == 0 then Some(db)
    else
      var prev := BulkTx(db, bs[..|bs|-1]);
      if prev.None? then None
      else if Unchanged(prev.value, bs[|bs|-1]) then prev
      else StoreTx(prev.value, bs[|bs|-1], true)
  }

  datatype BulkStats = BulkStats(filesWritten: nat, filesSkipped: nat, nodesInserted: nat, edgesInserted: nat)

  const NO_STATS: BulkStats := BulkStats(0, 0, 0, 0)

  function CountFile(s: BulkStats, skipped: bool, nodes: nat, edges: nat): BulkStats
  {
    if skipped then s.(filesSkipped := s.filesSkipped + 1)
    else s.(filesWritten := s.filesWritten + 1, nodesInserted := s.nodesInserted + nodes, edgesInserted := s.edgesInserted + edges)
  }

  /** What a load that commits reports. */
  function StatsOf(db: Db, bs: seq<ExtractionBatch>): (s: BulkStats)
    ensures s.filesWritten + s.filesSkipped == |bs|
  {
    if |bs| == 0 then NO_STATS
    else
      var prev, b := BulkTx(db, bs[..|bs|-1]), bs[|bs|-1];
      CountFile(StatsOf(db, bs[..|bs|-1]), prev.None? || Unchanged(prev.value, b), |b.nodes|,
                |WithoutOrphans(b.edges, NodeIds(b.nodes))|)
  }

  lemma NothingCounted(db: Db)
    ensures BulkTx(db, []) == Some(db) && StatsOf(db, []) == NO_STATS
  {
  }

  lemma StatsStep(db: Db, bs: seq<ExtractionBatch>, i: nat, d: Db)
    requires i < |bs| && BulkTx(db, bs[..i]) == Some(d)
    ensures BulkTx(db, bs[..i+1]) == if Unchanged(d, bs[i]) then Some(d) else StoreTx(d, bs[i], true)
    ensures StatsOf(db, bs[..i+1])
            == CountFile(StatsOf(db, bs[..i]), Unchanged(d, bs[i]), |bs[i].nodes|,
                         |WithoutOrphans(bs[i].edges, NodeIds(bs[i].nodes))|)
  {
    assert bs[..i+1][..i] == bs[..i];
  }

  datatype Outcome = Done | Busy | ForeignKeyViolation

  datatype Effect = Effect(db: Db, outcome: Outcome)

  function StoreEffect(db: Db, b: ExtractionBatch, locked: bool): Effect
  {
    if Unchanged(db, b) then Effect(db, Done)
    else if locked then Effect(db, Busy)
    else match StoreTx(db, b, false)
      case None => Effect(db, ForeignKeyViolation)
      case Some(d) => Effect(d, Done)
  }

  /** Schema statements of a bulk load, each a write of its own outside any transaction;
      after a refused one the rest is not run. */
  datatype Ddl = Ddl(triggers: set<Trigger>, locks: seq<bool>, ok: bool)

  /** DROP TRIGGER IF EXISTS: writes nothing when the trigger is not there. */
  function DropTrigger(d: Ddl, t: Trigger): Ddl
  {
    if !d.ok || t !in d.triggers then d
    else if NextLocked(d.locks) then Ddl(d.triggers, AfterWrite(d.locks), false)
    else Ddl(d.triggers - {t}, AfterWrite(d.locks), true)
  }

  /** CREATE TRIGGER IF NOT EXISTS. */
  function CreateTrigger(d: Ddl, t: Trigger): Ddl
  {
    if !d.ok || t in d.triggers then d
    else if NextLocked(d.locks) then Ddl(d.triggers, AfterWrite(d.locks), false)
    else Ddl(d.triggers + {t}, AfterWrite(d.locks), true)
  }

  function DropTriggers(triggers: set<Trigger>, locks: seq<bool>): Ddl
  {
    DropTrigger(DropTrigger(DropTrigger(Ddl(triggers, locks, true), AfterInsert), AfterDelete), AfterUpdate)
  }

  lemma AllDropped(triggers: set<Trigger>, locks: seq<bool>)
    ensures DropTriggers(triggers, locks).ok ==> DropTriggers(triggers, locks).triggers == {}
  {
    forall t | t in DropTriggers(triggers, locks).triggers ensures t in ALL_TRIGGERS { AllThree(t); }
  }

  lemma AllThree(t: Trigger)
    ensures t in ALL_TRIGGERS
  {
    assert t.AfterInsert? || t.AfterDelete? || t.AfterUpdate?;
  }

  function CreateTriggers(triggers: set<Trigger>, locks: seq<bool>): Ddl
  {
    CreateTrigger(CreateTrigger(CreateTrigger(Ddl(triggers, locks, true), AfterInsert), AfterDelete), AfterUpdate)
  }

  datatype BulkEffect = BulkEffect(db: Db, outcome: Outcome, locks: seq<bool>)

  /** The bulk load: drops, one transaction, index rebuild, creates. A refused write
      returns at once, wherever the load stands; only a failed transaction puts the
      triggers back first, and ignores a refusal there. */
  function BulkInitEffect(db: Db, bs: seq<ExtractionBatch>, locks: seq<bool>): BulkEffect
  {
    if |bs| == 0 then BulkEffect(db, Done, locks)
    else
      var dropped := DropTriggers(db.triggers, locks);
      var bare := db.(triggers := dropped.triggers);
      if !dropped.ok then BulkEffect(bare, Busy, dropped.locks)
      else if NextLocked(dropped.locks) then BulkEffect(bare, Busy, AfterWrite(dropped.locks))
      else match BulkTx(bare, bs)
        case None =>
          var created := CreateTriggers(bare.triggers, AfterWrite(dropped.locks));
          BulkEffect(bare.(triggers := created.triggers), ForeignKeyViolation, created.locks)
        case Some(d) => Rebuilt(d, AfterWrite(dropped.locks))
  }

  /** What follows COMMIT. */
  function Rebuilt(db: Db, locks: seq<bool>): BulkEffect
  {
    if NextLocked(locks) then BulkEffect(db, Busy, AfterWrite(locks))
    else
      var created := CreateTriggers(db.triggers, AfterWrite(locks));
      BulkEffect(db.(fts := FtsOf(db.nodes), triggers := created.triggers), if created.ok then Done else Busy, created.locks)
  }

  function NotInFile(path: string): UnresolvedRef -> bool
  {
    (r: UnresolvedRef) => r.filePath != path
  }

  function DeleteRefsOfFile(refs: seq<UnresolvedRef>, path: string): seq<UnresolvedRef>
  {
    Filter(refs, NotInFile(path))
  }

  function DeleteFileEffect(db: Db, path: string, locked: bool): Effect
  {
    if locked then Effect(db, Busy)
    else
      var d := db.(refs := DeleteRefsOfFile(db.refs, path), edges := KeepEdges(db.edges, IdsOfFile(db, path)));
      Effect(DeleteNodesByFile(d, path).(files := d.files - {path}), Done)
  }

  // ----- committing resolved references ---------------------------------------

  /** Which rows a resolved edge deletes: its own by id, or, when the id was not
      recorded, every row with the same origin, name and kind. */
  predicate Deletes(e: ResolvedEdge, r: UnresolvedRef)
  {
    if e.refId != 0 then e.refId == r.id
    else e.fromNode == r.fromNode && e.refName == r.name && e.refKind == r.kind
  }

  predicate DeletedBy(batch: seq<ResolvedEdge>, r: UnresolvedRef)
  {
    exists e :: e in batch && Deletes(e, r)
  }

  function Untouched(batch: seq<ResolvedEdge>): UnresolvedRef -> bool
  {
    (r: UnresolvedRef) => !DeletedBy(batch, r)
  }

  function Unresolved(refs: seq<UnresolvedRef>, batch: seq<ResolvedEdge>): seq<UnresolvedRef>
  {
    Filter(refs, Untouched(batch))
  }

  /** The edges of a batch whose endpoints both exist. */
  function ValidEdges(batch: seq<ResolvedEdge>, ids: set<string>): seq<Edge>
  {
    if |batch| == 0 then []
    else
      var e := batch[|batch|-1].edge;
      ValidEdges(batch[..|batch|-1], ids) + (if e.source in ids && e.target in ids then [e] else [])
  }

  function CommitBatch(db: Db, batch: seq<ResolvedEdge>): Db
  {
    db.(edges := db.edges + ValidEdges(batch, db.nodes.Keys), refs := Unresolved(db.refs, batch))
  }

  // ----- the store ------------------------------------------------------------

  function EmptyDb(): Db { Db(map[], [], [], map[], {}, ALL_TRIGGERS, 1, 1) }

  /** `locks` is the environment: whether each coming write, BEGIN IMMEDIATE or a
      statement outside a transaction, finds the database locked by another process
      until the busy timeout. Past its end nothing is locked. */
  class StorageImpl {
    var db: Db
    var nodeCache: map<string, Node>
    var locks: seq<bool>

    constructor (locks: seq<bool>)
      ensures db == EmptyDb() && nodeCache == map[] && this.locks == locks
    {
      db := EmptyDb();
      nodeCache := map[];
      this.locks := locks;
    }

    method TakeLock() returns (ok: bool)
      modifies this`locks
      ensures ok == !NextLocked(old(locks)) && locks == AfterWrite(old(locks))
    {
      ok := |locks| == 0 || !locks[0];
      locks := if |locks| == 0 then [] else locks[1..];
    }

    method StoreExtractionBatch(batch: ExtractionBatch) returns (outcome: Outcome)
      modifies this
      ensures Effect(db, outcome) == StoreEffect(old(db), batch, NextLocked(old(locks)))
      ensures locks == if Unchanged(old(db), batch) then old(locks) else AfterWrite(old(locks))
      ensures nodeCache == if outcome == Done && !Unchanged(old(db), batch) then map[] else old(nodeCache)
    {
      if Unchanged(db, batch) {
        return Done;
      }
      var ok := TakeLock();
      if !ok {
        return Busy;
      }
      var before := db;
      ok := StoreRows(batch, false);
      if !ok {
        db := before;
        return ForeignKeyViolation;
      }
      nodeCache := map[];
      return Done;
    }

    /** The statements of one file inside a transaction. On failure the tables are in
        an intermediate state that the caller rolls back. */
    method StoreRows(batch: ExtractionBatch, backstop: bool) returns (ok: bool)
      modifies this`db
      ensures ok <==> StoreTx(old(db), batch, backstop).Some?
      ensures ok ==> db == StoreTx(old(db), batch, backstop).value
    {
      ReplaceNodes(batch);
      var edges := batch.edges;
      if backstop {
        edges := DropOrphans(batch);
      }
      ok := InsertEdges(edges);
      if ok {
        ok := InsertUnresolved(batch.refs);
      }
      if ok {
        db := UpsertFile(db, batch.file.(nodeCount := |batch.nodes|));
      }
    }

    method ReplaceNodes(batch: ExtractionBatch)
      modifies this`db
      ensures db == NodesReplaced(old(db), batch)
    {
      db := DeleteNodesByFile(db, batch.file.path);
      db := db.(refs := KeepRefs(db.refs, {batch.file.path}));
      ghost var start := db;
      for i := 0 to |batch.nodes|
        invariant db == InsertNodes(start, batch.nodes[..i])
      {
        assert batch.nodes[..i+1][..i] == batch.nodes[..i];
        db := InsertNode(db, batch.nodes[i]);
      }
      assert batch.nodes[..|batch.nodes|] == batch.nodes;
    }

    method DropOrphans(batch: ExtractionBatch) returns (edges: seq<Edge>)
      ensures edges == WithoutOrphans(batch.edges, NodeIds(batch.nodes))
    {
      edges := [];
      var ids := NodeIds(batch.nodes);
      for i := 0 to |batch.edges|
        invariant edges == WithoutOrphans(batch.edges[..i], ids)
      {
        assert batch.edges[..i+1][..i] == batch.edges[..i];
        if batch.edges[i].source in ids && batch.edges[i].target in ids {
          edges := edges + [batch.edges[i]];
        }
      }
      assert batch.edges[..|batch.edges|] == batch.edges;
    }

    method InsertEdges(edges: seq<Edge>) returns (ok: bool)
      modifies this`db
      ensures ok <==> EdgesOk(old(db), edges)
      ensures ok ==> db == old(db).(edges := old(db).edges + edges)
      ensures db.nodes == old(db).nodes
    {
      for i := 0 to |edges|
        invariant db == old(db).(edges := old(db).edges + edges[..i])
        invariant EdgesOk(old(db), edges[..i])
      {
        if !EdgeOk(db, edges[i]) {
          assert edges[i] in edges;
          return false;
        }
        assert edges[..i+1] == edges[..i] + [edges[i]];
        db := db.(edges := db.edges + [edges[i]]);
      }
      assert edges[..|edges|] == edges;
      return true;
    }

    method InsertUnresolved(refs: seq<UnresolvedRef>) returns (ok: bool)
      modifies this`db
      ensures ok <==> RefsOk(old(db), refs)
      ensures ok ==> db == InsertRefs(old(db), refs)
    {
      ghost var rows := Numbered(refs, db.nextRef);
      for i := 0 to |refs|
        invariant db == old(db).(refs := old(db).refs + rows[..i], nextRef := old(db).nextRef + i)
        invariant RefsOk(old(db), refs[..i])
      {
        if refs[i].fromNode !in db.nodes {
          assert refs[i] in refs;
          return false;
        }
        assert refs[..i+1] == refs[..i] + [refs[i]];
        assert rows[..i+1] == rows[..i] + [rows[i]];
        db := db.(refs := db.refs + [refs[i].(id := db.nextRef)], nextRef := db.nextRef + 1);
      }
      assert refs[..|refs|] == refs && rows[..|refs|] == rows;
      return true;
    }

    method RunDrop(t: Trigger) returns (ok: bool)
      modifies this`db, this`locks
      ensures Ddl(db.triggers, locks, ok) == DropTrigger(Ddl(old(db.triggers), old(locks), true), t)
      ensures db == old(db).(triggers := db.triggers)
    {
      if t !in db.triggers {
        return true;
      }
      ok := TakeLock();
      if ok {
        db := db.(triggers := db.triggers - {t});
      }
    }

    method DropFtsTriggers() returns (ok: bool)
      modifies this`db, this`locks
      ensures Ddl(db.triggers, locks, ok) == DropTriggers(old(db.triggers), old(locks))
      ensures db == old(db).(triggers := db.triggers)
    {
      ok := RunDrop(AfterInsert);
      if ok {
        ok := RunDrop(AfterDelete);
      }
      if ok {
        ok := RunDrop(AfterUpdate);
      }
    }

    method RunCreate(t: Trigger) returns (ok: bool)
      modifies this`db, this`locks
      ensures Ddl(db.triggers, locks, ok) == CreateTrigger(Ddl(old(db.triggers), old(locks), true), t)
      ensures db == old(db).(triggers := db.triggers)
    {
      if t in db.triggers {
        return true;
      }
      ok := TakeLock();
      if ok {
        db := db.(triggers := db.triggers + {t});
      }
    }

    method RecreateFtsTriggers() returns (ok: bool)
      modifies this`db, this`locks
      ensures Ddl(db.triggers, locks, ok) == CreateTriggers(old(db.triggers), old(locks))
      ensures db == old(db).(triggers := db.triggers)
    {
      ok := RunCreate(AfterInsert);
      if ok {
        ok := RunCreate(AfterDelete);
      }
      if ok {
        ok := RunCreate(AfterUpdate);
      }
    }

    method StoreExtractionBatchBulkInit(batches: seq<ExtractionBatch>) returns (outcome: Outcome, stats: BulkStats)
      modifies this
      ensures BulkEffect(db, outcome, locks) == BulkInitEffect(old(db), batches, old(locks))
      ensures outcome == Done ==> stats == StatsOf(old(db).(triggers := {}), batches)
      ensures nodeCache == if outcome == Done && |batches| > 0 then map[] else old(nodeCache)
    {
      stats := NO_STATS;
      if |batches| == 0 {
        return Done, stats;
      }
      var ok := DropFtsTriggers();
      if !ok {
        return Busy, stats;
      }
      AllDropped(old(db).triggers, old(locks));
      ok := TakeLock();
      if !ok {
        return Busy, stats;
      }
      ok, stats := StoreAll(batches);
      if !ok {
        var _ := RecreateFtsTriggers();
        return ForeignKeyViolation, stats;
      }
      ok := TakeLock();
      if !ok {
        return Busy, stats;
      }
      db := db.(fts := FtsOf(db.nodes));
      ok := RecreateFtsTriggers();
      if !ok {
        return Busy, stats;
      }
      nodeCache := map[];
      return Done, stats;
    }

    /** The transaction of a bulk load. */
    method StoreAll(batches: seq<ExtractionBatch>) returns (ok: bool, stats: BulkStats)
      modifies this`db
      ensures ok <==> BulkTx(old(db), batches).Some?
      ensures ok ==> stats == StatsOf(old(db), batches)
      ensures db == if ok then BulkTx(old(db), batches).value else old(db)
    {
      hide StatsOf, CountFile, BulkTx, StoreTx, Unchanged, WithoutOrphans;
      var before := db;
      NothingCounted(db);
      stats := NO_STATS;
      for i := 0 to |batches|
        invariant BulkTx(before, batches[..i]) == Some(db) && stats == StatsOf(before, batches[..i])
      {
        var b := batches[i];
        StatsStep(before, batches, i, db);
        var skip := Unchanged(db, b);
        if !skip {
          ok := StoreRows(b, true);
          if !ok {
            BulkFails(before, batches, i + 1);
            db := before;
            return;
          }
        }
        stats := CountFile(stats, skip, |b.nodes|, |WithoutOrphans(b.edges, NodeIds(b.nodes))|);
      }
      assert batches[..|batches|] == batches;
      return true, stats;
    }

    method DeleteFile(path: string) returns (outcome: Outcome)
      modifies this
      ensures Effect(db, outcome) == DeleteFileEffect(old(db), path, NextLocked(old(locks)))
      ensures locks == AfterWrite(old(locks))
      ensures nodeCache == if outcome == Done then map[] else old(nodeCache)
    {
      var ok := TakeLock();
      if !ok {
        return Busy;
      }
      db := db.(refs := DeleteRefsOfFile(db.refs, path));
      db := db.(edges := KeepEdges(db.edges, IdsOfFile(db, path)));
      db := DeleteNodesByFile(db, path);
      db := db.(files := db.files - {path});
      nodeCache := map[];
      return Done;
    }

    method GetNodeById(id: string) returns (r: Option<Node>)
      modifies this`nodeCache
      ensures r == CachedGet(old(db), old(nodeCache), id)
      ensures nodeCache == AfterGet(old(db), old(nodeCache), id)
    {
      if id in nodeCache {
        return Some(nodeCache[id]);
      }
      r := Lookup(db, id);
      if r.Some? {
        nodeCache := nodeCache[id := r.value];
      }
    }

    /** Partitions the batch into edges to insert and rows to delete, then writes both
        in one transaction. The node cache is left alone: no node changes. */
    method CommitResolvedBatch(batch: seq<ResolvedEdge>) returns (outcome: Outcome)
      modifies this`db, this`locks
      ensures |batch| == 0 ==> outcome == Done && db == old(db) && locks == old(locks)
      ensures |batch| > 0 ==> outcome == (if NextLocked(old(locks)) then Busy else Done)
                              && locks == AfterWrite(old(locks))
      ensures outcome == Done ==> db == CommitBatch(old(db), batch)
      ensures outcome != Done ==> db == old(db)
    {
      if |batch| == 0 {
        FilterAll(db.refs, Untouched(batch));
        return Done;
      }
      var existing := db.nodes.Keys;
      var validEdges: seq<Edge>, deleteIds: seq<int>, fallback: seq<(string, string, string)> := [], [], [];
      for i := 0 to |batch|
        invariant db == old(db) && locks == old(locks)
        invariant validEdges == ValidEdges(batch[..i], existing)
        invariant forall r :: DeletedBy(batch[..i], r) <==>
                              r.id in deleteIds || (r.fromNode, r.name, r.kind) in fallback
      {
        assert batch[..i+1] == batch[..i] + [batch[i]] && batch[..i+1][..i] == batch[..i];
        DeletedByAppend(batch[..i], batch[i]);
        if batch[i].edge.source in existing && batch[i].edge.target in existing {
          validEdges := validEdges + [batch[i].edge];
        }
        if batch[i].refId != 0 {
          deleteIds := deleteIds + [batch[i].refId];
        } else {
          fallback := fallback + [(batch[i].fromNode, batch[i].refName, batch[i].refKind)];
        }
      }
      assert batch[..|batch|] == batch;
      var ok := TakeLock();
      if !ok {
        return Busy;
      }
      db := db.(edges := db.edges + validEdges);
      FilterSame(db.refs, Untouched(batch), Unmatched(deleteIds, fallback));
      db := db.(refs := DeleteMatching(db.refs, deleteIds, fallback));
      return Done;
    }

    /** LIMIT/OFFSET page in row order. */
    method GetUnresolvedBatch(limit: nat, offset: nat) returns (page: seq<UnresolvedRef>)
      ensures page == Page(db.refs, limit, offset)
    {
      page := if offset >= |db.refs| then []
              else if offset + limit <= |db.refs| then db.refs[offset..offset + limit]
              else db.refs[offset..];
    }
  }

  predicate NextLocked(locks: seq<bool>) { |locks| > 0 && locks[0] }

  function AfterWrite(locks: seq<bool>): seq<bool> { if |locks| == 0 then [] else locks[1..] }

  function Page(refs: seq<UnresolvedRef>, limit: nat, offset: nat): seq<UnresolvedRef>
  {
    var from := if offset <= |refs| then offset else |refs|;
    var to := if offset + limit <= |refs| then offset + limit else |refs|;
    refs[from..to]
  }

  function CachedGet(db: Db, cache: map<string, Node>, id: string): Option<Node>
  {
    if id in cache then Some(cache[id]) else Lookup(db, id)
  }

  function AfterGet(db: Db, cache: map<string, Node>, id: string): map<string, Node>
  {
    if id !in cache && id in db.nodes then cache[id := db.nodes[id].node] else cache
  }

  function Unmatched(ids: seq<int>, tuples: seq<(string, string, string)>): UnresolvedRef -> bool
  {
    (r: UnresolvedRef) => r.id !in ids && (r.fromNode, r.name, r.kind) !in tuples
  }

  /** DELETE ... WHERE id IN (...), then the three-column deletes. */
  function DeleteMatching(refs: seq<UnresolvedRef>, ids: seq<int>, tuples: seq<(string, string, string)>): seq<UnresolvedRef>
  {
    Filter(refs, Unmatched(ids, tuples))
  }

  lemma {:induction false} BulkFails(db: Db, bs: seq<ExtractionBatch>, k: nat)
    requires k <= |bs| && BulkTx(db, bs[..k]).None?
    ensures BulkTx(db, bs).None?
    decreases |bs| - k
  {
    if k < |bs| {
      assert bs[..k+1][..k] == bs[..k];
      BulkFails(db, bs, k + 1);
    } else {
      assert bs[..k] == bs;
    }
  }

  lemma DeletedByAppend(batch: seq<ResolvedEdge>, e: ResolvedEdge)
    ensures forall r :: DeletedBy(batch + [e], r) <==> DeletedBy(batch, r) || Deletes(e, r)
  {
    forall r ensures DeletedBy(batch + [e], r) <==> DeletedBy(batch, r) || Deletes(e, r) {
      if Deletes(e, r) { assert e in batch + [e]; }
      if DeletedBy(batch, r) {
        var x :| x in batch && Deletes(x, r);
        assert x in batch + [e];
      }
    }
  }

}
