/** What the operations of the store do to its tables, row by row. */
module StoreLaws {
  import opened Graph
  import opened Seqs
  import opened Store
  import opened StoreInvariants

  // ----- deleting a file ---------------------------------------------------------------------

  lemma EmptiedRows(db: Db, path: string)
    requires WellFormed(db)
    ensures var d, ids := Emptied(db, path), set id | id in db.nodes && db.nodes[id].node.filePath == path;
            && WellFormed(d) && IdsOfFile(d, path) == ids
            && d.edges == Filter(db.edges, (e: Edge) => e.source !in ids && e.target !in ids)
            && d.refs == Filter(db.refs, (r: UnresolvedRef) => r.filePath != path)
  {
    EmptiedWellFormed(db, path);
    var ids := set id | id in db.nodes && db.nodes[id].node.filePath == path;
    FilterSame(db.edges, Detached(ids), (e: Edge) => e.source !in ids && e.target !in ids);
    FilterSame(db.refs, NotInFile(path), (r: UnresolvedRef) => r.filePath != path);
  }

  /** An unlocked delete takes exactly the file out: its nodes, the edges that touch them,
      its references and those that come from them, and its record. */
  lemma DeleteFileRemovesFile(db: Db, path: string)
    requires WellFormed(db)
    ensures var e, ids := DeleteFileEffect(db, path, false), set id | id in db.nodes && db.nodes[id].node.filePath == path;
            && e.outcome == Done && e.db.files == db.files - {path}
            && (forall id :: Lookup(e.db, id) == if id in ids then None else Lookup(db, id))
            && e.db.edges == Filter(db.edges, (x: Edge) => x.source !in ids && x.target !in ids)
            && e.db.refs == Filter(db.refs, (r: UnresolvedRef) => r.filePath != path && r.fromNode !in ids)
  {
    var ids := set id | id in db.nodes && db.nodes[id].node.filePath == path;
    var d, gone := Emptied(db, path), (x: Edge) => x.source !in ids && x.target !in ids;
    EmptiedRows(db, path);
    forall x | x in d.edges ensures Detached(ids)(x) { FilterMember(db.edges, gone, x); }
    FilterAll(d.edges, Detached(ids));
    FilterTwice(db.refs, (r: UnresolvedRef) => r.filePath != path, NotFrom(ids),
                (r: UnresolvedRef) => r.filePath != path && r.fromNode !in ids);
    hide WellFormed, Filter;
  }

  /** A batch of that path is not skipped afterwards. */
  lemma DeletedFileIsStoredAgain(db: Db, b: ExtractionBatch)
    ensures StoreEffect(DeleteFileEffect(db, b.file.path, false).db, b, true).outcome == Busy
  {
  }

  // ----- storing one ------------------------------------------------------------------------

  /** A store passes without asking for the database exactly when the file is recorded with
      this hash and this number of nodes. */
  lemma GatedIff(db: Db, b: ExtractionBatch)
    ensures StoreEffect(db, b, true) == Effect(db, Done)
            <==> b.file.path in db.files && db.files[b.file.path].contentHash == b.file.contentHash
                 && db.files[b.file.path].nodeCount == |b.nodes|
  {
  }

  /** What a stored file takes out: its old nodes, and those with an id of the batch. */
  function Gone(db: Db, b: ExtractionBatch): set<string>
  {
    (set id | id in db.nodes && db.nodes[id].node.filePath == b.file.path) + set n | n in b.nodes :: n.id
  }

  /** Which nodes a stored file leaves: the others, and the last of each id of the batch. */
  lemma StoreReplacesNodes(db: Db, b: ExtractionBatch)
    requires WellFormed(db) && StoreTx(db, b, false).Some?
    ensures var d := StoreTx(db, b, false).value;
            && (forall id :: id in d.nodes <==> (id in db.nodes && id !in Gone(db, b)) || exists n :: n in b.nodes && n.id == id)
            && (forall id :: id in db.nodes && id !in Gone(db, b) ==> d.nodes[id].node == db.nodes[id].node)
            && (forall k :: 0 <= k < |b.nodes| && (forall l :: k < l < |b.nodes| ==> b.nodes[l].id != b.nodes[k].id) ==>
                  b.nodes[k].id in d.nodes && d.nodes[b.nodes[k].id].node == b.nodes[k])
  {
    var d := StoreTx(db, b, false).value;
    StoreReplacesFile(db, b);
    assert IdsOfFile(db, b.file.path) + NodeIds(b.nodes) == Gone(db, b);
    hide WellFormed, StoreTx, LastWith, IdsOfFile, KeepEdges, KeepRefs, Numbered, Gone;
    forall id ensures id in d.nodes <==> (id in db.nodes && id !in Gone(db, b)) || exists n :: n in b.nodes && n.id == id {
      assert Lookup(d, id) == if id in NodeIds(b.nodes) then LastWith(b.nodes, id)
                              else if id in Gone(db, b) then None else Lookup(db, id);
      if id in NodeIds(b.nodes) { LastIs(b.nodes, id); }
    }
    forall id | id in db.nodes && id !in Gone(db, b) ensures d.nodes[id].node == db.nodes[id].node {
      InGone(db, b, id);
      assert Lookup(d, id) == Lookup(db, id);
    }
    forall k | 0 <= k < |b.nodes| && (forall l :: k < l < |b.nodes| ==> b.nodes[l].id != b.nodes[k].id)
      ensures b.nodes[k].id in d.nodes && d.nodes[b.nodes[k].id].node == b.nodes[k]
    {
      LastAt(b.nodes, k);
      assert b.nodes[k].id in NodeIds(b.nodes);
      assert Lookup(d, b.nodes[k].id) == Some(b.nodes[k]);
    }
  }

  lemma InGone(db: Db, b: ExtractionBatch, id: string)
    ensures id in NodeIds(b.nodes) ==> id in Gone(db, b)
  {
  }

  /** Which edges and references it leaves: the old ones in order that touch none of these
      ids, and the batch's, the references numbered on; and the record of the file. The
      source also deletes the references whose origin is the path, which is no node. */
  lemma StoreReplacesLinks(db: Db, b: ExtractionBatch)
    requires WellFormed(db) && StoreTx(db, b, false).Some?
    ensures var d, gone := StoreTx(db, b, false).value, Gone(db, b);
            && d.edges == Filter(db.edges, (e: Edge) => e.source !in gone && e.target !in gone) + b.edges
            && d.refs == Filter(db.refs, (r: UnresolvedRef) => r.fromNode != b.file.path && r.fromNode !in gone)
                         + seq(|b.refs|, k requires 0 <= k < |b.refs| => b.refs[k].(id := db.nextRef + k))
            && d.files == db.files[b.file.path := FileRecord(b.file.path, b.file.contentHash, |b.nodes|)]
  {
    var path, gone := b.file.path, Gone(db, b);
    StoreReplacesFile(db, b);
    assert IdsOfFile(db, path) + NodeIds(b.nodes) == gone;
    FilterSame(db.edges, Detached(gone), (e: Edge) => e.source !in gone && e.target !in gone);
    FilterTwice(db.refs, NotFrom({path}), NotFrom(gone), (r: UnresolvedRef) => r.fromNode != path && r.fromNode !in gone);
    hide WellFormed, StoreTx, Filter, LastWith, Lookup, Gone, IdsOfFile;
    assert Numbered(b.refs, db.nextRef) == seq(|b.refs|, k requires 0 <= k < |b.refs| => b.refs[k].(id := db.nextRef + k));
  }

  lemma {:induction false} LastIs(ns: seq<Node>, id: string)
    requires id in NodeIds(ns)
    ensures LastWith(ns, id).Some?
  {
    var init, n := ns[..|ns|-1], ns[|ns|-1];
    assert ns == init + [n];
    if n.id != id { LastIs(init, id); }
  }

  lemma {:induction false} LastAt(ns: seq<Node>, k: nat)
    requires k < |ns| && forall l :: k < l < |ns| ==> ns[l].id != ns[k].id
    ensures LastWith(ns, ns[k].id) == Some(ns[k])
    decreases |ns|
  {
    if k < |ns| - 1 { LastAt(ns[..|ns|-1], k); }
  }

  /** The index finds a node by every text the table has of it, and nothing else. */
  lemma IndexFinds(db: Db, rowid: nat, doc: FtsDoc)
    requires Indexed(db)
    ensures (rowid, doc) in db.fts
            <==> exists id :: id in db.nodes && db.nodes[id].rowid == rowid
                   && var n := db.nodes[id].node;
                      doc.id == n.id && doc.name == n.name && doc.qualifiedName == n.qualifiedName
                      && doc.docstring == n.docstring && doc.signature == n.signature
  {
    if id :| id in db.nodes && db.nodes[id].rowid == rowid && doc == Doc(db.nodes[id].node) {
      assert (rowid, doc) in FtsOf(db.nodes);
    }
  }

  // ----- committing resolved references ---------------------------------------------------------

  /** A commit adds the edges whose ends exist, in the order of the batch. */
  lemma CommitAddsEdges(db: Db, batch: seq<ResolvedEdge>, x: ResolvedEdge)
    ensures CommitBatch(db, []).edges == db.edges
    ensures CommitBatch(db, batch + [x]).edges
         == CommitBatch(db, batch).edges + if x.edge.source in db.nodes && x.edge.target in db.nodes then [x.edge] else []
  {
    assert (batch + [x])[..|batch + [x]|-1] == batch;
  }

  /** It takes out the rows that an edge of the batch names by row id, or, when it has no
      row id, by origin, name and kind. */
  lemma CommitDeletesRows(db: Db, batch: seq<ResolvedEdge>)
    ensures var d := CommitBatch(db, batch);
            && d == db.(edges := d.edges, refs := d.refs)
            && d.refs == Filter(db.refs, (r: UnresolvedRef) =>
                 forall x :: x in batch ==> if x.refId != 0 then x.refId != r.id
                                            else !(x.fromNode == r.fromNode && x.refName == r.name && x.refKind == r.kind))
  {
    FilterSame(db.refs, Untouched(batch), (r: UnresolvedRef) =>
      forall x :: x in batch ==> if x.refId != 0 then x.refId != r.id
                                 else !(x.fromNode == r.fromNode && x.refName == r.name && x.refKind == r.kind));
  }

  // ----- bulk loads -----------------------------------------------------------------------------

  /** What a bulk load reports of one more closed batch. */
  lemma LoadIsReported(db: Db, bs: seq<ExtractionBatch>, d: Db, b: ExtractionBatch)
    requires BulkTx(db, bs) == Some(d) && Closed(b.nodes, b.edges, b.refs)
    ensures StatsOf(db, []) == NO_STATS == BulkStats(0, 0, 0, 0)
    ensures var s, path := StatsOf(db, bs), b.file.path;
            var skipped := path in d.files && d.files[path].contentHash == b.file.contentHash && d.files[path].nodeCount == |b.nodes|;
            StatsOf(db, bs + [b]) ==
              (if skipped then BulkStats(s.filesWritten, s.filesSkipped + 1, s.nodesInserted, s.edgesInserted)
               else BulkStats(s.filesWritten + 1, s.filesSkipped, s.nodesInserted + |b.nodes|, s.edgesInserted + |b.edges|))
  {
    NothingOrphaned(b);
    hide *;
    NothingCounted(db);
    var all := bs + [b];
    assert all[..|bs|] == bs && all[..|bs|+1] == all && all[|bs|] == b;
    StatsStep(db, all, |bs|, d);
    FileCounted(StatsOf(db, bs), d, b);
  }

  lemma NothingOrphaned(b: ExtractionBatch)
    requires Closed(b.nodes, b.edges, b.refs)
    ensures WithoutOrphans(b.edges, NodeIds(b.nodes)) == b.edges
  {
    FilterAll(b.edges, Within(NodeIds(b.nodes)));
  }

  lemma FileCounted(s: BulkStats, d: Db, b: ExtractionBatch)
    ensures CountFile(s, Unchanged(d, b), |b.nodes|, |b.edges|) ==
              (if b.file.path in d.files && d.files[b.file.path].contentHash == b.file.contentHash
                  && d.files[b.file.path].nodeCount == |b.nodes|
               then BulkStats(s.filesWritten, s.filesSkipped + 1, s.nodesInserted, s.edgesInserted)
               else BulkStats(s.filesWritten + 1, s.filesSkipped, s.nodesInserted + |b.nodes|, s.edgesInserted + |b.edges|))
  {
  }

  lemma {:induction false} UntriggeredInserts(db: Db, ns: seq<Node>)
    requires db.triggers == {}
    ensures InsertNodes(db, ns).fts == db.fts && InsertNodes(db, ns).triggers == {}
  {
    if |ns| > 0 { UntriggeredInserts(db, ns[..|ns|-1]); }
  }

  /** Without triggers the index is not written: a bulk load leaves it to the rebuild. */
  lemma {:induction false} UntriggeredLoadKeepsIndex(db: Db, bs: seq<ExtractionBatch>)
    requires db.triggers == {} && BulkTx(db, bs).Some?
    ensures BulkTx(db, bs).value.fts == db.fts && BulkTx(db, bs).value.triggers == {}
  {
    if |bs| > 0 {
      var init, b := bs[..|bs|-1], bs[|bs|-1];
      UntriggeredLoadKeepsIndex(db, init);
      var d := BulkTx(db, init).value;
      var e := DeleteNodesByFile(d, b.file.path);
      UntriggeredInserts(e.(refs := KeepRefs(e.refs, {b.file.path})), b.nodes);
      hide InsertNodes, KeepRefs, EdgesOk, RefsOk, Unchanged;
    }
  }
}
