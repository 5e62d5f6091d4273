/** The full index run: workers read and parse files, one writer bulk-loads them in
    chunks. What ends up in the store does not depend on the schedule. */
module IndexRun {
  import opened Graph
  import opened Seqs
  import opened Store
  import opened StoreInvariants
  import opened Pipeline

  const EXTRACTION_CHANNEL_DEPTH: nat := 64
  const FLUSH_BULK_SIZE: nat := 200

  /** A failed flush is counted and the run goes on; nothing is retried. */
  const CHANNEL: Config := Config(EXTRACTION_CHANNEL_DEPTH, FLUSH_BULK_SIZE, 0, false)

  datatype IndexCounts = IndexCounts(files: nat, nodes: nat, edges: nat, discovered: nat, storeErrors: nat)

  function NodesIn(bs: seq<ExtractionBatch>): nat
  {
    if |bs| == 0 then 0 else NodesIn(bs[..|bs|-1]) + |bs[|bs|-1].nodes|
  }

  function EdgesIn(bs: seq<ExtractionBatch>): seq<Edge>
  {
    if |bs| == 0 then [] else EdgesIn(bs[..|bs|-1]) + bs[|bs|-1].edges
  }

  function RefsIn(bs: seq<ExtractionBatch>): seq<UnresolvedRef>
  {
    if |bs| == 0 then [] else RefsIn(bs[..|bs|-1]) + bs[|bs|-1].refs
  }

  /** The store after the flushes of a log; a failed one is refused at its first write. */
  function FlushLog(db: Db, log: seq<Flush<ExtractionBatch>>): Db
  {
    if |log| == 0 then db
    else BulkInitEffect(FlushLog(db, log[..|log|-1]), log[|log|-1].batch, if log[|log|-1].ok then [] else [true]).db
  }

  /** The counters the writer accumulates, one flush after the other, from what each bulk
      load reports. */
  function Tally(db: Db, log: seq<Flush<ExtractionBatch>>, discovered: nat): IndexCounts
  {
    if |log| == 0 then IndexCounts(0, 0, 0, discovered, 0)
    else
      var c, f := Tally(db, log[..|log|-1], discovered), log[|log|-1];
      if f.ok then
        var s := StatsOf(FlushLog(db, log[..|log|-1]).(triggers := {}), f.batch);
        c.(files := c.files + s.filesWritten + s.filesSkipped, nodes := c.nodes + s.nodesInserted,
           edges := c.edges + s.edgesInserted)
      else c.(storeErrors := c.storeErrors + 1)
  }

  lemma {:induction false} NodesInConcat(a: seq<ExtractionBatch>, b: seq<ExtractionBatch>)
    ensures NodesIn(a + b) == NodesIn(a) + NodesIn(b) && EdgesIn(a + b) == EdgesIn(a) + EdgesIn(b)
  {
    if |b| == 0 {
      assert a + b == a;
    } else {
      NodesInConcat(a, b[..|b|-1]);
      assert (a + b)[..|a + b|-1] == a + b[..|b|-1];
    }
  }

  lemma {:induction false} RefsInConcat(a: seq<ExtractionBatch>, b: seq<ExtractionBatch>)
    ensures RefsIn(a + b) == RefsIn(a) + RefsIn(b)
  {
    if |b| == 0 {
      assert a + b == a;
    } else {
      RefsInConcat(a, b[..|b|-1]);
      assert (a + b)[..|a + b|-1] == a + b[..|b|-1];
    }
  }

  lemma {:induction false} TallyCountsLogged(db: Db, log: seq<Flush<ExtractionBatch>>, discovered: nat)
    ensures var c := Tally(db, log, discovered);
            c.files == |Logged(log, true)| && c.discovered == discovered && (c.storeErrors == 0 <==> AllOk(log))
  {
    hide FlushLog;
    if |log| > 0 {
      var init, f := log[..|log|-1], log[|log|-1];
      TallyCountsLogged(db, init, discovered);
      if AllOk(init) && f.ok {
        forall i | 0 <= i < |log| ensures log[i].ok { if i < |init| { assert init[i].ok; } }
      }
      if AllOk(log) {
        forall i | 0 <= i < |init| ensures init[i].ok { assert log[i].ok; }
      }
      if !f.ok { assert Logged(log, true) == Logged(init, true); }
    }
  }

  /** A completed schedule. `todo[w]` holds worker w's files, `None` for one that could
      not be read. */
  ghost predicate IndexRun(todo: seq<seq<Option<ExtractionBatch>>>, es: seq<Event>, t: State<ExtractionBatch>)
  {
    IsRun(CHANNEL, Init(todo), es, t) && Terminal(t)
  }

  /** Every discovered file is counted, was in a chunk that failed to persist, or could
      not be read; every parsed file is in exactly one flushed chunk; the writer never
      stops early. A run without store errors and unreadable files indexes everything. */
  lemma EveryFileIsAccountedFor(db: Db, todo: seq<seq<Option<ExtractionBatch>>>, es: seq<Event>, t: State<ExtractionBatch>)
    requires IndexRun(todo, es, t)
    ensures t.writer.Finished? && WellChunked(CHANNEL, t.log)
    ensures multiset(Flushed(t.log)) == Offered(todo)
    ensures var c := Tally(db, t.log, Pending(todo));
            && c.files + |Logged(t.log, false)| + t.skipped == c.discovered
            && (c.storeErrors == 0 && t.skipped == 0 ==> c.files == c.discovered)
            && (c.storeErrors > 0 ==> c.files < c.discovered)
  {
    CompletedRun(CHANNEL, todo, es, t);
    assert Flushed(t.log) + t.dropped == Flushed(t.log);
    TallyCountsLogged(db, t.log, Pending(todo));
    if AllOk(t.log) {
      AllOkLogsNothingElse(t.log);
    } else {
      FailedChunkIsLogged(CHANNEL, t.log);
    }
  }

  /** The writer flushes two hundred files at a time, all but the last time. */
  lemma FlushesTwoHundred(todo: seq<seq<Option<ExtractionBatch>>>, es: seq<Event>, t: State<ExtractionBatch>, k: nat)
    requires IndexRun(todo, es, t) && k < |t.log|
    ensures k < |t.log| - 1 ==> |t.log[k].batch| == 200
    ensures 0 < |t.log[k].batch| <= 200
  {
    CompletedRun(CHANNEL, todo, es, t);
    if k < |t.log| - 1 { assert t.log[..|t.log|-1][k] == t.log[k]; }
  }

  lemma {:induction false} LoggedGrows<T>(log: seq<Flush<T>>, k: nat, ok: bool)
    requires k < |log| && log[k].ok == ok
    ensures |Logged(log, ok)| >= |log[k].batch|
  {
    if k < |log| - 1 { LoggedGrows(log[..|log|-1], k, ok); }
  }

  lemma FailedChunkIsLogged<T>(c: Config, log: seq<Flush<T>>)
    requires c.Valid() && WellChunked(c, log) && !AllOk(log)
    ensures |Logged(log, false)| > 0
  {
    var k :| 0 <= k < |log| && !log[k].ok;
    if k < |log| - 1 { assert |log[..|log|-1][k].batch| == c.chunk; }
    LoggedGrows(log, k, false);
  }

  // ----- what the store holds afterwards ----------------------------------------------

  /** What extraction guarantees of one file, a closed batch of nodes of it, and what the
      store has to respect: an id of the batch is in use for this file only. */
  ghost predicate GoodBatch(db: Db, b: ExtractionBatch)
  {
    && Closed(b.nodes, b.edges, b.refs)
    && (forall n :: n in b.nodes ==> n.filePath == b.file.path)
    && (forall n :: n in b.nodes && n.id in db.nodes ==> db.nodes[n.id].node.filePath == b.file.path)
  }

  /** Two files share neither their path nor a node id, and no id is the other's path. */
  ghost predicate Apart(a: ExtractionBatch, b: ExtractionBatch)
  {
    && a.file.path != b.file.path && NodeIds(a.nodes) !! NodeIds(b.nodes)
    && a.file.path !in NodeIds(b.nodes) && b.file.path !in NodeIds(a.nodes)
  }

  predicate Empty(b: ExtractionBatch) { b.nodes == [] && b.edges == [] && b.refs == [] }

  /** All files that yield no tree yield the same empty batch. */
  ghost predicate Alongside(a: ExtractionBatch, b: ExtractionBatch) { Apart(a, b) || (a == b && Empty(a)) }

  ghost predicate Indexable(db: Db, bs: seq<ExtractionBatch>)
  {
    && (forall i :: 0 <= i < |bs| ==> GoodBatch(db, bs[i]))
    && (forall i, j :: 0 <= i < j < |bs| ==> Alongside(bs[i], bs[j]))
  }

  function Outdated(db: Db): ExtractionBatch -> bool
  {
    (b: ExtractionBatch) => !Unchanged(db, b)
  }

  /** The files the hash gate lets through. */
  function Stored(db: Db, bs: seq<ExtractionBatch>): seq<ExtractionBatch>
  {
    Filter(bs, Outdated(db))
  }

  function PathsIn(bs: seq<ExtractionBatch>): set<string> { set b | b in bs :: b.file.path }

  ghost predicate HasNode(bs: seq<ExtractionBatch>, id: string) { exists b :: b in bs && id in NodeIds(b.nodes) }

  /** The rows that storing the files takes out of the nodes table. */
  function OldIds(db: Db, bs: seq<ExtractionBatch>): set<string>
  {
    set id | id in db.nodes && db.nodes[id].node.filePath in PathsIn(bs)
  }

  ghost predicate NodesLoaded(db: Db, bs: seq<ExtractionBatch>, d: Db)
  {
    && (forall b, id :: b in bs && id in NodeIds(b.nodes) ==> Lookup(d, id) == LastWith(b.nodes, id))
    && (forall id :: !HasNode(bs, id) ==> Lookup(d, id) == if id in OldIds(db, bs) then None else Lookup(db, id))
  }

  ghost predicate FilesLoaded(db: Db, bs: seq<ExtractionBatch>, d: Db)
  {
    && (forall b :: b in bs ==> b.file.path in d.files && d.files[b.file.path] == b.file.(nodeCount := |b.nodes|))
    && (forall p :: p !in PathsIn(bs) ==> (p in d.files <==> p in db.files) && (p in db.files ==> d.files[p] == db.files[p]))
  }

  ghost predicate RowsLoaded(db: Db, bs: seq<ExtractionBatch>, d: Db)
  {
    && d.edges == KeepEdges(db.edges, OldIds(db, bs)) + EdgesIn(bs)
    && d.refs == KeepRefs(db.refs, PathsIn(bs) + OldIds(db, bs)) + Numbered(RefsIn(bs), db.nextRef)
    && d.nextRef == db.nextRef + |RefsIn(bs)|
  }

  /** `d` is `db` with the files `bs` in place of what it held of them. */
  ghost predicate Loaded(db: Db, bs: seq<ExtractionBatch>, d: Db)
  {
    WellFormed(d) && NodesLoaded(db, bs, d) && FilesLoaded(db, bs, d) && RowsLoaded(db, bs, d)
  }

  lemma NothingLoaded(db: Db)
    requires WellFormed(db)
    ensures Loaded(db, [], db)
  {
    FilterAll(db.edges, Detached({}));
    FilterAll(db.refs, NotFrom({}));
    assert OldIds(db, []) == {} && PathsIn([]) + OldIds(db, []) == {};
  }

  /** Dropping, creating and rebuilding the index leaves what is loaded. */
  lemma IndexIsFree(db: Db, bs: seq<ExtractionBatch>, d: Db, fts: set<(nat, FtsDoc)>, triggers: set<Trigger>)
    requires Loaded(db, bs, d) && forall p :: p in fts ==> p.0 < d.nextRowid
    ensures Loaded(db, bs, d.(fts := fts, triggers := triggers))
  {
    var e := d.(fts := fts, triggers := triggers);
    SameRows(d, e);
    SameNodes(db, bs, d, e);
    SameFiles(db, bs, d, e);
    hide WellFormed, NodesLoaded, FilesLoaded, KeepEdges, KeepRefs, EdgesIn, RefsIn, Numbered, PathsIn, OldIds;
  }

  lemma SameNodes(db: Db, bs: seq<ExtractionBatch>, d: Db, e: Db)
    requires NodesLoaded(db, bs, d) && e.nodes == d.nodes
    ensures NodesLoaded(db, bs, e)
  {
    assert forall id :: Lookup(e, id) == Lookup(d, id);
    hide Lookup, LastWith, HasNode, OldIds;
  }

  lemma SameFiles(db: Db, bs: seq<ExtractionBatch>, d: Db, e: Db)
    requires FilesLoaded(db, bs, d) && e.files == d.files
    ensures FilesLoaded(db, bs, e)
  {
  }

  lemma SameRows(d: Db, e: Db)
    requires WellFormed(d) && e == d.(fts := e.fts, triggers := e.triggers)
    requires forall p :: p in e.fts ==> p.0 < d.nextRowid
    ensures WellFormed(e)
  {
  }

  // ----- storing one more file ----------------------------------------------------------

  /** The file was not touched by storing other files. */
  lemma OthersLeaveFile(db: Db, bs: seq<ExtractionBatch>, d: Db, b: ExtractionBatch)
    requires NodesLoaded(db, bs, d) && FilesLoaded(db, bs, d)
    requires forall x :: x in bs ==> GoodBatch(db, x) && Apart(x, b)
    ensures IdsOfFile(d, b.file.path) == IdsOfFile(db, b.file.path)
    ensures Unchanged(d, b) <==> Unchanged(db, b)
  {
    assert b.file.path !in PathsIn(bs);
    forall id ensures id in IdsOfFile(d, b.file.path) <==> id in IdsOfFile(db, b.file.path) {
      if HasNode(bs, id) {
        var x :| x in bs && id in NodeIds(x.nodes);
        LastIsOfList(x.nodes, id);
        assert GoodBatch(db, x) && Apart(x, b) && Lookup(d, id) == LastWith(x.nodes, id);
      } else {
        assert Lookup(d, id) == if id in OldIds(db, bs) then None else Lookup(db, id);
      }
    }
  }

  lemma {:induction false} LastIsOfList(ns: seq<Node>, id: string)
    requires id in NodeIds(ns)
    ensures LastWith(ns, id).Some? && LastWith(ns, id).value in ns && LastWith(ns, id).value.id == id
  {
    var init, n := ns[..|ns|-1], ns[|ns|-1];
    assert ns == init + [n];
    if n.id != id {
      var m :| m in ns && m.id == id;
      assert m in init;
      LastIsOfList(init, id);
    }
  }

  lemma OneMoreNodes(db: Db, bs: seq<ExtractionBatch>, d: Db, b: ExtractionBatch, e: Db)
    requires NodesLoaded(db, bs, d) && GoodBatch(db, b) && forall x :: x in bs ==> GoodBatch(db, x) && Apart(x, b)
    requires forall id :: Lookup(e, id) == if id in NodeIds(b.nodes) then LastWith(b.nodes, id)
                                           else if id in IdsOfFile(db, b.file.path) then None else Lookup(d, id)
    ensures NodesLoaded(db, bs + [b], e)
  {
    var all := bs + [b];
    assert PathsIn(all) == PathsIn(bs) + {b.file.path};
    hide LastWith, Lookup;
    forall x, id | x in all && id in NodeIds(x.nodes) ensures Lookup(e, id) == LastWith(x.nodes, id) {
      if x in bs {
        assert GoodBatch(db, x) && Apart(x, b) && Lookup(d, id) == LastWith(x.nodes, id);
      }
    }
    forall id | !HasNode(all, id)
      ensures Lookup(e, id) == if id in OldIds(db, all) then None else Lookup(db, id)
    {
      assert b in all && !HasNode(bs, id);
    }
  }

  lemma OneMoreFile(db: Db, bs: seq<ExtractionBatch>, d: Db, b: ExtractionBatch, e: Db)
    requires FilesLoaded(db, bs, d) && forall x :: x in bs ==> Apart(x, b)
    requires e.files == d.files[b.file.path := b.file.(nodeCount := |b.nodes|)]
    ensures FilesLoaded(db, bs + [b], e)
  {
    var all := bs + [b];
    assert PathsIn(all) == PathsIn(bs) + {b.file.path};
    forall x | x in all ensures x.file.path in e.files && e.files[x.file.path] == x.file.(nodeCount := |x.nodes|) {
      if x in bs { assert Apart(x, b); }
    }
  }

  /** The ids that storing the file deletes, seen from the store at the start. */
  lemma OldIdsGrow(db: Db, bs: seq<ExtractionBatch>, b: ExtractionBatch, id: string)
    requires GoodBatch(db, b) && id in db.nodes
    ensures id in OldIds(db, bs + [b]) <==> id in OldIds(db, bs) || id in IdsOfFile(db, b.file.path) + NodeIds(b.nodes)
  {
    assert PathsIn(bs + [b]) == PathsIn(bs) + {b.file.path};
  }

  lemma {:induction false} EdgesStayInside(db: Db, bs: seq<ExtractionBatch>)
    requires forall x :: x in bs ==> GoodBatch(db, x)
    ensures forall e :: e in EdgesIn(bs) ==> HasNode(bs, e.source) && HasNode(bs, e.target)
    ensures forall r :: r in RefsIn(bs) ==> HasNode(bs, r.fromNode)
  {
    if |bs| > 0 {
      var init, b := bs[..|bs|-1], bs[|bs|-1];
      EdgesStayInside(db, init);
      assert b in bs && GoodBatch(db, b);
      assert forall id :: HasNode(init, id) || id in NodeIds(b.nodes) ==> HasNode(bs, id);
      hide NodeIds, HasNode;
    }
  }

  /** What the files loaded before brought in is not touched. */
  lemma Spared(db: Db, bs: seq<ExtractionBatch>, b: ExtractionBatch, id: string)
    requires HasNode(bs, id) && forall x :: x in bs ==> GoodBatch(db, x) && Apart(x, b)
    ensures id !in IdsOfFile(db, b.file.path) + NodeIds(b.nodes) + {b.file.path}
  {
    var x :| x in bs && id in NodeIds(x.nodes);
    assert GoodBatch(db, x) && Apart(x, b);
  }

  lemma OneMoreEdges(db: Db, bs: seq<ExtractionBatch>, b: ExtractionBatch)
    requires EdgesOk(db, db.edges) && GoodBatch(db, b) && forall x :: x in bs ==> GoodBatch(db, x) && Apart(x, b)
    ensures KeepEdges(KeepEdges(db.edges, OldIds(db, bs)) + EdgesIn(bs), IdsOfFile(db, b.file.path) + NodeIds(b.nodes))
            == KeepEdges(db.edges, OldIds(db, bs + [b])) + EdgesIn(bs)
  {
    var gone := IdsOfFile(db, b.file.path) + NodeIds(b.nodes);
    FilterConcat(KeepEdges(db.edges, OldIds(db, bs)), EdgesIn(bs), Detached(gone));
    EdgesStayInside(db, bs);
    forall e | e in EdgesIn(bs) ensures Detached(gone)(e) { Spared(db, bs, b, e.source); Spared(db, bs, b, e.target); }
    FilterAll(EdgesIn(bs), Detached(gone));
    forall e | e in db.edges
      ensures Detached(OldIds(db, bs + [b]))(e) <==> Detached(OldIds(db, bs))(e) && Detached(gone)(e)
    {
      OldIdsGrow(db, bs, b, e.source);
      OldIdsGrow(db, bs, b, e.target);
    }
    FilterTwice(db.edges, Detached(OldIds(db, bs)), Detached(gone), Detached(OldIds(db, bs + [b])));
  }

  /** Where the references are deleted from: the path itself and the ids that go. */
  function Cleared(db: Db, b: ExtractionBatch): set<string>
  {
    {b.file.path} + (IdsOfFile(db, b.file.path) + NodeIds(b.nodes))
  }

  lemma AddedRefsStay(db: Db, bs: seq<ExtractionBatch>, b: ExtractionBatch)
    requires forall x :: x in bs ==> GoodBatch(db, x) && Apart(x, b)
    ensures KeepRefs(Numbered(RefsIn(bs), db.nextRef), Cleared(db, b)) == Numbered(RefsIn(bs), db.nextRef)
  {
    var added := Numbered(RefsIn(bs), db.nextRef);
    EdgesStayInside(db, bs);
    forall r | r in added ensures NotFrom(Cleared(db, b))(r) {
      var i :| 0 <= i < |added| && added[i] == r;
      assert RefsIn(bs)[i] in RefsIn(bs);
      Spared(db, bs, b, r.fromNode);
    }
    FilterAll(added, NotFrom(Cleared(db, b)));
  }

  lemma OldRefsGo(db: Db, bs: seq<ExtractionBatch>, b: ExtractionBatch)
    requires RefsOk(db, db.refs) && GoodBatch(db, b)
    ensures KeepRefs(KeepRefs(db.refs, PathsIn(bs) + OldIds(db, bs)), Cleared(db, b))
            == KeepRefs(db.refs, PathsIn(bs + [b]) + OldIds(db, bs + [b]))
  {
    var all, before := bs + [b], PathsIn(bs) + OldIds(db, bs);
    assert PathsIn(all) == PathsIn(bs) + {b.file.path};
    forall r | r in db.refs
      ensures NotFrom(PathsIn(all) + OldIds(db, all))(r) <==> NotFrom(before)(r) && NotFrom(Cleared(db, b))(r)
    {
      OldIdsGrow(db, bs, b, r.fromNode);
      hide OldIds, PathsIn, IdsOfFile, NodeIds;
    }
    FilterTwice(db.refs, NotFrom(before), NotFrom(Cleared(db, b)), NotFrom(PathsIn(all) + OldIds(db, all)));
  }

  lemma OneMoreRefs(db: Db, bs: seq<ExtractionBatch>, b: ExtractionBatch, refs: seq<UnresolvedRef>)
    requires RefsOk(db, db.refs) && GoodBatch(db, b) && forall x :: x in bs ==> GoodBatch(db, x) && Apart(x, b)
    requires refs == KeepRefs(db.refs, PathsIn(bs) + OldIds(db, bs)) + Numbered(RefsIn(bs), db.nextRef)
    ensures KeepRefs(KeepRefs(refs, {b.file.path}), IdsOfFile(db, b.file.path) + NodeIds(b.nodes))
            == KeepRefs(db.refs, PathsIn(bs + [b]) + OldIds(db, bs + [b])) + Numbered(RefsIn(bs), db.nextRef)
  {
    AddedRefsStay(db, bs, b);
    OldRefsGo(db, bs, b);
    hide GoodBatch, Apart, Numbered, PathsIn, OldIds, RefsOk, IdsOfFile, NodeIds;
    KeepTwice([], refs, {b.file.path}, IdsOfFile(db, b.file.path) + NodeIds(b.nodes));
    FilterConcat(KeepRefs(db.refs, PathsIn(bs) + OldIds(db, bs)), Numbered(RefsIn(bs), db.nextRef), NotFrom(Cleared(db, b)));
  }

  lemma NumberedSplits(a: seq<UnresolvedRef>, b: seq<UnresolvedRef>, first: int)
    ensures Numbered(a + b, first) == Numbered(a, first) + Numbered(b, first + |a|)
  {
  }

  lemma EdgesInAppend(bs: seq<ExtractionBatch>, b: ExtractionBatch)
    ensures EdgesIn(bs + [b]) == EdgesIn(bs) + b.edges && RefsIn(bs + [b]) == RefsIn(bs) + b.refs
  {
    assert (bs + [b])[..|bs + [b]|-1] == bs;
  }

  lemma OneMoreRows(db: Db, bs: seq<ExtractionBatch>, d: Db, b: ExtractionBatch, e: Db)
    requires EdgesOk(db, db.edges) && RefsOk(db, db.refs) && RowsLoaded(db, bs, d)
    requires GoodBatch(db, b) && forall x :: x in bs ==> GoodBatch(db, x) && Apart(x, b)
    requires var gone := IdsOfFile(db, b.file.path) + NodeIds(b.nodes);
             && e.edges == KeepEdges(d.edges, gone) + b.edges
             && e.refs == KeepRefs(KeepRefs(d.refs, {b.file.path}), gone) + Numbered(b.refs, d.nextRef)
             && e.nextRef == d.nextRef + |b.refs|
    ensures RowsLoaded(db, bs + [b], e)
  {
    hide KeepEdges, KeepRefs, OldIds, PathsIn, IdsOfFile, NodeIds, GoodBatch, Apart, EdgesIn, RefsIn, EdgesOk,
      RefsOk, Numbered;
    OneMoreEdges(db, bs, b);
    OneMoreRefs(db, bs, b, d.refs);
    EdgesInAppend(bs, b);
    NumberedSplits(RefsIn(bs), b.refs, db.nextRef);
    Regroup(KeepEdges(db.edges, OldIds(db, bs + [b])), EdgesIn(bs), b.edges);
    Regroup(KeepRefs(db.refs, PathsIn(bs + [b]) + OldIds(db, bs + [b])), Numbered(RefsIn(bs), db.nextRef),
            Numbered(b.refs, d.nextRef));
  }

  /** Loading one more file replaces exactly it. */
  lemma StoreOneMore(db: Db, bs: seq<ExtractionBatch>, d: Db, b: ExtractionBatch)
    requires WellFormed(db) && Loaded(db, bs, d) && GoodBatch(db, b)
    requires forall x :: x in bs ==> GoodBatch(db, x) && Apart(x, b)
    ensures Unchanged(d, b) <==> Unchanged(db, b)
    ensures StoreTx(d, b, true).Some? && Loaded(db, bs + [b], StoreTx(d, b, true).value)
  {
    assert Closed(b.nodes, b.edges, b.refs) && EdgesOk(db, db.edges) && RefsOk(db, db.refs);
    OthersLeaveFile(db, bs, d, b);
    hide WellFormed, NodesLoaded, FilesLoaded, RowsLoaded, GoodBatch, Apart, StoreTx, Closed, Unchanged, IdsOfFile,
      EdgesOk, RefsOk, KeepEdges, KeepRefs, Numbered, LastWith, Lookup, NodeIds;
    ClosedBatchStores(d, b, true);
    StoreTxWellFormed(d, b, true);
    StoreReplacesFile(d, b);
    var e := StoreTx(d, b, true).value;
    OneMoreNodes(db, bs, d, b, e);
    OneMoreFile(db, bs, d, b, e);
    OneMoreRows(db, bs, d, b, e);
  }

  // ----- whole runs -----------------------------------------------------------------------

  lemma IndexablePrefix(db: Db, bs: seq<ExtractionBatch>, more: seq<ExtractionBatch>)
    requires Indexable(db, bs + more)
    ensures Indexable(db, bs) && Indexable(db, more)
    ensures forall x, y :: x in bs && y in more ==> Alongside(x, y)
  {
    var all := bs + more;
    forall i | 0 <= i < |bs| ensures GoodBatch(db, bs[i]) { assert all[i] == bs[i]; }
    forall i | 0 <= i < |more| ensures GoodBatch(db, more[i]) { assert all[|bs| + i] == more[i]; }
    forall i, j | 0 <= i < j < |bs| ensures Alongside(bs[i], bs[j]) { assert Alongside(all[i], all[j]); }
    forall i, j | 0 <= i < j < |more| ensures Alongside(more[i], more[j]) { assert Alongside(all[|bs| + i], all[|bs| + j]); }
    forall x, y | x in bs && y in more ensures Alongside(x, y) {
      var i :| 0 <= i < |bs| && bs[i] == x;
      var j :| 0 <= j < |more| && more[j] == y;
      assert Alongside(all[i], all[|bs| + j]);
    }
  }

  lemma IndexableLast(db: Db, bs: seq<ExtractionBatch>, b: ExtractionBatch)
    ensures Indexable(db, bs + [b]) <==> Indexable(db, bs) && GoodBatch(db, b) && forall x :: x in bs ==> GoodBatch(db, x) && Alongside(x, b)
  {
    var all := bs + [b];
    if Indexable(db, all) {
      IndexablePrefix(db, bs, [b]);
      assert GoodBatch(db, all[|bs|]) && b in [b];
      forall x | x in bs ensures GoodBatch(db, x) && Alongside(x, b) {
        var i :| 0 <= i < |bs| && bs[i] == x;
        assert GoodBatch(db, bs[i]);
      }
    }
    if Indexable(db, bs) && GoodBatch(db, b) && forall x :: x in bs ==> GoodBatch(db, x) && Alongside(x, b) {
      forall i | 0 <= i < |all| ensures GoodBatch(db, all[i]) { if i < |bs| { assert GoodBatch(db, bs[i]); } }
      forall i, j | 0 <= i < j < |all| ensures Alongside(all[i], all[j]) {
        if j < |bs| { assert Alongside(bs[i], bs[j]); } else { assert bs[i] in bs; }
      }
    }
  }

  lemma IndexableInsert(db: Db, l: seq<ExtractionBatch>, b: ExtractionBatch, r: seq<ExtractionBatch>)
    requires Indexable(db, l + r) && GoodBatch(db, b) && forall x :: x in l + r ==> Alongside(x, b)
    ensures Indexable(db, l + [b] + r)
  {
    var all, rest := l + [b] + r, l + r;
    forall i | 0 <= i < |all| ensures GoodBatch(db, all[i]) {
      if i != |l| { assert all[i] == rest[if i < |l| then i else i - 1]; }
    }
    forall i, j | 0 <= i < j < |all| ensures Alongside(all[i], all[j]) {
      var i', j' := if i < |l| then i else i - 1, if j < |l| then j else j - 1;
      if j == |l| {
        assert rest[i] in rest;
      } else if i == |l| {
        assert rest[j'] in rest && Alongside(rest[j'], b);
      } else {
        assert Alongside(rest[i'], rest[j']);
      }
    }
  }

  /** Being indexable does not depend on the order of the files. */
  lemma {:induction false} IndexablePermutes(db: Db, a: seq<ExtractionBatch>, b: seq<ExtractionBatch>)
    requires multiset(a) == multiset(b) && Indexable(db, a)
    ensures Indexable(db, b)
    decreases |a|
  {
    if |a| == 0 {
      assert |multiset(b)| == 0;
    } else {
      var init, x := a[..|a|-1], a[|a|-1];
      assert a == init + [x];
      IndexableLast(db, init, x);
      var l, r := TakeOut(a, b);
      IndexablePermutes(db, init, l + r);
      forall y | y in l + r ensures Alongside(y, x) { assert y in multiset(l + r); assert y in init; }
      IndexableInsert(db, l, x, r);
    }
  }

  lemma StoredLast(db: Db, bs: seq<ExtractionBatch>, b: ExtractionBatch)
    ensures Stored(db, bs + [b]) == if Unchanged(db, b) then Stored(db, bs) else Stored(db, bs) + [b]
  {
    FilterAppend(bs, b, Outdated(db));
    assert Stored(db, bs) + [] == Stored(db, bs);
  }

  lemma StoredAreListed(db: Db, bs: seq<ExtractionBatch>)
    ensures forall x :: x in Stored(db, bs) ==> x in bs
  {
    forall x | x in Stored(db, bs) ensures x in bs { FilterMember(bs, Outdated(db), x); }
  }

  /** Loading an empty batch again leaves everything loaded. */
  lemma EmptyAgain(db: Db, bs: seq<ExtractionBatch>, d: Db, b: ExtractionBatch)
    requires Loaded(db, bs, d) && b in bs && Empty(b)
    ensures Unchanged(d, b) && Loaded(db, bs + [b], d)
  {
    var all := bs + [b];
    assert forall x :: x in all <==> x in bs;
    assert PathsIn(all) == PathsIn(bs) && OldIds(db, all) == OldIds(db, bs);
    hide WellFormed, NodesLoaded, RowsLoaded, PathsIn, OldIds;
    SameNodesLoaded(db, bs, all, d);
    SameRowsLoaded(db, bs, d, b);
  }

  lemma SameNodesLoaded(db: Db, bs: seq<ExtractionBatch>, all: seq<ExtractionBatch>, d: Db)
    requires NodesLoaded(db, bs, d) && OldIds(db, all) == OldIds(db, bs) && forall x :: x in all <==> x in bs
    ensures NodesLoaded(db, all, d)
  {
    hide OldIds, Lookup, LastWith, NodeIds;
    forall id ensures HasNode(all, id) <==> HasNode(bs, id) {}
  }

  lemma SameRowsLoaded(db: Db, bs: seq<ExtractionBatch>, d: Db, b: ExtractionBatch)
    requires RowsLoaded(db, bs, d) && Empty(b) && PathsIn(bs + [b]) == PathsIn(bs) && OldIds(db, bs + [b]) == OldIds(db, bs)
    ensures RowsLoaded(db, bs + [b], d)
  {
    EdgesInAppend(bs, b);
    hide PathsIn, OldIds, KeepEdges, KeepRefs, Numbered, EdgesIn, RefsIn;
    assert EdgesIn(bs) + [] == EdgesIn(bs) && RefsIn(bs) + [] == RefsIn(bs);
  }

  /** One more file of a bulk load is skipped or loaded. */
  lemma LoadOneMore(db: Db, bs: seq<ExtractionBatch>, d: Db, b: ExtractionBatch)
    requires WellFormed(db) && Loaded(db, Stored(db, bs), d) && Indexable(db, bs + [b])
    ensures Unchanged(d, b) <==> Unchanged(db, b) || b in Stored(db, bs)
    ensures b in Stored(db, bs) ==> Empty(b)
    ensures Unchanged(d, b) ==> Loaded(db, Stored(db, bs + [b]), d)
    ensures !Unchanged(d, b) ==> StoreTx(d, b, true).Some? && Loaded(db, Stored(db, bs + [b]), StoreTx(d, b, true).value)
  {
    hide WellFormed, Loaded, GoodBatch, Apart, Empty, StoreTx, Unchanged, Indexable, Stored;
    IndexableLast(db, bs, b);
    StoredLast(db, bs, b);
    StoredAreListed(db, bs);
    if b in Stored(db, bs) {
      NotApartFromItself(b);
      EmptyAgain(db, Stored(db, bs), d, b);
    } else {
      StoreOneMore(db, Stored(db, bs), d, b);
    }
  }

  lemma NotApartFromItself(b: ExtractionBatch)
    ensures !Apart(b, b)
  {
  }

  /** The statistics account for the nodes and edges that came to the files loaded. */
  predicate Counted(before: seq<ExtractionBatch>, s: BulkStats, after: seq<ExtractionBatch>)
  {
    NodesIn(before) + s.nodesInserted == NodesIn(after) && |EdgesIn(before)| + s.edgesInserted == |EdgesIn(after)|
  }

  /** A chunk of a bulk load adds the files of the chunk that the hash gate lets through,
      and reports what they hold. */
  lemma {:induction false} BulkTxLoads(db: Db, bs: seq<ExtractionBatch>, d: Db, chunk: seq<ExtractionBatch>)
    requires WellFormed(db) && Loaded(db, Stored(db, bs), d) && Indexable(db, bs + chunk)
    ensures BulkTx(d, chunk).Some? && Loaded(db, Stored(db, bs + chunk), BulkTx(d, chunk).value)
    ensures Counted(Stored(db, bs), StatsOf(d, chunk), Stored(db, bs + chunk))
  {
    hide WellFormed, Loaded, GoodBatch, Apart, Empty, StoreTx, Unchanged, Indexable, Stored, WithoutOrphans, NodeIds;
    if |chunk| == 0 {
      assert bs + chunk == bs;
    } else {
      var init, b := chunk[..|chunk|-1], chunk[|chunk|-1];
      assert bs + chunk == (bs + init) + [b];
      IndexableLast(db, bs + init, b);
      BulkTxLoads(db, bs, d, init);
      LoadOneMore(db, bs + init, BulkTx(d, init).value, b);
      CountOneMore(db, bs + init, BulkTx(d, init).value, b);
    }
  }

  lemma CountOneMore(db: Db, bs: seq<ExtractionBatch>, d: Db, b: ExtractionBatch)
    requires GoodBatch(db, b) && (Unchanged(d, b) <==> Unchanged(db, b) || b in Stored(db, bs))
    requires b in Stored(db, bs) ==> Empty(b)
    ensures var before, after := Stored(db, bs), Stored(db, bs + [b]);
            && NodesIn(after) == NodesIn(before) + (if Unchanged(d, b) then 0 else |b.nodes|)
            && |EdgesIn(after)|
               == |EdgesIn(before)| + (if Unchanged(d, b) then 0 else |WithoutOrphans(b.edges, NodeIds(b.nodes))|)
  {
    StoredLast(db, bs, b);
    NodesInAppend(Stored(db, bs), b);
    EdgesInAppend(Stored(db, bs), b);
    FilterAll(b.edges, Within(NodeIds(b.nodes)));
    hide Stored, Unchanged, EdgesIn, NodesIn;
  }

  lemma NodesInAppend(bs: seq<ExtractionBatch>, b: ExtractionBatch)
    ensures NodesIn(bs + [b]) == NodesIn(bs) + |b.nodes|
  {
    assert (bs + [b])[..|bs + [b]|-1] == bs;
  }

  lemma FlushLoads(db: Db, bs: seq<ExtractionBatch>, d: Db, chunk: seq<ExtractionBatch>)
    requires WellFormed(db) && Loaded(db, Stored(db, bs), d) && Indexable(db, bs + chunk)
    ensures Loaded(db, Stored(db, bs + chunk), BulkInitEffect(d, chunk, []).db)
    ensures Counted(Stored(db, bs), StatsOf(d.(triggers := {}), chunk), Stored(db, bs + chunk))
  {
    if |chunk| == 0 {
      assert bs + chunk == bs;
    } else {
      var bare := d.(triggers := {});
      IndexIsFree(db, Stored(db, bs), d, d.fts, {});
      BulkTxLoads(db, bs, bare, chunk);
      var e := BulkTx(bare, chunk).value;
      IndexIsFree(db, Stored(db, bs + chunk), e, FtsOf(e.nodes), ALL_TRIGGERS);
      BulkTxWithoutTriggers(bare, chunk);
      UnlockedLoad(d, chunk);
      hide Loaded, BulkTx, BulkInitEffect, FtsOf, Stored;
    }
  }

  lemma UnlockedLoad(d: Db, chunk: seq<ExtractionBatch>)
    requires |chunk| > 0 && BulkTx(d.(triggers := {}), chunk).Some?
    ensures var e := BulkTx(d.(triggers := {}), chunk).value;
            BulkInitEffect(d, chunk, []).db == e.(fts := FtsOf(e.nodes), triggers := ALL_TRIGGERS)
  {
    assert DropTriggers(d.triggers, []).locks == [];
    AllDropped(d.triggers, []);
    assert d.(triggers := DropTriggers(d.triggers, []).triggers) == d.(triggers := {});
    AllCreated(BulkTx(d.(triggers := {}), chunk).value.triggers, []);
    hide BulkTx, FtsOf;
  }

  lemma {:induction false} FlushLogLoads(db: Db, log: seq<Flush<ExtractionBatch>>, discovered: nat)
    requires WellFormed(db) && AllOk(log) && Indexable(db, Flushed(log))
    ensures Loaded(db, Stored(db, Flushed(log)), FlushLog(db, log))
    ensures var c, bs := Tally(db, log, discovered), Stored(db, Flushed(log));
            c.nodes == NodesIn(bs) && c.edges == |EdgesIn(bs)|
  {
    hide WellFormed, Loaded, Indexable, StatsOf, BulkInitEffect;
    if |log| == 0 {
      NothingLoaded(db);
    } else {
      var init, f := log[..|log|-1], log[|log|-1];
      IndexablePrefix(db, Flushed(init), f.batch);
      FlushLogLoads(db, init, discovered);
      FlushLoads(db, Flushed(init), FlushLog(db, init), f.batch);
    }
  }

  lemma {:induction false} RowsPermute(a: seq<ExtractionBatch>, b: seq<ExtractionBatch>)
    requires multiset(a) == multiset(b)
    ensures multiset(EdgesIn(a)) == multiset(EdgesIn(b)) && multiset(RefsIn(a)) == multiset(RefsIn(b))
    ensures NodesIn(a) == NodesIn(b)
    decreases |a|
  {
    if |a| == 0 {
      assert |multiset(b)| == 0;
    } else {
      var init, x := a[..|a|-1], a[|a|-1];
      var l, r := TakeOut(a, b);
      RowsPermute(init, l + r);
      NodesInConcat(l, r);
      NodesInConcat(l + [x], r);
      RefsInConcat(l, r);
      RefsInConcat(l + [x], r);
      EdgesInAppend(l, x);
      NodesInAppend(l, x);
    }
  }

  /** References without the numbers the table gave them. */
  function Unnumbered(refs: seq<UnresolvedRef>): seq<UnresolvedRef>
  {
    seq(|refs|, i requires 0 <= i < |refs| => refs[i].(id := 0))
  }

  /** Same nodes, same edges and references up to order and row ids, same file records. */
  ghost predicate SameGraph(a: Db, b: Db)
  {
    && (forall id :: Lookup(a, id) == Lookup(b, id))
    && multiset(a.edges) == multiset(b.edges) && multiset(Unnumbered(a.refs)) == multiset(Unnumbered(b.refs))
    && a.files == b.files
  }

  lemma {:induction false} UnnumberedPermutes(a: seq<UnresolvedRef>, b: seq<UnresolvedRef>)
    requires multiset(a) == multiset(b)
    ensures multiset(Unnumbered(a)) == multiset(Unnumbered(b))
    decreases |a|
  {
    if |a| == 0 {
      assert |multiset(b)| == 0;
    } else {
      var init, x := a[..|a|-1], a[|a|-1];
      var l, r := TakeOut(a, b);
      UnnumberedPermutes(init, l + r);
      assert Unnumbered(a) == Unnumbered(init) + [x.(id := 0)];
      assert Unnumbered(l + r) == Unnumbered(l) + Unnumbered(r);
      assert Unnumbered(b) == Unnumbered(l) + [x.(id := 0)] + Unnumbered(r);
    }
  }

  lemma LoadedSameNodes(db: Db, bs: seq<ExtractionBatch>, d: Db, bs': seq<ExtractionBatch>, d': Db)
    requires NodesLoaded(db, bs, d) && NodesLoaded(db, bs', d') && forall x :: x in bs <==> x in bs'
    ensures forall id :: Lookup(d, id) == Lookup(d', id)
  {
    assert OldIds(db, bs) == OldIds(db, bs');
    forall id ensures Lookup(d, id) == Lookup(d', id) {
      if HasNode(bs, id) {
        var b :| b in bs && id in NodeIds(b.nodes);
        assert Lookup(d, id) == LastWith(b.nodes, id) && Lookup(d', id) == LastWith(b.nodes, id);
      } else {
        assert !HasNode(bs', id);
      }
    }
  }

  lemma LoadedSameFiles(db: Db, bs: seq<ExtractionBatch>, d: Db, bs': seq<ExtractionBatch>, d': Db)
    requires FilesLoaded(db, bs, d) && FilesLoaded(db, bs', d') && forall x :: x in bs <==> x in bs'
    ensures d.files == d'.files
  {
    assert PathsIn(bs) == PathsIn(bs');
    forall p ensures (p in d.files <==> p in d'.files) && (p in d.files ==> d.files[p] == d'.files[p]) {
      if p in PathsIn(bs) {
        var b :| b in bs && b.file.path == p;
        assert b in bs';
      }
    }
  }

  lemma AddedRows(kept: seq<UnresolvedRef>, added: seq<UnresolvedRef>, first: int)
    ensures Unnumbered(kept + Numbered(added, first)) == Unnumbered(kept) + Unnumbered(added)
  {
  }

  lemma LoadedSameRows(db: Db, bs: seq<ExtractionBatch>, d: Db, bs': seq<ExtractionBatch>, d': Db)
    requires RowsLoaded(db, bs, d) && RowsLoaded(db, bs', d') && multiset(bs) == multiset(bs')
    ensures multiset(d.edges) == multiset(d'.edges) && multiset(Unnumbered(d.refs)) == multiset(Unnumbered(d'.refs))
  {
    forall x ensures x in bs <==> x in bs' { assert x in multiset(bs) <==> x in multiset(bs'); }
    assert PathsIn(bs) == PathsIn(bs') && OldIds(db, bs) == OldIds(db, bs');
    RowsPermute(bs, bs');
    var kept := KeepRefs(db.refs, PathsIn(bs) + OldIds(db, bs));
    AddedRows(kept, RefsIn(bs), db.nextRef);
    AddedRows(kept, RefsIn(bs'), db.nextRef);
    UnnumberedPermutes(RefsIn(bs), RefsIn(bs'));
  }

  /** Two error-free runs over the same files, over any store and with any two schedules
      and splits of the files over workers, leave the same graph: the store as it was, with
      every file whose hash or node count differs replaced by what was extracted. They
      report the same counts: all files, and the nodes and edges of the replaced ones. */
  lemma IndexIsScheduleIndependent(
      db: Db, files: seq<ExtractionBatch>,
      todo: seq<seq<Option<ExtractionBatch>>>, es: seq<Event>, t: State<ExtractionBatch>,
      todo': seq<seq<Option<ExtractionBatch>>>, es': seq<Event>, t': State<ExtractionBatch>)
    requires WellFormed(db) && Indexable(db, files)
    requires IndexRun(todo, es, t) && AllOk(t.log) && Offered(todo) == multiset(files)
    requires IndexRun(todo', es', t') && AllOk(t'.log) && Offered(todo') == multiset(files)
    ensures SameGraph(FlushLog(db, t.log), FlushLog(db, t'.log))
    ensures Loaded(db, Stored(db, Flushed(t.log)), FlushLog(db, t.log))
    ensures SameCounts(Tally(db, t.log, Pending(todo)), Tally(db, t'.log, Pending(todo')))
    ensures var c := Tally(db, t.log, Pending(todo));
            c.nodes == NodesIn(Stored(db, Flushed(t.log))) && c.edges == |EdgesIn(Stored(db, Flushed(t.log)))|
  {
    EveryFileIsAccountedFor(db, todo, es, t);
    EveryFileIsAccountedFor(db, todo', es', t');
    SameFilesSameGraph(db, files, t.log, t'.log);
    SameFilesSameCounts(db, files, t.log, t'.log, Pending(todo), Pending(todo'));
  }

  lemma SameFilesSameCounts(db: Db, files: seq<ExtractionBatch>, log: seq<Flush<ExtractionBatch>>, log': seq<Flush<ExtractionBatch>>,
                            discovered: nat, discovered': nat)
    requires WellFormed(db) && Indexable(db, files) && AllOk(log) && AllOk(log')
    requires multiset(Flushed(log)) == multiset(files) && multiset(Flushed(log')) == multiset(files)
    ensures SameCounts(Tally(db, log, discovered), Tally(db, log', discovered'))
    ensures var c := Tally(db, log, discovered);
            c.nodes == NodesIn(Stored(db, Flushed(log))) && c.edges == |EdgesIn(Stored(db, Flushed(log)))|
  {
    IndexablePermutes(db, files, Flushed(log));
    IndexablePermutes(db, files, Flushed(log'));
    FlushLogLoads(db, log, discovered);
    FlushLogLoads(db, log', discovered');
    TallyCountsLogged(db, log, discovered);
    TallyCountsLogged(db, log', discovered');
    AllOkLogsNothingElse(log);
    AllOkLogsNothingElse(log');
    var bs, bs' := Stored(db, Flushed(log)), Stored(db, Flushed(log'));
    FilterPermutes(Flushed(log), Flushed(log'), Outdated(db));
    RowsPermute(bs, bs');
    assert |Flushed(log)| == |multiset(Flushed(log))| && |Flushed(log')| == |multiset(Flushed(log'))|;
    assert |EdgesIn(bs)| == |multiset(EdgesIn(bs))| && |EdgesIn(bs')| == |multiset(EdgesIn(bs'))|;
    hide Tally, Loaded, Indexable, Stored, EdgesIn, NodesIn, WellFormed, AllOk;
  }

  /** The same files, nodes and edges are reported. */
  predicate SameCounts(c: IndexCounts, c': IndexCounts)
  {
    c.files == c'.files && c.nodes == c'.nodes && c.edges == c'.edges && c.storeErrors == c'.storeErrors
  }

  lemma SameFilesSameGraph(db: Db, files: seq<ExtractionBatch>, log: seq<Flush<ExtractionBatch>>, log': seq<Flush<ExtractionBatch>>)
    requires WellFormed(db) && Indexable(db, files) && AllOk(log) && AllOk(log')
    requires multiset(Flushed(log)) == multiset(files) && multiset(Flushed(log')) == multiset(files)
    ensures SameGraph(FlushLog(db, log), FlushLog(db, log'))
    ensures Loaded(db, Stored(db, Flushed(log)), FlushLog(db, log))
  {
    IndexablePermutes(db, files, Flushed(log));
    IndexablePermutes(db, files, Flushed(log'));
    FlushLogLoads(db, log, 0);
    FlushLogLoads(db, log', 0);
    var bs, bs' := Stored(db, Flushed(log)), Stored(db, Flushed(log'));
    FilterPermutes(Flushed(log), Flushed(log'), Outdated(db));
    forall x ensures x in bs <==> x in bs' { assert x in multiset(bs) <==> x in multiset(bs'); }
    hide NodesLoaded, FilesLoaded, RowsLoaded, FlushLog, Flushed, Stored;
    LoadedSameNodes(db, bs, FlushLog(db, log), bs', FlushLog(db, log'));
    LoadedSameFiles(db, bs, FlushLog(db, log), bs', FlushLog(db, log'));
    LoadedSameRows(db, bs, FlushLog(db, log), bs', FlushLog(db, log'));
  }
}
