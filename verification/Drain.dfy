/** The serial drain of the unresolved-reference table: it pages by OFFSET over a table
    that its own commits shrink, and retries a commit that finds the database locked. */
module Drain {
  import opened Graph
  import opened Seqs
  import opened Store

  datatype Resolution = Resolved(edge: ResolvedEdge) | Unresolvable | Failed

  /** With warm caches one reference resolves the same way whenever it is asked. */
  type Resolver = UnresolvedRef -> Resolution

  const MAX_ITERS: nat := 100_000
  const COMMIT_RETRIES: nat := 3

  /** The edge the name matcher and the framework resolvers make of a match: it records
      which row it came from. */
  function MakeEdge(r: UnresolvedRef, target: string, kind: EdgeKind): ResolvedEdge
  {
    ResolvedEdge(Edge(r.fromNode, target, kind), r.id, r.fromNode, r.name, r.kind)
  }

  /** Every resolved edge names the row of the reference it resolves. */
  ghost predicate Faithful(resolve: Resolver)
  {
    forall r :: resolve(r).Resolved? ==> resolve(r).edge.refId == r.id
  }

  function Pick(resolve: Resolver, r: UnresolvedRef): Option<ResolvedEdge>
  {
    match resolve(r)
    case Resolved(e) => Some(e)
    case _ => None
  }

  /** The edges of the references that resolve, in order. */
  function ResolveAll(resolve: Resolver, refs: seq<UnresolvedRef>): seq<ResolvedEdge>
  {
    if |refs| == 0 then []
    else
      var p := Pick(resolve, refs[|refs|-1]);
      ResolveAll(resolve, refs[..|refs|-1]) + (if p.Some? then [p.value] else [])
  }

  function Stays(resolve: Resolver): UnresolvedRef -> bool
  {
    (r: UnresolvedRef) => !resolve(r).Resolved?
  }

  /** The references no resolver bound, in table order. */
  function Leftover(resolve: Resolver, refs: seq<UnresolvedRef>): seq<UnresolvedRef>
  {
    Filter(refs, Stays(resolve))
  }

  /** The store after the first `k` rows were resolved and committed. */
  function Drained(db: Db, resolve: Resolver, k: nat): Db
    requires k <= |db.refs|
  {
    db.(edges := db.edges + ValidEdges(ResolveAll(resolve, db.refs[..k]), db.nodes.Keys),
        refs := Leftover(resolve, db.refs[..k]) + db.refs[k..])
  }

  /** How many rows one run gets through before its safety cap. */
  function Reach(rows: nat, batchSize: nat): nat
  {
    if rows <= MAX_ITERS * batchSize then rows else MAX_ITERS * batchSize
  }

  /** Ids are positive and distinct, as AUTOINCREMENT makes them. */
  ghost predicate DistinctRows(refs: seq<UnresolvedRef>)
  {
    && (forall i :: 0 <= i < |refs| ==> refs[i].id > 0)
    && (forall i, j :: 0 <= i < j < |refs| ==> refs[i].id != refs[j].id)
  }

  /** Whether a commit gets through before its retries run out. */
  function RetrySucceeds(locks: seq<bool>, left: nat): bool
  {
    !NextLocked(locks) || (left > 0 && RetrySucceeds(AfterWrite(locks), left - 1))
  }

  // ----- the loops --------------------------------------------------------------

  /** One commit with retries. It gives up exactly when the first attempt and all its
      retries find the database locked, and then nothing has changed. */
  method CommitWithRetry(store: StorageImpl, batch: seq<ResolvedEdge>) returns (ok: bool)
    modifies store
    ensures ok <==> |batch| == 0 || RetrySucceeds(old(store.locks), COMMIT_RETRIES)
    ensures store.db == if ok then CommitBatch(old(store.db), batch) else old(store.db)
    ensures store.nodeCache == old(store.nodeCache)
  {
    var attempts := 0;
    while true
      invariant attempts <= COMMIT_RETRIES
      invariant store.db == old(store.db) && store.nodeCache == old(store.nodeCache)
      invariant |batch| > 0 ==> (RetrySucceeds(old(store.locks), COMMIT_RETRIES)
                                 <==> RetrySucceeds(store.locks, COMMIT_RETRIES - attempts))
      decreases COMMIT_RETRIES - attempts
    {
      var outcome := store.CommitResolvedBatch(batch);
      if outcome == Done {
        if |batch| == 0 { EmptyCommit(store.db); }
        return true;
      }
      if attempts >= COMMIT_RETRIES {
        return false;
      }
      attempts := attempts + 1;
    }
  }

  method ResolvePage(resolve: Resolver, page: seq<UnresolvedRef>) returns (resolved: seq<ResolvedEdge>)
    ensures resolved == ResolveAll(resolve, page)
  {
    resolved := [];
    for i := 0 to |page|
      invariant resolved == ResolveAll(resolve, page[..i])
    {
      assert page[..i+1][..i] == page[..i];
      match resolve(page[i]) {
        case Resolved(edge) => resolved := resolved + [edge];
        case Unresolvable =>
        case Failed =>
      }
    }
    assert page[..|page|] == page;
  }

  /** The first `k` rows are done: they were asked in order, and what resolved of them is
      committed and counted. */
  ghost predicate Progress(db: Db, resolve: Resolver, k: nat, now: Db, total: int, asked: seq<UnresolvedRef>)
  {
    && k <= |db.refs|
    && now == Drained(db, resolve, k)
    && total == |ResolveAll(resolve, db.refs[..k])|
    && asked == db.refs[..k]
  }

  /** One turn of the drain: read the page at the offset, resolve it, commit it. */
  method DrainPage(store: StorageImpl, resolve: Resolver, batchSize: nat, offset: nat, ghost db: Db, ghost k: nat)
    returns (ok: bool, page: seq<UnresolvedRef>, resolved: seq<ResolvedEdge>)
    requires Faithful(resolve) && DistinctRows(db.refs) && k <= |db.refs|
    requires store.db == Drained(db, resolve, k) && offset == |Leftover(resolve, db.refs[..k])|
    modifies store
    ensures page == db.refs[k..Min(k + batchSize, |db.refs|)]
    ensures resolved == ResolveAll(resolve, page)
    ensures store.db == Drained(db, resolve, if ok then k + |page| else k)
    ensures |page| == 0 ==> ok
    ensures store.nodeCache == old(store.nodeCache)
  {
    hide Drained, Leftover, ResolveAll, Faithful, DistinctRows;
    NextPage(db, resolve, k, batchSize);
    page := store.GetUnresolvedBatch(batchSize, offset);
    resolved := ResolvePage(resolve, page);
    ok := true;
    if |page| > 0 {
      CommitPage(db, resolve, k, k + |page|);
      ok := CommitWithRetry(store, resolved);
    }
  }

  /** Drains the table. `asked` is every reference handed to the resolver, in order: the
      first `Reach` rows, each once. On success the store is what resolving exactly those
      rows makes of it; on failure it is a prefix of that work. */
  method RunUntilEmpty(store: StorageImpl, resolve: Resolver, batchSize: nat)
    returns (ok: bool, total: nat, ghost asked: seq<UnresolvedRef>)
    requires Faithful(resolve) && DistinctRows(store.db.refs)
    modifies store
    ensures ok ==> Progress(old(store.db), resolve, Reach(|old(store.db).refs|, batchSize), store.db, total, asked)
    ensures !ok ==> exists k :: 0 <= k <= Reach(|old(store.db).refs|, batchSize)
                                && store.db == Drained(old(store.db), resolve, k)
    ensures store.nodeCache == old(store.nodeCache)
  {
    hide Progress, Drained, Leftover, ResolveAll, Reach;
    ghost var db := store.db;
    ghost var k := 0;
    var offset, iterCount := 0, 0;
    total, asked := 0, [];
    NothingDrained(db, resolve);
    while true
      invariant 0 <= iterCount <= MAX_ITERS
      invariant k == Min(iterCount * batchSize, |db.refs|)
      invariant k <= |db.refs| && store.db == Drained(db, resolve, k)
      invariant Progress(db, resolve, k, store.db, total, asked)
      invariant offset == |Leftover(resolve, db.refs[..k])|
      invariant store.nodeCache == old(store.nodeCache)
      decreases MAX_ITERS - iterCount
    {
      Stopping(|db.refs|, batchSize, iterCount, k);
      if iterCount == MAX_ITERS {
        return true, total, asked;
      }
      NextBound(iterCount, batchSize);
      iterCount := iterCount + 1;
      var committed, unresolved, resolved := DrainPage(store, resolve, batchSize, offset, db, k);
      if |unresolved| == 0 {
        return true, total, asked;
      }
      if !committed {
        return false, total, asked;
      }
      StepProgress(db, resolve, k, k + |unresolved|, total, asked);
      asked := asked + unresolved;
      total := total + |resolved|;
      offset := offset + (|unresolved| - |resolved|);
      k := k + |unresolved|;
      Stopping(|db.refs|, batchSize, iterCount, k);
      if |unresolved| < batchSize {
        return true, total, asked;
      }
    }
  }

  /** Resolves a given list in chunks. Rows are deleted by id, so rows that no resolved
      reference of the list names stay as they are. */
  method RunForRefs(store: StorageImpl, resolve: Resolver, batchSize: nat, refs: seq<UnresolvedRef>)
    returns (ok: bool, total: nat)
    requires batchSize > 0
    modifies store
    ensures ok ==> store.db == CommitBatch(old(store.db), ResolveAll(resolve, refs))
                   && total == |ResolveAll(resolve, refs)|
    ensures !ok ==> exists k :: 0 <= k <= |refs|
                                && store.db == CommitBatch(old(store.db), ResolveAll(resolve, refs[..k]))
    ensures store.nodeCache == old(store.nodeCache)
  {
    hide CommitBatch, ResolveAll;
    var i := 0;
    total := 0;
    NothingResolved(store.db, resolve, refs);
    while i < |refs|
      invariant i <= |refs|
      invariant store.db == CommitBatch(old(store.db), ResolveAll(resolve, refs[..i]))
      invariant total == |ResolveAll(resolve, refs[..i])|
      invariant store.nodeCache == old(store.nodeCache)
    {
      var end := if i + batchSize <= |refs| then i + batchSize else |refs|;
      var resolved := ResolvePage(resolve, refs[i..end]);
      var committed := CommitWithRetry(store, resolved);
      if !committed {
        return false, total;
      }
      assert refs[..end] == refs[..i] + refs[i..end];
      ResolveConcat(resolve, refs[..i], refs[i..end]);
      CommitTwice(old(store.db), ResolveAll(resolve, refs[..i]), resolved);
      total := total + |resolved|;
      i := end;
    }
    assert refs[..i] == refs;
    return true, total;
  }

  // ----- why paging by offset works ------------------------------------------------

  lemma NothingResolved(db: Db, resolve: Resolver, refs: seq<UnresolvedRef>)
    ensures ResolveAll(resolve, refs[..0]) == [] && CommitBatch(db, ResolveAll(resolve, refs[..0])) == db
  {
    EmptyCommit(db);
  }

  lemma EmptyCommit(db: Db)
    ensures CommitBatch(db, []) == db
  {
    FilterAll(db.refs, Untouched([]));
  }

  lemma NothingDrained(db: Db, resolve: Resolver)
    ensures Drained(db, resolve, 0) == db
    ensures Progress(db, resolve, 0, db, 0, []) && |Leftover(resolve, db.refs[..0])| == 0
  {
    assert db.refs[..0] == [] && db.refs[0..] == db.refs;
  }

  function Min(a: nat, b: nat): nat { if a <= b then a else b }

  lemma NextBound(iter: nat, batchSize: nat)
    requires iter < MAX_ITERS
    ensures (iter + 1) * batchSize == iter * batchSize + batchSize
    ensures (iter + 1) * batchSize <= MAX_ITERS * batchSize
  {
    ScaleUp(iter + 1, MAX_ITERS, batchSize);
  }

  lemma ScaleUp(a: nat, b: nat, c: nat)
    requires a <= b
    ensures a * c <= b * c
  {
    assert b * c == a * c + (b - a) * c;
  }

  lemma {:induction false} ResolveConcat(resolve: Resolver, a: seq<UnresolvedRef>, b: seq<UnresolvedRef>)
    ensures ResolveAll(resolve, a + b) == ResolveAll(resolve, a) + ResolveAll(resolve, b)
  {
    if |b| == 0 {
      assert a + b == a;
    } else {
      ResolveConcat(resolve, a, b[..|b|-1]);
      assert (a + b)[..|a + b|-1] == a + b[..|b|-1];
    }
  }

  lemma {:induction false} ResolveMember(resolve: Resolver, refs: seq<UnresolvedRef>, e: ResolvedEdge)
    ensures e in ResolveAll(resolve, refs) <==> exists r :: r in refs && Pick(resolve, r) == Some(e)
  {
    if |refs| > 0 {
      var init, last := refs[..|refs|-1], refs[|refs|-1];
      ResolveMember(resolve, init, e);
      assert forall r :: r in refs <==> r in init || r == last;
    }
  }

  lemma {:induction false} ValidEdgesConcat(a: seq<ResolvedEdge>, b: seq<ResolvedEdge>, ids: set<string>)
    ensures ValidEdges(a + b, ids) == ValidEdges(a, ids) + ValidEdges(b, ids)
  {
    if |b| == 0 {
      assert a + b == a;
    } else {
      ValidEdgesConcat(a, b[..|b|-1], ids);
      assert (a + b)[..|a + b|-1] == a + b[..|b|-1];
    }
  }

  /** Every row either resolves or is left over. */
  lemma {:induction false} ResolvedOrLeft(resolve: Resolver, refs: seq<UnresolvedRef>)
    ensures |ResolveAll(resolve, refs)| + |Leftover(resolve, refs)| == |refs|
  {
    if |refs| > 0 { ResolvedOrLeft(resolve, refs[..|refs|-1]); }
  }

  /** The offset has skipped exactly the rows left over so far, so the next page starts
      at the first row not yet asked. */
  lemma NextPage(db: Db, resolve: Resolver, k: nat, batchSize: nat)
    requires k <= |db.refs|
    ensures var end := Min(k + batchSize, |db.refs|);
            Page(Drained(db, resolve, k).refs, batchSize, |Leftover(resolve, db.refs[..k])|) == db.refs[k..end]
  {
    var left := Leftover(resolve, db.refs[..k]);
    var rows := left + db.refs[k..];
    var end := Min(k + batchSize, |db.refs|);
    assert rows[|left|..|left| + (end - k)] == db.refs[k..end];
  }

  /** A page of resolved edges deletes exactly the rows of the page that resolve. */
  lemma PageDeletes(resolve: Resolver, refs: seq<UnresolvedRef>, page: seq<UnresolvedRef>, r: UnresolvedRef)
    requires Faithful(resolve) && DistinctRows(refs) && r in refs && forall x :: x in page ==> x in refs
    ensures DeletedBy(ResolveAll(resolve, page), r) <==> r in page && resolve(r).Resolved?
  {
    var batch := ResolveAll(resolve, page);
    if DeletedBy(batch, r) {
      var e :| e in batch && Deletes(e, r);
      ResolveMember(resolve, page, e);
      var x :| x in page && Pick(resolve, x) == Some(e);
    }
    if r in page && resolve(r).Resolved? {
      ResolveMember(resolve, page, resolve(r).edge);
      assert Deletes(resolve(r).edge, r);
    }
  }

  lemma Cut<T>(s: seq<T>, k: nat, m: nat)
    requires k <= m <= |s|
    ensures s[..m] == s[..k] + s[k..m]
    ensures s[k..] == s[k..m] + s[m..]
  {
  }

  lemma CommitPageRefs(refs: seq<UnresolvedRef>, resolve: Resolver, k: nat, m: nat)
    requires Faithful(resolve) && DistinctRows(refs) && k <= m <= |refs|
    ensures Unresolved(Leftover(resolve, refs[..k]) + refs[k..], ResolveAll(resolve, refs[k..m]))
            == Leftover(resolve, refs[..m]) + refs[m..]
    ensures Leftover(resolve, refs[..m]) == Leftover(resolve, refs[..k]) + Leftover(resolve, refs[k..m])
  {
    hide Filter, ResolveAll;
    var head, page, tail := refs[..k], refs[k..m], refs[m..];
    Cut(refs, k, m);
    FilterConcat(head, page, Stays(resolve));
    PageFilter(refs, resolve, k, m);
    FilterMiddle(Leftover(resolve, head), page, tail, Untouched(ResolveAll(resolve, page)), Leftover(resolve, page));
  }

  /** Committing rows k..m on top of the first k leaves the first m drained. */
  lemma CommitPage(db: Db, resolve: Resolver, k: nat, m: nat)
    requires Faithful(resolve) && DistinctRows(db.refs) && k <= m <= |db.refs|
    ensures CommitBatch(Drained(db, resolve, k), ResolveAll(resolve, db.refs[k..m])) == Drained(db, resolve, m)
  {
    var head, page := db.refs[..k], db.refs[k..m];
    Cut(db.refs, k, m);
    CommitPageRefs(db.refs, resolve, k, m);
    ResolveConcat(resolve, head, page);
    ValidEdgesConcat(ResolveAll(resolve, head), ResolveAll(resolve, page), db.nodes.Keys);
  }

  lemma StepProgress(db: Db, resolve: Resolver, k: nat, m: nat, total: nat, asked: seq<UnresolvedRef>)
    requires Faithful(resolve) && DistinctRows(db.refs) && k <= m <= |db.refs|
    requires Progress(db, resolve, k, Drained(db, resolve, k), total, asked)
    ensures var resolved := ResolveAll(resolve, db.refs[k..m]);
            && |resolved| <= m - k
            && Progress(db, resolve, m, Drained(db, resolve, m), total + |resolved|, asked + db.refs[k..m])
            && |Leftover(resolve, db.refs[..m])| == |Leftover(resolve, db.refs[..k])| + (m - k - |resolved|)
  {
    CommitPageRefs(db.refs, resolve, k, m);
    Cut(db.refs, k, m);
    ResolveConcat(resolve, db.refs[..k], db.refs[k..m]);
    ResolvedOrLeft(resolve, db.refs[k..m]);
  }

  /** When the loop stops at the cap or at the end of the table it has reached `Reach`. */
  lemma Stopping(rows: nat, batchSize: nat, iter: nat, k: nat)
    requires iter <= MAX_ITERS && k == Min(iter * batchSize, rows)
    ensures k <= Reach(rows, batchSize)
    ensures iter == MAX_ITERS || k == rows || batchSize == 0 ==> k == Reach(rows, batchSize)
  {
    ScaleUp(iter, MAX_ITERS, batchSize);
  }

  lemma PageFilter(refs: seq<UnresolvedRef>, resolve: Resolver, k: nat, m: nat)
    requires Faithful(resolve) && DistinctRows(refs) && k <= m <= |refs|
    ensures var batch := ResolveAll(resolve, refs[k..m]);
            && Filter(Leftover(resolve, refs[..k]), Untouched(batch)) == Leftover(resolve, refs[..k])
            && Filter(refs[k..m], Untouched(batch)) == Leftover(resolve, refs[k..m])
            && Filter(refs[m..], Untouched(batch)) == refs[m..]
  {
    var page := refs[k..m];
    var batch := ResolveAll(resolve, page);
    forall r | r in refs ensures DeletedBy(batch, r) <==> r in page && resolve(r).Resolved? {
      PageDeletes(resolve, refs, page, r);
    }
    forall r | r in page ensures r !in refs[..k] && r !in refs[m..] {}
    forall r | r in Leftover(resolve, refs[..k]) ensures Untouched(batch)(r) { FilterMember(refs[..k], Stays(resolve), r); }
    FilterAll(Leftover(resolve, refs[..k]), Untouched(batch));
    FilterSame(page, Untouched(batch), Stays(resolve));
    FilterAll(refs[m..], Untouched(batch));
  }

  lemma DeletedByEither(a: seq<ResolvedEdge>, b: seq<ResolvedEdge>, r: UnresolvedRef)
    ensures DeletedBy(a + b, r) <==> DeletedBy(a, r) || DeletedBy(b, r)
  {
    if DeletedBy(a, r) { var e :| e in a && Deletes(e, r); assert e in a + b; }
    if DeletedBy(b, r) { var e :| e in b && Deletes(e, r); assert e in a + b; }
  }

  lemma CommitTwice(db: Db, a: seq<ResolvedEdge>, b: seq<ResolvedEdge>)
    ensures CommitBatch(CommitBatch(db, a), b) == CommitBatch(db, a + b)
  {
    hide Filter, ValidEdges, DeletedBy;
    ValidEdgesConcat(a, b, db.nodes.Keys);
    forall r ensures DeletedBy(a + b, r) <==> DeletedBy(a, r) || DeletedBy(b, r) { DeletedByEither(a, b, r); }
    FilterTwice(db.refs, Untouched(a), Untouched(b), Untouched(a + b));
  }

  // ----- what a drain means -----------------------------------------------------

  /** A run that reaches the end of the table: the rows left are exactly those that do
      not resolve, in their order, and every row is accounted for once. */
  lemma DrainedCompletely(db: Db, resolve: Resolver)
    ensures Drained(db, resolve, |db.refs|).refs == Leftover(resolve, db.refs)
    ensures |ResolveAll(resolve, db.refs)| + |Drained(db, resolve, |db.refs|).refs| == |db.refs|
    ensures Drained(db, resolve, |db.refs|) .edges == db.edges + ValidEdges(ResolveAll(resolve, db.refs), db.nodes.Keys)
  {
    assert db.refs[..|db.refs|] == db.refs && db.refs[|db.refs|..] == [];
    ResolvedOrLeft(resolve, db.refs);
  }

  /** The scoped run deletes a row if and only if some reference of the list resolves
      and has that row's id; all other rows keep their place. */
  lemma RunForRefsScope(db: Db, resolve: Resolver, list: seq<UnresolvedRef>, r: UnresolvedRef)
    requires Faithful(resolve) && r in db.refs && forall x :: x in list ==> x.id > 0
    ensures r in CommitBatch(db, ResolveAll(resolve, list)).refs
            <==> !exists x :: x in list && x.id == r.id && resolve(x).Resolved?
  {
    var batch := ResolveAll(resolve, list);
    FilterMember(db.refs, Untouched(batch), r);
    if DeletedBy(batch, r) {
      var e :| e in batch && Deletes(e, r);
      ResolveMember(resolve, list, e);
    }
    if x :| x in list && x.id == r.id && resolve(x).Resolved? {
      ResolveMember(resolve, list, resolve(x).edge);
      assert Deletes(resolve(x).edge, r);
    }
  }

  /** A resolver that builds its edges with `MakeEdge` is faithful, and its edges lead from
      the origin of their reference to what was found. */
  lemma MadeEdgesAreFaithful(resolve: Resolver)
    requires forall r :: resolve(r).Resolved? ==>
               resolve(r).edge == MakeEdge(r, resolve(r).edge.edge.target, resolve(r).edge.edge.kind)
    ensures Faithful(resolve)
    ensures forall r, target, kind ::
              MakeEdge(r, target, kind).edge.source == r.fromNode && MakeEdge(r, target, kind).edge.target == target
  {
  }

  /** Why the row id matters: two rows that agree on origin, name and kind, resolved with
      id 0. Committing the first deletes both, and the next page starts behind the second,
      which was not asked. */
  lemma UnrecordedIdSkipsRows(a: UnresolvedRef, b: UnresolvedRef, c: UnresolvedRef, e: Edge)
    requires a.id == 1 && b == a.(id := 2) && c.id == 3 && c.name != a.name
    ensures var edge := ResolvedEdge(e, 0, a.fromNode, a.name, a.kind);
            && Page([a, b, c], 1, 0) == [a] && Unresolved([a, b, c], [edge]) == [c]
            && Page(Unresolved([a, b, c], [edge]), 1, 0) == [c]
  {
    var edge := ResolvedEdge(e, 0, a.fromNode, a.name, a.kind);
    var keep := Untouched([edge]);
    assert edge in [edge] && Deletes(edge, a) && Deletes(edge, b) && !Deletes(edge, c);
    FilterAppend([], a, keep);
    FilterAppend([a], b, keep);
    FilterAppend([a, b], c, keep);
    assert [] + [a] == [a] && [a] + [b] == [a, b] && [a, b] + [c] == [a, b, c];
  }

  // ----- in numbers -----------------------------------------------------------------------------

  /** A commit gives up when four attempts in a row find the database locked. */
  lemma FourAttempts(locks: seq<bool>)
    ensures RetrySucceeds(locks, COMMIT_RETRIES) <==> !(|locks| >= 4 && locks[0] && locks[1] && locks[2] && locks[3])
  {
    assert RetrySucceeds(locks, 3) <==> !NextLocked(locks) || RetrySucceeds(AfterWrite(locks), 2);
    var l1 := AfterWrite(locks);
    assert RetrySucceeds(l1, 2) <==> !NextLocked(l1) || RetrySucceeds(AfterWrite(l1), 1);
    var l2 := AfterWrite(l1);
    assert RetrySucceeds(l2, 1) <==> !NextLocked(l2) || RetrySucceeds(AfterWrite(l2), 0);
  }

  /** A drain reaches every row unless the table has more than a hundred thousand pages. */
  lemma ReachesAllIff(rows: nat, batchSize: nat)
    ensures Reach(rows, batchSize) == rows <==> rows <= 100_000 * batchSize
    ensures Reach(rows, batchSize) <= 100_000 * batchSize
  {
  }
}
