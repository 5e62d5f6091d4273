/** The parallel drain: all rows are fetched by cursor, sharded by file, resolved by one
    worker per shard and committed by a single writer behind a bounded channel. Every
    schedule of it does what the serial drain does. */
module ParallelDrain {
  import opened Graph
  import opened Seqs
  import opened Store
  import opened Drain
  import opened Pipeline

  const FETCH_PAGE: nat := 10_000
  const PARALLEL_CHANNEL_DEPTH: nat := 4096
  const PARALLEL_COMMIT_CHUNK: nat := 10_000

  function Clamp(threads: nat): nat
  {
    if threads < 1 then 1 else if threads > 32 then 32 else threads
  }

  const CHANNEL: Config := Config(PARALLEL_CHANNEL_DEPTH, PARALLEL_COMMIT_CHUNK, COMMIT_RETRIES, true)

  // ----- phase 1: fetch -----------------------------------------------------------

  ghost predicate Ascending(refs: seq<UnresolvedRef>)
  {
    && (forall i :: 0 <= i < |refs| ==> refs[i].id > 0)
    && (forall i, j :: 0 <= i < j < |refs| ==> refs[i].id < refs[j].id)
  }

  function After(lastId: int): UnresolvedRef -> bool
  {
    (r: UnresolvedRef) => r.id > lastId
  }

  /** WHERE id > lastId ORDER BY id LIMIT limit, over rows kept in id order. */
  function PageAfter(refs: seq<UnresolvedRef>, lastId: int, limit: nat): seq<UnresolvedRef>
  {
    var rows := Filter(refs, After(lastId));
    if |rows| <= limit then rows else rows[..limit]
  }

  /** Cursor pagination reads the whole table, each row once, in order. */
  method FetchAll(store: StorageImpl) returns (all: seq<UnresolvedRef>)
    requires Ascending(store.db.refs)
    ensures all == store.db.refs
  {
    hide PageAfter, Ascending;
    var refs := store.db.refs;
    all := [];
    var lastId := 0;
    while true
      invariant |all| <= |refs| && all == refs[..|all|]
      invariant lastId == if |all| == 0 then 0 else refs[|all|-1].id
      decreases |refs| - |all|
    {
      CursorPage(refs, |all|, lastId);
      var page := PageAfter(refs, lastId, FETCH_PAGE);
      if |page| == 0 {
        return;
      }
      lastId := page[|page|-1].id;
      all := all + page;
      if |page| < FETCH_PAGE {
        return;
      }
    }
  }

  lemma {:induction false} AfterSelects(refs: seq<UnresolvedRef>, k: nat, lastId: int)
    requires Ascending(refs) && k <= |refs|
    requires lastId == if k == 0 then 0 else refs[k-1].id
    ensures Filter(refs, After(lastId)) == refs[k..]
  {
    assert refs == refs[..k] + refs[k..];
    FilterConcat(refs[..k], refs[k..], After(lastId));
    FilterNone(refs[..k], After(lastId));
    FilterAll(refs[k..], After(lastId));
  }

  lemma CursorPage(refs: seq<UnresolvedRef>, k: nat, lastId: int)
    requires Ascending(refs) && k <= |refs|
    requires lastId == if k == 0 then 0 else refs[k-1].id
    ensures var end := Min(k + FETCH_PAGE, |refs|);
            PageAfter(refs, lastId, FETCH_PAGE) == refs[k..end] && refs[..k] + refs[k..end] == refs[..end]
  {
    AfterSelects(refs, k, lastId);
  }

  // ----- phase 2: shard -------------------------------------------------------------

  function InShard(shardOf: string -> nat, n: nat, s: nat): UnresolvedRef -> bool
    requires n > 0
  {
    (r: UnresolvedRef) => shardOf(r.filePath) % n == s
  }

  /** Shard s holds, in table order, the references whose file hashes to s. */
  method ShardRefs(refs: seq<UnresolvedRef>, shardOf: string -> nat, n: nat) returns (shards: seq<seq<UnresolvedRef>>)
    requires n > 0
    ensures |shards| == n && forall s :: 0 <= s < n ==> shards[s] == Filter(refs, InShard(shardOf, n, s))
  {
    shards := seq(n, _ => []);
    for i := 0 to |refs|
      invariant |shards| == n
      invariant forall s :: 0 <= s < n ==> shards[s] == Filter(refs[..i], InShard(shardOf, n, s))
    {
      assert refs[..i+1][..i] == refs[..i];
      var s := shardOf(refs[i].filePath) % n;
      shards := shards[s := shards[s] + [refs[i]]];
    }
    assert refs[..|refs|] == refs;
  }

  ghost function Gathered<T>(shards: seq<seq<T>>): multiset<T>
  {
    if |shards| == 0 then multiset{} else multiset(shards[0]) + Gathered(shards[1..])
  }

  ghost predicate IsSharding(shards: seq<seq<UnresolvedRef>>, refs: seq<UnresolvedRef>, shardOf: string -> nat)
  {
    |shards| > 0 && forall s :: 0 <= s < |shards| ==> shards[s] == Filter(refs, InShard(shardOf, |shards|, s))
  }

  lemma {:induction false} GatherPush<T>(shards: seq<seq<T>>, s: nat, x: T)
    requires s < |shards|
    ensures Gathered(shards[s := shards[s] + [x]]) == Gathered(shards) + multiset{x}
  {
    var pushed := shards[s := shards[s] + [x]];
    if s == 0 {
      assert pushed[1..] == shards[1..];
    } else {
      GatherPush(shards[1..], s - 1, x);
      assert pushed[1..] == shards[1..][s - 1 := shards[1..][s - 1] + [x]];
    }
  }

  lemma {:induction false} GatherEmpty<T>(shards: seq<seq<T>>)
    requires forall s :: 0 <= s < |shards| ==> shards[s] == []
    ensures Gathered(shards) == multiset{}
  {
    if |shards| > 0 { GatherEmpty(shards[1..]); }
  }

  /** Shards partition the references: together they hold each exactly once. */
  lemma {:induction false} ShardsPartition(shards: seq<seq<UnresolvedRef>>, refs: seq<UnresolvedRef>, shardOf: string -> nat)
    requires IsSharding(shards, refs, shardOf)
    ensures Gathered(shards) == multiset(refs)
    decreases |refs|
  {
    var n := |shards|;
    if |refs| == 0 {
      GatherEmpty(shards);
    } else {
      var init, last := refs[..|refs|-1], refs[|refs|-1];
      var before := seq(n, s requires 0 <= s < n => Filter(init, InShard(shardOf, n, s)));
      ShardsPartition(before, init, shardOf);
      var home := shardOf(last.filePath) % n;
      assert shards == before[home := before[home] + [last]] by {
        forall s | 0 <= s < n ensures shards[s] == if s == home then before[s] + [last] else before[s] {
          assert InShard(shardOf, n, s)(last) <==> s == home;
        }
      }
      GatherPush(before, home, last);
      assert refs == init + [last];
    }
  }

  // ----- phases 3 to 5: resolve and commit ------------------------------------------

  /** What each worker produces: its shard, resolved in order. */
  function Work(resolve: Resolver, shards: seq<seq<UnresolvedRef>>): seq<seq<Option<ResolvedEdge>>>
  {
    seq(|shards|, s requires 0 <= s < |shards| => Picks(resolve, shards[s]))
  }

  function Picks(resolve: Resolver, refs: seq<UnresolvedRef>): seq<Option<ResolvedEdge>>
  {
    seq(|refs|, i requires 0 <= i < |refs| => Pick(resolve, refs[i]))
  }

  /** The writer applies its successful chunks in order. */
  function CommitLog(db: Db, log: seq<Flush<ResolvedEdge>>): Db
  {
    if |log| == 0 then db
    else
      var d := CommitLog(db, log[..|log|-1]);
      if log[|log|-1].ok then CommitBatch(d, log[|log|-1].batch) else d
  }

  lemma {:induction false} CommitLogIsOneCommit(db: Db, log: seq<Flush<ResolvedEdge>>)
    ensures CommitLog(db, log) == CommitBatch(db, Logged(log, true))
  {
    if |log| == 0 {
      EmptyCommit(db);
    } else {
      CommitLogIsOneCommit(db, log[..|log|-1]);
      if log[|log|-1].ok { CommitTwice(db, Logged(log[..|log|-1], true), log[|log|-1].batch); }
      else { assert Logged(log, true) == Logged(log[..|log|-1], true); }
    }
  }

  lemma {:induction false} ItemsAppend<T>(xs: seq<Option<T>>, x: Option<T>)
    ensures Items(xs + [x]) == Items(xs) + (if x.Some? then [x.value] else [])
  {
    hide Items;
    NoItems<T>();
    FirstItem(xs + [x]);
    if |xs| == 0 {
      assert xs + [x] == [x] && [x][1..] == [];
    } else {
      ItemsAppend(xs[1..], x);
      FirstItem(xs);
      assert (xs + [x])[1..] == xs[1..] + [x];
      Regroup(if xs[0].Some? then [xs[0].value] else [], Items(xs[1..]), if x.Some? then [x.value] else []);
    }
  }

  lemma NoItems<T>()
    ensures Items<T>([]) == []
  {
  }

  lemma FirstItem<T>(xs: seq<Option<T>>)
    requires |xs| > 0
    ensures Items(xs) == (if xs[0].Some? then [xs[0].value] else []) + Items(xs[1..])
  {
  }

  lemma {:induction false} ItemsOfPicks(resolve: Resolver, refs: seq<UnresolvedRef>)
    ensures Items(Picks(resolve, refs)) == ResolveAll(resolve, refs)
  {
    if |refs| > 0 {
      var init, last := refs[..|refs|-1], refs[|refs|-1];
      ItemsOfPicks(resolve, init);
      assert Picks(resolve, refs) == Picks(resolve, init) + [Pick(resolve, last)];
      ItemsAppend(Picks(resolve, init), Pick(resolve, last));
    }
  }

  ghost function PickSet(resolve: Resolver, r: UnresolvedRef): multiset<ResolvedEdge>
  {
    match Pick(resolve, r)
    case Some(e) => multiset{e}
    case None => multiset{}
  }

  lemma ResolveAppend(resolve: Resolver, refs: seq<UnresolvedRef>, r: UnresolvedRef)
    ensures multiset(ResolveAll(resolve, refs + [r])) == multiset(ResolveAll(resolve, refs)) + PickSet(resolve, r)
  {
    assert (refs + [r])[..|refs + [r]|-1] == refs;
  }

  /** Resolving a permutation gives a permutation. */
  lemma {:induction false} ResolvePermutation(resolve: Resolver, a: seq<UnresolvedRef>, b: seq<UnresolvedRef>)
    requires multiset(a) == multiset(b)
    ensures multiset(ResolveAll(resolve, a)) == multiset(ResolveAll(resolve, b))
    decreases |a|
  {
    if |a| == 0 {
      assert |multiset(b)| == 0;
    } else {
      var init, x := a[..|a|-1], a[|a|-1];
      assert a == init + [x];
      var l, r := TakeOut(a, b);
      ResolvePermutation(resolve, init, l + r);
      ResolveAppend(resolve, init, x);
      ResolveAppend(resolve, l, x);
      ResolveConcat(resolve, l, r);
      ResolveConcat(resolve, l + [x], r);
    }
  }

  function Flatten<T>(shards: seq<seq<T>>): seq<T>
  {
    if |shards| == 0 then [] else shards[0] + Flatten(shards[1..])
  }

  lemma {:induction false} FlattenGathers<T>(shards: seq<seq<T>>)
    ensures multiset(Flatten(shards)) == Gathered(shards)
  {
    if |shards| > 0 { FlattenGathers(shards[1..]); }
  }

  lemma {:induction false} OfferedIsResolved(resolve: Resolver, shards: seq<seq<UnresolvedRef>>)
    ensures Offered(Work(resolve, shards)) == multiset(ResolveAll(resolve, Flatten(shards)))
  {
    if |shards| > 0 {
      OfferedIsResolved(resolve, shards[1..]);
      assert Work(resolve, shards)[1..] == Work(resolve, shards[1..]);
      ItemsOfPicks(resolve, shards[0]);
      ResolveConcat(resolve, shards[0], Flatten(shards[1..]));
    }
  }

  /** The workers together offer exactly the edges the serial drain resolves. */
  lemma WorkIsResolveAll(resolve: Resolver, shards: seq<seq<UnresolvedRef>>, refs: seq<UnresolvedRef>, shardOf: string -> nat)
    requires IsSharding(shards, refs, shardOf)
    ensures Offered(Work(resolve, shards)) == multiset(ResolveAll(resolve, refs))
  {
    OfferedIsResolved(resolve, shards);
    FlattenGathers(shards);
    ShardsPartition(shards, refs, shardOf);
    ResolvePermutation(resolve, Flatten(shards), refs);
  }

  // ----- commit does not depend on the order ----------------------------------------

  ghost function EdgeSet(e: Edge, ids: set<string>): multiset<Edge>
  {
    if e.source in ids && e.target in ids then multiset{e} else multiset{}
  }

  lemma ValidAppend(batch: seq<ResolvedEdge>, e: ResolvedEdge, ids: set<string>)
    ensures multiset(ValidEdges(batch + [e], ids)) == multiset(ValidEdges(batch, ids)) + EdgeSet(e.edge, ids)
  {
    assert (batch + [e])[..|batch + [e]|-1] == batch;
  }

  lemma {:induction false} ValidPermutation(a: seq<ResolvedEdge>, b: seq<ResolvedEdge>, ids: set<string>)
    requires multiset(a) == multiset(b)
    ensures multiset(ValidEdges(a, ids)) == multiset(ValidEdges(b, ids))
    decreases |a|
  {
    if |a| == 0 {
      assert |multiset(b)| == 0;
    } else {
      var init, x := a[..|a|-1], a[|a|-1];
      assert a == init + [x];
      var l, r := TakeOut(a, b);
      ValidPermutation(init, l + r, ids);
      ValidAppend(init, x, ids);
      ValidAppend(l, x, ids);
      ValidEdgesConcat(l, r, ids);
      ValidEdgesConcat(l + [x], r, ids);
    }
  }

  lemma UnresolvedPermutation(refs: seq<UnresolvedRef>, a: seq<ResolvedEdge>, b: seq<ResolvedEdge>)
    requires multiset(a) == multiset(b)
    ensures Unresolved(refs, a) == Unresolved(refs, b)
  {
    forall e ensures e in a <==> e in b { assert e in multiset(a) <==> e in multiset(b); }
    FilterSame(refs, Untouched(a), Untouched(b));
  }

  // ----- the refinement --------------------------------------------------------------

  /** A completed schedule of the parallel drain of `db`. */
  ghost predicate ParallelRun(db: Db, resolve: Resolver, shards: seq<seq<UnresolvedRef>>, shardOf: string -> nat,
                              threads: nat, es: seq<Event>, t: State<ResolvedEdge>)
  {
    && |shards| == Clamp(threads) && IsSharding(shards, db.refs, shardOf)
    && IsRun(CHANNEL, Init(Work(resolve, shards)), es, t) && Terminal(t)
  }

  lemma AscendingIsDistinct(refs: seq<UnresolvedRef>)
    requires Ascending(refs)
    ensures DistinctRows(refs)
  {
  }

  /** Fetching and sharding hand the workers what the theorems below are about: whatever
      schedule completes over these shards is a parallel drain of the store. */
  method FetchAndShard(store: StorageImpl, resolve: Resolver, shardOf: string -> nat, threads: nat)
    returns (shards: seq<seq<UnresolvedRef>>)
    requires Ascending(store.db.refs)
    ensures DistinctRows(store.db.refs)
    ensures |shards| == (if threads < 1 then 1 else if threads > 32 then 32 else threads)
    ensures IsSharding(shards, store.db.refs, shardOf)
    ensures forall es, t :: IsRun(CHANNEL, Init(Work(resolve, shards)), es, t) && Terminal(t) ==>
              ParallelRun(store.db, resolve, shards, shardOf, threads, es, t)
  {
    var all := FetchAll(store);
    shards := ShardRefs(all, shardOf, Clamp(threads));
    AscendingIsDistinct(store.db.refs);
  }

  /** For any thread count, hash, resolver and interleaving: a schedule whose writer ends
      without error leaves the same unresolved rows as the serial drain of the whole
      table, the same edges up to order, and the same total. */
  lemma ParallelRefinesSerial(db: Db, resolve: Resolver, shards: seq<seq<UnresolvedRef>>, shardOf: string -> nat,
                              threads: nat, es: seq<Event>, t: State<ResolvedEdge>)
    requires Faithful(resolve) && DistinctRows(db.refs)
    requires ParallelRun(db, resolve, shards, shardOf, threads, es, t) && t.writer.Finished?
    ensures var serial := Drained(db, resolve, |db.refs|);
            var parallel := CommitLog(db, t.log);
            && parallel.refs == serial.refs
            && multiset(parallel.edges) == multiset(serial.edges)
            && parallel == serial.(edges := parallel.edges)
    ensures |Logged(t.log, true)| == |ResolveAll(resolve, db.refs)|
  {
    CompletedRun(CHANNEL, Work(resolve, shards), es, t);
    WorkIsResolveAll(resolve, shards, db.refs, shardOf);
    var sent, all := Logged(t.log, true), ResolveAll(resolve, db.refs);
    assert Flushed(t.log) + t.dropped == sent;
    assert multiset(sent) == multiset(all);
    assert |sent| == |multiset(sent)| == |multiset(all)| == |all|;
    CommitLogIsOneCommit(db, t.log);
    SerialIsOneCommit(db, resolve);
    ValidPermutation(sent, all, db.nodes.Keys);
    UnresolvedPermutation(db.refs, sent, all);
  }

  /** Draining a whole table page by page is one commit of everything that resolves. */
  lemma SerialIsOneCommit(db: Db, resolve: Resolver)
    requires Faithful(resolve) && DistinctRows(db.refs)
    ensures Drained(db, resolve, |db.refs|) == CommitBatch(db, ResolveAll(resolve, db.refs))
  {
    NothingDrained(db, resolve);
    assert db.refs[0..|db.refs|] == db.refs;
    CommitPage(db, resolve, 0, |db.refs|);
  }

  /** When the writer gives up after its retries, what it did commit is still part of
      the serial work; nothing is committed twice. */
  lemma AbortedRunCommitsAPart(db: Db, resolve: Resolver, shards: seq<seq<UnresolvedRef>>, shardOf: string -> nat,
                               threads: nat, es: seq<Event>, t: State<ResolvedEdge>)
    requires ParallelRun(db, resolve, shards, shardOf, threads, es, t)
    ensures multiset(Logged(t.log, true)) <= multiset(ResolveAll(resolve, db.refs))
  {
    CompletedRun(CHANNEL, Work(resolve, shards), es, t);
    WorkIsResolveAll(resolve, shards, db.refs, shardOf);
    FlushedSplits(t.log);
    assert multiset(Flushed(t.log) + t.dropped) == multiset(Flushed(t.log)) + multiset(t.dropped);
  }

  /** The writer commits ten thousand edges at a time, all but the last time. */
  lemma CommitsTenThousand(db: Db, resolve: Resolver, shards: seq<seq<UnresolvedRef>>, shardOf: string -> nat,
                           threads: nat, es: seq<Event>, t: State<ResolvedEdge>, k: nat)
    requires ParallelRun(db, resolve, shards, shardOf, threads, es, t) && k < |t.log|
    ensures k < |t.log| - 1 ==> |t.log[k].batch| == 10_000
    ensures 0 < |t.log[k].batch| <= 10_000
  {
    CompletedRun(CHANNEL, Work(resolve, shards), es, t);
    if k < |t.log| - 1 { assert t.log[..|t.log|-1][k] == t.log[k]; }
  }

  /** The references of one file are in one shard. */
  lemma FileStaysTogether(shards: seq<seq<UnresolvedRef>>, refs: seq<UnresolvedRef>, shardOf: string -> nat,
                          i: nat, j: nat, q: UnresolvedRef, r: UnresolvedRef)
    requires IsSharding(shards, refs, shardOf) && i < |shards| && j < |shards|
    requires q in shards[i] && r in shards[j] && q.filePath == r.filePath
    ensures i == j
  {
    FilterMember(refs, InShard(shardOf, |shards|, i), q);
    FilterMember(refs, InShard(shardOf, |shards|, j), r);
  }
}
