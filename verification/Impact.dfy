/** The bounded impact query: merge the reverse-reach subgraphs of a symbol's family,
    measure every node's distance from the roots over dependency edges, drop pure
    markers, and cap the rest without losing a direct dependant. */
module Impact {
  import opened Graph
  import opened Ordering

  type Kinds = map<string, NodeKind>
  type Adjacency = map<string, seq<string>>

  datatype Subgraph = Subgraph(nodes: Kinds, edges: seq<Edge>)

  const U32_MAX: nat := 0xFFFF_FFFF

  predicate IsAnswerKind(k: EdgeKind)
  {
    k.Calls? || k.References? || k.Implements? || k.Extends? || k.Instantiates? || k.Uses?
  }

  predicate IsMarker(k: NodeKind) { k.File? || k.Namespace? }

  // ----- merging ------------------------------------------------------------------

  function Ends(e: Edge): (string, string) { (e.source, e.target) }

  ghost predicate OneEdgePerPair(edges: seq<Edge>)
  {
    forall i, j :: 0 <= i < j < |edges| ==> Ends(edges[i]) != Ends(edges[j])
  }

  ghost predicate SomeHasNode(parts: seq<Subgraph>, id: string)
  {
    exists i :: 0 <= i < |parts| && id in parts[i].nodes
  }

  ghost predicate SomeHasKind(parts: seq<Subgraph>, id: string, kind: NodeKind)
  {
    exists i :: 0 <= i < |parts| && id in parts[i].nodes && parts[i].nodes[id] == kind
  }

  ghost predicate SomeHasEdge(parts: seq<Subgraph>, e: Edge)
  {
    exists i :: 0 <= i < |parts| && e in parts[i].edges
  }

  ghost predicate IsMerge(parts: seq<Subgraph>, g: Subgraph)
  {
    && (forall id :: id in g.nodes <==> SomeHasNode(parts, id))
    && (forall id :: id in g.nodes ==> SomeHasKind(parts, id, g.nodes[id]))
    && (forall e :: e in g.edges ==> SomeHasEdge(parts, e))
    && (forall e :: SomeHasEdge(parts, e) ==> exists f :: f in g.edges && Ends(f) == Ends(e))
    && OneEdgePerPair(g.edges)
  }

  function AllEdges(parts: seq<Subgraph>): seq<Edge>
  {
    if |parts| == 0 then [] else AllEdges(parts[..|parts|-1]) + parts[|parts|-1].edges
  }

  predicate HasPair(edges: seq<Edge>, ends: (string, string)) { exists e :: e in edges && Ends(e) == ends }

  /** The edges whose ends no earlier edge has. */
  function FirstPerPair(edges: seq<Edge>): seq<Edge>
  {
    if |edges| == 0 then []
    else
      var kept, e := FirstPerPair(edges[..|edges|-1]), edges[|edges|-1];
      if HasPair(kept, Ends(e)) then kept else kept + [e]
  }

  lemma FirstPerPairAppend(edges: seq<Edge>, e: Edge)
    ensures FirstPerPair(edges + [e]) == FirstPerPair(edges) + (if HasPair(FirstPerPair(edges), Ends(e)) then [] else [e])
  {
    assert (edges + [e])[..|edges + [e]|-1] == edges;
  }

  lemma HasPairAppend(edges: seq<Edge>, e: Edge)
    ensures forall p :: HasPair(edges + [e], p) <==> HasPair(edges, p) || p == Ends(e)
  {
    forall p ensures HasPair(edges + [e], p) <==> HasPair(edges, p) || p == Ends(e) {
      if HasPair(edges, p) {
        var f :| f in edges && Ends(f) == p;
        assert f in edges + [e];
      }
      assert e in edges + [e];
    }
  }

  lemma {:induction false} PairsAreKept(edges: seq<Edge>)
    ensures OneEdgePerPair(FirstPerPair(edges))
    ensures forall e :: e in FirstPerPair(edges) ==> e in edges
    ensures forall p :: HasPair(FirstPerPair(edges), p) <==> HasPair(edges, p)
  {
    if |edges| > 0 {
      var init, last := edges[..|edges|-1], edges[|edges|-1];
      PairsAreKept(init);
      assert edges == init + [last];
      HasPairAppend(init, last);
      HasPairAppend(FirstPerPair(init), last);
      forall f | f in FirstPerPair(init) && !HasPair(FirstPerPair(init), Ends(last)) ensures Ends(f) != Ends(last) {}
    }
  }

  /** Of the edges of a pair the first is the one kept. */
  lemma {:induction false} FirstOfItsPair(edges: seq<Edge>, k: nat)
    requires k < |edges| && forall i :: 0 <= i < k ==> Ends(edges[i]) != Ends(edges[k])
    ensures edges[k] in FirstPerPair(edges)
    decreases |edges|
  {
    var init := edges[..|edges|-1];
    if k < |init| {
      FirstOfItsPair(init, k);
    } else {
      PairsAreKept(init);
    }
  }

  lemma {:induction false} AllEdgesOfSome(parts: seq<Subgraph>, e: Edge)
    ensures e in AllEdges(parts) <==> SomeHasEdge(parts, e)
  {
    if |parts| > 0 {
      var init, last := parts[..|parts|-1], parts[|parts|-1];
      AllEdgesOfSome(init, e);
      if SomeHasEdge(init, e) { var i :| 0 <= i < |init| && e in init[i].edges; assert e in parts[i].edges; }
      if SomeHasEdge(parts, e) && e !in last.edges {
        var i :| 0 <= i < |parts| && e in parts[i].edges;
        assert e in init[i].edges;
      }
    }
  }

  /** Union of the subgraphs: nodes by id, edges by endpoints, first one wins. */
  method Merge(parts: seq<Subgraph>) returns (g: Subgraph)
    ensures IsMerge(parts, g) && g.edges == FirstPerPair(AllEdges(parts))
  {
    var nodes: Kinds, edges: seq<Edge>, seen: set<(string, string)> := map[], [], {};
    for i := 0 to |parts|
      invariant forall id :: id in nodes <==> SomeHasNode(parts[..i], id)
      invariant forall id :: id in nodes ==> SomeHasKind(parts[..i], id, nodes[id])
      invariant edges == FirstPerPair(AllEdges(parts[..i])) && seen == set e | e in edges :: Ends(e)
    {
      GrowParts(parts, i);
      assert parts[..i+1][..i] == parts[..i];
      nodes := nodes + parts[i].nodes;
      edges, seen := AddEdges(AllEdges(parts[..i]), edges, seen, parts[i].edges);
    }
    assert parts[..|parts|] == parts;
    g := Subgraph(nodes, edges);
    PairsAreKept(AllEdges(parts));
    forall e | e in AllEdges(parts) ensures HasPair(g.edges, Ends(e)) { assert HasPair(AllEdges(parts), Ends(e)); }
    forall e ensures e in AllEdges(parts) <==> SomeHasEdge(parts, e) { AllEdgesOfSome(parts, e); }
  }

  method AddEdges(ghost before: seq<Edge>, kept: seq<Edge>, keptEnds: set<(string, string)>, more: seq<Edge>)
    returns (edges: seq<Edge>, seen: set<(string, string)>)
    requires kept == FirstPerPair(before) && keptEnds == set e | e in kept :: Ends(e)
    ensures edges == FirstPerPair(before + more) && seen == set e | e in edges :: Ends(e)
  {
    hide FirstPerPair, HasPair;
    edges, seen := kept, keptEnds;
    assert before + more[..0] == before;
    for j := 0 to |more|
      invariant edges == FirstPerPair(before + more[..j]) && seen == set e | e in edges :: Ends(e)
    {
      PairStep(before, more, j);
      SeenPairs(edges, Ends(more[j]));
      if Ends(more[j]) !in seen {
        edges := edges + [more[j]];
        seen := seen + {Ends(more[j])};
      }
    }
    assert more[..|more|] == more;
  }

  lemma PairStep(before: seq<Edge>, more: seq<Edge>, j: nat)
    requires j < |more|
    ensures var kept := FirstPerPair(before + more[..j]);
            FirstPerPair(before + more[..j+1]) == if HasPair(kept, Ends(more[j])) then kept else kept + [more[j]]
  {
    assert before + more[..j+1] == before + more[..j] + [more[j]];
    hide FirstPerPair;
    FirstPerPairAppend(before + more[..j], more[j]);
  }

  lemma SeenPairs(edges: seq<Edge>, ends: (string, string))
    ensures ends in (set e | e in edges :: Ends(e)) <==> HasPair(edges, ends)
  {
  }

  lemma GrowParts(parts: seq<Subgraph>, i: nat)
    requires i < |parts|
    ensures forall id :: SomeHasNode(parts[..i+1], id) <==> SomeHasNode(parts[..i], id) || id in parts[i].nodes
    ensures forall id, k :: SomeHasKind(parts[..i], id, k) ==> SomeHasKind(parts[..i+1], id, k)
    ensures forall id :: id in parts[i].nodes ==> SomeHasKind(parts[..i+1], id, parts[i].nodes[id])
  {
    var a, b := parts[..i], parts[..i+1];
    assert b[i] == parts[i];
    forall id ensures SomeHasNode(b, id) <==> SomeHasNode(a, id) || id in parts[i].nodes {
      if SomeHasNode(a, id) { var k :| 0 <= k < |a| && id in a[k].nodes; assert b[k] == a[k]; }
      if SomeHasNode(b, id) { var k :| 0 <= k < |b| && id in b[k].nodes; if k < i { assert a[k] == b[k]; } }
    }
    forall id, k | SomeHasKind(a, id, k) ensures SomeHasKind(b, id, k) {
      var j :| 0 <= j < |a| && id in a[j].nodes && a[j].nodes[id] == k;
      assert b[j] == a[j];
    }
  }

  // ----- who depends on whom ---------------------------------------------------------

  predicate Recorded(g: Subgraph, e: Edge)
  {
    IsAnswerKind(e.kind) && e.source in g.nodes && e.target in g.nodes
  }

  /** `s` is a dependant of `t`: by a dependency edge the traversal recorded, or, when `t`
      is a root, by one the direct query of the root returns. */
  ghost predicate DependsOn(g: Subgraph, roots: seq<string>, incoming: string -> seq<string>, s: string, t: string)
  {
    || (exists e :: e in g.edges && Recorded(g, e) && e.source == s && e.target == t)
    || (t in roots && s in incoming(t) && s in g.nodes)
  }

  function Pushed(adj: Adjacency, t: string, s: string): Adjacency
  {
    adj[t := (if t in adj then adj[t] else []) + [s]]
  }

  predicate Lists(adj: Adjacency, t: string, s: string) { t in adj && s in adj[t] }

  /** The answer ids and the reverse adjacency. `incoming(r)` are the sources of the
      dependency edges into r. */
  method CollectAnswers(g: Subgraph, roots: seq<string>, incoming: string -> seq<string>)
    returns (answers: set<string>, adj: Adjacency)
    ensures forall t, s :: Lists(adj, t, s) <==> DependsOn(g, roots, incoming, s, t)
    ensures forall s :: s in answers <==> s in roots || exists t :: Lists(adj, t, s)
  {
    answers := set r | r in roots;
    adj := map[];
    for i := 0 to |g.edges|
      invariant forall t, s :: Lists(adj, t, s) <==>
                  exists e :: e in g.edges[..i] && Recorded(g, e) && e.source == s && e.target == t
      invariant forall s :: s in answers <==> s in roots || exists t :: Lists(adj, t, s)
    {
      var e := g.edges[i];
      assert g.edges[..i+1] == g.edges[..i] + [e];
      if Recorded(g, e) {
        PushLists(adj, e.target, e.source);
        assert Lists(Pushed(adj, e.target, e.source), e.target, e.source);
        answers := answers + {e.source};
        adj := Pushed(adj, e.target, e.source);
      }
    }
    assert g.edges[..|g.edges|] == g.edges;
    ghost var recorded := adj;
    for i := 0 to |roots|
      invariant forall t, s :: Lists(adj, t, s) <==>
                  Lists(recorded, t, s) || (t in roots[..i] && s in incoming(t) && s in g.nodes)
      invariant forall s :: s in answers <==> s in roots || exists t :: Lists(adj, t, s)
    {
      var r := roots[i];
      assert roots[..i+1] == roots[..i] + [r];
      var sources := incoming(r);
      ghost var before := adj;
      for j := 0 to |sources|
        invariant forall t, s :: Lists(adj, t, s) <==>
                    Lists(before, t, s) || (t == r && s in sources[..j] && s in g.nodes)
        invariant forall s :: s in answers <==> s in roots || exists t :: Lists(adj, t, s)
      {
        assert sources[..j+1] == sources[..j] + [sources[j]];
        if sources[j] in g.nodes {
          PushLists(adj, r, sources[j]);
          assert Lists(Pushed(adj, r, sources[j]), r, sources[j]);
          answers := answers + {sources[j]};
          adj := Pushed(adj, r, sources[j]);
        }
      }
      assert sources[..|sources|] == sources;
    }
    assert roots[..|roots|] == roots;
  }

  lemma PushLists(adj: Adjacency, t: string, s: string)
    ensures forall t', s' :: Lists(Pushed(adj, t, s), t', s') <==> Lists(adj, t', s') || (t' == t && s' == s)
  {
  }

  // ----- distance -----------------------------------------------------------------

  /** A walk of k dependency steps leads from some root to x. */
  ghost predicate ReachIn(adj: Adjacency, roots: seq<string>, x: string, k: nat)
    decreases k
  {
    if k == 0 then x in roots else exists y :: Lists(adj, y, x) && ReachIn(adj, roots, y, k - 1)
  }

  /** `dist` is the exact shortest distance, defined on the reachable nodes only. */
  ghost predicate Shortest(adj: Adjacency, roots: seq<string>, dist: map<string, nat>)
  {
    && (forall x :: x in dist ==> ReachIn(adj, roots, x, dist[x]))
    && (forall x, k: nat :: ReachIn(adj, roots, x, k) ==> x in dist && dist[x] <= k)
  }

  /** The queue holds nodes of two adjacent levels, nearer ones first. */
  ghost predicate QueueOk(dist: map<string, nat>, queue: seq<string>, d: nat)
  {
    && (forall i :: 0 <= i < |queue| ==> queue[i] in dist && d <= dist[queue[i]] <= d + 1)
    && (forall i, j :: 0 <= i < j < |queue| ==> dist[queue[i]] <= dist[queue[j]])
  }

  /** The successors of a finished node are known and at most one level further. */
  ghost predicate Settled(adj: Adjacency, dist: map<string, nat>, done: set<string>, d: nat)
  {
    && (forall y :: y in done ==> y in dist && dist[y] <= d)
    && (forall y, x :: y in done && Lists(adj, y, x) ==> x in dist && dist[x] <= dist[y] + 1)
  }

  ghost predicate Sound(adj: Adjacency, roots: seq<string>, dist: map<string, nat>)
  {
    forall x :: x in dist ==> ReachIn(adj, roots, x, dist[x])
  }

  function Universe(adj: Adjacency, roots: seq<string>): set<string>
  {
    (set r | r in roots) + (set t, s | t in adj && s in adj[t] :: s)
  }

  /** Between two visits: everything known is finished, being visited, or queued. */
  ghost predicate Frontier(adj: Adjacency, roots: seq<string>, dist: map<string, nat>, queue: seq<string>, done: set<string>, d: nat)
  {
    && QueueOk(dist, queue, d) && Settled(adj, dist, done, d) && Sound(adj, roots, dist)
    && (forall x :: x in dist ==> x in done || x in queue)
    && (forall r :: r in roots ==> r in dist && dist[r] == 0)
    && dist.Keys <= Universe(adj, roots)
  }

  /** While `cur` is being visited. */
  ghost predicate Visiting(adj: Adjacency, roots: seq<string>, dist: map<string, nat>, queue: seq<string>, done: set<string>, cur: string)
  {
    && cur in dist
    && QueueOk(dist, queue, dist[cur]) && Settled(adj, dist, done, dist[cur]) && Sound(adj, roots, dist)
    && (forall x :: x in dist ==> x in done || x == cur || x in queue)
    && (forall r :: r in roots ==> r in dist && dist[r] == 0)
    && dist.Keys <= Universe(adj, roots)
  }

  lemma Dequeue(adj: Adjacency, roots: seq<string>, dist: map<string, nat>, queue: seq<string>, done: set<string>, d: nat)
    requires |queue| > 0 && Frontier(adj, roots, dist, queue, done, d)
    ensures Visiting(adj, roots, dist, queue[1..], done, queue[0])
  {
    assert forall x :: x in queue <==> x == queue[0] || x in queue[1..];
  }

  lemma Discover(adj: Adjacency, roots: seq<string>, dist: map<string, nat>, queue: seq<string>, done: set<string>, cur: string, dep: string)
    requires Visiting(adj, roots, dist, queue, done, cur) && Lists(adj, cur, dep) && dep !in dist
    ensures Visiting(adj, roots, dist[dep := dist[cur] + 1], queue + [dep], done, cur)
  {
    assert ReachIn(adj, roots, cur, dist[cur]);
    assert ReachIn(adj, roots, dep, dist[cur] + 1);
    assert dep in Universe(adj, roots);
  }

  lemma Finish(adj: Adjacency, roots: seq<string>, dist: map<string, nat>, queue: seq<string>, done: set<string>, cur: string)
    requires Visiting(adj, roots, dist, queue, done, cur)
    requires forall x :: Lists(adj, cur, x) ==> x in dist
    ensures Frontier(adj, roots, dist, queue, done + {cur}, dist[cur])
  {
    forall x | Lists(adj, cur, x) ensures dist[x] <= dist[cur] + 1 {}
  }

  lemma StartFrontier(adj: Adjacency, roots: seq<string>, dist: map<string, nat>)
    requires dist == map r | r in roots :: 0
    ensures Frontier(adj, roots, dist, roots, {}, 0)
  {
  }

  lemma EndFrontier(adj: Adjacency, roots: seq<string>, dist: map<string, nat>, done: set<string>, d: nat)
    requires Frontier(adj, roots, dist, [], done, d)
    ensures Shortest(adj, roots, dist)
  {
    Complete(adj, roots, dist);
  }

  /** Breadth-first search from all roots at once. */
  method Distances(adj: Adjacency, roots: seq<string>) returns (dist: map<string, nat>)
    ensures Shortest(adj, roots, dist)
  {
    hide Frontier, Visiting, Shortest;
    dist := map[];
    var queue: seq<string> := [];
    for i := 0 to |roots|
      invariant queue == roots[..i] && dist == map r | r in roots[..i] :: 0
    {
      assert roots[..i+1] == roots[..i] + [roots[i]];
      dist := dist[roots[i] := 0];
      queue := queue + [roots[i]];
    }
    assert roots[..|roots|] == roots;
    ghost var done: set<string> := {};
    ghost var d: nat := 0;
    StartFrontier(adj, roots, dist);
    while |queue| > 0
      invariant Frontier(adj, roots, dist, queue, done, d)
      decreases Universe(adj, roots) - dist.Keys, |queue|
    {
      var cur := queue[0];
      Dequeue(adj, roots, dist, queue, done, d);
      queue := queue[1..];
      InUniverse(adj, roots, dist, queue, done, cur);
      if cur in adj {
        dist, queue := Visit(adj, roots, dist, queue, cur, done);
      }
      InUniverse(adj, roots, dist, queue, done, cur);
      Finish(adj, roots, dist, queue, done, cur);
      done, d := done + {cur}, dist[cur];
    }
    EndFrontier(adj, roots, dist, done, d);
  }

  /** Visits the dependants of one node. */
  method Visit(adj: Adjacency, roots: seq<string>, dist0: map<string, nat>, queue0: seq<string>, cur: string, ghost done: set<string>)
    returns (dist: map<string, nat>, queue: seq<string>)
    requires cur in adj && cur in dist0 && Visiting(adj, roots, dist0, queue0, done, cur)
    ensures Visiting(adj, roots, dist, queue, done, cur)
    ensures forall x :: Lists(adj, cur, x) ==> x in dist
    ensures cur in dist && dist0.Keys <= dist.Keys <= Universe(adj, roots)
    ensures dist.Keys == dist0.Keys ==> queue == queue0
  {
    hide Visiting;
    dist, queue := dist0, queue0;
    var deps := adj[cur];
    for i := 0 to |deps|
      invariant Visiting(adj, roots, dist, queue, done, cur)
      invariant cur in dist && dist0.Keys <= dist.Keys
      invariant forall j :: 0 <= j < i ==> deps[j] in dist
      invariant dist.Keys == dist0.Keys ==> queue == queue0
    {
      var dep := deps[i];
      if dep !in dist {
        Discover(adj, roots, dist, queue, done, cur, dep);
        queue := queue + [dep];
        dist := dist[dep := dist[cur] + 1];
      }
    }
    InUniverse(adj, roots, dist, queue, done, cur);
  }

  lemma InUniverse(adj: Adjacency, roots: seq<string>, dist: map<string, nat>, queue: seq<string>, done: set<string>, cur: string)
    requires Visiting(adj, roots, dist, queue, done, cur)
    ensures dist.Keys <= Universe(adj, roots) && cur in dist
  {
  }

  /** A sound labelling that is closed under one more step is the shortest distance. */
  lemma Complete(adj: Adjacency, roots: seq<string>, dist: map<string, nat>)
    requires Sound(adj, roots, dist)
    requires forall r :: r in roots ==> r in dist && dist[r] == 0
    requires forall y, x :: y in dist && Lists(adj, y, x) ==> x in dist && dist[x] <= dist[y] + 1
    ensures Shortest(adj, roots, dist)
  {
    forall x, k: nat | ReachIn(adj, roots, x, k) ensures x in dist && dist[x] <= k { Within(adj, roots, dist, x, k); }
  }

  lemma {:induction false} Within(adj: Adjacency, roots: seq<string>, dist: map<string, nat>, x: string, k: nat)
    requires forall r :: r in roots ==> r in dist && dist[r] == 0
    requires forall y, x :: y in dist && Lists(adj, y, x) ==> x in dist && dist[x] <= dist[y] + 1
    requires ReachIn(adj, roots, x, k)
    ensures x in dist && dist[x] <= k
    decreases k
  {
    if k > 0 {
      var y :| Lists(adj, y, x) && ReachIn(adj, roots, y, k - 1);
      Within(adj, roots, dist, y, k - 1);
    }
  }

  // ----- rank and cap -----------------------------------------------------------------

  /** Everything the sort compares. */
  datatype Ranking = Ranking(roots: seq<string>, answers: set<string>, dist: map<string, nat>, degree: string -> nat) {
    function Rank(id: string): nat { if id in roots then 0 else if id in answers then 1 else 2 }

    function DistOf(id: string): nat { if id in dist then dist[id] else U32_MAX }

    /** Roots, then answers, then context; nearer first; then higher degree; then id. */
    predicate Before(a: string, b: string)
    {
      if Rank(a) != Rank(b) then Rank(a) < Rank(b)
      else if DistOf(a) != DistOf(b) then DistOf(a) < DistOf(b)
      else if degree(a) != degree(b) then degree(a) > degree(b)
      else LexLeq(a, b)
    }

    predicate IsDirect(id: string) { id !in roots && DistOf(id) <= 1 }
  }

  lemma BeforeIsTotal(r: Ranking, a: string, b: string, c: string)
    ensures r.Before(a, b) || r.Before(b, a)
    ensures r.Before(a, b) && r.Before(b, a) ==> a == b
    ensures r.Before(a, b) && r.Before(b, c) ==> r.Before(a, c)
  {
    LexTotal(a, b);
    LexAntisymmetric(a, b);
    if r.Before(a, b) && r.Before(b, c) && LexLeq(a, b) && LexLeq(b, c) { LexTransitive(a, b, c); }
  }

  ghost predicate SortedBy(r: Ranking, ids: seq<string>)
  {
    forall i, j :: 0 <= i < j < |ids| ==> r.Before(ids[i], ids[j])
  }

  function InsertRanked(r: Ranking, ids: seq<string>, x: string): seq<string>
  {
    if |ids| == 0 || r.Before(ids[|ids|-1], x) then ids + [x]
    else InsertRanked(r, ids[..|ids|-1], x) + [ids[|ids|-1]]
  }

  /** The comparison sort of the library, on distinct keys. */
  function SortRanked(r: Ranking, ids: seq<string>): seq<string>
  {
    if |ids| == 0 then [] else InsertRanked(r, SortRanked(r, ids[..|ids|-1]), ids[|ids|-1])
  }

  lemma {:induction false} InsertRankedSorts(r: Ranking, ids: seq<string>, x: string)
    requires SortedBy(r, ids)
    ensures SortedBy(r, InsertRanked(r, ids, x))
    ensures multiset(InsertRanked(r, ids, x)) == multiset(ids) + multiset{x}
  {
    if |ids| == 0 {
    } else if r.Before(ids[|ids|-1], x) {
      forall i | 0 <= i < |ids| ensures r.Before(ids[i], x) { BeforeIsTotal(r, ids[i], ids[|ids|-1], x); }
    } else {
      var init, last := ids[..|ids|-1], ids[|ids|-1];
      InsertRankedSorts(r, init, x);
      BeforeIsTotal(r, last, x, x);
      var rest := InsertRanked(r, init, x);
      assert ids == init + [last];
      forall i | 0 <= i < |rest| ensures r.Before(rest[i], last) {
        assert rest[i] in multiset(rest);
        assert rest[i] == x || rest[i] in init;
      }
    }
  }

  lemma {:induction false} SortRankedSorts(r: Ranking, ids: seq<string>)
    ensures SortedBy(r, SortRanked(r, ids))
    ensures multiset(SortRanked(r, ids)) == multiset(ids)
  {
    if |ids| > 0 {
      SortRankedSorts(r, ids[..|ids|-1]);
      InsertRankedSorts(r, SortRanked(r, ids[..|ids|-1]), ids[|ids|-1]);
      assert ids == ids[..|ids|-1] + [ids[|ids|-1]];
    }
  }

  function Directs(r: Ranking, ids: set<string>): set<string>
  {
    set id | id in ids && r.IsDirect(id)
  }

  /** How many nodes survive: never fewer than the roots and their direct dependants. */
  function KeepCount(r: Ranking, ids: set<string>, cap: nat): nat
  {
    var floor := |r.roots| + |Directs(r, ids)|;
    var floor' := if floor <= |ids| then floor else |ids|;
    if cap >= floor' then cap else floor'
  }

  /** `kept` are the best n of `ids`. */
  ghost predicate IsTop(r: Ranking, ids: set<string>, kept: set<string>, n: nat)
  {
    && kept <= ids && |kept| == (if n <= |ids| then n else |ids|)
    && forall a, b :: a in kept && b in ids && b !in kept ==> r.Before(a, b)
  }

  /** The survivors of the budget. */
  ghost predicate IsCapped(r: Ranking, ids: set<string>, kept: set<string>, cap: nat)
  {
    if |ids| <= cap then kept == ids else IsTop(r, ids, kept, KeepCount(r, ids, cap))
  }

  /** Keys of a hash map, in whatever order it yields them. */
  method Enumerate(ids: set<string>) returns (s: seq<string>)
    ensures Distinct(s) && forall x :: x in s <==> x in ids
  {
    s := [];
    var left := ids;
    while left != {}
      invariant left <= ids && Distinct(s) && forall x :: x in s <==> x in ids && x !in left
      decreases left
    {
      var x :| x in left;
      s := s + [x];
      left := left - {x};
    }
  }

  method Cap(r: Ranking, ids: set<string>, cap: nat) returns (kept: set<string>)
    ensures IsCapped(r, ids, kept, cap)
  {
    if |ids| <= cap {
      return ids;
    }
    var order := Enumerate(ids);
    DistinctCount(order, ids);
    SortRankedSorts(r, order);
    var sorted := SortRanked(r, order);
    DistinctPermutes(order, sorted);
    var n := KeepCount(r, ids, cap);
    var m := if n <= |sorted| then n else |sorted|;
    kept := set x | x in sorted[..m];
    Prefix(r, sorted, ids, m);
  }

  lemma Prefix(r: Ranking, sorted: seq<string>, ids: set<string>, m: nat)
    requires SortedBy(r, sorted) && Distinct(sorted) && m <= |sorted| && forall x :: x in sorted <==> x in ids
    ensures |sorted| == |ids|
    ensures IsTop(r, ids, (set x | x in sorted[..m]), m)
  {
    var kept := set x | x in sorted[..m];
    DistinctCount(sorted, ids);
    assert Distinct(sorted[..m]) by {
      forall i, j | 0 <= i < j < m ensures sorted[..m][i] != sorted[..m][j] { assert sorted[i] != sorted[j]; }
    }
    DistinctCount(sorted[..m], kept);
    forall a, b | a in kept && b in ids && b !in kept ensures r.Before(a, b) {
      var i :| 0 <= i < m && sorted[..m][i] == a;
      var j :| 0 <= j < |sorted| && sorted[j] == b;
      forall k | 0 <= k < m ensures sorted[k] != b { assert sorted[..m][k] in kept; }
      assert r.Before(sorted[i], sorted[j]);
    }
  }

  // ----- the query -----------------------------------------------------------------

  function WithoutMarkers(nodes: Kinds, roots: seq<string>): Kinds
  {
    map id | id in nodes && (id in roots || !IsMarker(nodes[id])) :: nodes[id]
  }

  ghost predicate Depends(g: Subgraph, roots: seq<string>, incoming: string -> seq<string>, adj: Adjacency)
  {
    forall t, s :: Lists(adj, t, s) <==> DependsOn(g, roots, incoming, s, t)
  }

  /** The ranking the query computes: answers are the roots and everything that depends on
      something, distances are shortest over the dependency relation. */
  ghost predicate IsRanking(g: Subgraph, roots: seq<string>, incoming: string -> seq<string>, degree: string -> nat, r: Ranking)
  {
    && r.roots == roots && r.degree == degree
    && (forall s :: s in r.answers <==> s in roots || exists t :: DependsOn(g, roots, incoming, s, t))
    && exists adj :: Depends(g, roots, incoming, adj) && Shortest(adj, roots, r.dist)
  }

  lemma Ranks(g: Subgraph, roots: seq<string>, incoming: string -> seq<string>, r: Ranking, adj: Adjacency)
    requires Depends(g, roots, incoming, adj) && Shortest(adj, roots, r.dist) && r.roots == roots
    requires forall s :: s in r.answers <==> s in roots || exists t :: Lists(adj, t, s)
    ensures IsRanking(g, roots, incoming, r.degree, r)
  {
    forall s ensures s in r.answers <==> s in roots || exists t :: DependsOn(g, roots, incoming, s, t) {
      if t :| Lists(adj, t, s) { assert DependsOn(g, roots, incoming, s, t); }
      if t :| DependsOn(g, roots, incoming, s, t) { assert Lists(adj, t, s); }
    }
  }

  /** What the query returns, relative to the merged graph and the ranking. */
  ghost predicate IsAnswer(g: Subgraph, r: Ranking, cap: nat, nodes: Kinds, edges: seq<Edge>)
  {
    && IsCapped(r, WithoutMarkers(g.nodes, r.roots).Keys, nodes.Keys, cap)
    && (forall id :: id in nodes ==> id in g.nodes && nodes[id] == g.nodes[id])
    && (forall e :: e in edges <==> e in g.edges && e.source in nodes && e.target in nodes)
  }

  method SyncEdges(edges: seq<Edge>, nodes: Kinds) returns (kept: seq<Edge>)
    ensures forall e :: e in kept <==> e in edges && e.source in nodes && e.target in nodes
  {
    kept := [];
    for i := 0 to |edges|
      invariant forall e :: e in kept <==> e in edges[..i] && e.source in nodes && e.target in nodes
    {
      assert edges[..i+1] == edges[..i] + [edges[i]];
      if edges[i].source in nodes && edges[i].target in nodes {
        kept := kept + [edges[i]];
      }
    }
    assert edges[..|edges|] == edges;
  }

  /** The whole query over the traversal's subgraphs. */
  method GetImpactAggregated(parts: seq<Subgraph>, roots: seq<string>, incoming: string -> seq<string>, degree: string -> nat, cap: nat)
    returns (nodes: Kinds, edges: seq<Edge>)
    ensures exists g, r :: IsMerge(parts, g) && IsRanking(g, roots, incoming, degree, r) && IsAnswer(g, r, cap, nodes, edges)
  {
    hide IsMerge, IsCapped, Shortest, DependsOn;
    var merged := Merge(parts);
    var answers, adj := CollectAnswers(merged, roots, incoming);
    var dist := Distances(adj, roots);
    var ranking := Ranking(roots, answers, dist, degree);
    Ranks(merged, roots, incoming, ranking, adj);
    var all := WithoutMarkers(merged.nodes, roots);
    var kept := Cap(ranking, all.Keys, cap);
    KeptAreNodes(ranking, all.Keys, kept, cap);
    nodes := map id | id in all && id in kept :: all[id];
    assert nodes.Keys == kept;
    edges := SyncEdges(merged.edges, nodes);
    assert IsAnswer(merged, ranking, cap, nodes, edges);
  }

  lemma KeptAreNodes(r: Ranking, ids: set<string>, kept: set<string>, cap: nat)
    requires IsCapped(r, ids, kept, cap)
    ensures kept <= ids
  {
  }

  // ----- what the answer guarantees ---------------------------------------------------

  lemma DirectHasDistanceAtMostOne(g: Subgraph, roots: seq<string>, incoming: string -> seq<string>, degree: string -> nat, r: Ranking, s: string, t: string)
    requires IsRanking(g, roots, incoming, degree, r) && t in roots && DependsOn(g, roots, incoming, s, t)
    ensures s in roots || r.IsDirect(s)
  {
    var adj :| Depends(g, roots, incoming, adj) && Shortest(adj, roots, r.dist);
    assert Lists(adj, t, s) && ReachIn(adj, roots, t, 0);
    assert ReachIn(adj, roots, s, 1);
  }

  lemma DirectIsAnswer(g: Subgraph, roots: seq<string>, incoming: string -> seq<string>, degree: string -> nat, r: Ranking, s: string)
    requires IsRanking(g, roots, incoming, degree, r) && r.IsDirect(s)
    ensures s in r.answers && r.DistOf(s) == 1
  {
    var adj :| Depends(g, roots, incoming, adj) && Shortest(adj, roots, r.dist);
    assert ReachIn(adj, roots, s, r.dist[s]);
    if r.dist[s] == 1 {
      var y :| Lists(adj, y, s) && ReachIn(adj, roots, y, 0);
    }
  }

  /** A set that is closed downwards in the ranking and fits the budget survives whole. */
  lemma DownClosedSurvives(r: Ranking, ids: set<string>, kept: set<string>, n: nat, t: set<string>)
    requires IsTop(r, ids, kept, n) && t <= ids && |t| <= n
    requires forall a, b :: a in ids && b in t && a !in t ==> !r.Before(a, b)
    ensures t <= kept
  {
    if x :| x in t && x !in kept {
      forall a | a in kept ensures a in t { assert r.Before(a, x); }
      assert kept <= t - {x};
      SubsetSize(kept, t - {x});
      SubsetSize(t, ids);
    }
  }

  lemma SubsetSize<T>(a: set<T>, b: set<T>)
    requires a <= b
    ensures |a| <= |b|
  {
    if a != {} {
      var x :| x in a;
      SubsetSize(a - {x}, b - {x});
    }
  }

  /** Every root and every direct dependant that is not a pure marker survives the cap. */
  lemma DirectDependantsSurvive(g: Subgraph, roots: seq<string>, incoming: string -> seq<string>, degree: string -> nat,
                                r: Ranking, ids: set<string>, kept: set<string>, cap: nat, id: string)
    requires IsRanking(g, roots, incoming, degree, r) && IsCapped(r, ids, kept, cap)
    requires id in ids && (id in roots || exists t :: t in roots && DependsOn(g, roots, incoming, id, t))
    ensures id in kept
  {
    if |ids| > cap {
      if id !in roots {
        var t :| t in roots && DependsOn(g, roots, incoming, id, t);
        DirectHasDistanceAtMostOne(g, roots, incoming, degree, r, id, t);
      }
      forall b | r.IsDirect(b) ensures b in r.answers && r.DistOf(b) == 1 { DirectIsAnswer(g, roots, incoming, degree, r, b); }
      hide DependsOn, IsRanking;
      ProtectedFits(r, ids, cap);
      ProtectedComesFirst(r, ids);
      DownClosedSurvives(r, ids, kept, KeepCount(r, ids, cap), Protected(r, ids));
    }
  }

  /** The roots and direct dependants among `ids`. */
  function Protected(r: Ranking, ids: set<string>): set<string>
  {
    (set x | x in ids && x in r.roots) + Directs(r, ids)
  }

  lemma ProtectedFits(r: Ranking, ids: set<string>, cap: nat)
    ensures |Protected(r, ids)| <= KeepCount(r, ids, cap)
  {
    var rootsIn := set x | x in ids && x in r.roots;
    RootsAreFew(r.roots, rootsIn);
    SubsetSize(Protected(r, ids), ids);
  }

  lemma ProtectedComesFirst(r: Ranking, ids: set<string>)
    requires forall b :: r.IsDirect(b) ==> b in r.answers && r.DistOf(b) == 1
    ensures forall a, b :: a in ids && b in Protected(r, ids) && a !in Protected(r, ids) ==> !r.Before(a, b)
  {
    forall a, b | a in ids && b in Protected(r, ids) && a !in Protected(r, ids) ensures !r.Before(a, b) {
      assert a !in r.roots && !r.IsDirect(a);
    }
  }

  lemma {:induction false} RootsAreFew(roots: seq<string>, s: set<string>)
    requires forall x :: x in s ==> x in roots
    ensures |s| <= |roots|
  {
    if |roots| > 0 {
      var last := roots[|roots|-1];
      assert forall x :: x in roots ==> x == last || x in roots[..|roots|-1];
      RootsAreFew(roots[..|roots|-1], s - {last});
      assert |s| <= |s - {last}| + 1;
    } else {
      assert s == {};
    }
  }

  /** No context node is kept while an answer node is dropped, nor a farther node of one
      class while a nearer one is; at the same distance the higher degree is kept, and at
      the same degree the smaller id. */
  lemma CapIsFair(r: Ranking, ids: set<string>, kept: set<string>, cap: nat, a: string, b: string)
    requires IsCapped(r, ids, kept, cap) && a in kept && b in ids && b !in kept
    ensures r.Rank(a) <= r.Rank(b)
    ensures r.Rank(a) == r.Rank(b) ==> r.DistOf(a) <= r.DistOf(b)
    ensures r.Rank(a) == r.Rank(b) && r.DistOf(a) == r.DistOf(b) ==>
              r.degree(a) > r.degree(b) || (r.degree(a) == r.degree(b) && LexLeq(a, b))
  {
    assert r.Before(a, b);
  }

  lemma CapSize(r: Ranking, ids: set<string>, kept: set<string>, cap: nat)
    requires IsCapped(r, ids, kept, cap)
    ensures |kept| <= (if cap >= |r.roots| + |Directs(r, ids)| then cap else |r.roots| + |Directs(r, ids)|)
  {
  }

  /** The survivors do not depend on the order a hash map yields its keys in. */
  lemma CapIsDeterministic(r: Ranking, ids: set<string>, kept: set<string>, kept': set<string>, cap: nat)
    requires IsCapped(r, ids, kept, cap) && IsCapped(r, ids, kept', cap)
    ensures kept == kept'
  {
    if |ids| > cap {
      var n := KeepCount(r, ids, cap);
      forall a, b | a in ids && b in kept && a !in kept ensures !r.Before(a, b) { BeforeIsTotal(r, a, b, b); }
      SubsetSize(kept, ids);
      DownClosedSurvives(r, ids, kept', n, kept);
      if kept != kept' { SubsetSize(kept, kept' ); SameSize(kept, kept'); }
    }
  }

  lemma SameSize<T>(a: set<T>, b: set<T>)
    requires a <= b && |a| == |b|
    ensures a == b
  {
    if x :| x in b && x !in a { SubsetSize(a, b - {x}); }
  }

  function Answers(r: Ranking, ids: set<string>): set<string>
  {
    set id | id in ids && (id in r.roots || id in r.answers)
  }

  /** The comment in the source says that all answer nodes are kept. They are if and only
      if they fit: deeper answers compete for the budget like context does. */
  lemma AllAnswersKeptIffTheyFit(r: Ranking, ids: set<string>, kept: set<string>, cap: nat)
    requires IsCapped(r, ids, kept, cap)
    ensures Answers(r, ids) <= kept <==> |ids| <= cap || |Answers(r, ids)| <= KeepCount(r, ids, cap)
  {
    if |ids| > cap {
      var all := Answers(r, ids);
      SubsetSize(all, ids);
      if |all| <= KeepCount(r, ids, cap) {
        DownClosedSurvives(r, ids, kept, KeepCount(r, ids, cap), all);
      }
      if all <= kept { SubsetSize(all, kept); }
    }
  }

  /** x depends on d and d on the root r. */
  const CHAIN: Subgraph :=
    Subgraph(map["r" := NodeKind.Function, "d" := NodeKind.Function, "x" := NodeKind.Function],
             [Edge("d", "r", Calls), Edge("x", "d", Calls)])

  function IntoRoot(id: string): seq<string> { if id == "r" then ["d"] else [] }

  lemma OneHas(p: Subgraph)
    ensures forall id :: SomeHasNode([p], id) <==> id in p.nodes
    ensures forall id, kind :: SomeHasKind([p], id, kind) <==> id in p.nodes && p.nodes[id] == kind
    ensures forall e :: SomeHasEdge([p], e) <==> e in p.edges
  {
    assert [p][0] == p;
  }

  /** A single subgraph without repeated pairs is its own merge. */
  lemma MergeOfOne(p: Subgraph, g: Subgraph)
    requires IsMerge([p], g) && forall e, f :: e in p.edges && f in p.edges && Ends(e) == Ends(f) ==> e == f
    ensures g.nodes == p.nodes && forall e :: e in g.edges <==> e in p.edges
  {
    OneHas(p);
    hide SomeHasNode, SomeHasKind, SomeHasEdge, OneEdgePerPair, Ends;
    forall id | id in g.nodes ensures g.nodes[id] == p.nodes[id] { assert SomeHasKind([p], id, g.nodes[id]); }
    forall e | e in p.edges ensures e in g.edges {
      var f :| f in g.edges && Ends(f) == Ends(e);
      assert f in p.edges;
    }
  }

  lemma ChainDependants(g: Subgraph, s: string, t: string)
    requires g.nodes == CHAIN.nodes && forall e :: e in g.edges <==> e in CHAIN.edges
    ensures DependsOn(g, ["r"], IntoRoot, s, t) <==> (s == "d" && t == "r") || (s == "x" && t == "d")
  {
    var one, two := Edge("d", "r", Calls), Edge("x", "d", Calls);
    assert one in CHAIN.edges && two in CHAIN.edges && forall e :: e in CHAIN.edges ==> e == one || e == two;
    assert Recorded(g, one) && Recorded(g, two);
  }

  lemma ChainDistances(g: Subgraph, degree: string -> nat, r: Ranking)
    requires g.nodes == CHAIN.nodes && (forall e :: e in g.edges <==> e in CHAIN.edges)
    requires IsRanking(g, ["r"], IntoRoot, degree, r)
    ensures r.roots == ["r"] && r.answers == {"r", "d", "x"} && r.DistOf("r") == 0 && r.DistOf("d") == 1 && r.DistOf("x") == 2
  {
    forall s, t ensures DependsOn(g, ["r"], IntoRoot, s, t) <==> (s == "d" && t == "r") || (s == "x" && t == "d") {
      ChainDependants(g, s, t);
    }
    hide DependsOn;
    var adj :| Depends(g, ["r"], IntoRoot, adj) && Shortest(adj, ["r"], r.dist);
    ChainLevels(adj, r.dist);
    assert DependsOn(g, ["r"], IntoRoot, "d", "r") && DependsOn(g, ["r"], IntoRoot, "x", "d");
  }

  lemma ChainLevels(adj: Adjacency, dist: map<string, nat>)
    requires Shortest(adj, ["r"], dist)
    requires forall t, s :: Lists(adj, t, s) <==> (s == "d" && t == "r") || (s == "x" && t == "d")
    ensures "r" in dist && dist["r"] == 0 && "d" in dist && dist["d"] == 1 && "x" in dist && dist["x"] == 2
  {
    assert Lists(adj, "r", "d") && Lists(adj, "d", "x");
    assert ReachIn(adj, ["r"], "r", 0) && ReachIn(adj, ["r"], "d", 1) && ReachIn(adj, ["r"], "x", 2);
    assert !ReachIn(adj, ["r"], "d", 0) && !ReachIn(adj, ["r"], "x", 0);
    assert !ReachIn(adj, ["r"], "x", 1);
  }

  lemma ChainCapped(r: Ranking, kept: set<string>)
    requires r.roots == ["r"] && r.answers == {"r", "d", "x"} && r.DistOf("r") == 0 && r.DistOf("d") == 1 && r.DistOf("x") == 2
    requires IsCapped(r, {"r", "d", "x"}, kept, 2)
    ensures kept == {"r", "d"}
  {
    var ids := {"r", "d", "x"};
    assert Directs(r, ids) == {"d"} && KeepCount(r, ids, 2) == 2;
    assert !r.Before("x", "r") && !r.Before("x", "d");
    SubsetSize(kept, ids);
    SubsetSize({"r", "d"}, ids);
    if "x" in kept { SubsetSize(ids, kept); }
    SameSize(kept, {"r", "d"});
  }

  /** They need not: in a chain from a root, within a budget of two, the dependant of the
      direct dependant is an answer and is dropped. */
  lemma DeepAnswerIsDropped(g: Subgraph, degree: string -> nat, r: Ranking, nodes: Kinds, edges: seq<Edge>)
    requires IsMerge([CHAIN], g) && IsRanking(g, ["r"], IntoRoot, degree, r) && IsAnswer(g, r, 2, nodes, edges)
    ensures "x" in r.answers && nodes.Keys == {"r", "d"}
  {
    hide IsMerge, IsRanking, IsCapped;
    MergeOfOne(CHAIN, g);
    ChainDistances(g, degree, r);
    assert WithoutMarkers(CHAIN.nodes, ["r"]).Keys == {"r", "d", "x"};
    ChainCapped(r, nodes.Keys);
  }

  /** The answer as a caller sees it: roots and direct dependants are in, pure markers are
      out unless they are roots, the size is within the budget or the protected floor, and
      no edge dangles. */
  lemma AnswerGuarantees(parts: seq<Subgraph>, roots: seq<string>, incoming: string -> seq<string>, degree: string -> nat, cap: nat,
                         g: Subgraph, r: Ranking, nodes: Kinds, edges: seq<Edge>)
    requires IsMerge(parts, g) && IsRanking(g, roots, incoming, degree, r) && IsAnswer(g, r, cap, nodes, edges)
    ensures forall id :: id in roots && SomeHasNode(parts, id) ==> id in nodes
    ensures forall s, t :: t in roots && s in g.nodes && !IsMarker(g.nodes[s]) && DependsOn(g, roots, incoming, s, t) ==> s in nodes
    ensures forall id :: id in nodes && id !in roots ==> !IsMarker(nodes[id])
    ensures forall e :: e in edges ==> e.source in nodes && e.target in nodes
    ensures var ids := WithoutMarkers(g.nodes, roots).Keys;
            |nodes.Keys| <= (if cap >= |roots| + |Directs(r, ids)| then cap else |roots| + |Directs(r, ids)|)
  {
    var ids := WithoutMarkers(g.nodes, roots).Keys;
    CapSize(r, ids, nodes.Keys, cap);
    KeptAreNodes(r, ids, nodes.Keys, cap);
    forall id | id in roots && SomeHasNode(parts, id) ensures id in nodes {
      DirectDependantsSurvive(g, roots, incoming, degree, r, ids, nodes.Keys, cap, id);
    }
    forall s, t | t in roots && s in g.nodes && !IsMarker(g.nodes[s]) && DependsOn(g, roots, incoming, s, t)
      ensures s in nodes
    {
      DirectDependantsSurvive(g, roots, incoming, degree, r, ids, nodes.Keys, cap, s);
    }
  }
}
