/** What the impact query answers, by the kinds of edges and nodes. */
module ImpactLaws {
  import opened Graph
  import opened Ordering
  import opened Impact

  /** The node calls, references, implements, extends, instantiates or uses t. */
  ghost predicate NeedsIt(g: Subgraph, s: string, t: string)
  {
    s in g.nodes && t in g.nodes
    && (Edge(s, t, Calls) in g.edges || Edge(s, t, References) in g.edges || Edge(s, t, EdgeKind.Implements) in g.edges
        || Edge(s, t, Extends) in g.edges || Edge(s, t, Instantiates) in g.edges || Edge(s, t, Uses) in g.edges)
  }

  ghost predicate NeedsSomething(g: Subgraph, s: string) { exists t :: NeedsIt(g, s, t) }

  ghost predicate ReachesRoot(g: Subgraph, roots: seq<string>, incoming: string -> seq<string>, s: string)
  {
    s in g.nodes && exists t :: t in roots && s in incoming(t)
  }

  lemma DependingIs(g: Subgraph, roots: seq<string>, incoming: string -> seq<string>, s: string, t: string)
    ensures DependsOn(g, roots, incoming, s, t) <==> NeedsIt(g, s, t) || (s in g.nodes && t in roots && s in incoming(t))
  {
    if e :| e in g.edges && Recorded(g, e) && e.source == s && e.target == t { assert e == Edge(s, t, e.kind); }
    if NeedsIt(g, s, t) {
      var kinds := [Calls, References, EdgeKind.Implements, Extends, Instantiates, Uses];
      assert forall k :: k in kinds ==> IsAnswerKind(k);
      var k :| k in kinds && Edge(s, t, k) in g.edges;
      assert Recorded(g, Edge(s, t, k));
    }
  }

  /** Which nodes are answers: the roots, what has such an edge, and what the direct query
      of a root finds. */
  lemma AnswersAre(g: Subgraph, roots: seq<string>, incoming: string -> seq<string>, degree: string -> nat, r: Ranking, s: string)
    requires IsRanking(g, roots, incoming, degree, r)
    ensures s in r.answers <==> s in roots || NeedsSomething(g, s) || ReachesRoot(g, roots, incoming, s)
  {
    forall t ensures DependsOn(g, roots, incoming, s, t) <==> NeedsIt(g, s, t) || (s in g.nodes && t in roots && s in incoming(t)) {
      DependingIs(g, roots, incoming, s, t);
    }
    hide DependsOn, NeedsIt, Depends, Shortest;
    if ReachesRoot(g, roots, incoming, s) {
      var t :| t in roots && s in incoming(t);
      assert DependsOn(g, roots, incoming, s, t);
    }
    if NeedsSomething(g, s) {
      var t :| NeedsIt(g, s, t);
      assert DependsOn(g, roots, incoming, s, t);
    }
  }

  /** A node that needs nothing is not kept in the place of one that does. */
  lemma ContextYields(g: Subgraph, roots: seq<string>, incoming: string -> seq<string>, degree: string -> nat, r: Ranking,
                      cap: nat, nodes: Kinds, edges: seq<Edge>, x: string, y: string)
    requires IsRanking(g, roots, incoming, degree, r) && IsAnswer(g, r, cap, nodes, edges)
    requires x in g.nodes && !g.nodes[x].File? && !g.nodes[x].Namespace? && NeedsSomething(g, x) && x !in nodes && y in nodes
    ensures y in roots || NeedsSomething(g, y) || ReachesRoot(g, roots, incoming, y)
  {
    AnswersAre(g, roots, incoming, degree, r, x);
    AnswersAre(g, roots, incoming, degree, r, y);
    assert x in WithoutMarkers(g.nodes, r.roots).Keys;
    hide IsCapped, NeedsSomething, ReachesRoot;
    CapIsFair(r, WithoutMarkers(g.nodes, r.roots).Keys, nodes.Keys, cap, y, x);
  }

  /** What needs a root stays, whatever the budget. */
  lemma DirectNeedStays(parts: seq<Subgraph>, roots: seq<string>, incoming: string -> seq<string>, degree: string -> nat, cap: nat,
                        g: Subgraph, r: Ranking, nodes: Kinds, edges: seq<Edge>, s: string, t: string)
    requires IsMerge(parts, g) && IsRanking(g, roots, incoming, degree, r) && IsAnswer(g, r, cap, nodes, edges)
    requires t in roots && NeedsIt(g, s, t) && !g.nodes[s].File? && !g.nodes[s].Namespace?
    ensures s in nodes
  {
    DependingIs(g, roots, incoming, s, t);
    assert s in g.nodes && !IsMarker(g.nodes[s]);
    hide IsMerge, IsRanking, IsAnswer, DependsOn, NeedsIt;
    AnswerGuarantees(parts, roots, incoming, degree, cap, g, r, nodes, edges);
  }

  /** A merge that fits the budget loses its files and namespaces only, and no root. */
  lemma OnlyMarkersGo(g: Subgraph, r: Ranking, cap: nat, nodes: Kinds, edges: seq<Edge>, id: string)
    requires IsAnswer(g, r, cap, nodes, edges) && |g.nodes.Keys| <= cap
    ensures id in nodes <==> id in g.nodes && (id in r.roots || (!g.nodes[id].File? && !g.nodes[id].Namespace?))
  {
    SubsetSize(WithoutMarkers(g.nodes, r.roots).Keys, g.nodes.Keys);
  }

  /** What depends on no root is farther than all that does, within two to the 32nd steps. */
  lemma UnreachedIsFarthest(r: Ranking, near: string, far: string)
    requires near in r.dist && far !in r.dist && r.dist[near] < 0xFFFF_FFFF && r.Rank(near) == r.Rank(far)
    ensures r.Before(near, far) && !r.Before(far, near)
  {
  }
}
