/**
 Finite directed graphs given as adjacency lists: walks, reachability through at
 least one edge, and rankings. A vertex that is not a key has no outgoing edge.
 */
module Graphs {

  type Graph<V(==)> = map<V, seq<V>>

  predicate Edge<V(==)>(g: Graph<V>, a: V, b: V) {
    a in g && b in g[a]
  }

  /** A non-empty list of vertices joined by real edges. */
  ghost predicate Walk<V>(g: Graph<V>, p: seq<V>) {
    |p| > 0 && forall i | 0 <= i < |p| - 1 :: Edge(g, p[i], p[i + 1])
  }

  ghost predicate WalkFromTo<V>(g: Graph<V>, p: seq<V>, a: V, b: V) {
    Walk(g, p) && p[0] == a && p[|p| - 1] == b
  }

  /** `b` is reachable from `a` through one or more edges. */
  ghost predicate Reaches<V(!new)>(g: Graph<V>, a: V, b: V) {
    exists p :: |p| >= 2 && WalkFromTo(g, p, a, b)
  }

  ghost predicate ClosedWalk<V>(g: Graph<V>, p: seq<V>) {
    Walk(g, p) && |p| >= 2 && p[0] == p[|p| - 1]
  }

  ghost predicate Cyclic<V(!new)>(g: Graph<V>) {
    exists p :: ClosedWalk(g, p)
  }

  /** `rank` is defined on every vertex and drops along every edge between vertices. */
  ghost predicate Ranked<V(!new)>(g: Graph<V>, rank: map<V, nat>) {
    && g.Keys <= rank.Keys
    && forall a, b | Edge(g, a, b) && b in g :: rank[b] < rank[a]
  }

  /** Every edge leads to a vertex of the graph. */
  ghost predicate Closed<V(!new)>(g: Graph<V>) {
    forall a, b | Edge(g, a, b) :: b in g
  }

  lemma {:induction false} RankDropsAlongWalk<V(!new)>(g: Graph<V>, rank: map<V, nat>, p: seq<V>)
    requires Ranked(g, rank) && Walk(g, p) && |p| >= 2 && p[|p| - 1] in g
    ensures p[0] in g && rank[p[|p| - 1]] < rank[p[0]]
  {
    assert Edge(g, p[0], p[1]);
    if |p| > 2 {
      forall i | 0 <= i < |p[1..]| - 1
        ensures Edge(g, p[1..][i], p[1..][i + 1])
      {
        assert Edge(g, p[i + 1], p[i + 2]);
      }
      RankDropsAlongWalk(g, rank, p[1..]);
    }
  }

  lemma RankedIsAcyclic<V(!new)>(g: Graph<V>, rank: map<V, nat>)
    requires Ranked(g, rank)
    ensures !Cyclic(g)
  {
    if p :| ClosedWalk(g, p) {
      assert Edge(g, p[0], p[1]);
      RankDropsAlongWalk(g, rank, p);
      assert false;
    }
  }

  lemma WalkCons<V(!new)>(g: Graph<V>, a: V, p: seq<V>)
    requires Walk(g, p) && Edge(g, a, p[0])
    ensures Walk(g, [a] + p)
  {
    var q := [a] + p;
    forall i | 0 <= i < |q| - 1
      ensures Edge(g, q[i], q[i + 1])
    {
      if i > 0 {
        assert Edge(g, p[i - 1], p[i]);
      }
    }
  }

  lemma WalkTail<V(!new)>(g: Graph<V>, p: seq<V>)
    requires Walk(g, p) && |p| >= 2
    ensures Edge(g, p[0], p[1]) && Walk(g, p[1..])
  {
    forall i | 0 <= i < |p[1..]| - 1
      ensures Edge(g, p[1..][i], p[1..][i + 1])
    {
      assert Edge(g, p[i + 1], p[i + 2]);
    }
  }

  /** Reachability unfolds at its first edge. */
  lemma ReachesUnfold<V(!new)>(g: Graph<V>, a: V, b: V)
    ensures Reaches(g, a, b) <==> exists m :: Edge(g, a, m) && (m == b || Reaches(g, m, b))
  {
    if Reaches(g, a, b) {
      var p :| |p| >= 2 && WalkFromTo(g, p, a, b);
      WalkTail(g, p);
      if |p| > 2 {
        assert WalkFromTo(g, p[1..], p[1], b);
      }
      assert Edge(g, a, p[1]) && (p[1] == b || Reaches(g, p[1], b));
    }
    if m :| Edge(g, a, m) && (m == b || Reaches(g, m, b)) {
      var p := [m];
      if m != b {
        p :| |p| >= 2 && WalkFromTo(g, p, m, b);
      }
      WalkCons(g, a, p);
      assert WalkFromTo(g, [a] + p, a, b);
    }
  }

  lemma {:induction false} WalkStaysInside<V(!new)>(g: Graph<V>, s: seq<V>, w: seq<V>)
    requires (forall a, b | a in s && Edge(g, a, b) :: b in s) && Walk(g, w) && w[0] in s
    ensures w[|w| - 1] in s
    decreases |w|
  {
    if |w| > 1 {
      WalkTail(g, w);
      WalkStaysInside(g, s, w[1..]);
    }
  }

  /** Nothing is reachable outside a list that its edges never leave. */
  lemma ReachesStaysInside<V(!new)>(g: Graph<V>, s: seq<V>, a: V, b: V)
    requires (forall x, y | x in s && Edge(g, x, y) :: y in s) && a in s && Reaches(g, a, b)
    ensures b in s
  {
    var w :| |w| >= 2 && WalkFromTo(g, w, a, b);
    WalkStaysInside(g, s, w);
  }
}
