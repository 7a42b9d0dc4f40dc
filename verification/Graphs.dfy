/** Finite directed graphs given by adjacency, their walks and their cycles. */
module Graphs {

  /** A node without an entry has no outgoing edges. */
  type Graph<!N> = map<N, set<N>>

  ghost predicate Edge<N>(g: Graph<N>, a: N, b: N) {
    a in g && b in g[a]
  }

  ghost predicate IsWalk<N>(g: Graph<N>, p: seq<N>) {
    forall i :: 0 <= i < |p| - 1 ==> Edge(g, p[i], p[i + 1])
  }

  ghost predicate IsCycle<N>(g: Graph<N>, p: seq<N>) {
    |p| >= 2 && p[0] == p[|p| - 1] && IsWalk(g, p)
  }

  ghost predicate Cyclic<N(!new)>(g: Graph<N>) {
    exists p :: IsCycle(g, p)
  }

  /** The edge is the last edge of a cycle. */
  ghost predicate ClosesCycle<N(!new)>(g: Graph<N>, a: N, b: N) {
    exists p :: IsCycle(g, p) && p[|p| - 2] == a && p[|p| - 1] == b
  }

  /** Every walk from the node has at most `k` edges. */
  ghost predicate Bounded<N>(g: Graph<N>, a: N, k: nat) {
    a in g ==> forall b :: b in g[a] ==> k > 0 && Bounded(g, b, k - 1)
  }

  ghost predicate Grounded<N>(g: Graph<N>, a: N) {
    exists k: nat :: Bounded(g, a, k)
  }

  lemma {:induction false} BoundedGrows<N>(g: Graph<N>, a: N, k: nat, m: nat)
    requires Bounded(g, a, k) && k <= m
    ensures Bounded(g, a, m)
    decreases k
  {
    if a in g {
      forall b | b in g[a]
        ensures m > 0 && Bounded(g, b, m - 1)
      {
        BoundedGrows(g, b, k - 1, m - 1);
      }
    }
  }

  lemma {:induction false} WalkIsBounded<N>(g: Graph<N>, p: seq<N>, k: nat)
    requires p != [] && IsWalk(g, p) && Bounded(g, p[0], k)
    ensures |p| - 1 <= k && Bounded(g, p[|p| - 1], k - (|p| - 1))
    decreases |p|
  {
    if |p| > 1 {
      assert Edge(g, p[0], p[1]);
      forall i | 0 <= i < |p[1..]| - 1
        ensures Edge(g, p[1..][i], p[1..][i + 1])
      {
        assert Edge(g, p[i + 1], p[i + 2]);
      }
      WalkIsBounded(g, p[1..], k - 1);
    }
  }

  /** A node whose walks are bounded lies on no cycle. */
  lemma {:induction false} BoundedIsOffCycles<N>(g: Graph<N>, p: seq<N>, k: nat)
    requires p != [] && Bounded(g, p[0], k)
    ensures !IsCycle(g, p)
    decreases k
  {
    if IsCycle(g, p) {
      WalkIsBounded(g, p, k);
      BoundedIsOffCycles(g, p, k - (|p| - 1));
    }
  }

  /** A graph is acyclic when every node with outgoing edges has bounded walks. */
  lemma AllBoundedIsAcyclic<N(!new)>(g: Graph<N>)
    requires forall a :: a in g ==> Grounded(g, a)
    ensures !Cyclic(g)
  {
    if Cyclic(g) {
      var p :| IsCycle(g, p);
      assert Edge(g, p[0], p[1]) && Grounded(g, p[0]);
      var k: nat :| Bounded(g, p[0], k);
      BoundedIsOffCycles(g, p, k);
    }
  }

  /** Each node comes after everything it has an edge to. */
  ghost predicate IsTopological<N>(g: Graph<N>, order: seq<N>) {
    forall i :: 0 <= i < |order| ==> Preceded(g, order[..i], order[i])
  }

  ghost predicate Preceded<N>(g: Graph<N>, before: seq<N>, a: N) {
    a in g ==> forall b :: b in g[a] ==> b in before
  }

  lemma {:induction false} TopologicalIsBounded<N>(g: Graph<N>, order: seq<N>, i: nat)
    requires IsTopological(g, order) && i < |order|
    ensures Bounded(g, order[i], i)
    decreases i
  {
    if order[i] in g {
      forall b | b in g[order[i]]
        ensures i > 0 && Bounded(g, b, i - 1)
      {
        assert Preceded(g, order[..i], order[i]);
        var j :| 0 <= j < i && order[j] == b;
        TopologicalIsBounded(g, order, j);
        BoundedGrows(g, b, j, i - 1);
      }
    }
  }

  lemma TopologicalExtends<N>(g: Graph<N>, order: seq<N>, a: N)
    requires IsTopological(g, order) && Preceded(g, order, a)
    ensures IsTopological(g, order + [a])
  {
    var longer := order + [a];
    forall i | 0 <= i < |longer|
      ensures Preceded(g, longer[..i], longer[i])
    {
      assert longer[..i] == order[..i];
      if i < |order| {
        assert Preceded(g, order[..i], order[i]);
      } else {
        assert order[..i] == order;
      }
    }
  }

  lemma TopologicalIsAcyclic<N(!new)>(g: Graph<N>, order: seq<N>)
    requires IsTopological(g, order) && forall a :: a in g ==> a in order
    ensures !Cyclic(g)
  {
    forall a | a in g
      ensures Grounded(g, a)
    {
      var i :| 0 <= i < |order| && order[i] == a;
      TopologicalIsBounded(g, order, i);
    }
    AllBoundedIsAcyclic(g);
  }

  /** A walk whose last node has an edge back to one of its nodes closes a cycle. */
  lemma BackEdgeClosesCycle<N(!new)>(g: Graph<N>, p: seq<N>, b: N)
    requires p != [] && IsWalk(g, p) && Edge(g, p[|p| - 1], b) && b in p
    ensures ClosesCycle(g, p[|p| - 1], b)
  {
    var i :| 0 <= i < |p| && p[i] == b;
    var c := p[i..] + [b];
    forall j | 0 <= j < |c| - 1
      ensures Edge(g, c[j], c[j + 1])
    {
      if j + 1 < |p| - i {
        assert Edge(g, p[i + j], p[i + j + 1]);
      }
    }
    assert IsCycle(g, c);
  }

  lemma WalkExtends<N>(g: Graph<N>, p: seq<N>, b: N)
    requires IsWalk(g, p) && (p != [] ==> Edge(g, p[|p| - 1], b))
    ensures IsWalk(g, p + [b])
  {
    forall i | 0 <= i < |p + [b]| - 1
      ensures Edge(g, (p + [b])[i], (p + [b])[i + 1])
    {
      if i < |p| - 1 {
        assert Edge(g, p[i], p[i + 1]);
      }
    }
  }

  /** Only edges between present nodes. */
  function Present<N>(g: Graph<N>): Graph<N> {
    map a | a in g :: set b | b in g[a] && b in g
  }

  /** Leaving out edges to absent nodes neither makes nor breaks a cycle. */
  lemma PresentKeepsCycles<N(!new)>(g: Graph<N>)
    ensures Cyclic(Present(g)) <==> Cyclic(g)
  {
    forall p
      ensures IsCycle(Present(g), p) <==> IsCycle(g, p)
    {
      if IsCycle(g, p) {
        forall i | 0 <= i < |p| - 1
          ensures Edge(Present(g), p[i], p[i + 1])
        {
          assert Edge(g, p[i], p[i + 1]);
          if i + 1 < |p| - 1 {
            assert Edge(g, p[i + 1], p[i + 2]);
          } else {
            assert Edge(g, p[0], p[1]);
          }
        }
      }
      if IsCycle(Present(g), p) {
        forall i | 0 <= i < |p| - 1
          ensures Edge(g, p[i], p[i + 1])
        {
          assert Edge(Present(g), p[i], p[i + 1]);
        }
      }
    }
  }
}
