/**
 * Reachability in the presence graph.
 *
 * The graph is stored as a node set and a set of ordered pairs; an
 * undirected edge between `a` and `b` is present as both `(a, b)` and
 * `(b, a)`. `Closure` is the fixpoint the local node computes when it
 * decides which peers are still online; `Reaches` is the path-based
 * meaning a shortest-path search answers, and the lemmas below show the
 * two agree.
 */
module Reach {
  import opened Wire

  type Edges = set<(Bytes, Bytes)>

  /** Every edge joins two nodes of `nodes`. */
  predicate Within(nodes: set<Bytes>, edges: Edges) {
    forall e :: e in edges ==> e.0 in nodes && e.1 in nodes
  }

  /** The nodes of `nodes` one edge away from some member of `s`. */
  function Step(nodes: set<Bytes>, edges: Edges, s: set<Bytes>): (r: set<Bytes>)
    ensures r <= nodes
    ensures forall e :: e in edges && e.0 in s && e.1 in nodes ==> e.1 in r
  {
    set e | e in edges && e.0 in s && e.1 in nodes :: e.1
  }

  /** A closed set: no edge leaves it inside `nodes`. */
  predicate Closed(nodes: set<Bytes>, edges: Edges, s: set<Bytes>) {
    Step(nodes, edges, s) <= s
  }

  lemma StrictSubsetCard(a: set<Bytes>, b: set<Bytes>, n: set<Bytes>)
    requires a < b <= n
    ensures |n - b| < |n - a|
  {
    var x :| x in b && x !in a;
    var c, d := n - a, n - b;
    var rest := c - d;
    assert c == d + rest && d * rest == {};
    assert x in rest;
  }

  /** The least superset of `s` inside `nodes` that is closed under the edges. */
  function Closure(nodes: set<Bytes>, edges: Edges, s: set<Bytes>): (r: set<Bytes>)
    requires s <= nodes
    ensures s <= r <= nodes
    ensures Closed(nodes, edges, r)
    decreases |nodes - s|
  {
    var next := s + Step(nodes, edges, s);
    if next == s then s
    else
      StrictSubsetCard(s, next, nodes);
      Closure(nodes, edges, next)
  }

  /** `p` follows edges from its first node to its last. */
  ghost predicate Walk(edges: Edges, p: seq<Bytes>) {
    |p| > 0 && forall i :: 0 <= i < |p| - 1 ==> (p[i], p[i + 1]) in edges
  }

  /** Some walk leads from `a` to `b`. */
  ghost predicate Reaches(edges: Edges, a: Bytes, b: Bytes) {
    exists p :: Walk(edges, p) && p[0] == a && p[|p| - 1] == b
  }

  lemma WalkPrepend(edges: Edges, x: Bytes, p: seq<Bytes>)
    requires Walk(edges, p) && (x, p[0]) in edges
    ensures Walk(edges, [x] + p)
  {
    var q := [x] + p;
    forall i | 0 <= i < |q| - 1
      ensures (q[i], q[i + 1]) in edges
    {
      if i > 0 {
        assert q[i] == p[i - 1] && q[i + 1] == p[i];
      }
    }
  }

  lemma WalkPrefix(edges: Edges, p: seq<Bytes>, n: nat)
    requires Walk(edges, p) && 0 < n <= |p|
    ensures Walk(edges, p[..n])
  {
  }

  /** Every node of the closure is reached from a node of `s` (soundness). */
  lemma {:induction false} ClosureSound(nodes: set<Bytes>, edges: Edges, s: set<Bytes>, x: Bytes)
    requires s <= nodes && x in Closure(nodes, edges, s)
    ensures exists a :: a in s && Reaches(edges, a, x)
    decreases |nodes - s|
  {
    var next := s + Step(nodes, edges, s);
    if next == s {
      assert Walk(edges, [x]);
      assert x in s && Reaches(edges, x, x);
    } else {
      StrictSubsetCard(s, next, nodes);
      ClosureSound(nodes, edges, next, x);
      var b :| b in next && Reaches(edges, b, x);
      var p :| Walk(edges, p) && p[0] == b && p[|p| - 1] == x;
      if b !in s {
        var e :| e in edges && e.0 in s && e.1 in nodes && e.1 == b;
        WalkPrepend(edges, e.0, p);
        var q := [e.0] + p;
        assert q[0] == e.0 && q[|q| - 1] == x;
        assert Reaches(edges, e.0, x);
      }
    }
  }

  /** A walk that starts inside a closed set stays inside it. */
  lemma {:induction false} ClosedKeepsWalk(nodes: set<Bytes>, edges: Edges, r: set<Bytes>, p: seq<Bytes>)
    requires Within(nodes, edges) && Closed(nodes, edges, r)
    requires Walk(edges, p) && p[0] in r
    ensures forall i :: 0 <= i < |p| ==> p[i] in r
    decreases |p|
  {
    if |p| > 1 {
      var n := |p| - 1;
      WalkPrefix(edges, p, n);
      ClosedKeepsWalk(nodes, edges, r, p[..n]);
      assert p[n - 1] == p[..n][n - 1];
      var e := (p[n - 1], p[n]);
      assert e in edges && e.0 in r && e.1 in nodes;
      assert p[n] in Step(nodes, edges, r);
      forall i | 0 <= i < |p|
        ensures p[i] in r
      {
        if i < n {
          assert p[i] == p[..n][i];
        }
      }
    }
  }

  /** Every node reached from a node of `s` is in the closure (completeness). */
  lemma ClosureComplete(nodes: set<Bytes>, edges: Edges, s: set<Bytes>, a: Bytes, x: Bytes)
    requires Within(nodes, edges) && s <= nodes
    requires a in s && Reaches(edges, a, x)
    ensures x in Closure(nodes, edges, s)
  {
    var p :| Walk(edges, p) && p[0] == a && p[|p| - 1] == x;
    ClosedKeepsWalk(nodes, edges, Closure(nodes, edges, s), p);
  }

  /** The edges whose both endpoints lie in `r`. */
  function Restrict(edges: Edges, r: set<Bytes>): (res: Edges)
    ensures res <= edges
    ensures forall e :: e in edges ==> (e in res <==> e.0 in r && e.1 in r)
  {
    set e | e in edges && e.0 in r && e.1 in r
  }

  /**
   * Pruning everything outside the closure of `{a}` keeps a path from
   * `a` to every node that remains.
   */
  lemma ClosureConnected(nodes: set<Bytes>, edges: Edges, a: Bytes, x: Bytes)
    requires Within(nodes, edges) && a in nodes
    requires x in Closure(nodes, edges, {a})
    ensures Reaches(Restrict(edges, Closure(nodes, edges, {a})), a, x)
  {
    var r := Closure(nodes, edges, {a});
    ClosureSound(nodes, edges, {a}, x);
    var p :| Walk(edges, p) && p[0] == a && p[|p| - 1] == x;
    ClosedKeepsWalk(nodes, edges, r, p);
    var kept := Restrict(edges, r);
    forall i | 0 <= i < |p| - 1
      ensures (p[i], p[i + 1]) in kept
    {
      assert p[i] in r && p[i + 1] in r;
    }
    assert Walk(kept, p);
  }

  /** More edges never lose a walk. */
  lemma WalkMonotone(edges: Edges, more: Edges, p: seq<Bytes>)
    requires edges <= more && Walk(edges, p)
    ensures Walk(more, p)
  {
  }

  lemma ReachesMonotone(edges: Edges, more: Edges, a: Bytes, b: Bytes)
    requires edges <= more && Reaches(edges, a, b)
    ensures Reaches(more, a, b)
  {
    var p :| Walk(edges, p) && p[0] == a && p[|p| - 1] == b;
    WalkMonotone(edges, more, p);
  }

  /** The closure only grows with the edge set. */
  lemma ClosureMonotone(nodes: set<Bytes>, edges: Edges, more: Edges, s: set<Bytes>, x: Bytes)
    requires Within(nodes, more) && edges <= more && s <= nodes
    requires x in Closure(nodes, edges, s)
    ensures x in Closure(nodes, more, s)
  {
    ClosureSound(nodes, edges, s, x);
    var a :| a in s && Reaches(edges, a, x);
    ReachesMonotone(edges, more, a, x);
    ClosureComplete(nodes, more, s, a, x);
  }
}
