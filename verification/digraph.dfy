/** Directed graphs over named nodes: paths, cycles, and a layer-peeling
    acyclicity check (repeatedly remove the nodes with no incoming edge from
    the remaining ones) proved to decide "has no cycle". */
module Digraph {

  type Node = string

  type Edge = (Node, Node)

  /** `p` follows edges of `E` from its first node to its last. */
  predicate IsPath(E: set<Edge>, p: seq<Node>) {
    forall i :: 0 <= i < |p| - 1 ==> (p[i], p[i + 1]) in E
  }

  /** A closed path of at least one edge; a self-loop `[n, n]` is one. */
  predicate IsCycle(E: set<Edge>, p: seq<Node>) {
    |p| >= 2 && p[0] == p[|p| - 1] && IsPath(E, p)
  }

  predicate Within(p: seq<Node>, R: set<Node>) {
    forall i :: 0 <= i < |p| ==> p[i] in R
  }

  /** No path of `E` ever returns to where it started. */
  ghost predicate Acyclic(E: set<Edge>) {
    forall p :: !IsCycle(E, p)
  }

  /** Every edge joins two nodes of `V`. */
  predicate EdgesWithin(V: set<Node>, E: set<Edge>) {
    forall e :: e in E ==> e.0 in V && e.1 in V
  }

  /** `n` is a node of `R` with no incoming edge from a node of `R`. */
  predicate IsRoot(R: set<Node>, E: set<Edge>, n: Node) {
    n in R && forall u :: u in R ==> (u, n) !in E
  }

  /** The nodes of `R` with no incoming edge from a node of `R`: all of them,
      and nothing else. */
  function Roots(R: set<Node>, E: set<Edge>): (r: set<Node>)
    ensures r <= R
    ensures forall n, u :: n in r && u in R ==> (u, n) !in E
    ensures forall n :: IsRoot(R, E, n) ==> n in r
  {
    set n | n in R && forall u | u in R :: (u, n) !in E
  }

  /** Removes root layers until nothing is left (true) or a non-empty
      remainder has no root (false). */
  function Peel(R: set<Node>, E: set<Edge>): bool
    decreases R
  {
    if R == {} then true
    else
      var roots := Roots(R, E);
      if roots == {} then false
      else
        var n :| n in roots;
        assert n !in R - roots;
        Peel(R - roots, E)
  }

  /** Every cycle leaves a set that peels completely. */
  lemma {:induction false} PeelSound(R: set<Node>, E: set<Edge>, p: seq<Node>)
    requires Peel(R, E)
    requires IsCycle(E, p)
    ensures !Within(p, R)
    decreases R
  {
    if R == {} {
      assert p[0] !in R;
    } else {
      var roots := Roots(R, E);
      PeelSound(R - roots, E, p);
      var i :| 0 <= i < |p| && p[i] !in R - roots;
      if p[i] in R {
        var j := if i > 0 then i - 1 else |p| - 2;
        assert (p[j], p[i]) in E;
        assert p[j] !in R;
      }
    }
  }

  /** If every node of `R` has a predecessor in `R`, walking backwards from `n`
      for `k` steps gives a path of `k + 1` nodes of `R` ending at `n`. */
  lemma Predecessor(R: set<Node>, E: set<Edge>, n: Node) returns (u: Node)
    requires n in R
    requires Roots(R, E) == {}
    ensures u in R && (u, n) in E
  {
    assert n !in Roots(R, E);
    u :| u in R && (u, n) in E;
  }

  lemma {:induction false} WalkBack(R: set<Node>, E: set<Edge>, n: Node, k: nat) returns (w: seq<Node>)
    requires n in R
    requires Roots(R, E) == {}
    ensures |w| == k + 1 && w[k] == n
    ensures IsPath(E, w) && Within(w, R)
  {
    if k == 0 {
      w := [n];
    } else {
      var rest := WalkBack(R, E, n, k - 1);
      var u := Predecessor(R, E, rest[0]);
      w := [u] + rest;
      forall i | 0 <= i < |w| - 1 ensures (w[i], w[i + 1]) in E {
        if i > 0 {
          assert w[i] == rest[i - 1] && w[i + 1] == rest[i];
        }
      }
      forall i | 0 <= i < |w| ensures w[i] in R {
        if i > 0 {
          assert w[i] == rest[i - 1];
        }
      }
    }
  }

  /** A sequence longer than the set its entries come from repeats an entry. */
  lemma {:induction false} Pigeonhole(w: seq<Node>, S: set<Node>) returns (i: int, j: int)
    requires Within(w, S)
    requires |w| > |S|
    ensures 0 <= i < j < |w| && w[i] == w[j]
    decreases |w|
  {
    var tail := w[1..];
    if w[0] in tail {
      var k :| 0 <= k < |tail| && tail[k] == w[0];
      i, j := 0, k + 1;
    } else {
      var S' := S - {w[0]};
      assert Within(tail, S') by {
        forall k | 0 <= k < |tail| ensures tail[k] in S' {
          assert tail[k] == w[k + 1];
        }
      }
      var a, b := Pigeonhole(tail, S');
      i, j := a + 1, b + 1;
    }
  }

  /** A set that does not peel completely contains a cycle. */
  lemma {:induction false} PeelComplete(R: set<Node>, E: set<Edge>) returns (p: seq<Node>)
    requires !Peel(R, E)
    ensures IsCycle(E, p) && Within(p, R)
    decreases R
  {
    var roots := Roots(R, E);
    if roots == {} {
      var n :| n in R;
      var w := WalkBack(R, E, n, |R|);
      var i, j := Pigeonhole(w, R);
      p := w[i..j + 1];
      assert forall k :: 0 <= k < |p| ==> p[k] == w[i + k];
    } else {
      p := PeelComplete(R - roots, E);
    }
  }

  /** With every edge inside `V`, every cycle lies inside `V`. */
  lemma CycleInside(V: set<Node>, E: set<Edge>, p: seq<Node>)
    requires EdgesWithin(V, E)
    requires IsCycle(E, p)
    ensures Within(p, V)
  {
    forall i | 0 <= i < |p| ensures p[i] in V {
      if i < |p| - 1 {
        assert (p[i], p[i + 1]) in E;
      } else {
        assert (p[i - 1], p[i]) in E;
      }
    }
  }

  /** With every edge inside `V`, peeling `V` succeeds exactly when the graph
      has no cycle. */
  lemma PeelDecides(V: set<Node>, E: set<Edge>)
    requires EdgesWithin(V, E)
    ensures Peel(V, E) <==> Acyclic(E)
  {
    if Peel(V, E) {
      forall p | IsCycle(E, p) ensures false {
        CycleInside(V, E, p);
        PeelSound(V, E, p);
      }
    } else {
      var p := PeelComplete(V, E);
    }
  }

  /** Whether the graph on `V` with edges `E` is a DAG. */
  function IsDag(V: set<Node>, E: set<Edge>): (r: bool)
    requires EdgesWithin(V, E)
    ensures r <==> Acyclic(E)
  {
    PeelDecides(V, E);
    Peel(V, E)
  }

  /** A node ranking that every edge strictly increases rules out cycles. */
  lemma {:induction false} RankedAcyclic(E: set<Edge>, rank: map<Node, int>)
    requires forall e :: e in E ==> e.0 in rank && e.1 in rank && rank[e.0] < rank[e.1]
    ensures Acyclic(E)
  {
    forall p | IsCycle(E, p) ensures false {
      RankIncreases(E, rank, p, |p| - 1);
    }
  }

  lemma {:induction false} RankIncreases(E: set<Edge>, rank: map<Node, int>, p: seq<Node>, k: int)
    requires forall e :: e in E ==> e.0 in rank && e.1 in rank && rank[e.0] < rank[e.1]
    requires IsPath(E, p) && 1 <= k < |p|
    ensures p[0] in rank && p[k] in rank && rank[p[0]] + k <= rank[p[k]]
  {
    assert (p[k - 1], p[k]) in E;
    if k > 1 {
      RankIncreases(E, rank, p, k - 1);
    } else {
      assert (p[0], p[1]) in E;
    }
  }
}
