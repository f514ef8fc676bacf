/**
 Finite directed graphs as sets of edges: walks, reachability and cycles.

 The container's constructor graph, the package graph and git's object graph are
 all judged by the notions of this module, so "reaches" and "on a cycle" mean the
 same thing in each of them.
 */
module Digraph {
  import opened Sequences

  /** A walk visits at least one node and follows an edge at every step. */
  ghost predicate IsWalk<T>(edges: set<(T, T)>, p: seq<T>) {
    && |p| >= 1
    && forall i :: 0 <= i < |p| - 1 ==> Follows(edges, p, i)
  }

  ghost predicate Follows<T>(edges: set<(T, T)>, p: seq<T>, i: int)
    requires 0 <= i < |p| - 1
  {
    (p[i], p[i + 1]) in edges
  }

  ghost predicate WalkFromTo<T>(edges: set<(T, T)>, p: seq<T>, a: T, b: T) {
    IsWalk(edges, p) && p[0] == a && p[|p| - 1] == b
  }

  /** Some walk, possibly of no step at all, leads from a to b. */
  ghost predicate Reach<T(!new)>(edges: set<(T, T)>, a: T, b: T) {
    exists p: seq<T> :: WalkFromTo(edges, p, a, b)
  }

  /** Some walk of at least one step leads from x back to x. */
  ghost predicate OnCycle<T(!new)>(edges: set<(T, T)>, x: T) {
    exists y: T :: (x, y) in edges && Reach(edges, y, x)
  }

  ghost predicate Acyclic<T(!new)>(edges: set<(T, T)>) {
    forall x: T :: !OnCycle(edges, x)
  }

  lemma ReachRefl<T(!new)>(edges: set<(T, T)>, a: T)
    ensures Reach(edges, a, a)
  {
    assert WalkFromTo(edges, [a], a, a);
  }

  lemma ReachEdge<T(!new)>(edges: set<(T, T)>, a: T, b: T)
    requires (a, b) in edges
    ensures Reach(edges, a, b)
  {
    assert WalkFromTo(edges, [a, b], a, b);
  }

  lemma ReachTrans<T(!new)>(edges: set<(T, T)>, a: T, b: T, c: T)
    requires Reach(edges, a, b) && Reach(edges, b, c)
    ensures Reach(edges, a, c)
  {
    var p: seq<T> :| WalkFromTo(edges, p, a, b);
    var q: seq<T> :| WalkFromTo(edges, q, b, c);
    var w := p + q[1..];
    forall i | 0 <= i < |w| - 1
      ensures Follows(edges, w, i)
    {
      if i < |p| - 1 {
        assert Follows(edges, p, i);
      } else {
        var j := i - (|p| - 1);
        assert Follows(edges, q, j);
      }
    }
    assert WalkFromTo(edges, w, a, c);
  }

  lemma ReachMono<T(!new)>(small: set<(T, T)>, big: set<(T, T)>, a: T, b: T)
    requires small <= big && Reach(small, a, b)
    ensures Reach(big, a, b)
  {
    var p: seq<T> :| WalkFromTo(small, p, a, b);
    forall i | 0 <= i < |p| - 1
      ensures Follows(big, p, i)
    {
      assert Follows(small, p, i);
    }
    assert WalkFromTo(big, p, a, b);
  }

  /** Reaching another node takes a first edge. */
  lemma ReachFirst<T(!new)>(edges: set<(T, T)>, a: T, b: T) returns (m: T)
    requires Reach(edges, a, b) && a != b
    ensures (a, m) in edges && Reach(edges, m, b)
  {
    var p: seq<T> :| WalkFromTo(edges, p, a, b);
    m := p[1];
    assert Follows(edges, p, 0);
    var q := p[1..];
    forall i | 0 <= i < |q| - 1
      ensures Follows(edges, q, i)
    {
      assert Follows(edges, p, i + 1);
    }
    assert WalkFromTo(edges, q, m, b);
  }

  /**
   A walk of `big` either survives in `small` or takes one of the edges that
   `small` lacks: then it reaches such an edge within `small`, and goes on within `big`.
   */
  lemma {:induction false} WalkCut<T(!new)>(small: set<(T, T)>, big: set<(T, T)>, p: seq<T>, a: T, b: T)
    requires small <= big && WalkFromTo(big, p, a, b)
    ensures Reach(small, a, b)
         || exists u: T, v: T :: (u, v) in big - small && Reach(small, a, u) && Reach(big, v, b)
    decreases |p|
  {
    if |p| == 1 {
      ReachRefl(small, a);
    } else {
      var m := p[1];
      assert Follows(big, p, 0);
      var q := p[1..];
      forall i | 0 <= i < |q| - 1
        ensures Follows(big, q, i)
      {
        assert Follows(big, p, i + 1);
      }
      assert WalkFromTo(big, q, m, b);
      if (a, m) in small {
        ReachEdge(small, a, m);
        WalkCut(small, big, q, m, b);
        if Reach(small, m, b) {
          ReachTrans(small, a, m, b);
        } else {
          var u: T, v: T :| (u, v) in big - small && Reach(small, m, u) && Reach(big, v, b);
          ReachTrans(small, a, m, u);
        }
      } else {
        ReachRefl(small, a);
      }
    }
  }

  lemma ReachCut<T(!new)>(small: set<(T, T)>, big: set<(T, T)>, a: T, b: T)
    requires small <= big && Reach(big, a, b)
    ensures Reach(small, a, b)
         || exists u: T, v: T :: (u, v) in big - small && Reach(small, a, u) && Reach(big, v, b)
  {
    var p: seq<T> :| WalkFromTo(big, p, a, b);
    WalkCut(small, big, p, a, b);
  }

  lemma OnCycleMono<T(!new)>(small: set<(T, T)>, big: set<(T, T)>, x: T)
    requires small <= big && OnCycle(small, x)
    ensures OnCycle(big, x)
  {
    var y: T :| (x, y) in small && Reach(small, y, x);
    ReachMono(small, big, y, x);
  }

  /** One more edge u -> v makes a cycle exactly where v already led back to u. */
  lemma AddEdgeCycle<T(!new)>(edges: set<(T, T)>, u: T, v: T)
    requires Acyclic(edges)
    ensures !Acyclic(edges + {(u, v)}) <==> Reach(edges, v, u)
  {
    var big := edges + {(u, v)};
    if Reach(edges, v, u) {
      ReachMono(edges, big, v, u);
      assert (u, v) in big;
      assert OnCycle(big, u);
    }
    if !Acyclic(big) {
      var x: T :| OnCycle(big, x);
      var y: T :| (x, y) in big && Reach(big, y, x);
      ReachCut(edges, big, y, x);
      if (x, y) in edges && Reach(edges, y, x) {
        assert OnCycle(edges, x);
        assert false;
      } else if Reach(edges, y, x) {
        assert x == u && y == v;
      } else {
        // The first missing edge on the way is u -> v, and so is the last one.
        var u1: T, v1: T :| (u1, v1) in big - edges && Reach(edges, y, u1) && Reach(big, v1, x);
        if (x, y) in edges {
          var p: seq<T> :| WalkFromTo(big, p, v1, x);
          ReachRefl(edges, v);
          LastMissingWalk(edges, u, v, p, v1, x);
          ReachEdge(edges, x, y);
          ReachTrans(edges, v, x, y);
          ReachTrans(edges, v, y, u);
        }
      }
    }
  }

  /** With u -> v the only new edge, what is reached from a node v reaches, v reached before. */
  lemma {:induction false} LastMissingWalk<T(!new)>(edges: set<(T, T)>, u: T, v: T, p: seq<T>, a: T, b: T)
    requires WalkFromTo(edges + {(u, v)}, p, a, b)
    requires Reach(edges, v, a)
    ensures Reach(edges, v, b)
    decreases |p|
  {
    if |p| > 1 {
      var m := p[1];
      assert Follows(edges + {(u, v)}, p, 0);
      if (a, m) in edges {
        ReachEdge(edges, a, m);
        ReachTrans(edges, v, a, m);
      } else {
        ReachRefl(edges, v);
      }
      var q := p[1..];
      forall i | 0 <= i < |q| - 1
        ensures Follows(edges + {(u, v)}, q, i)
      {
        assert Follows(edges + {(u, v)}, p, i + 1);
      }
      LastMissingWalk(edges, u, v, q, m, b);
    }
  }

  /** An order in which every edge leads to an earlier node leaves no room for a cycle. */
  lemma TopologicalIsAcyclic<T(!new)>(edges: set<(T, T)>, order: seq<T>)
    requires forall i, j :: 0 <= i < j < |order| ==> order[i] != order[j]
    requires forall u, v :: (u, v) in edges ==> u in order
    requires forall k: nat, v :: k < |order| && (order[k], v) in edges ==> v in order[..k]
    ensures Acyclic(edges)
  {
    forall x: T | OnCycle(edges, x)
      ensures false
    {
      var y: T :| (x, y) in edges && Reach(edges, y, x);
      var p: seq<T> :| WalkFromTo(edges, p, y, x);
      var k :| 0 <= k < |order| && order[k] == x;
      StaysEarlier(edges, order, p, k);
    }
  }

  lemma {:induction false} StaysEarlier<T(!new)>(edges: set<(T, T)>, order: seq<T>, p: seq<T>, k: nat)
    requires forall j: nat, v :: j < |order| && (order[j], v) in edges ==> v in order[..j]
    requires IsWalk(edges, p) && k <= |order| && p[0] in order[..k]
    ensures p[|p| - 1] in order[..k]
    decreases |p|
  {
    if |p| > 1 {
      assert Follows(edges, p, 0);
      var j: nat :| j < k && order[j] == p[0];
      assert p[1] in order[..j];
      var q := p[1..];
      forall i | 0 <= i < |q| - 1
        ensures Follows(edges, q, i)
      {
        assert Follows(edges, p, i + 1);
      }
      StaysEarlier(edges, order, q, k);
    }
  }

  /** A set closed under predecessors holds everything that reaches one of its members. */
  lemma ReachIntoClosed<T(!new)>(edges: set<(T, T)>, closed: set<T>, a: T, b: T)
    requires forall u, v :: (u, v) in edges && v in closed ==> u in closed
    requires b in closed && Reach(edges, a, b)
    ensures a in closed
  {
    var p: seq<T> :| WalkFromTo(edges, p, a, b);
    var i := |p| - 1;
    while i > 0
      invariant 0 <= i < |p| && p[i] in closed
    {
      assert Follows(edges, p, i - 1);
      i := i - 1;
    }
  }

  /** A set closed under successors holds everything that one of its members reaches. */
  lemma ReachOutOfClosed<T(!new)>(edges: set<(T, T)>, closed: set<T>, a: T, b: T)
    requires forall u, v :: (u, v) in edges && u in closed ==> v in closed
    requires a in closed && Reach(edges, a, b)
    ensures b in closed
  {
    var p: seq<T> :| WalkFromTo(edges, p, a, b);
    var i := 0;
    while i < |p| - 1
      invariant 0 <= i < |p| && p[i] in closed
    {
      assert Follows(edges, p, i);
      i := i + 1;
    }
  }

  /** A walk without its detours. */
  lemma {:induction false} SimpleWalk<T(!new)>(edges: set<(T, T)>, p: seq<T>, a: T, b: T) returns (q: seq<T>)
    requires WalkFromTo(edges, p, a, b)
    ensures WalkFromTo(edges, q, a, b) && Distinct(q)
    decreases |p|
  {
    if Distinct(p) {
      q := p;
    } else {
      var i, j :| 0 <= i < j < |p| && p[i] == p[j];
      var cut := p[..i] + p[j..];
      forall k | 0 <= k < |cut| - 1
        ensures Follows(edges, cut, k)
      {
        if k < i - 1 {
          assert Follows(edges, p, k);
        } else if k == i - 1 {
          assert Follows(edges, p, k);
        } else {
          assert Follows(edges, p, k - i + j);
        }
      }
      q := SimpleWalk(edges, cut, a, b);
    }
  }
}
