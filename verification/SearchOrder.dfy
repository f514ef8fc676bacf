/**
 What the cycle search's result owes to order: nothing to the order in which sources
 come up, since it takes them in ascending order; and of equal rings it keeps the first.
 */
module SearchOrder {
  import opened CycleSearch
  import opened Digraph
  import opened RingKeys
  import opened Sequences
  import opened Strings

  // ----- The order of the sources -----

  /** The targets a source has in a list of edges, in the order they come up. */
  function TargetsUnder(edges: seq<Edge>, includeTypes: bool, source: string): seq<string> {
    if edges == [] then []
    else
      var before, e := TargetsUnder(edges[..|edges| - 1], includeTypes, source), edges[|edges| - 1];
      if e.from == source && (e.kind != Type || includeTypes) && e.to !in before then before + [e.to] else before
  }

  /** Each source's list is its targets in order; sources are the nodes that have any. */
  lemma {:induction false} ListsAre(edges: seq<Edge>, includeTypes: bool)
    ensures var (adjacency, keys) := AdjacencyOf(edges, includeTypes);
      && (forall u :: Targets(adjacency, u) == TargetsUnder(edges, includeTypes, u))
      && (forall u :: u in adjacency <==> TargetsUnder(edges, includeTypes, u) != [])
      && Distinct(keys) && (forall k :: k in keys <==> k in adjacency)
  {
    if edges != [] {
      ListsAre(edges[..|edges| - 1], includeTypes);
    }
  }

  /**
   The order in which sources come up does not matter: two lists of edges with the same
   targets, in the same order, under each source give the same result.
   */
  lemma SourceOrderFree(edges: seq<Edge>, other: seq<Edge>, includeTypes: bool)
    requires forall u :: TargetsUnder(edges, includeTypes, u) == TargetsUnder(other, includeTypes, u)
    ensures CyclesOf(edges, includeTypes) == CyclesOf(other, includeTypes)
  {
    ListsAre(edges, includeTypes);
    ListsAre(other, includeTypes);
    var (a, keys) := AdjacencyOf(edges, includeTypes);
    var (b, keys') := AdjacencyOf(other, includeTypes);
    forall u
      ensures u in a <==> u in b
      ensures u in a ==> a[u] == b[u]
    {
      assert Targets(a, u) == Targets(b, u);
    }
    assert a == b;
    DistinctCounts(keys, keys');
    SortSorts(keys);
    SortSorts(keys');
    SortedOnce(Sort(keys), Sort(keys'));
  }

  ghost predicate EnteredByEdge(s: Dfs, x: string) {
    exists p: string :: (p, x) in s.tree
  }

  /** What came after the first n nodes was entered by an edge. */
  ghost predicate Extends(s: Dfs, t: Dfs, n: nat) {
    && s.order <= t.order && s.tree <= t.tree
    && forall i :: n <= i < |t.order| ==> EnteredByEdge(t, t.order[i])
  }

  lemma ExtendsTwice(s: Dfs, t: Dfs, u: Dfs, n: nat)
    requires Extends(s, t, n) && Extends(t, u, |t.order|)
    ensures Extends(s, u, n)
  {
    forall i | n <= i < |u.order|
      ensures EnteredByEdge(u, u.order[i])
    {
      if i < |t.order| {
        assert EnteredByEdge(t, t.order[i]);
      }
    }
  }

  /** A visit begins with its node, and enters every other one by an edge. */
  lemma {:induction false} VisitEnters(adjacency: Adjacency, s: Dfs, node: string)
    requires Consistent(s) && node !in s.visited && node in Nodes(adjacency)
    ensures var t := VisitOf(adjacency, s, node);
      Extends(s, t, |s.order| + 1) && |s.order| < |t.order| && t.order[|s.order|] == node
      && (s.stack != [] ==> EnteredByEdge(t, node))
    decreases Nodes(adjacency) - s.visited, 0, 0
  {
    var entered := Entered(s, node);
    EnteredConsistent(s, node);
    TargetsAreNodes(adjacency, node);
    assert s.stack != [] ==> (s.stack[|s.stack| - 1], node) in entered.tree;
    assert Extends(s, entered, |s.order| + 1);
    FollowsEnter(adjacency, entered, Targets(adjacency, node));
    var inside := FollowsOf(adjacency, entered, Targets(adjacency, node));
    ExtendsTwice(s, entered, inside, |s.order| + 1);
    assert inside.order[|s.order|] == entered.order[|s.order|];
    assert Left(inside).order == inside.order && Left(inside).tree == inside.tree;
  }

  lemma {:induction false} FollowsEnter(adjacency: Adjacency, s: Dfs, targets: seq<string>)
    requires Consistent(s) && s.stack != [] && forall x :: x in targets ==> x in Nodes(adjacency)
    ensures Extends(s, FollowsOf(adjacency, s, targets), |s.order|)
    decreases Nodes(adjacency) - s.visited, 2, |targets|
  {
    hide Consistent, Nodes, FollowOf;
    if targets != [] {
      var init := targets[..|targets| - 1];
      FollowsEnter(adjacency, s, init);
      var t := FollowsOf(adjacency, s, init);
      FollowEnters(adjacency, t, targets[|targets| - 1]);
      ExtendsTwice(s, t, FollowOf(adjacency, t, targets[|targets| - 1]), |s.order|);
    }
  }

  lemma {:induction false} FollowEnters(adjacency: Adjacency, s: Dfs, next: string)
    requires Consistent(s) && s.stack != [] && next in Nodes(adjacency)
    ensures Extends(s, FollowOf(adjacency, s, next), |s.order|)
    decreases Nodes(adjacency) - s.visited, 1, 0
  {
    hide Consistent, Nodes, VisitOf;
    if next !in s.onStack && next !in s.visited {
      VisitEnters(adjacency, s, next);
    }
  }

  /** A node that no edge entered is a root, and all smaller roots were visited before it. */
  ghost predicate Ascends(s: Dfs, roots: seq<string>) {
    forall i: nat :: i < |s.order| && !EnteredByEdge(s, s.order[i]) ==>
      s.order[i] in roots && forall u :: u in roots && Less(u, s.order[i]) ==> u in s.order[..i]
  }

  lemma {:induction false} SearchAscends(adjacency: Adjacency, roots: seq<string>)
    requires forall r :: r in roots ==> r in adjacency
    requires IsSorted(roots)
    ensures Ascends(Search(adjacency, roots), roots)
  {
    if roots != [] {
      var init, last := roots[..|roots| - 1], roots[|roots| - 1];
      assert roots == init + [last];
      SearchAscends(adjacency, init);
      SearchKeeps(adjacency, init);
      var s := Search(adjacency, init);
      VisitedAll(Arcs(adjacency), s, init);
      if last !in s.visited {
        RootIsNode(adjacency, last);
        VisitEnters(adjacency, s, last);
      }
      hide VisitOf, Sound, Arcs, Consistent, Nodes, Less;
      AscendsMore(s, Search(adjacency, roots), init, last);
    }
  }

  lemma VisitedAll(arcs: set<(string, string)>, s: Dfs, roots: seq<string>)
    requires Sound(arcs, s) && forall r :: r in roots ==> r in s.finished
    ensures Elems(s.order) == s.visited && forall r :: r in roots ==> r in s.visited
  {
  }

  lemma AscendsMore(s: Dfs, t: Dfs, init: seq<string>, last: string)
    requires IsSorted(init + [last]) && Ascends(s, init)
    requires Elems(s.order) == s.visited && forall r :: r in init ==> r in s.visited
    requires last in s.visited ==> t == s
    requires last !in s.visited ==>
               Extends(s, t, |s.order| + 1) && |s.order| < |t.order| && t.order[|s.order|] == last
    ensures Ascends(t, init + [last])
  {
    var roots := init + [last];
    forall i: nat | i < |t.order| && !EnteredByEdge(t, t.order[i])
      ensures t.order[i] in roots && forall u :: u in roots && Less(u, t.order[i]) ==> u in t.order[..i]
    {
      if i < |s.order| {
        assert !EnteredByEdge(s, s.order[i]);
        LastIsLast(init, last, s.order[i]);
        assert t.order[..i] == s.order[..i];
      } else {
        LessTotal(last, last);
        assert t.order[..i] == s.order;
      }
    }
  }

  lemma LastIsLast(init: seq<string>, last: string, x: string)
    requires IsSorted(init + [last]) && x in init
    ensures !Less(last, x)
  {
    var j :| 0 <= j < |init| && init[j] == x;
    var all := init + [last];
    assert Leq(all[j], all[|init|]);
    LessTotal(x, last);
  }

  /**
   The search starts over at the smallest package that imports anything and was not
   reached yet: whatever no edge led to has every smaller one visited before it.
   */
  lemma RootsAscend(edges: seq<Edge>, includeTypes: bool, i: nat, e: Edge)
    requires e in edges && (e.kind != Type || includeTypes)
    requires var s := Ended(edges, includeTypes);
      i < |s.order| && !EnteredByEdge(s, s.order[i]) && Less(e.from, s.order[i])
    ensures e.from in Ended(edges, includeTypes).order[..i]
  {
    AdjacencyHolds(edges, includeTypes);
    var (adjacency, keys) := AdjacencyOf(edges, includeTypes);
    SortMembers(keys);
    SortSorts(keys);
    assert (e.from, e.to) in Binding(edges, includeTypes);
    SourcesAreKeys(adjacency);
    SearchAscends(adjacency, Sort(keys));
  }

  // ----- Which of the equal rings is kept -----

  /** No earlier cycle has the key of cycle i. */
  ghost predicate FirstOfKey(cycles: seq<seq<string>>, i: nat)
    requires i < |cycles|
  {
    forall j :: 0 <= j < i ==> RingKey(Ring(cycles[j])) != RingKey(Ring(cycles[i]))
  }

  /** The cycles at the listed places, which go up and are exactly those of the first cycles of their keys. */
  ghost predicate PicksFirsts(cycles: seq<seq<string>>, at: seq<nat>, kept: seq<seq<string>>) {
    && |at| == |kept|
    && (forall k :: 0 <= k < |at| ==> at[k] < |cycles| && kept[k] == cycles[at[k]])
    && (forall k, l :: 0 <= k < l < |at| ==> at[k] < at[l])
    && (forall i :: 0 <= i < |cycles| ==> (i in at <==> FirstOfKey(cycles, i)))
  }

  /** Of the cycles with one key the first is kept, and the kept ones keep their order. */
  lemma {:induction false} UniqueKeepsFirsts(cycles: seq<seq<string>>) returns (at: seq<nat>)
    ensures PicksFirsts(cycles, at, UniqueOf(cycles))
  {
    hide RingKey, Ring, PicksFirsts, FirstOfKey, KeyKept;
    if cycles == [] {
      at := [];
      NoFirsts();
    } else {
      var init, last := cycles[..|cycles| - 1], cycles[|cycles| - 1];
      assert cycles == init + [last];
      at := UniqueKeepsFirsts(init);
      LastIsFirst(init, last);
      PicksMore(init, last, at, UniqueOf(init));
      at := if KeyKept(UniqueOf(init), RingKey(Ring(last))) then at else at + [|init|];
    }
  }

  lemma NoFirsts()
    ensures PicksFirsts([], [], [])
  {
  }

  lemma LastIsFirst(init: seq<seq<string>>, last: seq<string>)
    ensures FirstOfKey(init + [last], |init|) <==> !KeyKept(UniqueOf(init), RingKey(Ring(last)))
  {
    hide RingKey, Ring;
    var kept, key, cycles := UniqueOf(init), RingKey(Ring(last)), init + [last];
    UniqueKeepsKeys(init);
    if KeyKept(kept, key) {
      KeyIn(kept, key);
      var d :| d in kept && RingKey(Ring(d)) == key;
      var j :| 0 <= j < |init| && init[j] == d;
      assert cycles[j] == d;
    } else {
      forall j | 0 <= j < |init|
        ensures RingKey(Ring(cycles[j])) != key
      {
        assert init[j] in init;
      }
    }
  }

  lemma PicksMore(init: seq<seq<string>>, last: seq<string>, at: seq<nat>, kept: seq<seq<string>>)
    requires PicksFirsts(init, at, kept)
    ensures !FirstOfKey(init + [last], |init|) ==> PicksFirsts(init + [last], at, kept)
    ensures FirstOfKey(init + [last], |init|) ==> PicksFirsts(init + [last], at + [|init|], kept + [last])
  {
    var cycles, n := init + [last], |init|;
    forall i | 0 <= i < n
      ensures FirstOfKey(cycles, i) <==> FirstOfKey(init, i)
    {
      hide RingKey, Ring;
      assert forall j :: 0 <= j <= i ==> cycles[j] == init[j];
    }
    hide FirstOfKey;
  }
}
