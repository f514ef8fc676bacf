/**
 The import cycle search: a depth-first traversal with three mutable structures, the
 rings it reports, and exactly which rings of the graph those are.
 */
module CycleSearch {
  import opened Digraph
  import opened RingKeys
  import opened Sequences
  import opened Strings

  datatype EdgeKind = Runtime | Type | Dynamic | Soft

  datatype Edge = Edge(from: string, to: string, kind: EdgeKind, at: string)

  /** The edges that bind: all of them, or all but the type-only ones. */
  ghost function Binding(edges: seq<Edge>, includeTypes: bool): set<(string, string)> {
    set e | e in edges && (e.kind != Type || includeTypes) :: (e.from, e.to)
  }

  ghost predicate ValidNames(edges: seq<Edge>) {
    forall e :: e in edges ==> ValidName(e.from) && ValidName(e.to)
  }

  /** A reported cycle: a closed walk of real edges, every package once but for the repeated end. */
  ghost predicate ClosedRing(graph: set<(string, string)>, cycle: seq<string>) {
    && |cycle| >= 2
    && cycle[0] == cycle[|cycle| - 1]
    && Distinct(cycle[1..])
    && IsWalk(graph, cycle)
  }

  /** The cycle without the repeated end. */
  function Ring(cycle: seq<string>): seq<string> {
    if cycle == [] then [] else cycle[..|cycle| - 1]
  }

  ghost function ClosingEdge(cycle: seq<string>): (string, string)
    requires |cycle| >= 2
  {
    (cycle[|cycle| - 2], cycle[|cycle| - 1])
  }

  /** adjacency lists, each target once, in insertion order */
  type Adjacency = map<string, seq<string>>

  ghost function Arcs(adjacency: Adjacency): set<(string, string)> {
    set u, v | u in adjacency && v in adjacency[u] :: (u, v)
  }

  function Targets(adjacency: Adjacency, node: string): seq<string> {
    if node in adjacency then adjacency[node] else []
  }

  // ----- The adjacency lists -----

  /** One edge more: its source is listed once, and its target once under the source. */
  function WithEdge(a: (Adjacency, seq<string>), e: Edge, includeTypes: bool): (Adjacency, seq<string>) {
    if e.kind == Type && !includeTypes then a
    else
      var targets := Targets(a.0, e.from);
      (a.0[e.from := if e.to in targets then targets else targets + [e.to]],
       if e.from in a.0 then a.1 else a.1 + [e.from])
  }

  /** The adjacency lists of a list of edges, and their sources in insertion order. */
  function AdjacencyOf(edges: seq<Edge>, includeTypes: bool): (Adjacency, seq<string>) {
    if edges == [] then (map[], [])
    else WithEdge(AdjacencyOf(edges[..|edges| - 1], includeTypes), edges[|edges| - 1], includeTypes)
  }

  method BuildAdjacency(edges: seq<Edge>, includeTypes: bool) returns (adjacency: Adjacency, keys: seq<string>)
    ensures (adjacency, keys) == AdjacencyOf(edges, includeTypes)
    ensures Arcs(adjacency) == Binding(edges, includeTypes)
  {
    adjacency, keys := map[], [];
    for i := 0 to |edges|
      invariant (adjacency, keys) == AdjacencyOf(edges[..i], includeTypes)
    {
      var edge := edges[i];
      assert edges[..i + 1][..i] == edges[..i];
      if edge.kind == Type && !includeTypes {
        continue;
      }
      var targets := Targets(adjacency, edge.from);
      keys := if edge.from in adjacency then keys else keys + [edge.from];
      adjacency := adjacency[edge.from := if edge.to in targets then targets else targets + [edge.to]];
    }
    assert edges[..|edges|] == edges;
    AdjacencyHolds(edges, includeTypes);
  }

  /** The lists hold exactly the binding edges. */
  lemma {:induction false} AdjacencyHolds(edges: seq<Edge>, includeTypes: bool)
    ensures var (adjacency, keys) := AdjacencyOf(edges, includeTypes);
      Arcs(adjacency) == Binding(edges, includeTypes) && forall k :: k in keys <==> k in adjacency
  {
    if edges != [] {
      var init, e := edges[..|edges| - 1], edges[|edges| - 1];
      AdjacencyHolds(init, includeTypes);
      assert edges == init + [e];
      var before := AdjacencyOf(init, includeTypes);
      var after := WithEdge(before, e, includeTypes);
      EdgeHeld(before, e, includeTypes);
      hide AdjacencyOf, WithEdge, Arcs;
      assert AdjacencyOf(edges, includeTypes) == after;
      BindingGrows(init, e, includeTypes);
    }
  }

  lemma EdgeHeld(a: (Adjacency, seq<string>), e: Edge, includeTypes: bool)
    requires forall k :: k in a.1 <==> k in a.0
    ensures var after := WithEdge(a, e, includeTypes);
      && Arcs(after.0) == Arcs(a.0) + (if e.kind == Type && !includeTypes then {} else {(e.from, e.to)})
      && forall k :: k in after.1 <==> k in after.0
  {
  }

  lemma BindingGrows(init: seq<Edge>, e: Edge, includeTypes: bool)
    ensures Binding(init + [e], includeTypes)
         == Binding(init, includeTypes) + if e.kind == Type && !includeTypes then {} else {(e.from, e.to)}
  {
  }

  ghost function Nodes(adjacency: Adjacency): set<string> {
    adjacency.Keys + set u, v | u in adjacency && v in adjacency[u] :: v
  }

  // ----- The traversal -----

  /**
   The traversal's mutable structures, and what it did so far: the nodes in the order
   their visits ended and began, and the edges that visits were entered by.
   */
  datatype Dfs = Dfs(visited: set<string>, stack: seq<string>, onStack: set<string>, cycles: seq<seq<string>>,
                     finished: seq<string>, order: seq<string>, tree: set<(string, string)>)

  const START := Dfs({}, [], {}, [], [], [], {})

  ghost predicate Consistent(s: Dfs) {
    s.onStack == Elems(s.stack) && s.onStack <= s.visited
  }

  ghost function Entered(s: Dfs, node: string): Dfs {
    Dfs(s.visited + {node}, s.stack + [node], s.onStack + {node}, s.cycles, s.finished, s.order + [node],
        if s.stack == [] then s.tree else s.tree + {(s.stack[|s.stack| - 1], node)})
  }

  ghost function Left(s: Dfs): Dfs
    requires s.stack != []
  {
    var node := s.stack[|s.stack| - 1];
    s.(stack := s.stack[..|s.stack| - 1], onStack := s.onStack - {node}, finished := s.finished + [node])
  }

  ghost function Reported(s: Dfs, next: string): Dfs
    requires next in s.stack
  {
    s.(cycles := s.cycles + [s.stack[IndexOf(s.stack, next)..] + [next]])
  }

  /** The state after visiting a node. */
  ghost function VisitOf(adjacency: Adjacency, s: Dfs, node: string): (t: Dfs)
    requires Consistent(s) && node !in s.visited && node in Nodes(adjacency)
    ensures Consistent(t) && t.stack == s.stack && t.onStack == s.onStack && s.visited + {node} <= t.visited
    decreases Nodes(adjacency) - s.visited, 0, 0
  {
    EnteredConsistent(s, node);
    TargetsAreNodes(adjacency, node);
    var inside := FollowsOf(adjacency, Entered(s, node), Targets(adjacency, node));
    LeftConsistent(s, node, inside);
    Left(inside)
  }

  /** The state after following some edges out of the node on top of the stack, in order. */
  ghost function FollowsOf(adjacency: Adjacency, s: Dfs, targets: seq<string>): (t: Dfs)
    requires Consistent(s) && s.stack != [] && forall x :: x in targets ==> x in Nodes(adjacency)
    ensures Consistent(t) && t.stack == s.stack && t.onStack == s.onStack && s.visited <= t.visited
    decreases Nodes(adjacency) - s.visited, 2, |targets|
  {
    if targets == [] then s
    else FollowOf(adjacency, FollowsOf(adjacency, s, targets[..|targets| - 1]), targets[|targets| - 1])
  }

  /** One edge: it closes a ring, leads to a node to visit, or is passed over. */
  ghost function FollowOf(adjacency: Adjacency, s: Dfs, next: string): (t: Dfs)
    requires Consistent(s) && s.stack != [] && next in Nodes(adjacency)
    ensures Consistent(t) && t.stack == s.stack && t.onStack == s.onStack && s.visited <= t.visited
    decreases Nodes(adjacency) - s.visited, 1, 0
  {
    if next in s.onStack then Reported(s, next)
    else if next !in s.visited then VisitOf(adjacency, s, next)
    else s
  }

  lemma EnteredConsistent(s: Dfs, node: string)
    requires Consistent(s) && node !in s.visited
    ensures Consistent(Entered(s, node)) && Entered(s, node).stack != []
  {
  }

  lemma LeftConsistent(s: Dfs, node: string, t: Dfs)
    requires Consistent(s) && node !in s.visited
    requires Consistent(t) && t.stack == Entered(s, node).stack && t.onStack == Entered(s, node).onStack
    requires Entered(s, node).visited <= t.visited
    ensures Consistent(Left(t)) && Left(t).stack == s.stack && Left(t).onStack == s.onStack
  {
  }

  lemma TargetsAreNodes(adjacency: Adjacency, node: string)
    ensures forall x :: x in Targets(adjacency, node) ==> x in Nodes(adjacency) && (node, x) in Arcs(adjacency)
  {
  }

  /** The traversal from each root that is not visited yet. */
  ghost function Search(adjacency: Adjacency, roots: seq<string>): (s: Dfs)
    requires forall r :: r in roots ==> r in adjacency
    ensures Consistent(s) && s.stack == []
  {
    if roots == [] then START
    else
      var s, last := Search(adjacency, roots[..|roots| - 1]), roots[|roots| - 1];
      if last in s.visited then s else VisitOf(adjacency, s, last)
  }

  /** The cycle search's closure and the structures it shares across calls. */
  class CycleFinder {
    const adjacency: Adjacency
    var visited: set<string>
    var stack: seq<string>
    var onStack: set<string>
    var cycles: seq<seq<string>>
    ghost var finished: seq<string>
    ghost var order: seq<string>
    ghost var tree: set<(string, string)>

    constructor (adjacency: Adjacency)
      ensures this.adjacency == adjacency && View() == START
    {
      this.adjacency := adjacency;
      visited, stack, onStack, cycles, finished, order, tree := {}, [], {}, [], [], [], {};
    }

    ghost function View(): Dfs
      reads this
    {
      Dfs(visited, stack, onStack, cycles, finished, order, tree)
    }

    /** The nested `visit`. */
    method Visit(node: string)
      requires Consistent(View()) && node !in visited && node in Nodes(adjacency)
      modifies this
      ensures View() == VisitOf(adjacency, old(View()), node)
      decreases Nodes(adjacency) - visited, 0
    {
      hide Nodes, Targets;
      EnteredConsistent(View(), node);
      TargetsAreNodes(adjacency, node);
      tree := if stack == [] then tree else tree + {(stack[|stack| - 1], node)};
      order := order + [node];
      visited := visited + {node};
      stack := stack + [node];
      onStack := onStack + {node};
      ghost var entered := View();
      assert entered == Entered(old(View()), node);
      hide Consistent, Entered;
      var targets := Targets(adjacency, node);
      for i := 0 to |targets|
        invariant Consistent(View()) && View() == FollowsOf(adjacency, entered, targets[..i])
      {
        assert targets[..i + 1][..i] == targets[..i];
        Follow(targets[i]);
      }
      assert targets[..|targets|] == targets;
      ghost var inside := View();
      stack := stack[..|stack| - 1];
      onStack := onStack - {node};
      finished := finished + [node];
      TopStays(old(View()), node, inside);
      assert View() == Left(inside);
    }

    /** One edge out of the node on top of the stack. */
    method Follow(next: string)
      requires Consistent(View()) && stack != [] && next in Nodes(adjacency)
      modifies this
      ensures View() == FollowOf(adjacency, old(View()), next)
      decreases Nodes(adjacency) - visited, 1
    {
      if next in onStack {
        cycles := cycles + [stack[IndexOf(stack, next)..] + [next]];
      } else if next !in visited {
        Visit(next);
      }
    }
  }

  lemma TopStays(s: Dfs, node: string, t: Dfs)
    requires t.stack == Entered(s, node).stack
    ensures t.stack != [] && t.stack[|t.stack| - 1] == node
  {
  }

  // ----- What the traversal keeps -----

  ghost predicate Closes(cycles: seq<seq<string>>, u: string, v: string) {
    exists i :: 0 <= i < |cycles| && |cycles[i]| >= 2 && ClosingEdge(cycles[i]) == (u, v)
  }

  ghost predicate SettledEdge(s: Dfs, k: nat, v: string)
    requires k < |s.finished|
  {
    v in s.finished[..k] || Closes(s.cycles, s.finished[k], v)
  }

  /** Every edge out of a finished node leads to an earlier finished node or closes a reported cycle. */
  ghost predicate Settled(arcs: set<(string, string)>, s: Dfs) {
    forall k: nat, v :: k < |s.finished| && (s.finished[k], v) in arcs ==> SettledEdge(s, k, v)
  }

  ghost predicate Inv(arcs: set<(string, string)>, s: Dfs) {
    && Distinct(s.stack) && Distinct(s.finished)
    && s.onStack == Elems(s.stack)
    && s.visited == s.onStack + Elems(s.finished)
    && s.onStack !! Elems(s.finished)
    && (s.stack != [] ==> IsWalk(arcs, s.stack))
    && (forall c :: c in s.cycles ==> ClosedRing(arcs, c))
    && Settled(arcs, s)
  }

  ghost predicate MayVisit(arcs: set<(string, string)>, s: Dfs, node: string) {
    s.stack != [] ==> (s.stack[|s.stack| - 1], node) in arcs
  }

  ghost predicate OneParent(tree: set<(string, string)>) {
    forall x, y, z :: (x, z) in tree && (y, z) in tree ==> x == y
  }

  ghost predicate EntersVisited(s: Dfs) {
    forall x, y :: (x, y) in s.tree ==> y in s.visited
  }

  ghost predicate EntersLater(s: Dfs) {
    forall j: nat, x :: j < |s.order| && (x, s.order[j]) in s.tree ==> x in s.order[..j]
  }

  ghost predicate RunsAlong(tree: set<(string, string)>, cycles: seq<seq<string>>) {
    forall c :: c in cycles ==> |c| >= 2 && IsWalk(tree, Ring(c))
  }

  /** The edges visits were entered by: one into each node at most, from a node visited earlier. */
  ghost predicate TreeInv(s: Dfs) {
    && Distinct(s.order) && Elems(s.order) == s.visited
    && OneParent(s.tree) && EntersVisited(s) && EntersLater(s)
    && (s.stack != [] ==> IsWalk(s.tree, s.stack))
    && RunsAlong(s.tree, s.cycles)
  }

  ghost predicate Sound(arcs: set<(string, string)>, s: Dfs) {
    Inv(arcs, s) && TreeInv(s)
  }

  ghost predicate Later(s: Dfs, t: Dfs) {
    s.finished <= t.finished && s.cycles <= t.cycles
  }

  lemma WalkGrows(edges: set<(string, string)>, p: seq<string>, x: string)
    requires IsWalk(edges, p) && (p[|p| - 1], x) in edges
    ensures IsWalk(edges, p + [x])
  {
    forall i | 0 <= i < |p|
      ensures Follows(edges, p + [x], i)
    {
      if i < |p| - 1 {
        assert Follows(edges, p, i);
      }
    }
  }

  lemma WalkMono(small: set<(string, string)>, big: set<(string, string)>, p: seq<string>)
    requires small <= big && IsWalk(small, p)
    ensures IsWalk(big, p)
  {
    forall i | 0 <= i < |p| - 1
      ensures Follows(big, p, i)
    {
      assert Follows(small, p, i);
    }
  }

  lemma WalkPart(edges: set<(string, string)>, p: seq<string>, i: nat, j: nat)
    requires IsWalk(edges, p) && i < j <= |p|
    ensures IsWalk(edges, p[i..j])
  {
    forall k | 0 <= k < j - i - 1
      ensures Follows(edges, p[i..j], k)
    {
      assert Follows(edges, p, i + k);
    }
  }

  lemma EnterNode(arcs: set<(string, string)>, s: Dfs, node: string)
    requires Inv(arcs, s) && MayVisit(arcs, s, node) && node !in s.visited
    ensures Inv(arcs, Entered(s, node))
  {
    var t := Entered(s, node);
    if s.stack != [] {
      WalkGrows(arcs, s.stack, node);
    }
    assert Elems(t.stack) == Elems(s.stack) + {node};
    forall k: nat, v | k < |t.finished| && (t.finished[k], v) in arcs
      ensures SettledEdge(t, k, v)
    {
      assert SettledEdge(s, k, v);
    }
  }

  lemma EnterTree(arcs: set<(string, string)>, s: Dfs, node: string)
    requires Sound(arcs, s) && node !in s.visited
    ensures TreeInv(Entered(s, node))
  {
    EnterWalks(s, node);
    EnterOrder(arcs, s, node);
    EnterParent(s, node);
    AppendDistinct(s.order, node);
    hide IsWalk, Inv, EntersLater, OneParent, EntersVisited, RunsAlong, Distinct;
  }

  lemma AppendDistinct(order: seq<string>, node: string)
    requires Distinct(order) && node !in Elems(order)
    ensures Distinct(order + [node]) && Elems(order + [node]) == Elems(order) + {node}
  {
  }

  lemma EnterParent(s: Dfs, node: string)
    requires OneParent(s.tree) && EntersVisited(s) && node !in s.visited
    ensures OneParent(Entered(s, node).tree) && EntersVisited(Entered(s, node))
  {
  }

  /** The walks along entering edges: the stack, and every reported ring. */
  lemma EnterWalks(s: Dfs, node: string)
    requires TreeInv(s)
    ensures IsWalk(Entered(s, node).tree, Entered(s, node).stack)
    ensures RunsAlong(Entered(s, node).tree, s.cycles)
  {
    var t := Entered(s, node);
    hide Distinct, Ring, OneParent, EntersVisited, EntersLater;
    forall c | c in s.cycles
      ensures |c| >= 2 && IsWalk(t.tree, Ring(c))
    {
      WalkMono(s.tree, t.tree, Ring(c));
    }
    if s.stack != [] {
      WalkMono(s.tree, t.tree, s.stack);
      WalkGrows(t.tree, s.stack, node);
    }
  }

  lemma EnterOrder(arcs: set<(string, string)>, s: Dfs, node: string)
    requires Sound(arcs, s) && node !in s.visited
    ensures EntersLater(Entered(s, node))
  {
    var t := Entered(s, node);
    if s.stack != [] {
      assert s.stack[|s.stack| - 1] in Elems(s.order);
    }
    hide Inv, IsWalk, RunsAlong, Distinct, OneParent;
    forall j: nat, x | j < |t.order| && (x, t.order[j]) in t.tree
      ensures x in t.order[..j]
    {
      assert t.order[..|s.order|] == s.order;
      if j < |s.order| {
        assert t.order[..j] == s.order[..j] && t.order[j] == s.order[j];
        assert t.order[j] in Elems(s.order);
      }
    }
  }

  lemma ReportCycle(arcs: set<(string, string)>, s: Dfs, next: string)
    requires Inv(arcs, s) && s.stack != [] && MayVisit(arcs, s, next) && next in s.stack
    ensures Inv(arcs, Reported(s, next))
    ensures Closes(Reported(s, next).cycles, s.stack[|s.stack| - 1], next)
  {
    var start := IndexOf(s.stack, next);
    var cycle := s.stack[start..] + [next];
    WalkPart(arcs, s.stack, start, |s.stack|);
    assert s.stack[start..|s.stack|] == s.stack[start..];
    WalkGrows(arcs, s.stack[start..], next);
    assert ClosedRing(arcs, cycle);
    var t := Reported(s, next);
    assert t.cycles[|s.cycles|] == cycle && ClosingEdge(cycle) == (s.stack[|s.stack| - 1], next);
    forall k: nat, v | k < |t.finished| && (t.finished[k], v) in arcs
      ensures SettledEdge(t, k, v)
    {
      assert SettledEdge(s, k, v);
      ClosesMore(s.cycles, t.cycles, s.finished[k], v);
    }
  }

  lemma ReportTree(s: Dfs, next: string)
    requires TreeInv(s) && next in s.stack
    ensures TreeInv(Reported(s, next))
  {
    var start := IndexOf(s.stack, next);
    var cycle := s.stack[start..] + [next];
    WalkPart(s.tree, s.stack, start, |s.stack|);
    assert Ring(cycle) == s.stack[start..|s.stack|];
  }

  lemma ClosesMore(some: seq<seq<string>>, more: seq<seq<string>>, u: string, v: string)
    requires some <= more
    ensures Closes(some, u, v) ==> Closes(more, u, v)
  {
    if Closes(some, u, v) {
      var i :| 0 <= i < |some| && |some[i]| >= 2 && ClosingEdge(some[i]) == (u, v);
      assert more[i] == some[i];
    }
  }

  lemma LeaveNode(arcs: set<(string, string)>, s: Dfs, node: string)
    requires Inv(arcs, s) && s.stack != [] && s.stack[|s.stack| - 1] == node
    requires forall v :: (node, v) in arcs ==> v in s.finished || Closes(s.cycles, node, v)
    ensures Inv(arcs, Left(s))
  {
    LeaveSettled(arcs, s, node);
    LeaveSets(s, node);
    hide Settled, ClosedRing, Closes, Distinct;
    var t := Left(s);
    if t.stack != [] {
      WalkPart(arcs, s.stack, 0, |t.stack|);
      assert s.stack[0..|t.stack|] == t.stack;
    }
    hide IsWalk;
  }

  lemma LeaveSets(s: Dfs, node: string)
    requires s.stack != [] && s.stack[|s.stack| - 1] == node && Distinct(s.stack) && Distinct(s.finished)
    requires s.onStack == Elems(s.stack) && s.onStack !! Elems(s.finished)
    ensures var t := Left(s);
      && Distinct(t.stack) && Distinct(t.finished)
      && t.onStack == Elems(t.stack) && Elems(t.finished) == Elems(s.finished) + {node}
        && t.onStack == s.onStack - {node}
      && node in s.onStack
  {
    var t := Left(s);
    assert s.stack == t.stack + [node];
    assert node !in t.stack && node in Elems(s.stack);
  }

  lemma LeaveSettled(arcs: set<(string, string)>, s: Dfs, node: string)
    requires Settled(arcs, s) && s.stack != [] && s.stack[|s.stack| - 1] == node
    requires forall v :: (node, v) in arcs ==> v in s.finished || Closes(s.cycles, node, v)
    ensures Settled(arcs, Left(s))
  {
    hide Closes;
    var t := Left(s);
    forall k: nat, v | k < |t.finished| && (t.finished[k], v) in arcs
      ensures SettledEdge(t, k, v)
    {
      assert t.finished[..|s.finished|] == s.finished;
      if k < |s.finished| {
        assert t.finished[k] == s.finished[k];
        assert SettledEdge(s, k, v);
        assert t.finished[..k] == s.finished[..k];
      }
    }
  }

  lemma LeaveTree(s: Dfs)
    requires TreeInv(s) && s.stack != []
    ensures TreeInv(Left(s))
  {
    var t := Left(s);
    if t.stack != [] {
      WalkPart(s.tree, s.stack, 0, |t.stack|);
      assert s.stack[0..|t.stack|] == t.stack;
    }
  }

  lemma VisitedIs(arcs: set<(string, string)>, s: Dfs, x: string)
    requires Inv(arcs, s)
    ensures Consistent(s) && (x in s.onStack <==> x in s.stack)
    ensures x in s.visited && x !in s.onStack ==> x in s.finished
  {
  }

  lemma LaterStill(s: Dfs, t: Dfs, u: Dfs)
    requires Later(s, t) && Later(t, u)
    ensures Later(s, u)
  {
  }

  /** A node is finished, or an edge to it closes a reported cycle. */
  ghost predicate Handled(s: Dfs, node: string, next: string) {
    next in s.finished || Closes(s.cycles, node, next)
  }

  lemma HandledLater(s: Dfs, t: Dfs, node: string, next: string)
    requires Handled(s, node, next) && Later(s, t)
    ensures Handled(t, node, next)
  {
    hide Closes;
    ClosesMore(s.cycles, t.cycles, node, next);
  }

  lemma EnterSound(arcs: set<(string, string)>, s: Dfs, node: string)
    requires Sound(arcs, s) && MayVisit(arcs, s, node) && node !in s.visited
    ensures Sound(arcs, Entered(s, node)) && Later(s, Entered(s, node))
    ensures Entered(s, node).stack != [] && Entered(s, node).stack[|s.stack|] == node
            && |Entered(s, node).stack| == |s.stack| + 1
  {
    EnterNode(arcs, s, node);
    EnterTree(arcs, s, node);
    hide Inv, TreeInv;
  }

  lemma LeaveSound(arcs: set<(string, string)>, s: Dfs, node: string)
    requires Sound(arcs, s) && s.stack != [] && s.stack[|s.stack| - 1] == node
    requires forall v :: (node, v) in arcs ==> Handled(s, node, v)
    ensures Sound(arcs, Left(s)) && Later(s, Left(s)) && node in Left(s).finished
  {
    LeaveNode(arcs, s, node);
    LeaveTree(s);
    hide Inv, TreeInv;
  }

  lemma ReportSound(arcs: set<(string, string)>, s: Dfs, next: string)
    requires Sound(arcs, s) && s.stack != [] && MayVisit(arcs, s, next) && next in s.stack
    ensures Sound(arcs, Reported(s, next)) && Later(s, Reported(s, next))
    ensures Handled(Reported(s, next), s.stack[|s.stack| - 1], next)
  {
    ReportCycle(arcs, s, next);
    ReportTree(s, next);
    hide Inv, TreeInv, Closes;
  }

  /** A visit keeps the invariant, undoes nothing, and finishes its node. */
  lemma {:induction false} VisitKeeps(adjacency: Adjacency, s: Dfs, node: string)
    requires Consistent(s) && node !in s.visited && node in Nodes(adjacency)
    requires Sound(Arcs(adjacency), s) && MayVisit(Arcs(adjacency), s, node)
    ensures var t := VisitOf(adjacency, s, node);
      Sound(Arcs(adjacency), t) && Later(s, t) && node in t.finished
    decreases Nodes(adjacency) - s.visited, 0, 0
  {
    var arcs, entered, targets := Arcs(adjacency), Entered(s, node), Targets(adjacency, node);
    EnteredConsistent(s, node);
    TargetsAreNodes(adjacency, node);
    ArcsAreTargets(adjacency, node);
    EnterSound(arcs, s, node);
    hide Sound, Later, Consistent, Entered, Left, Arcs, Nodes, Targets, MayVisit, Handled, FollowsOf;
    EnteredMore(s, node);
    FollowsKeep(adjacency, entered, node, targets);
    var inside := FollowsOf(adjacency, entered, targets);
    LeaveSound(arcs, inside, node);
    LaterStill(s, entered, inside);
    LaterStill(s, inside, Left(inside));
  }

  lemma EnteredMore(s: Dfs, node: string)
    ensures Entered(s, node).visited == s.visited + {node}
  {
  }

  lemma ArcsAreTargets(adjacency: Adjacency, node: string)
    ensures forall v :: (node, v) in Arcs(adjacency) <==> v in Targets(adjacency, node)
  {
  }

  lemma {:induction false} FollowsKeep(adjacency: Adjacency, s: Dfs, node: string, targets: seq<string>)
    requires Consistent(s) && s.stack != [] && s.stack[|s.stack| - 1] == node
    requires forall x :: x in targets ==> x in Nodes(adjacency) && (node, x) in Arcs(adjacency)
    requires Sound(Arcs(adjacency), s)
    ensures var t := FollowsOf(adjacency, s, targets);
      && Sound(Arcs(adjacency), t) && Later(s, t)
      && forall x :: x in targets ==> Handled(t, node, x)
    decreases Nodes(adjacency) - s.visited, 2, |targets|
  {
    hide Sound, Consistent, Arcs, Nodes, Handled, FollowOf;
    if targets != [] {
      var init, next := targets[..|targets| - 1], targets[|targets| - 1];
      FollowsKeep(adjacency, s, node, init);
      var t := FollowsOf(adjacency, s, init);
      FollowKeeps(adjacency, t, next);
      var u := FollowOf(adjacency, t, next);
      LaterStill(s, t, u);
      assert targets == init + [next];
      forall x | x in targets
        ensures Handled(u, node, x)
      {
        if x in init {
          HandledLater(t, u, node, x);
        }
      }
    }
  }

  lemma {:induction false} FollowKeeps(adjacency: Adjacency, s: Dfs, next: string)
    requires Consistent(s) && s.stack != [] && next in Nodes(adjacency)
    requires Sound(Arcs(adjacency), s) && (s.stack[|s.stack| - 1], next) in Arcs(adjacency)
    ensures var t := FollowOf(adjacency, s, next);
      Sound(Arcs(adjacency), t) && Later(s, t) && Handled(t, s.stack[|s.stack| - 1], next)
    decreases Nodes(adjacency) - s.visited, 1, 0
  {
    VisitedIs(Arcs(adjacency), s, next);
    hide Sound, Consistent, Arcs, Nodes, Closes, VisitOf, Reported;
    if next in s.onStack {
      ReportSound(Arcs(adjacency), s, next);
    } else if next !in s.visited {
      VisitKeeps(adjacency, s, next);
    }
  }

  lemma StartSound(arcs: set<(string, string)>)
    ensures Sound(arcs, START)
  {
  }

  lemma {:induction false} SearchKeeps(adjacency: Adjacency, roots: seq<string>)
    requires forall r :: r in roots ==> r in adjacency
    ensures Sound(Arcs(adjacency), Search(adjacency, roots))
    ensures forall r :: r in roots ==> r in Search(adjacency, roots).finished
  {
    StartSound(Arcs(adjacency));
    hide Sound, Arcs, Nodes, VisitOf;
    if roots != [] {
      var init, last := roots[..|roots| - 1], roots[|roots| - 1];
      SearchKeeps(adjacency, init);
      RootKeeps(adjacency, Search(adjacency, init), last);
      assert roots == init + [last];
    }
  }

  lemma RootKeeps(adjacency: Adjacency, s: Dfs, root: string)
    requires root in adjacency && Consistent(s) && s.stack == [] && Sound(Arcs(adjacency), s)
    ensures var t := if root in s.visited then s else VisitOf(adjacency, s, root);
      Sound(Arcs(adjacency), t) && Later(s, t) && root in t.finished
  {
    VisitedIs(Arcs(adjacency), s, root);
    hide Sound, Arcs, VisitOf;
    if root !in s.visited {
      VisitKeeps(adjacency, s, root);
    }
  }

  // ----- The rings it reports -----

  ghost function ClosingEdges(cycles: seq<seq<string>>): set<(string, string)>
    requires forall c :: c in cycles ==> |c| >= 2
  {
    set c | c in cycles :: ClosingEdge(c)
  }

  /** All edges of all reported rings. */
  ghost function ReportedEdges(cycles: seq<seq<string>>): set<(string, string)>
    requires forall c :: c in cycles ==> |c| >= 2
  {
    set c, e | c in cycles && e in RingEdges(Ring(c)) :: e
  }

  ghost predicate AllClosed(graph: set<(string, string)>, cycles: seq<seq<string>>) {
    forall c :: c in cycles ==> ClosedRing(graph, c)
  }

  /** Without the closing edges of the traversal's cycles, the graph has no cycle left. */
  lemma ClosingEdgesBreakAll(arcs: set<(string, string)>, s: Dfs)
    requires Inv(arcs, s) && s.stack == []
    requires forall u, v :: (u, v) in arcs ==> u in s.finished
    ensures Acyclic(arcs - ClosingEdges(s.cycles))
  {
    var rest := arcs - ClosingEdges(s.cycles);
    forall k: nat, v | k < |s.finished| && (s.finished[k], v) in rest
      ensures v in s.finished[..k]
    {
      assert SettledEdge(s, k, v);
    }
    TopologicalIsAcyclic(rest, s.finished);
  }

  lemma AcyclicFewer(small: set<(string, string)>, big: set<(string, string)>)
    requires small <= big && Acyclic(big)
    ensures Acyclic(small)
  {
    forall x | OnCycle(small, x)
      ensures false
    {
      OnCycleMono(small, big, x);
    }
  }

  lemma ClosedRingIsCycle(graph: set<(string, string)>, c: seq<string>)
    requires ClosedRing(graph, c)
    ensures !Acyclic(graph)
    ensures ClosingEdge(c) in RingEdges(Ring(c))
    ensures Distinct(Ring(c)) && Ring(c) != []
    ensures forall e :: e in RingEdges(Ring(c)) ==> e in graph
  {
    assert Follows(graph, c, 0);
    var rest := c[1..];
    forall i | 0 <= i < |rest| - 1
      ensures Follows(graph, rest, i)
    {
      assert Follows(graph, c, i + 1);
    }
    assert WalkFromTo(graph, rest, c[1], c[0]);
    assert OnCycle(graph, c[0]);
    var ring, n := Ring(c), |c| - 1;
    assert ring[n - 1] == c[n - 1] && Next(ring, n - 1) == c[n];
    forall i | 0 <= i < |ring|
      ensures (ring[i], Next(ring, i)) in graph
    {
      assert Follows(graph, c, i);
    }
    forall i, j | 0 <= i < j < |ring|
      ensures ring[i] != ring[j]
    {
      if i == 0 {
        assert ring[0] == rest[|rest| - 1] && ring[j] == rest[j - 1];
      } else {
        assert ring[i] == rest[i - 1] && ring[j] == rest[j - 1];
      }
    }
  }

  ghost predicate HasRotation(kept: seq<seq<string>>, c: seq<string>) {
    exists d :: d in kept && IsRotation(Ring(c), Ring(d))
  }

  lemma RotationIn(kept: seq<seq<string>>, c: seq<string>)
    requires HasRotation(kept, c)
    ensures exists d :: d in kept && IsRotation(Ring(c), Ring(d))
  {
  }

  /** Dropping spellings of rings that are kept loses no edge of a reported ring. */
  lemma KeptEdges(graph: set<(string, string)>, cycles: seq<seq<string>>, kept: seq<seq<string>>)
    requires AllClosed(graph, cycles) && AllClosed(graph, kept)
    requires forall c :: c in cycles ==> HasRotation(kept, c)
    ensures ClosingEdges(cycles) <= ReportedEdges(kept)
  {
    hide HasRotation;
    forall c | c in cycles
      ensures ClosingEdge(c) in ReportedEdges(kept)
    {
      RotationIn(kept, c);
      var d :| d in kept && IsRotation(Ring(c), Ring(d));
      var k: nat :| k <= |Ring(c)| && Ring(d) == Rotate(Ring(c), k);
      RotationEdges(Ring(c), k);
      ClosedRingIsCycle(graph, c);
    }
  }

  ghost predicate NoTwoRotations(cycles: seq<seq<string>>) {
    forall i, j :: 0 <= i < j < |cycles| ==> !IsRotation(Ring(cycles[i]), Ring(cycles[j]))
  }

  ghost predicate KeysOnce(kept: seq<seq<string>>) {
    forall i, j :: 0 <= i < j < |kept| ==> RingKey(Ring(kept[i])) != RingKey(Ring(kept[j]))
  }

  ghost predicate KeyKept(kept: seq<seq<string>>, key: string) {
    exists d :: d in kept && RingKey(Ring(d)) == key
  }

  lemma KeyIn(kept: seq<seq<string>>, key: string)
    requires KeyKept(kept, key)
    ensures exists d :: d in kept && RingKey(Ring(d)) == key
  {
  }

  /** The first cycle of each ring key. */
  ghost function UniqueOf(cycles: seq<seq<string>>): seq<seq<string>> {
    if cycles == [] then []
    else
      var kept, last := UniqueOf(cycles[..|cycles| - 1]), cycles[|cycles| - 1];
      if KeyKept(kept, RingKey(Ring(last))) then kept else kept + [last]
  }

  method Unique(cycles: seq<seq<string>>) returns (kept: seq<seq<string>>)
    ensures kept == UniqueOf(cycles)
  {
    hide RingKey, Ring;
    kept := [];
    var keys: seq<string> := [];
    for n := 0 to |cycles|
      invariant kept == UniqueOf(cycles[..n])
      invariant |keys| == |kept| && forall i :: 0 <= i < |kept| ==> keys[i] == RingKey(Ring(kept[i]))
    {
      assert cycles[..n + 1][..n] == cycles[..n];
      var key := RingKey(Ring(cycles[n]));
      assert key in keys <==> KeyKept(kept, key) by {
        KeysKept(kept, keys, key);
      }
      if key !in keys {
        keys := keys + [key];
        kept := kept + [cycles[n]];
      }
    }
    assert cycles[..|cycles|] == cycles;
  }

  lemma KeysKept(kept: seq<seq<string>>, keys: seq<string>, key: string)
    requires |keys| == |kept| && forall i :: 0 <= i < |kept| ==> keys[i] == RingKey(Ring(kept[i]))
    ensures key in keys <==> KeyKept(kept, key)
  {
    hide RingKey, Ring;
    if key in keys {
      var i :| 0 <= i < |keys| && keys[i] == key;
      assert kept[i] in kept;
    }
    if KeyKept(kept, key) {
      KeyIn(kept, key);
      var d :| d in kept && RingKey(Ring(d)) == key;
      var i :| 0 <= i < |kept| && kept[i] == d;
      assert keys[i] == key;
    }
  }

  /** Every key keeps one of its cycles, and only one. */
  lemma {:induction false} UniqueKeepsKeys(cycles: seq<seq<string>>)
    ensures forall c :: c in UniqueOf(cycles) ==> c in cycles
    ensures forall c :: c in cycles ==> KeyKept(UniqueOf(cycles), RingKey(Ring(c)))
    ensures KeysOnce(UniqueOf(cycles))
  {
    hide RingKey, Ring;
    if cycles != [] {
      var init, last := cycles[..|cycles| - 1], cycles[|cycles| - 1];
      UniqueKeepsKeys(init);
      assert cycles == init + [last];
      var kept := UniqueOf(init);
      if !KeyKept(kept, RingKey(Ring(last))) {
        KeyAdded(kept, last);
      }
    }
  }

  lemma KeyAdded(kept: seq<seq<string>>, last: seq<string>)
    requires KeysOnce(kept) && !KeyKept(kept, RingKey(Ring(last)))
    ensures KeysOnce(kept + [last]) && KeyKept(kept + [last], RingKey(Ring(last)))
    ensures forall key :: KeyKept(kept, key) ==> KeyKept(kept + [last], key)
  {
    hide RingKey, Ring;
    forall i | 0 <= i < |kept|
      ensures RingKey(Ring(kept[i])) != RingKey(Ring(last))
    {
      assert kept[i] in kept;
    }
    assert last in kept + [last];
    forall key | KeyKept(kept, key)
      ensures KeyKept(kept + [last], key)
    {
      KeyIn(kept, key);
      var d :| d in kept && RingKey(Ring(d)) == key;
      assert d in kept + [last];
    }
  }

  /** How the search ends: every structure, after the last root. */
  ghost function Ended(edges: seq<Edge>, includeTypes: bool): Dfs {
    AdjacencyHolds(edges, includeTypes);
    var (adjacency, keys) := AdjacencyOf(edges, includeTypes);
    SortMembers(keys);
    Search(adjacency, Sort(keys))
  }

  /** What `findCycles` returns. */
  ghost function CyclesOf(edges: seq<Edge>, includeTypes: bool): seq<seq<string>> {
    UniqueOf(Ended(edges, includeTypes).cycles)
  }

  lemma EndedSound(edges: seq<Edge>, includeTypes: bool)
    ensures var s, graph := Ended(edges, includeTypes), Binding(edges, includeTypes);
      Sound(graph, s) && s.stack == [] && forall u, v :: (u, v) in graph ==> u in s.finished
  {
    AdjacencyHolds(edges, includeTypes);
    var (adjacency, keys) := AdjacencyOf(edges, includeTypes);
    SortMembers(keys);
    SearchKeeps(adjacency, Sort(keys));
    SourcesAreKeys(adjacency);
    hide Sound, AdjacencyOf, Search, Arcs, Binding, Sort;
  }

  lemma SourcesAreKeys(adjacency: Adjacency)
    ensures forall u, v :: (u, v) in Arcs(adjacency) ==> u in adjacency
  {
  }

  /**
   `findCycles`: every list it returns is a real ring, it returns none exactly when
   the binding edges are acyclic, and (package names being valid) no two of the
   rings are rotations of one another and together they hit every cycle: without
   the edges they report, the graph is acyclic.
   */
  method FindCycles(edges: seq<Edge>, includeTypes: bool) returns (result: seq<seq<string>>)
    ensures result == CyclesOf(edges, includeTypes)
    ensures AllClosed(Binding(edges, includeTypes), result)
    ensures result == [] <==> Acyclic(Binding(edges, includeTypes))
    ensures ValidNames(edges) ==> Acyclic(Binding(edges, includeTypes) - ReportedEdges(result))
    ensures ValidNames(edges) ==> NoTwoRotations(result)
  {
    AdjacencyHolds(edges, includeTypes);
    CyclesAre(edges, includeTypes);
    var adjacency, keys := BuildAdjacency(edges, includeTypes);
    SortMembers(keys);
    hide AdjacencyOf, Binding, Arcs, Consistent, Sort, AllClosed, Acyclic, ValidNames, NoTwoRotations, Search, UniqueOf;
    var cycles := SearchAll(adjacency, Sort(keys));
    result := Unique(cycles);
  }

  /** The loop over the roots. */
  method SearchAll(adjacency: Adjacency, roots: seq<string>) returns (cycles: seq<seq<string>>)
    requires forall r :: r in roots ==> r in adjacency
    ensures cycles == Search(adjacency, roots).cycles
  {
    assert Consistent(START);
    var finder := new CycleFinder(adjacency);
    hide Consistent, VisitOf, Nodes;
    for i := 0 to |roots|
      invariant finder.adjacency == adjacency
      invariant Consistent(finder.View()) && finder.View() == Search(adjacency, roots[..i])
    {
      assert roots[..i + 1][..i] == roots[..i];
      RootIsNode(adjacency, roots[i]);
      if roots[i] !in finder.visited {
        finder.Visit(roots[i]);
      }
    }
    assert roots[..|roots|] == roots;
    cycles := finder.cycles;
  }

  lemma RootIsNode(adjacency: Adjacency, root: string)
    requires root in adjacency
    ensures root in Nodes(adjacency)
  {
  }

  lemma CyclesAre(edges: seq<Edge>, includeTypes: bool)
    ensures var result := CyclesOf(edges, includeTypes);
      && AllClosed(Binding(edges, includeTypes), result)
      && (result == [] <==> Acyclic(Binding(edges, includeTypes)))
      && (ValidNames(edges) ==> Acyclic(Binding(edges, includeTypes) - ReportedEdges(result)))
      && (ValidNames(edges) ==> NoTwoRotations(result))
  {
    EndedSound(edges, includeTypes);
    var s, graph := Ended(edges, includeTypes), Binding(edges, includeTypes);
    AllClosedAtEnd(graph, s);
    hide Sound, Ended, Binding, UniqueOf, Acyclic, ValidNames;
    ClosingEdgesBreakAll(graph, s);
    UniqueKeepsKeys(s.cycles);
    UniqueKeepsTheRings(edges, includeTypes, s.cycles, CyclesOf(edges, includeTypes));
  }

  lemma AllClosedAtEnd(graph: set<(string, string)>, s: Dfs)
    requires Sound(graph, s)
    ensures AllClosed(graph, s.cycles) && Inv(graph, s) && TreeInv(s)
  {
  }

  lemma UniqueKeepsTheRings(edges: seq<Edge>, includeTypes: bool, cycles: seq<seq<string>>, kept: seq<seq<string>>)
    requires AllClosed(Binding(edges, includeTypes), cycles)
    requires Acyclic(Binding(edges, includeTypes) - ClosingEdges(cycles))
    requires forall c :: c in kept ==> c in cycles
    requires forall c :: c in cycles ==> KeyKept(kept, RingKey(Ring(c)))
    requires KeysOnce(kept)
    ensures kept == [] <==> Acyclic(Binding(edges, includeTypes))
    ensures ValidNames(edges) ==> Acyclic(Binding(edges, includeTypes) - ReportedEdges(kept))
    ensures ValidNames(edges) ==> NoTwoRotations(kept)
  {
    hide RingKey, Binding, IsRotation, Acyclic;
    var graph := Binding(edges, includeTypes);
    if cycles != [] {
      assert cycles[0] in cycles;
    }
    if kept == [] {
      assert graph - ClosingEdges(cycles) == graph;
    } else {
      assert kept[0] in cycles;
      ClosedRingIsCycle(graph, kept[0]);
    }
    if ValidNames(edges) {
      UniqueKeepsTheEdges(edges, includeTypes, cycles, kept);
    }
  }

  lemma UniqueKeepsTheEdges(edges: seq<Edge>, includeTypes: bool, cycles: seq<seq<string>>, kept: seq<seq<string>>)
    requires ValidNames(edges) && AllClosed(Binding(edges, includeTypes), cycles)
    requires Acyclic(Binding(edges, includeTypes) - ClosingEdges(cycles))
    requires forall c :: c in kept ==> c in cycles
    requires forall c :: c in cycles ==> KeyKept(kept, RingKey(Ring(c)))
    requires KeysOnce(kept)
    ensures Acyclic(Binding(edges, includeTypes) - ReportedEdges(kept))
    ensures NoTwoRotations(kept)
  {
    hide KeyKept, Acyclic;
    var graph := Binding(edges, includeTypes);
    forall c | c in cycles
      ensures HasRotation(kept, c)
    {
      KeyIn(kept, RingKey(Ring(c)));
      var d :| d in kept && RingKey(Ring(d)) == RingKey(Ring(c));
      ReportedKeys(edges, includeTypes, c, d);
    }
    KeptEdges(graph, cycles, kept);
    AcyclicFewer(graph - ReportedEdges(kept), graph - ClosingEdges(cycles));
    forall i, j | 0 <= i < j < |kept|
      ensures !IsRotation(Ring(kept[i]), Ring(kept[j]))
    {
      ReportedKeys(edges, includeTypes, kept[i], kept[j]);
    }
  }

  lemma ReportedKeys(edges: seq<Edge>, includeTypes: bool, c: seq<string>, d: seq<string>)
    requires ValidNames(edges)
    requires ClosedRing(Binding(edges, includeTypes), c) && ClosedRing(Binding(edges, includeTypes), d)
    ensures RingKey(Ring(c)) == RingKey(Ring(d)) <==> IsRotation(Ring(c), Ring(d))
  {
    ClosedRingIsCycle(Binding(edges, includeTypes), c);
    RingNames(edges, includeTypes, c);
    RingNames(edges, includeTypes, d);
    RingKeyIffRotation(Ring(c), Ring(d));
  }

  lemma RingNames(edges: seq<Edge>, includeTypes: bool, c: seq<string>)
    requires ValidNames(edges) && ClosedRing(Binding(edges, includeTypes), c)
    ensures ValidRing(Ring(c))
  {
    forall name | name in Ring(c)
      ensures ValidName(name)
    {
      var i :| 0 <= i < |c| - 1 && c[i] == name;
      assert Follows(Binding(edges, includeTypes), c, i);
    }
  }

  // ----- Exactly which rings are reported -----

  /** The edges the search passed over: no visit was entered by them and no ring closed with them. */
  ghost function PassedOver(edges: seq<Edge>, includeTypes: bool): set<(string, string)> {
    Unused(Binding(edges, includeTypes), Ended(edges, includeTypes))
  }

  ghost function Unused(graph: set<(string, string)>, s: Dfs): set<(string, string)> {
    set e | e in graph && e !in s.tree && !Closes(s.cycles, e.0, e.1)
  }

  /** Two walks of entering edges to one node: the shorter is the end of the longer. */
  lemma {:induction false} TreeSuffix(tree: set<(string, string)>, p: seq<string>, q: seq<string>)
    requires OneParent(tree) && IsWalk(tree, p) && IsWalk(tree, q)
    requires p[|p| - 1] == q[|q| - 1] && |p| <= |q|
    ensures p == q[|q| - |p|..]
    decreases |p|
  {
    if |p| > 1 {
      SameParent(tree, p, q);
      hide IsWalk, OneParent;
      TreeSuffix(tree, p[0..|p| - 1], q[0..|q| - 1]);
      SuffixGrows(p, q);
    }
  }

  /** Without their common last node they still end in one node. */
  lemma SameParent(tree: set<(string, string)>, p: seq<string>, q: seq<string>)
    requires OneParent(tree) && IsWalk(tree, p) && IsWalk(tree, q)
    requires 1 < |p| <= |q| && p[|p| - 1] == q[|q| - 1]
    ensures IsWalk(tree, p[0..|p| - 1]) && IsWalk(tree, q[0..|q| - 1])
    ensures p[0..|p| - 1][|p| - 2] == q[0..|q| - 1][|q| - 2]
  {
    assert Follows(tree, p, |p| - 2) && Follows(tree, q, |q| - 2);
    WalkPart(tree, p, 0, |p| - 1);
    WalkPart(tree, q, 0, |q| - 1);
  }

  lemma SuffixGrows(p: seq<string>, q: seq<string>)
    requires 1 < |p| <= |q| && p[|p| - 1] == q[|q| - 1]
    requires p[0..|p| - 1] == q[0..|q| - 1][|q| - |p|..]
    ensures p == q[|q| - |p|..]
  {
    assert p == p[0..|p| - 1] + [p[|p| - 1]];
    assert q[|q| - |p|..] == q[0..|q| - 1][|q| - |p|..] + [q[|q| - 1]];
  }

  /** A walk of entering edges begins where the visit began earlier. */
  lemma {:induction false} TreeGoesLater(s: Dfs, p: seq<string>, j: nat)
    requires TreeInv(s) && IsWalk(s.tree, p) && |p| > 1 && j < |s.order| && s.order[j] == p[|p| - 1]
    ensures p[0] in s.order[..j]
    decreases |p|
  {
    assert Follows(s.tree, p, |p| - 2);
    var x := p[|p| - 2];
    assert x in s.order[..j];
    if |p| > 2 {
      var i :| 0 <= i < j && s.order[i] == x;
      WalkPart(s.tree, p, 0, |p| - 1);
      TreeGoesLater(s, p[0..|p| - 1], i);
      assert p[0..|p| - 1][0] == p[0];
    }
  }

  /** No node of the ring was visited before its first. */
  ghost predicate FirstVisited(s: Dfs, ring: seq<string>, j: nat)
    requires j < |s.order| && ring != []
  {
    s.order[j] == ring[0] && forall x :: x in ring ==> x in s.visited && x !in s.order[..j]
  }

  /** An edge of the ring that no visit was entered by closes a reported ring; its other edges are entering ones. */
  lemma ClosingRing(graph: set<(string, string)>, s: Dfs, u: string, v: string) returns (d: seq<string>)
    requires Sound(graph, s) && Closes(s.cycles, u, v)
    ensures d in s.cycles && ClosedRing(graph, d)
    ensures var t := Ring(d); Distinct(t) && IsWalk(s.tree, t) && t[0] == v && t[|t| - 1] == u
  {
    var i :| 0 <= i < |s.cycles| && |s.cycles[i]| >= 2 && ClosingEdge(s.cycles[i]) == (u, v);
    d := s.cycles[i];
    assert d in s.cycles;
    ClosedRingIsCycle(graph, d);
  }

  /** From its first visited node on, a ring without passed-over edges runs along entering edges. */
  lemma {:induction false} RunsAlongTree(graph: set<(string, string)>, s: Dfs, ring: seq<string>, j: nat, n: nat)
    requires Sound(graph, s) && ring != [] && Distinct(ring) && j < |s.order| && FirstVisited(s, ring, j)
    requires forall i :: 0 <= i < |ring| - 1 ==> Uses(s, ring, i)
    requires 0 < n <= |ring|
    ensures IsWalk(s.tree, ring[..n])
  {
    if n > 1 {
      RunsAlongTree(graph, s, ring, j, n - 1);
      var p, u, v := ring[..n - 1], ring[n - 2], ring[n - 1];
      assert Uses(s, ring, n - 2);
      if (u, v) in s.tree {
        WalkGrows(s.tree, p, v);
        assert p + [v] == ring[..n];
      } else {
        BackIntoRing(graph, s, ring, j, n - 1);
      }
    }
  }

  /** The search used this edge: a visit was entered by it, or a ring closed with it. */
  ghost predicate Uses(s: Dfs, ring: seq<string>, i: int)
    requires 0 <= i < |ring|
  {
    (ring[i], Next(ring, i)) in s.tree || Closes(s.cycles, ring[i], Next(ring, i))
  }

  /** Two walks of entering edges to one node: one starts on the other, or before it. */
  lemma CommonEnd(s: Dfs, p: seq<string>, t: seq<string>, j: nat)
    requires TreeInv(s) && IsWalk(s.tree, p) && IsWalk(s.tree, t) && p[|p| - 1] == t[|t| - 1]
    requires j < |s.order| && s.order[j] == p[0]
    ensures t[0] in p || t[0] in s.order[..j]
  {
    if |t| <= |p| {
      TreeSuffix(s.tree, t, p);
    } else {
      TreeSuffix(s.tree, p, t);
      WalkPart(s.tree, t, 0, |t| - |p| + 1);
      var q := t[0..|t| - |p| + 1];
      assert q[|q| - 1] == p[0] && q[0] == t[0];
      TreeGoesLater(s, q, j);
    }
  }

  /** Only the edge back to its first visited node can close a ring with the walk so far. */
  lemma BackIntoRing(graph: set<(string, string)>, s: Dfs, ring: seq<string>, j: nat, n: nat)
    requires Sound(graph, s) && ring != [] && Distinct(ring) && j < |s.order| && FirstVisited(s, ring, j)
    requires 0 < n < |ring| && IsWalk(s.tree, ring[..n])
    ensures !Closes(s.cycles, ring[n - 1], ring[n])
  {
    assert ring[n] in ring && ring[n] !in ring[..n];
    assert TreeInv(s);
    hide Sound, TreeInv, Closes, Distinct, IsWalk, ClosedRing;
    if Closes(s.cycles, ring[n - 1], ring[n]) {
      var d := ClosingRing(graph, s, ring[n - 1], ring[n]);
      CommonEnd(s, ring[..n], Ring(d), j);
      assert false;
    }
  }

  /** Starting at its first visited node, a ring that only uses what the search used is one it reported. */
  lemma FromFirstVisited(graph: set<(string, string)>, s: Dfs, ring: seq<string>, j: nat) returns (d: seq<string>)
    requires Sound(graph, s) && ring != [] && Distinct(ring) && j < |s.order| && FirstVisited(s, ring, j)
    requires forall i :: 0 <= i < |ring| ==> Uses(s, ring, i)
    ensures d in s.cycles && Ring(d) == ring
  {
    var n := |ring|;
    RunsAlongTree(graph, s, ring, j, n);
    assert ring[..n] == ring;
    assert Uses(s, ring, n - 1);
    LastCloses(s, ring, j);
    d := ClosingRing(graph, s, ring[n - 1], ring[0]);
    var t := Ring(d);
    if |t| <= |ring| {
      TreeSuffix(s.tree, t, ring);
      SameStart(t, ring);
    } else {
      TreeSuffix(s.tree, ring, t);
      SameStart(ring, t);
    }
  }

  lemma SameStart(p: seq<string>, q: seq<string>)
    requires p != [] && |p| <= |q| && p == q[|q| - |p|..] && Distinct(q) && p[0] == q[0]
    ensures p == q
  {
    assert q[|q| - |p|] == q[0];
  }

  lemma LastCloses(s: Dfs, ring: seq<string>, j: nat)
    requires TreeInv(s) && ring != [] && j < |s.order| && FirstVisited(s, ring, j)
    ensures (ring[|ring| - 1], ring[0]) !in s.tree
  {
    assert ring[|ring| - 1] in ring;
  }

  /** The place in a ring of the node visited first. */
  lemma {:induction false} FirstOf(s: Dfs, ring: seq<string>, n: nat) returns (m: nat, j: nat)
    requires TreeInv(s) && 0 < n <= |ring| && forall x :: x in ring ==> x in s.visited
    ensures m < n && j < |s.order| && s.order[j] == ring[m]
    ensures forall i :: 0 <= i < n ==> ring[i] !in s.order[..j]
    decreases n
  {
    assert ring[n - 1] in ring && ring[n - 1] in Elems(s.order);
    if n == 1 {
      m, j := 0, IndexOf(s.order, ring[0]);
    } else {
      m, j := FirstOf(s, ring, n - 1);
      if ring[n - 1] in s.order[..j] {
        var k := IndexOf(s.order, ring[n - 1]);
        m, j := n - 1, k;
      }
    }
  }

  lemma RotatedUses(s: Dfs, ring: seq<string>, m: nat)
    requires m <= |ring| && forall i :: 0 <= i < |ring| ==> Uses(s, ring, i)
    ensures |Rotate(ring, m)| == |ring| && forall i :: 0 <= i < |ring| ==> Uses(s, Rotate(ring, m), i)
  {
    RotateLength(ring, m);
    forall i | 0 <= i < |ring|
      ensures Uses(s, Rotate(ring, m), i)
    {
      NextAt(ring, m, i, if i + m < |ring| then i + m else i + m - |ring|);
      assert Uses(s, ring, if i + m < |ring| then i + m else i + m - |ring|);
    }
  }

  lemma RotatedDistinct(ring: seq<string>, m: nat)
    requires m <= |ring| && Distinct(ring)
    ensures Distinct(Rotate(ring, m))
  {
    forall i, j | 0 <= i < j < |Rotate(ring, m)|
      ensures Rotate(ring, m)[i] != Rotate(ring, m)[j]
    {
      RotateAt(ring, m, i);
      RotateAt(ring, m, j);
    }
  }

  /** A ring that only uses what the search used is a rotation of one it reported. */
  lemma UsedIsReported(graph: set<(string, string)>, s: Dfs, ring: seq<string>)
    requires Sound(graph, s) && ring != [] && Distinct(ring) && forall x :: x in ring ==> x in s.visited
    requires forall i :: 0 <= i < |ring| ==> Uses(s, ring, i)
    ensures exists d :: d in s.cycles && IsRotation(ring, Ring(d))
  {
    var m, j := FirstOf(s, ring, |ring|);
    var turned := Rotate(ring, m);
    RotatedUses(s, ring, m);
    RotatedDistinct(ring, m);
    RotationMembers(ring, m);
    RotateAt(ring, m, 0);
    hide Sound, Uses, Rotate, Distinct;
    var d := FromFirstVisited(graph, s, turned, j);
    assert IsRotation(ring, Ring(d));
  }

  /** The rings of a graph, of every node with an edge out, in terms of the search's edges. */
  lemma ReportedIffUsed(graph: set<(string, string)>, s: Dfs, c: seq<string>)
    requires Sound(graph, s) && ClosedRing(graph, c) && forall u, v :: (u, v) in graph ==> u in s.visited
    ensures (exists d :: d in s.cycles && IsRotation(Ring(c), Ring(d))) <==> RingEdges(Ring(c)) !! Unused(graph, s)
  {
    var ring := Ring(c);
    ClosedRingIsCycle(graph, c);
    if RingEdges(ring) !! Unused(graph, s) {
      forall i | 0 <= i < |ring|
        ensures Uses(s, ring, i) && ring[i] in s.visited
      {
        assert (ring[i], Next(ring, i)) in RingEdges(ring);
      }
      UsedIsReported(graph, s, ring);
    }
    if d :| d in s.cycles && IsRotation(ring, Ring(d)) {
      var k: nat :| k <= |ring| && Ring(d) == Rotate(ring, k);
      RotationEdges(ring, k);
      ReportedAreUsed(s, d);
    }
  }

  lemma ReportedAreUsed(s: Dfs, d: seq<string>)
    requires TreeInv(s) && d in s.cycles && |d| >= 2 && d[0] == d[|d| - 1]
    ensures forall e :: e in RingEdges(Ring(d)) ==> e in s.tree || Closes(s.cycles, e.0, e.1)
  {
    var t := Ring(d);
    forall i | 0 <= i < |t|
      ensures (t[i], Next(t, i)) in s.tree || Closes(s.cycles, t[i], Next(t, i))
    {
      if i + 1 < |t| {
        assert Follows(s.tree, t, i);
      } else {
        var k :| 0 <= k < |s.cycles| && s.cycles[k] == d;
        assert ClosingEdge(d) == (t[i], Next(t, i));
      }
    }
  }

  /** Dropping repeated spellings drops no ring. */
  lemma UniqueKeepsRings(edges: seq<Edge>, includeTypes: bool, cycles: seq<seq<string>>, c: seq<string>)
    requires ValidNames(edges) && AllClosed(Binding(edges, includeTypes), cycles)
             && ClosedRing(Binding(edges, includeTypes), c)
    ensures HasRotation(UniqueOf(cycles), c) <==> HasRotation(cycles, c)
  {
    UniqueKeepsKeys(cycles);
    hide ValidNames, Binding, ClosedRing, UniqueOf, KeysOnce, RingKey, IsRotation, KeyKept;
    if d :| d in cycles && IsRotation(Ring(c), Ring(d)) {
      KeyIn(UniqueOf(cycles), RingKey(Ring(d)));
      var kept :| kept in UniqueOf(cycles) && RingKey(Ring(kept)) == RingKey(Ring(d));
      ReportedKeys(edges, includeTypes, c, d);
      ReportedKeys(edges, includeTypes, c, kept);
    }
  }

  /**
   Exactly which rings `findCycles` reports: those that run over no edge the search
   passed over, because it led to a node already left when it was followed.
   */
  lemma ReportedExactly(edges: seq<Edge>, includeTypes: bool, c: seq<string>)
    requires ValidNames(edges) && ClosedRing(Binding(edges, includeTypes), c)
    ensures HasRotation(CyclesOf(edges, includeTypes), c) <==> RingEdges(Ring(c)) !! PassedOver(edges, includeTypes)
  {
    EndedSound(edges, includeTypes);
    var s, graph := Ended(edges, includeTypes), Binding(edges, includeTypes);
    AllClosedAtEnd(graph, s);
    FinishedVisited(graph, s);
    hide Sound, Ended, Binding, UniqueOf, ValidNames, Inv, TreeInv, ClosedRing, Ring, RingEdges;
    ReportedIffUsed(graph, s, c);
    UniqueKeepsRings(edges, includeTypes, s.cycles, c);
  }

  lemma FinishedVisited(graph: set<(string, string)>, s: Dfs)
    requires Sound(graph, s)
    ensures forall x :: x in s.finished ==> x in s.visited
  {
  }

  ghost predicate EveryRingReported(edges: seq<Edge>, includeTypes: bool) {
    forall c :: ClosedRing(Binding(edges, includeTypes), c) ==> HasRotation(CyclesOf(edges, includeTypes), c)
  }

  /** Every distinct cycle is reported exactly when no edge the search passed over lies on a cycle. */
  lemma EveryRingReportedIff(edges: seq<Edge>, includeTypes: bool)
    requires ValidNames(edges)
    ensures EveryRingReported(edges, includeTypes) <==>
              forall u, v :: (u, v) in PassedOver(edges, includeTypes) ==> !Reach(Binding(edges, includeTypes), v, u)
  {
    var graph, passed := Binding(edges, includeTypes), PassedOver(edges, includeTypes);
    PassedAreEdges(edges, includeTypes);
    hide Binding, PassedOver, CyclesOf, HasRotation, Reach, ClosedRing, RingEdges, ValidNames;
    if EveryRingReported(edges, includeTypes) {
      forall u, v | (u, v) in passed
        ensures !Reach(graph, v, u)
      {
        if Reach(graph, v, u) {
          var c := RingThrough(graph, u, v);
          ReportedExactly(edges, includeTypes, c);
          assert false;
        }
      }
    }
    if forall u, v :: (u, v) in passed ==> !Reach(graph, v, u) {
      forall c | ClosedRing(graph, c)
        ensures HasRotation(CyclesOf(edges, includeTypes), c)
      {
        ReportedExactly(edges, includeTypes, c);
        forall e | e in RingEdges(Ring(c))
          ensures e !in passed
        {
          RingEdgeReaches(graph, c, e.0, e.1);
        }
      }
    }
  }

  lemma PassedAreEdges(edges: seq<Edge>, includeTypes: bool)
    ensures forall e :: e in PassedOver(edges, includeTypes) ==> e in Binding(edges, includeTypes)
  {
    hide Ended, Binding, Closes;
  }

  /** An edge whose end reaches its start lies on a ring. */
  lemma RingThrough(graph: set<(string, string)>, u: string, v: string) returns (c: seq<string>)
    requires (u, v) in graph && Reach(graph, v, u)
    ensures ClosedRing(graph, c) && (u, v) in RingEdges(Ring(c))
  {
    var w: seq<string> :| WalkFromTo(graph, w, v, u);
    var p := SimpleWalk(graph, w, v, u);
    WalkGrows(graph, p, v);
    c := p + [v];
    assert Ring(c) == p && p[|p| - 1] == u && Next(p, |p| - 1) == v;
  }

  /** The end of a ring's edge reaches its start. */
  lemma RingEdgeReaches(graph: set<(string, string)>, c: seq<string>, u: string, v: string)
    requires ClosedRing(graph, c) && (u, v) in RingEdges(Ring(c))
    ensures Reach(graph, v, u)
  {
    var ring := Ring(c);
    var i :| 0 <= i < |ring| && ring[i] == u && Next(ring, i) == v;
    assert c[i] == u && c[i + 1] == v;
    hide RingEdges, Ring, Distinct, IsWalk, Reach;
    PartReaches(graph, c, 0, i);
    PartReaches(graph, c, i + 1, |c| - 1);
    ReachTrans(graph, v, c[0], u);
  }

  lemma PartReaches(graph: set<(string, string)>, c: seq<string>, i: nat, j: nat)
    requires IsWalk(graph, c) && i <= j < |c|
    ensures Reach(graph, c[i], c[j])
  {
    WalkPart(graph, c, i, j + 1);
    assert WalkFromTo(graph, c[i..j + 1], c[i], c[j]);
  }

  /**
   Whatever the order of the edges and names: a ring is reported when every ring it
   shares an edge with is itself.
   */
  lemma LoneRingReported(edges: seq<Edge>, includeTypes: bool, c: seq<string>)
    requires ValidNames(edges) && ClosedRing(Binding(edges, includeTypes), c)
    requires forall d :: ClosedRing(Binding(edges, includeTypes), d) && Shares(c, d) ==> IsRotation(Ring(c), Ring(d))
    ensures HasRotation(CyclesOf(edges, includeTypes), c)
  {
    CyclesAre(edges, includeTypes);
    var graph, result := Binding(edges, includeTypes), CyclesOf(edges, includeTypes);
    hide Binding, CyclesOf, IsRotation, Acyclic, ReportedEdges;
    var e := SharedEdge(graph, ReportedEdges(result), c);
    hide ClosedRing;
    var d := WhoReports(result, e);
    assert Shares(c, d);
  }

  ghost predicate Shares(c: seq<string>, d: seq<string>) {
    exists e :: e in RingEdges(Ring(c)) && e in RingEdges(Ring(d))
  }

  /** A ring runs over a removed edge, when removing them leaves no cycle. */
  lemma SharedEdge(graph: set<(string, string)>, removed: set<(string, string)>, c: seq<string>)
    returns (e: (string, string))
    requires ClosedRing(graph, c) && Acyclic(graph - removed)
    ensures e in RingEdges(Ring(c)) && e in removed
  {
    hide Acyclic;
    if RingEdges(Ring(c)) !! removed {
      RingInRest(graph, removed, c);
      ClosedRingIsCycle(graph - removed, c);
      assert false;
    }
    e :| e in RingEdges(Ring(c)) && e in removed;
  }

  lemma RingInRest(graph: set<(string, string)>, removed: set<(string, string)>, c: seq<string>)
    requires ClosedRing(graph, c) && RingEdges(Ring(c)) !! removed
    ensures ClosedRing(graph - removed, c)
  {
    forall i | 0 <= i < |c| - 1
      ensures Follows(graph - removed, c, i)
    {
      assert Follows(graph, c, i);
      assert (Ring(c)[i], Next(Ring(c), i)) == (c[i], c[i + 1]);
      assert (Ring(c)[i], Next(Ring(c), i)) in RingEdges(Ring(c));
    }
  }

  lemma WhoReports(result: seq<seq<string>>, e: (string, string)) returns (d: seq<string>)
    requires forall c :: c in result ==> |c| >= 2
    requires e in ReportedEdges(result)
    ensures d in result && e in RingEdges(Ring(d))
  {
    d :| d in result && e in RingEdges(Ring(d));
  }

  // ----- A ring that is missed -----

  /** a imports b and c, b imports a, c imports b: two rings share the edge from b to a. */
  function SharingEdges(a: string, b: string, c: string): seq<Edge> {
    [Edge(a, b, Runtime, ""), Edge(b, a, Runtime, ""), Edge(a, c, Runtime, ""), Edge(c, b, Runtime, "")]
  }

  function SharingLists(a: string, b: string, c: string): Adjacency {
    map[a := [b, c], b := [a], c := [b]]
  }

  predicate InOrder(a: string, b: string, c: string) {
    Less(a, b) && Less(b, c) && a != b && b != c && a != c
  }

  lemma AdjacencyAppend(edges: seq<Edge>, e: Edge, includeTypes: bool)
    ensures AdjacencyOf(edges + [e], includeTypes) == WithEdge(AdjacencyOf(edges, includeTypes), e, includeTypes)
  {
    assert (edges + [e])[..|edges|] == edges;
  }

  lemma SharingFirstTwo(a: string, b: string)
    requires a != b
    ensures AdjacencyOf([Edge(a, b, Runtime, ""), Edge(b, a, Runtime, "")], false) == (map[a := [b], b := [a]], [a, b])
  {
    var e, f := Edge(a, b, Runtime, ""), Edge(b, a, Runtime, "");
    AdjacencyAppend([], e, false);
    AdjacencyAppend([e], f, false);
    assert AdjacencyOf([], false) == (map[], []);
    assert [] + [e] == [e] && [e] + [f] == [e, f];
    assert [] + [a] == [a] && [] + [b] == [b] && [a] + [b] == [a, b];
    hide AdjacencyOf;
    assert AdjacencyOf([e], false) == (map[a := [b]], [a]);
  }

  lemma SharingAdjacency(a: string, b: string, c: string)
    requires a != b && b != c && a != c
    ensures AdjacencyOf(SharingEdges(a, b, c), false) == (SharingLists(a, b, c), [a, b, c])
  {
    var e := SharingEdges(a, b, c);
    SharingFirstTwo(a, b);
    AdjacencyAppend([e[0], e[1]], e[2], false);
    AdjacencyAppend([e[0], e[1], e[2]], e[3], false);
    assert [e[0], e[1]] + [e[2]] == [e[0], e[1], e[2]] && [e[0], e[1], e[2]] + [e[3]] == e;
    assert [] + [b] == [b] && [b] + [c] == [b, c] && [a, b] + [c] == [a, b, c];
    assert map[a := [b], b := [a]][a := [b, c]] == map[a := [b, c], b := [a]];
    hide AdjacencyOf;
    assert AdjacencyOf([e[0], e[1], e[2]], false) == (map[a := [b, c], b := [a]], [a, b]);
  }

  lemma FollowsOne(adjacency: Adjacency, s: Dfs, x: string)
    requires Consistent(s) && s.stack != [] && x in Nodes(adjacency)
    ensures FollowsOf(adjacency, s, [x]) == FollowOf(adjacency, s, x)
  {
    assert [x][..0] == [];
  }

  lemma FollowsTwo(adjacency: Adjacency, s: Dfs, x: string, y: string)
    requires Consistent(s) && s.stack != [] && x in Nodes(adjacency) && y in Nodes(adjacency)
    ensures FollowsOf(adjacency, s, [x, y]) == FollowOf(adjacency, FollowOf(adjacency, s, x), y)
  {
    FollowsOne(adjacency, s, x);
    assert [x, y][..1] == [x];
  }

  // The states of the search, in turn.
  ghost function InA(a: string): Dfs {
    Dfs({a}, [a], {a}, [], [], [a], {})
  }

  ghost function InB(a: string, b: string): Dfs {
    Dfs({a, b}, [a, b], {a, b}, [], [], [a, b], {(a, b)})
  }

  ghost function LeftB(a: string, b: string): Dfs {
    Dfs({a, b}, [a], {a}, [[a, b, a]], [b], [a, b], {(a, b)})
  }

  ghost function InC(a: string, b: string, c: string): Dfs {
    Dfs({a, b, c}, [a, c], {a, c}, [[a, b, a]], [b], [a, b, c], {(a, b), (a, c)})
  }

  ghost function LeftC(a: string, b: string, c: string): Dfs {
    Dfs({a, b, c}, [a], {a}, [[a, b, a]], [b, c], [a, b, c], {(a, b), (a, c)})
  }

  ghost function LeftA(a: string, b: string, c: string): Dfs {
    Dfs({a, b, c}, [], {}, [[a, b, a]], [b, c, a], [a, b, c], {(a, b), (a, c)})
  }

  lemma SharingVisitB(a: string, b: string, c: string)
    requires a != b && b != c && a != c
    ensures Consistent(InA(a)) && b in Nodes(SharingLists(a, b, c)) && b !in InA(a).visited
    ensures VisitOf(SharingLists(a, b, c), InA(a), b) == LeftB(a, b)
  {
    var l := SharingLists(a, b, c);
    assert Entered(InA(a), b) == InB(a, b);
    assert Targets(l, b) == [a] && a in l;
    FollowsOne(l, InB(a, b), a);
    ReportsB(a, b);
    assert FollowOf(l, InB(a, b), a) == Reported(InB(a, b), a);
    assert Left(Reported(InB(a, b), a)) == LeftB(a, b);
  }

  lemma ReportsB(a: string, b: string)
    requires a != b
    ensures Reported(InB(a, b), a) == InB(a, b).(cycles := [[a, b, a]])
  {
    assert IndexOf([a, b], a) == 0 && [a, b][0..] == [a, b];
    assert [a, b] + [a] == [a, b, a] && [] + [[a, b, a]] == [[a, b, a]];
  }

  lemma SharingVisitC(a: string, b: string, c: string)
    requires a != b && b != c && a != c
    ensures Consistent(LeftB(a, b)) && c in Nodes(SharingLists(a, b, c)) && c !in LeftB(a, b).visited
    ensures VisitOf(SharingLists(a, b, c), LeftB(a, b), c) == LeftC(a, b, c)
  {
    var l := SharingLists(a, b, c);
    assert Entered(LeftB(a, b), c) == InC(a, b, c);
    assert Targets(l, c) == [b] && b in l;
    FollowsOne(l, InC(a, b, c), b);
    assert FollowOf(l, InC(a, b, c), b) == InC(a, b, c);
    assert Left(InC(a, b, c)) == LeftC(a, b, c);
  }

  lemma SharingVisitA(a: string, b: string, c: string)
    requires a != b && b != c && a != c
    ensures Consistent(START) && a in Nodes(SharingLists(a, b, c))
    ensures VisitOf(SharingLists(a, b, c), START, a) == LeftA(a, b, c)
  {
    var l := SharingLists(a, b, c);
    SharingStart(a, b, c);
    SharingFollows(a, b, c);
    hide FollowsOf, FollowOf, Entered, Left, Targets, Nodes, SharingLists, InA, LeftA, LeftC, Consistent;
    FollowsTwo(l, InA(a), b, c);
    VisitIs(l, START, a);
  }

  lemma VisitIs(adjacency: Adjacency, s: Dfs, node: string)
    requires Consistent(s) && node !in s.visited && node in Nodes(adjacency)
    ensures Consistent(Entered(s, node)) && Entered(s, node).stack != []
    ensures forall x :: x in Targets(adjacency, node) ==> x in Nodes(adjacency)
    ensures var inside := FollowsOf(adjacency, Entered(s, node), Targets(adjacency, node));
      inside.stack != [] && VisitOf(adjacency, s, node) == Left(inside)
  {
    EnteredConsistent(s, node);
    TargetsAreNodes(adjacency, node);
    hide FollowsOf, Left, Nodes, Targets;
  }

  lemma SharingStart(a: string, b: string, c: string)
    requires a != b && b != c && a != c
    ensures Consistent(START) && a !in START.visited && a in Nodes(SharingLists(a, b, c))
    ensures Entered(START, a) == InA(a) && InA(a).stack != [] && Targets(SharingLists(a, b, c), a) == [b, c]
    ensures LeftC(a, b, c).stack != [] && Left(LeftC(a, b, c)) == LeftA(a, b, c)
  {
    assert a in SharingLists(a, b, c);
  }

  lemma SharingFollows(a: string, b: string, c: string)
    requires a != b && b != c && a != c
    ensures var l := SharingLists(a, b, c);
      && Consistent(InA(a)) && b in Nodes(l) && c in Nodes(l)
      && FollowOf(l, FollowOf(l, InA(a), b), c) == LeftC(a, b, c)
  {
    var l := SharingLists(a, b, c);
    SharingVisitB(a, b, c);
    SharingVisitC(a, b, c);
    hide VisitOf, Nodes, SharingLists, Reported;
    assert FollowOf(l, InA(a), b) == LeftB(a, b);
    assert FollowOf(l, LeftB(a, b), c) == LeftC(a, b, c);
  }

  lemma SortedAlready(a: string, b: string, c: string)
    requires InOrder(a, b, c)
    ensures Sort([a, b, c]) == [a, b, c]
  {
    assert [a, b, c][1..] == [b, c] && [b, c][1..] == [c] && [c][1..] == [];
    hide Less;
    assert Sort([c]) == [c];
    assert Sort([b, c]) == [b, c];
  }

  lemma SharingEnd(a: string, b: string, c: string)
    requires InOrder(a, b, c)
    ensures Ended(SharingEdges(a, b, c), false) == LeftA(a, b, c)
  {
    SharingAdjacency(a, b, c);
    SortedAlready(a, b, c);
    SharingSearch(a, b, c);
    hide AdjacencyOf, Sort, Search, SharingLists, SharingEdges, InOrder;
  }

  lemma SharingSearch(a: string, b: string, c: string)
    requires a != b && b != c && a != c
    ensures var l := SharingLists(a, b, c);
      a in l && b in l && c in l && Search(l, [a, b, c]) == LeftA(a, b, c)
  {
    var l := SharingLists(a, b, c);
    assert a in l && b in l && c in l;
    SharingVisitA(a, b, c);
    assert [a, b, c][..2] == [a, b] && [a, b][..1] == [a] && [a][..0] == [];
    hide VisitOf, SharingLists;
    assert Search(l, []) == START;
    assert Search(l, [a]) == LeftA(a, b, c);
    assert Search(l, [a, b]) == LeftA(a, b, c);
  }

  lemma SharingGraph(a: string, b: string, c: string)
    requires a != b && b != c && a != c
    ensures Binding(SharingEdges(a, b, c), false) == {(a, b), (b, a), (a, c), (c, b)}
    ensures ClosedRing(Binding(SharingEdges(a, b, c), false), [a, c, b, a])
  {
    var e := SharingEdges(a, b, c);
    assert e[0] in e && e[1] in e && e[2] in e && e[3] in e;
    assert Binding(e, false) == {(a, b), (b, a), (a, c), (c, b)};
    hide Binding;
    assert [a, c, b, a][1..] == [c, b, a];
  }

  /**
   Whatever the three packages are called: the search reports the short ring alone. The
   long one runs over the edge from c to b, which it passed over, b being left by then.
   */
  lemma MissedRing(a: string, b: string, c: string)
    requires InOrder(a, b, c)
    ensures var edges := SharingEdges(a, b, c);
      && CyclesOf(edges, false) == [[a, b, a]]
      && ClosedRing(Binding(edges, false), [a, c, b, a]) && !HasRotation(CyclesOf(edges, false), [a, c, b, a])
      && (c, b) in PassedOver(edges, false)
  {
    SharingEnd(a, b, c);
    SharingGraph(a, b, c);
    SharingUnused(a, b, c);
    ShortIsUnique(a, b, c);
    hide Ended, Binding, ClosedRing, SharingEdges, InOrder, Unused, UniqueOf, HasRotation;
  }

  lemma ShortIsUnique(a: string, b: string, c: string)
    ensures UniqueOf([[a, b, a]]) == [[a, b, a]] && !HasRotation([[a, b, a]], [a, c, b, a])
  {
    assert [[a, b, a]][..0] == [];
    assert Ring([a, c, b, a]) == [a, c, b] && Ring([a, b, a]) == [a, b];
    hide Ring, Rotate, RingKey, IsRotation;
    assert UniqueOf([]) == [];
    RotationLength([a, c, b], [a, b]);
  }

  lemma SharingUnused(a: string, b: string, c: string)
    requires a != b && b != c && a != c
    ensures (c, b) in Unused({(a, b), (b, a), (a, c), (c, b)}, LeftA(a, b, c))
  {
    assert ClosingEdge([a, b, a]) == (b, a);
  }

  /** So the search does not report every distinct cycle of every graph. */
  lemma MissedInput()
    ensures !EveryRingReported(SharingEdges("a", "b", "c"), false)
  {
    assert InOrder("a", "b", "c");
    hide InOrder, Less;
    MissedRing("a", "b", "c");
    hide *;
    NotEveryRing(SharingEdges("a", "b", "c"), ["a", "c", "b", "a"]);
  }

  lemma NotEveryRing(edges: seq<Edge>, c: seq<string>)
    requires ClosedRing(Binding(edges, false), c) && !HasRotation(CyclesOf(edges, false), c)
    ensures !EveryRingReported(edges, false)
  {
    hide Binding, CyclesOf, HasRotation, ClosedRing;
  }

  lemma RotationLength(a: seq<string>, b: seq<string>)
    ensures IsRotation(a, b) ==> |a| == |b|
  {
  }

}
