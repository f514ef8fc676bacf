/**
 The package import graph: comparing the cycles found with the accepted baseline,
 and listing who already imports a package.
 */
module PackageGraph {
  import opened CycleSearch
  import opened Digraph
  import opened RingKeys
  import opened Sequences
  import opened Strings

  datatype KnownCycle = KnownCycle(cycle: seq<string>, issue: nat, why: string)

  /** Some baseline entry spells this cycle, in whatever rotation. */
  ghost predicate Baselined(known: seq<KnownCycle>, cycle: seq<string>) {
    exists k :: k in known && IsRotation(Ring(cycle), k.cycle)
  }

  ghost function Regressions(known: seq<KnownCycle>, cycles: seq<seq<string>>): seq<seq<string>> {
    if cycles == [] then []
    else
      var init := Regressions(known, cycles[..|cycles| - 1]);
      var last := cycles[|cycles| - 1];
      if Baselined(known, last) then init else init + [last]
  }

  ghost function Tolerated(known: seq<KnownCycle>, cycles: seq<seq<string>>): seq<seq<string>> {
    if cycles == [] then []
    else
      var init := Tolerated(known, cycles[..|cycles| - 1]);
      var last := cycles[|cycles| - 1];
      if Baselined(known, last) then init + [last] else init
  }

  ghost predicate ComparableRings(known: seq<KnownCycle>, cycles: seq<seq<string>>) {
    && (forall k :: k in known ==> ValidRing(k.cycle))
    && (forall c :: c in cycles ==> Distinct(Ring(c)) && ValidRing(Ring(c)))
  }

  /**
   `partitionCycles`: in order, the cycles no baseline entry is a rotation of, and
   for every other one an entry that is.
   */
  method PartitionCycles(cycles: seq<seq<string>>, known: seq<KnownCycle>)
    returns (regressed: seq<seq<string>>, accepted: seq<KnownCycle>)
    ensures ComparableRings(known, cycles) ==> regressed == Regressions(known, cycles)
    ensures ComparableRings(known, cycles) ==>
      var tolerated := Tolerated(known, cycles);
      && |accepted| == |tolerated|
      && forall i :: 0 <= i < |accepted| ==>
           accepted[i] in known && IsRotation(Ring(tolerated[i]), accepted[i].cycle)
  {
    hide RingKey, IsRotation;
    var baseline: map<string, KnownCycle> := map[];
    for n := 0 to |known|
      invariant forall key :: key in baseline ==> baseline[key] in known && RingKey(baseline[key].cycle) == key
      invariant forall i :: 0 <= i < n ==> RingKey(known[i].cycle) in baseline
    {
      baseline := baseline[RingKey(known[n].cycle) := known[n]];
    }
    regressed, accepted := [], [];
    ghost var comparable := ComparableRings(known, cycles);
    for n := 0 to |cycles|
      invariant comparable ==> regressed == Regressions(known, cycles[..n])
      invariant comparable ==> |accepted| == |Tolerated(known, cycles[..n])|
      invariant comparable ==> forall i :: 0 <= i < |accepted| ==>
                  accepted[i] in known && IsRotation(Ring(Tolerated(known, cycles[..n])[i]), accepted[i].cycle)
    {
      var key := RingKey(Ring(cycles[n]));
      assert cycles[..n + 1][..n] == cycles[..n];
      if comparable {
        assert cycles[n] in cycles;
        forall k | k in known
          ensures RingKey(k.cycle) == key <==> IsRotation(Ring(cycles[n]), k.cycle)
        {
          RingKeyIffRotation(Ring(cycles[n]), k.cycle);
        }
      }
      if key in baseline {
        accepted := accepted + [baseline[key]];
      } else {
        regressed := regressed + [cycles[n]];
      }
    }
    assert cycles[..|cycles|] == cycles;
  }

  lemma {:induction false} NoRegressionsIff(known: seq<KnownCycle>, cycles: seq<seq<string>>)
    ensures Regressions(known, cycles) == [] <==> forall c :: c in cycles ==> Baselined(known, c)
    ensures |Regressions(known, cycles)| + |Tolerated(known, cycles)| == |cycles|
  {
    if cycles != [] {
      var init, last := cycles[..|cycles| - 1], cycles[|cycles| - 1];
      NoRegressionsIff(known, init);
      assert cycles == init + [last];
    }
  }

  ghost predicate Passes(edges: seq<Edge>, known: seq<KnownCycle>) {
    forall c :: c in CyclesOf(edges, false) ==> Baselined(known, c)
  }

  ghost function BaselineEdges(known: seq<KnownCycle>): set<(string, string)> {
    set k, e | k in known && e in RingEdges(k.cycle) :: e
  }

  /**
   Check A as a whole: it passes exactly when every reported ring is a rotation of a
   baseline entry. Then every cycle runs over an edge of the baseline, so with an empty
   baseline the graph is acyclic.
   */
  method CheckCycles(edges: seq<Edge>, known: seq<KnownCycle>) returns (pass: bool)
    requires ValidNames(edges) && forall k :: k in known ==> ValidRing(k.cycle)
    ensures pass <==> Passes(edges, known)
    ensures pass ==> Acyclic(Binding(edges, false) - BaselineEdges(known))
    ensures !pass ==> !Acyclic(Binding(edges, false))
    ensures known == [] ==> (pass <==> Acyclic(Binding(edges, false)))
  {
    hide CyclesOf, Acyclic, Baselined;
    var cycles := FindCycles(edges, false);
    var regressed, accepted := PartitionCycles(cycles, known);
    pass := regressed == [];
    ghost var graph := Binding(edges, false);
    forall c | c in cycles
      ensures Distinct(Ring(c)) && ValidRing(Ring(c)) && !Acyclic(graph)
    {
      ClosedRingIsCycle(graph, c);
      RingNames(edges, false, c);
    }
    NoRegressionsIff(known, cycles);
    if cycles != [] {
      assert cycles[0] in cycles;
    }
    if pass {
      PassBreaksAll(edges, known);
    }
    if known == [] {
      assert graph - BaselineEdges(known) == graph;
    }
  }

  /** Removing the edges of a baseline that lets a graph pass leaves no cycle. */
  lemma PassBreaksAll(edges: seq<Edge>, known: seq<KnownCycle>)
    requires ValidNames(edges) && Passes(edges, known)
    ensures Acyclic(Binding(edges, false) - BaselineEdges(known))
  {
    CyclesAre(edges, false);
    var graph, cycles := Binding(edges, false), CyclesOf(edges, false);
    hide CyclesOf, Binding, Acyclic, Baselined, ValidNames;
    BaselineCovers(known, cycles);
    AcyclicFewer(graph - BaselineEdges(known), graph - ReportedEdges(cycles));
  }

  lemma BaselineCovers(known: seq<KnownCycle>, cycles: seq<seq<string>>)
    requires forall c :: c in cycles ==> |c| >= 2 && Baselined(known, c)
    ensures ReportedEdges(cycles) <= BaselineEdges(known)
  {
    forall c, e | c in cycles && e in RingEdges(Ring(c))
      ensures exists k :: k in known && e in RingEdges(k.cycle)
    {
      var k :| k in known && IsRotation(Ring(c), k.cycle);
      var j: nat :| j <= |Ring(c)| && k.cycle == Rotate(Ring(c), j);
      RotationEdges(Ring(c), j);
    }
  }

  // ----- What a pass refuses -----

  /** No cycle of the graph is new. */
  ghost predicate NoNewCycle(graph: set<(string, string)>, known: seq<KnownCycle>) {
    forall c :: ClosedRing(graph, c) ==> Baselined(known, c)
  }

  ghost predicate Touches(known: seq<KnownCycle>, c: seq<string>) {
    exists e :: e in RingEdges(Ring(c)) && e in BaselineEdges(known)
  }

  /** No new cycle runs over an edge of a baselined one. */
  ghost predicate NoneThroughBaseline(graph: set<(string, string)>, known: seq<KnownCycle>) {
    forall c :: ClosedRing(graph, c) && Touches(known, c) ==> Baselined(known, c)
  }

  /**
   What check A is for, exactly: the graph has no new cycle if and only if the check
   passes and no new cycle runs over an edge of a baselined ring. Only there can one hide.
   */
  lemma NoNewCycleIff(edges: seq<Edge>, known: seq<KnownCycle>)
    requires ValidNames(edges)
    ensures NoNewCycle(Binding(edges, false), known) <==>
              Passes(edges, known) && NoneThroughBaseline(Binding(edges, false), known)
  {
    CyclesAre(edges, false);
    var graph := Binding(edges, false);
    hide CyclesOf, Binding, Baselined, ValidNames, ClosedRing, Acyclic, BaselineEdges;
    if Passes(edges, known) && NoneThroughBaseline(graph, known) {
      PassBreaksAll(edges, known);
      forall c | ClosedRing(graph, c)
        ensures Baselined(known, c)
      {
        var e := SharedEdge(graph, BaselineEdges(known), c);
        assert Touches(known, c);
      }
    }
  }

  /** A pass is the whole truth when every ring that shares an edge with a baselined ring is a rotation of it. */
  lemma LoneBaseline(edges: seq<Edge>, known: seq<KnownCycle>)
    requires ValidNames(edges)
    requires forall c, k :: ClosedRing(Binding(edges, false), c) && k in known && Meets(c, k) ==>
             IsRotation(Ring(c), k.cycle)
    ensures Passes(edges, known) <==> NoNewCycle(Binding(edges, false), known)
  {
    var graph := Binding(edges, false);
    hide Binding, Passes, ValidNames, ClosedRing, IsRotation;
    forall c | ClosedRing(graph, c) && Touches(known, c)
      ensures Baselined(known, c)
    {
      var e :| e in RingEdges(Ring(c)) && e in BaselineEdges(known);
      var k :| k in known && e in RingEdges(k.cycle);
      assert Meets(c, k);
    }
    NoNewCycleIff(edges, known);
  }

  ghost predicate Meets(c: seq<string>, k: KnownCycle) {
    exists e :: e in RingEdges(Ring(c)) && e in RingEdges(k.cycle)
  }

  /** Otherwise a new cycle can hide: with the short ring baselined, the long one that shares its edge passes. */
  lemma HiddenCycle(a: string, b: string, c: string, issue: nat, why: string)
    requires InOrder(a, b, c)
    ensures var known := [KnownCycle([a, b], issue, why)];
      Passes(SharingEdges(a, b, c), known) && !NoNewCycle(Binding(SharingEdges(a, b, c), false), known)
  {
    var known := [KnownCycle([a, b], issue, why)];
    MissedRing(a, b, c);
    ShortRotates(a, b, c);
    hide CyclesOf, Binding, ClosedRing, SharingEdges, InOrder, Rotate, HasRotation, PassedOver, IsRotation, Ring;
    assert known[0] in known;
    assert Baselined(known, [a, b, a]);
    assert !Baselined(known, [a, c, b, a]);
  }

  lemma ShortRotates(a: string, b: string, c: string)
    ensures IsRotation(Ring([a, b, a]), [a, b]) && !IsRotation(Ring([a, c, b, a]), [a, b])
  {
    assert Ring([a, c, b, a]) == [a, c, b] && Ring([a, b, a]) == [a, b];
    assert Rotate([a, b], 0) == [a, b];
    hide Rotate, Ring;
    RotationLength([a, c, b], [a, b]);
  }

  /** target -> everyone with an edge to it */
  method BuildReverse(edges: seq<Edge>) returns (reverse: Adjacency)
    ensures forall u, v :: (u, v) in Arcs(reverse) <==> (v, u) in Binding(edges, true)
  {
    reverse := map[];
    for i := 0 to |edges|
      invariant forall u, v :: (u, v) in Arcs(reverse) <==> (v, u) in Binding(edges[..i], true)
    {
      var edge := edges[i];
      assert edges[..i + 1] == edges[..i] + [edge];
      var importers := Targets(reverse, edge.to);
      var more := if edge.from in importers then importers else importers + [edge.from];
      ghost var was := reverse;
      reverse := reverse[edge.to := more];
      assert Arcs(reverse) == Arcs(was) + {(edge.to, edge.from)};
      assert Binding(edges[..i + 1], true) == Binding(edges[..i], true) + {(edge.from, edge.to)};
    }
    assert edges[..|edges|] == edges;
  }

  ghost function Froms(edges: seq<Edge>): set<string> {
    set e | e in edges :: e.from
  }

  /** The inner loop of `importersOf`: note and enqueue the importers not met before. */
  method AddUnseen(target: string, next: seq<string>, seen0: seq<string>, queue0: seq<string>)
    returns (seen: seq<string>, queue: seq<string>, ghost added: seq<string>)
    requires Distinct(seen0) && target !in seen0
    ensures seen == seen0 + added && queue == queue0 + added
    ensures Distinct(seen) && target !in seen
    ensures forall x :: x in added ==> x in next && x !in seen0
    ensures forall x :: x in next ==> x == target || x in seen
  {
    seen, queue, added := seen0, queue0, [];
    for k := 0 to |next|
      invariant seen == seen0 + added && queue == queue0 + added
      invariant Distinct(seen) && target !in seen
      invariant forall x :: x in added ==> x in next && x !in seen0
      invariant forall j :: 0 <= j < k ==> next[j] == target || next[j] in seen
    {
      var importer := next[k];
      if importer !in seen && importer != target {
        seen := seen + [importer];
        queue := queue + [importer];
        added := added + [importer];
      }
    }
  }

  /**
   `importersOf`: the sorted list, without repetition, of exactly the other packages
   with an import path to the target.
   */
  method ImportersOf(target: string, edges: seq<Edge>) returns (importers: seq<string>)
    ensures IsSorted(importers) && Distinct(importers)
    ensures forall x :: x in importers <==> x != target && Reach(Binding(edges, true), x, target)
  {
    hide Reach;
    var reverse := BuildReverse(edges);
    ghost var graph := Binding(edges, true);
    var seen: seq<string> := [];
    var queue := [target];
    ReachRefl(graph, target);
    while |queue| > 0
      invariant Distinct(seen) && Elems(seen) <= Froms(edges) && target !in seen
      invariant forall x :: x in queue ==> x == target || x in seen
      invariant forall x :: x == target || x in seen ==> Reach(graph, x, target)
      invariant forall m, x :: (m, x) in graph && (x == target || x in seen) && x !in queue ==> m == target || m in seen
      decreases Froms(edges) - Elems(seen), |queue|
    {
      var node := queue[|queue| - 1];
      ghost var queue0, seen0 := queue, seen;
      queue := queue[..|queue| - 1];
      assert queue0 == queue + [node];
      var next := Targets(reverse, node);
      assert forall m :: m in next <==> (m, node) in graph by {
        assert forall m :: m in next <==> (node, m) in Arcs(reverse);
      }
      ghost var added;
      seen, queue, added := AddUnseen(target, next, seen, queue);
      forall m | m in added
        ensures Reach(graph, m, target) && m in Froms(edges)
      {
        ReachEdge(graph, m, node);
        ReachTrans(graph, m, node, target);
      }
      if added != [] {
        assert added[0] in Elems(seen) && added[0] !in Elems(seen0);
      }
    }
    forall x | x != target && Reach(graph, x, target)
      ensures x in seen
    {
      ReachIntoClosed(graph, Elems(seen) + {target}, x, target);
    }
    importers := Sort(seen);
    SortSorts(seen);
    SortMembers(seen);
    SortDistinct(seen);
  }

  lemma SortDistinct(s: seq<string>)
    requires Distinct(s)
    ensures Distinct(Sort(s))
  {
    SortSorts(s);
    forall i, j | 0 <= i < j < |Sort(s)|
      ensures Sort(s)[i] != Sort(s)[j]
    {
      if Sort(s)[i] == Sort(s)[j] {
        TwiceInMultiset(Sort(s), i, j);
        OnceInMultiset(s, Sort(s)[i]);
      }
    }
  }

  lemma TwiceInMultiset(s: seq<string>, i: nat, j: nat)
    requires i < j < |s| && s[i] == s[j]
    ensures multiset(s)[s[i]] >= 2
  {
    assert s == s[..i] + [s[i]] + s[i + 1..j] + [s[j]] + s[j + 1..];
  }

  lemma {:induction false} OnceInMultiset(s: seq<string>, x: string)
    requires Distinct(s)
    ensures multiset(s)[x] <= 1
  {
    if s != [] {
      assert s == [s[0]] + s[1..];
      OnceInMultiset(s[1..], x);
      assert x in multiset(s[1..]) <==> x in s[1..];
    }
  }

  /**
   "What must this package never import": in an acyclic graph, a new import from
   `target` makes the cycle search report something exactly when the imported
   package is listed by `importersOf`, or is `target` itself.
   */
  method ForbiddenImport(edges: seq<Edge>, target: string, imported: string, kind: EdgeKind, at: string)
    returns (listed: bool, reported: bool)
    requires Acyclic(Binding(edges, true))
    ensures reported <==> listed || imported == target
  {
    var importers := ImportersOf(target, edges);
    listed := imported in importers;
    var extended := edges + [Edge(target, imported, kind, at)];
    var cycles := FindCycles(extended, true);
    reported := cycles != [];
    assert Binding(extended, true) == Binding(edges, true) + {(target, imported)};
    AddEdgeCycle(Binding(edges, true), target, imported);
    ReachRefl(Binding(edges, true), target);
  }
}
