/**
 Import rings and their canonical keys: a ring is written from any of its
 members, and `ringKey` spells it from the smallest one.
 */
module RingKeys {
  import opened Sequences
  import opened Strings

  function Rotate(ring: seq<string>, k: nat): seq<string>
    requires k <= |ring|
  {
    ring[k..] + ring[..k]
  }

  /** b spells the ring a from another starting point. */
  ghost predicate IsRotation(a: seq<string>, b: seq<string>) {
    exists k: nat :: k <= |a| && b == Rotate(a, k)
  }

  /** The ring spelled from its smallest member; the empty ring is its own spelling. */
  function Canonical(ring: seq<string>): seq<string> {
    if ring == [] then []
    else
      SortMembers(ring);
      Rotate(ring, IndexOf(ring, Sort(ring)[0]))
  }

  function RingKey(ring: seq<string>): string {
    Join(Canonical(ring), '>')
  }

  /** What a package name is: not empty, and without the separator of ring keys. */
  predicate ValidName(name: string) {
    name != "" && '>' !in name
  }

  predicate ValidRing(ring: seq<string>) {
    forall name :: name in ring ==> ValidName(name)
  }

  /** Where a rotated ring holds what. */
  lemma RotateAt(a: seq<string>, k: nat, i: nat)
    requires k <= |a| && i < |a|
    ensures |Rotate(a, k)| == |a|
    ensures Rotate(a, k)[i] == if i + k < |a| then a[i + k] else a[i + k - |a|]
  {
  }

  lemma RotateLength(a: seq<string>, k: nat)
    requires k <= |a|
    ensures |Rotate(a, k)| == |a|
  {
  }

  lemma RotateTwice(a: seq<string>, j: nat, k: nat)
    requires j <= |a| && k <= |a|
    ensures |Rotate(a, j)| == |a|
    ensures Rotate(Rotate(a, j), k) == Rotate(a, if j + k < |a| then j + k else j + k - |a|)
    ensures IsRotation(a, Rotate(Rotate(a, j), k))
  {
    hide Rotate;
    var m := if j + k < |a| then j + k else j + k - |a|;
    RotateLength(a, j);
    var b := Rotate(a, j);
    RotateLength(b, k);
    RotateLength(a, m);
    forall i | 0 <= i < |a|
      ensures Rotate(b, k)[i] == Rotate(a, m)[i]
    {
      RotateAt(b, k, i);
      RotateAt(a, j, if i + k < |a| then i + k else i + k - |a|);
      RotateAt(a, m, i);
    }
  }

  lemma RotateBack(a: seq<string>, k: nat)
    requires k <= |a|
    ensures Rotate(Rotate(a, k), |a| - k) == a
    ensures IsRotation(Rotate(a, k), a)
  {
    assert Rotate(Rotate(a, k), |a| - k) == a;
  }

  lemma RotationMembers(a: seq<string>, k: nat)
    requires k <= |a|
    ensures forall x :: x in a <==> x in Rotate(a, k)
  {
    assert a == a[..k] + a[k..];
  }

  lemma SamePlace(a: seq<string>, i: nat, j: nat)
    requires Distinct(a) && i < |a| && j < |a| && a[i] == a[j]
    ensures i == j
  {
  }

  /** Every rotation of a ring of distinct names has the same canonical spelling. */
  lemma RotationCanonical(a: seq<string>, k: nat)
    requires Distinct(a) && k <= |a|
    ensures Canonical(Rotate(a, k)) == Canonical(a)
  {
    if a != [] {
      var b := Rotate(a, k);
      RotationMembers(a, k);
      SortMembers(a);
      SortMembers(b);
      var m := Sort(a)[0];
      LessTotal(m, Sort(b)[0]);
      var p, q := IndexOf(a, m), IndexOf(b, m);
      RotateAt(a, k, q);
      SamePlace(a, p, if q + k < |a| then q + k else q + k - |a|);
      RotateTwice(a, k, q);
    }
  }

  /**
   `ringKey` agrees exactly on rotations of one another, one of the two rings being
   of distinct names; the other may be any list a policy spells.
   */
  lemma RingKeyIffRotation(a: seq<string>, b: seq<string>)
    requires Distinct(a) && ValidRing(a) && ValidRing(b)
    ensures RingKey(a) == RingKey(b) <==> IsRotation(a, b)
  {
    if IsRotation(a, b) {
      RotationSharesKey(a, b);
    }
    if RingKey(a) == RingKey(b) {
      SharedKeyIsRotation(a, b);
    }
  }

  lemma RotationSharesKey(a: seq<string>, b: seq<string>)
    requires Distinct(a) && IsRotation(a, b)
    ensures RingKey(a) == RingKey(b)
  {
    hide Rotate, Canonical, Join, Distinct;
    var k: nat :| k <= |a| && b == Rotate(a, k);
    RotationCanonical(a, k);
  }

  lemma SharedKeyIsRotation(a: seq<string>, b: seq<string>)
    requires ValidRing(a) && ValidRing(b) && RingKey(a) == RingKey(b)
    ensures IsRotation(a, b)
  {
    hide Rotate, Canonical, ValidRing, RingKey;
    CanonicalIsRotation(a);
    CanonicalIsRotation(b);
    KeyIsCanonical(a, b);
    var j: nat :| j <= |a| && Canonical(a) == Rotate(a, j);
    var k: nat :| k <= |b| && Canonical(b) == Rotate(b, k);
    RotateBack(b, k);
    RotateTwice(a, j, |b| - k);
  }

  lemma CanonicalIsRotation(a: seq<string>)
    ensures IsRotation(a, Canonical(a))
    ensures |Canonical(a)| == |a| && forall x :: x in Canonical(a) <==> x in a
  {
    SortMembers(a);
    if a == [] {
      assert Canonical(a) == Rotate(a, 0);
    } else {
      var k := IndexOf(a, Sort(a)[0]);
      assert Canonical(a) == Rotate(a, k);
      RotationMembers(a, k);
    }
  }

  lemma KeyIsCanonical(a: seq<string>, b: seq<string>)
    requires ValidRing(a) && ValidRing(b) && RingKey(a) == RingKey(b)
    ensures Canonical(a) == Canonical(b)
  {
    var x, y := Canonical(a), Canonical(b);
    CanonicalIsRotation(a);
    CanonicalIsRotation(b);
    if x == [] || y == [] {
      if x != [] { assert x[0] in a; JoinNonEmpty(x); }
      if y != [] { assert y[0] in b; JoinNonEmpty(y); }
    } else {
      JoinInjective(x, y, '>');
    }
  }

  lemma JoinNonEmpty(x: seq<string>)
    requires x != [] && x[0] != ""
    ensures Join(x, '>') != ""
  {
  }

  /** The edges of a ring: every member to the next one, the last to the first. */
  ghost function RingEdges(ring: seq<string>): set<(string, string)> {
    set i | 0 <= i < |ring| :: (ring[i], Next(ring, i))
  }

  ghost function Next(ring: seq<string>, i: nat): string
    requires i < |ring|
  {
    if i + 1 < |ring| then ring[i + 1] else ring[0]
  }

  /** A rotated ring's edge at i is the ring's edge k places on. */
  lemma NextAt(a: seq<string>, k: nat, i: nat, j: nat)
    requires k <= |a| && i < |a| && j == if i + k < |a| then i + k else i + k - |a|
    ensures |Rotate(a, k)| == |a| && Rotate(a, k)[i] == a[j] && Next(Rotate(a, k), i) == Next(a, j)
  {
    RotateAt(a, k, i);
    RotateAt(a, k, if i + 1 < |a| then i + 1 else 0);
    hide Rotate;
  }

  lemma RotationEdges(a: seq<string>, k: nat)
    requires k <= |a|
    ensures RingEdges(Rotate(a, k)) == RingEdges(a)
  {
    hide Rotate, Next;
    RotateLength(a, k);
    var b := Rotate(a, k);
    forall i | 0 <= i < |b|
      ensures (b[i], Next(b, i)) in RingEdges(a)
    {
      NextAt(a, k, i, if i + k < |a| then i + k else i + k - |a|);
    }
    forall j | 0 <= j < |a|
      ensures (a[j], Next(a, j)) in RingEdges(b)
    {
      NextAt(a, k, if j >= k then j - k else j + |a| - k, j);
    }
  }
}
