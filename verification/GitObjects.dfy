/**
 Git as a finite graph of commits, trees, blobs and annotated tags. Ids are
 derived from content, so one table of objects serves every clone; a clone is the
 set of ids it holds. `rev-list` is the reachability it computes.
 */
module GitObjects {
  import opened Digraph
  import opened Options

  type Id = string

  datatype Object =
    | Commit(tree: Id, parents: seq<Id>)
    | Tree(entries: set<Id>)
    | Blob
    | Tag(target: Id)

  type Objects = map<Id, Object>

  function Targets(o: Object): set<Id> {
    match o
    case Commit(tree, parents) => {tree} + set p | p in parents
    case Tree(entries) => entries
    case Blob => {}
    case Tag(target) => {target}
  }

  ghost function Links(objs: Objects): set<(Id, Id)> {
    set a, b | a in objs && b in Targets(objs[a]) :: (a, b)
  }

  /** The links `rev-list` follows for commits alone: to parents, and from a tag to what it names. */
  ghost function HistoryLinks(objs: Objects): set<(Id, Id)> {
    set a, b | a in objs && b in Targets(objs[a])
            && (objs[a].Tag? || (objs[a].Commit? && b in objs[a].parents)) :: (a, b)
  }

  ghost function TagLinks(objs: Objects): set<(Id, Id)> {
    set a, b | a in objs && objs[a].Tag? && b == objs[a].target :: (a, b)
  }

  /** Commits have a tree and commits for parents, trees hold trees and blobs, and nothing dangles. */
  ghost predicate WellFormed(objs: Objects) {
    forall a :: a in objs ==>
      match objs[a]
      case Commit(tree, parents) =>
        && tree in objs && objs[tree].Tree?
        && forall p :: p in parents ==> p in objs && objs[p].Commit?
      case Tree(entries) =>
        forall e :: e in entries ==> e in objs && (objs[e].Tree? || objs[e].Blob?)
      case Blob => true
      case Tag(target) => target in objs
  }

  predicate IsContent(objs: Objects, x: Id) {
    x in objs && (objs[x].Tree? || objs[x].Blob?)
  }

  ghost predicate Reaches(objs: Objects, a: Id, x: Id) {
    x in objs && Reach(Links(objs), a, x)
  }

  ghost function ReachedFrom(objs: Objects, a: Id): set<Id> {
    set x | x in objs && Reaches(objs, a, x)
  }

  /** Every commit of the history of a: what `rev-list a` prints. */
  ghost function History(objs: Objects, a: Id): set<Id> {
    set c | c in objs && objs[c].Commit? && Reach(HistoryLinks(objs), a, c)
  }

  /** a is a commit, or an annotated tag that leads to one. */
  ghost predicate Commitish(objs: Objects, a: Id) {
    exists c :: c in objs && objs[c].Commit? && Reach(TagLinks(objs), a, c)
  }

  lemma HistoryReaches(objs: Objects, a: Id, c: Id)
    requires c in History(objs, a)
    ensures Reaches(objs, a, c)
  {
    ReachMono(HistoryLinks(objs), Links(objs), a, c);
  }

  lemma ReachesTrans(objs: Objects, a: Id, b: Id, c: Id)
    requires Reach(Links(objs), a, b) && Reaches(objs, b, c)
    ensures Reaches(objs, a, c)
  {
    ReachTrans(Links(objs), a, b, c);
  }

  lemma HistoryOfHistory(objs: Objects, a: Id, c: Id)
    requires c in History(objs, a)
    ensures History(objs, c) <= History(objs, a)
  {
    forall d | d in History(objs, c)
      ensures d in History(objs, a)
    {
      ReachTrans(HistoryLinks(objs), a, c, d);
    }
  }

  /**
   Whatever content a commit or commit tag reaches belongs to a commit of its
   history: this is what makes scanning commits cover trees and blobs.
   */
  lemma ContentHasCommit(objs: Objects, a: Id, x: Id) returns (c: Id)
    requires WellFormed(objs) && Commitish(objs, a)
    requires IsContent(objs, x) && Reaches(objs, a, x)
    ensures c in History(objs, a) && Reaches(objs, c, x)
  {
    var peeled: Id :| peeled in objs && objs[peeled].Commit? && Reach(TagLinks(objs), a, peeled);
    ReachMono(TagLinks(objs), HistoryLinks(objs), a, peeled);
    var chain: seq<Id> :| WalkFromTo(TagLinks(objs), chain, a, peeled);
    var p: seq<Id> :| WalkFromTo(Links(objs), p, a, x);
    AlongTags(objs, chain, p);
    var q: seq<Id> :| WalkFromTo(Links(objs), q, peeled, x);
    c := LastCommit(objs, q);
    ReachTrans(HistoryLinks(objs), a, peeled, c);
  }

  /** A tag has one way out, so every walk from it to content passes what it peels to. */
  lemma {:induction false} AlongTags(objs: Objects, chain: seq<Id>, p: seq<Id>)
    requires WellFormed(objs)
    requires IsWalk(TagLinks(objs), chain) && IsWalk(Links(objs), p) && chain[0] == p[0]
    requires IsContent(objs, p[|p| - 1])
    ensures Reach(Links(objs), chain[|chain| - 1], p[|p| - 1])
    decreases |chain|
  {
    if |chain| == 1 {
      assert WalkFromTo(Links(objs), p, p[0], p[|p| - 1]);
    } else {
      assert Follows(TagLinks(objs), chain, 0);
      assert |p| > 1;
      assert Follows(Links(objs), p, 0);
      assert chain[1] == p[1];
      WalkTail(TagLinks(objs), chain);
      WalkTail(Links(objs), p);
      AlongTags(objs, chain[1..], p[1..]);
    }
  }

  lemma WalkTail<T>(edges: set<(T, T)>, p: seq<T>)
    requires IsWalk(edges, p) && |p| > 1
    ensures IsWalk(edges, p[1..])
  {
    forall i | 0 <= i < |p| - 2
      ensures Follows(edges, p[1..], i)
    {
      assert Follows(edges, p, i + 1);
    }
  }

  /** From a commit to content: the walk leaves the history at one of its commits. */
  lemma {:induction false} LastCommit(objs: Objects, p: seq<Id>) returns (c: Id)
    requires WellFormed(objs)
    requires IsWalk(Links(objs), p) && p[0] in objs && objs[p[0]].Commit?
    requires IsContent(objs, p[|p| - 1])
    ensures c in History(objs, p[0]) && Reaches(objs, c, p[|p| - 1])
    decreases |p|
  {
    assert |p| > 1;
    assert Follows(Links(objs), p, 0);
    if p[1] in objs[p[0]].parents {
      WalkTail(Links(objs), p);
      c := LastCommit(objs, p[1..]);
      ReachEdge(HistoryLinks(objs), p[0], p[1]);
      ReachTrans(HistoryLinks(objs), p[0], p[1], c);
    } else {
      c := p[0];
      ReachRefl(HistoryLinks(objs), c);
      assert WalkFromTo(Links(objs), p, c, p[|p| - 1]);
    }
  }

  /** A clone holds an object together with everything it links to. */
  ghost predicate ClosedUnder(objs: Objects, held: set<Id>) {
    && held <= objs.Keys
    && forall a, b :: a in held && b in Targets(objs[a]) ==> b in held
  }
}
