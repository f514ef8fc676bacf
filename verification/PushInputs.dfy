/**
 Two pushes the hook accepts that leave a remote ref uncovered: a tag that names no
 commit, and a branch behind a local branch that is itself called `origin/main`.
 */
module PushInputs {
  import opened Digraph
  import opened GitObjects
  import opened Options
  import opened PushAdmission
  import opened PushRuns
  import Strings

  function Repeat(c: char, n: nat): string {
    seq(n, _ => c)
  }

  const ZERO_ID := Repeat('0', 40)
  const MAIN_ID := Repeat('a', 40)
  const BLOB_ID := Repeat('b', 40)
  const TREE_ID := Repeat('c', 40)
  const SIDE_ID := Repeat('d', 40)
  const SIDE_TREE_ID := Repeat('e', 40)

  // A new tag that names a blob outside origin/main.
  const LOOSE_OBJECTS: Objects := map[MAIN_ID := Commit(TREE_ID, []), TREE_ID := Tree({}), BLOB_ID := Blob]
  const LOOSE_WORLD := World(Clone(LOOSE_OBJECTS, {MAIN_ID, TREE_ID, BLOB_ID}, Some(MAIN_ID), None), map[], {})
  const LOOSE_UPDATE := RefUpdate("refs/tags/x", BLOB_ID, "refs/tags/x", ZERO_ID)
  const LOOSE_ANSWERS := Answers(Some({BLOB_ID}), Some({}), None, Some(0), NoWorktree)

  ghost function LoosePush(): Step {
    Push("origin", RenderStdin([LOOSE_UPDATE]), Published(LOOSE_WORLD.clone), [LOOSE_ANSWERS], {0})
  }

  /** Forty times one hexadecimal digit is an object id, and the zero id only for the zero. */
  lemma RepeatedDigit(c: char)
    requires IsHexDigit(c)
    ensures var id := Repeat(c, 40);
      IsObjectId(id) && IsWord(id) && (IsZeroSha(id) <==> c == '0') && id[0] == c
  {
    var id := Repeat(c, 40);
    assert id[0] == c && id[0] in id;
    assert forall x :: x in id ==> x == c;
    assert !Strings.IsSpace(c);
  }

  lemma LooseIds()
    ensures MAIN_ID != BLOB_ID && MAIN_ID != TREE_ID && BLOB_ID != TREE_ID
    ensures IsZeroSha(ZERO_ID) && !IsZeroSha(BLOB_ID) && IsObjectId(ZERO_ID) && IsObjectId(BLOB_ID)
    ensures Printable(LOOSE_UPDATE)
  {
    RefIsWord();
    hide IsObjectId, IsZeroSha, IsWord, Repeat;
    RepeatedDigit('0');
    RepeatedDigit('a');
    RepeatedDigit('b');
    RepeatedDigit('c');
  }

  lemma RefIsWord()
    ensures IsWord("refs/tags/x")
  {
    LettersAreWords("refs/tags/x");
  }

  lemma LettersAreWords(w: string)
    requires w != "" && forall i :: 0 <= i < |w| ==> '/' <= w[i] <= 'z'
    ensures IsWord(w)
  {
    forall c | c in w
      ensures !Strings.IsSpace(c)
    {
      assert '/' <= c <= 'z';
    }
  }

  lemma LooseReach()
    ensures SaneWorld(LOOSE_WORLD)
    ensures ReachedFrom(LOOSE_OBJECTS, BLOB_ID) == {BLOB_ID}
    ensures MAIN_ID in ReachedFrom(LOOSE_OBJECTS, MAIN_ID) && BLOB_ID !in ReachedFrom(LOOSE_OBJECTS, MAIN_ID)
    ensures History(LOOSE_OBJECTS, BLOB_ID) == {}
  {
    LooseIds();
    BlobHasNoCommit(LOOSE_OBJECTS, BLOB_ID);
    HistoryNeedsCommit(LOOSE_OBJECTS, BLOB_ID);
    ReachRefl(Links(LOOSE_OBJECTS), BLOB_ID);
    ReachRefl(Links(LOOSE_OBJECTS), MAIN_ID);
    forall x | x in ReachedFrom(LOOSE_OBJECTS, BLOB_ID)
      ensures x == BLOB_ID
    {
      ReachOutOfClosed(Links(LOOSE_OBJECTS), {BLOB_ID}, BLOB_ID, x);
    }
    if BLOB_ID in ReachedFrom(LOOSE_OBJECTS, MAIN_ID) {
      ReachOutOfClosed(Links(LOOSE_OBJECTS), {MAIN_ID, TREE_ID}, MAIN_ID, BLOB_ID);
    }
  }

  lemma LooseFaithful()
    ensures Faithful(LOOSE_WORLD.clone, LOOSE_UPDATE, LOOSE_ANSWERS)
    ensures Judge(LOOSE_UPDATE, Published(LOOSE_WORLD.clone), LOOSE_ANSWERS) == EmptyRange
  {
    LooseIds();
    LooseReach();
  }

  /** The hook accepts that push, and it leaves a remote ref uncovered. */
  lemma BlobTagUncovered()
    ensures var step := LoosePush();
      SaneWorld(LOOSE_WORLD) && AllCovered(LOOSE_WORLD)
      && Allowed(LOOSE_WORLD, step) && !AllCovered(After(LOOSE_WORLD, step))
  {
    hide Faithful, Judge, IsZeroSha, IsObjectId, ReachedFrom, History, Reaches, WellFormed;
    LooseIds();
    LooseReach();
    LooseFaithful();
    ParseUndoesRender([LOOSE_UPDATE]);
    var step := LoosePush();
    assert Allowed(LOOSE_WORLD, step);
    LooseUncovered(After(LOOSE_WORLD, step));
  }

  lemma LooseUncovered(w: World)
    requires w.clone == LOOSE_WORLD.clone
    requires w.remotes == ApplyUpdates(map[], "origin", [LOOSE_UPDATE], {0})
    requires var listed := Published(LOOSE_WORLD.clone);
      w.cleared == LOOSE_WORLD.cleared + ClearedBy(LOOSE_WORLD, listed, [LOOSE_UPDATE], [LOOSE_ANSWERS])
    ensures !AllCovered(w)
  {
    LooseIds();
    LooseReach();
    LooseFaithful();
    assert [LOOSE_UPDATE][..0] == [];
    assert w.remotes[("origin", "refs/tags/x")] == BLOB_ID;
    assert w.cleared == {};
    assert !Covered(w, BLOB_ID);
    assert BLOB_ID in ReachedFrom(LOOSE_OBJECTS, BLOB_ID);
  }

  lemma BlobHasNoCommit(objs: Objects, b: Id)
    requires b in objs && objs[b].Blob?
    ensures !Commitish(objs, b)
  {
    if Commitish(objs, b) {
      var c :| c in objs && objs[c].Commit? && Reach(TagLinks(objs), b, c);
      var _ := ReachFirst(TagLinks(objs), b, c);
      assert false;
    }
  }

  // ----- A branch called origin/main -----

  // A branch with one unpublished commit, pushed while a local branch `origin/main` names that commit.
  const SIDE_OBJECTS: Objects :=
    map[MAIN_ID := Commit(TREE_ID, []), TREE_ID := Tree({}), SIDE_ID := Commit(SIDE_TREE_ID, []),
        SIDE_TREE_ID := Tree({})]
  const SIDE_WORLD :=
    World(Clone(SIDE_OBJECTS, {MAIN_ID, TREE_ID, SIDE_ID, SIDE_TREE_ID}, Some(MAIN_ID), Some(SIDE_ID)), map[], {})
  const SIDE_UPDATE := RefUpdate("refs/heads/x", SIDE_ID, "refs/heads/x", ZERO_ID)
  const SIDE_ANSWERS := Answers(Some({SIDE_ID, SIDE_TREE_ID}), Some({SIDE_ID}), Some(SIDE_ID), Some(0), NoWorktree)

  ghost function SidePush(): Step {
    Push("origin", RenderStdin([SIDE_UPDATE]), Published(SIDE_WORLD.clone), [SIDE_ANSWERS], {0})
  }

  lemma SideIds()
    ensures MAIN_ID != TREE_ID && SIDE_ID != MAIN_ID && SIDE_ID != TREE_ID
    ensures SIDE_TREE_ID != MAIN_ID && SIDE_TREE_ID != TREE_ID && SIDE_TREE_ID != SIDE_ID
    ensures IsZeroSha(ZERO_ID) && !IsZeroSha(SIDE_ID) && IsObjectId(ZERO_ID) && IsObjectId(SIDE_ID)
    ensures Printable(SIDE_UPDATE)
  {
    LettersAreWords("refs/heads/x");
    hide IsObjectId, IsZeroSha, IsWord, Repeat;
    RepeatedDigit('0');
    RepeatedDigit('a');
    RepeatedDigit('c');
    RepeatedDigit('d');
    RepeatedDigit('e');
  }

  lemma SideReach()
    ensures SaneWorld(SIDE_WORLD)
    ensures ReachedFrom(SIDE_OBJECTS, SIDE_ID) == {SIDE_ID, SIDE_TREE_ID} && History(SIDE_OBJECTS, SIDE_ID) == {SIDE_ID}
    ensures MAIN_ID in ReachedFrom(SIDE_OBJECTS, MAIN_ID) && SIDE_TREE_ID !in ReachedFrom(SIDE_OBJECTS, MAIN_ID)
  {
    SideIds();
    var links := Links(SIDE_OBJECTS);
    ReachRefl(links, SIDE_ID);
    ReachRefl(links, MAIN_ID);
    ReachEdge(links, SIDE_ID, SIDE_TREE_ID);
    ReachRefl(HistoryLinks(SIDE_OBJECTS), SIDE_ID);
    forall x | x in ReachedFrom(SIDE_OBJECTS, SIDE_ID)
      ensures x == SIDE_ID || x == SIDE_TREE_ID
    {
      ReachOutOfClosed(links, {SIDE_ID, SIDE_TREE_ID}, SIDE_ID, x);
    }
    forall c | c in History(SIDE_OBJECTS, SIDE_ID)
      ensures c == SIDE_ID
    {
      ReachOutOfClosed(HistoryLinks(SIDE_OBJECTS), {SIDE_ID}, SIDE_ID, c);
    }
    if SIDE_TREE_ID in ReachedFrom(SIDE_OBJECTS, MAIN_ID) {
      ReachOutOfClosed(links, {MAIN_ID, TREE_ID}, MAIN_ID, SIDE_TREE_ID);
    }
  }

  lemma SideFaithful()
    ensures Faithful(SIDE_WORLD.clone, SIDE_UPDATE, SIDE_ANSWERS)
    ensures Judge(SIDE_UPDATE, Published(SIDE_WORLD.clone), SIDE_ANSWERS) == EmptyRange
  {
    SideIds();
    SideReach();
    hide IsZeroSha, IsObjectId, ReachedFrom, History, Reaches, WellFormed, Repeat, ClosedUnder;
    assert RangeCommits(SIDE_OBJECTS, SIDE_ID, None) == {SIDE_ID};
    assert RangeCommits(SIDE_OBJECTS, SIDE_ID, Some(SIDE_ID)) == {};
  }

  /** The pushed tip is a commit; its content is neither published nor scanned, and its ref is not covered. */
  lemma ShadowedMainUncovered()
    ensures SaneWorld(SIDE_WORLD) && AllCovered(SIDE_WORLD) && Commitish(SIDE_OBJECTS, SIDE_ID)
    ensures Allowed(SIDE_WORLD, SidePush()) && !AllCovered(After(SIDE_WORLD, SidePush()))
  {
    SideCommit();
    hide Faithful, Judge, IsZeroSha, IsObjectId, ReachedFrom, History, Reaches, WellFormed;
    SideIds();
    SideReach();
    SideFaithful();
    ParseUndoesRender([SIDE_UPDATE]);
    TruthPart(SIDE_WORLD.clone, SIDE_UPDATE, SIDE_ANSWERS);
    hide Truthful;
    assert Allowed(SIDE_WORLD, SidePush());
    SideUncovered(After(SIDE_WORLD, SidePush()));
  }

  lemma TruthPart(clone: Clone, u: RefUpdate, a: Answers)
    requires Faithful(clone, u, a)
    ensures Truthful(clone, u, a)
  {
    hide Truthful;
  }

  lemma SideCommit()
    ensures Commitish(SIDE_OBJECTS, SIDE_ID)
  {
    SideIds();
    ReachRefl(TagLinks(SIDE_OBJECTS), SIDE_ID);
  }

  lemma SideUncovered(w: World)
    requires w.clone == SIDE_WORLD.clone
    requires w.remotes == ApplyUpdates(map[], "origin", [SIDE_UPDATE], {0})
    requires var listed := Published(SIDE_WORLD.clone);
      w.cleared == SIDE_WORLD.cleared + ClearedBy(SIDE_WORLD, listed, [SIDE_UPDATE], [SIDE_ANSWERS])
    ensures !AllCovered(w)
  {
    SideIds();
    SideReach();
    SideFaithful();
    hide Faithful, Judge, IsZeroSha, IsObjectId, History, WellFormed, Repeat;
    assert [SIDE_UPDATE][..0] == [];
    assert w.remotes[("origin", "refs/heads/x")] == SIDE_ID;
    assert w.cleared == {};
    assert SIDE_TREE_ID in ReachedFrom(SIDE_OBJECTS, SIDE_ID);
    assert !Covered(w, SIDE_TREE_ID);
  }
}
