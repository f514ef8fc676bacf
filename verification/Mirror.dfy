/**
 Package mirrors: one commit per release whose tree is the package directory at
 the release tag, pushed atomically with the version tag.
 */
module Mirror {
  import opened Digraph
  import opened GitObjects
  import opened Options
  import opened PushAdmission
  import opened PushRuns

  const HEAD_REF := "refs/heads/main"

  function TagRef(version: string): string {
    "refs/tags/v" + version
  }

  type Refs = map<string, Id>

  function Lookup(refs: Refs, ref: string): Option<Id> {
    if ref in refs then Some(refs[ref]) else None
  }

  // ----- Provenance -----

  datatype ScanRun = ScanRun(event: string, headBranch: string, conclusion: string, headSha: Option<string>)

  /** What git and gh answer to `checkProvenance`; `ancestors` holds the pairs git calls ancestor and descendant. */
  datatype ProvenanceAnswers = ProvenanceAnswers(
    fetched: bool,
    localTag: Option<Id>,
    peeled: Option<Id>,
    remoteTags: Option<seq<(Id, string)>>,
    ancestors: set<(Id, Id)>,
    main: Id,
    taggedVersion: Option<string>,
    runs: Option<seq<ScanRun>>)

  function FirstWithRef(lines: seq<(Id, string)>, ref: string): Option<Id> {
    if lines == [] then None
    else if lines[0].1 == ref then Some(lines[0].0)
    else FirstWithRef(lines[1..], ref)
  }

  /** A green push run on main that names a full object id. */
  predicate CountsAsScan(run: ScanRun) {
    && run.event == "push" && run.headBranch == "main" && run.conclusion == "success"
    && run.headSha.Some? && IsObjectId(run.headSha.value)
  }

  /** A green push run on main, of a full object id on origin/main that contains the release commit. */
  ghost predicate ScannedBy(a: ProvenanceAnswers, run: ScanRun, commit: Id) {
    && run.event == "push" && run.headBranch == "main" && run.conclusion == "success"
    && exists head :: run.headSha == Some(head) && IsObjectId(head)
         && (head, a.main) in a.ancestors && (commit, head) in a.ancestors
  }

  /** The first remote line of the ref has this id. */
  ghost predicate RemoteHas(lines: seq<(Id, string)>, ref: string, id: Id) {
    exists i :: 0 <= i < |lines| && lines[i] == (id, ref) && forall j :: 0 <= j < i ==> lines[j].1 != ref
  }

  lemma {:induction false} FirstWithRefIs(lines: seq<(Id, string)>, ref: string, id: Id)
    ensures FirstWithRef(lines, ref) == Some(id) <==> RemoteHas(lines, ref, id)
  {
    if lines != [] {
      FirstWithRefIs(lines[1..], ref, id);
      if lines[0].1 == ref {
        if lines[0].0 == id {
          assert lines[0] == (id, ref);
        }
      } else {
        if RemoteHas(lines[1..], ref, id) {
          var i :| 0 <= i < |lines[1..]| && lines[1..][i] == (id, ref)
                   && forall j :: 0 <= j < i ==> lines[1..][j].1 != ref;
          assert lines[i + 1] == (id, ref);
          assert forall j :: 1 <= j < i + 1 ==> lines[j] == lines[1..][j - 1];
        }
        if RemoteHas(lines, ref, id) {
          var i :| 0 <= i < |lines| && lines[i] == (id, ref) && forall j :: 0 <= j < i ==> lines[j].1 != ref;
          assert lines[1..][i - 1] == (id, ref);
          assert forall j :: 0 <= j < i - 1 ==> lines[1..][j] == lines[j + 1];
        }
      }
    }
  }

  /** What a release commit needs before anything is built from it. */
  ghost predicate Provenance(a: ProvenanceAnswers, version: string, commit: Id) {
    && a.fetched
    && a.localTag.Some? && a.peeled == Some(commit)
    && a.remoteTags.Some? && RemoteHas(a.remoteTags.value, TagRef(version), a.localTag.value)
    && (commit, a.main) in a.ancestors
    && a.taggedVersion == Some(version)
    && a.runs.Some? && exists run :: run in a.runs.value && ScannedBy(a, run, commit)
  }

  /** `checkProvenance`: the release commit, or a refusal; it refuses exactly when a fact is missing. */
  method CheckProvenance(a: ProvenanceAnswers, version: string) returns (commit: Option<Id>)
    ensures commit.Some? ==> Provenance(a, version, commit.value)
    ensures commit.None? ==> forall c :: !Provenance(a, version, c)
  {
    if !a.fetched || a.localTag.None? || a.peeled.None? || a.remoteTags.None? {
      return None;
    }
    var remote := FirstWithRef(a.remoteTags.value, TagRef(version));
    FirstWithRefIs(a.remoteTags.value, TagRef(version), a.localTag.value);
    if remote.None? || remote.value != a.localTag.value {
      return None;
    }
    var c := a.peeled.value;
    if (c, a.main) !in a.ancestors || a.taggedVersion != Some(version) || a.runs.None? {
      return None;
    }
    var runs := a.runs.value;
    for i := 0 to |runs|
      invariant forall j :: 0 <= j < i ==> !ScannedBy(a, runs[j], c)
    {
      if !CountsAsScan(runs[i]) {
        continue;
      }
      if (runs[i].headSha.value, a.main) !in a.ancestors {
        continue;
      }
      if (c, runs[i].headSha.value) in a.ancestors {
        assert ScannedBy(a, runs[i], c);
        return Some(c);
      }
    }
    return None;
  }

  // ----- One mirror -----

  /** The mirror's head already is a commit of the release tree (and, flattened, has no parent). */
  predicate Reusable(objs: Objects, head: Option<Id>, tree: Id, flatten: bool) {
    && head.Some? && head.value in objs && objs[head.value].Commit?
    && objs[head.value].tree == tree
    && (flatten ==> objs[head.value].parents == [])
  }

  /** Branch and version tag both name a commit this release would reuse. */
  predicate AlreadyAt(objs: Objects, refs: Refs, tree: Id, version: string, flatten: bool) {
    Reusable(objs, Lookup(refs, HEAD_REF), tree, flatten)
    && Lookup(refs, TagRef(version)) == Lookup(refs, HEAD_REF)
  }

  /** The commit `commit-tree` is asked for. */
  function Wanted(head: Option<Id>, tree: Id, flatten: bool): Object {
    Commit(tree, if head.Some? && !flatten then [head.value] else [])
  }

  /** Answers to one `syncMirror`: what fails, and the commit that `commit-tree` writes. */
  datatype SyncAnswers = SyncAnswers(listed: bool, fetched: bool, made: Option<Id>, pushed: bool, described: bool)

  ghost predicate CommitTreeIs(objs: Objects, head: Option<Id>, tree: Id, flatten: bool, made: Option<Id>) {
    made.Some? ==> made.value in objs && objs[made.value] == Wanted(head, tree, flatten)
  }

  class MirrorRemote {
    var refs: Refs

    constructor ()
      ensures refs == map[]
    {
      refs := map[];
    }

    /** `git push --atomic --force`: every named ref moves, or none does. */
    method PushAtomic(accepted: bool, names: seq<string>, commit: Id)
      modifies this
      ensures refs == if accepted then old(refs) + (map r | r in names :: commit) else old(refs)
    {
      if accepted {
        refs := refs + (map r | r in names :: commit);
      }
    }
  }

  /** The commit a sync settles on and the refs it must push, or why it stops before any push. */
  datatype Plan = Stopped | Planned(commit: Option<Id>, pushes: seq<string>)

  /** Both refs of a release, as one value. */
  function Released(refs: Refs, version: string, commit: Id): Refs {
    refs[HEAD_REF := commit][TagRef(version) := commit]
  }

  /** The new head continues the old one: it is the old head, or the commit asked for on top of it. */
  predicate Continues(objs: Objects, head: Option<Id>, tree: Id, flatten: bool, commit: Id) {
    && commit in objs && objs[commit].Commit? && objs[commit].tree == tree
    && (flatten ==> objs[commit].parents == [])
    && (Some(commit) == head || objs[commit] == Wanted(head, tree, flatten))
  }

  lemma RefsDiffer(version: string)
    ensures TagRef(version) != HEAD_REF
  {
    assert TagRef(version)[5] == 't' && HEAD_REF[5] == 'h';
  }

  /** Moving the refs that differ leaves both at the commit. */
  lemma PushedIsReleased(refs: Refs, pushes: seq<string>, version: string, commit: Id)
    requires forall ref :: ref in pushes <==>
               (ref == HEAD_REF || ref == TagRef(version)) && Lookup(refs, ref) != Some(commit)
    ensures refs + (map r | r in pushes :: commit) == Released(refs, version, commit)
    ensures pushes == [] ==> refs == Released(refs, version, commit)
  {
    RefsDiffer(version);
  }

  /** The part of `syncMirror` before the push. */
  method PlanSync(objs: Objects, remote: Refs, tree: Id, version: string, dryRun: bool, flatten: bool, a: SyncAnswers)
    returns (plan: Plan)
    requires CommitTreeIs(objs, Lookup(remote, HEAD_REF), tree, flatten, a.made)
    requires HEAD_REF in remote ==> remote[HEAD_REF] in objs && objs[remote[HEAD_REF]].Commit?
    ensures plan.Stopped? <==>
      || !a.listed
      || (HEAD_REF in remote && !a.fetched)
      || (!Reusable(objs, Lookup(remote, HEAD_REF), tree, flatten) && !dryRun && a.made.None?)
    ensures plan.Planned? && plan.commit.Some? ==>
      && Continues(objs, Lookup(remote, HEAD_REF), tree, flatten, plan.commit.value)
      && (forall ref :: ref in plan.pushes <==>
            (ref == HEAD_REF || ref == TagRef(version)) && Lookup(remote, ref) != plan.commit)
    ensures plan.Planned? && plan.commit.None? ==> dryRun && plan.pushes == [HEAD_REF, TagRef(version)]
    ensures plan.Planned? && Reusable(objs, Lookup(remote, HEAD_REF), tree, flatten) ==>
              plan.commit == Lookup(remote, HEAD_REF)
    ensures plan.Planned? && dryRun && !Reusable(objs, Lookup(remote, HEAD_REF), tree, flatten) ==> plan.commit == None
  {
    if !a.listed {
      return Stopped;
    }
    var tagRef := TagRef(version);
    var head := Lookup(remote, HEAD_REF);
    var reusable := false;
    if head.Some? {
      if !a.fetched {
        return Stopped;
      }
      reusable := objs[head.value].tree == tree && (!flatten || objs[head.value].parents == []);
    }
    var commit := if reusable then head else None;
    var pushes := [];
    if commit.None? && dryRun {
      pushes := [HEAD_REF, tagRef];
    } else {
      if commit.None? {
        if a.made.None? {
          return Stopped;
        }
        commit := a.made;
      }
      if Lookup(remote, HEAD_REF) != commit {
        pushes := pushes + [HEAD_REF];
      }
      if Lookup(remote, tagRef) != commit {
        pushes := pushes + [tagRef];
      }
    }
    plan := Planned(commit, pushes);
  }

  /**
   A sync succeeds exactly when the mirror can be read and either nothing has to move or
   be moved, or the push goes through; a new head also needs a new commit and description.
   */
  ghost predicate SyncPasses(objs: Objects, refs: Refs, tree: Id, version: string, dryRun: bool, flatten: bool,
                             a: SyncAnswers)
  {
    && a.listed && (HEAD_REF in refs ==> a.fetched)
    && (|| dryRun || AlreadyAt(objs, refs, tree, version, flatten)
        || (a.pushed && (Reusable(objs, Lookup(refs, HEAD_REF), tree, flatten) || (a.made.Some? && a.described))))
  }

  /**
   `syncMirror`: on success of a real run `main` and the version tag name one commit
   of the release tree that continues the old head, and only refs that differed were
   pushed. Otherwise no ref moved, unless the push went through and only the
   description update after it failed.
   */
  method SyncMirror(objs: Objects, mirror: MirrorRemote, tree: Id, version: string, dryRun: bool, flatten: bool,
                    a: SyncAnswers) returns (ok: bool, pushes: seq<string>, commit: Option<Id>)
    requires CommitTreeIs(objs, Lookup(mirror.refs, HEAD_REF), tree, flatten, a.made)
    requires HEAD_REF in mirror.refs ==> mirror.refs[HEAD_REF] in objs && objs[mirror.refs[HEAD_REF]].Commit?
    modifies mirror
    ensures dryRun || !a.listed || !a.pushed ==> mirror.refs == old(mirror.refs)
    ensures ok && !dryRun ==>
      && commit.Some?
      && Continues(objs, Lookup(old(mirror.refs), HEAD_REF), tree, flatten, commit.value)
      && mirror.refs == Released(old(mirror.refs), version, commit.value)
      && (forall ref :: ref in pushes <==>
            (ref == HEAD_REF || ref == TagRef(version)) && Lookup(old(mirror.refs), ref) != commit)
    ensures mirror.refs != old(mirror.refs) ==>
      && commit.Some? && a.pushed && !dryRun
      && Continues(objs, Lookup(old(mirror.refs), HEAD_REF), tree, flatten, commit.value)
      && mirror.refs == Released(old(mirror.refs), version, commit.value)
      && (ok <==> a.described || Lookup(old(mirror.refs), HEAD_REF) == commit)
    ensures a.listed && a.fetched && AlreadyAt(objs, old(mirror.refs), tree, version, flatten) ==>
              ok && pushes == [] && mirror.refs == old(mirror.refs)
    ensures ok <==> SyncPasses(objs, old(mirror.refs), tree, version, dryRun, flatten, a)
    ensures ok && dryRun ==> forall ref :: ref in pushes <==>
              (ref == HEAD_REF || ref == TagRef(version))
              && !(Reusable(objs, Lookup(old(mirror.refs), HEAD_REF), tree, flatten)
                   && Lookup(old(mirror.refs), ref) == Lookup(old(mirror.refs), HEAD_REF))
  {
    NewCommitIsNew(objs, Lookup(mirror.refs, HEAD_REF), tree, flatten, a.made);
    hide Continues, Released, CommitTreeIs;
    ok, pushes, commit := false, [], None;
    RefsDiffer(version);
    var plan := PlanSync(objs, mirror.refs, tree, version, dryRun, flatten, a);
    if plan.Stopped? {
      return;
    }
    commit, pushes := plan.commit, plan.pushes;
    if |pushes| == 0 {
      PushedIsReleased(mirror.refs, pushes, version, commit.value);
      return true, pushes, commit;
    }
    if dryRun {
      assert pushes[0] in pushes;
      return true, pushes, commit;
    }
    mirror.PushAtomic(a.pushed, pushes, commit.value);
    assert pushes[0] in pushes;
    if !a.pushed {
      return;
    }
    PushedIsReleased(old(mirror.refs), pushes, version, commit.value);
    if HEAD_REF in pushes && !a.described {
      return;
    }
    ok := true;
  }

  /** A head that is not reusable is not the commit made on top of it. */
  lemma NewCommitIsNew(objs: Objects, head: Option<Id>, tree: Id, flatten: bool, made: Option<Id>)
    requires CommitTreeIs(objs, head, tree, flatten, made)
    ensures made.Some? && !Reusable(objs, head, tree, flatten) ==> made != head
  {
  }

  /** A second real run with the same flags finds both refs in place and pushes nothing. */
  method SyncTwice(objs: Objects, mirror: MirrorRemote, tree: Id, version: string, flatten: bool,
                   first: SyncAnswers, second: SyncAnswers) returns (ok: bool, again: bool, pushes: seq<string>)
    requires CommitTreeIs(objs, Lookup(mirror.refs, HEAD_REF), tree, flatten, first.made)
    requires HEAD_REF in mirror.refs ==> mirror.refs[HEAD_REF] in objs && objs[mirror.refs[HEAD_REF]].Commit?
    requires second.listed && second.fetched && second.made.None?
    modifies mirror
    ensures ok ==> again && pushes == [] && AlreadyAt(objs, mirror.refs, tree, version, flatten)
  {
    again, pushes := false, [];
    var firstPushes, c;
    ok, firstPushes, c := SyncMirror(objs, mirror, tree, version, false, flatten, first);
    if ok {
      assert AlreadyAt(objs, mirror.refs, tree, version, flatten);
      var c2;
      again, pushes, c2 := SyncMirror(objs, mirror, tree, version, false, flatten, second);
    }
  }

  // ----- What a mirror's history becomes -----

  /** Without flatten, a release adds at most its own commit to the mirror's history and loses none. */
  lemma HistoryGrowsByOne(objs: Objects, head: Id, tree: Id, commit: Id)
    requires WellFormed(objs) && head in objs && objs[head].Commit?
    requires Continues(objs, Some(head), tree, false, commit)
    ensures History(objs, head) <= History(objs, commit)
    ensures History(objs, commit) <= History(objs, head) + {commit}
  {
    ReachRefl(HistoryLinks(objs), commit);
    if commit != head {
      assert head in objs[commit].parents;
      ReachEdge(HistoryLinks(objs), commit, head);
      assert head in History(objs, commit);
      HistoryOfHistory(objs, commit, head);
      forall c | c in History(objs, commit) && c != commit
        ensures c in History(objs, head)
      {
        var m := ReachFirst(HistoryLinks(objs), commit, c);
        assert m == head;
      }
    }
  }

  // ----- Mirrors over whole runs of releases -----

  /** A mirror tip is a commit, and all that it reaches is commits and published content. */
  ghost predicate OnlyPublished(clone: Clone, tip: Id) {
    && tip in clone.objs && clone.objs[tip].Commit?
    && forall x :: Reaches(clone.objs, tip, x) ==> clone.objs[x].Commit? || x in Published(clone)
  }

  /** A commit of published content on top of such a tip is such a tip. */
  lemma OnlyPublishedChild(clone: Clone, head: Option<Id>, tree: Id, flatten: bool, commit: Id)
    requires WellFormed(clone.objs)
    requires head.Some? ==> OnlyPublished(clone, head.value)
    requires tree in Published(clone)
    requires Continues(clone.objs, head, tree, flatten, commit)
    ensures OnlyPublished(clone, commit)
  {
    if Some(commit) != head {
      forall x | Reaches(clone.objs, commit, x)
        ensures clone.objs[x].Commit? || x in Published(clone)
      {
        if x != commit {
          var m := ReachFirst(Links(clone.objs), commit, x);
          if m == tree {
            ReachesTrans(clone.objs, clone.main.value, tree, x);
          } else {
            assert m == head.value;
            assert Reaches(clone.objs, head.value, x);
          }
        }
      }
    }
  }

  lemma OnlyPublishedStays(before: Clone, after: Clone, tip: Id)
    requires after.objs == before.objs && Published(before) <= Published(after)
    requires OnlyPublished(before, tip)
    ensures OnlyPublished(after, tip)
  {
    forall x | Reaches(after.objs, tip, x)
      ensures after.objs[x].Commit? || x in Published(after)
    {
      assert Reaches(before.objs, tip, x);
    }
  }

  /** Commit ids are taken off what an update sends. */
  lemma NoCommitIsSent(objs: Objects, tip: Id, without: Option<Id>, printed: set<Id>, x: Id)
    requires WellFormed(objs) && ListsObjects(objs, tip, without, printed)
    requires x in printed && x !in RangeCommits(objs, tip, without)
    ensures x in objs && Reaches(objs, tip, x) && !objs[x].Commit?
  {
    if objs[x].Commit? {
      CommitsAreHistory(objs, tip, x);
      HistoryReaches(objs, without.value, x);
      assert false;
    }
  }

  /** What such a tip sends is published, whatever the remote holds, so the update is admitted unscanned. */
  lemma OnlyPublishedIsAdmitted(clone: Clone, u: RefUpdate, a: Answers)
    requires WellFormed(clone.objs) && OnlyPublished(clone, u.localSha) && Published(clone) != {}
    requires Faithful(clone, u, a) && Resolves(clone, u.localSha, Old(u))
    requires IsObjectId(u.localSha) && (IsZeroSha(u.remoteSha) || IsObjectId(u.remoteSha))
    ensures PublishesNothingNew(Outgoing(u, a.objects, a.commits), Published(clone))
  {
    hide ListsObjects, WellFormed, Published, RangeCommits;
    forall x | x in a.objects.value - a.commits.value
      ensures x in Published(clone)
    {
      NoCommitIsSent(clone.objs, u.localSha, Old(u), a.objects.value, x);
    }
  }

  /** Commits are reached through history alone. */
  lemma CommitsAreHistory(objs: Objects, a: Id, c: Id)
    requires WellFormed(objs) && Reaches(objs, a, c) && objs[c].Commit?
    ensures c in History(objs, a)
  {
    var p: seq<Id> :| WalkFromTo(Links(objs), p, a, c);
    CommitWalk(objs, p);
  }

  lemma {:induction false} CommitWalk(objs: Objects, p: seq<Id>)
    requires WellFormed(objs) && IsWalk(Links(objs), p)
    requires p[|p| - 1] in objs && objs[p[|p| - 1]].Commit?
    ensures Reach(HistoryLinks(objs), p[0], p[|p| - 1])
    ensures p[0] in objs && !IsContent(objs, p[0])
    decreases |p|
  {
    if |p| == 1 {
      ReachRefl(HistoryLinks(objs), p[0]);
    } else {
      assert Follows(Links(objs), p, 0);
      WalkTail(Links(objs), p);
      CommitWalk(objs, p[1..]);
      assert p[1] != (if objs[p[0]].Commit? then objs[p[0]].tree else "") || !objs[p[0]].Commit?;
      ReachEdge(HistoryLinks(objs), p[0], p[1]);
      ReachTrans(HistoryLinks(objs), p[0], p[1], p[|p| - 1]);
    }
  }

  /** The updates git hands the hook for a sync: old values as the remote has them, zeros where it has none. */
  ghost predicate SyncUpdate(refs: Refs, version: string, commit: Id, u: RefUpdate) {
    && (u.remoteRef == HEAD_REF || u.remoteRef == TagRef(version))
    && u.localSha == commit
    && (if u.remoteRef in refs then u.remoteSha == refs[u.remoteRef] else IsZeroSha(u.remoteSha))
  }

  /**
   The pre-push hook on a mirror push: every branch update and every new version tag
   is admitted, so the gate is skipped and the scan reads no report. A version tag
   that is moved is admitted too when the clone holds its old target.
   */
  lemma MirrorPushIsAdmitted(clone: Clone, refs: Refs, version: string, commit: Id, stdin: string,
                             answers: seq<Answers>)
    requires WellFormed(clone.objs) && OnlyPublished(clone, commit) && Published(clone) != {}
    requires commit in clone.held && (HEAD_REF in refs ==> refs[HEAD_REF] in clone.held)
    requires forall id :: id in clone.objs ==> IsObjectId(id) && !IsZeroSha(id)
    requires ClosedUnder(clone.objs, clone.held)
    requires ParseRefUpdates(stdin).Some? && ParseRefUpdates(stdin).value != []
    requires |answers| == |ParseRefUpdates(stdin).value|
    requires forall i :: 0 <= i < |answers| ==>
               var u := ParseRefUpdates(stdin).value[i];
               SyncUpdate(refs, version, commit, u) && Faithful(clone, u, answers[i])
               && (u.remoteRef == TagRef(version) && u.remoteRef in refs ==> u.remoteSha in clone.held)
    ensures DecideGate(stdin, Published(clone), answers) == SkipGate
    ensures forall i :: 0 <= i < |answers| && IsObjectId(ParseRefUpdates(stdin).value[i].remoteSha) ==>
              Judge(ParseRefUpdates(stdin).value[i], Published(clone), answers[i]) == Admitted
  {
    var updates := ParseRefUpdates(stdin).value;
    forall i | 0 <= i < |updates|
      ensures AdmittedAt(updates, Published(clone), answers, i) && !IsDelete(updates[i])
    {
      OnlyPublishedIsAdmitted(clone, updates[i], answers[i]);
    }
    SkipIsAdmission(stdin, Published(clone), answers);
  }

  datatype Fleet = Fleet(clone: Clone, mirrors: map<string, Refs>)

  datatype Event =
    | MainMoves(tip: Id)
    | ObjectsArrive(objects: set<Id>)
    | Release(name: string, version: string, provenance: ProvenanceAnswers, release: Id, tree: Id, flatten: bool,
              commit: Id, landed: bool)

  function RefsOf(f: Fleet, name: string): Refs {
    if name in f.mirrors then f.mirrors[name] else map[]
  }

  /** git's ancestry answers are about this clone's origin/main, and true of its history. */
  ghost predicate TruthfulProvenance(clone: Clone, a: ProvenanceAnswers) {
    && clone.main == Some(a.main) && a.main in clone.held
    && forall p :: p in a.ancestors ==> p.0 in History(clone.objs, p.1)
  }

  /** What the provenance check is for: a commit that passes it is in origin/main's history. */
  lemma ProvenanceIsHistory(clone: Clone, a: ProvenanceAnswers, version: string, commit: Id)
    requires TruthfulProvenance(clone, a) && Provenance(a, version, commit)
    ensures clone.main.Some? && clone.main.value in clone.held && commit in History(clone.objs, clone.main.value)
  {
    assert (commit, a.main) in a.ancestors;
  }

  /** A release builds on a commit whose provenance passed, from a tree of that commit. */
  ghost predicate Enabled(f: Fleet, e: Event) {
    var objs := f.clone.objs;
    match e
    case MainMoves(tip) => tip in f.clone.held && Published(f.clone) <= ReachedFrom(objs, tip)
    case ObjectsArrive(objects) => ClosedUnder(objs, f.clone.held + objects)
    case Release(name, version, provenance, release, tree, flatten, commit, landed) =>
      && TruthfulProvenance(f.clone, provenance) && Provenance(provenance, version, release)
      && Reaches(objs, release, tree) && objs[tree].Tree?
      && Continues(objs, Lookup(RefsOf(f, name), HEAD_REF), tree, flatten, commit)
  }

  ghost function Next(f: Fleet, e: Event): Fleet {
    match e
    case MainMoves(tip) => f.(clone := f.clone.(main := Some(tip)))
    case ObjectsArrive(objects) => f.(clone := f.clone.(held := f.clone.held + objects))
    case Release(name, version, _, _, _, _, commit, landed) =>
      if landed then f.(mirrors := f.mirrors[name := Released(RefsOf(f, name), version, commit)]) else f
  }

  ghost predicate IsFleetRun(f: Fleet, events: seq<Event>)
    decreases |events|
  {
    events == [] || (Enabled(f, events[0]) && IsFleetRun(Next(f, events[0]), events[1..]))
  }

  ghost function FleetAfter(f: Fleet, events: seq<Event>): Fleet
    decreases |events|
  {
    if events == [] then f else FleetAfter(Next(f, events[0]), events[1..])
  }

  ghost predicate FleetInv(f: Fleet) {
    && WellFormed(f.clone.objs)
    && (forall name, ref :: name in f.mirrors && ref in f.mirrors[name] ==>
          OnlyPublished(f.clone, f.mirrors[name][ref]))
  }

  /** A commit that a release may push, while every mirror holds published content only. */
  lemma ReleaseIsPublished(f: Fleet, e: Event)
    requires FleetInv(f) && e.Release? && Enabled(f, e)
    ensures OnlyPublished(f.clone, e.commit) && Published(f.clone) != {}
  {
    ProvenanceIsHistory(f.clone, e.provenance, e.version, e.release);
    hide Provenance, TruthfulProvenance;
    var objs, main := f.clone.objs, f.clone.main.value;
    HistoryReaches(objs, main, e.release);
    ReachesTrans(objs, main, e.release, e.tree);
    assert e.tree in Published(f.clone);
    OnlyPublishedChild(f.clone, Lookup(RefsOf(f, e.name), HEAD_REF), e.tree, e.flatten, e.commit);
  }

  lemma FleetStep(f: Fleet, e: Event)
    requires FleetInv(f) && Enabled(f, e)
    ensures FleetInv(Next(f, e))
  {
    var f' := Next(f, e);
    if e.Release? {
      ReleaseIsPublished(f, e);
    } else {
      forall name, ref | name in f'.mirrors && ref in f'.mirrors[name]
        ensures OnlyPublished(f'.clone, f'.mirrors[name][ref])
      {
        OnlyPublishedStays(f.clone, f'.clone, f.mirrors[name][ref]);
      }
    }
  }

  lemma {:induction false} FleetRunInv(f: Fleet, events: seq<Event>)
    requires FleetInv(f) && IsFleetRun(f, events)
    ensures FleetInv(FleetAfter(f, events))
    decreases |events|
  {
    if events != [] {
      FleetStep(f, events[0]);
      FleetRunInv(Next(f, events[0]), events[1..]);
    }
  }

  // ----- A mirror's history over whole runs -----

  ghost function HistoryBehind(objs: Objects, tip: Option<Id>): set<Id> {
    if tip.Some? then History(objs, tip.value) else {}
  }

  /** The history of a mirror's branch. */
  ghost function BranchHistory(f: Fleet, name: string): set<Id> {
    HistoryBehind(f.clone.objs, Lookup(RefsOf(f, name), HEAD_REF))
  }

  /** How many releases of one package a run holds. */
  function ReleasesOf(events: seq<Event>, name: string): nat {
    if events == [] then 0
    else (if events[0].Release? && events[0].name == name then 1 else 0) + ReleasesOf(events[1..], name)
  }

  lemma FirstHistory(objs: Objects, tree: Id, commit: Id)
    requires Continues(objs, None, tree, false, commit)
    ensures History(objs, commit) <= {commit}
  {
    forall c | c in History(objs, commit)
      ensures c == commit
    {
      if c != commit {
        var m := ReachFirst(HistoryLinks(objs), commit, c);
        assert false;
      }
    }
  }

  lemma ReleaseHistory(objs: Objects, head: Option<Id>, tree: Id, commit: Id)
    requires WellFormed(objs) && (head.Some? ==> head.value in objs && objs[head.value].Commit?)
    requires Continues(objs, head, tree, false, commit)
    ensures HistoryBehind(objs, head) <= History(objs, commit)
    ensures |History(objs, commit)| <= |HistoryBehind(objs, head)| + 1
  {
    if head.Some? {
      HistoryGrowsByOne(objs, head.value, tree, commit);
    } else {
      FirstHistory(objs, tree, commit);
    }
    OneMore(HistoryBehind(objs, head), History(objs, commit), commit);
  }

  /** Only a release of its own that lands moves a mirror's refs; no event changes an object. */
  lemma NextRefs(f: Fleet, e: Event, name: string)
    ensures Next(f, e).clone.objs == f.clone.objs
    ensures RefsOf(Next(f, e), name)
         == if e.Release? && e.name == name && e.landed then Released(RefsOf(f, name), e.version, e.commit)
            else RefsOf(f, name)
  {
    hide Released;
  }

  /** One event leaves a mirror's history as it was, or adds a release's one commit to it. */
  lemma HistoryStep(f: Fleet, e: Event, name: string)
    requires FleetInv(f) && Enabled(f, e) && (e.Release? ==> !e.flatten)
    ensures BranchHistory(f, name) <= BranchHistory(Next(f, e), name)
    ensures |BranchHistory(Next(f, e), name)| <= |BranchHistory(f, name)| + ReleasesOf([e], name)
  {
    hide FleetInv, Enabled, History;
    assert [e][1..] == [];
    NextRefs(f, e, name);
    hide Next;
    if e.Release? && e.name == name && e.landed {
      RefsDiffer(e.version);
      ReleaseContinues(f, e);
      hide Continues, WellFormed;
      ReleaseHistory(f.clone.objs, Lookup(RefsOf(f, name), HEAD_REF), e.tree, e.commit);
    }
  }

  /** A release goes on from its mirror's head, which is a commit. */
  lemma ReleaseContinues(f: Fleet, e: Event)
    requires FleetInv(f) && Enabled(f, e) && e.Release?
    ensures var head := Lookup(RefsOf(f, e.name), HEAD_REF);
      && WellFormed(f.clone.objs) && Continues(f.clone.objs, head, e.tree, e.flatten, e.commit)
      && (head.Some? ==> head.value in f.clone.objs && f.clone.objs[head.value].Commit?)
  {
    hide Provenance, TruthfulProvenance, WellFormed, Continues;
    var head := Lookup(RefsOf(f, e.name), HEAD_REF);
    assert head.Some? ==> OnlyPublished(f.clone, head.value);
  }

  lemma OneMore(before: set<Id>, after: set<Id>, commit: Id)
    requires after <= before + {commit}
    ensures |after| <= |before| + 1
  {
    Fewer(after, before + {commit});
  }

  lemma {:induction false} Fewer<T>(a: set<T>, b: set<T>)
    requires a <= b
    ensures |a| <= |b|
  {
    if a != {} {
      var x :| x in a;
      Fewer(a - {x}, b - {x});
    }
  }

  /** Without flatten a mirror's history only grows, by at most one commit per release. */
  lemma {:induction false} FleetHistoryGrows(f: Fleet, events: seq<Event>, name: string)
    requires FleetInv(f) && IsFleetRun(f, events) && forall e :: e in events && e.Release? ==> !e.flatten
    ensures BranchHistory(f, name) <= BranchHistory(FleetAfter(f, events), name)
    ensures |BranchHistory(FleetAfter(f, events), name)| <= |BranchHistory(f, name)| + ReleasesOf(events, name)
    decreases |events|
  {
    if events != [] {
      var e := events[0];
      assert e in events && [e][1..] == [];
      FleetStep(f, e);
      HistoryStep(f, e, name);
      hide FleetInv, Enabled, BranchHistory, Next;
      FleetHistoryGrows(Next(f, e), events[1..], name);
    }
  }

  /**
   Over every sequence of releases from empty mirrors, with origin/main only growing:
   the push of each release meets the hook on its own merits. Its branch update and
   its new version tag are admitted, so the gate is skipped and nothing is scanned.
   */
  lemma EveryReleaseIsAdmitted(start: Fleet, events: seq<Event>, e: Event, stdin: string, answers: seq<Answers>)
    requires WellFormed(start.clone.objs) && start.mirrors == map[] && IsFleetRun(start, events)
    requires e.Release? && Enabled(FleetAfter(start, events), e)
    requires var f := FleetAfter(start, events);
      var refs := RefsOf(f, e.name);
      && e.commit in f.clone.held && (HEAD_REF in refs ==> refs[HEAD_REF] in f.clone.held)
      && (forall id :: id in f.clone.objs ==> IsObjectId(id) && !IsZeroSha(id))
      && ClosedUnder(f.clone.objs, f.clone.held)
      && ParseRefUpdates(stdin).Some? && ParseRefUpdates(stdin).value != []
      && |answers| == |ParseRefUpdates(stdin).value|
      && forall i :: 0 <= i < |answers| ==>
           var u := ParseRefUpdates(stdin).value[i];
           SyncUpdate(refs, e.version, e.commit, u) && Faithful(f.clone, u, answers[i])
           && (u.remoteRef == TagRef(e.version) ==> u.remoteRef !in refs)
    ensures DecideGate(stdin, Published(FleetAfter(start, events).clone), answers) == SkipGate
    ensures forall i :: 0 <= i < |answers| && IsObjectId(ParseRefUpdates(stdin).value[i].remoteSha) ==>
              Judge(ParseRefUpdates(stdin).value[i], Published(FleetAfter(start, events).clone), answers[i]) == Admitted
  {
    FleetRunInv(start, events);
    var f := FleetAfter(start, events);
    ReleaseIsPublished(f, e);
    MirrorPushIsAdmitted(f.clone, RefsOf(f, e.name), e.version, e.commit, stdin, answers);
  }
}
