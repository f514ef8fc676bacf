/**
 Runs of pushes through the hook: what remote refs can ever hold.
 */
module PushRuns {
  import opened Digraph
  import opened GitObjects
  import opened Options
  import opened PushAdmission

  /**
   The local clone: the ids it holds, where refs/remotes/origin/main points, if
   anywhere, and where a tag or branch called `origin/main` does, if there is one.
   */
  datatype Clone = Clone(objs: Objects, held: set<Id>, main: Option<Id>, shadow: Option<Id>)

  /** What git takes the short name `origin/main` for: a tag or branch of that name goes first. */
  ghost function Named(clone: Clone): Option<Id> {
    if clone.shadow.Some? then clone.shadow else clone.main
  }

  /** What `published` enumerates: everything reachable from refs/remotes/origin/main, which it names in full. */
  ghost function Published(clone: Clone): set<Id> {
    if clone.main.Some? && clone.main.value in clone.held then ReachedFrom(clone.objs, clone.main.value) else {}
  }

  ghost function Old(u: RefUpdate): Option<Id> {
    if IsZeroSha(u.remoteSha) then None else Some(u.remoteSha)
  }

  ghost predicate Resolves(clone: Clone, tip: Id, without: Option<Id>) {
    tip in clone.held && (without.Some? ==> without.value in clone.held)
  }

  ghost function ReachedOrNone(objs: Objects, a: Option<Id>): set<Id> {
    if a.Some? then ReachedFrom(objs, a.value) else {}
  }

  ghost function HistoryOrNone(objs: Objects, a: Option<Id>): set<Id> {
    if a.Some? then History(objs, a.value) else {}
  }

  /** `rev-list tip --not without` */
  ghost function RangeCommits(objs: Objects, tip: Id, without: Option<Id>): set<Id> {
    History(objs, tip) - HistoryOrNone(objs, without)
  }

  /**
   `rev-list --objects` prints at least what is reachable from the tip and not from
   the excluded side. At the edge it may also print trees and blobs that both sides
   reach, never a commit of the excluded side.
   */
  ghost predicate ListsObjects(objs: Objects, tip: Id, without: Option<Id>, printed: set<Id>) {
    && ReachedFrom(objs, tip) - ReachedOrNone(objs, without) <= printed <= ReachedFrom(objs, tip)
    && forall x :: x in printed && x in ReachedOrNone(objs, without) ==> IsContent(objs, x)
  }

  /** The range of a new ref excludes `origin/main` by its short name. */
  ghost function Excluded(clone: Clone, range: Range): Option<Id> {
    match range.without
    case None => None
    case Some(RemoteTip(sha)) => Some(sha)
    case Some(OriginMain) => Named(clone)
  }

  ghost predicate SharesHistory(clone: Clone, tip: Id) {
    && Named(clone).Some? && Named(clone).value in clone.held && tip in clone.held
    && History(clone.objs, Named(clone).value) * History(clone.objs, tip) != {}
  }

  /** What git answers about an update in this clone is true; any of its commands may fail instead. */
  ghost predicate Truthful(clone: Clone, u: RefUpdate, a: Answers) {
    var objs, range := clone.objs, ResolveRange(u, a.mergeBase);
    && (a.objects.Some? ==>
          Resolves(clone, u.localSha, Old(u)) && ListsObjects(objs, u.localSha, Old(u), a.objects.value))
    && (a.commits.Some? ==>
          Resolves(clone, u.localSha, Old(u)) && a.commits.value == RangeCommits(objs, u.localSha, Old(u)))
    && (a.mergeBase.Some? ==> SharesHistory(clone, u.localSha))
    && (a.count.Some? ==>
          Resolves(clone, range.tip, Excluded(clone, range))
          && a.count.value == |RangeCommits(objs, range.tip, Excluded(clone, range))|)
  }

  /** git answers whenever the objects it needs are there. */
  ghost predicate Answering(clone: Clone, u: RefUpdate, a: Answers) {
    var range := ResolveRange(u, a.mergeBase);
    && (Resolves(clone, u.localSha, Old(u)) ==> a.objects.Some? && a.commits.Some?)
    && (SharesHistory(clone, u.localSha) ==> a.mergeBase.Some?)
    && (Resolves(clone, range.tip, Excluded(clone, range)) ==> a.count.Some?)
  }

  ghost predicate Faithful(clone: Clone, u: RefUpdate, a: Answers) {
    Truthful(clone, u, a) && Answering(clone, u, a)
  }

  /** The commits of the range gitleaks read, when it read one and found it clean. */
  ghost function ScannedClean(clone: Clone, listed: set<Id>, u: RefUpdate, a: Answers): set<Id> {
    if Judge(u, listed, a) == Scanned(true) then
      var range := ResolveRange(u, a.mergeBase);
      RangeCommits(clone.objs, range.tip, Excluded(clone, range))
    else {}
  }

  /**
   The commits a scan reads: those behind the tip and not behind the old remote tip; for a
   new ref not behind `origin/main`, if they share history; otherwise all of them.
   */
  lemma RangeIs(clone: Clone, u: RefUpdate, a: Answers)
    ensures var range := ResolveRange(u, a.mergeBase);
      RangeCommits(clone.objs, range.tip, Excluded(clone, range))
      == History(clone.objs, u.localSha)
         - (if Old(u).Some? then History(clone.objs, u.remoteSha)
            else if a.mergeBase.Some? then HistoryOrNone(clone.objs, Named(clone)) else {})
  {
  }

  type RemoteRef = (string, string)

  /** `cleared` records the commits that were in a range scanned clean. */
  datatype World = World(clone: Clone, remotes: map<RemoteRef, Id>, cleared: set<Id>)

  /** Published content, or content of a commit that was scanned clean. */
  ghost predicate Covered(w: World, x: Id) {
    || x in Published(w.clone)
    || exists c :: c in w.cleared && Reaches(w.clone.objs, c, x)
  }

  ghost predicate TipCovered(w: World, tip: Id) {
    forall x :: IsContent(w.clone.objs, x) && Reaches(w.clone.objs, tip, x) ==> Covered(w, x)
  }

  ghost predicate AllCovered(w: World) {
    forall r :: r in w.remotes ==> TipCovered(w, w.remotes[r])
  }

  /**
   `listed` is what `published` enumerated: the published set, or nothing when git
   failed; `landed` are the places of the updates the remote took.
   */
  datatype Step =
    | Push(remote: string, stdin: string, listed: set<Id>, answers: seq<Answers>, landed: set<int>)
    | MoveMain(tip: Id)
    | Shadow(shadow: Option<Id>)
    | Receive(objects: set<Id>)

  /** git reports each remote ref's own tip, or zeros where there is none. */
  ghost predicate ReportsTip(w: World, remote: string, u: RefUpdate) {
    if (remote, u.remoteRef) in w.remotes then u.remoteSha == w.remotes[(remote, u.remoteRef)]
    else IsZeroSha(u.remoteSha)
  }

  ghost predicate Allowed(w: World, step: Step) {
    match step
    case Push(remote, stdin, listed, answers, landed) =>
      var parsed := ParseRefUpdates(stdin);
      && listed <= Published(w.clone)
      && ScanAccepts(false, stdin, true, listed, answers)
      && |answers| == |parsed.value|
      && forall i :: 0 <= i < |answers| ==>
           Truthful(w.clone, parsed.value[i], answers[i]) && ReportsTip(w, remote, parsed.value[i])
    case MoveMain(tip) =>
      tip in w.clone.held && Published(w.clone) <= ReachedFrom(w.clone.objs, tip)
    case Shadow(_) => true
    case Receive(objects) =>
      ClosedUnder(w.clone.objs, w.clone.held + objects)
  }

  /** The ref is new, and its range leaves out `origin/main`, with which it shares history. */
  ghost predicate JudgedByName(listed: set<Id>, u: RefUpdate, a: Answers) {
    !Judge(u, listed, a).Admitted? && IsZeroSha(u.remoteSha) && a.mergeBase.Some?
  }

  /**
   All that the tip has in common with what `origin/main` names is covered, or came with a commit
   this scan cleared.
   */
  ghost predicate NameHidesNothing(w: World, listed: set<Id>, u: RefUpdate, a: Answers) {
    forall x :: IsContent(w.clone.objs, x) && Reaches(w.clone.objs, u.localSha, x)
                && x in ReachedOrNone(w.clone.objs, Named(w.clone)) ==>
      Covered(w.(cleared := w.cleared + ScannedClean(w.clone, listed, u, a)), x)
  }

  /**
   What an accepted update must be for its ref to be covered: content covered already,
   or a commit (or a tag of one) from whose scan the name `origin/main` hid nothing.
   */
  ghost predicate Safe(w: World, listed: set<Id>, u: RefUpdate, a: Answers) {
    || TipCovered(w, u.localSha)
    || (Commitish(w.clone.objs, u.localSha) && (JudgedByName(listed, u, a) ==> NameHidesNothing(w, listed, u, a)))
  }

  /** Every update that lands, other than a delete, is safe. */
  ghost predicate PushesNothingLoose(w: World, step: Step) {
    step.Push? && ParseRefUpdates(step.stdin).Some? ==>
      var updates := ParseRefUpdates(step.stdin).value;
      forall i :: 0 <= i < |updates| && i < |step.answers| && i in step.landed && !IsDelete(updates[i]) ==>
        Safe(w, step.listed, updates[i], step.answers[i])
  }

  ghost function ApplyUpdate(remotes: map<RemoteRef, Id>, remote: string, u: RefUpdate): map<RemoteRef, Id> {
    if IsDelete(u) then remotes - {(remote, u.remoteRef)} else remotes[(remote, u.remoteRef) := u.localSha]
  }

  /** The remote's refs once it took the updates that land. */
  ghost function ApplyUpdates(remotes: map<RemoteRef, Id>, remote: string, updates: seq<RefUpdate>, landed: set<int>):
    map<RemoteRef, Id>
  {
    if updates == [] then remotes
    else
      var n := |updates| - 1;
      var before := ApplyUpdates(remotes, remote, updates[..n], landed);
      if n in landed then ApplyUpdate(before, remote, updates[n]) else before
  }

  ghost function ClearedBy(w: World, listed: set<Id>, updates: seq<RefUpdate>, answers: seq<Answers>): set<Id>
    requires |answers| == |updates|
  {
    set i, c | 0 <= i < |updates| && c in ScannedClean(w.clone, listed, updates[i], answers[i]) :: c
  }

  ghost function After(w: World, step: Step): World
    requires Allowed(w, step)
  {
    match step
    case Push(remote, stdin, listed, answers, landed) =>
      var updates := ParseRefUpdates(stdin).value;
      World(w.clone, ApplyUpdates(w.remotes, remote, updates, landed),
            w.cleared + ClearedBy(w, listed, updates, answers))
    case MoveMain(tip) => w.(clone := w.clone.(main := Some(tip)))
    case Shadow(shadow) => w.(clone := w.clone.(shadow := shadow))
    case Receive(objects) => w.(clone := w.clone.(held := w.clone.held + objects))
  }

  ghost predicate IsRun(w: World, steps: seq<Step>)
    decreases |steps|
  {
    steps == [] || (Allowed(w, steps[0]) && IsRun(After(w, steps[0]), steps[1..]))
  }

  ghost function Final(w: World, steps: seq<Step>): World
    requires IsRun(w, steps)
    decreases |steps|
  {
    if steps == [] then w else Final(After(w, steps[0]), steps[1..])
  }

  ghost predicate RunPushesNothingLoose(w: World, steps: seq<Step>)
    requires IsRun(w, steps)
    decreases |steps|
  {
    steps == [] || (PushesNothingLoose(w, steps[0]) && RunPushesNothingLoose(After(w, steps[0]), steps[1..]))
  }

  ghost predicate SaneWorld(w: World) {
    WellFormed(w.clone.objs) && ClosedUnder(w.clone.objs, w.clone.held)
  }

  /** An accepted update that is safe, over a covered remote ref, leaves a covered ref. */
  lemma AcceptedTipCovered(w: World, remote: string, listed: set<Id>, u: RefUpdate, a: Answers, w': World)
    requires listed <= Published(w.clone)
    requires SaneWorld(w) && AllCovered(w)
    requires Truthful(w.clone, u, a) && ReportsTip(w, remote, u)
    requires Accepts(Judge(u, listed, a)) && !IsDelete(u)
    requires Safe(w, listed, u, a)
    requires w'.clone == w.clone && w.cleared + ScannedClean(w.clone, listed, u, a) <= w'.cleared
    ensures TipCovered(w', u.localSha)
  {
    hide Truthful, SaneWorld, AllCovered, ReportsTip, Judge;
    forall x | IsContent(w.clone.objs, x) && Reaches(w.clone.objs, u.localSha, x)
      ensures Covered(w', x)
    {
      if TipCovered(w, u.localSha) {
        assert Covered(w, x);
      } else if Judge(u, listed, a).Admitted? {
        AdmittedContent(w, remote, listed, u, a, x);
      } else {
        ScannedContent(w, remote, listed, u, a, x);
      }
    }
  }

  lemma CoveredByOldTip(w: World, remote: string, u: RefUpdate, x: Id)
    requires AllCovered(w) && ReportsTip(w, remote, u) && Old(u).Some?
    requires IsContent(w.clone.objs, x) && Reaches(w.clone.objs, Old(u).value, x)
    ensures Covered(w, x)
  {
    assert (remote, u.remoteRef) in w.remotes;
  }

  lemma AdmittedContent(w: World, remote: string, listed: set<Id>, u: RefUpdate, a: Answers, x: Id)
    requires listed <= Published(w.clone)
    requires SaneWorld(w) && AllCovered(w) && Truthful(w.clone, u, a) && ReportsTip(w, remote, u)
    requires Judge(u, listed, a).Admitted?
    requires IsContent(w.clone.objs, x) && Reaches(w.clone.objs, u.localSha, x)
    ensures Covered(w, x)
  {
    hide SaneWorld, AllCovered, ReportsTip;
    if x in ReachedOrNone(w.clone.objs, Old(u)) {
      CoveredByOldTip(w, remote, u, x);
    } else {
      assert x in ReachedFrom(w.clone.objs, u.localSha);
      assert x in a.objects.value && x !in a.commits.value;
    }
  }

  /** What a scanned or empty range sends is covered, cleared with it, or behind what `origin/main` names. */
  lemma ScannedContent(w: World, remote: string, listed: set<Id>, u: RefUpdate, a: Answers, x: Id)
    requires listed <= Published(w.clone)
    requires SaneWorld(w) && AllCovered(w) && Truthful(w.clone, u, a) && ReportsTip(w, remote, u)
    requires Accepts(Judge(u, listed, a)) && !IsDelete(u) && !Judge(u, listed, a).Admitted?
    requires Commitish(w.clone.objs, u.localSha)
    requires IsContent(w.clone.objs, x) && Reaches(w.clone.objs, u.localSha, x)
    ensures Covered(w, x)
         || (exists c :: c in ScannedClean(w.clone, listed, u, a) && Reaches(w.clone.objs, c, x))
         || (JudgedByName(listed, u, a) && x in ReachedOrNone(w.clone.objs, Named(w.clone)))
  {
    var objs := w.clone.objs;
    assert WellFormed(objs);
    hide SaneWorld, AllCovered, ReportsTip, WellFormed;
    var range := ResolveRange(u, a.mergeBase);
    var c := ContentHasCommit(objs, u.localSha, x);
    if c in HistoryOrNone(objs, Excluded(w.clone, range)) {
      var base := Excluded(w.clone, range).value;
      HistoryReaches(objs, base, c);
      ReachesTrans(objs, base, c, x);
      if range.without.value.RemoteTip? {
        CoveredByOldTip(w, remote, u, x);
      }
    } else {
      assert c in RangeCommits(objs, range.tip, Excluded(w.clone, range));
    }
  }

  /** Growing the published set, the held objects or the cleared commits uncovers nothing. */
  lemma StillCovered(w: World, w': World, tip: Id)
    requires w'.clone.objs == w.clone.objs
    requires Published(w.clone) <= Published(w'.clone) && w.cleared <= w'.cleared
    requires TipCovered(w, tip)
    ensures TipCovered(w', tip)
  {
    forall x | IsContent(w.clone.objs, x) && Reaches(w.clone.objs, tip, x)
      ensures Covered(w', x)
    {
      assert Covered(w, x);
    }
  }

  lemma {:induction false} UpdatesCovered(w: World, remote: string, updates: seq<RefUpdate>, landed: set<int>,
                                          w': World)
    requires forall r :: r in w.remotes ==> TipCovered(w', w.remotes[r])
    requires forall i :: 0 <= i < |updates| && i in landed && !IsDelete(updates[i]) ==>
             TipCovered(w', updates[i].localSha)
    ensures forall r :: r in ApplyUpdates(w.remotes, remote, updates, landed) ==>
              TipCovered(w', ApplyUpdates(w.remotes, remote, updates, landed)[r])
  {
    hide TipCovered, IsDelete;
    if updates != [] {
      var n := |updates| - 1;
      forall i | 0 <= i < n && i in landed && !IsDelete(updates[..n][i])
        ensures TipCovered(w', updates[..n][i].localSha)
      {
        assert updates[..n][i] == updates[i];
      }
      UpdatesCovered(w, remote, updates[..n], landed, w');
      var before := ApplyUpdates(w.remotes, remote, updates[..n], landed);
      if n in landed {
        assert !IsDelete(updates[n]) ==> TipCovered(w', updates[n].localSha);
        UpdateCovered(before, remote, updates[n], w');
      }
    }
  }

  lemma UpdateCovered(before: map<RemoteRef, Id>, remote: string, u: RefUpdate, w': World)
    requires forall r :: r in before ==> TipCovered(w', before[r])
    requires !IsDelete(u) ==> TipCovered(w', u.localSha)
    ensures forall r :: r in ApplyUpdate(before, remote, u) ==> TipCovered(w', ApplyUpdate(before, remote, u)[r])
  {
    hide TipCovered, IsDelete;
  }

  /** A push that lands nothing loose keeps every remote ref covered. */
  lemma PushKeepsCovered(w: World, step: Step)
    requires SaneWorld(w) && AllCovered(w) && step.Push? && Allowed(w, step) && PushesNothingLoose(w, step)
    ensures AllCovered(After(w, step))
  {
    var w', updates := After(w, step), ParseRefUpdates(step.stdin).value;
    AcceptedEach(w, step);
    hide SaneWorld, Covered, TipCovered, Truthful, ReportsTip, Judge, Safe, ScannedClean, IsDelete, ParseRefUpdates;
    hide ScanAccepts, Accepts, Published;
    forall r | r in w.remotes
      ensures TipCovered(w', w.remotes[r])
    {
      StillCovered(w, w', w.remotes[r]);
    }
    forall i | 0 <= i < |updates| && i in step.landed && !IsDelete(updates[i])
      ensures TipCovered(w', updates[i].localSha)
    {
      AcceptedTipCovered(w, step.remote, step.listed, updates[i], step.answers[i], w');
    }
    UpdatesCovered(w, step.remote, updates, step.landed, w');
  }

  /** What an allowed push says of each of its updates. */
  lemma AcceptedEach(w: World, step: Step)
    requires step.Push? && Allowed(w, step)
    ensures var updates := ParseRefUpdates(step.stdin).value;
      && |step.answers| == |updates| && step.listed <= Published(w.clone)
      && forall i :: 0 <= i < |updates| ==>
           && Accepts(Judge(updates[i], step.listed, step.answers[i]))
           && Truthful(w.clone, updates[i], step.answers[i]) && ReportsTip(w, step.remote, updates[i])
           && ScannedClean(w.clone, step.listed, updates[i], step.answers[i])
              <= ClearedBy(w, step.listed, updates, step.answers)
  {
    hide ParseRefUpdates, Truthful, ReportsTip, Judge, ScannedClean, Published;
  }

  lemma StepKeepsCovered(w: World, step: Step)
    requires SaneWorld(w) && AllCovered(w) && Allowed(w, step) && PushesNothingLoose(w, step)
    ensures SaneWorld(After(w, step)) && AllCovered(After(w, step))
  {
    var w' := After(w, step);
    if step.Push? {
      PushKeepsCovered(w, step);
    } else {
      hide TipCovered, ParseRefUpdates, WellFormed;
      forall r | r in w'.remotes
        ensures TipCovered(w', w'.remotes[r])
      {
        StillCovered(w, w', w.remotes[r]);
      }
    }
  }

  /**
   Over every run of pushes the hook accepts and that push nothing loose, with
   refs/remotes/origin/main only growing and tags and branches coming and going: every
   tree and blob reachable from a remote ref is reachable from origin/main or belongs
   to a commit that was in a range scanned clean.
   */
  lemma {:induction false} RunKeepsCovered(w: World, steps: seq<Step>)
    requires SaneWorld(w) && AllCovered(w) && IsRun(w, steps) && RunPushesNothingLoose(w, steps)
    ensures AllCovered(Final(w, steps))
    decreases |steps|
  {
    if steps != [] {
      StepKeepsCovered(w, steps[0]);
      RunKeepsCovered(After(w, steps[0]), steps[1..]);
    }
  }

  /** A tip with a commit in its history is a commit or a tag of one. */
  lemma HistoryNeedsCommit(objs: Objects, tip: Id)
    requires WellFormed(objs) && !Commitish(objs, tip)
    ensures History(objs, tip) == {}
  {
    if c :| c in History(objs, tip) {
      var p: seq<Id> :| WalkFromTo(HistoryLinks(objs), p, tip, c);
      FirstCommit(objs, p);
    }
  }

  lemma {:induction false} FirstCommit(objs: Objects, p: seq<Id>)
    requires WellFormed(objs)
    requires IsWalk(HistoryLinks(objs), p) && p[|p| - 1] in objs && objs[p[|p| - 1]].Commit?
    ensures Commitish(objs, p[0])
    decreases |p|
  {
    if |p| == 1 || (p[0] in objs && objs[p[0]].Commit?) {
      ReachRefl(TagLinks(objs), p[0]);
    } else {
      assert Follows(HistoryLinks(objs), p, 0);
      WalkTail(HistoryLinks(objs), p);
      FirstCommit(objs, p[1..]);
      var c :| c in objs && objs[c].Commit? && Reach(TagLinks(objs), p[1], c);
      ReachEdge(TagLinks(objs), p[0], p[1]);
      ReachTrans(TagLinks(objs), p[0], p[1], c);
    }
  }

  /**
   Exactly when acceptance covers what is pushed: the update is safe. The range of a tip
   that is no commit holds none, so it counts as empty; and what a tag or branch called
   `origin/main` reaches is left out of a new ref's range, published or not.
   */
  lemma AcceptedCoveredIff(w: World, remote: string, listed: set<Id>, u: RefUpdate, a: Answers, w': World)
    requires listed <= Published(w.clone)
    requires SaneWorld(w) && AllCovered(w)
    requires Truthful(w.clone, u, a) && ReportsTip(w, remote, u)
    requires Accepts(Judge(u, listed, a)) && !IsDelete(u)
    requires w' == w.(cleared := w.cleared + ScannedClean(w.clone, listed, u, a))
    ensures TipCovered(w', u.localSha) <==> Safe(w, listed, u, a)
  {
    if Safe(w, listed, u, a) {
      AcceptedTipCovered(w, remote, listed, u, a, w');
    } else if !Commitish(w.clone.objs, u.localSha) {
      HistoryNeedsCommit(w.clone.objs, u.localSha);
      assert ScannedClean(w.clone, listed, u, a) == {};
      assert w'.cleared == w.cleared;
      assert w' == w;
    }
  }

  /**
   `origin/main` names nothing outside the history of refs/remotes/origin/main: no such tag or
   branch, or one behind it.
   */
  ghost predicate NamesMain(clone: Clone) {
    clone.shadow.Some? ==>
      && clone.main.Some? && clone.main.value in clone.held
      && History(clone.objs, clone.shadow.value) <= History(clone.objs, clone.main.value)
  }

  /**
   In such a clone an accepted update is covered exactly when its tip is a commit, or a tag of one,
   or covered already.
   */
  lemma NamedMainCoveredIff(w: World, remote: string, listed: set<Id>, u: RefUpdate, a: Answers, w': World)
    requires listed <= Published(w.clone)
    requires SaneWorld(w) && AllCovered(w) && NamesMain(w.clone)
    requires Truthful(w.clone, u, a) && ReportsTip(w, remote, u)
    requires Accepts(Judge(u, listed, a)) && !IsDelete(u)
    requires w' == w.(cleared := w.cleared + ScannedClean(w.clone, listed, u, a))
    ensures TipCovered(w', u.localSha) <==> Commitish(w.clone.objs, u.localSha) || TipCovered(w, u.localSha)
  {
    AcceptedCoveredIff(w, remote, listed, u, a, w');
    if Commitish(w.clone.objs, u.localSha) && JudgedByName(listed, u, a) {
      NameOfMain(w, listed, u, a);
    }
  }

  lemma NameOfMain(w: World, listed: set<Id>, u: RefUpdate, a: Answers)
    requires SaneWorld(w) && NamesMain(w.clone) && Truthful(w.clone, u, a)
    requires JudgedByName(listed, u, a) && Accepts(Judge(u, listed, a)) && !IsDelete(u)
    ensures NameHidesNothing(w, listed, u, a)
  {
    var clone, w' := w.clone, w.(cleared := w.cleared + ScannedClean(w.clone, listed, u, a));
    var objs := clone.objs;
    assert SharesHistory(clone, u.localSha) && Named(clone).value in clone.held;
    NamedIsCommitish(clone, u.localSha);
    hide Truthful, Judge, JudgedByName, SharesHistory, IsDelete, ClosedUnder;
    forall x | IsContent(objs, x) && Reaches(objs, u.localSha, x) && x in ReachedOrNone(objs, Named(clone))
      ensures Covered(w', x)
    {
      if clone.shadow.Some? {
        var c := ContentHasCommit(objs, clone.shadow.value, x);
        HistoryReaches(objs, clone.main.value, c);
        ReachesTrans(objs, clone.main.value, c, x);
      }
      assert x in Published(w'.clone);
    }
  }

  lemma NamedIsCommitish(clone: Clone, tip: Id)
    requires WellFormed(clone.objs) && SharesHistory(clone, tip)
    ensures Commitish(clone.objs, Named(clone).value)
  {
    if !Commitish(clone.objs, Named(clone).value) {
      HistoryNeedsCommit(clone.objs, Named(clone).value);
      assert false;
    }
  }

  /** So where `origin/main` names nothing else, a push of commits, or of covered content, pushes nothing loose. */
  lemma CommitsAreSafe(w: World, step: Step)
    requires SaneWorld(w) && Allowed(w, step) && step.Push? && NamesMain(w.clone)
    requires forall u :: u in ParseRefUpdates(step.stdin).value && !IsDelete(u) ==>
               Commitish(w.clone.objs, u.localSha) || TipCovered(w, u.localSha)
    ensures PushesNothingLoose(w, step)
  {
    AcceptedEach(w, step);
    var updates := ParseRefUpdates(step.stdin).value;
    hide SaneWorld, TipCovered, Truthful, ReportsTip, Judge, IsDelete, ParseRefUpdates, ScannedClean, ClearedBy,
         NamesMain;
    hide ScanAccepts, Accepts, Published, NameHidesNothing, JudgedByName;
    forall i | 0 <= i < |updates| && !IsDelete(updates[i])
      ensures Safe(w, step.listed, updates[i], step.answers[i])
    {
      assert updates[i] in updates;
      if JudgedByName(step.listed, updates[i], step.answers[i]) {
        NameOfMain(w, step.listed, updates[i], step.answers[i]);
      }
    }
  }

  lemma LooseTipAccepted(w: World, listed: set<Id>, u: RefUpdate, a: Answers)
    requires SaneWorld(w) && Faithful(w.clone, u, a)
    requires IsObjectId(u.localSha) && IsObjectId(u.remoteSha)
    requires Resolves(w.clone, u.localSha, Old(u)) && !Commitish(w.clone.objs, u.localSha)
    ensures Accepts(Judge(u, listed, a))
    ensures ScannedClean(w.clone, listed, u, a) == {}
  {
    HistoryNeedsCommit(w.clone.objs, u.localSha);
  }

  /** A sha that is no object id, or that this clone does not hold, is never accepted as an empty range. */
  lemma UnresolvedRefused(w: World, listed: set<Id>, u: RefUpdate, a: Answers)
    requires Truthful(w.clone, u, a) && !IsDelete(u)
    requires !IsObjectId(u.localSha) || !IsObjectId(u.remoteSha) || !Resolves(w.clone, u.localSha, Old(u))
    ensures !Accepts(Judge(u, listed, a))
  {
  }
}
