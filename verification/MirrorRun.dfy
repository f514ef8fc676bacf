/**
 One run over every package mirror: the workspace version, provenance, whether each
 repository exists, then the missing ones created when asked to, then one sync each.
 */
module MirrorRun {
  import opened GitObjects
  import opened PushAdmission
  import opened Mirror
  import opened Options

  /** What reading `deno.jsonc` gives: an error, no version, or the version. */
  datatype Workspace = Unreadable | NoVersion | Version(version: string)

  /**
   What `inspect` learns: no tree at the release (a throw), or the repository is there, is not, or
   could not be told.
   */
  datatype Inspection = NoTree | There | Missing | Unknown

  datatype Outcome = Threw | Finished(ok: bool)

  /** One package: its tree at the release, its mirror, and what gh and git answer about it. */
  datatype Package = Package(tree: Id, remote: MirrorRemote, seen: Inspection, created: bool, answers: SyncAnswers)

  datatype Flags = Flags(dryRun: bool, create: bool, flatten: bool)

  /** Each package has a mirror of its own; a repository that is not there has no refs. */
  ghost predicate Mirrors(objs: Objects, packages: seq<Package>, flags: Flags)
    reads set p | p in packages :: p.remote
  {
    && (forall i, j :: 0 <= i < j < |packages| ==> packages[i].remote != packages[j].remote)
    && forall p :: p in packages ==>
         && (p.seen == Missing ==> p.remote.refs == map[])
         && (HEAD_REF in p.remote.refs ==> p.remote.refs[HEAD_REF] in objs && objs[p.remote.refs[HEAD_REF]].Commit?)
         && CommitTreeIs(objs, Lookup(p.remote.refs, HEAD_REF), p.tree, flags.flatten, p.answers.made)
  }

  /** The mirror's branch and version tag name one commit of the package's release tree. */
  ghost predicate AtRelease(objs: Objects, p: Package, version: string, flags: Flags)
    reads p.remote
  {
    AlreadyAt(objs, p.remote.refs, p.tree, version, flags.flatten)
  }

  /** A repository to sync: it was there, or this run created it. */
  predicate Exists(p: Package, flags: Flags) {
    p.seen == There || (p.seen == Missing && flags.create && !flags.dryRun && p.created)
  }

  /** The workspace names a version, and some commit has its provenance. */
  ghost predicate Proven(workspace: Workspace, a: ProvenanceAnswers) {
    workspace.Version? && exists c :: Provenance(a, workspace.version, c)
  }

  /** The first package whose inspection stops the run, if any. */
  function FirstStop(packages: seq<Package>): Option<Inspection> {
    if packages == [] then None
    else if packages[0].seen == NoTree || packages[0].seen == Unknown then Some(packages[0].seen)
    else FirstStop(packages[1..])
  }

  /** The run gets to its first change: everything before it went well. */
  ghost predicate Starts(workspace: Workspace, a: ProvenanceAnswers, listed: bool, packages: seq<Package>) {
    Proven(workspace, a) && listed && FirstStop(packages) == None
  }

  /** No creation the run asks for fails. */
  predicate CreationsPass(packages: seq<Package>, flags: Flags) {
    flags.create && !flags.dryRun ==> forall p :: p in packages && p.seen == Missing ==> p.created
  }

  /** The sync of the package, from where its mirror is now, succeeds. */
  ghost predicate SyncWorks(objs: Objects, p: Package, version: string, flags: Flags)
    reads p.remote
  {
    SyncPasses(objs, p.remote.refs, p.tree, version, flags.dryRun, flags.flatten, p.answers)
  }

  /** Every sync that is reached succeeds. */
  ghost predicate SyncsPass(objs: Objects, version: string, packages: seq<Package>, flags: Flags)
    reads set p | p in packages :: p.remote
  {
    forall p :: p in packages && Exists(p, flags) ==> SyncWorks(objs, p, version, flags)
  }

  /** `mirrorPackages` */
  method MirrorPackages(objs: Objects, workspace: Workspace, a: ProvenanceAnswers, listed: bool, packages: seq<Package>,
                        flags: Flags) returns (outcome: Outcome)
    requires Mirrors(objs, packages, flags)
    modifies set p | p in packages :: p.remote
    // It throws on an unreadable workspace, and behind a good provenance on a missing listing or package tree.
    ensures outcome == Threw <==>
              workspace.Unreadable? || (Proven(workspace, a) && (!listed || FirstStop(packages) == Some(NoTree)))
    // Before it starts, and in a dry run, it touches no mirror; nor does it touch one that is not there.
    ensures outcome == Finished(true) ==> Starts(workspace, a, listed, packages)
    ensures !Starts(workspace, a, listed, packages) || flags.dryRun ==>
              forall p :: p in packages ==> p.remote.refs == old(p.remote.refs)
    ensures forall p :: p in packages && !Exists(p, flags) ==> p.remote.refs == old(p.remote.refs)
    // A good real run leaves every existing mirror at the release ...
    ensures outcome == Finished(true) && !flags.dryRun ==>
              forall p :: p in packages && Exists(p, flags) ==> AtRelease(objs, p, workspace.version, flags)
    // ... and so every mirror at all, exactly when none was missing or the run was to create them.
    ensures outcome == Finished(true) && !flags.dryRun ==>
              ((forall p :: p in packages ==> AtRelease(objs, p, workspace.version, flags)) <==>
               (flags.create || forall p :: p in packages ==> p.seen == There))
    // It succeeds exactly when it starts, and no creation and no sync that it asks for fails.
    ensures outcome == Finished(true) <==>
              && Starts(workspace, a, listed, packages) && CreationsPass(packages, flags)
              && old(SyncsPass(objs, workspace.version, packages, flags))
  {
    hide AlreadyAt, Provenance, SyncPasses;
    if workspace.Unreadable? {
      return Threw;
    }
    if workspace.NoVersion? {
      return Finished(false);
    }
    var release := CheckProvenance(a, workspace.version);
    if release.None? {
      return Finished(false);
    }
    if !listed {
      return Threw;
    }
    var stop := InspectAll(packages);
    if stop.Some? {
      return if stop.value == NoTree then Threw else Finished(false);
    }
    NoStop(packages);
    var ok, exist := CreateMissing(packages, flags);
    var failed := SyncAll(objs, workspace.version, packages, flags, exist);
    outcome := Finished(ok && failed == 0);
    forall p | p in packages && !Exists(p, flags)
      ensures !AtRelease(objs, p, workspace.version, flags)
    {
      NothingThere(objs, p, workspace.version, flags);
    }
  }

  /** The inspection loop. */
  method InspectAll(packages: seq<Package>) returns (stop: Option<Inspection>)
    ensures stop == FirstStop(packages)
  {
    assert packages[0..] == packages;
    for i := 0 to |packages|
      invariant FirstStop(packages) == FirstStop(packages[i..])
    {
      assert packages[i..][1..] == packages[i + 1..];
      if packages[i].seen == NoTree || packages[i].seen == Unknown {
        return Some(packages[i].seen);
      }
    }
    stop := None;
  }

  lemma {:induction false} NoStop(packages: seq<Package>)
    ensures FirstStop(packages) == None <==> forall p :: p in packages ==> p.seen == There || p.seen == Missing
  {
    if packages != [] {
      assert packages == [packages[0]] + packages[1..];
      NoStop(packages[1..]);
    }
  }

  /**
   One package whose repository is missing, and a run that was not asked to create it:
   the run succeeds, and the mirror is not at the release.
   */
  method MissingMirrorPasses(objs: Objects, version: string, a: ProvenanceAnswers, release: Id, tree: Id,
                             answers: SyncAnswers)
    returns (outcome: Outcome, p: Package)
    requires Provenance(a, version, release)
    requires CommitTreeIs(objs, None, tree, false, answers.made)
    ensures p.tree == tree && p.seen == Missing
    ensures outcome == Finished(true) && !AtRelease(objs, p, version, Flags(false, false, false))
  {
    var remote := new MirrorRemote();
    var flags := Flags(false, false, false);
    p := Package(tree, remote, Missing, false, answers);
    hide Provenance, CommitTreeIs;
    assert [p][0] == p && [p][1..] == [];
    assert FirstStop([p]) == None;
    outcome := MirrorPackages(objs, Version(version), a, true, [p], flags);
    assert p in [p];
    NothingThere(objs, p, version, flags);
  }

  /** A repository with no refs is at no release. */
  lemma NothingThere(objs: Objects, p: Package, version: string, flags: Flags)
    requires p.remote.refs == map[]
    ensures !AtRelease(objs, p, version, flags)
  {
  }

  /** The creation loop: which repositories are there when it is done. */
  method CreateMissing(packages: seq<Package>, flags: Flags) returns (ok: bool, exist: seq<bool>)
    requires forall p :: p in packages ==> p.seen == There || p.seen == Missing
    ensures |exist| == |packages| && forall i :: 0 <= i < |packages| ==> (exist[i] <==> Exists(packages[i], flags))
    ensures ok <==> CreationsPass(packages, flags)
  {
    ok := true;
    exist := seq(|packages|, i requires 0 <= i < |packages| => packages[i].seen == There);
    if !flags.create || flags.dryRun {
      return;
    }
    for i := 0 to |packages|
      invariant |exist| == |packages|
      invariant forall j :: 0 <= j < i ==> (exist[j] <==> Exists(packages[j], flags))
      invariant forall j :: i <= j < |packages| ==> (exist[j] <==> packages[j].seen == There)
      invariant ok <==> forall j :: 0 <= j < i && packages[j].seen == Missing ==> packages[j].created
    {
      if exist[i] {
        continue;
      }
      if packages[i].created {
        exist := exist[i := true];
      } else {
        ok := false;
      }
    }
  }

  /** The sync loop. */
  method SyncAll(objs: Objects, version: string, packages: seq<Package>, flags: Flags, exist: seq<bool>)
    returns (failed: nat)
    requires Mirrors(objs, packages, flags)
    requires |exist| == |packages| && forall i :: 0 <= i < |packages| ==> (exist[i] <==> Exists(packages[i], flags))
    modifies set p | p in packages :: p.remote
    ensures forall p :: p in packages && (flags.dryRun || !Exists(p, flags)) ==> p.remote.refs == old(p.remote.refs)
    ensures failed == 0 && !flags.dryRun ==>
              forall p :: p in packages && Exists(p, flags) ==> AtRelease(objs, p, version, flags)
    ensures failed == 0 <==> old(SyncsPass(objs, version, packages, flags))
  {
    hide AlreadyAt, SyncPasses, CommitTreeIs;
    failed := 0;
    for i := 0 to |packages|
      invariant forall j :: i <= j < |packages| ==> packages[j].remote.refs == old(packages[j].remote.refs)
      invariant forall j :: 0 <= j < i && (flags.dryRun || !exist[j]) ==>
                packages[j].remote.refs == old(packages[j].remote.refs)
      invariant failed == 0 && !flags.dryRun ==>
                  forall j :: 0 <= j < i && exist[j] ==> AtRelease(objs, packages[j], version, flags)
      invariant failed == 0 <==>
                  forall j :: 0 <= j < i && exist[j] ==> old(SyncWorks(objs, packages[j], version, flags))
    {
      var p := packages[i];
      assert p in packages;
      if !exist[i] {
        continue;
      }
      var ok := SyncOne(objs, p, version, flags);
      if !ok {
        failed := failed + 1;
      }
    }
  }

  method SyncOne(objs: Objects, p: Package, version: string, flags: Flags) returns (ok: bool)
    requires CommitTreeIs(objs, Lookup(p.remote.refs, HEAD_REF), p.tree, flags.flatten, p.answers.made)
    requires HEAD_REF in p.remote.refs ==> p.remote.refs[HEAD_REF] in objs && objs[p.remote.refs[HEAD_REF]].Commit?
    modifies p.remote
    ensures flags.dryRun ==> p.remote.refs == old(p.remote.refs)
    ensures ok && !flags.dryRun ==> AtRelease(objs, p, version, flags)
    ensures ok <==> old(SyncWorks(objs, p, version, flags))
  {
    var pushes, commit;
    ok, pushes, commit := SyncMirror(objs, p.remote, p.tree, version, flags.dryRun, flags.flatten, p.answers);
  }
}
