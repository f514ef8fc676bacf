/**
 The cached install of a pinned binary: a cache entry is the binary and a sidecar
 with its hash, changed one file step at a time by runs that may stop anywhere.
 */
module GitleaksInstall {
  import opened Options
  import opened Strings

  type Bytes = seq<bv8>

  datatype File = File(bytes: Bytes, executable: bool)

  /** The hash in hex, what extraction yields from a tarball, and the pinned hash. */
  datatype Env = Env(hash: Bytes -> string, extract: Bytes -> Option<Bytes>, expected: string)

  /** A collision-free hash in a form without spaces, of which no value is the start of another. */
  ghost predicate GoodHash(env: Env) {
    && (forall a, b :: env.hash(a) <= env.hash(b) ==> a == b)
    && (forall a :: env.hash(a) != "" && forall c :: c in env.hash(a) ==> !IsSpace(c))
  }

  /** The bytes are the extraction of a tarball that has the pinned hash. */
  ghost predicate Genuine(env: Env, bytes: Bytes) {
    exists tarball :: env.hash(tarball) == env.expected && env.extract(tarball) == Some(bytes)
  }

  lemma GenuineIsUnique(env: Env, a: Bytes, b: Bytes)
    requires GoodHash(env) && Genuine(env, a) && Genuine(env, b)
    ensures a == b
  {
    var s :| env.hash(s) == env.expected && env.extract(s) == Some(a);
    var t :| env.hash(t) == env.expected && env.extract(t) == Some(b);
    assert s == t;
  }

  /** A sidecar that spells the hash of some bytes spells the hash of genuine bytes. */
  ghost predicate Trustworthy(env: Env, sidecar: Option<string>) {
    sidecar.Some? ==> forall b :: Trim(sidecar.value) == env.hash(b) ==> Genuine(env, b)
  }

  /** Where a run stops: in front of a step, in the middle of the sidecar write, or nowhere. */
  datatype Stop = Never | Before(step: nat) | TornSidecar(written: nat)

  /**
   What one run meets: which steps fail, what the download yields, what a failed extraction
   leaves, and whether a file is executable once its mode was set.
   */
  datatype Plan = Plan(stop: Stop, removesBinary: bool, removesSidecar: bool, download: Option<Bytes>,
                       prepares: bool, leftover: Option<File>, chmods: bool, executes: bool)

  datatype Outcome = Path | Failed | Stopped

  /** A binary that is executable and whose hash the sidecar records. */
  ghost predicate IsHit(env: Env, binary: Option<File>, sidecar: Option<string>) {
    && binary.Some? && binary.value.executable
    && sidecar.Some? && Trim(sidecar.value) != "" && Trim(sidecar.value) == env.hash(binary.value.bytes)
  }

  /** The run gets a tarball with the pinned hash, and a place to unpack it. */
  ghost predicate Downloads(env: Env, plan: Plan) {
    plan.download.Some? && env.hash(plan.download.value) == env.expected && plan.prepares
  }

  /** It also gets the binary out of it and its mode set. */
  ghost predicate Unpacks(env: Env, plan: Plan) {
    Downloads(env, plan) && env.extract(plan.download.value).Some? && plan.chmods
  }

  /** The sidecar write is cut off: it is longer than what got written. */
  ghost predicate Torn(env: Env, plan: Plan)
    requires Unpacks(env, plan)
  {
    plan.stop.TornSidecar?
    && plan.stop.written <= |SidecarText(env.hash(env.extract(plan.download.value).value))|
  }

  /** Nothing stops the run before its last step. */
  ghost predicate RunsOn(env: Env, plan: Plan)
    requires Unpacks(env, plan)
  {
    plan.executes && !Torn(env, plan) && !(plan.stop.Before? && 1 <= plan.stop.step <= 6)
  }

  /** A removal that works leaves nothing. */
  function Removed<T>(removes: bool, found: Option<T>): Option<T> {
    if removes then None else found
  }

  /**
   What a run that fails leaves: nothing it found but what could not be removed, what a
   failed extraction left, or the new binary, not executable.
   */
  ghost predicate FailedLeaves(env: Env, plan: Plan, binary: Option<File>, sidecar: Option<string>,
                               binary': Option<File>, sidecar': Option<string>)
  {
    if Unpacks(env, plan) then
      var bytes := env.extract(plan.download.value).value;
      !plan.executes && binary' == Some(File(bytes, false)) && sidecar' == Some(SidecarText(env.hash(bytes)))
    else
      && sidecar' == Removed(plan.removesSidecar, sidecar)
      && binary' == if !Downloads(env, plan) then Removed(plan.removesBinary, binary)
                    else
                      match env.extract(plan.download.value)
                      case None => plan.leftover
                      case Some(bytes) => Some(File(bytes, false))
  }

  /** What a run that is stopped leaves: what the steps in front of it made of what it found. */
  ghost predicate StoppedLeaves(env: Env, plan: Plan, binary: Option<File>, sidecar: Option<string>,
                                binary': Option<File>, sidecar': Option<string>)
  {
    match plan.stop
    case Never => false
    case TornSidecar(written) =>
      && Unpacks(env, plan)
      && var bytes := env.extract(plan.download.value).value;
         && written <= |SidecarText(env.hash(bytes))|
         && binary' == Some(File(bytes, plan.executes))
         && sidecar' == Some(SidecarText(env.hash(bytes))[..written])
    case Before(step) =>
      && 1 <= step <= 6
      && sidecar' == (if step <= 2 then sidecar else Removed(plan.removesSidecar, sidecar))
      && if step == 1 then binary' == binary
         else if step <= 3 then binary' == Removed(plan.removesBinary, binary)
         else if step == 4 then Downloads(env, plan) && binary' == plan.leftover
         else
           && Downloads(env, plan) && env.extract(plan.download.value).Some?
           && binary' == Some(File(env.extract(plan.download.value).value, step == 6 && plan.executes))
  }

  /** `${hash}\n` */
  function SidecarText(hash: string): string {
    hash + "\n"
  }

  lemma SidecarReadsBack(env: Env, bytes: Bytes)
    requires GoodHash(env)
    ensures Trim(SidecarText(env.hash(bytes))) == env.hash(bytes)
  {
    var h := env.hash(bytes);
    assert h[0] in h && h[|h| - 1] in h;
    assert TrimStart(h + "\n") == h + "\n";
    assert (h + "\n")[..|h|] == h;
    assert IsSpace('\n');
    assert TrimEnd(h + "\n") == TrimEnd(h) == h;
  }

  /** A torn sidecar either spells no hash at all or the whole of the one being written. */
  lemma TornIsTrustworthy(env: Env, bytes: Bytes, written: nat)
    requires GoodHash(env) && Genuine(env, bytes) && written <= |SidecarText(env.hash(bytes))|
    ensures Trustworthy(env, Some(SidecarText(env.hash(bytes))[..written]))
  {
    var h := env.hash(bytes);
    var text := SidecarText(h)[..written];
    SidecarReadsBack(env, bytes);
    if written <= |h| {
      assert text == h[..written];
      assert written > 0 ==> text[0] in h && text[written - 1] in h;
      TrimNothing(text);
      assert text <= h;
    } else {
      assert text == SidecarText(h);
    }
  }

  lemma ExtractedIsGenuine(env: Env, tarball: Bytes, bytes: Bytes)
    requires env.hash(tarball) == env.expected && env.extract(tarball) == Some(bytes)
    ensures Genuine(env, bytes)
  {
  }

  lemma RecordedIsHit(env: Env, file: File)
    requires GoodHash(env) && file.executable
    ensures IsHit(env, Some(file), Some(SidecarText(env.hash(file.bytes))))
  {
    SidecarReadsBack(env, file.bytes);
  }

  /** What a trustworthy sidecar records is genuine. */
  lemma HitIsGenuine(env: Env, binary: Option<File>, sidecar: Option<string>)
    requires Trustworthy(env, sidecar) && IsHit(env, binary, sidecar)
    ensures Genuine(env, binary.value.bytes)
  {
  }

  class CacheEntry {
    var binary: Option<File>
    var sidecar: Option<string>

    constructor ()
      ensures binary == None && sidecar == None
    {
      binary, sidecar := None, None;
    }

    /** `isValidCacheHit`: present, matching its recorded hash, and executable. */
    method IsValidCacheHit(env: Env) returns (hit: bool)
      ensures hit <==> IsHit(env, binary, sidecar)
    {
      if binary.None? {
        return false;
      }
      if sidecar.None? || Trim(sidecar.value) == "" {
        return false;
      }
      if env.hash(binary.value.bytes) != Trim(sidecar.value) {
        return false;
      }
      hit := binary.value.executable;
    }

    /**
     `install`, stopped anywhere. Whatever it finds and wherever it stops, the sidecar
     stays trustworthy; a returned path holds the genuine binary, executable and
     recorded. A path is returned exactly for a valid entry, which is left as it is, or
     when nothing fails. A run that fails has removed what it found, but for what could
     not be removed, and records nothing.
     */
    method Install(env: Env, plan: Plan) returns (outcome: Outcome)
      requires GoodHash(env) && Trustworthy(env, sidecar)
      modifies this
      ensures Trustworthy(env, sidecar)
      ensures outcome.Path? ==>
        IsHit(env, binary, sidecar) && Genuine(env, binary.value.bytes)
      ensures old(IsHit(env, binary, sidecar)) ==>
                outcome.Path? && binary == old(binary) && sidecar == old(sidecar)
      ensures outcome.Path? <==>
                old(IsHit(env, binary, sidecar)) || (Unpacks(env, plan) && RunsOn(env, plan))
      ensures outcome.Failed? ==> FailedLeaves(env, plan, old(binary), old(sidecar), binary, sidecar)
      ensures outcome.Stopped? ==> StoppedLeaves(env, plan, old(binary), old(sidecar), binary, sidecar)
    {
      hide GoodHash, Trustworthy, Genuine, IsHit, Trim, SidecarText;
      NoSidecar(env);
      var hit := IsValidCacheHit(env);
      if hit {
        HitIsGenuine(env, binary, sidecar);
        return Path;
      }
      if plan.stop == Before(1) {
        return Stopped;
      }
      if plan.removesBinary {
        binary := None;
      }
      if plan.stop == Before(2) {
        return Stopped;
      }
      if plan.removesSidecar {
        sidecar := None;
      }
      if plan.stop == Before(3) {
        return Stopped;
      }
      if plan.download.None? {
        return Failed;
      }
      var tarball := plan.download.value;
      if env.hash(tarball) != env.expected {
        return Failed;
      }
      if !plan.prepares {
        return Failed;
      }
      var extracted := env.extract(tarball);
      if extracted.None? || plan.stop == Before(4) {
        binary := plan.leftover;
        return if extracted.None? then Failed else Stopped;
      }
      binary := Some(File(extracted.value, false));
      if plan.stop == Before(5) {
        return Stopped;
      }
      if !plan.chmods {
        return Failed;
      }
      binary := Some(File(binary.value.bytes, plan.executes));
      if plan.stop == Before(6) {
        return Stopped;
      }
      ExtractedIsGenuine(env, tarball, extracted.value);
      var text := SidecarText(env.hash(binary.value.bytes));
      if plan.stop.TornSidecar? && plan.stop.written <= |text| {
        TornIsTrustworthy(env, binary.value.bytes, plan.stop.written);
        sidecar := Some(text[..plan.stop.written]);
        return Stopped;
      }
      TornIsTrustworthy(env, binary.value.bytes, |text|);
      assert text[..|text|] == text;
      sidecar := Some(text);
      if binary.value.executable {
        RecordedIsHit(env, binary.value);
      }
      if !binary.value.executable {
        return Failed;
      }
      outcome := Path;
    }

    /** Runs in sequence, each after anything at all has happened to the binary (but not to the sidecar). */
    method Runs(env: Env, found: seq<Option<File>>, plans: seq<Plan>)
      returns (outcomes: seq<Outcome>, ghost binaries: seq<Option<File>>)
      requires GoodHash(env) && sidecar == None && |found| == |plans|
      modifies this
      ensures |outcomes| == |plans| && |binaries| == |plans|
      ensures forall i :: 0 <= i < |plans| && outcomes[i].Path? ==>
                binaries[i].Some? && binaries[i].value.executable && Genuine(env, binaries[i].value.bytes)
      ensures forall i, j :: 0 <= i < j < |plans| && outcomes[i].Path? && outcomes[j].Path? ==>
                binaries[i] == binaries[j]
      ensures forall i :: 0 <= i < |plans| && outcomes[i].Failed? && !Downloads(env, plans[i]) ==>
                binaries[i] == if plans[i].removesBinary then None else found[i]
      ensures Trustworthy(env, sidecar)
    {
      hide GoodHash, Trustworthy, Genuine;
      outcomes, binaries := [], [];
      NoSidecar(env);
      for n := 0 to |plans|
        invariant Trustworthy(env, sidecar)
        invariant |outcomes| == n && |binaries| == n
        invariant forall i :: 0 <= i < n && outcomes[i].Path? ==>
                    binaries[i].Some? && binaries[i].value.executable && Genuine(env, binaries[i].value.bytes)
        invariant forall i :: 0 <= i < n && outcomes[i].Failed? && !Downloads(env, plans[i]) ==>
                    binaries[i] == if plans[i].removesBinary then None else found[i]
      {
        binary := found[n];
        var outcome := Install(env, plans[n]);
        outcomes := outcomes + [outcome];
        binaries := binaries + [binary];
      }
      forall i, j | 0 <= i < j < |plans| && outcomes[i].Path? && outcomes[j].Path?
        ensures binaries[i] == binaries[j]
      {
        GenuineIsUnique(env, binaries[i].value.bytes, binaries[j].value.bytes);
      }
    }
  }

  lemma NoSidecar(env: Env)
    ensures Trustworthy(env, None)
  {
  }
}
