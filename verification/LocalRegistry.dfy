/**
 The local registry: an append-only store with a one-way seal, and the publish
 handler, which suspends on the uploaded tarball between its checks and its commit.
 */
module LocalRegistry {
  import opened Options
  import opened RegistryPaths
  import opened Strings

  type Bytes = seq<bv8>

  datatype Package = Package(files: map<string, Bytes>, exports: map<string, string>)

  datatype Upload = Upload(version: string, package: Package)

  // ----- Reading the tarball -----

  /** A tar entry: a directory has no content. `size` is what its header declares. */
  datatype TarEntry = TarEntry(path: string, size: nat, content: Option<Bytes>)

  /** The entries a stream yields, and how it ends: in full, over a byte cap, or not a gzipped tar. */
  datatype TarStream = TarStream(entries: seq<TarEntry>, end: StreamEnd)
  datatype StreamEnd = Complete | OverCap | Broken

  datatype Extracted = Files(files: map<string, Bytes>) | TooLarge | Refused

  /** The entry is a file, and its path and declared size are accepted. */
  predicate Acceptable(e: TarEntry, maxFile: nat) {
    e.content.Some? ==> NormaliseTarPath(e.path).Some? && e.size <= maxFile
  }

  predicate StoresAt(e: TarEntry, key: string) {
    e.content.Some? && NormaliseTarPath(e.path) == Some(key)
  }

  /** The bytes of the last entry stored under a key. */
  function LastBytes(entries: seq<TarEntry>, key: string): Option<Bytes> {
    if entries == [] then None
    else if StoresAt(entries[|entries| - 1], key) then entries[|entries| - 1].content
    else LastBytes(entries[..|entries| - 1], key)
  }

  /** The map holds, for every key, the last bytes an entry stored under it, and nothing else. */
  ghost predicate Holds(files: map<string, Bytes>, entries: seq<TarEntry>) {
    forall key :: (if key in files then Some(files[key]) else None) == LastBytes(entries, key)
  }

  /** Entry i is the first one that is not accepted. */
  ghost predicate FirstBad(entries: seq<TarEntry>, maxFile: nat, i: nat) {
    && i < |entries| && !Acceptable(entries[i], maxFile)
    && forall j :: 0 <= j < i ==> Acceptable(entries[j], maxFile)
  }

  /**
   `readTarball`: the file map of a complete acceptable bundle, an error for any other.
   The first bad entry decides which, or else the way the stream ends.
   */
  method ReadTarball(stream: TarStream, maxFile: nat) returns (r: Extracted)
    ensures r.Files? <==> stream.end.Complete? && forall e :: e in stream.entries ==> Acceptable(e, maxFile)
    ensures r.Files? ==> Holds(r.files, stream.entries)
    ensures r.TooLarge? <==>
      || (exists i: nat :: FirstBad(stream.entries, maxFile, i) && NormaliseTarPath(stream.entries[i].path).Some?)
      || (stream.end.OverCap? && forall e :: e in stream.entries ==> Acceptable(e, maxFile))
  {
    hide NormaliseTarPath;
    var files: map<string, Bytes> := map[];
    for i := 0 to |stream.entries|
      invariant forall j :: 0 <= j < i ==> Acceptable(stream.entries[j], maxFile)
      invariant Holds(files, stream.entries[..i])
    {
      var e := stream.entries[i];
      assert stream.entries[..i + 1][..i] == stream.entries[..i];
      if e.content.None? {
        continue;
      }
      var key := NormaliseTarPath(e.path);
      if key.None? {
        assert !Acceptable(e, maxFile);
        assert forall k: nat :: FirstBad(stream.entries, maxFile, k) ==> k == i;
        return Refused;
      }
      if e.size > maxFile {
        assert !Acceptable(e, maxFile) && FirstBad(stream.entries, maxFile, i);
        return TooLarge;
      }
      files := files[key.value := e.content.value];
    }
    assert stream.entries[..|stream.entries|] == stream.entries;
    match stream.end {
      case Complete => r := Files(files);
      case OverCap => r := TooLarge;
      case Broken => r := Refused;
    }
  }

  // ----- The store -----

  /** Per package name, the uploads in order; and whether the store is sealed. */
  datatype Store = Store(packages: map<string, seq<Upload>>, closed: bool)

  function Uploads(s: Store, name: string): seq<Upload> {
    if name in s.packages then s.packages[name] else []
  }

  function FindIn(uploads: seq<Upload>, version: string): Option<Package> {
    if uploads == [] then None
    else if uploads[0].version == version then Some(uploads[0].package)
    else FindIn(uploads[1..], version)
  }

  function Find(s: Store, name: string, version: string): Option<Package> {
    FindIn(Uploads(s, name), version)
  }

  /** What `add` does, or None where it throws. */
  function Added(s: Store, name: string, version: string, package: Package): Option<Store> {
    if s.closed || Find(s, name, version).Some? then None
    else Some(s.(packages := s.packages[name := Uploads(s, name) + [Upload(version, package)]]))
  }

  /** `LocalJsrStore` */
  class LocalJsrStore {
    var packages: map<string, seq<Upload>>
    var closed: bool

    constructor ()
      ensures View() == Store(map[], false)
    {
      packages, closed := map[], false;
    }

    function View(): Store
      reads this
    {
      Store(packages, closed)
    }

    method Seal()
      modifies this
      ensures View() == old(View()).(closed := true)
    {
      closed := true;
    }

    method Add(name: string, version: string, package: Package) returns (added: bool)
      modifies this
      ensures added <==> Added(old(View()), name, version, package).Some?
      ensures View() == if added then Added(old(View()), name, version, package).value else old(View())
    {
      if closed {
        return false;
      }
      var present := Get(name, version);
      if present.Some? {
        return false;
      }
      hide FindIn;
      var versions := if name in packages then packages[name] else [];
      packages := packages[name := versions + [Upload(version, package)]];
      added := true;
    }

    method Get(name: string, version: string) returns (package: Option<Package>)
      ensures package == Find(View(), name, version)
    {
      var versions := if name in packages then packages[name] else [];
      hide FindIn;
      var i := 0;
      assert versions[0..] == versions;
      while i < |versions|
        invariant 0 <= i <= |versions|
        invariant FindIn(versions, version) == FindIn(versions[i..], version)
      {
        FindNext(versions, i, version);
        if versions[i].version == version {
          return Some(versions[i].package);
        }
        i := i + 1;
      }
      NothingFound(versions[i..], version);
      package := None;
    }
  }

  lemma FindNext(uploads: seq<Upload>, i: nat, version: string)
    requires i < |uploads|
    ensures FindIn(uploads[i..], version)
         == if uploads[i].version == version then Some(uploads[i].package) else FindIn(uploads[i + 1..], version)
  {
    assert uploads[i..][1..] == uploads[i + 1..];
  }

  lemma NothingFound(uploads: seq<Upload>, version: string)
    requires uploads == []
    ensures FindIn(uploads, version) == None
  {
  }

  lemma {:induction false} FindAppended(uploads: seq<Upload>, more: Upload, version: string)
    ensures FindIn(uploads + [more], version)
         == if FindIn(uploads, version).Some? then FindIn(uploads, version)
            else if more.version == version then Some(more.package) else None
  {
    if uploads == [] {
      assert uploads + [more] == [more];
    } else {
      FindAppended(uploads[1..], more, version);
      assert (uploads + [more])[1..] == uploads[1..] + [more];
    }
  }

  /** Adding stores the upload and leaves every other lookup as it was. */
  lemma AddedFinds(s: Store, name: string, version: string, package: Package)
    requires Added(s, name, version, package).Some?
    ensures var t := Added(s, name, version, package).value;
      && !t.closed
      && forall n, v :: Find(t, n, v) == if n == name && v == version then Some(package) else Find(s, n, v)
  {
    var t := Added(s, name, version, package).value;
    forall n, v
      ensures Find(t, n, v) == if n == name && v == version then Some(package) else Find(s, n, v)
    {
      FindAppended(Uploads(s, name), Upload(version, package), v);
    }
  }

  // ----- The handler -----

  datatype Limits = Limits(maxCompressed: nat, maxFile: nat)

  /** A publish request up to its body. */
  datatype Request = Request(authorized: bool, scope: string, name: string, version: string,
                             hasBody: bool, declared: nat, configPath: string)

  /** A publish suspended on its tarball. */
  datatype Pending = Pending(name: string, version: string, configPath: string)

  /** The `exports` of a config: none, one path, or a table in which None is no string. */
  datatype ExportsField = NoExports | OnePath(path: string) | Table(entries: map<string, Option<string>>)

  /** The parser of config files: None for bytes that are not JSONC. */
  type ConfigParser = Bytes -> Option<ExportsField>

  /** `readExports`: the string exports. */
  function ReadExports(field: ExportsField): map<string, string> {
    match field
    case NoExports => map[]
    case OnePath(path) => map["." := path]
    case Table(entries) => map key | key in entries && entries[key].Some? :: entries[key].value
  }

  datatype Response =
    | PublishingClosed | Unauthorized | ScopeNotAllowed | InvalidPackage | VersionAlreadyExists
    | MissingTarball | DeclaredTooLarge | TarballTooLarge | InvalidTarball | InvalidConfig | MissingExports
    | ServerError               // `add` threw after the checks had passed
    | Accepted(id: string)

  datatype Registry = Registry(store: Store, statuses: map<string, (string, string)>, pending: map<nat, Pending>)

  /** The checks before the body is read: a refusal, or the upload to wait for. */
  function Admit(s: Store, q: Request, limits: Limits): (r: (Option<Response>, Option<Pending>))
    ensures r.0.Some? <==> r.1.None?
  {
    if s.closed then (Some(PublishingClosed), None)
    else if !q.authorized then (Some(Unauthorized), None)
    else if q.scope != SCOPE then (Some(ScopeNotAllowed), None)
    else if !IsName(q.name) || !IsVersion(q.version) then (Some(InvalidPackage), None)
    else if Find(s, q.name, q.version).Some? then (Some(VersionAlreadyExists), None)
    else if !q.hasBody then (Some(MissingTarball), None)
    else if q.declared > limits.maxCompressed then (Some(DeclaredTooLarge), None)
    else (None, Some(Pending(q.name, q.version, q.configPath)))
  }

  /** The package a tarball makes, or the refusal. */
  datatype Bundled = Made(package: Package) | Unusable(response: Response)

  function Bundle(p: Pending, extracted: Extracted, parse: ConfigParser): Bundled {
    match extracted
    case TooLarge => Unusable(TarballTooLarge)
    case Refused => Unusable(InvalidTarball)
    case Files(files) =>
      var field := if p.configPath in files then parse(files[p.configPath]) else Some(NoExports);
      if field.None? then Unusable(InvalidConfig)
      else if ReadExports(field.value) == map[] then Unusable(MissingExports)
      else Made(Package(files, ReadExports(field.value)))
  }

  /** One scheduling step of the server: start an upload, resume one, or seal. */
  datatype Event =
    | Begin(ticket: nat, request: Request)
    | Resume(ticket: nat, extracted: Extracted, parse: ConfigParser, id: string)
    | SealStore

  /** The registry after an event, and the response it sends, if it sends one. */
  function Step(r: Registry, e: Event, limits: Limits): (Registry, Option<Response>) {
    match e
    case SealStore => (r.(store := r.store.(closed := true)), None)
    case Begin(ticket, request) =>
      if ticket in r.pending then (r, None)
      else
        var (refusal, waiting) := Admit(r.store, request, limits);
        if waiting.Some? then (r.(pending := r.pending[ticket := waiting.value]), None) else (r, refusal)
    case Resume(ticket, extracted, parse, id) =>
      if ticket !in r.pending then (r, None)
      else
        var p := r.pending[ticket];
        var rest := r.(pending := r.pending - {ticket});
        match Bundle(p, extracted, parse)
        case Unusable(refusal) => (rest, Some(refusal))
        case Made(package) =>
          var store := Added(r.store, p.name, p.version, package);
          if store.None? then (rest, Some(ServerError))
          else (rest.(store := store.value, statuses := r.statuses[id := (p.name, p.version)]), Some(Accepted(id)))
  }

  /** The publish half of `createLocalJsrHandler`, over the store it was given. */
  class Handler {
    const store: LocalJsrStore
    const limits: Limits
    var statuses: map<string, (string, string)>
    var pending: map<nat, Pending>

    constructor (store: LocalJsrStore, limits: Limits)
      ensures this.store == store && this.limits == limits && statuses == map[] && pending == map[]
    {
      this.store, this.limits := store, limits;
      statuses, pending := map[], map[];
    }

    function View(): Registry
      reads this, store
    {
      Registry(store.View(), statuses, pending)
    }

    /** `publish` up to its `await readTarball`. */
    method BeginPublish(ticket: nat, q: Request) returns (response: Option<Response>)
      requires ticket !in pending
      modifies this
      ensures (View(), response) == Step(old(View()), Begin(ticket, q), limits)
    {
      hide IsName, IsVersion, Find;
      if store.closed {
        return Some(PublishingClosed);
      }
      if !q.authorized {
        return Some(Unauthorized);
      }
      if q.scope != SCOPE {
        return Some(ScopeNotAllowed);
      }
      if !IsName(q.name) || !IsVersion(q.version) {
        return Some(InvalidPackage);
      }
      var present := store.Get(q.name, q.version);
      if present.Some? {
        return Some(VersionAlreadyExists);
      }
      if !q.hasBody {
        return Some(MissingTarball);
      }
      if q.declared > limits.maxCompressed {
        return Some(DeclaredTooLarge);
      }
      pending := pending[ticket := Pending(q.name, q.version, q.configPath)];
      response := None;
    }

    /** The rest of `publish`, once the tarball has been read. */
    method ResumePublish(ticket: nat, extracted: Extracted, parse: ConfigParser, id: string)
      returns (response: Option<Response>)
      requires ticket in pending
      modifies this, store
      ensures (View(), response) == Step(old(View()), Resume(ticket, extracted, parse, id), limits)
    {
      hide Added;
      var p := pending[ticket];
      pending := pending - {ticket};
      match extracted {
        case TooLarge => return Some(TarballTooLarge);
        case Refused => return Some(InvalidTarball);
        case Files(files) =>
          var config := Some(NoExports);
          if p.configPath in files {
            config := parse(files[p.configPath]);
          }
          if config.None? {
            return Some(InvalidConfig);
          }
          var exports := ReadExports(config.value);
          if exports == map[] {
            return Some(MissingExports);
          }
          var added := store.Add(p.name, p.version, Package(files, exports));
          if !added {
            return Some(ServerError);
          }
          statuses := statuses[id := (p.name, p.version)];
          response := Some(Accepted(id));
      }
    }
  }

  // ----- Every interleaving -----

  /** The registry after a schedule of events. */
  function Run(r: Registry, events: seq<Event>, limits: Limits): Registry
    decreases |events|
  {
    if events == [] then r else Run(Step(r, events[0], limits).0, events[1..], limits)
  }

  /** `later` keeps every version of `earlier`, with the same content. */
  ghost predicate Keeps(earlier: Store, later: Store) {
    && (forall n, v :: Find(earlier, n, v).Some? ==> Find(later, n, v) == Find(earlier, n, v))
    && (earlier.closed ==> later == earlier)
  }

  lemma StepKeeps(r: Registry, e: Event, limits: Limits)
    ensures Keeps(r.store, Step(r, e, limits).0.store)
  {
    if e.Resume? && e.ticket in r.pending {
      var p := r.pending[e.ticket];
      var bundled := Bundle(p, e.extracted, e.parse);
      if bundled.Made? && Added(r.store, p.name, p.version, bundled.package).Some? {
        AddedFinds(r.store, p.name, p.version, bundled.package);
      }
    } else if e.SealStore? {
      forall n, v
        ensures Find(Step(r, e, limits).0.store, n, v) == Find(r.store, n, v)
      {
      }
    }
  }

  /** A stored version never changes or disappears, and a sealed store never grows. */
  lemma {:induction false} RunKeeps(r: Registry, events: seq<Event>, limits: Limits)
    ensures Keeps(r.store, Run(r, events, limits).store)
    decreases |events|
  {
    if events != [] {
      hide Step, Find;
      StepKeeps(r, events[0], limits);
      RunKeeps(Step(r, events[0], limits).0, events[1..], limits);
    }
  }

  /** Every id in the status map names a stored version, and everything stored or awaited has a valid name. */
  ghost predicate RegistryInv(r: Registry) {
    && (forall id :: id in r.statuses ==> Find(r.store, r.statuses[id].0, r.statuses[id].1).Some?)
    && (forall n, v :: Find(r.store, n, v).Some? ==> IsName(n) && IsVersion(v))
    && (forall t :: t in r.pending ==> IsName(r.pending[t].name) && IsVersion(r.pending[t].version))
  }

  lemma StepInv(r: Registry, e: Event, limits: Limits)
    requires RegistryInv(r)
    ensures RegistryInv(Step(r, e, limits).0)
  {
    hide IsName, IsVersion, FindIn;
    StepKeeps(r, e, limits);
    if e.Resume? && e.ticket in r.pending {
      var p := r.pending[e.ticket];
      var bundled := Bundle(p, e.extracted, e.parse);
      if bundled.Made? && Added(r.store, p.name, p.version, bundled.package).Some? {
        AddedFinds(r.store, p.name, p.version, bundled.package);
      }
    }
  }

  lemma {:induction false} RunInv(r: Registry, events: seq<Event>, limits: Limits)
    requires RegistryInv(r)
    ensures RegistryInv(Run(r, events, limits))
    decreases |events|
  {
    if events != [] {
      StepInv(r, events[0], limits);
      RunInv(Step(r, events[0], limits).0, events[1..], limits);
    }
  }

  /** The event is answered 202 for this package and version. */
  predicate Publishes(r: Registry, e: Event, limits: Limits, name: string, version: string) {
    && e.Resume? && e.ticket in r.pending
    && r.pending[e.ticket].name == name && r.pending[e.ticket].version == version
    && Step(r, e, limits).1 == Some(Accepted(e.id))
  }

  /** A 202 means stored: the uploaded files, under that version, with the status recorded. */
  lemma AcceptedIsStored(r: Registry, e: Event, limits: Limits, name: string, version: string)
    requires Publishes(r, e, limits, name, version)
    ensures e.extracted.Files? && !r.store.closed && Find(r.store, name, version).None?
    ensures var after := Step(r, e, limits).0;
      && after.statuses == r.statuses[e.id := (name, version)]
      && Find(after.store, name, version).Some?
      && Find(after.store, name, version).value.files == e.extracted.files
      && Find(after.store, name, version).value.exports != map[]
  {
    var p := r.pending[e.ticket];
    AddedFinds(r.store, p.name, p.version, Bundle(p, e.extracted, e.parse).package);
  }

  /** Of all uploads of one version that ever pass the checks, at most one is answered 202. */
  lemma AcceptedOnce(r: Registry, events: seq<Event>, limits: Limits, i: nat, j: nat, name: string, version: string)
    requires i < j < |events|
    requires Publishes(Run(r, events[..i], limits), events[i], limits, name, version)
    ensures !Publishes(Run(r, events[..j], limits), events[j], limits, name, version)
  {
    var ri := Run(r, events[..i], limits);
    AcceptedIsStored(ri, events[i], limits, name, version);
    RunSplit(r, events[..j], i, limits);
    assert events[..j][..i] == events[..i] && events[..j][i] == events[i];
    var after := Step(ri, events[i], limits).0;
    var between := events[..j][i + 1..];
    RunKeeps(after, between, limits);
    assert Run(r, events[..j], limits) == Run(after, between, limits);
    if Publishes(Run(r, events[..j], limits), events[j], limits, name, version) {
      AcceptedIsStored(Run(r, events[..j], limits), events[j], limits, name, version);
      assert false;
    }
  }

  lemma {:induction false} RunSplit(r: Registry, events: seq<Event>, i: nat, limits: Limits)
    requires i < |events|
    ensures Run(r, events, limits)
            == Run(Step(Run(r, events[..i], limits), events[i], limits).0, events[i + 1..], limits)
    decreases i
  {
    if i > 0 {
      var s := Step(r, events[0], limits).0;
      RunSplit(s, events[1..], i - 1, limits);
      assert events[1..][..i - 1] == events[..i][1..];
      assert events[1..][i..] == events[i + 1..];
    } else {
      assert events[..0] == [];
    }
  }

  // ----- Every answer to a resumed upload -----

  /** The export `key` of a config field is `path`. */
  ghost predicate Exports(field: ExportsField, key: string, path: string) {
    match field
    case NoExports => false
    case OnePath(only) => key == "." && path == only
    case Table(entries) => key in entries && entries[key] == Some(path)
  }

  /** The config file that the upload holds under the path it was asked to use, if it is readable. */
  ghost predicate HasConfig(p: Pending, extracted: Extracted, parse: ConfigParser, field: ExportsField) {
    && extracted.Files? && p.configPath in extracted.files
    && parse(extracted.files[p.configPath]) == Some(field)
  }

  ghost predicate HasExports(p: Pending, extracted: Extracted, parse: ConfigParser) {
    exists field, key, path :: HasConfig(p, extracted, parse, field) && Exports(field, key, path)
  }

  lemma ReadExportsAre(field: ExportsField)
    ensures forall key, path ::
              Exports(field, key, path) <==> key in ReadExports(field) && ReadExports(field)[key] == path
    ensures ReadExports(field) != map[] <==> exists key, path :: Exports(field, key, path)
  {
    if ReadExports(field) != map[] {
      var key :| key in ReadExports(field);
      assert Exports(field, key, ReadExports(field)[key]);
    }
  }

  /**
   Each answer to a resumed upload comes in its own case and in no other: it is accepted
   exactly when the tarball gave files, the one under its config path is a config with
   an export, the store is open and the version is still free.
   */
  lemma ResumedIff(r: Registry, ticket: nat, extracted: Extracted, parse: ConfigParser, id: string, limits: Limits)
    requires ticket in r.pending
    ensures var p, response := r.pending[ticket], Step(r, Resume(ticket, extracted, parse, id), limits).1;
      var overtaken := r.store.closed || Find(r.store, p.name, p.version).Some?;
      && (response == Some(Accepted(id)) <==> HasExports(p, extracted, parse) && !overtaken)
      && (response == Some(ServerError) <==> HasExports(p, extracted, parse) && overtaken)
      && (response == Some(TarballTooLarge) <==> extracted.TooLarge?)
      && (response == Some(InvalidTarball) <==> extracted.Refused?)
      && (response == Some(InvalidConfig) <==>
            extracted.Files? && p.configPath in extracted.files && parse(extracted.files[p.configPath]).None?)
      && (response == Some(MissingExports) <==>
            && extracted.Files? && !HasExports(p, extracted, parse)
            && (p.configPath in extracted.files ==> parse(extracted.files[p.configPath]).Some?))
  {
    hide Find;
    var p := r.pending[ticket];
    if extracted.Files? && p.configPath in extracted.files && parse(extracted.files[p.configPath]).Some? {
      var field := parse(extracted.files[p.configPath]).value;
      ReadExportsAre(field);
      assert HasConfig(p, extracted, parse, field);
    }
    ReadExportsAre(NoExports);
  }

  /** The registry behind a resumed upload: only an accepted one stores, its own files and exports under its version. */
  lemma ResumedStores(r: Registry, ticket: nat, extracted: Extracted, parse: ConfigParser, id: string, limits: Limits,
                      name: string, version: string)
    requires ticket in r.pending
    ensures var p, (after, response) := r.pending[ticket], Step(r, Resume(ticket, extracted, parse, id), limits);
      && after.pending == r.pending - {ticket} && after.store.closed == r.store.closed
      && (response != Some(Accepted(id)) ==> after.store == r.store && after.statuses == r.statuses)
      && (response == Some(Accepted(id)) ==> after.statuses == r.statuses[id := (p.name, p.version)])
      && (response == Some(Accepted(id)) && (name, version) == (p.name, p.version) ==>
            && extracted.Files? && Find(after.store, name, version).Some?
            && Find(after.store, name, version).value.files == extracted.files
            && forall field, key, path :: HasConfig(p, extracted, parse, field) ==>
                 (var exports := Find(after.store, name, version).value.exports;
                  Exports(field, key, path) <==> key in exports && exports[key] == path))
      && ((name, version) != (p.name, p.version) ==> Find(after.store, name, version) == Find(r.store, name, version))
  {
    hide FindIn;
    var p, bundled := r.pending[ticket], Bundle(r.pending[ticket], extracted, parse);
    if bundled.Made? && Added(r.store, p.name, p.version, bundled.package).Some? {
      AddedFinds(r.store, p.name, p.version, bundled.package);
      var field := parse(extracted.files[p.configPath]).value;
      ReadExportsAre(field);
      hide ReadExports;
    }
  }

  // ----- An upload overtaken while it waits -----

  /**
   A resumed upload ends in an unhandled error exactly when its bundle is good and it was
   overtaken: by the seal, or by its own version.
   */
  lemma ServerErrorIff(r: Registry, ticket: nat, extracted: Extracted, parse: ConfigParser, id: string, limits: Limits)
    requires ticket in r.pending
    ensures var p, after := r.pending[ticket], Step(r, Resume(ticket, extracted, parse, id), limits);
      && (after.1 == Some(ServerError) <==>
            Bundle(p, extracted, parse).Made? && (r.store.closed || Find(r.store, p.name, p.version).Some?))
      && (after.1 == Some(ServerError) ==> after.0 == r.(pending := r.pending - {ticket}))
  {
    hide Find, Bundle;
    if Bundle(r.pending[ticket], extracted, parse).Unusable? {
      UnusableIsNoError(r.pending[ticket], extracted, parse);
    }
  }

  lemma UnusableIsNoError(p: Pending, extracted: Extracted, parse: ConfigParser)
    ensures Bundle(p, extracted, parse).Unusable? ==> Bundle(p, extracted, parse).response != ServerError
  {
  }

  /** A request that passes every check of an empty registry. */
  predicate Passing(q: Request, limits: Limits) {
    q.authorized && q.scope == SCOPE && IsName(q.name) && IsVersion(q.version) && q.hasBody
      && q.declared <= limits.maxCompressed
  }

  const EMPTY := Registry(Store(map[], false), map[], map[])

  /**
   Two uploads of one version in flight: both pass the checks, the first to resume is stored, the
   other ends in the error.
   */
  lemma OvertakenByItsVersion(q: Request, extracted: Extracted, parse: ConfigParser, id: string, other: string,
                              limits: Limits)
    requires Passing(q, limits) && Bundle(Pending(q.name, q.version, q.configPath), extracted, parse).Made?
    ensures var start := [Begin(0, q), Begin(1, q)];
      var first, second := Resume(0, extracted, parse, id), Resume(1, extracted, parse, other);
      && Step(Run(EMPTY, start, limits), first, limits).1 == Some(Accepted(id))
      && Step(Run(EMPTY, start + [first], limits), second, limits).1 == Some(ServerError)
  {
    var p := Pending(q.name, q.version, q.configPath);
    var package := Bundle(p, extracted, parse).package;
    BothWait(q, limits);
    hide IsName, IsVersion, Bundle, Passing, Admit;
    var waiting := EMPTY.(pending := map[0 := p, 1 := p]);
    var first := Resume(0, extracted, parse, id);
    AddedFinds(EMPTY.store, q.name, q.version, package);
    var after := Step(waiting, first, limits);
    assert after.1 == Some(Accepted(id)) && after.0.pending == map[1 := p];
    RunOne(EMPTY, [Begin(0, q), Begin(1, q)], first, limits);
    ServerErrorIff(after.0, 1, extracted, parse, other, limits);
  }

  /** A seal between the checks and the resumption: the upload that passed them ends in the error. */
  lemma OvertakenByTheSeal(q: Request, extracted: Extracted, parse: ConfigParser, id: string, limits: Limits)
    requires Passing(q, limits) && Bundle(Pending(q.name, q.version, q.configPath), extracted, parse).Made?
    ensures var start := [Begin(0, q), SealStore];
      && Step(EMPTY, Begin(0, q), limits).1 == None
      && Step(Run(EMPTY, start, limits), Resume(0, extracted, parse, id), limits).1 == Some(ServerError)
  {
    var p := Pending(q.name, q.version, q.configPath);
    FirstWaits(q, limits);
    hide IsName, IsVersion, Bundle, Passing, Admit;
    var waiting := EMPTY.(pending := map[0 := p]);
    assert [Begin(0, q), SealStore][1..] == [SealStore] && [SealStore][1..] == [];
    assert Run(EMPTY, [Begin(0, q), SealStore], limits) == waiting.(store := EMPTY.store.(closed := true));
    ServerErrorIff(waiting.(store := EMPTY.store.(closed := true)), 0, extracted, parse, id, limits);
  }

  lemma FirstWaits(q: Request, limits: Limits)
    requires Passing(q, limits)
    ensures Step(EMPTY, Begin(0, q), limits)
            == (EMPTY.(pending := map[0 := Pending(q.name, q.version, q.configPath)]), None)
  {
    hide IsName, IsVersion;
  }

  lemma BothWait(q: Request, limits: Limits)
    requires Passing(q, limits)
    ensures var p := Pending(q.name, q.version, q.configPath);
      Run(EMPTY, [Begin(0, q), Begin(1, q)], limits) == EMPTY.(pending := map[0 := p, 1 := p])
  {
    hide IsName, IsVersion;
    var p := Pending(q.name, q.version, q.configPath);
    FirstWaits(q, limits);
    assert Step(EMPTY.(pending := map[0 := p]), Begin(1, q), limits).0 == EMPTY.(pending := map[0 := p, 1 := p]);
    assert [Begin(0, q), Begin(1, q)][1..] == [Begin(1, q)] && [Begin(1, q)][1..] == [];
    hide Step;
    assert Run(EMPTY.(pending := map[0 := p]), [Begin(1, q)], limits) == EMPTY.(pending := map[0 := p, 1 := p]);
  }

  /** One event more at the end of a run. */
  lemma {:induction false} RunOne(r: Registry, events: seq<Event>, e: Event, limits: Limits)
    ensures Run(r, events + [e], limits) == Step(Run(r, events, limits), e, limits).0
    decreases |events|
  {
    hide Step;
    if events == [] {
      assert [] + [e] == [e] && [e][1..] == [];
    } else {
      assert (events + [e])[1..] == events[1..] + [e];
      RunOne(Step(r, events[0], limits).0, events[1..], e, limits);
    }
  }

  /** The store is open and the token is there: what is wrong with the request may be told. */
  predicate Told(s: Store, q: Request) {
    !s.closed && q.authorized
  }

  predicate Named(q: Request) {
    q.scope == SCOPE && IsName(q.name) && IsVersion(q.version)
  }

  /**
   An upload is waited for exactly when every check passes; a closed registry says so before it
   looks at the token, and every other refusal names the first check that fails.
   */
  lemma AdmissionIff(s: Store, q: Request, limits: Limits)
    ensures Admit(s, q, limits).1.Some? <==>
      && !s.closed && q.authorized && q.scope == SCOPE && IsName(q.name) && IsVersion(q.version)
      && Find(s, q.name, q.version).None? && q.hasBody && q.declared <= limits.maxCompressed
    ensures Admit(s, q, limits).0 == Some(PublishingClosed) <==> s.closed
    ensures Admit(s, q, limits).1.Some? ==> Admit(s, q, limits).1.value == Pending(q.name, q.version, q.configPath)
    ensures Admit(s, q, limits).0 == Some(Unauthorized) <==> !s.closed && !q.authorized
    ensures Admit(s, q, limits).0 == Some(ScopeNotAllowed) <==> Told(s, q) && q.scope != SCOPE
    ensures Admit(s, q, limits).0 == Some(InvalidPackage) <==>
              Told(s, q) && q.scope == SCOPE && !(IsName(q.name) && IsVersion(q.version))
    ensures Admit(s, q, limits).0 == Some(VersionAlreadyExists) <==>
              Told(s, q) && Named(q) && Find(s, q.name, q.version).Some?
    ensures Admit(s, q, limits).0 == Some(MissingTarball) <==>
              Told(s, q) && Named(q) && Find(s, q.name, q.version).None? && !q.hasBody
    ensures Admit(s, q, limits).0 == Some(DeclaredTooLarge) <==>
              && Told(s, q) && Named(q) && Find(s, q.name, q.version).None? && q.hasBody
              && q.declared > limits.maxCompressed
  {
    hide IsName, IsVersion, Find;
  }

  /** Only a request with the token, for our own scope, can lead to an upload. */
  predicate MayUpload(e: Event) {
    e.Begin? ==> e.request.authorized && e.request.scope == SCOPE
  }

  /** Whatever else happens, nothing is stored or recorded while no such request comes in. */
  lemma {:induction false} NoTokenNoUpload(r: Registry, events: seq<Event>, limits: Limits)
    requires r.pending == map[] && forall e :: e in events && e.Begin? ==> !MayUpload(e)
    ensures Run(r, events, limits).store.packages == r.store.packages
    ensures Run(r, events, limits).statuses == r.statuses
    decreases |events|
  {
    hide IsName, IsVersion, Find;
    if events != [] {
      assert events[0] in events;
      NoTokenNoUpload(Step(r, events[0], limits).0, events[1..], limits);
    }
  }

  // ----- Publish, then fetch -----

  /** `GET` of a file route of our own scope. */
  function ServeFile(s: Store, route: Route): Option<Bytes> {
    if route.File? && route.scope == SCOPE && Find(s, route.name, route.version).Some? then
      var files := Find(s, route.name, route.version).value.files;
      if route.path in files then Some(files[route.path]) else None
    else None
  }

  /**
   Publish, then fetch, with any events in between: for every file entry of an
   accepted bundle, the request for its path is served the last bytes the bundle
   stored under that path.
   */
  lemma PublishThenFetch(r: Registry, e: Event, events: seq<Event>, limits: Limits, name: string, version: string,
                         stream: TarStream, entry: TarEntry, raw: seq<string>, decode: Decoder)
    requires Publishes(r, e, limits, name, version) && IsName(name) && IsVersion(version)
    requires e.extracted.Files? && Holds(e.extracted.files, stream.entries)
    requires entry in stream.entries && entry.content.Some? && NormaliseTarPath(entry.path).Some?
    requires Spells(raw, KeyParts(name, version, NormaliseTarPath(entry.path).value), decode)
    ensures var route := ParseRoute("GET", "/" + Join(raw, '/'), decode);
      var served := ServeFile(Run(Step(r, e, limits).0, events, limits).store, route);
      served.Some? && served == LastBytes(stream.entries, NormaliseTarPath(entry.path).value)
  {
    var key := NormaliseTarPath(entry.path).value;
    StoredPathIsServedPath(name, version, entry.path, raw, decode);
    AcceptedIsStored(r, e, limits, name, version);
    RunKeeps(Step(r, e, limits).0, events, limits);
    LastBytesSome(stream.entries, entry, key);
  }

  lemma {:induction false} LastBytesSome(entries: seq<TarEntry>, entry: TarEntry, key: string)
    requires entry in entries && StoresAt(entry, key)
    ensures LastBytes(entries, key).Some?
  {
    if !StoresAt(entries[|entries| - 1], key) {
      LastBytesSome(entries[..|entries| - 1], entry, key);
    }
  }

  /** The event is a 202 for the route's package and version, of an upload that holds these bytes under its path. */
  ghost predicate BringsIn(r: Registry, e: Event, limits: Limits, route: Route, bytes: Bytes)
    requires route.File?
  {
    && Publishes(r, e, limits, route.name, route.version)
    && e.extracted.Files? && route.path in e.extracted.files && e.extracted.files[route.path] == bytes
  }

  /** What is served was published: over any run from the start, the bytes came in with an accepted upload. */
  lemma {:induction false} ServedWasPublished(events: seq<Event>, limits: Limits, route: Route, bytes: Bytes)
    requires route.File? && ServeFile(Run(EMPTY, events, limits).store, route) == Some(bytes)
    ensures route.scope == SCOPE
    ensures exists i :: 0 <= i < |events| && BringsIn(Run(EMPTY, events[..i], limits), events[i], limits, route, bytes)
    decreases |events|
  {
    hide Find, Step;
    if events == [] {
      NothingAtFirst(route.name, route.version);
      assert false;
    } else {
      var init, e := events[..|events| - 1], events[|events| - 1];
      var r := Run(EMPTY, init, limits);
      assert events == init + [e];
      RunOne(EMPTY, init, e, limits);
      StepKeeps(r, e, limits);
      if Find(r.store, route.name, route.version).Some? {
        ServedWasPublished(init, limits, route, bytes);
        var i :| 0 <= i < |init| && BringsIn(Run(EMPTY, init[..i], limits), init[i], limits, route, bytes);
        assert init[..i] == events[..i] && init[i] == events[i];
      } else {
        NewIsPublished(r, e, limits, route.name, route.version);
        assert BringsIn(Run(EMPTY, events[..|init|], limits), events[|init|], limits, route, bytes);
      }
    }
  }

  lemma NothingAtFirst(name: string, version: string)
    ensures Find(EMPTY.store, name, version) == None
  {
  }

  /** Only a 202 brings a version in, with the files of its upload. */
  lemma NewIsPublished(r: Registry, e: Event, limits: Limits, name: string, version: string)
    requires Find(r.store, name, version).None? && Find(Step(r, e, limits).0.store, name, version).Some?
    ensures Publishes(r, e, limits, name, version) && e.extracted.Files?
    ensures Find(Step(r, e, limits).0.store, name, version).value.files == e.extracted.files
  {
    if e.Resume? && e.ticket in r.pending {
      ResumedStores(r, e.ticket, e.extracted, e.parse, e.id, limits, name, version);
    } else {
      hide FindIn, Admit;
    }
  }
}
