/**
 The local registry's two path functions, which have to agree: the key a tar entry
 is stored under, and the route a request path is classified as.
 */
module RegistryPaths {
  import opened Options
  import opened Strings

  const SCOPE := "lockness"

  predicate StartsWith(s: string, prefix: string) {
    prefix <= s
  }

  predicate EndsWith(s: string, suffix: string) {
    |suffix| <= |s| && s[|s| - |suffix|..] == suffix
  }

  // ----- Storing -----

  function DropPrefix(s: string, prefix: string): string {
    if StartsWith(s, prefix) then s[|prefix|..] else s
  }

  /** `path.replace(/^\.?\//, '').replace(/^package\//, '')` */
  function Relative(path: string): string {
    var rooted := if StartsWith(path, "./") then path[2..] else DropPrefix(path, "/");
    DropPrefix(rooted, "package/")
  }

  predicate IsPlainSegment(s: string) {
    s != "" && s != "." && s != ".."
  }

  /** `normaliseTarPath`: the key of an entry, or None for one that is refused. */
  function NormaliseTarPath(path: string): Option<string> {
    var relative := Relative(path);
    if relative == "" || exists p :: p in Split(relative, '/') && !IsPlainSegment(p) then None
    else Some("/" + relative)
  }

  // ----- Routing -----

  datatype Route =
    | Publish(scope: string, name: string, version: string)
    | VersionInfo(scope: string, name: string, version: string)
    | PublishStatus(id: string)
    | PackageInfo(scope: string, name: string)
    | UnknownApi
    | PackageMeta(scope: string, name: string)
    | VersionMeta(scope: string, name: string, version: string)
    | File(scope: string, name: string, version: string, path: string)
    | Upstream
    | NotServed
    | MalformedPath

  /** decodeURIComponent: the decoded text, or None where it throws. */
  type Decoder = string -> Option<string>

  function DecodeAll(parts: seq<string>, decode: Decoder): Option<seq<string>> {
    if parts == [] then Some([])
    else
      match (decode(parts[0]), DecodeAll(parts[1..], decode))
      case (Some(head), Some(rest)) => Some([head] + rest)
      case _ => None
  }

  function Segments(pathname: string, decode: Decoder): Option<seq<string>> {
    DecodeAll(Split(pathname, '/')[1..], decode)
  }

  predicate IsNameStart(c: char) {
    'a' <= c <= 'z' || '0' <= c <= '9'
  }

  /** The shape of scopes and package names: `[a-z0-9][a-z0-9-]*`. */
  predicate IsName(s: string) {
    s != "" && IsNameStart(s[0]) && forall c :: c in s ==> IsNameStart(c) || c == '-'
  }

  predicate IsSuffixChar(c: char) {
    '0' <= c <= '9' || 'A' <= c <= 'Z' || 'a' <= c <= 'z' || c == '.' || c == '-'
  }

  /** `[0-9]+\.[0-9]+\.[0-9]+(?:[-+][0-9A-Za-z.-]+)?` */
  predicate IsVersion(s: string) {
    var a := DigitRun(s);
    && 0 < a < |s| && s[a] == '.'
    && var t := s[a + 1..];
       var b := DigitRun(t);
       && 0 < b < |t| && t[b] == '.'
       && var u := t[b + 1..];
          var c := DigitRun(u);
          && 0 < c
          && (c == |u|
              || ((u[c] == '-' || u[c] == '+') && c + 1 < |u| && forall x :: x in u[c + 1..] ==> IsSuffixChar(x)))
  }

  function ApiRoute(verb: string, parts: seq<string>): Route
    requires parts != []
  {
    var n := |parts|;
    if n == 3 && parts[1] == "publish_status" && parts[2] != "" then PublishStatus(parts[2])
    else if n < 5 || parts[1] != "scopes" || parts[3] != "packages" || parts[2] == "" || parts[4] == "" then UnknownApi
    else if n == 5 then PackageInfo(parts[2], parts[4])
    else if parts[5] == "versions" && n == 7 && parts[6] != "" then
      if verb == "POST" then Publish(parts[2], parts[4], parts[6]) else VersionInfo(parts[2], parts[4], parts[6])
    else UnknownApi
  }

  function PackageRoute(scope: string, name: string, tail: seq<string>): Route {
    if tail == [] || tail[0] == "" then
      if scope == SCOPE || |tail| > 1 then NotServed else Upstream
    else if tail[0] == "meta.json" && |tail| == 1 then PackageMeta(scope, name)
    else if EndsWith(tail[0], "_meta.json") && |tail| == 1 then
      VersionMeta(scope, name, tail[0][..|tail[0]| - |"_meta.json"|])
    else if |tail| > 1 && forall s :: s in tail[1..] ==> s != "" then
      File(scope, name, tail[0], "/" + Join(tail[1..], '/'))
    else if scope == SCOPE then NotServed
    else Upstream
  }

  /** `parseRoute`: what a request asks for. */
  function ParseRoute(verb: string, pathname: string, decode: Decoder): Route {
    match Segments(pathname, decode)
    case None => MalformedPath
    case Some(parts) =>
      if parts != [] && parts[0] == "api" then ApiRoute(verb, parts)
      else if |parts| < 2 || !StartsWith(parts[0], "@") || !IsName(parts[0][1..]) || !IsName(parts[1]) then NotServed
      else PackageRoute(parts[0][1..], parts[1], parts[2..])
  }

  /** The requests the handler sends on to the upstream. */
  predicate GoesUpstream(route: Route) {
    match route
    case Upstream => true
    case PackageMeta(scope, _) => scope != SCOPE
    case VersionMeta(scope, _, _) => scope != SCOPE
    case File(scope, _, _, _) => scope != SCOPE
    case _ => false
  }

  /**
   Exactly which requests leave: a well-formed scope other than our own, a
   well-formed package, and no empty segment after it with more behind it.
   */
  lemma UpstreamIff(verb: string, pathname: string, decode: Decoder)
    ensures GoesUpstream(ParseRoute(verb, pathname, decode)) <==>
      var segments := Segments(pathname, decode);
      && segments.Some?
      && var parts := segments.value;
         && |parts| >= 2 && StartsWith(parts[0], "@")
         && IsName(parts[0][1..]) && parts[0][1..] != SCOPE && IsName(parts[1])
         && !(|parts| > 3 && parts[2] == "")
  {
    var segments := Segments(pathname, decode);
    if segments.Some? && segments.value != [] && segments.value[0] == "api" {
      assert segments.value[0][0] == 'a';
    }
  }

  /** No request whose decoded scope is our own ever reaches the upstream. */
  lemma OwnScopeStaysHere(verb: string, pathname: string, decode: Decoder)
    requires Segments(pathname, decode).Some? && Segments(pathname, decode).value != []
    requires Segments(pathname, decode).value[0] == "@" + SCOPE
    ensures !GoesUpstream(ParseRoute(verb, pathname, decode))
  {
    assert ("@" + SCOPE)[1..] == SCOPE;
    UpstreamIff(verb, pathname, decode);
  }

  // ----- Agreement -----

  /** The path segments of a request, as a client may encode them: each decodes to the part it stands for. */
  predicate Spells(raw: seq<string>, parts: seq<string>, decode: Decoder) {
    |raw| == |parts| && forall i :: 0 <= i < |raw| ==> '/' !in raw[i] && decode(raw[i]) == Some(parts[i])
  }

  /** The decoded segments that ask for a stored key. */
  function KeyParts(name: string, version: string, key: string): seq<string>
    requires key != ""
  {
    ["@" + SCOPE, name, version] + Split(key[1..], '/')
  }

  lemma {:induction false} DecodeEach(raw: seq<string>, parts: seq<string>, decode: Decoder)
    requires |raw| == |parts| && forall i :: 0 <= i < |raw| ==> decode(raw[i]) == Some(parts[i])
    ensures DecodeAll(raw, decode) == Some(parts)
  {
    if raw != [] {
      DecodeEach(raw[1..], parts[1..], decode);
      assert parts == [parts[0]] + parts[1..];
    }
  }

  /** A request path spelled with segments that decode to `parts` is split back into them. */
  lemma SegmentsOf(raw: seq<string>, parts: seq<string>, decode: Decoder)
    requires raw != [] && Spells(raw, parts, decode)
    ensures Segments("/" + Join(raw, '/'), decode) == Some(parts)
  {
    SplitOnce("", Join(raw, '/'), '/');
    assert "" + (['/'] + Join(raw, '/')) == "/" + Join(raw, '/');
    SplitJoin(raw, '/');
    DecodeEach(raw, parts, decode);
  }

  /** What a stored key looks like: a slash before at least one plain segment. */
  lemma StoredKey(entry: string)
    requires NormaliseTarPath(entry).Some?
    ensures var path := NormaliseTarPath(entry).value;
      && |path| > 1 && path == "/" + path[1..]
      && Join(Split(path[1..], '/'), '/') == path[1..]
      && forall s :: s in Split(path[1..], '/') ==> s != "" && '/' !in s
  {
    var relative := Relative(entry);
    assert NormaliseTarPath(entry).value[1..] == relative;
    SplitParts(relative, '/');
    forall s | s in Split(relative, '/')
      ensures s != ""
    {
      assert IsPlainSegment(s);
    }
  }

  /** A route that some request asks for. */
  predicate IsRequest(r: Route) {
    match r
    case Publish(scope, name, version) => scope != "" && name != "" && version != ""
    case VersionInfo(scope, name, version) => scope != "" && name != "" && version != ""
    case PublishStatus(id) => id != ""
    case PackageInfo(scope, name) => scope != "" && name != ""
    case PackageMeta(scope, name) => IsName(scope) && IsName(name)
    case VersionMeta(scope, name, _) => IsName(scope) && IsName(name)
    case File(scope, name, version, path) =>
      && IsName(scope) && IsName(name) && version != ""
      && path != "" && path[0] == '/' && forall s :: s in Split(path[1..], '/') ==> s != ""
    case _ => false
  }

  /** Its decoded path segments. */
  function RouteParts(r: Route): seq<string>
    requires IsRequest(r)
  {
    match r
    case Publish(scope, name, version) => ["api", "scopes", scope, "packages", name, "versions", version]
    case VersionInfo(scope, name, version) => ["api", "scopes", scope, "packages", name, "versions", version]
    case PublishStatus(id) => ["api", "publish_status", id]
    case PackageInfo(scope, name) => ["api", "scopes", scope, "packages", name]
    case PackageMeta(scope, name) => ["@" + scope, name, "meta.json"]
    case VersionMeta(scope, name, version) => ["@" + scope, name, version + "_meta.json"]
    case File(scope, name, version, path) => ["@" + scope, name, version] + Split(path[1..], '/')
  }

  function RouteVerb(r: Route): string {
    if r.Publish? then "POST" else "GET"
  }

  /** Parsing undoes spelling a request out, for every kind of route and every encoding of its segments. */
  lemma RouteRoundTrip(r: Route, raw: seq<string>, decode: Decoder)
    requires IsRequest(r) && Spells(raw, RouteParts(r), decode)
    ensures ParseRoute(RouteVerb(r), "/" + Join(raw, '/'), decode) == r
  {
    hide Segments, IsName, Split, Join;
    var parts := RouteParts(r);
    SegmentsOf(raw, parts, decode);
    match r {
      case PackageMeta(scope, name) => PackageParts(scope, name, ["meta.json"]);
      case VersionMeta(scope, name, version) =>
        PackageParts(scope, name, [version + "_meta.json"]);
        MetaRoute(scope, name, version);
      case File(scope, name, version, path) =>
        var rest := Split(path[1..], '/');
        PackageParts(scope, name, [version] + rest);
        assert ["@" + scope, name] + ([version] + rest) == parts;
        SplitParts(path[1..], '/');
        FileRoute(scope, name, version, rest);
      case _ =>
    }
  }

  lemma PackageParts(scope: string, name: string, tail: seq<string>)
    ensures var parts := ["@" + scope, name] + tail;
      parts[0] != "api" && StartsWith(parts[0], "@") && parts[0][1..] == scope && parts[1] == name && parts[2..] == tail
  {
    assert ("@" + scope)[0] == '@' && "api"[0] == 'a';
  }

  lemma MetaRoute(scope: string, name: string, version: string)
    ensures PackageRoute(scope, name, [version + "_meta.json"]) == VersionMeta(scope, name, version)
  {
    var text := version + "_meta.json";
    assert |text| > |"meta.json"|;
    assert text[|text| - |"_meta.json"|..] == "_meta.json";
    assert text[..|text| - |"_meta.json"|] == version;
  }

  lemma FileRoute(scope: string, name: string, version: string, rest: seq<string>)
    requires version != "" && rest != [] && forall s :: s in rest ==> s != ""
    ensures PackageRoute(scope, name, [version] + rest) == File(scope, name, version, "/" + Join(rest, '/'))
  {
    assert ([version] + rest)[1..] == rest;
  }

  // ----- What the stored key keeps of an entry path -----

  /** All the spellings bundlers write of one plain relative path are stored under one key. */
  lemma TarSpellings(path: string, lead: string, package: string)
    requires path != "" && !StartsWith(path, "package/")
    requires forall s :: s in Split(path, '/') ==> IsPlainSegment(s)
    requires (lead == "" || lead == "./" || lead == "/") && (package == "" || package == "package/")
    ensures NormaliseTarPath(lead + (package + path)) == Some("/" + path)
  {
    PlainStart(path);
    PackageDropped(path, package);
    LeadDropped(package + path, lead);
    hide Split, StartsWith, DropPrefix, IsPlainSegment;
  }

  lemma PackageDropped(path: string, package: string)
    requires path != "" && path[0] != '/' && !StartsWith(path, "./") && !StartsWith(path, "package/")
    requires package == "" || package == "package/"
    ensures DropPrefix(package + path, "package/") == path
    ensures package + path != "" && (package + path)[0] != '/' && !StartsWith(package + path, "./")
  {
    if package == "" {
      assert package + path == path;
    } else {
      assert (package + path)[|"package/"|..] == path && (package + path)[0] == 'p';
    }
  }

  lemma LeadDropped(text: string, lead: string)
    requires text != "" && text[0] != '/' && !StartsWith(text, "./")
    requires lead == "" || lead == "./" || lead == "/"
    ensures Relative(lead + text) == DropPrefix(text, "package/")
  {
    if lead == "" {
      assert lead + text == text;
    } else {
      assert (lead + text)[|lead|..] == text && (lead + text)[0] == lead[0];
    }
  }

  lemma PlainStart(path: string)
    requires path != "" && forall s :: s in Split(path, '/') ==> IsPlainSegment(s)
    ensures path[0] != '/' && !StartsWith(path, "./")
  {
    FirstSegment(path);
    hide Split;
    assert Split(path, '/')[0] in Split(path, '/');
  }

  lemma FirstSegment(path: string)
    requires path != ""
    ensures path[0] == '/' ==> Split(path, '/')[0] == ""
    ensures StartsWith(path, "./") ==> Split(path, '/')[0] == "."
  {
    if StartsWith(path, "./") {
      SplitOnce(".", path[2..], '/');
      assert path == "." + (['/'] + path[2..]);
    }
  }

  /** An entry path with a `..` segment anywhere is refused. */
  lemma ParentRefused(path: string)
    requires ".." in Split(path, '/')
    ensures NormaliseTarPath(path).None?
  {
    ParentInRelative(path);
    assert !IsPlainSegment("..");
    hide Relative, Split, IsPlainSegment;
  }

  lemma ParentInRelative(path: string)
    requires ".." in Split(path, '/')
    ensures ".." in Split(Relative(path), '/')
  {
    var rooted := if StartsWith(path, "./") then path[2..] else DropPrefix(path, "/");
    assert StartsWith(path, "./") ==> rooted == DropPrefix(path, "./");
    assert Relative(path) == DropPrefix(rooted, "package/");
    hide *;
    assert "." + "/" == "./" && "" + "/" == "/" && "package" + "/" == "package/";
    ParentStays(path, ".");
    ParentStays(path, "");
    ParentStays(rooted, "package");
  }

  /** Dropping one leading segment that is not `..` leaves the `..` in. */
  lemma ParentStays(path: string, head: string)
    requires '/' !in head && head != ".."
    ensures ".." in Split(path, '/') ==> ".." in Split(DropPrefix(path, head + "/"), '/')
  {
    if ".." in Split(path, '/') && StartsWith(path, head + "/") {
      SegmentDropped(path, head, "..");
    }
  }

  lemma SegmentDropped(path: string, head: string, s: string)
    requires '/' !in head && StartsWith(path, head + "/") && s in Split(path, '/') && s != head
    ensures s in Split(path[|head| + 1..], '/')
  {
    assert path == head + (['/'] + path[|head| + 1..]);
    SplitOnce(head, path[|head| + 1..], '/');
  }

  /**
   For every entry path that is stored, the request for it parses to a file route
   with exactly the key it is stored under, however the client encodes the segments.
   */
  lemma StoredPathIsServedPath(name: string, version: string, entry: string, raw: seq<string>, decode: Decoder)
    requires IsName(name) && IsVersion(version) && NormaliseTarPath(entry).Some?
    requires Spells(raw, KeyParts(name, version, NormaliseTarPath(entry).value), decode)
    ensures ParseRoute("GET", "/" + Join(raw, '/'), decode)
         == File(SCOPE, name, version, NormaliseTarPath(entry).value)
  {
    VersionChars(version);
    StoredKey(entry);
    ScopeIsName();
    hide NormaliseTarPath, IsVersion, IsName, Split, Join, Spells, ParseRoute;
    RouteRoundTrip(File(SCOPE, name, version, NormaliseTarPath(entry).value), raw, decode);
  }

  lemma ScopeIsName()
    ensures IsName(SCOPE)
  {
  }

  /** Spelled out: where decoding changes nothing, the request path is the stored key behind the package and version. */
  lemma PlainRequest(name: string, version: string, entry: string, decode: Decoder)
    requires IsName(name) && IsVersion(version) && NormaliseTarPath(entry).Some?
    requires forall s: string :: '%' !in s ==> decode(s) == Some(s)
    requires '%' !in NormaliseTarPath(entry).value
    ensures ParseRoute("GET", "/@lockness/" + (name + "/" + (version + NormaliseTarPath(entry).value)), decode)
         == File(SCOPE, name, version, NormaliseTarPath(entry).value)
  {
    VersionChars(version);
    hide NormaliseTarPath, IsVersion, IsName, Split, ParseRoute, Join, Spells;
    StoredKey(entry);
    var key := NormaliseTarPath(entry).value;
    PlainSpelling(name, version, key, decode);
    StoredPathIsServedPath(name, version, entry, KeyParts(name, version, key), decode);
    KeyPath(name, version, key);
  }

  lemma KeyPath(name: string, version: string, key: string)
    requires |key| > 1 && key == "/" + key[1..] && Join(Split(key[1..], '/'), '/') == key[1..]
    ensures "/" + Join(KeyParts(name, version, key), '/') == "/@lockness/" + (name + "/" + (version + key))
  {
    hide Join, Split;
    var rest := Split(key[1..], '/');
    JoinPackagePath(name, version, rest);
    assert version + key == version + "/" + key[1..];
  }

  lemma PlainSpelling(name: string, version: string, key: string, decode: Decoder)
    requires IsName(name) && IsVersion(version) && key != "" && '%' !in key
    requires forall s: string :: '%' !in s ==> decode(s) == Some(s)
    ensures Spells(KeyParts(name, version, key), KeyParts(name, version, key), decode)
  {
    VersionChars(version);
    NameChars(name);
    var parts := KeyParts(name, version, key);
    SplitParts(key[1..], '/');
    SplitKeepsOut(key[1..], '/', '%');
    forall i | 0 <= i < |parts|
      ensures '/' !in parts[i] && decode(parts[i]) == Some(parts[i])
    {
      if i >= 3 {
        assert parts[i] in Split(key[1..], '/');
      }
    }
  }

  lemma JoinPackagePath(name: string, version: string, rest: seq<string>)
    requires rest != []
    ensures "/" + Join(["@" + SCOPE, name, version] + rest, '/')
         == "/@lockness/" + (name + "/" + (version + "/" + Join(rest, '/')))
  {
    var parts := ["@" + SCOPE, name, version] + rest;
    assert parts[1..] == [name, version] + rest;
    assert ([name, version] + rest)[1..] == [version] + rest;
    assert ([version] + rest)[1..] == rest;
    assert Join([version] + rest, '/') == version + "/" + Join(rest, '/');
    assert Join([name, version] + rest, '/') == name + "/" + Join([version] + rest, '/');
    assert "/@lockness/" == "/" + ("@" + SCOPE + "/");
  }

  lemma NameChars(name: string)
    requires IsName(name)
    ensures '/' !in name && '%' !in name
  {
  }

  lemma {:induction false} SplitKeepsOut(s: string, sep: char, c: char)
    requires c !in s
    ensures forall p :: p in Split(s, sep) ==> c !in p
  {
    if s != [] {
      SplitKeepsOut(s[1..], sep, c);
    }
  }

  lemma {:induction false} DigitRunDigits(s: string)
    ensures forall i :: 0 <= i < DigitRun(s) ==> '0' <= s[i] <= '9'
  {
    if s != "" && '0' <= s[0] <= '9' {
      DigitRunDigits(s[1..]);
    }
  }

  /** A version is not empty and holds neither a slash nor a percent sign. */
  lemma VersionChars(s: string)
    requires IsVersion(s)
    ensures s != "" && '/' !in s && '%' !in s
  {
    var a := DigitRun(s);
    var t := s[a + 1..];
    var b := DigitRun(t);
    var u := t[b + 1..];
    var c := DigitRun(u);
    DigitRunDigits(u);
    assert u == u[..c] + u[c..];
    if c < |u| {
      SuffixChars(u, c);
    }
    DigitsThenDot(t, b);
    DigitsThenDot(s, a);
  }

  lemma SuffixChars(u: string, c: nat)
    requires c + 1 < |u| && forall i :: 0 <= i < c ==> '0' <= u[i] <= '9'
    requires (u[c] == '-' || u[c] == '+') && forall x :: x in u[c + 1..] ==> IsSuffixChar(x)
    ensures '/' !in u && '%' !in u
  {
    assert u == u[..c] + [u[c]] + u[c + 1..];
    assert !IsSuffixChar('/') && !IsSuffixChar('%');
  }

  lemma DigitsThenDot(s: string, n: nat)
    requires n == DigitRun(s) && n < |s| && s[n] == '.'
    requires '/' !in s[n + 1..] && '%' !in s[n + 1..]
    ensures '/' !in s && '%' !in s
  {
    DigitRunDigits(s);
    hide DigitRun;
    assert forall c :: c in s[..n] ==> '0' <= c <= '9';
    assert s == s[..n] + (['.'] + s[n + 1..]);
    InParts('/', s[..n], '.', s[n + 1..]);
    InParts('%', s[..n], '.', s[n + 1..]);
  }

  lemma InParts(x: char, head: string, c: char, tail: string)
    ensures x in head + ([c] + tail) <==> x in head || x == c || x in tail
  {
  }
}
