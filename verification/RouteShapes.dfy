/**
 What a classified request must have looked like: the shapes of names and versions, and
 for each kind of route the only segments that lead to it.
 */
module RouteShapes {
  import opened Options
  import opened RegistryPaths
  import opened Strings

  /** Lower-case letters and digits, and dashes behind the first of them. */
  lemma NameIff(s: string)
    ensures IsName(s) <==>
      && s != "" && s[0] != '-'
      && forall i :: 0 <= i < |s| ==> 'a' <= s[i] <= 'z' || '0' <= s[i] <= '9' || s[i] == '-'
  {
    if IsName(s) {
      assert forall i :: 0 <= i < |s| ==> s[i] in s;
    }
  }

  /** A dash or a plus with something behind it, all letters, digits, dots and dashes; or nothing. */
  predicate SuffixShape(suffix: string) {
    || suffix == ""
    || (&& |suffix| > 1 && (suffix[0] == '-' || suffix[0] == '+')
        && forall i :: 1 <= i < |suffix| ==>
             'a' <= suffix[i] <= 'z' || 'A' <= suffix[i] <= 'Z' || '0' <= suffix[i] <= '9'
             || suffix[i] == '.' || suffix[i] == '-')
  }

  /** Three runs of digits with dots between them, and a suffix. */
  ghost predicate VersionShape(s: string, x: string, y: string, z: string, suffix: string) {
    && IsDigits(x) && IsDigits(y) && IsDigits(z) && SuffixShape(suffix)
    && s == x + ("." + (y + ("." + (z + suffix))))
  }

  lemma VersionIff(s: string)
    ensures IsVersion(s) <==> exists x, y, z, suffix :: VersionShape(s, x, y, z, suffix)
  {
    if IsVersion(s) {
      var x, y, z, suffix := VersionPieces(s);
    }
    hide IsVersion;
    if x, y, z, suffix :| VersionShape(s, x, y, z, suffix) {
      VersionFrom(s, x, y, z, suffix);
    }
  }

  lemma {:induction false} DigitsThen(digits: string, rest: string)
    requires forall i :: 0 <= i < |digits| ==> '0' <= digits[i] <= '9'
    requires rest != "" ==> !('0' <= rest[0] <= '9')
    ensures DigitRun(digits + rest) == |digits| && (digits + rest)[|digits|..] == rest
  {
    if digits == "" {
      assert digits + rest == rest;
    } else {
      assert (digits + rest)[1..] == digits[1..] + rest;
      DigitsThen(digits[1..], rest);
    }
  }

  /** The digits a text starts with, and what is behind them. */
  lemma {:induction false} DigitsSplit(s: string)
    ensures s == s[..DigitRun(s)] + s[DigitRun(s)..]
    ensures forall c :: c in s[..DigitRun(s)] ==> '0' <= c <= '9'
  {
    if s != "" && '0' <= s[0] <= '9' {
      DigitsSplit(s[1..]);
      assert s[..DigitRun(s)] == [s[0]] + s[1..][..DigitRun(s[1..])];
    }
  }

  lemma VersionPieces(s: string) returns (x: string, y: string, z: string, suffix: string)
    requires IsVersion(s)
    ensures VersionShape(s, x, y, z, suffix)
  {
    var a := DigitRun(s);
    var t := s[a + 1..];
    var b := DigitRun(t);
    var u := t[b + 1..];
    var c := DigitRun(u);
    x, y, z, suffix := s[..a], t[..b], u[..c], u[c..];
    assert suffix != "" ==> suffix[1..] == u[c + 1..];
    SuffixIs(suffix);
    assert SuffixShape(suffix) && s[a] == '.' && t[b] == '.' && 0 < a && 0 < b && 0 < c;
    hide IsVersion, SuffixShape, IsSuffixChar;
    DigitsSplit(s);
    DigitsSplit(t);
    DigitsSplit(u);
    hide DigitRun;
    PiecesJoin(s, a, t, b, u, c);
  }

  lemma PiecesJoin(s: string, a: nat, t: string, b: nat, u: string, c: nat)
    requires a < |s| && s[a] == '.' && t == s[a + 1..]
    requires b < |t| && t[b] == '.' && u == t[b + 1..] && c <= |u|
    ensures s == s[..a] + ("." + (t[..b] + ("." + (u[..c] + u[c..]))))
  {
    assert u == u[..c] + u[c..];
    assert t == t[..b] + ("." + u);
    assert s == s[..a] + ("." + t);
  }

  lemma SuffixIs(suffix: string)
    requires suffix == ""
             || (&& (suffix[0] == '-' || suffix[0] == '+') && 1 < |suffix|
                 && forall x :: x in suffix[1..] ==> IsSuffixChar(x))
    ensures SuffixShape(suffix)
  {
    forall i | 1 <= i < |suffix|
      ensures IsSuffixChar(suffix[i])
    {
      assert suffix[1..][i - 1] == suffix[i];
    }
  }

  lemma VersionFrom(s: string, x: string, y: string, z: string, suffix: string)
    requires VersionShape(s, x, y, z, suffix)
    ensures IsVersion(s)
  {
    var u := z + suffix;
    var t := y + ("." + u);
    assert s == x + ("." + t);
    RunOf(x, "." + t);
    RunOf(y, "." + u);
    RunOf(z, suffix);
    forall c | suffix != "" && c in suffix[1..]
      ensures IsSuffixChar(c)
    {
      var j :| 0 <= j < |suffix[1..]| && suffix[1..][j] == c;
      assert suffix[j + 1] == c;
    }
    hide DigitRun, IsDigits, SuffixShape, IsSuffixChar;
    Behind(s, x, ".", t);
    Behind(t, y, ".", u);
    assert suffix != "" ==> u[|z|] == suffix[0] && u[|z| + 1..] == suffix[1..];
  }

  lemma Behind(s: string, front: string, dot: string, rest: string)
    requires s == front + (dot + rest) && |dot| == 1
    ensures |front| < |s| && s[|front|] == dot[0] && s[|front| + 1..] == rest
  {
  }

  lemma RunOf(digits: string, rest: string)
    requires IsDigits(digits) && (rest != "" ==> !('0' <= rest[0] <= '9'))
    ensures 0 < DigitRun(digits + rest) == |digits| && (digits + rest)[|digits|..] == rest
  {
    assert forall i :: 0 <= i < |digits| ==> digits[i] in digits;
    DigitsThen(digits, rest);
  }

  /** The decoded segments a file route is made from. */
  predicate FileParts(parts: seq<string>, scope: string, name: string, version: string, path: string) {
    && |parts| > 3 && parts[..3] == ["@" + scope, name, version]
    && IsName(scope) && IsName(name) && version != ""
    && path == "/" + Join(parts[3..], '/') && forall s :: s in parts[3..] ==> s != ""
  }

  /** Nothing else is classified so: a request was spelled as its route is, and publishing is by POST only. */
  lemma ParsedIsSpelled(verb: string, pathname: string, decode: Decoder)
    ensures var r, parts := ParseRoute(verb, pathname, decode), Segments(pathname, decode);
      && (r.MalformedPath? <==> parts.None?)
      && (r.File? ==> FileParts(parts.value, r.scope, r.name, r.version, r.path))
      && (r.Publish? || r.VersionInfo? || r.PublishStatus? || r.PackageInfo? || r.PackageMeta? || r.VersionMeta? ==>
            IsRequest(r) && parts == Some(RouteParts(r)))
      && (r.Publish? ==> verb == "POST") && (r.VersionInfo? ==> verb != "POST")
      && (r.UnknownApi? ==> parts.value != [] && parts.value[0] == "api")
  {
    hide Segments, IsName, Join;
    if Segments(pathname, decode).Some? {
      var parts := Segments(pathname, decode).value;
      if parts != [] && parts[0] == "api" {
        ApiIsSpelled(verb, parts);
      } else if |parts| >= 2 && StartsWith(parts[0], "@") && IsName(parts[0][1..]) && IsName(parts[1]) {
        assert parts[0] == "@" + parts[0][1..];
        assert parts == [parts[0], parts[1]] + parts[2..];
        PackageIsSpelled(parts[0][1..], parts[1], parts[2..], parts);
      }
    }
  }

  lemma ApiIsSpelled(verb: string, parts: seq<string>)
    requires parts != [] && parts[0] == "api"
    ensures var r := ApiRoute(verb, parts);
      && (r.Publish? || r.VersionInfo? || r.PublishStatus? || r.PackageInfo? || r.UnknownApi?)
      && (!r.UnknownApi? ==> IsRequest(r) && parts == RouteParts(r))
      && (r.Publish? ==> verb == "POST") && (r.VersionInfo? ==> verb != "POST")
  {
  }

  lemma PackageIsSpelled(scope: string, name: string, tail: seq<string>, parts: seq<string>)
    requires IsName(scope) && IsName(name) && parts == ["@" + scope, name] + tail
    ensures var r := PackageRoute(scope, name, tail);
      && (r.PackageMeta? || r.VersionMeta? || r.File? || r.NotServed? || r.Upstream?)
      && (r.PackageMeta? || r.VersionMeta? ==> IsRequest(r) && parts == RouteParts(r))
      && (r.File? ==> FileParts(parts, r.scope, r.name, r.version, r.path))
  {
    hide IsName, Join;
    if tail != [] {
      assert parts[..3] == ["@" + scope, name, tail[0]] && parts[3..] == tail[1..];
      if EndsWith(tail[0], "_meta.json") {
        assert tail[0] == tail[0][..|tail[0]| - |"_meta.json"|] + "_meta.json";
      }
      if |tail| == 1 {
        assert tail == [tail[0]];
      }
    }
  }
}
