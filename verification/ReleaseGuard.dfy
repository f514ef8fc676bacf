/**
 The frozen rule on released upgrade sections: which versions a tree is judged on,
 what the guard finds, and when it finds nothing.

 A version number is read at its full value; the source reads it as a double.
 */
module ReleaseGuard {
  import opened Options
  import opened Sequences
  import opened Strings
  import opened UpgradeGuide

  // ----- Ordering versions -----

  /** `Number` of a run of digits. */
  function NumberOf(s: string): nat {
    if s == "" then 0
    else
      var last := s[|s| - 1];
      NumberOf(s[..|s| - 1]) * 10 + (if '0' <= last <= '9' then (last - '0') as int else 0)
  }

  function Part(v: string, i: nat): nat
    requires IsRelease(v) && i < 3
  {
    NumberOf(Split(v, '.')[i])
  }

  /** `compareVersions` */
  function CompareVersions(a: string, b: string): int
    requires IsRelease(a) && IsRelease(b)
  {
    if Part(a, 0) != Part(b, 0) then Part(a, 0) - Part(b, 0)
    else if Part(a, 1) != Part(b, 1) then Part(a, 1) - Part(b, 1)
    else Part(a, 2) - Part(b, 2)
  }

  lemma CompareFlips(a: string, b: string)
    requires IsRelease(a) && IsRelease(b)
    ensures CompareVersions(a, b) == -CompareVersions(b, a)
  {
    hide IsRelease, Part;
  }

  /** The order on versions is transitive, strictly when a step is strict. */
  lemma CompareTrans(a: string, b: string, c: string)
    requires IsRelease(a) && IsRelease(b) && IsRelease(c)
    requires CompareVersions(a, b) <= 0 && CompareVersions(b, c) <= 0
    ensures CompareVersions(a, c) <= 0
    ensures CompareVersions(a, b) < 0 || CompareVersions(b, c) < 0 ==> CompareVersions(a, c) < 0
  {
    hide IsRelease, Part;
  }

  function Digit(d: nat): char
    requires d < 10
  {
    "0123456789"[d]
  }

  /** A number in decimal digits. */
  function Decimal(n: nat): string {
    (if n < 10 then "" else Decimal(n / 10)) + [Digit(n % 10)]
  }

  function Show(major: nat, minor: nat, patch: nat): string {
    Decimal(major) + "." + (Decimal(minor) + "." + Decimal(patch))
  }

  lemma DigitValue(d: nat)
    requires d < 10
    ensures '0' <= Digit(d) <= '9' && (Digit(d) - '0') as int == d
  {
  }

  lemma NumberAppend(lead: string, last: char)
    requires '0' <= last <= '9'
    ensures NumberOf(lead + [last]) == NumberOf(lead) * 10 + (last - '0') as int
    ensures lead == "" || IsDigits(lead) ==> IsDigits(lead + [last])
  {
    assert (lead + [last])[..|lead|] == lead;
  }

  lemma {:induction false} NumberOfDecimal(n: nat)
    ensures NumberOf(Decimal(n)) == n && IsDigits(Decimal(n))
  {
    NumberOfNothing();
    hide NumberOf, Digit, IsDigits;
    DigitValue(n % 10);
    if n >= 10 {
      NumberOfDecimal(n / 10);
    }
    NumberAppend(if n < 10 then "" else Decimal(n / 10), Digit(n % 10));
  }

  lemma NumberOfNothing()
    ensures NumberOf("") == 0
  {
  }

  lemma ShowParts(major: nat, minor: nat, patch: nat)
    ensures var v := Show(major, minor, patch);
      IsRelease(v) && Part(v, 0) == major && Part(v, 1) == minor && Part(v, 2) == patch
  {
    NumberOfDecimal(major);
    NumberOfDecimal(minor);
    NumberOfDecimal(patch);
    var a, b, c := Decimal(major), Decimal(minor), Decimal(patch);
    JoinThree(a, b, c);
    hide Decimal, NumberOf, Join, Split;
    SplitJoin([a, b, c], '.');
  }

  /** Versions compare as numbers, part by part from the left: 0.10.0 is above 0.9.0. */
  lemma CompareIsNumeric(x: nat, y: nat, z: nat, x': nat, y': nat, z': nat)
    ensures IsRelease(Show(x, y, z)) && IsRelease(Show(x', y', z'))
    ensures CompareVersions(Show(x, y, z), Show(x', y', z')) < 0 <==>
              x < x' || (x == x' && (y < y' || (y == y' && z < z')))
    ensures CompareVersions(Show(x, y, z), Show(x', y', z')) == 0 <==> x == x' && y == y' && z == z'
  {
    ShowParts(x, y, z);
    ShowParts(x', y', z');
    hide IsRelease, Part, Show;
  }

  // ----- Which versions are judged -----

  /** Rendering a tagged tree judges what is below its tag; checking the working tree, what is up to the highest tag. */
  datatype Mode = Render(target: string) | Check(highest: Option<string>)

  predicate WellFormed(mode: Mode) {
    match mode
    case Render(target) => IsRelease(target)
    case Check(highest) => highest.Some? ==> IsRelease(highest.value)
  }

  predicate Judged(version: string, mode: Mode)
    requires IsRelease(version) && WellFormed(mode)
  {
    match mode
    case Render(target) => CompareVersions(version, target) < 0
    case Check(highest) => highest.None? || CompareVersions(version, highest.value) <= 0
  }

  /** Rendering judges what is below its version; checking, all up to the highest tag, or all if there is none. */
  lemma JudgedIsNumeric(x: nat, y: nat, z: nat, x': nat, y': nat, z': nat)
    ensures var v, w := Show(x, y, z), Show(x', y', z');
      && IsRelease(v) && IsRelease(w)
      && (Judged(v, Render(w)) <==> x < x' || (x == x' && (y < y' || (y == y' && z < z'))))
      && (Judged(v, Check(Some(w))) <==> x < x' || (x == x' && (y < y' || (y == y' && z <= z'))))
      && Judged(v, Check(None))
  {
    CompareIsNumeric(x, y, z, x', y', z');
    hide IsRelease, CompareVersions, Show;
  }

  /** Every version is one a section heading can open. */
  predicate AllReleases(versions: seq<string>) {
    forall v :: v in versions ==> IsRelease(v)
  }

  predicate SectionsReleased(subject: seq<Section>) {
    forall s :: s in subject ==> IsRelease(s.version)
  }

  predicate OpenReleases(hs: seq<Heading>) {
    forall h :: h in hs && h.opens.Some? ==> IsRelease(h.opens.value)
  }

  lemma HeadingOpensRelease(line: string, p: Option<Paragraph>, n: nat)
    ensures ReadHeading(line, p, n).Some? ==> OpenReleases([ReadHeading(line, p, n).value])
  {
    hide IsRelease, AtxHeading, IsSetextUnderline;
  }

  lemma {:induction false} HeadingsOpenReleases(lines: seq<string>, fence: Option<Fence>, p: Option<Paragraph>, n: nat)
    ensures OpenReleases(Headings(lines, fence, p, n))
    decreases |lines|
  {
    hide IsRelease, ReadHeading, OpensFence, ClosesFence, NextParagraph;
    if lines != [] {
      var line, rest := lines[0], lines[1..];
      HeadingOpensRelease(line, p, n);
      if fence.Some? {
        HeadingsOpenReleases(rest, if ClosesFence(line, fence.value) then None else fence, p, n + 1);
      } else if OpensFence(line).Some? {
        HeadingsOpenReleases(rest, OpensFence(line), None, n + 1);
      } else {
        HeadingsOpenReleases(rest, None,
                             if ReadHeading(line, p, n).None? then NextParagraph(p, line, n) else None, n + 1);
      }
    }
  }

  lemma {:induction false} SectionsOpenReleases(hs: seq<Heading>, path: string, nearMiss: NearMiss)
    requires OpenReleases(hs)
    ensures SectionsReleased(SectionsOf(hs, path, nearMiss))
  {
    hide IsRelease, TitlesUntilNext;
    if hs != [] {
      assert hs[0] in hs;
      SectionsOpenReleases(hs[1..], path, nearMiss);
    }
  }

  /** Every section the parser finds names a version of the form the guard compares. */
  lemma ParsedAreReleased(text: string, path: string, nearMiss: NearMiss)
    ensures SectionsReleased(SectionsOf(HeadingsOfText(text), path, nearMiss))
  {
    HeadingsOpenReleases(Lines(text), None, None, 1);
    SectionsOpenReleases(HeadingsOfText(text), path, nearMiss);
  }

  predicate Ascending(s: seq<string>)
    requires AllReleases(s)
  {
    forall i, j :: 0 <= i < j < |s| ==> CompareVersions(s[i], s[j]) <= 0
  }

  /** `[...new Set(s)]`: first occurrences, in order. */
  function WithoutRepeats(s: seq<string>): (r: seq<string>)
    ensures Distinct(r) && forall x :: x in r <==> x in s
  {
    if s == [] then []
    else
      var r, last := WithoutRepeats(s[..|s| - 1]), s[|s| - 1];
      assert s == s[..|s| - 1] + [last];
      if last in r then r else r + [last]
  }

  function VersionsOf(subject: seq<Section>): (r: seq<string>)
    ensures |r| == |subject| && forall i :: 0 <= i < |r| ==> r[i] == subject[i].version
  {
    if subject == [] then [] else VersionsOf(subject[..|subject| - 1]) + [subject[|subject| - 1].version]
  }

  function OnlyJudged(versions: seq<string>, mode: Mode): seq<string>
    requires AllReleases(versions) && WellFormed(mode)
  {
    if versions == [] then []
    else (if Judged(versions[0], mode) then [versions[0]] else []) + OnlyJudged(versions[1..], mode)
  }

  /** A version put before the first one it does not exceed. */
  function Place(v: string, versions: seq<string>): seq<string>
    requires IsRelease(v) && AllReleases(versions)
  {
    if versions == [] || CompareVersions(v, versions[0]) <= 0 then [v] + versions
    else [versions[0]] + Place(v, versions[1..])
  }

  /** `versions.sort(compareVersions)` */
  function SortVersions(versions: seq<string>): (r: seq<string>)
    requires AllReleases(versions)
    ensures AllReleases(r)
  {
    if versions == [] then []
    else
      var rest := SortVersions(versions[1..]);
      PlaceKeeps(versions[0], rest);
      Place(versions[0], rest)
  }

  lemma {:induction false} PlaceKeeps(v: string, versions: seq<string>)
    requires IsRelease(v) && AllReleases(versions)
    ensures forall x :: x in Place(v, versions) <==> x == v || x in versions
    ensures AllReleases(Place(v, versions))
    ensures v !in versions && Distinct(versions) ==> Distinct(Place(v, versions))
    ensures Ascending(versions) ==> Ascending(Place(v, versions))
  {
    hide IsRelease, CompareVersions, Distinct, Ascending;
    if versions == [] || CompareVersions(v, versions[0]) <= 0 {
      PutFirst(v, versions);
    } else {
      var first, tail := versions[0], versions[1..];
      PlaceKeeps(v, tail);
      CompareFlips(v, first);
      TailInOrder(versions);
      PutBefore(first, Place(v, tail));
    }
  }

  /** A version in front of those it does not exceed. */
  lemma PutFirst(v: string, versions: seq<string>)
    requires IsRelease(v) && AllReleases(versions)
    requires versions == [] || CompareVersions(v, versions[0]) <= 0
    ensures v !in versions && Distinct(versions) ==> Distinct([v] + versions)
    ensures Ascending(versions) ==> Ascending([v] + versions)
  {
    hide IsRelease, CompareVersions;
    if Ascending(versions) {
      forall i | 0 < i < |versions|
        ensures CompareVersions(v, versions[i]) <= 0
      {
        CompareTrans(v, versions[0], versions[i]);
      }
    }
  }

  lemma TailInOrder(versions: seq<string>)
    requires versions != [] && AllReleases(versions)
    ensures Distinct(versions) ==> Distinct(versions[1..]) && versions[0] !in versions[1..]
    ensures Ascending(versions) ==>
              Ascending(versions[1..]) && forall x :: x in versions[1..] ==> CompareVersions(versions[0], x) <= 0
  {
    hide IsRelease, CompareVersions;
    var tail := versions[1..];
    forall x | x in tail
      ensures Distinct(versions) ==> x != versions[0]
      ensures Ascending(versions) ==> CompareVersions(versions[0], x) <= 0
    {
      var i :| 0 <= i < |tail| && tail[i] == x;
      assert versions[i + 1] == x;
    }
  }

  /** A version in front of a list that holds no smaller one, nor itself. */
  lemma PutBefore(first: string, placed: seq<string>)
    requires AllReleases([first] + placed) && AllReleases(placed)
    ensures first !in placed && Distinct(placed) ==> Distinct([first] + placed)
    ensures (forall x :: x in placed ==> CompareVersions(first, x) <= 0) && Ascending(placed) ==>
            Ascending([first] + placed)
  {
    hide IsRelease, CompareVersions;
  }

  lemma {:induction false} SortVersionsSorts(versions: seq<string>)
    requires AllReleases(versions)
    ensures forall x :: x in SortVersions(versions) <==> x in versions
    ensures Distinct(versions) ==> Distinct(SortVersions(versions))
    ensures Ascending(SortVersions(versions))
  {
    hide IsRelease, CompareVersions;
    if versions != [] {
      SortVersionsSorts(versions[1..]);
      PlaceKeeps(versions[0], SortVersions(versions[1..]));
      assert versions == [versions[0]] + versions[1..];
    }
  }

  lemma {:induction false} OnlyJudgedKeeps(versions: seq<string>, mode: Mode)
    requires AllReleases(versions) && WellFormed(mode)
    ensures forall x :: x in OnlyJudged(versions, mode) <==> x in versions && Judged(x, mode)
    ensures Distinct(versions) ==> Distinct(OnlyJudged(versions, mode))
  {
    hide IsRelease, CompareVersions, Judged;
    if versions != [] {
      OnlyJudgedKeeps(versions[1..], mode);
      assert versions == [versions[0]] + versions[1..];
    }
  }

  /** `judgedVersions` */
  function JudgedVersions(subject: seq<Section>, mode: Mode): seq<string>
    requires SectionsReleased(subject) && WellFormed(mode)
  {
    VersionsAreReleases(subject);
    OnlyJudgedKeeps(WithoutRepeats(VersionsOf(subject)), mode);
    SortVersions(OnlyJudged(WithoutRepeats(VersionsOf(subject)), mode))
  }

  lemma VersionsAreReleases(subject: seq<Section>)
    requires SectionsReleased(subject)
    ensures AllReleases(WithoutRepeats(VersionsOf(subject)))
    ensures forall v :: v in WithoutRepeats(VersionsOf(subject)) <==> exists s :: s in subject && s.version == v
  {
    hide IsRelease;
    var vs := VersionsOf(subject);
    forall v | v in WithoutRepeats(vs)
      ensures exists s :: s in subject && s.version == v
    {
      var i :| 0 <= i < |vs| && vs[i] == v;
      assert subject[i] in subject;
    }
    forall v | exists s :: s in subject && s.version == v
      ensures v in WithoutRepeats(vs)
    {
      var i :| 0 <= i < |subject| && subject[i].version == v;
      assert vs[i] == v;
    }
  }

  /** The judged versions are exactly the subject's versions the mode judges, each once, ascending. */
  lemma JudgedAre(subject: seq<Section>, mode: Mode)
    requires SectionsReleased(subject) && WellFormed(mode)
    ensures AllReleases(JudgedVersions(subject, mode))
    ensures forall v :: v in JudgedVersions(subject, mode) <==>
              exists s :: s in subject && s.version == v && Judged(v, mode)
    ensures Distinct(JudgedVersions(subject, mode)) && Ascending(JudgedVersions(subject, mode))
  {
    VersionsAreReleases(subject);
    OnlyJudgedKeeps(WithoutRepeats(VersionsOf(subject)), mode);
    SortVersionsSorts(OnlyJudged(WithoutRepeats(VersionsOf(subject)), mode));
    hide IsRelease, CompareVersions, SortVersions, OnlyJudged, WithoutRepeats, VersionsOf, Distinct, Ascending, Judged;
  }

  // ----- What the guard finds -----

  datatype Finding = MissingTag(version: string) | Added(version: string, path: string, title: string)

  function TitleFindings(s: Section, titles: seq<string>, released: seq<string>): seq<Finding> {
    if titles == [] then []
    else
      var last := titles[|titles| - 1];
      TitleFindings(s, titles[..|titles| - 1], released) +
        (if last in released then [] else [Added(s.version, s.path, last)])
  }

  function SectionFindings(version: string, subject: seq<Section>, released: seq<string>): seq<Finding> {
    if subject == [] then []
    else
      var s := subject[|subject| - 1];
      SectionFindings(version, subject[..|subject| - 1], released)
      + (if s.version == version then TitleFindings(s, s.titles, released) else [])
  }

  type TagTitles = map<string, seq<string>>

  /** The findings on the given versions: by version, then by section, then by title. */
  function FindingsOn(versions: seq<string>, subject: seq<Section>, tagTitles: TagTitles): seq<Finding> {
    if versions == [] then []
    else
      var v := versions[|versions| - 1];
      FindingsOn(versions[..|versions| - 1], subject, tagTitles)
      + (if v in tagTitles then SectionFindings(v, subject, tagTitles[v]) else [MissingTag(v)])
  }

  predicate Holds(subject: seq<Section>, version: string, path: string, title: string) {
    exists s :: s in subject && s.version == version && s.path == path && title in s.titles
  }

  /** What it means to find a fault on one of the given versions. */
  predicate IsFinding(f: Finding, versions: seq<string>, subject: seq<Section>, tagTitles: TagTitles) {
    && f.version in versions
    && match f
       case MissingTag(v) => v !in tagTitles
       case Added(v, path, title) => v in tagTitles && title !in tagTitles[v] && Holds(subject, v, path, title)
  }

  lemma {:induction false} TitleFindingsAre(s: Section, titles: seq<string>, released: seq<string>, f: Finding)
    ensures f in TitleFindings(s, titles, released) <==>
              f.Added? && f.version == s.version && f.path == s.path && f.title in titles && f.title !in released
  {
    if titles != [] {
      TitleFindingsAre(s, titles[..|titles| - 1], released, f);
      assert titles == titles[..|titles| - 1] + [titles[|titles| - 1]];
    }
  }

  lemma {:induction false} SectionFindingsAre(version: string, subject: seq<Section>, released: seq<string>, f: Finding)
    ensures f in SectionFindings(version, subject, released) <==>
              f.Added? && f.version == version && f.title !in released && Holds(subject, version, f.path, f.title)
  {
    if subject != [] {
      var init, s := subject[..|subject| - 1], subject[|subject| - 1];
      SectionFindingsAre(version, init, released, f);
      TitleFindingsAre(s, s.titles, released, f);
      if f.Added? {
        HoldsLast(init, s, version, f.path, f.title);
      }
      assert subject == init + [s];
    }
  }

  lemma HoldsLast(init: seq<Section>, s: Section, version: string, path: string, title: string)
    ensures Holds(init + [s], version, path, title) <==>
              Holds(init, version, path, title) || (s.version == version && s.path == path && title in s.titles)
  {
    assert s in init + [s];
  }

  /** The findings are exactly the missing tags and the added titles of those versions. */
  lemma {:induction false} FindingsAre(versions: seq<string>, subject: seq<Section>, tagTitles: TagTitles, f: Finding)
    ensures f in FindingsOn(versions, subject, tagTitles) <==> IsFinding(f, versions, subject, tagTitles)
  {
    hide Holds, SectionFindings;
    if versions != [] {
      var init, v := versions[..|versions| - 1], versions[|versions| - 1];
      FindingsAre(init, subject, tagTitles, f);
      if v in tagTitles {
        SectionFindingsAre(v, subject, tagTitles[v], f);
      }
      assert versions == init + [v];
    }
  }

  /** The findings of two lists of versions, of sections or of titles stand one behind the other. */
  lemma {:induction false} FindingsInOrder(first: seq<string>, second: seq<string>, subject: seq<Section>,
                                           tagTitles: TagTitles)
    ensures FindingsOn(first + second, subject, tagTitles)
         == FindingsOn(first, subject, tagTitles) + FindingsOn(second, subject, tagTitles)
  {
    if second == [] {
      assert first + second == first;
    } else {
      var init, v := second[..|second| - 1], second[|second| - 1];
      assert (first + second)[..|first + second| - 1] == first + init;
      FindingsInOrder(first, init, subject, tagTitles);
    }
  }

  lemma {:induction false} SectionsInOrder(version: string, first: seq<Section>, second: seq<Section>,
                                           released: seq<string>)
    ensures SectionFindings(version, first + second, released)
         == SectionFindings(version, first, released) + SectionFindings(version, second, released)
  {
    if second == [] {
      assert first + second == first;
    } else {
      var init := second[..|second| - 1];
      assert (first + second)[..|first + second| - 1] == first + init;
      SectionsInOrder(version, first, init, released);
    }
  }

  lemma {:induction false} TitlesInOrder(s: Section, first: seq<string>, second: seq<string>, released: seq<string>)
    ensures TitleFindings(s, first + second, released)
         == TitleFindings(s, first, released) + TitleFindings(s, second, released)
  {
    if second == [] {
      assert first + second == first;
    } else {
      var init := second[..|second| - 1];
      assert (first + second)[..|first + second| - 1] == first + init;
      TitlesInOrder(s, first, init, released);
    }
  }

  /** `guard` */
  method Guard(subject: seq<Section>, tagTitles: TagTitles, mode: Mode) returns (findings: seq<Finding>)
    requires SectionsReleased(subject) && WellFormed(mode)
    ensures findings == FindingsOn(JudgedVersions(subject, mode), subject, tagTitles)
  {
    findings := [];
    var versions := JudgedVersions(subject, mode);
    hide IsRelease, JudgedVersions, Judged, SectionsReleased, WellFormed;
    assert versions[..|versions|] == versions;
    for i := 0 to |versions|
      invariant findings == FindingsOn(versions[..i], subject, tagTitles)
    {
      var version := versions[i];
      assert versions[..i + 1][..i] == versions[..i];
      if version !in tagTitles {
        findings := findings + [MissingTag(version)];
        continue;
      }
      var known := tagTitles[version];
      findings := FindInSections(version, subject, known, findings);
    }
  }

  /** The guard's inner loops: one judged version against every section. */
  method FindInSections(version: string, subject: seq<Section>, known: seq<string>, before: seq<Finding>)
    returns (findings: seq<Finding>)
    ensures findings == before + SectionFindings(version, subject, known)
  {
    findings := before;
    assert subject[..|subject|] == subject;
    for j := 0 to |subject|
      invariant findings == before + SectionFindings(version, subject[..j], known)
    {
      var section := subject[j];
      assert subject[..j + 1][..j] == subject[..j];
      if section.version != version {
        continue;
      }
      ghost var reached := findings;
      assert section.titles[..|section.titles|] == section.titles;
      for k := 0 to |section.titles|
        invariant findings == reached + TitleFindings(section, section.titles[..k], known)
      {
        assert section.titles[..k + 1][..k] == section.titles[..k];
        if section.titles[k] !in known {
          findings := findings + [Added(version, section.path, section.titles[k])];
        }
      }
    }
  }

  /** Every judged version has its tag, and no title it did not have there. */
  predicate Frozen(subject: seq<Section>, tagTitles: TagTitles, mode: Mode)
    requires SectionsReleased(subject) && WellFormed(mode)
  {
    forall s :: s in subject && Judged(s.version, mode) ==>
      s.version in tagTitles && forall t :: t in s.titles ==> t in tagTitles[s.version]
  }

  lemma CleanMeansFrozen(versions: seq<string>, subject: seq<Section>, tagTitles: TagTitles, s: Section)
    requires FindingsOn(versions, subject, tagTitles) == [] && s in subject && s.version in versions
    ensures s.version in tagTitles && forall t :: t in s.titles ==> t in tagTitles[s.version]
  {
    hide FindingsOn;
    FindingsAre(versions, subject, tagTitles, MissingTag(s.version));
    forall t | t in s.titles
      ensures t in tagTitles[s.version]
    {
      FindingsAre(versions, subject, tagTitles, Added(s.version, s.path, t));
    }
  }

  /** The guard finds nothing exactly when the frozen rule holds. */
  lemma CleanIffFrozen(subject: seq<Section>, tagTitles: TagTitles, mode: Mode)
    requires SectionsReleased(subject) && WellFormed(mode)
    ensures FindingsOn(JudgedVersions(subject, mode), subject, tagTitles) == [] <==> Frozen(subject, tagTitles, mode)
  {
    var versions := JudgedVersions(subject, mode);
    var findings := FindingsOn(versions, subject, tagTitles);
    JudgedAre(subject, mode);
    hide IsRelease, JudgedVersions, Judged, FindingsOn, Distinct, Ascending, WellFormed;
    if findings == [] {
      forall s | s in subject && Judged(s.version, mode)
        ensures s.version in tagTitles && forall t :: t in s.titles ==> t in tagTitles[s.version]
      {
        CleanMeansFrozen(versions, subject, tagTitles, s);
      }
    } else {
      FindingsAre(versions, subject, tagTitles, findings[0]);
    }
  }
}
