/**
 Composing a Release body from the tagged tree's upgrade sections, and what the
 frozen rule gives over a whole history of releases: every title a later tree lists
 under a released version was announced in that version's own Release body.
 */
module ReleaseBody {
  import opened Options
  import Sequences
  import opened Strings
  import opened UpgradeGuide
  import opened ReleaseGuard

  const REPOSITORY := "https://github.com/locknessland/lockness-monorepo"
  // Split so that a proof about the first character need not unfold the whole text.
  const CONTINUITY_LINE :=
    "Version" + " numbering continues from `0.1.30`, the last release published from the retired repository."
  const BREAKING_HEADING := "## \U{26A0}\U{FE0F} Breaking changes"
  const NONE_RECORDED := "No" + " breaking change is recorded for this release."

  datatype Commit = Commit(sha: string, subject: string)

  /** A body, or the refusal of "none recorded" when commits marked breaking contradict it. */
  datatype Composed = Body(text: string) | Contradicted(version: string, commits: seq<Commit>)

  // ----- The index -----

  /** The paths with a section for the version, in order of first appearance. */
  function PathsOf(version: string, sections: seq<Section>): seq<string> {
    if sections == [] then []
    else
      var paths, s := PathsOf(version, sections[..|sections| - 1]), sections[|sections| - 1];
      if s.version == version && s.path !in paths then paths + [s.path] else paths
  }

  /** The titles under one path for the version, in document order. */
  function TitlesAt(version: string, path: string, sections: seq<Section>): seq<string> {
    if sections == [] then []
    else
      var s := sections[|sections| - 1];
      TitlesAt(version, path, sections[..|sections| - 1]) +
        (if s.version == version && s.path == path then s.titles else [])
  }

  function WithoutDots(v: string): string {
    if v == "" then "" else (if v[0] == '.' then "" else [v[0]]) + WithoutDots(v[1..])
  }

  function GuideLink(version: string, path: string): string {
    REPOSITORY + "/blob/v" + version + "/" + path + "#upgrading-to-v" + WithoutDots(version)
  }

  function PathLine(version: string, path: string): string {
    "**`" + path + "`** \U{2014} [upgrade guide](" + GuideLink(version, path) + ")"
  }

  function Bullets(titles: seq<string>): (r: seq<string>)
    ensures |r| == |titles| && forall i :: 0 <= i < |r| ==> r[i] == "- " + titles[i]
  {
    if titles == [] then [] else ["- " + titles[0]] + Bullets(titles[1..])
  }

  function Entry(version: string, path: string, titles: seq<string>): seq<string> {
    [PathLine(version, path), ""] + Bullets(titles) + [""]
  }

  function Entries(version: string, paths: seq<string>, sections: seq<Section>): seq<string> {
    if paths == [] then []
    else
      var last := paths[|paths| - 1];
      Entries(version, paths[..|paths| - 1], sections) + Entry(version, last, TitlesAt(version, last, sections))
  }

  function Preamble(none: bool): seq<string> {
    [CONTINUITY_LINE, "", BREAKING_HEADING, ""] + if none then [NONE_RECORDED, ""] else []
  }

  function BodyLines(version: string, sections: seq<Section>): seq<string> {
    var paths := PathsOf(version, sections);
    Preamble(paths == []) + Entries(version, Sort(paths), sections)
  }

  /** Text with a newline at its end. */
  function Ended(text: string): string {
    if text != "" && text[|text| - 1] == '\n' then text else text + "\n"
  }

  /** The notes, when there are any, and the generated log behind them. */
  function Rest(notes: string, log: string): string {
    (if Trim(notes) != "" then "\n## Notes\n\n" + Ended(notes) else "") + (if log == "" then "" else "\n" + log)
  }

  /** `composeBody` */
  method ComposeBody(version: string, sections: seq<Section>, notes: string, log: string, commits: seq<Commit>)
    returns (r: Composed)
    ensures PathsOf(version, sections) == [] && commits != [] ==> r == Contradicted(version, commits)
    ensures PathsOf(version, sections) != [] || commits == [] ==>
              r == Body(Join(BodyLines(version, sections), '\n') + Rest(notes, log))
  {
    var byPath, keys := CollectByPath(version, sections);
    if keys == [] && commits != [] {
      return Contradicted(version, commits);
    }
    var lines := Preamble(keys == []);
    var sorted := Sort(keys);
    SortMembers(keys);
    hide *;
    var index := WriteEntries(version, sections, byPath, sorted);
    SameLines(version, sections, index);
    var body := Join(lines + index, '\n');
    RestSplits(body, notes, log);
    if Trim(notes) != "" {
      body := body + ("\n## Notes\n\n" + Ended(notes));
    }
    r := Body(body + if log == "" then "" else "\n" + log);
  }

  lemma SameLines(version: string, sections: seq<Section>, index: seq<string>)
    requires index == Entries(version, Sort(PathsOf(version, sections)), sections)
    ensures Preamble(PathsOf(version, sections) == []) + index == BodyLines(version, sections)
  {
  }

  /** The writing loop: an entry for each path, in order. */
  method WriteEntries(version: string, sections: seq<Section>, byPath: map<string, seq<string>>, paths: seq<string>)
    returns (lines: seq<string>)
    requires forall p :: p in paths ==> p in byPath && byPath[p] == TitlesAt(version, p, sections)
    ensures lines == Entries(version, paths, sections)
  {
    lines := [];
    hide TitlesAt, Entry;
    assert paths[..|paths|] == paths;
    for i := 0 to |paths|
      invariant lines == Entries(version, paths[..i], sections)
    {
      assert paths[..i + 1][..i] == paths[..i];
      assert paths[i] in paths;
      lines := lines + Entry(version, paths[i], byPath[paths[i]]);
    }
  }

  lemma RestSplits(body: string, notes: string, log: string)
    ensures body + Rest(notes, log)
         == (if Trim(notes) != "" then body + ("\n## Notes\n\n" + Ended(notes)) else body)
            + (if log == "" then "" else "\n" + log)
  {
    hide Trim, Ended;
  }

  /** Titles by path, and the paths in the order the map keeps them. */
  ghost predicate Grouped(byPath: map<string, seq<string>>, keys: seq<string>, version: string,
                          sections: seq<Section>) {
    && keys == PathsOf(version, sections)
    && (forall p :: p in byPath <==> p in keys)
    && forall p :: TitlesAt(version, p, sections) == if p in byPath then byPath[p] else []
  }

  /** The grouping loop. */
  method CollectByPath(version: string, sections: seq<Section>)
    returns (byPath: map<string, seq<string>>, keys: seq<string>)
    ensures Grouped(byPath, keys, version, sections)
  {
    byPath, keys := map[], [];
    GroupNothing(version);
    hide Grouped;
    for i := 0 to |sections|
      invariant Grouped(byPath, keys, version, sections[..i])
    {
      var section := sections[i];
      GroupStep(byPath, keys, version, sections[..i], section);
      assert sections[..i] + [section] == sections[..i + 1];
      if section.version == version {
        keys := if section.path in byPath then keys else keys + [section.path];
        byPath := byPath[section.path :=
          (if section.path in byPath then byPath[section.path] else []) + section.titles];
      }
    }
    assert sections[..|sections|] == sections;
  }

  lemma GroupNothing(version: string)
    ensures Grouped(map[], [], version, [])
  {
  }

  lemma GroupStep(byPath: map<string, seq<string>>, keys: seq<string>, version: string, init: seq<Section>, s: Section)
    requires Grouped(byPath, keys, version, init)
    ensures if s.version == version then
        Grouped(byPath[s.path := (if s.path in byPath then byPath[s.path] else []) + s.titles],
                if s.path in byPath then keys else keys + [s.path], version, init + [s])
      else Grouped(byPath, keys, version, init + [s])
  {
    CollectStep(version, init, s);
    hide PathsOf, TitlesAt;
  }

  lemma CollectStep(version: string, init: seq<Section>, s: Section)
    ensures PathsOf(version, init + [s])
         == PathsOf(version, init) + if s.version == version && s.path !in PathsOf(version, init) then [s.path] else []
    ensures forall p :: TitlesAt(version, p, init + [s])
                     == TitlesAt(version, p, init) + if s.version == version && s.path == p then s.titles else []
  {
    assert (init + [s])[..|init|] == init;
  }

  // ----- What the index lists -----

  predicate Lists(version: string, sections: seq<Section>, title: string) {
    exists s :: s in sections && s.version == version && title in s.titles
  }

  lemma {:induction false} TitlesAtAre(version: string, path: string, sections: seq<Section>, title: string)
    ensures title in TitlesAt(version, path, sections) <==> Holds(sections, version, path, title)
  {
    if sections != [] {
      var init, s := sections[..|sections| - 1], sections[|sections| - 1];
      TitlesAtAre(version, path, init, title);
      HoldsLast(init, s, version, path, title);
      assert sections == init + [s];
      hide Holds;
    }
  }

  lemma {:induction false} PathsAre(version: string, sections: seq<Section>, path: string)
    ensures path in PathsOf(version, sections) <==> exists s :: s in sections && s.version == version && s.path == path
  {
    if sections != [] {
      var init, s := sections[..|sections| - 1], sections[|sections| - 1];
      PathsAre(version, init, path);
      assert sections == init + [s];
    }
  }

  predicate Listed(version: string, paths: seq<string>, sections: seq<Section>, title: string) {
    exists p :: p in paths && title in TitlesAt(version, p, sections)
  }

  lemma PathLineIsNoBullet(version: string, path: string, title: string)
    ensures PathLine(version, path) != "- " + title && "" != "- " + title
  {
    assert PathLine(version, path)[0] == '*';
    assert ("- " + title)[0] == '-';
  }

  lemma BulletsAre(titles: seq<string>, title: string)
    ensures "- " + title in Bullets(titles) <==> title in titles
  {
    if "- " + title in Bullets(titles) {
      var i :| 0 <= i < |titles| && "- " + titles[i] == "- " + title;
      assert ("- " + titles[i])[2..] == titles[i] && ("- " + title)[2..] == title;
    }
    if title in titles {
      var i :| 0 <= i < |titles| && titles[i] == title;
      assert Bullets(titles)[i] == "- " + title;
    }
  }

  lemma EntryBullets(version: string, path: string, titles: seq<string>, title: string)
    ensures "- " + title in Entry(version, path, titles) <==> title in titles
  {
    PathLineIsNoBullet(version, path, title);
    BulletsAre(titles, title);
    hide PathLine, Bullets;
    var bullet, bullets := "- " + title, Bullets(titles);
    assert bullet in [PathLine(version, path), ""] + bullets + [""] <==> bullet in bullets;
  }

  lemma {:induction false} EntriesBullets(version: string, paths: seq<string>, sections: seq<Section>, title: string)
    ensures "- " + title in Entries(version, paths, sections) <==> Listed(version, paths, sections, title)
  {
    hide Entry, TitlesAt;
    if paths != [] {
      var init, last := paths[..|paths| - 1], paths[|paths| - 1];
      EntriesBullets(version, init, sections, title);
      EntryBullets(version, last, TitlesAt(version, last, sections), title);
      assert paths == init + [last];
    }
  }

  lemma PreambleHasNoBullet(none: bool, title: string)
    ensures "- " + title !in Preamble(none)
  {
    var bullet := "- " + title;
    assert bullet[0] == '-' && CONTINUITY_LINE[0] == 'V' && BREAKING_HEADING[0] == '#' && NONE_RECORDED[0] == 'N';
    hide CONTINUITY_LINE, BREAKING_HEADING, NONE_RECORDED;
  }

  /** The index lists a title exactly when some section of the version has it. */
  lemma IndexListsExactly(version: string, sections: seq<Section>, title: string)
    ensures "- " + title in BodyLines(version, sections) <==> Lists(version, sections, title)
  {
    var paths := PathsOf(version, sections);
    PreambleHasNoBullet(paths == [], title);
    EntriesBullets(version, Sort(paths), sections, title);
    SortMembers(paths);
    ListedIffLists(version, sections, title);
    hide PathsOf, Entries, Lists, TitlesAt, Sort, Preamble;
  }

  lemma ListedIffLists(version: string, sections: seq<Section>, title: string)
    ensures Listed(version, PathsOf(version, sections), sections, title) <==> Lists(version, sections, title)
  {
    hide PathsOf, TitlesAt;
    var paths := PathsOf(version, sections);
    if Listed(version, paths, sections, title) {
      var p :| p in paths && title in TitlesAt(version, p, sections);
      TitlesAtAre(version, p, sections, title);
    }
    if Lists(version, sections, title) {
      var s :| s in sections && s.version == version && title in s.titles;
      PathsAre(version, sections, s.path);
      TitlesAtAre(version, s.path, sections, title);
    }
  }

  /** The titles under a path stand in document order: those of earlier sections first. */
  lemma {:induction false} TitlesInOrder(version: string, path: string, first: seq<Section>, second: seq<Section>)
    ensures TitlesAt(version, path, first + second)
         == TitlesAt(version, path, first) + TitlesAt(version, path, second)
  {
    if second == [] {
      assert first + second == first;
    } else {
      var init := second[..|second| - 1];
      assert (first + second)[..|first + second| - 1] == first + init;
      TitlesInOrder(version, path, first, init);
    }
  }

  lemma OwnTitles(version: string, path: string, s: Section)
    ensures TitlesAt(version, path, [s]) == if s.version == version && s.path == path then s.titles else []
  {
    assert [s][..0] == [];
  }

  /** The lines for the paths in turn: each with its link and its titles. */
  function LinesFor(version: string, paths: seq<string>, sections: seq<Section>): seq<string> {
    if paths == [] then []
    else
      ["**`" + paths[0] + "`** \U{2014} [upgrade guide](" + GuideLink(version, paths[0]) + ")", ""]
      + Bullets(TitlesAt(version, paths[0], sections)) + [""]
      + LinesFor(version, paths[1..], sections)
  }

  lemma {:induction false} EntriesAreLines(version: string, paths: seq<string>, sections: seq<Section>)
    ensures Entries(version, paths, sections) == LinesFor(version, paths, sections)
  {
    hide GuideLink, Bullets, TitlesAt;
    if paths != [] {
      EntriesAreLines(version, paths[..|paths| - 1], sections);
      LinesForLast(version, paths[..|paths| - 1], paths[|paths| - 1], sections);
      assert paths == paths[..|paths| - 1] + [paths[|paths| - 1]];
    }
  }

  lemma {:induction false} LinesForLast(version: string, init: seq<string>, last: string, sections: seq<Section>)
    ensures LinesFor(version, init + [last], sections)
         == LinesFor(version, init, sections) + Entry(version, last, TitlesAt(version, last, sections))
  {
    hide GuideLink, Bullets, TitlesAt;
    if init == [] {
      assert [] + [last] == [last] && [last][1..] == [];
    } else {
      LinesForLast(version, init[1..], last, sections);
      assert (init + [last])[0] == init[0] && (init + [last])[1..] == init[1..] + [last];
      hide Entry;
      Assoc3(["**`" + init[0] + "`** \U{2014} [upgrade guide](" + GuideLink(version, init[0]) + ")", ""]
             + Bullets(TitlesAt(version, init[0], sections)) + [""],
             LinesFor(version, init[1..], sections), Entry(version, last, TitlesAt(version, last, sections)));
    }
  }

  lemma {:induction false} PathsDistinct(version: string, sections: seq<Section>)
    ensures Sequences.Distinct(PathsOf(version, sections))
  {
    if sections != [] {
      PathsDistinct(version, sections[..|sections| - 1]);
    }
  }

  /**
   The whole index: the heading, "none recorded" exactly when no section names the
   version, and then each path that has one, once, in ascending order.
   */
  lemma BodyLinesAre(version: string, sections: seq<Section>, paths: seq<string>)
    requires IsSorted(paths) && Sequences.Distinct(paths)
    requires forall p :: p in paths <==> exists s :: s in sections && s.version == version && s.path == p
    ensures BodyLines(version, sections)
         == [CONTINUITY_LINE, "", BREAKING_HEADING, ""]
            + (if exists s :: s in sections && s.version == version then [] else [NONE_RECORDED, ""])
            + LinesFor(version, paths, sections)
  {
    var own := PathsOf(version, sections);
    forall p
      ensures p in own <==> p in paths
    {
      PathsAre(version, sections, p);
    }
    PathsDistinct(version, sections);
    Sequences.DistinctCounts(own, paths);
    SortSorts(own);
    SortedOnce(Sort(own), paths);
    EntriesAreLines(version, paths, sections);
    NoneRecordedIff(version, sections);
    hide PathsOf, Entries, LinesFor, Sort, CONTINUITY_LINE, BREAKING_HEADING, NONE_RECORDED;
  }

  /** The log stands last, byte for byte on lines of its own; notes stand whole under their heading. */
  lemma RestIs(notes: string, log: string)
    ensures log != "" ==>
              |log| < |Rest(notes, log)| && Rest(notes, log)[|Rest(notes, log)| - |log|..] == log
              && Rest(notes, log)[|Rest(notes, log)| - |log| - 1] == '\n'
    ensures Trim(notes) != "" ==> "\n## Notes\n\n" + notes <= Rest(notes, log)
    ensures Trim(notes) == "" && log == "" ==> Rest(notes, log) == ""
    ensures Trim(notes) != "" && log == "" ==>
              Rest(notes, log)[|Rest(notes, log)| - 1] == '\n' && |Rest(notes, log)| <= |notes| + 12
  {
    hide Trim;
    var head := if Trim(notes) != "" then "\n## Notes\n\n" + Ended(notes) else "";
    var tail := if log == "" then "" else "\n" + log;
    assert Rest(notes, log) == head + tail;
    assert log != "" ==> tail[1..] == log && (head + tail)[|head| + 1..] == tail[1..];
    assert notes <= Ended(notes);
  }

  /** "None recorded" is said exactly when no section names the version. */
  lemma NoneRecordedIff(version: string, sections: seq<Section>)
    ensures PathsOf(version, sections) == [] <==> forall s :: s in sections ==> s.version != version
  {
    hide PathsOf;
    var paths := PathsOf(version, sections);
    if paths != [] {
      PathsAre(version, sections, paths[0]);
    } else {
      forall s | s in sections
        ensures s.version != version
      {
        PathsAre(version, sections, s.path);
      }
    }
  }

  // ----- The index as text -----

  ghost predicate Contains(text: string, part: string) {
    exists a, b :: text == a + part + b
  }

  /** A text in which the title stands on a line of its own, as a bullet. */
  ghost predicate Announces(text: string, title: string) {
    Contains(text, "\n- " + title + "\n")
  }

  lemma {:induction false} JoinAppend(a: seq<string>, b: seq<string>, sep: char)
    requires a != [] && b != []
    ensures Join(a + b, sep) == Join(a, sep) + [sep] + Join(b, sep)
  {
    if |a| == 1 {
      assert (a + b)[1..] == b;
    } else {
      JoinAppend(a[1..], b, sep);
      assert (a + b)[1..] == a[1..] + b;
      assert a[0] + [sep] + (Join(a[1..], sep) + [sep] + Join(b, sep))
          == a[0] + [sep] + Join(a[1..], sep) + [sep] + Join(b, sep);
    }
  }

  lemma InnerLine(pre: seq<string>, line: string, post: seq<string>, rest: string)
    requires pre != [] && post != []
    ensures Contains(Join(pre + [line] + post, '\n') + rest, "\n" + line + "\n")
  {
    JoinAppend(pre + [line], post, '\n');
    JoinAppend(pre, [line], '\n');
    var a, b := Join(pre, '\n'), Join(post, '\n');
    hide Join;
    assert a + "\n" + line + "\n" + b + rest == a + ("\n" + line + "\n") + (b + rest);
  }

  lemma {:induction false} EntriesEndBlank(version: string, paths: seq<string>, sections: seq<Section>)
    requires paths != []
    ensures var lines := Entries(version, paths, sections); lines != [] && lines[|lines| - 1] == ""
  {
  }

  lemma BodyEndsBlank(version: string, sections: seq<Section>)
    ensures var lines := BodyLines(version, sections);
            |lines| >= 2 && lines[0] == CONTINUITY_LINE && lines[|lines| - 1] == ""
  {
    var paths := Sort(PathsOf(version, sections));
    if paths != [] {
      EntriesEndBlank(version, paths, sections);
    }
  }

  /** A title some section of the version has stands on a line of its own in the body. */
  lemma ListedIsAnnounced(version: string, sections: seq<Section>, title: string, notes: string, log: string)
    requires Lists(version, sections, title)
    ensures Announces(Join(BodyLines(version, sections), '\n') + Rest(notes, log), title)
  {
    var lines, line := BodyLines(version, sections), "- " + title;
    IndexListsExactly(version, sections, title);
    BodyEndsBlank(version, sections);
    hide BodyLines, Lists, Rest, Join;
    var i :| 0 <= i < |lines| && lines[i] == line;
    BulletIsInner(lines, i, title);
    assert lines == lines[..i] + [line] + lines[i + 1..];
    InnerLine(lines[..i], line, lines[i + 1..], Rest(notes, log));
    assert "\n" + line + "\n" == "\n- " + title + "\n";
  }

  lemma BulletIsInner(lines: seq<string>, i: nat, title: string)
    requires i < |lines| && lines[i] == "- " + title
    requires lines[0] == CONTINUITY_LINE && lines[|lines| - 1] == ""
    ensures 0 < i < |lines| - 1
  {
    assert lines[i][0] == '-' && CONTINUITY_LINE[0] == 'V';
  }

  // ----- A history of releases -----

  /** The sections of the tree at each release tag. */
  type Tags = map<string, seq<Section>>

  /** `titlesAtTag`: a version's titles in its own tagged tree. */
  function TitlesAtTag(version: string, sections: seq<Section>): seq<string> {
    if sections == [] then []
    else (if sections[0].version == version then sections[0].titles else []) + TitlesAtTag(version, sections[1..])
  }

  lemma {:induction false} TitlesAtTagAre(version: string, sections: seq<Section>, title: string)
    ensures title in TitlesAtTag(version, sections) <==> Lists(version, sections, title)
  {
    if sections != [] {
      TitlesAtTagAre(version, sections[1..], title);
      assert sections == [sections[0]] + sections[1..];
    }
  }

  /** The table of released titles a tree is judged against. */
  ghost predicate IsTableFor(tagTitles: TagTitles, subject: seq<Section>, mode: Mode, tags: Tags)
    requires SectionsReleased(subject) && WellFormed(mode)
  {
    && (forall v :: v in tagTitles <==> v in JudgedVersions(subject, mode) && v in tags)
    && forall v :: v in tagTitles ==> tagTitles[v] == TitlesAtTag(v, tags[v])
  }

  /** `enforceGuard`: reads each judged version's own tag, and stops on any finding. */
  method EnforceGuard(subject: seq<Section>, mode: Mode, tags: Tags) returns (pass: bool)
    requires SectionsReleased(subject) && WellFormed(mode)
    ensures pass <==> Passes(subject, mode, tags)
  {
    hide IsRelease, Judged;
    var versions := JudgedVersions(subject, mode);
    var tagTitles: TagTitles := map[];
    for i := 0 to |versions|
      invariant forall v :: v in tagTitles <==> v in versions[..i] && v in tags
      invariant forall v :: v in tagTitles ==> tagTitles[v] == TitlesAtTag(v, tags[v])
    {
      if versions[i] in tags {
        tagTitles := tagTitles[versions[i] := TitlesAtTag(versions[i], tags[versions[i]])];
      }
    }
    assert versions[..|versions|] == versions;
    var findings := Guard(subject, tagTitles, mode);
    CleanIffFrozen(subject, tagTitles, mode);
    FrozenIffPasses(subject, tagTitles, mode, tags);
    pass := findings == [];
  }

  /** Every judged section's version is tagged, and its titles are all titles of that version at its own tag. */
  predicate Passes(subject: seq<Section>, mode: Mode, tags: Tags)
    requires SectionsReleased(subject) && WellFormed(mode)
  {
    forall s :: s in subject && Judged(s.version, mode) ==>
      s.version in tags && forall t :: t in s.titles ==> Lists(s.version, tags[s.version], t)
  }

  lemma FrozenIffPasses(subject: seq<Section>, tagTitles: TagTitles, mode: Mode, tags: Tags)
    requires SectionsReleased(subject) && WellFormed(mode) && IsTableFor(tagTitles, subject, mode, tags)
    ensures Frozen(subject, tagTitles, mode) <==> Passes(subject, mode, tags)
  {
    JudgedAre(subject, mode);
    hide IsRelease, Judged, JudgedVersions, Sequences.Distinct, Ascending, Lists, WellFormed, TitlesAtTag;
    forall s | s in subject && Judged(s.version, mode)
      ensures s.version in tagTitles <==> s.version in tags
      ensures s.version in tags ==>
                forall t :: t in s.titles ==> (t in tagTitles[s.version] <==> Lists(s.version, tags[s.version], t))
    {
      assert s.version in JudgedVersions(subject, mode);
      if s.version in tags {
        forall t | t in s.titles
          ensures t in tagTitles[s.version] <==> Lists(s.version, tags[s.version], t)
        {
          TitlesAtTagAre(s.version, tags[s.version], t);
        }
      }
    }
  }

  /**
   A title a passing tree lists under a judged version is announced in the body composed at that
   version's own tag.
   */
  lemma PassingIsAnnounced(subject: seq<Section>, mode: Mode, tags: Tags, s: Section, title: string, notes: string,
                           log: string)
    requires SectionsReleased(subject) && WellFormed(mode) && Passes(subject, mode, tags)
    requires s in subject && Judged(s.version, mode) && title in s.titles
    ensures s.version in tags && PathsOf(s.version, tags[s.version]) != []
    ensures Announces(Join(BodyLines(s.version, tags[s.version]), '\n') + Rest(notes, log), title)
  {
    hide IsRelease, Judged, PathsOf, BodyLines, Join, Rest, Announces;
    assert Lists(s.version, tags[s.version], title);
    ListedIsAnnounced(s.version, tags[s.version], title, notes, log);
    NoneRecordedIff(s.version, tags[s.version]);
  }

  /** One release: its version, and the sections of the tree its tag names. */
  datatype Release = Release(version: string, tree: seq<Section>)

  function TagsAfter(run: seq<Release>): (tags: Tags)
    ensures forall v :: v in tags <==> exists r :: r in run && r.version == v
  {
    if run == [] then map[]
    else
      var r := run[|run| - 1];
      assert run == run[..|run| - 1] + [r];
      TagsAfter(run[..|run| - 1])[r.version := r.tree]
  }

  /** Tags are never moved, and each release's render passed the guard when its tag was there. */
  predicate Legal(run: seq<Release>) {
    run == []
    || (var before, r := run[..|run| - 1], run[|run| - 1];
        && Legal(before)
        && IsRelease(r.version) && SectionsReleased(r.tree) && r.version !in TagsAfter(before)
        && Passes(r.tree, Render(r.version), TagsAfter(run)))
  }

  /** The frozen rule stays true of every tagged tree however many releases follow. */
  lemma {:induction false} LegalStaysPassing(run: seq<Release>, v: string)
    requires Legal(run) && v in TagsAfter(run)
    ensures IsRelease(v) && SectionsReleased(TagsAfter(run)[v])
    ensures Passes(TagsAfter(run)[v], Render(v), TagsAfter(run))
  {
    hide IsRelease, SectionsReleased, Judged, Lists;
    var before, r := run[..|run| - 1], run[|run| - 1];
    if v != r.version {
      LegalStaysPassing(before, v);
    }
  }

  /**
   Along any history of releases that each passed the guard, every title a later tree
   lists under an earlier version is announced in the body composed at that version's tag.
   */
  lemma HistoryIsAnnounced(run: seq<Release>, later: string, s: Section, title: string, notes: string, log: string)
    requires Legal(run) && later in TagsAfter(run) && s in TagsAfter(run)[later] && title in s.titles
    requires IsRelease(s.version) && IsRelease(later) && CompareVersions(s.version, later) < 0
    ensures s.version in TagsAfter(run)
    ensures Announces(Join(BodyLines(s.version, TagsAfter(run)[s.version]), '\n') + Rest(notes, log), title)
  {
    LegalStaysPassing(run, later);
    hide IsRelease, TagsAfter, Legal, Passes, BodyLines, Join, Rest, Announces;
    PassingIsAnnounced(TagsAfter(run)[later], Render(later), TagsAfter(run), s, title, notes, log);
  }
}
