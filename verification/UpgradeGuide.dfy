/**
 Reading upgrade guides: the line machine that finds `## Upgrading to v<X.Y.Z>`
 sections and their `###` titles in Markdown, past fenced code and setext headings.

 Whether a heading reads like an upgrade section without being one is judged by a
 pattern over Unicode letter classes; it is a parameter, `nearMiss`, throughout.
 */
module UpgradeGuide {
  import opened Options
  import opened Strings

  datatype Fence = Fence(mark: char, length: nat)

  datatype Paragraph = Paragraph(line: nat, text: string)

  /** A heading: its level, its text, where a finding points, what it prints, and the version it opens. */
  datatype Heading = Heading(level: nat, text: string, line: nat, shown: string, opens: Option<string>)

  datatype Section = Section(path: string, version: string, titles: seq<string>)

  datatype HeadingAt = HeadingAt(path: string, line: nat, heading: string)

  datatype ParsedGuide = ParsedGuide(sections: seq<Section>, nearMisses: seq<HeadingAt>, emptySections: seq<HeadingAt>)

  // ----- Lines -----

  predicate IsBlank(c: char) {
    c == ' ' || c == '\t'
  }

  predicate AllBlank(s: string) {
    forall c :: c in s ==> IsBlank(c)
  }

  /** How many of a character a text starts with. */
  function Run(s: string, c: char): (n: nat)
    ensures n <= |s| && forall i :: 0 <= i < n ==> s[i] == c
    ensures n < |s| ==> s[n] != c
  {
    if s == "" || s[0] != c then 0 else 1 + Run(s[1..], c)
  }

  /** The line behind its indent of at most three spaces. */
  function Unindented(line: string): Option<string> {
    var n := Run(line, ' ');
    if n <= 3 then Some(line[n..]) else None
  }

  function OpensFence(line: string): Option<Fence> {
    match Unindented(line)
    case None => None
    case Some(t) =>
      var ticks, tildes := Run(t, '`'), Run(t, '~');
      if ticks >= 3 then
        if OneLine(t[ticks..]) && '`' !in t[ticks..] then Some(Fence('`', ticks)) else None
      else if tildes >= 3 && OneLine(t[tildes..]) then Some(Fence('~', tildes))
      else None
  }

  predicate ClosesFence(line: string, fence: Fence) {
    match Unindented(line)
    case None => false
    case Some(t) =>
      && t != "" && (t[0] == '`' || t[0] == '~')
      && var n := Run(t, t[0]);
         AllBlank(t[n..]) && t[0] == fence.mark && n >= fence.length
  }

  predicate IsSetextUnderline(line: string) {
    match Unindented(line)
    case None => false
    case Some(t) => t != "" && (t[0] == '=' || t[0] == '-') && AllBlank(t[Run(t, t[0])..])
  }

  function Count(s: string, c: char): nat {
    if s == "" then 0 else (if s[0] == c then 1 else 0) + Count(s[1..], c)
  }

  predicate IsThematicBreak(line: string) {
    match Unindented(line)
    case None => false
    case Some(t) =>
      && t != "" && t[0] in "-*_"
      && (forall x :: x in t ==> x == t[0] || IsBlank(x))
      && Count(t, t[0]) >= 3
  }

  /** A line that interrupts a paragraph and cannot carry a setext underline. */
  predicate IsNotParagraph(line: string) {
    match Unindented(line)
    case None => true
    case Some(t) =>
      var d := DigitRun(t);
      || (|t| >= 2 && t[0] in "-*+" && IsBlank(t[1]))
      || (1 <= d <= 9 && d + 1 < |t| && t[d] in ".)" && IsBlank(t[d + 1]))
      || (t != "" && t[0] in "><|")
  }

  function NextParagraph(p: Option<Paragraph>, line: string, n: nat): Option<Paragraph> {
    if Trim(line) == "" || IsNotParagraph(line) then None
    else if IsSetextUnderline(line) || IsThematicBreak(line) then None
    else if p.Some? then Some(Paragraph(p.value.line, p.value.text + " " + Trim(line)))
    else Some(Paragraph(n, Trim(line)))
  }

  function TrailingRun(s: string, c: char): (n: nat)
    ensures n <= |s|
  {
    if s == "" || s[|s| - 1] != c then 0 else 1 + TrailingRun(s[..|s| - 1], c)
  }

  function DropTrailingBlanks(s: string): string {
    if s != "" && IsBlank(s[|s| - 1]) then DropTrailingBlanks(s[..|s| - 1]) else s
  }

  /** `.replace(/(^|[ \t]+)#+$/, '')` */
  function StripClosing(s: string): string {
    var n := TrailingRun(s, '#');
    if n == 0 then s
    else if n == |s| then ""
    else if IsBlank(s[|s| - n - 1]) then DropTrailingBlanks(s[..|s| - n])
    else s
  }

  function AtxHeading(line: string): Option<(nat, string)> {
    match Unindented(line)
    case None => None
    case Some(t) =>
      var n := Run(t, '#');
      if 1 <= n <= 6 && (n == |t| || (IsBlank(t[n]) && OneLine(t[n..]))) then
        Some((n, Trim(StripClosing(Trim(t[n..])))))
      else None
  }

  /** X.Y.Z */
  predicate IsRelease(v: string) {
    var parts := Split(v, '.');
    |parts| == 3 && forall p :: p in parts ==> IsDigits(p)
  }

  const EXACT := "Upgrading to v"

  function OpenedVersion(level: nat, text: string): Option<string> {
    if level == 2 && EXACT <= text && IsRelease(text[|EXACT|..]) then Some(text[|EXACT|..]) else None
  }

  /** The heading a line completes, if any: a setext underline makes one of the open paragraph. */
  function ReadHeading(line: string, p: Option<Paragraph>, n: nat): Option<Heading> {
    if p.Some? && IsSetextUnderline(line) then
      var mark := Trim(line);
      Some(Heading(if mark != "" && mark[0] == '=' then 1 else 2, p.value.text, p.value.line, p.value.text, None))
    else
      match AtxHeading(line)
      case None => None
      case Some((level, text)) => Some(Heading(level, text, n, Trim(line), OpenedVersion(level, text)))
  }

  // ----- The headings of a text, and what they mean -----

  /** The headings outside fences, in order, from a state of the scan. */
  function Headings(lines: seq<string>, fence: Option<Fence>, p: Option<Paragraph>, n: nat): seq<Heading>
    decreases |lines|
  {
    if lines == [] then []
    else
      var line, rest := lines[0], lines[1..];
      if fence.Some? then
        Headings(rest, if ClosesFence(line, fence.value) then None else fence, p, n + 1)
      else if OpensFence(line).Some? then Headings(rest, OpensFence(line), None, n + 1)
      else
        match ReadHeading(line, p, n)
        case None => Headings(rest, None, NextParagraph(p, line, n), n + 1)
        case Some(h) => [h] + Headings(rest, None, None, n + 1)
  }

  type NearMiss = string -> bool

  /** The titles a section takes: level-3 headings, not near-misses, up to the next heading of level 1 or 2. */
  function TitlesUntilNext(hs: seq<Heading>, nearMiss: NearMiss): seq<string> {
    if hs == [] || hs[0].level <= 2 then []
    else
      (if hs[0].level == 3 && !nearMiss(hs[0].text) then [hs[0].text] else []) + TitlesUntilNext(hs[1..], nearMiss)
  }

  /** The sections: every exact heading with at least one title under it. */
  function SectionsOf(hs: seq<Heading>, path: string, nearMiss: NearMiss): seq<Section> {
    if hs == [] then []
    else
      var titles := TitlesUntilNext(hs[1..], nearMiss);
      (if hs[0].opens.Some? && titles != [] then [Section(path, hs[0].opens.value, titles)] else [])
      + SectionsOf(hs[1..], path, nearMiss)
  }

  /** The empty sections: every exact heading without one. */
  function EmptyOf(hs: seq<Heading>, path: string, nearMiss: NearMiss): seq<HeadingAt> {
    if hs == [] then []
    else
      (if hs[0].opens.Some? && TitlesUntilNext(hs[1..], nearMiss) == []
       then [HeadingAt(path, hs[0].line, hs[0].shown)] else [])
      + EmptyOf(hs[1..], path, nearMiss)
  }

  function NearMissesOf(hs: seq<Heading>, path: string, nearMiss: NearMiss): seq<HeadingAt> {
    if hs == [] then []
    else
      (if hs[0].opens.None? && nearMiss(hs[0].text) then [HeadingAt(path, hs[0].line, hs[0].shown)] else [])
      + NearMissesOf(hs[1..], path, nearMiss)
  }

  function Openings(hs: seq<Heading>): seq<Heading> {
    if hs == [] then [] else (if hs[0].opens.Some? then [hs[0]] else []) + Openings(hs[1..])
  }

  /** `text.split(/\r?\n/)` */
  function Lines(text: string): seq<string> {
    StripReturns(Split(text, '\n'))
  }

  function StripReturns(parts: seq<string>): seq<string> {
    if |parts| <= 1 then parts
    else
      var s := parts[0];
      [if s != "" && s[|s| - 1] == '\r' then s[..|s| - 1] else s] + StripReturns(parts[1..])
  }

  function HeadingsOfText(text: string): seq<Heading> {
    Headings(Lines(text), None, None, 1)
  }

  /** The section being collected. */
  datatype Current = Current(line: nat, heading: string, version: string, titles: seq<string>)

  /** What closing the current section adds, once the headings that follow gave it their titles. */
  ghost function Pending(c: Option<Current>, hs: seq<Heading>, path: string, nearMiss: NearMiss): seq<Section> {
    if c.None? then []
    else
      var titles := c.value.titles + TitlesUntilNext(hs, nearMiss);
      if titles == [] then [] else [Section(path, c.value.version, titles)]
  }

  ghost function PendingEmpty(c: Option<Current>, hs: seq<Heading>, path: string, nearMiss: NearMiss): seq<HeadingAt> {
    if c.None? || c.value.titles + TitlesUntilNext(hs, nearMiss) != [] then []
    else [HeadingAt(path, c.value.line, c.value.heading)]
  }

  /** What the machine has written so far, and the section it is collecting. */
  datatype Collected = Collected(current: Option<Current>, guide: ParsedGuide)

  /** The guide that results if the headings hs are still to come. */
  ghost function Owed(c: Collected, hs: seq<Heading>, path: string, nearMiss: NearMiss): ParsedGuide {
    ParsedGuide(c.guide.sections + Pending(c.current, hs, path, nearMiss) + SectionsOf(hs, path, nearMiss),
                c.guide.nearMisses + NearMissesOf(hs, path, nearMiss),
                c.guide.emptySections + PendingEmpty(c.current, hs, path, nearMiss) + EmptyOf(hs, path, nearMiss))
  }

  /** `closeSection` */
  function Close(c: Collected, path: string): Collected {
    if c.current.None? then c
    else
      var Current(line, heading, version, titles) := c.current.value;
      if titles == [] then
        Collected(None, c.guide.(emptySections := c.guide.emptySections + [HeadingAt(path, line, heading)]))
      else
        Collected(None, c.guide.(sections := c.guide.sections + [Section(path, version, titles)]))
  }

  /** Closing at a heading of level 1 or 2, or at the end, changes nothing that is owed. */
  lemma CloseOwes(c: Collected, hs: seq<Heading>, path: string, nearMiss: NearMiss)
    requires hs == [] || hs[0].level <= 2
    ensures Owed(Close(c, path), hs, path, nearMiss) == Owed(c, hs, path, nearMiss)
  {
    NoTitles(hs, nearMiss);
    hide SectionsOf, EmptyOf, NearMissesOf, TitlesUntilNext;
    if c.current.Some? {
      var closed := Close(c, path).guide;
      assert c.current.value.titles + [] == c.current.value.titles;
      assert closed.sections + [] == closed.sections && closed.emptySections + [] == closed.emptySections;
      assert c.guide.sections + [] == c.guide.sections && c.guide.emptySections + [] == c.guide.emptySections;
    }
  }

  lemma NoTitles(hs: seq<Heading>, nearMiss: NearMiss)
    requires hs == [] || hs[0].level <= 2
    ensures TitlesUntilNext(hs, nearMiss) == []
  {
  }

  lemma OpenOwes(c: Collected, h: Heading, rest: seq<Heading>, path: string, nearMiss: NearMiss)
    requires c.current.None? && h.opens.Some?
    ensures Owed(c.(current := Some(Current(h.line, h.shown, h.opens.value, []))), rest, path, nearMiss)
         == Owed(c, [h] + rest, path, nearMiss)
  {
    OpenLists(h, rest, path, nearMiss);
    hide SectionsOf, EmptyOf, NearMissesOf, TitlesUntilNext;
    var t := TitlesUntilNext(rest, nearMiss);
    assert [] + t == t;
    assert c.guide.sections + [] == c.guide.sections && c.guide.emptySections + [] == c.guide.emptySections;
    Assoc3(c.guide.sections, if t != [] then [Section(path, h.opens.value, t)] else [],
           SectionsOf(rest, path, nearMiss));
    Assoc3(c.guide.emptySections, if t == [] then [HeadingAt(path, h.line, h.shown)] else [],
           EmptyOf(rest, path, nearMiss));
  }

  /** What a heading that opens a section adds to each list. */
  lemma OpenLists(h: Heading, rest: seq<Heading>, path: string, nearMiss: NearMiss)
    requires h.opens.Some?
    ensures var t := TitlesUntilNext(rest, nearMiss);
      && SectionsOf([h] + rest, path, nearMiss)
         == (if t != [] then [Section(path, h.opens.value, t)] else []) + SectionsOf(rest, path, nearMiss)
      && EmptyOf([h] + rest, path, nearMiss)
         == (if t == [] then [HeadingAt(path, h.line, h.shown)] else []) + EmptyOf(rest, path, nearMiss)
    ensures NearMissesOf([h] + rest, path, nearMiss) == NearMissesOf(rest, path, nearMiss)
  {
    assert ([h] + rest)[1..] == rest;
  }

  /** A heading that opens nothing: a near-miss, a title, or neither. */
  function Note(c: Collected, h: Heading, path: string, nearMiss: NearMiss): Collected {
    if nearMiss(h.text) then
      c.(guide := c.guide.(nearMisses := c.guide.nearMisses + [HeadingAt(path, h.line, h.shown)]))
    else if c.current.Some? && h.level == 3 then
      c.(current := Some(c.current.value.(titles := c.current.value.titles + [h.text])))
    else c
  }

  lemma NoteOwes(c: Collected, h: Heading, rest: seq<Heading>, path: string, nearMiss: NearMiss)
    requires h.opens.None? && (h.level <= 2 ==> c.current.None?)
    ensures Owed(Note(c, h, path, nearMiss), rest, path, nearMiss) == Owed(c, [h] + rest, path, nearMiss)
  {
    NoteLists(h, rest, path, nearMiss);
    hide SectionsOf, EmptyOf, NearMissesOf, TitlesUntilNext;
    var near := if nearMiss(h.text) then [HeadingAt(path, h.line, h.shown)] else [];
    Assoc3(c.guide.nearMisses, near, NearMissesOf(rest, path, nearMiss));
    assert c.guide.nearMisses + [] == c.guide.nearMisses;
    if c.current.Some? {
      var t := if h.level == 3 && !nearMiss(h.text) then [h.text] else [];
      Assoc3(c.current.value.titles, t, TitlesUntilNext(rest, nearMiss));
      assert c.current.value.titles + [] == c.current.value.titles;
    }
  }

  /** What a heading that opens nothing adds to each list. */
  lemma NoteLists(h: Heading, rest: seq<Heading>, path: string, nearMiss: NearMiss)
    requires h.opens.None?
    ensures SectionsOf([h] + rest, path, nearMiss) == SectionsOf(rest, path, nearMiss)
    ensures EmptyOf([h] + rest, path, nearMiss) == EmptyOf(rest, path, nearMiss)
    ensures NearMissesOf([h] + rest, path, nearMiss)
         == (if nearMiss(h.text) then [HeadingAt(path, h.line, h.shown)] else []) + NearMissesOf(rest, path, nearMiss)
    ensures h.level > 2 ==>
              TitlesUntilNext([h] + rest, nearMiss)
              == (if h.level == 3 && !nearMiss(h.text) then [h.text] else []) + TitlesUntilNext(rest, nearMiss)
  {
    assert ([h] + rest)[1..] == rest;
  }

  lemma OpensIsLevelTwo(line: string, p: Option<Paragraph>, n: nat)
    ensures ReadHeading(line, p, n).Some? && ReadHeading(line, p, n).value.opens.Some? ==>
              ReadHeading(line, p, n).value.level == 2
  {
  }

  /**
   `parseUpgradeSections`: one pass over the lines. Its sections, near-misses and empty
   sections are those of the text's headings outside fences.
   */
  method ParseUpgradeSections(text: string, path: string, nearMiss: NearMiss) returns (guide: ParsedGuide)
    ensures var hs := HeadingsOfText(text);
      guide == ParsedGuide(SectionsOf(hs, path, nearMiss), NearMissesOf(hs, path, nearMiss),
        EmptyOf(hs, path, nearMiss))
  {
    var c := Collected(None, ParsedGuide([], [], []));
    var fence: Option<Fence>, paragraph: Option<Paragraph> := None, None;
    var lines := Lines(text);
    NothingOwed(HeadingsOfText(text), path, nearMiss);
    assert lines[0..] == lines;
    ghost var goal := Owed(c, HeadingsOfText(text), path, nearMiss);
    hide OpensFence, ClosesFence, ReadHeading, NextParagraph, Lines, Owed, Close, Note, SectionsOf, EmptyOf,
         NearMissesOf;
    for i := 0 to |lines|
      invariant Owed(c, Headings(lines[i..], fence, paragraph, i + 1), path, nearMiss) == goal
    {
      var line := lines[i];
      assert lines[i..][1..] == lines[i + 1..];
      if fence.Some? {
        if ClosesFence(line, fence.value) {
          fence := None;
        }
        continue;
      }
      fence := OpensFence(line);
      if fence.Some? {
        paragraph := None;
        continue;
      }
      var heading := ReadHeading(line, paragraph, i + 1);
      OpensIsLevelTwo(line, paragraph, i + 1);
      if heading.None? {
        paragraph := NextParagraph(paragraph, line, i + 1);
        continue;
      }
      paragraph := None;
      var h := heading.value;
      ghost var rest := Headings(lines[i + 1..], None, None, i + 2);
      if h.level <= 2 {
        CloseOwes(c, [h] + rest, path, nearMiss);
        ClosedIsNone(c, path);
        c := Close(c, path);
      }
      if h.opens.Some? {
        OpenOwes(c, h, rest, path, nearMiss);
        c := c.(current := Some(Current(h.line, h.shown, h.opens.value, [])));
      } else {
        NoteOwes(c, h, rest, path, nearMiss);
        c := Note(c, h, path, nearMiss);
      }
    }
    assert lines[|lines|..] == [];
    CloseOwes(c, [], path, nearMiss);
    ClosedIsNone(c, path);
    c := Close(c, path);
    NothingLeft(c, path, nearMiss);
    guide := c.guide;
  }

  lemma ClosedIsNone(c: Collected, path: string)
    ensures Close(c, path).current.None?
  {
  }

  lemma NothingOwed(hs: seq<Heading>, path: string, nearMiss: NearMiss)
    ensures Owed(Collected(None, ParsedGuide([], [], [])), hs, path, nearMiss)
         == ParsedGuide(SectionsOf(hs, path, nearMiss), NearMissesOf(hs, path, nearMiss), EmptyOf(hs, path, nearMiss))
  {
  }

  lemma NothingLeft(c: Collected, path: string, nearMiss: NearMiss)
    requires c.current.None?
    ensures Owed(c, [], path, nearMiss) == c.guide
  {
  }

  /** Every exact heading outside a fence lands in exactly one of `sections` and `emptySections`. */
  lemma {:induction false} EveryOpeningLands(hs: seq<Heading>, path: string, nearMiss: NearMiss)
    ensures |SectionsOf(hs, path, nearMiss)| + |EmptyOf(hs, path, nearMiss)| == |Openings(hs)|
    ensures Shuffled(Openings(hs), SectionsOf(hs, path, nearMiss), EmptyOf(hs, path, nearMiss))
  {
    if hs != [] {
      EveryOpeningLands(hs[1..], path, nearMiss);
      if hs[0].opens.Some? {
        assert Openings(hs)[1..] == Openings(hs[1..]);
        if TitlesUntilNext(hs[1..], nearMiss) != [] {
          assert SectionsOf(hs, path, nearMiss)[1..] == SectionsOf(hs[1..], path, nearMiss);
          assert EmptyOf(hs, path, nearMiss) == EmptyOf(hs[1..], path, nearMiss);
        } else {
          assert EmptyOf(hs, path, nearMiss)[1..] == EmptyOf(hs[1..], path, nearMiss);
          assert SectionsOf(hs, path, nearMiss) == SectionsOf(hs[1..], path, nearMiss);
        }
      } else {
        assert Openings(hs) == Openings(hs[1..]);
        assert SectionsOf(hs, path, nearMiss) == SectionsOf(hs[1..], path, nearMiss);
        assert EmptyOf(hs, path, nearMiss) == EmptyOf(hs[1..], path, nearMiss);
      }
    }
  }

  /** Going through the openings in order, each one is the next section or the next empty section. */
  predicate Shuffled(openings: seq<Heading>, sections: seq<Section>, empty: seq<HeadingAt>) {
    if openings == [] then sections == [] && empty == []
    else
      || (sections != [] && Some(sections[0].version) == openings[0].opens && sections[0].titles != []
          && Shuffled(openings[1..], sections[1..], empty))
      || (empty != [] && empty[0].line == openings[0].line && empty[0].heading == openings[0].shown
          && Shuffled(openings[1..], sections, empty[1..]))
  }

  // ----- Printing a guide, and reading it back -----

  /**
   What may stand between headings: a blank line, a fenced block from its opening to
   its closing line, or lines of prose with a blank line behind them.
   */
  datatype Filler = BlankLine | Block(open: string, body: seq<string>, close: string) | Prose(lines: seq<string>)

  /** A line that is no heading of its own and no underline, and opens no fence. */
  predicate IsProse(line: string) {
    OpensFence(line).None? && AtxHeading(line).None? && !IsSetextUnderline(line)
  }

  predicate ClosedFiller(f: Filler) {
    match f
    case BlankLine => true
    case Block(open, body, close) =>
      && OpensFence(open).Some?
      && (forall line :: line in body ==> !ClosesFence(line, OpensFence(open).value))
      && ClosesFence(close, OpensFence(open).value)
    case Prose(lines) => forall line :: line in lines ==> IsProse(line)
  }

  function FillerLines(f: Filler): seq<string> {
    match f
    case BlankLine => [""]
    case Block(open, body, close) => [open] + body + [close]
    case Prose(lines) => lines + [""]
  }

  function AllFillerLines(fs: seq<Filler>): seq<string> {
    if fs == [] then [] else FillerLines(fs[0]) + AllFillerLines(fs[1..])
  }

  /** A title with what follows it; a section with what follows its heading, and its titles. */
  datatype PrintedTitle = PrintedTitle(title: string, after: seq<Filler>)
  datatype PrintedSection = PrintedSection(version: string, after: seq<Filler>, titles: seq<PrintedTitle>)

  function TitleLines(ts: seq<PrintedTitle>): seq<string> {
    if ts == [] then [] else ["### " + ts[0].title] + AllFillerLines(ts[0].after) + TitleLines(ts[1..])
  }

  function SectionLines(s: PrintedSection): seq<string> {
    ["## " + EXACT + s.version] + AllFillerLines(s.after) + TitleLines(s.titles)
  }

  function DocumentLines(doc: seq<PrintedSection>): seq<string> {
    if doc == [] then [] else SectionLines(doc[0]) + DocumentLines(doc[1..])
  }

  /** A title as it stands after trimming and taking closing marks off: nothing more comes off. */
  predicate NormalTitle(t: string) {
    && OneLine(t)
    && (t == "" || (!IsSpace(t[0]) && !IsSpace(t[|t| - 1])))
    && (var n := TrailingRun(t, '#'); n == 0 || (n < |t| && !IsBlank(t[|t| - n - 1])))
  }

  predicate Fillers(fs: seq<Filler>) {
    forall f :: f in fs ==> ClosedFiller(f)
  }

  predicate PrintableTitle(t: PrintedTitle, nearMiss: NearMiss) {
    NormalTitle(t.title) && !nearMiss(t.title) && Fillers(t.after)
  }

  predicate PrintableSection(s: PrintedSection, nearMiss: NearMiss) {
    && IsRelease(s.version) && Fillers(s.after) && s.titles != []
    && forall t :: t in s.titles ==> PrintableTitle(t, nearMiss)
  }

  function TitlesOf(ts: seq<PrintedTitle>): seq<string> {
    if ts == [] then [] else [ts[0].title] + TitlesOf(ts[1..])
  }

  function ExpectedSections(doc: seq<PrintedSection>, path: string): seq<Section> {
    if doc == [] then []
    else [Section(path, doc[0].version, TitlesOf(doc[0].titles))] + ExpectedSections(doc[1..], path)
  }

  lemma {:induction false} TrimStartBlank(s: string)
    requires s == "" || !IsSpace(s[0])
    ensures TrimStart(" " + s) == s
  {
    assert (" " + s)[1..] == s;
  }

  lemma TrimSpaceBefore(t: string)
    requires t == "" || (!IsSpace(t[0]) && !IsSpace(t[|t| - 1]))
    ensures Trim(" " + t) == t
  {
    TrimStartBlank(t);
    TrimNothing(t);
  }

  /** A line of k marks, a space and a text in normal form is a heading of level k with that text. */
  lemma AtxReads(line: string, k: nat, t: string)
    requires 1 <= k <= 6 && |line| == k + 1 + |t| && line[k..] == " " + t
    requires forall i :: 0 <= i < k ==> line[i] == '#'
    requires NormalTitle(t)
    ensures OpensFence(line).None?
    ensures AtxHeading(line) == Some((k, t))
  {
    assert line[k] == (" " + t)[0];
    assert Run(line, ' ') == 0 && Run(line, '`') == 0 && Run(line, '~') == 0;
    assert Run(line, '#') == k;
    assert line[0..] == line;
    TrimSpaceBefore(t);
    TrimNothing(t);
    assert OneLine(" " + t);
  }

  /** A printed title line is a level-3 heading with that title. */
  lemma TitleLineReads(t: string, p: Option<Paragraph>, n: nat)
    requires NormalTitle(t) && p.None?
    ensures var line := "### " + t;
      && OpensFence(line).None?
      && ReadHeading(line, p, n) == Some(Heading(3, t, n, Trim(line), None))
  {
    var line := "### " + t;
    assert line[3..] == " " + t;
    AtxReads(line, 3, t);
    hide AtxHeading, OpensFence, Trim;
  }

  /** A printed section heading opens its version. */
  lemma SectionLineReads(v: string, p: Option<Paragraph>, n: nat)
    requires IsRelease(v) && p.None?
    ensures var line := "## " + EXACT + v;
      && OpensFence(line).None?
      && ReadHeading(line, p, n) == Some(Heading(2, EXACT + v, n, Trim(line), Some(v)))
  {
    var line, t := "## " + EXACT + v, EXACT + v;
    assert line[2..] == " " + t;
    SectionTitleNormal(v);
    AtxReads(line, 2, t);
    assert t[|EXACT|..] == v;
    hide AtxHeading, OpensFence, Trim, IsRelease;
  }

  lemma SectionTitleNormal(v: string)
    requires IsRelease(v)
    ensures NormalTitle(EXACT + v)
  {
    ReleaseChars(v);
    var t := EXACT + v;
    assert t[0] == 'U' && t[|t| - 1] == v[|v| - 1];
    assert OneLine(EXACT);
    forall c | c in t
      ensures !IsLineTerminator(c)
    {
    }
  }

  /** A release number ends in a digit and is all digits and dots. */
  lemma ReleaseChars(v: string)
    requires IsRelease(v)
    ensures v != "" && '0' <= v[|v| - 1] <= '9'
    ensures forall c :: c in v ==> '0' <= c <= '9' || c == '.'
  {
    var parts := Split(v, '.');
    SplitParts(v, '.');
    var a, b, c := parts[0], parts[1], parts[2];
    assert a in parts && b in parts && c in parts;
    assert parts == [a, b, c];
    JoinThree(a, b, c);
    hide Split, Join, IsRelease;
    assert c[|c| - 1] in c;
  }

  lemma JoinThree(a: string, b: string, c: string)
    ensures Join([a, b, c], '.') == a + "." + (b + "." + c)
  {
    assert [a, b, c][1..] == [b, c] && [b, c][1..] == [c];
    assert Join([b, c], '.') == b + "." + c;
  }

  /** One line that opens a fence, outside one. */
  lemma OpenStep(line: string, rest: seq<string>, n: nat)
    requires OpensFence(line).Some?
    ensures Headings([line] + rest, None, None, n) == Headings(rest, OpensFence(line), None, n + 1)
  {
    hide OpensFence;
    assert ([line] + rest)[1..] == rest;
  }

  /** One line that makes a heading, outside a fence and with no paragraph open. */
  lemma HeadingStep(line: string, rest: seq<string>, n: nat)
    requires OpensFence(line).None? && ReadHeading(line, None, n).Some?
    ensures Headings([line] + rest, None, None, n)
            == [ReadHeading(line, None, n).value] + Headings(rest, None, None, n + 1)
  {
    hide OpensFence, ReadHeading;
    assert ([line] + rest)[1..] == rest;
  }

  lemma BlankStep(rest: seq<string>, p: Option<Paragraph>, n: nat)
    ensures Headings([""] + rest, None, p, n) == Headings(rest, None, None, n + 1)
  {
    BlankReads(p, n);
    hide OpensFence, ReadHeading, NextParagraph;
    assert ([""] + rest)[1..] == rest;
  }

  lemma BlankReads(p: Option<Paragraph>, n: nat)
    ensures OpensFence("").None? && ReadHeading("", p, n).None? && NextParagraph(p, "", n).None?
  {
    assert Unindented("") == Some("") && Run("", '`') == 0 && Run("", '~') == 0 && Run("", '#') == 0;
    assert Trim("") == "";
    hide Run, Unindented, Trim;
  }

  /** Prose makes no heading, and a blank line ends its paragraph. */
  lemma {:induction false} ProseScans(lines: seq<string>, rest: seq<string>, p: Option<Paragraph>, n: nat)
    requires forall line :: line in lines ==> IsProse(line)
    ensures Headings(lines + ([""] + rest), None, p, n) == Headings(rest, None, None, n + |lines| + 1)
    decreases |lines|
  {
    hide IsProse, NextParagraph;
    if lines == [] {
      assert [] + ([""] + rest) == [""] + rest;
      BlankStep(rest, p, n);
    } else {
      var line, more := lines[0], lines[1..] + ([""] + rest);
      assert line in lines;
      ProseStep(line, more, p, n);
      assert lines + ([""] + rest) == [line] + more;
      ProseScans(lines[1..], rest, NextParagraph(p, line, n), n + 1);
    }
  }

  lemma ProseStep(line: string, rest: seq<string>, p: Option<Paragraph>, n: nat)
    requires IsProse(line)
    ensures Headings([line] + rest, None, p, n) == Headings(rest, None, NextParagraph(p, line, n), n + 1)
  {
    assert ReadHeading(line, p, n).None?;
    hide ReadHeading, OpensFence, AtxHeading, IsSetextUnderline, NextParagraph;
    assert ([line] + rest)[1..] == rest;
  }

  lemma OneFillerScans(f: Filler, rest: seq<string>, n: nat)
    requires ClosedFiller(f)
    ensures Headings(FillerLines(f) + rest, None, None, n) == Headings(rest, None, None, n + |FillerLines(f)|)
  {
    hide OpensFence, ClosesFence, Headings;
    match f {
      case BlankLine =>
        BlankStep(rest, None, n);
      case Block(open, body, close) =>
        assert FillerLines(f) + rest == [open] + (body + ([close] + rest));
        OpenStep(open, body + ([close] + rest), n);
        BodyScans(OpensFence(open).value, body, close, rest, n + 1);
      case Prose(lines) =>
        assert FillerLines(f) + rest == lines + ([""] + rest);
        ProseScans(lines, rest, None, n);
    }
  }

  /** Behind filler, the scan is where it was, with no fence and no paragraph open. */
  lemma {:induction false} FillerScans(fs: seq<Filler>, lines: seq<string>, n: nat)
    requires Fillers(fs)
    ensures Headings(AllFillerLines(fs) + lines, None, None, n) == Headings(lines, None, None, n + |AllFillerLines(fs)|)
  {
    hide Headings, ClosedFiller, FillerLines;
    if fs == [] {
      assert [] + lines == lines;
    } else {
      assert AllFillerLines(fs) + lines == FillerLines(fs[0]) + (AllFillerLines(fs[1..]) + lines);
      OneFillerScans(fs[0], AllFillerLines(fs[1..]) + lines, n);
      FillerScans(fs[1..], lines, n + |FillerLines(fs[0])|);
    }
  }

  lemma {:induction false} BodyScans(fence: Fence, body: seq<string>, close: string, rest: seq<string>, n: nat)
    requires (forall line :: line in body ==> !ClosesFence(line, fence)) && ClosesFence(close, fence)
    ensures Headings(body + ([close] + rest), Some(fence), None, n) == Headings(rest, None, None, n + |body| + 1)
    decreases |body|
  {
    hide ClosesFence, OpensFence, ReadHeading, NextParagraph;
    var lines := body + ([close] + rest);
    if body == [] {
      assert lines[0] == close && lines[1..] == rest;
    } else {
      assert lines[0] == body[0] && lines[1..] == body[1..] + ([close] + rest);
      BodyScans(fence, body[1..], close, rest, n + 1);
    }
  }

  // ----- Setext headings -----

  /** A line of plain text: neither heading, fence, break, list, quote nor code. */
  predicate IsText(line: string) {
    IsProse(line) && Trim(line) != "" && !IsNotParagraph(line) && !IsThematicBreak(line)
  }

  /** The text of a paragraph: its lines trimmed, with a space between them. */
  function ParagraphText(lines: seq<string>): string
    requires lines != []
  {
    if |lines| == 1 then Trim(lines[0]) else ParagraphText(lines[..|lines| - 1]) + " " + Trim(lines[|lines| - 1])
  }

  /** Reading further lines of text into a paragraph. */
  lemma {:induction false} ParagraphGrows(before: seq<string>, lines: seq<string>, rest: seq<string>, m: nat, n: nat)
    requires before != [] && forall line :: line in lines ==> IsText(line)
    ensures Headings(lines + rest, None, Some(Paragraph(m, ParagraphText(before))), n)
         == Headings(rest, None, Some(Paragraph(m, ParagraphText(before + lines))), n + |lines|)
    decreases |lines|
  {
    hide Headings, IsProse, Trim, IsNotParagraph, IsThematicBreak;
    if lines == [] {
      assert [] + rest == rest && before + [] == before;
    } else {
      var line, more, p := lines[0], lines[1..] + rest, Some(Paragraph(m, ParagraphText(before)));
      assert line in lines && IsText(line);
      assert lines + rest == [line] + more;
      ProseStep(line, more, p, n);
      assert (before + [line])[..|before|] == before;
      TextGoesOn(p, line, n);
      ParagraphGrows(before + [line], lines[1..], rest, m, n + 1);
      assert (before + [line]) + lines[1..] == before + lines;
    }
  }

  lemma TextGoesOn(p: Option<Paragraph>, line: string, n: nat)
    requires IsText(line)
    ensures NextParagraph(p, line, n)
         == Some(if p.None? then Paragraph(n, Trim(line)) else Paragraph(p.value.line, p.value.text + " " + Trim(line)))
  {
    hide Trim, IsNotParagraph, IsThematicBreak, OpensFence, AtxHeading, IsSetextUnderline;
  }

  /**
   Lines of text over an underline are one heading: of level 1 under `=` and 2 under
   `-`, reported at the first line, with the whole paragraph as its text. It never
   opens a section.
   */
  lemma SetextReads(lines: seq<string>, underline: string, rest: seq<string>, n: nat)
    requires lines != [] && forall line :: line in lines ==> IsText(line)
    requires IsSetextUnderline(underline)
    ensures var text := ParagraphText(lines);
      Headings(lines + ([underline] + rest), None, None, n)
      == [Heading(if Trim(underline) != "" && Trim(underline)[0] == '=' then 1 else 2, text, n, text, None)]
         + Headings(rest, None, None, n + |lines| + 1)
  {
    hide Headings, IsProse, Trim, IsNotParagraph, IsThematicBreak, OpensFence, IsSetextUnderline;
    var first, tail := lines[0], lines[1..] + ([underline] + rest);
    assert first in lines && IsText(first);
    assert lines + ([underline] + rest) == [first] + tail;
    ProseStep(first, tail, None, n);
    TextGoesOn(None, first, n);
    ParagraphGrows([first], lines[1..], [underline] + rest, n, n + 1);
    assert [first] + lines[1..] == lines;
    UnderlineStep(underline, rest, Paragraph(n, ParagraphText(lines)), n + |lines|);
  }

  lemma UnderlineStep(underline: string, rest: seq<string>, p: Paragraph, n: nat)
    requires IsSetextUnderline(underline)
    ensures Headings([underline] + rest, None, Some(p), n)
         == [Heading(if Trim(underline) != "" && Trim(underline)[0] == '=' then 1 else 2, p.text, p.line, p.text, None)]
            + Headings(rest, None, None, n + 1)
  {
    assert OpensFence(underline).None?;
    hide IsSetextUnderline, OpensFence, Trim, NextParagraph;
    assert ([underline] + rest)[1..] == rest;
  }

  /** The headings a document's lines hold, line numbers and all. */
  function TitleHeading(title: string, n: nat): Heading {
    Heading(3, title, n, Trim("### " + title), None)
  }

  function SectionHeading(version: string, n: nat): Heading {
    Heading(2, EXACT + version, n, Trim("## " + EXACT + version), Some(version))
  }

  function TitleHeadings(ts: seq<PrintedTitle>, n: nat): seq<Heading> {
    if ts == [] then []
    else [TitleHeading(ts[0].title, n)] + TitleHeadings(ts[1..], n + 1 + |AllFillerLines(ts[0].after)|)
  }

  function DocumentHeadings(doc: seq<PrintedSection>, n: nat): seq<Heading> {
    if doc == [] then []
    else
      var m := n + 1 + |AllFillerLines(doc[0].after)|;
      [SectionHeading(doc[0].version, n)]
      + (TitleHeadings(doc[0].titles, m) + DocumentHeadings(doc[1..], m + |TitleLines(doc[0].titles)|))
  }

  lemma Assoc3<T>(a: seq<T>, b: seq<T>, c: seq<T>)
    ensures a + b + c == a + (b + c)
  {
  }

  lemma Assoc4<T>(a: seq<T>, b: seq<T>, c: seq<T>, d: seq<T>)
    ensures a + b + c + d == a + (b + (c + d))
  {
  }

  /** A heading line with its filler, in front of any other lines. */
  lemma HeadingScans(line: string, h: Heading, after: seq<Filler>, rest: seq<string>, n: nat)
    requires OpensFence(line).None? && ReadHeading(line, None, n) == Some(h) && Fillers(after)
    ensures Headings([line] + (AllFillerLines(after) + rest), None, None, n)
         == [h] + Headings(rest, None, None, n + 1 + |AllFillerLines(after)|)
  {
    hide *;
    HeadingStep(line, AllFillerLines(after) + rest, n);
    FillerScans(after, rest, n + 1);
  }

  lemma {:induction false} TitlesScan(ts: seq<PrintedTitle>, lines: seq<string>, n: nat, nearMiss: NearMiss)
    requires forall t :: t in ts ==> PrintableTitle(t, nearMiss)
    ensures Headings(TitleLines(ts) + lines, None, None, n)
         == TitleHeadings(ts, n) + Headings(lines, None, None, n + |TitleLines(ts)|)
    decreases |ts|
  {
    hide Headings, ReadHeading, OpensFence, NormalTitle, Trim, AllFillerLines, Fillers;
    if ts == [] {
      assert [] + lines == lines;
    } else {
      var t, tail := ts[0], ts[1..];
      assert PrintableTitle(t, nearMiss);
      var line, filler, m := "### " + t.title, AllFillerLines(t.after), n + 1 + |AllFillerLines(t.after)|;
      TitleLineReads(t.title, None, n);
      assert ReadHeading(line, None, n) == Some(TitleHeading(t.title, n));
      hide TitleHeading;
      TitlesScan(tail, lines, m, nearMiss);
      Assoc4([line], filler, TitleLines(tail), lines);
      HeadingScans(line, TitleHeading(t.title, n), t.after, TitleLines(tail) + lines, n);
      Assoc3([TitleHeading(t.title, n)], TitleHeadings(tail, m), Headings(lines, None, None, m + |TitleLines(tail)|));
    }
  }

  /** A printed section's lines, in front of any others. */
  lemma SectionScans(s: PrintedSection, rest: seq<string>, n: nat, nearMiss: NearMiss)
    requires PrintableSection(s, nearMiss)
    ensures var m := n + 1 + |AllFillerLines(s.after)|;
      Headings(SectionLines(s) + rest, None, None, n)
      == [SectionHeading(s.version, n)] +
        (TitleHeadings(s.titles, m) + Headings(rest, None, None, m + |TitleLines(s.titles)|))
  {
    hide Headings, ReadHeading, OpensFence, PrintableTitle, Trim, AllFillerLines, Fillers, IsRelease, TitleLines,
         TitleHeadings;
    var line, titles, filler := "## " + EXACT + s.version, TitleLines(s.titles), AllFillerLines(s.after);
    SectionLineReads(s.version, None, n);
    assert ReadHeading(line, None, n) == Some(SectionHeading(s.version, n));
    hide SectionHeading;
    TitlesScan(s.titles, rest, n + 1 + |filler|, nearMiss);
    Assoc4([line], filler, titles, rest);
    HeadingScans(line, SectionHeading(s.version, n), s.after, titles + rest, n);
  }

  lemma {:induction false} DocumentScans(doc: seq<PrintedSection>, n: nat, nearMiss: NearMiss)
    requires forall s :: s in doc ==> PrintableSection(s, nearMiss)
    ensures Headings(DocumentLines(doc), None, None, n) == DocumentHeadings(doc, n)
    decreases |doc|
  {
    NoLines(n);
    hide Headings, PrintableSection, SectionLines, SectionHeading, TitleHeadings, TitleLines, AllFillerLines;
    if doc != [] {
      var k := n + 1 + |AllFillerLines(doc[0].after)| + |TitleLines(doc[0].titles)|;
      SectionScans(doc[0], DocumentLines(doc[1..]), n, nearMiss);
      DocumentScans(doc[1..], k, nearMiss);
    }
  }

  lemma NoLines(n: nat)
    ensures Headings([], None, None, n) == []
  {
  }

  /** Headings of a section's titles give back the titles, whatever section follows. */
  lemma {:induction false} TitlesRead(ts: seq<PrintedTitle>, next: seq<Heading>, n: nat, path: string,
                                      nearMiss: NearMiss)
    requires forall t :: t in ts ==> !nearMiss(t.title)
    requires next == [] || next[0].level <= 2
    ensures TitlesUntilNext(TitleHeadings(ts, n) + next, nearMiss) == TitlesOf(ts)
    ensures SectionsOf(TitleHeadings(ts, n) + next, path, nearMiss) == SectionsOf(next, path, nearMiss)
    ensures EmptyOf(TitleHeadings(ts, n) + next, path, nearMiss) == EmptyOf(next, path, nearMiss)
    ensures NearMissesOf(TitleHeadings(ts, n) + next, path, nearMiss) == NearMissesOf(next, path, nearMiss)
    decreases |ts|
  {
    hide SectionsOf, EmptyOf, NearMissesOf, AllFillerLines, Trim;
    if ts == [] {
      assert [] + next == next;
    } else {
      hide TitlesUntilNext;
      assert ts[0] in ts;
      var m := n + 1 + |AllFillerLines(ts[0].after)|;
      var h, hs := TitleHeading(ts[0].title, n), TitleHeadings(ts[1..], m);
      TitlesRead(ts[1..], next, m, path, nearMiss);
      Assoc3([h], hs, next);
      NoteLists(h, hs + next, path, nearMiss);
      assert [] + NearMissesOf(hs + next, path, nearMiss) == NearMissesOf(hs + next, path, nearMiss);
    }
  }

  lemma NothingToRead(path: string, nearMiss: NearMiss)
    ensures SectionsOf([], path, nearMiss) == [] && EmptyOf([], path, nearMiss) == []
            && NearMissesOf([], path, nearMiss) == []
  {
  }

  lemma SectionOpens(version: string, n: nat)
    ensures SectionHeading(version, n).opens == Some(version)
  {
  }

  lemma SectionsFollow(doc: seq<PrintedSection>, n: nat)
    ensures DocumentHeadings(doc, n) == [] || DocumentHeadings(doc, n)[0].level == 2
  {
    hide Trim, TitleHeadings, TitleLines, AllFillerLines;
  }

  /** What reading a printed section back needs of it. */
  predicate Readable(s: PrintedSection, nearMiss: NearMiss) {
    s.titles != [] && forall t :: t in s.titles ==> !nearMiss(t.title)
  }

  lemma PrintableReads(doc: seq<PrintedSection>, nearMiss: NearMiss)
    requires forall s :: s in doc ==> PrintableSection(s, nearMiss)
    ensures forall s :: s in doc ==> Readable(s, nearMiss)
  {
    hide IsRelease, Fillers, NormalTitle;
  }

  lemma {:induction false} DocumentReads(doc: seq<PrintedSection>, n: nat, path: string, nearMiss: NearMiss)
    requires forall s :: s in doc ==> Readable(s, nearMiss)
    ensures SectionsOf(DocumentHeadings(doc, n), path, nearMiss) == ExpectedSections(doc, path)
    ensures EmptyOf(DocumentHeadings(doc, n), path, nearMiss) == []
    ensures NearMissesOf(DocumentHeadings(doc, n), path, nearMiss) == []
    decreases |doc|
  {
    NothingToRead(path, nearMiss);
    hide AllFillerLines, Trim, TitleLines, TitleHeadings, SectionHeading, SectionsOf, EmptyOf, NearMissesOf,
         TitlesUntilNext;
    if doc == [] {
      return;
    }
    var s := doc[0];
    assert s in doc;
    var m := n + 1 + |AllFillerLines(s.after)|;
    var h, hs := SectionHeading(s.version, n), TitleHeadings(s.titles, m);
    var next := DocumentHeadings(doc[1..], m + |TitleLines(s.titles)|);
    SectionsFollow(doc[1..], m + |TitleLines(s.titles)|);
    DocumentReads(doc[1..], m + |TitleLines(s.titles)|, path, nearMiss);
    TitlesRead(s.titles, next, m, path, nearMiss);
    SectionOpens(s.version, n);
    OpenLists(h, hs + next, path, nearMiss);
    assert [] + EmptyOf(hs + next, path, nearMiss) == EmptyOf(hs + next, path, nearMiss);
  }

  // ----- From lines to text -----

  /** A line as it stands in a text split at line ends. */
  predicate IsTextLine(line: string) {
    '\n' !in line && (line != "" ==> line[|line| - 1] != '\r')
  }

  lemma {:induction false} StripNothing(parts: seq<string>)
    requires forall line :: line in parts ==> IsTextLine(line)
    ensures StripReturns(parts) == parts
  {
    if |parts| > 1 {
      assert parts[0] in parts;
      StripNothing(parts[1..]);
    }
  }

  lemma LinesOfJoin(lines: seq<string>)
    requires lines != [] && forall line :: line in lines ==> IsTextLine(line)
    ensures Lines(Join(lines, '\n')) == lines
  {
    SplitJoin(lines, '\n');
    StripNothing(lines);
  }

  /** A printed guide: filler, then sections. */
  function GuideLines(before: seq<Filler>, doc: seq<PrintedSection>): seq<string> {
    AllFillerLines(before) + DocumentLines(doc)
  }

  lemma EmptyText()
    ensures HeadingsOfText(Join([], '\n')) == Headings([], None, None, 1)
  {
    assert Lines("") == [""];
    BlankStep([], None, 1);
    hide OpensFence, ReadHeading, NextParagraph;
    assert [""] + [] == [""];
  }

  /** Joining lines into a text loses no heading. */
  lemma TextScans(lines: seq<string>)
    requires forall line :: line in lines ==> IsTextLine(line)
    ensures HeadingsOfText(Join(lines, '\n')) == Headings(lines, None, None, 1)
  {
    hide Headings, Lines, Join, IsTextLine;
    if lines == [] {
      EmptyText();
    } else {
      LinesOfJoin(lines);
    }
  }

  lemma GuideScans(before: seq<Filler>, doc: seq<PrintedSection>, nearMiss: NearMiss)
    requires Fillers(before) && forall s :: s in doc ==> PrintableSection(s, nearMiss)
    ensures Headings(GuideLines(before, doc), None, None, 1) == DocumentHeadings(doc, 1 + |AllFillerLines(before)|)
  {
    hide Headings, DocumentLines, DocumentHeadings, AllFillerLines, PrintableSection, Fillers;
    FillerScans(before, DocumentLines(doc), 1);
    DocumentScans(doc, 1 + |AllFillerLines(before)|, nearMiss);
  }

  /**
   Parsing undoes printing: a guide printed with any filler around its headings
   parses back to the same sections in the same order, and nothing else is reported.
   */
  method PrintThenParse(before: seq<Filler>, doc: seq<PrintedSection>, path: string, nearMiss: NearMiss)
    returns (guide: ParsedGuide)
    requires Fillers(before) && forall s :: s in doc ==> PrintableSection(s, nearMiss)
    requires forall line :: line in GuideLines(before, doc) ==> IsTextLine(line)
    ensures guide == ParsedGuide(ExpectedSections(doc, path), [], [])
  {
    PrintableReads(doc, nearMiss);
    hide *;
    TextScans(GuideLines(before, doc));
    GuideScans(before, doc, nearMiss);
    DocumentReads(doc, 1 + |AllFillerLines(before)|, path, nearMiss);
    guide := ParseUpgradeSections(Join(GuideLines(before, doc), '\n'), path, nearMiss);
  }
}
