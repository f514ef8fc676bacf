/**
 The shapes of Markdown lines, each spelled out as the pieces a line is made of, and
 that the line readers of the upgrade guides recognise exactly these shapes.
 */
module LineShapes {
  import opened Options
  import opened Strings
  import opened UpgradeGuide

  predicate IsIndent(s: string) {
    |s| <= 3 && forall i :: 0 <= i < |s| ==> s[i] == ' '
  }

  predicate IsRun(s: string, c: char) {
    s != "" && forall i :: 0 <= i < |s| ==> s[i] == c
  }

  lemma {:induction false} RunThen(marks: string, rest: string, c: char)
    requires forall i :: 0 <= i < |marks| ==> marks[i] == c
    requires rest != "" ==> rest[0] != c
    ensures Run(marks + rest, c) == |marks|
  {
    if marks == "" {
      assert marks + rest == rest;
    } else {
      assert (marks + rest)[1..] == marks[1..] + rest;
      RunThen(marks[1..], rest, c);
    }
  }

  lemma UnindentedIs(indent: string, rest: string)
    requires IsIndent(indent) && rest != "" && rest[0] != ' '
    ensures Unindented(indent + rest) == Some(rest)
  {
    RunThen(indent, rest, ' ');
    assert (indent + rest)[|indent|..] == rest;
  }

  lemma UnindentedSplits(line: string) returns (indent: string)
    requires Unindented(line).Some?
    ensures IsIndent(indent) && line == indent + Unindented(line).value
    ensures Unindented(line).value != "" ==> Unindented(line).value[0] != ' '
  {
    var n := Run(line, ' ');
    indent := line[..n];
  }

  /** The run a text starts with, and the rest. */
  lemma RunSplits(t: string, c: char)
    ensures t == t[..Run(t, c)] + t[Run(t, c)..]
    ensures forall i :: 0 <= i < Run(t, c) ==> t[i] == c
    ensures t[Run(t, c)..] != "" ==> t[Run(t, c)..][0] != c
  {
  }

  // ----- Fences -----

  /** At most three spaces, three or more backticks or tildes, and a rest of one line; behind backticks, without any. */
  ghost predicate FenceShape(line: string, mark: char, indent: string, marks: string, info: string) {
    && line == indent + (marks + info) && IsIndent(indent)
    && (mark == '`' || mark == '~') && IsRun(marks, mark) && |marks| >= 3
    && OneLine(info) && (info != "" ==> info[0] != mark) && (mark == '`' ==> '`' !in info)
  }

  lemma OpensFenceIff(line: string, f: Fence)
    ensures OpensFence(line) == Some(f) <==>
              exists indent, marks, info :: FenceShape(line, f.mark, indent, marks, info) && |marks| == f.length
  {
    if OpensFence(line) == Some(f) {
      var indent, marks, info := FencePieces(line, f);
    }
    hide OpensFence, FenceShape;
    if indent, marks, info :| FenceShape(line, f.mark, indent, marks, info) && |marks| == f.length {
      FenceOpens(line, f.mark, indent, marks, info);
    }
  }

  lemma FencePieces(line: string, f: Fence) returns (indent: string, marks: string, info: string)
    requires OpensFence(line) == Some(f)
    ensures FenceShape(line, f.mark, indent, marks, info) && |marks| == f.length
  {
    hide OneLine, Run;
    indent := UnindentedSplits(line);
    var t := Unindented(line).value;
    assert f.length == Run(t, f.mark) && f.length >= 3 && (f.mark == '`' || f.mark == '~');
    assert OneLine(t[f.length..]) && (f.mark == '`' ==> '`' !in t[f.length..]);
    hide OpensFence, Unindented;
    RunSplits(t, f.mark);
    marks, info := t[..f.length], t[f.length..];
  }

  lemma FenceOpens(line: string, mark: char, indent: string, marks: string, info: string)
    requires FenceShape(line, mark, indent, marks, info)
    ensures OpensFence(line) == Some(Fence(mark, |marks|))
  {
    var t := marks + info;
    assert t[0] == mark;
    UnindentedIs(indent, t);
    RunThen(marks, info, mark);
    assert t[|marks|..] == info;
    if mark == '~' {
      assert Run(t, '`') == 0;
    }
  }

  /** At most three spaces, a run of the fence's mark that is no shorter, and blanks. */
  ghost predicate CloseShape(line: string, fence: Fence, indent: string, marks: string, blanks: string) {
    && line == indent + (marks + blanks) && IsIndent(indent)
    && IsRun(marks, fence.mark) && |marks| >= fence.length && AllBlank(blanks)
  }

  lemma ClosesFenceIff(line: string, fence: Fence)
    requires fence.mark == '`' || fence.mark == '~'
    ensures ClosesFence(line, fence) <==> exists indent, marks, blanks :: CloseShape(line, fence, indent, marks, blanks)
  {
    if ClosesFence(line, fence) {
      var indent, marks, blanks := RunLine(line);
      assert CloseShape(line, fence, indent, marks, blanks);
    }
    if indent, marks, blanks :| CloseShape(line, fence, indent, marks, blanks) {
      RunLineIs(line, indent, marks, blanks);
    }
  }

  /** A line that is one run and blanks, taken apart. */
  lemma RunLine(line: string) returns (indent: string, marks: string, blanks: string)
    requires Unindented(line).Some? && Unindented(line).value != ""
    ensures var t := Unindented(line).value; marks == t[..Run(t, t[0])] && blanks == t[Run(t, t[0])..]
    ensures line == indent + (marks + blanks) && IsIndent(indent) && IsRun(marks, Unindented(line).value[0])
  {
    indent := UnindentedSplits(line);
    var t := Unindented(line).value;
    RunSplits(t, t[0]);
    marks, blanks := t[..Run(t, t[0])], t[Run(t, t[0])..];
  }

  /** The same, put together. */
  lemma RunLineIs(line: string, indent: string, marks: string, blanks: string)
    requires line == indent + (marks + blanks) && IsIndent(indent) && AllBlank(blanks)
    requires marks != "" && IsRun(marks, marks[0]) && !IsBlank(marks[0])
    ensures Unindented(line) == Some(marks + blanks) && Run(marks + blanks, marks[0]) == |marks|
    ensures (marks + blanks)[|marks|..] == blanks
  {
    assert blanks != "" ==> blanks[0] in blanks;
    UnindentedIs(indent, marks + blanks);
    RunThen(marks, blanks, marks[0]);
  }

  // ----- Headings -----

  /** At most three spaces, a run of `=` or `-`, and blanks. */
  ghost predicate UnderlineShape(line: string, indent: string, marks: string, blanks: string) {
    && line == indent + (marks + blanks) && IsIndent(indent)
    && (IsRun(marks, '=') || IsRun(marks, '-')) && AllBlank(blanks)
  }

  lemma UnderlineIff(line: string)
    ensures IsSetextUnderline(line) <==> exists indent, marks, blanks :: UnderlineShape(line, indent, marks, blanks)
  {
    if IsSetextUnderline(line) {
      var indent, marks, blanks := RunLine(line);
      assert UnderlineShape(line, indent, marks, blanks);
    }
    if indent, marks, blanks :| UnderlineShape(line, indent, marks, blanks) {
      RunLineIs(line, indent, marks, blanks);
    }
  }

  /** At most three spaces, one to six `#`, and nothing more or a blank and a rest of one line, trimmed to the text. */
  ghost predicate AtxShape(line: string, level: nat, text: string, indent: string, marks: string, rest: string) {
    && line == indent + (marks + rest) && IsIndent(indent)
    && IsRun(marks, '#') && |marks| <= 6 && |marks| == level
    && (rest == "" || (IsBlank(rest[0]) && OneLine(rest)))
    && text == Trim(StripClosing(Trim(rest)))
  }

  lemma AtxIff(line: string, level: nat, text: string)
    ensures AtxHeading(line) == Some((level, text)) <==>
              exists indent, marks, rest :: AtxShape(line, level, text, indent, marks, rest)
  {
    if AtxHeading(line) == Some((level, text)) {
      var indent, marks, rest := AtxPieces(line, level, text);
    }
    hide AtxHeading, AtxShape;
    if indent, marks, rest :| AtxShape(line, level, text, indent, marks, rest) {
      AtxFrom(line, level, text, indent, marks, rest);
    }
  }

  lemma AtxPieces(line: string, level: nat, text: string) returns (indent: string, marks: string, rest: string)
    requires AtxHeading(line) == Some((level, text))
    ensures AtxShape(line, level, text, indent, marks, rest)
  {
    hide StripClosing, Trim, OneLine, Run, IsBlank;
    indent := UnindentedSplits(line);
    var t := Unindented(line).value;
    assert level == Run(t, '#') && 1 <= level <= 6 && text == Trim(StripClosing(Trim(t[level..])));
    assert level == |t| || (IsBlank(t[level]) && OneLine(t[level..]));
    hide AtxHeading, Unindented;
    RunSplits(t, '#');
    marks, rest := t[..level], t[level..];
  }

  lemma AtxFrom(line: string, level: nat, text: string, indent: string, marks: string, rest: string)
    requires AtxShape(line, level, text, indent, marks, rest)
    ensures AtxHeading(line) == Some((level, text))
  {
    hide StripClosing, Trim;
    var t := marks + rest;
    assert t[0] == '#';
    UnindentedIs(indent, t);
    RunThen(marks, rest, '#');
    assert t[|marks|..] == rest;
  }

  /** Closing marks: a run of `#` at the end, with blanks before it or nothing at all. */
  ghost predicate ClosingShape(s: string, kept: string, blanks: string, marks: string) {
    && s == kept + (blanks + marks) && AllBlank(blanks) && IsRun(marks, '#') && (blanks != "" || kept == "")
  }

  lemma {:induction false} TrailingSplits(s: string, c: char)
    ensures forall i :: |s| - TrailingRun(s, c) <= i < |s| ==> s[i] == c
    ensures TrailingRun(s, c) < |s| ==> s[|s| - TrailingRun(s, c) - 1] != c
  {
    if s != "" && s[|s| - 1] == c {
      var init := s[..|s| - 1];
      TrailingSplits(init, c);
    }
  }

  lemma {:induction false} BlanksSplit(s: string) returns (blanks: string)
    ensures s == DropTrailingBlanks(s) + blanks && AllBlank(blanks)
    ensures DropTrailingBlanks(s) != "" ==> !IsBlank(DropTrailingBlanks(s)[|DropTrailingBlanks(s)| - 1])
  {
    blanks := "";
    if s != "" && IsBlank(s[|s| - 1]) {
      blanks := BlanksSplit(s[..|s| - 1]);
      blanks := blanks + [s[|s| - 1]];
    }
  }

  lemma {:induction false} TrailingIs(head: string, marks: string, c: char)
    requires forall i :: 0 <= i < |marks| ==> marks[i] == c
    requires head != "" ==> head[|head| - 1] != c
    ensures TrailingRun(head + marks, c) == |marks|
  {
    if marks == "" {
      assert head + marks == head;
    } else {
      var init := marks[..|marks| - 1];
      assert (head + marks)[..|head + marks| - 1] == head + init;
      TrailingIs(head, init, c);
    }
  }

  /** Closing marks are taken off with the blanks before them; a text without any stays as it is. */
  lemma StripClosingIs(s: string)
    ensures (exists kept, blanks, marks :: ClosingShape(s, kept, blanks, marks))
            ==> exists blanks, marks :: ClosingShape(s, StripClosing(s), blanks, marks)
    ensures (forall kept, blanks, marks :: !ClosingShape(s, kept, blanks, marks)) ==> StripClosing(s) == s
    ensures StripClosing(s) != s && StripClosing(s) != "" ==> !IsBlank(StripClosing(s)[|StripClosing(s)| - 1])
  {
    if HasClosing(s) {
      var blanks, marks := ClosingStripped(s);
    }
    if kept, gap, closing :| ClosingShape(s, kept, gap, closing) {
      ClosingFound(s, kept, gap, closing);
    }
  }

  predicate HasClosing(s: string) {
    var n := TrailingRun(s, '#');
    n > 0 && (n == |s| || IsBlank(s[|s| - n - 1]))
  }

  lemma ClosingStripped(s: string) returns (blanks: string, marks: string)
    requires HasClosing(s)
    ensures ClosingShape(s, StripClosing(s), blanks, marks)
    ensures StripClosing(s) != "" ==> !IsBlank(StripClosing(s)[|StripClosing(s)| - 1])
  {
    var n := TrailingRun(s, '#');
    TrailingSplits(s, '#');
    var head := s[..|s| - n];
    marks := s[|s| - n..];
    blanks := BlanksSplit(head);
    assert head != "" ==> IsBlank(head[|head| - 1]);
    assert StripClosing(s) == DropTrailingBlanks(head) by {
      hide IsBlank;
    }
    hide StripClosing, TrailingRun, DropTrailingBlanks;
    assert s == head + marks;
    Regroup(StripClosing(s), blanks, marks);
  }

  lemma Regroup(a: string, b: string, c: string)
    ensures (a + b) + c == a + (b + c)
  {
  }

  lemma ClosingFound(s: string, kept: string, blanks: string, marks: string)
    requires ClosingShape(s, kept, blanks, marks)
    ensures HasClosing(s)
  {
    var head := kept + blanks;
    assert s == head + marks;
    assert blanks != "" ==> blanks[|blanks| - 1] in blanks;
    TrailingIs(head, marks, '#');
    assert head != "" ==> s[|head| - 1] == head[|head| - 1];
  }

  // ----- What ends a paragraph -----

  /** At most three spaces, then three or more of one mark out of `-`, `*` and `_` with nothing else but blanks. */
  ghost predicate BreakShape(line: string, mark: char, indent: string, rest: string) {
    && line == indent + rest && IsIndent(indent)
    && (mark == '-' || mark == '*' || mark == '_') && rest != "" && rest[0] == mark
    && (forall x :: x in rest ==> x == mark || IsBlank(x))
    && exists i, j :: 0 < i < j < |rest| && rest[i] == mark && rest[j] == mark
  }

  lemma {:induction false} CountAtLeast(s: string, c: char)
    ensures Count(s, c) >= 1 <==> c in s
    ensures Count(s, c) >= 2 <==> exists i, j :: 0 <= i < j < |s| && s[i] == c && s[j] == c
  {
    if s != "" {
      CountAtLeast(s[1..], c);
      assert s == [s[0]] + s[1..];
      if s[0] == c && c in s[1..] {
        var j :| 0 <= j < |s[1..]| && s[1..][j] == c;
        assert s[0] == c && s[j + 1] == c;
      }
      if i, j :| 0 <= i < j < |s[1..]| && s[1..][i] == c && s[1..][j] == c {
        assert s[i + 1] == c && s[j + 1] == c;
      }
      if i, j :| 0 <= i < j < |s| && s[i] == c && s[j] == c {
        assert s[1..][j - 1] == c;
        if i > 0 {
          assert s[1..][i - 1] == c;
        }
      }
    }
  }

  lemma BreakIff(line: string)
    ensures IsThematicBreak(line) <==> exists mark, indent, rest :: BreakShape(line, mark, indent, rest)
  {
    if Unindented(line).Some? {
      var indent := UnindentedSplits(line);
      var t := Unindented(line).value;
      if t != "" {
        MarksCounted(t);
        if IsThematicBreak(line) {
          assert BreakShape(line, t[0], indent, t);
        }
      }
    }
    if mark, indent, rest :| BreakShape(line, mark, indent, rest) {
      UnindentedIs(indent, rest);
      MarksCounted(rest);
    }
  }

  lemma MarksCounted(t: string)
    requires t != ""
    ensures Count(t, t[0]) >= 3 <==> exists i, j :: 0 < i < j < |t| && t[i] == t[0] && t[j] == t[0]
  {
    var rest := t[1..];
    CountAtLeast(rest, t[0]);
    assert Count(t, t[0]) == 1 + Count(rest, t[0]);
    if i, j :| 0 < i < j < |t| && t[i] == t[0] && t[j] == t[0] {
      assert rest[i - 1] == t[0] && rest[j - 1] == t[0];
    }
    if i, j :| 0 <= i < j < |rest| && rest[i] == t[0] && rest[j] == t[0] {
      assert t[i + 1] == t[0] && t[j + 1] == t[0];
    }
  }

  /** What a list item, a quote, an HTML block or a table row starts with. */
  ghost predicate BlockStart(start: string) {
    || (|start| == 2 && (start[0] == '-' || start[0] == '*' || start[0] == '+') && IsBlank(start[1]))
    || (3 <= |start| <= 11 && (forall i :: 0 <= i < |start| - 2 ==> '0' <= start[i] <= '9')
        && (start[|start| - 2] == '.' || start[|start| - 2] == ')') && IsBlank(start[|start| - 1]))
    || start == ">" || start == "<" || start == "|"
  }

  /** Four spaces, or at most three and the start of a block. */
  ghost predicate InterruptShape(line: string) {
    || "    " <= line
    || exists indent, start, rest :: IsIndent(indent) && BlockStart(start) && line == indent + (start + rest)
  }

  lemma {:induction false} DigitRunIs(digits: string, rest: string)
    requires forall i :: 0 <= i < |digits| ==> '0' <= digits[i] <= '9'
    requires rest != "" ==> !('0' <= rest[0] <= '9')
    ensures DigitRun(digits + rest) == |digits|
  {
    if digits == "" {
      assert digits + rest == rest;
    } else {
      assert (digits + rest)[1..] == digits[1..] + rest;
      DigitRunIs(digits[1..], rest);
    }
  }

  lemma {:induction false} DigitRunSplits(s: string)
    ensures forall i :: 0 <= i < DigitRun(s) ==> '0' <= s[i] <= '9'
  {
    if s != "" && '0' <= s[0] <= '9' {
      DigitRunSplits(s[1..]);
    }
  }

  lemma IndentedIff(line: string)
    ensures Unindented(line).None? <==> "    " <= line
  {
    var n := Run(line, ' ');
    if n > 3 {
      assert line[..4] == "    ";
    }
    if "    " <= line {
      assert line[..4] == "    ";
      assert n >= 4;
    }
  }

  lemma StartsBlock(t: string, start: string, rest: string)
    requires BlockStart(start) && t == start + rest
    ensures IsNotParagraph(t) && t != "" && t[0] != ' '
  {
    if |start| >= 3 {
      var d := |start| - 2;
      assert t == start[..d] + t[d..] && t[d] == start[d];
      DigitRunIs(start[..d], t[d..]);
      assert t[d + 1] == start[d + 1];
    }
    assert t[0] != ' ';
    assert "" + t == t;
    UnindentedIs("", t);
  }

  lemma BlockStarts(t: string) returns (start: string)
    requires t != "" && t[0] != ' ' && IsNotParagraph(t)
    ensures BlockStart(start) && start <= t
  {
    assert "" + t == t;
    UnindentedIs("", t);
    hide Unindented;
    if t[0] in "><|" {
      start := t[..1];
    } else if |t| >= 2 && t[0] in "-*+" && IsBlank(t[1]) {
      start := t[..2];
    } else {
      start := NumberStarts(t);
    }
  }

  lemma NumberStarts(t: string) returns (start: string)
    requires var d := DigitRun(t); 1 <= d <= 9 && d + 1 < |t| && t[d] in ".)" && IsBlank(t[d + 1])
    ensures BlockStart(start) && start <= t
  {
    DigitRunSplits(t);
    start := t[..DigitRun(t) + 2];
  }

  /** An indent of at most three spaces changes nothing. */
  lemma SameBehindIndent(line: string, indent: string, t: string)
    requires IsIndent(indent) && t != "" && t[0] != ' ' && line == indent + t
    ensures IsNotParagraph(line) <==> IsNotParagraph(t)
  {
    UnindentedIs(indent, t);
    assert "" + t == t;
    UnindentedIs("", t);
    hide Unindented, DigitRun;
  }

  lemma InterruptIff(line: string)
    ensures IsNotParagraph(line) <==> InterruptShape(line)
  {
    IndentedIff(line);
    if "    " <= line {
    } else if IsNotParagraph(line) {
      var indent, start, rest := InterruptPieces(line);
    } else {
      forall indent, start, rest | IsIndent(indent) && BlockStart(start)
        ensures line != indent + (start + rest)
      {
        if line == indent + (start + rest) {
          Interrupts(line, indent, start, rest);
          assert false;
        }
      }
    }
  }

  lemma InterruptPieces(line: string) returns (indent: string, start: string, rest: string)
    requires IsNotParagraph(line) && Unindented(line).Some?
    ensures IsIndent(indent) && BlockStart(start) && line == indent + (start + rest)
  {
    indent := UnindentedSplits(line);
    var t := Unindented(line).value;
    if t == "" {
      hide Unindented;
      assert false;
    }
    SameBehindIndent(line, indent, t);
    hide IsNotParagraph, IsIndent, BlockStart, Unindented;
    start := BlockStarts(t);
    rest := t[|start|..];
    assert t == start + rest;
  }

  lemma Interrupts(line: string, indent: string, start: string, rest: string)
    requires IsIndent(indent) && BlockStart(start) && line == indent + (start + rest)
    ensures IsNotParagraph(line)
  {
    hide IsIndent, BlockStart, IsNotParagraph;
    StartsBlock(start + rest, start, rest);
    SameBehindIndent(line, indent, start + rest);
  }

  /** Behind a blank line, a break, a list item, a quote, a table row or code, an underline makes no heading. */
  lemma NoHeadingBehind(line: string, underline: string, p: Option<Paragraph>, m: nat, n: nat)
    requires || Trim(line) == "" || InterruptShape(line)
             || exists mark, indent, rest :: BreakShape(line, mark, indent, rest)
    requires IsSetextUnderline(underline)
    ensures ReadHeading(underline, NextParagraph(p, line, m), n).None?
  {
    InterruptIff(line);
    BreakIff(line);
    hide Trim, IsNotParagraph, IsThematicBreak, InterruptShape;
    var t := Unindented(underline).value;
    assert Run(t, '#') == 0;
  }

  // ----- What opens a section -----

  /** Three runs of digits with dots between them. */
  ghost predicate ReleaseShape(v: string, x: string, y: string, z: string) {
    IsDigits(x) && IsDigits(y) && IsDigits(z) && v == x + "." + (y + "." + z)
  }

  lemma ReleaseIff(v: string)
    ensures IsRelease(v) <==> exists x, y, z :: ReleaseShape(v, x, y, z)
  {
    if IsRelease(v) {
      SplitParts(v, '.');
      var parts := Split(v, '.');
      assert parts == [parts[0], parts[1], parts[2]];
      JoinThree(parts[0], parts[1], parts[2]);
      assert ReleaseShape(v, parts[0], parts[1], parts[2]);
    }
    if x, y, z :| ReleaseShape(v, x, y, z) {
      PartsOfRelease(v, x, y, z);
    }
  }

  lemma PartsOfRelease(v: string, x: string, y: string, z: string)
    requires ReleaseShape(v, x, y, z)
    ensures IsRelease(v)
  {
    JoinThree(x, y, z);
    assert '.' !in x && '.' !in y && '.' !in z;
    hide Join, Split;
    SplitJoin([x, y, z], '.');
  }

  /** Only an ATX heading of level 2 with exactly the heading text opens a section. */
  lemma OpensIff(line: string, p: Option<Paragraph>, n: nat, v: string)
    requires ReadHeading(line, p, n).Some?
    ensures ReadHeading(line, p, n).value.opens == Some(v) <==>
              && (p.None? || !IsSetextUnderline(line))
              && AtxHeading(line) == Some((2, "Upgrading to v" + v)) && IsRelease(v)
  {
    hide AtxHeading, IsRelease, IsSetextUnderline;
    assert ("Upgrading to v" + v)[|EXACT|..] == v;
    if AtxHeading(line).Some? && EXACT <= AtxHeading(line).value.1 {
      var text := AtxHeading(line).value.1;
      assert text == EXACT + text[|EXACT|..];
    }
  }

  // ----- White space -----

  /** The code points of JavaScript's white space and line terminators. */
  lemma SpaceIff(c: char)
    ensures IsSpace(c) <==>
              var n := c as int;
              || 9 <= n <= 13 || n == 32 || n == 160 || n == 5760 || 8192 <= n <= 8202
              || n == 8232 || n == 8233 || n == 8239 || n == 8287 || n == 12288 || n == 65279
  {
  }

  lemma TerminatorIff(c: char)
    ensures IsLineTerminator(c) <==> var n := c as int; n == 10 || n == 13 || n == 8232 || n == 8233
  {
  }

  // ----- Line endings -----

  /** The lines as text: each but the last is ended by a newline, some with a carriage return before it. */
  function Broken(lines: seq<string>, carriage: seq<bool>): string
    requires |lines| == |carriage| + 1
  {
    if carriage == [] then lines[0]
    else lines[0] + ((if carriage[0] then "\r" else "") + (['\n'] + Broken(lines[1..], carriage[1..])))
  }

  /** Either ending gives back the line; one that was there without a carriage return must not end in its own. */
  lemma {:induction false} LinesOfBroken(lines: seq<string>, carriage: seq<bool>)
    requires |lines| == |carriage| + 1 && forall line :: line in lines ==> '\n' !in line
    requires forall i :: 0 <= i < |carriage| && !carriage[i] && lines[i] != "" ==> lines[i][|lines[i]| - 1] != '\r'
    ensures Lines(Broken(lines, carriage)) == lines
  {
    assert lines[0] in lines;
    if carriage == [] {
      SplitNone(lines[0], '\n');
      assert lines == [lines[0]];
    } else {
      LinesOfBroken(lines[1..], carriage[1..]);
      assert lines == [lines[0]] + lines[1..];
      LineThen(lines[0], carriage[0], Broken(lines[1..], carriage[1..]));
    }
  }

  lemma LineThen(line: string, carriage: bool, text: string)
    requires '\n' !in line && (!carriage && line != "" ==> line[|line| - 1] != '\r')
    ensures Lines(line + ((if carriage then "\r" else "") + (['\n'] + text))) == [line] + Lines(text)
  {
    var head := line + if carriage then "\r" else "";
    assert line + ((if carriage then "\r" else "") + (['\n'] + text)) == head + (['\n'] + text);
    SplitOnce(head, text, '\n');
    assert carriage ==> head[..|head| - 1] == line;
    assert !carriage ==> head == line;
    hide Split;
    StripOnce(head, Split(text, '\n'));
  }

  lemma StripOnce(head: string, rest: seq<string>)
    requires rest != []
    ensures StripReturns([head] + rest)
         == [if head != "" && head[|head| - 1] == '\r' then head[..|head| - 1] else head] + StripReturns(rest)
  {
    assert ([head] + rest)[1..] == rest;
  }
}
