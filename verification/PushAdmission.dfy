/**
 The pre-push hook: the admission rule (nothing leaves that origin/main has not
 published), the ranged secret scan, and the gate decision that shares the rule.

 What `git` and gitleaks answer is input here, and everything the scripts decide is
 decided from it. `PushRuns.Truthful` says which answers are true of a clone, and
 `PushRuns.Answering` when git gives one.
 */
module PushAdmission {
  import opened Digraph
  import opened GitObjects
  import opened Options
  import opened Strings

  predicate IsHexDigit(c: char) {
    '0' <= c <= '9' || 'a' <= c <= 'f'
  }

  /** A full object id: 40 or 64 lowercase hex digits. */
  predicate IsObjectId(s: string) {
    (|s| == 40 || |s| == 64) && forall c :: c in s ==> IsHexDigit(c)
  }

  /** Forty or sixty-four characters out of the sixteen digits. */
  lemma ObjectIdIff(s: string)
    ensures IsObjectId(s) <==> (|s| == 40 || |s| == 64) && forall i :: 0 <= i < |s| ==> s[i] in "0123456789abcdef"
  {
    forall c: char
      ensures IsHexDigit(c) <==> c in "0123456789abcdef"
    {
    }
    if forall i :: 0 <= i < |s| ==> s[i] in "0123456789abcdef" {
      forall c | c in s
        ensures IsHexDigit(c)
      {
      }
    }
    if IsObjectId(s) {
      forall i | 0 <= i < |s|
        ensures s[i] in "0123456789abcdef"
      {
        assert s[i] in s;
      }
    }
  }

  predicate IsZeroSha(s: string) {
    s != "" && forall c :: c in s ==> c == '0'
  }

  datatype RefUpdate = RefUpdate(localRef: string, localSha: string, remoteRef: string, remoteSha: string)

  predicate IsDelete(u: RefUpdate) {
    IsZeroSha(u.localSha)
  }

  function WordLength(s: string): (n: nat)
    ensures n <= |s| && forall i :: 0 <= i < n ==> !IsSpace(s[i])
    ensures n < |s| ==> IsSpace(s[n])
  {
    if s == [] || IsSpace(s[0]) then 0 else 1 + WordLength(s[1..])
  }

  /** `line.trim().split(/\s+/)`, and nothing for a blank line. */
  function Words(s: string): seq<string>
    decreases |s|
  {
    if s == [] then []
    else if IsSpace(s[0]) then Words(s[1..])
    else [s[..WordLength(s)]] + Words(s[WordLength(s)..])
  }

  /** One update per non-blank line; a line without four fields spoils the whole input. */
  function ParseLines(lines: seq<string>): Option<seq<RefUpdate>> {
    if lines == [] then Some([])
    else
      var words := Words(lines[0]);
      if words == [] then ParseLines(lines[1..])
      else if |words| < 4 then None
      else
        match ParseLines(lines[1..])
        case None => None
        case Some(rest) => Some([RefUpdate(words[0], words[1], words[2], words[3])] + rest)
  }

  function ParseRefUpdates(stdin: string): Option<seq<RefUpdate>> {
    ParseLines(Split(stdin, '\n'))
  }

  /** The line git writes for an update. */
  function RenderUpdate(u: RefUpdate): string {
    u.localRef + " " + (u.localSha + " " + (u.remoteRef + " " + u.remoteSha))
  }

  predicate IsWord(w: string) {
    w != "" && forall c :: c in w ==> !IsSpace(c)
  }

  predicate Printable(u: RefUpdate) {
    IsWord(u.localRef) && IsWord(u.localSha) && IsWord(u.remoteRef) && IsWord(u.remoteSha)
  }

  lemma {:induction false} WordLengthOf(w: string, rest: string)
    requires forall c :: c in w ==> !IsSpace(c)
    requires rest == "" || IsSpace(rest[0])
    ensures WordLength(w + rest) == |w|
  {
    if w == "" {
      assert w + rest == rest;
    } else {
      assert (w + rest)[1..] == w[1..] + rest;
      WordLengthOf(w[1..], rest);
    }
  }

  lemma WordThen(w: string, rest: string)
    requires IsWord(w)
    ensures Words(w) == [w]
    ensures Words(w + " " + rest) == [w] + Words(rest)
  {
    assert w + "" == w;
    WordLengthOf(w, "");
    var tail := " " + rest;
    assert w + " " + rest == w + tail;
    WordLengthOf(w, tail);
    assert (w + tail)[..|w|] == w && (w + tail)[|w|..] == tail;
    assert tail[1..] == rest;
    assert w[0] in w;
  }

  lemma LineWords(u: RefUpdate)
    requires Printable(u)
    ensures Words(RenderUpdate(u)) == [u.localRef, u.localSha, u.remoteRef, u.remoteSha]
  {
    hide Words, IsSpace;
    var t2 := u.remoteRef + " " + u.remoteSha;
    var t1 := u.localSha + " " + t2;
    WordThen(u.remoteSha, "");
    WordThen(u.remoteRef, u.remoteSha);
    WordThen(u.localSha, t2);
    WordThen(u.localRef, t1);
    assert RenderUpdate(u) == u.localRef + " " + t1;
  }

  lemma LineIsOneLine(u: RefUpdate)
    requires Printable(u)
    ensures '\n' !in RenderUpdate(u)
  {
    assert IsSpace('\n');
  }

  function RenderLines(updates: seq<RefUpdate>): seq<string> {
    if updates == [] then [""] else [RenderUpdate(updates[0])] + RenderLines(updates[1..])
  }

  /** git's stdin: one line per update, each ended by a newline. */
  function RenderStdin(updates: seq<RefUpdate>): string {
    Join(RenderLines(updates), '\n')
  }

  /** Reading git's own lines gives back the updates git wrote, in order. */
  lemma ParseUndoesRender(updates: seq<RefUpdate>)
    requires forall u :: u in updates ==> Printable(u)
    ensures ParseRefUpdates(RenderStdin(updates)) == Some(updates)
  {
    RenderedLines(updates);
    SplitJoin(RenderLines(updates), '\n');
  }

  lemma {:induction false} RenderedLines(updates: seq<RefUpdate>)
    requires forall u :: u in updates ==> Printable(u)
    ensures RenderLines(updates) != []
    ensures forall line :: line in RenderLines(updates) ==> '\n' !in line
    ensures ParseLines(RenderLines(updates)) == Some(updates)
  {
    if updates != [] {
      RenderedLines(updates[1..]);
      LineWords(updates[0]);
      LineIsOneLine(updates[0]);
      assert RenderLines(updates)[1..] == RenderLines(updates[1..]);
      assert updates == [updates[0]] + updates[1..];
    } else {
      assert [""][1..] == [];
    }
  }

  // ----- What the input has to look like -----

  /** Text that interleaves the gaps and the words, starting and ending with a gap. */
  function Interleaved(gaps: seq<string>, words: seq<string>): string
    requires |gaps| == |words| + 1
  {
    if words == [] then gaps[0] else gaps[0] + (words[0] + Interleaved(gaps[1..], words[1..]))
  }

  predicate IsBlank(s: string) {
    forall c :: c in s ==> IsSpace(c)
  }

  /** The words of a line are its runs of other characters than spaces, and they are all of it but the spaces. */
  ghost predicate AreWordsOf(gaps: seq<string>, words: seq<string>, line: string) {
    && |gaps| == |words| + 1 && line == Interleaved(gaps, words)
    && (forall w :: w in words ==> IsWord(w))
    && (forall i :: 0 <= i < |gaps| ==> IsBlank(gaps[i]) && (0 < i < |words| ==> gaps[i] != ""))
  }

  lemma {:induction false} WordsAre(line: string) returns (gaps: seq<string>)
    ensures AreWordsOf(gaps, Words(line), line)
    decreases |line|
  {
    hide AreWordsOf, IsSpace;
    if line == "" {
      gaps := [""];
      NoWords();
    } else if IsSpace(line[0]) {
      gaps := WordsAre(line[1..]);
      GapGrows(line[0], gaps, Words(line), line[1..]);
      assert line == [line[0]] + line[1..];
      gaps := [[line[0]] + gaps[0]] + gaps[1..];
    } else {
      var n := WordLength(line);
      gaps := WordsAre(line[n..]);
      assert forall c :: c in line[..n] ==> !IsSpace(c);
      GapBehindWord(line[..n], line[n..], gaps, Words(line[n..]));
      assert line == line[..n] + line[n..];
      gaps := [""] + gaps;
    }
  }

  lemma NoWords()
    ensures AreWordsOf([""], [], "")
  {
  }

  lemma GapGrows(c: char, gaps: seq<string>, words: seq<string>, line: string)
    requires IsSpace(c) && AreWordsOf(gaps, words, line)
    ensures gaps != [] && AreWordsOf([[c] + gaps[0]] + gaps[1..], words, [c] + line)
  {
    hide IsSpace;
    assert ([[c] + gaps[0]] + gaps[1..])[1..] == gaps[1..];
  }

  /** Behind a whole word the line ends or goes on with a space. */
  lemma GapBehindWord(word: string, rest: string, gaps: seq<string>, words: seq<string>)
    requires IsWord(word) && AreWordsOf(gaps, words, rest) && (rest != "" ==> IsSpace(rest[0]))
    ensures AreWordsOf([""] + gaps, [word] + words, word + rest)
  {
    hide IsSpace;
    assert ([""] + gaps)[1..] == gaps && ([word] + words)[1..] == words;
    assert Interleaved([""] + gaps, [word] + words) == word + rest;
    assert words != [] ==> words[0] in words;
    forall i | 0 <= i < |[""] + gaps|
      ensures IsBlank(([""] + gaps)[i]) && (0 < i < |[word] + words| ==> ([""] + gaps)[i] != "")
    {
      if i > 0 {
        assert ([""] + gaps)[i] == gaps[i - 1] && IsBlank(gaps[i - 1]);
      }
    }
  }

  /** The lines that are not blank. */
  function Filled(lines: seq<string>): seq<string> {
    if lines == [] then [] else (if IsBlank(lines[0]) then [] else [lines[0]]) + Filled(lines[1..])
  }

  /** The update a line spells in its first four words. */
  predicate Spells(line: string, u: RefUpdate) {
    var words := Words(line);
    |words| >= 4 && u == RefUpdate(words[0], words[1], words[2], words[3])
  }

  /** Every line that is not blank spells an update, and these are the updates, in order. */
  predicate Reads(stdin: string, updates: seq<RefUpdate>) {
    SpellEach(Filled(Split(stdin, '\n')), updates)
  }

  predicate SpellEach(lines: seq<string>, updates: seq<RefUpdate>) {
    |updates| == |lines| && forall i :: 0 <= i < |lines| ==> Spells(lines[i], updates[i])
  }

  lemma BlankHasNoWord(line: string)
    ensures IsBlank(line) <==> Words(line) == []
  {
    if IsBlank(line) {
      BlankWords(line);
    } else {
      var c :| c in line && !IsSpace(c);
      HasWord(line);
    }
  }

  lemma {:induction false} BlankWords(line: string)
    requires IsBlank(line)
    ensures Words(line) == []
  {
    if line != "" {
      assert line[0] in line;
      BlankWords(line[1..]);
    }
  }

  lemma {:induction false} HasWord(line: string)
    requires !IsBlank(line)
    ensures Words(line) != []
  {
    if IsSpace(line[0]) {
      assert line == [line[0]] + line[1..];
      HasWord(line[1..]);
    }
  }

  /** The input is read exactly when each of its lines is blank or has four words: one update for each, in order. */
  lemma ParsedIff(stdin: string, updates: seq<RefUpdate>)
    ensures ParseRefUpdates(stdin) == Some(updates) <==> Reads(stdin, updates)
  {
    LinesParsedIff(Split(stdin, '\n'), updates);
  }

  lemma {:induction false} LinesParsedIff(lines: seq<string>, updates: seq<RefUpdate>)
    ensures ParseLines(lines) == Some(updates) <==> SpellEach(Filled(lines), updates)
  {
    if lines != [] {
      BlankHasNoWord(lines[0]);
      hide Words, IsBlank, SpellEach;
      if IsBlank(lines[0]) {
        LinesParsedIff(lines[1..], updates);
      } else {
        SpellEachSplits(lines[0], Filled(lines[1..]), updates);
        if updates != [] {
          LinesParsedIff(lines[1..], updates[1..]);
          assert updates == [updates[0]] + updates[1..];
        }
      }
    } else {
      NothingToSpell(updates);
    }
  }

  lemma NothingToSpell(updates: seq<RefUpdate>)
    ensures SpellEach([], updates) <==> updates == []
  {
  }

  lemma SpellEachSplits(line: string, rest: seq<string>, updates: seq<RefUpdate>)
    ensures SpellEach([line] + rest, updates) <==>
              updates != [] && Spells(line, updates[0]) && SpellEach(rest, updates[1..])
  {
    hide Spells;
    var all := [line] + rest;
    if SpellEach(all, updates) {
      assert Spells(all[0], updates[0]);
      forall i | 0 <= i < |rest|
        ensures Spells(rest[i], updates[1..][i])
      {
        assert Spells(all[i + 1], updates[i + 1]);
      }
    }
    if updates != [] && Spells(line, updates[0]) && SpellEach(rest, updates[1..]) {
      forall i | 0 <= i < |all|
        ensures Spells(all[i], updates[i])
      {
        if i > 0 {
          assert Spells(rest[i - 1], updates[1..][i - 1]);
        }
      }
    }
  }

  // ----- The admission rule -----

  /** The trees and blobs (and annotated tags) an update sends; None on any git failure. */
  function Outgoing(u: RefUpdate, objects: Option<set<Id>>, commits: Option<set<Id>>): Option<set<Id>> {
    if !IsObjectId(u.localSha) then None
    else if !IsZeroSha(u.remoteSha) && !IsObjectId(u.remoteSha) then None
    else if objects.None? || commits.None? then None
    else Some(objects.value - commits.value)
  }

  predicate PublishesNothingNew(out: Option<set<Id>>, published: set<Id>) {
    out.Some? && published != {} && out.value <= published
  }

  // ----- The ranged scan -----

  /** The commits of `tip` without those of `without`. */
  datatype Range = Range(without: Option<RangeBase>, tip: Id)
  datatype RangeBase = RemoteTip(sha: Id) | OriginMain

  function ResolveRange(u: RefUpdate, mergeBase: Option<Id>): Range {
    if !IsZeroSha(u.remoteSha) then Range(Some(RemoteTip(u.remoteSha)), u.localSha)
    else if mergeBase.Some? then Range(Some(OriginMain), u.localSha)
    else Range(None, u.localSha)
  }

  /** What one gitleaks run leaves behind, when the disposable worktree could be made at all. */
  datatype Report =
    | NoWorktree
    | Report(errorLogged: bool, scanned: Option<nat>, leaks: Option<nat>, exitCode: int)

  predicate ScanOk(report: Report, expected: nat) {
    match report
    case NoWorktree => false
    case Report(errorLogged, scanned, leaks, exitCode) =>
      var problem :=
        || errorLogged
        || (expected > 0 && (scanned.None? || scanned.value == 0))
        || leaks.None?
        || (leaks.value != 0 && exitCode == 0);
      !problem && exitCode == 0
  }

  /** A scan passes only on positive evidence: a clean exit, an empty readable report, commits read. */
  lemma ScanOkMeans(report: Report, expected: nat)
    ensures ScanOk(report, expected) <==>
      && report.Report? && !report.errorLogged && report.exitCode == 0 && report.leaks == Some(0)
      && (expected > 0 ==> report.scanned.Some? && report.scanned.value > 0)
  {
  }

  /** git's and gitleaks' answers about one update. */
  datatype Answers = Answers(objects: Option<set<Id>>, commits: Option<set<Id>>,
                             mergeBase: Option<Id>, count: Option<nat>, report: Report)

  datatype Verdict = Malformed | Deleted | Admitted | Unresolved | EmptyRange | Scanned(ok: bool)

  function Judge(u: RefUpdate, published: set<Id>, a: Answers): Verdict {
    if !IsObjectId(u.localSha) || !IsObjectId(u.remoteSha) then Malformed
    else if IsDelete(u) then Deleted
    else if PublishesNothingNew(Outgoing(u, a.objects, a.commits), published) then Admitted
    else if a.count.None? then Unresolved
    else if a.count.value == 0 then EmptyRange
    else Scanned(ScanOk(a.report, a.count.value))
  }

  predicate Accepts(v: Verdict) {
    v.Deleted? || v.Admitted? || v.EmptyRange? || v == Scanned(true)
  }

  /** Which updates pass: deletes, what is published already, empty ranges, and ranges gitleaks read and found clean. */
  lemma AcceptsIff(u: RefUpdate, published: set<Id>, a: Answers)
    ensures Accepts(Judge(u, published, a)) <==>
      && IsObjectId(u.localSha) && IsObjectId(u.remoteSha)
      && (|| IsDelete(u)
          || (&& published != {} && a.objects.Some? && a.commits.Some?
              && forall x :: x in a.objects.value && x !in a.commits.value ==> x in published)
          || a.count == Some(0)
          || (&& a.count.Some? && a.report.Report? && !a.report.errorLogged && a.report.exitCode == 0
              && a.report.leaks == Some(0) && a.report.scanned.Some? && a.report.scanned.value > 0))
  {
    hide IsObjectId, IsZeroSha;
    if a.count.Some? {
      ScanOkMeans(a.report, a.count.value);
    }
  }

  /** What `runPrepushScan` decides from its inputs. */
  predicate ScanAccepts(toolingConfig: bool, stdin: string, installed: bool,
                        published: set<Id>, answers: seq<Answers>)
  {
    var parsed := ParseRefUpdates(stdin);
    && !toolingConfig
    && parsed.Some?
    && (parsed.value == []
        || (installed && |answers| >= |parsed.value|
            && forall i :: 0 <= i < |parsed.value| ==> Accepts(Judge(parsed.value[i], published, answers[i]))))
  }

  /** Spelled out on the input: it can be read, and every update it spells is accepted. */
  lemma ScanReads(toolingConfig: bool, stdin: string, installed: bool, published: set<Id>, answers: seq<Answers>)
    ensures ScanAccepts(toolingConfig, stdin, installed, published, answers) <==>
      && !toolingConfig
      && exists updates :: Reads(stdin, updates)
           && (updates == []
               || (installed && |updates| <= |answers|
                   && forall i :: 0 <= i < |updates| ==> Accepts(Judge(updates[i], published, answers[i]))))
  {
    forall updates
      ensures ParseRefUpdates(stdin) == Some(updates) <==> Reads(stdin, updates)
    {
      ParsedIff(stdin, updates);
    }
    hide Reads, Judge, Accepts, ParseRefUpdates;
    var parsed := ParseRefUpdates(stdin);
    assert parsed.Some? ==> Reads(stdin, parsed.value);
  }

  /**
   `runPrepushScan`: one pass over the updates; every update must be accepted. The
   published set is asked for once, when the first update needs it.
   */
  method RunPrepushScan(toolingConfig: bool, stdin: string, installed: bool,
                        published: set<Id>, answers: seq<Answers>) returns (ok: bool)
    requires ParseRefUpdates(stdin).Some? ==> |answers| >= |ParseRefUpdates(stdin).value|
    ensures ok <==> ScanAccepts(toolingConfig, stdin, installed, published, answers)
    ensures ok <==>
      && !toolingConfig
      && exists updates :: Reads(stdin, updates)
           && (updates == []
               || (installed && |updates| <= |answers|
                   && forall i :: 0 <= i < |updates| ==> Accepts(Judge(updates[i], published, answers[i]))))
  {
    ScanReads(toolingConfig, stdin, installed, published, answers);
    hide Reads;
    hide IsObjectId, IsZeroSha, PublishesNothingNew, Outgoing, ScanOk, ParseRefUpdates;
    if toolingConfig {
      return false;
    }
    var parsed := ParseRefUpdates(stdin);
    if parsed.None? {
      return false;
    }
    var updates := parsed.value;
    if |updates| == 0 {
      return true;
    }
    if !installed {
      return false;
    }
    ok := true;
    var publishedSet: Option<set<Id>> := None;
    for i := 0 to |updates|
      invariant ok <==> forall j :: 0 <= j < i ==> Accepts(Judge(updates[j], published, answers[j]))
      invariant publishedSet.Some? ==> publishedSet.value == published
    {
      var u, a := updates[i], answers[i];
      if !IsObjectId(u.localSha) || !IsObjectId(u.remoteSha) {
        ok := false;
        continue;
      }
      if IsDelete(u) {
        continue;
      }
      if publishedSet.None? {
        publishedSet := Some(published);
      }
      if PublishesNothingNew(Outgoing(u, a.objects, a.commits), publishedSet.value) {
        continue;
      }
      if a.count.None? {
        ok := false;
        continue;
      }
      if a.count.value == 0 {
        continue;
      }
      if !ScanOk(a.report, a.count.value) {
        ok := false;
      }
    }
  }

  // ----- The gate decision -----

  datatype Gate = RunGate | SkipGate

  predicate AdmittedAt(updates: seq<RefUpdate>, published: set<Id>, answers: seq<Answers>, i: int)
    requires 0 <= i < |updates| && |updates| <= |answers|
  {
    PublishesNothingNew(Outgoing(updates[i], answers[i].objects, answers[i].commits), published)
  }

  /** `decideGate`: the ordered rule, skipping only when every update publishes nothing new. */
  function DecideGate(stdin: string, published: set<Id>, answers: seq<Answers>): Gate {
    var parsed := ParseRefUpdates(stdin);
    if parsed.None? then RunGate
    else if parsed.value == [] then RunGate
    else if exists u :: u in parsed.value && IsDelete(u) then RunGate
    else if published == {} then RunGate
    else if |answers| < |parsed.value| then RunGate
    else if (exists i :: 0 <= i < |parsed.value| && !AdmittedAt(parsed.value, published, answers, i)) then RunGate
    else SkipGate
  }

  /** `runPrepush`: the hook's exit code. */
  function RunPrepush(gate: Gate, gateCode: int, scanCode: int): int {
    if gate == RunGate && gateCode != 0 then gateCode else scanCode
  }

  /** git told what the update sends, and origin/main, which has been read, holds all of it. */
  predicate SendsPublished(u: RefUpdate, published: set<Id>, a: Answers) {
    && IsObjectId(u.localSha) && (IsZeroSha(u.remoteSha) || IsObjectId(u.remoteSha))
    && a.objects.Some? && a.commits.Some? && published != {}
    && forall x :: x in a.objects.value && x !in a.commits.value ==> x in published
  }

  /** The gate is skipped exactly for a non-empty push without deletes of which every update publishes nothing new. */
  lemma SkipIff(stdin: string, published: set<Id>, answers: seq<Answers>)
    requires ParseRefUpdates(stdin).Some? ==> |answers| == |ParseRefUpdates(stdin).value|
    ensures DecideGate(stdin, published, answers) == SkipGate <==>
      && ParseRefUpdates(stdin).Some? && ParseRefUpdates(stdin).value != []
      && forall i :: 0 <= i < |answers| ==>
           !IsDelete(ParseRefUpdates(stdin).value[i])
           && SendsPublished(ParseRefUpdates(stdin).value[i], published, answers[i])
  {
    hide ParseRefUpdates, IsDelete, IsObjectId, IsZeroSha;
    var parsed := ParseRefUpdates(stdin);
    if parsed.Some? && parsed.value != [] {
      assert parsed.value[0] in parsed.value;
      if DecideGate(stdin, published, answers) == SkipGate {
        forall i | 0 <= i < |answers|
          ensures !IsDelete(parsed.value[i]) && SendsPublished(parsed.value[i], published, answers[i])
        {
          assert parsed.value[i] in parsed.value;
          assert AdmittedAt(parsed.value, published, answers, i);
        }
      }
    }
  }

  /** `spawnScan`: the scan's exit code, but never 0 when it could not be started or handed its whole input. */
  function SpawnScan(started: bool, handedOff: bool, accepted: bool): int {
    if !started then 1
    else
      var code := if accepted then 0 else 1;
      if code == 0 && !handedOff then 1 else code
  }

  /** What the scan process meets: whether it starts and gets its input, and what git and gitleaks answer it. */
  datatype ScanProcess = ScanProcess(started: bool, handedOff: bool, toolingConfig: bool, installed: bool,
                                     listed: set<Id>, answers: seq<Answers>)

  /** The whole hook: the gate decision on the answers git gives it, the gate if it has to run, then the scan. */
  function Hook(stdin: string, listed: set<Id>, answers: seq<Answers>, gateCode: int, scan: ScanProcess): int {
    RunPrepush(DecideGate(stdin, listed, answers), gateCode,
               SpawnScan(scan.started, scan.handedOff,
                         ScanAccepts(scan.toolingConfig, stdin, scan.installed, scan.listed, scan.answers)))
  }

  /**
   A push gets through exactly when the scan, started and given the whole input,
   accepts every update, and the gate passed or there was nothing for it to judge:
   a non-empty push without deletes of which every update publishes nothing new.
   */
  lemma HookPassesIff(stdin: string, listed: set<Id>, answers: seq<Answers>, gateCode: int, scan: ScanProcess)
    requires ParseRefUpdates(stdin).Some? ==> |answers| == |ParseRefUpdates(stdin).value|
    ensures Hook(stdin, listed, answers, gateCode, scan) == 0 <==>
      && scan.started && scan.handedOff
      && ScanAccepts(scan.toolingConfig, stdin, scan.installed, scan.listed, scan.answers)
      && (|| gateCode == 0
          || (&& ParseRefUpdates(stdin).Some? && ParseRefUpdates(stdin).value != []
              && forall i :: 0 <= i < |answers| ==>
                   !IsDelete(ParseRefUpdates(stdin).value[i])
                   && SendsPublished(ParseRefUpdates(stdin).value[i], listed, answers[i])))
  {
    SkipIff(stdin, listed, answers);
    hide DecideGate, ScanAccepts, ParseRefUpdates, IsDelete, SendsPublished;
  }

  /** The exit code git sees: a failing gate's own, and otherwise 0 or 1 as the scan passes or not. */
  lemma HookCodeIs(stdin: string, listed: set<Id>, answers: seq<Answers>, gateCode: int, scan: ScanProcess)
    ensures Hook(stdin, listed, answers, gateCode, scan)
         == if DecideGate(stdin, listed, answers) == RunGate && gateCode != 0 then gateCode
            else if scan.started && scan.handedOff
                    && ScanAccepts(scan.toolingConfig, stdin, scan.installed, scan.listed, scan.answers) then 0
            else 1
  {
    hide DecideGate, ScanAccepts;
  }

  /** A push the gate is skipped for takes the scan's admission branch throughout: no report is read. */
  lemma SkipIsAdmission(stdin: string, published: set<Id>, answers: seq<Answers>)
    requires DecideGate(stdin, published, answers) == SkipGate
    ensures ParseRefUpdates(stdin).Some? && ParseRefUpdates(stdin).value != []
    ensures forall i :: 0 <= i < |ParseRefUpdates(stdin).value| ==>
              IsObjectId(ParseRefUpdates(stdin).value[i].remoteSha) ==>
                Judge(ParseRefUpdates(stdin).value[i], published, answers[i]) == Admitted
  {
    var updates := ParseRefUpdates(stdin).value;
    forall i | 0 <= i < |updates| && IsObjectId(updates[i].remoteSha)
      ensures Judge(updates[i], published, answers[i]) == Admitted
    {
      assert updates[i] in updates;
      assert AdmittedAt(updates, published, answers, i);
    }
  }
}
