/**
 Include and exclude patterns: a glob is compiled to the text of a regular
 expression, and the files a publish uploads are filtered with it.
 */
module PublishGlob {
  import opened Options
  import opened Strings

  // ----- The text the compiler emits -----

  const SPECIAL := ".+^${}()|[]\\"

  /** What a glob is made of. */
  datatype Token =
    | AnyString       // `**`, with a slash after it absorbed
    | SegmentStar     // `*`
    | SegmentOne      // `?`
    | Literal(c: char)

  /** The first token of a pattern, and how many of its characters it takes. */
  function FirstToken(pattern: string): (r: (Token, nat))
    requires pattern != ""
    ensures 0 < r.1 <= |pattern|
  {
    if pattern[0] == '*' then
      if |pattern| > 1 && pattern[1] == '*' then
        (AnyString, if |pattern| > 2 && pattern[2] == '/' then 3 else 2)
      else (SegmentStar, 1)
    else if pattern[0] == '?' then (SegmentOne, 1)
    else (Literal(pattern[0]), 1)
  }

  function Tokens(pattern: string): seq<Token>
    decreases |pattern|
  {
    if pattern == "" then []
    else [FirstToken(pattern).0] + Tokens(pattern[FirstToken(pattern).1..])
  }

  /** The pieces of pattern text that spell a token. */
  predicate SpelledBy(t: Token, piece: string) {
    match t
    case AnyString => piece == "**" || piece == "**/"
    case SegmentStar => piece == "*"
    case SegmentOne => piece == "?"
    case Literal(c) => piece == [c] && c != '*' && c != '?'
  }

  /** No piece could have been longer: `*` stands before no star, and `**` before no slash. */
  predicate Longest(piece: string, rest: string) {
    rest != "" ==> (piece == "*" ==> rest[0] != '*') && (piece == "**" ==> rest[0] != '/')
  }

  /** The pattern is the tokens' pieces one after another, each as long as can be. */
  ghost predicate Reads(tokens: seq<Token>, pattern: string) {
    if tokens == [] then pattern == ""
    else exists n :: 0 < n <= |pattern| && SpelledBy(tokens[0], pattern[..n])
                     && Longest(pattern[..n], pattern[n..]) && Reads(tokens[1..], pattern[n..])
  }

  /** A pattern has exactly one such reading. */
  lemma {:induction false} TokensIff(tokens: seq<Token>, pattern: string)
    ensures Reads(tokens, pattern) <==> tokens == Tokens(pattern)
    decreases |pattern|
  {
    if pattern == "" {
    } else if tokens != [] {
      var (t, k) := FirstToken(pattern);
      assert pattern[..k] == "*" || pattern[..k] == "**" || pattern[..k] == "**/" || k == 1;
      forall n | 0 < n <= |pattern|
        ensures SpelledBy(tokens[0], pattern[..n]) && Longest(pattern[..n], pattern[n..]) <==> n == k && tokens[0] == t
      {
        FirstIsLongest(tokens[0], pattern, n);
      }
      TokensIff(tokens[1..], pattern[k..]);
      assert tokens == [tokens[0]] + tokens[1..];
    }
  }

  lemma FirstIsLongest(t: Token, pattern: string, n: nat)
    requires 0 < n <= |pattern|
    ensures SpelledBy(t, pattern[..n]) && Longest(pattern[..n], pattern[n..]) <==>
              FirstToken(pattern) == (t, n)
  {
    var piece, rest := pattern[..n], pattern[n..];
    assert piece[0] == pattern[0];
    assert n > 1 ==> piece[1] == pattern[1];
    assert n > 2 ==> piece[2] == pattern[2];
    assert rest != "" ==> rest[0] == pattern[n];
  }

  function Render(t: Token): string {
    match t
    case AnyString => ".*"
    case SegmentStar => "[^/]*"
    case SegmentOne => "[^/]"
    case Literal(c) => if c in SPECIAL then "\\" + [c] else [c]
  }

  function RenderAll(tokens: seq<Token>): string {
    if tokens == [] then "" else Render(tokens[0]) + RenderAll(tokens[1..])
  }

  lemma EmitOne(re: string, rest: string)
    requires rest != ""
    ensures var (t, n) := FirstToken(rest);
      re + Render(t) + RenderAll(Tokens(rest[n..])) == re + RenderAll(Tokens(rest))
  {
    var (t, n) := FirstToken(rest);
    assert Tokens(rest)[1..] == Tokens(rest[n..]);
    assert RenderAll(Tokens(rest)) == Render(t) + RenderAll(Tokens(rest[n..]));
  }

  /** The index loop of `matchesPattern`: it emits the rendering of the pattern's tokens. */
  method CompileGlob(normalized: string) returns (re: string)
    ensures re == RenderAll(Tokens(normalized))
  {
    re := "";
    var i := 0;
    while i < |normalized|
      invariant 0 <= i <= |normalized|
      invariant re + RenderAll(Tokens(normalized[i..])) == RenderAll(Tokens(normalized))
    {
      ghost var re0, i0, rest := re, i, normalized[i..];
      ghost var first := FirstToken(rest);
      var c := normalized[i];
      if c == '*' {
        if i + 1 < |normalized| && normalized[i + 1] == '*' {
          re := re + ".*";
          i := i + 1;
          if i + 1 < |normalized| && normalized[i + 1] == '/' {
            i := i + 1;
          }
        } else {
          re := re + "[^/]*";
        }
      } else if c == '?' {
        re := re + "[^/]";
      } else if c in SPECIAL {
        re := re + ("\\" + [c]);
      } else {
        re := re + [c];
      }
      i := i + 1;
      assert i == i0 + first.1 && re == re0 + Render(first.0);
      EmitOne(re0, rest);
      assert rest[first.1..] == normalized[i..];
    }
    assert normalized[|normalized|..] == "";
  }

  // ----- What a regular expression engine makes of that text -----

  /** The character classes that occur: `.`, `[^/]` and one character. */
  datatype Class = Dot | NotSlash | One(c: char)

  datatype Node = Single(cls: Class) | Star(cls: Class)

  predicate InClass(cls: Class, c: char) {
    match cls
    case Dot => !IsLineTerminator(c)
    case NotSlash => c != '/'
    case One(d) => c == d
  }

  /** The first class of an expression text, and what follows it. Text outside this grammar is None. */
  function ReadClass(re: string): Option<(Class, string)> {
    if re == "" then None
    else if re[0] == '\\' then
      if |re| > 1 && re[1] in SPECIAL then Some((One(re[1]), re[2..])) else None
    else if re[0] == '.' then Some((Dot, re[1..]))
    else if re[0] == '[' then
      if |re| >= 4 && re[..4] == "[^/]" then Some((NotSlash, re[4..])) else None
    else if re[0] in SPECIAL || re[0] == '*' || re[0] == '?' then None
    else Some((One(re[0]), re[1..]))
  }

  lemma ReadClassShorter(re: string)
    ensures ReadClass(re).Some? ==> |ReadClass(re).value.1| < |re|
  {
  }

  /** The expression as a sequence of classes, each perhaps repeated. */
  function ParseRegex(re: string): Option<seq<Node>>
    decreases |re|
  {
    if re == "" then Some([])
    else
      ReadClassShorter(re);
      match ReadClass(re)
      case None => None
      case Some((cls, rest)) =>
        if rest != "" && rest[0] == '*' then
          match ParseRegex(rest[1..])
          case None => None
          case Some(nodes) => Some([Star(cls)] + nodes)
        else
          match ParseRegex(rest)
          case None => None
          case Some(nodes) => Some([Single(cls)] + nodes)
  }

  /** Anchored matching by backtracking: a star takes one more character or gives way. */
  predicate Accepts(nodes: seq<Node>, s: string)
    decreases |nodes| + |s|
  {
    if nodes == [] then s == ""
    else
      match nodes[0]
      case Single(cls) => s != "" && InClass(cls, s[0]) && Accepts(nodes[1..], s[1..])
      case Star(cls) =>
        Accepts(nodes[1..], s) || (s != "" && InClass(cls, s[0]) && Accepts(nodes, s[1..]))
  }

  // ----- What the pattern means -----

  /** The pieces of a path one token stands for. */
  predicate Denotes(t: Token, piece: string) {
    match t
    case AnyString => OneLine(piece)
    case SegmentStar => '/' !in piece
    case SegmentOne => |piece| == 1 && piece[0] != '/'
    case Literal(c) => piece == [c]
  }

  /** The path is made of one piece per token, in order. */
  ghost predicate Means(tokens: seq<Token>, path: string) {
    exists pieces: seq<string> :: |pieces| == |tokens| && Pieces(tokens, pieces) && Concat(pieces) == path
  }

  predicate Pieces(tokens: seq<Token>, pieces: seq<string>) {
    |pieces| == |tokens| && forall i :: 0 <= i < |tokens| ==> Denotes(tokens[i], pieces[i])
  }

  function Concat(pieces: seq<string>): string {
    if pieces == [] then "" else pieces[0] + Concat(pieces[1..])
  }

  function NodeOf(t: Token): Node {
    match t
    case AnyString => Star(Dot)
    case SegmentStar => Star(NotSlash)
    case SegmentOne => Single(NotSlash)
    case Literal(c) => Single(One(c))
  }

  function NodesOf(tokens: seq<Token>): seq<Node> {
    if tokens == [] then [] else [NodeOf(tokens[0])] + NodesOf(tokens[1..])
  }

  predicate IsGlobChar(c: char) {
    c == '*' || c == '?'
  }

  /** Tokens of a pattern never hold a star or question mark as a literal. */
  predicate Plain(tokens: seq<Token>) {
    forall i :: 0 <= i < |tokens| ==> tokens[i].Literal? ==> !IsGlobChar(tokens[i].c)
  }

  lemma {:induction false} TokensPlain(pattern: string)
    ensures Plain(Tokens(pattern))
    decreases |pattern|
  {
    if pattern != "" {
      TokensPlain(pattern[FirstToken(pattern).1..]);
    }
  }

  /** The emitted text never starts with a repetition, so no token changes the meaning of the one before it. */
  lemma RenderStart(tokens: seq<Token>)
    requires Plain(tokens)
    ensures RenderAll(tokens) != "" ==> RenderAll(tokens)[0] != '*'
  {
    if tokens != [] {
      assert RenderAll(tokens)[0] == Render(tokens[0])[0];
    }
  }

  /** The engine reads the emitted text back as one node per token. */
  lemma {:induction false} ParseUndoesRender(tokens: seq<Token>)
    requires Plain(tokens)
    ensures ParseRegex(RenderAll(tokens)) == Some(NodesOf(tokens))
  {
    if tokens != [] {
      var t, rest := tokens[0], RenderAll(tokens[1..]);
      var re := RenderAll(tokens);
      assert re == Render(t) + rest;
      ParseUndoesRender(tokens[1..]);
      RenderStart(tokens[1..]);
      ReadToken(t, rest);
    }
  }

  /** Reading one rendered token off the text. */
  lemma ReadToken(t: Token, rest: string)
    requires t.Literal? ==> !IsGlobChar(t.c)
    requires rest != "" ==> rest[0] != '*'
    ensures ReadClass(Render(t) + rest).Some?
    ensures var (cls, after) := ReadClass(Render(t) + rest).value;
      match NodeOf(t)
      case Single(c) => cls == c && after == rest
      case Star(c) => cls == c && after == "*" + rest
  {
    var re := Render(t) + rest;
    match t
    case AnyString =>
      assert re[1..] == "*" + rest;
    case SegmentStar =>
      assert re[..4] == "[^/]" && re[4..] == "*" + rest;
    case SegmentOne =>
      assert re[..4] == "[^/]" && re[4..] == rest;
    case Literal(c) =>
      if c in SPECIAL { assert re[2..] == rest; } else { assert re[1..] == rest; }
  }

  // ----- Backtracking finds a split exactly when there is one -----

  /** Every character of s is in the class. */
  predicate AllIn(cls: Class, s: string) {
    forall i :: 0 <= i < |s| ==> InClass(cls, s[i])
  }

  lemma AllInCons(cls: Class, s: string, k: nat)
    requires k < |s|
    ensures AllIn(cls, s[..k + 1]) <==> InClass(cls, s[0]) && AllIn(cls, s[1..][..k])
  {
    var t, u := s[..k + 1], s[1..][..k];
    assert t == [s[0]] + u;
    if AllIn(cls, t) {
      forall i | 0 <= i < |u|
        ensures InClass(cls, u[i])
      {
        assert u[i] == t[i + 1];
      }
    }
  }

  /** A star matches some prefix of its class and leaves the rest to what follows. */
  lemma {:induction false} StarSplits(cls: Class, rest: seq<Node>, s: string)
    ensures Accepts([Star(cls)] + rest, s) <==> exists k :: 0 <= k <= |s| && AllIn(cls, s[..k]) && Accepts(rest, s[k..])
    decreases |s|
  {
    var nodes := [Star(cls)] + rest;
    assert nodes[1..] == rest && s[0..] == s && AllIn(cls, s[..0]);
    if s != "" {
      StarSplits(cls, rest, s[1..]);
      forall k: nat | k < |s|
        ensures AllIn(cls, s[..k + 1]) <==> InClass(cls, s[0]) && AllIn(cls, s[1..][..k])
        ensures s[1..][k..] == s[k + 1..]
      {
        AllInCons(cls, s, k);
      }
      if Accepts(nodes, s) && !Accepts(rest, s) {
        var k :| 0 <= k <= |s[1..]| && AllIn(cls, s[1..][..k]) && Accepts(rest, s[1..][k..]);
        assert AllIn(cls, s[..k + 1]) && Accepts(rest, s[k + 1..]);
      }
      if k :| 0 <= k <= |s| && AllIn(cls, s[..k]) && Accepts(rest, s[k..]) {
        if k > 0 {
          assert AllIn(cls, s[..(k - 1) + 1]);
          assert AllIn(cls, s[1..][..k - 1]) && Accepts(rest, s[1..][k - 1..]);
        }
      }
    }
  }

  /** One token takes some prefix it denotes and leaves the rest to what follows. */
  lemma TokenSplits(t: Token, rest: seq<Node>, s: string)
    ensures Accepts([NodeOf(t)] + rest, s) <==> exists k :: 0 <= k <= |s| && Denotes(t, s[..k]) && Accepts(rest, s[k..])
  {
    var nodes := [NodeOf(t)] + rest;
    assert nodes[1..] == rest;
    match NodeOf(t)
    case Star(cls) =>
      StarSplits(cls, rest, s);
      forall k | 0 <= k <= |s|
        ensures Denotes(t, s[..k]) <==> AllIn(cls, s[..k])
      {
        StarDenotes(t, s[..k]);
      }
    case Single(cls) =>
      if s != "" {
        assert Denotes(t, s[..1]) <==> InClass(cls, s[0]);
      }
      forall k | 0 <= k <= |s| && Denotes(t, s[..k])
        ensures k == 1
      {
      }

  }

  lemma StarDenotes(t: Token, piece: string)
    requires t.AnyString? || t.SegmentStar?
    ensures Denotes(t, piece) <==> AllIn(NodeOf(t).cls, piece)
  {
    if AllIn(NodeOf(t).cls, piece) {
      forall c | c in piece
        ensures InClass(NodeOf(t).cls, c)
      {
      }
    }
  }

  /** Meaning, one token at a time. */
  lemma MeansStep(tokens: seq<Token>, path: string)
    requires tokens != []
    ensures Means(tokens, path)
       <==> exists k :: 0 <= k <= |path| && Denotes(tokens[0], path[..k]) && Means(tokens[1..], path[k..])
  {
    if Means(tokens, path) {
      var pieces: seq<string> :| |pieces| == |tokens| && Pieces(tokens, pieces) && Concat(pieces) == path;
      var k := |pieces[0]|;
      assert path == pieces[0] + Concat(pieces[1..]);
      assert path[..k] == pieces[0] && path[k..] == Concat(pieces[1..]);
      assert Pieces(tokens[1..], pieces[1..]);
      assert Means(tokens[1..], path[k..]);
    }
    if k :| 0 <= k <= |path| && Denotes(tokens[0], path[..k]) && Means(tokens[1..], path[k..]) {
      var rest: seq<string> :| |rest| == |tokens[1..]| && Pieces(tokens[1..], rest) && Concat(rest) == path[k..];
      var pieces := [path[..k]] + rest;
      assert pieces[1..] == rest;
      assert path == path[..k] + path[k..];
      assert Pieces(tokens, pieces);
      assert Concat(pieces) == path;
    }
  }

  /** The engine accepts exactly the paths that split into one piece per token. */
  lemma {:induction false} AcceptsIffMeans(tokens: seq<Token>, path: string)
    ensures Accepts(NodesOf(tokens), path) <==> Means(tokens, path)
    decreases |tokens|
  {
    if tokens == [] {
      if path == "" {
        assert Pieces(tokens, []) && Concat([]) == path;
      }
    } else {
      MeansStep(tokens, path);
      TokenSplits(tokens[0], NodesOf(tokens[1..]), path);
      forall k | 0 <= k <= |path|
        ensures Accepts(NodesOf(tokens[1..]), path[k..]) <==> Means(tokens[1..], path[k..])
      {
        AcceptsIffMeans(tokens[1..], path[k..]);
      }
      hide Accepts, Means, Denotes;
    }
  }

  // ----- matchesPattern and the file selection -----

  function DropTrailingSlashes(s: string): string {
    if s != "" && s[|s| - 1] == '/' then DropTrailingSlashes(s[..|s| - 1]) else s
  }

  /** `pattern.replace(/^\.\//, '').replace(/\/+$/, '')` */
  function Normalize(pattern: string): string {
    DropTrailingSlashes(if "./" <= pattern then pattern[2..] else pattern)
  }

  predicate IsGlob(s: string) {
    exists c :: c in s && c in "*?[]{}"
  }

  /** Around the rest of a pattern: one leading `./`, if it has one, and all slashes at its end. */
  lemma NormalizeIs(pattern: string) returns (slashes: string)
    ensures forall c :: c in slashes ==> c == '/'
    ensures "./" <= pattern ==> pattern == "./" + (Normalize(pattern) + slashes)
    ensures !("./" <= pattern) ==> pattern == Normalize(pattern) + slashes
    ensures Normalize(pattern) != "" ==> Normalize(pattern)[|Normalize(pattern)| - 1] != '/'
  {
    hide DropTrailingSlashes;
    if "./" <= pattern {
      PrefixSplits("./", pattern);
      slashes := DroppedSlashes(pattern[2..]);
    } else {
      slashes := DroppedSlashes(pattern);
    }
  }

  lemma PrefixSplits(prefix: string, s: string)
    requires prefix <= s
    ensures s == prefix + s[|prefix|..]
  {
  }

  lemma {:induction false} DroppedSlashes(s: string) returns (slashes: string)
    ensures s == DropTrailingSlashes(s) + slashes && forall c :: c in slashes ==> c == '/'
    ensures DropTrailingSlashes(s) != "" ==> DropTrailingSlashes(s)[|DropTrailingSlashes(s)| - 1] != '/'
  {
    slashes := "";
    if s != "" && s[|s| - 1] == '/' {
      slashes := DroppedSlashes(s[..|s| - 1]);
      slashes := slashes + "/";
    }
  }

  /** What a pattern selects: by its glob, or a file itself and everything beneath it. */
  ghost predicate Selects(pattern: string, path: string) {
    var n := Normalize(pattern);
    if '*' in n || '?' in n || '[' in n || ']' in n || '{' in n || '}' in n then Means(Tokens(n), path)
    else path == n || n + "/" <= path
  }

  /** `matchesPattern`: the compiled expression accepts exactly what the pattern means. */
  method MatchesPattern(path: string, pattern: string) returns (b: bool)
    ensures b <==> Selects(pattern, path)
  {
    var n := Normalize(pattern);
    if IsGlob(n) {
      var re := CompileGlob(n);
      TokensPlain(n);
      ParseUndoesRender(Tokens(n));
      AcceptsIffMeans(Tokens(n), path);
      var nodes := ParseRegex(re);
      b := nodes.Some? && Accepts(nodes.value, path);
    } else {
      b := path == n || n + "/" <= path;
    }
  }

  /** Which files a publish uploads. */
  ghost predicate Published(file: string, includes: seq<string>, excludes: seq<string>, configFile: string) {
    || file == configFile
    || ((includes == [] || exists p :: p in includes && Selects(p, file))
        && !exists p :: p in excludes && Selects(p, file))
  }

  method SomeMatches(path: string, patterns: seq<string>) returns (b: bool)
    ensures b <==> exists p :: p in patterns && Selects(p, path)
  {
    hide Selects;
    for i := 0 to |patterns|
      invariant forall j :: 0 <= j < i ==> !Selects(patterns[j], path)
    {
      var m := MatchesPattern(path, patterns[i]);
      if m {
        return true;
      }
    }
    b := false;
  }

  /** The files of a list that are published, in order. */
  ghost function Selection(files: seq<string>, includes: seq<string>, excludes: seq<string>,
                           configFile: string): seq<string>
  {
    if files == [] then []
    else
      Selection(files[..|files| - 1], includes, excludes, configFile)
      + if Published(files[|files| - 1], includes, excludes, configFile) then [files[|files| - 1]] else []
  }

  /** `selectPublishedFiles` */
  method SelectPublishedFiles(files: seq<string>, includes: seq<string>, excludes: seq<string>, configFile: string)
    returns (selected: seq<string>)
    ensures selected == Selection(files, includes, excludes, configFile)
  {
    selected := [];
    for i := 0 to |files|
      invariant selected == Selection(files[..i], includes, excludes, configFile)
    {
      assert files[..i + 1][..i] == files[..i];
      var isConfig := files[i] == configFile;
      var matched := SomeMatches(files[i], includes);
      var included := |includes| == 0 || isConfig || matched;
      if !included {
        continue;
      }
      if isConfig {
        selected := selected + [files[i]];
        continue;
      }
      var excluded := SomeMatches(files[i], excludes);
      if !excluded {
        selected := selected + [files[i]];
      }
    }
    assert files[..|files|] == files;
  }

  /** The selection holds exactly the published files, the manifest among them whenever it is listed. */
  lemma {:induction false} SelectionMembers(files: seq<string>, includes: seq<string>, excludes: seq<string>,
                                            configFile: string)
    ensures forall f :: f in Selection(files, includes, excludes, configFile)
                   <==> f in files && Published(f, includes, excludes, configFile)
    ensures configFile in files ==> configFile in Selection(files, includes, excludes, configFile)
  {
    if files != [] {
      hide Published;
      SelectionMembers(files[..|files| - 1], includes, excludes, configFile);
      assert files == files[..|files| - 1] + [files[|files| - 1]];
    }
    assert Published(configFile, includes, excludes, configFile);
  }

  /** Selecting again from what was selected drops nothing. */
  lemma {:induction false} SelectionIdempotent(files: seq<string>, includes: seq<string>, excludes: seq<string>,
                                               configFile: string)
    ensures Selection(Selection(files, includes, excludes, configFile), includes, excludes, configFile)
         == Selection(files, includes, excludes, configFile)
  {
    if files != [] {
      hide Published;
      var init, last := files[..|files| - 1], files[|files| - 1];
      SelectionIdempotent(init, includes, excludes, configFile);
      var kept := Selection(init, includes, excludes, configFile);
      assert (kept + [last])[..|kept|] == kept;
      assert kept + [] == kept;
    }
  }

  /** s is t with some elements left out, the others in their order. */
  ghost predicate Subsequence(s: seq<string>, t: seq<string>) {
    if s == [] then true
    else if t == [] then false
    else if s[|s| - 1] == t[|t| - 1] && Subsequence(s[..|s| - 1], t[..|t| - 1]) then true
    else Subsequence(s, t[..|t| - 1])
  }

  lemma {:induction false} SelectionInOrder(files: seq<string>, includes: seq<string>, excludes: seq<string>,
                                            configFile: string)
    ensures Subsequence(Selection(files, includes, excludes, configFile), files)
  {
    if files != [] {
      hide Published;
      var init, last := files[..|files| - 1], files[|files| - 1];
      SelectionInOrder(init, includes, excludes, configFile);
      var kept := Selection(init, includes, excludes, configFile);
      assert (kept + [last])[..|kept|] == kept;
      assert kept + [] == kept;
    }
  }
}
