/**
 Canonical key text is JSON (RFC 8259): a JSON reader gets from the text of a value that
 value back, its keys sorted; and every JSON number is a number text.
 */
module JsonText {
  import opened CacheKeys
  import opened Options
  import opened Strings

  function HexValue(c: char): Option<int> {
    if '0' <= c <= '9' then Some((c - '0') as int)
    else if 'a' <= c <= 'f' then Some((c - 'a') as int + 10)
    else if 'A' <= c <= 'F' then Some((c - 'A') as int + 10)
    else None
  }

  /** Four hex digits as a character, if they spell one. */
  function ReadUnicode(t: string): Option<char>
    requires |t| == 4
  {
    match (HexValue(t[0]), HexValue(t[1]), HexValue(t[2]), HexValue(t[3]))
    case (Some(a), Some(b), Some(c), Some(d)) =>
      var code := ((a * 16 + b) * 16 + c) * 16 + d;
      if 0 <= code < 0xD800 || 0xE000 <= code < 0x10000 then Some(code as char) else None
    case _ => None
  }

  /** The character a two-character escape stands for (section 7 of RFC 8259). */
  function ReadShort(c: char): Option<char> {
    if c == '\"' || c == '\\' || c == '/' then Some(c)
    else if c == 'b' then Some('\U{0008}')
    else if c == 'f' then Some('\U{000C}')
    else if c == 'n' then Some('\n')
    else if c == 'r' then Some('\r')
    else if c == 't' then Some('\t')
    else None
  }

  /** The characters up to the closing quote, and what is behind it; control characters must be escaped. */
  function ReadChars(t: string): Option<(string, string)>
    decreases |t|
  {
    if t == "" || t[0] as int < 32 then None
    else if t[0] == '\"' then Some(("", t[1..]))
    else if t[0] != '\\' then Prefixed(t[0], ReadChars(t[1..]))
    else if |t| >= 6 && t[1] == 'u' then
      match ReadUnicode(t[2..6])
      case None => None
      case Some(c) => Prefixed(c, ReadChars(t[6..]))
    else if |t| >= 2 && ReadShort(t[1]).Some? then Prefixed(ReadShort(t[1]).value, ReadChars(t[2..]))
    else None
  }

  function Prefixed(c: char, read: Option<(string, string)>): Option<(string, string)> {
    match read
    case None => None
    case Some((s, rest)) => Some(([c] + s, rest))
  }

  function ReadString(t: string): Option<(string, string)> {
    if t == "" || t[0] != '\"' then None else ReadChars(t[1..])
  }

  lemma HexReadsBack(n: int)
    requires 0 <= n < 16
    ensures HexValue(HexDigit(n)) == Some(n)
  {
  }

  /** One escaped character is read back, whatever follows. */
  lemma EscapeReads(c: char, rest: string)
    ensures ReadChars(Escape(c) + rest) == Prefixed(c, ReadChars(rest))
  {
    if |Escape(c)| == 6 {
      UnicodeReads(c, rest);
    } else {
      assert |Escape(c)| == 1 ==> (Escape(c) + rest)[1..] == rest;
      assert |Escape(c)| == 2 ==> (Escape(c) + rest)[2..] == rest;
    }
  }

  lemma UnicodeReads(c: char, rest: string)
    requires |Escape(c)| == 6
    ensures ReadChars(Escape(c) + rest) == Prefixed(c, ReadChars(rest))
  {
    var t, high, low := Escape(c) + rest, c as int / 16, c as int % 16;
    assert t[0] == '\\' && t[1] == 'u' && t[2..6] == ['0', '0', HexDigit(high), HexDigit(low)];
    CodeReads(high, low);
    hide Escape, HexDigit;
    assert t[6..] == rest;
  }

  lemma CodeReads(high: int, low: int)
    requires 0 <= high < 16 && 0 <= low < 16
    ensures ReadUnicode(['0', '0', HexDigit(high), HexDigit(low)]) == Some((high * 16 + low) as char)
  {
    HexReadsBack(high);
    HexReadsBack(low);
    hide HexDigit;
  }

  lemma {:induction false} CharsReadBack(s: string, rest: string)
    ensures ReadChars(EscapeAll(s) + ("\"" + rest)) == Some((s, rest))
  {
    hide Escape;
    if s == "" {
      assert "" + ("\"" + rest) == "\"" + rest && ("\"" + rest)[1..] == rest;
    } else {
      var more := EscapeAll(s[1..]) + ("\"" + rest);
      assert EscapeAll(s) + ("\"" + rest) == Escape(s[0]) + more;
      hide ReadChars, EscapeAll;
      EscapeReads(s[0], more);
      CharsReadBack(s[1..], rest);
      assert s == [s[0]] + s[1..];
    }
  }

  /** A JSON reader gets the string back from its quoted text. */
  lemma QuoteReadsBack(s: string, rest: string)
    ensures ReadString(Quote(s) + rest) == Some((s, rest))
  {
    CharsReadBack(s, rest);
    QuoteText(s, rest);
    hide EscapeAll, ReadChars;
  }

  // ----- Values -----

  /** The value a text starts with, and what is behind it. */
  ghost function ReadValue(t: string): (r: Option<(Json, string)>)
    ensures r.Some? ==> |r.value.1| < |t|
    decreases |t|, 0
  {
    if t == "" then None
    else if t[0] == 'n' then if "null" <= t then Some((Null, t[4..])) else None
    else if t[0] == 't' then if "true" <= t then Some((Bool(true), t[4..])) else None
    else if t[0] == 'f' then if "false" <= t then Some((Bool(false), t[5..])) else None
    else if t[0] == '\"' then ReadQuoted(t)
    else if t[0] == '[' then
      match ReadItems(t[1..], true)
      case None => None
      case Some((items, rest)) => Some((Arr(items), rest))
    else if t[0] == '{' then
      match ReadFields(t[1..], true)
      case None => None
      case Some((fields, rest)) => Some((Obj(fields), rest))
    else ReadNumber(t)
  }

  ghost function ReadQuoted(t: string): (r: Option<(Json, string)>)
    ensures r.Some? ==> |r.value.1| < |t|
  {
    StringShortens(t);
    match ReadString(t)
    case None => None
    case Some((s, rest)) => Some((Str(s), rest))
  }

  ghost function ReadNumber(t: string): (r: Option<(Json, string)>)
    ensures r.Some? ==> |r.value.1| < |t|
  {
    var n := NumLength(t);
    if 0 < n <= |t| && IsNumText(t[..n]) then Some((Num(t[..n]), t[n..])) else None
  }

  /** What is behind the comma that every element but the first needs before it. */
  function BehindComma(t: string, first: bool): (r: Option<string>)
    ensures r.Some? ==> |r.value| <= |t|
  {
    if first then Some(t) else if t != "" && t[0] == ',' then Some(t[1..]) else None
  }

  /** Items up to the closing bracket. */
  ghost function ReadItems(t: string, first: bool): (r: Option<(seq<Json>, string)>)
    ensures r.Some? ==> |r.value.1| < |t|
    decreases |t|, 1
  {
    if t == "" then None
    else if t[0] == ']' then Some(([], t[1..]))
    else
      match BehindComma(t, first)
      case None => None
      case Some(u) =>
        match ReadValue(u)
        case None => None
        case Some((v, more)) =>
          match ReadItems(more, false)
          case None => None
          case Some((items, rest)) => Some(([v] + items, rest))
  }

  /** Fields up to the closing brace. */
  ghost function ReadFields(t: string, first: bool): (r: Option<(seq<Field>, string)>)
    ensures r.Some? ==> |r.value.1| < |t|
    decreases |t|, 1
  {
    if t == "" then None
    else if t[0] == '}' then Some(([], t[1..]))
    else
      match BehindComma(t, first)
      case None => None
      case Some(u) =>
        StringShortens(u);
        match ReadString(u)
        case None => None
        case Some((key, behind)) =>
          if behind == "" || behind[0] != ':' then None
          else
            match ReadValue(behind[1..])
            case None => None
            case Some((v, more)) =>
              match ReadFields(more, false)
              case None => None
              case Some((fields, rest)) => Some(([Field(key, v)] + fields, rest))
  }

  lemma StringShortens(t: string)
    ensures ReadString(t).Some? ==> |ReadString(t).value.1| < |t|
  {
    if t != "" {
      CharsShorten(t[1..]);
    }
  }

  lemma {:induction false} CharsShorten(t: string)
    ensures ReadChars(t).Some? ==> |ReadChars(t).value.1| < |t|
    decreases |t|
  {
    if ReadChars(t).Some? && t[0] != '\"' {
      if t[0] != '\\' {
        CharsShorten(t[1..]);
      } else if |t| >= 6 && t[1] == 'u' {
        CharsShorten(t[6..]);
      } else {
        CharsShorten(t[2..]);
      }
    }
  }

  /** The reader gets a value back from its text, whatever may follow a value. */
  lemma {:induction false} ValueReadsBack(v: Json, rest: string)
    requires NumsOk(v) && Stops(rest)
    ensures ReadValue(Write(v) + rest) == Some((v, rest))
    decreases v, 1
  {
    hide IsNumText, Stops, WriteItems, WriteFields, ReadItems, ReadFields, Quote, ReadString;
    match v {
      case Null =>
        assert ("null" + rest)[4..] == rest;
      case Bool(b) =>
        assert ("true" + rest)[4..] == rest && ("false" + rest)[5..] == rest;
      case Num(text) =>
        NumberReadsBack(text, rest);
      case Str(s) =>
        QuoteReadsBack(s, rest);
        WriteStart(v);
        assert (Quote(s) + rest)[0] == '\"';
      case Arr(items) =>
        assert Write(v) + rest == "[" + (WriteItems(items, ']', true) + rest);
        assert ("[" + (WriteItems(items, ']', true) + rest))[1..] == WriteItems(items, ']', true) + rest;
        ItemsReadBack(items, true, rest);
      case Obj(fields) =>
        assert Write(v) + rest == "{" + (WriteFields(fields, true) + rest);
        assert ("{" + (WriteFields(fields, true) + rest))[1..] == WriteFields(fields, true) + rest;
        FieldsReadBack(fields, true, rest);
    }
  }

  lemma NumberReadsBack(text: string, rest: string)
    requires IsNumText(text) && Stops(rest)
    ensures ReadValue(text + rest) == Some((Num(text), rest))
  {
    NumLengthOf(text, rest);
    var t := text + rest;
    assert t[..|text|] == text && t[|text|..] == rest && t[0] == text[0];
  }

  lemma CommaRead(text: string, first: bool)
    ensures BehindComma((if first then "" else ",") + text, first) == Some(text)
  {
    assert "" + text == text && ("," + text)[1..] == text;
  }

  lemma {:induction false} ItemsReadBack(items: seq<Json>, first: bool, rest: string)
    requires forall i :: 0 <= i < |items| ==> NumsOk(items[i])
    ensures ReadItems(WriteItems(items, ']', first) + rest, first) == Some((items, rest))
    decreases items, 0
  {
    hide NumsOk, Stops, ReadValue;
    var t := WriteItems(items, ']', first) + rest;
    if items == [] {
      assert t == "]" + rest && t[1..] == rest;
    } else {
      ItemsHead(items, ']', first, rest);
      var more := WriteItems(items[1..], ']', false) + rest;
      ItemsStop(items[1..], ']', rest);
      ValueReadsBack(items[0], more);
      ItemsReadBack(items[1..], false, rest);
      CommaRead(Write(items[0]) + more, first);
      assert items == [items[0]] + items[1..];
    }
  }

  lemma {:induction false} FieldsReadBack(fields: seq<Field>, first: bool, rest: string)
    requires forall i :: 0 <= i < |fields| ==> NumsOk(fields[i].value)
    ensures ReadFields(WriteFields(fields, first) + rest, first) == Some((fields, rest))
    decreases fields, 0
  {
    hide NumsOk, Stops, ReadValue, ReadString, Quote;
    var t := WriteFields(fields, first) + rest;
    if fields == [] {
      assert t == "}" + rest && t[1..] == rest;
    } else {
      FieldsHead(fields, first, rest);
      var more := WriteFields(fields[1..], false) + rest;
      var value := Write(fields[0].value) + more;
      FieldsStop(fields[1..], rest);
      QuoteReadsBack(fields[0].key, ":" + value);
      assert (":" + value)[1..] == value;
      ValueReadsBack(fields[0].value, more);
      FieldsReadBack(fields[1..], false, rest);
      CommaRead(Quote(fields[0].key) + (":" + value), first);
      assert fields == [fields[0]] + fields[1..];
    }
  }

  /** The key text of an argument is JSON for it, with the keys of its objects sorted. */
  lemma TextReadsBack(v: Json)
    requires Valid(v)
    ensures ReadValue(Stringify(v)) == Some((Canon(v), ""))
  {
    StringifyIsWrite(v);
    CanonNumsOk(v);
    ValueReadsBack(Canon(v), "");
    assert Write(Canon(v)) + "" == Write(Canon(v));
  }

  /** A derived key is the class, a dot, the method, and the arguments' texts in parentheses. */
  lemma KeyText(c: string, m: string, a: seq<Json>)
    ensures DerivedKey(c, m, a) == c + ("." + (m + ("(" + (Join(StringifyAll(a), ',') + ")"))))
  {
  }

  /** The number grammar of JSON: a sign, digits, perhaps a fraction, perhaps an exponent. */
  predicate IsFraction(t: string) {
    t == "" || (t[0] == '.' && IsDigits(t[1..]))
  }

  predicate IsExponent(t: string) {
    t == "" || (|t| > 1 && t[0] == 'e' && (IsDigits(t[1..]) || ((t[1] == '+' || t[1] == '-') && IsDigits(t[2..]))))
  }

  lemma JsonNumbers(sign: string, digits: string, fraction: string, exponent: string)
    requires (sign == "" || sign == "-") && IsDigits(digits) && IsFraction(fraction) && IsExponent(exponent)
    ensures IsNumText(sign + (digits + (fraction + exponent)))
  {
    var t := sign + (digits + (fraction + exponent));
    assert digits[0] in digits;
    assert t[0] == if sign == "" then digits[0] else '-';
    NumChars(fraction);
    NumChars(exponent);
    forall c | c in t
      ensures IsNumChar(c)
    {
      assert c in sign || c in digits || c in fraction || c in exponent;
    }
  }

  lemma NumChars(t: string)
    requires IsFraction(t) || IsExponent(t)
    ensures forall c :: c in t ==> IsNumChar(c)
  {
    forall c | c in t
      ensures IsNumChar(c)
    {
      var i :| 0 <= i < |t| && t[i] == c;
      if i > 0 {
        assert t[1..][i - 1] == c && c in t[1..];
        if i > 1 {
          assert t[2..][i - 2] == c && c in t[2..];
        }
      }
    }
  }
}
