/**
 Cache keys: `stableStringify` writes a JSON value with sorted object keys, and
 `buildKey` spells a call as `Class.method(args)`. Two calls share a key exactly
 when their arguments are equal up to the order of object keys.
 */
module CacheKeys {
  import opened Strings

  /** A JSON value; a number is its JSON text, an object its fields in insertion order. */
  datatype Json =
    | Null
    | Bool(b: bool)
    | Num(text: string)
    | Str(s: string)
    | Arr(items: seq<Json>)
    | Obj(fields: seq<Field>)

  datatype Field = Field(key: string, value: Json)

  predicate IsNumChar(c: char) {
    '0' <= c <= '9' || c == '-' || c == '+' || c == '.' || c == 'e'
  }

  predicate IsNumText(t: string) {
    t != "" && ('0' <= t[0] <= '9' || t[0] == '-') && forall c :: c in t ==> IsNumChar(c)
  }

  ghost predicate DistinctKeys(fields: seq<Field>) {
    forall i, j :: 0 <= i < j < |fields| ==> fields[i].key != fields[j].key
  }

  /** Numbers have a JSON text and objects distinct keys, all the way down. */
  ghost predicate Valid(v: Json) {
    match v
    case Num(t) => IsNumText(t)
    case Arr(items) => forall i :: 0 <= i < |items| ==> Valid(items[i])
    case Obj(fields) => DistinctKeys(fields) && forall i :: 0 <= i < |fields| ==> Valid(fields[i].value)
    case _ => true
  }

  ghost function Keys(fields: seq<Field>): set<string> {
    set f | f in fields :: f.key
  }

  /** Equal up to the order of object keys: the same keys, and the same value under each. */
  ghost predicate Same(v: Json, w: Json)
    decreases v
  {
    match (v, w)
    case (Arr(a), Arr(b)) => |a| == |b| && forall i :: 0 <= i < |a| ==> Same(a[i], b[i])
    case (Obj(a), Obj(b)) =>
      Keys(a) == Keys(b)
      && forall i, j :: 0 <= i < |a| && 0 <= j < |b| && a[i].key == b[j].key ==> Same(a[i].value, b[j].value)
    case (Arr(_), _) => false
    case (Obj(_), _) => false
    case _ => v == w
  }

  // ----- JSON.stringify on primitives -----

  function HexDigit(n: int): char
    requires 0 <= n < 16
  {
    "0123456789abcdef"[n]
  }

  function Escape(c: char): string {
    if c == '\"' then "\\\""
    else if c == '\\' then "\\\\"
    else if c == '\U{0008}' then "\\b"
    else if c == '\t' then "\\t"
    else if c == '\n' then "\\n"
    else if c == '\U{000C}' then "\\f"
    else if c == '\r' then "\\r"
    else if c as int < 32 then ['\\', 'u', '0', '0', HexDigit(c as int / 16), HexDigit(c as int % 16)]
    else [c]
  }

  function EscapeAll(s: string): string {
    if s == "" then "" else Escape(s[0]) + EscapeAll(s[1..])
  }

  function Quote(s: string): string {
    "\"" + EscapeAll(s) + "\""
  }

  // ----- stableStringify -----

  function InsertField(f: Field, fields: seq<Field>): seq<Field> {
    if fields == [] || Leq(f.key, fields[0].key) then [f] + fields
    else [fields[0]] + InsertField(f, fields[1..])
  }

  /** The entries sorted by key. */
  function SortFields(fields: seq<Field>): seq<Field> {
    if fields == [] then [] else InsertField(fields[0], SortFields(fields[1..]))
  }

  lemma {:induction false} SortedFields(fields: seq<Field>)
    ensures |SortFields(fields)| == |fields|
    ensures forall f :: f in SortFields(fields) <==> f in fields
  {
    if fields != [] {
      SortedFields(fields[1..]);
      InsertedField(fields[0], SortFields(fields[1..]));
      assert fields == [fields[0]] + fields[1..];
    }
  }

  lemma {:induction false} InsertedField(f: Field, fields: seq<Field>)
    ensures |InsertField(f, fields)| == |fields| + 1
    ensures forall g :: g in InsertField(f, fields) <==> g == f || g in fields
  {
    if fields != [] && !Leq(f.key, fields[0].key) {
      InsertedField(f, fields[1..]);
      assert fields == [fields[0]] + fields[1..];
    }
  }

  function Stringify(v: Json): string
    decreases v, 1
  {
    match v
    case Null => "null"
    case Bool(b) => if b then "true" else "false"
    case Num(t) => t
    case Str(s) => Quote(s)
    case Arr(items) => "[" + Join(StringifyAll(items), ',') + "]"
    case Obj(fields) =>
      SortedFields(fields);
      "{" + Join(StringifyFields(v, SortFields(fields)), ',') + "}"
  }

  function StringifyAll(items: seq<Json>): (r: seq<string>)
    ensures |r| == |items|
    decreases items, 0
  {
    if items == [] then [] else [Stringify(items[0])] + StringifyAll(items[1..])
  }

  function StringifyFields(owner: Json, fields: seq<Field>): (r: seq<string>)
    requires owner.Obj? && forall f :: f in fields ==> f in owner.fields
    ensures |r| == |fields|
    decreases owner, 0, |fields|
  {
    if fields == [] then []
    else
      assert fields[0] in owner.fields;
      [Quote(fields[0].key) + ":" + Stringify(fields[0].value)] + StringifyFields(owner, fields[1..])
  }

  // ----- The canonical value behind the text -----

  /** The value with every object's fields sorted. */
  function Canon(v: Json): Json
    decreases v, 1
  {
    match v
    case Arr(items) => Arr(CanonAll(items))
    case Obj(fields) => Obj(SortFields(CanonFields(fields)))
    case _ => v
  }

  function CanonAll(items: seq<Json>): (r: seq<Json>)
    ensures |r| == |items| && forall i :: 0 <= i < |r| ==> r[i] == Canon(items[i])
    decreases items, 0
  {
    if items == [] then [] else [Canon(items[0])] + CanonAll(items[1..])
  }

  function CanonFields(fields: seq<Field>): (r: seq<Field>)
    ensures |r| == |fields|
    ensures forall i :: 0 <= i < |r| ==> r[i] == Field(fields[i].key, Canon(fields[i].value))
    decreases fields, 0
  {
    if fields == [] then [] else [Field(fields[0].key, Canon(fields[0].value))] + CanonFields(fields[1..])
  }

  /** The text of a value whose fields are in order already. */
  function Write(v: Json): string
    decreases v, 1
  {
    match v
    case Null => "null"
    case Bool(b) => if b then "true" else "false"
    case Num(t) => t
    case Str(s) => Quote(s)
    case Arr(items) => "[" + WriteItems(items, ']', true)
    case Obj(fields) => "{" + WriteFields(fields, true)
  }

  /** Items up to the closing bracket, with a comma before each one but the first. */
  function WriteItems(items: seq<Json>, close: char, first: bool): string
    decreases items, 0
  {
    if items == [] then [close]
    else (if first then "" else ",") + Write(items[0]) + WriteItems(items[1..], close, false)
  }

  function WriteField(f: Field): string
    decreases f, 0
  {
    Quote(f.key) + ":" + Write(f.value)
  }

  function WriteFields(fields: seq<Field>, first: bool): string
    decreases fields, 1
  {
    if fields == [] then "}"
    else (if first then "" else ",") + WriteField(fields[0]) + WriteFields(fields[1..], false)
  }

  // ----- The text determines the canonical value -----

  /** What may follow a value: the end, or a character no number goes on with. */
  predicate Stops(r: string) {
    r == "" || r[0] == ',' || r[0] == ']' || r[0] == '}' || r[0] == ')'
  }

  lemma {:induction false} EscapeUnique(c: char, d: char, r: string, q: string)
    requires Escape(c) + r == Escape(d) + q
    ensures c == d && r == q
  {
    var x, y := Escape(c) + r, Escape(d) + q;
    assert x[0] == y[0];
    if |x| > 1 { assert x[1] == y[1]; }
    if |Escape(c)| == 6 && |Escape(d)| == 6 {
      assert x[4] == y[4] && x[5] == y[5];
      HexUnique(c as int / 16, d as int / 16);
      HexUnique(c as int % 16, d as int % 16);
    }
    assert |Escape(c)| == |Escape(d)|;
    assert r == x[|Escape(c)|..] && q == y[|Escape(d)|..];
  }

  lemma HexUnique(m: int, n: int)
    requires 0 <= m < 16 && 0 <= n < 16 && HexDigit(m) == HexDigit(n)
    ensures m == n
  {
  }

  lemma EscapeStep(a: string, t: string)
    requires a != ""
    ensures EscapeAll(a) + t == Escape(a[0]) + (EscapeAll(a[1..]) + t)
    ensures (EscapeAll(a) + t)[0] != '\"'
  {
    assert EscapeAll(a) + t == Escape(a[0]) + (EscapeAll(a[1..]) + t);
    assert (EscapeAll(a) + t)[0] == Escape(a[0])[0];
  }

  lemma {:induction false} EscapesUnique(a: string, b: string, r: string, q: string)
    requires EscapeAll(a) + ("\"" + r) == EscapeAll(b) + ("\"" + q)
    ensures a == b && r == q
  {
    hide Escape;
    if a != "" { EscapeStep(a, "\"" + r); }
    if b != "" { EscapeStep(b, "\"" + q); }
    if a == "" || b == "" {
      assert "" + ("\"" + r) == "\"" + r && "" + ("\"" + q) == "\"" + q;
      assert ("\"" + r)[1..] == r && ("\"" + q)[1..] == q;
    } else {
      EscapeUnique(a[0], b[0], EscapeAll(a[1..]) + ("\"" + r), EscapeAll(b[1..]) + ("\"" + q));
      EscapesUnique(a[1..], b[1..], r, q);
      assert a == [a[0]] + a[1..] && b == [b[0]] + b[1..];
    }
  }

  lemma QuoteUnique(a: string, b: string, r: string, q: string)
    requires Quote(a) + r == Quote(b) + q
    ensures a == b && r == q
  {
    QuoteText(a, r);
    QuoteText(b, q);
    hide Quote, EscapeAll;
    EscapesUnique(a, b, r, q);
  }

  lemma QuoteText(a: string, r: string)
    ensures Quote(a) + r != "" && (Quote(a) + r)[1..] == EscapeAll(a) + ("\"" + r)
  {
    hide EscapeAll;
  }

  /** How many number characters a text starts with. */
  ghost function NumLength(s: string): nat {
    if s == "" || !IsNumChar(s[0]) then 0 else 1 + NumLength(s[1..])
  }

  lemma {:induction false} NumLengthOf(a: string, r: string)
    requires (forall c :: c in a ==> IsNumChar(c)) && Stops(r)
    ensures NumLength(a + r) == |a|
  {
    if a == "" {
      assert a + r == r;
    } else {
      assert (a + r)[1..] == a[1..] + r;
      NumLengthOf(a[1..], r);
    }
  }

  lemma NumUnique(a: string, b: string, r: string, q: string)
    requires IsNumText(a) && IsNumText(b) && Stops(r) && Stops(q)
    requires a + r == b + q
    ensures a == b && r == q
  {
    NumLengthOf(a, r);
    NumLengthOf(b, q);
    assert a == (a + r)[..|a|] && b == (b + q)[..|b|] && r == (a + r)[|a|..] && q == (b + q)[|b|..];
  }

  ghost predicate NumsOk(v: Json) {
    match v
    case Num(t) => IsNumText(t)
    case Arr(items) => forall i :: 0 <= i < |items| ==> NumsOk(items[i])
    case Obj(fields) => forall i :: 0 <= i < |fields| ==> NumsOk(fields[i].value)
    case _ => true
  }

  /** The first character of a value's text tells its kind. */
  function KindChar(v: Json, c: char): bool {
    match v
    case Null => c == 'n'
    case Bool(b) => c == if b then 't' else 'f'
    case Num(_) => '0' <= c <= '9' || c == '-'
    case Str(_) => c == '\"'
    case Arr(_) => c == '['
    case Obj(_) => c == '{'
  }

  lemma WriteStart(v: Json)
    requires NumsOk(v)
    ensures Write(v) != "" && KindChar(v, Write(v)[0])
  {
  }

  predicate SameKind(v: Json, w: Json) {
    match v
    case Null => w.Null?
    case Bool(b) => w == Bool(b)
    case Num(_) => w.Num?
    case Str(_) => w.Str?
    case Arr(_) => w.Arr?
    case Obj(_) => w.Obj?
  }

  lemma KindIsUnique(v: Json, w: Json, r: string, q: string)
    requires NumsOk(v) && NumsOk(w) && Write(v) + r == Write(w) + q
    ensures SameKind(v, w)
  {
    WriteStart(v);
    WriteStart(w);
    assert Write(v)[0] == (Write(v) + r)[0] && Write(w)[0] == (Write(w) + q)[0];
    hide Write, NumsOk;
  }

  lemma SameLead(lead: string, x: string, y: string)
    requires lead + x == lead + y
    ensures x == y
  {
    assert (lead + x)[|lead|..] == x && (lead + y)[|lead|..] == y;
  }

  /** Reading from the left, a text holds one value and leaves one remainder. */
  lemma {:induction false} WriteUnique(v: Json, w: Json, r: string, q: string)
    requires NumsOk(v) && NumsOk(w) && Stops(r) && Stops(q)
    requires Write(v) + r == Write(w) + q
    ensures v == w && r == q
    decreases v, 1
  {
    hide IsNumText, Stops, Quote, WriteItems, WriteFields;
    KindIsUnique(v, w, r, q);
    match v {
      case Null =>
        SameLead("null", r, q);
      case Bool(b) =>
        SameLead(Write(v), r, q);
      case Num(t) =>
        NumUnique(t, w.text, r, q);
      case Str(s) =>
        QuoteUnique(s, w.s, r, q);
      case Arr(items) =>
        var a, b := WriteItems(items, ']', true), WriteItems(w.items, ']', true);
        assert Write(v) + r == "[" + (a + r) && Write(w) + q == "[" + (b + q);
        SameLead("[", a + r, b + q);
        ItemsUnique(items, w.items, ']', true, r, q);
      case Obj(fields) =>
        var a, b := WriteFields(fields, true), WriteFields(w.fields, true);
        assert Write(v) + r == "{" + (a + r) && Write(w) + q == "{" + (b + q);
        SameLead("{", a + r, b + q);
        FieldsUnique(fields, w.fields, true, r, q);
    }
  }

  /** What follows an item stops a number, whatever comes after the list. */
  lemma ItemsStop(items: seq<Json>, close: char, r: string)
    requires close == ']' || close == ')'
    ensures Stops(WriteItems(items, close, false) + r)
  {
    var text := WriteItems(items, close, false) + r;
    if items != [] {
      assert text == "," + (Write(items[0]) + WriteItems(items[1..], close, false) + r);
    }
  }

  lemma {:induction false} ItemsUnique(a: seq<Json>, b: seq<Json>, close: char, first: bool, r: string, q: string)
    requires close == ']' || close == ')'
    requires forall i :: 0 <= i < |a| ==> NumsOk(a[i])
    requires forall i :: 0 <= i < |b| ==> NumsOk(b[i])
    requires WriteItems(a, close, first) + r == WriteItems(b, close, first) + q
    ensures a == b && r == q
    decreases a, 0
  {
    hide NumsOk, Stops, KindChar;
    var x, y := WriteItems(a, close, first) + r, WriteItems(b, close, first) + q;
    var lead := if first then "" else ",";
    if a != [] {
      ItemsHead(a, close, first, r);
    }
    if b != [] {
      ItemsHead(b, close, first, q);
    }
    if a == [] || b == [] {
      assert x[0] == y[0];
      assert a == [] && b == [];
      assert x[1..] == r && y[1..] == q;
    } else {
      var ra, rb := WriteItems(a[1..], close, false) + r, WriteItems(b[1..], close, false) + q;
      assert x[|lead|..] == Write(a[0]) + ra;
      assert y[|lead|..] == Write(b[0]) + rb;
      ItemsStop(a[1..], close, r);
      ItemsStop(b[1..], close, q);
      WriteUnique(a[0], b[0], ra, rb);
      ItemsUnique(a[1..], b[1..], close, false, r, q);
      assert a == [a[0]] + a[1..] && b == [b[0]] + b[1..];
    }
  }

  lemma ItemsHead(a: seq<Json>, close: char, first: bool, r: string)
    requires (close == ']' || close == ')') && a != [] && NumsOk(a[0])
    ensures var lead := if first then "" else ",";
      var text := WriteItems(a, close, first) + r;
      && text == lead + (Write(a[0]) + (WriteItems(a[1..], close, false) + r))
      && text != "" && text[0] != close
  {
    WriteStart(a[0]);
    NoValueStartsWith(a[0], close, Write(a[0])[0]);
    hide Write, KindChar, NumsOk;
    HeadText(if first then "" else ",", Write(a[0]), WriteItems(a[1..], close, false), r);
  }

  lemma NoValueStartsWith(v: Json, close: char, c: char)
    requires (close == ']' || close == ')') && KindChar(v, c)
    ensures c != close
  {
  }

  lemma HeadText(lead: string, head: string, tail: string, r: string)
    requires head != "" && (lead == "" || lead == ",")
    ensures lead + head + tail + r == lead + (head + (tail + r))
    ensures lead + head + tail + r != ""
    ensures (lead + head + tail + r)[0] == if lead == "" then head[0] else ','
  {
  }

  lemma FieldsStop(fields: seq<Field>, r: string)
    ensures Stops(WriteFields(fields, false) + r)
  {
    var text := WriteFields(fields, false) + r;
    if fields != [] {
      assert text == "," + (WriteField(fields[0]) + WriteFields(fields[1..], false) + r);
    }
  }

  lemma FieldText(f: Field, t: string)
    ensures WriteField(f) + t == Quote(f.key) + (":" + (Write(f.value) + t))
    ensures WriteField(f) != "" && WriteField(f)[0] == '\"'
  {
    assert WriteField(f) == Quote(f.key) + (":" + Write(f.value));
    assert (":" + Write(f.value)) + t == ":" + (Write(f.value) + t);
    assert (Quote(f.key) + (":" + Write(f.value))) + t == Quote(f.key) + ((":" + Write(f.value)) + t);
  }

  lemma FieldsHead(a: seq<Field>, first: bool, r: string)
    requires a != []
    ensures var lead := if first then "" else ",";
      var text := WriteFields(a, first) + r;
      && text == lead + (Quote(a[0].key) + (":" + (Write(a[0].value) + (WriteFields(a[1..], false) + r))))
      && text != "" && text[0] != '}'
  {
    var lead := if first then "" else ",";
    var rest := WriteFields(a[1..], false);
    FieldText(a[0], rest + r);
    assert WriteFields(a, first) == lead + WriteField(a[0]) + rest;
    hide WriteFields, WriteField, Quote, Write;
    ConcatRight(lead, WriteField(a[0]), rest, r);
  }

  lemma {:induction false} FieldsUnique(a: seq<Field>, b: seq<Field>, first: bool, r: string, q: string)
    requires forall i :: 0 <= i < |a| ==> NumsOk(a[i].value)
    requires forall i :: 0 <= i < |b| ==> NumsOk(b[i].value)
    requires WriteFields(a, first) + r == WriteFields(b, first) + q
    ensures a == b && r == q
    decreases a, 0
  {
    hide NumsOk, Stops, Quote;
    var x, y := WriteFields(a, first) + r, WriteFields(b, first) + q;
    var lead := if first then "" else ",";
    if a != [] {
      FieldsHead(a, first, r);
    }
    if b != [] {
      FieldsHead(b, first, q);
    }
    if a == [] || b == [] {
      assert x[0] == y[0];
      assert a == [] && b == [];
      assert x[1..] == r && y[1..] == q;
    } else {
      var ra, rb := WriteFields(a[1..], false) + r, WriteFields(b[1..], false) + q;
      var va, vb := Write(a[0].value) + ra, Write(b[0].value) + rb;
      assert x[|lead|..] == Quote(a[0].key) + (":" + va);
      assert y[|lead|..] == Quote(b[0].key) + (":" + vb);
      QuoteUnique(a[0].key, b[0].key, ":" + va, ":" + vb);
      assert (":" + va)[1..] == va && (":" + vb)[1..] == vb;
      FieldsStop(a[1..], r);
      FieldsStop(b[1..], q);
      WriteUnique(a[0].value, b[0].value, ra, rb);
      FieldsUnique(a[1..], b[1..], false, r, q);
      assert a == [a[0]] + a[1..] && b == [b[0]] + b[1..];
    }
  }

  // ----- stableStringify writes the canonical value -----

  lemma {:induction false} CanonInsert(f: Field, fields: seq<Field>)
    ensures CanonFields(InsertField(f, fields)) == InsertField(Field(f.key, Canon(f.value)), CanonFields(fields))
  {
    if fields == [] || Leq(f.key, fields[0].key) {
      assert ([f] + fields)[1..] == fields;
    } else {
      CanonInsert(f, fields[1..]);
      assert ([fields[0]] + InsertField(f, fields[1..]))[1..] == InsertField(f, fields[1..]);
      assert CanonFields(fields)[1..] == CanonFields(fields[1..]);
    }
  }

  /** Sorting only looks at keys. */
  lemma {:induction false} CanonSort(fields: seq<Field>)
    ensures CanonFields(SortFields(fields)) == SortFields(CanonFields(fields))
  {
    if fields != [] {
      CanonSort(fields[1..]);
      CanonInsert(fields[0], SortFields(fields[1..]));
      assert CanonFields(fields)[1..] == CanonFields(fields[1..]);
    }
  }

  lemma {:induction false} StringifyIsWrite(v: Json)
    ensures Stringify(v) == Write(Canon(v))
    decreases v, 1
  {
    hide StringifyAll, StringifyFields, SortFields, WriteItems, WriteFields, CanonAll, CanonFields, Join, Quote;
    match v
    case Arr(items) =>
      StringifyAllIsWrite(items, ']', true);
      Bracketed("[", Join(StringifyAll(items), ','), "]");
    case Obj(fields) =>
      SortedFields(fields);
      CanonSort(fields);
      StringifyFieldsIsWrite(v, SortFields(fields), true);
      Bracketed("{", Join(StringifyFields(v, SortFields(fields)), ','), "}");
    case _ =>
  }

  lemma Bracketed(open: string, body: string, close: string)
    ensures open + body + close == open + ("" + (body + close))
  {
  }

  lemma {:induction false} StringifyAllIsWrite(items: seq<Json>, close: char, first: bool)
    ensures WriteItems(CanonAll(items), close, first)
         == (if first || items == [] then "" else ",") + (Join(StringifyAll(items), ',') + [close])
    decreases items, 0
  {
    if items != [] {
      var rest := items[1..];
      StringifyIsWrite(items[0]);
      StringifyAllIsWrite(rest, close, false);
      assert CanonAll(items)[1..] == CanonAll(rest);
      assert StringifyAll(items)[1..] == StringifyAll(rest);
      var lead, head, tail := if first then "" else ",", Stringify(items[0]), Join(StringifyAll(rest), ',');
      assert WriteItems(CanonAll(items), close, first) == lead + head + WriteItems(CanonAll(rest), close, false);
      ListText(lead, head, if rest == [] then "" else ",", tail, [close]);
      assert Join(StringifyAll(items), ',') == if rest == [] then head else head + [','] + tail;
    }
  }

  lemma ListText(lead: string, head: string, sep: string, tail: string, close: string)
    requires sep == "" ==> tail == ""
    ensures lead + head + (sep + (tail + close)) == lead + ((if sep == "" then head else head + sep + tail) + close)
  {
    if sep == "" {
      assert sep + (tail + close) == close;
    }
    assert lead + head + (sep + (tail + close)) == lead + (head + (sep + (tail + close)));
    assert head + (sep + (tail + close)) == head + sep + tail + close;
  }

  lemma {:induction false} StringifyFieldsIsWrite(owner: Json, fields: seq<Field>, first: bool)
    requires owner.Obj? && forall f :: f in fields ==> f in owner.fields
    ensures WriteFields(CanonFields(fields), first)
         == (if first || fields == [] then "" else ",") + (Join(StringifyFields(owner, fields), ',') + "}")
    decreases owner, 0, |fields|
  {
    if fields != [] {
      var rest := fields[1..];
      assert fields[0] in owner.fields;
      StringifyIsWrite(fields[0].value);
      StringifyFieldsIsWrite(owner, rest, false);
      assert CanonFields(fields)[1..] == CanonFields(rest);
      assert StringifyFields(owner, fields)[1..] == StringifyFields(owner, rest);
      var lead := if first then "" else ",";
      var head := Quote(fields[0].key) + ":" + Stringify(fields[0].value);
      var tail := Join(StringifyFields(owner, rest), ',');
      assert WriteFields(CanonFields(fields), first) == lead + head + WriteFields(CanonFields(rest), false);
      ListText(lead, head, if rest == [] then "" else ",", tail, "}");
      assert Join(StringifyFields(owner, fields), ',') == if rest == [] then head else head + [','] + tail;
    }
  }

  lemma {:induction false} CanonNumsOk(v: Json)
    requires Valid(v)
    ensures NumsOk(Canon(v))
  {
    match v
    case Arr(items) =>
      forall i | 0 <= i < |items|
        ensures NumsOk(CanonAll(items)[i])
      {
        CanonNumsOk(items[i]);
      }
    case Obj(fields) =>
      var sorted := SortFields(CanonFields(fields));
      SortedFields(CanonFields(fields));
      forall i | 0 <= i < |sorted|
        ensures NumsOk(sorted[i].value)
      {
        assert sorted[i] in CanonFields(fields);
        var j :| 0 <= j < |fields| && CanonFields(fields)[j] == sorted[i];
        CanonNumsOk(fields[j].value);
      }
    case _ =>
  }

  // ----- Canonical values are equal exactly for the same value -----

  ghost predicate KeysAscend(fields: seq<Field>) {
    forall i, j :: 0 <= i < j < |fields| ==> Less(fields[i].key, fields[j].key)
  }

  lemma {:induction false} InsertAscends(f: Field, fields: seq<Field>)
    requires KeysAscend(fields) && forall g :: g in fields ==> g.key != f.key
    ensures KeysAscend(InsertField(f, fields))
  {
    var r := InsertField(f, fields);
    if fields == [] {
    } else if Leq(f.key, fields[0].key) {
      assert fields[0] in fields;
      forall j | 0 < j < |r|
        ensures Less(f.key, r[j].key)
      {
        if j > 1 { LessTrans(f.key, fields[0].key, fields[j - 1].key); }
      }
    } else {
      LessTotal(f.key, fields[0].key);
      InsertAscends(f, fields[1..]);
      InsertedField(f, fields[1..]);
      var rest := InsertField(f, fields[1..]);
      forall j | 0 <= j < |rest|
        ensures Less(fields[0].key, rest[j].key)
      {
        assert rest[j] in rest;
        if rest[j] != f {
          var k :| 0 <= k < |fields[1..]| && fields[1..][k] == rest[j];
          assert fields[k + 1] == rest[j];
        }
      }
    }
  }

  lemma {:induction false} SortAscends(fields: seq<Field>)
    requires DistinctKeys(fields)
    ensures KeysAscend(SortFields(fields))
  {
    if fields != [] {
      SortAscends(fields[1..]);
      SortedFields(fields[1..]);
      forall g | g in SortFields(fields[1..])
        ensures g.key != fields[0].key
      {
        var k :| 0 <= k < |fields[1..]| && fields[1..][k] == g;
        assert fields[k + 1] == g;
      }
      InsertAscends(fields[0], SortFields(fields[1..]));
    }
  }

  /** Ascending lists with the same elements are equal. */
  lemma {:induction false} AscendingUnique(a: seq<Field>, b: seq<Field>)
    requires KeysAscend(a) && KeysAscend(b)
    requires forall f :: f in a <==> f in b
    ensures a == b
  {
    assert a != [] ==> a[0] in a;
    assert b != [] ==> b[0] in b;
    if a != [] {
      assert a[0] in a && b[0] in b;
      var i :| 0 <= i < |a| && a[i] == b[0];
      var j :| 0 <= j < |b| && b[j] == a[0];
      LessTotal(a[0].key, b[0].key);
      assert i == 0;
      AscendingTail(a);
      AscendingTail(b);
      AscendingUnique(a[1..], b[1..]);
      assert a == [a[0]] + a[1..] && b == [b[0]] + b[1..];
    }
  }

  lemma AscendingTail(a: seq<Field>)
    requires KeysAscend(a) && a != []
    ensures KeysAscend(a[1..])
    ensures forall f :: f in a[1..] <==> f in a && f != a[0]
  {
    forall j | 0 < j < |a|
      ensures a[j] != a[0]
    {
      LessTotal(a[0].key, a[j].key);
    }
    assert a == [a[0]] + a[1..];
  }

  lemma {:induction false} CanonIffSame(v: Json, w: Json)
    requires Valid(v) && Valid(w)
    ensures Canon(v) == Canon(w) <==> Same(v, w)
    decreases v
  {
    match v
    case Arr(a) =>
      if w.Arr? && |a| == |w.items| {
        forall i | 0 <= i < |a|
          ensures Canon(a[i]) == Canon(w.items[i]) <==> Same(a[i], w.items[i])
        {
          CanonIffSame(a[i], w.items[i]);
        }
        if Same(v, w) {
          assert CanonAll(a) == CanonAll(w.items);
        }
      }
    case Obj(a) =>
      if w.Obj? {
        forall i, j | 0 <= i < |a| && 0 <= j < |w.fields|
          ensures Canon(a[i].value) == Canon(w.fields[j].value) <==> Same(a[i].value, w.fields[j].value)
        {
          CanonIffSame(a[i].value, w.fields[j].value);
        }
        ObjectsSame(v, w);
      }
    case _ =>
  }

  lemma ObjectsSame(v: Json, w: Json)
    requires Valid(v) && Valid(w) && v.Obj? && w.Obj?
    requires AgreesOn(v.fields, w.fields)
    ensures Canon(v) == Canon(w) <==> Same(v, w)
  {
    var ca, cb := CanonFields(v.fields), CanonFields(w.fields);
    CanonKeysDistinct(v);
    CanonKeysDistinct(w);
    SameMembers(v.fields, w.fields);
    hide Valid, Same, CanonFields, AgreesOn;
    SortedFields(ca);
    SortedFields(cb);
    SortAscends(ca);
    SortAscends(cb);
    if Within(v.fields, w.fields) && Within(w.fields, v.fields) {
      AscendingUnique(SortFields(ca), SortFields(cb));
    }
  }

  ghost predicate AgreesOn(a: seq<Field>, b: seq<Field>) {
    forall i, j :: 0 <= i < |a| && 0 <= j < |b| ==>
      (Canon(a[i].value) == Canon(b[j].value) <==> Same(a[i].value, b[j].value))
  }

  /** Every canonical field of a is one of b. */
  ghost predicate Within(a: seq<Field>, b: seq<Field>) {
    forall f :: f in CanonFields(a) ==> f in CanonFields(b)
  }

  /** Under the same key, the same canonical value. */
  ghost predicate ValuesMatch(a: seq<Field>, b: seq<Field>) {
    forall i, j :: 0 <= i < |a| && 0 <= j < |b| && a[i].key == b[j].key ==> Canon(a[i].value) == Canon(b[j].value)
  }

  /** Objects are the same exactly when they have the same canonical fields. */
  lemma SameMembers(a: seq<Field>, b: seq<Field>)
    requires DistinctKeys(a) && DistinctKeys(b) && AgreesOn(a, b)
    ensures Within(a, b) && Within(b, a) <==> Same(Obj(a), Obj(b))
  {
    SameIsMatch(a, b);
    hide *;
    if Within(a, b) && Within(b, a) {
      KeysWithin(a, b);
      KeysWithin(b, a);
      ValuesAgree(a, b);
    }
    if Same(Obj(a), Obj(b)) {
      MatchFlips(a, b);
      FieldsWithin(a, b);
      FieldsWithin(b, a);
    }
  }

  lemma SameIsMatch(a: seq<Field>, b: seq<Field>)
    requires AgreesOn(a, b)
    ensures Same(Obj(a), Obj(b)) <==> Keys(a) == Keys(b) && ValuesMatch(a, b)
  {
    hide Canon, Keys;
  }

  lemma MatchFlips(a: seq<Field>, b: seq<Field>)
    requires ValuesMatch(a, b)
    ensures ValuesMatch(b, a)
  {
    hide Canon;
  }

  lemma ValuesAgree(a: seq<Field>, b: seq<Field>)
    requires DistinctKeys(b) && Within(a, b)
    ensures ValuesMatch(a, b)
  {
    hide Within, DistinctKeys, Canon;
    forall i, j | 0 <= i < |a| && 0 <= j < |b| && a[i].key == b[j].key
      ensures Canon(a[i].value) == Canon(b[j].value)
    {
      ValueAgrees(a, b, i, j);
    }
  }

  lemma ValueAgrees(a: seq<Field>, b: seq<Field>, i: nat, j: nat)
    requires DistinctKeys(b) && Within(a, b)
    requires i < |a| && j < |b| && a[i].key == b[j].key
    ensures Canon(a[i].value) == Canon(b[j].value)
  {
    hide Canon, CanonFields;
    var f := CanonFields(a)[i];
    assert f in CanonFields(a);
    assert f in CanonFields(b);
    var k :| 0 <= k < |CanonFields(b)| && CanonFields(b)[k] == f;
    KeyPlace(b, k, j);
  }

  lemma KeyPlace(b: seq<Field>, k: nat, j: nat)
    requires DistinctKeys(b) && k < |b| && j < |b| && b[k].key == b[j].key
    ensures k == j
  {
  }

  lemma KeysWithin(a: seq<Field>, b: seq<Field>)
    requires Within(a, b)
    ensures Keys(a) <= Keys(b)
  {
    forall f | f in a
      ensures f.key in Keys(b)
    {
      var i :| 0 <= i < |a| && a[i] == f;
      assert CanonFields(a)[i] in CanonFields(a);
      var j :| 0 <= j < |b| && CanonFields(b)[j] == CanonFields(a)[i];
      assert b[j] in b;
    }
  }

  lemma FieldsWithin(a: seq<Field>, b: seq<Field>)
    requires Keys(a) <= Keys(b) && ValuesMatch(a, b)
    ensures Within(a, b)
  {
    forall f | f in CanonFields(a)
      ensures f in CanonFields(b)
    {
      var i :| 0 <= i < |a| && CanonFields(a)[i] == f;
      assert a[i] in a;
      assert a[i].key in Keys(b);
      var g :| g in b && g.key == a[i].key;
      var j :| 0 <= j < |b| && b[j] == g;
      assert CanonFields(b)[j] == f;
    }
  }

  lemma CanonKeysDistinct(v: Json)
    requires Valid(v) && v.Obj?
    ensures DistinctKeys(CanonFields(v.fields))
  {
  }

  // ----- The theorem, and the keys of calls -----

  /** Equal strings exactly for values equal up to object key order. */
  lemma StableStringifyIff(v: Json, w: Json)
    requires Valid(v) && Valid(w)
    ensures Stringify(v) == Stringify(w) <==> Same(v, w)
  {
    StringifyIsWrite(v);
    StringifyIsWrite(w);
    CanonIffSame(v, w);
    if Stringify(v) == Stringify(w) {
      CanonNumsOk(v);
      CanonNumsOk(w);
      assert Write(Canon(v)) + "" == Write(Canon(w)) + "";
      WriteUnique(Canon(v), Canon(w), "", "");
    }
  }

  /** The derived key of a call: `Class.method(args)`. */
  function DerivedKey(className: string, methodName: string, args: seq<Json>): string {
    className + "." + methodName + "(" + Join(StringifyAll(args), ',') + ")"
  }

  /** Argument lists equal one by one, up to object key order. */
  ghost predicate SameArgs(a: seq<Json>, b: seq<Json>) {
    |a| == |b| && forall i :: 0 <= i < |a| ==> Same(a[i], b[i])
  }

  ghost predicate ValidArgs(a: seq<Json>) {
    forall i :: 0 <= i < |a| ==> Valid(a[i])
  }

  /** What a class or method name is here: it holds none of the key's own punctuation. */
  predicate IsIdentifier(s: string) {
    '.' !in s && '(' !in s
  }

  lemma ArgsTextIff(a: seq<Json>, b: seq<Json>)
    requires ValidArgs(a) && ValidArgs(b)
    ensures Join(StringifyAll(a), ',') + ")" == Join(StringifyAll(b), ',') + ")" <==> SameArgs(a, b)
  {
    StringifyAllIsWrite(a, ')', true);
    StringifyAllIsWrite(b, ')', true);
    var ta, tb := Join(StringifyAll(a), ',') + ")", Join(StringifyAll(b), ',') + ")";
    assert "" + ta == ta && "" + tb == tb;
    if ta == tb {
      forall i | 0 <= i < |a| ensures NumsOk(CanonAll(a)[i]) { CanonNumsOk(a[i]); }
      forall i | 0 <= i < |b| ensures NumsOk(CanonAll(b)[i]) { CanonNumsOk(b[i]); }
      assert WriteItems(CanonAll(a), ')', true) + "" == WriteItems(CanonAll(b), ')', true) + "";
      ItemsUnique(CanonAll(a), CanonAll(b), ')', true, "", "");
      forall i | 0 <= i < |a| ensures Same(a[i], b[i]) {
        assert CanonAll(a)[i] == CanonAll(b)[i];
        CanonIffSame(a[i], b[i]);
      }
    }
    if SameArgs(a, b) {
      forall i | 0 <= i < |a| ensures CanonAll(a)[i] == CanonAll(b)[i] { CanonIffSame(a[i], b[i]); }
      assert CanonAll(a) == CanonAll(b);
    }
  }

  /** Where a mark first occurs. */
  ghost function MarkAt(s: string, mark: char): nat {
    if s == "" || s[0] == mark then 0 else 1 + MarkAt(s[1..], mark)
  }

  lemma {:induction false} MarkAtEnd(a: string, mark: char, r: string)
    requires mark !in a
    ensures MarkAt(a + ([mark] + r), mark) == |a|
  {
    var x := a + ([mark] + r);
    if a != "" {
      assert x[1..] == a[1..] + ([mark] + r);
      MarkAtEnd(a[1..], mark, r);
      assert x[0] == a[0] && a[0] in a;
    }
  }

  lemma FirstMark(a: string, b: string, mark: char, r: string, q: string)
    requires mark !in a && mark !in b
    requires a + ([mark] + r) == b + ([mark] + q)
    ensures a == b && r == q
  {
    var x, y := a + ([mark] + r), b + ([mark] + q);
    MarkAtEnd(a, mark, r);
    MarkAtEnd(b, mark, q);
    assert a == x[..|a|] && b == y[..|b|] && r == x[|a| + 1..] && q == y[|b| + 1..];
  }

  /** Two derived keys collide exactly on one method called with equal arguments. */
  lemma DerivedKeyIff(c: string, m: string, a: seq<Json>, d: string, n: string, b: seq<Json>)
    requires IsIdentifier(c) && IsIdentifier(m) && IsIdentifier(d) && IsIdentifier(n)
    requires ValidArgs(a) && ValidArgs(b)
    ensures DerivedKey(c, m, a) == DerivedKey(d, n, b) <==> c == d && m == n && SameArgs(a, b)
  {
    hide Valid, Same;
    var ta, tb := Join(StringifyAll(a), ',') + ")", Join(StringifyAll(b), ',') + ")";
    ArgsTextIff(a, b);
    assert DerivedKey(c, m, a) == c + (['.'] + (m + (['('] + ta)));
    assert DerivedKey(d, n, b) == d + (['.'] + (n + (['('] + tb)));
    if DerivedKey(c, m, a) == DerivedKey(d, n, b) {
      FirstMark(c, d, '.', m + (['('] + ta), n + (['('] + tb));
      FirstMark(m, n, '(', ta, tb);
    }
  }
}
