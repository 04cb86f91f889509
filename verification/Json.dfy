/** The JSON printer of the command line (`render_json` in crates/cli/src/main.rs, `json_escape` in
    crates/cli/src/output.rs), measured against a parser written from RFC 8259. */
module JsonGrammar {
  import opened Numerals

  datatype Json =
    | Null
    | Bool(b: bool)
    | String(s: string)
    | Number(mantissa: int, exponent: int)  // mantissa * 10^exponent
    | Array(items: seq<Json>)
    | Object(members: seq<(string, Json)>)

  datatype Parsed<+T> = Fail | Ok(value: T, rest: string) {
    predicate IsFailure() { Fail? }
    function PropagateFailure<U>(): Parsed<U> requires Fail? { Fail }
    function Extract(): (T, string) requires Ok? { (value, rest) }
  }

  /** Whitespace, section 2 of RFC 8259. */
  function SkipSpace(s: string): (r: string)
    ensures |r| <= |s|
  {
    if s != "" && (s[0] == ' ' || s[0] == '\t' || s[0] == '\n' || s[0] == '\r') then SkipSpace(s[1..]) else s
  }

  // ---- Numbers, section 6 ----

  /** The longest run of digits in front. */
  function TakeDigits(s: string): (n: nat)
    ensures n <= |s|
  {
    if s != "" && IsDigit(s[0]) then 1 + TakeDigits(s[1..]) else 0
  }

  /** frac: a point and at least one digit; the digits. */
  function ParseFraction(s: string): (p: Parsed<string>)
    ensures p.Ok? ==> |p.rest| <= |s|
  {
    if s == "" || s[0] != '.' then Ok("", s)
    else
      var k := TakeDigits(s[1..]);
      if k == 0 then Fail else Ok(s[1..][..k], s[1 + k..])
  }

  /** exp: e or E, an optional sign, at least one digit. */
  function ParseExponent(s: string): (p: Parsed<int>)
    ensures p.Ok? ==> |p.rest| <= |s|
  {
    if s == "" || (s[0] != 'e' && s[0] != 'E') then Ok(0, s)
    else
      var signed := |s| > 1 && (s[1] == '+' || s[1] == '-');
      var t := if signed then s[2..] else s[1..];
      var k := TakeDigits(t);
      if k == 0 then Fail
      else Ok(if signed && s[1] == '-' then -Decimal(t[..k]) else Decimal(t[..k]), t[k..])
  }

  /** int: no leading zeros. */
  function ParseUnsigned(s: string): (p: Parsed<(int, int)>)
    ensures p.Ok? ==> |p.rest| < |s|
  {
    var k := TakeDigits(s);
    if k == 0 || (k > 1 && s[0] == '0') then Fail
    else
      var (frac, s1) :- ParseFraction(s[k..]);
      var (exp, s2) :- ParseExponent(s1);
      Ok((Decimal(s[..k] + frac), exp - |frac|), s2)
  }

  function ParseNumber(s: string): (p: Parsed<Json>)
    ensures p.Ok? ==> |p.rest| < |s|
  {
    if s != "" && s[0] == '-' then
      var (v, r) :- ParseUnsigned(s[1..]);
      Ok(Number(-v.0, v.1), r)
    else
      var (v, r) :- ParseUnsigned(s);
      Ok(Number(v.0, v.1), r)
  }

  // ---- Strings, section 7 ----

  predicate IsHex(c: char) { '0' <= c <= '9' || 'a' <= c <= 'f' || 'A' <= c <= 'F' }

  function HexValue(c: char): (n: nat)
    requires IsHex(c)
    ensures n < 16
  {
    if c <= '9' then c as int - '0' as int
    else if c <= 'F' then c as int - 'A' as int + 10
    else c as int - 'a' as int + 10
  }

  /** Four hexadecimal digits. */
  function ParseHex4(s: string): Parsed<nat> {
    if |s| >= 4 && IsHex(s[0]) && IsHex(s[1]) && IsHex(s[2]) && IsHex(s[3]) then
      Ok(((HexValue(s[0]) * 16 + HexValue(s[1])) * 16 + HexValue(s[2])) * 16 + HexValue(s[3]), s[4..])
    else Fail
  }

  /** What follows `\u`: one code unit, or a surrogate pair spelled as two escapes. */
  function ParseUnicode(s: string): (p: Parsed<char>)
    ensures p.Ok? ==> |p.rest| < |s|
  {
    var (u, s1) :- ParseHex4(s);
    if u < 0xD800 || 0xE000 <= u < 0x10000 then Ok(u as char, s1)
    else if u < 0xDC00 && |s1| >= 2 && s1[0] == '\\' && s1[1] == 'u' then
      var (v, s2) :- ParseHex4(s1[2..]);
      if 0xDC00 <= v < 0xE000 then Ok((0x10000 + (u - 0xD800) * 0x400 + (v - 0xDC00)) as char, s2) else Fail
    else Fail
  }

  /** What follows a backslash. */
  function ParseEscape(s: string): (p: Parsed<char>)
    ensures p.Ok? ==> |p.rest| < |s|
  {
    if s == "" then Fail
    else match s[0]
      case '"' => Ok('"', s[1..])
      case '\\' => Ok('\\', s[1..])
      case '/' => Ok('/', s[1..])
      case 'b' => Ok(0x08 as char, s[1..])
      case 'f' => Ok(0x0C as char, s[1..])
      case 'n' => Ok('\n', s[1..])
      case 'r' => Ok('\r', s[1..])
      case 't' => Ok('\t', s[1..])
      case 'u' => ParseUnicode(s[1..])
      case _ => Fail
  }

  /** The characters up to the closing quotation mark. */
  function ParseChars(s: string): (p: Parsed<string>)
    ensures p.Ok? ==> |p.rest| < |s|
    decreases |s|
  {
    if s == "" then Fail
    else if s[0] == '"' then Ok("", s[1..])
    else if s[0] == '\\' then
      var (c, s1) :- ParseEscape(s[1..]);
      var (cs, s2) :- ParseChars(s1);
      Ok([c] + cs, s2)
    else if s[0] as int < 0x20 then Fail
    else
      var (cs, s1) :- ParseChars(s[1..]);
      Ok([s[0]] + cs, s1)
  }

  // ---- Values, sections 2 to 5 ----

  function ParseLiteral(s: string, word: string, v: Json): (p: Parsed<Json>)
    requires word != ""
    ensures p.Ok? ==> |p.rest| < |s|
  {
    if word <= s then Ok(v, s[|word|..]) else Fail
  }

  function ParseValue(s: string): (p: Parsed<Json>)
    ensures p.Ok? ==> |p.rest| < |s|
    decreases |s|, 2
  {
    if s == "" then Fail
    else if s[0] == '-' || IsDigit(s[0]) then ParseNumber(s)
    else match s[0]
      case 'n' => ParseLiteral(s, "null", Null)
      case 't' => ParseLiteral(s, "true", Bool(true))
      case 'f' => ParseLiteral(s, "false", Bool(false))
      case '"' =>
        var (cs, r) :- ParseChars(s[1..]);
        Ok(String(cs), r)
      case '[' =>
        var s1 := SkipSpace(s[1..]);
        if s1 != "" && s1[0] == ']' then Ok(Array([]), s1[1..])
        else
          var (vs, r) :- ParseElements(s1);
          Ok(Array(vs), r)
      case '{' =>
        var s1 := SkipSpace(s[1..]);
        if s1 != "" && s1[0] == '}' then Ok(Object([]), s1[1..])
        else
          var (ms, r) :- ParseMembers(s1);
          Ok(Object(ms), r)
      case _ => Fail
  }

  /** One or more values, separated by commas, closed by `]`. */
  function ParseElements(s: string): (p: Parsed<seq<Json>>)
    ensures p.Ok? ==> |p.rest| < |s|
    decreases |s|, 3
  {
    var (v, s1) :- ParseValue(s);
    var s2 := SkipSpace(s1);
    if s2 == "" then Fail
    else if s2[0] == ']' then Ok([v], s2[1..])
    else if s2[0] == ',' then
      var (vs, r) :- ParseElements(SkipSpace(s2[1..]));
      Ok([v] + vs, r)
    else Fail
  }

  /** One or more `"name": value` members, separated by commas, closed by `}`. */
  function ParseMembers(s: string): (p: Parsed<seq<(string, Json)>>)
    ensures p.Ok? ==> |p.rest| < |s|
    decreases |s|, 3
  {
    if s == "" || s[0] != '"' then Fail
    else
      var (name, s1) :- ParseChars(s[1..]);
      var s2 := SkipSpace(s1);
      if s2 == "" || s2[0] != ':' then Fail
      else
        var (v, s3) :- ParseValue(SkipSpace(s2[1..]));
        var s4 := SkipSpace(s3);
        if s4 == "" then Fail
        else if s4[0] == '}' then Ok([(name, v)], s4[1..])
        else if s4[0] == ',' then
          var (ms, r) :- ParseMembers(SkipSpace(s4[1..]));
          Ok([(name, v)] + ms, r)
        else Fail
  }

  /** A JSON text: one value, with nothing but whitespace around it. */
  function ParseJson(text: string): Parsed<Json> {
    var (v, r) :- ParseValue(SkipSpace(text));
    if SkipSpace(r) == "" then Ok(v, "") else Fail
  }
}

module JsonPrinter {
  import opened JsonGrammar
  import opened Numerals

  /** `OutcomeValue` without `Float`. */
  datatype OutcomeValue =
    | Empty
    | Text(text: string)
    | Integer(n: int)
    | Boolean(flag: bool)
    | List(elements: seq<OutcomeValue>)
    | Record(fields: seq<(string, OutcomeValue)>)

  // ---- json_escape ----

  function EscapeChar(c: char): string {
    match c
    case '"' => "\\\""
    case '\\' => "\\\\"
    case '\n' => "\\n"
    case '\r' => "\\r"
    case '\t' => "\\t"
    case _ =>
      var u := c as int;
      if u < 0x20 then "\\u00" + [HexDigit(u / 16), HexDigit(u % 16)] else [c]
  }

  function Escape(s: string): string {
    if s == "" then "" else EscapeChar(s[0]) + Escape(s[1..])
  }

  lemma {:induction false} EscapeAppend(s: string, c: char)
    ensures Escape(s + [c]) == Escape(s) + EscapeChar(c)
  {
    if s == "" {
      assert [c][1..] == "";
      assert Escape([c]) == EscapeChar(c);
    } else {
      EscapeAppend(s[1..], c);
      assert (s + [c])[1..] == s[1..] + [c];
    }
  }

  /** Lines 31-45 of output.rs: characters appended to a growing string. */
  method JsonEscape(s: string) returns (out: string)
    ensures out == Escape(s)
  {
    out := "";
    for i := 0 to |s|
      invariant out == Escape(s[..i])
    {
      EscapeAppend(s[..i], s[i]);
      assert s[..i + 1] == s[..i] + [s[i]];
      out := out + EscapeChar(s[i]);
    }
    assert s[..|s|] == s;
  }

  // ---- render_json ----

  function IntegerText(n: int): string {
    if n < 0 then "-" + Digits(-n) else Digits(n)
  }

  function Quoted(s: string): string { "\"" + Escape(s) + "\"" }

  function RenderJson(value: OutcomeValue): string
    decreases value, 1
  {
    match value
    case Empty => "null"
    case Text(s) => Quoted(s)
    case Integer(n) => IntegerText(n)
    case Boolean(b) => if b then "true" else "false"
    case List(items) => "[" + RenderItems(items) + "]"
    case Record(fields) => "{" + RenderFields(fields) + "}"
  }

  function RenderItems(items: seq<OutcomeValue>): string
    decreases items, 0
  {
    if items == [] then ""
    else if |items| == 1 then RenderJson(items[0])
    else RenderJson(items[0]) + "," + RenderItems(items[1..])
  }

  function RenderField(field: (string, OutcomeValue)): string
    decreases field, 2
  {
    Quoted(field.0) + ":" + RenderJson(field.1)
  }

  function RenderFields(fields: seq<(string, OutcomeValue)>): string
    decreases fields, 0
  {
    if fields == [] then ""
    else if |fields| == 1 then RenderField(fields[0])
    else RenderField(fields[0]) + "," + RenderFields(fields[1..])
  }

  // ---- The printed form, spelled out ----

  /** Each character is printed as itself, but for quotation mark, backslash, the three short escapes, and
      the other control characters, which are printed as four hexadecimal digits in lower case. */
  lemma EscapesAre(c: char)
    ensures c == '"' ==> Escape([c]) == "\\\""
    ensures c == '\\' ==> Escape([c]) == "\\\\"
    ensures c == '\n' ==> Escape([c]) == "\\n"
    ensures c == '\r' ==> Escape([c]) == "\\r"
    ensures c == '\t' ==> Escape([c]) == "\\t"
    ensures c >= ' ' && c != '"' && c != '\\' ==> Escape([c]) == [c]
    ensures c < ' ' && c != '\n' && c != '\r' && c != '\t' ==>
              var e := Escape([c]);
              |e| == 6 && e[..4] == "\\u00" && LowerHexValue(e[4]) < 16 && LowerHexValue(e[5]) < 16
              && 16 * LowerHexValue(e[4]) + LowerHexValue(e[5]) == c as int
  {
    assert [c][1..] == "";
    assert Escape([c]) == EscapeChar(c);
  }

  /** Words, brackets and separators, without white space. */
  lemma PrintedForm(k: string, a: OutcomeValue)
    ensures RenderJson(Empty) == "null" && RenderJson(Boolean(true)) == "true" && RenderJson(Boolean(false)) == "false"
    ensures RenderJson(Text(k)) == "\"" + Escape(k) + "\""
    ensures RenderJson(List([])) == "[]" && RenderJson(Record([])) == "{}"
    ensures RenderJson(List([a])) == "[" + RenderJson(a) + "]"
    ensures RenderJson(Record([(k, a)])) == "{" + ("\"" + Escape(k) + "\"" + ":" + RenderJson(a)) + "}"
  {
    assert RenderItems([a]) == RenderJson(a);
    assert RenderFields([(k, a)]) == RenderField((k, a));
  }

  lemma Regrouped(a: string, b: string, c: string)
    ensures a + "," + (b + "," + c) == (a + "," + b) + "," + c
  {
  }

  /** Longer lists repeat only the separator, */
  lemma {:induction false} PrintedList(items: seq<OutcomeValue>, last: OutcomeValue)
    requires items != []
    ensures RenderItems(items + [last]) == RenderItems(items) + "," + RenderItems([last])
  {
    var all := items + [last];
    assert RenderItems(all) == RenderJson(all[0]) + "," + RenderItems(all[1..]);
    assert all[1..] == items[1..] + [last];
    if |items| == 1 {
      assert all[1..] == [last];
    } else {
      PrintedList(items[1..], last);
      Regrouped(RenderJson(items[0]), RenderItems(items[1..]), RenderItems([last]));
    }
  }

  /** and so do longer records. */
  lemma {:induction false} PrintedRecord(fields: seq<(string, OutcomeValue)>, last: (string, OutcomeValue))
    requires fields != []
    ensures RenderFields(fields + [last]) == RenderFields(fields) + "," + RenderFields([last])
  {
    var all := fields + [last];
    assert RenderFields(all) == RenderField(all[0]) + "," + RenderFields(all[1..]);
    assert all[1..] == fields[1..] + [last];
    if |fields| == 1 {
      assert all[1..] == [last];
    } else {
      PrintedRecord(fields[1..], last);
      Regrouped(RenderField(fields[0]), RenderFields(fields[1..]), RenderFields([last]));
    }
  }

  // ---- What a value means in JSON ----

  function Meaning(value: OutcomeValue): Json
    decreases value, 1
  {
    match value
    case Empty => Null
    case Text(s) => String(s)
    case Integer(n) => Number(n, 0)
    case Boolean(b) => Bool(b)
    case List(items) => Array(MeaningItems(items))
    case Record(fields) => Object(MeaningFields(fields))
  }

  function MeaningItems(items: seq<OutcomeValue>): seq<Json>
    decreases items, 0
  {
    if items == [] then [] else [Meaning(items[0])] + MeaningItems(items[1..])
  }

  function MeaningField(field: (string, OutcomeValue)): (string, Json)
    decreases field, 2
  {
    (field.0, Meaning(field.1))
  }

  function MeaningFields(fields: seq<(string, OutcomeValue)>): seq<(string, Json)>
    decreases fields, 0
  {
    if fields == [] then [] else [MeaningField(fields[0])] + MeaningFields(fields[1..])
  }

  // ---- Strings survive ----

  lemma {:induction false} EscapedCharParses(c: char, rest: string, cs: string, r: string)
    requires ParseChars(rest) == Ok(cs, r)
    ensures ParseChars(EscapeChar(c) + rest) == Ok([c] + cs, r)
  {
    var e := EscapeChar(c);
    assert (e + rest)[0] == e[0];
    if |e| == 1 {
      assert (e + rest)[1..] == rest;
    } else if |e| == 2 {
      assert (e + rest)[1..] == [e[1]] + rest;
      assert ([e[1]] + rest)[1..] == rest;
    } else {
      var u := c as int;
      var h := ['0', '0', HexDigit(u / 16), HexDigit(u % 16)];
      assert e == "\\u" + h;
      assert (e + rest)[1..] == ['u'] + (h + rest);
      assert (['u'] + (h + rest))[1..] == h + rest;
      assert (h + rest)[4..] == rest;
      assert ParseHex4(h + rest) == Ok(u, rest);
    }
  }

  lemma MoveRight(a: string, b: string, c: string, d: string)
    ensures (a + b) + c + d == a + (b + c + d)
  {
  }

  /** The string rules undo `json_escape`, for every string. */
  lemma {:induction false} EscapedStringParses(s: string, rest: string)
    ensures ParseChars(Escape(s) + "\"" + rest) == Ok(s, rest)
  {
    if s == "" {
      assert Escape(s) + "\"" + rest == "\"" + rest;
      assert ("\"" + rest)[1..] == rest;
    } else {
      var e, t := EscapeChar(s[0]), Escape(s[1..]);
      EscapedStringParses(s[1..], rest);
      EscapedCharParses(s[0], t + "\"" + rest, s[1..], rest);
      MoveRight(e, t, "\"", rest);
      assert s == [s[0]] + s[1..];
    }
  }

  lemma QuotedParses(s: string, rest: string)
    ensures var t := Quoted(s) + rest; t[0] == '"' && ParseChars(t[1..]) == Ok(s, rest)
  {
    EscapedStringParses(s, rest);
    assert (Quoted(s) + rest)[1..] == Escape(s) + "\"" + rest;
  }

  // ---- Integers survive ----

  /** Text after which a number has ended. */
  ghost predicate Stops(rest: string) {
    rest == "" || rest[0] == ',' || rest[0] == ']' || rest[0] == '}'
  }

  lemma {:induction false} TakesAllDigits(d: string, rest: string)
    requires forall i :: 0 <= i < |d| ==> IsDigit(d[i])
    requires Stops(rest)
    ensures TakeDigits(d + rest) == |d|
  {
    if d == "" {
      assert d + rest == rest;
    } else {
      assert (d + rest)[1..] == d[1..] + rest;
      TakesAllDigits(d[1..], rest);
    }
  }

  lemma {:induction false} PlainIntegerParses(t: string, k: nat)
    requires k == TakeDigits(t) && k > 0 && (k > 1 ==> t[0] != '0') && Stops(t[k..])
    ensures ParseUnsigned(t) == Ok((Decimal(t[..k]), 0), t[k..])
  {
    assert t[..k] + "" == t[..k];
  }

  lemma {:induction false} UnsignedParses(n: nat, rest: string)
    requires Stops(rest)
    ensures ParseUnsigned(Digits(n) + rest) == Ok((n, 0), rest)
    ensures Digits(n) != "" && IsDigit((Digits(n) + rest)[0])
  {
    var d := Digits(n);
    DigitsAreDecimal(n);
    TakesAllDigits(d, rest);
    assert (d + rest)[..|d|] == d && (d + rest)[|d|..] == rest;
    PlainIntegerParses(d + rest, |d|);
  }

  lemma {:induction false} NumberDispatch(t: string, v: int, rest: string)
    requires t != "" && IsDigit(t[0]) && ParseUnsigned(t) == Ok((v, 0), rest)
    ensures ParseValue(t) == Ok(Number(v, 0), rest)
    ensures ParseValue("-" + t) == Ok(Number(-v, 0), rest)
  {
    assert ("-" + t)[1..] == t;
  }

  lemma {:induction false} IntegerParses(n: int, rest: string)
    requires Stops(rest)
    ensures ParseValue(IntegerText(n) + rest) == Ok(Number(n, 0), rest)
  {
    var m := if n < 0 then -n else n;
    var t := Digits(m) + rest;
    assert IntegerText(n) + rest == if n < 0 then "-" + t else t;
    UnsignedParses(m, rest);
    NumberDispatch(t, m, rest);
  }

  // ---- Values survive ----

  lemma RenderedStart(value: OutcomeValue, rest: string)
    ensures var t := RenderJson(value) + rest;
            t != "" && SkipSpace(t) == t && t[0] != ']' && t[0] != '}'
  {
    if value.Integer? {
      DigitsAreDecimal(if value.n < 0 then -value.n else value.n);
    }
  }

  lemma SkipNothing(c: char, rest: string)
    requires c == ',' || c == ':' || c == ']' || c == '}' || c == '"'
    ensures SkipSpace([c] + rest) == [c] + rest
    ensures ([c] + rest)[0] == c && ([c] + rest)[1..] == rest
  {
  }

  /** Parsing undoes printing, whatever follows the printed value. */
  lemma {:induction false} RenderedParses(value: OutcomeValue, rest: string)
    requires Stops(rest)
    ensures ParseValue(RenderJson(value) + rest) == Ok(Meaning(value), rest)
    decreases value, 1
  {
    var t := RenderJson(value) + rest;
    match value
    case Empty =>
      assert t[..4] == "null" && t[4..] == rest;
    case Boolean(b) =>
      if b {
        assert t[..4] == "true" && t[4..] == rest;
      } else {
        assert t[..5] == "false" && t[5..] == rest;
      }
    case Text(s) => QuotedParses(s, rest);
    case Integer(n) => IntegerParses(n, rest);
    case List(items) => ListParses(items, rest);
    case Record(fields) => RecordParses(fields, rest);
  }

  lemma {:induction false} ArrayDispatch(t: string, vs: seq<Json>, rest: string)
    requires SkipSpace(t) == t && t != ""
    requires if vs == [] then t == "]" + rest else t[0] != ']' && ParseElements(t) == Ok(vs, rest)
    ensures ParseValue("[" + t) == Ok(Array(vs), rest)
  {
    assert ("[" + t)[1..] == t;
  }

  lemma {:induction false} ObjectDispatch(t: string, ms: seq<(string, Json)>, rest: string)
    requires SkipSpace(t) == t && t != ""
    requires if ms == [] then t == "}" + rest else t[0] != '}' && ParseMembers(t) == Ok(ms, rest)
    ensures ParseValue("{" + t) == Ok(Object(ms), rest)
  {
    assert ("{" + t)[1..] == t;
  }

  lemma {:induction false} ListParses(items: seq<OutcomeValue>, rest: string)
    requires Stops(rest)
    ensures ParseValue("[" + RenderItems(items) + "]" + rest) == Ok(Array(MeaningItems(items)), rest)
    decreases items, 3
  {
    var t := RenderItems(items) + ("]" + rest);
    assert "[" + RenderItems(items) + "]" + rest == "[" + t;
    if items == [] {
      assert t == "]" + rest;
      SkipNothing(']', rest);
    } else {
      ItemsParse(items, rest);
    }
    ArrayDispatch(t, MeaningItems(items), rest);
  }

  lemma {:induction false} RecordParses(fields: seq<(string, OutcomeValue)>, rest: string)
    requires Stops(rest)
    ensures ParseValue("{" + RenderFields(fields) + "}" + rest) == Ok(Object(MeaningFields(fields)), rest)
    decreases fields, 3
  {
    var t := RenderFields(fields) + ("}" + rest);
    assert "{" + RenderFields(fields) + "}" + rest == "{" + t;
    if fields == [] {
      assert t == "}" + rest;
      SkipNothing('}', rest);
    } else {
      FieldsParse(fields, rest);
    }
    ObjectDispatch(t, MeaningFields(fields), rest);
  }

  lemma {:induction false} LastElement(s: string, v: Json, rest: string)
    requires ParseValue(s) == Ok(v, "]" + rest)
    ensures ParseElements(s) == Ok([v], rest)
  {
    SkipNothing(']', rest);
  }

  lemma {:induction false} MoreElements(s: string, v: Json, more: string, vs: seq<Json>, rest: string)
    requires ParseValue(s) == Ok(v, "," + more) && SkipSpace(more) == more
    requires ParseElements(more) == Ok(vs, rest)
    ensures ParseElements(s) == Ok([v] + vs, rest)
  {
    SkipNothing(',', more);
  }

  lemma {:induction false} ItemsParse(items: seq<OutcomeValue>, rest: string)
    requires items != []
    ensures var t := RenderItems(items) + ("]" + rest);
            && t != "" && t[0] != ']' && SkipSpace(t) == t
            && ParseElements(t) == Ok(MeaningItems(items), rest)
    decreases items, 2
  {
    var t := RenderItems(items) + ("]" + rest);
    if |items| == 1 {
      RenderedStart(items[0], "]" + rest);
      RenderedParses(items[0], "]" + rest);
      LastElement(t, Meaning(items[0]), rest);
      assert MeaningItems(items[1..]) == [];
      assert MeaningItems(items) == [Meaning(items[0])];
    } else {
      var more := RenderItems(items[1..]) + ("]" + rest);
      Regroup(RenderJson(items[0]), RenderItems(items[1..]), "]" + rest);
      RenderedStart(items[0], "," + more);
      RenderedParses(items[0], "," + more);
      ItemsParse(items[1..], rest);
      MoreElements(t, Meaning(items[0]), more, MeaningItems(items[1..]), rest);
    }
  }

  lemma Regroup(a: string, b: string, c: string)
    ensures a + "," + b + c == a + ("," + (b + c))
  {
  }

  lemma QuoteStart(t: string)
    requires t != "" && t[0] == '"'
    ensures t[0] != '}' && SkipSpace(t) == t
  {
  }

  /** `s` starts with a member, and `rest` follows it. */
  ghost predicate StartsWithMember(s: string, m: (string, Json), rest: string) {
    && s != "" && s[0] == '"'
    && match ParseChars(s[1..])
       case Fail => false
       case Ok(name, r) =>
         && name == m.0
         && SkipSpace(r) == r && r != "" && r[0] == ':'
         && ParseValue(SkipSpace(r[1..])) == Ok(m.1, rest)
  }

  lemma {:induction false} LastMember(s: string, m: (string, Json), rest: string)
    requires StartsWithMember(s, m, "}" + rest)
    ensures ParseMembers(s) == Ok([m], rest)
  {
    SkipNothing('}', rest);
  }

  lemma {:induction false} MoreMembers(s: string, m: (string, Json), more: string, ms: seq<(string, Json)>, rest: string)
    requires StartsWithMember(s, m, "," + more) && SkipSpace(more) == more
    requires ParseMembers(more) == Ok(ms, rest)
    ensures ParseMembers(s) == Ok([m] + ms, rest)
  {
    SkipNothing(',', more);
  }

  lemma {:induction false} LastFieldParses(field: (string, OutcomeValue), rest: string)
    ensures var t := RenderField(field) + ("}" + rest);
            && t != "" && t[0] != '}' && SkipSpace(t) == t
            && ParseMembers(t) == Ok([MeaningField(field)], rest)
    decreases field, 3
  {
    var t := RenderField(field) + ("}" + rest);
    FieldParses(field, "}" + rest);
    LastMember(t, MeaningField(field), rest);
    QuoteStart(t);
  }

  lemma {:induction false} NextFieldParses(field: (string, OutcomeValue), more: string, ms: seq<(string, Json)>, rest: string)
    requires SkipSpace(more) == more && ParseMembers(more) == Ok(ms, rest)
    ensures var t := RenderField(field) + ("," + more);
            && t != "" && t[0] != '}' && SkipSpace(t) == t
            && ParseMembers(t) == Ok([MeaningField(field)] + ms, rest)
    decreases field, 3
  {
    var t := RenderField(field) + ("," + more);
    FieldParses(field, "," + more);
    MoreMembers(t, MeaningField(field), more, ms, rest);
    QuoteStart(t);
  }

  lemma {:induction false} FieldsParse(fields: seq<(string, OutcomeValue)>, rest: string)
    requires fields != []
    ensures var t := RenderFields(fields) + ("}" + rest);
            && t != "" && t[0] != '}' && SkipSpace(t) == t
            && ParseMembers(t) == Ok(MeaningFields(fields), rest)
    decreases fields, 2
  {
    if |fields| == 1 {
      LastFieldParses(fields[0], rest);
      assert MeaningFields(fields[1..]) == [];
      assert MeaningFields(fields) == [MeaningField(fields[0])];
    } else {
      var more := RenderFields(fields[1..]) + ("}" + rest);
      FieldsParse(fields[1..], rest);
      NextFieldParses(fields[0], more, MeaningFields(fields[1..]), rest);
      Regroup(RenderField(fields[0]), RenderFields(fields[1..]), "}" + rest);
    }
  }

  /** One field: the name, a colon, the value. */
  lemma {:induction false} FieldParses(field: (string, OutcomeValue), rest: string)
    requires Stops(rest)
    ensures StartsWithMember(RenderField(field) + rest, MeaningField(field), rest)
    decreases field, 2
  {
    var value := RenderJson(field.1);
    var afterName := ":" + value + rest;
    MoveRight(Quoted(field.0), ":", value, rest);
    QuotedParses(field.0, afterName);
    assert afterName == [':'] + (value + rest);
    SkipNothing(':', RenderJson(field.1) + rest);
    RenderedStart(field.1, rest);
    RenderedParses(field.1, rest);
  }

  // ---- The printer as a whole ----

  /** The printed text is a JSON text, and it parses to the value that was printed. */
  lemma {:induction false} RoundTrip(value: OutcomeValue)
    ensures ParseJson(RenderJson(value)) == Ok(Meaning(value), "")
  {
    RenderedStart(value, "");
    RenderedParses(value, "");
    assert RenderJson(value) + "" == RenderJson(value);
  }

  lemma {:induction false} MeaningInjective(v: OutcomeValue, w: OutcomeValue)
    requires Meaning(v) == Meaning(w)
    ensures v == w
    decreases v, 1
  {
    match v
    case List(items) => ItemsInjective(items, w.elements);
    case Record(fields) => FieldsInjective(fields, w.fields);
    case _ =>
  }

  lemma {:induction false} ItemsInjective(a: seq<OutcomeValue>, b: seq<OutcomeValue>)
    requires MeaningItems(a) == MeaningItems(b)
    ensures a == b
    decreases a, 0
  {
    if a != [] && b != [] {
      assert MeaningItems(a)[0] == Meaning(a[0]) && MeaningItems(b)[0] == Meaning(b[0]);
      assert MeaningItems(a)[1..] == MeaningItems(a[1..]) && MeaningItems(b)[1..] == MeaningItems(b[1..]);
      MeaningInjective(a[0], b[0]);
      ItemsInjective(a[1..], b[1..]);
      assert a == [a[0]] + a[1..] && b == [b[0]] + b[1..];
    }
  }

  lemma {:induction false} FieldsInjective(a: seq<(string, OutcomeValue)>, b: seq<(string, OutcomeValue)>)
    requires MeaningFields(a) == MeaningFields(b)
    ensures a == b
    decreases a, 0
  {
    if a != [] && b != [] {
      assert MeaningFields(a)[0] == MeaningField(a[0]) && MeaningFields(b)[0] == MeaningField(b[0]);
      assert MeaningFields(a)[1..] == MeaningFields(a[1..]) && MeaningFields(b)[1..] == MeaningFields(b[1..]);
      FieldInjective(a[0], b[0]);
      FieldsInjective(a[1..], b[1..]);
      assert a == [a[0]] + a[1..] && b == [b[0]] + b[1..];
    }
  }

  lemma {:induction false} FieldInjective(a: (string, OutcomeValue), b: (string, OutcomeValue))
    requires MeaningField(a) == MeaningField(b)
    ensures a == b
    decreases a, 2
  {
    MeaningInjective(a.1, b.1);
  }

  /** Different values never print the same text. */
  lemma PrinterInjective(v: OutcomeValue, w: OutcomeValue)
    requires RenderJson(v) == RenderJson(w)
    ensures v == w
  {
    RoundTrip(v);
    RoundTrip(w);
    MeaningInjective(v, w);
  }
}
