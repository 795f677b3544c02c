/**
 `json.loads` over a text, and `json.dumps` with sorted keys, tight separators and
 `ensure_ascii` over the flat objects the ledger writes. String escapes follow
 section 7 of RFC 8259; a character outside the basic plane travels as a surrogate pair.
 */
module Json {
  import opened Prelude
  import opened Numerals

  datatype Json =
    | JNull
    | JBool(b: bool)
    | JInt(n: int)
    | JFloat
    | JString(s: string)
    | JArray(items: seq<Json>)
    | JObject(fields: map<string, Json>)

  /** What a parsing step leaves: a value and the unread suffix. */
  datatype Parse<T> = Fail | Read(value: T, rest: string)

  predicate Blank(c: char) { c == ' ' || c == '\t' || c == '\n' || c == '\r' }

  function SkipBlanks(s: string): (r: string)
    ensures |r| <= |s|
  {
    if s != [] && Blank(s[0]) then SkipBlanks(s[1..]) else s
  }

  predicate StartsWith(s: string, p: string) {
    |p| <= |s| && s[..|p|] == p
  }

  // ---- strings ---------------------------------------------------------------

  function SimpleEscape(c: char): Option<char> {
    match c
    case '"' => Some('"')
    case '\\' => Some('\\')
    case '/' => Some('/')
    case 'b' => Some('\U{8}')
    case 'f' => Some('\U{C}')
    case 'n' => Some('\n')
    case 'r' => Some('\r')
    case 't' => Some('\t')
    case _ => None
  }

  predicate HighSurrogate(n: nat) { 0xD800 <= n < 0xDC00 }
  predicate LowSurrogate(n: nat) { 0xDC00 <= n < 0xE000 }

  /** The escape after a backslash. A surrogate code unit is read only in a pair. */
  function ParseEscape(s: string): (r: Parse<char>)
    ensures r.Read? ==> |r.rest| < |s|
  {
    if s == [] then Fail
    else if s[0] != 'u' then
      var e := SimpleEscape(s[0]);
      if e.None? then Fail else Read(e.value, s[1..])
    else
      var unit := ReadHex4(s[1..]);
      if unit.None? then Fail
      else if HighSurrogate(unit.value) then
        if |s| >= 11 && s[5] == '\\' && s[6] == 'u' then
          var low := ReadHex4(s[7..]);
          if low.None? || !LowSurrogate(low.value) then Fail
          else Read((0x10000 + (unit.value - 0xD800) * 0x400 + (low.value - 0xDC00)) as char, s[11..])
        else Fail
      else if LowSurrogate(unit.value) then Fail
      else Read(unit.value as char, s[5..])
  }

  /** The rest of a string literal after its opening quote; control characters are refused. */
  function ParseChars(s: string): (r: Parse<string>)
    ensures r.Read? ==> |r.rest| < |s|
    decreases |s|
  {
    if s == [] then Fail
    else if s[0] == '"' then Read([], s[1..])
    else if s[0] == '\\' then
      var e := ParseEscape(s[1..]);
      if e.Fail? then Fail
      else
        var tail := ParseChars(e.rest);
        if tail.Fail? then Fail else Read([e.value] + tail.value, tail.rest)
    else if s[0] < ' ' then Fail
    else
      var tail := ParseChars(s[1..]);
      if tail.Fail? then Fail else Read([s[0]] + tail.value, tail.rest)
  }

  function EscapeChar(c: char): (r: string)
    ensures r != []
  {
    var n := c as int;
    if c == '"' then "\\\""
    else if c == '\\' then "\\\\"
    else if c == '\n' then "\\n"
    else if c == '\r' then "\\r"
    else if c == '\t' then "\\t"
    else if n == 12 then "\\f"
    else if n == 8 then "\\b"
    else if ' ' <= c <= '~' then [c]
    else if n < 0x10000 then "\\u" + Hex4(n)
    else
      var v := n - 0x10000;
      "\\u" + Hex4(0xD800 + v / 0x400) + "\\u" + Hex4(0xDC00 + v % 0x400)
  }

  function EscapeChars(s: string): string {
    if s == [] then [] else EscapeChar(s[0]) + EscapeChars(s[1..])
  }

  function Quote(s: string): string { "\"" + EscapeChars(s) + "\"" }

  // ---- numbers ---------------------------------------------------------------

  /** `0|[1-9][0-9]*` with an optional fraction or exponent, which make it a float. */
  function ParseMagnitude(t: string): (r: Parse<Json>)
    ensures r.Read? ==> |r.rest| < |t| && (r.value.JInt? || r.value.JFloat?)
  {
    if t == [] || !IsDigit(t[0], 10) then Fail
    else
      var k := if t[0] == '0' then 1 else DigitSpan(t, 10);
      assert t[..1] == [t[0]];
      var rest := SkipExponent(SkipFraction(t[k..]));
      if rest != t[k..] then Read(JFloat, rest) else Read(JInt(Value(t[..k], 10)), rest)
  }

  function ParseNumber(s: string): (r: Parse<Json>)
    ensures r.Read? ==> |r.rest| < |s|
  {
    if s != [] && s[0] == '-' then
      var m := ParseMagnitude(s[1..]);
      if m.Read? && m.value.JInt? then Read(JInt(-m.value.n), m.rest) else m
    else ParseMagnitude(s)
  }

  function SkipFraction(s: string): (r: string)
    ensures |r| <= |s|
  {
    if |s| >= 2 && s[0] == '.' && IsDigit(s[1], 10) then s[1 + DigitSpan(s[1..], 10)..] else s
  }

  function SkipExponent(s: string): (r: string)
    ensures |r| <= |s|
  {
    if s == [] || (s[0] != 'e' && s[0] != 'E') then s
    else
      var k := if |s| >= 2 && (s[1] == '+' || s[1] == '-') then 2 else 1;
      if |s| > k && IsDigit(s[k], 10) then s[k + DigitSpan(s[k..], 10)..] else s
  }

  function RenderInt(n: int): string {
    if n < 0 then "-" + Render(-n, 10) else Render(n, 10)
  }

  // ---- values ----------------------------------------------------------------

  function ParseValue(s: string): (r: Parse<Json>)
    ensures r.Read? ==> |r.rest| < |s|
    decreases |s|, 0
  {
    if s == [] then Fail
    else if s[0] == '-' || '0' <= s[0] <= '9' then ParseNumber(s)
    else if s[0] == '"' then
      var p := ParseChars(s[1..]);
      if p.Fail? then Fail else Read(JString(p.value), p.rest)
    else if s[0] == '{' then
      var t := SkipBlanks(s[1..]);
      if t != [] && t[0] == '}' then Read(JObject(map[]), t[1..])
      else
        var p := ParseMembers(t, map[]);
        if p.Fail? then Fail else Read(JObject(p.value), p.rest)
    else if s[0] == '[' then
      var t := SkipBlanks(s[1..]);
      if t != [] && t[0] == ']' then Read(JArray([]), t[1..])
      else
        var p := ParseElements(t);
        if p.Fail? then Fail else Read(JArray(p.value), p.rest)
    else if s[0] == 'n' && StartsWith(s, "null") then Read(JNull, s[4..])
    else if s[0] == 't' && StartsWith(s, "true") then Read(JBool(true), s[4..])
    else if s[0] == 'f' && StartsWith(s, "false") then Read(JBool(false), s[5..])
    else Fail
  }

  /** `"key" : value` pairs up to the closing brace; a repeated key keeps its last value. */
  function ParseMembers(s: string, seen: map<string, Json>): (r: Parse<map<string, Json>>)
    ensures r.Read? ==> |r.rest| < |s|
    decreases |s|, 1
  {
    if s == [] || s[0] != '"' then Fail
    else
      var key := ParseChars(s[1..]);
      if key.Fail? then Fail
      else
        var colon := SkipBlanks(key.rest);
        if colon == [] || colon[0] != ':' then Fail
        else
          var v := ParseValue(SkipBlanks(colon[1..]));
          if v.Fail? then Fail
          else
            var fields := seen[key.value := v.value];
            var next := SkipBlanks(v.rest);
            if next == [] then Fail
            else if next[0] == '}' then Read(fields, next[1..])
            else if next[0] == ',' then ParseMembers(SkipBlanks(next[1..]), fields)
            else Fail
  }

  function ParseElements(s: string): (r: Parse<seq<Json>>)
    ensures r.Read? ==> |r.rest| < |s|
    decreases |s|, 1
  {
    var v := ParseValue(s);
    if v.Fail? then Fail
    else
      var next := SkipBlanks(v.rest);
      if next == [] then Fail
      else if next[0] == ']' then Read([v.value], next[1..])
      else if next[0] == ',' then
        var more := ParseElements(SkipBlanks(next[1..]));
        if more.Fail? then Fail else Read([v.value] + more.value, more.rest)
      else Fail
  }

  /** The three non-finite literals have no case above, so they fail like any other bad token. */
  function Loads(s: string): Option<Json> {
    var v := ParseValue(SkipBlanks(s));
    if v.Read? && SkipBlanks(v.rest) == [] then Some(v.value) else None
  }

  // ---- the flat objects the ledger writes --------------------------------------

  datatype Scalar = Text(s: string) | Number(n: int)

  datatype Field = Field(key: string, value: Scalar)

  function ToJson(v: Scalar): Json {
    match v
    case Text(s) => JString(s)
    case Number(n) => JInt(n)
  }

  function DumpScalar(v: Scalar): string {
    match v
    case Text(s) => Quote(s)
    case Number(n) => RenderInt(n)
  }

  function DumpMembers(fields: seq<Field>): (r: string)
    ensures r != [] && (fields != [] ==> r[0] == '"')
    decreases |fields|, 1
  {
    if fields == [] then "}"
    else Quote(fields[0].key) + ":" + (DumpScalar(fields[0].value) + After(fields))
  }

  function After(fields: seq<Field>): (r: string)
    requires fields != []
    ensures Delimited(r)
    decreases |fields|, 0
  {
    if |fields| == 1 then "}" else "," + DumpMembers(fields[1..])
  }

  /** What may follow a value inside an object without being read as part of it. */
  predicate Delimited(rest: string) {
    rest != [] && (rest[0] == ',' || rest[0] == '}')
  }

  function DumpObject(fields: seq<Field>): string { "{" + DumpMembers(fields) }

  function AsMap(fields: seq<Field>, seen: map<string, Json>): map<string, Json> {
    if fields == [] then seen
    else AsMap(fields[1..], seen[fields[0].key := ToJson(fields[0].value)])
  }

  // ---- round trip ----------------------------------------------------------------

  lemma EscapeUnit(n: nat, rest: string)
    requires n < 0xD800 || 0xE000 <= n < 0x10000
    ensures ParseEscape("u" + Hex4(n) + rest) == Read(n as char, rest)
  {
    var s := "u" + Hex4(n) + rest;
    Hex4RoundTrip(n, rest);
    assert s[1..] == Hex4(n) + rest;
    assert s[5..] == rest;
  }

  lemma PairLayout(a: string, b: string, rest: string)
    requires |a| == 4 && |b| == 4
    ensures var s := "u" + a + "\\u" + b + rest;
      && |s| >= 11 && s[0] == 'u' && s[5] == '\\' && s[6] == 'u'
      && s[1..] == a + ("\\u" + b + rest) && s[7..] == b + rest && s[11..] == rest
  {
  }

  lemma EscapePair(hi: nat, lo: nat, a: string, b: string, rest: string)
    requires |a| == 4 && |b| == 4 && 0xD800 <= hi < 0xDC00 && 0xDC00 <= lo < 0xE000
    requires ReadHex4(a + ("\\u" + b + rest)) == Some(hi) && ReadHex4(b + rest) == Some(lo)
    ensures ParseEscape("u" + a + "\\u" + b + rest)
      == Read((0x10000 + (hi - 0xD800) * 0x400 + (lo - 0xDC00)) as char, rest)
  {
    PairLayout(a, b, rest);
  }

  lemma AstralCharParses(c: char, rest: string)
    requires c as int >= 0x10000
    ensures ParseEscape(EscapeChar(c)[1..] + rest) == Read(c, rest)
  {
    var v := c as int - 0x10000;
    var hi, lo := 0xD800 + v / 0x400, 0xDC00 + v % 0x400;
    assert EscapeChar(c) == "\\u" + Hex4(hi) + "\\u" + Hex4(lo);
    assert (0x10000 + (hi - 0xD800) * 0x400 + (lo - 0xDC00)) as char == c;
    hide *;
    AstralLayout("\\u", Hex4(hi), Hex4(lo), rest);
    Hex4RoundTrip(hi, "\\u" + Hex4(lo) + rest);
    Hex4RoundTrip(lo, rest);
    EscapePair(hi, lo, Hex4(hi), Hex4(lo), rest);
  }

  lemma AstralLayout(u: string, a: string, b: string, rest: string)
    requires u == "\\u"
    ensures (u + a + u + b)[1..] + rest == "u" + a + u + b + rest
  {
  }

  lemma SimpleCharParses(c: char, e: char, rest: string)
    requires EscapeChar(c) == ['\\', e] && SimpleEscape(e) == Some(c)
    ensures ParseEscape(EscapeChar(c)[1..] + rest) == Read(c, rest)
  {
    var s := EscapeChar(c)[1..] + rest;
    assert s[0] == e && s[1..] == rest;
  }

  lemma EscapeParses(c: char, rest: string)
    requires EscapeChar(c)[0] == '\\'
    ensures ParseEscape(EscapeChar(c)[1..] + rest) == Read(c, rest)
  {
    var n := c as int;
    if c == '"' { SimpleCharParses(c, '"', rest); }
    else if c == '\\' { SimpleCharParses(c, '\\', rest); }
    else if c == '\n' { SimpleCharParses(c, 'n', rest); }
    else if c == '\r' { SimpleCharParses(c, 'r', rest); }
    else if c == '\t' { SimpleCharParses(c, 't', rest); }
    else if n == 12 { SimpleCharParses(c, 'f', rest); }
    else if n == 8 { SimpleCharParses(c, 'b', rest); }
    else if n < 0x10000 {
      EscapeUnit(n, rest);
      assert EscapeChar(c)[1..] + rest == "u" + Hex4(n) + rest;
    } else {
      AstralCharParses(c, rest);
    }
  }

  lemma EscapedCharParses(c: char, rest: string)
    ensures var p := ParseChars(rest);
      ParseChars(EscapeChar(c) + rest) == if p.Fail? then Fail else Read([c] + p.value, p.rest)
  {
    var s := EscapeChar(c) + rest;
    assert s[0] == EscapeChar(c)[0];
    if s[0] == '\\' {
      assert s[1..] == EscapeChar(c)[1..] + rest;
      EscapeParses(c, rest);
    } else {
      assert EscapeChar(c) == [c];
      assert s[1..] == rest;
    }
  }

  lemma {:induction false} EscapedParses(t: string, rest: string)
    ensures ParseChars(EscapeChars(t) + "\"" + rest) == Read(t, rest)
  {
    if t == [] {
      var s := EscapeChars(t) + "\"" + rest;
      assert s[0] == '"' && s[1..] == rest;
    } else {
      var tail := EscapeChars(t[1..]) + "\"" + rest;
      assert EscapeChars(t) + "\"" + rest == EscapeChar(t[0]) + tail;
      EscapedCharParses(t[0], tail);
      EscapedParses(t[1..], rest);
      assert [t[0]] + t[1..] == t;
    }
  }

  /** A digit string with no superfluous zero, and a delimiter: read whole. */
  lemma DigitsParse(d: string, rest: string)
    requires d != [] && AllDigits(d, 10) && Delimited(rest)
    requires d[0] == '0' ==> |d| == 1
    ensures ParseMagnitude(d + rest) == Read(JInt(Value(d, 10)), rest)
  {
    var t := d + rest;
    DigitSpanStops(d, rest, 10);
    assert t[0] == d[0] && IsDigit(d[0], 10);
    assert t[..|d|] == d && t[|d|..] == rest;
    assert SkipExponent(SkipFraction(rest)) == rest;
  }

  lemma NaturalParses(m: nat, rest: string)
    requires Delimited(rest)
    ensures ParseMagnitude(Render(m, 10) + rest) == Read(JInt(m), rest)
    ensures '0' <= (Render(m, 10) + rest)[0] <= '9'
  {
    RenderRoundTrip(m, 10);
    assert IsDigit(Render(m, 10)[0], 10);
    DigitsParse(Render(m, 10), rest);
  }

  lemma NumberTokens(s: string)
    requires s != [] && (s[0] == '-' || '0' <= s[0] <= '9')
    ensures ParseValue(s) == ParseNumber(s)
  {
  }

  lemma SignParses(t: string, m: nat, rest: string)
    requires ParseMagnitude(t) == Read(JInt(m), rest)
    ensures ParseNumber(['-'] + t) == Read(JInt(-(m as int)), rest)
  {
    assert (['-'] + t)[1..] == t;
  }

  lemma NegativeParses(m: nat, rest: string)
    requires Delimited(rest)
    ensures ParseValue("-" + Render(m, 10) + rest) == Read(JInt(-(m as int)), rest)
  {
    hide Render, ParseValue, ParseNumber, ParseMagnitude, Delimited;
    var t := Render(m, 10) + rest;
    NaturalParses(m, rest);
    SignParses(t, m, rest);
    NumberTokens(['-'] + t);
    assert "-" + Render(m, 10) + rest == ['-'] + t;
  }

  lemma PositiveParses(m: nat, rest: string)
    requires Delimited(rest)
    ensures ParseValue(Render(m, 10) + rest) == Read(JInt(m), rest)
  {
    hide Render, ParseValue, ParseNumber, ParseMagnitude, Delimited;
    var t := Render(m, 10) + rest;
    NaturalParses(m, rest);
    PlainParses(t);
    NumberTokens(t);
  }

  lemma PlainParses(t: string)
    requires t != [] && t[0] != '-'
    ensures ParseNumber(t) == ParseMagnitude(t)
  {
  }

  lemma IntParses(n: int, rest: string)
    requires Delimited(rest)
    ensures ParseValue(RenderInt(n) + rest) == Read(JInt(n), rest)
  {
    hide ParseValue, Render, Delimited;
    if n < 0 {
      NegativeParses(-n, rest);
    } else {
      PositiveParses(n, rest);
    }
  }

  lemma ScalarParses(v: Scalar, rest: string)
    requires Delimited(rest)
    ensures ParseValue(DumpScalar(v) + rest) == Read(ToJson(v), rest)
  {
    match v
    case Number(n) => IntParses(n, rest);
    case Text(t) => TextParses(t, rest);
  }

  lemma TextParses(t: string, rest: string)
    ensures ParseValue(Quote(t) + rest) == Read(JString(t), rest)
  {
    EscapedParses(t, rest);
    hide EscapeChars, ParseChars;
    var s := Quote(t) + rest;
    assert s[0] == '"' && s[1..] == EscapeChars(t) + "\"" + rest;
  }

  lemma ScalarNotBlank(v: Scalar, rest: string)
    ensures SkipBlanks(DumpScalar(v) + rest) == DumpScalar(v) + rest
  {
    if v.Number? {
      RenderRoundTrip(if v.n < 0 then -v.n else v.n, 10);
      assert RenderInt(v.n)[0] == '-' || IsDigit(RenderInt(v.n)[0], 10);
    }
  }

  /** One pass of the member loop, given what the key and the value read as. */
  lemma MembersStep(s: string, key: string, body: string, v: Json, next: string, seen: map<string, Json>)
    requires s != [] && s[0] == '"'
    requires ParseChars(s[1..]) == Read(key, [':'] + body)
    requires SkipBlanks(body) == body && ParseValue(body) == Read(v, next) && Delimited(next)
    ensures ParseMembers(s, seen) ==
      if next[0] == '}' then Read(seen[key := v], next[1..])
      else ParseMembers(SkipBlanks(next[1..]), seen[key := v])
  {
    assert ([':'] + body)[1..] == body;
  }

  lemma KeyLayout(k: string, body: string)
    ensures var s := "\"" + k + "\"" + ":" + body;
      s[0] == '"' && s[1..] == k + "\"" + ([':'] + body)
  {
  }

  lemma MemberHead(s: string, f: Field, next: string, seen: map<string, Json>)
    requires Delimited(next)
    requires s == Quote(f.key) + ":" + (DumpScalar(f.value) + next)
    ensures ParseMembers(s, seen) ==
      if next[0] == '}' then Read(seen[f.key := ToJson(f.value)], next[1..])
      else ParseMembers(SkipBlanks(next[1..]), seen[f.key := ToJson(f.value)])
  {
    var body := DumpScalar(f.value) + next;
    KeyLayout(EscapeChars(f.key), body);
    EscapedParses(f.key, [':'] + body);
    ScalarNotBlank(f.value, next);
    ScalarParses(f.value, next);
    MembersStep(s, f.key, body, ToJson(f.value), next, seen);
  }

  lemma MembersLayout(q: string, v: string, more: string, rest: string)
    ensures q + ":" + (v + more) + rest == q + ":" + (v + (more + rest))
  {
  }

  lemma {:induction false} MembersParse(fields: seq<Field>, seen: map<string, Json>, rest: string)
    requires fields != []
    ensures ParseMembers(DumpMembers(fields) + rest, seen) == Read(AsMap(fields, seen), rest)
  {
    var f, next := fields[0], After(fields) + rest;
    MembersLayout(Quote(f.key), DumpScalar(f.value), After(fields), rest);
    MemberHead(DumpMembers(fields) + rest, f, next, seen);
    var grown := seen[f.key := ToJson(f.value)];
    assert AsMap(fields, seen) == AsMap(fields[1..], grown);
    if |fields| == 1 {
      assert next[1..] == rest;
    } else {
      NextMember(fields, rest);
      MembersParse(fields[1..], grown, rest);
    }
  }

  lemma NextMember(fields: seq<Field>, rest: string)
    requires |fields| > 1
    ensures var next := After(fields) + rest;
      next[0] == ',' && SkipBlanks(next[1..]) == DumpMembers(fields[1..]) + rest
  {
    var more := DumpMembers(fields[1..]);
    assert After(fields) == [','] + more;
    hide DumpMembers, After;
    CommaLayout(more, rest);
  }

  lemma CommaLayout(more: string, rest: string)
    requires more != [] && more[0] == '"'
    ensures var next := [','] + more + rest;
      next[0] == ',' && SkipBlanks(next[1..]) == more + rest
  {
    assert ([','] + more + rest)[1..] == more + rest;
  }

  lemma ObjectParses(s: string, m: map<string, Json>)
    requires s != [] && s[0] == '"' && ParseMembers(s, map[]) == Read(m, [])
    ensures ParseValue(['{'] + s) == Read(JObject(m), [])
  {
    assert (['{'] + s)[1..] == s;
  }

  /** Any non-empty flat object is read back as the map of its fields. */
  lemma LoadsOfDump(fields: seq<Field>)
    requires fields != []
    ensures Loads(DumpObject(fields)) == Some(JObject(AsMap(fields, map[])))
  {
    MembersParse(fields, map[], []);
    assert DumpMembers(fields) + [] == DumpMembers(fields);
    ObjectParses(DumpMembers(fields), AsMap(fields, map[]));
  }

  // ---- what is written ---------------------------------------------------------------------------

  /** Text that is written as it is. */
  predicate Unescaped(s: string) { forall c :: c in s ==> ' ' <= c <= '~' && c != '"' && c != '\\' }

  lemma {:induction false} QuotedPlain(s: string)
    requires Unescaped(s)
    ensures EscapeChars(s) == s && Quote(s) == "\"" + s + "\""
  {
    if s != "" {
      assert s[0] in s && forall c :: c in s[1..] ==> c in s;
      EscapeCharExact(s[0]);
      hide EscapeChar;
      QuotedPlain(s[1..]);
      assert [s[0]] + s[1..] == s;
    }
  }

  /** The members as they are written, each a quoted key, a colon and its value. */
  function Written(fields: seq<Field>): (r: seq<string>)
    ensures |r| == |fields| && forall k :: 0 <= k < |fields| ==> r[k] == Quote(fields[k].key) + ":" + DumpScalar(fields[k].value)
  {
    seq(|fields|, k requires 0 <= k < |fields| => Quote(fields[k].key) + ":" + DumpScalar(fields[k].value))
  }

  /** An object is written as its members between braces, with a comma between them and no blank anywhere. */
  lemma {:induction false} DumpLayout(fields: seq<Field>)
    ensures DumpMembers(fields) == Join(Written(fields), ',') + "}"
    ensures DumpObject(fields) == "{" + (Join(Written(fields), ',') + "}")
    decreases |fields|
  {
    hide Quote, DumpScalar;
    if |fields| > 1 {
      DumpLayout(fields[1..]);
      assert Written(fields)[1..] == Written(fields[1..]);
      MemberLayout(Quote(fields[0].key), DumpScalar(fields[0].value), Join(Written(fields[1..]), ','));
    } else if |fields| == 1 {
      assert Written(fields)[0] == Quote(fields[0].key) + ":" + DumpScalar(fields[0].value);
      assert Quote(fields[0].key) + ":" + (DumpScalar(fields[0].value) + "}") == Written(fields)[0] + "}";
    }
  }

  lemma MemberLayout(q: string, v: string, more: string)
    ensures q + ":" + (v + ("," + (more + "}"))) == (q + ":" + v) + [','] + more + "}"
  {
  }

  /** Every other character is written as one of seven short escapes, a code unit, or a surrogate pair. */
  lemma EscapeCharExact(c: char)
    ensures ' ' <= c <= '~' && c != '"' && c != '\\' ==> EscapeChar(c) == [c]
    ensures c in {'"', '\\'} ==> EscapeChar(c) == ['\\', c]
    ensures c == '\n' ==> EscapeChar(c) == "\\n"
    ensures c == '\r' ==> EscapeChar(c) == "\\r"
    ensures c == '\t' ==> EscapeChar(c) == "\\t"
    ensures c == '\U{8}' ==> EscapeChar(c) == "\\b"
    ensures c == '\U{C}' ==> EscapeChar(c) == "\\f"
    ensures (c < ' ' && c !in {'\n', '\r', '\t', '\U{8}', '\U{C}'}) || '~' < c < '\U{10000}' ==>
      EscapeChar(c) == "\\u" + Hex4(c as int)
    ensures c as int >= 0x10000 ==>
      exists h: nat, l: nat ::
        && 0xD800 <= h < 0xDC00 && 0xDC00 <= l < 0xE000 && c as int == 0x10000 + (h - 0xD800) * 0x400 + (l - 0xDC00)
        && EscapeChar(c) == "\\u" + Hex4(h) + "\\u" + Hex4(l)
  {
    hide Hex4;
    if c as int >= 0x10000 {
      var v := c as int - 0x10000;
      var h, l := 0xD800 + v / 0x400, 0xDC00 + v % 0x400;
      assert EscapeChar(c) == "\\u" + Hex4(h) + "\\u" + Hex4(l);
    }
  }

  // ---- the dump is printable ASCII ---------------------------------------------------

  predicate Printable(s: string) {
    forall k :: 0 <= k < |s| ==> ' ' <= s[k] <= '~'
  }

  lemma PrintableEscape(c: char)
    ensures Printable(EscapeChar(c))
  {
    hide Hex4, ReadHex4;
    var n := c as int;
    if n >= 0x10000 {
      var v := n - 0x10000;
      Hex4RoundTrip(0xD800 + v / 0x400, []);
      Hex4RoundTrip(0xDC00 + v % 0x400, []);
    } else {
      Hex4RoundTrip(n, []);
    }
  }

  lemma {:induction false} PrintableQuote(s: string)
    ensures Printable(EscapeChars(s)) && Printable(Quote(s))
  {
    if s != [] {
      PrintableEscape(s[0]);
      PrintableQuote(s[1..]);
    }
  }

  lemma {:induction false} PrintableDump(fields: seq<Field>)
    ensures Printable(DumpMembers(fields)) && Printable(DumpObject(fields))
  {
    if fields != [] {
      PrintableQuote(fields[0].key);
      PrintableScalar(fields[0].value);
      PrintableDump(fields[1..]);
    }
  }

  lemma PrintableScalar(v: Scalar)
    ensures Printable(DumpScalar(v))
  {
    match v
    case Text(s) => PrintableQuote(s);
    case Number(n) =>
      var d := Render(if n < 0 then -n else n, 10);
      RenderRoundTrip(if n < 0 then -n else n, 10);
      assert forall k :: 0 <= k < |d| ==> d[k] in d;
  }
}
