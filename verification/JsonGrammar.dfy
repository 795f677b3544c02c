/**
 The grammar of JSON texts, in the form of section 2 of RFC 8259, and the proof that the reader accepts
 exactly its texts and gives each the value that the grammar gives it.
 */
module JsonGrammar {
  import opened Prelude
  import opened Numerals
  import opened Json

  // ---- derivations -----------------------------------------------------------------------------

  /** One character of a string literal: itself, a short escape, a code unit, or a surrogate pair. */
  datatype Piece = Plain(c: char) | Short(e: char) | Unit(hex: string) | Pair(high: string, low: string)

  datatype Form =
    | Null
    | True
    | False
    | Num(minus: bool, digits: string, fraction: string, exponent: string)
    | Str(pieces: seq<Piece>)
    | Arr(inner: string, items: Items)
    | Obj(inner: string, members: Members)

  datatype Items = NoItems | Item(before: string, form: Form, after: string, rest: Items)

  datatype Members =
    | NoMembers
    | Member(before: string, key: seq<Piece>, colon: string, pre: string, form: Form, after: string, rest: Members)

  predicate AllBlank(s: string) { forall k :: 0 <= k < |s| ==> Blank(s[k]) }

  predicate FourHex(h: string) { |h| == 4 && AllDigits(h, 16) }

  predicate PieceOk(p: Piece) {
    match p
    case Plain(c) => c >= ' ' && c != '"' && c != '\\'
    case Short(e) => SimpleEscape(e).Some?
    case Unit(h) => FourHex(h) && !(0xD800 <= Value(h, 16) < 0xE000)
    case Pair(h, l) => FourHex(h) && FourHex(l) && 0xD800 <= Value(h, 16) < 0xDC00 && 0xDC00 <= Value(l, 16) < 0xE000
  }

  predicate PiecesOk(ps: seq<Piece>) { forall k :: 0 <= k < |ps| ==> PieceOk(ps[k]) }

  predicate SomeDigits(s: string) { s != "" && AllDigits(s, 10) }

  predicate FractionOk(s: string) { s == "" || (s[0] == '.' && SomeDigits(s[1..])) }

  predicate ExponentOk(s: string) {
    s == "" || (s[0] in {'e', 'E'} && (SomeDigits(s[1..]) || (|s| > 1 && s[1] in {'+', '-'} && SomeDigits(s[2..]))))
  }

  predicate Ok(f: Form) {
    match f
    case Null => true
    case True => true
    case False => true
    case Num(_, d, fr, ex) => SomeDigits(d) && (d[0] == '0' ==> |d| == 1) && FractionOk(fr) && ExponentOk(ex)
    case Str(ps) => PiecesOk(ps)
    case Arr(inner, items) => AllBlank(inner) && (items.Item? ==> inner == "") && ItemsOk(items)
    case Obj(inner, members) => AllBlank(inner) && (members.Member? ==> inner == "") && MembersOk(members)
  }

  predicate ItemsOk(items: Items) {
    items.Item? ==> AllBlank(items.before) && Ok(items.form) && AllBlank(items.after) && ItemsOk(items.rest)
  }

  predicate MembersOk(ms: Members) {
    ms.Member? ==>
      && AllBlank(ms.before) && PiecesOk(ms.key) && AllBlank(ms.colon) && AllBlank(ms.pre)
      && Ok(ms.form) && AllBlank(ms.after) && MembersOk(ms.rest)
  }

  function PieceText(p: Piece): string {
    match p
    case Plain(c) => [c]
    case Short(e) => ['\\', e]
    case Unit(h) => "\\u" + h
    case Pair(h, l) => "\\u" + h + "\\u" + l
  }

  function PiecesText(ps: seq<Piece>): string {
    if ps == [] then "" else PieceText(ps[0]) + PiecesText(ps[1..])
  }

  function StringText(ps: seq<Piece>): string { "\"" + (PiecesText(ps) + "\"") }

  function FormText(f: Form): string {
    match f
    case Null => "null"
    case True => "true"
    case False => "false"
    case Num(minus, d, fr, ex) => (if minus then "-" else "") + (d + (fr + ex))
    case Str(ps) => StringText(ps)
    case Arr(inner, items) => "[" + (inner + (ItemsText(items) + "]"))
    case Obj(inner, members) => "{" + (inner + (MembersText(members) + "}"))
  }

  function ItemsText(items: Items): string {
    match items
    case NoItems => ""
    case Item(b, f, a, rest) => b + (FormText(f) + (a + (if rest.Item? then "," + ItemsText(rest) else "")))
  }

  function MembersText(ms: Members): string {
    match ms
    case NoMembers => ""
    case Member(b, key, c, p, f, a, rest) =>
      b + (StringText(key) + (c + (":" + (p + (FormText(f) + (a + (if rest.Member? then "," + MembersText(rest) else "")))))))
  }

  function PieceChar(p: Piece): char
    requires PieceOk(p)
  {
    match p
    case Plain(c) => c
    case Short(e) => SimpleEscape(e).value
    case Unit(h) =>
      HexValue(h);
      Value(h, 16) as char
    case Pair(h, l) => (0x10000 + (Value(h, 16) - 0xD800) * 0x400 + (Value(l, 16) - 0xDC00)) as char
  }

  function Chars(ps: seq<Piece>): string
    requires PiecesOk(ps)
  {
    if ps == [] then "" else [PieceChar(ps[0])] + Chars(ps[1..])
  }

  function Meaning(f: Form): Json
    requires Ok(f)
  {
    match f
    case Null => JNull
    case True => JBool(true)
    case False => JBool(false)
    case Num(minus, d, fr, ex) =>
      if fr != "" || ex != "" then JFloat else JInt(if minus then -(Value(d, 10) as int) else Value(d, 10))
    case Str(ps) => JString(Chars(ps))
    case Arr(_, items) => JArray(Values(items))
    case Obj(_, members) => JObject(Entered(members, map[]))
  }

  function Values(items: Items): seq<Json>
    requires ItemsOk(items)
  {
    match items
    case NoItems => []
    case Item(_, f, _, rest) => [Meaning(f)] + Values(rest)
  }

  /** A repeated key keeps its last value. */
  function Entered(ms: Members, seen: map<string, Json>): map<string, Json>
    requires MembersOk(ms)
  {
    match ms
    case NoMembers => seen
    case Member(_, key, _, _, f, _, rest) => Entered(rest, seen[Chars(key) := Meaning(f)])
  }

  /** A text with a derivation: blanks, a form, blanks. */
  ghost predicate Denotes(s: string, v: Json) {
    exists pre: string, f: Form, post: string ::
      AllBlank(pre) && AllBlank(post) && Ok(f) && s == pre + (FormText(f) + post) && Meaning(f) == v
  }

  // ---- hexadecimal and blanks --------------------------------------------------------------------

  lemma FourDigitsBound(h: string)
    requires FourHex(h)
    ensures Value(h, 16) < 0x10000
    ensures forall rest :: ReadHex4(h + rest) == Some(Value(h, 16))
  {
    HexValue(h);
    forall rest ensures ReadHex4(h + rest) == Some(Value(h, 16)) {
      HexReads(h, rest);
    }
  }

  lemma HexValue(h: string)
    requires FourHex(h)
    ensures forall k :: 0 <= k < 4 ==> DigitValue(h[k]).Some? && DigitValue(h[k]).value < 16
    ensures Value(h, 16) ==
      DigitValue(h[0]).value * 0x1000 + DigitValue(h[1]).value * 0x100 + DigitValue(h[2]).value * 0x10 + DigitValue(h[3]).value
  {
    forall k | 0 <= k < 4 ensures IsDigit(h[k], 16) {}
    hide DigitValue;
    assert h[..3][..2] == h[..2] && h[..2][..1] == h[..1] && h[..1][..0] == [];
    assert Value(h[..1], 16) == DigitValue(h[0]).value;
    assert Value(h[..2], 16) == Value(h[..1], 16) * 16 + DigitValue(h[1]).value;
    assert Value(h[..3], 16) == Value(h[..2], 16) * 16 + DigitValue(h[2]).value;
  }

  lemma HexReads(h: string, rest: string)
    requires FourHex(h)
    ensures ReadHex4(h + rest) == Some(Value(h, 16))
  {
    HexValue(h);
    hide DigitValue, Value;
    assert (h + rest)[..4] == h;
  }

  lemma {:induction false} SkipBlanksOver(b: string, x: string)
    requires AllBlank(b) && (x == "" || !Blank(x[0]))
    ensures SkipBlanks(b + x) == x
  {
    if b == "" {
      assert b + x == x;
    } else {
      assert (b + x)[1..] == b[1..] + x;
      SkipBlanksOver(b[1..], x);
    }
  }

  lemma {:induction false} Blanks(s: string) returns (b: string)
    ensures AllBlank(b) && s == b + SkipBlanks(s) && (SkipBlanks(s) == "" || !Blank(SkipBlanks(s)[0]))
  {
    if s != "" && Blank(s[0]) {
      var c := Blanks(s[1..]);
      b := [s[0]] + c;
      assert s == [s[0]] + s[1..];
    } else {
      b := "";
    }
  }

  // ---- every text of the grammar is read -----------------------------------------------------------

  lemma EscapeReads(p: Piece, rest: string)
    requires PieceOk(p) && !p.Plain?
    ensures PieceText(p)[0] == '\\' && ParseEscape(PieceText(p)[1..] + rest) == Read(PieceChar(p), rest)
  {
    match p
    case Short(e) =>
      var s := PieceText(p)[1..] + rest;
      assert s[0] == e && s[1..] == rest;
    case Unit(h) => UnitReads(h, rest);
    case Pair(h, l) => PairReads(h, l, rest);
  }

  lemma UnitReads(h: string, rest: string)
    requires PieceOk(Unit(h))
    ensures ParseEscape(PieceText(Unit(h))[1..] + rest) == Read(PieceChar(Unit(h)), rest)
  {
    HexReads(h, rest);
    FourDigitsBound(h);
    hide Value, ReadHex4;
    var s := PieceText(Unit(h))[1..] + rest;
    assert s == "u" + h + rest && s[1..] == h + rest && s[5..] == rest;
  }

  lemma PairReads(h: string, l: string, rest: string)
    requires PieceOk(Pair(h, l))
    ensures ParseEscape(PieceText(Pair(h, l))[1..] + rest) == Read(PieceChar(Pair(h, l)), rest)
  {
    HexReads(h, "\\u" + l + rest);
    HexReads(l, rest);
    hide Value, ReadHex4;
    EscapePair(Value(h, 16), Value(l, 16), h, l, rest);
    hide ParseEscape;
    assert PieceText(Pair(h, l))[1..] + rest == "u" + h + "\\u" + l + rest;
  }

  lemma PlainReads(c: char, rest: string)
    requires PieceOk(Plain(c))
    ensures var tail := ParseChars(rest);
      ParseChars([c] + rest) == if tail.Fail? then Fail else Read([c] + tail.value, tail.rest)
  {
    hide ParseEscape;
    assert ([c] + rest)[1..] == rest;
  }

  lemma BackslashReads(text: string, c: char, rest: string)
    requires text != "" && text[0] == '\\' && ParseEscape(text[1..] + rest) == Read(c, rest)
    ensures var tail := ParseChars(rest);
      ParseChars(text + rest) == if tail.Fail? then Fail else Read([c] + tail.value, tail.rest)
  {
    hide ParseEscape;
    assert (text + rest)[0] == '\\' && (text + rest)[1..] == text[1..] + rest;
  }

  lemma PieceReads(p: Piece, rest: string)
    requires PieceOk(p)
    ensures var tail := ParseChars(rest);
      ParseChars(PieceText(p) + rest) == if tail.Fail? then Fail else Read([PieceChar(p)] + tail.value, tail.rest)
  {
    if p.Plain? {
      PlainReads(p.c, rest);
    } else {
      EscapeReads(p, rest);
      hide PieceText, PieceChar, ParseEscape, PieceOk;
      BackslashReads(PieceText(p), PieceChar(p), rest);
    }
  }

  lemma {:induction false} StringReads(ps: seq<Piece>, rest: string)
    requires PiecesOk(ps)
    ensures ParseChars(PiecesText(ps) + "\"" + rest) == Read(Chars(ps), rest)
  {
    if ps == [] {
      var s := PiecesText(ps) + "\"" + rest;
      assert s[0] == '"' && s[1..] == rest;
    } else {
      hide PieceText, PieceChar, ParseChars;
      StringReads(ps[1..], rest);
      PieceReads(ps[0], PiecesText(ps[1..]) + "\"" + rest);
      assert PiecesText(ps) + "\"" + rest == PieceText(ps[0]) + (PiecesText(ps[1..]) + "\"" + rest);
    }
  }

  /** After a number no character may follow that could be a part of it. */
  predicate Ends(rest: string) { rest == "" || rest[0] in {',', ']', '}', ' ', '\t', '\n', '\r'} }

  lemma FractionReads(fr: string, rest: string)
    requires FractionOk(fr) && (rest == "" || !IsDigit(rest[0], 10)) && (fr == "" ==> rest == "" || rest[0] != '.')
    ensures SkipFraction(fr + rest) == rest
  {
    if fr == "" {
      assert fr + rest == rest;
    } else {
      var d := fr[1..];
      assert fr == "." + d;
      DigitSpanStops(d, rest, 10);
      var s := fr + rest;
      hide DigitSpan;
      assert s[1..] == d + rest && s[1] == d[0] && IsDigit(d[0], 10);
      assert s[1 + |d|..] == rest;
    }
  }

  lemma ExponentReads(ex: string, rest: string)
    requires ExponentOk(ex) && Ends(rest)
    ensures SkipExponent(ex + rest) == rest
  {
    SignNoDigit();
    if ex == "" {
      assert ex + rest == rest;
    } else {
      ExponentDigits(ex);
      var k := if ex[1] in {'+', '-'} then 2 else 1;
      hide ExponentOk, Ends;
      ExponentSkips(ex, k, ex[k..], rest);
    }
  }

  lemma ExponentSkips(ex: string, k: nat, d: string, rest: string)
    requires k <= |ex| && d == ex[k..] && SomeDigits(d) && ex[0] in {'e', 'E'}
    requires |ex| > 1 && k == (if ex[1] in {'+', '-'} then 2 else 1) && (rest == "" || !IsDigit(rest[0], 10))
    ensures SkipExponent(ex + rest) == rest
  {
    var s := ex + rest;
    DigitSpanStops(d, rest, 10);
    assert IsDigit(d[0], 10);
    hide DigitSpan;
    assert s[k..] == d + rest && s[k] == d[0] && s[1] == ex[1] && s[0] == ex[0];
    assert s[k + |d|..] == rest;
  }

  lemma ExponentDigits(ex: string)
    requires ex != "" && ExponentOk(ex)
    ensures |ex| > 1 && SomeDigits(ex[if ex[1] in {'+', '-'} then 2 else 1..])
  {
    SignNoDigit();
    if |ex| > 1 { assert ex[1..][0] == ex[1]; }
  }

  lemma SignNoDigit()
    ensures !IsDigit('+', 10) && !IsDigit('-', 10) && !IsDigit('.', 10) && !IsDigit('e', 10) && !IsDigit('E', 10)
    ensures forall rest :: Ends(rest) ==> rest == "" || !IsDigit(rest[0], 10)
  {
  }

  lemma MagnitudeReads(d: string, fr: string, ex: string, rest: string)
    requires SomeDigits(d) && (d[0] == '0' ==> |d| == 1) && FractionOk(fr) && ExponentOk(ex) && Ends(rest)
    ensures ParseMagnitude(d + (fr + ex) + rest) ==
      Read(if fr != "" || ex != "" then JFloat else JInt(Value(d, 10)), rest)
  {
    hide *;
    DigitsOnly(d);
    MoreStops(fr, ex, rest);
    DigitSpanStops(d, fr + (ex + rest), 10);
    FractionReads(fr, ex + rest);
    ExponentReads(ex, rest);
    Pieced(d, fr, ex, fr + (ex + rest), ex + rest, rest);
    MagnitudeStep(d, fr + (ex + rest), rest);
  }

  lemma DigitsOnly(d: string)
    ensures SomeDigits(d) <==> d != "" && AllDigits(d, 10)
  {
  }

  lemma MagnitudeStep(d: string, more: string, rest: string)
    requires d != "" && AllDigits(d, 10) && (d[0] == '0' ==> |d| == 1)
    requires DigitSpan(d + more, 10) == |d| && SkipExponent(SkipFraction(more)) == rest
    ensures ParseMagnitude(d + more) == Read(if rest != more then JFloat else JInt(Value(d, 10)), rest)
  {
    var t := d + more;
    assert IsDigit(d[0], 10) && t[0] == d[0];
    hide DigitSpan, SkipExponent, SkipFraction, Value, AllDigits;
    assert t[..|d|] == d && t[|d|..] == more;
  }

  lemma MoreStops(fr: string, ex: string, rest: string)
    requires FractionOk(fr) && ExponentOk(ex) && Ends(rest)
    ensures fr + (ex + rest) == "" || !IsDigit((fr + (ex + rest))[0], 10)
    ensures ex + rest == "" || (!IsDigit((ex + rest)[0], 10) && (ex + rest)[0] != '.')
  {
    SignNoDigit();
  }

  lemma NumText(f: Form, rest: string)
    requires f.Num?
    ensures var t := f.digits + (f.fraction + f.exponent) + rest;
      FormText(f) + rest == if f.minus then ['-'] + t else t
  {
    var x := f.digits + (f.fraction + f.exponent);
    assert FormText(f) == (if f.minus then "-" else "") + x;
    assert ("-" + x) + rest == "-" + (x + rest) && "" + x == x;
  }

  lemma NumReads(f: Form, rest: string)
    requires f.Num? && Ok(f) && Ends(rest)
    ensures ParseValue(FormText(f) + rest) == Read(Meaning(f), rest)
  {
    hide *;
    NumMeaning(f);
    NumText(f, rest);
    NumStart(f, rest);
    MagnitudeReads(f.digits, f.fraction, f.exponent, rest);
    SignedReads(f.minus, f.digits + (f.fraction + f.exponent) + rest, rest);
  }

  lemma NumStart(f: Form, rest: string)
    requires f.Num? && SomeDigits(f.digits)
    ensures var t := f.digits + (f.fraction + f.exponent) + rest; t != "" && IsDigit(t[0], 10)
  {
    assert IsDigit(f.digits[0], 10);
  }

  lemma NumMeaning(f: Form)
    requires f.Num?
    ensures Ok(f) <==>
      SomeDigits(f.digits) && (f.digits[0] == '0' ==> |f.digits| == 1) && FractionOk(f.fraction) && ExponentOk(f.exponent)
    ensures Ok(f) ==>
      Meaning(f) ==
        if f.fraction != "" || f.exponent != "" then JFloat
        else JInt(if f.minus then -(Value(f.digits, 10) as int) else Value(f.digits, 10))
  {
    hide Value, FractionOk, ExponentOk;
  }

  lemma SignedReads(minus: bool, t: string, rest: string)
    requires ParseMagnitude(t).Read? && t != "" && IsDigit(t[0], 10)
    ensures var v := ParseMagnitude(t).value;
      ParseValue(if minus then ['-'] + t else t) ==
        Read(if v.JInt? && minus then JInt(-v.n) else v, ParseMagnitude(t).rest)
  {
    hide ParseMagnitude, ParseValue;
    assert (['-'] + t)[1..] == t;
    NumberTokens(if minus then ['-'] + t else t);
  }

  /** No form starts with a blank, and each kind shows in its first character. */
  lemma FirstChar(f: Form)
    requires Ok(f)
    ensures FormText(f) != "" && !Blank(FormText(f)[0]) && FormText(f)[0] !in {',', ':', ']', '}'}
  {
    if f.Num? {
      assert IsDigit(f.digits[0], 10);
      assert FormText(f)[0] == if f.minus then '-' else f.digits[0];
    }
  }

  lemma LiteralReads(f: Form, rest: string)
    requires f.Null? || f.True? || f.False?
    ensures ParseValue(FormText(f) + rest) == Read(Meaning(f), rest)
  {
    var t := FormText(f);
    var s := t + rest;
    assert s[..|t|] == t && s[|t|..] == rest && s[0] == t[0];
  }

  lemma Quoted(t: string, rest: string)
    ensures var s := ("\"" + (t + "\"")) + rest; s != "" && s[0] == '"' && s[1..] == t + "\"" + rest
  {
  }

  lemma KeyReads(key: seq<Piece>, rest: string)
    requires PiecesOk(key)
    ensures var s := StringText(key) + rest;
      s != "" && s[0] == '"' && ParseChars(s[1..]) == Read(Chars(key), rest)
  {
    StringReads(key, rest);
    hide ParseChars, PiecesText, Chars;
    Quoted(PiecesText(key), rest);
  }

  lemma StrReads(ps: seq<Piece>, rest: string)
    requires PiecesOk(ps)
    ensures ParseValue(StringText(ps) + rest) == Read(JString(Chars(ps)), rest)
  {
    KeyReads(ps, rest);
    hide ParseChars, StringText, Chars;
  }

  lemma {:induction false} FormReads(f: Form, rest: string)
    requires Ok(f) && Ends(rest)
    ensures ParseValue(FormText(f) + rest) == Read(Meaning(f), rest)
    decreases f, 1
  {
    match f
    case Num(_, _, _, _) => NumReads(f, rest);
    case Str(ps) => StrReads(ps, rest);
    case Arr(inner, items) =>
      if items.Item? { ItemsRead(items, rest); }
      ArrReads(inner, items, rest);
    case Obj(inner, members) =>
      if members.Member? { MembersRead(members, map[], rest); }
      ObjReads(inner, members, rest);
    case Null => LiteralReads(f, rest);
    case True => LiteralReads(f, rest);
    case False => LiteralReads(f, rest);
  }

  lemma Bracketed(open: char, inner: string, t: string, close: string, rest: string)
    ensures var s := [open] + (inner + (t + close)) + rest;
      && s[0] == open && s[1..] == inner + (t + close + rest) && (inner == "" ==> s[1..] == t + close + rest)
  {
    assert (inner + (t + close)) + rest == inner + ((t + close) + rest);
  }

  lemma ArrReads(inner: string, items: Items, rest: string)
    requires Ok(Arr(inner, items))
    requires items.Item? ==> ParseElements(SkipBlanks(ItemsText(items) + "]" + rest)) == Read(Values(items), rest)
    ensures ParseValue(FormText(Arr(inner, items)) + rest) == Read(JArray(Values(items)), rest)
  {
    ArrParts(inner, items);
    hide *;
    if items.Item? {
      ItemsStart(items, "]" + rest);
      ArrFull(ItemsText(items), Values(items), rest);
    } else {
      ArrEmpty(inner, rest);
    }
  }

  lemma ArrParts(inner: string, items: Items)
    requires Ok(Arr(inner, items))
    ensures AllBlank(inner) && ItemsOk(items)
    ensures items.Item? ==> FormText(Arr(inner, items)) == ['['] + ("" + (ItemsText(items) + "]"))
    ensures items.NoItems? ==> FormText(Arr(inner, items)) == ['['] + (inner + ("" + "]")) && Values(items) == []
  {
  }

  lemma ArrEmpty(inner: string, rest: string)
    requires AllBlank(inner)
    ensures ParseValue(['['] + (inner + ("" + "]")) + rest) == Read(JArray([]), rest)
  {
    var s := ['['] + (inner + ("" + "]")) + rest;
    Bracketed('[', inner, "", "]", rest);
    SkipBlanksOver(inner, "" + "]" + rest);
    hide ParseValue, ParseElements, SkipBlanks;
    ArrValue(s);
    assert ("" + "]" + rest)[1..] == rest;
  }

  lemma ArrFull(t: string, vs: seq<Json>, rest: string)
    requires ParseElements(SkipBlanks(t + "]" + rest)) == Read(vs, rest)
    requires SkipBlanks(t + ("]" + rest)) != "" && SkipBlanks(t + ("]" + rest))[0] != ']'
    ensures ParseValue(['['] + ("" + (t + "]")) + rest) == Read(JArray(vs), rest)
  {
    hide ParseValue, ParseElements, SkipBlanks;
    Bracketed('[', "", t, "]", rest);
    assert t + "]" + rest == t + ("]" + rest);
    ArrValue(['['] + ("" + (t + "]")) + rest);
  }

  /** What the reader makes of an array and of an object, by what stands behind the bracket. */
  lemma ArrValue(s: string)
    requires s != "" && s[0] == '['
    ensures var t := SkipBlanks(s[1..]);
      ParseValue(s) ==
        if t != "" && t[0] == ']' then Read(JArray([]), t[1..])
        else if ParseElements(t).Fail? then Fail
        else Read(JArray(ParseElements(t).value), ParseElements(t).rest)
  {
  }

  lemma ObjValue(s: string)
    requires s != "" && s[0] == '{'
    ensures var t := SkipBlanks(s[1..]);
      ParseValue(s) ==
        if t != "" && t[0] == '}' then Read(JObject(map[]), t[1..])
        else if ParseMembers(t, map[]).Fail? then Fail
        else Read(JObject(ParseMembers(t, map[]).value), ParseMembers(t, map[]).rest)
  {
  }

  lemma ObjReads(inner: string, members: Members, rest: string)
    requires Ok(Obj(inner, members))
    requires members.Member? ==>
      ParseMembers(SkipBlanks(MembersText(members) + "}" + rest), map[]) == Read(Entered(members, map[]), rest)
    ensures ParseValue(FormText(Obj(inner, members)) + rest) == Read(JObject(Entered(members, map[])), rest)
  {
    ObjParts(inner, members);
    hide *;
    if members.Member? {
      MembersStart(members, "}" + rest);
      ObjFull(MembersText(members), Entered(members, map[]), rest);
    } else {
      ObjEmpty(inner, rest);
    }
  }

  lemma ObjParts(inner: string, members: Members)
    requires Ok(Obj(inner, members))
    ensures AllBlank(inner) && MembersOk(members)
    ensures members.Member? ==> FormText(Obj(inner, members)) == ['{'] + ("" + (MembersText(members) + "}"))
    ensures members.NoMembers? ==>
      FormText(Obj(inner, members)) == ['{'] + (inner + ("" + "}")) && Entered(members, map[]) == map[]
  {
  }

  lemma ObjEmpty(inner: string, rest: string)
    requires AllBlank(inner)
    ensures ParseValue(['{'] + (inner + ("" + "}")) + rest) == Read(JObject(map[]), rest)
  {
    var s := ['{'] + (inner + ("" + "}")) + rest;
    Bracketed('{', inner, "", "}", rest);
    SkipBlanksOver(inner, "" + "}" + rest);
    hide ParseValue, ParseMembers, SkipBlanks;
    ObjValue(s);
    assert ("" + "}" + rest)[1..] == rest;
  }

  lemma ObjFull(t: string, m: map<string, Json>, rest: string)
    requires ParseMembers(SkipBlanks(t + "}" + rest), map[]) == Read(m, rest)
    requires SkipBlanks(t + ("}" + rest)) != "" && SkipBlanks(t + ("}" + rest))[0] == '"'
    ensures ParseValue(['{'] + ("" + (t + "}")) + rest) == Read(JObject(m), rest)
  {
    hide ParseValue, ParseMembers, SkipBlanks;
    Bracketed('{', "", t, "}", rest);
    assert t + "}" + rest == t + ("}" + rest);
    ObjValue(['{'] + ("" + (t + "}")) + rest);
  }

  /** What stands after the first form of these items. */
  function AfterItem(items: Items, rest: string): string
    requires items.Item?
  {
    items.after + (if items.rest.Item? then "," + (ItemsText(items.rest) + "]" + rest) else "]" + rest)
  }

  lemma ItemsStart(items: Items, rest: string)
    requires items.Item? && ItemsOk(items)
    ensures SkipBlanks(ItemsText(items) + rest) != "" && SkipBlanks(ItemsText(items) + rest)[0] !in {']', '}', ','}
  {
    FirstChar(items.form);
    hide FormText, Ok;
    var tail := items.after + (if items.rest.Item? then "," + ItemsText(items.rest) else "");
    assert ItemsText(items) + rest == items.before + (FormText(items.form) + (tail + rest));
    SkipBlanksOver(items.before, FormText(items.form) + (tail + rest));
  }

  lemma ItemsGrouped(items: Items, rest: string)
    requires items.Item?
    ensures ItemsText(items) + "]" + rest == items.before + (FormText(items.form) + AfterItem(items, rest))
  {
    hide FormText;
    var more := if items.rest.Item? then "," + ItemsText(items.rest) else "";
    assert AfterItem(items, rest) == items.after + (more + "]" + rest);
    assert ItemsText(items) == items.before + (FormText(items.form) + (items.after + more));
    hide ItemsText, AfterItem;
    RegroupItem(items.before, FormText(items.form), items.after, more, rest);
  }

  lemma RegroupItem(b: string, f: string, a: string, m: string, rest: string)
    ensures (b + (f + (a + m))) + "]" + rest == b + (f + (a + (m + "]" + rest)))
  {
    assert (a + m) + ("]" + rest) == a + (m + "]" + rest);
    assert (f + (a + m)) + ("]" + rest) == f + (a + (m + "]" + rest));
  }

  lemma ItemsLayout(items: Items, rest: string)
    requires items.Item? && ItemsOk(items)
    ensures SkipBlanks(ItemsText(items) + "]" + rest) == FormText(items.form) + AfterItem(items, rest)
  {
    ItemsGrouped(items, rest);
    FirstChar(items.form);
    hide FormText, Ok, ItemsText, SkipBlanks, AfterItem;
    SkipBlanksOver(items.before, FormText(items.form) + AfterItem(items, rest));
  }

  lemma AfterItemStarts(items: Items, rest: string)
    requires items.Item? && ItemsOk(items)
    ensures Ends(AfterItem(items, rest)) && SkipBlanks(AfterItem(items, rest)) == AfterItem(items.(after := ""), rest)
  {
    hide ItemsText, Ok;
    SkipBlanksOver(items.after, AfterItem(items.(after := ""), rest));
    assert AfterItem(items, rest) == items.after + AfterItem(items.(after := ""), rest);
    if items.after != "" { assert Blank(items.after[0]); }
  }

  /** One pass of the element loop over a derivation. */
  lemma ElementStep(s: string, v: Json, more: string, next: string)
    requires ParseValue(s) == Read(v, more) && SkipBlanks(more) == next && next != ""
    ensures next[0] == ']' ==> ParseElements(s) == Read([v], next[1..])
    ensures next[0] == ',' ==>
      var rest := ParseElements(SkipBlanks(next[1..]));
      ParseElements(s) == if rest.Fail? then Fail else Read([v] + rest.value, rest.rest)
  {
  }

  lemma NextAfterItem(items: Items, rest: string)
    requires items.Item?
    ensures var next := AfterItem(items.(after := ""), rest);
      if items.rest.Item? then next != "" && next[0] == ',' && next[1..] == ItemsText(items.rest) + "]" + rest
      else next != "" && next[0] == ']' && next[1..] == rest
  {
    hide ItemsText;
  }

  lemma {:induction false} ItemsRead(items: Items, rest: string)
    requires items.Item? && ItemsOk(items)
    ensures ParseElements(SkipBlanks(ItemsText(items) + "]" + rest)) == Read(Values(items), rest)
    decreases items, 0
  {
    ItemsLayout(items, rest);
    AfterItemStarts(items, rest);
    NextAfterItem(items, rest);
    FormReads(items.form, AfterItem(items, rest));
    if items.rest.Item? { ItemsRead(items.rest, rest); }
    FirstValue(items);
    hide *;
    ElementStep(FormText(items.form) + AfterItem(items, rest), Meaning(items.form), AfterItem(items, rest),
      AfterItem(items.(after := ""), rest));
  }

  lemma FirstValue(items: Items)
    requires items.Item? && ItemsOk(items)
    ensures Values(items) == [Meaning(items.form)] + Values(items.rest)
    ensures items.rest.NoItems? ==> Values(items) == [Meaning(items.form)]
  {
    hide Meaning, Ok;
  }

  /** What stands after the first member's form, and after its key. */
  function AfterMember(ms: Members, rest: string): string
    requires ms.Member?
  {
    ms.after + (if ms.rest.Member? then "," + (MembersText(ms.rest) + "}" + rest) else "}" + rest)
  }

  function AfterKey(ms: Members, rest: string): string
    requires ms.Member?
  {
    ms.colon + (":" + (ms.pre + (FormText(ms.form) + AfterMember(ms, rest))))
  }

  lemma MembersGrouped(ms: Members, rest: string)
    requires ms.Member?
    ensures MembersText(ms) + "}" + rest == ms.before + (StringText(ms.key) + AfterKey(ms, rest))
  {
    hide FormText, StringText;
    var tail := if ms.rest.Member? then "," + MembersText(ms.rest) else "";
    var end := tail + ("}" + rest);
    assert AfterMember(ms, rest) == ms.after + end;
    hide MembersText, AfterMember;
    Regroup(ms.before, StringText(ms.key), ms.colon, ms.pre, FormText(ms.form), ms.after, tail, "}" + rest);
  }

  lemma Regroup(b: string, k: string, c: string, p: string, f: string, a: string, t: string, r: string)
    ensures (b + (k + (c + (":" + (p + (f + (a + t))))))) + r == b + (k + (c + (":" + (p + (f + (a + (t + r)))))))
  {
    assert (a + t) + r == a + (t + r);
    assert (f + (a + t)) + r == f + (a + (t + r));
    assert (p + (f + (a + t))) + r == p + (f + (a + (t + r)));
    assert (":" + (p + (f + (a + t)))) + r == ":" + (p + (f + (a + (t + r))));
    assert (c + (":" + (p + (f + (a + t))))) + r == c + (":" + (p + (f + (a + (t + r)))));
    assert (k + (c + (":" + (p + (f + (a + t)))))) + r == k + (c + (":" + (p + (f + (a + (t + r))))));
  }

  lemma MembersStart(ms: Members, rest: string)
    requires ms.Member? && MembersOk(ms)
    ensures SkipBlanks(MembersText(ms) + rest) != "" && SkipBlanks(MembersText(ms) + rest)[0] == '"'
  {
    hide FormText, Ok, PiecesOk, PiecesText;
    var tail := MembersText(ms.(before := ""));
    assert MembersText(ms) == ms.before + tail && tail[0] == '"';
    hide MembersText;
    assert MembersText(ms) + rest == ms.before + (tail + rest);
    SkipBlanksOver(ms.before, tail + rest);
  }

  lemma MembersLaidOut(ms: Members, rest: string)
    requires ms.Member? && MembersOk(ms)
    ensures SkipBlanks(MembersText(ms) + "}" + rest) == StringText(ms.key) + AfterKey(ms, rest)
    ensures SkipBlanks(AfterKey(ms, rest)) == ":" + (ms.pre + (FormText(ms.form) + AfterMember(ms, rest)))
    ensures SkipBlanks(ms.pre + (FormText(ms.form) + AfterMember(ms, rest))) == FormText(ms.form) + AfterMember(ms, rest)
  {
    MembersGrouped(ms, rest);
    FirstChar(ms.form);
    hide MembersText, FormText, AfterMember, Ok, PiecesOk, PiecesText;
    SkipBlanksOver(ms.before, StringText(ms.key) + AfterKey(ms, rest));
    SkipBlanksOver(ms.colon, ":" + (ms.pre + (FormText(ms.form) + AfterMember(ms, rest))));
    SkipBlanksOver(ms.pre, FormText(ms.form) + AfterMember(ms, rest));
  }

  lemma AfterMemberStarts(ms: Members, rest: string)
    requires ms.Member? && MembersOk(ms)
    ensures Ends(AfterMember(ms, rest)) && SkipBlanks(AfterMember(ms, rest)) == AfterMember(ms.(after := ""), rest)
  {
    hide MembersText, Ok, PiecesOk;
    SkipBlanksOver(ms.after, AfterMember(ms.(after := ""), rest));
    assert AfterMember(ms, rest) == ms.after + AfterMember(ms.(after := ""), rest);
    if ms.after != "" { assert Blank(ms.after[0]); }
  }

  /** One pass of the member loop over a derivation. */
  lemma MemberStep(s: string, key: string, after: string, body: string, v: Json, more: string, next: string, seen: map<string, Json>)
    requires s != "" && s[0] == '"' && ParseChars(s[1..]) == Read(key, after) && SkipBlanks(after) == ":" + body
    requires ParseValue(SkipBlanks(body)) == Read(v, more) && SkipBlanks(more) == next && next != ""
    ensures next[0] == '}' ==> ParseMembers(s, seen) == Read(seen[key := v], next[1..])
    ensures next[0] == ',' ==> ParseMembers(s, seen) == ParseMembers(SkipBlanks(next[1..]), seen[key := v])
  {
    assert (":" + body)[1..] == body;
  }

  lemma {:induction false} MembersRead(ms: Members, seen: map<string, Json>, rest: string)
    requires ms.Member? && MembersOk(ms)
    ensures ParseMembers(SkipBlanks(MembersText(ms) + "}" + rest), seen) == Read(Entered(ms, seen), rest)
    decreases ms, 0
  {
    MembersLaidOut(ms, rest);
    AfterMemberStarts(ms, rest);
    FormReads(ms.form, AfterMember(ms, rest));
    KeyReads(ms.key, AfterKey(ms, rest));
    var s, next := StringText(ms.key) + AfterKey(ms, rest), AfterMember(ms.(after := ""), rest);
    var grown := seen[Chars(ms.key) := Meaning(ms.form)];
    NextAfterMember(ms, rest);
    if ms.rest.Member? { MembersRead(ms.rest, grown, rest); }
    assert Entered(ms, seen) == Entered(ms.rest, grown);
    hide *;
    MemberStep(s, Chars(ms.key), AfterKey(ms, rest), ms.pre + (FormText(ms.form) + AfterMember(ms, rest)), Meaning(ms.form),
      AfterMember(ms, rest), next, seen);
    if !ms.rest.Member? { NothingEntered(ms.rest, grown); }
  }

  lemma NothingEntered(ms: Members, seen: map<string, Json>)
    requires ms.NoMembers?
    ensures MembersOk(ms) && Entered(ms, seen) == seen
  {
  }

  lemma NextAfterMember(ms: Members, rest: string)
    requires ms.Member?
    ensures var next := AfterMember(ms.(after := ""), rest);
      if ms.rest.Member? then next != "" && next[0] == ',' && next[1..] == MembersText(ms.rest) + "}" + rest
      else next != "" && next[0] == '}' && next[1..] == rest
  {
    hide MembersText;
  }

  // ---- everything that is read is a text of the grammar --------------------------------------------

  lemma HexDigits(s: string)
    requires ReadHex4(s).Some?
    ensures |s| >= 4 && FourHex(s[..4]) && Value(s[..4], 16) == ReadHex4(s).value && s == s[..4] + s[4..]
  {
    HexReads(s[..4], s[4..]);
    assert s == s[..4] + s[4..];
  }

  lemma PieceOfEscape(s: string) returns (p: Piece)
    requires ParseEscape(s).Read?
    ensures PieceOk(p) && "\\" + s == PieceText(p) + ParseEscape(s).rest && PieceChar(p) == ParseEscape(s).value
  {
    if s[0] != 'u' {
      p := Short(s[0]);
      assert s == [s[0]] + s[1..];
    } else {
      HexDigits(s[1..]);
      var h := s[1..][..4];
      assert s == "u" + s[1..] && s[5..] == s[1..][4..];
      if HighSurrogate(ReadHex4(s[1..]).value) {
        HexDigits(s[7..]);
        p := Pair(h, s[7..][..4]);
        hide Value, ReadHex4;
        assert s[7..][4..] == s[11..];
        PairWhole(s, h, s[7..][..4]);
      } else {
        p := Unit(h);
        hide Value, ReadHex4;
      }
    }
  }

  lemma PairWhole(s: string, h: string, l: string)
    requires |s| >= 11 && s[0] == 'u' && s[1..] == h + s[5..] && |h| == 4 && s[5] == '\\' && s[6] == 'u' && s[7..] == l + s[11..]
    ensures "\\" + s == "\\u" + h + "\\u" + l + s[11..]
  {
    assert s == "u" + s[1..];
    assert s[5..] == "\\u" + s[7..];
  }

  lemma {:induction false} PiecesOf(s: string) returns (ps: seq<Piece>)
    requires ParseChars(s).Read?
    ensures PiecesOk(ps) && s == PiecesText(ps) + "\"" + ParseChars(s).rest && Chars(ps) == ParseChars(s).value
    decreases |s|
  {
    if s[0] == '"' {
      ps := [];
      assert s == "\"" + s[1..];
    } else if s[0] == '\\' {
      var e := ParseEscape(s[1..]);
      var p := PieceOfEscape(s[1..]);
      var tail := PiecesOf(e.rest);
      ps := [p] + tail;
      hide ParseEscape, PieceText, PieceChar;
      assert s == "\\" + s[1..];
      OnePiece(p, tail, e.rest, ParseChars(e.rest).rest);
    } else {
      var tail := PiecesOf(s[1..]);
      ps := [Plain(s[0])] + tail;
      assert s == [s[0]] + s[1..];
      OnePiece(Plain(s[0]), tail, s[1..], ParseChars(s[1..]).rest);
    }
  }

  lemma OnePiece(p: Piece, tail: seq<Piece>, text: string, rest: string)
    requires PieceOk(p) && PiecesOk(tail) && text == PiecesText(tail) + "\"" + rest
    ensures PiecesOk([p] + tail) && PieceText(p) + text == PiecesText([p] + tail) + "\"" + rest
    ensures Chars([p] + tail) == [PieceChar(p)] + Chars(tail)
  {
    hide PieceText, PieceChar, PieceOk;
    assert ([p] + tail)[1..] == tail;
  }

  lemma FractionOf(s: string) returns (fr: string)
    ensures FractionOk(fr) && s == fr + SkipFraction(s) && (fr == "" <==> SkipFraction(s) == s)
  {
    fr := "";
    if |s| >= 2 && s[0] == '.' && IsDigit(s[1], 10) {
      var k := DigitSpan(s[1..], 10);
      assert s[1..][0] == s[1] && k > 0;
      fr := s[..1 + k];
      Sliced(s, 1, k);
    }
  }

  lemma Sliced(s: string, k: nat, m: nat)
    requires k + m <= |s|
    ensures s[..k + m][k..] == s[k..][..m] && s == s[..k + m] + s[k + m..]
  {
  }

  lemma ExponentOf(s: string) returns (ex: string)
    ensures ExponentOk(ex) && s == ex + SkipExponent(s) && (ex == "" <==> SkipExponent(s) == s)
  {
    ex := "";
    if s != "" && s[0] in {'e', 'E'} {
      var k := if |s| >= 2 && s[1] in {'+', '-'} then 2 else 1;
      if |s| > k && IsDigit(s[k], 10) {
        var m := DigitSpan(s[k..], 10);
        assert s[k..][0] == s[k] && m > 0;
        ex := s[..k + m];
        Sliced(s, k, m);
        hide DigitSpan, AllDigits;
        assert SomeDigits(ex[k..]) && ex[0] == s[0] && (k == 2 ==> ex[1] == s[1]);
      }
    }
  }

  lemma DigitsOf(t: string) returns (d: string, more: string)
    requires ParseMagnitude(t).Read?
    ensures SomeDigits(d) && (d[0] == '0' ==> |d| == 1) && t == d + more
    ensures var rest := SkipExponent(SkipFraction(more));
      ParseMagnitude(t) == Read(if rest != more then JFloat else JInt(Value(d, 10)), rest)
  {
    var k := if t[0] == '0' then 1 else DigitSpan(t, 10);
    LeadDigits(t);
    d, more := t[..k], t[k..];
    hide DigitSpan, Value, AllDigits, SkipExponent, SkipFraction, SomeDigits;
    DigitsOnly(d);
  }

  lemma LeadDigits(t: string)
    requires t != "" && IsDigit(t[0], 10)
    ensures var k := if t[0] == '0' then 1 else DigitSpan(t, 10);
      0 < k <= |t| && AllDigits(t[..k], 10) && t[..k][0] == t[0]
  {
    assert t[..1] == [t[0]];
  }

  lemma MagnitudeOf(t: string) returns (d: string, fr: string, ex: string)
    requires ParseMagnitude(t).Read?
    ensures SomeDigits(d) && (d[0] == '0' ==> |d| == 1) && FractionOk(fr) && ExponentOk(ex)
    ensures t == d + (fr + ex) + ParseMagnitude(t).rest
    ensures ParseMagnitude(t).value == if fr != "" || ex != "" then JFloat else JInt(Value(d, 10))
  {
    hide *;
    var more;
    d, more := DigitsOf(t);
    fr := FractionOf(more);
    ex := ExponentOf(SkipFraction(more));
    Pieced(d, fr, ex, more, SkipFraction(more), SkipExponent(SkipFraction(more)));
  }

  lemma Pieced(d: string, fr: string, ex: string, more: string, tail: string, rest: string)
    requires more == fr + tail && tail == ex + rest
    ensures d + more == d + (fr + ex) + rest && (more == rest <==> fr == "" && ex == "")
  {
    assert fr + (ex + rest) == (fr + ex) + rest;
    assert |more| == |fr| + |ex| + |rest|;
  }

  lemma NumOf(s: string) returns (f: Form)
    requires ParseNumber(s).Read?
    ensures Ok(f) && s == FormText(f) + ParseNumber(s).rest && Meaning(f) == ParseNumber(s).value
  {
    var minus, t := SignOf(s);
    hide ParseMagnitude, ParseNumber, Ok, Meaning, FormText, FractionOk, ExponentOk, SomeDigits, Value;
    var d, fr, ex := MagnitudeOf(t);
    f := Num(minus, d, fr, ex);
    NumMeaning(f);
    NumText(f, ParseMagnitude(t).rest);
  }

  lemma SignOf(s: string) returns (minus: bool, t: string)
    requires ParseNumber(s).Read?
    ensures s == (if minus then ['-'] + t else t) && ParseMagnitude(t).Read?
    ensures var v := ParseMagnitude(t).value;
      ParseNumber(s) == Read(if v.JInt? && minus then JInt(-v.n) else v, ParseMagnitude(t).rest)
  {
    hide ParseMagnitude;
    minus := s != "" && s[0] == '-';
    t := if minus then s[1..] else s;
    assert minus ==> s == ['-'] + s[1..];
  }

  lemma LiteralOf(s: string) returns (f: Form)
    requires ParseValue(s).Read? && s[0] in {'n', 't', 'f'}
    ensures Ok(f) && s == FormText(f) + ParseValue(s).rest && Meaning(f) == ParseValue(s).value
  {
    f := if s[0] == 'n' then Null else if s[0] == 't' then True else False;
    var n := |FormText(f)|;
    assert s == s[..n] + s[n..];
  }

  lemma {:induction false} FormOf(s: string) returns (f: Form)
    requires ParseValue(s).Read?
    ensures Ok(f) && s == FormText(f) + ParseValue(s).rest && Meaning(f) == ParseValue(s).value
    decreases |s|, 1
  {
    ValueKinds(s);
    hide ParseValue, FormText, Meaning, Ok;
    if s[0] == '-' || '0' <= s[0] <= '9' {
      f := NumOf(s);
    } else if s[0] == '"' {
      f := StrOf(s);
    } else if s[0] == '{' {
      f := ObjOf(s);
    } else if s[0] == '[' {
      f := ArrOf(s);
    } else {
      f := LiteralOf(s);
    }
  }

  lemma ValueKinds(s: string)
    requires ParseValue(s).Read?
    ensures s != "" && (s[0] in {'-', '"', '{', '[', 'n', 't', 'f'} || '0' <= s[0] <= '9')
    ensures s[0] == '-' || '0' <= s[0] <= '9' ==> ParseValue(s) == ParseNumber(s)
    ensures s[0] == '"' ==>
      ParseChars(s[1..]).Read? && ParseValue(s) == Read(JString(ParseChars(s[1..]).value), ParseChars(s[1..]).rest)
  {
    hide ParseNumber, ParseChars, ParseMembers, ParseElements;
  }

  lemma StrOf(s: string) returns (f: Form)
    requires s != "" && s[0] == '"' && ParseChars(s[1..]).Read?
    ensures Ok(f) && s == FormText(f) + ParseChars(s[1..]).rest && Meaning(f) == JString(ParseChars(s[1..]).value)
  {
    var ps := PiecesOf(s[1..]);
    f := Str(ps);
    hide ParseChars, PiecesText, Chars, PiecesOk;
    assert s == "\"" + s[1..];
    QuotedBack(PiecesText(ps), ParseChars(s[1..]).rest);
  }

  lemma QuotedBack(t: string, rest: string)
    ensures "\"" + (t + "\"" + rest) == ("\"" + (t + "\"")) + rest
  {
  }

  lemma {:induction false} ArrOf(s: string) returns (f: Form)
    requires s != "" && s[0] == '[' && ParseValue(s).Read?
    ensures Ok(f) && s == FormText(f) + ParseValue(s).rest && Meaning(f) == ParseValue(s).value
    decreases |s|, 0
  {
    hide ParseValue, ParseElements, ItemsText, ItemsOk, Values;
    var b := Blanks(s[1..]);
    var t := SkipBlanks(s[1..]);
    ArrValue(s);
    assert s == ['['] + (b + t);
    if t != "" && t[0] == ']' {
      f := EmptyArr(b);
      assert t == "]" + t[1..];
    } else {
      var items := ItemsOf(t);
      f := Arr("", items.(before := b));
      PutBefore(items, b);
      Wrapped('[', b, ItemsText(items), "]", ParseElements(t).rest);
    }
  }

  lemma EmptyArr(b: string) returns (f: Form)
    requires AllBlank(b)
    ensures f == Arr(b, NoItems) && Ok(f) && Meaning(f) == JArray([]) && FormText(f) == ['['] + (b + "]")
  {
    f := Arr(b, NoItems);
    assert "" + "]" == "]";
  }

  lemma PutBefore(items: Items, b: string)
    requires items.Item? && ItemsOk(items) && items.before == "" && AllBlank(b)
    ensures ItemsOk(items.(before := b)) && ItemsText(items.(before := b)) == b + ItemsText(items)
    ensures Values(items.(before := b)) == Values(items)
  {
    hide FormText, Ok, Meaning;
    assert "" + ItemsText(items) == ItemsText(items);
  }

  lemma {:induction false} ItemsOf(s: string) returns (items: Items)
    requires ParseElements(s).Read?
    ensures items.Item? && ItemsOk(items) && items.before == ""
    ensures s == ItemsText(items) + "]" + ParseElements(s).rest && Values(items) == ParseElements(s).value
    decreases |s|, 2
  {
    var v := ParseValue(s);
    var f := FormOf(s);
    var a := Blanks(v.rest);
    var next := SkipBlanks(v.rest);
    assert next == [next[0]] + next[1..];
    if next[0] == ']' {
      items := Item("", f, a, NoItems);
      hide ParseValue, FormText, Meaning, Ok;
      LastItem(s, f, a, next[1..]);
    } else {
      var b := Blanks(next[1..]);
      var t := SkipBlanks(next[1..]);
      var more := ItemsOf(t);
      PutBefore(more, b);
      items := Item("", f, a, more.(before := b));
      hide ParseValue, FormText, Meaning, Ok, ItemsOk;
      MoreItems(s, f, a, b, more, ParseElements(t).rest);
    }
  }

  lemma LastItem(s: string, f: Form, a: string, rest: string)
    requires Ok(f) && AllBlank(a) && s == FormText(f) + (a + ("]" + rest))
    ensures var items := Item("", f, a, NoItems);
      ItemsOk(items) && s == ItemsText(items) + "]" + rest && Values(items) == [Meaning(f)]
  {
    hide FormText, Ok, Meaning;
    var items := Item("", f, a, NoItems);
    assert ItemsText(items) == "" + (FormText(f) + (a + ""));
  }

  lemma MoreItems(s: string, f: Form, a: string, b: string, more: Items, rest: string)
    requires Ok(f) && AllBlank(a) && AllBlank(b) && more.Item? && ItemsOk(more) && more.before == ""
    requires ItemsOk(more.(before := b)) && ItemsText(more.(before := b)) == b + ItemsText(more)
    requires Values(more.(before := b)) == Values(more)
    requires s == FormText(f) + (a + ("," + (b + (ItemsText(more) + "]" + rest))))
    ensures var items := Item("", f, a, more.(before := b));
      ItemsOk(items) && s == ItemsText(items) + "]" + rest && Values(items) == [Meaning(f)] + Values(more)
  {
    hide FormText, Ok, Meaning;
    var items := Item("", f, a, more.(before := b));
    assert ItemsText(items) == "" + (FormText(f) + (a + ("," + ItemsText(more.(before := b)))));
    hide ItemsText;
    Spliced(FormText(f), a, b, ItemsText(more), "]" + rest);
    assert ItemsText(more) + "]" + rest == ItemsText(more) + ("]" + rest);
    assert ItemsText(items) + "]" + rest == ItemsText(items) + ("]" + rest);
  }

  lemma Spliced(f: string, a: string, b: string, t: string, r: string)
    ensures f + (a + ("," + (b + (t + r)))) == ("" + (f + (a + ("," + (b + t))))) + r
  {
    assert (b + t) + r == b + (t + r);
    assert ("," + (b + t)) + r == "," + (b + (t + r));
    assert (a + ("," + (b + t))) + r == a + ("," + (b + (t + r)));
  }

  lemma {:induction false} ObjOf(s: string) returns (f: Form)
    requires s != "" && s[0] == '{' && ParseValue(s).Read?
    ensures Ok(f) && s == FormText(f) + ParseValue(s).rest && Meaning(f) == ParseValue(s).value
    decreases |s|, 0
  {
    hide ParseValue, ParseMembers, MembersText, MembersOk, Entered;
    var b := Blanks(s[1..]);
    var t := SkipBlanks(s[1..]);
    ObjValue(s);
    assert s == ['{'] + (b + t);
    if t != "" && t[0] == '}' {
      f := EmptyObj(b);
      assert t == "}" + t[1..];
    } else {
      var ms := MembersOf(t, map[]);
      f := Obj("", ms.(before := b));
      PutBeforeMember(ms, b, map[]);
      Wrapped('{', b, MembersText(ms), "}", ParseMembers(t, map[]).rest);
    }
  }

  lemma EmptyObj(b: string) returns (f: Form)
    requires AllBlank(b)
    ensures f == Obj(b, NoMembers) && Ok(f) && Meaning(f) == JObject(map[]) && FormText(f) == ['{'] + (b + "}")
  {
    f := Obj(b, NoMembers);
    assert "" + "}" == "}";
  }

  lemma Wrapped(open: char, b: string, t: string, close: string, rest: string)
    ensures [open] + (b + (t + close + rest)) == [open] + ("" + ((b + t) + close)) + rest
  {
    assert b + (t + close + rest) == ((b + t) + close) + rest;
    assert "" + ((b + t) + close) == (b + t) + close;
  }

  lemma PutBeforeMember(ms: Members, b: string, seen: map<string, Json>)
    requires ms.Member? && MembersOk(ms) && ms.before == "" && AllBlank(b)
    ensures MembersOk(ms.(before := b)) && MembersText(ms.(before := b)) == b + MembersText(ms)
    ensures Entered(ms.(before := b), seen) == Entered(ms, seen)
  {
    hide FormText, Ok, Meaning, StringText, Chars, PiecesOk;
    assert "" + MembersText(ms) == MembersText(ms);
  }

  lemma MembersUnfold(s: string, seen: map<string, Json>)
    requires ParseMembers(s, seen).Read?
    ensures s != "" && s[0] == '"' && ParseChars(s[1..]).Read?
    ensures var key := ParseChars(s[1..]);
      var colon := SkipBlanks(key.rest);
      && colon != "" && colon[0] == ':' && |colon| < |s| && ParseValue(SkipBlanks(colon[1..])).Read?
      && var v := ParseValue(SkipBlanks(colon[1..]));
         var next := SkipBlanks(v.rest);
         && next != "" && next[0] in {'}', ','} && |next| < |s|
         && ParseMembers(s, seen) ==
              if next[0] == '}' then Read(seen[key.value := v.value], next[1..])
              else ParseMembers(SkipBlanks(next[1..]), seen[key.value := v.value])
  {
  }

  lemma {:induction false} MembersOf(s: string, seen: map<string, Json>) returns (ms: Members)
    requires ParseMembers(s, seen).Read?
    ensures ms.Member? && MembersOk(ms) && ms.before == ""
    ensures s == MembersText(ms) + "}" + ParseMembers(s, seen).rest && Entered(ms, seen) == ParseMembers(s, seen).value
    decreases |s|, 2
  {
    hide ParseMembers, ParseValue, ParseChars, FormText, Meaning, Ok, StringText, Chars, PiecesOk, MembersOk;
    MembersUnfold(s, seen);
    var key := ParseChars(s[1..]);
    var ps := PiecesOf(s[1..]);
    var c := Blanks(key.rest);
    var colon := SkipBlanks(key.rest);
    var p := Blanks(colon[1..]);
    var body := SkipBlanks(colon[1..]);
    var v := ParseValue(body);
    var f := FormOf(body);
    var a := Blanks(v.rest);
    var next := SkipBlanks(v.rest);
    var grown := seen[key.value := v.value];
    HeadText(s, ps, key.rest, c, colon, p, body, f, v.rest, a, next);
    assert next == [next[0]] + next[1..];
    if next[0] == '}' {
      ms := Member("", ps, c, p, f, a, NoMembers);
      LastMember(s, ms, next[1..], seen);
    } else {
      var b := Blanks(next[1..]);
      var t := SkipBlanks(next[1..]);
      var more := MembersOf(t, grown);
      PutBeforeMember(more, b, grown);
      ms := Member("", ps, c, p, f, a, more.(before := b));
      MoreMembers(s, ms, b, more, ParseMembers(t, grown).rest, seen);
    }
  }

  lemma HeadText(
      s: string, ps: seq<Piece>, after: string, c: string, colon: string, p: string, body: string, f: Form, more: string,
      a: string, next: string)
    requires s != "" && s[0] == '"' && s[1..] == PiecesText(ps) + "\"" + after && after == c + colon
    requires colon != "" && colon[0] == ':' && colon[1..] == p + body && body == FormText(f) + more && more == a + next
    ensures s == StringText(ps) + (c + (":" + (p + (FormText(f) + (a + next)))))
  {
    hide PiecesText, FormText;
    assert s == "\"" + s[1..] && colon == ":" + colon[1..];
    assert PiecesText(ps) + "\"" + after == (PiecesText(ps) + "\"") + after;
    assert s == ("\"" + (PiecesText(ps) + "\"")) + after;
  }

  lemma LastMember(s: string, ms: Members, rest: string, seen: map<string, Json>)
    requires ms.Member? && ms.rest.NoMembers? && ms.before == ""
    requires AllBlank(ms.colon) && AllBlank(ms.pre) && AllBlank(ms.after) && PiecesOk(ms.key) && Ok(ms.form)
    requires s == StringText(ms.key) + (ms.colon + (":" + (ms.pre + (FormText(ms.form) + (ms.after + ("}" + rest))))))
    ensures MembersOk(ms) && s == MembersText(ms) + "}" + rest
    ensures Entered(ms, seen) == seen[Chars(ms.key) := Meaning(ms.form)]
  {
    MembersGrouped(ms, rest);
    hide FormText, StringText, Ok, Meaning, Chars, PiecesOk, MembersText;
    assert AfterMember(ms, rest) == ms.after + ("}" + rest);
    assert ms.before + (StringText(ms.key) + AfterKey(ms, rest)) == StringText(ms.key) + AfterKey(ms, rest);
  }

  lemma MoreMembers(s: string, ms: Members, b: string, more: Members, rest: string, seen: map<string, Json>)
    requires ms.Member? && more.Member? && ms.rest == more.(before := b) && ms.before == ""
    requires AllBlank(ms.colon) && AllBlank(ms.pre) && AllBlank(ms.after) && PiecesOk(ms.key) && Ok(ms.form)
    requires MembersOk(ms.rest) && MembersOk(more) && MembersText(ms.rest) == b + MembersText(more)
    requires
      s == StringText(ms.key)
           + (ms.colon + (":" + (ms.pre + (FormText(ms.form) + (ms.after + ("," + (b + (MembersText(more) + "}" + rest))))))))
    ensures MembersOk(ms) && s == MembersText(ms) + "}" + rest
    ensures Entered(ms, seen) == Entered(ms.rest, seen[Chars(ms.key) := Meaning(ms.form)])
  {
    MembersGrouped(ms, rest);
    hide FormText, StringText, Ok, Meaning, Chars, PiecesOk, MembersText;
    assert b + (MembersText(more) + "}" + rest) == (b + MembersText(more)) + "}" + rest;
    assert AfterMember(ms, rest) == ms.after + ("," + (MembersText(ms.rest) + "}" + rest));
    assert ms.before + (StringText(ms.key) + AfterKey(ms, rest)) == StringText(ms.key) + AfterKey(ms, rest);
  }

  // ---- exactly the grammar ----------------------------------------------------------------------------

  lemma {:induction false} BlankAll(s: string)
    ensures SkipBlanks(s) == "" <==> AllBlank(s)
  {
    if s != "" && Blank(s[0]) {
      BlankAll(s[1..]);
      assert AllBlank(s[1..]) ==> AllBlank(s) by {
        if AllBlank(s[1..]) { forall k | 0 <= k < |s| ensures Blank(s[k]) { if k > 0 { assert s[k] == s[1..][k - 1]; } } }
      }
    }
  }

  /** The reader accepts exactly the texts of the grammar, with the value that their derivation has. */
  lemma LoadsExact(s: string, v: Json)
    ensures Loads(s) == Some(v) <==> Denotes(s, v)
  {
    if Loads(s) == Some(v) {
      var pre := Blanks(s);
      var t := SkipBlanks(s);
      var f := FormOf(t);
      BlankAll(ParseValue(t).rest);
      hide ParseValue, FormText, Meaning, Ok;
      assert s == pre + (FormText(f) + ParseValue(t).rest);
    }
    if Denotes(s, v) {
      var pre: string, f: Form, post: string :|
        AllBlank(pre) && AllBlank(post) && Ok(f) && s == pre + (FormText(f) + post) && Meaning(f) == v;
      FirstChar(f);
      hide FormText, Meaning, Ok, ParseValue;
      SkipBlanksOver(pre, FormText(f) + post);
      if post != "" { assert Blank(post[0]); }
      FormReads(f, post);
      BlankAll(post);
    }
  }
}
