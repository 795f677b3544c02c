/** The header of a hunk: the regular expression as a declarative shape, and a parser that decides it. */
module Hunks {
  import opened Prelude
  import Numerals

  /** The zeros of the decimal digit blocks of Unicode 14.0, ten consecutive characters each; the first is ASCII. */
  const ZEROS: seq<int> := [0x30] + OTHER_ZEROS

  const OTHER_ZEROS: seq<int> := [
    0x660, 0x6F0, 0x7C0, 0x966, 0x9E6, 0xA66, 0xAE6, 0xB66, 0xBE6, 0xC66, 0xCE6, 0xD66, 0xDE6, 0xE50, 0xED0,
    0xF20, 0x1040, 0x1090, 0x17E0, 0x1810, 0x1946, 0x19D0, 0x1A80, 0x1A90, 0x1B50, 0x1BB0, 0x1C40, 0x1C50, 0xA620,
    0xA8D0, 0xA900, 0xA9D0, 0xA9F0, 0xAA50, 0xABF0, 0xFF10, 0x104A0, 0x10D30, 0x11066, 0x110F0, 0x11136, 0x111D0,
    0x112F0, 0x11450, 0x114D0, 0x11650, 0x116C0, 0x11730, 0x118E0, 0x11950, 0x11C50, 0x11D50, 0x11DA0, 0x16A60,
    0x16AC0, 0x16B50, 0x1D7CE, 0x1D7D8, 0x1D7E2, 0x1D7EC, 0x1D7F6, 0x1E140, 0x1E2F0, 0x1E950, 0x1FBF0]

  function FindDigit(c: char, zeros: seq<int>): (r: Option<nat>)
    ensures r.Some? ==> r.value < 10
  {
    if zeros == [] then None
    else if zeros[0] <= c as int < zeros[0] + 10 then Some(c as int - zeros[0])
    else FindDigit(c, zeros[1..])
  }

  /** The value of a decimal digit of any script, as `\d` and `int` see it. */
  function Digit(c: char): Option<nat> { if c < '0' then None else FindDigit(c, ZEROS) }

  predicate Digits(s: string) { s != "" && forall k :: 0 <= k < |s| ==> Digit(s[k]).Some? }

  function Number(s: string): nat
    requires forall k :: 0 <= k < |s| ==> Digit(s[k]).Some?
  {
    if s == "" then 0 else Number(s[..|s| - 1]) * 10 + Digit(s[|s| - 1]).value
  }

  // ---- the shape ------------------------------------------------------------------------------

  /** One range of a header: a start and an optional count, which is one when left out. */
  datatype Range = Range(start: string, count: Option<string>)

  predicate RangeOk(r: Range) { Digits(r.start) && (r.count.Some? ==> Digits(r.count.value)) }

  function RangeText(r: Range): string {
    r.start + if r.count.Some? then "," + r.count.value else ""
  }

  function CountOf(r: Range): nat
    requires RangeOk(r)
  {
    if r.count.Some? then Number(r.count.value) else 1
  }

  predicate Heading(tail: string) { tail == "" || tail[0] == ' ' }

  /** `@@ -a[,b] +c[,d] @@`, with an optional section heading behind a space. */
  predicate Shape(line: string, minus: Range, plus: Range, tail: string) {
    RangeOk(minus) && RangeOk(plus) && Heading(tail)
    && line == "@@ -" + RangeText(minus) + " +" + RangeText(plus) + " @@" + tail
  }

  // ---- the parser -------------------------------------------------------------------------------

  function Span(s: string): (n: nat)
    ensures n <= |s| && forall k :: 0 <= k < n ==> Digit(s[k]).Some?
    ensures n < |s| ==> Digit(s[n]).None?
  {
    if s == "" || Digit(s[0]).None? then 0 else 1 + Span(s[1..])
  }

  /** A maximal run of digits, an optional comma with another, and what is left. */
  function ReadRange(s: string): Option<(Range, string)> {
    var n := Span(s);
    if n == 0 then None
    else
      var rest := s[n..];
      if rest == "" || rest[0] != ',' then Some((Range(s[..n], None), rest))
      else
        var m := Span(rest[1..]);
        if m == 0 then Some((Range(s[..n], None), rest))
        else Some((Range(s[..n], Some(rest[1..][..m])), rest[1..][m..]))
  }

  /** The two counts of a hunk header, or none if the line is not one. */
  function ReadHeader(line: string): Option<(nat, nat)> {
    if !("@@ -" <= line) then None
    else
      var minus := ReadRange(line[4..]);
      if minus.None? || !(" +" <= minus.value.1) then None
      else
        var plus := ReadRange(minus.value.1[2..]);
        if plus.None? || !(" @@" <= plus.value.1) || !Heading(plus.value.1[3..]) then None
        else
          RangeRead(line[4..]);
          RangeRead(minus.value.1[2..]);
          Some((CountOf(minus.value.0), CountOf(plus.value.0)))
  }

  lemma RangeRead(s: string)
    ensures ReadRange(s).Some? ==> RangeOk(ReadRange(s).value.0) && s == RangeText(ReadRange(s).value.0) + ReadRange(s).value.1
  {
    hide Digit, Digits, Span;
    var n := Span(s);
    SpanDigits(s);
    var rest := s[n..];
    assert s == s[..n] + rest;
    if n > 0 && rest != "" && rest[0] == ',' {
      SpanDigits(rest[1..]);
      CommaPieces(s[..n], rest, Span(rest[1..]));
    }
  }

  lemma SpanDigits(s: string)
    ensures Span(s) > 0 ==> Digits(s[..Span(s)])
  {
    hide Digit;
  }

  lemma CommaPieces(start: string, rest: string, m: nat)
    requires rest != "" && rest[0] == ',' && m <= |rest[1..]|
    ensures start + rest == start + ("," + rest[1..][..m]) + rest[1..][m..]
  {
    assert rest == "," + rest[1..];
    assert rest[1..] == rest[1..][..m] + rest[1..][m..];
  }

  lemma SpanStops(a: string, b: string)
    requires (forall k :: 0 <= k < |a| ==> Digit(a[k]).Some?) && (b == "" || Digit(b[0]).None?)
    ensures Span(a + b) == |a|
  {
    hide Digit;
    assert forall k :: 0 <= k < |a| ==> (a + b)[k] == a[k];
    assert b != "" ==> (a + b)[|a|] == b[0];
  }

  lemma Separators()
    ensures Digit(' ').None? && Digit(',').None?
  {
  }

  /** A range that ends at a space is read back as itself. */
  lemma RangeFound(r: Range, more: string)
    requires RangeOk(r)
    ensures ReadRange(RangeText(r) + (" " + more)) == Some((r, " " + more))
  {
    hide Digit, Span;
    Separators();
    if r.count.None? {
      StartFound(r.start, " " + more);
      assert RangeText(r) + (" " + more) == r.start + (" " + more);
    } else {
      var rest := "," + (r.count.value + (" " + more));
      assert RangeText(r) + (" " + more) == r.start + rest;
      StartFound(r.start, rest);
      StartFound(r.count.value, " " + more);
      hide RangeText, Digits;
      CountFound(r, rest, more);
    }
  }

  lemma StartFound(a: string, rest: string)
    requires Digits(a) && rest != "" && Digit(rest[0]).None?
    ensures Span(a + rest) == |a| && |a| > 0 && (a + rest)[..|a|] == a && (a + rest)[|a|..] == rest
  {
    SpanStops(a, rest);
  }

  lemma CountFound(r: Range, rest: string, more: string)
    requires r.count.Some? && rest == "," + (r.count.value + (" " + more))
    requires var s := r.start + rest; Span(s) == |r.start| > 0 && s[..|r.start|] == r.start && s[|r.start|..] == rest
    requires var t := r.count.value + (" " + more);
      Span(t) == |r.count.value| > 0 && t[..|r.count.value|] == r.count.value && t[|r.count.value|..] == " " + more
    ensures ReadRange(r.start + rest) == Some((r, " " + more))
  {
    hide Span;
    assert rest[1..] == r.count.value + (" " + more);
  }

  /** The parser decides the shape: it answers with the counts of a reading exactly when there is one. */
  lemma HeaderExact(line: string)
    ensures ReadHeader(line).Some? <==> exists minus, plus, tail :: Shape(line, minus, plus, tail)
    ensures forall minus, plus, tail :: Shape(line, minus, plus, tail) ==> ReadHeader(line) == Some((CountOf(minus), CountOf(plus)))
  {
    hide Digits, Number, ReadRange, RangeText;
    if ReadHeader(line).Some? {
      var (minus, more) := ReadRange(line[4..]).value;
      var (plus, rest) := ReadRange(more[2..]).value;
      RangeRead(line[4..]);
      RangeRead(more[2..]);
      HeaderPieces(line, RangeText(minus), more, RangeText(plus), rest);
      assert Shape(line, minus, plus, rest[3..]);
    }
    forall minus, plus, tail | Shape(line, minus, plus, tail) ensures ReadHeader(line) == Some((CountOf(minus), CountOf(plus))) {
      ShapeRead(line, minus, plus, tail);
    }
  }

  lemma HeaderPieces(line: string, a: string, more: string, b: string, rest: string)
    requires "@@ -" <= line && line[4..] == a + more && " +" <= more && more[2..] == b + rest && " @@" <= rest
    ensures line == "@@ -" + a + " +" + b + " @@" + rest[3..]
  {
    assert line == "@@ -" + line[4..] && more == " +" + more[2..] && rest == " @@" + rest[3..];
  }

  lemma ShapeRead(line: string, minus: Range, plus: Range, tail: string)
    requires Shape(line, minus, plus, tail)
    ensures ReadHeader(line) == Some((CountOf(minus), CountOf(plus)))
  {
    hide Digits, Number, ReadRange, RangeText;
    var after := "@@" + tail;
    var between := "+" + RangeText(plus) + (" " + after);
    assert line == "@@ -" + (RangeText(minus) + (" " + between));
    assert line[4..] == RangeText(minus) + (" " + between);
    RangeFound(minus, between);
    assert (" " + between)[2..] == RangeText(plus) + (" " + after);
    RangeFound(plus, after);
    assert (" " + after)[3..] == tail;
  }

  // ---- headers as they are written -----------------------------------------------------------------

  lemma PlainDigit(d: nat)
    requires d < 10
    ensures Digit(Numerals.DigitChar(d)) == Some(d)
  {
    hide OTHER_ZEROS;
    assert ZEROS[0] == 0x30;
  }

  /** An ordinary decimal numeral is one here, and of the same value. */
  lemma {:induction false} NumeralReads(n: nat)
    ensures Digits(Numerals.Render(n, 10)) && Number(Numerals.Render(n, 10)) == n
  {
    hide Digit, Numerals.DigitChar;
    PlainDigit(n % 10);
    var r := Numerals.Render(n, 10);
    if n < 10 {
      assert r == [Numerals.DigitChar(n)] && r[..0] == "";
    } else {
      NumeralReads(n / 10);
      assert r[..|r| - 1] == Numerals.Render(n / 10, 10) && r[|r| - 1] == Numerals.DigitChar(n % 10);
    }
  }

  /** The header as a diff program writes it. */
  function Written(a: nat, b: nat, c: nat, d: nat): string {
    "@@ -" + Numerals.Render(a, 10) + "," + Numerals.Render(b, 10)
    + " +" + Numerals.Render(c, 10) + "," + Numerals.Render(d, 10) + " @@"
  }

  /** A written header is read with its own counts. */
  lemma WrittenReads(a: nat, b: nat, c: nat, d: nat)
    ensures ReadHeader(Written(a, b, c, d)) == Some((b, d))
  {
    hide Digits, Number, Numerals.Render, ReadHeader;
    NumeralReads(a);
    NumeralReads(b);
    NumeralReads(c);
    NumeralReads(d);
    var minus := Range(Numerals.Render(a, 10), Some(Numerals.Render(b, 10)));
    var plus := Range(Numerals.Render(c, 10), Some(Numerals.Render(d, 10)));
    assert Written(a, b, c, d) == "@@ -" + RangeText(minus) + " +" + RangeText(plus) + " @@" + "";
    assert Shape(Written(a, b, c, d), minus, plus, "");
    HeaderExact(Written(a, b, c, d));
  }
}
