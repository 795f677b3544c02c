/**
 The screen the human approves from: the safety screen, the reversible escapes, and the rendered
 text, which determines the patch, the target and the binding it shows.
 */
module Display {
  import opened Prelude
  import opened Numerals
  import opened FileTree
  import Utf8

  // ---- the screen ------------------------------------------------------------------------------

  datatype CharClass = C0 | Del | C1 | Bidi | ZeroWidth | Noncharacter

  const BIDI: set<int> := {
    0x061C, 0x200E, 0x200F, 0x202A, 0x202B, 0x202C, 0x202D, 0x202E, 0x2066, 0x2067, 0x2068, 0x2069 }

  const ZERO_WIDTH: set<int> := { 0x200B, 0x200C, 0x200D, 0x2060, 0xFEFF }

  function ClassOf(c: char): Option<CharClass> {
    var cp := c as int;
    if cp == 0x0A || cp == 0x09 then None
    else if cp < 0x20 then Some(C0)
    else if cp == 0x7F then Some(Del)
    else if 0x80 <= cp <= 0x9F then Some(C1)
    else if cp in BIDI then Some(Bidi)
    else if cp in ZERO_WIDTH then Some(ZeroWidth)
    else if 0xFDD0 <= cp <= 0xFDEF || cp % 0x10000 >= 0xFFFE then Some(Noncharacter)
    else None
  }

  predicate Renderable(text: string) { forall c :: c in text ==> ClassOf(c).None? }

  /** The class of the first character that fails the screen. */
  method BadCharClass(text: string) returns (r: Option<CharClass>)
    ensures r.None? <==> Renderable(text)
    ensures r.Some? ==> exists k :: 0 <= k < |text| && ClassOf(text[k]) == r && Renderable(text[..k])
  {
    hide ClassOf;
    for k := 0 to |text|
      invariant Renderable(text[..k])
    {
      var class_ := ClassOf(text[k]);
      if class_.Some? {
        assert text[k] in text;
        return class_;
      }
      assert text[..k + 1] == text[..k] + [text[k]];
    }
    assert text[..|text|] == text;
    r := None;
  }

  // ---- escapes -----------------------------------------------------------------------------------

  function EscapeChar(c: char): (r: string)
    ensures |r| > 0
  {
    if c == '\\' then "\\\\"
    else if c == '\t' then "\\t"
    else if c as int < 0x80 then [c]
    else "\\u{" + Render(c as int, 16) + "}"
  }

  function EscapedField(text: string): string {
    if text == "" then "" else EscapeChar(text[0]) + EscapedField(text[1..])
  }

  method EscapeField(text: string) returns (out: string)
    ensures out == EscapedField(text)
  {
    hide EscapeChar;
    out := "";
    for k := 0 to |text|
      invariant out == EscapedField(text[..k])
    {
      EscapedAppend(text[..k], [text[k]]);
      assert text[..k + 1] == text[..k] + [text[k]];
      OneEscaped(text[k]);
      out := out + EscapeChar(text[k]);
    }
    assert text[..|text|] == text;
  }

  lemma OneEscaped(c: char)
    ensures EscapedField([c]) == EscapeChar(c)
  {
    assert [c][1..] == "";
  }

  lemma {:induction false} EscapedAppend(s: string, t: string)
    ensures EscapedField(s + t) == EscapedField(s) + EscapedField(t)
  {
    hide EscapeChar;
    if s == "" {
      assert s + t == t;
    } else {
      assert (s + t)[1..] == s[1..] + t;
      EscapedAppend(s[1..], t);
    }
  }

  /** How much of a line is left without its trailing spaces. */
  function Stripped(line: string): (n: nat)
    ensures n <= |line| && (forall k :: n <= k < |line| ==> line[k] == ' ') && (n > 0 ==> line[n - 1] != ' ')
  {
    if line == "" then 0
    else if line[|line| - 1] == ' ' then Stripped(line[..|line| - 1])
    else |line|
  }

  function Spaces(n: nat): string { if n == 0 then "" else "\\x20" + Spaces(n - 1) }

  function EscapeLine(line: string): string {
    var n := Stripped(line);
    EscapedField(line[..n]) + Spaces(|line| - n)
  }

  // ---- reading escapes back -----------------------------------------------------------------------

  predicate ScalarValue(n: int) { 0 <= n < 0xD800 || 0xE000 <= n < 0x110000 }

  /** One character of an escaped text, and how much of the text it took. */
  function ReadChar(s: string): Option<(char, nat)>
    requires s != ""
  {
    if s[0] != '\\' then Some((s[0], 1))
    else if |s| < 2 then None
    else if s[1] == '\\' then Some(('\\', 2))
    else if s[1] == 't' then Some(('\t', 2))
    else if s[1] == 'x' && |s| >= 4 && s[2] == '2' && s[3] == '0' then Some((' ', 4))
    else if s[1] == 'u' && |s| >= 3 && s[2] == '{' then
      var k := DigitSpan(s[3..], 16);
      if k == 0 || |s| <= 3 + k || s[3 + k] != '}' || !ScalarValue(Value(s[3..][..k], 16)) then None
      else Some((Value(s[3..][..k], 16) as char, 4 + k))
    else None
  }

  function Unescape(s: string): Option<string>
    decreases |s|
  {
    if s == "" then Some("")
    else
      var c := ReadChar(s);
      if c.None? || c.value.1 == 0 || c.value.1 > |s| then None
      else
        var rest := Unescape(s[c.value.1..]);
        if rest.None? then None else Some([c.value.0] + rest.value)
  }

  lemma ReadEscaped(c: char, rest: string)
    ensures ReadChar(EscapeChar(c) + rest) == Some((c, |EscapeChar(c)|))
  {
    if c as int >= 0x80 {
      ReadNumbered(c, rest);
      assert EscapeChar(c) + rest == "\\u{" + Render(c as int, 16) + "}" + rest;
    }
  }

  lemma ReadNumbered(c: char, rest: string)
    requires c as int >= 0x80
    ensures ReadChar("\\u{" + Render(c as int, 16) + "}" + rest) == Some((c, 4 + |Render(c as int, 16)|))
  {
    var d := Render(c as int, 16);
    RenderRoundTrip(c as int, 16);
    var s, tail := "\\u{" + d + "}" + rest, "}" + rest;
    DigitSpanStops(d, tail, 16);
    hide Render, Value, DigitSpan;
    assert s[3..] == d + tail;
    assert (d + tail)[..|d|] == d && s[3 + |d|] == '}';
  }

  lemma UnescapeStep(c: char, rest: string)
    ensures Unescape(EscapeChar(c) + rest) == if Unescape(rest).Some? then Some([c] + Unescape(rest).value) else None
  {
    ReadEscaped(c, rest);
    hide EscapeChar, ReadChar;
    assert (EscapeChar(c) + rest)[|EscapeChar(c)|..] == rest;
  }

  lemma {:induction false} UnescapeField(text: string, rest: string)
    requires Unescape(rest).Some?
    ensures Unescape(EscapedField(text) + rest) == Some(text + Unescape(rest).value)
  {
    hide EscapeChar, Unescape;
    if text == "" {
      assert EscapedField(text) + rest == rest && text + Unescape(rest).value == Unescape(rest).value;
    } else {
      UnescapeField(text[1..], rest);
      UnescapeStep(text[0], EscapedField(text[1..]) + rest);
      assert EscapedField(text) + rest == EscapeChar(text[0]) + (EscapedField(text[1..]) + rest);
      assert [text[0]] + (text[1..] + Unescape(rest).value) == text + Unescape(rest).value;
    }
  }

  lemma {:induction false} UnescapeSpaces(n: nat)
    ensures Unescape(Spaces(n)).Some? && Unescape(Spaces(n)).value == seq(n, _ => ' ')
  {
    if n > 0 {
      UnescapeSpaces(n - 1);
      assert Spaces(n)[4..] == Spaces(n - 1);
      assert ReadChar(Spaces(n)) == Some((' ', 4));
      assert seq(n, _ => ' ') == [' '] + seq(n - 1, _ => ' ');
    }
  }

  /** The display of one line is reversible, whatever the line holds. */
  lemma UnescapeLine(line: string)
    ensures Unescape(EscapeLine(line)) == Some(line)
  {
    var n := Stripped(line);
    UnescapeSpaces(|line| - n);
    UnescapeField(line[..n], Spaces(|line| - n));
    hide Unescape, Spaces;
    assert line == line[..n] + seq(|line| - n, _ => ' ');
  }

  lemma UnescapeWhole(text: string)
    ensures Unescape(EscapedField(text)) == Some(text)
  {
    UnescapeField(text, "");
    hide EscapedField;
    assert EscapedField(text) + "" == EscapedField(text) && text + "" == text;
  }

  // ---- what the terminal gets -----------------------------------------------------------------------

  predicate Shown(s: string) { forall c :: c in s ==> ' ' <= c <= '~' }

  lemma EscapedCharShown(c: char)
    requires ClassOf(c).None? && c != '\n'
    ensures Shown(EscapeChar(c))
  {
    RenderRoundTrip(c as int, 16);
    hide Render;
  }

  lemma {:induction false} EscapedFieldShown(text: string)
    requires Renderable(text) && '\n' !in text
    ensures Shown(EscapedField(text))
  {
    hide EscapeChar, ClassOf;
    if text != "" {
      assert text[0] in text;
      EscapedCharShown(text[0]);
      assert forall c :: c in text[1..] ==> c in text;
      EscapedFieldShown(text[1..]);
    }
  }

  lemma {:induction false} SpacesShown(n: nat)
    ensures Shown(Spaces(n))
  {
    if n > 0 {
      SpacesShown(n - 1);
    }
  }

  /** Each escaped line of screened text is printable ASCII, with no line feed. */
  lemma EscapedLineShown(line: string)
    requires Renderable(line) && '\n' !in line
    ensures Shown(EscapeLine(line))
  {
    hide EscapedField, Spaces, ClassOf;
    var n := Stripped(line);
    assert forall c :: c in line[..n] ==> c in line;
    EscapedFieldShown(line[..n]);
    SpacesShown(|line| - n);
  }

  lemma {:induction false} EscapedFieldLf(text: string)
    requires '\n' !in text
    ensures '\n' !in EscapedField(text)
  {
    if text != "" {
      assert text[0] in text && forall c :: c in text[1..] ==> c in text;
      EscapedFieldLf(text[1..]);
      EscapeCharLf(text[0]);
      hide EscapeChar;
    }
  }

  lemma EscapeCharLf(c: char)
    requires c != '\n'
    ensures '\n' !in EscapeChar(c)
  {
    RenderRoundTrip(c as int, 16);
    hide Render;
  }

  lemma {:induction false} SpacesLf(n: nat)
    ensures '\n' !in Spaces(n)
  {
    if n > 0 {
      SpacesLf(n - 1);
    }
  }

  lemma EscapedLineLf(line: string)
    requires '\n' !in line
    ensures '\n' !in EscapeLine(line)
  {
    hide EscapedField, Spaces;
    var n := Stripped(line);
    EscapedFieldLf(line[..n]);
    SpacesLf(|line| - n);
  }

  // ---- the body -----------------------------------------------------------------------------------

  predicate EndsWithLf(diff: string) { diff != "" && diff[|diff| - 1] == '\n' }

  /** The lines of the patch, without the empty piece after a final line feed. */
  function PatchLines(diff: string): (r: seq<string>)
    ensures |r| >= 1
  {
    var lines := Split(diff, '\n');
    if EndsWithLf(diff) && lines[|lines| - 1] == "" && |lines| > 1 then lines[..|lines| - 1] else lines
  }

  function EscapedLines(lines: seq<string>): (r: seq<string>)
    ensures |r| == |lines| && forall k :: 0 <= k < |lines| ==> r[k] == EscapeLine(lines[k])
  {
    seq(|lines|, k requires 0 <= k < |lines| => EscapeLine(lines[k]))
  }

  function Body(diff: string): string { Join(EscapedLines(PatchLines(diff)), '\n') }

  /** A final line feed leaves an empty last piece behind, and another one before it or a line. */
  lemma FinalPiece(diff: string)
    ensures var lines := Split(diff, '\n');
      EndsWithLf(diff) ==> |lines| > 1 && lines[|lines| - 1] == "" && PatchLines(diff) == lines[..|lines| - 1]
    ensures !EndsWithLf(diff) ==> PatchLines(diff) == Split(diff, '\n')
  {
    if EndsWithLf(diff) {
      var init := diff[..|diff| - 1];
      assert diff == init + ['\n'] + "";
      SplitAppend(init, '\n', "");
    }
  }

  /** The lines and the flag are the patch. */
  lemma LinesDetermine(d: string, e: string)
    requires PatchLines(d) == PatchLines(e) && EndsWithLf(d) == EndsWithLf(e)
    ensures d == e
  {
    FinalPiece(d);
    FinalPiece(e);
    JoinOfSplit(d, '\n');
    JoinOfSplit(e, '\n');
    hide Split, Join, PatchLines;
    var p, q := Split(d, '\n'), Split(e, '\n');
    if EndsWithLf(d) {
      assert p == p[..|p| - 1] + [p[|p| - 1]] && q == q[..|q| - 1] + [q[|q| - 1]];
    }
  }

  lemma EscapedLinesInjective(a: seq<string>, b: seq<string>)
    requires EscapedLines(a) == EscapedLines(b)
    ensures a == b
  {
    hide EscapeLine;
    assert |a| == |b|;
    forall k | 0 <= k < |a| ensures a[k] == b[k] {
      assert EscapedLines(a)[k] == EscapedLines(b)[k];
      UnescapeLine(a[k]);
      UnescapeLine(b[k]);
    }
  }

  lemma PatchLinesLf(diff: string)
    ensures forall k :: 0 <= k < |PatchLines(diff)| ==> '\n' !in PatchLines(diff)[k]
  {
    SplitPieces(diff, '\n');
  }

  lemma RowsLf(diff: string)
    ensures forall k :: 0 <= k < |EscapedLines(PatchLines(diff))| ==> '\n' !in EscapedLines(PatchLines(diff))[k]
  {
    PatchLinesLf(diff);
    hide PatchLines, EscapeLine;
    var lines := PatchLines(diff);
    forall k | 0 <= k < |lines| ensures '\n' !in EscapedLines(lines)[k] { EscapedLineLf(lines[k]); }
  }

  /** The rendered body and the ends-with-LF flag determine the patch, with no screen needed. */
  lemma BodyDetermines(d: string, e: string)
    requires Body(d) == Body(e) && EndsWithLf(d) == EndsWithLf(e)
    ensures d == e
  {
    RowsLf(d);
    RowsLf(e);
    SplitOfJoin(EscapedLines(PatchLines(d)), '\n');
    SplitOfJoin(EscapedLines(PatchLines(e)), '\n');
    EscapedLinesInjective(PatchLines(d), PatchLines(e));
    LinesDetermine(d, e);
  }

  // ---- the whole screen ------------------------------------------------------------------------------

  // This text and the longer notes below are written in pieces, since membership in a literal of more than some
  // 30 characters is out of the verifier's reach.
  const CREATES := "target does not exist " + "(this change creates it)"

  /** The pre-state line: whether the target exists and how long it is, never what it holds. */
  function PrestateSummary(read: Result<Option<bytes>, ReadFault>): string {
    match read
    case Failure(_) => "unavailable"
    case Success(None) => CREATES
    case Success(Some(data)) => "target exists (" + Render(|data|, 10) + " bytes)"
  }

  /** What is rendered: the target, its risk and pre-state, the patch, the repository and the binding. */
  datatype Sheet = Sheet(path: string, risk: string, pre: string, diff: string, root: string, bound: string)

  function WithLf(rows: seq<string>): string {
    if rows == [] then "" else rows[0] + "\n" + WithLf(rows[1..])
  }

  const TITLE := "cofferdam approve -- review " + "the exact change before approving"

  const BOUND_NOTE := "                (binds the " + "exact patch bytes + target" + " + pre-state + repository)"

  const BEGIN_NOTE := " bytes; \\\\=backslash \\t=TAB " + "\\x20=trailing space " + "\\u{HEX}=non-ASCII) ---"

  const RISK_NOTE := "   (display-only; does not authorize)"

  function TargetRow(s: Sheet): string { "  target:       " + EscapedField(s.path) }

  function RiskRow(s: Sheet): string { "  risk:         " + s.risk + RISK_NOTE }

  function PreRow(s: Sheet): string { "  pre-state:    " + s.pre }

  function SizeRow(s: Sheet): string {
    "  patch size:   " + Render(|Utf8.Encode(s.diff)|, 10) + " bytes, " + Render(|PatchLines(s.diff)|, 10) + " lines"
  }

  function LfRow(s: Sheet): string { "  ends with LF: " + if EndsWithLf(s.diff) then "yes" else "no" }

  function RootRow(s: Sheet): string { "  repository:   " + (if |s.root| <= 12 then s.root else s.root[..12]) + "..." }

  function BoundRow(s: Sheet): string { "  binding:      " + s.bound }

  function BeginRow(s: Sheet): string {
    "--- BEGIN ESCAPED PATCH (" + Render(|Utf8.Encode(s.diff)|, 10) + BEGIN_NOTE
  }

  function HeaderRows(s: Sheet): (r: seq<string>)
    ensures |r| == 12
  {
    [TITLE, "", TargetRow(s), RiskRow(s), PreRow(s), SizeRow(s),
     LfRow(s), RootRow(s), BoundRow(s), BOUND_NOTE, "",
     BeginRow(s)]
  }

  const END_ROW := "--- END ESCAPED PATCH ---"

  function RenderDisplay(s: Sheet): string {
    WithLf(HeaderRows(s)) + Body(s.diff) + "\n" + END_ROW + "\n"
  }

  // ---- the screen as rows --------------------------------------------------------------------------------

  function Rows(s: Sheet): seq<string> {
    HeaderRows(s) + EscapedLines(PatchLines(s.diff)) + [END_ROW]
  }

  lemma {:induction false} WithLfAppend(a: seq<string>, b: seq<string>)
    ensures WithLf(a + b) == WithLf(a) + WithLf(b)
  {
    if a == [] {
      assert a + b == b;
    } else {
      assert (a + b)[1..] == a[1..] + b;
      WithLfAppend(a[1..], b);
    }
  }

  lemma {:induction false} JoinedLf(rows: seq<string>)
    requires rows != []
    ensures Join(rows, '\n') + "\n" == WithLf(rows)
  {
    if |rows| > 1 {
      JoinedLf(rows[1..]);
    }
  }

  lemma RenderIsRows(s: Sheet)
    ensures RenderDisplay(s) == WithLf(Rows(s))
  {
    hide HeaderRows, EscapedLines, PatchLines, END_ROW;
    var lines := EscapedLines(PatchLines(s.diff));
    JoinedLf(lines);
    WithLfAppend(HeaderRows(s), lines);
    WithLfAppend(HeaderRows(s) + lines, [END_ROW]);
    assert [END_ROW][1..] == [];
  }

  predicate LfFree(rows: seq<string>) { forall k :: 0 <= k < |rows| ==> '\n' !in rows[k] }

  lemma {:induction false} WithLfInjective(a: seq<string>, b: seq<string>)
    requires LfFree(a) && LfFree(b) && WithLf(a) == WithLf(b)
    ensures a == b
  {
    if a != [] && b != [] {
      CutAtSeparator(a[0], WithLf(a[1..]), b[0], WithLf(b[1..]), '\n');
      WithLfInjective(a[1..], b[1..]);
      assert a == [a[0]] + a[1..] && b == [b[0]] + b[1..];
    }
  }

  /** The fields that come from elsewhere are single-line, as every artifact's are. */
  predicate OneLine(s: Sheet) {
    '\n' !in s.path && '\n' !in s.risk && '\n' !in s.pre && '\n' !in s.root && '\n' !in s.bound
  }

  lemma NumberLf(n: nat)
    ensures '\n' !in Render(n, 10)
  {
    RenderRoundTrip(n, 10);
    hide Render;
  }

  lemma TitleLf()
    ensures '\n' !in TITLE
  {
  }

  lemma BoundNoteLf()
    ensures '\n' !in BOUND_NOTE
  {
  }

  lemma BeginNoteLf()
    ensures '\n' !in BEGIN_NOTE
  {
  }

  lemma NotesLf()
    ensures '\n' !in TITLE && '\n' !in BOUND_NOTE && '\n' !in BEGIN_NOTE && '\n' !in RISK_NOTE && '\n' !in END_ROW
  {
    hide TITLE, BOUND_NOTE, BEGIN_NOTE;
    TitleLf();
    BoundNoteLf();
    BeginNoteLf();
  }

  lemma FieldRowsLf(s: Sheet)
    requires OneLine(s)
    ensures '\n' !in TargetRow(s) && '\n' !in RiskRow(s) && '\n' !in PreRow(s)
    ensures '\n' !in LfRow(s) && '\n' !in RootRow(s) && '\n' !in BoundRow(s)
  {
    hide EscapedField, TITLE, BOUND_NOTE, BEGIN_NOTE, RISK_NOTE, END_ROW;
    NotesLf();
    EscapedFieldLf(s.path);
  }

  lemma NumberRowsLf(s: Sheet)
    ensures '\n' !in SizeRow(s) && '\n' !in BeginRow(s)
  {
    hide Render, PatchLines, Utf8.Encode, TITLE, BOUND_NOTE, BEGIN_NOTE, RISK_NOTE, END_ROW;
    NotesLf();
    NumberLf(|Utf8.Encode(s.diff)|);
    NumberLf(|PatchLines(s.diff)|);
  }

  lemma HeaderLf(s: Sheet)
    requires OneLine(s)
    ensures LfFree(HeaderRows(s))
  {
    hide TargetRow, RiskRow, PreRow, SizeRow, LfRow, RootRow, BoundRow, BeginRow;
    hide TITLE, BOUND_NOTE, BEGIN_NOTE, RISK_NOTE, END_ROW;
    NotesLf();
    FieldRowsLf(s);
    NumberRowsLf(s);
  }

  lemma RowsLfFree(s: Sheet)
    requires OneLine(s)
    ensures LfFree(Rows(s))
  {
    hide HeaderRows, EscapedLines, PatchLines, END_ROW;
    NotesLf();
    HeaderLf(s);
    RowsLf(s.diff);
  }

  lemma SameAfter(p: string, a: string, b: string)
    requires p + a == p + b
    ensures a == b
  {
    assert a == (p + a)[|p|..] && b == (p + b)[|p|..];
  }

  lemma SameBefore(a: string, b: string, q: string)
    requires a + q == b + q
    ensures a == b
  {
    assert |a| == |b|;
    assert a == (a + q)[..|a|] && b == (b + q)[..|b|];
  }

  lemma SameField(a: string, b: string)
    requires EscapedField(a) == EscapedField(b)
    ensures a == b
  {
    UnescapeWhole(a);
    UnescapeWhole(b);
    hide EscapedField, Unescape;
  }

  lemma SameHeader(s: Sheet, t: Sheet)
    requires HeaderRows(s) == HeaderRows(t)
    ensures s.path == t.path && s.risk == t.risk && s.pre == t.pre && s.bound == t.bound && EndsWithLf(s.diff) == EndsWithLf(t.diff)
  {
    var a, b := HeaderRows(s), HeaderRows(t);
    assert a[2] == b[2] && a[3] == b[3] && a[4] == b[4] && a[6] == b[6] && a[8] == b[8];
    hide HeaderRows, EscapedField, SizeRow, RootRow, BeginRow, RISK_NOTE;
    SameAfter("  target:       ", EscapedField(s.path), EscapedField(t.path));
    SameField(s.path, t.path);
    SameBefore("  risk:         " + s.risk, "  risk:         " + t.risk, RISK_NOTE);
    SameAfter("  risk:         ", s.risk, t.risk);
    SameAfter("  pre-state:    ", s.pre, t.pre);
    SameAfter("  binding:      ", s.bound, t.bound);
    SameAfter("  ends with LF: ", if EndsWithLf(s.diff) then "yes" else "no", if EndsWithLf(t.diff) then "yes" else "no");
    assert "yes"[0] != "no"[0];
  }

  lemma SamePatchRows(s: Sheet, t: Sheet)
    requires Rows(s) == Rows(t)
    ensures HeaderRows(s) == HeaderRows(t) && EscapedLines(PatchLines(s.diff)) == EscapedLines(PatchLines(t.diff))
  {
    hide PatchLines, EscapedLines, HeaderRows, END_ROW;
    var a, b := Rows(s), Rows(t);
    assert HeaderRows(s) == a[..12] && HeaderRows(t) == b[..12];
    assert EscapedLines(PatchLines(s.diff)) == a[12..|a| - 1] && EscapedLines(PatchLines(t.diff)) == b[12..|b| - 1];
  }

  /**
   Two screens that look the same show the same patch, byte for byte, the same target, the same
   risk and pre-state line, and the same binding.
   */
  lemma DisplayDetermines(s: Sheet, t: Sheet)
    requires OneLine(s) && OneLine(t) && RenderDisplay(s) == RenderDisplay(t)
    ensures s.diff == t.diff && s.path == t.path && s.risk == t.risk && s.pre == t.pre && s.bound == t.bound
  {
    RenderIsRows(s);
    RenderIsRows(t);
    RowsLfFree(s);
    RowsLfFree(t);
    hide *;
    WithLfInjective(Rows(s), Rows(t));
    SamePatchRows(s, t);
    SameHeader(s, t);
    EscapedLinesInjective(PatchLines(s.diff), PatchLines(t.diff));
    LinesDetermine(s.diff, t.diff);
  }

  // ---- the screen shows the text ----------------------------------------------------------------------

  /** Printable ASCII that stands for itself. */
  predicate Plain(s: string) { forall c :: c in s ==> ' ' <= c <= '~' && c != '\\' }

  /** Each character is shown as itself, by one of two short escapes, or by its code point. */
  lemma EscapeCharExact(c: char)
    ensures ' ' <= c <= '~' && c != '\\' ==> EscapeChar(c) == [c]
    ensures c == '\\' ==> EscapeChar(c) == "\\\\"
    ensures c == '\t' ==> EscapeChar(c) == "\\t"
    ensures c as int >= 0x80 ==>
      var r := EscapeChar(c);
      && |r| > 4 && r[..3] == "\\u{" && r[|r| - 1] == '}' && AllDigits(r[3..|r| - 1], 16)
      && Value(r[3..|r| - 1], 16) == c as int && r[3] != '0' && forall k :: 3 <= k < |r| - 1 ==> IsLowerHex(r[k])
  {
    if c as int >= 0x80 {
      var d, r := Render(c as int, 16), EscapeChar(c);
      RenderRoundTrip(c as int, 16);
      hide Render, Value;
      assert r == "\\u{" + d + "}" && r[3..|r| - 1] == d;
      forall k | 3 <= k < |r| - 1 ensures IsLowerHex(r[k]) { assert r[k] == d[k - 3] && d[k - 3] in d; }
    }
  }

  lemma {:induction false} PlainField(text: string)
    requires Plain(text)
    ensures EscapedField(text) == text
  {
    if text != "" {
      assert text[0] in text && forall c :: c in text[1..] ==> c in text;
      EscapeCharExact(text[0]);
      hide EscapeChar;
      PlainField(text[1..]);
      assert [text[0]] + text[1..] == text;
    }
  }

  /** Trailing spaces, and they alone, are shown as escapes; what stands before them is escaped as a field. */
  lemma EscapeLineExact(head: string, n: nat)
    requires head == "" || head[|head| - 1] != ' '
    ensures var r := EscapeLine(head + seq(n, _ => ' '));
      && |r| == |EscapedField(head)| + 4 * n && EscapedField(head) <= r
      && forall k :: 0 <= k < n ==> r[|r| - 4 * (k + 1)..|r| - 4 * k] == "\\x20"
  {
    hide *;
    SpacesAre(n);
    LineIs(head, n);
    var a, b := EscapedField(head), Spaces(n);
    forall k | 0 <= k < n ensures (a + b)[|a + b| - 4 * (k + 1)..|a + b| - 4 * k] == "\\x20" {
      TailSlice(a, b, 4 * (k + 1), 4 * k);
    }
  }

  lemma LineCut(line: string, head: string, n: nat)
    requires Stripped(line) == |head| && |line| == |head| + n && line[..|head|] == head
    ensures EscapeLine(line) == EscapedField(head) + Spaces(n)
  {
    hide EscapedField, Spaces, Stripped;
  }

  lemma LineIs(head: string, n: nat)
    requires head == "" || head[|head| - 1] != ' '
    ensures EscapeLine(head + seq(n, _ => ' ')) == EscapedField(head) + Spaces(n)
  {
    hide *;
    StrippedOf(head, n);
    var line := head + seq(n, _ => ' ');
    assert line[..|head|] == head;
    LineCut(line, head, n);
  }

  lemma TailSlice(a: string, b: string, m: nat, n: nat)
    requires n <= m <= |b|
    ensures (a + b)[|a + b| - m..|a + b| - n] == b[|b| - m..|b| - n]
  {
  }

  lemma StrippedOf(head: string, n: nat)
    requires head == "" || head[|head| - 1] != ' '
    ensures Stripped(head + seq(n, _ => ' ')) == |head|
  {
    var line := head + seq(n, _ => ' ');
    assert forall k :: |head| <= k < |line| ==> line[k] == ' ';
    assert head != "" ==> line[|head| - 1] == head[|head| - 1];
  }

  lemma {:induction false} SpacesAre(n: nat)
    ensures |Spaces(n)| == 4 * n
    ensures forall k :: 0 <= k < n ==> Spaces(n)[4 * n - 4 * (k + 1)..4 * n - 4 * k] == "\\x20"
  {
    if n > 0 {
      SpacesAre(n - 1);
      var s, t := Spaces(n), Spaces(n - 1);
      hide Spaces;
      assert s == "\\x20" + t;
      forall k | 0 <= k < n ensures s[4 * n - 4 * (k + 1)..4 * n - 4 * k] == "\\x20" {
        if k == n - 1 {
          assert s[0..4] == "\\x20";
        } else {
          assert s[4 * n - 4 * (k + 1)..4 * n - 4 * k] == t[4 * (n - 1) - 4 * (k + 1)..4 * (n - 1) - 4 * k];
        }
      }
    }
  }

  /** A line of printable ASCII without backslash and trailing space is shown as it is. */
  lemma PlainLine(line: string)
    requires Plain(line) && (line == "" || line[|line| - 1] != ' ')
    ensures EscapeLine(line) == line
  {
    PlainField(line);
    hide EscapedField, Plain;
    assert Stripped(line) == |line|;
    assert line[..|line|] == line;
  }

  /** The lines that are shown are the lines of the patch. */
  lemma PatchLinesExact(diff: string)
    ensures forall k :: 0 <= k < |PatchLines(diff)| ==> '\n' !in PatchLines(diff)[k]
    ensures Join(PatchLines(diff), '\n') + (if diff != "" && diff[|diff| - 1] == '\n' then "\n" else "") == diff
  {
    PatchLinesLf(diff);
    FinalPiece(diff);
    JoinOfSplit(diff, '\n');
    var p := Split(diff, '\n');
    if EndsWithLf(diff) {
      assert p == PatchLines(diff) + [""];
      hide Split, PatchLines;
      JoinEnd(PatchLines(diff));
    }
  }

  lemma {:induction false} JoinEnd(rows: seq<string>)
    requires rows != []
    ensures Join(rows + [""], '\n') == Join(rows, '\n') + "\n"
  {
    if |rows| == 1 {
      assert (rows + [""])[1..] == [""];
    } else {
      JoinEnd(rows[1..]);
      assert (rows + [""])[1..] == rows[1..] + [""];
    }
  }

  lemma {:induction false} SplitOfWithLf(rows: seq<string>)
    requires LfFree(rows)
    ensures Split(WithLf(rows), '\n') == rows + [""]
  {
    if rows == [] {
      assert WithLf(rows) == "";
    } else {
      SplitOfWithLf(rows[1..]);
      SplitNoSeparator(rows[0], '\n');
      SplitAppend(rows[0], '\n', WithLf(rows[1..]));
      assert [rows[0]] + (rows[1..] + [""]) == rows + [""];
    }
  }

  /** The rows on the terminal. */
  function OnTerminal(s: Sheet): seq<string> { Split(RenderDisplay(s), '\n') }

  lemma TerminalRows(s: Sheet)
    requires OneLine(s)
    ensures OnTerminal(s) == Rows(s) + [""]
  {
    hide *;
    RenderIsRows(s);
    RowsLfFree(s);
    SplitOfWithLf(Rows(s));
    OnTerminalIs(s);
  }

  lemma OnTerminalIs(s: Sheet)
    ensures OnTerminal(s) == Split(RenderDisplay(s), '\n')
  {
    hide Split, RenderDisplay;
  }

  /** Row by row, what the human sees: each field behind its label, and each line of the patch, escaped, in order. */
  lemma ScreenShows(s: Sheet)
    requires OneLine(s)
    ensures var rows := OnTerminal(s);
      && |rows| == |PatchLines(s.diff)| + 14
      && rows[2] == "  target:       " + EscapedField(s.path)
      && rows[3] == "  risk:         " + s.risk + "   (display-only; does not authorize)"
      && rows[4] == "  pre-state:    " + s.pre
      && rows[6] == "  ends with LF: " + (if s.diff != "" && s.diff[|s.diff| - 1] == '\n' then "yes" else "no")
      && rows[7] == "  repository:   " + (if |s.root| <= 12 then s.root else s.root[..12]) + "..."
      && rows[8] == "  binding:      " + s.bound
      && forall k :: 0 <= k < |PatchLines(s.diff)| ==> rows[12 + k] == EscapeLine(PatchLines(s.diff)[k])
  {
    TerminalRows(s);
    LabelledRows(s);
    RowsPlaced(s);
    hide *;
  }

  lemma RowsPlaced(s: Sheet)
    ensures var rows := Rows(s) + [""];
      && |rows| == |PatchLines(s.diff)| + 14
      && (forall k :: 0 <= k < 12 ==> rows[k] == HeaderRows(s)[k])
      && forall k :: 0 <= k < |PatchLines(s.diff)| ==> rows[12 + k] == EscapeLine(PatchLines(s.diff)[k])
  {
    hide HeaderRows, PatchLines, EscapeLine, END_ROW;
    var rows, lines := Rows(s) + [""], EscapedLines(PatchLines(s.diff));
    forall k | 0 <= k < |lines| ensures rows[12 + k] == lines[k] {}
  }

  lemma LabelledRows(s: Sheet)
    ensures var rows := HeaderRows(s);
      && rows[2] == "  target:       " + EscapedField(s.path)
      && rows[3] == "  risk:         " + s.risk + "   (display-only; does not authorize)"
      && rows[4] == "  pre-state:    " + s.pre
      && rows[6] == "  ends with LF: " + (if s.diff != "" && s.diff[|s.diff| - 1] == '\n' then "yes" else "no")
      && rows[7] == "  repository:   " + (if |s.root| <= 12 then s.root else s.root[..12]) + "..."
      && rows[8] == "  binding:      " + s.bound
  {
    hide EscapedField, TITLE, BOUND_NOTE, SizeRow, BeginRow;
  }

  /** Where the text is printable ASCII without backslash and trailing space, the human sees the text itself. */
  lemma PlainScreenShows(s: Sheet, k: nat)
    requires OneLine(s) && k < |PatchLines(s.diff)|
    ensures |OnTerminal(s)| == |PatchLines(s.diff)| + 14
    ensures Plain(s.path) ==> OnTerminal(s)[2] == "  target:       " + s.path
    ensures var line := PatchLines(s.diff)[k];
      Plain(line) && (line == "" || line[|line| - 1] != ' ') ==> OnTerminal(s)[12 + k] == line
  {
    ScreenShows(s);
    hide OnTerminal, EscapedField, EscapeLine, PatchLines, OneLine, Plain;
    if Plain(s.path) { PlainField(s.path); }
    var line := PatchLines(s.diff)[k];
    if Plain(line) && (line == "" || line[|line| - 1] != ' ') { PlainLine(line); }
  }

  /** The pre-state line says whether the target exists, and if so how many bytes it has. */
  lemma SummaryExact(read: Result<Option<bytes>, ReadFault>)
    ensures PrestateSummary(read) == "unavailable" <==> read.Failure?
    ensures PrestateSummary(read) == "target does not exist " + "(this change creates it)" <==> read == Success(None)
    ensures read.Success? && read.value.Some? ==>
      exists d :: PrestateSummary(read) == "target exists (" + d + " bytes)" && AllDigits(d, 10) && Value(d, 10) == |read.value.value|
  {
    CreatesText();
    if read.Success? && read.value.Some? {
      var d := Render(|read.value.value|, 10);
      RenderRoundTrip(|read.value.value|, 10);
      hide Render, Value, CREATES;
      ExistsDiffers(d);
    }
  }

  lemma ExistsDiffers(d: string)
    ensures "target exists (" + d + " bytes)" != CREATES && "target exists (" + d + " bytes)" != "unavailable"
  {
    CreatesText();
    hide CREATES;
    var t := "target exists (" + d + " bytes)";
    assert t[7] == 'e' && t[0] == 't';
  }

  lemma CreatesText()
    ensures |CREATES| == 46 && CREATES[7] == 'd'
  {
  }
}
