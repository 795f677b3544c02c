/** The validator of unified diffs: a declarative grammar, and the index-driven recogniser that decides it. */
module Diff {
  import opened Prelude
  import opened Hunks
  import Paths
  import Utf8

  const MAX_DIFF_BYTES := 1_000_000
  const MAX_DIFF_LINES := 20_000
  const MAX_HUNKS := 2_000
  const MAX_LINE_LENGTH := 10_000

  const NO_NEWLINE_MARKER := "\\ No newline at end of file"

  datatype Reason = TooLarge | Binary | Malformed | MultipleFiles | Truncated | NoHunks | PathMismatch

  // ---- lines ----------------------------------------------------------------------------------

  /** `text.replace("\r\n", "\n")`. */
  function CrLfToLf(s: string): string {
    if s == "" then "" else if "\r\n" <= s then "\n" + CrLfToLf(s[2..]) else [s[0]] + CrLfToLf(s[1..])
  }

  /** `text.replace("\r", "\n")`. */
  function CrToLf(s: string): (r: string)
    ensures |r| == |s|
  {
    if s == "" then "" else [if s[0] == '\r' then '\n' else s[0]] + CrToLf(s[1..])
  }

  function Lines(diff: string): (r: seq<string>)
    ensures |r| >= 1
  {
    Split(CrToLf(CrLfToLf(diff)), '\n')
  }

  /** The two texts do not cut a CR LF in two. */
  predicate Apart(a: string, b: string) { a == "" || b == "" || a[|a| - 1] != '\r' || b[0] != '\n' }

  lemma {:induction false} CrLfAppend(a: string, b: string)
    requires Apart(a, b)
    ensures CrLfToLf(a + b) == CrLfToLf(a) + CrLfToLf(b)
    decreases |a|
  {
    if a == "" {
      assert a + b == b;
    } else if "\r\n" <= a {
      assert (a + b)[2..] == a[2..] + b;
      CrLfAppend(a[2..], b);
    } else {
      assert (a + b)[1..] == a[1..] + b;
      assert !("\r\n" <= a + b) by { if |a| == 1 && b != "" { assert (a + b)[1] == b[0]; } }
      CrLfAppend(a[1..], b);
    }
  }

  lemma {:induction false} CrAppend(a: string, b: string)
    ensures CrToLf(a + b) == CrToLf(a) + CrToLf(b)
  {
    if a == "" {
      assert a + b == b;
    } else {
      assert (a + b)[1..] == a[1..] + b;
      CrAppend(a[1..], b);
    }
  }

  lemma OneEnd(end: string)
    requires end in {"\r\n", "\n", "\r"}
    ensures CrToLf(CrLfToLf(end)) == "\n"
  {
    assert end[1..] == if end == "\r\n" then "\n" else "";
    assert end == "\r\n" ==> end[2..] == "";
    assert CrLfToLf(end) == "\n" || CrLfToLf(end) == "\r";
  }

  /** A text is its lines: each of the three line ends, wherever it stands as one, cuts the text in two. */
  lemma LinesCut(a: string, end: string, b: string)
    requires end == "\r\n" || (end == "\n" && Apart(a, end)) || (end == "\r" && Apart(end, b))
    ensures Lines(a + end + b) == Lines(a) + Lines(b)
  {
    hide CrLfToLf, CrToLf, Split;
    CrLfAppend(a, end);
    assert Apart(a + end, b);
    CrLfAppend(a + end, b);
    CrAppend(CrLfToLf(a), CrLfToLf(end));
    CrAppend(CrLfToLf(a) + CrLfToLf(end), CrLfToLf(b));
    OneEnd(end);
    SplitAppend(CrToLf(CrLfToLf(a)), '\n', CrToLf(CrLfToLf(b)));
  }

  /** A text without line ends is its one line. */
  lemma {:induction false} LineWhole(s: string)
    requires '\n' !in s && '\r' !in s
    ensures CrLfToLf(s) == s && CrToLf(s) == s && Lines(s) == [s]
  {
    SplitNoSeparator(s, '\n');
    if s != "" {
      assert s[0] in s && s == [s[0]] + s[1..];
      LineWhole(s[1..]);
    }
  }

  // ---- the grammar -------------------------------------------------------------------------------

  /** How many old and new lines one body line stands for; a marker stands for none. */
  function Weight(line: string): (nat, nat) {
    if line != "" && line[0] == ' ' then (1, 1)
    else if line != "" && line[0] == '+' then (0, 1)
    else if line != "" && line[0] == '-' then (1, 0)
    else (0, 0)
  }

  predicate BodyLine(line: string) {
    line == NO_NEWLINE_MARKER || (line != "" && line[0] in {' ', '+', '-'})
  }

  function Tally(body: seq<string>): (nat, nat) {
    if body == [] then (0, 0)
    else
      var t, w := Tally(body[..|body| - 1]), Weight(body[|body| - 1]);
      (t.0 + w.0, t.1 + w.1)
  }

  datatype Hunk = Hunk(header: string, body: seq<string>)

  predicate AllBody(body: seq<string>) { forall k :: 0 <= k < |body| ==> BodyLine(body[k]) }

  /** The header reads, every line under it is a body line, and the tallies are the header's counts. */
  predicate HunkOk(h: Hunk) {
    ReadHeader(h.header) == Some(Tally(h.body)) && AllBody(h.body)
  }

  function HunkLines(h: Hunk): seq<string> { [h.header] + h.body }

  function Flatten(hs: seq<Hunk>): seq<string> {
    if hs == [] then [] else HunkLines(hs[0]) + Flatten(hs[1..])
  }

  predicate AllOk(hs: seq<Hunk>) { forall k :: 0 <= k < |hs| ==> HunkOk(hs[k]) }

  /** At most one empty line, last: what a final newline leaves behind when a text is split. */
  predicate TailOk(tail: seq<string>) { tail == [] || tail == [""] }

  /** Complete hunks, and then some other lines. */
  predicate Consumed(lines: seq<string>, hs: seq<Hunk>, rest: seq<string>) {
    lines == Flatten(hs) + rest && AllOk(hs)
  }

  /** The last of the hunks has all of the markers that follow its body. */
  predicate CleanCut(hs: seq<Hunk>, rest: seq<string>) {
    hs == [] || rest == [] || rest[0] != NO_NEWLINE_MARKER
  }

  /** The lines after the two file headers, split into hunks and the final empty line. */
  predicate Splits(lines: seq<string>, hs: seq<Hunk>, tail: seq<string>) {
    Consumed(lines, hs, tail) && TailOk(tail)
  }

  datatype Side = DevNull | Invalid | At(parts: seq<string>)

  function Resolved(nfc: Paths.Mapping, fold: Paths.Mapping, raw: string, prefix: string): Side {
    if raw == "/dev/null" then DevNull
    else
      var parts := Paths.Normalize(nfc, fold, if prefix <= raw then raw[|prefix|..] else raw);
      if parts.None? then Invalid else At(parts.value)
  }

  /** Every side names the target or no file, and one of them names the target. */
  predicate SidesMatch(minus: Side, plus: Side, target: seq<string>) {
    minus in {DevNull, At(target)} && plus in {DevNull, At(target)} && !(minus.DevNull? && plus.DevNull?)
  }

  predicate PathsMatch(nfc: Paths.Mapping, fold: Paths.Mapping, minus: string, plus: string, target: seq<string>) {
    SidesMatch(Resolved(nfc, fold, minus, "a/"), Resolved(nfc, fold, plus, "b/"), target)
  }

  predicate TwoHeaders(nfc: Paths.Mapping, fold: Paths.Mapping, lines: seq<string>, target: seq<string>) {
    |lines| >= 2 && "--- " <= lines[0] && "+++ " <= lines[1]
    && PathsMatch(nfc, fold, lines[0][4..], lines[1][4..], target)
  }

  /** Some number of hunks, `before` ones having gone already: at least one in all, and not too many. */
  ghost predicate Hunked(lines: seq<string>, before: nat) {
    exists hs, tail :: Splits(lines, hs, tail) && 1 <= before + |hs| <= MAX_HUNKS
  }

  predicate Small(diff: string) {
    && |Utf8.Encode(diff)| <= MAX_DIFF_BYTES && |Lines(diff)| <= MAX_DIFF_LINES
    && forall k :: 0 <= k < |Lines(diff)| ==> |Lines(diff)[k]| <= MAX_LINE_LENGTH
  }

  /** The language of accepted diffs. */
  ghost predicate Accepts(nfc: Paths.Mapping, fold: Paths.Mapping, diff: string, target: seq<string>) {
    Small(diff) && TwoHeaders(nfc, fold, Lines(diff), target) && Hunked(Lines(diff)[2..], 0)
  }

  // ---- a body ends in exactly one place ------------------------------------------------------------

  predicate Short(t: (nat, nat), counts: (nat, nat)) { t.0 < counts.0 || t.1 < counts.1 }

  /** A body that starts these lines: it meets the counts and is not followed by a marker. */
  predicate BodyAt(lines: seq<string>, n: nat, counts: (nat, nat)) {
    && n <= |lines| && AllBody(lines[..n]) && Tally(lines[..n]) == counts
    && (n < |lines| ==> lines[n] != NO_NEWLINE_MARKER)
  }

  lemma {:induction false} TallyGrows(lines: seq<string>, m: nat, n: nat)
    requires m <= n <= |lines|
    ensures Tally(lines[..m]).0 <= Tally(lines[..n]).0 && Tally(lines[..m]).1 <= Tally(lines[..n]).1
    decreases n
  {
    if m < n {
      TallyGrows(lines, m, n - 1);
      TallyStep(lines, n - 1);
    }
  }

  lemma TallyStep(lines: seq<string>, n: nat)
    requires n < |lines|
    ensures var t, u, w := Tally(lines[..n]), Tally(lines[..n + 1]), Weight(lines[n]);
      u == (t.0 + w.0, t.1 + w.1)
  {
    assert lines[..n + 1][..n] == lines[..n];
  }

  lemma MarkerOnly(line: string)
    requires BodyLine(line) && Weight(line) == (0, 0)
    ensures line == NO_NEWLINE_MARKER
  {
  }

  lemma BodyAtUnique(lines: seq<string>, m: nat, n: nat, counts: (nat, nat))
    requires BodyAt(lines, m, counts) && BodyAt(lines, n, counts)
    ensures m == n
  {
    BodyAtOrder(lines, m, n, counts);
    BodyAtOrder(lines, n, m, counts);
  }

  lemma BodyAtOrder(lines: seq<string>, m: nat, n: nat, counts: (nat, nat))
    requires BodyAt(lines, m, counts) && BodyAt(lines, n, counts)
    ensures m >= n
  {
    if m < n { MarkerAfter(lines, m, n, counts); }
  }

  /** If a longer body meets the counts too, what stands after the shorter one is a marker. */
  lemma MarkerAfter(lines: seq<string>, m: nat, n: nat, counts: (nat, nat))
    requires m < n && BodyAt(lines, n, counts) && Tally(lines[..m]) == counts
    ensures lines[m] == NO_NEWLINE_MARKER
  {
    TallyStep(lines, m);
    TallyGrows(lines, m + 1, n);
    BodyWithin(lines, n, m);
    MarkerOnly(lines[m]);
  }

  /** Body lines whose tally is short of the counts, stopped by a line that is none or by the end. */
  predicate Stuck(lines: seq<string>, n: nat, counts: (nat, nat)) {
    n <= |lines| && AllBody(lines[..n]) && Short(Tally(lines[..n]), counts) && (n < |lines| ==> !BodyLine(lines[n]))
  }

  lemma BodyWithin(lines: seq<string>, m: nat, n: nat)
    requires n < m <= |lines| && AllBody(lines[..m])
    ensures BodyLine(lines[n])
  {
    hide BodyLine;
    assert lines[..m][n] == lines[n];
  }

  lemma StuckNoBody(lines: seq<string>, n: nat, counts: (nat, nat), m: nat)
    requires Stuck(lines, n, counts)
    ensures !BodyAt(lines, m, counts)
  {
    if BodyAt(lines, m, counts) {
      if m <= n {
        TallyGrows(lines, m, n);
      } else {
        BodyWithin(lines, m, n);
      }
    }
  }

  /** Body lines whose tally passed the counts without meeting them. */
  predicate Overshot(lines: seq<string>, n: nat, counts: (nat, nat)) {
    && n <= |lines| && AllBody(lines[..n]) && !Short(Tally(lines[..n]), counts) && Tally(lines[..n]) != counts
    && forall k :: 0 <= k < n ==> Short(Tally(lines[..k]), counts)
  }

  lemma OvershotNoBody(lines: seq<string>, n: nat, counts: (nat, nat), m: nat)
    requires Overshot(lines, n, counts)
    ensures !BodyAt(lines, m, counts)
  {
    if BodyAt(lines, m, counts) && m >= n {
      TallyGrows(lines, n, m);
    }
  }

  lemma StuckOnce(lines: seq<string>, m: nat, n: nat, counts: (nat, nat))
    requires Stuck(lines, m, counts) && Stuck(lines, n, counts)
    ensures m == n
  {
    if m < n { BodyWithin(lines, n, m); }
    if n < m { BodyWithin(lines, m, n); }
  }

  lemma StuckNotOvershot(lines: seq<string>, m: nat, n: nat, counts: (nat, nat))
    requires Stuck(lines, m, counts)
    ensures !Overshot(lines, n, counts)
  {
    if Overshot(lines, n, counts) {
      if n <= m {
        TallyGrows(lines, n, m);
      } else {
        BodyWithin(lines, n, m);
      }
    }
  }

  // ---- splitting off one hunk -----------------------------------------------------------------------

  lemma HeaderStart(line: string)
    requires ReadHeader(line).Some?
    ensures "@@ -" <= line && line != "" && line != NO_NEWLINE_MARKER && !BodyLine(line)
  {
    hide ReadRange, CountOf;
    assert line[0] == '@' && NO_NEWLINE_MARKER[0] == '\\';
  }

  /** What stands after the first hunk. */
  function After(hs: seq<Hunk>, tail: seq<string>): seq<string>
    requires hs != []
  {
    Flatten(hs[1..]) + tail
  }

  lemma Regroup(header: string, body: seq<string>, more: seq<string>, tail: seq<string>)
    ensures ([header] + body) + more + tail == [header] + (body + (more + tail))
  {
  }

  lemma Unfold(lines: seq<string>, hs: seq<Hunk>, tail: seq<string>)
    requires Consumed(lines, hs, tail) && hs != []
    ensures lines == [hs[0].header] + (hs[0].body + After(hs, tail)) && HunkOk(hs[0])
    ensures Consumed(After(hs, tail), hs[1..], tail)
  {
    hide HunkOk;
    Regroup(hs[0].header, hs[0].body, Flatten(hs[1..]), tail);
  }

  lemma NoMarkerNext(lines: seq<string>, hs: seq<Hunk>, tail: seq<string>)
    requires Consumed(lines, hs, tail) && lines != [] && (tail == [] || tail[0] != NO_NEWLINE_MARKER)
    ensures lines[0] != NO_NEWLINE_MARKER
  {
    if hs == [] {
      assert lines == tail;
    } else {
      Unfold(lines, hs, tail);
      hide ReadHeader;
      HeaderStart(hs[0].header);
    }
  }

  lemma BodyHere(body: seq<string>, rest: seq<string>)
    requires AllBody(body) && (rest != [] ==> rest[0] != NO_NEWLINE_MARKER)
    ensures BodyAt(body + rest, |body|, Tally(body)) && (body + rest)[..|body|] == body && (body + rest)[|body|..] == rest
  {
    hide BodyLine, Tally, NO_NEWLINE_MARKER;
    assert (body + rest)[..|body|] == body;
  }

  /** The first hunk's body ends where a body of these lines must end. */
  lemma FirstConsumed(lines: seq<string>, hs: seq<Hunk>, tail: seq<string>)
    requires Consumed(lines, hs, tail) && hs != [] && CleanCut(hs, tail)
    ensures lines != [] && hs[0].header == lines[0] && BodyAt(lines[1..], |hs[0].body|, Tally(hs[0].body))
    ensures |hs[0].body| <= |lines[1..]| && lines[1..][..|hs[0].body|] == hs[0].body
    ensures ReadHeader(lines[0]) == Some(Tally(hs[0].body))
    ensures Consumed(lines[1..][|hs[0].body|..], hs[1..], tail) && CleanCut(hs[1..], tail)
  {
    hide Consumed, After, ReadHeader, BodyAt, AllBody, NO_NEWLINE_MARKER;
    Unfold(lines, hs, tail);
    var rest := After(hs, tail);
    assert lines[1..] == hs[0].body + rest;
    if rest != [] { NoMarkerNext(rest, hs[1..], tail); }
    BodyHere(hs[0].body, rest);
  }

  lemma TailClean(hs: seq<Hunk>, tail: seq<string>)
    requires TailOk(tail)
    ensures CleanCut(hs, tail)
  {
    assert NO_NEWLINE_MARKER != "";
  }

  lemma FirstBody(lines: seq<string>, hs: seq<Hunk>, tail: seq<string>)
    requires Splits(lines, hs, tail) && hs != []
    ensures lines != [] && hs[0].header == lines[0] && BodyAt(lines[1..], |hs[0].body|, Tally(hs[0].body))
    ensures |hs[0].body| <= |lines[1..]| && lines[1..][..|hs[0].body|] == hs[0].body
    ensures ReadHeader(lines[0]) == Some(Tally(hs[0].body))
    ensures Splits(lines[1..][|hs[0].body|..], hs[1..], tail)
  {
    hide Consumed, CleanCut, ReadHeader, BodyAt, AllBody;
    TailClean(hs, tail);
    FirstConsumed(lines, hs, tail);
  }

  lemma OnlyTail(lines: seq<string>, tail: seq<string>)
    requires Splits(lines, [], tail)
    ensures lines == tail
  {
  }

  /** A split of lines that start with a header splits off a hunk there. */
  lemma StartsWithHunk(lines: seq<string>, hs: seq<Hunk>, tail: seq<string>)
    requires Splits(lines, hs, tail) && lines != [] && lines != [""]
    ensures hs != [] && ReadHeader(lines[0]).Some?
  {
    hide ReadHeader;
    if hs == [] {
      OnlyTail(lines, tail);
    } else {
      FirstBody(lines, hs, tail);
    }
  }

  lemma PutBack(lines: seq<string>, n: nat, hs: seq<Hunk>, tail: seq<string>)
    requires lines != [] && n <= |lines| - 1
    requires ReadHeader(lines[0]) == Some(Tally(lines[1..][..n])) && AllBody(lines[1..][..n])
    requires Splits(lines[1..][n..], hs, tail)
    ensures Splits(lines, [Hunk(lines[0], lines[1..][..n])] + hs, tail)
  {
    hide ReadHeader, Tally, BodyLine, NO_NEWLINE_MARKER, Flatten, TailOk, AllBody;
    var body := lines[1..][..n];
    OneMore(Hunk(lines[0], body), hs);
    Regroup(lines[0], body, Flatten(hs), tail);
    assert lines[1..] == body + lines[1..][n..];
    assert lines == [lines[0]] + lines[1..];
  }

  lemma OneMore(h: Hunk, hs: seq<Hunk>)
    ensures Flatten([h] + hs) == [h.header] + h.body + Flatten(hs)
    ensures HunkOk(h) && AllOk(hs) ==> AllOk([h] + hs)
  {
    hide HunkOk;
    assert ([h] + hs)[1..] == hs;
  }

  lemma PeelOff(lines: seq<string>, n: nat, before: nat)
    requires lines != [] && ReadHeader(lines[0]).Some? && BodyAt(lines[1..], n, ReadHeader(lines[0]).value)
    requires n <= |lines[1..]| && lines != [""] && Hunked(lines, before)
    ensures Hunked(lines[1..][n..], before + 1)
  {
    hide ReadHeader, BodyAt, Splits;
    var hs: seq<Hunk>, tail :| Splits(lines, hs, tail) && 1 <= before + |hs| <= MAX_HUNKS;
    StartsWithHunk(lines, hs, tail);
    FirstBody(lines, hs, tail);
    BodyAtUnique(lines[1..], n, |hs[0].body|, ReadHeader(lines[0]).value);
  }

  lemma PeelBack(lines: seq<string>, n: nat, before: nat)
    requires lines != [] && n <= |lines[1..]| && Hunked(lines[1..][n..], before + 1)
    requires ReadHeader(lines[0]) == Some(Tally(lines[1..][..n])) && AllBody(lines[1..][..n])
    ensures Hunked(lines, before)
  {
    hide ReadHeader, Splits, Tally, AllBody;
    var hs: seq<Hunk>, tail :| Splits(lines[1..][n..], hs, tail) && 1 <= before + 1 + |hs| <= MAX_HUNKS;
    PutBack(lines, n, hs, tail);
  }

  /** Peeling a complete hunk off does not change whether the lines can be split. */
  lemma PeelHunk(lines: seq<string>, n: nat, before: nat)
    requires lines != [] && ReadHeader(lines[0]).Some? && BodyAt(lines[1..], n, ReadHeader(lines[0]).value)
    ensures n <= |lines[1..]| && (Hunked(lines, before) <==> Hunked(lines[1..][n..], before + 1))
  {
    BodyParts(lines[1..], n, ReadHeader(lines[0]).value);
    HeaderStart(lines[0]);
    hide ReadHeader, BodyAt, Hunked, Tally, AllBody, BodyLine, NO_NEWLINE_MARKER;
    if Hunked(lines, before) { PeelOff(lines, n, before); }
    if Hunked(lines[1..][n..], before + 1) { PeelBack(lines, n, before); }
  }

  lemma BodyParts(lines: seq<string>, n: nat, counts: (nat, nat))
    requires BodyAt(lines, n, counts)
    ensures n <= |lines| && AllBody(lines[..n]) && Tally(lines[..n]) == counts
  {
  }

  /** Without a complete body under the first line, there is no split. */
  lemma NoHunk(lines: seq<string>, before: nat)
    requires lines != [] && lines != [""]
    requires ReadHeader(lines[0]).Some? ==> forall n :: !BodyAt(lines[1..], n, ReadHeader(lines[0]).value)
    ensures !Hunked(lines, before)
  {
    hide ReadHeader, BodyAt, Splits;
    if Hunked(lines, before) {
      var hs: seq<Hunk>, tail :| Splits(lines, hs, tail) && 1 <= before + |hs| <= MAX_HUNKS;
      StartsWithHunk(lines, hs, tail);
      FirstBody(lines, hs, tail);
    }
  }

  lemma AtEnd(lines: seq<string>, before: nat)
    requires lines == [] || lines == [""]
    ensures Hunked(lines, before) <==> 1 <= before <= MAX_HUNKS
  {
    hide ReadHeader;
    if Hunked(lines, before) {
      var hs: seq<Hunk>, tail :| Splits(lines, hs, tail) && 1 <= before + |hs| <= MAX_HUNKS;
      if hs != [] {
        FirstBody(lines, hs, tail);
        HeaderStart(lines[0]);
      }
    }
    if 1 <= before <= MAX_HUNKS {
      assert Flatten([]) + lines == lines;
      assert Splits(lines, [], lines);
    }
  }

  lemma TooMany(lines: seq<string>, before: nat)
    requires before > MAX_HUNKS
    ensures !Hunked(lines, before)
  {
  }

  // ---- the split is unique, and the binary check costs nothing ----------------------------------------

  /** Every line belongs to exactly one header, body or tail: a text splits in one way at most. */
  lemma {:induction false} SplitUnique(lines: seq<string>, hs: seq<Hunk>, t: seq<string>, js: seq<Hunk>, u: seq<string>)
    requires Splits(lines, hs, t) && Splits(lines, js, u)
    ensures hs == js && t == u
    decreases |hs|
  {
    hide ReadHeader, BodyAt, Splits;
    if hs == [] {
      EmptySplit(lines, hs, t, js, u);
    } else if js == [] {
      EmptySplit(lines, js, u, hs, t);
    } else {
      FirstBody(lines, hs, t);
      FirstBody(lines, js, u);
      BodyAtUnique(lines[1..], |hs[0].body|, |js[0].body|, ReadHeader(lines[0]).value);
      SplitUnique(lines[1..][|hs[0].body|..], hs[1..], t, js[1..], u);
      assert hs == [hs[0]] + hs[1..] && js == [js[0]] + js[1..];
    }
  }

  lemma EmptySplit(lines: seq<string>, hs: seq<Hunk>, t: seq<string>, js: seq<Hunk>, u: seq<string>)
    requires Splits(lines, hs, t) && Splits(lines, js, u) && hs == []
    ensures js == [] && t == u
  {
    hide ReadHeader;
    assert lines == t;
    if js != [] {
      FirstBody(lines, js, u);
      HeaderStart(lines[0]);
    } else {
      assert lines == u;
    }
  }

  predicate BinaryMarker(line: string) {
    "GIT binary patch" <= line
    || ("Binary files " <= line && |line| >= 7 && line[|line| - 7..] == " differ")
  }

  /** A marker starts with the words of a binary patch, or starts and ends as a notice that files differ. */
  lemma BinaryMarkerExact(line: string)
    ensures BinaryMarker(line) <==>
      || (exists rest :: line == "GIT binary patch" + rest)
      || ((exists rest :: line == "Binary files " + rest) && exists start :: line == start + " differ")
  {
    StartsWith("GIT binary patch", line);
    StartsWith("Binary files ", line);
    EndsWith(" differ", line);
  }

  lemma StartsWith(p: string, line: string)
    ensures p <= line <==> exists rest :: line == p + rest
  {
    if p <= line { assert line == p + line[|p|..]; }
  }

  lemma EndsWith(q: string, line: string)
    ensures |line| >= |q| && line[|line| - |q|..] == q <==> exists start :: line == start + q
  {
    if |line| >= |q| && line[|line| - |q|..] == q { assert line == line[..|line| - |q|] + q; }
  }

  /** No line of a grammatical diff looks like a binary marker, so that check rejects none of them. */
  lemma NoBinary(nfc: Paths.Mapping, fold: Paths.Mapping, lines: seq<string>, target: seq<string>)
    requires TwoHeaders(nfc, fold, lines, target) && Hunked(lines[2..], 0)
    ensures forall k :: 0 <= k < |lines| ==> !BinaryMarker(lines[k])
  {
    hide PathsMatch, Splits, NO_NEWLINE_MARKER;
    var hs: seq<Hunk>, tail :| Splits(lines[2..], hs, tail) && 1 <= |hs| <= MAX_HUNKS;
    NoBinaryHunks(lines[2..], hs, tail);
    forall k | 0 <= k < |lines| ensures !BinaryMarker(lines[k]) {
      if k < 2 {
        assert lines[k][0] in {'-', '+'};
      } else {
        assert lines[k] == lines[2..][k - 2];
      }
    }
  }

  lemma {:induction false} NoBinaryHunks(lines: seq<string>, hs: seq<Hunk>, tail: seq<string>)
    requires Splits(lines, hs, tail)
    ensures forall k :: 0 <= k < |lines| ==> !BinaryMarker(lines[k])
    decreases |hs|
  {
    hide ReadHeader;
    if hs == [] {
      assert lines == tail;
    } else {
      FirstBody(lines, hs, tail);
      HeaderStart(lines[0]);
      var n := |hs[0].body|;
      NoBinaryHunks(lines[1..][n..], hs[1..], tail);
      forall k | 0 <= k < |lines| ensures !BinaryMarker(lines[k]) {
        if 0 < k <= n {
          assert BodyLine(hs[0].body[k - 1]) && lines[k] == hs[0].body[k - 1];
        } else if k > n {
          assert lines[k] == lines[1..][n..][k - 1 - n];
        }
      }
    }
  }

  // ---- the recogniser ----------------------------------------------------------------------------------

  method ResolveDiffPath(nfc: Paths.Mapping, fold: Paths.Mapping, raw: string, prefix: string) returns (side: Side)
    ensures side == Resolved(nfc, fold, raw, prefix)
  {
    if raw == "/dev/null" {
      return DevNull;
    }
    var candidate := if prefix <= raw then raw[|prefix|..] else raw;
    var norm := Paths.NormalizeTarget(nfc, fold, candidate);
    side := if norm.Failure? then Invalid else At(norm.value);
  }

  /** A side is no file, or the path behind its prefix, or the path as it stands where there is no prefix. */
  lemma ResolvedExact(nfc: Paths.Mapping, fold: Paths.Mapping, raw: string, prefix: string)
    ensures Resolved(nfc, fold, raw, prefix) == DevNull <==> raw == "/dev/null"
    ensures raw != "/dev/null" && !(prefix <= raw) ==>
      Resolved(nfc, fold, raw, prefix) ==
        match Paths.Normalize(nfc, fold, raw) { case None => Invalid case Some(parts) => At(parts) }
    ensures prefix + raw != "/dev/null" ==>
      Resolved(nfc, fold, prefix + raw, prefix) ==
        match Paths.Normalize(nfc, fold, raw) { case None => Invalid case Some(parts) => At(parts) }
  {
    hide Paths.Normalize;
    assert (prefix + raw)[|prefix|..] == raw;
  }

  method MatchPaths(nfc: Paths.Mapping, fold: Paths.Mapping, minusRaw: string, plusRaw: string, target: seq<string>)
    returns (r: Option<Reason>)
    ensures r.None? <==> PathsMatch(nfc, fold, minusRaw, plusRaw, target)
    ensures r.Some? ==> r.value == if minusRaw == plusRaw == "/dev/null" then Malformed else PathMismatch
  {
    var minus := ResolveDiffPath(nfc, fold, minusRaw, "a/");
    var plus := ResolveDiffPath(nfc, fold, plusRaw, "b/");
    if minus == DevNull && plus == DevNull {
      return Some(Malformed);
    }
    var sides := [minus, plus];
    for k := 0 to 2
      invariant forall j :: 0 <= j < k ==> sides[j] in {DevNull, At(target)}
    {
      if sides[k] == DevNull {
        continue;
      }
      if sides[k] == Invalid || sides[k] != At(target) {
        return Some(PathMismatch);
      }
    }
    assert sides[0] == minus && sides[1] == plus;
    r := None;
  }

  /** The empty piece that a final newline leaves at the end. */
  predicate FinalEmpty(lines: seq<string>, n: nat) { n < |lines| && lines[n] == "" && n == |lines| - 1 }

  /** A body stops in the middle: at a line that cannot stand in one, or because the lines run out. */
  predicate BadLine(lines: seq<string>, n: nat, counts: (nat, nat)) {
    Stuck(lines, n, counts) && n < |lines| && !FinalEmpty(lines, n)
  }

  predicate RunsOut(lines: seq<string>, n: nat, counts: (nat, nat)) {
    Overshot(lines, n, counts) || (Stuck(lines, n, counts) && (n == |lines| || FinalEmpty(lines, n)))
  }

  /** One body stops for one reason at most, and one that stops is not complete. */
  lemma BodyStops(lines: seq<string>, counts: (nat, nat))
    ensures (exists n :: BadLine(lines, n, counts)) ==> !exists n :: RunsOut(lines, n, counts)
    ensures (exists n :: BadLine(lines, n, counts)) || (exists n :: RunsOut(lines, n, counts)) ==>
      forall n :: !BodyAt(lines, n, counts)
  {
    hide Stuck, Overshot, BodyAt, FinalEmpty;
    if n :| BadLine(lines, n, counts) {
      NeverBody(lines, n, counts);
      forall m ensures !RunsOut(lines, m, counts) {
        if m >= 0 && RunsOut(lines, m, counts) {
          StuckNotOvershot(lines, n, m, counts);
          StuckOnce(lines, n, m, counts);
        }
      }
    }
    if n :| RunsOut(lines, n, counts) {
      NeverBody(lines, n, counts);
    }
  }

  lemma StopsBad(lines: seq<string>, n: nat, counts: (nat, nat))
    requires n < |lines| && AllBody(lines[..n]) && Short(Tally(lines[..n]), counts) && !BodyLine(lines[n])
    requires !FinalEmpty(lines, n)
    ensures BadLine(lines, n, counts)
  {
  }

  lemma StopsShort(lines: seq<string>, n: nat, counts: (nat, nat))
    requires n <= |lines| && AllBody(lines[..n]) && Tally(lines[..n]) != counts
    requires forall k :: 0 <= k < n ==> Short(Tally(lines[..k]), counts)
    requires Short(Tally(lines[..n]), counts) ==> n == |lines| || FinalEmpty(lines, n)
    ensures RunsOut(lines, n, counts)
  {
    EmptyIsNoBody();
    hide Tally, BodyLine;
  }

  lemma EmptyIsNoBody()
    ensures !BodyLine("")
  {
  }

  lemma NextBodyLine(lines: seq<string>, n: nat)
    requires n < |lines| && AllBody(lines[..n]) && BodyLine(lines[n])
    ensures AllBody(lines[..n + 1])
  {
    hide BodyLine;
    assert lines[..n + 1] == lines[..n] + [lines[n]];
  }

  lemma MarkerWeight()
    ensures Weight(NO_NEWLINE_MARKER) == (0, 0) && BodyLine(NO_NEWLINE_MARKER)
  {
    assert NO_NEWLINE_MARKER[0] == '\\';
  }

  /** Count body lines until both tallies are reached, then pass over the markers that follow. */
  method ScanBody(lines: seq<string>, counts: (nat, nat)) returns (r: Result<nat, Reason>)
    ensures r.Success? ==> BodyAt(lines, r.value, counts)
    ensures r.Failure? ==> forall n :: !BodyAt(lines, n, counts)
    ensures r.Failure? ==> r.error in {Malformed, Truncated}
    ensures r == Failure(Malformed) <==> exists n :: BadLine(lines, n, counts)
    ensures r == Failure(Truncated) <==> exists n :: RunsOut(lines, n, counts)
  {
    BodyStops(lines, counts);
    hide BadLine, RunsOut;
    hide Tally, AllBody, BodyLine, NO_NEWLINE_MARKER;
    var total := |lines|;
    var index, oldSeen, newSeen := 0, 0, 0;
    NothingYet(lines);
    MarkerWeight();
    EmptyIsNoBody();
    while index < total && (oldSeen < counts.0 || newSeen < counts.1)
      invariant index <= total && AllBody(lines[..index]) && Tally(lines[..index]) == (oldSeen, newSeen)
      invariant forall k :: 0 <= k < index ==> Short(Tally(lines[..k]), counts)
    {
      var body := lines[index];
      BodyStarts(body);
      TallyStep(lines, index);
      if body == "" && index == total - 1 {
        break;
      }
      if body == NO_NEWLINE_MARKER {
        NextBodyLine(lines, index);
        index := index + 1;
        continue;
      }
      if " " <= body {
        oldSeen := oldSeen + 1;
        newSeen := newSeen + 1;
      } else if "+" <= body {
        newSeen := newSeen + 1;
      } else if "-" <= body {
        oldSeen := oldSeen + 1;
      } else {
        StopsBad(lines, index, counts);
        return Failure(Malformed);
      }
      NextBodyLine(lines, index);
      index := index + 1;
    }
    if oldSeen != counts.0 || newSeen != counts.1 {
      StopsShort(lines, index, counts);
      return Failure(Truncated);
    }
    while index < total && lines[index] == NO_NEWLINE_MARKER
      invariant index <= total && AllBody(lines[..index]) && Tally(lines[..index]) == counts
    {
      TallyStep(lines, index);
      NextBodyLine(lines, index);
      index := index + 1;
    }
    r := Success(index);
  }

  lemma NothingYet(lines: seq<string>)
    ensures AllBody(lines[..0]) && Tally(lines[..0]) == (0, 0)
  {
  }

  lemma BodyStarts(line: string)
    ensures Weight(line) ==
      if " " <= line then (1, 1) else if "+" <= line then (0, 1) else if "-" <= line then (1, 0) else (0, 0)
    ensures BodyLine(line) <==> line == NO_NEWLINE_MARKER || " " <= line || "+" <= line || "-" <= line
  {
    hide NO_NEWLINE_MARKER;
  }

  lemma NeverBody(lines: seq<string>, n: nat, counts: (nat, nat))
    requires Stuck(lines, n, counts) || Overshot(lines, n, counts)
    ensures forall m :: !BodyAt(lines, m, counts)
  {
    hide BodyAt, Stuck, Overshot;
    forall m ensures !BodyAt(lines, m, counts) {
      if m >= 0 {
        if Stuck(lines, n, counts) { StuckNoBody(lines, n, counts, m); } else { OvershotNoBody(lines, n, counts, m); }
      }
    }
  }

  lemma {:induction false} FlattenAppend(hs: seq<Hunk>, h: Hunk)
    ensures Flatten(hs + [h]) == Flatten(hs) + HunkLines(h)
  {
    hide HunkLines;
    if hs == [] {
      assert [h][1..] == [];
      assert [] + [h] == [h];
    } else {
      assert (hs + [h])[1..] == hs[1..] + [h];
      FlattenAppend(hs[1..], h);
    }
  }

  /** Why a scan stops at these lines, with `n` hunks behind it. */
  predicate Stops(rest: seq<string>, n: nat, why: Reason) {
    if n > MAX_HUNKS then why == TooLarge
    else if rest == [] || rest == [""] then n == 0 && why == NoHunks
    else if !("@@ " <= rest[0]) then
      why == if "--- " <= rest[0] || "+++ " <= rest[0] || "diff --git" <= rest[0] then MultipleFiles else Malformed
    else if ReadHeader(rest[0]).None? then why == Malformed
    else
      var counts := ReadHeader(rest[0]).value;
      || (why == Malformed && exists k | 0 <= k < |rest| :: BadLine(rest[1..], k, counts))
      || (why == Truncated && exists k | 0 <= k < |rest| :: RunsOut(rest[1..], k, counts))
  }

  /** Complete hunks come first, markers and all, and then the place the refusal is about. */
  ghost predicate Explained(lines: seq<string>, why: Reason) {
    exists hs: seq<Hunk>, rest :: Consumed(lines, hs, rest) && CleanCut(hs, rest) && Stops(rest, |hs|, why)
  }

  // ---- one verdict ----------------------------------------------------------------------------------------

  /** How a scan ends at these lines, with `n` hunks behind it: well, or for a reason. */
  predicate Ends(rest: seq<string>, n: nat, v: Option<Reason>) {
    match v
    case None => (rest == [] || rest == [""]) && 1 <= n <= MAX_HUNKS
    case Some(why) => Stops(rest, n, why)
  }

  lemma EndsOnce(rest: seq<string>, n: nat, v: Option<Reason>, w: Option<Reason>)
    requires Ends(rest, n, v) && Ends(rest, n, w)
    ensures v == w
  {
    hide ReadHeader, BadLine, RunsOut;
    if rest != [] && ReadHeader(rest[0]).Some? {
      BodyStops(rest[1..], ReadHeader(rest[0]).value);
    }
  }

  /** A scan does not end where a complete hunk stands, short of the hunk cap. */
  lemma NoEndAtHunk(lines: seq<string>, n: nat, v: Option<Reason>, hs: seq<Hunk>, tail: seq<string>)
    requires Consumed(lines, hs, tail) && hs != [] && CleanCut(hs, tail) && Ends(lines, n, v)
    ensures n > MAX_HUNKS && v == Some(TooLarge)
  {
    hide ReadHeader, BadLine, RunsOut, BodyAt, Tally, Consumed, BodyLine;
    FirstConsumed(lines, hs, tail);
    if !("@@ " <= lines[0]) { NotHeader(lines[0]); }
    HeaderStart(lines[0]);
    BodyStops(lines[1..], ReadHeader(lines[0]).value);
  }

  lemma {:induction false} VerdictOnce(
      lines: seq<string>, before: nat, hs: seq<Hunk>, rest: seq<string>, v: Option<Reason>,
      js: seq<Hunk>, more: seq<string>, w: Option<Reason>)
    requires Consumed(lines, hs, rest) && CleanCut(hs, rest) && Ends(rest, before + |hs|, v)
    requires Consumed(lines, js, more) && CleanCut(js, more) && Ends(more, before + |js|, w)
    ensures v == w
    decreases |hs|
  {
    hide *;
    if hs == [] && js == [] {
      OnlyRest(lines, rest);
      OnlyRest(lines, more);
      EndsOnce(lines, before, v, w);
    } else if hs == [] {
      OnlyRest(lines, rest);
      NoEndAtHunk(lines, before, v, js, more);
      PastCap(more, before + |js|, w);
    } else if js == [] {
      OnlyRest(lines, more);
      NoEndAtHunk(lines, before, w, hs, rest);
      PastCap(rest, before + |hs|, v);
    } else {
      FirstConsumed(lines, hs, rest);
      FirstConsumed(lines, js, more);
      BodyAtUnique(lines[1..], |hs[0].body|, |js[0].body|, ReadHeader(lines[0]).value);
      VerdictOnce(lines[1..][|hs[0].body|..], before + 1, hs[1..], rest, v, js[1..], more, w);
    }
  }

  lemma OnlyRest(lines: seq<string>, rest: seq<string>)
    requires Consumed(lines, [], rest)
    ensures lines == rest
  {
  }

  lemma PastCap(rest: seq<string>, n: nat, v: Option<Reason>)
    requires Ends(rest, n, v) && n > MAX_HUNKS
    ensures v == Some(TooLarge)
  {
    hide ReadHeader, BadLine, RunsOut;
  }

  /** Lines have one verdict: a refusal has one reason, and lines that split are not refused. */
  lemma ExplainedOnce(lines: seq<string>, why: Reason)
    requires Explained(lines, why)
    ensures !Hunked(lines, 0) && forall other :: Explained(lines, other) ==> other == why
  {
    hide Consumed, CleanCut, Stops, TailOk;
    var hs: seq<Hunk>, rest :| Consumed(lines, hs, rest) && CleanCut(hs, rest) && Stops(rest, |hs|, why);
    if Hunked(lines, 0) {
      var js: seq<Hunk>, tail :| Splits(lines, js, tail) && 1 <= 0 + |js| <= MAX_HUNKS;
      TailClean(js, tail);
      TailEnds(tail, |js|);
      VerdictOnce(lines, 0, hs, rest, Some(why), js, tail, None);
    }
    forall other | Explained(lines, other) ensures other == why {
      var js: seq<Hunk>, more :| Consumed(lines, js, more) && CleanCut(js, more) && Stops(more, |js|, other);
      VerdictOnce(lines, 0, hs, rest, Some(why), js, more, Some(other));
    }
  }

  lemma TailEnds(tail: seq<string>, n: nat)
    requires TailOk(tail) && 1 <= n <= MAX_HUNKS
    ensures Ends(tail, n, None)
  {
  }

  lemma ConsumeHunk(lines: seq<string>, hs: seq<Hunk>, rest: seq<string>, n: nat)
    requires Consumed(lines, hs, rest) && rest != [] && ReadHeader(rest[0]).Some?
    requires BodyAt(rest[1..], n, ReadHeader(rest[0]).value)
    ensures n <= |rest[1..]|
    ensures Consumed(lines, hs + [Hunk(rest[0], rest[1..][..n])], rest[1..][n..])
    ensures CleanCut(hs + [Hunk(rest[0], rest[1..][..n])], rest[1..][n..])
  {
    hide ReadHeader, Tally, BodyLine, NO_NEWLINE_MARKER;
    var h := Hunk(rest[0], rest[1..][..n]);
    FlattenAppend(hs, h);
    assert rest == HunkLines(h) + rest[1..][n..];
    assert HunkOk(h);
  }

  /** The hunks and the final empty line, from the line after the two file headers on. */
  method ScanHunks(lines: seq<string>) returns (r: Option<Reason>)
    ensures r.None? <==> Hunked(lines, 0)
    ensures r.Some? ==> Explained(lines, r.value)
  {
    hide Hunked, ReadHeader, BodyAt, Consumed, CleanCut, BadLine, RunsOut, Explained;
    var total := |lines|;
    var index, hunks := 0, 0;
    ghost var hs: seq<Hunk> := [];
    assert lines[0..] == lines;
    NothingConsumed(lines);
    assert AtIndex(lines, 0, lines);
    while index < total
      invariant 0 <= index <= total && hunks == |hs| <= MAX_HUNKS
      invariant Hunked(lines, 0) <==> Hunked(lines[index..], hunks)
      invariant exists rest :: Consumed(lines, hs, rest) && CleanCut(hs, rest) && AtIndex(lines, index, rest)
      decreases total - index
    {
      var rest := lines[index..];
      assert Consumed(lines, hs, rest) && CleanCut(hs, rest);
      var line := lines[index];
      if line == "" && index == total - 1 {
        assert rest == [""];
        AtEnd(rest, hunks);
        index := index + 1;
        AtEnd(lines[index..], hunks);
        assert AtIndex(lines, index, [""]);
        continue;
      }
      if !("@@ " <= line) {
        NotHeader(line);
        NoHunk(rest, hunks);
        r := Some(if "--- " <= line || "+++ " <= line || "diff --git" <= line then MultipleFiles else Malformed);
        ExplainedBy(lines, hs, rest, r.value);
        return;
      }
      var header := ReadHeader(line);
      if header.None? {
        NoHunk(rest, hunks);
        ExplainedBy(lines, hs, rest, Malformed);
        return Some(Malformed);
      }
      var body := ScanBody(rest[1..], header.value);
      if body.Failure? {
        NoHunk(rest, hunks);
        StopsInBody(rest, hunks, body.error);
        ExplainedBy(lines, hs, rest, body.error);
        return Some(body.error);
      }
      PeelHunk(rest, body.value, hunks);
      ConsumeHunk(lines, hs, rest, body.value);
      hs := hs + [Hunk(line, rest[1..][..body.value])];
      assert rest[1..][body.value..] == lines[index + 1 + body.value..];
      index := index + 1 + body.value;
      hunks := hunks + 1;
      assert AtIndex(lines, index, lines[index..]);
      if hunks > MAX_HUNKS {
        TooMany(lines[index..], hunks);
        ExplainedBy(lines, hs, lines[index..], TooLarge);
        return Some(TooLarge);
      }
    }
    assert lines[total..] == [];
    AtEnd([], hunks);
    r := if hunks == 0 then Some(NoHunks) else None;
    if hunks == 0 {
      ghost var rest :| Consumed(lines, hs, rest) && CleanCut(hs, rest) && AtIndex(lines, index, rest);
      ExplainedBy(lines, hs, rest, NoHunks);
    }
  }

  lemma ExplainedBy(lines: seq<string>, hs: seq<Hunk>, rest: seq<string>, why: Reason)
    requires Consumed(lines, hs, rest) && CleanCut(hs, rest) && Stops(rest, |hs|, why)
    ensures Explained(lines, why)
  {
    hide Consumed, CleanCut, Stops;
  }

  /** The lines from the index on, or the final empty line that the scan has passed. */
  predicate AtIndex(lines: seq<string>, index: nat, rest: seq<string>)
    requires index <= |lines|
  {
    rest == lines[index..] || (index == |lines| && rest == [""])
  }

  lemma NothingConsumed(lines: seq<string>)
    ensures Consumed(lines, [], lines) && CleanCut([], lines)
  {
  }

  lemma StopsInBody(rest: seq<string>, n: nat, why: Reason)
    requires rest != [] && rest != [""] && "@@ " <= rest[0] && ReadHeader(rest[0]).Some? && n <= MAX_HUNKS
    requires why == Malformed ==> exists k :: BadLine(rest[1..], k, ReadHeader(rest[0]).value)
    requires why == Truncated ==> exists k :: RunsOut(rest[1..], k, ReadHeader(rest[0]).value)
    requires why in {Malformed, Truncated}
    ensures Stops(rest, n, why)
  {
    hide ReadHeader, Tally, BodyLine, Short;
  }

  lemma NotHeader(line: string)
    requires !("@@ " <= line)
    ensures ReadHeader(line).None?
  {
    hide ReadRange, CountOf;
    assert "@@ -"[..3] == "@@ ";
  }

  /** The reason given for a diff that is not accepted, first fault first. */
  ghost predicate Refused(nfc: Paths.Mapping, fold: Paths.Mapping, diff: string, target: seq<string>, why: Reason) {
    var lines := Lines(diff);
    if !Small(diff) then why == TooLarge
    else if exists k :: 0 <= k < |lines| && BinaryMarker(lines[k]) then why == Binary
    else if |lines| < 2 || !("--- " <= lines[0]) || !("+++ " <= lines[1]) then why == Malformed
    else if !PathsMatch(nfc, fold, lines[0][4..], lines[1][4..], target) then
      why == if lines[0][4..] == lines[1][4..] == "/dev/null" then Malformed else PathMismatch
    else Explained(lines[2..], why)
  }

  /** What is refused is not accepted, and is refused for one reason. */
  lemma RefusedOnce(nfc: Paths.Mapping, fold: Paths.Mapping, diff: string, target: seq<string>, why: Reason)
    requires Refused(nfc, fold, diff, target, why)
    ensures !Accepts(nfc, fold, diff, target)
    ensures forall other :: Refused(nfc, fold, diff, target, other) ==> other == why
  {
    hide PathsMatch, Explained, Hunked, BinaryMarker, Small, Split;
    var lines := Lines(diff);
    if TwoHeaders(nfc, fold, lines, target) {
      if Hunked(lines[2..], 0) { NoBinary(nfc, fold, lines, target); }
      if Explained(lines[2..], why) { ExplainedOnce(lines[2..], why); }
    }
  }

  /** Sound and complete: a diff passes exactly when it is in the language of the grammar. */
  method Validate(nfc: Paths.Mapping, fold: Paths.Mapping, diff: string, target: seq<string>) returns (r: Option<Reason>)
    ensures r.None? <==> Accepts(nfc, fold, diff, target)
    ensures r.Some? ==> Refused(nfc, fold, diff, target, r.value)
    ensures Small(diff) ==> (r == Some(Binary) <==> exists k :: 0 <= k < |Lines(diff)| && BinaryMarker(Lines(diff)[k]))
  {
    hide PathsMatch, Hunked, CrLfToLf, CrToLf, Split, Explained, BinaryMarker;
    if |Utf8.Encode(diff)| > MAX_DIFF_BYTES {
      return Some(TooLarge);
    }
    var lines := Lines(diff);
    if |lines| > MAX_DIFF_LINES || exists k :: 0 <= k < |lines| && |lines[k]| > MAX_LINE_LENGTH {
      return Some(TooLarge);
    }
    for i := 0 to |lines|
      invariant forall j :: 0 <= j < i ==> !BinaryMarker(lines[j])
    {
      if BinaryMarker(lines[i]) {
        if TwoHeaders(nfc, fold, lines, target) && Hunked(lines[2..], 0) { NoBinary(nfc, fold, lines, target); }
        return Some(Binary);
      }
    }
    if !("--- " <= lines[0]) {
      return Some(Malformed);
    }
    if |lines| < 2 || !("+++ " <= lines[1]) {
      return Some(Malformed);
    }
    var mismatch := MatchPaths(nfc, fold, lines[0][4..], lines[1][4..], target);
    if mismatch.Some? {
      return mismatch;
    }
    r := ScanHunks(lines[2..]);
    if r.Some? { NeverBinary(lines[2..], r.value); }
  }

  lemma NeverBinary(lines: seq<string>, why: Reason)
    requires Explained(lines, why)
    ensures why != Binary
  {
    hide ReadHeader, Consumed, BadLine, RunsOut;
  }
}
