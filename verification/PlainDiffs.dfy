/** The diffs that a diff program writes to replace the lines of a file: all of them are accepted. */
module PlainDiffs {
  import opened Prelude
  import opened Hunks
  import opened Diff
  import Numerals
  import Paths

  predicate OneLine(s: string) { '\n' !in s && '\r' !in s }

  predicate AllOneLine(lines: seq<string>) { forall k :: 0 <= k < |lines| ==> OneLine(lines[k]) }

  /** These lines, each with this line end. */
  function Ended(lines: seq<string>, end: string): string {
    if lines == [] then "" else lines[0] + end + Ended(lines[1..], end)
  }

  predicate LineEnd(end: string) { end in {"\r\n", "\n", "\r"} }

  /** Whatever the line end, the text's lines are those lines, and the empty piece after the last end. */
  lemma {:induction false} LinesOfEnded(lines: seq<string>, end: string)
    requires AllOneLine(lines) && LineEnd(end)
    ensures Lines(Ended(lines, end)) == lines + [""]
  {
    hide Lines;
    if lines == [] {
      LineWhole("");
    } else {
      LinesOfEnded(lines[1..], end);
      LineWhole(lines[0]);
      EndStands(lines, end);
      LinesCut(lines[0], end, Ended(lines[1..], end));
      assert [lines[0]] + (lines[1..] + [""]) == lines + [""];
    }
  }

  lemma EndStands(lines: seq<string>, end: string)
    requires lines != [] && AllOneLine(lines) && LineEnd(end)
    ensures Apart(lines[0], "\n") && (end == "\r" ==> Apart("\r", Ended(lines[1..], end)))
  {
    if lines[0] != "" { assert lines[0][|lines[0]| - 1] in lines[0]; }
    if |lines| > 1 && lines[1] != "" { assert lines[1][0] in lines[1]; }
  }

  /** Each line behind a mark. */
  function Marked(mark: char, lines: seq<string>): (r: seq<string>)
    ensures |r| == |lines| && forall k :: 0 <= k < |lines| ==> r[k] == [mark] + lines[k]
  {
    if lines == [] then [] else [[mark] + lines[0]] + Marked(mark, lines[1..])
  }

  /** The body that takes the old lines out and puts the new ones in. */
  function Swap(old_: seq<string>, new_: seq<string>): seq<string> { Marked('-', old_) + Marked('+', new_) }

  lemma TallyAppend(before: seq<string>, line: string)
    ensures var t, u, w := Tally(before), Tally(before + [line]), Weight(line); u == (t.0 + w.0, t.1 + w.1)
    ensures AllBody(before) && BodyLine(line) ==> AllBody(before + [line])
  {
    hide Weight, BodyLine;
    assert (before + [line])[..|before|] == before;
  }

  lemma MarkerAddsNone(before: seq<string>)
    requires AllBody(before)
    ensures AllBody(before + [NO_NEWLINE_MARKER]) && Tally(before + [NO_NEWLINE_MARKER]) == Tally(before)
  {
    hide *;
    MarkerWeight();
    TallyAppend(before, NO_NEWLINE_MARKER);
  }

  /** A removed line counts as old, an added one as new, a context line as both; the marker counts as none. */
  lemma OneMoreLine(before: seq<string>, mark: char, line: string)
    requires mark in {'-', '+', ' '} && AllBody(before)
    ensures AllBody(before + [[mark] + line])
    ensures var t, u := Tally(before), Tally(before + [[mark] + line]);
      u == (t.0 + (if mark == '+' then 0 else 1), t.1 + (if mark == '-' then 0 else 1))
  {
    MarkedWeight(mark, line);
    hide *;
    TallyAppend(before, [mark] + line);
  }

  lemma MarkedWeight(mark: char, line: string)
    requires mark in {'-', '+', ' '}
    ensures Weight([mark] + line) == (if mark == '+' then 0 else 1, if mark == '-' then 0 else 1) && BodyLine([mark] + line)
  {
    hide NO_NEWLINE_MARKER;
  }

  lemma {:induction false} MarkedTally(before: seq<string>, mark: char, lines: seq<string>)
    requires mark in {'-', '+', ' '} && AllBody(before)
    ensures AllBody(before + Marked(mark, lines))
    ensures var t, u := Tally(before), Tally(before + Marked(mark, lines));
      u == (t.0 + (if mark == '+' then 0 else |lines|), t.1 + (if mark == '-' then 0 else |lines|))
    decreases |lines|
  {
    hide Tally, AllBody;
    if lines == [] {
      assert before + Marked(mark, lines) == before;
    } else {
      OneMoreLine(before, mark, lines[0]);
      var next := before + [[mark] + lines[0]];
      assert before + Marked(mark, lines) == next + Marked(mark, lines[1..]);
      hide Marked;
      MarkedTally(next, mark, lines[1..]);
    }
  }

  lemma SwapTally(old_: seq<string>, new_: seq<string>)
    ensures AllBody(Swap(old_, new_)) && Tally(Swap(old_, new_)) == (|old_|, |new_|)
  {
    assert [] + Marked('-', old_) == Marked('-', old_);
    hide Tally, Marked;
    EmptyTally();
    MarkedTally([], '-', old_);
    MarkedTally(Marked('-', old_), '+', new_);
  }

  lemma EmptyTally()
    ensures Tally([]) == (0, 0) && AllBody([])
  {
  }

  /** The diff that replaces these lines of this file by those. */
  function Replacement(path: string, old_: seq<string>, new_: seq<string>): seq<string> {
    ["--- a/" + path, "+++ b/" + path, Written(1, |old_|, 1, |new_|)] + Swap(old_, new_)
  }

  lemma ReplacementSplits(path: string, old_: seq<string>, new_: seq<string>)
    ensures Hunked((Replacement(path, old_, new_) + [""])[2..], 0)
  {
    SwapTally(old_, new_);
    WrittenReads(1, |old_|, 1, |new_|);
    ReplacementIs(path, old_, new_);
    hide *;
    var header, body := Written(1, |old_|, 1, |new_|), Swap(old_, new_);
    var lines := (Replacement(path, old_, new_) + [""])[2..];
    Sliced("--- a/" + path, "+++ b/" + path, header, body);
    NothingLeft();
    PutBack(lines, |body|, [], [""]);
    OneHunk(lines, [Hunk(header, body)] + [], [""]);
  }

  lemma OneHunk(lines: seq<string>, hs: seq<Hunk>, tail: seq<string>)
    requires Splits(lines, hs, tail) && |hs| == 1
    ensures Hunked(lines, 0)
  {
    hide Splits;
    assert Splits(lines, hs, tail) && 1 <= 0 + |hs| <= MAX_HUNKS;
  }

  lemma ReplacementIs(path: string, old_: seq<string>, new_: seq<string>)
    ensures Replacement(path, old_, new_) + [""] ==
      ["--- a/" + path, "+++ b/" + path, Written(1, |old_|, 1, |new_|)] + Swap(old_, new_) + [""]
  {
    hide Written, Swap;
  }

  lemma Sliced(minus: string, plus: string, header: string, body: seq<string>)
    ensures var lines := ([minus, plus, header] + body + [""])[2..];
      lines != [] && lines[0] == header && |body| <= |lines[1..]| && lines[1..][..|body|] == body && lines[1..][|body|..] == [""]
  {
    assert ([minus, plus, header] + body + [""])[2..] == [header] + (body + [""]);
    assert ([header] + (body + [""]))[1..] == body + [""];
  }

  lemma NothingLeft()
    ensures Splits([""], [], [""])
  {
    assert Flatten([]) + [""] == [""];
  }

  /** Both sides name the file behind their prefix. */
  lemma BothName(nfc: Paths.Mapping, fold: Paths.Mapping, path: string, parts: seq<string>)
    requires Paths.Normalize(nfc, fold, path) == Some(parts)
    ensures PathsMatch(nfc, fold, "a/" + path, "b/" + path, parts)
  {
    hide Paths.Accepted, Paths.Segments, Paths.Composed;
    assert ("a/" + path)[2..] == path && ("b/" + path)[2..] == path;
    assert ("a/" + path)[0] == 'a' && ("b/" + path)[0] == 'b';
  }

  lemma {:induction false} AllDigitsOneLine(n: nat)
    ensures OneLine(Numerals.Render(n, 10))
  {
    Numerals.RenderRoundTrip(n, 10);
    hide Numerals.Render;
  }

  lemma ReplacementOneLine(path: string, old_: seq<string>, new_: seq<string>)
    requires OneLine(path) && AllOneLine(old_) && AllOneLine(new_)
    ensures AllOneLine(Replacement(path, old_, new_))
  {
    AllDigitsOneLine(1);
    AllDigitsOneLine(|old_|);
    AllDigitsOneLine(|new_|);
    hide Numerals.Render, Marked;
    assert OneLine(Written(1, |old_|, 1, |new_|));
    var all := Replacement(path, old_, new_);
    forall k | 0 <= k < |all| ensures OneLine(all[k]) {
      if 3 <= k < 3 + |old_| { assert all[k] == ['-'] + old_[k - 3]; }
      else if k >= 3 { assert all[k] == ['+'] + new_[k - 3 - |old_|]; }
    }
  }

  /**
   Whatever lines it takes out and puts in, and whichever of the three line ends it is written with, a
   replacement of a file's lines is accepted for that file, as long as it is within the caps.
   */
  lemma ReplacementAccepted(
      nfc: Paths.Mapping, fold: Paths.Mapping, path: string, parts: seq<string>,
      old_: seq<string>, new_: seq<string>, end: string)
    requires Paths.Normalize(nfc, fold, path) == Some(parts) && LineEnd(end)
    requires OneLine(path) && AllOneLine(old_) && AllOneLine(new_)
    requires Small(Ended(Replacement(path, old_, new_), end))
    ensures Accepts(nfc, fold, Ended(Replacement(path, old_, new_), end), parts)
  {
    hide Small, Hunked, PathsMatch, Ended, Swap, Written, OneLine, Lines;
    var all := Replacement(path, old_, new_);
    ReplacementOneLine(path, old_, new_);
    LinesOfEnded(all, end);
    ReplacementSplits(path, old_, new_);
    BothName(nfc, fold, path, parts);
    assert all[0][4..] == "a/" + path && all[1][4..] == "b/" + path;
  }
}
