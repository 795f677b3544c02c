/** The ledger file as bytes: strict reading, appending, and what a torn append leaves. */
module Ledger {
  import opened Prelude
  import opened Utf8
  import opened Entries
  import Json
  import JsonGrammar

  const MAX_LINE_BYTES := 4096
  const MAX_LEDGER_BYTES := 4 * 1024 * 1024
  const MAX_ENTRIES := 10_000

  datatype Fault = Oversize | TornTail | NotUtf8 | TooManyEntries | LongLine | BadRecord

  function ParseLines(lines: seq<string>): Result<seq<Entry>, Fault> {
    if lines == [] then Success([])
    else if |Encode(lines[0] + "\n")| > MAX_LINE_BYTES then Failure(LongLine)
    else
      var e := ParseEntryLine(lines[0]);
      if e.None? then Failure(BadRecord)
      else
        var rest := ParseLines(lines[1..]);
        if rest.Failure? then rest else Success([e.value] + rest.value)
  }

  function ParseText(text: string): Result<seq<Entry>, Fault>
    requires text != []
  {
    var lines := Split(text[..|text| - 1], '\n');
    if |lines| > MAX_ENTRIES then Failure(TooManyEntries) else ParseLines(lines)
  }

  function ParseBytes(data: bytes): Result<seq<Entry>, Fault> {
    if data == [] then Success([])
    else if data[|data| - 1] != LF_BYTE then Failure(TornTail)
    else
      var text := Decode(data);
      if text.None? then Failure(NotUtf8)
      else if text.value == [] then Success([])
      else ParseText(text.value)
  }

  /** `read_entries` on a present ledger: the size bound, then the strict parse. */
  function ReadLedger(data: bytes): Result<seq<Entry>, Fault> {
    if |data| > MAX_LEDGER_BYTES then Failure(Oversize) else ParseBytes(data)
  }

  predicate Readable(data: bytes) { ReadLedger(data).Success? }

  function LineBytes(e: Entry): bytes { Encode(CanonicalLine(e) + "\n") }

  function Serialize(es: seq<Entry>): bytes {
    if es == [] then [] else LineBytes(es[0]) + Serialize(es[1..])
  }

  /** What `_append` checks before it writes: the line cap and the file cap, not the entry cap. */
  predicate Fits(data: bytes, e: Entry) {
    |LineBytes(e)| <= MAX_LINE_BYTES && |data| + |LineBytes(e)| <= MAX_LEDGER_BYTES
  }

  // ---- one line ---------------------------------------------------------------------

  /** A record's line is printable ASCII, one byte a character, with LF only at its end. */
  lemma LineShape(e: Entry)
    ensures Ascii(CanonicalLine(e) + "\n") && '\n' !in CanonicalLine(e)
    ensures |LineBytes(e)| == |CanonicalLine(e)| + 1
    ensures LineBytes(e)[|LineBytes(e)| - 1] == LF_BYTE
    ensures forall k :: 0 <= k < |LineBytes(e)| - 1 ==> LineBytes(e)[k] != LF_BYTE
  {
    Json.PrintableDump(Fields(e));
    AsciiLine(CanonicalLine(e));
    hide Encode, CanonicalLine;
  }

  lemma AsciiLine(line: string)
    requires Json.Printable(line)
    ensures Ascii(line + "\n") && '\n' !in line
    ensures var b := Encode(line + "\n");
      && |b| == |line| + 1 && b[|line|] == LF_BYTE
      && forall k :: 0 <= k < |line| ==> b[k] != LF_BYTE
  {
    hide Encode;
    assert forall c :: c in line + "\n" ==> c in line || c == '\n';
    EncodeAscii(line + "\n");
  }

  // ---- appending ----------------------------------------------------------------------

  lemma {:induction false} ParseLinesAppend(lines: seq<string>, more: seq<string>)
    requires ParseLines(lines).Success?
    ensures ParseLines(lines + more) ==
      if ParseLines(more).Success? then Success(ParseLines(lines).value + ParseLines(more).value) else ParseLines(more)
  {
    hide ParseEntryLine, Encode;
    if lines == [] {
      assert lines + more == more;
      assert ParseLines(more).Success? ==> [] + ParseLines(more).value == ParseLines(more).value;
    } else {
      assert (lines + more)[1..] == lines[1..] + more;
      ParseLinesAppend(lines[1..], more);
      var e := ParseEntryLine(lines[0]);
      if ParseLines(more).Success? {
        assert [e.value] + (ParseLines(lines[1..]).value + ParseLines(more).value)
            == ([e.value] + ParseLines(lines[1..]).value) + ParseLines(more).value;
      }
    }
  }

  lemma {:induction false} ParseLinesLength(lines: seq<string>)
    requires ParseLines(lines).Success?
    ensures |ParseLines(lines).value| == |lines|
    ensures forall k :: 0 <= k < |lines| ==> Valid(ParseLines(lines).value[k])
  {
    if lines != [] {
      ParseLinesLength(lines[1..]);
    }
  }

  lemma LastIsLf(t: string)
    requires t != [] && Encode(t)[|Encode(t)| - 1] == LF_BYTE
    ensures t[|t| - 1] == '\n'
  {
    hide Encode, EncodeChar;
    var k := |t| - 1;
    assert t == t[..k] + [t[k]];
    EncodeAppend(t[..k], [t[k]]);
    OneChar(t[k]);
    var a, b := Encode(t[..k]), EncodeChar(t[k]);
    assert (a + b)[|a + b| - 1] == b[|b| - 1];
  }

  lemma OneChar(c: char)
    ensures Encode([c]) == EncodeChar(c) && |EncodeChar(c)| > 0
    ensures EncodeChar(c)[|EncodeChar(c)| - 1] == LF_BYTE ==> c == '\n'
  {
    assert Encode([c]) == EncodeChar(c) + Encode([]);
  }

  /** The text view of a non-empty readable ledger. */
  lemma ReadableText(data: bytes)
    requires data != [] && Readable(data)
    ensures Decode(data).Some? && Decode(data).value != []
    ensures Encode(Decode(data).value) == data
    ensures var t := Decode(data).value; t[|t| - 1] == '\n' && ParseText(t) == ReadLedger(data)
  {
    EncodeDecode(data);
    assert Encode([]) == [];
    hide Encode, Decode, ParseText;
    LastIsLf(Decode(data).value);
  }

  lemma ParseTextAppend(t: string, line: string)
    requires t != [] && t[|t| - 1] == '\n' && ParseText(t).Success?
    requires '\n' !in line
    ensures ParseText(t + (line + "\n")) ==
      if |ParseText(t).value| + 1 > MAX_ENTRIES then Failure(TooManyEntries)
      else if ParseLines([line]).Success? then Success(ParseText(t).value + ParseLines([line]).value)
      else ParseLines([line])
  {
    var body := t[..|t| - 1];
    BodyOfAppend(t, line);
    SplitAppend(body, '\n', line);
    SplitNoSeparator(line, '\n');
    hide ParseLines, Split;
    ParseLinesLength(Split(body, '\n'));
    ParseLinesAppend(Split(body, '\n'), [line]);
  }

  lemma BodyOfAppend(t: string, line: string)
    requires t != [] && t[|t| - 1] == '\n'
    ensures var all := t + (line + "\n");
      all[..|all| - 1] == t[..|t| - 1] + ['\n'] + line
  {
  }

  lemma OneLine(line: string, e: Entry)
    requires ParseEntryLine(line) == Some(e) && |Encode(line + "\n")| <= MAX_LINE_BYTES
    ensures ParseLines([line]) == Success([e])
  {
    hide ParseEntryLine, Encode;
    assert [line][1..] == [];
    assert [e] + [] == [e];
  }

  lemma OneLineParses(e: Entry)
    requires Valid(e) && |LineBytes(e)| <= MAX_LINE_BYTES
    ensures ParseLines([CanonicalLine(e)]) == Success([e])
  {
    CodecRoundTrip(e);
    hide CanonicalLine, ParseEntryLine, Encode, Valid, ParseLines;
    OneLine(CanonicalLine(e), e);
  }

  lemma FirstAppend(e: Entry)
    requires Valid(e) && Fits([], e)
    ensures ReadLedger(LineBytes(e)) == Success([e])
  {
    var t := CanonicalLine(e) + "\n";
    LineShape(e);
    DecodeEncode(t);
    OneLineParses(e);
    FirstText(CanonicalLine(e), e);
    hide Encode, Decode, CanonicalLine, ParseText, Valid;
  }

  lemma FirstText(line: string, e: Entry)
    requires '\n' !in line && ParseLines([line]) == Success([e])
    ensures ParseText(line + "\n") == Success([e])
  {
    hide ParseLines;
    assert (line + "\n")[..|line + "\n"| - 1] == line;
    SplitNoSeparator(line, '\n');
  }

  lemma LaterAppend(data: bytes, e: Entry)
    requires data != [] && Readable(data) && Valid(e) && Fits(data, e)
    ensures ReadLedger(data + LineBytes(e)) ==
      if |ReadLedger(data).value| < MAX_ENTRIES then Success(ReadLedger(data).value + [e]) else Failure(TooManyEntries)
  {
    hide CanonicalLine, Encode, ParseText, ParseLines, Decode, Valid;
    var t, line := Decode(data).value, CanonicalLine(e);
    ReadableText(data);
    LineShape(e);
    OneLineParses(e);
    DecodeAfterEncoded(t, LineBytes(e));
    DecodeEncode(line + "\n");
    ParseTextAppend(t, line);
    var all := data + LineBytes(e);
    assert all[|all| - 1] == LineBytes(e)[|LineBytes(e)| - 1];
  }

  /**
   Append closure, exactly. A readable ledger plus one record that passed the checks of
   `_append` is readable precisely when it was below the entry cap, and then holds one more
   record; at the cap the append still goes through and the ledger stops being readable.
   */
  lemma AppendClosure(data: bytes, e: Entry)
    requires Readable(data) && Valid(e) && Fits(data, e)
    ensures ReadLedger(data + LineBytes(e)) ==
      if |ReadLedger(data).value| < MAX_ENTRIES then Success(ReadLedger(data).value + [e]) else Failure(TooManyEntries)
  {
    hide LineBytes, Valid, ParseText, Decode;
    if data == [] {
      FirstAppend(e);
      assert data + LineBytes(e) == LineBytes(e);
      assert [] + [e] == [e];
    } else {
      LaterAppend(data, e);
    }
  }

  /** Reading only ever yields valid records, at most MAX_ENTRIES of them. */
  lemma ReadIsValid(data: bytes)
    requires Readable(data)
    ensures |ReadLedger(data).value| <= MAX_ENTRIES
    ensures forall k :: 0 <= k < |ReadLedger(data).value| ==> Valid(ReadLedger(data).value[k])
  {
    if data != [] {
      ReadableText(data);
      var t := Decode(data).value;
      ParseLinesLength(Split(t[..|t| - 1], '\n'));
    }
  }

  // ---- exactly what is read ---------------------------------------------------------------------------

  /** These lines as a text, each with a line feed. */
  function LineText(lines: seq<string>): string {
    if lines == [] then "" else lines[0] + "\n" + LineText(lines[1..])
  }

  /** Each line is within the cap and is the text of its record. */
  ghost predicate LinesOf(lines: seq<string>, es: seq<Entry>) {
    && |lines| == |es|
    && forall k :: 0 <= k < |lines| ==>
         && '\n' !in lines[k] && |Encode(lines[k] + "\n")| <= 4096 && Valid(es[k])
         && JsonGrammar.Denotes(lines[k], Json.JObject(RecordObject(es[k])))
  }

  lemma {:induction false} LineTextIsJoin(lines: seq<string>)
    requires lines != []
    ensures LineText(lines) == Join(lines, '\n') + "\n"
  {
    if |lines| > 1 {
      LineTextIsJoin(lines[1..]);
      assert lines[0] + "\n" + (Join(lines[1..], '\n') + "\n") == (lines[0] + ['\n'] + Join(lines[1..], '\n')) + "\n";
    } else {
      assert LineText(lines[1..]) == "";
    }
  }

  lemma {:induction false} ParseLinesExact(lines: seq<string>, es: seq<Entry>)
    requires forall k :: 0 <= k < |lines| ==> '\n' !in lines[k]
    ensures ParseLines(lines) == Success(es) <==> LinesOf(lines, es)
    decreases |lines|
  {
    hide Encode, ParseEntryLine, Valid, JsonGrammar.Denotes, RecordObject;
    if lines != [] && es != [] {
      ParseLinesExact(lines[1..], es[1..]);
      ParseEntryExact(lines[0], es[0]);
      LinesOfFirst(lines, es);
      assert es == [es[0]] + es[1..];
      if ParseLines(lines[1..]).Success? {
        var rest := ParseLines(lines[1..]).value;
        forall e | [e] + rest == es ensures e == es[0] && rest == es[1..] { assert ([e] + rest)[1..] == rest; }
      }
    } else if lines != [] && ParseLines(lines).Success? {
      assert |ParseLines(lines).value| > 0;
    }
  }

  lemma LinesOfFirst(lines: seq<string>, es: seq<Entry>)
    requires lines != [] && es != []
    ensures LinesOf(lines, es) <==>
      && '\n' !in lines[0] && |Encode(lines[0] + "\n")| <= 4096 && Valid(es[0])
      && JsonGrammar.Denotes(lines[0], Json.JObject(RecordObject(es[0]))) && LinesOf(lines[1..], es[1..])
  {
    hide Encode, Valid, JsonGrammar.Denotes, RecordObject;
    if LinesOf(lines[1..], es[1..]) && |lines| == |es| {
      assert forall k :: 1 <= k < |lines| ==> lines[k] == lines[1..][k - 1] && es[k] == es[1..][k - 1];
    }
  }

  /** The ledger is the strict UTF-8 of these lines, within the caps of the file and of the entries. */
  ghost predicate Spells(data: bytes, lines: seq<string>, es: seq<Entry>) {
    |data| <= 4 * 1024 * 1024 && |lines| <= 10_000 && data == Encode(LineText(lines)) && LinesOf(lines, es)
  }

  /** A ledger reads as these records exactly when it spells them, line by line. */
  lemma ReadExact(data: bytes, es: seq<Entry>)
    ensures ReadLedger(data) == Success(es) <==> exists lines :: Spells(data, lines, es)
  {
    if ReadLedger(data) == Success(es) {
      var lines := ReadSpells(data, es);
    }
    if lines :| Spells(data, lines, es) {
      SpellsRead(data, lines, es);
    }
  }

  /** A text that ends with a line feed is the text of its lines. */
  lemma LinesOfText(t: string) returns (lines: seq<string>)
    requires t != [] && t[|t| - 1] == '\n'
    ensures lines == Split(t[..|t| - 1], '\n') && lines != [] && LfFree(lines) && LineText(lines) == t
  {
    lines := Split(t[..|t| - 1], '\n');
    SplitPieces(t[..|t| - 1], '\n');
    JoinOfSplit(t[..|t| - 1], '\n');
    LineTextIsJoin(lines);
    hide Split, Join, LineText;
    assert t == t[..|t| - 1] + "\n";
  }

  lemma ReadSpells(data: bytes, es: seq<Entry>) returns (lines: seq<string>)
    requires ReadLedger(data) == Success(es)
    ensures Spells(data, lines, es)
  {
    hide ParseLines, Split, LinesOf, ParseText, LineText, LfFree, Encode, Decode;
    if data == [] {
      lines := [];
      NoLines();
    } else {
      ReadableText(data);
      var t := Decode(data).value;
      lines := LinesOfText(t);
      TextLines(t, es);
      FreeLines(lines);
      ParseLinesExact(lines, es);
    }
  }

  lemma FreeLines(lines: seq<string>)
    requires LfFree(lines)
    ensures forall k :: 0 <= k < |lines| ==> '\n' !in lines[k]
  {
  }

  lemma NoLines()
    ensures LineText([]) == "" && Encode("") == [] && LinesOf([], []) && ReadLedger([]) == Success([])
  {
  }

  lemma TextLines(t: string, es: seq<Entry>)
    requires t != []
    ensures var lines := Split(t[..|t| - 1], '\n');
      ParseText(t) == Success(es) <==> |lines| <= MAX_ENTRIES && ParseLines(lines) == Success(es)
  {
    hide ParseLines, Split;
  }

  lemma SpellsRead(data: bytes, lines: seq<string>, es: seq<Entry>)
    requires Spells(data, lines, es)
    ensures ReadLedger(data) == Success(es)
  {
    hide ParseLines, Split, ParseText;
    if lines == [] {
      NoLines();
    } else {
      var t := LineText(lines);
      LineTextIsJoin(lines);
      DecodeEncode(t);
      assert forall k :: 0 <= k < |lines| ==> '\n' !in lines[k];
      SplitOfJoin(lines, '\n');
      ParseLinesExact(lines, es);
      hide LinesOf, LineText, Join;
      assert t[..|t| - 1] == Join(lines, '\n') && t[|t| - 1] == '\n';
      TextLines(t, es);
      EndsInLf(t);
      hide Encode, Decode;
    }
  }

  /** The faults of the bytes themselves: too many, a torn end, no UTF-8, or too many lines. */
  lemma ReadFaultExact(data: bytes)
    ensures ReadLedger(data) == Failure(Oversize) <==> |data| > 4 * 1024 * 1024
    ensures ReadLedger(data) == Failure(TornTail) <==>
      |data| <= 4 * 1024 * 1024 && data != [] && data[|data| - 1] != LF_BYTE
    ensures ReadLedger(data) == Failure(NotUtf8) <==>
      |data| <= 4 * 1024 * 1024 && data != [] && data[|data| - 1] == LF_BYTE && forall t :: Encode(t) != data
    ensures ReadLedger(data) == Failure(TooManyEntries) <==>
      && |data| <= 4 * 1024 * 1024
      && exists lines :: |lines| > 10_000 && LfFree(lines) && data == Encode(LineText(lines))
  {
    hide ParseText;
    DecodesExact(data);
    NeverTheseFaults(data);
    if lines :| |lines| > 10_000 && LfFree(lines) && data == Encode(LineText(lines)) && |data| <= 4 * 1024 * 1024 {
      ManyLines(data, lines);
    }
    if ReadLedger(data) == Failure(TooManyEntries) {
      var lines := TooManyLines(data);
    }
  }

  predicate LfFree(lines: seq<string>) { forall k :: 0 <= k < |lines| ==> '\n' !in lines[k] }

  /** Bytes decode exactly when they are the encoding of a text. */
  lemma DecodesExact(data: bytes)
    ensures Decode(data).None? <==> forall t :: Encode(t) != data
  {
    if Decode(data).Some? { EncodeDecode(data); }
    forall t | Encode(t) == data ensures Decode(data).Some? { DecodeEncode(t); }
    hide Decode, Encode;
  }

  lemma {:induction false} LineFaults(lines: seq<string>)
    ensures ParseLines(lines).Failure? ==> ParseLines(lines).error in {LongLine, BadRecord}
  {
    hide ParseEntryLine, Encode;
    if lines != [] { LineFaults(lines[1..]); }
  }

  lemma NeverTheseFaults(data: bytes)
    ensures Decode(data).Some? && Decode(data).value != [] ==>
      var r := ParseText(Decode(data).value);
      r.Failure? ==> r.error in {TooManyEntries, LongLine, BadRecord}
  {
    hide Decode, Split, ParseLines;
    if Decode(data).Some? && Decode(data).value != [] {
      var t := Decode(data).value;
      LineFaults(Split(t[..|t| - 1], '\n'));
    }
  }

  lemma ManyLines(data: bytes, lines: seq<string>)
    requires |lines| > 10_000 && LfFree(lines) && data == Encode(LineText(lines)) && |data| <= 4 * 1024 * 1024
    ensures ReadLedger(data) == Failure(TooManyEntries)
  {
    hide ParseLines, Split;
    var t := LineText(lines);
    LineTextIsJoin(lines);
    DecodeEncode(t);
    SplitOfJoin(lines, '\n');
    hide LineText, Join;
    assert t[..|t| - 1] == Join(lines, '\n') && t[|t| - 1] == '\n';
    EndsInLf(t);
    hide Encode, Decode;
  }

  lemma DecodedText(data: bytes)
    requires ReadLedger(data) == Failure(TooManyEntries)
    ensures |data| <= 4 * 1024 * 1024 && Decode(data).Some? && Encode(Decode(data).value) == data
    ensures var t := Decode(data).value; t != [] && t[|t| - 1] == '\n' && ParseText(t) == Failure(TooManyEntries)
  {
    EncodeDecode(data);
    hide ParseText;
    LastIsLf(Decode(data).value);
    hide Encode, Decode;
  }

  lemma TooManyLines(data: bytes) returns (lines: seq<string>)
    requires ReadLedger(data) == Failure(TooManyEntries)
    ensures |lines| > 10_000 && LfFree(lines) && data == Encode(LineText(lines))
  {
    hide *;
    DecodedText(data);
    var t := Decode(data).value;
    lines := LinesOfText(t);
    ManyInText(t);
  }

  lemma ManyInText(t: string)
    requires t != [] && ParseText(t) == Failure(TooManyEntries)
    ensures |Split(t[..|t| - 1], '\n')| > 10_000
  {
    hide ParseLines, Split;
    LineFaults(Split(t[..|t| - 1], '\n'));
  }

  lemma EndsInLf(t: string)
    requires t != [] && t[|t| - 1] == '\n'
    ensures Encode(t) != [] && Encode(t)[|Encode(t)| - 1] == LF_BYTE
  {
    var k := |t| - 1;
    assert t == t[..k] + "\n";
    EncodeAppend(t[..k], "\n");
    assert Encode("\n") == [LF_BYTE] by { assert "\n"[1..] == ""; }
    hide Encode;
    assert (Encode(t[..k]) + [LF_BYTE])[|Encode(t[..k])|] == LF_BYTE;
  }

  lemma {:induction false} SerializeAppend(es: seq<Entry>, e: Entry)
    ensures Serialize(es + [e]) == Serialize(es) + LineBytes(e)
  {
    hide LineBytes;
    if es == [] {
      assert es + [e] == [e];
      assert [e][1..] == [];
    } else {
      assert (es + [e])[1..] == es[1..] + [e];
      SerializeAppend(es[1..], e);
    }
  }

  predicate Recordable(e: Entry) {
    Valid(e) && |LineBytes(e)| <= MAX_LINE_BYTES
  }

  /** Any sequence of valid records within the caps is read back from its lines. */
  lemma {:induction false} LedgerRoundTrip(es: seq<Entry>)
    requires |es| <= MAX_ENTRIES && |Serialize(es)| <= MAX_LEDGER_BYTES
    requires forall k :: 0 <= k < |es| ==> Recordable(es[k])
    ensures ReadLedger(Serialize(es)) == Success(es)
    decreases |es|
  {
    hide *;
    if es == [] {
      EmptyReads();
    } else {
      var n := |es| - 1;
      assert es == es[..n] + [es[n]];
      RoundTripStep(es[..n], es[n]);
      LedgerRoundTrip(es[..n]);
    }
  }

  lemma EmptyReads()
    ensures ReadLedger(Serialize([])) == Success([])
  {
  }

  lemma RoundTripStep(es: seq<Entry>, e: Entry)
    requires |es| < MAX_ENTRIES && |Serialize(es + [e])| <= MAX_LEDGER_BYTES && Recordable(e)
    ensures |Serialize(es)| <= MAX_LEDGER_BYTES
    ensures ReadLedger(Serialize(es)) == Success(es) ==> ReadLedger(Serialize(es + [e])) == Success(es + [e])
  {
    hide LineBytes, Serialize, ReadLedger, Valid;
    SerializeAppend(es, e);
    if ReadLedger(Serialize(es)) == Success(es) {
      AppendClosure(Serialize(es), e);
    }
  }

  // ---- torn appends -----------------------------------------------------------------------

  /**
   Crash-prefix dichotomy: with any byte prefix of a record's line on the end, the ledger reads
   as before (no byte), as before plus the record (every byte, below the cap), or not at all.
   */
  lemma CrashPrefix(data: bytes, e: Entry, k: nat)
    requires Readable(data) && Valid(e) && Fits(data, e) && k <= |LineBytes(e)|
    ensures ReadLedger(data + LineBytes(e)[..k]) ==
      if k == 0 then ReadLedger(data)
      else if k < |LineBytes(e)| then Failure(TornTail)
      else if |ReadLedger(data).value| < MAX_ENTRIES then Success(ReadLedger(data).value + [e])
      else Failure(TooManyEntries)
  {
    var line := LineBytes(e);
    hide *;
    if k == 0 {
      assert data + line[..0] == data;
    } else if k < |line| {
      TornCase(data, e, k);
    } else {
      AppendClosure(data, e);
      assert line[..k] == line;
    }
  }

  lemma TornCase(data: bytes, e: Entry, k: nat)
    requires Fits(data, e) && 0 < k < |LineBytes(e)|
    ensures ReadLedger(data + LineBytes(e)[..k]) == Failure(TornTail)
  {
    hide LineBytes, ReadLedger;
    TornTailShape(e, k);
    TornFails(data, LineBytes(e)[..k]);
  }

  lemma TornTailShape(e: Entry, k: nat)
    requires 0 < k < |LineBytes(e)|
    ensures LineBytes(e)[..k] != [] && LineBytes(e)[..k][k - 1] != LF_BYTE
  {
    hide LineBytes;
    LineShape(e);
  }

  lemma TornFails(data: bytes, tail: bytes)
    requires tail != [] && tail[|tail| - 1] != LF_BYTE && |data| + |tail| <= MAX_LEDGER_BYTES
    ensures ReadLedger(data + tail) == Failure(TornTail)
  {
    var all := data + tail;
    assert all[|all| - 1] == tail[|tail| - 1];
  }
}
