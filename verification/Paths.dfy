/**
 The three path grammars: what the guard accepts, what the file view accepts, and what the ledger
 accepts. Unicode composition and case folding are parameters, constrained only where needed.
 */
module Paths {
  import opened Prelude
  import opened Entries

  const MAX_PATH_DEPTH := 64
  const MAX_COMPONENT_LENGTH := 255
  const MAX_TARGET_PATH_CHARS := 4096

  datatype Reason =
    | EmptyPath
    | NulOrControl
    | TooLong
    | Unc
    | Absolute
    | DriveLetter
    | AlternateDataStream
    | EmptySegment
    | CurdirSegment
    | ParentTraversal
    | ComponentTooLong
    | TrailingDotOrSpace
    | ReservedDeviceName
    | TooDeep

  type Mapping = string -> string

  predicate Separator(c: char) { c == '/' || c == '\\' }

  /** No separator, no colon, no control character. */
  predicate PlainText(s: string) { forall c :: c in s ==> !Separator(c) && c != ':' && !Control(c) }

  /** What is used of Unicode composition: it is idempotent, and it composes no separator, colon or control. */
  ghost predicate Composition(nfc: Mapping) {
    && (forall s :: nfc(nfc(s)) == nfc(s))
    && (forall s :: PlainText(s) ==> PlainText(nfc(s)))
  }

  const RESERVED: set<string> := {
    "con", "prn", "aux", "nul",
    "com1", "com2", "com3", "com4", "com5", "com6", "com7", "com8", "com9",
    "lpt1", "lpt2", "lpt3", "lpt4", "lpt5", "lpt6", "lpt7", "lpt8", "lpt9" }

  predicate AsciiLetter(c: char) { 'a' <= c <= 'z' || 'A' <= c <= 'Z' }

  /** A text with either separator written as a slash. */
  function Slashed(s: string): (r: string)
    ensures |r| == |s| && forall k :: 0 <= k < |s| ==> r[k] == if Separator(s[k]) then '/' else s[k]
  {
    if s == [] then [] else [if Separator(s[0]) then '/' else s[0]] + Slashed(s[1..])
  }

  function Segments(raw: string): (r: seq<string>)
    ensures |r| >= 1
  {
    Split(Slashed(raw), '/')
  }

  /** The checks on the text as a whole, first fault first. */
  function WholeFault(raw: string): Option<Reason> {
    if raw == "" then Some(EmptyPath)
    else if exists c :: c in raw && Control(c) then Some(NulOrControl)
    else if |raw| > MAX_TARGET_PATH_CHARS then Some(TooLong)
    else if |raw| >= 2 && raw[0] == raw[1] && Separator(raw[0]) then Some(Unc)
    else if Separator(raw[0]) then Some(Absolute)
    else if |raw| >= 2 && raw[1] == ':' && AsciiLetter(raw[0]) then Some(DriveLetter)
    else if ':' in raw then Some(AlternateDataStream)
    else None
  }

  /** The part of a name before its first dot. */
  function Stem(seg: string): string { Split(seg, '.')[0] }

  /** The checks on one composed segment, first fault first. */
  function SegmentFault(fold: Mapping, seg: string): Option<Reason> {
    if seg == "" then Some(EmptySegment)
    else if seg == "." then Some(CurdirSegment)
    else if seg == ".." then Some(ParentTraversal)
    else if |seg| > MAX_COMPONENT_LENGTH then Some(ComponentTooLong)
    else if seg[|seg| - 1] == '.' || seg[|seg| - 1] == ' ' then Some(TrailingDotOrSpace)
    else if fold(Stem(seg)) in RESERVED then Some(ReservedDeviceName)
    else None
  }

  function Composed(nfc: Mapping, segs: seq<string>): (r: seq<string>)
    ensures |r| == |segs| && forall k :: 0 <= k < |segs| ==> r[k] == nfc(segs[k])
  {
    seq(|segs|, k requires 0 <= k < |segs| => nfc(segs[k]))
  }

  /** Every segment passes its checks, and there are not too many. */
  predicate GoodParts(fold: Mapping, parts: seq<string>) {
    && 1 <= |parts| <= MAX_PATH_DEPTH
    && forall k :: 0 <= k < |parts| ==> SegmentFault(fold, parts[k]).None?
  }

  /** The text is accepted; its components are then the composed segments. */
  predicate Accepted(nfc: Mapping, fold: Mapping, raw: string) {
    WholeFault(raw).None? && GoodParts(fold, Composed(nfc, Segments(raw)))
  }

  /** The fault reported for the segments: the first bad one, or that there are too many. */
  predicate Blamed(fold: Mapping, parts: seq<string>, why: Reason) {
    if forall k :: 0 <= k < |parts| ==> SegmentFault(fold, parts[k]).None? then why == TooDeep
    else exists k :: 0 <= k < |parts| && SegmentFault(fold, parts[k]) == Some(why)
                     && forall j :: 0 <= j < k ==> SegmentFault(fold, parts[j]).None?
  }

  /** The reason given for a text that is not accepted: of the text as a whole, or of its segments. */
  predicate Faulty(nfc: Mapping, fold: Mapping, raw: string, why: Reason) {
    if WholeFault(raw).Some? then why == WholeFault(raw).value else Blamed(fold, Composed(nfc, Segments(raw)), why)
  }

  method NormalizeTarget(nfc: Mapping, fold: Mapping, raw: string) returns (r: Result<seq<string>, Reason>)
    ensures r.Success? <==> Accepted(nfc, fold, raw)
    ensures r.Success? ==> r.value == Composed(nfc, Segments(raw))
    ensures r.Failure? ==> Faulty(nfc, fold, raw, r.error)
  {
    hide Stem, SegmentFault;
    var fault := WholeFault(raw);
    if fault.Some? {
      return Failure(fault.value);
    }
    var segs := Segments(raw);
    ghost var all := Composed(nfc, segs);
    var parts: seq<string> := [];
    for i := 0 to |segs|
      invariant parts == all[..i]
      invariant forall k :: 0 <= k < i ==> SegmentFault(fold, all[k]).None?
    {
      var seg := nfc(segs[i]);
      var why := SegmentFault(fold, seg);
      if why.Some? {
        assert all[i] == seg;
        return Failure(why.value);
      }
      parts := parts + [seg];
    }
    assert all[..|segs|] == all;
    if |parts| > MAX_PATH_DEPTH {
      return Failure(TooDeep);
    }
    r := Success(parts);
  }

  // ---- what is accepted, and each fault ------------------------------------------------------------

  /** The device names of Windows, whatever follows their first dot. */
  predicate DeviceName(s: string) {
    s in {"con", "prn", "aux", "nul"} || (|s| == 4 && s[..3] in {"com", "lpt"} && '1' <= s[3] <= '9')
  }

  /** A name cut at its end or at its first dot. */
  predicate CutAt(seg: string, n: nat) {
    n <= |seg| && '.' !in seg[..n] && (n < |seg| ==> seg[n] == '.')
  }

  /** Folded up to its first dot the name is a device's. */
  predicate NamesDevice(fold: Mapping, seg: string) {
    exists n | 0 <= n <= |seg| :: CutAt(seg, n) && DeviceName(fold(seg[..n]))
  }

  lemma DeviceNames(s: string)
    ensures s in RESERVED <==> DeviceName(s)
  {
    if |s| == 4 {
      assert s == s[..3] + [s[3]];
      if s[..3] in {"com", "lpt"} && '1' <= s[3] <= '9' { NumberedDevice(s); }
    }
    if s in RESERVED { ReservedNames(s); }
  }

  lemma NumberedDevice(s: string)
    requires |s| == 4 && s[..3] in {"com", "lpt"} && '1' <= s[3] <= '9'
    ensures s in RESERVED
  {
    var d := s[3];
    assert s == s[..3] + [d];
    assert d in {'1', '2', '3', '4', '5', '6', '7', '8', '9'};
    assert s[..3] == "com" ==> s == ['c', 'o', 'm', d];
    assert s[..3] == "lpt" ==> s == ['l', 'p', 't', d];
  }

  lemma ReservedNames(s: string)
    requires s in RESERVED
    ensures DeviceName(s)
  {
    if |s| == 4 { assert s[..3] == [s[0], s[1], s[2]]; }
  }

  lemma StemIs(seg: string, n: nat)
    requires CutAt(seg, n)
    ensures Stem(seg) == seg[..n]
  {
    SplitNoSeparator(seg[..n], '.');
    if n < |seg| {
      assert seg == seg[..n] + ['.'] + seg[n + 1..];
      SplitAppend(seg[..n], '.', seg[n + 1..]);
    } else {
      assert seg[..n] == seg;
    }
  }

  lemma {:induction false} CutSomewhere(seg: string) returns (n: nat)
    ensures CutAt(seg, n)
  {
    if seg == "" || seg[0] == '.' {
      n := 0;
    } else {
      var m := CutSomewhere(seg[1..]);
      n := m + 1;
      assert seg[..n] == [seg[0]] + seg[1..][..m];
    }
  }

  lemma DeviceExact(fold: Mapping, seg: string)
    ensures fold(Stem(seg)) in RESERVED <==> NamesDevice(fold, seg)
  {
    var m := CutSomewhere(seg);
    StemIs(seg, m);
    DeviceNames(fold(seg[..m]));
    hide RESERVED, DeviceName, Stem, CutAt;
    if NamesDevice(fold, seg) {
      var n :| 0 <= n <= |seg| && CutAt(seg, n) && DeviceName(fold(seg[..n]));
      StemIs(seg, n);
    }
  }

  /** A name that can stand in an accepted path. */
  predicate GoodName(fold: Mapping, seg: string) {
    && seg !in {"", ".", ".."} && |seg| <= 255
    && seg[|seg| - 1] !in {'.', ' '} && !NamesDevice(fold, seg)
  }

  /** Each fault of a composed segment, with its condition. */
  lemma SegmentFaultExact(fold: Mapping, seg: string)
    ensures var r := SegmentFault(fold, seg);
      && (r.None? <==> GoodName(fold, seg))
      && (r == Some(EmptySegment) <==> seg == "") && (r == Some(CurdirSegment) <==> seg == ".")
      && (r == Some(ParentTraversal) <==> seg == "..") && (r == Some(ComponentTooLong) <==> |seg| > 255)
      && (r == Some(TrailingDotOrSpace) <==>
            seg !in {"", ".", ".."} && |seg| <= 255 && seg[|seg| - 1] in {'.', ' '})
      && (r == Some(ReservedDeviceName) <==>
            seg !in {"", ".", ".."} && |seg| <= 255 && seg[|seg| - 1] !in {'.', ' '} && NamesDevice(fold, seg))
  {
    DeviceExact(fold, seg);
    hide Stem, RESERVED, NamesDevice;
  }

  predicate Uncontrolled(s: string) { forall c :: c in s ==> !Control(c) }

  /** Each fault of the text as a whole, with its condition. */
  lemma WholeFaultExact(raw: string)
    ensures var r := WholeFault(raw);
      && (r.None? <==> 0 < |raw| <= 4096 && raw[0] !in {'/', '\\'} && ':' !in raw && Uncontrolled(raw))
      && (r == Some(EmptyPath) <==> raw == "") && (r == Some(NulOrControl) <==> !Uncontrolled(raw))
      && (r == Some(TooLong) <==> Uncontrolled(raw) && |raw| > 4096)
    ensures Uncontrolled(raw) && 0 < |raw| <= 4096 ==>
      var r := WholeFault(raw);
      && (r == Some(Unc) <==> |raw| >= 2 && raw[..2] in {"//", "\\\\"})
      && (r == Some(Absolute) <==> raw[0] in {'/', '\\'} && !(|raw| >= 2 && raw[1] == raw[0]))
      && (r == Some(DriveLetter) <==> |raw| >= 2 && raw[1] == ':' && AsciiLetter(raw[0]))
      && (r == Some(AlternateDataStream) <==>
            ':' in raw && raw[0] !in {'/', '\\'} && !(|raw| >= 2 && raw[1] == ':' && AsciiLetter(raw[0])))
  {
    hide Control;
    if |raw| >= 2 {
      assert raw[..2] == [raw[0], raw[1]];
      assert raw[1] in raw && raw[0] in raw;
    }
  }

  /** Exactly what is accepted. */
  lemma AcceptedExact(nfc: Mapping, fold: Mapping, raw: string)
    ensures Accepted(nfc, fold, raw) <==>
      && 0 < |raw| <= 4096 && raw[0] !in {'/', '\\'} && ':' !in raw && Uncontrolled(raw) && |Segments(raw)| <= 64
      && forall k :: 0 <= k < |Segments(raw)| ==> GoodName(fold, nfc(Segments(raw)[k]))
  {
    WholeFaultExact(raw);
    hide WholeFault, Uncontrolled, Segments, GoodName, SegmentFault;
    forall k | 0 <= k < |Segments(raw)|
      ensures GoodName(fold, nfc(Segments(raw)[k])) <==> SegmentFault(fold, Composed(nfc, Segments(raw))[k]).None?
    {
      SegmentFaultExact(fold, nfc(Segments(raw)[k]));
    }
  }

  lemma SlashedParts(a: string, c: char, b: string)
    requires Separator(c)
    ensures Slashed(a + [c] + b) == Slashed(a) + ['/'] + Slashed(b)
  {
    var s, t := Slashed(a + [c] + b), Slashed(a) + ['/'] + Slashed(b);
    assert |s| == |t|;
    assert forall k :: 0 <= k < |s| ==> s[k] == t[k];
  }

  /** The segments are what stands between separators of either kind: they are cut at each of them and nowhere else. */
  lemma SegmentsCut(a: string, c: char, b: string)
    requires Separator(c)
    ensures Segments(a + [c] + b) == Segments(a) + Segments(b)
  {
    hide Split;
    SlashedParts(a, c, b);
    hide Slashed;
    SplitAppend(Slashed(a), '/', Slashed(b));
  }

  lemma SegmentWhole(s: string)
    requires '/' !in s && '\\' !in s
    ensures Segments(s) == [s]
  {
    SlashedSame(s);
    SplitNoSeparator(s, '/');
  }

  // ---- the grammars agree --------------------------------------------------------------------

  /** What the file view accepts as one component, before it touches the file system. */
  predicate ValidComponent(part: string) {
    part != "" && part != "." && part != ".." && PlainText(part)
  }

  /** `Normalize` as a function of the text, for use beside the other grammars. */
  function Normalize(nfc: Mapping, fold: Mapping, raw: string): Option<seq<string>> {
    if Accepted(nfc, fold, raw) then Some(Composed(nfc, Segments(raw))) else None
  }

  lemma {:induction false} PiecesKeep(s: string, c: char)
    ensures forall k, x :: 0 <= k < |Split(s, c)| && x in Split(s, c)[k] ==> x in s
  {
    if s != [] {
      PiecesKeep(s[1..], c);
      var r := Split(s[1..], c);
      forall k, x | 0 <= k < |Split(s, c)| && x in Split(s, c)[k] ensures x in s {
        if s[0] == c {
          assert k > 0 ==> Split(s, c)[k] == r[k - 1];
        } else {
          assert Split(s, c)[k] == GrowFirst(s[0], r)[k];
          assert if k == 0 then x == s[0] || x in r[0] else x in r[k];
        }
        assert x == s[0] || x in s[1..];
      }
    }
  }

  lemma SegmentsPlain(raw: string)
    requires WholeFault(raw).None?
    ensures forall k :: 0 <= k < |Segments(raw)| ==> PlainText(Segments(raw)[k])
  {
    var t := Slashed(raw);
    SplitPieces(t, '/');
    PiecesKeep(t, '/');
    hide Control;
    forall k | 0 <= k < |Segments(raw)| ensures PlainText(Segments(raw)[k]) {
      forall c | c in Segments(raw)[k] ensures !Separator(c) && c != ':' && !Control(c) {
        assert c in Split(t, '/')[k] && c in t;
        var i :| 0 <= i < |t| && t[i] == c;
        assert raw[i] in raw;
      }
    }
  }

  /** Every component of an accepted target passes the file view's own check. */
  lemma ComponentsValid(nfc: Mapping, fold: Mapping, raw: string)
    requires Composition(nfc) && Accepted(nfc, fold, raw)
    ensures forall k :: 0 <= k < |Composed(nfc, Segments(raw))| ==> ValidComponent(Composed(nfc, Segments(raw))[k])
  {
    SegmentsPlain(raw);
    hide Split, Stem, PlainText, Control;
    var segs, parts := Segments(raw), Composed(nfc, Segments(raw));
    forall k | 0 <= k < |parts| ensures ValidComponent(parts[k]) {
      assert PlainText(segs[k]) && SegmentFault(fold, parts[k]).None?;
    }
  }

  // ---- joining the components ---------------------------------------------------------------

  lemma {:induction false} JoinMembers(parts: seq<string>)
    ensures forall c :: c in Join(parts, '/') ==> c == '/' || exists k :: 0 <= k < |parts| && c in parts[k]
  {
    if |parts| > 1 {
      JoinMembers(parts[1..]);
      forall c | c in Join(parts, '/') ensures c == '/' || exists k :: 0 <= k < |parts| && c in parts[k] {
        if c !in parts[0] && c != '/' {
          assert c in Join(parts[1..], '/');
          var k :| 0 <= k < |parts[1..]| && c in parts[1..][k];
          assert c in parts[k + 1];
        }
      }
    }
  }

  lemma {:induction false} SlashedSame(s: string)
    requires '\\' !in s
    ensures Slashed(s) == s
  {
    forall k | 0 <= k < |s| ensures Slashed(s)[k] == s[k] { assert s[k] in s; }
  }

  predicate ValidParts(parts: seq<string>) {
    |parts| > 0 && forall k :: 0 <= k < |parts| ==> ValidComponent(parts[k])
  }

  /** The shape of a join of valid components: its characters, its start, and that it splits back. */
  lemma JoinShape(parts: seq<string>)
    requires ValidParts(parts)
    ensures var j := Join(parts, '/');
      && j != "" && j[0] != '/' && '\\' !in j && ':' !in j && (forall c :: c in j ==> !Control(c))
      && Split(j, '/') == parts && Segments(j) == parts
  {
    JoinMembers(parts);
    forall k | 0 <= k < |parts| ensures '/' !in parts[k] {}
    SplitOfJoin(parts, '/');
    var j := Join(parts, '/');
    JoinStart(parts);
    hide Split, Join;
    forall c | c in j ensures c != '\\' && c != ':' && !Control(c) {
      if c != '/' {
        var k :| 0 <= k < |parts| && c in parts[k];
      }
    }
    SlashedSame(j);
  }

  lemma JoinStart(parts: seq<string>)
    requires ValidParts(parts)
    ensures Join(parts, '/') != "" && Join(parts, '/')[0] != '/'
  {
    assert parts[0] != "" && parts[0][0] in parts[0];
    assert Join(parts, '/')[0] == parts[0][0];
  }

  /** The recorded path passes the ledger's check exactly when it is within the ledger's length cap. */
  lemma JoinIsRelativePath(parts: seq<string>)
    requires ValidParts(parts)
    ensures RelativePath(Join(parts, '/')) <==> |Join(parts, '/')| <= MAX_RELATIVE_PATH_CHARS
  {
    JoinShape(parts);
    hide Join, Split, Control, Segments;
    var j := Join(parts, '/');
    forall k | 0 <= k < |j| ensures !Control(j[k]) && j[k] != '\\' { assert j[k] in j; }
    if |j| >= 2 { assert j[1] in j; }
  }

  /**
   Normalising the join of an accepted target's components gives the same components, exactly
   when the join is within the length cap; composition may have made it longer than the input.
   */
  lemma NormalizeJoin(nfc: Mapping, fold: Mapping, raw: string)
    requires Composition(nfc) && Accepted(nfc, fold, raw)
    ensures var parts := Composed(nfc, Segments(raw));
      Normalize(nfc, fold, Join(parts, '/')) ==
        if |Join(parts, '/')| <= MAX_TARGET_PATH_CHARS then Some(parts) else None
  {
    var parts := Composed(nfc, Segments(raw));
    ComponentsValid(nfc, fold, raw);
    JoinShape(parts);
    hide Split, Join, Stem, SegmentFault, Control;
    var j := Join(parts, '/');
    assert Composed(nfc, parts) == parts;
    JoinWhole(j);
  }

  lemma JoinWhole(j: string)
    requires j != "" && j[0] != '/' && '\\' !in j && ':' !in j && (forall c :: c in j ==> !Control(c))
    ensures WholeFault(j) == if |j| > MAX_TARGET_PATH_CHARS then Some(TooLong) else None
  {
    assert j[0] in j;
    if |j| >= 2 { assert j[1] in j; }
  }

  // ---- stable input -----------------------------------------------------------------------------

  /** A text whose segments composition leaves alone. */
  predicate Stable(nfc: Mapping, raw: string) {
    forall k :: 0 <= k < |Segments(raw)| ==> nfc(Segments(raw)[k]) == Segments(raw)[k]
  }

  /** On stable input all three grammars agree without any condition, and the join is the input itself. */
  lemma GrammarsAgree(nfc: Mapping, fold: Mapping, raw: string)
    requires Composition(nfc) && Accepted(nfc, fold, raw) && Stable(nfc, raw)
    ensures var parts := Composed(nfc, Segments(raw));
      && parts == Segments(raw) && ValidParts(parts) && Join(parts, '/') == Slashed(raw)
      && RelativePath(Join(parts, '/')) && Normalize(nfc, fold, Join(parts, '/')) == Some(parts)
  {
    var parts := Composed(nfc, Segments(raw));
    assert parts == Segments(raw);
    ComponentsValid(nfc, fold, raw);
    JoinOfSplit(Slashed(raw), '/');
    hide Split, Join, Stem, Control;
    JoinIsRelativePath(parts);
    NormalizeJoin(nfc, fold, raw);
  }

  // ---- the condition is needed ---------------------------------------------------------------

  const QA := '\U{0958}'

  /** One letter's canonical composition: U+0958 is excluded from composition and becomes two characters. */
  function Spelled(s: string): string {
    if s == [] then [] else (if s[0] == QA then "\U{0915}\U{093C}" else [s[0]]) + Spelled(s[1..])
  }

  lemma {:induction false} SpelledMembers(s: string)
    ensures forall c :: c in Spelled(s) ==> c == '\U{0915}' || c == '\U{093C}' || (c in s && c != QA)
  {
    if s != [] {
      SpelledMembers(s[1..]);
    }
  }

  lemma {:induction false} SpelledSame(s: string)
    requires QA !in s
    ensures Spelled(s) == s
  {
    if s != [] {
      assert s[0] in s && forall c :: c in s[1..] ==> c in s;
      SpelledSame(s[1..]);
      hide QA;
      assert s == [s[0]] + s[1..];
    }
  }

  lemma SpelledFacts(s: string)
    ensures QA !in Spelled(s) && (PlainText(s) ==> PlainText(Spelled(s)))
  {
    hide Spelled;
    SpelledMembers(s);
  }

  lemma SpelledComposes()
    ensures Composition(Spelled)
  {
    forall s ensures Spelled(Spelled(s)) == Spelled(s) && (PlainText(s) ==> PlainText(Spelled(s))) {
      SpelledFacts(s);
      SpelledSame(Spelled(s));
    }
  }

  function Repeat<T>(x: T, n: nat): (r: seq<T>)
    ensures |r| == n && forall k :: 0 <= k < n ==> r[k] == x
  {
    seq(n, _ => x)
  }

  lemma {:induction false} SpelledTwice(n: nat)
    ensures |Spelled(Repeat(QA, n))| == 2 * n
  {
    if n > 0 {
      assert Repeat(QA, n)[1..] == Repeat(QA, n - 1);
      SpelledTwice(n - 1);
    }
  }

  lemma {:induction false} JoinLength(part: string, n: nat)
    requires n > 0
    ensures |Join(Repeat(part, n), '/')| == n * |part| + n - 1
  {
    if n > 1 {
      assert Repeat(part, n)[1..] == Repeat(part, n - 1);
      JoinLength(part, n - 1);
    }
  }

  const NAME := Repeat(QA, 127)
  const LONG := Join(Repeat(NAME, 31), '/')

  /** An accepted target of 3967 characters whose recorded path has 7904, and so is refused by the ledger. */
  lemma CompositionMayLengthen(fold: Mapping)
    requires fold(Spelled(NAME)) == Spelled(NAME)
    ensures Composition(Spelled) && Accepted(Spelled, fold, LONG)
    ensures |Join(Composed(Spelled, Segments(LONG)), '/')| == 7904
    ensures !RelativePath(Join(Composed(Spelled, Segments(LONG)), '/'))
  {
    hide Spelled, Split, Join, SegmentFault, Control, PlainText, RelativePath, Segments;
    SpelledComposes();
    SpelledTwice(127);
    NameValid();
    JoinLength(NAME, 31);
    JoinShape(Repeat(NAME, 31));
    var part := Spelled(NAME);
    NameIsGood(fold, part);
    LongSpelled(part);
    JoinLength(part, 31);
    JoinWhole(LONG);
    TooLongForLedger(Join(Repeat(part, 31), '/'));
  }

  lemma NameValid()
    ensures ValidParts(Repeat(NAME, 31))
  {
    assert NAME[0] == QA;
    assert PlainText(NAME);
  }

  lemma LongSpelled(part: string)
    requires part == Spelled(NAME)
    ensures Composed(Spelled, Repeat(NAME, 31)) == Repeat(part, 31)
  {
    hide Spelled;
  }

  lemma TooLongForLedger(p: string)
    requires |p| > MAX_RELATIVE_PATH_CHARS
    ensures !RelativePath(p)
  {
  }

  lemma NameIsGood(fold: Mapping, part: string)
    requires part == Spelled(NAME) && |part| == 254 && fold(part) == part
    ensures SegmentFault(fold, part).None?
  {
    hide Spelled, Split, RESERVED;
    NameLetters(part);
    SplitNoSeparator(part, '.');
    LongNames(part);
  }

  lemma NameLetters(part: string)
    requires part == Spelled(NAME) && |part| == 254
    ensures '.' !in part && part[253] != '.' && part[253] != ' '
  {
    hide Spelled;
    SpelledLetters(127);
    assert part[253] in part;
  }

  lemma LongNames(w: string)
    requires |w| > 4
    ensures w !in RESERVED
  {
  }

  lemma {:induction false} SpelledLetters(n: nat)
    ensures forall c :: c in Spelled(Repeat(QA, n)) ==> c == '\U{0915}' || c == '\U{093C}'
  {
    if n > 0 {
      assert Repeat(QA, n)[1..] == Repeat(QA, n - 1);
      SpelledLetters(n - 1);
    }
  }
}
