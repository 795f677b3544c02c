/**
 The two failures of the ledger do occur: states a program can reach in which a reported success
 can still vanish, and a ledger at its cap on which a mint succeeds and leaves nothing readable.
 */
module Existence {
  import opened Prelude
  import opened Numerals
  import opened Json
  import opened Entries
  import opened Folding
  import opened Ledger
  import opened Protocol
  import opened LedgerRuns
  import opened SingleUse
  import opened Store
  import opened Outcomes
  import opened Calls
  import Ambiguity

  // ---- the length of a line ---------------------------------------------------------------------

  function FieldLength(f: Field): nat { |Quote(f.key)| + |DumpScalar(f.value)| + 2 }

  function Length(fields: seq<Field>): nat {
    if fields == [] then 0 else FieldLength(fields[0]) + Length(fields[1..])
  }

  lemma {:induction false} MembersLength(fields: seq<Field>)
    requires fields != []
    ensures |DumpMembers(fields)| == Length(fields)
    decreases |fields|
  {
    hide Quote, DumpScalar;
    if |fields| > 1 {
      MembersLength(fields[1..]);
    } else {
      assert fields[1..] == [];
    }
  }

  lemma HexUnescaped(s: string)
    requires Hex64(s)
    ensures Unescaped(s)
  {
  }

  /** A key and a plain value take their own lengths, two pairs of quotes, a colon and what follows. */
  lemma TextLength(key: string, s: string)
    requires Unescaped(key) && Unescaped(s)
    ensures FieldLength(Field(key, Text(s))) == |key| + |s| + 6
  {
    QuotedPlain(key);
    QuotedPlain(s);
    hide Quote;
  }

  lemma NumberLength(key: string, n: int)
    requires Unescaped(key)
    ensures FieldLength(Field(key, Number(n))) == |key| + |RenderInt(n)| + 4
  {
    QuotedPlain(key);
    hide Quote, RenderInt;
  }

  lemma ApprovalKeys()
    ensures Unescaped("created_at") && Unescaped("expires_at") && Unescaped("guard_risk")
    ensures Unescaped("relative_path") && Unescaped("repo_root_id")
  {
  }

  lemma CommonKeys()
    ensures Unescaped("approval_id") && Unescaped("bound_hash") && Unescaped("entry_type") && Unescaped("schema_version")
  {
  }

  lemma Words()
    ensures Unescaped("consumed_at") && Unescaped("approval") && Unescaped("consumption")
    ensures Unescaped("low") && Unescaped("high")
  {
  }

  lemma OneDigit()
    ensures |RenderInt(SCHEMA_VERSION)| == 1
  {
  }

  lemma Unfold4(a: Field, b: Field, c: Field, d: Field)
    ensures Length([a, b, c, d]) == FieldLength(a) + FieldLength(b) + FieldLength(c) + FieldLength(d)
  {
    hide FieldLength;
    assert [d][1..] == [] && [c, d][1..] == [d] && [b, c, d][1..] == [c, d] && [a, b, c, d][1..] == [b, c, d];
    assert Length([d]) == FieldLength(d);
    assert Length([c, d]) == FieldLength(c) + Length([d]);
    assert Length([b, c, d]) == FieldLength(b) + Length([c, d]);
  }

  lemma Unfold5(a: Field, b: Field, c: Field, d: Field, e: Field)
    ensures Length([a, b, c, d, e]) == FieldLength(a) + FieldLength(b) + FieldLength(c) + FieldLength(d) + FieldLength(e)
  {
    hide FieldLength;
    Unfold4(b, c, d, e);
    assert [a, b, c, d, e][1..] == [b, c, d, e];
  }

  lemma {:induction false} LengthAppend(a: seq<Field>, b: seq<Field>)
    ensures Length(a + b) == Length(a) + Length(b)
  {
    hide FieldLength;
    if a == [] {
      assert a + b == b;
    } else {
      assert (a + b)[1..] == a[1..] + b;
      LengthAppend(a[1..], b);
    }
  }

  lemma LineIsLength(e: Entry)
    ensures |LineBytes(e)| == Length(Fields(e)) + 2
  {
    LineShape(e);
    MembersLength(Fields(e));
    hide LineBytes, Fields, DumpMembers;
  }

  /** How long a consumption's line is: 224 bytes and the digits of its time. */
  lemma ConsumptionLength(e: Entry)
    requires e.Consumption? && Valid(e)
    ensures |LineBytes(e)| == 224 + |RenderInt(e.consumed)|
  {
    hide FieldLength, RenderInt, LineBytes, Unescaped, Length;
    LineIsLength(e);
    ApprovalKeys();
    CommonKeys();
    Words();
    OneDigit();
    HexUnescaped(e.id);
    HexUnescaped(e.bound);
    TextLength("approval_id", e.id);
    TextLength("bound_hash", e.bound);
    NumberLength("consumed_at", e.consumed);
    TextLength("entry_type", "consumption");
    NumberLength("schema_version", SCHEMA_VERSION);
    Unfold5(Fields(e)[0], Fields(e)[1], Fields(e)[2], Fields(e)[3], Fields(e)[4]);
  }

  /** And an approval's, when its path is written as it is. */
  lemma ApprovalLength(e: Entry)
    requires e.Approval? && Valid(e) && Unescaped(e.path)
    ensures |LineBytes(e)| == 351 + |e.risk| + |e.path| + |RenderInt(e.created)| + |RenderInt(e.expires)|
  {
    hide FieldLength, RenderInt, LineBytes, Unescaped, Length, RelativePath;
    LineIsLength(e);
    ApprovalKeys();
    CommonKeys();
    Words();
    OneDigit();
    HexUnescaped(e.id);
    HexUnescaped(e.bound);
    HexUnescaped(e.root);
    var f := Fields(e);
    TextLength("approval_id", e.id);
    TextLength("bound_hash", e.bound);
    NumberLength("created_at", e.created);
    TextLength("entry_type", "approval");
    NumberLength("expires_at", e.expires);
    TextLength("guard_risk", e.risk);
    TextLength("relative_path", e.path);
    TextLength("repo_root_id", e.root);
    NumberLength("schema_version", SCHEMA_VERSION);
    Unfold5(f[0], f[1], f[2], f[3], f[4]);
    Unfold4(f[5], f[6], f[7], f[8]);
    LengthAppend(f[..5], f[5..]);
    assert f == f[..5] + f[5..];
    assert f[..5] == [f[0], f[1], f[2], f[3], f[4]] && f[5..] == [f[5], f[6], f[7], f[8]];
  }

  // ---- records to fill a ledger with --------------------------------------------------------------

  /** This many of a letter that a digest may have. */
  function Pad(n: nat): (s: string)
    ensures |s| == n && forall k :: 0 <= k < n ==> s[k] == 'a'
  {
    if n == 0 then "" else Pad(n - 1) + "a"
  }

  /** The identifiers that the token generator gives, one after the other. */
  function Ident(n: nat): (s: string)
    requires n < 0x10000
    ensures |s| == 64
  {
    Hex4(n) + Pad(60)
  }

  /** One change to one file, approved and consumed again and again within one second. */
  const ART := Artifact(Pad(64), Pad(64), "f", "low")

  function Grant(n: nat): Entry
    requires n < 0x10000
  {
    Minted(ART, 1000, Ident(n))
  }

  function Use(n: nat): Entry
    requires n < 0x10000
  {
    Consumption(Ident(n), ART.bound, 1000)
  }

  /** The ledger of the first `n` approvals, each followed by its consumption. */
  function Log(n: nat): (es: seq<Entry>)
    requires n < 0x10000
    ensures |es| == 2 * n
  {
    if n == 0 then [] else Log(n - 1) + [Grant(n - 1)] + [Use(n - 1)]
  }

  lemma IdentHex(n: nat)
    requires n < 0x10000
    ensures Hex64(Ident(n))
  {
    Hex4RoundTrip(n, "");
    hide Hex4, Pad;
  }

  lemma IdentsDiffer(m: nat, n: nat)
    requires m < n < 0x10000
    ensures Ident(m) != Ident(n)
  {
    hide Hex4, Pad, ReadHex4;
    Hex4RoundTrip(m, Pad(60));
    Hex4RoundTrip(n, Pad(60));
  }

  lemma PadHex()
    ensures Hex64(ART.bound) && Hex64(ART.root)
  {
    hide Pad;
  }

  lemma PathOk()
    ensures RelativePath(ART.path) && Unescaped(ART.path) && ART.path == "f" && ART.risk == "low"
  {
    hide Pad;
    SplitNoSeparator("f", '/');
  }

  lemma RecordsValid(n: nat)
    requires n < 0x10000
    ensures Valid(Grant(n)) && Valid(Use(n)) && Unescaped(Grant(n).path) && Grant(n).path == "f" && Grant(n).risk == "low"
  {
    hide Pad, Ident, RelativePath, Hex64, Unescaped, ART;
    IdentHex(n);
    PadHex();
    PathOk();
  }

  lemma FourDigits()
    ensures |RenderInt(1000)| == 4 && |RenderInt(1300)| == 4
  {
    RenderStep(1000);
    RenderStep(1300);
  }

  lemma RenderStep(n: nat)
    requires 1000 <= n < 10000
    ensures |Render(n, 10)| == 4
  {
    assert |Render(n / 10 / 10 / 10, 10)| == 1;
    assert |Render(n / 10 / 10, 10)| == 2;
    assert |Render(n / 10, 10)| == 3;
  }

  lemma RecordLengths(n: nat)
    requires n < 0x10000
    ensures |LineBytes(Grant(n))| == 363 && |LineBytes(Use(n))| == 228
  {
    RecordsValid(n);
    FourDigits();
    hide LineBytes, Unescaped, Valid, RenderInt, Ident, ART;
    ApprovalLength(Grant(n));
    ConsumptionLength(Use(n));
  }

  lemma {:induction false} NotIssued(n: nat, m: nat)
    requires n <= m < 0x10000
    ensures !Issued(Log(n), Ident(m))
  {
    hide Ident, ART;
    if n > 0 {
      NotIssued(n - 1, m);
      IdentsDiffer(n - 1, m);
      hide Issued;
      IssuedAppend(Log(n - 1), Grant(n - 1), Ident(m));
      IssuedAppend(Log(n - 1) + [Grant(n - 1)], Use(n - 1), Ident(m));
    }
  }

  /** Between the pairs nothing is active, and inside one its approval. */
  lemma {:induction false} LogFolds(n: nat)
    requires n < 0x10000
    ensures Fold(Log(n), ART.root, 1000) == Success(map[])
    ensures Fold(Log(n) + [Grant(n)], ART.root, 1000) == Success(map[ART.bound := ViewOf(Grant(n))])
  {
    hide Ident, ART, Fold, Issued;
    if n == 0 {
      EmptyFold(ART.root);
    } else {
      LogFolds(n - 1);
      ConsumeRemovesOne(Log(n - 1) + [Grant(n - 1)], ART.root, 1000, ART.bound, 1000);
      assert map[ART.bound := ViewOf(Grant(n - 1))] - {ART.bound} == map[];
    }
    NotIssued(n, n);
    MintAddsOne(Log(n), ART.root, 1000, Grant(n));
  }

  lemma EmptyFold(root: string)
    ensures Fold([], root, 1000) == Success(map[])
  {
    Ambiguity.EmptySound();
    assert ActiveMap([], root, 1000) == map[];
  }

  // ---- calls in which the writing goes well -----------------------------------------------------------

  /** A call in which the lock, the read, the write and the file barrier all go well. */
  function Smooth(e: Entry, dir: DirAnswer): Env {
    Env(Granted, true, Opened, [Accepted(|LineBytes(e)|)], Synced, dir)
  }

  /** The disk it leaves: the line is durable, and the entry if it was or its barrier ran. */
  function SmoothDisk(d: Disk, e: Entry, dir: DirAnswer): Disk {
    Disk(true, d.content + LineBytes(e), |d.content| + |LineBytes(e)|, d.linked || (!d.present && dir == Asked(Synced)))
  }

  /** Whether the directory barrier is asked for and fails. */
  predicate Unsure(d: Disk, dir: DirAnswer) { !d.present && dir == Asked(SyncFailed) }

  lemma SmoothAppend(d: Disk, e: Entry, dir: DirAnswer)
    requires Valid(e) && Fits(d.content, e) && dir != Asked(DiedInSync)
    ensures AfterAppend(d, e, Smooth(e, dir)) == (SmoothDisk(d, e, dir), if Unsure(d, dir) then Indeterminate else Appended)
  {
    hide LineBytes, Valid, Moved;
    AllMoved(|LineBytes(e)|);
    assert LineBytes(e)[..|LineBytes(e)|] == LineBytes(e);
  }

  lemma AllMoved(n: nat)
    ensures Moved(n, [Accepted(n)]) == (n, Complete)
  {
    assert [Accepted(n)][1..] == [];
    assert Moved(0, []) == (0, Complete);
  }

  lemma SmoothReads(d: Disk, e: Entry, dir: DirAnswer)
    requires Valid(e) && Fits(d.content, e) && dir != Asked(DiedInSync) && Plain(d) && ReadDisk(d).Success?
    ensures ReadDisk(SmoothDisk(d, e, dir)) == Grown(d, e)
  {
    hide *;
    SmoothAppend(d, e, dir);
    AppendOutcome(d, e, Smooth(e, dir));
  }

  function MintOf(d: Disk, n: nat, dir: DirAnswer): (Disk, Outcome)
    requires n < 0x10000
  {
    AfterMint(d, ART.bound, Some(ART), 1000, Some(Ident(n)), Smooth(Grant(n), dir))
  }

  function UseOf(d: Disk, n: nat, dir: DirAnswer): (Disk, Outcome)
    requires n < 0x10000
  {
    AfterConsume(d, ART.bound, ART.root, 1000, Smooth(Use(n), dir))
  }

  /** A mint on a readable ledger with nothing active appends its record. */
  lemma MintAppends(d: Disk, n: nat, dir: DirAnswer)
    requires n < 0x10000 && ReadDisk(d) == Success(Log(n))
    ensures var after := AfterAppend(d, Grant(n), Smooth(Grant(n), dir));
      MintOf(d, n, dir) == (after.0, OutcomeOf(after.1, ViewOf(Grant(n))))
  {
    hide LineBytes, Ident, ART, Fold, Issued, ReadDisk, AfterAppend, Log;
    LogFolds(n);
    NotIssued(n, n);
  }

  /** And a consume on one with this approval active. */
  lemma UseAppends(d: Disk, n: nat, dir: DirAnswer)
    requires n < 0x10000 && d.present && ReadDisk(d) == Success(Log(n) + [Grant(n)])
    ensures var after := AfterAppend(d, Use(n), Smooth(Use(n), dir));
      UseOf(d, n, dir) == (after.0, OutcomeOf(after.1, ViewOf(Grant(n)).(state := Consumed)))
  {
    hide LineBytes, Ident, ART, Fold, ReadDisk, AfterAppend, Log;
    LogFolds(n);
  }

  lemma Fitting(d: Disk, e: Entry, dir: DirAnswer)
    requires |LineBytes(e)| <= 363 && |d.content| + |LineBytes(e)| <= MAX_LEDGER_BYTES
    ensures Fits(d.content, e) && |SmoothDisk(d, e, dir).content| == |d.content| + |LineBytes(e)|
  {
    hide LineBytes;
  }

  lemma SmoothMint(d: Disk, n: nat, dir: DirAnswer)
    requires n < 0x10000 && dir != Asked(DiedInSync) && Plain(d) && ReadDisk(d) == Success(Log(n))
    requires |d.content| + 363 <= MAX_LEDGER_BYTES
    ensures MintOf(d, n, dir) ==
      (SmoothDisk(d, Grant(n), dir), if Unsure(d, dir) then Uncertain else Recorded(ViewOf(Grant(n))))
    ensures ReadDisk(SmoothDisk(d, Grant(n), dir)) == Grown(d, Grant(n))
    ensures |SmoothDisk(d, Grant(n), dir).content| == |d.content| + 363
  {
    hide LineBytes, Valid, Ident, ART, ReadDisk, Unsure, AfterAppend, Unescaped, Plain, Grown, MintOf, SmoothDisk, Fits, Log;
    RecordsValid(n);
    RecordLengths(n);
    Fitting(d, Grant(n), dir);
    MintAppends(d, n, dir);
    SmoothAppend(d, Grant(n), dir);
    SmoothReads(d, Grant(n), dir);
  }

  lemma SmoothUse(d: Disk, n: nat, dir: DirAnswer)
    requires n < 0x10000 && dir != Asked(DiedInSync) && d.present && ReadDisk(d) == Success(Log(n) + [Grant(n)])
    requires |d.content| + 228 <= MAX_LEDGER_BYTES
    ensures UseOf(d, n, dir) == (SmoothDisk(d, Use(n), dir), Recorded(ViewOf(Grant(n)).(state := Consumed)))
    ensures ReadDisk(SmoothDisk(d, Use(n), dir)) == Grown(d, Use(n))
    ensures |SmoothDisk(d, Use(n), dir).content| == |d.content| + 228
  {
    hide LineBytes, Valid, Ident, ART, ReadDisk, AfterAppend, Unescaped, Grown, UseOf, SmoothDisk, Fits, Log;
    RecordsValid(n);
    RecordLengths(n);
    Fitting(d, Use(n), dir);
    UseAppends(d, n, dir);
    SmoothAppend(d, Use(n), dir);
    SmoothReads(d, Use(n), dir);
  }

  // ---- a success that can vanish ------------------------------------------------------------------

  /**
   From nothing: a mint whose directory barrier is skipped, or fails, and then a consume that reports
   success. A power loss can take the record of it away.
   */
  lemma VanishingSuccess(dir: DirAnswer)
    returns (mint: seq<Step>, a: Sys, use: seq<Step>, s: Sys, k: nat, loss: seq<Step>)
    requires dir == Unopened || dir == Asked(SyncFailed)
    ensures TakeAll(START, mint) == Some(a)
    ensures MintOf(START.disk, 0, dir) == (a.disk, if dir.Unopened? then Recorded(ViewOf(Grant(0))) else Uncertain)
    ensures TakeAll(a, use) == Some(s)
    ensures UseOf(a.disk, 0, Asked(Synced)) == (s.disk, Recorded(ViewOf(Grant(0)).(state := Consumed)))
    ensures k < |s.acked| && s.acked[k].epoch == s.epoch && s.acked[k].entry == Use(0) && !s.disk.linked
    ensures TakeAll(s, loss).Some? && !OnDisk(TakeAll(s, loss).value.disk, Use(0))
  {
    hide AfterMint, AfterConsume, LineBytes, Take, OnDisk, ReadDisk, Ident, ART;
    NothingYet();
    SmoothMint(START.disk, 0, dir);
    mint := MintIsRun(START, 0, ART.bound, Some(ART), 1000, Some(Ident(0)), Smooth(Grant(0), dir));
    a := TakeAll(START, mint).value;
    SmoothUse(a.disk, 0, Asked(Synced));
    use := ConsumeIsRun(a, 0, ART.bound, ART.root, 1000, Smooth(Use(0), Asked(Synced)));
    s := TakeAll(a, use).value;
    assert Reachable(a);
    ReachableAfter(a, use);
    k := |s.acked| - 1;
    loss := [PowerLoss(0, false)];
    AcknowledgedHolds(s, k);
    LostFile(s, Use(0));
  }

  lemma NothingYet()
    ensures ReadDisk(START.disk) == Success(Log(0)) && Plain(START.disk) && |START.disk.content| == 0
    ensures PhaseOf(START, 0).Idle? && START.lock.None?
  {
  }

  // ---- a ledger at its cap ---------------------------------------------------------------------------

  /** As many pairs as fill the ledger up to the entry cap. */
  const PAIRS := MAX_ENTRIES / 2

  /** The program has come to the ledger of the first `n` pairs, and nobody is at work. */
  ghost predicate Worn(s: Sys, n: nat)
    requires n <= PAIRS
  {
    && Reachable(s) && PhaseOf(s, 0).Idle? && s.lock.None? && Plain(s.disk)
    && ReadDisk(s.disk) == Success(Log(n)) && |s.disk.content| == 591 * n
  }

  lemma {:induction false} WornDown(n: nat) returns (s: Sys)
    requires n <= PAIRS
    ensures Worn(s, n)
  {
    hide *;
    if n == 0 {
      s := START;
      NoneWorn();
    } else {
      s := WornDown(n - 1);
      s := OnePair(s, n - 1);
    }
  }

  lemma NoneWorn()
    ensures Worn(START, 0)
  {
    hide ReadDisk, Log;
    NothingYet();
    assert TakeAll(START, []) == Some(START);
  }

  /** One more mint and one more consume. */
  lemma OnePair(s: Sys, n: nat) returns (t: Sys)
    requires n < PAIRS && Worn(s, n)
    ensures Worn(t, n + 1)
  {
    hide AfterMint, AfterConsume, LineBytes, Take, TakeAll, ReadDisk, Ident, ART, Reachable;
    SmoothMint(s.disk, n, Asked(Synced));
    var mint := MintIsRun(s, 0, ART.bound, Some(ART), 1000, Some(Ident(n)), Smooth(Grant(n), Asked(Synced)));
    var a := TakeAll(s, mint).value;
    ReachableAfter(s, mint);
    SmoothUse(a.disk, n, Asked(Synced));
    var use := ConsumeIsRun(a, 0, ART.bound, ART.root, 1000, Smooth(Use(n), Asked(Synced)));
    t := TakeAll(a, use).value;
    ReachableAfter(a, use);
  }

  /** A ledger of exactly as many records as may be read is reached, with room in bytes for one more. */
  lemma FullLedger() returns (s: Sys)
    ensures Worn(s, PAIRS) && |ReadDisk(s.disk).value| == MAX_ENTRIES && Fits(s.disk.content, Grant(PAIRS))
  {
    hide LineBytes, ReadDisk, Ident, ART, Reachable;
    s := WornDown(PAIRS);
    RecordLengths(PAIRS);
  }

  /**
   The failure at the cap occurs: on that ledger a mint reports success, for an approval that is
   recorded and durable, and what it leaves can no longer be read.
   */
  lemma MintAtTheCap(dir: DirAnswer) returns (s: Sys, mint: seq<Step>, t: Sys)
    requires dir != Asked(DiedInSync)
    ensures Reachable(s) && ReadDisk(s.disk).Success? && |ReadDisk(s.disk).value| == MAX_ENTRIES
    ensures TakeAll(s, mint) == Some(t) && MintOf(s.disk, PAIRS, dir) == (t.disk, Recorded(ViewOf(Grant(PAIRS))))
    ensures t.acked == s.acked + [Ack(Grant(PAIRS), Grant(PAIRS), s.epoch, t.disk.linked)]
    ensures ReadDisk(t.disk) == Failure(TooManyEntries)
  {
    hide AfterMint, LineBytes, Take, TakeAll, ReadDisk, Ident, ART, Reachable;
    s := FullLedger();
    SmoothMint(s.disk, PAIRS, dir);
    mint := MintIsRun(s, 0, ART.bound, Some(ART), 1000, Some(Ident(PAIRS)), Smooth(Grant(PAIRS), dir));
    t := TakeAll(s, mint).value;
  }
}
