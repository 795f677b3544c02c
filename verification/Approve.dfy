/**
 The approve command from its arguments to its exit code. Every answer of the terminal, the file
 system and the human is an input; what the exit code and the message claim is proved of the ledger.
 */
module Approve {
  import opened Prelude
  import opened Entries
  import opened Folding
  import opened Ledger
  import opened LedgerRuns
  import opened Store
  import opened Outcomes
  import opened Numerals
  import Utf8

  const EXIT_OK := 0
  const EXIT_DECLINE := 1
  const EXIT_ERROR := 2
  const MAX_CONFIRM_BYTES := 256
  const CONFIRM_PREFIX_LEN := 12

  // ---- the confirmation line ----------------------------------------------------------------

  predicate Uncontrolled(s: string) { forall c :: c in s ==> !Control(c) }

  /** A text stream's `readline(limit)`: through the first LF, or `limit` characters, or to the end. */
  method ReadLine(input: string, limit: nat) returns (raw: string)
    ensures raw <= input && |raw| <= limit
    ensures '\n' in raw ==> raw[|raw| - 1] == '\n' && '\n' !in raw[..|raw| - 1]
    ensures '\n' !in raw ==> |raw| == limit || raw == input
  {
    var n := 0;
    while n < limit && n < |input|
      invariant n <= limit && n <= |input| && '\n' !in input[..n]
    {
      n := n + 1;
      if input[n - 1] == '\n' {
        assert input[..n][..n - 1] == input[..n - 1];
        return input[..n];
      }
    }
    raw := input[..n];
  }

  /** The typed line is the phrase, ended by LF or CR LF, and the phrase is one that can be typed. */
  predicate Confirms(input: string, expected: string) {
    && Uncontrolled(expected) && |Utf8.Encode(expected)| <= MAX_CONFIRM_BYTES
    && (expected + "\n" <= input || expected + "\r\n" <= input)
  }

  method ReadConfirmation(input: string, expected: string) returns (ok: bool)
    ensures ok == Confirms(input, expected)
  {
    hide Confirms, Utf8.Encode;
    var raw := ReadLine(input, MAX_CONFIRM_BYTES + 2);
    if Confirms(input, expected) { TypedLine(input, expected, raw); }
    ok := false;
    if raw != "" && raw[|raw| - 1] == '\n' {
      var line := raw[..|raw| - 1];
      if line != "" && line[|line| - 1] == '\r' {
        line := line[..|line| - 1];
      }
      if |Utf8.Encode(line)| <= MAX_CONFIRM_BYTES && !(exists c :: c in line && Control(c)) && line == expected {
        LineConfirms(input, expected, raw);
        ok := true;
      }
    }
  }

  lemma LineConfirms(input: string, expected: string, raw: string)
    requires raw <= input && (raw == expected + "\n" || raw == expected + "\r\n")
    requires |Utf8.Encode(expected)| <= MAX_CONFIRM_BYTES && !(exists c :: c in expected && Control(c))
    ensures Confirms(input, expected)
  {
  }

  lemma {:induction false} EncodedLength(s: string)
    ensures |s| <= |Utf8.Encode(s)|
  {
    if s != [] {
      EncodedLength(s[1..]);
    }
  }

  /** A confirming line fits the read budget, so `readline` returns exactly it. */
  lemma TypedLine(input: string, expected: string, raw: string)
    requires Confirms(input, expected) && raw <= input && |raw| <= MAX_CONFIRM_BYTES + 2
    requires '\n' in raw ==> raw[|raw| - 1] == '\n' && '\n' !in raw[..|raw| - 1]
    requires '\n' !in raw ==> |raw| == MAX_CONFIRM_BYTES + 2 || raw == input
    ensures raw == if expected + "\n" <= input then expected + "\n" else expected + "\r\n"
    ensures raw != "" && raw[|raw| - 1] == '\n'
    ensures |Utf8.Encode(expected)| <= MAX_CONFIRM_BYTES && !(exists c :: c in expected && Control(c))
    ensures expected == "" || expected[|expected| - 1] != '\r'
  {
    EncodedLength(expected);
    hide Utf8.Encode;
    var full := if expected + "\n" <= input then expected + "\n" else expected + "\r\n";
    assert full[..|full| - 1] == expected || full[..|full| - 1] == expected + "\r";
    assert '\n' !in expected;
    FirstLf(input, full, raw);
    if expected != "" { assert expected[|expected| - 1] in expected; }
  }

  lemma FirstLf(input: string, full: string, raw: string)
    requires full <= input && raw <= input && full != "" && |full| <= MAX_CONFIRM_BYTES + 2
    requires full[|full| - 1] == '\n' && '\n' !in full[..|full| - 1]
    requires '\n' in raw ==> raw[|raw| - 1] == '\n' && '\n' !in raw[..|raw| - 1]
    requires '\n' !in raw ==> |raw| == MAX_CONFIRM_BYTES + 2 || raw == input
    ensures raw == full
  {
    if |raw| < |full| {
      NoLfBefore(input, full, raw);
    } else {
      LfWithin(input, full, raw);
    }
  }

  lemma NoLfBefore(input: string, full: string, raw: string)
    requires full <= input && raw <= input && |raw| < |full| && '\n' !in full[..|full| - 1]
    ensures '\n' !in raw
  {
    assert raw == full[..|full| - 1][..|raw|];
    assert forall c :: c in raw ==> c in full[..|full| - 1];
  }

  lemma LfWithin(input: string, full: string, raw: string)
    requires full <= input && raw <= input && full != "" && |full| <= |raw| && full[|full| - 1] == '\n'
    ensures '\n' in raw && (|full| < |raw| ==> '\n' in raw[..|raw| - 1])
  {
    assert raw[|full| - 1] == '\n';
    if |full| < |raw| { assert raw[..|raw| - 1][|full| - 1] == '\n'; }
  }

  /** The phrase that is asked for: a keyword and the first digits of the binding that was shown. */
  function Phrase(bound: string): string {
    "APPROVE " + if |bound| <= CONFIRM_PREFIX_LEN then bound else bound[..CONFIRM_PREFIX_LEN]
  }

  /** The input starts with the keyword, a space, the first twelve digits of this binding, and a line end. */
  predicate TypedFor(input: string, bound: string)
    requires |bound| >= 12
  {
    var line := "APPROVE " + bound[..12];
    line + "\n" <= input || line + "\r\n" <= input
  }

  /** That line, and for a binding of hexadecimal digits every such line, is the one that confirms. */
  lemma PhraseExact(input: string, bound: string)
    requires |bound| >= 12
    ensures Confirms(input, Phrase(bound)) ==> TypedFor(input, bound)
    ensures (forall k :: 0 <= k < 12 ==> IsLowerHex(bound[k])) ==> (Confirms(input, Phrase(bound)) <==> TypedFor(input, bound))
  {
    hide Utf8.Encode;
    var line := Phrase(bound);
    assert |line| == |bound| + 8 || line == "APPROVE " + bound[..12];
    if forall k :: 0 <= k < 12 ==> IsLowerHex(bound[k]) {
      forall c | c in line ensures c as int < 0x80 && !Control(c) {
        assert c in "APPROVE " || c in bound[..12];
      }
      Utf8.EncodeAscii(line);
    }
  }

  /** No input confirms two bindings that differ within their first twelve digits. */
  lemma ConfirmsOneBinding(input: string, b: string, c: string)
    requires |b| >= 12 && |c| >= 12 && Confirms(input, Phrase(b)) && Confirms(input, Phrase(c))
    ensures b[..12] == c[..12]
  {
    PhraseExact(input, b);
    PhraseExact(input, c);
    hide Confirms, Phrase;
    assert input[8..20] == b[..12] && input[8..20] == c[..12];
  }

  // ---- the command --------------------------------------------------------------------------

  datatype Reply = Interrupt | StreamError | Typed(input: string)

  /** Everything outside the program that one run of the command meets, in the order it meets it. */
  datatype Surroundings = Surroundings(
    args: bool,
    interactive: bool,
    loaded: bool,
    json: bool,
    accepted: bool,
    rooted: bool,
    built: Option<Artifact>,
    renderable: bool,
    lookupNow: int,
    lookup: Env,
    rendered: bool,
    displayed: bool,
    prompted: bool,
    flushed: bool,
    reply: Reply,
    rebuilt: Option<Artifact>,
    mintNow: int,
    token: Option<string>,
    mint: Env,
    announced: bool,
    announcedFlushed: bool)

  datatype Message =
    | Usage
    | NotInteractive
    | Unreadable
    | NotJson
    | Rejected
    | NoRoot
    | NotApprovable
    | Undisplayable
    | LedgerUnreadable
    | Uncaught
    | AlreadyActive
    | NotRendered
    | NotDisplayed
    | NotPrompted
    | NotDelivered
    | Cancelled
    | NoConfirmation
    | Mismatch
    | DuplicateAtMint
    | RepositoryChanged
    | IndeterminateState
    | NotRecorded
    | SystemFailure
    | RecordedNotShown
    | ApprovalRecorded

  /** The messages that say outright that nothing was approved. */
  predicate SaysNothingApproved(m: Message) {
    m in {NotDisplayed, NotPrompted, NotDelivered, RepositoryChanged, NotRecorded, SystemFailure}
  }

  datatype Ending = Ending(code: int, message: Message)

  function Fail(m: Message): Ending { Ending(EXIT_ERROR, m) }

  function Decline(m: Message): Ending { Ending(EXIT_DECLINE, m) }

  /** The human was shown the whole change and the prompt, and typed the phrase for this binding. */
  predicate Consented(w: Surroundings) {
    && w.built.Some? && w.renderable && w.rendered && w.displayed && w.prompted && w.flushed
    && w.reply.Typed? && Confirms(w.reply.input, Phrase(w.built.value.bound))
  }

  predicate Prepared(w: Surroundings) {
    w.args && w.interactive && w.loaded && w.json && w.accepted && w.rooted
  }

  /** The read-only lookup finds a readable ledger with nothing active for the binding. */
  predicate LookupClear(d: Disk, w: Surroundings)
    requires w.built.Some?
  {
    !d.present ||
    var active := Folded(d, w.built.value.root, w.lookupNow, w.lookup);
    active.Success? && w.built.value.bound !in active.value
  }

  /** Everything before the mint went well, the human's consent included. */
  predicate Reaches(d: Disk, w: Surroundings) {
    Prepared(w) && Consented(w) && LookupClear(d, w)
  }

  /** There is an artifact, and its text is fit for the screen. */
  predicate Screened(w: Surroundings) { Prepared(w) && w.built.Some? && w.renderable }

  /** What the early lookup folds: of a ledger that is not there, nothing. */
  function Looked(d: Disk, w: Surroundings): Result<map<string, View>, Outcome>
    requires w.built.Some?
  {
    if !d.present then Success(map[]) else Folded(d, w.built.value.root, w.lookupNow, w.lookup)
  }

  /** The change and the prompt were delivered to the terminal. */
  predicate Delivered(d: Disk, w: Surroundings) {
    Screened(w) && LookupClear(d, w) && w.rendered && w.displayed && w.prompted && w.flushed
  }

  /** How the command ends before the mint, first fault first, or nothing if it goes on. */
  function Refusal(d: Disk, w: Surroundings): (r: Option<Ending>)
    ensures r.Some? ==>
      && r.value.code in {EXIT_DECLINE, EXIT_ERROR}
      && r.value.message !in {IndeterminateState, RecordedNotShown, ApprovalRecorded, DuplicateAtMint, RepositoryChanged}
  {
    if !w.args then Some(Fail(Usage))
    else if !w.interactive then Some(Fail(NotInteractive))
    else if !w.loaded then Some(Fail(Unreadable))
    else if !w.json then Some(Fail(NotJson))
    else if !w.accepted then Some(Fail(Rejected))
    else if !w.rooted then Some(Fail(NoRoot))
    else if w.built.None? then Some(Fail(NotApprovable))
    else if !w.renderable then Some(Fail(Undisplayable))
    else if Looked(d, w).Failure? then
      Some(if Looked(d, w).error.Unavailable? then Fail(LedgerUnreadable) else Decline(Uncaught))
    else if w.built.value.bound in Looked(d, w).value then Some(Decline(AlreadyActive))
    else if !w.rendered then Some(Fail(NotRendered))
    else if !w.displayed then Some(Fail(NotDisplayed))
    else if !w.prompted then Some(Fail(NotPrompted))
    else if !w.flushed then Some(Fail(NotDelivered))
    else
      match w.reply
      case Interrupt => Some(Decline(Cancelled))
      case StreamError => Some(Decline(NoConfirmation))
      case Typed(input) => if Confirms(input, Phrase(w.built.value.bound)) then None else Some(Decline(Mismatch))
  }

  /** Every ending before the mint, with exactly the condition under which a caller meets it. */
  lemma RefusalExact(d: Disk, w: Surroundings)
    ensures var r := Refusal(d, w);
      && (r.None? <==> Reaches(d, w))
      && (r == Some(Fail(Usage)) <==> !w.args)
      && (r == Some(Fail(NotInteractive)) <==> w.args && !w.interactive)
      && (r == Some(Fail(Unreadable)) <==> w.args && w.interactive && !w.loaded)
      && (r == Some(Fail(NotJson)) <==> w.args && w.interactive && w.loaded && !w.json)
      && (r == Some(Fail(Rejected)) <==> w.args && w.interactive && w.loaded && w.json && !w.accepted)
      && (r == Some(Fail(NoRoot)) <==> w.args && w.interactive && w.loaded && w.json && w.accepted && !w.rooted)
      && (r == Some(Fail(NotApprovable)) <==> Prepared(w) && w.built.None?)
      && (r == Some(Fail(Undisplayable)) <==> Prepared(w) && w.built.Some? && !w.renderable)
    ensures var r := Refusal(d, w);
      && (r == Some(Fail(LedgerUnreadable)) <==> Screened(w) && Looked(d, w) == Failure(Unavailable))
      && (r == Some(Decline(Uncaught)) <==> Screened(w) && Looked(d, w) == Failure(Failed))
      && (r == Some(Decline(AlreadyActive)) <==>
            Screened(w) && Looked(d, w).Success? && w.built.value.bound in Looked(d, w).value)
    ensures var r := Refusal(d, w);
      && (r == Some(Fail(NotRendered)) <==> Screened(w) && LookupClear(d, w) && !w.rendered)
      && (r == Some(Fail(NotDisplayed)) <==> Screened(w) && LookupClear(d, w) && w.rendered && !w.displayed)
      && (r == Some(Fail(NotPrompted)) <==>
            Screened(w) && LookupClear(d, w) && w.rendered && w.displayed && !w.prompted)
      && (r == Some(Fail(NotDelivered)) <==>
            Screened(w) && LookupClear(d, w) && w.rendered && w.displayed && w.prompted && !w.flushed)
      && (r == Some(Decline(Cancelled)) <==> Delivered(d, w) && w.reply.Interrupt?)
      && (r == Some(Decline(NoConfirmation)) <==> Delivered(d, w) && w.reply.StreamError?)
      && (r == Some(Decline(Mismatch)) <==>
            Delivered(d, w) && w.reply.Typed? && !Confirms(w.reply.input, Phrase(w.built.value.bound)))
  {
    hide Confirms, Phrase, ReadDisk, Fold;
  }

  /** The read that fails with a traceback: everything up to the screen went well, and the ledger is there. */
  lemma UncaughtExact(d: Disk, w: Surroundings)
    ensures Refusal(d, w) == Some(Decline(Uncaught)) <==>
      Screened(w) && d.present && (w.lookup.lock.LockError? || (w.lookup.lock.Granted? && !w.lookup.read))
  {
    RefusalExact(d, w);
    hide Refusal, ReadDisk, Fold;
  }

  /** The whole record reached the file, and a durability barrier after it failed. */
  predicate BarrierFailed(d: Disk, e: Entry, env: Env) {
    && Valid(e) && Fits(d.content, e) && env.open.Opened? && Moved(|LineBytes(e)|, env.writes).1.Complete?
    && (env.fileSync.SyncFailed? || (env.fileSync.Synced? && !d.present && env.dirSync == Asked(SyncFailed)))
  }

  /** The mint reaches its append: the rebuilt binding is the shown one and nothing stands in its way. */
  predicate Appends(d: Disk, w: Surroundings) {
    && w.built.Some? && w.rebuilt.Some? && w.rebuilt.value.bound == w.built.value.bound
    && var active := Folded(d, w.rebuilt.value.root, w.mintNow, w.mint);
       && active.Success? && w.built.value.bound !in active.value
       && w.token.Some? && |w.token.value| == 64 && !Issued(ReadDisk(d).value, w.token.value)
  }

  /**
   The mint is reached exactly when the whole change and the prompt were delivered and the line typed is
   the keyword and the first digits of the binding on the screen.
   */
  lemma ConsentExact(d: Disk, w: Surroundings)
    requires w.built.Some? ==> |w.built.value.bound| >= 12
    ensures Reaches(d, w) ==> Delivered(d, w) && w.reply.Typed? && TypedFor(w.reply.input, w.built.value.bound)
    ensures
      && Delivered(d, w) && w.reply.Typed? && TypedFor(w.reply.input, w.built.value.bound)
      && (forall k :: 0 <= k < 12 ==> IsLowerHex(w.built.value.bound[k])) ==>
        Reaches(d, w)
  {
    hide Confirms, Phrase, TypedFor, LookupClear, Prepared;
    if w.built.Some? && w.reply.Typed? { PhraseExact(w.reply.input, w.built.value.bound); }
  }

  function NewRecord(w: Surroundings): Entry
    requires w.rebuilt.Some? && w.token.Some?
  {
    Minted(w.rebuilt.value, w.mintNow, w.token.value)
  }

  /** Up to the prompt and its answer: the ending if the command stops here, or none if the human consented. */
  method ShowAndAsk(store: ApprovalStore, w: Surroundings) returns (stop: Option<Ending>)
    requires !store.locked
    modifies store`locked
    ensures !store.locked && stop == Refusal(store.disk, w)
  {
    hide Folded, Confirms, Phrase;
    if !w.args { return Some(Fail(Usage)); }
    if !w.interactive { return Some(Fail(NotInteractive)); }
    if !w.loaded { return Some(Fail(Unreadable)); }
    if !w.json { return Some(Fail(NotJson)); }
    if !w.accepted { return Some(Fail(Rejected)); }
    if !w.rooted { return Some(Fail(NoRoot)); }
    if w.built.None? { return Some(Fail(NotApprovable)); }
    if !w.renderable { return Some(Fail(Undisplayable)); }
    var already := store.FindValid(w.built.value.bound, w.built.value.root, w.lookupNow, w.lookup);
    if already.Failure? {
      // Only the ledger's own errors are caught here; any other leaves the program with status 1.
      return Some(if already.error.Unavailable? then Fail(LedgerUnreadable) else Decline(Uncaught));
    }
    if already.value.Some? { return Some(Decline(AlreadyActive)); }
    if !w.rendered { return Some(Fail(NotRendered)); }
    if !w.displayed { return Some(Fail(NotDisplayed)); }
    if !w.prompted { return Some(Fail(NotPrompted)); }
    if !w.flushed { return Some(Fail(NotDelivered)); }
    match w.reply
    case Interrupt => return Some(Decline(Cancelled));
    case StreamError => return Some(Decline(NoConfirmation));
    case Typed(input) =>
      var confirmed := ReadConfirmation(input, Phrase(w.built.value.bound));
      stop := if confirmed then None else Some(Decline(Mismatch));
  }

  /** What the command says about each way the mint can end. */
  function Told(r: Outcome, w: Surroundings): (end: Ending)
    ensures end.code in {EXIT_OK, EXIT_DECLINE, EXIT_ERROR}
  {
    match r
    case Duplicate(_) => Decline(DuplicateAtMint)
    case Changed => Fail(RepositoryChanged)
    case Uncertain => Fail(IndeterminateState)
    case Unavailable => Fail(NotRecorded)
    case Recorded(_) =>
      if !w.announced || !w.announcedFlushed then Fail(RecordedNotShown) else Ending(EXIT_OK, ApprovalRecorded)
    case Absent => Fail(SystemFailure)
    case Failed => Fail(SystemFailure)
    case Dead => Fail(SystemFailure)
  }

  /** Which way of ending the mint each ending of the command stands for. */
  lemma ToldExact(r: Outcome, w: Surroundings)
    ensures var end := Told(r, w);
      && (end == Ending(EXIT_OK, ApprovalRecorded) <==> r.Recorded? && w.announced && w.announcedFlushed)
      && (end == Ending(EXIT_ERROR, RecordedNotShown) <==> r.Recorded? && !(w.announced && w.announcedFlushed))
      && (end == Ending(EXIT_DECLINE, DuplicateAtMint) <==> r.Duplicate?)
      && (end == Ending(EXIT_ERROR, RepositoryChanged) <==> r.Changed?)
      && (end == Ending(EXIT_ERROR, IndeterminateState) <==> r.Uncertain?)
      && (end == Ending(EXIT_ERROR, NotRecorded) <==> r.Unavailable?)
      && (end == Ending(EXIT_ERROR, SystemFailure) <==> r.Absent? || r.Failed? || r.Dead?)
  {
  }

  /** The mint ends indeterminate exactly when its whole record is in the file and a barrier failed. */
  lemma UncertainIff(d: Disk, w: Surroundings)
    requires w.built.Some?
    ensures AfterMint(d, w.built.value.bound, w.rebuilt, w.mintNow, w.token, w.mint).1.Uncertain?
      <==> Appends(d, w) && BarrierFailed(d, NewRecord(w), w.mint)
  {
    hide ReadDisk, Fold, Valid, LineBytes, Issued, Moved;
  }

  lemma RecordedAppends(d: Disk, w: Surroundings)
    requires w.built.Some?
    requires AfterMint(d, w.built.value.bound, w.rebuilt, w.mintNow, w.token, w.mint).1.Recorded?
    ensures Appends(d, w)
    ensures AfterMint(d, w.built.value.bound, w.rebuilt, w.mintNow, w.token, w.mint).1.view == ViewOf(NewRecord(w))
  {
    hide ReadDisk, Fold, Valid, LineBytes, Issued, Moved;
  }

  /** The approval the command recorded is durable, and the only change to what is active. */
  predicate Approved(d: Disk, t: Disk, w: Surroundings) {
    && Appends(d, w) && ReadDisk(d).Success?
    && MintJustified(d, t, w.rebuilt.value, w.mintNow, ViewOf(NewRecord(w))) && t.linked == LinkedAfter(d, w.mint)
  }

  /** What each ending of the mint lets the command say of the ledger before and after. */
  predicate Truthful(d: Disk, t: Disk, w: Surroundings, end: Ending) {
    && (end.code == EXIT_OK ==> Approved(d, t, w) && w.announced && w.announcedFlushed)
    && (end.code == EXIT_DECLINE ==> t == d)
    && (SaysNothingApproved(end.message) ==> Unchanged(d, t))
    && (end.message.IndeterminateState? <==> Appends(d, w) && BarrierFailed(d, NewRecord(w), w.mint))
    && (end.message.RecordedNotShown? ==> end.code == EXIT_ERROR && Approved(d, t, w))
    && (end.message.ApprovalRecorded? <==> end.code == EXIT_OK)
  }

  lemma ToldFrom(d: Disk, t: Disk, r: Outcome, w: Surroundings)
    requires r.Recorded? ==> Approved(d, t, w)
    requires r.Duplicate? || r.Changed? ==> t == d
    requires r.Unavailable? || r.Failed? ==> Unchanged(d, t)
    requires r.Uncertain? <==> Appends(d, w) && BarrierFailed(d, NewRecord(w), w.mint)
    requires !r.Absent?
    ensures r.Dead? || Truthful(d, t, w, Told(r, w))
  {
    Same(d);
    hide Approved, Appends, BarrierFailed, Unchanged;
  }

  lemma ToldTruthful(d: Disk, w: Surroundings)
    requires Plain(d) && w.built.Some?
    ensures var (t, r) := AfterMint(d, w.built.value.bound, w.rebuilt, w.mintNow, w.token, w.mint);
      r.Dead? || Truthful(d, t, w, Told(r, w))
  {
    hide AfterMint, BarrierFailed, MintJustified, Unchanged, ReadDisk, Minted, Grown, Folded, Truthful;
    var bound := w.built.value.bound;
    var (t, r) := AfterMint(d, bound, w.rebuilt, w.mintNow, w.token, w.mint);
    MintOutcome(d, bound, w.rebuilt, w.mintNow, w.token, w.mint);
    UncertainIff(d, w);
    if r.Recorded? { RecordedAppends(d, w); }
    ToldFrom(d, t, r, w);
  }

  /**
   The whole command. Other processes may work on the ledger while the human reads: `meanwhile` is
   how the mint finds the disk. A process killed inside the mint has no exit code; `alive` is then,
   and only then, false, and the disk is what that mint left.
   */
  method ApproveCommand(store: ApprovalStore, w: Surroundings, meanwhile: Disk) returns (end: Ending, alive: bool)
    requires !store.locked && Plain(meanwhile)
    modifies store
    ensures !store.locked
    // The mint is reached only by the line typed for this binding, after all of it was delivered.
    ensures Reaches(old(store.disk), w) && |w.built.value.bound| >= 12 ==>
      Delivered(old(store.disk), w) && w.reply.Typed? && TypedFor(w.reply.input, w.built.value.bound)
    // Exactly when the approval is recorded and announced, found there already, or about a changed repository.
    ensures end == Ending(EXIT_OK, ApprovalRecorded) <==>
      && Reaches(old(store.disk), w) && w.announced && w.announcedFlushed
      && Mintable(meanwhile, w.built.value.bound, w.rebuilt, w.mintNow, w.token, w.mint)
    ensures end == Ending(EXIT_DECLINE, DuplicateAtMint) <==>
      Reaches(old(store.disk), w) && Held(meanwhile, w.built.value.bound, w.rebuilt, w.mintNow, w.mint)
    ensures end == Ending(EXIT_ERROR, RepositoryChanged) <==>
      && Reaches(old(store.disk), w) && w.mint.lock.Granted?
      && w.rebuilt.Some? && w.rebuilt.value.bound != w.built.value.bound
    // Nothing is written before the change and the prompt were delivered and the phrase matched.
    ensures !Reaches(old(store.disk), w) ==>
      && alive && store.disk == old(store.disk) && Some(end) == Refusal(old(store.disk), w)
      && end.code != EXIT_OK && end.message !in {IndeterminateState, RecordedNotShown, ApprovalRecorded}
    ensures end.code in {EXIT_OK, EXIT_DECLINE, EXIT_ERROR}
    ensures Reaches(old(store.disk), w) ==>
      var (t, r) := AfterMint(meanwhile, w.built.value.bound, w.rebuilt, w.mintNow, w.token, w.mint);
      store.disk == t && (alive <==> !r.Dead?) && (alive ==> end == Told(r, w) && Truthful(meanwhile, t, w, end))
  {
    hide Folded, ReadDisk, Truthful, AfterMint, Reaches, Refusal, Told, Delivered, TypedFor;
    hide Mintable, Held;
    alive := true;
    if w.built.Some? && |w.built.value.bound| >= 12 { ConsentExact(store.disk, w); }
    var stop := ShowAndAsk(store, w);
    RefusalExact(store.disk, w);
    if stop.Some? {
      return stop.value, true;
    }
    Consents(store.disk, w);
    store.disk := meanwhile;
    ToldTruthful(meanwhile, w);
    MintSucceedsIff(meanwhile, w.built.value.bound, w.rebuilt, w.mintNow, w.token, w.mint);
    var r := store.Mint(w.built.value.bound, w.rebuilt, w.mintNow, w.token, w.mint);
    ToldExact(r, w);
    return Told(r, w), !r.Dead?;
  }

  lemma Consents(d: Disk, w: Surroundings)
    requires Reaches(d, w)
    ensures w.built.Some?
  {
  }
}
