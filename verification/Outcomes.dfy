/**
 What a caller of the store may conclude from each answer: a success means a complete and durable
 record that rests on a live approval, a plain failure means that nothing was added, and only the
 indeterminate answer leaves a complete record without its barriers.
 */
module Outcomes {
  import opened Prelude
  import opened Entries
  import opened Folding
  import opened Ledger
  import opened Protocol
  import opened LedgerRuns
  import opened Store

  /** A file that was never created holds no bytes. */
  predicate Plain(d: Disk) { !d.present ==> d.content == [] }

  /** How a ledger reads once one whole record is on its end: at the entry cap it no longer reads. */
  function Grown(d: Disk, e: Entry): Result<seq<Entry>, Fault>
    requires ReadDisk(d).Success?
  {
    var es := ReadDisk(d).value;
    if |es| < MAX_ENTRIES then Success(es + [e]) else Failure(TooManyEntries)
  }

  /** The ledger reads as it did, or ends in a torn record and reads as nothing at all. */
  predicate Unchanged(d: Disk, t: Disk) {
    ReadDisk(t) == ReadDisk(d) || ReadDisk(t) == Failure(TornTail)
  }

  /**
   Whether the directory entry is durable after a success: if it was before, or if this append
   created the file and its directory barrier ran.
   */
  predicate LinkedAfter(d: Disk, env: Env) { d.linked || (!d.present && env.dirSync == Asked(Synced)) }

  predicate AllDurable(t: Disk) { t.present && t.durable == |t.content| }

  // ---- one append ---------------------------------------------------------------------------

  /** Reading after `k` bytes of a record's line have reached the file. */
  lemma ReadAfter(d: Disk, e: Entry, k: nat, t: Disk)
    requires Plain(d) && ReadDisk(d).Success? && Valid(e) && Fits(d.content, e) && k <= |LineBytes(e)|
    requires t.present && t.content == d.content + LineBytes(e)[..k]
    ensures ReadDisk(t) == if k == |LineBytes(e)| then Grown(d, e) else if k == 0 then ReadDisk(d) else Failure(TornTail)
  {
    EmptyContent(d);
    LineShape(e);
    hide LineBytes, ReadLedger, Fits, Valid;
    CrashPrefix(d.content, e, k);
  }

  lemma EmptyContent(d: Disk)
    requires Plain(d) && ReadDisk(d).Success?
    ensures ReadLedger(d.content) == ReadDisk(d)
  {
  }

  /** Every answer of an append, and what the ledger then reads as. */
  lemma AppendOutcome(d: Disk, e: Entry, env: Env)
    requires Plain(d) && ReadDisk(d).Success?
    ensures var (t, how) := AfterAppend(d, e, env);
      && (how.Appended? ==> Valid(e) && ReadDisk(t) == Grown(d, e) && AllDurable(t) && t.linked == LinkedAfter(d, env))
      && (how.Indeterminate? ==> Valid(e) && ReadDisk(t) == Grown(d, e))
      && (how.Indeterminate? ==> env.fileSync.SyncFailed? || (AllDurable(t) && !d.present && env.dirSync == Asked(SyncFailed)))
      && (how.Refused? || how.TornRefusal? || how.TornError? ==> Unchanged(d, t))
      && (how.Crashed? ==> Unchanged(d, t) || ReadDisk(t) == Grown(d, e))
  {
    hide ReadDisk, LineBytes, Valid, Grown;
    if Valid(e) && Fits(d.content, e) && env.open.Opened? {
      var (k, how) := Moved(|LineBytes(e)|, env.writes);
      var t := d.(present := true, content := d.content + LineBytes(e)[..k]);
      ReadAfter(d, e, k, t);
      hide Moved;
      if how.Complete? {
        BarriersOutcome(t, !d.present, env);
      }
    } else {
      OpenedRefused(d);
    }
  }

  lemma OpenedRefused(d: Disk)
    requires Plain(d) && ReadDisk(d).Success?
    ensures ReadDisk(d.(present := true)) == ReadDisk(d)
  {
  }

  lemma BarriersOutcome(t: Disk, created: bool, env: Env)
    requires t.present
    ensures var (f, how) := AfterBarriers(t, created, env);
      && ReadDisk(f) == ReadDisk(t) && f.present && f.content == t.content
      && (how.Appended? ==> AllDurable(f) && f.linked == (t.linked || (created && env.dirSync == Asked(Synced))))
      && (how.Appended? || how.Indeterminate? || how.Crashed?)
      && (how.Indeterminate? ==> env.fileSync.SyncFailed? || (AllDurable(f) && created && env.dirSync == Asked(SyncFailed)))
  {
    hide ReadLedger;
  }

  // ---- whole calls -----------------------------------------------------------------------------

  /** A consume that succeeded rests on an active approval and leaves exactly that key inactive. */
  predicate ConsumeJustified(d: Disk, t: Disk, bound: string, root: string, now: int, view: View)
    requires ReadDisk(d).Success?
  {
    var es, e := ReadDisk(d).value, Consumption(view.id, bound, now);
    var active := Fold(es, root, now);
    && active.Success? && bound in active.value && active.value[bound] == view.(state := Active)
    && view.state == Consumed && view.created <= now < view.expires && GrantOf(view) in es
    && AllDurable(t) && ReadDisk(t) == Grown(d, e)
    && Fold(es + [e], root, now) == Success(active.value - {bound})
  }

  /** What each answer of `_consume_approval` says about the ledger, before and after. */
  lemma ConsumeOutcome(d: Disk, bound: string, root: string, now: int, env: Env)
    requires Plain(d)
    ensures var (t, r) := AfterConsume(d, bound, root, now, env);
      && (r.Recorded? ==> ReadDisk(d).Success? && ConsumeJustified(d, t, bound, root, now, r.view))
      && (r.Recorded? ==> t.linked == d.linked)
      && (r.Absent? ==> t == d)
      && (r.Unavailable? || r.Failed? ==> Unchanged(d, t))
      && (r.Uncertain? ==> ReadDisk(d).Success? && ReadDisk(t) != ReadDisk(d) && ReadDisk(t) != Failure(TornTail))
      && !r.Duplicate? && !r.Changed?
  {
    hide ReadDisk, AfterAppend, Fold, Unchanged, Grown, AllDurable;
    var active := Folded(d, root, now, env);
    Same(d);
    if d.present && active.Success? && bound in active.value {
      var view := active.value[bound];
      var e := Consumption(view.id, view.bound, now);
      ActiveNow(d, root, now, env, bound);
      AppendOutcome(d, e, env);
      GrownDiffers(d, e);
      ConsumeStep(d, bound, root, now, env);
    }
  }

  lemma Same(d: Disk)
    ensures Unchanged(d, d)
  {
  }

  lemma GrownDiffers(d: Disk, e: Entry)
    requires ReadDisk(d).Success?
    ensures Grown(d, e) != ReadDisk(d) && Grown(d, e) != Failure(TornTail)
  {
    hide ReadLedger;
  }

  lemma ConsumeStep(d: Disk, bound: string, root: string, now: int, env: Env)
    requires Folded(d, root, now, env).Success? && bound in Folded(d, root, now, env).value
    ensures ReadDisk(d).Success?
    ensures var view := Folded(d, root, now, env).value[bound];
      var active := Fold(ReadDisk(d).value, root, now);
      && active.Success? && active.value == Folded(d, root, now, env).value && view.state == Active
      && Fold(ReadDisk(d).value + [Consumption(view.id, bound, now)], root, now) == Success(active.value - {bound})
  {
    var es := ReadDisk(d).value;
    ConsumeRemovesOne(es, root, now, bound, now);
    FoldIsActive(es, root, now, bound);
    hide ReadDisk, Fold;
  }

  lemma FoldIsActive(es: seq<Entry>, root: string, now: int, bound: string)
    requires Fold(es, root, now).Success? && bound in Fold(es, root, now).value
    ensures Fold(es, root, now).value[bound].state == Active
  {
    hide Corrupt, Spent;
  }

  /** A mint that succeeded put exactly one approval on a ledger that held none for its binding. */
  predicate MintJustified(d: Disk, t: Disk, art: Artifact, now: int, view: View)
    requires ReadDisk(d).Success?
  {
    var es := ReadDisk(d).value;
    var e := Minted(art, now, view.id);
    var active := Fold(es, art.root, now);
    && active.Success? && art.bound !in active.value && !Issued(es, view.id) && Valid(e) && view == ViewOf(e)
    && AllDurable(t) && ReadDisk(t) == Grown(d, e)
    && Fold(es + [e], art.root, now) == Success(active.value[art.bound := view])
  }

  /** What each answer of `_mint` says: "nothing was approved" is true of every plain failure. */
  lemma MintOutcome(d: Disk, expected: string, rebuilt: Option<Artifact>, now: int, token: Option<string>, env: Env)
    requires Plain(d)
    ensures var (t, r) := AfterMint(d, expected, rebuilt, now, token, env);
      && (r.Recorded? ==> rebuilt.Some? && rebuilt.value.bound == expected && ReadDisk(d).Success?)
      && (r.Recorded? ==> MintJustified(d, t, rebuilt.value, now, r.view) && t.linked == LinkedAfter(d, env))
      && (r.Duplicate? || r.Changed? ==> t == d)
      && (r.Unavailable? || r.Failed? ==> Unchanged(d, t))
      && (r.Uncertain? ==> rebuilt.Some? && token.Some? && ReadDisk(d).Success?)
      && (r.Uncertain? ==> ReadDisk(t) == Grown(d, Minted(rebuilt.value, now, token.value)))
      && !r.Absent?
  {
    hide ReadDisk, AfterAppend, Fold, Unchanged, Grown, AllDurable, Issued, Valid;
    Same(d);
    if env.lock.Granted? && rebuilt.Some? && rebuilt.value.bound == expected {
      var art := rebuilt.value;
      var active := Folded(d, art.root, now, env);
      if active.Success? && expected !in active.value && token.Some? && !Issued(ReadDisk(d).value, token.value) {
        var e := Minted(art, now, token.value);
        AppendOutcome(d, e, env);
        MintStep(d, art, now, token.value, env);
      }
    }
  }

  lemma MintStep(d: Disk, art: Artifact, now: int, id: string, env: Env)
    requires Folded(d, art.root, now, env).Success? && art.bound !in Folded(d, art.root, now, env).value
    requires !Issued(ReadDisk(d).value, id)
    ensures var e := Minted(art, now, id);
      var active := Fold(ReadDisk(d).value, art.root, now);
      && active.Success? && active.value == Folded(d, art.root, now, env).value
      && Fold(ReadDisk(d).value + [e], art.root, now) == Success(active.value[art.bound := ViewOf(e)])
  {
    hide ReadDisk, Issued, Fold;
    MintAddsOne(ReadDisk(d).value, art.root, now, Minted(art, now, id));
  }

  // ---- exactly when a call succeeds ----------------------------------------------------------------

  /** Under the lock the ledger reads, is sound, and has no two live approvals of one binding. */
  predicate Answers(d: Disk, root: string, now: int, env: Env) {
    && env.lock.Granted? && env.read && ReadDisk(d).Success?
    && !Corrupt(ReadDisk(d).value) && !Ambiguous(ReadDisk(d).value, root, now)
  }

  /** The ledger holds an approval of this binding for this root, unspent and inside its lifetime. */
  predicate Holds(d: Disk, a: Entry, bound: string, root: string, now: int)
    requires ReadDisk(d).Success?
  {
    a in ReadDisk(d).value && Live(ReadDisk(d).value, a, root, now) && a.bound == bound
  }

  ghost predicate HoldsOne(d: Disk, bound: string, root: string, now: int)
    requires ReadDisk(d).Success?
  {
    exists a :: Holds(d, a, bound, root, now)
  }

  /** The record is within the caps, all of it reaches the open file, and the file barrier passes. */
  predicate Lands(d: Disk, e: Entry, env: Env) {
    && Fits(d.content, e) && env.open.Opened?
    && Moved(|LineBytes(e)|, env.writes).1.Complete? && env.fileSync.Synced?
  }

  /** The directory barrier is not needed, is skipped, or passes. */
  predicate Entered(d: Disk, env: Env) { d.present || env.dirSync in {Unopened, Asked(Synced)} }

  /** An append reports success exactly for a valid record that lands. */
  lemma AppendSucceedsIff(d: Disk, e: Entry, env: Env)
    ensures AfterAppend(d, e, env).1.Appended? <==> Valid(e) && Lands(d, e, env) && Entered(d, env)
  {
    hide Valid, LineBytes, Moved;
  }

  /** What the locked read and fold make of the ledger, in terms of its records. */
  lemma FoldedExact(d: Disk, root: string, now: int, env: Env, bound: string)
    ensures Folded(d, root, now, env).Success? <==> Answers(d, root, now, env)
    ensures Folded(d, root, now, env).Failure? ==> Folded(d, root, now, env).error in {Unavailable, Failed}
    ensures Answers(d, root, now, env) ==>
      (bound in Folded(d, root, now, env).value <==> HoldsOne(d, bound, root, now))
    ensures Answers(d, root, now, env) ==> forall a :: Holds(d, a, bound, root, now) ==>
      bound in Folded(d, root, now, env).value && Folded(d, root, now, env).value[bound] == ViewOf(a)
  {
    hide ReadDisk, Corrupt, Spent;
    if Answers(d, root, now, env) && bound in Folded(d, root, now, env).value {
      var es := ReadDisk(d).value;
      var a :| a in es && Live(es, a, root, now) && a.bound == bound;
      assert Holds(d, a, bound, root, now);
    }
  }

  /** A consumption of an approval that stands in a readable ledger, in its lifetime, is always valid. */
  lemma ConsumptionValid(d: Disk, a: Entry, bound: string, root: string, now: int)
    requires ReadDisk(d).Success? && Holds(d, a, bound, root, now)
    ensures Valid(Consumption(a.id, bound, now))
  {
    DiskIsValid(d, a);
    hide ReadDisk, Hex64, RelativePath;
  }

  lemma DiskIsValid(d: Disk, a: Entry)
    requires ReadDisk(d).Success? && a in ReadDisk(d).value
    ensures Valid(a)
  {
    if d.present { ReadIsValid(d.content); }
    hide Valid, ReadLedger;
  }

  /**
   Exactly when `_consume_approval` succeeds, and exactly when it says that there is nothing to consume:
   the records of the ledger and the answers of the system decide, and nothing else about the approval.
   */
  lemma ConsumeSucceedsIff(d: Disk, bound: string, root: string, now: int, env: Env)
    ensures AfterConsume(d, bound, root, now, env).1.Recorded? <==>
      && d.present && Answers(d, root, now, env)
      && exists a :: Holds(d, a, bound, root, now) && Lands(d, Consumption(a.id, bound, now), env)
    ensures AfterConsume(d, bound, root, now, env).1.Absent? <==>
      !d.present || (Answers(d, root, now, env) && !HoldsOne(d, bound, root, now))
    ensures AfterConsume(d, bound, root, now, env).1.Recorded? ==>
      exists a :: Holds(d, a, bound, root, now)
        && AfterConsume(d, bound, root, now, env).1.view == ViewOf(a).(state := Consumed)
  {
    hide ReadDisk, Corrupt, Ambiguous, Holds, Lands, Folded, AfterAppend, Valid;
    FoldedExact(d, root, now, env, bound);
    if d.present && Answers(d, root, now, env) && HoldsOne(d, bound, root, now) {
      var a :| Holds(d, a, bound, root, now);
      ConsumptionValid(d, a, bound, root, now);
      AppendSucceedsIff(d, Consumption(a.id, bound, now), env);
      HeldOnce(d, a, bound, root, now, env);
    }
  }

  /** There is but one such approval in a ledger that answers. */
  lemma HeldOnce(d: Disk, a: Entry, bound: string, root: string, now: int, env: Env)
    requires Answers(d, root, now, env) && Holds(d, a, bound, root, now)
    ensures a.Approval? && ViewOf(a).id == a.id && ViewOf(a).bound == bound
    ensures forall b :: Holds(d, b, bound, root, now) ==> b == a
  {
    hide ReadDisk, Corrupt, Spent;
  }

  /** The rebuilt change is the one that was shown. */
  predicate Rebuilt(expected: string, rebuilt: Option<Artifact>) { rebuilt.Some? && rebuilt.value.bound == expected }

  /** An identifier of the right length that no record of the ledger has. */
  predicate NewToken(d: Disk, token: Option<string>)
    requires ReadDisk(d).Success?
  {
    token.Some? && |token.value| == 64 && !Issued(ReadDisk(d).value, token.value)
  }

  /** The same change, a ledger without it, a new identifier, and a record that lands. */
  ghost predicate Mintable(d: Disk, expected: string, rebuilt: Option<Artifact>, now: int, token: Option<string>, env: Env) {
    && Rebuilt(expected, rebuilt) && Answers(d, rebuilt.value.root, now, env)
    && !HoldsOne(d, expected, rebuilt.value.root, now) && NewToken(d, token)
    && Valid(Minted(rebuilt.value, now, token.value)) && Lands(d, Minted(rebuilt.value, now, token.value), env)
    && Entered(d, env)
  }

  /** The same change, and a ledger that holds an approval of it already. */
  ghost predicate Held(d: Disk, expected: string, rebuilt: Option<Artifact>, now: int, env: Env) {
    && Rebuilt(expected, rebuilt) && Answers(d, rebuilt.value.root, now, env)
    && HoldsOne(d, expected, rebuilt.value.root, now)
  }

  /** Exactly when `_mint` succeeds, finds an approval already there, or finds the change changed. */
  lemma MintSucceedsIff(d: Disk, expected: string, rebuilt: Option<Artifact>, now: int, token: Option<string>, env: Env)
    ensures var r := AfterMint(d, expected, rebuilt, now, token, env).1;
      && (r.Recorded? <==> Mintable(d, expected, rebuilt, now, token, env))
      && (r.Duplicate? <==> Held(d, expected, rebuilt, now, env))
      && (r.Changed? <==> env.lock.Granted? && rebuilt.Some? && rebuilt.value.bound != expected)
  {
    hide ReadDisk, Corrupt, Ambiguous, HoldsOne, Lands, Folded, AfterAppend, Valid, Issued;
    if rebuilt.Some? {
      FoldedExact(d, rebuilt.value.root, now, env, expected);
      if token.Some? { AppendSucceedsIff(d, Minted(rebuilt.value, now, token.value), env); }
    }
  }
}
