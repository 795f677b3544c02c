/** When the fold can find two active approvals for one binding, and why honest clocks rule it out. */
module Ambiguity {
  import opened Prelude
  import opened Entries
  import opened Folding
  import opened Protocol
  import opened LedgerRuns
  import opened SingleUse

  /** A record the protocol could have appended to this ledger. */
  ghost predicate Appendable(es: seq<Entry>, e: Entry) {
    exists req, now, id :: Decided(es, req, now, id, e)
  }

  predicate Decided(es: seq<Entry>, req: Request, now: int, id: string, e: Entry) {
    var d := Decide(es, req, now, id);
    d.Some? && d.value.0 == e
  }

  /** A ledger every record of which was decided on what came before it. */
  ghost predicate Grown(log: seq<Entry>) {
    forall n :: 0 <= n < |log| ==> Appendable(log[..n], log[n])
  }

  /** Mint clock readings do not go back along the ledger. */
  predicate ForwardMints(log: seq<Entry>) {
    forall i, j :: 0 <= i < j < |log| && log[i].Approval? && log[j].Approval? ==> log[i].created <= log[j].created
  }

  /** The fold succeeds for every root and every clock reading, however stale. */
  ghost predicate NeverAmbiguous(es: seq<Entry>) {
    forall root, now :: Fold(es, root, now).Success?
  }

  predicate SameKeyUnspent(es: seq<Entry>, a: Entry, root: string, bound: string) {
    a in es && a.Approval? && a.root == root && a.bound == bound && !Spent(es, a.id)
  }

  /** Two unspent approvals of one root and binding whose lifetimes meet. */
  predicate Overlap(es: seq<Entry>) {
    exists a, b ::
      a in es && b in es && a != b && a.Approval? && b.Approval? && a.root == b.root && a.bound == b.bound
      && !Spent(es, a.id) && !Spent(es, b.id) && a.created < b.expires && b.created < a.expires
  }

  predicate Lifetimes(es: seq<Entry>) {
    forall a :: a in es && a.Approval? ==> a.created < a.expires
  }

  /** On a sound ledger, ambiguity at some time is exactly an overlap of lifetimes. */
  lemma AmbiguousIffOverlap(es: seq<Entry>)
    requires !Corrupt(es) && Lifetimes(es)
    ensures NeverAmbiguous(es) <==> !Overlap(es)
  {
    hide Corrupt, Spent;
    if Overlap(es) {
      var a, b :|
        a in es && b in es && a != b && a.Approval? && b.Approval? && a.root == b.root && a.bound == b.bound
        && !Spent(es, a.id) && !Spent(es, b.id) && a.created < b.expires && b.created < a.expires;
      var now := if a.created < b.created then b.created else a.created;
      assert Live(es, a, a.root, now) && Live(es, b, a.root, now);
      assert Fold(es, a.root, now).Failure?;
    } else {
      forall root, now ensures Fold(es, root, now).Success? {
        hide Fold;
        NoOverlapNoClash(es, root, now);
        assert Fold(es, root, now).Success? by { SoundFold(es, root, now); }
      }
    }
  }

  lemma NoOverlapNoClash(es: seq<Entry>, root: string, now: int)
    requires !Overlap(es)
    ensures !Ambiguous(es, root, now)
  {
    hide Spent;
  }

  lemma SoundFold(es: seq<Entry>, root: string, now: int)
    requires !Corrupt(es) && !Ambiguous(es, root, now)
    ensures Fold(es, root, now).Success?
  {
    hide Corrupt, Ambiguous, ActiveMap;
  }

  // ---- what one append does ------------------------------------------------------------------

  lemma LiveIsListed(es: seq<Entry>, a: Entry, root: string, now: int)
    requires a in es && a.Approval? && a.root == root && !Spent(es, a.id) && Fold(es, root, now).Success?
    ensures a.created <= now < a.expires ==> a.bound in Fold(es, root, now).value
  {
    hide Corrupt, Spent;
  }

  lemma MintFacts(es: seq<Entry>, req: Request, now: int, id: string)
    requires req.Mint? && Decide(es, req, now, id).Some?
    ensures var e := Decide(es, req, now, id).value.0;
      && e.Approval? && e.root == req.root && e.bound == req.bound && e.id == id
      && e.created == now && e.expires == now + TTL_SECONDS
      && !Corrupt(es) && !Issued(es, id)
      && (forall a :: a in es && SameKeyUnspent(es, a, e.root, e.bound) ==> now < a.created || a.expires <= now)
  {
    hide Corrupt, Issued, Spent, Valid;
    forall a | a in es && SameKeyUnspent(es, a, req.root, req.bound) ensures now < a.created || a.expires <= now {
      LiveIsListed(es, a, req.root, now);
    }
  }

  /**
   A mint that succeeded keeps the fold unambiguous if and only if no unspent approval of its root
   and binding starts inside the new lifetime: the reading it started from has gone back.
   */
  lemma MintKeepsExactly(es: seq<Entry>, req: Request, now: int, id: string)
    requires req.Mint? && Decide(es, req, now, id).Some? && NeverAmbiguous(es) && Lifetimes(es)
    ensures var e := Decide(es, req, now, id).value.0;
      NeverAmbiguous(es + [e]) <==>
        forall a :: a in es && SameKeyUnspent(es, a, e.root, e.bound) ==> !(now < a.created < now + TTL_SECONDS)
  {
    MintFacts(es, req, now, id);
    var e := Decide(es, req, now, id).value.0;
    hide Decide, NeverAmbiguous, Overlap, Spent, Corrupt, Issued;
    ApprovalSound(es, e);
    AmbiguousIffOverlap(es);
    GrownLifetimes(es, e);
    AmbiguousIffOverlap(es + [e]);
    OverlapWith(es, e);
  }

  lemma GrownLifetimes(es: seq<Entry>, e: Entry)
    requires Lifetimes(es) && (e.Approval? ==> e.created < e.expires)
    ensures Lifetimes(es + [e])
  {
    assert forall a :: a in es + [e] ==> a in es || a == e;
  }

  /** A new approval overlaps something exactly when it meets an unspent one of its own key. */
  lemma OverlapWith(es: seq<Entry>, e: Entry)
    requires !Overlap(es) && !Corrupt(es) && e.Approval? && !Issued(es, e.id) && e.created < e.expires
    ensures Overlap(es + [e]) <==>
      exists a :: a in es && SameKeyUnspent(es, a, e.root, e.bound) && a.created < e.expires && e.created < a.expires
  {
    var all := es + [e];
    ApprovalSound(es, e);
    forall id ensures Spent(all, id) <==> Spent(es, id) { SpentAppend(es, e, id); }
    NotAlready(es, e);
    hide Spent, Corrupt, Issued;
    if Overlap(all) {
      OverlapAmong(es, e);
    }
    if a :| a in es && SameKeyUnspent(es, a, e.root, e.bound) && a.created < e.expires && e.created < a.expires {
      assert a in all && e in all && a != e;
    }
  }

  lemma NotAlready(es: seq<Entry>, e: Entry)
    requires e.Approval? && !Issued(es, e.id)
    ensures e !in es
  {
  }

  lemma OverlapAmong(es: seq<Entry>, e: Entry)
    requires Overlap(es + [e]) && !Overlap(es) && e !in es && e.Approval?
    requires forall id :: Spent(es + [e], id) <==> Spent(es, id)
    ensures exists a ::
      a in es && SameKeyUnspent(es, a, e.root, e.bound) && a.created < e.expires && e.created < a.expires
  {
    hide Spent;
    var all := es + [e];
    var a, b :|
      a in all && b in all && a != b && a.Approval? && b.Approval? && a.root == b.root && a.bound == b.bound
      && !Spent(all, a.id) && !Spent(all, b.id) && a.created < b.expires && b.created < a.expires;
    if a == e {
      assert SameKeyUnspent(es, b, e.root, e.bound);
    } else if b == e {
      assert SameKeyUnspent(es, a, e.root, e.bound);
    }
  }

  /** A consumption never creates an ambiguity. */
  lemma ConsumeKeeps(es: seq<Entry>, c: Entry, a: Entry)
    requires NeverAmbiguous(es) && !Corrupt(es) && Lifetimes(es)
    requires c.Consumption? && a in es && a.Approval? && a.id == c.id && a.bound == c.bound
    ensures NeverAmbiguous(es + [c]) && !Corrupt(es + [c])
  {
    ConsumptionSound(es, c, a);
    AmbiguousIffOverlap(es);
    GrownLifetimes(es, c);
    AmbiguousIffOverlap(es + [c]);
    forall id | !Spent(es + [c], id) ensures !Spent(es, id) { SpentAppend(es, c, id); }
    hide Spent, Corrupt, NeverAmbiguous;
    assert forall x :: x in es + [c] && x.Approval? ==> x in es;
  }

  // ---- whole ledgers ---------------------------------------------------------------------------

  lemma EmptySound()
    ensures NeverAmbiguous([]) && !Corrupt([]) && Lifetimes([])
  {
    AmbiguousIffOverlap([]);
  }

  /** One decided record on a ledger whose mints came earlier. */
  lemma StepKeepsUnambiguous(es: seq<Entry>, e: Entry)
    requires Appendable(es, e) && NeverAmbiguous(es) && !Corrupt(es) && Lifetimes(es)
    requires e.Approval? ==> forall a :: a in es && a.Approval? ==> a.created <= e.created
    ensures NeverAmbiguous(es + [e]) && !Corrupt(es + [e]) && Lifetimes(es + [e])
  {
    var req, now, id :| Decided(es, req, now, id, e);
    DecideGrounded(es, req, now, id);
    hide Valid, Spent, Corrupt, NeverAmbiguous, Issued;
    if req.Mint? {
      MintFacts(es, req, now, id);
      MintKeepsExactly(es, req, now, id);
      ApprovalSound(es, e);
      GrownLifetimes(es, e);
    } else {
      var grant := Decide(es, req, now, id).value.1;
      hide Decide;
      ConsumeKeeps(es, e, grant);
      GrownLifetimes(es, e);
    }
  }

  /** With mint readings that never go back, no consumer or lookup meets an ambiguity at any clock. */
  lemma {:induction false} ForwardNeverAmbiguous(log: seq<Entry>)
    requires Grown(log) && ForwardMints(log)
    ensures NeverAmbiguous(log) && !Corrupt(log) && Lifetimes(log)
    decreases |log|
  {
    hide NeverAmbiguous, Corrupt, Lifetimes, Appendable;
    if log == [] {
      EmptySound();
    } else {
      var n := |log| - 1;
      var init, e := log[..n], log[n];
      assert forall k :: 0 <= k < n ==> init[..k] == log[..k];
      ForwardNeverAmbiguous(init);
      StepKeepsUnambiguous(init, e);
      assert log == init + [e];
    }
  }

  // ---- reachable ledgers ------------------------------------------------------------------------

  ghost predicate GrownState(u: State) {
    Grown(u.log) && (u.section.Pending? ==> Appendable(u.log, u.section.job.entry))
  }

  lemma GrownPrefix(log: seq<Entry>, n: nat)
    requires Grown(log) && n <= |log|
    ensures Grown(log[..n])
  {
    hide Appendable;
    assert forall k :: 0 <= k < n ==> log[..n][..k] == log[..k];
  }

  lemma GrownAppend(log: seq<Entry>, e: Entry)
    requires Grown(log) && Appendable(log, e)
    ensures Grown(log + [e])
  {
    hide Appendable;
    var all := log + [e];
    assert forall k :: 0 <= k < |log| ==> all[..k] == log[..k];
    assert all[..|log|] == log;
  }

  lemma GrownStep(u: State, ev: Event)
    requires GrownState(u) && Next(u, ev).Some?
    ensures GrownState(Next(u, ev).value)
  {
    hide Grown, Decide;
    if ev.Choose? {
      var d := Decide(Read(u).value, u.section.req, ev.now, ev.id);
      assert Decided(u.log, u.section.req, ev.now, ev.id, d.value.0);
    } else {
      hide Appendable;
      if ev.Append? { GrownAppend(u.log, u.section.job.entry); }
      if ev.Crash? && ev.n <= |u.log| { GrownPrefix(u.log, ev.n); }
      GrownEmpty();
    }
  }

  lemma GrownEmpty()
    ensures Grown([])
  {
  }

  lemma {:induction false} GrownRun(u: State, evs: seq<Event>)
    requires GrownState(u) && Run(u, evs).Some?
    ensures GrownState(Run(u, evs).value)
    decreases |evs|
  {
    hide GrownState, Next;
    if evs != [] {
      GrownStep(u, evs[0]);
      GrownRun(Next(u, evs[0]).value, evs[1..]);
    }
  }

  /**
   Over every run of processes, writes and power losses: if the mints now in a readable ledger read
   a clock that did not go back from one to the next, folding it succeeds for any root and any
   reading, including one a consumer took before it waited for the lock.
   */
  lemma ReachableNeverAmbiguous(s: Sys)
    requires Reachable(s) && ReadDisk(s.disk).Success? && ForwardMints(ReadDisk(s.disk).value)
    ensures NeverAmbiguous(ReadDisk(s.disk).value)
  {
    var evs, u, tail := Abstracted(s);
    Parts(s, u, tail);
    GrownEmpty();
    GrownRun(INITIAL, evs);
    hide Reachable, Refines, Inv, Run, NeverAmbiguous, Grown, ReadDisk;
    ReadIsLog(s.disk, u, tail);
    ForwardNeverAmbiguous(u.log);
  }

  // ---- the premise is needed -----------------------------------------------------------------------

  const FIRST := Approval(seq(64, _ => 'a'), seq(64, _ => 'c'), seq(64, _ => 'd'), "f", "low", 1000, 1300)
  const SECOND := Approval(seq(64, _ => 'b'), seq(64, _ => 'c'), seq(64, _ => 'd'), "f", "low", 900, 1200)

  /** A clock that goes back between two mints of one change leaves the fold ambiguous. */
  lemma RollbackAmbiguous()
    ensures Decide([], Mint(FIRST.bound, FIRST.root, "f", "low"), 1000, FIRST.id) == Some((FIRST, FIRST))
    ensures Decide([FIRST], Mint(FIRST.bound, FIRST.root, "f", "low"), 900, SECOND.id) == Some((SECOND, SECOND))
    ensures Fold([FIRST, SECOND], FIRST.root, 1100).Failure?
  {
    RollbackValid();
    hide Valid;
    assert FIRST.id[0] != SECOND.id[0];
    assert Live([FIRST, SECOND], FIRST, FIRST.root, 1100);
    assert Live([FIRST, SECOND], SECOND, FIRST.root, 1100);
    RollbackMints();
  }

  lemma RollbackValid()
    ensures Valid(FIRST) && Valid(SECOND)
  {
    SplitNoSeparator("f", '/');
  }

  lemma RollbackMints()
    ensures Fold([], FIRST.root, 1000) == Success(map[])
    ensures Fold([FIRST], FIRST.root, 900) == Success(map[])
  {
    EmptySound();
    assert forall e :: e in [FIRST] ==> e == FIRST;
    assert !Corrupt([FIRST]);
    assert ActiveMap([FIRST], FIRST.root, 900) == map[];
    assert ActiveMap([], FIRST.root, 1000) == map[];
  }
}
