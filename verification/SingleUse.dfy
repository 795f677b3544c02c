/** Single use and survival, stated for every run over bytes: any processes, any writes, any power loss. */
module SingleUse {
  import opened Prelude
  import opened Entries
  import opened Folding
  import opened Ledger
  import opened Protocol
  import opened LedgerRuns

  predicate LineAt(d: Disk, line: bytes, i: nat) {
    i + |line| <= d.durable <= |d.content| && d.content[i..i + |line|] == line
  }

  /** The record's whole line lies inside the durable part of the file. */
  ghost predicate OnDisk(d: Disk, e: Entry) {
    exists i: nat :: LineAt(d, LineBytes(e), i)
  }

  ghost predicate Reachable(s: Sys) {
    exists steps :: TakeAll(START, steps) == Some(s)
  }

  /** A reachable state refines a protocol state that satisfies the protocol's invariant. */
  lemma Abstracted(s: Sys) returns (evs: seq<Event>, u: State, tail: bytes)
    requires Reachable(s)
    ensures Run(INITIAL, evs) == Some(u) && Inv(u) && Refines(s, u, tail)
  {
    var steps :| TakeAll(START, steps) == Some(s);
    StartRefines();
    InitialInv();
    hide *;
    evs, u, tail := SimulateAll(START, INITIAL, [], steps);
  }

  lemma {:induction false} TakeAllAppend(s: Sys, a: seq<Step>, b: seq<Step>)
    requires TakeAll(s, a).Some?
    ensures TakeAll(s, a + b) == TakeAll(TakeAll(s, a).value, b)
    decreases |a|
  {
    hide Take;
    if a == [] {
      assert a + b == b;
    } else {
      assert (a + b)[1..] == a[1..] + b;
      TakeAllAppend(Take(s, a[0]).value, a[1..], b);
    }
  }

  lemma ReachableAfter(s: Sys, steps: seq<Step>)
    requires Reachable(s) && TakeAll(s, steps).Some?
    ensures Reachable(TakeAll(s, steps).value)
  {
    hide TakeAll;
    var before :| TakeAll(START, before) == Some(s);
    TakeAllAppend(START, before, steps);
  }

  /** At most one process is in its critical section, and it is the one holding the lock. */
  lemma MutualExclusion(s: Sys, p: nat, q: nat)
    requires Reachable(s) && Critical(PhaseOf(s, p)) && Critical(PhaseOf(s, q))
    ensures p == q && s.lock == Some(p)
  {
    var evs, u, tail := Abstracted(s);
    Parts(s, u, tail);
    hide Reachable, Refines, Inv, Layout, TailSound, PhaseOf, Critical;
    HolderIs(s, p);
    HolderIs(s, q);
  }

  /**
   Single use over every run: no two successful consumptions of one approval, and each success
   is dated inside the lifetime of the approval it consumed. An epoch ends only when the whole
   ledger is lost because its directory entry was never durable; within it nothing is assumed.
   */
  lemma ConsumedOnce(s: Sys, i: nat, j: nat)
    requires Reachable(s) && i < j < |s.acked| && s.acked[i].epoch == s.acked[j].epoch
    requires s.acked[i].entry.Consumption? && s.acked[j].entry.Consumption?
    ensures s.acked[i].entry.id != s.acked[j].entry.id
    ensures Covers(s.acked[i].grant, s.acked[i].entry) && Covers(s.acked[j].grant, s.acked[j].entry)
  {
    var evs, u, tail := Abstracted(s);
    Parts(s, u, tail);
    hide Reachable, Refines, Inv, Layout, TailSound, Run, Covers;
    Protocol.SingleUse(evs, i, j);
  }

  /** In a run that never lost the ledger, that is at most one success per approval outright. */
  lemma ConsumedOnceUnlost(s: Sys, i: nat, j: nat)
    requires Reachable(s) && s.epoch == 0 && i < j < |s.acked|
    requires s.acked[i].entry.Consumption? && s.acked[j].entry.Consumption?
    ensures s.acked[i].entry.id != s.acked[j].entry.id
  {
    var evs, u, tail := Abstracted(s);
    Parts(s, u, tail);
    OldEpochs(u, i);
    OldEpochs(u, j);
    hide Reachable, Refines, Inv, Layout, TailSound, Run, Covers;
    ConsumedOnce(s, i, j);
  }

  lemma OldEpochs(u: State, k: nat)
    requires Inv(u) && k < |u.acked|
    ensures u.acked[k].epoch <= u.epoch
  {
    hide SectionSound, Covers, Kept;
  }

  // ---- survival ---------------------------------------------------------------------------------

  lemma {:induction false} RecordInLog(log: seq<Entry>, k: nat) returns (i: nat)
    requires k < |log|
    ensures var line := LineBytes(log[k]);
      i + |line| <= |Serialize(log)| && Serialize(log)[i..i + |line|] == line
    decreases |log|
  {
    hide *;
    var n := |log| - 1;
    SerializeLast(log);
    var init, last := Serialize(log[..n]), LineBytes(log[n]);
    if k == n {
      i := |init|;
      assert (init + last)[i..i + |last|] == last;
    } else {
      i := RecordInLog(log[..n], k);
      assert log[..n][k] == log[k];
      assert (init + last)[i..i + |LineBytes(log[k])|] == init[i..i + |LineBytes(log[k])|];
    }
  }

  lemma StableOnDisk(d: Disk, u: State, tail: bytes, e: Entry)
    requires Layout(d, u, tail) && u.stable <= |u.log| && e in u.log[..u.stable]
    ensures OnDisk(d, e)
  {
    hide *;
    StablePrefix(d, u, tail);
    PrefixOnDisk(d, u.log[..u.stable], e);
  }

  lemma PrefixOnDisk(d: Disk, kept: seq<Entry>, e: Entry)
    requires var b := Serialize(kept); |b| <= d.durable <= |d.content| && d.content[..|b|] == b
    requires e in kept
    ensures OnDisk(d, e)
  {
    hide *;
    var k :| 0 <= k < |kept| && kept[k] == e;
    var i := RecordInLog(kept, k);
    InPrefix(d, Serialize(kept), LineBytes(e), i);
    OnDiskAt(d, e, i);
  }

  lemma OnDiskAt(d: Disk, e: Entry, i: nat)
    requires LineAt(d, LineBytes(e), i)
    ensures OnDisk(d, e)
  {
    hide LineAt, LineBytes;
  }

  lemma InPrefix(d: Disk, b: bytes, line: bytes, i: nat)
    requires |b| <= d.durable <= |d.content| && d.content[..|b|] == b
    requires i + |line| <= |b| && b[i..i + |line|] == line
    ensures LineAt(d, line, i)
  {
    assert d.content[i..i + |line|] == d.content[..|b|][i..i + |line|];
  }

  lemma StablePrefix(d: Disk, u: State, tail: bytes)
    requires Layout(d, u, tail)
    ensures var b := Serialize(u.log[..u.stable]); |b| <= d.durable <= |d.content| && d.content[..|b|] == b
  {
    hide Records;
    SerializeSplit(u.log, u.stable);
    hide Serialize;
  }

  lemma {:induction false} SerializeSplit(log: seq<Entry>, n: nat)
    requires n <= |log|
    ensures Serialize(log[..n]) <= Serialize(log)
    decreases |log|
  {
    hide *;
    if n == |log| {
      assert log[..n] == log;
    } else {
      var i := |log| - 1;
      SerializeLast(log);
      assert log[..i][..n] == log[..n];
      SerializeSplit(log[..i], n);
    }
  }

  /** An acknowledged success of the current epoch is durable, and every successful read shows it. */
  lemma AcknowledgedHolds(s: Sys, k: nat)
    requires Reachable(s) && k < |s.acked| && s.acked[k].epoch == s.epoch
    ensures OnDisk(s.disk, s.acked[k].entry)
    ensures ReadDisk(s.disk).Success? ==> s.acked[k].entry in ReadDisk(s.disk).value
  {
    var evs, u, tail := Abstracted(s);
    Parts(s, u, tail);
    CurrentKept(u, k);
    var e := s.acked[k].entry;
    hide Reachable, Refines, Inv, TailSound, Run, OnDisk;
    StableOnDisk(s.disk, u, tail, e);
    if ReadDisk(s.disk).Success? {
      ReadShows(s.disk, u, tail, e);
    }
  }

  lemma CurrentKept(u: State, k: nat)
    requires Inv(u) && k < |u.acked| && u.acked[k].epoch == u.epoch
    ensures u.stable <= |u.log| && u.acked[k].entry in u.log[..u.stable]
  {
    hide SectionSound, Covers;
  }

  /** A refined file that reads at all reads as the records of the protocol. */
  lemma ReadIsLog(d: Disk, u: State, tail: bytes)
    requires Layout(d, u, tail) && ReadDisk(d).Success?
    ensures ReadDisk(d).value == u.log
  {
    hide Layout, ReadDisk;
    if tail != [] { TornUnreadable(d, u, tail); }
    var v := u.(torn := false);
    LayoutSection(d, u, tail, v);
    ReadMatches(d, v, tail);
  }

  lemma ReadShows(d: Disk, u: State, tail: bytes, e: Entry)
    requires Layout(d, u, tail) && e in u.log[..u.stable] && ReadDisk(d).Success?
    ensures e in ReadDisk(d).value
  {
    ReadIsLog(d, u, tail);
    hide Layout, ReadDisk;
  }

  /** Once consumed with success, an approval is active in no later reading, for no root and no clock. */
  lemma NeverActiveAgain(s: Sys, k: nat, root: string, now: int)
    requires Reachable(s) && k < |s.acked| && s.acked[k].epoch == s.epoch && s.acked[k].entry.Consumption?
    requires ReadDisk(s.disk).Success?
    ensures var es := ReadDisk(s.disk).value;
      Spent(es, s.acked[k].entry.id) &&
      (Fold(es, root, now).Success? ==>
         forall b :: b in Fold(es, root, now).value ==> Fold(es, root, now).value[b].id != s.acked[k].entry.id)
  {
    AcknowledgedHolds(s, k);
    var es := ReadDisk(s.disk).value;
    hide Reachable, ReadDisk, OnDisk;
    SpentBy(es, s.acked[k].entry);
    hide Spent;
    if Fold(es, root, now).Success? {
      SpentNotActive(es, s.acked[k].entry.id, root, now);
    }
  }

  lemma SpentBy(es: seq<Entry>, e: Entry)
    requires e in es && e.Consumption?
    ensures Spent(es, e.id)
  {
  }

  lemma SpentNotActive(es: seq<Entry>, id: string, root: string, now: int)
    requires Spent(es, id) && Fold(es, root, now).Success?
    ensures forall b :: b in Fold(es, root, now).value ==> Fold(es, root, now).value[b].id != id
  {
    hide Corrupt, Spent;
  }

  lemma {:induction false} AckedSteps(s: Sys, steps: seq<Step>)
    requires TakeAll(s, steps).Some?
    ensures s.acked <= TakeAll(s, steps).value.acked
    decreases |steps|
  {
    if steps != [] {
      AckedStep(s, steps[0]);
      hide Take;
      AckedSteps(Take(s, steps[0]).value, steps[1..]);
    }
  }

  lemma AckedStep(s: Sys, step: Step)
    requires Take(s, step).Some?
    ensures s.acked <= Take(s, step).value.acked
    ensures s.disk.linked ==> Take(s, step).value.disk.linked && Take(s, step).value.epoch == s.epoch
  {
    hide PhaseOf, ReadDisk, Decide, Fits, LineBytes;
  }

  lemma {:induction false} LinkedSteps(s: Sys, steps: seq<Step>)
    requires TakeAll(s, steps).Some? && s.disk.linked
    ensures TakeAll(s, steps).value.disk.linked && TakeAll(s, steps).value.epoch == s.epoch
    decreases |steps|
  {
    if steps != [] {
      AckedStep(s, steps[0]);
      hide Take;
      LinkedSteps(Take(s, steps[0]).value, steps[1..]);
    }
  }

  /** A success stays on disk through every later run, once the directory entry is durable. */
  lemma LinkedSurvives(s: Sys, k: nat, steps: seq<Step>)
    requires Reachable(s) && k < |s.acked| && s.acked[k].epoch == s.epoch && s.disk.linked
    requires TakeAll(s, steps).Some?
    ensures OnDisk(TakeAll(s, steps).value.disk, s.acked[k].entry)
  {
    ReachableAfter(s, steps);
    AckedSteps(s, steps);
    LinkedSteps(s, steps);
    hide Reachable, TakeAll, OnDisk;
    AcknowledgedHolds(TakeAll(s, steps).value, k);
  }

  /**
   Survival, exactly: a reported success is on disk after every possible continuation if and only
   if the ledger's directory entry is durable. The barrier that makes it so runs only in the append
   that created the file, so a success reported after that barrier failed may still vanish.
   */
  lemma SurvivesIffLinked(s: Sys, k: nat)
    requires Reachable(s) && k < |s.acked| && s.acked[k].epoch == s.epoch
    ensures s.disk.linked <==>
      forall steps :: TakeAll(s, steps).Some? ==> OnDisk(TakeAll(s, steps).value.disk, s.acked[k].entry)
  {
    if s.disk.linked {
      forall steps | TakeAll(s, steps).Some? ensures OnDisk(TakeAll(s, steps).value.disk, s.acked[k].entry) {
        LinkedSurvives(s, k, steps);
      }
    } else {
      AcknowledgedHolds(s, k);
      LostFile(s, s.acked[k].entry);
    }
  }

  lemma LostFile(s: Sys, e: Entry)
    requires OnDisk(s.disk, e) && !s.disk.linked && Reachable(s)
    ensures var loss := [PowerLoss(0, false)];
      TakeAll(s, loss).Some? && !OnDisk(TakeAll(s, loss).value.disk, e)
  {
    PresentIfHolds(s, e);
    LineShape(e);
    hide LineBytes, Reachable;
    OneLoss(s);
    hide TakeAll;
  }

  lemma OneLoss(s: Sys)
    requires s.disk.present && !s.disk.linked
    ensures TakeAll(s, [PowerLoss(0, false)]).Some?
    ensures TakeAll(s, [PowerLoss(0, false)]).value.disk == Disk(false, [], 0, false)
  {
    var loss := [PowerLoss(0, false)];
    assert loss[1..] == [];
    var t := Take(s, loss[0]).value;
    assert TakeAll(t, []) == Some(t);
  }

  lemma PresentIfHolds(s: Sys, e: Entry)
    requires OnDisk(s.disk, e) && Reachable(s)
    ensures s.disk.present
  {
    var evs, u, tail := Abstracted(s);
    Parts(s, u, tail);
    LineShape(e);
    hide Reachable, Refines, LineBytes, Records, Serialize, Run;
  }

  /** Whatever prefix of an append a crash leaves, an approval consumed before stays consumed. */
  lemma NoPrefixRevives(data: bytes, e: Entry, k: nat, id: string, root: string, now: int)
    requires Readable(data) && Valid(e) && Fits(data, e) && k <= |LineBytes(e)|
    requires Spent(ReadLedger(data).value, id) && Readable(data + LineBytes(e)[..k])
    requires Fold(ReadLedger(data + LineBytes(e)[..k]).value, root, now).Success?
    ensures var active := Fold(ReadLedger(data + LineBytes(e)[..k]).value, root, now).value;
      forall b :: b in active ==> active[b].id != id
  {
    CrashPrefix(data, e, k);
    hide ReadLedger, LineBytes, Fits, Valid, Fold;
    var before := ReadLedger(data).value;
    SpentAppend(before, e, id);
    hide Spent;
    SpentNotActive(ReadLedger(data + LineBytes(e)[..k]).value, id, root, now);
  }
}
