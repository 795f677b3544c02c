/**
 Single use beyond the life of one ledger file: if the generator never gives two mints one
 identifier, an approval is consumed with success at most once in a whole run, even if a power
 loss takes the file away and a new one is begun.
 */
module TokenUse {
  import opened Prelude
  import opened Entries
  import opened Folding
  import opened Protocol
  import opened LedgerRuns
  import opened SingleUse

  /** The identifier a mint was given in this step, if it is one. */
  function Token(s: Sys, step: Step): set<string> {
    if step.Settle? && PhaseOf(s, step.p).Locked? && PhaseOf(s, step.p).req.Mint? then {step.id} else {}
  }

  /** No mint of the run is given an identifier that an earlier one, or `used`, had. */
  predicate FreshTokens(s: Sys, steps: seq<Step>, used: set<string>)
    decreases |steps|
  {
    steps == [] || (Token(s, steps[0]) !! used
      && var t := Take(s, steps[0]);
         t.Some? ==> FreshTokens(t.value, steps[1..], used + Token(s, steps[0])))
  }

  /** An approval that is about to be, or has been, written. */
  predicate Present(u: State, id: string) {
    Issued(u.log, id) || (u.section.Pending? && u.section.job.entry.Approval? && u.section.job.entry.id == id)
  }

  predicate Consumes(a: Ack) { a.entry.Consumption? }

  /** Identifiers of earlier epochs are used up: they stand on no later ledger, and no success repeats them. */
  ghost predicate History(u: State, used: set<string>) {
    && (forall id :: Present(u, id) ==> id in used)
    && (forall k :: 0 <= k < |u.acked| && Consumes(u.acked[k]) ==> u.acked[k].entry.id in used)
    && (forall k :: 0 <= k < |u.acked| && Consumes(u.acked[k]) && u.acked[k].epoch < u.epoch ==>
          !Present(u, u.acked[k].entry.id))
    && (forall i, j ::
          0 <= i < j < |u.acked| && Consumes(u.acked[i]) && Consumes(u.acked[j]) && u.acked[i].epoch != u.acked[j].epoch ==>
          u.acked[i].entry.id != u.acked[j].entry.id)
  }

  function MintToken(u: State, ev: Event): set<string> {
    if ev.Choose? && u.section.Held? && u.section.req.Mint? then {ev.id} else {}
  }

  /** Nothing new is present and nothing more was acknowledged. */
  lemma Shrinks(u: State, v: State, used: set<string>)
    requires History(u, used) && v.acked == u.acked && v.epoch == u.epoch
    requires forall id :: Present(v, id) ==> Present(u, id)
    ensures History(v, used)
  {
    hide Present, Consumes;
  }

  lemma ChooseHistory(u: State, now: int, id: string, used: set<string>)
    requires Inv(u) && History(u, used) && Next(u, Choose(now, id)).Some?
    requires MintToken(u, Choose(now, id)) !! used
    ensures History(Next(u, Choose(now, id)).value, used + MintToken(u, Choose(now, id)))
  {
    var v := Next(u, Choose(now, id)).value;
    hide Inv, Fold, Valid, Read, Issued, Spent;
    assert forall x :: Present(v, x) ==> Present(u, x) || x in MintToken(u, Choose(now, id));
  }

  /** A success acknowledged now rests on a record of the ledger that is there now. */
  lemma AcknowledgeHistory(u: State, job: Job, used: set<string>)
    requires History(u, used) && !u.section.Pending? && (job.entry.Consumption? ==> Issued(u.log, job.entry.id))
    requires forall k :: 0 <= k < |u.acked| ==> u.acked[k].epoch <= u.epoch
    ensures History(Acknowledge(u, job), used)
  {
    hide Issued;
    var v := Acknowledge(u, job);
    assert forall id :: Present(v, id) <==> Present(u, id);
    hide Present;
  }

  lemma GroundedIssued(u: State, job: Job)
    requires u.stable <= |u.log| && AckedSound(u) && Latest(u, job)
    ensures job.entry.Consumption? ==> Issued(u.log, job.entry.id)
    ensures forall k :: 0 <= k < |u.acked| ==> u.acked[k].epoch <= u.epoch
  {
    hide Spent, Kept;
    if job.entry.Consumption? {
      var before := u.log[..|u.log| - 1];
      assert job.grant in before;
      assert forall e :: e in before ==> e in u.log;
    }
  }

  lemma LostHistory(u: State, v: State, used: set<string>)
    requires History(u, used) && AckedEpochs(u)
    requires v.acked == u.acked && v.epoch == u.epoch + 1 && v.log == [] && v.section == Free
    ensures History(v, used)
  {
    assert forall id :: !Present(v, id);
    hide Present;
  }

  predicate AckedEpochs(u: State) { forall k :: 0 <= k < |u.acked| ==> u.acked[k].epoch <= u.epoch }

  lemma EpochsOf(u: State)
    requires Inv(u)
    ensures AckedEpochs(u)
  {
    hide SectionSound, Covers, Kept;
  }

  lemma HistoryStep(u: State, ev: Event, used: set<string>)
    requires Inv(u) && History(u, used) && Next(u, ev).Some? && MintToken(u, ev) !! used
    ensures History(Next(u, ev).value, used + MintToken(u, ev))
  {
    var v := Next(u, ev).value;
    EpochsOf(u);
    hide Inv, History, AckedEpochs;
    match ev
    case Choose(now, id) => ChooseHistory(u, now, id, used);
    case Sync => SyncHistory(u, used);
    case Link(synced) => LinkHistory(u, synced, used);
    case Crash(n, torn, keep) => CrashHistory(u, n, torn, keep, used);
    case Append => AppendHistory(u, used);
    case Enter(_) => Shrinks(u, v, used);
    case Leave => Shrinks(u, v, used);
    case Tear => Shrinks(u, v, used);
  }

  lemma AppendHistory(u: State, used: set<string>)
    requires History(u, used) && Next(u, Append).Some?
    ensures History(Next(u, Append).value, used)
  {
    var v := Next(u, Append).value;
    hide History;
    forall id | Present(v, id) ensures Present(u, id) {
      var e :| e in v.log && e.Approval? && e.id == id;
      assert e in u.log || e == u.section.job.entry;
    }
    Shrinks(u, v, used);
  }

  lemma SyncHistory(u: State, used: set<string>)
    requires Inv(u) && History(u, used) && Next(u, Sync).Some?
    ensures History(Next(u, Sync).value, used)
  {
    var v := u.(stable := |u.log|);
    GroundedIssued(u, u.section.job);
    hide Inv, History, Latest;
    var w := v.(section := Unlinked(u.section.job));
    if u.section.job.created {
      Shrinks(u, w, used);
    } else {
      Shrinks(u, v, used);
      AcknowledgeHistory(v, u.section.job, used);
    }
  }

  lemma LinkHistory(u: State, synced: bool, used: set<string>)
    requires Inv(u) && History(u, used) && Next(u, Link(synced)).Some?
    ensures History(Next(u, Link(synced)).value, used)
  {
    var v := u.(linked := u.linked || synced);
    GroundedIssued(u, u.section.job);
    hide Inv, History, Latest;
    Shrinks(u, v, used);
    AcknowledgeHistory(v, u.section.job, used);
  }

  lemma CrashHistory(u: State, n: nat, torn: bool, keep: bool, used: set<string>)
    requires Inv(u) && History(u, used) && Next(u, Crash(n, torn, keep)).Some?
    ensures History(Next(u, Crash(n, torn, keep)).value, used)
  {
    var v := Next(u, Crash(n, torn, keep)).value;
    EpochsOf(u);
    hide Inv, History, AckedEpochs;
    if u.present && !u.linked && !keep {
      LostHistory(u, v, used);
    } else {
      forall id | Present(v, id) ensures Present(u, id) {
        var e :| e in v.log && e.Approval? && e.id == id;
        assert e in u.log;
      }
      Shrinks(u, v, used);
    }
  }

  // ---- whole runs over bytes -----------------------------------------------------------------------

  /** The decision a byte-level step refines was given the token of that step. */
  lemma SameToken(s: Sys, u: State, tail: bytes, step: Step, ev: Option<Event>)
    requires Refines(s, u, tail) && Take(s, step).Some?
    requires NoChoice(ev) || (step.Settle? && ev == Some(Choose(step.now, step.id)))
    ensures ev.Some? ==> MintToken(u, ev.value) <= Token(s, step)
  {
    Parts(s, u, tail);
    if step.Settle? { HolderIs(s, step.p); }
    hide Refines, Exclusive, Layout, TailSound, Settled;
  }

  lemma Wider(u: State, used: set<string>, more: set<string>)
    requires History(u, used) && used <= more
    ensures History(u, more)
  {
    hide Present, Consumes;
  }

  lemma {:induction false} HistoryAll(s: Sys, u: State, tail: bytes, used: set<string>, steps: seq<Step>)
    returns (v: State, rest: bytes, more: set<string>)
    requires Refines(s, u, tail) && Inv(u) && History(u, used) && TakeAll(s, steps).Some? && FreshTokens(s, steps, used)
    ensures Refines(TakeAll(s, steps).value, v, rest) && Inv(v) && History(v, more)
    decreases |steps|
  {
    hide Refines, Inv, Take, Next, Moves, History, Token, NoChoice, MintToken;
    if steps == [] {
      v, rest, more := u, tail, used;
    } else {
      var ev, w, tail2 := Simulate(s, u, tail, steps[0]);
      SameToken(s, u, tail, steps[0], ev);
      MovesKeep(u, ev, w);
      MovesHistory(u, ev, w, used, Token(s, steps[0]));
      v, rest, more := HistoryAll(Take(s, steps[0]).value, w, tail2, used + Token(s, steps[0]), steps[1..]);
    }
  }

  lemma MovesHistory(u: State, ev: Option<Event>, w: State, used: set<string>, token: set<string>)
    requires Inv(u) && History(u, used) && Moves(u, ev, w) && token !! used
    requires ev.Some? ==> MintToken(u, ev.value) <= token
    ensures History(w, used + token)
  {
    hide Inv, History, Next, MintToken;
    if ev.Some? {
      HistoryStep(u, ev.value, used);
      Wider(w, used + MintToken(u, ev.value), used + token);
    } else {
      Wider(w, used, used + token);
    }
  }

  lemma NothingYet()
    ensures History(INITIAL, {})
  {
  }

  /**
   Single use over every run outright: with identifiers that no two mints share, no two successful
   consumptions are of one approval, whatever processes and power losses do to the ledger.
   */
  lemma ConsumedOnceEver(steps: seq<Step>, i: nat, j: nat)
    requires TakeAll(START, steps).Some? && FreshTokens(START, steps, {})
    requires var a := TakeAll(START, steps).value.acked;
      i < j < |a| && a[i].entry.Consumption? && a[j].entry.Consumption?
    ensures var a := TakeAll(START, steps).value.acked; a[i].entry.id != a[j].entry.id
  {
    hide TakeAll, FreshTokens, Refines, Inv, History;
    var s := TakeAll(START, steps).value;
    StartRefines();
    InitialInv();
    NothingYet();
    var u, tail, used := HistoryAll(START, INITIAL, [], {}, steps);
    Parts(s, u, tail);
    assert Reachable(s);
    if s.acked[i].epoch == s.acked[j].epoch {
      ConsumedOnce(s, i, j);
    } else {
      EpochsInOrder(s, u, i, j, used);
    }
  }

  lemma EpochsInOrder(s: Sys, u: State, i: nat, j: nat, used: set<string>)
    requires Inv(u) && History(u, used) && s.acked == u.acked && i < j < |u.acked|
    requires u.acked[i].epoch != u.acked[j].epoch && Consumes(u.acked[i]) && Consumes(u.acked[j])
    ensures u.acked[i].entry.id != u.acked[j].entry.id
  {
  }
}
