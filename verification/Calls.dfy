/** Every call of the store is a run of the byte machine, so what holds of all runs holds of all calls. */
module Calls {
  import opened Prelude
  import opened Entries
  import opened Folding
  import opened Ledger
  import opened Protocol
  import opened LedgerRuns
  import opened SingleUse
  import opened Store
  import opened Outcomes

  /** The steps one process takes for the answers its writes get. */
  function WriteSteps(p: nat, left: nat, answers: seq<WriteAnswer>): seq<Step>
    decreases |answers|
  {
    if left == 0 then []
    else if answers == [] then [Kill(p)]
    else
      match answers[0]
      case Interrupted => WriteSteps(p, left, answers[1..])
      case WriteError => [WriteFails(p)]
      case Accepted(n) =>
        if n <= 0 then [WriteFails(p)]
        else
          var m := if n < left then n else left;
          [Step.Write(p, m)] + WriteSteps(p, left - m, answers[1..])
  }

  function BarrierSteps(p: nat, created: bool, env: Env): seq<Step> {
    match env.fileSync
    case SyncFailed => [FileSync(p, false)]
    case DiedInSync => [Kill(p)]
    case Synced =>
      if !created then [FileSync(p, true)]
      else
        match env.dirSync
        case Unopened => [FileSync(p, true), DirSync(p, Skipped)]
        case Asked(SyncFailed) => [FileSync(p, true), DirSync(p, Broken)]
        case Asked(DiedInSync) => [FileSync(p, true), Kill(p)]
        case Asked(Synced) => [FileSync(p, true), DirSync(p, Passed)]
  }

  /** The process is out of its section again: the lock is free and this many successes were added. */
  predicate Done(s: Sys, p: nat, t: Sys, d: Disk, acks: seq<Ack>) {
    PhaseOf(t, p).Idle? && t.lock.None? && t.disk == d && t.acked == s.acked + acks && t.epoch == s.epoch
  }

  predicate InPhase(s: Sys, p: nat, t: Sys, d: Disk, ph: Phase) {
    PhaseOf(t, p) == ph && t.lock == Some(p) && t.disk == d && t.acked == s.acked && t.epoch == s.epoch
  }

  lemma OwnPhase(s: Sys, p: nat, t: Sys, d: Disk, ph: Phase)
    requires InPhase(s, p, t, d, ph)
    ensures InPhase(t, p, t, d, ph) && t.disk == d && t.acked == s.acked && t.epoch == s.epoch
  {
  }

  lemma OneStep(s: Sys, step: Step)
    requires Take(s, step).Some?
    ensures TakeAll(s, [step]) == Take(s, step)
  {
    hide Take;
    assert [step][1..] == [];
    assert TakeAll(Take(s, step).value, []) == Take(s, step);
  }

  lemma ThenStep(s: Sys, step: Step, more: seq<Step>)
    requires Take(s, step).Some?
    ensures TakeAll(s, [step] + more) == TakeAll(Take(s, step).value, more)
  {
    hide Take;
    assert ([step] + more)[1..] == more;
  }

  lemma WriteStep(s: Sys, p: nat, job: Job, done: nat, m: nat)
    requires InPhase(s, p, s, s.disk, Writing(job, done)) && 1 <= m && done + m <= |LineBytes(job.entry)|
    ensures var t := Take(s, Step.Write(p, m));
      && t.Some? && t.value.disk == DiskWith(s.disk, job.entry, done, done + m)
      && t.value.acked == s.acked && t.value.epoch == s.epoch
      && InPhase(t.value, p, t.value, t.value.disk,
                 if done + m == |LineBytes(job.entry)| then Syncing(job) else Writing(job, done + m))
  {
    hide LineBytes;
  }

  lemma FailStep(s: Sys, p: nat, ph: Phase, step: Step)
    requires InPhase(s, p, s, s.disk, ph)
    requires (ph.Writing? && step == WriteFails(p)) || step == Kill(p)
    ensures Take(s, step).Some? && Done(s, p, Take(s, step).value, s.disk, [])
  {
  }

  function Part(e: Entry, i: nat, j: nat): bytes
    requires i <= j <= |LineBytes(e)|
  {
    LineBytes(e)[i..j]
  }

  predicate EndsWith(s: Sys, p: nat, job: Job, steps: seq<Step>, d: Disk, how: Transfer) {
    var t := TakeAll(s, steps);
    t.Some? && if how.Complete? then InPhase(s, p, t.value, d, Syncing(job)) else Done(s, p, t.value, d, [])
  }

  function DiskWith(d: Disk, e: Entry, i: nat, j: nat): Disk
    requires i <= j <= |LineBytes(e)|
  {
    d.(content := d.content + Part(e, i, j))
  }

  /** A run of writes that put `k` more bytes of the line into the file and ended so. */
  predicate Wrote(s: Sys, p: nat, job: Job, done: nat, steps: seq<Step>, k: nat, how: Transfer) {
    done + k <= |LineBytes(job.entry)| && EndsWith(s, p, job, steps, DiskWith(s.disk, job.entry, done, done + k), how)
  }

  lemma EndsAfter(s: Sys, p: nat, job: Job, step: Step, more: seq<Step>, d: Disk, how: Transfer)
    requires Take(s, step).Some? && EndsWith(Take(s, step).value, p, job, more, d, how)
    requires Take(s, step).value.acked == s.acked && Take(s, step).value.epoch == s.epoch
    ensures EndsWith(s, p, job, [step] + more, d, how)
  {
    ThenStep(s, step, more);
    hide Take, TakeAll;
  }

  /** Partial, interrupted and failing writes, as machine steps. */
  lemma {:induction false} WriteRun(s: Sys, p: nat, job: Job, done: nat, left: nat, answers: seq<WriteAnswer>)
    requires InPhase(s, p, s, s.disk, Writing(job, done)) && left > 0 && done + left == |LineBytes(job.entry)|
    ensures var (k, how) := Moved(left, answers);
      Wrote(s, p, job, done, WriteSteps(p, left, answers), k, how)
    decreases |answers|
  {
    hide LineBytes, Take, Wrote, TakeAll, InPhase;
    if answers == [] {
      WriteEnds(s, p, job, done, Kill(p), Died);
    } else {
      match answers[0]
      case Interrupted =>
        WriteRun(s, p, job, done, left, answers[1..]);
      case WriteError =>
        WriteEnds(s, p, job, done, WriteFails(p), OsFailure);
      case Accepted(n) =>
        if n <= 0 {
          WriteEnds(s, p, job, done, WriteFails(p), ZeroWrite);
        } else {
          var m := if n < left then n else left;
          FirstWrite(s, p, job, done, m);
          var t := Take(s, Step.Write(p, m)).value;
          var (k, how) := Moved(left - m, answers[1..]);
          if m < left {
            WriteRun(t, p, job, done + m, left - m, answers[1..]);
          }
          WriteMore(s, p, job, done, m, WriteSteps(p, left - m, answers[1..]), k, how);
        }
    }
  }

  lemma FirstWrite(s: Sys, p: nat, job: Job, done: nat, m: nat)
    requires InPhase(s, p, s, s.disk, Writing(job, done)) && 1 <= m && done + m <= |LineBytes(job.entry)|
    ensures var t := Take(s, Step.Write(p, m));
      && t.Some?
      && if done + m < |LineBytes(job.entry)| then InPhase(t.value, p, t.value, t.value.disk, Writing(job, done + m))
         else Wrote(t.value, p, job, done + m, [], 0, Complete)
  {
    hide LineBytes, Take, Part, InPhase;
    WriteStep(s, p, job, done, m);
    var t := Take(s, Step.Write(p, m)).value;
    assert TakeAll(t, []) == Some(t);
    if done + m == |LineBytes(job.entry)| {
      NothingMore(job.entry, done + m, t.disk.content);
    }
  }

  lemma NothingMore(e: Entry, i: nat, content: bytes)
    requires i <= |LineBytes(e)|
    ensures content + Part(e, i, i) == content
  {
    hide LineBytes;
  }

  lemma JoinParts(e: Entry, i: nat, j: nat, l: nat, content: bytes)
    requires i <= j <= l <= |LineBytes(e)|
    ensures content + Part(e, i, j) + Part(e, j, l) == content + Part(e, i, l)
  {
    hide LineBytes;
    assert Part(e, i, j) + Part(e, j, l) == Part(e, i, l);
  }

  lemma JoinDisks(d: Disk, e: Entry, i: nat, j: nat, l: nat)
    requires i <= j <= l <= |LineBytes(e)|
    ensures DiskWith(DiskWith(d, e, i, j), e, j, l) == DiskWith(d, e, i, l)
  {
    JoinParts(e, i, j, l, d.content);
    hide LineBytes, Part;
  }

  lemma WriteEnds(s: Sys, p: nat, job: Job, done: nat, step: Step, how: Transfer)
    requires InPhase(s, p, s, s.disk, Writing(job, done)) && done <= |LineBytes(job.entry)|
    requires !how.Complete? && (step == WriteFails(p) || step == Kill(p))
    ensures Wrote(s, p, job, done, [step], 0, how)
  {
    FailStep(s, p, Writing(job, done), step);
    OneStep(s, step);
    NothingMore(job.entry, done, s.disk.content);
    hide LineBytes, Part, Take, TakeAll, Done, InPhase;
  }

  lemma WriteMore(s: Sys, p: nat, job: Job, done: nat, m: nat, more: seq<Step>, k: nat, how: Transfer)
    requires InPhase(s, p, s, s.disk, Writing(job, done)) && 1 <= m && done + m <= |LineBytes(job.entry)|
    requires Take(s, Step.Write(p, m)).Some? && Wrote(Take(s, Step.Write(p, m)).value, p, job, done + m, more, k, how)
    ensures Wrote(s, p, job, done, [Step.Write(p, m)] + more, m + k, how)
  {
    hide LineBytes, DiskWith, Take, InPhase, EndsWith;
    WriteStep(s, p, job, done, m);
    JoinDisks(s.disk, job.entry, done, done + m, done + m + k);
    EndsAfter(s, p, job, Step.Write(p, m), more, DiskWith(s.disk, job.entry, done, done + (m + k)), how);
  }

  lemma BarrierRun(s: Sys, p: nat, job: Job, env: Env)
    requires InPhase(s, p, s, s.disk, Syncing(job))
    ensures var t := TakeAll(s, BarrierSteps(p, job.created, env));
      var (d, how) := AfterBarriers(s.disk, job.created, env);
      && t.Some?
      && Done(s, p, t.value, d, if how.Appended? then [Ack(job.entry, job.grant, s.epoch, d.linked)] else [])
  {
    if env.fileSync.Synced? && job.created {
      var t := Take(s, FileSync(p, true)).value;
      var next :=
        match env.dirSync
        case Unopened => DirSync(p, Skipped)
        case Asked(SyncFailed) => DirSync(p, Broken)
        case Asked(DiedInSync) => Kill(p)
        case Asked(Synced) => DirSync(p, Passed);
      assert BarrierSteps(p, job.created, env) == [FileSync(p, true)] + [next];
      ThenStep(s, FileSync(p, true), [next]);
      OneStep(t, next);
      hide TakeAll;
    } else {
      OneStep(s, BarrierSteps(p, job.created, env)[0]);
      hide TakeAll;
    }
  }

  /** Asking for the lock, getting it, and deciding to append. */
  function OpeningSteps(p: nat, req: Request, now: int, id: string): seq<Step> {
    [Begin(p, req), Acquire(p), Settle(p, now, id)]
  }

  lemma OpeningRun(s: Sys, p: nat, req: Request, now: int, id: string, e: Entry, grant: Entry)
    requires PhaseOf(s, p).Idle? && s.lock.None? && (req.Mint? || s.disk.present)
    requires ReadDisk(s.disk).Success? && Decide(ReadDisk(s.disk).value, req, now, id) == Some((e, grant))
    requires Fits(s.disk.content, e)
    ensures var t := TakeAll(s, OpeningSteps(p, req, now, id));
      t.Some? && InPhase(s, p, t.value, s.disk.(present := true), Writing(Job(e, grant, !s.disk.present), 0))
  {
    hide ReadDisk, Decide, Fits;
    var a := Take(s, Begin(p, req)).value;
    var b := Take(a, Acquire(p)).value;
    var steps := OpeningSteps(p, req, now, id);
    assert steps[1..] == [Acquire(p), Settle(p, now, id)] && steps[1..][1..] == [Settle(p, now, id)];
    OneStep(b, Settle(p, now, id));
    assert TakeAll(a, steps[1..]) == TakeAll(b, [Settle(p, now, id)]);
  }

  predicate Ran(s: Sys, p: nat, steps: seq<Step>, d: Disk, acks: seq<Ack>) {
    TakeAll(s, steps).Some? && Done(s, p, TakeAll(s, steps).value, d, acks)
  }

  /** One append under the lock, with whatever answers it meets, is a run of the machine. */
  lemma AppendIsRun(s: Sys, p: nat, req: Request, now: int, id: string, e: Entry, grant: Entry, env: Env)
    returns (steps: seq<Step>)
    requires PhaseOf(s, p).Idle? && s.lock.None? && Plain(s.disk) && (req.Mint? || s.disk.present)
    requires ReadDisk(s.disk).Success? && (Valid(e) ==> Decide(ReadDisk(s.disk).value, req, now, id) == Some((e, grant)))
    ensures var (d, how) := AfterAppend(s.disk, e, env);
      Ran(s, p, steps, d, if how.Appended? then [Ack(e, grant, s.epoch, d.linked)] else [])
  {
    hide ReadDisk, Decide, Valid, LineBytes, Moved, TakeAll, Take, RecordSteps, OpeningSteps;
    if !Valid(e) || !Fits(s.disk.content, e) || env.open.NotOpened? {
      steps := [];
      NoSteps(s);
    } else if !env.open.Opened? {
      steps := OpeningSteps(p, req, now, id) + [WriteFails(p)];
      OpeningRun(s, p, req, now, id, e, grant);
      OpenedFails(s, p, req, now, id, Job(e, grant, !s.disk.present));
    } else {
      steps := OpeningSteps(p, req, now, id) + RecordSteps(p, Job(e, grant, !s.disk.present), env);
      FullRun(s, p, req, now, id, e, grant, env);
    }
  }

  lemma NoSteps(s: Sys)
    ensures TakeAll(s, []) == Some(s) && s.acked + [] == s.acked
  {
  }

  lemma OpenedFails(s: Sys, p: nat, req: Request, now: int, id: string, job: Job)
    requires TakeAll(s, OpeningSteps(p, req, now, id)).Some?
    requires InPhase(s, p, TakeAll(s, OpeningSteps(p, req, now, id)).value, s.disk.(present := true), Writing(job, 0))
    ensures Ran(s, p, OpeningSteps(p, req, now, id) + [WriteFails(p)], s.disk.(present := true), [])
  {
    hide TakeAll, OpeningSteps;
    var t := TakeAll(s, OpeningSteps(p, req, now, id)).value;
    FailStep(t, p, Writing(job, 0), WriteFails(p));
    OneStep(t, WriteFails(p));
    TakeAllAppend(s, OpeningSteps(p, req, now, id), [WriteFails(p)]);
  }

  /** The writes of one line and, if they all went through, the barriers. */
  function RecordSteps(p: nat, job: Job, env: Env): seq<Step> {
    var writes := WriteSteps(p, |LineBytes(job.entry)|, env.writes);
    if Moved(|LineBytes(job.entry)|, env.writes).1.Complete? then writes + BarrierSteps(p, job.created, env) else writes
  }

  /** What a whole append adds to the reported successes. */
  function Acks(job: Job, how: Appending, epoch: nat, d: Disk): seq<Ack> {
    if how.Appended? then [Ack(job.entry, job.grant, epoch, d.linked)] else []
  }

  lemma NoAcks(job: Job, how: Appending, epoch: nat, d: Disk)
    ensures !how.Appended? ==> Acks(job, how, epoch, d) == []
  {
  }

  lemma LineNotEmpty(e: Entry)
    ensures |LineBytes(e)| > 0
  {
    LineShape(e);
  }

  lemma RecordRun(s: Sys, p: nat, job: Job, env: Env, k: nat, how: Transfer)
    requires InPhase(s, p, s, s.disk, Writing(job, 0))
    requires Moved(|LineBytes(job.entry)|, env.writes) == (k, how)
    ensures k <= |LineBytes(job.entry)|
    ensures var t := s.disk.(content := s.disk.content + Part(job.entry, 0, k));
      var (d, end) := if how.Complete? then AfterBarriers(t, job.created, env) else (t, Crashed);
      Ran(s, p, RecordSteps(p, job, env), d, Acks(job, end, s.epoch, d))
  {
    var line := |LineBytes(job.entry)|;
    var writes := WriteSteps(p, line, env.writes);
    hide TakeAll, WriteSteps, BarrierSteps, LineBytes, Moved, AfterBarriers, Part;
    LineNotEmpty(job.entry);
    WriteRun(s, p, job, 0, line, env.writes);
    var b := TakeAll(s, writes).value;
    if how.Complete? {
      BarrierRun(b, p, job, env);
      TakeAllAppend(s, writes, BarrierSteps(p, job.created, env));
    }
  }

  lemma RanAfter(s: Sys, p: nat, first: seq<Step>, more: seq<Step>, d: Disk, acks: seq<Ack>)
    requires TakeAll(s, first).Some? && Ran(TakeAll(s, first).value, p, more, d, acks)
    requires TakeAll(s, first).value.acked == s.acked && TakeAll(s, first).value.epoch == s.epoch
    ensures Ran(s, p, first + more, d, acks)
  {
    hide TakeAll;
    TakeAllAppend(s, first, more);
  }

  lemma FullRun(s: Sys, p: nat, req: Request, now: int, id: string, e: Entry, grant: Entry, env: Env)
    requires PhaseOf(s, p).Idle? && s.lock.None? && (req.Mint? || s.disk.present)
    requires ReadDisk(s.disk).Success? && Decide(ReadDisk(s.disk).value, req, now, id) == Some((e, grant))
    requires Valid(e) && Fits(s.disk.content, e) && env.open.Opened?
    ensures var job := Job(e, grant, !s.disk.present);
      var (d, how) := AfterAppend(s.disk, e, env);
      Ran(s, p, OpeningSteps(p, req, now, id) + RecordSteps(p, job, env), d, Acks(job, how, s.epoch, d))
  {
    var job := Job(e, grant, !s.disk.present);
    hide *;
    OpeningRun(s, p, req, now, id, e, grant);
    AppendParts(s.disk, e, env);
    var a := TakeAll(s, OpeningSteps(p, req, now, id)).value;
    OwnPhase(s, p, a, s.disk.(present := true), Writing(job, 0));
    var (k, how) := Moved(|LineBytes(e)|, env.writes);
    RecordRun(a, p, job, env, k, how);
    var (d, end) := AfterAppend(s.disk, e, env);
    NoAcks(job, end, s.epoch, d);
    NoAcks(job, Crashed, s.epoch, d);
    RanAfter(s, p, OpeningSteps(p, req, now, id), RecordSteps(p, job, env), d, Acks(job, end, s.epoch, d));
  }

  /** What `AfterAppend` is once the record is valid, fits, and the file is open. */
  lemma AppendParts(d: Disk, e: Entry, env: Env)
    requires Valid(e) && Fits(d.content, e) && env.open.Opened?
    ensures var (k, how) := Moved(|LineBytes(e)|, env.writes);
      var t := d.(present := true, content := d.content + Part(e, 0, k));
      AfterAppend(d, e, env) ==
        match how
        case ZeroWrite => (t, TornRefusal)
        case OsFailure => (t, TornError)
        case Died => (t, Crashed)
        case Complete => AfterBarriers(t, !d.present, env)
  {
    hide Valid, LineBytes, Moved, AfterBarriers;
    var k := Moved(|LineBytes(e)|, env.writes).0;
    assert LineBytes(e)[..k] == LineBytes(e)[0..k];
  }

  // ---- the calls ------------------------------------------------------------------------------

  function ConsumeAcks(s: Sys, now: int, d: Disk, r: Outcome): seq<Ack> {
    if r.Recorded? then [Ack(Consumption(r.view.id, r.view.bound, now), GrantOf(r.view), s.epoch, d.linked)] else []
  }

  /** `_consume_approval`, whatever answers it meets, is a run that reports exactly its success. */
  lemma ConsumeIsRun(s: Sys, p: nat, bound: string, root: string, now: int, env: Env) returns (steps: seq<Step>)
    requires PhaseOf(s, p).Idle? && s.lock.None? && Plain(s.disk)
    ensures var (d, r) := AfterConsume(s.disk, bound, root, now, env);
      Ran(s, p, steps, d, ConsumeAcks(s, now, d, r))
  {
    hide ReadDisk, AfterAppend, TakeAll, Fold, Valid;
    steps := [];
    NoSteps(s);
    var active := Folded(s.disk, root, now, env);
    if s.disk.present && active.Success? && bound in active.value {
      var view := active.value[bound];
      ActiveNow(s.disk, root, now, env, bound);
      var e := Consumption(view.id, view.bound, now);
      steps := AppendIsRun(s, p, Request.Consume(bound, root, now), 0, [], e, GrantOf(view), env);
    }
  }

  function MintAcks(s: Sys, d: Disk, r: Outcome): seq<Ack> {
    if r.Recorded? then [Ack(GrantOf(r.view), GrantOf(r.view), s.epoch, d.linked)] else []
  }

  /** `_mint`, likewise. */
  lemma MintIsRun(s: Sys, p: nat, expected: string, rebuilt: Option<Artifact>, now: int, token: Option<string>, env: Env)
    returns (steps: seq<Step>)
    requires PhaseOf(s, p).Idle? && s.lock.None? && Plain(s.disk)
    ensures var (d, r) := AfterMint(s.disk, expected, rebuilt, now, token, env);
      Ran(s, p, steps, d, MintAcks(s, d, r))
  {
    hide ReadDisk, AfterAppend, TakeAll, Fold, Valid, Issued;
    steps := [];
    NoSteps(s);
    if env.lock.Granted? && rebuilt.Some? && rebuilt.value.bound == expected {
      var art := rebuilt.value;
      var active := Folded(s.disk, art.root, now, env);
      if active.Success? && expected !in active.value && token.Some? && |token.value| == 64
        && !Issued(ReadDisk(s.disk).value, token.value) {
        var e := Minted(art, now, token.value);
        var req := Request.Mint(art.bound, art.root, art.path, art.risk);
        steps := AppendIsRun(s, p, req, now, token.value, e, e, env);
      }
    }
  }

  /**
   Single use, call by call: after a consume that succeeded, and whatever any processes and power
   losses do in between, a consume that succeeds again is of another approval.
   */
  lemma CallsConsumeOnce(
      s: Sys, p: nat, bound: string, root: string, now: int, env: Env, steps: seq<Step>, between: seq<Step>,
      q: nat, bound2: string, root2: string, now2: int, env2: Env)
    requires Reachable(s)
    requires var (d, r) := AfterConsume(s.disk, bound, root, now, env);
      r.Recorded? && Ran(s, p, steps, d, ConsumeAcks(s, now, d, r))
    requires TakeAll(TakeAll(s, steps).value, between).Some?
    requires var t := TakeAll(TakeAll(s, steps).value, between).value;
      && PhaseOf(t, q).Idle? && t.lock.None? && t.epoch == s.epoch && Plain(t.disk)
      && AfterConsume(t.disk, bound2, root2, now2, env2).1.Recorded?
    ensures var t := TakeAll(TakeAll(s, steps).value, between).value;
      AfterConsume(t.disk, bound2, root2, now2, env2).1.view.id != AfterConsume(s.disk, bound, root, now, env).1.view.id
  {
    hide AfterConsume, Reachable, TakeAll, PhaseOf;
    var a := TakeAll(s, steps).value;
    var t := TakeAll(a, between).value;
    var again := ConsumeIsRun(t, q, bound2, root2, now2, env2);
    var b := TakeAll(t, again).value;
    ReachableAfter(s, steps);
    ReachableAfter(a, between);
    ReachableAfter(t, again);
    AckedSteps(a, between);
    AckedSteps(t, again);
    ConsumedOnce(b, |s.acked|, |b.acked| - 1);
  }
}
