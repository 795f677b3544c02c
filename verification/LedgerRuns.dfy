/**
 Many processes over one ledger file, at the level of bytes: a lock, writes of any length,
 durability barriers that may fail, processes that die and power that fails at any byte.
 Every run of this machine is a run of the protocol over records (module Protocol).
 */
module LedgerRuns {
  import opened Prelude
  import opened Entries
  import opened Folding
  import opened Ledger
  import opened Utf8
  import opened Protocol

  /** `durable` bytes have passed a file barrier; `linked` says the directory entry has too. */
  datatype Disk = Disk(present: bool, content: bytes, durable: nat, linked: bool)

  datatype Phase =
    | Idle
    | Waiting(req: Request)
    | Locked(req: Request)
    | Writing(job: Job, done: nat)
    | Syncing(job: Job)
    | Linking(job: Job)

  datatype Sys = Sys(disk: Disk, lock: Option<nat>, procs: map<nat, Phase>, acked: seq<Ack>, epoch: nat)

  /** The directory barrier of the append that created the file: without an open directory there is none. */
  datatype Barrier = Passed | Skipped | Broken

  datatype Step =
    | Begin(p: nat, req: Request)
    | GiveUp(p: nat)
    | Acquire(p: nat)
    | Settle(p: nat, now: int, id: string)
    | Write(p: nat, n: nat)
    | WriteFails(p: nat)
    | FileSync(p: nat, ok: bool)
    | DirSync(p: nat, how: Barrier)
    | Kill(p: nat)
    | PowerLoss(k: nat, keep: bool)

  const START := Sys(Disk(false, [], 0, false), None, map[], [], 0)

  function PhaseOf(s: Sys, p: nat): Phase {
    if p in s.procs then s.procs[p] else Idle
  }

  predicate Critical(ph: Phase) { !ph.Idle? && !ph.Waiting? }

  function SetPhase(s: Sys, p: nat, ph: Phase): Sys { s.(procs := s.procs[p := ph]) }

  function Release(s: Sys, p: nat): Sys { SetPhase(s, p, Idle).(lock := None) }

  function Report(s: Sys, p: nat, job: Job): Sys {
    Release(s, p).(acked := s.acked + [Ack(job.entry, job.grant, s.epoch, s.disk.linked)])
  }

  /** A missing ledger holds no records. */
  function ReadDisk(d: Disk): Result<seq<Entry>, Fault> {
    if d.present then ReadLedger(d.content) else Success([])
  }

  /** Read, fold and decide under the lock; opening the ledger for the append creates it. */
  function Settled(s: Sys, p: nat, now: int, id: string): Sys
    requires PhaseOf(s, p).Locked?
  {
    var es := ReadDisk(s.disk);
    if es.Failure? then Release(s, p)
    else
      var d := Decide(es.value, PhaseOf(s, p).req, now, id);
      if d.None? || !Fits(s.disk.content, d.value.0) then Release(s, p)
      else
        var job := Job(d.value.0, d.value.1, !s.disk.present);
        SetPhase(s, p, Writing(job, 0)).(disk := s.disk.(present := true))
  }

  function Written(s: Sys, p: nat, n: nat): Sys
    requires PhaseOf(s, p).Writing? && PhaseOf(s, p).done + n <= |LineBytes(PhaseOf(s, p).job.entry)|
  {
    var job, done := PhaseOf(s, p).job, PhaseOf(s, p).done;
    var line := LineBytes(job.entry);
    var t := s.(disk := s.disk.(content := s.disk.content + line[done..done + n]));
    SetPhase(t, p, if done + n == |line| then Syncing(job) else Writing(job, done + n))
  }

  function FileSynced(s: Sys, p: nat, ok: bool): Sys
    requires PhaseOf(s, p).Syncing?
  {
    var job := PhaseOf(s, p).job;
    if !ok then Release(s, p)
    else
      var t := s.(disk := s.disk.(durable := |s.disk.content|));
      if job.created then SetPhase(t, p, Linking(job)) else Report(t, p, job)
  }

  /** Only a barrier that ran makes the directory entry durable; a skipped one reports success as well. */
  function DirSynced(s: Sys, p: nat, how: Barrier): Sys
    requires PhaseOf(s, p).Linking?
  {
    if how.Broken? then Release(s, p)
    else Report(s.(disk := s.disk.(linked := s.disk.linked || how.Passed?)), p, PhaseOf(s, p).job)
  }

  /** What a power loss leaves: a prefix no shorter than the durable one, or no file if its entry was not durable. */
  function AfterPowerLoss(s: Sys, k: nat, keep: bool): Option<Sys> {
    var t := s.(lock := None, procs := map[]);
    var d := s.disk;
    if !d.present then Some(t)
    else if !d.linked && !keep then Some(t.(disk := Disk(false, [], 0, false), epoch := s.epoch + 1))
    else if d.durable <= k <= |d.content| then Some(t.(disk := Disk(true, d.content[..k], k, true)))
    else None
  }

  function Take(s: Sys, step: Step): Option<Sys> {
    match step
    case Begin(p, req) =>
      // A consumer or a lookup without a ledger stops before the lock.
      if PhaseOf(s, p).Idle? && (req.Mint? || s.disk.present) then Some(SetPhase(s, p, Waiting(req))) else None
    case GiveUp(p) => if PhaseOf(s, p).Waiting? then Some(SetPhase(s, p, Idle)) else None
    case Acquire(p) =>
      if PhaseOf(s, p).Waiting? && s.lock.None? then Some(SetPhase(s, p, Locked(PhaseOf(s, p).req)).(lock := Some(p)))
      else None
    case Settle(p, now, id) => if PhaseOf(s, p).Locked? then Some(Settled(s, p, now, id)) else None
    case Write(p, n) =>
      if PhaseOf(s, p).Writing? && 1 <= n && PhaseOf(s, p).done + n <= |LineBytes(PhaseOf(s, p).job.entry)|
      then Some(Written(s, p, n)) else None
    case WriteFails(p) => if PhaseOf(s, p).Writing? then Some(Release(s, p)) else None
    case FileSync(p, ok) => if PhaseOf(s, p).Syncing? then Some(FileSynced(s, p, ok)) else None
    case DirSync(p, how) => if PhaseOf(s, p).Linking? then Some(DirSynced(s, p, how)) else None
    case Kill(p) => Some(if s.lock == Some(p) then Release(s, p) else SetPhase(s, p, Idle))
    case PowerLoss(k, keep) => AfterPowerLoss(s, k, keep)
  }

  function TakeAll(s: Sys, steps: seq<Step>): Option<Sys>
    decreases |steps|
  {
    if steps == [] then Some(s)
    else
      var t := Take(s, steps[0]);
      if t.None? then None else TakeAll(t.value, steps[1..])
  }

  // ---- the refinement relation ---------------------------------------------------------------

  predicate Records(log: seq<Entry>) {
    && (forall k :: 0 <= k < |log| ==> Recordable(log[k]))
    && |log| <= MAX_ENTRIES + 1
    && |Serialize(log)| <= MAX_LEDGER_BYTES
  }

  /** Complete records, then bytes of an unfinished one; the durable part covers the stable records. */
  predicate Layout(d: Disk, u: State, tail: bytes) {
    && d.present == u.present && d.linked == u.linked
    && d.content == Serialize(u.log) + tail
    && LF_BYTE !in tail
    && (!d.present ==> d.content == [])
    && u.stable <= |u.log| && |Serialize(u.log[..u.stable])| <= d.durable <= |d.content|
    && Records(u.log)
  }

  /** The lock is held by exactly the process that is in its critical section. */
  ghost predicate Exclusive(s: Sys) {
    forall p: nat :: Critical(PhaseOf(s, p)) <==> s.lock == Some(p)
  }

  function SectionOf(ph: Phase): Section {
    match ph
    case Idle => Free
    case Waiting(_) => Free
    case Locked(req) => Held(req)
    case Writing(job, _) => Pending(job)
    case Syncing(job) => Unsynced(job)
    case Linking(job) => Unlinked(job)
  }

  function Holder(s: Sys): Phase {
    if s.lock.Some? then PhaseOf(s, s.lock.value) else Idle
  }

  predicate TailSound(ph: Phase, u: State, tail: bytes) {
    if ph.Writing? then
      var line := LineBytes(ph.job.entry);
      && !u.torn && ph.done < |line| && tail == line[..ph.done]
      && Valid(ph.job.entry) && Fits(Serialize(u.log), ph.job.entry) && |u.log| <= MAX_ENTRIES
    else tail == [] <==> !u.torn
  }

  ghost predicate Refines(s: Sys, u: State, tail: bytes) {
    && Layout(s.disk, u, tail)
    && Exclusive(s)
    && u.section == SectionOf(Holder(s))
    && TailSound(Holder(s), u, tail)
    && s.acked == u.acked && s.epoch == u.epoch
  }

  lemma TornUnreadable(d: Disk, u: State, tail: bytes)
    requires Layout(d, u, tail) && tail != []
    ensures ReadDisk(d).Failure?
  {
    hide Records, Serialize, ParseText, Decode;
    assert d.content[|d.content| - 1] == tail[|tail| - 1];
    assert tail[|tail| - 1] in tail;
  }

  /** The bytes of a refined state read as its records, or not at all. */
  lemma ReadMatches(d: Disk, u: State, tail: bytes)
    requires Layout(d, u, tail) && (tail == [] <==> !u.torn)
    ensures Read(u).Some? ==> ReadDisk(d) == Success(Read(u).value)
    ensures Read(u).None? ==> ReadDisk(d).Failure?
  {
    if tail != [] {
      TornUnreadable(d, u, tail);
    } else {
      assert d.content == Serialize(u.log);
      hide ReadLedger, Recordable;
      if |u.log| <= MAX_ENTRIES {
        LedgerRoundTrip(u.log);
        if !d.present { EmptyLog(u.log); }
      } else {
        OverCap(u.log);
      }
    }
  }

  lemma EmptyLog(log: seq<Entry>)
    requires Serialize(log) == [] && Records(log)
    ensures log == []
  {
    if log != [] {
      LineShape(log[0]);
    }
  }

  lemma OverCap(log: seq<Entry>)
    requires Records(log) && |log| == MAX_ENTRIES + 1
    ensures ReadLedger(Serialize(log)).Failure?
  {
    hide Recordable, Serialize, LineBytes, ParseBytes;
    var n := MAX_ENTRIES;
    assert log == log[..n] + [log[n]];
    SerializeAppend(log[..n], log[n]);
    LedgerRoundTrip(log[..n]);
    assert Recordable(log[n]);
    RecordFits(log[..n], log[n]);
    AppendClosure(Serialize(log[..n]), log[n]);
  }

  lemma RecordFits(log: seq<Entry>, e: Entry)
    requires Recordable(e) && |Serialize(log) + LineBytes(e)| <= MAX_LEDGER_BYTES
    ensures Valid(e) && Fits(Serialize(log), e)
  {
    hide Valid, LineBytes, Serialize;
  }

  // ---- every byte-level step is a step of the protocol, or invisible to it ----------------------

  lemma Parts(s: Sys, u: State, tail: bytes)
    requires Refines(s, u, tail)
    ensures Layout(s.disk, u, tail) && Exclusive(s) && TailSound(Holder(s), u, tail)
    ensures u.section == SectionOf(Holder(s)) && s.acked == u.acked && s.epoch == u.epoch
    ensures s.disk.present == u.present && s.disk.linked == u.linked
  {
    hide Records, Exclusive, TailSound;
  }

  lemma Whole(s: Sys, u: State, tail: bytes, ph: Phase)
    requires Layout(s.disk, u, tail) && Exclusive(s) && Holder(s) == ph && TailSound(ph, u, tail)
    requires u.section == SectionOf(ph) && s.acked == u.acked && s.epoch == u.epoch
    ensures Refines(s, u, tail)
  {
    hide Layout, Exclusive, TailSound;
  }

  /** The process in its critical section is the holder of the lock. */
  lemma HolderIs(s: Sys, p: nat)
    requires Exclusive(s) && Critical(PhaseOf(s, p))
    ensures s.lock == Some(p) && Holder(s) == PhaseOf(s, p)
  {
    assert Critical(PhaseOf(s, p)) <==> s.lock == Some(p);
  }

  /** The effect of moving the holder to another phase, with any change of disk, successes and epoch. */
  lemma HolderMoves(s: Sys, p: nat, t: Sys, ph: Phase)
    requires Exclusive(s) && Critical(PhaseOf(s, p))
    requires t.procs == s.procs[p := ph] && (if Critical(ph) then t.lock == s.lock else t.lock == None)
    ensures Exclusive(t) && (Critical(ph) ==> Holder(t) == ph) && (!Critical(ph) ==> Holder(t) == Idle)
  {
    assert Critical(PhaseOf(s, p)) <==> s.lock == Some(p);
    forall q: nat ensures Critical(PhaseOf(t, q)) <==> t.lock == Some(q) {
      assert Critical(PhaseOf(s, q)) <==> s.lock == Some(q);
    }
  }

  lemma OtherMoves(s: Sys, p: nat, ph: Phase)
    requires Exclusive(s) && !Critical(PhaseOf(s, p)) && !Critical(ph)
    ensures Exclusive(SetPhase(s, p, ph)) && Holder(SetPhase(s, p, ph)) == Holder(s)
  {
    var t := SetPhase(s, p, ph);
    forall q: nat ensures Critical(PhaseOf(t, q)) <==> t.lock == Some(q) {
      assert Critical(PhaseOf(s, q)) <==> s.lock == Some(q);
    }
    if s.lock.Some? { assert Critical(PhaseOf(s, s.lock.value)) <==> s.lock == Some(s.lock.value); }
  }

  lemma LayoutSection(d: Disk, u: State, tail: bytes, v: State)
    requires Layout(d, u, tail)
    requires v.present == u.present && v.linked == u.linked && v.log == u.log && v.stable == u.stable
    ensures Layout(d, v, tail)
  {
    hide Records, Serialize;
  }

  /** One step of the protocol, or none. */
  predicate Moves(u: State, ev: Option<Event>, v: State) {
    if ev.None? then v == u else Next(u, ev.value) == Some(v)
  }

  /** The event is not a decision to append. */
  predicate NoChoice(ev: Option<Event>) { ev.Some? ==> !ev.value.Choose? }

  lemma PhaseFacts(ph: Phase)
    ensures Critical(ph) <==> !ph.Idle? && !ph.Waiting?
    ensures ph.Idle? || ph.Waiting? ==> SectionOf(ph) == Free
    ensures ph.Writing? ==> SectionOf(ph) == Pending(ph.job)
    ensures ph.Syncing? ==> SectionOf(ph) == Unsynced(ph.job)
    ensures ph.Linking? ==> SectionOf(ph) == Unlinked(ph.job)
    ensures ph.Locked? ==> SectionOf(ph) == Held(ph.req)
  {
  }

  lemma Unchosen(ev: Option<Event>)
    requires ev.None? || !ev.value.Choose?
    ensures NoChoice(ev)
  {
  }

  // -- leaving the section without success

  function AfterRelease(ph: Phase, u: State, tail: bytes): (r: (Event, State))
    ensures r.1 == u.(torn := u.torn || (ph.Writing? && tail != []), section := Free) && !r.0.Choose?
  {
    if ph.Writing? && tail != [] then (Tear, u.(torn := true, section := Free)) else (Leave, u.(section := Free))
  }

  lemma ReleasedTail(ph: Phase, u: State, tail: bytes)
    requires TailSound(ph, u, tail)
    ensures TailSound(Idle, AfterRelease(ph, u, tail).1, tail)
  {
    hide Valid, Fits, LineBytes;
  }

  lemma ReleaseMoves(ph: Phase, u: State, tail: bytes)
    requires u.section == SectionOf(ph)
    ensures Moves(u, Some(AfterRelease(ph, u, tail).0), AfterRelease(ph, u, tail).1)
  {
    hide Decide;
  }

  /** A section that ends with nothing, or with part of a line, in the file. */
  lemma SimulateRelease(s: Sys, u: State, tail: bytes, p: nat) returns (ev: Option<Event>, v: State)
    requires Refines(s, u, tail) && Critical(PhaseOf(s, p))
    ensures Moves(u, ev, v) && Refines(Release(s, p), v, tail) && NoChoice(ev)
  {
    var t, ph := Release(s, p), Holder(s);
    assert t.procs == s.procs[p := Idle] && t.lock == None && t.disk == s.disk && t.acked == s.acked && t.epoch == s.epoch;
    assert SectionOf(Idle) == Free && !Critical(Idle);
    hide *;
    Parts(s, u, tail);
    HolderMoves(s, p, t, Idle);
    var r := AfterRelease(ph, u, tail);
    ev, v := Some(r.0), r.1;
    Unchosen(ev);
    ReleasedTail(ph, u, tail);
    ReleaseMoves(ph, u, tail);
    LayoutSection(s.disk, u, tail, v);
    Whole(t, v, tail, Idle);
  }

  // -- deciding

  lemma SimulateSettle(s: Sys, u: State, tail: bytes, p: nat, now: int, id: string) returns (ev: Option<Event>, v: State)
    requires Refines(s, u, tail) && PhaseOf(s, p).Locked?
    ensures Moves(u, ev, v) && Refines(Settled(s, p, now, id), v, tail)
    ensures NoChoice(ev) || ev == Some(Choose(now, id))
  {
    var t := Settled(s, p, now, id);
    Parts(s, u, tail);
    HolderIs(s, p);
    LockedReads(s.disk, u, tail, PhaseOf(s, p));
    hide Refines, Exclusive, Layout, Decide, Fits, ReadDisk, Read, TailSound;
    if t == Release(s, p) {
      ev, v := SimulateRelease(s, u, tail, p);
    } else {
      var d := Decide(Read(u).value, PhaseOf(s, p).req, now, id).value;
      ev := Some(Choose(now, id));
      v := SimulateChoose(s, u, tail, p, now, id, d);
    }
  }

  lemma LockedReads(d: Disk, u: State, tail: bytes, ph: Phase)
    requires Layout(d, u, tail) && TailSound(ph, u, tail) && ph.Locked?
    ensures tail == [] <==> !u.torn
    ensures Read(u).Some? ==> ReadDisk(d) == Success(Read(u).value)
    ensures Read(u).None? ==> ReadDisk(d).Failure?
  {
    hide Layout, ReadDisk, Read, Valid, Fits, LineBytes;
    ReadMatches(d, u, tail);
  }

  lemma SimulateChoose(s: Sys, u: State, tail: bytes, p: nat, now: int, id: string, d: (Entry, Entry)) returns (v: State)
    requires Refines(s, u, tail) && PhaseOf(s, p).Locked? && Read(u).Some?
    requires Decide(Read(u).value, PhaseOf(s, p).req, now, id) == Some(d) && Fits(s.disk.content, d.0)
    ensures Moves(u, Some(Choose(now, id)), v)
    ensures var job := Job(d.0, d.1, !s.disk.present);
      Refines(SetPhase(s, p, Writing(job, 0)).(disk := s.disk.(present := true)), v, tail)
  {
    var job := Job(d.0, d.1, !s.disk.present);
    var t := SetPhase(s, p, Writing(job, 0)).(disk := s.disk.(present := true));
    hide Critical, SectionOf, Fits, Decide, Read, Refines, PhaseOf;
    assert t.procs == s.procs[p := Writing(job, 0)] && t.lock == s.lock;
    PhaseFacts(Writing(job, 0));
    PhaseFacts(PhaseOf(s, p));
    v := u.(present := true, section := Pending(job));
    ChooseMoves(s, u, tail, p, now, id, d);
    hide *;
    Parts(s, u, tail);
    HolderIs(s, p);
    HolderMoves(s, p, t, Writing(job, 0));
    LockedReads(s.disk, u, tail, PhaseOf(s, p));
    DecideGrounded(Read(u).value, PhaseOf(s, p).req, now, id);
    StartTail(s.disk, u, tail, job, v);
    Whole(t, v, tail, Writing(job, 0));
  }

  lemma ChooseMoves(s: Sys, u: State, tail: bytes, p: nat, now: int, id: string, d: (Entry, Entry))
    requires Refines(s, u, tail) && PhaseOf(s, p).Locked? && Read(u).Some?
    requires Decide(Read(u).value, PhaseOf(s, p).req, now, id) == Some(d)
    ensures Moves(u, Some(Choose(now, id)), u.(present := true, section := Pending(Job(d.0, d.1, !s.disk.present))))
  {
    Parts(s, u, tail);
    assert Critical(PhaseOf(s, p));
    HolderIs(s, p);
    hide Refines, Exclusive, Layout, TailSound, Decide, Read;
  }

  lemma StartTail(d: Disk, u: State, tail: bytes, job: Job, v: State)
    requires Layout(d, u, tail) && Read(u).Some? && (tail == [] <==> !u.torn)
    requires Valid(job.entry) && Fits(d.content, job.entry)
    requires v == u.(present := true, section := Pending(job))
    ensures Layout(d.(present := true), v, tail) && TailSound(Writing(job, 0), v, tail)
  {
    LineShape(job.entry);
    hide LineBytes, Valid, Fits, Serialize;
    StartLayout(d, u, tail, v);
    assert Serialize(u.log) == d.content;
    WritingTail(v, job, 0, tail);
    hide Layout, TailSound;
  }

  lemma StartLayout(d: Disk, u: State, tail: bytes, v: State)
    requires Layout(d, u, tail) && Read(u).Some? && (tail == [] <==> !u.torn)
    requires v.present && v.linked == u.linked && v.log == u.log && v.stable == u.stable
    ensures Layout(d.(present := true), v, tail) && d.content == Serialize(u.log)
  {
    hide Records, Serialize;
  }

  // -- writing

  lemma LayoutGrow(d: Disk, u: State, tail: bytes, more: bytes)
    requires Layout(d, u, tail) && d.present && LF_BYTE !in tail + more
    ensures Layout(d.(content := d.content + more), u, tail + more)
  {
    hide Records, Serialize;
    assert Serialize(u.log) + tail + more == Serialize(u.log) + (tail + more);
  }

  lemma PrefixHasNoLf(e: Entry, k: nat)
    requires k < |LineBytes(e)|
    ensures LF_BYTE !in LineBytes(e)[..k]
  {
    LineShape(e);
    hide LineBytes;
  }

  predicate MidLine(u: State, job: Job, done: nat, tail: bytes) {
    && !u.torn && done < |LineBytes(job.entry)| && tail == LineBytes(job.entry)[..done]
    && Valid(job.entry) && Fits(Serialize(u.log), job.entry) && |u.log| <= MAX_ENTRIES
  }

  lemma WritingTail(u: State, job: Job, done: nat, tail: bytes)
    ensures TailSound(Writing(job, done), u, tail) <==> MidLine(u, job, done, tail)
  {
    hide LineBytes, Valid, Fits, Serialize;
  }

  lemma PartialTail(u: State, job: Job, done: nat, n: nat, tail: bytes)
    requires MidLine(u, job, done, tail) && done + n < |LineBytes(job.entry)|
    ensures var line := LineBytes(job.entry);
      tail + line[done..done + n] == line[..done + n] && MidLine(u, job, done + n, line[..done + n])
  {
    hide LineBytes, Valid, Fits, Serialize;
  }

  lemma SimulatePartial(s: Sys, u: State, tail: bytes, p: nat, n: nat)
    requires Refines(s, u, tail) && Inv(u) && PhaseOf(s, p).Writing?
    requires PhaseOf(s, p).done + n < |LineBytes(PhaseOf(s, p).job.entry)|
    ensures Refines(Written(s, p, n), u, LineBytes(PhaseOf(s, p).job.entry)[..PhaseOf(s, p).done + n])
  {
    var job, done, t := PhaseOf(s, p).job, PhaseOf(s, p).done, Written(s, p, n);
    var line, ph := LineBytes(job.entry), Writing(job, done + n);
    hide *;
    WrittenIs(s, p, n, ph);
    PhaseFacts(PhaseOf(s, p));
    PhaseFacts(ph);
    Parts(s, u, tail);
    HolderIs(s, p);
    HolderMoves(s, p, t, ph);
    SectionPresent(u, job);
    PartialLayout(s.disk, u, job, done, n, tail);
    Whole(t, u, line[..done + n], ph);
  }

  lemma PartialLayout(d: Disk, u: State, job: Job, done: nat, n: nat, tail: bytes)
    requires Layout(d, u, tail) && TailSound(Writing(job, done), u, tail) && d.present
    requires done + n < |LineBytes(job.entry)|
    ensures var line := LineBytes(job.entry);
      && Layout(d.(content := d.content + line[done..done + n]), u, line[..done + n])
      && TailSound(Writing(job, done + n), u, line[..done + n])
  {
    hide *;
    var line := LineBytes(job.entry);
    WritingTail(u, job, done, tail);
    PartialTail(u, job, done, n, tail);
    WritingTail(u, job, done + n, line[..done + n]);
    PrefixHasNoLf(job.entry, done + n);
    LayoutGrow(d, u, tail, line[done..done + n]);
  }

  lemma WrittenIs(s: Sys, p: nat, n: nat, ph: Phase)
    requires PhaseOf(s, p).Writing? && PhaseOf(s, p).done + n <= |LineBytes(PhaseOf(s, p).job.entry)|
    requires ph == if PhaseOf(s, p).done + n == |LineBytes(PhaseOf(s, p).job.entry)|
                   then Syncing(PhaseOf(s, p).job) else Writing(PhaseOf(s, p).job, PhaseOf(s, p).done + n)
    ensures var done, t := PhaseOf(s, p).done, Written(s, p, n);
      && t.disk == s.disk.(content := s.disk.content + LineBytes(PhaseOf(s, p).job.entry)[done..done + n])
      && t.lock == s.lock && t.acked == s.acked && t.epoch == s.epoch && t.procs == s.procs[p := ph]
  {
    hide LineBytes;
  }

  /** A section that writes has opened, and so created, the ledger. */
  lemma SectionPresent(u: State, job: Job)
    requires Inv(u) && u.section == Pending(job)
    ensures u.present
  {
    hide AckedSound, Grounded, Spent;
  }

  lemma FullTail(u: State, job: Job, done: nat, tail: bytes)
    requires MidLine(u, job, done, tail) && Records(u.log)
    ensures var line := LineBytes(job.entry); tail + line[done..|line|] == line && Records(u.log + [job.entry])
  {
    SerializeAppend(u.log, job.entry);
    hide LineBytes, Valid, Serialize;
  }

  lemma LayoutComplete(d: Disk, u: State, tail: bytes, more: bytes, e: Entry, v: State)
    requires Layout(d, u, tail) && d.present && tail + more == LineBytes(e) && Records(u.log + [e])
    requires v.log == u.log + [e] && v.stable == u.stable && v.present == u.present && v.linked == u.linked
    ensures Layout(d.(content := d.content + more), v, [])
  {
    SerializeAppend(u.log, e);
    hide Records, Serialize, LineBytes;
    assert Serialize(u.log) + tail + more == Serialize(u.log) + (tail + more);
    assert v.log[..v.stable] == u.log[..u.stable];
  }

  lemma SimulateFull(s: Sys, u: State, tail: bytes, p: nat, n: nat) returns (v: State)
    requires Refines(s, u, tail) && Inv(u) && PhaseOf(s, p).Writing?
    requires PhaseOf(s, p).done + n == |LineBytes(PhaseOf(s, p).job.entry)|
    ensures Moves(u, Some(Append), v) && Refines(Written(s, p, n), v, [])
  {
    hide *;
    var job, done := PhaseOf(s, p).job, PhaseOf(s, p).done;
    var ph := Syncing(job);
    WrittenIs(s, p, n, ph);
    PhaseFacts(PhaseOf(s, p));
    PhaseFacts(ph);
    Parts(s, u, tail);
    HolderIs(s, p);
    HolderMoves(s, p, Written(s, p, n), ph);
    v := FinishLine(s.disk, u, job, done, n, tail);
    Whole(Written(s, p, n), v, [], ph);
  }

  /** The last bytes of a line: the record is then in the log. */
  lemma FinishLine(d: Disk, u: State, job: Job, done: nat, n: nat, tail: bytes) returns (v: State)
    requires Layout(d, u, tail) && TailSound(Writing(job, done), u, tail) && Inv(u) && u.section == Pending(job)
    requires done + n == |LineBytes(job.entry)| && d.present == u.present
    ensures Moves(u, Some(Append), v) && v.section == Unsynced(job) && v.acked == u.acked && v.epoch == u.epoch
    ensures Layout(d.(content := d.content + LineBytes(job.entry)[done..done + n]), v, []) && TailSound(Syncing(job), v, [])
  {
    hide *;
    SectionPresent(u, job);
    AppendMoves(u, job);
    v := u.(log := u.log + [job.entry], section := Unsynced(job));
    FullLayout(d, u, job, done, n, tail, v);
  }

  lemma FullLayout(d: Disk, u: State, job: Job, done: nat, n: nat, tail: bytes, v: State)
    requires Layout(d, u, tail) && TailSound(Writing(job, done), u, tail) && d.present
    requires done + n == |LineBytes(job.entry)| && v == u.(log := u.log + [job.entry], section := Unsynced(job))
    ensures Layout(d.(content := d.content + LineBytes(job.entry)[done..done + n]), v, [])
    ensures TailSound(Syncing(job), v, [])
  {
    hide *;
    WritingTail(u, job, done, tail);
    LayoutRecords(d, u, tail);
    FullTail(u, job, done, tail);
    LayoutComplete(d, u, tail, LineBytes(job.entry)[done..done + n], job.entry, v);
    SyncingTail(u, job, done, tail, v);
  }

  lemma AppendMoves(u: State, job: Job)
    requires u.section == Pending(job)
    ensures Moves(u, Some(Append), u.(log := u.log + [job.entry], section := Unsynced(job)))
  {
    hide Decide;
  }

  lemma LayoutRecords(d: Disk, u: State, tail: bytes)
    requires Layout(d, u, tail)
    ensures Records(u.log)
  {
    hide Records, Serialize;
  }

  lemma SyncingTail(u: State, job: Job, done: nat, tail: bytes, v: State)
    requires MidLine(u, job, done, tail) && v.torn == u.torn
    ensures TailSound(Syncing(job), v, [])
  {
    hide LineBytes, Valid, Fits;
  }

  // -- durability barriers

  lemma PlainTail(ph: Phase, qh: Phase, u: State, tail: bytes, v: State)
    requires TailSound(ph, u, tail) && !ph.Writing? && !qh.Writing? && v.torn == u.torn
    ensures TailSound(qh, v, tail)
  {
    hide LineBytes, Valid, Fits;
  }

  lemma LayoutStable(d: Disk, u: State, tail: bytes, v: State)
    requires Layout(d, u, tail)
    requires v.stable == |u.log| && v.log == u.log && v.present == u.present && v.linked == u.linked
    ensures Layout(d.(durable := |d.content|), v, tail)
  {
    hide Records, Serialize;
    assert u.log[..|u.log|] == u.log;
  }

  lemma LayoutLinked(d: Disk, u: State, tail: bytes, v: State)
    requires Layout(d, u, tail)
    requires v.stable == u.stable && v.log == u.log && v.present == u.present
    ensures Layout(d.(linked := v.linked), v, tail)
  {
    hide Records, Serialize;
  }

  lemma SyncMoves(u: State, job: Job)
    requires u.section == Unsynced(job)
    ensures var v := u.(stable := |u.log|);
      Moves(u, Some(Sync), if job.created then v.(section := Unlinked(job)) else Acknowledge(v, job))
  {
    hide Decide;
  }

  lemma LinkMoves(u: State, job: Job, synced: bool)
    requires u.section == Unlinked(job)
    ensures Moves(u, Some(Link(synced)), Acknowledge(u.(linked := u.linked || synced), job))
  {
    hide Decide;
  }

  lemma SimulateFileSync(s: Sys, u: State, tail: bytes, p: nat) returns (v: State)
    requires Refines(s, u, tail) && PhaseOf(s, p).Syncing?
    ensures Moves(u, Some(Sync), v) && Refines(FileSynced(s, p, true), v, tail)
  {
    var job, t := PhaseOf(s, p).job, FileSynced(s, p, true);
    var w := u.(stable := |u.log|);
    var ph := if job.created then Linking(job) else Idle;
    v := if job.created then w.(section := Unlinked(job)) else Acknowledge(w, job);
    Parts(s, u, tail);
    hide Refines, Layout, Exclusive, TailSound, PhaseOf;
    PhaseFacts(PhaseOf(s, p));
    PhaseFacts(ph);
    HolderIs(s, p);
    SyncMoves(u, job);
    HolderMoves(s, p, t, ph);
    PlainTail(PhaseOf(s, p), ph, u, tail, v);
    LayoutStable(s.disk, u, tail, v);
    hide Moves;
    Whole(t, v, tail, ph);
  }

  lemma SimulateDirSync(s: Sys, u: State, tail: bytes, p: nat, how: Barrier) returns (v: State)
    requires Refines(s, u, tail) && PhaseOf(s, p).Linking? && !how.Broken?
    ensures Moves(u, Some(Link(how.Passed?)), v) && Refines(DirSynced(s, p, how), v, tail)
  {
    var job, t := PhaseOf(s, p).job, DirSynced(s, p, how);
    v := Acknowledge(u.(linked := u.linked || how.Passed?), job);
    Parts(s, u, tail);
    hide Refines, Layout, Exclusive, TailSound, PhaseOf;
    PhaseFacts(PhaseOf(s, p));
    PhaseFacts(Idle);
    HolderIs(s, p);
    LinkMoves(u, job, how.Passed?);
    HolderMoves(s, p, t, Idle);
    PlainTail(PhaseOf(s, p), Idle, u, tail, v);
    LayoutLinked(s.disk, u, tail, v);
    hide Moves;
    Whole(t, v, tail, Idle);
  }

  // -- processes outside the lock

  lemma SimulateOutside(s: Sys, u: State, tail: bytes, p: nat, ph: Phase)
    requires Refines(s, u, tail) && !Critical(PhaseOf(s, p)) && !Critical(ph)
    ensures Refines(SetPhase(s, p, ph), u, tail)
  {
    Parts(s, u, tail);
    hide Refines, Layout, Exclusive, TailSound, PhaseOf, Critical;
    OtherMoves(s, p, ph);
    Whole(SetPhase(s, p, ph), u, tail, Holder(s));
  }

  lemma SimulateAcquire(s: Sys, u: State, tail: bytes, p: nat) returns (v: State)
    requires Refines(s, u, tail) && PhaseOf(s, p).Waiting? && s.lock.None?
    ensures var req := PhaseOf(s, p).req;
      Moves(u, Some(Enter(req)), v) && Refines(SetPhase(s, p, Locked(req)).(lock := Some(p)), v, tail)
  {
    var req := PhaseOf(s, p).req;
    var t := SetPhase(s, p, Locked(req)).(lock := Some(p));
    v := u.(section := Held(req));
    Parts(s, u, tail);
    hide Refines, Layout, TailSound, Decide;
    forall q: nat ensures Critical(PhaseOf(t, q)) <==> t.lock == Some(q) {
      assert Critical(PhaseOf(s, q)) <==> s.lock == Some(q);
    }
    hide PhaseOf, Critical;
    PlainTail(Idle, Locked(req), u, tail, v);
    LayoutSection(s.disk, u, tail, v);
    Whole(t, v, tail, Locked(req));
  }

  // -- power loss

  lemma SerializeLast(log: seq<Entry>)
    requires log != []
    ensures Serialize(log) == Serialize(log[..|log| - 1]) + LineBytes(log[|log| - 1])
  {
    hide *;
    var init, last := log[..|log| - 1], log[|log| - 1];
    assert log == init + [last];
    SerializeAppend(init, last);
  }

  lemma WholeLog(log: seq<Entry>, m: nat)
    requires m <= |log| && Serialize(log[..m]) != Serialize(log)
    ensures m < |log|
  {
    hide *;
    assert log[..|log|] == log;
  }

  lemma {:induction false} CutAtRecord(log: seq<Entry>, m: nat, k: nat) returns (n: nat, rest: bytes)
    requires m <= |log| && |Serialize(log[..m])| <= k <= |Serialize(log)|
    ensures m <= n <= |log| && Serialize(log)[..k] == Serialize(log[..n]) + rest && LF_BYTE !in rest
    decreases |log|
  {
    hide *;
    if k == |Serialize(log)| {
      n, rest := |log|, [];
      assert log[..n] == log;
    } else {
      WholeLog(log, m);
      n, rest := CutInside(log, m, k);
    }
  }

  lemma {:induction false} CutInside(log: seq<Entry>, m: nat, k: nat) returns (n: nat, rest: bytes)
    requires m < |log| && |Serialize(log[..m])| <= k < |Serialize(log)|
    ensures m <= n < |log| && Serialize(log)[..k] == Serialize(log[..n]) + rest && LF_BYTE !in rest
    decreases |log|, 0
  {
    hide *;
    var i := |log| - 1;
    var init, line := Serialize(log[..i]), LineBytes(log[i]);
    SerializeLast(log);
    if |init| <= k {
      n, rest := i, line[..k - |init|];
      PrefixHasNoLf(log[i], |rest|);
      assert (init + line)[..k] == init + rest;
    } else {
      assert log[..i][..m] == log[..m];
      n, rest := CutAtRecord(log[..i], m, k);
      assert log[..i][..n] == log[..n];
      assert (init + line)[..k] == init[..k];
    }
  }

  lemma PrefixRecords(log: seq<Entry>, n: nat)
    requires Records(log) && n <= |log|
    ensures Records(log[..n])
  {
    hide Serialize, Recordable, LineBytes;
    ShorterSerialize(log, n);
    forall k | 0 <= k < n ensures Recordable(log[..n][k]) { assert log[..n][k] == log[k]; }
  }

  lemma {:induction false} ShorterSerialize(log: seq<Entry>, n: nat)
    requires n <= |log|
    ensures |Serialize(log[..n])| <= |Serialize(log)|
    decreases |log|
  {
    hide *;
    if n == |log| {
      assert log[..n] == log;
    } else {
      var i := |log| - 1;
      SerializeLast(log);
      assert log[..i][..n] == log[..n];
      ShorterSerialize(log[..i], n);
    }
  }

  /** Any prefix a power loss may leave is some complete records and a torn rest. */
  lemma CutLayout(d: Disk, u: State, tail: bytes, k: nat) returns (n: nat, rest: bytes)
    requires Layout(d, u, tail) && d.durable <= k <= |d.content|
    ensures u.stable <= n <= |u.log|
    ensures d.content[..k] == Serialize(u.log[..n]) + rest && LF_BYTE !in rest
  {
    hide Records, Serialize;
    var whole := Serialize(u.log);
    if k >= |whole| {
      n, rest := |u.log|, tail[..k - |whole|];
      assert u.log[..n] == u.log;
    } else {
      n, rest := CutAtRecord(u.log, u.stable, k);
      assert d.content[..k] == whole[..k];
    }
  }

  lemma NothingHeld(s: Sys)
    requires s.lock.None? && s.procs == map[]
    ensures Exclusive(s) && Holder(s) == Idle && SectionOf(Idle) == Free
  {
  }

  lemma IdleTail(u: State, tail: bytes)
    requires tail == [] <==> !u.torn
    ensures TailSound(Idle, u, tail)
  {
    hide LineBytes, Valid, Fits;
  }

  /** After a power loss nobody holds the lock, so only the file has to agree. */
  lemma Settles(t: Sys, v: State, rest: bytes)
    requires t.lock.None? && t.procs == map[] && Layout(t.disk, v, rest) && (rest == [] <==> !v.torn)
    requires v.section == Free && t.acked == v.acked && t.epoch == v.epoch
    ensures Refines(t, v, rest)
  {
    hide *;
    NothingHeld(t);
    IdleTail(v, rest);
    Whole(t, v, rest, Idle);
  }

  lemma LossAbsent(s: Sys, u: State, tail: bytes, t: Sys) returns (v: State)
    requires Layout(s.disk, u, tail) && Inv(u) && !u.present && s.acked == u.acked && s.epoch == u.epoch
    requires t == s.(lock := None, procs := map[])
    ensures Next(u, Crash(0, false, false)) == Some(v) && Refines(t, v, [])
  {
    v := u.(section := Free);
    assert Next(u, Crash(0, false, false)) == Some(v);
    hide *;
    AbsentLayout(s.disk, u, tail, v);
    Settles(t, v, []);
  }

  lemma LossUnlinked(s: Sys, u: State, t: Sys) returns (v: State)
    requires u.present && !u.linked && s.acked == u.acked && s.epoch == u.epoch
    requires t == s.(lock := None, procs := map[], disk := Disk(false, [], 0, false), epoch := s.epoch + 1)
    ensures Next(u, Crash(0, false, false)) == Some(v) && Refines(t, v, [])
  {
    v := u.(present := false, log := [], torn := false, stable := 0, section := Free, epoch := u.epoch + 1);
    assert Next(u, Crash(0, false, false)) == Some(v);
    hide *;
    LostLayout(v);
    Settles(t, v, []);
  }

  lemma LossKept(s: Sys, u: State, tail: bytes, k: nat, keep: bool, t: Sys) returns (n: nat, v: State, rest: bytes)
    requires Layout(s.disk, u, tail) && s.disk.present && u.present && (u.linked || keep) && s.disk.durable <= k <= |s.disk.content|
    requires s.acked == u.acked && s.epoch == u.epoch
    requires t == s.(lock := None, procs := map[], disk := Disk(true, s.disk.content[..k], k, true))
    ensures Next(u, Crash(n, rest != [], keep)) == Some(v) && Refines(t, v, rest)
  {
    hide *;
    n, rest := CutLayout(s.disk, u, tail, k);
    v := u.(log := u.log[..n], torn := rest != [], stable := n, linked := true, section := Free);
    CrashMoves(u, n, rest != [], keep, v);
    KeptLayout(s.disk, u, tail, k, n, rest, v);
    Settles(t, v, rest);
  }

  lemma CrashMoves(u: State, n: nat, torn: bool, keep: bool, v: State)
    requires u.present && (u.linked || keep) && u.stable <= n <= |u.log|
    requires v == u.(log := u.log[..n], torn := torn, stable := n, linked := true, section := Free)
    ensures Next(u, Crash(n, torn, keep)) == Some(v)
  {
  }

  lemma SimulatePowerLoss(s: Sys, u: State, tail: bytes, k: nat, keep: bool) returns (ev: Option<Event>, v: State, rest: bytes)
    requires Refines(s, u, tail) && Inv(u) && AfterPowerLoss(s, k, keep).Some?
    ensures Moves(u, ev, v) && Refines(AfterPowerLoss(s, k, keep).value, v, rest) && NoChoice(ev)
  {
    hide Refines, Exclusive, Layout, Inv, TailSound, Holder, Next;
    Parts(s, u, tail);
    var t := AfterPowerLoss(s, k, keep).value;
    if !s.disk.present {
      v := LossAbsent(s, u, tail, t);
      ev, rest := Some(Crash(0, false, false)), [];
    } else if !s.disk.linked && !keep {
      v := LossUnlinked(s, u, t);
      ev, rest := Some(Crash(0, false, false)), [];
    } else {
      var n;
      n, v, rest := LossKept(s, u, tail, k, keep, t);
      ev := Some(Crash(n, rest != [], keep));
    }
  }

  lemma AbsentLayout(d: Disk, u: State, tail: bytes, v: State)
    requires Layout(d, u, tail) && Inv(u) && !u.present && v == u.(section := Free)
    ensures tail == [] && !v.torn && Layout(d, v, [])
  {
    hide Records, AckedSound, SectionSound;
    assert tail == [];
  }

  lemma LostLayout(v: State)
    requires !v.present && v.log == [] && v.stable == 0 && !v.linked
    ensures Layout(Disk(false, [], 0, false), v, [])
  {
    hide Recordable;
  }

  lemma KeptLayout(d: Disk, u: State, tail: bytes, k: nat, n: nat, rest: bytes, v: State)
    requires Layout(d, u, tail) && d.durable <= k <= |d.content| && n <= |u.log| && d.present
    requires d.content[..k] == Serialize(u.log[..n]) + rest && LF_BYTE !in rest
    requires v.log == u.log[..n] && v.stable == n && v.present && v.linked
    ensures Layout(Disk(true, d.content[..k], k, true), v, rest)
  {
    hide *;
    LayoutRecords(d, u, tail);
    PrefixRecords(u.log, n);
    CutDisk(d.content[..k], v, rest);
  }

  lemma CutDisk(content: bytes, v: State, rest: bytes)
    requires content == Serialize(v.log) + rest && LF_BYTE !in rest && Records(v.log)
    requires v.stable == |v.log| && v.present && v.linked
    ensures Layout(Disk(true, content, |content|, true), v, rest)
  {
    hide Records, Serialize;
    assert v.log[..v.stable] == v.log;
  }

  // ---- whole runs ---------------------------------------------------------------------------------

  lemma SimulateOutsideStep(s: Sys, u: State, tail: bytes, step: Step)
    requires Refines(s, u, tail) && Take(s, step).Some?
    requires step.Begin? || step.GiveUp? || (step.Kill? && s.lock != Some(step.p))
    ensures Refines(Take(s, step).value, u, tail)
  {
    assert Exclusive(s);
    assert Critical(PhaseOf(s, step.p)) <==> s.lock == Some(step.p);
    var ph := if step.Begin? then Waiting(step.req) else Idle;
    assert Take(s, step).value == SetPhase(s, step.p, ph);
    hide Refines, Exclusive, PhaseOf, Take;
    SimulateOutside(s, u, tail, step.p, ph);
  }

  /** Every byte-level step refines at most one step of the protocol. */
  lemma Simulate(s: Sys, u: State, tail: bytes, step: Step) returns (ev: Option<Event>, v: State, rest: bytes)
    requires Refines(s, u, tail) && Inv(u) && Take(s, step).Some?
    ensures Moves(u, ev, v) && Refines(Take(s, step).value, v, rest)
    ensures NoChoice(ev) || (step.Settle? && ev == Some(Choose(step.now, step.id)))
  {
    hide Refines, Inv, Moves, Exclusive, Settled, Written, FileSynced, DirSynced, AfterPowerLoss, Release, SetPhase, LineBytes;
    ev, v, rest := None, u, tail;
    match step
    case Begin(p, req) => SimulateOutsideStep(s, u, tail, step); Stays(u);
    case GiveUp(p) => SimulateOutsideStep(s, u, tail, step); Stays(u);
    case Acquire(p) => ev, v := SimulateAcquireStep(s, u, tail, p);
    case Settle(p, now, id) => ev, v := SimulateSettle(s, u, tail, p, now, id);
    case Write(p, n) => ev, v, rest := SimulateWrite(s, u, tail, p, n);
    case WriteFails(p) => ev, v := SimulateRelease(s, u, tail, p);
    case FileSync(p, ok) => ev, v := SimulateFileBarrier(s, u, tail, p, ok);
    case DirSync(p, how) => ev, v := SimulateDirBarrier(s, u, tail, p, how);
    case Kill(p) =>
      if s.lock == Some(p) {
        ev, v := SimulateKill(s, u, tail, p);
      } else {
        SimulateOutsideStep(s, u, tail, step);
        Stays(u);
      }
    case PowerLoss(k, keep) => ev, v, rest := SimulatePowerLoss(s, u, tail, k, keep);
  }

  lemma Stays(u: State)
    ensures Moves(u, None, u)
  {
  }

  lemma SimulateAcquireStep(s: Sys, u: State, tail: bytes, p: nat) returns (ev: Option<Event>, v: State)
    requires Refines(s, u, tail) && Take(s, Acquire(p)).Some?
    ensures Moves(u, ev, v) && Refines(Take(s, Acquire(p)).value, v, tail) && NoChoice(ev)
  {
    hide Refines, Moves, Exclusive, SetPhase;
    v := SimulateAcquire(s, u, tail, p);
    ev := Some(Enter(PhaseOf(s, p).req));
  }

  lemma SimulateWrite(s: Sys, u: State, tail: bytes, p: nat, n: nat) returns (ev: Option<Event>, v: State, rest: bytes)
    requires Refines(s, u, tail) && Inv(u) && PhaseOf(s, p).Writing?
    requires PhaseOf(s, p).done + n <= |LineBytes(PhaseOf(s, p).job.entry)|
    ensures Moves(u, ev, v) && Refines(Written(s, p, n), v, rest) && NoChoice(ev)
  {
    hide *;
    var line, done := LineBytes(PhaseOf(s, p).job.entry), PhaseOf(s, p).done;
    Stays(u);
    if done + n < |line| {
      SimulatePartial(s, u, tail, p, n);
      ev, v, rest := None, u, line[..done + n];
    } else {
      v := SimulateFull(s, u, tail, p, n);
      ev, rest := Some(Append), [];
    }
    Unchosen(ev);
  }

  lemma SimulateFileBarrier(s: Sys, u: State, tail: bytes, p: nat, ok: bool) returns (ev: Option<Event>, v: State)
    requires Refines(s, u, tail) && PhaseOf(s, p).Syncing?
    ensures Moves(u, ev, v) && Refines(FileSynced(s, p, ok), v, tail) && NoChoice(ev)
  {
    hide Refines, Moves, SetPhase, Release, Report;
    if ok {
      v := SimulateFileSync(s, u, tail, p);
      ev := Some(Sync);
    } else {
      ev, v := SimulateRelease(s, u, tail, p);
    }
  }

  lemma SimulateDirBarrier(s: Sys, u: State, tail: bytes, p: nat, how: Barrier) returns (ev: Option<Event>, v: State)
    requires Refines(s, u, tail) && PhaseOf(s, p).Linking?
    ensures Moves(u, ev, v) && Refines(DirSynced(s, p, how), v, tail) && NoChoice(ev)
  {
    hide Refines, Moves, SetPhase, Release, Report;
    if !how.Broken? {
      v := SimulateDirSync(s, u, tail, p, how);
      ev := Some(Link(how.Passed?));
    } else {
      ev, v := SimulateRelease(s, u, tail, p);
    }
  }

  lemma SimulateKill(s: Sys, u: State, tail: bytes, p: nat) returns (ev: Option<Event>, v: State)
    requires Refines(s, u, tail) && s.lock == Some(p)
    ensures Moves(u, ev, v) && Refines(Release(s, p), v, tail) && NoChoice(ev)
  {
    assert Critical(PhaseOf(s, p)) <==> s.lock == Some(p);
    hide Refines, Moves, Release;
    ev, v := SimulateRelease(s, u, tail, p);
  }

  lemma MovesKeep(u: State, ev: Option<Event>, v: State)
    requires Inv(u) && Moves(u, ev, v)
    ensures Inv(v) && Run(u, if ev.None? then [] else [ev.value]) == Some(v)
  {
    hide Inv, Decide;
    if ev.Some? {
      StepKeeps(u, ev.value);
      hide Next;
      assert Run(v, []) == Some(v);
      assert [ev.value][1..] == [];
    }
  }

  lemma {:induction false} RunAppend(u: State, a: seq<Event>, b: seq<Event>)
    requires Run(u, a).Some?
    ensures Run(u, a + b) == Run(Run(u, a).value, b)
    decreases |a|
  {
    hide Next;
    if a == [] {
      assert a + b == b;
    } else {
      assert (a + b)[1..] == a[1..] + b;
      RunAppend(Next(u, a[0]).value, a[1..], b);
    }
  }

  /** Every run over bytes is a run of the protocol: same successes, same records where it reads. */
  lemma {:induction false} SimulateAll(s: Sys, u: State, tail: bytes, steps: seq<Step>)
    returns (evs: seq<Event>, v: State, rest: bytes)
    requires Refines(s, u, tail) && Inv(u) && TakeAll(s, steps).Some?
    ensures Run(u, evs) == Some(v) && Inv(v) && Refines(TakeAll(s, steps).value, v, rest)
    decreases |steps|
  {
    hide Refines, Inv, Take, Next, Moves;
    if steps == [] {
      evs, v, rest := [], u, tail;
    } else {
      var ev, w, more := Simulate(s, u, tail, steps[0]);
      MovesKeep(u, ev, w);
      var first := if ev.None? then [] else [ev.value];
      evs, v, rest := SimulateAll(Take(s, steps[0]).value, w, more, steps[1..]);
      hide Run;
      RunAppend(u, first, evs);
      evs := first + evs;
    }
  }

  lemma StartRefines()
    ensures Refines(START, INITIAL, [])
  {
    hide Recordable;
  }
}
