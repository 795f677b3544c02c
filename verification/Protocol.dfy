/**
 The approval protocol over an abstract sequence of records: one critical section at a time
 reads, decides, appends and passes its durability barriers, and a power loss may come between
 any two of those steps. Single use and survival are proved here, over every run.
 */
module Protocol {
  import opened Prelude
  import opened Entries
  import opened Folding
  import Ledger

  /** A consumer and a lookup carry the clock reading taken before the lock; a mint reads it inside. */
  datatype Request =
    | Consume(bound: string, root: string, now: int)
    | Mint(bound: string, root: string, path: string, risk: string)
    | Lookup(bound: string, root: string, now: int)

  function GrantOf(v: View): Entry {
    Approval(v.id, v.bound, v.root, v.path, v.risk, v.created, v.expires)
  }

  /** What a holder of the lock decides to append, with the approval it rests on. */
  function Decide(es: seq<Entry>, req: Request, now: int, id: string): Option<(Entry, Entry)> {
    match req
    case Lookup(_, _, _) => None
    case Consume(bound, root, t) =>
      var active := Fold(es, root, t);
      if active.Failure? || bound !in active.value then None
      else
        var view := active.value[bound];
        var e := Consumption(view.id, view.bound, t);
        if view.created <= t < view.expires && Valid(e) then Some((e, GrantOf(view))) else None
    case Mint(bound, root, path, risk) =>
      var active := Fold(es, root, now);
      if active.Failure? || bound in active.value || Issued(es, id) then None
      else
        var e := Approval(id, bound, root, path, risk, now, now + TTL_SECONDS);
        if Valid(e) then Some((e, e)) else None
  }

  datatype Job = Job(entry: Entry, grant: Entry, created: bool)

  datatype Section = Free | Held(req: Request) | Pending(job: Job) | Unsynced(job: Job) | Unlinked(job: Job)

  /** A success reported to a caller; anchored when the ledger's directory entry was durable by then. */
  datatype Ack = Ack(entry: Entry, grant: Entry, epoch: nat, anchored: bool)

  datatype State = State(
    present: bool,
    log: seq<Entry>,
    torn: bool,
    stable: nat,
    linked: bool,
    section: Section,
    acked: seq<Ack>,
    epoch: nat)

  datatype Event =
    | Enter(req: Request)
    | Leave
    | Choose(now: int, id: string)
    | Append
    | Tear
    | Sync
    | Link(synced: bool)
    | Crash(n: nat, torn: bool, keep: bool)

  const INITIAL := State(false, [], false, 0, false, Free, [], 0)

  function Read(u: State): Option<seq<Entry>> {
    if u.torn || |u.log| > Ledger.MAX_ENTRIES then None else Some(u.log)
  }

  function Acknowledge(u: State, job: Job): State {
    u.(section := Free, acked := u.acked + [Ack(job.entry, job.grant, u.epoch, u.linked)])
  }

  function Next(u: State, ev: Event): Option<State> {
    match ev
    case Enter(req) => if u.section.Free? then Some(u.(section := Held(req))) else None
    case Leave => Some(u.(section := Free))
    case Choose(now, id) =>
      if !u.section.Held? || Read(u).None? then None
      else
        var d := Decide(Read(u).value, u.section.req, now, id);
        if d.None? then None
        else Some(u.(present := true, section := Pending(Job(d.value.0, d.value.1, !u.present))))
    case Append =>
      if u.section.Pending? then Some(u.(log := u.log + [u.section.job.entry], section := Unsynced(u.section.job)))
      else None
    case Tear => if u.section.Pending? then Some(u.(torn := true, section := Free)) else None
    case Sync =>
      if !u.section.Unsynced? then None
      else
        var v := u.(stable := |u.log|);
        Some(if u.section.job.created then v.(section := Unlinked(u.section.job)) else Acknowledge(v, u.section.job))
    case Link(synced) =>
      // A directory that cannot be opened gets no barrier, and the append succeeds all the same.
      if u.section.Unlinked? then Some(Acknowledge(u.(linked := u.linked || synced), u.section.job)) else None
    case Crash(n, torn, keep) =>
      if !u.present then Some(u.(section := Free))
      else if !u.linked && !keep then
        Some(u.(present := false, log := [], torn := false, stable := 0, section := Free, epoch := u.epoch + 1))
      else if u.stable <= n <= |u.log| then
        Some(u.(log := u.log[..n], torn := torn, stable := n, linked := true, section := Free))
      else None
  }

  function Run(u: State, evs: seq<Event>): Option<State>
    decreases |evs|
  {
    if evs == [] then Some(u)
    else
      var v := Next(u, evs[0]);
      if v.None? then None else Run(v.value, evs[1..])
  }

  // ---- what a decision rests on ----------------------------------------------------------

  /** A consumption names its approval and binding, at a time inside the half-open lifetime. */
  predicate Covers(grant: Entry, e: Entry) {
    e.Consumption? ==>
      grant.Approval? && grant.id == e.id && grant.bound == e.bound && grant.created <= e.consumed < grant.expires
  }

  predicate Grounded(es: seq<Entry>, e: Entry, grant: Entry) {
    Covers(grant, e) && (e.Consumption? ==> grant in es)
  }

  lemma DecideGrounded(es: seq<Entry>, req: Request, now: int, id: string)
    requires Decide(es, req, now, id).Some?
    ensures var (e, grant) := Decide(es, req, now, id).value;
      Grounded(es, e, grant) && (e.Consumption? ==> !Spent(es, e.id)) && Valid(e)
  {
    if req.Consume? {
      var m := Fold(es, req.root, req.now).value;
      hide Valid;
      assert m == ActiveMap(es, req.root, req.now);
      var a :| a in es && Live(es, a, req.root, req.now) && a.bound == req.bound && ViewOf(a) == m[req.bound];
      assert GrantOf(ViewOf(a)) == a;
    }
  }

  // ---- the invariant -----------------------------------------------------------------------

  predicate Kept(u: State, a: Ack)
    requires u.stable <= |u.log|
  {
    a.entry in u.log[..u.stable] && (a.entry.Consumption? ==> a.grant in u.log[..u.stable])
  }

  /** Successes of this epoch are durable, and no two of them consume one approval. */
  predicate AckedSound(u: State)
    requires u.stable <= |u.log|
  {
    && (forall k :: 0 <= k < |u.acked| ==> u.acked[k].epoch <= u.epoch)
    && (forall k :: 0 <= k < |u.acked| && u.acked[k].epoch == u.epoch ==> Kept(u, u.acked[k]))
    && (forall k :: 0 <= k < |u.acked| && u.acked[k].anchored ==> u.acked[k].epoch == u.epoch && u.linked)
    && (forall k :: 0 <= k < |u.acked| ==> Covers(u.acked[k].grant, u.acked[k].entry))
    && (forall i, j :: 0 <= i < j < |u.acked| && u.acked[i].epoch == u.acked[j].epoch
          && u.acked[i].entry.Consumption? && u.acked[j].entry.Consumption?
          ==> u.acked[i].entry.id != u.acked[j].entry.id)
  }

  /** The record a section is about to acknowledge: on the end of the log, and nobody's success yet. */
  predicate Latest(u: State, job: Job) {
    && u.present && |u.log| > 0 && u.log[|u.log| - 1] == job.entry
    && var before := u.log[..|u.log| - 1];
       && Grounded(before, job.entry, job.grant)
       && (job.entry.Consumption? ==> !Spent(before, job.entry.id))
       && (forall k :: 0 <= k < |u.acked| && u.acked[k].epoch == u.epoch ==> u.acked[k].entry in before)
  }

  predicate SectionSound(u: State) {
    match u.section
    case Free => true
    case Held(_) => true
    case Pending(job) =>
      u.present && Grounded(u.log, job.entry, job.grant) && (job.entry.Consumption? ==> !Spent(u.log, job.entry.id))
    case Unsynced(job) => Latest(u, job)
    case Unlinked(job) => Latest(u, job) && u.stable == |u.log|
  }

  predicate Inv(u: State) {
    && u.stable <= |u.log|
    && (!u.present ==> u.log == [] && !u.linked && !u.torn)
    && AckedSound(u)
    && SectionSound(u)
  }

  // ---- every step keeps it -------------------------------------------------------------------

  lemma ChooseKeeps(u: State, now: int, id: string)
    requires Inv(u) && Next(u, Choose(now, id)).Some?
    ensures Inv(Next(u, Choose(now, id)).value)
  {
    DecideGrounded(Read(u).value, u.section.req, now, id);
    hide Decide, Spent, Covers, Valid;
  }

  lemma AppendKeeps(u: State)
    requires Inv(u) && Next(u, Append).Some?
    ensures Inv(Next(u, Append).value)
  {
    hide Spent, Covers;
    var v := Next(u, Append).value;
    assert v.log[..|v.log| - 1] == u.log;
    assert v.log[..v.stable] == u.log[..u.stable];
    assert forall e :: e in u.log[..u.stable] ==> e in u.log;
  }

  /** Acknowledging the latest record, once all of the log is durable. */
  lemma AcknowledgeKeeps(u: State, job: Job)
    requires u.present && u.stable == |u.log| && AckedSound(u) && Latest(u, job)
    ensures Inv(Acknowledge(u, job))
  {
    hide Covers;
    var v := Acknowledge(u, job);
    var last := |u.acked|;
    var before := u.log[..|u.log| - 1];
    assert u.log[..u.stable] == u.log;
    assert forall e :: e in before ==> e in u.log;
    assert job.entry in u.log;
    forall i | 0 <= i < last && v.acked[i].epoch == u.epoch && v.acked[i].entry.Consumption? && job.entry.Consumption?
      ensures v.acked[i].entry.id != job.entry.id
    {
      assert u.acked[i].entry in before;
    }
  }

  lemma SyncKeeps(u: State)
    requires Inv(u) && Next(u, Sync).Some?
    ensures Inv(Next(u, Sync).value)
  {
    hide Spent, Covers, Grounded;
    var v := u.(stable := |u.log|);
    assert u.log[..|u.log|] == u.log;
    assert forall e :: e in u.log[..u.stable] ==> e in u.log;
    assert AckedSound(v);
    if !u.section.job.created {
      AcknowledgeKeeps(v, u.section.job);
    }
  }

  lemma LinkKeeps(u: State, synced: bool)
    requires Inv(u) && Next(u, Link(synced)).Some?
    ensures Inv(Next(u, Link(synced)).value)
  {
    hide Spent, Covers, Grounded;
    AcknowledgeKeeps(u.(linked := u.linked || synced), u.section.job);
  }

  lemma CrashKeeps(u: State, n: nat, torn: bool, keep: bool)
    requires Inv(u) && Next(u, Crash(n, torn, keep)).Some?
    ensures Inv(Next(u, Crash(n, torn, keep)).value)
  {
    hide Spent, Covers, Grounded;
    if u.present && u.stable <= n <= |u.log| {
      var kept := u.log[..n];
      assert kept[..n] == kept;
      assert kept[..u.stable] == u.log[..u.stable];
      assert forall e :: e in kept[..u.stable] ==> e in kept;
    }
  }

  lemma StepKeeps(u: State, ev: Event)
    requires Inv(u) && Next(u, ev).Some?
    ensures Inv(Next(u, ev).value)
  {
    match ev
    case Enter(_) => hide Grounded, Covers, Kept;
    case Leave => hide Grounded, Covers, Kept;
    case Tear => hide Grounded, Covers, Kept;
    case Choose(now, id) => ChooseKeeps(u, now, id);
    case Append => AppendKeeps(u);
    case Sync => SyncKeeps(u);
    case Link(synced) => LinkKeeps(u, synced);
    case Crash(n, torn, keep) => CrashKeeps(u, n, torn, keep);
  }

  lemma {:induction false} RunKeeps(u: State, evs: seq<Event>)
    requires Inv(u) && Run(u, evs).Some?
    ensures Inv(Run(u, evs).value)
    decreases |evs|
  {
    hide Inv, Next;
    if evs != [] {
      StepKeeps(u, evs[0]);
      RunKeeps(Next(u, evs[0]).value, evs[1..]);
    }
  }

  lemma InitialInv()
    ensures Inv(INITIAL)
  {
  }

  // ---- the theorems -----------------------------------------------------------------------------

  /** Over every run, an approval is consumed with success at most once while its ledger lives. */
  lemma SingleUse(evs: seq<Event>, i: nat, j: nat)
    requires Run(INITIAL, evs).Some?
    requires var a := Run(INITIAL, evs).value.acked;
      i < j < |a| && a[i].epoch == a[j].epoch && a[i].entry.Consumption? && a[j].entry.Consumption?
    ensures var a := Run(INITIAL, evs).value.acked; a[i].entry.id != a[j].entry.id
    ensures var a := Run(INITIAL, evs).value.acked; Covers(a[i].grant, a[i].entry) && Covers(a[j].grant, a[j].entry)
  {
    InitialInv();
    RunKeeps(INITIAL, evs);
    hide Run, Covers, SectionSound, Kept;
  }

  lemma {:induction false} AckedGrows(u: State, evs: seq<Event>)
    requires Run(u, evs).Some?
    ensures u.acked <= Run(u, evs).value.acked
    decreases |evs|
  {
    if evs != [] {
      AckedGrows(Next(u, evs[0]).value, evs[1..]);
      hide Decide, Read;
    }
  }

  /** An anchored success stays in the durable part of the log through every later run. */
  lemma AnchoredSurvives(u: State, evs: seq<Event>, k: nat)
    requires Inv(u) && Run(u, evs).Some? && k < |u.acked| && u.acked[k].anchored
    ensures var v := Run(u, evs).value;
      k < |v.acked| && v.acked[k] == u.acked[k] && v.stable <= |v.log| && Kept(v, u.acked[k])
  {
    AckedGrows(u, evs);
    RunKeeps(u, evs);
    hide Run, SectionSound, Kept, Covers;
  }
}
