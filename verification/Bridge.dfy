/**
 Replay protection of the Actions bridge: the table of claimed request ids, and many handlers that
 claim, call upstream, then settle or release, interleaved in any order and killed at any point.
 */
module Bridge {
  import opened Prelude

  const STALE_CLAIM_SECONDS := 120.0
  const RETENTION_SECONDS := 86400.0

  datatype Key = Key(operation: string, scope: string, requestId: string)

  datatype Row = Row(digest: string, task: Option<string>, claimedAt: real, settledAt: Option<real>)

  type Table = map<Key, Row>

  /** What a claim answers: the work is the caller's, it was done before, or it may not be done now. */
  datatype Claimed = Fresh | Replay(task: Option<string>) | Conflict | InFlight

  // ---- the transactions --------------------------------------------------------------------------

  function ClaimAnswer(rows: Table, key: Key, digest: string, now: real): Claimed {
    if key !in rows then Fresh
    else
      var row := rows[key];
      if row.digest != digest then Conflict
      else if row.settledAt.Some? then Replay(row.task)
      else if now - row.claimedAt < STALE_CLAIM_SECONDS then InFlight
      else Fresh
  }

  /** Only a fresh claim writes: it leaves an unsettled row of this digest, dated by this claim. */
  function AfterClaim(rows: Table, key: Key, digest: string, now: real): Table {
    if ClaimAnswer(rows, key, digest, now).Fresh? then rows[key := Row(digest, None, now, None)] else rows
  }

  function AfterSettle(rows: Table, key: Key, task: Option<string>, now: real): Table {
    if key in rows then rows[key := rows[key].(task := task, settledAt := Some(now))] else rows
  }

  function AfterPrune(rows: Table, now: real): Table {
    map key | key in rows && !(rows[key].claimedAt < now - RETENTION_SECONDS) :: rows[key]
  }

  function AfterRelease(rows: Table, key: Key): Table {
    if key in rows && rows[key].settledAt.None? then rows - {key} else rows
  }

  /** Unsettled rows carry no task; a takeover therefore leaves the same row a first claim would. */
  predicate Sound(rows: Table) {
    forall key :: key in rows && rows[key].settledAt.None? ==> rows[key].task.None?
  }

  /** Every row but this key's is as it was. */
  ghost predicate OthersKept(before: Table, after: Table, key: Key) {
    forall k :: k != key ==> (k in after <==> k in before) && (k in after ==> after[k] == before[k])
  }

  /** Every settled row is as it was. */
  predicate SettledKept(before: Table, after: Table) {
    forall k :: k in before && before[k].settledAt.Some? ==> k in after && after[k] == before[k]
  }

  class IdempotencyStore {
    var rows: Table

    constructor ()
      ensures rows == map[]
    {
      rows := map[];
    }

    /** `now` was read before the store's lock was taken. */
    method Claim(key: Key, digest: string, now: real) returns (r: Claimed)
      requires Sound(rows)
      modifies this
      ensures r == ClaimAnswer(old(rows), key, digest, now)
      ensures rows == AfterClaim(old(rows), key, digest, now) && Sound(rows)
      // Only a fresh claim changes anything: its own row, which was missing, or stale and of its digest.
      ensures OthersKept(old(rows), rows, key) && SettledKept(old(rows), rows)
      ensures !r.Fresh? ==> rows == old(rows)
      // Another digest conflicts, a settled row replays its task, and a claim less than two minutes old is in flight.
      ensures r == Conflict <==> key in old(rows) && old(rows)[key].digest != digest
      ensures key in old(rows) && old(rows)[key].digest == digest && old(rows)[key].settledAt.Some? ==>
        r == Replay(old(rows)[key].task)
      ensures key in old(rows) && old(rows)[key].digest == digest && old(rows)[key].settledAt.None? ==>
        r == if now < old(rows)[key].claimedAt + 120.0 then InFlight else Fresh
      ensures key !in old(rows) ==> r == Fresh
      ensures r.Fresh? ==> key in rows && rows[key] == Row(digest, None, now, None)
      ensures r.Fresh? && key in old(rows) ==>
        old(rows)[key].digest == digest && old(rows)[key].claimedAt + STALE_CLAIM_SECONDS <= now
    {
      if key in rows {
        var row := rows[key];
        if row.digest != digest {
          return Conflict;
        }
        if row.settledAt.Some? {
          return Replay(row.task);
        }
        if now - row.claimedAt < STALE_CLAIM_SECONDS {
          return InFlight;
        }
        rows := rows[key := row.(claimedAt := now)];
        return Fresh;
      }
      rows := rows[key := Row(digest, None, now, None)];
      r := Fresh;
    }

    method Settle(key: Key, task: Option<string>, now: real)
      requires Sound(rows)
      modifies this
      ensures rows == AfterPrune(AfterSettle(old(rows), key, task, now), now) && Sound(rows)
      // A row goes exactly when its claim is past retention; of the rest only this key's changes, and it keeps its claim.
      ensures forall k :: k in rows <==> k in old(rows) && now - RETENTION_SECONDS <= old(rows)[k].claimedAt
      ensures forall k :: k in rows && k != key ==> rows[k] == old(rows)[k]
      ensures key in rows ==> rows[key] == Row(old(rows)[key].digest, task, old(rows)[key].claimedAt, Some(now))
    {
      if key in rows {
        rows := rows[key := rows[key].(task := task, settledAt := Some(now))];
      }
      rows := map k | k in rows && !(rows[k].claimedAt < now - RETENTION_SECONDS) :: rows[k];
    }

    method Release(key: Key)
      requires Sound(rows)
      modifies this
      ensures rows == AfterRelease(old(rows), key) && Sound(rows)
      // Whatever the key, no settled row and no other row is touched; an unsettled one is free to be claimed again.
      ensures OthersKept(old(rows), rows, key) && SettledKept(old(rows), rows)
      ensures key in rows ==> rows[key].settledAt.Some?
      ensures forall digest, at :: key !in rows ==> ClaimAnswer(rows, key, digest, at).Fresh?
    {
      if key in rows && rows[key].settledAt.None? {
        rows := rows - {key};
      }
    }
  }

  // ---- handlers -------------------------------------------------------------------------------------

  /** Where one handler is; `since` is the clock reading of its claim. */
  datatype Handler =
    | Claiming(key: Key, digest: string, since: real)
    | Holding(key: Key, digest: string, since: real)
    | Calling(key: Key, digest: string, since: real)
    | Settling(key: Key, digest: string, since: real, task: Option<string>, now: real)
    | Pruning(key: Key, digest: string, since: real, now: real)

  /** What the outside sees: mutations sent upstream, and answers to claims. */
  datatype Effect = Mutation(key: Key) | Answer(key: Key, digest: string, claimed: Claimed)

  datatype World = World(clock: real, rows: Table, handlers: map<nat, Handler>, seen: seq<Effect>)

  datatype Step =
    | Tick(to: real)
    | Arrive(h: nat, key: Key, digest: string)
    | Claim(h: nat)
    | Call(h: nat)
    | Succeed(h: nat, task: Option<string>)
    | Settle(h: nat)
    | Prune(h: nat)
    | Fail(h: nat)
    | Vanish(h: nat)
    | Crash

  function Move(w: World, h: nat, to: Handler): World { w.(handlers := w.handlers[h := to]) }

  function Gone(w: World, h: nat): World { w.(handlers := w.handlers - {h}) }

  function Claims(w: World, h: nat): World
    requires h in w.handlers && w.handlers[h].Claiming?
  {
    var c := w.handlers[h];
    var a := ClaimAnswer(w.rows, c.key, c.digest, c.since);
    var v := w.(rows := AfterClaim(w.rows, c.key, c.digest, c.since), seen := w.seen + [Answer(c.key, c.digest, a)]);
    if a.Fresh? then Move(v, h, Holding(c.key, c.digest, c.since)) else Gone(v, h)
  }

  /** One atomic step: of the clock, which may go back, of one handler, or a crash of the bridge. */
  function Take(w: World, step: Step): Option<World> {
    match step
    case Tick(to) => Some(w.(clock := to))
    case Arrive(h, key, digest) => if h in w.handlers then None else Some(Move(w, h, Claiming(key, digest, w.clock)))
    case Crash => Some(w.(handlers := map[]))
    case Claim(h) => if h in w.handlers && w.handlers[h].Claiming? then Some(Claims(w, h)) else None
    case Call(h) =>
      if h in w.handlers && w.handlers[h].Holding? then
        var c := w.handlers[h];
        Some(Move(w, h, Calling(c.key, c.digest, c.since)).(seen := w.seen + [Mutation(c.key)]))
      else None
    case Succeed(h, task) =>
      if h in w.handlers && w.handlers[h].Calling? then
        var c := w.handlers[h];
        Some(Move(w, h, Settling(c.key, c.digest, c.since, task, w.clock)))
      else None
    case Settle(h) =>
      if h in w.handlers && w.handlers[h].Settling? then
        var c := w.handlers[h];
        Some(Move(w, h, Pruning(c.key, c.digest, c.since, c.now)).(rows := AfterSettle(w.rows, c.key, c.task, c.now)))
      else None
    case Prune(h) =>
      if h in w.handlers && w.handlers[h].Pruning? then
        Some(Gone(w, h).(rows := AfterPrune(w.rows, w.handlers[h].now)))
      else None
    case Fail(h) =>
      if h in w.handlers && (w.handlers[h].Holding? || w.handlers[h].Calling?) then
        Some(Gone(w, h).(rows := AfterRelease(w.rows, w.handlers[h].key)))
      else None
    case Vanish(h) => if h in w.handlers then Some(Gone(w, h)) else None
  }

  /** The state after all of these steps, if each of them can be taken. */
  function Path(w: World, steps: seq<Step>): Option<World>
    decreases |steps|
  {
    if steps == [] then Some(w)
    else
      var v := Take(w, steps[0]);
      if v.None? then None else Path(v.value, steps[1..])
  }

  const EMPTY := World(0.0, map[], map[], [])

  // ---- mutual exclusion, exactly -------------------------------------------------------------------------

  /** A handler between its fresh claim and the transaction that settles or releases it. */
  predicate Owns(c: Handler) { c.Holding? || c.Calling? || c.Settling? }

  /** The row of an owner's key is its own: unsettled, of its digest, dated by its claim. */
  predicate OwnRow(rows: Table, c: Handler) {
    c.key in rows && rows[c.key] == Row(c.digest, None, c.since, None)
  }

  ghost predicate Exclusive(w: World) {
    forall h, j ::
      h in w.handlers && j in w.handlers && Owns(w.handlers[h]) && Owns(w.handlers[j])
      && w.handlers[h].key == w.handlers[j].key ==>
      h == j
  }

  ghost predicate Owned(w: World) {
    forall h :: h in w.handlers && Owns(w.handlers[h]) ==> OwnRow(w.rows, w.handlers[h])
  }

  /** At most one live owner a request id, and its row is its own. */
  ghost predicate Guarded(w: World) { Sound(w.rows) && Exclusive(w) && Owned(w) }

  /** `h` claims the request id of a live owner of the same digest whose claim has gone stale for it. */
  predicate TakesOver(w: World, h: nat, j: nat) {
    && h in w.handlers && j in w.handlers && w.handlers[h].Claiming? && Owns(w.handlers[j])
    && w.handlers[h].key == w.handlers[j].key && w.handlers[h].digest == w.handlers[j].digest
    && w.handlers[j].since + STALE_CLAIM_SECONDS <= w.handlers[h].since
  }

  /** `h` prunes rows so old that the claim of a live owner is among them. */
  predicate Outlives(w: World, h: nat, j: nat) {
    && h in w.handlers && j in w.handlers && w.handlers[h].Pruning? && Owns(w.handlers[j])
    && w.handlers[j].since < w.handlers[h].now - RETENTION_SECONDS
  }

  /** A step that comes too late for some live owner. */
  ghost predicate Late(w: World, step: Step) {
    || (step.Claim? && exists j :: TakesOver(w, step.h, j))
    || (step.Prune? && exists j :: Outlives(w, step.h, j))
  }

  /** A claim keeps the owners exclusive exactly when it takes over from no live one. */
  lemma ClaimExact(w: World, h: nat)
    requires Guarded(w) && h in w.handlers && w.handlers[h].Claiming?
    ensures Exclusive(Claims(w, h)) <==> !exists j :: TakesOver(w, h, j)
    ensures Exclusive(Claims(w, h)) ==> Guarded(Claims(w, h))
  {
    var c, v := w.handlers[h], Claims(w, h);
    forall j | j in w.handlers && Owns(w.handlers[j]) && w.handlers[j].key == c.key
      ensures ClaimAnswer(w.rows, c.key, c.digest, c.since).Fresh? <==> TakesOver(w, h, j)
    {
      assert OwnRow(w.rows, w.handlers[j]);
    }
    if j :| TakesOver(w, h, j) {
      assert h in v.handlers && j in v.handlers && h != j;
      assert Owns(v.handlers[h]) && Owns(v.handlers[j]) && v.handlers[h].key == v.handlers[j].key;
    }
  }

  lemma SettleExact(w: World, h: nat)
    requires Guarded(w) && h in w.handlers && w.handlers[h].Settling?
    ensures Guarded(Take(w, Settle(h)).value)
  {
    forall j | j in w.handlers && Owns(w.handlers[j]) && j != h ensures w.handlers[j].key != w.handlers[h].key {
    }
  }

  lemma FailExact(w: World, h: nat)
    requires Guarded(w) && h in w.handlers && (w.handlers[h].Holding? || w.handlers[h].Calling?)
    ensures Guarded(Take(w, Fail(h)).value)
  {
    forall j | j in w.handlers && Owns(w.handlers[j]) && j != h ensures w.handlers[j].key != w.handlers[h].key {
    }
  }

  /** A prune leaves every live owner its row exactly when none has outlived the retention. */
  lemma PruneExact(w: World, h: nat)
    requires Guarded(w) && h in w.handlers && w.handlers[h].Pruning?
    ensures Guarded(Take(w, Prune(h)).value) <==> !exists j :: Outlives(w, h, j)
  {
    var v := Take(w, Prune(h)).value;
    forall j | j in w.handlers && Owns(w.handlers[j])
      ensures j in v.handlers && (OwnRow(v.rows, v.handlers[j]) <==> !Outlives(w, h, j))
    {
      assert OwnRow(w.rows, w.handlers[j]);
    }
    if j :| Outlives(w, h, j) {
      assert !OwnRow(v.rows, v.handlers[j]);
    }
  }

  /** One step, with no premise about time: the guard survives it exactly when the step is not late. */
  lemma StepExact(w: World, step: Step)
    requires Guarded(w) && Take(w, step).Some?
    ensures Guarded(Take(w, step).value) <==> !Late(w, step)
  {
    match step
    case Claim(h) => ClaimExact(w, h);
    case Settle(h) => SettleExact(w, h);
    case Fail(h) => FailExact(w, h);
    case Prune(h) => PruneExact(w, h);
    case Tick(_) =>
    case Arrive(h, _, _) =>
    case Call(h) =>
    case Succeed(h, _) =>
    case Vanish(h) =>
    case Crash =>
  }

  /** The guard holds in every state of the path. */
  ghost predicate AlwaysGuarded(w: World, steps: seq<Step>)
    decreases |steps|
  {
    Guarded(w) && (steps == [] || (Take(w, steps[0]).Some? ==> AlwaysGuarded(Take(w, steps[0]).value, steps[1..])))
  }

  /** No step of the path comes too late for a live owner. */
  ghost predicate Prompt(w: World, steps: seq<Step>)
    decreases |steps|
  {
    steps == [] || (!Late(w, steps[0]) && (Take(w, steps[0]).Some? ==> Prompt(Take(w, steps[0]).value, steps[1..])))
  }

  lemma {:induction false} GuardedIffPrompt(w: World, steps: seq<Step>)
    requires Guarded(w) && Path(w, steps).Some?
    ensures AlwaysGuarded(w, steps) <==> Prompt(w, steps)
    ensures Prompt(w, steps) ==> Guarded(Path(w, steps).value)
    decreases |steps|
  {
    hide Guarded, Late, Take;
    if steps != [] {
      var v := Take(w, steps[0]).value;
      StepExact(w, steps[0]);
      if Guarded(v) {
        GuardedIffPrompt(v, steps[1..]);
      } else {
        NotAlways(v, steps[1..]);
      }
    }
  }

  lemma NotAlways(w: World, steps: seq<Step>)
    requires !Guarded(w)
    ensures !AlwaysGuarded(w, steps)
  {
    hide Guarded, Take;
  }

  lemma EmptyGuarded()
    ensures Guarded(EMPTY) && Dated(EMPTY)
  {
  }

  /**
   Mutual exclusion, exactly. Over every run, of any handlers, clocks and crashes: each request id has
   at most one live owner, with the row its own in digest and date, in every state of the run if and
   only if no claim takes over from a live owner and no prune reaches the claim of one.
   */
  lemma MutualExclusionIff(steps: seq<Step>)
    requires Path(EMPTY, steps).Some?
    ensures AlwaysGuarded(EMPTY, steps) <==> Prompt(EMPTY, steps)
  {
    EmptyGuarded();
    GuardedIffPrompt(EMPTY, steps);
  }

  // ---- the premise about time ---------------------------------------------------------------------------

  /** No handler lives on for as long as a claim takes to go stale. */
  ghost predicate Timely(w: World) {
    forall h :: h in w.handlers ==> w.clock < w.handlers[h].since + STALE_CLAIM_SECONDS
  }

  ghost predicate AlwaysTimely(w: World, steps: seq<Step>)
    decreases |steps|
  {
    Timely(w) && (steps == [] || (Take(w, steps[0]).Some? ==> AlwaysTimely(Take(w, steps[0]).value, steps[1..])))
  }

  /** The clock does not go back along the path. */
  predicate Onward(w: World, steps: seq<Step>)
    decreases |steps|
  {
    steps == [] || (Take(w, steps[0]).Some? ==>
      w.clock <= Take(w, steps[0]).value.clock && Onward(Take(w, steps[0]).value, steps[1..]))
  }

  /** No reading a handler has taken is ahead of the clock. */
  ghost predicate Dated(w: World) {
    && (forall h :: h in w.handlers ==> w.handlers[h].since <= w.clock)
    && (forall h :: h in w.handlers && (w.handlers[h].Settling? || w.handlers[h].Pruning?) ==> w.handlers[h].now <= w.clock)
  }

  lemma DatedStep(w: World, step: Step)
    requires Dated(w) && Take(w, step).Some? && w.clock <= Take(w, step).value.clock
    ensures Dated(Take(w, step).value)
  {
    hide ClaimAnswer, AfterClaim, AfterSettle, AfterPrune, AfterRelease;
  }

  lemma TimelyNotLate(w: World, step: Step)
    requires Dated(w) && Timely(w)
    ensures !Late(w, step)
  {
  }

  /** When the clock does not go back and never reaches the end of a live handler's freshness, no step is late. */
  lemma {:induction false} TimelyIsPrompt(w: World, steps: seq<Step>)
    requires Dated(w) && Onward(w, steps) && AlwaysTimely(w, steps) && Path(w, steps).Some?
    ensures Prompt(w, steps)
    decreases |steps|
  {
    hide Dated, Timely, Late, Take;
    if steps != [] {
      TimelyNotLate(w, steps[0]);
      DatedStep(w, steps[0]);
      TimelyIsPrompt(Take(w, steps[0]).value, steps[1..]);
    }
  }

  /**
   Mutual exclusion in timely runs: with a clock that does not go back and no handler outliving a
   claim's freshness, of two live handlers with a fresh claim on one request id both are one, and
   the row is its own in digest and date.
   */
  lemma MutualExclusion(steps: seq<Step>, h: nat, j: nat)
    requires Path(EMPTY, steps).Some? && Onward(EMPTY, steps) && AlwaysTimely(EMPTY, steps)
    requires var w := Path(EMPTY, steps).value;
      && h in w.handlers && j in w.handlers && Owns(w.handlers[h]) && Owns(w.handlers[j])
      && w.handlers[h].key == w.handlers[j].key
    ensures var w := Path(EMPTY, steps).value;
      h == j && OwnRow(w.rows, w.handlers[h])
  {
    EmptyGuarded();
    TimelyIsPrompt(EMPTY, steps);
    GuardedIffPrompt(EMPTY, steps);
    hide Path, OwnRow;
  }

  // ---- releasing or settling what is not one's own --------------------------------------------------------

  /** If this handler's call failed now, its release would drop a row that is not its own. */
  predicate ForeignFail(w: World, j: nat) {
    && Take(w, Fail(j)).Some?
    && w.handlers[j].key in w.rows && w.handlers[j].key !in Take(w, Fail(j)).value.rows
    && !OwnRow(w.rows, w.handlers[j])
  }

  /** If this handler settled now, it would write its task into a row that is not its own. */
  predicate ForeignSettle(w: World, j: nat) {
    Take(w, Settle(j)).Some? && w.handlers[j].key in w.rows && !OwnRow(w.rows, w.handlers[j])
  }

  lemma GuardedNoForeign(w: World)
    requires Guarded(w)
    ensures forall j :: !ForeignFail(w, j) && !ForeignSettle(w, j)
  {
    forall j ensures !ForeignFail(w, j) && !ForeignSettle(w, j) {
      if j >= 0 && j in w.handlers && Owns(w.handlers[j]) { assert OwnRow(w.rows, w.handlers[j]); }
    }
  }

  /** After a prune each owner has its own row or none. */
  lemma PruneNoForeign(w: World, h: nat)
    requires Guarded(w) && h in w.handlers && w.handlers[h].Pruning?
    ensures forall j :: !ForeignFail(Take(w, Prune(h)).value, j) && !ForeignSettle(Take(w, Prune(h)).value, j)
  {
    var v := Take(w, Prune(h)).value;
    forall j ensures !ForeignFail(v, j) && !ForeignSettle(v, j) {
      if j >= 0 && j in v.handlers && Owns(v.handlers[j]) { assert OwnRow(w.rows, w.handlers[j]); }
    }
  }

  /** A takeover from an owner that may still fail puts the new claim at that owner's mercy. */
  lemma TakeoverForeign(w: World, h: nat)
    requires Guarded(w) && h in w.handlers && w.handlers[h].Claiming?
    ensures (exists j :: ForeignFail(Claims(w, h), j)) <==> exists j :: TakesOver(w, h, j) && !w.handlers[j].Settling?
  {
    var c, v := w.handlers[h], Claims(w, h);
    forall j | j in w.handlers && Owns(w.handlers[j])
      ensures OwnRow(w.rows, w.handlers[j]) && j != h && j in v.handlers && v.handlers[j] == w.handlers[j]
    {
    }
    if j :| TakesOver(w, h, j) && !w.handlers[j].Settling? {
      assert OwnRow(w.rows, w.handlers[j]);
      assert v.rows[c.key] == Row(c.digest, None, c.since, None);
      assert ForeignFail(v, j);
    }
    if j :| ForeignFail(v, j) {
      assert j != h ==> j in w.handlers && Owns(w.handlers[j]) && OwnRow(w.rows, w.handlers[j]);
      assert TakesOver(w, h, j);
    }
  }

  /** A takeover from an owner whose call has returned puts the new claim's row under that owner's settle. */
  lemma TakeoverSettled(w: World, h: nat)
    requires Guarded(w) && h in w.handlers && w.handlers[h].Claiming?
    ensures (exists j :: ForeignSettle(Claims(w, h), j)) <==> exists j :: TakesOver(w, h, j) && w.handlers[j].Settling?
  {
    var c, v := w.handlers[h], Claims(w, h);
    forall j | j in w.handlers && Owns(w.handlers[j])
      ensures OwnRow(w.rows, w.handlers[j]) && j != h && j in v.handlers && v.handlers[j] == w.handlers[j]
    {
    }
    if j :| TakesOver(w, h, j) && w.handlers[j].Settling? {
      assert OwnRow(w.rows, w.handlers[j]);
      assert v.rows[c.key] == Row(c.digest, None, c.since, None);
      assert ForeignSettle(v, j);
    }
    if j :| ForeignSettle(v, j) {
      assert j in w.handlers && Owns(w.handlers[j]) && OwnRow(w.rows, w.handlers[j]);
      assert TakesOver(w, h, j);
    }
  }

  /**
   From a guarded state, a step makes it possible that a failure drops another's row exactly when
   it is a claim that takes over from a live owner still before its settle.
   */
  lemma ForeignFailIff(w: World, step: Step)
    requires Guarded(w) && Take(w, step).Some?
    ensures (exists j :: ForeignFail(Take(w, step).value, j)) <==>
      step.Claim? && exists j :: TakesOver(w, step.h, j) && !w.handlers[j].Settling?
  {
    StepExact(w, step);
    if step.Claim? {
      TakeoverForeign(w, step.h);
    } else if step.Prune? {
      PruneNoForeign(w, step.h);
    } else {
      hide Guarded, Take, ForeignFail, ForeignSettle, TakesOver, Outlives;
      GuardedNoForeign(Take(w, step).value);
    }
  }

  /**
   The same along runs: as long as no step was late nobody can drop another's row, and the next step
   makes it possible exactly when it takes over from a live owner still before its settle.
   */
  lemma FirstForeignFail(steps: seq<Step>, step: Step)
    requires Path(EMPTY, steps).Some? && Prompt(EMPTY, steps) && Take(Path(EMPTY, steps).value, step).Some?
    ensures var w := Path(EMPTY, steps).value;
      && (forall j :: !ForeignFail(w, j))
      && ((exists j :: ForeignFail(Take(w, step).value, j)) <==>
            step.Claim? && exists j :: TakesOver(w, step.h, j) && !w.handlers[j].Settling?)
  {
    hide Take, Path, Prompt, Guarded, TakesOver, ForeignFail, ForeignSettle;
    EmptyGuarded();
    GuardedIffPrompt(EMPTY, steps);
    GuardedNoForeign(Path(EMPTY, steps).value);
    ForeignFailIff(Path(EMPTY, steps).value, step);
  }

  /**
   And it makes it possible that a settle writes into another's row exactly when it is a claim that
   takes over from a live owner whose call has returned.
   */
  lemma ForeignSettleIff(w: World, step: Step)
    requires Guarded(w) && Take(w, step).Some?
    ensures (exists j :: ForeignSettle(Take(w, step).value, j)) <==>
      step.Claim? && exists j :: TakesOver(w, step.h, j) && w.handlers[j].Settling?
  {
    StepExact(w, step);
    if step.Claim? {
      TakeoverSettled(w, step.h);
    } else if step.Prune? {
      PruneNoForeign(w, step.h);
    } else {
      hide Guarded, Take, ForeignFail, ForeignSettle, TakesOver, Outlives;
      GuardedNoForeign(Take(w, step).value);
    }
  }

  /** The same of settles along runs: none can write into another's row before the first late step. */
  lemma FirstForeignSettle(steps: seq<Step>, step: Step)
    requires Path(EMPTY, steps).Some? && Prompt(EMPTY, steps) && Take(Path(EMPTY, steps).value, step).Some?
    ensures var w := Path(EMPTY, steps).value;
      && (forall j :: !ForeignSettle(w, j))
      && ((exists j :: ForeignSettle(Take(w, step).value, j)) <==>
            step.Claim? && exists j :: TakesOver(w, step.h, j) && w.handlers[j].Settling?)
  {
    hide Take, Path, Prompt, Guarded, TakesOver, ForeignFail, ForeignSettle;
    EmptyGuarded();
    GuardedIffPrompt(EMPTY, steps);
    GuardedNoForeign(Path(EMPTY, steps).value);
    ForeignSettleIff(Path(EMPTY, steps).value, step);
  }

  // ---- settled means settled ---------------------------------------------------------------------------

  predicate SettledRow(w: World, key: Key, row: Row) { key in w.rows && w.rows[key] == row && row.settledAt.Some? }

  /** What may still be seen of a settled key: replays of its task, conflicts, and no mutation. */
  predicate Quiet(e: Effect, key: Key, row: Row) {
    match e
    case Mutation(k) => k != key
    case Answer(k, digest, claimed) =>
      k == key ==> claimed == if digest == row.digest then Replay(row.task) else Conflict
  }

  predicate AllQuiet(more: seq<Effect>, key: Key, row: Row) {
    forall k :: 0 <= k < |more| ==> Quiet(more[k], key, row)
  }

  /** A live owner's key is not settled. */
  lemma OwnerUnsettled(w: World, h: nat, key: Key, row: Row)
    requires Guarded(w) && h in w.handlers && Owns(w.handlers[h]) && SettledRow(w, key, row)
    ensures w.handlers[h].key != key
  {
    assert OwnRow(w.rows, w.handlers[h]);
  }

  /** The step is a prune by a handler for whose reading the row is past its retention. */
  predicate Forgets(w: World, step: Step, row: Row) {
    step.Prune? && step.h in w.handlers && w.handlers[step.h].Pruning?
    && row.claimedAt < w.handlers[step.h].now - RETENTION_SECONDS
  }

  /** A settled row stays as it is through every step but a prune past its retention, which removes it. */
  lemma SettledStays(w: World, step: Step, key: Key, row: Row)
    requires Guarded(w) && Take(w, step).Some? && SettledRow(w, key, row)
    ensures SettledRow(Take(w, step).value, key, row) <==> !Forgets(w, step, row)
    ensures Forgets(w, step, row) ==> key !in Take(w, step).value.rows
  {
    match step
    case Settle(h) => OwnerUnsettled(w, h, key, row);
    case Fail(h) =>
    case Claim(h) =>
    case Prune(h) =>
    case Tick(_) =>
    case Arrive(h, _, _) =>
    case Call(h) =>
    case Succeed(h, _) =>
    case Vanish(h) =>
    case Crash =>
  }

  lemma SettledQuiet(w: World, step: Step, key: Key, row: Row) returns (more: seq<Effect>)
    requires Guarded(w) && Take(w, step).Some? && SettledRow(w, key, row)
    ensures Take(w, step).value.seen == w.seen + more && AllQuiet(more, key, row)
  {
    if step.Claim? {
      var c := w.handlers[step.h];
      more := [Answer(c.key, c.digest, ClaimAnswer(w.rows, c.key, c.digest, c.since))];
    } else if step.Call? {
      OwnerUnsettled(w, step.h, key, row);
      more := [Mutation(w.handlers[step.h].key)];
    } else {
      more := [];
      assert w.seen + more == w.seen;
    }
  }

  /** The first `n` steps of a path, and what they lead to. */
  function Reached(w: World, steps: seq<Step>, n: nat): Option<World>
    requires n <= |steps|
  {
    Path(w, steps[..n])
  }

  lemma ReachedNext(w: World, steps: seq<Step>, n: nat)
    requires steps != [] && n <= |steps| - 1 && Take(w, steps[0]).Some?
    ensures Reached(w, steps, n + 1) == Reached(Take(w, steps[0]).value, steps[1..], n)
  {
    hide Take;
    assert steps[..n + 1][0] == steps[0] && steps[..n + 1][1..] == steps[1..][..n];
  }

  /**
   Settled means settled: through every prompt run, the row stays as it is, every claim of its digest
   replays its task, every claim of another digest conflicts, and no mutation is sent upstream for its
   request id, up to the end of the run or to a prune for whose reading the row is past its retention.
   */
  lemma {:induction false} SettledMeansSettled(w: World, steps: seq<Step>, key: Key, row: Row)
    returns (n: nat, more: seq<Effect>)
    requires Guarded(w) && SettledRow(w, key, row) && Path(w, steps).Some? && Prompt(w, steps)
    ensures n <= |steps| && Reached(w, steps, n).Some?
    ensures var v := Reached(w, steps, n).value;
      && SettledRow(v, key, row) && v.seen == w.seen + more && AllQuiet(more, key, row)
      && (n == |steps| || Forgets(v, steps[n], row))
    decreases |steps|
  {
    hide Guarded, Take, Late, SettledRow, Quiet, Forgets;
    if steps == [] || Forgets(w, steps[0], row) {
      n, more := 0, [];
      assert steps[..0] == [] && w.seen + more == w.seen;
    } else {
      var v := Take(w, steps[0]).value;
      StepExact(w, steps[0]);
      SettledStays(w, steps[0], key, row);
      var first := SettledQuiet(w, steps[0], key, row);
      var m, rest := SettledMeansSettled(v, steps[1..], key, row);
      ReachedNext(w, steps, m);
      n, more := m + 1, first + rest;
      hide Path;
      assert w.seen + (first + rest) == w.seen + first + rest;
    }
  }

  lemma {:induction false} DatedPath(w: World, steps: seq<Step>, n: nat)
    requires Dated(w) && Onward(w, steps) && Path(w, steps).Some? && n <= |steps|
    ensures Reached(w, steps, n).Some?
    ensures Dated(Reached(w, steps, n).value) && Reached(w, steps, n).value.clock <= Path(w, steps).value.clock
    decreases |steps|
  {
    hide Dated, Take;
    if n == 0 {
      assert steps[..0] == [];
      if steps != [] {
        DatedStep(w, steps[0]);
        DatedPath(Take(w, steps[0]).value, steps[1..], 0);
        assert steps[1..][..0] == [];
      }
    } else {
      DatedStep(w, steps[0]);
      DatedPath(Take(w, steps[0]).value, steps[1..], n - 1);
      ReachedNext(w, steps, n - 1);
    }
  }

  /** With a clock that does not go back, nothing can prune the row within the retention of its claim. */
  lemma SettledWithinRetention(w: World, steps: seq<Step>, key: Key, row: Row) returns (more: seq<Effect>)
    requires Guarded(w) && SettledRow(w, key, row) && Path(w, steps).Some? && Prompt(w, steps)
    requires Dated(w) && Onward(w, steps)
    requires Path(w, steps).value.clock <= row.claimedAt + RETENTION_SECONDS
    ensures var v := Path(w, steps).value;
      SettledRow(v, key, row) && v.seen == w.seen + more && AllQuiet(more, key, row)
  {
    hide Guarded, SettledRow, AllQuiet, Take, Prompt, Path, Onward;
    var n;
    n, more := SettledMeansSettled(w, steps, key, row);
    DatedPath(w, steps, n);
    assert steps[..|steps|] == steps;
  }

  /** On their own, with no premise at all, a claim and a release of any key leave every settled row as it is. */
  lemma ClaimAndReleaseKeepSettled(rows: Table, key: Key, digest: string, now: real, other: Key)
    requires other in rows && rows[other].settledAt.Some?
    ensures var c, r := AfterClaim(rows, key, digest, now), AfterRelease(rows, key);
      other in c && c[other] == rows[other] && other in r && r[other] == rows[other]
    ensures other == key ==>
      ClaimAnswer(rows, key, digest, now) == if digest == rows[key].digest then Replay(rows[key].task) else Conflict
  {
    if other == key { assert !ClaimAnswer(rows, key, digest, now).Fresh?; }
  }

  /** A handler that settles does so on its own row, with its own digest, date and task. */
  lemma SettlesOwnRow(w: World, h: nat)
    requires Guarded(w) && h in w.handlers && w.handlers[h].Settling?
    ensures var c := w.handlers[h];
      SettledRow(Take(w, Settle(h)).value, c.key, Row(c.digest, c.task, c.since, Some(c.now)))
  {
    assert OwnRow(w.rows, w.handlers[h]);
  }

  // ---- late runs ----------------------------------------------------------------------------------------

  const ID := Key("submitChoiceAnswer", "task:t", "request-1")

  /** A handler is still calling upstream when its claim goes stale and another takes it over. */
  const LATE: seq<Step> := [Arrive(0, ID, "d"), Claim(0), Call(0), Tick(120.0), Arrive(1, ID, "d"), Claim(1)]

  /** The first handler is calling upstream when two minutes have gone. */
  const HALFWAY := World(120.0, map[ID := Row("d", None, 0.0, None)], map[0 := Calling(ID, "d", 0.0)],
    [Answer(ID, "d", Fresh), Mutation(ID)])

  /** The second handler has taken the claim over while the first still calls. */
  const TAKEN_OVER := World(120.0, map[ID := Row("d", None, 120.0, None)],
    map[0 := Calling(ID, "d", 0.0), 1 := Holding(ID, "d", 120.0)],
    [Answer(ID, "d", Fresh), Mutation(ID), Answer(ID, "d", Fresh)])

  /** The first handler has failed: the second's claim is gone, and both have sent the mutation. */
  const DROPPED := World(120.0, map[], map[1 := Calling(ID, "d", 120.0)],
    [Answer(ID, "d", Fresh), Mutation(ID), Answer(ID, "d", Fresh), Mutation(ID)])

  /** The second handler has settled its claim with its own task, and both have sent the mutation. */
  const SETTLED := World(120.0, map[ID := Row("d", Some("second"), 120.0, Some(120.0))],
    map[0 := Calling(ID, "d", 0.0), 1 := Pruning(ID, "d", 120.0, 120.0)],
    [Answer(ID, "d", Fresh), Mutation(ID), Answer(ID, "d", Fresh), Mutation(ID)])

  /** The first handler has settled too: the row that was settled now has the first one's task. */
  const OVERWRITTEN := World(120.0, map[ID := Row("d", Some("first"), 120.0, Some(120.0))],
    map[0 := Pruning(ID, "d", 0.0, 120.0), 1 := Pruning(ID, "d", 120.0, 120.0)], SETTLED.seen)

  /**
   Neither settle nor release names the claimant: once the first handler is late, two handlers send
   the mutation, and the failure of the first removes the claim of the second.
   */
  lemma LateHandlersClash()
    ensures Path(EMPTY, LATE + [Call(1), Fail(0)]) == Some(DROPPED)
  {
    hide Take;
    var more := [Call(1), Fail(0)];
    LateTakeover(more);
    LateThird();
  }

  /** Or the second settles, and the settle of the first replaces the task of the settled row. */
  lemma LateSettleOverwrites()
    ensures Path(EMPTY, LATE + [Call(1), Succeed(1, Some("second")), Settle(1)]) == Some(SETTLED)
    ensures Path(SETTLED, [Succeed(0, Some("first")), Settle(0)]) == Some(OVERWRITTEN)
  {
    hide Take;
    LateTakeover([Call(1), Succeed(1, Some("second")), Settle(1)]);
    SecondSettles();
    FirstOverwrites();
  }

  lemma SecondSettles()
    ensures Path(TAKEN_OVER, [Call(1), Succeed(1, Some("second")), Settle(1)]) == Some(SETTLED)
  {
    var more := [Call(1), Succeed(1, Some("second")), Settle(1)];
    var w1 := LateStep(TAKEN_OVER, more, 0);
    var w2 := LateStep(w1, more, 1);
    var w3 := LateStep(w2, more, 2);
    assert more[0..] == more && more[3..] == [] && w3 == SETTLED;
  }

  lemma FirstOverwrites()
    ensures Path(SETTLED, [Succeed(0, Some("first")), Settle(0)]) == Some(OVERWRITTEN)
  {
    var more := [Succeed(0, Some("first")), Settle(0)];
    var w1 := LateStep(SETTLED, more, 0);
    var w2 := LateStep(w1, more, 1);
    assert more[0..] == more && more[2..] == [] && w2 == OVERWRITTEN;
  }

  lemma LateThird()
    ensures Path(TAKEN_OVER, [Call(1), Fail(0)]) == Some(DROPPED)
  {
    var more := [Call(1), Fail(0)];
    var w1 := LateStep(TAKEN_OVER, more, 0);
    var w2 := LateStep(w1, more, 1);
    assert more[0..] == more && more[2..] == [] && w2 == DROPPED;
  }

  /** Whatever comes after it, the takeover leads to the same state. */
  lemma LateTakeover(more: seq<Step>)
    ensures Path(EMPTY, LATE + more) == Path(TAKEN_OVER, more)
  {
    hide Take, Path;
    LateFirst(more);
    LateSecond(more);
    assert (LATE + more)[6..] == more;
  }

  lemma LateSecond(more: seq<Step>)
    ensures Path(HALFWAY, (LATE + more)[4..]) == Path(TAKEN_OVER, (LATE + more)[6..])
  {
    hide Path;
    var w5 := LateStep(HALFWAY, LATE + more, 4);
    var w6 := LateStep(w5, LATE + more, 5);
    assert w6 == TAKEN_OVER;
  }

  lemma LateFirst(more: seq<Step>)
    ensures Path(EMPTY, LATE + more) == Path(HALFWAY, (LATE + more)[4..])
  {
    hide Path;
    var w1 := LateStep(EMPTY, LATE + more, 0);
    var w2 := LateStep(w1, LATE + more, 1);
    var w3 := LateStep(w2, LATE + more, 2);
    var w4 := LateStep(w3, LATE + more, 3);
    assert (LATE + more)[0..] == LATE + more;
    assert w4 == HALFWAY;
  }

  /** Two requests arrive on either side of a clock that goes back, and the later reading claims last. */
  const ROLLBACK: seq<Step> :=
    [Tick(200.0), Arrive(1, ID, "d"), Tick(50.0), Arrive(0, ID, "d"), Claim(0), Claim(1)]

  /** Both handlers hold a fresh claim. */
  const TWO_OWNERS := World(50.0, map[ID := Row("d", None, 200.0, None)],
    map[0 := Holding(ID, "d", 50.0), 1 := Holding(ID, "d", 200.0)], [Answer(ID, "d", Fresh), Answer(ID, "d", Fresh)])

  /** The premise about the clock is needed: a timely run whose clock goes back once gives a request id two owners. */
  lemma RollbackClashes()
    ensures Path(EMPTY, ROLLBACK) == Some(TWO_OWNERS) && AlwaysTimely(EMPTY, ROLLBACK) && !Exclusive(TWO_OWNERS)
  {
    hide Path, AlwaysTimely;
    var w := RollbackFirst();
    RollbackSecond(w);
    assert Owns(TWO_OWNERS.handlers[0]) && Owns(TWO_OWNERS.handlers[1]);
  }

  lemma RollbackFirst() returns (w: World)
    ensures w == World(50.0, map[], map[0 := Claiming(ID, "d", 50.0), 1 := Claiming(ID, "d", 200.0)], [])
    ensures Path(EMPTY, ROLLBACK) == Path(w, ROLLBACK[4..])
    ensures AlwaysTimely(w, ROLLBACK[4..]) ==> AlwaysTimely(EMPTY, ROLLBACK)
  {
    hide Path, AlwaysTimely;
    var w1 := TimelyStep(EMPTY, ROLLBACK, 0);
    var w2 := TimelyStep(w1, ROLLBACK, 1);
    var w3 := TimelyStep(w2, ROLLBACK, 2);
    w := TimelyStep(w3, ROLLBACK, 3);
    assert ROLLBACK[0..] == ROLLBACK;
  }

  lemma RollbackSecond(w: World)
    requires w == World(50.0, map[], map[0 := Claiming(ID, "d", 50.0), 1 := Claiming(ID, "d", 200.0)], [])
    ensures Path(w, ROLLBACK[4..]) == Some(TWO_OWNERS) && AlwaysTimely(w, ROLLBACK[4..])
  {
    var w5 := TimelyStep(w, ROLLBACK, 4);
    var w6 := TimelyStep(w5, ROLLBACK, 5);
    assert ROLLBACK[6..] == [] && w6 == TWO_OWNERS;
  }

  lemma TimelyStep(w: World, steps: seq<Step>, k: nat) returns (v: World)
    requires k < |steps| && Take(w, steps[k]).Some? && Timely(w)
    ensures v == Take(w, steps[k]).value && Path(w, steps[k..]) == Path(v, steps[k + 1..])
    ensures AlwaysTimely(v, steps[k + 1..]) ==> AlwaysTimely(w, steps[k..])
  {
    hide Timely, Take;
    v := LateStep(w, steps, k);
    assert steps[k..][0] == steps[k] && steps[k..][1..] == steps[k + 1..];
  }

  lemma LateStep(w: World, steps: seq<Step>, k: nat) returns (v: World)
    requires k < |steps| && Take(w, steps[k]).Some?
    ensures v == Take(w, steps[k]).value && Path(w, steps[k..]) == Path(v, steps[k + 1..])
  {
    v := Take(w, steps[k]).value;
    assert steps[k..][0] == steps[k] && steps[k..][1..] == steps[k + 1..];
  }
}
