/**
 The approval store as the program runs it: one ledger file on disk, read whole and appended to
 under the lock, with every answer of the operating system given by an outcome.
 */
module Store {
  import opened Prelude
  import opened Entries
  import opened Folding
  import opened Ledger
  import opened Protocol
  import opened LedgerRuns
  import Utf8

  const READ_CHUNK := 65536

  /** What one `os.write` call answers; no answer left means the process died in the call. */
  datatype WriteAnswer = Interrupted | Accepted(n: int) | WriteError

  datatype Transfer = Complete | ZeroWrite | OsFailure | Died

  /** How many bytes a loop over partial writes gets onto the file, and how it ends. */
  function Moved(left: nat, answers: seq<WriteAnswer>): (r: (nat, Transfer))
    ensures r.0 <= left && (r.1 == Complete <==> r.0 == left)
    decreases |answers|
  {
    if left == 0 then (0, Complete)
    else if answers == [] then (0, Died)
    else
      match answers[0]
      case Interrupted => Moved(left, answers[1..])
      case WriteError => (0, OsFailure)
      case Accepted(n) =>
        if n <= 0 then (0, ZeroWrite)
        else
          var m := if n < left then n else left;
          var rest := Moved(left - m, answers[1..]);
          Ahead(m, rest)
  }

  /** A transfer that starts after `k` bytes have gone. */
  function Ahead(k: nat, rest: (nat, Transfer)): (nat, Transfer) { (k + rest.0, rest.1) }

  /** An answer after which the loop goes on. */
  predicate Progress(a: WriteAnswer) { a.Interrupted? || (a.Accepted? && a.n > 0) }

  /** How many bytes these answers offer to take. */
  function Offered(answers: seq<WriteAnswer>): nat {
    if answers == [] then 0
    else (if answers[0].Accepted? && answers[0].n > 0 then answers[0].n else 0) + Offered(answers[1..])
  }

  /**
   With `k` answers of progress before the first that is none: everything is written exactly when they
   offer enough, and otherwise what they offer, with the ending that the next answer gives.
   */
  lemma {:induction false} MovedExact(left: nat, answers: seq<WriteAnswer>, k: nat)
    requires k <= |answers| && (forall i :: 0 <= i < k ==> Progress(answers[i]))
    requires k < |answers| ==> !Progress(answers[k])
    ensures Moved(left, answers) ==
      if left <= Offered(answers[..k]) then (left, Complete)
      else (Offered(answers[..k]),
            if k == |answers| then Died else if answers[k].WriteError? then OsFailure else ZeroWrite)
    decreases |answers|
  {
    if left > 0 && k > 0 {
      var n := if answers[0].Accepted? then answers[0].n else 0;
      assert answers[..k][1..] == answers[1..][..k - 1];
      MovedExact(if n < left then left - n else 0, answers[1..], k - 1);
    }
  }

  datatype LockAnswer = Granted | TimedOut | LockError

  /** Opening the ledger for an append, and the checks on the open descriptor: an OS error, or a refusal. */
  datatype OpenAnswer = Opened | NotOpened | OpenedOnly | Unfit

  datatype SyncAnswer = Synced | SyncFailed | DiedInSync

  /** The directory barrier: if the directory cannot be opened it is left out without an error. */
  datatype DirAnswer = Unopened | Asked(sync: SyncAnswer)

  /** What the system answers in one call of the store, from the lock to the directory barrier. */
  datatype Env = Env(
    lock: LockAnswer,
    read: bool,
    open: OpenAnswer,
    writes: seq<WriteAnswer>,
    fileSync: SyncAnswer,
    dirSync: DirAnswer)

  datatype Appending = Appended | Refused | TornRefusal | TornError | Indeterminate | Crashed

  /** The disk and the answer after `_append` of a record, stated outright. */
  function AfterAppend(d: Disk, e: Entry, env: Env): (Disk, Appending) {
    var line := LineBytes(e);
    if !Valid(e) || |line| > MAX_LINE_BYTES then (d, Refused)
    else if env.open.NotOpened? then (d, TornError)
    else if env.open.OpenedOnly? then (d.(present := true), TornError)
    else if env.open.Unfit? then (d.(present := true), Refused)
    else if |d.content| + |line| > MAX_LEDGER_BYTES then (d.(present := true), Refused)
    else
      var (k, how) := Moved(|line|, env.writes);
      var t := d.(present := true, content := d.content + line[..k]);
      match how
      case ZeroWrite => (t, TornRefusal)
      case OsFailure => (t, TornError)
      case Died => (t, Crashed)
      case Complete => AfterBarriers(t, !d.present, env)
  }

  /** The durability barriers, once every byte of the record is in the file. */
  function AfterBarriers(t: Disk, created: bool, env: Env): (Disk, Appending) {
    match env.fileSync
    case SyncFailed => (t, Indeterminate)
    case DiedInSync => (t, Crashed)
    case Synced =>
      var f := t.(durable := |t.content|);
      if !created then (f, Appended)
      else
        match env.dirSync
        case Unopened => (f, Appended)
        case Asked(SyncFailed) => (f, Indeterminate)
        case Asked(DiedInSync) => (f, Crashed)
        case Asked(Synced) => (f.(linked := true), Appended)
  }

  /** How a consume or a mint ends: `Unavailable` is an ApprovalError, `Failed` any other exception. */
  datatype Outcome =
    | Recorded(view: View)
    | Absent
    | Duplicate(existing: View)
    | Changed
    | Unavailable
    | Failed
    | Uncertain
    | Dead

  function OutcomeOf(how: Appending, view: View): Outcome {
    match how
    case Appended => Recorded(view)
    case Refused => Unavailable
    case TornRefusal => Unavailable
    case TornError => Failed
    case Indeterminate => Uncertain
    case Crashed => Dead
  }

  /** The records of the ledger and their fold, or how the call ends without them. */
  function Folded(d: Disk, root: string, now: int, env: Env): Result<map<string, View>, Outcome> {
    if !env.lock.Granted? then Failure(if env.lock.TimedOut? then Unavailable else Failed)
    else if !env.read then Failure(Failed)
    else
      var es := ReadDisk(d);
      if es.Failure? then Failure(Unavailable)
      else
        var active := Fold(es.value, root, now);
        if active.Failure? then Failure(Unavailable) else Success(active.value)
  }

  /** `_consume_approval`, with the clock read before the lock was asked for. */
  function AfterConsume(d: Disk, bound: string, root: string, now: int, env: Env): (Disk, Outcome) {
    if !d.present then (d, Absent)
    else
      var active := Folded(d, root, now, env);
      if active.Failure? then (d, active.error)
      else if bound !in active.value then (d, Absent)
      else
        var view := active.value[bound];
        var after := AfterAppend(d, Consumption(view.id, view.bound, now), env);
        (after.0, OutcomeOf(after.1, view.(state := Consumed)))
  }

  /** What the mint rebuilds under the lock: the binding, its repository, and the fields it records. */
  datatype Artifact = Artifact(bound: string, root: string, path: string, risk: string)

  function Minted(art: Artifact, now: int, id: string): Entry {
    Approval(id, art.bound, art.root, art.path, art.risk, now, now + TTL_SECONDS)
  }

  /** `_mint`, with the clock read inside the lock; no artifact means that rebuilding it raised. */
  function AfterMint(d: Disk, expected: string, rebuilt: Option<Artifact>, now: int, token: Option<string>, env: Env)
    : (Disk, Outcome)
  {
    if !env.lock.Granted? then (d, if env.lock.TimedOut? then Unavailable else Failed)
    else if rebuilt.None? then (d, Failed)
    else if rebuilt.value.bound != expected then (d, Changed)
    else
      var art := rebuilt.value;
      var active := Folded(d, art.root, now, env);
      if active.Failure? then (d, active.error)
      else if expected in active.value then (d, Duplicate(active.value[expected]))
      else if token.None? || |token.value| != 64 || Issued(ReadDisk(d).value, token.value) then (d, Unavailable)
      else
        var e := Minted(art, now, token.value);
        var after := AfterAppend(d, e, env);
        (after.0, OutcomeOf(after.1, ViewOf(e)))
  }

  class ApprovalStore {
    var disk: Disk
    var locked: bool

    constructor (d: Disk)
      ensures disk == d && !locked
    {
      disk := d;
      locked := false;
    }

    // -- reading

    method ReadBounded() returns (r: Result<bytes, Fault>)
      ensures r == if |disk.content| > MAX_LEDGER_BYTES then Failure(Oversize) else Success(disk.content)
    {
      var data: bytes, total := [], 0;
      while total < |disk.content|
        invariant total <= |disk.content| && data == disk.content[..total] && total <= MAX_LEDGER_BYTES
      {
        var left := |disk.content| - total;
        var n := if left < READ_CHUNK then left else READ_CHUNK;
        var chunk := disk.content[total..total + n];
        total := total + n;
        if total > MAX_LEDGER_BYTES {
          return Failure(Oversize);
        }
        data := data + chunk;
      }
      assert disk.content[..total] == disk.content;
      r := Success(data);
    }

    method ParseEntries(lines: seq<string>) returns (r: Result<seq<Entry>, Fault>)
      ensures r == ParseLines(lines)
    {
      hide ParsedSoFar, ParseLines, ParseEntryLine, Utf8.Encode;
      var entries: seq<Entry> := [];
      NoneParsed(lines);
      for i := 0 to |lines|
        invariant ParsedSoFar(lines, i, entries)
      {
        if |Utf8.Encode(lines[i] + "\n")| > MAX_LINE_BYTES {
          LineFails(lines, i, entries);
          return Failure(LongLine);
        }
        var e := ParseEntryLine(lines[i]);
        if e.None? {
          LineFails(lines, i, entries);
          return Failure(BadRecord);
        }
        LineParsed(lines, i, entries);
        entries := entries + [e.value];
      }
      AllParsed(lines, entries);
      r := Success(entries);
    }

    method ParseLedgerBytes(data: bytes) returns (r: Result<seq<Entry>, Fault>)
      ensures r == ParseBytes(data)
    {
      if data == [] {
        return Success([]);
      }
      if data[|data| - 1] != LF_BYTE {
        return Failure(TornTail);
      }
      var text := Utf8.Decode(data);
      if text.None? {
        return Failure(NotUtf8);
      }
      DecodedNotEmpty(data);
      var lines := Split(text.value[..|text.value| - 1], '\n');
      if |lines| > MAX_ENTRIES {
        return Failure(TooManyEntries);
      }
      r := ParseEntries(lines);
    }

    /** The whole ledger, parsed strictly; a missing one holds nothing. */
    method ReadEntries() returns (r: Result<seq<Entry>, Fault>)
      requires locked
      ensures r == ReadDisk(disk)
    {
      if !disk.present {
        return Success([]);
      }
      var data := ReadBounded();
      if data.Failure? {
        return Failure(data.error);
      }
      r := ParseLedgerBytes(data.value);
    }

    // -- appending

    /** Write all of the bytes over partial and interrupted writes; a zero-byte write fails. */
    method WriteAll(data: bytes, answers: seq<WriteAnswer>) returns (how: Transfer)
      requires locked
      modifies this`disk
      ensures how == Moved(|data|, answers).1
      ensures disk == old(disk).(content := old(disk.content) + data[..Moved(|data|, answers).0])
    {
      var total: nat, i: nat := 0, 0;
      assert old(disk.content) + data[..0] == old(disk.content);
      assert answers[0..] == answers;
      while total < |data|
        invariant total <= |data| && i <= |answers|
        invariant disk == old(disk).(content := old(disk.content) + data[..total])
        invariant Moved(|data|, answers) == Ahead(total, Moved(|data| - total, answers[i..]))
        decreases |answers| - i
      {
        if i == |answers| {
          return Died;
        }
        var a := answers[i];
        assert answers[i..][0] == a && answers[i..][1..] == answers[i + 1..];
        i := i + 1;
        if a.WriteError? {
          return OsFailure;
        } else if a.Accepted? {
          if a.n <= 0 {
            return ZeroWrite;
          }
          var m := if a.n < |data| - total then a.n else |data| - total;
          Spliced(old(disk.content), data, total, m);
          disk := disk.(content := disk.content + data[total..total + m]);
          total := total + m;
        }
      }
      how := Complete;
    }

    /** One validated record onto the end of the ledger, then its durability barriers. */
    method Append(e: Entry, env: Env) returns (r: Appending)
      requires locked
      modifies this`disk
      ensures (disk, r) == AfterAppend(old(disk), e, env)
    {
      hide Valid, LineBytes, Moved;
      if !Valid(e) {
        return Refused;
      }
      var line := LineBytes(e);
      if |line| > MAX_LINE_BYTES {
        return Refused;
      }
      if env.open.NotOpened? {
        return TornError;
      }
      var created := !disk.present;
      disk := disk.(present := true);
      if env.open.OpenedOnly? {
        return TornError;
      }
      if env.open.Unfit? {
        return Refused;
      }
      if |disk.content| + |line| > MAX_LEDGER_BYTES {
        return Refused;
      }
      var how := WriteAll(line, env.writes);
      match how
      case ZeroWrite => return TornRefusal;
      case OsFailure => return TornError;
      case Died => return Crashed;
      case Complete =>
      r := PassBarriers(created, env);
    }

    method PassBarriers(created: bool, env: Env) returns (r: Appending)
      requires locked
      modifies this`disk
      ensures (disk, r) == AfterBarriers(old(disk), created, env)
    {
      if env.fileSync.SyncFailed? {
        return Indeterminate;
      } else if env.fileSync.DiedInSync? {
        return Crashed;
      }
      disk := disk.(durable := |disk.content|);
      if created {
        r := FsyncDir(env.dirSync);
        if r != Appended {
          return;
        }
      }
      r := Appended;
    }

    /** A directory that cannot be opened gets no barrier, and no error is raised. */
    method FsyncDir(answer: DirAnswer) returns (r: Appending)
      requires locked
      modifies this`disk
      ensures disk == old(disk).(linked := old(disk.linked) || answer == Asked(Synced))
      ensures r == if answer == Asked(SyncFailed) then Indeterminate
                   else if answer == Asked(DiedInSync) then Crashed
                   else Appended
    {
      if answer.Unopened? {
        return Appended;
      }
      if answer.sync.SyncFailed? {
        return Indeterminate;
      } else if answer.sync.DiedInSync? {
        return Crashed;
      }
      disk := disk.(linked := true);
      r := Appended;
    }

    // -- whole calls

    method ReadFold(root: string, now: int, env: Env) returns (entries: seq<Entry>, r: Result<map<string, View>, Outcome>)
      requires locked
      ensures env.lock.Granted? ==> r == Folded(disk, root, now, env)
      ensures r.Success? ==> ReadDisk(disk) == Success(entries)
    {
      hide Fold, ReadDisk;
      if !env.read {
        return [], Failure(Failed);
      }
      var es := ReadEntries();
      if es.Failure? {
        return [], Failure(Unavailable);
      }
      var active := FoldActive(es.value, root, now);
      entries := es.value;
      r := if active.Failure? then Failure(Unavailable) else Success(active.value);
    }

    /** The single active approval of a binding, if there is one; nothing is written. */
    method FindValid(bound: string, root: string, now: int, env: Env) returns (r: Result<Option<View>, Outcome>)
      requires !locked
      modifies this`locked
      ensures !locked
      ensures r ==
        if !disk.present then Success(None)
        else if Folded(disk, root, now, env).Failure? then Failure(Folded(disk, root, now, env).error)
        else
          var active := Folded(disk, root, now, env).value;
          Success(if bound in active then Some(active[bound]) else None)
    {
      hide Fold, ReadDisk;
      if !disk.present {
        return Success(None);
      }
      if !env.lock.Granted? {
        return Failure(if env.lock.TimedOut? then Unavailable else Failed);
      }
      locked := true;
      var entries, active := ReadFold(root, now, env);
      if active.Failure? {
        r := Failure(active.error);
      } else {
        r := Success(if bound in active.value then Some(active.value[bound]) else None);
      }
      locked := false;
    }

    method Consume(bound: string, root: string, now: int, env: Env) returns (r: Outcome)
      requires !locked
      modifies this
      ensures !locked && (disk, r) == AfterConsume(old(disk), bound, root, now, env)
    {
      hide Fold, ReadDisk, AfterAppend;
      if !disk.present {
        return Absent;
      }
      if !env.lock.Granted? {
        return if env.lock.TimedOut? then Unavailable else Failed;
      }
      locked := true;
      var entries, active := ReadFold(root, now, env);
      if active.Failure? {
        r := active.error;
      } else if bound !in active.value {
        r := Absent;
      } else {
        var view := active.value[bound];
        ActiveNow(disk, root, now, env, bound);
        if !(view.created <= now < view.expires) {
          assert false;
        }
        var how := Append(Consumption(view.id, view.bound, now), env);
        r := OutcomeOf(how, view.(state := Consumed));
      }
      locked := false;
    }

    method Mint(expected: string, rebuilt: Option<Artifact>, now: int, token: Option<string>, env: Env)
      returns (r: Outcome)
      requires !locked
      modifies this
      ensures !locked && (disk, r) == AfterMint(old(disk), expected, rebuilt, now, token, env)
    {
      hide Fold, ReadDisk, AfterAppend, Issued;
      if !env.lock.Granted? {
        return if env.lock.TimedOut? then Unavailable else Failed;
      }
      locked := true;
      if rebuilt.None? {
        locked := false;
        return Failed;
      }
      var art := rebuilt.value;
      if art.bound != expected {
        locked := false;
        return Changed;
      }
      var entries, active := ReadFold(art.root, now, env);
      if active.Failure? {
        r := active.error;
      } else if art.bound in active.value {
        r := Duplicate(active.value[art.bound]);
      } else if token.None? || |token.value| != 64 {
        r := Unavailable;
      } else if Issued(entries, token.value) {
        r := Unavailable;
      } else {
        var e := Minted(art, now, token.value);
        var how := Append(e, env);
        r := OutcomeOf(how, ViewOf(e));
      }
      locked := false;
    }
  }

  /** What the fold returns is active by construction: the re-check under the lock cannot fail. */
  lemma ActiveNow(d: Disk, root: string, now: int, env: Env, bound: string)
    requires Folded(d, root, now, env).Success? && bound in Folded(d, root, now, env).value
    ensures var view := Folded(d, root, now, env).value[bound];
      view.created <= now < view.expires && view.bound == bound && GrantOf(view) in ReadDisk(d).value
  {
    hide ReadDisk, Corrupt, Spent;
    var es := ReadDisk(d).value;
    var m := ActiveMap(es, root, now);
    var a :| a in es && Live(es, a, root, now) && a.bound == bound && ViewOf(a) == m[bound];
    assert GrantOf(ViewOf(a)) == a;
  }

  lemma Spliced(base: bytes, data: bytes, total: nat, m: nat)
    requires total + m <= |data|
    ensures base + data[..total] + data[total..total + m] == base + data[..total + m]
  {
  }

  /** What the records before line `i` contribute to the parse of all of the lines. */
  predicate ParsedSoFar(lines: seq<string>, i: nat, entries: seq<Entry>)
    requires i <= |lines|
  {
    var rest := ParseLines(lines[i..]);
    ParseLines(lines) == if rest.Success? then Success(entries + rest.value) else rest
  }

  lemma NoneParsed(lines: seq<string>)
    ensures ParsedSoFar(lines, 0, [])
  {
    hide ParseLines;
    assert lines[0..] == lines;
    assert ParseLines(lines).Success? ==> [] + ParseLines(lines).value == ParseLines(lines).value;
  }

  lemma LineFails(lines: seq<string>, i: nat, entries: seq<Entry>)
    requires i < |lines| && ParsedSoFar(lines, i, entries)
    requires |Utf8.Encode(lines[i] + "\n")| > MAX_LINE_BYTES || ParseEntryLine(lines[i]).None?
    ensures ParseLines(lines) == Failure(if |Utf8.Encode(lines[i] + "\n")| > MAX_LINE_BYTES then LongLine else BadRecord)
  {
    hide ParseEntryLine, Utf8.Encode;
    assert lines[i..][0] == lines[i];
  }

  lemma LineParsed(lines: seq<string>, i: nat, entries: seq<Entry>)
    requires i < |lines| && ParsedSoFar(lines, i, entries)
    requires |Utf8.Encode(lines[i] + "\n")| <= MAX_LINE_BYTES && ParseEntryLine(lines[i]).Some?
    ensures ParsedSoFar(lines, i + 1, entries + [ParseEntryLine(lines[i]).value])
  {
    hide ParseEntryLine, Utf8.Encode;
    assert lines[i..][0] == lines[i] && lines[i..][1..] == lines[i + 1..];
    var e, rest := ParseEntryLine(lines[i]).value, ParseLines(lines[i + 1..]);
    if rest.Success? {
      assert entries + ([e] + rest.value) == (entries + [e]) + rest.value;
    }
  }

  lemma AllParsed(lines: seq<string>, entries: seq<Entry>)
    requires ParsedSoFar(lines, |lines|, entries)
    ensures ParseLines(lines) == Success(entries)
  {
    hide ParseEntryLine, Utf8.Encode;
    assert lines[|lines|..] == [];
    assert entries + [] == entries;
  }

  /** Strict decoding of a non-empty text yields a non-empty text. */
  lemma DecodedNotEmpty(data: bytes)
    requires data != [] && Utf8.Decode(data).Some?
    ensures Utf8.Decode(data).value != []
  {
    Utf8.EncodeDecode(data);
  }
}
