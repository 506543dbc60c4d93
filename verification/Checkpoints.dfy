/** The LangGraph checkpoint store of lib/langgraph-checkpoints.ts, for one run.

    JSON texts are strings; a row's content hash is the content itself, the digest being collision-free
    (the joined texts are separated by a newline that JSON never contains raw). Each table is a map on
    its primary key and a batch is atomic. */
module Checkpoints {
  import opened Options

  const MAX_OPERATION_BYTES := 1_000_000
  const MAX_WRITES := 256
  const MAX_TASK_PATH_BYTES := 8192
  const MAX_CHECKPOINT_ID := 128

  datatype CheckpointKey = CheckpointKey(namespace: string, id: string)
  type TaskKey = (CheckpointKey, string)
  type WriteKey = (CheckpointKey, string, int)

  datatype Content = Content(checkpoint: string, metadata: string, config: string)
  datatype CheckpointRow = CheckpointRow(parent: Option<string>, content: Content, createdAt: string)
  datatype WriteRow = WriteRow(channel: string, value: string, createdAt: string)

  datatype Store = Store(
    checkpoints: map<CheckpointKey, CheckpointRow>,
    writes: map<WriteKey, WriteRow>,
    paths: map<TaskKey, string>)

  datatype Error = StateInvalid | TooLarge | Conflicting | PersistenceFailed
  datatype Result<T> = Ok(value: T) | Err(error: Error)

  datatype Put = Put(key: CheckpointKey, parent: Option<string>, content: Content)
  datatype Write = Write(channel: string, value: string)
  datatype PutWrites = PutWrites(key: CheckpointKey, task: string, path: Option<string>, writes: seq<Write>)

  /** UTF-8 size of a text. */
  function Bytes(s: string): nat {
    if s == [] then 0
    else (if s[0] < '\U{80}' then 1 else if s[0] < '\U{800}' then 2 else if s[0] < '\U{10000}' then 3 else 4)
         + Bytes(s[1..])
  }

  // ---- put (lib/langgraph-checkpoints.ts:34) ----

  /** A `put` that looks for the row at one time, in `read`, and inserts it at another, in `s`. */
  function CommitPut(s: Store, read: Store, put: Put, now: string): Result<Store> {
    if |put.key.id| > MAX_CHECKPOINT_ID then Err(StateInvalid)
    else if Bytes(put.content.checkpoint) > MAX_OPERATION_BYTES || Bytes(put.content.metadata) > MAX_OPERATION_BYTES ||
            Bytes(put.content.config) > MAX_OPERATION_BYTES then Err(TooLarge)
    else if put.key in read.checkpoints then
      if read.checkpoints[put.key].content != put.content then Err(Conflicting) else Ok(s)
    else if put.key in s.checkpoints then Err(PersistenceFailed)
    else Ok(s.(checkpoints := s.checkpoints[put.key := CheckpointRow(put.parent, put.content, now)]))
  }

  // ---- putWrites (lib/langgraph-checkpoints.ts:35-56) ----

  /** The reserved channels have fixed negative indexes; any other write is indexed by its position. */
  function WriteIndex(channel: string, position: nat): int {
    if channel == "__error__" then -1
    else if channel == "__scheduled__" then -2
    else if channel == "__interrupt__" then -3
    else if channel == "__resume__" then -4
    else position
  }

  /** Looking a channel up in a plain object finds these inherited members too; the result is no index and
      the database refuses to bind it. */
  predicate InheritedMember(channel: string) {
    channel in {"constructor", "__proto__", "hasOwnProperty", "isPrototypeOf", "propertyIsEnumerable",
                "toLocaleString", "toString", "valueOf", "__defineGetter__", "__defineSetter__",
                "__lookupGetter__", "__lookupSetter__"}
  }

  predicate WellFormed(op: PutWrites) {
    |op.writes| <= MAX_WRITES && (op.path.Some? ==> Bytes(op.path.value) <= MAX_TASK_PATH_BYTES)
  }

  predicate Sized(op: PutWrites) {
    forall i :: 0 <= i < |op.writes| ==> Bytes(op.writes[i].value) <= MAX_OPERATION_BYTES
  }

  predicate HasWrites(s: Store, key: CheckpointKey, task: string) {
    exists k :: k in s.writes && k.0 == key && k.1 == task
  }

  function KeyOf(op: PutWrites, i: nat): WriteKey
    requires i < |op.writes|
  {
    (op.key, op.task, WriteIndex(op.writes[i].channel, i))
  }

  predicate SameContent(row: WriteRow, write: Write) {
    row.channel == write.channel && row.value == write.value
  }

  /** The store as each query of a `putWrites` found it: for the path row, for any write of the task, and for
      the row of each write. The queries run at different times. */
  datatype Reads = Reads(path: Store, legacy: Store, rows: seq<Store>)

  function AtOnce(s: Store, op: PutWrites): (found: Reads)
    ensures |found.rows| == |op.writes|
  {
    Reads(s, s, seq(|op.writes|, _ => s))
  }

  /** The path the task is given: a task that already has writes and no path row keeps the empty path. */
  function ChosenPath(found: Reads, op: PutWrites): string {
    var existing := (op.key, op.task) in found.path.paths;
    if !existing && HasWrites(found.legacy, op.key, op.task) then ""
    else if existing && found.path.paths[(op.key, op.task)] == "" then ""
    else if op.path.Some? then op.path.value else ""
  }

  /** The inserts of a batch: the task's path row, if it has none, and the rows not there yet. */
  datatype Batch = Batch(path: Option<string>, rows: seq<(WriteKey, WriteRow)>)

  /** What the loop over the first n writes has collected. */
  function NewRows(rows: seq<Store>, op: PutWrites, n: nat, now: string): Result<seq<(WriteKey, WriteRow)>>
    requires n <= |op.writes| && n <= |rows|
  {
    if n == 0 then Ok([])
    else
      var before := NewRows(rows, op, n - 1, now);
      var s, key, write := rows[n - 1], KeyOf(op, n - 1), op.writes[n - 1];
      if before.Err? then before
      else if InheritedMember(write.channel) then Err(PersistenceFailed)
      else if key in s.writes && !SameContent(s.writes[key], write) then Err(Conflicting)
      else if key in s.writes then before
      else Ok(before.value + [(key, WriteRow(write.channel, write.value, now))])
  }

  predicate PathConflicts(found: Reads, op: PutWrites) {
    (op.key, op.task) in found.path.paths && found.path.paths[(op.key, op.task)] != ChosenPath(found, op)
  }

  /** Everything `putWrites` does before its batch. */
  function Plan(found: Reads, op: PutWrites, now: string): Result<Batch>
    requires |found.rows| == |op.writes|
  {
    if !WellFormed(op) then Err(StateInvalid)
    else if !Sized(op) then Err(TooLarge)
    else if PathConflicts(found, op) then Err(Conflicting)
    else
      var rows := NewRows(found.rows, op, |op.writes|, now);
      var insert := (op.key, op.task) !in found.path.paths && op.writes != [];
      if rows.Err? then Err(rows.error)
      else Ok(Batch(if insert then Some(ChosenPath(found, op)) else None, rows.value))
  }

  predicate Insertable(s: Store, op: PutWrites, batch: Batch) {
    && (batch.path.Some? ==> (op.key, op.task) !in s.paths)
    && (forall i :: 0 <= i < |batch.rows| ==> batch.rows[i].0 !in s.writes)
    && (forall i, j :: 0 <= i < j < |batch.rows| ==> batch.rows[i].0 != batch.rows[j].0)
  }

  function WithRows(writes: map<WriteKey, WriteRow>, rows: seq<(WriteKey, WriteRow)>): map<WriteKey, WriteRow>
    decreases |rows|
  {
    if rows == [] then writes else WithRows(writes[rows[0].0 := rows[0].1], rows[1..])
  }

  /** The atomic batch: any violated primary key fails all of it. */
  function Commit(s: Store, op: PutWrites, batch: Batch): Result<Store> {
    if !Insertable(s, op, batch) then Err(PersistenceFailed)
    else Ok(s.(writes := WithRows(s.writes, batch.rows),
               paths := if batch.path.Some? then s.paths[(op.key, op.task) := batch.path.value] else s.paths))
  }

  /** Reads at their times, batch in `s`. */
  function CommitWrites(s: Store, found: Reads, op: PutWrites, now: string): Result<Store>
    requires |found.rows| == |op.writes|
  {
    var plan := Plan(found, op, now);
    if plan.Err? then Err(plan.error) else Commit(s, op, plan.value)
  }

  /** The whole operation at one instant. */
  function ExecuteWrites(s: Store, op: PutWrites, now: string): Result<Store> {
    CommitWrites(s, AtOnce(s, op), op, now)
  }

  /** A writer from before task paths existed stores the same rows and no path row. */
  function CommitLegacyWrites(s: Store, rows: seq<Store>, op: PutWrites, now: string): Result<Store>
    requires |rows| == |op.writes|
  {
    var added := NewRows(rows, op, |op.writes|, now);
    if |op.writes| > MAX_WRITES then Err(StateInvalid)
    else if !Sized(op) then Err(TooLarge)
    else if added.Err? then Err(added.error)
    else Commit(s, op, Batch(None, added.value))
  }

  // ---- runs without deleteThread ----

  /** An operation at the time it commits, with what it read before. */
  datatype Action =
    | DoPut(put: Put, read: Store, now: string)
    | DoWrites(op: PutWrites, found: Reads, now: string)
    | DoLegacyWrites(op: PutWrites, rows: seq<Store>, now: string)

  predicate Complete(action: Action) {
    match action
    case DoPut(_, _, _) => true
    case DoWrites(op, found, _) => |found.rows| == |op.writes|
    case DoLegacyWrites(op, rows, _) => |rows| == |op.writes|
  }

  function Outcome(s: Store, action: Action): Result<Store>
    requires Complete(action)
  {
    match action
    case DoPut(put, read, now) => CommitPut(s, read, put, now)
    case DoWrites(op, found, now) => CommitWrites(s, found, op, now)
    case DoLegacyWrites(op, rows, now) => CommitLegacyWrites(s, rows, op, now)
  }

  /** A refused operation changes nothing. */
  function After(s: Store, action: Action): Store
    requires Complete(action)
  {
    if Outcome(s, action).Ok? then Outcome(s, action).value else s
  }

  ghost predicate Earlier(run: seq<Store>, k: nat, s: Store) {
    exists i: nat :: i <= k < |run| && run[i] == s
  }

  /** Everything the action read was the store at some time up to its commit. */
  ghost predicate ReadEarlier(run: seq<Store>, k: nat, action: Action) {
    match action
    case DoPut(_, read, _) => Earlier(run, k, read)
    case DoWrites(_, found, _) =>
      && Earlier(run, k, found.path) && Earlier(run, k, found.legacy)
      && forall n :: 0 <= n < |found.rows| ==> Earlier(run, k, found.rows[n])
    case DoLegacyWrites(_, rows, _) => forall n :: 0 <= n < |rows| ==> Earlier(run, k, rows[n])
  }

  ghost predicate IsStep(run: seq<Store>, actions: seq<Action>, k: nat)
    requires k < |actions| < |run|
  {
    Complete(actions[k]) && ReadEarlier(run, k, actions[k]) && run[k + 1] == After(run[k], actions[k])
  }

  /** Any number of writers, old and new, whose reads and commits interleave in any way. */
  ghost predicate IsRun(run: seq<Store>, actions: seq<Action>) {
    |run| == |actions| + 1 && forall k: nat :: k < |actions| ==> IsStep(run, actions, k)
  }

  /** Rows are only added. */
  ghost predicate Grows(s: Store, s': Store) {
    && (forall k :: k in s.checkpoints ==> k in s'.checkpoints && s'.checkpoints[k] == s.checkpoints[k])
    && (forall k :: k in s.writes ==> k in s'.writes && s'.writes[k] == s.writes[k])
    && (forall k :: k in s.paths ==> k in s'.paths && s'.paths[k] == s.paths[k])
  }

  /** `COALESCE(p.task_path, '')`. */
  function EffectivePath(s: Store, key: CheckpointKey, task: string): string {
    if (key, task) in s.paths then s.paths[(key, task)] else ""
  }

  lemma {:induction false} WithRowsAdds(writes: map<WriteKey, WriteRow>, rows: seq<(WriteKey, WriteRow)>)
    requires forall i :: 0 <= i < |rows| ==> rows[i].0 !in writes
    requires forall i, j :: 0 <= i < j < |rows| ==> rows[i].0 != rows[j].0
    ensures forall k :: k in writes ==> k in WithRows(writes, rows) && WithRows(writes, rows)[k] == writes[k]
    ensures forall i :: 0 <= i < |rows| ==>
      rows[i].0 in WithRows(writes, rows) && WithRows(writes, rows)[rows[i].0] == rows[i].1
    ensures forall k :: k in WithRows(writes, rows) ==> k in writes || exists i :: 0 <= i < |rows| && rows[i].0 == k
    decreases |rows|
  {
    if rows != [] {
      var first := writes[rows[0].0 := rows[0].1];
      forall i | 0 <= i < |rows[1..]| ensures rows[1..][i].0 !in first { assert rows[1..][i] == rows[i + 1]; }
      WithRowsAdds(first, rows[1..]);
      forall i | 0 <= i < |rows|
        ensures rows[i].0 in WithRows(writes, rows) && WithRows(writes, rows)[rows[i].0] == rows[i].1
      {
        if i > 0 { assert rows[1..][i - 1] == rows[i]; }
      }
      forall k | k in WithRows(writes, rows) ensures k in writes || exists i :: 0 <= i < |rows| && rows[i].0 == k {
        if k !in first {
          var j :| 0 <= j < |rows[1..]| && rows[1..][j].0 == k;
          assert rows[j + 1].0 == k;
        }
      }
    }
  }

  lemma CommitGrows(s: Store, op: PutWrites, batch: Batch)
    requires Commit(s, op, batch).Ok?
    ensures Grows(s, Commit(s, op, batch).value)
  {
    WithRowsAdds(s.writes, batch.rows);
  }

  lemma StepGrows(s: Store, action: Action)
    requires Complete(action)
    ensures Grows(s, After(s, action))
  {
    if Outcome(s, action).Ok? {
      match action
      case DoPut(_, _, _) =>
      case DoWrites(op, found, now) => CommitGrows(s, op, Plan(found, op, now).value);
      case DoLegacyWrites(op, rows, now) => CommitGrows(s, op, Batch(None, NewRows(rows, op, |op.writes|, now).value));
    }
  }

  lemma {:induction false} RunGrows(run: seq<Store>, actions: seq<Action>, i: nat, j: nat)
    requires IsRun(run, actions) && i <= j < |run|
    ensures Grows(run[i], run[j])
    decreases j
  {
    if i < j {
      RunGrows(run, actions, i, j - 1);
      assert IsStep(run, actions, j - 1);
      StepGrows(run[j - 1], actions[j - 1]);
    }
  }

  lemma EarlierGrows(run: seq<Store>, actions: seq<Action>, k: nat, s: Store)
    requires IsRun(run, actions) && Earlier(run, k, s)
    ensures Grows(s, run[k])
  {
    var i: nat :| i <= k < |run| && run[i] == s;
    RunGrows(run, actions, i, k);
  }

  /** Rows read at any time up to the commit. */
  ghost predicate AllGrow(rows: seq<Store>, s: Store) {
    forall n :: 0 <= n < |rows| ==> Grows(rows[n], s)
  }

  ghost predicate ReadsGrow(found: Reads, s: Store) {
    Grows(found.path, s) && Grows(found.legacy, s) && AllGrow(found.rows, s)
  }

  lemma ReadsGrowInRun(run: seq<Store>, actions: seq<Action>, k: nat)
    requires IsRun(run, actions) && k < |actions| && actions[k].DoWrites?
    ensures ReadsGrow(actions[k].found, run[k])
  {
    assert IsStep(run, actions, k);
    var found := actions[k].found;
    EarlierGrows(run, actions, k, found.path);
    EarlierGrows(run, actions, k, found.legacy);
    forall n | 0 <= n < |found.rows| ensures Grows(found.rows[n], run[k]) {
      EarlierGrows(run, actions, k, found.rows[n]);
    }
  }

  // ---- replay ----

  /** The content of every write of the operation is in the store. */
  ghost predicate Holds(s: Store, op: PutWrites) {
    forall i: nat :: i < |op.writes| ==> KeyOf(op, i) in s.writes && SameContent(s.writes[KeyOf(op, i)], op.writes[i])
  }

  /** What becomes of each write: its row was found, with the same content, or it is among the new rows. */
  lemma {:induction false} NewRowsCover(rows: seq<Store>, op: PutWrites, n: nat, now: string, i: nat)
    requires i < n <= |op.writes| && n <= |rows| && NewRows(rows, op, n, now).Ok?
    ensures !InheritedMember(op.writes[i].channel)
    ensures KeyOf(op, i) in rows[i].writes ==> SameContent(rows[i].writes[KeyOf(op, i)], op.writes[i])
    ensures KeyOf(op, i) !in rows[i].writes ==>
      (KeyOf(op, i), WriteRow(op.writes[i].channel, op.writes[i].value, now)) in NewRows(rows, op, n, now).value
  {
    if i < n - 1 {
      NewRowsCover(rows, op, n - 1, now, i);
    }
  }

  lemma {:induction false} NewRowsAreOwn(rows: seq<Store>, op: PutWrites, n: nat, now: string)
    requires n <= |op.writes| && n <= |rows| && NewRows(rows, op, n, now).Ok?
    ensures forall row :: row in NewRows(rows, op, n, now).value ==> row.0.0 == op.key && row.0.1 == op.task
  {
    if n > 0 {
      NewRowsAreOwn(rows, op, n - 1, now);
    }
  }

  lemma {:induction false} NothingNew(rows: seq<Store>, op: PutWrites, n: nat, now: string)
    requires n <= |op.writes| == |rows| && forall i :: 0 <= i < |rows| ==> Holds(rows[i], op)
    requires forall i :: 0 <= i < |op.writes| ==> !InheritedMember(op.writes[i].channel)
    ensures NewRows(rows, op, n, now) == Ok([])
  {
    if n > 0 {
      assert Holds(rows[n - 1], op);
      assert KeyOf(op, n - 1) in rows[n - 1].writes;
      NothingNew(rows, op, n - 1, now);
    }
  }

  /** Later queries do not change what the earlier ones gave. */
  lemma {:induction false} NewRowsPrefix(rows: seq<Store>, more: seq<Store>, op: PutWrites, n: nat, now: string)
    requires n <= |op.writes| && n <= |rows| && rows <= more
    ensures NewRows(more, op, n, now) == NewRows(rows, op, n, now)
  {
    if n > 0 { NewRowsPrefix(rows, more, op, n - 1, now); }
  }

  /** The first error ends it. */
  lemma {:induction false} NewRowsFails(rows: seq<Store>, op: PutWrites, i: nat, n: nat, now: string)
    requires i <= n <= |op.writes| && n <= |rows| && NewRows(rows, op, i, now).Err?
    ensures NewRows(rows, op, n, now) == NewRows(rows, op, i, now)
  {
    if i < n { NewRowsFails(rows, op, i, n - 1, now); }
  }

  lemma WritesAreHeld(s: Store, found: Reads, op: PutWrites, now: string)
    requires |found.rows| == |op.writes| && ReadsGrow(found, s) && CommitWrites(s, found, op, now).Ok?
    ensures Holds(CommitWrites(s, found, op, now).value, op)
    ensures forall i :: 0 <= i < |op.writes| ==> !InheritedMember(op.writes[i].channel)
  {
    var batch := Plan(found, op, now).value;
    var s' := CommitWrites(s, found, op, now).value;
    WithRowsAdds(s.writes, batch.rows);
    forall i: nat | i < |op.writes|
      ensures KeyOf(op, i) in s'.writes && SameContent(s'.writes[KeyOf(op, i)], op.writes[i])
      ensures !InheritedMember(op.writes[i].channel)
    {
      NewRowsCover(found.rows, op, |op.writes|, now, i);
      assert Grows(found.rows[i], s);
    }
  }

  lemma WritesLeavePath(s: Store, found: Reads, op: PutWrites, now: string)
    requires |found.rows| == |op.writes| != 0 && ReadsGrow(found, s) && CommitWrites(s, found, op, now).Ok?
    ensures (op.key, op.task) in CommitWrites(s, found, op, now).value.paths
    ensures CommitWrites(s, found, op, now).value.paths[(op.key, op.task)] == ChosenPath(found, op)
  {}

  lemma HoldsStays(s: Store, s': Store, op: PutWrites)
    requires Holds(s, op) && Grows(s, s')
    ensures Holds(s', op)
  {
    forall n: nat | n < |op.writes|
      ensures KeyOf(op, n) in s'.writes && SameContent(s'.writes[KeyOf(op, n)], op.writes[n])
    {
      assert KeyOf(op, n) in s.writes;
    }
  }

  /** Every read of an operation happens after time i. */
  ghost predicate ReadAfter(run: seq<Store>, i: nat, j: nat, found: Reads) {
    && (exists m: nat :: i < m <= j < |run| && run[m] == found.path)
    && (forall n :: 0 <= n < |found.rows| ==> exists m: nat :: i < m <= j < |run| && run[m] == found.rows[n])
  }

  /** A write that once succeeded can be repeated at any later time, its reads and its batch at any times of
      their own, and changes nothing. */
  lemma ReplayWrites(run: seq<Store>, actions: seq<Action>, i: nat, j: nat, found: Reads, later: string)
    requires IsRun(run, actions) && i < |actions| && i + 1 <= j < |run|
    requires actions[i].DoWrites? && actions[i].op.writes != []
    requires Complete(actions[i]) && Outcome(run[i], actions[i]).Ok?
    requires |found.rows| == |actions[i].op.writes| && ReadAfter(run, i, j, found)
    ensures CommitWrites(run[j], found, actions[i].op, later) == Ok(run[j])
  {
    var op, first := actions[i].op, actions[i].found;
    assert IsStep(run, actions, i);
    ReadsGrowInRun(run, actions, i);
    WritesAreHeld(run[i], first, op, actions[i].now);
    forall n | 0 <= n < |found.rows| ensures Holds(found.rows[n], op) {
      var m: nat :| i < m <= j < |run| && run[m] == found.rows[n];
      RunGrows(run, actions, i + 1, m);
      HoldsStays(run[i + 1], run[m], op);
    }
    NothingNew(found.rows, op, |op.writes|, later);
    WritesLeavePath(run[i], first, op, actions[i].now);
    var m: nat :| i < m <= j < |run| && run[m] == found.path;
    RunGrows(run, actions, i + 1, m);
    assert Plan(found, op, later) == Ok(Batch(None, []));
  }

  /** The same for a `put`. */
  lemma ReplayPut(run: seq<Store>, actions: seq<Action>, i: nat, j: nat, m: nat, later: string)
    requires IsRun(run, actions) && i < |actions| && i + 1 <= m <= j < |run|
    requires actions[i].DoPut? && Outcome(run[i], actions[i]).Ok?
    ensures CommitPut(run[j], run[m], actions[i].put, later) == Ok(run[j])
  {
    assert IsStep(run, actions, i);
    EarlierGrows(run, actions, i, actions[i].read);
    RunGrows(run, actions, i + 1, m);
    assert actions[i].put.key in run[i + 1].checkpoints;
  }

  /** Content that differs from a row stored by the time of the batch is refused, whenever the reads were. */
  lemma ConflictingWriteRefused(s: Store, found: Reads, op: PutWrites, now: string, i: nat)
    requires |found.rows| == |op.writes| && ReadsGrow(found, s)
    requires i < |op.writes| && KeyOf(op, i) in s.writes && !SameContent(s.writes[KeyOf(op, i)], op.writes[i])
    ensures CommitWrites(s, found, op, now).Err?
  {
    if NewRows(found.rows, op, |op.writes|, now).Ok? {
      NewRowsCover(found.rows, op, |op.writes|, now, i);
      assert Grows(found.rows[i], s);
    }
  }

  lemma ConflictingPutRefused(s: Store, read: Store, put: Put, now: string)
    requires Grows(read, s) && put.key in s.checkpoints && s.checkpoints[put.key].content != put.content
    ensures CommitPut(s, read, put, now).Err?
  {}

  /** A task that has a path row is only written to again under that path. */
  lemma ConflictingPathRefused(s: Store, found: Reads, op: PutWrites, now: string)
    requires |found.rows| == |op.writes| && op.writes != [] && Grows(found.path, s)
    requires (op.key, op.task) in s.paths && s.paths[(op.key, op.task)] != ""
    requires op.path != Some(s.paths[(op.key, op.task)])
    ensures CommitWrites(s, found, op, now).Err?
  {}

  // ---- reads and batch at different instants ----

  lemma {:induction false} PlanAtCommit(
      rows: seq<Store>, rows': seq<Store>, s: Store, op: PutWrites, n: nat, now: string)
    requires AllGrow(rows, s) && n <= |op.writes| == |rows| == |rows'|
    requires forall i :: 0 <= i < |rows'| ==> rows'[i] == s
    requires NewRows(rows, op, n, now).Ok?
    requires forall row :: row in NewRows(rows, op, n, now).value ==> row.0 !in s.writes
    ensures NewRows(rows', op, n, now) == NewRows(rows, op, n, now)
  {
    if n > 0 {
      assert Grows(rows[n - 1], s);
      if KeyOf(op, n - 1) !in rows[n - 1].writes {
        var all := NewRows(rows, op, n, now).value;
        assert all[|all| - 1] in all && all[|all| - 1].0 == KeyOf(op, n - 1);
      }
      PlanAtCommit(rows, rows', s, op, n - 1, now);
    }
  }

  /** The batch gives a task that already has writes a path other than the empty one it is read under. */
  predicate MovesTask(s: Store, op: PutWrites, batch: Batch) {
    batch.path.Some? && batch.path.value != "" && HasWrites(s, op.key, op.task)
  }

  /** `putWrites` reads at some times and commits at another. When the batch goes through, the outcome is that of
      the whole operation at the instant of the commit, exactly when it does not move the task. */
  lemma CommitIsAtomic(s: Store, found: Reads, op: PutWrites, now: string)
    requires |found.rows| == |op.writes| && ReadsGrow(found, s) && op.writes != []
    requires CommitWrites(s, found, op, now).Ok?
    ensures ExecuteWrites(s, op, now) == CommitWrites(s, found, op, now) <==>
      !MovesTask(s, op, Plan(found, op, now).value)
  {
    var batch := Plan(found, op, now).value;
    PlanAtCommit(found.rows, AtOnce(s, op).rows, s, op, |op.writes|, now);
    if (op.key, op.task) in found.path.paths {
      assert Plan(AtOnce(s, op), op, now) == Plan(found, op, now);
    } else {
      assert (op.key, op.task) !in s.paths;
      if HasWrites(found.legacy, op.key, op.task) {
        var k :| k in found.legacy.writes && k.0 == op.key && k.1 == op.task;
        assert k in s.writes;
      }
      var moved := Commit(s, op, batch).value;
      assert moved.paths[(op.key, op.task)] == batch.path.value;
      if MovesTask(s, op, batch) && ExecuteWrites(s, op, now).Ok? {
        assert ExecuteWrites(s, op, now).value.paths[(op.key, op.task)] == "";
      }
    }
  }

  // ---- only a race with a legacy writer moves a task ----

  predicate Moves(s: Store, action: Action)
    requires Complete(action)
  {
    action.DoWrites? && Outcome(s, action).Ok? &&
    MovesTask(s, action.op, Plan(action.found, action.op, action.now).value)
  }

  /** The task's first write came from a legacy writer, after this operation had looked for one. */
  ghost predicate Raced(run: seq<Store>, actions: seq<Action>, k: nat)
    requires |run| == |actions| + 1 && k < |actions| && actions[k].DoWrites?
  {
    var op := actions[k].op;
    && !HasWrites(actions[k].found.legacy, op.key, op.task)
    && exists m: nat :: m < k && FirstLegacyWrite(run[m], actions[m], run[m + 1], op.key, op.task)
  }

  predicate FirstLegacyWrite(s: Store, action: Action, s': Store, key: CheckpointKey, task: string) {
    && action.DoLegacyWrites? && action.op.key == key && action.op.task == task
    && !HasWrites(s, key, task) && HasWrites(s', key, task)
  }

  lemma {:induction false} FirstWrite(run: seq<Store>, i: nat, j: nat, key: CheckpointKey, task: string)
      returns (m: nat)
    requires i <= j < |run| && !HasWrites(run[i], key, task) && HasWrites(run[j], key, task)
    ensures i <= m < j && !HasWrites(run[m], key, task) && HasWrites(run[m + 1], key, task)
    decreases j
  {
    if HasWrites(run[j - 1], key, task) {
      m := FirstWrite(run, i, j - 1, key, task);
    } else {
      m := j - 1;
    }
  }

  /** A writer that knows task paths leaves a path row beside a task's first write. */
  lemma FirstWriteHasPath(s: Store, action: Action, key: CheckpointKey, task: string)
    requires Complete(action) && !HasWrites(s, key, task) && HasWrites(After(s, action), key, task)
    requires action.DoWrites? ==> Grows(action.found.path, s)
    ensures action.DoLegacyWrites? || (key, task) in After(s, action).paths
    ensures action.DoLegacyWrites? ==> action.op.key == key && action.op.task == task
  {
    var k :| k in After(s, action).writes && k.0 == key && k.1 == task;
    assert k !in s.writes;
    if action.DoWrites? {
      var batch := Plan(action.found, action.op, action.now).value;
      NewRowsAreOwn(action.found.rows, action.op, |action.op.writes|, action.now);
      WithRowsAdds(s.writes, batch.rows);
    } else if action.DoLegacyWrites? {
      NewRowsAreOwn(action.rows, action.op, |action.op.writes|, action.now);
      WithRowsAdds(s.writes, NewRows(action.rows, action.op, |action.op.writes|, action.now).value);
    }
  }

  lemma MovedUnseen(s: Store, action: Action)
    requires Complete(action) && Moves(s, action)
    ensures !HasWrites(action.found.legacy, action.op.key, action.op.task) &&
      HasWrites(s, action.op.key, action.op.task)
    ensures (action.op.key, action.op.task) !in s.paths
  {}

  lemma FirstWriteIsLegacy(run: seq<Store>, actions: seq<Action>, m: nat, k: nat, key: CheckpointKey, task: string)
    requires IsRun(run, actions) && m < k < |run| && (key, task) !in run[k].paths
    requires !HasWrites(run[m], key, task) && HasWrites(run[m + 1], key, task)
    ensures FirstLegacyWrite(run[m], actions[m], run[m + 1], key, task)
  {
    assert IsStep(run, actions, m);
    if actions[m].DoWrites? { EarlierGrows(run, actions, m, actions[m].found.path); }
    FirstWriteHasPath(run[m], actions[m], key, task);
    RunGrows(run, actions, m + 1, k);
  }

  lemma MovedIsRaced(run: seq<Store>, actions: seq<Action>, k: nat)
    requires IsRun(run, actions) && k < |actions| && Complete(actions[k]) && Moves(run[k], actions[k])
    ensures Raced(run, actions, k)
  {
    var op, legacy := actions[k].op, actions[k].found.legacy;
    MovedUnseen(run[k], actions[k]);
    assert Earlier(run, k, legacy) by { assert IsStep(run, actions, k); }
    var i: nat :| i <= k < |run| && run[i] == legacy;
    var m := FirstWrite(run, i, k, op.key, op.task);
    FirstWriteIsLegacy(run, actions, m, k, op.key, op.task);
  }
}
