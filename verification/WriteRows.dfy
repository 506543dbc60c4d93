/** Which row a pending write is stored in, and when `putWrites` succeeds (lib/langgraph-checkpoints.ts:4, 35-56). */
module WriteRows {
  import opened Options
  import opened Checkpoints
  import opened PendingWrites

  /** The reserved channels. A task has one row for each at most, and they are listed from the last to the first,
      before the task's other writes. */
  const RESERVED := ["__error__", "__scheduled__", "__interrupt__", "__resume__"]

  predicate SameTask(a: PutWrites, b: PutWrites) { a.key == b.key && a.task == b.task }

  /** Two writes, by one operation or by two, go to one row exactly when they are of one task of one checkpoint and
      either both have the same reserved channel, or neither channel is reserved and their positions are the same. */
  lemma RowIsShared(a: PutWrites, i: nat, b: PutWrites, j: nat)
    requires i < |a.writes| && j < |b.writes|
    ensures KeyOf(a, i) == KeyOf(b, j) <==>
      && SameTask(a, b)
      && (if a.writes[i].channel in RESERVED then a.writes[i].channel == b.writes[j].channel
          else b.writes[j].channel !in RESERVED && i == j)
  {
    ReservedIndex(a.writes[i].channel, i);
    ReservedIndex(b.writes[j].channel, j);
  }

  lemma ReservedIndex(channel: string, position: nat)
    ensures channel in RESERVED ==>
      exists r: nat :: r < |RESERVED| && RESERVED[r] == channel && WriteIndex(channel, position) == -1 - r
    ensures channel !in RESERVED ==> WriteIndex(channel, position) == position
  {
    assert RESERVED[0] == "__error__" && RESERVED[1] == "__scheduled__";
    assert RESERVED[2] == "__interrupt__" && RESERVED[3] == "__resume__";
    if r: nat :| r < |RESERVED| && RESERVED[r] == channel {
      assert WriteIndex(channel, position) == -1 - r;
    }
  }

  // ---- the rows of a run ----

  /** The row of a reserved channel is the one of that channel. */
  predicate InPlace(k: WriteKey, row: WriteRow) {
    if k.2 < 0 then -k.2 <= |RESERVED| && row.channel == RESERVED[-1 - k.2] else row.channel !in RESERVED
  }

  ghost predicate AllInPlace(s: Store) { forall k :: k in s.writes ==> InPlace(k, s.writes[k]) }

  lemma {:induction false} NewRowsInPlace(rows: seq<Store>, op: PutWrites, n: nat, now: string)
    requires n <= |op.writes| && n <= |rows| && NewRows(rows, op, n, now).Ok?
    ensures forall row :: row in NewRows(rows, op, n, now).value ==> InPlace(row.0, row.1)
  {
    if n > 0 {
      NewRowsInPlace(rows, op, n - 1, now);
      ReservedIndex(op.writes[n - 1].channel, n - 1);
    }
  }

  lemma CommitInPlace(s: Store, op: PutWrites, batch: Batch)
    requires AllInPlace(s) && Commit(s, op, batch).Ok?
    requires forall row :: row in batch.rows ==> InPlace(row.0, row.1)
    ensures AllInPlace(Commit(s, op, batch).value)
  {
    var after := Commit(s, op, batch).value;
    WithRowsAdds(s.writes, batch.rows);
    forall k | k in after.writes ensures InPlace(k, after.writes[k]) {
      if k !in s.writes {
        var i :| 0 <= i < |batch.rows| && batch.rows[i].0 == k;
        assert batch.rows[i] in batch.rows;
      }
    }
  }

  lemma StepInPlace(s: Store, action: Action)
    requires Complete(action) && AllInPlace(s)
    ensures AllInPlace(After(s, action))
  {
    if Outcome(s, action).Ok? {
      match action
      case DoPut(_, _, _) =>
      case DoWrites(op, found, now) =>
        NewRowsInPlace(found.rows, op, |op.writes|, now);
        CommitInPlace(s, op, Plan(found, op, now).value);
      case DoLegacyWrites(op, rows, now) =>
        NewRowsInPlace(rows, op, |op.writes|, now);
        CommitInPlace(s, op, Batch(None, NewRows(rows, op, |op.writes|, now).value));
    }
  }

  lemma {:induction false} RunInPlace(run: seq<Store>, actions: seq<Action>, k: nat)
    requires IsRun(run, actions) && k < |run| && run[0].writes == map[]
    ensures AllInPlace(run[k])
  {
    if k > 0 {
      RunInPlace(run, actions, k - 1);
      assert IsStep(run, actions, k - 1);
      StepInPlace(run[k - 1], actions[k - 1]);
    }
  }

  /** In every list of pending writes that is ever read, a task's writes to reserved channels come before its other
      writes, at most one of each, in the order resume, interrupt, scheduled, error. */
  lemma ReservedFirst(run: seq<Store>, actions: seq<Action>, k: nat, key: CheckpointKey, list: seq<WriteKey>,
                      m: nat, n: nat)
    requires IsRun(run, actions) && k < |run| && run[0].writes == map[] && IsListing(run[k], key, list)
    requires m < n < |list| && list[m].1 == list[n].1
    ensures var pending := PendingOf(run[k], list);
      forall r: nat :: r < |RESERVED| && pending[n].channel == RESERVED[r] ==>
        exists q: nat :: r < q < |RESERVED| && pending[m].channel == RESERVED[q]
  {
    RunInPlace(run, actions, k);
    var pending := PendingOf(run[k], list);
    assert list[m] in list && list[n] in list;
    assert Before(PlaceOf(run[k], list[m]), PlaceOf(run[k], list[n]));
    TextLessTrichotomy(EffectivePath(run[k], key, list[m].1), EffectivePath(run[k], key, list[n].1));
    TextLessTrichotomy(list[m].1, list[n].1);
    forall r: nat | r < |RESERVED| && pending[n].channel == RESERVED[r]
      ensures exists q: nat :: r < q < |RESERVED| && pending[m].channel == RESERVED[q]
    {
      ReservedDiffer(r, -1 - list[n].2);
      assert pending[m].channel == RESERVED[-1 - list[m].2];
    }
  }

  lemma ReservedDiffer(r: nat, q: int)
    requires r < |RESERVED|
    ensures 0 <= q < |RESERVED| && RESERVED[r] == RESERVED[q] ==> r == q
  {
    assert RESERVED[0][2] == 'e' && RESERVED[1][2] == 's' && RESERVED[2][2] == 'i' && RESERVED[3][2] == 'r';
  }

  // ---- when putWrites succeeds ----

  /** No row stored for a write of the operation has other content, and no two of its writes would make the same new
      row. */
  predicate RowsFit(s: Store, op: PutWrites) {
    && (forall i: nat :: i < |op.writes| ==>
          KeyOf(op, i) in s.writes ==> SameContent(s.writes[KeyOf(op, i)], op.writes[i]))
    && (forall i: nat, j: nat :: i < j < |op.writes| && op.writes[i].channel == op.writes[j].channel ==>
          op.writes[i].channel in RESERVED ==> KeyOf(op, i) in s.writes)
  }

  /** The task has no path, or an empty one, or the one the operation gives. */
  predicate PathFits(s: Store, op: PutWrites) {
    EffectivePath(s, op.key, op.task) != "" ==> op.path == Some(s.paths[(op.key, op.task)])
  }

  predicate CanPutWrites(s: Store, op: PutWrites) {
    && WellFormed(op) && Sized(op) && PathFits(s, op) && RowsFit(s, op)
    && forall i :: 0 <= i < |op.writes| ==> !InheritedMember(op.writes[i].channel)
  }

  /** What is stored afterwards: the rows of before, the content of every write, and nothing but that. A task
      without a path has one now, if there are writes: the one given, or the empty one if it had writes. */
  ghost predicate PutWritesIsRight(s: Store, op: PutWrites, now: string, s': Store) {
    var task := (op.key, op.task);
    && Grows(s, s') && Holds(s', op) && s'.checkpoints == s.checkpoints
    && (forall k :: k in s'.writes && k !in s.writes ==>
          s'.writes[k].createdAt == now && exists i: nat :: i < |op.writes| && KeyOf(op, i) == k)
    && s'.paths ==
       if task in s.paths || op.writes == [] then s.paths
       else s.paths[task := if HasWrites(s, op.key, op.task) || op.path.None? then "" else op.path.value]
  }

  /** Which rows are new. */
  lemma {:induction false} NewRowsAre(s: Store, rows: seq<Store>, op: PutWrites, n: nat, now: string, k: WriteKey)
    requires n <= |op.writes| == |rows| && (forall i :: 0 <= i < |rows| ==> rows[i] == s)
    requires NewRows(rows, op, n, now).Ok?
    ensures (exists row :: row in NewRows(rows, op, n, now).value && row.0 == k) <==>
      k !in s.writes && exists i: nat :: i < n && KeyOf(op, i) == k
    ensures forall row :: row in NewRows(rows, op, n, now).value ==> row.1.createdAt == now
  {
    if n > 0 {
      NewRowsAre(s, rows, op, n - 1, now, k);
      var before, after := NewRows(rows, op, n - 1, now).value, NewRows(rows, op, n, now).value;
      if exists i: nat :: i < n && KeyOf(op, i) == k {
        var i: nat :| i < n && KeyOf(op, i) == k;
        assert i == n - 1 || (i < n - 1 && KeyOf(op, i) == k);
      }
      if KeyOf(op, n - 1) !in s.writes {
        assert after[|before|].0 == KeyOf(op, n - 1);
      }
    }
  }

  lemma {:induction false} NewRowsOkIff(s: Store, rows: seq<Store>, op: PutWrites, n: nat, now: string)
    requires n <= |op.writes| == |rows| && (forall i :: 0 <= i < |rows| ==> rows[i] == s)
    ensures NewRows(rows, op, n, now).Ok? <==>
      forall i: nat :: i < n ==>
        && !InheritedMember(op.writes[i].channel)
        && (KeyOf(op, i) in s.writes ==> SameContent(s.writes[KeyOf(op, i)], op.writes[i]))
  {
    if n > 0 { NewRowsOkIff(s, rows, op, n - 1, now); }
  }

  predicate DistinctKeys(rows: seq<(WriteKey, WriteRow)>) {
    forall i, j :: 0 <= i < j < |rows| ==> rows[i].0 != rows[j].0
  }

  predicate NoRepeat(s: Store, op: PutWrites, n: nat)
    requires n <= |op.writes|
  {
    forall i: nat, j: nat :: i < j < n && KeyOf(op, i) == KeyOf(op, j) ==> KeyOf(op, i) in s.writes
  }

  lemma {:induction false} NewRowsDistinctIff(s: Store, rows: seq<Store>, op: PutWrites, n: nat, now: string)
    requires n <= |op.writes| == |rows| && (forall i :: 0 <= i < |rows| ==> rows[i] == s)
    requires NewRows(rows, op, n, now).Ok?
    ensures DistinctKeys(NewRows(rows, op, n, now).value) <==> NoRepeat(s, op, n)
  {
    if n > 0 {
      var before, after, key := NewRows(rows, op, n - 1, now).value, NewRows(rows, op, n, now).value, KeyOf(op, n - 1);
      NewRowsDistinctIff(s, rows, op, n - 1, now);
      NewRowsAre(s, rows, op, n - 1, now, key);
      if key !in s.writes { DistinctWithOne(before, after[|before|]); }
    }
  }

  lemma DistinctWithOne(rows: seq<(WriteKey, WriteRow)>, row: (WriteKey, WriteRow))
    ensures DistinctKeys(rows + [row]) <==> DistinctKeys(rows) && !exists other :: other in rows && other.0 == row.0
  {
    var all := rows + [row];
    if DistinctKeys(all) {
      forall i, j | 0 <= i < j < |rows| ensures rows[i].0 != rows[j].0 {
        assert all[i] == rows[i] && all[j] == rows[j];
      }
      forall other | other in rows ensures other.0 != row.0 {
        var i :| 0 <= i < |rows| && rows[i] == other;
        assert all[i] == other && all[|rows|] == row;
      }
    }
  }

  lemma NoRepeatIff(s: Store, op: PutWrites)
    ensures NoRepeat(s, op, |op.writes|) <==>
      forall i: nat, j: nat :: i < j < |op.writes| && op.writes[i].channel == op.writes[j].channel ==>
        op.writes[i].channel in RESERVED ==> KeyOf(op, i) in s.writes
  {
    forall i: nat, j: nat | i < j < |op.writes|
      ensures KeyOf(op, i) == KeyOf(op, j) <==>
        op.writes[i].channel == op.writes[j].channel && op.writes[i].channel in RESERVED
    {
      RowIsShared(op, i, op, j);
    }
  }

  lemma NewRowsNotStored(s: Store, rows: seq<Store>, op: PutWrites, now: string)
    requires |op.writes| == |rows| && (forall i :: 0 <= i < |rows| ==> rows[i] == s)
    requires NewRows(rows, op, |op.writes|, now).Ok?
    ensures forall row :: row in NewRows(rows, op, |op.writes|, now).value ==> row.0 !in s.writes
  {
    forall row | row in NewRows(rows, op, |op.writes|, now).value ensures row.0 !in s.writes {
      NewRowsAre(s, rows, op, |op.writes|, now, row.0);
    }
  }

  /** The batch of an operation alone finds the tables as its queries did. */
  lemma BatchFitsIff(s: Store, op: PutWrites, now: string)
    requires Plan(AtOnce(s, op), op, now).Ok?
    ensures Insertable(s, op, Plan(AtOnce(s, op), op, now).value) <==> NoRepeat(s, op, |op.writes|)
  {
    NewRowsDistinctIff(s, AtOnce(s, op).rows, op, |op.writes|, now);
    NewRowsNotStored(s, AtOnce(s, op).rows, op, now);
  }

  /** An operation alone gets as far as its batch. */
  lemma PlanSucceedsIff(s: Store, op: PutWrites, now: string)
    ensures Plan(AtOnce(s, op), op, now).Ok? <==>
      && WellFormed(op) && Sized(op) && PathFits(s, op)
      && forall i: nat :: i < |op.writes| ==>
           && !InheritedMember(op.writes[i].channel)
           && (KeyOf(op, i) in s.writes ==> SameContent(s.writes[KeyOf(op, i)], op.writes[i]))
  {
    NewRowsOkIff(s, AtOnce(s, op).rows, op, |op.writes|, now);
  }

  /** Alone, `putWrites` succeeds exactly when this holds. */
  lemma PutWritesSucceedsIff(s: Store, op: PutWrites, now: string)
    ensures ExecuteWrites(s, op, now).Ok? <==> CanPutWrites(s, op)
  {
    PlanSucceedsIff(s, op, now);
    NoRepeatIff(s, op);
    if Plan(AtOnce(s, op), op, now).Ok? { BatchFitsIff(s, op, now); }
  }

  lemma {:induction false} NewRowsRefusal(rows: seq<Store>, op: PutWrites, n: nat, now: string)
    requires n <= |op.writes| && n <= |rows| && NewRows(rows, op, n, now).Err?
    requires forall i :: 0 <= i < |op.writes| ==> !InheritedMember(op.writes[i].channel)
    ensures NewRows(rows, op, n, now) == Err(Conflicting)
  {
    if NewRows(rows, op, n - 1, now).Err? { NewRowsRefusal(rows, op, n - 1, now); }
  }

  /** Otherwise it is refused for the first reason there is: a malformed operation, a value too large, another path or
      other content, and last two writes to one reserved channel. */
  lemma PutWritesRefusal(s: Store, op: PutWrites, now: string)
    requires forall i :: 0 <= i < |op.writes| ==> !InheritedMember(op.writes[i].channel)
    requires !CanPutWrites(s, op)
    ensures ExecuteWrites(s, op, now) ==
      if !WellFormed(op) then Err(StateInvalid)
      else if !Sized(op) then Err(TooLarge)
      else if !PathFits(s, op) || (exists i: nat :: i < |op.writes| && KeyOf(op, i) in s.writes &&
                                     !SameContent(s.writes[KeyOf(op, i)], op.writes[i])) then Err(Conflicting)
      else Err(PersistenceFailed)
  {
    PutWritesSucceedsIff(s, op, now);
    if WellFormed(op) && Sized(op) && PathFits(s, op) {
      NewRowsOkIff(s, AtOnce(s, op).rows, op, |op.writes|, now);
      if NewRows(AtOnce(s, op).rows, op, |op.writes|, now).Err? {
        NewRowsRefusal(AtOnce(s, op).rows, op, |op.writes|, now);
      }
    }
  }

  /** Then it stores what it should. */
  lemma PutWritesStores(s: Store, op: PutWrites, now: string)
    requires ExecuteWrites(s, op, now).Ok?
    ensures PutWritesIsRight(s, op, now, ExecuteWrites(s, op, now).value)
  {
    CommitGrows(s, op, Plan(AtOnce(s, op), op, now).value);
    WritesAreHeld(s, AtOnce(s, op), op, now);
    var after := ExecuteWrites(s, op, now).value;
    forall k | k in after.writes && k !in s.writes
      ensures after.writes[k].createdAt == now && exists i: nat :: i < |op.writes| && KeyOf(op, i) == k
    {
      StoredIsNew(s, op, now, k);
    }
  }

  lemma StoredIsNew(s: Store, op: PutWrites, now: string, k: WriteKey)
    requires ExecuteWrites(s, op, now).Ok? && k in ExecuteWrites(s, op, now).value.writes && k !in s.writes
    ensures ExecuteWrites(s, op, now).value.writes[k].createdAt == now
    ensures exists i: nat :: i < |op.writes| && KeyOf(op, i) == k
  {
    var rows := Plan(AtOnce(s, op), op, now).value.rows;
    NewRowsAre(s, AtOnce(s, op).rows, op, |op.writes|, now, k);
    WithRowsAdds(s.writes, rows);
    var i :| 0 <= i < |rows| && rows[i].0 == k;
    assert rows[i] in rows;
  }
}
