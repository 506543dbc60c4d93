/** The checkpoint store as an object: the operations of `D1LangGraphCheckpointStore.execute`
    (lib/langgraph-checkpoints.ts:30-58), query by query. When the store is `shared`, any other operation, old
    or new, may read or commit between two queries. The store keeps the run it is in. */
module CheckpointStore {
  import opened Options
  import opened Checkpoints
  import opened PendingWrites
  import opened WriteRows

  /** The store was in this state at some time since `from`. */
  ghost predicate SeenSince(run: seq<Store>, from: nat, s: Store) {
    exists i: nat :: from <= i < |run| && run[i] == s
  }

  ghost predicate AllSeenSince(run: seq<Store>, from: nat, rows: seq<Store>) {
    forall n :: 0 <= n < |rows| ==> SeenSince(run, from, rows[n])
  }

  lemma SeenSinceStays(run: seq<Store>, run': seq<Store>, from: nat, rows: seq<Store>)
    requires AllSeenSince(run, from, rows) && run <= run'
    ensures AllSeenSince(run', from, rows)
  {
    forall n | 0 <= n < |rows| ensures SeenSince(run', from, rows[n]) {
      assert SeenSince(run, from, rows[n]);
      var i: nat :| from <= i < |run| && run[i] == rows[n];
      assert run'[i] == rows[n];
    }
  }

  lemma EarlierStays(run: seq<Store>, run': seq<Store>, k: nat, s: Store)
    requires Earlier(run, k, s) && run <= run'
    ensures Earlier(run', k, s)
  {
    var i: nat :| i <= k < |run| && run[i] == s;
    assert run'[i] == s;
  }

  lemma ReadEarlierStays(run: seq<Store>, run': seq<Store>, k: nat, action: Action)
    requires ReadEarlier(run, k, action) && run <= run'
    ensures ReadEarlier(run', k, action)
  {
    match action
    case DoPut(_, read, _) => EarlierStays(run, run', k, read);
    case DoWrites(_, found, _) =>
      EarlierStays(run, run', k, found.path);
      EarlierStays(run, run', k, found.legacy);
      forall n | 0 <= n < |found.rows| ensures Earlier(run', k, found.rows[n]) {
        EarlierStays(run, run', k, found.rows[n]);
      }
    case DoLegacyWrites(_, rows, _) =>
      forall n | 0 <= n < |rows| ensures Earlier(run', k, rows[n]) { EarlierStays(run, run', k, rows[n]); }
  }

  lemma ExtendRun(run: seq<Store>, actions: seq<Action>, action: Action)
    requires IsRun(run, actions) && Complete(action) && ReadEarlier(run, |actions|, action)
    ensures IsRun(run + [After(run[|actions|], action)], actions + [action])
  {
    var run', actions' := run + [After(run[|actions|], action)], actions + [action];
    forall k: nat | k < |actions'| ensures IsStep(run', actions', k) {
      if k < |actions| {
        assert IsStep(run, actions, k);
        ReadEarlierStays(run, run', k, actions[k]);
      } else {
        ReadEarlierStays(run, run', k, action);
      }
    }
  }

  function PathToInsert(found: Reads, op: PutWrites): Result<Option<string>> {
    if PathConflicts(found, op) then Err(Conflicting)
    else Ok(if (op.key, op.task) !in found.path.paths && op.writes != [] then Some(ChosenPath(found, op)) else None)
  }

  lemma PlanMade(
      found: Reads, op: PutWrites, now: string, path: Option<string>, inserts: Result<seq<(WriteKey, WriteRow)>>)
    requires |found.rows| == |op.writes| && WellFormed(op) && Sized(op)
    requires PathToInsert(Reads(found.path, found.legacy, []), op) == Ok(path)
    requires inserts == NewRows(found.rows, op, |op.writes|, now)
    ensures Plan(found, op, now) == if inserts.Err? then Err(inserts.error) else Ok(Batch(path, inserts.value))
  {}

  /** After an error no more rows are looked for; what they would have been does not matter. */
  lemma Filled(run: seq<Store>, start: nat, rows: seq<Store>, s: Store, op: PutWrites, n: nat, now: string)
      returns (all: seq<Store>)
    requires 0 < n == |rows| <= |op.writes| && rows[n - 1] == s
    requires AllSeenSince(run, start, rows) && NewRows(rows, op, n, now).Err?
    ensures |all| == |op.writes| && AllSeenSince(run, start, all)
    ensures rows <= all && forall i :: n <= i < |all| ==> all[i] == s
    ensures NewRows(all, op, |op.writes|, now) == NewRows(rows, op, n, now)
  {
    all := rows + seq(|op.writes| - n, _ => s);
    forall i | 0 <= i < |all| ensures SeenSince(run, start, all[i]) {
      assert SeenSince(run, start, rows[if i < n then i else n - 1]);
    }
    NewRowsPrefix(rows, all, op, n, now);
    NewRowsFails(all, op, n, |op.writes|, now);
  }

  /** The texts of a checkpoint are within the limits. */
  predicate Storable(put: Put) {
    && |put.key.id| <= MAX_CHECKPOINT_ID && Bytes(put.content.checkpoint) <= MAX_OPERATION_BYTES
    && Bytes(put.content.metadata) <= MAX_OPERATION_BYTES && Bytes(put.content.config) <= MAX_OPERATION_BYTES
  }

  class D1LangGraphCheckpointStore {
    const shared: bool
    var store: Store
    /** What other operations have read so far. */
    var snapshots: set<Store>
    ghost var run: seq<Store>
    ghost var actions: seq<Action>

    constructor (shared: bool)
      ensures Valid() && store == Empty && this.shared == shared
    {
      this.shared := shared;
      store, snapshots, run, actions := Empty, {}, [Empty], [];
    }

    ghost predicate Valid() reads this {
      && IsRun(run, actions) && run[|actions|] == store
      && forall s :: s in snapshots ==> Earlier(run, |actions|, s)
    }

    /** Everything the action read is known to the others. */
    predicate Known(action: Action) reads this {
      match action
      case DoPut(_, read, _) => read in snapshots
      case DoWrites(_, found, _) =>
        found.path in snapshots && found.legacy in snapshots && forall s :: s in found.rows ==> s in snapshots
      case DoLegacyWrites(_, rows, _) => forall s :: s in rows ==> s in snapshots
    }

    lemma KnownIsEarlier(action: Action)
      requires Valid() && Known(action)
      ensures ReadEarlier(run, |actions|, action)
    {}

    /** An operation commits, or is refused. */
    method Record(ghost action: Action, after: Store)
      requires Valid() && Complete(action) && ReadEarlier(run, |actions|, action) && after == After(store, action)
      modifies this`store, this`run, this`actions
      ensures Valid() && store == after && run == old(run) + [after] && actions == old(actions) + [action]
    {
      ghost var before := run;
      ExtendRun(run, actions, action);
      store := after;
      run, actions := run + [after], actions + [action];
      forall s | s in snapshots ensures Earlier(run, |actions|, s) {
        var i: nat :| i < |before| && before[i] == s;
        assert run[i] == s;
      }
    }

    /** What other operations do before this one's next query. Nothing, when the store is not shared. */
    method Interfere()
      requires Valid()
      modifies this
      ensures Valid() && old(run) <= run
      ensures !shared ==> store == old(store) && run == old(run) && actions == old(actions)
    {
      if shared {
        var rounds: nat :| true;
        for n := 0 to rounds
          invariant Valid() && old(run) <= run
        {
          var action: Action := *;
          assert run[|actions|] == store;
          snapshots := snapshots + {store};
          if Complete(action) && Known(action) {
            KnownIsEarlier(action);
            Record(action, After(store, action));
          }
        }
      }
    }

    /** One look at the store. */
    method Query() returns (s: Store)
      requires Valid()
      modifies this
      ensures Valid() && old(run) <= run && s == store
      ensures !shared ==> store == old(store) && run == old(run) && actions == old(actions)
    {
      Interfere();
      s := store;
    }

    /** A `put` that returns has its content stored under its key, by itself or by an earlier one; a `put` that
        throws leaves the store as its insert found it. Either way it is a step of the run, its query within the
        call. Alone, it returns exactly when no other content is stored under the key. */
    method PutCheckpoint(put: Put, now: string) returns (r: Result<CheckpointKey>, ghost read: Store)
      requires Valid()
      modifies this
      ensures Valid() && old(run) < run && SeenSince(run, |old(run)| - 1, read)
      ensures actions[|actions| - 1] == DoPut(put, read, now)
      ensures r.Ok? ==>
        r.value == put.key && put.key in store.checkpoints && store.checkpoints[put.key].content == put.content
      ensures r.Err? ==> store == run[|actions| - 1]
      ensures !shared ==> run == old(run) + [store] && read == old(store)
      ensures !shared && r.Ok? ==>
        var row := CheckpointRow(put.parent, put.content, now);
        store == old(store) || store == old(store).(checkpoints := old(store).checkpoints[put.key := row])
      ensures !shared ==>
        (r == Err(Conflicting) <==>
          Storable(put) && put.key in old(store).checkpoints && old(store).checkpoints[put.key].content != put.content)
      ensures !shared ==> (r == Err(StateInvalid) || r == Err(TooLarge) <==> !Storable(put))
      ensures r == Err(StateInvalid) <==> |put.key.id| > MAX_CHECKPOINT_ID
      ensures r.Err? ==>
        r.error in {StateInvalid, TooLarge, Conflicting} || (shared && r.error == PersistenceFailed)
    {
      var existing := Query();
      read := existing;
      ghost var at := |actions|;
      Interfere();
      var inserted := store;
      if |put.key.id| > MAX_CHECKPOINT_ID {
        r := Err(StateInvalid);
      } else if Bytes(put.content.checkpoint) > MAX_OPERATION_BYTES ||
                Bytes(put.content.metadata) > MAX_OPERATION_BYTES ||
                Bytes(put.content.config) > MAX_OPERATION_BYTES {
        r := Err(TooLarge);
      } else if put.key in existing.checkpoints {
        r := if existing.checkpoints[put.key].content != put.content then Err(Conflicting) else Ok(put.key);
      } else if put.key in store.checkpoints {
        r := Err(PersistenceFailed);
      } else {
        inserted := store.(checkpoints := store.checkpoints[put.key := CheckpointRow(put.parent, put.content, now)]);
        r := Ok(put.key);
      }
      assert run[at] == read;
      EarlierGrows(run, actions, |actions|, read);
      Record(DoPut(put, read, now), inserted);
      assert run[at] == read;
    }

    /** The last step of the run is this operation, its queries found what the store was at times since `start`, and
        its batch committed all rows or, on any error, none. */
    ghost predicate DidWrites(op: PutWrites, found: Reads, now: string, start: nat, r: Result<()>)
      requires |found.rows| == |op.writes|
      reads this
    {
      && 0 < |actions| < |run| && start < |run| && actions[|actions| - 1] == DoWrites(op, found, now)
      && SeenSince(run, start, found.path) && SeenSince(run, start, found.legacy)
      && AllSeenSince(run, start, found.rows)
      && var before, outcome := run[|actions| - 1], CommitWrites(run[|actions| - 1], found, op, now);
         if r.Ok? then outcome == Ok(store) else outcome == Err(r.error) && store == before
    }

    /** The operation as a whole: its queries found what the store was at times within the call, and its batch
        commits all rows or, on any error, none. Alone, it is the operation at one instant. */
    method PutPendingWrites(op: PutWrites, now: string) returns (r: Result<()>, ghost found: Reads)
      requires Valid()
      modifies this
      ensures Valid() && old(run) < run && |found.rows| == |op.writes|
      ensures DidWrites(op, found, now, |old(run)| - 1, r)
      ensures !shared ==> run == old(run) + [store] && found == AtOnce(old(store), op)
      ensures !shared ==> (r.Ok? <==> CanPutWrites(old(store), op))
      ensures !shared ==> if r.Ok? then PutWritesIsRight(old(store), op, now, store) else store == old(store)
    {
      r, found := TryPutWrites(op, now);
      if !shared {
        assert run[|actions| - 1] == old(store);
        PutWritesSucceedsIff(old(store), op, now);
        if r.Ok? { PutWritesStores(old(store), op, now); }
      }
    }

    method TryPutWrites(op: PutWrites, now: string) returns (r: Result<()>, ghost found: Reads)
      requires Valid()
      modifies this
      ensures Valid() && old(run) < run && |found.rows| == |op.writes|
      ensures DidWrites(op, found, now, |old(run)| - 1, r)
      ensures !shared ==> run == old(run) + [store] && found == AtOnce(old(store), op)
    {
      ghost var start := |run| - 1;
      if !WellFormed(op) || !Sized(op) {
        found := AtOnce(store, op);
        assert run[|actions|] == store;
        r := Finish(op, found, now, start, Err(if !WellFormed(op) then StateInvalid else TooLarge));
        return;
      }
      ghost var atPath, atLegacy;
      var path;
      path, atPath, atLegacy := ChoosePath(op);
      if path.Err? {
        found := Reads(atPath, atLegacy, AtOnce(store, op).rows);
        assert run[|actions|] == store;
        r := Finish(op, found, now, start, Err(path.error));
        return;
      }
      r, found := InsertRows(op, now, path.value, atPath, atLegacy, start);
    }

    /** The queries for the rows, then the batch. */
    method InsertRows(
        op: PutWrites, now: string, path: Option<string>, ghost atPath: Store, ghost atLegacy: Store, ghost start: nat)
        returns (r: Result<()>, ghost found: Reads)
      requires Valid() && start < |run| && WellFormed(op) && Sized(op)
      requires PathToInsert(Reads(atPath, atLegacy, []), op) == Ok(path)
      requires AllSeenSince(run, start, [atPath]) && AllSeenSince(run, start, [atLegacy])
      modifies this
      ensures Valid() && old(run) < run && |found.rows| == |op.writes|
      ensures found.path == atPath && found.legacy == atLegacy
      ensures DidWrites(op, found, now, start, r)
      ensures !shared ==> run == old(run) + [store] && found.rows == AtOnce(old(store), op).rows
    {
      ghost var early := run;
      ghost var rows;
      var inserts;
      inserts, rows := CollectInserts(op, now, start);
      found := Reads(atPath, atLegacy, rows);
      ghost var late := run;
      var outcome := TryBatch(op, path, inserts);
      SeenSinceStays(early, run, start, [atPath]);
      SeenSinceStays(early, run, start, [atLegacy]);
      SeenSinceStays(late, run, start, rows);
      PlanMade(found, op, now, path, inserts);
      r := Finish(op, found, now, start, outcome);
    }

    /** The batch, unless a query already failed the operation. */
    method TryBatch(op: PutWrites, path: Option<string>, inserts: Result<seq<(WriteKey, WriteRow)>>)
        returns (outcome: Result<Store>)
      requires Valid()
      modifies this
      ensures Valid() && old(run) <= run
      ensures !shared ==> store == old(store) && run == old(run) && actions == old(actions)
      ensures outcome ==
        if inserts.Err? then Err(inserts.error) else Commit(store, op, Batch(path, inserts.value))
    {
      if inserts.Err? { return Err(inserts.error); }
      Interfere();
      outcome := Commit(store, op, Batch(path, inserts.value));
    }

    /** The path row to insert, if any, or a conflict (lib/langgraph-checkpoints.ts:42-48). */
    method ChoosePath(op: PutWrites) returns (r: Result<Option<string>>, ghost atPath: Store, ghost atLegacy: Store)
      requires Valid()
      modifies this
      ensures Valid() && old(run) <= run
      ensures AllSeenSince(run, |old(run)| - 1, [atPath]) && AllSeenSince(run, |old(run)| - 1, [atLegacy])
      ensures r == PathToInsert(Reads(atPath, atLegacy, []), op)
      ensures !shared ==>
        run == old(run) && actions == old(actions) && store == old(store) && atPath == atLegacy == old(store)
    {
      var task := (op.key, op.task);
      var s := Query();
      atPath := s;
      ghost var at := |actions|;
      var existingPath := if task in s.paths then Some(s.paths[task]) else None;
      s := Query();
      atLegacy := s;
      assert run[at] == atPath && run[|actions|] == atLegacy;
      var legacyWrite := existingPath.None? && HasWrites(s, op.key, op.task);
      var given := if op.path.Some? then op.path.value else "";
      var taskPath := if legacyWrite || existingPath == Some("") then "" else given;
      if existingPath.Some? && existingPath.value != taskPath { return Err(Conflicting), atPath, atLegacy; }
      r := Ok(if existingPath.None? && op.writes != [] then Some(taskPath) else None);
    }

    /** The end of a `putWrites`. */
    method Finish(op: PutWrites, ghost found: Reads, now: string, ghost start: nat, outcome: Result<Store>)
        returns (r: Result<()>)
      requires Valid() && |found.rows| == |op.writes| && start < |run|
      requires AllSeenSince(run, start, [found.path]) && AllSeenSince(run, start, [found.legacy]) &&
        AllSeenSince(run, start, found.rows)
      requires outcome == CommitWrites(store, found, op, now)
      modifies this`store, this`run, this`actions
      ensures Valid() && run == old(run) + [store] && actions == old(actions) + [DoWrites(op, found, now)]
      ensures r.Ok? ==> CommitWrites(old(store), found, op, now) == Ok(store)
      ensures r.Err? ==> CommitWrites(old(store), found, op, now) == Err(r.error) && store == old(store)
      ensures SeenSince(run, start, found.path) && SeenSince(run, start, found.legacy) &&
        AllSeenSince(run, start, found.rows)
    {
      ghost var before := run;
      assert SeenSince(run, start, [found.path][0]) && SeenSince(run, start, [found.legacy][0]);
      forall n | 0 <= n < |found.rows| ensures Earlier(run, |actions|, found.rows[n]) {
        assert SeenSince(run, start, found.rows[n]);
      }
      Record(DoWrites(op, found, now), if outcome.Ok? then outcome.value else store);
      r := if outcome.Ok? then Ok(()) else Err(outcome.error);
      SeenSinceStays(before, run, start, [found.path]);
      SeenSinceStays(before, run, start, [found.legacy]);
      assert SeenSince(run, start, [found.path][0]) && SeenSince(run, start, [found.legacy][0]);
      SeenSinceStays(before, run, start, found.rows);
    }

    /** The loop over the writes (lib/langgraph-checkpoints.ts:49-53): exactly the rows that each query, at its own
        time, did not find, or the first error. */
    method CollectInserts(op: PutWrites, now: string, ghost start: nat)
        returns (r: Result<seq<(WriteKey, WriteRow)>>, ghost rows: seq<Store>)
      requires Valid() && start < |run|
      modifies this
      ensures Valid() && old(run) <= run && |rows| == |op.writes|
      ensures AllSeenSince(run, start, rows)
      ensures r == NewRows(rows, op, |op.writes|, now)
      ensures !shared ==>
        run == old(run) && actions == old(actions) && store == old(store) && rows == AtOnce(old(store), op).rows
    {
      var inserts: seq<(WriteKey, WriteRow)> := [];
      rows := [];
      for i := 0 to |op.writes|
        invariant Valid() && old(run) <= run && |rows| == i
        invariant AllSeenSince(run, start, rows)
        invariant NewRows(rows, op, i, now) == Ok(inserts)
        invariant !shared ==>
          && run == old(run) && actions == old(actions) && store == old(store)
          && forall n :: 0 <= n < i ==> rows[n] == store
      {
        ghost var before, earlier := run, rows;
        var key, write := KeyOf(op, i), op.writes[i];
        var s := Query();
        rows := rows + [s];
        assert AllSeenSince(run, start, rows) by {
          SeenSinceStays(before, run, start, earlier);
          assert run[|actions|] == s;
        }
        NewRowsPrefix(earlier, rows, op, i, now);
        if InheritedMember(write.channel) || (key in s.writes && !SameContent(s.writes[key], write)) {
          r := Err(if InheritedMember(write.channel) then PersistenceFailed else Conflicting);
          rows := Filled(run, start, rows, s, op, i + 1, now);
          return;
        }
        if key !in s.writes {
          inserts := inserts + [(key, WriteRow(write.channel, write.value, now))];
        }
      }
      r := Ok(inserts);
    }

    /** The pending writes of a checkpoint, in the query's order. */
    method Tuple(key: CheckpointKey) returns (pending: seq<Pending>)
      ensures exists list :: IsListing(store, key, list) && pending == PendingOf(store, list)
    {
      var todo := set k | k in store.writes && k.0 == key;
      var list: seq<WriteKey> := [];
      while todo != {}
        invariant Ordered(store, list)
        invariant forall k :: k in list ==> k in store.writes && k.0 == key && k !in todo
        invariant forall k :: k in store.writes && k.0 == key ==> k in todo || k in list
        invariant forall k :: k in todo ==> k in store.writes && k.0 == key
        decreases todo
      {
        var k :| k in todo;
        todo := todo - {k};
        InsertedIsOrdered(store, key, list, k);
        list := Inserted(store, list, k);
      }
      pending := PendingOf(store, list);
    }
  }
}
