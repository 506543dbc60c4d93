/** The order in which a checkpoint's pending writes are read back (`tuple`, lib/langgraph-checkpoints.ts:30). */
module PendingWrites {
  import opened Options
  import opened Checkpoints

  // ---- ORDER BY COALESCE(task_path, ''), task_id, write_index, texts compared binary ----

  predicate TextLess(a: string, b: string)
    decreases |a|
  {
    b != [] && (a == [] || a[0] < b[0] || (a[0] == b[0] && TextLess(a[1..], b[1..])))
  }

  lemma {:induction false} TextLessTrichotomy(a: string, b: string)
    ensures TextLess(a, b) || TextLess(b, a) || a == b
    ensures !(TextLess(a, b) && TextLess(b, a))
    ensures TextLess(a, b) ==> a != b
    decreases |a|
  {
    if a != [] && b != [] {
      TextLessTrichotomy(a[1..], b[1..]);
      if a[0] == b[0] && a[1..] == b[1..] {
        assert a == [a[0]] + a[1..] == b;
      }
    }
  }

  lemma {:induction false} TextLessTransitive(a: string, b: string, c: string)
    requires TextLess(a, b) && TextLess(b, c)
    ensures TextLess(a, c)
    decreases |a|
  {
    if a != [] && a[0] == b[0] == c[0] {
      TextLessTransitive(a[1..], b[1..], c[1..]);
    }
  }

  /** A stored write's place in the order. */
  datatype Place = Place(path: string, task: string, index: int)

  predicate Before(a: Place, b: Place) {
    TextLess(a.path, b.path) ||
    (a.path == b.path && (TextLess(a.task, b.task) || (a.task == b.task && a.index < b.index)))
  }

  lemma BeforeTrichotomy(a: Place, b: Place)
    ensures Before(a, b) || Before(b, a) || a == b
    ensures !(Before(a, b) && Before(b, a))
  {
    TextLessTrichotomy(a.path, b.path);
    TextLessTrichotomy(a.task, b.task);
  }

  lemma BeforeTransitive(a: Place, b: Place, c: Place)
    requires Before(a, b) && Before(b, c)
    ensures Before(a, c)
  {
    TextLessTrichotomy(a.path, b.path);
    TextLessTrichotomy(b.path, c.path);
    if TextLess(a.path, b.path) && TextLess(b.path, c.path) { TextLessTransitive(a.path, b.path, c.path); }
    if TextLess(a.task, b.task) && TextLess(b.task, c.task) { TextLessTransitive(a.task, b.task, c.task); }
  }

  function PlaceOf(s: Store, k: WriteKey): Place {
    Place(EffectivePath(s, k.0, k.1), k.1, k.2)
  }

  predicate Ordered(s: Store, list: seq<WriteKey>) {
    forall i, j :: 0 <= i < j < |list| ==> Before(PlaceOf(s, list[i]), PlaceOf(s, list[j]))
  }

  /** The rows of a checkpoint in the query's order. */
  predicate IsListing(s: Store, key: CheckpointKey, list: seq<WriteKey>) {
    && Ordered(s, list)
    && (forall k :: k in list ==> k in s.writes && k.0 == key)
    && (forall k :: k in s.writes && k.0 == key ==> k in list)
  }

  /** One element of `pendingWrites`: task, channel, value. */
  datatype Pending = Pending(task: string, channel: string, value: string)

  function PendingOf(s: Store, list: seq<WriteKey>): seq<Pending>
    requires forall k :: k in list ==> k in s.writes
  {
    seq(|list|, i requires 0 <= i < |list| =>
      assert list[i] in list;
      Pending(list[i].1, s.writes[list[i]].channel, s.writes[list[i]].value))
  }

  // ---- an earlier listing is a subsequence of every later one ----

  ghost predicate Subsequence<T>(a: seq<T>, b: seq<T>) {
    a == [] || (b != [] && ((a[0] == b[0] && Subsequence(a[1..], b[1..])) || Subsequence(a, b[1..])))
  }

  lemma {:induction false} OrderedSubset(s: Store, a: seq<WriteKey>, b: seq<WriteKey>)
    requires Ordered(s, a) && Ordered(s, b)
    requires forall k :: k in a ==> k in b
    ensures Subsequence(a, b)
    decreases |b|
  {
    if a != [] {
      assert a[0] in b;
      if a[0] == b[0] {
        forall k | k in a[1..] ensures k in b[1..] {
          var i :| 0 <= i < |a[1..]| && a[1..][i] == k;
          assert Before(PlaceOf(s, a[0]), PlaceOf(s, a[i + 1]));
          BeforeTrichotomy(PlaceOf(s, a[0]), PlaceOf(s, k));
          assert k in b && k != b[0];
        }
        OrderedSubset(s, a[1..], b[1..]);
      } else {
        forall k | k in a ensures k in b[1..] {
          if k == b[0] {
            var i :| 0 <= i < |a| && a[i] == k;
            var j :| 0 <= j < |b| && b[j] == a[0];
            assert Before(PlaceOf(s, a[0]), PlaceOf(s, a[i]));
            assert Before(PlaceOf(s, b[0]), PlaceOf(s, b[j]));
            BeforeTrichotomy(PlaceOf(s, a[0]), PlaceOf(s, k));
          }
        }
        OrderedSubset(s, a, b[1..]);
      }
    }
  }

  lemma {:induction false} PendingSubsequence(s: Store, s': Store, a: seq<WriteKey>, b: seq<WriteKey>)
    requires Subsequence(a, b) && Grows(s, s')
    requires (forall k :: k in a ==> k in s.writes) && (forall k :: k in b ==> k in s'.writes)
    ensures Subsequence(PendingOf(s, a), PendingOf(s', b))
    decreases |b|
  {
    if a != [] {
      assert PendingOf(s', b)[1..] == PendingOf(s', b[1..]);
      if a[0] == b[0] && Subsequence(a[1..], b[1..]) {
        PendingSubsequence(s, s', a[1..], b[1..]);
        assert PendingOf(s, a)[1..] == PendingOf(s, a[1..]);
      } else {
        PendingSubsequence(s, s', a, b[1..]);
      }
    }
  }

  // ---- a commit that moves a task past another task's write ----

  /** Write w of another task is after task `task` while that has no path, and before it under the new path. */
  predicate Passes(s: Store, key: CheckpointKey, task: string, path: string, w: WriteKey) {
    && w in s.writes && w.0 == key && w.1 != task
    && Before(Place("", task, 0), PlaceOf(s, w)) && Before(PlaceOf(s, w), Place(path, task, 0))
  }

  ghost predicate Overtakes(s: Store, action: Action, key: CheckpointKey)
    requires Complete(action)
  {
    && Moves(s, action) && action.op.key == key
    && exists w :: Passes(s, key, action.op.task, Plan(action.found, action.op, action.now).value.path.value, w)
  }

  ghost predicate Quiet(run: seq<Store>, actions: seq<Action>, k: nat, key: CheckpointKey)
    requires k < |actions| < |run|
  {
    Complete(actions[k]) && !Overtakes(run[k], actions[k], key)
  }

  /** A step gives no task with writes another effective path, except the one it moves. */
  lemma StepPaths(s: Store, action: Action, key: CheckpointKey, task: string)
    requires Complete(action) && HasWrites(s, key, task)
    ensures
      if Moves(s, action) && action.op.key == key && action.op.task == task then
        && EffectivePath(s, key, task) == ""
        && EffectivePath(After(s, action), key, task) ==
            Plan(action.found, action.op, action.now).value.path.value != ""
      else EffectivePath(After(s, action), key, task) == EffectivePath(s, key, task)
  {}

  /** Rows of different tasks are ordered by path and task alone. */
  lemma IndexIsIrrelevant(a: Place, b: Place, i: int, j: int)
    requires a.task != b.task
    ensures Before(a, b) <==> Before(a.(index := i), b.(index := j))
  {}

  lemma StepKeepsPair(s: Store, action: Action, key: CheckpointKey, x: WriteKey, y: WriteKey)
    requires Complete(action) && !Overtakes(s, action, key)
    requires x in s.writes && y in s.writes && x.0 == key && y.0 == key && Before(PlaceOf(s, x), PlaceOf(s, y))
    ensures Before(PlaceOf(After(s, action), x), PlaceOf(After(s, action), y))
  {
    var s' := After(s, action);
    StepPaths(s, action, key, x.1);
    StepPaths(s, action, key, y.1);
    if Moves(s, action) && action.op.key == key && x.1 != y.1 {
      var task := action.op.task;
      var path := Plan(action.found, action.op, action.now).value.path.value;
      if x.1 == task {
        IndexIsIrrelevant(PlaceOf(s, x), PlaceOf(s, y), 0, y.2);
        IndexIsIrrelevant(PlaceOf(s, y), PlaceOf(s', x), y.2, 0);
        BeforeTrichotomy(PlaceOf(s', x), PlaceOf(s', y));
        assert !Passes(s, key, task, path, y);
      } else if y.1 == task {
        assert PlaceOf(s, x).path == "";
        assert TextLess("", path);
      }
    }
  }

  /** Some rows of a checkpoint, in order. */
  predicate Lists(s: Store, key: CheckpointKey, a: seq<WriteKey>) {
    Ordered(s, a) && forall k :: k in a ==> k in s.writes && k.0 == key
  }

  lemma StepKeepsList(s: Store, action: Action, key: CheckpointKey, a: seq<WriteKey>)
    requires Complete(action) && !Overtakes(s, action, key) && Lists(s, key, a)
    ensures Lists(After(s, action), key, a)
  {
    StepGrows(s, action);
    forall m, n | 0 <= m < n < |a| ensures Before(PlaceOf(After(s, action), a[m]), PlaceOf(After(s, action), a[n])) {
      assert a[m] in a && a[n] in a;
      StepKeepsPair(s, action, key, a[m], a[n]);
    }
  }

  lemma RunKeepsList(run: seq<Store>, actions: seq<Action>, k: nat, key: CheckpointKey, a: seq<WriteKey>)
    requires IsRun(run, actions) && k < |actions| && Quiet(run, actions, k, key) && Lists(run[k], key, a)
    ensures Lists(run[k + 1], key, a)
  {
    assert IsStep(run, actions, k);
    StepKeepsList(run[k], actions[k], key, a);
  }

  /** The rows listed at time i are still in order at time j. */
  lemma {:induction false} ListKept(
      run: seq<Store>, actions: seq<Action>, i: nat, j: nat, key: CheckpointKey, a: seq<WriteKey>)
    requires IsRun(run, actions) && i <= j < |run| && Lists(run[i], key, a)
    requires forall k: nat :: i <= k < j ==> Quiet(run, actions, k, key)
    ensures Lists(run[j], key, a)
    decreases j
  {
    if i < j {
      var k := j - 1;
      ListKept(run, actions, i, k, key, a);
      assert Quiet(run, actions, k, key);
      RunKeepsList(run, actions, k, key, a);
    }
  }

  /** If no commit from i to j overtakes, the pending writes read at i are a subsequence of those read at j. */
  lemma StableBetween(
      run: seq<Store>, actions: seq<Action>, i: nat, j: nat, key: CheckpointKey, a: seq<WriteKey>, b: seq<WriteKey>)
    requires IsRun(run, actions) && i <= j < |run| && IsListing(run[i], key, a) && IsListing(run[j], key, b)
    requires forall k: nat :: i <= k < j ==> Quiet(run, actions, k, key)
    ensures Subsequence(PendingOf(run[i], a), PendingOf(run[j], b))
  {
    ListKept(run, actions, i, j, key, a);
    RunGrows(run, actions, i, j);
    OrderedSubset(run[j], a, b);
    PendingSubsequence(run[i], run[j], a, b);
  }

  // ---- and one that does is seen ----

  lemma {:induction false} SubsequenceKeepsPairs<T>(a: seq<T>, b: seq<T>, i: nat, j: nat) returns (m: nat, n: nat)
    requires Subsequence(a, b) && i < j < |a|
    ensures m < n < |b| && b[m] == a[i] && b[n] == a[j]
    decreases |b|
  {
    if a[0] == b[0] && Subsequence(a[1..], b[1..]) {
      if i == 0 {
        n := SubsequenceKeeps(a[1..], b[1..], j - 1);
        m, n := 0, n + 1;
      } else {
        m, n := SubsequenceKeepsPairs(a[1..], b[1..], i - 1, j - 1);
        m, n := m + 1, n + 1;
      }
    } else {
      m, n := SubsequenceKeepsPairs(a, b[1..], i, j);
      m, n := m + 1, n + 1;
    }
  }

  lemma {:induction false} SubsequenceKeeps<T>(a: seq<T>, b: seq<T>, i: nat) returns (m: nat)
    requires Subsequence(a, b) && i < |a|
    ensures m < |b| && b[m] == a[i]
    decreases |b|
  {
    if a[0] == b[0] && Subsequence(a[1..], b[1..]) {
      if i == 0 {
        m := 0;
      } else {
        m := SubsequenceKeeps(a[1..], b[1..], i - 1);
        m := m + 1;
      }
    } else {
      m := SubsequenceKeeps(a, b[1..], i);
      m := m + 1;
    }
  }

  /** In a list where every row of `task` is before every row of `other`, no subsequence has them the other way. */
  lemma TasksStayApart(s: Store, key: CheckpointKey, b: seq<WriteKey>, task: string, other: string, m: nat, n: nat)
    requires IsListing(s, key, b) && m < n < |b| && b[m].1 == task && b[n].1 == other && task != other
    ensures Before(Place(EffectivePath(s, key, task), task, 0), Place(EffectivePath(s, key, other), other, 0))
  {
    assert b[m] in b && b[n] in b;
    IndexIsIrrelevant(PlaceOf(s, b[m]), PlaceOf(s, b[n]), 0, 0);
  }

  /** The place of a task's rows, all of them at once. */
  function TaskPlace(s: Store, key: CheckpointKey, task: string): Place {
    Place(EffectivePath(s, key, task), task, 0)
  }

  /** Two tasks that change places are seen to. */
  lemma SwapIsSeen(
      s: Store, s': Store, key: CheckpointKey, a: seq<WriteKey>, b: seq<WriteKey>, task: string, other: string)
    requires IsListing(s, key, a) && IsListing(s', key, b)
    requires task != other && HasWrites(s, key, task) && HasWrites(s, key, other)
    requires Before(TaskPlace(s, key, task), TaskPlace(s, key, other))
    requires Before(TaskPlace(s', key, other), TaskPlace(s', key, task))
    ensures !Subsequence(PendingOf(s, a), PendingOf(s', b))
  {
    var i, j := FindPair(s, key, a, task, other);
    if Subsequence(PendingOf(s, a), PendingOf(s', b)) {
      var m, n := SubsequenceKeepsPairs(PendingOf(s, a), PendingOf(s', b), i, j);
      assert b[m].1 == task && b[n].1 == other;
      TasksStayApart(s', key, b, task, other, m, n);
      BeforeTrichotomy(TaskPlace(s', key, task), TaskPlace(s', key, other));
    }
  }

  lemma FindPair(s: Store, key: CheckpointKey, a: seq<WriteKey>, task: string, other: string)
      returns (i: nat, j: nat)
    requires IsListing(s, key, a)
    requires task != other && HasWrites(s, key, task) && HasWrites(s, key, other)
    requires Before(TaskPlace(s, key, task), TaskPlace(s, key, other))
    ensures i < j < |a| && a[i].1 == task && a[j].1 == other
  {
    var v :| v in s.writes && v.0 == key && v.1 == task;
    var w :| w in s.writes && w.0 == key && w.1 == other;
    assert v in a && w in a;
    i :| i < |a| && a[i] == v;
    j :| j < |a| && a[j] == w;
    if j < i {
      TasksStayApart(s, key, a, other, task, j, i);
      BeforeTrichotomy(TaskPlace(s, key, task), TaskPlace(s, key, other));
    }
  }

  lemma OvertakingReorders(s: Store, action: Action, key: CheckpointKey, a: seq<WriteKey>, b: seq<WriteKey>)
    requires Complete(action) && Overtakes(s, action, key)
    requires IsListing(s, key, a) && IsListing(After(s, action), key, b)
    ensures !Subsequence(PendingOf(s, a), PendingOf(After(s, action), b))
  {
    var task, other := OvertakingSwaps(s, action, key);
    SwapIsSeen(s, After(s, action), key, a, b, task, other);
  }

  lemma OvertakingSwaps(s: Store, action: Action, key: CheckpointKey) returns (task: string, other: string)
    requires Complete(action) && Overtakes(s, action, key)
    ensures task != other && HasWrites(s, key, task) && HasWrites(s, key, other)
    ensures Before(TaskPlace(s, key, task), TaskPlace(s, key, other))
    ensures Before(TaskPlace(After(s, action), key, other), TaskPlace(After(s, action), key, task))
  {
    var path := Plan(action.found, action.op, action.now).value.path.value;
    var w :| Passes(s, key, action.op.task, path, w);
    task, other := action.op.task, w.1;
    assert HasWrites(s, key, other);
    StepPaths(s, action, key, task);
    StepPaths(s, action, key, other);
    IndexIsIrrelevant(Place("", task, 0), PlaceOf(s, w), 0, 0);
    IndexIsIrrelevant(PlaceOf(s, w), Place(path, task, 0), 0, 0);
  }

  // ---- every checkpoint has a listing ----

  function Inserted(s: Store, list: seq<WriteKey>, k: WriteKey): seq<WriteKey> {
    if list == [] || Before(PlaceOf(s, k), PlaceOf(s, list[0])) then [k] + list
    else [list[0]] + Inserted(s, list[1..], k)
  }

  lemma {:induction false} InsertedIsOrdered(s: Store, key: CheckpointKey, list: seq<WriteKey>, k: WriteKey)
    requires Ordered(s, list) && k !in list && k.0 == key && forall l :: l in list ==> l.0 == key
    ensures Ordered(s, Inserted(s, list, k))
    ensures forall l :: l in Inserted(s, list, k) <==> l in list || l == k
    decreases |list|
  {
    if list == [] {
    } else if Before(PlaceOf(s, k), PlaceOf(s, list[0])) {
      forall j | 0 <= j < |list| ensures Before(PlaceOf(s, k), PlaceOf(s, list[j])) {
        if j > 0 { BeforeTransitive(PlaceOf(s, k), PlaceOf(s, list[0]), PlaceOf(s, list[j])); }
      }
      PutInFront(s, list, k);
    } else {
      var first, rest := list[0], Inserted(s, list[1..], k);
      InsertedIsOrdered(s, key, list[1..], k);
      assert first in list;
      BeforeTrichotomy(PlaceOf(s, k), PlaceOf(s, first));
      forall j | 0 <= j < |rest| ensures Before(PlaceOf(s, first), PlaceOf(s, rest[j])) {
        assert rest[j] in rest;
        if rest[j] != k { RestIsAfter(s, list, rest[j]); }
      }
      PutInFront(s, rest, first);
      assert list == [first] + list[1..];
    }
  }

  lemma PutInFront(s: Store, list: seq<WriteKey>, k: WriteKey)
    requires Ordered(s, list) && forall j :: 0 <= j < |list| ==> Before(PlaceOf(s, k), PlaceOf(s, list[j]))
    ensures Ordered(s, [k] + list)
  {
    var r := [k] + list;
    forall i, j | 0 <= i < j < |r| ensures Before(PlaceOf(s, r[i]), PlaceOf(s, r[j])) {
      assert r[j] == list[j - 1];
      if i > 0 { assert r[i] == list[i - 1]; }
    }
  }

  lemma RestIsAfter(s: Store, list: seq<WriteKey>, l: WriteKey)
    requires Ordered(s, list) && list != [] && l in list[1..]
    ensures Before(PlaceOf(s, list[0]), PlaceOf(s, l))
  {
    var n :| 0 <= n < |list[1..]| && list[1..][n] == l;
    assert list[n + 1] == l;
  }

  lemma {:induction false} ListingExists(s: Store, key: CheckpointKey, todo: set<WriteKey>)
      returns (list: seq<WriteKey>)
    requires forall k :: k in todo ==> k.0 == key
    ensures Ordered(s, list) && forall k :: k in list <==> k in todo
    decreases todo
  {
    list := [];
    if k :| k in todo {
      var rest := ListingExists(s, key, todo - {k});
      InsertedIsOrdered(s, key, rest, k);
      list := Inserted(s, rest, k);
    }
  }

  lemma Listing(s: Store, key: CheckpointKey) returns (list: seq<WriteKey>)
    ensures IsListing(s, key, list)
  {
    list := ListingExists(s, key, set k | k in s.writes && k.0 == key);
  }

  // ---- the order of pending writes ----

  /** The pending writes once read for a checkpoint are a subsequence of those read at any later time. */
  ghost predicate OrderIsStable(run: seq<Store>, key: CheckpointKey) {
    forall i: nat, j: nat, a, b :: i <= j < |run| && IsListing(run[i], key, a) && IsListing(run[j], key, b) ==>
      Subsequence(PendingOf(run[i], a), PendingOf(run[j], b))
  }

  /** Over any run without `deleteThread`, whatever the interleaving of reads and commits, the order is stable
      exactly when no commit moves a task past another task's write. */
  lemma OrderIsStableIff(run: seq<Store>, actions: seq<Action>, key: CheckpointKey)
    requires IsRun(run, actions)
    ensures OrderIsStable(run, key) <==> forall k: nat :: k < |actions| ==> Quiet(run, actions, k, key)
  {
    if OrderIsStable(run, key) {
      forall k: nat | k < |actions| ensures Quiet(run, actions, k, key) {
        assert IsStep(run, actions, k);
        var a := Listing(run[k], key);
        var b := Listing(run[k + 1], key);
        if Overtakes(run[k], actions[k], key) { OvertakingReorders(run[k], actions[k], key, a, b); }
      }
    }
    if forall k: nat :: k < |actions| ==> Quiet(run, actions, k, key) {
      forall i: nat, j: nat, a, b | i <= j < |run| && IsListing(run[i], key, a) && IsListing(run[j], key, b)
        ensures Subsequence(PendingOf(run[i], a), PendingOf(run[j], b))
      {
        StableBetween(run, actions, i, j, key, a, b);
      }
    }
  }

  /** In particular it is stable, legacy writers included, unless a legacy writer stores a task's first write
      between another operation's look for one and its batch. */
  lemma PendingOrderIsStable(run: seq<Store>, actions: seq<Action>, key: CheckpointKey)
    requires IsRun(run, actions)
    requires forall k: nat :: k < |actions| && actions[k].DoWrites? ==> !Raced(run, actions, k)
    ensures OrderIsStable(run, key)
  {
    forall k: nat | k < |actions| ensures Quiet(run, actions, k, key) {
      assert IsStep(run, actions, k);
      if Moves(run[k], actions[k]) { MovedIsRaced(run, actions, k); }
    }
    OrderIsStableIff(run, actions, key);
  }

  /** The query has one answer. */
  lemma ListingUnique(s: Store, key: CheckpointKey, a: seq<WriteKey>, b: seq<WriteKey>)
    requires IsListing(s, key, a) && IsListing(s, key, b)
    ensures a == b
  {
    OrderedSubset(s, a, b);
    OrderedSubset(s, b, a);
    MutualSubsequence(a, b);
  }

  lemma {:induction false} SubsequenceShorter<T>(a: seq<T>, b: seq<T>)
    requires Subsequence(a, b)
    ensures |a| <= |b| && (|a| == |b| ==> a == b)
    decreases |b|
  {
    if a != [] {
      if a[0] == b[0] && Subsequence(a[1..], b[1..]) {
        SubsequenceShorter(a[1..], b[1..]);
        assert a == [a[0]] + a[1..] && b == [b[0]] + b[1..];
      } else {
        SubsequenceShorter(a, b[1..]);
      }
    }
  }

  lemma MutualSubsequence<T>(a: seq<T>, b: seq<T>)
    requires Subsequence(a, b) && Subsequence(b, a)
    ensures a == b
  {
    SubsequenceShorter(a, b);
    SubsequenceShorter(b, a);
  }

  // ---- the one interleaving that breaks the order ----

  const Empty := Store(map[], map[], map[])

  lemma SingleWrite(s: Store, s': Store, op: PutWrites, now: string)
    requires |op.writes| == 1 && !InheritedMember(op.writes[0].channel) && KeyOf(op, 0) !in s.writes
    ensures NewRows([s], op, 1, now) == Ok([(KeyOf(op, 0), WriteRow(op.writes[0].channel, op.writes[0].value, now))])
    ensures WithRows(s'.writes, [(KeyOf(op, 0), WriteRow(op.writes[0].channel, op.writes[0].value, now))])
      == s'.writes[KeyOf(op, 0) := WriteRow(op.writes[0].channel, op.writes[0].value, now)]
  {
    assert NewRows([s], op, 0, now) == Ok([]);
    var row := (KeyOf(op, 0), WriteRow(op.writes[0].channel, op.writes[0].value, now));
    assert [] + [row] == [row];
    assert [row][1..] == [];
  }

  const RaceKey := CheckpointKey("", "c")
  const NewT := PutWrites(RaceKey, "t", Some("p"), [Write("__error__", "2")])
  const LegacyT := PutWrites(RaceKey, "t", None, [Write("x", "1")])
  const LegacyU := PutWrites(RaceKey, "u", None, [Write("y", "1")])
  const RaceMid := Store(map[], map[(RaceKey, "t", 0) := WriteRow("x", "1", "")], map[])
  const RaceBefore := RaceMid.(writes := RaceMid.writes[(RaceKey, "u", 0) := WriteRow("y", "1", "")])
  const RaceAfter := RaceBefore.(writes := RaceBefore.writes[(RaceKey, "t", -1) := WriteRow("__error__", "2", "")],
                                 paths := map[(RaceKey, "t") := "p"])

  lemma OneCharacter(s: string)
    requires |s| == 1 && s[0] < '\U{80}'
    ensures Bytes(s) == 1
  {
    assert s[1..] == [];
  }

  const RaceRun := [Empty, RaceMid, RaceBefore, RaceAfter]
  const RaceActions := [
    DoLegacyWrites(LegacyT, [Empty], ""),
    DoLegacyWrites(LegacyU, [RaceMid], ""),
    DoWrites(NewT, Reads(Empty, Empty, [Empty]), "")]

  lemma LegacyWritesHappen()
    ensures CommitLegacyWrites(Empty, [Empty], LegacyT, "") == Ok(RaceMid)
    ensures CommitLegacyWrites(RaceMid, [RaceMid], LegacyU, "") == Ok(RaceBefore)
  {
    SingleWrite(Empty, Empty, LegacyT, "");
    SingleWrite(RaceMid, RaceMid, LegacyU, "");
    OneCharacter("1");
  }

  lemma RaceCommits()
    ensures CommitWrites(RaceBefore, Reads(Empty, Empty, [Empty]), NewT, "") == Ok(RaceAfter)
    ensures MovesTask(RaceBefore, NewT, Plan(Reads(Empty, Empty, [Empty]), NewT, "").value)
  {
    SingleWrite(Empty, RaceBefore, NewT, "");
    OneCharacter("p");
    OneCharacter("2");
    assert (RaceKey, "t", 0) in RaceBefore.writes;
  }

  lemma RaceSteps()
    ensures IsStep(RaceRun, RaceActions, 0) && IsStep(RaceRun, RaceActions, 1)
  {
    LegacyWritesHappen();
    assert RaceRun[0] == Empty && RaceRun[1] == RaceMid;
    assert Earlier(RaceRun, 0, Empty) && Earlier(RaceRun, 1, RaceMid);
  }

  lemma RaceEnds()
    ensures IsStep(RaceRun, RaceActions, 2)
  {
    RaceCommits();
    assert RaceRun[0] == Empty;
    assert Earlier(RaceRun, 2, Empty);
  }

  /** Two legacy writes land between the reads and the batch of a `putWrites` for task "t", and the batch
      still goes through. */
  lemma LegacyRaceHappens()
    ensures IsRun(RaceRun, RaceActions)
    ensures Complete(RaceActions[2]) && Moves(RaceBefore, RaceActions[2])
  {
    RaceSteps();
    RaceEnds();
    RaceCommits();
  }

  const ListBefore := [(RaceKey, "t", 0), (RaceKey, "u", 0)]
  const ListAfter := [(RaceKey, "u", 0), (RaceKey, "t", -1), (RaceKey, "t", 0)]

  lemma RaceListings()
    ensures IsListing(RaceBefore, RaceKey, ListBefore) && IsListing(RaceAfter, RaceKey, ListAfter)
  {
    assert TextLess("", "p") && TextLess("t", "u");
    assert Ordered(RaceBefore, ListBefore) && Ordered(RaceAfter, ListAfter);
  }

  /** Task "t" is now behind task "u": the list read before is not a subsequence of the list read after. */
  lemma LegacyRaceReorders()
    ensures IsListing(RaceBefore, RaceKey, ListBefore) && IsListing(RaceAfter, RaceKey, ListAfter)
    ensures !Subsequence(PendingOf(RaceBefore, ListBefore), PendingOf(RaceAfter, ListAfter))
  {
    RaceListings();
    LegacyRaceHappens();
    RaceCommits();
    assert TextLess("t", "u") && TextLess("", "p");
    assert Passes(RaceBefore, RaceKey, "t", "p", (RaceKey, "u", 0));
    OvertakingReorders(RaceBefore, RaceActions[2], RaceKey, ListBefore, ListAfter);
  }
}
