/** `mapWithConcurrency` (lib/artifact-repository.ts:86-97): workers that share an index and a results array.

    A worker step is what runs between two awaits; which worker steps next is left open, so a contract
    here holds for every interleaving. A mapper that rejects is one that yields `None`. */
module WorkerPool {
  import opened Options

  datatype Worker = Idle | Mapping(index: nat) | Stopped | Rejected(index: nat)

  predicate Active(w: Worker) { w.Idle? || w.Mapping? }

  predicate HasIndex(w: Worker) { w.Mapping? || w.Rejected? }

  function Weight(workers: seq<Worker>): nat {
    if workers == [] then 0
    else (match workers[0] case Mapping(_) => 2 case Idle => 1 case _ => 0) + Weight(workers[1..])
  }

  lemma {:induction false} WeightUpdate(workers: seq<Worker>, w: nat, now: Worker)
    requires w < |workers|
    ensures Weight(workers[w := now]) - Weight(workers) == Weight([now]) - Weight([workers[w]])
  {
    if w == 0 {
      assert workers[0 := now][1..] == workers[1..];
    } else {
      assert workers[w := now][1..] == workers[1..][w - 1 := now];
      WeightUpdate(workers[1..], w - 1, now);
    }
  }

  class Pool<T, U> {
    const values: seq<T>
    const mapper: (T, nat) -> Option<U>
    const results: array<Option<U>>
    var nextIndex: nat
    var workers: seq<Worker>

    ghost predicate Valid()
      reads this, results
    {
      && results.Length == |values| && nextIndex <= |values|
      // An index is claimed once: it is unclaimed, mapped by one worker, or finished.
      && (forall w :: 0 <= w < |workers| && HasIndex(workers[w]) ==> workers[w].index < nextIndex)
      && (forall v, w :: 0 <= v < w < |workers| && HasIndex(workers[v]) && HasIndex(workers[w]) ==>
            workers[v].index != workers[w].index)
      && (forall w :: 0 <= w < |workers| && workers[w].Rejected? ==>
          mapper(values[workers[w].index], workers[w].index).None?)
      && (forall w :: 0 <= w < |workers| && workers[w].Stopped? ==> nextIndex == |values|)
      && (forall i :: nextIndex <= i < |values| ==> results[i].None?)
      && (forall i: nat :: i < nextIndex ==>
          if Held(i) then results[i].None? else results[i].Some? && results[i] == mapper(values[i], i))
    }

    /** Some worker has claimed index i and not delivered it. */
    ghost predicate Held(i: nat)
      reads this
    {
      exists w :: 0 <= w < |workers| && (workers[w] == Mapping(i) || workers[w] == Rejected(i))
    }

    constructor (values: seq<T>, concurrency: nat, mapper: (T, nat) -> Option<U>)
      ensures Valid() && fresh(results)
      ensures this.values == values && this.mapper == mapper && nextIndex == 0
      ensures |workers| == if concurrency <= |values| then concurrency else |values|
      ensures forall w :: 0 <= w < |workers| ==> workers[w] == Idle
    {
      this.values, this.mapper := values, mapper;
      results := new Option<U>[|values|](_ => None);
      nextIndex := 0;
      workers := seq(if concurrency <= |values| then concurrency else |values|, _ => Idle);
    }

    /** Worker w takes the next index, or finds none left. */
    method Claim(w: nat)
      requires Valid() && w < |workers| && workers[w].Idle?
      modifies this
      ensures Valid()
      ensures if old(nextIndex) < |values|
        then workers == old(workers)[w := Mapping(old(nextIndex))] && nextIndex == old(nextIndex) + 1
        else workers == old(workers)[w := Stopped] && nextIndex == old(nextIndex)
    {
      if nextIndex < |values| {
        ghost var i := nextIndex;
        workers, nextIndex := workers[w := Mapping(nextIndex)], nextIndex + 1;
        assert workers[w] == Mapping(i);
        forall k: nat | k < i ensures Held(k) == old(Held(k)) {
          if old(Held(k)) {
            var v :| 0 <= v < |old(workers)| && (old(workers)[v] == Mapping(k) || old(workers)[v] == Rejected(k));
            assert workers[v] == old(workers)[v];
          }
        }
      } else {
        workers := workers[w := Stopped];
        assert forall v :: 0 <= v < |workers| && v != w ==> workers[v] == old(workers)[v];
      }
    }

    /** The mapper called by worker w resolves or rejects. */
    method Deliver(w: nat)
      requires Valid() && w < |workers| && workers[w].Mapping?
      modifies this, results
      ensures Valid() && nextIndex == old(nextIndex)
      ensures
        var i := old(workers)[w].index;
        if mapper(values[i], i).Some?
        then workers == old(workers)[w := Idle] && results[..] == old(results[..])[i := mapper(values[i], i)]
        else workers == old(workers)[w := Rejected(i)] && results[..] == old(results[..])
    {
      var i := workers[w].index;
      var value := mapper(values[i], i);
      if value.Some? {
        results[i] := value;
        workers := workers[w := Idle];
        forall k: nat | k < nextIndex ensures Held(k) == (old(Held(k)) && k != i) {
          if old(Held(k)) && k != i {
            var v :| 0 <= v < |old(workers)| && (old(workers)[v] == Mapping(k) || old(workers)[v] == Rejected(k));
            assert workers[v] == old(workers)[v];
          }
        }
      } else {
        workers := workers[w := Rejected(i)];
        forall k: nat | k < nextIndex ensures Held(k) == old(Held(k)) {
          if old(Held(k)) {
            var v :| 0 <= v < |old(workers)| && (old(workers)[v] == Mapping(k) || old(workers)[v] == Rejected(k));
            assert workers[v] == old(workers)[v] || workers[w] == Rejected(k);
          }
        }
      }
    }

    /** What `Promise.all` over the workers gives once none of them can step. */
    method Outcome() returns (r: Option<seq<Option<U>>>)
      requires Valid()
      requires forall w :: 0 <= w < |workers| ==> !Active(workers[w])
      ensures r.None? ==> exists i: nat :: i < |values| && mapper(values[i], i).None?
      ensures r.Some? ==> |r.value| == |values|
      ensures r.Some? && workers != [] ==>
        forall i: nat :: i < |values| ==> r.value[i].Some? && r.value[i] == mapper(values[i], i)
      ensures nextIndex == 0 && workers == [] ==> r.Some? && forall i: nat :: i < |values| ==> r.value[i].None?
    {
      if exists w :: 0 <= w < |workers| && workers[w].Rejected? {
        var w :| 0 <= w < |workers| && workers[w].Rejected?;
        assert mapper(values[workers[w].index], workers[w].index).None?;
        return None;
      }
      if workers != [] {
        assert workers[0].Stopped?;
        assert forall i: nat :: i < |values| ==> !Held(i);
      }
      r := Some(results[..]);
    }
  }

  /** Whichever way the workers interleave, the pool resolves exactly when every mapper does, with each
      result at its own index; the workers in flight are never more than min(concurrency, length). With no
      worker at all nothing is mapped: then the results are holes. */
  method MapWithConcurrency<T, U>(values: seq<T>, concurrency: nat, mapper: (T, nat) -> Option<U>)
      returns (r: Option<seq<Option<U>>>)
    ensures concurrency > 0 ==> (r.Some? <==> forall i: nat :: i < |values| ==> mapper(values[i], i).Some?)
    ensures r.Some? ==> |r.value| == |values|
    ensures concurrency > 0 && r.Some? ==> forall i: nat :: i < |values| ==> r.value[i] == mapper(values[i], i)
    ensures concurrency == 0 ==> r.Some? && forall i: nat :: i < |values| ==> r.value[i].None?
  {
    var pool := new Pool(values, concurrency, mapper);
    while exists w :: 0 <= w < |pool.workers| && Active(pool.workers[w])
      invariant fresh(pool) && fresh(pool.results) && pool.Valid()
      invariant |pool.workers| == if concurrency <= |values| then concurrency else |values|
      invariant concurrency == 0 ==> pool.nextIndex == 0
      decreases 2 * (|values| - pool.nextIndex) + Weight(pool.workers)
    {
      var w :| 0 <= w < |pool.workers| && Active(pool.workers[w]);
      ghost var before := pool.workers;
      if pool.workers[w].Idle? {
        pool.Claim(w);
      } else {
        pool.Deliver(w);
      }
      WeightUpdate(before, w, pool.workers[w]);
    }
    r := pool.Outcome();
  }
}
