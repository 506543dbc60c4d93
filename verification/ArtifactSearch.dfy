/** The replay budget and the bounded result list of lib/artifact-search-tool.ts. */
module ArtifactSearch {
  import opened Options

  const MAX_CALLS := 4
  const MAX_RESULTS := 10
  const TOTAL_BYTES := 128_000
  /** The size of `{"results":[]}`. */
  const EMPTY_BYTES := 14

  // ---- the call budget (lib/artifact-search-tool.ts:17) ----

  type Nonce = string
  type CallId = string
  datatype Use = Use(expiresAt: int, calls: set<CallId>)

  /** An authority is sealed, so a nonce has one expiry. */
  datatype Authority = Authority(nonce: Nonce, expiresAt: int)
  datatype Outcome = Accepted | CallInvalid | Replayed

  /** `^[A-Za-z0-9_-]{1,128}$` */
  predicate ValidCallId(id: CallId) {
    1 <= |id| <= 128 && forall c :: c in id ==>
      'A' <= c <= 'Z' || 'a' <= c <= 'z' || '0' <= c <= '9' || c == '_' || c == '-'
  }

  function Pruned(uses: map<Nonce, Use>, now: int): map<Nonce, Use> {
    map n | n in uses && uses[n].expiresAt > now :: uses[n]
  }

  function Entry(uses: map<Nonce, Use>, authority: Authority): Use {
    if authority.nonce in uses then uses[authority.nonce] else Use(authority.expiresAt, {})
  }

  /** One call: what `accept` decides and what it leaves in the map. */
  function Accept(uses: map<Nonce, Use>, authority: Authority, id: CallId, now: int): (Outcome, map<Nonce, Use>) {
    if !ValidCallId(id) then (CallInvalid, uses)
    else
      var pruned := Pruned(uses, now);
      var current := Entry(pruned, authority);
      if id in current.calls || |current.calls| >= MAX_CALLS then (Replayed, pruned)
      else (Accepted, pruned[authority.nonce := current.(calls := current.calls + {id})])
  }

  class ArtifactSearchAuthorityBudget {
    var uses: map<Nonce, Use>

    constructor ()
      ensures uses == map[]
    {
      uses := map[];
    }

    method AcceptCall(authority: Authority, id: CallId, now: int) returns (outcome: Outcome)
      modifies this
      ensures (outcome, uses) == Accept(old(uses), authority, id, now)
    {
      if !ValidCallId(id) { return CallInvalid; }
      var todo := uses.Keys;
      ghost var before := uses;
      while todo != {}
        invariant todo <= uses.Keys <= before.Keys
        invariant forall n :: n in uses ==> uses[n] == before[n]
        invariant forall n :: n in before && n !in todo ==> (n in uses <==> before[n].expiresAt > now)
        decreases todo
      {
        var n :| n in todo;
        todo := todo - {n};
        if uses[n].expiresAt <= now { uses := uses - {n}; }
      }
      assert uses == Pruned(before, now);
      var current := Entry(uses, authority);
      if id in current.calls || |current.calls| >= MAX_CALLS { return Replayed; }
      uses := uses[authority.nonce := current.(calls := current.calls + {id})];
      outcome := Accepted;
    }
  }

  /** The reference: a ledger that is never pruned. */
  type Ledger = map<Nonce, set<CallId>>

  function Calls(ledger: Ledger, nonce: Nonce): set<CallId> {
    if nonce in ledger then ledger[nonce] else {}
  }

  function LedgerAccept(ledger: Ledger, nonce: Nonce, id: CallId): (Outcome, Ledger) {
    if !ValidCallId(id) then (CallInvalid, ledger)
    else if id in Calls(ledger, nonce) || |Calls(ledger, nonce)| >= MAX_CALLS then (Replayed, ledger)
    else (Accepted, ledger[nonce := Calls(ledger, nonce) + {id}])
  }

  datatype Call = Call(authority: Authority, id: CallId, now: int)

  /** Calls under a clock that never goes back, each nonce with its one expiry. */
  ghost predicate Sensible(calls: seq<Call>) {
    && (forall i, j :: 0 <= i < j < |calls| ==> calls[i].now <= calls[j].now)
    && (forall i, j :: 0 <= i < |calls| && 0 <= j < |calls| && calls[i].authority.nonce == calls[j].authority.nonce
          ==> calls[i].authority == calls[j].authority)
  }

  function BudgetAfter(calls: seq<Call>): map<Nonce, Use> {
    if calls == [] then map[]
    else
      var last := calls[|calls| - 1];
      Accept(BudgetAfter(calls[..|calls| - 1]), last.authority, last.id, last.now).1
  }

  function LedgerAfter(calls: seq<Call>): Ledger {
    if calls == [] then map[]
    else
      var last := calls[|calls| - 1];
      LedgerAccept(LedgerAfter(calls[..|calls| - 1]), last.authority.nonce, last.id).1
  }

  /** For a nonce still alive after the calls, the budget holds exactly the ledger's calls. */
  lemma {:induction false} BudgetMatchesLedger(calls: seq<Call>, authority: Authority, now: int)
    requires Sensible(calls + [Call(authority, "", now)]) && now < authority.expiresAt
    ensures Entry(BudgetAfter(calls), authority) == Use(authority.expiresAt, Calls(LedgerAfter(calls), authority.nonce))
    ensures authority.nonce in BudgetAfter(calls) ==>
      BudgetAfter(calls)[authority.nonce].expiresAt == authority.expiresAt
    decreases |calls|
  {
    if calls != [] {
      var all := calls + [Call(authority, "", now)];
      var earlier, last := calls[..|calls| - 1], calls[|calls| - 1];
      assert all[|calls| - 1] == last && all[|calls|] == Call(authority, "", now);
      assert last.now <= now;
      var shorter := earlier + [Call(authority, "", now)];
      assert forall i :: 0 <= i < |earlier| ==> shorter[i] == all[i];
      assert Sensible(shorter);
      BudgetMatchesLedger(earlier, authority, now);
      if last.authority.nonce == authority.nonce {
        assert last.authority == authority;
      }
    }
  }

  /** A call leaves nothing behind that has expired, except under its own nonce: the map does not grow for ever. */
  lemma ExpiredAreDropped(uses: map<Nonce, Use>, authority: Authority, id: CallId, now: int)
    requires ValidCallId(id)
    ensures var after := Accept(uses, authority, id, now).1;
      forall n :: n in after && n != authority.nonce ==> n in uses && after[n] == uses[n] && uses[n].expiresAt > now
    ensures var after := Accept(uses, authority, id, now).1;
      forall n :: n in uses && n != authority.nonce && uses[n].expiresAt > now ==> n in after
  {}

  /** On every call made before its authority expires, whatever came before it, the pruned budget decides as
      the never-pruned ledger does. */
  lemma BudgetRefinesLedger(calls: seq<Call>, call: Call)
    requires Sensible(calls + [call]) && call.now < call.authority.expiresAt
    ensures Accept(BudgetAfter(calls), call.authority, call.id, call.now).0
         == LedgerAccept(LedgerAfter(calls), call.authority.nonce, call.id).0
  {
    var probe := Call(call.authority, "", call.now);
    assert Sensible(calls + [probe]) by {
      assert forall i :: 0 <= i < |calls| ==> (calls + [probe])[i] == (calls + [call])[i];
      assert (calls + [call])[|calls|] == call;
    }
    BudgetMatchesLedger(calls, call.authority, call.now);
  }

  /** The ledger, and so the budget, never lets a nonce have more than four calls. */
  lemma {:induction false} LedgerIsBounded(calls: seq<Call>, nonce: Nonce)
    ensures |Calls(LedgerAfter(calls), nonce)| <= MAX_CALLS
    decreases |calls|
  {
    if calls != [] {
      LedgerIsBounded(calls[..|calls| - 1], nonce);
    }
  }

  /** An accepted call's id stays in the ledger, so it is never accepted again. */
  lemma {:induction false} AcceptedOnce(calls: seq<Call>, i: nat, again: Call)
    requires i < |calls| && calls[i].authority.nonce == again.authority.nonce && calls[i].id == again.id
    requires LedgerAccept(LedgerAfter(calls[..i]), calls[i].authority.nonce, calls[i].id).0.Accepted?
    ensures again.id in Calls(LedgerAfter(calls), again.authority.nonce)
    ensures !LedgerAccept(LedgerAfter(calls), again.authority.nonce, again.id).0.Accepted?
    decreases |calls|
  {
    if i < |calls| - 1 {
      var earlier := calls[..|calls| - 1];
      assert earlier[..i] == calls[..i];
      AcceptedOnce(earlier, i, again);
    }
  }

  /** The ids the budget accepted under a nonce before its authority expired, in order. */
  function AcceptedIds(calls: seq<Call>, nonce: Nonce): seq<CallId> {
    if calls == [] then []
    else
      var earlier, last := calls[..|calls| - 1], calls[|calls| - 1];
      var decision := Accept(BudgetAfter(earlier), last.authority, last.id, last.now).0;
      if last.authority.nonce == nonce && last.now < last.authority.expiresAt && decision.Accepted?
      then AcceptedIds(earlier, nonce) + [last.id]
      else AcceptedIds(earlier, nonce)
  }

  predicate NeverTwice<T(==)>(list: seq<T>) {
    forall i, j :: 0 <= i < j < |list| ==> list[i] != list[j]
  }

  predicate AllIn<T(==)>(list: seq<T>, s: set<T>) {
    forall x :: x in list ==> x in s
  }

  lemma OneMore<T>(list: seq<T>, s: set<T>, x: T)
    requires NeverTwice(list) && AllIn(list, s) && x !in s
    ensures NeverTwice(list + [x]) && AllIn(list + [x], s + {x})
  {
    forall i | 0 <= i < |list| ensures list[i] != x { assert list[i] in list; }
  }

  /** One call: the ledger grows by the id, which it did not have, if the call is accepted, and never shrinks. */
  lemma LedgerStep(calls: seq<Call>, nonce: Nonce)
    requires calls != [] && Sensible(calls)
    ensures
      var earlier, last := calls[..|calls| - 1], calls[|calls| - 1];
      var before, after := Calls(LedgerAfter(earlier), nonce), Calls(LedgerAfter(calls), nonce);
      && before <= after
      && (AcceptedIds(calls, nonce) == AcceptedIds(earlier, nonce) ||
          (&& AcceptedIds(calls, nonce) == AcceptedIds(earlier, nonce) + [last.id]
           && last.id !in before && after == before + {last.id}))
  {
    var earlier, last := calls[..|calls| - 1], calls[|calls| - 1];
    if last.authority.nonce == nonce && last.now < last.authority.expiresAt {
      assert earlier + [last] == calls;
      BudgetRefinesLedger(earlier, last);
    }
  }

  lemma {:induction false} AcceptedAreLedgered(calls: seq<Call>, nonce: Nonce)
    requires Sensible(calls)
    ensures NeverTwice(AcceptedIds(calls, nonce)) && AllIn(AcceptedIds(calls, nonce), Calls(LedgerAfter(calls), nonce))
    decreases |calls|
  {
    if calls != [] {
      var earlier, last := calls[..|calls| - 1], calls[|calls| - 1];
      AcceptedAreLedgered(earlier, nonce);
      LedgerStep(calls, nonce);
      if AcceptedIds(calls, nonce) != AcceptedIds(earlier, nonce) {
        OneMore(AcceptedIds(earlier, nonce), Calls(LedgerAfter(earlier), nonce), last.id);
      }
    }
  }

  /** In any interleaving of nonces, a nonce gets at most four accepted calls and no call id twice. */
  lemma AtMostFourAndNeverTwice(calls: seq<Call>, nonce: Nonce)
    requires Sensible(calls)
    ensures |AcceptedIds(calls, nonce)| <= MAX_CALLS
    ensures NeverTwice(AcceptedIds(calls, nonce))
  {
    AcceptedAreLedgered(calls, nonce);
    LedgerIsBounded(calls, nonce);
    DistinctFits(AcceptedIds(calls, nonce), Calls(LedgerAfter(calls), nonce));
  }

  lemma {:induction false} DistinctFits<T>(list: seq<T>, s: set<T>)
    requires NeverTwice(list) && AllIn(list, s)
    ensures |list| <= |s|
  {
    if list != [] {
      var last := list[|list| - 1];
      DistinctFits(list[..|list| - 1], s - {last});
    }
  }

  // ---- the bounded result list (lib/artifact-search-tool.ts:14) ----

  function Total<R>(size: R -> nat, results: seq<R>): nat {
    if results == [] then 0 else Total(size, results[..|results| - 1]) + size(results[|results| - 1])
  }

  /** UTF-8 size of `JSON.stringify({results})`: the empty list, the items and the commas between them. */
  function SerializedBytes<R>(size: R -> nat, results: seq<R>): nat {
    EMPTY_BYTES + Total(size, results) + if results == [] then 0 else |results| - 1
  }

  /** The first n matches are the longest prefix within `limit` whose sizes, commas aside, fit the budget. */
  predicate Shown<R>(matches: seq<R>, limit: nat, size: R -> nat, n: nat) {
    && n <= |matches| && n <= limit
    && EMPTY_BYTES + Total(size, matches[..n]) <= TOTAL_BYTES
    && (n < |matches| && n < limit ==> EMPTY_BYTES + Total(size, matches[..n + 1]) > TOTAL_BYTES)
  }

  /** The results are the longest prefix of the first `limit` matches whose sizes fit the budget, and
      `truncated` says exactly whether a match is missing. */
  method BoundedSearch<R>(matches: seq<R>, limit: nat, size: R -> nat) returns (results: seq<R>, truncated: bool)
    requires 1 <= limit <= MAX_RESULTS
    ensures results <= matches && Shown(matches, limit, size, |results|)
    ensures truncated <==> |results| < |matches|
  {
    var shown := matches[..if limit <= |matches| then limit else |matches|];
    var used := EMPTY_BYTES;
    var n := 0;
    results := [];
    while n < |shown|
      invariant n <= |shown| && results == shown[..n] == matches[..n]
      invariant used == EMPTY_BYTES + Total(size, results) <= TOTAL_BYTES
    {
      assert matches[..n + 1] == shown[..n] + [shown[n]];
      assert matches[..n + 1][..n] == shown[..n];
      if used + size(shown[n]) > TOTAL_BYTES { break; }
      results, used, n := results + [shown[n]], used + size(shown[n]), n + 1;
      assert results == matches[..n];
    }
    truncated := |matches| > |shown| || |results| < |shown|;
  }

  lemma {:induction false} TotalGrows<R>(size: R -> nat, matches: seq<R>, m: nat, n: nat)
    requires m <= n <= |matches|
    ensures Total(size, matches[..m]) <= Total(size, matches[..n])
    decreases n
  {
    if m < n {
      TotalGrows(size, matches, m, n - 1);
      assert matches[..n][..n - 1] == matches[..n - 1];
    }
  }

  /** There is one such prefix. */
  lemma ShownUnique<R>(matches: seq<R>, limit: nat, size: R -> nat, m: nat, n: nat)
    requires Shown(matches, limit, size, m) && Shown(matches, limit, size, n)
    ensures m == n
  {
    if m < n { TotalGrows(size, matches, m + 1, n); }
    if n < m { TotalGrows(size, matches, n + 1, m); }
  }

  /** The commas are not counted. So the list that is sent fits the budget exactly when the shown prefix leaves
      room for them, and passes it by less than `MAX_RESULTS` bytes when it does not. */
  lemma SerializedFitsIff<R>(matches: seq<R>, limit: nat, size: R -> nat, results: seq<R>, n: nat)
    requires 1 <= limit <= MAX_RESULTS && results <= matches && Shown(matches, limit, size, |results|)
    requires Shown(matches, limit, size, n)
    ensures SerializedBytes(size, results) <= TOTAL_BYTES <==>
      n == 0 || EMPTY_BYTES + Total(size, matches[..n]) + n - 1 <= TOTAL_BYTES
    ensures SerializedBytes(size, results) < TOTAL_BYTES + MAX_RESULTS
  {
    ShownUnique(matches, limit, size, |results|, n);
    assert results == matches[..n];
  }

  /** Ten matches given by their sizes, which come to 127,986 bytes: all ten are shown, and the list that is sent
      has 128,009 bytes. */
  const Overfull: seq<nat> := [12_798, 12_798, 12_798, 12_798, 12_798, 12_798, 12_798, 12_798, 12_798, 12_804]

  function OwnSize(bytes: nat): nat { bytes }

  lemma CommasPassBudget()
    ensures Shown(Overfull, MAX_RESULTS, OwnSize, MAX_RESULTS)
    ensures SerializedBytes(OwnSize, Overfull) == 128_009 > TOTAL_BYTES
  {
    TotalOfEqual(Overfull[..9], 12_798);
    assert Total(OwnSize, Overfull) == 127_986;
    assert Overfull[..10] == Overfull;
  }

  lemma {:induction false} TotalOfEqual(sizes: seq<nat>, each: nat)
    requires forall i :: 0 <= i < |sizes| ==> sizes[i] == each
    ensures Total(OwnSize, sizes) == |sizes| * each
  {
    if sizes != [] { TotalOfEqual(sizes[..|sizes| - 1], each); }
  }
}
