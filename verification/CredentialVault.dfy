/** The secret and MCP binding tables of lib/provider-credential-vault.ts, with the constraints of
    migrations/0020_add_workflow_run_mcp_snapshots.sql.

    Any database call may throw, before or after it took effect. When the vault is `shared`, other requests
    may execute any statements of the methods' own kinds between two calls. The vault keeps the history of
    its tables, and what is proved of histories is proved of every vault. */
module CredentialVault {
  import opened Options

  type SecretId = nat
  type BindingId = nat
  type RepositoryId = nat
  type ServerId = string
  type Key = (RepositoryId, ServerId)

  /** An endpoint as written, and what the URL parser makes of it: `None` when it is not an https URL.
      The parser's `href` is the trust target (lib/provider-credential-vault.ts:122). */
  datatype Endpoint = Endpoint(url: string, href: Option<string>)

  datatype Row = Row(id: BindingId, target: string, secret: SecretId)
  datatype Tables = Tables(secrets: map<SecretId, string>, rows: map<Key, Row>)

  /** The primary key (repository, binding) and the foreign key to the secrets. The unique key
      (repository, server) is the map's own. */
  predicate Consistent(t: Tables) {
    && (forall k, l :: k in t.rows && l in t.rows && k.0 == l.0 && t.rows[k].id == t.rows[l].id ==> k == l)
    && (forall k :: k in t.rows ==> t.rows[k].secret in t.secrets)
  }

  datatype Statement =
    | InsertSecret(secret: SecretId, credential: string)
    | DeleteSecret(secret: SecretId)
    | InsertRow(key: Key, row: Row)
    | RotateRow(key: Key, id: BindingId, target: string, secret: SecretId, expected: SecretId)
    | ReplaceRow(key: Key, id: BindingId, target: string, row: Row)
    | OverwriteRow(key: Key, row: Row)
    | DeleteRow(key: Key, id: BindingId)

  function WithoutSecret(rows: map<Key, Row>, secret: SecretId): map<Key, Row> {
    map k | k in rows && rows[k].secret != secret :: rows[k]
  }

  /** A deleted secret takes the bindings that use it along. */
  function Without(t: Tables, secret: SecretId): Tables {
    Tables(t.secrets - {secret}, WithoutSecret(t.rows, secret))
  }

  /** The new tables and the number of changed rows, before the constraints are looked at. `None` is a
      violated unique key. */
  function Raw(t: Tables, statement: Statement): Option<(Tables, nat)> {
    match statement
    case InsertSecret(secret, credential) =>
      if secret in t.secrets then None else Some((t.(secrets := t.secrets[secret := credential]), 1))
    case DeleteSecret(secret) =>
      if secret in t.secrets then Some((Without(t, secret), 1)) else Some((t, 0))
    case InsertRow(key, row) =>
      if key in t.rows then None else Some((t.(rows := t.rows[key := row]), 1))
    case RotateRow(key, id, target, secret, expected) =>
      if key in t.rows && t.rows[key] == Row(id, target, expected)
      then Some((t.(rows := t.rows[key := Row(id, target, secret)]), 1)) else Some((t, 0))
    case ReplaceRow(key, id, target, row) =>
      if key in t.rows && t.rows[key].id == id && t.rows[key].target == target
      then Some((t.(rows := t.rows[key := row]), 1)) else Some((t, 0))
    case OverwriteRow(key, row) =>
      if key in t.rows then Some((t.(rows := t.rows[key := row]), 1)) else Some((t, 0))
    case DeleteRow(key, id) =>
      if key in t.rows && t.rows[key].id == id then Some((t.(rows := t.rows - {key}), 1)) else Some((t, 0))
  }

  function Execute(t: Tables, statement: Statement): (r: Option<(Tables, nat)>)
    ensures r.Some? ==> Consistent(r.value.0)
  {
    var raw := Raw(t, statement);
    if raw.Some? && Consistent(raw.value.0) then raw else None
  }

  /** What the tables may be after a call that threw. */
  predicate AfterThrow(before: Tables, statement: Statement, after: Tables) {
    after == before || (Execute(before, statement).Some? && after == Execute(before, statement).value.0)
  }

  // ---- a binding id has one trust target for ever ----

  predicate PutsRow(statement: Statement) {
    statement.InsertRow? || statement.ReplaceRow? || statement.OverwriteRow?
  }

  predicate HasBinding(t: Tables, k: Key, id: BindingId, target: string) {
    k in t.rows && t.rows[k].id == id && t.rows[k].target == target
  }

  /** A history is what the tables were after each statement. At some time the binding was in the table. */
  ghost predicate Seen(h: seq<Tables>, id: BindingId, target: string) {
    exists m: nat, k: Key :: m < |h| && HasBinding(h[m], k, id, target)
  }

  ghost predicate NeverBound(h: seq<Tables>, id: BindingId) {
    forall m: nat, k: Key :: m < |h| && k in h[m].rows ==> h[m].rows[k].id != id
  }

  ghost predicate NeverLive(h: seq<Tables>, secret: SecretId) {
    forall m: nat :: m < |h| ==> secret !in h[m].secrets
  }

  /** What the callers do with ids: a new secret and a new binding get an id never seen before; any other row
      that is put carries an id that was in the table earlier, beside the endpoint it was read with. */
  ghost predicate Allowed(past: seq<Tables>, statement: Statement) {
    && (statement.InsertSecret? ==> NeverLive(past, statement.secret))
    && (PutsRow(statement) ==> NeverBound(past, statement.row.id) || Seen(past, statement.row.id, statement.row.target))
  }

  /** Every statement so far was an allowed one, on tables that were empty at first. */
  ghost predicate LegalHistory(h: seq<Tables>)
    decreases |h|, 0
  {
    if |h| <= 1 then h == [Tables(map[], map[])] else LegalStep(h[..|h| - 1], h[|h| - 1])
  }

  ghost predicate LegalStep(past: seq<Tables>, after: Tables)
    requires past != []
    decreases |past|, 1
  {
    LegalHistory(past) && exists statement :: Allowed(past, statement) && AfterThrow(past[|past| - 1], statement, after)
  }

  ghost predicate OneTarget(h: seq<Tables>) {
    forall m: nat, n: nat, k, l ::
      m < |h| && n < |h| && k in h[m].rows && l in h[n].rows && h[m].rows[k].id == h[n].rows[l].id ==>
      h[m].rows[k].target == h[n].rows[l].target
  }

  ghost predicate OneCredential(h: seq<Tables>) {
    forall m: nat, n: nat, s :: m < |h| && n < |h| && s in h[m].secrets && s in h[n].secrets ==>
      h[m].secrets[s] == h[n].secrets[s]
  }

  /** No binding id is ever seen with two targets and no secret id with two credentials. */
  ghost predicate Stable(h: seq<Tables>) {
    (forall m: nat :: m < |h| ==> Consistent(h[m])) && OneTarget(h) && OneCredential(h)
  }

  /** Only a put changes an id or a target; only an insert adds a secret. */
  lemma ExecuteKeeps(t: Tables, statement: Statement, t': Tables)
    requires Execute(t, statement).Some? && t' == Execute(t, statement).value.0
    ensures forall k :: k in t'.rows ==>
      HasBinding(t, k, t'.rows[k].id, t'.rows[k].target) || (PutsRow(statement) && t'.rows[k] == statement.row)
    ensures forall s :: s in t'.secrets ==>
      (s in t.secrets && t.secrets[s] == t'.secrets[s]) || (statement.InsertSecret? && statement.secret == s)
  {}

  lemma StepKeepsTargets(h: seq<Tables>, statement: Statement, t: Tables, m: nat, k: Key, l: Key)
    requires h != [] && OneTarget(h) && Allowed(h, statement) && AfterThrow(h[|h| - 1], statement, t)
    requires m < |h| && k in h[m].rows && l in t.rows && h[m].rows[k].id == t.rows[l].id
    ensures h[m].rows[k].target == t.rows[l].target
  {
    var last, row := h[|h| - 1], t.rows[l];
    if t != last { ExecuteKeeps(last, statement, t); }
    if !HasBinding(last, l, row.id, row.target) {
      assert !NeverBound(h, row.id);
      var n: nat, j :| n < |h| && HasBinding(h[n], j, row.id, row.target);
    }
  }

  lemma StepKeepsOneTarget(h: seq<Tables>, statement: Statement, t: Tables)
    requires h != [] && OneTarget(h) && Allowed(h, statement) && AfterThrow(h[|h| - 1], statement, t)
    ensures OneTarget(h + [t])
  {
    var last := h[|h| - 1];
    if t != last { ExecuteKeeps(last, statement, t); }
    forall m: nat, n: nat, k, l |
      m < |h + [t]| && n < |h + [t]| && k in (h + [t])[m].rows && l in (h + [t])[n].rows &&
      (h + [t])[m].rows[k].id == (h + [t])[n].rows[l].id
      ensures (h + [t])[m].rows[k].target == (h + [t])[n].rows[l].target
    {
      if m < |h| && n == |h| {
        StepKeepsTargets(h, statement, t, m, k, l);
      } else if m == |h| && n < |h| {
        StepKeepsTargets(h, statement, t, n, l, k);
      } else if m == |h| && n == |h| {
        if HasBinding(last, k, t.rows[k].id, t.rows[k].target) {
          StepKeepsTargets(h, statement, t, |h| - 1, k, l);
        } else if HasBinding(last, l, t.rows[l].id, t.rows[l].target) {
          StepKeepsTargets(h, statement, t, |h| - 1, l, k);
        }
      }
    }
  }

  lemma StepKeepsStable(h: seq<Tables>, t: Tables)
    requires h != [] && Stable(h) && LegalStep(h, t)
    ensures Stable(h + [t])
  {
    var last := h[|h| - 1];
    var statement :| Allowed(h, statement) && AfterThrow(last, statement, t);
    StepKeepsOneTarget(h, statement, t);
    if t != last { ExecuteKeeps(last, statement, t); }
    assert OneCredential(h + [t]);
  }

  /** No legal history shows a binding id with two targets, whatever was created, rotated, replaced, put back,
      revoked or deleted in it, and whichever calls threw. */
  lemma {:induction false} LegalIsStable(h: seq<Tables>)
    requires LegalHistory(h)
    ensures Stable(h)
    decreases |h|
  {
    if |h| > 1 {
      var past := h[..|h| - 1];
      LegalIsStable(past);
      StepKeepsStable(past, h[|h| - 1]);
      assert past + [h[|h| - 1]] == h;
    }
  }

  lemma LegalIsConsistent(h: seq<Tables>, m: nat)
    requires LegalHistory(h) && m < |h|
    ensures Consistent(h[m])
  {
    LegalIsStable(h);
  }

  lemma ExtendHistory(h: seq<Tables>, t: Tables)
    requires h != [] && LegalStep(h, t)
    ensures LegalHistory(h + [t])
  {
    assert (h + [t])[..|h|] == h;
  }

  lemma SeenStays(h: seq<Tables>, h': seq<Tables>, id: BindingId, target: string)
    requires Seen(h, id, target) && h <= h'
    ensures Seen(h', id, target)
  {
    var m: nat, k :| m < |h| && HasBinding(h[m], k, id, target);
    assert HasBinding(h'[m], k, id, target);
  }

  /** At some time not before `from` the server's row was this one. */
  ghost predicate BoundSince(h: seq<Tables>, from: nat, key: Key, row: Row) {
    exists m: nat :: from <= m < |h| && key in h[m].rows && h[m].rows[key] == row
  }

  lemma BoundIsSeen(h: seq<Tables>, from: nat, key: Key, row: Row)
    requires BoundSince(h, from, key, row)
    ensures Seen(h, row.id, row.target)
  {
    var m: nat :| from <= m < |h| && key in h[m].rows && h[m].rows[key] == row;
    assert HasBinding(h[m], key, row.id, row.target);
  }

  /** The row of a binding id and the credential behind it, both as the tables are at one instant. */
  predicate Joins(t: Tables, k: Key, repository: RepositoryId, row: Row, credential: string) {
    && k in t.rows && k.0 == repository && t.rows[k] == row
    && row.secret in t.secrets && t.secrets[row.secret] == credential
  }

  ghost predicate ResolvedSince(h: seq<Tables>, from: nat, repository: RepositoryId, row: Row, credential: string) {
    exists m: nat, k: Key :: from <= m < |h| && Joins(h[m], k, repository, row, credential)
  }

  /** A row read at one time and its secret read later give what a join at the first time would have given. */
  lemma ReadsAsOne(h: seq<Tables>, m: nat, k: Key, row: Row, credential: string)
    requires LegalHistory(h) && m < |h| && k in h[m].rows && h[m].rows[k] == row
    requires row.secret in h[|h| - 1].secrets && h[|h| - 1].secrets[row.secret] == credential
    ensures Joins(h[m], k, k.0, row, credential)
  {
    LegalIsStable(h);
    assert Consistent(h[m]);
    assert h[m].secrets[row.secret] == h[|h| - 1].secrets[row.secret];
  }

  // ---- what is left alone ----

  /** Apart from the row of `key`, and from the `retired` secrets and the rows that use them, everything is as it
      was. There may be new secrets. */
  predicate Framed(key: Key, before: Tables, after: Tables, retired: set<SecretId>) {
    && (forall s :: s in before.secrets && s !in retired ==>
        s in after.secrets && after.secrets[s] == before.secrets[s])
    && (forall k :: k in before.rows && k != key && before.rows[k].secret !in retired ==> k in after.rows)
    && (forall k :: k in after.rows && k != key ==> k in before.rows && after.rows[k] == before.rows[k])
  }

  /** Only the row of `key` changes. */
  predicate RowOnly(key: Key, before: Tables, after: Tables) {
    after.secrets == before.secrets && after.rows - {key} == before.rows - {key}
  }

  /** Some of the given secrets go, with the rows that use them. */
  predicate Retired(before: Tables, after: Tables, a: Option<SecretId>, b: Option<SecretId>) {
    || after == before
    || (a.Some? && after == Without(before, a.value))
    || (b.Some? && after == Without(before, b.value))
    || (a.Some? && b.Some? && after == Without(Without(before, a.value), b.value))
  }

  function SetOf(secret: Option<SecretId>): set<SecretId> { if secret.Some? then {secret.value} else {} }

  lemma RowOnlyFrames(key: Key, before: Tables, after: Tables)
    requires RowOnly(key, before, after)
    ensures Framed(key, before, after, {})
  {
    forall k | k in after.rows && k != key ensures k in before.rows && after.rows[k] == before.rows[k] {
      assert k in after.rows - {key};
    }
    forall k | k in before.rows && k != key ensures k in after.rows { assert k in before.rows - {key}; }
  }

  lemma RetiredFrames(key: Key, before: Tables, after: Tables, a: Option<SecretId>, b: Option<SecretId>)
    requires Retired(before, after, a, b)
    ensures Framed(key, before, after, SetOf(a) + SetOf(b)) && after.secrets.Keys <= before.secrets.Keys
  {}

  lemma FramedOnward(
      key: Key, before: Tables, between: Tables, after: Tables, retired: set<SecretId>, retired': set<SecretId>)
    requires Framed(key, before, between, retired) && Framed(key, between, after, retired')
    ensures Framed(key, before, after, retired + retired')
  {}

  /** Nothing of the past hangs on a secret that was not there. */
  lemma FramedWithout(key: Key, before: Tables, after: Tables, retired: set<SecretId>, secret: SecretId)
    requires Consistent(before) && secret !in before.secrets && Framed(key, before, after, retired + {secret})
    ensures Framed(key, before, after, retired)
  {}

  // ---- the vault ----

  datatype Fault = Works | ThrowsBefore | ThrowsAfter

  predicate AllDrawn(t: Tables, nextSecret: nat, nextBinding: nat) {
    (forall s :: s in t.secrets ==> s < nextSecret) && (forall k :: k in t.rows ==> t.rows[k].id < nextBinding)
  }

  /** Every id in the history was drawn. */
  ghost predicate Drawn(h: seq<Tables>, nextSecret: nat, nextBinding: nat)
    decreases |h|
  {
    h == [] || (Drawn(h[..|h| - 1], nextSecret, nextBinding) && AllDrawn(h[|h| - 1], nextSecret, nextBinding))
  }

  lemma {:induction false} DrawnAt(h: seq<Tables>, nextSecret: nat, nextBinding: nat, m: nat)
    requires Drawn(h, nextSecret, nextBinding) && m < |h|
    ensures AllDrawn(h[m], nextSecret, nextBinding)
    decreases |h|
  {
    if m < |h| - 1 { DrawnAt(h[..|h| - 1], nextSecret, nextBinding, m); }
  }

  lemma UndrawnIsNew(h: seq<Tables>, nextSecret: nat, nextBinding: nat)
    requires Drawn(h, nextSecret, nextBinding)
    ensures NeverLive(h, nextSecret) && NeverBound(h, nextBinding)
  {
    forall m: nat | m < |h| ensures AllDrawn(h[m], nextSecret, nextBinding) { DrawnAt(h, nextSecret, nextBinding, m); }
  }

  lemma SeenIsDrawn(h: seq<Tables>, nextSecret: nat, nextBinding: nat, id: BindingId, target: string)
    requires Drawn(h, nextSecret, nextBinding) && Seen(h, id, target)
    ensures id < nextBinding
  {
    var m: nat, k :| m < |h| && HasBinding(h[m], k, id, target);
    DrawnAt(h, nextSecret, nextBinding, m);
  }

  lemma {:induction false} DrawMore(
      h: seq<Tables>, nextSecret: nat, nextBinding: nat, nextSecret': nat, nextBinding': nat)
    requires Drawn(h, nextSecret, nextBinding) && nextSecret <= nextSecret' && nextBinding <= nextBinding'
    ensures Drawn(h, nextSecret', nextBinding')
    decreases |h|
  {
    if h != [] { DrawMore(h[..|h| - 1], nextSecret, nextBinding, nextSecret', nextBinding'); }
  }

  ghost predicate AllSeen(h: seq<Tables>, bindings: map<BindingId, string>) {
    forall id :: id in bindings ==> Seen(h, id, bindings[id])
  }

  lemma AllSeenStays(h: seq<Tables>, h': seq<Tables>, bindings: map<BindingId, string>)
    requires AllSeen(h, bindings) && h <= h'
    ensures AllSeen(h', bindings)
  {
    forall id | id in bindings ensures Seen(h', id, bindings[id]) { SeenStays(h, h', id, bindings[id]); }
  }

  /** One more statement on a sound history. */
  lemma StatementKeeps(h: seq<Tables>, nextSecret: nat, nextBinding: nat, statement: Statement, t: Tables)
    requires h != [] && LegalHistory(h) && Drawn(h, nextSecret, nextBinding)
    requires AfterThrow(h[|h| - 1], statement, t) && Allowed(h, statement)
    requires statement.InsertSecret? ==> statement.secret < nextSecret
    requires PutsRow(statement) ==> statement.row.id < nextBinding
    ensures LegalHistory(h + [t]) && Drawn(h + [t], nextSecret, nextBinding)
  {
    ExtendHistory(h, t);
    if t != h[|h| - 1] { ExecuteKeeps(h[|h| - 1], statement, t); }
    assert (h + [t])[..|h|] == h;
  }

  /** A row is put under an id that is new, or was seen with its target. */
  ghost predicate MayPut(h: seq<Tables>, nextBinding: nat, statement: Statement) {
    PutsRow(statement) ==>
      (statement.row.id < nextBinding && NeverBound(h, statement.row.id)) ||
      Seen(h, statement.row.id, statement.row.target)
  }

  /** A row for this endpoint and secret is there, or can be put there. */
  predicate CanEnsure(key: Key, endpoint: Endpoint, secret: SecretId, t: Tables) {
    && endpoint.href.Some?
    && if key in t.rows then t.rows[key].secret == secret && t.rows[key].target == endpoint.href.value
       else secret in t.secrets
  }

  /** No other server of the repository has this binding id. */
  predicate IdFree(t: Tables, key: Key, id: BindingId) {
    forall k :: k in t.rows && k.0 == key.0 && t.rows[k].id == id ==> k == key
  }

  /** The id of a server's row is free for that server, whatever becomes of the row. */
  lemma OwnIdFree(h: seq<Tables>, t': Tables, key: Key)
    requires h != [] && LegalHistory(h) && key in h[|h| - 1].rows && RowOnly(key, h[|h| - 1], t')
    ensures IdFree(t', key, h[|h| - 1].rows[key].id)
  {
    var t := h[|h| - 1];
    LegalIsConsistent(h, |h| - 1);
    forall k | k in t'.rows && k != key ensures k in t.rows && t.rows[k] == t'.rows[k] {
      assert k in t'.rows - {key};
    }
  }

  lemma RowFits(t: Tables, key: Key, row: Row)
    requires Consistent(t) && IdFree(t, key, row.id) && row.secret in t.secrets
    ensures Consistent(t.(rows := t.rows[key := row]))
  {}

  /** A row with an id never used and a live secret violates no constraint. */
  lemma NewRowFits(h: seq<Tables>, key: Key, row: Row)
    requires h != [] && Consistent(h[|h| - 1]) && NeverBound(h, row.id)
    ensures row.secret in h[|h| - 1].secrets ==> Consistent(h[|h| - 1].(rows := h[|h| - 1].rows[key := row]))
  {}

  class Vault {
    const shared: bool
    /** What each of this request's calls to the database does. */
    const faults: nat -> Fault
    var calls: nat
    var tables: Tables
    /** Random ids are modelled as never repeating. */
    var nextSecret: nat
    var nextBinding: nat
    /** The bindings that other requests have read, with the targets beside them. */
    var remembered: map<BindingId, string>
    /** The tables after every statement, oldest first. */
    ghost var history: seq<Tables>
    /** Secrets left live by an insert or a delete that threw. */
    ghost var lost: set<SecretId>
    /** How many inserts and deletes of secrets threw. */
    ghost var secretThrows: nat

    constructor (shared: bool, faults: nat -> Fault)
      ensures Valid() && tables == Tables(map[], map[]) && lost == {}
      ensures this.shared == shared && this.faults == faults
    {
      this.shared, this.faults, calls := shared, faults, 0;
      tables, nextSecret, nextBinding, remembered := Tables(map[], map[]), 0, 0, map[];
      history, lost, secretThrows := [Tables(map[], map[])], {}, 0;
    }

    /** No call throws, unless the statement itself is refused. */
    ghost predicate Reliable() { forall n: nat :: faults(n) == Works }

    /** None of these calls threw. */
    ghost predicate Worked(from: nat, until: nat) { forall n :: from <= n < until ==> faults(n) == Works }

    /** At most one of these calls threw. */
    ghost predicate OneThrew(from: nat, until: nat) {
      from >= until || (OneThrew(from, until - 1) && (faults(until - 1) == Works || Worked(from, until - 1)))
    }

    /** If one did so early, the later ones worked. */
    lemma {:induction false} RestWorked(from: nat, middle: nat, until: nat)
      requires from <= middle <= until && OneThrew(from, until) && !Worked(from, middle)
      ensures Worked(middle, until)
      decreases until
    {
      if middle < until { RestWorked(from, middle, until - 1); }
    }

    lemma {:induction false} OneThrewLater(from: nat, middle: nat, until: nat)
      requires from <= middle <= until && OneThrew(from, until)
      ensures OneThrew(middle, until)
      decreases until
    {
      if middle < until { OneThrewLater(from, middle, until - 1); }
    }

    ghost predicate Stored() reads this {
      && history != [] && history[|history| - 1] == tables
      && (forall s :: s in lost ==> s < nextSecret)
    }

    ghost predicate Valid() reads this {
      Stored() && LegalHistory(history) && Drawn(history, nextSecret, nextBinding) && AllSeen(history, remembered)
    }

    /** What another request's statement may be: a new secret or binding has a new id, and a binding that is
        put back was read before. */
    predicate OthersMay(statement: Statement) reads this {
      && (statement.InsertSecret? ==> statement.secret == nextSecret)
      && (PutsRow(statement) ==>
            || statement.row.id == nextBinding
            || (statement.row.id in remembered && remembered[statement.row.id] == statement.row.target))
    }

    /** A new id, after whatever others do first. */
    method DrawLater() returns (id: BindingId)
      requires Valid()
      modifies this`tables, this`history, this`nextSecret, this`nextBinding, this`remembered
      ensures Valid() && old(history) <= history && id < nextBinding && NeverBound(history, id)
      ensures !shared ==> tables == old(tables) && history == old(history)
    {
      Interfere();
      id := DrawBinding();
    }

    /** Random ids are fresh. */
    method DrawBinding() returns (id: BindingId)
      requires Valid()
      modifies this`nextBinding
      ensures Valid() && id == old(nextBinding) < nextBinding && NeverBound(history, id)
    {
      UndrawnIsNew(history, nextSecret, nextBinding);
      DrawMore(history, nextSecret, nextBinding, nextSecret, nextBinding + 1);
      id := nextBinding;
      nextBinding := nextBinding + 1;
    }

    method DrawSecret() returns (secret: SecretId)
      requires Valid()
      modifies this`nextSecret
      ensures Valid() && secret == old(nextSecret) < nextSecret && NeverLive(history, secret) && secret !in lost
    {
      UndrawnIsNew(history, nextSecret, nextBinding);
      DrawMore(history, nextSecret, nextBinding, nextSecret + 1, nextBinding);
      secret := nextSecret;
      nextSecret := nextSecret + 1;
    }

    /** The tables after a statement that worked or threw. */
    method Record(statement: Statement, after: Tables)
      requires Valid() && AfterThrow(tables, statement, after)
      requires statement.InsertSecret? ==> statement.secret < nextSecret && NeverLive(history, statement.secret)
      modifies this`tables, this`history
      ensures Stored() && tables == after && history == old(history) + [after]
      ensures MayPut(old(history), nextBinding, statement) ==> Valid()
    {
      ghost var past := history;
      tables, history := after, history + [after];
      if MayPut(past, nextBinding, statement) {
        if PutsRow(statement) && Seen(past, statement.row.id, statement.row.target) {
          SeenIsDrawn(past, nextSecret, nextBinding, statement.row.id, statement.row.target);
        }
        StatementKeeps(past, nextSecret, nextBinding, statement, after);
        AllSeenStays(past, history, remembered);
      }
    }

    /** Another request reads a binding. */
    method Remember(key: Key)
      requires Valid()
      modifies this`remembered
      ensures Valid()
    {
      if key in tables.rows {
        assert HasBinding(history[|history| - 1], key, tables.rows[key].id, tables.rows[key].target);
        remembered := remembered[tables.rows[key].id := tables.rows[key].target];
      }
    }

    /** Another request executes a statement. */
    method Other(statement: Statement)
      requires Valid() && OthersMay(statement) && Execute(tables, statement).Some?
      modifies this`tables, this`history, this`nextSecret, this`nextBinding
      ensures Valid() && old(history) <= history && old(nextSecret) <= nextSecret
    {
      if statement.InsertSecret? {
        var _ := DrawSecret();
      } else if PutsRow(statement) && statement.row.id == nextBinding {
        var _ := DrawBinding();
      }
      Record(statement, Execute(tables, statement).value.0);
    }

    /** What other requests do while this one waits: any number of statements. Nothing, when the vault is not shared. */
    method Interfere()
      requires Valid()
      modifies this`tables, this`history, this`nextSecret, this`nextBinding, this`remembered
      ensures Valid() && old(history) <= history && old(nextSecret) <= nextSecret
      ensures !shared ==> tables == old(tables) && history == old(history)
    {
      if shared {
        var rounds: nat :| true;
        for n := 0 to rounds
          invariant Valid() && old(history) <= history && old(nextSecret) <= nextSecret
        {
          var key: Key, statement: Statement := *, *;
          Remember(key);
          if OthersMay(statement) && Execute(tables, statement).Some? {
            Other(statement);
          }
        }
      }
    }

    /** One SQL statement, as the database runs it; `None` when it threw. */
    method Submit(statement: Statement) returns (changes: Option<nat>)
      requires Valid()
      requires statement.InsertSecret? ==> statement.secret < nextSecret && NeverLive(history, statement.secret)
      modifies this`tables, this`history, this`calls
      ensures old(calls) <= calls
      ensures Stored() && history == old(history) + [tables]
      ensures MayPut(old(history), nextBinding, statement) ==> Valid()
      ensures changes.Some? ==> Execute(old(tables), statement) == Some((tables, changes.value))
      ensures changes.None? ==> AfterThrow(old(tables), statement, tables)
      ensures Worked(old(calls), calls) && Execute(old(tables), statement).Some? ==> changes.Some?
    {
      var fault := faults(calls);
      calls := calls + 1;
      var outcome := Execute(tables, statement);
      Record(statement, if outcome.Some? && fault != ThrowsBefore then outcome.value.0 else tables);
      changes := if outcome.Some? && fault == Works then Some(outcome.value.1) else None;
    }

    /** A statement that puts no row and no secret, after whatever others do first. */
    method Run(statement: Statement) returns (changes: Option<nat>)
      requires Valid() && !statement.InsertSecret? && !PutsRow(statement)
      modifies this`tables, this`history, this`nextSecret, this`nextBinding, this`remembered, this`calls
      ensures old(calls) <= calls
      ensures Valid() && old(history) < history && old(nextSecret) <= nextSecret
      ensures changes.Some? ==> Execute(history[|history| - 2], statement) == Some((tables, changes.value))
      ensures changes.None? ==> AfterThrow(history[|history| - 2], statement, tables)
      ensures Worked(old(calls), calls) && Execute(history[|history| - 2], statement).Some? ==> changes.Some?
      ensures !shared ==> history == old(history) + [tables]
    {
      Interfere();
      changes := Submit(statement);
    }

    /** The row of one server (`mcpBinding`); `None` when the query threw. */
    method Select(key: Key) returns (r: Option<Option<Row>>)
      requires Valid()
      modifies this`tables, this`history, this`nextSecret, this`nextBinding, this`remembered, this`calls
      ensures old(calls) <= calls
      ensures Valid() && old(history) <= history && old(nextSecret) <= nextSecret
      ensures !shared ==> history == old(history) && tables == old(tables)
      ensures r.Some? ==> r.value == if key in tables.rows then Some(tables.rows[key]) else None
      ensures Worked(old(calls), calls) ==> r.Some?
    {
      Interfere();
      var fault := faults(calls);
      calls := calls + 1;
      if fault == Works {
        r := Some(if key in tables.rows then Some(tables.rows[key]) else None);
      } else {
        r := None;
      }
    }

    method Create(credential: string) returns (r: Option<SecretId>)
      requires Valid()
      modifies this
      ensures old(calls) <= calls
      ensures Valid() && old(history) <= history && old(lost) <= lost
      ensures r.None? <==> secretThrows > old(secretThrows)
      ensures r.Some? ==>
        && secretThrows == old(secretThrows) && lost == old(lost) && r.value !in lost
        && NeverLive(old(history), r.value)
        && r.value in tables.secrets && tables.secrets[r.value] == credential
      ensures Worked(old(calls), calls) ==> r.Some?
      ensures !shared && r.Some? ==> tables == old(tables).(secrets := old(tables).secrets[r.value := credential])
      ensures !shared && r.None? ==>
        || tables == old(tables)
        || exists secret: SecretId :: secret in lost && NeverLive(old(history), secret)
             && tables == old(tables).(secrets := old(tables).secrets[secret := credential])
    {
      Interfere();
      var secret := DrawSecret();
      LegalIsConsistent(history, |history| - 1);
      var changes := Submit(InsertSecret(secret, credential));
      if changes.None? {
        lost := if secret in tables.secrets then lost + {secret} else lost;
        secretThrows := secretThrows + 1;
        return None;
      }
      r := Some(secret);
    }

    /** `cleanupSecret`: delete a secret and ignore a failure (lib/mcp-tool-service.ts:9). */
    method Cleanup(secret: Option<SecretId>)
      requires Valid()
      modifies this
      ensures old(calls) <= calls
      ensures Valid() && old(history) <= history && old(lost) <= lost && old(secretThrows) <= secretThrows
      ensures secretThrows == old(secretThrows) ==> lost == old(lost)
      ensures Worked(old(calls), calls) ==> secretThrows == old(secretThrows)
      ensures secret.Some? && secret.value in tables.secrets ==>
        secret.value in lost && old(secretThrows) < secretThrows
      ensures !shared && secret.None? ==>
        tables == old(tables) && lost == old(lost) && secretThrows == old(secretThrows)
      ensures !shared && secret.Some? ==>
        tables == Without(old(tables), secret.value) || (tables == old(tables) && secret.value in lost)
      ensures !shared ==> Retired(old(tables), tables, secret, None)
    {
      if secret.Some? {
        var ok := Delete(secret.value);
        if !ok {
          secretThrows := secretThrows + 1;
          if secret.value in tables.secrets { lost := lost + {secret.value}; }
        }
      }
    }

    /** The secret and the bindings that use it go; when it threw they may still be there. */
    method Delete(secret: SecretId) returns (ok: bool)
      requires Valid()
      modifies this`tables, this`history, this`nextSecret, this`nextBinding, this`remembered, this`calls
      ensures old(calls) <= calls
      ensures Valid() && old(history) < history && old(nextSecret) <= nextSecret
      ensures ok ==> secret !in tables.secrets
      ensures Worked(old(calls), calls) ==> ok
      ensures !shared ==>
        tables == Without(old(tables), secret) || (!ok && tables == old(tables) && secret in tables.secrets)
      ensures secret in tables.secrets ==> secret < nextSecret
    {
      var changes := Run(DeleteSecret(secret));
      LegalIsConsistent(history, |history| - 2);
      DeleteSecretEffect(history[|history| - 2], secret);
      ok := changes.Some?;
    }

    /** The binding id of a server. While the call lasted, the server's row was the one it is the id of. */
    method Ensure(repository: RepositoryId, server: ServerId, endpoint: Endpoint, secret: SecretId)
        returns (r: Option<BindingId>)
      requires Valid()
      modifies this`tables, this`history, this`nextSecret, this`nextBinding, this`remembered, this`calls
      ensures old(calls) <= calls
      ensures !shared ==> RowOnly((repository, server), old(tables), tables)
      ensures Valid() && old(history) <= history
      ensures r.Some? ==>
        && endpoint.href.Some? && Seen(history, r.value, endpoint.href.value)
        && BoundSince(history, |old(history)| - 1, (repository, server), Row(r.value, endpoint.href.value, secret))
      ensures !shared ==> tables.secrets == old(tables).secrets
      ensures !shared && r.Some? ==>
        && (repository, server) in tables.rows
        && tables.rows[(repository, server)] == Row(r.value, endpoint.href.value, secret) && secret in tables.secrets
        && tables.rows == old(tables).rows[(repository, server) := tables.rows[(repository, server)]]
        && ((repository, server) in old(tables).rows ==> tables == old(tables))
      ensures !shared && tables != old(tables) ==>
        && (repository, server) !in old(tables).rows
        && (repository, server) in tables.rows
        && tables.rows == old(tables).rows[(repository, server) := tables.rows[(repository, server)]]
        && endpoint.href.Some? && tables.rows[(repository, server)].target == endpoint.href.value
        && tables.rows[(repository, server)].secret == secret
      ensures !shared && Worked(old(calls), calls) ==>
        (r.Some? <==> CanEnsure((repository, server), endpoint, secret, old(tables)))
    {
      if endpoint.href.None? { return None; }
      var key, target := (repository, server), endpoint.href.value;
      var current := Select(key);
      if current.None? { return None; }
      if current.value.Some? {
        var row := current.value.value;
        if row.secret == secret && row.target == target {
          LegalIsConsistent(history, |history| - 1);
          BoundIsSeen(history, |old(history)| - 1, key, row);
          return Some(row.id);
        }
        return None;
      }
      r := Bind(key, target, secret);
      if r.Some? { BoundIsSeen(history, |old(history)| - 1, key, Row(r.value, target, secret)); }
    }

    /** Insert a new binding; after a lost race the winner's row will do if it says the same. */
    method Bind(key: Key, target: string, secret: SecretId) returns (r: Option<BindingId>)
      requires Valid() && (!shared ==> key !in tables.rows)
      modifies this`tables, this`history, this`nextSecret, this`nextBinding, this`remembered, this`calls
      ensures old(calls) <= calls
      ensures Valid() && old(history) <= history
      ensures r.Some? ==> BoundSince(history, |old(history)| - 1, key, Row(r.value, target, secret))
      ensures !shared ==>
        || tables == old(tables)
        || (key in tables.rows &&
            tables == old(tables).(rows := old(tables).rows[key := Row(tables.rows[key].id, target, secret)]))
      ensures !shared && r.Some? ==>
        key in tables.rows && tables.rows[key] == Row(r.value, target, secret) && secret in tables.secrets
      ensures !shared && Worked(old(calls), calls) && secret in old(tables).secrets ==> r.Some?
    {
      var id := DrawLater();
      LegalIsConsistent(history, |history| - 1);
      NewRowFits(history, key, Row(id, target, secret));
      var changes := Submit(InsertRow(key, Row(id, target, secret)));
      if changes.Some? { return Some(id); }
      var raced := Select(key);
      LegalIsConsistent(history, |history| - 1);
      if raced.Some? && raced.value.Some? && raced.value.value.secret == secret && raced.value.value.target == target {
        return Some(raced.value.value.id);
      }
      return None;
    }

    /** On success the row had the expected id, target and secret when the statement ran. */
    method Rotate(
        repository: RepositoryId, server: ServerId, id: BindingId, endpoint: Endpoint, secret: SecretId,
        expected: SecretId)
        returns (ok: bool)
      requires Valid()
      modifies this`tables, this`history, this`nextSecret, this`nextBinding, this`remembered, this`calls
      ensures old(calls) <= calls
      ensures !shared ==> RowOnly((repository, server), old(tables), tables)
      ensures Valid() && old(history) <= history
      ensures endpoint.href.None? ==> !ok
      ensures ok ==>
        && old(history) < history
        && var was := history[|history| - 2];
           && (repository, server) in was.rows
           && was.rows[(repository, server)] == Row(id, endpoint.href.value, expected)
           && tables == was.(rows := was.rows[(repository, server) := Row(id, endpoint.href.value, secret)])
           && (!shared ==> was == old(tables))
      ensures !shared && !ok ==>
        || tables == old(tables)
        || (&& (repository, server) in old(tables).rows && endpoint.href.Some?
            && old(tables).rows[(repository, server)] == Row(id, endpoint.href.value, expected)
            && tables == old(tables).(rows :=
                old(tables).rows[(repository, server) := Row(id, endpoint.href.value, secret)]))
      ensures !shared && Worked(old(calls), calls) && endpoint.href.Some? && secret in old(tables).secrets &&
        (repository, server) in old(tables).rows &&
        old(tables).rows[(repository, server)] == Row(id, endpoint.href.value, expected)
        ==> ok
    {
      if endpoint.href.None? { return false; }
      Interfere();
      ok := SubmitRotate((repository, server), Row(id, endpoint.href.value, expected), secret);
    }

    /** The conditional update that gives a row another secret. */
    method SubmitRotate(key: Key, row: Row, secret: SecretId) returns (ok: bool)
      requires Valid()
      modifies this`tables, this`history, this`calls
      ensures old(calls) <= calls
      ensures Valid() && history == old(history) + [tables]
      ensures ok ==> key in old(tables).rows && old(tables).rows[key] == row
      ensures ok ==> tables == old(tables).(rows := old(tables).rows[key := row.(secret := secret)])
      ensures tables == old(tables) ||
        (&& key in old(tables).rows && old(tables).rows[key] == row
         && tables == old(tables).(rows := old(tables).rows[key := row.(secret := secret)]))
      ensures RowOnly(key, old(tables), tables)
      ensures Worked(old(calls), calls) && key in old(tables).rows && secret in old(tables).secrets ==>
        old(tables).rows[key] == row ==> ok
    {
      LegalIsConsistent(history, |history| - 1);
      var changes := Submit(RotateRow(key, row.id, row.target, secret, row.secret));
      ok := changes == Some(1);
    }

    /** On success the row had the old id and target when the statement ran, and the new id was never used. */
    method Replace(
        repository: RepositoryId, server: ServerId, oldId: BindingId, oldEndpoint: Endpoint, endpoint: Endpoint,
        secret: SecretId)
        returns (r: Option<BindingId>)
      requires Valid()
      modifies this`tables, this`history, this`nextSecret, this`nextBinding, this`remembered, this`calls
      ensures old(calls) <= calls
      ensures !shared ==> RowOnly((repository, server), old(tables), tables)
      ensures Valid() && old(history) <= history
      ensures r.Some? ==>
        && old(history) < history && endpoint.href.Some? && NeverBound(old(history), r.value)
        && var was := history[|history| - 2];
           && (repository, server) in was.rows
           && was.rows[(repository, server)].id == oldId
           && Some(was.rows[(repository, server)].target) == oldEndpoint.href
           && tables == was.(rows := was.rows[(repository, server) := Row(r.value, endpoint.href.value, secret)])
           && (!shared ==> was == old(tables))
      ensures !shared && r.None? ==>
        || tables == old(tables)
        || (&& (repository, server) in old(tables).rows && (repository, server) in tables.rows && endpoint.href.Some?
            && tables.rows[(repository, server)].target == endpoint.href.value
            && tables.rows[(repository, server)].secret == secret
            && tables == old(tables).(rows :=
                old(tables).rows[(repository, server) := tables.rows[(repository, server)]]))
      ensures !shared && Worked(old(calls), calls) && endpoint.href.Some? && secret in old(tables).secrets &&
        (repository, server) in old(tables).rows &&
        old(tables).rows[(repository, server)].id == oldId &&
        Some(old(tables).rows[(repository, server)].target) == oldEndpoint.href
        ==> r.Some?
    {
      if oldEndpoint.href.None? || endpoint.href.None? { return None; }
      var id := DrawLater();
      var ok := SubmitReplace((repository, server), oldId, oldEndpoint.href.value,
          Row(id, endpoint.href.value, secret));
      r := if ok then Some(id) else None;
    }

    /** The conditional update that gives a row a new id and target. */
    method SubmitReplace(key: Key, oldId: BindingId, oldTarget: string, row: Row) returns (ok: bool)
      requires Valid() && row.id < nextBinding && NeverBound(history, row.id)
      modifies this`tables, this`history, this`calls
      ensures old(calls) <= calls
      ensures Valid() && history == old(history) + [tables]
      ensures ok ==> HasBinding(old(tables), key, oldId, oldTarget)
      ensures ok ==> tables == old(tables).(rows := old(tables).rows[key := row])
      ensures tables == old(tables) ||
        (key in old(tables).rows && tables == old(tables).(rows := old(tables).rows[key := row]))
      ensures RowOnly(key, old(tables), tables)
      ensures Worked(old(calls), calls) && HasBinding(old(tables), key, oldId, oldTarget) ==>
        row.secret in old(tables).secrets ==> ok
    {
      LegalIsConsistent(history, |history| - 1);
      NewRowFits(history, key, row);
      var changes := Submit(ReplaceRow(key, oldId, oldTarget, row));
      ok := changes == Some(1);
    }

    /** Put a binding back. The source overwrites whatever row the server has and looks at nothing else, so the
        histories stay legal only if the id was seen with this endpoint's target before: that is how the sagas
        call it. */
    method Restore(repository: RepositoryId, server: ServerId, id: BindingId, endpoint: Endpoint, secret: SecretId)
        returns (ok: bool)
      requires Valid()
      modifies this`tables, this`history, this`nextSecret, this`nextBinding, this`remembered, this`calls
      ensures old(calls) <= calls
      ensures !shared ==> RowOnly((repository, server), old(tables), tables)
      ensures Stored() && old(history) <= history
      ensures (endpoint.href.Some? ==> Seen(old(history), id, endpoint.href.value)) ==> Valid()
      ensures !shared && ok ==>
        && endpoint.href.Some?
        && tables == old(tables).(rows :=
             old(tables).rows[(repository, server) := Row(id, endpoint.href.value, secret)])
      ensures !shared && !ok ==>
        || tables == old(tables)
        || (&& endpoint.href.Some?
            && tables == old(tables).(rows :=
                 old(tables).rows[(repository, server) := Row(id, endpoint.href.value, secret)]))
      ensures !shared && Worked(old(calls), calls) && endpoint.href.Some? && secret in old(tables).secrets ==>
        IdFree(old(tables), (repository, server), id) ==> ok
    {
      if endpoint.href.None? { return false; }
      var key, row := (repository, server), Row(id, endpoint.href.value, secret);
      var current := Select(key);
      if current.None? { return false; }
      if current.value == Some(row) {
        assert shared || tables.rows == tables.rows[key := row];
        return true;
      }
      Interfere();
      if Seen(old(history), id, row.target) { SeenStays(old(history), history, id, row.target); }
      ok := SubmitRow(key, row, current.value.Some?);
    }

    /** The unconditional update or insert of a row. */
    method SubmitRow(key: Key, row: Row, update: bool) returns (ok: bool)
      requires Valid()
      modifies this`tables, this`history, this`calls
      ensures old(calls) <= calls
      ensures Stored() && history == old(history) + [tables]
      ensures Seen(old(history), row.id, row.target) ==> Valid()
      ensures ok && update == (key in old(tables).rows) ==> tables == old(tables).(rows := old(tables).rows[key := row])
      ensures tables == old(tables) || tables == old(tables).(rows := old(tables).rows[key := row])
      ensures RowOnly(key, old(tables), tables)
      ensures Worked(old(calls), calls) && IdFree(old(tables), key, row.id) && row.secret in old(tables).secrets ==>
        update == (key in old(tables).rows) ==> ok
    {
      LegalIsConsistent(history, |history| - 1);
      if IdFree(tables, key, row.id) && row.secret in tables.secrets { RowFits(tables, key, row); }
      var changes := Submit(if update then OverwriteRow(key, row) else InsertRow(key, row));
      ok := changes.Some?;
    }

    method Revoke(repository: RepositoryId, server: ServerId, id: BindingId) returns (ok: bool)
      requires Valid()
      modifies this`tables, this`history, this`nextSecret, this`nextBinding, this`remembered, this`calls
      ensures old(calls) <= calls
      ensures !shared ==> RowOnly((repository, server), old(tables), tables)
      ensures Valid() && old(history) <= history
      ensures ok ==>
        && old(history) < history
        && var was := history[|history| - 2];
           && (repository, server) in was.rows && was.rows[(repository, server)].id == id
           && tables == was.(rows := was.rows - {(repository, server)})
           && (!shared ==> was == old(tables))
      ensures !shared && !ok ==>
        || tables == old(tables)
        || (&& (repository, server) in old(tables).rows && old(tables).rows[(repository, server)].id == id
            && tables == old(tables).(rows := old(tables).rows - {(repository, server)}))
      ensures !shared && Worked(old(calls), calls) && (repository, server) in old(tables).rows ==>
        old(tables).rows[(repository, server)].id == id ==> ok
    {
      LegalIsConsistent(history, |history| - 1);
      var changes := Run(DeleteRow((repository, server), id));
      ok := changes == Some(1);
    }

    /** The row of a binding id; `None` when there is none or the query threw. */
    method SelectById(repository: RepositoryId, id: BindingId) returns (r: Option<Row>)
      requires Valid()
      modifies this`tables, this`history, this`nextSecret, this`nextBinding, this`remembered, this`calls
      ensures old(calls) <= calls
      ensures Valid() && old(history) <= history
      ensures !shared ==> history == old(history) && tables == old(tables)
      ensures r.Some? ==>
        r.value.id == id && exists k: Key :: k in tables.rows && k.0 == repository && tables.rows[k] == r.value
      ensures Worked(old(calls), calls) && r.None? ==>
        forall k: Key :: k in tables.rows && k.0 == repository ==> tables.rows[k].id != id
    {
      Interfere();
      var fault := faults(calls);
      calls := calls + 1;
      if fault == Works && exists k :: k in tables.rows && k.0 == repository && tables.rows[k].id == id {
        var key :| key in tables.rows && key.0 == repository && tables.rows[key].id == id;
        r := Some(tables.rows[key]);
      } else {
        r := None;
      }
    }

    /** `resolve`: the credential of a secret; `None` when there is none or the query threw. */
    method Resolve(secret: SecretId) returns (r: Option<string>)
      requires Valid()
      modifies this`tables, this`history, this`nextSecret, this`nextBinding, this`remembered, this`calls
      ensures old(calls) <= calls
      ensures Valid() && old(history) <= history
      ensures !shared ==> history == old(history) && tables == old(tables)
      ensures r.Some? ==> secret in tables.secrets && tables.secrets[secret] == r.value
      ensures Worked(old(calls), calls) && secret in tables.secrets ==> r.Some?
    {
      Interfere();
      var fault := faults(calls);
      calls := calls + 1;
      r := if fault == Works && secret in tables.secrets then Some(tables.secrets[secret]) else None;
    }

    /** The credential behind a binding id. The caller names no endpoint and none is checked; the row and the
        secret are read at two different times, and yet the answer is what one instant of the call would give. */
    method ResolveBinding(repository: RepositoryId, id: BindingId) returns (credential: Option<string>)
      requires Valid()
      modifies this`tables, this`history, this`nextSecret, this`nextBinding, this`remembered, this`calls
      ensures old(calls) <= calls
      ensures Valid() && old(history) <= history
      ensures !shared ==> history == old(history)
      ensures credential.Some? ==>
        exists row: Row :: row.id == id && ResolvedSince(history, |old(history)| - 1, repository, row, credential.value)
      ensures !shared && Worked(old(calls), calls) ==>
        (credential.Some? <==>
            exists k: Key :: k in old(tables).rows && k.0 == repository && old(tables).rows[k].id == id)
    {
      var row := SelectById(repository, id);
      if row.None? { return None; }
      ghost var m := |history| - 1;
      ghost var key :| key in tables.rows && key.0 == repository && tables.rows[key] == row.value;
      LegalIsConsistent(history, m);
      credential := Resolve(row.value.secret);
      if credential.Some? {
        ReadsAsOne(history, m, key, row.value, credential.value);
        assert ResolvedSince(history, |old(history)| - 1, repository, row.value, credential.value);
      }
    }
  }

  /** In the whole life of a vault, a binding id found in the table twice is found with the same trust target. */
  lemma BindingKeepsTarget(vault: Vault, i: nat, j: nat, k: Key, l: Key)
    requires vault.Valid() && i < |vault.history| && j < |vault.history|
    requires k in vault.history[i].rows && l in vault.history[j].rows &&
      vault.history[i].rows[k].id == vault.history[j].rows[l].id
    ensures vault.history[i].rows[k].target == vault.history[j].rows[l].target
  {
    LegalIsStable(vault.history);
  }

  lemma DeleteSecretEffect(t: Tables, secret: SecretId)
    requires Consistent(t)
    ensures Execute(t, DeleteSecret(secret)).Some?
    ensures Execute(t, DeleteSecret(secret)).value.0 == Without(t, secret)
  {
    if secret !in t.secrets {
      assert t.secrets - {secret} == t.secrets;
      assert WithoutSecret(t.rows, secret) == t.rows;
    }
  }
}
