/** The strict catalogue loader and the tolerant diagnoser of lib/artifact-repository.ts:330-367 and 458-468, with
    the duplicate check of lib/artifact-contract.ts:104-111, over one tree. */
module CatalogueReaders {
  import opened Options
  import opened RepositoryLayout

  const MAX_BYTES := 1024 * 1024
  const MAX_ERRORS := 50

  datatype Entry = Entry(kind: string, path: Option<string>, sha: Option<string>, size: Option<nat>)
  datatype Artifact = Artifact(id: string, path: string)

  /** What the server answers for a blob: its size and, when its encoding is supported, its text; or an error.
      A transport failure aborts either reader and is not among these. */
  datatype Blob = Blob(size: nat, text: Option<string>) | NotServed

  /** The outside world: the blobs by sha, and the parser, which gives the artifact's id or refuses. */
  datatype Source = Source(fetch: string -> Blob, parse: (string, string) -> Option<string>)

  datatype Code = InvalidPath | MissingBlobSha | BlobTooLarge | BlobRefused | ContentInvalid | DuplicateId

  /** `/^[a-f0-9]{7,64}$/i` */
  predicate HexSha(s: string) {
    7 <= |s| <= 64 && forall i :: 0 <= i < |s| ==> '0' <= s[i] <= '9' || 'a' <= s[i] <= 'f' || 'A' <= s[i] <= 'F'
  }

  predicate IsCandidate(entry: Entry) {
    entry.kind == "blob" && entry.path.Some? && IsArtifactMarkdownCandidate(entry.path.value)
  }

  /** `list.filter(keep)` */
  function Filter<T>(list: seq<T>, keep: T -> bool): seq<T> {
    if list == [] then [] else (if keep(list[0]) then [list[0]] else []) + Filter(list[1..], keep)
  }

  function Candidates(tree: seq<Entry>): seq<Entry> { Filter(tree, IsCandidate) }

  /** The positions of the entries to keep: every one, once, in list order. */
  ghost predicate AreKept<T>(list: seq<T>, keep: T -> bool, at: seq<nat>) {
    && (forall i, j :: 0 <= i < j < |at| ==> at[i] < at[j])
    && (forall i :: 0 <= i < |at| ==> at[i] < |list| && keep(list[at[i]]))
    && (forall k: nat :: k < |list| && keep(list[k]) ==> k in at)
  }

  lemma {:induction false} FilterFrom<T>(list: seq<T>, keep: T -> bool, from: nat) returns (at: seq<nat>)
    requires from <= |list|
    ensures |at| == |Filter(list[from..], keep)|
    ensures forall i :: 0 <= i < |at| ==> from <= at[i] < |list| && list[at[i]] == Filter(list[from..], keep)[i]
    ensures forall i, j :: 0 <= i < j < |at| ==> at[i] < at[j]
    ensures forall i :: 0 <= i < |at| ==> keep(list[at[i]])
    ensures forall k: nat :: from <= k < |list| && keep(list[k]) ==> k in at
    decreases |list| - from
  {
    if from == |list| { return []; }
    var rest := FilterFrom(list, keep, from + 1);
    assert list[from..][1..] == list[from + 1..];
    at := if keep(list[from]) then [from] + rest else rest;
  }

  /** The positions of the candidates in the tree: every one, once, in tree order. */
  ghost predicate AreCandidates(tree: seq<Entry>, at: seq<nat>) { AreKept(tree, IsCandidate, at) }

  /** The filter keeps exactly the candidates, in tree order. */
  lemma CandidatesArePicked(tree: seq<Entry>) returns (at: seq<nat>)
    ensures AreCandidates(tree, at) && |at| == |Candidates(tree)|
    ensures forall i :: 0 <= i < |at| ==> tree[at[i]] == Candidates(tree)[i]
  {
    at := FilterFrom(tree, IsCandidate, 0);
    assert tree[0..] == tree;
  }

  /** `fetchBlob`: the text, or what is wrong with the blob. */
  function FetchBlob(source: Source, sha: string): (r: Option<string>) {
    match source.fetch(sha)
    case NotServed => None
    case Blob(size, text) => if size > MAX_BYTES then None else text
  }

  function Parse(source: Source, text: string, path: string): Option<Artifact> {
    if !Classified(path) then None
    else match source.parse(text, path) case None => None case Some(id) => Some(Artifact(id, path))
  }

  // ---- the strict loader ----

  /** One file of `artifactsFromTree`; `None` is a thrown error. */
  function LoadFile(source: Source, entry: Entry): Option<Artifact> {
    if entry.path.None? || entry.path.value == "" || entry.sha.None? || entry.sha.value == "" then None
    else if !Classified(entry.path.value) then None
    else match FetchBlob(source, entry.sha.value)
      case None => None
      case Some(text) => Parse(source, text, entry.path.value)
  }

  /** The artifact a file holds: it is at the file's path, and its id is what the parser makes of the blob. */
  predicate Yields(source: Source, entry: Entry, artifact: Artifact) {
    && entry.path == Some(artifact.path) && Classified(artifact.path)
    && entry.sha.Some? && entry.sha.value != "" && source.fetch(entry.sha.value).Blob?
    && var blob := source.fetch(entry.sha.value);
       blob.size <= MAX_BYTES && blob.text.Some? && source.parse(blob.text.value, artifact.path) == Some(artifact.id)
  }

  lemma LoadFileYields(source: Source, entry: Entry, artifact: Artifact)
    ensures LoadFile(source, entry) == Some(artifact) <==> Yields(source, entry, artifact)
  {
    if Yields(source, entry, artifact) { ClassifiedIsNotEmpty(artifact.path); }
  }

  predicate UniqueIds(artifacts: seq<Artifact>) {
    forall i, j :: 0 <= i < j < |artifacts| ==> artifacts[i].id != artifacts[j].id
  }

  /** `validateUniqueArtifactIds`: false where it throws. A remembered path counts only when it is not empty. */
  method ValidateUniqueIds(artifacts: seq<Artifact>) returns (ok: bool)
    ensures (forall i :: 0 <= i < |artifacts| ==> artifacts[i].path != "") ==> (ok <==> UniqueIds(artifacts))
  {
    var seen: map<string, string> := map[];
    for n := 0 to |artifacts|
      invariant forall i :: 0 <= i < n ==> artifacts[i].id in seen
      invariant forall id :: id in seen ==>
        exists i :: 0 <= i < n && artifacts[i].id == id && artifacts[i].path == seen[id]
      invariant (forall i :: 0 <= i < |artifacts| ==> artifacts[i].path != "") ==> UniqueIds(artifacts[..n])
    {
      var artifact := artifacts[n];
      if artifact.id in seen && seen[artifact.id] != "" { return false; }
      seen := seen[artifact.id := artifact.path];
    }
    assert artifacts[..|artifacts|] == artifacts;
    ok := true;
  }

  /** `tree.find(entry => entry.type === "blob" && entry.path === path)?.sha` */
  function FindSha(tree: seq<Entry>, path: string): Option<string> {
    if tree == [] then None
    else if tree[0].kind == "blob" && tree[0].path == Some(path) then tree[0].sha
    else FindSha(tree[1..], path)
  }

  predicate ShaFound(tree: seq<Entry>, artifact: Artifact) {
    FindSha(tree, artifact.path).Some? && HexSha(FindSha(tree, artifact.path).value)
  }

  function Loads(source: Source, files: seq<Entry>): seq<Option<Artifact>> {
    seq(|files|, i requires 0 <= i < |files| => LoadFile(source, files[i]))
  }

  predicate AllLoad(loads: seq<Option<Artifact>>) { forall i :: 0 <= i < |loads| ==> loads[i].Some? }

  function Values(loads: seq<Option<Artifact>>): (r: seq<Artifact>)
    requires AllLoad(loads)
    ensures |r| == |loads| && forall i :: 0 <= i < |loads| ==> r[i] == loads[i].value
  {
    seq(|loads|, i requires 0 <= i < |loads| => loads[i].value)
  }

  /** Every file loads, the ids are unique, and every artifact's sha is a sha. */
  predicate StrictOk(tree: seq<Entry>, loads: seq<Option<Artifact>>) {
    && AllLoad(loads)
    && UniqueIds(Values(loads))
    && forall i :: 0 <= i < |loads| ==> ShaFound(tree, loads[i].value)
  }

  predicate LoadsStrictly(source: Source, tree: seq<Entry>) {
    StrictOk(tree, Loads(source, Candidates(tree)))
  }

  ghost predicate HoldsArtifact(source: Source, tree: seq<Entry>, entry: Entry) {
    exists artifact :: Yields(source, entry, artifact) && ShaFound(tree, artifact)
  }

  ghost predicate IdsDiffer(source: Source, one: Entry, other: Entry) {
    forall a, b :: Yields(source, one, a) && Yields(source, other, b) ==> a.id != b.id
  }

  /** Every candidate of the tree, at the positions `at`, holds an artifact, no two the same id, and a sha is found for
      its path. */
  ghost predicate StrictTree(source: Source, tree: seq<Entry>, at: seq<nat>)
    requires forall i :: 0 <= i < |at| ==> at[i] < |tree|
  {
    && (forall i :: 0 <= i < |at| ==> HoldsArtifact(source, tree, tree[at[i]]))
    && (forall i, j :: 0 <= i < j < |at| ==> IdsDiffer(source, tree[at[i]], tree[at[j]]))
  }

  lemma HoldsArtifactIff(source: Source, tree: seq<Entry>, entry: Entry)
    ensures HoldsArtifact(source, tree, entry) <==>
      LoadFile(source, entry).Some? && ShaFound(tree, LoadFile(source, entry).value)
  {
    var load := LoadFile(source, entry);
    if load.Some? { LoadFileYields(source, entry, load.value); }
    if HoldsArtifact(source, tree, entry) {
      var artifact :| Yields(source, entry, artifact) && ShaFound(tree, artifact);
      LoadFileYields(source, entry, artifact);
    }
  }

  lemma IdsDifferIff(source: Source, one: Entry, other: Entry)
    requires LoadFile(source, one).Some? && LoadFile(source, other).Some?
    ensures IdsDiffer(source, one, other) <==> LoadFile(source, one).value.id != LoadFile(source, other).value.id
  {
    forall artifact ensures Yields(source, one, artifact) <==> LoadFile(source, one) == Some(artifact) {
      LoadFileYields(source, one, artifact);
    }
    forall artifact ensures Yields(source, other, artifact) <==> LoadFile(source, other) == Some(artifact) {
      LoadFileYields(source, other, artifact);
    }
    assert Yields(source, one, LoadFile(source, one).value);
    assert Yields(source, other, LoadFile(source, other).value);
  }

  lemma LoadsStrictlyIff(source: Source, tree: seq<Entry>, at: seq<nat>)
    requires |at| == |Candidates(tree)|
    requires forall i :: 0 <= i < |at| ==> at[i] < |tree| && tree[at[i]] == Candidates(tree)[i]
    ensures LoadsStrictly(source, tree) <==> StrictTree(source, tree, at)
  {
    var loads := Loads(source, Candidates(tree));
    forall i | 0 <= i < |at|
      ensures HoldsArtifact(source, tree, tree[at[i]]) <==> loads[i].Some? && ShaFound(tree, loads[i].value)
    {
      HoldsArtifactIff(source, tree, tree[at[i]]);
    }
    if AllLoad(loads) {
      forall i, j | 0 <= i < j < |at|
        ensures IdsDiffer(source, tree[at[i]], tree[at[j]]) <==> Values(loads)[i].id != Values(loads)[j].id
      {
        assert loads[i].Some? && loads[j].Some?;
        IdsDifferIff(source, tree[at[i]], tree[at[j]]);
      }
    }
  }

  lemma LoadedPath(source: Source, entry: Entry)
    requires LoadFile(source, entry).Some?
    ensures entry.path.Some? && entry.path.value != "" && LoadFile(source, entry).value.path == entry.path.value
  {}

  /** `artifactsFromTree` once its files are fetched and parsed; `None` is a thrown error. */
  method CollectArtifacts(loads: seq<Option<Artifact>>) returns (r: Option<seq<Artifact>>)
    requires forall i :: 0 <= i < |loads| && loads[i].Some? ==> loads[i].value.path != ""
    ensures r.Some? <==> AllLoad(loads) && UniqueIds(Values(loads))
    ensures r.Some? ==> r.value == Values(loads)
  {
    var artifacts: seq<Artifact> := [];
    for n := 0 to |loads|
      invariant |artifacts| == n
      invariant forall i :: 0 <= i < n ==> loads[i] == Some(artifacts[i])
    {
      if loads[n].None? { return None; }
      artifacts := artifacts + [loads[n].value];
    }
    assert artifacts == Values(loads);
    var unique := ValidateUniqueIds(artifacts);
    r := if unique then Some(artifacts) else None;
  }

  /** The strict reading of a tree whose candidates are at the positions `at`: for each of them, in tree order, its
      artifact and its sha; nothing, exactly when the tree is not strict. */
  ghost predicate IsCatalogueOf(
      source: Source, tree: seq<Entry>, at: seq<nat>, r: Option<seq<(Artifact, string)>>)
  {
    && AreCandidates(tree, at) && (r.Some? <==> StrictTree(source, tree, at))
    && (r.Some? ==>
          |r.value| == |at| && forall i :: 0 <= i < |at| ==>
            && Yields(source, tree[at[i]], r.value[i].0)
            && FindSha(tree, r.value[i].0.path) == Some(r.value[i].1))
  }

  /** `loadCatalogue` before its artifacts are sorted by title: for every candidate of the tree its artifact and its
      sha, or a thrown error. */
  method LoadCatalogue(source: Source, tree: seq<Entry>) returns (r: Option<seq<(Artifact, string)>>)
    ensures exists at :: IsCatalogueOf(source, tree, at, r)
  {
    var files := Candidates(tree);
    ghost var at := CandidatesArePicked(tree);
    LoadsStrictlyIff(source, tree, at);
    var loads := Loads(source, files);
    forall i | 0 <= i < |loads| && loads[i].Some?
      ensures loads[i].value.path != "" && Yields(source, tree[at[i]], loads[i].value)
    {
      LoadedPath(source, files[i]);
      LoadFileYields(source, files[i], loads[i].value);
    }
    var collected := CollectArtifacts(loads);
    r := None;
    if collected.Some? { r := CollectShas(tree, loads, collected.value); }
    assert IsCatalogueOf(source, tree, at, r);
  }

  method CollectShas(tree: seq<Entry>, ghost loads: seq<Option<Artifact>>, artifacts: seq<Artifact>)
      returns (r: Option<seq<(Artifact, string)>>)
    requires AllLoad(loads) && artifacts == Values(loads) && UniqueIds(artifacts)
    ensures r.Some? <==> StrictOk(tree, loads)
    ensures r.Some? ==>
      |r.value| == |loads| && forall i :: 0 <= i < |loads| ==>
        loads[i] == Some(r.value[i].0) && FindSha(tree, r.value[i].0.path) == Some(r.value[i].1)
  {
    var shas: seq<(Artifact, string)> := [];
    for n := 0 to |artifacts|
      invariant |shas| == n
      invariant forall i :: 0 <= i < n ==>
        shas[i].0 == artifacts[i] && FindSha(tree, artifacts[i].path) == Some(shas[i].1) && ShaFound(tree, artifacts[i])
    {
      var sha := FindSha(tree, artifacts[n].path);
      if sha.None? || !HexSha(sha.value) {
        assert !ShaFound(tree, loads[n].value);
        return None;
      }
      shas := shas + [(artifacts[n], sha.value)];
    }
    r := Some(shas);
  }

  // ---- the tolerant diagnoser ----

  datatype Check = Good(artifact: Artifact) | Bad(code: Code)

  /** One file of `diagnoseCatalogue`. */
  function CheckFile(source: Source, entry: Entry): Check {
    if entry.path.None? || !IsSupportedArtifactPath(entry.path.value) then Bad(InvalidPath)
    else if entry.sha.None? || !HexSha(entry.sha.value) then Bad(MissingBlobSha)
    else if entry.size.Some? && entry.size.value > MAX_BYTES then Bad(BlobTooLarge)
    else match FetchBlob(source, entry.sha.value)
      case None => Bad(BlobRefused)
      case Some(text) =>
        match Parse(source, text, entry.path.value)
        case None => Bad(ContentInvalid)
        case Some(artifact) => Good(artifact)
  }

  /** What can be wrong with a file, each for itself. */
  predicate HasFault(source: Source, entry: Entry, code: Code) {
    match code
    case InvalidPath => entry.path.None? || !IsSupportedArtifactPath(entry.path.value)
    case MissingBlobSha => entry.sha.None? || !HexSha(entry.sha.value)
    case BlobTooLarge => entry.size.Some? && entry.size.value > MAX_BYTES
    case BlobRefused => entry.sha.Some? && !Served(source.fetch(entry.sha.value))
    case ContentInvalid =>
      && entry.path.Some? && entry.sha.Some? && Served(source.fetch(entry.sha.value))
      && source.parse(source.fetch(entry.sha.value).text.value, entry.path.value).None?
    case DuplicateId => false
  }

  predicate Served(blob: Blob) { blob.Blob? && blob.size <= MAX_BYTES && blob.text.Some? }

  function Rank(code: Code): nat {
    match code
    case InvalidPath => 0 case MissingBlobSha => 1 case BlobTooLarge => 2
    case BlobRefused => 3 case ContentInvalid => 4 case DuplicateId => 5
  }

  /** A file passes exactly when nothing is wrong with it, and then with its artifact; otherwise the fault reported
      is the first there is. */
  lemma CheckFileIsRight(source: Source, entry: Entry)
    ensures CheckFile(source, entry).Good? <==> forall code: Code :: !HasFault(source, entry, code)
    ensures CheckFile(source, entry).Good? ==> Yields(source, entry, CheckFile(source, entry).artifact)
    ensures CheckFile(source, entry).Bad? ==>
      var code := CheckFile(source, entry).code;
      HasFault(source, entry, code) && forall d: Code :: HasFault(source, entry, d) ==> Rank(code) <= Rank(d)
  {
    if CheckFile(source, entry).Good? { PassedYields(source, entry); } else { FaultFound(source, entry); }
    forall d: Code | CheckFile(source, entry).Good? || Rank(d) < Rank(CheckFile(source, entry).code)
      ensures !HasFault(source, entry, d)
    {
      NoEarlierFault(source, entry, d);
    }
  }

  lemma PassedYields(source: Source, entry: Entry)
    requires CheckFile(source, entry).Good?
    ensures Yields(source, entry, CheckFile(source, entry).artifact)
  {
    assert LoadFile(source, entry) == Some(CheckFile(source, entry).artifact) by {
      SupportedIsSafeCandidate(entry.path.value);
    }
    LoadFileYields(source, entry, CheckFile(source, entry).artifact);
  }

  lemma FaultFound(source: Source, entry: Entry)
    requires CheckFile(source, entry).Bad?
    ensures HasFault(source, entry, CheckFile(source, entry).code)
  {}

  lemma NoEarlierFault(source: Source, entry: Entry, d: Code)
    requires CheckFile(source, entry).Good? || Rank(d) < Rank(CheckFile(source, entry).code)
    ensures !HasFault(source, entry, d)
  {}

  datatype Diagnostic = Diagnostic(index: nat, code: Code)
  datatype Report = Report(validCount: int, invalidCount: nat, errors: seq<Diagnostic>, omitted: nat)

  function Checks(source: Source, files: seq<Entry>): seq<Check> {
    seq(|files|, i requires 0 <= i < |files| => CheckFile(source, files[i]))
  }

  predicate SameId(checks: seq<Check>, i: nat, j: nat)
    requires i < |checks| && j < |checks|
  {
    checks[i].Good? && checks[j].Good? && checks[i].artifact.id == checks[j].artifact.id
  }

  predicate Duplicated(checks: seq<Check>, i: nat)
    requires i < |checks|
  {
    exists j: nat :: j < |checks| && j != i && SameId(checks, i, j)
  }

  /** A file is invalid when it fails its own checks or shares its id with another that passes them. */
  predicate Invalid(checks: seq<Check>, i: nat)
    requires i < |checks|
  {
    checks[i].Bad? || Duplicated(checks, i)
  }

  /** The fault reported for an invalid file. */
  predicate ReportsFault(checks: seq<Check>, diagnostic: Diagnostic) {
    && diagnostic.index < |checks|
    && diagnostic.code == if checks[diagnostic.index].Bad? then checks[diagnostic.index].code else DuplicateId
  }

  /** The first good file from `from` on with the id of file i. */
  function First(checks: seq<Check>, i: nat, from: nat): (f: nat)
    requires from <= i < |checks| && checks[i].Good?
    ensures from <= f <= i && SameId(checks, f, i) && forall j: nat :: from <= j < f ==> !SameId(checks, j, i)
    decreases i - from
  {
    if SameId(checks, from, i) then from else First(checks, i, from + 1)
  }

  /** The order of the report: failed files in order, then the duplicates, by the first file with their id. */
  predicate Precedes(checks: seq<Check>, i: nat, j: nat)
    requires i < |checks| && j < |checks|
  {
    if checks[i].Bad? then checks[j].Bad? ==> i < j
    else
      && checks[j].Good?
      && (First(checks, i, 0) < First(checks, j, 0) || (First(checks, i, 0) == First(checks, j, 0) && i < j))
  }

  /** The diagnostics are right, no two for one file, and in order. */
  predicate ReportsInOrder(checks: seq<Check>, diagnostics: seq<Diagnostic>) {
    && (forall d :: 0 <= d < |diagnostics| ==> ReportsFault(checks, diagnostics[d]))
    && (forall d, e :: 0 <= d < e < |diagnostics| ==> Precedes(checks, diagnostics[d].index, diagnostics[e].index))
  }

  lemma InOrderIsDistinct(checks: seq<Check>, diagnostics: seq<Diagnostic>)
    requires ReportsInOrder(checks, diagnostics)
    ensures DistinctIndexes(diagnostics)
  {
    forall d, e | 0 <= d < e < |diagnostics| ensures diagnostics[d].index != diagnostics[e].index {
      assert Precedes(checks, diagnostics[d].index, diagnostics[e].index);
    }
  }

  predicate DistinctIndexes(diagnostics: seq<Diagnostic>) {
    forall i, j :: 0 <= i < j < |diagnostics| ==> diagnostics[i].index != diagnostics[j].index
  }

  predicate Lists(diagnostics: seq<Diagnostic>, i: nat) {
    exists d :: 0 <= d < |diagnostics| && diagnostics[d].index == i
  }

  /** The failed checks, in order. */
  method FailedChecks(checks: seq<Check>) returns (diagnostics: seq<Diagnostic>)
    ensures ReportsInOrder(checks, diagnostics)
    ensures forall i: nat :: Lists(diagnostics, i) <==> i < |checks| && checks[i].Bad?
  {
    diagnostics := [];
    for n := 0 to |checks|
      invariant forall d :: 0 <= d < |diagnostics| ==>
        diagnostics[d].index < n && checks[diagnostics[d].index] == Bad(diagnostics[d].code)
      invariant forall d, e :: 0 <= d < e < |diagnostics| ==> diagnostics[d].index < diagnostics[e].index
      invariant forall i: nat :: i < n && checks[i].Bad? ==> Lists(diagnostics, i)
    {
      if checks[n].Bad? {
        ghost var before := diagnostics;
        diagnostics := diagnostics + [Diagnostic(n, checks[n].code)];
        assert diagnostics[|before|].index == n;
        forall i: nat | i < n && checks[i].Bad? ensures Lists(diagnostics, i) {
          var d :| 0 <= d < |before| && before[d].index == i;
          assert diagnostics[d].index == i;
        }
      }
    }
  }

  predicate GoodWithId(checks: seq<Check>, i: nat, id: string) {
    i < |checks| && checks[i].Good? && checks[i].artifact.id == id
  }

  predicate Increasing(list: seq<nat>) { forall k, l :: 0 <= k < l < |list| ==> list[k] < list[l] }

  /** The good files with this id, in order. */
  predicate IsGroup(checks: seq<Check>, n: nat, id: string, group: seq<nat>) {
    && group != [] && Increasing(group) && (forall i :: i in group ==> i < n && GoodWithId(checks, i, id))
    && (forall i: nat :: i < n <= |checks| && GoodWithId(checks, i, id) ==> i in group)
  }

  /** The groups of the first n files, and their ids in order of first appearance. */
  ghost predicate AreGroups(checks: seq<Check>, n: nat, byId: map<string, seq<nat>>, ids: seq<string>) {
    && (forall id :: id in byId ==> IsGroup(checks, n, id, byId[id]))
    && (forall i: nat :: i < n <= |checks| && checks[i].Good? ==> checks[i].artifact.id in byId)
    && (forall id :: id in ids <==> id in byId)
    && (forall k, l :: 0 <= k < l < |ids| ==> ids[k] in byId && ids[l] in byId ==> byId[ids[k]][0] < byId[ids[l]][0])
  }

  /** `byId`: the good files under each id, and the ids in order of first appearance. */
  method GroupById(checks: seq<Check>) returns (byId: map<string, seq<nat>>, ids: seq<string>)
    ensures AreGroups(checks, |checks|, byId, ids)
  {
    byId, ids := map[], [];
    for n := 0 to |checks|
      invariant AreGroups(checks, n, byId, ids)
    {
      if checks[n].Good? {
        var id := checks[n].artifact.id;
        if id in byId {
          GroupExtended(checks, n, byId, ids, id);
          byId := byId[id := byId[id] + [n]];
        } else {
          GroupStarted(checks, n, byId, ids, id);
          byId, ids := byId[id := [n]], ids + [id];
        }
      }
    }
  }

  lemma GroupGrows(checks: seq<Check>, n: nat, id: string, group: seq<nat>)
    requires n < |checks| && (group != [] ==> IsGroup(checks, n, id, group))
    requires group == [] ==> forall i: nat :: i < n ==> !GoodWithId(checks, i, id)
    ensures GoodWithId(checks, n, id) ==> IsGroup(checks, n + 1, id, group + [n])
    ensures !GoodWithId(checks, n, id) && group != [] ==> IsGroup(checks, n + 1, id, group)
  {
    var longer := group + [n];
    forall k, l | 0 <= k < l < |longer| ensures longer[k] < longer[l] {
      assert group[k] in group;
    }
  }

  lemma GroupExtended(checks: seq<Check>, n: nat, byId: map<string, seq<nat>>, ids: seq<string>, id: string)
    requires n < |checks| && GoodWithId(checks, n, id) && AreGroups(checks, n, byId, ids) && id in byId
    ensures AreGroups(checks, n + 1, byId[id := byId[id] + [n]], ids)
  {
    var longer := byId[id := byId[id] + [n]];
    forall other | other in longer ensures IsGroup(checks, n + 1, other, longer[other]) {
      GroupGrows(checks, n, other, byId[other]);
    }
    forall other | other in byId ensures longer[other][0] == byId[other][0] { assert byId[other] != []; }
  }

  lemma GroupStarted(checks: seq<Check>, n: nat, byId: map<string, seq<nat>>, ids: seq<string>, id: string)
    requires n < |checks| && GoodWithId(checks, n, id) && AreGroups(checks, n, byId, ids) && id !in byId
    ensures AreGroups(checks, n + 1, byId[id := [n]], ids + [id])
  {
    var longer, more := byId[id := [n]], ids + [id];
    forall other | other in longer
      ensures IsGroup(checks, n + 1, other, longer[other]) && (other != id ==> longer[other][0] < n)
    {
      if other == id {
        GroupGrows(checks, n, id, []);
        assert [] + [n] == [n];
      } else {
        GroupGrows(checks, n, other, byId[other]);
        assert byId[other][0] in byId[other];
      }
    }
    forall k, l | 0 <= k < l < |more| ensures more[k] in longer && more[l] in longer
      ensures longer[more[k]][0] < longer[more[l]][0]
    {
      assert ids[k] in ids && ids[k] in byId;
      if l < |ids| { assert ids[l] in ids && byId[ids[k]][0] < byId[ids[l]][0]; }
    }
  }

  function Duplicates(group: seq<nat>): seq<Diagnostic> {
    seq(|group|, k requires 0 <= k < |group| => Diagnostic(group[k], DuplicateId))
  }

  predicate InBigGroup(checks: seq<Check>, byId: map<string, seq<nat>>, ids: seq<string>, i: nat) {
    && i < |checks| && checks[i].Good? && checks[i].artifact.id in ids && checks[i].artifact.id in byId
    && |byId[checks[i].artifact.id]| > 1
  }

  /** The diagnostics of the groups that have more than one file. */
  method DuplicateChecks(checks: seq<Check>, byId: map<string, seq<nat>>, ids: seq<string>, failed: seq<Diagnostic>)
      returns (diagnostics: seq<Diagnostic>)
    requires AreGroups(checks, |checks|, byId, ids) && ReportsInOrder(checks, failed)
    requires forall i: nat :: Lists(failed, i) <==> i < |checks| && checks[i].Bad?
    ensures ReportsInOrder(checks, diagnostics)
    ensures forall i: nat :: Lists(diagnostics, i) <==>
      (i < |checks| && checks[i].Bad?) || InBigGroup(checks, byId, ids, i)
  {
    diagnostics := failed;
    for n := 0 to |ids|
      invariant ReportsInOrder(checks, diagnostics)
      invariant forall i: nat :: Lists(diagnostics, i) <==>
        (i < |checks| && checks[i].Bad?) || InBigGroup(checks, byId, ids[..n], i)
    {
      assert ids[..n + 1] == ids[..n] + [ids[n]];
      assert ids[n] in ids;
      if |byId[ids[n]]| > 1 {
        ghost var before := diagnostics;
        diagnostics := AddGroup(diagnostics, byId[ids[n]]);
        GroupAdded(checks, byId, ids, n, before);
      }
    }
    assert ids[..|ids|] == ids;
  }

  method AddGroup(diagnostics: seq<Diagnostic>, group: seq<nat>) returns (r: seq<Diagnostic>)
    ensures r == diagnostics + Duplicates(group)
  {
    r := diagnostics;
    for k := 0 to |group|
      invariant r == diagnostics + Duplicates(group[..k])
    {
      r := r + [Diagnostic(group[k], DuplicateId)];
      assert group[..k + 1] == group[..k] + [group[k]];
    }
    assert group[..|group|] == group;
  }

  lemma FirstOfGroup(checks: seq<Check>, byId: map<string, seq<nat>>, ids: seq<string>, i: nat)
    requires AreGroups(checks, |checks|, byId, ids) && i < |checks| && checks[i].Good?
    ensures checks[i].artifact.id in byId && byId[checks[i].artifact.id] != []
    ensures First(checks, i, 0) == byId[checks[i].artifact.id][0]
  {
    var id := checks[i].artifact.id;
    var group, f := byId[id], First(checks, i, 0);
    assert IsGroup(checks, |checks|, id, group) && GoodWithId(checks, f, id);
    assert f in group && group[0] in group;
    assert GoodWithId(checks, group[0], id);
    assert SameId(checks, group[0], i);
    var k :| 0 <= k < |group| && group[k] == f;
  }

  lemma GroupAdded(
      checks: seq<Check>, byId: map<string, seq<nat>>, ids: seq<string>, n: nat, before: seq<Diagnostic>)
    requires AreGroups(checks, |checks|, byId, ids) && n < |ids| && ids[n] in byId && |byId[ids[n]]| > 1
    requires ReportsInOrder(checks, before)
    requires forall i: nat :: Lists(before, i) <==>
      (i < |checks| && checks[i].Bad?) || InBigGroup(checks, byId, ids[..n], i)
    ensures ReportsInOrder(checks, before + Duplicates(byId[ids[n]]))
    ensures forall i: nat :: Lists(before + Duplicates(byId[ids[n]]), i) <==>
      (i < |checks| && checks[i].Bad?) || InBigGroup(checks, byId, ids[..n + 1], i)
  {
    var group := byId[ids[n]];
    var after := before + Duplicates(group);
    forall k | 0 <= k < |group| ensures GoodWithId(checks, group[k], ids[n]) && First(checks, group[k], 0) == group[0] {
      assert group[k] in group;
      FirstOfGroup(checks, byId, ids, group[k]);
    }
    forall d, e | 0 <= d < e < |after| ensures Precedes(checks, after[d].index, after[e].index) {
      if d < |before| <= e && checks[after[d].index].Good? {
        var i := after[d].index;
        assert Lists(before, i);
        EarlierGroup(checks, byId, ids, n, i);
      }
    }
    forall i: nat ensures Lists(after, i) <==> Lists(before, i) || i in group {
      ListsMore(before, group, i);
    }
    forall i: nat ensures InBigGroup(checks, byId, ids[..n + 1], i) <==>
      InBigGroup(checks, byId, ids[..n], i) || i in group
    {
      assert ids[..n + 1] == ids[..n] + [ids[n]];
      assert i in group <==> GoodWithId(checks, i, ids[n]);
    }
  }

  lemma EarlierGroup(checks: seq<Check>, byId: map<string, seq<nat>>, ids: seq<string>, n: nat, i: nat)
    requires AreGroups(checks, |checks|, byId, ids) && n < |ids| && InBigGroup(checks, byId, ids[..n], i)
    ensures ids[n] in byId && byId[ids[n]] != [] && First(checks, i, 0) < byId[ids[n]][0]
  {
    FirstOfGroup(checks, byId, ids, i);
    var k :| 0 <= k < n && ids[..n][k] == checks[i].artifact.id;
    assert ids[k] in ids && ids[n] in ids;
  }

  lemma ListsMore(before: seq<Diagnostic>, group: seq<nat>, i: nat)
    ensures Lists(before + Duplicates(group), i) <==> Lists(before, i) || i in group
  {
    var after := before + Duplicates(group);
    if Lists(before, i) {
      var d :| 0 <= d < |before| && before[d].index == i;
      assert after[d].index == i;
    }
    if i in group {
      var k :| 0 <= k < |group| && group[k] == i;
      assert after[|before| + k].index == i;
    }
    if Lists(after, i) {
      var d :| 0 <= d < |after| && after[d].index == i;
      if d < |before| { assert before[d].index == i; } else { assert group[d - |before|] == i; }
    }
  }

  lemma DuplicatedIff(checks: seq<Check>, byId: map<string, seq<nat>>, ids: seq<string>, i: nat)
    requires AreGroups(checks, |checks|, byId, ids) && i < |checks| && checks[i].Good?
    ensures Duplicated(checks, i) <==> InBigGroup(checks, byId, ids, i)
  {
    var id := checks[i].artifact.id;
    assert id in byId && IsGroup(checks, |checks|, id, byId[id]);
    var group := byId[id];
    assert GoodWithId(checks, i, id);
    assert i in group;
    if Duplicated(checks, i) {
      var j: nat :| j < |checks| && j != i && SameId(checks, i, j);
      assert GoodWithId(checks, j, id);
      assert j in group;
    }
    if |group| > 1 {
      var other := if group[0] == i then group[1] else group[0];
      assert other in group && other != i;
      assert GoodWithId(checks, other, id);
      assert SameId(checks, i, other);
    }
  }

  lemma {:induction false} IndexCount(n: nat) returns (all: set<nat>)
    ensures |all| == n && forall i: nat :: i in all <==> i < n
  {
    if n == 0 {
      all := {};
    } else {
      var fewer := IndexCount(n - 1);
      all := fewer + {n - 1};
    }
  }

  lemma {:induction false} DistinctCount(diagnostics: seq<Diagnostic>, indexes: set<nat>)
    requires DistinctIndexes(diagnostics)
    requires forall i: nat :: Lists(diagnostics, i) <==> i in indexes
    ensures |diagnostics| == |indexes|
    decreases |diagnostics|
  {
    if diagnostics == [] {
      assert forall i: nat :: !Lists(diagnostics, i);
      assert indexes == {};
    } else {
      var rest, last := diagnostics[..|diagnostics| - 1], diagnostics[|diagnostics| - 1].index;
      assert Lists(diagnostics, last);
      forall i: nat ensures Lists(rest, i) <==> i in indexes - {last} {
        if Lists(rest, i) {
          var d :| 0 <= d < |rest| && rest[d].index == i;
          assert diagnostics[d].index == i;
        }
        if i in indexes - {last} {
          var d :| 0 <= d < |diagnostics| && diagnostics[d].index == i;
          assert rest[d].index == i;
        }
      }
      DistinctCount(rest, indexes - {last});
    }
  }

  /** The files that are invalid. */
  ghost function InvalidFiles(checks: seq<Check>): set<nat> { set i: nat | i < |checks| && Invalid(checks, i) }

  /** What the report says of the checks: how many files are invalid and how many are not, and the first faults, in
      order; the rest are counted. */
  ghost predicate IsReport(checks: seq<Check>, r: Report) {
    && r.invalidCount == |InvalidFiles(checks)| && r.validCount == |checks| - r.invalidCount
    && |r.errors| == (if r.invalidCount <= MAX_ERRORS then r.invalidCount else MAX_ERRORS)
    && r.omitted == r.invalidCount - |r.errors|
    && ReportsInOrder(checks, r.errors)
    && (forall d :: 0 <= d < |r.errors| ==> Invalid(checks, r.errors[d].index))
    && (forall d, j: nat :: 0 <= d < |r.errors| && j < |checks| && Invalid(checks, j) ==>
          Lists(r.errors, j) || Precedes(checks, r.errors[d].index, j))
  }

  /** The report on a tree whose candidates are at the positions `at`. */
  ghost predicate IsReportOf(source: Source, tree: seq<Entry>, at: seq<nat>, r: Report) {
    && AreCandidates(tree, at) && IsReport(ChecksAt(source, tree, at), r)
    && (r.invalidCount == 0 <==> NothingInvalid(ChecksAt(source, tree, at)))
  }

  /** `diagnoseCatalogue`: every candidate of the tree is checked, and is counted once, as valid or as invalid; every
      invalid one is reported, with its fault, or counted as omitted. */
  method DiagnoseCatalogue(source: Source, tree: seq<Entry>) returns (r: Report)
    ensures exists at :: IsReportOf(source, tree, at, r)
  {
    ghost var at := CandidatesArePicked(tree);
    var checks := Checks(source, Candidates(tree));
    assert checks == ChecksAt(source, tree, at);
    r := Diagnose(checks);
    assert IsReportOf(source, tree, at, r);
  }

  method Diagnose(checks: seq<Check>) returns (r: Report)
    ensures IsReport(checks, r) && (r.invalidCount == 0 <==> NothingInvalid(checks))
  {
    var failed := FailedChecks(checks);
    var byId, ids := GroupById(checks);
    var diagnostics := DuplicateChecks(checks, byId, ids, failed);
    forall i: nat ensures Lists(diagnostics, i) <==> i < |checks| && Invalid(checks, i) {
      if i < |checks| && checks[i].Good? { DuplicatedIff(checks, byId, ids, i); }
    }
    r := ReportOn(checks, diagnostics);
    if NothingInvalid(checks) {
      assert InvalidFiles(checks) == {};
    } else {
      var i: nat :| i < |checks| && Invalid(checks, i);
      assert i in InvalidFiles(checks);
    }
  }

  ghost function ChecksAt(source: Source, tree: seq<Entry>, at: seq<nat>): seq<Check>
    requires forall i :: 0 <= i < |at| ==> at[i] < |tree|
  {
    seq(|at|, i requires 0 <= i < |at| => CheckFile(source, tree[at[i]]))
  }

  /** The counts and the errors shown (lib/artifact-repository.ts:360-367). */
  method ReportOn(checks: seq<Check>, diagnostics: seq<Diagnostic>) returns (r: Report)
    requires ReportsInOrder(checks, diagnostics)
    requires forall i: nat :: Lists(diagnostics, i) <==> i < |checks| && Invalid(checks, i)
    ensures IsReport(checks, r)
  {
    var good := set i: nat | 0 <= i < |checks| && checks[i].Good?;
    var invalid := set d | 0 <= d < |diagnostics| :: diagnostics[d].index;
    Counted(checks, diagnostics, good, invalid);
    var errors := diagnostics[..if |diagnostics| <= MAX_ERRORS then |diagnostics| else MAX_ERRORS];
    r := Report(|good| - |good * invalid|, |invalid|, errors, |diagnostics| - |errors|);
    ErrorsComeFirst(checks, diagnostics, |errors|);
  }

  lemma Counted(checks: seq<Check>, diagnostics: seq<Diagnostic>, good: set<nat>, invalid: set<nat>)
    requires ReportsInOrder(checks, diagnostics)
    requires forall i: nat :: Lists(diagnostics, i) <==> i < |checks| && Invalid(checks, i)
    requires good == set i: nat | i < |checks| && checks[i].Good?
    requires invalid == set d | 0 <= d < |diagnostics| :: diagnostics[d].index
    ensures invalid == InvalidFiles(checks) && |invalid| == |diagnostics|
    ensures |good| - |good * invalid| == |checks| - |invalid|
  {
    InOrderIsDistinct(checks, diagnostics);
    forall i: nat ensures i in invalid <==> Lists(diagnostics, i) {}
    DistinctCount(diagnostics, invalid);
    CountsAddUp(checks, good, invalid);
  }

  lemma ErrorsComeFirst(checks: seq<Check>, diagnostics: seq<Diagnostic>, n: nat)
    requires n <= |diagnostics| && ReportsInOrder(checks, diagnostics)
    requires forall i: nat :: Lists(diagnostics, i) <==> i < |checks| && Invalid(checks, i)
    ensures forall d :: 0 <= d < n ==> Invalid(checks, diagnostics[d].index)
    ensures forall d, j: nat :: 0 <= d < n && j < |checks| && Invalid(checks, j) ==>
      Lists(diagnostics[..n], j) || Precedes(checks, diagnostics[d].index, j)
  {
    forall d | 0 <= d < n ensures Invalid(checks, diagnostics[d].index) {
      assert Lists(diagnostics, diagnostics[d].index);
    }
    forall d, j: nat | 0 <= d < n && j < |checks| && Invalid(checks, j)
      ensures Lists(diagnostics[..n], j) || Precedes(checks, diagnostics[d].index, j)
    {
      assert Lists(diagnostics, j);
      var e :| 0 <= e < |diagnostics| && diagnostics[e].index == j;
      if e < n { assert diagnostics[..n][e].index == j; }
    }
  }

  lemma CountsAddUp(checks: seq<Check>, good: set<nat>, invalid: set<nat>)
    requires forall i: nat :: i in good <==> i < |checks| && checks[i].Good?
    requires forall i: nat :: i in invalid <==> i < |checks| && Invalid(checks, i)
    ensures |good| - |good * invalid| + |invalid| == |checks|
  {
    var all := IndexCount(|checks|);
    assert good + invalid == all;
  }

  // ---- they agree ----

  ghost predicate UniquePaths(tree: seq<Entry>) {
    forall i, j :: 0 <= i < j < |tree| && tree[i].kind == "blob" && tree[j].kind == "blob" && tree[i].path.Some? ==>
      tree[i].path != tree[j].path
  }

  ghost predicate SizesMatch(source: Source, tree: seq<Entry>) {
    forall i :: 0 <= i < |tree| && tree[i].sha.Some? && tree[i].size.Some? && source.fetch(tree[i].sha.value).Blob?
      ==> source.fetch(tree[i].sha.value).size == tree[i].size.value
  }

  lemma {:induction false} FindShaOwn(tree: seq<Entry>, at: nat)
    requires UniquePaths(tree) && at < |tree| && tree[at].kind == "blob" && tree[at].path.Some?
    ensures FindSha(tree, tree[at].path.value) == tree[at].sha
    decreases |tree|
  {
    if at > 0 {
      assert tree[0].kind == "blob" ==> tree[0].path != tree[at].path;
      assert UniquePaths(tree[1..]);
      FindShaOwn(tree[1..], at - 1);
    }
  }

  /** File by file: the diagnoser passes what the loader loads, except that only it looks at the sha. */
  lemma FileAgrees(source: Source, tree: seq<Entry>, at: nat)
    requires SizesMatch(source, tree) && at < |tree| && IsCandidate(tree[at])
    ensures CheckFile(source, tree[at]).Good? <==>
      LoadFile(source, tree[at]).Some? && tree[at].sha.Some? && HexSha(tree[at].sha.value)
    ensures CheckFile(source, tree[at]).Good? ==>
      LoadFile(source, tree[at]) == Some(CheckFile(source, tree[at]).artifact)
    ensures LoadFile(source, tree[at]).Some? ==> LoadFile(source, tree[at]).value.path == tree[at].path.value
  {
    SupportedIsSafeCandidate(tree[at].path.value);
  }

  /** The two readers' verdicts on one file agree. */
  predicate SameVerdict(tree: seq<Entry>, load: Option<Artifact>, check: Check) {
    && (check.Good? <==> load.Some? && ShaFound(tree, load.value))
    && (check.Good? ==> load == Some(check.artifact))
  }

  predicate SameVerdicts(tree: seq<Entry>, loads: seq<Option<Artifact>>, checks: seq<Check>) {
    |loads| == |checks| && forall i: nat :: i < |loads| ==> SameVerdict(tree, loads[i], checks[i])
  }

  predicate NothingInvalid(checks: seq<Check>) {
    forall i: nat :: i < |checks| ==> !Invalid(checks, i)
  }

  lemma StrictHasNoInvalid(tree: seq<Entry>, loads: seq<Option<Artifact>>, checks: seq<Check>)
    requires SameVerdicts(tree, loads, checks) && StrictOk(tree, loads)
    ensures NothingInvalid(checks)
  {
    forall i: nat | i < |checks| ensures !Invalid(checks, i) {
      assert SameVerdict(tree, loads[i], checks[i]);
      forall j: nat | j < |checks| && j != i ensures !SameId(checks, i, j) {
        assert SameVerdict(tree, loads[j], checks[j]);
        assert Values(loads)[i].id != Values(loads)[j].id;
      }
    }
  }

  lemma NoInvalidIsStrict(tree: seq<Entry>, loads: seq<Option<Artifact>>, checks: seq<Check>)
    requires SameVerdicts(tree, loads, checks) && NothingInvalid(checks)
    ensures StrictOk(tree, loads)
  {
    forall i: nat | i < |loads| ensures loads[i].Some? && ShaFound(tree, loads[i].value) {
      assert SameVerdict(tree, loads[i], checks[i]) && !Invalid(checks, i);
    }
    forall i: nat, j: nat | i < j < |loads| ensures Values(loads)[i].id != Values(loads)[j].id {
      assert SameVerdict(tree, loads[i], checks[i]) && SameVerdict(tree, loads[j], checks[j]);
      assert !Invalid(checks, i) && !Invalid(checks, j) && !SameId(checks, i, j);
    }
  }

  lemma CandidateVerdict(source: Source, tree: seq<Entry>, i: nat)
    requires UniquePaths(tree) && SizesMatch(source, tree) && i < |Candidates(tree)|
    ensures SameVerdict(tree, LoadFile(source, Candidates(tree)[i]), CheckFile(source, Candidates(tree)[i]))
  {
    var at := CandidatesArePicked(tree);
    FileAgrees(source, tree, at[i]);
    FindShaOwn(tree, at[i]);
  }

  /** On a tree with unique paths whose sizes match the blobs, the strict loader succeeds exactly when the
      diagnoser finds nothing invalid. */
  lemma ReadersAgree(source: Source, tree: seq<Entry>)
    requires UniquePaths(tree) && SizesMatch(source, tree)
    ensures LoadsStrictly(source, tree) <==> NothingInvalid(Checks(source, Candidates(tree)))
  {
    var files := Candidates(tree);
    var loads, checks := Loads(source, files), Checks(source, files);
    forall i: nat | i < |loads| ensures SameVerdict(tree, loads[i], checks[i]) {
      CandidateVerdict(source, tree, i);
    }
    assert SameVerdicts(tree, loads, checks);
    if StrictOk(tree, loads) { StrictHasNoInvalid(tree, loads, checks); }
    if NothingInvalid(checks) { NoInvalidIsStrict(tree, loads, checks); }
  }
}
