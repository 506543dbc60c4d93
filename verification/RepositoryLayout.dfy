/** Artifact paths: the predicates of lib/repository-layout.ts. */
module RepositoryLayout {
  import opened Options

  const DIRECTORIES: seq<string> := ["prompts", "snippets", "templates", "app-ideas"]

  /** `.replace(/\\/g, "/")` */
  function Forward(s: string): (r: string)
    ensures |r| == |s| && forall i :: 0 <= i < |s| ==> r[i] == if s[i] == '\\' then '/' else s[i]
  {
    seq(|s|, i requires 0 <= i < |s| => if s[i] == '\\' then '/' else s[i])
  }

  /** `.replace(/^\/+/, "")` */
  function DropSlashes(s: string): (r: string)
    ensures |r| <= |s| && r == s[|s| - |r|..]
  {
    if s != [] && s[0] == '/' then DropSlashes(s[1..]) else s
  }

  /** The leading slashes are dropped, all of them and nothing else. */
  lemma {:induction false} SlashesDropped(s: string)
    ensures DropSlashes(s) != [] ==> DropSlashes(s)[0] != '/'
    ensures forall i :: 0 <= i < |s| - |DropSlashes(s)| ==> s[i] == '/'
  {
    if s != [] && s[0] == '/' {
      SlashesDropped(s[1..]);
      forall i | 0 < i < |s| - |DropSlashes(s)| ensures s[i] == '/' { assert s[i] == s[1..][i - 1]; }
    }
  }

  function Normalized(path: string): string { DropSlashes(Forward(path)) }

  predicate StartsWith(s: string, prefix: string) { prefix <= s }

  predicate EndsWith(s: string, suffix: string) { |suffix| <= |s| && s[|s| - |suffix|..] == suffix }

  /** `split("/")` */
  function Split(s: string): (r: seq<string>)
    ensures r != []
  {
    if s == [] then [[]]
    else
      var rest := Split(s[1..]);
      if s[0] == '/' then [[]] + rest else [[s[0]] + rest[0]] + rest[1..]
  }

  function Joined(segments: seq<string>): string
    requires segments != []
  {
    if |segments| == 1 then segments[0] else segments[0] + ['/'] + Joined(segments[1..])
  }

  /** The segments are what stands between the slashes: none holds a slash, and joined they are the text. */
  lemma {:induction false} SplitJoins(s: string)
    ensures Joined(Split(s)) == s
    ensures forall i, k :: 0 <= i < |Split(s)| && 0 <= k < |Split(s)[i]| ==> Split(s)[i][k] != '/'
  {
    if s != [] {
      var rest := Split(s[1..]);
      SplitJoins(s[1..]);
      assert s == [s[0]] + s[1..];
      if s[0] == '/' {
        assert ([[]] + rest)[1..] == rest;
      } else {
        var all := [[s[0]] + rest[0]] + rest[1..];
        assert all[1..] == rest[1..];
      }
    }
  }

  predicate SafeSegment(segment: string) { segment != "" && segment != "." && segment != ".." }

  predicate AllSafe(segments: seq<string>) { forall i :: 0 <= i < |segments| ==> SafeSegment(segments[i]) }

  function SafeSegments(path: string): Option<seq<string>> {
    var segments := Split(Normalized(path));
    if |segments| > 1 && AllSafe(segments) then Some(segments) else None
  }

  /** `classifyArtifactPath(path) !== undefined` */
  predicate Classified(path: string) {
    var segments := SafeSegments(path);
    segments.Some? && segments.value[0] in DIRECTORIES
  }

  predicate IsSupportedArtifactPath(path: string) { Classified(path) && EndsWith(Forward(path), ".md") }

  predicate IsArtifactMarkdownCandidate(path: string) {
    EndsWith(Normalized(path), ".md") && exists d :: d in DIRECTORIES && StartsWith(Normalized(path), d + "/")
  }

  lemma ClassifiedIsNotEmpty(path: string)
    requires Classified(path)
    ensures path != ""
  {}

  lemma {:induction false} SplitFirst(s: string, d: string)
    requires forall i :: 0 <= i < |d| ==> d[i] != '/'
    ensures StartsWith(s, d + "/") <==> |Split(s)| > 1 && Split(s)[0] == d
    decreases |s|
  {
    if s != [] {
      if s[0] == '/' {
        if d == [] { assert [] + "/" <= s; }
      } else if d != [] {
        SplitFirst(s[1..], d[1..]);
        assert d == [d[0]] + d[1..];
        if StartsWith(s, d + "/") {
          assert d[1..] + "/" == (d + "/")[1..] == s[1..][..|d|];
        }
        if StartsWith(s[1..], d[1..] + "/") && s[0] == d[0] {
          assert d + "/" == [s[0]] + (d[1..] + "/");
        }
      }
    }
  }

  lemma DirectoriesAreFlat(d: string)
    requires d in DIRECTORIES
    ensures forall i :: 0 <= i < |d| ==> d[i] != '/'
  {}

  lemma TailOfTail(s: string, k: nat, m: nat)
    requires m <= k <= |s|
    ensures s[|s| - k..][k - m..] == s[|s| - m..]
  {}

  lemma SuffixSurvives(path: string)
    ensures EndsWith(Normalized(path), ".md") ==> EndsWith(Forward(path), ".md")
    ensures EndsWith(Forward(path), ".md") && |Normalized(path)| >= 3 ==> EndsWith(Normalized(path), ".md")
  {
    if |Normalized(path)| >= 3 { TailOfTail(Forward(path), |Normalized(path)|, 3); }
  }

  lemma LongEnough(s: string, d: string)
    requires |Split(s)| > 1 && Split(s)[0] == d && d in DIRECTORIES
    ensures |s| >= 3
  {
    DirectoriesAreFlat(d);
    SplitFirst(s, d);
  }

  /** The two readers' path checks agree: a supported path is exactly a candidate whose segments are all
      safe. So a candidate is refused by both readers, or by neither, for its path. */
  lemma SupportedIsSafeCandidate(path: string)
    ensures IsSupportedArtifactPath(path) <==> IsArtifactMarkdownCandidate(path) && AllSafe(Split(Normalized(path)))
    ensures IsArtifactMarkdownCandidate(path) ==> (Classified(path) <==> IsSupportedArtifactPath(path))
    ensures IsArtifactMarkdownCandidate(path) ==> path != ""
  {
    var n := Normalized(path);
    SuffixSurvives(path);
    forall d | d in DIRECTORIES ensures StartsWith(n, d + "/") <==> |Split(n)| > 1 && Split(n)[0] == d {
      DirectoriesAreFlat(d);
      SplitFirst(n, d);
    }
    if |Split(n)| > 1 && Split(n)[0] in DIRECTORIES {
      LongEnough(n, Split(n)[0]);
    }
  }
}
