/** Definition ids (lib/definition-id.ts:4-13) and the fresh key of a duplicated connection
    (lib/provider-connection-presentation.ts:39-43). */
module DefinitionIds {

  const MAX_LENGTH := 80

  predicate Alnum(c: char) { 'a' <= c <= 'z' || '0' <= c <= '9' }

  predicate AllAlnum(s: string) { forall i :: 0 <= i < |s| ==> Alnum(s[i]) }

  /** `^[a-z0-9]+(?:-[a-z0-9]+)*$`, read off the expression: a run, then nothing, or a dash and more. */
  ghost predicate MatchesPattern(s: string) {
    exists i :: 0 < i <= |s| && AllAlnum(s[..i]) && (i == |s| || (s[i] == '-' && MatchesPattern(s[i + 1..])))
  }

  /** The same, character by character. */
  predicate ValidId(s: string) { s != [] && Alnum(s[0]) && Alnum(s[|s| - 1]) && Dashed(s) }

  /** Only letters, digits and dashes, and no two dashes together. */
  predicate Dashed(s: string) {
    && (forall i :: 0 <= i < |s| ==> Alnum(s[i]) || s[i] == '-')
    && (forall i, j :: 0 <= i < j <= i + 1 && j < |s| ==> Alnum(s[i]) || Alnum(s[j]))
  }

  lemma JoinIds(a: string, b: string)
    requires ValidId(a) && ValidId(b)
    ensures ValidId(a + "-" + b)
  {
    var s := a + "-" + b;
    forall i | 0 <= i < |s| ensures Alnum(s[i]) || s[i] == '-' {
      if i > |a| { assert s[i] == b[i - |a| - 1]; }
    }
    forall i, j | 0 <= i < j <= i + 1 && j < |s| ensures Alnum(s[i]) || Alnum(s[j]) {
      if i > |a| { assert s[i] == b[i - |a| - 1] && s[j] == b[j - |a| - 1]; }
    }
  }

  lemma SuffixDashed(s: string, i: nat)
    requires Dashed(s) && i <= |s|
    ensures Dashed(s[i..])
  {
    assert forall k :: 0 <= k < |s[i..]| ==> s[i..][k] == s[i + k];
  }

  lemma {:induction false} PatternImpliesValid(s: string)
    requires MatchesPattern(s)
    ensures ValidId(s)
    decreases |s|
  {
    var i :| 0 < i <= |s| && AllAlnum(s[..i]) && (i == |s| || (s[i] == '-' && MatchesPattern(s[i + 1..])));
    RunIsValid(s[..i]);
    if i == |s| {
      assert s[..i] == s;
    } else {
      PatternImpliesValid(s[i + 1..]);
      JoinIds(s[..i], s[i + 1..]);
      CutAtDash(s, i);
    }
  }

  lemma RunIsValid(run: string)
    requires run != [] && AllAlnum(run)
    ensures ValidId(run)
  {}

  lemma CutAtDash(s: string, i: nat)
    requires i < |s| && s[i] == '-'
    ensures s == s[..i] + "-" + s[i + 1..]
  {}

  lemma {:induction false} ValidImpliesPattern(s: string)
    requires ValidId(s)
    ensures MatchesPattern(s)
    decreases |s|
  {
    var i := FirstDash(s);
    if i < |s| {
      SuffixDashed(s, i + 1);
      ValidImpliesPattern(s[i + 1..]);
    }
    assert AllAlnum(s[..i]);
  }

  lemma PatternIsValidId(s: string)
    ensures MatchesPattern(s) <==> ValidId(s)
  {
    if MatchesPattern(s) { PatternImpliesValid(s); }
    if ValidId(s) { ValidImpliesPattern(s); }
  }

  lemma {:induction false} FirstDash(s: string) returns (i: nat)
    requires Dashed(s)
    ensures i <= |s| && (i < |s| ==> s[i] == '-') && forall k :: 0 <= k < i ==> Alnum(s[k])
  {
    i := 0;
    while i < |s| && Alnum(s[i])
      invariant i <= |s| && forall k :: 0 <= k < i ==> Alnum(s[k])
    {
      i := i + 1;
    }
  }

  // ---- definitionIdFromName ----

  /** What `trim` removes. */
  predicate Whitespace(c: char) {
    || '\t' <= c <= '\r' || c == ' ' || c == '\U{A0}' || c == '\U{1680}' || '\U{2000}' <= c <= '\U{200A}'
    || c == '\U{2028}' || c == '\U{2029}' || c == '\U{202F}' || c == '\U{205F}' || c == '\U{3000}' || c == '\U{FEFF}'
  }

  function TrimStart(s: string): string { if s != [] && Whitespace(s[0]) then TrimStart(s[1..]) else s }

  function TrimEnd(s: string): string { if s != [] && Whitespace(s[|s| - 1]) then TrimEnd(s[..|s| - 1]) else s }

  lemma {:induction false} TrimStartTrims(s: string)
    ensures TrimStart(s) != [] ==> !Whitespace(TrimStart(s)[0])
  {
    if s != [] && Whitespace(s[0]) { TrimStartTrims(s[1..]); }
  }

  lemma {:induction false} TrimEndTrims(s: string)
    ensures TrimEnd(s) <= s
    ensures TrimEnd(s) != [] ==> !Whitespace(TrimEnd(s)[|TrimEnd(s)| - 1])
  {
    if s != [] && Whitespace(s[|s| - 1]) { TrimEndTrims(s[..|s| - 1]); }
  }

  function SkipOthers(s: string): (r: string)
    ensures |r| <= |s| && (s != [] && !Alnum(s[0]) ==> |r| < |s|) && (r != [] ==> Alnum(r[0]))
  {
    if s != [] && !Alnum(s[0]) then SkipOthers(s[1..]) else s
  }

  /** `.replace(/[^a-z0-9]+/g, "-")` */
  function ReplaceOthers(s: string): string
    decreases |s|
  {
    if s == [] then []
    else if Alnum(s[0]) then [s[0]] + ReplaceOthers(s[1..])
    else ['-'] + ReplaceOthers(SkipOthers(s))
  }

  function SkipDashes(s: string): (r: string)
    ensures |r| <= |s| && (s != [] && s[0] == '-' ==> |r| < |s|)
  {
    if s != [] && s[0] == '-' then SkipDashes(s[1..]) else s
  }

  /** `.replace(/-+/g, "-")` */
  function CollapseDashes(s: string): string
    decreases |s|
  {
    if s == [] then []
    else if s[0] == '-' then ['-'] + CollapseDashes(SkipDashes(s))
    else [s[0]] + CollapseDashes(s[1..])
  }

  function DropEndDashes(s: string): (r: string)
    ensures r <= s && (r != [] ==> r[|r| - 1] != '-')
    ensures (s != [] && s[|s| - 1] != '-') ==> r == s
  {
    if s != [] && s[|s| - 1] == '-' then DropEndDashes(s[..|s| - 1]) else s
  }

  function Take(s: string, n: nat): string { if n <= |s| then s[..n] else s }

  /** `toLowerCase` is taken from outside; all that is used of it is that it leaves ids alone. */
  ghost predicate LeavesIdsAlone(lower: string -> string) {
    forall s :: (forall i :: 0 <= i < |s| ==> Alnum(s[i]) || s[i] == '-') ==> lower(s) == s
  }

  function DefinitionIdFromName(name: string, lower: string -> string): string {
    var dashed := CollapseDashes(ReplaceOthers(lower(TrimEnd(TrimStart(name)))));
    DropEndDashes(Take(DropEndDashes(SkipDashes(dashed)), MAX_LENGTH))
  }

  lemma {:induction false} ReplaceOthersDashes(s: string)
    ensures Dashed(ReplaceOthers(s))
    ensures s != [] && Alnum(s[0]) ==> ReplaceOthers(s) != [] && Alnum(ReplaceOthers(s)[0])
    decreases |s|
  {
    if s != [] {
      if Alnum(s[0]) { ReplaceOthersDashes(s[1..]); } else { ReplaceOthersDashes(SkipOthers(s)); }
    }
  }

  lemma {:induction false} CollapseIsIdentity(s: string)
    requires Dashed(s)
    ensures CollapseDashes(s) == s
    decreases |s|
  {
    if s != [] {
      assert Dashed(s[1..]);
      CollapseIsIdentity(s[1..]);
      if s[0] == '-' { assert SkipDashes(s) == s[1..]; }
      assert s == [s[0]] + s[1..];
    }
  }

  lemma SkipDashesDashed(s: string)
    requires Dashed(s)
    ensures Dashed(SkipDashes(s)) && (SkipDashes(s) != [] ==> Alnum(SkipDashes(s)[0]))
  {
    if s != [] && s[0] == '-' {
      assert SkipDashes(s) == SkipDashes(s[1..]);
      if |s| > 1 { assert Alnum(s[1]); }
      assert SkipDashes(s[1..]) == s[1..];
    }
  }

  /** Whatever the name, the result is empty or a valid id of at most 80 characters. */
  lemma IdIsCanonical(name: string, lower: string -> string)
    ensures DefinitionIdFromName(name, lower) == "" || ValidId(DefinitionIdFromName(name, lower))
    ensures |DefinitionIdFromName(name, lower)| <= MAX_LENGTH
  {
    var replaced := ReplaceOthers(lower(TrimEnd(TrimStart(name))));
    ReplaceOthersDashes(lower(TrimEnd(TrimStart(name))));
    CollapseIsIdentity(replaced);
    SkipDashesDashed(replaced);
  }

  lemma {:induction false} ReplaceIsIdentity(s: string)
    requires Dashed(s)
    ensures ReplaceOthers(s) == s
    decreases |s|
  {
    if s != [] {
      assert Dashed(s[1..]);
      ReplaceIsIdentity(s[1..]);
      if !Alnum(s[0]) { assert SkipOthers(s) == s[1..]; }
      assert s == [s[0]] + s[1..];
    }
  }

  /** A valid id is its own id, so the function is idempotent. */
  lemma ValidIdIsFixed(id: string, lower: string -> string)
    requires ValidId(id) && |id| <= MAX_LENGTH && LeavesIdsAlone(lower)
    ensures DefinitionIdFromName(id, lower) == id
  {
    TrimIsIdentity(id);
    assert lower(id) == id;
    ReplaceIsIdentity(id);
    CollapseIsIdentity(id);
    DashStepsAreIdentity(id);
  }

  lemma TrimIsIdentity(id: string)
    requires ValidId(id)
    ensures TrimEnd(TrimStart(id)) == id
  {}

  lemma DashStepsAreIdentity(id: string)
    requires ValidId(id) && |id| <= MAX_LENGTH
    ensures DropEndDashes(Take(DropEndDashes(SkipDashes(id)), MAX_LENGTH)) == id
  {
    assert SkipDashes(id) == id;
    assert DropEndDashes(id) == id;
    assert Take(id, MAX_LENGTH) == id;
  }

  lemma IdIsIdempotent(name: string, lower: string -> string)
    requires LeavesIdsAlone(lower)
    ensures DefinitionIdFromName(DefinitionIdFromName(name, lower), lower) == DefinitionIdFromName(name, lower)
  {
    var id := DefinitionIdFromName(name, lower);
    IdIsCanonical(name, lower);
    if id == "" {
      assert lower("") == "";
    } else {
      ValidIdIsFixed(id, lower);
    }
  }

  // ---- what an id says ----

  /** The positions of the letters and digits of a text, in order. */
  ghost predicate AreLetters(s: string, at: seq<nat>) {
    && (forall i, j :: 0 <= i < j < |at| ==> at[i] < at[j])
    && (forall i :: 0 <= i < |at| ==> at[i] < |s| && Alnum(s[at[i]]))
    && (forall k: nat :: k < |s| && Alnum(s[k]) ==> k in at)
  }

  function LettersFrom(s: string, from: nat): (at: seq<nat>)
    requires from <= |s|
    ensures forall i :: 0 <= i < |at| ==> from <= at[i] < |s| && Alnum(s[at[i]])
    ensures forall i, j :: 0 <= i < j < |at| ==> at[i] < at[j]
    ensures forall k: nat :: from <= k < |s| && Alnum(s[k]) ==> k in at
    decreases |s| - from
  {
    if from == |s| then []
    else if Alnum(s[from]) then [from] + LettersFrom(s, from + 1)
    else LettersFrom(s, from + 1)
  }

  /** The characters at these positions, with one dash between two that are not neighbours. */
  function Spelled(s: string, at: seq<nat>): string
    requires forall i :: 0 <= i < |at| ==> at[i] < |s|
  {
    if at == [] then []
    else [s[at[0]]] + DashIf(|at| > 1 && at[1] != at[0] + 1, Spelled(s, at[1..]))
  }

  function DashIf(b: bool, s: string): string { if b then ['-'] + s else s }

  predicate OtherAt(s: string, k: nat) { k < |s| && !Alnum(s[k]) }

  lemma {:induction false} DropBehind(c: char, s: string)
    ensures DropEndDashes([c] + s) ==
      if DropEndDashes(s) == [] && c == '-' then [] else [c] + DropEndDashes(s)
    decreases |s|
  {
    if s != [] && s[|s| - 1] == '-' {
      DropBehind(c, s[..|s| - 1]);
      assert ([c] + s)[..|s|] == [c] + s[..|s| - 1];
    } else if s == [] {
      assert ([c] + s)[..0] == [];
    }
  }

  lemma LetterStep(s: string, from: nat)
    requires from < |s| && Alnum(s[from])
    ensures var rest := LettersFrom(s, from + 1);
      Spelled(s, LettersFrom(s, from)) == [s[from]] + DashIf(OtherAt(s, from + 1) && rest != [], Spelled(s, rest))
  {
    var at, rest := LettersFrom(s, from), LettersFrom(s, from + 1);
    assert at[1..] == rest;
    if rest != [] {
      assert from + 1 in rest <==> Alnum(s[from + 1]);
      assert rest[0] == from + 1 <==> Alnum(s[from + 1]);
    }
  }

  lemma OtherStep(s: string, from: nat)
    requires OtherAt(s, from)
    ensures ReplaceOthers(s[from..]) ==
      if OtherAt(s, from + 1) then ReplaceOthers(s[from + 1..]) else ['-'] + ReplaceOthers(s[from + 1..])
  {
    assert s[from..][1..] == s[from + 1..];
    if OtherAt(s, from + 1) {
      assert s[from + 1..][0] == s[from + 1];
      assert SkipOthers(s[from..]) == SkipOthers(s[from + 1..]);
    } else {
      assert SkipOthers(s[from..]) == s[from + 1..];
    }
  }

  /** Runs of other characters become one dash each, and those at the end are dropped. */
  lemma {:induction false} ReplacedSpells(s: string, from: nat)
    requires from <= |s|
    ensures var at := LettersFrom(s, from);
      DropEndDashes(ReplaceOthers(s[from..])) == DashIf(OtherAt(s, from) && at != [], Spelled(s, at))
    decreases |s| - from
  {
    if from < |s| {
      ReplacedSpells(s, from + 1);
      if Alnum(s[from]) {
        assert s[from..][1..] == s[from + 1..];
        DropBehind(s[from], ReplaceOthers(s[from + 1..]));
        LetterStep(s, from);
      } else {
        OtherStep(s, from);
        DropBehind('-', ReplaceOthers(s[from + 1..]));
      }
    }
  }

  /** The name with runs of other characters replaced by dashes, and none at the ends. */
  function Slug(low: string): string { DropEndDashes(SkipDashes(ReplaceOthers(low))) }

  lemma SlugDashed(low: string)
    ensures Dashed(Slug(low))
  {
    ReplaceOthersDashes(low);
    SkipDashesDashed(ReplaceOthers(low));
  }

  lemma SkipOneDash(s: string)
    requires Dashed(s) && s != [] && s[0] == '-'
    ensures SkipDashes(s) == s[1..]
  {
    if |s| > 1 { assert Alnum(s[0]) || Alnum(s[1]); }
    assert SkipDashes(s[1..]) == s[1..];
  }

  lemma DropBehindDash(rest: string, spelled: string)
    requires DropEndDashes(['-'] + rest) == DashIf(spelled != [], spelled)
    ensures DropEndDashes(rest) == spelled
  {
    DropBehind('-', rest);
    if spelled != [] {
      assert (['-'] + DropEndDashes(rest))[1..] == DropEndDashes(rest);
      assert (['-'] + spelled)[1..] == spelled;
    }
  }

  lemma StripBoth(s: string, spelled: string)
    requires Dashed(s) && DropEndDashes(s) == DashIf(s != [] && s[0] == '-' && spelled != [], spelled)
    ensures DropEndDashes(SkipDashes(s)) == spelled
  {
    if s != [] && s[0] == '-' {
      SkipOneDash(s);
      assert s == ['-'] + s[1..];
      DropBehindDash(s[1..], spelled);
    }
  }

  lemma SlugSpells(low: string)
    ensures Slug(low) == Spelled(low, LettersFrom(low, 0))
  {
    var at := LettersFrom(low, 0);
    var spelled := Spelled(low, at);
    ReplacedSpells(low, 0);
    assert low[0..] == low;
    assert at == [] <==> spelled == [];
    ReplaceOthersDashes(low);
    StripBoth(ReplaceOthers(low), spelled);
  }

  /** The id of a name is, before the cut at 80, the letters and digits of the trimmed and lowered name in order, with
      one dash exactly where other characters separate two of them. The cut leaves no dash at the end. */
  lemma IdSpellsName(name: string, lower: string -> string) returns (at: seq<nat>)
    ensures var low := lower(TrimEnd(TrimStart(name)));
      AreLetters(low, at) && IsCut(Spelled(low, at), DefinitionIdFromName(name, lower))
  {
    var low := lower(TrimEnd(TrimStart(name)));
    at := LettersFrom(low, 0);
    IdIsCutSlug(name, lower);
    SlugSpells(low);
  }

  /** The text cut at 80, without a dash at the cut. */
  predicate IsCut(text: string, id: string) {
    && id <= text
    && |id| == (if |text| <= MAX_LENGTH then |text|
                else if text[MAX_LENGTH - 1] == '-' then MAX_LENGTH - 1 else MAX_LENGTH)
  }

  lemma IdIsCutSlug(name: string, lower: string -> string)
    ensures IsCut(Slug(lower(TrimEnd(TrimStart(name)))), DefinitionIdFromName(name, lower))
  {
    var low := lower(TrimEnd(TrimStart(name)));
    ReplaceOthersDashes(low);
    CollapseIsIdentity(ReplaceOthers(low));
    SlugDashed(low);
    CutSpelling(Slug(low));
  }

  lemma CutSpelling(spelled: string)
    requires Dashed(spelled) && (spelled != [] ==> spelled[|spelled| - 1] != '-')
    ensures IsCut(spelled, DropEndDashes(Take(spelled, MAX_LENGTH)))
  {
    if |spelled| > MAX_LENGTH && spelled[MAX_LENGTH - 1] == '-' {
      var cut := Take(spelled, MAX_LENGTH);
      assert Alnum(spelled[MAX_LENGTH - 2]);
      assert DropEndDashes(cut) == DropEndDashes(cut[..MAX_LENGTH - 1]) == cut[..MAX_LENGTH - 1];
    }
  }

  // ---- duplicateConnectionDraft ----

  function Digit(d: nat): char
    requires d < 10
  {
    '0' + d as char
  }

  function Decimal(n: nat): (s: string)
    ensures s != [] && forall i :: 0 <= i < |s| ==> '0' <= s[i] <= '9'
  {
    if n < 10 then [Digit(n)] else Decimal(n / 10) + [Digit(n % 10)]
  }

  lemma {:induction false} DecimalInjective(m: nat, n: nat)
    requires Decimal(m) == Decimal(n)
    ensures m == n
    decreases m
  {
    var a, b := Decimal(m), Decimal(n);
    assert a[|a| - 1] == Digit(m % 10) && b[|b| - 1] == Digit(n % 10);
    assert m % 10 == n % 10;
    if m >= 10 && n >= 10 {
      assert a[..|a| - 1] == Decimal(m / 10) && b[..|b| - 1] == Decimal(n / 10);
      DecimalInjective(m / 10, n / 10);
    }
  }

  /** The number a decimal text stands for. */
  function Numeral(s: string): int {
    if s == [] then 0 else 10 * Numeral(s[..|s| - 1]) + (s[|s| - 1] as int - '0' as int)
  }

  lemma {:induction false} DecimalIsNumeral(n: nat)
    ensures Numeral(Decimal(n)) == n && (n > 0 ==> Decimal(n)[0] != '0')
  {
    var s := Decimal(n);
    if n < 10 {
      assert s[..0] == [];
    } else {
      DecimalIsNumeral(n / 10);
      assert s[..|s| - 1] == Decimal(n / 10);
    }
  }

  function Pow10(k: nat): nat { if k == 0 then 1 else 10 * Pow10(k - 1) }

  lemma {:induction false} DecimalIsShort(n: nat, k: nat)
    requires k > 0 && n < Pow10(k)
    ensures |Decimal(n)| <= k
    decreases k
  {
    if n >= 10 {
      DecimalIsShort(n / 10, k - 1);
    }
  }

  /** The suffix of the first candidate and of the ones after it. */
  function Suffix(copy: nat): string { Stem(copy) + "-" + Tail(copy) }

  function Stem(copy: nat): string { if copy <= 1 then "" else "-copy" }

  function Tail(copy: nat): (s: string)
    ensures forall i :: 0 <= i < |s| ==> s[i] != '-'
  {
    if copy <= 1 then "copy" else Decimal(copy)
  }

  /** `slice(0, end)`, where a negative end counts from the back. */
  function SliceTo(s: string, end: int): string {
    if end >= 0 then Take(s, end) else if -end <= |s| then s[..|s| + end] else []
  }

  function Candidate(source: string, copy: nat): string {
    DropEndDashes(SliceTo(source, MAX_LENGTH - |Suffix(copy)|)) + Suffix(copy)
  }

  function AfterLastDash(s: string): string {
    if s == [] || s[|s| - 1] == '-' then [] else AfterLastDash(s[..|s| - 1]) + [s[|s| - 1]]
  }

  lemma {:induction false} AfterLastDashOf(head: string, tail: string)
    requires forall i :: 0 <= i < |tail| ==> tail[i] != '-'
    ensures AfterLastDash(head + "-" + tail) == tail
    decreases |tail|
  {
    var s := head + "-" + tail;
    if tail == [] {
      assert s[|s| - 1] == '-';
    } else {
      assert s[..|s| - 1] == head + "-" + tail[..|tail| - 1];
      AfterLastDashOf(head, tail[..|tail| - 1]);
      assert s[|s| - 1] == tail[|tail| - 1];
    }
  }

  /** Different copy numbers give different candidates, whatever the source. */
  lemma CandidatesDiffer(source: string, m: nat, n: nat)
    requires 1 <= m < n
    ensures Candidate(source, m) != Candidate(source, n)
  {
    CandidateTail(source, m);
    CandidateTail(source, n);
    assert Tail(1)[0] == 'c' && '0' <= Tail(n)[0] <= '9';
    if m > 1 && Tail(m) == Tail(n) { DecimalInjective(m, n); }
  }

  lemma CandidateTail(source: string, copy: nat)
    ensures AfterLastDash(Candidate(source, copy)) == Tail(copy)
  {
    var base := DropEndDashes(SliceTo(source, MAX_LENGTH - |Suffix(copy)|));
    assert Candidate(source, copy) == (base + Stem(copy)) + "-" + Tail(copy);
    AfterLastDashOf(base + Stem(copy), Tail(copy));
  }

  lemma PrefixIsValid(source: string, n: nat)
    requires ValidId(source) && n > 0
    ensures ValidId(DropEndDashes(Take(source, n)))
  {
    var cut := Take(source, n);
    assert Dashed(cut);
    KeepsFirst(cut);
    var base := DropEndDashes(cut);
    assert forall i :: 0 <= i < |base| ==> base[i] == cut[i];
  }

  /** From a valid source id, a candidate whose number has at most 73 digits is a valid id again. */
  lemma CandidateIsValid(source: string, copy: nat)
    requires ValidId(source) && |Decimal(copy)| <= 73
    ensures ValidId(Candidate(source, copy)) && |Candidate(source, copy)| <= MAX_LENGTH
  {
    SuffixForm(copy);
    var room := MAX_LENGTH - |Suffix(copy)|;
    PrefixIsValid(source, room);
    SuffixJoins(DropEndDashes(Take(source, room)), copy);
  }

  /** A candidate is the source and "-copy", or "-copy-" and its number. What does not fit in 80 characters is cut from
      the source, and one more character when the cut would leave a dash. */
  lemma CandidateIsCopy(source: string, copy: nat) returns (base: string)
    requires ValidId(source) && |Decimal(copy)| <= 73
    ensures base <= source && Candidate(source, copy) == base + Suffix(copy)
    ensures Suffix(copy) == if copy <= 1 then "-copy" else "-copy-" + Decimal(copy)
    ensures |source| + |Suffix(copy)| <= MAX_LENGTH ==> base == source
    ensures |source| + |Suffix(copy)| > MAX_LENGTH ==>
      |Candidate(source, copy)| == MAX_LENGTH || |Candidate(source, copy)| == MAX_LENGTH - 1
  {
    SuffixReads(copy);
    SuffixForm(copy);
    var room := MAX_LENGTH - |Suffix(copy)|;
    base := DropEndDashes(Take(source, room));
    CutAtMostOne(source, room);
  }

  lemma SuffixReads(copy: nat)
    ensures Suffix(copy) == if copy <= 1 then "-copy" else "-copy-" + Decimal(copy)
  {
    if copy > 1 {
      assert "-copy" + "-" == "-copy-";
    } else {
      assert "" + "-" + "copy" == "-copy";
    }
  }

  lemma CutAtMostOne(source: string, room: nat)
    requires ValidId(source) && room > 0
    ensures |source| <= room ==> DropEndDashes(Take(source, room)) == source
    ensures |source| > room ==> room - 1 <= |DropEndDashes(Take(source, room))| <= room
  {
    if |source| > room && source[room - 1] == '-' {
      var cut := Take(source, room);
      assert Alnum(source[room - 2]);
      assert DropEndDashes(cut) == DropEndDashes(cut[..room - 1]) == cut[..room - 1];
    }
  }

  lemma SuffixForm(copy: nat)
    ensures Suffix(copy) == "-" + CopyWord() + (if copy <= 1 then "" else "-" + Decimal(copy))
    ensures |Suffix(copy)| <= 6 + |Decimal(copy)|
  {}

  lemma SuffixJoins(base: string, copy: nat)
    requires ValidId(base)
    ensures ValidId(base + Suffix(copy))
  {
    SuffixForm(copy);
    JoinIds(base, CopyWord());
    if copy <= 1 {
      Reassociate(base, "-", CopyWord(), "", "");
    } else {
      JoinIds(base + "-" + CopyWord(), Decimal(copy));
      Reassociate(base, "-", CopyWord(), "-", Decimal(copy));
    }
  }

  function CopyWord(): (word: string)
    ensures ValidId(word)
  {
    "copy"
  }

  lemma Reassociate(a: string, b: string, c: string, d: string, e: string)
    ensures a + (b + c + (d + e)) == a + b + c + d + e
    ensures a + b + c + "" == a + b + c
    ensures "" + "" == ""
  {}

  lemma {:induction false} KeepsFirst(s: string)
    requires s != [] && Alnum(s[0])
    ensures DropEndDashes(s) != []
    decreases |s|
  {
    if s[|s| - 1] == '-' { KeepsFirst(s[..|s| - 1]); }
  }

  /** Different candidates that are all taken are no more than the taken keys. */
  lemma {:induction false} Pigeonhole(candidate: nat -> string, taken: set<string>, n: nat)
    requires forall l: nat, m: nat :: 1 <= l < m ==> candidate(l) != candidate(m)
    requires forall m: nat :: 1 <= m <= n ==> candidate(m) in taken
    ensures n <= |taken|
    decreases n
  {
    if n > 0 {
      Pigeonhole(candidate, taken - {candidate(n)}, n - 1);
    }
  }

  /** The loop of the search for a free key: candidates 1, 2, ... until one is not taken. It ends because every
      rejected candidate is a different taken key. */
  method FirstFree(candidate: nat -> string, taken: set<string>) returns (key: string, ghost number: nat)
    requires forall m: nat, n: nat :: 1 <= m < n ==> candidate(m) != candidate(n)
    ensures key !in taken
    ensures 1 <= number <= |taken| + 1 && key == candidate(number)
    ensures forall n: nat :: 1 <= n < number ==> candidate(n) in taken
  {
    key := candidate(1);
    var copy := 2;
    while key in taken
      invariant 2 <= copy <= |taken| + 2 && key == candidate(copy - 1)
      invariant forall n: nat :: 1 <= n < copy - 1 ==> candidate(n) in taken
      decreases |taken| + 2 - copy
    {
      Pigeonhole(candidate, taken, copy - 1);
      key := candidate(copy);
      copy := copy + 1;
    }
    number := copy - 1;
  }

  method FirstFreeCandidate(source: string, taken: set<string>) returns (key: string, ghost number: nat)
    ensures key !in taken && 1 <= number <= |taken| + 1 && key == Candidate(source, number)
    ensures forall n: nat :: 1 <= n < number ==> Candidate(source, n) in taken
  {
    forall m: nat, n: nat | 1 <= m < n ensures Candidate(source, m) != Candidate(source, n) {
      CandidatesDiffer(source, m, n);
    }
    var candidate := (n: nat) => Candidate(source, n);
    key, number := FirstFree(candidate, taken);
    forall n: nat | 1 <= n < number ensures Candidate(source, n) in taken { assert candidate(n) in taken; }
  }

  /** What a source key and a lower-casing give a valid draft from: the taken keys would have to number 10^73
      for the suffix to crowd the source out. */
  ghost predicate ValidSource(sourceKey: string, existing: set<string>, lower: string -> string) {
    ValidId(sourceKey) && |sourceKey| <= MAX_LENGTH && LeavesIdsAlone(lower) && |existing| + 2 < Pow10(73)
  }

  /** `duplicateConnectionDraft`: an unused key, other than the source's, and the first of the candidates that
      is. From a valid source id it is a valid id of at most 80 characters. */
  method DuplicateKey(sourceKey: string, existing: set<string>, lower: string -> string)
      returns (key: string, ghost number: nat)
    ensures key !in existing && key != sourceKey
    ensures 1 <= number <= |existing| + 2 && key == Candidate(DefinitionIdFromName(sourceKey, lower), number)
    ensures forall n: nat :: 1 <= n < number ==>
      Candidate(DefinitionIdFromName(sourceKey, lower), n) in existing + {sourceKey}
    ensures ValidSource(sourceKey, existing, lower) ==> MatchesPattern(key) && |key| <= MAX_LENGTH
  {
    key, number := FirstFreeCandidate(DefinitionIdFromName(sourceKey, lower), existing + {sourceKey});
    if ValidSource(sourceKey, existing, lower) {
      DraftIsValid(sourceKey, lower, number);
    }
  }

  lemma DraftIsValid(sourceKey: string, lower: string -> string, copy: nat)
    requires ValidId(sourceKey) && |sourceKey| <= MAX_LENGTH && LeavesIdsAlone(lower) && copy < Pow10(73)
    ensures MatchesPattern(Candidate(DefinitionIdFromName(sourceKey, lower), copy))
    ensures |Candidate(DefinitionIdFromName(sourceKey, lower), copy)| <= MAX_LENGTH
  {
    ValidIdIsFixed(sourceKey, lower);
    DecimalIsShort(copy, 73);
    CandidateIsValid(sourceKey, copy);
    ValidImpliesPattern(Candidate(sourceKey, copy));
  }
}
