/** Codes in which each symbol's encoding can be recognised from the front, such as UTF-8: what follows from
    the shape of one symbol for whole strings. The facts about one symbol are parameters here. */
module PrefixCode {
  import opened Options

  function EncodeAll<S, B>(enc: S -> seq<B>, cs: seq<S>): seq<B> {
    if cs == [] then [] else enc(cs[0]) + EncodeAll(enc, cs[1..])
  }

  /** `one` reads a symbol off the front and says how many units it took. */
  function DecodeAll<S, B>(one: seq<B> -> Option<(S, nat)>, b: seq<B>): Option<seq<S>>
    decreases |b|
  {
    if b == [] then Some([])
    else match one(b)
      case None => None
      case Some((c, used)) =>
        if used == 0 || used > |b| then None
        else match DecodeAll(one, b[used..])
          case None => None
          case Some(rest) => Some([c] + rest)
  }

  predicate Valid<S, B>(one: seq<B> -> Option<(S, nat)>, b: seq<B>) { DecodeAll(one, b).Some? }

  /** Reading and writing one symbol are inverse to each other. */
  ghost predicate Codec<S(!new), B(!new)>(enc: S -> seq<B>, one: seq<B> -> Option<(S, nat)>) {
    && (forall b :: one(b).Some? ==> 0 < one(b).value.1 <= |b| && enc(one(b).value.0) == b[..one(b).value.1])
    && (forall c, rest :: one(enc(c) + rest) == Some((c, |enc(c)|)))
    && (forall c :: enc(c) != [])
  }

  /** Exactly the units after the first of a symbol are marked, no proper prefix of a symbol reads as one, and
      what follows a symbol does not matter. */
  ghost predicate Marked<S(!new), B(!new)>(one: seq<B> -> Option<(S, nat)>, mark: B -> bool) {
    && (forall b, m: nat :: one(b).Some? && m < one(b).value.1 <= |b| ==> (mark(b[m]) <==> m > 0))
    && (forall b, m: nat :: one(b).Some? && 0 < m < one(b).value.1 <= |b| ==> one(b[..m]).None?)
    && (forall b, m: nat :: one(b).Some? && one(b).value.1 <= m <= |b| ==> one(b[..m]) == one(b))
  }

  lemma {:induction false} EncodeConcat<S, B>(enc: S -> seq<B>, a: seq<S>, b: seq<S>)
    ensures EncodeAll(enc, a + b) == EncodeAll(enc, a) + EncodeAll(enc, b)
    decreases |a|
  {
    if a == [] {
      assert a + b == b;
    } else {
      EncodeConcat(enc, a[1..], b);
      assert (a + b)[1..] == a[1..] + b;
    }
  }

  lemma {:induction false} DecodeEncode<S(!new), B(!new)>(enc: S -> seq<B>, one: seq<B> -> Option<(S, nat)>, cs: seq<S>)
    requires Codec(enc, one)
    ensures DecodeAll(one, EncodeAll(enc, cs)) == Some(cs)
    decreases |cs|
  {
    if cs != [] {
      var first, rest := enc(cs[0]), EncodeAll(enc, cs[1..]);
      assert one(first + rest) == Some((cs[0], |first|));
      DecodeEncode(enc, one, cs[1..]);
      assert (first + rest)[|first|..] == rest;
      assert [cs[0]] + cs[1..] == cs;
    }
  }

  /** The valid strings are exactly the encodings. */
  lemma {:induction false} EncodeDecode<S(!new), B(!new)>(enc: S -> seq<B>, one: seq<B> -> Option<(S, nat)>, b: seq<B>)
    requires Codec(enc, one) && Valid(one, b)
    ensures EncodeAll(enc, DecodeAll(one, b).value) == b
    decreases |b|
  {
    if b != [] {
      var (c, used) := one(b).value;
      EncodeDecode(enc, one, b[used..]);
      assert DecodeAll(one, b).value[1..] == DecodeAll(one, b[used..]).value;
      assert b == b[..used] + b[used..];
    }
  }

  /** A cut is valid exactly where no marked unit follows; and then it keeps a prefix of the symbols. */
  lemma {:induction false} CutIsValid<S(!new), B(!new)>(
      one: seq<B> -> Option<(S, nat)>, mark: B -> bool, b: seq<B>, m: nat)
    requires Marked(one, mark) && Valid(one, b) && m < |b|
    ensures Valid(one, b[..m]) <==> !mark(b[m])
    ensures Valid(one, b[..m]) ==> DecodeAll(one, b[..m]).value <= DecodeAll(one, b).value
    decreases |b|
  {
    var (c, used) := one(b).value;
    if m >= used {
      assert one(b[..m]) == one(b);
      assert b[..m][used..] == b[used..][..m - used];
      CutIsValid(one, mark, b[used..], m - used);
    } else if m > 0 {
      assert one(b[..m]).None?;
    }
  }

  /** With symbols of at most four units, an unmarked unit is never more than three back. */
  lemma {:induction false} BoundaryIsNear<S(!new), B(!new)>(
      one: seq<B> -> Option<(S, nat)>, mark: B -> bool, b: seq<B>, m: nat)
    requires Marked(one, mark) && Valid(one, b) && m < |b|
    requires forall t :: one(t).Some? ==> one(t).value.1 <= 4
    ensures exists n: nat :: m - 3 <= n <= m && !mark(b[n])
    decreases |b|
  {
    var (_, used) := one(b).value;
    if m < used {
      assert !mark(b[0]);
    } else {
      BoundaryIsNear(one, mark, b[used..], m - used);
      var n: nat :| m - used - 3 <= n <= m - used && !mark(b[used..][n]);
      assert !mark(b[used + n]);
    }
  }

  /** The last place at or below `max` where no marked unit follows, or the start. */
  ghost predicate IsLastBoundary<B>(mark: B -> bool, b: seq<B>, max: nat, end: nat) {
    && end <= max < |b|
    && (end == 0 || !mark(b[end]))
    && forall m: nat :: end < m <= max ==> mark(b[m])
  }

  /** Cutting there keeps the longest valid prefix that fits. */
  lemma BoundaryCut<S(!new), B(!new)>(one: seq<B> -> Option<(S, nat)>, mark: B -> bool, b: seq<B>, max: nat, end: nat)
    requires Marked(one, mark) && Valid(one, b) && IsLastBoundary(mark, b, max, end)
    ensures Valid(one, b[..end]) && DecodeAll(one, b[..end]).value <= DecodeAll(one, b).value
    ensures forall m: nat :: end < m <= max ==> !Valid(one, b[..m])
  {
    if end == 0 {
      assert b[..0] == [];
    } else {
      CutIsValid(one, mark, b, end);
    }
    forall m: nat | end < m <= max ensures !Valid(one, b[..m]) { CutIsValid(one, mark, b, m); }
  }

  /** The cut at `end` encodes the longest prefix of whole symbols that fits `max`, one symbol or more being left. */
  predicate KeepsSymbols<S(==), B(==)>(
      enc: S -> seq<B>, one: seq<B> -> Option<(S, nat)>, b: seq<B>, max: nat, end: nat)
  {
    && end <= |b| && Valid(one, b) && Valid(one, b[..end])
    && var cs, kept := DecodeAll(one, b).value, |DecodeAll(one, b[..end]).value|;
       && kept < |cs| && b[..end] == EncodeAll(enc, cs[..kept])
       && |EncodeAll(enc, cs[..kept + 1])| > max
  }

  lemma BoundaryKeepsSymbols<S(!new), B(!new)>(
      enc: S -> seq<B>, one: seq<B> -> Option<(S, nat)>, mark: B -> bool, b: seq<B>, max: nat, end: nat)
    requires Codec(enc, one) && Marked(one, mark) && Valid(one, b) && IsLastBoundary(mark, b, max, end)
    ensures KeepsSymbols(enc, one, b, max, end)
  {
    BoundaryCut(one, mark, b, max, end);
    var cs, kept := DecodeAll(one, b).value, |DecodeAll(one, b[..end]).value|;
    EncodeDecode(enc, one, b);
    EncodeDecode(enc, one, b[..end]);
    assert DecodeAll(one, b[..end]).value == cs[..kept];
    assert cs[..|cs|] == cs;
    assert kept < |cs|;
    NextSymbolIsLonger(enc, one, b, cs, kept);
  }

  /** One symbol more is a valid prefix too, and a longer one. */
  lemma NextSymbolIsLonger<S(!new), B(!new)>(
      enc: S -> seq<B>, one: seq<B> -> Option<(S, nat)>, b: seq<B>, cs: seq<S>, k: nat)
    requires Codec(enc, one) && b == EncodeAll(enc, cs) && k < |cs|
    ensures |EncodeAll(enc, cs[..k])| < |EncodeAll(enc, cs[..k + 1])| <= |b|
    ensures Valid(one, b[..|EncodeAll(enc, cs[..k + 1])|])
  {
    var more, rest := cs[..k + 1], cs[k + 1..];
    assert more + rest == cs;
    EncodeConcat(enc, more, rest);
    assert cs[..k] + [cs[k]] == more;
    EncodeSnoc(enc, cs[..k], cs[k]);
    assert b[..|EncodeAll(enc, more)|] == EncodeAll(enc, more);
    DecodeEncode(enc, one, more);
    assert enc(cs[k]) != [];
  }

  lemma EncodeSnoc<S, B>(enc: S -> seq<B>, a: seq<S>, c: S)
    ensures EncodeAll(enc, a + [c]) == EncodeAll(enc, a) + enc(c)
  {
    EncodeConcat(enc, a, [c]);
    assert EncodeAll(enc, [c]) == enc(c) + EncodeAll(enc, []) == enc(c);
  }
}
