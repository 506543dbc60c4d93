/** The grouping loop of the catalogue publisher (lib/artifact-catalogue.ts:128-129).

    A snapshot's entries are packed, in order, into chunks whose JSON stays within a byte limit.
    The function `GroupFrom` is the specification of the loop; the lemmas say what it is for. */
module Chunking {

  /** UTF-8 size of `JSON.stringify(entries)`: an opening bracket, and after each entry a comma or the
      closing bracket. `enc(e)` is the size of the JSON of one entry. */
  function JsonBytes<E>(enc: E -> nat, entries: seq<E>): nat {
    if entries == [] then 2 else 1 + Weight(enc, entries)
  }

  function Weight<E>(enc: E -> nat, entries: seq<E>): nat {
    if entries == [] then 0 else enc(entries[0]) + 1 + Weight(enc, entries[1..])
  }

  /** `JSON.stringify(entries)` written out in UTF-8: the texts of the entries in brackets, with commas between. */
  function Written<E>(text: E -> seq<bv8>, entries: seq<E>): seq<bv8> {
    [0x5B] + Joined(text, entries) + [0x5D]
  }

  function Joined<E>(text: E -> seq<bv8>, entries: seq<E>): seq<bv8> {
    if entries == [] then []
    else if |entries| == 1 then text(entries[0])
    else text(entries[0]) + [0x2C] + Joined(text, entries[1..])
  }

  lemma {:induction false} WeightIsLength<E>(text: E -> seq<bv8>, enc: E -> nat, entries: seq<E>)
    requires entries != [] && forall e :: e in entries ==> enc(e) == |text(e)|
    ensures Weight(enc, entries) == |Joined(text, entries)| + 1
  {
    if |entries| > 1 {
      WeightIsLength(text, enc, entries[1..]);
    } else {
      assert Weight(enc, entries[1..]) == 0;
    }
  }

  /** The size is the length of the list written out. */
  lemma JsonBytesIsLength<E>(text: E -> seq<bv8>, enc: E -> nat, entries: seq<E>)
    requires forall e :: e in entries ==> enc(e) == |text(e)|
    ensures JsonBytes(enc, entries) == |Written(text, entries)|
  {
    if entries != [] { WeightIsLength(text, enc, entries); }
  }

  function GroupFrom<E>(enc: E -> nat, limit: nat, current: seq<E>, rest: seq<E>): seq<seq<E>>
    decreases |rest|
  {
    if rest == [] then
      [current]
    else if current != [] && JsonBytes(enc, current + [rest[0]]) > limit then
      [current] + GroupFrom(enc, limit, [rest[0]], rest[1..])
    else
      GroupFrom(enc, limit, current + [rest[0]], rest[1..])
  }

  function Groups<E>(enc: E -> nat, limit: nat, entries: seq<E>): seq<seq<E>> {
    GroupFrom(enc, limit, [], entries)
  }

  /** What a reader does with the chunks: `chunks.flat()` (lib/artifact-catalogue.ts:124). */
  function Flatten<E>(groups: seq<seq<E>>): seq<E> {
    if groups == [] then [] else groups[0] + Flatten(groups[1..])
  }

  /** A group of one entry is always allowed: a single entry cannot be split. */
  ghost predicate Legal<E>(enc: E -> nat, limit: nat, groups: seq<seq<E>>) {
    forall i :: 0 <= i < |groups| && |groups[i]| > 1 ==> JsonBytes(enc, groups[i]) <= limit
  }

  method BuildGroups<E>(enc: E -> nat, limit: nat, entries: seq<E>) returns (groups: seq<seq<E>>)
    ensures groups == Groups(enc, limit, entries)
    ensures Flatten(groups) == entries
    ensures Legal(enc, limit, groups)
    ensures forall p {:trigger Flatten(p)} ::
      Flatten(p) == entries && Legal(enc, limit, p) && p != [] ==> |groups| <= |p|
  {
    groups := [];
    var current: seq<E> := [];
    for i := 0 to |entries|
      invariant groups + GroupFrom(enc, limit, current, entries[i..]) == Groups(enc, limit, entries)
    {
      var candidate := current + [entries[i]];
      assert entries[i..][1..] == entries[i + 1..];
      if current != [] && JsonBytes(enc, candidate) > limit {
        assert groups + ([current] + GroupFrom(enc, limit, [entries[i]], entries[i + 1..]))
            == groups + [current] + GroupFrom(enc, limit, [entries[i]], entries[i + 1..]);
        groups := groups + [current];
        current := [entries[i]];
      } else {
        current := candidate;
      }
    }
    groups := groups + [current];
    GroupsLossless(enc, limit, entries);
    GroupsFit(enc, limit, entries);
    forall p: seq<seq<E>> | Flatten(p) == entries && Legal(enc, limit, p) && p != []
      ensures |groups| <= |p|
    {
      GroupsOptimal(enc, limit, entries, p);
    }
  }

  // ---- lossless ----

  lemma {:induction false} GroupFromLossless<E>(enc: E -> nat, limit: nat, current: seq<E>, rest: seq<E>)
    ensures GroupFrom(enc, limit, current, rest) != []
    ensures Flatten(GroupFrom(enc, limit, current, rest)) == current + rest
    decreases |rest|
  {
    if rest == [] {
      assert Flatten([current]) == current + Flatten<E>([]) == current + rest;
    } else if current != [] && JsonBytes(enc, current + [rest[0]]) > limit {
      GroupFromLossless(enc, limit, [rest[0]], rest[1..]);
      var tail := GroupFrom(enc, limit, [rest[0]], rest[1..]);
      assert ([current] + tail)[1..] == tail;
      assert [rest[0]] + rest[1..] == rest;
    } else {
      GroupFromLossless(enc, limit, current + [rest[0]], rest[1..]);
      assert current + [rest[0]] + rest[1..] == current + rest;
    }
  }

  lemma GroupsLossless<E>(enc: E -> nat, limit: nat, entries: seq<E>)
    ensures Groups(enc, limit, entries) != []
    ensures Flatten(Groups(enc, limit, entries)) == entries
  {
    GroupFromLossless(enc, limit, [], entries);
    assert [] + entries == entries;
  }

  // ---- every multi-entry group fits ----

  lemma {:induction false} GroupFromFits<E>(enc: E -> nat, limit: nat, current: seq<E>, rest: seq<E>)
    requires |current| > 1 ==> JsonBytes(enc, current) <= limit
    ensures Legal(enc, limit, GroupFrom(enc, limit, current, rest))
    decreases |rest|
  {
    if rest != [] {
      if current != [] && JsonBytes(enc, current + [rest[0]]) > limit {
        GroupFromFits(enc, limit, [rest[0]], rest[1..]);
      } else {
        GroupFromFits(enc, limit, current + [rest[0]], rest[1..]);
      }
    }
  }

  lemma GroupsFit<E>(enc: E -> nat, limit: nat, entries: seq<E>)
    ensures Legal(enc, limit, Groups(enc, limit, entries))
  {
    GroupFromFits(enc, limit, [], entries);
  }

  // ---- no legal partition is shorter ----

  lemma {:induction false} WeightConcat<E>(enc: E -> nat, a: seq<E>, b: seq<E>)
    ensures Weight(enc, a + b) == Weight(enc, a) + Weight(enc, b)
  {
    if a == [] {
      assert a + b == b;
    } else {
      WeightConcat(enc, a[1..], b);
      assert (a + b)[1..] == a[1..] + b;
    }
  }

  /** The greedy loop stays ahead of any competitor `p`: whatever `p` still has to place contains the
      loop's open group, because `p`'s current group began no later. */
  lemma {:induction false} GreedyStaysAhead<E>(
      enc: E -> nat, limit: nat, ahead: seq<E>, current: seq<E>, rest: seq<E>, p: seq<seq<E>>)
    requires Flatten(p) == ahead + current + rest
    requires Legal(enc, limit, p)
    requires current != []
    ensures |GroupFrom(enc, limit, current, rest)| <= |p|
    decreases |rest|, |p|
  {
    if rest == [] {
      assert p != [];
    } else if JsonBytes(enc, current + [rest[0]]) <= limit {
      assert ahead + current + rest == ahead + (current + [rest[0]]) + rest[1..];
      GreedyStaysAhead(enc, limit, ahead, current + [rest[0]], rest[1..], p);
    } else {
      assert p != [];
      var all := ahead + current + rest;
      var first := p[0];
      assert first == all[..|first|];
      if |first| > |ahead| + |current| {
        var cut := |ahead| + |current| + 1;
        assert first == ahead + (current + [rest[0]]) + first[cut..];
        WeightConcat(enc, ahead + (current + [rest[0]]), first[cut..]);
        WeightConcat(enc, ahead, current + [rest[0]]);
        assert false;
      }
      var ahead' := (ahead + current)[|first|..];
      assert Flatten(p[1..]) == all[|first|..] == ahead' + [rest[0]] + rest[1..];
      GreedyStaysAhead(enc, limit, ahead', [rest[0]], rest[1..], p[1..]);
    }
  }

  lemma GroupsOptimal<E>(enc: E -> nat, limit: nat, entries: seq<E>, p: seq<seq<E>>)
    requires Flatten(p) == entries
    requires Legal(enc, limit, p)
    requires p != []
    ensures |Groups(enc, limit, entries)| <= |p|
  {
    if entries != [] {
      assert [] + [entries[0]] == [entries[0]];
      assert [] + [entries[0]] + entries[1..] == entries;
      GreedyStaysAhead(enc, limit, [], [entries[0]], entries[1..], p);
    }
  }
}
