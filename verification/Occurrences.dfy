/** Where a delimiter occurs in a run of bytes. */
module Occurrences {
  import opened Fragments

  predicate Match(data: seq<byte>, delim: seq<byte>, i: nat) {
    i < |data| && i + |delim| <= |data| && data[i..i + |delim|] == delim
  }

  /** The index of the first occurrence at or after `from`; |data| if there is none. */
  function Find(data: seq<byte>, delim: seq<byte>, from: nat): (r: nat)
    ensures r < |data| ==> from <= r && r + |delim| <= |data| && Match(data, delim, r)
    ensures r == |data| || r < |data|
    ensures forall i | from <= i < r :: !Match(data, delim, i)
    decreases |data| - from
  {
    if from >= |data| then |data|
    else if Match(data, delim, from) then from
    else Find(data, delim, from + 1)
  }

  lemma {:induction false} FindIs(data: seq<byte>, delim: seq<byte>, from: nat, i: nat)
    requires from <= i && Match(data, delim, i) && forall j | from <= j < i :: !Match(data, delim, j)
    ensures Find(data, delim, from) == i
    decreases i - from
  {
    if from < i {
      FindIs(data, delim, from + 1, i);
    }
  }

  lemma MatchInPrefix(data: seq<byte>, more: seq<byte>, delim: seq<byte>, i: nat)
    requires data <= more && i < |data| && i + |delim| <= |data|
    ensures Match(more, delim, i) <==> Match(data, delim, i)
  {
    assert more[i..i + |delim|] == data[i..i + |delim|];
  }

  /** The first occurrence stays the first one when more arrives. */
  lemma FoundStays(data: seq<byte>, more: seq<byte>, delim: seq<byte>, from: nat)
    requires data <= more && Find(data, delim, from) < |data|
    ensures Find(more, delim, from) == Find(data, delim, from)
  {
    var i := Find(data, delim, from);
    hide Match;
    forall j | from <= j <= i
      ensures Match(more, delim, j) <==> Match(data, delim, j)
    {
      MatchInPrefix(data, more, delim, j);
    }
    FindIs(more, delim, from, i);
  }

  lemma {:induction false} NoneIsNotFound(data: seq<byte>, delim: seq<byte>, from: nat)
    requires forall i | from <= i :: !Match(data, delim, i)
    ensures Find(data, delim, from) == |data|
  {
  }
}
