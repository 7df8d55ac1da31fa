/** Insertion into and deletion from a sequence, and the facts about them that the node operations use. */
module Seqs {
  function Ins<T>(s: seq<T>, i: nat, x: T): (r: seq<T>)
    requires i <= |s|
  {
    s[..i] + [x] + s[i..]
  }

  function Del<T>(s: seq<T>, i: nat): (r: seq<T>)
    requires i < |s|
  {
    s[..i] + s[i + 1..]
  }

  ghost predicate Distinct<T>(s: seq<T>) {
    forall i, j :: 0 <= i < j < |s| ==> s[i] != s[j]
  }

  /** Swapping the pending item with the item at its position moves the position up by one. */
  lemma SwapUp<T>(s: seq<T>, i: nat, x: T)
    requires i < |s|
    ensures Ins(s[i := x], i + 1, s[i]) == Ins(s, i, x)
  {
  }

  /** Swapping the pending item with the item before its position moves the position down by one. */
  lemma SwapDown<T>(s: seq<T>, i: nat, x: T)
    requires i < |s|
    ensures Ins(s[i := x], i, s[i]) == Ins(s, i + 1, x)
  {
  }

  /** The parts of a sequence before, at and after an inserted item. */
  lemma InsSplit<T>(s: seq<T>, i: nat, x: T)
    requires i <= |s|
    ensures Ins(s, i, x)[..i] == s[..i] && Ins(s, i, x)[i] == x && Ins(s, i, x)[i + 1..] == s[i..]
    ensures Ins(s, i, x)[i..] == [x] + s[i..]
  {
  }

  lemma DistinctIns<T>(s: seq<T>, i: nat, x: T)
    requires Distinct(s) && x !in s && i <= |s|
    ensures Distinct(Ins(s, i, x))
    ensures forall y :: y in Ins(s, i, x) <==> y == x || y in s
  {
    assert forall y :: y in s <==> y in s[..i] || y in s[i..];
  }

  /** Which items are in the tail of a sequence without repetitions. */
  lemma TailMembers<T>(s: seq<T>, k: nat, tail: seq<T>)
    requires Distinct(s) && k <= |s| && tail == s[k..]
    ensures forall j {:trigger s[j]} :: 0 <= j < |s| ==> (s[j] in tail <==> k <= j)
    ensures forall x {:trigger x in tail} :: x in tail ==> x in s
  {
    forall j | k <= j < |s|
      ensures s[j] in tail
    {
      assert tail[j - k] == s[j];
    }
  }
}
