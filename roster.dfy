/**
 The participant list of an activity: Python's `list.remove` and the
 "no student is listed twice" property that the signup guard maintains.
 */
module Roster {

  /** No email appears twice in the list. */
  ghost predicate NoDuplicates(xs: seq<string>)
  {
    forall i, j :: 0 <= i < j < |xs| ==> xs[i] != xs[j]
  }

  /**
   Python's `xs.remove(x)`: deletes the first element equal to `x`. Python
   raises ValueError when `x` is absent; callers here only remove a present one.
   */
  function RemoveFirst(xs: seq<string>, x: string): (r: seq<string>)
    requires x in xs
    ensures |r| == |xs| - 1
    ensures multiset(r) == multiset(xs) - multiset{x}
  {
    assert xs == [xs[0]] + xs[1..];
    if xs[0] == x then xs[1..] else [xs[0]] + RemoveFirst(xs[1..], x)
  }

  /** Where the head is not `x`, RemoveFirst keeps the head and recurs on the tail. */
  lemma RemoveFirstKeepsHead(xs: seq<string>, x: string)
    requires x in xs && xs[0] != x
    ensures x in xs[1..]
    ensures RemoveFirst(xs, x) == [xs[0]] + RemoveFirst(xs[1..], x)
  {
    assert xs == [xs[0]] + xs[1..];
  }

  /** Deleting index `i` of `xs` is keeping its head and deleting index `i - 1` of its tail. */
  lemma DeleteAtCons(xs: seq<string>, i: nat)
    requires 0 < i < |xs|
    ensures [xs[0]] + (xs[1..][..i - 1] + xs[1..][i..]) == xs[..i] + xs[i + 1..]
  {
    assert xs[1..][..i - 1] == xs[1..i];
    assert xs[1..][i..] == xs[i + 1..];
    assert [xs[0]] + xs[1..i] == xs[..i];
  }

  /** RemoveFirst deletes exactly the element at the first index holding `x`. */
  lemma {:induction false} RemoveFirstAt(xs: seq<string>, x: string, i: nat)
    requires i < |xs| && xs[i] == x
    requires forall k :: 0 <= k < i ==> xs[k] != x
    ensures RemoveFirst(xs, x) == xs[..i] + xs[i + 1..]
    decreases i
  {
    if i == 0 {
      assert xs == [xs[0]] + xs[1..];
    } else {
      var tail := xs[1..];
      assert tail[i - 1] == x;
      assert forall k :: 0 <= k < i - 1 ==> tail[k] == xs[k + 1];
      RemoveFirstAt(tail, x, i - 1);
      RemoveFirstKeepsHead(xs, x);
      DeleteAtCons(xs, i);
    }
  }

  /** Removing what was just appended gives back the list before the append. */
  lemma RemoveAppended(xs: seq<string>, x: string)
    requires x !in xs
    ensures RemoveFirst(xs + [x], x) == xs
  {
    assert (xs + [x])[..|xs|] == xs;
    RemoveFirstAt(xs + [x], x, |xs|);
  }

  /** Appending an email that is not listed keeps the list free of duplicates. */
  lemma AppendNoDuplicates(xs: seq<string>, x: string)
    requires NoDuplicates(xs) && x !in xs
    ensures NoDuplicates(xs + [x])
  {
  }

  /** The element at index `k` of `xs` with index `i` deleted. */
  lemma DeleteAtIndex(xs: seq<string>, i: nat, k: nat)
    requires i < |xs| && k < |xs| - 1
    ensures (xs[..i] + xs[i + 1..])[k] == xs[if k < i then k else k + 1]
  {
  }

  /**
   On a list without duplicates, removing `x` leaves no `x` behind and the
   list still has no duplicates.
   */
  lemma RemoveNoDuplicates(xs: seq<string>, x: string)
    requires NoDuplicates(xs) && x in xs
    ensures x !in RemoveFirst(xs, x)
    ensures NoDuplicates(RemoveFirst(xs, x))
  {
    var i :| 0 <= i < |xs| && xs[i] == x;
    RemoveFirstAt(xs, x, i);
    var r := xs[..i] + xs[i + 1..];
    assert |r| == |xs| - 1;
    forall k | 0 <= k < |r| ensures r[k] != x {
      DeleteAtIndex(xs, i, k);
    }
    forall a, b | 0 <= a < b < |r| ensures r[a] != r[b] {
      DeleteAtIndex(xs, i, a);
      DeleteAtIndex(xs, i, b);
    }
  }
}
