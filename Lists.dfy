/** The operations of C#'s List<T> that the timeline relies on, over sequences. */
module Lists {
  import opened Wrappers
  import opened Serializer

  /** No element occurs twice. */
  predicate NoDup<T(==)>(xs: seq<T>)
  {
    forall i, j :: 0 <= i < j < |xs| ==> xs[i] != xs[j]
  }

  /** List<T>.Remove(x): drops the first occurrence of x, if there is one, and keeps the order of the rest. */
  function RemoveFirst<T(==)>(xs: seq<T>, x: T): (r: seq<T>)
    ensures x !in xs ==> r == xs
    ensures x in xs ==> |r| == |xs| - 1
    ensures multiset(r) == multiset(xs) - multiset{x}
  {
    if xs == [] then []
    else
      assert xs == [xs[0]] + xs[1..];
      if xs[0] == x then xs[1..]
      else [xs[0]] + RemoveFirst(xs[1..], x)
  }

  /** A list has no duplicates when its head is not in its tail and its tail has none. */
  lemma NoDupCons<T>(xs: seq<T>)
    requires xs != []
    ensures NoDup(xs) <==> xs[0] !in xs[1..] && NoDup(xs[1..])
  {
    if xs[0] !in xs[1..] && NoDup(xs[1..]) {
      forall i, j | 0 <= i < j < |xs| ensures xs[i] != xs[j] {
        assert xs[j] == xs[1..][j - 1];
        if i > 0 {
          assert xs[i] == xs[1..][i - 1];
        }
      }
    }
    if NoDup(xs) {
      forall k | 0 <= k < |xs[1..]| ensures xs[1..][k] != xs[0] {
        assert xs[1..][k] == xs[k + 1];
      }
    }
  }

  /** Membership in a non-empty list: the head, or membership in the tail. */
  lemma InCons<T>(xs: seq<T>, x: T)
    requires xs != []
    ensures x in xs <==> x == xs[0] || x in xs[1..]
  {
    assert xs == [xs[0]] + xs[1..];
  }

  lemma InConsAll<T>(xs: seq<T>)
    requires xs != []
    ensures forall x :: x in xs <==> x == xs[0] || x in xs[1..]
  {
    assert xs == [xs[0]] + xs[1..];
  }

  lemma NoDupSnoc<T>(xs: seq<T>, x: T)
    requires NoDup(xs) && x !in xs
    ensures NoDup(xs + [x])
  {
  }

  /** Without duplicates, Remove takes every occurrence away and leaves no duplicates. */
  lemma {:induction false} RemoveFirstNoDup<T>(xs: seq<T>, x: T)
    requires NoDup(xs)
    ensures NoDup(RemoveFirst(xs, x))
    ensures forall y :: y in RemoveFirst(xs, x) <==> y in xs && y != x
  {
    if xs != [] {
      NoDupCons(xs);
      assert xs == [xs[0]] + xs[1..];
      if xs[0] != x {
        RemoveFirstNoDup(xs[1..], x);
        var r := RemoveFirst(xs[1..], x);
        assert ([xs[0]] + r)[1..] == r;
        NoDupCons([xs[0]] + r);
      }
    }
  }

  /** List<T>.Add(x) on a list that can still grow; a list at its largest size fails to grow. */
  function Push<T>(xs: Many<T>, x: T): (r: Option<Many<T>>)
    ensures r.Some? <==> |xs| < MaxInt32
    ensures r.Some? ==> r.value == xs + [x]
  {
    if |xs| < MaxInt32 then Some(xs + [x]) else None
  }
}
