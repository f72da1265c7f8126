/** Ordered integer sequences: what `sort.Ints` returns, and what it means for one to hold a set. */
module Sequences {

  predicate Ascending(xs: seq<int>) {
    forall i, j | 0 <= i < j < |xs| :: xs[i] <= xs[j]
  }

  predicate StrictlyAscending(xs: seq<int>) {
    forall i, j | 0 <= i < j < |xs| :: xs[i] < xs[j]
  }

  predicate Distinct<T(==)>(xs: seq<T>) {
    forall i, j | 0 <= i < j < |xs| :: xs[i] != xs[j]
  }

  function Insert(x: int, xs: seq<int>): (r: seq<int>)
    requires Ascending(xs)
    ensures forall y :: y in r <==> y == x || y in xs
    ensures Ascending(r)
  {
    if xs == [] || x <= xs[0] then [x] + xs
    else
      var rest := Insert(x, xs[1..]);
      assert forall j | 0 <= j < |rest| :: rest[j] in rest;
      [xs[0]] + rest
  }

  lemma InsertCounts(x: int, xs: seq<int>)
    requires Ascending(xs)
    ensures multiset(Insert(x, xs)) == multiset(xs) + multiset{x}
  {
    if xs != [] && x > xs[0] {
      InsertCounts(x, xs[1..]);
      assert xs == [xs[0]] + xs[1..];
    }
  }

  /** The result of `sort.Ints`: ascending, and a permutation of its input. */
  function Sort(xs: seq<int>): (r: seq<int>)
    ensures Ascending(r)
    ensures multiset(r) == multiset(xs)
  {
    if xs == [] then []
    else
      assert xs == [xs[0]] + xs[1..];
      InsertCounts(xs[0], Sort(xs[1..]));
      Insert(xs[0], Sort(xs[1..]))
  }

  lemma SameElements(xs: seq<int>, ys: seq<int>)
    requires multiset(xs) == multiset(ys)
    ensures |xs| == |ys|
    ensures forall x :: x in xs <==> x in ys
  {
    assert |multiset(xs)| == |xs| && |multiset(ys)| == |ys|;
    forall x ensures x in xs <==> x in ys {
      assert x in xs <==> x in multiset(xs);
      assert x in ys <==> x in multiset(ys);
    }
  }

  lemma SortElements(xs: seq<int>)
    ensures |Sort(xs)| == |xs|
    ensures forall x :: x in Sort(xs) <==> x in xs
  {
    SameElements(Sort(xs), xs);
  }

  lemma DistinctCount<T>(xs: seq<T>, i: nat)
    requires Distinct(xs) && i < |xs|
    ensures multiset(xs)[xs[i]] == 1
  {
    assert xs == xs[..i] + [xs[i]] + xs[i + 1..];
    assert xs[i] !in xs[..i] && xs[i] !in xs[i + 1..];
  }

  lemma CountDistinct<T>(xs: seq<T>)
    requires forall x | x in xs :: multiset(xs)[x] <= 1
    ensures Distinct(xs)
  {
    forall i, j | 0 <= i < j < |xs| ensures xs[i] != xs[j] {
      assert xs == xs[..j] + [xs[j]] + xs[j + 1..];
      assert multiset(xs)[xs[j]] <= 1;
      assert xs[j] !in xs[..j];
      assert xs[..j][i] == xs[i];
    }
  }

  /** Sorting a duplicate-free sequence leaves it strictly ascending. */
  lemma SortDistinct(xs: seq<int>)
    requires Distinct(xs)
    ensures StrictlyAscending(Sort(xs))
  {
    SortElements(xs);
    forall x | x in Sort(xs) ensures multiset(Sort(xs))[x] <= 1 {
      var i :| 0 <= i < |xs| && xs[i] == x;
      DistinctCount(xs, i);
    }
    CountDistinct(Sort(xs));
  }

  /** A strictly ascending sequence is determined by its elements. */
  lemma {:induction false} AscendingUnique(xs: seq<int>, ys: seq<int>)
    requires StrictlyAscending(xs) && StrictlyAscending(ys)
    requires forall x :: x in xs <==> x in ys
    ensures xs == ys
  {
    if xs == [] {
      assert forall j | 0 <= j < |ys| :: ys[j] in xs;
    } else {
      assert xs[0] in xs;
      assert ys != [];
      assert ys[0] in ys;
      assert xs[0] == ys[0];
      forall x ensures x in xs[1..] <==> x in ys[1..] {
        assert x in xs[1..] <==> x in xs && x != xs[0];
        assert x in ys[1..] <==> x in ys && x != ys[0];
      }
      AscendingUnique(xs[1..], ys[1..]);
      assert xs == [xs[0]] + xs[1..] && ys == [ys[0]] + ys[1..];
    }
  }

  /** The strictly ascending sequence with the elements of an ascending one. */
  function Dedup(xs: seq<int>): (r: seq<int>)
    requires Ascending(xs)
    ensures StrictlyAscending(r)
    ensures forall x :: x in r <==> x in xs
  {
    if |xs| <= 1 then xs
    else
      var rest := Dedup(xs[1..]);
      assert xs == [xs[0]] + xs[1..];
      if xs[0] == xs[1] then rest
      else
        assert forall j | 0 <= j < |rest| :: rest[j] in rest;
        [xs[0]] + rest
  }

  /** `xs` with some elements left out, the others in order. */
  ghost predicate Sublist<T>(xs: seq<T>, all: seq<T>) {
    if all == [] then xs == []
    else
      var n := |all| - 1;
      || Sublist(xs, all[..n])
      || (xs != [] && xs[|xs| - 1] == all[n] && Sublist(xs[..|xs| - 1], all[..n]))
  }

  /** Exactly the elements to keep are still there, as often as before and in order. */
  ghost predicate Filtered<T(!new)>(kept: seq<T>, all: seq<T>, keep: T -> bool) {
    && (forall x | x in kept :: keep(x))
    && (forall x :: multiset(kept)[x] == if keep(x) then multiset(all)[x] else 0)
    && Sublist(kept, all)
  }

  lemma FilteredNothing<T(!new)>(keep: T -> bool)
    ensures Filtered([], [], keep)
  {
  }

  lemma FilteredStep<T(!new)>(kept: seq<T>, all: seq<T>, x: T, keep: T -> bool)
    requires Filtered(kept, all, keep)
    ensures Filtered(if keep(x) then kept + [x] else kept, all + [x], keep)
  {
    assert (all + [x])[..|all|] == all && (kept + [x])[..|kept|] == kept;
  }
}
