/** Comparator-driven sorting of sequences: an insertion sort as the engine
    behind `Array.prototype.sort`, and what holds of its output for any
    comparator — a permutation, sorted whenever the comparator is a total
    preorder, stable within every group of elements that tie, and the only
    strictly sorted permutation when the comparator is strict. The
    comparator is a parameter, so these facts do not look inside any
    particular one. */
module Sorting {
  import opened Seqs

  /** Insert x into sorted, moving it in front of every element at the end
      that the comparator places after x. */
  function InsertBy<T>(cmp: (T, T) -> int, sorted: seq<T>, x: T): (r: seq<T>)
    ensures |r| == |sorted| + 1
    ensures multiset(r) == multiset(sorted) + multiset{x}
    decreases |sorted|
  {
    if |sorted| == 0 then [x]
    else
      var last := sorted[|sorted| - 1];
      var init := sorted[..|sorted| - 1];
      assert sorted == init + [last];
      if cmp(last, x) > 0 then InsertBy(cmp, init, x) + [last]
      else sorted + [x]
  }

  /** `[...s].sort(cmp)`: the elements inserted one after another. */
  function SortBy<T>(cmp: (T, T) -> int, s: seq<T>): (r: seq<T>)
    ensures |r| == |s|
    ensures multiset(r) == multiset(s)
  {
    if |s| == 0 then []
    else
      assert s == s[..|s| - 1] + [s[|s| - 1]];
      InsertBy(cmp, SortBy(cmp, s[..|s| - 1]), s[|s| - 1])
  }

  /** Each element comes no later than its successor. */
  ghost predicate AdjacentSorted<T>(cmp: (T, T) -> int, s: seq<T>) {
    forall i :: 0 < i < |s| ==> cmp(s[i - 1], s[i]) <= 0
  }

  /** Every element comes before every later one as far as the comparator is concerned. */
  ghost predicate Sorted<T>(cmp: (T, T) -> int, s: seq<T>) {
    forall i, j :: 0 <= i < j < |s| ==> cmp(s[i], s[j]) <= 0
  }

  /** Each element comes strictly before every later one. */
  ghost predicate StrictlySorted<T>(cmp: (T, T) -> int, s: seq<T>) {
    forall i, j :: 0 <= i < j < |s| ==> cmp(s[i], s[j]) < 0
  }

  /** Of two distinct elements of u, one comes no later than the other. */
  ghost predicate Total<T>(cmp: (T, T) -> int, u: seq<T>) {
    forall a, b :: a in u && b in u && a != b ==> cmp(a, b) <= 0 || cmp(b, a) <= 0
  }

  /** "No later than" is transitive on the elements of u. */
  ghost predicate Transitive<T>(cmp: (T, T) -> int, u: seq<T>) {
    forall a, b, c :: a in u && b in u && c in u && cmp(a, b) <= 0 && cmp(b, c) <= 0 ==> cmp(a, c) <= 0
  }

  /** No two elements of u are each strictly before the other. */
  ghost predicate Asymmetric<T>(cmp: (T, T) -> int, u: seq<T>) {
    forall a, b :: a in u && b in u ==> !(cmp(a, b) < 0 && cmp(b, a) < 0)
  }

  /** An element occurring twice must not be placed strictly after itself. */
  ghost predicate RepeatsTie<T>(cmp: (T, T) -> int, s: seq<T>) {
    forall i, j :: 0 <= i < j < |s| && s[i] == s[j] ==> cmp(s[i], s[i]) <= 0
  }

  /** The last element after an insertion is the inserted one or the old last one. */
  lemma InsertLast<T>(cmp: (T, T) -> int, sorted: seq<T>, x: T)
    ensures var r := InsertBy(cmp, sorted, x);
            r[|r| - 1] == x || (|sorted| > 0 && r[|r| - 1] == sorted[|sorted| - 1])
  {
  }

  /** Inserting into an adjacent-sorted sequence keeps it adjacent-sorted;
      only totality is needed. */
  lemma {:induction false} InsertSorted<T>(cmp: (T, T) -> int, u: seq<T>, sorted: seq<T>, x: T)
    requires Total(cmp, u)
    requires forall y :: y in sorted ==> y in u
    requires x in u
    requires x in sorted ==> cmp(x, x) <= 0
    requires AdjacentSorted(cmp, sorted)
    ensures AdjacentSorted(cmp, InsertBy(cmp, sorted, x))
    decreases |sorted|
  {
    if |sorted| > 0 {
      var last := sorted[|sorted| - 1];
      var init := sorted[..|sorted| - 1];
      assert sorted == init + [last];
      if cmp(last, x) > 0 {
        assert forall y :: y in init ==> y in sorted;
        assert AdjacentSorted(cmp, init) by {
          forall i | 0 < i < |init|
            ensures cmp(init[i - 1], init[i]) <= 0
          {
            assert init[i - 1] == sorted[i - 1] && init[i] == sorted[i];
          }
        }
        InsertSorted(cmp, u, init, x);
        assert x != last;
        assert last in u;
        InsertBehind(cmp, init, last, x);
      }
    }
  }

  /** The step of an insertion that moves x in front of `last`: the result
      stays adjacent-sorted when x comes no later than `last`. */
  lemma InsertBehind<T>(cmp: (T, T) -> int, init: seq<T>, last: T, x: T)
    requires AdjacentSorted(cmp, init + [last])
    requires AdjacentSorted(cmp, InsertBy(cmp, init, x))
    requires cmp(last, x) > 0 && cmp(x, last) <= 0
    ensures AdjacentSorted(cmp, InsertBy(cmp, init + [last], x))
  {
    var sorted := init + [last];
    assert sorted[..|sorted| - 1] == init;
    var front := InsertBy(cmp, init, x);
    InsertLast(cmp, init, x);
    var r := front + [last];
    assert InsertBy(cmp, sorted, x) == r;
    if front[|front| - 1] != x {
      assert cmp(sorted[|sorted| - 2], sorted[|sorted| - 1]) <= 0;
    }
    forall i | 0 < i < |r|
      ensures cmp(r[i - 1], r[i]) <= 0
    {
      if i < |front| {
        assert r[i - 1] == front[i - 1] && r[i] == front[i];
      }
    }
  }

  /** Whenever the comparator is total on the input, the output is adjacent-sorted. */
  lemma {:induction false} SortAdjacentSorted<T>(cmp: (T, T) -> int, u: seq<T>, s: seq<T>)
    requires Total(cmp, u)
    requires forall y :: y in s ==> y in u
    requires RepeatsTie(cmp, s)
    ensures AdjacentSorted(cmp, SortBy(cmp, s))
  {
    if |s| > 0 {
      var init := s[..|s| - 1];
      var x := s[|s| - 1];
      assert forall i :: 0 <= i < |init| ==> init[i] == s[i];
      SortAdjacentSorted(cmp, u, init);
      var sorted := SortBy(cmp, init);
      if x in sorted {
        assert x in multiset(init);
        var k :| 0 <= k < |init| && init[k] == x;
        assert s[k] == s[|s| - 1];
      }
      forall y | y in sorted
        ensures y in u
      {
        assert y in multiset(init);
      }
      InsertSorted(cmp, u, sorted, x);
    }
  }

  /** With a transitive comparator, adjacent order is order between every pair. */
  lemma AdjacentToSorted<T>(cmp: (T, T) -> int, u: seq<T>, s: seq<T>)
    requires Transitive(cmp, u)
    requires forall y :: y in s ==> y in u
    requires AdjacentSorted(cmp, s)
    ensures Sorted(cmp, s)
  {
    forall i, j | 0 <= i < j < |s|
      ensures cmp(s[i], s[j]) <= 0
    {
      AdjacentToPair(cmp, u, s, i, j);
    }
  }

  lemma {:induction false} AdjacentToPair<T>(cmp: (T, T) -> int, u: seq<T>, s: seq<T>, i: nat, j: nat)
    requires Transitive(cmp, u)
    requires forall y :: y in s ==> y in u
    requires AdjacentSorted(cmp, s)
    requires i < j < |s|
    ensures cmp(s[i], s[j]) <= 0
    decreases j - i
  {
    if i + 1 < j {
      AdjacentToPair(cmp, u, s, i, j - 1);
      assert s[i] in u && s[j - 1] in u && s[j] in u;
    }
  }

  /** Whenever the comparator is a total preorder on the input, the output is sorted. */
  lemma SortSorted<T>(cmp: (T, T) -> int, u: seq<T>, s: seq<T>)
    requires Total(cmp, u) && Transitive(cmp, u)
    requires forall y :: y in s ==> y in u
    requires RepeatsTie(cmp, s)
    ensures Sorted(cmp, SortBy(cmp, s))
  {
    SortAdjacentSorted(cmp, u, s);
    var r := SortBy(cmp, s);
    forall y | y in r
      ensures y in u
    {
      assert y in multiset(s);
    }
    AdjacentToSorted(cmp, u, r);
  }

  /** A strictly sorted sequence stays so without its first element. */
  lemma StrictlySortedTail<T>(cmp: (T, T) -> int, s: seq<T>)
    requires |s| > 0 && StrictlySorted(cmp, s)
    ensures StrictlySorted(cmp, s[1..])
  {
    var t := s[1..];
    forall i, j | 0 <= i < j < |t|
      ensures cmp(t[i], t[j]) < 0
    {
      assert t[i] == s[i + 1] && t[j] == s[j + 1];
    }
  }

  /** Two strictly sorted arrangements of the same elements start alike. */
  lemma StrictSortHeads<T>(cmp: (T, T) -> int, u: seq<T>, r: seq<T>, t: seq<T>)
    requires Asymmetric(cmp, u)
    requires forall y :: y in r ==> y in u
    requires StrictlySorted(cmp, r) && StrictlySorted(cmp, t)
    requires |r| > 0 && multiset(r) == multiset(t)
    ensures |t| > 0 && r[0] == t[0]
  {
    assert r[0] in multiset(t);
    var j :| 0 <= j < |t| && t[j] == r[0];
    assert t[0] in multiset(r);
    var i :| 0 <= i < |r| && r[i] == t[0];
    if r[0] != t[0] {
      assert false;
    }
  }

  /** Two strictly sorted arrangements of the same elements agree on their
      heads, and their tails are again such a pair. */
  lemma StrictSortTails<T>(cmp: (T, T) -> int, u: seq<T>, r: seq<T>, t: seq<T>)
    requires Asymmetric(cmp, u)
    requires forall y :: y in r ==> y in u
    requires StrictlySorted(cmp, r) && StrictlySorted(cmp, t)
    requires |r| > 0 && multiset(r) == multiset(t)
    ensures |t| > 0 && r[0] == t[0]
    ensures forall y :: y in r[1..] ==> y in u
    ensures StrictlySorted(cmp, r[1..]) && StrictlySorted(cmp, t[1..])
    ensures multiset(r[1..]) == multiset(t[1..])
  {
    StrictSortHeads(cmp, u, r, t);
    MultisetTail(r);
    MultisetTail(t);
    StrictlySortedTail(cmp, r);
    StrictlySortedTail(cmp, t);
    assert forall y :: y in r[1..] ==> y in r;
  }

  /** Dropping the head removes one occurrence of it from the multiset. */
  lemma MultisetTail<T>(s: seq<T>)
    requires |s| > 0
    ensures multiset(s[1..]) == multiset(s) - multiset{s[0]}
  {
    assert s == [s[0]] + s[1..];
  }

  /** Two strictly sorted arrangements of the same elements are the same sequence. */
  lemma {:induction false} StrictSortUnique<T>(cmp: (T, T) -> int, u: seq<T>, r: seq<T>, t: seq<T>)
    requires Asymmetric(cmp, u)
    requires forall y :: y in r ==> y in u
    requires StrictlySorted(cmp, r) && StrictlySorted(cmp, t)
    requires multiset(r) == multiset(t)
    ensures r == t
  {
    assert |t| == |multiset(t)| == |multiset(r)| == |r|;
    if |r| > 0 {
      StrictSortTails(cmp, u, r, t);
      StrictSortUnique(cmp, u, r[1..], t[1..]);
      assert r == [r[0]] + r[1..] && t == [t[0]] + t[1..];
    }
  }

  /** The comparator never returns 0 on elements of u. */
  ghost predicate NoTies<T>(cmp: (T, T) -> int, u: seq<T>) {
    forall a, b :: a in u && b in u ==> cmp(a, b) != 0
  }

  /** A total preorder that never ties sorts distinct elements strictly. */
  lemma SortStrictlySorted<T>(cmp: (T, T) -> int, s: seq<T>)
    requires Total(cmp, s) && Transitive(cmp, s) && NoTies(cmp, s)
    requires forall i, j :: 0 <= i < j < |s| ==> s[i] != s[j]
    ensures StrictlySorted(cmp, SortBy(cmp, s))
  {
    var r := SortBy(cmp, s);
    SortSorted(cmp, s, s);
    forall i, j | 0 <= i < j < |r|
      ensures cmp(r[i], r[j]) < 0
    {
      assert r[i] in multiset(s) && r[j] in multiset(s);
      assert r[i] in s && r[j] in s;
    }
  }

  /** When the comparator is strict on distinct input, every strictly sorted
      permutation of it is the one computed here: any engine that returns a
      strictly sorted arrangement returns this one. */
  lemma SortUnique<T>(cmp: (T, T) -> int, s: seq<T>, t: seq<T>)
    requires Total(cmp, s) && Transitive(cmp, s) && Asymmetric(cmp, s) && NoTies(cmp, s)
    requires forall i, j :: 0 <= i < j < |s| ==> s[i] != s[j]
    requires multiset(t) == multiset(s) && StrictlySorted(cmp, t)
    ensures t == SortBy(cmp, s)
  {
    SortStrictlySorted(cmp, s);
    forall y | y in t
      ensures y in s
    {
      assert y in multiset(s);
    }
    StrictSortUnique(cmp, s, t, SortBy(cmp, s));
  }

  /** Reversing a strictly sorted sequence gives one strictly sorted by the
      flipped comparator. */
  lemma ReverseStrictlySorted<T>(cmp: (T, T) -> int, flipped: (T, T) -> int, s: seq<T>)
    requires StrictlySorted(cmp, s)
    requires forall a, b :: a in s && b in s ==> flipped(a, b) == cmp(b, a)
    ensures StrictlySorted(flipped, Reverse(s))
  {
    var r := Reverse(s);
    forall i, j | 0 <= i < j < |r|
      ensures flipped(r[i], r[j]) < 0
    {
      assert r[i] == s[|s| - 1 - i] && r[j] == s[|s| - 1 - j];
    }
  }

  // ---------------------------------------------------------------------
  // Stability

  /** Two pieces of which one is empty may trade places. */
  lemma SwapAroundEmpty<T>(a: seq<T>, b: seq<T>, c: seq<T>)
    requires b == [] || c == []
    ensures a + b + c == a + c + b
  {
  }

  /** Inserting x keeps the order of a group `keep` whose members never sort
      strictly after x when x belongs to it: x lands behind every member. */
  lemma {:induction false} InsertStable<T(!new)>(cmp: (T, T) -> int, keep: T -> bool, sorted: seq<T>, x: T)
    requires keep(x) ==> forall y :: y in sorted && keep(y) ==> cmp(y, x) <= 0
    ensures Filter(InsertBy(cmp, sorted, x), keep) == Filter(sorted, keep) + Filter([x], keep)
    decreases |sorted|
  {
    if |sorted| == 0 {
      assert InsertBy(cmp, sorted, x) == [x];
    } else {
      var last := sorted[|sorted| - 1];
      var init := sorted[..|sorted| - 1];
      assert sorted == init + [last];
      if cmp(last, x) > 0 {
        var front := InsertBy(cmp, init, x);
        assert InsertBy(cmp, sorted, x) == front + [last];
        assert forall y :: y in init ==> y in sorted;
        InsertStable(cmp, keep, init, x);
        FilterConcat(front, [last], keep);
        FilterConcat(init, [last], keep);
        var fx, fl := Filter([x], keep), Filter([last], keep);
        assert keep(x) ==> last in sorted && !keep(last);
        assert fx == [] || fl == [];
        SwapAroundEmpty(Filter(init, keep), fx, fl);
      } else {
        assert InsertBy(cmp, sorted, x) == sorted + [x];
        FilterConcat(sorted, [x], keep);
      }
    }
  }

  /** The sort is stable within every group `keep` of mutually tied
      elements: the group's members leave in the order they came. */
  lemma {:induction false} SortStable<T(!new)>(cmp: (T, T) -> int, keep: T -> bool, s: seq<T>)
    requires forall a, b :: a in s && b in s && keep(a) && keep(b) ==> cmp(a, b) <= 0
    ensures Filter(SortBy(cmp, s), keep) == Filter(s, keep)
  {
    if |s| > 0 {
      var init := s[..|s| - 1];
      var x := s[|s| - 1];
      assert s == init + [x];
      SortStable(cmp, keep, init);
      var sorted := SortBy(cmp, init);
      forall y | y in sorted
        ensures y in s
      {
        assert y in multiset(init);
      }
      InsertStable(cmp, keep, sorted, x);
      FilterConcat(init, [x], keep);
    }
  }
}
