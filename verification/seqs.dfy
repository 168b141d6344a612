/** `Array.prototype.filter` on sequences, and the facts about it the
    list transitions rely on. */
module Seqs {

  /** The elements of s that satisfy keep, in their original order. */
  function Filter<T(!new)>(s: seq<T>, keep: T -> bool): (r: seq<T>)
    ensures |r| <= |s|
    ensures forall x :: x in r <==> x in s && keep(x)
  {
    if |s| == 0 then []
    else
      assert s == [s[0]] + s[1..];
      (if keep(s[0]) then [s[0]] else []) + Filter(s[1..], keep)
  }

  /** Filtering keeps every occurrence of a passing element and none of a failing one. */
  lemma {:induction false} FilterCounts<T(!new)>(s: seq<T>, keep: T -> bool)
    ensures forall x :: multiset(Filter(s, keep))[x] == if keep(x) then multiset(s)[x] else 0
  {
    if |s| > 0 {
      FilterCounts(s[1..], keep);
      assert s == [s[0]] + s[1..];
    }
  }

  /** Filtering distributes over concatenation: the kept elements of a
      prefix come before those of the rest. */
  lemma {:induction false} FilterConcat<T(!new)>(a: seq<T>, b: seq<T>, keep: T -> bool)
    ensures Filter(a + b, keep) == Filter(a, keep) + Filter(b, keep)
  {
    if |a| == 0 {
      assert a + b == b;
    } else {
      assert (a + b)[0] == a[0];
      assert (a + b)[1..] == a[1..] + b;
      FilterConcat(a[1..], b, keep);
    }
  }

  /** Filtering keeps everything when every element passes. */
  lemma {:induction false} FilterKeepsAll<T(!new)>(s: seq<T>, keep: T -> bool)
    requires forall i :: 0 <= i < |s| ==> keep(s[i])
    ensures Filter(s, keep) == s
  {
    if |s| > 0 {
      FilterKeepsAll(s[1..], keep);
      assert s == [s[0]] + s[1..];
    }
  }

  /** When exactly one element fails, filtering removes exactly one element. */
  lemma {:induction false} FilterDropsOne<T(!new)>(s: seq<T>, keep: T -> bool, k: nat)
    requires k < |s| && !keep(s[k])
    requires forall i :: 0 <= i < |s| && i != k ==> keep(s[i])
    ensures |Filter(s, keep)| == |s| - 1
  {
    assert s == s[..k] + [s[k]] + s[k + 1..];
    FilterConcat(s[..k] + [s[k]], s[k + 1..], keep);
    FilterConcat(s[..k], [s[k]], keep);
    FilterKeepsAll(s[..k], keep);
    FilterKeepsAll(s[k + 1..], keep);
    assert Filter([s[k]], keep) == [];
  }

  /** The positions of the elements of s that satisfy keep, in increasing order. */
  function Positions<T(!new)>(s: seq<T>, keep: T -> bool): (ps: seq<nat>)
    ensures forall i :: 0 <= i < |ps| ==> ps[i] < |s| && keep(s[ps[i]])
    ensures forall i, j :: 0 <= i < j < |ps| ==> ps[i] < ps[j]
    ensures forall j :: 0 <= j < |s| && keep(s[j]) ==> j in ps
  {
    if |s| == 0 then []
    else
      var init := Positions(s[..|s| - 1], keep);
      init + (if keep(s[|s| - 1]) then [|s| - 1] else [])
  }

  /** Filtering a sequence with one more element at the end. */
  lemma FilterSnoc<T(!new)>(init: seq<T>, x: T, keep: T -> bool)
    ensures Filter(init + [x], keep) == Filter(init, keep) + (if keep(x) then [x] else [])
  {
    FilterConcat(init, [x], keep);
    FilterSingleton(x, keep);
  }

  /** Filtering a one-element sequence. */
  lemma FilterSingleton<T(!new)>(x: T, keep: T -> bool)
    ensures Filter([x], keep) == if keep(x) then [x] else []
  {
    assert [x][1..] == [];
  }

  /** Filtering picks out exactly the elements at the passing positions, in order. */
  lemma {:induction false} FilterAtPositions<T(!new)>(s: seq<T>, keep: T -> bool)
    ensures |Filter(s, keep)| == |Positions(s, keep)|
    ensures forall i :: 0 <= i < |Filter(s, keep)| ==> Filter(s, keep)[i] == s[Positions(s, keep)[i]]
  {
    if |s| > 0 {
      var init := s[..|s| - 1];
      FilterAtPositions(init, keep);
      assert s == init + [s[|s| - 1]];
      FilterSnoc(init, s[|s| - 1], keep);
      FilterAtLast(s, keep, Filter(init, keep), Positions(init, keep));
    }
  }

  /** The inductive step of `FilterAtPositions`: what holds of the prefix
      carries over to the whole sequence. */
  lemma FilterAtLast<T(!new)>(s: seq<T>, keep: T -> bool, fi: seq<T>, pi: seq<nat>)
    requires |s| > 0 && |fi| == |pi|
    requires forall i :: 0 <= i < |pi| ==> pi[i] < |s| - 1
    requires forall i :: 0 <= i < |fi| ==> fi[i] == s[pi[i]]
    ensures var x := s[|s| - 1];
            var f := fi + (if keep(x) then [x] else []);
            var ps := pi + (if keep(x) then [|s| - 1] else []);
            |f| == |ps| && forall i :: 0 <= i < |f| ==> f[i] == s[ps[i]]
  {
  }

  /** `[...s].reverse()`. */
  function Reverse<T>(s: seq<T>): (r: seq<T>)
    ensures |r| == |s|
    ensures forall i :: 0 <= i < |s| ==> r[i] == s[|s| - 1 - i]
    ensures multiset(r) == multiset(s)
  {
    if |s| == 0 then []
    else
      assert s == [s[0]] + s[1..];
      Reverse(s[1..]) + [s[0]]
  }
}
