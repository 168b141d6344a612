/** The comparator `handleSort` hands to `Array.prototype.sort`
    (frontend/src/pages/ProjectPage.jsx), sorted by the insertion sort of
    `Sorting`. The output is a permutation; rows of equal priority keep
    their order; ranked rows come out in rank order; and rows with distinct
    text keys come out in the only strictly ordered arrangement. */
module TaskSort {
  import opened Wrappers
  import opened JsValues
  import opened TaskProjectUtils
  import opened Seqs
  import opened Sorting

  /** The columns the table header sorts by. */
  datatype SortKey = Title | DueDate | Priority
  datatype Direction = Asc | Desc

  /** `priorityOrder`. */
  const PriorityOrder: map<string, int> := map["Low" := 1, "Medium" := 2, "High" := 3]

  /** `priorityOrder[v]`; None is `undefined`. */
  function PriorityRank(v: JsValue): Option<int> {
    var key := ToJsString(v);
    if key in PriorityOrder then Some(PriorityOrder[key]) else None
  }

  /** Only the three priority names have a rank: Low 1, Medium 2, High 3. */
  lemma PriorityRankNames(v: JsValue)
    ensures PriorityRank(v).Some? <==> v in {Str("Low"), Str("Medium"), Str("High")}
    ensures v == Str("Low") ==> PriorityRank(v) == Some(1)
    ensures v == Str("Medium") ==> PriorityRank(v) == Some(2)
    ensures v == Str("High") ==> PriorityRank(v) == Some(3)
  {
    if v.Num? {
      var key := IntToString(v.n);
      assert key[0] == '-' || '0' <= key[0] <= '9';
    }
  }

  /** `a[key]` for the text columns. */
  function Text(key: SortKey, t: TaskView): string
    requires key != Priority
  {
    if key == Title then t.title else t.dueDate
  }

  /** The comparator of `handleSort`. For priorities it is the difference of
      ranks; when a rank is undefined the difference is NaN, which the sort
      reads as +0. For text it is -1 or 1 and never 0. */
  function Compare(key: SortKey, dir: Direction, a: TaskView, b: TaskView): int {
    if key == Priority then
      match (PriorityRank(a.priority), PriorityRank(b.priority))
      case (Some(x), Some(y)) => if dir == Asc then x - y else y - x
      case _ => 0
    else if dir == Asc then
      if StrLess(Text(key, a), Text(key, b)) then -1 else 1
    else
      if StrLess(Text(key, b), Text(key, a)) then -1 else 1
  }

  /** On a text column the comparator returns only -1 or 1, and -1 exactly
      when a sorts before b in the chosen direction. */
  lemma CompareText(key: SortKey, dir: Direction, a: TaskView, b: TaskView)
    requires key != Priority
    ensures Compare(key, dir, a, b) == -1 || Compare(key, dir, a, b) == 1
    ensures dir == Asc ==> (Compare(key, dir, a, b) < 0 <==> StrLess(Text(key, a), Text(key, b)))
    ensures dir == Desc ==> (Compare(key, dir, a, b) < 0 <==> StrLess(Text(key, b), Text(key, a)))
  {
  }

  /** On the priority column the comparator is the difference of ranks, and
      0 when either rank is undefined. */
  lemma ComparePriority(dir: Direction, a: TaskView, b: TaskView)
    ensures PriorityRank(a.priority).Some? && PriorityRank(b.priority).Some? ==>
              (dir == Asc ==> Compare(Priority, dir, a, b) == PriorityRank(a.priority).value - PriorityRank(b.priority).value) &&
              (dir == Desc ==> Compare(Priority, dir, a, b) == PriorityRank(b.priority).value - PriorityRank(a.priority).value)
    ensures PriorityRank(a.priority).None? || PriorityRank(b.priority).None? ==> Compare(Priority, dir, a, b) == 0
  {
  }

  /** Records with equal text keys compare as 1 both ways: no order between them is defined. */
  lemma EqualTextUnordered(key: SortKey, dir: Direction, a: TaskView, b: TaskView)
    requires key != Priority && Text(key, a) == Text(key, b)
    ensures Compare(key, dir, a, b) == 1 && Compare(key, dir, b, a) == 1
  {
    StrLessIrreflexive(Text(key, a));
  }

  /** The comparator as the function value handed to the sort. */
  function Comparator(key: SortKey, dir: Direction): (TaskView, TaskView) -> int {
    (a: TaskView, b: TaskView) => Compare(key, dir, a, b)
  }

  /** `[...tasks].sort(comparator)`. */
  function SortTasks(key: SortKey, dir: Direction, s: seq<TaskView>): (r: seq<TaskView>)
    ensures |r| == |s| && multiset(r) == multiset(s)
  {
    SortBy(Comparator(key, dir), s)
  }

  /** Descending compares as ascending with the arguments swapped. */
  lemma DescendingFlipsAscending(key: SortKey, a: TaskView, b: TaskView)
    ensures Compare(key, Desc, a, b) == Compare(key, Asc, b, a)
  {
  }

  // ---------------------------------------------------------------------
  // Sorting by priority

  ghost predicate AllRanked(s: seq<TaskView>) {
    forall i :: 0 <= i < |s| ==> PriorityRank(s[i].priority).Some?
  }

  /** When every priority is Low, Medium or High, ascending output is
      non-decreasing and descending output non-increasing in `priorityOrder`. */
  lemma SortByPriority(dir: Direction, s: seq<TaskView>)
    requires AllRanked(s)
    ensures var r := SortTasks(Priority, dir, s);
            AllRanked(r) &&
            (dir == Asc ==> forall i, j :: 0 <= i < j < |r| ==>
               PriorityRank(r[i].priority).value <= PriorityRank(r[j].priority).value) &&
            (dir == Desc ==> forall i, j :: 0 <= i < j < |r| ==>
               PriorityRank(r[i].priority).value >= PriorityRank(r[j].priority).value)
  {
    var r := SortTasks(Priority, dir, s);
    forall i | 0 <= i < |r|
      ensures PriorityRank(r[i].priority).Some?
    {
      assert r[i] in multiset(s);
    }
    PriorityPreorder(dir, s);
    SortSorted(Comparator(Priority, dir), s, s);
    forall i, j | 0 <= i < j < |r|
      ensures dir == Asc ==> PriorityRank(r[i].priority).value <= PriorityRank(r[j].priority).value
      ensures dir == Desc ==> PriorityRank(r[i].priority).value >= PriorityRank(r[j].priority).value
    {
      assert Compare(Priority, dir, r[i], r[j]) <= 0;
      ComparePriority(dir, r[i], r[j]);
    }
  }

  /** On ranked records the priority comparator is a total preorder. */
  lemma PriorityPreorder(dir: Direction, s: seq<TaskView>)
    requires AllRanked(s)
    ensures Total(Comparator(Priority, dir), s) && Transitive(Comparator(Priority, dir), s)
  {
    forall a | a in s
      ensures PriorityRank(a.priority).Some?
    {
    }
  }

  /** The rows whose priority has the given rank, or none. */
  function SameRank(rank: Option<int>): TaskView -> bool {
    (t: TaskView) => PriorityRank(t.priority) == rank
  }

  /** Sorting by priority is stable: the rows of any one rank, and the rows
      without a rank, leave in the order they came. */
  lemma SortByPriorityStable(dir: Direction, s: seq<TaskView>, rank: Option<int>)
    ensures Filter(SortTasks(Priority, dir, s), SameRank(rank)) == Filter(s, SameRank(rank))
  {
    forall a, b | a in s && b in s && SameRank(rank)(a) && SameRank(rank)(b)
      ensures Comparator(Priority, dir)(a, b) <= 0
    {
      ComparePriority(dir, a, b);
    }
    SortStable(Comparator(Priority, dir), SameRank(rank), s);
  }

  // ---------------------------------------------------------------------
  // Sorting by a text column

  ghost predicate DistinctText(key: SortKey, s: seq<TaskView>)
    requires key != Priority
  {
    forall i, j :: 0 <= i < j < |s| ==> Text(key, s[i]) != Text(key, s[j])
  }

  /** On records with distinct text keys the comparator is a strict total order. */
  lemma TextStrictOrder(key: SortKey, dir: Direction, s: seq<TaskView>)
    requires key != Priority && DistinctText(key, s)
    ensures var cmp := Comparator(key, dir);
            Total(cmp, s) && Transitive(cmp, s) && Asymmetric(cmp, s) && NoTies(cmp, s)
    ensures forall i, j :: 0 <= i < j < |s| ==> s[i] != s[j]
  {
    var cmp := Comparator(key, dir);
    forall a, b | a in s && b in s && a != b
      ensures cmp(a, b) <= 0 || cmp(b, a) <= 0
    {
      var i :| 0 <= i < |s| && s[i] == a;
      var j :| 0 <= j < |s| && s[j] == b;
      StrLessTotal(Text(key, a), Text(key, b));
    }
    forall a, b, c | a in s && b in s && c in s && cmp(a, b) <= 0 && cmp(b, c) <= 0
      ensures cmp(a, c) <= 0
    {
      if dir == Asc {
        StrLessTransitive(Text(key, a), Text(key, b), Text(key, c));
      } else {
        StrLessTransitive(Text(key, c), Text(key, b), Text(key, a));
      }
    }
    forall a, b | a in s && b in s
      ensures !(cmp(a, b) < 0 && cmp(b, a) < 0)
    {
      if StrLess(Text(key, a), Text(key, b)) {
        StrLessAsymmetric(Text(key, a), Text(key, b));
      }
    }
    forall a, b | a in s && b in s
      ensures cmp(a, b) != 0
    {
      CompareText(key, dir, a, b);
    }
  }

  /** With pairwise distinct keys, ascending output is strictly increasing
      and descending output strictly decreasing under the string `<`. */
  lemma SortByText(key: SortKey, dir: Direction, s: seq<TaskView>)
    requires key != Priority && DistinctText(key, s)
    ensures var r := SortTasks(key, dir, s);
            (dir == Asc ==> forall i, j :: 0 <= i < j < |r| ==> StrLess(Text(key, r[i]), Text(key, r[j]))) &&
            (dir == Desc ==> forall i, j :: 0 <= i < j < |r| ==> StrLess(Text(key, r[j]), Text(key, r[i])))
  {
    TextStrictOrder(key, dir, s);
    SortStrictlySorted(Comparator(key, dir), s);
    var r := SortTasks(key, dir, s);
    forall i, j | 0 <= i < j < |r|
      ensures dir == Asc ==> StrLess(Text(key, r[i]), Text(key, r[j]))
      ensures dir == Desc ==> StrLess(Text(key, r[j]), Text(key, r[i]))
    {
      CompareText(key, dir, r[i], r[j]);
    }
  }

  /** With distinct keys every permutation of the input that is strictly
      ordered by the comparator is the one computed here, so any engine that
      returns a strictly ordered arrangement returns this one. */
  lemma SortTextUnique(key: SortKey, dir: Direction, s: seq<TaskView>, t: seq<TaskView>)
    requires key != Priority && DistinctText(key, s)
    requires multiset(t) == multiset(s) && StrictlySorted(Comparator(key, dir), t)
    ensures t == SortTasks(key, dir, s)
  {
    TextStrictOrder(key, dir, s);
    SortUnique(Comparator(key, dir), s, t);
  }

  /** Sorting an ascending list descending reverses it, when the keys are distinct. */
  lemma DescendingReversesAscending(key: SortKey, s: seq<TaskView>)
    requires key != Priority && DistinctText(key, s)
    ensures SortTasks(key, Desc, SortTasks(key, Asc, s)) == Reverse(SortTasks(key, Asc, s))
  {
    var asc := SortTasks(key, Asc, s);
    TextStrictOrder(key, Asc, s);
    SortStrictlySorted(Comparator(key, Asc), s);
    forall a, b | a in asc && b in asc
      ensures Comparator(key, Desc)(a, b) == Comparator(key, Asc)(b, a)
    {
      DescendingFlipsAscending(key, a, b);
    }
    ReverseStrictlySorted(Comparator(key, Asc), Comparator(key, Desc), asc);
    forall i, j | 0 <= i < j < |asc|
      ensures Text(key, asc[i]) != Text(key, asc[j])
    {
      CompareText(key, Asc, asc[i], asc[j]);
      StrLessIrreflexive(Text(key, asc[i]));
    }
    SortTextUnique(key, Desc, asc, Reverse(asc));
  }
}
