/** The "All Solved Problems" table: a difficulty filter and a search box,
    both applied to the page's initial problem list, and column sorting
    whose direction flips when the same column is clicked again. */
module AllProblems {
  import Seqs
  import Text
  import Sorting

  datatype Problem = Problem(id: int, number: int, name: string, difficulty: string, dateSolved: string)

  datatype SortKey = Number | Name | Difficulty | DateSolved

  datatype SortOrder = Asc | Desc

  /** The table's state: the rows shown and the controls' values. */
  datatype ListView = ListView(problems: seq<Problem>, filter: string, sortKey: SortKey, sortOrder: SortOrder, search: string)

  /** The list the page starts from, and that filter and search always restart from. */
  function InitialProblems(): seq<Problem> {
    [ Problem(1, 1, "Two Sum", "Easy", "2023-06-15"),
      Problem(2, 2, "Add Two Numbers", "Medium", "2023-06-14"),
      Problem(3, 3, "Longest Substring Without Repeating Characters", "Medium", "2023-06-13"),
      Problem(4, 4, "Median of Two Sorted Arrays", "Hard", "2023-06-12"),
      Problem(5, 5, "Longest Palindromic Substring", "Medium", "2023-06-11"),
      Problem(6, 20, "Valid Parentheses", "Easy", "2023-06-10"),
      Problem(7, 53, "Maximum Subarray", "Medium", "2023-06-09"),
      Problem(8, 121, "Best Time to Buy and Sell Stock", "Easy", "2023-06-08"),
      Problem(9, 217, "Contains Duplicate", "Easy", "2023-06-07"),
      Problem(10, 238, "Product of Array Except Self", "Medium", "2023-06-06") ]
  }

  function InitialView(): ListView {
    ListView(InitialProblems(), "All", Number, Asc, "")
  }

  // ---------------------------------------------------------------------
  // Difficulty filter

  const All := "All"

  /** The problems of `initial` with difficulty `d`, or all of them for "All". */
  function FilterByDifficulty(initial: seq<Problem>, d: string): (r: seq<Problem>)
    ensures d == All ==> r == initial
    ensures d != All ==> Seqs.IsSubsequence(r, initial)
    ensures d != All ==> forall i :: 0 <= i < |r| ==> r[i].difficulty == d
    ensures d != All ==> forall p :: multiset(r)[p] == if p.difficulty == d then multiset(initial)[p] else 0
  {
    if d == All then initial else Seqs.Filter(initial, (p: Problem) => p.difficulty == d)
  }

  /** Choosing a difficulty in the select box. */
  function HandleFilter(v: ListView, d: string): (w: ListView)
    ensures w.filter == d
    ensures w.problems == FilterByDifficulty(InitialProblems(), d)
    ensures w.sortKey == v.sortKey && w.sortOrder == v.sortOrder && w.search == v.search
  {
    v.(filter := d, problems := FilterByDifficulty(InitialProblems(), d))
  }

  /** The filtered list does not depend on what was shown before: any earlier
      sort, search or filter is discarded. */
  lemma FilterIgnoresHistory(v1: ListView, v2: ListView, d: string)
    ensures HandleFilter(v1, d).problems == HandleFilter(v2, d).problems
  {
  }

  /** Filtering a filtered list again by the same difficulty changes nothing. */
  lemma FilterByDifficultyIdempotent(initial: seq<Problem>, d: string)
    ensures FilterByDifficulty(FilterByDifficulty(initial, d), d) == FilterByDifficulty(initial, d)
  {
    if d != All {
      Seqs.FilterIdempotent(initial, (p: Problem) => p.difficulty == d);
    }
  }

  /** Choosing the same difficulty twice gives the same table as choosing it once. */
  lemma HandleFilterIdempotent(v: ListView, d: string)
    ensures HandleFilter(HandleFilter(v, d), d) == HandleFilter(v, d)
  {
  }

  // ---------------------------------------------------------------------
  // Search

  /** A problem matches a query when its lower-cased name contains the
      lower-cased query, or the decimal form of its number contains the
      query as typed. */
  predicate MatchesQuery(p: Problem, q: string) {
    Text.Contains(Text.ToLower(p.name), Text.ToLower(q)) || Text.Contains(Text.IntToString(p.number), q)
  }

  function SearchProblems(initial: seq<Problem>, q: string): (r: seq<Problem>)
    ensures Seqs.IsSubsequence(r, initial)
    ensures forall i :: 0 <= i < |r| ==> MatchesQuery(r[i], q)
    ensures forall p :: multiset(r)[p] == if MatchesQuery(p, q) then multiset(initial)[p] else 0
  {
    Seqs.Filter(initial, (p: Problem) => MatchesQuery(p, q))
  }

  /** Typing in the search box. */
  function HandleSearch(v: ListView, q: string): (w: ListView)
    ensures w.search == q
    ensures w.problems == SearchProblems(InitialProblems(), q)
    ensures w.filter == v.filter && w.sortKey == v.sortKey && w.sortOrder == v.sortOrder
  {
    v.(search := q, problems := SearchProblems(InitialProblems(), q))
  }

  /** An empty query keeps every problem. */
  lemma EmptySearchKeepsAll(initial: seq<Problem>)
    ensures SearchProblems(initial, "") == initial
  {
    forall i | 0 <= i < |initial|
      ensures MatchesQuery(initial[i], "")
    {
      Text.ContainsEmpty(Text.ToLower(initial[i].name));
    }
    Seqs.FilterAll(initial, (p: Problem) => MatchesQuery(p, ""));
  }

  /** Queries that differ only in letter case select the same problems. */
  lemma SearchIgnoresCase(p: Problem, q1: string, q2: string)
    requires Text.ToLower(q1) == Text.ToLower(q2)
    ensures MatchesQuery(p, q1) == MatchesQuery(p, q2)
  {
    var digits := Text.IntToString(p.number);
    if Text.Contains(digits, q1) {
      SameLowerNumericQuery(digits, q1, q2);
    }
    if Text.Contains(digits, q2) {
      SameLowerNumericQuery(digits, q2, q1);
    }
  }

  lemma SameLowerNumericQuery(digits: string, q1: string, q2: string)
    requires forall i :: 0 <= i < |digits| ==> Text.IsDigit(digits[i]) || digits[i] == '-'
    requires Text.Contains(digits, q1) && Text.ToLower(q1) == Text.ToLower(q2)
    ensures q1 == q2
  {
    Text.ContainsChars(digits, q1);
    forall i | 0 <= i < |q1| ensures q2[i] == q1[i] {
      assert q1[i] in digits;
      assert Text.LowerChar(q2[i]) == Text.LowerChar(q1[i]) == q1[i];
    }
  }

  /** Typing a query in lower case finds the same problems, in the same order. */
  lemma SearchUnchangedByLowerCasing(initial: seq<Problem>, q: string)
    ensures SearchProblems(initial, Text.ToLower(q)) == SearchProblems(initial, q)
  {
    Text.ToLowerIdempotent(q);
    forall i | 0 <= i < |initial|
      ensures MatchesQuery(initial[i], Text.ToLower(q)) == MatchesQuery(initial[i], q)
    {
      SearchIgnoresCase(initial[i], Text.ToLower(q), q);
    }
    Seqs.FilterCongruent(initial, (p: Problem) => MatchesQuery(p, Text.ToLower(q)), (p: Problem) => MatchesQuery(p, q));
  }

  /** Searching for a problem's number as typed always finds it. */
  lemma SearchFindsNumber(initial: seq<Problem>, i: int)
    requires 0 <= i < |initial|
    ensures initial[i] in SearchProblems(initial, Text.IntToString(initial[i].number))
  {
    var s := Text.IntToString(initial[i].number);
    assert Text.StartsWith(s, s);
    assert initial[i] in multiset(initial);
  }

  // ---------------------------------------------------------------------
  // Sorting

  /** JavaScript's `a[key] < b[key]`: numeric for the number column, string
      order for the others. */
  predicate KeyLess(key: SortKey, a: Problem, b: Problem) {
    match key
    case Number => a.number < b.number
    case Name => Text.LexLess(a.name, b.name)
    case Difficulty => Text.LexLess(a.difficulty, b.difficulty)
    case DateSolved => Text.LexLess(a.dateSolved, b.dateSolved)
  }

  lemma KeyLessAsymmetric(key: SortKey, a: Problem, b: Problem)
    ensures !(KeyLess(key, a, b) && KeyLess(key, b, a))
  {
    if KeyLess(key, a, b) && KeyLess(key, b, a) {
      match key
      case Number =>
      case Name => Text.LexLessTransitive(a.name, b.name, a.name); Text.LexLessIrreflexive(a.name);
      case Difficulty => Text.LexLessTransitive(a.difficulty, b.difficulty, a.difficulty); Text.LexLessIrreflexive(a.difficulty);
      case DateSolved => Text.LexLessTransitive(a.dateSolved, b.dateSolved, a.dateSolved); Text.LexLessIrreflexive(a.dateSolved);
    }
  }

  lemma StringLessSplits(x: string, y: string, z: string)
    requires Text.LexLess(x, z)
    ensures Text.LexLess(x, y) || Text.LexLess(y, z)
  {
    if y == z {
    } else if !Text.LexLess(y, z) {
      Text.LexLessConnected(y, z);
      Text.LexLessTransitive(x, z, y);
    }
  }

  /** If `c` sorts before `a`, any `b` sorts after `c` or before `a`. */
  lemma KeyLessSplits(key: SortKey, c: Problem, b: Problem, a: Problem)
    requires KeyLess(key, c, a)
    ensures KeyLess(key, c, b) || KeyLess(key, b, a)
  {
    match key
    case Number =>
    case Name => StringLessSplits(c.name, b.name, a.name);
    case Difficulty => StringLessSplits(c.difficulty, b.difficulty, a.difficulty);
    case DateSolved => StringLessSplits(c.dateSolved, b.dateSolved, a.dateSolved);
  }

  /** The comparator passed to `sort`; `descending` is the page's `isAsc`. */
  function Compare(key: SortKey, descending: bool, a: Problem, b: Problem): int {
    if KeyLess(key, a, b) then (if descending then 1 else -1)
    else if KeyLess(key, b, a) then (if descending then -1 else 1)
    else 0
  }

  /** `a` may stay before `b` when the comparator does not call for a swap. */
  function MayPrecede(key: SortKey, descending: bool): (Problem, Problem) -> bool {
    (a, b) => Compare(key, descending, a, b) <= 0
  }

  lemma MayPrecedeIsPreorder(key: SortKey, descending: bool)
    ensures Sorting.IsTotalPreorder(MayPrecede(key, descending))
  {
    var le := MayPrecede(key, descending);
    forall a, b ensures le(a, b) || le(b, a) {
      KeyLessAsymmetric(key, a, b);
    }
    forall a, b, c | le(a, b) && le(b, c) ensures le(a, c) {
      KeyLessAsymmetric(key, a, b);
      KeyLessAsymmetric(key, b, c);
      KeyLessAsymmetric(key, a, c);
      if descending {
        if KeyLess(key, a, c) { KeyLessSplits(key, a, b, c); }
      } else {
        if KeyLess(key, c, a) { KeyLessSplits(key, c, b, a); }
      }
    }
  }

  /** The order the next click on `key` selects: descending when `key` is
      already sorted ascending, ascending otherwise. */
  function NextOrder(v: ListView, key: SortKey): (o: SortOrder)
    ensures o == Desc <==> v.sortKey == key && v.sortOrder == Asc
  {
    if v.sortKey == key && v.sortOrder == Asc then Desc else Asc
  }

  /** What "may precede" means for each direction: ascending keeps `a`
      before `b` unless `b`'s key is smaller, descending unless it is larger. */
  lemma MayPrecedeMeaning(key: SortKey, descending: bool, a: Problem, b: Problem)
    ensures MayPrecede(key, descending)(a, b) <==>
      if descending then !KeyLess(key, a, b) else !KeyLess(key, b, a)
  {
    KeyLessAsymmetric(key, a, b);
  }

  /** The problems whose `key` column neither sorts before nor after `c`'s:
      those the comparator returns 0 for. */
  function SameKey(key: SortKey, c: Problem): Problem -> bool {
    (p: Problem) => !KeyLess(key, c, p) && !KeyLess(key, p, c)
  }

  /** The rows sorted by `key`, in the direction `descending` selects; rows
      with equal keys keep their previous order. */
  function SortRows(rows: seq<Problem>, key: SortKey, descending: bool): (r: seq<Problem>)
    ensures multiset(r) == multiset(rows)
    ensures !descending ==> forall i, j :: 0 <= i < j < |r| ==> !KeyLess(key, r[j], r[i])
    ensures descending ==> forall i, j :: 0 <= i < j < |r| ==> !KeyLess(key, r[i], r[j])
    ensures forall c :: Seqs.Filter(r, SameKey(key, c)) == Seqs.Filter(rows, SameKey(key, c))
  {
    MayPrecedeIsPreorder(key, descending);
    var r := Sorting.SortBy(rows, MayPrecede(key, descending));
    SortedMeaning(r, key, descending);
    LevelsAreSameKey(r, rows, key, descending);
    r
  }

  /** Under the comparator of either direction, the rows level with `c` are
      exactly those with the same key. */
  lemma LevelIsSameKey(key: SortKey, descending: bool, c: Problem, p: Problem)
    ensures Sorting.LevelWith(MayPrecede(key, descending), c)(p) == SameKey(key, c)(p)
  {
    KeyLessAsymmetric(key, c, p);
  }

  lemma LevelsAreSameKey(r: seq<Problem>, rows: seq<Problem>, key: SortKey, descending: bool)
    requires forall c ::
      Seqs.Filter(r, Sorting.LevelWith(MayPrecede(key, descending), c)) == Seqs.Filter(rows, Sorting.LevelWith(MayPrecede(key, descending), c))
    ensures forall c :: Seqs.Filter(r, SameKey(key, c)) == Seqs.Filter(rows, SameKey(key, c))
  {
    forall c ensures Seqs.Filter(r, SameKey(key, c)) == Seqs.Filter(rows, SameKey(key, c)) {
      SameFilterForLevel(r, rows, key, descending, c);
    }
  }

  lemma SameFilterForLevel(r: seq<Problem>, rows: seq<Problem>, key: SortKey, descending: bool, c: Problem)
    requires Seqs.Filter(r, Sorting.LevelWith(MayPrecede(key, descending), c)) == Seqs.Filter(rows, Sorting.LevelWith(MayPrecede(key, descending), c))
    ensures Seqs.Filter(r, SameKey(key, c)) == Seqs.Filter(rows, SameKey(key, c))
  {
    var level := Sorting.LevelWith(MayPrecede(key, descending), c);
    forall i | 0 <= i < |r| ensures level(r[i]) == SameKey(key, c)(r[i]) {
      LevelIsSameKey(key, descending, c, r[i]);
    }
    forall i | 0 <= i < |rows| ensures level(rows[i]) == SameKey(key, c)(rows[i]) {
      LevelIsSameKey(key, descending, c, rows[i]);
    }
    Seqs.FilterCongruent(r, level, SameKey(key, c));
    Seqs.FilterCongruent(rows, level, SameKey(key, c));
  }

  lemma SortedMeaning(r: seq<Problem>, key: SortKey, descending: bool)
    requires Sorting.SortedBy(r, MayPrecede(key, descending))
    ensures !descending ==> forall i, j :: 0 <= i < j < |r| ==> !KeyLess(key, r[j], r[i])
    ensures descending ==> forall i, j :: 0 <= i < j < |r| ==> !KeyLess(key, r[i], r[j])
  {
    forall i, j | 0 <= i < j < |r|
      ensures if descending then !KeyLess(key, r[i], r[j]) else !KeyLess(key, r[j], r[i])
    {
      MayPrecedeMeaning(key, descending, r[i], r[j]);
    }
  }

  /** Clicking a column header: sorts the rows currently shown. */
  function HandleSort(v: ListView, key: SortKey): (w: ListView)
    ensures w.sortKey == key && w.sortOrder == NextOrder(v, key)
    ensures w.filter == v.filter && w.search == v.search
    ensures multiset(w.problems) == multiset(v.problems)
    ensures w.sortOrder == Asc ==>
      forall i, j :: 0 <= i < j < |w.problems| ==> !KeyLess(key, w.problems[j], w.problems[i])
    ensures w.sortOrder == Desc ==>
      forall i, j :: 0 <= i < j < |w.problems| ==> !KeyLess(key, w.problems[i], w.problems[j])
    ensures forall c :: Seqs.Filter(w.problems, SameKey(key, c)) == Seqs.Filter(v.problems, SameKey(key, c))
  {
    var descending := v.sortKey == key && v.sortOrder == Asc;
    v.(sortKey := key, sortOrder := if descending then Desc else Asc, problems := SortRows(v.problems, key, descending))
  }

  /** Clicking the same column twice from an ascending sort gives descending
      then ascending again. */
  lemma SortTogglesOnSameKey(v: ListView, key: SortKey)
    requires v.sortKey == key && v.sortOrder == Asc
    ensures HandleSort(v, key).sortOrder == Desc
    ensures HandleSort(HandleSort(v, key), key).sortOrder == Asc
  {
  }

  /** Clicking a different column always sorts ascending. */
  lemma SortNewKeyAscends(v: ListView, key: SortKey)
    requires v.sortKey != key
    ensures HandleSort(v, key).sortOrder == Asc
  {
  }
}
