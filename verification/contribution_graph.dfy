/** The "Days you leetcoded" heat map: a count of solves for every day of
    the last year, each cell coloured by its count. Days are whole numbers
    (one per calendar day), as the page's `yyyy-MM-dd` keys are. */
module ContributionGraph {
  import opened Wrappers

  /** How far back the window starts from its last day. */
  const WindowSpan: int := 365

  function WindowStart(end: int): int { end - WindowSpan }

  /** Every day from the window start to `end`, both included, oldest first. */
  function WindowDays(end: int): (days: seq<int>)
    ensures |days| == WindowSpan + 1
    ensures days[0] == WindowStart(end) && days[|days| - 1] == end
    ensures forall i :: 0 < i < |days| ==> days[i] == days[i - 1] + 1
    ensures forall d :: d in days <==> WindowStart(end) <= d <= end
  {
    var days := seq(WindowSpan + 1, i requires 0 <= i <= WindowSpan => WindowStart(end) + i);
    EveryDayListed(days, end);
    days
  }

  lemma EveryDayListed(days: seq<int>, end: int)
    requires |days| == WindowSpan + 1
    requires forall i :: 0 <= i < |days| ==> days[i] == WindowStart(end) + i
    ensures forall d :: WindowStart(end) <= d <= end ==> d in days
  {
    forall d | WindowStart(end) <= d <= end
      ensures d in days
    {
      assert days[d - WindowStart(end)] == d;
    }
  }

  /** A zero count for each of `days`. */
  function ZeroCounts(days: seq<int>): (m: map<int, int>)
    ensures m.Keys == set d | d in days
    ensures forall d :: d in m ==> m[d] == 0
  {
    map d | d in days :: 0
  }

  /** The count of `day`, then one more: `(map.get(day) || 0) + 1`. */
  function Bump(m: map<int, int>, day: int): map<int, int> {
    m[day := (if day in m then m[day] else 0) + 1]
  }

  function CountOr0(m: map<int, int>, day: int): int { if day in m then m[day] else 0 }

  /** Adds one to the count of each solve's day, in order. */
  function Tally(m: map<int, int>, solvedDays: seq<int>): (r: map<int, int>)
    ensures r.Keys == m.Keys + set d | d in solvedDays
    ensures forall d :: d in r ==> r[d] == CountOr0(m, d) + multiset(solvedDays)[d]
    decreases |solvedDays|
  {
    if |solvedDays| == 0 then m
    else
      assert solvedDays == [solvedDays[0]] + solvedDays[1..];
      Tally(Bump(m, solvedDays[0]), solvedDays[1..])
  }

  /** The count map for a window ending on `end`, given the day of each
      fetched solve. */
  function Contributions(end: int, solvedDays: seq<int>): (r: map<int, int>)
    ensures r.Keys == (set d | d in WindowDays(end)) + (set d | d in solvedDays)
    ensures forall d :: WindowStart(end) <= d <= end ==> d in r
    ensures forall i :: 0 <= i < |solvedDays| ==> solvedDays[i] in r
    ensures forall d :: d in r ==> r[d] == multiset(solvedDays)[d]
    ensures forall d :: d in r && d !in solvedDays ==> r[d] == 0
    ensures forall d :: d in r ==> r[d] >= 0
  {
    Tally(ZeroCounts(WindowDays(end)), solvedDays)
  }

  /** The graph's state after a fetch: unchanged when the query failed. */
  function FetchContributions(prev: map<int, int>, fetched: Result<seq<int>, string>, end: int): (r: map<int, int>)
    ensures fetched.Failure? ==> r == prev
    ensures fetched.Success? ==> forall d :: WindowStart(end) <= d <= end ==> d in r
  {
    match fetched
    case Failure(_) => prev
    case Success(days) => Contributions(end, days)
  }

  // ---------------------------------------------------------------------
  // Sum of the counts

  lemma HasElement(s: set<int>)
    requires |s| > 0
    ensures exists x :: x in s
  {
    if forall x :: x !in s {
      assert false;
    }
  }

  predicate IsEarliest(d: int, days: set<int>) {
    d in days && forall e :: e in days ==> d <= e
  }

  lemma {:induction false} MinExists(days: set<int>)
    requires |days| > 0
    ensures exists d :: IsEarliest(d, days)
    decreases |days|
  {
    HasElement(days);
    var x :| x in days;
    var rest := days - {x};
    if |rest| == 0 {
      forall e | e in days ensures x <= e {
        assert e !in rest;
      }
      assert IsEarliest(x, days);
    } else {
      MinExists(rest);
      var y :| IsEarliest(y, rest);
      var m := if x <= y then x else y;
      forall e | e in days ensures m <= e {
        if e != x {
          assert e in rest;
        }
      }
      assert IsEarliest(m, days);
    }
  }

  /** The earliest of a non-empty set of days. */
  ghost function Earliest(days: set<int>): (d: int)
    requires |days| > 0
    ensures IsEarliest(d, days)
  {
    MinExists(days);
    var d :| IsEarliest(d, days);
    d
  }

  /** The sum of the counts of the days in `days`, earliest first. */
  ghost function SumOver(m: map<int, int>, days: set<int>): int
    requires days <= m.Keys
    decreases days
  {
    if |days| == 0 then 0
    else m[Earliest(days)] + SumOver(m, days - {Earliest(days)})
  }

  /** The sum of all counts in `m`. */
  ghost function SumValues(m: map<int, int>): int {
    SumOver(m, m.Keys)
  }

  /** The sum splits off any one day, not only the earliest. */
  lemma {:induction false} SumOverPick(m: map<int, int>, days: set<int>, k: int)
    requires days <= m.Keys && k in days
    ensures SumOver(m, days) == m[k] + SumOver(m, days - {k})
    decreases days
  {
    var first := Earliest(days);
    if first != k {
      SumOverPick(m, days - {first}, k);
      var second := Earliest(days - {k});
      assert IsEarliest(first, days) && IsEarliest(second, days - {k});
      assert first in days - {k} && second in days;
      assert second == first;
      assert days - {first} - {k} == days - {k} - {first};
    }
  }

  /** Maps that agree on `days` have the same sum over them. */
  lemma {:induction false} SumOverAgree(m1: map<int, int>, m2: map<int, int>, days: set<int>)
    requires days <= m1.Keys && days <= m2.Keys
    requires forall d :: d in days ==> m1[d] == m2[d]
    ensures SumOver(m1, days) == SumOver(m2, days)
    decreases days
  {
    if |days| > 0 {
      HasElement(days);
      var d :| d in days;
      SumOverPick(m1, days, d);
      SumOverPick(m2, days, d);
      SumOverAgree(m1, m2, days - {d});
    }
  }

  lemma {:induction false} SumOverZero(m: map<int, int>, days: set<int>)
    requires days <= m.Keys
    requires forall d :: d in days ==> m[d] == 0
    ensures SumOver(m, days) == 0
    decreases days
  {
    if |days| > 0 {
      HasElement(days);
      var d :| d in days;
      SumOverPick(m, days, d);
      SumOverZero(m, days - {d});
    }
  }

  /** A map holding each element's multiplicity in `ms`, and a key for every
      element, sums to the size of `ms`. */
  lemma {:induction false} SumValuesCountsMultiset(m: map<int, int>, ms: multiset<int>)
    requires forall k :: k in m ==> m[k] == ms[k]
    requires forall x :: x in ms ==> x in m
    ensures SumValues(m) == |ms|
    decreases |ms|
  {
    if |ms| == 0 {
      SumOverZero(m, m.Keys);
    } else {
      assert exists x :: x in ms by {
        if forall x :: x !in ms {
          assert false;
        }
      }
      var x :| x in ms;
      var ms0 := ms - multiset{x};
      var m0 := m[x := m[x] - 1];
      assert m0.Keys == m.Keys;
      SumValuesCountsMultiset(m0, ms0);
      SumOverPick(m, m.Keys, x);
      SumOverPick(m0, m.Keys, x);
      SumOverAgree(m, m0, m.Keys - {x});
    }
  }

  /** Every fetched solve is counted exactly once: the counts add up to the
      number of solves. */
  lemma CountsSumToSolves(end: int, solvedDays: seq<int>)
    ensures SumValues(Contributions(end, solvedDays)) == |solvedDays|
  {
    SumValuesCountsMultiset(Contributions(end, solvedDays), multiset(solvedDays));
  }

  // ---------------------------------------------------------------------
  // Colour

  /** The Tailwind class of a cell with `count` solves. */
  function ColorForCount(count: int): string {
    if count == 0 then "bg-gray-100"
    else if count <= 1 then "bg-green-100"
    else if count <= 3 then "bg-green-300"
    else if count <= 5 then "bg-green-500"
    else "bg-green-700"
  }

  /** The colour bands, stated by their bounds. */
  predicate InColorBand(count: int, cls: string) {
    || (count == 0 && cls == "bg-gray-100")
    || (count == 1 && cls == "bg-green-100")
    || (2 <= count <= 3 && cls == "bg-green-300")
    || (4 <= count <= 5 && cls == "bg-green-500")
    || (6 <= count && cls == "bg-green-700")
  }

  /** Each non-negative count lies in exactly one band, and gets that
      band's colour. */
  lemma ColorBands(count: int, cls: string)
    requires count >= 0
    ensures ColorForCount(count) == cls <==> InColorBand(count, cls)
  {
  }

  /** Darkness of each colour, lightest first. */
  function Shade(cls: string): int {
    if cls == "bg-gray-100" then 0
    else if cls == "bg-green-100" then 1
    else if cls == "bg-green-300" then 2
    else if cls == "bg-green-500" then 3
    else 4
  }

  /** More solves never give a lighter cell. */
  lemma ColorMonotone(c1: int, c2: int)
    requires 0 <= c1 <= c2
    ensures Shade(ColorForCount(c1)) <= Shade(ColorForCount(c2))
  {
  }

  /** Counts are never negative, but a negative one would fall through to the
      lightest green. */
  lemma NegativeCountColor(count: int)
    requires count < 0
    ensures ColorForCount(count) == "bg-green-100"
  {
  }
}
