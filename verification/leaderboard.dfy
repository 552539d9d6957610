/** The leaderboard page: users ranked by problems solved (ranked in the
    browser) or by streak (ranked by the database), shown twenty to a page
    with Previous/Next buttons, trophies for the top three and a
    "Showing a to b of n users" caption. */
module Leaderboard {
  import opened Wrappers
  import Sorting
  import Seqs

  const UsersPerPage: int := 20

  /** The per-user cap on problem rows fetched for the count. */
  const ProblemRowLimit: int := 1000

  /** A profile with a username, as the `profiles` query returns it. */
  datatype Profile = Profile(id: string, username: string, currentStreak: int)

  datatype LeaderboardUser = LeaderboardUser(id: string, username: string, totalProblems: int, currentStreak: int)

  // ---------------------------------------------------------------------
  // Ranking by problems solved

  /** The `total_problems` shown for a user who has `solved` problem rows:
      the length of a row list fetched with a limit of 1000. */
  function TotalProblems(solved: nat): (n: nat)
    ensures n <= ProblemRowLimit
    ensures solved <= ProblemRowLimit ==> n == solved
    ensures solved >= ProblemRowLimit ==> n == ProblemRowLimit
  {
    if solved < ProblemRowLimit then solved else ProblemRowLimit
  }

  /** Each profile paired with its solved count becomes a leaderboard user. */
  function WithCounts(entries: seq<(Profile, nat)>): (us: seq<LeaderboardUser>)
    ensures |us| == |entries|
    ensures forall i :: 0 <= i < |us| ==>
      us[i] == LeaderboardUser(entries[i].0.id, entries[i].0.username, TotalProblems(entries[i].1), entries[i].0.currentStreak)
  {
    seq(|entries|, i requires 0 <= i < |entries| =>
      LeaderboardUser(entries[i].0.id, entries[i].0.username, TotalProblems(entries[i].1), entries[i].0.currentStreak))
  }

  /** `a` may be listed before `b`: the comparator `b.total_problems - a.total_problems`
      is not positive. */
  predicate MoreOrEqualSolved(a: LeaderboardUser, b: LeaderboardUser) {
    b.totalProblems - a.totalProblems <= 0
  }

  lemma MoreOrEqualSolvedIsPreorder()
    ensures Sorting.IsTotalPreorder(MoreOrEqualSolved)
  {
  }

  /** The users who solved exactly `n` problems. */
  function SolvedCount(n: int): LeaderboardUser -> bool {
    (u: LeaderboardUser) => u.totalProblems == n
  }

  /** The users ordered by problems solved, most first; users with equal
      counts keep their fetched order, as the stable `sort` keeps them. */
  function RankByProblems(users: seq<LeaderboardUser>): (r: seq<LeaderboardUser>)
    ensures multiset(r) == multiset(users)
    ensures forall i, j :: 0 <= i < j < |r| ==> r[i].totalProblems >= r[j].totalProblems
    ensures forall n :: Seqs.Filter(r, SolvedCount(n)) == Seqs.Filter(users, SolvedCount(n))
  {
    MoreOrEqualSolvedIsPreorder();
    var r := Sorting.SortBy(users, MoreOrEqualSolved);
    assert forall i, j :: 0 <= i < j < |r| ==> MoreOrEqualSolved(r[i], r[j]);
    forall n ensures Seqs.Filter(r, SolvedCount(n)) == Seqs.Filter(users, SolvedCount(n)) {
      LevelIsSolvedCount(r, users, n);
    }
    r
  }

  /** Under the ranking comparator, the users level with one who solved `n`
      problems are exactly those who solved `n`. */
  lemma LevelIsSolvedCount(r: seq<LeaderboardUser>, users: seq<LeaderboardUser>, n: int)
    requires var c := LeaderboardUser("", "", n, 0);
      Seqs.Filter(r, Sorting.LevelWith(MoreOrEqualSolved, c)) == Seqs.Filter(users, Sorting.LevelWith(MoreOrEqualSolved, c))
    ensures Seqs.Filter(r, SolvedCount(n)) == Seqs.Filter(users, SolvedCount(n))
  {
    var c := LeaderboardUser("", "", n, 0);
    var level := Sorting.LevelWith(MoreOrEqualSolved, c);
    forall u ensures level(u) == SolvedCount(n)(u) {
      assert level(u) == (MoreOrEqualSolved(c, u) && MoreOrEqualSolved(u, c));
    }
    Seqs.FilterCongruent(r, level, SolvedCount(n));
    Seqs.FilterCongruent(users, level, SolvedCount(n));
  }

  // ---------------------------------------------------------------------
  // Pages

  /** `Math.ceil(n / 20)` for a non-negative user count. */
  function TotalPages(n: nat): (tp: nat)
    ensures n <= tp * UsersPerPage
    ensures tp == 0 || (tp - 1) * UsersPerPage < n
  {
    (n + UsersPerPage - 1) / UsersPerPage
  }

  lemma TotalPagesZero(n: nat)
    ensures TotalPages(n) == 0 <==> n == 0
  {
  }

  /** An index argument of `Array.prototype.slice` resolved against the length:
      negative values count from the end, and the result is clamped to
      `[0, len]`. */
  function SliceIndex(rel: int, len: nat): (k: nat)
    ensures k <= len
    ensures 0 <= rel <= len ==> k == rel
  {
    if rel < 0 then (if len + rel < 0 then 0 else len + rel)
    else if rel > len then len
    else rel
  }

  /** `s.slice(start, end)`. */
  function JsSlice<T>(s: seq<T>, start: int, end: int): seq<T> {
    var from, to := SliceIndex(start, |s|), SliceIndex(end, |s|);
    if from < to then s[from..to] else []
  }

  function PageStart(page: int): int { (page - 1) * UsersPerPage }

  function PageEnd(page: int): int { PageStart(page) + UsersPerPage }

  /** The users shown on page `page` of the ranking. */
  function PageSlice(ranked: seq<LeaderboardUser>, page: int): (r: seq<LeaderboardUser>)
    ensures |r| <= UsersPerPage
  {
    JsSlice(ranked, PageStart(page), PageEnd(page))
  }

  function Min(a: int, b: int): int { if a <= b then a else b }

  /** Page `page` holds at most twenty users, the ones at ranks `(page-1)*20`
      up to `page*20`, cut off at the end of the ranking. */
  lemma PageSliceWindow(ranked: seq<LeaderboardUser>, page: int)
    requires page >= 1
    ensures var n := |ranked|;
      PageSlice(ranked, page) == ranked[Min((page - 1) * UsersPerPage, n)..Min(page * UsersPerPage, n)]
  {
  }

  /** Pages 1 to k laid end to end. */
  function PagesUpTo(ranked: seq<LeaderboardUser>, k: nat): seq<LeaderboardUser> {
    if k == 0 then [] else PagesUpTo(ranked, k - 1) + PageSlice(ranked, k)
  }

  lemma {:induction false} PagesUpToIsPrefix(ranked: seq<LeaderboardUser>, k: nat)
    ensures PagesUpTo(ranked, k) == ranked[..Min(k * UsersPerPage, |ranked|)]
  {
    if k > 0 {
      PagesUpToIsPrefix(ranked, k - 1);
      PageSliceWindow(ranked, k);
      var a, b := Min((k - 1) * UsersPerPage, |ranked|), Min(k * UsersPerPage, |ranked|);
      assert ranked[..a] + ranked[a..b] == ranked[..b];
    }
  }

  /** Pages 1 to `TotalPages(n)` together list every ranked user exactly
      once, in rank order. */
  lemma PagesTileRanking(ranked: seq<LeaderboardUser>)
    ensures PagesUpTo(ranked, TotalPages(|ranked|)) == ranked
  {
    PagesUpToIsPrefix(ranked, TotalPages(|ranked|));
  }

  /** The user at rank `i` appears on page `page` exactly when `page` is
      `i / 20 + 1`, a page between 1 and `TotalPages(n)`, at row `i % 20`. */
  lemma EachUserOnOnePage(ranked: seq<LeaderboardUser>, i: int, page: int)
    requires 0 <= i < |ranked| && page >= 1
    ensures PageStart(page) <= i < PageEnd(page) <==> page == i / UsersPerPage + 1
    ensures 1 <= i / UsersPerPage + 1 <= TotalPages(|ranked|)
    ensures var p := i / UsersPerPage + 1;
      i % UsersPerPage < |PageSlice(ranked, p)| && PageSlice(ranked, p)[i % UsersPerPage] == ranked[i]
  {
    var p := i / UsersPerPage + 1;
    PageSliceWindow(ranked, p);
  }

  // ---------------------------------------------------------------------
  // Rank column

  /** The rank of row `index` on page `page`, counted from 0. */
  function GlobalIndex(page: int, index: int): int { (page - 1) * UsersPerPage + index }

  /** The rank column: a trophy for places 0 to 2, the 1-based rank beyond,
      nothing for a negative rank. */
  datatype RankBadge = Trophy(place: nat) | RankNumber(shown: int) | Blank

  function Badge(globalIndex: int): RankBadge {
    if globalIndex <= 2 then
      (if 0 <= globalIndex then Trophy(globalIndex) else Blank)
    else RankNumber(globalIndex + 1)
  }

  /** A trophy is shown exactly for the three best ranks; every other shown
      rank is one more than the index. */
  lemma BadgeCases(g: int)
    ensures Badge(g).Trophy? <==> 0 <= g <= 2
    ensures Badge(g).Trophy? ==> Badge(g).place == g
    ensures Badge(g).RankNumber? <==> g > 2
    ensures Badge(g).RankNumber? ==> Badge(g).shown == g + 1 && Badge(g).shown >= 4
  {
  }

  /** Row `index` of page `page` is the user at rank `GlobalIndex(page, index)`,
      so the rank shown beside a user is its rank in the whole list. */
  lemma RowIsRankedUser(ranked: seq<LeaderboardUser>, page: int, index: int)
    requires page >= 1 && 0 <= index < |PageSlice(ranked, page)|
    ensures 0 <= GlobalIndex(page, index) < |ranked|
    ensures PageSlice(ranked, page)[index] == ranked[GlobalIndex(page, index)]
  {
    PageSliceWindow(ranked, page);
  }

  // ---------------------------------------------------------------------
  // Caption and streak-mode range

  /** The bounds of "Showing a to b of n users". */
  function Caption(page: int, n: int): (int, int) {
    ((page - 1) * UsersPerPage + 1, Min(page * UsersPerPage, n))
  }

  /** On any page from 1 to the last (and on page 1 of an empty list), the
      caption's bounds count exactly the rows shown. */
  lemma CaptionCountsRows(ranked: seq<LeaderboardUser>, page: int)
    requires 1 <= page && (page <= TotalPages(|ranked|) || page == 1)
    ensures var (a, b) := Caption(page, |ranked|);
      b - a + 1 == |PageSlice(ranked, page)|
  {
    PageSliceWindow(ranked, page);
  }

  /** The inclusive `range(from, to)` requested in streak mode. */
  function StreakRange(page: int): (int, int) {
    ((page - 1) * UsersPerPage, page * UsersPerPage - 1)
  }

  /** The rows an inclusive range returns from an ordered result. */
  function RangeRows<T>(rows: seq<T>, from: nat, to: int): seq<T> {
    var a, b := Min(from, |rows|), Min(if to + 1 < 0 then 0 else to + 1, |rows|);
    if a < b then rows[a..b] else []
  }

  /** The streak-mode range asks for the same twenty ranks as the page
      window used in problems mode. */
  lemma StreakRangeMatchesPage(page: int, i: int)
    ensures var (from, to) := StreakRange(page);
      from <= i <= to <==> PageStart(page) <= i < PageEnd(page)
  {
  }

  lemma StreakRowsMatchPage(ranked: seq<LeaderboardUser>, page: int)
    requires page >= 1
    ensures var (from, to) := StreakRange(page);
      RangeRows(ranked, from, to) == PageSlice(ranked, page)
  {
    PageSliceWindow(ranked, page);
  }

  // ---------------------------------------------------------------------
  // Page state

  datatype Board = ByProblems | ByStreak

  /** The page's state: which board, which page, the rows shown and the
      user count for the caption. */
  datatype View = View(board: Board, page: int, users: seq<LeaderboardUser>, totalUsers: int)

  function InitialView(): View { View(ByProblems, 1, [], 0) }

  /** The page never goes below 1. */
  predicate ValidView(v: View) { v.page >= 1 && v.totalUsers >= 0 }

  /** Clicking "Problems Solved" or "Streak". */
  function SelectBoard(v: View, b: Board): (w: View)
    ensures w.board == b && w.page == 1
    ensures w.users == v.users && w.totalUsers == v.totalUsers
  {
    v.(board := b, page := 1)
  }

  function PreviousPage(page: int): int { if 1 >= page - 1 then 1 else page - 1 }

  predicate PreviousDisabled(page: int) { page == 1 }

  /** Clicking Previous; a disabled button does nothing. */
  function GoPrevious(v: View): (w: View)
    ensures v.page >= 1 ==> w.page >= 1
    ensures v.page > 1 ==> w.page == v.page - 1
    ensures v.page == 1 ==> w == v
  {
    if PreviousDisabled(v.page) then v else v.(page := PreviousPage(v.page))
  }

  /** Next as the page computes it: `Math.min(totalPages, p + 1)`. */
  function NextPage(page: int, totalPages: int): int { Min(totalPages, page + 1) }

  /** Next is disabled only on a page equal to the page count. */
  predicate NextDisabledAsWritten(page: int, totalPages: int) { page == totalPages }

  function GoNextAsWritten(v: View): View {
    var tp := TotalPages(if v.totalUsers < 0 then 0 else v.totalUsers);
    if NextDisabledAsWritten(v.page, tp) then v else v.(page := NextPage(v.page, tp))
  }

  /** With no users there are no pages, so Next stays enabled on page 1 and
      clicking it moves to page 0. */
  lemma NextWithNoUsersReachesPageZero()
    ensures ValidView(InitialView())
    ensures GoNextAsWritten(InitialView()).page == 0
    ensures !ValidView(GoNextAsWritten(InitialView()))
  {
  }

  function Max(a: int, b: int): int { if a >= b then a else b }

  /** Clicking Next, corrected only where the page would drop below 1: the
      button is disabled on the last page, and otherwise moves to
      `Math.min(totalPages, p + 1)` but never below page 1. With no users this
      leaves page 1 in place. */
  function GoNext(v: View): (w: View)
    requires ValidView(v)
    ensures ValidView(w)
    ensures w == v.(page := w.page)
    ensures w.page == v.page + 1 <==> v.page < TotalPages(v.totalUsers)
    ensures v.page >= TotalPages(v.totalUsers) ==> w.page == Max(1, TotalPages(v.totalUsers))
  {
    var tp := TotalPages(v.totalUsers);
    if NextDisabledAsWritten(v.page, tp) then v else v.(page := Max(1, NextPage(v.page, tp)))
  }

  /** The correction changes nothing once there is at least one page. */
  lemma GoNextAgreesWhenPagesExist(v: View)
    requires ValidView(v) && TotalPages(v.totalUsers) >= 1
    ensures GoNext(v) == GoNextAsWritten(v)
  {
  }

  /** The outcome of one `fetchLeaderboard` call. */
  datatype Fetched =
    | ProblemsLoaded(entries: seq<(Profile, nat)>)              // profiles with their solved counts
    | StreakLoaded(rows: Option<seq<Profile>>, count: Option<int>) // the requested range and the exact count
    | FetchFailed                                               // any query failed; logged only

  predicate FetchMatchesBoard(v: View, f: Fetched) {
    (f.ProblemsLoaded? ==> v.board == ByProblems) && (f.StreakLoaded? ==> v.board == ByStreak)
  }

  /** Streak-mode rows, shown with a zero problem count. */
  function StreakUsers(rows: Option<seq<Profile>>): (us: seq<LeaderboardUser>)
    ensures rows.None? ==> us == []
    ensures rows.Some? ==> |us| == |rows.value| && forall i :: 0 <= i < |us| ==>
      us[i].id == rows.value[i].id && us[i].username == rows.value[i].username && us[i].currentStreak == rows.value[i].currentStreak && us[i].totalProblems == 0
  {
    match rows
    case None => []
    case Some(ps) =>
      seq(|ps|, i requires 0 <= i < |ps| => LeaderboardUser(ps[i].id, ps[i].username, 0, ps[i].currentStreak))
  }

  /** The state after a fetch completes. A failure changes nothing; a
      streak result with a zero or missing count keeps the old user count. */
  function ApplyFetch(v: View, f: Fetched): (w: View)
    requires FetchMatchesBoard(v, f)
    ensures w.board == v.board && w.page == v.page
    ensures f.FetchFailed? ==> w == v
    ensures f.ProblemsLoaded? ==> w.totalUsers == |f.entries| && |w.users| <= UsersPerPage
    ensures f.StreakLoaded? ==> w.totalUsers == (if f.count.Some? && f.count.value != 0 then f.count.value else v.totalUsers)
  {
    match f
    case ProblemsLoaded(entries) =>
      var ranked := RankByProblems(WithCounts(entries));
      v.(users := PageSlice(ranked, v.page), totalUsers := |ranked|)
    case StreakLoaded(rows, count) =>
      v.(users := StreakUsers(rows), totalUsers := if count.Some? && count.value != 0 then count.value else v.totalUsers)
    case FetchFailed => v
  }

  /** After a problems-mode fetch, each row shown is the user of that global
      rank in a ranking of every fetched profile, most problems first. */
  lemma ProblemsRowsAreRanked(v: View, entries: seq<(Profile, nat)>, index: int)
    requires ValidView(v) && v.board == ByProblems
    requires 0 <= index < |ApplyFetch(v, ProblemsLoaded(entries)).users|
    ensures var ranked := RankByProblems(WithCounts(entries));
      && ApplyFetch(v, ProblemsLoaded(entries)).users[index] == ranked[GlobalIndex(v.page, index)]
      && forall j :: GlobalIndex(v.page, index) < j < |ranked| ==>
           ranked[j].totalProblems <= ApplyFetch(v, ProblemsLoaded(entries)).users[index].totalProblems
  {
    var ranked := RankByProblems(WithCounts(entries));
    RowIsRankedUser(ranked, v.page, index);
  }

  /** Every transition keeps the page at 1 or above. */
  lemma TransitionsKeepValid(v: View, b: Board, f: Fetched)
    requires ValidView(v)
    ensures ValidView(SelectBoard(v, b))
    ensures ValidView(GoPrevious(v))
    ensures ValidView(GoNext(v))
    ensures FetchMatchesBoard(v, f) && (f.StreakLoaded? && f.count.Some? ==> f.count.value >= 0)
      ==> ValidView(ApplyFetch(v, f))
  {
  }
}
