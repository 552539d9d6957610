/** The statistics summary shown on a user's dashboard: distinct problems
    solved, solves in the trailing week, per-difficulty counts, and the
    stored streak with its encouragement message. */
module ProblemStats {
  import opened Wrappers
  import Seqs

  const MsPerDay: int := 86_400_000

  /** One row of the user's `problems` table. `solvedAt` is the solve time
      in milliseconds, `None` when `date_solved` does not parse as a date. */
  datatype SolveRecord = SolveRecord(number: int, name: string, difficulty: string, solvedAt: Option<int>)

  datatype ProblemStats = ProblemStats(
    totalSolved: nat,
    solvedThisWeek: nat,
    currentStreak: int,
    streakMessage: string,
    easyCount: nat,
    mediumCount: nat,
    hardCount: nat)

  /** Why no summary is produced: each is rethrown to the caller. */
  datatype StatsError = NotAuthenticated | ProfileError(message: string) | ProblemsError(message: string)

  // ---------------------------------------------------------------------
  // Streak message

  /** The encouragement shown for a streak value. */
  function StreakMessage(streak: int): string {
    if streak == 0 then "Start your journey today!"
    else if streak == 1 then "Great start! Keep going!"
    else if streak == 2 then "Two days and counting!"
    else if streak == 3 then "Three days strong! \U{1F4AA}"
    else if streak == 4 then "Four days! You're on fire! \U{1F525}"
    else if streak == 5 then "Five days! Incredible dedication!"
    else if streak == 6 then "Six days! Almost a week! \U{2B50}"
    else if streak == 7 then "A full week! You're unstoppable! \U{1F680}"
    else if streak > 7 && streak < 14 then "Amazing streak! Keep it up! \U{1F31F}"
    else if streak >= 14 && streak < 21 then "Two weeks+! You're a coding machine! \U{1F916}"
    else if streak >= 21 && streak < 30 then "Three weeks+! Legendary status! \U{1F451}"
    else if streak >= 30 then "30+ days! Ultimate dedication! \U{1F3C6}"
    else "Keep coding!"
  }

  /** The ranges of streak values that share one message. */
  datatype StreakBand =
    | Day(n: nat)       // exactly n days, 0 <= n <= 7
    | Week              // 8 to 13
    | TwoWeeks          // 14 to 20
    | ThreeWeeks        // 21 to 29
    | Month             // 30 and more
    | Fallback          // anything else

  predicate ValidBand(b: StreakBand) {
    b.Day? ==> b.n <= 7
  }

  /** Membership of a streak value in a band, stated by its bounds. */
  predicate InBand(streak: int, b: StreakBand) {
    match b
    case Day(n) => n <= 7 && streak == n
    case Week => 8 <= streak <= 13
    case TwoWeeks => 14 <= streak <= 20
    case ThreeWeeks => 21 <= streak <= 29
    case Month => 30 <= streak
    case Fallback => streak < 0
  }

  /** The band a streak value falls in. */
  function BandOf(streak: int): (b: StreakBand)
    ensures ValidBand(b) && InBand(streak, b)
  {
    if 0 <= streak <= 7 then Day(streak)
    else if 8 <= streak <= 13 then Week
    else if 14 <= streak <= 20 then TwoWeeks
    else if 21 <= streak <= 29 then ThreeWeeks
    else if streak >= 30 then Month
    else Fallback
  }

  /** The bands are pairwise disjoint: a value lies in exactly one. */
  lemma BandsDisjoint(streak: int, b: StreakBand)
    requires ValidBand(b) && InBand(streak, b)
    ensures b == BandOf(streak)
  {
  }

  /** The message of a band, read off at its least member. */
  function BandMessage(b: StreakBand): string
    requires ValidBand(b)
  {
    match b
    case Day(n) => StreakMessage(n)
    case Week => StreakMessage(8)
    case TwoWeeks => StreakMessage(14)
    case ThreeWeeks => StreakMessage(21)
    case Month => StreakMessage(30)
    case Fallback => StreakMessage(-1)
  }

  /** The message depends only on the band: every value in a band gets the
      band's message. */
  lemma StreakMessageByBand(streak: int)
    ensures StreakMessage(streak) == BandMessage(BandOf(streak))
  {
  }

  /** Length and first character of each band's message: no two bands
      share both. */
  function Signature(b: StreakBand): (int, char)
    requires ValidBand(b)
  {
    match b
    case Day(n) =>
      if n == 0 then (25, 'S') else if n == 1 then (24, 'G') else if n == 2 then (22, 'T')
      else if n == 3 then (20, 'T') else if n == 4 then (28, 'F') else if n == 5 then (33, 'F')
      else if n == 6 then (26, 'S') else (34, 'A')
    case Week => (29, 'A')
    case TwoWeeks => (38, 'T')
    case ThreeWeeks => (33, 'T')
    case Month => (32, '3')
    case Fallback => (12, 'K')
  }

  lemma MessageSignature(b: StreakBand)
    requires ValidBand(b)
    ensures var m := BandMessage(b); |m| > 0 && (|m|, m[0]) == Signature(b)
  {
  }

  lemma SignatureInjective(b1: StreakBand, b2: StreakBand)
    requires ValidBand(b1) && ValidBand(b2) && b1 != b2
    ensures Signature(b1) != Signature(b2)
  {
  }

  /** Different bands have different messages, so the message identifies
      the band (and each exact value 0 to 7). */
  lemma BandMessagesDistinct(b1: StreakBand, b2: StreakBand)
    requires ValidBand(b1) && ValidBand(b2) && b1 != b2
    ensures BandMessage(b1) != BandMessage(b2)
  {
    MessageSignature(b1);
    MessageSignature(b2);
    SignatureInjective(b1, b2);
  }

  /** "Keep coding!" is shown exactly for negative streaks. */
  lemma FallbackOnlyNegative(streak: int)
    ensures StreakMessage(streak) == "Keep coding!" <==> streak < 0
  {
    if streak >= 0 {
      var b := BandOf(streak);
      assert b != Fallback;
      BandMessagesDistinct(b, Fallback);
    }
  }

  // ---------------------------------------------------------------------
  // Counts

  /** The distinct problem numbers among `rs`. */
  function Numbers(rs: seq<SolveRecord>): (ns: set<int>)
    ensures forall n :: n in ns <==> exists i :: 0 <= i < |rs| && rs[i].number == n
  {
    if |rs| == 0 then {}
    else
      var rest := Numbers(rs[1..]);
      assert forall i :: 1 <= i < |rs| ==> rs[i] == rs[1..][i - 1];
      {rs[0].number} + rest
  }

  predicate DistinctNumbers(rs: seq<SolveRecord>) {
    forall i, j :: 0 <= i < j < |rs| ==> rs[i].number != rs[j].number
  }

  /** At most one distinct number per record, exactly one per record
      when no number repeats. */
  lemma {:induction false} NumbersBound(rs: seq<SolveRecord>)
    ensures |Numbers(rs)| <= |rs|
    ensures |Numbers(rs)| == |rs| <==> DistinctNumbers(rs)
  {
    if |rs| > 0 {
      var tail := rs[1..];
      NumbersBound(tail);
      assert Numbers(rs) == {rs[0].number} + Numbers(tail);
      if rs[0].number in Numbers(tail) {
        var j :| 0 <= j < |tail| && tail[j].number == rs[0].number;
        assert rs[j + 1] == tail[j];
        assert !DistinctNumbers(rs);
      } else {
        if DistinctNumbers(rs) {
          assert DistinctNumbers(tail) by {
            forall i, j | 0 <= i < j < |tail| ensures tail[i].number != tail[j].number {
              assert tail[i] == rs[i + 1] && tail[j] == rs[j + 1];
            }
          }
        }
        if DistinctNumbers(tail) {
          forall i, j | 0 <= i < j < |rs| ensures rs[i].number != rs[j].number {
            if i > 0 {
              assert rs[i] == tail[i - 1] && rs[j] == tail[j - 1];
            } else {
              assert rs[j] == tail[j - 1];
            }
          }
        }
      }
    }
  }

  const Easy := "Easy"
  const Medium := "Medium"
  const Hard := "Hard"

  predicate HasDifficulty(d: string, r: SolveRecord) { r.difficulty == d }

  predicate KnownDifficulty(r: SolveRecord) {
    r.difficulty == Easy || r.difficulty == Medium || r.difficulty == Hard
  }

  /** The instant one week before `now`. */
  function WeekAgo(now: int): int { now - 7 * MsPerDay }

  /** Solved strictly after `weekAgo`; an unparseable date never qualifies. */
  predicate SolvedAfter(weekAgo: int, r: SolveRecord) {
    r.solvedAt.Some? && r.solvedAt.value > weekAgo
  }

  /** The stored streak, 0 when the profile has none. */
  function StoredStreak(stored: Option<int>): int { stored.GetOr(0) }

  /** The summary computed from the user's records and stored streak. */
  function Aggregate(rs: seq<SolveRecord>, stored: Option<int>, now: int): (st: ProblemStats)
    ensures st.totalSolved <= |rs|
    ensures st.solvedThisWeek <= |rs|
    ensures st.easyCount + st.mediumCount + st.hardCount <= |rs|
    ensures st.streakMessage == StreakMessage(st.currentStreak)
  {
    NumbersBound(rs);
    DifficultyPartition(rs);
    var streak := StoredStreak(stored);
    ProblemStats(
      totalSolved := |Numbers(rs)|,
      solvedThisWeek := Seqs.Count(rs, r => SolvedAfter(WeekAgo(now), r)),
      currentStreak := streak,
      streakMessage := StreakMessage(streak),
      easyCount := Seqs.Count(rs, r => HasDifficulty(Easy, r)),
      mediumCount := Seqs.Count(rs, r => HasDifficulty(Medium, r)),
      hardCount := Seqs.Count(rs, r => HasDifficulty(Hard, r)))
  }

  /** Per-difficulty counts are counts of records, not of distinct numbers:
      together with the unknown-difficulty records they account for every
      record exactly once. */
  lemma {:induction false} DifficultyPartition(rs: seq<SolveRecord>)
    ensures Seqs.Count(rs, r => HasDifficulty(Easy, r)) + Seqs.Count(rs, r => HasDifficulty(Medium, r))
            + Seqs.Count(rs, r => HasDifficulty(Hard, r)) + Seqs.Count(rs, r => !KnownDifficulty(r)) == |rs|
  {
    if |rs| > 0 {
      Seqs.CountUnfold(rs, r => HasDifficulty(Easy, r));
      Seqs.CountUnfold(rs, r => HasDifficulty(Medium, r));
      Seqs.CountUnfold(rs, r => HasDifficulty(Hard, r));
      Seqs.CountUnfold(rs, r => !KnownDifficulty(r));
      DifficultyPartition(rs[1..]);
    }
  }

  /** The three difficulty counts sum to the record count exactly when every
      record's difficulty is Easy, Medium or Hard. */
  lemma DifficultySumExact(rs: seq<SolveRecord>, stored: Option<int>, now: int)
    ensures var st := Aggregate(rs, stored, now);
      st.easyCount + st.mediumCount + st.hardCount == |rs|
      <==> forall i :: 0 <= i < |rs| ==> KnownDifficulty(rs[i])
  {
    DifficultyPartition(rs);
    Seqs.CountNone(rs, r => !KnownDifficulty(r));
  }

  /** `solvedThisWeek` reaches the record count exactly when every record is
      dated after the week boundary, and is zero exactly when none is. */
  lemma SolvedThisWeekExact(rs: seq<SolveRecord>, stored: Option<int>, now: int)
    ensures var st := Aggregate(rs, stored, now);
      && (st.solvedThisWeek == |rs| <==> forall i :: 0 <= i < |rs| ==> SolvedAfter(now - 7 * MsPerDay, rs[i]))
      && (st.solvedThisWeek == 0 <==> forall i :: 0 <= i < |rs| ==> !SolvedAfter(now - 7 * MsPerDay, rs[i]))
  {
    Seqs.CountAll(rs, r => SolvedAfter(WeekAgo(now), r));
    Seqs.CountNone(rs, r => SolvedAfter(WeekAgo(now), r));
  }

  /** The whole computation, given the outcomes of the three remote reads:
      whether a user is signed in, the profile's `current_streak` (`None` for
      SQL null), and the `problems` rows (`None` for a null result). */
  function CalculateProblemStats(
    signedIn: bool,
    profile: Result<Option<int>, string>,
    problems: Result<Option<seq<SolveRecord>>, string>,
    now: int): (r: Result<ProblemStats, StatsError>)
    ensures !signedIn ==> r == Failure(NotAuthenticated)
    ensures signedIn && profile.Failure? ==> r == Failure(ProfileError(profile.error))
    ensures signedIn && profile.Success? && problems.Failure? ==> r == Failure(ProblemsError(problems.error))
    ensures r.Success? <==> signedIn && profile.Success? && problems.Success?
    ensures r.Success? ==> r.value.currentStreak == profile.value.GetOr(0)
    ensures r.Success? ==> r.value.streakMessage == StreakMessage(r.value.currentStreak)
    ensures r.Success? && problems.value.Some? ==> r.value == Aggregate(problems.value.value, profile.value, now)
  {
    if !signedIn then Failure(NotAuthenticated)
    else if profile.Failure? then Failure(ProfileError(profile.error))
    else if problems.Failure? then Failure(ProblemsError(problems.error))
    else match problems.value
      case None =>
        var streak := StoredStreak(profile.value);
        Success(ProblemStats(0, 0, streak, StreakMessage(streak), 0, 0, 0))
      case Some(rs) => Success(Aggregate(rs, profile.value, now))
  }

  /** A null result and an empty list both give all-zero counts. */
  lemma NoProblemsAllZero(signedIn: bool, stored: Option<int>, rows: Option<seq<SolveRecord>>, now: int)
    requires signedIn && (rows == None || rows == Some([]))
    ensures var r := CalculateProblemStats(signedIn, Success(stored), Success(rows), now);
      && r.Success?
      && r.value.totalSolved == 0 && r.value.solvedThisWeek == 0
      && r.value.easyCount == 0 && r.value.mediumCount == 0 && r.value.hardCount == 0
      && r.value.currentStreak == StoredStreak(stored)
  {
  }
}
