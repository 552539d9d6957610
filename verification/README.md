# LeetCode tracker: statistics, leaderboard, problem table, heat map and route guard

A Dafny model of the computations inside a Next.js + Supabase web app for
tracking solved LeetCode problems. The database queries, the sign-in calls and
React itself are removed. What is left is a set of pure functions over integers,
strings and sequences:

- **Problem statistics** (`problem_stats.dfy`, module `ProblemStats`). The
  dashboard summary is computed from the user's solve records and the streak
  stored on their profile. It holds the number of distinct problem numbers, the
  solves in the trailing week, per-difficulty counts, and the stored streak with
  its encouragement message. The message is chosen from fixed bands of streak
  values. The three remote reads become arguments, and each failure becomes a
  `Failure` value.
- **Leaderboard** (`leaderboard.dfy`, module `Leaderboard`). It covers:
  - ranking by problems solved, most first, with each count capped at 1000 rows;
  - twenty users per page, with `Math.ceil` for the page count and
    `Array.prototype.slice` semantics, negative indices included;
  - the inclusive range requested in streak mode;
  - the rank column, with trophies for the top three;
  - the "Showing a to b of n users" caption;
  - the Previous/Next buttons, and the state changes from switching boards and
    from completed fetches.
- **Problem table** (`all_problems.dfy`, module `AllProblems`). The difficulty
  filter and the search both restart from the page's initial list. Search is
  case-insensitive on the name and matches the number's decimal form as typed.
  Clicking a column header sorts the rows; clicking the same column again flips
  the direction.
- **Contribution heat map** (`contribution_graph.dfy`, module
  `ContributionGraph`). It keeps a per-day count over the 366 days ending today,
  every day starting at 0 and each solve adding 1 to its own day. A colour band
  is chosen by count.
- **Route guard** (`middleware.dfy`, module `Middleware`). For each request it
  decides among redirect to `/dashboard`, redirect to `/auth/login`, and pass.
  It also models the `matcher` that decides which requests reach the guard.

The shared modules are `Wrappers` (Option/Result), `Seqs` (order-preserving
filter and count), `Text` (JavaScript's `toLowerCase`, `includes`,
`startsWith`, string `<` and integer `toString`) and `Sorting` (a stable sort by
a total preorder, which models `Array.prototype.sort` with a comparator).

Days and timestamps are plain integers. The emoji in the streak messages are
written as `\U{...}` escapes of the same characters.

## Model

| member | source | states |
|---|---|---|
| ProblemStats.StreakMessageByBand | lib/problem-stats.ts:91-106 | every streak value gets the message of the one band it lies in |
| ProblemStats.BandOf | lib/problem-stats.ts:92-105 | every integer streak lies in one of the bands: exactly 0..7, 8–13, 14–20, 21–29, 30 and more, or negative |
| ProblemStats.BandsDisjoint | lib/problem-stats.ts:100-104 | the bands do not overlap, so a value lies in exactly one |
| ProblemStats.BandMessagesDistinct | lib/problem-stats.ts:92-105 | different bands (including each exact value 0 to 7) show different messages |
| ProblemStats.FallbackOnlyNegative | lib/problem-stats.ts:92-105 | "Keep coding!" is shown exactly for negative streaks and never for a non-negative one |
| ProblemStats.Numbers | lib/problem-stats.ts:59 | the set of problem numbers holds exactly the numbers some record has |
| ProblemStats.NumbersBound | lib/problem-stats.ts:58-60 | `totalSolved` is at most the record count, and equals it exactly when no number repeats |
| ProblemStats.Aggregate | lib/problem-stats.ts:58-84 | every count is at most the record count, and the message is the one for the reported streak |
| ProblemStats.DifficultyPartition | lib/problem-stats.ts:69-74 | Easy, Medium, Hard and unknown-difficulty records are counted per record and together account for every record once |
| ProblemStats.DifficultySumExact | lib/problem-stats.ts:69-74 | easy + medium + hard equals the record count exactly when every difficulty is Easy, Medium or Hard |
| ProblemStats.SolvedThisWeekExact | lib/problem-stats.ts:62-67 | `solvedThisWeek` equals the record count exactly when every record is strictly after one week ago, and is 0 exactly when none is |
| ProblemStats.CalculateProblemStats | lib/problem-stats.ts:14-89 | sign-in, profile and problem-query failures surface as errors in that order; otherwise the streak is the stored one or 0 and the message matches it |
| ProblemStats.NoProblemsAllZero | lib/problem-stats.ts:46-55 | a null or empty problem list gives all-zero counts and the stored streak |
| Leaderboard.TotalProblems | app/leaderboard/page.tsx:61-71 | a user's count is their number of problem rows, capped at 1000 |
| Leaderboard.WithCounts | app/leaderboard/page.tsx:59-74 | one leaderboard user per fetched profile, in order, with its capped count |
| Leaderboard.RankByProblems | app/leaderboard/page.tsx:76-79 | the ranking is a permutation of the users, is non-increasing in problems solved, and keeps users with equal counts in their fetched order |
| Leaderboard.TotalPages | app/leaderboard/page.tsx:126 | the page count is the least number of 20-user pages that holds every user |
| Leaderboard.TotalPagesZero | app/leaderboard/page.tsx:126 | there are no pages exactly when there are no users |
| Leaderboard.PageSlice | app/leaderboard/page.tsx:82-85 | any page number, even 0 or a negative one, shows at most 20 users |
| Leaderboard.PageSliceWindow | app/leaderboard/page.tsx:82-85 | page p (from 1 up) holds the users at ranks (p-1)*20 up to p*20, cut at the end of the list |
| Leaderboard.PagesTileRanking | app/leaderboard/page.tsx:83-85 | pages 1 to the page count, laid end to end, are exactly the ranking |
| Leaderboard.EachUserOnOnePage | app/leaderboard/page.tsx:83-85 | the user at rank i is on page i/20+1 only, at row i%20, and that page exists |
| Leaderboard.BadgeCases | app/leaderboard/page.tsx:199-220 | a trophy is shown exactly for global ranks 0, 1 and 2; above that, rank+1 is shown |
| Leaderboard.RowIsRankedUser | app/leaderboard/page.tsx:198-200 | row i of page p is the user at global rank (p-1)*20+i of the ranking |
| Leaderboard.CaptionCountsRows | app/leaderboard/page.tsx:243-246 | on pages 1 to the last, the caption's a and b satisfy b-a+1 = number of rows shown |
| Leaderboard.StreakRangeMatchesPage | app/leaderboard/page.tsx:99-102 | the streak-mode inclusive range covers exactly the indices of the problems-mode page window |
| Leaderboard.StreakRowsMatchPage | app/leaderboard/page.tsx:87-102 | the rows the inclusive range returns from a ranked list are exactly that page's slice |
| Leaderboard.SelectBoard | app/leaderboard/page.tsx:154-172 | switching board always goes back to page 1 and keeps the rows until the next fetch |
| Leaderboard.GoPrevious | app/leaderboard/page.tsx:249-256 | Previous moves back one page, never below 1, and does nothing on page 1 |
| Leaderboard.NextWithNoUsersReachesPageZero | app/leaderboard/page.tsx:260-266 | as written, with no users Next is enabled on page 1 and moves to page 0 |
| Leaderboard.GoNext | app/leaderboard/page.tsx:260-266 | Next moves forward one page exactly when a later page exists; from the last page or beyond it goes to the last page, or stays at page 1 when there are no pages; nothing but the page changes |
| Leaderboard.GoNextAgreesWhenPagesExist | app/leaderboard/page.tsx:260-266 | whenever at least one page exists, the corrected Next does exactly what the page's own Next does |
| Leaderboard.StreakUsers | app/leaderboard/page.tsx:106-111 | each streak row becomes a user with the same id, username and streak and a zero problem count; a null result shows none |
| Leaderboard.ApplyFetch | app/leaderboard/page.tsx:45-120 | a failed fetch changes nothing; problems mode shows at most 20 rows with the user count; streak mode takes the count only when non-zero |
| Leaderboard.ProblemsRowsAreRanked | app/leaderboard/page.tsx:76-85 | after a problems fetch each row shown is the user at its global rank, with no later-ranked user solving more |
| Leaderboard.TransitionsKeepValid | app/leaderboard/page.tsx:37-266 | switching board, Previous, Next and fetches keep the page at 1 or above |
| AllProblems.FilterByDifficulty | app/all-problems/page.tsx:49-54 | "All" gives the whole initial list; any other difficulty gives the order-preserving subsequence with that difficulty, each problem kept with its multiplicity |
| AllProblems.HandleFilter | app/all-problems/page.tsx:49-54 | choosing a difficulty shows its filter of the initial list and leaves sort and search settings alone |
| AllProblems.FilterIgnoresHistory | app/all-problems/page.tsx:49-54 | the filtered rows do not depend on any earlier sort, search or filter |
| AllProblems.FilterByDifficultyIdempotent | app/all-problems/page.tsx:49-54 | filtering a filtered list by the same difficulty changes nothing |
| AllProblems.HandleFilterIdempotent | app/all-problems/page.tsx:49-54 | choosing the same difficulty twice gives the same table as once |
| AllProblems.SearchProblems | app/all-problems/page.tsx:68-75 | search keeps, in order, exactly the problems whose lower-cased name contains the lower-cased query or whose number's digits contain the query |
| AllProblems.HandleSearch | app/all-problems/page.tsx:68-75 | typing a query shows its search of the initial list, whatever was shown before |
| AllProblems.EmptySearchKeepsAll | app/all-problems/page.tsx:70-73 | an empty query keeps every problem |
| AllProblems.SearchIgnoresCase | app/all-problems/page.tsx:70-73 | queries that differ only in letter case select the same problems, including on the number |
| AllProblems.SearchUnchangedByLowerCasing | app/all-problems/page.tsx:70-73 | typing the query in lower case gives the same rows in the same order |
| AllProblems.SearchFindsNumber | app/all-problems/page.tsx:72 | searching a problem's number as typed always finds that problem |
| AllProblems.MayPrecedeIsPreorder | app/all-problems/page.tsx:60-64 | the sort comparator is consistent (total and transitive) for every column and direction |
| AllProblems.NextOrder | app/all-problems/page.tsx:57-59 | the new order is descending exactly when the same column was sorted ascending |
| AllProblems.SortRows | app/all-problems/page.tsx:60-64 | the sorted rows are a permutation of the rows, ascending or descending by the column, and rows with equal keys keep their previous order |
| AllProblems.HandleSort | app/all-problems/page.tsx:56-66 | sorting adds or drops no row, orders rows by the key in the new direction, keeps rows with equal keys in the order they were shown, and records the key and direction |
| AllProblems.SortTogglesOnSameKey | app/all-problems/page.tsx:57-59 | clicking the ascending column gives descending, and clicking again gives ascending |
| AllProblems.SortNewKeyAscends | app/all-problems/page.tsx:57-59 | clicking a different column always sorts ascending |
| ContributionGraph.WindowDays | components/contribution-graph.tsx:18-33 | the window is 366 consecutive days, starting 365 days before the last and ending on it |
| ContributionGraph.ZeroCounts | components/contribution-graph.tsx:36-41 | every day of the window has an entry, set to 0 |
| ContributionGraph.Tally | components/contribution-graph.tsx:43-47 | each solve adds 1 to its own day, creating the entry if missing; no other day changes |
| ContributionGraph.Contributions | components/contribution-graph.tsx:33-47 | the entries are exactly the window days and the solve days, and each count is that day's number of solves, so days without solves stay at 0 |
| ContributionGraph.CountsSumToSolves | components/contribution-graph.tsx:43-47 | the counts add up to the number of solves fetched |
| ContributionGraph.FetchContributions | components/contribution-graph.tsx:17-57 | a failed query leaves the graph unchanged; otherwise every window day is present |
| ContributionGraph.ColorBands | components/contribution-graph.tsx:62-68 | 0 is gray-100, 1 green-100, 2–3 green-300, 4–5 green-500, 6 and more green-700: total and disjoint over non-negative counts |
| ContributionGraph.ColorMonotone | components/contribution-graph.tsx:62-68 | more solves never give a lighter cell |
| ContributionGraph.NegativeCountColor | components/contribution-graph.tsx:62-68 | a negative count would be coloured green-100 |
| Middleware.Decide | middleware.ts:16-33 | a signed-in user on an /auth path goes to /dashboard, an anonymous user on a members-only prefix goes to /auth/login, and every other request passes |
| Middleware.NoRedirectLoop | middleware.ts:17-31 | a redirect's target passes the guard for the same user, so no request is redirected twice |
| Middleware.RedirectTargetByUser | middleware.ts:17-31 | signed-in users are only sent to /dashboard and anonymous users only to /auth/login |
| Middleware.PrefixGuardsExtendedPaths | middleware.ts:24-31 | matching is by prefix: any path starting with /profile is guarded for an anonymous user |
| Middleware.Route | middleware.ts:36-44 | requests the matcher does not select pass; selected requests get the guard's decision |
| Middleware.MatchedPathsAreGuardedKinds | middleware.ts:36-44 | every path the matcher selects is a sign-in path or a members-only path |
| Middleware.ExtendedPathNotMatched | middleware.ts:24-44 | /profile-x passes the guard's prefix test but is not selected by the matcher, so it is never redirected |
| Sorting.SortBy | app/leaderboard/page.tsx:77-79 | the sort returns a permutation of its input, ordered by any consistent comparator, in which elements the comparator calls equal keep their input order |
| Sorting.InsertKeepsLevels | app/leaderboard/page.tsx:77-79 | inserting an element places it before every element the comparator calls equal to it and leaves every other group of equal elements in order |
| Seqs.Filter | app/all-problems/page.tsx:52 | filtering keeps, in order, exactly the elements satisfying the predicate, each with its multiplicity |
| Text.ContainsIffOccurs | app/all-problems/page.tsx:72 | `includes` holds exactly when the query occurs at some position of the string |
| Text.ParseNatToString | app/all-problems/page.tsx:72 | the decimal rendering of a number parses back to the number |
| Text.LexLessTransitive | app/all-problems/page.tsx:61-62 | JavaScript's string `<` is transitive |
| Text.LexLessConnected | app/all-problems/page.tsx:61-62 | any two different strings are ordered one way or the other by `<` |

## Findings

| source | as written | input that shows it | evidently intended | confidence | as-written member | corrected member |
|---|---|---|---|---|---|---|
| app/leaderboard/page.tsx:260-266 | Next is disabled only when `currentPage === totalPages`, and it moves to `Math.min(totalPages, p + 1)` | no users: `totalPages` is 0 on page 1, so Next is enabled and moves to page 0. The caption then reads "Showing -19 to 0 of 0 users" and the streak range is (-20, -1) | the page never drops below 1: with no users Next leaves page 1 in place. Every other case, including a page beyond the last one moving back to the last page, behaves as written | medium, not executed | Leaderboard.NextWithNoUsersReachesPageZero | Leaderboard.GoNext |

The page state transitions (`Leaderboard.TransitionsKeepValid`) use the corrected `GoNext`.

## Left out

- Supabase queries, authentication, session refresh, storage uploads and profile creation are remote I/O. Their results are arguments of the model, and their failures are `Failure` values or a `FetchFailed` outcome.
- The `Promise.all` fan-out over profiles is concurrency. The model takes the list of profiles with their row counts that it produces. Any failing count query becomes `FetchFailed`.
- The `useEffect` re-fetch, loading flags and skeleton rows are UI timing. Overlapping fetches that finish out of order are not modelled.
- Dates are abstract integers. `setDate(getDate() - 7)` is modelled as exactly seven 24-hour days, so daylight-saving shifts are not modelled. Time zones, `toLocaleDateString` and the `yyyy-MM-dd` formatting are left out. A contribution-graph row whose date does not parse (which makes `format` throw) is left out.
- The streak is never recomputed from solve dates, because the code only reads the stored `current_streak`.
- JavaScript numbers are modelled as integers. A fractional or NaN streak or count is not modelled.
- Text.ToLower: lower-cases ASCII letters only, not the full Unicode case mapping of `toLowerCase`.
- Text.LexLess: compares Unicode scalar values, not UTF-16 code units. The two orders differ only when a character outside the Basic Multilingual Plane is compared with one in U+E000–U+FFFF.
- The order of the contribution-graph entries (window days, then any day outside the window in first-seen order) is not modelled. The model keeps the counts as a map.
- Middleware.Route: the matcher's path patterns are modelled as "the base, or the base followed by `/`". Other path-to-regexp features (trailing slashes, locales, encoded characters) are left out.
- Avatars, usernames' initials, labels, icons and CSS classes other than the heat-map colours are display only.
- The module-level `handleUserClick` at the end of the leaderboard page is dead code.
- The dashboard, home, login and profile pages, the navbar, the cards, the add-problem form, the recent-problems list and its real-time channel, the LeetCode GraphQL client and sync loop, and the users API route are not part of this model. They are either presentation or remote I/O.
