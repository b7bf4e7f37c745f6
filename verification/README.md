# Timetable priority calculator — Dafny model

The system reads a set of modules. Each module has sessions, and every
session has a weekday, a start time, a duration and a user preference
(`userPriority`). The system then assigns each module a ranked list of
preferred sessions: priority 1, 2, … up to the configured number of
priorities. It works in three stages:

1. **Session-selection combinations.** Every way to pick one session per
   module is enumerated as the Cartesian product of the modules' session ids.
   Each one is rated by building the day schedule. The rating is the sum of
   the user-priority bonuses (`int(userPriority / 10)`) minus an overlap
   penalty for every ordered pair of distinct sessions on the same weekday.
2. **Priority combinations.** Each module gets every ordered selection of
   `min(priorities, sessions)` of its sessions. A priority combination picks
   one ranked list per module. Its score is the likeliness-weighted sum of
   the ratings of its sub-combinations, walked in product order. The i-th
   sub-combination weighs `1 / ((i - 1) / 2 + 1)`.
3. **Retained set.** Priority combinations are offered one at a time to a
   table. A combination is inserted unless a stored one scores strictly
   higher, and each insertion drops everything scoring strictly lower. The
   survivors are copied, rank by rank, into the sessions' priority column.

The model also covers the configuration handler's pure time helpers:
- the end-time computation, with its minute-carry loop and the abort past
  23 o'clock;
- the weekday names;
- the start-time check made when a session is entered.

## Layout

| file | module | contents |
|---|---|---|
| `wrappers.dfy` | `Wrappers` | `Option` and `Result` with `:-` support |
| `config.dfy` | `Config` | `Clock`, `Slot`, `Carry`, `EndTime` and its loop, `WeekdayName`, `AddSession` |
| `timetable.dfy` | `Timetable` | `Session`, `Module`, `Settings`, `Error`, id lists, `SessionById` |
| `overlap.dfy` | `Overlap` | the pairwise penalty: widening, the four-branch cascade, the doubling rule |
| `schedule.dfy` | `Schedule` | schedule building, the rating (function and nested-loop method), the rating table |
| `combinatorics.dfy` | `Combinatorics` | the Cartesian product and r-permutations in the enumeration order of Python's `itertools`, with counting and membership theorems |
| `ranking.dfy` | `Ranking` | likeliness, priority-combination score (function and loop), the retained-set state machine, priority copy-back |
| `engine.dfy` | `Engine` | the whole run (`Evaluate`), its failure characterisation, and a two-module scenario |

Errors that end the program are modelled as values:
- `sys.exit` becomes `None` or `Failure(..)`;
- a lookup that returns nothing, which the program then dereferences,
  becomes `Failure(UnknownSession(..))`;
- `itertools.permutations` with a negative length becomes
  `Failure(NegativeDepth)`;
- a rating lookup that finds no row becomes `Failure(MissingRating)`.
  `Engine.EvaluateFailsIff` proves this last failure never happens.

Where the program's own comments and its code differ, the model follows the
code:
- The likeliness level is computed as `(i - 1) / (2^2 - 2) + 1` using true
  division, with no flooring (priorityHandler.py:331). The weights are
  therefore 1, 2/3, 1/2, 2/5, and so on. The comment at
  priorityHandler.py:333-335 reads as if the weight stepped down one
  priority level at a time: 1, then 1/2, and so on (`Ranking.Likeliness`).
- The fourth branch of the overlap cascade is introduced as the
  left-side overlap (priorityHandler.py:211-214). It repeats the third
  branch's guard, though. It is modelled as written, and `Overlap.Classify`
  proves it is never taken.
- The comment at priorityHandler.py:190-191 says the gap is added to the
  first session only, so it should not count several times. But the penalty
  is charged for every ordered pair of same-weekday sessions. So a mutual
  overlap is charged twice, once from each side, and the two charges can
  differ (`Overlap.OverhangIsAsymmetric`, `Engine.TuesdayAvoidsTheOverlap`).

The preference bonus is `int(p / 10)`, the quotient truncated toward zero,
so a negative preference of -15 gives -1 (`Schedule.Bonus`). The program
divides in floating point. `Schedule.Bonus` agrees with it only while
|p| < 10·2^50, where the double nearest the quotient keeps its integer part
(see "## Left out").

## Model

| member | source | states |
|---|---|---|
| Config.Carry | configHandler.py:83-89 | the carry loop keeps the total number of minutes and never lowers the hour. It leaves the minute at most 59, and at least 0 when the sum is non-negative. A sum of at most 59 is left untouched |
| Config.EndTime | configHandler.py:82-94 | the end time denotes start + duration in minutes. The hour lies between the start hour and 23, and a minute+duration of at most 59 keeps the start hour. For a non-negative minute+duration, the computation aborts exactly when start + duration exceeds 23:59 |
| Config.EndTimeLoop | configHandler.py:82-94 | the while loop returns exactly what the end-time function returns; the loop invariant is that carrying from the current state gives the same clock |
| Config.WeekdayName | configHandler.py:96-110 | a name is returned exactly for the indices 0 to 6 |
| Config.WeekdayNamesInOrder | configHandler.py:96-110 | the indices 0 to 6 map to Monday to Sunday, and the seven names are pairwise distinct |
| Config.AddSession | configHandler.py:54-67 | entering a session aborts exactly when the start hour is past 23 or the start minute past 59. Otherwise the session is appended at the end and the earlier sessions are unchanged |
| Config.AcceptedStartMayEndPastMidnight | configHandler.py:65-67 | the start check does not bound the end: 23:30 for 60 minutes passes the check, but the end-time computation aborts on it |
| Config.AcceptedStartEndsOnItself | configHandler.py:82-94 | an accepted start with a non-negative minute and zero duration ends at its own start |
| Timetable.SessionIds | priorityHandler.py:101-107 | a module's id list has one entry per session, in insertion order |
| Timetable.AllSessionIds | priorityHandler.py:99-107 | there is one id list per module, in module order |
| Timetable.FindSlot | priorityHandler.py:229-232 | nothing is found exactly when no session has the id; otherwise the result is the slot of the first session with that id |
| Timetable.ListIndex | priorityHandler.py:227 | a list index selects a position exactly when it lies in -n .. n - 1; a negative index counts from the end and a non-negative one is the position itself |
| Timetable.SessionById | priorityHandler.py:226-232 | nothing is found exactly when the module index is outside -n .. n - 1 or no session of the selected module has the id; a found slot belongs to a session of that module with that id |
| Timetable.NegativeModuleIndexCountsFromEnd | priorityHandler.py:227 | a negative module index looks the session up in the module that many places from the end |
| Timetable.SessionByIdFindsEach | priorityHandler.py:226-232 | when ids are unique, every session of a module is found by its own id |
| Overlap.Widen | priorityHandler.py:189-193 | widening adds the minimum gap on both sides; for a non-negative gap the widened interval contains the original |
| Overlap.Classify | priorityHandler.py:198-216 | the fourth branch is never taken. The first branch is taken exactly when the widened first interval strictly contains the second; the second branch exactly when the reverse holds; no branch exactly when the intervals neither meet nor contain each other |
| Overlap.RawPenalty | priorityHandler.py:195-216 | the raw penalty is non-negative. Under containment it is the sum of both overhangs; under partial overlap it is the distance from the widened start to the other end. For well-formed intervals it is positive exactly when they meet |
| Overlap.Penalty | priorityHandler.py:188-224 | a pair penalty is never negative |
| Overlap.DoublingRule | priorityHandler.py:218-224 | a raw penalty above the gap is doubled and one at or below it is kept, so doubling never crosses the gap threshold |
| Overlap.PenaltyPositiveIffOverlap | priorityHandler.py:188-224 | for well-formed intervals and a non-negative gap, a pair costs something exactly when the second interval meets the widened first one |
| Overlap.GapCostsNothing | priorityHandler.py:188-224 | two sessions at least the minimum gap apart cost nothing, in either order |
| Overlap.WorkedExample | priorityHandler.py:188-224 | with no gap, 09:00-10:00 against 09:30-10:30 costs 180, and 60 the other way round |
| Overlap.OverhangIsAsymmetric | priorityHandler.py:209-213 | the pair penalty is not symmetric in its arguments |
| Schedule.BuildEntry | priorityHandler.py:136-153 | a schedule row fails exactly when its session is unknown or its end time aborts. On success the row has the session's weekday and preference and spans start to start + duration |
| Schedule.BuildPrefix | priorityHandler.py:134-155 | a schedule prefix succeeds exactly when each of its entries resolves; it then has one row per entry, each equal to that entry's resolved row |
| Schedule.BuildSchedule | priorityHandler.py:134-155 | building the schedule fails only with a lookup or end-time error. It succeeds exactly when every entry resolves, and row k is entry k resolved in module k |
| Schedule.Bonus | priorityHandler.py:169-170 | the bonus is the preference divided by ten, truncated toward zero, for either sign; this is the program's value for preferences below 10·2^50 in magnitude |
| Schedule.PairPenalty | priorityHandler.py:174-184 | an entry is charged nothing against itself or against an entry on another weekday, and never a negative amount |
| Schedule.ScheduleRating | priorityHandler.py:157-186 | a schedule's rating never exceeds its bonus sum |
| Schedule.RateSchedule | priorityHandler.py:157-186 | the nested rating loop computes the schedule rating |
| Schedule.ChargeRow | priorityHandler.py:174-184 | the inner loop subtracts exactly the entry's penalties against all entries |
| Schedule.RowPenaltyZeroIff | priorityHandler.py:174-184 | an entry's total charge is zero exactly when each of its pair charges is zero |
| Schedule.TotalPenaltyZeroIff | priorityHandler.py:164-184 | the total charge of the first n entries is zero exactly when every pair charge among them is zero |
| Schedule.BonusOnlyIffNoConflicts | priorityHandler.py:157-186 | a schedule scores exactly its bonus sum when, and only when, no ordered pair is charged |
| Schedule.DistinctWeekdaysScoreBonusOnly | priorityHandler.py:174-177 | entries on pairwise different weekdays never interact |
| Schedule.SpacedScheduleScoresBonusOnly | priorityHandler.py:157-224 | entries on the same weekday that keep the minimum gap cost nothing |
| Schedule.CombinationRating | priorityHandler.py:122-127 | rating a combination fails only with a schedule error and exactly when its schedule cannot be built; its rating never exceeds the bonus sum |
| Schedule.RatePrefix | priorityHandler.py:119-132 | the table of the first n combinations exists exactly when each of them rates. A failure is the failure of one of them. Every key is one of them and maps to its own rating |
| Schedule.RateCombinations | priorityHandler.py:119-132 | the rating table exists exactly when every combination rates. Its keys are exactly the combinations, each key maps to that combination's rating, and a failure is a schedule error |
| Combinatorics.Product | priorityHandler.py:108 | the Cartesian product has as many elements as the product of the list lengths |
| Combinatorics.ProductMembership | priorityHandler.py:108 | a sequence is in the product exactly when it has one element per list and its i-th element is drawn from list i |
| Combinatorics.ProductDegenerateCases | priorityHandler.py:108 | the product of no lists is the single empty sequence, and an empty list empties the product |
| Combinatorics.ProductHead | priorityHandler.py:300 | when no list is empty, the product is non-empty and its first element takes the first element of every list |
| Combinatorics.Perms | priorityHandler.py:364 | there are n·(n-1)·…·(n-r+1) r-permutations of n elements |
| Combinatorics.PermsMembership | priorityHandler.py:364 | a sequence is an r-permutation of xs exactly when it has length r and its multiset is contained in that of xs |
| Combinatorics.PermutationsOfDistinct | priorityHandler.py:364 | for distinct elements, p is an r-permutation exactly when it has length r, is duplicate-free and draws from xs; there are n!/(n-r)! of them |
| Combinatorics.FallingIsFactorialQuotient | priorityHandler.py:364 | the permutation count is n!/(n-r)! |
| Ranking.Likeliness | priorityHandler.py:318-336 | the weight of the i-th sub-combination lies in (0, 1], equals 1 exactly for i = 1, and equals 2/(i+1) |
| Ranking.LikelinessDecreasing | priorityHandler.py:331-336 | later sub-combinations weigh strictly less |
| Ranking.PriorityScore | priorityHandler.py:304-316 | a priority combination can be scored exactly when all its sub-combinations have a rating |
| Ranking.RatePriorityCombination | priorityHandler.py:304-316 | the scoring loop, with its counter starting at 1, computes the priority score |
| Ranking.FirstRankCountsFully | priorityHandler.py:307-336 | the first sub-combination of a priority combination is the one taking every module's first choice, and it counts with weight 1, that is with its full rating |
| Ranking.WeightedScoreMonotone | priorityHandler.py:310-314 | raising sub-combination ratings never lowers the score |
| Ranking.AtLeast | priorityHandler.py:348-350 | the delete step keeps exactly the stored entries scoring at least the new score |
| Ranking.Save | priorityHandler.py:338-350 | a candidate beaten by a stored entry leaves the table unchanged. Otherwise the table becomes the candidate plus the stored entries tying with it |
| Ranking.RankAllIsBest | priorityHandler.py:338-350 | offering all candidates in turn leaves exactly the maximum-score candidates, ties kept, in arrival order |
| Ranking.BestCharacterized | priorityHandler.py:338-350 | the best set is non-empty exactly when there are candidates; each member scores at least as well as every candidate, and every top-scoring candidate is a member |
| Ranking.KeepBest | priorityHandler.py:304-350 | the insertion loop leaves the best set, which is non-empty for a non-empty input and whose entries all tie |
| Ranking.RankSessions | priorityHandler.py:256-260 | copying one ranked list, row by row with the UPDATE of lines 237-239, creates no row and leaves every unlisted session untouched. For a duplicate-free list, the session at position k, if it has a row, gets priority first + k |
| Ranking.SavePriorities | priorityHandler.py:253-260 | copying a priority combination, each write an UPDATE (lines 237-239), creates no row and leaves every session it does not rank untouched |
| Ranking.SavedPriorityIsRank | priorityHandler.py:253-260 | with unique ids, the k-th session of each module's list has a row afterwards exactly when it had one before, and then ends with priority k + 1 |
| Engine.SessionCombinationsSpec | priorityHandler.py:98-111 | there are as many session-selection combinations as the product of the session counts; a sequence is one of them exactly when entry i is a session id of module i |
| Engine.SessionCombinationsDegenerate | priorityHandler.py:98-111 | with no modules there is one empty combination, and a module without sessions leaves none |
| Engine.Depth | priorityHandler.py:360-362 | the permutation length is the configured number of priorities, cut down to the module's session count |
| Engine.ModulePermutations | priorityHandler.py:358-364 | a module's ranked lists are refused exactly for a negative depth; otherwise there are n!/(n-d)! of them, at least one |
| Engine.ModulePermutationsSpec | priorityHandler.py:358-364 | with unique ids, the ranked lists are exactly the duplicate-free length-d selections of the module's sessions, and there are n!/(n-d)! of them |
| Engine.PriorityLists | priorityHandler.py:294-300 | the per-module option lists exist unless some module exists and the depth is negative; list i is module i's permutations |
| Engine.SubCombinationIsSessionCombination | priorityHandler.py:300-313 | every sub-combination of every priority combination is a session-selection combination |
| Engine.ScoreChoices | priorityHandler.py:304-316 | priority combinations are scored in order, and scoring succeeds exactly when every one has all its ratings |
| Engine.AllChoicesScored | priorityHandler.py:352-356 | given the full rating table, the rating lookup never misses, and there is at least one priority combination |
| Engine.EvaluateFailsIff | priorityHandler.py:19-33 | a run never fails on a missing rating. It fails exactly when some combination cannot be scheduled, or when a module exists and the depth is negative, for inputs within 64 bits and an end-time prompt that is never answered `c` |
| Engine.EvaluateKeepsTies | priorityHandler.py:19-33 | a successful run retains at least one priority combination, and all retained ones tie |
| Engine.RetainedTie | priorityHandler.py:338-350 | the retained set of a non-empty candidate list is non-empty and tied |
| Engine.ChoicesExist | priorityHandler.py:300 | when every module offers a ranked list, there is at least one priority combination |
| Engine.TwoModulesSchedules | priorityHandler.py:134-155 | in the two-module scenario, both combinations resolve to the expected rows |
| Engine.TwoModulesRatings | priorityHandler.py:157-186 | in the two-module scenario, the Monday pair is rated -240 and the Tuesday choice 0 |
| Engine.TuesdayAvoidsTheOverlap | priorityHandler.py:119-132 | in the two-module scenario, the combination avoiding the overlap rates strictly higher |

## Left out

- Storage: the SQLite tables and the JSON encoding of combinations are not modelled.
  - The combination list, the rating table, the retained set and the priority column are plain values.
  - A combination's JSON text is taken to identify it. This matches the program, which encodes both stored and looked-up combinations the same way.
  - This covers `populateDb`, `savePossibleSessionCombinationsToDb`, `emptySchedule` and `savePriorityForSession`.
- Session id assignment: `populateTables` gives sessions their row ids, and this is not modelled. Ids are part of the input. Where a property needs ids to be unique, that is a `requires` (`DistinctIds`, `SeparateRanks`).
- Raw ids: `getSessionIdsOfModule` returns one-element row tuples, which the program unwraps with `[0]`. The model uses the bare ids.
- Console output and file input are not modelled. This covers `printAllPriotyCombinations`, `printPriorities`, `printSessions`, `printSingleSession`, the "multiple combinations" message, `input()` in `addSession`, `loadConfig` and `saveConfig`.
- The end-time prompt: `generateSchedule` builds a new `configHandler` for every schedule row (priorityHandler.py:141), and that constructor reads a line from the operator (configHandler.py:9-12). Answering `c` starts the whole configuration dialogue, which writes a file. The prompt can also end the run, on end of input or on a non-numeric answer inside that dialogue. The model treats the end-time computation as pure. `Engine.EvaluateFailsIff` therefore characterises the run's failures only when that prompt is never answered `c` and never fails, and only within the 64-bit range stated below.
- `getModuleById` and `getModuleNameById`: they are used only for printing.
- Preferences and ranked lists in the configuration: the configuration dialogue records only a session's weekday, hour, minute and duration (configHandler.py:56-61), and the new configuration has no `priorities` entry (configHandler.py:19-21). The engine reads both a session's `userPriority` (priorityHandler.py:88) and `settings['priorities']` (priorityHandler.py:360). The model takes them as given, as they come from a configuration file written outside the dialogue; a configuration made only by the dialogue would make the program fail on those reads.
- Shared state: the class-level module list and database connection are shared between instances. The model passes modules and settings as parameters and covers a single run.
- Floating point: the likeliness weights and scores are exact rationals (`real`), not IEEE doubles. Rounding could in principle break a tie the exact arithmetic keeps.
- Integer width: the model's integers are unbounded. The program stores every session field (priorityHandler.py:82-88, 149-153) and every combination rating (priorityHandler.py:131-132) in SQLite INTEGER columns. Python's sqlite3 raises `OverflowError` for a value outside 64 bits, which aborts the run. The model assumes all session fields and ratings fit in 64 bits; `Engine.EvaluateFailsIff` does not cover runs that overflow.
- Schedule.Bonus: it is exact integer truncation of p / 10. The program computes `int(p / 10)` through a double, which matches only for |userPriority| < 10·2^50. For example, p = 10·2^50 + 9 has the quotient 2^50 + 0.9. That rounds to the double 2^50 + 1, so the program gives 2^50 + 1 where `Bonus` gives 2^50. The model assumes preferences below that bound.
- `calculateLikeliness`: its module-count parameter is unused in the program and is left out.
- Row order: the order in which tied retained combinations are read back (`ORDER BY rating`, all ratings equal) is not specified by SQLite. The model keeps arrival order.
- Idempotence: re-running the computation on the same input is trivially deterministic for the pure functions here. No separate lemma is stated.
- Overlap.Penalty: its own contract states only that the penalty is non-negative. The exact values are stated by `Overlap.RawPenalty` and `Overlap.DoublingRule`.
- Ranking.RankSessions: it states the assigned priority only for duplicate-free lists. With a repeated id the later rank would win; that cannot happen with unique session ids. An id without a row is skipped, as the SQL `UPDATE` changes no row for it.
- Schedule.CombinationRating: it bounds the rating by the bonus sum. The exact value is `Schedule.ScheduleRating` of the built schedule, which `Schedule.RateSchedule` computes.
- Engine.Evaluate: the whole run has no contract of its own. Its properties are the lemmas `Engine.EvaluateFailsIff` and `Engine.EvaluateKeepsTies`.
