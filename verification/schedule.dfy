/** Rating of one session-selection combination: resolve every entry to its
    session, build the day schedule, add each session's preference bonus and
    subtract the overlap penalty of every ordered pair of distinct entries on
    the same weekday. */
module Schedule {
  import opened Wrappers
  import opened Config
  import opened Timetable
  import opened Overlap

  /** One row of the temporary schedule. */
  datatype Entry = Entry(weekday: int, start: Clock, end: Clock, userPriority: int)

  /** The entry's span in minutes since midnight. */
  function Span(e: Entry): Interval {
    Interval(Minutes(e.start), Minutes(e.end))
  }

  /** The errors building a schedule can raise. */
  predicate ScheduleError(e: Error) {
    e.UnknownSession? || e.EndsPastMidnight?
  }

  /** Resolve entry `moduleId` of a combination to a schedule row: look the
      session up in its module and compute its end time. */
  function BuildEntry(modules: seq<Module>, moduleId: int, sessionId: int): (r: Result<Entry, Error>)
    ensures r.Failure? ==> ScheduleError(r.error)
    ensures r.Failure? <==> SessionById(modules, moduleId, sessionId).None?
                            || (var s := SessionById(modules, moduleId, sessionId).value;
                                EndTime(s.hour, s.minute, s.duration).None?)
    ensures r.Success? ==>
              var s := SessionById(modules, moduleId, sessionId).value;
              && r.value.weekday == s.weekday
              && r.value.userPriority == s.userPriority
              && Span(r.value) == Interval(60 * s.hour + s.minute, 60 * s.hour + s.minute + s.duration)
  {
    match SessionById(modules, moduleId, sessionId)
    case None => Failure(UnknownSession(moduleId, sessionId))
    case Some(s) =>
      match EndTime(s.hour, s.minute, s.duration)
      case None => Failure(EndsPastMidnight(sessionId))
      case Some(end) => Success(Entry(s.weekday, Clock(s.hour, s.minute), end, s.userPriority))
  }

  /** The schedule of the first `n` entries of a combination, entry `k`
      resolved in module `k`; the first entry that cannot be resolved aborts. */
  function BuildPrefix(modules: seq<Module>, combination: seq<int>, n: nat): (r: Result<seq<Entry>, Error>)
    requires n <= |combination|
    ensures r.Failure? ==> ScheduleError(r.error)
    ensures r.Success? <==> forall k :: 0 <= k < n ==> BuildEntry(modules, k, combination[k]).Success?
    ensures r.Success? ==> |r.value| == n
    ensures r.Success? ==> forall k :: 0 <= k < n ==> BuildEntry(modules, k, combination[k]) == Success(r.value[k])
  {
    if n == 0 then Success([])
    else
      var prefix :- BuildPrefix(modules, combination, n - 1);
      var e :- BuildEntry(modules, n - 1, combination[n - 1]);
      Success(prefix + [e])
  }

  /** The schedule of a whole combination. */
  function BuildSchedule(modules: seq<Module>, combination: seq<int>): (r: Result<seq<Entry>, Error>)
    ensures r.Failure? ==> ScheduleError(r.error)
    ensures r.Success? <==> forall k :: 0 <= k < |combination| ==> BuildEntry(modules, k, combination[k]).Success?
    ensures r.Success? ==> |r.value| == |combination|
    ensures r.Success? ==> forall k :: 0 <= k < |combination| ==> BuildEntry(modules, k, combination[k]) == Success(r.value[k])
  {
    BuildPrefix(modules, combination, |combination|)
  }

  /** The preference bonus of a session: its user priority divided by ten,
      truncated toward zero as Python's `int` truncates a true quotient. */
  function Bonus(userPriority: int): (b: int)
    ensures 0 <= userPriority ==> 0 <= 10 * b <= userPriority < 10 * b + 10
    ensures userPriority < 0 ==> 10 * b - 10 < userPriority <= 10 * b <= 0
  {
    if userPriority >= 0 then userPriority / 10 else -((-userPriority) / 10)
  }

  /** Sum of the bonuses of the first `n` entries. */
  function BonusSum(s: seq<Entry>, n: nat): int
    requires n <= |s|
  {
    if n == 0 then 0 else BonusSum(s, n - 1) + Bonus(s[n - 1].userPriority)
  }

  /** What entry `i` is charged for entry `j`: nothing for itself or another
      weekday, the overlap penalty with `i` widened otherwise. */
  function PairPenalty(s: seq<Entry>, i: nat, j: nat, minDifference: int): (p: int)
    requires i < |s| && j < |s|
    ensures p >= 0
    ensures i == j || s[i].weekday != s[j].weekday ==> p == 0
  {
    if i == j || s[i].weekday != s[j].weekday then 0
    else Penalty(Span(s[i]), Span(s[j]), minDifference)
  }

  /** Penalties entry `i` is charged for the first `n` entries. */
  function RowPenalty(s: seq<Entry>, i: nat, n: nat, minDifference: int): (p: int)
    requires i < |s| && n <= |s|
    ensures p >= 0
  {
    if n == 0 then 0 else RowPenalty(s, i, n - 1, minDifference) + PairPenalty(s, i, n - 1, minDifference)
  }

  /** Penalties charged to the first `n` entries, each against every entry. */
  function TotalPenalty(s: seq<Entry>, n: nat, minDifference: int): (p: int)
    requires n <= |s|
    ensures p >= 0
  {
    if n == 0 then 0 else TotalPenalty(s, n - 1, minDifference) + RowPenalty(s, n - 1, |s|, minDifference)
  }

  /** The rating of a schedule: bonuses minus all ordered-pair penalties.
      Higher is better; it never exceeds the bonus sum. */
  function ScheduleRating(s: seq<Entry>, minDifference: int): (r: int)
    ensures r <= BonusSum(s, |s|)
  {
    BonusSum(s, |s|) - TotalPenalty(s, |s|, minDifference)
  }

  /** The rating loop as written: for every entry add its bonus, then
      subtract what `ChargeRow` charges it against the other entries. */
  method RateSchedule(s: seq<Entry>, minDifference: int) returns (rating: int)
    ensures rating == ScheduleRating(s, minDifference)
  {
    rating := 0;
    var i := 0;
    while i < |s|
      invariant 0 <= i <= |s|
      invariant rating == BonusSum(s, i) - TotalPenalty(s, i, minDifference)
    {
      var charged := ChargeRow(s, i, minDifference);
      rating := rating + Bonus(s[i].userPriority) - charged;
      i := i + 1;
    }
  }

  /** The inner loop of the rating: the penalty of entry `i` against every
      other entry on its weekday, the entry itself and other days skipped. */
  method ChargeRow(s: seq<Entry>, i: nat, minDifference: int) returns (charged: int)
    requires i < |s|
    ensures charged == RowPenalty(s, i, |s|, minDifference)
  {
    charged := 0;
    var j := 0;
    while j < |s|
      invariant 0 <= j <= |s|
      invariant charged == RowPenalty(s, i, j, minDifference)
    {
      if i != j && s[i].weekday == s[j].weekday {
        charged := charged + Penalty(Span(s[i]), Span(s[j]), minDifference);
      }
      j := j + 1;
    }
  }

  /** Every ordered pair of distinct same-weekday entries costs nothing. */
  predicate NoConflicts(s: seq<Entry>, minDifference: int) {
    forall i, j :: 0 <= i < |s| && 0 <= j < |s| ==> PairPenalty(s, i, j, minDifference) == 0
  }

  lemma {:induction false} RowPenaltyZeroIff(s: seq<Entry>, i: nat, n: nat, minDifference: int)
    requires i < |s| && n <= |s|
    ensures RowPenalty(s, i, n, minDifference) == 0 <==> forall j :: 0 <= j < n ==> PairPenalty(s, i, j, minDifference) == 0
  {
    if n > 0 {
      RowPenaltyZeroIff(s, i, n - 1, minDifference);
    }
  }

  lemma {:induction false} TotalPenaltyZeroIff(s: seq<Entry>, n: nat, minDifference: int)
    requires n <= |s|
    ensures TotalPenalty(s, n, minDifference) == 0 <==>
            forall i, j :: 0 <= i < n && 0 <= j < |s| ==> PairPenalty(s, i, j, minDifference) == 0
  {
    if n > 0 {
      TotalPenaltyZeroIff(s, n - 1, minDifference);
      RowPenaltyZeroIff(s, n - 1, |s|, minDifference);
    }
  }

  /** A schedule scores exactly its bonus sum if and only if no ordered pair
      of same-weekday entries is charged anything. */
  lemma BonusOnlyIffNoConflicts(s: seq<Entry>, minDifference: int)
    ensures ScheduleRating(s, minDifference) == BonusSum(s, |s|) <==> NoConflicts(s, minDifference)
  {
    TotalPenaltyZeroIff(s, |s|, minDifference);
  }

  /** Entries on pairwise different weekdays never interact: such a schedule
      scores its bonus sum. */
  lemma DistinctWeekdaysScoreBonusOnly(s: seq<Entry>, minDifference: int)
    requires forall a, b :: 0 <= a < b < |s| ==> s[a].weekday != s[b].weekday
    ensures ScheduleRating(s, minDifference) == BonusSum(s, |s|)
  {
    forall i, j | 0 <= i < |s| && 0 <= j < |s|
      ensures PairPenalty(s, i, j, minDifference) == 0
    {
      if i < j {
        assert s[i].weekday != s[j].weekday;
      } else if j < i {
        assert s[j].weekday != s[i].weekday;
      }
    }
    BonusOnlyIffNoConflicts(s, minDifference);
  }

  /** Well-formed same-weekday entries that keep the minimum gap between each
      other cost nothing, so the schedule scores its bonus sum. */
  lemma SpacedScheduleScoresBonusOnly(s: seq<Entry>, minDifference: int)
    requires minDifference >= 0
    requires forall k :: 0 <= k < |s| ==> WellFormed(Span(s[k]))
    requires forall a, b :: 0 <= a < b < |s| && s[a].weekday == s[b].weekday ==>
               Minutes(s[b].start) >= Minutes(s[a].end) + minDifference
               || Minutes(s[a].start) >= Minutes(s[b].end) + minDifference
    ensures ScheduleRating(s, minDifference) == BonusSum(s, |s|)
  {
    forall i, j | 0 <= i < |s| && 0 <= j < |s|
      ensures PairPenalty(s, i, j, minDifference) == 0
    {
      if i < j && s[i].weekday == s[j].weekday {
        GapCostsNothing(Span(s[i]), Span(s[j]), minDifference);
      } else if j < i && s[i].weekday == s[j].weekday {
        GapCostsNothing(Span(s[j]), Span(s[i]), minDifference);
      }
    }
    BonusOnlyIffNoConflicts(s, minDifference);
  }

  /** The rating of one combination, or why building its schedule aborts. */
  function CombinationRating(modules: seq<Module>, combination: seq<int>, minDifference: int): (r: Result<int, Error>)
    ensures r.Failure? ==> ScheduleError(r.error)
    ensures r.Success? <==> BuildSchedule(modules, combination).Success?
    ensures r.Success? ==> r.value <= BonusSum(BuildSchedule(modules, combination).value, |combination|)
  {
    var schedule :- BuildSchedule(modules, combination);
    Success(ScheduleRating(schedule, minDifference))
  }

  /** Ratings of the first `n` combinations under `rate`, keyed by
      combination; the first combination that cannot be rated aborts. */
  function RatePrefix(rate: seq<int> -> Result<int, Error>, combinations: seq<seq<int>>, n: nat)
    : (r: Result<map<seq<int>, int>, Error>)
    requires n <= |combinations|
    ensures r.Failure? ==> exists k :: 0 <= k < n && rate(combinations[k]) == Failure(r.error)
    ensures r.Success? <==> forall k :: 0 <= k < n ==> rate(combinations[k]).Success?
    ensures r.Success? ==> forall k :: 0 <= k < n ==> combinations[k] in r.value
    ensures r.Success? ==> forall c :: c in r.value ==>
              (exists k :: 0 <= k < n && combinations[k] == c) && rate(c) == Success(r.value[c])
  {
    if n == 0 then Success(map[])
    else
      var ratings :- RatePrefix(rate, combinations, n - 1);
      var rating :- rate(combinations[n - 1]);
      Success(ratings[combinations[n - 1] := rating])
  }

  /** The rating table of all session-selection combinations: every
      combination is rated, and the table holds exactly those combinations. */
  function RateCombinations(modules: seq<Module>, combinations: seq<seq<int>>, minDifference: int)
    : (r: Result<map<seq<int>, int>, Error>)
    ensures r.Failure? ==> ScheduleError(r.error)
    ensures r.Success? <==> forall c :: c in combinations ==> CombinationRating(modules, c, minDifference).Success?
    ensures r.Success? ==> forall c :: c in combinations <==> c in r.value
    ensures r.Success? ==> forall c :: c in r.value ==> CombinationRating(modules, c, minDifference) == Success(r.value[c])
  {
    RatePrefix(c => CombinationRating(modules, c, minDifference), combinations, |combinations|)
  }
}
