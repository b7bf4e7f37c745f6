/** The priority handler's run: rate every session-selection combination,
    build every priority combination from the per-module permutations, score
    each one against the rating table and keep the best. */
module Engine {
  import opened Wrappers
  import opened Config
  import opened Timetable
  import opened Schedule
  import opened Combinatorics
  import opened Ranking
  import opened Overlap

  /** Every way to pick one session id per module, modules in order. */
  function SessionCombinations(modules: seq<Module>): seq<seq<int>> {
    Product(AllSessionIds(modules))
  }

  /** Product of the modules' session counts. */
  function SessionCountProduct(modules: seq<Module>): nat {
    if |modules| == 0 then 1 else |modules[0].sessions| * SessionCountProduct(modules[1..])
  }

  /** There are as many combinations as the product of the session counts;
      each has one entry per module, entry i a session of module i, and every
      such sequence is one of them. */
  lemma {:induction false} SessionCombinationsSpec(modules: seq<Module>, c: seq<int>)
    ensures |SessionCombinations(modules)| == SessionCountProduct(modules)
    ensures c in SessionCombinations(modules) <==>
            |c| == |modules| && forall i :: 0 <= i < |modules| ==> c[i] in SessionIds(modules[i])
  {
    ProductMembership(AllSessionIds(modules), c);
    CountMatches(modules);
  }

  lemma {:induction false} CountMatches(modules: seq<Module>)
    ensures LengthProduct(AllSessionIds(modules)) == SessionCountProduct(modules)
  {
    if |modules| > 0 {
      assert AllSessionIds(modules)[1..] == AllSessionIds(modules[1..]);
      CountMatches(modules[1..]);
    }
  }

  /** With no modules there is exactly one, empty, combination; a module
      without sessions leaves none. */
  lemma SessionCombinationsDegenerate(modules: seq<Module>)
    ensures |modules| == 0 ==> SessionCombinations(modules) == [[]]
    ensures (exists i :: 0 <= i < |modules| && |modules[i].sessions| == 0) ==> SessionCombinations(modules) == []
  {
    ProductDegenerateCases(AllSessionIds(modules));
    if exists i :: 0 <= i < |modules| && |modules[i].sessions| == 0 {
      var i :| 0 <= i < |modules| && |modules[i].sessions| == 0;
      assert |AllSessionIds(modules)[i]| == 0;
    }
  }

  /** The permutation length for a module of `n` sessions: the configured
      number of priorities, cut down to `n`. */
  function Depth(priorities: int, n: nat): (d: int)
    ensures d <= n && d <= priorities
    ensures d == n || d == priorities
  {
    if priorities > n then n else priorities
  }

  /** The ranked lists a module can get: every ordered selection of `Depth`
      of its sessions; a negative depth is refused. */
  function ModulePermutations(m: Module, priorities: int): (r: Option<seq<seq<int>>>)
    ensures r.None? <==> priorities < 0
    ensures r.Some? ==> |r.value| == Falling(|m.sessions|, Depth(priorities, |m.sessions|))
    ensures r.Some? ==> |r.value| > 0
  {
    var d := Depth(priorities, |m.sessions|);
    if d < 0 then None
    else
      FallingPositive(|m.sessions|, d);
      Some(Perms(SessionIds(m), d))
  }

  /** With distinct session ids, each ranked list has `Depth` distinct
      sessions of the module, every such list is offered, and there are
      n!/(n-d)! of them. */
  lemma ModulePermutationsSpec(m: Module, priorities: int, p: seq<int>)
    requires DistinctIds(m) && priorities >= 0
    ensures var d := Depth(priorities, |m.sessions|);
            var ps := ModulePermutations(m, priorities).value;
            && |ps| * Factorial(|m.sessions| - d) == Factorial(|m.sessions|)
            && (p in ps <==> |p| == d && Distinct(p) && forall j :: 0 <= j < |p| ==> p[j] in SessionIds(m))
  {
    PermutationsOfDistinct(SessionIds(m), Depth(priorities, |m.sessions|), p);
  }

  /** The ranked-list options of every module, in module order; the first
      module refuses a negative depth. */
  function PriorityLists(modules: seq<Module>, priorities: int): (r: Option<seq<seq<seq<int>>>>)
    ensures r.None? <==> |modules| > 0 && priorities < 0
    ensures r.Some? ==> |r.value| == |modules|
    ensures r.Some? ==> forall i :: 0 <= i < |modules| ==> Some(r.value[i]) == ModulePermutations(modules[i], priorities)
  {
    if |modules| > 0 && priorities < 0 then None
    else Some(seq(|modules|, i requires 0 <= i < |modules| => ModulePermutations(modules[i], priorities).value))
  }

  /** Every sub-combination of every priority combination picks, for each
      module, one of its sessions, so it is one of the session-selection
      combinations and its rating is in the table. */
  lemma SubCombinationIsSessionCombination(modules: seq<Module>, priorities: int, choice: seq<seq<int>>, c: seq<int>)
    requires PriorityLists(modules, priorities).Some?
    requires choice in Product(PriorityLists(modules, priorities).value)
    requires c in Product(choice)
    ensures c in SessionCombinations(modules)
  {
    var lists := PriorityLists(modules, priorities).value;
    ProductMembership(lists, choice);
    ProductMembership(choice, c);
    forall i | 0 <= i < |modules| ensures c[i] in SessionIds(modules[i]) {
      var d := Depth(priorities, |modules[i].sessions|);
      assert choice[i] in Perms(SessionIds(modules[i]), d);
      PermsMembership(SessionIds(modules[i]), d, choice[i]);
      SelectionDrawsFrom(SessionIds(modules[i]), choice[i]);
      var j :| 0 <= j < |choice[i]| && choice[i][j] == c[i];
    }
    SessionCombinationsSpec(modules, c);
  }

  /** Score the priority combinations in order; nothing if a rating is
      missing. */
  function ScoreChoices(choices: seq<seq<seq<int>>>, ratings: map<seq<int>, int>): (r: Option<seq<Candidate>>)
    ensures r.Some? <==> forall k :: 0 <= k < |choices| ==> PriorityScore(Product(choices[k]), ratings).Some?
    ensures r.Some? ==> |r.value| == |choices|
    ensures r.Some? ==> forall k :: 0 <= k < |choices| ==>
              r.value[k] == Candidate(choices[k], PriorityScore(Product(choices[k]), ratings).value)
  {
    if |choices| == 0 then Some([])
    else
      var init := choices[..|choices| - 1];
      var last := choices[|choices| - 1];
      match ScoreChoices(init, ratings)
      case None => None
      case Some(scored) =>
        match PriorityScore(Product(last), ratings)
        case None => None
        case Some(score) => Some(scored + [Candidate(last, score)])
  }

  /** The whole run: the retained best priority combinations, or why it
      aborts. */
  function Evaluate(settings: Settings, modules: seq<Module>): Result<seq<Candidate>, Error> {
    var ratings :- RateCombinations(modules, SessionCombinations(modules), settings.minDifference);
    match PriorityLists(modules, settings.priorities)
    case None => Failure(NegativeDepth)
    case Some(lists) =>
      match ScoreChoices(Product(lists), ratings)
      case None => Failure(MissingRating)
      case Some(cands) => Success(RankAll(cands))
  }

  /** When the table rates every session-selection combination, every
      priority combination can be scored: the lookup never misses. */
  lemma AllChoicesScored(modules: seq<Module>, priorities: int, ratings: map<seq<int>, int>)
    requires PriorityLists(modules, priorities).Some?
    requires forall c :: c in SessionCombinations(modules) ==> c in ratings
    ensures ScoreChoices(Product(PriorityLists(modules, priorities).value), ratings).Some?
    ensures |Product(PriorityLists(modules, priorities).value)| > 0
  {
    var choices := Product(PriorityLists(modules, priorities).value);
    forall k | 0 <= k < |choices| ensures PriorityScore(Product(choices[k]), ratings).Some? {
      forall j | 0 <= j < |Product(choices[k])| ensures Product(choices[k])[j] in ratings {
        SubCombinationIsSessionCombination(modules, priorities, choices[k], Product(choices[k])[j]);
      }
    }
    ChoicesExist(PriorityLists(modules, priorities).value);
  }

  /** A run aborts exactly when some combination cannot be scheduled or a
      negative depth is asked of some module; a rating lookup never fails. */
  lemma EvaluateFailsIff(settings: Settings, modules: seq<Module>)
    ensures Evaluate(settings, modules) != Failure(MissingRating)
    ensures Evaluate(settings, modules).Failure? <==>
            (exists c :: c in SessionCombinations(modules)
                         && CombinationRating(modules, c, settings.minDifference).Failure?)
            || (|modules| > 0 && settings.priorities < 0)
  {
    var rated := RateCombinations(modules, SessionCombinations(modules), settings.minDifference);
    if rated.Failure? {
      var c :| c in SessionCombinations(modules) && !CombinationRating(modules, c, settings.minDifference).Success?;
      assert Evaluate(settings, modules) == Failure(rated.error);
    } else if PriorityLists(modules, settings.priorities).Some? {
      AllChoicesScored(modules, settings.priorities, rated.value);
    }
  }

  /** On success the retained set is the best of all scored priority
      combinations: non-empty, and its entries tie. */
  lemma EvaluateKeepsTies(settings: Settings, modules: seq<Module>)
    requires Evaluate(settings, modules).Success?
    ensures |Evaluate(settings, modules).value| > 0
    ensures var kept := Evaluate(settings, modules).value;
            forall a, b :: 0 <= a < |kept| && 0 <= b < |kept| ==> kept[a].score == kept[b].score
  {
    var rated := RateCombinations(modules, SessionCombinations(modules), settings.minDifference);
    var lists := PriorityLists(modules, settings.priorities).value;
    AllChoicesScored(modules, settings.priorities, rated.value);
    var cands := ScoreChoices(Product(lists), rated.value).value;
    RetainedTie(cands);
  }

  /** The retained set of a non-empty candidate list is non-empty and its
      entries tie. */
  lemma RetainedTie(cands: seq<Candidate>)
    requires |cands| > 0
    ensures |RankAll(cands)| > 0
    ensures forall a, b :: 0 <= a < |RankAll(cands)| && 0 <= b < |RankAll(cands)| ==>
              RankAll(cands)[a].score == RankAll(cands)[b].score
  {
    RankAllIsBest(cands);
    BestCharacterized(cands);
    var kept := RankAll(cands);
    forall a, b | 0 <= a < |kept| && 0 <= b < |kept| ensures kept[a].score == kept[b].score {
      assert kept[a] in kept && kept[b] in kept;
      var ia :| 0 <= ia < |cands| && cands[ia] == kept[a];
      var ib :| 0 <= ib < |cands| && cands[ib] == kept[b];
    }
  }

  /** Every module offers at least one ranked list, so there is at least one
      priority combination. */
  lemma {:induction false} ChoicesExist(lists: seq<seq<seq<int>>>)
    requires forall i :: 0 <= i < |lists| ==> |lists[i]| > 0
    ensures |Product(lists)| > 0
  {
    if |lists| > 0 {
      ChoicesExist(lists[1..]);
    }
  }

  /** Two modules: A meets Monday 09:00-10:00 (preference 5) or Tuesday
      09:00-10:00 (preference 1); B meets Monday 09:30-10:30 (preference 5). */
  function TwoModules(): seq<Module> {
    [ Module("A", [Session(1, Slot(0, 9, 0, 60, 5)), Session(2, Slot(1, 9, 0, 60, 1))]),
      Module("B", [Session(3, Slot(0, 9, 30, 60, 5))]) ]
  }

  lemma TwoModulesSchedules()
    ensures BuildSchedule(TwoModules(), [1, 3]) ==
            Success([Entry(0, Clock(9, 0), Clock(10, 0), 5), Entry(0, Clock(9, 30), Clock(10, 30), 5)])
    ensures BuildSchedule(TwoModules(), [2, 3]) ==
            Success([Entry(1, Clock(9, 0), Clock(10, 0), 1), Entry(0, Clock(9, 30), Clock(10, 30), 5)])
  {
    var modules := TwoModules();
    var monA := Entry(0, Clock(9, 0), Clock(10, 0), 5);
    var tueA := Entry(1, Clock(9, 0), Clock(10, 0), 1);
    var monB := Entry(0, Clock(9, 30), Clock(10, 30), 5);
    assert modules[0].sessions[1..] == [Session(2, Slot(1, 9, 0, 60, 1))];
    assert BuildEntry(modules, 0, 1) == Success(monA);
    assert BuildEntry(modules, 0, 2) == Success(tueA);
    assert BuildEntry(modules, 1, 3) == Success(monB);
    var c1, c2 := [1, 3], [2, 3];
    assert c1[0] == 1 && c1[1] == 3 && c2[0] == 2 && c2[1] == 3;
    var b1, b2 := BuildSchedule(modules, c1), BuildSchedule(modules, c2);
    assert b1.Success? && b1.value[0] == monA && b1.value[1] == monB;
    assert b1.value == [monA, monB];
    assert b2.Success? && b2.value[0] == tueA && b2.value[1] == monB;
    assert b2.value == [tueA, monB];
  }

  /** The Monday pair is charged 180 when A comes first and 60 the other way
      round; the Tuesday choice meets nothing. */
  lemma TwoModulesRatings()
    ensures ScheduleRating([Entry(0, Clock(9, 0), Clock(10, 0), 5), Entry(0, Clock(9, 30), Clock(10, 30), 5)], 0) == -240
    ensures ScheduleRating([Entry(1, Clock(9, 0), Clock(10, 0), 1), Entry(0, Clock(9, 30), Clock(10, 30), 5)], 0) == 0
  {
    var monA := Entry(0, Clock(9, 0), Clock(10, 0), 5);
    var tueA := Entry(1, Clock(9, 0), Clock(10, 0), 1);
    var monB := Entry(0, Clock(9, 30), Clock(10, 30), 5);
    WorkedExample();
    var s := [monA, monB];
    assert Span(monA) == Interval(540, 600) && Span(monB) == Interval(570, 630);
    assert PairPenalty(s, 0, 0, 0) == 0 && PairPenalty(s, 1, 1, 0) == 0;
    assert PairPenalty(s, 0, 1, 0) == 180 && PairPenalty(s, 1, 0, 0) == 60;
    assert RowPenalty(s, 0, 0, 0) == 0 && RowPenalty(s, 1, 0, 0) == 0;
    assert RowPenalty(s, 0, 1, 0) == RowPenalty(s, 0, 0, 0) + PairPenalty(s, 0, 0, 0) == 0;
    assert RowPenalty(s, 1, 1, 0) == RowPenalty(s, 1, 0, 0) + PairPenalty(s, 1, 0, 0) == 60;
    assert RowPenalty(s, 0, 2, 0) == RowPenalty(s, 0, 1, 0) + PairPenalty(s, 0, 1, 0) == 180;
    assert RowPenalty(s, 1, 2, 0) == RowPenalty(s, 1, 1, 0) + PairPenalty(s, 1, 1, 0) == 60;
    assert TotalPenalty(s, 1, 0) == 180;
    assert TotalPenalty(s, 2, 0) == 240;
    assert s[0].userPriority == 5 && s[1].userPriority == 5;
    assert Bonus(5) == 0 && BonusSum(s, 1) == 0 && BonusSum(s, 2) == 0;
    var t := [tueA, monB];
    assert t[0].userPriority == 1 && t[1].userPriority == 5;
    assert Bonus(1) == 0 && BonusSum(t, 1) == 0 && BonusSum(t, 2) == 0;
    DistinctWeekdaysScoreBonusOnly(t, 0);
  }

  /** Taking A on Monday costs 180 + 60 for the overlap with B, so choosing
      A's Tuesday session rates strictly higher. */
  lemma TuesdayAvoidsTheOverlap()
    ensures CombinationRating(TwoModules(), [1, 3], 0) == Success(-240)
    ensures CombinationRating(TwoModules(), [2, 3], 0) == Success(0)
  {
    TwoModulesSchedules();
    TwoModulesRatings();
  }
}
