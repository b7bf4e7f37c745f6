/** Scoring of priority combinations and the retained set of the best ones.
    A priority combination gives every module a ranked list of sessions; its
    score is the likeliness-weighted sum of the ratings of the
    sub-combinations obtained by walking those lists rank by rank. */
module Ranking {
  import opened Wrappers
  import opened Timetable
  import opened Combinatorics

  /** The step between priority levels: 2^n - 2 for n = 2 considered
      priorities. */
  const LevelStep: real := 4.0 - 2.0

  /** The weight of the i-th sub-combination (counting from 1): one over the
      highest priority it is expected to use, (i - 1) / 2 + 1 by true
      division. */
  function Likeliness(i: int): (w: real)
    requires i >= 1
    ensures 0.0 < w <= 1.0
    ensures w == 1.0 <==> i == 1
    ensures w * ((i as real) + 1.0) == 2.0
  {
    var h := ((i - 1) as real) / LevelStep + 1.0;
    assert h * 2.0 == (i as real) + 1.0;
    1.0 / h
  }

  /** Later sub-combinations weigh strictly less. */
  lemma LikelinessDecreasing(i: int, j: int)
    requires 1 <= i < j
    ensures Likeliness(j) < Likeliness(i)
  {
    var wi, wj := Likeliness(i), Likeliness(j);
    assert wi * ((i as real) + 1.0) == wj * ((j as real) + 1.0);
    assert wj * ((i as real) + 1.0) < wj * ((j as real) + 1.0);
  }

  /** The likeliness-weighted sum of the ratings of the first `n`
      sub-combinations. */
  function WeightedScore(subs: seq<seq<int>>, ratings: map<seq<int>, int>, n: nat): real
    requires n <= |subs|
    requires forall k :: 0 <= k < n ==> subs[k] in ratings
  {
    if n == 0 then 0.0
    else WeightedScore(subs, ratings, n - 1) + Likeliness(n) * (ratings[subs[n - 1]] as real)
  }

  /** Every sub-combination has a stored rating. */
  predicate AllRated(subs: seq<seq<int>>, ratings: map<seq<int>, int>) {
    forall k :: 0 <= k < |subs| ==> subs[k] in ratings
  }

  /** The score of a priority combination whose sub-combinations are `subs`;
      nothing when a rating is missing. */
  function PriorityScore(subs: seq<seq<int>>, ratings: map<seq<int>, int>): (r: Option<real>)
    ensures r.Some? <==> AllRated(subs, ratings)
  {
    if AllRated(subs, ratings) then Some(WeightedScore(subs, ratings, |subs|)) else None
  }

  /** The scoring loop as written, with the rank counter starting at 1. */
  method RatePriorityCombination(subs: seq<seq<int>>, ratings: map<seq<int>, int>) returns (score: Option<real>)
    ensures score == PriorityScore(subs, ratings)
  {
    var rating := 0.0;
    var i := 1;
    while i <= |subs|
      invariant 1 <= i <= |subs| + 1
      invariant forall k :: 0 <= k < i - 1 ==> subs[k] in ratings
      invariant rating == WeightedScore(subs, ratings, i - 1)
    {
      if subs[i - 1] !in ratings {
        return None;
      }
      rating := rating + Likeliness(i) * (ratings[subs[i - 1]] as real);
      i := i + 1;
    }
    return Some(rating);
  }

  /** The first sub-combination of a priority combination is the one taking
      every module's first choice, and it counts with its full rating. */
  lemma FirstRankCountsFully(choice: seq<seq<int>>, ratings: map<seq<int>, int>)
    requires forall m :: 0 <= m < |choice| ==> |choice[m]| > 0
    requires Heads(choice) in ratings
    ensures |Product(choice)| > 0 && Product(choice)[0] == Heads(choice)
    ensures WeightedScore(Product(choice), ratings, 1) == ratings[Heads(choice)] as real
  {
    ProductHead(choice);
    assert Likeliness(1) == 1.0;
  }

  /** Raising any sub-combination's rating never lowers the score: the
      weights are positive. */
  lemma {:induction false} WeightedScoreMonotone(subs: seq<seq<int>>, lower: map<seq<int>, int>, upper: map<seq<int>, int>, n: nat)
    requires n <= |subs|
    requires forall k :: 0 <= k < n ==> subs[k] in lower && subs[k] in upper && lower[subs[k]] <= upper[subs[k]]
    ensures WeightedScore(subs, lower, n) <= WeightedScore(subs, upper, n)
  {
    if n > 0 {
      WeightedScoreMonotone(subs, lower, upper, n - 1);
      var w := Likeliness(n);
      assert w * (lower[subs[n - 1]] as real) <= w * (upper[subs[n - 1]] as real);
    }
  }

  /** A priority combination together with its score. */
  datatype Candidate = Candidate(choice: seq<seq<int>>, score: real)

  /** The candidates scoring at least `x`, in order. */
  function AtLeast(cands: seq<Candidate>, x: real): (r: seq<Candidate>)
    ensures forall e :: e in r <==> e in cands && e.score >= x
  {
    if |cands| == 0 then []
    else
      var init := cands[..|cands| - 1];
      var last := cands[|cands| - 1];
      assert cands == init + [last];
      AtLeast(init, x) + (if last.score >= x then [last] else [])
  }

  /** Nothing is filtered out when every candidate reaches `x`. */
  lemma {:induction false} AtLeastKeepsAll(cands: seq<Candidate>, x: real)
    requires forall k :: 0 <= k < |cands| ==> cands[k].score >= x
    ensures AtLeast(cands, x) == cands
  {
    if |cands| > 0 {
      var init, last := cands[..|cands| - 1], cands[|cands| - 1];
      forall k | 0 <= k < |init| ensures init[k].score >= x {
        assert init[k] == cands[k];
      }
      AtLeastKeepsAll(init, x);
      assert last.score >= x;
      assert AtLeast(cands, x) == AtLeast(init, x) + [last];
      assert cands == init + [last];
    }
  }

  /** Everything is filtered out when no candidate reaches `x`. */
  lemma {:induction false} AtLeastDropsAll(cands: seq<Candidate>, x: real)
    requires forall k :: 0 <= k < |cands| ==> cands[k].score < x
    ensures AtLeast(cands, x) == []
  {
    if |cands| > 0 {
      AtLeastDropsAll(cands[..|cands| - 1], x);
    }
  }

  /** The candidates scoring exactly `x`, in order. */
  function WithScore(cands: seq<Candidate>, x: real): (r: seq<Candidate>)
    ensures forall e :: e in r <==> e in cands && e.score == x
  {
    if |cands| == 0 then []
    else
      var init := cands[..|cands| - 1];
      var last := cands[|cands| - 1];
      assert cands == init + [last];
      WithScore(init, x) + (if last.score == x then [last] else [])
  }

  /** The highest score among the candidates. */
  function MaxScore(cands: seq<Candidate>): (m: real)
    requires |cands| > 0
    ensures forall k :: 0 <= k < |cands| ==> cands[k].score <= m
    ensures exists k :: 0 <= k < |cands| && cands[k].score == m
  {
    if |cands| == 1 then cands[0].score
    else
      var m := MaxScore(cands[..|cands| - 1]);
      var last := cands[|cands| - 1].score;
      if m >= last then m else last
  }

  /** The reference answer: every candidate with the highest score, in the
      order they were found. */
  function Best(cands: seq<Candidate>): seq<Candidate> {
    if |cands| == 0 then [] else WithScore(cands, MaxScore(cands))
  }

  /** One step of the retained-set state machine: a candidate is inserted
      unless some retained entry scores strictly higher, and after an
      insertion every entry scoring strictly lower is dropped. */
  function Save(kept: seq<Candidate>, c: Candidate): (r: seq<Candidate>)
    ensures (exists k :: 0 <= k < |kept| && kept[k].score > c.score) ==> r == kept
    ensures (forall k :: 0 <= k < |kept| ==> kept[k].score <= c.score) ==>
              forall e :: e in r <==> e == c || (e in kept && e.score == c.score)
  {
    if exists k :: 0 <= k < |kept| && kept[k].score > c.score then kept
    else AtLeast(kept + [c], c.score)
  }

  /** The retained set after processing `cands` in order from an empty set. */
  function RankAll(cands: seq<Candidate>): seq<Candidate> {
    if |cands| == 0 then []
    else Save(RankAll(cands[..|cands| - 1]), cands[|cands| - 1])
  }

  /** Processing candidates one by one through `Save` retains exactly the
      best ones: the retained set is the maximum-score candidates, ties kept,
      in the order they arrived. */
  lemma {:induction false} RankAllIsBest(cands: seq<Candidate>)
    ensures RankAll(cands) == Best(cands)
  {
    if |cands| > 0 {
      var n := |cands|;
      var init := cands[..n - 1];
      var last := cands[n - 1];
      assert cands == init + [last];
      assert RankAll(cands) == Save(RankAll(init), last);
      RankAllIsBest(init);
      if n == 1 {
        SingleIsBest(last);
      } else {
        SaveAfterBest(init, last);
      }
    }
  }

  /** A lone candidate is retained. */
  lemma SingleIsBest(c: Candidate)
    ensures Save([], c) == Best([c])
  {
    AtLeastKeepsAll([c], c.score);
    assert [] + [c] == [c];
    WithScoreSnoc([], c, c.score);
  }

  lemma WithScoreSnoc(init: seq<Candidate>, last: Candidate, x: real)
    ensures WithScore(init + [last], x) == WithScore(init, x) + (if last.score == x then [last] else [])
  {
    assert (init + [last])[..|init|] == init;
  }

  lemma AtLeastSnoc(init: seq<Candidate>, last: Candidate, x: real)
    ensures AtLeast(init + [last], x) == AtLeast(init, x) + (if last.score >= x then [last] else [])
  {
    assert (init + [last])[..|init|] == init;
  }

  lemma MaxScoreSnoc(init: seq<Candidate>, last: Candidate)
    requires |init| > 0
    ensures MaxScore(init + [last]) == if MaxScore(init) >= last.score then MaxScore(init) else last.score
  {
    assert (init + [last])[..|init|] == init;
  }

  /** Every entry of the best set scores the maximum, and it has one. */
  lemma BestScoresMax(init: seq<Candidate>)
    requires |init| > 0
    ensures forall k :: 0 <= k < |Best(init)| ==> Best(init)[k].score == MaxScore(init)
    ensures |Best(init)| > 0
  {
    var kept := Best(init);
    forall k | 0 <= k < |kept| ensures kept[k].score == MaxScore(init) {
      assert kept[k] in kept;
    }
    var w :| 0 <= w < |init| && init[w].score == MaxScore(init);
    assert init[w] in kept;
  }

  /** One step of the induction: saving a new candidate into the best set of
      the earlier ones gives the best set of all of them. */
  lemma SaveAfterBest(init: seq<Candidate>, last: Candidate)
    requires |init| > 0
    ensures Save(Best(init), last) == Best(init + [last])
  {
    var m := MaxScore(init);
    MaxScoreSnoc(init, last);
    BestScoresMax(init);
    if last.score < m {
      SaveBelowBest(init, last);
    } else if last.score == m {
      SaveTiesBest(init, last);
    } else {
      SaveAboveBest(init, last);
    }
  }

  lemma SaveBelowBest(init: seq<Candidate>, last: Candidate)
    requires |init| > 0 && last.score < MaxScore(init)
    requires forall k :: 0 <= k < |Best(init)| ==> Best(init)[k].score == MaxScore(init)
    requires |Best(init)| > 0
    requires MaxScore(init + [last]) == MaxScore(init)
    ensures Save(Best(init), last) == Best(init + [last])
  {
    var kept := Best(init);
    assert kept[0].score > last.score;
    assert Save(kept, last) == kept;
    WithScoreSnoc(init, last, MaxScore(init));
  }

  lemma SaveTiesBest(init: seq<Candidate>, last: Candidate)
    requires |init| > 0 && last.score == MaxScore(init)
    requires forall k :: 0 <= k < |Best(init)| ==> Best(init)[k].score == MaxScore(init)
    requires MaxScore(init + [last]) == MaxScore(init)
    ensures Save(Best(init), last) == Best(init + [last])
  {
    SaveTie(Best(init), last);
    WithScoreSnoc(init, last, last.score);
  }

  /** A candidate tying with every retained entry joins them. */
  lemma SaveTie(kept: seq<Candidate>, last: Candidate)
    requires forall k :: 0 <= k < |kept| ==> kept[k].score == last.score
    ensures Save(kept, last) == kept + [last]
  {
    assert !exists k :: 0 <= k < |kept| && kept[k].score > last.score;
    AtLeastSnoc(kept, last, last.score);
    AtLeastKeepsAll(kept, last.score);
  }

  lemma SaveAboveBest(init: seq<Candidate>, last: Candidate)
    requires |init| > 0 && last.score > MaxScore(init)
    requires forall k :: 0 <= k < |Best(init)| ==> Best(init)[k].score == MaxScore(init)
    requires MaxScore(init + [last]) == last.score
    ensures Save(Best(init), last) == Best(init + [last])
  {
    SaveAboveAll(Best(init), last);
    NoneWithScore(init, last.score);
    WithScoreSnoc(init, last, last.score);
    assert Best(init + [last]) == WithScore(init + [last], last.score);
  }

  /** A candidate beating every retained entry replaces them all. */
  lemma SaveAboveAll(kept: seq<Candidate>, last: Candidate)
    requires forall k :: 0 <= k < |kept| ==> kept[k].score < last.score
    ensures Save(kept, last) == [last]
  {
    assert !exists k :: 0 <= k < |kept| && kept[k].score > last.score;
    AtLeastSnoc(kept, last, last.score);
    AtLeastDropsAll(kept, last.score);
  }

  lemma NoneWithScore(cands: seq<Candidate>, x: real)
    requires forall k :: 0 <= k < |cands| ==> cands[k].score < x
    ensures WithScore(cands, x) == []
  {
  }

  /** What the best set is: non-empty exactly when there are candidates,
      every entry is a candidate scoring at least as well as every candidate,
      and every candidate with the top score is in it. */
  lemma BestCharacterized(cands: seq<Candidate>)
    ensures |Best(cands)| > 0 <==> |cands| > 0
    ensures forall e :: e in Best(cands) ==> e in cands && forall k :: 0 <= k < |cands| ==> cands[k].score <= e.score
    ensures forall k :: 0 <= k < |cands| && (forall j :: 0 <= j < |cands| ==> cands[j].score <= cands[k].score)
              ==> cands[k] in Best(cands)
  {
    if |cands| > 0 {
      var m := MaxScore(cands);
      var w :| 0 <= w < |cands| && cands[w].score == m;
      assert cands[w] in Best(cands);
    }
  }

  /** The retained-set loop: every candidate is offered to `Save` in turn.
      The invariant is that the retained set is the best of the candidates
      seen so far. */
  method KeepBest(cands: seq<Candidate>) returns (kept: seq<Candidate>)
    ensures kept == Best(cands)
    ensures |cands| > 0 ==> |kept| > 0
    ensures forall a, b :: 0 <= a < |kept| && 0 <= b < |kept| ==> kept[a].score == kept[b].score
  {
    kept := [];
    var i := 0;
    while i < |cands|
      invariant 0 <= i <= |cands|
      invariant kept == Best(cands[..i])
    {
      RankAllIsBest(cands[..i]);
      RankAllIsBest(cands[..i + 1]);
      assert cands[..i + 1][..i] == cands[..i];
      kept := Save(kept, cands[i]);
      i := i + 1;
    }
    assert cands[..i] == cands;
    BestCharacterized(cands);
    forall a, b | 0 <= a < |kept| && 0 <= b < |kept| ensures kept[a].score == kept[b].score {
      assert kept[a] in kept && kept[b] in kept;
    }
  }

  /** Copy one ranked list into the session priority column: the sessions
      get `first`, `first + 1`, ... in list order. Each copy is an update of
      an existing row, so an id without a row is skipped and no row is
      created. */
  function RankSessions(priority: map<int, int>, ranked: seq<int>, first: int): (r: map<int, int>)
    ensures r.Keys == priority.Keys
    ensures forall x :: x in priority && x !in ranked ==> r[x] == priority[x]
    ensures Distinct(ranked) ==> forall k :: 0 <= k < |ranked| && ranked[k] in priority ==> r[ranked[k]] == first + k
    decreases |ranked|
  {
    if |ranked| == 0 then priority
    else
      var next := if ranked[0] in priority then priority[ranked[0] := first] else priority;
      var r := RankSessions(next, ranked[1..], first + 1);
      assert Distinct(ranked) ==> Distinct(ranked[1..]) && ranked[0] !in ranked[1..] by {
        if Distinct(ranked) { DistinctTail(ranked); }
      }
      assert Distinct(ranked) ==> forall k :: 0 <= k < |ranked| && ranked[k] in priority ==> r[ranked[k]] == first + k by {
        if Distinct(ranked) {
          forall k | 0 <= k < |ranked| && ranked[k] in priority ensures r[ranked[k]] == first + k {
            if k > 0 {
              assert ranked[k] == ranked[1..][k - 1];
            }
          }
        }
      }
      r
  }

  /** Dropping the head of a duplicate-free list leaves one without the head. */
  lemma DistinctTail(xs: seq<int>)
    requires |xs| > 0 && Distinct(xs)
    ensures Distinct(xs[1..]) && xs[0] !in xs[1..]
  {
    forall a, b | 0 <= a < b < |xs[1..]| ensures xs[1..][a] != xs[1..][b] {
      assert xs[a + 1] != xs[b + 1];
    }
    forall b | 0 <= b < |xs[1..]| ensures xs[1..][b] != xs[0] {
      assert xs[0] != xs[b + 1];
    }
  }

  /** The id occurs in one of the ranked lists. */
  predicate Ranked(choice: seq<seq<int>>, x: int) {
    exists m :: 0 <= m < |choice| && x in choice[m]
  }

  /** Copy a whole priority combination into the session priority column,
      module by module, each module's list ranked from 1. */
  function SavePriorities(priority: map<int, int>, choice: seq<seq<int>>): (r: map<int, int>)
    ensures r.Keys == priority.Keys
    ensures forall x :: x in priority && !Ranked(choice, x) ==> r[x] == priority[x]
    decreases |choice|
  {
    if |choice| == 0 then priority
    else
      var r := SavePriorities(RankSessions(priority, choice[0], 1), choice[1..]);
      assert forall x :: Ranked(choice, x) <==> x in choice[0] || Ranked(choice[1..], x) by {
        forall x ensures Ranked(choice, x) <==> x in choice[0] || Ranked(choice[1..], x) {
          if Ranked(choice, x) {
            var m :| 0 <= m < |choice| && x in choice[m];
            if m > 0 { assert x in choice[1..][m - 1]; }
          }
          if Ranked(choice[1..], x) {
            var m :| 0 <= m < |choice[1..]| && x in choice[1..][m];
            assert x in choice[m + 1];
          }
        }
      }
      r
  }

  /** Every ranked list is duplicate-free and no id is ranked in two
      modules, as session ids are unique. */
  predicate SeparateRanks(choice: seq<seq<int>>) {
    && (forall m :: 0 <= m < |choice| ==> Distinct(choice[m]))
    && (forall m, n, x :: 0 <= m < n < |choice| && x in choice[m] ==> x !in choice[n])
  }

  /** With unique ids, after copying a priority combination the k-th session
      of every module's list carries priority k + 1, provided it has a row. */
  lemma {:induction false} SavedPriorityIsRank(priority: map<int, int>, choice: seq<seq<int>>, m: nat, k: nat)
    requires SeparateRanks(choice)
    requires m < |choice| && k < |choice[m]|
    ensures choice[m][k] in SavePriorities(priority, choice) <==> choice[m][k] in priority
    ensures choice[m][k] in priority ==> SavePriorities(priority, choice)[choice[m][k]] == k + 1
    decreases m
  {
    var rest := choice[1..];
    var first := RankSessions(priority, choice[0], 1);
    assert SeparateRanks(rest) by {
      forall a, b, x | 0 <= a < b < |rest| && x in rest[a] ensures x !in rest[b] {
        assert rest[a] == choice[a + 1] && rest[b] == choice[b + 1];
      }
      forall a | 0 <= a < |rest| ensures Distinct(rest[a]) {
        assert rest[a] == choice[a + 1];
      }
    }
    if m == 0 {
      var x := choice[0][k];
      assert !Ranked(rest, x) by {
        forall n | 0 <= n < |rest| ensures x !in rest[n] {
          assert rest[n] == choice[n + 1];
        }
      }
    } else {
      assert choice[m][k] == rest[m - 1][k];
      SavedPriorityIsRank(first, rest, m - 1, k);
    }
  }
}
