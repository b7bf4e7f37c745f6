/** The pairwise overlap penalty between two sessions of one weekday, on
    minute intervals since midnight. Only the first interval is widened by the
    minimum gap, so each unordered pair is charged once from each side. */
module Overlap {

  /** A session's span in minutes since midnight: start and end. */
  datatype Interval = Interval(lo: int, hi: int)

  predicate WellFormed(i: Interval) {
    i.lo <= i.hi
  }

  /** The first interval grown by the minimum gap on both sides. */
  function Widen(i: Interval, minDifference: int): (w: Interval)
    ensures w.hi - w.lo == i.hi - i.lo + 2 * minDifference
    ensures minDifference >= 0 && WellFormed(i) ==> WellFormed(w) && w.lo <= i.lo && i.hi <= w.hi
  {
    Interval(i.lo - minDifference, i.hi + minDifference)
  }

  /** `a` reaches strictly past `b` on both sides. */
  predicate StrictlyContains(a: Interval, b: Interval) {
    a.lo < b.lo && a.hi > b.hi
  }

  /** The open intervals share at least one point. */
  predicate Intersects(a: Interval, b: Interval) {
    b.lo < a.hi && b.hi > a.lo
  }

  function Abs(x: int): (r: int)
    ensures r >= 0 && (r == x || r == -x)
  {
    if x < 0 then -x else x
  }

  /** The branches of the penalty cascade, in source order. */
  datatype Branch = FirstAround | SecondAround | RightOverhang | LeftOverhang | Apart

  /** Which branch the cascade takes for the widened interval `t` and the
      compared interval `c`. The fourth branch repeats the third one's guard,
      so it is never taken. */
  function Classify(t: Interval, c: Interval): (b: Branch)
    ensures b != LeftOverhang
    ensures b == FirstAround <==> StrictlyContains(t, c)
    ensures b == SecondAround <==> StrictlyContains(c, t) && !StrictlyContains(t, c)
    ensures b == Apart <==> !Intersects(t, c) && !StrictlyContains(t, c) && !StrictlyContains(c, t)
  {
    if t.lo < c.lo && t.hi > c.hi then FirstAround
    else if c.lo < t.lo && c.hi > t.hi then SecondAround
    else if c.lo < t.hi && c.hi > t.lo then RightOverhang
    else if c.lo < t.hi && c.hi > t.lo then LeftOverhang
    else Apart
  }

  /** The penalty before doubling, for the already widened `t`. */
  function RawPenalty(t: Interval, c: Interval): (r: int)
    ensures r >= 0
    ensures StrictlyContains(t, c) || StrictlyContains(c, t) ==> r == Abs(c.hi - t.lo) + Abs(t.hi - c.lo)
    ensures !StrictlyContains(t, c) && !StrictlyContains(c, t) && Intersects(t, c) ==> r == Abs(c.hi - t.lo)
    ensures WellFormed(t) && WellFormed(c) ==> (r > 0 <==> Intersects(t, c))
  {
    match Classify(t, c)
    case FirstAround => Abs(Abs(c.hi - t.lo) + Abs(t.hi - c.lo))
    case SecondAround => Abs(Abs(c.hi - t.lo) + Abs(t.hi - c.lo))
    case RightOverhang => Abs(c.hi - t.lo)
    case LeftOverhang => Abs(t.hi - c.lo)
    case Apart => 0
  }

  /** The penalty charged to `first` for `second`: widen `first`, take the
      raw penalty, and double it when it exceeds the minimum gap. */
  function Penalty(first: Interval, second: Interval, minDifference: int): (r: int)
    ensures r >= 0
  {
    var raw := RawPenalty(Widen(first, minDifference), second);
    if raw > minDifference then 2 * raw else raw
  }

  /** The doubling rule: a raw penalty above the minimum gap is doubled, one
      at or below it is charged as it is, so doubling never moves a penalty
      across the gap threshold. */
  lemma DoublingRule(first: Interval, second: Interval, minDifference: int)
    ensures var raw := RawPenalty(Widen(first, minDifference), second);
      var r := Penalty(first, second, minDifference);
      && (raw > minDifference ==> r == 2 * raw)
      && (raw <= minDifference ==> r == raw)
      && (r > minDifference <==> raw > minDifference)
  {
  }

  /** For well-formed intervals and a non-negative gap, a pair costs something
      exactly when the second interval meets the widened first one. */
  lemma PenaltyPositiveIffOverlap(first: Interval, second: Interval, minDifference: int)
    requires WellFormed(first) && WellFormed(second) && minDifference >= 0
    ensures Penalty(first, second, minDifference) > 0 <==> Intersects(Widen(first, minDifference), second)
  {
  }

  /** Two well-formed sessions at least `minDifference` apart cost nothing, in
      either order. */
  lemma GapCostsNothing(first: Interval, second: Interval, minDifference: int)
    requires WellFormed(first) && WellFormed(second) && minDifference >= 0
    requires second.lo >= first.hi + minDifference || first.lo >= second.hi + minDifference
    ensures Penalty(first, second, minDifference) == 0
    ensures Penalty(second, first, minDifference) == 0
  {
    PenaltyPositiveIffOverlap(first, second, minDifference);
    PenaltyPositiveIffOverlap(second, first, minDifference);
  }

  /** 09:00-10:00 against 09:30-10:30 with no gap: the overhang rule charges
      90 minutes, doubled, when the earlier session comes first, and 30,
      doubled, the other way round. */
  lemma WorkedExample()
    ensures Penalty(Interval(540, 600), Interval(570, 630), 0) == 180
    ensures Penalty(Interval(570, 630), Interval(540, 600), 0) == 60
  {
  }

  /** The partial-overlap rule is not symmetric: it always measures from the
      widened first interval's start to the second interval's end. */
  lemma OverhangIsAsymmetric()
    ensures exists a: Interval, b: Interval :: Penalty(a, b, 0) != Penalty(b, a, 0)
  {
    WorkedExample();
  }
}
