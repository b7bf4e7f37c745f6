/** The pure time helpers of the configuration handler: end-time computation
    with minute carry, weekday names and the start-time check made when a
    session is entered. */
module Config {
  import opened Wrappers

  /** A time of day as hour and minute, not necessarily normalised. */
  datatype Clock = Clock(hour: int, minute: int)

  /** Minutes since midnight denoted by a clock reading. */
  function Minutes(c: Clock): int {
    60 * c.hour + c.minute
  }

  /** The latest minute of a day, 23:59. */
  const LastMinuteOfDay: int := 23 * 60 + 59

  /** One session as the operator enters it. */
  datatype Slot = Slot(weekday: int, hour: int, minute: int, duration: int, userPriority: int)

  /** The carry loop of the end-time computation: while more than 59 minutes
      remain, trade sixty of them for one hour. */
  function Carry(hour: int, minutes: int): (c: Clock)
    ensures Minutes(c) == 60 * hour + minutes
    ensures c.hour >= hour
    ensures c.minute <= 59
    ensures minutes >= 0 ==> 0 <= c.minute
    ensures minutes <= 59 ==> c == Clock(hour, minutes)
    decreases minutes
  {
    if minutes > 59 then Carry(hour + 1, minutes - 60) else Clock(hour, minutes)
  }

  /** The end of a session starting at hour:minute and lasting `duration`
      minutes; `None` is the abort for a session that ends after 23 o'clock. */
  function EndTime(hour: int, minute: int, duration: int): (r: Option<Clock>)
    ensures r.Some? ==> Minutes(r.value) == 60 * hour + minute + duration
    ensures r.Some? ==> hour <= r.value.hour <= 23 && r.value.minute <= 59
    ensures r.Some? && minute + duration >= 0 ==> 0 <= r.value.minute
    ensures minute + duration <= 59 ==> r.Some? ==> r.value == Clock(hour, minute + duration)
    ensures minute + duration >= 0 ==> (r.None? <==> 60 * hour + minute + duration > LastMinuteOfDay)
    ensures minute + duration < 0 ==> (r.None? <==> hour > 23)
  {
    var c := Carry(hour, minute + duration);
    if c.hour > 23 then None else Some(c)
  }

  /** The end-time computation written as the loop it is in the
      configuration handler. */
  method EndTimeLoop(hour: int, minute: int, duration: int) returns (r: Option<Clock>)
    ensures r == EndTime(hour, minute, duration)
  {
    var hours := hour;
    var minutes := minute + duration;
    while minutes > 59
      invariant Carry(hours, minutes) == Carry(hour, minute + duration)
      decreases minutes
    {
      minutes := minutes - 60;
      hours := hours + 1;
    }
    if hours > 23 {
      return None;
    }
    return Some(Clock(hours, minutes));
  }

  /** The weekday name of an index, Monday first; nothing for any other
      value. */
  function WeekdayName(day: int): (r: Option<string>)
    ensures r.Some? <==> 0 <= day <= 6
  {
    if day == 0 then Some("Monday")
    else if day == 1 then Some("Tuesday")
    else if day == 2 then Some("Wednesday")
    else if day == 3 then Some("Thursday")
    else if day == 4 then Some("Friday")
    else if day == 5 then Some("Saturday")
    else if day == 6 then Some("Sunday")
    else None
  }

  /** The seven names in week order, pairwise distinct. */
  lemma WeekdayNamesInOrder()
    ensures WeekdayName(0) == Some("Monday") && WeekdayName(1) == Some("Tuesday")
    ensures WeekdayName(2) == Some("Wednesday") && WeekdayName(3) == Some("Thursday")
    ensures WeekdayName(4) == Some("Friday") && WeekdayName(5) == Some("Saturday")
    ensures WeekdayName(6) == Some("Sunday")
    ensures forall a, b :: 0 <= a < b <= 6 ==> WeekdayName(a) != WeekdayName(b)
  {
  }

  /** Entering a session: it is appended to the module's sessions unless its
      start hour is past 23 or its start minute past 59, which aborts. */
  function AddSession(sessions: seq<Slot>, s: Slot): (r: Option<seq<Slot>>)
    ensures r.None? <==> s.hour > 23 || s.minute > 59
    ensures r.Some? ==> |r.value| == |sessions| + 1
    ensures r.Some? ==> r.value[..|sessions|] == sessions && r.value[|sessions|] == s
  {
    if s.hour > 23 || s.minute > 59 then None else Some(sessions + [s])
  }

  /** The start check does not bound the end: a session accepted at 23:30
      that lasts an hour still fails when its end time is computed. */
  lemma AcceptedStartMayEndPastMidnight()
    ensures AddSession([], Slot(0, 23, 30, 60, 0)).Some?
    ensures EndTime(23, 30, 60).None?
  {
  }

  /** An accepted start with a non-negative minute and no duration ends where
      it starts. */
  lemma AcceptedStartEndsOnItself(s: Slot)
    requires AddSession([], s).Some? && s.minute >= 0
    ensures EndTime(s.hour, s.minute, 0) == Some(Clock(s.hour, s.minute))
  {
  }
}
