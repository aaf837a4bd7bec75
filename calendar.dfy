/** JavaScript `Date` values as the search code uses them: an instant is a number of
    milliseconds in local time (time zones and daylight-saving shifts are not
    modelled), so a calendar day is a block of 86 400 000 milliseconds and day 0,
    1970-01-01, was a Thursday. A `JsDate` is the mutable object: `setDate` and
    `setHours` change it in place. */
module Calendar {

  const MsPerDay: int := 86400000

  /** The day number of an instant (`Math.floor(t / 86400000)`). */
  function Day(t: int): int { t / MsPerDay }

  /** Milliseconds since local midnight. */
  function TimeOfDay(t: int): (r: int)
    ensures 0 <= r < MsPerDay
  {
    t % MsPerDay
  }

  /** `getMilliseconds()`. */
  function Millis(t: int): (r: int)
    ensures 0 <= r < 1000
  {
    t % 1000
  }

  /** Day number `d` falls on a Friday. */
  predicate IsFriday(d: int) { (d + 4) % 7 == 5 }

  /** `getDay()`: 0 is Sunday, 5 is Friday. */
  function Weekday(t: int): (r: int)
    ensures 0 <= r < 7
  {
    (Day(t) + 4) % 7
  }

  /** `d.setDate(d.getDate() + k)`: the same time of day, `k` days later. */
  function AddDays(t: int, k: int): int {
    t + k * MsPerDay
  }

  /** `setHours(h, m, s, ms)` with every component in range: the given time on the
      same calendar day. */
  function SetTime(t: int, h: int, m: int, s: int, ms: int): (r: int)
    requires 0 <= h < 24 && 0 <= m < 60 && 0 <= s < 60 && 0 <= ms < 1000
  {
    Day(t) * MsPerDay + ((h * 60 + m) * 60 + s) * 1000 + ms
  }

  /** An instant is its day's midnight plus its time of day. */
  lemma DayAndTime(t: int)
    ensures t == Day(t) * MsPerDay + TimeOfDay(t)
  {
  }

  /** The day and time of day are determined by a decomposition with the time in
      range. */
  lemma DayOfDecomposition(t: int, d: int, r: int)
    requires t == d * MsPerDay + r && 0 <= r < MsPerDay
    ensures Day(t) == d && TimeOfDay(t) == r
  {
    DayAndTime(t);
  }

  /** Moving by whole days moves the day number and keeps the time of day and the
      milliseconds. */
  lemma AddDaysFacts(t: int, k: int)
    ensures Day(AddDays(t, k)) == Day(t) + k
    ensures TimeOfDay(AddDays(t, k)) == TimeOfDay(t)
    ensures Millis(AddDays(t, k)) == Millis(t)
    ensures Weekday(AddDays(t, k)) == (Weekday(t) + k) % 7
  {
    DayAndTime(t);
    DayOfDecomposition(AddDays(t, k), Day(t) + k, TimeOfDay(t));
    ShiftThousands(t, k * 86400);
    ShiftWeek(Day(t) + 4, k);
  }

  /** Adding whole thousands keeps the last three digits. */
  lemma ShiftThousands(x: int, j: int)
    ensures (x + j * 1000) % 1000 == x % 1000
  {
  }

  /** Adding k to a day number adds k to its weekday, modulo seven. */
  lemma ShiftWeek(a: int, k: int)
    ensures (a + k) % 7 == (a % 7 + k) % 7
  {
  }

  /** `setHours` keeps the calendar day and sets exactly the time of day asked for. */
  lemma SetTimeFacts(t: int, h: int, m: int, s: int, ms: int)
    requires 0 <= h < 24 && 0 <= m < 60 && 0 <= s < 60 && 0 <= ms < 1000
    ensures Day(SetTime(t, h, m, s, ms)) == Day(t)
    ensures TimeOfDay(SetTime(t, h, m, s, ms)) == ((h * 60 + m) * 60 + s) * 1000 + ms
    ensures Millis(SetTime(t, h, m, s, ms)) == ms
    ensures Weekday(SetTime(t, h, m, s, ms)) == Weekday(t)
  {
    var secs := (h * 60 + m) * 60 + s;
    assert 0 <= secs < 86400;
    var r := secs * 1000 + ms;
    DayOfDecomposition(SetTime(t, h, m, s, ms), Day(t), r);
    ShiftThousands(ms, Day(t) * 86400 + secs);
  }

  /** The mutable `Date` object. */
  class JsDate {
    var time: int

    /** `new Date(t)`, and the copy constructor `new Date(other)`. */
    constructor (t: int)
      ensures time == t
    {
      time := t;
    }

    /** `getDay()`. */
    function GetDay(): (r: int)
      reads this
      ensures 0 <= r < 7 && r == Weekday(time)
    {
      (Day(time) + 4) % 7
    }

    /** `this.setDate(this.getDate() + k)`. */
    method AdvanceDays(k: int)
      modifies this
      ensures time == AddDays(old(time), k)
    {
      time := time + k * MsPerDay;
    }

    /** `this.setHours(h, m, s, ms)`. */
    method SetHours(h: int, m: int, s: int, ms: int)
      requires 0 <= h < 24 && 0 <= m < 60 && 0 <= s < 60 && 0 <= ms < 1000
      modifies this
      ensures time == SetTime(old(time), h, m, s, ms)
    {
      time := Day(time) * MsPerDay + ((h * 60 + m) * 60 + s) * 1000 + ms;
    }

    /** `this.setHours(h, m, s)`: the milliseconds are left as they were. */
    method SetHoursKeepMillis(h: int, m: int, s: int)
      requires 0 <= h < 24 && 0 <= m < 60 && 0 <= s < 60
      modifies this
      ensures time == SetTime(old(time), h, m, s, Millis(old(time)))
    {
      SetHours(h, m, s, time % 1000);
    }
  }

  // ---------------------------------------------------------------------------
  // The default stay: the coming Friday to the Sunday after it
  // ---------------------------------------------------------------------------

  /** `(5 - today.getDay() + 7) % 7`: days until the next Friday, 0 on a Friday. */
  function FridayOffset(today: int): (r: int)
    ensures 0 <= r <= 6
    ensures r == 0 <==> Weekday(today) == 5
    ensures (Weekday(today) + r) % 7 == 5
  {
    (5 - Weekday(today) + 7) % 7
  }

  /** The default check-in: midnight at the start of the coming Friday. */
  function DefaultCheckIn(today: int): int {
    SetTime(AddDays(today, FridayOffset(today)), 0, 0, 0, 0)
  }

  /** The default checkout: the copy of the Friday instant taken before its time is
      cleared, moved two days on and set to 23:59:59, so it keeps the milliseconds of
      the moment the page was loaded. */
  function DefaultCheckOut(today: int): int {
    SetTime(AddDays(AddDays(today, FridayOffset(today)), 2), 23, 59, 59, Millis(today))
  }

  /** The start-up computation, on `Date` objects: `new Date(today)`, `setDate`,
      a copy, `setDate`, then the two `setHours` calls. */
  method ComputeDefaults(today: int) returns (nextFriday: JsDate, nextSunday: JsDate)
    ensures fresh(nextFriday) && fresh(nextSunday) && nextFriday != nextSunday
    ensures nextFriday.time == DefaultCheckIn(today)
    ensures nextSunday.time == DefaultCheckOut(today)
  {
    var now := new JsDate(today);
    nextFriday := new JsDate(now.time);
    nextFriday.AdvanceDays((5 - now.GetDay() + 7) % 7);
    nextSunday := new JsDate(nextFriday.time);
    nextSunday.AdvanceDays(2);
    nextFriday.SetHours(0, 0, 0, 0);
    AddDaysFacts(today, FridayOffset(today));
    AddDaysFacts(AddDays(today, FridayOffset(today)), 2);
    nextSunday.SetHoursKeepMillis(23, 59, 59);
  }

  /** The default check-in is a Friday at 00:00:00.000, between zero and six days
      after today, and no day before it from today on is a Friday: it is the first
      Friday on or after today. */
  lemma DefaultCheckInIsComingFriday(today: int)
    ensures var ci := DefaultCheckIn(today);
      IsFriday(Day(ci)) && Weekday(ci) == 5 && TimeOfDay(ci) == 0 &&
      Day(today) <= Day(ci) <= Day(today) + 6 &&
      (Day(ci) == Day(today) <==> Weekday(today) == 5) &&
      forall d :: Day(today) <= d < Day(ci) ==> !IsFriday(d)
  {
    var off := FridayOffset(today);
    AddDaysFacts(today, off);
    SetTimeFacts(AddDays(today, off), 0, 0, 0, 0);
    NoFridayBefore(Day(today), off);
  }

  /** No day before the first Friday at or after day `d0` is a Friday. */
  lemma NoFridayBefore(d0: int, off: int)
    requires 0 <= off <= 6 && ((d0 + 4) % 7 + off) % 7 == 5
    ensures forall d :: d0 <= d < d0 + off ==> !IsFriday(d)
  {
    forall d | d0 <= d < d0 + off ensures !IsFriday(d) {
      ShiftWeek(d0 + 4, d - d0);
    }
  }

  /** The default checkout is on the Sunday two days after the check-in, at
      23:59:59 plus the load-time milliseconds. */
  lemma DefaultCheckOutIsSunday(today: int)
    ensures var ci, co := DefaultCheckIn(today), DefaultCheckOut(today);
      Day(co) == Day(ci) + 2 && Weekday(co) == 0 &&
      TimeOfDay(co) == 86399000 + Millis(today) &&
      co - ci == 2 * MsPerDay + 86399000 + Millis(today)
  {
    var off := FridayOffset(today);
    var f := AddDays(today, off);
    AddDaysFacts(today, off);
    AddDaysFacts(f, 2);
    SetTimeFacts(f, 0, 0, 0, 0);
    SetTimeFacts(AddDays(f, 2), 23, 59, 59, Millis(today));
    DefaultCheckInIsComingFriday(today);
  }
}
