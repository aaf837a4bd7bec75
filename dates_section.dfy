/** The summary shown on the dates field: both dates and the number of nights
    between them. Date formatting is locale code and is passed in as `format`. */
module DatesSection {
  import opened Types
  import opened Text
  import opened Calendar

  /** `Math.ceil(timeDiff / (1000 * 3600 * 24))`, as integer ceiling division: the
      number of started days in the difference. */
  function Nights(diff: int): (n: int)
    ensures (n - 1) * MsPerDay < diff <= n * MsPerDay
  {
    -((-diff) / MsPerDay)
  }

  /** The ceiling is the only whole number with that property. */
  lemma NightsUnique(diff: int, n: int)
    requires (n - 1) * MsPerDay < diff <= n * MsPerDay
    ensures Nights(diff) == n
  {
  }

  /** `` `(${n} night${n > 1 ? "s" : ""})` ``. */
  function NightsCopy(n: int): (r: string)
    ensures r != [] && r[0] == '(' && r[|r| - 1] == ')'
  {
    "(" + IntToString(n) + " night" + (if n > 1 then "s" else "") + ")"
  }

  /** The two formatted dates and the space before the night count. */
  function DatesCopy(checkIn: int, checkOut: int, format: int -> string): string {
    format(checkIn) + " - " + format(checkOut) + " "
  }

  /** `generatePseudoLabel()`. */
  function PseudoLabel(checkIn: Option<int>, checkOut: Option<int>, format: int -> string): string {
    if checkIn.None? || checkOut.None? then ""
    else
      var n := Nights(checkOut.value - checkIn.value);
      Trim(DatesCopy(checkIn.value, checkOut.value, format) + NightsCopy(n))
  }

  /** The label is empty exactly when a date is missing. */
  lemma PseudoLabelEmpty(checkIn: Option<int>, checkOut: Option<int>, format: int -> string)
    ensures PseudoLabel(checkIn, checkOut, format) == [] <==> checkIn.None? || checkOut.None?
  {
    if checkIn.Some? && checkOut.Some? {
      PseudoLabelEnds(checkIn, checkOut, format);
    }
  }

  /** With both dates the label is the two formatted dates, leading whitespace
      trimmed, followed by the night count in brackets. */
  lemma PseudoLabelEnds(checkIn: Option<int>, checkOut: Option<int>, format: int -> string)
    requires checkIn.Some? && checkOut.Some?
    ensures PseudoLabel(checkIn, checkOut, format) ==
      TrimStart(DatesCopy(checkIn.value, checkOut.value, format)) + NightsCopy(Nights(checkOut.value - checkIn.value))
  {
    TrimNightsCopy(DatesCopy(checkIn.value, checkOut.value, format), Nights(checkOut.value - checkIn.value));
  }

  lemma TrimNightsCopy(a: string, n: int)
    ensures Trim(a + NightsCopy(n)) == TrimStart(a) + NightsCopy(n)
  {
    TrimOfAppend(a, NightsCopy(n));
  }

  /** `nights` is used for more than one night only. */
  lemma NightsCopyPlural(n: int)
    ensures var r := NightsCopy(n); |r| >= 2 && (r[|r| - 2] == 's' <==> n > 1)
  {
    var d := IntToString(n);
    var r := NightsCopy(n);
    if n <= 1 {
      assert r[|r| - 2] == 't';
    }
  }

  /** The default stay, the coming Friday at midnight to the Sunday at 23:59:59, is
      three nights. */
  lemma DefaultStayIsThreeNights(today: int)
    ensures Nights(DefaultCheckOut(today) - DefaultCheckIn(today)) == 3
  {
    DefaultCheckOutIsSunday(today);
    NightsUnique(DefaultCheckOut(today) - DefaultCheckIn(today), 3);
  }

  /** The bracket for three nights. */
  lemma ThreeNightsCopy(n: int)
    requires n == 3
    ensures NightsCopy(n) == "(3 nights)"
  {
    assert IntToString(n) == [DigitChar(3)];
  }

  lemma EndsWith(p: string, q: string)
    ensures |p + q| >= |q| && (p + q)[|p + q| - |q|..] == q
  {
  }

  /** So its label ends in `(3 nights)`. */
  lemma DefaultStayLabel(today: int, checkIn: Option<int>, checkOut: Option<int>, format: int -> string)
    requires checkIn == Some(DefaultCheckIn(today)) && checkOut == Some(DefaultCheckOut(today))
    ensures var t := PseudoLabel(checkIn, checkOut, format);
      |t| >= 10 && t[|t| - 10..] == "(3 nights)"
  {
    var n := Nights(checkOut.value - checkIn.value);
    DefaultStayIsThreeNights(today);
    PseudoLabelEnds(checkIn, checkOut, format);
    ThreeNightsCopy(n);
    EndsWith(TrimStart(DatesCopy(checkIn.value, checkOut.value, format)), NightsCopy(n));
  }

  // ---------------------------------------------------------------------------
  // Nights as calendar days
  // ---------------------------------------------------------------------------

  /** The nights of a stay counted by calendar days: how many midnights lie between
      the check-in day and the checkout day. */
  function CalendarNights(checkIn: int, checkOut: int): (n: int)
    ensures Day(AddDays(checkIn, n)) == Day(checkOut)
  {
    AddDaysFacts(checkIn, Day(checkOut) - Day(checkIn));
    Day(checkOut) - Day(checkIn)
  }

  /** The ceiling counts a stay that starts at midnight and ends later in the day
      than that as one night more than its calendar nights. */
  lemma CeilingCountsExtraNight(checkIn: int, checkOut: int)
    requires TimeOfDay(checkIn) == 0 && TimeOfDay(checkOut) > 0
    ensures Nights(checkOut - checkIn) == CalendarNights(checkIn, checkOut) + 1
  {
    var k := Day(checkOut) - Day(checkIn);
    DayAndTime(checkIn);
    DayAndTime(checkOut);
    assert checkOut - checkIn == k * MsPerDay + TimeOfDay(checkOut);
    NightsUnique(checkOut - checkIn, k + 1);
  }

  /** Both counts agree when the two instants have the same time of day. */
  lemma NightsAtSameTime(checkIn: int, checkOut: int)
    requires TimeOfDay(checkIn) == TimeOfDay(checkOut)
    ensures Nights(checkOut - checkIn) == CalendarNights(checkIn, checkOut)
  {
    var k := Day(checkOut) - Day(checkIn);
    DayAndTime(checkIn);
    DayAndTime(checkOut);
    assert checkOut - checkIn == k * MsPerDay;
    NightsUnique(checkOut - checkIn, k);
  }

  /** The default Friday-to-Sunday stay is two calendar nights. */
  lemma DefaultStayIsTwoNights(today: int)
    ensures CalendarNights(DefaultCheckIn(today), DefaultCheckOut(today)) == 2
  {
    DefaultCheckInIsComingFriday(today);
    DefaultCheckOutIsSunday(today);
    CeilingCountsExtraNight(DefaultCheckIn(today), DefaultCheckOut(today));
  }

  /** The label with the nights counted by calendar days. */
  function StayLabel(checkIn: Option<int>, checkOut: Option<int>, format: int -> string): string {
    if checkIn.None? || checkOut.None? then ""
    else
      var n := CalendarNights(checkIn.value, checkOut.value);
      Trim(DatesCopy(checkIn.value, checkOut.value, format) + NightsCopy(n))
  }

  /** The bracket for two nights. */
  lemma TwoNightsCopy(n: int)
    requires n == 2
    ensures NightsCopy(n) == "(2 nights)"
  {
    assert IntToString(n) == [DigitChar(2)];
  }

  /** The corrected label of the default stay ends in `(2 nights)`. */
  lemma StayLabelDefault(today: int, checkIn: Option<int>, checkOut: Option<int>, format: int -> string)
    requires checkIn == Some(DefaultCheckIn(today)) && checkOut == Some(DefaultCheckOut(today))
    ensures var t := StayLabel(checkIn, checkOut, format);
      |t| >= 10 && t[|t| - 10..] == "(2 nights)"
  {
    DefaultStayIsTwoNights(today);
    TwoNightStay(checkIn, checkOut, format);
  }

  /** Any stay of two calendar nights has a corrected label ending in `(2 nights)`. */
  lemma TwoNightStay(checkIn: Option<int>, checkOut: Option<int>, format: int -> string)
    requires checkIn.Some? && checkOut.Some? && CalendarNights(checkIn.value, checkOut.value) == 2
    ensures var t := StayLabel(checkIn, checkOut, format);
      |t| >= 10 && t[|t| - 10..] == "(2 nights)"
  {
    var n, a := CalendarNights(checkIn.value, checkOut.value), DatesCopy(checkIn.value, checkOut.value, format);
    TrimNightsCopy(a, n);
    TwoNightsCopy(n);
    EndsWith(TrimStart(a), NightsCopy(n));
  }

  /** The corrected label is empty exactly when a date is missing. */
  lemma StayLabelEmpty(checkIn: Option<int>, checkOut: Option<int>, format: int -> string)
    ensures StayLabel(checkIn, checkOut, format) == [] <==> checkIn.None? || checkOut.None?
  {
    if checkIn.Some? && checkOut.Some? {
      TrimNightsCopy(DatesCopy(checkIn.value, checkOut.value, format), CalendarNights(checkIn.value, checkOut.value));
    }
  }
}
