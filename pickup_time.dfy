/**
 The pickup-time half of TripFare's feature derivation: the 12-hour clock
 reading chosen in the form (hour, minute, AM/PM) is turned into a 24-hour
 hour, then into a fractional hour of the day, and the integer hour decides
 whether the ride counts as a night ride.
 */
module PickupTime {

  datatype Meridiem = AM | PM

  /** A reading of the 12-hour clock as the hour selector offers it. */
  predicate ValidHour12(hour12: int) {
    1 <= hour12 <= 12
  }

  predicate ValidHour24(hour24: int) {
    0 <= hour24 <= 23
  }

  predicate ValidMinute(minute: int) {
    0 <= minute <= 59
  }

  /**
   12-hour to 24-hour conversion. Midnight (12 AM) becomes 0 and noon
   (12 PM) stays 12; otherwise AM keeps the hour and PM adds twelve.
   The result is pinned down by three facts: it is an hour of the day,
   it falls in the morning half exactly for AM, and it shows the same
   position on the dial (12 counts as 0).
   */
  function To24Hour(hour12: int, meridiem: Meridiem): (hour24: int)
    requires ValidHour12(hour12)
    ensures ValidHour24(hour24)
    ensures meridiem == AM <==> hour24 < 12
    ensures hour24 % 12 == hour12 % 12
  {
    match meridiem
    case AM => if hour12 == 12 then 0 else hour12
    case PM => if hour12 == 12 then 12 else hour12 + 12
  }

  /** The 12-hour reading of a 24-hour hour: the inverse of To24Hour. */
  function From24Hour(hour24: int): (reading: (int, Meridiem))
    requires ValidHour24(hour24)
    ensures ValidHour12(reading.0)
    ensures reading.1 == AM <==> hour24 < 12
    ensures reading.0 % 12 == hour24 % 12
  {
    var dial := hour24 % 12;
    (if dial == 0 then 12 else dial, if hour24 < 12 then AM else PM)
  }

  /** Converting a 12-hour reading to 24 hours and back gives the reading. */
  lemma From24HourTo24Hour(hour12: int, meridiem: Meridiem)
    requires ValidHour12(hour12)
    ensures From24Hour(To24Hour(hour12, meridiem)) == (hour12, meridiem)
  {
  }

  /** Every hour of the day is reached by converting its 12-hour reading. */
  lemma To24HourFrom24Hour(hour24: int)
    requires ValidHour24(hour24)
    ensures To24Hour(From24Hour(hour24).0, From24Hour(hour24).1) == hour24
  {
  }

  /**
   The conversion is a bijection from {1..12} x {AM, PM} onto 0..23:
   every hour of the day has exactly one 12-hour reading that maps to it.
   */
  lemma To24HourBijective(hour24: int)
    requires ValidHour24(hour24)
    ensures exists hour12: int, meridiem: Meridiem ::
      ValidHour12(hour12) && To24Hour(hour12, meridiem) == hour24
    ensures forall hour12: int, meridiem: Meridiem ::
      ValidHour12(hour12) && To24Hour(hour12, meridiem) == hour24 ==>
        (hour12, meridiem) == From24Hour(hour24)
  {
    var reading := From24Hour(hour24);
    To24HourFrom24Hour(hour24);
    assert ValidHour12(reading.0) && To24Hour(reading.0, reading.1) == hour24;
    forall hour12: int, meridiem: Meridiem |
      ValidHour12(hour12) && To24Hour(hour12, meridiem) == hour24
      ensures (hour12, meridiem) == From24Hour(hour24)
    {
      From24HourTo24Hour(hour12, meridiem);
    }
  }

  /**
   AM readings land in 0..11 and PM readings in 12..23; below 12 the hour
   is kept (AM) or shifted by twelve (PM).
   */
  lemma To24HourHalves(hour12: int, meridiem: Meridiem)
    requires ValidHour12(hour12)
    ensures meridiem == AM ==> 0 <= To24Hour(hour12, meridiem) <= 11
    ensures meridiem == PM ==> 12 <= To24Hour(hour12, meridiem) <= 23
    ensures hour12 < 12 ==> To24Hour(hour12, AM) == hour12 && To24Hour(hour12, PM) == hour12 + 12
  {
  }

  /** The two special cases: 12 AM is midnight (0) and 12 PM is noon (12). */
  lemma To24HourMidnightNoon()
    ensures To24Hour(12, AM) == 0 && To24Hour(12, PM) == 12
  {
  }

  /**
   The fractional hour handed to the model: the hour plus the minute as
   a fraction of an hour. It stays within its hour, so it lies in [0, 24).
   */
  function FractionalHour(hour24: int, minute: int): (time: real)
    requires ValidHour24(hour24) && ValidMinute(minute)
    ensures hour24 as real <= time < hour24 as real + 1.0
    ensures 0.0 <= time < 24.0
    ensures time.Floor == hour24
  {
    hour24 as real + minute as real / 60.0
  }

  /**
   The minute read back from a fractional hour: the fraction of the hour
   in minutes, rounded to the nearest minute so that a value that is off
   by less than half a minute still decodes.
   */
  function MinuteOf(time: real): (minute: int)
  {
    ((time - time.Floor as real) * 60.0 + 0.5).Floor
  }

  /**
   The fractional hour loses nothing: the floor gives the hour back (see
   FractionalHour) and the fraction gives the minute back.
   */
  lemma FractionalHourDecodes(hour24: int, minute: int)
    requires ValidHour24(hour24) && ValidMinute(minute)
    ensures MinuteOf(FractionalHour(hour24, minute)) == minute
  {
  }

  /**
   The minute still comes back from a pickup time that is off by less
   than half a minute, as long as its floor is still the hour: the error
   a rounded `minute / 60` leaves behind is far below that.
   */
  lemma MinuteOfTolerant(hour24: int, minute: int, time: real)
    requires ValidHour24(hour24) && ValidMinute(minute)
    requires time.Floor == hour24
    requires -1.0 / 120.0 < time - FractionalHour(hour24, minute) < 1.0 / 120.0
    ensures MinuteOf(time) == minute
  {
  }

  /**
   The fractional hour is strictly increasing in (hour, minute) taken in
   clock order, so distinct times of day give distinct values.
   */
  lemma FractionalHourOrdered(h1: int, m1: int, h2: int, m2: int)
    requires ValidHour24(h1) && ValidMinute(m1)
    requires ValidHour24(h2) && ValidMinute(m2)
    ensures FractionalHour(h1, m1) < FractionalHour(h2, m2) <==> h1 < h2 || (h1 == h2 && m1 < m2)
  {
  }

  /**
   Night or early-morning ride: the integer hour is 22 or later, or 5 or
   earlier. The minute plays no part. On the 12-hour clock these are the
   readings 10 PM to 11:59 PM and 12 AM to 5:59 AM.
   */
  predicate IsNight(hour24: int): (night: bool)
    requires ValidHour24(hour24)
    ensures night <==> var reading := From24Hour(hour24);
      (reading.1 == PM && 10 <= reading.0 <= 11) || (reading.1 == AM && (reading.0 == 12 || reading.0 <= 5))
  {
    hour24 >= 22 || hour24 <= 5
  }

  /** The boundaries of the night window: 5 and 22 are night, 6 and 21 are not. */
  lemma IsNightBoundaries()
    ensures IsNight(0) && IsNight(5) && !IsNight(6)
    ensures !IsNight(21) && IsNight(22) && IsNight(23)
    ensures forall hour24 :: 6 <= hour24 <= 21 ==> !IsNight(hour24)
  {
  }

  /**
   Read on the fractional hour, the night window is [22.0, 24.0) together
   with [0.0, 6.0): any minute of hour 5 is night and minute 0 of hour 6
   is day.
   */
  lemma IsNightByFractionalHour(hour24: int, minute: int)
    requires ValidHour24(hour24) && ValidMinute(minute)
    ensures IsNight(hour24) <==> FractionalHour(hour24, minute) < 6.0 || FractionalHour(hour24, minute) >= 22.0
  {
  }

  /**
   In 12-hour terms the night window is 10 PM to 11:59 PM, together with
   12 AM to 5:59 AM.
   */
  lemma IsNightIn12Hour(hour12: int, meridiem: Meridiem)
    requires ValidHour12(hour12)
    ensures IsNight(To24Hour(hour12, meridiem)) <==>
      (meridiem == PM && 10 <= hour12 <= 11) || (meridiem == AM && (hour12 == 12 || hour12 <= 5))
  {
  }
}
