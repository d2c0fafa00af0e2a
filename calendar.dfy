/**
 * Calendar arithmetic of app/utils.py. A date is its proleptic Gregorian
 * ordinal, as Python's `date.toordinal()` gives it: 0001-01-01 is day 1 and a
 * Monday, and `timedelta(days=k)` adds `k`. Python's dates end at
 * 9999-12-31; a step past either end raises OverflowError, which the
 * functions here report as `None`.
 */
module Calendar {
  import opened Wrappers

  type Date = int

  /** `date.max.toordinal()`: 9999-12-31, a Friday. */
  const MaxOrdinal: int := 3652059

  /** 9999-12-27, the last Monday Python can represent. */
  const LastMonday: int := 3652055

  /** A date Python can represent, 0001-01-01 to 9999-12-31. */
  predicate InRange(d: Date)
  {
    1 <= d <= MaxOrdinal
  }

  /** Python's `date.weekday()`: Monday is 0, Sunday is 6. */
  function Weekday(d: Date): (w: int)
    ensures 0 <= w < 7
  {
    (d - 1) % 7
  }

  /** `start_of_week(d)`: the Monday on or before `d`. */
  function StartOfWeek(d: Date): (m: Date)
    ensures m <= d < m + 7
    ensures Weekday(m) == 0
  {
    d - Weekday(d)
  }

  /** A Monday starts the week of each of the six days after it. */
  lemma MondayStartsItsWeek(m: Date, d: Date)
    requires Weekday(m) == 0 && m <= d < m + 7
    ensures StartOfWeek(d) == m
  {
    var q := (m - 1) / 7;
    assert m - 1 == 7 * q;
    assert (d - 1) == 7 * q + (d - m);
    assert (d - 1) % 7 == d - m;
  }

  lemma StartOfWeekIdempotent(d: Date)
    ensures StartOfWeek(StartOfWeek(d)) == StartOfWeek(d)
  {
    MondayStartsItsWeek(StartOfWeek(d), StartOfWeek(d));
  }

  /** Two dates share a week start exactly when they lie in the same Monday-to-Sunday week. */
  lemma SameWeek(a: Date, b: Date)
    ensures StartOfWeek(a) == StartOfWeek(b) <==> StartOfWeek(a) <= b < StartOfWeek(a) + 7
  {
    if StartOfWeek(a) <= b < StartOfWeek(a) + 7 {
      MondayStartsItsWeek(StartOfWeek(a), b);
    }
  }

  /** The week start moves by exactly one week when the date does. */
  lemma StartOfWeekShift(d: Date, k: int)
    ensures StartOfWeek(d + 7 * k) == StartOfWeek(d) + 7 * k
  {
    var m := StartOfWeek(d) + 7 * k;
    assert (m - 1) == (StartOfWeek(d) - 1) + 7 * k;
    assert Weekday(m) == 0;
    MondayStartsItsWeek(m, d + 7 * k);
  }

  /**
   * `week_dates(d)`: the seven days Monday to Sunday of the week of `d`, or
   * `None` for the OverflowError when the week runs past the calendar's end.
   */
  function WeekDates(d: Date): (r: Option<seq<Date>>)
    ensures r.None? <==> !InRange(StartOfWeek(d)) || StartOfWeek(d) + 6 > MaxOrdinal
    ensures r.Some? ==> |r.value| == 7 && Weekday(r.value[0]) == 0
    ensures r.Some? ==> forall i :: 0 <= i < 7 ==> r.value[i] == StartOfWeek(d) + i
    ensures r.Some? ==> forall x :: x in r.value <==> StartOfWeek(d) <= x < StartOfWeek(d) + 7
    ensures r.Some? ==> d in r.value
  {
    var start := StartOfWeek(d);
    if !InRange(start) || start + 6 > MaxOrdinal then None
    else
      var r := seq(7, i requires 0 <= i < 7 => start + i);
      assert forall x :: start <= x < start + 7 ==> x in r by {
        forall x | start <= x < start + 7 ensures x in r {
          assert r[x - start] == x;
        }
      }
      Some(r)
  }

  /** For a representable date, only the week from 9999-12-27 on overflows. */
  lemma WeekDatesOverflow(d: Date)
    requires InRange(d)
    ensures WeekDates(d).None? <==> d >= LastMonday
  {
    var m := StartOfWeek(d);
    var q := (m - 1) / 7;
    assert m == 7 * q + 1;
    assert m + 6 > MaxOrdinal <==> q >= 521722;
    assert d >= LastMonday <==> q >= 521722;
  }

  /** `week_dates(d)` holds exactly the dates that share `d`'s week start. */
  lemma InWeekDates(d: Date, x: Date)
    requires WeekDates(d).Some?
    ensures x in WeekDates(d).value <==> StartOfWeek(x) == StartOfWeek(d)
  {
    SameWeek(d, x);
    SameWeek(x, d);
  }
}
