/**
 * Weekend-day derivation.
 *
 * Calendar dates are local calendar days numbered from 1970-01-01 (day 0),
 * which was a Thursday. Weekdays use the numbering of JavaScript's
 * Date.prototype.getDay: 0 is Sunday, 5 Friday, 6 Saturday.
 */
module Calendar {

  /** Day number of 1970-01-01's weekday offset: day 0 was a Thursday (4). */
  const EpochWeekday: int := 4

  function Weekday(d: int): (w: int)
    ensures 0 <= w < 7
  {
    (d + EpochWeekday) % 7
  }

  /** Friday, Saturday and Sunday are the days the register keeps. */
  predicate IsWeekendDay(d: int) {
    var w := Weekday(d);
    w == 0 || w == 5 || w == 6
  }

  /**
   * The kept days are three consecutive days starting on a Friday: the day
   * numbers 1, 2 and 3 modulo 7 (day 1, 1970-01-02, was a Friday).
   */
  lemma WeekendDayNumbers(d: int)
    ensures IsWeekendDay(d) <==> 1 <= d % 7 <= 3
  {
    var q, r := d / 7, d % 7;
    assert d == 7 * q + r;
    assert Weekday(d) == (r + 4) % 7;
  }

  /** The weekend days of the inclusive range [s, e], in calendar order. */
  function WeekendDays(s: int, e: int): (r: seq<int>)
    ensures |r| <= if e < s then 0 else e - s + 1
    decreases e - s
  {
    if e < s then []
    else WeekendDays(s, e - 1) + (if IsWeekendDay(e) then [e] else [])
  }

  /** Every returned day lies in [s, e] and is a Friday, Saturday or Sunday. */
  lemma {:induction false} WeekendDaysSound(s: int, e: int)
    ensures forall k :: 0 <= k < |WeekendDays(s, e)| ==>
      s <= WeekendDays(s, e)[k] <= e && IsWeekendDay(WeekendDays(s, e)[k])
    decreases e - s
  {
    if s <= e {
      WeekendDaysSound(s, e - 1);
    }
  }

  /** The days come out strictly increasing. */
  lemma {:induction false} WeekendDaysIncreasing(s: int, e: int)
    ensures forall i, j :: 0 <= i < j < |WeekendDays(s, e)| ==>
      WeekendDays(s, e)[i] < WeekendDays(s, e)[j]
    decreases e - s
  {
    if s <= e {
      WeekendDaysIncreasing(s, e - 1);
      WeekendDaysSound(s, e - 1);
    }
  }

  /**
   * The result agrees with a day-by-day classification of [s, e]: a day
   * occurs exactly once when it is a weekend day in range, never otherwise.
   */
  lemma {:induction false} WeekendDaysOccurrences(s: int, e: int, d: int)
    ensures multiset(WeekendDays(s, e))[d] ==
      if s <= d <= e && IsWeekendDay(d) then 1 else 0
    decreases e - s
  {
    if s <= e {
      WeekendDaysOccurrences(s, e - 1, d);
      var init, tail := WeekendDays(s, e - 1), if IsWeekendDay(e) then [e] else [];
      assert WeekendDays(s, e) == init + tail;
      assert multiset(init + tail)[d] == multiset(init)[d] + multiset(tail)[d];
    }
  }

  /** Cutting the range after day m cuts the result at the same place. */
  lemma {:induction false} WeekendDaysSplit(s: int, m: int, e: int)
    requires s - 1 <= m <= e
    ensures WeekendDays(s, e) == WeekendDays(s, m) + WeekendDays(m + 1, e)
    decreases e - m
  {
    if m < e {
      WeekendDaysSplit(s, m, e - 1);
      var tail := if IsWeekendDay(e) then [e] else [];
      assert WeekendDays(m + 1, e) == WeekendDays(m + 1, e - 1) + tail;
      assert (WeekendDays(s, m) + WeekendDays(m + 1, e - 1)) + tail
          == WeekendDays(s, m) + (WeekendDays(m + 1, e - 1) + tail);
    }
  }

  /** 1 for a kept day, 0 otherwise. */
  function Kept(d: int): (n: nat)
    ensures n == 1 <==> IsWeekendDay(d)
  {
    if IsWeekendDay(d) then 1 else 0
  }

  /** Seven consecutive days run through every weekday once, three of them kept. */
  lemma KeptPerWeek(s: int)
    ensures Kept(s) + Kept(s + 1) + Kept(s + 2) + Kept(s + 3) + Kept(s + 4) + Kept(s + 5) + Kept(s + 6) == 3
  {
    var w := Weekday(s);
    assert Weekday(s + 1) == (w + 1) % 7;
    assert Weekday(s + 2) == (w + 2) % 7;
    assert Weekday(s + 3) == (w + 3) % 7;
    assert Weekday(s + 4) == (w + 4) % 7;
    assert Weekday(s + 5) == (w + 5) % 7;
    assert Weekday(s + 6) == (w + 6) % 7;
    if w == 0 {
    } else if w == 1 {
    } else if w == 2 {
    } else if w == 3 {
    } else if w == 4 {
    } else if w == 5 {
    } else {
      assert w == 6;
    }
  }

  /** Any seven consecutive days hold exactly three weekend days. */
  lemma WeekendDaysPerWeek(s: int)
    ensures |WeekendDays(s, s + 6)| == 3
  {
    KeptPerWeek(s);
    assert |WeekendDays(s, s)| == Kept(s);
    assert |WeekendDays(s, s + 1)| == |WeekendDays(s, s)| + Kept(s + 1);
    assert |WeekendDays(s, s + 2)| == |WeekendDays(s, s + 1)| + Kept(s + 2);
    assert |WeekendDays(s, s + 3)| == |WeekendDays(s, s + 2)| + Kept(s + 3);
    assert |WeekendDays(s, s + 4)| == |WeekendDays(s, s + 3)| + Kept(s + 4);
    assert |WeekendDays(s, s + 5)| == |WeekendDays(s, s + 4)| + Kept(s + 5);
    assert |WeekendDays(s, s + 6)| == |WeekendDays(s, s + 5)| + Kept(s + 6);
  }

  /**
   * Walks day by day from s to e inclusive and keeps the weekend days,
   * as the source's for-loop does with its mutable Date.
   */
  method GetWeekendDays(s: int, e: int) returns (days: seq<int>)
    ensures days == WeekendDays(s, e)
    ensures e < s ==> days == []
    ensures forall k :: 0 <= k < |days| ==> s <= days[k] <= e && IsWeekendDay(days[k])
    ensures forall i, j :: 0 <= i < j < |days| ==> days[i] < days[j]
    ensures forall d :: s <= d <= e && IsWeekendDay(d) ==> d in days
  {
    days := [];
    var date := s;
    while date <= e
      invariant s <= date && (date <= e + 1 || date == s)
      invariant days == WeekendDays(s, date - 1)
      decreases e - date
    {
      if IsWeekendDay(date) {
        days := days + [date];
      }
      date := date + 1;
    }
    WeekendDaysSound(s, e);
    WeekendDaysIncreasing(s, e);
    forall d | s <= d <= e && IsWeekendDay(d)
      ensures d in days
    {
      WeekendDaysOccurrences(s, e, d);
      assert d in multiset(days);
    }
  }
}
