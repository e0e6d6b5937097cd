/**
 * Per-student totals. The percentage (a floating-point division rounded with
 * toFixed(2), "NaN" when no day is shown) is not computed here: the export
 * takes it as an opaque text.
 */
module Totals {

  /** `attendance.filter(day => day).length` */
  function CountPresent(att: seq<bool>): (n: nat)
    ensures n <= |att|
  {
    if |att| == 0 then 0
    else CountPresent(att[..|att| - 1]) + (if att[|att| - 1] then 1 else 0)
  }

  /** The count of present days is the number of `true` marks in the record. */
  lemma {:induction false} CountPresentIsTrueMarks(att: seq<bool>)
    ensures CountPresent(att) == multiset(att)[true]
  {
    if |att| > 0 {
      CountPresentIsTrueMarks(att[..|att| - 1]);
      assert att == att[..|att| - 1] + [att[|att| - 1]];
    }
  }

  /**
   * The totals of one record. `totalDays` is the number of days shown, not
   * the length of the record, so `totalAbsent` goes negative when a record
   * holds more marks than there are days shown.
   */
  datatype Totals = Totals(totalDays: nat, totalPresent: nat, totalAbsent: int)

  function CalculateTotals(att: seq<bool>, dayCount: nat): (t: Totals)
    ensures t.totalDays == dayCount
    ensures t.totalPresent == multiset(att)[true] && t.totalPresent <= |att|
    ensures t.totalPresent + t.totalAbsent == t.totalDays
    ensures |att| == dayCount ==> 0 <= t.totalAbsent == multiset(att)[false]
  {
    CountPresentIsTrueMarks(att);
    assert |att| == multiset(att)[true] + multiset(att)[false] by {
      TrueAndFalseMarks(att);
    }
    var present := CountPresent(att);
    Totals(dayCount, present, dayCount - present)
  }

  /** Every mark is either present or absent. */
  lemma {:induction false} TrueAndFalseMarks(att: seq<bool>)
    ensures multiset(att)[true] + multiset(att)[false] == |att|
  {
    if |att| > 0 {
      var init, last := att[..|att| - 1], att[|att| - 1];
      TrueAndFalseMarks(init);
      assert att == init + [last];
      assert multiset(att) == multiset(init) + multiset{last};
      if last {
        assert multiset(att)[true] == multiset(init)[true] + 1;
      } else {
        assert multiset(att)[false] == multiset(init)[false] + 1;
      }
    }
  }

  /** A record absent on every one of n days: nothing present, n absent. */
  lemma {:induction false} TotalsAllAbsent(n: nat)
    ensures CalculateTotals(seq(n, _ => false), n) == Totals(n, 0, n)
  {
    var att: seq<bool> := seq(n, _ => false);
    assert true !in multiset(att);
  }

  /** A record present on every one of n days: n present, nothing absent. */
  lemma {:induction false} TotalsAllPresent(n: nat)
    ensures CalculateTotals(seq(n, _ => true), n) == Totals(n, n, 0)
  {
    var att: seq<bool> := seq(n, _ => true);
    assert false !in multiset(att);
    TrueAndFalseMarks(att);
  }
}
