/** Calendar months as the scripts use them: a (year, month) pair, compared
    the way pandas compares the datetimes built from it, and the month index
    year * 12 + month used for all month arithmetic. */
module Months {

  /** A calendar month; pd.to_datetime rejects anything outside 1..12. */
  type Month = m: int | 1 <= m <= 12 witness 1

  datatype YearMonth = YearMonth(year: int, month: Month)

  /** year * 12 + month */
  function MonthIndex(d: YearMonth): int
  {
    d.year * 12 + d.month
  }

  /** Chronological order of the first days of two months (datetime <=). */
  predicate NotAfter(a: YearMonth, b: YearMonth)
  {
    a.year < b.year || (a.year == b.year && a.month <= b.month)
  }

  lemma IndexOrder(a: YearMonth, b: YearMonth)
    ensures NotAfter(a, b) <==> MonthIndex(a) <= MonthIndex(b)
    ensures MonthIndex(a) == MonthIndex(b) <==> a == b
  {
  }

  /** The number of months from a to b as the scripts write it:
      (b.year - a.year) * 12 + (b.month - a.month). */
  function MonthsBetween(a: YearMonth, b: YearMonth): (r: int)
    ensures r == MonthIndex(b) - MonthIndex(a)
    ensures r >= 0 <==> NotAfter(a, b)
    ensures r == 0 <==> a == b
  {
    (b.year - a.year) * 12 + (b.month - a.month)
  }

  /** The maximum of a non-empty list of months (pandas max on dates). */
  function Latest(s: seq<YearMonth>): (r: YearMonth)
    requires |s| > 0
    ensures r in s
    ensures forall x :: x in s ==> NotAfter(x, r)
  {
    if |s| == 1 then s[0]
    else
      var m := Latest(s[1..]);
      assert forall x :: x in s ==> x == s[0] || x in s[1..];
      if NotAfter(s[0], m) then m else s[0]
  }

  /** The minimum of a non-empty list of months (pandas min on dates). */
  function Earliest(s: seq<YearMonth>): (r: YearMonth)
    requires |s| > 0
    ensures r in s
    ensures forall x :: x in s ==> NotAfter(r, x)
  {
    if |s| == 1 then s[0]
    else
      var m := Earliest(s[1..]);
      assert forall x :: x in s ==> x == s[0] || x in s[1..];
      if NotAfter(m, s[0]) then m else s[0]
  }
}
