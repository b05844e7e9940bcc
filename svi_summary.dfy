/** analysis_svi_osm.py: the per-grid street-view summary. The cleaned
    metadata is restricted to rows with a year and a month, each row's
    capture month becomes a date, rows repeating a (grid_id, year, month)
    triple are dropped keeping the first, and every grid with a dated row
    gets dated_count (its remaining rows) and latest_date (their maximum). */
module SviSummary {
  import opened Base
  import opened Months
  import opened Records
  import Seqs

  datatype CellSummary = CellSummary(datedCount: nat, latestDate: YearMonth)

  /** The metadata rows that have both a year and a month, in order. */
  function DatedRows(rows: seq<PanoRecord>): (r: seq<PanoRecord>)
    ensures forall x :: x in r <==> x in rows && IsDated(x)
  {
    Seqs.Filter(rows, (x: PanoRecord) => IsDated(x))
  }

  /** The columns that decide whether two rows are duplicates: grid_id,
      year and month. */
  function GridMonthKey(r: PanoRecord): (int, Option<int>, Option<Month>)
  {
    (r.gridId, r.year, r.month)
  }

  /** The dated rows with every repeat of a (grid_id, year, month) triple
      dropped, the first occurrence kept. */
  function Deduplicated(rows: seq<PanoRecord>): (d: seq<PanoRecord>)
    ensures forall x :: x in d ==> x in rows && IsDated(x)
    ensures Seqs.KeySet(d, GridMonthKey) == Seqs.KeySet(DatedRows(rows), GridMonthKey)
    ensures forall i, j :: 0 <= i < j < |d| ==> GridMonthKey(d[i]) != GridMonthKey(d[j])
    ensures forall x :: x in d ==>
              exists i :: 0 <= i < |DatedRows(rows)| && DatedRows(rows)[i] == x
                          && Seqs.FirstWithKey(DatedRows(rows), GridMonthKey, i)
  {
    Seqs.KeepFirst(DatedRows(rows), GridMonthKey)
  }

  /** The dates of the rows of grid g, in row order. */
  function GridDates(rows: seq<PanoRecord>, g: int): (ds: seq<YearMonth>)
    requires forall r :: r in rows ==> IsDated(r)
    ensures |ds| <= |rows|
  {
    if rows == [] then []
    else
      (if rows[0].gridId == g then [CaptureMonth(rows[0])] else []) + GridDates(rows[1..], g)
  }

  function GridOf(r: PanoRecord): int
  {
    r.gridId
  }

  /** The grids that have at least one row with a year and a month. */
  function DatedGrids(rows: seq<PanoRecord>): set<int>
  {
    set r | r in rows && IsDated(r) :: r.gridId
  }

  /** The distinct capture months of grid g's dated rows. */
  function MonthsOf(rows: seq<PanoRecord>, g: int): set<YearMonth>
  {
    set r | r in rows && IsDated(r) && r.gridId == g :: CaptureMonth(r)
  }

  /** svi_summary: groupby("grid_id").agg(dated_count = size, latest_date
      = max) over the deduplicated rows. */
  function Summary(rows: seq<PanoRecord>): (m: map<int, CellSummary>)
    ensures m.Keys == DatedGrids(rows)
  {
    var d := Deduplicated(rows);
    KeysOfDeduplicated(rows);
    map g | g in DatedGrids(rows) ::
      (GridHasDate(d, g); CellSummary(|GridDates(d, g)|, Latest(GridDates(d, g))))
  }

  /** The deduplicated rows are dated and cover the same grids. */
  lemma KeysOfDeduplicated(rows: seq<PanoRecord>)
    ensures forall r :: r in Deduplicated(rows) ==> IsDated(r)
    ensures forall g :: g in DatedGrids(rows) ==> g in Seqs.KeySet(Deduplicated(rows), GridOf)
  {
    var dated := DatedRows(rows);
    var d := Deduplicated(rows);
    forall g | g in DatedGrids(rows) ensures g in Seqs.KeySet(d, GridOf) {
      var r :| r in rows && IsDated(r) && r.gridId == g;
      assert GridMonthKey(r) in Seqs.KeySet(dated, GridMonthKey);
      var x :| x in d && GridMonthKey(x) == GridMonthKey(r);
    }
  }

  /** A grid with a row has a date. */
  lemma {:induction false} GridHasDate(rows: seq<PanoRecord>, g: int)
    requires forall r :: r in rows ==> IsDated(r)
    requires g in Seqs.KeySet(rows, GridOf)
    ensures |GridDates(rows, g)| > 0
  {
    if rows[0].gridId != g {
      assert forall r :: r in rows ==> r == rows[0] || r in rows[1..];
      GridHasDate(rows[1..], g);
    }
  }

  /** The dates of grid g are exactly the months of its rows. */
  lemma {:induction false} GridDatesAreMonths(rows: seq<PanoRecord>, g: int)
    requires forall r :: r in rows ==> IsDated(r)
    ensures Seqs.Elements(GridDates(rows, g)) == MonthsOf(rows, g)
  {
    if rows != [] {
      GridDatesAreMonths(rows[1..], g);
      assert forall r :: r in rows <==> r == rows[0] || r in rows[1..];
      if rows[0].gridId == g {
        assert MonthsOf(rows, g) == {CaptureMonth(rows[0])} + MonthsOf(rows[1..], g);
        assert Seqs.Elements(GridDates(rows, g))
            == {CaptureMonth(rows[0])} + Seqs.Elements(GridDates(rows[1..], g));
      } else {
        assert MonthsOf(rows, g) == MonthsOf(rows[1..], g);
        assert Seqs.Elements(GridDates(rows, g)) == Seqs.Elements(GridDates(rows[1..], g));
      }
    }
  }

  predicate KeysDistinct(rows: seq<PanoRecord>)
  {
    forall i, j :: 0 <= i < j < |rows| ==> GridMonthKey(rows[i]) != GridMonthKey(rows[j])
  }

  lemma KeysDistinctTail(rows: seq<PanoRecord>)
    requires |rows| > 0 && KeysDistinct(rows)
    ensures KeysDistinct(rows[1..])
  {
    var tail := rows[1..];
    forall i, j | 0 <= i < j < |tail| ensures GridMonthKey(tail[i]) != GridMonthKey(tail[j]) {
      assert tail[i] == rows[i + 1] && tail[j] == rows[j + 1];
    }
  }

  /** The first row's month does not reappear among the later dates of its
      grid. */
  lemma HeadMonthNotRepeated(rows: seq<PanoRecord>)
    requires |rows| > 0 && (forall r :: r in rows ==> IsDated(r)) && KeysDistinct(rows)
    ensures CaptureMonth(rows[0]) !in GridDates(rows[1..], rows[0].gridId)
  {
    var tail := rows[1..];
    var g := rows[0].gridId;
    var m := CaptureMonth(rows[0]);
    GridDatesAreMonths(tail, g);
    forall r | r in tail && r.gridId == g ensures CaptureMonth(r) != m {
      var j :| 0 <= j < |tail| && tail[j] == r;
      assert GridMonthKey(rows[0]) != GridMonthKey(rows[j + 1]);
    }
    assert m !in MonthsOf(tail, g);
    assert m !in Seqs.Elements(GridDates(tail, g));
  }

  /** Rows with pairwise different keys give grid g pairwise different
      dates. */
  lemma {:induction false} GridDatesDistinct(rows: seq<PanoRecord>, g: int)
    requires forall r :: r in rows ==> IsDated(r)
    requires KeysDistinct(rows)
    ensures Seqs.Distinct(GridDates(rows, g))
  {
    if rows != [] {
      var tail := rows[1..];
      KeysDistinctTail(rows);
      GridDatesDistinct(tail, g);
      if rows[0].gridId == g {
        var m := CaptureMonth(rows[0]);
        HeadMonthNotRepeated(rows);
        var ds := GridDates(rows, g);
        var rest := GridDates(tail, g);
        assert ds == [m] + rest;
        forall i, j | 0 <= i < j < |ds| ensures ds[i] != ds[j] {
          if i == 0 {
            assert ds[j] == rest[j - 1];
          } else {
            assert ds[i] == rest[i - 1] && ds[j] == rest[j - 1];
          }
        }
      }
    }
  }

  /** A dated month of grid g survives deduplication. */
  lemma MonthsSurvive(rows: seq<PanoRecord>, g: int)
    ensures forall r :: r in Deduplicated(rows) ==> IsDated(r)
    ensures MonthsOf(Deduplicated(rows), g) == MonthsOf(rows, g)
  {
    var dated := DatedRows(rows);
    var d := Deduplicated(rows);
    KeysOfDeduplicated(rows);
    forall m | m in MonthsOf(rows, g) ensures m in MonthsOf(d, g) {
      var r :| r in rows && IsDated(r) && r.gridId == g && CaptureMonth(r) == m;
      assert GridMonthKey(r) in Seqs.KeySet(dated, GridMonthKey);
      var x :| x in d && GridMonthKey(x) == GridMonthKey(r);
      assert CaptureMonth(x) == m;
    }
    forall m | m in MonthsOf(d, g) ensures m in MonthsOf(rows, g) {
      var x :| x in d && IsDated(x) && x.gridId == g && CaptureMonth(x) == m;
      assert x in dated;
    }
  }

  /** dated_count is the number of distinct months in which grid g has a
      dated panorama, and it is at least 1. */
  lemma DatedCountIsDistinctMonths(rows: seq<PanoRecord>, g: int)
    requires g in Summary(rows)
    ensures Summary(rows)[g].datedCount == |MonthsOf(rows, g)|
    ensures Summary(rows)[g].datedCount >= 1
  {
    var d := Deduplicated(rows);
    KeysOfDeduplicated(rows);
    GridHasDate(d, g);
    GridDatesDistinct(d, g);
    Seqs.DistinctCard(GridDates(d, g));
    GridDatesAreMonths(d, g);
    MonthsSurvive(rows, g);
    assert Summary(rows)[g].datedCount == |GridDates(d, g)|;
  }

  /** latest_date is a month of one of grid g's dated panoramas, and no
      such month is later. */
  lemma LatestDateIsMaximum(rows: seq<PanoRecord>, g: int)
    requires g in Summary(rows)
    ensures Summary(rows)[g].latestDate in MonthsOf(rows, g)
    ensures forall m :: m in MonthsOf(rows, g) ==> NotAfter(m, Summary(rows)[g].latestDate)
  {
    var d := Deduplicated(rows);
    KeysOfDeduplicated(rows);
    GridHasDate(d, g);
    var ds := GridDates(d, g);
    assert Summary(rows)[g].latestDate == Latest(ds);
    GridDatesAreMonths(d, g);
    MonthsSurvive(rows, g);
    assert Latest(ds) in Seqs.Elements(ds);
    forall m | m in MonthsOf(rows, g) ensures NotAfter(m, Latest(ds)) {
      assert m in Seqs.Elements(ds);
    }
  }
}
