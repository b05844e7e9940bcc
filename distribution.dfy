/** generate_distribution.py, sections 1 and 2: the temporal metrics of
    every grid cell, where a cell is identified by its query point
    (query_lat, query_lon). Only rows with a year and a month take part;
    each contributes its capture month. Per cell: dated_count (its rows),
    spreading_months (months from its earliest to its latest capture),
    latest_date, and recency_months (months from its latest capture to
    the latest capture of any cell). */
module Distribution {
  import opened Base
  import opened Months
  import opened Records
  import Seqs

  type Cell = (real, real)

  function CellOf(r: PanoRecord): Cell
  {
    (r.queryLat, r.queryLon)
  }

  /** Which rows a list of capture months is taken from. */
  datatype Where = AnyCell | AtCell(cell: Cell)

  predicate Matches(w: Where, r: PanoRecord)
  {
    w.AnyCell? || CellOf(r) == w.cell
  }

  /** Row r is dated and w selects it. */
  function Selects(w: Where): PanoRecord -> bool
  {
    r => IsDated(r) && Matches(w, r)
  }

  /** The capture months of the dated rows that w selects, in row order:
      one date per selected row, so repeated months are kept. */
  function DatesWhere(rows: seq<PanoRecord>, w: Where): (ds: seq<YearMonth>)
    ensures |ds| == |Seqs.Positions(rows, Selects(w))|
    ensures |ds| <= |rows|
  {
    if rows == [] then
      Seqs.PositionsNil(Selects(w));
      []
    else
      Seqs.PositionsCons(rows, Selects(w));
      var head := if IsDated(rows[0]) && Matches(w, rows[0]) then [CaptureMonth(rows[0])] else [];
      head + DatesWhere(rows[1..], w)
  }

  /** The cells with at least one dated row: the groups formed by the
      query point. */
  function Cells(rows: seq<PanoRecord>): set<Cell>
  {
    set r | r in rows && IsDated(r) :: CellOf(r)
  }

  datatype CellMetrics = CellMetrics(
    datedCount: nat,
    spreadingMonths: int,
    latestDate: YearMonth,
    recencyMonths: int)

  /** global_latest: the latest capture month of the whole table. */
  function GlobalLatest(rows: seq<PanoRecord>): (g: YearMonth)
    requires Cells(rows) != {}
    ensures exists i :: 0 <= i < |rows| && IsDated(rows[i]) && CaptureMonth(rows[i]) == g
    ensures forall i :: 0 <= i < |rows| && IsDated(rows[i]) ==> NotAfter(CaptureMonth(rows[i]), g)
  {
    TableHasDates(rows);
    var g := Latest(DatesWhere(rows, AnyCell));
    assert exists i :: 0 <= i < |rows| && IsDated(rows[i]) && CaptureMonth(rows[i]) == g by {
      var i := RowOfDate(rows, AnyCell, g);
    }
    DatedRowsHaveDates(rows);
    g
  }

  /** Every dated row's month is a date of the table. */
  lemma DatedRowsHaveDates(rows: seq<PanoRecord>)
    ensures forall i :: 0 <= i < |rows| && IsDated(rows[i]) ==> CaptureMonth(rows[i]) in DatesWhere(rows, AnyCell)
  {
    forall i | 0 <= i < |rows| && IsDated(rows[i]) ensures CaptureMonth(rows[i]) in DatesWhere(rows, AnyCell) {
      DateOfRow(rows, AnyCell, i);
    }
  }

  /** The merged frame g: one row of metrics per cell. */
  function Metrics(rows: seq<PanoRecord>): (m: map<Cell, CellMetrics>)
    ensures m.Keys == Cells(rows)
  {
    map c | c in Cells(rows) ::
      (CellHasDates(rows, c);
       var ds := DatesWhere(rows, AtCell(c));
       CellMetrics(|ds|, MonthsBetween(Earliest(ds), Latest(ds)), Latest(ds),
                   MonthsBetween(Latest(ds), GlobalLatest(rows))))
  }

  /** The month of a dated row w selects is among the dates. */
  lemma {:induction false} DateOfRow(rows: seq<PanoRecord>, w: Where, i: nat)
    requires i < |rows| && IsDated(rows[i]) && Matches(w, rows[i])
    ensures CaptureMonth(rows[i]) in DatesWhere(rows, w)
  {
    if i > 0 {
      DateOfRow(rows[1..], w, i - 1);
    }
  }

  /** Every date comes from a dated row that w selects. */
  lemma {:induction false} RowOfDate(rows: seq<PanoRecord>, w: Where, d: YearMonth) returns (i: nat)
    requires d in DatesWhere(rows, w)
    ensures i < |rows| && IsDated(rows[i]) && Matches(w, rows[i]) && CaptureMonth(rows[i]) == d
  {
    if IsDated(rows[0]) && Matches(w, rows[0]) && CaptureMonth(rows[0]) == d {
      i := 0;
    } else {
      var j := RowOfDate(rows[1..], w, d);
      i := j + 1;
    }
  }

  /** A cell of the table has at least one date. */
  lemma CellHasDates(rows: seq<PanoRecord>, c: Cell)
    requires c in Cells(rows)
    ensures |DatesWhere(rows, AtCell(c))| > 0
  {
    var r :| r in rows && IsDated(r) && CellOf(r) == c;
    var i :| 0 <= i < |rows| && rows[i] == r;
    DateOfRow(rows, AtCell(c), i);
  }

  /** A table with a cell has a date. */
  lemma TableHasDates(rows: seq<PanoRecord>)
    requires Cells(rows) != {}
    ensures |DatesWhere(rows, AnyCell)| > 0
  {
    var c :| c in Cells(rows);
    var r :| r in rows && IsDated(r) && CellOf(r) == c;
    var i :| 0 <= i < |rows| && rows[i] == r;
    DateOfRow(rows, AnyCell, i);
  }

  /** A cell's dates are dates of the table. */
  lemma DatesWhereMonotone(rows: seq<PanoRecord>, c: Cell)
    ensures forall d :: d in DatesWhere(rows, AtCell(c)) ==> d in DatesWhere(rows, AnyCell)
  {
    forall d | d in DatesWhere(rows, AtCell(c)) ensures d in DatesWhere(rows, AnyCell) {
      var i := RowOfDate(rows, AtCell(c), d);
      DateOfRow(rows, AnyCell, i);
    }
  }

  /** dated_count (size of the group) is the number of the cell's dated
      rows, not of its distinct dates; so it is at least 1 and at least the
      number of distinct capture months. */
  lemma DatedCountBounds(rows: seq<PanoRecord>, c: Cell)
    requires c in Metrics(rows)
    ensures Metrics(rows)[c].datedCount == |set i | 0 <= i < |rows| && IsDated(rows[i]) && CellOf(rows[i]) == c|
    ensures Metrics(rows)[c].datedCount >= 1
    ensures Metrics(rows)[c].datedCount >= |Seqs.Elements(DatesWhere(rows, AtCell(c)))|
    ensures Metrics(rows)[c].datedCount <= |rows|
  {
    CellHasDates(rows, c);
    Seqs.CardAtMostLength(DatesWhere(rows, AtCell(c)));
    assert Metrics(rows)[c].datedCount == |DatesWhere(rows, AtCell(c))|;
    CellPositions(rows, c);
  }

  /** The rows a cell selects are its dated rows. */
  lemma CellPositions(rows: seq<PanoRecord>, c: Cell)
    ensures Seqs.Positions(rows, Selects(AtCell(c)))
            == set i | 0 <= i < |rows| && IsDated(rows[i]) && CellOf(rows[i]) == c
  {
    var selected := set i | 0 <= i < |rows| && IsDated(rows[i]) && CellOf(rows[i]) == c;
    forall i ensures i in Seqs.Positions(rows, Selects(AtCell(c))) <==> i in selected {
    }
  }

  /** Two dated rows of one cell taken in the same month: dated_count is 2
      although the cell has a single distinct capture month. */
  lemma SameMonthRowsCountTwice()
    ensures var a := PanoRecord(55.86, -4.25, "p1", 55.86, -4.25, Some(2020), Some(5), 3.0, 7);
            var b := PanoRecord(55.86, -4.25, "p2", 55.86, -4.25, Some(2020), Some(5), 4.0, 7);
            (55.86, -4.25) in Metrics([a, b])
            && Metrics([a, b])[(55.86, -4.25)].datedCount == 2
            && |Seqs.Elements(DatesWhere([a, b], AtCell((55.86, -4.25))))| == 1
  {
    var a := PanoRecord(55.86, -4.25, "p1", 55.86, -4.25, Some(2020), Some(5), 3.0, 7);
    var b := PanoRecord(55.86, -4.25, "p2", 55.86, -4.25, Some(2020), Some(5), 4.0, 7);
    var c := (55.86, -4.25);
    assert a in [a, b];
    assert c in Cells([a, b]);
    var ds := DatesWhere([a, b], AtCell(c));
    assert [a, b][1..] == [b] && [b][1..] == [];
    assert DatesWhere([b], AtCell(c)) == [YearMonth(2020, 5)];
    assert ds == [YearMonth(2020, 5), YearMonth(2020, 5)];
    assert Seqs.Elements(ds) == {YearMonth(2020, 5)};
  }

  /** spreading_months is never negative, it is the largest distance
      between two captures of the cell (no pair is further apart and one
      pair is exactly that far apart), and it is 0 exactly when all the
      cell's captures fall in one month. */
  lemma SpreadingIsRange(rows: seq<PanoRecord>, c: Cell)
    requires c in Metrics(rows)
    ensures Metrics(rows)[c].spreadingMonths >= 0
    ensures forall a, b :: a in DatesWhere(rows, AtCell(c)) && b in DatesWhere(rows, AtCell(c)) ==>
              MonthIndex(b) - MonthIndex(a) <= Metrics(rows)[c].spreadingMonths
    ensures Metrics(rows)[c].spreadingMonths == 0 <==>
              forall a, b :: a in DatesWhere(rows, AtCell(c)) && b in DatesWhere(rows, AtCell(c)) ==> a == b
    ensures exists a, b :: a in DatesWhere(rows, AtCell(c)) && b in DatesWhere(rows, AtCell(c)) &&
              MonthIndex(b) - MonthIndex(a) == Metrics(rows)[c].spreadingMonths
  {
    CellHasDates(rows, c);
    var ds := DatesWhere(rows, AtCell(c));
    var lo, hi := Earliest(ds), Latest(ds);
    assert Metrics(rows)[c].spreadingMonths == MonthsBetween(lo, hi);
    assert NotAfter(lo, hi);
    assert lo in ds && hi in ds && MonthIndex(hi) - MonthIndex(lo) == Metrics(rows)[c].spreadingMonths;
    forall a, b | a in ds && b in ds ensures MonthIndex(b) - MonthIndex(a) <= MonthIndex(hi) - MonthIndex(lo) {
      IndexOrder(lo, a);
      IndexOrder(b, hi);
    }
    if MonthsBetween(lo, hi) == 0 {
      forall a, b | a in ds && b in ds ensures a == b {
        IndexOrder(lo, a);
        IndexOrder(b, hi);
        IndexOrder(lo, b);
        IndexOrder(a, hi);
      }
    }
  }

  /** latest_date is the capture month of one of the cell's dated rows,
      and none of the cell's dated rows was captured later. */
  lemma CellLatestDate(rows: seq<PanoRecord>, c: Cell)
    requires c in Metrics(rows)
    ensures exists i :: 0 <= i < |rows| && IsDated(rows[i]) && CellOf(rows[i]) == c &&
              CaptureMonth(rows[i]) == Metrics(rows)[c].latestDate
    ensures forall i :: 0 <= i < |rows| && IsDated(rows[i]) && CellOf(rows[i]) == c ==>
              NotAfter(CaptureMonth(rows[i]), Metrics(rows)[c].latestDate)
  {
    CellHasDates(rows, c);
    var l := Latest(DatesWhere(rows, AtCell(c)));
    assert Metrics(rows)[c].latestDate == l;
    var j := RowOfDate(rows, AtCell(c), l);
    forall i | 0 <= i < |rows| && IsDated(rows[i]) && CellOf(rows[i]) == c
      ensures NotAfter(CaptureMonth(rows[i]), l)
    {
      DateOfRow(rows, AtCell(c), i);
    }
  }

  /** global_latest is the latest date of some cell and no cell's latest
      date is later. */
  lemma GlobalLatestIsLatestCell(rows: seq<PanoRecord>)
    requires Cells(rows) != {}
    ensures forall c :: c in Metrics(rows) ==> NotAfter(Metrics(rows)[c].latestDate, GlobalLatest(rows))
    ensures exists c :: c in Metrics(rows) && Metrics(rows)[c].latestDate == GlobalLatest(rows)
  {
    var all := DatesWhere(rows, AnyCell);
    TableHasDates(rows);
    var g := GlobalLatest(rows);
    assert g == Latest(all);
    forall c | c in Metrics(rows) ensures NotAfter(Metrics(rows)[c].latestDate, g) {
      CellHasDates(rows, c);
      DatesWhereMonotone(rows, c);
      assert Latest(DatesWhere(rows, AtCell(c))) in all;
    }
    var i := RowOfDate(rows, AnyCell, g);
    var c := CellOf(rows[i]);
    assert rows[i] in rows;
    assert c in Cells(rows);
    DateOfRow(rows, AtCell(c), i);
    CellHasDates(rows, c);
    DatesWhereMonotone(rows, c);
    var l := Latest(DatesWhere(rows, AtCell(c)));
    assert NotAfter(g, l) && NotAfter(l, g);
    assert Metrics(rows)[c].latestDate == l;
  }

  /** recency_months is the number of months from the cell's latest_date
      to global_latest; it is never negative and is 0 for at least one
      cell, the one holding global_latest. */
  lemma RecencyBounds(rows: seq<PanoRecord>)
    requires Cells(rows) != {}
    ensures forall c :: c in Metrics(rows) ==> Metrics(rows)[c].recencyMonths >= 0
    ensures exists c :: c in Metrics(rows) && Metrics(rows)[c].recencyMonths == 0
    ensures forall c :: c in Metrics(rows) ==>
              Metrics(rows)[c].recencyMonths == MonthIndex(GlobalLatest(rows)) - MonthIndex(Metrics(rows)[c].latestDate)
  {
    forall c | c in Metrics(rows)
      ensures Metrics(rows)[c].recencyMonths == MonthIndex(GlobalLatest(rows)) - MonthIndex(Metrics(rows)[c].latestDate)
    {
      CellHasDates(rows, c);
      var ds := DatesWhere(rows, AtCell(c));
      assert Metrics(rows)[c].recencyMonths == MonthsBetween(Latest(ds), GlobalLatest(rows));
    }
    GlobalLatestIsLatestCell(rows);
    var c :| c in Metrics(rows) && Metrics(rows)[c].latestDate == GlobalLatest(rows);
    assert Metrics(rows)[c].recencyMonths == MonthsBetween(GlobalLatest(rows), GlobalLatest(rows));
  }
}
