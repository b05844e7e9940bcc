/** analysis.py: the per-grid temporal summary agg_time, applied to every
    grid_id group of the merged street-view/OSM table. Each row's "date"
    text is either missing, unparseable, or parsed (as day/month/year) to
    a calendar month; all
    arithmetic is on the month index year * 12 + month. */
module TemporalAggregator {
  import opened Base
  import opened Months
  import Seqs
  import opened IntSeqs

  /** The "date" column of one row after parsing with errors="coerce". */
  datatype DateText = Missing | Unparsed(text: string) | Parsed(text: string, month: YearMonth)

  /** One row of merged_svi_osm.csv, reduced to the columns agg_time reads. */
  datatype MergedRow = MergedRow(gridId: int, panoid: Option<string>, date: DateText)

  datatype TimeSummary = TimeSummary(
    firstDate: Option<string>,
    latestDate: Option<string>,
    nDates: nat,
    nPanos: nat,
    maxGapMonths: Option<int>,
    spanMonths: Option<int>,
    recencyMonths: Option<int>)

  predicate HasIndex(r: MergedRow, k: int)
  {
    r.date.Parsed? && MonthIndex(r.date.month) == k
  }

  predicate IsParsed(r: MergedRow)
  {
    r.date.Parsed?
  }

  /** The month indices of the rows whose date parsed, in row order, with
      the missing ones dropped: one index per parsed row. */
  function Indices(rows: seq<MergedRow>): (idx: seq<int>)
    ensures |idx| == |Seqs.Positions(rows, IsParsed)|
    ensures |idx| <= |rows|
  {
    if rows == [] then
      Seqs.PositionsNil(IsParsed);
      []
    else
      Seqs.PositionsCons(rows, IsParsed);
      var rest := Indices(rows[1..]);
      if rows[0].date.Parsed? then [MonthIndex(rows[0].date.month)] + rest else rest
  }

  /** Every parsed row contributes its index. */
  lemma {:induction false} IndexOfRow(rows: seq<MergedRow>, i: nat)
    requires i < |rows| && rows[i].date.Parsed?
    ensures MonthIndex(rows[i].date.month) in Indices(rows)
  {
    if i > 0 {
      IndexOfRow(rows[1..], i - 1);
    }
  }

  /** The text of the first row, in group order, whose month index is k
      (df.loc[index == k, "date"].iloc[0]); None when there is no such
      row, where iloc[0] would raise. */
  function FirstTextWithIndex(rows: seq<MergedRow>, k: int): Option<string>
  {
    if rows == [] then None
    else if HasIndex(rows[0], k) then Some(rows[0].date.text)
    else FirstTextWithIndex(rows[1..], k)
  }

  /** Every index of the list comes from a parsed row, and the first such
      row supplies the text FirstTextWithIndex picks. */
  lemma {:induction false} FirstRowWithIndex(rows: seq<MergedRow>, k: int) returns (i: nat)
    requires k in Indices(rows)
    ensures i < |rows| && HasIndex(rows[i], k)
    ensures FirstTextWithIndex(rows, k) == Some(rows[i].date.text)
    ensures forall j :: 0 <= j < i ==> !HasIndex(rows[j], k)
  {
    if HasIndex(rows[0], k) {
      i := 0;
    } else {
      assert Indices(rows) == (if rows[0].date.Parsed? then [MonthIndex(rows[0].date.month)] else [])
                              + Indices(rows[1..]);
      var j := FirstRowWithIndex(rows[1..], k);
      i := j + 1;
      forall j' | 0 <= j' < i ensures !HasIndex(rows[j'], k) {
        if j' > 0 {
          assert rows[j'] == rows[1..][j' - 1];
        }
      }
    }
  }

  /** The number of distinct non-missing panoids. */
  function NPanos(rows: seq<MergedRow>): nat
  {
    |set r | r in rows && r.panoid.Some? :: r.panoid.value|
  }

  /** The latest parsed month index of the whole table. */
  function GlobalMax(table: seq<MergedRow>): int
    requires |Indices(table)| > 0
  {
    MaxOf(Indices(table))
  }

  /** The summary of a group with at least one parsed date, from its
      sorted month indices and the table-wide latest index. */
  function DatedSummary(group: seq<MergedRow>, sorted: seq<int>, globalMax: int): TimeSummary
    requires |sorted| > 0
  {
    var first := sorted[0];
    var last := sorted[|sorted| - 1];
    TimeSummary(
      FirstTextWithIndex(group, first),
      FirstTextWithIndex(group, last),
      |Seqs.Elements(sorted)|,
      NPanos(group),
      if |sorted| > 1 then Some(MaxGap(sorted)) else None,
      Some(last - first),
      Some(globalMax - last))
  }

  /** agg_time for one grid group of the table: n_panos always; the span
      and the recency exactly when a date parsed; the largest gap exactly
      when two or more rows parsed. */
  function AggTime(group: seq<MergedRow>, table: seq<MergedRow>): (s: TimeSummary)
    requires forall r :: r in group ==> r in table
    ensures s.nPanos == NPanos(group)
    ensures s.spanMonths.Some? <==> exists r :: r in group && r.date.Parsed?
    ensures s.recencyMonths.Some? <==> exists r :: r in group && r.date.Parsed?
    ensures s.maxGapMonths.Some? <==> |Seqs.Positions(group, IsParsed)| >= 2
  {
    var idx := Indices(group);
    ParsedRowsIndexed(group);
    if |idx| == 0 then
      TimeSummary(None, None, 0, NPanos(group), None, None, None)
    else
      SortSameValues(idx);
      TableHasDates(group, table);
      DatedSummary(group, Sort(idx), GlobalMax(table))
  }

  /** A group has an index exactly when one of its rows parsed. */
  lemma ParsedRowsIndexed(group: seq<MergedRow>)
    ensures |Indices(group)| > 0 <==> exists r :: r in group && r.date.Parsed?
  {
    if |Indices(group)| > 0 {
      var i := FirstRowWithIndex(group, Indices(group)[0]);
      assert group[i] in group;
    }
    if r :| r in group && r.date.Parsed? {
      var i :| 0 <= i < |group| && group[i] == r;
      IndexOfRow(group, i);
    }
  }

  function GridIds(table: seq<MergedRow>): set<int>
  {
    set r | r in table :: r.gridId
  }

  /** The rows grid_summary groups under g: g's rows, in table order. */
  function GridRows(table: seq<MergedRow>, g: int): (group: seq<MergedRow>)
    ensures forall r :: r in group <==> r in table && r.gridId == g
  {
    Seqs.Filter(table, (r: MergedRow) => r.gridId == g)
  }

  /** grid_summary, agg_time applied to each grid_id group: one summary
      per grid_id of the table, computed from that grid's rows in table
      order. */
  function GridSummary(table: seq<MergedRow>): (m: map<int, TimeSummary>)
    ensures m.Keys == GridIds(table)
  {
    map g | g in GridIds(table) :: AggTime(GridRows(table, g), table)
  }

  /** For a group with a parsed date, agg_time is DatedSummary of its
      sorted indices. */
  lemma AggTimeDated(group: seq<MergedRow>, table: seq<MergedRow>)
    requires forall r :: r in group ==> r in table
    requires |Indices(group)| > 0
    ensures |Indices(table)| > 0 && |Sort(Indices(group))| == |Indices(group)|
    ensures AggTime(group, table) == DatedSummary(group, Sort(Indices(group)), GlobalMax(table))
  {
    SortSameValues(Indices(group));
    TableHasDates(group, table);
  }

  /** A dated group makes the whole table dated. */
  lemma TableHasDates(group: seq<MergedRow>, table: seq<MergedRow>)
    requires forall r :: r in group ==> r in table
    requires |Indices(group)| > 0
    ensures |Indices(table)| > 0
  {
    var idx := Indices(group);
    var i := FirstRowWithIndex(group, idx[0]);
    assert group[i] in table;
    var j :| 0 <= j < |table| && table[j] == group[i];
    IndexOfRow(table, j);
  }

  /** A group without a parseable date yields n_dates = 0 and no
      first/latest date, gap, span or recency; n_panos is counted either
      way. */
  lemma UndatedGroup(group: seq<MergedRow>, table: seq<MergedRow>)
    requires forall r :: r in group ==> r in table
    ensures AggTime(group, table).nPanos == NPanos(group)
    ensures AggTime(group, table).nDates == 0 <==> forall r :: r in group ==> !r.date.Parsed?
    ensures AggTime(group, table).nDates == 0 ==>
              AggTime(group, table) == TimeSummary(None, None, 0, NPanos(group), None, None, None)
  {
    var idx := Indices(group);
    if |idx| > 0 {
      AggTimeDated(group, table);
      assert Sort(idx)[0] in Seqs.Elements(Sort(idx));
      var i := FirstRowWithIndex(group, idx[0]);
      assert group[i] in group;
    } else {
      forall r | r in group ensures !r.date.Parsed? {
        var i :| 0 <= i < |group| && group[i] == r;
        if r.date.Parsed? {
          IndexOfRow(group, i);
        }
      }
    }
  }

  /** n_dates counts distinct month indices; with a date it lies between 1
      and the number of dated rows. */
  lemma DistinctMonthCount(group: seq<MergedRow>, table: seq<MergedRow>)
    requires forall r :: r in group ==> r in table
    ensures AggTime(group, table).nDates == |Seqs.Elements(Indices(group))|
    ensures |Indices(group)| > 0 ==> 1 <= AggTime(group, table).nDates <= |Indices(group)|
  {
    var idx := Indices(group);
    if |idx| > 0 {
      AggTimeDated(group, table);
      SortedElements(idx);
      Seqs.CardAtMostLength(idx);
    }
  }

  /** Sorting keeps the set of values, which is non-empty for a non-empty
      list. */
  lemma SortedElements(idx: seq<int>)
    requires |idx| > 0
    ensures Seqs.Elements(Sort(idx)) == Seqs.Elements(idx)
    ensures |Seqs.Elements(idx)| >= 1
  {
    SortSameValues(idx);
    forall x ensures x in Seqs.Elements(Sort(idx)) <==> x in Seqs.Elements(idx) {
    }
    assert idx[0] in Seqs.Elements(idx);
  }

  /** span_months is the largest minus the smallest month index of the
      group, so it is never negative. */
  lemma SpanIsRange(group: seq<MergedRow>, table: seq<MergedRow>)
    requires forall r :: r in group ==> r in table
    requires |Indices(group)| > 0
    ensures AggTime(group, table).spanMonths.Some?
    ensures AggTime(group, table).spanMonths.value >= 0
    ensures forall a, b :: a in Indices(group) && b in Indices(group) ==>
              b - a <= AggTime(group, table).spanMonths.value
    ensures exists a, b :: a in Indices(group) && b in Indices(group) &&
              b - a == AggTime(group, table).spanMonths.value
  {
    AggTimeDated(group, table);
    SortedEnds(Indices(group));
  }

  /** span_months is 0 exactly when the group has a single distinct month
      (n_dates == 1). */
  lemma SpanZeroIffOneMonth(group: seq<MergedRow>, table: seq<MergedRow>)
    requires forall r :: r in group ==> r in table
    requires |Indices(group)| > 0
    ensures AggTime(group, table).spanMonths == Some(0) <==> AggTime(group, table).nDates == 1
  {
    var idx := Indices(group);
    AggTimeDated(group, table);
    SortedEnds(idx);
    var s := Sort(idx);
    DistinctMonthCount(group, table);
    SingleValue(idx, s[0], s[|s| - 1]);
  }

  /** Between the minimum lo and maximum hi of a list, the list holds a
      single distinct value exactly when lo == hi. */
  lemma SingleValue(idx: seq<int>, lo: int, hi: int)
    requires lo in idx && hi in idx
    requires forall x :: x in idx ==> lo <= x <= hi
    ensures hi == lo <==> |Seqs.Elements(idx)| == 1
  {
    var e := Seqs.Elements(idx);
    assert lo in e && hi in e;
    if hi == lo {
      forall x | x in e ensures x == lo {
        assert x in idx;
      }
      assert e == {lo};
    }
    if |e| == 1 {
      assert |e - {lo}| == 0;
      assert hi !in e - {lo};
    }
  }

  /** max_gap_months exists exactly when the group has two or more dated
      rows (rows, not distinct months), and lies between 0 and
      span_months. */
  lemma GapWithinSpan(group: seq<MergedRow>, table: seq<MergedRow>)
    requires forall r :: r in group ==> r in table
    ensures AggTime(group, table).maxGapMonths.Some? <==> |Indices(group)| >= 2
    ensures AggTime(group, table).maxGapMonths.Some? ==>
              0 <= AggTime(group, table).maxGapMonths.value <= AggTime(group, table).spanMonths.value
  {
    var idx := Indices(group);
    if |idx| >= 2 {
      AggTimeDated(group, table);
      var s := Sort(idx);
      GapBounds(s);
    }
  }

  /** recency_months is the table-wide latest month index minus the
      group's latest, hence never negative. */
  lemma RecencyNonNegative(group: seq<MergedRow>, table: seq<MergedRow>)
    requires forall r :: r in group ==> r in table
    requires |Indices(group)| > 0
    ensures |Indices(table)| > 0
    ensures AggTime(group, table).recencyMonths.Some?
    ensures AggTime(group, table).recencyMonths.value >= 0
    ensures forall a :: a in Indices(group) ==>
              AggTime(group, table).recencyMonths.value <= GlobalMax(table) - a
    ensures exists a :: a in Indices(group) &&
              AggTime(group, table).recencyMonths.value == GlobalMax(table) - a
  {
    var idx := Indices(group);
    AggTimeDated(group, table);
    SortedEnds(idx);
    var last := Sort(idx)[|idx| - 1];
    var g := GlobalMax(table);
    assert AggTime(group, table).recencyMonths == Some(g - last);
    IndexInTable(group, table, last);
    assert last <= g;
    assert last in idx;
  }

  /** A month index of a group is a month index of the table. */
  lemma IndexInTable(group: seq<MergedRow>, table: seq<MergedRow>, a: int)
    requires forall r :: r in group ==> r in table
    requires a in Indices(group)
    ensures a in Indices(table)
  {
    var i := FirstRowWithIndex(group, a);
    assert group[i] in table;
    var j :| 0 <= j < |table| && table[j] == group[i];
    IndexOfRow(table, j);
  }

  /** first_date and latest_date are the original texts of the first rows,
      in group order, holding the smallest and the largest month index. */
  lemma FirstAndLatestText(group: seq<MergedRow>, table: seq<MergedRow>)
    requires forall r :: r in group ==> r in table
    requires |Indices(group)| > 0
    ensures exists i :: 0 <= i < |group| && group[i].date.Parsed?
              && AggTime(group, table).firstDate == Some(group[i].date.text)
              && (forall a :: a in Indices(group) ==> MonthIndex(group[i].date.month) <= a)
              && (forall j :: 0 <= j < i ==> !HasIndex(group[j], MonthIndex(group[i].date.month)))
    ensures exists i :: 0 <= i < |group| && group[i].date.Parsed?
              && AggTime(group, table).latestDate == Some(group[i].date.text)
              && (forall a :: a in Indices(group) ==> a <= MonthIndex(group[i].date.month))
              && (forall j :: 0 <= j < i ==> !HasIndex(group[j], MonthIndex(group[i].date.month)))
  {
    var idx := Indices(group);
    AggTimeDated(group, table);
    SortedEnds(idx);
    var s := Sort(idx);
    var lo, hi := s[0], s[|s| - 1];
    var i := FirstRowWithIndex(group, lo);
    var k := FirstRowWithIndex(group, hi);
  }

  /** A grid's summary has dates exactly when one of its rows parsed, and
      its recency is then never negative. */
  lemma GridSummaryDated(table: seq<MergedRow>, g: int)
    requires g in GridIds(table)
    ensures g in GridSummary(table)
    ensures GridSummary(table)[g].nDates > 0 <==>
              exists r :: r in table && r.gridId == g && r.date.Parsed?
    ensures GridSummary(table)[g].recencyMonths.Some? ==> GridSummary(table)[g].recencyMonths.value >= 0
  {
    var group := GridRows(table, g);
    assert GridSummary(table)[g] == AggTime(group, table);
    UndatedGroup(group, table);
    if |Indices(group)| > 0 {
      RecencyNonNegative(group, table);
    }
  }

  /** The grid holding the table's latest month has recency_months 0. */
  lemma LatestGridRecencyZero(table: seq<MergedRow>)
    requires |Indices(table)| > 0
    ensures exists g :: g in GridSummary(table) && GridSummary(table)[g].recencyMonths == Some(0)
  {
    var i := FirstRowWithIndex(table, GlobalMax(table));
    var g := table[i].gridId;
    var group := GridRows(table, g);
    assert table[i] in group;
    var j :| 0 <= j < |group| && group[j] == table[i];
    IndexOfRow(group, j);
    GroupWithLatest(group, table);
    assert g in GridIds(table);
    assert GridSummary(table)[g] == AggTime(group, table);
  }

  lemma GroupWithLatest(group: seq<MergedRow>, table: seq<MergedRow>)
    requires forall r :: r in group ==> r in table
    requires |Indices(table)| > 0 && GlobalMax(table) in Indices(group)
    ensures AggTime(group, table).recencyMonths == Some(0)
  {
    RecencyNonNegative(group, table);
    var rec := AggTime(group, table).recencyMonths.value;
    assert rec <= GlobalMax(table) - GlobalMax(table);
  }

  /** The worked example: indices [2019*12+3, 2019*12+3, 2021*12+7] give
      two distinct months, a span of 28 months and a largest gap of 28. */
  lemma WorkedExample()
    ensures var s := Sort([2019 * 12 + 3, 2019 * 12 + 3, 2021 * 12 + 7]);
            |Seqs.Elements(s)| == 2 && s[2] - s[0] == 28 && MaxGap(s) == 28
  {
    var a, b := 2019 * 12 + 3, 2021 * 12 + 7;
    SortedUnique(Sort([a, a, b]), [a, a, b]);
    var s := Sort([a, a, b]);
    assert Seqs.Elements(s) == {2019 * 12 + 3, 2021 * 12 + 7};
  }

  /** Two rows in the same month: the gap is defined (there are two rows)
      and equals 0, although there is only one distinct month. */
  lemma SameMonthRowsGapZero()
    ensures var s := Sort([2020 * 12 + 5, 2020 * 12 + 5]);
            |Seqs.Elements(s)| == 1 && MaxGap(s) == 0
  {
    var a := 2020 * 12 + 5;
    SortedUnique(Sort([a, a]), [a, a]);
    var s := Sort([a, a]);
    assert Seqs.Elements(s) == {2020 * 12 + 5};
  }
}
