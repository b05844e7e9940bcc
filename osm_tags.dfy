/** get_osm_grid_tags_with_road_type.py, once the spatial joins are done:
    the OSM features that intersect a grid cell arrive as a wide frame
    (one row per feature and cell, one column per OSM attribute), are
    melted into (grid_id, tag_key, tag_value) rows, restricted to the
    semantic keys and summarised per cell; every cell also gets a road
    type from the sets of cells that meet any road and a drivable road,
    and a main highway chosen by a priority list. */
module OsmTags {
  import opened Base
  import Seqs

  /** A cell of the joined frame: NaN/None, or a value with its str(). */
  datatype Value = Null | Present(text: string)

  /** A joined feature row: its grid_id and its attribute cells; a column
      the map lacks holds Null. */
  datatype Row = Row(id: int, cells: map<string, Value>)

  /** The joined frame without geometry: column names and rows. */
  datatype Frame = Frame(columns: seq<string>, rows: seq<Row>)

  /** One row of the long table (grid_id, tag_key, tag_value). */
  datatype LongRow = LongRow(gridId: int, key: string, value: string)

  function Get(r: Row, c: string): Value
  {
    if c in r.cells then r.cells[c] else Null
  }

  // ---------------------------------------------------------------- melt_tags

  /** drop_cols: bookkeeping columns that are never tags. */
  function Excluded(idCol: string): set<string>
  {
    {idCol, "id", "osm_id", "timestamp", "version", "changeset", "uid", "layer", "index_right", "source", "z_order"}
  }

  predicate AllNull(rows: seq<Row>, c: string)
  {
    forall r :: r in rows ==> Get(r, c) == Null
  }

  /** A column that melt_tags may turn into tag rows, before the all-null
      test. */
  predicate Allowed(idCol: string, c: string)
  {
    c !in Excluded(idCol) && c != "geometry"
  }

  predicate IsTagColumn(rows: seq<Row>, idCol: string, c: string)
  {
    Allowed(idCol, c) && !AllNull(rows, c)
  }

  /** tag_cols: the columns, in frame order, that are allowed and not all
      null. */
  function TagColumns(rows: seq<Row>, idCol: string, cols: seq<string>): (tc: seq<string>)
    ensures forall c :: c in tc <==> c in cols && IsTagColumn(rows, idCol, c)
    ensures forall c :: multiset(tc)[c] == if IsTagColumn(rows, idCol, c) then multiset(cols)[c] else 0
  {
    if cols == [] then []
    else
      assert forall c :: c in cols <==> c == cols[0] || c in cols[1..];
      assert cols == [cols[0]] + cols[1..];
      (if IsTagColumn(rows, idCol, cols[0]) then [cols[0]] else []) + TagColumns(rows, idCol, cols[1..])
  }

  /** The allowed columns, in frame order, whether null or not. */
  function AllowedColumns(idCol: string, cols: seq<string>): seq<string>
  {
    if cols == [] then []
    else (if Allowed(idCol, cols[0]) then [cols[0]] else []) + AllowedColumns(idCol, cols[1..])
  }

  /** Row r has a value in column c. */
  function PresentIn(c: string): Row -> bool
  {
    (r: Row) => Get(r, c).Present?
  }

  /** Row r is where tag row t comes from: its grid_id, and its cell in
      column t.key holding t.value. */
  function Yields(t: LongRow): Row -> bool
  {
    (r: Row) => r.id == t.gridId && Get(r, t.key) == Present(t.value)
  }

  /** The non-null cells of column c, row by row, as tag rows: one per
      row whose cell is present. */
  function ColumnRows(rows: seq<Row>, c: string): (long: seq<LongRow>)
    ensures |long| <= |rows|
    ensures |long| == |Seqs.Positions(rows, PresentIn(c))|
    ensures forall t :: t in long ==> t.key == c
  {
    if rows == [] then
      Seqs.PositionsNil(PresentIn(c));
      []
    else
      Seqs.PositionsCons(rows, PresentIn(c));
      (match Get(rows[0], c)
       case Null => []
       case Present(v) => [LongRow(rows[0].id, c, v)]) + ColumnRows(rows[1..], c)
  }

  /** The melt to long form with missing values dropped: column after
      column, the rows whose cell is present. */
  function Melt(rows: seq<Row>, cols: seq<string>): (long: seq<LongRow>)
    ensures forall t :: t in long ==> t.key in cols
  {
    if cols == [] then [] else ColumnRows(rows, cols[0]) + Melt(rows, cols[1..])
  }

  /** melt_tags(df, id_col): no tag column gives the empty long table,
      otherwise the melted non-null cells of the tag columns. */
  function MeltTags(f: Frame, idCol: string): (long: seq<LongRow>)
    ensures forall t :: t in long ==> t.key in f.columns && IsTagColumn(f.rows, idCol, t.key)
  {
    var tc := TagColumns(f.rows, idCol, f.columns);
    if tc == [] then [] else Melt(f.rows, tc)
  }

  /** Every tag row of a column comes from a present cell of a row. */
  lemma {:induction false} ColumnRowSource(rows: seq<Row>, c: string, k: nat) returns (i: nat)
    requires k < |ColumnRows(rows, c)|
    ensures i < |rows|
    ensures Get(rows[i], c).Present? && ColumnRows(rows, c)[k] == LongRow(rows[i].id, c, Get(rows[i], c).text)
  {
    var head := match Get(rows[0], c) case Null => [] case Present(v) => [LongRow(rows[0].id, c, v)];
    if k < |head| {
      i := 0;
    } else {
      var j := ColumnRowSource(rows[1..], c, k - |head|);
      i := j + 1;
    }
  }

  /** Every present cell of a column gives a tag row. */
  lemma {:induction false} ColumnRowKept(rows: seq<Row>, c: string, i: nat)
    requires i < |rows| && Get(rows[i], c).Present?
    ensures LongRow(rows[i].id, c, Get(rows[i], c).text) in ColumnRows(rows, c)
  {
    if i > 0 {
      ColumnRowKept(rows[1..], c, i - 1);
    }
  }

  /** Every melted row is a present cell of one of the melted columns. */
  lemma {:induction false} MeltSource(rows: seq<Row>, cols: seq<string>, k: nat) returns (i: nat)
    requires k < |Melt(rows, cols)|
    ensures i < |rows|
    ensures var t := Melt(rows, cols)[k];
            t.key in cols && t.gridId == rows[i].id && Get(rows[i], t.key) == Present(t.value)
  {
    var first := ColumnRows(rows, cols[0]);
    if k < |first| {
      i := ColumnRowSource(rows, cols[0], k);
    } else {
      i := MeltSource(rows, cols[1..], k - |first|);
    }
  }

  /** A tag row occurs in a column's rows once per row it comes from. */
  lemma {:induction false} ColumnRowsCount(rows: seq<Row>, c: string, t: LongRow)
    ensures multiset(ColumnRows(rows, c))[t] == if t.key == c then |Seqs.Positions(rows, Yields(t))| else 0
  {
    if rows == [] {
      Seqs.PositionsNil(Yields(t));
    } else {
      Seqs.PositionsCons(rows, Yields(t));
      ColumnRowsCount(rows[1..], c, t);
      var head := match Get(rows[0], c) case Null => [] case Present(v) => [LongRow(rows[0].id, c, v)];
      assert ColumnRows(rows, c) == head + ColumnRows(rows[1..], c);
      assert multiset(head)[t] == if t.key == c && Yields(t)(rows[0]) then 1 else 0;
    }
  }

  /** A tag row occurs in the melt once per row it comes from and per
      occurrence of its key among the melted columns. */
  lemma {:induction false} MeltCount(rows: seq<Row>, cols: seq<string>, t: LongRow)
    ensures multiset(Melt(rows, cols))[t] == multiset(cols)[t.key] * |Seqs.Positions(rows, Yields(t))|
  {
    if cols != [] {
      ColumnRowsCount(rows, cols[0], t);
      MeltCount(rows, cols[1..], t);
      MultisetHead(cols, t.key);
      assert Melt(rows, cols) == ColumnRows(rows, cols[0]) + Melt(rows, cols[1..]);
      var here := if cols[0] == t.key then 1 else 0;
      AddTimes(here, multiset(cols[1..])[t.key], |Seqs.Positions(rows, Yields(t))|);
    }
  }

  lemma AddTimes(a: nat, b: nat, n: nat)
    ensures (a + b) * n == a * n + b * n
  {
  }

  /** The occurrences of k in a non-empty list: at its head and in its
      tail. */
  lemma MultisetHead(cols: seq<string>, k: string)
    requires cols != []
    ensures multiset(cols)[k] == (if cols[0] == k then 1 else 0) + multiset(cols[1..])[k]
  {
    assert cols == [cols[0]] + cols[1..];
  }

  /** Every present cell of a melted column is melted. */
  lemma {:induction false} MeltKept(rows: seq<Row>, cols: seq<string>, i: nat, c: string)
    requires i < |rows| && c in cols && Get(rows[i], c).Present?
    ensures LongRow(rows[i].id, c, Get(rows[i], c).text) in Melt(rows, cols)
  {
    if c == cols[0] {
      ColumnRowKept(rows, c, i);
    } else {
      MeltKept(rows, cols[1..], i, c);
    }
  }

  /** melt_tags emits exactly the present cells of the tag columns: never
      an excluded column, geometry or an all-null column, every value is
      the str() of a present cell, and each present cell of a tag column
      gives one row (once per time the column name occurs). */
  lemma MeltTagsRows(f: Frame, idCol: string)
    ensures forall t :: t in MeltTags(f, idCol) ==> Allowed(idCol, t.key) && t.key in f.columns
    ensures forall t :: t in MeltTags(f, idCol) ==>
              exists i :: 0 <= i < |f.rows| && f.rows[i].id == t.gridId && Get(f.rows[i], t.key) == Present(t.value)
    ensures forall i, c :: 0 <= i < |f.rows| && c in f.columns && Allowed(idCol, c) && Get(f.rows[i], c).Present? ==>
              LongRow(f.rows[i].id, c, Get(f.rows[i], c).text) in MeltTags(f, idCol)
    ensures forall t: LongRow :: multiset(MeltTags(f, idCol))[t] ==
              (if IsTagColumn(f.rows, idCol, t.key) then multiset(f.columns)[t.key] else 0)
              * |Seqs.Positions(f.rows, Yields(t))|
  {
    var tc := TagColumns(f.rows, idCol, f.columns);
    var long := MeltTags(f, idCol);
    forall t: LongRow
      ensures multiset(long)[t] ==
                (if IsTagColumn(f.rows, idCol, t.key) then multiset(f.columns)[t.key] else 0)
                * |Seqs.Positions(f.rows, Yields(t))|
    {
      MeltCount(f.rows, tc, t);
    }
    forall t | t in long
      ensures Allowed(idCol, t.key) && t.key in f.columns
      ensures exists i :: 0 <= i < |f.rows| && f.rows[i].id == t.gridId && Get(f.rows[i], t.key) == Present(t.value)
    {
      var k :| 0 <= k < |long| && long[k] == t;
      var i := MeltSource(f.rows, tc, k);
    }
    forall i, c | 0 <= i < |f.rows| && c in f.columns && Allowed(idCol, c) && Get(f.rows[i], c).Present?
      ensures LongRow(f.rows[i].id, c, Get(f.rows[i], c).text) in long
    {
      assert f.rows[i] in f.rows;
      assert c in tc;
      MeltKept(f.rows, tc, i, c);
    }
  }

  /** A frame without a tag column melts to nothing. */
  lemma NoTagColumnNoRows(f: Frame, idCol: string)
    ensures MeltTags(f, idCol) == [] <==>
              forall i, c :: 0 <= i < |f.rows| && c in f.columns && Allowed(idCol, c) ==> Get(f.rows[i], c) == Null
  {
    MeltTagsRows(f, idCol);
    if MeltTags(f, idCol) != [] {
      var t := MeltTags(f, idCol)[0];
      assert t in MeltTags(f, idCol);
    }
  }

  /** An all-null column contributes no rows. */
  lemma {:induction false} NullColumnRows(rows: seq<Row>, c: string)
    requires AllNull(rows, c)
    ensures ColumnRows(rows, c) == []
  {
    if rows != [] {
      assert rows[0] in rows;
      assert forall r :: r in rows[1..] ==> r in rows;
      NullColumnRows(rows[1..], c);
    }
  }

  /** Dropping all-null columns does not change the melted rows: melting
      every allowed column gives the same long table. */
  lemma {:induction false} NullColumnsIrrelevant(rows: seq<Row>, idCol: string, cols: seq<string>)
    ensures Melt(rows, TagColumns(rows, idCol, cols)) == Melt(rows, AllowedColumns(idCol, cols))
  {
    if cols != [] {
      var c := cols[0];
      var tcRest := TagColumns(rows, idCol, cols[1..]);
      var acRest := AllowedColumns(idCol, cols[1..]);
      NullColumnsIrrelevant(rows, idCol, cols[1..]);
      if Allowed(idCol, c) {
        if IsTagColumn(rows, idCol, c) {
          assert ([c] + tcRest)[0] == c && ([c] + tcRest)[1..] == tcRest;
        } else {
          NullColumnRows(rows, c);
          assert TagColumns(rows, idCol, cols) == tcRest;
        }
        assert ([c] + acRest)[0] == c && ([c] + acRest)[1..] == acRest;
        assert Melt(rows, AllowedColumns(idCol, cols)) == ColumnRows(rows, c) + Melt(rows, acRest);
      } else {
        assert TagColumns(rows, idCol, cols) == tcRest;
        assert AllowedColumns(idCol, cols) == acRest;
      }
    }
  }

  // ------------------------------------------------------- semantic summary

  const SemanticKeys: seq<string> := ["building", "landuse", "amenity", "natural", "shop", "tourism", "highway"]

  /** The long rows whose key is one of the semantic keys. */
  function SemanticRows(long: seq<LongRow>): (r: seq<LongRow>)
    ensures forall t :: t in r <==> t in long && t.key in SemanticKeys
  {
    Seqs.Filter(long, (t: LongRow) => t.key in SemanticKeys)
  }

  /** The rows of one grid_id group, in row order. */
  function GroupRows(tags: seq<LongRow>, g: int): (group: seq<LongRow>)
    ensures forall t :: t in group <==> t in tags && t.gridId == g
  {
    Seqs.Filter(tags, (t: LongRow) => t.gridId == g)
  }

  function GridsOf(tags: seq<LongRow>): set<int>
  {
    set t | t in tags :: t.gridId
  }

  function Keys(group: seq<LongRow>): (ks: seq<string>)
    ensures |ks| == |group| && forall k :: 0 <= k < |group| ==> ks[k] == group[k].key
  {
    seq(|group|, k requires 0 <= k < |group| => group[k].key)
  }

  function Values(group: seq<LongRow>): (vs: seq<string>)
    ensures |vs| == |group| && forall k :: 0 <= k < |group| ==> vs[k] == group[k].value
  {
    seq(|group|, k requires 0 <= k < |group| => group[k].value)
  }

  datatype TagSummary = TagSummary(keyList: seq<string>, valueList: seq<string>, nTags: nat, uniqueKeys: nat)

  /** tag_key_list, tag_value_list, n_tags = size, unique_keys = nunique. */
  function Summarise(group: seq<LongRow>): TagSummary
  {
    TagSummary(Keys(group), Values(group), |group|, |Seqs.Elements(Keys(group))|)
  }

  /** summary: one row per grid_id that has a tag row. */
  function Summary(tags: seq<LongRow>): (m: map<int, TagSummary>)
    ensures m.Keys == GridsOf(tags)
  {
    map g | g in GridsOf(tags) :: Summarise(GroupRows(tags, g))
  }

  /** A grid of the table has a nonempty group. */
  lemma GroupNonEmpty(tags: seq<LongRow>, g: int)
    requires g in GridsOf(tags)
    ensures |GroupRows(tags, g)| > 0
  {
    var t :| t in tags && t.gridId == g;
    assert t in GroupRows(tags, g);
  }

  // ------------------------------------------------------ pick_main_highway

  const Priority: seq<string> := ["motorway", "trunk", "primary", "secondary", "tertiary",
    "residential", "service", "unclassified", "pedestrian", "track", "path", "footway"]

  /** The first entry of prio that occurs among the values. */
  function FirstPresent(prio: seq<string>, values: seq<string>): (r: Option<string>)
    ensures r.None? <==> forall k :: 0 <= k < |prio| ==> prio[k] !in values
    ensures r.Some? ==> r.value in values && r.value in prio
  {
    if prio == [] then None
    else if prio[0] in values then Some(prio[0])
    else
      var r := FirstPresent(prio[1..], values);
      assert forall k :: 1 <= k < |prio| ==> prio[k] == prio[1..][k - 1];
      r
  }

  /** pick_main_highway: the most important road class present, else the
      first value, else None. */
  function MainHighway(values: seq<string>): (r: Option<string>)
    ensures r.None? <==> values == []
    ensures r.Some? ==> r.value in values
    ensures values != [] && (forall k :: 0 <= k < |Priority| ==> Priority[k] !in values) ==> r == Some(values[0])
  {
    match FirstPresent(Priority, values)
    case Some(p) => Some(p)
    case None => if values != [] then Some(values[0]) else None
  }

  /** The chosen class outranks every other class present: it sits at some
      rank j of the priority list and no class of a smaller rank occurs. */
  lemma {:induction false} FirstPresentEarliest(prio: seq<string>, values: seq<string>) returns (j: nat)
    requires FirstPresent(prio, values).Some?
    ensures j < |prio| && prio[j] == FirstPresent(prio, values).value
    ensures forall k :: 0 <= k < j ==> prio[k] !in values
  {
    if prio[0] in values {
      j := 0;
    } else {
      var j' := FirstPresentEarliest(prio[1..], values);
      j := j' + 1;
    }
  }

  /** When some priority class occurs, pick_main_highway returns the class
      of smallest rank among those present. */
  lemma MainHighwayTopRank(values: seq<string>, i: nat) returns (j: nat)
    requires i < |Priority| && Priority[i] in values
    ensures j <= i && MainHighway(values) == Some(Priority[j])
    ensures forall k :: 0 <= k < j ==> Priority[k] !in values
  {
    j := FirstPresentEarliest(Priority, values);
  }

  /** Searching from rank i: the class at i when it occurs, else the search
      from rank i + 1. */
  lemma FirstPresentFrom(prio: seq<string>, values: seq<string>, i: nat)
    requires i < |prio|
    ensures FirstPresent(prio[i..], values)
            == if prio[i] in values then Some(prio[i]) else FirstPresent(prio[i + 1..], values)
  {
    assert prio[i..][1..] == prio[i + 1..];
  }

  /** The loop of pick_main_highway. */
  method PickMainHighway(values: seq<string>) returns (r: Option<string>)
    ensures r == MainHighway(values)
  {
    var i := 0;
    while i < |Priority|
      invariant 0 <= i <= |Priority|
      invariant FirstPresent(Priority[i..], values) == FirstPresent(Priority, values)
    {
      var p := Priority[i];
      FirstPresentFrom(Priority, values, i);
      if p in values {
        return Some(p);
      }
      i := i + 1;
    }
    assert Priority[i..] == [];
    if values != [] {
      r := Some(values[0]);
    } else {
      r := None;
    }
  }

  /** The long rows whose key is highway. */
  function HighwayRows(tags: seq<LongRow>): (r: seq<LongRow>)
    ensures forall t :: t in r <==> t in tags && t.key == "highway"
  {
    Seqs.Filter(tags, (t: LongRow) => t.key == "highway")
  }

  /** highway_summary: grid_highway for every grid_id with a highway tag. */
  function HighwaySummary(tags: seq<LongRow>): (m: map<int, string>)
    ensures m.Keys == GridsOf(HighwayRows(tags))
  {
    var hw := HighwayRows(tags);
    map g | g in GridsOf(hw) :: (GroupNonEmpty(hw, g); MainHighway(Values(GroupRows(hw, g))).value)
  }

  // -------------------------------------------------------------- road_type

  datatype RoadType = NoRoad | NonDrivable | Drivable

  /** The road type a grid ends with after the three assignments. */
  function RoadTypeOf(g: int, anyRoad: set<int>, driveRoad: set<int>): (rt: RoadType)
    ensures rt == Drivable <==> g in driveRoad
    ensures rt == NonDrivable <==> g in anyRoad && g !in driveRoad
    ensures rt == NoRoad <==> g !in anyRoad && g !in driveRoad
  {
    if g in driveRoad then Drivable else if g in anyRoad then NonDrivable else NoRoad
  }

  /** The road_type column: "no-road" everywhere, then "non-drivable" on the
      grids meeting any road, then "drivable" on the grids meeting a
      drivable road, each pass overwriting the previous one. */
  method ClassifyRoads(ids: seq<int>, anyRoad: set<int>, driveRoad: set<int>) returns (types: seq<RoadType>)
    ensures |types| == |ids|
    ensures forall k :: 0 <= k < |ids| ==> types[k] == RoadTypeOf(ids[k], anyRoad, driveRoad)
    ensures forall k :: 0 <= k < |ids| ==> (types[k] == Drivable <==> ids[k] in driveRoad)
    ensures forall k :: 0 <= k < |ids| ==>
              (types[k] == NonDrivable <==> ids[k] in anyRoad && ids[k] !in driveRoad)
    ensures forall k :: 0 <= k < |ids| ==>
              (types[k] == NoRoad <==> ids[k] !in anyRoad && ids[k] !in driveRoad)
  {
    types := seq(|ids|, _ => NoRoad);
    var k := 0;
    while k < |ids|
      invariant 0 <= k <= |ids| && |types| == |ids|
      invariant forall m :: 0 <= m < k ==> types[m] == (if ids[m] in anyRoad then NonDrivable else NoRoad)
      invariant forall m :: k <= m < |ids| ==> types[m] == NoRoad
    {
      if ids[k] in anyRoad {
        types := types[k := NonDrivable];
      }
      k := k + 1;
    }
    k := 0;
    while k < |ids|
      invariant 0 <= k <= |ids| && |types| == |ids|
      invariant forall m :: 0 <= m < k ==> types[m] == RoadTypeOf(ids[m], anyRoad, driveRoad)
      invariant forall m :: k <= m < |ids| ==> types[m] == (if ids[m] in anyRoad then NonDrivable else NoRoad)
    {
      if ids[k] in driveRoad {
        types := types[k := Drivable];
      }
      k := k + 1;
    }
  }

  // --------------------------------------------------------- the grid table

  /** A grid cell read from the grid CSV. */
  datatype GridCell = GridCell(gridId: int, queryLat: real, queryLon: real)

  /** The grid_id column: the CSV's column when it has one, else 0 .. n - 1. */
  function GridIdColumn(csvIds: Option<seq<int>>, n: nat): (ids: seq<int>)
    requires csvIds.Some? ==> |csvIds.value| == n
    ensures |ids| == n
    ensures csvIds.Some? ==> ids == csvIds.value
    ensures csvIds.None? ==> forall k :: 0 <= k < n ==> ids[k] == k
  {
    match csvIds
    case Some(v) => v
    case None => seq(n, k => k)
  }

  /** One row of the saved table. Absent entries are the NaN the left
      merges leave. */
  datatype GridOut = GridOut(
    gridId: int, queryLat: real, queryLon: real,
    gridHighway: Option<string>, roadType: RoadType,
    nTags: nat, uniqueKeys: nat,
    tagKeyList: Option<seq<string>>, tagValueList: Option<seq<string>>)

  /** The left merge of the grid table with the per-grid summary, n_tags
      and unique_keys set to 0 where a grid has no summary; the summary
      already carries grid_highway. */
  function Output(grid: seq<GridCell>, anyRoad: set<int>, driveRoad: set<int>, tags: seq<LongRow>): (out: seq<GridOut>)
    ensures |out| == |grid|
  {
    var summary := Summary(tags);
    var highway := HighwaySummary(tags);
    seq(|grid|, k requires 0 <= k < |grid| =>
      var c := grid[k];
      var g := c.gridId;
      var hw := if g in summary && g in highway then Some(highway[g]) else None;
      var rt := RoadTypeOf(g, anyRoad, driveRoad);
      if g in summary then
        var s := summary[g];
        GridOut(g, c.queryLat, c.queryLon, hw, rt, s.nTags, s.uniqueKeys, Some(s.keyList), Some(s.valueList))
      else
        GridOut(g, c.queryLat, c.queryLon, hw, rt, 0, 0, None, None))
  }

  /** The whole summary step: melt the joined frame on grid_id, keep the
      semantic keys and merge the summaries into the grid table. */
  function GridTags(grid: seq<GridCell>, anyRoad: set<int>, driveRoad: set<int>, joined: Frame): seq<GridOut>
  {
    Output(grid, anyRoad, driveRoad, SemanticRows(MeltTags(joined, "grid_id")))
  }

  /** Per grid: n_tags counts the grid's tag rows (0 without any),
      unique_keys counts their distinct keys, and 0 <= unique_keys <=
      n_tags with unique_keys = 0 exactly when n_tags = 0. */
  lemma OutputCounts(grid: seq<GridCell>, anyRoad: set<int>, driveRoad: set<int>, tags: seq<LongRow>, k: nat)
    requires k < |grid|
    ensures var o := Output(grid, anyRoad, driveRoad, tags)[k];
            var group := GroupRows(tags, grid[k].gridId);
            o.gridId == grid[k].gridId && o.queryLat == grid[k].queryLat && o.queryLon == grid[k].queryLon &&
            o.nTags == |group| &&
            o.uniqueKeys == |set t | t in group :: t.key| &&
            o.uniqueKeys <= o.nTags && (o.uniqueKeys == 0 <==> o.nTags == 0) &&
            (o.tagKeyList.Some? <==> o.nTags > 0)
  {
    var g := grid[k].gridId;
    var group := GroupRows(tags, g);
    var ks := Keys(group);
    assert Seqs.Elements(ks) == set t | t in group :: t.key by {
      forall x | x in Seqs.Elements(ks) ensures x in set t | t in group :: t.key {
        var i :| 0 <= i < |ks| && ks[i] == x;
        assert group[i] in group;
      }
      forall t | t in group ensures t.key in Seqs.Elements(ks) {
        var i :| 0 <= i < |group| && group[i] == t;
        assert ks[i] == t.key;
      }
    }
    Seqs.CardAtMostLength(ks);
    assert |group| > 0 ==> group[0] in group && ks[0] in Seqs.Elements(ks);
    if g in Summary(tags) {
      GroupNonEmpty(tags, g);
    }
  }

  /** Per grid: the key and value lists are the grid's tag rows, in order,
      and every listed key is a semantic key when the rows are. */
  lemma OutputLists(grid: seq<GridCell>, anyRoad: set<int>, driveRoad: set<int>, tags: seq<LongRow>, k: nat)
    requires k < |grid|
    requires forall t :: t in tags ==> t.key in SemanticKeys
    ensures var o := Output(grid, anyRoad, driveRoad, tags)[k];
            var group := GroupRows(tags, grid[k].gridId);
            o.tagKeyList.Some? ==>
              o.tagKeyList.value == Keys(group) && o.tagValueList == Some(Values(group)) &&
              forall key :: key in o.tagKeyList.value ==> key in SemanticKeys
  {
    var g := grid[k].gridId;
    var group := GroupRows(tags, g);
    forall key | key in Keys(group) ensures key in SemanticKeys {
      var i :| 0 <= i < |group| && Keys(group)[i] == key;
      assert group[i] in group;
    }
  }

  /** Per grid: grid_highway is present exactly when the grid has a
      highway tag row, and then it is one of those rows' values, chosen by
      pick_main_highway from them in row order. */
  lemma OutputHighway(grid: seq<GridCell>, anyRoad: set<int>, driveRoad: set<int>, tags: seq<LongRow>, k: nat)
    requires k < |grid|
    ensures var o := Output(grid, anyRoad, driveRoad, tags)[k];
            var hw := GroupRows(HighwayRows(tags), grid[k].gridId);
            (o.gridHighway.Some? <==> |hw| > 0) &&
            (o.gridHighway.Some? ==> o.gridHighway == MainHighway(Values(hw)) && o.gridHighway.value in Values(hw))
  {
    var g := grid[k].gridId;
    var hwRows := HighwayRows(tags);
    var hw := GroupRows(hwRows, g);
    if |hw| > 0 {
      assert hw[0] in hwRows;
      assert hw[0] in tags;
      assert g in GridsOf(tags);
      assert g in GridsOf(hwRows);
    } else if g in GridsOf(hwRows) {
      GroupNonEmpty(hwRows, g);
    }
  }

  /** Per grid: the road type follows the three tiers. */
  lemma OutputRoadType(grid: seq<GridCell>, anyRoad: set<int>, driveRoad: set<int>, tags: seq<LongRow>, k: nat)
    requires k < |grid|
    ensures var o := Output(grid, anyRoad, driveRoad, tags)[k];
            (o.roadType == Drivable <==> grid[k].gridId in driveRoad) &&
            (o.roadType == NonDrivable <==> grid[k].gridId in anyRoad && grid[k].gridId !in driveRoad) &&
            (o.roadType == NoRoad <==> grid[k].gridId !in anyRoad && grid[k].gridId !in driveRoad)
  {
  }

  /** The keys that reach the saved lists are semantic keys of tag
      columns of the joined frame. */
  lemma GridTagsKeys(grid: seq<GridCell>, anyRoad: set<int>, driveRoad: set<int>, joined: Frame, k: nat)
    requires k < |grid|
    ensures var o := GridTags(grid, anyRoad, driveRoad, joined)[k];
            o.tagKeyList.Some? ==>
              forall key :: key in o.tagKeyList.value ==>
                key in SemanticKeys && key in joined.columns && Allowed("grid_id", key)
  {
    var tags := SemanticRows(MeltTags(joined, "grid_id"));
    MeltTagsRows(joined, "grid_id");
    OutputLists(grid, anyRoad, driveRoad, tags, k);
    var group := GroupRows(tags, grid[k].gridId);
    forall key | key in Keys(group) ensures key in joined.columns && Allowed("grid_id", key) {
      var i :| 0 <= i < |group| && Keys(group)[i] == key;
      assert group[i] in group;
    }
  }

  /** A cell meeting only a footway and no drivable way is non-drivable
      and its main highway is the footway. */
  lemma FootwayOnlyCell()
    ensures var o := Output([GridCell(7, 55.86, -4.25)], {7}, {}, [LongRow(7, "highway", "footway")])[0];
            o.roadType == NonDrivable && o.gridHighway == Some("footway") && o.nTags == 1 && o.uniqueKeys == 1
  {
    var grid := [GridCell(7, 55.86, -4.25)];
    var tags := [LongRow(7, "highway", "footway")];
    assert tags[1..] == [];
    assert HighwayRows(tags) == tags;
    assert GroupRows(tags, 7) == tags;
    assert Values(tags) == ["footway"];
    OutputHighway(grid, {7}, {}, tags, 0);
    OutputCounts(grid, {7}, {}, tags, 0);
    assert (set t | t in tags :: t.key) == {"highway"};
  }
}
