# Glasgow street-view fairness pipeline, modelled in Dafny

This project models the data-processing core of the Glasgow street-view
fairness scripts. The pipeline has six stages:

1. **Grid generation** (`generate_grids.py`). Build a 20 m lattice of
   candidate points over the city's bounding box, keep those inside the
   boundary, and number them.
2. **Metadata fetch** (`fetch_svi_metadata_glasgow.py`; `fetch_meta_data_glasgow.py`
   is the same program with translated messages, so one model covers both).
   Query a street-view provider at every grid centre that is not yet in the
   output file. Buffer the non-empty answers and append them to the output
   every 50 answers and at the end.
3. **Cleaning** (`filter_metadata.py`). Drop undated rows. Keep, for each
   panorama, the first row of smallest `distance_m`.
4. **Temporal summaries**:
   - `analysis.py`, `agg_time`: first and latest date, distinct months,
     panorama count, largest gap, span and recency, all in month indices
     `year * 12 + month`.
   - `analysis_svi_osm.py`, `svi_summary`: dated count and latest date per
     grid after deduplicating (grid, year, month).
   - `generate_distribution.py`: dated count, spreading months, latest date
     and recency per query point.
5. **OSM tag summary** (`get_osm_grid_tags_with_road_type.py`):
   - `melt_tags` turns the joined feature frame into (grid_id, tag_key,
     tag_value) rows.
   - The rows are restricted to the semantic keys and counted per grid.
   - `pick_main_highway` chooses one highway class by priority.
   - The road type follows three tiers: drivable, non-drivable, no-road.
6. **Final grid table**: the OSM tag summary and the main highway of stage 5
   are merged into the grid table, with zero-fill for the counts. The
   temporal summaries of stage 4 are separate outputs and are not merged.

Modules follow the scripts. The shared modules are:
- `Base`: Option and Result.
- `Months`: calendar months and month indices.
- `Seqs`: filter, concat, drop_duplicates.
- `Records`: one metadata row.
- `IntSeqs`: `np.sort`, `np.diff`, `np.max`.

Pure pandas chains are functions with lemmas. The script loops are methods
with loop invariants, proved against specification functions:
- the fetch loop with its batch buffer (class `MetadataFetcher.Fetcher`);
- the lattice loop (`Grids.Enumerate`);
- `process_panoids_with_distance` (`MetadataFetcher.ProcessPanoids`);
- `pick_main_highway` (`OsmTags.PickMainHighway`);
- the successive road-type passes (`OsmTags.ClassifyRoads`).

Where the code and its documented intent differ, the model follows the code:
- `max_gap_months` (analysis.py:40) is `np.max(np.diff(np.sort(idx)))` over
  all dated rows, not over distinct months. Two panoramas taken in the same
  month give a gap of 0, not an undefined gap (`TemporalAggregator.SameMonthRowsGapZero`).
- `dated_count` in generate_distribution.py (lines 34-38) is the size of
  the group, so it counts rows, not distinct dates: two panoramas of one
  cell taken in the same month count 2 (`Distribution.SameMonthRowsCountTwice`).
- The fetch loop counts buffered frames, that is centres with a non-empty
  answer, toward the flush threshold. Centres that are skipped, fail or
  answer empty do not count.
- When no priority class is present, `pick_main_highway` returns the first
  value in row order. It is not an arbitrary value.
- `agg_time` emits a row for every grid_id group, including groups without
  a parseable date.

## Model

| member | source | states |
|---|---|---|
| Months.IndexOrder | glasgow/scripts/analysis.py:13 | month index order is chronological order of (year, month), and equal indices mean the same month |
| Months.MonthsBetween | glasgow/scripts/generate_distribution.py:46-47 | months from a to b is the difference of month indices; it is non-negative exactly when a is not after b and zero exactly when a == b |
| Months.Latest | glasgow/scripts/analysis_svi_osm.py:38 | the maximum date is one of the dates and no date is later |
| Months.Earliest | glasgow/scripts/generate_distribution.py:41-45 | the minimum date is one of the dates and no date is earlier |
| Seqs.Filter | glasgow/scripts/analysis_svi_osm.py:24 | a boolean mask keeps exactly the rows that satisfy it, each as many times as it occurs, and drops every other row |
| Seqs.KeepFirst | glasgow/scripts/analysis_svi_osm.py:30 | drop_duplicates(keep='first') keeps only input rows, all keys survive, kept keys are pairwise distinct, and each kept row is the first with its key |
| Seqs.KeepFirstInOrder | glasgow/scripts/analysis_svi_osm.py:30 | the kept rows appear in input order: each sits at the first input index with its key, and those indices increase |
| Seqs.FlattenConcat | glasgow/scripts/fetch_svi_metadata_glasgow.py:108 | concatenating two lists of frames concatenates their rows |
| MetadataFetcher.Observe | glasgow/scripts/fetch_svi_metadata_glasgow.py:34-53 | a written row carries the centre's query point and grid_id and the item's panoid, position, year and month |
| MetadataFetcher.ObserveAll | glasgow/scripts/fetch_svi_metadata_glasgow.py:34-53 | one row per item, in item order |
| MetadataFetcher.ProcessPanoids | glasgow/scripts/fetch_svi_metadata_glasgow.py:34-53 | the loop builds exactly the rows of the items in order |
| MetadataFetcher.DoneSet | glasgow/scripts/fetch_svi_metadata_glasgow.py:72-75 | done_set holds the query point of every row already in the output and nothing else |
| MetadataFetcher.Considered | glasgow/scripts/fetch_svi_metadata_glasgow.py:82-87 | in experiment mode the first EXPERIMENT_N centres, all of them when there are fewer, otherwise all centres |
| MetadataFetcher.Fetcher.constructor | glasgow/scripts/fetch_svi_metadata_glasgow.py:71-77 | done_set is the set of query points already in the output; the batch starts empty |
| MetadataFetcher.Fetcher.Flush | glasgow/scripts/fetch_svi_metadata_glasgow.py:106-110 | the output grows by the concatenated batch and the batch is emptied |
| MetadataFetcher.Fetcher.Visit | glasgow/scripts/fetch_svi_metadata_glasgow.py:95-115 | a skipped, failed or empty centre changes nothing; an answered one adds its frame; the batch is written to the output and emptied exactly when it reaches save_every, so it stays below save_every |
| MetadataFetcher.Fetcher.Run | glasgow/scripts/fetch_svi_metadata_glasgow.py:92-120 | after the loop and the final flush the output is the old output followed by the rows of every considered, not-done, answered centre in centre order, and the batch is empty |
| MetadataFetcher.BufferedRows | glasgow/scripts/fetch_svi_metadata_glasgow.py:104-110 | whether or not a step flushes, output plus batch grow by exactly the step's rows |
| MetadataFetcher.CollectedStep | glasgow/scripts/fetch_svi_metadata_glasgow.py:95-104 | visiting one more centre appends its contribution to the collected rows |
| MetadataFetcher.RowSource | glasgow/scripts/fetch_svi_metadata_glasgow.py:95-104 | every collected row is the row of an item the provider returned for a considered centre that was not done |
| MetadataFetcher.Collected | glasgow/scripts/fetch_svi_metadata_glasgow.py:92-104 | every row a run appends has a query point outside done_set and carries the query point and grid_id of a centre of the run |
| MetadataFetcher.AnsweredCentreCollected | glasgow/scripts/fetch_svi_metadata_glasgow.py:99-104 | a not-done centre with a non-empty answer has the row of every item of its answer collected |
| MetadataFetcher.NothingToCollect | glasgow/scripts/fetch_svi_metadata_glasgow.py:96-101 | centres that are all done, failed or empty add no rows |
| MetadataFetcher.ResumeCollectsNothing | glasgow/scripts/fetch_svi_metadata_glasgow.py:71-101 | a second run whose done_set is rebuilt from the grown output collects nothing for the same centres and answers: no query point's results are duplicated |
| MetadataFetcher.ResumeCollectsOnlyUnanswered | glasgow/scripts/fetch_svi_metadata_glasgow.py:71-101 | a resumed run, whatever its provider now answers, collects rows only for points that were not done before and whose first answer failed or was empty |
| MetadataFetcher.AnsweredPointDone | glasgow/scripts/fetch_svi_metadata_glasgow.py:71-101 | after a run, every centre that got a non-empty answer is in the rebuilt done_set |
| MetadataFetcher.FailedPointRetried | glasgow/scripts/fetch_svi_metadata_glasgow.py:71-115 | a point whose provider call fails or answers empty does not enter done_set, so the next run queries it again |
| MetadataCleaner.IdxMin | glasgow/scripts/filter_metadata.py:36 | idxmin for one panoid is None exactly when it has no dated row, else the position of a dated row of minimum distance_m, strictly below every earlier candidate's distance (first on ties) |
| MetadataCleaner.Clean | glasgow/scripts/filter_metadata.py:33-36 | cleaning only selects: every cleaned row is an unchanged dated input row |
| MetadataCleaner.CleanPanoidsUnique | glasgow/scripts/filter_metadata.py:36 | after cleaning panoid is a unique key |
| MetadataCleaner.CleanCoversDatedPanoids | glasgow/scripts/filter_metadata.py:33-36 | the cleaned panoids are exactly the panoids with a dated row |
| MetadataCleaner.CleanCount | glasgow/scripts/filter_metadata.py:33-36 | one cleaned row per distinct dated panoid |
| MetadataCleaner.CleanKeepsFirstNearest | glasgow/scripts/filter_metadata.py:36 | each kept row has the minimum distance_m among its panoid's dated rows and every earlier such row is strictly farther |
| MetadataCleaner.KeptUpToDistinct | glasgow/scripts/filter_metadata.py:36 | the rows kept so far have pairwise different panoids |
| IntSeqs.InsertionSort | glasgow/scripts/analysis.py:34 | every list of month indices has an ascending permutation |
| IntSeqs.SortedUnique | glasgow/scripts/analysis.py:34 | two ascending lists with the same values are equal, so np.sort's result is determined |
| IntSeqs.Sort | glasgow/scripts/analysis.py:34 | np.sort returns the ascending permutation of its input |
| IntSeqs.SortSameValues | glasgow/scripts/analysis.py:34 | sorting keeps the length and the values |
| IntSeqs.SortedEnds | glasgow/scripts/analysis.py:34-36 | the first and last sorted entries are the minimum and maximum of the input |
| IntSeqs.MaxGap | glasgow/scripts/analysis.py:40 | np.max(np.diff(s)) is one of the neighbour differences and no neighbour difference is larger |
| IntSeqs.GapBounds | glasgow/scripts/analysis.py:40 | on a sorted list the largest gap lies between 0 and last minus first |
| IntSeqs.MaxOf | glasgow/scripts/analysis.py:58 | month_index.max() is an entry and no entry is larger |
| TemporalAggregator.Indices | glasgow/scripts/analysis.py:19-22 | exactly one month index per row whose date parsed |
| TemporalAggregator.IndexOfRow | glasgow/scripts/analysis.py:19-22 | every parsed row contributes its month index |
| TemporalAggregator.FirstRowWithIndex | glasgow/scripts/analysis.py:45-49 | df.loc[index == k, "date"].iloc[0] is the text of the first row in group order whose index is k |
| TemporalAggregator.AggTime | glasgow/scripts/analysis.py:18-59 | n_panos is always the distinct panoid count; span and recency are present exactly when some row's date parsed; the largest gap exactly when two or more rows parsed |
| TemporalAggregator.ParsedRowsIndexed | glasgow/scripts/analysis.py:19-26 | a group has a month index exactly when one of its rows parsed |
| TemporalAggregator.GridRows | glasgow/scripts/analysis.py:14 | a grid's group holds exactly the table's rows with that grid_id |
| TemporalAggregator.GridSummary | glasgow/scripts/analysis.py:62 | grid_summary has one entry per grid_id of the table |
| TemporalAggregator.TableHasDates | glasgow/scripts/analysis.py:58 | a dated group makes month_index.max() defined |
| TemporalAggregator.UndatedGroup | glasgow/scripts/analysis.py:23-32 | n_panos is always the distinct panoid count; n_dates is 0 exactly when no date parsed, and then all date, gap, span and recency fields are null |
| TemporalAggregator.DistinctMonthCount | glasgow/scripts/analysis.py:54 | n_dates is the number of distinct month indices, between 1 and the dated row count when there is a date |
| TemporalAggregator.SortedElements | glasgow/scripts/analysis.py:34 | sorting keeps the set of month indices |
| TemporalAggregator.SpanIsRange | glasgow/scripts/analysis.py:57 | span_months is non-negative, no two indices differ by more, and two indices differ by exactly it |
| TemporalAggregator.SpanZeroIffOneMonth | glasgow/scripts/analysis.py:54-57 | span_months is 0 exactly when n_dates is 1 |
| TemporalAggregator.SingleValue | glasgow/scripts/analysis.py:54-57 | a list bounded by two of its members holds a single value exactly when the bounds coincide |
| TemporalAggregator.GapWithinSpan | glasgow/scripts/analysis.py:39-42 | max_gap_months is defined exactly when the group has two or more dated rows, and then 0 <= max_gap_months <= span_months |
| TemporalAggregator.RecencyNonNegative | glasgow/scripts/analysis.py:58 | recency_months is the global maximum index minus the group's largest index, hence non-negative |
| TemporalAggregator.FirstAndLatestText | glasgow/scripts/analysis.py:45-53 | first_date and latest_date are the original texts of the first rows holding the smallest and largest index |
| TemporalAggregator.GridSummaryDated | glasgow/scripts/analysis.py:62 | a grid has n_dates > 0 exactly when one of its rows parsed, and its recency is never negative |
| TemporalAggregator.LatestGridRecencyZero | glasgow/scripts/analysis.py:58-62 | some grid has recency_months 0 |
| TemporalAggregator.GroupWithLatest | glasgow/scripts/analysis.py:58 | a group holding the global latest index has recency 0 |
| TemporalAggregator.WorkedExample | glasgow/scripts/analysis.py:34-57 | indices [2019*12+3, 2019*12+3, 2021*12+7] give 2 distinct months, span 28 and largest gap 28 |
| TemporalAggregator.SameMonthRowsGapZero | glasgow/scripts/analysis.py:39-42 | two rows of one month give one distinct month and a defined gap of 0 |
| SviSummary.DatedRows | glasgow/scripts/analysis_svi_osm.py:24 | only rows with both year and month remain |
| SviSummary.Deduplicated | glasgow/scripts/analysis_svi_osm.py:24-30 | only dated input rows remain, every (grid_id, year, month) triple of the dated rows survives, no triple occurs twice, and each kept row is the first dated row with its triple |
| SviSummary.Summary | glasgow/scripts/analysis_svi_osm.py:33-40 | the summary has exactly the grids with a dated row |
| SviSummary.KeysOfDeduplicated | glasgow/scripts/analysis_svi_osm.py:24-30 | deduplicated rows are dated and every dated grid keeps a row |
| SviSummary.GridDatesAreMonths | glasgow/scripts/analysis_svi_osm.py:27-37 | a grid's dates are exactly its rows' capture months |
| SviSummary.GridDatesDistinct | glasgow/scripts/analysis_svi_osm.py:30-36 | after deduplication a grid's dates are pairwise distinct |
| SviSummary.MonthsSurvive | glasgow/scripts/analysis_svi_osm.py:30 | deduplication keeps every (grid, month) pair that occurs |
| SviSummary.DatedCountIsDistinctMonths | glasgow/scripts/analysis_svi_osm.py:30-37 | dated_count is the number of distinct months of the grid's dated rows, and at least 1 |
| SviSummary.LatestDateIsMaximum | glasgow/scripts/analysis_svi_osm.py:27-38 | latest_date is a month of the grid's dated rows and no such month is later |
| Distribution.DatesWhere | glasgow/scripts/generate_distribution.py:26-30 | exactly one date per selected dated row, so repeated months are kept |
| Distribution.Metrics | glasgow/scripts/generate_distribution.py:66-69 | the merged frame has exactly the query points with a dated row |
| Distribution.DateOfRow | glasgow/scripts/generate_distribution.py:26-30 | every selected dated row contributes its month |
| Distribution.RowOfDate | glasgow/scripts/generate_distribution.py:26-30 | every date comes from a selected dated row |
| Distribution.CellHasDates | glasgow/scripts/generate_distribution.py:34-38 | every group has a date |
| Distribution.TableHasDates | glasgow/scripts/generate_distribution.py:58 | a table with a group has a date, so global_latest is defined |
| Distribution.GlobalLatest | glasgow/scripts/generate_distribution.py:58 | global_latest is the capture month of some dated row and no dated row is later |
| Distribution.DatesWhereMonotone | glasgow/scripts/generate_distribution.py:51-58 | a cell's dates are dates of the table |
| Distribution.DatedCountBounds | glasgow/scripts/generate_distribution.py:34-38 | dated_count is the number of the cell's dated rows, hence at least 1, at least the number of distinct months and at most the rows |
| Distribution.SameMonthRowsCountTwice | glasgow/scripts/generate_distribution.py:34-38 | two dated rows of one cell in one month give dated_count 2 with a single distinct month |
| Distribution.SpreadingIsRange | glasgow/scripts/generate_distribution.py:41-47 | spreading_months is non-negative, bounds every distance between two captures, is reached by one pair of the cell's captures (so it is the largest distance), and is 0 exactly when all captures share a month |
| Distribution.GlobalLatestIsLatestCell | glasgow/scripts/generate_distribution.py:58 | global_latest is some cell's latest date and no cell's latest date is later |
| Distribution.CellLatestDate | glasgow/scripts/generate_distribution.py:50-55 | latest_date is the capture month of one of the cell's dated rows and no dated row of the cell is later |
| Distribution.RecencyBounds | glasgow/scripts/generate_distribution.py:58-63 | recency_months equals the month index of global_latest minus that of the cell's latest_date, is never negative, and is 0 for some cell |
| Grids.Ceil | glasgow/scripts/generate_grids.py:40-41 | the ceiling is the least integer not below x |
| Grids.Arange | glasgow/scripts/generate_grids.py:40-41 | arange yields lo + k*step for k = 0, 1, ..., every value strictly below hi, and the next multiple is not below hi |
| Grids.ArangeBound | glasgow/scripts/generate_grids.py:40-41 | ceil((hi - lo) / step) multiples of step stay below hi and the next does not |
| Grids.ArangeIncreasing | glasgow/scripts/generate_grids.py:40-41 | the candidates strictly increase |
| Grids.CandidateIndex | glasgow/scripts/generate_grids.py:40-41 | every multiple of step below hi is a candidate at its own position |
| Grids.RowPoints | glasgow/scripts/generate_grids.py:45-48 | a row keeps at most one point per longitude |
| Grids.Enumerate | glasgow/scripts/generate_grids.py:43-50 | the nested loop builds exactly the lattice points, row by row |
| Grids.RowPointSource | glasgow/scripts/generate_grids.py:45-48 | every point of a row is a longitude candidate inside the boundary |
| Grids.RowPointKept | glasgow/scripts/generate_grids.py:45-48 | every candidate of a row inside the boundary is kept |
| Grids.LatticeSound | glasgow/scripts/generate_grids.py:44-48 | every emitted point is a (lat, lon) candidate pair contained in the boundary |
| Grids.LatticeComplete | glasgow/scripts/generate_grids.py:44-48 | every candidate pair contained in the boundary is emitted |
| Grids.RowPointsOrdered | glasgow/scripts/generate_grids.py:45-48 | a row's points have its latitude and increasing longitudes |
| Grids.LatticeRowMajor | glasgow/scripts/generate_grids.py:44-48 | points come out latitude-major, then by longitude |
| Grids.Lattice | glasgow/scripts/generate_grids.py:43-50 | at most one point per candidate pair: no more than |lat_vals| * |lon_vals| points |
| Grids.LatticeEmpty | glasgow/scripts/generate_grids.py:44-52 | no points, not an error, exactly when no candidate is inside |
| Grids.AssignIds | glasgow/scripts/generate_grids.py:59-60 | one row per point, in order, with grid_id equal to its position |
| Grids.IdsAreRange | glasgow/scripts/generate_grids.py:60 | grid ids are exactly 0 .. n-1 and pairwise distinct |
| Grids.GridTable | glasgow/scripts/generate_grids.py:40-48 | over arange candidates the points are exactly the inside candidate pairs, in row-major order, none twice |
| OsmTags.TagColumns | glasgow/scripts/get_osm_grid_tags_with_road_type.py:47-53 | tag_cols are exactly the frame's columns that are not excluded, not geometry and not all null, each kept as often as it occurs in the frame |
| OsmTags.ColumnRows | glasgow/scripts/get_osm_grid_tags_with_road_type.py:56-58 | one tag row per frame row whose cell in the column is present, each keyed by that column |
| OsmTags.Melt | glasgow/scripts/get_osm_grid_tags_with_road_type.py:56-60 | every melted row belongs to one of the melted columns |
| OsmTags.ColumnRowSource | glasgow/scripts/get_osm_grid_tags_with_road_type.py:56-60 | every tag row of a column is a present cell with its grid_id and str value |
| OsmTags.ColumnRowKept | glasgow/scripts/get_osm_grid_tags_with_road_type.py:56-60 | every present cell of a column becomes a tag row |
| OsmTags.ColumnRowsCount | glasgow/scripts/get_osm_grid_tags_with_road_type.py:56-58 | a tag row occurs in a column's rows exactly as many times as there are rows with its grid_id and value in that column |
| OsmTags.MeltCount | glasgow/scripts/get_osm_grid_tags_with_road_type.py:56-60 | a tag row occurs in the melt as many times as its key occurs among the melted columns times the number of rows with its grid_id and value in that column |
| OsmTags.MeltSource | glasgow/scripts/get_osm_grid_tags_with_road_type.py:56-60 | every melted row is a present cell of a melted column |
| OsmTags.MeltKept | glasgow/scripts/get_osm_grid_tags_with_road_type.py:56-60 | every present cell of a melted column is melted |
| OsmTags.MeltTags | glasgow/scripts/get_osm_grid_tags_with_road_type.py:41-61 | every melted row belongs to a column of the frame that is not excluded, not geometry and not all null |
| OsmTags.MeltTagsRows | glasgow/scripts/get_osm_grid_tags_with_road_type.py:41-61 | melt_tags emits exactly the present cells of allowed columns, never an excluded column or geometry, each value its cell's text, and each tag row as many times as rows hold it in a tag column (times the column name's occurrences) |
| OsmTags.NoTagColumnNoRows | glasgow/scripts/get_osm_grid_tags_with_road_type.py:52-55 | the long table is empty exactly when every allowed cell is null |
| OsmTags.NullColumnRows | glasgow/scripts/get_osm_grid_tags_with_road_type.py:52-58 | an all-null column yields no rows |
| OsmTags.NullColumnsIrrelevant | glasgow/scripts/get_osm_grid_tags_with_road_type.py:52-58 | dropping all-null columns does not change the melted rows |
| OsmTags.SemanticRows | glasgow/scripts/get_osm_grid_tags_with_road_type.py:208-209 | only rows whose key is a semantic key remain, all of them |
| OsmTags.GroupRows | glasgow/scripts/get_osm_grid_tags_with_road_type.py:212-213 | a group holds exactly the rows with its grid_id |
| OsmTags.Summary | glasgow/scripts/get_osm_grid_tags_with_road_type.py:212-221 | one summary per grid_id that has a tag row |
| OsmTags.GroupNonEmpty | glasgow/scripts/get_osm_grid_tags_with_road_type.py:236-241 | every group of groupby is non-empty |
| OsmTags.FirstPresent | glasgow/scripts/get_osm_grid_tags_with_road_type.py:231-233 | the result is None exactly when no priority class occurs, else a class that occurs |
| OsmTags.FirstPresentEarliest | glasgow/scripts/get_osm_grid_tags_with_road_type.py:231-233 | the chosen class has a rank and no class of smaller rank occurs |
| OsmTags.MainHighway | glasgow/scripts/get_osm_grid_tags_with_road_type.py:226-234 | None exactly for no values, otherwise one of the values; values[0] when no priority class occurs |
| OsmTags.MainHighwayTopRank | glasgow/scripts/get_osm_grid_tags_with_road_type.py:226-233 | when a priority class occurs the result is the occurring class of smallest rank |
| OsmTags.PickMainHighway | glasgow/scripts/get_osm_grid_tags_with_road_type.py:226-234 | the loop with early return yields the main highway |
| OsmTags.HighwayRows | glasgow/scripts/get_osm_grid_tags_with_road_type.py:224 | exactly the rows with key highway |
| OsmTags.HighwaySummary | glasgow/scripts/get_osm_grid_tags_with_road_type.py:236-241 | one grid_highway per grid with a highway row |
| OsmTags.RoadTypeOf | glasgow/scripts/get_osm_grid_tags_with_road_type.py:182-195 | drivable exactly for grids meeting a drivable road, non-drivable exactly for grids meeting some road but no drivable one, no-road exactly for the rest |
| OsmTags.ClassifyRoads | glasgow/scripts/get_osm_grid_tags_with_road_type.py:182-195 | after the three passes a grid is drivable exactly when it meets a drivable road, non-drivable exactly when it meets some road but no drivable one, no-road otherwise |
| OsmTags.GridIdColumn | glasgow/scripts/get_osm_grid_tags_with_road_type.py:131-134 | grid_id is the CSV column when present, else 0 .. n-1 |
| OsmTags.Output | glasgow/scripts/get_osm_grid_tags_with_road_type.py:243-248 | the left merges keep one output row per grid row |
| OsmTags.OutputCounts | glasgow/scripts/get_osm_grid_tags_with_road_type.py:212-248 | per grid: coordinates kept, n_tags is its tag row count (0 without tags), unique_keys its distinct key count, unique_keys <= n_tags, unique_keys is 0 exactly when n_tags is 0, lists present exactly when n_tags > 0 |
| OsmTags.OutputLists | glasgow/scripts/get_osm_grid_tags_with_road_type.py:212-221 | the key and value lists are the grid's tag rows in order, and every key is a semantic key |
| OsmTags.OutputHighway | glasgow/scripts/get_osm_grid_tags_with_road_type.py:236-243 | grid_highway is present exactly when the grid has a highway row, and is then pick_main_highway of those values, one of them |
| OsmTags.OutputRoadType | glasgow/scripts/get_osm_grid_tags_with_road_type.py:189-195 | the saved road type follows the three tiers |
| OsmTags.GridTagsKeys | glasgow/scripts/get_osm_grid_tags_with_road_type.py:204-221 | saved keys are semantic keys of allowed columns of the joined frame |
| OsmTags.FootwayOnlyCell | glasgow/scripts/get_osm_grid_tags_with_road_type.py:186-248 | a cell meeting only a footway is non-drivable with grid_highway footway and one tag |

## Left out

- Distances and steps: `haversine` and the geodesic step computation (generate_grids.py:24-33) are floating-point trigonometry. The distance is a function parameter; the steps are inputs with `step > 0`.
- Grids.Arange: models exact real arithmetic, so it does not capture floating-point rounding in `np.arange`'s count. It also requires a positive step; a degenerate bounding box gives a NaN step in the script.
- The street-view provider and the `importlib` loading of `streetview.py` are foreign code. The provider is a function parameter that fails or returns a list of items. An exception anywhere in a centre's step is modelled as the provider failing.
- File I/O: CSV reads and writes, the header logic, `os.makedirs`, prints and tqdm progress output. The output file is the `output` sequence of the fetcher.
- Geometry: boundary loading, CRS projections, square buffers, `sjoin` intersections and `Polygon.contains`.
  - Containment is a predicate parameter.
  - The joined feature frame is an input.
  - The any-road and drivable-road intersections are given sets of grid ids.
  - The join that builds the frame, and the `RuntimeError` when it is empty, are not part of this model.
- Records.PanoRecord: every metadata row has a panoid and a grid_id. filter_metadata.py:36 groups by panoid, and that grouping silently drops rows whose panoid is missing; the model has no such rows, so it does not capture that drop.
- Months.Month: months are restricted to 1..12. filter_metadata.py does not check month values; the scripts that turn year and month into dates would reject other values, and the model does not represent such rows.
- Date parsing: `pd.to_datetime(..., format="%d/%m/%Y", errors="coerce")` is library calendar validation. A date is given as missing, unparsed text, or text with its parsed month.
- MetadataCleaner.Clean: rows come out in input order; pandas orders them by panoid (the groupby key order).
- Distribution.Metrics: `dropna` on query_lat/query_lon is not modelled, because query coordinates are always present here. Rows are keyed by query point; the output row order is not modelled.
- TemporalAggregator.FirstTextWithIndex: returns None where `iloc[0]` would raise. This never happens for the indices agg_time uses.
- OsmTags.Value: `astype(str)` is represented by the text a present cell carries. Python's str() of non-string values is not modelled.
- OsmTags.Output: the column order and CSV layout of the saved table are not modelled. NaN lists and highways are None.
- The unused `SPECIAL_KEYS` constant of the OSM script is not modelled.
- Plotting, histograms and quantile outliers of generate_distribution.py (lines 72-127) are output only.
- generate_html.py (map rendering) and generate_glasgow_boundary.py (network download and plot) are not part of this model.
