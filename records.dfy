/** One row of the street-view metadata table that the fetch scripts write
    and the cleaning and analysis scripts read back:
    query_lat, query_lon, panoid, lat, lon, year, month, distance_m, grid_id.
    Coordinates and distance_m are floats that the model only carries and
    compares. */
module Records {
  import opened Base
  import opened Months

  datatype PanoRecord = PanoRecord(
    queryLat: real,
    queryLon: real,
    panoid: string,
    lat: real,
    lon: real,
    year: Option<int>,
    month: Option<Month>,
    distance: real,
    gridId: int)

  /** Both year and month are present. */
  predicate IsDated(r: PanoRecord)
  {
    r.year.Some? && r.month.Some?
  }

  /** The capture month of a dated record. */
  function CaptureMonth(r: PanoRecord): YearMonth
    requires IsDated(r)
  {
    YearMonth(r.year.value, r.month.value)
  }
}
