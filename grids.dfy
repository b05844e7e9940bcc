/** generate_grids.py: the 20 m lattice over the Glasgow boundary. The
    candidate latitudes and longitudes are arange(min, max, step); every
    candidate (lat, lon) is checked against the boundary, latitude in the
    outer loop and longitude in the inner one, and the points inside are
    kept in that order. The grid table numbers them 0, 1, 2, ... */
module Grids {

  /** A kept point, as the pair (query_lat, query_lon). */
  type Point = (real, real)

  /** The boundary's containment test; the script builds the point with the
      longitude first. */
  type Inside = (real, real) -> bool

  /** One row of the grid table. */
  datatype GridPoint = GridPoint(queryLat: real, queryLon: real, gridId: int)

  /** The smallest integer that is not below x. */
  function Ceil(x: real): (n: int)
    ensures n as real >= x && (n - 1) as real < x
  {
    -((-x).Floor)
  }

  /** numpy's arange from lo to hi by step: lo, lo + step, lo + 2 step, ... for as long
      as the value stays strictly below hi. */
  function Arange(lo: real, hi: real, step: real): (r: seq<real>)
    requires step > 0.0
    ensures forall k :: 0 <= k < |r| ==> r[k] == Tick(lo, step, k) && r[k] < hi
    ensures Tick(lo, step, |r|) >= hi
  {
    var n := if hi <= lo then 0 else Ceil((hi - lo) / step);
    ArangeBound(lo, hi, step, n);
    seq(n, k => Tick(lo, step, k))
  }

  /** The k-th multiple of step after lo. */
  function Tick(lo: real, step: real, k: int): real
  {
    lo + k as real * step
  }

  /** The count n = ceil((hi - lo) / step) puts exactly the first n
      multiples of step below hi. */
  lemma ArangeBound(lo: real, hi: real, step: real, n: int)
    requires step > 0.0
    requires n == if hi <= lo then 0 else Ceil((hi - lo) / step)
    ensures n >= 0
    ensures forall k: int :: 0 <= k < n ==> Tick(lo, step, k) < hi
    ensures Tick(lo, step, n) >= hi
  {
    if hi > lo {
      var q := (hi - lo) / step;
      assert q * step == hi - lo;
      assert n as real >= q;
      assert n as real * step >= q * step;
      forall k: int | 0 <= k < n ensures Tick(lo, step, k) < hi {
        assert k as real <= (n - 1) as real < q;
        assert k as real * step < q * step;
      }
    }
  }

  predicate Increasing(s: seq<real>)
  {
    forall a, b :: 0 <= a < b < |s| ==> s[a] < s[b]
  }

  /** The candidates of arange strictly increase, so none is repeated. */
  lemma ArangeIncreasing(lo: real, hi: real, step: real)
    requires step > 0.0
    ensures Increasing(Arange(lo, hi, step))
  {
    var r := Arange(lo, hi, step);
    forall a, b | 0 <= a < b < |r| ensures r[a] < r[b] {
      assert (b - a) as real * step > 0.0;
      assert r[b] - r[a] == (b - a) as real * step;
    }
  }

  /** The inside points of one latitude row, longitudes in the given order. */
  function RowPoints(lat: real, lons: seq<real>, inside: Inside): (r: seq<Point>)
    ensures |r| <= |lons|
  {
    if lons == [] then []
    else
      var lon := lons[|lons| - 1];
      RowPoints(lat, lons[..|lons| - 1], inside) + (if inside(lon, lat) then [(lat, lon)] else [])
  }

  /** The kept points of the whole lattice, row by row. */
  function Lattice(lats: seq<real>, lons: seq<real>, inside: Inside): (r: seq<Point>)
    ensures |r| <= |lats| * |lons|
  {
    if lats == [] then []
    else
      var n := |lats| - 1;
      assert n * |lons| + |lons| == |lats| * |lons|;
      Lattice(lats[..n], lons, inside) + RowPoints(lats[n], lons, inside)
  }

  /** The nested loop of the script: grid_points grows by one point for
      every candidate the boundary contains. */
  method Enumerate(lats: seq<real>, lons: seq<real>, inside: Inside) returns (points: seq<Point>)
    ensures points == Lattice(lats, lons, inside)
  {
    points := [];
    var i := 0;
    while i < |lats|
      invariant 0 <= i <= |lats|
      invariant points == Lattice(lats[..i], lons, inside)
    {
      var lat := lats[i];
      ghost var before := points;
      var j := 0;
      while j < |lons|
        invariant 0 <= j <= |lons|
        invariant points == before + RowPoints(lat, lons[..j], inside)
      {
        var lon := lons[j];
        assert lons[..j + 1][..j] == lons[..j];
        if inside(lon, lat) {
          points := points + [(lat, lon)];
        }
        j := j + 1;
      }
      assert lons[..j] == lons;
      assert lats[..i + 1][..i] == lats[..i];
      i := i + 1;
    }
    assert lats[..i] == lats;
  }

  /** Every point of a row is a candidate of that row the boundary contains. */
  lemma {:induction false} RowPointSource(lat: real, lons: seq<real>, inside: Inside, k: nat) returns (j: nat)
    requires k < |RowPoints(lat, lons, inside)|
    ensures j < |lons| && RowPoints(lat, lons, inside)[k] == (lat, lons[j]) && inside(lons[j], lat)
  {
    var n := |lons| - 1;
    var init := RowPoints(lat, lons[..n], inside);
    if k < |init| {
      j := RowPointSource(lat, lons[..n], inside, k);
    } else {
      j := n;
    }
  }

  /** Every candidate of a row that the boundary contains is kept. */
  lemma {:induction false} RowPointKept(lat: real, lons: seq<real>, inside: Inside, j: nat)
    requires j < |lons| && inside(lons[j], lat)
    ensures (lat, lons[j]) in RowPoints(lat, lons, inside)
  {
    var n := |lons| - 1;
    if j < n {
      RowPointKept(lat, lons[..n], inside, j);
    }
  }

  /** Every emitted point is a lattice candidate inside the boundary. */
  lemma {:induction false} LatticeSound(lats: seq<real>, lons: seq<real>, inside: Inside, k: nat)
    returns (i: nat, j: nat)
    requires k < |Lattice(lats, lons, inside)|
    ensures i < |lats| && j < |lons|
    ensures Lattice(lats, lons, inside)[k] == (lats[i], lons[j]) && inside(lons[j], lats[i])
  {
    var n := |lats| - 1;
    var init := Lattice(lats[..n], lons, inside);
    if k < |init| {
      i, j := LatticeSound(lats[..n], lons, inside, k);
    } else {
      i := n;
      j := RowPointSource(lats[n], lons, inside, k - |init|);
    }
  }

  /** Every lattice candidate inside the boundary is emitted. */
  lemma {:induction false} LatticeComplete(lats: seq<real>, lons: seq<real>, inside: Inside, i: nat, j: nat)
    requires i < |lats| && j < |lons| && inside(lons[j], lats[i])
    ensures (lats[i], lons[j]) in Lattice(lats, lons, inside)
  {
    var n := |lats| - 1;
    if i < n {
      LatticeComplete(lats[..n], lons, inside, i, j);
    } else {
      RowPointKept(lats[n], lons, inside, j);
    }
  }

  /** Row-major order: latitude first, then longitude. */
  predicate Before(p: Point, q: Point)
  {
    p.0 < q.0 || (p.0 == q.0 && p.1 < q.1)
  }

  predicate RowMajor(ps: seq<Point>)
  {
    forall a, b :: 0 <= a < b < |ps| ==> Before(ps[a], ps[b])
  }

  /** With increasing longitudes a row comes out west to east, and every
      point lies on the row's latitude. */
  lemma {:induction false} RowPointsOrdered(lat: real, lons: seq<real>, inside: Inside)
    requires Increasing(lons)
    ensures RowMajor(RowPoints(lat, lons, inside))
    ensures forall k :: 0 <= k < |RowPoints(lat, lons, inside)| ==> RowPoints(lat, lons, inside)[k].0 == lat
  {
    if lons != [] {
      var n := |lons| - 1;
      var init := RowPoints(lat, lons[..n], inside);
      RowPointsOrdered(lat, lons[..n], inside);
      forall k | 0 <= k < |init| ensures init[k].1 < lons[n] {
        var j := RowPointSource(lat, lons[..n], inside, k);
      }
    }
  }

  /** With increasing candidates the points come out in row-major order,
      which also means no point is emitted twice. */
  lemma {:induction false} LatticeRowMajor(lats: seq<real>, lons: seq<real>, inside: Inside)
    requires Increasing(lats) && Increasing(lons)
    ensures RowMajor(Lattice(lats, lons, inside))
  {
    if lats != [] {
      var n := |lats| - 1;
      var init := Lattice(lats[..n], lons, inside);
      var row := RowPoints(lats[n], lons, inside);
      LatticeRowMajor(lats[..n], lons, inside);
      RowPointsOrdered(lats[n], lons, inside);
      forall k | 0 <= k < |init| ensures init[k].0 < lats[n] {
        var i, j := LatticeSound(lats[..n], lons, inside, k);
      }
      var all := init + row;
      forall a, b | 0 <= a < b < |all| ensures Before(all[a], all[b]) {
        if b < |init| {
          assert all[a] == init[a] && all[b] == init[b];
        } else if a < |init| {
          assert all[a] == init[a] && all[b] == row[b - |init|];
        } else {
          assert all[a] == row[a - |init|] && all[b] == row[b - |init|];
        }
      }
    }
  }

  /** The lattice is empty, not an error, exactly when the boundary
      contains no candidate. */
  lemma LatticeEmpty(lats: seq<real>, lons: seq<real>, inside: Inside)
    ensures |Lattice(lats, lons, inside)| == 0 <==>
              forall i, j :: 0 <= i < |lats| && 0 <= j < |lons| ==> !inside(lons[j], lats[i])
  {
    if |Lattice(lats, lons, inside)| > 0 {
      var i, j := LatticeSound(lats, lons, inside, 0);
    }
    forall i, j | 0 <= i < |lats| && 0 <= j < |lons| && inside(lons[j], lats[i])
      ensures |Lattice(lats, lons, inside)| > 0
    {
      LatticeComplete(lats, lons, inside, i, j);
    }
  }

  /** The grid table: grid_id = range(len(df)). */
  function AssignIds(points: seq<Point>): (table: seq<GridPoint>)
    ensures |table| == |points|
    ensures forall k :: 0 <= k < |table| ==>
              table[k].gridId == k && (table[k].queryLat, table[k].queryLon) == points[k]
  {
    seq(|points|, k requires 0 <= k < |points| => GridPoint(points[k].0, points[k].1, k))
  }

  function Ids(table: seq<GridPoint>): set<int>
  {
    set r | r in table :: r.gridId
  }

  /** The ids are exactly 0 .. n - 1 and no two rows share one. */
  lemma IdsAreRange(points: seq<Point>)
    ensures forall k :: k in Ids(AssignIds(points)) <==> 0 <= k < |points|
    ensures forall a, b :: 0 <= a < b < |points| ==> AssignIds(points)[a].gridId != AssignIds(points)[b].gridId
  {
    var table := AssignIds(points);
    forall k | 0 <= k < |points| ensures k in Ids(table) {
      assert table[k] in table;
    }
  }

  /** The whole script: the lattice over the arange candidates holds each
      candidate pair the boundary contains, nothing else, in row-major
      order, and no point twice. */
  lemma GridTable(miny: real, maxy: real, latStep: real, minx: real, maxx: real, lonStep: real, inside: Inside)
    requires latStep > 0.0 && lonStep > 0.0
    ensures var lats, lons := Arange(miny, maxy, latStep), Arange(minx, maxx, lonStep);
            var pts := Lattice(lats, lons, inside);
            RowMajor(pts) &&
            (forall a, b :: 0 <= a < b < |pts| ==> pts[a] != pts[b]) &&
            forall p :: p in pts <==> (p.0 in lats && p.1 in lons && inside(p.1, p.0))
  {
    var lats, lons := Arange(miny, maxy, latStep), Arange(minx, maxx, lonStep);
    var pts := Lattice(lats, lons, inside);
    ArangeIncreasing(miny, maxy, latStep);
    ArangeIncreasing(minx, maxx, lonStep);
    LatticeRowMajor(lats, lons, inside);
    forall p | p in pts ensures p.0 in lats && p.1 in lons && inside(p.1, p.0) {
      var k :| 0 <= k < |pts| && pts[k] == p;
      var i, j := LatticeSound(lats, lons, inside, k);
    }
    forall p: Point | p.0 in lats && p.1 in lons && inside(p.1, p.0) ensures p in pts {
      var i :| 0 <= i < |lats| && lats[i] == p.0;
      var j :| 0 <= j < |lons| && lons[j] == p.1;
      LatticeComplete(lats, lons, inside, i, j);
    }
  }

  /** A multiple of step below hi is a candidate of arange. */
  lemma CandidateIndex(lo: real, hi: real, step: real, i: nat)
    requires step > 0.0 && lo + i as real * step < hi
    ensures i < |Arange(lo, hi, step)| && Arange(lo, hi, step)[i] == lo + i as real * step
  {
    var r := Arange(lo, hi, step);
    assert i as real * step < |r| as real * step;
    ScaleCancel(i as real, |r| as real, step);
  }

  lemma ScaleCancel(a: real, b: real, step: real)
    requires step > 0.0 && a * step < b * step
    ensures a < b
  {
  }
}
