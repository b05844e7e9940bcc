/** filter_metadata.py: drop undated metadata rows, then keep one row per
    panoid, the first row (in table order) whose distance_m is the smallest
    among that panoid's dated rows. The script first drops the rows missing
    a year or a month and then, per panoid, selects the row label of the
    smallest distance; those labels are positions of the unfiltered table,
    so the model works on positions of the input rows and treats undated
    rows as non-candidates. */
module MetadataCleaner {
  import opened Base
  import opened Records
  import Seqs

  /** Row r takes part in the idxmin for panoid pid. */
  predicate Candidate(r: PanoRecord, pid: string)
  {
    IsDated(r) && r.panoid == pid
  }

  /** The per-panoid arg-min of distance_m for one panoid, over the first
      n rows: the position of the first candidate of smallest
      distance, or None when pid has no dated row there. */
  function IdxMin(rows: seq<PanoRecord>, pid: string, n: nat): (r: Option<nat>)
    requires n <= |rows|
    ensures r.None? <==> forall j :: 0 <= j < n ==> !Candidate(rows[j], pid)
    ensures r.Some? ==> r.value < n && Candidate(rows[r.value], pid)
    ensures r.Some? ==> forall j :: 0 <= j < n && Candidate(rows[j], pid) ==>
              rows[r.value].distance <= rows[j].distance
    ensures r.Some? ==> forall j :: 0 <= j < r.value && Candidate(rows[j], pid) ==>
              rows[r.value].distance < rows[j].distance
  {
    if n == 0 then None
    else
      var prev := IdxMin(rows, pid, n - 1);
      if !Candidate(rows[n - 1], pid) then prev
      else if prev.None? then Some(n - 1)
      else if rows[n - 1].distance < rows[prev.value].distance then Some(n - 1)
      else prev
  }

  /** Position i is the row idxmin picks for its own panoid. */
  predicate Kept(rows: seq<PanoRecord>, i: nat)
    requires i < |rows|
  {
    IsDated(rows[i]) && IdxMin(rows, rows[i].panoid, |rows|) == Some(i)
  }

  /** The kept rows among the first n positions, in table order. */
  function KeptUpTo(rows: seq<PanoRecord>, n: nat): seq<PanoRecord>
    requires n <= |rows|
  {
    if n == 0 then []
    else KeptUpTo(rows, n - 1) + (if Kept(rows, n - 1) then [rows[n - 1]] else [])
  }

  /** The cleaned metadata table. Cleaning only selects: every cleaned row
      is an unmodified dated input row. */
  function Clean(rows: seq<PanoRecord>): (c: seq<PanoRecord>)
    ensures forall x :: x in c ==> x in rows && IsDated(x)
  {
    KeptUpToIsKept(rows, |rows|);
    KeptUpTo(rows, |rows|)
  }

  /** The panoids that have at least one dated row. */
  function DatedPanoids(rows: seq<PanoRecord>): set<string>
  {
    set r | r in rows && IsDated(r) :: r.panoid
  }

  function Panoids(rows: seq<PanoRecord>): seq<string>
  {
    seq(|rows|, k requires 0 <= k < |rows| => rows[k].panoid)
  }

  lemma {:induction false} KeptUpToIsKept(rows: seq<PanoRecord>, n: nat)
    requires n <= |rows|
    ensures forall x :: x in KeptUpTo(rows, n) ==>
              exists i :: 0 <= i < n && rows[i] == x && Kept(rows, i)
  {
    if n > 0 {
      KeptUpToIsKept(rows, n - 1);
    }
  }

  lemma {:induction false} KeptInKeptUpTo(rows: seq<PanoRecord>, n: nat, i: nat)
    requires i < n <= |rows| && Kept(rows, i)
    ensures rows[i] in KeptUpTo(rows, n)
  {
    if i < n - 1 {
      KeptInKeptUpTo(rows, n - 1, i);
    }
  }

  lemma {:induction false} KeptUpToDistinct(rows: seq<PanoRecord>, n: nat)
    requires n <= |rows|
    ensures Seqs.Distinct(Panoids(KeptUpTo(rows, n)))
  {
    if n > 0 {
      KeptUpToDistinct(rows, n - 1);
      var p := KeptUpTo(rows, n - 1);
      if Kept(rows, n - 1) {
        var x := rows[n - 1];
        forall y | y in p ensures y.panoid != x.panoid {
          KeptUpToIsKept(rows, n - 1);
          var i :| 0 <= i < n - 1 && rows[i] == y && Kept(rows, i);
        }
        var q := KeptUpTo(rows, n);
        assert q == p + [x];
        forall a, b | 0 <= a < b < |q| ensures Panoids(q)[a] != Panoids(q)[b] {
          if b == |p| {
            assert q[a] in p;
          } else {
            assert Panoids(q)[a] == Panoids(p)[a] && Panoids(q)[b] == Panoids(p)[b];
          }
        }
      } else {
        assert KeptUpTo(rows, n) == p;
      }
    }
  }

  /** No two cleaned rows share a panoid. */
  lemma CleanPanoidsUnique(rows: seq<PanoRecord>)
    ensures forall i, j :: 0 <= i < j < |Clean(rows)| ==>
              Clean(rows)[i].panoid != Clean(rows)[j].panoid
  {
    KeptUpToDistinct(rows, |rows|);
    var c := Clean(rows);
    forall i, j | 0 <= i < j < |c| ensures c[i].panoid != c[j].panoid {
      assert Panoids(c)[i] == c[i].panoid && Panoids(c)[j] == c[j].panoid;
    }
  }

  /** The cleaned panoids are exactly the panoids with a dated row; a panoid
      whose rows are all undated disappears. */
  lemma CleanCoversDatedPanoids(rows: seq<PanoRecord>)
    ensures Seqs.Elements(Panoids(Clean(rows))) == DatedPanoids(rows)
  {
    var c := Clean(rows);
    KeptUpToIsKept(rows, |rows|);
    forall pid | pid in DatedPanoids(rows) ensures pid in Seqs.Elements(Panoids(c)) {
      var r :| r in rows && IsDated(r) && r.panoid == pid;
      var m := IdxMin(rows, pid, |rows|);
      var i := m.value;
      assert Kept(rows, i);
      KeptInKeptUpTo(rows, |rows|, i);
      var k :| 0 <= k < |c| && c[k] == rows[i];
      assert Panoids(c)[k] == pid;
    }
    forall pid | pid in Seqs.Elements(Panoids(c)) ensures pid in DatedPanoids(rows) {
      var k :| 0 <= k < |c| && Panoids(c)[k] == pid;
      assert c[k] in c;
    }
  }

  /** One output row per distinct dated panoid. */
  lemma CleanCount(rows: seq<PanoRecord>)
    ensures |Clean(rows)| == |DatedPanoids(rows)|
  {
    KeptUpToDistinct(rows, |rows|);
    Seqs.DistinctCard(Panoids(Clean(rows)));
    CleanCoversDatedPanoids(rows);
  }

  /** The kept row of a panoid has the smallest distance_m among that
      panoid's dated rows, and every dated row before it is strictly
      farther: ties go to the first row in table order. */
  lemma CleanKeepsFirstNearest(rows: seq<PanoRecord>)
    ensures forall x :: x in Clean(rows) ==>
              exists i :: 0 <= i < |rows| && rows[i] == x
                && (forall j :: 0 <= j < |rows| && IsDated(rows[j]) && rows[j].panoid == x.panoid ==>
                      x.distance <= rows[j].distance)
                && (forall j :: 0 <= j < i && IsDated(rows[j]) && rows[j].panoid == x.panoid ==>
                      x.distance < rows[j].distance)
  {
    KeptUpToIsKept(rows, |rows|);
  }
}
