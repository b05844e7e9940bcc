/** fetch_svi_metadata_glasgow.py (and fetch_meta_data_glasgow.py, the same
    program): query the street-view provider at every grid centre not
    already present in the output file, turn each answer into metadata
    rows, buffer the non-empty answers and append the buffer to the output
    every SaveEvery answers and once more at the end. The provider and the
    distance formula are parameters; a provider call that raises is the
    response Failed. */
module MetadataFetcher {
  import opened Base
  import opened Months
  import opened Records
  import Seqs

  /** save_every */
  const SaveEvery: nat := 50
  /** EXPERIMENT_MODE and EXPERIMENT_N */
  const ExperimentMode: bool := false
  const ExperimentN: nat := 1000

  /** One row of glasgow_grid_20m.csv as the loop reads it. */
  datatype Centre = Centre(gridId: int, lat: real, lon: real)

  /** One panorama of a provider answer; year and month may be absent. */
  datatype Item = Item(panoid: string, lat: real, lon: real, year: Option<int>, month: Option<Month>)

  /** The outcome of asking the provider for the panoramas around a point. */
  datatype Response = Failed | Panoids(items: seq<Item>)

  type Provider = (real, real) -> Response

  /** haversine(lat1, lon1, lat2, lon2) */
  type Distance = (real, real, real, real) -> real

  /** The row written for one item found around centre c, grid_id
      included. */
  function Observe(item: Item, c: Centre, dist: Distance): (r: PanoRecord)
    ensures r.queryLat == c.lat && r.queryLon == c.lon && r.gridId == c.gridId
    ensures r.panoid == item.panoid && r.lat == item.lat && r.lon == item.lon
    ensures r.year == item.year && r.month == item.month
  {
    PanoRecord(c.lat, c.lon, item.panoid, item.lat, item.lon, item.year, item.month,
               dist(c.lat, c.lon, item.lat, item.lon), c.gridId)
  }

  /** The rows for a list of items, one per item and in order. */
  function ObserveAll(items: seq<Item>, c: Centre, dist: Distance): (rs: seq<PanoRecord>)
    ensures |rs| == |items|
    ensures forall k :: 0 <= k < |items| ==> rs[k] == Observe(items[k], c, dist)
  {
    if items == [] then [] else [Observe(items[0], c, dist)] + ObserveAll(items[1..], c, dist)
  }

  /** process_panoids_with_distance, with the centre's grid_id added to
      every row. */
  method ProcessPanoids(items: seq<Item>, c: Centre, dist: Distance) returns (records: seq<PanoRecord>)
    ensures records == ObserveAll(items, c, dist)
  {
    records := [];
    var k := 0;
    while k < |items|
      invariant 0 <= k <= |items|
      invariant |records| == k
      invariant forall j :: 0 <= j < k ==> records[j] == Observe(items[j], c, dist)
    {
      records := records + [Observe(items[k], c, dist)];
      k := k + 1;
    }
  }

  /** done_set: the query points already present in the output. */
  function DoneSet(existing: seq<PanoRecord>): (done: set<(real, real)>)
    ensures forall r :: r in existing ==> (r.queryLat, r.queryLon) in done
    ensures forall p :: p in done ==> exists r :: r in existing && (r.queryLat, r.queryLon) == p
  {
    set r | r in existing :: (r.queryLat, r.queryLon)
  }

  /** The centres the loop visits: all of them, or the first ExperimentN
      in experiment mode. */
  function Considered(centres: seq<Centre>, experiment: bool): (cs: seq<Centre>)
    ensures experiment ==> |cs| <= ExperimentN && Seqs.IsPrefix(cs, centres)
    ensures experiment && |centres| >= ExperimentN ==> |cs| == ExperimentN
    ensures experiment && |centres| < ExperimentN ==> cs == centres
    ensures !experiment ==> cs == centres
  {
    if experiment then centres[..if |centres| < ExperimentN then |centres| else ExperimentN]
    else centres
  }

  /** The frames one centre adds to the batch: none when its point is done,
      when the provider fails, or when the answer is empty. */
  function Contribution(c: Centre, done: set<(real, real)>, provider: Provider, dist: Distance)
    : seq<seq<PanoRecord>>
  {
    if (c.lat, c.lon) in done then []
    else
      match provider(c.lat, c.lon)
      case Failed => []
      case Panoids(items) => if |items| > 0 then [ObserveAll(items, c, dist)] else []
  }

  /** The frames a run over cs appends, in centre order. */
  function Frames(cs: seq<Centre>, done: set<(real, real)>, provider: Provider, dist: Distance)
    : seq<seq<PanoRecord>>
  {
    if cs == [] then []
    else Frames(cs[..|cs| - 1], done, provider, dist) + Contribution(cs[|cs| - 1], done, provider, dist)
  }

  /** The rows a run over cs appends to the output. Every one carries the
      query point and grid_id of a centre of the run, and that query point
      was not done. */
  function Collected(cs: seq<Centre>, done: set<(real, real)>, provider: Provider, dist: Distance)
    : (rows: seq<PanoRecord>)
    ensures forall r :: r in rows ==>
              (r.queryLat, r.queryLon) !in done
              && exists c :: c in cs && c.lat == r.queryLat && c.lon == r.queryLon && c.gridId == r.gridId
  {
    FramesRowsAreNew(cs, done, provider, dist);
    Seqs.Flatten(Frames(cs, done, provider, dist))
  }

  /** The state of one run: the fixed done_set, the buffered frames and the
      rows of the output file. */
  class Fetcher {
    const done: set<(real, real)>
    var batch: seq<seq<PanoRecord>>
    var output: seq<PanoRecord>

    /** Start a run on the rows the output file already holds. */
    constructor(existing: seq<PanoRecord>)
      ensures done == DoneSet(existing)
      ensures output == existing && batch == []
    {
      done := DoneSet(existing);
      output := existing;
      batch := [];
    }

    /** Append the rows of every buffered frame to the output file and start
        a new, empty batch. */
    method Flush()
      modifies this
      ensures output == old(output) + Seqs.Flatten(old(batch))
      ensures batch == []
    {
      output := output + Seqs.Flatten(batch);
      batch := [];
    }

    /** The body of the loop for one centre: skip a done point, query the
        provider, buffer a non-empty answer, and flush the batch once it
        holds SaveEvery frames. */
    method Visit(c: Centre, provider: Provider, dist: Distance)
      requires |batch| < SaveEvery
      modifies this
      ensures |batch| < SaveEvery
      ensures Buffered(old(output), old(batch), Contribution(c, done, provider, dist), output, batch)
      ensures |old(batch)| + |Contribution(c, done, provider, dist)| >= SaveEvery ==>
                output == old(output) + Seqs.Flatten(old(batch) + Contribution(c, done, provider, dist))
                && batch == []
      ensures |old(batch)| + |Contribution(c, done, provider, dist)| < SaveEvery ==>
                output == old(output) && batch == old(batch) + Contribution(c, done, provider, dist)
    {
      ghost var contribution := Contribution(c, done, provider, dist);
      if (c.lat, c.lon) !in done {
        var response := provider(c.lat, c.lon);
        match response {
          case Failed =>
            assert contribution == [];
          case Panoids(items) =>
            if |items| > 0 {
              var df := ProcessPanoids(items, c, dist);
              assert contribution == [df];
              batch := batch + [df];
            } else {
              assert contribution == [];
              assert batch == old(batch) + contribution;
            }
            if |batch| >= SaveEvery {
              Flush();
            }
        }
      } else {
        assert contribution == [];
      }
    }

    /** The main loop and the final flush. */
    method Run(centres: seq<Centre>, provider: Provider, dist: Distance)
      requires batch == []
      modifies this
      ensures batch == []
      ensures output == old(output) + Collected(Considered(centres, ExperimentMode), done, provider, dist)
    {
      var cs := Considered(centres, ExperimentMode);
      var i := 0;
      while i < |cs|
        invariant 0 <= i <= |cs|
        invariant |batch| < SaveEvery
        invariant output + Seqs.Flatten(batch) == old(output) + Collected(cs[..i], done, provider, dist)
      {
        ghost var output0, batch0 := output, batch;
        ghost var frames := Contribution(cs[i], done, provider, dist);
        Visit(cs[i], provider, dist);
        BufferedRows(output0, batch0, frames, output, batch);
        Seqs.AppendAssoc(old(output), Collected(cs[..i], done, provider, dist), Seqs.Flatten(frames));
        CollectedStep(cs, i, done, provider, dist);
        i := i + 1;
      }
      assert cs[..i] == cs;
      if |batch| > 0 {
        Flush();
      } else {
        FlattenNil();
        Seqs.AppendNil(output);
      }
    }
  }

  lemma FlattenNil()
    ensures Seqs.Flatten<PanoRecord>([]) == []
  {
  }

  /** One centre's step on (output, batch): either its frames join the
      batch and the output is unchanged, or the batch with its frames is
      appended to the output and the batch is emptied. */
  predicate Buffered<T(==)>(output0: seq<T>, batch0: seq<seq<T>>, frames: seq<seq<T>>,
                     output1: seq<T>, batch1: seq<seq<T>>)
  {
    (output1 == output0 && batch1 == batch0 + frames)
    || (output1 == output0 + Seqs.Flatten(batch0 + frames) && batch1 == [])
  }

  /** Either way, the rows in the output and the batch together grow by the
      step's rows. */
  lemma BufferedRows<T>(output0: seq<T>, batch0: seq<seq<T>>, frames: seq<seq<T>>,
                     output1: seq<T>, batch1: seq<seq<T>>)
    requires Buffered(output0, batch0, frames, output1, batch1)
    ensures output1 + Seqs.Flatten(batch1) == output0 + Seqs.Flatten(batch0) + Seqs.Flatten(frames)
  {
    Seqs.FlattenConcat(batch0, frames);
    assert Seqs.Flatten<T>([]) == [];
    Seqs.AppendAssoc(output0, Seqs.Flatten(batch0), Seqs.Flatten(frames));
    Seqs.AppendNil(output0 + Seqs.Flatten(batch0 + frames));
  }

  /** Visiting centre i extends the collected rows by its contribution. */
  lemma CollectedStep(cs: seq<Centre>, i: nat, done: set<(real, real)>, provider: Provider, dist: Distance)
    requires i < |cs|
    ensures Collected(cs[..i + 1], done, provider, dist)
            == Collected(cs[..i], done, provider, dist) + Seqs.Flatten(Contribution(cs[i], done, provider, dist))
  {
    assert cs[..i + 1][..i] == cs[..i];
    Seqs.FlattenConcat(Frames(cs[..i], done, provider, dist), Contribution(cs[i], done, provider, dist));
  }

  /** Where a collected row comes from: a centre of the run whose point was
      not done and whose provider answer lists the row's panorama. */
  lemma {:induction false} RowSource(cs: seq<Centre>, done: set<(real, real)>, provider: Provider, dist: Distance,
                                     r: PanoRecord)
    returns (c: Centre, k: nat)
    requires r in Seqs.Flatten(Frames(cs, done, provider, dist))
    ensures c in cs && (c.lat, c.lon) !in done
    ensures provider(c.lat, c.lon).Panoids? && k < |provider(c.lat, c.lon).items|
    ensures r == Observe(provider(c.lat, c.lon).items[k], c, dist)
  {
    var init := cs[..|cs| - 1];
    var last := cs[|cs| - 1];
    Seqs.FlattenConcat(Frames(init, done, provider, dist), Contribution(last, done, provider, dist));
    if r in Seqs.Flatten(Frames(init, done, provider, dist)) {
      c, k := RowSource(init, done, provider, dist, r);
    } else {
      var contribution := Contribution(last, done, provider, dist);
      assert contribution != [];
      assert Seqs.Flatten(contribution) == Seqs.Flatten([]) + contribution[0];
      var items := provider(last.lat, last.lon).items;
      var j :| 0 <= j < |items| && ObserveAll(items, last, dist)[j] == r;
      c, k := last, j;
    }
  }

  lemma FramesRowsAreNew(cs: seq<Centre>, done: set<(real, real)>, provider: Provider, dist: Distance)
    ensures forall r :: r in Seqs.Flatten(Frames(cs, done, provider, dist)) ==>
              (r.queryLat, r.queryLon) !in done
              && exists c :: c in cs && c.lat == r.queryLat && c.lon == r.queryLon && c.gridId == r.gridId
  {
    forall r | r in Seqs.Flatten(Frames(cs, done, provider, dist))
      ensures (r.queryLat, r.queryLon) !in done
      ensures exists c :: c in cs && c.lat == r.queryLat && c.lon == r.queryLon && c.gridId == r.gridId
    {
      var c, k := RowSource(cs, done, provider, dist, r);
    }
  }

  /** A centre that is not done and gets a non-empty answer has the row of
      every item of its answer collected. */
  lemma {:induction false} AnsweredCentreCollected(cs: seq<Centre>, done: set<(real, real)>, provider: Provider,
                                                    dist: Distance, i: nat)
    requires i < |cs| && (cs[i].lat, cs[i].lon) !in done
    requires provider(cs[i].lat, cs[i].lon).Panoids? && |provider(cs[i].lat, cs[i].lon).items| > 0
    ensures forall k :: 0 <= k < |provider(cs[i].lat, cs[i].lon).items| ==>
              Observe(provider(cs[i].lat, cs[i].lon).items[k], cs[i], dist) in Collected(cs, done, provider, dist)
  {
    var init := cs[..|cs| - 1];
    var last := cs[|cs| - 1];
    Seqs.FlattenConcat(Frames(init, done, provider, dist), Contribution(last, done, provider, dist));
    if i < |cs| - 1 {
      assert init[i] == cs[i];
      AnsweredCentreCollected(init, done, provider, dist, i);
    } else {
      var contribution := Contribution(last, done, provider, dist);
      assert Seqs.Flatten(contribution) == Seqs.Flatten([]) + contribution[0];
      var items := provider(last.lat, last.lon).items;
      assert Seqs.Flatten(contribution) == ObserveAll(items, last, dist);
      forall k | 0 <= k < |items| ensures Observe(items[k], last, dist) in Collected(cs, done, provider, dist) {
        assert ObserveAll(items, last, dist)[k] == Observe(items[k], last, dist);
      }
    }
  }

  /** A run over centres that are all done, failed or empty adds nothing. */
  lemma {:induction false} NothingToCollect(cs: seq<Centre>, done: set<(real, real)>, provider: Provider, dist: Distance)
    requires forall c :: c in cs ==> Contribution(c, done, provider, dist) == []
    ensures Collected(cs, done, provider, dist) == []
  {
    if cs != [] {
      var init := cs[..|cs| - 1];
      assert forall c :: c in init ==> c in cs;
      NothingToCollect(init, done, provider, dist);
      assert Frames(cs, done, provider, dist) == Frames(init, done, provider, dist);
    }
  }

  /** Resuming: running again over the same centres, with done_set rebuilt
      from the grown output, collects nothing more, because every answered
      centre is now done and the others fail or answer empty again. */
  lemma ResumeCollectsNothing(cs: seq<Centre>, prior: seq<PanoRecord>, provider: Provider, dist: Distance)
    ensures Collected(cs, DoneSet(prior + Collected(cs, DoneSet(prior), provider, dist)), provider, dist) == []
  {
    var done1 := DoneSet(prior);
    var grown := prior + Collected(cs, done1, provider, dist);
    var done2 := DoneSet(grown);
    forall c | c in cs ensures Contribution(c, done2, provider, dist) == [] {
      var i :| 0 <= i < |cs| && cs[i] == c;
      if (c.lat, c.lon) in done1 {
        var r :| r in prior && (r.queryLat, r.queryLon) == (c.lat, c.lon);
        assert r in grown;
      } else if provider(c.lat, c.lon).Panoids? && |provider(c.lat, c.lon).items| > 0 {
        AnsweredCentreCollected(cs, done1, provider, dist, i);
        var r := Observe(provider(c.lat, c.lon).items[0], c, dist);
        assert r in grown;
      }
    }
    NothingToCollect(cs, done2, provider, dist);
  }

  /** Resuming against any provider, even one that now answers differently:
      the second run collects rows only for points that were not done before
      the first run and whose first answer failed or was empty. */
  lemma ResumeCollectsOnlyUnanswered(cs: seq<Centre>, prior: seq<PanoRecord>, provider: Provider,
                                     provider2: Provider, dist: Distance)
    ensures var grown := prior + Collected(cs, DoneSet(prior), provider, dist);
            forall r :: r in Collected(cs, DoneSet(grown), provider2, dist) ==>
              (r.queryLat, r.queryLon) !in DoneSet(prior)
              && forall c :: c in cs && c.lat == r.queryLat && c.lon == r.queryLon ==>
                   provider(c.lat, c.lon).Failed? || provider(c.lat, c.lon).items == []
  {
    var done1 := DoneSet(prior);
    var grown := prior + Collected(cs, done1, provider, dist);
    var done2 := DoneSet(grown);
    assert forall q :: q in prior ==> q in grown;
    forall r | r in Collected(cs, done2, provider2, dist)
      ensures (r.queryLat, r.queryLon) !in done1
      ensures forall c :: c in cs && c.lat == r.queryLat && c.lon == r.queryLon ==>
                provider(c.lat, c.lon).Failed? || provider(c.lat, c.lon).items == []
    {
      forall c | c in cs && c.lat == r.queryLat && c.lon == r.queryLon
        ensures provider(c.lat, c.lon).Failed? || provider(c.lat, c.lon).items == []
      {
        if provider(c.lat, c.lon).Panoids? && provider(c.lat, c.lon).items != [] {
          var i :| 0 <= i < |cs| && cs[i] == c;
          AnsweredPointDone(cs, prior, provider, dist, i);
        }
      }
    }
  }

  /** After one run, a centre that got a non-empty answer is done. */
  lemma AnsweredPointDone(cs: seq<Centre>, prior: seq<PanoRecord>, provider: Provider, dist: Distance, i: nat)
    requires i < |cs|
    requires provider(cs[i].lat, cs[i].lon).Panoids? && |provider(cs[i].lat, cs[i].lon).items| > 0
    ensures (cs[i].lat, cs[i].lon) in DoneSet(prior + Collected(cs, DoneSet(prior), provider, dist))
  {
    var grown := prior + Collected(cs, DoneSet(prior), provider, dist);
    if (cs[i].lat, cs[i].lon) in DoneSet(prior) {
      var q :| q in prior && (q.queryLat, q.queryLon) == (cs[i].lat, cs[i].lon);
      assert q in grown;
    } else {
      AnsweredCentreCollected(cs, DoneSet(prior), provider, dist, i);
      var q := Observe(provider(cs[i].lat, cs[i].lon).items[0], cs[i], dist);
      assert q in grown;
    }
  }

  /** A point whose provider call fails or answers empty stays out of
      done_set: the output gains no row for it, so the next run queries it
      again. */
  lemma FailedPointRetried(cs: seq<Centre>, prior: seq<PanoRecord>, provider: Provider, dist: Distance,
                           c: Centre)
    requires (c.lat, c.lon) !in DoneSet(prior)
    requires provider(c.lat, c.lon).Failed? || provider(c.lat, c.lon).items == []
    ensures (c.lat, c.lon) !in DoneSet(prior + Collected(cs, DoneSet(prior), provider, dist))
  {
    var grown := prior + Collected(cs, DoneSet(prior), provider, dist);
    forall r | r in grown ensures (r.queryLat, r.queryLon) != (c.lat, c.lon) {
      if r in Collected(cs, DoneSet(prior), provider, dist) {
        var c', k := RowSource(cs, DoneSet(prior), provider, dist, r);
      }
    }
  }
}
