/** Densification (app.py:108-123): for every timeline instant, in order, and every
    flight, in row order, one interpolated row per active flight. */
module Densify {
  import opened Seqs
  import opened Schedule

  /** Some flight is airborne at `t`. */
  predicate HasActive(fs: seq<Flight>, t: int) {
    exists i :: 0 <= i < |fs| && Active(fs[i], t)
  }

  /** The rows the inner loop (app.py:110-123) appends at instant `t`. */
  function PointsAt(t: int, fs: seq<Flight>): (ps: seq<Point>)
    ensures |ps| <= |fs|
    ensures forall k :: 0 <= k < |ps| ==> ps[k].instant == t
    ensures ps != [] <==> HasActive(fs, t)
  {
    if fs == [] then []
    else
      var init, f := fs[..|fs| - 1], fs[|fs| - 1];
      var ps := PointsAt(t, init) + (if Active(f, t) then [Sample(f, t)] else []);
      assert HasActive(fs, t) <==> HasActive(init, t) || Active(f, t) by {
        if HasActive(init, t) {
          var i :| 0 <= i < |init| && Active(init[i], t);
          assert fs[i] == init[i];
        }
        if HasActive(fs, t) && !Active(f, t) {
          var i :| 0 <= i < |fs| && Active(fs[i], t);
          assert i < |init| && init[i] == fs[i];
        }
      }
      ps
  }

  /** The whole `densified_data` list: the rows of each instant, instant after instant. */
  function Densified(ts: seq<int>, fs: seq<Flight>): (ps: seq<Point>)
    ensures forall k :: 0 <= k < |ps| ==> ps[k].instant in ts
  {
    if ts == [] then []
    else
      var init, t := ts[..|ts| - 1], ts[|ts| - 1];
      var ps := Densified(init, fs) + PointsAt(t, fs);
      assert forall k :: 0 <= k < |ps| ==> ps[k].instant in ts by {
        forall k | 0 <= k < |ps| ensures ps[k].instant in ts {
          if k < |Densified(init, fs)| {
            var x := Densified(init, fs)[k].instant;
            assert x in init;
            var j :| 0 <= j < |init| && init[j] == x;
            assert ts[j] == x;
          }
        }
      }
      ps
  }

  /** The nested loops of app.py:108-123, appending to `densified_data`. */
  method Densify(ts: seq<int>, fs: seq<Flight>) returns (points: seq<Point>)
    ensures points == Densified(ts, fs)
  {
    points := [];
    for k := 0 to |ts|
      invariant points == Densified(ts[..k], fs)
    {
      var atT := SampleInstant(ts[k], fs);
      assert ts[..k + 1][..k] == ts[..k] && ts[..k + 1][k] == ts[k];
      points := points + atT;
    }
    assert ts[..|ts|] == ts;
  }

  /** The inner loop of app.py:110-123: one row per flight airborne at `t`. */
  method SampleInstant(t: int, fs: seq<Flight>) returns (points: seq<Point>)
    ensures points == PointsAt(t, fs)
  {
    points := [];
    for i := 0 to |fs|
      invariant points == PointsAt(t, fs[..i])
    {
      var f := fs[i];
      PointsAtNext(t, fs, i);
      if f.departure <= t <= f.arrival {
        var duration := f.arrival - f.departure;
        var elapsed := t - f.departure;
        var ratio := if duration > 0 then elapsed as real / duration as real else 0.0;
        var lat := f.originLat + (f.destLat - f.originLat) * ratio;
        var lon := f.originLon + (f.destLon - f.originLon) * ratio;
        var p := Point(f.id, f.originCode, t, lat, lon);
        assert p == Sample(f, t) by { SampleFormula(f, t); }
        points := points + [p];
      }
    }
    assert fs[..|fs|] == fs;
  }

  lemma PointsAtNext(t: int, fs: seq<Flight>, i: int)
    requires 0 <= i < |fs|
    ensures PointsAt(t, fs[..i + 1]) == PointsAt(t, fs[..i]) + (if Active(fs[i], t) then [Sample(fs[i], t)] else [])
  {
    assert fs[..i + 1][..i] == fs[..i];
  }

  /** The row of `Sample`, written with the loop's own arithmetic. */
  lemma SampleFormula(f: Flight, t: int)
    ensures var duration := f.arrival - f.departure;
            var ratio := if duration > 0 then (t - f.departure) as real / duration as real else 0.0;
            Sample(f, t) == Point(f.id, f.originCode, t, f.originLat + (f.destLat - f.originLat) * ratio,
                                  f.originLon + (f.destLon - f.originLon) * ratio)
  {
  }

  lemma {:induction false} PointsAtSound(t: int, fs: seq<Flight>, p: Point)
    requires p in PointsAt(t, fs)
    ensures exists i :: 0 <= i < |fs| && Active(fs[i], t) && p == Sample(fs[i], t)
  {
    var init, f := fs[..|fs| - 1], fs[|fs| - 1];
    if p in PointsAt(t, init) {
      PointsAtSound(t, init, p);
      var i :| 0 <= i < |init| && Active(init[i], t) && p == Sample(init[i], t);
      assert fs[i] == init[i];
    } else {
      assert Active(fs[|fs| - 1], t) && p == Sample(fs[|fs| - 1], t);
    }
  }

  lemma {:induction false} PointsAtComplete(t: int, fs: seq<Flight>, i: int)
    requires 0 <= i < |fs| && Active(fs[i], t)
    ensures Sample(fs[i], t) in PointsAt(t, fs)
  {
    var init := fs[..|fs| - 1];
    if i < |init| {
      assert init[i] == fs[i];
      PointsAtComplete(t, init, i);
    }
  }

  lemma {:induction false} DensifiedSound(ts: seq<int>, fs: seq<Flight>, p: Point)
    requires p in Densified(ts, fs)
    ensures exists k, i :: 0 <= k < |ts| && 0 <= i < |fs| && Active(fs[i], ts[k]) && p == Sample(fs[i], ts[k])
  {
    var init, t := ts[..|ts| - 1], ts[|ts| - 1];
    if p in Densified(init, fs) {
      DensifiedSound(init, fs, p);
      var k, i :| 0 <= k < |init| && 0 <= i < |fs| && Active(fs[i], init[k]) && p == Sample(fs[i], init[k]);
      assert ts[k] == init[k];
    } else {
      PointsAtSound(t, fs, p);
      var i :| 0 <= i < |fs| && Active(fs[i], t) && p == Sample(fs[i], t);
      assert ts[|ts| - 1] == t;
    }
  }

  lemma {:induction false} DensifiedComplete(ts: seq<int>, fs: seq<Flight>, k: int, i: int)
    requires 0 <= k < |ts| && 0 <= i < |fs| && Active(fs[i], ts[k])
    ensures Sample(fs[i], ts[k]) in Densified(ts, fs)
  {
    var init := ts[..|ts| - 1];
    if k < |init| {
      assert init[k] == ts[k];
      DensifiedComplete(init, fs, k, i);
    } else {
      PointsAtComplete(ts[k], fs, i);
    }
  }

  /** A row is produced exactly for each (instant, active flight) pair. */
  lemma DensifiedMembership(ts: seq<int>, fs: seq<Flight>, p: Point)
    ensures p in Densified(ts, fs) <==>
              exists k, i :: 0 <= k < |ts| && 0 <= i < |fs| && Active(fs[i], ts[k]) && p == Sample(fs[i], ts[k])
  {
    if p in Densified(ts, fs) {
      DensifiedSound(ts, fs, p);
    }
    if exists k, i :: 0 <= k < |ts| && 0 <= i < |fs| && Active(fs[i], ts[k]) && p == Sample(fs[i], ts[k]) {
      var k, i :| 0 <= k < |ts| && 0 <= i < |fs| && Active(fs[i], ts[k]) && p == Sample(fs[i], ts[k]);
      DensifiedComplete(ts, fs, k, i);
    }
  }

  /** No row at all exactly when no flight is airborne at any instant. */
  lemma {:induction false} DensifiedEmpty(ts: seq<int>, fs: seq<Flight>)
    ensures Densified(ts, fs) == [] <==> forall k :: 0 <= k < |ts| ==> !HasActive(fs, ts[k])
  {
    if ts != [] {
      var init, t := ts[..|ts| - 1], ts[|ts| - 1];
      DensifiedEmpty(init, fs);
      assert forall k :: 0 <= k < |init| ==> init[k] == ts[k];
    }
  }

  // ---- how many rows each flight gets ----

  ghost predicate UniqueIds(fs: seq<Flight>) {
    forall i, j :: 0 <= i < j < |fs| ==> fs[i].id != fs[j].id
  }

  /** Number of rows carrying flight id `id`. */
  function CountId(ps: seq<Point>, id: string): nat {
    if ps == [] then 0
    else CountId(ps[..|ps| - 1], id) + (if ps[|ps| - 1].flightId == id then 1 else 0)
  }

  /** Number of timeline instants inside the closed window of `f`. */
  function InstantsInWindow(ts: seq<int>, f: Flight): nat {
    if ts == [] then 0
    else InstantsInWindow(ts[..|ts| - 1], f) + (if Active(f, ts[|ts| - 1]) then 1 else 0)
  }

  lemma {:induction false} CountIdAppend(a: seq<Point>, b: seq<Point>, id: string)
    ensures CountId(a + b, id) == CountId(a, id) + CountId(b, id)
  {
    if b != [] {
      var b' := b[..|b| - 1];
      assert (a + b)[..|a + b| - 1] == a + b';
      CountIdAppend(a, b', id);
    } else {
      assert a + b == a;
    }
  }

  lemma {:induction false} PointsAtCountAbsent(t: int, fs: seq<Flight>, id: string)
    requires forall i :: 0 <= i < |fs| ==> fs[i].id != id
    ensures CountId(PointsAt(t, fs), id) == 0
  {
    if fs != [] {
      var init, f := fs[..|fs| - 1], fs[|fs| - 1];
      PointsAtCountAbsent(t, init, id);
      CountIdAppend(PointsAt(t, init), if Active(f, t) then [Sample(f, t)] else [], id);
      assert CountId([Sample(f, t)], id) == 0 by {
        assert [Sample(f, t)][..0] == [];
      }
    }
  }

  lemma {:induction false} PointsAtCount(t: int, fs: seq<Flight>, j: int)
    requires UniqueIds(fs) && 0 <= j < |fs|
    ensures CountId(PointsAt(t, fs), fs[j].id) == if Active(fs[j], t) then 1 else 0
  {
    var init, f := fs[..|fs| - 1], fs[|fs| - 1];
    var id := fs[j].id;
    var tail := if Active(f, t) then [Sample(f, t)] else [];
    CountIdAppend(PointsAt(t, init), tail, id);
    assert [Sample(f, t)][..0] == [];
    if j == |fs| - 1 {
      PointsAtCountAbsent(t, init, id);
    } else {
      assert init[j] == fs[j];
      PointsAtCount(t, init, j);
      assert f.id != id;
    }
  }

  /** With distinct flight ids, each flight gets exactly one row per timeline
      instant inside its closed window [departure, arrival]. */
  lemma {:induction false} RowsPerFlight(ts: seq<int>, fs: seq<Flight>, j: int)
    requires UniqueIds(fs) && 0 <= j < |fs|
    ensures CountId(Densified(ts, fs), fs[j].id) == InstantsInWindow(ts, fs[j])
  {
    if ts != [] {
      var init, t := ts[..|ts| - 1], ts[|ts| - 1];
      RowsPerFlight(init, fs, j);
      CountIdAppend(Densified(init, fs), PointsAt(t, fs), fs[j].id);
      PointsAtCount(t, fs, j);
    }
  }

  // ---- the instants the rows carry ----

  function Instants(ps: seq<Point>): (r: seq<int>)
    ensures |r| == |ps| && forall k :: 0 <= k < |ps| ==> r[k] == ps[k].instant
  {
    seq(|ps|, k requires 0 <= k < |ps| => ps[k].instant)
  }

  /** The timeline instants at which at least one flight is airborne, in timeline order. */
  function Framed(ts: seq<int>, fs: seq<Flight>): (r: seq<int>)
    ensures |r| <= |ts|
    ensures forall k :: 0 <= k < |r| ==> r[k] in ts && HasActive(fs, r[k])
    ensures forall k :: 0 <= k < |ts| && HasActive(fs, ts[k]) ==> ts[k] in r
  {
    if ts == [] then []
    else
      var init, t := ts[..|ts| - 1], ts[|ts| - 1];
      var r := Framed(init, fs) + (if HasActive(fs, t) then [t] else []);
      assert forall k :: 0 <= k < |ts| && HasActive(fs, ts[k]) ==> ts[k] in r by {
        forall k | 0 <= k < |ts| && HasActive(fs, ts[k]) ensures ts[k] in r {
          if k < |init| { assert init[k] == ts[k]; }
        }
      }
      assert forall k :: 0 <= k < |r| ==> r[k] in ts by {
        forall k | 0 <= k < |r| ensures r[k] in ts {
          if k < |Framed(init, fs)| {
            var x := r[k];
            assert x in init;
            var m :| 0 <= m < |init| && init[m] == x;
            assert ts[m] == x;
          }
        }
      }
      r
  }

  /** The framed instants of a split timeline are those of each part in turn. */
  lemma {:induction false} FramedAppend(a: seq<int>, b: seq<int>, fs: seq<Flight>)
    ensures Framed(a + b, fs) == Framed(a, fs) + Framed(b, fs)
    decreases |b|
  {
    if b == [] {
      assert a + b == a;
    } else {
      var b', t := b[..|b| - 1], b[|b| - 1];
      assert (a + b)[..|a + b| - 1] == a + b';
      assert (a + b)[|a + b| - 1] == t;
      FramedAppend(a, b', fs);
    }
  }

  /** When some flight is airborne at every instant, every instant is framed. */
  lemma {:induction false} FramedAllActive(ts: seq<int>, fs: seq<Flight>)
    requires forall k :: 0 <= k < |ts| ==> HasActive(fs, ts[k])
    ensures Framed(ts, fs) == ts
  {
    if ts != [] {
      var init := ts[..|ts| - 1];
      assert forall k :: 0 <= k < |init| ==> HasActive(fs, init[k]) by {
        forall k | 0 <= k < |init| ensures HasActive(fs, init[k]) { assert init[k] == ts[k]; }
      }
      FramedAllActive(init, fs);
      assert HasActive(fs, ts[|ts| - 1]);
      assert ts == init + [ts[|ts| - 1]];
    }
  }

  /** The framed instants are the first `|Framed(ts, fs)|` of the timeline exactly
      when a flight is airborne at each of those. */
  lemma FramedIsPrefixIff(ts: seq<int>, fs: seq<Flight>)
    ensures |Framed(ts, fs)| <= |ts|
    ensures Framed(ts, fs) == ts[..|Framed(ts, fs)|] <==>
              forall k :: 0 <= k < |Framed(ts, fs)| ==> HasActive(fs, ts[k])
  {
    var framed := Framed(ts, fs);
    var m := |framed|;
    if forall k :: 0 <= k < m ==> HasActive(fs, ts[k]) {
      assert ts == ts[..m] + ts[m..];
      FramedAppend(ts[..m], ts[m..], fs);
      FramedAllActive(ts[..m], fs);
    }
    if framed == ts[..m] {
      forall k | 0 <= k < m ensures HasActive(fs, ts[k]) {
        assert ts[k] == framed[k];
      }
    }
  }

  /** The rows carry no more distinct instants than the timeline has. */
  lemma DistinctInstantsFit(ts: seq<int>, fs: seq<Flight>)
    ensures |Unique(Instants(Densified(ts, fs)))| <= |ts|
  {
    var ps := Densified(ts, fs);
    var u := Unique(Instants(ps));
    forall x | x in u ensures x in ts {
      var i :| 0 <= i < |u| && u[i] == x;
      assert u[i] in Instants(ps);
      var k :| 0 <= k < |ps| && Instants(ps)[k] == x;
      assert ps[k].instant in ts;
    }
    DistinctSubsetShorter(u, ts);
  }

  /** Rows come out instant by instant: over a nondecreasing timeline their
      instants never decrease. */
  lemma {:induction false} DensifiedInstantsNondecreasing(ts: seq<int>, fs: seq<Flight>)
    requires Nondecreasing(ts)
    ensures Nondecreasing(Instants(Densified(ts, fs)))
  {
    if ts != [] {
      var init, t := ts[..|ts| - 1], ts[|ts| - 1];
      assert Nondecreasing(init) by {
        forall i, j | 0 <= i <= j < |init| ensures init[i] <= init[j] { assert init[i] == ts[i] && init[j] == ts[j]; }
      }
      DensifiedInstantsNondecreasing(init, fs);
      var a, b := Densified(init, fs), PointsAt(t, fs);
      var s := Instants(a + b);
      forall i, j | 0 <= i <= j < |s| ensures s[i] <= s[j] {
        if j < |a| {
          assert s[i] == Instants(a)[i] && s[j] == Instants(a)[j];
        } else {
          assert s[j] == t;
          if i < |a| {
            var m :| 0 <= m < |init| && init[m] == a[i].instant;
            assert ts[m] == s[i];
          }
        }
      }
    }
  }

  /** Over a strictly increasing timeline, the distinct instants of the rows, in
      first-appearance order, are exactly the instants with an airborne flight. */
  lemma {:induction false} DistinctInstantsAreFramed(ts: seq<int>, fs: seq<Flight>)
    requires StrictlyIncreasing(ts)
    ensures Unique(Instants(Densified(ts, fs))) == Framed(ts, fs)
  {
    if ts != [] {
      var init, t := ts[..|ts| - 1], ts[|ts| - 1];
      assert StrictlyIncreasing(init) by {
        forall i, j | 0 <= i < j < |init| ensures init[i] < init[j] { assert init[i] == ts[i] && init[j] == ts[j]; }
      }
      DistinctInstantsAreFramed(init, fs);
      var a, b := Densified(init, fs), PointsAt(t, fs);
      assert Instants(a + b) == Instants(a) + Instants(b);
      EarlierInstantsBelow(ts, fs);
      UniqueAppendRun(Instants(a), Instants(b), t);
      assert Instants(b) == [] <==> !HasActive(fs, t);
    }
  }

  lemma EarlierInstantsBelow(ts: seq<int>, fs: seq<Flight>)
    requires ts != [] && StrictlyIncreasing(ts)
    ensures ts[|ts| - 1] !in Instants(Densified(ts[..|ts| - 1], fs))
  {
    var init, t := ts[..|ts| - 1], ts[|ts| - 1];
    var a := Densified(init, fs);
    forall k | 0 <= k < |a| ensures Instants(a)[k] != t {
      var m :| 0 <= m < |init| && init[m] == a[k].instant;
      assert ts[m] < ts[|ts| - 1];
    }
  }
}
