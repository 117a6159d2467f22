/** One row of the flight table and the per-flight interpolation arithmetic
    (app.py:111-116). Instants are whole seconds; coordinates are reals. */
module Schedule {

  datatype Flight = Flight(
    id: string,
    originCode: string, originLat: real, originLon: real,
    destCode: string, destLat: real, destLon: real,
    departure: int, arrival: int)

  /** One densified row (app.py:117-123): a flight's position at one instant. */
  datatype Point = Point(flightId: string, originCode: string, instant: int, lat: real, lon: real)

  /** The closed activity window of app.py:111. */
  predicate Active(f: Flight, t: int) {
    f.departure <= t <= f.arrival
  }

  function Min(a: real, b: real): real { if a <= b then a else b }
  function Max(a: real, b: real): real { if a <= b then b else a }

  /** Progress ratio of app.py:112-114; no division happens unless the duration is positive. */
  function Progress(f: Flight, t: int): (r: real)
    ensures f.arrival - f.departure <= 0 ==> r == 0.0
    ensures Active(f, t) ==> 0.0 <= r <= 1.0
    ensures t == f.departure ==> r == 0.0
    ensures t == f.arrival && f.departure < f.arrival ==> r == 1.0
    ensures f.departure < f.arrival ==> r * (f.arrival - f.departure) as real == (t - f.departure) as real
  {
    var duration := f.arrival - f.departure;
    if duration > 0 then
      var r := (t - f.departure) as real / duration as real;
      assert r * duration as real == (t - f.departure) as real;
      assert t == f.arrival ==> r == 1.0;
      r
    else 0.0
  }

  /** Straight-line interpolation from `a` to `b` (app.py:115-116); for a ratio in
      [0,1] the result lies between the two ends. */
  function Lerp(a: real, b: real, r: real): (x: real)
    ensures r == 0.0 ==> x == a
    ensures r == 1.0 ==> x == b
    ensures 0.0 <= r <= 1.0 ==> Min(a, b) <= x <= Max(a, b)
  {
    if 0.0 <= r <= 1.0 then LerpBetween(a, b, r); a + (b - a) * r
    else a + (b - a) * r
  }

  lemma ScaleBounds(d: real, r: real)
    requires 0.0 <= d && 0.0 <= r <= 1.0
    ensures 0.0 <= d * r <= d
  {
    assert d * (1.0 - r) >= 0.0;
  }

  lemma LerpBetween(a: real, b: real, r: real)
    requires 0.0 <= r <= 1.0
    ensures Min(a, b) <= a + (b - a) * r <= Max(a, b)
  {
    if a <= b {
      var d := b - a;
      ScaleBounds(d, r);
      assert d * r <= d;
      assert a + d * r <= b;
      assert Max(a, b) == b;
      assert (b - a) * r == d * r;
    } else {
      var d := a - b;
      ScaleBounds(d, r);
      var p := d * r;
      assert 0.0 <= p <= a - b;
      assert (b - a) * r == -p;
      assert b <= a - p <= a;
      assert Min(a, b) == b && Max(a, b) == a;
    }
  }

  /** The row app.py:117-123 appends for flight `f` at instant `t`. */
  function Sample(f: Flight, t: int): (p: Point)
    ensures p.flightId == f.id && p.originCode == f.originCode && p.instant == t
    ensures t == f.departure ==> p.lat == f.originLat && p.lon == f.originLon
    ensures t == f.arrival && f.departure < f.arrival ==> p.lat == f.destLat && p.lon == f.destLon
    ensures f.departure == f.arrival ==> p.lat == f.originLat && p.lon == f.originLon
    ensures Active(f, t) ==>
              && Min(f.originLat, f.destLat) <= p.lat <= Max(f.originLat, f.destLat)
              && Min(f.originLon, f.destLon) <= p.lon <= Max(f.originLon, f.destLon)
    ensures f.departure < f.arrival ==>
              && (p.lat - f.originLat) * (f.arrival - f.departure) as real == (f.destLat - f.originLat) * (t - f.departure) as real
              && (p.lon - f.originLon) * (f.arrival - f.departure) as real == (f.destLon - f.originLon) * (t - f.departure) as real
  {
    var ratio := Progress(f, t);
    var p := Point(f.id, f.originCode, t, Lerp(f.originLat, f.destLat, ratio), Lerp(f.originLon, f.destLon, ratio));
    var d, e := (f.arrival - f.departure) as real, (t - f.departure) as real;
    if f.departure < f.arrival then
      ProportionalStep(f.originLat, f.destLat, ratio, d, e);
      ProportionalStep(f.originLon, f.destLon, ratio, d, e);
      p
    else p
  }

  /** A point a fraction `r = e/d` of the way from `a` to `b` has moved `(b - a) * e / d`. */
  lemma ProportionalStep(a: real, b: real, r: real, d: real, e: real)
    requires r * d == e
    ensures (Lerp(a, b, r) - a) * d == (b - a) * e
  {
    calc {
      (Lerp(a, b, r) - a) * d;
      ((b - a) * r) * d;
      (b - a) * (r * d);
    }
  }
}
