/** Timeline generation (app.py:102-106): the window from the earliest departure
    to the latest arrival, the frame count, and `pd.date_range(start, end, periods=n)`. */
module Timeline {
  import opened Seqs
  import opened Schedule

  /** Why a run ends before any frame exists. */
  datatype Failure = EmptyDataset

  datatype Result<T> = Ok(value: T) | Err(failure: Failure)

  /** Every flight lands no earlier than it departs. */
  ghost predicate WellFormed(fs: seq<Flight>) {
    forall i :: 0 <= i < |fs| ==> fs[i].departure <= fs[i].arrival
  }

  /** `df['departure_time'].min()` */
  function MinDeparture(fs: seq<Flight>): (m: int)
    requires fs != []
    ensures forall i :: 0 <= i < |fs| ==> m <= fs[i].departure
    ensures exists i :: 0 <= i < |fs| && m == fs[i].departure
  {
    if |fs| == 1 then fs[0].departure
    else
      var rest := MinDeparture(fs[1..]);
      assert forall i :: 1 <= i < |fs| ==> fs[i] == fs[1..][i - 1];
      if fs[0].departure <= rest then fs[0].departure else rest
  }

  /** `df['arrival_time'].max()` */
  function MaxArrival(fs: seq<Flight>): (m: int)
    requires fs != []
    ensures forall i :: 0 <= i < |fs| ==> fs[i].arrival <= m
    ensures exists i :: 0 <= i < |fs| && m == fs[i].arrival
  {
    if |fs| == 1 then fs[0].arrival
    else
      var rest := MaxArrival(fs[1..]);
      assert forall i :: 1 <= i < |fs| ==> fs[i] == fs[1..][i - 1];
      if rest <= fs[0].arrival then fs[0].arrival else rest
  }

  lemma MulMono(x: int, y: int, d: int)
    requires x <= y && 0 <= d
    ensures x * d <= y * d
  {
    assert y * d - x * d == (y - x) * d;
  }

  lemma MulLtCancel(x: int, y: int, d: int)
    requires 0 < d && x * d < y * d
    ensures x < y
  {
    if y <= x { MulMono(y, x, d); }
  }

  lemma DivBounds(a: int, d: int)
    requires d > 0
    ensures (a / d) * d <= a < (a / d) * d + d
  {
  }

  /** The Euclidean quotient is the only `q` with `q * d <= a < q * d + d`. */
  lemma DivUnique(a: int, d: int, q: int)
    requires d > 0 && q * d <= a < q * d + d
    ensures a / d == q
  {
    var q' := a / d;
    DivBounds(a, d);
    assert q' * d < (q + 1) * d;
    MulLtCancel(q', q + 1, d);
    assert q * d < (q' + 1) * d;
    MulLtCancel(q, q' + 1, d);
  }

  lemma DivMono(a: int, b: int, d: int)
    requires a <= b && d > 0
    ensures a / d <= b / d
  {
    DivBounds(a, d);
    DivBounds(b, d);
    assert (a / d) * d < (b / d + 1) * d;
    MulLtCancel(a / d, b / d + 1, d);
  }

  lemma DivShift(a: int, d: int)
    requires d > 0
    ensures (a + d) / d == a / d + 1
  {
    DivBounds(a, d);
    assert (a / d + 1) * d == (a / d) * d + d;
    DivUnique(a + d, d, a / d + 1);
  }

  /** Python's `int()` of a quotient: division truncated toward zero. */
  function TruncDiv(a: int, b: int): (q: int)
    requires b > 0
    ensures a >= 0 ==> 0 <= q && q * b <= a < q * b + b
    ensures a < 0 ==> q <= 0 && -q * b <= -a < -q * b + b
  {
    if a >= 0 then DivBounds(a, b); MulLtCancel(-1, a / b, b); a / b
    else DivBounds(-a, b); MulLtCancel(-1, (-a) / b, b); -((-a) / b)
  }

  /** `max(int(total_hours * frames_per_hour), 1)` with `total_hours = seconds / 3600`:
      the whole number of frames the window holds at this density, and at least one. */
  function FrameCount(seconds: int, fph: int): (n: int)
    ensures n >= 1
    ensures seconds * fph >= 3600 ==> n * 3600 <= seconds * fph < n * 3600 + 3600
    ensures seconds * fph < 7200 ==> n == 1
  {
    var q := TruncDiv(seconds * fph, 3600);
    if q >= 1 then q else 1
  }

  /** At a density of at most one frame per second there are no more frames
      than seconds in a non-empty window. */
  lemma FrameCountAtMostSeconds(seconds: int, fph: int)
    requires 0 < fph <= 3600
    ensures FrameCount(seconds, fph) == 1 || FrameCount(seconds, fph) <= seconds
  {
    if seconds >= 1 {
      MulMono(fph, 3600, seconds);
      assert seconds * fph <= seconds * 3600;
    } else {
      MulMono(seconds, 0, fph);
      assert seconds * fph <= 0;
    }
  }

  /** Instant `k` of `n >= 2` evenly spaced instants from `start` to `end`
      (`np.linspace` truncated to whole seconds). */
  function Spaced(start: int, end: int, n: int, k: int): int
    requires n >= 2 && start <= end && 0 <= k < n
  {
    start + k * (end - start) / (n - 1)
  }

  lemma SpacedBounds(start: int, end: int, n: int, k: int)
    requires n >= 2 && start <= end && 0 <= k < n
    ensures start <= Spaced(start, end, n, k) <= end
    ensures k == 0 ==> Spaced(start, end, n, k) == start
    ensures k == n - 1 ==> Spaced(start, end, n, k) == end
  {
    var w, d := end - start, n - 1;
    MulMono(k, d, w);
    MulMono(0, k, w);
    assert k * w <= d * w;
    DivMono(k * w, d * w, d);
    DivMono(0, k * w, d);
    DivUnique(0, d, 0);
    assert d * w == w * d;
    DivUnique(d * w, d, w);
  }

  /** Instant `k` is `k/(n-1)` of the way through the window, rounded down to a
      whole second. */
  lemma SpacedValue(start: int, end: int, n: int, k: int)
    requires n >= 2 && start <= end && 0 <= k < n
    ensures var x := Spaced(start, end, n, k) - start;
            x * (n - 1) <= k * (end - start) < (x + 1) * (n - 1)
  {
    var q := k * (end - start) / (n - 1);
    DivBounds(k * (end - start), n - 1);
    assert (q + 1) * (n - 1) == q * (n - 1) + (n - 1);
  }

  lemma SpacedMono(start: int, end: int, n: int, i: int, j: int)
    requires n >= 2 && start <= end && 0 <= i <= j < n
    ensures Spaced(start, end, n, i) <= Spaced(start, end, n, j)
    ensures i < j && n - 1 <= end - start ==> Spaced(start, end, n, i) < Spaced(start, end, n, j)
  {
    var w, d := end - start, n - 1;
    MulMono(i, j, w);
    DivMono(i * w, j * w, d);
    if i < j && d <= w {
      MulMono(i + 1, j, w);
      assert (i + 1) * w == i * w + w;
      DivMono(i * w + d, j * w, d);
      DivShift(i * w, d);
    }
  }

  /** `pd.date_range(start=start, end=end, periods=n)`: `n` instants, the first at
      `start`, the last at `end` when `n >= 2`, instant `k` at `k/(n-1)` of the
      window rounded down to a second, never decreasing, and strictly increasing
      when the step is at least one second. */
  function DateRange(start: int, end: int, n: int): (ts: seq<int>)
    requires n >= 1 && (n == 1 || start <= end)
    ensures |ts| == n
    ensures ts[0] == start
    ensures n >= 2 ==> ts[n - 1] == end
    ensures start <= end ==> forall k :: 0 <= k < n ==> start <= ts[k] <= end
    ensures Nondecreasing(ts)
    ensures n == 1 || n - 1 <= end - start ==> StrictlyIncreasing(ts)
    ensures n >= 2 ==> forall k :: 0 <= k < n ==>
              (ts[k] - start) * (n - 1) <= k * (end - start) < (ts[k] - start + 1) * (n - 1)
  {
    if n == 1 then [start]
    else
      var ts := seq(n, k requires 0 <= k < n => Spaced(start, end, n, k));
      assert forall k :: 0 <= k < n ==> start <= ts[k] <= end by {
        forall k | 0 <= k < n ensures start <= ts[k] <= end { SpacedBounds(start, end, n, k); }
      }
      SpacedBounds(start, end, n, 0);
      SpacedBounds(start, end, n, n - 1);
      assert Nondecreasing(ts) by {
        forall i, j | 0 <= i <= j < n ensures ts[i] <= ts[j] { SpacedMono(start, end, n, i, j); }
      }
      assert forall k :: 0 <= k < n ==>
               (ts[k] - start) * (n - 1) <= k * (end - start) < (ts[k] - start + 1) * (n - 1) by {
        forall k | 0 <= k < n
          ensures (ts[k] - start) * (n - 1) <= k * (end - start) < (ts[k] - start + 1) * (n - 1)
        {
          SpacedValue(start, end, n, k);
        }
      }
      assert n - 1 <= end - start ==> StrictlyIncreasing(ts) by {
        if n - 1 <= end - start {
          forall i, j | 0 <= i < j < n ensures ts[i] < ts[j] { SpacedMono(start, end, n, i, j); }
        }
      }
      ts
  }

  /** The animation timeline of app.py:102-106. An empty table has no window:
      there `min()` is undefined and the run fails. */
  function GenerateTimeline(fs: seq<Flight>, fph: int): (r: Result<seq<int>>)
    requires fph > 0
    ensures r.Err? <==> fs == []
    ensures r.Ok? ==>
              && |r.value| == FrameCount(MaxArrival(fs) - MinDeparture(fs), fph)
              && r.value[0] == MinDeparture(fs)
              && (|r.value| >= 2 ==> r.value[|r.value| - 1] == MaxArrival(fs))
    ensures r.Ok? ==> Nondecreasing(r.value)
    ensures r.Ok? && WellFormed(fs) ==>
              forall k :: 0 <= k < |r.value| ==> MinDeparture(fs) <= r.value[k] <= MaxArrival(fs)
    ensures r.Ok? && fph <= 3600 ==> StrictlyIncreasing(r.value)
    ensures r.Ok? ==> FrameCount(MaxArrival(fs) - MinDeparture(fs), fph) == 1 || MinDeparture(fs) <= MaxArrival(fs)
    ensures r.Ok? ==> r.value == DateRange(MinDeparture(fs), MaxArrival(fs), FrameCount(MaxArrival(fs) - MinDeparture(fs), fph))
  {
    if fs == [] then Err(EmptyDataset)
    else
      var start, end := MinDeparture(fs), MaxArrival(fs);
      var n := FrameCount(end - start, fph);
      WindowFacts(fs, fph);
      Ok(DateRange(start, end, n))
  }

  /** The window of a non-empty table: one frame when it is negative, never
      negative on a well-formed table, and at slider densities at least a second
      per step. */
  lemma WindowFacts(fs: seq<Flight>, fph: int)
    requires fs != [] && fph > 0
    ensures var start, end := MinDeparture(fs), MaxArrival(fs);
            var n := FrameCount(end - start, fph);
            && (n >= 2 ==> start <= end)
            && (WellFormed(fs) ==> start <= end)
            && (fph <= 3600 ==> n == 1 || n - 1 <= end - start)
  {
    var start, end := MinDeparture(fs), MaxArrival(fs);
    var n := FrameCount(end - start, fph);
    assert n >= 2 ==> start <= end by {
      if end < start { MulMono(end - start, 0, fph); }
    }
    assert WellFormed(fs) ==> start <= end by {
      if WellFormed(fs) {
        var i :| 0 <= i < |fs| && start == fs[i].departure;
        assert fs[i].arrival <= end;
      }
    }
    assert fph <= 3600 ==> n == 1 || n - 1 <= end - start by {
      if fph <= 3600 { FrameCountAtMostSeconds(end - start, fph); }
    }
  }
}
