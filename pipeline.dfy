/** The body of `update_graph` once a file is uploaded (app.py:86-235): header check,
    timeline, densification, the empty-state check, colours, annotations and frames. */
module Pipeline {
  import opened Seqs
  import opened Schedule
  import opened Header
  import opened Timeline
  import opened Densify
  import opened Colours
  import opened Airports
  import opened Annotate
  import opened Frames

  /** What the figure is built from: the timeline, the frames, the static airport
      trace and one slider label per frame. */
  datatype Animation = Animation(timeline: seq<int>, frames: seq<Frame>, airports: seq<AirportMarker>, labels: seq<int>)

  /** The four ways a run ends. */
  datatype Outcome =
    | Missing(columns: seq<string>)
    | Failed(failure: Failure)
    | NoFlightsInRange
    | Animated(animation: Animation)

  /** The run as a function of the header, the table and the density. As at
      app.py:235, slider step `i` is labelled with timeline instant `i`. */
  function Render(header: seq<string>, fs: seq<Flight>, fph: int, bearing: (real, real, real, real) -> real): (out: Outcome)
    requires fph > 0
    ensures out.Animated? ==>
              && out.animation.frames != []
              && |out.animation.labels| == |out.animation.frames|
              && |out.animation.airports| == |AllAirports(fs)|
              && |out.animation.frames| <= |out.animation.timeline|
              && out.animation.labels == out.animation.timeline[..|out.animation.frames|]
  {
    var missing := MissingColumns(header);
    if missing != [] then Missing(missing)
    else match GenerateTimeline(fs, fph)
      case Err(e) => Failed(e)
      case Ok(ts) =>
        var ps := Densified(ts, fs);
        if ps == [] then NoFlightsInRange
        else
          var rows := Annotated(ps, BearingMap(fs, bearing));
          var frames := GroupByInstant(rows, ColourMap(fs));
          assert frames != [] by {
            assert ps[0].instant in RowInstants(rows);
          }
          assert |frames| <= |ts| by {
            RowInstantsOfAnnotated(ps, BearingMap(fs, bearing));
            DistinctInstantsFit(ts, fs);
          }
          Animated(Animation(ts, frames, AirportMarkers(fs), SliderInstantsAsWritten(frames, ts)))
  }

  /** `update_graph` after decoding: each stage in turn, stopping at the first that
      has nothing to show, with the slider labelled as at app.py:235. */
  method UpdateGraph(header: seq<string>, fs: seq<Flight>, fph: int, bearing: (real, real, real, real) -> real)
    returns (out: Outcome)
    requires fph > 0
    ensures out == Render(header, fs, fph, bearing)
  {
    var missing := MissingColumns(header);
    if missing != [] {
      return Missing(missing);
    }
    var timeline := GenerateTimeline(fs, fph);
    if timeline.Err? {
      return Failed(timeline.failure);
    }
    var ts := timeline.value;
    var points := Densify.Densify(ts, fs);
    if points == [] {
      return NoFlightsInRange;
    }
    var rows := Annotated(points, BearingMap(fs, bearing));
    var frames := AssembleFrames(rows, ColourMap(fs));
    assert |frames| <= |ts| by {
      RowInstantsOfAnnotated(points, BearingMap(fs, bearing));
      DistinctInstantsFit(ts, fs);
    }
    out := Animated(Animation(ts, frames, AirportMarkers(fs), SliderInstantsAsWritten(frames, ts)));
  }

  /** The timeline a run with a complete header and a non-empty table animates. */
  function TimelineOf(fs: seq<Flight>, fph: int): (ts: seq<int>)
    requires fs != [] && fph > 0
    ensures ts != [] && ts[0] == MinDeparture(fs)
  {
    GenerateTimeline(fs, fph).value
  }

  /** The run stops with the missing names exactly when a required column is absent
      from the stripped header. */
  lemma StopsIffColumnMissing(header: seq<string>, fs: seq<Flight>, fph: int, bearing: (real, real, real, real) -> real)
    requires fph > 0
    ensures Render(header, fs, fph, bearing).Missing? <==>
              exists c :: c in RequiredColumns && c !in StripAll(header)
    ensures Render(header, fs, fph, bearing).Missing? ==>
              forall c :: c in Render(header, fs, fph, bearing).columns <==> c in RequiredColumns && c !in StripAll(header)
  {
  }

  /** With a complete header, the run fails exactly on an empty table. */
  lemma FailsIffEmptyTable(header: seq<string>, fs: seq<Flight>, fph: int, bearing: (real, real, real, real) -> real)
    requires fph > 0 && MissingColumns(header) == []
    ensures Render(header, fs, fph, bearing).Failed? <==> fs == []
  {
  }

  /** The empty-state message appears exactly when no flight is airborne at any
      timeline instant. */
  lemma NoFlightsIffNoneAirborne(header: seq<string>, fs: seq<Flight>, fph: int, bearing: (real, real, real, real) -> real)
    requires fph > 0 && MissingColumns(header) == [] && fs != []
    ensures Render(header, fs, fph, bearing) == NoFlightsInRange <==>
              forall k :: 0 <= k < |TimelineOf(fs, fph)| ==> !HasActive(fs, TimelineOf(fs, fph)[k])
  {
    DensifiedEmpty(TimelineOf(fs, fph), fs);
  }

  /** A table whose flights land no earlier than they depart always animates: the
      first instant is a departure, so that flight is airborne then. */
  lemma WellFormedTableAnimates(header: seq<string>, fs: seq<Flight>, fph: int, bearing: (real, real, real, real) -> real)
    requires fph > 0 && MissingColumns(header) == [] && fs != [] && WellFormed(fs)
    ensures Render(header, fs, fph, bearing).Animated?
  {
    var ts := TimelineOf(fs, fph);
    var i :| 0 <= i < |fs| && MinDeparture(fs) == fs[i].departure;
    assert Active(fs[i], ts[0]);
    DensifiedEmpty(ts, fs);
  }

  /** At no more than one frame per second there is one frame per timeline instant
      at which some flight is airborne, in timeline order. */
  lemma FramesAreAirborneInstants(header: seq<string>, fs: seq<Flight>, fph: int, bearing: (real, real, real, real) -> real)
    requires 0 < fph <= 3600
    requires Render(header, fs, fph, bearing).Animated?
    ensures SliderInstants(Render(header, fs, fph, bearing).animation.frames) == Framed(TimelineOf(fs, fph), fs)
  {
    var ts := TimelineOf(fs, fph);
    var ps := Densified(ts, fs);
    var rows := Annotated(ps, BearingMap(fs, bearing));
    RowInstantsOfAnnotated(ps, BearingMap(fs, bearing));
    DistinctInstantsAreFramed(ts, fs);
    var frames := GroupByInstant(rows, ColourMap(fs));
    assert SliderInstants(frames) == Unique(RowInstants(rows));
  }

  /** The frames come in strictly ascending time order, even when some flight
      lands before it departs. */
  lemma FramesAscendInTime(header: seq<string>, fs: seq<Flight>, fph: int, bearing: (real, real, real, real) -> real)
    requires fph > 0
    requires Render(header, fs, fph, bearing).Animated?
    ensures var frames := Render(header, fs, fph, bearing).animation.frames;
            forall i, j :: 0 <= i < j < |frames| ==> frames[i].instant < frames[j].instant
  {
    var ts := TimelineOf(fs, fph);
    var ps := Densified(ts, fs);
    var rows := Annotated(ps, BearingMap(fs, bearing));
    RowInstantsOfAnnotated(ps, BearingMap(fs, bearing));
    DensifiedInstantsNondecreasing(ts, fs);
    FramesAscend(rows, ColourMap(fs));
  }

  /** A plane is drawn in the colour of its origin airport's static marker, and
      that colour exists. */
  lemma PlaneMatchesAirportColour(ts: seq<int>, fs: seq<Flight>, p: Point)
    requires p in Densified(ts, fs)
    ensures Lookup(ColourMap(fs), p.originCode).Some?
    ensures exists k :: 0 <= k < |AirportMarkers(fs)| &&
              AirportMarkers(fs)[k].code == p.originCode &&
              AirportMarkers(fs)[k].colour == Lookup(ColourMap(fs), p.originCode)
  {
    DensifiedSound(ts, fs, p);
    var k, i :| 0 <= k < |ts| && 0 <= i < |fs| && Active(fs[i], ts[k]) && p == Sample(fs[i], ts[k]);
    var u, ms, cm := AllAirports(fs), AirportMarkers(fs), ColourMap(fs);
    assert p.originCode == fs[i].originCode;
    assert p.originCode in u;
    var j :| 0 <= j < |u| && u[j] == p.originCode;
    assert ms[j].code == p.originCode && ms[j].colour == Some(Palette[j % 15]);
    ColourOfPosition(fs, j);
    assert Lookup(cm, p.originCode) == ms[j].colour;
  }

  /** Every plane has a heading; with one row per flight id it is its own flight's. */
  lemma PlaneHasHeading(ts: seq<int>, fs: seq<Flight>, bearing: (real, real, real, real) -> real, p: Point)
    requires p in Densified(ts, fs)
    ensures Lookup(BearingMap(fs, bearing), p.flightId).Some?
    ensures UniqueIds(fs) ==>
              (exists i :: 0 <= i < |fs| && fs[i].id == p.flightId &&
                 Lookup(BearingMap(fs, bearing), p.flightId) == Some(Heading(fs[i], bearing)))
  {
    DensifiedSound(ts, fs, p);
    var k, i :| 0 <= k < |ts| && 0 <= i < |fs| && Active(fs[i], ts[k]) && p == Sample(fs[i], ts[k]);
    assert fs[i].id in Ids(fs);
    if UniqueIds(fs) {
      BearingOfUniqueIds(fs, bearing, i);
    }
  }

  // ---- plane markers ----

  /** Every plane marker of every frame is a densified row at that frame's
      instant: at the row's position, with the row's hover label, with a heading,
      and in the colour of the static marker of the row's origin airport. */
  lemma FrameMarkerIsPlane(header: seq<string>, fs: seq<Flight>, fph: int, bearing: (real, real, real, real) -> real, i: int, j: int)
    requires fph > 0
    requires Render(header, fs, fph, bearing).Animated?
    requires 0 <= i < |Render(header, fs, fph, bearing).animation.frames|
    requires 0 <= j < |Render(header, fs, fph, bearing).animation.frames[i].planes|
    ensures var a := Render(header, fs, fph, bearing).animation;
            var m := a.frames[i].planes[j];
            && m.angle.Some? && m.colour.Some?
            && exists p :: && p in Densified(a.timeline, fs) && p.instant == a.frames[i].instant
                           && DrawsPoint(m, p, BearingMap(fs, bearing))
                           && ColouredAsAirport(m, p, a.airports)
  {
    var a := Render(header, fs, fph, bearing).animation;
    RenderedAnimation(header, fs, fph, bearing);
    MarkerOfRows(a.timeline, fs, bearing, a.frames, a.airports, i, j);
  }

  /** The same, for frames and airport markers built from timeline `ts`. */
  lemma MarkerOfRows(ts: seq<int>, fs: seq<Flight>, bearing: (real, real, real, real) -> real,
                     frames: seq<Frame>, airports: seq<AirportMarker>, i: int, j: int)
    requires frames == GroupByInstant(Annotated(Densified(ts, fs), BearingMap(fs, bearing)), ColourMap(fs))
    requires airports == AirportMarkers(fs)
    requires 0 <= i < |frames| && 0 <= j < |frames[i].planes|
    ensures var m := frames[i].planes[j];
            && m.angle.Some? && m.colour.Some?
            && exists p :: && p in Densified(ts, fs) && p.instant == frames[i].instant
                           && DrawsPoint(m, p, BearingMap(fs, bearing))
                           && ColouredAsAirport(m, p, airports)
  {
    var ps := Densified(ts, fs);
    var bm, cm := BearingMap(fs, bearing), ColourMap(fs);
    var rows := Annotated(ps, bm);
    var q := FrameMarkerRow(rows, cm, i, j);
    var p, m := ps[q], frames[i].planes[j];
    assert p in ps;
    assert DrawsPoint(m, p, bm) by {
      assert rows[q].point == p && rows[q].bearing == Lookup(bm, p.flightId) && rows[q].hover == HoverText(p.flightId, p.originCode);
    }
    assert m.colour == Lookup(cm, p.originCode);
    PlaneHasHeading(ts, fs, bearing, p);
    PlaneMatchesAirportColour(ts, fs, p);
    assert ColouredAsAirport(m, p, airports);
  }

  /** Marker `m` is drawn at point `p`, with its hover label and its flight's heading lookup. */
  predicate DrawsPoint(m: Marker, p: Point, headings: map<string, real>) {
    && m.lat == p.lat && m.lon == p.lon
    && m.text == HoverText(p.flightId, p.originCode)
    && m.angle == Lookup(headings, p.flightId)
  }

  /** Marker `m` has the colour of the static marker of `p`'s origin airport. */
  predicate ColouredAsAirport(m: Marker, p: Point, airports: seq<AirportMarker>) {
    exists k :: 0 <= k < |airports| && airports[k].code == p.originCode && airports[k].colour == m.colour
  }

  /** What an animated run is built from. */
  lemma RenderedAnimation(header: seq<string>, fs: seq<Flight>, fph: int, bearing: (real, real, real, real) -> real)
    requires fph > 0
    requires Render(header, fs, fph, bearing).Animated?
    ensures fs != []
    ensures var a := Render(header, fs, fph, bearing).animation;
            && a.timeline == TimelineOf(fs, fph)
            && a.frames == GroupByInstant(Annotated(Densified(a.timeline, fs), BearingMap(fs, bearing)), ColourMap(fs))
            && a.airports == AirportMarkers(fs)
  {
    var out := Render(header, fs, fph, bearing);
    assert MissingColumns(header) == [];
    var r := GenerateTimeline(fs, fph);
    assert r.Ok?;
    assert out.animation.timeline == r.value;
  }

  // ---- slider labels ----

  /** The labels as written agree with the frames exactly when each of the first
      `|frames|` timeline instants has an airborne flight: one empty instant before
      the last frame shifts every later label. */
  lemma {:induction false} SliderLabelsAgreeIffNoGap(header: seq<string>, fs: seq<Flight>, fph: int, bearing: (real, real, real, real) -> real)
    requires 0 < fph <= 3600
    requires Render(header, fs, fph, bearing).Animated?
    ensures var a := Render(header, fs, fph, bearing).animation;
            a.labels == SliderInstants(a.frames) <==>
              forall k :: 0 <= k < |a.frames| ==> HasActive(fs, a.timeline[k])
  {
    var a := Render(header, fs, fph, bearing).animation;
    FramesAreAirborneInstants(header, fs, fph, bearing);
    FramedIsPrefixIff(a.timeline, fs);
  }

  /** Two flights five minutes apart: `F1` from 0 s to 60 s, `F2` from 300 s to 360 s. */
  function GapFlights(): seq<Flight> {
    [Flight("F1", "AAA", 0.0, 0.0, "BBB", 1.0, 1.0, 0, 60),
     Flight("F2", "BBB", 1.0, 1.0, "CCC", 2.0, 2.0, 300, 360)]
  }

  lemma GapTimeline()
    ensures TimelineOf(GapFlights(), 30) == [0, 180, 360]
  {
    GapWindow();
    GapFrameCount();
    ThreeInstants();
    assert GenerateTimeline(GapFlights(), 30) == Ok(DateRange(0, 360, 3));
  }

  lemma GapWindow()
    ensures MinDeparture(GapFlights()) == 0 && MaxArrival(GapFlights()) == 360
  {
    var fs := GapFlights();
    assert fs[1..] == [fs[1]];
  }

  lemma GapFrameCount()
    ensures FrameCount(360, 30) == 3
  {
    DivUnique(360 * 30, 3600, 3);
  }

  lemma ThreeInstants()
    ensures DateRange(0, 360, 3) == [0, 180, 360]
  {
    var ts := DateRange(0, 360, 3);
    assert ts[1] == Spaced(0, 360, 3, 1);
    assert Spaced(0, 360, 3, 1) == 180 by {
      DivUnique(1 * 360, 2, 180);
    }
  }

  lemma GapFramed()
    ensures Framed([0, 180, 360], GapFlights()) == [0, 360]
  {
    var fs, ts := GapFlights(), [0, 180, 360];
    assert HasActive(fs, 0) by { assert Active(fs[0], 0); }
    assert !HasActive(fs, 180) by {
      forall i | 0 <= i < |fs| ensures !Active(fs[i], 180) { }
    }
    assert HasActive(fs, 360) by { assert Active(fs[1], 360); }
    assert ts[..2] == [0, 180] && ts[..1] == [0] && ts[..0] == [];
  }

  /** A well-formed table animates over its timeline, and its frames show the
      instants with an airborne flight. */
  lemma AnimatedLabels(header: seq<string>, fs: seq<Flight>, fph: int, bearing: (real, real, real, real) -> real)
    requires 0 < fph <= 3600 && MissingColumns(header) == [] && fs != [] && WellFormed(fs)
    ensures Render(header, fs, fph, bearing).Animated?
    ensures var a := Render(header, fs, fph, bearing).animation;
            && a.timeline == TimelineOf(fs, fph)
            && SliderInstants(a.frames) == Framed(a.timeline, fs)
  {
    WellFormedTableAnimates(header, fs, fph, bearing);
    FramesAreAirborneInstants(header, fs, fph, bearing);
  }

  /** Two flights in a six-minute window at 30 frames an hour: the middle instant
      has no airborne flight, so the second frame, at the end of the window, is
      labelled with the middle instant. */
  lemma SliderLabelsMisattributed(header: seq<string>, fs: seq<Flight>, bearing: (real, real, real, real) -> real)
    requires MissingColumns(header) == [] && fs == GapFlights()
    ensures Render(header, fs, 30, bearing).Animated?
    ensures var a := Render(header, fs, 30, bearing).animation;
            a.labels == [0, 180] && SliderInstants(a.frames) == [0, 360]
  {
    GapTimeline();
    GapFramed();
    GapWellFormed(fs);
    AnimatedLabels(header, fs, 30, bearing);
  }

  lemma GapWellFormed(fs: seq<Flight>)
    requires fs == GapFlights()
    ensures fs != [] && WellFormed(fs)
  {
  }
}
