/** Frame assembly (app.py:204-227): one animation frame per distinct instant of the
    annotated rows, in first-appearance order, each holding the plane markers of
    the rows at that instant; and the slider labels of app.py:235. */
module Frames {
  import opened Seqs
  import opened Schedule
  import opened Annotate
  import opened Densify

  /** One row of `densified_df` with its two annotation columns. */
  datatype Row = Row(point: Point, bearing: Option<real>, hover: string)

  /** One plane marker: position, heading, colour and hover label. */
  datatype Marker = Marker(lat: real, lon: real, angle: Option<real>, colour: Option<string>, text: string)

  /** `go.Frame(..., name=str(i))`: the frame's position, its instant, and the plane trace. */
  datatype Frame = Frame(name: nat, instant: int, planes: seq<Marker>)

  /** The `bearing` and `hover_text` columns of app.py:157-161. */
  function Annotated(ps: seq<Point>, bearings: map<string, real>): (rows: seq<Row>)
    ensures |rows| == |ps|
    ensures forall k :: 0 <= k < |ps| ==>
              && rows[k].point == ps[k]
              && rows[k].bearing == Lookup(bearings, ps[k].flightId)
              && rows[k].hover == HoverText(ps[k].flightId, ps[k].originCode)
  {
    seq(|ps|, k requires 0 <= k < |ps| =>
      Row(ps[k], Lookup(bearings, ps[k].flightId), HoverText(ps[k].flightId, ps[k].originCode)))
  }

  function RowInstants(rows: seq<Row>): (r: seq<int>)
    ensures |r| == |rows| && forall k :: 0 <= k < |rows| ==> r[k] == rows[k].point.instant
  {
    seq(|rows|, k requires 0 <= k < |rows| => rows[k].point.instant)
  }

  /** The instants the annotated rows carry are those of the points. */
  lemma RowInstantsOfAnnotated(ps: seq<Point>, bearings: map<string, real>)
    ensures RowInstants(Annotated(ps, bearings)) == Instants(ps)
  {
  }

  /** The plane trace of app.py:208-220: marker `k` is row `k`, coloured by its origin. */
  function PlaneTrace(rows: seq<Row>, colours: map<string, string>): (ms: seq<Marker>)
    ensures |ms| == |rows|
    ensures forall k :: 0 <= k < |rows| ==>
              ms[k] == Marker(rows[k].point.lat, rows[k].point.lon, rows[k].bearing,
                              Lookup(colours, rows[k].point.originCode), rows[k].hover)
  {
    seq(|rows|, k requires 0 <= k < |rows| =>
      Marker(rows[k].point.lat, rows[k].point.lon, rows[k].bearing,
             Lookup(colours, rows[k].point.originCode), rows[k].hover))
  }

  /** `densified_df[densified_df['Frame'] == t]`: the rows at instant `t`, in row order. */
  function Select(rows: seq<Row>, t: int): (sel: seq<Row>)
    ensures |sel| <= |rows|
    ensures forall k :: 0 <= k < |sel| ==> sel[k].point.instant == t && sel[k] in rows
    ensures forall k :: 0 <= k < |rows| && rows[k].point.instant == t ==> rows[k] in sel
  {
    if rows == [] then []
    else
      var init, r := rows[..|rows| - 1], rows[|rows| - 1];
      var sel := Select(init, t) + (if r.point.instant == t then [r] else []);
      assert forall k :: 0 <= k < |rows| && rows[k].point.instant == t ==> rows[k] in sel by {
        forall k | 0 <= k < |rows| && rows[k].point.instant == t ensures rows[k] in sel {
          if k < |init| { assert init[k] == rows[k]; }
        }
      }
      assert forall k :: 0 <= k < |sel| ==> sel[k] in rows by {
        forall k | 0 <= k < |sel| ensures sel[k] in rows {
          if k < |Select(init, t)| {
            var x := sel[k];
            assert x in init;
            var m :| 0 <= m < |init| && init[m] == x;
            assert rows[m] == x;
          }
        }
      }
      sel
  }

  /** Filtering splits over concatenation; with the single-row cases this pins
      `Select` down as the order-keeping filter. */
  lemma {:induction false} SelectAppend(a: seq<Row>, b: seq<Row>, t: int)
    ensures Select(a + b, t) == Select(a, t) + Select(b, t)
    decreases |b|
  {
    if b == [] {
      assert a + b == a;
    } else {
      var b', r := b[..|b| - 1], b[|b| - 1];
      assert (a + b)[..|a + b| - 1] == a + b';
      assert (a + b)[|a + b| - 1] == r;
      SelectAppend(a, b', t);
    }
  }

  /** The frames of app.py:204-227: frame `i` is named `i`, carries the `i`-th
      distinct instant in first-appearance order, and shows the rows at that instant. */
  function GroupByInstant(rows: seq<Row>, colours: map<string, string>): (frames: seq<Frame>)
    ensures |frames| == |Unique(RowInstants(rows))|
    ensures forall i :: 0 <= i < |frames| ==>
              && frames[i].name == i
              && frames[i].instant == Unique(RowInstants(rows))[i]
              && frames[i].planes == PlaneTrace(Select(rows, frames[i].instant), colours)
  {
    var u := Unique(RowInstants(rows));
    seq(|u|, i requires 0 <= i < |u| => Frame(i, u[i], PlaneTrace(Select(rows, u[i]), colours)))
  }

  /** The loop of app.py:204-225, appending one frame per distinct instant. */
  method AssembleFrames(rows: seq<Row>, colours: map<string, string>) returns (frames: seq<Frame>)
    ensures frames == GroupByInstant(rows, colours)
  {
    var instants := Unique(RowInstants(rows));
    frames := [];
    for i := 0 to |instants|
      invariant |frames| == i
      invariant forall j :: 0 <= j < i ==>
                  frames[j] == Frame(j, instants[j], PlaneTrace(Select(rows, instants[j]), colours))
    {
      var t := instants[i];
      var frameRows := Select(rows, t);
      frames := frames + [Frame(i, t, PlaneTrace(frameRows, colours))];
    }
  }

  /** Every frame holds at least one plane, every row's instant has a frame, and
      no two frames share an instant. */
  lemma {:induction false} FramesCoverInstants(rows: seq<Row>, colours: map<string, string>)
    ensures forall i :: 0 <= i < |GroupByInstant(rows, colours)| ==> GroupByInstant(rows, colours)[i].planes != []
    ensures forall k :: 0 <= k < |rows| ==>
              exists i :: 0 <= i < |GroupByInstant(rows, colours)| && GroupByInstant(rows, colours)[i].instant == rows[k].point.instant
    ensures forall i, j :: 0 <= i < j < |GroupByInstant(rows, colours)| ==>
              GroupByInstant(rows, colours)[i].instant != GroupByInstant(rows, colours)[j].instant
  {
    var frames, u, ins := GroupByInstant(rows, colours), Unique(RowInstants(rows)), RowInstants(rows);
    forall i | 0 <= i < |frames| ensures frames[i].planes != [] {
      assert u[i] in ins;
      var k :| 0 <= k < |ins| && ins[k] == u[i];
      assert rows[k] in Select(rows, u[i]);
    }
    forall k | 0 <= k < |rows|
      ensures exists i :: 0 <= i < |frames| && frames[i].instant == rows[k].point.instant
    {
      assert ins[k] in u;
      var i :| 0 <= i < |u| && u[i] == ins[k];
      assert frames[i].instant == rows[k].point.instant;
    }
  }

  /** Over rows whose instants never decrease, the frames come in strictly
      ascending time order. */
  lemma FramesAscend(rows: seq<Row>, colours: map<string, string>)
    requires Nondecreasing(RowInstants(rows))
    ensures forall i, j :: 0 <= i < j < |GroupByInstant(rows, colours)| ==>
              GroupByInstant(rows, colours)[i].instant < GroupByInstant(rows, colours)[j].instant
  {
    UniqueOfNondecreasing(RowInstants(rows));
  }

  // ---- no row lost or duplicated ----

  /** The rows of the listed instants, instant after instant. */
  function Gathered(rows: seq<Row>, instants: seq<int>): seq<Row> {
    if instants == [] then []
    else Gathered(rows, instants[..|instants| - 1]) + Select(rows, instants[|instants| - 1])
  }

  /** Adding a row adds it to the gathering exactly once when its instant is listed
      once, and not at all when it is not listed. */
  lemma {:induction false} GatheredSnoc(rows: seq<Row>, r: Row, instants: seq<int>)
    requires Distinct(instants)
    ensures multiset(Gathered(rows + [r], instants)) ==
            multiset(Gathered(rows, instants)) + (if r.point.instant in instants then multiset{r} else multiset{})
  {
    if instants != [] {
      var init, t := instants[..|instants| - 1], instants[|instants| - 1];
      DistinctSnoc(instants);
      GatheredSnoc(rows, r, init);
      SelectSnoc(rows, r, t);
      var x := r.point.instant;
      var a, a' := Gathered(rows, init), Gathered(rows + [r], init);
      var sel := Select(rows, t);
      var extra: multiset<Row> := if x in init then multiset{r} else multiset{};
      var here: seq<Row> := if x == t then [r] else [];
      assert multiset(a') == multiset(a) + extra;
      assert Gathered(rows + [r], instants) == a' + (sel + here);
      assert Gathered(rows, instants) == a + sel;
      assert x in instants <==> x in init || x == t;
    }
  }

  /** The last of distinct values is not among the others, which stay distinct. */
  lemma DistinctSnoc(s: seq<int>)
    requires s != [] && Distinct(s)
    ensures Distinct(s[..|s| - 1]) && s[|s| - 1] !in s[..|s| - 1]
    ensures s == s[..|s| - 1] + [s[|s| - 1]]
  {
    var init := s[..|s| - 1];
    forall i, j | 0 <= i < j < |init| ensures init[i] != init[j] { assert init[i] == s[i] && init[j] == s[j]; }
    forall i | 0 <= i < |init| ensures init[i] != s[|s| - 1] { assert init[i] == s[i]; }
  }

  lemma SelectSnoc(rows: seq<Row>, r: Row, t: int)
    ensures Select(rows + [r], t) == Select(rows, t) + (if r.point.instant == t then [r] else [])
  {
    assert (rows + [r])[..|rows|] == rows;
  }

  /** A row whose instant is not listed contributes nothing. */
  lemma {:induction false} GatheredUnlisted(rows: seq<Row>, r: Row, instants: seq<int>)
    requires r.point.instant !in instants
    ensures Gathered(rows + [r], instants) == Gathered(rows, instants)
  {
    if instants != [] {
      var init, t := instants[..|instants| - 1], instants[|instants| - 1];
      assert instants == init + [t];
      GatheredUnlisted(rows, r, init);
      SelectAppend(rows, [r], t);
      assert Select([r], t) == Select([], t) + (if r.point.instant == t then [r] else []) by {
        assert [r][..0] == [];
      }
    }
  }

  /** The frames' rows, frame after frame, are a permutation of all the rows: no
      row is lost and none is shown twice. */
  lemma {:induction false} FramesPartitionRows(rows: seq<Row>)
    ensures multiset(Gathered(rows, Unique(RowInstants(rows)))) == multiset(rows)
  {
    if rows != [] {
      var init, r := rows[..|rows| - 1], rows[|rows| - 1];
      var t := r.point.instant;
      assert rows == init + [r];
      assert RowInstants(rows) == RowInstants(init) + [t];
      var u0 := Unique(RowInstants(init));
      FramesPartitionRows(init);
      UniqueSnoc(RowInstants(init), t);
      if t in RowInstants(init) {
        assert t in u0;
        PartitionListed(init, r, u0);
      } else {
        PartitionNew(init, r, u0);
      }
    }
  }

  lemma PartitionListed(init: seq<Row>, r: Row, u: seq<int>)
    requires Distinct(u) && r.point.instant in u
    requires multiset(Gathered(init, u)) == multiset(init)
    ensures multiset(Gathered(init + [r], u)) == multiset(init + [r])
  {
    GatheredSnoc(init, r, u);
  }

  lemma PartitionNew(init: seq<Row>, r: Row, u: seq<int>)
    requires r.point.instant !in u && r.point.instant !in RowInstants(init)
    requires multiset(Gathered(init, u)) == multiset(init)
    ensures multiset(Gathered(init + [r], u + [r.point.instant])) == multiset(init + [r])
  {
    var t, rows, u1 := r.point.instant, init + [r], u + [r.point.instant];
    assert u1[..|u|] == u;
    assert Gathered(rows, u1) == Gathered(rows, u) + Select(rows, t);
    GatheredUnlisted(init, r, u);
    SelectSnoc(init, r, t);
    SelectNone(init, t);
  }

  /** Marker `j` of frame `i` is drawn from a row at that frame's instant. */
  lemma FrameMarkerRow(rows: seq<Row>, colours: map<string, string>, i: int, j: int) returns (q: int)
    requires 0 <= i < |GroupByInstant(rows, colours)|
    requires 0 <= j < |GroupByInstant(rows, colours)[i].planes|
    ensures 0 <= q < |rows| && rows[q].point.instant == GroupByInstant(rows, colours)[i].instant
    ensures GroupByInstant(rows, colours)[i].planes[j] ==
              Marker(rows[q].point.lat, rows[q].point.lon, rows[q].bearing,
                     Lookup(colours, rows[q].point.originCode), rows[q].hover)
  {
    var f := GroupByInstant(rows, colours)[i];
    var sel := Select(rows, f.instant);
    assert sel[j] in rows;
    q :| 0 <= q < |rows| && rows[q] == sel[j];
  }

  /** Every plane marker of the frames, frame after frame. */
  function AllPlanes(frames: seq<Frame>): seq<Marker> {
    if frames == [] then [] else AllPlanes(frames[..|frames| - 1]) + frames[|frames| - 1].planes
  }

  lemma PlaneTraceAppend(a: seq<Row>, b: seq<Row>, colours: map<string, string>)
    ensures PlaneTrace(a + b, colours) == PlaneTrace(a, colours) + PlaneTrace(b, colours)
  {
  }

  lemma {:induction false} AllPlanesGathered(rows: seq<Row>, colours: map<string, string>, n: nat)
    requires n <= |Unique(RowInstants(rows))|
    ensures AllPlanes(GroupByInstant(rows, colours)[..n])
            == PlaneTrace(Gathered(rows, Unique(RowInstants(rows))[..n]), colours)
  {
    var frames, u := GroupByInstant(rows, colours), Unique(RowInstants(rows));
    if n > 0 {
      var before: seq<Frame>, earlier: seq<int> := frames[..n - 1], u[..n - 1];
      assert frames[..n][..n - 1] == before;
      assert u[..n][..n - 1] == earlier;
      assert AllPlanes(frames[..n]) == AllPlanes(before) + frames[n - 1].planes;
      assert Gathered(rows, u[..n]) == Gathered(rows, earlier) + Select(rows, u[n - 1]);
      AllPlanesGathered(rows, colours, n - 1);
      PlaneTraceAppend(Gathered(rows, earlier), Select(rows, u[n - 1]), colours);
    }
  }

  /** The frames together show one plane per row: none is lost or shown twice. */
  lemma FramesShowEveryRowOnce(rows: seq<Row>, colours: map<string, string>)
    ensures |AllPlanes(GroupByInstant(rows, colours))| == |rows|
  {
    var frames, u := GroupByInstant(rows, colours), Unique(RowInstants(rows));
    AllPlanesGathered(rows, colours, |u|);
    assert frames[..|u|] == frames && u[..|u|] == u;
    FramesPartitionRows(rows);
    assert |multiset(Gathered(rows, u))| == |multiset(rows)|;
  }

  lemma SelectNone(rows: seq<Row>, t: int)
    requires t !in RowInstants(rows)
    ensures Select(rows, t) == []
  {
    forall k | 0 <= k < |rows| ensures rows[k].point.instant != t {
      assert RowInstants(rows)[k] == rows[k].point.instant;
    }
  }

  // ---- slider labels ----

  /** The slider labels as app.py:235 pairs them: step `i` is labelled with the
      `i`-th instant of the full timeline, whichever instant frame `i` shows. */
  function SliderInstantsAsWritten(frames: seq<Frame>, timeline: seq<int>): (labels: seq<int>)
    requires |frames| <= |timeline|
    ensures |labels| == |frames|
    ensures forall i :: 0 <= i < |frames| ==> labels[i] == timeline[i]
  {
    timeline[..|frames|]
  }

  /** The labels step `i` evidently means: the instant frame `i` shows. */
  function SliderInstants(frames: seq<Frame>): (labels: seq<int>)
    ensures |labels| == |frames|
    ensures forall i :: 0 <= i < |frames| ==> labels[i] == frames[i].instant
  {
    seq(|frames|, i requires 0 <= i < |frames| => frames[i].instant)
  }
}
