/** The static airport layer (app.py:140-144, 187): origin rows, then destination
    rows, deduplicated by code keeping the first occurrence, each with its colour. */
module Airports {
  import opened Seqs
  import opened Schedule
  import opened Colours

  datatype Airport = Airport(code: string, lat: real, lon: real)

  /** One marker of the static trace: position, label and colour. */
  datatype AirportMarker = AirportMarker(code: string, lat: real, lon: real, colour: Option<string>)

  function OriginRows(fs: seq<Flight>): (r: seq<Airport>)
    ensures |r| == |fs|
    ensures forall i :: 0 <= i < |fs| ==> r[i] == Airport(fs[i].originCode, fs[i].originLat, fs[i].originLon)
  {
    seq(|fs|, i requires 0 <= i < |fs| => Airport(fs[i].originCode, fs[i].originLat, fs[i].originLon))
  }

  function DestRows(fs: seq<Flight>): (r: seq<Airport>)
    ensures |r| == |fs|
    ensures forall i :: 0 <= i < |fs| ==> r[i] == Airport(fs[i].destCode, fs[i].destLat, fs[i].destLon)
  {
    seq(|fs|, i requires 0 <= i < |fs| => Airport(fs[i].destCode, fs[i].destLat, fs[i].destLon))
  }

  function Codes(rows: seq<Airport>): (r: seq<string>)
    ensures |r| == |rows| && forall k :: 0 <= k < |rows| ==> r[k] == rows[k].code
  {
    seq(|rows|, k requires 0 <= k < |rows| => rows[k].code)
  }

  /** `drop_duplicates(subset='code')`: one row per distinct code, in first-appearance
      order (which row of each code it keeps is `DropKeepsFirstRow`). */
  function DropDuplicateCodes(rows: seq<Airport>): (r: seq<Airport>)
    ensures Codes(r) == Unique(Codes(rows))
  {
    if rows == [] then []
    else
      var init, last := rows[..|rows| - 1], rows[|rows| - 1];
      var prev := DropDuplicateCodes(init);
      assert rows == init + [last];
      CodesSnoc(init, last);
      UniqueSnoc(Codes(init), last.code);
      var r := if last.code in Codes(prev) then prev else prev + [last];
      assert Codes(r) == Unique(Codes(rows)) by {
        UniqueMembership(Codes(init), last.code);
        if last.code !in Codes(prev) { CodesSnoc(prev, last); }
      }
      r
  }

  /** Each kept row is the first row that carries its code. */
  lemma {:induction false} DropKeepsFirstRow(rows: seq<Airport>, k: int)
    requires 0 <= k < |DropDuplicateCodes(rows)|
    ensures DropDuplicateCodes(rows)[k].code in Codes(rows)
    ensures DropDuplicateCodes(rows)[k] == rows[FirstIndex(Codes(rows), DropDuplicateCodes(rows)[k].code)]
  {
    assert rows != [] by { assert |Codes(DropDuplicateCodes(rows))| <= |Codes(rows)|; }
    var init, last := rows[..|rows| - 1], rows[|rows| - 1];
    assert rows == init + [last];
    DropSnoc(init, last);
    if k < |DropDuplicateCodes(init)| {
      DropKeepsFirstRow(init, k);
      KeptEarlierRow(init, last, k);
    } else {
      KeptNewRow(init, last);
    }
  }

  /** One more row: it is kept exactly when its code is new. */
  lemma DropSnoc(init: seq<Airport>, last: Airport)
    ensures DropDuplicateCodes(init + [last]) ==
            if last.code in Codes(DropDuplicateCodes(init)) then DropDuplicateCodes(init)
            else DropDuplicateCodes(init) + [last]
  {
    var rows := init + [last];
    assert rows[..|rows| - 1] == init;
  }

  /** A row whose code is new is the first of its code. */
  lemma KeptNewRow(init: seq<Airport>, last: Airport)
    requires last.code !in Codes(DropDuplicateCodes(init))
    ensures last.code in Codes(init + [last])
    ensures (init + [last])[FirstIndex(Codes(init + [last]), last.code)] == last
  {
    CodesSnoc(init, last);
    UniqueMembership(Codes(init), last.code);
    FirstIndexSnoc(Codes(init), last.code, last.code);
  }

  /** A row kept from the earlier rows stays the first of its code. */
  lemma KeptEarlierRow(init: seq<Airport>, last: Airport, k: int)
    requires 0 <= k < |DropDuplicateCodes(init)|
    requires DropDuplicateCodes(init)[k].code in Codes(init)
    requires DropDuplicateCodes(init)[k] == init[FirstIndex(Codes(init), DropDuplicateCodes(init)[k].code)]
    ensures DropDuplicateCodes(init)[k].code in Codes(init + [last])
    ensures DropDuplicateCodes(init)[k] == (init + [last])[FirstIndex(Codes(init + [last]), DropDuplicateCodes(init)[k].code)]
  {
    var c := DropDuplicateCodes(init)[k].code;
    CodesSnoc(init, last);
    FirstIndexSnoc(Codes(init), last.code, c);
  }

  lemma CodesSnoc(rows: seq<Airport>, a: Airport)
    ensures Codes(rows + [a]) == Codes(rows) + [a.code]
    ensures (rows + [a])[..|rows|] == rows
  {
  }

  /** `all_airport_locations`. Its codes are exactly the colour map's airports,
      in the same order. */
  function AirportLayer(fs: seq<Flight>): (layer: seq<Airport>)
    ensures Codes(layer) == AllAirports(fs)
  {
    var rows := OriginRows(fs) + DestRows(fs);
    assert Codes(rows) == OriginCodes(fs) + DestCodes(fs);
    DropDuplicateCodes(rows)
  }

  /** Flight `i` is the first one leaving from `code`. */
  predicate FirstOrigin(fs: seq<Flight>, i: int, code: string) {
    0 <= i < |fs| && fs[i].originCode == code && forall j :: 0 <= j < i ==> fs[j].originCode != code
  }

  /** No flight leaves from `code`, and flight `i` is the first one arriving there. */
  predicate FirstDestination(fs: seq<Flight>, i: int, code: string) {
    && 0 <= i < |fs| && fs[i].destCode == code
    && (forall j :: 0 <= j < |fs| ==> fs[j].originCode != code)
    && forall j :: 0 <= j < i ==> fs[j].destCode != code
  }

  /** Entry `k` of the deduplicated rows is the first row that carries its code. */
  lemma DroppedEntryIsFirstRow(rows: seq<Airport>, k: int) returns (p: nat)
    requires 0 <= k < |DropDuplicateCodes(rows)|
    ensures p < |rows| && DropDuplicateCodes(rows)[k] == rows[p]
    ensures rows[p].code !in Codes(rows)[..p]
  {
    var a := DropDuplicateCodes(rows)[k];
    DropKeepsFirstRow(rows, k);
    p := FirstIndex(Codes(rows), a.code);
  }

  lemma CodesOfRows(fs: seq<Flight>)
    ensures Codes(OriginRows(fs) + DestRows(fs)) == OriginCodes(fs) + DestCodes(fs)
  {
    var o: seq<Airport>, d: seq<Airport> := OriginRows(fs), DestRows(fs);
    var oc, dc := OriginCodes(fs), DestCodes(fs);
    forall j | 0 <= j < 2 * |fs| ensures Codes(o + d)[j] == (oc + dc)[j] {
      if j < |fs| { assert (o + d)[j] == o[j]; } else { assert (o + d)[j] == d[j - |fs|]; }
    }
  }

  /** Position `p` of origins-then-destinations is the first to carry `code`. */
  lemma FirstCodeOwner(fs: seq<Flight>, code: string, p: nat)
    requires p < 2 * |fs|
    requires (OriginCodes(fs) + DestCodes(fs))[p] == code
    requires code !in (OriginCodes(fs) + DestCodes(fs))[..p]
    ensures p < |fs| ==> FirstOrigin(fs, p, code)
    ensures p >= |fs| ==> FirstDestination(fs, p - |fs|, code)
  {
    var oc, dc := OriginCodes(fs), DestCodes(fs);
    var before := (oc + dc)[..p];
    if p < |fs| {
      assert oc[p] == code;
      forall j | 0 <= j < p ensures fs[j].originCode != code { assert before[j] == oc[j]; }
    } else {
      var i := p - |fs|;
      assert dc[i] == code;
      forall j | 0 <= j < |fs| ensures fs[j].originCode != code { assert before[j] == oc[j]; }
      forall j | 0 <= j < i ensures fs[j].destCode != code { assert before[|fs| + j] == dc[j]; }
    }
  }

  /** When several rows share a code, the layer keeps the coordinates of the first:
      the first flight leaving from it, else the first flight arriving there. */
  lemma {:induction false} LayerKeepsFirstOccurrence(fs: seq<Flight>, k: int)
    requires 0 <= k < |AirportLayer(fs)|
    ensures var a := AirportLayer(fs)[k];
            || (exists i :: FirstOrigin(fs, i, a.code) && a.lat == fs[i].originLat && a.lon == fs[i].originLon)
            || (exists i :: FirstDestination(fs, i, a.code) && a.lat == fs[i].destLat && a.lon == fs[i].destLon)
  {
    var o: seq<Airport>, d: seq<Airport> := OriginRows(fs), DestRows(fs);
    var a := AirportLayer(fs)[k];
    var p := DroppedEntryIsFirstRow(o + d, k);
    CodesOfRows(fs);
    assert (OriginCodes(fs) + DestCodes(fs))[p] == Codes(o + d)[p];
    FirstCodeOwner(fs, a.code, p);
    if p < |fs| {
      assert (o + d)[p] == o[p];
      assert FirstOrigin(fs, p, a.code) && a.lat == fs[p].originLat && a.lon == fs[p].originLon;
    } else {
      var i := p - |fs|;
      assert (o + d)[p] == d[i];
      assert FirstDestination(fs, i, a.code) && a.lat == fs[i].destLat && a.lon == fs[i].destLon;
    }
  }

  /** One marker per row, at the row's coordinates, coloured by `colours.get(code)`. */
  function Marked(layer: seq<Airport>, colours: map<string, string>): (ms: seq<AirportMarker>)
    ensures |ms| == |layer|
    ensures forall k :: 0 <= k < |layer| ==>
              ms[k] == AirportMarker(layer[k].code, layer[k].lat, layer[k].lon, Lookup(colours, layer[k].code))
  {
    seq(|layer|, k requires 0 <= k < |layer| =>
      AirportMarker(layer[k].code, layer[k].lat, layer[k].lon, Lookup(colours, layer[k].code)))
  }

  /** The static airport trace (app.py:187-201): one marker per layer entry, at
      that entry's coordinates, in the colour its first-appearance position
      selects from the palette. */
  function AirportMarkers(fs: seq<Flight>): (ms: seq<AirportMarker>)
    ensures |ms| == |AllAirports(fs)|
    ensures forall k :: 0 <= k < |ms| ==>
              && ms[k].code == AllAirports(fs)[k]
              && ms[k].colour == Some(Palette[k % 15])
    ensures |AirportLayer(fs)| == |ms| && forall k :: 0 <= k < |ms| ==>
              ms[k].lat == AirportLayer(fs)[k].lat && ms[k].lon == AirportLayer(fs)[k].lon
  {
    MarkedColours(fs);
    Marked(AirportLayer(fs), ColourMap(fs))
  }

  lemma MarkedColours(fs: seq<Flight>)
    ensures var ms := Marked(AirportLayer(fs), ColourMap(fs));
            && |ms| == |AllAirports(fs)|
            && forall k :: 0 <= k < |ms| ==> ms[k].code == AllAirports(fs)[k] && ms[k].colour == Some(Palette[k % 15])
  {
    var layer, u := AirportLayer(fs), AllAirports(fs);
    var ms := Marked(layer, ColourMap(fs));
    assert |layer| == |u| by { assert |Codes(layer)| == |layer|; }
    forall k | 0 <= k < |ms| ensures ms[k].code == u[k] && ms[k].colour == Some(Palette[k % 15]) {
      assert Codes(layer)[k] == layer[k].code;
      ColourOfPosition(fs, k);
    }
  }
}