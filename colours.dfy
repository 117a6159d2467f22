/** Airport colour assignment (app.py:132-138): distinct airport codes in first
    appearance order, code number `i` coloured `palette[i % 15]`. */
module Colours {
  import opened Seqs
  import opened Schedule

  /** `bright_colors`; '#85C1E9' appears at positions 9 and 13. */
  const Palette: seq<string> := [
    "#FF6B6B", "#4ECDC4", "#45B7D1", "#96CEB4", "#FFEAA7",
    "#DDA0DD", "#98D8C8", "#F7DC6F", "#BB8FCE", "#85C1E9",
    "#F8C471", "#82E0AA", "#F1948A", "#85C1E9", "#D7BDE2"
  ]

  function OriginCodes(fs: seq<Flight>): (r: seq<string>)
    ensures |r| == |fs| && forall i :: 0 <= i < |fs| ==> r[i] == fs[i].originCode
  {
    seq(|fs|, i requires 0 <= i < |fs| => fs[i].originCode)
  }

  function DestCodes(fs: seq<Flight>): (r: seq<string>)
    ensures |r| == |fs| && forall i :: 0 <= i < |fs| ==> r[i] == fs[i].destCode
  {
    seq(|fs|, i requires 0 <= i < |fs| => fs[i].destCode)
  }

  /** `pd.unique(df[['origin_code', 'destination_code']].values.ravel('K'))`: the
      column-major ravel lists every origin, then every destination. */
  function AllAirports(fs: seq<Flight>): (u: seq<string>)
    ensures u == Unique(OriginCodes(fs) + DestCodes(fs))
    ensures Distinct(u)
    ensures forall i :: 0 <= i < |fs| ==> fs[i].originCode in u && fs[i].destCode in u
  {
    var codes := OriginCodes(fs) + DestCodes(fs);
    var u := Unique(codes);
    assert forall i :: 0 <= i < |fs| ==> fs[i].originCode in u && fs[i].destCode in u by {
      forall i | 0 <= i < |fs| ensures fs[i].originCode in u && fs[i].destCode in u {
        assert codes[i] == fs[i].originCode && codes[|fs| + i] == fs[i].destCode;
      }
    }
    u
  }

  /** The dict comprehension of app.py:138: code number `k` of `airports` gets
      `palette[k % len(palette)]`; a later duplicate would overwrite an earlier one. */
  function AssignColours(airports: seq<string>, palette: seq<string>): (m: map<string, string>)
    requires |palette| > 0
    ensures forall c :: c in m <==> c in airports
    ensures Distinct(airports) ==> forall k :: 0 <= k < |airports| ==> m[airports[k]] == palette[k % |palette|]
  {
    if airports == [] then map[]
    else
      var n := |airports| - 1;
      var init := airports[..n];
      assert airports == init + [airports[n]];
      AssignColours(init, palette)[airports[n] := palette[n % |palette|]]
  }

  lemma PaletteSize()
    ensures |Palette| == 15
  {
  }

  /** `airport_colors`: every origin and destination code has a colour, and the
      airport at first-appearance position `k` gets `palette[k % 15]`. */
  function ColourMap(fs: seq<Flight>): (m: map<string, string>)
    ensures forall i :: 0 <= i < |fs| ==> fs[i].originCode in m && fs[i].destCode in m
    ensures forall c :: c in m <==> c in AllAirports(fs)
  {
    PaletteSize();
    AssignColours(AllAirports(fs), Palette)
  }

  /** The airport at first-appearance position `k` gets `palette[k % 15]`. */
  lemma ColourOfPosition(fs: seq<Flight>, k: int)
    requires 0 <= k < |AllAirports(fs)|
    ensures ColourMap(fs)[AllAirports(fs)[k]] == Palette[k % 15]
  {
    PaletteSize();
    var u := AllAirports(fs);
    assert AssignColours(u, Palette)[u[k]] == Palette[k % |Palette|];
  }

  /** The repeated palette entry gives the 10th and 14th airports one colour,
      although the palette has not wrapped around. */
  lemma SharedColourBeforeWrap(fs: seq<Flight>)
    requires |AllAirports(fs)| >= 14
    ensures AllAirports(fs)[9] != AllAirports(fs)[13]
    ensures ColourMap(fs)[AllAirports(fs)[9]] == ColourMap(fs)[AllAirports(fs)[13]]
  {
    var u, m := AllAirports(fs), ColourMap(fs);
    assert u[9] != u[13];
    ColourOfPosition(fs, 9);
    ColourOfPosition(fs, 13);
    PaletteRepeats();
  }

  lemma PaletteRepeats()
    ensures Palette[9 % 15] == Palette[13 % 15]
  {
  }

  /** Past fifteen airports the palette wraps around. */
  lemma ColourWraps(fs: seq<Flight>, k: nat)
    requires k + 15 < |AllAirports(fs)|
    ensures ColourMap(fs)[AllAirports(fs)[k]] == ColourMap(fs)[AllAirports(fs)[k + 15]]
  {
    ColourOfPosition(fs, k);
    ColourOfPosition(fs, k + 15);
    assert (k + 15) % 15 == k % 15;
  }
}
