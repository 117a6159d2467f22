/** Per-row annotations (app.py:157-161): the heading of each flight, looked up by
    flight id, and the hover label built from the id and the origin code. */
module Annotate {
  import opened Seqs
  import opened Schedule

  /** The heading of a flight, from its origin and destination coordinates. The
      spherical formula of app.py:146-155 is a parameter of the model. */
  function Heading(f: Flight, bearing: (real, real, real, real) -> real): real {
    bearing(f.originLat, f.originLon, f.destLat, f.destLon)
  }

  /** No later row carries the id of row `j`. */
  predicate LastWithId(fs: seq<Flight>, j: int) {
    0 <= j < |fs| && forall l :: j < l < |fs| ==> fs[l].id != fs[j].id
  }

  /** `bearing_map`: a dict comprehension over the rows in order, so every id is a
      key and, where ids repeat, the heading of the last row with that id wins. */
  function BearingMap(fs: seq<Flight>, bearing: (real, real, real, real) -> real): (m: map<string, real>)
    ensures m.Keys == Ids(fs)
    ensures forall j :: LastWithId(fs, j) ==> m[fs[j].id] == Heading(fs[j], bearing)
  {
    if fs == [] then map[]
    else
      var init, f := fs[..|fs| - 1], fs[|fs| - 1];
      var prev := BearingMap(init, bearing);
      IdsSnoc(fs);
      var m := prev[f.id := Heading(f, bearing)];
      assert m.Keys == Ids(fs);
      assert forall j :: LastWithId(fs, j) ==> m[fs[j].id] == Heading(fs[j], bearing) by {
        forall j | LastWithId(fs, j) ensures m[fs[j].id] == Heading(fs[j], bearing) {
          if j < |init| {
            assert fs[j] == init[j];
            assert fs[j].id != f.id;
            assert init[j].id in Ids(init);
            assert LastWithId(init, j) by {
              forall l | j < l < |init| ensures init[l].id != init[j].id { assert fs[l] == init[l]; }
            }
            assert prev[init[j].id] == Heading(init[j], bearing);
          } else {
            assert j == |fs| - 1;
          }
        }
      }
      m
  }

  /** The flight ids of the table. */
  function Ids(fs: seq<Flight>): (ids: set<string>)
    ensures forall j :: 0 <= j < |fs| ==> fs[j].id in ids
  {
    set j | 0 <= j < |fs| :: fs[j].id
  }

  lemma IdsSnoc(fs: seq<Flight>)
    requires fs != []
    ensures Ids(fs) == Ids(fs[..|fs| - 1]) + {fs[|fs| - 1].id}
  {
    var init := fs[..|fs| - 1];
    forall c | c in Ids(fs) ensures c in Ids(init) + {fs[|fs| - 1].id} {
      var j :| 0 <= j < |fs| && fs[j].id == c;
      if j < |init| { assert init[j] == fs[j]; }
    }
    forall c | c in Ids(init) ensures c in Ids(fs) {
      var j :| 0 <= j < |init| && init[j].id == c;
      assert fs[j] == init[j];
    }
    assert fs[|fs| - 1].id in Ids(fs);
  }

  /** With one row per flight id, every flight's heading is its own. */
  lemma BearingOfUniqueIds(fs: seq<Flight>, bearing: (real, real, real, real) -> real, j: int)
    requires forall i, l :: 0 <= i < l < |fs| ==> fs[i].id != fs[l].id
    requires 0 <= j < |fs|
    ensures BearingMap(fs, bearing)[fs[j].id] == Heading(fs[j], bearing)
  {
    assert LastWithId(fs, j);
  }

  /** Two rows with one id: the earlier row's heading is lost. */
  lemma DuplicateIdKeepsLast(fs: seq<Flight>, bearing: (real, real, real, real) -> real, i: int, j: int)
    requires 0 <= i < j < |fs| && fs[i].id == fs[j].id && LastWithId(fs, j)
    ensures BearingMap(fs, bearing)[fs[i].id] == Heading(fs[j], bearing)
  {
  }

  const Open: string := "<b>"
  /** What separates the id from the origin code in the label. */
  const Separator: string := "</b><br>Origin: "

  /** The hover label of app.py:161. */
  function HoverText(id: string, origin: string): (s: string)
    ensures |s| == |id| + |origin| + 19
    ensures s[..3] == Open && s[3..3 + |id|] == id
    ensures s[3 + |id|..3 + |id| + 16] == Separator && s[3 + |id| + 16..] == origin
  {
    var s := Open + id + Separator + origin;
    assert s[..3] == Open;
    assert s[3..3 + |id|] == id;
    assert s[3 + |id|..3 + |id| + 16] == Separator;
    assert s[3 + |id| + 16..] == origin;
    s
  }

  /** The first position at or after `from` holding `c`, or `|s|` when there is none. */
  function FindChar(s: string, c: char, from: nat): (r: nat)
    requires from <= |s|
    ensures from <= r <= |s|
    ensures c !in s[from..r]
    ensures r < |s| ==> s[r] == c
    decreases |s| - from
  {
    if from == |s| then from
    else if s[from] == c then from
    else
      var r := FindChar(s, c, from + 1);
      assert s[from..r] == [s[from]] + s[from + 1..r];
      r
  }

  lemma FindCharAt(s: string, c: char, from: nat, e: nat)
    requires from <= e < |s| && s[e] == c && c !in s[from..e]
    ensures FindChar(s, c, from) == e
  {
  }

  /** Reads a hover label back into its id and origin code: the id ends at the
      first '<' after the opening tag. */
  function ParseHover(s: string): (r: Option<(string, string)>)
  {
    if |s| < 3 || s[..3] != Open then None
    else
      var e := FindChar(s, '<', 3);
      if e + 16 <= |s| && s[e..e + 16] == Separator then Some((s[3..e], s[e + 16..])) else None
  }

  /** The label of an id free of '<' reads back to the id and the origin. */
  lemma HoverRoundTrip(id: string, origin: string)
    requires '<' !in id
    ensures ParseHover(HoverText(id, origin)) == Some((id, origin))
  {
    var s := HoverText(id, origin);
    var e := 3 + |id|;
    assert s[e] == Separator[0] by { assert s[e..e + 16][0] == s[e]; }
    FindCharAt(s, '<', 3, e);
  }

  /** Conversely, whatever reads back as a pair is that pair's label, and its id
      has no '<'. */
  lemma ParsedHoverIsLabel(s: string, id: string, origin: string)
    requires ParseHover(s) == Some((id, origin))
    ensures s == HoverText(id, origin) && '<' !in id
  {
    var e := FindChar(s, '<', 3);
    assert id == s[3..e] && origin == s[e + 16..];
    assert s == s[..3] + s[3..e] + s[e..e + 16] + s[e + 16..];
  }

  /** An id containing the separator makes two different rows share one label. */
  lemma HoverAmbiguousWithTags()
    ensures HoverText("A</b><br>Origin: X", "Y") == HoverText("A", "X</b><br>Origin: Y")
  {
  }
}
