/** Header validation: column names are stripped of surrounding whitespace and
    compared with the nine required columns (app.py:86-97). */
module Header {
  import opened Seqs

  /** The characters Python's `str.isspace` accepts, which `str.strip()` removes. */
  predicate IsSpace(c: char) {
    || c == ' '
    || '\t' <= c <= '\r'
    || '\U{1C}' <= c <= '\U{1F}'
    || c == '\U{85}' || c == '\U{A0}' || c == '\U{1680}'
    || '\U{2000}' <= c <= '\U{200A}'
    || c == '\U{2028}' || c == '\U{2029}' || c == '\U{202F}' || c == '\U{205F}' || c == '\U{3000}'
  }

  /** Length of the whitespace prefix of `s`. */
  function LeadingSpaces(s: string): (n: nat)
    ensures n <= |s|
    ensures forall k :: 0 <= k < n ==> IsSpace(s[k])
    ensures n < |s| ==> !IsSpace(s[n])
  {
    if s == [] || !IsSpace(s[0]) then 0 else 1 + LeadingSpaces(s[1..])
  }

  /** Length of the whitespace suffix of `s`. */
  function TrailingSpaces(s: string): (n: nat)
    ensures n <= |s|
    ensures forall k :: |s| - n <= k < |s| ==> IsSpace(s[k])
    ensures n < |s| ==> !IsSpace(s[|s| - n - 1])
  {
    if s == [] || !IsSpace(s[|s| - 1]) then 0 else 1 + TrailingSpaces(s[..|s| - 1])
  }

  /** `str.strip()`: `r` is the slice of `s` left once the whitespace at both
      ends is removed, and it neither starts nor ends with whitespace. */
  function Strip(s: string): (r: string)
    ensures LeadingSpaces(s) + |r| <= |s|
    ensures r == s[LeadingSpaces(s)..LeadingSpaces(s) + |r|]
    ensures forall k :: LeadingSpaces(s) + |r| <= k < |s| ==> IsSpace(s[k])
    ensures r == [] || (!IsSpace(r[0]) && !IsSpace(r[|r| - 1]))
  {
    var t := s[LeadingSpaces(s)..];
    t[..|t| - TrailingSpaces(t)]
  }

  /** Stripping twice is stripping once. */
  lemma StripIdempotent(s: string)
    ensures Strip(Strip(s)) == Strip(s)
  {
    var r := Strip(s);
    assert LeadingSpaces(r) == 0;
    if r != [] {
      assert TrailingSpaces(r) == 0;
    }
  }

  /** `df.columns.str.strip()` */
  function StripAll(header: seq<string>): (r: seq<string>)
    ensures |r| == |header|
    ensures forall i :: 0 <= i < |header| ==> r[i] == Strip(header[i])
  {
    if header == [] then [] else [Strip(header[0])] + StripAll(header[1..])
  }

  const RequiredColumns: seq<string> := [
    "flight_id", "origin_code", "origin_lat", "origin_lon",
    "destination_code", "dest_lat", "dest_lon", "departure_time", "arrival_time"
  ]

  /** `[col for col in required if col not in present]`: the required names that
      are absent, in the order `required` lists them. */
  function Absent(required: seq<string>, present: seq<string>): (m: seq<string>)
    ensures forall c :: c in m <==> c in required && c !in present
    ensures |m| <= |required|
  {
    if required == [] then []
    else (if required[0] in present then [] else [required[0]]) + Absent(required[1..], present)
  }

  /** Every name of `m` is in `names`, and they come at increasing positions of `names`. */
  ghost predicate InOrderOf(m: seq<string>, names: seq<string>) {
    && (forall c :: c in m ==> c in names)
    && forall i, j :: 0 <= i < j < |m| ==> FirstIndex(names, m[i]) < FirstIndex(names, m[j])
  }

  /** Names listed in order of `names[1..]` are in order of `names` too, when the
      head of `names` is not among them. */
  lemma InOrderOfTail(names: seq<string>, m: seq<string>)
    requires names != [] && names[0] !in m && InOrderOf(m, names[1..])
    ensures InOrderOf(m, names)
    ensures forall c :: c in m ==> FirstIndex(names, c) == FirstIndex(names[1..], c) + 1
  {
    forall c | c in m ensures c in names && FirstIndex(names, c) == FirstIndex(names[1..], c) + 1 {
      var k :| 0 <= k < |names[1..]| && names[1..][k] == c;
      assert names[k + 1] == c;
      FirstShift(names, c);
    }
    forall i, j | 0 <= i < j < |m| ensures FirstIndex(names, m[i]) < FirstIndex(names, m[j]) {
      assert m[i] in m && m[j] in m;
    }
  }

  /** Putting the head of `names` in front of such a list keeps it in order. */
  lemma InOrderOfCons(names: seq<string>, m: seq<string>)
    requires names != [] && names[0] !in m && InOrderOf(m, names[1..])
    ensures InOrderOf([names[0]] + m, names)
  {
    InOrderOfTail(names, m);
    var m1 := [names[0]] + m;
    assert FirstIndex(names, names[0]) == 0;
    forall i, j | 0 <= i < j < |m1| ensures FirstIndex(names, m1[i]) < FirstIndex(names, m1[j]) {
      assert m1[j] == m[j - 1] && m[j - 1] in m;
      if i > 0 {
        assert m1[i] == m[i - 1];
      }
    }
  }

  /** Over distinct required names, the absent ones are listed at increasing
      positions of `required`: the comprehension keeps the order it iterates in. */
  lemma {:induction false} AbsentKeepsOrder(required: seq<string>, present: seq<string>)
    ensures Distinct(required) ==> InOrderOf(Absent(required, present), required)
  {
    if required != [] && Distinct(required) {
      var h, rest := required[0], required[1..];
      var m' := Absent(rest, present);
      assert Distinct(rest) by {
        forall i, j | 0 <= i < j < |rest| ensures rest[i] != rest[j] {
          assert rest[i] == required[i + 1] && rest[j] == required[j + 1];
        }
      }
      AbsentKeepsOrder(rest, present);
      assert h !in m';
      if h in present {
        assert Absent(required, present) == m';
        InOrderOfTail(required, m');
      } else {
        assert Absent(required, present) == [h] + m';
        InOrderOfCons(required, m');
      }
    }
  }

  /** The missing-columns list of app.py:93, computed on the stripped header. */
  function MissingColumns(header: seq<string>): (m: seq<string>)
    ensures forall c :: c in m <==> c in RequiredColumns && c !in StripAll(header)
    ensures m == [] <==> forall c :: c in RequiredColumns ==> c in StripAll(header)
  {
    var m := Absent(RequiredColumns, StripAll(header));
    assert m != [] ==> m[0] in m;
    m
  }

  /** No required column is named twice. */
  lemma RequiredColumnsDistinct()
    ensures Distinct(RequiredColumns)
  {
    var r := RequiredColumns;
    assert r[2][8] != r[3][8] && r[5][6] != r[6][6];
    forall i, j | 0 <= i < j < |r| ensures r[i] != r[j] {
      assert |r[i]| != |r[j]| || (i == 2 && j == 3) || (i == 5 && j == 6);
    }
  }

  /** The missing names are reported in the order of `RequiredColumns`. */
  lemma MissingColumnsInOrder(header: seq<string>)
    ensures InOrderOf(MissingColumns(header), RequiredColumns)
  {
    RequiredColumnsDistinct();
    assert MissingColumns(header) == Absent(RequiredColumns, StripAll(header));
    AbsentKeepsOrder(RequiredColumns, StripAll(header));
  }

  /** A name surrounded by single spaces strips back to the name. */
  lemma StripPadded(c: string)
    requires c == [] || (!IsSpace(c[0]) && !IsSpace(c[|c| - 1]))
    ensures Strip([' '] + c + [' ']) == c
  {
    var s := [' '] + c + [' '];
    if c == [] {
      assert LeadingSpaces(s) == 2 by {
        assert s[1..] == [' '] && s[1..][1..] == [];
      }
    } else {
      var t := c + [' '];
      assert s[1..] == t && t[0] == c[0];
      assert LeadingSpaces(s) == 1;
      assert TrailingSpaces(t) == 1 by {
        assert t[..|t| - 1] == c;
      }
      assert t[..|t| - 1] == c;
    }
  }
}
