/** Helpers shared by the pipeline stages: dictionary lookup, first-appearance
    deduplication (pandas `unique`, `drop_duplicates`) and ordering predicates. */
module Seqs {

  datatype Option<T> = None | Some(value: T)

  /** `dict.get(key)` and `Series.map(dict)`: a missing key gives no value. */
  function Lookup<V>(m: map<string, V>, key: string): (r: Option<V>)
    ensures r.Some? <==> key in m
    ensures r.Some? ==> r.value == m[key]
  {
    if key in m then Some(m[key]) else None
  }

  ghost predicate Distinct<T>(s: seq<T>) {
    forall i, j :: 0 <= i < j < |s| ==> s[i] != s[j]
  }

  ghost predicate Nondecreasing(s: seq<int>) {
    forall i, j :: 0 <= i <= j < |s| ==> s[i] <= s[j]
  }

  ghost predicate StrictlyIncreasing(s: seq<int>) {
    forall i, j :: 0 <= i < j < |s| ==> s[i] < s[j]
  }

  /** Position of the first occurrence of `x` in `s`. */
  function FirstIndex<T(==)>(s: seq<T>, x: T): (r: nat)
    requires x in s
    ensures r < |s| && s[r] == x && x !in s[..r]
  {
    if x in s[..|s| - 1] then FirstIndex(s[..|s| - 1], x) else |s| - 1
  }

  /** Past a head that differs from `x`, the first occurrence moves one place. */
  lemma FirstShift<T>(s: seq<T>, x: T)
    requires x in s && s[0] != x
    ensures x in s[1..] && FirstIndex(s, x) == FirstIndex(s[1..], x) + 1
  {
    var r := FirstIndex(s, x);
    assert s[1..][r - 1] == x;
  }

  /** The distinct elements of `s`, in order of first appearance. */
  function Unique<T(==,!new)>(s: seq<T>): (u: seq<T>)
    ensures forall x :: x in u <==> x in s
    ensures Distinct(u)
    ensures |u| <= |s|
  {
    if s == [] then []
    else
      var p := Unique(s[..|s| - 1]);
      if s[|s| - 1] in p then p else p + [s[|s| - 1]]
  }

  lemma UniqueSnoc<T(!new)>(s: seq<T>, x: T)
    ensures Unique(s + [x]) == if x in s then Unique(s) else Unique(s) + [x]
  {
    assert (s + [x])[..|s|] == s;
  }

  lemma FirstIndexSnoc<T>(s: seq<T>, x: T, y: T)
    requires y in s + [x]
    ensures y in s ==> FirstIndex(s + [x], y) == FirstIndex(s, y)
    ensures y !in s ==> FirstIndex(s + [x], y) == |s|
  {
    assert (s + [x])[..|s|] == s;
  }

  lemma UniqueMembership<T(!new)>(s: seq<T>, x: T)
    ensures x in Unique(s) <==> x in s
  {
    var u := Unique(s);
    if x in u {
      var i :| 0 <= i < |u| && u[i] == x;
    }
    if x in s {
      var i :| 0 <= i < |s| && s[i] == x;
    }
  }

  /** Unique lists the distinct elements by increasing first-occurrence position. */
  lemma {:induction false} UniqueFollowsFirstAppearance<T(!new)>(s: seq<T>)
    ensures forall i, j :: 0 <= i < j < |Unique(s)| ==>
              FirstIndex(s, Unique(s)[i]) < FirstIndex(s, Unique(s)[j])
  {
    if s != [] {
      var p, x := s[..|s| - 1], s[|s| - 1];
      assert s == p + [x];
      UniqueFollowsFirstAppearance(p);
      UniqueSnoc(p, x);
      forall y | y in p
        ensures FirstIndex(s, y) == FirstIndex(p, y)
      {
      }
      if x !in p {
        assert FirstIndex(s, x) == |s| - 1;
      }
    }
  }

  /** On a nondecreasing sequence, first-appearance order is ascending order. */
  lemma {:induction false} UniqueOfNondecreasing(s: seq<int>)
    requires Nondecreasing(s)
    ensures StrictlyIncreasing(Unique(s))
  {
    if s != [] {
      var p, x := s[..|s| - 1], s[|s| - 1];
      assert s == p + [x];
      assert Nondecreasing(p) by {
        forall i, j | 0 <= i <= j < |p| ensures p[i] <= p[j] { assert p[i] == s[i] && p[j] == s[j]; }
      }
      UniqueOfNondecreasing(p);
      UniqueSnoc(p, x);
      if x !in p {
        var u := Unique(p);
        forall i | 0 <= i < |u| ensures u[i] < x {
          var k := FirstIndex(p, u[i]);
          assert s[k] == u[i];
        }
        assert Unique(s) == u + [x];
      }
    }
  }

  /** Appending a run of copies of a fresh value `t` adds `t` once, if the run is not empty. */
  lemma {:induction false} UniqueAppendRun(s: seq<int>, run: seq<int>, t: int)
    requires t !in s
    requires forall k :: 0 <= k < |run| ==> run[k] == t
    ensures Unique(s + run) == Unique(s) + (if run == [] then [] else [t])
  {
    if run == [] {
      assert s + run == s;
    } else {
      var r := run[..|run| - 1];
      assert s + run == (s + r) + [t];
      UniqueAppendRun(s, r, t);
      UniqueSnoc(s + r, t);
      if r != [] {
        assert t == (s + r)[|s|];
      }
    }
  }

  lemma DistinctCard<T>(u: seq<T>)
    requires Distinct(u)
    ensures |set x | x in u| == |u|
  {
    if u != [] {
      var p := u[..|u| - 1];
      DistinctCard(p);
      assert u == p + [u[|u| - 1]];
      assert (set x | x in u) == (set x | x in p) + {u[|u| - 1]};
    }
  }

  lemma {:induction false} SetCard<T>(s: seq<T>)
    ensures |set x | x in s| <= |s|
  {
    if s != [] {
      var p := s[..|s| - 1];
      SetCard(p);
      assert s == p + [s[|s| - 1]];
      assert (set x | x in s) == (set x | x in p) + {s[|s| - 1]};
    }
  }

  /** A duplicate-free sequence drawn from `s` is no longer than `s`. */
  lemma DistinctSubsetShorter<T>(u: seq<T>, s: seq<T>)
    requires Distinct(u)
    requires forall x :: x in u ==> x in s
    ensures |u| <= |s|
  {
    DistinctCard(u);
    SetCard(s);
    var su, ss := set x | x in u, set x | x in s;
    assert su <= ss;
    SubsetCard(su, ss);
  }

  lemma {:induction false} SubsetCard<T>(a: set<T>, b: set<T>)
    requires a <= b
    ensures |a| <= |b|
  {
    if a != {} {
      var x :| x in a;
      SubsetCard(a - {x}, b - {x});
    }
  }
}
