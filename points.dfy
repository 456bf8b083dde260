/**
 * Calibration points and the sort the calibrated sensor applies to them
 * before interpolating: a stable sort by raw value, as Python's `sorted`
 * with `key=lambda x: x[0]` is.
 */
module Points {

  /** A calibration point: (raw reading, calibrated value). */
  type Point = (real, real)

  /** The points appear in non-decreasing order of raw value. */
  ghost predicate SortedByRaw(s: seq<Point>) {
    forall i, j :: 0 <= i < j < |s| ==> s[i].0 <= s[j].0
  }

  /** The points appear in strictly increasing order of raw value. */
  ghost predicate StrictlySortedByRaw(s: seq<Point>) {
    forall i, j :: 0 <= i < j < |s| ==> s[i].0 < s[j].0
  }

  /** No two points (at different positions) share a raw value. */
  ghost predicate DistinctRaw(s: seq<Point>) {
    forall i, j :: 0 <= i < j < |s| ==> s[i].0 != s[j].0
  }

  /** The points of `s` whose raw value is `x`, in their order in `s`. */
  function WithRaw(s: seq<Point>, x: real): seq<Point> {
    if s == [] then []
    else (if s[0].0 == x then [s[0]] else []) + WithRaw(s[1..], x)
  }

  /** A point no larger in raw value than the head of a sorted sequence can go in front of it. */
  lemma ConsSorted(x: Point, s: seq<Point>)
    requires SortedByRaw(s)
    requires s == [] || x.0 <= s[0].0
    ensures SortedByRaw([x] + s)
  {
    var r := [x] + s;
    forall i, j | 0 <= i < j < |r| ensures r[i].0 <= r[j].0 {
      if i == 0 {
        assert r[j] == s[j - 1] && s[0].0 <= s[j - 1].0;
      } else {
        assert r[i] == s[i - 1] && r[j] == s[j - 1];
      }
    }
  }

  /** A sorted sequence stays sorted without its first point. */
  lemma TailSorted(s: seq<Point>)
    requires s != [] && SortedByRaw(s)
    ensures SortedByRaw(s[1..])
    ensures |s| > 1 ==> s[0].0 <= s[1..][0].0
  {
    var tail := s[1..];
    forall i, j | 0 <= i < j < |tail| ensures tail[i].0 <= tail[j].0 {
      assert tail[i] == s[i + 1] && tail[j] == s[j + 1];
    }
  }

  /** Inserts `p` before the first point whose raw value is not below p's. */
  function Insert(p: Point, s: seq<Point>): (r: seq<Point>)
    ensures |r| == |s| + 1
    ensures r[0] == p || (s != [] && r[0] == s[0])
    ensures multiset(r) == multiset(s) + multiset{p}
  {
    if s == [] || p.0 <= s[0].0 then [p] + s
    else
      assert s == [s[0]] + s[1..];
      [s[0]] + Insert(p, s[1..])
  }

  /** Inserting into a sorted sequence keeps it sorted. */
  lemma {:induction false} InsertSorted(p: Point, s: seq<Point>)
    requires SortedByRaw(s)
    ensures SortedByRaw(Insert(p, s))
  {
    if s == [] || p.0 <= s[0].0 {
      ConsSorted(p, s);
    } else {
      TailSorted(s);
      InsertSorted(p, s[1..]);
      ConsSorted(s[0], Insert(p, s[1..]));
    }
  }

  /** The table sorted by raw value; points with equal raw values keep their order. */
  function SortByRaw(t: seq<Point>): (s: seq<Point>)
    ensures |s| == |t|
    ensures SortedByRaw(s)
    ensures multiset(s) == multiset(t)
  {
    if t == [] then []
    else
      assert t == [t[0]] + t[1..];
      var rest := SortByRaw(t[1..]);
      InsertSorted(t[0], rest);
      Insert(t[0], rest)
  }

  /** Inserting p adds it in front of the points that share its raw value. */
  lemma {:induction false} InsertWithRaw(p: Point, s: seq<Point>, x: real)
    ensures WithRaw(Insert(p, s), x) == (if p.0 == x then [p] else []) + WithRaw(s, x)
  {
    var here := if p.0 == x then [p] else [];
    if s == [] || p.0 <= s[0].0 {
      assert Insert(p, s) == [p] + s;
      assert ([p] + s)[1..] == s;
    } else {
      var rest := Insert(p, s[1..]);
      var first := if s[0].0 == x then [s[0]] else [];
      assert Insert(p, s) == [s[0]] + rest;
      assert ([s[0]] + rest)[1..] == rest;
      assert WithRaw(Insert(p, s), x) == first + WithRaw(rest, x);
      InsertWithRaw(p, s[1..], x);
      assert WithRaw(rest, x) == here + WithRaw(s[1..], x);
      assert here == [] || first == [];
      assert WithRaw(s, x) == first + WithRaw(s[1..], x);
    }
  }

  /** The sort is stable: for every raw value, the points carrying it keep their relative order. */
  lemma {:induction false} SortIsStable(t: seq<Point>, x: real)
    ensures WithRaw(SortByRaw(t), x) == WithRaw(t, x)
  {
    if t != [] {
      SortIsStable(t[1..], x);
      InsertWithRaw(t[0], SortByRaw(t[1..]), x);
    }
  }

  /** A point occurring twice in a sequence is counted twice by its multiset. */
  lemma RepeatedPointCountsTwice(b: seq<Point>, i: int, j: int)
    requires 0 <= i < j < |b| && b[i] == b[j]
    ensures multiset(b)[b[i]] >= 2
  {
    assert b == b[..j] + b[j..];
    assert b[..j][i] == b[i];
    assert b[j..][0] == b[i];
  }

  /** In a table with distinct raw values every point occurs at most once. */
  lemma {:induction false} DistinctCountsOnce(a: seq<Point>, x: Point)
    requires DistinctRaw(a)
    ensures multiset(a)[x] <= 1
  {
    if a != [] {
      assert a == [a[0]] + a[1..];
      assert DistinctRaw(a[1..]) by {
        forall i, j | 0 <= i < j < |a[1..]| ensures a[1..][i].0 != a[1..][j].0 {
          assert a[1..][i] == a[i + 1] && a[1..][j] == a[j + 1];
        }
      }
      DistinctCountsOnce(a[1..], x);
      if a[0] == x {
        assert x !in a[1..] by {
          forall k | 0 <= k < |a[1..]| ensures a[1..][k] != x {
            assert a[1..][k] == a[k + 1];
          }
        }
      }
    }
  }

  /** Reordering a table keeps its raw values distinct. */
  lemma PermutationKeepsDistinct(a: seq<Point>, b: seq<Point>)
    requires DistinctRaw(a)
    requires multiset(a) == multiset(b)
    ensures DistinctRaw(b)
  {
    forall i, j | 0 <= i < j < |b| ensures b[i].0 != b[j].0 {
      if b[i] == b[j] {
        RepeatedPointCountsTwice(b, i, j);
        DistinctCountsOnce(a, b[i]);
      } else {
        assert b[i] in multiset(a) && b[j] in multiset(a);
        var i' :| 0 <= i' < |a| && a[i'] == b[i];
        var j' :| 0 <= j' < |a| && a[j'] == b[j];
        assert i' != j';
        if i' < j' {
          assert a[i'].0 != a[j'].0;
        } else {
          assert a[j'].0 != a[i'].0;
        }
      }
    }
  }

  /** With distinct raw values the sorted table is strictly increasing in raw value. */
  lemma SortOfDistinctIsStrict(t: seq<Point>)
    requires DistinctRaw(t)
    ensures StrictlySortedByRaw(SortByRaw(t))
  {
    PermutationKeepsDistinct(t, SortByRaw(t));
  }

  /** A strictly sorted sequence stays strictly sorted without its first point. */
  lemma StrictTail(a: seq<Point>)
    requires a != [] && StrictlySortedByRaw(a)
    ensures StrictlySortedByRaw(a[1..])
  {
    forall i, j | 0 <= i < j < |a[1..]| ensures a[1..][i].0 < a[1..][j].0 {
      assert a[1..][i] == a[i + 1] && a[1..][j] == a[j + 1];
    }
  }

  /** Two strictly sorted orderings of the same non-empty multiset start with the same point. */
  lemma SameFirst(a: seq<Point>, b: seq<Point>)
    requires a != [] && b != []
    requires StrictlySortedByRaw(a) && StrictlySortedByRaw(b)
    requires multiset(a) == multiset(b)
    ensures a[0] == b[0]
  {
    assert a[0] in multiset(b) && b[0] in multiset(a);
    var k :| 0 <= k < |b| && b[k] == a[0];
    var m :| 0 <= m < |a| && a[m] == b[0];
    assert a[0].0 <= a[m].0 == b[0].0 <= b[k].0 == a[0].0;
  }

  /** Two strictly sorted orderings of the same points are the same sequence. */
  lemma {:induction false} StrictlySortedUnique(a: seq<Point>, b: seq<Point>)
    requires StrictlySortedByRaw(a) && StrictlySortedByRaw(b)
    requires multiset(a) == multiset(b)
    ensures a == b
  {
    assert |b| == |a| by {
      assert |multiset(a)| == |a| && |multiset(b)| == |b|;
    }
    if a != [] {
      SameFirst(a, b);
      StrictTail(a);
      StrictTail(b);
      assert a == [a[0]] + a[1..] && b == [b[0]] + b[1..];
      assert multiset(a[1..]) == multiset(a) - multiset{a[0]};
      assert multiset(b[1..]) == multiset(b) - multiset{b[0]};
      StrictlySortedUnique(a[1..], b[1..]);
    }
  }

  /**
   * The sorted table depends only on which points the table holds, not on
   * the order they are stored in, when their raw values are distinct.
   */
  lemma SortIgnoresOrder(t1: seq<Point>, t2: seq<Point>)
    requires DistinctRaw(t1)
    requires multiset(t1) == multiset(t2)
    ensures SortByRaw(t1) == SortByRaw(t2)
  {
    PermutationKeepsDistinct(t1, t2);
    SortOfDistinctIsStrict(t1);
    SortOfDistinctIsStrict(t2);
    StrictlySortedUnique(SortByRaw(t1), SortByRaw(t2));
  }
}
