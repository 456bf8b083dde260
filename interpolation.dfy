/**
 * The calibration transform of the calibrated sensor, as a function of the
 * calibration table and the raw reading: sort the points by raw value, take
 * the first segment [x1, x2] holding the reading and evaluate the straight
 * line through its two end points there; with fewer than two points, or a
 * reading outside every segment, the reading comes back unchanged. There is
 * no clamping and no rounding.
 */
module Interpolation {
  import opened Wrappers
  import opened Points

  /** The Python exceptions the calibration path can raise. */
  datatype Exception =
    | ZeroDivisionError  // the first segment holding the reading has zero width
    | ValueError         // a table entry cannot be unpacked into (raw, calibrated)

  /** Segment i, from s[i] to s[i + 1], holds the reading r. */
  ghost predicate Covers(s: seq<Point>, i: int, r: real) {
    0 <= i && i + 1 < |s| && s[i].0 <= r <= s[i + 1].0
  }

  /** The index of the first segment of `s` that holds r, if any. */
  function FirstCovering(s: seq<Point>, r: real): (k: Option<nat>)
    ensures k.Some? ==> Covers(s, k.value, r)
    ensures k.Some? ==> forall j :: 0 <= j < k.value ==> !Covers(s, j, r)
    ensures k.None? ==> forall j :: !Covers(s, j, r)
  {
    if |s| < 2 then None
    else if s[0].0 <= r <= s[1].0 then Some(0)
    else
      var rest := FirstCovering(s[1..], r);
      CoversShift(s, r);
      match rest
      case None => None
      case Some(k) => Some(k + 1)
  }

  /** Segment j of s is segment j - 1 of s without its first point. */
  lemma CoversShift(s: seq<Point>, r: real)
    requires s != []
    ensures forall j :: 1 <= j ==> (Covers(s, j, r) <==> Covers(s[1..], j - 1, r))
  {
  }

  /** The straight line through a and b, evaluated at r. */
  function Lerp(a: Point, b: Point, r: real): real
    requires a.0 != b.0
  {
    a.1 + (r - a.0) * (b.1 - a.1) / (b.0 - a.0)
  }

  /** The calibrated value of reading r under table t, or the exception raised. */
  function Interpolated(t: seq<Point>, r: real): Result<real, Exception> {
    if |t| < 2 then Ok(r) else OnSorted(SortByRaw(t), r)
  }

  /** The transform on the sorted table s: interpolate on the first segment holding r. */
  function OnSorted(s: seq<Point>, r: real): Result<real, Exception> {
    match FirstCovering(s, r)
    case None => Ok(r)
    case Some(i) =>
      if s[i + 1].0 == s[i].0 then Err(ZeroDivisionError)
      else Ok(Lerp(s[i], s[i + 1], r))
  }

  /** When segment i is the first to hold r, the transform uses segment i. */
  lemma OnSortedSegment(s: seq<Point>, i: nat, r: real)
    requires Covers(s, i, r)
    requires forall j :: 0 <= j < i ==> !Covers(s, j, r)
    ensures OnSorted(s, r) ==
              if s[i + 1].0 == s[i].0 then Err(ZeroDivisionError) else Ok(Lerp(s[i], s[i + 1], r))
  {
    var k := FirstCovering(s, r);
    assert k.Some?;
    assert k.value == i;
  }

  /** When no segment holds r, the transform returns r. */
  lemma OnSortedUncovered(s: seq<Point>, r: real)
    requires forall j :: 0 <= j < |s| - 1 ==> !Covers(s, j, r)
    ensures OnSorted(s, r) == Ok(r)
  {
    assert FirstCovering(s, r).None?;
  }

  /** v lies between a and b, whichever is larger. */
  predicate Between(v: real, a: real, b: real) {
    (a <= v <= b) || (b <= v <= a)
  }

  /** Some point of t has a raw value at or below r, and some point one at or above it. */
  ghost predicate InRawRange(t: seq<Point>, r: real) {
    exists p, q :: p in t && q in t && p.0 <= r <= q.0
  }

  /** Larger raw values never carry smaller calibrated values. */
  ghost predicate CoMonotone(t: seq<Point>) {
    forall p, q :: p in t && q in t && p.0 < q.0 ==> p.1 <= q.1
  }

  // ---------------------------------------------------------------------
  // The straight line through two points

  /** The line passes through both of its end points. */
  lemma LerpAtEnds(a: Point, b: Point)
    requires a.0 != b.0
    ensures Lerp(a, b, a.0) == a.1
    ensures Lerp(a, b, b.0) == b.1
  {
    var w := b.0 - a.0;
    assert (b.0 - a.0) * (b.1 - a.1) / w == b.1 - a.1;
  }

  /** Between its end points the line stays between their calibrated values. */
  lemma LerpBetween(a: Point, b: Point, r: real)
    requires a.0 < b.0 && a.0 <= r <= b.0
    ensures Between(Lerp(a, b, r), a.1, b.1)
  {
    var w, d := b.0 - a.0, b.1 - a.1;
    var f := (r - a.0) / w;
    assert 0.0 <= f <= 1.0;
    assert (r - a.0) * d / w == f * d;
    assert Lerp(a, b, r) == a.1 + f * d;
    if d >= 0.0 {
      assert 0.0 <= f * d <= d;
    } else {
      assert d <= f * d <= 0.0;
    }
  }

  /** A line through increasing points is non-decreasing. */
  lemma LerpMonotone(a: Point, b: Point, r1: real, r2: real)
    requires a.0 < b.0 && a.1 <= b.1 && r1 <= r2
    ensures Lerp(a, b, r1) <= Lerp(a, b, r2)
  {
    var w, d := b.0 - a.0, b.1 - a.1;
    assert (r2 - a.0) * d / w - (r1 - a.0) * d / w == (r2 - r1) * (d / w);
    assert (r2 - r1) * (d / w) >= 0.0;
  }

  // ---------------------------------------------------------------------
  // Segments of a sorted table

  /** In a sorted table whose raw span holds r, some segment holds r. */
  lemma {:induction false} SortedSpanCovered(s: seq<Point>, r: real)
    requires |s| >= 2 && SortedByRaw(s)
    requires s[0].0 <= r <= s[|s| - 1].0
    ensures FirstCovering(s, r).Some?
  {
    if r > s[1].0 {
      var tail := s[1..];
      assert SortedByRaw(tail) by {
        forall i, j | 0 <= i < j < |tail| ensures tail[i].0 <= tail[j].0 {
          assert tail[i] == s[i + 1] && tail[j] == s[j + 1];
        }
      }
      assert |tail| >= 2;
      assert tail[|tail| - 1] == s[|s| - 1];
      SortedSpanCovered(tail, r);
      var k := FirstCovering(tail, r).value;
      assert Covers(s, k + 1, r) by {
        assert tail[k] == s[k + 1] && tail[k + 1] == s[k + 2];
      }
    }
  }

  /** The table's raw span holds r exactly when some segment of the sorted table does. */
  lemma InRangeIffCovered(t: seq<Point>, r: real)
    requires |t| >= 2
    ensures InRawRange(t, r) <==> FirstCovering(SortByRaw(t), r).Some?
  {
    var s := SortByRaw(t);
    if InRawRange(t, r) {
      InRangeCovered(t, s, r);
    }
    if FirstCovering(s, r).Some? {
      CoveredInRange(t, s, r);
    }
  }

  /** If the raw span of t holds r, a segment of its sorted form s does. */
  lemma InRangeCovered(t: seq<Point>, s: seq<Point>, r: real)
    requires |s| >= 2 && SortedByRaw(s) && multiset(s) == multiset(t)
    requires InRawRange(t, r)
    ensures FirstCovering(s, r).Some?
  {
    var p, q :| p in t && q in t && p.0 <= r <= q.0;
    assert p in multiset(s) && q in multiset(s);
    var i :| 0 <= i < |s| && s[i] == p;
    var j :| 0 <= j < |s| && s[j] == q;
    assert s[0].0 <= s[i].0 && s[j].0 <= s[|s| - 1].0;
    SortedSpanCovered(s, r);
  }

  /** If a segment of the sorted form s of t holds r, the raw span of t does. */
  lemma CoveredInRange(t: seq<Point>, s: seq<Point>, r: real)
    requires multiset(s) == multiset(t)
    requires FirstCovering(s, r).Some?
    ensures InRawRange(t, r)
  {
    var k := FirstCovering(s, r).value;
    assert s[k] in multiset(t) && s[k + 1] in multiset(t);
    assert s[k] in t && s[k + 1] in t && s[k].0 <= r <= s[k + 1].0;
  }

  // ---------------------------------------------------------------------
  // Properties of the transform

  /**
   * The reading comes back unchanged when the table has fewer than two
   * points or the reading lies outside its raw span: no clamping. Inside
   * the span of a table of two or more points it does not fall back.
   */
  lemma IdentityFallback(t: seq<Point>, r: real)
    ensures |t| < 2 || !InRawRange(t, r) ==> Interpolated(t, r) == Ok(r)
    ensures |t| >= 2 && InRawRange(t, r) ==> FirstCovering(SortByRaw(t), r).Some?
  {
    if |t| >= 2 {
      InRangeIffCovered(t, r);
    }
  }

  /** Interior segment i - 1 holds the raw value of point i before any later one. */
  lemma FirstCoveringAtPoint(s: seq<Point>, k: nat)
    requires StrictlySortedByRaw(s) && |s| >= 2 && k < |s|
    ensures FirstCovering(s, s[k].0) == Some(if k == 0 then 0 else k - 1)
  {
    var r := s[k].0;
    var i := if k == 0 then 0 else k - 1;
    assert Covers(s, i, r);
    forall j | 0 <= j < i ensures !Covers(s, j, r) {
      assert s[j + 1].0 < s[k].0;
    }
  }

  /**
   * With distinct raw values, interpolating at a calibration point's raw
   * value gives exactly its calibrated value.
   */
  lemma ExactAtPoints(t: seq<Point>, p: Point)
    requires |t| >= 2 && DistinctRaw(t) && p in t
    ensures Interpolated(t, p.0) == Ok(p.1)
  {
    var s := SortByRaw(t);
    SortOfDistinctIsStrict(t);
    assert p in multiset(s);
    var k :| 0 <= k < |s| && s[k] == p;
    OnSortedAtPoint(s, k);
  }

  /** The sorted-table form of ExactAtPoints. */
  lemma OnSortedAtPoint(s: seq<Point>, k: nat)
    requires StrictlySortedByRaw(s) && |s| >= 2 && k < |s|
    ensures OnSorted(s, s[k].0) == Ok(s[k].1)
  {
    FirstCoveringAtPoint(s, k);
    if k == 0 {
      assert s[0].0 < s[1].0;
      LerpAtEnds(s[0], s[1]);
    } else {
      assert s[k - 1].0 < s[k].0;
      LerpAtEnds(s[k - 1], s[k]);
    }
  }

  /**
   * Inside the raw span, the result lies between the calibrated values of
   * the first sorted segment holding the reading, and so between two
   * calibrated values of the table.
   */
  lemma WithinFirstSegment(t: seq<Point>, r: real)
    requires |t| >= 2 && InRawRange(t, r)
    requires Interpolated(t, r).Ok?
    ensures FirstCovering(SortByRaw(t), r).Some?
    ensures var s, i := SortByRaw(t), FirstCovering(SortByRaw(t), r).value;
            Between(Interpolated(t, r).value, s[i].1, s[i + 1].1)
    ensures exists p, q :: p in t && q in t && p.1 <= Interpolated(t, r).value <= q.1
  {
    var s := SortByRaw(t);
    InRangeIffCovered(t, r);
    var i := FirstCovering(s, r).value;
    assert s[i].0 < s[i + 1].0;
    LerpBetween(s[i], s[i + 1], r);
    assert s[i] in multiset(t) && s[i + 1] in multiset(t);
    var v := Interpolated(t, r).value;
    if s[i].1 <= v <= s[i + 1].1 {
      assert s[i] in t && s[i + 1] in t && s[i].1 <= v <= s[i + 1].1;
    } else {
      assert s[i + 1] in t && s[i] in t && s[i + 1].1 <= v <= s[i].1;
    }
  }

  /**
   * A division by zero happens exactly when the reading is the smallest raw
   * value of the table and that raw value occurs at least twice: any other
   * duplicated raw value is reached through the segment before it.
   */
  lemma ZeroDivisionExactly(t: seq<Point>, r: real)
    ensures Interpolated(t, r).Err? <==>
            (forall p :: p in t ==> r <= p.0) && |WithRaw(t, r)| >= 2
  {
    if |t| < 2 {
      WithRawShort(t, r);
    } else {
      var s := SortByRaw(t);
      var k := FirstCovering(s, r);
      assert Interpolated(t, r).Err? <==> k.Some? && s[k.value + 1].0 == s[k.value].0;
      SortIsStable(t, r);
      LowerBoundTransfers(t, s, r);
      SortedZeroDivision(s, r);
    }
  }

  /** Reordering points keeps every lower bound on their raw values. */
  lemma LowerBoundTransfers(t: seq<Point>, s: seq<Point>, r: real)
    requires multiset(t) == multiset(s)
    ensures (forall p :: p in t ==> r <= p.0) <==> (forall p :: p in s ==> r <= p.0)
  {
    assert forall p :: p in t <==> p in multiset(s);
  }

  /** Fewer than two points hold fewer than two points of any raw value. */
  lemma WithRawShort(t: seq<Point>, r: real)
    requires |t| < 2
    ensures |WithRaw(t, r)| < 2
  {
    if t != [] {
      assert t[1..] == [];
    }
  }

  /** No point of s has raw value r, so none is selected. */
  lemma {:induction false} WithRawNone(s: seq<Point>, r: real)
    requires forall p :: p in s ==> p.0 != r
    ensures WithRaw(s, r) == []
  {
    if s != [] {
      assert forall p :: p in s[1..] ==> p in s;
      WithRawNone(s[1..], r);
    }
  }

  /** The sorted-table form of ZeroDivisionExactly. */
  lemma SortedZeroDivision(s: seq<Point>, r: real)
    requires |s| >= 2 && SortedByRaw(s)
    ensures (var k := FirstCovering(s, r); k.Some? && s[k.value + 1].0 == s[k.value].0) <==>
            (forall p :: p in s ==> r <= p.0) && |WithRaw(s, r)| >= 2
  {
    var k := FirstCovering(s, r);
    var zero := k.Some? && s[k.value + 1].0 == s[k.value].0;
    var tail := s[1..];
    assert WithRaw(s, r) == (if s[0].0 == r then [s[0]] else []) + WithRaw(tail, r);
    assert tail != [] && tail[0] == s[1];
    assert WithRaw(tail, r) == (if s[1].0 == r then [s[1]] else []) + WithRaw(tail[1..], r);
    if zero {
      var i := k.value;
      if i > 0 {
        assert Covers(s, i - 1, r);
        assert false;
      }
      assert s[0].0 == r && s[1].0 == r;
      forall p | p in s ensures r <= p.0 {
        var j :| 0 <= j < |s| && s[j] == p;
        assert s[0].0 <= s[j].0;
      }
    }
    if (forall p :: p in s ==> r <= p.0) && |WithRaw(s, r)| >= 2 {
      assert s[0] in s && s[1] in s;
      if s[0].0 != r {
        forall p | p in s ensures p.0 != r {
          var j :| 0 <= j < |s| && s[j] == p;
          assert s[0].0 <= s[j].0;
        }
        WithRawNone(s, r);
        assert false;
      }
      if s[1].0 != r {
        forall p | p in tail ensures p.0 != r {
          var j :| 0 <= j < |tail| && tail[j] == p;
          assert tail[j] == s[j + 1];
          assert s[1].0 <= s[j + 1].0;
        }
        WithRawNone(tail, r);
        assert false;
      }
      assert Covers(s, 0, r);
    }
  }

  /** With distinct raw values the transform never raises. */
  lemma DistinctNeverRaises(t: seq<Point>, r: real)
    requires DistinctRaw(t)
    ensures Interpolated(t, r).Ok?
  {
    if |t| >= 2 {
      var s := SortByRaw(t);
      SortOfDistinctIsStrict(t);
      var k := FirstCovering(s, r);
      if k.Some? {
        assert s[k.value].0 < s[k.value + 1].0;
      }
    }
  }

  /**
   * With distinct raw values the result does not depend on the order in
   * which the points are stored.
   */
  lemma OrderIndependent(t1: seq<Point>, t2: seq<Point>, r: real)
    requires DistinctRaw(t1)
    requires multiset(t1) == multiset(t2)
    ensures Interpolated(t1, r) == Interpolated(t2, r)
  {
    assert |t1| == |t2| by {
      assert |multiset(t1)| == |t1| && |multiset(t2)| == |t2|;
    }
    SortIgnoresOrder(t1, t2);
  }

  /** The sorted-table form of Monotone. */
  lemma SortedMonotone(s: seq<Point>, r1: real, r2: real)
    requires |s| >= 2 && StrictlySortedByRaw(s)
    requires forall i, j :: 0 <= i < j < |s| ==> s[i].1 <= s[j].1
    requires FirstCovering(s, r1).Some? && FirstCovering(s, r2).Some? && r1 <= r2
    ensures OnSorted(s, r1).Ok? && OnSorted(s, r2).Ok?
    ensures OnSorted(s, r1).value <= OnSorted(s, r2).value
  {
    var i1, i2 := FirstCovering(s, r1).value, FirstCovering(s, r2).value;
    assert s[i1].0 < s[i1 + 1].0 && s[i2].0 < s[i2 + 1].0;
    assert OnSorted(s, r1) == Ok(Lerp(s[i1], s[i1 + 1], r1));
    assert OnSorted(s, r2) == Ok(Lerp(s[i2], s[i2 + 1], r2));
    if i1 == i2 {
      LerpMonotone(s[i1], s[i1 + 1], r1, r2);
    } else {
      assert i1 < i2;
      LerpBetween(s[i1], s[i1 + 1], r1);
      LerpBetween(s[i2], s[i2 + 1], r2);
      assert i1 + 1 <= i2;
    }
  }

  /** Sorted strictly by raw value, a co-monotone table has non-decreasing calibrated values. */
  lemma SortedCalibratedNonDecreasing(t: seq<Point>, s: seq<Point>)
    requires CoMonotone(t) && StrictlySortedByRaw(s) && multiset(s) == multiset(t)
    ensures forall i, j :: 0 <= i < j < |s| ==> s[i].1 <= s[j].1
  {
    forall i, j | 0 <= i < j < |s| ensures s[i].1 <= s[j].1 {
      assert s[i] in multiset(t) && s[j] in multiset(t);
      assert s[i].0 < s[j].0;
    }
  }

  /**
   * With distinct raw values, and calibrated values that grow with the raw
   * values, the transform is non-decreasing on the table's raw span.
   */
  lemma Monotone(t: seq<Point>, r1: real, r2: real)
    requires DistinctRaw(t) && CoMonotone(t)
    requires InRawRange(t, r1) && InRawRange(t, r2) && r1 <= r2
    ensures Interpolated(t, r1).Ok? && Interpolated(t, r2).Ok?
    ensures Interpolated(t, r1).value <= Interpolated(t, r2).value
  {
    if |t| >= 2 {
      var s := SortByRaw(t);
      SortOfDistinctIsStrict(t);
      SortedCalibratedNonDecreasing(t, s);
      assert Interpolated(t, r1) == OnSorted(s, r1) && Interpolated(t, r2) == OnSorted(s, r2);
      InRangeCovered(t, s, r1);
      InRangeCovered(t, s, r2);
      SortedMonotone(s, r1, r2);
    }
  }
}
