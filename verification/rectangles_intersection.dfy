/** Intersection of two axis-aligned rectangles, where a point or a segment
    counts as a degenerate rectangle. The 1-D primitive intersects two closed
    intervals ("sections"); the 2-D operation applies it once per axis.

    Invalid input (a lower bound above its upper bound) is an error, carried
    by Result's Failure; "no intersection" is a successful None. The two are
    never conflated. */
module RectanglesIntersection {
  import opened Sorting

  /** Coordinates are compared exactly and never computed with. */
  type Coord = real

  datatype Option<T> = None | Some(value: T)

  /** The two places that raise ValueError: invalid sections, invalid rectangles. */
  datatype Error = InvalidSections | InvalidRectangles

  datatype Result<T> = Success(value: T) | Failure(error: Error)

  /** A closed interval [lo, hi], as the pair (lo, hi). */
  type Section = (Coord, Coord)

  /** Lower-left corner (x1, y1), upper-right corner (x2, y2). Nothing forces
      x1 <= x2 or y1 <= y2 when a rectangle is built. */
  datatype Rectangle = Rectangle(x1: Coord, y1: Coord, x2: Coord, y2: Coord)
  {
    /** The corners are ordered on both axes; a single point is correct.
        Equivalently, the rectangle holds its own lower-left corner. */
    predicate IsCorrect()
      ensures IsCorrect() <==> ContainsPoint(x1, y1)
    {
      x1 <= x2 && y1 <= y2
    }

    /** The point (px, py) lies in the closed rectangle. */
    predicate ContainsPoint(px: Coord, py: Coord) {
      InSection(px, x1, x2) && InSection(py, y1, y2)
    }

    /** This rectangle lies inside `outer`, edges included. */
    predicate Within(outer: Rectangle) {
      outer.x1 <= x1 && x2 <= outer.x2 && outer.y1 <= y1 && y2 <= outer.y2
    }
  }

  /** A rectangle is correct exactly when some point lies in it: correctness
      is non-emptiness. */
  lemma CorrectIffNonEmpty(r: Rectangle)
    ensures r.IsCorrect() <==> exists px, py :: r.ContainsPoint(px, py)
  {
    if r.IsCorrect() {
      assert r.ContainsPoint(r.x1, r.y1);
    }
  }

  function Max(u: Coord, v: Coord): Coord { if u <= v then v else u }

  function Min(u: Coord, v: Coord): Coord { if u <= v then u else v }

  /** x lies in the closed interval [lo, hi]. */
  predicate InSection(x: Coord, lo: Coord, hi: Coord) {
    lo <= x <= hi
  }

  /** The intervals [a1, a2] and [b1, b2] share no point; touching ends are not disjoint. */
  predicate Disjoint(a1: Coord, a2: Coord, b1: Coord, b2: Coord) {
    a2 < b1 || b2 < a1
  }

  /** Intersects [a1, a2] with [b1, b2]: fails on a reversed interval, gives
      None on disjoint intervals, and otherwise the 2nd and 3rd of the four
      bounds in ascending order. */
  function IntersectSection(a1: Coord, a2: Coord, b1: Coord, b2: Coord): (r: Result<Option<Section>>)
    ensures r.Failure? <==> !(a1 <= a2 && b1 <= b2)
    ensures r.Failure? ==> r.error == InvalidSections
    ensures r == Success(None) <==> a1 <= a2 && b1 <= b2 && Disjoint(a1, a2, b1, b2)
  {
    if !(a1 <= a2 && b1 <= b2) then Failure(InvalidSections)
    else if a2 < b1 || b2 < a1 then Success(None)
    else
      var sorted := SortAscending([a1, a2, b1, b2]);
      Success(Some((sorted[1], sorted[2])))
  }

  /** On valid overlapping intervals, the 2nd and 3rd of the sorted bounds
      are the larger lower bound and the smaller upper bound, ties included. */
  lemma SortedBoundsAreMaxMin(a1: Coord, a2: Coord, b1: Coord, b2: Coord)
    requires a1 <= a2 && b1 <= b2 && !Disjoint(a1, a2, b1, b2)
    ensures var sorted := SortAscending([a1, a2, b1, b2]);
      |sorted| == 4 && sorted[1] == Max(a1, b1) && sorted[2] == Min(a2, b2)
  {
    var sorted := SortAscending([a1, a2, b1, b2]);
    SortAscendingIsAscending([a1, a2, b1, b2]);
    SortAscendingIsPermutation([a1, a2, b1, b2]);
    AscendingBoundsAreMaxMin(sorted, a1, a2, b1, b2);
  }

  /** Any ascending arrangement of the bounds of two valid overlapping
      intervals is: smaller lower bound, larger lower bound, smaller upper
      bound, larger upper bound. */
  lemma AscendingBoundsAreMaxMin(s: seq<Coord>, a1: Coord, a2: Coord, b1: Coord, b2: Coord)
    requires a1 <= a2 && b1 <= b2 && !Disjoint(a1, a2, b1, b2)
    requires Ascending(s) && multiset(s) == multiset([a1, a2, b1, b2])
    ensures |s| == 4 && s[1] == Max(a1, b1) && s[2] == Min(a2, b2)
  {
    var expected := [Min(a1, b1), Max(a1, b1), Min(a2, b2), Max(a2, b2)];
    OverlapBoundsAscending(a1, a2, b1, b2);
    BoundsPermutation(a1, a2, b1, b2);
    assert multiset(s) == multiset(expected);
    SortedUnique(s, expected);
    assert s[1] == expected[1] && s[2] == expected[2];
  }

  /** On valid overlapping intervals, the smaller lower bound, the larger
      lower bound, the smaller upper bound and the larger upper bound come in
      ascending order. */
  lemma OverlapBoundsAscending(a1: Coord, a2: Coord, b1: Coord, b2: Coord)
    requires a1 <= a2 && b1 <= b2 && !Disjoint(a1, a2, b1, b2)
    ensures Ascending([Min(a1, b1), Max(a1, b1), Min(a2, b2), Max(a2, b2)])
  {
  }

  /** Two values in either order are the same two values. */
  lemma SwapPair(u: Coord, v: Coord)
    ensures multiset([u, v]) == multiset([v, u])
  {
  }

  /** Exchanging the first two of four values keeps the same values. */
  lemma SwapFront(u: Coord, v: Coord, w: Coord, z: Coord)
    ensures multiset([u, v, w, z]) == multiset([v, u, w, z])
  {
    SwapPair(u, v);
    assert [u, v, w, z] == [u, v] + [w, z];
    assert [v, u, w, z] == [v, u] + [w, z];
  }

  /** Exchanging the middle two of four values keeps the same values. */
  lemma SwapMiddle(u: Coord, v: Coord, w: Coord, z: Coord)
    ensures multiset([u, v, w, z]) == multiset([u, w, v, z])
  {
    SwapPair(v, w);
    assert [u, v, w, z] == [u] + [v, w] + [z];
    assert [u, w, v, z] == [u] + [w, v] + [z];
  }

  /** Exchanging the last two of four values keeps the same values. */
  lemma SwapBack(u: Coord, v: Coord, w: Coord, z: Coord)
    ensures multiset([u, v, w, z]) == multiset([u, v, z, w])
  {
    SwapPair(w, z);
    assert [u, v, w, z] == [u, v] + [w, z];
    assert [u, v, z, w] == [u, v] + [z, w];
  }

  /** Taking the smaller and larger of each pair of corresponding bounds
      rearranges the four bounds without changing them. */
  lemma BoundsPermutation(a1: Coord, a2: Coord, b1: Coord, b2: Coord)
    ensures multiset([Min(a1, b1), Max(a1, b1), Min(a2, b2), Max(a2, b2)]) == multiset([a1, a2, b1, b2])
  {
    var expected := [Min(a1, b1), Max(a1, b1), Min(a2, b2), Max(a2, b2)];
    SwapMiddle(a1, b1, a2, b2);
    if a1 <= b1 {
      if a2 <= b2 {
        assert expected == [a1, b1, a2, b2];
      } else {
        assert expected == [a1, b1, b2, a2];
        SwapBack(a1, b1, a2, b2);
      }
    } else {
      SwapFront(a1, b1, a2, b2);
      if a2 <= b2 {
        assert expected == [b1, a1, a2, b2];
      } else {
        assert expected == [b1, a1, b2, a2];
        SwapBack(b1, a1, a2, b2);
      }
    }
  }

  /** For valid intervals the result is None on disjoint intervals and
      otherwise [max of the lower bounds, min of the upper bounds]. */
  lemma IntersectSectionIsMaxMin(a1: Coord, a2: Coord, b1: Coord, b2: Coord)
    requires a1 <= a2 && b1 <= b2
    ensures IntersectSection(a1, a2, b1, b2) ==
      if Disjoint(a1, a2, b1, b2) then Success(None)
      else Success(Some((Max(a1, b1), Min(a2, b2))))
  {
    if !Disjoint(a1, a2, b1, b2) {
      SortedBoundsAreMaxMin(a1, a2, b1, b2);
    }
  }

  /** The result of a section intersection is exactly the set of common
      points: None iff no point lies in both, otherwise an ordered interval
      whose points are those lying in both. */
  lemma IntersectSectionIsExact(a1: Coord, a2: Coord, b1: Coord, b2: Coord)
    requires a1 <= a2 && b1 <= b2
    ensures IntersectSection(a1, a2, b1, b2).Success?
    ensures IntersectSection(a1, a2, b1, b2).value.None? <==>
      forall x :: !(InSection(x, a1, a2) && InSection(x, b1, b2))
    ensures IntersectSection(a1, a2, b1, b2).value.Some? ==>
      var (lo, hi) := IntersectSection(a1, a2, b1, b2).value.value;
      lo <= hi && forall x :: InSection(x, lo, hi) <==> InSection(x, a1, a2) && InSection(x, b1, b2)
  {
    IntersectSectionIsMaxMin(a1, a2, b1, b2);
    if !Disjoint(a1, a2, b1, b2) {
      var w := Max(a1, b1);
      assert InSection(w, a1, a2) && InSection(w, b1, b2);
    }
  }

  /** The result interval lies inside both inputs. */
  lemma IntersectSectionWithinBoth(a1: Coord, a2: Coord, b1: Coord, b2: Coord)
    requires IntersectSection(a1, a2, b1, b2).Success?
    requires IntersectSection(a1, a2, b1, b2).value.Some?
    ensures var (lo, hi) := IntersectSection(a1, a2, b1, b2).value.value;
      a1 <= lo <= hi <= a2 && b1 <= lo <= hi <= b2
  {
    IntersectSectionIsMaxMin(a1, a2, b1, b2);
  }

  /** Swapping the two intervals changes nothing, on every input (the error
      and the None cases included). */
  lemma IntersectSectionCommutes(a1: Coord, a2: Coord, b1: Coord, b2: Coord)
    ensures IntersectSection(a1, a2, b1, b2) == IntersectSection(b1, b2, a1, a2)
  {
    if !(a1 <= a2 && b1 <= b2) {
      assert IntersectSection(a1, a2, b1, b2) == Failure(InvalidSections);
      assert IntersectSection(b1, b2, a1, a2) == Failure(InvalidSections);
    } else if Disjoint(a1, a2, b1, b2) {
      assert Disjoint(b1, b2, a1, a2);
    } else {
      IntersectSectionIsMaxMin(a1, a2, b1, b2);
      IntersectSectionIsMaxMin(b1, b2, a1, a2);
      assert Max(a1, b1) == Max(b1, a1) && Min(a2, b2) == Min(b2, a2);
    }
  }

  /** A valid interval intersected with itself is itself. */
  lemma IntersectSectionIdempotent(a1: Coord, a2: Coord)
    requires a1 <= a2
    ensures IntersectSection(a1, a2, a1, a2) == Success(Some((a1, a2)))
  {
    IntersectSectionIsMaxMin(a1, a2, a1, a2);
  }

  /** Intersects two rectangles: fails unless both are correct, gives None
      when the X or the Y sections are disjoint, and otherwise the rectangle
      built from the two axis results. */
  function IntersectRectangles(a: Rectangle, b: Rectangle): (r: Result<Option<Rectangle>>)
    ensures r.Failure? <==> !(a.IsCorrect() && b.IsCorrect())
    ensures r.Failure? ==> r.error == InvalidRectangles
    ensures r == Success(None) <==>
      a.IsCorrect() && b.IsCorrect() &&
      (Disjoint(a.x1, a.x2, b.x1, b.x2) || Disjoint(a.y1, a.y2, b.y1, b.y2))
  {
    if !(a.IsCorrect() && b.IsCorrect()) then Failure(InvalidRectangles)
    else
      var xIntersection := IntersectSection(a.x1, a.x2, b.x1, b.x2);
      var yIntersection := IntersectSection(a.y1, a.y2, b.y1, b.y2);
      match (xIntersection, yIntersection)
      case (Failure(e), _) => Failure(e)
      case (_, Failure(e)) => Failure(e)
      // a non-empty pair is always truthy, so only a missing axis result counts
      case (Success(Some((xlo, xhi))), Success(Some((ylo, yhi)))) =>
        Success(Some(Rectangle(xlo, ylo, xhi, yhi)))
      case _ => Success(None)
  }

  /** For correct rectangles that overlap on both axes, the result takes the
      larger lower-left and the smaller upper-right coordinates. */
  lemma IntersectRectanglesIsMaxMin(a: Rectangle, b: Rectangle)
    requires a.IsCorrect() && b.IsCorrect()
    requires !Disjoint(a.x1, a.x2, b.x1, b.x2) && !Disjoint(a.y1, a.y2, b.y1, b.y2)
    ensures IntersectRectangles(a, b) == Success(Some(Rectangle(
      Max(a.x1, b.x1), Max(a.y1, b.y1), Min(a.x2, b.x2), Min(a.y2, b.y2))))
  {
    IntersectSectionIsMaxMin(a.x1, a.x2, b.x1, b.x2);
    IntersectSectionIsMaxMin(a.y1, a.y2, b.y1, b.y2);
  }

  /** The result of a rectangle intersection is exactly the set of common
      points: None iff no point lies in both rectangles, otherwise a correct
      rectangle holding exactly the points that lie in both. */
  lemma IntersectRectanglesIsExact(a: Rectangle, b: Rectangle)
    requires a.IsCorrect() && b.IsCorrect()
    ensures IntersectRectangles(a, b).Success?
    ensures IntersectRectangles(a, b).value.None? <==>
      forall px, py :: !(a.ContainsPoint(px, py) && b.ContainsPoint(px, py))
    ensures IntersectRectangles(a, b).value.Some? ==>
      var c := IntersectRectangles(a, b).value.value;
      c.IsCorrect() &&
      forall px, py :: c.ContainsPoint(px, py) <==> a.ContainsPoint(px, py) && b.ContainsPoint(px, py)
  {
    var r := IntersectRectangles(a, b);
    if Disjoint(a.x1, a.x2, b.x1, b.x2) || Disjoint(a.y1, a.y2, b.y1, b.y2) {
      assert r == Success(None);
      DisjointAxisNoCommonPoint(a, b);
    } else {
      IntersectRectanglesIsMaxMin(a, b);
      OverlapIsExact(a, b);
    }
  }

  /** Rectangles whose X or Y sections are disjoint share no point. */
  lemma DisjointAxisNoCommonPoint(a: Rectangle, b: Rectangle)
    requires Disjoint(a.x1, a.x2, b.x1, b.x2) || Disjoint(a.y1, a.y2, b.y1, b.y2)
    ensures forall px, py :: !(a.ContainsPoint(px, py) && b.ContainsPoint(px, py))
  {
    forall px, py ensures !(a.ContainsPoint(px, py) && b.ContainsPoint(px, py)) {
      assert !(InSection(px, a.x1, a.x2) && InSection(px, b.x1, b.x2)) ||
             !(InSection(py, a.y1, a.y2) && InSection(py, b.y1, b.y2));
    }
  }

  /** For correct rectangles overlapping on both axes, the max/min rectangle
      is correct and holds exactly the common points, of which there is one. */
  lemma OverlapIsExact(a: Rectangle, b: Rectangle)
    requires a.IsCorrect() && b.IsCorrect()
    requires !Disjoint(a.x1, a.x2, b.x1, b.x2) && !Disjoint(a.y1, a.y2, b.y1, b.y2)
    ensures var c := Rectangle(Max(a.x1, b.x1), Max(a.y1, b.y1), Min(a.x2, b.x2), Min(a.y2, b.y2));
      c.IsCorrect() &&
      a.ContainsPoint(c.x1, c.y1) && b.ContainsPoint(c.x1, c.y1) &&
      forall px, py :: c.ContainsPoint(px, py) <==> a.ContainsPoint(px, py) && b.ContainsPoint(px, py)
  {
  }

  /** The result rectangle is correct, lies inside both inputs, and holds
      every correct rectangle that lies inside both. */
  lemma IntersectRectanglesIsGreatestWithin(a: Rectangle, b: Rectangle)
    requires IntersectRectangles(a, b).Success?
    requires IntersectRectangles(a, b).value.Some?
    ensures var c := IntersectRectangles(a, b).value.value;
      c.IsCorrect() && c.Within(a) && c.Within(b) &&
      forall d: Rectangle :: d.IsCorrect() && d.Within(a) && d.Within(b) ==> d.Within(c)
  {
    assert a.IsCorrect() && b.IsCorrect();
    assert !Disjoint(a.x1, a.x2, b.x1, b.x2) && !Disjoint(a.y1, a.y2, b.y1, b.y2);
    IntersectRectanglesIsMaxMin(a, b);
    var c := Rectangle(Max(a.x1, b.x1), Max(a.y1, b.y1), Min(a.x2, b.x2), Min(a.y2, b.y2));
    assert IntersectRectangles(a, b).value.value == c;
    forall d: Rectangle | d.IsCorrect() && d.Within(a) && d.Within(b) ensures d.Within(c) {
    }
  }

  /** Swapping the two rectangles changes nothing, on every input (the error
      and the None cases included). */
  lemma IntersectRectanglesCommutes(a: Rectangle, b: Rectangle)
    ensures IntersectRectangles(a, b) == IntersectRectangles(b, a)
  {
    IntersectSectionCommutes(a.x1, a.x2, b.x1, b.x2);
    IntersectSectionCommutes(a.y1, a.y2, b.y1, b.y2);
  }

  /** Self-intersection succeeds exactly on correct rectangles, and then
      gives the rectangle back. */
  lemma IntersectRectanglesIdempotent(a: Rectangle)
    ensures IntersectRectangles(a, a).Success? <==> a.IsCorrect()
    ensures a.IsCorrect() ==> IntersectRectangles(a, a) == Success(Some(a))
  {
    if a.IsCorrect() {
      IntersectRectanglesIsMaxMin(a, a);
    }
  }
}
