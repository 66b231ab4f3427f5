/** The concrete cases of the repository's unit tests, stated as lemmas
    about the model. */
module TestCases {
  import opened RectanglesIntersection

  /** Ordered corners and a single point are correct; a reversed axis is not. */
  lemma RectangleCorrectCases()
    ensures Rectangle(0.0, 0.0, 2.0, 2.0).IsCorrect()
    ensures Rectangle(0.0, 0.0, 0.0, 0.0).IsCorrect()
    ensures !Rectangle(2.0, 2.0, 0.0, 0.0).IsCorrect()
    ensures !Rectangle(2.0, 2.0, 0.0, 3.0).IsCorrect()
    ensures !Rectangle(2.0, 2.0, 3.0, 0.0).IsCorrect()
  {
  }

  /** A reversed interval is an error even when the other one is valid. */
  lemma IntersectSectionErrorCases()
    ensures IntersectSection(2.0, 0.0, 2.0, 0.0) == Failure(InvalidSections)
    ensures IntersectSection(2.0, 0.0, 0.0, 0.0) == Failure(InvalidSections)
    ensures IntersectSection(0.0, 0.0, 2.0, 0.0) == Failure(InvalidSections)
  {
  }

  /** Separated intervals, in either order, and two distinct points do not meet. */
  lemma IntersectSectionDisjointCases()
    ensures IntersectSection(0.0, 1.0, 2.0, 3.0) == Success(None)
    ensures IntersectSection(2.0, 3.0, 0.0, 1.0) == Success(None)
    ensures IntersectSection(0.0, 0.0, 1.0, 1.0) == Success(None)
  {
  }

  /** Partial overlap, nesting and a point inside, each in both argument orders. */
  lemma IntersectSectionOverlapCases()
    ensures IntersectSection(0.0, 2.0, 1.0, 3.0) == Success(Some((1.0, 2.0)))
    ensures IntersectSection(1.0, 3.0, 0.0, 2.0) == Success(Some((1.0, 2.0)))
    ensures IntersectSection(0.0, 3.0, 1.0, 2.0) == Success(Some((1.0, 2.0)))
    ensures IntersectSection(1.0, 2.0, 0.0, 3.0) == Success(Some((1.0, 2.0)))
    ensures IntersectSection(0.0, 3.0, 1.0, 1.0) == Success(Some((1.0, 1.0)))
    ensures IntersectSection(1.0, 1.0, 0.0, 3.0) == Success(Some((1.0, 1.0)))
  {
  }

  /** A point at either end, in both argument orders, and self-intersection:
      touching endpoints intersect. */
  lemma IntersectSectionTouchingCases()
    ensures IntersectSection(0.0, 3.0, 0.0, 0.0) == Success(Some((0.0, 0.0)))
    ensures IntersectSection(0.0, 0.0, 0.0, 3.0) == Success(Some((0.0, 0.0)))
    ensures IntersectSection(0.0, 3.0, 3.0, 3.0) == Success(Some((3.0, 3.0)))
    ensures IntersectSection(3.0, 3.0, 0.0, 3.0) == Success(Some((3.0, 3.0)))
    ensures IntersectSection(0.0, 3.0, 0.0, 3.0) == Success(Some((0.0, 3.0)))
  {
  }

  /** An incorrect rectangle is an error, in either position. */
  lemma IntersectRectanglesErrorCases()
    ensures IntersectRectangles(Rectangle(2.0, 2.0, 0.0, 0.0), Rectangle(2.0, 2.0, 0.0, 0.0)) == Failure(InvalidRectangles)
    ensures IntersectRectangles(Rectangle(1.0, 1.0, 2.0, 2.0), Rectangle(2.0, 2.0, 0.0, 0.0)) == Failure(InvalidRectangles)
    ensures IntersectRectangles(Rectangle(2.0, 2.0, 0.0, 0.0), Rectangle(1.0, 1.0, 2.0, 2.0)) == Failure(InvalidRectangles)
  {
  }

  /** Diagonally separated squares do not meet, in either order. */
  lemma IntersectRectanglesDisjointCases()
    ensures IntersectRectangles(Rectangle(0.0, 0.0, 1.0, 1.0), Rectangle(2.0, 2.0, 3.0, 3.0)) == Success(None)
    ensures IntersectRectangles(Rectangle(2.0, 2.0, 3.0, 3.0), Rectangle(0.0, 0.0, 1.0, 1.0)) == Success(None)
  {
  }

  /** Overlapping corners, a point inside, a nested rectangle and
      self-intersection. */
  lemma IntersectRectanglesOverlapCases()
    ensures IntersectRectangles(Rectangle(0.0, 0.0, 2.0, 2.0), Rectangle(1.0, 1.0, 3.0, 3.0)) == Success(Some(Rectangle(1.0, 1.0, 2.0, 2.0)))
    ensures IntersectRectangles(Rectangle(1.0, 1.0, 3.0, 3.0), Rectangle(0.0, 0.0, 2.0, 2.0)) == Success(Some(Rectangle(1.0, 1.0, 2.0, 2.0)))
    ensures IntersectRectangles(Rectangle(0.0, 1.0, 2.0, 3.0), Rectangle(1.0, 0.0, 3.0, 2.0)) == Success(Some(Rectangle(1.0, 1.0, 2.0, 2.0)))
    ensures IntersectRectangles(Rectangle(1.0, 0.0, 3.0, 2.0), Rectangle(0.0, 1.0, 2.0, 3.0)) == Success(Some(Rectangle(1.0, 1.0, 2.0, 2.0)))
    ensures IntersectRectangles(Rectangle(1.0, 1.0, 1.0, 1.0), Rectangle(0.0, 0.0, 2.0, 2.0)) == Success(Some(Rectangle(1.0, 1.0, 1.0, 1.0)))
    ensures IntersectRectangles(Rectangle(0.0, 0.0, 3.0, 3.0), Rectangle(1.0, 1.0, 2.0, 2.0)) == Success(Some(Rectangle(1.0, 1.0, 2.0, 2.0)))
    ensures IntersectRectangles(Rectangle(1.0, 1.0, 2.0, 2.0), Rectangle(0.0, 0.0, 3.0, 3.0)) == Success(Some(Rectangle(1.0, 1.0, 2.0, 2.0)))
    ensures IntersectRectangles(Rectangle(0.0, 0.0, 1.0, 1.0), Rectangle(0.0, 0.0, 1.0, 1.0)) == Success(Some(Rectangle(0.0, 0.0, 1.0, 1.0)))
  {
  }
}
