# Rectangles intersection, modelled in Dafny

This project models a small utility that intersects two axis-aligned
rectangles. A point or a segment counts as a degenerate rectangle. It has three
pure pieces:

- a `Rectangle` value with corners `(x1, y1)` and `(x2, y2)`. It is *correct*
  when `x1 <= x2` and `y1 <= y2`. Building one does not check this.
- `intersect_section`, which intersects two closed intervals ("sections").
  It raises `ValueError` when either interval is reversed. It returns `None`
  when they are disjoint. Otherwise it returns the 2nd and 3rd of the four
  bounds in ascending order.
- `intersect_rectangles`, which rejects an incorrect rectangle with
  `ValueError`, intersects the X sections and the Y sections, and builds the
  result rectangle from the two axis results, or returns `None` if either axis
  gives `None`.

Files:

- `sorting.dfy` (module `Sorting`): the ascending sort that the interval
  intersection calls, and the proof that a sorted permutation is unique.
- `rectangles_intersection.dfy` (module `RectanglesIntersection`): the data
  model, both operations, and their properties.
- `test_cases.dfy` (module `TestCases`): the assertions of `tests.py`, stated
  as lemmas about the model.

Modelling decisions:

- `Rectangle` (rectangles_intersection.py:11-20) is a Dafny datatype with the
  same four fields in the same order, and equality is structural.
- Coordinates are `real`. The source annotates them as `float` but only
  compares them, so exact comparison of reals has the same meaning.
- A raised `ValueError` is `Failure(e)` and "no intersection" is
  `Success(None)`, so the two channels stay apart. `Error` records which check
  raised: `InvalidSections` (rectangles_intersection.py:34) or
  `InvalidRectangles` (rectangles_intersection.py:46). In the code both are the
  same exception class and differ only in their message.
- `intersect_rectangles` lets an exception from `intersect_section` propagate.
  The model does the same with a `Failure` result, although this cannot happen
  once both rectangles are correct.
- The test `not (x_intersection and y_intersection)` is true when at least
  one axis result is `None`, because a non-empty tuple such as `(0, 0)` is always
  truthy. The model matches on the two `Some` cases.
- The builtin `sorted` is modelled by an insertion sort, `SortAscending`. It is
  proved to return an ascending permutation. `SortedUnique` shows that only one
  ascending permutation exists, so any sorting algorithm gives the same list.

## Model

| member | source | states |
|---|---|---|
| `Sorting.Insert` | rectangles_intersection.py:39 | inserting x gives one more element, headed by x or by the input's head |
| `Sorting.InsertPermutation` | rectangles_intersection.py:39 | inserting x keeps the elements of the input and adds x (multiset) |
| `Sorting.InsertAscending` | rectangles_intersection.py:39 | inserting into an ascending sequence keeps it ascending |
| `Sorting.SortAscending` | rectangles_intersection.py:39 | the sorted list has as many elements as the input |
| `Sorting.SortAscendingIsPermutation` | rectangles_intersection.py:39 | the sorted list has exactly the elements of the input (multiset) |
| `Sorting.SortAscendingIsAscending` | rectangles_intersection.py:39 | the sorted list is ascending |
| `Sorting.SortedUnique` | rectangles_intersection.py:39 | two ascending sequences with the same elements are equal, so the outcome of `sorted` is determined by the four values alone |
| `RectanglesIntersection.Rectangle.IsCorrect` | rectangles_intersection.py:22-28 | correct exactly when `x1 <= x2` and `y1 <= y2`, which is the same as the rectangle holding its own lower-left corner; a single point is correct |
| `RectanglesIntersection.CorrectIffNonEmpty` | rectangles_intersection.py:22-28 | a rectangle is correct exactly when at least one point lies in it |
| `RectanglesIntersection.IntersectSection` | rectangles_intersection.py:31-40 | fails (with `InvalidSections`) exactly when `a1 > a2` or `b1 > b2`, whatever the other interval is; for valid intervals returns `None` exactly when `a2 < b1` or `b2 < a1`, so touching ends do intersect |
| `RectanglesIntersection.SortedBoundsAreMaxMin` | rectangles_intersection.py:39-40 | on valid overlapping intervals, elements 1 and 2 of the sorted bounds are `max(a1, b1)` and `min(a2, b2)`, ties and zero-length intervals included |
| `RectanglesIntersection.AscendingBoundsAreMaxMin` | rectangles_intersection.py:39-40 | any ascending arrangement of the four bounds of valid overlapping intervals has `max(a1, b1)` at index 1 and `min(a2, b2)` at index 2 |
| `RectanglesIntersection.IntersectSectionIsMaxMin` | rectangles_intersection.py:36-40 | for valid intervals the result is `None` if disjoint and otherwise `(max(a1, b1), min(a2, b2))` |
| `RectanglesIntersection.IntersectSectionIsExact` | rectangles_intersection.py:36-40 | for valid intervals the result is `None` exactly when no point lies in both; otherwise it is an ordered interval whose points are exactly the points lying in both |
| `RectanglesIntersection.IntersectSectionWithinBoth` | rectangles_intersection.py:39-40 | a returned interval `(lo, hi)` has `lo <= hi` and lies inside both inputs |
| `RectanglesIntersection.IntersectSectionCommutes` | rectangles_intersection.py:33-40 | swapping the two intervals gives the same result on every input, errors and `None` included |
| `RectanglesIntersection.IntersectSectionIdempotent` | rectangles_intersection.py:39-40 | a valid interval intersected with itself is itself |
| `RectanglesIntersection.IntersectRectangles` | rectangles_intersection.py:43-59 | fails (with `InvalidRectangles`) exactly when either rectangle is not correct, whatever the other is; for correct rectangles returns `None` exactly when the X sections or the Y sections are disjoint |
| `RectanglesIntersection.IntersectRectanglesIsMaxMin` | rectangles_intersection.py:48-59 | for correct rectangles overlapping on both axes the result is `Rectangle(max x1, max y1, min x2, min y2)`, the X result giving x1/x2 and the Y result y1/y2 |
| `RectanglesIntersection.IntersectRectanglesIsExact` | rectangles_intersection.py:48-59 | for correct rectangles the result is `None` exactly when no point lies in both; otherwise it is a correct rectangle holding exactly the points that lie in both |
| `RectanglesIntersection.IntersectRectanglesIsGreatestWithin` | rectangles_intersection.py:54-59 | a returned rectangle is correct, lies inside both inputs, and contains every correct rectangle that lies inside both |
| `RectanglesIntersection.IntersectRectanglesCommutes` | rectangles_intersection.py:45-59 | swapping the two rectangles gives the same result on every input, errors and `None` included |
| `RectanglesIntersection.IntersectRectanglesIdempotent` | rectangles_intersection.py:45-59 | self-intersection succeeds exactly when the rectangle is correct (`x1 <= x2` and `y1 <= y2`), and then gives the rectangle back |
| `TestCases.RectangleCorrectCases` | tests.py:7-22 | `(0,0,2,2)` and the point `(0,0,0,0)` are correct; `(2,2,0,0)`, `(2,2,0,3)` and `(2,2,3,0)` are not |
| `TestCases.IntersectSectionErrorCases` | tests.py:26-34 | the three reversed-interval calls fail with `InvalidSections` |
| `TestCases.IntersectSectionDisjointCases` | tests.py:36-39 | the three disjoint calls return `None` |
| `TestCases.IntersectSectionOverlapCases` | tests.py:41-58 | the six calls with partial overlap, nesting or an inner point return the tested intervals |
| `TestCases.IntersectSectionTouchingCases` | tests.py:60-76 | the five calls with a point at an end or equal intervals return the tested intervals, e.g. `(0,3)` with `(3,3)` gives `(3,3)` |
| `TestCases.IntersectRectanglesErrorCases` | tests.py:80-97 | the three calls with an incorrect rectangle fail with `InvalidRectangles` |
| `TestCases.IntersectRectanglesDisjointCases` | tests.py:99-108 | the two disjoint calls return `None` |
| `TestCases.IntersectRectanglesOverlapCases` | tests.py:110-195 | the eight overlapping calls return the tested rectangles |

## Left out

- Floating point: NaN, infinities and signed zero are not modelled. Coordinates are exact reals, so an `int` and a `float` of equal value are not told apart. Python's stable `sorted` keeps the original objects, so `intersect_section(0, 1, 1.0, 2)` returns `(1, 1.0)`, which the model cannot distinguish from `(1.0, 1)`.
- Exception messages: only which check raised is kept, not the message text.
- `NamedTuple` machinery (indexing, `_replace`, and so on): a Dafny datatype with structural equality stands in for it.
- The algorithm of the builtin `sorted` is not modelled. An insertion sort replaces it, and `Sorting.SortedUnique` shows that the result does not depend on the algorithm.
- Distinct exception classes: the code raises the same `ValueError` at both checks. The model's `Error` tag only records which of the two checks raised.
