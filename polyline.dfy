/**
 * The squiggly underline of `AnnotationPainter.computePolyline`: a zig-zag of
 * peaks WIDTH pixels apart, HEIGHT pixels tall, drawn from a left end point
 * towards a right one at the bottom of a line of text of the given height.
 * The result is a flat array of alternating x and y coordinates, computed with
 * Java's 32-bit `int` arithmetic.
 */
module Polyline {
  import opened JavaTypes

  /** An SWT point in widget pixels. */
  datatype Point = Point(x: int32, y: int32)

  /** Horizontal distance between two peaks (must be even). */
  const WIDTH: int := 4
  /** Height of a peak. */
  const HEIGHT: int := 2

  /** `(right.x - left.x) / WIDTH`, with Java's wrap-around and truncation toward zero. */
  function Peeks(left: Point, right: Point): (n: int)
    ensures -0x2000_0000 <= n < 0x2000_0000
    ensures n < 0 <==> Wrap32(right.x - left.x) <= -WIDTH
  {
    JavaDiv(Wrap32(right.x - left.x), WIDTH)
  }

  /** The y coordinate of the squiggle's troughs, and that of its peaks. */
  function Bottom(left: Point, height: int32): int32 {
    Wrap32(left.y + height - 1)
  }

  function Top(left: Point, height: int32): int32 {
    Wrap32(Bottom(left, height) - HEIGHT)
  }

  /**
   * Entry `k` of the coordinate array: point `k / 2` of the zig-zag lies WIDTH/2
   * pixels right of the previous one, troughs (even points) at Bottom and peaks
   * (odd points) at Top.
   */
  function Coordinate(left: Point, height: int32, k: int): int32 {
    if k % 2 == 0 then Wrap32(left.x + (WIDTH / 2) * (k / 2))
    else if (k / 2) % 2 == 0 then Bottom(left, height)
    else Top(left, height)
  }

  /** The coordinate array `computePolyline(left, right, height)` returns. */
  function Squiggle(left: Point, right: Point, height: int32): (r: seq<int32>)
    ensures r == [] <==> Peeks(left, right) < 0
    ensures r != [] ==> |r| == 4 * Peeks(left, right) + 2
    ensures forall k :: 0 <= k < |r| ==> r[k] == Coordinate(left, height, k)
  {
    // ((2 * peeks) + 1) * 2 cannot wrap: |peeks| <= 2^29
    var length := ((2 * Peeks(left, right)) + 1) * 2;
    if length < 0 then [] else seq(length, k => Coordinate(left, height, k))
  }

  /** Halving a number written as 2q + r. */
  lemma Halve(k: int, q: int, r: int)
    requires k == 2 * q + r && 0 <= r < 2
    ensures k / 2 == q && k % 2 == r
  {
  }

  /** The four coordinates that the loop of computePolyline writes for peak `i`. */
  lemma PeakCoordinates(left: Point, height: int32, i: int)
    requires 0 <= i
    ensures Coordinate(left, height, 4 * i) == Wrap32(left.x + WIDTH * i)
    ensures Coordinate(left, height, 4 * i + 1) == Bottom(left, height)
    ensures Coordinate(left, height, 4 * i + 2) == Wrap32(Wrap32(left.x + WIDTH * i) + WIDTH / 2)
    ensures Coordinate(left, height, 4 * i + 3) == Top(left, height)
  {
    Halve(4 * i, 2 * i, 0);
    Halve(4 * i + 1, 2 * i, 1);
    Halve(4 * i + 2, 2 * i + 1, 0);
    Halve(4 * i + 3, 2 * i + 1, 1);
    Halve(2 * i, i, 0);
    Halve(2 * i + 1, i, 1);
    WrapAdd(left.x + WIDTH * i, WIDTH / 2);
  }

  /**
   * One pass of the loop of computePolyline: when the entries before peak `i`
   * are right and the pass writes the peak's four entries, the entries up to
   * the next peak are right.
   */
  lemma PeakFilled(before: seq<int32>, after: seq<int32>, left: Point, height: int32, i: int)
    requires 0 <= i && 4 * i + 3 < |before| == |after|
    requires forall k :: 0 <= k < 4 * i ==> before[k] == Coordinate(left, height, k)
    requires after[..4 * i] == before[..4 * i]
    requires after[4 * i] == Wrap32(left.x + WIDTH * i)
    requires after[4 * i + 1] == Bottom(left, height)
    requires after[4 * i + 2] == Wrap32(after[4 * i] + WIDTH / 2)
    requires after[4 * i + 3] == Top(left, height)
    ensures forall k :: 0 <= k < 4 * i + 4 ==> after[k] == Coordinate(left, height, k)
  {
    PeakCoordinates(left, height, i);
    forall k | 0 <= k < 4 * i + 4
      ensures after[k] == Coordinate(left, height, k)
    {
      if k < 4 * i {
        assert after[k] == after[..4 * i][k];
      }
    }
  }

  /**
   * The end of computePolyline: when the entries of all peaks are right and
   * the last two entries are the final trough, the array is the squiggle.
   */
  lemma SquiggleFilled(peaks: seq<int32>, after: seq<int32>, left: Point, right: Point, height: int32)
    requires 0 <= Peeks(left, right) && |peaks| == |after| == 4 * Peeks(left, right) + 2
    requires forall k :: 0 <= k < 4 * Peeks(left, right) ==> peaks[k] == Coordinate(left, height, k)
    requires after[..4 * Peeks(left, right)] == peaks[..4 * Peeks(left, right)]
    requires after[4 * Peeks(left, right)] == Wrap32(left.x + WIDTH * Peeks(left, right))
    requires after[4 * Peeks(left, right) + 1] == Bottom(left, height)
    ensures after == Squiggle(left, right, height)
  {
    var n := Peeks(left, right);
    PeakCoordinates(left, height, n);
    var expected := Squiggle(left, right, height);
    forall k | 0 <= k < |after|
      ensures after[k] == expected[k]
    {
      if k < 4 * n {
        assert after[k] == after[..4 * n][k];
      }
    }
  }

  /** `computePolyline`: fills the coordinate array peak by peak, then adds the last point. */
  method ComputePolyline(left: Point, right: Point, height: int32) returns (coordinates: array<int32>)
    ensures coordinates[..] == Squiggle(left, right, height)
  {
    var peeks := JavaDiv(Wrap32(right.x - left.x), WIDTH);
    assert peeks == Peeks(left, right);
    var leftX := left.x;
    var length := ((2 * peeks) + 1) * 2;
    if length < 0 {
      coordinates := new int32[0];
      return;
    }
    coordinates := new int32[length];
    var bottom := Wrap32(left.y + height - 1);
    var top := Wrap32(bottom - HEIGHT);
    assert length == 4 * peeks + 2;
    for i := 0 to peeks
      invariant forall k :: 0 <= k < 4 * i ==> coordinates[k] == Coordinate(left, height, k)
    {
      var index := 4 * i;
      ghost var before := coordinates[..];
      coordinates[index] := Wrap32(leftX + (WIDTH * i));
      coordinates[index + 1] := bottom;
      coordinates[index + 2] := Wrap32(coordinates[index] + WIDTH / 2);
      coordinates[index + 3] := top;
      PeakFilled(before, coordinates[..], left, height, i);
    }
    // the loop leaves out the final trough, which closes the last peak
    ghost var peaks := coordinates[..];
    coordinates[length - 2] := Wrap32(left.x + (WIDTH * peeks));
    coordinates[length - 1] := bottom;
    SquiggleFilled(peaks, coordinates[..], left, right, height);
  }

  /** No `int` operation of computePolyline wraps around. */
  predicate NoOverflow(left: Point, right: Point, height: int32) {
    && InInt32(right.x - left.x)
    && InInt32(left.x + WIDTH * Peeks(left, right))
    && InInt32(left.y + height - 1)
    && InInt32(left.y + height - 1 - HEIGHT)
  }

  /**
   * Without wrap-around, peak `i` is the trough (left.x + 4i, left.y + height - 1)
   * followed by the peak (left.x + 4i + 2, left.y + height - 3).
   */
  lemma {:induction false} SquigglePeak(left: Point, right: Point, height: int32, i: int)
    requires NoOverflow(left, right, height)
    requires 0 <= i < Peeks(left, right)
    ensures var r := Squiggle(left, right, height);
      && 4 * i + 3 < |r|
      && r[4 * i] == left.x + WIDTH * i
      && r[4 * i + 1] == left.y + height - 1
      && r[4 * i + 2] == left.x + WIDTH * i + WIDTH / 2
      && r[4 * i + 3] == left.y + height - 1 - HEIGHT
  {
    PeakCoordinates(left, height, i);
    assert InInt32(left.x + WIDTH * i + WIDTH / 2);
  }

  /** A squiggle that is not empty ends in the trough (left.x + 4 * peeks, bottom). */
  lemma {:induction false} SquiggleEnd(left: Point, right: Point, height: int32)
    requires Squiggle(left, right, height) != []
    ensures var r := Squiggle(left, right, height);
      && r[|r| - 2] == Wrap32(left.x + WIDTH * Peeks(left, right))
      && r[|r| - 1] == Bottom(left, height)
  {
    PeakCoordinates(left, height, Peeks(left, right));
  }

  /**
   * Without wrap-around, the x coordinates (even entries) never decrease, all lie
   * between left.x and left.x + 4 * peeks, and that last one is at most right.x
   * and short of it by less than one peak whenever right.x >= left.x.
   */
  lemma {:induction false} SquiggleXNonDecreasing(left: Point, right: Point, height: int32)
    requires NoOverflow(left, right, height)
    ensures var r := Squiggle(left, right, height);
      && (forall j, k :: 0 <= j <= k < |r| && j % 2 == 0 && k % 2 == 0 ==> r[j] <= r[k])
      && (forall k :: 0 <= k < |r| && k % 2 == 0 ==>
            left.x <= r[k] <= left.x + WIDTH * Peeks(left, right))
      && (right.x >= left.x ==>
            right.x - WIDTH < left.x + WIDTH * Peeks(left, right) <= right.x)
  {
    var r := Squiggle(left, right, height);
    var p := Peeks(left, right);
    forall k | 0 <= k < |r| && k % 2 == 0
      ensures r[k] == left.x + (WIDTH / 2) * (k / 2)
      ensures left.x <= r[k] <= left.x + WIDTH * p
    {
      assert k / 2 <= 2 * p;
      assert InInt32(left.x + (WIDTH / 2) * (k / 2));
    }
  }
}
