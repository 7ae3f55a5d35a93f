/** Captured bitmaps and the pixel-exact comparison `areEqual` (SlackNotify.java:167-185). */
module Bitmaps {

  /** A bitmap as `getWidth`, `getHeight` and `getRGB` see it: column `x` of `rgb`
      holds the RGB values of the pixels (x, 0) .. (x, height - 1). */
  datatype Bitmap = Bitmap(width: nat, height: nat, rgb: seq<seq<int>>)
  {
    /** Every column exists and has exactly `height` pixels. */
    predicate WellFormed() {
      |rgb| == width && forall x :: 0 <= x < width ==> |rgb[x]| == height
    }
  }

  /** The captured images the program handles; they are never written to after capture. */
  type Image = b: Bitmap | b.WellFormed() witness Bitmap(0, 0, [])

  predicate InBounds(img: Image, x: int, y: int) {
    0 <= x < img.width && 0 <= y < img.height
  }

  function RGB(img: Image, x: int, y: int): int
    requires InBounds(img, x, y)
  {
    img.rgb[x][y]
  }

  predicate SameSize(a: Image, b: Image) {
    a.width == b.width && a.height == b.height
  }

  /** `b` has a pixel at every coordinate of `a`, so reading `b` at `a`'s coordinates never fails. */
  predicate Covers(b: Image, a: Image) {
    a.width <= b.width && a.height <= b.height
  }

  /** The specification of the comparison: every pixel within `a`'s width and height
      exists in `b` and has the same RGB value there. */
  ghost predicate Matches(a: Image, b: Image) {
    forall x, y :: InBounds(a, x, y) ==> InBounds(b, x, y) && RGB(a, x, y) == RGB(b, x, y)
  }

  /** (x, y) is inside both images and the two RGB values differ. */
  predicate Mismatch(a: Image, b: Image, x: int, y: int) {
    InBounds(a, x, y) && InBounds(b, x, y) && RGB(a, x, y) != RGB(b, x, y)
  }

  /** (x, y) is inside `a` but `getRGB` on `b` would be out of bounds. */
  predicate Unreadable(a: Image, b: Image, x: int, y: int) {
    InBounds(a, x, y) && !InBounds(b, x, y)
  }

  /** The scan stops at (x, y): the pixels differ or `b` cannot be read there. */
  predicate Stops(a: Image, b: Image, x: int, y: int) {
    Mismatch(a, b, x, y) || Unreadable(a, b, x, y)
  }

  /** The source's scan order: columns left to right, each column top to bottom. */
  predicate ColumnMajorBefore(x0: int, y0: int, x: int, y: int) {
    x0 < x || (x0 == x && y0 < y)
  }

  /** The transposed scan order: rows top to bottom, each row left to right. */
  predicate RowMajorBefore(x0: int, y0: int, x: int, y: int) {
    y0 < y || (y0 == y && x0 < x)
  }

  /** The scan reaches (x, y): nothing earlier in column-major order stops it. */
  ghost predicate ReachesColumnMajor(a: Image, b: Image, x: int, y: int) {
    forall x0, y0 :: ColumnMajorBefore(x0, y0, x, y) ==> !Stops(a, b, x0, y0)
  }

  ghost predicate ReachesRowMajor(a: Image, b: Image, x: int, y: int) {
    forall x0, y0 :: RowMajorBefore(x0, y0, x, y) ==> !Stops(a, b, x0, y0)
  }

  /** What `areEqual` does: it returns a boolean, or `getRGB` on the second image throws
      for a coordinate outside it. */
  datatype Comparison = Returned(equal: bool) | OutOfBounds(x: int, y: int)

  /** `areEqual(image1, image2)`: walk image1's columns, and each column's rows, and
      stop at the first coordinate where the pixels differ or image2 has no pixel. */
  method AreEqual(image1: Image, image2: Image) returns (r: Comparison)
    ensures r == Returned(true) <==> Matches(image1, image2)
    ensures r == Returned(false) <==>
      exists x, y :: Mismatch(image1, image2, x, y) && ReachesColumnMajor(image1, image2, x, y)
    ensures r.OutOfBounds? ==>
      Unreadable(image1, image2, r.x, r.y) && ReachesColumnMajor(image1, image2, r.x, r.y)
    ensures Covers(image2, image1) ==> r.Returned?
  {
    for x := 0 to image1.width
      invariant ReachesColumnMajor(image1, image2, x, 0)
    {
      for y := 0 to image1.height
        invariant ReachesColumnMajor(image1, image2, x, y)
      {
        if !InBounds(image2, x, y) {
          FirstStopUnique(image1, image2, x, y);
          return OutOfBounds(x, y);
        }
        if image1.rgb[x][y] != image2.rgb[x][y] {
          return Returned(false);
        }
      }
      assert ReachesColumnMajor(image1, image2, x + 1, 0) by {
        forall x0, y0 | ColumnMajorBefore(x0, y0, x + 1, 0)
          ensures !Stops(image1, image2, x0, y0)
        {
          if InBounds(image1, x0, y0) {
            assert ColumnMajorBefore(x0, y0, x, image1.height);
          }
        }
      }
    }
    assert Matches(image1, image2) by {
      forall x, y | InBounds(image1, x, y)
        ensures InBounds(image2, x, y) && RGB(image1, x, y) == RGB(image2, x, y)
      {
        assert ColumnMajorBefore(x, y, image1.width, 0);
      }
    }
    return Returned(true);
  }

  /** The scan stops at one place only: two coordinates that both stop it and are both
      reached are the same coordinate. */
  lemma FirstStopUnique(a: Image, b: Image, x: int, y: int)
    requires Stops(a, b, x, y) && ReachesColumnMajor(a, b, x, y)
    ensures forall x1, y1 :: Stops(a, b, x1, y1) && ReachesColumnMajor(a, b, x1, y1) ==> x1 == x && y1 == y
  {
    forall x1, y1 | Stops(a, b, x1, y1) && ReachesColumnMajor(a, b, x1, y1)
      ensures x1 == x && y1 == y
    {
      if ColumnMajorBefore(x1, y1, x, y) {
      } else if ColumnMajorBefore(x, y, x1, y1) {
      }
    }
  }

  /** An image always compares equal to itself. */
  lemma MatchesReflexive(a: Image)
    ensures Matches(a, a)
  {
  }

  /** For same-size images one differing pixel makes the comparison false. */
  lemma OnePixelDiffers(a: Image, b: Image, x: int, y: int)
    requires SameSize(a, b) && InBounds(a, x, y)
    requires RGB(a, x, y) != RGB(b, x, y)
    ensures !Matches(a, b)
  {
  }

  /** For same-size images the comparison is symmetric. */
  lemma MatchesSymmetric(a: Image, b: Image)
    requires SameSize(a, b)
    ensures Matches(a, b) <==> Matches(b, a)
  {
  }

  /** For same-size images the comparison is exact equality of the bitmaps. */
  lemma MatchesIsEquality(a: Image, b: Image)
    ensures SameSize(a, b) ==> (Matches(a, b) <==> a == b)
  {
    if SameSize(a, b) && Matches(a, b) {
      forall x | 0 <= x < a.width
        ensures a.rgb[x] == b.rgb[x]
      {
        forall y | 0 <= y < a.height
          ensures a.rgb[x][y] == b.rgb[x][y]
        {
          assert InBounds(a, x, y);
        }
      }
      assert a.rgb == b.rgb;
    }
  }

  /** A second image smaller than the first in either direction never compares equal
      to a non-empty first image: the scan either finds a differing pixel or `getRGB` throws. */
  lemma SmallerNeverMatches(a: Image, b: Image)
    requires a.width > 0 && a.height > 0 && !Covers(b, a)
    ensures !Matches(a, b)
  {
    if a.width > b.width {
      assert Unreadable(a, b, a.width - 1, 0);
    } else {
      assert Unreadable(a, b, 0, a.height - 1);
    }
  }

  /** A second image larger than the first may compare equal although the two differ:
      only the first image's region is read. */
  lemma LargerMayMatch()
    ensures var a := Bitmap(1, 1, [[7]]);
            var b := Bitmap(2, 1, [[7], [9]]);
            a.WellFormed() && b.WellFormed() && a != b && Matches(a, b)
  {
    var a := Bitmap(1, 1, [[7]]);
    var b := Bitmap(2, 1, [[7], [9]]);
    assert a.rgb != b.rgb by { assert |a.rgb| != |b.rgb|; }
  }

  /** A scan in column-major order that stops at a mismatch reaches one, starting from any
      mismatch and stepping back to an earlier one while there is one. */
  lemma {:induction false} FirstMismatchColumnMajor(a: Image, b: Image, x: int, y: int)
    requires Covers(b, a) && Mismatch(a, b, x, y)
    ensures exists x1, y1 :: Mismatch(a, b, x1, y1) && ReachesColumnMajor(a, b, x1, y1)
    decreases x, y
  {
    if !ReachesColumnMajor(a, b, x, y) {
      var x0, y0 :| ColumnMajorBefore(x0, y0, x, y) && Stops(a, b, x0, y0);
      FirstMismatchColumnMajor(a, b, x0, y0);
    }
  }

  lemma {:induction false} FirstMismatchRowMajor(a: Image, b: Image, x: int, y: int)
    requires Covers(b, a) && Mismatch(a, b, x, y)
    ensures exists x1, y1 :: Mismatch(a, b, x1, y1) && ReachesRowMajor(a, b, x1, y1)
    decreases y, x
  {
    if !ReachesRowMajor(a, b, x, y) {
      var x0, y0 :| RowMajorBefore(x0, y0, x, y) && Stops(a, b, x0, y0);
      FirstMismatchRowMajor(a, b, x0, y0);
    }
  }

  /** When the second image covers the first, the answer does not depend on the scan
      order: scanning columns first or rows first meets a differing pixel in exactly the
      same cases, namely when the images do not match. */
  lemma ScanOrderIrrelevant(a: Image, b: Image)
    requires Covers(b, a)
    ensures (exists x, y :: Mismatch(a, b, x, y) && ReachesColumnMajor(a, b, x, y)) <==> !Matches(a, b)
    ensures (exists x, y :: Mismatch(a, b, x, y) && ReachesRowMajor(a, b, x, y)) <==> !Matches(a, b)
  {
    if !Matches(a, b) {
      var x, y :| InBounds(a, x, y) && !(InBounds(b, x, y) && RGB(a, x, y) == RGB(b, x, y));
      FirstMismatchColumnMajor(a, b, x, y);
      FirstMismatchRowMajor(a, b, x, y);
    }
  }
}
