/** The configuration read at startup: the region of interest built from four corner
    coordinates (SlackNotify.java:127) and the integer prompt that discards input until an
    integer comes (SlackNotify.java:204-223). */
module Input {

  const Modulus: int := 0x1_0000_0000

  /** Java's `int`. */
  type Int32 = x: int | -0x8000_0000 <= x < 0x8000_0000

  /** Two's-complement wrap-around: the `int` that Java's 32-bit arithmetic yields for the
      mathematical value `v`. */
  function Wrap(v: int): (r: Int32)
    ensures (v - r) % Modulus == 0
    ensures -0x8000_0000 <= v < 0x8000_0000 ==> r == v
  {
    var m := v % Modulus;
    if m < 0x8000_0000 then m else m - Modulus
  }

  /** `java.awt.Rectangle`: a corner and a width and height, none of them checked. */
  datatype Rect = Rect(x: Int32, y: Int32, width: Int32, height: Int32)

  /** The capture rectangle from the top-left and bottom-right corners as typed in: the
      corner is the top-left corner, and the width and height are the differences of the
      coordinates in `int` arithmetic, so congruent to them modulo 2^32. */
  function RegionOfInterest(topLeftX: Int32, topLeftY: Int32, bottomRightX: Int32, bottomRightY: Int32): (roi: Rect)
    ensures roi.x == topLeftX && roi.y == topLeftY
    ensures (roi.width - (bottomRightX - topLeftX)) % Modulus == 0
    ensures (roi.height - (bottomRightY - topLeftY)) % Modulus == 0
  {
    Rect(topLeftX, topLeftY, Wrap(bottomRightX - topLeftX), Wrap(bottomRightY - topLeftY))
  }

  /** In `int` arithmetic the rectangle always gives back the bottom-right corner: its
      corner plus its extent, wrapped, is that corner, whatever the inputs. */
  lemma RegionRecoversCorners(topLeftX: Int32, topLeftY: Int32, bottomRightX: Int32, bottomRightY: Int32)
    ensures var roi := RegionOfInterest(topLeftX, topLeftY, bottomRightX, bottomRightY);
            roi.x == topLeftX && roi.y == topLeftY &&
            Wrap(roi.x + roi.width) == bottomRightX && Wrap(roi.y + roi.height) == bottomRightY
  {
  }

  /** When the differences fit in an `int`, the width and height are exactly the
      differences of the coordinates, so they are zero or negative for a bottom-right
      corner that is not below and right of the top-left one. Nothing here rejects such a
      rectangle; the screen capture that receives it is not part of this model. */
  lemma RegionExtent(topLeftX: Int32, topLeftY: Int32, bottomRightX: Int32, bottomRightY: Int32)
    requires -0x8000_0000 <= bottomRightX - topLeftX < 0x8000_0000
    requires -0x8000_0000 <= bottomRightY - topLeftY < 0x8000_0000
    ensures var roi := RegionOfInterest(topLeftX, topLeftY, bottomRightX, bottomRightY);
            roi.width == bottomRightX - topLeftX && roi.height == bottomRightY - topLeftY &&
            (roi.width <= 0 <==> bottomRightX <= topLeftX) && (roi.height <= 0 <==> bottomRightY <= topLeftY)
  {
  }

  /** Corners typed the wrong way round give a rectangle of negative width, and a
      region spanning more than `int` range wraps to a negative width as well. */
  lemma UncheckedRegions()
    ensures RegionOfInterest(100, 100, 50, 100) == Rect(100, 100, -50, 0)
    ensures RegionOfInterest(-0x8000_0000, 0, 0x7fff_ffff, 10).width == -1
  {
  }

  /** One whitespace-separated token of console input, as `Scanner` sees it: one that
      `hasNextInt` accepts (an integer in `int` range) or any other. */
  datatype Token = IntToken(value: Int32) | OtherToken

  /** One line of console input, split into tokens. */
  type Line = seq<Token>

  /** What a prompt for an integer yields: the value and the index of the first line not
      yet consumed, or `NoSuchElementException` from `nextLine` at the end of the input. */
  datatype Prompted = Read(value: Int32, next: nat) | NoSuchElement

  /** A line whose first token is an integer. */
  predicate IntegerLine(line: Line) {
    |line| > 0 && line[0].IntToken?
  }

  /** The reference behaviour of the integer prompt: the first integer line from line `i`
      on supplies the value, and every line before it is discarded. */
  function FirstInteger(lines: seq<Line>, i: nat): (r: Prompted)
    requires i <= |lines|
    ensures r.Read? ==>
      i < r.next <= |lines| && IntegerLine(lines[r.next - 1]) && r.value == lines[r.next - 1][0].value &&
      forall k :: i <= k < r.next - 1 ==> !IntegerLine(lines[k])
    ensures r.NoSuchElement? <==> forall k :: i <= k < |lines| ==> !IntegerLine(lines[k])
    decreases |lines| - i
  {
    if i == |lines| then NoSuchElement
    else if IntegerLine(lines[i]) then Read(lines[i][0].value, i + 1)
    else FirstInteger(lines, i + 1)
  }

  /** The line that holds the scanner's next token when it stands at the start of line
      `i`: blank lines are skipped; `|lines|` when no token is left. */
  function NextTokenLine(lines: seq<Line>, i: nat): (k: nat)
    requires i <= |lines|
    ensures i <= k <= |lines|
    ensures forall m :: i <= m < k ==> lines[m] == []
    ensures k < |lines| ==> lines[k] != []
    decreases |lines| - i
  {
    if i == |lines| || lines[i] != [] then i else NextTokenLine(lines, i + 1)
  }

  /** `hasNextInt()`: the next token, wherever it stands, is an integer; that is, the first
      line from `i` on that is not blank starts with an integer. */
  predicate HasNextInt(lines: seq<Line>, i: nat): (b: bool)
    requires i <= |lines|
    ensures b <==> exists k :: i <= k < |lines| && IntegerLine(lines[k]) && forall m :: i <= m < k ==> lines[m] == []
  {
    var k := NextTokenLine(lines, i);
    k < |lines| && lines[k][0].IntToken?
  }

  /** Blank lines do not change which integer line comes first. */
  lemma SkipBlankLines(lines: seq<Line>, i: nat, k: nat)
    requires i <= k <= |lines|
    requires forall m :: i <= m < k ==> lines[m] == []
    ensures FirstInteger(lines, i) == FirstInteger(lines, k)
  {
  }

  /** `promptInteger` over the remaining console lines, from line `start`: while the next
      token is not an integer, discard the current line; then read the integer and discard
      the rest of its line. */
  method PromptInteger(lines: seq<Line>, start: nat) returns (r: Prompted)
    requires start <= |lines|
    ensures r == FirstInteger(lines, start)
  {
    var i := start;
    while !HasNextInt(lines, i)
      invariant start <= i <= |lines|
      invariant FirstInteger(lines, i) == FirstInteger(lines, start)
      decreases |lines| - i
    {
      if i == |lines| {
        return NoSuchElement;
      }
      assert !IntegerLine(lines[i]);
      i := i + 1;
    }
    var k := NextTokenLine(lines, i);
    SkipBlankLines(lines, i, k);
    r := Read(lines[k][0].value, k + 1);
  }

  /** Typing `abc` and then `42` at a coordinate prompt yields 42. */
  lemma InvalidThenValid()
    ensures FirstInteger([[OtherToken], [IntToken(42)]], 0) == Read(42, 2)
  {
  }

  /** A line that starts with something else is discarded whole, even when an integer
      follows on it; blank lines before an integer line are passed over. */
  lemma WholeLinesDiscarded()
    ensures FirstInteger([[OtherToken, IntToken(7)], [], [IntToken(42), OtherToken]], 0) == Read(42, 3)
  {
  }
}
