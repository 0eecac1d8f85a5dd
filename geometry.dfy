/** Integer geometry of the card: the fixed subject size, the paste offset
    computed from the template size, and the ellipse that the circular mask
    fills. Everything here is a pure function of sizes, never of pixels. */
module Geometry {

  /** Side of the resized subject and of its mask, in pixels. The comment in
      the source derives it as 80% of half of an 850-pixel template, but the
      value is a constant that does not depend on the template. */
  const TargetSize: nat := 340

  /** The one-pixel nudge added to both paste coordinates. */
  const Nudge: int := 1

  /** A pixel coordinate: x is the column, y is the row. */
  datatype Position = Position(x: int, y: int)

  /** Python's `a // 2`. For a positive divisor Dafny's Euclidean division
      rounds toward minus infinity as Python's floor division does, also when
      `a` is negative (a template narrower than twice the subject). */
  function Half(a: int): (h: int)
    ensures 2 * h <= a < 2 * h + 2
  {
    a / 2
  }

  /** The paste offset: the subject box is centred in the bottom-left
      quadrant of the template, the odd leftover pixel going to the far side,
      and then moved one pixel right and one pixel down. */
  function PastePosition(width: nat, height: nat): (p: Position)
    // horizontally: the left margin (without the nudge) is the floor half of
    // the room left beside the subject in the left half of the template
    ensures var room := width / 2 - TargetSize;
      2 * (p.x - Nudge) <= room < 2 * (p.x - Nudge) + 2
    // vertically: the same inside the bottom half, which starts at row height / 2
    ensures var room := height / 2 - TargetSize;
      2 * (p.y - height / 2 - Nudge) <= room < 2 * (p.y - height / 2 - Nudge) + 2
  {
    Position(Half(width / 2 - TargetSize) + Nudge,
             height / 2 + Half(height / 2 - TargetSize) + Nudge)
  }

  /** Whether pixel (row, col) is covered by a size-by-size box whose top-left
      corner is at p. */
  predicate InBox(p: Position, rows: nat, cols: nat, row: int, col: int) {
    p.y <= row < p.y + rows && p.x <= col < p.x + cols
  }

  /** The subject box lies inside the bottom-left quadrant (columns
      [0, width / 2), rows [height / 2, height)) of the template. */
  predicate BoxInBottomLeftQuadrant(width: nat, height: nat) {
    var p := PastePosition(width, height);
    0 <= p.x && p.x + TargetSize <= width / 2 &&
    height / 2 <= p.y && p.y + TargetSize <= height
  }

  /** With more than TargetSize columns and rows in each half, the nudged
      box still fits in the bottom-left quadrant. */
  lemma {:induction false} BoxFitsQuadrant(width: nat, height: nat)
    requires width / 2 > TargetSize && height / 2 > TargetSize
    ensures BoxInBottomLeftQuadrant(width, height)
  {
    var p := PastePosition(width, height);
    assert p.x >= Nudge;
    assert p.y >= height / 2 + Nudge;
  }

  /** When the box fits the quadrant. Horizontally the margin is necessary:
      with exactly TargetSize columns or fewer in the left half, the nudge
      pushes the box across the vertical midline (or, for a narrow template,
      left of column 0). Vertically an odd height leaves the bottom half one
      row taller than height / 2, which absorbs the nudge for a bottom half
      of TargetSize rows and the floor rounding for one of TargetSize - 1. */
  lemma {:induction false} QuadrantNeedsMargin(width: nat, height: nat)
    ensures var p := PastePosition(width, height);
      (0 <= p.x && p.x + TargetSize <= width / 2) <==> width / 2 > TargetSize
    ensures var p := PastePosition(width, height);
      (height / 2 <= p.y && p.y + TargetSize <= height) <==>
      (height / 2 > TargetSize || (height % 2 == 1 && height / 2 >= TargetSize - 1))
  {
    var p := PastePosition(width, height);
    if width / 2 > TargetSize {
      assert 0 <= p.x && p.x + TargetSize <= width / 2;
    } else {
      assert p.x + TargetSize > width / 2;
    }
  }

  /** The configuration the source is written for: an 850 by 850 template.
      The box [43, 383) x [468, 808) is inside the quadrant x [0, 425],
      y [425, 850] named in the source's comment. */
  lemma Template850()
    ensures PastePosition(850, 850) == Position(43, 468)
    ensures BoxInBottomLeftQuadrant(850, 850)
    ensures TargetSize == 8 * (850 / 2) / 10
  {
  }

  function Sq(a: int): int {
    a * a
  }

  /** Pixel (row, col) lies in the filled ellipse inscribed in the bounding
      box (0, 0, width, height), the box given to ImageDraw.ellipse: with
      centre (width / 2, height / 2) and semi-axes width / 2 and height / 2,
      scaled by 2 * width * height to stay in integers. */
  predicate InEllipse(width: nat, height: nat, row: int, col: int) {
    Sq((2 * col - width) * height) + Sq((2 * row - height) * width) <= Sq(width * height)
  }

  /** The ellipse is symmetric about the box's vertical and horizontal
      midlines. */
  lemma EllipseSymmetric(width: nat, height: nat, row: int, col: int)
    ensures InEllipse(width, height, row, col) == InEllipse(width, height, row, width - col)
    ensures InEllipse(width, height, row, col) == InEllipse(width, height, height - row, col)
  {
    assert Sq((2 * (width - col) - width) * height) == Sq((2 * col - width) * height);
    assert Sq((2 * (height - row) - height) * width) == Sq((2 * row - height) * width);
  }

  /** Nothing outside the bounding box is in the ellipse. */
  lemma {:induction false} EllipseInsideBox(width: nat, height: nat, row: int, col: int)
    requires width > 0 && height > 0
    requires row < 0 || row > height || col < 0 || col > width
    ensures !InEllipse(width, height, row, col)
  {
    var w: int, h: int := width, height;
    if col < 0 || col > width {
      ScaledBeyond(2 * col - w, w, h);
      assert Sq((2 * row - h) * w) >= 0;
    } else {
      ScaledBeyond(2 * row - h, h, w);
      assert Sq((2 * col - w) * h) >= 0;
    }
  }

  /** A coordinate offset beyond a semi-axis stays beyond it when both are
      scaled by the same positive factor, and so does its square. */
  lemma ScaledBeyond(d: int, axis: int, k: int)
    requires axis > 0 && k > 0 && (d > axis || d < -axis)
    ensures Sq(d * k) > Sq(axis * k)
  {
    var e := if d > axis then d else -d;
    assert e * k > axis * k > 0;
    assert Sq(d * k) == (e * k) * (e * k);
    assert (e * k) * (e * k) > (axis * k) * (e * k) > (axis * k) * (axis * k);
  }

  /** For the 340-pixel mask: the centre is inside, the four corners of the
      subject box are outside, so they keep the template's pixels. */
  lemma MaskCornersAndCentre()
    ensures InEllipse(TargetSize, TargetSize, TargetSize / 2, TargetSize / 2)
    ensures !InEllipse(TargetSize, TargetSize, 0, 0)
    ensures !InEllipse(TargetSize, TargetSize, 0, TargetSize - 1)
    ensures !InEllipse(TargetSize, TargetSize, TargetSize - 1, 0)
    ensures !InEllipse(TargetSize, TargetSize, TargetSize - 1, TargetSize - 1)
  {
  }
}
