/**
 * The fixed geometry of create.py: page and badge sizes in points, the layout
 * of one badge, the uniform scale that fits a drawing into the logo box, and
 * the search for the name's font size.
 */
module Geometry {
  import opened Wrappers

  /** reportlab's inch, in points. */
  const Inch: real := 72.0
  /** The Letter page, 8.5in by 11in. */
  const PageWidth: real := 8.5 * Inch
  const PageHeight: real := 11.0 * Inch
  /** One badge, 4.25in by 6in. */
  const BadgeWidth: real := 4.25 * Inch
  const BadgeHeight: real := 6.0 * Inch

  const MaxNameFontSize: int := 28

  /** An axis-aligned rectangle given by its bottom-left corner and its size. */
  datatype Rect = Rect(x: real, y: real, width: real, height: real)

  predicate Inside(inner: Rect, outer: Rect) {
    outer.x <= inner.x && inner.x + inner.width <= outer.x + outer.width &&
    outer.y <= inner.y && inner.y + inner.height <= outer.y + outer.height
  }

  // ---------------------------------------------------------------- fit scaling

  function Min(a: real, b: real): real {
    if a <= b then a else b
  }

  /**
   * min(target_width / width, target_height / height); Python raises
   * ZeroDivisionError when either intrinsic dimension is zero.
   */
  function FitScale(targetWidth: real, targetHeight: real, width: real, height: real): (r: Result<real>)
    ensures r.Err? <==> width == 0.0 || height == 0.0
  {
    if width == 0.0 || height == 0.0 then Err(ZeroDivision)
    else Ok(Min(targetWidth / width, targetHeight / height))
  }

  lemma ScaledSide(side: real, target: real)
    requires side > 0.0
    ensures side * (target / side) == target
  {
  }

  lemma ScaleBelow(side: real, k: real, s: real)
    requires side > 0.0 && k <= s
    ensures side * k <= side * s
  {
  }

  /** A drawing of the given size, scaled by k on both axes, fits the target. */
  predicate ScaledFits(k: real, targetWidth: real, targetHeight: real, width: real, height: real) {
    width * k <= targetWidth && height * k <= targetHeight
  }

  lemma FactorBelow(side: real, k: real, a: real)
    requires side > 0.0 && side * k <= side * a
    ensures k <= a
  {
  }

  /**
   * For positive sizes the one factor used on both axes keeps the drawing
   * within the target, touches it on at least one axis, and is the largest
   * factor that fits.
   */
  lemma FitScaleFits(targetWidth: real, targetHeight: real, width: real, height: real)
    requires targetWidth > 0.0 && targetHeight > 0.0 && width > 0.0 && height > 0.0
    ensures FitScale(targetWidth, targetHeight, width, height).Ok?
    ensures var s := FitScale(targetWidth, targetHeight, width, height).value;
      s > 0.0 &&
      ScaledFits(s, targetWidth, targetHeight, width, height) &&
      (width * s == targetWidth || height * s == targetHeight) &&
      forall k :: ScaledFits(k, targetWidth, targetHeight, width, height) ==> k <= s
  {
    var sx, sy := targetWidth / width, targetHeight / height;
    var s := Min(sx, sy);
    ScaledSide(width, targetWidth);
    ScaledSide(height, targetHeight);
    ScaleBelow(width, s, sx);
    ScaleBelow(height, s, sy);
    forall k | ScaledFits(k, targetWidth, targetHeight, width, height) ensures k <= s {
      FactorBelow(width, k, sx);
      FactorBelow(height, k, sy);
    }
  }

  // ---------------------------------------------------------------- badge layout

  /** Where create_badge draws on the badge whose bottom-left corner is (x, y). */
  datatype BadgeLayout = BadgeLayout(
    centreX: real,       // every string is centred on this x
    titleY: real,        // "Philadelphia Open"
    subtitleY: real,     // "Innovation Tournament"
    nameY: real,         // the attendee's name
    logoBox: Rect)       // the box the logo is drawn into

  function LayoutBadge(x: real, y: real, width: real, height: real): BadgeLayout {
    var logoWidth := width * 0.7;
    var logoHeight := height * 0.3;
    BadgeLayout(
      x + width / 2.0,
      y + height - 0.5 * Inch,
      y + height - 0.8 * Inch,
      y + height / 2.0 + 0.75 * Inch,
      Rect(x + width / 2.0 - logoWidth / 2.0, y + 1.0 * Inch, logoWidth, logoHeight))
  }

  /**
   * On any badge at least 223.2 points tall (the real one is 432) the logo box
   * is centred and inside the badge, one inch above its bottom edge, and from
   * the bottom up come the logo, the name, the second title line and the first.
   */
  lemma LayoutOrdered(x: real, y: real, width: real, height: real)
    requires width >= 0.0 && height > 223.2
    ensures var l := LayoutBadge(x, y, width, height);
      Inside(l.logoBox, Rect(x, y, width, height)) &&
      l.logoBox.x + l.logoBox.width / 2.0 == l.centreX == x + width / 2.0 &&
      l.logoBox.width == 0.7 * width && l.logoBox.height == 0.3 * height &&
      l.logoBox.y == y + Inch &&
      l.logoBox.y + l.logoBox.height < l.nameY < l.subtitleY < l.titleY < y + height
  {
  }

  // ---------------------------------------------------------------- name font size

  /**
   * reportlab's stringWidth is linear in the font size: the width at size k is
   * k times the name's width at size 1 (unitWidth).
   */
  predicate NameFits(size: int, unitWidth: real, width: real) {
    (size as real) * unitWidth <= width * 0.9
  }

  /** Start at 28 and go down by one while the name is wider than 0.9 of the badge. */
  method NameFontSize(unitWidth: real, width: real) returns (size: int)
    requires unitWidth >= 0.0 && width >= 0.0
    ensures size <= MaxNameFontSize
    ensures NameFits(size, unitWidth, width)
    ensures forall k :: size < k <= MaxNameFontSize ==> !NameFits(k, unitWidth, width)
  {
    size := MaxNameFontSize;
    var nameWidth := (size as real) * unitWidth;
    while nameWidth > width * 0.9
      invariant size <= MaxNameFontSize
      invariant nameWidth == (size as real) * unitWidth
      invariant forall k :: size <= k <= MaxNameFontSize && k != size ==> !NameFits(k, unitWidth, width)
      decreases size
    {
      WideMeansPositive(size, unitWidth, width);
      size := size - 1;
      nameWidth := (size as real) * unitWidth;
    }
  }

  lemma WideMeansPositive(size: int, unitWidth: real, width: real)
    requires unitWidth >= 0.0 && width >= 0.0 && (size as real) * unitWidth > width * 0.9
    ensures size > 0
  {
  }

  /**
   * Smaller sizes fit whenever a larger one does, so the size the loop stops at
   * is the largest integer up to 28 that fits.
   */
  lemma {:induction false} NameFitsDownward(size: int, smaller: int, unitWidth: real, width: real)
    requires unitWidth >= 0.0 && smaller <= size && NameFits(size, unitWidth, width)
    ensures NameFits(smaller, unitWidth, width)
  {
    assert (smaller as real) * unitWidth <= (size as real) * unitWidth;
  }

  /**
   * There is no lower clamp: the size the search stops at for a name wider
   * than 0.9 of the badge at size 1 is 0.
   */
  lemma NoLowerClamp(size: int, unitWidth: real, width: real)
    requires unitWidth >= 0.0 && width >= 0.0
    requires NameFits(size, unitWidth, width) && !NameFits(1, unitWidth, width)
    requires forall k :: size < k <= MaxNameFontSize ==> !NameFits(k, unitWidth, width)
    ensures size == 0
  {
    if size >= 1 {
      NameFitsDownward(size, 1, unitWidth, width);
    }
    assert NameFits(0, unitWidth, width);
  }
}
