/** The colour of a course's grade badge: a fixed blue for courses without
    GPA hours, otherwise a hue from red (0) to green (100) eased along a cubic
    curve of the fraction of the maximum points earned. */
module GradeColor {

  /** `Neutral` is the fixed blue `#2699FB` used for zero-hour courses;
      `Hsl` is a hue in degrees with saturation and lightness in percent. */
  datatype Color = Neutral | Hsl(hue: real, sat: int, light: int)

  /** Quality points per GPA hour for the top grade. */
  const MaxPointsPerHour: real := 4.0
  const HueScale: real := 100.0
  const Saturation: int := 80
  const Lightness: int := 50

  function Cube(x: real): real { x * x * x }

  /** The cubic ease curve: flat near both ends, steep around the middle. */
  function Curve(ratio: real, scale: real): real {
    scale * ((Cube(ratio * 2.0 - 1.0) + 1.0) / 2.0)
  }

  function Hue(ratio: real): real { Curve(ratio, HueScale) }

  function GradeColor(attempted: real, points: real): (c: Color)
    ensures attempted == 0.0 <==> c == Neutral
    ensures c.Hsl? ==> c.sat == Saturation && c.light == Lightness
    ensures c.Hsl? ==> c.hue == Hue(points / (attempted * MaxPointsPerHour))
  {
    if attempted == 0.0 then Neutral
    else
      var ratio := points / (attempted * MaxPointsPerHour);
      Hsl(Curve(ratio, HueScale), Saturation, Lightness)
  }

  /** Without GPA hours the points do not matter. */
  lemma NeutralIgnoresPoints(p: real, q: real)
    ensures GradeColor(0.0, p) == GradeColor(0.0, q) == Neutral
  {
  }

  /** No points earned, half the points, all the points. */
  lemma HueAnchors()
    ensures Hue(0.0) == 0.0
    ensures Hue(0.5) == 50.0
    ensures Hue(1.0) == 100.0
  {
  }

  /** With four GPA hours: no points, half the points and all the points
      give the red end, the midpoint and the green end of the scale. */
  lemma GradeColorAnchors()
    ensures GradeColor(4.0, 0.0) == Hsl(0.0, Saturation, Lightness)
    ensures GradeColor(4.0, 8.0) == Hsl(50.0, Saturation, Lightness)
    ensures GradeColor(4.0, 16.0) == Hsl(HueScale, Saturation, Lightness)
  {
    HueAnchors();
    FourHoursRatio(0.0, 0.0);
    FourHoursRatio(8.0, 0.5);
    FourHoursRatio(16.0, 1.0);
  }

  lemma FourHoursRatio(points: real, ratio: real)
    requires points == 16.0 * ratio
    ensures GradeColor(4.0, points) == Hsl(Hue(ratio), Saturation, Lightness)
  {
  }

  lemma ProductNonnegative(x: real, y: real)
    requires 0.0 <= x && 0.0 <= y
    ensures 0.0 <= x * y
  {
  }

  lemma SquareNonnegative(x: real)
    ensures 0.0 <= x * x
  {
  }

  /** Dividing by a positive number keeps order and the bounds 0 and 1. */
  lemma QuotientBounds(p: real, q: real, d: real)
    requires d > 0.0
    requires p <= q
    ensures p / d <= q / d
    ensures 0.0 <= p ==> 0.0 <= p / d
    ensures p <= d ==> p / d <= 1.0
  {
  }

  lemma {:induction false} CubeMonotone(a: real, b: real)
    requires a <= b
    ensures Cube(a) <= Cube(b)
  {
    // b^3 - a^3 = (b - a) * (a^2 + a*b + b^2), and the second factor is a
    // sum of squares: (a + b/2)^2 + 3/4 * b^2.
    var m := a + b / 2.0;
    var q := a * a + a * b + b * b;
    assert q == m * m + 0.75 * (b * b);
    SquareNonnegative(m);
    SquareNonnegative(b);
    assert Cube(b) - Cube(a) == (b - a) * q;
    ProductNonnegative(b - a, q);
  }

  /** A higher ratio never yields a lower hue. */
  lemma HueMonotone(r: real, s: real)
    requires r <= s
    ensures Hue(r) <= Hue(s)
  {
    CubeMonotone(r * 2.0 - 1.0, s * 2.0 - 1.0);
  }

  /** Ratios in [0, 1] map to hues in [0, 100]. */
  lemma HueWithinRange(r: real)
    requires 0.0 <= r <= 1.0
    ensures 0.0 <= Hue(r) <= HueScale
  {
    HueMonotone(0.0, r);
    HueMonotone(r, 1.0);
    assert Hue(0.0) == 0.0 && Hue(1.0) == HueScale by {
      HueAnchors();
    }
  }

  /** The curve is point-symmetric about the midpoint (0.5, 50). */
  lemma HueSymmetric(r: real)
    ensures Hue(r) + Hue(1.0 - r) == HueScale
  {
    var x := r * 2.0 - 1.0;
    assert (1.0 - r) * 2.0 - 1.0 == -x;
    assert Cube(-x) == -Cube(x);
  }

  /** Scaling hours and points by the same nonzero factor keeps the colour. */
  lemma GradeColorScaleInvariant(attempted: real, points: real, k: real)
    requires k != 0.0
    ensures GradeColor(k * attempted, k * points) == GradeColor(attempted, points)
  {
    if attempted != 0.0 {
      var d := attempted * MaxPointsPerHour;
      var x := points / d;
      assert x * d == points;
      assert k * attempted != 0.0;
      assert (k * attempted) * MaxPointsPerHour == k * d;
      assert x * (k * d) == k * points;
      assert (k * points) / ((k * attempted) * MaxPointsPerHour) == x;
      assert GradeColor(k * attempted, k * points) == Hsl(Hue(x), Saturation, Lightness);
      assert GradeColor(attempted, points) == Hsl(Hue(x), Saturation, Lightness);
    }
  }

  /** For a course with GPA hours, more points never give a lower hue, and
      points within the 4.0 scale give a hue in [0, 100]. */
  lemma GradeColorOrdersPoints(hours: real, p: real, q: real)
    requires hours > 0.0
    requires p <= q
    ensures GradeColor(hours, p).hue <= GradeColor(hours, q).hue
    ensures 0.0 <= p <= MaxPointsPerHour * hours ==> 0.0 <= GradeColor(hours, p).hue <= HueScale
  {
    var d := hours * MaxPointsPerHour;
    QuotientBounds(p, q, d);
    HueMonotone(p / d, q / d);
    if 0.0 <= p <= MaxPointsPerHour * hours {
      HueWithinRange(p / d);
    }
  }
}
