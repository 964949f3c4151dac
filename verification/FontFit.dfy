/** The distance the font search really measures: from the dragged corner of the text's bounds,
    which are rounded up to whole pixels, to the cursor. Line widths are proportional to the
    font size and `Math.hypot` is any function with its defining property. */
module FontFit {

  import opened FontSearch

  const TEXT_PAD_X := 12.0
  const TEXT_PAD_Y := 8.0
  const EMPTY_TEXT_MIN_WIDTH := 24.0
  const LINE_HEIGHT_MULTIPLIER := 1.3

  /** A text by its number of lines and the width of its widest line at font size 1. */
  datatype Text = Empty | Lines(widest: real, count: nat)

  /** The dragged corner lies on the `signX`, `signY` side of the fixed anchor. */
  datatype Drag = Drag(
    signX: real, signY: real, anchorX: real, anchorY: real, cursorX: real, cursorY: real)

  predicate Grip(drag: Drag) {
    (drag.signX == 1.0 || drag.signX == -1.0) && (drag.signY == 1.0 || drag.signY == -1.0)
  }

  datatype Vector = Vector(x: real, y: real)

  function Dot(p: Vector, q: Vector): real {
    p.x * q.x + p.y * q.y
  }

  function Ceil(x: real): (c: int)
    ensures (c - 1) as real < x <= c as real
  {
    -(-x).Floor
  }

  /** The measured bounds. */
  function Bounds(text: Text, size: real): Vector {
    var lineHeight := size * LINE_HEIGHT_MULTIPLIER;
    match text
    case Empty =>
      Vector(EMPTY_TEXT_MIN_WIDTH + TEXT_PAD_X * 2.0, lineHeight + TEXT_PAD_Y * 2.0)
    case Lines(widest, count) =>
      Vector(Ceil(widest * size) as real + TEXT_PAD_X * 2.0,
             Ceil(count as real * lineHeight) as real + TEXT_PAD_Y * 2.0)
  }

  /** The whole number of pixels that x takes. */
  predicate RoundsUpTo(x: real, pixels: real) {
    pixels == pixels.Floor as real && pixels - 1.0 < x <= pixels
  }

  /** The bounds in pixels: an empty text is 48 wide and 1.3 times the size plus 16 high; the lines of
      another text are rounded up to whole pixels each way, plus 24 and 16. */
  lemma BoundsExact(text: Text, size: real)
    ensures var b := Bounds(text, size);
            match text
            case Empty => b.x == 48.0 && b.y == 1.3 * size + 16.0
            case Lines(widest, count) =>
              && RoundsUpTo(widest * size, b.x - 24.0)
              && RoundsUpTo(count as real * (size * 1.3), b.y - 16.0)
  {
  }

  /** From the cursor to the dragged corner. */
  function Gap(drag: Drag, bounds: Vector): Vector {
    Vector(drag.anchorX + drag.signX * bounds.x - drag.cursorX,
           drag.anchorY + drag.signY * bounds.y - drag.cursorY)
  }

  ghost predicate IsHypot(hypot: Vector -> real) {
    forall p: Vector :: hypot(p) >= 0.0 && hypot(p) * hypot(p) == Dot(p, p)
  }

  ghost function DistanceAtFont(hypot: Vector -> real, drag: Drag, text: Text): real -> real {
    size => hypot(Gap(drag, Bounds(text, size)))
  }

  function Clamp(size: real): real {
    if size < FONT_MIN then FONT_MIN else if size > FONT_MAX then FONT_MAX else size
  }

  function Abs(x: real): real {
    if x >= 0.0 then x else -x
  }

  lemma Product(a: real, b: real, c: real)
    requires a <= b && c >= 0.0
    ensures a * c <= b * c
  {
    assert b * c - a * c == (b - a) * c;
  }

  lemma SquareOrder(x: real, y: real)
    requires x >= 0.0 && y >= 0.0
    ensures x * x <= y * y <==> x <= y
  {
    if x <= y {
      Product(x, y, x);
      Product(x, y, y);
    } else {
      var sum, difference := x + y, x - y;
      assert sum * difference > 0.0;
      assert x * x - y * y == sum * difference;
    }
  }

  // ---------- non-empty text: rounding moves the distance by at most 1.5 ----------

  lemma Small(x: real)
    requires -1.0 <= x <= 1.0
    ensures x * x <= 1.0
  {
    if x >= 0.0 {
      Product(x, 1.0, x);
    } else {
      var y := -x;
      Product(y, 1.0, y);
      assert x * x == y * y;
    }
  }

  lemma Cauchy(a: real, b: real, c: real, d: real)
    ensures (a * c + b * d) * (a * c + b * d) <= (a * a + b * b) * (c * c + d * d)
  {
    var cross := a * d - b * c;
    assert cross * cross >= 0.0;
    assert (a * a + b * b) * (c * c + d * d) - (a * c + b * d) * (a * c + b * d) == cross * cross;
  }

  /** The product of a point at distance `n` and a shift of at most 1 in each coordinate. */
  lemma ShiftDot(x: real, y: real, dx: real, dy: real, n: real)
    requires n >= 0.0 && n * n == x * x + y * y
    requires -1.0 <= dx <= 1.0 && -1.0 <= dy <= 1.0
    ensures dx * x + dy * y <= 1.5 * n && dx * dx + dy * dy <= 2.0
  {
    var k, d, nn := dx * x + dy * y, dx * dx + dy * dy, x * x + y * y;
    Small(dx);
    Small(dy);
    assert k * k <= d * nn by {
      Cauchy(dx, dy, x, y);
    }
    DotBound(k, d, nn, n);
  }

  lemma DotBound(k: real, d: real, nn: real, n: real)
    requires n >= 0.0 && n * n == nn
    requires d <= 2.0 && k * k <= d * nn
    ensures k <= 1.5 * n
  {
    Product(d, 2.0, nn);
    var m := 1.5 * n;
    assert m * m == 2.25 * nn;
    if k > 0.0 {
      SquareOrder(k, m);
    }
  }

  /** Moving a point by at most 1 in each coordinate adds at most 1.5 to its distance. */
  lemma ShiftAdds(hypot: Vector -> real, p: Vector, q: Vector)
    requires IsHypot(hypot)
    requires -1.0 <= q.x - p.x <= 1.0 && -1.0 <= q.y - p.y <= 1.0
    ensures hypot(q) <= hypot(p) + 1.5
  {
    var n, m, dx, dy := hypot(p), hypot(q), q.x - p.x, q.y - p.y;
    ShiftDot(p.x, p.y, dx, dy, n);
    assert q.x * q.x == p.x * p.x + 2.0 * (dx * p.x) + dx * dx;
    assert q.y * q.y == p.y * p.y + 2.0 * (dy * p.y) + dy * dy;
    assert (n + 1.5) * (n + 1.5) == n * n + 3.0 * n + 2.25;
    SquareOrder(m, n + 1.5);
  }

  lemma Cancel(c: real, a: real, b: real)
    requires c > 0.0 && c * a <= c * b
    ensures a <= b
  {
    var d := a - b;
    assert c * a - c * b == c * d;
  }

  lemma SquareSum(x: real, y: real)
    ensures (x + y) * (x + y) == x * x + 2.0 * (x * y) + y * y
  {
  }

  /** With `q`, `x` and `y` for s*t*t, s*t*z and s*z*z in the notation of `SpanBound`. */
  lemma SpanProducts(q: real, x: real, y: real, h: real, e: real)
    requires 0.0 <= h <= e && x >= 0.0
    requires q == e * e - h * h && x * x == q * y
    requires 2.0 * x + y <= 6.0 * e + 9.0
    ensures y <= 6.0 * h + 9.0
  {
    var g := e - h;
    if x < 3.0 * g {
      var gg, gh := g * g, g * h;
      assert gg > 0.0 && gh >= 0.0;
      assert q == gg + 2.0 * gh;
      SquareOrder(x, 3.0 * g);
      assert (3.0 * g) * (3.0 * g) == 9.0 * gg;
      Cancel(q, y, 9.0);
    }
  }

  /** A point moves on a line at speed sqrt(s), `h` from the origin at its closest. If between
      `t` and `t + z` past that place its distance grows by at most 3, then z is at most `w`. */
  lemma SpanBound(s: real, t: real, z: real, h: real, e: real, f: real, w: real)
    requires s > 0.0 && t >= 0.0 && z >= 0.0 && h >= 0.0 && e >= 0.0 && f >= 0.0 && w >= 0.0
    requires e * e == h * h + s * (t * t)
    requires f * f == h * h + s * ((t + z) * (t + z))
    requires f <= e + 3.0
    requires s * (w * w) >= 6.0 * h + 9.0
    ensures z <= w
  {
    var q, x, y := s * (t * t), s * (t * z), s * (z * z);
    SquareSum(t, z);
    assert f * f == h * h + q + 2.0 * x + y;
    SquareSum(e, 3.0);
    SquareOrder(f, e + 3.0);
    assert q >= 0.0 && x >= 0.0 by {
      assert t * t >= 0.0 && t * z >= 0.0;
    }
    SquareOrder(h, e);
    assert x * x == q * y;
    SpanProducts(q, x, y, h, e);
    Cancel(s, z * z, w * w);
    SquareOrder(z, w);
  }

  /** The bounds of a non-empty text before rounding, on a line as the font size varies. */
  function Unrounded(text: Text, size: real): Vector
    requires text.Lines?
  {
    Vector(text.widest * size + TEXT_PAD_X * 2.0,
           text.count as real * LINE_HEIGHT_MULTIPLIER * size + TEXT_PAD_Y * 2.0)
  }

  /** How the dragged corner moves per pixel of font size, before rounding. */
  function Direction(drag: Drag, text: Text): Vector
    requires text.Lines?
  {
    Vector(drag.signX * text.widest, drag.signY * (text.count as real * LINE_HEIGHT_MULTIPLIER))
  }

  function Speed2(drag: Drag, text: Text): real
    requires text.Lines?
  {
    Dot(Direction(drag, text), Direction(drag, text))
  }

  function Line(drag: Drag, text: Text, size: real): Vector
    requires text.Lines?
  {
    Gap(drag, Unrounded(text, size))
  }

  /** A corner of a non-empty text, which has at least one line. */
  predicate Draggable(drag: Drag, text: Text) {
    Grip(drag) && text.Lines? && text.count > 0
  }

  /** The corner of a non-empty text moves with the font size. */
  lemma TextMoves(drag: Drag, text: Text)
    requires Draggable(drag, text)
    ensures Speed2(drag, text) > 0.0
  {
    var x, y := Direction(drag, text).x, Direction(drag, text).y;
    assert y != 0.0;
    assert x * x >= 0.0 && y * y > 0.0;
  }

  /** The font size at which the unrounded corner would be nearest the cursor. */
  function Foot(drag: Drag, text: Text): real
    requires Draggable(drag, text)
  {
    TextMoves(drag, text);
    -Dot(Line(drag, text, 0.0), Direction(drag, text)) / Speed2(drag, text)
  }

  lemma Straight(drag: Drag, text: Text, size: real, offset: real)
    requires text.Lines?
    ensures var p, d := Line(drag, text, size), Direction(drag, text);
            Line(drag, text, size + offset) == Vector(p.x + offset * d.x, p.y + offset * d.y)
  {
    Scaled(drag.signX, text.widest, size, offset, TEXT_PAD_X * 2.0);
    Scaled(drag.signY, text.count as real * LINE_HEIGHT_MULTIPLIER, size, offset, TEXT_PAD_Y * 2.0);
    var p, d, q := Line(drag, text, size), Direction(drag, text), Line(drag, text, size + offset);
    assert q.x == p.x + offset * d.x;
    assert q.y == p.y + offset * d.y;
  }

  lemma Scaled(sign: real, slope: real, size: real, offset: real, pad: real)
    ensures sign * (slope * (size + offset) + pad) == sign * (slope * size + pad) + offset * (sign * slope)
  {
  }

  lemma FootPerpendicular(drag: Drag, text: Text)
    requires Draggable(drag, text)
    ensures Dot(Line(drag, text, Foot(drag, text)), Direction(drag, text)) == 0.0
  {
    var foot, p, d := Foot(drag, text), Line(drag, text, 0.0), Direction(drag, text);
    TextMoves(drag, text);
    Quotient(-Dot(p, d), Speed2(drag, text));
    Straight(drag, text, 0.0, foot);
    Along(p, d, foot);
  }

  lemma Quotient(a: real, b: real)
    requires b > 0.0
    ensures a / b * b == a
  {
  }

  lemma Along(p: Vector, d: Vector, t: real)
    ensures var q := Vector(p.x + t * d.x, p.y + t * d.y);
            && Dot(q, d) == Dot(p, d) + t * Dot(d, d)
            && Dot(q, q) == Dot(p, p) + 2.0 * (t * Dot(p, d)) + Dot(d, d) * (t * t)
  {
    var qx, qy := p.x + t * d.x, p.y + t * d.y;
    assert qx * d.x == p.x * d.x + t * (d.x * d.x);
    assert qy * d.y == p.y * d.y + t * (d.y * d.y);
    assert qx * qx == p.x * p.x + 2.0 * (t * (p.x * d.x)) + (d.x * d.x) * (t * t);
    assert qy * qy == p.y * p.y + 2.0 * (t * (p.y * d.y)) + (d.y * d.y) * (t * t);
  }

  /** The squared distance of the unrounded corner is a parabola in the font size. */
  lemma Parabola(drag: Drag, text: Text, size: real)
    requires Draggable(drag, text)
    ensures var foot := Foot(drag, text);
            var p, q := Line(drag, text, foot), Line(drag, text, size);
            Dot(q, q) == Dot(p, p) + Speed2(drag, text) * ((size - foot) * (size - foot))
  {
    var foot := Foot(drag, text);
    FootPerpendicular(drag, text);
    Straight(drag, text, foot, size - foot);
    Along(Line(drag, text, foot), Direction(drag, text), size - foot);
  }

  /** The distance of the unrounded corner. */
  ghost function UnroundedDistance(hypot: Vector -> real, drag: Drag, text: Text): real -> real
    requires text.Lines?
  {
    size => hypot(Line(drag, text, size))
  }

  /** The cursor's distance from the line of the unrounded corner. */
  ghost function OffLine(hypot: Vector -> real, drag: Drag, text: Text): real
    requires Draggable(drag, text)
  {
    UnroundedDistance(hypot, drag, text)(Foot(drag, text))
  }

  /** Such a distance is `h` at `foot` and grows from there as a body moving off at speed
      sqrt(s) does. */
  ghost predicate Parabolic(exact: real -> real, s: real, foot: real, h: real) {
    && s > 0.0 && h >= 0.0
    && forall size: real :: exact(size) >= 0.0 && ParabolaAt(exact, s, foot, h, size)
  }

  predicate ParabolaAt(exact: real -> real, s: real, foot: real, h: real, size: real) {
    exact(size) * exact(size) == h * h + s * ((size - foot) * (size - foot))
  }

  lemma UnroundedAt(hypot: Vector -> real, drag: Drag, text: Text, size: real)
    requires IsHypot(hypot) && Draggable(drag, text)
    ensures var exact, foot := UnroundedDistance(hypot, drag, text), Foot(drag, text);
            exact(size) >= 0.0 && ParabolaAt(exact, Speed2(drag, text), foot, exact(foot), size)
  {
    Parabola(drag, text, size);
  }

  lemma UnroundedIsParabolic(hypot: Vector -> real, drag: Drag, text: Text)
    requires IsHypot(hypot) && Draggable(drag, text)
    ensures Parabolic(UnroundedDistance(hypot, drag, text), Speed2(drag, text), Foot(drag, text),
                      OffLine(hypot, drag, text))
  {
    TextMoves(drag, text);
    forall size: real
      ensures var exact, foot := UnroundedDistance(hypot, drag, text), Foot(drag, text);
              exact(size) >= 0.0 && ParabolaAt(exact, Speed2(drag, text), foot, exact(foot), size)
    {
      UnroundedAt(hypot, drag, text, size);
    }
  }

  /** Rounding the bounds up moves the measured distance by at most 1.5 pixels. */
  lemma RoundingMoves(hypot: Vector -> real, drag: Drag, text: Text, size: real)
    requires IsHypot(hypot) && Grip(drag) && text.Lines?
    ensures var d, e := DistanceAtFont(hypot, drag, text)(size), UnroundedDistance(hypot, drag, text)(size);
            e - 1.5 <= d <= e + 1.5
  {
    var p, q := Line(drag, text, size), Gap(drag, Bounds(text, size));
    var exact, rounded := Unrounded(text, size), Bounds(text, size);
    assert text.count as real * (size * LINE_HEIGHT_MULTIPLIER) == text.count as real * LINE_HEIGHT_MULTIPLIER * size;
    assert 0.0 <= rounded.x - exact.x <= 1.0 && 0.0 <= rounded.y - exact.y <= 1.0;
    SignedShift(drag.signX, exact.x, rounded.x);
    SignedShift(drag.signY, exact.y, rounded.y);
    ShiftAdds(hypot, p, q);
    ShiftAdds(hypot, q, p);
  }

  lemma SignedShift(sign: real, a: real, b: real)
    requires (sign == 1.0 || sign == -1.0) && 0.0 <= b - a <= 1.0
    ensures -1.0 <= sign * b - sign * a <= 1.0
  {
  }

  // ---------- the search on any distance within 1.5 of a parabolic one ----------

  lemma FromFoot(exact: real -> real, s: real, foot: real, h: real, size: real, t: real)
    requires Parabolic(exact, s, foot, h)
    requires t == size - foot || t == foot - size
    ensures exact(size) >= 0.0 && exact(size) * exact(size) == h * h + s * (t * t)
  {
    assert ParabolaAt(exact, s, foot, h, size);
  }

  lemma ClampIsNearest(exact: real -> real, s: real, foot: real, h: real, size: real)
    requires Parabolic(exact, s, foot, h) && FONT_MIN <= size <= FONT_MAX
    ensures exact(Clamp(foot)) <= exact(size)
  {
    var fit := Clamp(foot);
    FromFoot(exact, s, foot, h, fit, Abs(fit - foot));
    FromFoot(exact, s, foot, h, size, Abs(size - foot));
    Rises(s, h, Abs(fit - foot), Abs(size - foot), exact(fit), exact(size));
  }

  lemma Rises(s: real, h: real, t: real, z: real, e: real, f: real)
    requires s > 0.0 && 0.0 <= t <= z && e >= 0.0 && f >= 0.0
    requires e * e == h * h + s * (t * t) && f * f == h * h + s * (z * z)
    ensures e <= f
  {
    SquareOrder(t, z);
    Product(t * t, z * z, s);
    SquareOrder(e, f);
  }

  ghost predicate Rounded(distance: real -> real, exact: real -> real) {
    forall size: real :: exact(size) - 1.5 <= distance(size) <= exact(size) + 1.5
  }

  /** The farther of two sizes on one side of the foot seems no farther only if they are close. */
  lemma SeemsNearer(distance: real -> real, exact: real -> real, s: real, foot: real, h: real, span: real,
                    near: real, far: real)
    requires Parabolic(exact, s, foot, h) && Rounded(distance, exact)
    requires span >= 0.0 && s * (span * span) >= 6.0 * h + 9.0
    requires foot <= near <= far || far <= near <= foot
    requires distance(far) <= distance(near)
    ensures -span <= far - near <= span
  {
    var t, z := Abs(near - foot), Abs(far - near);
    FromFoot(exact, s, foot, h, near, t);
    FromFoot(exact, s, foot, h, far, t + z);
    SpanBound(s, t, z, h, exact(near), exact(far), span);
  }

  lemma RoundedMisleads(distance: real -> real, exact: real -> real, s: real, foot: real, h: real, span: real)
    requires Parabolic(exact, s, foot, h) && Rounded(distance, exact)
    requires span >= 0.0 && s * (span * span) >= 6.0 * h + 9.0
    ensures MisleadsWithin(distance, Clamp(foot), span, span)
  {
    var fit := Clamp(foot);
    forall a, b
      ensures Misleads(distance, fit, span, span, a, b)
    {
      if FONT_MIN <= a < b <= FONT_MAX {
        if b <= fit && distance(a) < distance(b) {
          SeemsNearer(distance, exact, s, foot, h, span, b, a);
        }
        if fit <= a && distance(a) >= distance(b) {
          SeemsNearer(distance, exact, s, foot, h, span, a, b);
        }
      }
    }
  }

  /** A size nearest by such a distance is within a span of the clamped foot. */
  lemma NearestNearClamp(distance: real -> real, exact: real -> real, s: real, foot: real, h: real, span: real,
                         best: real)
    requires Parabolic(exact, s, foot, h) && Rounded(distance, exact)
    requires span >= 0.0 && s * (span * span) >= 6.0 * h + 9.0
    requires Nearest(distance, best)
    ensures -span <= best - Clamp(foot) <= span
  {
    var fit := Clamp(foot);
    assert InRange(fit);
    if (best >= fit && foot <= fit) || (best <= fit && fit <= foot) {
      SeemsNearer(distance, exact, s, foot, h, span, fit, best);
    }
  }

  // ---------- non-empty text: how far the answer can be from the fitting size ----------

  /** The size whose unrounded corner is nearest the cursor, among those the search may return. */
  function Fit(drag: Drag, text: Text): real
    requires Draggable(drag, text)
  {
    Clamp(Foot(drag, text))
  }

  lemma FitIsNearest(hypot: Vector -> real, drag: Drag, text: Text, size: real)
    requires IsHypot(hypot) && Draggable(drag, text)
    requires FONT_MIN <= size <= FONT_MAX
    ensures var exact := UnroundedDistance(hypot, drag, text);
            exact(Fit(drag, text)) <= exact(size)
  {
    UnroundedIsParabolic(hypot, drag, text);
    var exact, foot := UnroundedDistance(hypot, drag, text), Foot(drag, text);
    ClampIsNearest(exact, Speed2(drag, text), foot, exact(foot), size);
  }

  lemma MeasuredIsRounded(hypot: Vector -> real, drag: Drag, text: Text)
    requires IsHypot(hypot) && Draggable(drag, text)
    ensures Rounded(DistanceAtFont(hypot, drag, text), UnroundedDistance(hypot, drag, text))
  {
    var distance, exact := DistanceAtFont(hypot, drag, text), UnroundedDistance(hypot, drag, text);
    forall size: real
      ensures exact(size) - 1.5 <= distance(size) <= exact(size) + 1.5
    {
      RoundingMoves(hypot, drag, text, size);
    }
  }

  /** A span that no comparison misjudges: its square times the squared speed of the corner is
      at least 6 times the cursor's distance from the corner's line, plus 9. */
  ghost predicate Clears(hypot: Vector -> real, drag: Drag, text: Text, span: real)
    requires Draggable(drag, text)
  {
    span >= 0.0 && Speed2(drag, text) * (span * span) >= 6.0 * OffLine(hypot, drag, text) + 9.0
  }

  /** For every non-empty text, grip and cursor, the answer is within a quarter pixel of the
      fitting size, or within three spans. */
  lemma AnswerFits(hypot: Vector -> real, drag: Drag, text: Text, span: real, n: nat)
    requires IsHypot(hypot) && Draggable(drag, text) && Clears(hypot, drag, text, span)
    requires FontSearch.Width(n) <= 0.5
    ensures var error := Middle(Rounds(DistanceAtFont(hypot, drag, text), n)) - Fit(drag, text);
            -0.25 <= error <= 0.25 || -3.0 * span <= error <= 3.0 * span
  {
    var distance, exact := DistanceAtFont(hypot, drag, text), UnroundedDistance(hypot, drag, text);
    var foot := Foot(drag, text);
    UnroundedIsParabolic(hypot, drag, text);
    MeasuredIsRounded(hypot, drag, text);
    RoundedMisleads(distance, exact, Speed2(drag, text), foot, OffLine(hypot, drag, text), span);
    AnswerNear(distance, Fit(drag, text), span, span, n);
  }

  lemma NearestNearFit(hypot: Vector -> real, drag: Drag, text: Text, span: real, best: real)
    requires IsHypot(hypot) && Draggable(drag, text) && Clears(hypot, drag, text, span)
    requires Nearest(DistanceAtFont(hypot, drag, text), best)
    ensures -span <= best - Fit(drag, text) <= span
  {
    var distance, exact := DistanceAtFont(hypot, drag, text), UnroundedDistance(hypot, drag, text);
    var foot := Foot(drag, text);
    UnroundedIsParabolic(hypot, drag, text);
    MeasuredIsRounded(hypot, drag, text);
    NearestNearClamp(distance, exact, Speed2(drag, text), foot, OffLine(hypot, drag, text), span, best);
  }

  /** For every non-empty text, grip and cursor, and every size nearest the cursor as measured,
      the answer is within a quarter pixel and a span of it, or within four spans. */
  lemma AnswerNearest(hypot: Vector -> real, drag: Drag, text: Text, span: real, best: real, n: nat)
    requires IsHypot(hypot) && Draggable(drag, text) && Clears(hypot, drag, text, span)
    requires Nearest(DistanceAtFont(hypot, drag, text), best) && FontSearch.Width(n) <= 0.5
    ensures var error := Middle(Rounds(DistanceAtFont(hypot, drag, text), n)) - best;
            || -0.25 - span <= error <= 0.25 + span
            || -4.0 * span <= error <= 4.0 * span
  {
    AnswerFits(hypot, drag, text, span, n);
    NearestNearFit(hypot, drag, text, span, best);
  }

  /** A span below one eighth whose square is at least q / s. */
  lemma SmallSpan(s: real, q: real) returns (span: real)
    requires q > 0.0 && s > 64.0 * q
    ensures 0.0 <= span < 0.125 && s * (span * span) >= q
  {
    var r := q / s;
    Quotient(q, s);
    assert r < 0.015625 by {
      Cancel(s, r, 0.015625);
    }
    span := 4.0 * r + 0.0625;
    var gap := 4.0 * r - 0.0625;
    assert span * span == r + gap * gap;
    Product(r, span * span, s);
  }

  /** The half pixel, for every non-empty text, grip and cursor: if the squared speed of the corner
      exceeds 64 times (6 times the cursor's distance from the corner's line, plus 9), the answer is
      less than half a pixel from every size nearest the cursor as measured. */
  lemma WithinHalfPixel(hypot: Vector -> real, drag: Drag, text: Text, best: real, n: nat)
    requires IsHypot(hypot) && Draggable(drag, text)
    requires Speed2(drag, text) > 64.0 * (6.0 * OffLine(hypot, drag, text) + 9.0)
    requires Nearest(DistanceAtFont(hypot, drag, text), best) && FontSearch.Width(n) <= 0.5
    ensures -0.5 < Middle(Rounds(DistanceAtFont(hypot, drag, text), n)) - best < 0.5
  {
    assert OffLine(hypot, drag, text) >= 0.0 by {
      UnroundedIsParabolic(hypot, drag, text);
    }
    var span := SmallSpan(Speed2(drag, text), 6.0 * OffLine(hypot, drag, text) + 9.0);
    AnswerNearest(hypot, drag, text, span, best, n);
  }

  // ---------- empty text: only the height moves, without rounding ----------

  /** The height of an empty text reaches the cursor at this size. */
  function EmptyFit(drag: Drag): real {
    Clamp((drag.signY * (drag.cursorY - drag.anchorY) - TEXT_PAD_Y * 2.0) / LINE_HEIGHT_MULTIPLIER)
  }

  lemma EmptyAnswerFits(hypot: Vector -> real, drag: Drag, n: nat)
    requires IsHypot(hypot) && Grip(drag) && FontSearch.Width(n) <= 0.5
    ensures var size := Middle(Rounds(DistanceAtFont(hypot, drag, Empty), n));
            -0.25 <= size - EmptyFit(drag) <= 0.25
  {
    var distance, fit := DistanceAtFont(hypot, drag, Empty), EmptyFit(drag);
    forall a, b
      ensures FONT_MIN <= a <= b <= fit ==> distance(a) >= distance(b)
      ensures fit <= a <= b <= FONT_MAX ==> distance(a) <= distance(b)
      ensures fit <= a < b <= FONT_MAX ==> distance(a) != distance(b)
    {
      EmptyOrder(hypot, drag, a, b);
    }
    WithinQuarterPixel(distance, fit, 0.0, n);
  }

  lemma EmptyOrder(hypot: Vector -> real, drag: Drag, a: real, b: real)
    requires IsHypot(hypot) && Grip(drag)
    ensures var distance, fit := DistanceAtFont(hypot, drag, Empty), EmptyFit(drag);
            && (FONT_MIN <= a <= b <= fit ==> distance(a) >= distance(b))
            && (fit <= a <= b <= FONT_MAX ==> distance(a) <= distance(b))
            && (fit <= a < b <= FONT_MAX ==> distance(a) != distance(b))
  {
    var p, q := Gap(drag, Bounds(Empty, a)), Gap(drag, Bounds(Empty, b));
    NearerByHeight(hypot, p, q);
    NearerByHeight(hypot, q, p);
  }

  lemma NearerByHeight(hypot: Vector -> real, p: Vector, q: Vector)
    requires IsHypot(hypot) && p.x == q.x
    ensures hypot(p) <= hypot(q) <==> Abs(p.y) <= Abs(q.y)
  {
    var n, m := hypot(p), hypot(q);
    assert m * m - n * n == q.y * q.y - p.y * p.y;
    SquareOrder(n, m);
    SquareOrder(Abs(p.y), Abs(q.y));
  }
}
