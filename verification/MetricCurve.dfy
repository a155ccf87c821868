/** The monotone cubic curve of a metric chart, over the reals. */
module MetricCurve {
  import opened Wrappers

  datatype Point = Point(index: int, value: real)

  function Min(a: real, b: real): real { if a < b then a else b }
  function Max(a: real, b: real): real { if a < b then b else a }
  function Abs(a: real): real { if a < 0.0 then -a else a }
  function Sign(a: real): real { if a < 0.0 then -1.0 else if a > 0.0 then 1.0 else 0.0 }

  // ----- runs of recorded points -----

  /** The points recorded among the first `n` values. */
  function Recorded(values: seq<Option<real>>, n: nat): seq<Point>
    requires n <= |values|
  {
    if n == 0 then []
    else Recorded(values, n - 1) + if values[n - 1].Some? then [Point(n - 1, values[n - 1].value)] else []
  }

  function Flatten(runs: seq<seq<Point>>): seq<Point> {
    if runs == [] then [] else Flatten(runs[..|runs| - 1]) + runs[|runs| - 1]
  }

  /** A run is not empty and its points follow one another. */
  predicate Unbroken(run: seq<Point>) {
    run != [] && forall i :: 0 < i < |run| ==> run[i].index == run[i - 1].index + 1
  }

  function Last(run: seq<Point>): Point
    requires run != []
  {
    run[|run| - 1]
  }

  /** Runs that are unbroken and that a hole separates, each from the next. */
  predicate Runs(runs: seq<seq<Point>>) {
    && (forall k :: 0 <= k < |runs| ==> Unbroken(runs[k]))
    && (forall k :: 0 < k < |runs| ==> Last(runs[k - 1]).index + 1 < runs[k][0].index)
  }

  /** The index the last run ends at. */
  function EndOf(runs: seq<seq<Point>>): int {
    if runs == [] || runs[|runs| - 1] == [] then -2 else Last(runs[|runs| - 1]).index
  }

  /** The recorded points, all of them and in order, cut exactly at the holes. */
  method MetricRuns(values: seq<Option<real>>) returns (found: seq<seq<Point>>)
    ensures Runs(found) && Flatten(found) == Recorded(values, |values|)
  {
    hide Runs, Flatten;
    NoRuns();
    found := [];
    var run: seq<Point> := [];
    for index := 0 to |values|
      invariant Runs(found) && Flatten(found) + run == Recorded(values, index)
      invariant run != [] ==> Unbroken(run) && Last(run).index == index - 1
      invariant EndOf(found) + 1 < index
      invariant run != [] ==> EndOf(found) + 1 < run[0].index
    {
      match values[index]
      case None =>
        if run != [] {
          AddRun(found, run);
          found := found + [run];
        }
        run := [];
      case Some(value) =>
        run := run + [Point(index, value)];
    }
    if run != [] {
      AddRun(found, run);
      found := found + [run];
    }
  }

  lemma NoRuns()
    ensures Runs([]) && Flatten([]) == []
  {}

  lemma AddRun(found: seq<seq<Point>>, run: seq<Point>)
    requires Runs(found) && Unbroken(run)
    requires EndOf(found) + 1 < run[0].index
    ensures EndOf(found + [run]) == Last(run).index
    ensures Runs(found + [run]) && Flatten(found + [run]) == Flatten(found) + run
  {
    assert (found + [run])[..|found|] == found;
  }

  // ----- scale -----

  const HEIGHT := 40.0
  const PADDING := 3.0

  datatype Scale = Scale(count: int, max: real, width: real) {
    function Span(): real { if max > 0.0 then max else 1.0 }

    function X(index: int): real {
      if count > 1 then index as real / (count - 1) as real * width else 0.0
    }

    function Y(value: real): real {
      HEIGHT - PADDING - Min(Span(), Max(0.0, value)) / Span() * (HEIGHT - PADDING * 2.0)
    }
  }

  lemma QuotientMonotone(a: real, b: real, d: real)
    requires a <= b && d > 0.0
    ensures a / d <= b / d
  {}

  lemma QuotientEnds(d: real)
    requires d > 0.0
    ensures 0.0 / d == 0.0 && d / d == 1.0
  {}

  /** The scale turns values upside down and keeps them inside of the plot. */
  lemma YReverses(s: Scale, a: real, b: real)
    requires a <= b
    ensures s.Y(b) <= s.Y(a)
    ensures PADDING <= s.Y(a) <= HEIGHT - PADDING
  {
    var m, ca, cb := s.Span(), Min(s.Span(), Max(0.0, a)), Min(s.Span(), Max(0.0, b));
    QuotientMonotone(ca, cb, m);
    QuotientMonotone(0.0, ca, m);
    QuotientMonotone(ca, m, m);
    QuotientEnds(m);
    var x, y := ca / m, cb / m;
    assert x * (HEIGHT - PADDING * 2.0) <= y * (HEIGHT - PADDING * 2.0);
  }

  /** On the span the scale is this straight line. */
  lemma YOnSpan(s: Scale, v: real)
    requires 0.0 <= v <= s.Span()
    ensures s.Y(v) == HEIGHT - PADDING - v / s.Span() * (HEIGHT - PADDING * 2.0)
  {}

  /** Nothing and less lie at the bottom, the span and more at the top. */
  lemma YEnds(s: Scale, v: real)
    ensures v <= 0.0 ==> s.Y(v) == HEIGHT - PADDING == 37.0
    ensures v >= s.Span() ==> s.Y(v) == PADDING == 3.0
    ensures s.Span() == if s.max > 0.0 then s.max else 1.0
  {
    QuotientEnds(s.Span());
  }

  /** Between them equal steps are drawn equal, and more is drawn higher: a value that is a
      share t of the span stands at that share of the way up. */
  lemma YIsEven(s: Scale, t: real)
    requires 0.0 <= t <= 1.0
    ensures s.Y(t * s.Span()) == Mix(HEIGHT - PADDING, PADDING, t)
  {
    var span := s.Span();
    ShareOf(t, span);
    YOnSpan(s, t * span);
  }

  lemma ShareOf(t: real, span: real)
    requires 0.0 <= t <= 1.0 && span > 0.0
    ensures 0.0 <= t * span <= span && t * span / span == t
  {
    NotNegative(t, span);
    NotNegative(1.0 - t, span);
    assert (1.0 - t) * span == span - t * span;
  }

  /** On the span more is drawn strictly higher, and the middle in the middle. */
  lemma YFallsEvenly(s: Scale, a: real, b: real)
    requires 0.0 <= a < b <= s.Span()
    ensures s.Y(b) < s.Y(a)
    ensures 2.0 * s.Y((a + b) / 2.0) == s.Y(a) + s.Y(b)
  {
    var span, rise := s.Span(), HEIGHT - PADDING * 2.0;
    YOnSpan(s, a);
    YOnSpan(s, b);
    YOnSpan(s, (a + b) / 2.0);
    QuotientStrict(a, b, span);
    QuotientOfSum(a, b, span);
    hide Scale.Y, Scale.Span;
  }

  lemma QuotientStrict(a: real, b: real, d: real)
    requires a < b && d > 0.0
    ensures a / d < b / d
  {
    assert a / d * d == a && b / d * d == b;
  }

  lemma QuotientOfSum(a: real, b: real, d: real)
    requires d > 0.0
    ensures 2.0 * ((a + b) / 2.0 / d) == a / d + b / d
  {
    var x, y := a / d, b / d;
    assert (x + y) / 2.0 * d == (a + b) / 2.0;
    QuotientOfProduct((x + y) / 2.0, d);
  }

  lemma QuotientOfProduct(x: real, d: real)
    requires d > 0.0
    ensures x * d / d == x
  {}

  /** The first place is the left edge, the last one the right edge, and the steps between
      them are equal; a chart of one place has it on the left. */
  lemma XIsEven(s: Scale, i: int)
    ensures s.X(0) == 0.0
    ensures s.count > 1 ==> s.X(s.count - 1) == s.width && s.X(i + 1) - s.X(i) == s.X(1)
    ensures s.count <= 1 ==> s.X(i) == 0.0
  {
    if s.count > 1 {
      var d := (s.count - 1) as real;
      QuotientEnds(d);
      assert (i + 1) as real == i as real + 1.0;
      QuotientAdds(i as real, 1.0, d);
      EvenStep(i as real / d, 1.0 / d, s.width);
    }
  }

  lemma QuotientAdds(a: real, b: real, d: real)
    requires d > 0.0
    ensures (a + b) / d == a / d + b / d
  {
    QuotientOfProduct(a / d + b / d, d);
    assert (a / d + b / d) * d == a + b;
  }

  lemma EvenStep(x: real, step: real, width: real)
    ensures (x + step) * width - x * width == step * width
  {}

  // ----- tangents -----

  /** The tangent between two steps; a turning point gets a flat one. */
  function Tangent(before: real, after: real): real {
    if before * after <= 0.0 then 0.0 else Sign(before) * Min(Abs(before), Abs(after)) * 3.0 / 2.0
  }

  function Slope(run: seq<Point>, k: nat): real
    requires |run| >= 2 && k < |run|
  {
    if k == 0 then run[1].value - run[0].value
    else if k == |run| - 1 then run[k].value - run[k - 1].value
    else Tangent(run[k].value - run[k - 1].value, run[k + 1].value - run[k].value)
  }

  /** The two ends of a segment and its control points, seen vertically. */
  predicate Ordered(a: real, b: real, c: real, d: real) {
    (a <= b <= c <= d) || (a >= b >= c >= d)
  }

  /** A tangent, a third of which is at most half the step on either side of its point,
      and goes the way of both. */
  lemma SlopeBounds(run: seq<Point>, k: nat)
    requires |run| >= 2 && k < |run|
    ensures k + 1 < |run| ==>
      var step := run[k + 1].value - run[k].value;
      Ordered(0.0, 0.0, Slope(run, k) / 3.0, step / 2.0)
    ensures k > 0 ==>
      var step := run[k].value - run[k - 1].value;
      Ordered(0.0, 0.0, Slope(run, k) / 3.0, step / 2.0)
  {
    if 0 < k < |run| - 1 {
      TangentIs(run[k].value - run[k - 1].value, run[k + 1].value - run[k].value);
      hide Tangent;
    }
  }

  /** A tangent keeps to a step when a third of it is at most half of that step and goes
      the same way. */
  predicate KeepsTo(tangent: real, step: real) { Ordered(0.0, 0.0, tangent / 3.0, step / 2.0) }

  /** Inside a run no larger tangent keeps to both neighbouring steps. */
  lemma SlopeIsLargest(run: seq<Point>, k: nat, tangent: real)
    requires 0 < k < |run| - 1
    requires KeepsTo(tangent, run[k].value - run[k - 1].value) && KeepsTo(tangent, run[k + 1].value - run[k].value)
    ensures Abs(tangent) <= Abs(Slope(run, k))
    ensures KeepsTo(Slope(run, k), run[k].value - run[k - 1].value) && KeepsTo(Slope(run, k), run[k + 1].value - run[k].value)
  {
    SlopeBounds(run, k);
    TangentIs(run[k].value - run[k - 1].value, run[k + 1].value - run[k].value);
    hide Tangent;
  }

  lemma TangentIs(before: real, after: real)
    ensures before > 0.0 && after > 0.0 ==> Tangent(before, after) == Min(before, after) * 3.0 / 2.0
    ensures before < 0.0 && after < 0.0 ==> Tangent(before, after) == -(Min(-before, -after) * 3.0 / 2.0)
    ensures !(before > 0.0 && after > 0.0) && !(before < 0.0 && after < 0.0) ==> Tangent(before, after) == 0.0
  {
    SameSign(before, after);
  }

  lemma SameSign(a: real, b: real)
    ensures a * b > 0.0 <==> (a > 0.0 && b > 0.0) || (a < 0.0 && b < 0.0)
  {}

  /** On every segment the ordinates run one way, from one point to the next. */
  lemma SegmentOrdered(run: seq<Point>, k: nat)
    requires k + 1 < |run|
    ensures var p, q := run[k].value, run[k + 1].value;
            Ordered(p, p + Slope(run, k) / 3.0, q - Slope(run, k + 1) / 3.0, q)
  {
    SlopeBounds(run, k);
    SlopeBounds(run, k + 1);
  }

  // ----- the path -----

  datatype Segment = Segment(x1: real, y1: real, x2: real, y2: real, x: real, y: real)

  datatype Path = Dot(x: real, y: real) | Curve(x: real, y: real, segments: seq<Segment>)

  function SegmentOf(run: seq<Point>, s: Scale, k: nat): Segment
    requires k + 1 < |run|
  {
    var p, q := run[k], run[k + 1];
    var step := (s.X(q.index) - s.X(p.index)) / 3.0;
    Segment(s.X(p.index) + step, s.Y(p.value + Slope(run, k) / 3.0),
            s.X(q.index) - step, s.Y(q.value - Slope(run, k + 1) / 3.0),
            s.X(q.index), s.Y(q.value))
  }

  method MetricCurve(run: seq<Point>, s: Scale) returns (path: Path)
    requires run != []
    ensures |run| == 1 ==> path == Dot(s.X(run[0].index), s.Y(run[0].value))
    ensures |run| >= 2 ==>
      && path.Curve? && path.x == s.X(run[0].index) && path.y == s.Y(run[0].value)
      && |path.segments| == |run| - 1
      && forall k :: 0 <= k < |path.segments| ==> path.segments[k] == SegmentOf(run, s, k)
  {
    hide Slope, Scale.X, Scale.Y;
    var first := run[0];
    if |run| < 2 {
      return Dot(s.X(first.index), s.Y(first.value));
    }
    var slopes := seq(|run|, k requires 0 <= k < |run| => Slope(run, k));
    var segments: seq<Segment> := [];
    for index := 1 to |run|
      invariant |segments| == index - 1
      invariant forall k :: 0 <= k < |segments| ==> segments[k] == SegmentOf(run, s, k)
    {
      var p := run[index - 1];
      var q := run[index];
      var step := (s.X(q.index) - s.X(p.index)) / 3.0;
      segments := segments + [Segment(s.X(p.index) + step, s.Y(p.value + slopes[index - 1] / 3.0),
                                      s.X(q.index) - step, s.Y(q.value - slopes[index] / 3.0),
                                      s.X(q.index), s.Y(q.value))];
    }
    path := Curve(s.X(first.index), s.Y(first.value), segments);
  }

  // ----- the drawn curve -----

  /** A cubic Bezier curve, by its Bernstein polynomials. */
  function Bezier(a: real, b: real, c: real, d: real, t: real): real {
    var u := 1.0 - t;
    u * u * u * a + 3.0 * u * u * t * b + 3.0 * u * t * t * c + t * t * t * d
  }

  function Mix(a: real, b: real, t: real): real { (1.0 - t) * a + t * b }

  /** De Casteljau's construction gives the same curve. */
  lemma BezierByMixing(a: real, b: real, c: real, d: real, t: real)
    ensures var q0, q1, q2 := Mix(a, b, t), Mix(b, c, t), Mix(c, d, t);
            Bezier(a, b, c, d, t) == Mix(Mix(q0, q1, t), Mix(q1, q2, t), t)
  {}

  lemma MixBetween(a: real, b: real, t: real)
    requires a <= b && 0.0 <= t <= 1.0
    ensures a <= Mix(a, b, t) <= b
  {
    NotNegative(t, b - a);
    NotNegative(1.0 - t, b - a);
    assert Mix(a, b, t) == a + t * (b - a);
    assert Mix(a, b, t) == b - (1.0 - t) * (b - a);
  }

  lemma NotNegative(x: real, y: real)
    requires x >= 0.0 && y >= 0.0
    ensures x * y >= 0.0
  {}

  lemma MixMonotone(a: real, b: real, a': real, b': real, t: real, t': real)
    requires a <= a' && b <= b' && a <= b && a' <= b' && 0.0 <= t <= t' <= 1.0
    ensures Mix(a, b, t) <= Mix(a', b', t')
  {
    assert Mix(a, b, t) == a + t * (b - a);
    assert Mix(a, b, t') == a + t' * (b - a);
    NotNegative(t' - t, b - a);
    NotNegative(1.0 - t', a' - a);
    NotNegative(t', b' - b);
    assert t' * (b - a) - t * (b - a) == (t' - t) * (b - a);
    assert (1.0 - t') * a' - (1.0 - t') * a == (1.0 - t') * (a' - a);
    assert t' * b' - t' * b == t' * (b' - b);
  }

  /** Rising control points make a rising curve that stays between its ends. */
  lemma RisingBezier(a: real, b: real, c: real, d: real, t: real, t': real)
    requires a <= b <= c <= d && 0.0 <= t <= t' <= 1.0
    ensures a <= Bezier(a, b, c, d, t) <= Bezier(a, b, c, d, t') <= d
  {
    BezierByMixing(a, b, c, d, t);
    BezierByMixing(a, b, c, d, t');
    var q0, q1, q2 := Mix(a, b, t), Mix(b, c, t), Mix(c, d, t);
    var p0, p1, p2 := Mix(a, b, t'), Mix(b, c, t'), Mix(c, d, t');
    MixBetween(a, b, t); MixBetween(b, c, t); MixBetween(c, d, t);
    MixBetween(a, b, t'); MixBetween(b, c, t'); MixBetween(c, d, t');
    MixMonotone(a, b, a, b, t, t'); MixMonotone(b, c, b, c, t, t'); MixMonotone(c, d, c, d, t, t');
    hide Mix, Bezier;
    MixBetween(q0, q1, t); MixBetween(q1, q2, t);
    MixBetween(p0, p1, t'); MixBetween(p1, p2, t');
    MixMonotone(q0, q1, p0, p1, t, t'); MixMonotone(q1, q2, p1, p2, t, t');
    MixBetween(Mix(q0, q1, t), Mix(q1, q2, t), t);
    MixBetween(Mix(p0, p1, t'), Mix(p1, p2, t'), t');
    MixMonotone(Mix(q0, q1, t), Mix(q1, q2, t), Mix(p0, p1, t'), Mix(p1, p2, t'), t, t');
  }

  lemma BezierNegated(a: real, b: real, c: real, d: real, t: real)
    ensures Bezier(-a, -b, -c, -d, t) == -Bezier(a, b, c, d, t)
  {}

  /** Ordered control points make a monotone curve that stays between its ends. */
  lemma OrderedBezier(a: real, b: real, c: real, d: real, t: real, t': real)
    requires Ordered(a, b, c, d) && 0.0 <= t <= t' <= 1.0
    ensures Ordered(a, Bezier(a, b, c, d, t), Bezier(a, b, c, d, t'), d)
  {
    if a <= b <= c <= d {
      RisingBezier(a, b, c, d, t, t');
    } else {
      RisingBezier(-a, -b, -c, -d, t, t');
      BezierNegated(a, b, c, d, t);
      BezierNegated(a, b, c, d, t');
    }
  }

  /** Thirds of the way make the curve advance evenly to the right. */
  lemma EvenBezier(x: real, x': real, t: real)
    ensures Bezier(x, x + (x' - x) / 3.0, x' - (x' - x) / 3.0, x', t) == x + t * (x' - x)
  {}

  /** The curve drawn between two points of a run: it advances evenly along the axis, it
      goes from the one ordinate to the other without ever turning back, also once the
      values are clamped to the plot, so it never leaves the interval of its two points. */
  lemma DrawnCurveStaysInside(run: seq<Point>, s: Scale, k: nat, t: real, t': real)
    requires k + 1 < |run| && 0.0 <= t <= t' <= 1.0
    ensures var seg := SegmentOf(run, s, k);
            var x, y := s.X(run[k].index), s.Y(run[k].value);
            && Bezier(x, seg.x1, seg.x2, seg.x, t) == x + t * (seg.x - x)
            && Ordered(y, Bezier(y, seg.y1, seg.y2, seg.y, t), Bezier(y, seg.y1, seg.y2, seg.y, t'), seg.y)
            && (run[k].value <= run[k + 1].value ==> seg.y <= y) && (run[k].value >= run[k + 1].value ==> seg.y >= y)
  {
    hide Slope, Scale.X, Scale.Y, SegmentOf, Bezier, Ordered;
    var p, q := run[k].value, run[k + 1].value;
    var c1, c2 := p + Slope(run, k) / 3.0, q - Slope(run, k + 1) / 3.0;
    SegmentOrdered(run, k);
    EvenBezier(s.X(run[k].index), s.X(run[k + 1].index), t);
    hide *;
    ScaledOrdered(s, p, c1, c2, q);
    OrderedBezier(s.Y(p), s.Y(c1), s.Y(c2), s.Y(q), t, t');
    SegmentIs(run, s, k);
  }

  lemma SegmentIs(run: seq<Point>, s: Scale, k: nat)
    requires k + 1 < |run|
    ensures var seg := SegmentOf(run, s, k);
            var x, x' := s.X(run[k].index), s.X(run[k + 1].index);
            && seg.x1 == x + (x' - x) / 3.0 && seg.x2 == x' - (x' - x) / 3.0 && seg.x == x'
            && seg.y1 == s.Y(run[k].value + Slope(run, k) / 3.0)
            && seg.y2 == s.Y(run[k + 1].value - Slope(run, k + 1) / 3.0)
            && seg.y == s.Y(run[k + 1].value)
  {}

  /** What is ordered stays so on the plot, the other way round. */
  lemma ScaledOrdered(s: Scale, a: real, b: real, c: real, d: real)
    requires Ordered(a, b, c, d)
    ensures Ordered(s.Y(a), s.Y(b), s.Y(c), s.Y(d))
    ensures (a <= d ==> s.Y(d) <= s.Y(a)) && (a >= d ==> s.Y(d) >= s.Y(a))
  {
    hide Scale.Y;
    if a <= b <= c <= d {
      YReverses(s, a, b);
      YReverses(s, b, c);
      YReverses(s, c, d);
    } else {
      YReverses(s, b, a);
      YReverses(s, c, b);
      YReverses(s, d, c);
    }
  }

  predicate OnPlot(s: Scale, v: real) { 0.0 <= v <= s.Span() }

  /** The height one unit of value is drawn with. */
  function Unit(s: Scale): real { (HEIGHT - PADDING * 2.0) / s.Span() }

  lemma YStep(s: Scale, a: real, b: real)
    requires OnPlot(s, a) && OnPlot(s, b)
    ensures s.Y(a) - s.Y(b) == Unit(s) * (b - a)
  {
    YOnSpan(s, a);
    YOnSpan(s, b);
    var span, rise := s.Span(), HEIGHT - PADDING * 2.0;
    StepOfQuotients(a, b, span, rise);
  }

  lemma StepOfQuotients(a: real, b: real, d: real, rise: real)
    requires d > 0.0
    ensures b / d * rise - a / d * rise == rise / d * (b - a)
  {
    var x, y, u := a / d, b / d, rise / d;
    assert x * d == a && y * d == b && u * d == rise;
    assert y * rise - x * rise == (y - x) * (u * d) == u * (y * d - x * d);
  }

  lemma ControlsOnPlot(s: Scale, p: real, b: real, c: real, q: real)
    requires Ordered(p, b, c, q) && OnPlot(s, p) && OnPlot(s, q)
    ensures OnPlot(s, b) && OnPlot(s, c)
  {}

  /** Where the values lie on the plot, the curve leaves each point as steeply as it came:
      the two control points beside it are as far above it as below it, by a third of the
      tangent. So it has no corners. */
  lemma CurveIsSmooth(run: seq<Point>, s: Scale, k: nat)
    requires 0 < k < |run| - 1 && OnPlot(s, run[k - 1].value) && OnPlot(s, run[k].value) && OnPlot(s, run[k + 1].value)
    ensures var left, right, y := SegmentOf(run, s, k - 1), SegmentOf(run, s, k), s.Y(run[k].value);
            left.y2 - y == y - right.y1 == Unit(s) * (Slope(run, k) / 3.0)
  {
    hide Slope, SegmentOf, Scale.X, Scale.Y, Unit, Scale.Span, Ordered, OnPlot;
    var p, v, q, m := run[k - 1].value, run[k].value, run[k + 1].value, Slope(run, k);
    SegmentOrdered(run, k - 1);
    SegmentOrdered(run, k);
    SegmentIs(run, s, k - 1);
    SegmentIs(run, s, k);
    ControlsOnPlot(s, p, p + Slope(run, k - 1) / 3.0, v - m / 3.0, v);
    ControlsOnPlot(s, v, v + m / 3.0, q - Slope(run, k + 1) / 3.0, q);
    hide *;
    SmoothAt(s, v, m / 3.0);
  }

  lemma SmoothAt(s: Scale, v: real, third: real)
    requires OnPlot(s, v - third) && OnPlot(s, v) && OnPlot(s, v + third)
    ensures s.Y(v - third) - s.Y(v) == s.Y(v) - s.Y(v + third) == Unit(s) * third
  {
    YStep(s, v - third, v);
    YStep(s, v, v + third);
    assert v - (v - third) == third == v + third - v;
  }

  /** At either end of a run the curve sets out straight for its neighbour. */
  lemma EndsAreStraight(run: seq<Point>, s: Scale)
    requires |run| >= 2
    ensures var n := |run| - 1;
            && SegmentOf(run, s, 0).y1 == s.Y(Mix(run[0].value, run[1].value, 1.0 / 3.0))
            && SegmentOf(run, s, n - 1).y2 == s.Y(Mix(run[n].value, run[n - 1].value, 1.0 / 3.0))
  {
    hide Scale.Y, Scale.X;
  }

  // ----- turns -----

  /** An ordinate `y`, reached t of the way from `a` to `d`, has moved by at most three
      times the square of t of the step. */
  predicate LiesFlat(y: real, a: real, d: real, t: real) { Abs(y - a) <= 3.0 * (t * t) * Abs(d - a) }

  /** A curve whose tangent is flat where it begins leaves its first point no faster than
      the square of the way. */
  lemma FlatStart(a: real, c: real, d: real, t: real)
    requires Ordered(a, a, c, d) && 0.0 <= t <= 1.0
    ensures LiesFlat(Bezier(a, a, c, d, t), a, d, t)
  {
    OrderedBezier(a, a, c, d, t, t);
    var square := t * t;
    NotNegative(t, t);
    BezierFromStart(a, c, d, t);
    if a <= d {
      LeavesSlowly(c - a, d - a, square, t);
    } else {
      LeavesSlowly(a - c, a - d, square, t);
      BezierFromStart(-a, -c, -d, t);
      BezierNegated(a, a, c, d, t);
    }
  }

  lemma BezierFromStart(a: real, c: real, d: real, t: real)
    ensures Bezier(a, a, c, d, t) - a == 3.0 * (1.0 - t) * (t * t) * (c - a) + t * t * t * (d - a)
  {}

  lemma LeavesSlowly(near: real, far: real, square: real, t: real)
    requires 0.0 <= near <= far && square >= 0.0 && 0.0 <= t <= 1.0
    ensures 3.0 * (1.0 - t) * square * near + square * t * far <= 3.0 * square * far
  {
    var u := (1.0 - t) * square;
    NotNegative(1.0 - t, square);
    NotNegative(u, far - near);
    NotNegative(square, t);
    NotNegative(square * t, far);
    assert 3.0 * (1.0 - t) * square * near == 3.0 * (u * near);
    assert u * near <= u * far;
    assert u * far + square * t * far == square * far;
  }

  lemma BezierReversed(a: real, b: real, c: real, d: real, t: real)
    ensures Bezier(a, b, c, d, 1.0 - t) == Bezier(d, c, b, a, t)
  {}

  lemma OrderedReversed(a: real, b: real, c: real, d: real)
    requires Ordered(a, b, c, d)
    ensures Ordered(d, c, b, a)
  {}

  lemma FlatAfter(s: Scale, v: real, c: real, q: real, t: real)
    requires Ordered(v, v, c, q) && 0.0 <= t <= 1.0
    ensures LiesFlat(Bezier(s.Y(v), s.Y(v), s.Y(c), s.Y(q), t), s.Y(v), s.Y(q), t)
  {
    hide LiesFlat, Scale.Y, Bezier;
    ScaledOrdered(s, v, v, c, q);
    FlatStart(s.Y(v), s.Y(c), s.Y(q), t);
  }

  lemma FlatBefore(s: Scale, p: real, c: real, v: real, t: real)
    requires Ordered(p, c, v, v) && 0.0 <= t <= 1.0
    ensures LiesFlat(Bezier(s.Y(p), s.Y(c), s.Y(v), s.Y(v), 1.0 - t), s.Y(v), s.Y(p), t)
  {
    hide LiesFlat, Scale.Y, Bezier;
    OrderedReversed(p, c, v, v);
    FlatAfter(s, v, c, p, t);
    BezierReversed(s.Y(p), s.Y(c), s.Y(v), s.Y(v), t);
  }

  lemma TurnSlope(run: seq<Point>, k: nat)
    requires 0 < k < |run| - 1
    requires (run[k].value - run[k - 1].value) * (run[k + 1].value - run[k].value) <= 0.0
    ensures Slope(run, k) == 0.0
  {}

  /** At a peak or in a hollow the drawn curve lies flat, on either side: t of the way from
      it, it has moved by at most three times the square of t of the step. */
  lemma TurnsAreFlat(run: seq<Point>, s: Scale, k: nat, t: real)
    requires 0 < k < |run| - 1 && 0.0 <= t <= 1.0
    requires (run[k].value - run[k - 1].value) * (run[k + 1].value - run[k].value) <= 0.0
    ensures Slope(run, k) == 0.0
    ensures var left, right := SegmentOf(run, s, k - 1), SegmentOf(run, s, k);
            var before, y := s.Y(run[k - 1].value), s.Y(run[k].value);
            && LiesFlat(Bezier(y, right.y1, right.y2, right.y, t), y, right.y, t)
            && LiesFlat(Bezier(before, left.y1, left.y2, y, 1.0 - t), y, before, t)
  {
    hide Slope, Scale.X, Scale.Y, SegmentOf, Bezier, Ordered;
    TurnSlope(run, k);
    SegmentOrdered(run, k - 1);
    SegmentOrdered(run, k);
    var p, v, q := run[k - 1].value, run[k].value, run[k + 1].value;
    var c1, c2 := p + Slope(run, k - 1) / 3.0, q - Slope(run, k + 1) / 3.0;
    hide *;
    SegmentIs(run, s, k - 1);
    SegmentIs(run, s, k);
    FlatAfter(s, v, c2, q, t);
    FlatBefore(s, p, c1, v, t);
  }

  /** A flat stretch is drawn flat. */
  lemma FlatStretchIsFlat(run: seq<Point>, s: Scale, k: nat, t: real)
    requires k + 1 < |run| && run[k].value == run[k + 1].value && 0.0 <= t <= 1.0
    ensures var seg, y := SegmentOf(run, s, k), s.Y(run[k].value); Bezier(y, seg.y1, seg.y2, seg.y, t) == y
  {
    hide Slope, Scale.Y, Bezier, SegmentOf;
    DrawnCurveStaysInside(run, s, k, t, t);
  }
}
