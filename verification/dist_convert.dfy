/** Screen geometry: the two coordinate frames (eye-tracker pixels with the
    origin in a screen corner, presentation pixels with the origin at the
    screen centre) and the linear pixel/centimetre conversion. */
module DistConvert {

  /** Physical screen width in centimetres. */
  const ScreenWidthCm: real := 70.3

  /** Screen resolution in pixels. */
  const ScreenResX: int := 1920
  const ScreenResY: int := 1080

  datatype Point = Point(x: real, y: real)

  const Origin := Point(0.0, 0.0)

  /** Presentation coordinates to eye-tracker coordinates. */
  function PsychopyToEyelink(p: Point): (q: Point)
    ensures q.x == p.x + 960.0 && q.y == 540.0 - p.y
  {
    Point(p.x + ScreenResX as real / 2.0, ScreenResY as real / 2.0 - p.y)
  }

  /** Eye-tracker coordinates to presentation coordinates; undone by
      `PsychopyToEyelink`. */
  function EyelinkToPsychopy(p: Point): (q: Point)
    ensures q.x == p.x - 960.0 && q.y == 540.0 - p.y
    ensures PsychopyToEyelink(q) == p
  {
    Point(p.x - ScreenResX as real / 2.0, ScreenResY as real / 2.0 - p.y)
  }

  /** The two origin maps are mutual inverses, in both directions. */
  lemma {:induction false} OriginMapsInverse(p: Point)
    ensures PsychopyToEyelink(EyelinkToPsychopy(p)) == p
    ensures EyelinkToPsychopy(PsychopyToEyelink(p)) == p
  {
  }

  /** Both maps flip y the same way, and that flip is an involution. */
  lemma {:induction false} VerticalFlipInvolution(p: Point)
    ensures EyelinkToPsychopy(p).y == PsychopyToEyelink(p).y
    ensures EyelinkToPsychopy(Point(p.x, EyelinkToPsychopy(p).y)).y == p.y
  {
  }

  /** The centre of the screen in eye-tracker pixels is the presentation origin. */
  lemma {:induction false} ScreenCentreIsOrigin()
    ensures EyelinkToPsychopy(Point(960.0, 540.0)) == Origin
    ensures PsychopyToEyelink(Origin) == Point(960.0, 540.0)
  {
  }

  /** Centimetres to pixels on the screen: a length keeps its share of the
      screen width, so 70.3 cm is the full 1920 pixels. */
  function CmToPix(cm: real): (px: real)
    ensures px / ScreenResX as real == cm / ScreenWidthCm
  {
    cm * ScreenResX as real / ScreenWidthCm
  }

  /** Pixels to centimetres on the screen; undone by `CmToPix`. */
  function PixToCm(px: real): (cm: real)
    ensures CmToPix(cm) == px
  {
    px * ScreenWidthCm / ScreenResX as real
  }

  /** The conversions are inverse in both directions and anchored at the
      screen edges: 0 px is 0 cm and the full width is 70.3 cm. */
  lemma {:induction false} PixCmRoundTrip(v: real)
    ensures CmToPix(PixToCm(v)) == v
    ensures PixToCm(CmToPix(v)) == v
    ensures PixToCm(0.0) == 0.0 && PixToCm(1920.0) == 70.3
  {
  }

  /** Both conversions are strictly increasing. */
  lemma {:induction false} PixCmIncreasing(a: real, b: real)
    requires a < b
    ensures PixToCm(a) < PixToCm(b)
    ensures CmToPix(a) < CmToPix(b)
  {
  }

  /** Squared Euclidean distance, used in place of the distance itself: it is
      never negative, symmetric, and zero between coincident points. */
  function SqDist(a: Point, b: Point): (d: real)
    ensures d >= 0.0
    ensures a == b ==> d == 0.0
  {
    var dx := a.x - b.x;
    var dy := a.y - b.y;
    SquareNonNegative(dx);
    SquareNonNegative(dy);
    dx * dx + dy * dy
  }

  /** The squared distance does not depend on the order of its arguments. */
  lemma {:induction false} SqDistSymmetric(a: Point, b: Point)
    ensures SqDist(a, b) == SqDist(b, a)
  {
    assert (b.x - a.x) * (b.x - a.x) == (a.x - b.x) * (a.x - b.x);
    assert (b.y - a.y) * (b.y - a.y) == (a.y - b.y) * (a.y - b.y);
  }

  lemma {:induction false} SquareNonNegative(v: real)
    ensures v * v >= 0.0
  {
    if v < 0.0 {
      var w := -v;
      assert w * w == v * v;
    }
  }
}
