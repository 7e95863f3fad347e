/** `crop_face`: the face region, widened around the detector's box and clamped to the frame. */
module Crop {
  import opened Wrappers

  /** A video frame's `shape[:2]`; the pixels themselves are not modelled. */
  datatype Frame = Frame(height: nat, width: nat)

  /** The region `frame[y1:y2, x1:x2]`. */
  datatype Rect = Rect(x1: int, y1: int, x2: int, y2: int)

  /** The region holds no pixel. */
  predicate IsEmpty(r: Rect) {
    r.x2 <= r.x1 || r.y2 <= r.y1
  }

  /** Python's `int()` of a float: truncation toward zero. */
  function Trunc(x: real): int {
    if x >= 0.0 then x.Floor else -((-x).Floor)
  }

  /** `int()` moves a float toward zero by less than 1. */
  lemma TruncBounds(x: real)
    ensures x >= 0.0 ==> Trunc(x) as real <= x < Trunc(x) as real + 1.0
    ensures x < 0.0 ==> Trunc(x) as real - 1.0 < x <= Trunc(x) as real
  {
  }

  function Max(a: int, b: int): int { if a >= b then a else b }

  function Min(a: int, b: int): int { if a <= b then a else b }

  /**
   * One axis of `crop_face`: the box's ends `lo` and `hi` become a side of at
   * least 1, widened by `scale` around the side's centre and clamped to
   * `[0, limit]`. Python's `//` by 2 is floor division, which is what Dafny's
   * `/` by a positive divisor computes.
   */
  function WidenAxis(lo: int, hi: int, scale: real, limit: int): (r: (int, int))
    ensures 0 <= r.0 && r.1 <= limit
  {
    Span(lo + Max(1, hi - lo) / 2, Trunc(Max(1, hi - lo) as real * scale), limit)
  }

  /** The span of length `wide` centred on `centre`, clamped to `[0, limit]`. */
  function Span(centre: int, wide: int, limit: int): (r: (int, int))
    ensures 0 <= r.0 && r.1 <= limit
  {
    (Max(0, centre - wide / 2), Min(limit, centre + wide / 2))
  }

  /**
   * `crop_face(frame, bbox, scale)`: `None` when the box does not unpack into
   * four numbers or when the widened box misses the frame; otherwise the
   * widened box clamped to the frame.
   */
  function CropFace(frame: Frame, bbox: seq<real>, scale: real): (r: Option<Rect>)
    ensures r.Some? ==> 0 <= r.value.x1 < r.value.x2 <= frame.width
    ensures r.Some? ==> 0 <= r.value.y1 < r.value.y2 <= frame.height
    ensures r.Some? ==> !IsEmpty(r.value)
  {
    if |bbox| != 4 then None
    else
      var xs := WidenAxis(Trunc(bbox[0]), Trunc(bbox[2]), scale, frame.width);
      var ys := WidenAxis(Trunc(bbox[1]), Trunc(bbox[3]), scale, frame.height);
      if xs.1 - xs.0 <= 0 || ys.1 - ys.0 <= 0 then None
      else Some(Rect(xs.0, ys.0, xs.1, ys.1))
  }

  /** Widening a side of length `side` (at least 1) by `scale` >= 2 gives at least twice the side. */
  lemma WidenedSide(side: int, scale: real)
    requires side >= 1 && scale >= 2.0
    ensures Trunc(side as real * scale) >= 2 * side
  {
    assert side as real * scale >= side as real * 2.0;
    TruncBounds(side as real * scale);
  }

  /** Centred on `lo + side / 2`, a span of `wide` >= 2 * `side` keeps the part of `[lo, lo + side]` inside `[0, limit]`. */
  lemma CentredSpanCovers(lo: int, side: int, wide: int, limit: int)
    requires side >= 1 && wide >= 2 * side
    ensures Span(lo + side / 2, wide, limit).0 <= Max(0, lo)
    ensures Min(limit, lo + side) <= Span(lo + side / 2, wide, limit).1
  {
    assert wide / 2 >= side;
  }

  /** Along one axis, the factor 3 keeps the part of `[lo, hi]` inside `[0, limit]`. */
  lemma WidenAxisCovers(lo: int, hi: int, scale: real, limit: int)
    requires scale == 3.0 && lo < hi
    ensures WidenAxis(lo, hi, scale, limit).0 <= Max(0, lo)
    ensures Min(limit, hi) <= WidenAxis(lo, hi, scale, limit).1
  {
    var side := Max(1, hi - lo);
    WidenedSide(side, scale);
    var wide := Trunc(side as real * scale);
    CentredSpanCovers(lo, side, wide, limit);
    assert WidenAxis(lo, hi, scale, limit) == Span(lo + side / 2, wide, limit);
    assert lo + side == hi;
  }

  /**
   * With the widening factor 3 (the default, and what enrollment passes),
   * the crop exists whenever the detector's box overlaps the frame, and it
   * contains the part of the box that lies inside the frame.
   */
  lemma CropContainsBox(frame: Frame, bbox: seq<real>, scale: real)
    requires |bbox| == 4 && scale == 3.0
    requires Max(0, Trunc(bbox[0])) < Min(frame.width, Trunc(bbox[2]))
    requires Max(0, Trunc(bbox[1])) < Min(frame.height, Trunc(bbox[3]))
    ensures CropFace(frame, bbox, scale).Some?
    ensures CropFace(frame, bbox, scale).value.x1 <= Max(0, Trunc(bbox[0]))
    ensures CropFace(frame, bbox, scale).value.y1 <= Max(0, Trunc(bbox[1]))
    ensures Min(frame.width, Trunc(bbox[2])) <= CropFace(frame, bbox, scale).value.x2
    ensures Min(frame.height, Trunc(bbox[3])) <= CropFace(frame, bbox, scale).value.y2
  {
    WidenAxisCovers(Trunc(bbox[0]), Trunc(bbox[2]), scale, frame.width);
    WidenAxisCovers(Trunc(bbox[1]), Trunc(bbox[3]), scale, frame.height);
  }
}
