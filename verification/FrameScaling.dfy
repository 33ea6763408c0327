/** Frame geometry: shrinking a frame for the queue, and the crop before it goes to the model. Factors are exact reals. */
module FrameScaling {
  import opened Wrappers

  const TARGET_W := 672
  const TARGET_H := 378
  const MIN_CROP := 32

  /** Go's conversion of a float to an int drops the fraction. */
  function Trunc(x: real): int { if x >= 0.0 then x.Floor else -((-x).Floor) }

  datatype Color = Color(r: int, g: int, b: int, a: int)

  const NO_COLOR := Color(0, 0, 0, 0)

  function Later(a: int, b: int): int { if a < b then b else a }

  function Earlier(a: int, b: int): int { if a > b then b else a }

  /** Half-open, like image.Rectangle. */
  datatype Rect = Rect(minX: int, minY: int, maxX: int, maxY: int) {
    function Dx(): int { maxX - minX }
    function Dy(): int { maxY - minY }
    predicate Contains(x: int, y: int) { minX <= x < maxX && minY <= y < maxY }
    predicate In(other: Rect) {
      other.minX <= minX && maxX <= other.maxX && other.minY <= minY && maxY <= other.maxY
    }
    /** image.Rectangle.Intersect: empty rectangles become the zero rectangle. */
    function Intersect(o: Rect): Rect {
      var x0, y0 := Later(minX, o.minX), Later(minY, o.minY);
      var x1, y1 := Earlier(maxX, o.maxX), Earlier(maxY, o.maxY);
      NonEmpty(x0, y0, x1, y1)
    }
  }

  function NonEmpty(x0: int, y0: int, x1: int, y1: int): Rect {
    if x0 >= x1 || y0 >= y1 then Rect(0, 0, 0, 0) else Rect(x0, y0, x1, y1)
  }

  /** An intersection contains what both contain. */
  lemma IntersectContains(r: Rect, o: Rect, x: int, y: int)
    ensures r.Intersect(o).Contains(x, y) <==> r.Contains(x, y) && o.Contains(x, y)
  {
    AxisIs(r.minX, r.maxX, o.minX, o.maxX, x);
    AxisIs(r.minY, r.maxY, o.minY, o.maxY, y);
    hide Later, Earlier;
  }

  /** Both intervals, and what they share, are more than 32 long. */
  predicate FarApart(a0: int, a1: int, b0: int, b1: int) {
    a0 + 32 < a1 && b0 + 32 < b1 && b0 + 32 < a1 && a0 + 32 < b1
  }

  /** An intersection is larger than the least crop exactly if all edges are that far apart. */
  lemma IntersectIsLarge(r: Rect, o: Rect)
    ensures r.Intersect(o).Dx() > MIN_CROP && r.Intersect(o).Dy() > MIN_CROP
       <==> FarApart(r.minX, r.maxX, o.minX, o.maxX) && FarApart(r.minY, r.maxY, o.minY, o.maxY)
  {
    AxisIsLong(r.minX, r.maxX, o.minX, o.maxX);
    AxisIsLong(r.minY, r.maxY, o.minY, o.maxY);
    var x0, y0 := Later(r.minX, o.minX), Later(r.minY, o.minY);
    var x1, y1 := Earlier(r.maxX, o.maxX), Earlier(r.maxY, o.maxY);
    assert r.Intersect(o) == NonEmpty(x0, y0, x1, y1);
    hide Later, Earlier, FarApart, Rect.Intersect, NonEmpty;
    LargeRect(x0, y0, x1, y1);
  }

  lemma LargeRect(x0: int, y0: int, x1: int, y1: int)
    ensures NonEmpty(x0, y0, x1, y1).Dx() > MIN_CROP && NonEmpty(x0, y0, x1, y1).Dy() > MIN_CROP
       <==> x0 + 32 < x1 && y0 + 32 < y1
  {
  }

  lemma AxisIsLong(a0: int, a1: int, b0: int, b1: int)
    ensures Later(a0, b0) + 32 < Earlier(a1, b1) <==> FarApart(a0, a1, b0, b1)
  {
  }

  lemma AxisIs(a0: int, a1: int, b0: int, b1: int, x: int)
    ensures Later(a0, b0) <= x < Earlier(a1, b1) <==> a0 <= x < a1 && b0 <= x < b1
  {
  }

  /** A picture over a buffer of rows; `rgba` is false for other pixel formats, which cannot be cropped in place. */
  datatype Picture = Picture(minX: int, minY: int, px: array2<Color>, rgba: bool) {
    function Bounds(): Rect { Rect(minX, minY, minX + px.Length1, minY + px.Length0) }

    function At(x: int, y: int): Color
      reads px
    {
      if Bounds().Contains(x, y) then px[y - minY, x - minX] else NO_COLOR
    }
  }

  // ---- Sizes ----

  predicate TooLarge(w: int, h: int) { w > TARGET_W || h > TARGET_H }

  /** The smaller of the two fitting factors; a side of length zero (an infinite factor) never wins. */
  function Factor(w: nat, h: nat): real
    requires TooLarge(w, h)
  {
    if h == 0 then TARGET_W as real / w as real
    else if w == 0 then TARGET_H as real / h as real
    else
      var fx, fy := TARGET_W as real / w as real, TARGET_H as real / h as real;
      if fy < fx then fy else fx
  }

  function AtLeastOne(n: int): int { if n < 1 then 1 else n }

  function Scaled(n: int, f: real): int { Trunc(n as real * f) }

  function ScaledSide(n: nat, f: real): int { AtLeastOne(Scaled(n, f)) }

  function ScaledRect(r: Rect, f: real): Rect {
    Rect(Scaled(r.minX, f), Scaled(r.minY, f), Scaled(r.maxX, f), Scaled(r.maxY, f))
  }

  lemma TruncMonotone(x: real, y: real)
    requires 0.0 <= x <= y
    ensures 0 <= Trunc(x) <= Trunc(y)
  {
  }

  lemma TruncWhole(n: int, x: real)
    requires 0 <= n && x == n as real
    ensures Trunc(x) == n
  {
  }

  lemma MulLess(a: real, b: real, c: real)
    requires a <= b && c >= 0.0
    ensures a * c <= b * c
  {
  }

  lemma MulNonNegative(a: real, c: real)
    requires a >= 0.0 && c >= 0.0
    ensures a * c >= 0.0
  {
  }

  lemma TruncBelow(x: real, n: int)
    requires 0.0 <= x < n as real
    ensures 0 <= Trunc(x) < n
  {
  }

  lemma QuotientTimes(t: real, n: real)
    requires n > 0.0
    ensures n * (t / n) == t
  {
  }

  lemma FactorPositive(w: nat, h: nat)
    requires TooLarge(w, h)
    ensures Factor(w, h) > 0.0
  {
    if w > 0 {
      assert TARGET_W as real / w as real > 0.0;
    }
    if h > 0 {
      assert TARGET_H as real / h as real > 0.0;
    }
  }

  /** Neither scaled side exceeds its target, and one of them meets it exactly. */
  lemma FactorFits(w: nat, h: nat)
    requires TooLarge(w, h)
    ensures w as real * Factor(w, h) <= TARGET_W as real
    ensures h as real * Factor(w, h) <= TARGET_H as real
    ensures w as real * Factor(w, h) == TARGET_W as real || h as real * Factor(w, h) == TARGET_H as real
  {
    var f := Factor(w, h);
    if w > 0 {
      QuotientTimes(TARGET_W as real, w as real);
    }
    if h > 0 {
      QuotientTimes(TARGET_H as real, h as real);
    }
    if w > 0 && h > 0 {
      MulLess(f, TARGET_W as real / w as real, w as real);
      MulLess(f, TARGET_H as real / h as real, h as real);
    }
  }

  lemma ScaledMonotone(lo: int, hi: int, f: real)
    requires 0 <= lo <= hi && f > 0.0
    ensures 0 <= Scaled(lo, f) <= Scaled(hi, f)
  {
    MulNonNegative(lo as real, f);
    MulLess(lo as real, hi as real, f);
    TruncMonotone(lo as real * f, hi as real * f);
  }

  lemma ScaledWithin(n: nat, f: real, limit: nat)
    requires f > 0.0 && n as real * f <= limit as real
    ensures 0 <= Scaled(n, f) <= limit
    ensures n as real * f == limit as real ==> Scaled(n, f) == limit
  {
    MulNonNegative(n as real, f);
    TruncMonotone(n as real * f, limit as real);
    TruncWhole(limit, limit as real);
  }

  /** Every oversized frame shrinks to sides of at least 1 within 672 x 378, and fills one of the two. */
  lemma ScaledSizeFits(w: nat, h: nat)
    requires TooLarge(w, h)
    ensures var f := Factor(w, h);
            && 1 <= ScaledSide(w, f) <= TARGET_W
            && 1 <= ScaledSide(h, f) <= TARGET_H
            && (ScaledSide(w, f) == TARGET_W || ScaledSide(h, f) == TARGET_H)
            && !TooLarge(ScaledSide(w, f), ScaledSide(h, f))
  {
    hide Factor, Scaled;
    var f := Factor(w, h);
    FactorPositive(w, h);
    FactorFits(w, h);
    ScaledWithin(w, f, TARGET_W);
    ScaledWithin(h, f, TARGET_H);
  }

  /** A window rectangle inside the frame stays inside when the frame shrinks, and does not turn inside out. */
  lemma ScaledRectInside(w: nat, h: nat, r: Rect)
    requires TooLarge(w, h)
    requires 0 <= r.minX <= r.maxX <= w && 0 <= r.minY <= r.maxY <= h
    ensures var f := Factor(w, h);
            var s := ScaledRect(r, f);
            && s.In(Rect(0, 0, ScaledSide(w, f), ScaledSide(h, f)))
            && s.minX <= s.maxX && s.minY <= s.maxY
  {
    hide Factor, Scaled;
    var f := Factor(w, h);
    FactorPositive(w, h);
    ScaledMonotone(r.minX, r.maxX, f);
    ScaledMonotone(r.maxX, w, f);
    ScaledMonotone(r.minY, r.maxY, f);
    ScaledMonotone(r.maxY, h, f);
  }

  lemma TruncIs(x: real)
    requires x >= 0.0
    ensures Trunc(x) as real <= x < Trunc(x) as real + 1.0
  {
  }

  /** The whole number below n times f. */
  predicate RoundsDown(m: int, n: int, f: real) { m as real <= n as real * f < m as real + 1.0 }

  lemma ScaledIs(n: nat, f: real)
    requires f > 0.0
    ensures RoundsDown(Scaled(n, f), n, f)
  {
    hide Trunc, RoundsDown;
    MulNonNegative(n as real, f);
    Rounded(n, f, n as real * f);
  }

  lemma Rounded(n: nat, f: real, x: real)
    requires x == n as real * f && x >= 0.0
    ensures RoundsDown(Trunc(x), n, f)
  {
    TruncIs(x);
    hide Trunc;
  }

  /** The smaller of the two factors that make a side fit its target. */
  function FittingFactor(w: nat, h: nat): real
    requires w > 0 && h > 0
  {
    var fx, fy := 672.0 / w as real, 378.0 / h as real;
    if fx < fy then fx else fy
  }

  lemma FactorIs(w: nat, h: nat)
    requires TooLarge(w, h) && w > 0 && h > 0
    ensures Factor(w, h) == FittingFactor(w, h)
  {
  }

  /** Each edge of the window is scaled by that factor and rounded down. */
  predicate WindowFollows(r: Rect, s: Rect, f: real) {
    && RoundsDown(s.minX, r.minX, f) && RoundsDown(s.minY, r.minY, f)
    && RoundsDown(s.maxX, r.maxX, f) && RoundsDown(s.maxY, r.maxY, f)
  }

  /** A side is scaled and rounded down, but not to nothing. */
  predicate SideFollows(n: nat, m: nat, f: real) { if n as real * f < 1.0 then m == 1 else RoundsDown(m, n, f) }

  /** The window goes where the frame goes. */
  lemma ScaledEdges(w: nat, h: nat, r: Rect)
    requires TooLarge(w, h)
    requires 0 <= r.minX < r.maxX <= w && 0 <= r.minY < r.maxY <= h
    ensures WindowFollows(r, ScaledRect(r, Factor(w, h)), FittingFactor(w, h))
  {
    FactorIs(w, h);
    FactorPositive(w, h);
    hide Factor, Scaled, RoundsDown, FittingFactor;
    var f := Factor(w, h);
    ScaledIs(r.minX, f);
    ScaledIs(r.minY, f);
    ScaledIs(r.maxX, f);
    ScaledIs(r.maxY, f);
  }

  lemma ScaledSides(w: nat, h: nat)
    requires TooLarge(w, h) && w > 0 && h > 0
    ensures var f := FittingFactor(w, h);
            1 <= ScaledSide(w, Factor(w, h)) && SideFollows(w, ScaledSide(w, Factor(w, h)), f)
            && 1 <= ScaledSide(h, Factor(w, h)) && SideFollows(h, ScaledSide(h, Factor(w, h)), f)
  {
    FactorIs(w, h);
    FactorPositive(w, h);
    hide Factor, FittingFactor;
    SideIs(w, Factor(w, h));
    SideIs(h, Factor(w, h));
  }

  lemma SideIs(n: nat, f: real)
    requires f > 0.0
    ensures 1 <= ScaledSide(n, f) && SideFollows(n, ScaledSide(n, f), f)
  {
    hide Scaled;
    ScaledIs(n, f);
    MulNonNegative(n as real, f);
  }

  // ---- Sampling ----

  /** The source offset sampled for destination offset i, when `from` pixels become `to`. */
  function SampleOffset(i: nat, from: nat, to: nat): int
    requires to > 0
  {
    Scaled(i, from as real / to as real)
  }

  /** Every sampled offset lies in the source, at the same fraction of its length; offsets never run backwards. */
  lemma SampleInside(i: nat, from: nat, to: nat)
    requires i < to && from > 0
    ensures 0 <= SampleOffset(i, from, to) < from
    ensures i + 1 < to ==> SampleOffset(i, from, to) <= SampleOffset(i + 1, from, to)
    ensures RoundsDown(SampleOffset(i, from, to), i, from as real / to as real)
  {
    var q := from as real / to as real;
    QuotientTimes(from as real, to as real);
    QuotientPositive(from as real, to as real);
    SampleBelow(i as real, q, to as real, from);
    ScaledMonotone(i, i + 1, q);
    ScaledIs(i, q);
  }

  lemma SampleBelow(x: real, q: real, n: real, limit: nat)
    requires 0.0 <= x && x + 1.0 <= n && q > 0.0 && n * q == limit as real
    ensures 0 <= Trunc(x * q) < limit
  {
    hide Trunc;
    MulNonNegative(x, q);
    MulLess(x + 1.0, n, q);
    OneMore(x, q);
    var below := x * q;
    assert (x + 1.0) * q <= limit as real;
    assert 0.0 <= below && below + q <= limit as real;
    TruncBelow(below, limit);
  }

  lemma OneMore(x: real, q: real)
    ensures (x + 1.0) * q == x * q + q
  {
  }

  lemma QuotientPositive(t: real, n: real)
    requires t > 0.0 && n > 0.0
    ensures t / n > 0.0
  {
  }

  method NearestNeighbor(src: Picture, w: nat, h: nat) returns (dst: Picture)
    requires w > 0 && h > 0
    ensures dst.Bounds() == Rect(0, 0, w, h) && dst.rgba && fresh(dst.px)
    ensures forall x: nat, y: nat :: x < w && y < h ==>
              dst.px[y, x] == src.At(src.minX + SampleOffset(x, src.px.Length1, w), src.minY + SampleOffset(y, src.px.Length0, h))
  {
    hide SampleOffset;
    var px := new Color[h, w];
    var y := 0;
    while y < h
      invariant 0 <= y <= h
      invariant forall i: nat, j: nat :: i < w && j < y ==>
                  px[j, i] == src.At(src.minX + SampleOffset(i, src.px.Length1, w), src.minY + SampleOffset(j, src.px.Length0, h))
    {
      var srcY := src.minY + SampleOffset(y, src.px.Length0, h);
      var x := 0;
      while x < w
        invariant 0 <= x <= w
        invariant forall i: nat, j: nat :: i < w && j < y ==>
                    px[j, i] == src.At(src.minX + SampleOffset(i, src.px.Length1, w), src.minY + SampleOffset(j, src.px.Length0, h))
        invariant forall i: nat :: i < x ==> px[y, i] == src.At(src.minX + SampleOffset(i, src.px.Length1, w), srcY)
      {
        px[y, x] := src.At(src.minX + SampleOffset(x, src.px.Length1, w), srcY);
        x := x + 1;
      }
      y := y + 1;
    }
    dst := Picture(0, 0, px, true);
  }

  // ---- The frame ----

  /** What shrinking an oversized picture with its window rectangle comes to: size, every pixel, rectangle. */
  ghost predicate ShrinksTo(src: Picture, rect: Rect, dst: Picture, rect': Rect)
    requires TooLarge(src.px.Length1, src.px.Length0)
    reads src.px, dst.px
  {
    var w, h := src.px.Length1, src.px.Length0;
    var f := Factor(w, h);
    var dstW, dstH := ScaledSide(w, f), ScaledSide(h, f);
    && dst.Bounds() == Rect(0, 0, dstW, dstH) && dst.rgba
    && (forall x: nat, y: nat :: x < dstW && y < dstH ==>
          dst.At(x, y) == src.At(src.minX + SampleOffset(x, w, dstW), src.minY + SampleOffset(y, h, dstH)))
    && rect' == if rect.Dx() > 0 && rect.Dy() > 0 then ScaledRect(rect, f) else rect
  }

  lemma Shrunk(src: Picture, rect: Rect, dst: Picture, rect': Rect, f: real, dstW: nat, dstH: nat)
    requires TooLarge(src.px.Length1, src.px.Length0) && f == Factor(src.px.Length1, src.px.Length0)
    requires dstW == ScaledSide(src.px.Length1, f) && dstH == ScaledSide(src.px.Length0, f) && dstW > 0 && dstH > 0
    requires dst.Bounds() == Rect(0, 0, dstW, dstH) && dst.rgba
    requires forall x: nat, y: nat :: x < dstW && y < dstH ==>
               dst.px[y, x] == src.At(src.minX + SampleOffset(x, src.px.Length1, dstW),
                                      src.minY + SampleOffset(y, src.px.Length0, dstH))
    requires rect' == if rect.Dx() > 0 && rect.Dy() > 0 then ScaledRect(rect, f) else rect
    ensures ShrinksTo(src, rect, dst, rect')
  {
    hide Factor, Scaled, SampleOffset;
  }

  class Frame {
    var image: Option<Picture>
    var windowRect: Rect

    constructor (image: Option<Picture>, windowRect: Rect)
      ensures this.image == image && this.windowRect == windowRect
    {
      this.image := image;
      this.windowRect := windowRect;
    }

    predicate Fits()
      reads this
    {
      image.Some? ==> !TooLarge(image.value.px.Length1, image.value.px.Length0)
    }

    /** Leaves a fitting frame alone; else shrinks the picture and its window rectangle by one factor. */
    method DownscaleForQueue()
      modifies this
      ensures Fits()
      ensures old(Fits()) ==> image == old(image) && windowRect == old(windowRect)
      ensures !old(Fits()) ==>
                image.Some? && fresh(image.value.px) && ShrinksTo(old(image).value, old(windowRect), image.value, windowRect)
      ensures !old(Fits()) ==>
                var w, h, r := old(image).value.px.Length1, old(image).value.px.Length0, old(windowRect);
                && (w > 0 && h > 0 ==>
                      && SideFollows(w, image.value.px.Length1, FittingFactor(w, h))
                      && SideFollows(h, image.value.px.Length0, FittingFactor(w, h)))
                && (0 <= r.minX < r.maxX <= w && 0 <= r.minY < r.maxY <= h ==>
                      WindowFollows(r, windowRect, FittingFactor(w, h)))
      ensures image.Some? ==> image.value.px.Length1 <= 672 && image.value.px.Length0 <= 378
      ensures old(image).Some? && old(image).value.px.Length1 <= 672 && old(image).value.px.Length0 <= 378 ==>
                image == old(image) && windowRect == old(windowRect)
    {
      hide Factor, Scaled, SampleOffset, ShrinksTo, FittingFactor, SideFollows, WindowFollows;
      if image.None? {
        return;
      }
      var src := image.value;
      var srcW, srcH := src.px.Length1, src.px.Length0;
      if srcW <= TARGET_W && srcH <= TARGET_H {
        return;
      }
      var scale := Factor(srcW, srcH);
      ScaledSizeFits(srcW, srcH);
      var dstW, dstH := Scaled(srcW, scale), Scaled(srcH, scale);
      if dstW < 1 {
        dstW := 1;
      }
      if dstH < 1 {
        dstH := 1;
      }
      var shrunk := NearestNeighbor(src, dstW, dstH);
      image := Some(shrunk);
      var r := windowRect;
      if r.Dx() > 0 && r.Dy() > 0 {
        windowRect := ScaledRect(r, scale);
      }
      Shrunk(src, r, shrunk, windowRect, scale, dstW, dstH);
      if 0 <= r.minX < r.maxX <= srcW && 0 <= r.minY < r.maxY <= srcH {
        ScaledEdges(srcW, srcH, r);
      }
      if srcW > 0 && srcH > 0 {
        ScaledSides(srcW, srcH);
      }
    }

    /** The bounds that go to the encoder: the window if the picture can be cropped to a sizeable one, else everything. */
    function EncodeBounds(): Rect
      reads this
      requires image.Some?
    {
      var bounds := image.value.Bounds();
      var cropped := windowRect.Intersect(bounds);
      if windowRect.Dx() > MIN_CROP && windowRect.Dy() > MIN_CROP
         && cropped.Dx() > MIN_CROP && cropped.Dy() > MIN_CROP && image.value.rgba
      then cropped else bounds
    }

    /**
     What is sent to the model: exactly the part of the window that is in the picture, if the window and that part are each
     more than 32 wide and high and the picture can be cropped; else the whole picture.
     */
    lemma EncodesTheWindow(x: int, y: int)
      requires image.Some?
      ensures var pic, win := image.value.Bounds(), windowRect;
              EncodeBounds().Contains(x, y)
              <==> && pic.minX <= x < pic.maxX && pic.minY <= y < pic.maxY
                   && (Crops() ==> win.minX <= x < win.maxX && win.minY <= y < win.maxY)
    {
      IntersectContains(windowRect, image.value.Bounds(), x, y);
      IntersectIsLarge(windowRect, image.value.Bounds());
      var cropped := windowRect.Intersect(image.value.Bounds());
      hide Rect.Intersect;
      assert EncodeBounds() == if Crops() then cropped else image.value.Bounds();
    }

    /** The window and its part in the picture are each more than 32 wide and high, and the picture can be cropped. */
    predicate Crops()
      reads this
      requires image.Some?
    {
      var pic, win := image.value.Bounds(), windowRect;
      && image.value.rgba
      && FarApart(win.minX, win.maxX, pic.minX, pic.maxX)
      && FarApart(win.minY, win.maxY, pic.minY, pic.maxY)
    }

    predicate EncoderDownscales()
      reads this
      requires image.Some?
    {
      TooLarge(EncodeBounds().Dx(), EncodeBounds().Dy())
    }

    lemma QueuedFrameIsNotDownscaledAgain()
      requires image.Some? && Fits()
      ensures !EncoderDownscales()
      ensures EncodeBounds().In(image.value.Bounds())
    {
    }
  }

  /** Shrinking twice leaves what shrinking once leaves, and the encoder finds nothing left to shrink. */
  method DownscaleTwice(f: Frame)
    requires f.image.Some?
    modifies f
    ensures f.image.Some? && !f.EncoderDownscales()
    ensures old(f.Fits()) ==> f.image == old(f.image) && f.windowRect == old(f.windowRect)
    ensures !old(f.Fits()) ==> ShrinksTo(old(f.image).value, old(f.windowRect), f.image.value, f.windowRect)
  {
    hide ShrinksTo;
    f.DownscaleForQueue();
    f.DownscaleForQueue();
    f.QueuedFrameIsNotDownscaledAgain();
  }
}
