/** Letterboxing: `fit_to_box` and the centring of `make_square_thumbnail`, on pixel sizes.
    The scale factor is an exact rational (`real`) where the application uses a float. */
module Letterbox {

  /** A pixel size `(w, h)` as PIL reports it. */
  datatype Size = Size(w: int, h: int)

  /** Where `make_square_thumbnail` pastes the fitted image on its canvas. */
  datatype Placement = Placement(canvas: Size, thumb: Size, x: int, y: int)

  /** Margin subtracted from each canvas side before fitting (`size[0] - 8`). */
  const ThumbMargin: int := 8
  /** Canvas side of the list thumbnails (`size=(76, 76)` in both tabs). */
  const ListThumbSide: int := 76
  /** Bounding box of the preview panel (`self.preview_size`). */
  const PreviewW: int := 760
  const PreviewH: int := 560

  function Min(a: real, b: real): real { if a <= b then a else b }

  function MaxInt(a: int, b: int): int { if a >= b then a else b }

  /** `min(max_w / w, max_h / h, 1.0)`: never above 1, so never an enlargement. */
  function FitScale(w: int, h: int, maxW: int, maxH: int): (scale: real)
    requires w > 0 && h > 0
    ensures scale <= 1.0
    ensures scale <= maxW as real / w as real && scale <= maxH as real / h as real
    ensures scale == 1.0 || scale == maxW as real / w as real || scale == maxH as real / h as real
  {
    Min(Min(maxW as real / w as real, maxH as real / h as real), 1.0)
  }

  /** `max(1, int(side * scale))`; the floor agrees with `int()` wherever the result is
      above 1, since `int()` only differs from the floor on negative values. */
  function ScaledSide(side: int, scale: real): int {
    MaxInt(1, (side as real * scale).Floor)
  }

  /** `fit_to_box`: the size of the resized image. */
  function FitToBox(src: Size, maxW: int, maxH: int): (r: Size)
  {
    if src.w <= 0 || src.h <= 0 then src
    else
      var scale := FitScale(src.w, src.h, maxW, maxH);
      Size(ScaledSide(src.w, scale), ScaledSide(src.h, scale))
  }

  lemma MulMonotone(a: real, b: real, c: real)
    requires a > 0.0 && b <= c
    ensures a * b <= a * c
  {
  }

  lemma MulBelowQuotient(a: real, b: real, c: real)
    requires a > 0.0 && b <= c / a
    ensures a * b <= c
  {
    MulMonotone(a, b, c / a);
    assert a * (c / a) == c;
  }

  /** A side scaled by at most 1, and by at most `bound / side`, lands in `[1, side]` and,
      for a bound of at least 1, in `[1, bound]`. */
  lemma ScaledSideBounds(side: int, scale: real, bound: int)
    requires side > 0 && scale <= 1.0 && scale <= bound as real / side as real
    ensures 1 <= ScaledSide(side, scale) <= side
    ensures bound >= 1 ==> ScaledSide(side, scale) <= bound
  {
    var x := side as real * scale;
    assert x.Floor as real <= x;
    MulMonotone(side as real, scale, 1.0);
    assert x <= side as real;
    if bound >= 1 {
      MulBelowQuotient(side as real, scale, bound as real);
      assert x <= bound as real;
    }
  }

  /** A side scaled by exactly `bound / side` becomes `bound`. */
  lemma ScaledSideExact(side: int, bound: int)
    requires side > 0 && bound >= 1
    ensures ScaledSide(side, bound as real / side as real) == bound
  {
    assert side as real * (bound as real / side as real) == bound as real;
  }

  /** `fit_to_box` never enlarges, never yields a side below 1 pixel, and stays inside
      every bound of at least 1; a degenerate size is returned unchanged. */
  lemma FitToBoxBounds(src: Size, maxW: int, maxH: int)
    ensures src.w <= 0 || src.h <= 0 ==> FitToBox(src, maxW, maxH) == src
    ensures src.w > 0 && src.h > 0 ==>
      1 <= FitToBox(src, maxW, maxH).w <= src.w && 1 <= FitToBox(src, maxW, maxH).h <= src.h
    ensures src.w > 0 && src.h > 0 && maxW >= 1 ==> FitToBox(src, maxW, maxH).w <= maxW
    ensures src.w > 0 && src.h > 0 && maxH >= 1 ==> FitToBox(src, maxW, maxH).h <= maxH
  {
    if src.w > 0 && src.h > 0 {
      var scale := FitScale(src.w, src.h, maxW, maxH);
      ScaledSideBounds(src.w, scale, maxW);
      ScaledSideBounds(src.h, scale, maxH);
    }
  }

  /** An image that already fits keeps its size; one that does not fit is shrunk until
      one of its sides meets the box exactly. */
  lemma FitToBoxFills(src: Size, maxW: int, maxH: int)
    requires src.w > 0 && src.h > 0 && maxW >= 1 && maxH >= 1
    ensures src.w <= maxW && src.h <= maxH ==> FitToBox(src, maxW, maxH) == src
    ensures !(src.w <= maxW && src.h <= maxH) ==>
      FitToBox(src, maxW, maxH).w == maxW || FitToBox(src, maxW, maxH).h == maxH
  {
    var scale := FitScale(src.w, src.h, maxW, maxH);
    if src.w <= maxW && src.h <= maxH {
      assert maxW as real / src.w as real >= 1.0;
      assert maxH as real / src.h as real >= 1.0;
      assert scale == 1.0;
    } else {
      assert scale < 1.0 by {
        if src.w > maxW {
          assert maxW as real / src.w as real < 1.0;
        } else {
          assert maxH as real / src.h as real < 1.0;
        }
      }
      if scale == maxW as real / src.w as real {
        ScaledSideExact(src.w, maxW);
      } else {
        ScaledSideExact(src.h, maxH);
      }
    }
  }

  /** Fitting a fitted size into the same box changes nothing. */
  lemma FitToBoxIdempotent(src: Size, maxW: int, maxH: int)
    requires maxW >= 1 && maxH >= 1
    ensures FitToBox(FitToBox(src, maxW, maxH), maxW, maxH) == FitToBox(src, maxW, maxH)
  {
    FitToBoxBounds(src, maxW, maxH);
    var r := FitToBox(src, maxW, maxH);
    if src.w > 0 && src.h > 0 {
      FitToBoxFills(r, maxW, maxH);
    }
  }

  /** `make_square_thumbnail`: the canvas of the given size, the fitted image, and the
      offsets `(size - thumb) // 2` at which it is pasted. */
  function Thumbnail(src: Size, canvas: Size): (p: Placement)
    ensures p.canvas == canvas
    // centred: the right/bottom margin equals the left/top one or exceeds it by one pixel
    ensures 0 <= (canvas.w - p.thumb.w - p.x) - p.x <= 1
    ensures 0 <= (canvas.h - p.thumb.h - p.y) - p.y <= 1
  {
    var thumb := FitToBox(src, canvas.w - ThumbMargin, canvas.h - ThumbMargin);
    Placement(canvas, thumb, (canvas.w - thumb.w) / 2, (canvas.h - thumb.h) / 2)
  }

  /** On a canvas wider and taller than the margin, a thumbnail of a non-degenerate image
      lies wholly inside the canvas with at least half the margin on every side. */
  lemma ThumbnailInside(src: Size, canvas: Size)
    requires src.w > 0 && src.h > 0
    requires canvas.w > ThumbMargin && canvas.h > ThumbMargin
    ensures var p := Thumbnail(src, canvas);
      ThumbMargin / 2 <= p.x && p.x + p.thumb.w + ThumbMargin / 2 <= canvas.w &&
      ThumbMargin / 2 <= p.y && p.y + p.thumb.h + ThumbMargin / 2 <= canvas.h &&
      1 <= p.thumb.w <= src.w && 1 <= p.thumb.h <= src.h
  {
    FitToBoxBounds(src, canvas.w - ThumbMargin, canvas.h - ThumbMargin);
  }

  /** The list thumbnails are 76 by 76 pixels with the image at most 68 by 68. */
  lemma ListThumbnailSize(src: Size)
    requires src.w > 0 && src.h > 0
    ensures var p := Thumbnail(src, Size(ListThumbSide, ListThumbSide));
      p.canvas == Size(76, 76) && p.thumb.w <= 68 && p.thumb.h <= 68 && p.x >= 4 && p.y >= 4
  {
    ThumbnailInside(src, Size(ListThumbSide, ListThumbSide));
    FitToBoxBounds(src, 68, 68);
  }

  /** `show_preview`: the selected page is fitted into the 760 by 560 preview box. */
  function PreviewSize(src: Size): (r: Size)
    ensures src.w > 0 && src.h > 0 ==> 1 <= r.w <= PreviewW && 1 <= r.h <= PreviewH
    ensures src.w > 0 && src.h > 0 ==> r.w <= src.w && r.h <= src.h
  {
    FitToBoxBounds(src, PreviewW, PreviewH);
    FitToBox(src, PreviewW, PreviewH)
  }
}
