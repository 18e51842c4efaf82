/** The part of the 2D canvas context the identicon uses: a size-by-size
    buffer in which every pixel is either clear (transparent) or painted with
    the one foreground colour, and the rectangle operations `clearRect` and
    `fillRect`, clipped to the canvas. `canvas[px, py]` is the pixel in
    column `px` and row `py`. */
module Canvas {
  /** An axis-aligned rectangle: its top-left corner and its extent. */
  datatype Rect = Rect(x: nat, y: nat, w: nat, h: nat)

  predicate InRect(r: Rect, px: int, py: int)
  {
    r.x <= px < r.x + r.w && r.y <= py < r.y + r.h
  }

  /** Whether some rectangle of `rects` covers the pixel. */
  predicate Covered(rects: seq<Rect>, px: int, py: int)
    decreases |rects|
  {
    rects != [] && (Covered(rects[..|rects| - 1], px, py) || InRect(rects[|rects| - 1], px, py))
  }

  /** Painting one more rectangle adds exactly the pixels it contains. */
  lemma CoveredSnoc(rects: seq<Rect>, r: Rect, px: int, py: int)
    ensures Covered(rects + [r], px, py) <==> Covered(rects, px, py) || InRect(r, px, py)
  {
    assert (rects + [r])[..|rects|] == rects;
  }

  /** Painting the same rectangle twice in a row covers nothing more than
      painting it once. */
  lemma RepaintIdempotent(rects: seq<Rect>, r: Rect, px: int, py: int)
    ensures Covered(rects + [r] + [r], px, py) <==> Covered(rects + [r], px, py)
  {
    CoveredSnoc(rects + [r], r, px, py);
    CoveredSnoc(rects, r, px, py);
  }

  /** A pixel is covered exactly when one of the rectangles contains it. */
  lemma {:induction false} CoveredIff(rects: seq<Rect>, px: int, py: int)
    ensures Covered(rects, px, py) <==> exists i :: 0 <= i < |rects| && InRect(rects[i], px, py)
    decreases |rects|
  {
    if rects != [] {
      var prev := rects[..|rects| - 1];
      CoveredIff(prev, px, py);
      if Covered(rects, px, py) {
        if Covered(prev, px, py) {
          var i :| 0 <= i < |prev| && InRect(prev[i], px, py);
          assert rects[i] == prev[i];
        } else {
          assert InRect(rects[|rects| - 1], px, py);
        }
      } else {
        forall i | 0 <= i < |rects|
          ensures !InRect(rects[i], px, py)
        {
          if i < |prev| {
            assert rects[i] == prev[i];
          }
        }
      }
    }
  }

  function Min(a: nat, b: nat): nat
  {
    if a < b then a else b
  }

  /** `fillRect(r)` when `ink` holds, `clearRect(r)` otherwise: every pixel of
      the canvas inside `r` takes the new value, every other pixel keeps its
      value, and the part of `r` beyond the canvas is clipped away. */
  method PaintRect(canvas: array2<bool>, r: Rect, ink: bool)
    modifies canvas
    ensures forall px, py :: 0 <= px < canvas.Length0 && 0 <= py < canvas.Length1 ==>
      canvas[px, py] == if InRect(r, px, py) then ink else old(canvas[px, py])
  {
    var x0, x1 := Min(r.x, canvas.Length0), Min(r.x + r.w, canvas.Length0);
    var y0, y1 := Min(r.y, canvas.Length1), Min(r.y + r.h, canvas.Length1);
    for px := x0 to x1
      invariant forall i, j :: 0 <= i < canvas.Length0 && 0 <= j < canvas.Length1 ==>
        canvas[i, j] == if InRect(r, i, j) && i < px then ink else old(canvas[i, j])
    {
      for py := y0 to y1
        invariant forall i, j :: 0 <= i < canvas.Length0 && 0 <= j < canvas.Length1 ==>
          canvas[i, j] == if InRect(r, i, j) && (i < px || (i == px && j < py)) then ink else old(canvas[i, j])
      {
        canvas[px, py] := ink;
      }
    }
  }
}
