/** Adam7_interlace and Adam7_deinterlace move every pixel to its place in its
    pass and back.  Pixels are `u` bytes, or `u` bits when they are smaller. */
module Interlacing {
  import opened Adam7
  import opened Sequences

  // ----- places

  /** The number of the pixel of the image that is pixel (x, y) of pass `i`. */
  function PixelIndex(i: nat, x: nat, y: nat, w: nat): nat
    requires i < 7
  {
    Start(Iy(i) + y * Dy(i), w) + Ix(i) + x * Dx(i)
  }

  lemma PixelFits(i: nat, x: nat, y: nat, w: nat, h: nat)
    requires i < 7 && w > 0 && h > 0 && x < Cols(i, w, h) && y < Rows(i, w, h)
    ensures PixelIndex(i, x, y, w) < Start(h, w)
  {
    hide Ix, Iy, Dx, Dy, Cols, Rows;
    PixelsExact(i, w, h, x, y);
    StartMonotone(Iy(i) + y * Dy(i) + 1, h, w);
  }

  /** The `u` units of pixel `k`. */
  function Pixel<T>(img: seq<T>, k: nat, u: nat): (p: seq<T>)
    requires Start(k + 1, u) <= |img|
    ensures |p| == u
  {
    img[Start(k, u)..Start(k + 1, u)]
  }

  ghost predicate IsImage<T>(img: seq<T>, w: nat, h: nat, u: nat) {
    w > 0 && h > 0 && u > 0 && |img| == Start(Start(h, w), u)
  }

  lemma PixelInImage<T>(img: seq<T>, i: nat, x: nat, y: nat, w: nat, h: nat, u: nat)
    requires IsImage(img, w, h, u) && i < 7 && x < Cols(i, w, h) && y < Rows(i, w, h)
    ensures Start(PixelIndex(i, x, y, w) + 1, u) <= |img|
  {
    hide PixelIndex, Cols, Rows;
    PixelFits(i, x, y, w, h);
    StartMonotone(PixelIndex(i, x, y, w) + 1, Start(h, w), u);
  }

  /** The first `m` pixels of row `y` of pass `i`. */
  ghost function PassRow<T>(img: seq<T>, i: nat, y: nat, m: nat, w: nat, h: nat, u: nat): (r: seq<T>)
    requires IsImage(img, w, h, u) && i < 7 && y < Rows(i, w, h) && m <= Cols(i, w, h)
    ensures |r| == Start(m, u)
  {
    if m == 0 then []
    else
      PixelInImage(img, i, m - 1, y, w, h, u);
      PassRow(img, i, y, m - 1, w, h, u) + Pixel(img, PixelIndex(i, m - 1, y, w), u)
  }

  /** The first `n` rows of pass `i`: the reduced image as it is stored. */
  ghost function PassUnits<T>(img: seq<T>, i: nat, n: nat, w: nat, h: nat, u: nat): (r: seq<T>)
    requires IsImage(img, w, h, u) && i < 7 && n <= Rows(i, w, h)
    ensures |r| == Start(n, Start(Cols(i, w, h), u))
  {
    if n == 0 then []
    else PassUnits(img, i, n - 1, w, h, u) + PassRow(img, i, n - 1, Cols(i, w, h), w, h, u)
  }

  ghost function WholePass<T>(img: seq<T>, i: nat, w: nat, h: nat, u: nat): seq<T>
    requires IsImage(img, w, h, u) && i < 7
  {
    PassUnits(img, i, Rows(i, w, h), w, h, u)
  }

  /** Where pixel (x, y) lies in the stored pass. */
  lemma {:induction false} RowHoldsPixel<T>(img: seq<T>, i: nat, x: nat, y: nat, m: nat, w: nat, h: nat, u: nat)
    requires IsImage(img, w, h, u) && i < 7 && y < Rows(i, w, h) && x < m <= Cols(i, w, h)
    ensures Start(x + 1, u) <= Start(m, u)
    ensures Start(PixelIndex(i, x, y, w) + 1, u) <= |img|
    ensures PassRow(img, i, y, m, w, h, u)[Start(x, u)..Start(x + 1, u)] == Pixel(img, PixelIndex(i, x, y, w), u)
  {
    hide PixelIndex, Pixel, IsImage, Cols, Rows;
    PixelInImage(img, i, m - 1, y, w, h, u);
    if x < m - 1 {
      RowHoldsPixel(img, i, x, y, m - 1, w, h, u);
    }
  }

  lemma {:induction false} UnitsHoldRow<T>(img: seq<T>, i: nat, y: nat, n: nat, w: nat, h: nat, u: nat)
    requires IsImage(img, w, h, u) && i < 7 && y < n <= Rows(i, w, h)
    ensures var line := Start(Cols(i, w, h), u);
            && Start(y + 1, line) <= Start(n, line)
            && PassUnits(img, i, n, w, h, u)[Start(y, line)..Start(y + 1, line)]
                == PassRow(img, i, y, Cols(i, w, h), w, h, u)
  {
    hide PassRow, IsImage, Cols, Rows;
    if y < n - 1 {
      UnitsHoldRow(img, i, y, n - 1, w, h, u);
    }
  }

  lemma UnitsHoldPixel<T>(img: seq<T>, i: nat, x: nat, y: nat, w: nat, h: nat, u: nat) returns (from: nat)
    requires IsImage(img, w, h, u) && i < 7 && x < Cols(i, w, h) && y < Rows(i, w, h)
    ensures from == Start(y, Start(Cols(i, w, h), u)) + Start(x, u) && from + u <= |WholePass(img, i, w, h, u)|
    ensures Start(PixelIndex(i, x, y, w) + 1, u) <= |img|
    ensures WholePass(img, i, w, h, u)[from..from + u] == Pixel(img, PixelIndex(i, x, y, w), u)
  {
    hide PassRow, PassUnits, Pixel, PixelIndex, Cols, Rows;
    var line, all := Start(Cols(i, w, h), u), WholePass(img, i, w, h, u);
    from := Start(y, line) + Start(x, u);
    RowHoldsPixel(img, i, x, y, Cols(i, w, h), w, h, u);
    UnitsHoldRow(img, i, y, Rows(i, w, h), w, h, u);
    var row := all[Start(y, line)..Start(y + 1, line)];
    assert row[Start(x, u)..Start(x + 1, u)] == all[from..from + u]
        by { Nested(all, Start(y, line), Start(y + 1, line), Start(x, u), Start(x + 1, u)); }
  }

  // ----- putting pixels back

  /** What has been put back agrees with the image. */
  ghost predicate PixelBack<T>(out: seq<T>, img: seq<T>, k: nat, u: nat) {
    Start(k + 1, u) <= |out| == |img| && Pixel(out, k, u) == Pixel(img, k, u)
  }

  ghost predicate RowBack<T>(out: seq<T>, img: seq<T>, i: nat, y: nat, m: nat, w: nat, u: nat)
    requires i < 7
  {
    forall x: nat {:trigger PixelIndex(i, x, y, w)} :: x < m ==> PixelBack(out, img, PixelIndex(i, x, y, w), u)
  }

  ghost predicate RowsBack<T>(out: seq<T>, img: seq<T>, i: nat, n: nat, w: nat, h: nat, u: nat)
    requires i < 7 && w > 0 && h > 0
  {
    forall y: nat {:trigger RowBack(out, img, i, y, Cols(i, w, h), w, u)} :: y < n ==>
          RowBack(out, img, i, y, Cols(i, w, h), w, u)
  }

  ghost predicate PassesBack<T>(out: seq<T>, img: seq<T>, n: nat, w: nat, h: nat, u: nat)
    requires n <= 7 && w > 0 && h > 0
  {
    forall i: nat {:trigger Rows(i, w, h)} :: i < n ==> RowsBack(out, img, i, Rows(i, w, h), w, h, u)
  }

  /** Nothing that agreed with the image is lost. */
  ghost predicate Improves<T>(out: seq<T>, out': seq<T>, img: seq<T>) {
    |out'| == |out| == |img| && forall q {:trigger out'[q]} :: 0 <= q < |img| && out[q] == img[q] ==> out'[q] == img[q]
  }

  lemma ImprovesPixel<T>(out: seq<T>, out': seq<T>, img: seq<T>, k: nat, u: nat)
    requires Improves(out, out', img) && PixelBack(out, img, k, u)
    ensures PixelBack(out', img, k, u)
  {
    forall q | Start(k, u) <= q < Start(k + 1, u) ensures out'[q] == img[q] {
      assert Pixel(out, k, u)[q - Start(k, u)] == Pixel(img, k, u)[q - Start(k, u)];
    }
  }

  lemma ImprovesRow<T>(out: seq<T>, out': seq<T>, img: seq<T>, i: nat, y: nat, m: nat, w: nat, u: nat)
    requires i < 7 && Improves(out, out', img) && RowBack(out, img, i, y, m, w, u)
    ensures RowBack(out', img, i, y, m, w, u)
  {
    hide PixelBack, Improves, PixelIndex;
    forall x: nat | x < m ensures PixelBack(out', img, PixelIndex(i, x, y, w), u) {
      ImprovesPixel(out, out', img, PixelIndex(i, x, y, w), u);
    }
  }

  lemma ImprovesRows<T>(out: seq<T>, out': seq<T>, img: seq<T>, i: nat, n: nat, w: nat, h: nat, u: nat)
    requires i < 7 && w > 0 && h > 0 && Improves(out, out', img) && RowsBack(out, img, i, n, w, h, u)
    ensures RowsBack(out', img, i, n, w, h, u)
  {
    hide RowBack, Improves, Cols;
    forall y: nat | y < n ensures RowBack(out', img, i, y, Cols(i, w, h), w, u) {
      ImprovesRow(out, out', img, i, y, Cols(i, w, h), w, u);
    }
  }

  lemma ImprovesPasses<T>(out: seq<T>, out': seq<T>, img: seq<T>, n: nat, w: nat, h: nat, u: nat)
    requires n <= 7 && w > 0 && h > 0 && Improves(out, out', img) && PassesBack(out, img, n, w, h, u)
    ensures PassesBack(out', img, n, w, h, u)
  {
    hide RowsBack, Improves, Rows;
    forall i: nat | i < n ensures RowsBack(out', img, i, Rows(i, w, h), w, h, u) {
      ImprovesRows(out, out', img, i, Rows(i, w, h), w, h, u);
    }
  }

  /** Writing one pixel of the image improves the output. */
  lemma PixelWritten<T>(out: seq<T>, img: seq<T>, k: nat, u: nat)
    requires |out| == |img| && Start(k + 1, u) <= |img|
    ensures Improves(out, Written(out, Start(k, u), Pixel(img, k, u)), img)
    ensures PixelBack(Written(out, Start(k, u), Pixel(img, k, u)), img, k, u)
  {
    var out' := Written(out, Start(k, u), Pixel(img, k, u));
    forall q | 0 <= q < |img| && out[q] == img[q] ensures out'[q] == img[q] {
      WrittenReads(out, Start(k, u), Pixel(img, k, u), q);
    }
    assert out'[Start(k, u)..Start(k + 1, u)] == Pixel(img, k, u);
  }

  lemma AllPixelsBack<T>(out: seq<T>, img: seq<T>, w: nat, h: nat, u: nat, q: nat)
    requires IsImage(img, w, h, u) && PassesBack(out, img, 7, w, h, u) && q < |img| == |out|
    ensures out[q] == img[q]
  {
    var k := Piece(q, Start(h, w), u);
    var Y := Piece(k, h, w);
    var X := k - Start(Y, w);
    var i, x, y := PassesPartition(w, h, X, Y);
    hide Ix, Iy, Dx, Dy, Cols, Rows;
    assert RowsBack(out, img, i, Rows(i, w, h), w, h, u);
    assert RowBack(out, img, i, y, Cols(i, w, h), w, u);
    assert PixelIndex(i, x, y, w) == k;
    assert PixelBack(out, img, k, u);
    assert Pixel(out, k, u)[q - Start(k, u)] == Pixel(img, k, u)[q - Start(k, u)];
  }

  /** When all seven passes are back the whole image is. */
  lemma WholeImageBack<T>(out: seq<T>, img: seq<T>, w: nat, h: nat, u: nat)
    requires IsImage(img, w, h, u) && PassesBack(out, img, 7, w, h, u) && |out| == |img|
    ensures out == img
  {
    hide PassesBack, IsImage;
    forall q: nat | q < |img| ensures out[q] == img[q] { AllPixelsBack(out, img, w, h, u, q); }
  }
}
