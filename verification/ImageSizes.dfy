/** The sizes of an image as the decoder computes them, in 32-bit words that
    wrap around, and exactly when they are the true sizes. */
module ImageSizes {
  import opened Adam7
  import opened Unsigned32

  /** The largest number of pixels that decodeGeneric accepts. */
  const MAX_PIXELS := 268435455

  // ----- the guard of decodeGeneric

  /** Both tests of error 92, on the wrapped product. */
  predicate PixelsAccepted(w: word, h: word)
    requires h > 0
  {
    var numpixels := Wrapped(w * h);
    numpixels / h == w && numpixels <= MAX_PIXELS
  }

  lemma QuotientBelow(a: nat, w: nat, h: nat)
    requires h > 0 && a < w * h
    ensures a / h < w
  {
    var q := a / h;
    assert q * h <= a;
    if w <= q { MulAtMost(w, q, h, h); }
  }

  lemma QuotientOfProduct(w: nat, h: nat)
    requires h > 0
    ensures (w * h) / h == w
  {
    QuotientBelow(w * h, w + 1, h);
    var q := (w * h) / h;
    assert w * h < q * h + h;
    if q < w { MulAtMost(q + 1, w, h, h); }
  }

  lemma MulAtMost(a: nat, b: nat, c: nat, d: nat)
    requires a <= b && c <= d
    ensures a * c <= b * d
  {
    assert a * c <= b * c;
    assert b * c <= b * d;
  }

  /** The guard finds every overflow of the product. */
  lemma GuardIsExact(w: word, h: word)
    requires h > 0
    ensures PixelsAccepted(w, h) <==> w * h <= MAX_PIXELS
  {
    WrappedDrops(w * h);
    hide Wrapped;
    if w * h >= WORD {
      QuotientBelow(Wrapped(w * h), w, h);
    } else {
      QuotientOfProduct(w, h);
    }
  }

  // ----- the sizes in words

  /** lodepng_get_raw_size */
  function RawSizeWord(w: word, h: word, bpp: nat): word {
    Wrapped(Wrapped(Wrapped(w * h) * bpp) + 7) / 8
  }

  /** The bytes of a row as they are computed. */
  function RowBytesWord(cols: word, bpp: nat): word {
    Wrapped(Wrapped(cols * bpp) + 7) / 8
  }

  /** lodepng_get_raw_size_idat, with the filter bytes decodeGeneric adds. */
  function IdatSizeWord(w: word, h: word, bpp: nat): nat {
    Wrapped(h * RowBytesWord(w, bpp)) + h
  }

  function PredictedPassWord(i: nat, w: word, h: word, bpp: nat): nat
    requires i < 7 && w <= MAX_PIXELS && h <= MAX_PIXELS
  {
    if i == 0 then IdatSizeWord((w + 7) / 8, (h + 7) / 8, bpp)
    else if i == 1 then if w > 4 then IdatSizeWord((w + 3) / 8, (h + 7) / 8, bpp) else 0
    else if i == 2 then IdatSizeWord((w + 3) / 4, (h + 3) / 8, bpp)
    else if i == 3 then if w > 2 then IdatSizeWord((w + 1) / 4, (h + 3) / 4, bpp) else 0
    else if i == 4 then IdatSizeWord((w + 1) / 2, (h + 1) / 4, bpp)
    else if i == 5 then if w > 1 then IdatSizeWord(w / 2, (h + 1) / 2, bpp) else 0
    else IdatSizeWord(w, h / 2, bpp)
  }

  function PredictedWord(w: word, h: word, bpp: nat): nat
    requires w <= MAX_PIXELS && h <= MAX_PIXELS
  {
    PredictedPassWord(0, w, h, bpp) + PredictedPassWord(1, w, h, bpp) + PredictedPassWord(2, w, h, bpp)
    + PredictedPassWord(3, w, h, bpp) + PredictedPassWord(4, w, h, bpp) + PredictedPassWord(5, w, h, bpp)
    + PredictedPassWord(6, w, h, bpp)
  }

  /** The bits of a row, and room to round up, fit in a word. */
  predicate RowFits(cols: nat, bpp: nat) {
    cols * bpp + 7 < WORD
  }

  // ----- the size of the pixels

  /** With an accepted number of pixels the size is right if and only if the
      bits can be counted in a word. */
  lemma RawSizeExact(w: word, h: word, bpp: nat)
    requires w * h <= MAX_PIXELS
    ensures RawSizeWord(w, h, bpp) == FlatBytes(h, w, bpp) <==> w * h * bpp + 7 < WORD
  {
    assert h * w == w * h;
    var bits := w * h * bpp;
    WrappedDrops(w * h);
    WrappedDrops(bits);
    WrappedDrops(Wrapped(bits) + 7);
    hide Wrapped;
    assert FlatBytes(h, w, bpp) == (bits + 7) / 8;
  }

  /** An image of 8192 by 8192 pixels of 64 bits is accepted, although its size
      comes out as zero. */
  lemma AcceptedButWrapped()
    ensures PixelsAccepted(8192, 8192)
    ensures RawSizeWord(8192, 8192, 64) == 0 && FlatBytes(8192, 8192, 64) == 0x2000_0000
  {
    assert 8192 * 8192 == 0x400_0000;
    assert 0x400_0000 * 64 == WORD;
  }

  // ----- the size of the rows with their filter bytes

  lemma RowsFit(w: nat, h: nat, bpp: nat)
    requires w * h <= MAX_PIXELS && h <= MAX_PIXELS && bpp <= 64
    ensures h * RowBytes(w, bpp) < WORD
  {
    var rb := RowBytes(w, bpp);
    assert 8 * rb <= w * bpp + 7;
    assert h * (8 * rb) <= h * (w * bpp + 7);
    assert h * (w * bpp + 7) == (w * h) * bpp + 7 * h;
    assert (w * h) * bpp <= MAX_PIXELS * 64 by { MulAtMost(w * h, MAX_PIXELS, bpp, 64); }
  }

  /** Wrapped row bytes are at most the true ones, and at most those of the bits. */
  lemma RowBytesWordBounds(cols: word, bpp: nat)
    ensures RowBytesWord(cols, bpp) <= RowBytes(cols, bpp) && RowBytesWord(cols, bpp) < WORD / 8
    ensures RowBytesWord(cols, bpp) == RowBytes(cols, bpp) <==> RowFits(cols, bpp)
  {
    WrappedDrops(cols * bpp);
    WrappedDrops(Wrapped(cols * bpp) + 7);
    assert RowBytesWord(cols, bpp) < WORD / 8;
    hide Wrapped;
  }

  /** The words never overstate the size, and are right if and only if there is
      no row or a row fits. */
  lemma IdatSizeExact(w: word, h: word, bpp: nat)
    requires w * h <= MAX_PIXELS && h <= MAX_PIXELS && bpp <= 64
    ensures IdatSizeWord(w, h, bpp) <= RawSize(w, h, bpp)
    ensures IdatSizeWord(w, h, bpp) == RawSize(w, h, bpp) <==> h == 0 || RowFits(w, bpp)
  {
    RowsFit(w, h, bpp);
    var bytes := RowBytesWord(w, bpp);
    RowBytesWordBounds(w, bpp);
    hide Wrapped, RowBytesWord, RowBytes, RowFits;
    assert h * bytes <= h * RowBytes(w, bpp) by { MulAtMost(h, h, bytes, RowBytes(w, bpp)); }
    WrappedDrops(h * bytes);
    if h > 0 && bytes < RowBytes(w, bpp) {
      assert h * (bytes + 1) <= h * RowBytes(w, bpp) by { MulAtMost(h, h, bytes + 1, RowBytes(w, bpp)); }
      assert h * (bytes + 1) == h * bytes + h;
    }
  }

  lemma Smaller(w: nat, h: nat, cols: nat, rows: nat)
    requires w * h <= MAX_PIXELS && w > 0 && h > 0 && cols <= w && rows <= h
    ensures cols * rows <= MAX_PIXELS && w <= MAX_PIXELS && h <= MAX_PIXELS
  {
    MulAtMost(cols, w, rows, h);
    MulAtMost(1, w, h, h);
    MulAtMost(w, w, 1, h);
  }

  predicate PassFits(i: nat, w: nat, h: nat, bpp: nat)
    requires i < 7 && w > 0 && h > 0
  {
    RawRows(i, h) == 0 || RowFits(RawCols(i, w), bpp)
  }

  lemma PassWordExact(i: nat, w: word, h: word, bpp: nat)
    requires i < 7 && w > 0 && h > 0 && w * h <= MAX_PIXELS && bpp <= 64
    ensures w <= MAX_PIXELS && h <= MAX_PIXELS
    ensures PredictedPassWord(i, w, h, bpp) <= PredictedPass(i, w, h, bpp)
    ensures PredictedPassWord(i, w, h, bpp) == PredictedPass(i, w, h, bpp) <==> PassFits(i, w, h, bpp)
  {
    hide IdatSizeWord, RawSize, RawCols, RawRows, RowFits;
    PassExtents(w, h);
    ExtentsInside(i, w, h);
    var cols, rows := RawCols(i, w), RawRows(i, h);
    Smaller(w, h, cols, rows);
    IdatSizeExact(cols, rows, bpp);
    NoColumns(bpp);
    TermOfPass(i, w, h, bpp);
  }

  lemma ExtentsInside(i: nat, w: nat, h: nat)
    requires i < 7 && w > 0 && h > 0
    ensures RawCols(i, w) <= w && RawRows(i, h) <= h
  {
  }

  /** Each term of the prediction is about the extents of its pass. */
  lemma TermOfPass(i: nat, w: word, h: word, bpp: nat)
    requires i < 7 && 0 < w <= MAX_PIXELS && 0 < h <= MAX_PIXELS
    requires RawCols(i, w) <= w && RawRows(i, h) <= h
    ensures RawCols(i, w) > 0 ==> PredictedPassWord(i, w, h, bpp) == IdatSizeWord(RawCols(i, w), RawRows(i, h), bpp)
                                  && PredictedPass(i, w, h, bpp) == RawSize(RawCols(i, w), RawRows(i, h), bpp)
    ensures RawCols(i, w) == 0 ==> PredictedPassWord(i, w, h, bpp) == PredictedPass(i, w, h, bpp) == 0
  {
    hide IdatSizeWord, RawSize, RawCols, RawRows;
    PassExtents(w, h);
  }

  lemma NoColumns(bpp: nat)
    ensures RowFits(0, bpp)
  {
  }

  /** When the bits of the image fit, so does every product that
      Adam7_getpassvalues computes. */
  lemma PassValuesFit(i: nat, w: word, h: word, bpp: nat)
    requires i < 7 && w > 0 && h > 0 && w * h <= MAX_PIXELS && bpp <= 64
    requires w * h * bpp + 7 < WORD
    ensures PassFits(i, w, h, bpp) && RowFits(Cols(i, w, h), bpp)
    ensures Rows(i, w, h) * (1 + RowBytes(Cols(i, w, h), bpp)) < WORD
    ensures Rows(i, w, h) * Cols(i, w, h) * bpp + 7 < WORD
  {
    hide RawCols, RawRows, RowBytes;
    ExtentsInside(i, w, h);
    var cols, rows := Cols(i, w, h), Rows(i, w, h);
    Smaller(w, h, cols, rows);
    RowsTogether(w, h, cols, rows, bpp);
    if RawRows(i, h) > 0 { RowsTogether(w, h, RawCols(i, w), 1, bpp); }
  }

  lemma RowsTogether(w: nat, h: nat, cols: nat, rows: nat, bpp: nat)
    requires w > 0 && h > 0 && w * h <= MAX_PIXELS && bpp <= 64 && w * h * bpp + 7 < WORD
    requires cols <= w && rows <= h
    ensures RowFits(cols, bpp) && rows * (1 + RowBytes(cols, bpp)) < WORD && rows * cols * bpp + 7 < WORD
  {
    Smaller(w, h, cols, rows);
    MulAtMost(cols, w, rows, h);
    MulAtMost(cols, w, 1, h);
    assert rows * cols == cols * rows;
    MulAtMost(cols * rows, w * h, bpp, bpp);
    MulAtMost(cols, w * h, bpp, bpp);
    RowsFit(cols, rows, bpp);
    var rb := RowBytes(cols, bpp);
    RowsAndFilters(cols, rows, bpp, rb);
  }

  lemma RowsAndFilters(cols: nat, rows: nat, bpp: nat, rb: nat)
    requires cols * rows * bpp + 7 < WORD && rows <= MAX_PIXELS && 8 * rb <= cols * bpp + 7
    ensures rows * (1 + rb) < WORD
  {
    assert rows * (8 * rb) <= rows * (cols * bpp + 7) by { MulAtMost(rows, rows, 8 * rb, cols * bpp + 7); }
    assert rows * (cols * bpp + 7) == (cols * rows) * bpp + 7 * rows;
    assert rows * (1 + rb) == rows + rows * rb;
    assert rows * (8 * rb) == 8 * (rows * rb);
  }

  /** The prediction for an interlaced image is the true size if and only if the
      rows of all passes fit. */
  lemma PredictionFits(w: word, h: word, bpp: nat)
    requires w > 0 && h > 0 && w * h <= MAX_PIXELS && bpp <= 64
    ensures w <= MAX_PIXELS && h <= MAX_PIXELS
    ensures PredictedWord(w, h, bpp) == FilterStart(7, w, h, bpp) <==> forall i: nat :: i < 7 ==> PassFits(i, w, h, bpp)
  {
    hide PredictedPassWord, PredictedPass, PassFits, FilterStart;
    PredictionIsExact(w, h, bpp);
    PassWordExact(0, w, h, bpp);
    PassWordExact(1, w, h, bpp);
    PassWordExact(2, w, h, bpp);
    PassWordExact(3, w, h, bpp);
    PassWordExact(4, w, h, bpp);
    PassWordExact(5, w, h, bpp);
    PassWordExact(6, w, h, bpp);
  }
}
