/** The sizes that the encoder computes, in 32-bit words like those of the
    decoder.  For an image the decoder accepts both always agree, right or wrong. */
module EncoderSizes {
  import opened Adam7
  import opened ImageSizes
  import opened Sequences
  import opened Unsigned32

  // ----- without interlacing

  /** outsize of preProcessScanlines. */
  function EncodedSizeWord(w: word, h: word, bpp: nat): word {
    Wrapped(h + Wrapped(h * RowBytesWord(w, bpp)))
  }

  /** The rows of an accepted image, or of a part of it, with one byte more each. */
  lemma RowsOfAccepted(w: nat, h: nat, bpp: nat)
    requires w * h <= MAX_PIXELS && h <= MAX_PIXELS && bpp <= 64
    ensures 8 * (h * (1 + RowBytes(w, bpp))) <= (w * h) * bpp + 15 * h
    ensures h * (1 + RowBytes(w, bpp)) < WORD
  {
    var rb := RowBytes(w, bpp);
    assert 8 * rb <= w * bpp + 7;
    MulAtMost(h, h, 8 * rb, w * bpp + 7);
    assert h * (w * bpp + 7) == (w * h) * bpp + 7 * h;
    assert h * (8 * rb) == 8 * (h * rb);
    assert h * (1 + rb) == h + h * rb;
    MulAtMost(w * h, MAX_PIXELS, bpp, 64);
  }

  lemma WordRowsOfAccepted(w: word, h: word, bpp: nat)
    requires w * h <= MAX_PIXELS && h <= MAX_PIXELS && bpp <= 64
    ensures h * (1 + RowBytesWord(w, bpp)) == h + h * RowBytesWord(w, bpp) < WORD
  {
    RowsOfAccepted(w, h, bpp);
    RowBytesWordBounds(w, bpp);
    MulAtMost(h, h, 1 + RowBytesWord(w, bpp), 1 + RowBytes(w, bpp));
    assert h * (1 + RowBytesWord(w, bpp)) == h + h * RowBytesWord(w, bpp);
  }

  /** The encoder's size is the decoder's prediction, even where both are wrong. */
  lemma PlainSizesAgree(w: word, h: word, bpp: nat)
    requires w > 0 && h > 0 && w * h <= MAX_PIXELS && bpp <= 64
    ensures EncodedSizeWord(w, h, bpp) == IdatSizeWord(w, h, bpp)
  {
    Smaller(w, h, w, h);
    WordRowsOfAccepted(w, h, bpp);
    WrappedDrops(h * RowBytesWord(w, bpp));
    WrappedDrops(h + h * RowBytesWord(w, bpp));
    hide Wrapped;
  }

  /** It is the true size if and only if a row and all rows together fit. */
  lemma EncodedSizeExact(w: word, h: word, bpp: nat)
    requires h > 0
    ensures PlainWordsRight(w, h, bpp)
       <==> RowFits(w, bpp) && h * (1 + RowBytes(w, bpp)) < WORD
  {
    var b, rb := RowBytesWord(w, bpp), RowBytes(w, bpp);
    RowBytesWordBounds(w, bpp);
    assert h * (1 + b) == h + h * b && h * (1 + rb) == h + h * rb;
    MulAtMost(h, h, b, rb);
    if b < rb {
      MulAtMost(h, h, b + 1, rb);
      assert h * (b + 1) == h * b + h;
    }
    WrappedDrops(h * b);
    WrappedDrops(h + Wrapped(h * b));
    hide Wrapped, RowBytes, RowBytesWord;
  }

  // ----- the numbers of the passes

  function ColsWord(i: nat, w: word): word
    requires i < 7
  {
    Wrapped(w + Dx(i) - Ix(i) - 1) / Dx(i)
  }

  function RowsWord(i: nat, h: word): word
    requires i < 7
  {
    Wrapped(h + Dy(i) - Iy(i) - 1) / Dy(i)
  }

  function PassColsWord(i: nat, w: word, h: word): word
    requires i < 7
  {
    if RowsWord(i, h) == 0 then 0 else ColsWord(i, w)
  }

  function PassRowsWord(i: nat, w: word, h: word): word
    requires i < 7
  {
    if ColsWord(i, w) == 0 then 0 else RowsWord(i, h)
  }

  /** What pass `i` adds to filter_passstart, padded_passstart and passstart. */
  function FilterTermWord(cols: word, rows: word, bpp: nat): word {
    if cols > 0 && rows > 0 then Wrapped(rows * (1 + RowBytesWord(cols, bpp))) else 0
  }

  function PaddedTermWord(cols: word, rows: word, bpp: nat): word {
    Wrapped(rows * RowBytesWord(cols, bpp))
  }

  function FlatTermWord(cols: word, rows: word, bpp: nat): word {
    Wrapped(Wrapped(Wrapped(rows * cols) * bpp) + 7) / 8
  }

  function FilterStartWord(i: nat, w: word, h: word, bpp: nat): nat
    requires i <= 7
  {
    if i == 0 then 0
    else FilterStartWord(i - 1, w, h, bpp) + FilterTermWord(PassColsWord(i - 1, w, h), PassRowsWord(i - 1, w, h), bpp)
  }

  function PaddedStartWord(i: nat, w: word, h: word, bpp: nat): nat
    requires i <= 7
  {
    if i == 0 then 0
    else PaddedStartWord(i - 1, w, h, bpp) + PaddedTermWord(PassColsWord(i - 1, w, h), PassRowsWord(i - 1, w, h), bpp)
  }

  function PassStartWord(i: nat, w: word, h: word, bpp: nat): nat
    requires i <= 7
  {
    if i == 0 then 0
    else PassStartWord(i - 1, w, h, bpp) + FlatTermWord(PassColsWord(i - 1, w, h), PassRowsWord(i - 1, w, h), bpp)
  }

  ghost predicate ArePassWords(v: PassValues, w: word, h: word, bpp: nat) {
    && |v.passw| == |v.passh| == 7 && |v.filterStart| == |v.paddedStart| == |v.start| == 8
    && (forall i :: 0 <= i < 7 ==> v.passw[i] == PassColsWord(i, w, h) && v.passh[i] == PassRowsWord(i, w, h))
    && (forall i :: 0 <= i < 8 ==>
          && v.filterStart[i] == FilterStartWord(i, w, h, bpp)
          && v.paddedStart[i] == PaddedStartWord(i, w, h, bpp)
          && v.start[i] == PassStartWord(i, w, h, bpp))
  }

  method GetExtentWords(w: word, h: word) returns (passw: seq<word>, passh: seq<word>)
    ensures |passw| == |passh| == 7
    ensures forall i :: 0 <= i < 7 ==> passw[i] == PassColsWord(i, w, h) && passh[i] == PassRowsWord(i, w, h)
  {
    hide ColsWord, RowsWord, Wrapped;
    passw, passh := [], [];
    for i := 0 to 7
      invariant |passw| == |passh| == i
      invariant forall j :: 0 <= j < i ==> passw[j] == PassColsWord(j, w, h) && passh[j] == PassRowsWord(j, w, h)
    {
      var pw, ph := ColsWord(i, w), RowsWord(i, h);
      if pw == 0 { ph := 0; }
      if ph == 0 { pw := 0; }
      passw := passw + [pw];
      passh := passh + [ph];
    }
  }

  lemma NextStartWords(i: nat, w: word, h: word, bpp: nat)
    requires i < 7
    ensures FilterStartWord(0, w, h, bpp) == PaddedStartWord(0, w, h, bpp) == PassStartWord(0, w, h, bpp) == 0
    ensures FilterStartWord(i + 1, w, h, bpp) == FilterStartWord(i, w, h, bpp)
              + FilterTermWord(PassColsWord(i, w, h), PassRowsWord(i, w, h), bpp)
    ensures PaddedStartWord(i + 1, w, h, bpp) == PaddedStartWord(i, w, h, bpp)
              + PaddedTermWord(PassColsWord(i, w, h), PassRowsWord(i, w, h), bpp)
    ensures PassStartWord(i + 1, w, h, bpp) == PassStartWord(i, w, h, bpp)
              + FlatTermWord(PassColsWord(i, w, h), PassRowsWord(i, w, h), bpp)
  {
  }

  /** Adam7_getpassvalues in words. */
  method GetPassWords(w: word, h: word, bpp: nat) returns (v: PassValues)
    ensures ArePassWords(v, w, h, bpp)
  {
    hide PassColsWord, PassRowsWord, Wrapped, FilterTermWord, PaddedTermWord, FlatTermWord, FilterStartWord,
      PaddedStartWord, PassStartWord;
    var passw, passh := GetExtentWords(w, h);
    var filter: seq<nat>, padded: seq<nat>, start: seq<nat> := [0], [0], [0];
    NextStartWords(0, w, h, bpp);
    for i := 0 to 7
      invariant |filter| == |padded| == |start| == i + 1
      invariant forall j :: 0 <= j <= i ==>
                  && filter[j] == FilterStartWord(j, w, h, bpp) && padded[j] == PaddedStartWord(j, w, h, bpp)
                  && start[j] == PassStartWord(j, w, h, bpp)
    {
      NextStartWords(i, w, h, bpp);
      filter := filter + [filter[i] + FilterTermWord(passw[i], passh[i], bpp)];
      padded := padded + [padded[i] + PaddedTermWord(passw[i], passh[i], bpp)];
      start := start + [start[i] + FlatTermWord(passw[i], passh[i], bpp)];
    }
    v := PassValues(passw, passh, filter, padded, start);
  }

  // ----- when they are right

  /** Where Adam7_interlace reads pixel `k` of the image: the number of the pixel,
      or of its first bit, is computed in a word; bytes are counted in a wider type. */
  function PlaceUnit(bpp: nat): nat {
    if bpp < 8 then bpp else 1
  }

  function PlaceWord(k: nat, bpp: nat): word {
    Wrapped(k * PlaceUnit(bpp))
  }

  ghost predicate PlacesRight(w: nat, h: nat, bpp: nat) {
    forall k: nat :: k < w * h ==> PlaceWord(k, bpp) == k * PlaceUnit(bpp)
  }

  /** The last pixel decides. */
  lemma PlacesExact(w: nat, h: nat, bpp: nat)
    requires w > 0 && h > 0
    ensures w * h > 0
    ensures PlacesRight(w, h, bpp) <==> (w * h - 1) * PlaceUnit(bpp) < WORD
  {
    hide PlaceUnit;
    MulAtMost(1, w, 1, h);
    var last, u := w * h - 1, PlaceUnit(bpp);
    WrappedDrops(last * u);
    if last * u < WORD {
      forall k: nat | k < w * h ensures PlaceWord(k, bpp) == k * u {
        MulAtMost(k, last, u, u);
        WrappedDrops(k * u);
      }
    } else {
      assert PlaceWord(last, bpp) != last * u;
    }
  }

  /** No number of any pass has wrapped around, and neither have the places of the
      pixels. */
  ghost predicate PassWordsRight(w: word, h: word, bpp: nat)
    requires w > 0 && h > 0
  {
    && (forall v :: ArePassWords(v, w, h, bpp) ==> PassValuesOk(v, w, h, bpp))
    && PlacesRight(w, h, bpp)
  }

  predicate PlainWordsRight(w: word, h: word, bpp: nat) {
    EncodedSizeWord(w, h, bpp) == h * (1 + RowBytes(w, bpp))
  }

  /** The encoder computes what it means to. */
  ghost predicate EncoderRight(w: word, h: word, bpp: nat, interlaced: bool)
    requires w > 0 && h > 0
  {
    if interlaced then PassWordsRight(w, h, bpp) else PlainWordsRight(w, h, bpp)
  }

  lemma OnlyPassWords(v: PassValues, w: word, h: word, bpp: nat)
    requires w > 0 && h > 0 && ArePassWords(v, w, h, bpp)
    ensures PassValuesOk(v, w, h, bpp) <==> forall v' :: ArePassWords(v', w, h, bpp) ==> PassValuesOk(v', w, h, bpp)
  {
    hide PassColsWord, PassRowsWord, FilterStartWord, PaddedStartWord, PassStartWord, PassValuesOk;
    forall v' | ArePassWords(v', w, h, bpp) ensures v' == v {
      assert v'.passw == v.passw && v'.passh == v.passh && v'.filterStart == v.filterStart;
      assert v'.paddedStart == v.paddedStart && v'.start == v.start;
    }
  }

  lemma SamePassValues(v: PassValues, u: PassValues, w: nat, h: nat, bpp: nat)
    requires w > 0 && h > 0 && PassValuesOk(u, w, h, bpp)
    ensures PassValuesOk(v, w, h, bpp) <==> v == u
  {
    hide Cols, Rows, FilterStart, PaddedStart, PassStart;
    if PassValuesOk(v, w, h, bpp) {
      assert v.passw == u.passw && v.passh == u.passh && v.filterStart == u.filterStart;
      assert v.paddedStart == u.paddedStart && v.start == u.start;
    }
  }

  /** The encoder's numbers, and whether they are the true ones. */
  method CheckEncoder(w: word, h: word, bpp: nat, interlaced: bool) returns (right: bool)
    requires w > 0 && h > 0
    ensures right == EncoderRight(w, h, bpp, interlaced)
  {
    hide ArePassWords, PassValuesOk, EncodedSizeWord, PlacesRight, PlaceUnit;
    if interlaced {
      var v := GetPassWords(w, h, bpp);
      var u := GetPassValues(w, h, bpp);
      OnlyPassWords(v, w, h, bpp);
      SamePassValues(v, u, w, h, bpp);
      PlacesExact(w, h, bpp);
      right := v == u && (w * h - 1) * PlaceUnit(bpp) < WORD;
    } else {
      right := PlainWordsRight(w, h, bpp);
    }
  }

  // ----- accepted images

  lemma ExtentsAreRight(i: nat, w: word, h: word)
    requires i < 7 && 0 < w <= MAX_PIXELS && 0 < h <= MAX_PIXELS
    ensures ColsWord(i, w) == RawCols(i, w) && RowsWord(i, h) == RawRows(i, h)
    ensures PassColsWord(i, w, h) == Cols(i, w, h) && PassRowsWord(i, w, h) == Rows(i, w, h)
  {
    WrappedDrops(w + Dx(i) - Ix(i) - 1);
    WrappedDrops(h + Dy(i) - Iy(i) - 1);
    hide Wrapped;
  }

  /** A pass takes up as much as the decoder predicts for it. */
  lemma PassTermsAgree(i: nat, w: word, h: word, bpp: nat)
    requires i < 7 && w > 0 && h > 0 && w * h <= MAX_PIXELS && bpp <= 64
    ensures w <= MAX_PIXELS && h <= MAX_PIXELS
    ensures FilterTermWord(PassColsWord(i, w, h), PassRowsWord(i, w, h), bpp) == PredictedPassWord(i, w, h, bpp)
  {
    hide RawCols, RawRows, PredictedPassWord, ColsWord, RowsWord, PassColsWord, PassRowsWord;
    Smaller(w, h, w, h);
    ExtentsInside(i, w, h);
    ExtentsAreRight(i, w, h);
    var cols, rows := RawCols(i, w), RawRows(i, h);
    Smaller(w, h, cols, rows);
    TermOfPass(i, w, h, bpp);
    if cols > 0 && rows > 0 {
      WordRowsOfAccepted(cols, rows, bpp);
      WrappedDrops(rows * RowBytesWord(cols, bpp));
      WrappedDrops(rows * (1 + RowBytesWord(cols, bpp)));
    }
    hide RowBytesWord;
    if rows == 0 { NoRows(cols, bpp); }
  }

  lemma NoRows(cols: word, bpp: nat)
    ensures IdatSizeWord(cols, 0, bpp) == 0
  {
    hide RowBytesWord;
    assert 0 * RowBytesWord(cols, bpp) == 0;
  }

  lemma PassSizesAgree(w: word, h: word, bpp: nat)
    requires w > 0 && h > 0 && w * h <= MAX_PIXELS && bpp <= 64
    ensures w <= MAX_PIXELS && h <= MAX_PIXELS
    ensures FilterStartWord(7, w, h, bpp) == PredictedWord(w, h, bpp)
  {
    hide FilterTermWord, PassColsWord, PassRowsWord, PredictedPassWord;
    PassTermsAgree(0, w, h, bpp);
    PassTermsAgree(1, w, h, bpp);
    PassTermsAgree(2, w, h, bpp);
    PassTermsAgree(3, w, h, bpp);
    PassTermsAgree(4, w, h, bpp);
    PassTermsAgree(5, w, h, bpp);
    PassTermsAgree(6, w, h, bpp);
    SevenTerms(w, h, bpp);
  }

  lemma SevenTerms(w: word, h: word, bpp: nat)
    ensures FilterStartWord(7, w, h, bpp) ==
              FilterTermWord(PassColsWord(0, w, h), PassRowsWord(0, w, h), bpp)
              + FilterTermWord(PassColsWord(1, w, h), PassRowsWord(1, w, h), bpp)
              + FilterTermWord(PassColsWord(2, w, h), PassRowsWord(2, w, h), bpp)
              + FilterTermWord(PassColsWord(3, w, h), PassRowsWord(3, w, h), bpp)
              + FilterTermWord(PassColsWord(4, w, h), PassRowsWord(4, w, h), bpp)
              + FilterTermWord(PassColsWord(5, w, h), PassRowsWord(5, w, h), bpp)
              + FilterTermWord(PassColsWord(6, w, h), PassRowsWord(6, w, h), bpp)
  {
    hide FilterTermWord, PassColsWord, PassRowsWord;
    hide FilterStartWord;
    NextStartWords(0, w, h, bpp);
    NextStartWords(1, w, h, bpp);
    NextStartWords(2, w, h, bpp);
    NextStartWords(3, w, h, bpp);
    NextStartWords(4, w, h, bpp);
    NextStartWords(5, w, h, bpp);
    NextStartWords(6, w, h, bpp);
  }

  // ----- images that fit

  lemma FittingTerms(i: nat, w: word, h: word, bpp: nat)
    requires i < 7 && w > 0 && h > 0 && w * h <= MAX_PIXELS && 0 < bpp <= 64 && w * h * bpp + 7 < WORD
    ensures PassColsWord(i, w, h) == Cols(i, w, h) && PassRowsWord(i, w, h) == Rows(i, w, h)
    ensures FilterTermWord(Cols(i, w, h), Rows(i, w, h), bpp)
         == if Cols(i, w, h) > 0 && Rows(i, w, h) > 0 then Start(Rows(i, w, h), 1 + LineBytes(i, w, h, bpp)) else 0
    ensures PaddedTermWord(Cols(i, w, h), Rows(i, w, h), bpp) == Start(Rows(i, w, h), LineBytes(i, w, h, bpp))
    ensures FlatTermWord(Cols(i, w, h), Rows(i, w, h), bpp) == FlatBytes(Rows(i, w, h), Cols(i, w, h), bpp)
  {
    hide RawCols, RawRows, Cols, Rows, ColsWord, RowsWord;
    Smaller(w, h, w, h);
    ExtentsAreRight(i, w, h);
    PassValuesFit(i, w, h, bpp);
    FittingTermsOf(PassColsWord(i, w, h), PassRowsWord(i, w, h), bpp);
  }

  lemma FittingTermsOf(cols: word, rows: word, bpp: nat)
    requires bpp > 0 && RowFits(cols, bpp) && rows * (1 + RowBytes(cols, bpp)) < WORD && rows * cols * bpp + 7 < WORD
    ensures FilterTermWord(cols, rows, bpp) == if cols > 0 && rows > 0 then Start(rows, 1 + RowBytes(cols, bpp)) else 0
    ensures PaddedTermWord(cols, rows, bpp) == Start(rows, RowBytes(cols, bpp))
    ensures FlatTermWord(cols, rows, bpp) == FlatBytes(rows, cols, bpp)
  {
    hide RowBytesWord, Start;
    RowBytesWordBounds(cols, bpp);
    StartIsProduct(rows, 1 + RowBytes(cols, bpp));
    StartIsProduct(rows, RowBytes(cols, bpp));
    assert rows * (1 + RowBytes(cols, bpp)) == rows + rows * RowBytes(cols, bpp);
    WrappedDrops(rows * (1 + RowBytes(cols, bpp)));
    WrappedDrops(rows * RowBytes(cols, bpp));
    FlatTermFits(cols, rows, bpp);
    hide Wrapped, FlatTermWord, FlatBytes, RowBytes;
  }

  lemma FlatTermFits(cols: word, rows: word, bpp: nat)
    requires bpp > 0 && rows * cols * bpp + 7 < WORD
    ensures FlatTermWord(cols, rows, bpp) == FlatBytes(rows, cols, bpp)
  {
    MulAtMost(rows * cols, rows * cols, 1, bpp);
    WrappedDrops(rows * cols);
    WrappedDrops(rows * cols * bpp);
    WrappedDrops(rows * cols * bpp + 7);
    hide Wrapped;
  }

  /** The encoder's starts are the true ones when the bits of the image fit. */
  lemma {:induction false} FittingStarts(i: nat, w: word, h: word, bpp: nat)
    requires i <= 7 && w > 0 && h > 0 && w * h <= MAX_PIXELS && 0 < bpp <= 64 && w * h * bpp + 7 < WORD
    ensures FilterStartWord(i, w, h, bpp) == FilterStart(i, w, h, bpp)
    ensures PaddedStartWord(i, w, h, bpp) == PaddedStart(i, w, h, bpp)
    ensures PassStartWord(i, w, h, bpp) == PassStart(i, w, h, bpp)
  {
    hide FilterTermWord, PaddedTermWord, FlatTermWord, FlatBytes, Start, Cols, Rows, PassColsWord, PassRowsWord,
      LineBytes;
    NextStartWords(0, w, h, bpp);
    FirstStarts(w, h, bpp);
    hide FilterStartWord, PaddedStartWord, PassStartWord, FilterStart, PaddedStart, PassStart;
    if i > 0 {
      FittingStarts(i - 1, w, h, bpp);
      NextStartWords(i - 1, w, h, bpp);
      NextStarts(i - 1, w, h, bpp);
      FittingTerms(i - 1, w, h, bpp);
    }
  }

  lemma FittingPassWords(v: PassValues, w: word, h: word, bpp: nat)
    requires w > 0 && h > 0 && w * h <= MAX_PIXELS && 0 < bpp <= 64 && w * h * bpp + 7 < WORD
    requires ArePassWords(v, w, h, bpp)
    ensures PassValuesOk(v, w, h, bpp)
  {
    hide FilterStartWord, PaddedStartWord, PassStartWord, FilterStart, PaddedStart, PassStart, Cols, Rows, PassColsWord,
      PassRowsWord;
    forall i | 0 <= i < 7
      ensures PassColsWord(i, w, h) == Cols(i, w, h) && PassRowsWord(i, w, h) == Rows(i, w, h)
    {
      FittingTerms(i, w, h, bpp);
    }
    forall i | 0 <= i < 8
      ensures FilterStartWord(i, w, h, bpp) == FilterStart(i, w, h, bpp)
      ensures PaddedStartWord(i, w, h, bpp) == PaddedStart(i, w, h, bpp)
      ensures PassStartWord(i, w, h, bpp) == PassStart(i, w, h, bpp)
    {
      FittingStarts(i, w, h, bpp);
    }
  }

  /** An image whose pixels the decoder can hold is encoded as it should be. */
  lemma FittingImages(w: word, h: word, bpp: nat, interlaced: bool)
    requires w > 0 && h > 0 && w * h <= MAX_PIXELS && 0 < bpp <= 64 && w * h * bpp + 7 < WORD
    ensures EncoderRight(w, h, bpp, interlaced)
  {
    hide ArePassWords, PassValuesOk, EncodedSizeWord, Start, RowBytes, PlacesRight;
    MulAtMost(1, w, 1, h);
    if interlaced {
      forall v | ArePassWords(v, w, h, bpp) ensures PassValuesOk(v, w, h, bpp) { FittingPassWords(v, w, h, bpp); }
      MulAtMost(w * h - 1, w * h, PlaceUnit(bpp), bpp);
      PlacesExact(w, h, bpp);
    } else {
      RowsTogether(w, h, w, h, bpp);
      EncodedSizeExact(w, h, bpp);
    }
  }

  /** Whatever the encoder makes of an accepted image, its data has the size that
      the decoder predicts; it is the true size if and only if the rows fit. */
  lemma EncodedAsPredicted(w: word, h: word, bpp: nat, interlaced: bool)
    requires w > 0 && h > 0 && w * h <= MAX_PIXELS && bpp <= 64
    ensures w <= MAX_PIXELS && h <= MAX_PIXELS
    ensures if interlaced then FilterStartWord(7, w, h, bpp) == PredictedWord(w, h, bpp)
            else EncodedSizeWord(w, h, bpp) == IdatSizeWord(w, h, bpp)
    ensures EncoderRight(w, h, bpp, interlaced) ==>
              if interlaced then PredictedWord(w, h, bpp) == FilterStart(7, w, h, bpp)
              else IdatSizeWord(w, h, bpp) == h * (1 + RowBytes(w, bpp))
  {
    hide EncodedSizeWord, IdatSizeWord, PredictedWord, FilterStart, FilterStartWord, Start, RowBytes;
    Smaller(w, h, w, h);
    if interlaced {
      PassSizesAgree(w, h, bpp);
      if EncoderRight(w, h, bpp, true) { SizesAreRight(w, h, bpp); }
    } else {
      PlainSizesAgree(w, h, bpp);
    }
  }

  lemma SizesAreRight(w: word, h: word, bpp: nat)
    requires w > 0 && h > 0 && PassWordsRight(w, h, bpp)
    ensures FilterStartWord(7, w, h, bpp) == FilterStart(7, w, h, bpp)
  {
    hide PassColsWord, PassRowsWord, FilterStartWord, PaddedStartWord, PassStartWord, FilterStart, PaddedStart,
      PassStart, Cols, Rows, PlacesRight;
    var v := PassValues(
      seq(7, i requires 0 <= i < 7 => PassColsWord(i, w, h)), seq(7, i requires 0 <= i < 7 => PassRowsWord(i, w, h)),
      seq(8, i requires 0 <= i < 8 => FilterStartWord(i, w, h, bpp)),
      seq(8, i requires 0 <= i < 8 => PaddedStartWord(i, w, h, bpp)),
      seq(8, i requires 0 <= i < 8 => PassStartWord(i, w, h, bpp)));
    assert ArePassWords(v, w, h, bpp);
    assert v.filterStart[7] == FilterStart(7, w, h, bpp);
  }

  // ----- the data of an accepted image is less than 4 gigabytes

  /** The area of pass `i`. */
  function Area(i: nat, w: nat, h: nat): nat
    requires i < 7 && w > 0 && h > 0
  {
    RawCols(i, w) * RawRows(i, h)
  }

  /** The areas of the passes make up the image, and their rows are few. */
  lemma AreasAddUp(w: nat, h: nat)
    requires w > 0 && h > 0
    ensures Area(0, w, h) + Area(1, w, h) + Area(2, w, h) + Area(3, w, h) + Area(4, w, h) + Area(5, w, h)
            + Area(6, w, h) == w * h
    ensures RawRows(0, h) + RawRows(1, h) + RawRows(2, h) + RawRows(3, h) + RawRows(4, h) + RawRows(5, h)
            + RawRows(6, h) <= 2 * h + 6
  {
    PassExtents(w, h);
    hide RawCols, RawRows;
    Halved(w);
    Halved(h);
    Telescope(w, h, (w + 1) / 2, (h + 1) / 2, (w + 3) / 4, (h + 3) / 4, (w + 7) / 8, (h + 7) / 8);
  }

  lemma Halved(n: nat)
    ensures n / 2 == n - (n + 1) / 2 && (n + 1) / 4 == (n + 1) / 2 - (n + 3) / 4
    ensures (n + 3) / 8 == (n + 3) / 4 - (n + 7) / 8
    ensures n >= (n + 1) / 2 >= (n + 3) / 4 >= (n + 7) / 8
  {
  }

  lemma Telescope(w: nat, h: nat, w2: nat, h2: nat, w4: nat, h4: nat, w8: nat, h8: nat)
    requires w >= w2 >= w4 >= w8 && h >= h2 >= h4 >= h8
    ensures w8 * h8 + (w4 - w8) * h8 + w4 * (h4 - h8) + (w2 - w4) * h4 + w2 * (h2 - h4) + (w - w2) * h2 + w * (h - h2)
         == w * h
  {
    Parts(w8, w4 - w8, h8);
    Parts(h8, h4 - h8, w4);
    Parts(w4, w2 - w4, h4);
    Parts(h4, h2 - h4, w2);
    Parts(w2, w - w2, h2);
    Parts(h2, h - h2, w);
  }

  lemma Parts(a: nat, b: nat, c: nat)
    ensures a * c + b * c == (a + b) * c && a * c == c * a && b * c == c * b && (a + b) * c == c * (a + b)
  {
  }

  lemma PassBytes(i: nat, w: word, h: word, bpp: nat)
    requires i < 7 && w > 0 && h > 0 && w * h <= MAX_PIXELS && bpp <= 64
    ensures 8 * PredictedPass(i, w, h, bpp) <= 64 * Area(i, w, h) + 15 * RawRows(i, h)
  {
    hide RawCols, RawRows, RowBytes, PredictedPass;
    Smaller(w, h, w, h);
    ExtentsInside(i, w, h);
    var cols, rows := RawCols(i, w), RawRows(i, h);
    Smaller(w, h, cols, rows);
    TermOfPass(i, w, h, bpp);
    RowsOfAccepted(cols, rows, bpp);
    MulAtMost(cols * rows, cols * rows, bpp, 64);
    assert rows * (1 + RowBytes(cols, bpp)) == rows * RowBytes(cols, bpp) + rows;
  }

  lemma AllPassesAreShort(w: word, h: word, bpp: nat)
    requires w > 0 && h > 0 && w * h <= MAX_PIXELS && bpp <= 64
    ensures FilterStart(7, w, h, bpp) < WORD
  {
    hide PredictedPass, Area, RawRows, FilterStart;
    Smaller(w, h, w, h);
    PredictionIsExact(w, h, bpp);
    AreasAddUp(w, h);
    PassBytes(0, w, h, bpp);
    PassBytes(1, w, h, bpp);
    PassBytes(2, w, h, bpp);
    PassBytes(3, w, h, bpp);
    PassBytes(4, w, h, bpp);
    PassBytes(5, w, h, bpp);
    PassBytes(6, w, h, bpp);
  }

  // ----- sizes that wrap around

  /** One row of 67108864 pixels of 64 bits: both sides compute one byte for the
      row of 536870912 bytes, and no byte for the pixels. */
  lemma RowThatWraps()
    ensures EncodedSizeWord(67108864, 1, 64) == IdatSizeWord(67108864, 1, 64) == 1
    ensures RawSizeWord(67108864, 1, 64) == 0 && 67108864 * 1 <= MAX_PIXELS
    ensures RowBytes(67108864, 64) == 536870912 && !PlainWordsRight(67108864, 1, 64)
  {
  }

  lemma RowsTooMany(w: word, h: word, bpp: nat)
    requires h > 0 && h * (1 + RowBytes(w, bpp)) >= WORD
    ensures !PlainWordsRight(w, h, bpp)
  {
    hide RowBytes, PlainWordsRight;
    EncodedSizeExact(w, h, bpp);
  }

  /** 65536 by 65536 pixels of 8 bits: the encoder asks for 65536 bytes and has
      65536 rows of 65537 bytes to write. */
  lemma RowsThatWrap(n: word)
    requires n == 65536
    ensures EncodedSizeWord(n, n, 8) == n && RowBytes(n, 8) == n && n * n > MAX_PIXELS
    ensures !PlainWordsRight(n, n, 8)
  {
    hide PlainWordsRight;
    assert RowBytesWord(n, 8) == n;
    assert Wrapped(n * n) == 0;
    RowsTooMany(n, n, 8);
  }
}
