/** The image data of a PNG file from end to end: the encoder filters, perhaps
    interlaces, and compresses the pixels; the decoder returns the same pixels
    if and only if its 32-bit sizes can hold them. */
module Png {
  import opened Adam7
  import opened Bits
  import opened BlockContents
  import opened Deflate
  import opened EncoderSizes
  import opened ImageData
  import opened ImageSizes
  import opened PixelBits
  import opened PostProcess
  import opened Scanlines
  import opened Sequences
  import opened StoredBlocks
  import opened Unsigned32
  import opened Wrappers
  import opened Zlib

  // ----- sizes

  lemma AreaBits(w: nat, h: nat, bpp: nat)
    ensures Start(h, w * bpp) == Start(Start(h, w), bpp)
  {
    hide Start;
    StartIsProduct(h, w);
    StartIsProduct(h, w * bpp);
    StartIsProduct(Start(h, w), bpp);
    MulAssociates(h, w, bpp);
  }

  lemma MulAssociates(a: nat, b: nat, c: nat)
    ensures a * b * c == a * (b * c)
  {
  }

  lemma {:induction false} BitsDecide(x: nat, y: nat, n: nat)
    requires x < Pow2(n) && y < Pow2(n) && forall k :: 0 <= k < n ==> Bit(x, k) == Bit(y, k)
    ensures x == y
  {
    if n > 0 {
      assert Bit(x, 0) == Bit(y, 0);
      forall k | 0 <= k < n - 1 ensures Bit(x / 2, k) == Bit(y / 2, k) { assert Bit(x, k + 1) == Bit(y, k + 1); }
      BitsDecide(x / 2, y / 2, n - 1);
    }
  }

  lemma ByteDecided(s: seq<byte>, t: seq<byte>, j: nat)
    requires |s| == |t| && BitsOf(s) == BitsOf(t) && j < |s|
    ensures s[j] == t[j]
  {
    forall k | 0 <= k < 8 ensures Bit(s[j], k) == Bit(t[j], k) {
      var i := 8 * j + (7 - k);
      assert i / 8 == j && i % 8 == 7 - k;
      BitIs(s, i);
      BitIs(t, i);
    }
    assert Pow2(8) == 256;
    BitsDecide(s[j], t[j], 8);
  }

  lemma BytesDecided(s: seq<byte>, t: seq<byte>)
    requires |s| == |t| && BitsOf(s) == BitsOf(t)
    ensures s == t
  {
    hide BitsOf;
    forall j: nat | j < |s| ensures s[j] == t[j] { ByteDecided(s, t, j); }
  }

  lemma AllBits(s: seq<byte>, t: seq<byte>, n: nat)
    requires |s| == |t| && n == 8 * |s| && BitsOf(s)[..n] == BitsOf(t)[..n]
    ensures s == t
  {
    assert BitsOf(s)[..n] == BitsOf(s) && BitsOf(t)[..n] == BitsOf(t);
    BytesDecided(s, t);
  }

  /** The bytes of the filtered rows of an image, with or without interlacing. */
  function DataSize(w: nat, h: nat, bpp: nat, interlaced: bool): nat
    requires w > 0 && h > 0
  {
    if interlaced then FilterStart(7, w, h, bpp) else Start(h, 1 + RowBytes(w, bpp))
  }

  lemma SomeData(w: nat, h: nat, bpp: nat, interlaced: bool)
    requires w > 0 && h > 0
    ensures DataSize(w, h, bpp, interlaced) > 0
  {
    if interlaced {
      PassExtents(w, h);
      assert Start(Rows(0, w, h), 1 + LineBytes(0, w, h, bpp)) >= 1;
      FilterStartsAscend(1, 7, w, h, bpp);
    }
  }

  /** The decoder's prediction, in words. */
  function PredictedSize(w: word, h: word, bpp: nat, interlaced: bool): nat
    requires w <= MAX_PIXELS && h <= MAX_PIXELS
  {
    if interlaced then PredictedWord(w, h, bpp) else IdatSizeWord(w, h, bpp)
  }

  /** All rows, or the rows of all passes, can be counted in a word. */
  ghost predicate RowsCounted(w: nat, h: nat, bpp: nat, interlaced: bool)
    requires w > 0 && h > 0
  {
    if interlaced then forall i: nat :: i < 7 ==> PassFits(i, w, h, bpp) else RowFits(w, bpp)
  }

  /** The bits of the image can be counted in a word. */
  predicate ImageFits(w: nat, h: nat, bpp: nat) {
    w * h * bpp + 7 < WORD
  }

  /** The prediction is right if and only if the rows can be counted, and they
      can whenever the whole image can. */
  lemma PredictionIsRight(w: word, h: word, bpp: nat, interlaced: bool)
    requires w > 0 && h > 0 && w * h <= MAX_PIXELS && bpp <= 64
    ensures w <= MAX_PIXELS && h <= MAX_PIXELS
    ensures PredictedSize(w, h, bpp, interlaced) == DataSize(w, h, bpp, interlaced) <==>
            RowsCounted(w, h, bpp, interlaced)
    ensures ImageFits(w, h, bpp) ==> RowsCounted(w, h, bpp, interlaced)
  {
    hide PredictedWord, FilterStart, IdatSizeWord, RawSize, RowFits, PassFits;
    Smaller(w, h, w, h);
    if interlaced {
      PredictionFits(w, h, bpp);
      if ImageFits(w, h, bpp) {
        forall i: nat | i < 7 ensures PassFits(i, w, h, bpp) { PassValuesFit(i, w, h, bpp); }
      }
    } else {
      IdatSizeExact(w, h, bpp);
      StartIsProduct(h, 1 + RowBytes(w, bpp));
      assert h * (1 + RowBytes(w, bpp)) == h * RowBytes(w, bpp) + h;
      assert RawSize(w, h, bpp) == DataSize(w, h, bpp, false) by { RawSizeIs(w, h, bpp); }
      if ImageFits(w, h, bpp) { RowsTogether(w, h, w, 1, bpp); }
    }
  }

  lemma RawSizeIs(w: nat, h: nat, bpp: nat)
    ensures RawSize(w, h, bpp) == h * RowBytes(w, bpp) + h
  {
  }

  /** Nothing the encoder computes for an image that fits wraps around: the size
      of its rows, and all sizes of its passes. */
  lemma EncoderSizesFit(w: word, h: word, bpp: nat, i: nat)
    requires w > 0 && h > 0 && w * h <= MAX_PIXELS && bpp <= 64 && ImageFits(w, h, bpp) && i < 7
    ensures RowFits(w, bpp) && h * (1 + RowBytes(w, bpp)) < WORD
    ensures RowFits(Cols(i, w, h), bpp) && Rows(i, w, h) * (1 + RowBytes(Cols(i, w, h), bpp)) < WORD
    ensures Rows(i, w, h) * Cols(i, w, h) * bpp + 7 < WORD
  {
    RowsTogether(w, h, w, h, bpp);
    PassValuesFit(i, w, h, bpp);
  }

  // ----- decoding

  /** What decoding the image data, or encoding and decoding an image, comes to:
      the pixels, an error code, or a size that has wrapped around.  Then some
      buffer is too small, and nothing more is said about what happens. */
  datatype Outcome = Pixels(bytes: seq<byte>) | Failed(error: nat) | SizeWrapped

  method NewImage(w: word, h: word, bpp: nat) returns (out: array<byte>)
    requires w > 0 && h > 0 && ValidDepth(bpp) && w * h <= MAX_PIXELS && ImageFits(w, h, bpp)
    ensures fresh(out) && IsRoom(out[..], w, h, bpp) && Start(h, w * bpp) <= 8 * out.Length
    ensures bpp >= 8 ==> 8 * out.Length == Start(h, w * bpp)
  {
    RawSizeExact(w, h, bpp);
    AreaBits(w, h, bpp);
    out := new byte[RawSizeWord(w, h, bpp)](_ => 0);
    hide RawSizeWord, IsRoom, BitsOf;
    StartIsProduct(h, w);
    StartIsProduct(h * w, bpp);
    StartIsProduct(h * w, bpp / 8);
    if bpp >= 8 { WholePixels(h * w, bpp); }
    RoomOfZeros(out[..], w, h, bpp);
  }

  lemma WholePixels(n: nat, bpp: nat)
    requires bpp % 8 == 0
    ensures (n * bpp + 7) / 8 == n * (bpp / 8) && n * bpp == 8 * (n * (bpp / 8))
  {
    var u := bpp / 8;
    assert n * (8 * u) == 8 * (n * u);
  }

  lemma RoomOfZeros(s: seq<byte>, w: nat, h: nat, bpp: nat)
    requires forall q :: 0 <= q < |s| ==> s[q] == 0
    requires if bpp < 8 then Start(Start(h, w), bpp) <= 8 * |s| else |s| == Start(Start(h, w), bpp / 8)
    ensures IsRoom(s, w, h, bpp)
  {
    forall i | 0 <= i < 8 * |s| ensures BitsOf(s)[i] == 0 { ZeroBit(7 - i % 8); }
  }

  /** The pixels of the rows, or error 36. */
  ghost predicate UnfilteredOr36(data: seq<byte>, w: nat, h: nat, bpp: nat, r: Outcome)
    requires w > 0 && h > 0 && |data| == DataSize(w, h, bpp, false)
  {
    match PlainRows(data, w, h, bpp)
    case Error(code) => r == Failed(36)
    case Ok(rows) =>
      r.Pixels? && HoldsRows(r.bytes, rows, w, h, bpp) && (bpp >= 8 ==> 8 * |r.bytes| == Start(h, w * bpp))
  }

  /** decodeGeneric up to the pixels, for interlace method 0 and any compressed data. */
  ghost predicate DecodesPlain(idat: seq<byte>, w: word, h: word, bpp: nat, r: Outcome)
    requires w > 0 && h > 0
  {
    if w * h > MAX_PIXELS then r == Failed(92)
    else
      match Decompressed(idat, false)
      case Error(code) => r == Failed(code)
      case Ok(data) =>
        if |data| != IdatSizeWord(w, h, bpp) then r == Failed(91)
        else if !ImageFits(w, h, bpp) then r == SizeWrapped
        else
          |data| == DataSize(w, h, bpp, false) && UnfilteredOr36(data, w, h, bpp, r)
  }

  /** The same for interlace method 1. */
  ghost predicate DecodesInterlaced(idat: seq<byte>, w: word, h: word, bpp: nat, r: Outcome)
    requires w > 0 && h > 0
  {
    if w * h > MAX_PIXELS then r == Failed(92)
    else
      Smaller(w, h, w, h);
      match Decompressed(idat, false)
      case Error(code) => r == Failed(code)
      case Ok(data) =>
        if |data| != PredictedWord(w, h, bpp) then r == Failed(91)
        else if !ImageFits(w, h, bpp) then r == SizeWrapped
        else
          |data| == DataSize(w, h, bpp, true) &&
          if !AllPassesUnfilter(data, w, h, bpp) then r == Failed(36)
          else r.Pixels? && HoldsShown(r.bytes, data, w, h, bpp)
  }

  /** What decodeGeneric knows before it unpacks the pixels. */
  ghost predicate Checked(idat: seq<byte>, w: word, h: word, bpp: nat, interlaced: bool, failed: Option<Outcome>,
                          restored: seq<byte>)
    requires w > 0 && h > 0
  {
    if w * h > MAX_PIXELS then failed == Some(Failed(92))
    else
      Smaller(w, h, w, h);
      match Decompressed(idat, false)
      case Error(code) => failed == Some(Failed(code))
      case Ok(data) =>
        if |data| != PredictedSize(w, h, bpp, interlaced) then failed == Some(Failed(91))
        else if !ImageFits(w, h, bpp) then failed == Some(SizeWrapped)
        else failed == None && restored == data && |data| == DataSize(w, h, bpp, interlaced)
  }

  /** The guard on the number of pixels, the decompression, the prediction and
      the size of the buffer. */
  method CheckData(idat: seq<byte>, w: word, h: word, bpp: nat, interlaced: bool)
    returns (failed: Option<Outcome>, restored: seq<byte>)
    requires w > 0 && h > 0 && ValidDepth(bpp)
    ensures Checked(idat, w, h, bpp, interlaced, failed, restored)
    ensures failed == None ==> w * h <= MAX_PIXELS && ImageFits(w, h, bpp)
  {
    hide Decompressed, PredictedSize, DataSize, RowsCounted, ImageFits, RawSizeWord, FlatBytes, PixelsAccepted;
    restored := [];
    GuardIsExact(w, h);
    if !PixelsAccepted(w, h) { return Some(Failed(92)), []; }
    PredictionIsRight(w, h, bpp, interlaced);
    var error;
    error, restored := ZlibDecompress(idat, false);
    if error != 0 { return Some(Failed(error)), []; }
    if |restored| != PredictedSize(w, h, bpp, interlaced) { return Some(Failed(91)), []; }
    BufferIsRight(w, h, bpp);
    if RawSizeWord(w, h, bpp) != FlatBytes(h, w, bpp) { return Some(SizeWrapped), []; }
    failed := None;
  }

  lemma BufferIsRight(w: word, h: word, bpp: nat)
    requires w * h <= MAX_PIXELS
    ensures RawSizeWord(w, h, bpp) == FlatBytes(h, w, bpp) <==> ImageFits(w, h, bpp)
  {
    RawSizeExact(w, h, bpp);
  }

  method Buffer(data: seq<byte>) returns (a: array<byte>)
    ensures fresh(a) && a[..] == data
  {
    a := new byte[|data|](i requires 0 <= i < |data| => data[i]);
  }

  method DecodePlain(idat: seq<byte>, w: word, h: word, bpp: nat) returns (r: Outcome)
    requires w > 0 && h > 0 && ValidDepth(bpp)
    ensures DecodesPlain(idat, w, h, bpp, r)
  {
    hide Decompressed, PlainRows, HoldsRows, IsRoom, ImageFits, IdatSizeWord;
    var failed, restored := CheckData(idat, w, h, bpp, false);
    if failed.Some? { return failed.value; }
    var out := NewImage(w, h, bpp);
    var scanlines := Buffer(restored);
    var error := PostProcessPlain(out, scanlines, w, h, bpp);
    r := if error != 0 then Failed(error) else Pixels(out[..]);
  }

  method DecodeInterlaced(idat: seq<byte>, w: word, h: word, bpp: nat) returns (r: Outcome)
    requires w > 0 && h > 0 && ValidDepth(bpp)
    ensures DecodesInterlaced(idat, w, h, bpp, r)
  {
    hide Decompressed, AllPassesUnfilter, HoldsShown, IsRoom, ImageFits, PredictedWord, FilterStart;
    var failed, restored := CheckData(idat, w, h, bpp, true);
    if failed.Some? { return failed.value; }
    var out := NewImage(w, h, bpp);
    var scanlines := Buffer(restored);
    var error := PostProcessInterlaced(out, scanlines, w, h, bpp);
    r := if error != 0 then Failed(error) else Pixels(out[..]);
  }

  // ----- round trips

  /** The error of the compressor, which depends on its settings alone. */
  function CompressError(settings: CompressSettings): nat {
    if settings.btype > 2 then 61 else if settings.btype == 0 then 0 else DeflateError(settings)
  }

  /** Without LZ77 several blocks of type 2 cannot be written. */
  predicate CanCompress(settings: CompressSettings, size: nat) {
    settings.useLz77 || settings.btype != 2 || size <= BlockSize(2, size)
  }

  /** What becomes of an image whose data could be compressed. */
  ghost predicate RoundTripped(r: Outcome, image: seq<byte>, w: word, h: word, bpp: nat, interlaced: bool)
    requires IsPixels(image, w, h, bpp)
  {
    if !EncoderRight(w, h, bpp, interlaced) then r == SizeWrapped
    else if w * h > MAX_PIXELS then r == Failed(92)
    else if !ImageFits(w, h, bpp) then r == SizeWrapped
    else r.Pixels? && SamePixels(r.bytes, image, w, h, bpp)
  }

  /** With settings that no type of block goes with, nothing is encoded. */
  ghost predicate EncodedAndDecoded(r: Outcome, settings: CompressSettings, image: seq<byte>, w: word, h: word,
                                    bpp: nat, interlaced: bool)
    requires IsPixels(image, w, h, bpp)
  {
    if settings.btype > 2 then r == Failed(61)
    else if EncoderRight(w, h, bpp, interlaced) && CompressError(settings) != 0 then
      r == Failed(CompressError(settings))
    else RoundTripped(r, image, w, h, bpp, interlaced)
  }

  /** The image comes back if and only if it has few enough pixels and its bits
      can be counted in a word. */
  lemma PixelsComeBackIff(r: Outcome, image: seq<byte>, w: word, h: word, bpp: nat, interlaced: bool)
    requires IsPixels(image, w, h, bpp) && RoundTripped(r, image, w, h, bpp, interlaced)
    ensures r.Pixels? <==> PixelsAccepted(w, h) && ImageFits(w, h, bpp)
    ensures r.Pixels? ==> SamePixels(r.bytes, image, w, h, bpp)
    ensures PixelsAccepted(w, h) && !r.Pixels? ==> r == SizeWrapped
  {
    hide EncoderRight, SamePixels, PixelsAccepted, Start;
    GuardIsExact(w, h);
    if w * h <= MAX_PIXELS && ImageFits(w, h, bpp) { FittingImages(w, h, bpp, interlaced); }
  }

  /** The sizes of an accepted image agree: if those of the encoder are right,
      the decoder finds as many bytes as it predicts.  There are few enough of
      them for stored blocks. */
  lemma EncodedDataFits(w: word, h: word, bpp: nat, interlaced: bool)
    requires w > 0 && h > 0 && bpp <= 64 && w * h <= MAX_PIXELS && EncoderRight(w, h, bpp, interlaced)
    ensures w <= MAX_PIXELS && h <= MAX_PIXELS
    ensures RowsCounted(w, h, bpp, interlaced) && DataSize(w, h, bpp, interlaced) < WORD
    ensures PredictedSize(w, h, bpp, interlaced) == DataSize(w, h, bpp, interlaced)
  {
    hide EncoderRight, RowsCounted, IdatSizeWord, PredictedWord, FilterStart, Start;
    EncodedAsPredicted(w, h, bpp, interlaced);
    PredictionIsRight(w, h, bpp, interlaced);
    StartIsProduct(h, 1 + RowBytes(w, bpp));
    if interlaced { AllPassesAreShort(w, h, bpp); } else { RowsOfAccepted(w, h, bpp); }
  }

  lemma FilteredSize(data: seq<byte>, rows: seq<byte>, w: nat, h: nat, bpp: nat)
    requires w > 0 && h > 0 && bpp > 0 && IsFiltered(data, rows, RowBytes(w, bpp), ByteWidth(bpp), h)
    ensures |data| == DataSize(w, h, bpp, false) && PlainRows(data, w, h, bpp) == Ok(rows)
  {
    hide UnfilteredImage;
    UnfilteredBack(data, rows, RowBytes(w, bpp), ByteWidth(bpp), h);
  }

  /** Pixels from rows that were padded are those of the image. */
  lemma PlainPixels(bytes: seq<byte>, rows: seq<byte>, image: seq<byte>, w: nat, h: nat, bpp: nat)
    requires IsPixels(image, w, h, bpp) && Start(h, w * bpp) <= 8 * |image|
    requires IsPadded(rows, BitsOf(image), w * bpp, RowBytes(w, bpp), h)
    requires HoldsRows(bytes, rows, w, h, bpp) && (bpp >= 8 ==> 8 * |bytes| == Start(h, w * bpp))
    ensures SamePixels(bytes, image, w, h, bpp)
  {
    hide BitsOf, Stripped, RowBytes, Padded, Start;
    AreaBits(w, h, bpp);
    PaddingStripped(rows, BitsOf(image), w * bpp, RowBytes(w, bpp), h);
    if bpp >= 8 {
      StartOfBits(Start(h, w), bpp / 8);
      AllBits(bytes, image, Start(h, w * bpp));
    }
  }

  lemma PlainIsBack(idat: seq<byte>, data: seq<byte>, rows: seq<byte>, image: seq<byte>, w: word, h: word, bpp: nat,
                    r: Outcome)
    requires IsPixels(image, w, h, bpp) && Start(h, w * bpp) <= 8 * |image| && EncoderRight(w, h, bpp, false)
    requires IsFiltered(data, rows, RowBytes(w, bpp), ByteWidth(bpp), h)
    requires IsPadded(rows, BitsOf(image), w * bpp, RowBytes(w, bpp), h)
    requires w * h <= MAX_PIXELS ==> Decompressed(idat, false) == Ok(data)
    requires DecodesPlain(idat, w, h, bpp, r)
    ensures RoundTripped(r, image, w, h, bpp, false)
  {
    hide Decompressed, IsFiltered, IsPadded, IsPixels, PlainRows, HoldsRows, BitsOf, RowBytes, ByteWidth, SamePixels,
      ImageFits, RowsCounted, IdatSizeWord, DataSize, EncoderRight;
    assert w > 0 && h > 0 && 0 < bpp <= 64 by { SomePixels(image, w, h, bpp); }
    FilteredSize(data, rows, w, h, bpp);
    if w * h <= MAX_PIXELS {
      EncodedDataFits(w, h, bpp, false);
      if r.Pixels? { PlainPixels(r.bytes, rows, image, w, h, bpp); }
    }
  }

  lemma SomePixels(image: seq<byte>, w: nat, h: nat, bpp: nat)
    requires IsPixels(image, w, h, bpp)
    ensures w > 0 && h > 0 && 0 < bpp <= 64
  {
  }

  /** Data of an accepted image passes through the compressor. */
  lemma DataComesBack(idat: seq<byte>, data: seq<byte>, btype: nat, w: word, h: word, bpp: nat, interlaced: bool)
    requires w > 0 && h > 0 && bpp <= 64 && EncoderRight(w, h, bpp, interlaced)
    requires |data| == DataSize(w, h, bpp, interlaced) > 0
    requires forall ignore :: Decompressed(idat, ignore) == Ok(data) <==> Lossless(data, btype)
    ensures w * h <= MAX_PIXELS ==> Decompressed(idat, false) == Ok(data)
  {
    hide Decompressed, EncoderRight, DataSize, RowsCounted, PredictedSize, ComesBack;
    if w * h <= MAX_PIXELS {
      EncodedDataFits(w, h, bpp, interlaced);
      ShortDataComesBack(data);
    }
  }

  /** Interlace method 0. */
  method PlainRoundTrip(image: array<byte>, w: word, h: word, bpp: nat, choice: (nat, nat) -> byte,
                        settings: CompressSettings)
    returns (r: Outcome)
    requires IsPixels(image[..], w, h, bpp) && forall i, y :: choice(i, y) <= 4
    requires CanCompress(settings, DataSize(w, h, bpp, false))
    ensures EncodedAndDecoded(r, settings, image[..], w, h, bpp, false)
  {
    hide IsFiltered, IsPadded, BitsOf, RowBytes, ByteWidth, Decompressed, DecodesPlain, DeflateError, BlockSize,
      EncoderRight, Lossless, Opened, Kept, ImageFits, SamePixels;
    if settings.btype > 2 { return Failed(61); }
    var right := CheckEncoder(w, h, bpp, false);
    if !right { return SizeWrapped; }
    AreaBits(w, h, bpp);
    if bpp >= 8 { StartOfBits(Start(h, w), bpp / 8); }
    var data, rows := PreProcessPlain(image, w, h, bpp, choice);
    FilteredSize(data[..], rows, w, h, bpp);
    SomeData(w, h, bpp, false);
    var error, idat := ZlibCompress(data[..], settings);
    if error != 0 { return Failed(error); }
    DataComesBack(idat, data[..], settings.btype, w, h, bpp, false);
    r := DecodePlain(idat, w, h, bpp);
    PlainIsBack(idat, data[..], rows, image[..], w, h, bpp, r);
  }

  lemma InterlacedShows(data: seq<byte>, rows: seq<seq<byte>>, image: seq<byte>, w: nat, h: nat, bpp: nat)
    requires IsPixels(image, w, h, bpp) && IsInterlacedData(data, rows, image, 7, w, h, bpp)
    ensures |data| == DataSize(w, h, bpp, true)
    ensures AllPassesUnfilter(data, w, h, bpp) && ShowsImage(data, image, w, h, bpp)
  {
    hide IsFiltered, UnfilteredImage, Rows, Cols, FilterStart, IsPassRows, ShowPass;
    forall i: nat | i < 7
      ensures PassRows(data, i, w, h, bpp) == Ok(rows[i]) && ShowPass(rows[i], image, i, w, h, bpp)
    {
      assert PassFiltered(data, rows[i], i, w, h, bpp);
      FilterStartsAscend(i + 1, 7, w, h, bpp);
      PassSize(i, w, h, bpp);
      UnfilteredBack(data[FilterStart(i, w, h, bpp)..FilterStart(i + 1, w, h, bpp)], rows[i], LineBytes(i, w, h, bpp),
          ByteWidth(bpp),
                     Rows(i, w, h));
      PassRowsShowPass(rows[i], image, i, w, h, bpp);
    }
  }

  lemma InterlacedIsBack(idat: seq<byte>, data: seq<byte>, rows: seq<seq<byte>>, image: seq<byte>, w: word, h: word,
                         bpp: nat, r: Outcome)
    requires IsPixels(image, w, h, bpp) && IsInterlacedData(data, rows, image, 7, w, h, bpp)
    requires EncoderRight(w, h, bpp, true) && (w * h <= MAX_PIXELS ==> Decompressed(idat, false) == Ok(data))
    requires DecodesInterlaced(idat, w, h, bpp, r)
    ensures RoundTripped(r, image, w, h, bpp, true)
  {
    hide Decompressed, IsInterlacedData, AllPassesUnfilter, ShowsImage, HoldsShown, SamePixels, ImageFits, RowsCounted,
      PredictedWord, FilterStart, EncoderRight;
    InterlacedShows(data, rows, image, w, h, bpp);
    if w * h <= MAX_PIXELS {
      EncodedDataFits(w, h, bpp, true);
      if r.Pixels? { ShownIsImage(r.bytes, data, image, w, h, bpp); }
    }
  }

  /** Interlace method 1. */
  method InterlacedRoundTrip(image: array<byte>, w: word, h: word, bpp: nat, choice: (nat, nat) -> byte,
                             settings: CompressSettings)
    returns (r: Outcome)
    requires IsPixels(image[..], w, h, bpp) && forall i, y :: choice(i, y) <= 4
    requires CanCompress(settings, DataSize(w, h, bpp, true))
    ensures EncodedAndDecoded(r, settings, image[..], w, h, bpp, true)
  {
    hide Decompressed, DecodesInterlaced, IsInterlacedData, Predicted, FilterStart, DeflateError, BlockSize,
      AllPassesUnfilter, ShowsImage, EncoderRight, Lossless, Opened, Kept, ImageFits, SamePixels;
    if settings.btype > 2 { return Failed(61); }
    var right := CheckEncoder(w, h, bpp, true);
    if !right { return SizeWrapped; }
    var data, rows := PreProcessInterlaced(image, w, h, bpp, choice);
    InterlacedShows(data[..], rows, image[..], w, h, bpp);
    SomeData(w, h, bpp, true);
    var error, idat := ZlibCompress(data[..], settings);
    if error != 0 { return Failed(error); }
    DataComesBack(idat, data[..], settings.btype, w, h, bpp, true);
    r := DecodeInterlaced(idat, w, h, bpp);
    InterlacedIsBack(idat, data[..], rows, image[..], w, h, bpp, r);
  }

  // ----- images that do not come back

  /** 20000 by 20000 pixels are refused whatever the data is, although one bit
      for each of them would fit. */
  lemma TooManyPixels(idat: seq<byte>, r: Outcome)
    requires DecodesPlain(idat, 20000, 20000, 1, r)
    ensures r == Failed(92) && !PixelsAccepted(20000, 20000) && ImageFits(20000, 20000, 1)
  {
    GuardIsExact(20000, 20000);
  }

  /** 8192 by 8192 pixels of 64 bits are accepted, and all the data is there, but
      the size of the pixels has wrapped around to zero. */
  lemma AcceptedButTooLarge(idat: seq<byte>, data: seq<byte>, r: Outcome)
    requires Decompressed(idat, false) == Ok(data) && |data| == DataSize(8192, 8192, 64, false)
    requires DecodesPlain(idat, 8192, 8192, 64, r)
    ensures r == SizeWrapped && PixelsAccepted(8192, 8192) && RawSizeWord(8192, 8192, 64) == 0
  {
    hide Decompressed, IdatSizeWord, DataSize, RawSizeWord;
    AcceptedButWrapped();
    PredictionIsRight(8192, 8192, 64, false);
  }

  /** Error 91 is for data that another encoder has made: if the rows of an
      accepted image cannot be counted in a word, even its true data is refused. */
  lemma TrueDataRefused(idat: seq<byte>, data: seq<byte>, r: Outcome, w: word, h: word, bpp: nat)
    requires w > 0 && h > 0 && bpp <= 64 && w * h <= MAX_PIXELS && Decompressed(idat, false) == Ok(data)
    ensures |data| == DataSize(w, h, bpp, false) && DecodesPlain(idat, w, h, bpp, r) ==>
              (r == Failed(91) <==> !RowsCounted(w, h, bpp, false))
    ensures |data| == DataSize(w, h, bpp, true) && DecodesInterlaced(idat, w, h, bpp, r) ==>
              (r == Failed(91) <==> !RowsCounted(w, h, bpp, true))
  {
    hide Decompressed, IdatSizeWord, PredictedWord, DataSize, RowsCounted, ImageFits, PlainRows, HoldsRows,
      AllPassesUnfilter, HoldsShown;
    PredictionIsRight(w, h, bpp, false);
    PredictionIsRight(w, h, bpp, true);
  }

  /** One row of 67108864 pixels of 64 bits: what this encoder writes is what the
      decoder predicts, one byte, so that there is no error. */
  lemma NoErrorForWrappedRow(r: Outcome, image: seq<byte>)
    requires IsPixels(image, 67108864, 1, 64) && RoundTripped(r, image, 67108864, 1, 64, false)
    ensures r == SizeWrapped && EncodedSizeWord(67108864, 1, 64) == PredictedSize(67108864, 1, 64, false) == 1
    ensures RawSizeWord(67108864, 1, 64) == 0 && !RowsCounted(67108864, 1, 64, false)
  {
    hide IsPixels, SamePixels, ImageFits, PlainWordsRight;
    RowThatWraps();
  }

  /** 65536 by 65536 pixels of 8 bits are too many, but the encoder's buffer is too
      small before the decoder can say so. */
  lemma WrappedBeforeGuard(r: Outcome, image: seq<byte>, n: word)
    requires n == 65536 && IsPixels(image, n, n, 8) && RoundTripped(r, image, n, n, 8, false)
    ensures r == SizeWrapped && n * n > MAX_PIXELS && EncodedSizeWord(n, n, 8) == n
  {
    hide IsPixels, SamePixels, ImageFits, PlainWordsRight, Start;
    RowsThatWrap(n);
  }
}
