/** Whole images: preProcessScanlines turns pixels into filtered, padded and
    perhaps interlaced data. */
module ImageData {
  import opened Adam7
  import opened Bits
  import opened InterlaceBuffers
  import opened Interlacing
  import opened PixelBits
  import opened RowFilters
  import opened RowUnfilters
  import opened Scanlines
  import opened Sequences
  import opened Wrappers

  /** Bits per pixel of some PNG color type. */
  ghost predicate ValidDepth(bpp: nat) {
    0 < bpp <= 64 && (bpp < 8 || bpp % 8 == 0)
  }

  function ByteWidth(bpp: nat): nat {
    (bpp + 7) / 8
  }

  /** Filters look back by one pixel, but never by less than a byte. */
  lemma ByteWidthOfPixel(bpp: nat)
    requires ValidDepth(bpp)
    ensures 8 * ByteWidth(bpp) == if bpp < 8 then 8 else bpp
  {
  }

  // ----- filtered rows

  /** `data` is what filter makes of `rows`, for some choice of filter types. */
  ghost predicate IsFiltered(data: seq<byte>, rows: seq<byte>, linebytes: nat, bytewidth: nat, n: nat) {
    && |rows| == Start(n, linebytes)
    && exists types: seq<byte> ::
         |types| == n && (forall y :: 0 <= y < n ==> types[y] <= 4)
         && data == FilteredImage(rows, types, linebytes, bytewidth, n)
  }

  lemma FilteredIs(rows: seq<byte>, types: seq<byte>, linebytes: nat, bytewidth: nat, n: nat)
    requires |rows| == Start(n, linebytes) && |types| == n && forall y :: 0 <= y < n ==> types[y] <= 4
    ensures IsFiltered(FilteredImage(rows, types, linebytes, bytewidth, n), rows, linebytes, bytewidth, n)
  {
  }

  lemma UnfilteredBack(data: seq<byte>, rows: seq<byte>, linebytes: nat, bytewidth: nat, n: nat)
    requires IsFiltered(data, rows, linebytes, bytewidth, n) && bytewidth > 0
    ensures |data| == Start(n, 1 + linebytes) && UnfilteredImage(data, linebytes, bytewidth, n) == Ok(rows)
  {
    hide FilteredImage, UnfilteredImage;
    var types: seq<byte> :| |types| == n && (forall y :: 0 <= y < n ==> types[y] <= 4)
                            && data == FilteredImage(rows, types, linebytes, bytewidth, n);
    UnfilterUndoesFilterImage(rows, types, linebytes, bytewidth, n);
    assert rows[..Start(n, linebytes)] == rows;
  }

  lemma WideEnough(cols: nat, bpp: nat)
    requires cols > 0 && bpp > 0
    ensures 0 < ByteWidth(bpp) <= RowBytes(cols, bpp)
  {
    assert cols * bpp >= bpp;
  }

  // ----- bits and bytes

  lemma {:induction false} StartOfBits(n: nat, linebytes: nat)
    ensures Start(n, 8 * linebytes) == 8 * Start(n, linebytes)
  {
    if n > 0 { StartOfBits(n - 1, linebytes); }
  }

  lemma BitsOfSlice(s: seq<byte>, a: nat, b: nat)
    requires a <= b <= |s|
    ensures BitsOf(s[a..b]) == BitsOf(s)[8 * a..8 * b]
  {
    hide Bit;
    forall i | 0 <= i < 8 * (b - a) ensures BitsOf(s[a..b])[i] == BitsOf(s)[8 * a + i] {
      assert (8 * a + i) / 8 == a + i / 8 && (8 * a + i) % 8 == i % 8;
      assert s[a..b][i / 8] == s[a + i / 8];
    }
  }

  /** A row of `linebits` bits, padded to whole bytes. */
  lemma RowBytesBounds(cols: nat, bpp: nat)
    ensures cols * bpp <= 8 * RowBytes(cols, bpp) < cols * bpp + 8
  {
  }

  ghost predicate IsPadded(rows: seq<byte>, flat: seq<bit>, linebits: nat, linebytes: nat, n: nat) {
    && linebits <= 8 * linebytes && Start(n, linebits) <= |flat| && |rows| == Start(n, linebytes)
    && BitsOf(rows) == Padded(flat, linebits, 8 * linebytes, n)
  }

  /** Rows of whole bytes need no padding. */
  lemma {:induction false} NoPadding(flat: seq<bit>, linebits: nat, n: nat)
    requires Start(n, linebits) <= |flat|
    ensures Padded(flat, linebits, linebits, n) == flat[..Start(n, linebits)]
  {
    if n > 0 {
      NoPadding(flat, linebits, n - 1);
      assert flat[..Start(n - 1, linebits)] + flat[Start(n - 1, linebits)..Start(n, linebits)] + Zeros(0)
          == flat[..Start(n, linebits)];
    }
  }

  lemma WholeBytesArePadded(s: seq<byte>, linebytes: nat, n: nat)
    requires Start(n, linebytes) <= |s|
    ensures IsPadded(s[..Start(n, linebytes)], BitsOf(s), 8 * linebytes, linebytes, n)
  {
    hide BitsOf, Padded;
    StartOfBits(n, linebytes);
    NoPadding(BitsOf(s), 8 * linebytes, n);
    BitsOfSlice(s, 0, Start(n, linebytes));
  }

  // ----- images without interlacing

  function ChosenTypes(choice: (nat, nat) -> byte, i: nat, n: nat): (types: seq<byte>)
    ensures |types| == n && forall y :: 0 <= y < n ==> types[y] == choice(i, y)
  {
    seq<byte>(n, y requires 0 <= y < n => choice(i, y))
  }

  /** preProcessScanlines for interlace method 0; `choice` is whatever the filter
      strategy decides. */
  method PreProcessPlain(inn: array<byte>, w: nat, h: nat, bpp: nat, choice: (nat, nat) -> byte)
    returns (out: array<byte>, ghost rows: seq<byte>)
    requires ValidDepth(bpp) && w > 0 && h > 0 && Start(h, w * bpp) <= 8 * inn.Length
    requires forall i, y :: choice(i, y) <= 4
    ensures fresh(out) && IsFiltered(out[..], rows, RowBytes(w, bpp), ByteWidth(bpp), h)
    ensures IsPadded(rows, BitsOf(inn[..]), w * bpp, RowBytes(w, bpp), h)
  {
    hide FilteredImage, BitsOf, Padded, RowBytes, ByteWidth;
    var linebytes := RowBytes(w, bpp);
    WideEnough(w, bpp);
    RowBytesBounds(w, bpp);
    StartOfBits(h, linebytes);
    var types := ChosenTypes(choice, 0, h);
    var size := RowOffset(1 + linebytes, h);
    out := new byte[size];
    if w * bpp != 8 * linebytes {
      var paddedsize := RowOffset(linebytes, h);
      var padded := new byte[paddedsize];
      ghost var before := BitsOf(padded[..]);
      AddPaddingBits(padded, inn, 0, 8 * linebytes, w * bpp, h);
      assert BitsOf(inn[..])[8 * 0..] == BitsOf(inn[..]);
      WrittenWhole(before, Padded(BitsOf(inn[..]), w * bpp, 8 * linebytes, h));
      rows := padded[..];
      Filter(out, 0, padded[..], h, linebytes, ByteWidth(bpp), types);
    } else {
      WholeBytesArePadded(inn[..], linebytes, h);
      rows := inn[..Start(h, linebytes)];
      Filter(out, 0, inn[..Start(h, linebytes)], h, linebytes, ByteWidth(bpp), types);
    }
    FilteredIs(rows, types, linebytes, ByteWidth(bpp), h);
  }

  // ----- the places of the passes

  lemma PassSizes(i: nat, w: nat, h: nat, bpp: nat)
    requires i < 7 && w > 0 && h > 0
    ensures PassStart(i + 1, w, h, bpp) - PassStart(i, w, h, bpp)
            <= PaddedStart(i + 1, w, h, bpp) - PaddedStart(i, w, h, bpp)
    ensures PaddedStart(i + 1, w, h, bpp) - PaddedStart(i, w, h, bpp)
            <= FilterStart(i + 1, w, h, bpp) - FilterStart(i, w, h, bpp)
  {
    hide Cols, Rows;
    var rows, cols := Rows(i, w, h), Cols(i, w, h);
    StartsAscend(rows, RowBytes(cols, bpp));
    StartIsProduct(rows, RowBytes(cols, bpp));
    FlatFits(rows, cols, bpp);
    if cols == 0 || rows == 0 { EmptyPass(i, w, h); }
  }

  lemma EmptyPass(i: nat, w: nat, h: nat)
    requires i < 7 && w > 0 && h > 0
    ensures Cols(i, w, h) == 0 <==> Rows(i, w, h) == 0
  {
  }

  lemma FlatFits(rows: nat, cols: nat, bpp: nat)
    ensures FlatBytes(rows, cols, bpp) <= rows * RowBytes(cols, bpp)
  {
    RowBytesBounds(cols, bpp);
    var k, n := RowBytes(cols, bpp), cols * bpp;
    assert rows * cols * bpp == rows * n;
    MulMonotone(rows, n, 8 * k);
    assert rows * (8 * k) == 8 * (rows * k);
  }

  lemma MulMonotone(a: nat, b: nat, c: nat)
    requires b <= c
    ensures a * b <= a * c
  {
  }

  lemma {:induction false} PassOrder(i: nat, w: nat, h: nat, bpp: nat)
    requires i <= 7 && w > 0 && h > 0
    ensures PassStart(i, w, h, bpp) <= PaddedStart(i, w, h, bpp) <= FilterStart(i, w, h, bpp)
  {
    if i > 0 {
      PassOrder(i - 1, w, h, bpp);
      PassSizes(i - 1, w, h, bpp);
    } else {
      FirstStarts(w, h, bpp);
    }
  }

  lemma {:induction false} FilterStartsAscend(i: nat, j: nat, w: nat, h: nat, bpp: nat)
    requires i <= j <= 7 && w > 0 && h > 0
    ensures FilterStart(i, w, h, bpp) <= FilterStart(j, w, h, bpp)
    decreases j - i
  {
    hide Cols, Rows, LineBytes;
    if i < j { FilterStartsAscend(i + 1, j, w, h, bpp); }
  }

  /** The bytes of pass `i` with and without filter bytes. */
  lemma PassSize(i: nat, w: nat, h: nat, bpp: nat)
    requires i < 7 && w > 0 && h > 0
    ensures FilterStart(i + 1, w, h, bpp) == FilterStart(i, w, h, bpp)
            + Start(Rows(i, w, h), 1 + LineBytes(i, w, h, bpp))
    ensures PaddedStart(i + 1, w, h, bpp) == PaddedStart(i, w, h, bpp) + Start(Rows(i, w, h), LineBytes(i, w, h, bpp))
  {
    hide Cols, Rows, LineBytes;
    EmptyPass(i, w, h);
  }

  lemma {:induction false} NoGaps(i: nat, w: nat, h: nat, u: nat)
    requires i <= 7 && w > 0 && h > 0
    ensures PaddedStart(i, w, h, 8 * u) == PassStart(i, w, h, 8 * u)
  {
    if i > 0 {
      hide Cols, Rows;
      NoGaps(i - 1, w, h, u);
      ByteStarts(i - 1, w, h, u);
      WholeRow(Cols(i - 1, w, h), u);
    }
  }

  lemma WholeRow(cols: nat, u: nat)
    ensures RowBytes(cols, 8 * u) == Start(cols, u)
  {
    StartIsProduct(cols, u);
    assert cols * (8 * u) == 8 * (cols * u);
  }

  // ----- interlaced images

  ghost predicate IsPixels(image: seq<byte>, w: nat, h: nat, bpp: nat) {
    && w > 0 && h > 0 && ValidDepth(bpp)
    && if bpp < 8 then Start(Start(h, w), bpp) <= 8 * |image| else |image| == Start(Start(h, w), bpp / 8)
  }

  ghost function PixelBitsOf(image: seq<byte>, w: nat, h: nat, bpp: nat): (b: seq<bit>)
    requires IsPixels(image, w, h, bpp) && bpp < 8
    ensures IsBitImage(image, b, w, h, bpp)
  {
    BitsOf(image)[..Start(Start(h, w), bpp)]
  }

  /** The padded rows of pass `i`. */
  ghost predicate IsPassRows(rows: seq<byte>, image: seq<byte>, i: nat, w: nat, h: nat, bpp: nat)
    requires IsPixels(image, w, h, bpp) && i < 7
  {
    if bpp < 8 then
      IsPadded(rows, WholePass(PixelBitsOf(image, w, h, bpp), i, w, h, bpp), Cols(i, w, h) * bpp,
          LineBytes(i, w, h, bpp), Rows(i, w, h))
    else
      rows == WholePass(image, i, w, h, bpp / 8)
  }

  /** The buffer holds the pixels of pass `i` at passstart. */
  ghost predicate HoldsPixels(s: seq<byte>, image: seq<byte>, i: nat, w: nat, h: nat, bpp: nat)
    requires IsPixels(image, w, h, bpp) && i < 7
  {
    if bpp < 8 then HoldsPass(BitsOf(s), 8 * PassStart(i, w, h, bpp), PixelBitsOf(image, w, h, bpp), i, w, h, bpp)
    else HoldsPass(s, PassStart(i, w, h, bpp), image, i, w, h, bpp / 8)
  }

  lemma {:induction false} PaddedPrefix(b: seq<bit>, c: seq<bit>, inbits: nat, outbits: nat, n: nat)
    requires inbits <= outbits && Start(n, inbits) <= |b| <= |c| && b == c[..|b|]
    ensures Padded(c, inbits, outbits, n) == Padded(b, inbits, outbits, n)
  {
    if n > 0 {
      PaddedPrefix(b, c, inbits, outbits, n - 1);
      assert c[Start(n - 1, inbits)..Start(n, inbits)] == b[Start(n - 1, inbits)..Start(n, inbits)];
    }
  }

  /** The padded rows of one pass. */
  method PadPass(adam7: array<byte>, v: PassValues, i: nat, w: nat, h: nat, bpp: nat, ghost image: seq<byte>)
    returns (padded: array<byte>)
    requires IsPixels(image, w, h, bpp) && bpp < 8 && i < 7 && PassValuesOk(v, w, h, bpp)
    requires HoldsPixels(adam7[..], image, i, w, h, bpp)
    ensures fresh(padded) && IsPassRows(padded[..], image, i, w, h, bpp)
    ensures padded.Length == Start(Rows(i, w, h), LineBytes(i, w, h, bpp))
  {
    hide Cols, Rows, BitsOf, Padded, Written, WholePass, PassStart, PaddedStart, FilterStart, RowBytes;
    ghost var pass := WholePass(PixelBitsOf(image, w, h, bpp), i, w, h, bpp);
    PassLength(PixelBitsOf(image, w, h, bpp), i, w, h, bpp);
    PassSize(i, w, h, bpp);
    var lb := RowBytes(v.passw[i], bpp);
    StartOfBits(v.passh[i], lb);
    RowBytesBounds(v.passw[i], bpp);
    padded := new byte[v.paddedStart[i + 1] - v.paddedStart[i]];
    ghost var before := BitsOf(padded[..]);
    SuffixHolds(BitsOf(adam7[..]), 8 * v.start[i], pass);
    AddPaddingBits(padded, adam7, v.start[i], 8 * lb, v.passw[i] * bpp, v.passh[i]);
    PaddedPrefix(pass, BitsOf(adam7[..])[8 * v.start[i]..], v.passw[i] * bpp, 8 * lb, v.passh[i]);
    WrittenWhole(before, Padded(pass, v.passw[i] * bpp, 8 * lb, v.passh[i]));
  }

  lemma SuffixHolds<T>(s: seq<T>, base: nat, pass: seq<T>)
    requires base + |pass| <= |s| && s[base..base + |pass|] == pass
    ensures |pass| <= |s[base..]| && s[base..][..|pass|] == pass
  {
  }

  lemma PassLength<T>(img: seq<T>, i: nat, w: nat, h: nat, u: nat)
    requires IsImage(img, w, h, u) && i < 7
    ensures |WholePass(img, i, w, h, u)| == Start(Rows(i, w, h), Start(Cols(i, w, h), u))
    ensures |WholePass(img, i, w, h, u)| == Start(Rows(i, w, h), Cols(i, w, h) * u)
  {
    hide Cols, Rows;
    StartIsProduct(Cols(i, w, h), u);
  }

  /** Filters one pass to its place. */
  method FilterPass(out: array<byte>, adam7: array<byte>, v: PassValues, i: nat, w: nat, h: nat, bpp: nat,
                    choice: (nat, nat) -> byte, ghost image: seq<byte>)
    returns (ghost rows: seq<byte>)
    requires IsPixels(image, w, h, bpp) && i < 7 && PassValuesOk(v, w, h, bpp) && out != adam7
    requires HoldsPixels(adam7[..], image, i, w, h, bpp) && forall j, y :: choice(j, y) <= 4
    requires out.Length == FilterStart(7, w, h, bpp)
    modifies out
    ensures FilterStart(i, w, h, bpp) <= FilterStart(i + 1, w, h, bpp) <= out.Length
    ensures out[..FilterStart(i, w, h, bpp)] == old(out[..FilterStart(i, w, h, bpp)])
    ensures IsFiltered(out[FilterStart(i, w, h, bpp)..FilterStart(i + 1, w, h, bpp)], rows, LineBytes(i, w, h, bpp),
            ByteWidth(bpp),
                       Rows(i, w, h))
    ensures IsPassRows(rows, image, i, w, h, bpp)
  {
    hide Cols, Rows, WholePass, PassStart, PaddedStart, FilterStart, RowBytes, ByteWidth, FilteredImage, HoldsPixels,
        IsPassRows;
    PassSize(i, w, h, bpp);
    FilterStartsAscend(i + 1, 7, w, h, bpp);
    var types := ChosenTypes(choice, i, v.passh[i]);
    var lb := RowBytes(v.passw[i], bpp);
    EmptyPass(i, w, h);
    if v.passw[i] > 0 { WideEnough(v.passw[i], bpp); }
    ghost var before := out[..];
    if bpp < 8 {
      var padded := PadPass(adam7, v, i, w, h, bpp, image);
      rows := padded[..];
      Filter(out, v.filterStart[i], padded[..], v.passh[i], lb, ByteWidth(bpp), types);
    } else {
      BytePass(adam7[..], image, i, w, h, bpp);
      rows := adam7[v.paddedStart[i]..v.paddedStart[i + 1]];
      Filter(out, v.filterStart[i], adam7[v.paddedStart[i]..v.paddedStart[i + 1]], v.passh[i], lb, ByteWidth(bpp),
          types);
    }
    FilteredIs(rows, types, lb, ByteWidth(bpp), v.passh[i]);
    FilteredPlace(out[..], before, v.filterStart[i], FilteredImage(rows, types, lb, ByteWidth(bpp), v.passh[i]));
  }

  lemma FilteredPlace(now: seq<byte>, before: seq<byte>, o: nat, f: seq<byte>)
    requires Filtering(now, before, o, f)
    ensures o + |f| <= |now| == |before| && now[..o] == before[..o] && now[o..o + |f|] == f
  {
  }

  /** With whole bytes the stored pass is already padded. */
  lemma BytePass(s: seq<byte>, image: seq<byte>, i: nat, w: nat, h: nat, bpp: nat)
    requires IsPixels(image, w, h, bpp) && bpp >= 8 && i < 7 && HoldsPixels(s, image, i, w, h, bpp)
    ensures PaddedStart(i, w, h, bpp) == PassStart(i, w, h, bpp) <= PaddedStart(i + 1, w, h, bpp) <= |s|
    ensures PaddedStart(i + 1, w, h, bpp) == PaddedStart(i, w, h, bpp) + Start(Rows(i, w, h), LineBytes(i, w, h, bpp))
    ensures IsPassRows(s[PaddedStart(i, w, h, bpp)..PaddedStart(i + 1, w, h, bpp)], image, i, w, h, bpp)
  {
    hide Cols, Rows, PassStart, PaddedStart, RowBytes;
    var u := bpp / 8;
    assert bpp == 8 * u;
    NoGaps(i, w, h, u);
    PassSize(i, w, h, bpp);
    WholeRow(Cols(i, w, h), u);
  }

  /** Every pass lies at its place, filtered. */
  ghost predicate PassFiltered(data: seq<byte>, rows: seq<byte>, i: nat, w: nat, h: nat, bpp: nat)
    requires i < 7 && w > 0 && h > 0
  {
    && FilterStart(i, w, h, bpp) <= FilterStart(i + 1, w, h, bpp) <= |data|
    && IsFiltered(data[FilterStart(i, w, h, bpp)..FilterStart(i + 1, w, h, bpp)], rows, LineBytes(i, w, h, bpp),
        ByteWidth(bpp),
                  Rows(i, w, h))
  }

  ghost predicate IsInterlacedData(data: seq<byte>, rows: seq<seq<byte>>, image: seq<byte>, n: nat, w: nat, h: nat,
                                   bpp: nat)
    requires IsPixels(image, w, h, bpp) && n <= 7
  {
    && |rows| == n && |data| == FilterStart(7, w, h, bpp)
    && forall i: nat {:trigger rows[i]} :: i < n ==>
         PassFiltered(data, rows[i], i, w, h, bpp) && IsPassRows(rows[i], image, i, w, h, bpp)
  }

  lemma EarlierPassKept(data: seq<byte>, data': seq<byte>, rows: seq<byte>, i: nat, m: nat, w: nat, h: nat, bpp: nat)
    requires w > 0 && h > 0 && i < m < 7 && PassFiltered(data, rows, i, w, h, bpp) && |data'| == |data|
    requires FilterStart(m, w, h, bpp) <= |data|
             && data'[..FilterStart(m, w, h, bpp)] == data[..FilterStart(m, w, h, bpp)]
    ensures PassFiltered(data', rows, i, w, h, bpp)
  {
    hide FilterStart, IsFiltered, Rows, LineBytes;
    FilterStartsAscend(i + 1, m, w, h, bpp);
    var a, b, k := FilterStart(i, w, h, bpp), FilterStart(i + 1, w, h, bpp), FilterStart(m, w, h, bpp);
    assert data'[a..b] == data'[..k][a..b] && data[a..b] == data[..k][a..b];
  }

  /** Adam7_interlace, for either kind of pixels. */
  method Interlace(adam7: array<byte>, inn: array<byte>, w: nat, h: nat, bpp: nat)
    requires IsPixels(inn[..], w, h, bpp) && adam7 != inn && adam7.Length == PassStart(7, w, h, bpp)
    modifies adam7
    ensures forall i: nat {:trigger HoldsPixels(adam7[..], inn[..], i, w, h, bpp)} :: i < 7 ==>
              HoldsPixels(adam7[..], inn[..], i, w, h, bpp)
  {
    hide PassStart, HoldsPass, BitsOf;
    ghost var base;
    if bpp < 8 {
      base := InterlaceBits(adam7, inn, w, h, bpp, PixelBitsOf(inn[..], w, h, bpp));
    } else {
      var bytewidth := bpp / 8;
      assert bpp == 8 * bytewidth;
      base := InterlaceBytes(adam7, inn, w, h, bytewidth);
    }
    forall i: nat | i < 7 ensures HoldsPixels(adam7[..], inn[..], i, w, h, bpp) {
      assert base[i] == if bpp < 8 then 8 * PassStart(i, w, h, bpp) else PassStart(i, w, h, bpp);
    }
  }

  /** preProcessScanlines for interlace method 1. */
  method PreProcessInterlaced(inn: array<byte>, w: nat, h: nat, bpp: nat, choice: (nat, nat) -> byte)
    returns (out: array<byte>, ghost rows: seq<seq<byte>>)
    requires IsPixels(inn[..], w, h, bpp) && forall i, y :: choice(i, y) <= 4
    ensures fresh(out) && IsInterlacedData(out[..], rows, inn[..], 7, w, h, bpp)
    ensures out.Length == Predicted(w, h, bpp)
  {
    hide IsFiltered, HoldsPixels, IsPassRows, FilterStart, PassStart, PaddedStart, Rows, Cols, LineBytes, ByteWidth,
        Predicted;
    PredictionIsExact(w, h, bpp);
    var v := GetPassValues(w, h, bpp);
    out := new byte[v.filterStart[7]];
    var adam7 := new byte[v.start[7]];
    Interlace(adam7, inn, w, h, bpp);
    rows := [];
    ghost var stored, image := adam7[..], inn[..];
    for i := 0 to 7
      invariant adam7[..] == stored && inn[..] == image
      invariant IsInterlacedData(out[..], rows, image, i, w, h, bpp)
    {
      ghost var before := out[..];
      assert HoldsPixels(adam7[..], image, i, w, h, bpp);
      ghost var passRows := FilterPass(out, adam7, v, i, w, h, bpp, choice, image);
      forall j: nat | j < i ensures PassFiltered(out[..], rows[j], j, w, h, bpp) {
        EarlierPassKept(before, out[..], rows[j], j, i, w, h, bpp);
      }
      rows := rows + [passRows];
    }
  }
}
