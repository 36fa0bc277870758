/** postProcessScanlines: what the decompressed data of an image becomes, for any
    data of the right size.  The buffers are reused in place. */
module PostProcess {
  import opened Adam7
  import opened Bits
  import opened ImageData
  import opened InterlaceBuffers
  import opened Interlacing
  import opened PassAssembly
  import opened PixelBits
  import opened RowUnfilters
  import opened Scanlines
  import opened Sequences
  import opened Wrappers

  // ----- rows without their padding

  /** The first `linebits` bits of each of `n` rows of `linebytes` bytes. */
  ghost function Stripped(rows: seq<byte>, linebits: nat, linebytes: nat, n: nat): seq<bit> {
    if linebits <= 8 * linebytes && Start(n, 8 * linebytes) <= 8 * |rows| then
      Unpadded(BitsOf(rows), 8 * linebytes, linebits, n)
    else []
  }

  lemma StrippedIs(rows: seq<byte>, linebits: nat, linebytes: nat, n: nat)
    requires linebits <= 8 * linebytes && |rows| == Start(n, linebytes)
    ensures Start(n, 8 * linebytes) <= |BitsOf(rows)|
    ensures Stripped(rows, linebits, linebytes, n) == Unpadded(BitsOf(rows), 8 * linebytes, linebits, n)
  {
    hide BitsOf, Unpadded;
    StartOfBits(n, linebytes);
  }

  /** Rows that were padded give the flat bits back. */
  lemma PaddingStripped(rows: seq<byte>, flat: seq<bit>, linebits: nat, linebytes: nat, n: nat)
    requires IsPadded(rows, flat, linebits, linebytes, n)
    ensures Stripped(rows, linebits, linebytes, n) == flat[..Start(n, linebits)]
  {
    hide BitsOf, Padded, Unpadded, Stripped;
    StrippedIs(rows, linebits, linebytes, n);
    UnpaddingUndoesPadding(flat, linebits, 8 * linebytes, n);
  }

  /** Rows inside a buffer. */
  lemma StrippedInPlace(s: seq<byte>, o: nat, rows: seq<byte>, linebits: nat, linebytes: nat, n: nat)
    requires linebits <= 8 * linebytes && |rows| == Start(n, linebytes)
    requires o + |rows| <= |s| && s[o..o + |rows|] == rows
    ensures Start(n, 8 * linebytes) <= |BitsOf(s)[8 * o..]|
    ensures Unpadded(BitsOf(s)[8 * o..], 8 * linebytes, linebits, n) == Stripped(rows, linebits, linebytes, n)
  {
    hide BitsOf, Unpadded, Stripped;
    StartOfBits(n, linebytes);
    StrippedIs(rows, linebits, linebytes, n);
    BitsOfSlice(s, o, o + |rows|);
    Nested(BitsOf(s), 8 * o, 8 * |s|, 0, 8 * |rows|);
    assert BitsOf(s)[8 * o..8 * |s|] == BitsOf(s)[8 * o..];
    UnpaddedPrefix(BitsOf(rows), BitsOf(s)[8 * o..], 8 * linebytes, linebits, n);
  }

  /** Rows of whole bytes have nothing to strip. */
  lemma {:induction false} NothingToStrip(b: seq<bit>, linebits: nat, n: nat)
    requires Start(n, linebits) <= |b|
    ensures Unpadded(b, linebits, linebits, n) == b[..Start(n, linebits)]
  {
    if n > 0 {
      NothingToStrip(b, linebits, n - 1);
      assert b[..Start(n - 1, linebits)] + b[Start(n - 1, linebits)..Start(n, linebits)] == b[..Start(n, linebits)];
    }
  }

  // ----- images without interlacing

  /** The unfiltered rows of an image, or error 36. */
  ghost function PlainRows(data: seq<byte>, w: nat, h: nat, bpp: nat): (r: Result<seq<byte>>)
    requires |data| == Start(h, 1 + RowBytes(w, bpp))
  {
    UnfilteredImage(data, RowBytes(w, bpp), ByteWidth(bpp), h)
  }

  /** The buffer starts with the bits of these rows, without their padding. */
  ghost predicate HoldsRows(s: seq<byte>, rows: seq<byte>, w: nat, h: nat, bpp: nat) {
    Start(h, w * bpp) <= 8 * |s| && BitsOf(s)[..Start(h, w * bpp)] == Stripped(rows, w * bpp, RowBytes(w, bpp), h)
  }

  /** postProcessScanlines for interlace method 0. */
  method PostProcessPlain(out: array<byte>, inn: array<byte>, w: nat, h: nat, bpp: nat) returns (error: nat)
    requires ValidDepth(bpp) && w > 0 && h > 0 && out != inn
    requires inn.Length == Start(h, 1 + RowBytes(w, bpp)) && Start(h, w * bpp) <= 8 * out.Length
    modifies out, inn
    ensures match PlainRows(old(inn[..]), w, h, bpp) {
              case Error(code) => error == code == 36
              case Ok(rows) => error == 0 && HoldsRows(out[..], rows, w, h, bpp) }
  {
    hide UnfilteredImage, BitsOf, Unpadded, Stripped, RowBytes, ByteWidth, Written;
    var linebytes := RowBytes(w, bpp);
    WideEnough(w, bpp);
    RowBytesBounds(w, bpp);
    StartOfBits(h, linebytes);
    StartsAscend(h, linebytes);
    ghost var r := PlainRows(inn[..], w, h, bpp);
    assert inn[..] == inn[0..0 + Start(h, 1 + linebytes)];
    if w * bpp != 8 * linebytes {
      error := Unfilter(inn, 0, inn, 0, h, linebytes, ByteWidth(bpp));
      if error != 0 { return; }
      ghost var rows := r.value;
      assert inn[0..0 + |rows|] == rows;
      ghost var before := BitsOf(out[..]);
      StrippedInPlace(inn[..], 0, rows, w * bpp, linebytes, h);
      RemovePaddingBits(out, 0, inn, 0, w * bpp, 8 * linebytes, h);
      WrittenFirst(before, Unpadded(BitsOf(inn[..])[8 * 0..], 8 * linebytes, w * bpp, h));
    } else {
      error := Unfilter(out, 0, inn, 0, h, linebytes, ByteWidth(bpp));
      if error != 0 { return; }
      ghost var rows := r.value;
      assert out[..|rows|] == rows;
      BitsOfSlice(out[..], 0, |rows|);
      StrippedIs(rows, w * bpp, linebytes, h);
      NothingToStrip(BitsOf(rows), w * bpp, h);
    }
  }

  // ----- interlaced images

  /** The unfiltered rows of pass `i`, or error 36. */
  ghost function PassRows(data: seq<byte>, i: nat, w: nat, h: nat, bpp: nat): (r: Result<seq<byte>>)
    requires i < 7 && w > 0 && h > 0 && |data| == FilterStart(7, w, h, bpp)
  {
    FilterStartsAscend(i + 1, 7, w, h, bpp);
    PassSize(i, w, h, bpp);
    UnfilteredImage(data[FilterStart(i, w, h, bpp)..FilterStart(i + 1, w, h, bpp)], LineBytes(i, w, h, bpp),
        ByteWidth(bpp),
                    Rows(i, w, h))
  }

  /** These rows are pass `i` of the image, whatever their padding is. */
  ghost predicate ShowPass(rows: seq<byte>, image: seq<byte>, i: nat, w: nat, h: nat, bpp: nat)
    requires IsPixels(image, w, h, bpp) && i < 7
  {
    if bpp < 8 then
      Stripped(rows, Cols(i, w, h) * bpp, LineBytes(i, w, h, bpp), Rows(i, w, h))
          == WholePass(PixelBitsOf(image, w, h, bpp), i, w, h, bpp)
    else
      rows == WholePass(image, i, w, h, bpp / 8)
  }

  /** Rows made by the encoder do. */
  lemma PassRowsShowPass(rows: seq<byte>, image: seq<byte>, i: nat, w: nat, h: nat, bpp: nat)
    requires IsPixels(image, w, h, bpp) && i < 7 && IsPassRows(rows, image, i, w, h, bpp)
    ensures ShowPass(rows, image, i, w, h, bpp)
  {
    hide Cols, Rows, WholePass, Stripped, RowBytes, Padded, BitsOf;
    if bpp < 8 {
      var pass := WholePass(PixelBitsOf(image, w, h, bpp), i, w, h, bpp);
      PassLength(PixelBitsOf(image, w, h, bpp), i, w, h, bpp);
      PaddingStripped(rows, pass, Cols(i, w, h) * bpp, LineBytes(i, w, h, bpp), Rows(i, w, h));
      assert pass[..|pass|] == pass;
    }
  }

  lemma SameSlice<T>(s: seq<T>, s': seq<T>, m: nat, a: nat, n: nat)
    requires a + n <= m <= |s| && m <= |s'| && s'[..m] == s[..m]
    ensures s'[a..a + n] == s[a..a + n]
  {
    assert s'[a..a + n] == s'[..m][a..a + n] && s[a..a + n] == s[..m][a..a + n];
  }

  /** Bytes below `m` decide the passes stored there. */
  lemma PixelsKept(s: seq<byte>, s': seq<byte>, image: seq<byte>, i: nat, m: nat, w: nat, h: nat, bpp: nat)
    requires IsPixels(image, w, h, bpp) && i < 7 && HoldsPixels(s, image, i, w, h, bpp)
    requires PassStart(i + 1, w, h, bpp) <= m <= |s| == |s'| && s'[..m] == s[..m]
    ensures HoldsPixels(s', image, i, w, h, bpp)
  {
    hide PassStart, BitsOf, Rows, Cols, WholePass;
    if bpp < 8 {
      BitStarts(i, w, h, bpp);
      PassLength(PixelBitsOf(image, w, h, bpp), i, w, h, bpp);
      BitsOfSlice(s, 0, m);
      BitsOfSlice(s', 0, m);
      SameSlice(BitsOf(s), BitsOf(s'), 8 * m, 8 * PassStart(i, w, h, bpp),
          |WholePass(PixelBitsOf(image, w, h, bpp), i, w, h, bpp)|);
    } else {
      assert bpp == 8 * (bpp / 8);
      ByteStarts(i, w, h, bpp / 8);
      PassLength(image, i, w, h, bpp / 8);
      SameSlice(s, s', m, PassStart(i, w, h, bpp), |WholePass(image, i, w, h, bpp / 8)|);
    }
  }

  lemma LaterPassKept(data: seq<byte>, data': seq<byte>, i: nat, m: nat, w: nat, h: nat, bpp: nat)
    requires w > 0 && h > 0 && m <= i < 7 && |data'| == |data| == FilterStart(7, w, h, bpp)
    requires FilterStart(m, w, h, bpp) <= |data|
             && data'[FilterStart(m, w, h, bpp)..] == data[FilterStart(m, w, h, bpp)..]
    ensures PassRows(data', i, w, h, bpp) == PassRows(data, i, w, h, bpp)
  {
    hide FilterStart, UnfilteredImage, Rows, LineBytes;
    FilterStartsAscend(m, i, w, h, bpp);
    FilterStartsAscend(i + 1, 7, w, h, bpp);
    PassSize(i, w, h, bpp);
    var a, b, k := FilterStart(i, w, h, bpp), FilterStart(i + 1, w, h, bpp), FilterStart(m, w, h, bpp);
    assert data'[a..b] == data'[k..][a - k..b - k] && data[a..b] == data[k..][a - k..b - k];
  }

  /** Pass `i` has been unfiltered to its place, and nothing else has changed. */
  ghost predicate PassUnfiltered(now: seq<byte>, before: seq<byte>, rows: seq<byte>, i: nat, w: nat, h: nat, bpp: nat)
    requires i < 7 && w > 0 && h > 0
  {
    && PaddedStart(i, w, h, bpp) + |rows| == PaddedStart(i + 1, w, h, bpp) <= |before|
    && now == before[..PaddedStart(i, w, h, bpp)] + rows + before[PaddedStart(i + 1, w, h, bpp)..]
  }

  /** Unfilters pass `i` in place. */
  method UnfilterPass(inn: array<byte>, v: PassValues, i: nat, w: nat, h: nat, bpp: nat)
    returns (error: nat)
    requires w > 0 && h > 0 && i < 7 && bpp > 0 && PassValuesOk(v, w, h, bpp) && inn.Length == FilterStart(7, w, h, bpp)
    modifies inn
    ensures match PassRows(old(inn[..]), i, w, h, bpp) {
              case Error(code) => error == code == 36
              case Ok(rows) => error == 0 && PassUnfiltered(inn[..], old(inn[..]), rows, i, w, h, bpp) }
  {
    hide Rows, Cols, FilterStart, PaddedStart, PassStart, RowBytes, ByteWidth, UnfilteredImage;
    var lb := RowBytes(v.passw[i], bpp);
    FilterStartsAscend(i + 1, 7, w, h, bpp);
    PassSize(i, w, h, bpp);
    PassOrder(i, w, h, bpp);
    PassOrder(i + 1, w, h, bpp);
    EmptyPass(i, w, h);
    if v.passw[i] > 0 { WideEnough(v.passw[i], bpp); }
    assert inn[..][FilterStart(i, w, h, bpp)..FilterStart(i + 1, w, h, bpp)]
        == inn[FilterStart(i, w, h, bpp)..FilterStart(i + 1, w, h, bpp)];
    error := Unfilter(inn, v.paddedStart[i], inn, v.filterStart[i], v.passh[i], lb, ByteWidth(bpp));
  }

  /** What RestorePass does to the buffer: pass `i` of an image that the rows
      show is stored, and the bytes before and behind it stay. */
  ghost predicate Restored(now: seq<byte>, before: seq<byte>, rows: seq<byte>, image: seq<byte>, i: nat, w: nat,
                           h: nat, bpp: nat)
    requires IsPixels(image, w, h, bpp) && i < 7
  {
    && |now| == |before| && PassStart(i, w, h, bpp) <= |now| && FilterStart(i + 1, w, h, bpp) <= |now|
    && (ShowPass(rows, image, i, w, h, bpp) ==> HoldsPixels(now, image, i, w, h, bpp))
    && now[..PassStart(i, w, h, bpp)] == before[..PassStart(i, w, h, bpp)]
    && now[FilterStart(i + 1, w, h, bpp)..] == before[FilterStart(i + 1, w, h, bpp)..]
  }

  /** Unfilters pass `i` and removes its padding; the passes before it and the
      filtered passes behind it stay as they are. */
  method RestorePass(inn: array<byte>, v: PassValues, i: nat, w: nat, h: nat, bpp: nat, ghost image: seq<byte>)
    returns (error: nat)
    requires IsPixels(image, w, h, bpp) && i < 7 && PassValuesOk(v, w, h, bpp)
             && inn.Length == FilterStart(7, w, h, bpp)
    modifies inn
    ensures match PassRows(old(inn[..]), i, w, h, bpp) {
              case Error(code) => error == code == 36
              case Ok(rows) => error == 0 && Restored(inn[..], old(inn[..]), rows, image, i, w, h, bpp) }
  {
    hide PassRows, Rows, Cols, FilterStart, PaddedStart, PassStart, Restored, PassUnfiltered, HoldsPixels, ShowPass;
    ghost var before := inn[..];
    error := UnfilterPass(inn, v, i, w, h, bpp);
    if error != 0 { return; }
    ghost var rows := PassRows(before, i, w, h, bpp).value;
    RowsSize(before, rows, i, w, h, bpp);
    if bpp < 8 {
      StripPass(inn, v, before, rows, i, w, h, bpp, image);
    } else {
      WholePassRestored(inn[..], before, rows, image, i, w, h, bpp);
    }
  }

  lemma RowsSize(data: seq<byte>, rows: seq<byte>, i: nat, w: nat, h: nat, bpp: nat)
    requires i < 7 && w > 0 && h > 0 && |data| == FilterStart(7, w, h, bpp) && PassRows(data, i, w, h, bpp) == Ok(rows)
    ensures |rows| == Start(Rows(i, w, h), LineBytes(i, w, h, bpp))
  {
    hide UnfilteredImage, Rows, Cols, FilterStart;
  }

  lemma WholePassRestored(now: seq<byte>, before: seq<byte>, rows: seq<byte>, image: seq<byte>, i: nat, w: nat,
                          h: nat, bpp: nat)
    requires IsPixels(image, w, h, bpp) && bpp >= 8 && i < 7 && |before| == FilterStart(7, w, h, bpp)
    requires PassUnfiltered(now, before, rows, i, w, h, bpp)
    ensures Restored(now, before, rows, image, i, w, h, bpp)
  {
    hide Rows, Cols, FilterStart, PaddedStart, PassStart, WholePass;
    assert bpp == 8 * (bpp / 8);
    NoGaps(i, w, h, bpp / 8);
    NoGaps(i + 1, w, h, bpp / 8);
    PassOrder(i + 1, w, h, bpp);
    FilterStartsAscend(i + 1, 7, w, h, bpp);
  }

  /** removePaddingBits for one pass. */
  method StripPass(inn: array<byte>, v: PassValues, ghost before: seq<byte>, ghost rows: seq<byte>, i: nat, w: nat,
                   h: nat, bpp: nat, ghost image: seq<byte>)
    requires IsPixels(image, w, h, bpp) && bpp < 8 && i < 7 && PassValuesOk(v, w, h, bpp)
    requires |before| == FilterStart(7, w, h, bpp) && PassUnfiltered(inn[..], before, rows, i, w, h, bpp)
    requires |rows| == Start(Rows(i, w, h), LineBytes(i, w, h, bpp))
    modifies inn
    ensures Restored(inn[..], before, rows, image, i, w, h, bpp)
  {
    hide Rows, Cols, FilterStart, PaddedStart, PassStart, RowBytes, BitsOf, WholePass, Written, Unpadded, Stripped;
    PassOrder(i, w, h, bpp);
    PassOrder(i + 1, w, h, bpp);
    FilterStartsAscend(i + 1, 7, w, h, bpp);
    var lb, linebits := RowBytes(v.passw[i], bpp), v.passw[i] * bpp;
    ghost var mid := inn[..];
    assert mid[v.paddedStart[i]..v.paddedStart[i] + |rows|] == rows;
    RowBytesBounds(v.passw[i], bpp);
    StrippedInPlace(mid, v.paddedStart[i], rows, linebits, lb, v.passh[i]);
    PassEnds(i, w, h, bpp);
    PassLength(PixelBitsOf(image, w, h, bpp), i, w, h, bpp);
    RemovePaddingBits(inn, v.start[i], inn, v.paddedStart[i], linebits, 8 * lb, v.passh[i]);
    if ShowPass(rows, image, i, w, h, bpp) {
      HoldsWritten(BitsOf(mid), 8 * v.start[i], PixelBitsOf(image, w, h, bpp), i, w, h, bpp);
    }
    assert inn[..][..v.start[i]] == mid[..v.start[i]] == before[..v.start[i]];
    assert inn[..][v.filterStart[i + 1]..] == mid[v.filterStart[i + 1]..] == before[v.filterStart[i + 1]..];
  }

  lemma PassEnds(i: nat, w: nat, h: nat, bpp: nat)
    requires i < 7 && w > 0 && h > 0
    ensures 8 * PassStart(i, w, h, bpp) + Start(Rows(i, w, h), Cols(i, w, h) * bpp) <= 8 * PassStart(i + 1, w, h, bpp)
  {
    hide Rows, Cols;
    BitStarts(i, w, h, bpp);
    StartIsProduct(Cols(i, w, h), bpp);
  }

  // ----- the whole image

  /** All rows of all passes have known filter types. */
  ghost predicate AllPassesUnfilter(data: seq<byte>, w: nat, h: nat, bpp: nat)
    requires w > 0 && h > 0 && |data| == FilterStart(7, w, h, bpp)
  {
    forall i: nat :: i < 7 ==> PassRows(data, i, w, h, bpp).Ok?
  }

  /** The passes of the data, unfiltered, show the image. */
  ghost predicate ShowsImage(data: seq<byte>, image: seq<byte>, w: nat, h: nat, bpp: nat)
    requires IsPixels(image, w, h, bpp) && |data| == FilterStart(7, w, h, bpp)
  {
    forall i: nat :: i < 7 ==>
          PassRows(data, i, w, h, bpp).Ok? && ShowPass(PassRows(data, i, w, h, bpp).value, image, i, w, h, bpp)
  }

  /** Passes before `i` are restored, the others as they were. */
  ghost predicate RestoredUpTo(now: seq<byte>, data: seq<byte>, image: seq<byte>, i: nat, w: nat, h: nat, bpp: nat)
    requires IsPixels(image, w, h, bpp) && i <= 7 && |data| == FilterStart(7, w, h, bpp)
  {
    && |now| == |data|
    && (forall j: nat {:trigger PassRows(data, j, w, h, bpp)} :: j < i ==> PassRows(data, j, w, h, bpp).Ok?)
    && (ShowsImage(data, image, w, h, bpp) ==>
          forall j: nat {:trigger HoldsPixels(now, image, j, w, h, bpp)} :: j < i ==>
                HoldsPixels(now, image, j, w, h, bpp))
    && (forall j: nat {:trigger PassRows(now, j, w, h, bpp)} :: i <= j < 7 ==>
          PassRows(now, j, w, h, bpp) == PassRows(data, j, w, h, bpp))
  }

  lemma OneMoreRestored(now: seq<byte>, now': seq<byte>, data: seq<byte>, image: seq<byte>, i: nat, w: nat, h: nat,
                        bpp: nat, rows: seq<byte>)
    requires IsPixels(image, w, h, bpp) && i < 7 && |data| == FilterStart(7, w, h, bpp)
    requires RestoredUpTo(now, data, image, i, w, h, bpp)
    requires PassRows(now, i, w, h, bpp) == Ok(rows) && Restored(now', now, rows, image, i, w, h, bpp)
    ensures RestoredUpTo(now', data, image, i + 1, w, h, bpp)
  {
    hide PassRows, Rows, Cols, FilterStart, PaddedStart, PassStart, HoldsPixels, ShowPass;
    if ShowsImage(data, image, w, h, bpp) {
      assert PassRows(data, i, w, h, bpp) == Ok(rows);
      forall j: nat | j < i ensures HoldsPixels(now', image, j, w, h, bpp) {
        assert HoldsPixels(now, image, j, w, h, bpp);
        PassStartsAscend(j + 1, i, w, h, bpp);
        PixelsKept(now, now', image, j, PassStart(i, w, h, bpp), w, h, bpp);
      }
    }
    forall j: nat | i + 1 <= j < 7 ensures PassRows(now', j, w, h, bpp) == PassRows(data, j, w, h, bpp) {
      LaterPassKept(now, now', j, i + 1, w, h, bpp);
    }
  }

  lemma NothingRestored(data: seq<byte>, image: seq<byte>, w: nat, h: nat, bpp: nat)
    requires IsPixels(image, w, h, bpp) && |data| == FilterStart(7, w, h, bpp)
    ensures RestoredUpTo(data, data, image, 0, w, h, bpp)
  {
  }

  /** The buffer holds the pixels; unused bits of the last byte do not matter. */
  ghost predicate SamePixels(out: seq<byte>, image: seq<byte>, w: nat, h: nat, bpp: nat)
    requires IsPixels(image, w, h, bpp)
  {
    if bpp < 8 then Start(Start(h, w), bpp) <= 8 * |out|
        && BitsOf(out)[..Start(Start(h, w), bpp)] == PixelBitsOf(image, w, h, bpp)
    else out == image
  }

  /** A buffer for the pixels: zeros where single bits will be set. */
  ghost predicate IsRoom(out: seq<byte>, w: nat, h: nat, bpp: nat) {
    if bpp < 8 then Start(Start(h, w), bpp) <= 8 * |out| && forall q :: 0 <= q < 8 * |out| ==> BitsOf(out)[q] == 0
    else |out| == Start(Start(h, w), bpp / 8)
  }

  /** Unfilters all passes and puts the pixels of the image that they show, if
      it is this one, where they belong. */
  method RestoreImage(out: array<byte>, inn: array<byte>, w: nat, h: nat, bpp: nat, ghost image: seq<byte>)
    returns (error: nat)
    requires IsPixels(image, w, h, bpp) && out != inn && inn.Length == FilterStart(7, w, h, bpp)
             && IsRoom(out[..], w, h, bpp)
    modifies out, inn
    ensures error == if AllPassesUnfilter(old(inn[..]), w, h, bpp) then 0 else 36
    ensures ShowsImage(old(inn[..]), image, w, h, bpp) ==> error == 0 && SamePixels(out[..], image, w, h, bpp)
  {
    hide PassRows, Rows, Cols, FilterStart, PaddedStart, PassStart, HoldsPixels, Restored, ShowPass, IsRoom, SamePixels;
    var v := GetPassValues(w, h, bpp);
    ghost var data := inn[..];
    NothingRestored(data, image, w, h, bpp);
    for i := 0 to 7
      invariant out[..] == old(out[..]) && RestoredUpTo(inn[..], data, image, i, w, h, bpp)
    {
      ghost var before := inn[..];
      error := RestorePass(inn, v, i, w, h, bpp, image);
      assert PassRows(before, i, w, h, bpp) == PassRows(data, i, w, h, bpp);
      if error != 0 { return; }
      OneMoreRestored(before, inn[..], data, image, i, w, h, bpp, PassRows(before, i, w, h, bpp).value);
    }
    error := 0;
    PassOrder(7, w, h, bpp);
    Deinterlace(out, inn, w, h, bpp, image);
  }

  // ----- Adam7_deinterlace, for either kind of pixels

  ghost predicate HoldsAll(s: seq<byte>, image: seq<byte>, w: nat, h: nat, bpp: nat)
    requires IsPixels(image, w, h, bpp)
  {
    forall j: nat {:trigger HoldsPixels(s, image, j, w, h, bpp)} :: j < 7 ==> HoldsPixels(s, image, j, w, h, bpp)
  }

  lemma BytePassesFit(s: seq<byte>, base: seq<nat>, w: nat, h: nat, u: nat)
    requires w > 0 && h > 0 && |base| == 8 && forall i :: 0 <= i < 8 ==> base[i] == PassStart(i, w, h, 8 * u)
    requires PassStart(7, w, h, 8 * u) <= |s|
    ensures PassesFit(s, base, w, h, u)
  {
    hide PassStart, Cols, Rows;
    forall i: nat | i < 7 ensures base[i] + Start(Rows(i, w, h), Start(Cols(i, w, h), u)) <= |s| {
      ByteStarts(i, w, h, u);
      PassStartsAscend(i + 1, 7, w, h, 8 * u);
    }
  }

  lemma BitPassesFit(s: seq<byte>, base: seq<nat>, w: nat, h: nat, u: nat)
    requires w > 0 && h > 0 && |base| == 8 && forall i :: 0 <= i < 8 ==> base[i] == 8 * PassStart(i, w, h, u)
    requires PassStart(7, w, h, u) <= |s|
    ensures PassesFit(BitsOf(s), base, w, h, u)
  {
    hide PassStart, Cols, Rows, BitsOf;
    forall i: nat | i < 7 ensures base[i] + Start(Rows(i, w, h), Start(Cols(i, w, h), u)) <= |BitsOf(s)| {
      BitStarts(i, w, h, u);
      PassStartsAscend(i + 1, 7, w, h, u);
    }
  }

  method Deinterlace(out: array<byte>, inn: array<byte>, w: nat, h: nat, bpp: nat, ghost image: seq<byte>)
    requires IsPixels(image, w, h, bpp) && out != inn && PassStart(7, w, h, bpp) <= inn.Length
             && IsRoom(out[..], w, h, bpp)
    modifies out
    ensures HoldsAll(inn[..], image, w, h, bpp) ==> SamePixels(out[..], image, w, h, bpp)
  {
    hide PassStart, HoldsPass, BitsOf, PassesFit;
    ghost var s := inn[..];
    if bpp < 8 {
      ghost var base := seq<nat>(8, i requires 0 <= i < 8 => 8 * PassStart(i, w, h, bpp));
      BitPassesFit(s, base, w, h, bpp);
      ghost var img := PassesAreAnImage(BitsOf(s), base, w, h, bpp);
      DeinterlaceBits(out, inn, w, h, bpp, base, img);
      if HoldsAll(s, image, w, h, bpp) {
        forall i: nat | i < 7 ensures HoldsPass(BitsOf(s), base[i], PixelBitsOf(image, w, h, bpp), i, w, h, bpp) {
          assert HoldsPixels(s, image, i, w, h, bpp);
        }
        PassesDecideImage(BitsOf(s), base, img, PixelBitsOf(image, w, h, bpp), w, h, bpp);
      }
    } else {
      var bytewidth := bpp / 8;
      assert bpp == 8 * bytewidth;
      ghost var base := seq<nat>(8, i requires 0 <= i < 8 => PassStart(i, w, h, bpp));
      BytePassesFit(s, base, w, h, bytewidth);
      ghost var img := PassesAreAnImage(s, base, w, h, bytewidth);
      DeinterlaceBytes(out, inn, w, h, bytewidth, base, img);
      if HoldsAll(s, image, w, h, bpp) {
        forall i: nat | i < 7 ensures HoldsPass(s, base[i], image, i, w, h, bytewidth) {
          assert HoldsPixels(s, image, i, w, h, bpp);
        }
        PassesDecideImage(s, base, img, image, w, h, bytewidth);
      }
    }
  }

  // ----- whatever the data is, it shows one image

  /** The rows of pass `i` in bits, for pixels of less than a byte. */
  ghost function PassBits(rows: seq<byte>, i: nat, w: nat, h: nat, bpp: nat): seq<bit>
    requires w > 0 && h > 0 && i < 7
  {
    Stripped(rows, Cols(i, w, h) * bpp, LineBytes(i, w, h, bpp), Rows(i, w, h))
  }

  lemma StrippedSize(data: seq<byte>, i: nat, w: nat, h: nat, bpp: nat)
    requires w > 0 && h > 0 && i < 7 && |data| == FilterStart(7, w, h, bpp) && PassRows(data, i, w, h, bpp).Ok?
    ensures |PassBits(PassRows(data, i, w, h, bpp).value, i, w, h, bpp)|
         == Start(Rows(i, w, h), Start(Cols(i, w, h), bpp))
  {
    hide PassRows, Rows, Cols, FilterStart, Stripped, BitsOf, RowBytes;
    var rows := PassRows(data, i, w, h, bpp).value;
    RowsSize(data, rows, i, w, h, bpp);
    RowBytesBounds(Cols(i, w, h), bpp);
    StrippedIs(rows, Cols(i, w, h) * bpp, LineBytes(i, w, h, bpp), Rows(i, w, h));
    StartIsProduct(Cols(i, w, h), bpp);
  }

  /** The pixels of all passes, in bytes or in bits. */
  ghost function BytePasses(data: seq<byte>, w: nat, h: nat, bpp: nat): (passes: seq<seq<byte>>)
    requires w > 0 && h > 0 && |data| == FilterStart(7, w, h, bpp) && AllPassesUnfilter(data, w, h, bpp)
  {
    seq(7, i requires 0 <= i < 7 => PassRows(data, i, w, h, bpp).value)
  }

  ghost function BitPasses(data: seq<byte>, w: nat, h: nat, bpp: nat): (passes: seq<seq<bit>>)
    requires w > 0 && h > 0 && |data| == FilterStart(7, w, h, bpp) && AllPassesUnfilter(data, w, h, bpp)
  {
    seq<seq<bit>>(7, i requires 0 <= i < 7 => PassBits(PassRows(data, i, w, h, bpp).value, i, w, h, bpp))
  }

  /** To show an image is to have its passes. */
  lemma ShowsItsPasses(data: seq<byte>, image: seq<byte>, w: nat, h: nat, bpp: nat)
    requires IsPixels(image, w, h, bpp) && |data| == FilterStart(7, w, h, bpp) && AllPassesUnfilter(data, w, h, bpp)
    ensures bpp >= 8 ==>
              (ShowsImage(data, image, w, h, bpp) <==> ArePasses(BytePasses(data, w, h, bpp), image, w, h, bpp / 8))
    ensures bpp < 8 ==>
              (ShowsImage(data, image, w, h, bpp) <==>
               ArePasses(BitPasses(data, w, h, bpp), PixelBitsOf(image, w, h, bpp), w, h, bpp))
  {
    hide PassRows, Rows, Cols, FilterStart, Stripped, BitsOf, RowBytes, WholePass;
    if bpp >= 8 {
      var passes := BytePasses(data, w, h, bpp);
      forall i: nat | i < 7
        ensures ShowPass(PassRows(data, i, w, h, bpp).value, image, i, w, h, bpp)
           <==> passes[i] == WholePass(image, i, w, h, bpp / 8)
      {}
    } else {
      var passes := BitPasses(data, w, h, bpp);
      forall i: nat | i < 7
        ensures ShowPass(PassRows(data, i, w, h, bpp).value, image, i, w, h, bpp)
           <==> passes[i] == WholePass(PixelBitsOf(image, w, h, bpp), i, w, h, bpp)
      {}
    }
  }

  lemma BytesShown(data: seq<byte>, w: nat, h: nat, bpp: nat) returns (image: seq<byte>)
    requires w > 0 && h > 0 && ValidDepth(bpp) && bpp >= 8 && |data| == FilterStart(7, w, h, bpp)
    requires AllPassesUnfilter(data, w, h, bpp)
    ensures IsPixels(image, w, h, bpp) && ShowsImage(data, image, w, h, bpp)
  {
    hide PassRows, Rows, Cols, FilterStart, ShowsImage, WholePass, RowBytes;
    var u := bpp / 8;
    assert bpp == 8 * u;
    var passes := BytePasses(data, w, h, bpp);
    forall i: nat | i < 7 ensures |passes[i]| == Start(Rows(i, w, h), Start(Cols(i, w, h), u)) {
      RowsSize(data, passes[i], i, w, h, bpp);
      WholeRow(Cols(i, w, h), u);
    }
    image := AnyPassesAreAnImage(passes, w, h, u);
    ShowsItsPasses(data, image, w, h, bpp);
  }

  lemma BitsShown(data: seq<byte>, w: nat, h: nat, bpp: nat) returns (image: seq<byte>)
    requires w > 0 && h > 0 && ValidDepth(bpp) && bpp < 8 && |data| == FilterStart(7, w, h, bpp)
    requires AllPassesUnfilter(data, w, h, bpp)
    ensures IsPixels(image, w, h, bpp) && ShowsImage(data, image, w, h, bpp)
  {
    hide PassRows, Rows, Cols, FilterStart, ShowsImage, WholePass, RowBytes, Stripped, BitsOf;
    var passes := BitPasses(data, w, h, bpp);
    forall i: nat | i < 7 ensures |passes[i]| == Start(Rows(i, w, h), Start(Cols(i, w, h), bpp)) {
      StrippedSize(data, i, w, h, bpp);
    }
    var img := AnyPassesAreAnImage(passes, w, h, bpp);
    image := PackedBits(img, |img|, |img|);
    assert PixelBitsOf(image, w, h, bpp) == img;
    ShowsItsPasses(data, image, w, h, bpp);
  }

  /** Data whose rows have known filter types shows an image. */
  lemma SomethingShown(data: seq<byte>, w: nat, h: nat, bpp: nat) returns (image: seq<byte>)
    requires w > 0 && h > 0 && ValidDepth(bpp) && |data| == FilterStart(7, w, h, bpp)
    requires AllPassesUnfilter(data, w, h, bpp)
    ensures IsPixels(image, w, h, bpp) && ShowsImage(data, image, w, h, bpp)
  {
    hide FilterStart, ShowsImage, AllPassesUnfilter;
    if bpp < 8 { image := BitsShown(data, w, h, bpp); } else { image := BytesShown(data, w, h, bpp); }
  }

  /** The buffer holds the pixels that the data shows. */
  ghost predicate HoldsShown(out: seq<byte>, data: seq<byte>, w: nat, h: nat, bpp: nat)
    requires w > 0 && h > 0 && |data| == FilterStart(7, w, h, bpp)
  {
    exists image: seq<byte> ::
      IsPixels(image, w, h, bpp) && ShowsImage(data, image, w, h, bpp) && SamePixels(out, image, w, h, bpp)
  }

  /** It never shows the pixels of two images. */
  lemma OneImageShown(data: seq<byte>, image: seq<byte>, other: seq<byte>, w: nat, h: nat, bpp: nat)
    requires IsPixels(image, w, h, bpp) && IsPixels(other, w, h, bpp) && |data| == FilterStart(7, w, h, bpp)
    requires ShowsImage(data, image, w, h, bpp) && ShowsImage(data, other, w, h, bpp)
    ensures SamePixels(other, image, w, h, bpp)
  {
    assert AllPassesUnfilter(data, w, h, bpp) by { hide ShowPass, PassRows, FilterStart; }
    hide AllPassesUnfilter, ShowsImage, FilterStart, BitsOf, ArePasses, BitPasses, BytePasses;
    ShowsItsPasses(data, image, w, h, bpp);
    ShowsItsPasses(data, other, w, h, bpp);
    if bpp < 8 {
      AnyPassesDecideImage(BitPasses(data, w, h, bpp), PixelBitsOf(image, w, h, bpp), PixelBitsOf(other, w, h, bpp),
                           w, h, bpp);
    } else {
      AnyPassesDecideImage(BytePasses(data, w, h, bpp), image, other, w, h, bpp / 8);
    }
  }

  /** So what is shown is any image that the data is known to show. */
  lemma ShownIsImage(out: seq<byte>, data: seq<byte>, image: seq<byte>, w: nat, h: nat, bpp: nat)
    requires IsPixels(image, w, h, bpp) && |data| == FilterStart(7, w, h, bpp)
    requires ShowsImage(data, image, w, h, bpp) && HoldsShown(out, data, w, h, bpp)
    ensures SamePixels(out, image, w, h, bpp)
  {
    hide ShowsImage, FilterStart, BitsOf;
    var other: seq<byte> :|
      IsPixels(other, w, h, bpp) && ShowsImage(data, other, w, h, bpp) && SamePixels(out, other, w, h, bpp);
    OneImageShown(data, image, other, w, h, bpp);
  }

  lemma BlankImage(w: nat, h: nat, bpp: nat) returns (image: seq<byte>)
    requires w > 0 && h > 0 && ValidDepth(bpp)
    ensures IsPixels(image, w, h, bpp)
  {
    hide Start;
    image := seq<byte>(if bpp < 8 then Start(Start(h, w), bpp) else Start(Start(h, w), bpp / 8), _ => 0);
  }

  /** postProcessScanlines for interlace method 1: the pixels that the passes show. */
  method PostProcessInterlaced(out: array<byte>, inn: array<byte>, w: nat, h: nat, bpp: nat) returns (error: nat)
    requires w > 0 && h > 0 && ValidDepth(bpp) && out != inn && inn.Length == FilterStart(7, w, h, bpp)
             && IsRoom(out[..], w, h, bpp)
    modifies out, inn
    ensures error == if AllPassesUnfilter(old(inn[..]), w, h, bpp) then 0 else 36
    ensures error == 0 ==> HoldsShown(out[..], old(inn[..]), w, h, bpp)
  {
    hide AllPassesUnfilter, ShowsImage, FilterStart, IsRoom, SamePixels;
    ghost var image := BlankImage(w, h, bpp);
    if AllPassesUnfilter(inn[..], w, h, bpp) { image := SomethingShown(inn[..], w, h, bpp); }
    error := RestoreImage(out, inn, w, h, bpp, image);
  }
}
