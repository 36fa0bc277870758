/** Adam7 interlacing (PNG Second Edition, section 8.2): the geometry of the seven passes. */
module Adam7 {
  import Bits
  import opened Sequences

  // ----- the tables: start and step of each pass

  function Ix(i: nat): nat
    requires i < 7
  {
    [0, 4, 0, 2, 0, 1, 0][i]
  }

  function Iy(i: nat): nat
    requires i < 7
  {
    [0, 0, 4, 0, 2, 0, 1][i]
  }

  function Dx(i: nat): (d: nat)
    requires i < 7
    ensures d == 1 || d == 2 || d == 4 || d == 8
  {
    [8, 8, 4, 4, 2, 2, 1][i]
  }

  function Dy(i: nat): (d: nat)
    requires i < 7
    ensures d == 1 || d == 2 || d == 4 || d == 8
  {
    [8, 8, 8, 4, 4, 2, 2][i]
  }

  /** passw and passh before empty passes are given no extent at all. */
  function RawCols(i: nat, w: nat): nat
    requires i < 7 && w > 0
  {
    (w + Dx(i) - Ix(i) - 1) / Dx(i)
  }

  function RawRows(i: nat, h: nat): nat
    requires i < 7 && h > 0
  {
    (h + Dy(i) - Iy(i) - 1) / Dy(i)
  }

  function Cols(i: nat, w: nat, h: nat): nat
    requires i < 7 && w > 0 && h > 0
  {
    if RawRows(i, h) == 0 then 0 else RawCols(i, w)
  }

  function Rows(i: nat, w: nat, h: nat): nat
    requires i < 7 && w > 0 && h > 0
  {
    if RawCols(i, w) == 0 then 0 else RawRows(i, h)
  }

  // ----- the passes partition the image

  /** Pass `i` has pixel (x, y) where the image has pixel (X, Y). */
  ghost predicate IsPixelOf(i: nat, x: nat, y: nat, X: nat, Y: nat)
    requires i < 7
  {
    X == Ix(i) + x * Dx(i) && Y == Iy(i) + y * Dy(i)
  }

  /** The pass of pixel (X, Y) in the 8 by 8 pattern of the standard. */
  function PassOf(X: nat, Y: nat): (i: nat)
    ensures i < 7
  {
    if Y % 2 == 1 then 6
    else if X % 2 == 1 then 5
    else if Y % 4 == 2 then 4
    else if X % 4 == 2 then 3
    else if Y % 8 == 4 then 2
    else if X % 8 == 4 then 1
    else 0
  }

  /** Row `y` of the pattern as the standard prints it, with passes counted from 1. */
  function PatternRow(y: nat): (row: seq<nat>)
    ensures |row| == 8
  {
    if y == 0 then [1, 6, 4, 6, 2, 6, 4, 6]
    else if y == 4 then [3, 6, 4, 6, 3, 6, 4, 6]
    else if y == 2 || y == 6 then [5, 6, 5, 6, 5, 6, 5, 6]
    else [7, 7, 7, 7, 7, 7, 7, 7]
  }

  lemma PatternOfStandard(X: nat, Y: nat)
    ensures PassOf(X, Y) + 1 == PatternRow(Y % 8)[X % 8]
  {
    PassRepeats(X, Y);
    hide PassOf, PatternRow;
    var x, y := X % 8, Y % 8;
    if y == 0 { FirstRow(x); }
    else if y == 4 { MiddleRow(x); }
    else { OtherRows(x, y); }
  }

  lemma PassRepeats(X: nat, Y: nat)
    ensures PassOf(X, Y) == PassOf(X % 8, Y % 8)
  {
    EighthOf(X);
    EighthOf(Y);
  }

  lemma EighthOf(x: nat)
    ensures x % 8 % 2 == x % 2 && x % 8 % 4 == x % 4
  {
    EightMore(x / 8, x % 8);
  }

  lemma EightMore(q: nat, r: nat)
    ensures (8 * q + r) % 2 == r % 2 && (8 * q + r) % 4 == r % 4
  {
    var two, four := 2, 4;
    Bits.QuotientIs(8 * q + r, two, 4 * q + r / 2, r % 2);
    Bits.QuotientIs(8 * q + r, four, 2 * q + r / 4, r % 4);
  }

  lemma FirstRow(x: nat)
    requires x < 8
    ensures PassOf(x, 0) + 1 == PatternRow(0)[x]
  {
  }

  lemma MiddleRow(x: nat)
    requires x < 8
    ensures PassOf(x, 4) + 1 == PatternRow(4)[x]
  {
  }

  lemma OtherRows(x: nat, y: nat)
    requires x < 8 && y < 8 && y != 0 && y != 4
    ensures PassOf(x, y) + 1 == PatternRow(y)[x]
  {
  }

  /** The count of columns is exactly the number of columns inside the image. */
  lemma ColsExact(i: nat, w: nat, x: nat)
    requires i < 7 && w > 0
    ensures x < RawCols(i, w) <==> Ix(i) + x * Dx(i) < w
  {
  }

  lemma RowsExact(i: nat, h: nat, y: nat)
    requires i < 7 && h > 0
    ensures y < RawRows(i, h) <==> Iy(i) + y * Dy(i) < h
  {
  }

  lemma PixelsExact(i: nat, w: nat, h: nat, x: nat, y: nat)
    requires i < 7 && w > 0 && h > 0
    ensures x < Cols(i, w, h) && y < Rows(i, w, h) <==> Ix(i) + x * Dx(i) < w && Iy(i) + y * Dy(i) < h
  {
    ColsExact(i, w, x);
    RowsExact(i, h, y);
    ColsExact(i, w, 0);
    RowsExact(i, h, 0);
  }

  lemma PatternIsUnique(i: nat, x: nat, y: nat, X: nat, Y: nat)
    requires i < 7 && IsPixelOf(i, x, y, X, Y)
    ensures PassOf(X, Y) == i && x == (X - Ix(i)) / Dx(i) && y == (Y - Iy(i)) / Dy(i)
  {
  }

  lemma PatternCovers(X: nat, Y: nat) returns (x: nat, y: nat)
    ensures IsPixelOf(PassOf(X, Y), x, y, X, Y)
  {
    var i := PassOf(X, Y);
    Residues(X, Y);
    hide PassOf;
    x, y := (X - Ix(i)) / Dx(i), (Y - Iy(i)) / Dy(i);
    CoversOne(X, Ix(i), Dx(i));
    CoversOne(Y, Iy(i), Dy(i));
  }

  /** Pass by pass, what PassOf says about the position. */
  lemma Residues(X: nat, Y: nat)
    ensures var i := PassOf(X, Y); X % Dx(i) == Ix(i) && Y % Dy(i) == Iy(i)
  {
    LowBits(X);
    LowBits(Y);
    var i := PassOf(X, Y);
    if i == 0 {} else if i == 1 {} else if i == 2 {} else if i == 3 {} else if i == 4 {} else if i == 5 {} else {}
  }

  lemma LowBits(v: nat)
    ensures v % 4 == if v % 8 < 4 then v % 8 else v % 8 - 4
    ensures v % 2 == if v % 4 < 2 then v % 4 else v % 4 - 2
  {
    LowTwoBits(v);
    LowBit(v);
  }

  lemma LowTwoBits(v: nat)
    ensures v % 4 == if v % 8 < 4 then v % 8 else v % 8 - 4
  {
    var q, r := v / 8, v % 8;
    if r < 4 { RemainderOf4(v, 2 * q, r); } else { RemainderOf4(v, 2 * q + 1, r - 4); }
  }

  lemma LowBit(v: nat)
    ensures v % 2 == if v % 4 < 2 then v % 4 else v % 4 - 2
  {
    var q, r := v / 4, v % 4;
    if r < 2 { RemainderOf2(v, 2 * q, r); } else { RemainderOf2(v, 2 * q + 1, r - 2); }
  }

  lemma RemainderOf4(v: nat, q: nat, r: nat)
    requires v == 4 * q + r && r < 4
    ensures v % 4 == r
  {
  }

  lemma RemainderOf2(v: nat, q: nat, r: nat)
    requires v == 2 * q + r && r < 2
    ensures v % 2 == r
  {
  }

  lemma CoversOne(X: nat, start: nat, step: nat)
    requires step == 1 || step == 2 || step == 4 || step == 8
    requires X % step == start
    ensures X >= start && X == start + (X - start) / step * step
  {
    if step == 1 {} else if step == 2 {} else if step == 4 {} else {}
  }

  /** Every pixel of the image belongs to exactly one place of exactly one pass,
      and every place of a pass is a pixel of the image. */
  lemma PassesPartition(w: nat, h: nat, X: nat, Y: nat) returns (i: nat, x: nat, y: nat)
    requires X < w && Y < h
    ensures i < 7 && x < Cols(i, w, h) && y < Rows(i, w, h) && IsPixelOf(i, x, y, X, Y)
    ensures forall j, x', y' :: 0 <= j < 7 && 0 <= x' && 0 <= y' && IsPixelOf(j, x', y', X, Y) ==>
              j == i && x' == x && y' == y
  {
    i := PassOf(X, Y);
    x, y := PatternCovers(X, Y);
    PixelsExact(i, w, h, x, y);
    forall j, x', y' | 0 <= j < 7 && 0 <= x' && 0 <= y' && IsPixelOf(j, x', y', X, Y)
      ensures j == i && x' == x && y' == y
    {
      PatternIsUnique(j, x', y', X, Y);
      PatternIsUnique(i, x, y, X, Y);
    }
  }

  // ----- where the passes are stored

  /** A row of `cols` pixels, padded to whole bytes. */
  function RowBytes(cols: nat, bpp: nat): nat {
    (cols * bpp + 7) / 8
  }

  /** Pixels without padding between the rows. */
  function FlatBytes(rows: nat, cols: nat, bpp: nat): nat {
    (rows * cols * bpp + 7) / 8
  }

  function LineBytes(i: nat, w: nat, h: nat, bpp: nat): nat
    requires i < 7 && w > 0 && h > 0
  {
    RowBytes(Cols(i, w, h), bpp)
  }

  /** filter_passstart: with filter bytes. */
  function FilterStart(i: nat, w: nat, h: nat, bpp: nat): nat
    requires i <= 7 && w > 0 && h > 0
  {
    if i == 0 then 0
    else FilterStart(i - 1, w, h, bpp)
         + if Cols(i - 1, w, h) > 0 && Rows(i - 1, w, h) > 0
           then Start(Rows(i - 1, w, h), 1 + LineBytes(i - 1, w, h, bpp)) else 0
  }

  /** padded_passstart: rows padded to whole bytes. */
  function PaddedStart(i: nat, w: nat, h: nat, bpp: nat): nat
    requires i <= 7 && w > 0 && h > 0
  {
    if i == 0 then 0
    else PaddedStart(i - 1, w, h, bpp) + Start(Rows(i - 1, w, h), LineBytes(i - 1, w, h, bpp))
  }

  /** passstart: only the end of a pass is padded. */
  function PassStart(i: nat, w: nat, h: nat, bpp: nat): nat
    requires i <= 7 && w > 0 && h > 0
  {
    if i == 0 then 0
    else PassStart(i - 1, w, h, bpp) + FlatBytes(Rows(i - 1, w, h), Cols(i - 1, w, h), bpp)
  }

  datatype PassValues = PassValues(passw: seq<nat>, passh: seq<nat>, filterStart: seq<nat>, paddedStart: seq<nat>,
      start: seq<nat>)

  ghost predicate PassValuesOk(v: PassValues, w: nat, h: nat, bpp: nat)
    requires w > 0 && h > 0
  {
    && |v.passw| == |v.passh| == 7 && |v.filterStart| == |v.paddedStart| == |v.start| == 8
    && (forall i :: 0 <= i < 7 ==> v.passw[i] == Cols(i, w, h) && v.passh[i] == Rows(i, w, h))
    && (forall i :: 0 <= i < 8 ==>
          && v.filterStart[i] == FilterStart(i, w, h, bpp)
          && v.paddedStart[i] == PaddedStart(i, w, h, bpp)
          && v.start[i] == PassStart(i, w, h, bpp))
  }

  /** The first loop of Adam7_getpassvalues. */
  method GetExtents(w: nat, h: nat) returns (passw: seq<nat>, passh: seq<nat>)
    requires w > 0 && h > 0
    ensures |passw| == |passh| == 7
    ensures forall i :: 0 <= i < 7 ==> passw[i] == Cols(i, w, h) && passh[i] == Rows(i, w, h)
  {
    hide RawCols, RawRows;
    passw, passh := [], [];
    for i := 0 to 7
      invariant |passw| == |passh| == i
      invariant forall j :: 0 <= j < i ==> passw[j] == Cols(j, w, h) && passh[j] == Rows(j, w, h)
    {
      var pw := RawCols(i, w);
      var ph := RawRows(i, h);
      if pw == 0 { ph := 0; }
      if ph == 0 { pw := 0; }
      passw := passw + [pw];
      passh := passh + [ph];
    }
  }

  /** Adam7_getpassvalues */
  method GetPassValues(w: nat, h: nat, bpp: nat) returns (v: PassValues)
    requires w > 0 && h > 0
    ensures PassValuesOk(v, w, h, bpp)
  {
    hide Cols, Rows, Start, RowBytes, FlatBytes, FilterStart, PaddedStart, PassStart;
    var passw, passh := GetExtents(w, h);
    var filter: seq<nat>, padded: seq<nat>, start: seq<nat> := [0], [0], [0];
    FirstStarts(w, h, bpp);
    for i := 0 to 7
      invariant |filter| == |padded| == |start| == i + 1
      invariant forall j :: 0 <= j <= i ==>
                  && filter[j] == FilterStart(j, w, h, bpp) && padded[j] == PaddedStart(j, w, h, bpp)
                  && start[j] == PassStart(j, w, h, bpp)
    {
      NextStarts(i, w, h, bpp);
      // an empty pass has no bytes, not even filter bytes
      var filtered: nat := 0;
      if passw[i] > 0 && passh[i] > 0 { filtered := RowOffset(1 + RowBytes(passw[i], bpp), passh[i]); }
      var rows := RowOffset(RowBytes(passw[i], bpp), passh[i]);
      filter := filter + [filter[i] + filtered];
      padded := padded + [padded[i] + rows];
      start := start + [start[i] + FlatBytes(passh[i], passw[i], bpp)];
    }
    v := PassValues(passw, passh, filter, padded, start);
  }

  lemma FirstStarts(w: nat, h: nat, bpp: nat)
    requires w > 0 && h > 0
    ensures FilterStart(0, w, h, bpp) == PaddedStart(0, w, h, bpp) == PassStart(0, w, h, bpp) == 0
  {
  }

  lemma NextStarts(i: nat, w: nat, h: nat, bpp: nat)
    requires i < 7 && w > 0 && h > 0
    ensures FilterStart(i + 1, w, h, bpp) == FilterStart(i, w, h, bpp)
              + if Cols(i, w, h) > 0 && Rows(i, w, h) > 0 then Start(Rows(i, w, h), 1 + LineBytes(i, w, h, bpp)) else 0
    ensures PaddedStart(i + 1, w, h, bpp) == PaddedStart(i, w, h, bpp) + Start(Rows(i, w, h), LineBytes(i, w, h, bpp))
    ensures PassStart(i + 1, w, h, bpp) == PassStart(i, w, h, bpp) + FlatBytes(Rows(i, w, h), Cols(i, w, h), bpp)
  {
  }

  // ----- the size the decoder expects

  /** lodepng_get_raw_size_idat plus one filter byte per row. */
  function RawSize(w: nat, h: nat, bpp: nat): nat {
    h * RowBytes(w, bpp) + h
  }

  /** The terms of the prediction of decodeGeneric for an interlaced image. */
  function PredictedPass(i: nat, w: nat, h: nat, bpp: nat): nat
    requires i < 7
  {
    if i == 0 then RawSize((w + 7) / 8, (h + 7) / 8, bpp)
    else if i == 1 then if w > 4 then RawSize((w + 3) / 8, (h + 7) / 8, bpp) else 0
    else if i == 2 then RawSize((w + 3) / 4, (h + 3) / 8, bpp)
    else if i == 3 then if w > 2 then RawSize((w + 1) / 4, (h + 3) / 4, bpp) else 0
    else if i == 4 then RawSize((w + 1) / 2, (h + 1) / 4, bpp)
    else if i == 5 then if w > 1 then RawSize(w / 2, (h + 1) / 2, bpp) else 0
    else RawSize(w, h / 2, bpp)
  }

  function Predicted(w: nat, h: nat, bpp: nat): nat {
    PredictedPass(0, w, h, bpp) + PredictedPass(1, w, h, bpp) + PredictedPass(2, w, h, bpp)
        + PredictedPass(3, w, h, bpp)
    + PredictedPass(4, w, h, bpp) + PredictedPass(5, w, h, bpp) + PredictedPass(6, w, h, bpp)
  }

  /** What pass `i` adds to filter_passstart, from the raw extents. */
  lemma PassBytes(i: nat, w: nat, h: nat, bpp: nat)
    requires i < 7 && w > 0 && h > 0
    ensures FilterStart(i + 1, w, h, bpp)
         == FilterStart(i, w, h, bpp) + if RawCols(i, w) > 0 then RawSize(RawCols(i, w), RawRows(i, h), bpp) else 0
  {
    hide RawCols, RawRows, RowBytes, Start;
    var n := 1 + LineBytes(i, w, h, bpp);
    StartIsProduct(Rows(i, w, h), n);
    if RawRows(i, h) == 0 {
      assert RawSize(RawCols(i, w), 0, bpp) == 0;
    } else if RawCols(i, w) > 0 {
      var k := RowBytes(RawCols(i, w), bpp);
      assert RawRows(i, h) * (1 + k) == RawRows(i, h) * k + RawRows(i, h);
    }
  }

  lemma PredictedPassIsExact(i: nat, w: nat, h: nat, bpp: nat)
    requires i < 7 && w > 0 && h > 0
    ensures FilterStart(i + 1, w, h, bpp) == FilterStart(i, w, h, bpp) + PredictedPass(i, w, h, bpp)
  {
    hide RawSize, FilterStart;
    PassBytes(i, w, h, bpp);
    PassExtents(w, h);
    hide RawCols, RawRows;
  }

  /** The decoder expects exactly what the encoder produces. */
  lemma PredictionIsExact(w: nat, h: nat, bpp: nat)
    requires w > 0 && h > 0
    ensures Predicted(w, h, bpp) == FilterStart(7, w, h, bpp)
  {
    hide PredictedPass, FilterStart;
    FirstStarts(w, h, bpp);
    PredictedPassIsExact(0, w, h, bpp);
    PredictedPassIsExact(1, w, h, bpp);
    PredictedPassIsExact(2, w, h, bpp);
    PredictedPassIsExact(3, w, h, bpp);
    PredictedPassIsExact(4, w, h, bpp);
    PredictedPassIsExact(5, w, h, bpp);
    PredictedPassIsExact(6, w, h, bpp);
  }

  lemma PassExtents(w: nat, h: nat)
    requires w > 0 && h > 0
    ensures RawCols(0, w) == (w + 7) / 8 && RawCols(1, w) == (w + 3) / 8 && RawCols(2, w) == (w + 3) / 4
    ensures RawCols(3, w) == (w + 1) / 4 && RawCols(4, w) == (w + 1) / 2 && RawCols(5, w) == w / 2 && RawCols(6, w) == w
    ensures RawRows(0, h) == (h + 7) / 8 && RawRows(1, h) == (h + 7) / 8 && RawRows(2, h) == (h + 3) / 8
    ensures RawRows(3, h) == (h + 3) / 4 && RawRows(4, h) == (h + 1) / 4 && RawRows(5, h) == (h + 1) / 2
            && RawRows(6, h) == h / 2
    ensures (w + 7) / 8 > 0 && (w + 3) / 4 > 0 && (w + 1) / 2 > 0
    ensures (w > 4 <==> (w + 3) / 8 > 0) && (w > 2 <==> (w + 1) / 4 > 0) && (w > 1 <==> w / 2 > 0)
  {
  }
}
