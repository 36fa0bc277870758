/** PNG row filters (PNG Second Edition, section 9) as functions on rows: what
    filtering a row means and that unfiltering undoes it. */
module Scanlines {
  import opened Bits
  import opened Sequences
  import opened Wrappers

  /** paethPredictor: the neighbour closest to left + above - upper left, ties
      going to the left one and then to the one above. */
  function Paeth(a: byte, b: byte, c: byte): byte {
    var pa, pb, pc := Abs(b - c), Abs(a - c), Abs(a + b - c - c);
    if pc < pa && pc < pb then c
    else if pb < pa then b
    else a
  }

  function Abs(x: int): nat {
    if x < 0 then -x else x
  }

  /** The predictor as the standard words it. */
  lemma PaethIsNearest(a: byte, b: byte, c: byte)
    ensures var p := a + b - c; var r := Paeth(a, b, c);
            && Abs(p - r) <= Abs(p - a) && Abs(p - r) <= Abs(p - b) && Abs(p - r) <= Abs(p - c)
            && (Abs(p - a) == Abs(p - r) ==> r == a)
            && (Abs(p - b) == Abs(p - r) && r != a ==> r == b)
  {
  }

  function Average(a: byte, b: byte): byte {
    (a as int + b as int) / 2
  }

  /** The value filter type `t` subtracts, from the bytes left, above and upper left. */
  function Predictor(t: byte, a: byte, b: byte, c: byte): byte {
    if t == 1 then a
    else if t == 2 then b
    else if t == 3 then Average(a, b)
    else if t == 4 then Paeth(a, b, c)
    else 0
  }

  /** Half the sum, rounded down once. */
  lemma AverageIsFloor(a: byte, b: byte)
    ensures 2 * Average(a, b) <= a + b < 2 * Average(a, b) + 2
  {
  }

  /** What the standard (section 9.2) says about the value `p` that type `t` uses. */
  ghost predicate IsPredictor(t: byte, a: byte, b: byte, c: byte, p: byte) {
    match t
    case 0 => p == 0
    case 1 => p == a
    case 2 => p == b
    case 3 => 2 * p <= a + b <= 2 * p + 1
    case 4 =>
      var base := a + b - c;
      && (p == a || p == b || p == c)
      && Abs(base - p) <= Abs(base - a) && Abs(base - p) <= Abs(base - b) && Abs(base - p) <= Abs(base - c)
      && (Abs(base - a) == Abs(base - p) ==> p == a)
      && (Abs(base - b) == Abs(base - p) && Abs(base - a) > Abs(base - p) ==> p == b)
    case _ => false
  }

  lemma PredictorOfStandard(t: byte, a: byte, b: byte, c: byte, p: byte)
    requires t <= 4
    ensures IsPredictor(t, a, b, c, p) <==> p == Predictor(t, a, b, c)
  {
    AverageIsFloor(a, b);
    PaethIsNearest(a, b, c);
    hide Average;
  }

  /** Byte `i` of a row, which is zero in front of the row and when there is no row. */
  function ByteAt(row: seq<byte>, i: int): byte {
    if 0 <= i < |row| then row[i] else 0
  }

  function Prediction(t: byte, row: seq<byte>, above: seq<byte>, bytewidth: nat, i: nat): byte {
    Predictor(t, ByteAt(row, i - bytewidth), ByteAt(above, i), ByteAt(above, i - bytewidth))
  }

  function Plus(x: byte, y: byte): byte {
    (x + y) % 256
  }

  function Minus(x: byte, y: byte): byte {
    (x - y) % 256
  }

  /** A filtered row; `above` is empty for the first row. */
  function FilteredRow(t: byte, row: seq<byte>, above: seq<byte>, bytewidth: nat): (f: seq<byte>)
    ensures |f| == |row|
  {
    seq<byte>(|row|, i requires 0 <= i < |row| => Minus(row[i], Prediction(t, row, above, bytewidth, i)))
  }

  /** The first `n` bytes of the row that was filtered to `scan`. */
  function UnfilteredRow(t: byte, scan: seq<byte>, above: seq<byte>, bytewidth: nat, n: nat): (row: seq<byte>)
    requires n <= |scan|
    ensures |row| == n
  {
    if n == 0 then []
    else
      var row := UnfilteredRow(t, scan, above, bytewidth, n - 1);
      row + [Plus(scan[n - 1], Prediction(t, row, above, bytewidth, n - 1))]
  }

  lemma LastUnfiltered(t: byte, scan: seq<byte>, above: seq<byte>, bytewidth: nat, n: nat)
    requires n < |scan| && bytewidth > 0
    ensures var before := UnfilteredRow(t, scan, above, bytewidth, n);
            var row := UnfilteredRow(t, scan, above, bytewidth, n + 1);
            && row[..n] == before
            && row[n] == Plus(scan[n], Predictor(t, ByteAt(before, n - bytewidth), ByteAt(above, n),
                                                 ByteAt(above, n - bytewidth)))
  {
    hide Plus, Predictor, ByteAt;
  }

  lemma EarlierByte(row: seq<byte>, n: nat, i: int)
    requires i < n <= |row|
    ensures ByteAt(row[..n], i) == ByteAt(row, i)
  {
  }

  lemma PlusWraps(x: byte, y: byte)
    ensures Plus(x, y) == (x + y) % 256
  {
  }

  /** Every byte is what was stored plus the value that the standard names, of the
      bytes to the left, above, and above to the left that are already there. */
  lemma {:induction false} RowOfStandard(t: byte, scan: seq<byte>, above: seq<byte>, bytewidth: nat, n: nat, i: nat,
                                         p: byte)
    requires i < n <= |scan| && t <= 4 && bytewidth > 0
    requires var row := UnfilteredRow(t, scan, above, bytewidth, n);
             IsPredictor(t, ByteAt(row, i - bytewidth), ByteAt(above, i), ByteAt(above, i - bytewidth), p)
    ensures UnfilteredRow(t, scan, above, bytewidth, n)[i] == (scan[i] + p) % 256
  {
    hide IsPredictor, Predictor, Plus, ByteAt, UnfilteredRow;
    var row, before := UnfilteredRow(t, scan, above, bytewidth, n), UnfilteredRow(t, scan, above, bytewidth, n - 1);
    LastUnfiltered(t, scan, above, bytewidth, n - 1);
    EarlierByte(row, n - 1, i - bytewidth);
    if i < n - 1 {
      RowOfStandard(t, scan, above, bytewidth, n - 1, i, p);
      assert row[i] == row[..n - 1][i];
    } else {
      PredictorOfStandard(t, ByteAt(row, i - bytewidth), ByteAt(above, i), ByteAt(above, i - bytewidth), p);
      PlusWraps(scan[i], p);
    }
  }

  /** And what is stored is the byte less that value. */
  lemma FilteredByStandard(t: byte, row: seq<byte>, above: seq<byte>, bytewidth: nat, i: nat, p: byte)
    requires i < |row| && t <= 4
    requires IsPredictor(t, ByteAt(row, i - bytewidth), ByteAt(above, i), ByteAt(above, i - bytewidth), p)
    ensures Plus(FilteredRow(t, row, above, bytewidth)[i], p) == row[i]
  {
    PredictorOfStandard(t, ByteAt(row, i - bytewidth), ByteAt(above, i), ByteAt(above, i - bytewidth), p);
    hide Predictor, IsPredictor, Plus, Minus;
    PlusMinus(row[i], p);
  }

  lemma PlusMinus(x: byte, y: byte)
    ensures Plus(Minus(x, y), y) == x
  {
  }

  lemma OnlyEarlierBytes(t: byte, row: seq<byte>, above: seq<byte>, bytewidth: nat, n: nat)
    requires bytewidth > 0 && n <= |row|
    ensures Prediction(t, row[..n], above, bytewidth, n) == Prediction(t, row, above, bytewidth, n)
  {
    assert ByteAt(row[..n], n - bytewidth) == ByteAt(row, n - bytewidth);
  }

  lemma {:induction false} UnfilterUndoesFilter(t: byte, row: seq<byte>, above: seq<byte>, bytewidth: nat, n: nat)
    requires bytewidth > 0 && n <= |row|
    ensures UnfilteredRow(t, FilteredRow(t, row, above, bytewidth), above, bytewidth, n) == row[..n]
  {
    hide Prediction, Plus, Minus;
    if n > 0 {
      UnfilterUndoesFilter(t, row, above, bytewidth, n - 1);
      OnlyEarlierBytes(t, row, above, bytewidth, n - 1);
      PlusMinus(row[n - 1], Prediction(t, row, above, bytewidth, n - 1));
    }
  }

  // ----- images

  function Row(image: seq<byte>, linebytes: nat, y: nat): (row: seq<byte>)
    requires Start(y + 1, linebytes) <= |image|
    ensures |row| == linebytes
  {
    image[Start(y, linebytes)..Start(y + 1, linebytes)]
  }

  function Above(image: seq<byte>, linebytes: nat, y: nat): seq<byte>
    requires Start(y, linebytes) <= |image|
  {
    if y == 0 then [] else Row(image, linebytes, y - 1)
  }

  /** The first `n` rows, each filtered with its own type and with that type in front. */
  function FilteredImage(image: seq<byte>, types: seq<byte>, linebytes: nat, bytewidth: nat, n: nat): (f: seq<byte>)
    requires n <= |types| && Start(n, linebytes) <= |image|
    ensures |f| == Start(n, 1 + linebytes)
  {
    if n == 0 then []
    else
      FilteredImage(image, types, linebytes, bytewidth, n - 1)
      + [types[n - 1]]
      + FilteredRow(types[n - 1], Row(image, linebytes, n - 1), Above(image, linebytes, n - 1), bytewidth)
  }

  /** The first `n` rows of a filtered image, or error 36 for an unknown type. */
  function UnfilteredImage(f: seq<byte>, linebytes: nat, bytewidth: nat, n: nat): (r: Result<seq<byte>>)
    requires Start(n, 1 + linebytes) <= |f|
    ensures r.Ok? ==> |r.value| == Start(n, linebytes)
  {
    if n == 0 then Ok([])
    else
      var before :- UnfilteredImage(f, linebytes, bytewidth, n - 1);
      var scan := Row(f, 1 + linebytes, n - 1);
      if scan[0] > 4 then Error(36)
      else Ok(before + UnfilteredRow(scan[0], scan[1..], Above(before, linebytes, n - 1), bytewidth, linebytes))
  }

  lemma LastFilteredRow(image: seq<byte>, types: seq<byte>, linebytes: nat, bytewidth: nat, n: nat)
    requires 0 < n <= |types| && Start(n, linebytes) <= |image|
    ensures Start(n - 1, linebytes) <= |image| && Start(n - 1, 1 + linebytes) <= Start(n, 1 + linebytes)
    ensures var f := FilteredImage(image, types, linebytes, bytewidth, n);
            && Row(f, 1 + linebytes, n - 1)
               == [types[n - 1]] + FilteredRow(types[n - 1], Row(image, linebytes, n - 1),
                   Above(image, linebytes, n - 1), bytewidth)
            && f[..Start(n - 1, 1 + linebytes)] == FilteredImage(image, types, linebytes, bytewidth, n - 1)
  {
    hide FilteredRow;
  }

  /** Only the rows asked for matter. */
  lemma SameRow(f: seq<byte>, g: seq<byte>, size: nat, y: nat)
    requires Start(y + 1, size) <= |f| <= |g| && f == g[..|f|]
    ensures Start(y, size) <= |f| && Row(g, size, y) == Row(f, size, y)
  {
    Nested(g, 0, |f|, Start(y, size), Start(y + 1, size));
    assert g[0..|f|] == f;
  }

  lemma {:induction false} UnfilteredPrefix(f: seq<byte>, g: seq<byte>, linebytes: nat, bytewidth: nat, n: nat)
    requires Start(n, 1 + linebytes) <= |f| <= |g| && f == g[..|f|]
    ensures UnfilteredImage(g, linebytes, bytewidth, n) == UnfilteredImage(f, linebytes, bytewidth, n)
  {
    hide UnfilteredRow, Above, Row;
    if n > 0 {
      SameRow(f, g, 1 + linebytes, n - 1);
      UnfilteredPrefix(f, g, linebytes, bytewidth, n - 1);
    }
  }

  lemma SameAbove(image: seq<byte>, linebytes: nat, n: nat)
    requires Start(n, linebytes) <= |image|
    ensures Above(image[..Start(n, linebytes)], linebytes, n) == Above(image, linebytes, n)
  {
  }

  lemma RowsJoin(image: seq<byte>, linebytes: nat, n: nat)
    requires 0 < n && Start(n, linebytes) <= |image|
    ensures image[..Start(n - 1, linebytes)] + Row(image, linebytes, n - 1) == image[..Start(n, linebytes)]
  {
  }

  lemma LastUnfilteredRow(f: seq<byte>, linebytes: nat, bytewidth: nat, n: nat, t: byte, scan: seq<byte>,
                          before: seq<byte>)
    requires 0 < n && Start(n, 1 + linebytes) <= |f| && Row(f, 1 + linebytes, n - 1) == [t] + scan && t <= 4
    requires UnfilteredImage(f, linebytes, bytewidth, n - 1) == Ok(before)
    ensures UnfilteredImage(f, linebytes, bytewidth, n)
         == Ok(before + UnfilteredRow(t, scan, Above(before, linebytes, n - 1), bytewidth, linebytes))
  {
    hide UnfilteredRow, Above;
    assert ([t] + scan)[1..] == scan;
  }

  lemma NoRows(image: seq<byte>, types: seq<byte>, linebytes: nat, bytewidth: nat)
    ensures Start(0, linebytes) == 0 && Start(0, 1 + linebytes) == 0
    ensures FilteredImage(image, types, linebytes, bytewidth, 0) == []
    ensures UnfilteredImage([], linebytes, bytewidth, 0) == Ok([])
  {
  }

  /** For every image and every choice of filter types, unfiltering gives the
      image back. */
  lemma {:induction false} UnfilterUndoesFilterImage(image: seq<byte>, types: seq<byte>, linebytes: nat,
                                                     bytewidth: nat, n: nat)
    requires n <= |types| && Start(n, linebytes) <= |image| && bytewidth > 0
    requires forall y :: 0 <= y < n ==> types[y] <= 4
    ensures UnfilteredImage(FilteredImage(image, types, linebytes, bytewidth, n), linebytes, bytewidth, n)
         == Ok(image[..Start(n, linebytes)])
  {
    hide FilteredImage, FilteredRow, UnfilteredRow, UnfilteredImage, Above, Row, Start;
    if n == 0 {
      NoRows(image, types, linebytes, bytewidth);
    } else {
      LastFilteredRow(image, types, linebytes, bytewidth, n);
      UnfilterUndoesFilterImage(image, types, linebytes, bytewidth, n - 1);
      var f := FilteredImage(image, types, linebytes, bytewidth, n);
      UnfilteredPrefix(FilteredImage(image, types, linebytes, bytewidth, n - 1), f, linebytes, bytewidth, n - 1);
      var row, above := Row(image, linebytes, n - 1), Above(image, linebytes, n - 1);
      UnfilterUndoesFilter(types[n - 1], row, above, bytewidth, linebytes);
      assert row[..linebytes] == row;
      SameAbove(image, linebytes, n - 1);
      LastUnfilteredRow(f, linebytes, bytewidth, n, types[n - 1], FilteredRow(types[n - 1], row, above, bytewidth),
                        image[..Start(n - 1, linebytes)]);
      RowsJoin(image, linebytes, n);
    }
  }
}
