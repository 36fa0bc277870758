/** Adam7_interlace and Adam7_deinterlace on buffers: byte by byte for pixels of
    whole bytes, bit by bit for smaller ones. */
module InterlaceBuffers {
  import opened Adam7
  import opened Bits
  import opened Interlacing
  import opened PixelBits
  import opened Sequences

  // ----- offsets

  method ImageOffset(i: nat, x: nat, y: nat, w: nat, u: nat) returns (o: nat)
    requires i < 7
    ensures o == Start(PixelIndex(i, x, y, w), u)
  {
    StartIsProduct(Iy(i) + y * Dy(i), w);
    o := (Iy(i) + y * Dy(i)) * w + Ix(i) + x * Dx(i);
    StartIsProduct(o, u);
    o := o * u;
  }

  method PassOffset(x: nat, y: nat, passw: nat, u: nat) returns (o: nat)
    ensures o == Start(y, Start(passw, u)) + Start(x, u)
  {
    StartIsProduct(x, u);
    StartIsProduct(passw, u);
    StartIsProduct(y, passw * u);
    RowMajor(x, y, passw, u);
    o := (y * passw + x) * u;
  }

  lemma RowMajor(x: nat, y: nat, passw: nat, u: nat)
    ensures (y * passw + x) * u == y * (passw * u) + x * u
  {
    assert (y * passw) * u == y * (passw * u);
  }

  // ----- interlacing

  /** The buffer holds pass `i` from `base` on. */
  ghost predicate HoldsPass<T>(s: seq<T>, base: nat, img: seq<T>, i: nat, w: nat, h: nat, u: nat)
    requires IsImage(img, w, h, u) && i < 7
  {
    base + |WholePass(img, i, w, h, u)| <= |s|
        && s[base..base + |WholePass(img, i, w, h, u)|] == WholePass(img, i, w, h, u)
  }

  lemma HoldsWritten<T>(before: seq<T>, base: nat, img: seq<T>, i: nat, w: nat, h: nat, u: nat)
    requires IsImage(img, w, h, u) && i < 7 && base + |WholePass(img, i, w, h, u)| <= |before|
    ensures HoldsPass(Written(before, base, WholePass(img, i, w, h, u)), base, img, i, w, h, u)
  {
  }

  lemma HoldsKept<T>(s: seq<T>, base: nat, img: seq<T>, i: nat, w: nat, h: nat, u: nat, o: nat, line: seq<T>)
    requires IsImage(img, w, h, u) && i < 7 && HoldsPass(s, base, img, i, w, h, u)
    requires base + |WholePass(img, i, w, h, u)| <= o && o + |line| <= |s|
    ensures HoldsPass(Written(s, o, line), base, img, i, w, h, u)
  {
    WrittenBelow(s, o, line, base, base + |WholePass(img, i, w, h, u)|);
  }

  /** One more pixel of a row. */
  lemma NextPixel<T>(before: seq<T>, base: nat, img: seq<T>, i: nat, x: nat, y: nat, w: nat, h: nat, u: nat)
    requires IsImage(img, w, h, u) && i < 7 && x < Cols(i, w, h) && y < Rows(i, w, h)
    requires base + Start(x + 1, u) <= |before|
    ensures Start(PixelIndex(i, x, y, w) + 1, u) <= |img|
    ensures Written(Written(before, base, PassRow(img, i, y, x, w, h, u)), base + Start(x, u),
            Pixel(img, PixelIndex(i, x, y, w), u))
         == Written(before, base, PassRow(img, i, y, x + 1, w, h, u))
  {
    hide IsImage, PixelIndex, Pixel, Cols, Rows, Written;
    PixelInImage(img, i, x, y, w, h, u);
    WrittenTwice(before, base, PassRow(img, i, y, x, w, h, u), Pixel(img, PixelIndex(i, x, y, w), u));
  }

  /** One more row of a pass. */
  lemma NextRow<T>(before: seq<T>, base: nat, img: seq<T>, i: nat, y: nat, w: nat, h: nat, u: nat)
    requires IsImage(img, w, h, u) && i < 7 && y < Rows(i, w, h)
    requires base + Start(y + 1, Start(Cols(i, w, h), u)) <= |before|
    ensures Written(Written(before, base, PassUnits(img, i, y, w, h, u)), base + Start(y, Start(Cols(i, w, h), u)),
                    PassRow(img, i, y, Cols(i, w, h), w, h, u))
         == Written(before, base, PassUnits(img, i, y + 1, w, h, u))
  {
    hide PassRow, Cols, Rows, Written;
    WrittenTwice(before, base, PassUnits(img, i, y, w, h, u), PassRow(img, i, y, Cols(i, w, h), w, h, u));
  }

  /** The inner loop over the bytes of a pixel. */
  method MoveBytes(out: array<byte>, o: nat, inn: array<byte>, p: nat, n: nat)
    requires o + n <= out.Length && p + n <= inn.Length && out != inn
    modifies out
    ensures out[..] == Written(old(out[..]), o, inn[p..p + n])
  {
    hide Written;
    ghost var before, source := out[..], inn[..];
    WrittenNothing(before, o);
    assert source[p..p] == [];
    for b := 0 to n
      invariant out[..] == Written(before, o, source[p..p + b])
    {
      WrittenSnoc(before, o, source[p..p + b], source[p + b]);
      assert source[p..p + b] + [source[p + b]] == source[p..p + b + 1];
      out[o + b] := inn[p + b];
    }
    assert inn[p..p + n] == source[p..p + n];
  }

  method InterlaceRow(out: array<byte>, base: nat, inn: array<byte>, i: nat, y: nat, passw: nat, w: nat, h: nat, u: nat)
    requires out != inn && IsImage(inn[..], w, h, u) && i < 7 && passw == Cols(i, w, h) && y < Rows(i, w, h)
    requires base + Start(y, Start(passw, u)) + Start(passw, u) <= out.Length
    modifies out
    ensures out[..] == Written(old(out[..]), base + Start(y, Start(passw, u)), PassRow(inn[..], i, y, passw, w, h, u))
  {
    hide IsImage, Cols, Rows, Written, PixelIndex;
    ghost var before, from := out[..], base + Start(y, Start(passw, u));
    WrittenNothing(before, from);
    for x := 0 to passw
      invariant Start(x, u) <= Start(passw, u)
      invariant out[..] == Written(before, from, PassRow(inn[..], i, y, x, w, h, u))
    {
      StartMonotone(x + 1, passw, u);
      NextPixel(before, from, inn[..], i, x, y, w, h, u);
      var pixelinstart := ImageOffset(i, x, y, w, u);
      var pixeloutstart := PassOffset(x, y, passw, u);
      MoveBytes(out, base + pixeloutstart, inn, pixelinstart, u);
      assert inn[pixelinstart..pixelinstart + u] == Pixel(inn[..], PixelIndex(i, x, y, w), u);
    }
  }

  method InterlacePass(out: array<byte>, base: nat, inn: array<byte>, i: nat, passw: nat, passh: nat, w: nat, h: nat,
                       u: nat)
    requires out != inn && IsImage(inn[..], w, h, u) && i < 7 && passw == Cols(i, w, h) && passh == Rows(i, w, h)
    requires base + Start(passh, Start(passw, u)) <= out.Length
    modifies out
    ensures out[..] == Written(old(out[..]), base, WholePass(inn[..], i, w, h, u))
  {
    hide IsImage, Cols, Rows, Written, PassRow;
    ghost var before := out[..];
    WrittenNothing(before, base);
    for y := 0 to passh
      invariant Start(y, Start(passw, u)) <= Start(passh, Start(passw, u))
      invariant out[..] == Written(before, base, PassUnits(inn[..], i, y, w, h, u))
    {
      StartMonotone(y + 1, passh, Start(passw, u));
      NextRow(before, base, inn[..], i, y, w, h, u);
      InterlaceRow(out, base, inn, i, y, passw, w, h, u);
    }
  }

  /** Passes of whole bytes follow each other without gaps. */
  lemma ByteStarts(i: nat, w: nat, h: nat, u: nat)
    requires i < 7 && w > 0 && h > 0
    ensures PassStart(i + 1, w, h, 8 * u) == PassStart(i, w, h, 8 * u) + Start(Rows(i, w, h), Start(Cols(i, w, h), u))
  {
    hide Cols, Rows;
    StartIsProduct(Cols(i, w, h), u);
    StartIsProduct(Rows(i, w, h), Cols(i, w, h) * u);
    WholeBytes(Rows(i, w, h), Cols(i, w, h), u);
  }

  lemma WholeBytes(rows: nat, cols: nat, u: nat)
    ensures FlatBytes(rows, cols, 8 * u) == rows * (cols * u)
  {
    var n := rows * (cols * u);
    assert rows * cols * (8 * u) == 8 * n;
  }

  lemma {:induction false} PassStartsAscend(i: nat, j: nat, w: nat, h: nat, bpp: nat)
    requires i <= j <= 7 && w > 0 && h > 0
    ensures PassStart(i, w, h, bpp) <= PassStart(j, w, h, bpp)
    decreases j - i
  {
    hide Cols, Rows, FlatBytes;
    if i < j { PassStartsAscend(i + 1, j, w, h, bpp); }
  }

  ghost predicate HoldsPasses<T>(s: seq<T>, base: seq<nat>, img: seq<T>, n: nat, w: nat, h: nat, u: nat)
    requires IsImage(img, w, h, u) && n <= 7 <= |base|
  {
    forall i: nat {:trigger base[i]} :: i < n ==> HoldsPass(s, base[i], img, i, w, h, u)
  }

  /** Adam7_interlace for pixels of `u` bytes. */
  method InterlaceBytes(out: array<byte>, inn: array<byte>, w: nat, h: nat, u: nat) returns (ghost base: seq<nat>)
    requires out != inn && IsImage(inn[..], w, h, u) && PassStart(7, w, h, 8 * u) <= out.Length
    modifies out
    ensures |base| == 8 && forall i :: 0 <= i < 8 ==> base[i] == PassStart(i, w, h, 8 * u)
    ensures HoldsPasses(out[..], base, inn[..], 7, w, h, u)
  {
    hide Cols, Rows, Written, PassUnits, PassStart;
    var v := GetPassValues(w, h, 8 * u);
    base := v.start;
    for i := 0 to 7
      invariant HoldsPasses(out[..], base, inn[..], i, w, h, u)
    {
      ByteStarts(i, w, h, u);
      PassStartsAscend(i + 1, 7, w, h, 8 * u);
      ghost var before := out[..];
      InterlacePass(out, v.start[i], inn, i, v.passw[i], v.passh[i], w, h, u);
      HoldsWritten(before, v.start[i], inn[..], i, w, h, u);
      forall j: nat | j < i ensures HoldsPass(out[..], base[j], inn[..], j, w, h, u) {
        ByteStarts(j, w, h, u);
        PassStartsAscend(j + 1, i, w, h, 8 * u);
        HoldsKept(before, base[j], inn[..], j, w, h, u, v.start[i], WholePass(inn[..], i, w, h, u));
      }
    }
  }

  // ----- interlacing bit by bit

  method ImageBitOffset(i: nat, x: nat, y: nat, w: nat, u: nat) returns (o: nat)
    requires i < 7
    ensures o == Start(PixelIndex(i, x, y, w), u)
  {
    var olinebits := u * w;
    StartIsProduct(Iy(i) + y * Dy(i), w);
    StartIsProduct(PixelIndex(i, x, y, w), u);
    RowMajor(Ix(i) + x * Dx(i), Iy(i) + y * Dy(i), w, u);
    o := (Iy(i) + y * Dy(i)) * olinebits + (Ix(i) + x * Dx(i)) * u;
  }

  method PassBitOffset(x: nat, y: nat, passw: nat, u: nat) returns (o: nat)
    ensures o == Start(y, Start(passw, u)) + Start(x, u)
  {
    var ilinebits := u * passw;
    StartIsProduct(x, u);
    StartIsProduct(passw, u);
    StartIsProduct(y, passw * u);
    o := y * ilinebits + x * u;
  }

  /** The bits of the image; the last byte may hold unused ones. */
  ghost predicate IsBitImage(s: seq<byte>, img: seq<bit>, w: nat, h: nat, u: nat) {
    IsImage(img, w, h, u) && |img| <= 8 * |s| && BitsOf(s)[..|img|] == img
  }

  lemma PixelInBits(s: seq<byte>, img: seq<bit>, w: nat, h: nat, u: nat, k: nat)
    requires IsBitImage(s, img, w, h, u) && Start(k + 1, u) <= |img|
    ensures BitsOf(s)[Start(k, u)..Start(k, u) + u] == Pixel(img, k, u)
  {
    assert BitsOf(s)[..|img|][Start(k, u)..Start(k + 1, u)] == BitsOf(s)[Start(k, u)..Start(k + 1, u)];
  }

  method InterlaceRowBits(out: array<byte>, base: nat, inn: array<byte>, i: nat, y: nat, passw: nat, w: nat, h: nat,
                          u: nat, ghost img: seq<bit>)
    requires out != inn && IsBitImage(inn[..], img, w, h, u) && i < 7 && passw == Cols(i, w, h) && y < Rows(i, w, h)
    requires base + Start(y, Start(passw, u)) + Start(passw, u) <= 8 * out.Length
    modifies out
    ensures BitsOf(out[..])
            == Written(old(BitsOf(out[..])), base + Start(y, Start(passw, u)), PassRow(img, i, y, passw, w, h, u))
  {
    hide IsImage, Cols, Rows, Written, PixelIndex, BitsOf, Pixel;
    ghost var before, from := BitsOf(out[..]), base + Start(y, Start(passw, u));
    WrittenNothing(before, from);
    for x := 0 to passw
      invariant Start(x, u) <= Start(passw, u)
      invariant BitsOf(out[..]) == Written(before, from, PassRow(img, i, y, x, w, h, u))
    {
      StartMonotone(x + 1, passw, u);
      NextPixel(before, from, img, i, x, y, w, h, u);
      PixelInBits(inn[..], img, w, h, u, PixelIndex(i, x, y, w));
      var ibp := ImageBitOffset(i, x, y, w, u);
      var obp := PassBitOffset(x, y, passw, u);
      MoveBits(out, base + obp, inn, ibp, u);
    }
  }

  method InterlacePassBits(out: array<byte>, base: nat, inn: array<byte>, i: nat, passw: nat, passh: nat, w: nat,
                           h: nat, u: nat,
                           ghost img: seq<bit>)
    requires out != inn && IsBitImage(inn[..], img, w, h, u) && i < 7 && passw == Cols(i, w, h)
             && passh == Rows(i, w, h)
    requires base + Start(passh, Start(passw, u)) <= 8 * out.Length
    modifies out
    ensures BitsOf(out[..]) == Written(old(BitsOf(out[..])), base, WholePass(img, i, w, h, u))
  {
    hide IsImage, Cols, Rows, Written, PassRow, BitsOf;
    ghost var before := BitsOf(out[..]);
    WrittenNothing(before, base);
    for y := 0 to passh
      invariant Start(y, Start(passw, u)) <= Start(passh, Start(passw, u))
      invariant BitsOf(out[..]) == Written(before, base, PassUnits(img, i, y, w, h, u))
    {
      StartMonotone(y + 1, passh, Start(passw, u));
      NextRow(before, base, img, i, y, w, h, u);
      InterlaceRowBits(out, base, inn, i, y, passw, w, h, u, img);
    }
  }

  /** Each pass fits in front of the next one, which starts at a whole byte. */
  lemma BitStarts(i: nat, w: nat, h: nat, u: nat)
    requires i < 7 && w > 0 && h > 0
    ensures 8 * PassStart(i, w, h, u) + Start(Rows(i, w, h), Start(Cols(i, w, h), u)) <= 8 * PassStart(i + 1, w, h, u)
  {
    hide Cols, Rows, PassStart, FlatBytes, Start, LineBytes, FilterStart, PaddedStart;
    var rows, cols := Rows(i, w, h), Cols(i, w, h);
    NextStarts(i, w, h, u);
    StartIsProduct(cols, u);
    StartIsProduct(rows, cols * u);
    FlatHolds(rows, cols, u);
  }

  lemma FlatHolds(rows: nat, cols: nat, u: nat)
    ensures rows * (cols * u) <= 8 * FlatBytes(rows, cols, u)
  {
    assert rows * (cols * u) == rows * cols * u;
  }

  /** Adam7_interlace for pixels of `u` bits, fewer than eight. */
  method InterlaceBits(out: array<byte>, inn: array<byte>, w: nat, h: nat, u: nat, ghost img: seq<bit>)
    returns (ghost base: seq<nat>)
    requires out != inn && IsBitImage(inn[..], img, w, h, u) && PassStart(7, w, h, u) <= out.Length
    modifies out
    ensures |base| == 8 && forall i :: 0 <= i < 8 ==> base[i] == 8 * PassStart(i, w, h, u)
    ensures HoldsPasses(BitsOf(out[..]), base, img, 7, w, h, u)
  {
    hide Cols, Rows, Written, PassUnits, PassStart, BitsOf;
    var v := GetPassValues(w, h, u);
    base := seq<nat>(8, i requires 0 <= i < 8 => 8 * v.start[i]);
    for i := 0 to 7
      invariant HoldsPasses(BitsOf(out[..]), base, img, i, w, h, u)
    {
      BitStarts(i, w, h, u);
      PassStartsAscend(i + 1, 7, w, h, u);
      ghost var before := BitsOf(out[..]);
      InterlacePassBits(out, 8 * v.start[i], inn, i, v.passw[i], v.passh[i], w, h, u, img);
      HoldsWritten(before, base[i], img, i, w, h, u);
      forall j: nat | j < i ensures HoldsPass(BitsOf(out[..]), base[j], img, j, w, h, u) {
        BitStarts(j, w, h, u);
        PassStartsAscend(j + 1, i, w, h, u);
        HoldsKept(before, base[j], img, j, w, h, u, base[i], WholePass(img, i, w, h, u));
      }
    }
  }

  // ----- deinterlacing

  /** The passes before `i`, the rows before `y` of pass `i` and the first `x`
      pixels of row `y` are back in place. */
  ghost predicate BackUpTo<T>(out: seq<T>, img: seq<T>, i: nat, y: nat, x: nat, w: nat, h: nat, u: nat)
    requires i < 7 && w > 0 && h > 0
  {
    && |out| == |img|
    && PassesBack(out, img, i, w, h, u) && RowsBack(out, img, i, y, w, h, u) && RowBack(out, img, i, y, x, w, u)
  }

  lemma NothingBack<T>(out: seq<T>, img: seq<T>, w: nat, h: nat, u: nat)
    requires w > 0 && h > 0 && |out| == |img|
    ensures BackUpTo(out, img, 0, 0, 0, w, h, u)
  {
  }

  lemma PixelIsBack<T>(out: seq<T>, img: seq<T>, i: nat, x: nat, y: nat, w: nat, h: nat, u: nat)
    requires i < 7 && w > 0 && h > 0 && BackUpTo(out, img, i, y, x, w, h, u)
    requires Start(PixelIndex(i, x, y, w) + 1, u) <= |img|
    ensures var k := PixelIndex(i, x, y, w);
            var out' := Written(out, Start(k, u), Pixel(img, k, u));
            Improves(out, out', img) && BackUpTo(out', img, i, y, x + 1, w, h, u)
  {
    hide PassesBack, RowsBack, PixelBack, Improves, PixelIndex, Written, Pixel;
    var k := PixelIndex(i, x, y, w);
    var out' := Written(out, Start(k, u), Pixel(img, k, u));
    PixelWritten(out, img, k, u);
    ImprovesPasses(out, out', img, i, w, h, u);
    ImprovesRows(out, out', img, i, y, w, h, u);
    ImprovesRow(out, out', img, i, y, x, w, u);
  }

  lemma RowIsBack<T>(out: seq<T>, img: seq<T>, i: nat, y: nat, w: nat, h: nat, u: nat)
    requires i < 7 && w > 0 && h > 0 && BackUpTo(out, img, i, y, Cols(i, w, h), w, h, u)
    ensures BackUpTo(out, img, i, y + 1, 0, w, h, u)
  {
    hide PassesBack, PixelBack, Cols;
  }

  lemma PassIsBack<T>(out: seq<T>, img: seq<T>, i: nat, w: nat, h: nat, u: nat)
    requires i < 7 && w > 0 && h > 0 && BackUpTo(out, img, i, Rows(i, w, h), 0, w, h, u)
    ensures PassesBack(out, img, i + 1, w, h, u)
    ensures i < 6 ==> BackUpTo(out, img, i + 1, 0, 0, w, h, u)
  {
    hide Rows, Cols, PixelBack;
  }

  /** The stored pass holds the next pixel. */
  lemma NextStoredPixel<T>(s: seq<T>, base: nat, img: seq<T>, i: nat, x: nat, y: nat, w: nat, h: nat, u: nat)
    requires IsImage(img, w, h, u) && i < 7 && x < Cols(i, w, h) && y < Rows(i, w, h)
             && HoldsPass(s, base, img, i, w, h, u)
    ensures Start(PixelIndex(i, x, y, w) + 1, u) <= |img|
    ensures var from := base + Start(y, Start(Cols(i, w, h), u)) + Start(x, u);
            from + u <= |s| && s[from..from + u] == Pixel(img, PixelIndex(i, x, y, w), u)
  {
    hide WholePass, Pixel, PixelIndex, Cols, Rows;
    var from := UnitsHoldPixel(img, i, x, y, w, h, u);
    Nested(s, base, base + |WholePass(img, i, w, h, u)|, from, from + u);
  }

  method DeinterlaceRow(out: array<byte>, inn: array<byte>, base: nat, i: nat, y: nat, passw: nat, w: nat, h: nat,
                        u: nat, ghost img: seq<byte>)
    requires out != inn && IsImage(img, w, h, u) && i < 7 && passw == Cols(i, w, h) && y < Rows(i, w, h)
    requires HoldsPass(inn[..], base, img, i, w, h, u) && BackUpTo(out[..], img, i, y, 0, w, h, u)
    modifies out
    ensures BackUpTo(out[..], img, i, y + 1, 0, w, h, u)
  {
    hide HoldsPass, Cols, Rows, Written, PixelIndex, BackUpTo;
    assert out.Length == |img| by { BackSize(out[..], img, i, y, 0, w, h, u); }
    for x := 0 to passw
      invariant BackUpTo(out[..], img, i, y, x, w, h, u)
    {
      NextStoredPixel(inn[..], base, img, i, x, y, w, h, u);
      PixelIsBack(out[..], img, i, x, y, w, h, u);
      var pixelinstart := PassOffset(x, y, passw, u);
      var pixeloutstart := ImageOffset(i, x, y, w, u);
      assert inn[base + pixelinstart..base + pixelinstart + u] == inn[..][base + pixelinstart..base + pixelinstart + u];
      MoveBytes(out, pixeloutstart, inn, base + pixelinstart, u);
    }
    RowIsBack(out[..], img, i, y, w, h, u);
  }

  lemma BackSize<T>(out: seq<T>, img: seq<T>, i: nat, y: nat, x: nat, w: nat, h: nat, u: nat)
    requires i < 7 && w > 0 && h > 0 && BackUpTo(out, img, i, y, x, w, h, u)
    ensures |out| == |img|
  {
  }

  /** Adam7_deinterlace for pixels of `u` bytes. */
  method DeinterlaceBytes(out: array<byte>, inn: array<byte>, w: nat, h: nat, u: nat, ghost base: seq<nat>,
                          ghost img: seq<byte>)
    requires out != inn && IsImage(img, w, h, u) && out.Length == |img|
    requires |base| == 8 && forall i :: 0 <= i < 8 ==> base[i] == PassStart(i, w, h, 8 * u)
    requires HoldsPasses(inn[..], base, img, 7, w, h, u)
    modifies out
    ensures out[..] == img
  {
    hide BackUpTo, Cols, Rows, PassesBack, HoldsPass, PassStart;
    var v := GetPassValues(w, h, 8 * u);
    NothingBack(out[..], img, w, h, u);
    for i := 0 to 7
      invariant i < 7 ==> BackUpTo(out[..], img, i, 0, 0, w, h, u)
      invariant i == 7 ==> PassesBack(out[..], img, 7, w, h, u)
    {
      assert HoldsPass(inn[..], base[i], img, i, w, h, u);
      for y := 0 to v.passh[i]
        invariant BackUpTo(out[..], img, i, y, 0, w, h, u)
      {
        DeinterlaceRow(out, inn, v.start[i], i, y, v.passw[i], w, h, u, img);
      }
      PassIsBack(out[..], img, i, w, h, u);
    }
    WholeImageBack(out[..], img, w, h, u);
  }

  // ----- deinterlacing bit by bit

  /** A bit is still zero or right already. */
  ghost predicate ZeroOrRight(out: seq<bit>, img: seq<bit>) {
    |out| == |img| && forall q :: 0 <= q < |img| ==> out[q] == 0 || out[q] == img[q]
  }

  lemma StaysZeroOrRight(out: seq<bit>, img: seq<bit>, k: nat, u: nat)
    requires ZeroOrRight(out, img) && Start(k + 1, u) <= |img|
    ensures ZeroOrRight(Written(out, Start(k, u), Pixel(img, k, u)), img)
  {
    forall q | 0 <= q < |img| ensures var b := Written(out, Start(k, u), Pixel(img, k, u))[q]; b == 0 || b == img[q] {
      WrittenReads(out, Start(k, u), Pixel(img, k, u), q);
    }
  }

  /** The bits of the image in the buffer, without the unused ones at its end. */
  ghost function ImageBits(s: seq<byte>, n: nat): (b: seq<bit>)
    requires n <= 8 * |s|
    ensures |b| == n
  {
    BitsOf(s)[..n]
  }

  lemma ImageBitsWritten(s: seq<byte>, s': seq<byte>, n: nat, o: nat, line: seq<bit>)
    requires |s'| == |s| && o + |line| <= n <= 8 * |s| && BitsOf(s') == Written(BitsOf(s), o, line)
    ensures ImageBits(s', n) == Written(ImageBits(s, n), o, line)
  {
    forall q | 0 <= q < n ensures ImageBits(s', n)[q] == Written(ImageBits(s, n), o, line)[q] {
      WrittenReads(BitsOf(s), o, line, q);
      WrittenReads(ImageBits(s, n), o, line, q);
    }
  }

  method DeinterlaceRowBits(out: array<byte>, inn: array<byte>, base: nat, i: nat, y: nat, passw: nat, w: nat, h: nat,
                            u: nat, ghost img: seq<bit>)
    requires out != inn && IsImage(img, w, h, u) && i < 7 && passw == Cols(i, w, h) && y < Rows(i, w, h)
    requires HoldsPass(BitsOf(inn[..]), base, img, i, w, h, u) && |img| <= 8 * out.Length
    requires BackUpTo(ImageBits(out[..], |img|), img, i, y, 0, w, h, u) && ZeroOrRight(ImageBits(out[..], |img|), img)
    modifies out
    ensures BackUpTo(ImageBits(out[..], |img|), img, i, y + 1, 0, w, h, u)
            && ZeroOrRight(ImageBits(out[..], |img|), img)
  {
    hide HoldsPass, Cols, Rows, Written, PixelIndex, BackUpTo, BitsOf, Pixel, ZeroOrRight, ImageBits;
    for x := 0 to passw
      invariant BackUpTo(ImageBits(out[..], |img|), img, i, y, x, w, h, u)
                && ZeroOrRight(ImageBits(out[..], |img|), img)
    {
      ghost var before, k := out[..], PixelIndex(i, x, y, w);
      NextStoredPixel(BitsOf(inn[..]), base, img, i, x, y, w, h, u);
      PixelIsBack(ImageBits(out[..], |img|), img, i, x, y, w, h, u);
      StaysZeroOrRight(ImageBits(out[..], |img|), img, k, u);
      var ibp := PassBitOffset(x, y, passw, u);
      var obp := ImageBitOffset(i, x, y, w, u);
      PixelZeroOrRight(out[..], BitsOf(inn[..]), img, k, u, base + ibp);
      MoveBits0(out, obp, inn, base + ibp, u);
      ImageBitsWritten(before, out[..], |img|, obp, Pixel(img, k, u));
    }
    RowIsBack(ImageBits(out[..], |img|), img, i, y, w, h, u);
  }

  lemma PixelZeroOrRight(out: seq<byte>, inn: seq<bit>, img: seq<bit>, k: nat, u: nat, from: nat)
    requires Start(k + 1, u) <= |img| <= 8 * |out| && ZeroOrRight(ImageBits(out, |img|), img)
    requires from + u <= |inn| && inn[from..from + u] == Pixel(img, k, u)
    ensures forall q :: Start(k, u) <= q < Start(k, u) + u ==>
              BitsOf(out)[q] == 0 || BitsOf(out)[q] == inn[q - Start(k, u) + from]
  {
    hide BitsOf;
    forall q | Start(k, u) <= q < Start(k, u) + u
      ensures BitsOf(out)[q] == 0 || BitsOf(out)[q] == inn[q - Start(k, u) + from]
    {
      assert inn[from..from + u][q - Start(k, u)] == Pixel(img, k, u)[q - Start(k, u)];
      assert ImageBits(out, |img|)[q] == BitsOf(out)[q];
    }
  }

  /** Adam7_deinterlace for pixels of `u` bits, into a buffer of zeros. */
  method DeinterlaceBits(out: array<byte>, inn: array<byte>, w: nat, h: nat, u: nat, ghost base: seq<nat>,
                         ghost img: seq<bit>)
    requires out != inn && IsImage(img, w, h, u) && |img| <= 8 * out.Length
    requires forall q :: 0 <= q < |img| ==> BitsOf(out[..])[q] == 0
    requires |base| == 8 && forall i :: 0 <= i < 8 ==> base[i] == 8 * PassStart(i, w, h, u)
    requires HoldsPasses(BitsOf(inn[..]), base, img, 7, w, h, u)
    modifies out
    ensures BitsOf(out[..])[..|img|] == img
  {
    hide BackUpTo, Cols, Rows, PassesBack, HoldsPass, PassStart, BitsOf;
    var v := GetPassValues(w, h, u);
    NothingBack(ImageBits(out[..], |img|), img, w, h, u);
    for i := 0 to 7
      invariant ZeroOrRight(ImageBits(out[..], |img|), img)
      invariant i < 7 ==> BackUpTo(ImageBits(out[..], |img|), img, i, 0, 0, w, h, u)
      invariant i == 7 ==> PassesBack(ImageBits(out[..], |img|), img, 7, w, h, u)
    {
      assert HoldsPass(BitsOf(inn[..]), base[i], img, i, w, h, u);
      for y := 0 to v.passh[i]
        invariant ZeroOrRight(ImageBits(out[..], |img|), img)
        invariant BackUpTo(ImageBits(out[..], |img|), img, i, y, 0, w, h, u)
      {
        DeinterlaceRowBits(out, inn, 8 * v.start[i], i, y, v.passw[i], w, h, u, img);
      }
      PassIsBack(ImageBits(out[..], |img|), img, i, w, h, u);
    }
    WholeImageBack(ImageBits(out[..], |img|), img, w, h, u);
  }
}
