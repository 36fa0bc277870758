/** Every seven stored passes are the passes of an image: the image that takes
    each pixel from its place in its pass. */
module PassAssembly {
  import opened Adam7
  import opened InterlaceBuffers
  import opened Interlacing
  import opened Sequences

  // ----- coordinates of pixel `k`

  function RowNumber(k: nat, w: nat): nat
    requires w > 0
  {
    if k < w then 0 else 1 + RowNumber(k - w, w)
  }

  function ColumnNumber(k: nat, w: nat): (x: nat)
    requires w > 0
    ensures x < w
  {
    if k < w then k else ColumnNumber(k - w, w)
  }

  lemma {:induction false} Coordinates(X: nat, Y: nat, w: nat)
    requires X < w
    ensures RowNumber(Start(Y, w) + X, w) == Y && ColumnNumber(Start(Y, w) + X, w) == X
    decreases Y
  {
    if Y > 0 { Coordinates(X, Y - 1, w); }
  }

  // ----- where pixel `k` is stored

  function PlaceInPass(v: nat, start: nat, step: nat): nat
    requires step > 0
  {
    if v < start then 0 else (v - start) / step
  }

  /** Row `y` and column `x` of a stored pass. */
  function StoredAt(base: nat, x: nat, y: nat, cols: nat, u: nat): nat {
    base + Start(y, Start(cols, u)) + Start(x, u)
  }

  function Source(k: nat, base: seq<nat>, w: nat, h: nat, u: nat): nat
    requires w > 0 && h > 0 && |base| >= 7
  {
    var X, Y := ColumnNumber(k, w), RowNumber(k, w);
    var i := PassOf(X, Y);
    StoredAt(base[i], PlaceInPass(X, Ix(i), Dx(i)), PlaceInPass(Y, Iy(i), Dy(i)), Cols(i, w, h), u)
  }

  lemma SourceOfPixel(i: nat, x: nat, y: nat, base: seq<nat>, w: nat, h: nat, u: nat)
    requires w > 0 && h > 0 && |base| >= 7 && i < 7 && x < Cols(i, w, h) && y < Rows(i, w, h)
    ensures Source(PixelIndex(i, x, y, w), base, w, h, u) == StoredAt(base[i], x, y, Cols(i, w, h), u)
  {
    PixelsExact(i, w, h, x, y);
    var X, Y := Ix(i) + x * Dx(i), Iy(i) + y * Dy(i);
    PatternIsUnique(i, x, y, X, Y);
    hide PassOf, Cols, Rows, Ix, Iy, Dx, Dy, StoredAt;
    Coordinates(X, Y, w);
    assert PixelIndex(i, x, y, w) == Start(Y, w) + X;
  }

  ghost predicate PassesFit<T>(s: seq<T>, base: seq<nat>, w: nat, h: nat, u: nat)
    requires w > 0 && h > 0
  {
    |base| >= 7 && forall i: nat {:trigger base[i]} :: i < 7 ==>
          base[i] + Start(Rows(i, w, h), Start(Cols(i, w, h), u)) <= |s|
  }

  lemma StoredFits(base: nat, x: nat, y: nat, cols: nat, rows: nat, u: nat)
    requires x < cols && y < rows
    ensures StoredAt(base, x, y, cols, u) + u <= base + Start(rows, Start(cols, u))
  {
    StartMonotone(x + 1, cols, u);
    StartMonotone(y + 1, rows, Start(cols, u));
  }

  lemma PlaceOfPixel(k: nat, w: nat, h: nat) returns (i: nat, x: nat, y: nat)
    requires w > 0 && h > 0 && k < Start(h, w)
    ensures i < 7 && x < Cols(i, w, h) && y < Rows(i, w, h) && PixelIndex(i, x, y, w) == k
  {
    var Y := Piece(k, h, w);
    var X := k - Start(Y, w);
    i := PassOf(X, Y);
    x, y := PatternCovers(X, Y);
    hide PassOf, Ix, Iy, Dx, Dy, Cols, Rows;
    PixelsExact(i, w, h, x, y);
  }

  lemma SourceFits<T>(s: seq<T>, k: nat, base: seq<nat>, w: nat, h: nat, u: nat)
    requires w > 0 && h > 0 && PassesFit(s, base, w, h, u) && k < Start(h, w)
    ensures Source(k, base, w, h, u) + u <= |s|
  {
    var i, x, y := PlaceOfPixel(k, w, h);
    hide Cols, Rows, Source, StoredAt, PixelIndex;
    SourceOfPixel(i, x, y, base, w, h, u);
    StoredFits(base[i], x, y, Cols(i, w, h), Rows(i, w, h), u);
  }

  // ----- the image

  /** The first `n` pixels, each from its place. */
  ghost function Assembled<T>(s: seq<T>, base: seq<nat>, n: nat, w: nat, h: nat, u: nat): (img: seq<T>)
    requires w > 0 && h > 0 && PassesFit(s, base, w, h, u) && n <= Start(h, w)
    ensures |img| == Start(n, u)
  {
    if n == 0 then []
    else
      SourceFits(s, n - 1, base, w, h, u);
      var from := Source(n - 1, base, w, h, u);
      Assembled(s, base, n - 1, w, h, u) + s[from..from + u]
  }

  lemma NextAssembled<T>(s: seq<T>, base: seq<nat>, n: nat, w: nat, h: nat, u: nat)
                         returns (front: seq<T>, last: seq<T>)
    requires w > 0 && h > 0 && PassesFit(s, base, w, h, u) && 0 < n <= Start(h, w)
    ensures var from := Source(n - 1, base, w, h, u); from + u <= |s| && last == s[from..from + u]
    ensures front == Assembled(s, base, n - 1, w, h, u) && |front| == Start(n - 1, u) && |last| == u
    ensures Assembled(s, base, n, w, h, u) == front + last && Start(n, u) == Start(n - 1, u) + u
  {
    hide Source;
    SourceFits(s, n - 1, base, w, h, u);
    var from := Source(n - 1, base, w, h, u);
    front, last := Assembled(s, base, n - 1, w, h, u), s[from..from + u];
  }

  lemma {:induction false} AssembledPixel<T>(s: seq<T>, base: seq<nat>, n: nat, w: nat, h: nat, u: nat, k: nat)
    requires w > 0 && h > 0 && PassesFit(s, base, w, h, u) && k < n <= Start(h, w)
    ensures Start(k + 1, u) <= Start(n, u) && Source(k, base, w, h, u) + u <= |s|
    ensures Pixel(Assembled(s, base, n, w, h, u), k, u) == s[Source(k, base, w, h, u)..Source(k, base, w, h, u) + u]
  {
    hide Source, PassesFit, Assembled, Start;
    var front, last := NextAssembled(s, base, n, w, h, u);
    StartMonotone(k + 1, n, u);
    NextStored(0, k, 0, 0, u);
    if k < n - 1 {
      StartMonotone(k + 1, n - 1, u);
      AssembledPixel(s, base, n - 1, w, h, u, k);
    }
    EitherPart(front, last, Start(k, u), Start(k + 1, u));
  }

  lemma EitherPart<T>(a: seq<T>, b: seq<T>, x: nat, y: nat)
    requires x <= y <= |a| + |b|
    ensures y <= |a| ==> (a + b)[x..y] == a[x..y]
    ensures x == |a| && y == |a| + |b| ==> (a + b)[x..y] == b
  {
  }

  /** The pixels of one row of a pass lie in a row. */
  lemma {:induction false} RowAssembled<T>(s: seq<T>, base: seq<nat>, i: nat, y: nat, m: nat, w: nat, h: nat, u: nat)
    requires w > 0 && h > 0 && u > 0 && PassesFit(s, base, w, h, u)
    requires i < 7 && y < Rows(i, w, h) && m <= Cols(i, w, h)
    ensures var from := base[i] + Start(y, Start(Cols(i, w, h), u));
            && from + Start(m, u) <= |s|
            && PassRow(Assembled(s, base, Start(h, w), w, h, u), i, y, m, w, h, u) == s[from..from + Start(m, u)]
  {
    hide Cols, Rows, Source, Assembled, PixelIndex, Pixel, StoredAt;
    var img := Assembled(s, base, Start(h, w), w, h, u);
    RowFitsInPass(base[i], y, m, Cols(i, w, h), Rows(i, w, h), u);
    if m > 0 {
      RowAssembled(s, base, i, y, m - 1, w, h, u);
      PixelFits(i, m - 1, y, w, h);
      SourceOfPixel(i, m - 1, y, base, w, h, u);
      AssembledPixel(s, base, Start(h, w), w, h, u, PixelIndex(i, m - 1, y, w));
      PixelInImage(img, i, m - 1, y, w, h, u);
      NextStored(base[i], m - 1, y, Cols(i, w, h), u);
      PassRowGrows(img, i, y, m, w, h, u);
      var from := base[i] + Start(y, Start(Cols(i, w, h), u));
      hide PassRow, PassesFit, Start;
      Adjacent(s, from, from + Start(m - 1, u), from + Start(m, u));
    }
  }

  lemma Adjacent<T>(s: seq<T>, a: nat, b: nat, c: nat)
    requires a <= b <= c <= |s|
    ensures s[a..b] + s[b..c] == s[a..c]
  {
  }

  lemma RowFitsInPass(base: nat, y: nat, m: nat, cols: nat, rows: nat, u: nat)
    requires y < rows && m <= cols
    ensures base + Start(y, Start(cols, u)) + Start(m, u) <= base + Start(rows, Start(cols, u))
  {
    StartMonotone(m, cols, u);
    StartMonotone(y + 1, rows, Start(cols, u));
  }

  lemma NextStored(base: nat, x: nat, y: nat, cols: nat, u: nat)
    ensures StoredAt(base, x, y, cols, u) == base + Start(y, Start(cols, u)) + Start(x, u)
    ensures Start(x + 1, u) == Start(x, u) + u
  {
  }

  lemma PassRowGrows<T>(img: seq<T>, i: nat, y: nat, m: nat, w: nat, h: nat, u: nat)
    requires IsImage(img, w, h, u) && i < 7 && y < Rows(i, w, h) && 0 < m <= Cols(i, w, h)
    ensures Start(PixelIndex(i, m - 1, y, w) + 1, u) <= |img|
    ensures PassRow(img, i, y, m, w, h, u) == PassRow(img, i, y, m - 1, w, h, u)
            + Pixel(img, PixelIndex(i, m - 1, y, w), u)
  {
    PixelInImage(img, i, m - 1, y, w, h, u);
    hide PixelIndex, Cols, Rows, Pixel;
  }

  /** The rows of a pass lie below each other. */
  lemma {:induction false} UnitsAssembled<T>(s: seq<T>, base: seq<nat>, i: nat, n: nat, w: nat, h: nat, u: nat)
    requires w > 0 && h > 0 && u > 0 && PassesFit(s, base, w, h, u) && i < 7 && n <= Rows(i, w, h)
    ensures base[i] + Start(n, Start(Cols(i, w, h), u)) <= |s|
    ensures PassUnits(Assembled(s, base, Start(h, w), w, h, u), i, n, w, h, u)
         == s[base[i]..base[i] + Start(n, Start(Cols(i, w, h), u))]
  {
    hide Cols, Rows, Assembled, PassRow;
    StartMonotone(n, Rows(i, w, h), Start(Cols(i, w, h), u));
    if n > 0 {
      var line := Start(Cols(i, w, h), u);
      UnitsAssembled(s, base, i, n - 1, w, h, u);
      RowAssembled(s, base, i, n - 1, Cols(i, w, h), w, h, u);
      Adjacent(s, base[i], base[i] + Start(n - 1, line), base[i] + Start(n, line));
    }
  }

  /** Whatever is stored, it is the passes of an image. */
  lemma PassesAreAnImage<T>(s: seq<T>, base: seq<nat>, w: nat, h: nat, u: nat) returns (img: seq<T>)
    requires w > 0 && h > 0 && u > 0 && PassesFit(s, base, w, h, u)
    ensures IsImage(img, w, h, u)
    ensures forall i: nat {:trigger base[i]} :: i < 7 ==> HoldsPass(s, base[i], img, i, w, h, u)
  {
    hide Cols, Rows, Assembled, PassUnits;
    img := Assembled(s, base, Start(h, w), w, h, u);
    forall i: nat | i < 7 ensures HoldsPass(s, base[i], img, i, w, h, u) {
      UnitsAssembled(s, base, i, Rows(i, w, h), w, h, u);
    }
  }

  /** And of no other one. */
  lemma PassesDecideImage<T>(s: seq<T>, base: seq<nat>, img: seq<T>, other: seq<T>, w: nat, h: nat, u: nat)
    requires IsImage(img, w, h, u) && IsImage(other, w, h, u) && |base| >= 7
    requires forall i: nat {:trigger base[i]} :: i < 7 ==>
               HoldsPass(s, base[i], img, i, w, h, u) && HoldsPass(s, base[i], other, i, w, h, u)
    ensures img == other
  {
    hide Cols, Rows, HoldsPass, PixelIndex, Pixel, Start;
    forall i: nat | i < 7 ensures RowsBack(img, other, i, Rows(i, w, h), w, h, u) {
      assert HoldsPass(s, base[i], img, i, w, h, u) && HoldsPass(s, base[i], other, i, w, h, u);
      forall y: nat | y < Rows(i, w, h) ensures RowBack(img, other, i, y, Cols(i, w, h), w, u) {
        forall x: nat | x < Cols(i, w, h) ensures PixelBack(img, other, PixelIndex(i, x, y, w), u) {
          NextStoredPixel(s, base[i], img, i, x, y, w, h, u);
          NextStoredPixel(s, base[i], other, i, x, y, w, h, u);
        }
      }
    }
    WholeImageBack(img, other, w, h, u);
  }

  // ----- passes that are given one by one

  /** The first `n` passes behind each other. */
  ghost function Gathered<T>(passes: seq<seq<T>>, n: nat): seq<T>
    requires n <= |passes|
  {
    if n == 0 then [] else Gathered(passes, n - 1) + passes[n - 1]
  }

  lemma {:induction false} GatheredAt<T>(passes: seq<seq<T>>, n: nat, i: nat)
    requires i < n <= |passes|
    ensures |Gathered(passes, i)| + |passes[i]| == |Gathered(passes, i + 1)| <= |Gathered(passes, n)|
    ensures Gathered(passes, n)[|Gathered(passes, i)|..|Gathered(passes, i + 1)|] == passes[i]
  {
    if i < n - 1 { GatheredAt(passes, n - 1, i); }
  }

  ghost predicate HavePassSizes<T>(passes: seq<seq<T>>, w: nat, h: nat, u: nat)
    requires w > 0 && h > 0
  {
    |passes| == 7 && forall i: nat {:trigger passes[i]} :: i < 7 ==>
          |passes[i]| == Start(Rows(i, w, h), Start(Cols(i, w, h), u))
  }

  ghost predicate ArePasses<T>(passes: seq<seq<T>>, img: seq<T>, w: nat, h: nat, u: nat)
    requires IsImage(img, w, h, u)
  {
    |passes| == 7 && forall i: nat {:trigger passes[i]} :: i < 7 ==> passes[i] == WholePass(img, i, w, h, u)
  }

  /** Seven passes of the right sizes are the passes of an image. */
  lemma AnyPassesAreAnImage<T>(passes: seq<seq<T>>, w: nat, h: nat, u: nat) returns (img: seq<T>)
    requires w > 0 && h > 0 && u > 0 && HavePassSizes(passes, w, h, u)
    ensures IsImage(img, w, h, u) && ArePasses(passes, img, w, h, u)
  {
    hide Cols, Rows, PassUnits, Gathered;
    var s := Gathered(passes, 7);
    var base := seq<nat>(7, i requires 0 <= i < 7 => |Gathered(passes, i)|);
    forall i: nat | i < 7 ensures base[i] + Start(Rows(i, w, h), Start(Cols(i, w, h), u)) <= |s| {
      GatheredAt(passes, 7, i);
    }
    img := PassesAreAnImage(s, base, w, h, u);
    forall i: nat | i < 7 ensures passes[i] == WholePass(img, i, w, h, u) {
      GatheredAt(passes, 7, i);
      assert HoldsPass(s, base[i], img, i, w, h, u);
    }
  }

  /** And of one image only. */
  lemma AnyPassesDecideImage<T>(passes: seq<seq<T>>, img: seq<T>, other: seq<T>, w: nat, h: nat, u: nat)
    requires IsImage(img, w, h, u) && IsImage(other, w, h, u)
    requires ArePasses(passes, img, w, h, u) && ArePasses(passes, other, w, h, u)
    ensures img == other
  {
    hide Cols, Rows, PassUnits, Gathered, WholePass;
    var s := Gathered(passes, 7);
    var base := seq<nat>(7, i requires 0 <= i < 7 => |Gathered(passes, i)|);
    forall i: nat | i < 7
      ensures HoldsPass(s, base[i], img, i, w, h, u) && HoldsPass(s, base[i], other, i, w, h, u)
    {
      GatheredAt(passes, 7, i);
    }
    PassesDecideImage(s, base, img, other, w, h, u);
  }
}
