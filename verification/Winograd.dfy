/** Winograd's way to an inner product, and tables filled cell by cell. */
module Winograd {
  import opened Sequences

  function Dot(x: seq<int>, y: seq<int>, n: nat): int
    requires n <= |x| && n <= |y|
  {
    if n == 0 then 0 else Dot(x, y, n - 1) + x[n - 1] * y[n - 1]
  }

  /** rowFactor and columnFactor: the products of neighbours. */
  function Pairs(x: seq<int>, d: nat): int
    requires 2 * d <= |x|
  {
    if d == 0 then 0 else Pairs(x, d - 1) + x[2 * (d - 1)] * x[2 * (d - 1) + 1]
  }

  function MixedTerm(x: seq<int>, y: seq<int>, k: nat): int
    requires 2 * k + 1 < |x| && 2 * k + 1 < |y|
  {
    (x[2 * k] + y[2 * k + 1]) * (x[2 * k + 1] + y[2 * k])
  }

  function Mixed(x: seq<int>, y: seq<int>, d: nat): int
    requires 2 * d <= |x| && 2 * d <= |y|
  {
    if d == 0 then 0 else Mixed(x, y, d - 1) + MixedTerm(x, y, d - 1)
  }

  lemma NextMixed(x: seq<int>, y: seq<int>, k: nat)
    requires 2 * k + 1 < |x| && 2 * k + 1 < |y|
    ensures Mixed(x, y, k + 1) == Mixed(x, y, k) + MixedTerm(x, y, k)
  {
  }

  lemma UpdateTwice(s: seq<int>, n: nat, a: int, b: int)
    requires n < |s|
    ensures s[n := a][n := b] == s[n := b] && s[n := a][n] == a && s[n := s[n]] == s
  {
  }

  lemma FourProducts(a: int, b: int, c: int, d: int)
    ensures (a + d) * (b + c) == a * b + c * d + a * c + b * d
  {
  }

  /** Half as many products, the same sum. */
  lemma {:induction false} WinogradIsDot(x: seq<int>, y: seq<int>, d: nat)
    requires 2 * d <= |x| && 2 * d <= |y|
    ensures -Pairs(x, d) - Pairs(y, d) + Mixed(x, y, d) == Dot(x, y, 2 * d)
  {
    if d > 0 {
      WinogradIsDot(x, y, d - 1);
      var k := d - 1;
      FourProducts(x[2 * k], x[2 * k + 1], y[2 * k], y[2 * k + 1]);
      assert Dot(x, y, 2 * k + 2) == Dot(x, y, 2 * k) + x[2 * k] * y[2 * k] + x[2 * k + 1] * y[2 * k + 1];
    }
  }

  /** A cell before and after the correction for an odd dimension. */
  function EvenCell(x: seq<int>, y: seq<int>): int
    requires |x| == |y|
  {
    -Pairs(x, |x| / 2) - Pairs(y, |x| / 2) + Mixed(x, y, |x| / 2)
  }

  function FastCell(x: seq<int>, y: seq<int>): int
    requires |x| == |y|
  {
    EvenCell(x, y) + if |x| % 2 == 1 then x[|x| - 1] * y[|x| - 1] else 0
  }

  lemma FastCellIsDot(x: seq<int>, y: seq<int>)
    requires |x| == |y|
    ensures FastCell(x, y) == Dot(x, y, |x|)
  {
    WinogradIsDot(x, y, |x| / 2);
  }

  // ----- matrices stored row by row

  /** Row `i` of a matrix with `cols` columns. */
  function RowOf(m: seq<int>, cols: nat, i: nat): (r: seq<int>)
    requires Start(i + 1, cols) <= |m|
    ensures |r| == cols
  {
    m[Start(i, cols)..Start(i + 1, cols)]
  }

  lemma CellFits(rows: nat, cols: nat, i: nat, j: nat)
    requires i < rows && j < cols
    ensures Start(i, cols) + j < Start(rows, cols)
  {
    StartMonotone(i + 1, rows, cols);
  }

  function Column(m: seq<int>, rows: nat, cols: nat, j: nat): (c: seq<int>)
    requires j < cols && Start(rows, cols) <= |m|
    ensures |c| == rows
  {
    seq<int>(rows, i requires 0 <= i < rows => (CellFits(rows, cols, i, j); m[Start(i, cols) + j]))
  }

  lemma RowAt(m: seq<int>, rows: nat, cols: nat, i: nat, k: nat)
    requires i < rows && k < cols && |m| == Start(rows, cols)
    ensures Start(i + 1, cols) <= |m| && Start(i, cols) + k < |m|
    ensures RowOf(m, cols, i)[k] == m[Start(i, cols) + k]
  {
    StartMonotone(i + 1, rows, cols);
  }

  lemma ColumnAt(m: seq<int>, rows: nat, cols: nat, k: nat, j: nat)
    requires k < rows && j < cols && |m| == Start(rows, cols)
    ensures Start(k, cols) + j < |m| && Column(m, rows, cols, j)[k] == m[Start(k, cols) + j]
  {
    CellFits(rows, cols, k, j);
  }

  ghost predicate AreRowFactors(factors: seq<int>, g: seq<int>, a: nat, b: nat, d: nat) {
    && |g| == Start(a, b) && |factors| <= a && 2 * d <= b
    && forall i: nat {:trigger factors[i]} :: i < |factors| ==> IsRowFactor(factors[i], g, b, d, i)
  }

  ghost predicate IsRowFactor(factor: int, g: seq<int>, b: nat, d: nat, i: nat) {
    Start(i + 1, b) <= |g| && 2 * d <= b && factor == Pairs(RowOf(g, b, i), d)
  }

  ghost predicate AreColumnFactors(factors: seq<int>, h: seq<int>, b: nat, c: nat, d: nat) {
    && |h| == Start(b, c) && |factors| <= c && 2 * d <= b
    && forall j: nat {:trigger factors[j]} :: j < |factors| ==> factors[j] == Pairs(Column(h, b, c, j), d)
  }

  /** The first `n` cells of row `i` of the table of `f`. */
  ghost function Cells(f: (nat, nat) -> int, i: nat, n: nat): (c: seq<int>)
    ensures |c| == n
  {
    if n == 0 then [] else Cells(f, i, n - 1) + [f(i, n - 1)]
  }

  ghost function Table(f: (nat, nat) -> int, rows: nat, cols: nat): (t: seq<int>)
    ensures |t| == Start(rows, cols)
  {
    if rows == 0 then [] else Table(f, rows - 1, cols) + Cells(f, rows - 1, cols)
  }

  lemma {:induction false} CellsAt(f: (nat, nat) -> int, i: nat, n: nat, j: nat)
    requires j < n
    ensures Cells(f, i, n)[j] == f(i, j)
  {
    if j < n - 1 { CellsAt(f, i, n - 1, j); }
  }

  lemma {:induction false} TableAt(f: (nat, nat) -> int, rows: nat, cols: nat, i: nat, j: nat)
    requires i < rows && j < cols
    ensures Start(i, cols) + j < Start(rows, cols) && Table(f, rows, cols)[Start(i, cols) + j] == f(i, j)
  {
    CellFits(rows, cols, i, j);
    if i < rows - 1 {
      TableAt(f, rows - 1, cols, i, j);
    } else {
      CellsAt(f, i, cols, j);
    }
  }

  lemma {:induction false} SameCells(f: (nat, nat) -> int, g: (nat, nat) -> int, i: nat, n: nat)
    requires forall j: nat :: j < n ==> f(i, j) == g(i, j)
    ensures Cells(f, i, n) == Cells(g, i, n)
  {
    if n > 0 { SameCells(f, g, i, n - 1); }
  }

  lemma {:induction false} SameTables(f: (nat, nat) -> int, g: (nat, nat) -> int, rows: nat, cols: nat)
    requires forall i: nat, j: nat :: i < rows && j < cols ==> f(i, j) == g(i, j)
    ensures Table(f, rows, cols) == Table(g, rows, cols)
  {
    if rows > 0 {
      SameTables(f, g, rows - 1, cols);
      SameCells(f, g, rows - 1, cols);
    }
  }

  // ----- filling a table in place

  /** The cells in front of (i, j) hold the table of `f`, the others are as before. */
  ghost predicate FilledTo(now: seq<int>, before: seq<int>, f: (nat, nat) -> int, cols: nat, i: nat, j: nat) {
    var done := Table(f, i, cols) + Cells(f, i, j);
    |done| <= |before| == |now| && now == done + before[|done|..]
  }

  lemma NothingFilled(before: seq<int>, f: (nat, nat) -> int, cols: nat)
    ensures FilledTo(before, before, f, cols, 0, 0)
  {
  }

  lemma OneMoreCell(f: (nat, nat) -> int, i: nat, j: nat)
    ensures Cells(f, i, j + 1) == Cells(f, i, j) + [f(i, j)]
  {
  }

  lemma OneReplaced(now: seq<int>, before: seq<int>, done: seq<int>, x: int)
    requires |done| < |before| && now == done + before[|done|..]
    ensures now[|done|] == before[|done|]
    ensures now[|done| := x] == done + [x] + before[|done| + 1..]
  {
    assert before[|done|..][1..] == before[|done| + 1..];
  }

  lemma CellFilled(now: seq<int>, before: seq<int>, f: (nat, nat) -> int, cols: nat, i: nat, j: nat)
    requires FilledTo(now, before, f, cols, i, j) && Start(i, cols) + j < |now|
    ensures now[Start(i, cols) + j] == before[Start(i, cols) + j]
    ensures FilledTo(now[Start(i, cols) + j := f(i, j)], before, f, cols, i, j + 1)
  {
    hide Table, Cells, Start;
    OneMoreCell(f, i, j);
    var table, cells := Table(f, i, cols), Cells(f, i, j);
    assert table + (cells + [f(i, j)]) == table + cells + [f(i, j)];
    OneReplaced(now, before, table + cells, f(i, j));
  }

  lemma RowFilled(now: seq<int>, before: seq<int>, f: (nat, nat) -> int, cols: nat, i: nat)
    requires FilledTo(now, before, f, cols, i, cols)
    ensures FilledTo(now, before, f, cols, i + 1, 0)
  {
    assert Table(f, i + 1, cols) + Cells(f, i + 1, 0) == Table(f, i, cols) + Cells(f, i, cols);
  }

  lemma TableFilled(now: seq<int>, before: seq<int>, f: (nat, nat) -> int, rows: nat, cols: nat)
    requires FilledTo(now, before, f, cols, rows, 0) && |now| == Start(rows, cols)
    ensures now == Table(f, rows, cols)
  {
    assert Cells(f, rows, 0) == [];
  }
}
