/** aux::matrix: row-major storage, and multiplication by Winograd's method. */
module Matrix {
  import opened Sequences
  import opened Winograd

  datatype MultMethod = MultRegular | MultFast

  /** Operands of `a` by `b` and `b` by `c`. */
  ghost predicate Shapes(g: seq<int>, h: seq<int>, a: nat, b: nat, c: nat) {
    |g| == Start(a, b) && |h| == Start(b, c)
  }

  ghost predicate InShape(g: seq<int>, h: seq<int>, a: nat, b: nat, c: nat, i: nat, j: nat) {
    i < a && j < c && Start(i + 1, b) <= |g| && Start(b, c) <= |h|
  }

  /** Cell (i, j) of the product: a sum of products. */
  ghost function ProductCell(g: seq<int>, h: seq<int>, a: nat, b: nat, c: nat, i: nat, j: nat): int {
    if InShape(g, h, a, b, c, i, j) then Dot(RowOf(g, b, i), Column(h, b, c, j), b) else 0
  }

  ghost function EvenPart(g: seq<int>, h: seq<int>, a: nat, b: nat, c: nat, i: nat, j: nat): int {
    if InShape(g, h, a, b, c, i, j) then EvenCell(RowOf(g, b, i), Column(h, b, c, j)) else 0
  }

  ghost function MixedPart(g: seq<int>, h: seq<int>, a: nat, b: nat, c: nat, i: nat, j: nat, k: nat): int {
    if InShape(g, h, a, b, c, i, j) && 2 * k <= b then Mixed(RowOf(g, b, i), Column(h, b, c, j), k) else 0
  }

  lemma NoMixedPart(g: seq<int>, h: seq<int>, a: nat, b: nat, c: nat, i: nat, j: nat)
    ensures MixedPart(g, h, a, b, c, i, j, 0) == 0
  {
  }

  ghost function FastPart(g: seq<int>, h: seq<int>, a: nat, b: nat, c: nat, i: nat, j: nat): int {
    if InShape(g, h, a, b, c, i, j) then FastCell(RowOf(g, b, i), Column(h, b, c, j)) else 0
  }

  ghost function ProductOf(g: seq<int>, h: seq<int>, a: nat, b: nat, c: nat): (nat, nat) -> int {
    (i: nat, j: nat) => ProductCell(g, h, a, b, c, i, j)
  }

  ghost function EvenOf(g: seq<int>, h: seq<int>, a: nat, b: nat, c: nat): (nat, nat) -> int {
    (i: nat, j: nat) => EvenPart(g, h, a, b, c, i, j)
  }

  ghost function FastOf(g: seq<int>, h: seq<int>, a: nat, b: nat, c: nat): (nat, nat) -> int {
    (i: nat, j: nat) => FastPart(g, h, a, b, c, i, j)
  }

  ghost function Product(g: seq<int>, h: seq<int>, a: nat, b: nat, c: nat): (p: seq<int>)
    ensures |p| == Start(a, c)
  {
    Table(ProductOf(g, h, a, b, c), a, c)
  }

  ghost function EvenTable(g: seq<int>, h: seq<int>, a: nat, b: nat, c: nat): (p: seq<int>)
    ensures |p| == Start(a, c)
  {
    Table(EvenOf(g, h, a, b, c), a, c)
  }

  /** What the product means, cell by cell. */
  lemma ProductAt(g: seq<int>, h: seq<int>, a: nat, b: nat, c: nat, i: nat, j: nat)
    requires Shapes(g, h, a, b, c) && i < a && j < c
    ensures Start(i, c) + j < Start(a, c) && Start(i + 1, b) <= |g|
    ensures Product(g, h, a, b, c)[Start(i, c) + j] == Dot(RowOf(g, b, i), Column(h, b, c, j), b)
  {
    TableAt(ProductOf(g, h, a, b, c), a, c, i, j);
    StartMonotone(i + 1, a, b);
  }

  lemma FastIsProduct(g: seq<int>, h: seq<int>, a: nat, b: nat, c: nat)
    ensures Table(FastOf(g, h, a, b, c), a, c) == Product(g, h, a, b, c)
  {
    var f, p := FastOf(g, h, a, b, c), ProductOf(g, h, a, b, c);
    forall i: nat, j: nat | i < a && j < c ensures f(i, j) == p(i, j) {
      if InShape(g, h, a, b, c, i, j) { FastCellIsDot(RowOf(g, b, i), Column(h, b, c, j)); }
    }
    SameTables(f, p, a, c);
  }

  class Matrix {
    var v: array<int>
    var dRow: nat
    var dCol: nat

    ghost predicate Valid()
      reads this
    {
      v.Length == Start(dRow, dCol)
    }

    constructor (row: nat, col: nat)
      ensures Valid() && fresh(v) && dRow == row && dCol == col
    {
      dRow, dCol := row, col;
      StartIsProduct(row, col);
      v := new int[row * col](_ => 0);
    }

    /** The storage is replaced. */
    method Resize(row: nat, col: nat)
      modifies this
      ensures Valid() && fresh(v) && dRow == row && dCol == col
    {
      dRow, dCol := row, col;
      StartIsProduct(row, col);
      v := new int[row * col](_ => 0);
    }

    /** operator(): row * dCol + col */
    method Get(row: nat, col: nat) returns (x: int)
      requires Valid() && row < dRow && col < dCol
      ensures Start(row, dCol) + col < v.Length && x == v[Start(row, dCol) + col]
    {
      CellFits(dRow, dCol, row, col);
      var index := RowOffset(dCol, row);
      x := v[index + col];
    }

    method Set(row: nat, col: nat, x: int)
      requires Valid() && row < dRow && col < dCol
      modifies v
      ensures Start(row, dCol) + col < v.Length && v[..] == old(v[..])[Start(row, dCol) + col := x]
    {
      CellFits(dRow, dCol, row, col);
      var index := RowOffset(dCol, row);
      v[index + col] := x;
    }

    method Add(row: nat, col: nat, x: int)
      requires Valid() && row < dRow && col < dCol
      modifies v
      ensures Start(row, dCol) + col < v.Length
      ensures v[..] == old(v[..])[Start(row, dCol) + col := old(v[Start(row, dCol) + col]) + x]
    {
      var before := Get(row, col);
      Set(row, col, before + x);
    }

    /** The matrix can hold the product and shares no storage with the operands. */
    ghost predicate Ready(mG: Matrix, mH: Matrix)
      reads this, mG, mH
    {
      && Valid() && mG.Valid() && mH.Valid() && mG.dCol == mH.dRow
      && dRow == mG.dRow && dCol == mH.dCol
      && v != mG.v && v != mH.v
    }

    /** Element `k` of row `i` of G and of column `j` of H. */
    method Factors(mG: Matrix, mH: Matrix, i: nat, j: nat, k: nat, l: nat) returns (x: int, y: int)
      requires Ready(mG, mH) && i < dRow && j < dCol && k < mG.dCol && l < mG.dCol
      ensures InShape(mG.v[..], mH.v[..], dRow, mG.dCol, dCol, i, j)
      ensures x == RowOf(mG.v[..], mG.dCol, i)[k] && y == Column(mH.v[..], mH.dRow, dCol, j)[l]
    {
      StartMonotone(i + 1, dRow, mG.dCol);
      x := mG.Get(i, k);
      y := mH.Get(l, j);
    }

    method RegularCell(mG: Matrix, mH: Matrix, i: nat, j: nat)
      requires Ready(mG, mH) && i < dRow && j < dCol
      modifies v
      ensures Start(i, dCol) + j < v.Length
      ensures v[..] == old(v[..])[Start(i, dCol) + j := ProductCell(mG.v[..], mH.v[..], dRow, mG.dCol, dCol, i, j)]
    {
      hide RowOf, Column;
      StartMonotone(i + 1, dRow, mG.dCol);
      ghost var x, y := RowOf(mG.v[..], mG.dCol, i), Column(mH.v[..], mH.dRow, dCol, j);
      ghost var n := Start(i, dCol) + j;
      Set(i, j, 0);
      for k := 0 to mG.dCol
        invariant v[..] == old(v[..])[n := Dot(x, y, k)]
      {
        var p, q := Factors(mG, mH, i, j, k, k);
        Add(i, j, p * q);
      }
    }

    /** The case of MULT_REGULAR. */
    method MultiplyRegular(mG: Matrix, mH: Matrix)
      requires Ready(mG, mH)
      modifies v
      ensures v[..] == Product(mG.v[..], mH.v[..], dRow, mG.dCol, dCol)
    {
      hide ProductCell, FilledTo;
      ghost var before := v[..];
      ghost var f := ProductOf(mG.v[..], mH.v[..], dRow, mG.dCol, dCol);
      NothingFilled(before, f, dCol);
      for i := 0 to dRow
        invariant FilledTo(v[..], before, f, dCol, i, 0)
      {
        for j := 0 to dCol
          invariant FilledTo(v[..], before, f, dCol, i, j)
        {
          CellFits(dRow, dCol, i, j);
          CellFilled(v[..], before, f, dCol, i, j);
          RegularCell(mG, mH, i, j);
        }
        RowFilled(v[..], before, f, dCol, i);
      }
      TableFilled(v[..], before, f, dRow, dCol);
    }

    // ----- Winograd's method

    static method RowFactors(mG: Matrix, d: nat) returns (rowFactor: array<int>)
      requires mG.Valid() && 1 <= d && 2 * d <= mG.dCol
      ensures fresh(rowFactor) && rowFactor.Length == mG.dRow
      ensures AreRowFactors(rowFactor[..], mG.v[..], mG.dRow, mG.dCol, d)
    {
      hide IsRowFactor, Start;
      rowFactor := new int[mG.dRow];
      for i := 0 to mG.dRow
        invariant AreRowFactors(rowFactor[..i], mG.v[..], mG.dRow, mG.dCol, d)
      {
        var factor := RowFactor(mG, d, i);
        rowFactor[i] := factor;
        assert rowFactor[..i + 1] == rowFactor[..i] + [factor];
      }
      assert rowFactor[..] == rowFactor[..mG.dRow];
    }

    static method RowFactor(mG: Matrix, d: nat, i: nat) returns (factor: int)
      requires mG.Valid() && 1 <= d && 2 * d <= mG.dCol && i < mG.dRow
      ensures IsRowFactor(factor, mG.v[..], mG.dCol, d, i)
    {
      StartMonotone(i + 1, mG.dRow, mG.dCol);
      ghost var g := mG.v[..];
      ghost var x := RowOf(g, mG.dCol, i);
      hide RowOf, Start;
      RowAt(g, mG.dRow, mG.dCol, i, 0);
      RowAt(g, mG.dRow, mG.dCol, i, 1);
      var p := mG.Get(i, 0);
      var q := mG.Get(i, 1);
      factor := p * q;
      assert Pairs(x, 1) == x[0] * x[1];
      for j := 1 to d
        invariant factor == Pairs(x, j)
      {
        RowAt(g, mG.dRow, mG.dCol, i, 2 * j);
        RowAt(g, mG.dRow, mG.dCol, i, 2 * j + 1);
        p := mG.Get(i, 2 * j);
        q := mG.Get(i, 2 * j + 1);
        factor := factor + p * q;
      }
    }

    static method ColumnFactors(mH: Matrix, d: nat) returns (columnFactor: array<int>)
      requires mH.Valid() && 1 <= d && 2 * d <= mH.dRow
      ensures fresh(columnFactor) && columnFactor.Length == mH.dCol
      ensures AreColumnFactors(columnFactor[..], mH.v[..], mH.dRow, mH.dCol, d)
    {
      hide Pairs, Column, Start;
      columnFactor := new int[mH.dCol];
      for i := 0 to mH.dCol
        invariant AreColumnFactors(columnFactor[..i], mH.v[..], mH.dRow, mH.dCol, d)
      {
        var factor := ColumnFactor(mH, d, i);
        columnFactor[i] := factor;
        assert columnFactor[..i + 1] == columnFactor[..i] + [factor];
      }
      assert columnFactor[..] == columnFactor[..mH.dCol];
    }

    static method ColumnFactor(mH: Matrix, d: nat, i: nat) returns (factor: int)
      requires mH.Valid() && 1 <= d && 2 * d <= mH.dRow && i < mH.dCol
      ensures factor == Pairs(Column(mH.v[..], mH.dRow, mH.dCol, i), d)
    {
      hide Column, Start;
      ghost var h := mH.v[..];
      ghost var x := Column(h, mH.dRow, mH.dCol, i);
      ColumnAt(h, mH.dRow, mH.dCol, 0, i);
      ColumnAt(h, mH.dRow, mH.dCol, 1, i);
      var p := mH.Get(0, i);
      var q := mH.Get(1, i);
      factor := p * q;
      assert Pairs(x, 1) == x[0] * x[1];
      for j := 1 to d
        invariant factor == Pairs(x, j)
      {
        ColumnAt(h, mH.dRow, mH.dCol, 2 * j, i);
        ColumnAt(h, mH.dRow, mH.dCol, 2 * j + 1, i);
        p := mH.Get(2 * j, i);
        q := mH.Get(2 * j + 1, i);
        factor := factor + p * q;
      }
    }

    /** One mixed product. */
    method NextTerm(mG: Matrix, mH: Matrix, i: nat, j: nat, k: nat) returns (term: int)
      requires Ready(mG, mH) && i < dRow && j < dCol && 2 * k + 1 < mG.dCol
      ensures MixedPart(mG.v[..], mH.v[..], dRow, mG.dCol, dCol, i, j, k + 1)
           == MixedPart(mG.v[..], mH.v[..], dRow, mG.dCol, dCol, i, j, k) + term
    {
      hide RowOf, Column, Start;
      var p, q := Factors(mG, mH, i, j, 2 * k, 2 * k + 1);
      var p', q' := Factors(mG, mH, i, j, 2 * k + 1, 2 * k);
      term := (p + q) * (p' + q');
      NextMixed(RowOf(mG.v[..], mG.dCol, i), Column(mH.v[..], mH.dRow, dCol, j), k);
    }

    /** The loop that adds the mixed products to a cell. */
    method AddTerms(mG: Matrix, mH: Matrix, i: nat, j: nat, d: nat)
      requires Ready(mG, mH) && i < dRow && j < dCol && 2 * d <= mG.dCol
      modifies v
      ensures Start(i, dCol) + j < v.Length
      ensures v[..] == old(v[..])[Start(i, dCol) + j := old(v[Start(i, dCol) + j])
                                  + MixedPart(mG.v[..], mH.v[..], dRow, mG.dCol, dCol, i, j, d)]
    {
      CellFits(dRow, dCol, i, j);
      hide MixedPart, Start;
      ghost var g, h, n, before := mG.v[..], mH.v[..], Start(i, dCol) + j, v[..];
      NoMixedPart(g, h, dRow, mG.dCol, dCol, i, j);
      UpdateTwice(before, n, 0, 0);
      for k := 0 to d
        invariant v[..] == before[n := before[n] + MixedPart(g, h, dRow, mG.dCol, dCol, i, j, k)]
      {
        var term := NextTerm(mG, mH, i, j, k);
        Add(i, j, term);
      }
    }

    method EvenCellInto(mG: Matrix, mH: Matrix, i: nat, j: nat, rowFactor: int, columnFactor: int)
      requires Ready(mG, mH) && i < dRow && j < dCol
      requires IsRowFactor(rowFactor, mG.v[..], mG.dCol, mG.dCol / 2, i)
      requires columnFactor == Pairs(Column(mH.v[..], mH.dRow, dCol, j), mG.dCol / 2)
      modifies v
      ensures Start(i, dCol) + j < v.Length
      ensures v[..] == old(v[..])[Start(i, dCol) + j := EvenPart(mG.v[..], mH.v[..], dRow, mG.dCol, dCol, i, j)]
    {
      hide RowOf, Column, Pairs, EvenPart, MixedPart, Start;
      EvenPartIs(mG.v[..], mH.v[..], dRow, mG.dCol, dCol, i, j);
      Set(i, j, -rowFactor - columnFactor);
      AddTerms(mG, mH, i, j, mG.dCol / 2);
    }

    /** The table of all even parts. */
    method FillEven(mG: Matrix, mH: Matrix, rowFactor: array<int>, columnFactor: array<int>)
      requires Ready(mG, mH) && v != rowFactor && v != columnFactor
      requires rowFactor.Length == dRow && columnFactor.Length == dCol
      requires AreRowFactors(rowFactor[..], mG.v[..], dRow, mG.dCol, mG.dCol / 2)
      requires AreColumnFactors(columnFactor[..], mH.v[..], mG.dCol, dCol, mG.dCol / 2)
      modifies v
      ensures v[..] == EvenTable(mG.v[..], mH.v[..], dRow, mG.dCol, dCol)
    {
      hide EvenPart, FilledTo, Pairs, RowOf, Column;
      ghost var g, h, before, a, b, c := mG.v[..], mH.v[..], v[..], dRow, mG.dCol, dCol;
      ghost var f := EvenOf(g, h, a, b, c);
      NothingFilled(before, f, dCol);
      for i := 0 to dRow
        invariant FilledTo(v[..], before, f, dCol, i, 0)
      {
        for j := 0 to dCol
          invariant FilledTo(v[..], before, f, dCol, i, j)
        {
          CellFits(dRow, dCol, i, j);
          CellFilled(v[..], before, f, dCol, i, j);
          EvenCellInto(mG, mH, i, j, rowFactor[i], columnFactor[j]);
        }
        RowFilled(v[..], before, f, dCol, i);
      }
      TableFilled(v[..], before, f, dRow, dCol);
    }

    /** The correction for an odd common dimension. */
    method AddLastProducts(mG: Matrix, mH: Matrix)
      requires Ready(mG, mH) && mG.dCol % 2 == 1
      requires v[..] == EvenTable(mG.v[..], mH.v[..], dRow, mG.dCol, dCol)
      modifies v
      ensures v[..] == Product(mG.v[..], mH.v[..], dRow, mG.dCol, dCol)
    {
      hide EvenPart, FastPart, FilledTo, RowOf, Column, Product;
      ghost var g, h, before, a, b, c := mG.v[..], mH.v[..], v[..], dRow, mG.dCol, dCol;
      ghost var f := FastOf(g, h, a, b, c);
      NothingFilled(before, f, dCol);
      for i := 0 to dRow
        invariant FilledTo(v[..], before, f, dCol, i, 0)
      {
        for j := 0 to dCol
          invariant FilledTo(v[..], before, f, dCol, i, j)
        {
          CellFits(dRow, dCol, i, j);
          CellFilled(v[..], before, f, dCol, i, j);
          TableAt(EvenOf(g, h, a, b, c), a, c, i, j);
          OddCell(g, h, a, b, c, i, j);
          var p, q := Factors(mG, mH, i, j, mG.dCol - 1, mG.dCol - 1);
          Add(i, j, p * q);
        }
        RowFilled(v[..], before, f, dCol, i);
      }
      TableFilled(v[..], before, f, dRow, dCol);
      FastIsProduct(g, h, a, b, c);
    }

    /** mult: the product of G and H.  Both methods end with Winograd's loops,
        because the case of MULT_REGULAR falls through.  Operands that do not fit
        leave the matrix as it is. */
    method Mult(mG: Matrix, mH: Matrix, mulMethod: MultMethod)
      requires Valid() && mG.Valid() && mH.Valid() && this != mG && this != mH && v != mG.v && v != mH.v
      requires mG.dCol == mH.dRow ==> mG.dCol >= 2
      modifies this, v
      ensures Valid() && (v == old(v) || fresh(v))
      ensures mG.dCol != mH.dRow ==> v == old(v) && v[..] == old(v[..]) && dRow == old(dRow) && dCol == old(dCol)
      ensures mG.dCol == mH.dRow ==>
                && dRow == mG.dRow && dCol == mH.dCol
                && v[..] == Product(mG.v[..], mH.v[..], mG.dRow, mG.dCol, mH.dCol)
    {
      hide Product, Pairs, RowOf, Column, EvenPart;
      var a, b, c := mG.dRow, mG.dCol, mH.dCol;
      if b != mH.dRow { return; }
      if dRow != a || dCol != c { Resize(a, c); }
      if mulMethod == MultRegular {
        MultiplyRegular(mG, mH);
      } // falls through
      var d := b / 2;
      var rowFactor := RowFactors(mG, d);
      var columnFactor := ColumnFactors(mH, d);
      FillEven(mG, mH, rowFactor, columnFactor);
      if 2 * (b / 2) != b {
        AddLastProducts(mG, mH);
      } else {
        EvenIsFast(mG.v[..], mH.v[..], a, b, c);
        FastIsProduct(mG.v[..], mH.v[..], a, b, c);
      }
    }
  }

  lemma EvenPartIs(g: seq<int>, h: seq<int>, a: nat, b: nat, c: nat, i: nat, j: nat)
    requires Shapes(g, h, a, b, c) && i < a && j < c
    ensures Start(i + 1, b) <= |g|
    ensures var x, y := RowOf(g, b, i), Column(h, b, c, j);
            EvenPart(g, h, a, b, c, i, j) == -Pairs(x, b / 2) - Pairs(y, b / 2) + MixedPart(g, h, a, b, c, i, j, b / 2)
  {
    StartMonotone(i + 1, a, b);
  }

  lemma OddCell(g: seq<int>, h: seq<int>, a: nat, b: nat, c: nat, i: nat, j: nat)
    requires Shapes(g, h, a, b, c) && i < a && j < c && b % 2 == 1
    ensures InShape(g, h, a, b, c, i, j)
    ensures FastPart(g, h, a, b, c, i, j)
         == EvenPart(g, h, a, b, c, i, j) + RowOf(g, b, i)[b - 1] * Column(h, b, c, j)[b - 1]
  {
    StartMonotone(i + 1, a, b);
  }

  /** Without a last single product nothing is missing. */
  lemma EvenIsFast(g: seq<int>, h: seq<int>, a: nat, b: nat, c: nat)
    requires b % 2 == 0
    ensures EvenTable(g, h, a, b, c) == Table(FastOf(g, h, a, b, c), a, c)
  {
    SameTables(EvenOf(g, h, a, b, c), FastOf(g, h, a, b, c), a, c);
  }
}
