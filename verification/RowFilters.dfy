/** filterScanline and filter: rows are filtered from one buffer into another. */
module RowFilters {
  import opened Bits
  import opened Scanlines
  import opened Sequences

  /** The first `i` bytes of `f` have been written at `o`, and nothing else. */
  ghost predicate Filling(now: seq<byte>, before: seq<byte>, o: nat, f: seq<byte>, i: nat) {
    && o + |f| <= |before| == |now| && i <= |f|
    && now == before[..o] + f[..i] + before[o + i..]
  }

  lemma FillingStep(now: seq<byte>, before: seq<byte>, o: nat, f: seq<byte>, i: nat)
    requires Filling(now, before, o, f, i) && i < |f|
    ensures Filling(now[o + i := f[i]], before, o, f, i + 1)
  {
  }

  method Put(out: array<byte>, o: nat, i: nat, v: byte, ghost before: seq<byte>, ghost f: seq<byte>)
    requires Filling(out[..], before, o, f, i) && i < |f| && v == f[i]
    modifies out
    ensures Filling(out[..], before, o, f, i + 1)
  {
    FillingStep(out[..], before, o, f, i);
    out[o + i] := v;
  }

  // ----- the loops of filterScanline

  method CopyBytes(out: array<byte>, o: nat, row: seq<byte>, from: nat, to: nat, ghost before: seq<byte>,
                   ghost f: seq<byte>)
    requires Filling(out[..], before, o, f, from) && from <= to <= |row| == |f|
    requires forall i :: from <= i < to ==> f[i] == row[i]
    modifies out
    ensures Filling(out[..], before, o, f, to)
  {
    hide Filling;
    for i := from to to
      invariant Filling(out[..], before, o, f, i)
    {
      Put(out, o, i, row[i], before, f);
    }
  }

  method SubtractLeft(out: array<byte>, o: nat, row: seq<byte>, bytewidth: nat, ghost before: seq<byte>,
                      ghost f: seq<byte>)
    requires bytewidth <= |row| == |f| && Filling(out[..], before, o, f, bytewidth)
    requires forall i :: bytewidth <= i < |f| ==> f[i] == Minus(row[i], row[i - bytewidth])
    modifies out
    ensures Filling(out[..], before, o, f, |f|)
  {
    hide Filling, Minus;
    for i := bytewidth to |row|
      invariant Filling(out[..], before, o, f, i)
    {
      Put(out, o, i, Minus(row[i], row[i - bytewidth]), before, f);
    }
  }

  method SubtractAbove(out: array<byte>, o: nat, row: seq<byte>, above: seq<byte>, to: nat, ghost before: seq<byte>,
                       ghost f: seq<byte>)
    requires to <= |row| == |f| == |above| && Filling(out[..], before, o, f, 0)
    requires forall i :: 0 <= i < to ==> f[i] == Minus(row[i], above[i])
    modifies out
    ensures Filling(out[..], before, o, f, to)
  {
    hide Filling, Minus;
    for i := 0 to to
      invariant Filling(out[..], before, o, f, i)
    {
      Put(out, o, i, Minus(row[i], above[i]), before, f);
    }
  }

  method SubtractAverage(out: array<byte>, o: nat, row: seq<byte>, above: seq<byte>, bytewidth: nat,
                         ghost before: seq<byte>, ghost f: seq<byte>)
    requires bytewidth <= |row| == |f| == |above| && Filling(out[..], before, o, f, 0)
    requires forall i :: 0 <= i < bytewidth ==> f[i] == Minus(row[i], above[i] / 2)
    requires forall i :: bytewidth <= i < |f| ==> f[i] == Minus(row[i], Average(row[i - bytewidth], above[i]))
    modifies out
    ensures Filling(out[..], before, o, f, |f|)
  {
    hide Filling, Minus;
    for i := 0 to bytewidth
      invariant Filling(out[..], before, o, f, i)
    {
      Put(out, o, i, Minus(row[i], above[i] / 2), before, f);
    }
    for i := bytewidth to |row|
      invariant Filling(out[..], before, o, f, i)
    {
      Put(out, o, i, Minus(row[i], Average(row[i - bytewidth], above[i])), before, f);
    }
  }

  method SubtractHalfLeft(out: array<byte>, o: nat, row: seq<byte>, bytewidth: nat, ghost before: seq<byte>,
                          ghost f: seq<byte>)
    requires bytewidth <= |row| == |f| && Filling(out[..], before, o, f, bytewidth)
    requires forall i :: bytewidth <= i < |f| ==> f[i] == Minus(row[i], row[i - bytewidth] / 2)
    modifies out
    ensures Filling(out[..], before, o, f, |f|)
  {
    hide Filling, Minus;
    for i := bytewidth to |row|
      invariant Filling(out[..], before, o, f, i)
    {
      Put(out, o, i, Minus(row[i], row[i - bytewidth] / 2), before, f);
    }
  }

  method SubtractPaeth(out: array<byte>, o: nat, row: seq<byte>, above: seq<byte>, bytewidth: nat,
                       ghost before: seq<byte>, ghost f: seq<byte>)
    requires bytewidth <= |row| == |f| == |above| && Filling(out[..], before, o, f, bytewidth)
    requires forall i :: bytewidth <= i < |f| ==>
               f[i] == Minus(row[i], Paeth(row[i - bytewidth], above[i], above[i - bytewidth]))
    modifies out
    ensures Filling(out[..], before, o, f, |f|)
  {
    hide Filling, Minus, Paeth;
    for i := bytewidth to |row|
      invariant Filling(out[..], before, o, f, i)
    {
      Put(out, o, i, Minus(row[i], Paeth(row[i - bytewidth], above[i], above[i - bytewidth])), before, f);
    }
  }

  // ----- a row

  /** What the special cases at the left edge and in the first row come to. */
  lemma EdgePredictions(t: byte, row: seq<byte>, above: seq<byte>, bytewidth: nat, i: nat)
    requires 0 < bytewidth <= |row| && i < |row| && (above == [] || |above| == |row|)
    ensures var x := Prediction(t, row, above, bytewidth, i);
            && (t == 0 || t > 4 ==> x == 0)
            && (t == 1 ==> x == if i < bytewidth then 0 else row[i - bytewidth])
            && (t == 2 ==> x == if above == [] then 0 else above[i])
            && (t == 3 ==> x == if above == [] then (if i < bytewidth then 0 else row[i - bytewidth] / 2)
                                else if i < bytewidth then above[i] / 2 else Average(row[i - bytewidth], above[i]))
            && (t == 4 ==> x == if above == [] then (if i < bytewidth then 0 else row[i - bytewidth])
                                else if i < bytewidth then above[i]
                                else Paeth(row[i - bytewidth], above[i], above[i - bytewidth]))
  {
  }

  /** The formulas of filterScanline for byte `i` of the filtered row `f`. */
  ghost predicate FollowsFormula(t: byte, row: seq<byte>, above: seq<byte>, bytewidth: nat, f: seq<byte>, i: nat)
    requires i < |row| == |f| && (above == [] || |above| == |row|)
  {
    && (t == 0 ==> f[i] == row[i])
    && (t == 1 ==> f[i] == if i < bytewidth then row[i] else Minus(row[i], row[i - bytewidth]))
    && (t == 2 ==> f[i] == if above == [] then row[i] else Minus(row[i], above[i]))
    && (t == 3 && above == [] ==> f[i] == if i < bytewidth then row[i] else Minus(row[i], row[i - bytewidth] / 2))
    && (t == 3 && above != [] ==>
          f[i] == Minus(row[i], if i < bytewidth then above[i] / 2 else Average(row[i - bytewidth], above[i])))
    && (t == 4 && above == [] ==> f[i] == if i < bytewidth then row[i] else Minus(row[i], row[i - bytewidth]))
    && (t == 4 && above != [] ==>
          f[i] == Minus(row[i], if i < bytewidth then above[i]
              else Paeth(row[i - bytewidth], above[i], above[i - bytewidth])))
  }

  lemma FilterFormulas(t: byte, row: seq<byte>, above: seq<byte>, bytewidth: nat, i: nat)
    requires 0 < bytewidth <= |row| && i < |row| && (above == [] || |above| == |row|)
    ensures FollowsFormula(t, row, above, bytewidth, FilteredRow(t, row, above, bytewidth), i)
  {
    hide Prediction, Paeth, Average;
    EdgePredictions(t, row, above, bytewidth, i);
    assert FilteredRow(t, row, above, bytewidth)[i] == Minus(row[i], Prediction(t, row, above, bytewidth, i));
  }

  /** filterScanline; nothing is written for an unknown type. */
  method FilterScanline(out: array<byte>, o: nat, row: seq<byte>, above: seq<byte>, bytewidth: nat, t: byte)
    requires 0 < bytewidth <= |row| && (above == [] || |above| == |row|) && o + |row| <= out.Length
    modifies out
    ensures t <= 4 ==> Filling(out[..], old(out[..]), o, FilteredRow(t, row, above, bytewidth), |row|)
    ensures t > 4 ==> out[..] == old(out[..])
  {
    hide Minus, Prediction, Paeth, FilteredRow, Average;
    ghost var before, f := out[..], FilteredRow(t, row, above, bytewidth);
    forall i: nat | i < |row| ensures FollowsFormula(t, row, above, bytewidth, f, i) {
      FilterFormulas(t, row, above, bytewidth, i);
    }
    assert forall i: nat {:trigger f[i]} :: i < |row| ==> FollowsFormula(t, row, above, bytewidth, f, i);
    assert Filling(out[..], before, o, f, 0);
    hide Filling;
    match t {
      case 0 => CopyBytes(out, o, row, 0, |row|, before, f);
      case 1 =>
        CopyBytes(out, o, row, 0, bytewidth, before, f);
        SubtractLeft(out, o, row, bytewidth, before, f);
      case 2 =>
        if above != [] { SubtractAbove(out, o, row, above, |row|, before, f); }
        else { CopyBytes(out, o, row, 0, |row|, before, f); }
      case 3 =>
        if above != [] {
          SubtractAverage(out, o, row, above, bytewidth, before, f);
        } else {
          CopyBytes(out, o, row, 0, bytewidth, before, f);
          SubtractHalfLeft(out, o, row, bytewidth, before, f);
        }
      case 4 =>
        if above != [] {
          SubtractAbove(out, o, row, above, bytewidth, before, f);
          SubtractPaeth(out, o, row, above, bytewidth, before, f);
        } else {
          CopyBytes(out, o, row, 0, bytewidth, before, f);
          SubtractLeft(out, o, row, bytewidth, before, f);
        }
      case _ =>
    }
  }

  // ----- an image

  /** The filtered rows so far, from `o` on. */
  ghost predicate Filtering(now: seq<byte>, before: seq<byte>, o: nat, f: seq<byte>) {
    o + |f| <= |before| == |now| && now == before[..o] + f + before[o + |f|..]
  }

  /** filter, whatever filter type the strategy has chosen for each row. */
  method Filter(out: array<byte>, o: nat, image: seq<byte>, h: nat, linebytes: nat, bytewidth: nat, types: seq<byte>)
    requires (h > 0 ==> 0 < bytewidth <= linebytes) && |types| == h && forall y :: 0 <= y < h ==> types[y] <= 4
    requires Start(h, linebytes) <= |image| && o + Start(h, 1 + linebytes) <= out.Length
    modifies out
    ensures Filtering(out[..], old(out[..]), o, FilteredImage(image, types, linebytes, bytewidth, h))
  {
    hide FilteredImage, Filtering;
    ghost var before := out[..];
    NothingFiltered(before, o, image, types, linebytes, bytewidth);
    for y := 0 to h
      invariant Start(y, 1 + linebytes) <= Start(h, 1 + linebytes) && Start(y, linebytes) <= Start(h, linebytes)
      invariant Filtering(out[..], before, o, FilteredImage(image, types, linebytes, bytewidth, y))
    {
      StartMonotone(y + 1, h, linebytes);
      StartMonotone(y + 1, h, 1 + linebytes);
      FilterNextRow(out, o, image, linebytes, bytewidth, types, y, before);
    }
  }

  lemma NothingFiltered(before: seq<byte>, o: nat, image: seq<byte>, types: seq<byte>, linebytes: nat, bytewidth: nat)
    requires o <= |before|
    ensures Filtering(before, before, o, FilteredImage(image, types, linebytes, bytewidth, 0))
  {
  }

  lemma RowAppended(now: seq<byte>, before: seq<byte>, o: nat, f: seq<byte>, t: byte, row: seq<byte>, now': seq<byte>)
    requires Filtering(now, before, o, f) && o + |f| + 1 + |row| <= |now|
    requires Filling(now', now[o + |f| := t], o + |f| + 1, row, |row|)
    ensures Filtering(now', before, o, f + [t] + row)
  {
    assert row[..|row|] == row;
  }

  method FilterNextRow(out: array<byte>, o: nat, image: seq<byte>, linebytes: nat, bytewidth: nat, types: seq<byte>,
                       y: nat, ghost before: seq<byte>)
    requires 0 < bytewidth <= linebytes && y < |types| && types[y] <= 4
    requires Start(y + 1, linebytes) <= |image| && o + Start(y + 1, 1 + linebytes) <= out.Length
    requires Filtering(out[..], before, o, FilteredImage(image, types, linebytes, bytewidth, y))
    modifies out
    ensures Filtering(out[..], before, o, FilteredImage(image, types, linebytes, bytewidth, y + 1))
  {
    hide FilteredRow, Filling, Filtering;
    var outindex := RowOffset(1 + linebytes, y); // the extra filter byte added to each row
    var inindex := RowOffset(linebytes, y);
    var row := image[inindex..inindex + linebytes];
    var prevline := if y == 0 then [] else image[inindex - linebytes..inindex];
    ghost var now := out[..];
    out[o + outindex] := types[y];
    FilterScanline(out, o + outindex + 1, row, prevline, bytewidth, types[y]);
    RowAppended(now, before, o, FilteredImage(image, types, linebytes, bytewidth, y), types[y],
                FilteredRow(types[y], row, prevline, bytewidth), out[..]);
  }
}
