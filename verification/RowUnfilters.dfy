/** unfilterScanline and unfilter.  The buffers may be the same, as long as the
    result does not start behind the filtered data: then every write lands
    before every byte that is still to be read. */
module RowUnfilters {
  import opened Bits
  import opened RowFilters
  import opened Scanlines
  import opened Sequences
  import opened Wrappers

  /** The contents that unfiltering one row is about: the output before it, the
      row above, the filtered row and the row it stands for. */
  datatype RowJob = RowJob(before: seq<byte>, above: seq<byte>, scan: seq<byte>, row: seq<byte>)

  /** The first `i` bytes of the row are done: the rest of the filtered row, the
      row above and everything else are as they were. */
  ghost predicate Partly(out: seq<byte>, o: nat, inn: seq<byte>, s: nat, p: nat, x: RowJob, i: nat) {
    && Filling(out, x.before, o, x.row, i)
    && |x.scan| == |x.row| && s + |x.scan| <= |inn| && inn[s + i..s + |x.scan|] == x.scan[i..]
    && (x.above != [] ==> |x.above| == |x.row| && p + |x.above| <= o && out[p..p + |x.above|] == x.above)
  }

  lemma PartlyReads(out: seq<byte>, o: nat, inn: seq<byte>, s: nat, p: nat, x: RowJob, i: nat, k: nat)
    requires Partly(out, o, inn, s, p, x, i)
    ensures i < |x.row| ==> s + i < |inn| && inn[s + i] == x.scan[i]
    ensures k < i ==> o + k < |out| && out[o + k] == x.row[k]
    ensures x.above != [] && k < |x.row| ==> p + k < |out| && out[p + k] == x.above[k]
  {
    if i < |x.row| { assert inn[s + i..s + |x.scan|][0] == inn[s + i]; }
    if x.above != [] && k < |x.row| { assert out[p..p + |x.above|][k] == out[p + k]; }
  }

  lemma PartlyStep(out: seq<byte>, o: nat, inn: seq<byte>, s: nat, p: nat, x: RowJob, i: nat, inn': seq<byte>)
    requires Partly(out, o, inn, s, p, x, i) && i < |x.row| && |inn'| == |inn|
    requires forall j :: s + i < j < |inn| ==> inn'[j] == inn[j]
    ensures Partly(out[o + i := x.row[i]], o, inn', s, p, x, i + 1)
  {
    FillingStep(out, x.before, o, x.row, i);
    var out' := out[o + i := x.row[i]];
    if x.above != [] { assert out'[p..p + |x.above|] == out[p..p + |x.above|]; }
    assert inn'[s + i + 1..s + |x.scan|] == inn[s + i..s + |x.scan|][1..];
  }

  /** `recon[i] = scanline[i] + y` */
  method Add(out: array<byte>, o: nat, inn: array<byte>, s: nat, p: nat, i: nat, y: byte, ghost x: RowJob)
    requires Partly(out[..], o, inn[..], s, p, x, i) && i < |x.row| && (out == inn ==> o <= s)
    requires x.row[i] == Plus(x.scan[i], y)
    modifies out
    ensures Partly(out[..], o, inn[..], s, p, x, i + 1)
  {
    PartlyReads(out[..], o, inn[..], s, p, x, i, 0);
    ghost var out0, inn0 := out[..], inn[..];
    out[o + i] := Plus(inn[s + i], y);
    PartlyStep(out0, o, inn0, s, p, x, i, inn[..]);
    assert out[..] == out0[o + i := x.row[i]];
  }

  // ----- the bytes of an unfiltered row

  lemma {:induction false} UnfilteredByte(t: byte, scan: seq<byte>, above: seq<byte>, bytewidth: nat, n: nat, i: nat)
    requires bytewidth > 0 && i < n <= |scan|
    ensures var row := UnfilteredRow(t, scan, above, bytewidth, n);
            row[i] == Plus(scan[i], Prediction(t, row, above, bytewidth, i))
  {
    hide Prediction, Plus;
    var row := UnfilteredRow(t, scan, above, bytewidth, n);
    OnlyEarlierBytes(t, row, above, bytewidth, i);
    if i < n - 1 {
      UnfilteredByte(t, scan, above, bytewidth, n - 1, i);
      OnlyEarlierBytes(t, row[..n - 1], above, bytewidth, i);
      assert row[..n - 1][..i] == row[..i];
    }
  }

  /** The formulas of unfilterScanline for byte `i`. */
  ghost predicate Follows(t: byte, scan: seq<byte>, above: seq<byte>, bytewidth: nat, row: seq<byte>, i: nat)
    requires i < |row| == |scan| && (above == [] || |above| == |row|)
  {
    && (t == 0 ==> row[i] == Plus(scan[i], 0))
    && (t == 1 ==> row[i] == Plus(scan[i], if i < bytewidth then 0 else row[i - bytewidth]))
    && (t == 2 ==> row[i] == Plus(scan[i], if above == [] then 0 else above[i]))
    && (t == 3 && above == [] ==> row[i] == Plus(scan[i], if i < bytewidth then 0 else row[i - bytewidth] / 2))
    && (t == 3 && above != [] ==>
          row[i] == Plus(scan[i], if i < bytewidth then above[i] / 2 else Average(row[i - bytewidth], above[i])))
    && (t == 4 && above == [] ==> row[i] == Plus(scan[i], if i < bytewidth then 0 else row[i - bytewidth]))
    && (t == 4 && above != [] ==>
          row[i] == Plus(scan[i], if i < bytewidth then above[i]
              else Paeth(row[i - bytewidth], above[i], above[i - bytewidth])))
  }

  lemma UnfilterFormulas(t: byte, scan: seq<byte>, above: seq<byte>, bytewidth: nat, i: nat)
    requires 0 < bytewidth <= |scan| && i < |scan| && (above == [] || |above| == |scan|)
    ensures Follows(t, scan, above, bytewidth, UnfilteredRow(t, scan, above, bytewidth, |scan|), i)
  {
    hide Prediction, Paeth, Average, Plus, UnfilteredRow;
    UnfilteredByte(t, scan, above, bytewidth, |scan|, i);
    EdgePredictions(t, UnfilteredRow(t, scan, above, bytewidth, |scan|), above, bytewidth, i);
  }

  ghost predicate AllFollow(t: byte, x: RowJob, bytewidth: nat) {
    && |x.scan| == |x.row| && (x.above == [] || |x.above| == |x.row|)
    && forall i: nat {:trigger x.row[i]} :: i < |x.row| ==> Follows(t, x.scan, x.above, bytewidth, x.row, i)
  }

  // ----- the loops of unfilterScanline

  method CopyScan(out: array<byte>, o: nat, inn: array<byte>, s: nat, p: nat, t: byte, bytewidth: nat, to: nat,
                  ghost x: RowJob)
    requires Partly(out[..], o, inn[..], s, p, x, 0) && to <= |x.row| && (out == inn ==> o <= s)
    requires AllFollow(t, x, bytewidth)
             && (t == 0 || (t <= 4 && x.above == [] && (t == 2 || to <= bytewidth)) || (t == 1 && to <= bytewidth))
    modifies out
    ensures Partly(out[..], o, inn[..], s, p, x, to)
  {
    hide Partly, Plus;
    for i := 0 to to
      invariant Partly(out[..], o, inn[..], s, p, x, i)
    {
      Add(out, o, inn, s, p, i, 0, x);
    }
  }

  method AddLeft(out: array<byte>, o: nat, inn: array<byte>, s: nat, p: nat, t: byte, bytewidth: nat, length: nat,
                 ghost x: RowJob)
    requires Partly(out[..], o, inn[..], s, p, x, bytewidth) && (out == inn ==> o <= s)
    requires 0 < bytewidth <= length == |x.row|
    requires AllFollow(t, x, bytewidth) && (t == 1 || (t == 4 && x.above == []))
    modifies out
    ensures Partly(out[..], o, inn[..], s, p, x, length)
  {
    hide Partly, Plus;
    for i := bytewidth to length
      invariant Partly(out[..], o, inn[..], s, p, x, i)
    {
      PartlyReads(out[..], o, inn[..], s, p, x, i, i - bytewidth);
      Add(out, o, inn, s, p, i, out[o + i - bytewidth], x);
    }
  }

  method AddAbove(out: array<byte>, o: nat, inn: array<byte>, s: nat, p: nat, t: byte, bytewidth: nat, to: nat,
                  ghost x: RowJob)
    requires Partly(out[..], o, inn[..], s, p, x, 0) && (out == inn ==> o <= s)
    requires to <= |x.row| && x.above != []
    requires AllFollow(t, x, bytewidth) && (t == 2 || (t == 4 && to <= bytewidth))
    modifies out
    ensures Partly(out[..], o, inn[..], s, p, x, to)
  {
    hide Partly, Plus;
    for i := 0 to to
      invariant Partly(out[..], o, inn[..], s, p, x, i)
    {
      PartlyReads(out[..], o, inn[..], s, p, x, i, i);
      Add(out, o, inn, s, p, i, out[p + i], x);
    }
  }

  method AddAverage(out: array<byte>, o: nat, inn: array<byte>, s: nat, p: nat, t: byte, bytewidth: nat, length: nat,
                    ghost x: RowJob)
    requires Partly(out[..], o, inn[..], s, p, x, 0) && (out == inn ==> o <= s)
    requires 0 < bytewidth <= length == |x.row| == |x.above|
    requires AllFollow(t, x, bytewidth) && t == 3 && x.above != []
    modifies out
    ensures Partly(out[..], o, inn[..], s, p, x, length)
  {
    hide Partly, Plus, Average;
    for i := 0 to bytewidth
      invariant Partly(out[..], o, inn[..], s, p, x, i)
    {
      PartlyReads(out[..], o, inn[..], s, p, x, i, i);
      Add(out, o, inn, s, p, i, out[p + i] / 2, x);
    }
    for i := bytewidth to length
      invariant Partly(out[..], o, inn[..], s, p, x, i)
    {
      PartlyReads(out[..], o, inn[..], s, p, x, i, i);
      PartlyReads(out[..], o, inn[..], s, p, x, i, i - bytewidth);
      Add(out, o, inn, s, p, i, Average(out[o + i - bytewidth], out[p + i]), x);
    }
  }

  method AddHalfLeft(out: array<byte>, o: nat, inn: array<byte>, s: nat, p: nat, t: byte, bytewidth: nat, length: nat,
                     ghost x: RowJob)
    requires Partly(out[..], o, inn[..], s, p, x, bytewidth) && (out == inn ==> o <= s)
    requires 0 < bytewidth <= length == |x.row|
    requires AllFollow(t, x, bytewidth) && t == 3 && x.above == []
    modifies out
    ensures Partly(out[..], o, inn[..], s, p, x, length)
  {
    hide Partly, Plus;
    for i := bytewidth to length
      invariant Partly(out[..], o, inn[..], s, p, x, i)
    {
      PartlyReads(out[..], o, inn[..], s, p, x, i, i - bytewidth);
      Add(out, o, inn, s, p, i, out[o + i - bytewidth] / 2, x);
    }
  }

  method AddPaeth(out: array<byte>, o: nat, inn: array<byte>, s: nat, p: nat, t: byte, bytewidth: nat, length: nat,
                  ghost x: RowJob)
    requires Partly(out[..], o, inn[..], s, p, x, bytewidth) && (out == inn ==> o <= s)
    requires 0 < bytewidth <= length == |x.row| == |x.above|
    requires AllFollow(t, x, bytewidth) && t == 4 && x.above != []
    modifies out
    ensures Partly(out[..], o, inn[..], s, p, x, length)
  {
    hide Partly, Plus, Paeth;
    for i := bytewidth to length
      invariant Partly(out[..], o, inn[..], s, p, x, i)
    {
      PartlyReads(out[..], o, inn[..], s, p, x, i, i);
      PartlyReads(out[..], o, inn[..], s, p, x, i, i - bytewidth);
      Add(out, o, inn, s, p, i, Paeth(out[o + i - bytewidth], out[p + i], out[p + i - bytewidth]), x);
    }
  }

  /** unfilterScanline: `recon` is out[o..], `scanline` inn[s..] and `precon`
      out[p..], which is null when there is no row above. */
  method UnfilterScanline(out: array<byte>, o: nat, inn: array<byte>, s: nat, hasAbove: bool, p: nat,
                          bytewidth: nat, t: byte, length: nat, ghost x: RowJob)
    returns (error: nat)
    requires 0 < bytewidth <= length == |x.row| && hasAbove == (x.above != []) && (out == inn ==> o <= s)
    requires Partly(out[..], o, inn[..], s, p, x, 0)
    requires x.row == UnfilteredRow(t, x.scan, x.above, bytewidth, |x.scan|)
    modifies out
    ensures error == if t > 4 then 36 else 0
    ensures error == 0 ==> Partly(out[..], o, inn[..], s, p, x, length)
  {
    assert |x.scan| == |x.row| && (hasAbove ==> |x.above| == |x.row|);
    hide Partly, UnfilteredRow, Follows;
    forall i: nat | i < |x.row| ensures Follows(t, x.scan, x.above, bytewidth, x.row, i) {
      UnfilterFormulas(t, x.scan, x.above, bytewidth, i);
    }
    assert AllFollow(t, x, bytewidth);
    hide AllFollow;
    match t {
      case 0 => CopyScan(out, o, inn, s, p, t, bytewidth, length, x);
      case 1 =>
        CopyScan(out, o, inn, s, p, t, bytewidth, bytewidth, x);
        AddLeft(out, o, inn, s, p, t, bytewidth, length, x);
      case 2 =>
        if hasAbove { AddAbove(out, o, inn, s, p, t, bytewidth, length, x); }
            else { CopyScan(out, o, inn, s, p, t, bytewidth, length, x); }
      case 3 =>
        if hasAbove {
          AddAverage(out, o, inn, s, p, t, bytewidth, length, x);
        } else {
          CopyScan(out, o, inn, s, p, t, bytewidth, bytewidth, x);
          AddHalfLeft(out, o, inn, s, p, t, bytewidth, length, x);
        }
      case 4 =>
        if hasAbove {
          AddAbove(out, o, inn, s, p, t, bytewidth, bytewidth, x);
          AddPaeth(out, o, inn, s, p, t, bytewidth, length, x);
        } else {
          CopyScan(out, o, inn, s, p, t, bytewidth, bytewidth, x);
          AddLeft(out, o, inn, s, p, t, bytewidth, length, x);
        }
      case _ => return 36;
    }
    error := 0;
  }

  // ----- an image

  /** The rows unfiltered so far are in place and the filtered rows to come are untouched. */
  ghost predicate RowsDone(out: seq<byte>, before: seq<byte>, o: nat, rows: seq<byte>, inn: seq<byte>, p: nat,
                           f: seq<byte>, from: nat) {
    && o + |rows| <= |before| == |out| && out == before[..o] + rows + before[o + |rows|..]
    && from <= |f| && p + |f| <= |inn| && inn[p + from..p + |f|] == f[from..]
  }

  /** The next filtered row, at `s` in the input. */
  lemma NextScan(inn: seq<byte>, p: nat, f: seq<byte>, linebytes: nat, y: nat, s: nat)
    requires p + |f| <= |inn| && Start(y + 1, 1 + linebytes) <= |f| && s == p + Start(y, 1 + linebytes)
    requires inn[s..p + |f|] == f[Start(y, 1 + linebytes)..]
    ensures s + 1 + linebytes <= |inn|
    ensures inn[s] == Row(f, 1 + linebytes, y)[0] && inn[s + 1..s + 1 + linebytes] == Row(f, 1 + linebytes, y)[1..]
  {
    var from := Start(y, 1 + linebytes);
    var scan := inn[s..s + 1 + linebytes];
    forall k | 0 <= k <= linebytes ensures scan[k] == Row(f, 1 + linebytes, y)[k] {
      assert inn[s..p + |f|][k] == inn[s + k] && f[from..][k] == f[from + k];
    }
    assert scan == Row(f, 1 + linebytes, y);
    assert inn[s + 1..s + 1 + linebytes] == scan[1..];
  }

  lemma AboveInPlace(out: seq<byte>, before: seq<byte>, o: nat, rows: seq<byte>, linebytes: nat, y: nat)
    requires o + |rows| <= |before| == |out| && out == before[..o] + rows + before[o + |rows|..]
    requires |rows| == Start(y, linebytes) && y > 0
    ensures out[o + Start(y - 1, linebytes)..o + Start(y, linebytes)] == Above(rows, linebytes, y)
  {
    assert out[o..o + |rows|] == rows;
    assert Above(rows, linebytes, y) == rows[Start(y - 1, linebytes)..Start(y, linebytes)];
    Nested(out, o, o + |rows|, Start(y - 1, linebytes), Start(y, linebytes));
  }

  ghost function NextRows(out: seq<byte>, rows: seq<byte>, f: seq<byte>, linebytes: nat, bytewidth: nat, y: nat): RowJob
    requires Start(y, linebytes) <= |rows| && Start(y + 1, 1 + linebytes) <= |f|
  {
    var scan, above := Row(f, 1 + linebytes, y), Above(rows, linebytes, y);
    RowJob(out, above, scan[1..], UnfilteredRow(scan[0], scan[1..], above, bytewidth, linebytes))
  }

  lemma RowBegins(out: seq<byte>, before: seq<byte>, o: nat, rows: seq<byte>, inn: seq<byte>, p: nat, f: seq<byte>,
                  linebytes: nat, bytewidth: nat, y: nat, s: nat, p1: nat)
    requires RowsDone(out, before, o, rows, inn, p, f, Start(y, 1 + linebytes)) && |rows| == Start(y, linebytes)
    requires Start(y + 1, 1 + linebytes) <= |f| && o + Start(y + 1, linebytes) <= |out|
    requires s == p + Start(y, 1 + linebytes) && (y > 0 ==> p1 == o + Start(y - 1, linebytes))
    ensures s < |inn| && inn[s] == Row(f, 1 + linebytes, y)[0]
    ensures Partly(out, o + Start(y, linebytes), inn, s + 1, p1, NextRows(out, rows, f, linebytes, bytewidth, y), 0)
  {
    var x := NextRows(out, rows, f, linebytes, bytewidth, y);
    assert |x.row| == |x.scan| == linebytes;
    hide UnfilteredRow, Row;
    NextScan(inn, p, f, linebytes, y, s);
    if y > 0 { AboveInPlace(out, before, o, rows, linebytes, y); }
    NothingFilled(out, o + Start(y, linebytes), x.row);
    hide Filling;
  }

  lemma NothingFilled(out: seq<byte>, o: nat, row: seq<byte>)
    requires o + |row| <= |out|
    ensures Filling(out, out, o, row, 0)
  {
  }

  lemma FilledBehind(out: seq<byte>, before: seq<byte>, o: nat, rows: seq<byte>, out': seq<byte>, row: seq<byte>)
    requires o + |rows| <= |before| == |out| && out == before[..o] + rows + before[o + |rows|..]
    requires Filling(out', out, o + |rows|, row, |row|)
    ensures |out'| == |out| && o + |rows + row| <= |out|
    ensures out' == before[..o] + (rows + row) + before[o + |rows + row|..]
    ensures forall j :: o + |rows + row| <= j < |out| ==> out'[j] == out[j]
  {
    assert row[..|row|] == row;
  }

  lemma RowEnds(out: seq<byte>, before: seq<byte>, o: nat, rows: seq<byte>, inn: seq<byte>, p: nat, f: seq<byte>,
                from: nat, x: RowJob, out': seq<byte>, inn': seq<byte>, o1: nat, s: nat, p1: nat)
    requires RowsDone(out, before, o, rows, inn, p, f, from) && x.before == out && o1 == o + |rows|
    requires s == p + from + 1 && from + 1 + |x.row| <= |f|
    requires Partly(out', o1, inn', s, p1, x, |x.row|)
    requires inn' == inn || (inn' == out' && inn == out && o1 <= s)
    ensures RowsDone(out', before, o, rows + x.row, inn', p, f, from + 1 + |x.row|)
  {
    hide UnfilteredRow;
    assert x.row[..|x.row|] == x.row;
    var next := from + 1 + |x.row|;
    FilledBehind(out, before, o, rows, out', x.row);
    hide Filling, Partly;
    RestOfInput(inn, p, f, from, next, inn');
  }

  lemma RestOfInput(inn: seq<byte>, p: nat, f: seq<byte>, from: nat, next: nat, inn': seq<byte>)
    requires from <= next <= |f| && p + |f| <= |inn| == |inn'| && inn[p + from..p + |f|] == f[from..]
    requires forall j :: p + next <= j < |inn| ==> inn'[j] == inn[j]
    ensures inn'[p + next..p + |f|] == f[next..]
  {
    Nested(inn, p + from, p + |f|, next - from, |f| - from);
    Nested(f, from, |f|, next - from, |f| - from);
    assert inn'[p + next..p + |f|] == inn[p + next..p + |f|];
  }

  lemma {:induction false} ErrorStays(f: seq<byte>, linebytes: nat, bytewidth: nat, n: nat, h: nat)
    requires n <= h && Start(h, 1 + linebytes) <= |f|
    ensures Start(n, 1 + linebytes) <= |f|
    ensures UnfilteredImage(f, linebytes, bytewidth, n).Error? ==>
              UnfilteredImage(f, linebytes, bytewidth, h) == UnfilteredImage(f, linebytes, bytewidth, n)
  {
    hide UnfilteredRow;
    if n < h { ErrorStays(f, linebytes, bytewidth, n, h - 1); }
  }

  /** Either the rows have been unfiltered to `o` and nothing else has changed,
      or one of them has an unknown filter type. */
  ghost predicate UnfilterResult(error: nat, now: seq<byte>, before: seq<byte>, o: nat, f: seq<byte>,
                                 linebytes: nat, bytewidth: nat, h: nat)
    requires Start(h, 1 + linebytes) <= |f|
  {
    match UnfilteredImage(f, linebytes, bytewidth, h) {
      case Error(code) => error == code == 36
      case Ok(rows) => error == 0 && o + |rows| <= |before| && now == before[..o] + rows + before[o + |rows|..]
    }
  }

  /** unfilter: the rows at inn[p..] are unfiltered to out[o..].  Nothing else in
      `out` changes. */
  method Unfilter(out: array<byte>, o: nat, inn: array<byte>, p: nat, h: nat, linebytes: nat, bytewidth: nat)
    returns (error: nat)
    requires h > 0 ==> 0 < bytewidth <= linebytes
    requires out == inn ==> o <= p
    requires o + Start(h, linebytes) <= out.Length && p + Start(h, 1 + linebytes) <= inn.Length
    modifies out
    ensures UnfilterResult(error, out[..], old(out[..]), o, old(inn[p..p + Start(h, 1 + linebytes)]), linebytes,
                           bytewidth, h)
  {
    hide UnfilterResult, UnfilteredImage, RowsDone;
    ghost var f, before := inn[p..p + Start(h, 1 + linebytes)], out[..];
    NoFilteredRows(f, linebytes, bytewidth);
    NothingDone(out[..], o, inn[..], p, f, linebytes);
    error := UnfilterRows(out, o, inn, p, h, linebytes, bytewidth, before, f);
  }

  method UnfilterRows(out: array<byte>, o: nat, inn: array<byte>, p: nat, h: nat, linebytes: nat, bytewidth: nat,
                      ghost before: seq<byte>, ghost f: seq<byte>)
    returns (error: nat)
    requires (h > 0 ==> 0 < bytewidth <= linebytes) && (out == inn ==> o <= p)
    requires o + Start(h, linebytes) <= out.Length && Start(0, 1 + linebytes) <= Start(h, 1 + linebytes) <= |f|
    requires UnfilteredImage(f, linebytes, bytewidth, 0) == Ok([])
    requires RowsDone(out[..], before, o, [], inn[..], p, f, Start(0, 1 + linebytes))
    modifies out
    ensures UnfilterResult(error, out[..], before, o, f, linebytes, bytewidth, h)
  {
    hide UnfilterResult, UnfilteredImage, RowsDone, Partly, UnfilteredRow, Row, Above, Start;
    ghost var rows := [];
    for y := 0 to h
      invariant Start(y, 1 + linebytes) <= |f| && UnfilteredImage(f, linebytes, bytewidth, y) == Ok(rows)
      invariant RowsDone(out[..], before, o, rows, inn[..], p, f, Start(y, 1 + linebytes))
    {
      StartMonotone(y + 1, h, linebytes);
      StartMonotone(y + 1, h, 1 + linebytes);
      error, rows := UnfilterNextRow(out, o, inn, p, y, linebytes, bytewidth, before, f, rows);
      if error != 0 {
        UnfilterFails(error, out[..], before, o, f, linebytes, bytewidth, y + 1, h);
        return;
      }
    }
    error := 0;
    AllDone(out[..], before, o, rows, inn[..], p, f, linebytes, bytewidth, h);
  }

  lemma NoFilteredRows(f: seq<byte>, linebytes: nat, bytewidth: nat)
    ensures UnfilteredImage(f, linebytes, bytewidth, 0) == Ok([])
  {
  }

  lemma NothingDone(out: seq<byte>, o: nat, inn: seq<byte>, p: nat, f: seq<byte>, linebytes: nat)
    requires o <= |out| && p + |f| <= |inn| && f == inn[p..p + |f|]
    ensures RowsDone(out, out, o, [], inn, p, f, Start(0, 1 + linebytes))
  {
  }

  lemma AllDone(out: seq<byte>, before: seq<byte>, o: nat, rows: seq<byte>, inn: seq<byte>, p: nat, f: seq<byte>,
                linebytes: nat, bytewidth: nat, h: nat)
    requires Start(h, 1 + linebytes) <= |f| && UnfilteredImage(f, linebytes, bytewidth, h) == Ok(rows)
    requires RowsDone(out, before, o, rows, inn, p, f, Start(h, 1 + linebytes))
    ensures UnfilterResult(0, out, before, o, f, linebytes, bytewidth, h)
  {
  }

  lemma UnfilterFails(error: nat, out: seq<byte>, before: seq<byte>, o: nat, f: seq<byte>, linebytes: nat,
                      bytewidth: nat, n: nat, h: nat)
    requires n <= h && Start(n, 1 + linebytes) <= Start(h, 1 + linebytes) <= |f| && error == 36
    requires UnfilteredImage(f, linebytes, bytewidth, n) == Error(error)
    ensures UnfilterResult(error, out, before, o, f, linebytes, bytewidth, h)
  {
    hide UnfilteredImage;
    ErrorStays(f, linebytes, bytewidth, n, h);
  }

  method UnfilterNextRow(out: array<byte>, o: nat, inn: array<byte>, p: nat, y: nat, linebytes: nat, bytewidth: nat,
                         ghost before: seq<byte>, ghost f: seq<byte>, ghost rows: seq<byte>)
    returns (error: nat, ghost rows': seq<byte>)
    requires 0 < bytewidth <= linebytes && (out == inn ==> o <= p)
    requires Start(y + 1, 1 + linebytes) <= |f| && o + Start(y + 1, linebytes) <= out.Length
    requires UnfilteredImage(f, linebytes, bytewidth, y) == Ok(rows)
    requires RowsDone(out[..], before, o, rows, inn[..], p, f, Start(y, 1 + linebytes))
    modifies out
    ensures UnfilteredImage(f, linebytes, bytewidth, y + 1) == if error == 0 then Ok(rows') else Error(error)
    ensures error == 0 || error == 36
    ensures error == 0 ==> RowsDone(out[..], before, o, rows', inn[..], p, f, Start(y + 1, 1 + linebytes))
  {
    hide RowsDone, Partly, UnfilteredRow, Row, Above;
    ghost var out0, inn0 := out[..], inn[..];
    ghost var x := NextRows(out[..], rows, f, linebytes, bytewidth, y);
    var outindex := RowOffset(linebytes, y);
    var inindex := RowOffset(1 + linebytes, y);
    StartsAscend(y, linebytes);
    var previndex: nat := 0;
    if y > 0 { previndex := o + (outindex - linebytes); }
    RowBegins(out[..], before, o, rows, inn[..], p, f, linebytes, bytewidth, y, p + inindex, previndex);
    AboveIsThere(rows, linebytes, y);
    error := UnfilterScanline(out, o + outindex, inn, p + inindex + 1, y > 0, previndex, bytewidth, inn[p + inindex],
        linebytes, x);
    rows' := rows + x.row;
    if error == 0 {
      RowEnds(out0, before, o, rows, inn0, p, f, Start(y, 1 + linebytes), x, out[..], inn[..], o + outindex,
              p + inindex + 1, previndex);
    }
  }

  lemma StartsAscend(y: nat, linebytes: nat)
    ensures Start(y, linebytes) <= Start(y, 1 + linebytes)
  {
    StartIsProduct(y, linebytes);
    StartIsProduct(y, 1 + linebytes);
  }

  lemma AboveIsThere(rows: seq<byte>, linebytes: nat, y: nat)
    requires |rows| == Start(y, linebytes) && linebytes > 0
    ensures (y > 0) == (Above(rows, linebytes, y) != [])
  {
  }
}
