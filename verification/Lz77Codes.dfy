/** Length/distance codes of deflate (RFC 1951, section 3.2.5): what a flat list
    of codes stands for, and how a pair is turned into codes. */
module Lz77Codes {
  import opened Bits
  import opened Sequences
  import opened Wrappers

  const FIRST_LENGTH_CODE_INDEX: nat := 257
  const LAST_LENGTH_CODE_INDEX: nat := 285
  const MAX_SUPPORTED_DEFLATE_LENGTH: nat := 258

  /** The base lengths represented by codes 257-285. */
  const LENGTHBASE: seq<nat> :=
    [3, 4, 5, 6, 7, 8, 9, 10, 11, 13, 15, 17, 19, 23, 27, 31, 35, 43, 51, 59,
     67, 83, 99, 115, 131, 163, 195, 227, 258]

  /** The extra bits used by codes 257-285. */
  const LENGTHEXTRA: seq<nat> :=
    [0, 0, 0, 0, 0, 0, 0, 0, 1, 1, 1, 1, 2, 2, 2, 2, 3, 3, 3, 3, 4, 4, 4, 4, 5, 5, 5, 5, 0]

  /** The base backwards distances. */
  const DISTANCEBASE: seq<nat> :=
    [1, 2, 3, 4, 5, 7, 9, 13, 17, 25, 33, 49, 65, 97, 129, 193, 257, 385, 513,
     769, 1025, 1537, 2049, 3073, 4097, 6145, 8193, 12289, 16385, 24577]

  /** The extra bits of backwards distances. */
  const DISTANCEEXTRA: seq<nat> :=
    [0, 0, 0, 0, 1, 1, 2, 2, 3, 3, 4, 4, 5, 5, 6, 6, 7, 7, 8, 8, 9, 9, 10, 10, 11, 11, 12, 12, 13, 13]

  /** The rules behind the tables.  Each code covers as many lengths as its
      extra bits can tell apart, except that code 285 stands for 258 alone. */
  function LengthExtra(i: nat): nat {
    if i < 4 || i == 28 then 0 else (i - 4) / 4
  }

  function LengthBase(i: nat): nat {
    if i == 0 then 3
    else if i == 28 then 258
    else LengthBase(i - 1) + Pow2(LengthExtra(i - 1))
  }

  function DistanceExtra(i: nat): nat {
    if i < 2 then 0 else (i - 2) / 2
  }

  function DistanceBase(i: nat): (d: nat)
    ensures d > 0
  {
    if i == 0 then 1 else DistanceBase(i - 1) + Pow2(DistanceExtra(i - 1))
  }

  lemma Pow2Table()
    ensures Pow2(0) == 1 && Pow2(1) == 2 && Pow2(2) == 4 && Pow2(3) == 8 && Pow2(4) == 16 && Pow2(5) == 32
    ensures Pow2(6) == 64 && Pow2(7) == 128 && Pow2(8) == 256 && Pow2(9) == 512 && Pow2(10) == 1024
    ensures Pow2(11) == 2048 && Pow2(12) == 4096 && Pow2(13) == 8192
  {
    assert Pow2(3) == 8;
    assert Pow2(6) == 64;
    assert Pow2(9) == 512;
    assert Pow2(12) == 4096;
  }

  lemma LengthExtraTable(i: nat)
    requires i < 29
    ensures |LENGTHEXTRA| == 29 && LENGTHEXTRA[i] == LengthExtra(i)
  {
  }

  lemma LengthBaseStep(i: nat)
    requires i < 27
    ensures |LENGTHBASE| == 29 && LENGTHBASE[i + 1] == LENGTHBASE[i] + Pow2(LengthExtra(i))
  {
    Pow2Table();
  }

  lemma {:induction false} LengthTable(i: nat)
    requires i < 29
    ensures |LENGTHBASE| == |LENGTHEXTRA| == 29
    ensures LENGTHBASE[i] == LengthBase(i) && LENGTHEXTRA[i] == LengthExtra(i)
  {
    LengthExtraTable(i);
    if 0 < i < 28 {
      LengthTable(i - 1);
      LengthBaseStep(i - 1);
    }
  }

  lemma DistanceExtraTable(i: nat)
    requires i < 30
    ensures |DISTANCEEXTRA| == 30 && DISTANCEEXTRA[i] == DistanceExtra(i)
  {
  }

  lemma DistanceBaseStep(i: nat)
    requires i < 29
    ensures |DISTANCEBASE| == 30 && DISTANCEBASE[i + 1] == DISTANCEBASE[i] + Pow2(DistanceExtra(i))
  {
    Pow2Table();
    hide Pow2;
    if i < 14 { assert DISTANCEBASE[i + 1] == DISTANCEBASE[i] + Pow2(DistanceExtra(i)); }
  }

  lemma {:induction false} DistanceTable(i: nat)
    requires i < 30
    ensures |DISTANCEBASE| == |DISTANCEEXTRA| == 30
    ensures DISTANCEBASE[i] == DistanceBase(i) && DISTANCEEXTRA[i] == DistanceExtra(i)
  {
    DistanceExtraTable(i);
    if i > 0 {
      DistanceTable(i - 1);
      DistanceBaseStep(i - 1);
    }
  }

  method LookUpLength(i: nat) returns (base: nat, extra: nat)
    requires i < 29
    ensures base == LengthBase(i) && extra == LengthExtra(i)
  {
    LengthTable(i);
    base, extra := LENGTHBASE[i], LENGTHEXTRA[i];
  }

  method LookUpDistance(i: nat) returns (base: nat, extra: nat)
    requires i < 30
    ensures base == DistanceBase(i) && extra == DistanceExtra(i)
  {
    DistanceTable(i);
    base, extra := DISTANCEBASE[i], DISTANCEEXTRA[i];
  }

  ghost predicate Ascending(a: seq<nat>) {
    forall i, j :: 0 <= i < j < |a| ==> a[i] < a[j]
  }

  ghost predicate NextAbove(a: seq<nat>) {
    forall i :: 0 <= i < |a| - 1 ==> a[i] < a[i + 1]
  }

  lemma {:induction false} NextAboveAscends(a: seq<nat>, i: nat, j: nat)
    requires NextAbove(a) && i < j < |a|
    ensures a[i] < a[j]
    decreases j
  {
    if i + 1 < j { NextAboveAscends(a, i, j - 1); }
  }

  lemma TablesAscend()
    ensures Ascending(LENGTHBASE) && Ascending(DISTANCEBASE)
  {
    assert NextAbove(LENGTHBASE);
    assert NextAbove(DISTANCEBASE);
    forall i, j | 0 <= i < j < |LENGTHBASE|
        ensures LENGTHBASE[i] < LENGTHBASE[j] { NextAboveAscends(LENGTHBASE, i, j); }
    forall i, j | 0 <= i < j < |DISTANCEBASE|
        ensures DISTANCEBASE[i] < DISTANCEBASE[j] { NextAboveAscends(DISTANCEBASE, i, j); }
  }

  /** searchCodeIndex: the index of the largest entry that is at most `value`. */
  method SearchCodeIndex(array_: seq<nat>, value: nat) returns (index: nat)
    requires array_ != [] && Ascending(array_) && array_[0] <= value
    ensures index < |array_| && array_[index] <= value
    ensures index + 1 < |array_| ==> value < array_[index + 1]
  {
    var left, right := 1, |array_| - 1;
    while left <= right
      invariant 1 <= left <= |array_| && 0 <= right < |array_|
      invariant array_[left - 1] <= value
      invariant right + 1 < |array_| ==> value < array_[right]
      decreases right - left
    {
      var mid := (left + right) / 2;
      if array_[mid] <= value {
        left := mid + 1;
      } else if array_[mid - 1] > value {
        right := mid - 1;
      } else {
        return mid - 1;
      }
    }
    return |array_| - 1;
  }

  // ----- the meaning of codes

  /** The place of a length code in the tables. */
  function LengthIndex(code: nat): nat {
    if code < FIRST_LENGTH_CODE_INDEX then 0 else code - FIRST_LENGTH_CODE_INDEX
  }

  /** The first four codes are a length/distance pair. */
  predicate StartsWithPair(v: seq<nat>) {
    && |v| >= 4
    && FIRST_LENGTH_CODE_INDEX <= v[0] <= LAST_LENGTH_CODE_INDEX
    && v[1] < Pow2(LengthExtra(LengthIndex(v[0])))
    && v[2] < 30
    && v[3] < Pow2(DistanceExtra(v[2]))
  }

  function PairLength(v: seq<nat>): nat
    requires |v| >= 4
  {
    LengthBase(LengthIndex(v[0])) + v[1]
  }

  function PairDistance(v: seq<nat>): nat
    requires |v| >= 4
  {
    DistanceBase(v[2]) + v[3]
  }

  /** `length` bytes copied one by one from `distance` back: the source may
      overlap what is being written. */
  function Copy(out: seq<byte>, distance: nat, length: nat): (r: seq<byte>)
    requires 0 < distance <= |out|
    ensures |r| == |out| + length
    decreases length
  {
    if length == 0 then out
    else Copy(out + [out[|out| - distance]], distance, length - 1)
  }

  /** A copy that does not reach its own target is a copy of a slice. */
  lemma {:induction false} CopyWithoutOverlap(out: seq<byte>, distance: nat, length: nat)
    requires 0 < distance <= |out| && length <= distance
    ensures Copy(out, distance, length) == out + out[|out| - distance..|out| - distance + length]
    decreases length
  {
    if length > 0 {
      var from := |out| - distance;
      var next := out + [out[from]];
      CopyWithoutOverlap(next, distance, length - 1);
      Nested(next, 0, |out|, from + 1, from + length);
      assert next[0..|out|] == out;
      assert [out[from]] + out[from + 1..from + length] == out[from..from + length];
    }
  }

  /** The data that the codes `v` produce after `out`. */
  function ExpandCodes(v: seq<nat>, out: seq<byte>): (r: Result<seq<byte>>)
    decreases |v|
  {
    if v == [] then Ok(out)
    else if v[0] <= 255 then ExpandCodes(v[1..], out + [v[0]])
    else if StartsWithPair(v) && PairDistance(v) <= |out| then
      ExpandCodes(v[4..], Copy(out, PairDistance(v), PairLength(v)))
    else Error(52)
  }

  /** All lengths are 3..258 and all distances lie inside the window. */
  ghost predicate WithinWindow(v: seq<nat>, windowsize: nat)
    decreases |v|
  {
    if v == [] then true
    else if v[0] <= 255 then WithinWindow(v[1..], windowsize)
    else
      && StartsWithPair(v) && 3 <= PairLength(v) <= MAX_SUPPORTED_DEFLATE_LENGTH && PairDistance(v) < windowsize
      && WithinWindow(v[4..], windowsize)
  }

  lemma PairPrefix(a: seq<nat>, b: seq<nat>)
    requires StartsWithPair(a)
    ensures StartsWithPair(a + b) && (a + b)[4..] == a[4..] + b
    ensures PairLength(a + b) == PairLength(a) && PairDistance(a + b) == PairDistance(a)
  {
  }

  lemma {:induction false} ExpandConcat(a: seq<nat>, b: seq<nat>, out: seq<byte>)
    requires ExpandCodes(a, out).Ok?
    ensures ExpandCodes(a + b, out) == ExpandCodes(b, ExpandCodes(a, out).value)
    decreases |a|
  {
    if a == [] {
      assert a + b == b;
    } else if a[0] <= 255 {
      assert (a + b)[1..] == a[1..] + b;
      ExpandConcat(a[1..], b, out + [a[0]]);
    } else {
      PairPrefix(a, b);
      ExpandConcat(a[4..], b, Copy(out, PairDistance(a), PairLength(a)));
    }
  }

  lemma {:induction false} WithinConcat(a: seq<nat>, b: seq<nat>, windowsize: nat)
    requires WithinWindow(a, windowsize) && WithinWindow(b, windowsize)
    ensures WithinWindow(a + b, windowsize)
    decreases |a|
  {
    if a == [] {
      assert a + b == b;
    } else if a[0] <= 255 {
      assert (a + b)[1..] == a[1..] + b;
      WithinConcat(a[1..], b, windowsize);
    } else {
      PairPrefix(a, b);
      WithinConcat(a[4..], b, windowsize);
    }
  }

  /** The data from `pos` on repeats what lies `distance` back, for `length` bytes. */
  ghost predicate Repeats(data: seq<byte>, pos: nat, distance: nat, length: nat) {
    && 0 < distance <= pos && pos + length <= |data|
    && forall j :: pos <= j < pos + length ==> data[j] == data[j - distance]
  }

  /** Copying reproduces data that repeats. */
  lemma {:induction false} CopyRepeats(data: seq<byte>, pos: nat, distance: nat, length: nat)
    requires Repeats(data, pos, distance, length)
    ensures Copy(data[..pos], distance, length) == data[..pos + length]
    decreases length
  {
    if length > 0 {
      assert data[..pos] + [data[..pos][pos - distance]] == data[..pos + 1];
      CopyRepeats(data, pos + 1, distance, length - 1);
    }
  }

  /** The code that was found has enough extra bits for the rest. */
  lemma LengthCodeFits(i: nat, length: nat)
    requires i < |LENGTHBASE| && LENGTHBASE[i] <= length <= MAX_SUPPORTED_DEFLATE_LENGTH
    requires i + 1 < |LENGTHBASE| ==> length < LENGTHBASE[i + 1]
    ensures |LENGTHBASE| == 29 && LENGTHBASE[i] == LengthBase(i) && length - LENGTHBASE[i] < Pow2(LengthExtra(i))
  {
    LengthTable(i);
    Pow2Table();
    hide Pow2, LengthBase;
    if i < 27 { LengthBaseStep(i); }
  }

  lemma DistanceCodeFits(i: nat, distance: nat)
    requires i < |DISTANCEBASE| && DISTANCEBASE[i] <= distance <= 32768
    requires i + 1 < |DISTANCEBASE| ==> distance < DISTANCEBASE[i + 1]
    ensures |DISTANCEBASE| == 30 && DISTANCEBASE[i] == DistanceBase(i)
            && distance - DISTANCEBASE[i] < Pow2(DistanceExtra(i))
  {
    DistanceTable(i);
    Pow2Table();
    hide Pow2, DistanceBase;
    if i < 29 { DistanceBaseStep(i); }
  }

  /** Of several codes for the same length the last one is used, so that 258 is
      code 285 as the standard demands. */
  ghost predicate UsesLastCode(v: seq<nat>)
    requires |v| >= 4
  {
    v[0] == LAST_LENGTH_CODE_INDEX || PairLength(v) < LengthBase(LengthIndex(v[0]) + 1)
  }

  /** addLengthDistance: the four codes of a pair. */
  method LengthDistance(length: nat, distance: nat) returns (v: seq<nat>)
    requires 3 <= length <= MAX_SUPPORTED_DEFLATE_LENGTH && 1 <= distance <= 32768
    ensures |v| == 4 && StartsWithPair(v) && PairLength(v) == length && PairDistance(v) == distance
    ensures UsesLastCode(v)
  {
    hide Copy, Pow2, LengthBase, LengthExtra, DistanceBase, DistanceExtra, Ascending;
    TablesAscend();
    var lengthCode := SearchCodeIndex(LENGTHBASE, length);
    var distCode := SearchCodeIndex(DISTANCEBASE, distance);
    LengthCodeFits(lengthCode, length);
    if lengthCode < 28 { LengthTable(lengthCode + 1); }
    DistanceCodeFits(distCode, distance);
    v := [lengthCode + FIRST_LENGTH_CODE_INDEX, length - LENGTHBASE[lengthCode],
          distCode, distance - DISTANCEBASE[distCode]];
  }

  lemma LiteralCode(b: byte, out: seq<byte>, windowsize: nat)
    ensures ExpandCodes([b], out) == Ok(out + [b]) && WithinWindow([b], windowsize)
  {
    assert [b][1..] == [];
  }

  lemma ExpandPair(pair: seq<nat>, out: seq<byte>)
    requires |pair| == 4 && StartsWithPair(pair) && PairDistance(pair) <= |out|
    ensures ExpandCodes(pair, out) == Ok(Copy(out, PairDistance(pair), PairLength(pair)))
  {
    assert pair[4..] == [];
  }

  /** Appending a literal or a pair to codes that reproduce the data so far. */
  lemma AppendLiteral(v: seq<nat>, out0: seq<byte>, data: seq<byte>, pos: nat, windowsize: nat)
    requires pos < |data| && ExpandCodes(v, out0) == Ok(data[..pos]) && WithinWindow(v, windowsize)
    ensures ExpandCodes(v + [data[pos]], out0) == Ok(data[..pos + 1]) && WithinWindow(v + [data[pos]], windowsize)
  {
    var b := data[pos];
    LiteralCode(b, data[..pos], windowsize);
    ExpandConcat(v, [b], out0);
    WithinConcat(v, [b], windowsize);
    assert data[..pos] + [data[pos]] == data[..pos + 1];
  }

  lemma AppendPair(v: seq<nat>, out0: seq<byte>, data: seq<byte>, pos: nat, windowsize: nat, pair: seq<nat>)
    requires |pair| == 4 && StartsWithPair(pair) && 3 <= PairLength(pair) <= MAX_SUPPORTED_DEFLATE_LENGTH
    requires PairDistance(pair) < windowsize
    requires Repeats(data, pos, PairDistance(pair), PairLength(pair))
    requires ExpandCodes(v, out0) == Ok(data[..pos]) && WithinWindow(v, windowsize)
    ensures ExpandCodes(v + pair, out0) == Ok(data[..pos + PairLength(pair)]) && WithinWindow(v + pair, windowsize)
  {
    ExpandConcat(v, pair, out0);
    WithinConcat(v, pair, windowsize);
    ExpandPair(pair, data[..pos]);
    CopyRepeats(data, pos, PairDistance(pair), PairLength(pair));
  }
}
