/** Run-length coding of code lengths (RFC 1951, section 3.2.7). */
module RunLengths {
  import opened Bits
  import opened HuffmanTree
  import opened Wrappers

  function Repeat(v: nat, n: nat): (r: seq<nat>)
    ensures |r| == n && forall i :: 0 <= i < n ==> r[i] == v
  {
    seq(n, _ => v)
  }

  /** Extra bits that follow code length symbol `code`. */
  function ExtraBits(code: nat): nat {
    if code == 16 then 2 else if code == 17 then 3 else if code == 18 then 7 else 0
  }

  /** What code length symbol `code` with extra value `extra` adds after `acc`. */
  function RunOf(code: nat, extra: nat, acc: seq<nat>): seq<nat>
    requires 16 <= code <= 18 && (code == 16 ==> acc != [])
  {
    if code == 16 then Repeat(acc[|acc| - 1], extra + 3)
    else if code == 17 then Repeat(0, extra + 3)
    else Repeat(0, extra + 11)
  }

  /** 16 repeats the last length 3 to 6 times, 17 stands for 3 to 10 zeros and 18 for
      11 to 138, each of these numbers with an extra value of its own. */
  lemma RepeatCodes(n: nat, acc: seq<nat>)
    ensures Pow2(ExtraBits(16)) == 4 && Pow2(ExtraBits(17)) == 8 && Pow2(ExtraBits(18)) == 128
    ensures 3 <= n <= 6 && acc != [] ==> RunOf(16, n - 3, acc) == Repeat(acc[|acc| - 1], n)
    ensures 3 <= n <= 10 ==> RunOf(17, n - 3, acc) == Repeat(0, n)
    ensures 11 <= n <= 138 ==> RunOf(18, n - 11, acc) == Repeat(0, n)
  {
    assert Pow2(2) == 4 && Pow2(3) == 8 && Pow2(7) == 128;
  }

  /** The lengths that the flat run-length code `e` stands for, after `acc`: the
      meaning the standard gives to the symbols. */
  function Expand(e: seq<nat>, acc: seq<nat>): (r: Result<seq<nat>>)
    decreases |e|
  {
    if e == [] then Ok(acc)
    else if e[0] <= 15 then Expand(e[1..], acc + [e[0]])
    else if e[0] <= 18 && |e| >= 2 && e[1] < Pow2(ExtraBits(e[0])) && (e[0] == 16 ==> acc != []) then
      Expand(e[2..], acc + RunOf(e[0], e[1], acc))
    else Error(16)
  }

  lemma {:induction false} ExpandConcat(a: seq<nat>, b: seq<nat>, acc: seq<nat>)
    requires Expand(a, acc).Ok?
    ensures Expand(a + b, acc) == Expand(b, Expand(a, acc).value)
    decreases |a|
  {
    if a == [] {
      assert a + b == b;
    } else if a[0] <= 15 {
      assert (a + b)[1..] == a[1..] + b;
      ExpandConcat(a[1..], b, acc + [a[0]]);
    } else {
      assert (a + b)[2..] == a[2..] + b;
      ExpandConcat(a[2..], b, acc + RunOf(a[0], a[1], acc));
    }
  }

  /** Appending one symbol, with its extra value when it has one. */
  lemma ExpandSnoc(e: seq<nat>, code: nat, extra: nat)
    requires Expand(e, []).Ok?
    ensures code <= 15 ==> Expand(e + [code], []) == Ok(Expand(e, []).value + [code])
    ensures 16 <= code <= 18 && extra < Pow2(ExtraBits(code)) && (code == 16 ==> Expand(e, []).value != []) ==>
              Expand(e + [code, extra], []) == Ok(Expand(e, []).value + RunOf(code, extra, Expand(e, []).value))
  {
    if code <= 15 {
      ExpandConcat(e, [code], []);
    } else {
      ExpandConcat(e, [code, extra], []);
    }
  }

  // ----- how few codes there are

  /** The literal length at the end of a code, and how often it stands there. */
  datatype Tail = Tail(value: nat, n: nat)

  const NO_TAIL: Tail := Tail(16, 0)

  function TailOf(e: seq<nat>, t: Tail): Tail
    decreases |e|
  {
    if e == [] then t
    else if e[0] <= 15 then TailOf(e[1..], Tail(e[0], if e[0] == t.value then t.n + 1 else 1))
    else TailOf(if |e| >= 2 then e[2..] else [], Tail(t.value, 0))
  }

  function Limit(v: nat): nat {
    if v == 0 then 2 else 3
  }

  /** No length is written out more often than it has to be: two zeros or three
      equal lengths in a row at most, because for more there are repeat codes. */
  predicate Compact(e: seq<nat>, t: Tail)
    decreases |e|
  {
    if e == [] then true
    else if e[0] <= 15 then
      var n := if e[0] == t.value then t.n + 1 else 1;
      n <= Limit(e[0]) && Compact(e[1..], Tail(e[0], n))
    else Compact(if |e| >= 2 then e[2..] else [], Tail(t.value, 0))
  }

  lemma {:induction false} TailConcat(a: seq<nat>, b: seq<nat>, acc: seq<nat>, t: Tail)
    requires Expand(a, acc).Ok?
    ensures TailOf(a + b, t) == TailOf(b, TailOf(a, t))
    ensures Compact(a + b, t) <==> Compact(a, t) && Compact(b, TailOf(a, t))
    decreases |a|
  {
    if a == [] {
      assert a + b == b;
    } else if a[0] <= 15 {
      assert (a + b)[1..] == a[1..] + b;
      TailConcat(a[1..], b, acc + [a[0]], Tail(a[0], if a[0] == t.value then t.n + 1 else 1));
    } else {
      assert (a + b)[2..] == a[2..] + b;
      TailConcat(a[2..], b, acc + RunOf(a[0], a[1], acc), Tail(t.value, 0));
    }
  }

  /** After a repeat code nothing has been written out. */
  lemma RepeatIsCompact(e: seq<nat>, code: nat, extra: nat)
    requires Expand(e, []).Ok? && Compact(e, NO_TAIL) && code >= 16
    ensures Compact(e + [code, extra], NO_TAIL) && TailOf(e + [code, extra], NO_TAIL).n == 0
  {
    TailConcat(e, [code, extra], [], NO_TAIL);
    assert [code, extra][2..] == [];
  }

  lemma LiteralIsCompact(e: seq<nat>, v: nat)
    requires Expand(e, []).Ok? && Compact(e, NO_TAIL) && v <= 15
    requires var t := TailOf(e, NO_TAIL); (if t.value == v then t.n + 1 else 1) <= Limit(v)
    ensures var t := TailOf(e, NO_TAIL);
            Compact(e + [v], NO_TAIL)
            && TailOf(e + [v], NO_TAIL) == Tail(v, if t.value == v then t.n + 1 else 1)
  {
    TailConcat(e, [v], [], NO_TAIL);
    assert [v][1..] == [];
  }

  /** The repeats of a length other than zero: as many 16-codes for six as fit,
      and one for the rest when it is at least three. */
  method EncodeRepeats(e0: seq<nat>, v: nat, j: nat) returns (e: seq<nat>, used: nat)
    requires Expand(e0, []).Ok? && Expand(e0, []).value != [] && Compact(e0, NO_TAIL)
    requires Expand(e0, []).value[|Expand(e0, []).value| - 1] == v && j >= 3
    ensures used <= j < used + 3 && Expand(e, []) == Ok(Expand(e0, []).value + Repeat(v, used))
    ensures Compact(e, NO_TAIL) && TailOf(e, NO_TAIL).n == 0
  {
    hide Compact, TailOf;
    e := e0;
    var num, rest := j / 6, j % 6;
    assert Pow2(2) == 4;
    ghost var start := Expand(e0, []).value;
    assert start == start + Repeat(v, 0);
    for k := 0 to num
      invariant Expand(e, []) == Ok(start + Repeat(v, 6 * k))
      invariant Compact(e, NO_TAIL) && (k > 0 ==> TailOf(e, NO_TAIL).n == 0)
    {
      ExpandSnoc(e, 16, 6 - 3);
      RepeatIsCompact(e, 16, 6 - 3);
      assert start + Repeat(v, 6 * k) + Repeat(v, 6) == start + Repeat(v, 6 * (k + 1));
      e := e + [16, 6 - 3];
    }
    if rest >= 3 {
      ExpandSnoc(e, 16, rest - 3);
      RepeatIsCompact(e, 16, rest - 3);
      assert start + Repeat(v, 6 * num) + Repeat(v, rest) == start + Repeat(v, j);
      e := e + [16, rest - 3];
      used := j;
    } else {
      used := j - rest;
    }
  }

  /** Repeat codes for `j` zeros; at most 138 are taken at once. */
  method EncodeZeros(e0: seq<nat>, j: nat) returns (e: seq<nat>, used: nat)
    requires Expand(e0, []).Ok? && Compact(e0, NO_TAIL) && j >= 3
    ensures used == (if j > 138 then 138 else j) && Expand(e, []) == Ok(Expand(e0, []).value + Repeat(0, used))
    ensures |e| == |e0| + 2 && Compact(e, NO_TAIL) && TailOf(e, NO_TAIL).n == 0
  {
    hide Compact, TailOf;
    assert Pow2(3) == 8 && Pow2(7) == 128;
    used := j;
    if j <= 10 {
      ExpandSnoc(e0, 17, j - 3);
      RepeatIsCompact(e0, 17, j - 3);
      e := e0 + [17, j - 3];
    } else {
      if used > 138 { used := 138; }
      ExpandSnoc(e0, 18, used - 11);
      RepeatIsCompact(e0, 18, used - 11);
      e := e0 + [18, used - 11];
    }
  }

  /** How many equal lengths there are from `i` on. */
  function RunFrom(lld: seq<nat>, i: nat): (n: nat)
    requires i < |lld|
    ensures n > 0
    decreases |lld| - i
  {
    if i + 1 < |lld| && lld[i + 1] == lld[i] then 1 + RunFrom(lld, i + 1) else 1
  }

  method CountRepetitions(lld: seq<nat>, i: nat) returns (j: nat)
    requires i < |lld|
    ensures i + j < |lld| && forall k :: i <= k <= i + j ==> lld[k] == lld[i]
    ensures j + 1 == RunFrom(lld, i)
  {
    j := 0;
    while i + j + 1 < |lld| && lld[i + j + 1] == lld[i]
      invariant i + j < |lld| && forall k :: i <= k <= i + j ==> lld[k] == lld[i]
      invariant j + RunFrom(lld, i + j) == RunFrom(lld, i)
    {
      j := j + 1;
    }
  }

  /** What has been written out goes on with the lengths from `i` on. */
  ghost predicate RoomLeft(e: seq<nat>, lld: seq<nat>, i: nat) {
    var t := TailOf(e, NO_TAIL);
    i < |lld| && t.n > 0 && t.value == lld[i] ==> t.n + RunFrom(lld, i) <= Limit(lld[i])
  }

  /** One length is written out, and few of its kind follow or repeat codes do. */
  lemma WrittenOut(e: seq<nat>, lld: seq<nat>, i: nat)
    requires i < |lld| && lld[i] <= 15 && Expand(e, []).Ok? && Compact(e, NO_TAIL) && RoomLeft(e, lld, i)
    ensures Compact(e + [lld[i]], NO_TAIL)
    ensures RunFrom(lld, i) <= Limit(lld[i]) ==> RoomLeft(e + [lld[i]], lld, i + 1)
  {
    hide Compact, TailOf;
    LiteralIsCompact(e, lld[i]);
  }

  /** The loop of deflateDynamic that compresses bitlen_lld into bitlen_lld_e. */
  method RunLengthEncode(lld: seq<nat>) returns (e: seq<nat>)
    requires forall i :: 0 <= i < |lld| ==> lld[i] <= 15
    ensures Expand(e, []) == Ok(lld) && Compact(e, NO_TAIL)
  {
    e := [];
    var i := 0;
    assert Compact([], NO_TAIL) && RoomLeft([], lld, 0);
    hide Compact, TailOf, RunFrom, RoomLeft;
    while i < |lld|
      invariant i <= |lld| && Expand(e, []) == Ok(lld[..i]) && Compact(e, NO_TAIL) && RoomLeft(e, lld, i)
    {
      var j := CountRepetitions(lld, i);
      if lld[i] == 0 && j >= 2 {
        e, j := EncodeZeros(e, j + 1); // include the first zero
        assert lld[..i + j] == lld[..i] + Repeat(0, j);
        i := i + j;
        NothingWrittenOut(e, lld, i);
      } else {
        ExpandSnoc(e, lld[i], 0);
        WrittenOut(e, lld, i);
        assert lld[..i + 1] == lld[..i] + [lld[i]];
        e := e + [lld[i]];
        if j >= 3 {
          e, j := EncodeRepeats(e, lld[i], j);
          assert lld[..i + 1 + j] == lld[..i + 1] + Repeat(lld[i], j);
          i := i + j;
          NothingWrittenOut(e, lld, i + 1);
        }
        i := i + 1;
      }
    }
    assert lld[..|lld|] == lld;
  }

  lemma NothingWrittenOut(e: seq<nat>, lld: seq<nat>, i: nat)
    requires TailOf(e, NO_TAIL).n == 0
    ensures RoomLeft(e, lld, i)
  {
  }

  // ----- the bits

  /** Every symbol of the flat code has a code word. */
  ghost predicate RunsCovered(e: seq<nat>, cl: seq<seq<bit>>)
    decreases |e|
  {
    e != [] ==>
      && e[0] < |cl| && cl[e[0]] != []
      && if e[0] < 16 then RunsCovered(e[1..], cl) else |e| >= 2 && RunsCovered(e[2..], cl)
  }

  /** The flat code as written with the code words `cl`. */
  ghost function RunBits(e: seq<nat>, cl: seq<seq<bit>>): (w: seq<bit>)
    requires RunsCovered(e, cl)
    decreases |e|
  {
    if e == [] then []
    else if e[0] < 16 then cl[e[0]] + RunBits(e[1..], cl)
    else cl[e[0]] + ToBits(e[1], ExtraBits(e[0])) + RunBits(e[2..], cl)
  }

  /** One pass through the loop of getTreeInflateDynamic that reads the code
      lengths: the lengths with what one symbol adds, and the bit pointer. */
  function ReadLength(tree: seq<nat>, s: seq<byte>, bp: nat, total: nat, acc: seq<nat>): (r: Result<(seq<nat>, nat)>)
    requires |tree| >= 2 && |acc| < total
    ensures r.Ok? ==> |r.value.0| <= total && bp < r.value.1 <= 8 * |s|
  {
    var (code, bp1) := DecodeSymbol(tree, s, bp);
    if code <= 15 then Ok((acc + [code], bp1))
    else if code <= 18 then
      if code == 16 && acc == [] then Error(54)
      else if bp1 + ExtraBits(code) > 8 * |s| then Error(50)
      else
        var acc' := acc + RunOf(code, ReadBits(s, bp1, ExtraBits(code)), acc);
        if |acc'| > total then Error(code - 3)
        else Ok((acc', bp1 + ExtraBits(code)))
    else if code == NO_SYMBOL then Error(if bp1 > 8 * |s| then 10 else 11)
    else Error(16)
  }

  /** That loop, until there are `total` lengths. */
  function ReadLengths(tree: seq<nat>, s: seq<byte>, bp: nat, total: nat, acc: seq<nat>): (r: Result<(seq<nat>, nat)>)
    requires |tree| >= 2 && |acc| <= total
    ensures r.Ok? ==> |r.value.0| == total && bp <= r.value.1
    decreases 8 * |s| - bp
  {
    if |acc| == total then Ok((acc, bp))
    else
      var (acc', bp') :- ReadLength(tree, s, bp, total, acc);
      ReadLengths(tree, s, bp', total, acc')
  }

  lemma {:induction false} ExpandGrows(e: seq<nat>, acc: seq<nat>)
    requires Expand(e, acc).Ok?
    ensures acc <= Expand(e, acc).value
    ensures e != [] ==> |acc| < |Expand(e, acc).value|
    decreases |e|
  {
    if e != [] {
      if e[0] <= 15 { ExpandGrows(e[1..], acc + [e[0]]); }
      else { ExpandGrows(e[2..], acc + RunOf(e[0], e[1], acc)); }
    }
  }

  lemma LengthIsRead(tree: seq<nat>, s: seq<byte>, bp: nat, total: nat, acc: seq<nat>, code: nat, bp1: nat)
    requires |tree| >= 2 && |acc| < total && DecodeSymbol(tree, s, bp) == (code, bp1) && code < 16
    ensures ReadLength(tree, s, bp, total, acc) == Ok((acc + [code], bp1))
  {
  }

  lemma LengthAt(e: seq<nat>, cl: seq<seq<bit>>, s: seq<byte>, bp: nat)
    requires e != [] && e[0] < 16 && RunsCovered(e, cl) && At(s, bp, RunBits(e, cl))
    ensures At(s, bp, cl[e[0]]) && At(s, bp + |cl[e[0]]|, RunBits(e[1..], cl))
    ensures bp + |cl[e[0]]| + |RunBits(e[1..], cl)| == bp + |RunBits(e, cl)|
  {
    assert RunBits(e, cl) == cl[e[0]] + RunBits(e[1..], cl);
    hide RunBits, At;
    AtSplit(s, bp, cl[e[0]], RunBits(e[1..], cl));
  }

  lemma WordDecodes(tree: seq<nat>, cl: seq<seq<bit>>, s: seq<byte>, bp: nat, code: nat)
    requires Decodes(tree, cl) && code < |cl| && cl[code] != [] && At(s, bp, cl[code])
    ensures |tree| >= 2 && DecodeSymbol(tree, s, bp) == (code, bp + |cl[code]|)
  {
    hide At, DecodeSymbol;
  }

  lemma ReadOneLength(tree: seq<nat>, e: seq<nat>, cl: seq<seq<bit>>, s: seq<byte>, bp: nat, total: nat, acc: seq<nat>)
    requires Decodes(tree, cl) && |acc| < total
    requires e != [] && e[0] < 16 && RunsCovered(e, cl) && At(s, bp, RunBits(e, cl))
    ensures var bp' := bp + |cl[e[0]]|;
            && At(s, bp', RunBits(e[1..], cl)) && bp' + |RunBits(e[1..], cl)| == bp + |RunBits(e, cl)|
            && ReadLength(tree, s, bp, total, acc) == Ok((acc + [e[0]], bp'))
  {
    hide RunBits, At, Decodes, DecodeSymbol, ReadLength;
    LengthAt(e, cl, s, bp);
    WordDecodes(tree, cl, s, bp, e[0]);
    LengthIsRead(tree, s, bp, total, acc, e[0], bp + |cl[e[0]]|);
  }

  lemma ReadRun(tree: seq<nat>, s: seq<byte>, bp: nat, total: nat, acc: seq<nat>, code: nat, bp1: nat, extra: nat,
                acc': seq<nat>)
    requires |tree| >= 2 && |acc| < total && DecodeSymbol(tree, s, bp) == (code, bp1)
    requires 16 <= code <= 18 && (code == 16 ==> acc != [])
    requires bp1 + ExtraBits(code) <= 8 * |s| && ReadBits(s, bp1, ExtraBits(code)) == extra
    requires acc' == acc + RunOf(code, extra, acc) && |acc'| <= total
    ensures ReadLength(tree, s, bp, total, acc) == Ok((acc', bp1 + ExtraBits(code)))
  {
  }

  lemma RunAt(e: seq<nat>, cl: seq<seq<bit>>, s: seq<byte>, bp: nat)
    requires |e| >= 2 && 16 <= e[0] <= 18 && RunsCovered(e, cl) && At(s, bp, RunBits(e, cl))
    requires e[1] < Pow2(ExtraBits(e[0]))
    ensures At(s, bp, cl[e[0]])
    ensures var bp1 := bp + |cl[e[0]]|;
            && bp1 + ExtraBits(e[0]) <= 8 * |s| && ReadBits(s, bp1, ExtraBits(e[0])) == e[1]
            && At(s, bp1 + ExtraBits(e[0]), RunBits(e[2..], cl))
            && bp1 + ExtraBits(e[0]) + |RunBits(e[2..], cl)| == bp + |RunBits(e, cl)|
  {
    var w, x := cl[e[0]], ToBits(e[1], ExtraBits(e[0]));
    AtSplit3(s, bp, w, x, RunBits(e[2..], cl));
    ReadBitsInverse(s, bp + |w|, e[1], ExtraBits(e[0]));
  }

  lemma ReadOneRun(tree: seq<nat>, e: seq<nat>, cl: seq<seq<bit>>, s: seq<byte>, bp: nat, total: nat, acc: seq<nat>)
    requires Decodes(tree, cl) && |acc| < total
    requires |e| >= 2 && 16 <= e[0] <= 18 && RunsCovered(e, cl) && At(s, bp, RunBits(e, cl))
    requires e[0] == 16 ==> acc != []
    requires e[1] < Pow2(ExtraBits(e[0])) && |acc + RunOf(e[0], e[1], acc)| <= total
    ensures var bp' := bp + |cl[e[0]]| + ExtraBits(e[0]);
            && At(s, bp', RunBits(e[2..], cl)) && bp' + |RunBits(e[2..], cl)| == bp + |RunBits(e, cl)|
            && ReadLength(tree, s, bp, total, acc) == Ok((acc + RunOf(e[0], e[1], acc), bp'))
  {
    RunAt(e, cl, s, bp);
    ReadRun(tree, s, bp, total, acc, e[0], bp + |cl[e[0]]|, e[1], acc + RunOf(e[0], e[1], acc));
  }

  lemma ReadLengthsStep(tree: seq<nat>, s: seq<byte>, bp: nat, total: nat, acc: seq<nat>, acc': seq<nat>, bp': nat)
    requires |tree| >= 2 && |acc| < total && ReadLength(tree, s, bp, total, acc) == Ok((acc', bp'))
    ensures |acc'| <= total && ReadLengths(tree, s, bp, total, acc) == ReadLengths(tree, s, bp', total, acc')
  {
  }

  /** One symbol of the run-length code: what it adds and what is left of the code. */
  lemma ReadOne(tree: seq<nat>, e: seq<nat>, cl: seq<seq<bit>>, s: seq<byte>, bp: nat, acc: seq<nat>, lengths: seq<nat>)
    returns (e': seq<nat>, bp': nat, acc': seq<nat>)
    requires Decodes(tree, cl) && e != []
    requires RunsCovered(e, cl) && At(s, bp, RunBits(e, cl)) && Expand(e, acc) == Ok(lengths)
    ensures |e'| < |e| && RunsCovered(e', cl) && At(s, bp', RunBits(e', cl)) && Expand(e', acc') == Ok(lengths)
    ensures bp' + |RunBits(e', cl)| == bp + |RunBits(e, cl)|
    ensures |acc| < |lengths| && |acc'| <= |lengths|
    ensures ReadLengths(tree, s, bp, |lengths|, acc) == ReadLengths(tree, s, bp', |lengths|, acc')
  {
    hide At, ReadLengths, ReadLength, Repeat;
    ExpandGrows(e, acc);
    if e[0] < 16 {
      e', bp', acc' := e[1..], bp + |cl[e[0]]|, acc + [e[0]];
      ReadOneLength(tree, e, cl, s, bp, |lengths|, acc);
    } else {
      e', bp', acc' := e[2..], bp + |cl[e[0]]| + ExtraBits(e[0]), acc + RunOf(e[0], e[1], acc);
      ExpandGrows(e', acc');
      ReadOneRun(tree, e, cl, s, bp, |lengths|, acc);
    }
    ReadLengthsStep(tree, s, bp, |lengths|, acc, acc', bp');
  }

  /** The decoder's loop undoes the run-length code. */
  lemma {:induction false} ReadLengthsInverse(tree: seq<nat>, e: seq<nat>, cl: seq<seq<bit>>, s: seq<byte>, bp: nat,
                                              acc: seq<nat>, lengths: seq<nat>)
    requires Decodes(tree, cl)
    requires RunsCovered(e, cl) && At(s, bp, RunBits(e, cl)) && Expand(e, acc) == Ok(lengths)
    ensures |acc| <= |lengths|
    ensures ReadLengths(tree, s, bp, |lengths|, acc) == Ok((lengths, bp + |RunBits(e, cl)|))
    decreases |e|
  {
    hide At, Repeat, ReadLength;
    ExpandGrows(e, acc);
    if e != [] {
      var e', bp', acc' := ReadOne(tree, e, cl, s, bp, acc, lengths);
      ReadLengthsInverse(tree, e', cl, s, bp', acc', lengths);
    }
  }
}
