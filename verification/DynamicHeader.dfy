/** The description of the trees in front of a block with dynamic codes, and
    that the decompressor rebuilds the same trees from it. */
module DynamicHeader {
  import opened Bits
  import opened BlockCodes
  import opened HuffmanCodes
  import opened HuffmanTree
  import opened Inflate
  import opened RunLengths
  import opened Wrappers

  // ----- trailing absent symbols make no difference

  lemma {:induction false} PadCountBefore(lengths: seq<nat>, n: nat, m: nat, l: nat)
    requires |lengths| <= n && m <= |lengths|
    ensures CountBefore(Pad(lengths, n), m, l) == CountBefore(lengths, m, l)
  {
    if m > 0 { PadCountBefore(lengths, n, m - 1, l); }
  }

  lemma {:induction false} PadCountRest(lengths: seq<nat>, n: nat, m: nat, l: nat)
    requires |lengths| <= m <= n && l > 0
    ensures CountBefore(Pad(lengths, n), m, l) == Count(lengths, l)
  {
    if m > |lengths| { PadCountRest(lengths, n, m - 1, l); } else { PadCountBefore(lengths, n, m, l); }
  }

  lemma {:induction false} PadEndCode(lengths: seq<nat>, n: nat, l: nat)
    requires |lengths| <= n
    ensures EndCode(Pad(lengths, n), l) == EndCode(lengths, l)
    ensures FirstCode(Pad(lengths, n), l) == FirstCode(lengths, l)
  {
    if l > 0 {
      PadEndCode(lengths, n, l - 1);
      PadCountRest(lengths, n, n, l);
    }
  }

  lemma PadCodeword(lengths: seq<nat>, n: nat, s: nat)
    requires |lengths| <= n && s < |lengths|
    ensures Codeword(Pad(lengths, n), s) == Codeword(lengths, s)
  {
    PadEndCode(lengths, n, lengths[s]);
    PadCountBefore(lengths, n, s, lengths[s]);
  }

  lemma PadWord(lengths: seq<nat>, n: nat, s: nat)
    requires |lengths| <= n
    ensures Word(Codewords(Pad(lengths, n)), s) == Word(Codewords(lengths), s)
  {
    if s < |lengths| { PadCodeword(lengths, n, s); }
  }

  lemma {:induction false} PadKraft(lengths: seq<nat>, n: nat, m: nat, max: nat)
    requires |lengths| <= n && m <= n
    ensures KraftSum(Pad(lengths, n), m, max) == KraftSum(lengths, if m <= |lengths| then m else |lengths|, max)
  {
    if m > 0 { PadKraft(lengths, n, m - 1, max); }
  }

  lemma PadComplete(lengths: seq<nat>, n: nat, max: nat)
    requires |lengths| <= n && Complete(lengths, max)
    ensures Complete(Pad(lengths, n), max)
  {
    PadKraft(lengths, n, n, max);
  }

  /** The bits of a block are the same with the padded alphabets. */
  lemma {:induction false} PadSymbolBits(v: seq<nat>, ll: seq<nat>, n: nat, d: seq<nat>, m: nat)
    requires |ll| <= n && |d| <= m
    ensures SymbolBits(v, Codewords(Pad(ll, n)), Codewords(Pad(d, m))) == SymbolBits(v, Codewords(ll), Codewords(d))
    decreases |v|
  {
    if v != [] {
      PadWord(ll, n, v[0]);
      if v[0] <= 255 || |v| < 4 {
        PadSymbolBits(v[1..], ll, n, d, m);
      } else {
        PadWord(d, m, v[2]);
        PadSymbolBits(v[4..], ll, n, d, m);
      }
    }
  }

  lemma PadDataBits(v: seq<nat>, ll: seq<nat>, n: nat, d: seq<nat>, m: nat)
    requires |ll| <= n && |d| <= m
    ensures DataBits(v, Codewords(Pad(ll, n)), Codewords(Pad(d, m))) == DataBits(v, Codewords(ll), Codewords(d))
  {
    PadSymbolBits(v, ll, n, d, m);
    PadWord(ll, n, 256);
  }

  /** Completeness of both codes gives trees that decode them. */
  lemma CompleteTreeDecodes(lengths: seq<nat>, max: nat)
    requires Complete(lengths, max) && 0 < |lengths| <= MAX_NUMCODES
    ensures BuildTree(Codewords(lengths)).Ok?
    ensures Decodes(BuildTree(Codewords(lengths)).value, Codewords(lengths))
  {
    CompleteCodeBuilds(lengths, max);
    TreeDecodes(lengths, max);
  }

  // ----- the code length code

  lemma OrderDistinct(i: nat, j: nat)
    requires i < j < NUM_CODE_LENGTH_CODES
    ensures |CLCL_ORDER| == NUM_CODE_LENGTH_CODES && CLCL_ORDER[i] != CLCL_ORDER[j]
  {
    OrderIsRule(i);
    OrderIsRule(j);
  }

  /** The first `n` code length code lengths, in stored order, three bits each. */
  ghost function ClBits(ordered: seq<nat>, n: nat): (w: seq<bit>)
    requires n <= |ordered|
    ensures |w| == 3 * n
  {
    if n == 0 then [] else ClBits(ordered, n - 1) + ToBits(ordered[n - 1], 3)
  }

  lemma {:induction false} ClBitsRead(s: seq<byte>, bp: nat, ordered: seq<nat>, n: nat, i: nat)
    requires i < n <= |ordered| && At(s, bp, ClBits(ordered, n)) && ordered[i] < 8
    ensures bp + 3 * i + 3 <= 8 * |s| && ReadBits(s, bp + 3 * i, 3) == ordered[i]
  {
    AtSplit(s, bp, ClBits(ordered, n - 1), ToBits(ordered[n - 1], 3));
    if i < n - 1 {
      ClBitsRead(s, bp, ordered, n - 1, i);
    } else {
      assert Pow2(3) == 8;
      ReadBitsInverse(s, bp + 3 * i, ordered[i], 3);
    }
  }

  /** `ordered` holds the lengths in stored order; those left out are zero. */
  ghost predicate Stored(ordered: seq<nat>, cl: seq<nat>) {
    && |cl| == NUM_CODE_LENGTH_CODES == |CLCL_ORDER| && |ordered| <= NUM_CODE_LENGTH_CODES
    && LengthsAtMost(cl, 7)
    && forall i :: 0 <= i < NUM_CODE_LENGTH_CODES ==>
         CLCL_ORDER[i] < |cl| && cl[CLCL_ORDER[i]] == if i < |ordered| then ordered[i] else 0
  }

  lemma {:induction false} ClLengthsSoFar(s: seq<byte>, bp: nat, ordered: seq<nat>, cl: seq<nat>, n: nat, j: nat)
    requires Stored(ordered, cl) && At(s, bp, ClBits(ordered, |ordered|)) && j < n <= NUM_CODE_LENGTH_CODES
    requires bp + 3 * |ordered| <= 8 * |s|
    ensures ReadClLengths(s, bp, |ordered|, n)[CLCL_ORDER[j]] == cl[CLCL_ORDER[j]]
  {
    hide ReadBits, At, ClBits;
    OrderInRange();
    assert cl[CLCL_ORDER[j]] == if j < |ordered| then ordered[j] else 0;
    if j < n - 1 {
      OrderDistinct(j, n - 1);
      ClLengthsSoFar(s, bp, ordered, cl, n - 1, j);
    } else if j < |ordered| {
      ClBitsRead(s, bp, ordered, |ordered|, j);
    }
  }

  /** The decompressor reads the code length code back. */
  lemma ClLengthsInverse(s: seq<byte>, bp: nat, ordered: seq<nat>, cl: seq<nat>)
    requires Stored(ordered, cl) && At(s, bp, ClBits(ordered, |ordered|))
    ensures bp + 3 * |ordered| <= 8 * |s|
    ensures ReadClLengths(s, bp, |ordered|, NUM_CODE_LENGTH_CODES) == cl
  {
    AtFits(s, bp, ClBits(ordered, |ordered|));
    var r := ReadClLengths(s, bp, |ordered|, NUM_CODE_LENGTH_CODES);
    forall k | 0 <= k < NUM_CODE_LENGTH_CODES ensures r[k] == cl[k] {
      OrderIsRule(PlaceOfSymbol(k));
      ClLengthsSoFar(s, bp, ordered, cl, NUM_CODE_LENGTH_CODES, PlaceOfSymbol(k));
    }
  }

  // ----- the whole header

  ghost function HeaderBits(h: Header): (w: seq<bit>)
    requires HeaderOk(h)
    ensures |w| == 14
  {
    ToBits(h.hlit - 257, 5) + ToBits(h.hdist - 1, 5) + ToBits(h.hclen - 4, 4)
  }

  lemma HeaderInverse(s: seq<byte>, bp: nat, h: Header)
    requires HeaderOk(h) && At(s, bp, HeaderBits(h)) && bp + 14 + 3 * h.hclen <= 8 * |s|
    ensures ReadHeader(s, bp) == Ok(h)
  {
    hide ReadBits, At, ToBits;
    AtSplit3(s, bp, ToBits(h.hlit - 257, 5), ToBits(h.hdist - 1, 5), ToBits(h.hclen - 4, 4));
    assert Pow2(5) == 32 && Pow2(4) == 16;
    ReadBitsInverse(s, bp, h.hlit - 257, 5);
    ReadBitsInverse(s, bp + 5, h.hdist - 1, 5);
    ReadBitsInverse(s, bp + 10, h.hclen - 4, 4);
  }

  /** What the compressor knows about the description it writes: both codes,
      the code length code in stored order, and the run-length coded lengths. */
  datatype Description = Description(ll: seq<nat>, d: seq<nat>, cl: seq<nat>, ordered: seq<nat>, e: seq<nat>)

  ghost predicate DescriptionOk(x: Description) {
    && 257 <= |x.ll| <= 286 && 2 <= |x.d| <= 30
    && Complete(x.ll, 15) && Complete(x.d, 15) && Complete(x.cl, 7)
    && x.ll[256] > 0
    && Stored(x.ordered, x.cl) && |x.ordered| >= 4
    && Expand(x.e, []) == Ok(x.ll + x.d)
    && RunsCovered(x.e, Codewords(x.cl))
  }

  ghost function HeaderOf(x: Description): (h: Header)
    requires DescriptionOk(x)
    ensures HeaderOk(h)
  {
    Header(|x.ll|, |x.d|, |x.ordered|)
  }

  ghost function DescriptionBits(x: Description): seq<bit>
    requires DescriptionOk(x)
  {
    HeaderBits(HeaderOf(x)) + ClBits(x.ordered, |x.ordered|) + RunBits(x.e, Codewords(x.cl))
  }

  lemma BothLengthsInverse(s: seq<byte>, bp: nat, x: Description, bp1: nat)
    requires DescriptionOk(x)
    requires At(s, bp, ClBits(x.ordered, |x.ordered|)) && bp1 == bp + 3 * |x.ordered|
    requires At(s, bp1, RunBits(x.e, Codewords(x.cl)))
    ensures bp1 <= 8 * |s|
    ensures ReadBothLengths(s, bp, HeaderOf(x)) == Ok((x.ll + x.d, bp1 + |RunBits(x.e, Codewords(x.cl))|))
  {
    hide ReadBits, At, ClBits, RunBits, ReadLengths, BuildTree, Codewords, Expand, ReadClLengths, Complete,
        RunsCovered, Decodes;
    ClLengthsInverse(s, bp, x.ordered, x.cl);
    CompleteTreeDecodes(x.cl, 7);
    ReadLengthsInverse(BuildTree(Codewords(x.cl)).value, x.e, Codewords(x.cl), s, bp1, [], x.ll + x.d);
  }

  lemma DescriptionAt(s: seq<byte>, bp: nat, x: Description) returns (bp1: nat, bp2: nat, end: nat)
    requires DescriptionOk(x) && At(s, bp, DescriptionBits(x))
    ensures At(s, bp, HeaderBits(HeaderOf(x))) && bp1 == bp + 14
    ensures At(s, bp1, ClBits(x.ordered, |x.ordered|)) && bp2 == bp1 + 3 * |x.ordered| <= 8 * |s|
    ensures At(s, bp2, RunBits(x.e, Codewords(x.cl))) && end == bp2 + |RunBits(x.e, Codewords(x.cl))|
    ensures end == bp + |DescriptionBits(x)|
  {
    hide HeaderBits, ClBits, RunBits, At, Stored, RunsCovered, Complete, Expand;
    AtSplit3(s, bp, HeaderBits(HeaderOf(x)), ClBits(x.ordered, |x.ordered|), RunBits(x.e, Codewords(x.cl)));
    bp1 := bp + 14;
    bp2 := bp1 + 3 * |x.ordered|;
    AtFits(s, bp1, ClBits(x.ordered, |x.ordered|));
    end := bp2 + |RunBits(x.e, Codewords(x.cl))|;
  }

  ghost function PaddedLl(x: Description): seq<nat>
    requires DescriptionOk(x)
  {
    Pad(x.ll, NUM_DEFLATE_CODE_SYMBOLS)
  }

  ghost function PaddedD(x: Description): seq<nat>
    requires DescriptionOk(x)
  {
    Pad(x.d, NUM_DISTANCE_SYMBOLS)
  }

  lemma TreesInverse(x: Description, bp: nat) returns (t: Trees)
    requires DescriptionOk(x)
    ensures TreesForLengths(PaddedLl(x), PaddedD(x), bp) == Ok(t) && t.bp == bp
    ensures TreesDecode(t, Codewords(PaddedLl(x)), Codewords(PaddedD(x)))
  {
    PadComplete(x.ll, NUM_DEFLATE_CODE_SYMBOLS, 15);
    PadComplete(x.d, NUM_DISTANCE_SYMBOLS, 15);
    CompleteTreeDecodes(PaddedLl(x), 15);
    CompleteTreeDecodes(PaddedD(x), 15);
    t := TreesForLengths(PaddedLl(x), PaddedD(x), bp).value;
  }

  /** The decompressor rebuilds the trees of the compressor. */
  lemma DescriptionInverse(s: seq<byte>, bp: nat, x: Description) returns (t: Trees)
    requires DescriptionOk(x) && At(s, bp, DescriptionBits(x))
    ensures DynamicTrees(s, bp) == Ok(t) && t.bp == bp + |DescriptionBits(x)|
    ensures TreesDecode(t, Codewords(PaddedLl(x)), Codewords(PaddedD(x)))
  {
    hide ReadHeader, ReadBothLengths, TreesForLengths, At, DescriptionBits, DescriptionOk, HeaderBits, ClBits,
        RunBits, TreesDecode, Codewords;
    var bp1, bp2, end := DescriptionAt(s, bp, x);
    HeaderInverse(s, bp, HeaderOf(x));
    BothLengthsInverse(s, bp1, x, bp2);
    var lengths := x.ll + x.d;
    assert lengths[..|x.ll|] == x.ll && lengths[|x.ll|..] == x.d;
    t := TreesInverse(x, end);
  }
}
