/** The decompressor as functions of the input: what lodepng_inflatev returns
    for any bytes, malformed ones included. */
module Inflate {
  import opened Bits
  import opened HuffmanCodes
  import opened HuffmanTree
  import opened Lz77Codes
  import opened RunLengths
  import opened Wrappers

  const NUM_DEFLATE_CODE_SYMBOLS: nat := 288
  const NUM_DISTANCE_SYMBOLS: nat := 32
  const NUM_CODE_LENGTH_CODES: nat := 19

  /** The order in which code length code lengths are stored. */
  const CLCL_ORDER: seq<nat> := [16, 17, 18, 0, 8, 7, 9, 6, 10, 5, 11, 4, 12, 3, 13, 2, 14, 1, 15]

  /** Bit pointer, output, and whether the end was reached. */
  datatype Progress = Progress(bp: nat, out: seq<byte>, done: bool)

  /** Both trees of a block and the bit pointer behind their description. */
  datatype Trees = Trees(ll: seq<nat>, d: seq<nat>, bp: nat)

  ghost predicate TreesOk(t: Trees) {
    |t.ll| == 2 * NUM_DEFLATE_CODE_SYMBOLS && |t.d| == 2 * NUM_DISTANCE_SYMBOLS
  }

  /** The match length for length code `code`, and the bit pointer behind its extra bits. */
  function InflateLength(s: seq<byte>, code: nat, bp: nat): (r: Result<(nat, nat)>)
    requires FIRST_LENGTH_CODE_INDEX <= code <= LAST_LENGTH_CODE_INDEX
    ensures r.Ok? ==> bp <= r.value.1 <= 8 * |s|
  {
    var numextra := LengthExtra(LengthIndex(code));
    if bp + numextra > 8 * |s| then Error(51)
    else Ok((LengthBase(LengthIndex(code)) + ReadBits(s, bp, numextra), bp + numextra))
  }

  /** A distance code with its extra bits.  An undecodable code is reported as
      error 18 like an unused one, because the source tests the length code. */
  function InflateDistance(d: seq<nat>, s: seq<byte>, bp: nat): (r: Result<(nat, nat)>)
    requires |d| == 2 * NUM_DISTANCE_SYMBOLS
    ensures r.Ok? ==> r.value.0 > 0 && bp < r.value.1 <= 8 * |s|
  {
    var (codeD, bp1) := DecodeSymbol(d, s, bp);
    if codeD > 29 then Error(18)
    else
      var numextra := DistanceExtra(codeD);
      if bp1 + numextra > 8 * |s| then Error(51)
      else Ok((DistanceBase(codeD) + ReadBits(s, bp1, numextra), bp1 + numextra))
  }

  /** The rest of a length/distance pair, behind length code `code`. */
  function InflatePair(d: seq<nat>, s: seq<byte>, code: nat, bp: nat, out: seq<byte>): (r: Result<Progress>)
    requires |d| == 2 * NUM_DISTANCE_SYMBOLS
    requires FIRST_LENGTH_CODE_INDEX <= code <= LAST_LENGTH_CODE_INDEX
    ensures r.Ok? ==> bp < r.value.bp <= 8 * |s| && !r.value.done
  {
    var (length, bp1) :- InflateLength(s, code, bp);
    var (distance, bp2) :- InflateDistance(d, s, bp1);
    if distance > |out| then Error(52)
    else Ok(Progress(bp2, Copy(out, distance, length), false))
  }

  /** One pass through the loop of inflateHuffmanBlock. */
  function InflateSymbol(ll: seq<nat>, d: seq<nat>, s: seq<byte>, bp: nat, out: seq<byte>): (r: Result<Progress>)
    requires |ll| == 2 * NUM_DEFLATE_CODE_SYMBOLS && |d| == 2 * NUM_DISTANCE_SYMBOLS
    ensures r.Ok? ==> bp < r.value.bp <= 8 * |s|
  {
    var (code, bp1) := DecodeSymbol(ll, s, bp);
    if code <= 255 then Ok(Progress(bp1, out + [code], false))
    else if FIRST_LENGTH_CODE_INDEX <= code <= LAST_LENGTH_CODE_INDEX then InflatePair(d, s, code, bp1, out)
    else if code == 256 then Ok(Progress(bp1, out, true))
    else Error(if bp1 > 8 * |s| then 10 else 11)
  }

  /** That loop, until the end code. */
  function InflateSymbols(ll: seq<nat>, d: seq<nat>, s: seq<byte>, bp: nat, out: seq<byte>): (r: Result<Progress>)
    requires |ll| == 2 * NUM_DEFLATE_CODE_SYMBOLS && |d| == 2 * NUM_DISTANCE_SYMBOLS
    ensures r.Ok? ==> bp < r.value.bp <= 8 * |s|
    decreases 8 * |s| - bp
  {
    var p :- InflateSymbol(ll, d, s, bp, out);
    if p.done then Ok(p) else InflateSymbols(ll, d, s, p.bp, p.out)
  }

  // ----- which error codes are given

  /** Behind the end of the data no symbol is decoded and the bit pointer stays. */
  lemma {:induction false} DecodeStays(tree: seq<nat>, s: seq<byte>, bp: nat, pos: nat)
    requires pos < |tree| / 2 && bp <= 8 * |s|
    ensures DecodeFrom(tree, s, bp, pos).1 <= 8 * |s|
    ensures bp == 8 * |s| ==> DecodeFrom(tree, s, bp, pos) == (NO_SYMBOL, bp)
    decreases 8 * |s| - bp
  {
    if bp < 8 * |s| {
      var ct := tree[2 * pos + StreamBit(s, bp)];
      if |tree| / 2 <= ct < 2 * (|tree| / 2) { DecodeStays(tree, s, bp + 1, ct - |tree| / 2); }
    }
  }

  /** Error 18 stands for every distance code above 29, the undecodable one
      included; data that ends behind a length code is such a case. */
  lemma UndecodableDistance(d: seq<nat>, s: seq<byte>, code: nat, bp: nat, out: seq<byte>)
    requires |d| == 2 * NUM_DISTANCE_SYMBOLS && bp <= 8 * |s|
    requires FIRST_LENGTH_CODE_INDEX <= code <= LAST_LENGTH_CODE_INDEX
    ensures InflateDistance(d, s, bp) == Error(18) <==> DecodeSymbol(d, s, bp).0 > 29
    ensures bp == 8 * |s| ==> DecodeSymbol(d, s, bp).0 == NO_SYMBOL
    ensures bp + LengthExtra(LengthIndex(code)) == 8 * |s| ==> InflatePair(d, s, code, bp, out) == Error(18)
  {
    DecodeStays(d, s, bp, 0);
    DecodeStays(d, s, 8 * |s|, 0);
    hide DecodeFrom;
  }

  /** Error 10 is never given for a missing end code: the bit pointer cannot
      get past the end of the data, so it is always error 11. */
  lemma MissingEndCodeIsWrongJump(ll: seq<nat>, d: seq<nat>, s: seq<byte>, bp: nat, out: seq<byte>)
    requires |ll| == 2 * NUM_DEFLATE_CODE_SYMBOLS && |d| == 2 * NUM_DISTANCE_SYMBOLS && bp <= 8 * |s|
    ensures InflateSymbol(ll, d, s, bp, out) != Error(10)
    ensures DecodeSymbol(ll, s, bp).0 > LAST_LENGTH_CODE_INDEX ==> InflateSymbol(ll, d, s, bp, out) == Error(11)
  {
    DecodeStays(ll, s, bp, 0);
    hide DecodeFrom;
  }

  /** generateFixedLitLenTree and generateFixedDistanceTree: the code lengths. */
  function FixedLitLenLengths(): (l: seq<nat>)
    ensures |l| == NUM_DEFLATE_CODE_SYMBOLS
  {
    seq(NUM_DEFLATE_CODE_SYMBOLS, i => if i <= 143 then 8 else if i <= 255 then 9 else if i <= 279 then 7 else 8)
  }

  function FixedDistanceLengths(): (l: seq<nat>)
    ensures |l| == NUM_DISTANCE_SYMBOLS
  {
    seq(NUM_DISTANCE_SYMBOLS, _ => 5)
  }

  lemma {:induction false} KraftOfFixed(n: nat)
    requires n <= NUM_DEFLATE_CODE_SYMBOLS
    ensures n <= 144 ==> KraftSum(FixedLitLenLengths(), n, 15) == 128 * n
    ensures 144 <= n <= 256 ==> KraftSum(FixedLitLenLengths(), n, 15) == 128 * 144 + 64 * (n - 144)
    ensures 256 <= n <= 280 ==> KraftSum(FixedLitLenLengths(), n, 15) == 128 * 144 + 64 * 112 + 256 * (n - 256)
    ensures 280 <= n ==> KraftSum(FixedLitLenLengths(), n, 15) == 128 * 144 + 64 * 112 + 256 * 24 + 128 * (n - 280)
  {
    assert Pow2(7) == 128 && Pow2(6) == 64 && Pow2(8) == 256;
    if n > 0 { KraftOfFixed(n - 1); }
  }

  lemma {:induction false} KraftOfFives(n: nat)
    requires n <= NUM_DISTANCE_SYMBOLS
    ensures KraftSum(FixedDistanceLengths(), n, 15) == 1024 * n
  {
    assert Pow2(10) == 1024;
    if n > 0 { KraftOfFives(n - 1); }
  }

  /** The fixed codes of the standard (section 3.2.6) fill all code space. */
  lemma FixedCodesComplete()
    ensures Complete(FixedLitLenLengths(), 15) && Complete(FixedDistanceLengths(), 15)
  {
    KraftOfFixed(NUM_DEFLATE_CODE_SYMBOLS);
    KraftOfFives(NUM_DISTANCE_SYMBOLS);
    Pow2Table();
    assert Pow2(15) == 32768;
  }

  lemma {:induction false} CountOfFixed(n: nat)
    requires n <= NUM_DEFLATE_CODE_SYMBOLS
    ensures var l := FixedLitLenLengths();
            && CountBefore(l, n, 7) == (if n <= 256 then 0 else if n <= 280 then n - 256 else 24)
            && CountBefore(l, n, 8) == (if n <= 144 then n else if n <= 280 then 144 else n - 136)
            && CountBefore(l, n, 9) == (if n <= 144 then 0 else if n <= 256 then n - 144 else 112)
  {
    if n > 0 { CountOfFixed(n - 1); }
  }

  lemma FirstOfFixed()
    ensures var l := FixedLitLenLengths();
            FirstCode(l, 7) == 0 && FirstCode(l, 8) == 48 && FirstCode(l, 9) == 400
  {
    var l := FixedLitLenLengths();
    NothingShorter(l, 6);
    CountOfFixed(NUM_DEFLATE_CODE_SYMBOLS);
    hide FixedLitLenLengths;
    assert FirstCode(l, 7) == 2 * EndCode(l, 6);
    assert FirstCode(l, 8) == 2 * (FirstCode(l, 7) + Count(l, 7));
    assert FirstCode(l, 9) == 2 * (FirstCode(l, 8) + Count(l, 8));
  }

  /** The table of section 3.2.6: 8 bits from 00110000 on, 9 bits from 110010000 on,
      7 bits from 0000000 on, and again 8 bits from 11000000 on. */
  lemma FixedCodeTable(s: nat)
    requires s < NUM_DEFLATE_CODE_SYMBOLS
    ensures Codeword(FixedLitLenLengths(), s) ==
              if s <= 143 then ToBitsReversed(0x30 + s, 8)
              else if s <= 255 then ToBitsReversed(0x190 + (s - 144), 9)
              else if s <= 279 then ToBitsReversed(s - 256, 7)
              else ToBitsReversed(0xc0 + (s - 280), 8)
  {
    hide FirstCode, ToBitsReversed;
    FirstOfFixed();
    CountOfFixed(s);
  }

  lemma {:induction false} CountOfFives(n: nat)
    requires n <= NUM_DISTANCE_SYMBOLS
    ensures CountBefore(FixedDistanceLengths(), n, 5) == n
  {
    if n > 0 { CountOfFives(n - 1); }
  }

  /** Distance codes are the numbers themselves in 5 bits. */
  lemma FixedDistanceTable(s: nat)
    requires s < NUM_DISTANCE_SYMBOLS
    ensures Codeword(FixedDistanceLengths(), s) == ToBitsReversed(s, 5)
  {
    CountOfFives(s);
    NothingShorter(FixedDistanceLengths(), 4);
    hide ToBitsReversed;
  }

  function FixedTrees(bp: nat): (r: Result<Trees>)
    ensures r.Ok? ==> TreesOk(r.value) && r.value.bp == bp
  {
    var ll :- BuildTree(Codewords(FixedLitLenLengths()));
    var d :- BuildTree(Codewords(FixedDistanceLengths()));
    Ok(Trees(ll, d, bp))
  }

  lemma OrderInRange()
    ensures |CLCL_ORDER| == NUM_CODE_LENGTH_CODES && forall i :: 0 <= i < |CLCL_ORDER| ==>
              CLCL_ORDER[i] < NUM_CODE_LENGTH_CODES
  {
  }

  /** The first `n` entries, in stored order, of the code length code lengths. */
  function ReadClLengths(s: seq<byte>, bp: nat, hclen: nat, n: nat): (cl: seq<nat>)
    requires bp + 3 * hclen <= 8 * |s| && n <= NUM_CODE_LENGTH_CODES
    ensures |cl| == NUM_CODE_LENGTH_CODES
  {
    OrderInRange();
    if n == 0 then Repeat(0, NUM_CODE_LENGTH_CODES)
    else ReadClLengths(s, bp, hclen, n - 1)[CLCL_ORDER[n - 1] := if n - 1 < hclen then
        ReadBits(s, bp + 3 * (n - 1), 3) else 0]
  }

  /** The order as a rule: the repeat codes and 0 first, then from 8 on outwards,
      upwards and downwards in turn. */
  function SymbolAtPlace(i: nat): nat
    requires i < NUM_CODE_LENGTH_CODES
  {
    if i < 3 then 16 + i
    else if i == 3 then 0
    else if i % 2 == 0 then 8 + (i - 4) / 2
    else 8 - (i - 3) / 2
  }

  /** Where the length of symbol `k` is stored. */
  function PlaceOfSymbol(k: nat): (i: nat)
    requires k < NUM_CODE_LENGTH_CODES
    ensures i < NUM_CODE_LENGTH_CODES && SymbolAtPlace(i) == k
  {
    if k >= 16 then k - 16
    else if k == 0 then 3
    else if k >= 8 then 4 + 2 * (k - 8)
    else 3 + 2 * (8 - k)
  }

  lemma OrderIsRule(i: nat)
    requires i < NUM_CODE_LENGTH_CODES
    ensures |CLCL_ORDER| == NUM_CODE_LENGTH_CODES && CLCL_ORDER[i] == SymbolAtPlace(i)
    ensures PlaceOfSymbol(SymbolAtPlace(i)) == i
  {
  }

  lemma {:induction false} ReadInOrder(s: seq<byte>, bp: nat, hclen: nat, n: nat, i: nat)
    requires bp + 3 * hclen <= 8 * |s| && i < n <= NUM_CODE_LENGTH_CODES
    ensures ReadClLengths(s, bp, hclen, n)[SymbolAtPlace(i)] == if i < hclen then ReadBits(s, bp + 3 * i, 3) else 0
  {
    hide ReadBits;
    OrderIsRule(n - 1);
    OrderIsRule(i);
    hide SymbolAtPlace, PlaceOfSymbol;
    if i < n - 1 { ReadInOrder(s, bp, hclen, n - 1, i); }
  }

  /** Every symbol has the three bits at its place, or none if fewer are stored. */
  lemma ClLengthAtPlace(s: seq<byte>, bp: nat, hclen: nat, k: nat)
    requires bp + 3 * hclen <= 8 * |s| && k < NUM_CODE_LENGTH_CODES
    ensures var i := PlaceOfSymbol(k);
            ReadClLengths(s, bp, hclen, NUM_CODE_LENGTH_CODES)[k] == if i < hclen then ReadBits(s, bp + 3 * i, 3) else 0
  {
    hide ReadClLengths, ReadBits;
    ReadInOrder(s, bp, hclen, NUM_CODE_LENGTH_CODES, PlaceOfSymbol(k));
  }

  function Pad(lengths: seq<nat>, n: nat): (r: seq<nat>)
    requires |lengths| <= n
    ensures |r| == n
  {
    lengths + Repeat(0, n - |lengths|)
  }

  /** The trees for the code lengths of both alphabets. */
  function TreesForLengths(ll: seq<nat>, d: seq<nat>, bp: nat): (r: Result<Trees>)
    requires |ll| == NUM_DEFLATE_CODE_SYMBOLS && |d| == NUM_DISTANCE_SYMBOLS
    ensures r.Ok? ==> TreesOk(r.value) && r.value.bp == bp
  {
    if ll[256] == 0 then Error(64)
    else
      var treeLl :- BuildTree(Codewords(ll));
      var treeD :- BuildTree(Codewords(d));
      Ok(Trees(treeLl, treeD, bp))
  }

  /** HLIT, HDIST and HCLEN with their offsets added. */
  datatype Header = Header(hlit: nat, hdist: nat, hclen: nat)

  ghost predicate HeaderOk(h: Header) {
    257 <= h.hlit <= NUM_DEFLATE_CODE_SYMBOLS && 1 <= h.hdist <= NUM_DISTANCE_SYMBOLS
        && 4 <= h.hclen <= NUM_CODE_LENGTH_CODES
  }

  function ReadHeader(s: seq<byte>, bp: nat): (r: Result<Header>)
    ensures r.Ok? ==> HeaderOk(r.value) && bp + 14 + 3 * r.value.hclen <= 8 * |s|
  {
    if bp + 14 > 8 * |s| then Error(49)
    else
      assert Pow2(5) == 32 && Pow2(4) == 16;
      var hlit := ReadBits(s, bp, 5) + 257;
      var hdist := ReadBits(s, bp + 5, 5) + 1;
      var hclen := ReadBits(s, bp + 10, 4) + 4;
      if bp + 14 + hclen * 3 > 8 * |s| then Error(50)
      else Ok(Header(hlit, hdist, hclen))
  }

  /** The code lengths of both alphabets, from the code lengths of their code on. */
  function ReadBothLengths(s: seq<byte>, bp: nat, h: Header): (r: Result<(seq<nat>, nat)>)
    requires HeaderOk(h) && bp + 3 * h.hclen <= 8 * |s|
    ensures r.Ok? ==> |r.value.0| == h.hlit + h.hdist && bp + 3 * h.hclen <= r.value.1
  {
    var treeCl :- BuildTree(Codewords(ReadClLengths(s, bp, h.hclen, NUM_CODE_LENGTH_CODES)));
    ReadLengths(treeCl, s, bp + 3 * h.hclen, h.hlit + h.hdist, [])
  }

  /** getTreeInflateDynamic */
  function DynamicTrees(s: seq<byte>, bp: nat): (r: Result<Trees>)
    ensures r.Ok? ==> TreesOk(r.value) && bp < r.value.bp
  {
    var h :- ReadHeader(s, bp);
    var (lengths, bp') :- ReadBothLengths(s, bp + 14, h);
    TreesForLengths(Pad(lengths[..h.hlit], NUM_DEFLATE_CODE_SYMBOLS), Pad(lengths[h.hlit..], NUM_DISTANCE_SYMBOLS), bp')
  }

  /** inflateHuffmanBlock */
  function InflateHuffmanBlock(s: seq<byte>, bp: nat, out: seq<byte>, btype: nat): (r: Result<Progress>)
    ensures r.Ok? ==> bp < r.value.bp <= 8 * |s|
  {
    var trees :- if btype == 1 then FixedTrees(bp) else DynamicTrees(s, bp);
    InflateSymbols(trees.ll, trees.d, s, trees.bp, out)
  }

  /** inflateNoCompression */
  function InflateNoCompression(s: seq<byte>, bp: nat, out: seq<byte>): (r: Result<Progress>)
    ensures r.Ok? ==> bp < r.value.bp <= 8 * |s|
  {
    var p := (bp + 7) / 8;
    if p + 4 >= |s| then Error(52)
    else
      var len := s[p] as int + 256 * s[p + 1] as int;
      var nlen := s[p + 2] as int + 256 * s[p + 3] as int;
      if len + nlen != 65535 then Error(21)
      else if p + 4 + len > |s| then Error(23)
      else Ok(Progress(8 * (p + 4 + len), out + s[p + 4..p + 4 + len], true))
  }

  /** One block; `done` tells that it was marked as the last one. */
  function InflateBlock(s: seq<byte>, bp: nat, out: seq<byte>): (r: Result<Progress>)
    ensures r.Ok? ==> bp < r.value.bp <= 8 * |s|
  {
    if bp + 2 >= 8 * |s| then Error(52)
    else
      var bfinal := StreamBit(s, bp);
      var btype := StreamBit(s, bp + 1) + 2 * StreamBit(s, bp + 2);
      if btype == 3 then Error(20)
      else
        var p :- if btype == 0 then InflateNoCompression(s, bp + 3, out)
                 else InflateHuffmanBlock(s, bp + 3, out, btype);
        Ok(p.(done := bfinal == 1))
  }

  /** The loop of lodepng_inflatev. */
  function InflateBlocks(s: seq<byte>, bp: nat, out: seq<byte>): (r: Result<seq<byte>>)
    decreases 8 * |s| - bp
  {
    var p :- InflateBlock(s, bp, out);
    if p.done then Ok(p.out)
    else InflateBlocks(s, p.bp, p.out)
  }

  /** lodepng_inflate: the data that `s` stands for, or the error code. */
  function InflateAll(s: seq<byte>): Result<seq<byte>> {
    InflateBlocks(s, 0, [])
  }
}
