/** Whole blocks of compressed data, and that the decompressor undoes them. */
module DeflateBlocks {
  import opened Bits
  import opened BlockCodes
  import opened DynamicHeader
  import opened HuffmanCodes
  import opened HuffmanTree
  import opened Inflate
  import opened Lz77Codes
  import opened Wrappers

  /** Wherever the block `w` stands, decompressing it turns `before` into `after`. */
  ghost predicate IsBlock(w: seq<bit>, before: seq<byte>, after: seq<byte>, final: bool) {
    forall full: seq<byte>, bp: nat {:trigger At(full, bp, w)} :: At(full, bp, w) ==>
      InflateBlock(full, bp, before) == Ok(Progress(bp + |w|, after, final))
  }

  /** BFINAL and BTYPE */
  ghost function BlockHead(final: bool, btype: nat): (w: seq<bit>)
    ensures |w| == 3
  {
    [if final then 1 else 0, btype % 2, btype / 2 % 2]
  }

  lemma HeadRead(full: seq<byte>, bp: nat, final: bool, btype: nat, before: seq<byte>, end: nat, after: seq<byte>)
    requires 1 <= btype <= 2 && At(full, bp, BlockHead(final, btype))
    requires InflateHuffmanBlock(full, bp + 3, before, btype) == Ok(Progress(end, after, true))
    ensures InflateBlock(full, bp, before) == Ok(Progress(end, after, final))
  {
    hide InflateHuffmanBlock, StreamBit, At;
    AtBit(full, bp, BlockHead(final, btype), 0);
    AtBit(full, bp, BlockHead(final, btype), 1);
    AtBit(full, bp, BlockHead(final, btype), 2);
  }

  // ----- dynamic codes

  ghost function DynamicBlock(final: bool, x: Description, v: seq<nat>): seq<bit>
    requires DescriptionOk(x)
  {
    BlockHead(final, 2) + DescriptionBits(x) + DataBits(v, Codewords(x.ll), Codewords(x.d))
  }

  lemma {:induction false} PaddedEncodable(v: seq<nat>, ll: seq<nat>, n: nat, d: seq<nat>, m: nat)
    requires |ll| <= n && |d| <= m && Encodable(v, Codewords(ll), Codewords(d))
    ensures Encodable(v, Codewords(Pad(ll, n)), Codewords(Pad(d, m)))
    decreases |v|
  {
    if v != [] {
      PadWord(ll, n, v[0]);
      if v[0] <= 255 {
        PaddedEncodable(v[1..], ll, n, d, m);
      } else {
        PadWord(d, m, v[2]);
        PaddedEncodable(v[4..], ll, n, d, m);
      }
    }
  }

  lemma DynamicBlockParts(full: seq<byte>, bp: nat, final: bool, x: Description, v: seq<nat>)
    returns (bp1: nat, bp2: nat)
    requires DescriptionOk(x) && At(full, bp, DynamicBlock(final, x, v))
    ensures At(full, bp, BlockHead(final, 2)) && bp1 == bp + 3
    ensures At(full, bp1, DescriptionBits(x)) && bp2 == bp1 + |DescriptionBits(x)|
    ensures At(full, bp2, DataBits(v, Codewords(PaddedLl(x)), Codewords(PaddedD(x))))
    ensures bp2 + |DataBits(v, Codewords(PaddedLl(x)), Codewords(PaddedD(x)))| == bp + |DynamicBlock(final, x, v)|
  {
    hide DescriptionBits, DataBits, At, Codewords, BlockHead;
    PadDataBits(v, x.ll, NUM_DEFLATE_CODE_SYMBOLS, x.d, NUM_DISTANCE_SYMBOLS);
    AtSplit3(full, bp, BlockHead(final, 2), DescriptionBits(x), DataBits(v, Codewords(x.ll), Codewords(x.d)));
    bp1 := bp + 3;
    bp2 := bp1 + |DescriptionBits(x)|;
  }

  lemma EndCodePresent(x: Description)
    requires DescriptionOk(x)
    ensures |PaddedLl(x)| > 256 && Codewords(PaddedLl(x))[256] != []
  {
    assert PaddedLl(x)[256] == x.ll[256];
    assert |Codewords(PaddedLl(x))[256]| == PaddedLl(x)[256];
  }

  lemma HuffmanBlockRead(full: seq<byte>, bp: nat, t: Trees, before: seq<byte>, end: nat, after: seq<byte>)
    requires DynamicTrees(full, bp) == Ok(t) && TreesOk(t)
    requires InflateSymbols(t.ll, t.d, full, t.bp, before) == Ok(Progress(end, after, true))
    ensures InflateHuffmanBlock(full, bp, before, 2) == Ok(Progress(end, after, true))
  {
  }

  /** A block with dynamic codes is undone, wherever it stands. */
  lemma DynamicBlockInverse(final: bool, x: Description, v: seq<nat>, before: seq<byte>, after: seq<byte>)
    requires DescriptionOk(x) && Encodable(v, Codewords(x.ll), Codewords(x.d))
    requires ExpandCodes(v, before) == Ok(after)
    ensures IsBlock(DynamicBlock(final, x, v), before, after, final)
  {
    hide DescriptionBits, DataBits, At, Codewords, BlockHead, InflateBlock, InflateHuffmanBlock, InflateSymbols,
        DynamicTrees,
         DynamicBlock, DescriptionOk, ExpandCodes, Encodable, Decodes;
    forall full: seq<byte>, bp: nat | At(full, bp, DynamicBlock(final, x, v))
      ensures InflateBlock(full, bp, before) == Ok(Progress(bp + |DynamicBlock(final, x, v)|, after, final))
    {
      var bp1, bp2 := DynamicBlockParts(full, bp, final, x, v);
      var t := DescriptionInverse(full, bp1, x);
      TreesDecodeOk(t, Codewords(PaddedLl(x)), Codewords(PaddedD(x)));
      PadEncodable(x, v);
      EndCodePresent(x);
      var end := DataInverse(t, Codewords(PaddedLl(x)), Codewords(PaddedD(x)), full, bp2, v, before, after);
      HuffmanBlockRead(full, bp1, t, before, end, after);
      HeadRead(full, bp, final, 2, before, end, after);
    }
  }

  lemma PadEncodable(x: Description, v: seq<nat>)
    requires DescriptionOk(x) && Encodable(v, Codewords(x.ll), Codewords(x.d))
    ensures Encodable(v, Codewords(PaddedLl(x)), Codewords(PaddedD(x)))
  {
    PaddedEncodable(v, x.ll, NUM_DEFLATE_CODE_SYMBOLS, x.d, NUM_DISTANCE_SYMBOLS);
  }

  // ----- fixed codes

  ghost function FixedLl(): seq<seq<bit>> {
    Codewords(FixedLitLenLengths())
  }

  ghost function FixedD(): seq<seq<bit>> {
    Codewords(FixedDistanceLengths())
  }

  ghost function FixedBlock(final: bool, v: seq<nat>): seq<bit> {
    BlockHead(final, 1) + DataBits(v, FixedLl(), FixedD())
  }

  lemma FixedHasWord(s: nat)
    ensures s < 288 ==> HasWord(FixedLl(), s)
    ensures s < 32 ==> HasWord(FixedD(), s)
  {
    if s < 288 { assert |FixedLl()[s]| == FixedLitLenLengths()[s]; }
    if s < 32 { assert |FixedD()[s]| == FixedDistanceLengths()[s]; }
  }

  lemma {:induction false} FixedEncodable(v: seq<nat>)
    requires IsCodes(v)
    ensures Encodable(v, FixedLl(), FixedD())
    decreases |v|
  {
    hide FixedLl, FixedD;
    if v != [] {
      FixedHasWord(v[0]);
      if v[0] <= 255 {
        FixedEncodable(v[1..]);
      } else {
        FixedHasWord(v[2]);
        FixedEncodable(v[4..]);
      }
    }
  }

  lemma FixedTreesInverse(bp: nat) returns (t: Trees)
    ensures Inflate.FixedTrees(bp) == Ok(t) && t.bp == bp && TreesDecode(t, FixedLl(), FixedD())
  {
    FixedCodesComplete();
    CompleteTreeDecodes(FixedLitLenLengths(), 15);
    CompleteTreeDecodes(FixedDistanceLengths(), 15);
    t := Inflate.FixedTrees(bp).value;
  }

  lemma FixedBlockRead(full: seq<byte>, bp: nat, t: Trees, before: seq<byte>, end: nat, after: seq<byte>)
    requires Inflate.FixedTrees(bp) == Ok(t) && TreesOk(t)
    requires InflateSymbols(t.ll, t.d, full, t.bp, before) == Ok(Progress(end, after, true))
    ensures InflateHuffmanBlock(full, bp, before, 1) == Ok(Progress(end, after, true))
  {
  }

  /** A block with fixed codes is undone, wherever it stands. */
  lemma FixedBlockInverse(final: bool, v: seq<nat>, before: seq<byte>, after: seq<byte>)
    requires ExpandCodes(v, before) == Ok(after)
    ensures IsBlock(FixedBlock(final, v), before, after, final)
  {
    hide DataBits, At, FixedLl, FixedD, InflateBlock, InflateHuffmanBlock, InflateSymbols, Inflate.FixedTrees,
         ExpandCodes, Encodable, Decodes, BlockHead;
    ExpandableIsCodes(v, before);
    FixedEncodable(v);
    FixedHasWord(256);
    forall full: seq<byte>, bp: nat | At(full, bp, FixedBlock(final, v))
      ensures InflateBlock(full, bp, before) == Ok(Progress(bp + |FixedBlock(final, v)|, after, final))
    {
      AtSplit(full, bp, BlockHead(final, 1), DataBits(v, FixedLl(), FixedD()));
      var t := FixedTreesInverse(bp + 3);
      TreesDecodeOk(t, FixedLl(), FixedD());
      var end := DataInverse(t, FixedLl(), FixedD(), full, bp + 3, v, before, after);
      FixedBlockRead(full, bp + 3, t, before, end, after);
      HeadRead(full, bp, final, 1, before, end, after);
    }
  }

  // ----- streams of blocks

  /** A stream that starts with `w` has produced `sofar` when `w` has been read. */
  ghost predicate Produces(w: seq<bit>, sofar: seq<byte>) {
    forall full: seq<byte> {:trigger At(full, 0, w)} :: At(full, 0, w) ==>
      InflateBlocks(full, 0, []) == InflateBlocks(full, |w|, sofar)
  }

  /** Whatever follows `w`, decompression ends with `data`. */
  ghost predicate InflatesTo(w: seq<bit>, data: seq<byte>) {
    forall full: seq<byte> {:trigger At(full, 0, w)} :: At(full, 0, w) ==> InflateAll(full) == Ok(data)
  }

  lemma BlocksStep(full: seq<byte>, bp: nat, before: seq<byte>, end: nat, after: seq<byte>, final: bool)
    requires InflateBlock(full, bp, before) == Ok(Progress(end, after, final))
    ensures InflateBlocks(full, bp, before) == if final then Ok(after) else InflateBlocks(full, end, after)
  {
  }

  lemma AppendBlock(w: seq<bit>, block: seq<bit>, before: seq<byte>, after: seq<byte>, final: bool)
    requires Produces(w, before) && IsBlock(block, before, after, final)
    ensures if final then InflatesTo(w + block, after) else Produces(w + block, after)
  {
    hide At, InflateBlock, InflateBlocks;
    forall full: seq<byte> | At(full, 0, w + block)
      ensures InflateBlocks(full, 0, []) == if final then Ok(after) else InflateBlocks(full, |w + block|, after)
    {
      AtSplit(full, 0, w, block);
      BlocksStep(full, |w|, before, |w| + |block|, after, final);
    }
  }
}
