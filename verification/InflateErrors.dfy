/** Which error code a malformed stream gets, told from its bits. */
module InflateErrors {
  import opened Bits
  import opened HuffmanTree
  import opened Inflate
  import opened Lz77Codes
  import opened RunLengths
  import opened Wrappers

  lemma ReadTwoBytes(s: seq<byte>, i: nat)
    requires i + 2 <= |s|
    ensures ReadBits(s, 8 * i, 16) == s[i] as int + 256 * s[i + 1] as int
  {
    hide ReadBits;
    assert Pow2(8) == 256;
    ReadByte(s, i);
    ReadByte(s, i + 1);
    ReadBitsJoin(s, 8 * i, 8, 8);
  }

  /** A stored block starts at the next byte boundary with its length and the ones'
      complement of this, 16 bits each. */
  lemma StoredBlockErrors(s: seq<byte>, bp: nat, out: seq<byte>, p: nat)
    requires p == (bp + 7) / 8
    ensures p + 4 >= |s| ==> InflateNoCompression(s, bp, out) == Error(52)
    ensures p + 4 < |s| ==>
              var len, nlen := ReadBits(s, 8 * p, 16), ReadBits(s, 8 * p + 16, 16);
              && (InflateNoCompression(s, bp, out) == Error(21) <==> nlen != 65535 - len)
              && (InflateNoCompression(s, bp, out) == Error(23) <==> nlen == 65535 - len && p + 4 + len > |s|)
              && (nlen == 65535 - len && p + 4 + len <= |s| ==>
                    InflateNoCompression(s, bp, out)
                    == Ok(Progress(8 * (p + 4 + len), out + s[p + 4..p + 4 + len], true)))
  {
    hide ReadBits;
    if p + 4 < |s| {
      ReadTwoBytes(s, p);
      ReadTwoBytes(s, p + 2);
      assert 8 * p + 16 == 8 * (p + 2);
    }
  }

  /** Three bits tell whether the block is the last one and its type; type 3 does not exist. */
  lemma BlockErrors(s: seq<byte>, bp: nat, out: seq<byte>)
    ensures bp + 3 > 8 * |s| ==> InflateBlock(s, bp, out) == Error(52)
    ensures bp + 3 <= 8 * |s| ==>
              var btype := ReadBits(s, bp + 1, 2);
              && (btype == 3 ==> InflateBlock(s, bp, out) == Error(20))
              && (btype == 0 ==> SameEnd(InflateBlock(s, bp, out), InflateNoCompression(s, bp + 3, out), s, bp))
              && (1 <= btype <= 2 ==>
                    SameEnd(InflateBlock(s, bp, out), InflateHuffmanBlock(s, bp + 3, out, btype), s, bp))
  {
    if bp + 3 <= 8 * |s| {
      assert ReadBits(s, bp + 1, 2) == StreamBit(s, bp + 1) + 2 * ReadBits(s, bp + 2, 1);
      assert ReadBits(s, bp + 2, 1) == StreamBit(s, bp + 2) + 2 * ReadBits(s, bp + 3, 0);
      hide StreamBit, InflateNoCompression, InflateHuffmanBlock;
    }
  }

  /** The block ends with the same data or error, and is the last one if its first bit says so. */
  predicate SameEnd(block: Result<Progress>, rest: Result<Progress>, s: seq<byte>, bp: nat)
    requires bp < 8 * |s|
  {
    match rest
    case Error(e) => block == Error(e)
    case Ok(p) => block == Ok(Progress(p.bp, p.out, StreamBit(s, bp) == 1))
  }

  /** The three counts of a description have 5, 5 and 4 bits and start at 257, 1 and 4. */
  lemma HeaderErrors(s: seq<byte>, bp: nat)
    ensures ReadHeader(s, bp) == Error(49) <==> bp + 14 > 8 * |s|
    ensures bp + 14 <= 8 * |s| ==>
              var all := ReadBits(s, bp, 14);
              var hclen := all / 1024 + 4;
              && (ReadHeader(s, bp) == Error(50) <==> bp + 14 + 3 * hclen > 8 * |s|)
              && (bp + 14 + 3 * hclen <= 8 * |s| ==>
                    ReadHeader(s, bp) == Ok(Header(all % 32 + 257, all / 32 % 32 + 1, hclen)))
  {
    hide ReadBits;
    if bp + 14 <= 8 * |s| {
      assert Pow2(5) == 32 && Pow2(4) == 16;
      ReadBitsJoin(s, bp, 5, 9);
      ReadBitsJoin(s, bp + 5, 5, 4);
      ThreeParts(ReadBits(s, bp, 5), ReadBits(s, bp + 5, 5), ReadBits(s, bp + 10, 4));
    }
  }

  lemma ThreeParts(a: nat, b: nat, c: nat)
    requires a < 32 && b < 32
    ensures var all := a + 32 * (b + 32 * c); all % 32 == a && all / 32 % 32 == b && all / 1024 == c
  {
    var all := a + 32 * (b + 32 * c);
    assert all / 32 == b + 32 * c;
  }

  /** A repeat code can have nothing to repeat (54), no room for its extra bits (50) or
      more lengths than there are symbols (13, 14, 15). */
  lemma RepeatErrors(tree: seq<nat>, s: seq<byte>, bp: nat, total: nat, acc: seq<nat>, code: nat, bp1: nat)
    requires |tree| >= 2 && |acc| < total && DecodeSymbol(tree, s, bp) == (code, bp1) && 16 <= code <= 18
    ensures var n := ExtraBits(code);
            var r := ReadLength(tree, s, bp, total, acc);
            && (r == Error(54) <==> code == 16 && acc == [])
            && (r == Error(50) <==> !(code == 16 && acc == []) && bp1 + n > 8 * |s|)
            && (code == 16 && acc != [] && bp1 + n <= 8 * |s| ==>
                  (r == Error(13) <==> |acc| + 3 + ReadBits(s, bp1, 2) > total))
            && (code == 17 && bp1 + n <= 8 * |s| ==> (r == Error(14) <==> |acc| + 3 + ReadBits(s, bp1, 3) > total))
            && (code == 18 && bp1 + n <= 8 * |s| ==> (r == Error(15) <==> |acc| + 11 + ReadBits(s, bp1, 7) > total))
  {
    hide DecodeSymbol, ReadBits;
  }

  /** A pair can lack its extra bits (51), have no distance (18) or reach back behind
      the start of the output (52). */
  lemma PairErrors(d: seq<nat>, s: seq<byte>, code: nat, bp: nat, out: seq<byte>)
    requires |d| == 2 * NUM_DISTANCE_SYMBOLS && 257 <= code <= 285
    ensures LengthExtra(code - 257) + bp > 8 * |s| ==> InflatePair(d, s, code, bp, out) == Error(51)
    ensures LengthExtra(code - 257) + bp <= 8 * |s| ==>
              var length, bp1 := LengthBase(code - 257) + ReadBits(s, bp, LengthExtra(code - 257)),
                                 bp + LengthExtra(code - 257);
              var (symbol, bp2) := DecodeSymbol(d, s, bp1);
              && (symbol > 29 ==> InflatePair(d, s, code, bp, out) == Error(18))
              && (symbol <= 29 && bp2 + DistanceExtra(symbol) > 8 * |s| ==>
                    InflatePair(d, s, code, bp, out) == Error(51))
              && (symbol <= 29 && bp2 + DistanceExtra(symbol) <= 8 * |s| ==>
                    var distance := DistanceBase(symbol) + ReadBits(s, bp2, DistanceExtra(symbol));
                    InflatePair(d, s, code, bp, out)
                    == if distance > |out| then Error(52)
                       else Ok(Progress(bp2 + DistanceExtra(symbol), Copy(out, distance, length), false)))
  {
    hide DecodeFrom, ReadBits, LengthBase, LengthExtra, DistanceBase, DistanceExtra, Copy;
  }
}
