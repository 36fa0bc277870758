/** Writing the symbols of a block with the codes made for it. */
module BlockWriter {
  import opened Bits
  import opened BlockCodes
  import opened HuffmanCodes
  import opened Inflate
  import opened Lz77Codes
  import opened RunLengths

  /** The compressor's view of a HuffmanTree: code lengths and codes. */
  datatype Code = Code(lengths: seq<nat>, tree1d: seq<nat>)

  ghost predicate CodeOk(c: Code) {
    IsCodeTable(c.lengths, c.tree1d)
  }

  ghost function Words(c: Code): seq<seq<bit>> {
    Codewords(c.lengths)
  }

  /** addHuffmanSymbol: the code word of `symbol`. */
  method AddHuffmanSymbol(bs: BitStream, c: Code, symbol: nat)
    requires bs.Valid() && CodeOk(c) && symbol < |c.lengths|
    modifies bs
    ensures bs.Valid() && bs.Bits() == old(bs.Bits()) + Word(Words(c), symbol)
  {
    CodeTableIsCanonical(c.lengths, c.tree1d);
    bs.AddBitsReversed(c.tree1d[symbol], c.lengths[symbol]);
  }

  lemma WordInRange(c: Code, s: nat)
    requires HasWord(Words(c), s)
    ensures s < |c.lengths|
  {
  }

  /** The three values behind a length code. */
  method WriteRestOfPair(bs: BitStream, code: nat, extra: nat, codeD: nat, extraD: nat, d: Code)
    requires bs.Valid() && CodeOk(d) && FIRST_LENGTH_CODE_INDEX <= code <= LAST_LENGTH_CODE_INDEX
    requires codeD < 30 && codeD < |d.lengths|
    modifies bs
    ensures bs.Valid()
    ensures bs.Bits() == old(bs.Bits()) + ToBits(extra, LengthExtra(LengthIndex(code)))
            + DistanceBits(codeD, extraD, Words(d))
  {
    hide ToBits, Word, Words, Pow2, LengthExtra, DistanceExtra;
    var _, lengthBits := LookUpLength(code - FIRST_LENGTH_CODE_INDEX);
    var _, distanceBits := LookUpDistance(codeD);
    bs.AddBits(extra, lengthBits);
    AddHuffmanSymbol(bs, d, codeD);
    bs.AddBits(extraD, distanceBits);
  }

  lemma RestOfPair(w: seq<bit>, code: nat, extra: nat, codeD: nat, extraD: nat, ll: seq<seq<bit>>, d: seq<seq<bit>>)
    ensures w + Word(ll, code) + ToBits(extra, LengthExtra(LengthIndex(code))) + DistanceBits(codeD, extraD, d)
         == w + PairBits(code, extra, codeD, extraD, ll, d)
  {
    hide ToBits, DistanceBits, Word, LengthExtra;
  }

  lemma LeadingCode(v: seq<nat>, ll: seq<seq<bit>>, d: seq<seq<bit>>)
    requires v != [] && Encodable(v, ll, d)
    ensures HasWord(ll, v[0])
    ensures v[0] <= 255 ==> Encodable(v[1..], ll, d)
    ensures v[0] > 255 ==> StartsWithPair(v) && HasWord(d, v[2]) && Encodable(v[4..], ll, d)
  {
  }

  lemma LeadingLiteral(v: seq<nat>, ll: seq<seq<bit>>, d: seq<seq<bit>>)
    requires v != [] && v[0] <= 255
    ensures SymbolBits(v, ll, d) == Word(ll, v[0]) + SymbolBits(v[1..], ll, d)
  {
  }

  lemma LeadingPair(v: seq<nat>, ll: seq<seq<bit>>, d: seq<seq<bit>>)
    requires StartsWithPair(v)
    ensures SymbolBits(v, ll, d) == PairBits(v[0], v[1], v[2], v[3], ll, d) + SymbolBits(v[4..], ll, d)
  {
  }

  /** writeLZ77data */
  method WriteLz77Data(bs: BitStream, v: seq<nat>, ll: Code, d: Code)
    requires bs.Valid() && CodeOk(ll) && CodeOk(d)
    requires Encodable(v, Words(ll), Words(d))
    modifies bs
    ensures bs.Valid() && bs.Bits() == old(bs.Bits()) + SymbolBits(v, Words(ll), Words(d))
  {
    hide SymbolBits, PairBits, DistanceBits, Words, CodeOk, Encodable, HasWord;
    ghost var all := bs.Bits() + SymbolBits(v, Words(ll), Words(d));
    var i := 0;
    while i < |v|
      invariant i <= |v| && bs.Valid() && Encodable(v[i..], Words(ll), Words(d))
      invariant bs.Bits() + SymbolBits(v[i..], Words(ll), Words(d)) == all
    {
      ghost var before, rest := bs.Bits(), v[i..];
      LeadingCode(rest, Words(ll), Words(d));
      WordInRange(ll, rest[0]);
      AddHuffmanSymbol(bs, ll, v[i]);
      if v[i] <= 255 {
        LeadingLiteral(rest, Words(ll), Words(d));
        i := i + 1;
      } else {
        WordInRange(d, rest[2]);
        WriteRestOfPair(bs, v[i], v[i + 1], v[i + 2], v[i + 3], d);
        RestOfPair(before, rest[0], rest[1], rest[2], rest[3], Words(ll), Words(d));
        LeadingPair(rest, Words(ll), Words(d));
        i := i + 4;
      }
    }
    assert v[i..] == [];
    NothingLeft(Words(ll), Words(d));
  }

  lemma NothingLeft(ll: seq<seq<bit>>, d: seq<seq<bit>>)
    ensures SymbolBits([], ll, d) == []
  {
  }

  lemma RunsEnd(cl: seq<seq<bit>>)
    ensures RunsCovered([], cl) && RunBits([], cl) == []
  {
  }

  lemma LeadingRun(e: seq<nat>, cl: seq<seq<bit>>)
    requires e != [] && RunsCovered(e, cl)
    ensures HasWord(cl, e[0])
    ensures e[0] < 16 ==> RunsCovered(e[1..], cl) && RunBits(e, cl) == Word(cl, e[0]) + RunBits(e[1..], cl)
    ensures e[0] >= 16 ==> |e| >= 2 && RunsCovered(e[2..], cl)
                           && RunBits(e, cl) == Word(cl, e[0]) + ToBits(e[1], ExtraBits(e[0])) + RunBits(e[2..], cl)
  {
  }

  /** The loop of deflateDynamic that writes the code lengths of both alphabets. */
  method WriteRuns(bs: BitStream, e: seq<nat>, cl: Code)
    requires bs.Valid() && CodeOk(cl) && RunsCovered(e, Words(cl))
    requires |cl.lengths| == NUM_CODE_LENGTH_CODES
    modifies bs
    ensures bs.Valid() && bs.Bits() == old(bs.Bits()) + RunBits(e, Words(cl))
  {
    hide CodeOk, Words, RunBits, RunsCovered, ToBits;
    RunsEnd(Words(cl));
    ghost var all := bs.Bits() + RunBits(e, Words(cl));
    var i := 0;
    while i < |e|
      invariant i <= |e| && bs.Valid() && RunsCovered(e[i..], Words(cl))
      invariant bs.Bits() + RunBits(e[i..], Words(cl)) == all
    {
      ghost var before, rest := bs.Bits(), e[i..];
      LeadingRun(rest, Words(cl));
      WordInRange(cl, rest[0]);
      AddHuffmanSymbol(bs, cl, e[i]);
      if e[i] == 16 { bs.AddBits(e[i + 1], 2); i := i + 1; }
      else if e[i] == 17 { bs.AddBits(e[i + 1], 3); i := i + 1; }
      else if e[i] == 18 { bs.AddBits(e[i + 1], 7); i := i + 1; }
      i := i + 1;
      assert e[i..] == if rest[0] < 16 then rest[1..] else rest[2..];
    }
    assert e[i..] == [];
  }
}
