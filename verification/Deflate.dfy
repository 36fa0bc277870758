/** The compressor, lodepng_deflatev: for every input, whatever it writes is
    decompressed to that input. */
module Deflate {
  import opened Bits
  import opened BlockCodes
  import opened BlockContents
  import opened BlockWriter
  import opened DeflateBlocks
  import opened DynamicHeader
  import opened Frequencies
  import opened HuffmanCodes
  import opened Inflate
  import Inflater
  import opened Lz77
  import opened Lz77Steps
  import opened Matches
  import opened Lz77Codes
  import opened PackageMerge
  import opened RunLengths
  import opened Sequences
  import opened StoredBlocks
  import opened Unsigned32
  import opened Wrappers

  // ----- a block with dynamic codes

  lemma {:induction false} LiteralsExpand(v: seq<byte>, out: seq<byte>)
    ensures ExpandCodes(v, out) == Ok(out + v)
    decreases |v|
  {
    if v != [] {
      LiteralsExpand(v[1..], out + [v[0]]);
      assert out + [v[0]] + v[1..] == out + v;
    } else {
      assert out + v == out;
    }
  }

  /** The first `pos` bytes are in the hash; without LZ77 it is not used. */
  ghost predicate HashReady(hash: Hash, data: seq<byte>, pos: nat, settings: CompressSettings)
    reads hash, hash.head, hash.chain, hash.val, hash.headz, hash.chainz, hash.zeros
  {
    && hash.windowsize == settings.lz77.windowsize
    && (hash.windowsize > 0 && settings.useLz77 ==> hash.Ready(data, pos) && !hash.trail.forgotten)
  }

  /** The codes of data[datapos..dataend], with LZ77 or as plain literals. */
  method BlockSymbols(hash: Hash, data: seq<byte>, datapos: nat, dataend: nat, settings: CompressSettings)
    returns (error: nat, v: seq<nat>)
    requires datapos <= dataend <= |data| && (settings.useLz77 || datapos == 0)
    requires HashReady(hash, data, datapos, settings)
    modifies hash`trail, hash.head, hash.chain, hash.val, hash.headz, hash.chainz, hash.zeros
    ensures error == DeflateError(settings)
    ensures error == 0 ==> ExpandCodes(v, data[..datapos]) == Ok(data[..dataend])
    ensures error == 0 ==> IsContent(v, data, datapos, dataend, settings)
    ensures error == 0 && settings.useLz77 ==> HashReady(hash, data, dataend, settings)
  {
    hide Recorded, FollowsSearch;
    if settings.useLz77 {
      error, v := EncodeLZ77(hash, data, datapos, dataend, settings.lz77);
      if error == 0 {
        ContentFound(v, hash.trail.hashes, hash.trail.streaks, data, datapos, dataend, settings);
      }
    } else {
      error, v := 0, [];
      for i := datapos to dataend
        invariant v == data[datapos..i]
      {
        v := v + [data[i]];
      }
      LiteralsExpand(data[datapos..dataend], data[..datapos]);
      assert data[..datapos] + data[datapos..dataend] == data[..dataend];
    }
  }

  function DeflateError(settings: CompressSettings): nat {
    if settings.useLz77 then WindowError(settings.lz77.windowsize) else 0
  }

  lemma CountedIsEncodable(v: seq<nat>, fl: seq<nat>, fd: seq<nat>, ll: Code, d: Code)
    requires IsCodes(v) && Counted(v, fl, fd)
    requires forall s: nat :: Present(fl, s) ==> HasWord(Words(ll), s)
    requires forall s: nat :: Present(fd, s) ==> HasWord(Words(d), s)
    ensures Encodable(v, Words(ll), Words(d)) && HasWord(Words(ll), 256)
  {
    hide Words, Encodable, IsCodes;
    forall s | s in UsedSymbols(v) ensures HasWord(Words(ll), s) {
      UsedIsCounted(v, s);
      UsedInRange(v, s);
      assert Present(fl, s);
    }
    forall s | s in UsedDistances(v) ensures HasWord(Words(d), s) {
      UsedIsCounted(v, s);
      UsedInRange(v, s);
      assert Present(fd, s);
    }
    CoveredIsEncodable(v, Words(ll), Words(d));
    assert Present(fl, 256);
  }

  /** Both codes of a dynamic block. */
  method MakeBlockCodes(v: seq<nat>) returns (ll: Code, d: Code)
    requires IsCodes(v)
    ensures CodeOk(ll) && CodeOk(d) && Complete(ll.lengths, 15) && Complete(d.lengths, 15)
    ensures 257 <= |ll.lengths| <= 286 && 2 <= |d.lengths| <= 30
    ensures Encodable(v, Words(ll), Words(d)) && ll.lengths[256] > 0
    ensures CodesFor(v, ll.lengths, d.lengths)
  {
    hide CodeOk, Complete, IsCodes, MadeFor;
    var fl, fd := CountFrequencies(v);
    assert Pow2(15) >= 286 by { Pow2Table(); }
    var error;
    error, ll := MakeFromFrequencies(fl, 257, 15);
    error, d := MakeFromFrequencies(fd, 2, 15);
    CountedIsEncodable(v, fl, fd, ll, d);
    assert |Words(ll)[256]| == ll.lengths[256];
  }

  /** bitlen_cl: the code length code lengths in stored order, without the zeros
      at the end but at least four. */
  method StoreClLengths(cl: seq<nat>) returns (ordered: seq<nat>)
    requires |cl| == NUM_CODE_LENGTH_CODES && LengthsAtMost(cl, 7)
    ensures Stored(ordered, cl) && |ordered| >= 4
    ensures |ordered| > 4 ==> ordered[|ordered| - 1] != 0
    ensures forall k: nat {:trigger cl[k]} :: k < NUM_CODE_LENGTH_CODES ==>
              cl[k] == if PlaceOfSymbol(k) < |ordered| then ordered[PlaceOfSymbol(k)] else 0
  {
    OrderInRange();
    ordered := [];
    for i := 0 to NUM_CODE_LENGTH_CODES
      invariant |ordered| == i && forall j :: 0 <= j < i ==> ordered[j] == cl[CLCL_ORDER[j]]
    {
      ordered := ordered + [cl[CLCL_ORDER[i]]];
    }
    while ordered[|ordered| - 1] == 0 && |ordered| > 4
      invariant Stored(ordered, cl) && |ordered| >= 4
    {
      ordered := ordered[..|ordered| - 1];
    }
    forall k: nat | k < NUM_CODE_LENGTH_CODES
      ensures cl[k] == if PlaceOfSymbol(k) < |ordered| then ordered[PlaceOfSymbol(k)] else 0
    {
      OrderIsRule(PlaceOfSymbol(k));
    }
  }

  /** The run-length coded lengths of both codes and a code for them. */
  method DescribeCodes(ll: Code, d: Code) returns (cl: Code, ordered: seq<nat>, e: seq<nat>)
    requires LengthsAtMost(ll.lengths, 15) && LengthsAtMost(d.lengths, 15)
    ensures CodeOk(cl) && Complete(cl.lengths, 7) && Stored(ordered, cl.lengths) && |ordered| >= 4
    ensures Expand(e, []) == Ok(ll.lengths + d.lengths) && RunsCovered(e, Words(cl))
    ensures ShortDescription(e, cl.lengths, ordered)
  {
    hide CodeOk, Expand, RunsCovered, KraftSum, Words, MadeFor, Compact;
    e := RunLengthEncode(ll.lengths + d.lengths);
    var frequencies := CountRunFrequencies(e);
    assert Pow2(7) == 128;
    var error;
    error, cl := MakeFromFrequencies(frequencies, 19, 7);
    forall s | 0 <= s < 19 && RunCount(e, s) > 0 ensures HasWord(Words(cl), s) { assert Present(frequencies, s); }
    CountedRunsCovered(e, [], Words(cl));
    assert RunsCounted(e, frequencies);
    ordered := StoreClLengths(cl.lengths);
  }

  ghost function DescriptionOf(ll: Code, d: Code, cl: Code, ordered: seq<nat>, e: seq<nat>): Description {
    Description(ll.lengths, d.lengths, cl.lengths, ordered, e)
  }

  method WriteBlockHead(bs: BitStream, final: bool, btype: nat)
    requires bs.Valid() && 1 <= btype <= 2
    modifies bs
    ensures bs.Valid() && bs.Bits() == old(bs.Bits()) + BlockHead(final, btype)
  {
    bs.AddBit(if final then 1 else 0);
    bs.AddBit(btype % 2);
    bs.AddBit(btype / 2);
  }

  /** HLIT, HDIST, HCLEN and the code lengths of the code length code. */
  method WriteClLengths(bs: BitStream, ordered: seq<nat>, hlit: nat, hdist: nat)
    requires bs.Valid() && 257 <= hlit <= 286 && 1 <= hdist <= 30 && 4 <= |ordered| <= NUM_CODE_LENGTH_CODES
    modifies bs
    ensures bs.Valid()
    ensures bs.Bits() == old(bs.Bits()) + HeaderBits(Header(hlit, hdist, |ordered|)) + ClBits(ordered, |ordered|)
  {
    hide ToBits;
    bs.AddBits(hlit - 257, 5);
    bs.AddBits(hdist - 1, 5);
    bs.AddBits(|ordered| - 4, 4);
    ghost var head := HeaderBits(Header(hlit, hdist, |ordered|));
    assert bs.Bits() == old(bs.Bits()) + head;
    for i := 0 to |ordered|
      invariant bs.Valid() && bs.Bits() == old(bs.Bits()) + head + ClBits(ordered, i)
    {
      bs.AddBits(ordered[i], 3);
    }
  }

  method WriteDescription(bs: BitStream, ll: Code, d: Code, cl: Code, ordered: seq<nat>, e: seq<nat>)
    requires bs.Valid() && CodeOk(cl) && DescriptionOk(DescriptionOf(ll, d, cl, ordered, e))
    modifies bs
    ensures bs.Valid() && bs.Bits() == old(bs.Bits()) + DescriptionBits(DescriptionOf(ll, d, cl, ordered, e))
  {
    hide HeaderBits, ClBits, RunBits, Complete, CodeOk, Expand, RunsCovered;
    WriteClLengths(bs, ordered, |ll.lengths|, |d.lengths|);
    WriteRuns(bs, e, cl);
  }

  /** writeLZ77data and the end code. */
  method WriteData(bs: BitStream, v: seq<nat>, ll: Code, d: Code)
    requires bs.Valid() && CodeOk(ll) && CodeOk(d) && |ll.lengths| > 256 && ll.lengths[256] > 0
    requires Encodable(v, Words(ll), Words(d))
    modifies bs
    ensures bs.Valid() && bs.Bits() == old(bs.Bits()) + DataBits(v, Words(ll), Words(d))
  {
    hide CodeOk, Encodable, SymbolBits, Words;
    WriteLz77Data(bs, v, ll, d);
    if ll.lengths[256] == 0 { assert false; } // error 64
    AddHuffmanSymbol(bs, ll, 256);
  }

  /** Everything deflateDynamic writes for the symbols `v`. */
  method WriteDynamicBlock(bs: BitStream, v: seq<nat>, final: bool) returns (ghost x: Description)
    requires bs.Valid() && IsCodes(v)
    modifies bs
    ensures bs.Valid() && DescriptionOk(x) && Encodable(v, Codewords(x.ll), Codewords(x.d))
    ensures CodesFor(v, x.ll, x.d) && ShortDescription(x.e, x.cl, x.ordered)
    ensures bs.Bits() == old(bs.Bits()) + DynamicBlock(final, x, v)
  {
    hide IsCodes, Encodable, CodeOk, KraftSum, DescriptionBits, DataBits, BlockHead, Stored, RunsCovered, Expand,
      CodesFor, ShortDescription;
    var ll, d := MakeBlockCodes(v);
    var cl, ordered, e := DescribeCodes(ll, d);
    x := DescriptionOf(ll, d, cl, ordered, e);
    WriteBlockHead(bs, final, 2);
    WriteDescription(bs, ll, d, cl, ordered, e);
    WriteData(bs, v, ll, d);
  }

  /** deflateDynamic: a block that turns the data so far into data[..dataend]. */
  method DeflateDynamic(bs: BitStream, hash: Hash, data: seq<byte>, datapos: nat, dataend: nat,
                        settings: CompressSettings, final: bool)
    returns (error: nat, ghost block: seq<bit>)
    requires datapos <= dataend <= |data| && (settings.useLz77 || datapos == 0) && settings.btype == 2
    requires bs.Valid() && HashReady(hash, data, datapos, settings)
    modifies bs, hash`trail, hash.head, hash.chain, hash.val, hash.headz, hash.chainz, hash.zeros
    ensures error == DeflateError(settings)
    ensures error == 0 ==>
              && bs.Valid() && bs.Bits() == old(bs.Bits()) + block
              && IsBlock(block, data[..datapos], data[..dataend], final)
              && IsWritten(block, final, data, datapos, dataend, settings)
    ensures error == 0 && settings.useLz77 ==> HashReady(hash, data, dataend, settings)
  {
    hide IsBlock, ExpandCodes, Encodable, DynamicBlock, DescriptionOk, IsCodes, IsContent, CodesFor, ShortDescription;
    var v;
    error, v := BlockSymbols(hash, data, datapos, dataend, settings);
    block := [];
    if error != 0 { return; }
    ExpandableIsCodes(v, data[..datapos]);
    ghost var x := WriteDynamicBlock(bs, v, final);
    block := DynamicBlock(final, x, v);
    DynamicBlockInverse(final, x, v, data[..datapos], data[..dataend]);
  }

  // ----- a block with fixed codes

  /** generateFixedLitLenTree and generateFixedDistanceTree for the compressor. */
  method FixedCodes() returns (ll: Code, d: Code)
    ensures CodeOk(ll) && CodeOk(d) && ll.lengths == FixedLitLenLengths() && d.lengths == FixedDistanceLengths()
  {
    var codesLl := MakeCodes(FixedLitLenLengths(), 15);
    var codesD := MakeCodes(FixedDistanceLengths(), 15);
    ll := Code(FixedLitLenLengths(), codesLl[..]);
    d := Code(FixedDistanceLengths(), codesD[..]);
  }

  /** Literals written one by one. */
  method WriteLiterals(bs: BitStream, data: seq<byte>, datapos: nat, dataend: nat, ll: Code, ghost d: seq<seq<bit>>)
    requires bs.Valid() && CodeOk(ll) && |ll.lengths| > 256 && datapos <= dataend <= |data|
    modifies bs
    ensures bs.Valid() && bs.Bits() == old(bs.Bits()) + SymbolBits(data[datapos..dataend], Words(ll), d)
  {
    hide CodeOk, Words, SymbolBits;
    ghost var all := bs.Bits() + SymbolBits(data[datapos..dataend], Words(ll), d);
    for i := datapos to dataend
      invariant bs.Valid() && bs.Bits() + SymbolBits(data[i..dataend], Words(ll), d) == all
    {
      ghost var rest := data[i..dataend];
      assert rest[1..] == data[i + 1..dataend];
      LeadingLiteral(rest, Words(ll), d);
      AddHuffmanSymbol(bs, ll, data[i]);
    }
    NothingLeft(Words(ll), d);
    assert data[dataend..dataend] == [];
  }

  /** The data of a block with fixed codes. */
  method WriteFixedData(bs: BitStream, hash: Hash, data: seq<byte>, datapos: nat, dataend: nat,
                        settings: CompressSettings, ll: Code, d: Code)
    returns (error: nat, ghost v: seq<nat>)
    requires datapos <= dataend <= |data| && bs.Valid() && HashReady(hash, data, datapos, settings)
    requires CodeOk(ll) && CodeOk(d) && Words(ll) == FixedLl() && Words(d) == FixedD()
    modifies bs, hash`trail, hash.head, hash.chain, hash.val, hash.headz, hash.chainz, hash.zeros
    ensures bs.Valid() && error == DeflateError(settings)
    ensures error == 0 ==>
              && ExpandCodes(v, data[..datapos]) == Ok(data[..dataend])
              && bs.Bits() == old(bs.Bits()) + SymbolBits(v, FixedLl(), FixedD())
              && IsContent(v, data, datapos, dataend, settings)
    ensures error == 0 && settings.useLz77 ==> HashReady(hash, data, dataend, settings)
  {
    hide ExpandCodes, Encodable, SymbolBits, FixedLl, FixedD, Words, CodeOk, Recorded, FollowsSearch;
    error := 0;
    if settings.useLz77 {
      var encoded;
      error, encoded := EncodeLZ77(hash, data, datapos, dataend, settings.lz77);
      v := encoded;
      if error == 0 {
        ExpandableIsCodes(v, data[..datapos]);
        FixedEncodable(v);
        ContentFound(v, hash.trail.hashes, hash.trail.streaks, data, datapos, dataend, settings);
        WriteLz77Data(bs, encoded, ll, d);
      }
    } else {
      FixedHasWord(256);
      WordInRange(ll, 256);
      WriteLiterals(bs, data, datapos, dataend, ll, FixedD());
      v := data[datapos..dataend];
      LiteralsExpand(data[datapos..dataend], data[..datapos]);
      assert data[..datapos] + data[datapos..dataend] == data[..dataend];
    }
  }

  /** deflateFixed */
  method DeflateFixed(bs: BitStream, hash: Hash, data: seq<byte>, datapos: nat, dataend: nat,
                      settings: CompressSettings, final: bool)
    returns (error: nat, ghost block: seq<bit>)
    requires datapos <= dataend <= |data| && bs.Valid() && HashReady(hash, data, datapos, settings)
    requires settings.btype == 1
    modifies bs, hash`trail, hash.head, hash.chain, hash.val, hash.headz, hash.chainz, hash.zeros
    ensures error == DeflateError(settings)
    ensures error == 0 ==>
              && bs.Valid() && bs.Bits() == old(bs.Bits()) + block
              && IsBlock(block, data[..datapos], data[..dataend], final)
              && IsWritten(block, final, data, datapos, dataend, settings)
    ensures error == 0 && settings.useLz77 ==> HashReady(hash, data, dataend, settings)
  {
    hide IsBlock, ExpandCodes, SymbolBits, CodeOk, BlockHead, IsContent, HashReady, Hash.Valid, Codewords,
      FixedLitLenLengths, FixedDistanceLengths;
    var ll, d := FixedCodes();
    WriteBlockHead(bs, final, 1);
    ghost var v;
    error, v := WriteFixedData(bs, hash, data, datapos, dataend, settings, ll, d);
    block := [];
    if error == 0 {
      AddHuffmanSymbol(bs, ll, 256);
      block := FixedBlock(final, v);
      FixedBlockInverse(final, v, data[..datapos], data[..dataend]);
    }
  }

  // ----- the whole stream

  method CountBlocks(insize: nat, blocksize: nat) returns (n: nat)
    requires blocksize > 0
    ensures n > 0 && IsBlockCount(n, insize, blocksize)
  {
    n := (insize + blocksize - 1) / blocksize;
    AtLeastOne(insize, blocksize, n);
    if n == 0 { n := 1; }
  }

  lemma AtLeastOne(insize: nat, blocksize: nat, n: nat)
    requires blocksize > 0 && n == (insize + blocksize - 1) / blocksize
    ensures n == 0 <==> insize == 0
  {
    assert n * blocksize <= insize + blocksize - 1 < n * blocksize + blocksize;
  }

  /** Block `i` of `n` starts inside the data, and only the last one reaches its end. */
  lemma BlockBounds(insize: nat, blocksize: nat, n: nat, i: nat)
    requires blocksize > 0 && i < n && IsBlockCount(n, insize, blocksize)
    ensures Start(i, blocksize) <= insize && Start(i + 1, blocksize) == Start(i, blocksize) + blocksize
    ensures i < n - 1 <==> Start(i + 1, blocksize) < insize
  {
    CountFits(insize, blocksize, n);
    hide IsBlockCount;
    StartMonotone(i, n - 1, blocksize);
    if i < n - 1 { StartMonotone(i + 1, n - 1, blocksize); }
  }

  lemma CountFits(insize: nat, blocksize: nat, n: nat)
    requires blocksize > 0 && IsBlockCount(n, insize, blocksize)
    ensures if insize == 0 then n == 1 else insize <= Start(n, blocksize) < insize + blocksize
  {
    StartIsProduct(n, blocksize);
    assert insize > 0 ==> n * blocksize <= insize + blocksize - 1 < n * blocksize + blocksize;
  }

  lemma NoBlocks(blocksize: nat)
    ensures Start(0, blocksize) == 0
  {
  }

  /** The stream so far, behind the first `start` bytes of the data. */
  ghost predicate Progressed(w: seq<bit>, data: seq<byte>, start: nat, finished: bool)
    requires start <= |data|
  {
    if finished then InflatesTo(w, data) else Produces(w, data[..start])
  }

  lemma BitsSuffice(bs: BitStream, data: seq<byte>)
    requires bs.Valid() && Progressed(bs.Bits(), data, |data|, true)
    ensures DecompressesTo(bs.data, data)
  {
    hide InflateAll, At;
    bs.Written();
    forall rest: seq<byte> ensures InflateAll(bs.data + rest) == Ok(data) {
      AtPrefix(bs.data, bs.data + rest, 0, bs.Bits());
    }
  }

  lemma ProgressStep(w: seq<bit>, block: seq<bit>, data: seq<byte>, start: nat, end: nat, final: bool)
    requires start <= end <= |data| && (final ==> end == |data|)
    requires Progressed(w, data, start, false) && IsBlock(block, data[..start], data[..end], final)
    ensures Progressed(w + block, data, end, final)
  {
    hide InflatesTo, Produces, IsBlock;
    AppendBlock(w, block, data[..start], data[..end], final);
    assert data[..|data|] == data;
  }

  /** One more block, of either kind. */
  method NextBlock(bs: BitStream, hash: Hash, data: seq<byte>, start: nat, end: nat, settings: CompressSettings,
                   final: bool)
    returns (error: nat, ghost block: seq<bit>)
    requires start <= end <= |data| && (final ==> end == |data|) && (settings.useLz77 || start == 0)
    requires 1 <= settings.btype <= 2 && bs.Valid() && Progressed(bs.Bits(), data, start, false)
    requires HashReady(hash, data, start, settings)
    modifies bs, hash`trail, hash.head, hash.chain, hash.val, hash.headz, hash.chainz, hash.zeros
    ensures error == DeflateError(settings)
    ensures error == 0 ==> bs.Valid() && Progressed(bs.Bits(), data, end, final) && HashReady(hash, data, end, settings)
    ensures error == 0 ==>
              bs.Bits() == old(bs.Bits()) + block && IsWritten(block, final, data, start, end, settings)
  {
    hide Progressed, IsBlock, Hash.Valid, IsWritten;
    ghost var before := bs.Bits();
    if settings.btype == 1 {
      error, block := DeflateFixed(bs, hash, data, start, end, settings, final);
    } else {
      error, block := DeflateDynamic(bs, hash, data, start, end, settings, final);
    }
    if error == 0 { ProgressStep(before, block, data, start, end, final); }
  }

  /** The first `i` blocks have been written. */
  ghost predicate WrittenSoFar(w: seq<bit>, blocks: seq<seq<bit>>, i: nat, n: nat, data: seq<byte>, blocksize: nat,
                               settings: CompressSettings) {
    && |blocks| == i && AreBlocks(blocks, n, data, blocksize, settings) && w == Joined(blocks)
    && i <= n && (i < n ==> Start(i, blocksize) <= |data|)
    && Progressed(w, data, if i < n then Start(i, blocksize) else |data|, i == n)
  }

  lemma BlockWritten(before: seq<bit>, blocks: seq<seq<bit>>, i: nat, n: nat, data: seq<byte>, blocksize: nat,
                     settings: CompressSettings, block: seq<bit>, end: nat)
    requires blocksize > 0 && IsBlockCount(n, |data|, blocksize) && i < n
    requires WrittenSoFar(before, blocks, i, n, data, blocksize, settings)
    requires end == EndOfBlock(i, blocksize, |data|)
    requires IsWritten(block, i == n - 1, data, Start(i, blocksize), end, settings)
    requires Progressed(before + block, data, end, i == n - 1)
    ensures WrittenSoFar(before + block, blocks + [block], i + 1, n, data, blocksize, settings)
    ensures i < n - 1 ==> end == Start(i + 1, blocksize)
    ensures i == n - 1 ==> end == |data|
  {
    hide IsBlockCount, Start, Progressed, IsWritten, AreBlocks, Joined;
    BlockBounds(|data|, blocksize, n, i);
    OneMoreBlock(blocks, block, n, data, blocksize, settings);
  }

  method WriteBlocks(bs: BitStream, hash: Hash, data: seq<byte>, settings: CompressSettings, blocksize: nat, n: nat)
    returns (error: nat, ghost blocks: seq<seq<bit>>)
    requires 1 <= settings.btype <= 2 && blocksize > 0 && n > 0 && IsBlockCount(n, |data|, blocksize)
    requires settings.useLz77 || |data| <= blocksize
    requires bs.Valid() && Progressed(bs.Bits(), data, 0, false) && HashReady(hash, data, 0, settings)
    requires bs.Bits() == []
    modifies bs, hash`trail, hash.head, hash.chain, hash.val, hash.headz, hash.chainz, hash.zeros
    ensures error == DeflateError(settings)
    ensures error == 0 ==> bs.Valid() && WrittenSoFar(bs.Bits(), blocks, n, n, data, blocksize, settings)
  {
    hide IsBlockCount, Start, Progressed, HashReady, Hash.Valid, IsWritten, AreBlocks;
    var insize := |data|;
    error := 0;
    blocks := [];
    var i := 0;
    NoBlocks(blocksize);
    NothingWritten(n, data, blocksize, settings);
    BlockBounds(insize, blocksize, n, 0);
    while i != n && error == 0
      invariant i <= n && (i == 0 ==> error == 0)
      invariant i > 0 ==> error == DeflateError(settings)
      invariant error == 0 ==>
                  && bs.Valid() && WrittenSoFar(bs.Bits(), blocks, i, n, data, blocksize, settings)
                  && HashReady(hash, data, if i < n then Start(i, blocksize) else insize, settings)
      decreases n - i
    {
      BlockBounds(insize, blocksize, n, i);
      ghost var before := bs.Bits();
      var final := i == n - 1;
      var start := RowOffset(blocksize, i);
      var end := start + blocksize;
      if end > insize { end := insize; }
      ghost var block;
      error, block := NextBlock(bs, hash, data, start, end, settings, final);
      if error == 0 { BlockWritten(before, blocks, i, n, data, blocksize, settings, block, end); }
      blocks := blocks + [block];
      i := i + 1;
    }
  }

  lemma NothingWritten(n: nat, data: seq<byte>, blocksize: nat, settings: CompressSettings)
    ensures AreBlocks([], n, data, blocksize, settings) && Joined([]) == []
  {
  }

  /** The blocks of types 1 and 2. */
  method DeflateHuffman(data: seq<byte>, settings: CompressSettings) returns (error: nat, out: seq<byte>)
    requires 1 <= settings.btype <= 2 && BlockSize(settings.btype, |data|) > 0
    requires settings.useLz77 || |data| <= BlockSize(settings.btype, |data|)
    ensures error == DeflateError(settings)
    ensures error == 0 ==> DecompressesTo(out, data) && IsStream(out, data, settings)
  {
    hide InflatesTo, Produces, IsBlock, DecompressesTo, BlockSize, IsBlockCount, Hash.Valid, AreBlocks;
    var blocksize := BlockSize(settings.btype, |data|);
    var numdeflateblocks := CountBlocks(|data|, blocksize);
    var hash := new Hash(settings.lz77.windowsize);
    var bs := new BitStream();
    NothingRead();
    ghost var blocks;
    error, blocks := WriteBlocks(bs, hash, data, settings, blocksize, numdeflateblocks);
    out := bs.data;
    if error == 0 { BitsSuffice(bs, data); }
  }

  lemma NothingRead()
    ensures Produces([], [])
  {
  }

  /** The data that the decompressor sees. */
  ghost function Kept(data: seq<byte>, btype: nat): seq<byte> {
    if btype == 0 then StoredBytes(data) else data
  }

  /** Compression keeps the data: in blocks of types 1 and 2 always, in stored
      blocks under their condition. */
  ghost predicate Lossless(data: seq<byte>, btype: nat) {
    btype != 0 || ComesBack(data)
  }

  lemma KeptIsData(data: seq<byte>, btype: nat)
    requires btype != 0 || data != []
    ensures Kept(data, btype) == data <==> Lossless(data, btype)
  {
    hide StoredBytes, ComesBack;
    if btype == 0 { StoredIsData(data); }
  }

  /** lodepng_deflatev: whatever follows the output, lodepng_inflatev gives back
      what has been kept of the input.  With block type 1 no input makes the source
      divide by zero, and without LZ77 its copy of the literals only fits in the
      first block. */
  method DeflateV(data: seq<byte>, settings: CompressSettings) returns (error: nat, out: seq<byte>)
    requires settings.btype == 1 ==> data != []
    requires settings.useLz77 || settings.btype != 2 || |data| <= BlockSize(2, |data|)
    ensures error == if settings.btype > 2 then 61 else if settings.btype == 0 then 0 else DeflateError(settings)
    ensures error == 0 && (settings.btype != 0 || data != []) ==> DecompressesTo(out, Kept(data, settings.btype))
    ensures error == 0 && settings.btype != 0 ==> IsStream(out, data, settings)
    ensures settings.btype == 0 && 0 < |data| < WORD ==>
              65535 * (BlockCount(|data|) - 1) < |data| && out == FirstBlocks(data, BlockCount(|data|))
    ensures settings.btype == 0 && data == [] ==> out == []
  {
    hide DecompressesTo, StoredBytes, IsStream, FirstBlocks, BlockCount;
    error, out := 0, [];
    if settings.btype > 2 { return 61, []; }
    else if settings.btype == 0 { out := DeflateNoCompression(data); }
    else { error, out := DeflateHuffman(data, settings); }
  }

  /** No data at all in stored blocks is refused. */
  lemma NothingStoredIsRefused()
    ensures InflateAll([]) == Error(52)
  {
  }

  lemma NothingDoesNotComeBack()
    ensures !ComesBack([])
  {
  }

  /** Compressing and decompressing returns what has been kept, and so the input
      exactly if it has been kept. */
  method CompressAndDecompress(data: seq<byte>, settings: CompressSettings) returns (error: nat, result: seq<byte>)
    requires settings.btype == 1 ==> data != []
    requires settings.useLz77 || settings.btype != 2 || |data| <= BlockSize(2, |data|)
    requires settings.btype <= 2 && (settings.btype > 0 ==> DeflateError(settings) == 0)
    ensures error == if settings.btype != 0 || data != [] then 0 else 52
    ensures error == 0 ==> result == Kept(data, settings.btype)
    ensures error == 0 && result == data <==> Lossless(data, settings.btype)
  {
    hide InflateBlocks, StoredBytes, Kept, ComesBack;
    var out;
    error, out := DeflateV(data, settings);
    assert out + [] == out;
    var inflater := new Inflater.Inflater(out);
    error := inflater.InflateV();
    result := inflater.out;
    if data == [] && settings.btype == 0 {
      NothingStoredIsRefused();
      NothingDoesNotComeBack();
    } else {
      KeptIsData(data, settings.btype);
    }
  }
}
