/** What the blocks of a compressed stream are made of: how the input is cut, which
    codes stand for each part of it, and which Huffman codes these are written with. */
module BlockContents {
  import opened Bits
  import opened DeflateBlocks
  import opened DynamicHeader
  import opened Frequencies
  import opened Lz77Steps
  import opened Matches
  import opened PackageMerge
  import opened RunLengths
  import opened Sequences

  /** LodePNGCompressSettings */
  datatype CompressSettings = CompressSettings(btype: nat, useLz77: bool, lz77: Lz77Settings)

  // ----- one block

  /** The codes for data[start..end]: those that follow from the search, or without
      LZ77 the bytes themselves. */
  ghost predicate IsContent(v: seq<nat>, data: seq<byte>, start: nat, end: nat, settings: CompressSettings)
    requires start <= end <= |data|
  {
    if settings.useLz77 then
      exists hs: seq<nat>, ss: seq<nat> {:trigger FollowsSearch(v, hs, ss, data, start, end, settings.lz77)} ::
        Recorded(hs, ss, data, start, end) && FollowsSearch(v, hs, ss, data, start, end, settings.lz77)
    else v == data[start..end]
  }

  lemma ContentFound(v: seq<nat>, hs: seq<nat>, ss: seq<nat>, data: seq<byte>, start: nat, end: nat,
                     settings: CompressSettings)
    requires start <= end <= |data| && settings.useLz77
    requires Recorded(hs, ss, data, start, end) && FollowsSearch(v, hs, ss, data, start, end, settings.lz77)
    ensures IsContent(v, data, start, end, settings)
  {
    hide Recorded, FollowsSearch;
  }

  /** A code for these counts, without absent symbols at the end, that no other code
      with words of up to `max` bits is cheaper than. */
  ghost predicate CheapestCode(lengths: seq<nat>, frequencies: seq<nat>, mincodes: nat, max: nat) {
    && mincodes <= |frequencies| && |lengths| == Trimmed(frequencies, mincodes)
    && MadeFor(lengths, frequencies[..|lengths|], max)
  }

  /** Both codes of a block are made for what occurs in it. */
  ghost predicate CodesFor(v: seq<nat>, ll: seq<nat>, d: seq<nat>) {
    exists fl: seq<nat>, fd: seq<nat> {:trigger Counted(v, fl, fd)} ::
      Counted(v, fl, fd) && CheapestCode(ll, fl, 257, 15) && CheapestCode(d, fd, 2, 15)
  }

  ghost predicate RunsCounted(e: seq<nat>, f: seq<nat>) {
    |f| == 19 && forall s :: 0 <= s < 19 ==> f[s] == RunCount(e, s)
  }

  /** Their description is run-length coded as far as possible and uses a code that
      is made for it, whose own lengths end with one that is not zero. */
  ghost predicate ShortDescription(e: seq<nat>, cl: seq<nat>, ordered: seq<nat>) {
    && Compact(e, NO_TAIL)
    && (exists f: seq<nat> {:trigger RunsCounted(e, f)} :: RunsCounted(e, f) && CheapestCode(cl, f, 19, 7))
    && (|ordered| > 4 ==> ordered[|ordered| - 1] != 0)
  }

  ghost predicate IsDynamicBlock(w: seq<bit>, final: bool, v: seq<nat>) {
    exists x: Description {:trigger DescriptionOk(x)} ::
      && DescriptionOk(x) && w == DynamicBlock(final, x, v)
      && CodesFor(v, x.ll, x.d) && ShortDescription(x.e, x.cl, x.ordered)
  }

  /** The block that the settings ask for. */
  ghost predicate IsWritten(w: seq<bit>, final: bool, data: seq<byte>, start: nat, end: nat, settings: CompressSettings)
    requires start <= end <= |data|
  {
    exists v: seq<nat> {:trigger IsContent(v, data, start, end, settings)} ::
      && IsContent(v, data, start, end, settings)
      && if settings.btype == 1 then w == FixedBlock(final, v) else IsDynamicBlock(w, final, v)
  }

  // ----- all blocks

  function BlockSize(btype: nat, insize: nat): nat {
    if btype == 1 then insize
    else if insize / 8 + 8 < 65536 then 65536
    else if insize / 8 + 8 > 262144 then 262144
    else insize / 8 + 8
  }

  /** Blocks with dynamic codes hold an eighth of the input and a bit more, but not
      less than 65536 and not more than 262144 bytes. */
  lemma SizeOfBlocks(insize: nat)
    ensures BlockSize(1, insize) == insize && 65536 <= BlockSize(2, insize) <= 262144
    ensures BlockSize(2, insize) > 65536 ==> 8 * BlockSize(2, insize) <= insize + 64
    ensures BlockSize(2, insize) < 262144 ==> insize + 56 < 8 * BlockSize(2, insize)
  {
  }

  /** How many blocks of `blocksize` bytes lodepng_deflatev makes; at least one. */
  ghost predicate IsBlockCount(n: nat, insize: nat, blocksize: nat)
    requires blocksize > 0
  {
    n == if insize == 0 then 1 else (insize + blocksize - 1) / blocksize
  }

  /** The first blocks of `n`: cut at multiples of the block size, and only the last
      one is marked as such. */
  ghost predicate AreBlocks(blocks: seq<seq<bit>>, n: nat, data: seq<byte>, blocksize: nat,
                            settings: CompressSettings) {
    |blocks| <= n && forall i: nat {:trigger blocks[i]} :: i < |blocks| ==>
      && Start(i, blocksize) <= |data|
      && IsWritten(blocks[i], i == n - 1, data, Start(i, blocksize), EndOfBlock(i, blocksize, |data|), settings)
  }

  function EndOfBlock(i: nat, blocksize: nat, insize: nat): (end: nat)
    ensures Start(i, blocksize) <= insize ==> Start(i, blocksize) <= end <= insize
  {
    if Start(i, blocksize) + blocksize > insize then insize else Start(i, blocksize) + blocksize
  }

  lemma EndInside(i: nat, blocksize: nat, insize: nat)
    ensures Start(i, blocksize) <= insize ==> Start(i, blocksize) <= EndOfBlock(i, blocksize, insize) <= insize
  {
  }

  ghost function Joined(blocks: seq<seq<bit>>): seq<bit> {
    if blocks == [] then [] else Joined(blocks[..|blocks| - 1]) + blocks[|blocks| - 1]
  }

  lemma OneMoreBlock(blocks: seq<seq<bit>>, w: seq<bit>, n: nat, data: seq<byte>, blocksize: nat,
                     settings: CompressSettings)
    requires AreBlocks(blocks, n, data, blocksize, settings) && |blocks| < n
    requires Start(|blocks|, blocksize) <= |data|
    requires IsWritten(w, |blocks| == n - 1, data, Start(|blocks|, blocksize),
                       EndOfBlock(|blocks|, blocksize, |data|), settings)
    ensures AreBlocks(blocks + [w], n, data, blocksize, settings) && Joined(blocks + [w]) == Joined(blocks) + w
  {
    hide IsWritten, Start, EndOfBlock;
    var more := blocks + [w];
    assert more[..|blocks|] == blocks;
    forall i: nat | i < |more|
      ensures Start(i, blocksize) <= |data|
      ensures Start(i, blocksize) <= EndOfBlock(i, blocksize, |data|) <= |data|
      ensures IsWritten(more[i], i == n - 1, data, Start(i, blocksize), EndOfBlock(i, blocksize, |data|), settings)
    {
      if i < |blocks| { assert more[i] == blocks[i]; }
      EndInside(i, blocksize, |data|);
    }
  }

  /** The bytes hold these bits, the last byte filled up with zeros. */
  ghost predicate AreBytesOf(out: seq<byte>, w: seq<bit>) {
    |w| <= 8 * |out| && Holds(out, |w|) && FirstBits(out, |w|) == w
  }

  /** The whole stream for `data`. */
  ghost predicate IsStream(out: seq<byte>, data: seq<byte>, settings: CompressSettings) {
    exists blocks: seq<seq<bit>> {:trigger Joined(blocks)} ::
      var blocksize := BlockSize(settings.btype, |data|);
      && blocksize > 0 && IsBlockCount(|blocks|, |data|, blocksize)
      && AreBlocks(blocks, |blocks|, data, blocksize, settings) && AreBytesOf(out, Joined(blocks))
  }
}
