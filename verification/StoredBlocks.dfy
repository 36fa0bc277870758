/** Blocks of type 0, which hold the data as it is.  The compressor walks
    through the data with a 32-bit position, so that what it stores repeats
    itself behind the first 2^32 bytes. */
module StoredBlocks {
  import opened Bits
  import opened DeflateBlocks
  import opened Inflate
  import opened Sequences
  import opened Unsigned32
  import opened Wrappers

  /** The bytes of a full block. */
  const BLOCK: nat := 65535

  /** Whatever follows `out`, a stream that starts with it has produced `sofar`
      when all of `out` has been read. */
  ghost predicate StoredProduces(out: seq<byte>, sofar: seq<byte>) {
    forall rest: seq<byte> {:trigger out + rest} ::
      InflateBlocks(out + rest, 0, []) == InflateBlocks(out + rest, 8 * |out|, sofar)
  }

  ghost predicate DecompressesTo(out: seq<byte>, data: seq<byte>) {
    forall rest: seq<byte> {:trigger out + rest} :: InflateAll(out + rest) == Ok(data)
  }

  ghost function StoredHead(final: bool, len: nat): seq<byte>
    requires len <= 65535
  {
    [if final then 1 else 0, len % 256, len / 256, (65535 - len) % 256, (65535 - len) / 256]
  }

  lemma StoredHeadBits(full: seq<byte>, p: nat, final: bool)
    requires p < |full| && full[p] == if final then 1 else 0
    ensures StreamBit(full, 8 * p) == if final then 1 else 0
    ensures StreamBit(full, 8 * p + 1) == 0 && StreamBit(full, 8 * p + 2) == 0
  {
    assert (8 * p) / 8 == p && (8 * p + 1) / 8 == p && (8 * p + 2) / 8 == p;
    assert (8 * p) % 8 == 0 && (8 * p + 1) % 8 == 1 && (8 * p + 2) % 8 == 2;
    assert Bit(full[p], 1) == Bit(0, 0) == 0;
    assert Bit(full[p], 2) == Bit(0, 1) == Bit(0, 0) == 0;
  }

  lemma StoredBlockRead(full: seq<byte>, p: nat, chunk: seq<byte>, before: seq<byte>)
    requires 0 < |chunk| <= 65535 && p + 5 + |chunk| <= |full|
    requires full[p + 1..p + 5] == StoredHead(false, |chunk|)[1..] && full[p + 5..p + 5 + |chunk|] == chunk
    ensures InflateNoCompression(full, 8 * p + 3, before) == Ok(Progress(8 * (p + 5 + |chunk|), before + chunk, true))
  {
    assert (8 * p + 3 + 7) / 8 == p + 1;
    var head := full[p + 1..p + 5];
    assert head[0] == full[p + 1] && head[1] == full[p + 2] && head[2] == full[p + 3] && head[3] == full[p + 4];
    var n := |chunk|;
    assert head[0] == n % 256 && head[1] == n / 256 && head[2] == (65535 - n) % 256 && head[3] == (65535 - n) / 256;
    assert (p + 1) + 4 == p + 5 && (p + 1) + 4 + n == p + 5 + n;
  }

  /** A stored block without data at the very end is refused, although the
      standard allows it; the compressor never writes one. */
  lemma EmptyStoredBlockRefused()
    ensures InflateAll(StoredHead(true, 0)) == Error(52)
  {
    var s := StoredHead(true, 0);
    StoredHeadBits(s, 0, true);
    assert InflateNoCompression(s, 3, []) == Error(52);
  }

  lemma StoredBlockInverse(out: seq<byte>, final: bool, chunk: seq<byte>, rest: seq<byte>, before: seq<byte>)
    requires 0 < |chunk| <= 65535
    ensures var out' := out + StoredHead(final, |chunk|) + chunk;
            InflateBlock(out' + rest, 8 * |out|, before) == Ok(Progress(8 * |out'|, before + chunk, final))
  {
    hide StreamBit, InflateNoCompression, InflateHuffmanBlock;
    var p, head := |out|, StoredHead(final, |chunk|);
    var full := out + head + chunk + rest;
    assert full[p] == head[0];
    StoredHeadBits(full, p, final);
    assert full[p + 1..p + 5] == head[1..] == StoredHead(false, |chunk|)[1..];
    assert full[p + 5..p + 5 + |chunk|] == chunk;
    StoredBlockRead(full, p, chunk, before);
  }

  lemma AppendStored(out: seq<byte>, final: bool, chunk: seq<byte>, before: seq<byte>)
    requires 0 < |chunk| <= 65535 && StoredProduces(out, before)
    ensures var out' := out + StoredHead(final, |chunk|) + chunk;
            if final then DecompressesTo(out', before + chunk) else StoredProduces(out', before + chunk)
  {
    hide InflateBlock, InflateBlocks, StoredHead;
    var head := StoredHead(final, |chunk|);
    var out' := out + head + chunk;
    forall rest: seq<byte>
      ensures final ==> InflateAll(out' + rest) == Ok(before + chunk)
      ensures !final ==> InflateBlocks(out' + rest, 0, []) == InflateBlocks(out' + rest, 8 * |out'|, before + chunk)
    {
      assert out' + rest == out + (head + chunk + rest);
      StoredBlockInverse(out, final, chunk, rest, before);
      BlocksStep(out' + rest, 8 * |out|, before, 8 * |out'|, before + chunk, final);
    }
  }

  /** Bytes behind the last block change nothing. */
  lemma JunkIsIgnored(out: seq<byte>, junk: seq<byte>, data: seq<byte>)
    requires DecompressesTo(out, data)
    ensures DecompressesTo(out + junk, data)
  {
    hide InflateAll;
    forall rest: seq<byte> ensures InflateAll(out + junk + rest) == Ok(data) {
      assert out + junk + rest == out + (junk + rest);
    }
  }

  // ----- what is stored

  /** `n` bytes from the position on, which wraps around. */
  ghost function Cyclic(data: seq<byte>, from: nat, n: nat): (r: seq<byte>)
    requires from + n <= |data| || |data| >= WORD
    ensures |r| == n
  {
    seq(n, k requires 0 <= k < n => data[Wrapped(from + k)])
  }

  function BlockCount(size: nat): nat {
    (size + 65534) / BLOCK
  }

  /** How many bytes the blocks hold.  Once the last one starts behind 2^32 bytes
      its length is computed from the wrapped position, and it is full. */
  function StoredSize(size: nat): nat {
    if size <= WORD + 65534 then size else BLOCK * BlockCount(size)
  }

  /** What the decompressor will see. */
  ghost function StoredBytes(data: seq<byte>): (r: seq<byte>)
    ensures |r| == StoredSize(|data|)
  {
    StoredSizeFits(|data|);
    Cyclic(data, 0, StoredSize(|data|))
  }

  lemma StoredSizeFits(size: nat)
    ensures size < WORD ==> StoredSize(size) == size
  {
  }

  /** The length field of the block at position `datapos`. */
  function BlockLength(size: nat, datapos: word): nat
    requires datapos <= size
  {
    if size - datapos < BLOCK then size - datapos else BLOCK
  }

  /** How many bytes are written behind its head: the position never arrives at
      the end of data of 2^32 bytes and more. */
  function Pushed(size: nat, datapos: word): (n: nat)
    requires datapos <= size
    ensures BlockLength(size, datapos) <= n && (datapos + n <= size || size >= WORD)
  {
    if size < WORD then BlockLength(size, datapos) else BLOCK
  }

  /** The inner loop: bytes up to the end of the data or of the block. */
  method PushBytes(out0: seq<byte>, data: seq<byte>, datapos0: word) returns (out: seq<byte>, datapos: word)
    requires datapos0 <= |data|
    ensures datapos == Wrapped(datapos0 + Pushed(|data|, datapos0)) <= |data|
    ensures out == out0 + Cyclic(data, datapos0, Pushed(|data|, datapos0))
  {
    out, datapos := out0, datapos0;
    assert Cyclic(data, datapos0, 0) == [];
    hide Cyclic;
    var j := 0;
    while j < 65535 && datapos < |data|
      invariant j <= 65535 && datapos == Wrapped(datapos0 + j) <= |data|
      invariant datapos0 + j <= |data| || |data| >= WORD
      invariant out == out0 + Cyclic(data, datapos0, j)
    {
      CyclicGrows(data, datapos0, j);
      out := out + [data[datapos]];
      NextPosition(datapos0 + j);
      datapos := Wrapped(datapos + 1);
      j := j + 1;
    }
  }

  /** One block: its head, then its bytes, which can be more than the head says. */
  ghost function BlockBytes(data: seq<byte>, datapos: word, final: bool): seq<byte>
    requires datapos <= |data|
  {
    StoredHead(final, BlockLength(|data|, datapos)) + Cyclic(data, datapos, Pushed(|data|, datapos))
  }

  method StoreBlock(out0: seq<byte>, data: seq<byte>, datapos0: word, final: bool)
    returns (out: seq<byte>, datapos: word)
    requires datapos0 <= |data|
    ensures datapos == Wrapped(datapos0 + Pushed(|data|, datapos0)) <= |data|
    ensures out == out0 + BlockBytes(data, datapos0, final)
  {
    hide Cyclic, Wrapped;
    var len := 65535;
    if |data| - datapos0 < 65535 { len := |data| - datapos0; }
    var nlen := 65535 - len;
    out := out0 + [if final then 1 else 0];
    out := out + [len % 256];
    out := out + [len / 256];
    out := out + [nlen % 256];
    out := out + [nlen / 256];
    assert out == out0 + StoredHead(final, len);
    out, datapos := PushBytes(out, data, datapos0);
  }

  lemma CyclicGrows(data: seq<byte>, from: nat, n: nat)
    requires from + n < |data| || |data| >= WORD
    ensures Wrapped(from + n) < |data|
    ensures Cyclic(data, from, n + 1) == Cyclic(data, from, n) + [data[Wrapped(from + n)]]
  {
  }

  lemma NextPosition(x: nat)
    ensures Wrapped(Wrapped(x) + 1) == Wrapped(x + 1)
  {
  }

  // ----- all blocks

  /** The bytes the stream has stored in front of block `i`. */
  ghost predicate StoredSoFar(out: seq<byte>, data: seq<byte>, i: nat)
    requires Start(i, BLOCK) <= |data| || |data| >= WORD
  {
    StoredProduces(out, Cyclic(data, 0, Start(i, BLOCK)))
  }

  /** What the loop knows in front of block `i`. */
  ghost predicate ReadyFor(out: seq<byte>, data: seq<byte>, i: nat, datapos: word) {
    && (Start(i, BLOCK) <= |data| || |data| >= WORD) && StoredSoFar(out, data, i)
    && datapos == Wrapped(Start(i, BLOCK)) <= |data|
  }

  lemma StartsAt(i: nat)
    ensures Start(i, BLOCK) == BLOCK * i
  {
    StartIsProduct(i, BLOCK);
  }

  /** Only the last block can be short, and its end is the end of what is stored. */
  lemma LengthOfBlock(size: nat, i: nat)
    requires i < BlockCount(size)
    ensures Start(i, BLOCK) == BLOCK * i < size && Start(i + 1, BLOCK) == Start(i, BLOCK) + BLOCK
    ensures Wrapped(Start(i, BLOCK)) <= size
    ensures var len := BlockLength(size, Wrapped(Start(i, BLOCK)));
            && len > 0
            && Start(i, BLOCK) + len == if i < BlockCount(size) - 1 then Start(i + 1, BLOCK) else StoredSize(size)
    ensures size < WORD ==>
              && (i < BlockCount(size) - 1 ==> Start(i + 1, BLOCK) <= size)
              && Start(i, BLOCK) + BlockLength(size, Wrapped(Start(i, BLOCK))) <= size
  {
    StartsAt(i);
    StartsAt(i + 1);
    WrappedDrops(BLOCK * i);
    hide Start, Wrapped;
  }

  lemma CyclicJoins(data: seq<byte>, a: nat, n: nat)
    requires a + n <= |data| || |data| >= WORD
    ensures Wrapped(a) + n <= |data| || |data| >= WORD
    ensures Cyclic(data, 0, a) + Cyclic(data, Wrapped(a), n) == Cyclic(data, 0, a + n)
  {
    WrappedDrops(a);
    forall k: nat | k < n ensures Cyclic(data, Wrapped(a), n)[k] == Cyclic(data, 0, a + n)[a + k] {
      PositionAfter(a, k);
    }
  }

  lemma CyclicSplits(data: seq<byte>, from: nat, len: nat, n: nat)
    requires len <= n && (from + n <= |data| || |data| >= WORD)
    ensures Cyclic(data, from, n) == Cyclic(data, from, len) + Cyclic(data, from, n)[len..]
  {
  }

  lemma NothingStored(data: seq<byte>)
    ensures Start(0, BLOCK) == 0 && Wrapped(0) == 0 && StoredSoFar([], data, 0)
  {
    hide InflateBlocks;
    assert Cyclic(data, 0, 0) == [];
  }

  lemma PositionAfter(a: nat, n: nat)
    ensures Wrapped(Wrapped(a) + n) == Wrapped(a + n)
  {
  }

  /** One more block has been written. */
  lemma BlockStored(before: seq<byte>, data: seq<byte>, i: nat, pos0: word, out: seq<byte>)
    requires i < BlockCount(|data|) && ReadyFor(before, data, i, pos0)
    requires out == before + BlockBytes(data, pos0, i == BlockCount(|data|) - 1)
    ensures i < BlockCount(|data|) - 1 ==>
              ReadyFor(out, data, i + 1, Wrapped(pos0 + Pushed(|data|, pos0)))
    ensures i == BlockCount(|data|) - 1 ==> DecompressesTo(out, StoredBytes(data))
  {
    hide StoredProduces, DecompressesTo, Cyclic, Start, Wrapped, StoredSize, StoredHead, BlockCount;
    var final := i == BlockCount(|data|) - 1;
    LengthOfBlock(|data|, i);
    if !final { LengthOfBlock(|data|, i + 1); }
    var len, pushed := BlockLength(|data|, pos0), Pushed(|data|, pos0);
    var chunk, all := Cyclic(data, pos0, len), Cyclic(data, pos0, pushed);
    AppendStored(before, final, chunk, Cyclic(data, 0, Start(i, BLOCK)));
    CyclicJoins(data, Start(i, BLOCK), len);
    CyclicSplits(data, pos0, len, pushed);
    var stored := before + StoredHead(final, len) + chunk;
    assert out == stored + all[len..];
    if final {
      JunkIsIgnored(stored, all[len..], StoredBytes(data));
    } else {
      PositionAfter(Start(i, BLOCK), BLOCK);
      assert all[len..] == [];
      assert out == stored;
    }
  }

  // ----- the bytes themselves, for data whose positions fit into 32 bits

  /** Block `i`: its head and up to 65535 bytes of the data. */
  ghost function BlockOf(data: seq<byte>, i: nat): seq<byte>
    requires 65535 * i < |data|
  {
    var end := if 65535 * i + 65535 < |data| then 65535 * i + 65535 else |data|;
    StoredHead(end == |data|, end - 65535 * i) + data[65535 * i..end]
  }

  ghost function FirstBlocks(data: seq<byte>, i: nat): seq<byte>
    requires i > 0 ==> 65535 * (i - 1) < |data|
  {
    if i == 0 then [] else FirstBlocks(data, i - 1) + BlockOf(data, i - 1)
  }

  lemma BytesOfBlock(data: seq<byte>, i: nat)
    requires |data| < WORD && i < BlockCount(|data|)
    ensures 65535 * i < |data| && Wrapped(Start(i, BLOCK)) <= |data|
    ensures BlockBytes(data, Wrapped(Start(i, BLOCK)), i == BlockCount(|data|) - 1) == BlockOf(data, i)
  {
    LengthOfBlock(|data|, i);
    WrappedDrops(65535 * i);
    var pos := Wrapped(Start(i, BLOCK));
    assert pos == 65535 * i;
    var n := BlockLength(|data|, pos);
    assert i == BlockCount(|data|) - 1 <==> 65535 * i + 65535 >= |data|;
    hide BlockCount, StoredHead, Start;
    forall k: nat | k < n ensures Cyclic(data, pos, n)[k] == data[pos..pos + n][k] { WrappedDrops(pos + k); }
    assert Cyclic(data, pos, n) == data[pos..pos + n];
  }

  /** The head of a last block: the final mark, the number of its bytes and the ones'
      complement of this, low bytes first (section 3.2.4 of RFC 1951). */
  lemma LastHead(n: nat)
    requires 0 < n <= 65535
    ensures BlockCount(n) == 1
    ensures StoredHead(true, n) == [1, n % 256, n / 256, 255 - n % 256, 255 - n / 256]
  {
    var q, r := n / 256, n % 256;
    assert 65535 - n == 256 * (255 - q) + (255 - r);
  }

  /** One block is enough for up to 65535 bytes. */
  lemma OneStoredBlock(data: seq<byte>)
    requires 0 < |data| <= 65535
    ensures FirstBlocks(data, 1) == StoredHead(true, |data|) + data
  {
    hide StoredHead;
    assert data[0..|data|] == data;
    assert BlockOf(data, 0) == StoredHead(true, |data|) + data;
    assert FirstBlocks(data, 0) == [];
  }

  ghost predicate FirstWritten(out: seq<byte>, data: seq<byte>, i: nat) {
    (i > 0 ==> 65535 * (i - 1) < |data|) && out == FirstBlocks(data, i)
  }

  /** deflateNoCompression: nothing at all is written for no data. */
  method DeflateNoCompression(data: seq<byte>) returns (out: seq<byte>)
    ensures data == [] ==> out == []
    ensures data != [] ==> DecompressesTo(out, StoredBytes(data))
    ensures 0 < |data| < WORD ==>
              65535 * (BlockCount(|data|) - 1) < |data| && out == FirstBlocks(data, BlockCount(|data|))
  {
    hide InflateBlocks, InflateAll, DecompressesTo, StoredSoFar, StoredBytes, Cyclic, Start, Wrapped, BlockLength,
      StoredSize;
    out := [];
    var numdeflateblocks := (|data| + 65534) / 65535;
    var datapos: word := 0;
    NothingStored(data);
    for i := 0 to numdeflateblocks
      invariant i < numdeflateblocks ==> ReadyFor(out, data, i, datapos)
      invariant i == numdeflateblocks > 0 ==> DecompressesTo(out, StoredBytes(data))
      invariant i == 0 ==> out == []
      invariant |data| < WORD ==> FirstWritten(out, data, i)
    {
      ghost var before, pos0 := out, datapos;
      var bfinal := i == numdeflateblocks - 1;
      LengthOfBlock(|data|, i);
      out, datapos := StoreBlock(out, data, datapos, bfinal);
      BlockStored(before, data, i, pos0, out);
      if |data| < WORD { BytesOfBlock(data, i); }
    }
  }

  // ----- when the data comes back

  /** Behind 2^32 bytes the data repeats itself, and if it is so long that the
      last block starts there, it ends with a full block. */
  ghost predicate ComesBack(data: seq<byte>) {
    && data != [] && (|data| <= WORD + 65534 || |data| % BLOCK == 0)
    && forall k: nat {:trigger data[k]} :: WORD <= k < |data| ==> data[k] == data[k - WORD]
  }

  lemma {:induction false} RepeatsFromStart(data: seq<byte>, k: nat)
    requires k < |data| && forall k: nat {:trigger data[k]} :: WORD <= k < |data| ==> data[k] == data[k - WORD]
    ensures Wrapped(k) < |data| && data[k] == data[Wrapped(k)]
  {
    if k >= WORD {
      WrappedAgain(k - WORD);
      RepeatsFromStart(data, k - WORD);
    }
  }

  lemma FullBlocks(size: nat)
    ensures size > 0 ==> (StoredSize(size) == size <==> size <= WORD + 65534 || size % BLOCK == 0)
    ensures StoredSize(size) >= size
  {
  }

  /** What is stored is the data if and only if the data comes back. */
  lemma StoredIsData(data: seq<byte>)
    requires data != []
    ensures StoredBytes(data) == data <==> ComesBack(data)
  {
    hide StoredSize, Wrapped;
    var s := StoredBytes(data);
    FullBlocks(|data|);
    if ComesBack(data) {
      forall k: nat | k < |data| ensures s[k] == data[k] { RepeatsFromStart(data, k); }
    }
    if s == data {
      forall k: nat | WORD <= k < |data| ensures data[k] == data[k - WORD] {
        WrappedAgain(k - WORD);
        assert s[k] == data[Wrapped(k)] && s[k - WORD] == data[Wrapped(k - WORD)];
      }
    }
  }

  /** Everything up to 2^32 bytes does. */
  lemma ShortDataComesBack(data: seq<byte>)
    requires 0 < |data| <= WORD
    ensures ComesBack(data)
  {
  }

  /** With one byte more the first byte stands where the last one should. */
  lemma OneByteTooMany(data: seq<byte>)
    requires |data| == WORD + 1
    ensures StoredBytes(data) == data[..WORD] + [data[0]]
    ensures ComesBack(data) <==> data[WORD] == data[0]
  {
    var s := StoredBytes(data);
    WrappedAgain(0);
    forall k: nat | k < |s| ensures s[k] == (data[..WORD] + [data[0]])[k] {
      WrappedDrops(k);
    }
    if data[WORD] == data[0] {
      forall k: nat | WORD <= k < |data| ensures data[k] == data[k - WORD] {}
    }
  }
}
