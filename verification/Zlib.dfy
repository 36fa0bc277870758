/** The zlib container (RFC 1950) around the compressed data. */
module Zlib {
  import opened Adler32
  import opened Bits
  import opened CompleteCodes
  import opened BlockContents
  import opened Deflate
  import opened HuffmanCodes
  import opened HuffmanTree
  import opened Inflate
  import opened StoredBlocks
  import opened Unsigned32
  import opened Wrappers

  // ----- 32-bit numbers, most significant byte first

  /** lodepng_read32bitInt */
  function Read32(s: seq<byte>, p: nat): uint32
    requires p + 4 <= |s|
  {
    s[p] as uint32 * 0x100_0000 + s[p + 1] as uint32 * 0x1_0000 + s[p + 2] as uint32 * 0x100 + s[p + 3] as uint32
  }

  /** lodepng_set32bitInt */
  function Bytes32(value: uint32): (b: seq<byte>)
    ensures |b| == 4
  {
    [(value / 0x100_0000) as byte, (value / 0x1_0000 % 256) as byte, (value / 0x100 % 256) as byte,
        (value % 256) as byte]
  }

  lemma Read32Inverse(s: seq<byte>, value: uint32)
    ensures Read32(s + Bytes32(value), |s|) == value
  {
    var t, b := s + Bytes32(value), Bytes32(value);
    assert t[|s|] == b[0] && t[|s| + 1] == b[1] && t[|s| + 2] == b[2] && t[|s| + 3] == b[3];
    DigitsOf(value as nat);
  }

  lemma DigitsOf(v: nat)
    ensures v == v / 0x100_0000 * 0x100_0000 + v / 0x1_0000 % 256 * 0x1_0000 + v / 0x100 % 256 * 0x100 + v % 256
  {
    assert v / 0x100 / 0x100 == v / 0x1_0000 && v / 0x1_0000 / 0x100 == v / 0x100_0000;
  }

  /** The most significant byte comes first: one more digit goes to the end. */
  lemma DigitAtTheEnd(value: uint32, b: byte)
    requires value < 0x100_0000
    ensures Bytes32(0) == [0, 0, 0, 0] && Bytes32(256 * value + b as uint32) == Bytes32(value)[1..] + [b]
  {
    var v := value as nat;
    assert v / 0x100 / 0x100 == v / 0x1_0000;
    assert (256 * v + b) / 0x100 == v && (256 * v + b) / 0x1_0000 == v / 0x100;
    assert (256 * v + b) / 0x100_0000 == v / 0x1_0000 < 256;
  }

  // ----- nothing shorter than two bytes can be decompressed

  /** Every fixed code word has at least seven bits. */
  lemma FixedSymbolNeedsSevenBits(s: seq<byte>, bp: nat)
    ensures BuildTree(Codewords(FixedLitLenLengths())).Ok?
    ensures var (symbol, bp') := DecodeSymbol(BuildTree(Codewords(FixedLitLenLengths())).value, s, bp);
            symbol != NO_SYMBOL ==> bp + 7 <= bp' <= 8 * |s|
  {
    hide BuildTree, Codewords, DecodeFrom, Complete, At, Codeword;
    FixedCodesComplete();
    CompleteCodeBuilds(FixedLitLenLengths(), 15);
    var (symbol, bp') := DecodeSymbol(BuildTree(Codewords(FixedLitLenLengths())).value, s, bp);
    DecodeIsExact(FixedLitLenLengths(), 15, s, bp, symbol, bp');
  }

  lemma OneByteHasNoSymbols(t: Trees, s: seq<byte>)
    requires |s| == 1 && FixedTrees(3) == Ok(t)
    ensures InflateSymbols(t.ll, t.d, s, 3, []).Error?
  {
    hide BuildTree, Codewords, FixedLitLenLengths, FixedDistanceLengths;
    FixedSymbolNeedsSevenBits(s, 3);
    var (code, bp1) := DecodeSymbol(t.ll, s, 3);
    assert code == NO_SYMBOL;
    assert InflateSymbol(t.ll, t.d, s, 3, []).Error?;
  }

  lemma ShortStreamIsRefused(s: seq<byte>)
    requires |s| < 2
    ensures InflateAll(s).Error?
  {
    hide BuildTree, Codewords, DecodeSymbol, InflateSymbols, FixedTrees;
    if |s| == 1 {
      if FixedTrees(3).Ok? { OneByteHasNoSymbols(FixedTrees(3).value, s); }
      assert InflateHuffmanBlock(s, 3, [], 1).Error?;
      assert InflateHuffmanBlock(s, 3, [], 2).Error?;
      assert InflateBlock(s, 0, []).Error?;
    }
  }

  // ----- decompression

  /** The header check; 0 when it is accepted. */
  function HeaderError(input: seq<byte>): nat {
    if |input| < 2 then 53
    else if (input[0] as int * 256 + input[1] as int) % 31 != 0 then 24
    else if input[0] % 16 != 8 || input[0] / 16 > 7 then 25
    else if input[1] / 32 % 2 != 0 then 26
    else 0
  }

  /** The fields of section 2.2 of RFC 1950 in two bytes. */
  function ZlibHeader(compression: nat, window: nat, level: nat, dictionary: bool, check: nat): seq<byte>
    requires compression < 16 && window < 16 && level < 4 && check < 32
  {
    [window * 16 + compression, level * 64 + (if dictionary then 32 else 0) + check]
  }

  lemma HeaderFields(compression: nat, window: nat, level: nat, dictionary: bool, check: nat)
    requires compression < 16 && window < 16 && level < 4 && check < 32
    ensures var h := ZlibHeader(compression, window, level, dictionary, check);
            && h[0] % 16 == compression && h[0] / 16 == window && h[1] / 64 == level
            && (h[1] / 32 % 2 == 1 <==> dictionary) && h[1] % 32 == check
  {
  }

  lemma AllHeaders(h: seq<byte>)
    requires |h| == 2
    ensures h == ZlibHeader(h[0] % 16, h[0] / 16, h[1] / 64, h[1] / 32 % 2 == 1, h[1] % 32)
  {
  }

  /** Accepted are the headers with compression method 8, a window code up to 7, any level and no
      dictionary whose check bits make the two bytes a multiple of 31, and no others. */
  lemma AcceptedHeaders(input: seq<byte>)
    ensures HeaderError(input) == 0 <==>
              && |input| >= 2 && (input[0] as int * 256 + input[1] as int) % 31 == 0
              && exists window: nat, level: nat, check: nat ::
                   window <= 7 && level < 4 && check < 32 && input[..2] == ZlibHeader(8, window, level, false, check)
  {
    if |input| >= 2 {
      AllHeaders(input[..2]);
      forall window: nat, level: nat, check: nat |
        window <= 7 && level < 4 && check < 32 && input[..2] == ZlibHeader(8, window, level, false, check)
        ensures input[0] % 16 == 8 && input[0] / 16 == window && input[1] / 32 % 2 == 0
      {
        HeaderFields(8, window, level, false, check);
        assert input[0] == input[..2][0] && input[1] == input[..2][1];
      }
    }
  }

  /** For every window code and level there are check bits that make a header. */
  lemma EveryWindowIsAccepted(window: nat, level: nat, rest: seq<byte>) returns (check: nat)
    requires window <= 7 && level < 4
    ensures check < 31 && HeaderError(ZlibHeader(8, window, level, false, check) + rest) == 0
  {
    var n := (window * 16 + 8) * 256 + level * 64;
    check := CheckBits(n);
    var header := ZlibHeader(8, window, level, false, check);
    HeaderFields(8, window, level, false, check);
    assert header[0] as int * 256 + header[1] as int == n + check;
    assert (header + rest)[0] == header[0] && (header + rest)[1] == header[1];
  }

  lemma CheckBits(n: nat) returns (check: nat)
    ensures check < 31 && (n + check) % 31 == 0
  {
    var q, r := n / 31, n % 31;
    check := if r == 0 then 0 else 31 - r;
    assert n + check == 31 * (if r == 0 then q else q + 1);
  }

  /** What the checksum is taken of: its length argument has 32 bits. */
  function Summed(data: seq<byte>): seq<byte> {
    data[..Wrapped(|data|)]
  }

  /** lodepng_zlib_decompress */
  ghost function Decompressed(input: seq<byte>, ignoreAdler32: bool): Result<seq<byte>> {
    if HeaderError(input) != 0 then Error(HeaderError(input))
    else
      var out :- InflateAll(input[2..]);
      if ignoreAdler32 then Ok(out)
      else if |input| >= 4 && Checksum(Summed(out)) == Read32(input, |input| - 4) as int then Ok(out)
      else Error(58)
  }

  method ZlibDecompress(input: seq<byte>, ignoreAdler32: bool) returns (error: nat, out: seq<byte>)
    ensures Decompressed(input, ignoreAdler32) == if error == 0 then Ok(out) else Error(error)
  {
    hide InflateBlocks, Checksum;
    out := [];
    if |input| < 2 { return 53, out; }
    if (input[0] as int * 256 + input[1] as int) % 31 != 0 { return 24, out; }
    var cm, cinfo := input[0] % 16, input[0] / 16;
    var fdict := input[1] / 32 % 2;
    if cm != 8 || cinfo > 7 { return 25, out; }
    if fdict != 0 { return 26, out; }

    var inflater := new Inflater.Inflater(input[2..]);
    error := inflater.InflateV();
    out := inflater.out;
    if error != 0 { return; }

    if !ignoreAdler32 {
      if |input| < 4 { ShortStreamIsRefused(input[2..]); }
      var expected := Read32(input, |input| - 4);
      var checksum := ComputeAdler32(Summed(out));
      if checksum != expected { return 58, out; }
    }
  }

  // ----- compression

  /** lodepng_zlib_compress */
  method ZlibCompress(data: seq<byte>, settings: CompressSettings) returns (error: nat, out: seq<byte>)
    requires settings.btype == 1 ==> data != []
    requires settings.useLz77 || settings.btype != 2 || |data| <= BlockSize(2, |data|)
    ensures error == if settings.btype > 2 then 61 else if settings.btype == 0 then 0 else DeflateError(settings)
    ensures error == 0 && settings.btype == 0 && data == [] ==> forall ignore :: Decompressed(out, ignore) == Error(52)
    ensures error == 0 && (settings.btype != 0 || data != []) ==>
              forall ignore :: Decompressed(out, ignore) == Opened(data, Kept(data, settings.btype), ignore)
    ensures error == 0 ==> forall ignore :: Decompressed(out, ignore) == Ok(data) <==> Lossless(data, settings.btype)
    ensures |out| >= 2 && out[..2] == ZlibHeader(8, 7, 0, false, 1)
    ensures error == 0 ==> |out| >= 6 && Read32(out, |out| - 4) as int == Checksum(Summed(data))
    ensures error == 0 && settings.btype != 0 ==> IsStream(out[2..|out| - 4], data, settings)
  {
    hide InflateBlocks, Checksum, DecompressesTo, Decompressed, Kept, Opened, ComesBack, IsStream;
    var cmf: nat, flevel: nat, fdict: nat := 120, 0, 0;
    var cmfflg := 256 * cmf + fdict * 32 + flevel * 64;
    cmfflg := cmfflg + (31 - cmfflg % 31);
    var head := [cmfflg / 256, cmfflg % 256];
    var deflated;
    error, deflated := DeflateV(data, settings);
    out := head;
    if error == 0 {
      var adler := ComputeAdler32(Summed(data));
      Read32Inverse(head + deflated, adler);
      out := head + deflated + Bytes32(adler);
      assert out[2..|out| - 4] == deflated;
      if settings.btype != 0 || data != [] {
        ContainerInverse(deflated, data, Kept(data, settings.btype), adler);
        KeptIsData(data, settings.btype);
        OpenedIsData(data, Kept(data, settings.btype));
      } else {
        EmptyContainerRefused(adler);
        NothingDoesNotComeBack();
      }
    }
  }

  /** What comes out of a container that was made of `data` but holds `kept`: the
      checksums must agree. */
  ghost function Opened(data: seq<byte>, kept: seq<byte>, ignoreAdler32: bool): Result<seq<byte>> {
    if ignoreAdler32 || Checksum(Summed(kept)) == Checksum(Summed(data)) then Ok(kept) else Error(58)
  }

  lemma OpenedIsData(data: seq<byte>, kept: seq<byte>)
    ensures forall ignore :: Opened(data, kept, ignore) == Ok(data) <==> kept == data
  {
    hide Checksum, Summed;
  }

  /** When the last of 2^32 + 1 bytes is lost in stored blocks nobody notices: the
      checksum is taken of the first byte alone. */
  lemma LossGoesUnnoticed(data: seq<byte>, ignore: bool)
    requires |data| == WORD + 1 && data[WORD] != data[0]
    ensures Opened(data, Kept(data, 0), ignore) == Ok(data[..WORD] + [data[0]])
    ensures data[..WORD] + [data[0]] != data
  {
    hide Checksum, StoredBytes;
    OneByteTooMany(data);
    var kept := data[..WORD] + [data[0]];
    assert kept[WORD] == data[0];
    assert Summed(kept) == [data[0]] == Summed(data);
  }

  /** The container is opened again whatever data it holds. */
  lemma ContainerInverse(deflated: seq<byte>, data: seq<byte>, kept: seq<byte>, adler: uint32)
    requires DecompressesTo(deflated, kept) && adler as int == Checksum(Summed(data))
    ensures forall ignore :: Decompressed([120, 1] + deflated + Bytes32(adler), ignore) == Opened(data, kept, ignore)
  {
    hide InflateAll, Checksum, Bytes32;
    var out := [120, 1] + deflated + Bytes32(adler);
    assert out[2..] == deflated + Bytes32(adler);
    assert HeaderError(out) == 0;
    Read32Inverse([120, 1] + deflated, adler);
  }

  lemma EmptyContainerRefused(adler: uint32)
    requires adler as int == Checksum([])
    ensures forall ignore :: Decompressed([120, 1] + [] + Bytes32(adler), ignore) == Error(52)
  {
    hide InflateHuffmanBlock;
    var out := [120, 1] + [] + Bytes32(adler);
    assert HeaderError(out) == 0;
    assert adler == 1;
    var s := out[2..];
    assert s == [0, 0, 0, 1];
    assert Bit(0, 2) == Bit(0, 1) == Bit(0, 0) == 0;
    assert StreamBit(s, 0) == 0 && StreamBit(s, 1) == 0 && StreamBit(s, 2) == 0;
    assert InflateNoCompression(s, 3, []) == Error(52);
    assert InflateBlock(s, 0, []) == Error(52);
  }

  /** Data that differs from the compressed data in one byte is reported. */
  lemma CorruptionIsReported(input: seq<byte>, data: seq<byte>, i: nat, b: byte)
    requires i < |data| < 0x1_0000_0000 && data[i] != b
    requires HeaderError(input) == 0 && InflateAll(input[2..]) == Ok(data[i := b])
    requires |input| >= 4 && Read32(input, |input| - 4) as int == Checksum(data)
    ensures Decompressed(input, false) == Error(58)
  {
    hide InflateAll, Checksum;
    OneByteIsDetected(data, i, b);
    assert Summed(data[i := b]) == data[i := b];
  }
}
