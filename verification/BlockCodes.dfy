/** The bits of a compressed block, and that the decompressor reads them back. */
module BlockCodes {
  import opened Bits
  import opened HuffmanTree
  import opened Inflate
  import opened Lz77Codes
  import opened Wrappers

  // ----- literals, lengths and distances

  /** Literals and pairs only. */
  ghost predicate IsCodes(v: seq<nat>)
    decreases |v|
  {
    if v == [] then true
    else if v[0] <= 255 then IsCodes(v[1..])
    else StartsWithPair(v) && IsCodes(v[4..])
  }

  lemma {:induction false} ExpandableIsCodes(v: seq<nat>, out: seq<byte>)
    requires ExpandCodes(v, out).Ok?
    ensures IsCodes(v)
    decreases |v|
  {
    if v != [] {
      if v[0] <= 255 { ExpandableIsCodes(v[1..], out + [v[0]]); }
      else { ExpandableIsCodes(v[4..], Copy(out, PairDistance(v), PairLength(v))); }
    }
  }

  /** The literal/length symbols that `v` uses. */
  ghost function UsedSymbols(v: seq<nat>): set<nat>
    decreases |v|
  {
    if v == [] then {}
    else {v[0]} + UsedSymbols(if v[0] <= 255 || |v| < 4 then v[1..] else v[4..])
  }

  ghost function UsedDistances(v: seq<nat>): set<nat>
    decreases |v|
  {
    if v == [] then {}
    else if v[0] <= 255 || |v| < 4 then UsedDistances(v[1..])
    else {v[2]} + UsedDistances(v[4..])
  }

  /** Every symbol of `used` has a code word. */
  ghost predicate Covers(words: seq<seq<bit>>, used: set<nat>) {
    forall s :: s in used ==> s < |words| && words[s] != []
  }

  /** Literals and pairs whose symbols all have code words. */
  ghost predicate Encodable(v: seq<nat>, ll: seq<seq<bit>>, d: seq<seq<bit>>)
    decreases |v|
  {
    if v == [] then true
    else if v[0] <= 255 then HasWord(ll, v[0]) && Encodable(v[1..], ll, d)
    else StartsWithPair(v) && HasWord(ll, v[0]) && HasWord(d, v[2]) && Encodable(v[4..], ll, d)
  }

  ghost predicate HasWord(words: seq<seq<bit>>, s: nat) {
    s < |words| && words[s] != []
  }

  lemma {:induction false} CoveredIsEncodable(v: seq<nat>, ll: seq<seq<bit>>, d: seq<seq<bit>>)
    requires IsCodes(v) && Covers(ll, UsedSymbols(v)) && Covers(d, UsedDistances(v))
    ensures Encodable(v, ll, d)
    decreases |v|
  {
    if v != [] {
      assert v[0] in UsedSymbols(v);
      if v[0] <= 255 {
        CoveredIsEncodable(v[1..], ll, d);
      } else {
        assert v[2] in UsedDistances(v);
        CoveredIsEncodable(v[4..], ll, d);
      }
    }
  }

  ghost function Word(words: seq<seq<bit>>, s: nat): seq<bit> {
    if s < |words| then words[s] else []
  }

  /** The bits writeLZ77data writes. */
  ghost function SymbolBits(v: seq<nat>, ll: seq<seq<bit>>, d: seq<seq<bit>>): (w: seq<bit>)
    decreases |v|
  {
    if v == [] then []
    else if v[0] <= 255 || |v| < 4 then Word(ll, v[0]) + SymbolBits(v[1..], ll, d)
    else PairBits(v[0], v[1], v[2], v[3], ll, d) + SymbolBits(v[4..], ll, d)
  }

  ghost function PairBits(code: nat, extra: nat, codeD: nat, extraD: nat, ll: seq<seq<bit>>,
                          d: seq<seq<bit>>): seq<bit> {
    LengthBits(code, extra, ll) + DistanceBits(codeD, extraD, d)
  }

  ghost function LengthBits(code: nat, extra: nat, ll: seq<seq<bit>>): seq<bit> {
    Word(ll, code) + ToBits(extra, LengthExtra(LengthIndex(code)))
  }

  ghost function DistanceBits(codeD: nat, extraD: nat, d: seq<seq<bit>>): seq<bit> {
    Word(d, codeD) + ToBits(extraD, DistanceExtra(codeD))
  }

  /** The trees decode these code words. */
  ghost predicate TreesDecode(t: Trees, ll: seq<seq<bit>>, d: seq<seq<bit>>) {
    && Decodes(t.ll, ll) && |ll| == NUM_DEFLATE_CODE_SYMBOLS
    && Decodes(t.d, d) && |d| == NUM_DISTANCE_SYMBOLS
  }

  lemma TreesDecodeOk(t: Trees, ll: seq<seq<bit>>, d: seq<seq<bit>>)
    requires TreesDecode(t, ll, d)
    ensures TreesOk(t)
  {
  }

  lemma LiteralRead(t: Trees, ll: seq<seq<bit>>, d: seq<seq<bit>>, s: seq<byte>, bp: nat, code: nat, out: seq<byte>)
    requires TreesDecode(t, ll, d) && code <= 255 && ll[code] != [] && At(s, bp, ll[code])
    ensures InflateSymbol(t.ll, t.d, s, bp, out) == Ok(Progress(bp + |ll[code]|, out + [code], false))
  {
    assert DecodeSymbol(t.ll, s, bp) == (code, bp + |ll[code]|);
  }

  lemma LengthRead(tree: seq<nat>, ll: seq<seq<bit>>, s: seq<byte>, bp: nat, code: nat, extra: nat)
    requires Decodes(tree, ll) && FIRST_LENGTH_CODE_INDEX <= code <= LAST_LENGTH_CODE_INDEX
    requires code < |ll| && ll[code] != [] && extra < Pow2(LengthExtra(LengthIndex(code)))
    requires At(s, bp, LengthBits(code, extra, ll))
    ensures DecodeSymbol(tree, s, bp) == (code, bp + |ll[code]|)
    ensures InflateLength(s, code, bp + |ll[code]|)
         == Ok((LengthBase(LengthIndex(code)) + extra, bp + |LengthBits(code, extra, ll)|))
  {
    AtSplit(s, bp, Word(ll, code), ToBits(extra, LengthExtra(LengthIndex(code))));
    ReadBitsInverse(s, bp + |ll[code]|, extra, LengthExtra(LengthIndex(code)));
    assert DecodeSymbol(tree, s, bp) == (code, bp + |ll[code]|);
  }

  lemma DistanceAt(tree: seq<nat>, d: seq<seq<bit>>, s: seq<byte>, bp: nat, code: nat, extra: nat)
    requires Decodes(tree, d) && code < |d| && d[code] != []
    requires extra < Pow2(DistanceExtra(code))
    requires At(s, bp, DistanceBits(code, extra, d))
    ensures DecodeSymbol(tree, s, bp) == (code, bp + |d[code]|)
    ensures bp + |d[code]| + DistanceExtra(code) <= 8 * |s|
    ensures ReadBits(s, bp + |d[code]|, DistanceExtra(code)) == extra
  {
    AtSplit(s, bp, Word(d, code), ToBits(extra, DistanceExtra(code)));
    assert DecodeSymbol(tree, s, bp) == (code, bp + |d[code]|);
    ReadBitsInverse(s, bp + |d[code]|, extra, DistanceExtra(code));
  }

  lemma DistanceParts(tree: seq<nat>, s: seq<byte>, bp: nat, code: nat, bp1: nat, extra: nat)
    requires |tree| == 2 * NUM_DISTANCE_SYMBOLS && code < 30
    requires DecodeSymbol(tree, s, bp) == (code, bp1) && bp1 + DistanceExtra(code) <= 8 * |s|
    requires ReadBits(s, bp1, DistanceExtra(code)) == extra
    ensures InflateDistance(tree, s, bp) == Ok((DistanceBase(code) + extra, bp1 + DistanceExtra(code)))
  {
  }

  lemma DistanceRead(tree: seq<nat>, d: seq<seq<bit>>, s: seq<byte>, bp: nat, code: nat, extra: nat)
    requires Decodes(tree, d) && |d| == NUM_DISTANCE_SYMBOLS && code < 30 && d[code] != []
    requires extra < Pow2(DistanceExtra(code))
    requires At(s, bp, DistanceBits(code, extra, d))
    ensures InflateDistance(tree, s, bp) == Ok((DistanceBase(code) + extra, bp + |DistanceBits(code, extra, d)|))
  {
    hide At, DecodeSymbol, ReadBits, Pow2, DistanceBase, InflateDistance;
    DistanceAt(tree, d, s, bp, code, extra);
    DistanceParts(tree, s, bp, code, bp + |d[code]|, extra);
  }

  lemma PairParts(t: Trees, s: seq<byte>, bp: nat, out: seq<byte>, code: nat, bp1: nat, length: nat, bp2: nat,
                  distance: nat, bp3: nat)
    requires TreesOk(t) && FIRST_LENGTH_CODE_INDEX <= code <= LAST_LENGTH_CODE_INDEX
    requires DecodeSymbol(t.ll, s, bp) == (code, bp1)
    requires InflateLength(s, code, bp1) == Ok((length, bp2))
    requires InflateDistance(t.d, s, bp2) == Ok((distance, bp3)) && 0 < distance <= |out|
    ensures InflateSymbol(t.ll, t.d, s, bp, out) == Ok(Progress(bp3, Copy(out, distance, length), false))
  {
  }

  lemma DistanceAndPair(t: Trees, d: seq<seq<bit>>, s: seq<byte>, bp: nat, bp1: nat, bp2: nat, bp3: nat,
                        code: nat, length: nat, codeD: nat, extraD: nat, out: seq<byte>)
    requires TreesOk(t) && Decodes(t.d, d) && |d| == NUM_DISTANCE_SYMBOLS && codeD < 30 && d[codeD] != []
    requires FIRST_LENGTH_CODE_INDEX <= code <= LAST_LENGTH_CODE_INDEX
    requires DecodeSymbol(t.ll, s, bp) == (code, bp1) && InflateLength(s, code, bp1) == Ok((length, bp2))
    requires extraD < Pow2(DistanceExtra(codeD)) && DistanceBase(codeD) + extraD <= |out|
    requires At(s, bp2, DistanceBits(codeD, extraD, d)) && bp3 == bp2 + |DistanceBits(codeD, extraD, d)|
    ensures InflateSymbol(t.ll, t.d, s, bp, out)
            == Ok(Progress(bp3, Copy(out, DistanceBase(codeD) + extraD, length), false))
  {
    hide DecodeSymbol, InflateLength, InflateDistance, InflateSymbol, At, DistanceBase, DistanceExtra, Decodes, Copy,
        DistanceBits;
    DistanceRead(t.d, d, s, bp2, codeD, extraD);
    PairParts(t, s, bp, out, code, bp1, length, bp2, DistanceBase(codeD) + extraD, bp3);
  }

  lemma PairRead(t: Trees, ll: seq<seq<bit>>, d: seq<seq<bit>>, s: seq<byte>, bp: nat, bp1: nat, bp2: nat, bp3: nat,
                 code: nat, extra: nat, codeD: nat, extraD: nat, out: seq<byte>)
    requires TreesDecode(t, ll, d) && FIRST_LENGTH_CODE_INDEX <= code <= LAST_LENGTH_CODE_INDEX && codeD < 30
    requires ll[code] != [] && d[codeD] != []
    requires extra < Pow2(LengthExtra(LengthIndex(code))) && extraD < Pow2(DistanceExtra(codeD))
    requires At(s, bp, LengthBits(code, extra, ll)) && bp1 == bp + |ll[code]|
    requires bp2 == bp + |LengthBits(code, extra, ll)|
    requires At(s, bp2, DistanceBits(codeD, extraD, d)) && bp3 == bp2 + |DistanceBits(codeD, extraD, d)|
    requires DistanceBase(codeD) + extraD <= |out|
    ensures InflateSymbol(t.ll, t.d, s, bp, out)
         == Ok(Progress(bp3, Copy(out, DistanceBase(codeD) + extraD, LengthBase(LengthIndex(code)) + extra), false))
  {
    hide DecodeSymbol, InflateLength, InflateDistance, InflateSymbol, At, DistanceBase, DistanceExtra, Copy, Decodes,
        DistanceBits, LengthBits, LengthBase, LengthExtra;
    TreesDecodeOk(t, ll, d);
    LengthRead(t.ll, ll, s, bp, code, extra);
    DistanceAndPair(t, d, s, bp, bp1, bp2, bp3, code, LengthBase(LengthIndex(code)) + extra, codeD, extraD, out);
  }

  lemma SymbolsStep(t: Trees, s: seq<byte>, bp: nat, out: seq<byte>, bp': nat, out': seq<byte>)
    requires TreesOk(t) && InflateSymbol(t.ll, t.d, s, bp, out) == Ok(Progress(bp', out', false))
    ensures InflateSymbols(t.ll, t.d, s, bp, out) == InflateSymbols(t.ll, t.d, s, bp', out')
  {
  }

  /** Where the parts of a leading pair lie, and the end of all the codes. */
  lemma PairAt(ll: seq<seq<bit>>, d: seq<seq<bit>>, s: seq<byte>, bp: nat, v: seq<nat>)
    returns (bp1: nat, bp2: nat, bp3: nat)
    requires StartsWithPair(v) && HasWord(ll, v[0]) && At(s, bp, SymbolBits(v, ll, d))
    ensures At(s, bp, LengthBits(v[0], v[1], ll)) && bp1 == bp + |ll[v[0]]|
    ensures bp2 == bp + |LengthBits(v[0], v[1], ll)|
    ensures At(s, bp2, DistanceBits(v[2], v[3], d)) && bp3 == bp2 + |DistanceBits(v[2], v[3], d)|
    ensures At(s, bp3, SymbolBits(v[4..], ll, d))
    ensures bp3 + |SymbolBits(v[4..], ll, d)| == bp + |SymbolBits(v, ll, d)|
  {
    hide At, LengthBits, DistanceBits, LengthIndex;
    bp1 := bp + |ll[v[0]]|;
    bp2 := bp + |LengthBits(v[0], v[1], ll)|;
    bp3 := bp2 + |DistanceBits(v[2], v[3], d)|;
    AtSplit(s, bp, PairBits(v[0], v[1], v[2], v[3], ll, d), SymbolBits(v[4..], ll, d));
    AtSplit(s, bp, LengthBits(v[0], v[1], ll), DistanceBits(v[2], v[3], d));
  }

  lemma LiteralAt(ll: seq<seq<bit>>, d: seq<seq<bit>>, s: seq<byte>, bp: nat, v: seq<nat>) returns (bp1: nat)
    requires v != [] && v[0] <= 255 && HasWord(ll, v[0]) && At(s, bp, SymbolBits(v, ll, d))
    ensures At(s, bp, ll[v[0]]) && bp1 == bp + |ll[v[0]]|
    ensures At(s, bp1, SymbolBits(v[1..], ll, d))
    ensures bp1 + |SymbolBits(v[1..], ll, d)| == bp + |SymbolBits(v, ll, d)|
  {
    assert SymbolBits(v, ll, d) == Word(ll, v[0]) + SymbolBits(v[1..], ll, d);
    hide SymbolBits, At;
    AtSplit(s, bp, Word(ll, v[0]), SymbolBits(v[1..], ll, d));
    bp1 := bp + |ll[v[0]]|;
  }

  /** One literal or pair of the codes. */
  lemma ReadOneCode(t: Trees, ll: seq<seq<bit>>, d: seq<seq<bit>>, s: seq<byte>, bp: nat, v: seq<nat>, out: seq<byte>,
                    result: seq<byte>)
    returns (v': seq<nat>, bp': nat, out': seq<byte>)
    requires TreesDecode(t, ll, d) && v != [] && Encodable(v, ll, d)
    requires At(s, bp, SymbolBits(v, ll, d)) && ExpandCodes(v, out) == Ok(result)
    ensures |v'| < |v| && Encodable(v', ll, d)
    ensures At(s, bp', SymbolBits(v', ll, d)) && ExpandCodes(v', out') == Ok(result)
    ensures bp' + |SymbolBits(v', ll, d)| == bp + |SymbolBits(v, ll, d)|
    ensures InflateSymbols(t.ll, t.d, s, bp, out) == InflateSymbols(t.ll, t.d, s, bp', out')
  {
    hide InflateSymbol, InflateSymbols, At, Decodes, Copy, LengthBits, DistanceBits, SymbolBits;
    TreesDecodeOk(t, ll, d);
    if v[0] <= 255 {
      v', out' := v[1..], out + [v[0]];
      bp' := LiteralAt(ll, d, s, bp, v);
      LiteralRead(t, ll, d, s, bp, v[0], out);
      SymbolsStep(t, s, bp, out, bp', out');
    } else {
      v', out' := v[4..], Copy(out, PairDistance(v), PairLength(v));
      var bp1, bp2;
      bp1, bp2, bp' := PairAt(ll, d, s, bp, v);
      PairRead(t, ll, d, s, bp, bp1, bp2, bp', v[0], v[1], v[2], v[3], out);
      SymbolsStep(t, s, bp, out, bp', out');
    }
  }

  /** Decompressing the written codes expands them. */
  lemma {:induction false} SymbolsInverse(t: Trees, ll: seq<seq<bit>>, d: seq<seq<bit>>, s: seq<byte>, bp: nat,
                                          v: seq<nat>, out: seq<byte>, result: seq<byte>) returns (end: nat)
    requires TreesDecode(t, ll, d) && Encodable(v, ll, d)
    requires ExpandCodes(v, out) == Ok(result)
    requires At(s, bp, SymbolBits(v, ll, d))
    ensures end == bp + |SymbolBits(v, ll, d)|
    ensures InflateSymbols(t.ll, t.d, s, bp, out) == InflateSymbols(t.ll, t.d, s, end, result)
    decreases |v|
  {
    if v == [] {
      end := bp;
    } else {
      var v', bp', out' := ReadOneCode(t, ll, d, s, bp, v, out, result);
      end := SymbolsInverse(t, ll, d, s, bp', v', out', result);
    }
  }

  lemma EndRead(t: Trees, ll: seq<seq<bit>>, d: seq<seq<bit>>, s: seq<byte>, bp: nat, out: seq<byte>)
    requires TreesDecode(t, ll, d) && ll[256] != [] && At(s, bp, ll[256])
    ensures InflateSymbols(t.ll, t.d, s, bp, out) == Ok(Progress(bp + |ll[256]|, out, true))
  {
    assert DecodeSymbol(t.ll, s, bp) == (256, bp + |ll[256]|);
    assert InflateSymbol(t.ll, t.d, s, bp, out) == Ok(Progress(bp + |ll[256]|, out, true));
  }

  /** The codes of a block and the end code behind them. */
  ghost function DataBits(v: seq<nat>, ll: seq<seq<bit>>, d: seq<seq<bit>>): seq<bit> {
    SymbolBits(v, ll, d) + Word(ll, 256)
  }

  lemma DataAt(ll: seq<seq<bit>>, d: seq<seq<bit>>, s: seq<byte>, bp: nat, v: seq<nat>, mid: nat)
    requires HasWord(ll, 256) && mid == bp + |SymbolBits(v, ll, d)|
    ensures At(s, bp, DataBits(v, ll, d)) ==> At(s, bp, SymbolBits(v, ll, d)) && At(s, mid, ll[256])
  {
    AtSplit(s, bp, SymbolBits(v, ll, d), Word(ll, 256));
  }

  lemma EndOfSymbols(t: Trees, ll: seq<seq<bit>>, d: seq<seq<bit>>, s: seq<byte>, bp: nat, out: seq<byte>, mid: nat,
                     result: seq<byte>)
    requires TreesDecode(t, ll, d) && ll[256] != [] && At(s, mid, ll[256])
    requires InflateSymbols(t.ll, t.d, s, bp, out) == InflateSymbols(t.ll, t.d, s, mid, result)
    ensures InflateSymbols(t.ll, t.d, s, bp, out) == Ok(Progress(mid + |ll[256]|, result, true))
  {
    EndRead(t, ll, d, s, mid, result);
  }

  lemma DataInverse(t: Trees, ll: seq<seq<bit>>, d: seq<seq<bit>>, s: seq<byte>, bp: nat, v: seq<nat>, out: seq<byte>,
                    result: seq<byte>)
    returns (end: nat)
    requires TreesDecode(t, ll, d) && Encodable(v, ll, d) && ll[256] != []
    requires ExpandCodes(v, out) == Ok(result) && At(s, bp, DataBits(v, ll, d))
    ensures end == bp + |DataBits(v, ll, d)|
    ensures InflateSymbols(t.ll, t.d, s, bp, out) == Ok(Progress(end, result, true))
  {
    hide InflateSymbols, At, SymbolBits, ExpandCodes, Encodable;
    DataAt(ll, d, s, bp, v, bp + |SymbolBits(v, ll, d)|);
    var mid := SymbolsInverse(t, ll, d, s, bp, v, out, result);
    EndOfSymbols(t, ll, d, s, bp, out, mid, result);
    end := mid + |ll[256]|;
  }
}
