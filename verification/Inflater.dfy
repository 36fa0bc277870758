/** The decompressor as lodepng runs it: a bit pointer moved through the input
    and a growing output buffer. */
module Inflater {
  import opened Bits
  import opened HuffmanCodes
  import opened HuffmanTree
  import opened Inflate
  import opened Lz77Codes
  import opened RunLengths
  import opened Wrappers

  /** HuffmanTree_makeFromLengths */
  method MakeFromLengths(lengths: seq<nat>, maxbitlen: nat) returns (error: nat, tree2d: seq<nat>)
    requires LengthsAtMost(lengths, maxbitlen)
    ensures BuildTree(Codewords(lengths)) == if error == 0 then Ok(tree2d) else Error(error)
  {
    var tree1d := MakeCodes(lengths, maxbitlen);
    var tree;
    error, tree := Make2DTree(lengths, tree1d);
    tree2d := tree[..];
  }

  class Inflater {
    const source: seq<byte>
    var bp: nat
    var out: seq<byte>

    constructor (source: seq<byte>)
      ensures this.source == source && bp == 0 && out == []
    {
      this.source := source;
      bp, out := 0, [];
    }

    method ReadBits(nbits: nat) returns (value: nat)
      requires bp + nbits <= 8 * |source|
      modifies this`bp
      ensures bp == old(bp) + nbits && value == Bits.ReadBits(source, old(bp), nbits)
    {
      value, bp := ReadBitsFromStream(source, bp, nbits);
    }

    method DecodeSymbol(tree: seq<nat>) returns (code: nat)
      requires |tree| >= 2
      modifies this`bp
      ensures (code, bp) == HuffmanTree.DecodeSymbol(tree, source, old(bp))
    {
      code, bp := HuffmanDecodeSymbol(source, bp, tree);
    }

    /** Part 5 of a length code: byte by byte when the source overlaps the target,
        and otherwise as a whole. */
    method CopyBack(distance: nat, length: nat)
      requires 0 < distance <= |out|
      modifies this`out
      ensures out == Copy(old(out), distance, length)
    {
      var backward := |out| - distance;
      if distance >= length {
        CopyWithoutOverlap(out, distance, length);
        out := out + out[backward..backward + length];
        return;
      }
      for forward := 0 to length
        invariant backward == |out| - distance && |out| >= distance
        invariant Copy(out, distance, length - forward) == Copy(old(out), distance, length)
      {
        out := out + [out[backward]];
        backward := backward + 1;
      }
    }

    /** Parts 1 and 2 of a length code. */
    method InflateLength(code: nat) returns (error: nat, length: nat)
      requires FIRST_LENGTH_CODE_INDEX <= code <= LAST_LENGTH_CODE_INDEX
      modifies this`bp
      ensures Inflate.InflateLength(source, code, old(bp)) == if error == 0 then Ok((length, bp)) else Error(error)
    {
      var numextra;
      length, numextra := LookUpLength(LengthIndex(code));
      if bp + numextra > 8 * |source| { return 51, 0; }
      var extra := ReadBits(numextra);
      return 0, length + extra;
    }

    /** Parts 3 and 4. */
    method InflateDistance(d: seq<nat>) returns (error: nat, distance: nat)
      requires |d| == 2 * NUM_DISTANCE_SYMBOLS
      modifies this`bp
      ensures Inflate.InflateDistance(d, source, old(bp)) == if error == 0 then Ok((distance, bp)) else Error(error)
    {
      var code := DecodeSymbol(d);
      if code > 29 { return 18, 0; }
      var numextra;
      distance, numextra := LookUpDistance(code);
      if bp + numextra > 8 * |source| { return 51, 0; }
      var extra := ReadBits(numextra);
      return 0, distance + extra;
    }

    method InflatePair(d: seq<nat>, code: nat) returns (error: nat)
      requires |d| == 2 * NUM_DISTANCE_SYMBOLS
      requires FIRST_LENGTH_CODE_INDEX <= code <= LAST_LENGTH_CODE_INDEX
      modifies this
      ensures Inflate.InflatePair(d, source, code, old(bp), old(out))
           == if error == 0 then Ok(Progress(bp, out, false)) else Error(error)
    {
      var length, distance;
      error, length := InflateLength(code);
      if error != 0 { return; }
      error, distance := InflateDistance(d);
      if error != 0 { return; }
      if distance > |out| { return 52; }
      CopyBack(distance, length);
    }

    method InflateSymbol(ll: seq<nat>, d: seq<nat>) returns (error: nat, done: bool)
      requires |ll| == 2 * NUM_DEFLATE_CODE_SYMBOLS && |d| == 2 * NUM_DISTANCE_SYMBOLS
      modifies this
      ensures Inflate.InflateSymbol(ll, d, source, old(bp), old(out))
           == if error == 0 then Ok(Progress(bp, out, done)) else Error(error)
    {
      error, done := 0, false;
      var code := DecodeSymbol(ll);
      if code <= 255 {
        out := out + [code];
      } else if FIRST_LENGTH_CODE_INDEX <= code <= LAST_LENGTH_CODE_INDEX {
        error := InflatePair(d, code);
      } else if code == 256 {
        done := true;
      } else {
        error := if bp > 8 * |source| then 10 else 11;
      }
    }

    method InflateSymbols(ll: seq<nat>, d: seq<nat>) returns (error: nat)
      requires |ll| == 2 * NUM_DEFLATE_CODE_SYMBOLS && |d| == 2 * NUM_DISTANCE_SYMBOLS
      modifies this
      ensures Inflate.InflateSymbols(ll, d, source, old(bp), old(out))
           == if error == 0 then Ok(Progress(bp, out, true)) else Error(error)
    {
      var done := false;
      while true
        invariant Inflate.InflateSymbols(ll, d, source, old(bp), old(out))
                  == Inflate.InflateSymbols(ll, d, source, bp, out)
        decreases 8 * |source| - bp
      {
        error, done := InflateSymbol(ll, d);
        if error != 0 || done { return; }
      }
    }

    /** The code length code lengths, stored three bits each. */
    method ReadClLengths(hclen: nat) returns (cl: seq<nat>)
      requires bp + 3 * hclen <= 8 * |source| && hclen <= NUM_CODE_LENGTH_CODES
      modifies this`bp
      ensures bp == old(bp) + 3 * hclen
      ensures cl == Inflate.ReadClLengths(source, old(bp), hclen, NUM_CODE_LENGTH_CODES)
      ensures LengthsAtMost(cl, 7)
      ensures |cl| == NUM_CODE_LENGTH_CODES
      ensures forall k: nat {:trigger cl[k]} :: k < NUM_CODE_LENGTH_CODES ==>
                var i := PlaceOfSymbol(k);
                cl[k] == if i < hclen then Bits.ReadBits(source, old(bp) + 3 * i, 3) else 0
    {
      hide Bits.ReadBits, PlaceOfSymbol;
      OrderInRange();
      cl := Repeat(0, NUM_CODE_LENGTH_CODES);
      assert Pow2(3) == 8;
      for i := 0 to NUM_CODE_LENGTH_CODES
        invariant bp == old(bp) + 3 * if i < hclen then i else hclen
        invariant cl == Inflate.ReadClLengths(source, old(bp), hclen, i)
        invariant LengthsAtMost(cl, 7)
      {
        var v := 0;
        if i < hclen { v := ReadBits(3); }
        cl := cl[CLCL_ORDER[i] := v];
      }
      forall k: nat | k < NUM_CODE_LENGTH_CODES
        ensures var i := PlaceOfSymbol(k);
                cl[k] == if i < hclen then Bits.ReadBits(source, old(bp) + 3 * i, 3) else 0
      {
        ClLengthAtPlace(source, old(bp), hclen, k);
      }
    }

    /** The next code length goes to the literal/length or the distance alphabet. */
    method SetLength(ll: array<nat>, d: array<nat>, hlit: nat, i: nat, value: nat)
      requires TwoAlphabets(ll, d, hlit) && i < hlit + NUM_DISTANCE_SYMBOLS && RestZero(ll[..], d[..], hlit, i)
      requires value <= 15
      modifies ll, d
      ensures RestZero(ll[..], d[..], hlit, i + 1)
      ensures Joined(ll[..], d[..], hlit, i + 1) == old(Joined(ll[..], d[..], hlit, i)) + [value]
    {
      if i < hlit { ll[i] := value; } else { d[i - hlit] := value; }
    }

    /** Repeats a length until `total` lengths are there. */
    method FillLengths(ll: array<nat>, d: array<nat>, hlit: nat, total: nat, i0: nat, value: nat, replength: nat)
      returns (overflow: bool, i: nat)
      requires TwoAlphabets(ll, d, hlit) && i0 <= total <= hlit + NUM_DISTANCE_SYMBOLS
               && RestZero(ll[..], d[..], hlit, i0)
      requires value <= 15
      modifies ll, d
      ensures i <= total && RestZero(ll[..], d[..], hlit, i)
      ensures overflow == (i0 + replength > total)
      ensures !overflow ==>
                && i == i0 + replength
                && Joined(ll[..], d[..], hlit, i) == old(Joined(ll[..], d[..], hlit, i0)) + Repeat(value, replength)
    {
      i := i0;
      for n := 0 to replength
        invariant i == i0 + n <= total && RestZero(ll[..], d[..], hlit, i)
        invariant Joined(ll[..], d[..], hlit, i) == old(Joined(ll[..], d[..], hlit, i0)) + Repeat(value, n)
      {
        if i >= total { return true, i; }
        SetLength(ll, d, hlit, i, value);
        i := i + 1;
      }
      overflow := false;
    }

    /** One symbol of the code lengths. */
    method ReadLength(tree: seq<nat>, ll: array<nat>, d: array<nat>, hlit: nat, total: nat, i0: nat)
      returns (error: nat, i: nat)
      requires |tree| >= 2 && TwoAlphabets(ll, d, hlit) && i0 < total <= hlit + NUM_DISTANCE_SYMBOLS
      requires RestZero(ll[..], d[..], hlit, i0)
      modifies this`bp, ll, d
      ensures i <= total && RestZero(ll[..], d[..], hlit, i)
      ensures RunLengths.ReadLength(tree, source, old(bp), total, old(Joined(ll[..], d[..], hlit, i0)))
           == if error == 0 then Ok((Joined(ll[..], d[..], hlit, i), bp)) else Error(error)
    {
      hide HuffmanTree.DecodeSymbol, Bits.ReadBits;
      error, i := 0, i0;
      var code := DecodeSymbol(tree);
      if code <= 15 {
        SetLength(ll, d, hlit, i, code);
        i := i + 1;
      } else if code <= 18 {
        if code == 16 && i == 0 { return 54, i; } // can't repeat previous
        if bp + ExtraBits(code) > 8 * |source| { return 50, i; }
        var value := 0;
        if code == 16 { value := if i < hlit + 1 then ll[i - 1] else d[i - hlit - 1]; }
        var extra := ReadBits(ExtraBits(code));
        var overflow;
        overflow, i := FillLengths(ll, d, hlit, total, i, value, extra + if code == 18 then 11 else 3);
        if overflow { error := code - 3; }
      } else if code == NO_SYMBOL {
        error := if bp > 8 * |source| then 10 else 11;
      } else {
        error := 16;
      }
    }

    method ReadLengths(tree: seq<nat>, ll: array<nat>, d: array<nat>, hlit: nat, total: nat) returns (error: nat)
      requires |tree| >= 2 && TwoAlphabets(ll, d, hlit) && total <= hlit + NUM_DISTANCE_SYMBOLS
      requires RestZero(ll[..], d[..], hlit, 0)
      modifies this`bp, ll, d
      ensures RestZero(ll[..], d[..], hlit, total) || error != 0
      ensures RunLengths.ReadLengths(tree, source, old(bp), total, [])
           == if error == 0 then Ok((Joined(ll[..], d[..], hlit, total), bp)) else Error(error)
    {
      var i: nat := 0;
      assert Joined(ll[..], d[..], hlit, 0) == [];
      while i < total
        invariant i <= total && RestZero(ll[..], d[..], hlit, i)
        invariant RunLengths.ReadLengths(tree, source, old(bp), total, [])
               == RunLengths.ReadLengths(tree, source, bp, total, Joined(ll[..], d[..], hlit, i))
        decreases 8 * |source| - bp
      {
        error, i := ReadLength(tree, ll, d, hlit, total, i);
        if error != 0 { return; }
      }
      error := 0;
    }

    /** Both trees of a block with dynamic codes, from the lengths read. */
    method TreesFromLengths(ll: seq<nat>, d: seq<nat>) returns (error: nat, trees: Trees)
      requires |ll| == NUM_DEFLATE_CODE_SYMBOLS && |d| == NUM_DISTANCE_SYMBOLS
      requires LengthsAtMost(ll, 15) && LengthsAtMost(d, 15)
      ensures TreesForLengths(ll, d, bp) == if error == 0 then Ok(trees) else Error(error)
    {
      trees := Trees([], [], bp);
      if ll[256] == 0 { return 64, trees; } // the length of the end code must be larger than 0
      var treeLl, treeD;
      error, treeLl := MakeFromLengths(ll, 15);
      if error != 0 { return; }
      error, treeD := MakeFromLengths(d, 15);
      trees := Trees(treeLl, treeD, bp);
    }

    method ReadHeader() returns (error: nat, h: Header)
      modifies this`bp
      ensures Inflate.ReadHeader(source, old(bp)) == if error == 0 then Ok(h) else Error(error)
      ensures error == 0 ==> bp == old(bp) + 14
    {
      hide Bits.ReadBits;
      h := Header(0, 0, 0);
      if bp + 14 > 8 * |source| { return 49, h; }
      var hlit := ReadBits(5);
      var hdist := ReadBits(5);
      var hclen := ReadBits(4);
      h := Header(hlit + 257, hdist + 1, hclen + 4);
      error := if bp + h.hclen * 3 > 8 * |source| then 50 else 0;
    }

    method ReadBothLengths(h: Header) returns (error: nat, ll: array<nat>, d: array<nat>)
      requires HeaderOk(h) && bp + 3 * h.hclen <= 8 * |source|
      modifies this`bp
      ensures fresh(ll) && fresh(d) && TwoAlphabets(ll, d, h.hlit)
      ensures Inflate.ReadBothLengths(source, old(bp), h)
           == if error == 0 then Ok((Joined(ll[..], d[..], h.hlit, h.hlit + h.hdist), bp)) else Error(error)
      ensures error == 0 ==> RestZero(ll[..], d[..], h.hlit, h.hlit + h.hdist)
    {
      hide Inflate.ReadClLengths, RunLengths.ReadLengths, BuildTree, Codewords;
      ll := new nat[NUM_DEFLATE_CODE_SYMBOLS](_ => 0);
      d := new nat[NUM_DISTANCE_SYMBOLS](_ => 0);
      var cl := ReadClLengths(h.hclen);
      var treeCl;
      error, treeCl := MakeFromLengths(cl, 7);
      if error != 0 { return; }
      error := ReadLengths(treeCl, ll, d, h.hlit, h.hlit + h.hdist);
    }

    /** getTreeInflateDynamic */
    method DynamicTrees() returns (error: nat, trees: Trees)
      modifies this`bp
      ensures Inflate.DynamicTrees(source, old(bp)) == if error == 0 then Ok(trees) else Error(error)
      ensures error == 0 ==> bp == trees.bp
    {
      trees := Trees([], [], bp);
      var h, ll, d;
      error, h := ReadHeader();
      if error != 0 { return; }
      error, ll, d := ReadBothLengths(h);
      if error != 0 { return; }
      JoinedIsPadded(ll[..], d[..], h.hlit, h.hlit + h.hdist);
      error, trees := TreesFromLengths(ll[..], d[..]);
    }

    /** getTreeInflateFixed; the fixed lengths never give an error. */
    method FixedTrees() returns (trees: Trees)
      ensures Inflate.FixedTrees(bp) == Ok(trees)
    {
      var errorLl, ll := MakeFromLengths(FixedLitLenLengths(), 15);
      var errorD, d := MakeFromLengths(FixedDistanceLengths(), 15);
      FixedTreesBuild();
      trees := Trees(ll, d, bp);
    }

    method InflateHuffmanBlock(btype: nat) returns (error: nat)
      requires btype == 1 || btype == 2
      modifies this
      ensures Inflate.InflateHuffmanBlock(source, old(bp), old(out), btype)
           == if error == 0 then Ok(Progress(bp, out, true)) else Error(error)
    {
      var trees;
      error := 0;
      if btype == 1 {
        trees := FixedTrees();
      } else {
        error, trees := DynamicTrees();
        if error != 0 { return; }
      }
      error := InflateSymbols(trees.ll, trees.d);
    }

    method InflateNoCompression() returns (error: nat)
      modifies this
      ensures Inflate.InflateNoCompression(source, old(bp), old(out))
           == if error == 0 then Ok(Progress(bp, out, true)) else Error(error)
    {
      // go to first boundary of byte
      var b := bp;
      while b % 8 != 0
        invariant bp <= b <= 8 * ((bp + 7) / 8)
        decreases 8 * ((bp + 7) / 8) - b
      {
        b := b + 1;
      }
      var p := b / 8;
      if p + 4 >= |source| { return 52; }
      var len := source[p] as int + 256 * source[p + 1] as int;
      var nlen := source[p + 2] as int + 256 * source[p + 3] as int;
      p := p + 4;
      if len + nlen != 65535 { return 21; }
      if p + len > |source| { return 23; }
      for n := 0 to len
        invariant out == old(out) + source[p..p + n]
      {
        out := out + [source[p + n]];
      }
      bp := 8 * (p + len);
      return 0;
    }

    method InflateBlock() returns (error: nat, bfinal: bool)
      modifies this
      ensures Inflate.InflateBlock(source, old(bp), old(out))
           == if error == 0 then Ok(Progress(bp, out, bfinal)) else Error(error)
    {
      hide Inflate.InflateHuffmanBlock, Inflate.InflateNoCompression, StreamBit;
      if bp + 2 >= 8 * |source| { return 52, false; }
      bfinal := StreamBit(source, bp) == 1;
      var btype := StreamBit(source, bp + 1) as int + 2 * StreamBit(source, bp + 2) as int;
      bp := bp + 3;
      if btype == 3 { return 20, bfinal; }
      if btype == 0 { error := InflateNoCompression(); }
      else { error := InflateHuffmanBlock(btype); }
    }

    /** lodepng_inflatev */
    method InflateV() returns (error: nat)
      requires bp == 0 && out == []
      modifies this
      ensures InflateAll(source) == if error == 0 then Ok(out) else Error(error)
    {
      var bfinal := false;
      while true
        invariant InflateAll(source) == InflateBlocks(source, bp, out)
        decreases 8 * |source| - bp
      {
        error, bfinal := InflateBlock();
        if error != 0 || bfinal { return; }
      }
    }
  }

  /** The lengths of the fixed codes fill all code space. */
  lemma FixedTreesBuild()
    ensures BuildTree(Codewords(FixedLitLenLengths())).Ok? && BuildTree(Codewords(FixedDistanceLengths())).Ok?
  {
    FixedCodesComplete();
    CompleteCodeBuilds(FixedLitLenLengths(), 15);
    CompleteCodeBuilds(FixedDistanceLengths(), 15);
  }

  lemma JoinedIsPadded(ll: seq<nat>, d: seq<nat>, hlit: nat, total: nat)
    requires hlit <= total <= hlit + |d| && hlit <= |ll| && RestZero(ll, d, hlit, total)
    ensures ll == Pad(Joined(ll, d, hlit, total)[..hlit], |ll|)
    ensures d == Pad(Joined(ll, d, hlit, total)[hlit..], |d|)
  {
  }

  ghost predicate TwoAlphabets(ll: array<nat>, d: array<nat>, hlit: nat) {
    ll != d && hlit <= ll.Length == NUM_DEFLATE_CODE_SYMBOLS && d.Length == NUM_DISTANCE_SYMBOLS
  }

  /** The first `i` lengths: those of the literal/length alphabet, then those of
      the distance alphabet. */
  ghost function Joined(ll: seq<nat>, d: seq<nat>, hlit: nat, i: nat): (r: seq<nat>)
    requires hlit <= |ll| && i <= hlit + |d|
    ensures |r| == i
  {
    if i <= hlit then ll[..i] else ll[..hlit] + d[..i - hlit]
  }

  /** No length exceeds 15 and those not yet read are zero. */
  ghost predicate RestZero(ll: seq<nat>, d: seq<nat>, hlit: nat, i: nat) {
    && LengthsAtMost(ll, 15) && LengthsAtMost(d, 15)
    && (forall k :: 0 <= k < |ll| && (i <= k || hlit <= k) ==> ll[k] == 0)
    && (forall k :: 0 <= k < |d| && i <= hlit + k ==> d[k] == 0)
  }
}
