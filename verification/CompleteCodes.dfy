/** Complete codes leave nothing undecodable: decoding accepts exactly the code
    words, and fails only at the end of the input. */
module CompleteCodes {
  import opened Bits
  import opened HuffmanCodes
  import opened HuffmanTree

  // ----- every long enough bit string starts with a code word

  /** The symbol with length `l` that comes after `c` others of that length. */
  lemma {:induction false} SymbolAtRank(lengths: seq<nat>, n: nat, l: nat, c: nat) returns (s: nat)
    requires n <= |lengths| && c < CountBefore(lengths, n, l)
    ensures s < n && lengths[s] == l && CountBefore(lengths, s, l) == c
  {
    if lengths[n - 1] == l && CountBefore(lengths, n - 1, l) == c {
      s := n - 1;
    } else {
      s := SymbolAtRank(lengths, n - 1, l, c);
    }
  }

  /** The first length at which the bits fall below the end of the codes. */
  lemma {:induction false} LengthBelowEnd(lengths: seq<nat>, q: seq<bit>, l: nat) returns (m: nat)
    requires l <= |q| && Val(q[..l]) < EndCode(lengths, l)
    ensures 0 < m <= l && FirstCode(lengths, m) <= Val(q[..m]) < EndCode(lengths, m)
    decreases l
  {
    if FirstCode(lengths, l) <= Val(q[..l]) {
      m := l;
    } else {
      assert q[..l][..l - 1] == q[..l - 1];
      m := LengthBelowEnd(lengths, q, l - 1);
    }
  }

  lemma CompleteCodeCovers(lengths: seq<nat>, max: nat, q: seq<bit>) returns (s: nat)
    requires Complete(lengths, max) && |q| == max
    ensures s < |lengths| && lengths[s] > 0 && Codeword(lengths, s) <= q
  {
    KraftIsEndCode(lengths, max);
    ValBound(q);
    assert q[..max] == q;
    var l := LengthBelowEnd(lengths, q, max);
    s := SymbolAtRank(lengths, |lengths|, l, Val(q[..l]) - FirstCode(lengths, l));
    CodewordRange(lengths, max, s);
    ValInjective(Codeword(lengths, s), q[..l]);
  }

  lemma {:induction false} ValBound(w: seq<bit>)
    ensures Val(w) < Pow2(|w|)
    decreases |w|
  {
    if w != [] { ValBound(w[..|w| - 1]); }
  }

  // ----- decoding reads no further than it says

  lemma {:induction false} DecodeExtends(tree: seq<nat>, s: seq<byte>, full: seq<byte>, bp: nat, pos: nat)
    requires pos < |tree| / 2 && s <= full && DecodeFrom(tree, s, bp, pos).0 != NO_SYMBOL
    ensures DecodeFrom(tree, full, bp, pos) == DecodeFrom(tree, s, bp, pos)
    decreases 8 * |s| - bp
  {
    assert full[bp / 8] == s[bp / 8];
    var ct := tree[2 * pos + StreamBit(s, bp)];
    if ct >= |tree| / 2 { DecodeExtends(tree, s, full, bp + 1, ct - |tree| / 2); }
  }

  /** `n` bits of the stream from `bp` on. */
  ghost function Window(s: seq<byte>, bp: nat, n: nat): (q: seq<bit>)
    requires bp + n <= 8 * |s|
    ensures |q| == n
  {
    seq<bit>(n, i requires 0 <= i < n => StreamBit(s, bp + i))
  }

  lemma WindowAt(s: seq<byte>, bp: nat, n: nat, w: seq<bit>)
    requires bp + n <= 8 * |s| && w <= Window(s, bp, n)
    ensures At(s, bp, w)
  {
    FirstAtIntro(s, bp, w, |w|);
  }

  lemma AtRestricts(s: seq<byte>, full: seq<byte>, bp: nat, w: seq<bit>)
    requires s <= full && At(full, bp, w) && bp + |w| <= 8 * |s|
    ensures At(s, bp, w)
  {
    forall i | 0 <= i < |w| ensures StreamBit(s, bp + i) == w[i] {
      AtBit(full, bp, w, i);
      assert full[(bp + i) / 8] == s[(bp + i) / 8];
    }
    FirstAtIntro(s, bp, w, |w|);
  }

  ghost predicate Reads(lengths: seq<nat>, s: seq<byte>, bp: nat, symbol: nat, bp': nat) {
    symbol < |lengths| && lengths[symbol] > 0 && At(s, bp, Codeword(lengths, symbol)) && bp' == bp + lengths[symbol]
  }

  /** With a complete code, what is decoded is exactly what was encoded: a symbol
      comes out if and only if its code word is there. */
  lemma DecodeIsExact(lengths: seq<nat>, max: nat, s: seq<byte>, bp: nat, symbol: nat, bp': nat)
    requires Complete(lengths, max) && 0 < |lengths| <= MAX_NUMCODES
    ensures BuildTree(Codewords(lengths)).Ok?
    ensures Reads(lengths, s, bp, symbol, bp')
       <==> symbol != NO_SYMBOL && DecodeSymbol(BuildTree(Codewords(lengths)).value, s, bp) == (symbol, bp')
  {
    hide At, BuildTree, Codeword, DecodeFrom, KraftSum, NotOversubscribed;
    CompleteCodeBuilds(lengths, max);
    CompleteIsNot(lengths, max);
    var tree := BuildTree(Codewords(lengths)).value;
    if Reads(lengths, s, bp, symbol, bp') {
      DecodeUndoesEncode(lengths, max, symbol, s, bp);
    }
    if symbol != NO_SYMBOL && DecodeSymbol(tree, s, bp) == (symbol, bp') {
      var full := s + seq(max, _ => 0);
      DecodeExtends(tree, s, full, bp, 0);
      var found := CompleteCodeCovers(lengths, max, Window(full, bp, max));
      WindowAt(full, bp, max, Codeword(lengths, found));
      DecodeUndoesEncode(lengths, max, found, full, bp);
      AtRestricts(s, full, bp, Codeword(lengths, found));
    }
  }

  lemma CompleteIsNot(lengths: seq<nat>, max: nat)
    requires Complete(lengths, max)
    ensures NotOversubscribed(lengths, max)
  {
  }
}
