/** Canonical Huffman codes (RFC 1951, section 3.2.2) and lodepng's way of
    numbering them. */
module HuffmanCodes {
  import opened Bits

  /** How many of the first `n` symbols have length `l`. */
  function CountBefore(lengths: seq<nat>, n: nat, l: nat): (c: nat)
    requires n <= |lengths|
    ensures c <= n
  {
    if n == 0 then 0
    else CountBefore(lengths, n - 1, l) + if lengths[n - 1] == l then 1 else 0
  }

  function Count(lengths: seq<nat>, l: nat): nat {
    CountBefore(lengths, |lengths|, l)
  }

  /** Step 2 of the standard: the smallest code of length `l`, where symbols of
      length 0 count for nothing. */
  function FirstCode(lengths: seq<nat>, l: nat): nat
    decreases l, 0
  {
    if l == 0 then 0 else 2 * EndCode(lengths, l - 1)
  }

  /** One past the largest code of length `l`. */
  function EndCode(lengths: seq<nat>, l: nat): nat
    decreases l, 1
  {
    if l == 0 then 0 else FirstCode(lengths, l) + Count(lengths, l)
  }

  /** Step 3 of the standard: consecutive codes in symbol order. */
  function CodeValue(lengths: seq<nat>, s: nat): nat
    requires s < |lengths|
  {
    FirstCode(lengths, lengths[s]) + CountBefore(lengths, s, lengths[s])
  }

  /** The code word of symbol `s`; empty for an absent symbol. */
  function Codeword(lengths: seq<nat>, s: nat): (w: seq<bit>)
    requires s < |lengths|
    ensures |w| == lengths[s]
  {
    ToBitsReversed(CodeValue(lengths, s), lengths[s])
  }

  function Codewords(lengths: seq<nat>): (ws: seq<seq<bit>>)
    ensures |ws| == |lengths|
  {
    seq(|lengths|, s requires 0 <= s < |lengths| => Codeword(lengths, s))
  }

  ghost predicate LengthsAtMost(lengths: seq<nat>, max: nat) {
    forall s :: 0 <= s < |lengths| ==> lengths[s] <= max
  }

  /** The sum of 2^(max-length) over the first `n` symbols that are present and
      not longer than `max`. */
  function KraftSum(lengths: seq<nat>, n: nat, max: nat): nat
    requires n <= |lengths|
  {
    if n == 0 then 0
    else KraftSum(lengths, n - 1, max) +
         if 0 < lengths[n - 1] <= max then Pow2(max - lengths[n - 1]) else 0
  }

  /** Kraft's inequality: the code is not oversubscribed. */
  ghost predicate NotOversubscribed(lengths: seq<nat>, max: nat) {
    LengthsAtMost(lengths, max) && KraftSum(lengths, |lengths|, max) <= Pow2(max)
  }

  /** Kraft's equality: every bit string starts with a code word or is the start of one. */
  ghost predicate Complete(lengths: seq<nat>, max: nat) {
    LengthsAtMost(lengths, max) && KraftSum(lengths, |lengths|, max) == Pow2(max)
  }

  // ----- arithmetic of code values

  lemma {:induction false} KraftDoubles(lengths: seq<nat>, n: nat, max: nat)
    requires n <= |lengths| && max > 0
    ensures KraftSum(lengths, n, max) == 2 * KraftSum(lengths, n, max - 1) + CountBefore(lengths, n, max)
  {
    if n > 0 { KraftDoubles(lengths, n - 1, max); }
  }

  lemma {:induction false} KraftAtZero(lengths: seq<nat>, n: nat)
    requires n <= |lengths|
    ensures KraftSum(lengths, n, 0) == 0
  {
    if n > 0 { KraftAtZero(lengths, n - 1); }
  }

  /** The codes used up to length `max` are exactly the Kraft sum. */
  lemma {:induction false} KraftIsEndCode(lengths: seq<nat>, max: nat)
    ensures KraftSum(lengths, |lengths|, max) == EndCode(lengths, max)
  {
    if max == 0 {
      KraftAtZero(lengths, |lengths|);
    } else {
      KraftDoubles(lengths, |lengths|, max);
      KraftIsEndCode(lengths, max - 1);
    }
  }

  lemma {:induction false} EndCodeFits(lengths: seq<nat>, l: nat, max: nat)
    requires EndCode(lengths, max) <= Pow2(max) && l <= max
    ensures EndCode(lengths, l) <= Pow2(l)
    decreases max - l
  {
    if l < max {
      EndCodeFits(lengths, l + 1, max);
    }
  }

  lemma {:induction false} CountBeforeStrict(lengths: seq<nat>, s: nat, n: nat, l: nat)
    requires s < n <= |lengths| && lengths[s] == l
    ensures CountBefore(lengths, s, l) < CountBefore(lengths, n, l)
  {
    if s + 1 < n { CountBeforeStrict(lengths, s, n - 1, l); }
    CountBeforeGrows(lengths, s, n - 1, l);
  }

  lemma {:induction false} CountBeforeGrows(lengths: seq<nat>, s: nat, n: nat, l: nat)
    requires s <= n <= |lengths|
    ensures CountBefore(lengths, s, l) <= CountBefore(lengths, n, l)
  {
    if s < n { CountBeforeGrows(lengths, s, n - 1, l); }
  }

  /** A code lies among those of its length. */
  lemma CodeValueRange(lengths: seq<nat>, s: nat)
    requires s < |lengths| && lengths[s] > 0
    ensures FirstCode(lengths, lengths[s]) <= CodeValue(lengths, s) < EndCode(lengths, lengths[s])
  {
    CountBeforeStrict(lengths, s, |lengths|, lengths[s]);
  }

  // ----- prefixes

  /** The number a bit string stands for, most significant bit first. */
  function Val(w: seq<bit>): nat {
    if w == [] then 0 else 2 * Val(w[..|w| - 1]) + w[|w| - 1]
  }

  lemma {:induction false} ReversedSnoc(v: nat, n: nat)
    ensures ToBitsReversed(v, n + 1) == ToBitsReversed(v / 2, n) + [v % 2]
  {
    forall i | 0 <= i < n + 1
      ensures ToBitsReversed(v, n + 1)[i] == (ToBitsReversed(v / 2, n) + [v % 2])[i]
    {
      ToBitsReversedAt(v, n + 1, i);
      if i < n { ToBitsReversedAt(v / 2, n, i); }
    }
  }

  lemma {:induction false} ValOfReversed(v: nat, n: nat)
    requires v < Pow2(n)
    ensures Val(ToBitsReversed(v, n)) == v
  {
    if n > 0 {
      ReversedSnoc(v, n - 1);
      assert ToBitsReversed(v, n)[..n - 1] == ToBitsReversed(v / 2, n - 1);
      ValOfReversed(v / 2, n - 1);
    }
  }

  lemma {:induction false} ValInjective(a: seq<bit>, b: seq<bit>)
    requires |a| == |b| && Val(a) == Val(b)
    ensures a == b
  {
    if a != [] {
      ValInjective(a[..|a| - 1], b[..|b| - 1]);
      assert a == a[..|a| - 1] + [a[|a| - 1]];
      assert b == b[..|b| - 1] + [b[|b| - 1]];
    }
  }

  /** `v >> k`. */
  function Shr(v: nat, k: nat): nat {
    if k == 0 then v else Shr(v / 2, k - 1)
  }

  /** Cutting `k` bits off the end is a shift. */
  lemma {:induction false} ReversedPrefix(v: nat, n: nat, k: nat)
    requires k <= n
    ensures ToBitsReversed(v, n)[..n - k] == ToBitsReversed(Shr(v, k), n - k)
  {
    if k > 0 {
      ReversedSnoc(v, n - 1);
      assert ToBitsReversed(v, n)[..n - k] == ToBitsReversed(v / 2, n - 1)[..n - k];
      ReversedPrefix(v / 2, n - 1, k - 1);
    }
  }

  lemma {:induction false} ShrFits(v: nat, n: nat, k: nat)
    requires k <= n && v < Pow2(n)
    ensures Shr(v, k) < Pow2(n - k)
  {
    if k > 0 { ShrFits(v / 2, n - 1, k - 1); }
  }

  lemma {:induction false} ShrBeyond(lengths: seq<nat>, v: nat, n: nat, l: nat)
    requires l < n && FirstCode(lengths, n) <= v
    ensures EndCode(lengths, l) <= Shr(v, n - l)
  {
    assert EndCode(lengths, n - 1) <= v / 2;
    if l < n - 1 { ShrBeyond(lengths, v / 2, n - 1, l); }
  }

  /** The prefix of length `l` of a longer code lies beyond all codes of length `l`. */
  lemma PrefixIsInternal(lengths: seq<nat>, max: nat, s: nat, l: nat)
    requires NotOversubscribed(lengths, max)
    requires s < |lengths| && l < lengths[s]
    ensures EndCode(lengths, l) <= Val(Codeword(lengths, s)[..l]) < Pow2(l)
  {
    hide Val, CodeValue, Shr, FirstCode, EndCode, ToBitsReversed, Pow2;
    var n := lengths[s];
    var v := CodeValue(lengths, s);
    CodewordRange(lengths, max, s);
    ReversedPrefix(v, n, n - l);
    ShrFits(v, n, n - l);
    ValOfReversed(Shr(v, n - l), l);
    ShrBeyond(lengths, v, n, l);
  }

  lemma CodewordRange(lengths: seq<nat>, max: nat, s: nat)
    requires NotOversubscribed(lengths, max) && s < |lengths| && lengths[s] > 0
    ensures FirstCode(lengths, lengths[s]) <= CodeValue(lengths, s) < EndCode(lengths, lengths[s]) <= Pow2(lengths[s])
    ensures Val(Codeword(lengths, s)) == CodeValue(lengths, s)
  {
    CodeValueRange(lengths, s);
    KraftIsEndCode(lengths, max);
    EndCodeFits(lengths, lengths[s], max);
    ValOfReversed(CodeValue(lengths, s), lengths[s]);
  }

  ghost predicate PrefixFree(words: seq<seq<bit>>) {
    forall s, t :: 0 <= s < |words| && 0 <= t < |words| && s != t && words[s] != [] ==> !(words[s] <= words[t])
  }

  /** Canonical codes that satisfy Kraft's inequality are prefix-free. */
  lemma CodewordsPrefixFree(lengths: seq<nat>, max: nat)
    requires NotOversubscribed(lengths, max)
    ensures PrefixFree(Codewords(lengths))
  {
    var words := Codewords(lengths);
    forall s, t | 0 <= s < |words| && 0 <= t < |words| && s != t && words[s] != []
      ensures !(words[s] <= words[t])
    {
      if words[s] <= words[t] {
        var l := lengths[s];
        CodewordRange(lengths, max, s);
        assert Codeword(lengths, t)[..l] == Codeword(lengths, s);
        if l < lengths[t] {
          PrefixIsInternal(lengths, max, t, l);
        } else {
          assert Codeword(lengths, t) == Codeword(lengths, s);
          CodewordRange(lengths, max, t);
          if s < t { CountBeforeStrict(lengths, s, t, l); } else { CountBeforeStrict(lengths, t, s, l); }
        }
      }
    }
  }

  // ----- the two rules of the standard

  lemma {:induction false} NoneBetween(lengths: seq<nat>, s: nat, t: nat)
    requires s < t < |lengths| && forall r :: s < r < t ==> lengths[r] != lengths[s]
    ensures CountBefore(lengths, t, lengths[s]) == CountBefore(lengths, s, lengths[s]) + 1
  {
    if s + 1 < t { NoneBetween(lengths, s, t - 1); }
  }

  /** Codes of one length are consecutive in symbol order. */
  lemma ConsecutiveCodes(lengths: seq<nat>, max: nat, s: nat, t: nat)
    requires NotOversubscribed(lengths, max) && s < t < |lengths| && lengths[s] == lengths[t] > 0
    requires forall r :: s < r < t ==> lengths[r] != lengths[s]
    ensures Val(Codeword(lengths, t)) == Val(Codeword(lengths, s)) + 1
  {
    hide Val, Codeword, FirstCode;
    NoneBetween(lengths, s, t);
    CodewordRange(lengths, max, s);
    CodewordRange(lengths, max, t);
  }

  /** Shorter codes precede longer ones in lexicographic order. */
  lemma ShorterCodesFirst(lengths: seq<nat>, max: nat, s: nat, t: nat)
    requires NotOversubscribed(lengths, max) && s < |lengths| && t < |lengths| && 0 < lengths[s] < lengths[t]
    ensures Val(Codeword(lengths, s)) < Val(Codeword(lengths, t)[..lengths[s]])
  {
    CodewordRange(lengths, max, s);
    PrefixIsInternal(lengths, max, t, lengths[s]);
  }

  lemma {:induction false} NothingShorter(lengths: seq<nat>, l: nat)
    requires forall r :: 0 <= r < |lengths| ==> lengths[r] == 0 || lengths[r] > l
    ensures EndCode(lengths, l) == 0
  {
    if l > 0 {
      NothingShorter(lengths, l - 1);
      NoneOf(lengths, |lengths|, l);
    }
  }

  lemma {:induction false} NoneOf(lengths: seq<nat>, n: nat, l: nat)
    requires n <= |lengths| && forall r :: 0 <= r < n ==> lengths[r] != l
    ensures CountBefore(lengths, n, l) == 0
  {
    if n > 0 { NoneOf(lengths, n - 1, l); }
  }

  /** The first code consists of zeros. */
  lemma FirstCodeIsZero(lengths: seq<nat>, max: nat, s: nat)
    requires NotOversubscribed(lengths, max) && s < |lengths| && lengths[s] > 0
    requires forall r :: 0 <= r < |lengths| ==> lengths[r] == 0 || lengths[r] >= lengths[s]
    requires forall r :: 0 <= r < s ==> lengths[r] != lengths[s]
    ensures Val(Codeword(lengths, s)) == 0
  {
    hide Val, Codeword;
    NothingShorter(lengths, lengths[s] - 1);
    NoneOf(lengths, s, lengths[s]);
    CodewordRange(lengths, max, s);
  }

  // ----- lodepng's numbering

  /** `nextcode[l]` of HuffmanTree_makeFromLengths2: absent symbols are counted too. */
  function NextCode(lengths: seq<nat>, l: nat): nat {
    if l == 0 then 0 else 2 * (NextCode(lengths, l - 1) + Count(lengths, l - 1))
  }

  /** Counting the absent symbols shifts the codes of length `l` by a multiple of 2^l ... */
  lemma {:induction false} NextCodeOffset(lengths: seq<nat>, l: nat)
    requires l > 0
    ensures NextCode(lengths, l) == FirstCode(lengths, l) + Count(lengths, 0) * Pow2(l)
  {
    if l > 1 {
      NextCodeOffset(lengths, l - 1);
      assert 2 * (Count(lengths, 0) * Pow2(l - 1)) == Count(lengths, 0) * Pow2(l);
    } else {
      assert NextCode(lengths, 0) == 0;
      assert Pow2(1) == 2;
    }
  }

  lemma HalfPlus(v: nat, c: nat, p: nat)
    ensures (v + c * (2 * p)) / 2 == v / 2 + c * p && (v + c * (2 * p)) % 2 == v % 2
  {
    MulDouble(c, p);
  }

  /** ... and that leaves the low `l` bits, the only ones used, as they were. */
  lemma {:induction false} OffsetInvisible(v: nat, c: nat, l: nat)
    ensures ToBitsReversed(v + c * Pow2(l), l) == ToBitsReversed(v, l)
  {
    if l > 0 {
      ReversedSnoc(v + c * Pow2(l), l - 1);
      ReversedSnoc(v, l - 1);
      HalfPlus(v, c, Pow2(l - 1));
      OffsetInvisible(v / 2, c, l - 1);
    }
  }

  /** The generated codes never leave 32 bits for the alphabets of deflate. */
  lemma {:induction false} NextCodeBounded(lengths: seq<nat>, l: nat)
    ensures NextCode(lengths, l) + 2 * |lengths| <= |lengths| * Pow2(l + 1)
  {
    if l > 0 {
      NextCodeBounded(lengths, l - 1);
      assert 2 * (|lengths| * Pow2(l)) == |lengths| * Pow2(l + 1);
    } else {
      assert Pow2(1) == 2;
    }
  }

  lemma NextCodeIsCanonical(lengths: seq<nat>, s: nat)
    requires s < |lengths| && lengths[s] > 0
    ensures ToBitsReversed(NextCode(lengths, lengths[s]) + CountBefore(lengths, s, lengths[s]), lengths[s])
         == Codeword(lengths, s)
  {
    hide NextCode, FirstCode, CountBefore, ToBitsReversed, Pow2;
    NextCodeOffset(lengths, lengths[s]);
    OffsetInvisible(CodeValue(lengths, s), Count(lengths, 0), lengths[s]);
  }

  /** `tree1d` as lodepng fills it; entries of absent symbols are arbitrary. */
  ghost predicate IsCodeTable(lengths: seq<nat>, tree1d: seq<nat>) {
    && |tree1d| == |lengths|
    && forall s :: 0 <= s < |lengths| && lengths[s] > 0 ==>
         tree1d[s] == NextCode(lengths, lengths[s]) + CountBefore(lengths, s, lengths[s])
  }

  /** The bits written for symbol `s`, the low `lengths[s]` ones of its table
      entry, are its canonical code word. */
  lemma CodeTableIsCanonical(lengths: seq<nat>, tree1d: seq<nat>)
    requires IsCodeTable(lengths, tree1d)
    ensures forall s :: 0 <= s < |lengths| ==>
              ToBitsReversed(tree1d[s], lengths[s]) == Codeword(lengths, s)
  {
    forall s | 0 <= s < |lengths|
      ensures ToBitsReversed(tree1d[s], lengths[s]) == Codeword(lengths, s)
    {
      if lengths[s] > 0 { NextCodeIsCanonical(lengths, s); }
    }
  }

  /** Step 1 of HuffmanTree_makeFromLengths2. */
  method CountLengths(lengths: seq<nat>, maxbitlen: nat) returns (blcount: array<nat>)
    requires LengthsAtMost(lengths, maxbitlen)
    ensures fresh(blcount) && blcount.Length == maxbitlen + 1
    ensures forall l :: 0 <= l <= maxbitlen ==> blcount[l] == Count(lengths, l)
  {
    blcount := new nat[maxbitlen + 1](_ => 0);
    for n := 0 to |lengths|
      invariant forall l :: 0 <= l <= maxbitlen ==> blcount[l] == CountBefore(lengths, n, l)
    {
      blcount[lengths[n]] := blcount[lengths[n]] + 1;
    }
  }

  lemma NextCodeStep(lengths: seq<nat>, l: nat)
    ensures NextCode(lengths, l) == if l == 0 then 0 else 2 * (NextCode(lengths, l - 1) + Count(lengths, l - 1))
  {
  }

  /** Step 2. */
  method MakeNextCodes(lengths: seq<nat>, maxbitlen: nat) returns (nextcode: array<nat>)
    requires LengthsAtMost(lengths, maxbitlen)
    ensures fresh(nextcode) && nextcode.Length == maxbitlen + 1
    ensures forall l :: 0 <= l <= maxbitlen ==> nextcode[l] == NextCode(lengths, l)
  {
    hide Count, NextCode;
    NextCodeStep(lengths, 0);
    var blcount := CountLengths(lengths, maxbitlen);
    nextcode := new nat[maxbitlen + 1](_ => 0);
    for bits := 1 to maxbitlen + 1
      invariant forall l :: 0 <= l <= maxbitlen ==> blcount[l] == Count(lengths, l)
      invariant forall l :: 0 <= l < bits ==> nextcode[l] == NextCode(lengths, l)
    {
      NextCodeStep(lengths, bits);
      nextcode[bits] := 2 * (nextcode[bits - 1] + blcount[bits - 1]);
    }
  }

  /** Step 3: the code table. */
  method MakeCodes(lengths: seq<nat>, maxbitlen: nat) returns (tree1d: array<nat>)
    requires LengthsAtMost(lengths, maxbitlen)
    ensures fresh(tree1d) && IsCodeTable(lengths, tree1d[..])
  {
    hide NextCode;
    var nextcode := MakeNextCodes(lengths, maxbitlen);
    tree1d := new nat[|lengths|];
    for n := 0 to |lengths|
      invariant forall l :: 1 <= l <= maxbitlen ==>
                  nextcode[l] == NextCode(lengths, l) + CountBefore(lengths, n, l)
      invariant forall s :: 0 <= s < n && lengths[s] > 0 ==>
                  tree1d[s] == NextCode(lengths, lengths[s]) + CountBefore(lengths, s, lengths[s])
    {
      var l := lengths[n];
      if l != 0 {
        tree1d[n] := nextcode[l];
        nextcode[l] := nextcode[l] + 1;
      }
    }
  }
}
