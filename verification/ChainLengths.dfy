/** The code lengths read off a package-merge chain make up a complete code. */
module ChainLengths {
  import opened Bits
  import opened HuffmanCodes
  import opened Chains

  /** The code length of leaf `i`: the number of lists that took it. */
  function LeafLength(ch: Chain, i: nat): (l: nat)
    ensures l <= |ch|
  {
    if ch == [] then 0 else LeafLength(ch[1..], i) + if i < ch[0].index then 1 else 0
  }

  ghost predicate NonIncreasing(ch: Chain, n: nat)
    decreases |ch|
  {
    ch != [] ==> ch[0].index <= n && NonIncreasing(ch[1..], ch[0].index)
  }

  /** Leaves of list `j` of the chain count 2^(depth-1-j). */
  ghost function Slots(ch: Chain, depth: nat): nat
    requires |ch| <= depth
  {
    if ch == [] then 0 else ch[0].index * Pow2(depth - 1) + Slots(ch[1..], depth - 1)
  }

  ghost function LeafKraft(ch: Chain, depth: nat, m: nat): nat
    requires |ch| <= depth
  {
    if m == 0 then 0 else LeafKraft(ch, depth, m - 1) + Pow2(depth - LeafLength(ch, m - 1))
  }

  lemma {:induction false} NotTaken(ch: Chain, n: nat, i: nat)
    requires NonIncreasing(ch, n) && n <= i
    ensures LeafLength(ch, i) == 0
    decreases |ch|
  {
    if ch != [] { NotTaken(ch[1..], ch[0].index, i); }
  }

  lemma {:induction false} KraftOfTaken(ch: Chain, depth: nat, m: nat)
    requires ch != [] && |ch| <= depth && m <= ch[0].index
    ensures LeafKraft(ch, depth, m) == LeafKraft(ch[1..], depth - 1, m)
  {
    if m > 0 { KraftOfTaken(ch, depth, m - 1); }
  }

  lemma {:induction false} KraftBeyond(ch: Chain, depth: nat, n: nat, m: nat)
    requires |ch| <= depth && NonIncreasing(ch, n) && n <= m
    ensures LeafKraft(ch, depth, m) == LeafKraft(ch, depth, n) + (m - n) * Pow2(depth)
    decreases m
  {
    if n < m {
      KraftBeyond(ch, depth, n, m - 1);
      NotTaken(ch, n, m - 1);
      assert (m - n) * Pow2(depth) == (m - 1 - n) * Pow2(depth) + Pow2(depth);
    } else {
      assert (m - n) * Pow2(depth) == 0;
    }
  }

  /** Every leaf uses up the slots its Kraft term lacks to 2^depth. */
  lemma {:induction false} SlotsAndKraft(ch: Chain, depth: nat, n: nat)
    requires |ch| <= depth && NonIncreasing(ch, n)
    ensures LeafKraft(ch, depth, n) + Slots(ch, depth) == n * Pow2(depth)
    decreases |ch|
  {
    if ch == [] {
      assert NonIncreasing(ch, 0);
      KraftBeyond(ch, depth, 0, n);
    } else {
      var a := ch[0].index;
      SlotsAndKraft(ch[1..], depth - 1, a);
      KraftOfTaken(ch, depth, a);
      assert NonIncreasing(ch, a);
      KraftBeyond(ch, depth, a, n);
      SlotArithmetic(a, n, Pow2(depth - 1));
    }
  }

  lemma SlotArithmetic(a: nat, n: nat, p: nat)
    ensures a * p + (n - a) * (2 * p) + a * p == n * (2 * p)
  {
    assert a * (2 * p) == 2 * (a * p);
    assert (n - a) * (2 * p) == n * (2 * p) - a * (2 * p);
  }

  /** A chain that describes `k` items fills `k * 2^c` slots. */
  lemma {:induction false} DescribesSlots(ch: Chain, n: nat, c: nat, k: nat)
    requires Describes(ch, n, c, k)
    ensures |ch| <= c + 1 && NonIncreasing(ch, n) && Slots(ch, c + 1) == k * Pow2(c)
    decreases c
  {
    var a := ch[0].index;
    if c > 0 && k != a {
      DescribesSlots(ch[1..], n, c - 1, 2 * (k - a));
      MulDouble(k - a, Pow2(c - 1));
      assert a * Pow2(c) + (k - a) * Pow2(c) == k * Pow2(c);
      assert ch[1..] != [];
    } else {
      assert ch[1..] == [];
    }
  }

  lemma LeafKraftPositive(ch: Chain, depth: nat, m: nat)
    requires |ch| <= depth && m > 0
    ensures LeafKraft(ch, depth, m) > 0
  {
  }

  /** The chain of `2n - 2` items: the leaves' lengths satisfy Kraft's equality
      and every leaf has one of at least 1. */
  lemma FinalChain(ch: Chain, n: nat, listsize: nat)
    requires n >= 2 && listsize > 0 && Describes(ch, n, listsize - 1, 2 * n - 2)
    ensures |ch| <= listsize && NonIncreasing(ch, n) && ch[0].index == n
    ensures LeafKraft(ch, listsize, n) == Pow2(listsize)
  {
    DescribesSlots(ch, n, listsize - 1, 2 * n - 2);
    SlotsAndKraft(ch, listsize, n);
    MulDouble(n - 1, Pow2(listsize - 1));
    assert n * Pow2(listsize) == (n - 1) * Pow2(listsize) + Pow2(listsize);
    assert LeafKraft(ch, listsize, n) == Pow2(listsize);
    LeafKraftPositive(ch, listsize, n - 1);
    if ch[0].index < n {
      assert NonIncreasing(ch, n - 1);
      NotTaken(ch, n - 1, n - 1);
    }
  }

  lemma LeafTakenByAll(ch: Chain, i: nat)
    requires ch != [] && i < ch[0].index
    ensures LeafLength(ch, i) >= 1
  {
  }

  /** Leaves in front, the lighter ones, never have shorter codes. */
  lemma {:induction false} LeafLengthFalls(ch: Chain, i: nat, j: nat)
    requires i <= j
    ensures LeafLength(ch, j) <= LeafLength(ch, i)
  {
    if ch != [] { LeafLengthFalls(ch[1..], i, j); }
  }

  // ----- from leaves to symbols

  /** The lengths of `numcodes` symbols when leaf `i` is symbol `sym[i]`. */
  ghost predicate AssignsLengths(lengths: seq<nat>, sym: seq<nat>, ch: Chain) {
    && (forall i :: 0 <= i < |sym| ==> sym[i] < |lengths| && lengths[sym[i]] == LeafLength(ch, i))
    && (forall s :: 0 <= s < |lengths| && s !in sym ==> lengths[s] == 0)
  }

  ghost predicate DistinctSymbols(sym: seq<nat>) {
    forall i, j :: 0 <= i < j < |sym| ==> sym[i] != sym[j]
  }

  lemma {:induction false} KraftUpdate(lengths: seq<nat>, n: nat, max: nat, s: nat, l: nat)
    requires n <= |lengths| && s < |lengths| && lengths[s] == 0 && 0 < l <= max
    ensures KraftSum(lengths[s := l], n, max) == KraftSum(lengths, n, max) + if s < n then Pow2(max - l) else 0
  {
    if n > 0 { KraftUpdate(lengths, n - 1, max, s, l); }
  }

  lemma {:induction false} KraftOfZeros(lengths: seq<nat>, n: nat, max: nat)
    requires n <= |lengths| && forall s :: 0 <= s < |lengths| ==> lengths[s] == 0
    ensures KraftSum(lengths, n, max) == 0
  {
    if n > 0 { KraftOfZeros(lengths, n - 1, max); }
  }

  lemma NothingAssigned(lengths: seq<nat>, ch: Chain)
    requires AssignsLengths(lengths, [], ch)
    ensures forall s :: 0 <= s < |lengths| ==> lengths[s] == 0
  {
  }

  /** Without its last symbol the code is that of the other symbols. */
  lemma LastSymbol(lengths: seq<nat>, sym: seq<nat>, ch: Chain)
    requires AssignsLengths(lengths, sym, ch) && DistinctSymbols(sym) && sym != []
    ensures var m := |sym| - 1; var s := sym[m];
            && s < |lengths| && lengths[s] == LeafLength(ch, m)
            && DistinctSymbols(sym[..m]) && AssignsLengths(lengths[s := 0], sym[..m], ch)
  {
    var m := |sym| - 1;
    assert sym[m] !in sym[..m];
    forall s | 0 <= s < |lengths| && s !in sym[..m] ensures lengths[sym[m] := 0][s] == 0 {
      if s != sym[m] { assert s !in sym; }
    }
  }

  /** Summing over the symbols is summing over the leaves. */
  lemma {:induction false} KraftOverSymbols(lengths: seq<nat>, sym: seq<nat>, ch: Chain, max: nat)
    requires AssignsLengths(lengths, sym, ch) && DistinctSymbols(sym) && |ch| <= max
    requires forall i :: 0 <= i < |sym| ==> LeafLength(ch, i) > 0
    ensures KraftSum(lengths, |lengths|, max) == LeafKraft(ch, max, |sym|)
    decreases |sym|
  {
    hide LeafLength, Pow2, KraftSum, DistinctSymbols, AssignsLengths;
    if sym == [] {
      NothingAssigned(lengths, ch);
      KraftOfZeros(lengths, |lengths|, max);
    } else {
      var m := |sym| - 1;
      var s := sym[m];
      LastSymbol(lengths, sym, ch);
      var before := lengths[s := 0];
      KraftOverSymbols(before, sym[..m], ch, max);
      assert lengths == before[s := lengths[s]];
      KraftUpdate(before, |before|, max, s, lengths[s]);
    }
  }

  /** The main theorem on code lengths: they form a complete code. */
  lemma ChainGivesCompleteCode(lengths: seq<nat>, sym: seq<nat>, ch: Chain, listsize: nat)
    requires |sym| >= 2 && listsize > 0 && Describes(ch, |sym|, listsize - 1, 2 * |sym| - 2)
    requires AssignsLengths(lengths, sym, ch) && DistinctSymbols(sym)
    ensures Complete(lengths, listsize)
    ensures forall s :: 0 <= s < |lengths| ==> (lengths[s] > 0 <==> s in sym)
  {
    FinalChain(ch, |sym|, listsize);
    forall i | 0 <= i < |sym| ensures LeafLength(ch, i) > 0 { LeafTakenByAll(ch, i); }
    KraftOverSymbols(lengths, sym, ch, listsize);
    forall s | 0 <= s < |lengths|
      ensures lengths[s] <= listsize && (lengths[s] > 0 <==> s in sym)
    {
      if s in sym {
        var i :| 0 <= i < |sym| && sym[i] == s;
        assert LeafLength(ch, i) <= |ch|;
      }
    }
  }
}
