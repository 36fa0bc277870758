/** Of all prefix codes within the length limit, the one made by package-merge
    needs the fewest bits for the given frequencies. */
module OptimalCodes {
  import opened Bits
  import opened Chains
  import opened ChainLengths
  import opened HuffmanCodes
  import opened MergedItems
  import opened OptimalChains

  /** The bits that the first `m` symbols take up. */
  ghost function TotalBits(frequencies: seq<nat>, lengths: seq<nat>, m: nat): nat
    requires m <= |frequencies| == |lengths|
  {
    if m == 0 then 0 else TotalBits(frequencies, lengths, m - 1) + frequencies[m - 1] * lengths[m - 1]
  }

  /** A code within the limit that has a word for every symbol that occurs. */
  ghost predicate Serves(lengths: seq<nat>, frequencies: seq<nat>, max: nat) {
    && |lengths| == |frequencies| && NotOversubscribed(lengths, max)
    && forall s :: 0 <= s < |lengths| && frequencies[s] > 0 ==> lengths[s] > 0
  }

  ghost predicate Optimal(lengths: seq<nat>, frequencies: seq<nat>, max: nat) {
    && |lengths| == |frequencies|
    && forall other :: Serves(other, frequencies, max) ==>
         TotalBits(frequencies, lengths, |lengths|) <= TotalBits(frequencies, other, |lengths|)
  }

  // ----- leaves, level by level

  /** `w[i] * ls[i]` over the first `m` leaves. */
  ghost function LeafBits(w: seq<int>, ls: seq<nat>, m: nat): int
    requires m <= |w| == |ls|
  {
    if m == 0 then 0 else LeafBits(w, ls, m - 1) + w[m - 1] * ls[m - 1]
  }

  /** The leaves longer than `t` bits, and their weight. */
  ghost function Longer(ls: seq<nat>, t: nat, m: nat): (r: nat)
    requires m <= |ls|
    ensures r <= m
  {
    if m == 0 then 0 else Longer(ls, t, m - 1) + if ls[m - 1] > t then 1 else 0
  }

  ghost function LongerWeight(w: seq<int>, ls: seq<nat>, t: nat, m: nat): int
    requires m <= |w| == |ls|
  {
    if m == 0 then 0 else LongerWeight(w, ls, t, m - 1) + if ls[m - 1] > t then w[m - 1] else 0
  }

  /** No leaves are lighter than those in front. */
  lemma {:induction false} FrontIsLightest(w: seq<int>, ls: seq<nat>, t: nat, m: nat)
    requires LeavesOk(w) && m <= |w| == |ls|
    ensures LeafSum(w, Longer(ls, t, m)) <= LongerWeight(w, ls, t, m)
  {
    if m > 0 { FrontIsLightest(w, ls, t, m - 1); }
  }

  /** How many leaves are longer than `t`, `t + 1`, ... bits. */
  ghost function Levels(ls: seq<nat>, t: nat, max: nat): (v: seq<nat>)
    requires t <= max
    ensures |v| == max - t
    ensures forall j :: 0 <= j < |v| ==> v[j] <= |ls|
    decreases max - t
  {
    if t == max then [] else [Longer(ls, t, |ls|)] + Levels(ls, t + 1, max)
  }

  ghost function WeightFrom(w: seq<int>, ls: seq<nat>, t: nat, max: nat, m: nat): int
    requires m <= |w| == |ls| && t <= max
    decreases max - t
  {
    if t == max then 0 else LongerWeight(w, ls, t, m) + WeightFrom(w, ls, t + 1, max, m)
  }

  lemma {:induction false} LevelsCost(w: seq<int>, ls: seq<nat>, t: nat, max: nat)
    requires LeavesOk(w) && |w| == |ls| && t <= max
    ensures CountsCost(Levels(ls, t, max), w) <= WeightFrom(w, ls, t, max, |ls|)
    decreases max - t
  {
    if t < max {
      FrontIsLightest(w, ls, t, |ls|);
      LevelsCost(w, ls, t + 1, max);
      assert Levels(ls, t, max)[1..] == Levels(ls, t + 1, max);
    }
  }

  lemma {:induction false} NoWeight(w: seq<int>, ls: seq<nat>, t: nat, max: nat)
    requires |w| == |ls| && t <= max
    ensures WeightFrom(w, ls, t, max, 0) == 0
    decreases max - t
  {
    if t < max { NoWeight(w, ls, t + 1, max); }
  }

  lemma {:induction false} OneMoreLeaf(w: seq<int>, ls: seq<nat>, t: nat, max: nat, m: nat)
    requires m < |w| == |ls| && t <= max && ls[m] <= max
    ensures WeightFrom(w, ls, t, max, m + 1) ==
            WeightFrom(w, ls, t, max, m) + w[m] * (if ls[m] > t then ls[m] - t else 0)
    decreases max - t
  {
    if t < max { OneMoreLeaf(w, ls, t + 1, max, m); }
  }

  /** Each leaf counts on as many levels as it has bits. */
  lemma {:induction false} WeightIsBits(w: seq<int>, ls: seq<nat>, max: nat, m: nat)
    requires m <= |w| == |ls| && LengthsAtMost(ls, max)
    ensures WeightFrom(w, ls, 0, max, m) == LeafBits(w, ls, m)
  {
    if m == 0 {
      NoWeight(w, ls, 0, max);
    } else {
      WeightIsBits(w, ls, max, m - 1);
      OneMoreLeaf(w, ls, 0, max, m - 1);
    }
  }

  // ----- the levels of a prefix code fill enough places

  /** Leaves longer than `t` bits take up 2^(max-1-t) places. */
  ghost function Places(ls: seq<nat>, t: nat, max: nat, m: nat): nat
    requires m <= |ls| && t <= max
    decreases max - t
  {
    if t == max then 0 else Longer(ls, t, m) * Pow2(max - 1 - t) + Places(ls, t + 1, max, m)
  }

  lemma {:induction false} NoPlaces(ls: seq<nat>, t: nat, max: nat)
    requires t <= max
    ensures Places(ls, t, max, 0) == 0
    decreases max - t
  {
    if t < max { NoPlaces(ls, t + 1, max); }
  }

  lemma {:induction false} PlacesOfLeaf(ls: seq<nat>, t: nat, max: nat, m: nat)
    requires m < |ls| && t <= max && ls[m] <= max
    ensures Places(ls, t, max, m + 1) ==
            Places(ls, t, max, m) + if ls[m] > t then Pow2(max - t) - Pow2(max - ls[m]) else 0
    decreases max - t
  {
    if t < max {
      PlacesOfLeaf(ls, t + 1, max, m);
      var p := Pow2(max - 1 - t);
      assert (Longer(ls, t, m) + 1) * p == Longer(ls, t, m) * p + p;
    }
  }

  /** What Kraft's sum lacks to one place for each leaf. */
  lemma {:induction false} PlacesAndKraft(ls: seq<nat>, max: nat, m: nat)
    requires m <= |ls| && LengthsAtMost(ls, max) && forall i :: 0 <= i < |ls| ==> ls[i] > 0
    ensures Places(ls, 0, max, m) + KraftSum(ls, m, max) == m * Pow2(max)
  {
    if m == 0 {
      NoPlaces(ls, 0, max);
    } else {
      PlacesAndKraft(ls, max, m - 1);
      PlacesOfLeaf(ls, 0, max, m - 1);
      assert m * Pow2(max) == (m - 1) * Pow2(max) + Pow2(max);
    }
  }

  lemma {:induction false} PlacesCover(ls: seq<nat>, t: nat, max: nat, k: nat)
    requires t < max && Places(ls, t, max, |ls|) >= k * Pow2(max - 1 - t)
    ensures Covers(Levels(ls, t, max), |ls|, max - 1 - t, k)
    decreases max - t
  {
    var v, n := Levels(ls, t, max), Longer(ls, t, |ls|);
    assert v[0] == n && v[1..] == Levels(ls, t + 1, max);
    if n < k {
      StillToFill(n, k, Pow2(max - 1 - t), Places(ls, t + 1, max, |ls|));
      if t + 1 < max {
        MulDouble(k - n, Pow2(max - 2 - t));
        hide Pow2, Places;
        PlacesCover(ls, t + 1, max, 2 * (k - n));
      }
    }
  }

  lemma StillToFill(n: nat, k: nat, p: nat, rest: nat)
    requires n < k && p >= 1 && n * p + rest >= k * p
    ensures rest >= (k - n) * p >= 1
  {
    assert (k - n) * p == k * p - n * p;
  }

  /** No prefix code is cheaper than the first `2n - 2` items. */
  lemma ItemsAreCheapestCode(w: seq<int>, ls: seq<nat>, max: nat)
    requires LeavesOk(w) && |w| == |ls| && max > 0
    requires NotOversubscribed(ls, max) && forall i :: 0 <= i < |ls| ==> ls[i] > 0
    ensures Cost(w, max - 1, 2 * |w| - 2) <= LeafBits(w, ls, |w|)
  {
    hide Cost, LeafBits, WeightFrom, Levels, Covers, Places, KraftSum, CountsCost;
    var n := |w|;
    PlacesAndKraft(ls, max, n);
    MulDouble(n - 1, Pow2(max - 1));
    assert n * Pow2(max) == (n - 1) * Pow2(max) + Pow2(max);
    PlacesCover(ls, 0, max, 2 * n - 2);
    FirstItemsAreCheapest(w, Levels(ls, 0, max), max - 1, 2 * n - 2);
    LevelsCost(w, ls, 0, max);
    WeightIsBits(w, ls, max, n);
  }

  // ----- the lengths read off a chain

  lemma {:induction false} ChainBits(ch: Chain, w: seq<int>, ls: seq<nat>, rest: seq<nat>, m: nat)
    requires ch != [] && m <= |w| == |ls| == |rest|
    requires forall i :: 0 <= i < |ls| ==> ls[i] == LeafLength(ch, i) && rest[i] == LeafLength(ch[1..], i)
    ensures LeafBits(w, ls, m) == LeafBits(w, rest, m) + LeafSum(w, if m < ch[0].index then m else ch[0].index)
  {
    if m > 0 {
      ChainBits(ch, w, ls, rest, m - 1);
      assert w[m - 1] * (rest[m - 1] + 1) == w[m - 1] * rest[m - 1] + w[m - 1];
    }
  }

  ghost function LengthsOf(ch: Chain, n: nat): (ls: seq<nat>)
    ensures |ls| == n && forall i :: 0 <= i < n ==> ls[i] == LeafLength(ch, i)
  {
    seq(n, i requires 0 <= i < n => LeafLength(ch, i))
  }

  lemma {:induction false} NoBits(w: seq<int>, ls: seq<nat>, m: nat)
    requires m <= |w| == |ls| && forall i :: 0 <= i < m ==> ls[i] == 0
    ensures LeafBits(w, ls, m) == 0
  {
    if m > 0 { NoBits(w, ls, m - 1); }
  }

  lemma {:induction false} ChainCostIsBits(ch: Chain, w: seq<int>, bound: nat)
    requires NonIncreasing(ch, bound) && bound <= |w|
    ensures ChainCost(ch, w) == LeafBits(w, LengthsOf(ch, |w|), |w|)
    decreases |ch|
  {
    if ch == [] {
      NoBits(w, LengthsOf(ch, |w|), |w|);
    } else {
      ChainCostIsBits(ch[1..], w, ch[0].index);
      ChainBits(ch, w, LengthsOf(ch, |w|), LengthsOf(ch[1..], |w|), |w|);
    }
  }

  // ----- from leaves to symbols

  /** Leaf `i` is symbol `sym[i]`, and these are all the symbols that occur. */
  ghost predicate LeavesOf(w: seq<int>, sym: seq<nat>, frequencies: seq<nat>) {
    && |w| == |sym| && DistinctSymbols(sym)
    && (forall i :: 0 <= i < |sym| ==> sym[i] < |frequencies| && w[i] == frequencies[sym[i]])
    && (forall s :: 0 <= s < |frequencies| && s !in sym ==> frequencies[s] == 0)
  }

  ghost function At(lengths: seq<nat>, sym: seq<nat>): (ls: seq<nat>)
    requires forall i :: 0 <= i < |sym| ==> sym[i] < |lengths|
    ensures |ls| == |sym| && forall i :: 0 <= i < |sym| ==> ls[i] == lengths[sym[i]]
  {
    seq(|sym|, i requires 0 <= i < |sym| => lengths[sym[i]])
  }

  lemma {:induction false} NothingOccurs(frequencies: seq<nat>, lengths: seq<nat>, m: nat)
    requires m <= |frequencies| == |lengths| && forall s :: 0 <= s < |frequencies| ==> frequencies[s] == 0
    ensures TotalBits(frequencies, lengths, m) == 0
  {
    if m > 0 { NothingOccurs(frequencies, lengths, m - 1); }
  }

  lemma {:induction false} WithoutSymbol(frequencies: seq<nat>, lengths: seq<nat>, m: nat, s: nat)
    requires m <= |frequencies| == |lengths| && s < |frequencies|
    ensures TotalBits(frequencies, lengths, m) ==
            TotalBits(frequencies[s := 0], lengths, m) + if s < m then frequencies[s] * lengths[s] else 0
  {
    if m > 0 { WithoutSymbol(frequencies, lengths, m - 1, s); }
  }

  lemma LastLeaf(w: seq<int>, sym: seq<nat>, frequencies: seq<nat>)
    requires LeavesOf(w, sym, frequencies) && sym != []
    ensures var m := |sym| - 1; LeavesOf(w[..m], sym[..m], frequencies[sym[m] := 0])
  {
    var m := |sym| - 1;
    var f := frequencies[sym[m] := 0];
    forall s | 0 <= s < |f| && s !in sym[..m] ensures f[s] == 0 {
      if s != sym[m] { assert s !in sym; }
    }
  }

  lemma {:induction false} BitsOfFront(w: seq<int>, ls: seq<nat>, w': seq<int>, ls': seq<nat>, m: nat)
    requires m <= |w| == |ls| && m <= |w'| == |ls'| && w[..m] == w'[..m] && ls[..m] == ls'[..m]
    ensures LeafBits(w, ls, m) == LeafBits(w', ls', m)
  {
    if m > 0 {
      assert w[m - 1] == w[..m][m - 1] == w'[m - 1] && ls[m - 1] == ls[..m][m - 1] == ls'[m - 1];
      assert w[..m - 1] == w[..m][..m - 1] && ls[..m - 1] == ls[..m][..m - 1];
      assert w'[..m - 1] == w'[..m][..m - 1] && ls'[..m - 1] == ls'[..m][..m - 1];
      BitsOfFront(w, ls, w', ls', m - 1);
    }
  }

  /** Summing over the symbols is summing over the leaves. */
  lemma {:induction false} BitsOverSymbols(w: seq<int>, sym: seq<nat>, frequencies: seq<nat>, lengths: seq<nat>)
    requires LeavesOf(w, sym, frequencies) && |lengths| == |frequencies|
    ensures TotalBits(frequencies, lengths, |lengths|) == LeafBits(w, At(lengths, sym), |w|)
    decreases |sym|
  {
    if sym == [] {
      NothingOccurs(frequencies, lengths, |lengths|);
    } else {
      hide TotalBits;
      var m := |sym| - 1;
      LastLeaf(w, sym, frequencies);
      BitsOverSymbols(w[..m], sym[..m], frequencies[sym[m] := 0], lengths);
      WithoutSymbol(frequencies, lengths, |lengths|, sym[m]);
      BitsOfFront(w, At(lengths, sym), w[..m], At(lengths, sym[..m]), m);
    }
  }

  lemma {:induction false} KraftOfFront(ls: seq<nat>, ls': seq<nat>, m: nat, max: nat)
    requires m <= |ls| && m <= |ls'| && ls[..m] == ls'[..m]
    ensures KraftSum(ls, m, max) == KraftSum(ls', m, max)
  {
    if m > 0 {
      assert ls[m - 1] == ls[..m][m - 1] == ls'[m - 1];
      assert ls[..m - 1] == ls[..m][..m - 1] && ls'[..m - 1] == ls'[..m][..m - 1];
      KraftOfFront(ls, ls', m - 1, max);
    }
  }

  /** Symbols that do not occur only make Kraft's sum larger. */
  lemma {:induction false} KraftOfLeaves(sym: seq<nat>, lengths: seq<nat>, max: nat)
    requires DistinctSymbols(sym) && LengthsAtMost(lengths, max)
    requires forall i :: 0 <= i < |sym| ==> sym[i] < |lengths| && lengths[sym[i]] > 0
    ensures KraftSum(At(lengths, sym), |sym|, max) <= KraftSum(lengths, |lengths|, max)
    decreases |sym|
  {
    if sym != [] {
      hide Pow2;
      var m := |sym| - 1;
      var s := sym[m];
      var before := lengths[s := 0];
      assert lengths == before[s := lengths[s]];
      KraftUpdate(before, |before|, max, s, lengths[s]);
      KraftOfLeaves(sym[..m], before, max);
      KraftOfFront(At(lengths, sym), At(before, sym[..m]), m, max);
    }
  }

  /** The main theorem on the cost of a code. */
  lemma ChainGivesOptimalCode(frequencies: seq<nat>, lengths: seq<nat>, w: seq<int>, sym: seq<nat>, ch: Chain, max: nat)
    requires LeavesOk(w) && LeavesOf(w, sym, frequencies) && max > 0 && |lengths| == |frequencies|
    requires AssignsLengths(lengths, sym, ch) && NonIncreasing(ch, |w|)
    requires ChainCost(ch, w) == Cost(w, max - 1, 2 * |w| - 2)
    ensures Optimal(lengths, frequencies, max)
  {
    hide TotalBits, LeafBits, Cost, ChainCost, LeafLength, KraftSum;
    BitsOverSymbols(w, sym, frequencies, lengths);
    assert At(lengths, sym) == LengthsOf(ch, |w|);
    ChainCostIsBits(ch, w, |w|);
    forall other | Serves(other, frequencies, max)
      ensures TotalBits(frequencies, lengths, |lengths|) <= TotalBits(frequencies, other, |lengths|)
    {
      OtherCodeCostsMore(frequencies, other, w, sym, max);
    }
  }

  lemma OtherCodeCostsMore(frequencies: seq<nat>, other: seq<nat>, w: seq<int>, sym: seq<nat>, max: nat)
    requires LeavesOk(w) && LeavesOf(w, sym, frequencies) && max > 0
    requires Serves(other, frequencies, max)
    ensures Cost(w, max - 1, 2 * |w| - 2) <= TotalBits(frequencies, other, |other|)
  {
    hide TotalBits, LeafBits, Cost, KraftSum;
    assert forall i :: 0 <= i < |w| ==> w[i] >= w[0] > 0;
    BitsOverSymbols(w, sym, frequencies, other);
    KraftOfLeaves(sym, other, max);
    ItemsAreCheapestCode(w, At(other, sym), max);
  }

  /** Lengths that are nowhere longer than those of any code that serves. */
  lemma {:induction false} ShorterIsCheaper(frequencies: seq<nat>, lengths: seq<nat>, other: seq<nat>, m: nat)
    requires m <= |frequencies| == |lengths| == |other|
    requires forall s :: 0 <= s < |lengths| && frequencies[s] > 0 ==> lengths[s] <= other[s]
    ensures TotalBits(frequencies, lengths, m) <= TotalBits(frequencies, other, m)
  {
    if m > 0 {
      ShorterIsCheaper(frequencies, lengths, other, m - 1);
      var f, l, o := frequencies[m - 1], lengths[m - 1], other[m - 1];
      assert f > 0 ==> f * o == f * l + f * (o - l);
    }
  }

  /** With one bit for each symbol that occurs nothing can be saved. */
  lemma OneBitIsOptimal(frequencies: seq<nat>, lengths: seq<nat>, max: nat)
    requires |lengths| == |frequencies|
    requires forall s :: 0 <= s < |lengths| && frequencies[s] > 0 ==> lengths[s] == 1
    ensures Optimal(lengths, frequencies, max)
  {
    hide TotalBits;
    forall other | Serves(other, frequencies, max)
      ensures TotalBits(frequencies, lengths, |lengths|) <= TotalBits(frequencies, other, |lengths|)
    {
      ShorterIsCheaper(frequencies, lengths, other, |lengths|);
    }
  }
}
