/** The lists package-merge works on, item by item, and why their first items
    are the cheapest.

    List `c` merges the leaves, in ascending weight, with the packages made of
    neighbours in list `c - 1`.  The functions say what item `k` weighs and how
    many leaves are among the first `k` items. */
module MergedItems {
  import opened Chains

  ghost function LeafWeight(w: seq<int>, i: nat): int {
    if i < |w| then w[i] else 0
  }

  /** The weight of package `p` made of items of list `c`. */
  ghost function Package(w: seq<int>, c: nat, p: nat): int
    decreases c, 3
  {
    ItemWeight(w, c, 2 * p) + ItemWeight(w, c, 2 * p + 1)
  }

  /** Behind `a` leaves and `p` packages, list `c` goes on with a leaf. */
  ghost predicate LeafNext(w: seq<int>, c: nat, a: nat, p: nat)
    decreases c, 0, 0
  {
    c > 0 ==> a < |w| && (2 * p + 2 > Available(|w|, c - 1) || w[a] < Package(w, c - 1, p))
  }

  /** The leaves among the first `k` items of list `c`. */
  ghost function Leaves(w: seq<int>, c: nat, k: nat): (a: nat)
    ensures a <= k
    decreases c, 1, k
  {
    if k == 0 then 0
    else
      var a := Leaves(w, c, k - 1);
      if LeafNext(w, c, a, k - 1 - a) then a + 1 else a
  }

  ghost function ItemWeight(w: seq<int>, c: nat, k: nat): int
    decreases c, 2
  {
    var a := Leaves(w, c, k);
    if c == 0 || LeafNext(w, c, a, k - a) then LeafWeight(w, a) else Package(w, c - 1, k - a)
  }

  ghost function Cost(w: seq<int>, c: nat, k: nat): int {
    if k == 0 then 0 else Cost(w, c, k - 1) + ItemWeight(w, c, k - 1)
  }

  ghost function LeafSum(w: seq<int>, m: nat): int {
    if m == 0 then 0 else LeafSum(w, m - 1) + LeafWeight(w, m - 1)
  }

  // ----- the items of a list

  lemma {:induction false} LeavesOfBottom(w: seq<int>, k: nat)
    ensures Leaves(w, 0, k) == k && Cost(w, 0, k) == LeafSum(w, k)
  {
    if k > 0 { LeavesOfBottom(w, k - 1); }
  }

  lemma NextLeaves(w: seq<int>, c: nat, k: nat)
    ensures var a := Leaves(w, c, k);
            Leaves(w, c, k + 1) == if LeafNext(w, c, a, k - a) then a + 1 else a
  {
  }

  /** Only leaves and packages that exist are taken. */
  lemma {:induction false} ItemsExist(w: seq<int>, c: nat, k: nat)
    requires c > 0 && k <= Available(|w|, c)
    ensures var a := Leaves(w, c, k); a <= |w| && 2 * (k - a) <= Available(|w|, c - 1)
  {
    hide Package;
    if k > 0 { ItemsExist(w, c, k - 1); }
  }

  /** The first `k` items are leaves of this list and items of the one below. */
  lemma {:induction false} CostSplits(w: seq<int>, c: nat, k: nat)
    requires c > 0
    ensures var a := Leaves(w, c, k); Cost(w, c, k) == LeafSum(w, a) + Cost(w, c - 1, 2 * (k - a))
  {
    hide LeafNext, LeafWeight;
    if k > 0 {
      CostSplits(w, c, k - 1);
      var a := Leaves(w, c, k - 1);
      TwoMore(w, c - 1, k - 1 - a);
      NextLeaves(w, c, k - 1);
    }
  }

  lemma TwoMore(w: seq<int>, c: nat, p: nat)
    ensures Cost(w, c, 2 * p + 2) == Cost(w, c, 2 * p) + Package(w, c, p)
  {
    hide ItemWeight;
    assert Cost(w, c, 2 * p + 1) == Cost(w, c, 2 * p) + ItemWeight(w, c, 2 * p);
  }

  lemma {:induction false} ItemsAscend(w: seq<int>, c: nat, k: nat)
    requires LeavesOk(w) && k + 1 < Available(|w|, c)
    ensures ItemWeight(w, c, k) <= ItemWeight(w, c, k + 1)
    decreases c, 0
  {
    hide Leaves, Package;
    NextLeaves(w, c, k);
    if c == 0 {
      LeavesOfBottom(w, k);
      LeavesOfBottom(w, k + 1);
    } else {
      ItemsExist(w, c, k + 1);
      var p := k - Leaves(w, c, k);
      ItemsExist(w, c, k + 2);
      if 2 * p + 4 <= Available(|w|, c - 1) { PackagesAscend(w, c - 1, p); }
      NextLeaves(w, c, k + 1);
    }
  }

  lemma {:induction false} PackagesAscend(w: seq<int>, c: nat, p: nat)
    requires LeavesOk(w) && 2 * p + 4 <= Available(|w|, c)
    ensures Package(w, c, p) <= Package(w, c, p + 1)
    decreases c, 1
  {
    hide ItemWeight;
    ItemsAscend(w, c, 2 * p);
    ItemsAscend(w, c, 2 * p + 1);
    ItemsAscend(w, c, 2 * p + 2);
  }

  lemma {:induction false} PackagesOrdered(w: seq<int>, c: nat, p: nat, q: nat)
    requires LeavesOk(w) && p <= q && 2 * q + 2 <= Available(|w|, c)
    ensures Package(w, c, p) <= Package(w, c, q)
    decreases q
  {
    hide Package;
    if p < q {
      PackagesOrdered(w, c, p, q - 1);
      PackagesAscend(w, c, q - 1);
    }
  }

  /** No leaf taken is heavier than a package left out, nor the other way round. */
  ghost predicate Cut(w: seq<int>, c: nat, a: nat, p: nat)
    requires c > 0
  {
    && (0 < p && a < |w| ==> Package(w, c - 1, p - 1) <= w[a])
    && (0 < a <= |w| && 2 * p + 2 <= Available(|w|, c - 1) ==> w[a - 1] <= Package(w, c - 1, p))
  }

  lemma {:induction false} LeavesCut(w: seq<int>, c: nat, k: nat)
    requires LeavesOk(w) && c > 0 && k <= Available(|w|, c)
    ensures Cut(w, c, Leaves(w, c, k), k - Leaves(w, c, k))
  {
    hide Leaves, Package;
    NoLeaves(w, c);
    if k > 0 {
      LeavesCut(w, c, k - 1);
      NextLeaves(w, c, k - 1);
      ItemsExist(w, c, k - 1);
      ItemsExist(w, c, k);
      var p := k - 1 - Leaves(w, c, k - 1);
      if 2 * p + 4 <= Available(|w|, c - 1) { PackagesAscend(w, c - 1, p); }
    }
  }

  lemma NoLeaves(w: seq<int>, c: nat)
    ensures Leaves(w, c, 0) == 0 && Cost(w, c, 0) == 0 && LeafSum(w, 0) == 0
  {
  }

  /** Any other way to make up `k` items costs at least as much. */
  lemma {:induction false} NoCheaperMix(w: seq<int>, c: nat, k: nat, a: nat)
    requires LeavesOk(w) && c > 0 && k <= Available(|w|, c)
    requires a <= |w| && a <= k && 2 * (k - a) <= Available(|w|, c - 1)
    ensures Cost(w, c, k) <= LeafSum(w, a) + Cost(w, c - 1, 2 * (k - a))
    decreases if a < Leaves(w, c, k) then Leaves(w, c, k) - a else a - Leaves(w, c, k)
  {
    hide Leaves, Package, Cost;
    var best := Leaves(w, c, k);
    CostSplits(w, c, k);
    ItemsExist(w, c, k);
    LeavesCut(w, c, k);
    if a < best {
      NoCheaperMix(w, c, k, a + 1);
      PackagesOrdered(w, c - 1, k - best, k - a - 1);
      TwoMore(w, c - 1, k - a - 1);
    } else if a > best {
      NoCheaperMix(w, c, k, a - 1);
      PackagesOrdered(w, c - 1, k - a, k - best - 1);
      TwoMore(w, c - 1, k - a);
    }
  }

  // ----- any selection of leaves

  /** `v[j]` leaves on each level, top first, that fill `k` places of list `c`. */
  ghost predicate Covers(v: seq<nat>, n: nat, c: nat, k: nat)
    decreases c
  {
    v != [] && v[0] <= n && (v[0] >= k || (c > 0 && Covers(v[1..], n, c - 1, 2 * (k - v[0]))))
  }

  ghost function CountsCost(v: seq<nat>, w: seq<int>): int {
    if v == [] then 0 else LeafSum(w, v[0]) + CountsCost(v[1..], w)
  }

  lemma {:induction false} CoveredIsAvailable(v: seq<nat>, n: nat, c: nat, k: nat)
    requires Covers(v, n, c, k)
    ensures k <= Available(n, c)
    decreases c
  {
    if v[0] < k { CoveredIsAvailable(v[1..], n, c - 1, 2 * (k - v[0])); }
  }

  lemma {:induction false} LeafSumGrows(w: seq<int>, m: nat, n: nat)
    requires LeavesOk(w) && m <= n
    ensures 0 <= LeafSum(w, m) <= LeafSum(w, n)
    decreases n
  {
    if m < n { LeafSumGrows(w, m, n - 1); } else if m > 0 { LeafSumGrows(w, m - 1, m - 1); }
  }

  lemma {:induction false} CountsCostNotNegative(v: seq<nat>, w: seq<int>)
    requires LeavesOk(w)
    ensures CountsCost(v, w) >= 0
  {
    if v != [] {
      LeafSumGrows(w, v[0], v[0]);
      CountsCostNotNegative(v[1..], w);
    }
  }

  /** The first `k` items of list `c` are the cheapest of all selections. */
  lemma {:induction false} FirstItemsAreCheapest(w: seq<int>, v: seq<nat>, c: nat, k: nat)
    requires LeavesOk(w) && Covers(v, |w|, c, k)
    ensures Cost(w, c, k) <= CountsCost(v, w)
    decreases c
  {
    hide Cost, LeafSum;
    CoveredIsAvailable(v, |w|, c, k);
    var a := if v[0] < k then v[0] else k;
    LeafSumGrows(w, a, v[0]);
    CountsCostNotNegative(v[1..], w);
    if c == 0 {
      LeavesOfBottom(w, k);
    } else {
      NoLeaves(w, c - 1);
      if v[0] < k {
        FirstItemsAreCheapest(w, v[1..], c - 1, 2 * (k - v[0]));
        CoveredIsAvailable(v[1..], |w|, c - 1, 2 * (k - v[0]));
      }
      NoCheaperMix(w, c, k, a);
    }
  }
}
