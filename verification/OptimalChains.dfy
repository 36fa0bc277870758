/** Boundary package-merge takes the items of every list in order of weight, so
    its last chain is a cheapest selection. */
module OptimalChains {
  import opened Chains
  import opened MergedItems

  /** On every list the chain holds as many leaves as the first `k` items do. */
  ghost predicate FirstItems(ch: Chain, w: seq<int>, c: nat, k: nat)
    decreases c
  {
    && ch != [] && ch[0].index == Leaves(w, c, k)
    && if c == 0 || k == ch[0].index then |ch| == 1 else FirstItems(ch[1..], w, c - 1, 2 * (k - ch[0].index))
  }

  ghost function ChainCost(ch: Chain, w: seq<int>): int {
    if ch == [] then 0 else LeafSum(w, ch[0].index) + ChainCost(ch[1..], w)
  }

  lemma {:induction false} ChainCostIsItems(ch: Chain, w: seq<int>, c: nat, k: nat)
    requires FirstItems(ch, w, c, k)
    ensures ChainCost(ch, w) == Cost(w, c, k)
    decreases c
  {
    hide Leaves, LeafSum;
    if c == 0 {
      LeavesOfBottom(w, k);
    } else {
      CostSplits(w, c, k);
      NoLeaves(w, c - 1);
      if k != ch[0].index { ChainCostIsItems(ch[1..], w, c - 1, 2 * (k - ch[0].index)); }
    }
    assert |ch| == 1 ==> ch[1..] == [];
  }

  /** As long as its items exist, list `c` has taken the first `k` of them, and
      its chains hold the weights of the last two. */
  ghost predicate Greedy(ls: Lists, w: seq<int>, c: nat, k: nat)
    requires Shaped(ls, |ls.c0|) && c < |ls.c0|
  {
    k <= Available(|w|, c) ==>
      && k >= 2
      && FirstItems(ls.c1[c], w, c, k)
      && ls.c0[c][0].weight == ItemWeight(w, c, k - 2)
      && ls.c1[c][0].weight == ItemWeight(w, c, k - 1)
  }

  ghost predicate AllGreedy(ls: Lists, w: seq<int>, k: seq<nat>, c: nat)
    requires Shaped(ls, |ls.c0|) && c < |ls.c0| == |k|
  {
    forall j :: 0 <= j <= c ==> Greedy(ls, w, j, k[j])
  }

  lemma ChainIndex(ls: Lists, w: seq<int>, c: nat, k: nat)
    requires Shaped(ls, |ls.c0|) && c < |ls.c0|
    requires Greedy(ls, w, c, k) && k <= Available(|w|, c)
    ensures ls.c1[c][0].index == Leaves(w, c, k)
  {
    hide Leaves;
  }

  /** The package weight boundaryPM computes is that of the next package. */
  lemma Lookahead(ls: Lists, w: seq<int>, c: nat, p: nat)
    requires Shaped(ls, |ls.c0|) && c < |ls.c0|
    requires Greedy(ls, w, c, 2 * p + 2) && 2 * p + 2 <= Available(|w|, c)
    ensures PackageWeight(ls, c) == Package(w, c, p)
  {
    hide ItemWeight, FirstItems;
  }

  lemma LeafIsNext(w: seq<int>, c: nat, k: nat, a: nat)
    requires a == Leaves(w, c, k) && LeafNext(w, c, a, k - a)
    ensures Leaves(w, c, k + 1) == a + 1 && ItemWeight(w, c, k) == LeafWeight(w, a)
  {
  }

  lemma PackageIsNext(w: seq<int>, c: nat, k: nat, a: nat)
    requires c > 0 && a == Leaves(w, c, k) && !LeafNext(w, c, a, k - a)
    ensures Leaves(w, c, k + 1) == a && ItemWeight(w, c, k) == Package(w, c - 1, k - a)
  {
  }

  /** boundaryPM prefers a leaf only if it is next. */
  lemma PreferredLeafIsNext(ls: Lists, w: seq<int>, k: seq<nat>, c: nat)
    requires Inv(ls, w, k, c) && AllGreedy(ls, w, k, c) && k[c] <= Available(|w|, c)
    requires ls.c1[c][0].index < |w| && (c > 0 ==> PrefersLeaf(ls, w, c))
    ensures var a := ls.c1[c][0].index; a == Leaves(w, c, k[c]) && LeafNext(w, c, a, k[c] - a)
  {
    hide ListOk, Greedy, ItemWeight;
    var a := ls.c1[c][0].index;
    assert Greedy(ls, w, c, k[c]);
    ChainIndex(ls, w, c, k[c]);
    hide Leaves;
    if c > 0 {
      assert Linked(ls, k, c) && Greedy(ls, w, c - 1, k[c - 1]);
      if k[c - 1] <= Available(|w|, c - 1) { Lookahead(ls, w, c - 1, k[c] - a); }
    }
  }

  /** A leaf is taken when it is next. */
  lemma TakesLeafInOrder(ls: Lists, w: seq<int>, k: seq<nat>, c: nat)
    requires Inv(ls, w, k, c) && AllGreedy(ls, w, k, c)
    requires ls.c1[c][0].index < |w| && (c > 0 ==> PrefersLeaf(ls, w, c))
    ensures Greedy(LeafTaken(ls, w, c), w, c, k[c] + 1)
  {
    hide ListOk, Leaves, LeafNext, ItemWeight;
    var ch, r := ls.c1[c], LeafTaken(ls, w, c);
    var a := ch[0].index;
    assert Greedy(ls, w, c, k[c]);
    assert r.c1[c][1..] == ch[1..] && r.c1[c][0] == Item(w[a], a + 1);
    if k[c] + 1 <= Available(|w|, c) {
      PreferredLeafIsNext(ls, w, k, c);
      LeafIsNext(w, c, k[c], a);
      LeafOnTop(ch, r.c1[c], w, c, k[c]);
    }
  }

  lemma LeafOnTop(ch: Chain, ch': Chain, w: seq<int>, c: nat, k: nat)
    requires FirstItems(ch, w, c, k) && ch' != [] && ch'[1..] == ch[1..]
    requires ch'[0].index == ch[0].index + 1 == Leaves(w, c, k + 1)
    ensures FirstItems(ch', w, c, k + 1)
  {
    hide Leaves;
    assert 2 * (k + 1 - ch'[0].index) == 2 * (k - ch[0].index);
  }

  /** A package is taken when it is next. */
  lemma TakesPackageInOrder(ls: Lists, w: seq<int>, k: seq<nat>, c: nat)
    requires Inv(ls, w, k, c) && AllGreedy(ls, w, k, c)
    requires c > 0 && !PrefersLeaf(ls, w, c)
    ensures Greedy(PackageTaken(ls, c), w, c, k[c] + 1)
  {
    var r := PackageTaken(ls, c);
    var a := ls.c1[c][0].index;
    var ch' := r.c1[c];
    assert ListOk(ls, w, c, k[c]) && Greedy(ls, w, c, k[c]);
    assert Linked(ls, k, c) && Greedy(ls, w, c - 1, k[c - 1]);
    assert ch'[1..] == ls.c1[c - 1];
    if k[c] + 1 <= Available(|w|, c) {
      PackageExists(ls, w, k, c);
      hide Leaves, ItemWeight;
      Lookahead(ls, w, c - 1, k[c] - a);
      PackageIsNext(w, c, k[c], a);
      assert FirstItems(ch', w, c, k[c] + 1);
    }
  }

  /** A package of items that do not exist is only taken behind the last item. */
  lemma PackageExists(ls: Lists, w: seq<int>, k: seq<nat>, c: nat)
    requires Inv(ls, w, k, c) && c > 0 && !PrefersLeaf(ls, w, c)
    requires k[c] + 1 <= Available(|w|, c)
    ensures k[c - 1] <= Available(|w|, c - 1)
  {
    TakePackage(ls, w, k, c);
    assert ListOk(PackageTaken(ls, c), w, c, k[c] + 1) && Linked(ls, k, c);
  }

  // ----- whole steps

  lemma SameCounts(ls: Lists, w: seq<int>, k: seq<nat>, k': seq<nat>, c: nat)
    requires Inv(ls, w, k, c) && Inv(ls, w, k', c) && k[c] == k'[c]
    ensures k[..c + 1] == k'[..c + 1]
  {
    hide ListOk;
    var j := c;
    while j > 0
      invariant 0 <= j <= c < |k| == |k'| && forall i :: j <= i <= c ==> k[i] == k'[i]
    {
      assert Linked(ls, k, j) && Linked(ls, k', j);
      j := j - 1;
    }
    assert forall i :: 0 <= i <= c ==> k[i] == k'[i];
  }

  lemma GreedyFrame(ls: Lists, r: Lists, w: seq<int>, j: nat, k: nat)
    requires Shaped(ls, |ls.c0|) && Shaped(r, |ls.c0|) && j < |ls.c0|
    requires r.c0[j] == ls.c0[j] && r.c1[j] == ls.c1[j] && Greedy(ls, w, j, k)
    ensures Greedy(r, w, j, k)
  {
    hide FirstItems, ItemWeight;
  }

  lemma {:induction false} StepIsGreedy(ls: Lists, w: seq<int>, k: seq<nat>, c: nat, k': seq<nat>)
    requires Inv(ls, w, k, c) && AllGreedy(ls, w, k, c)
    requires Inv(Step(ls, w, c, true), w, k', c) && k'[c] == k[c] + 1
    ensures AllGreedy(Step(ls, w, c, true), w, k', c)
    decreases c, 1
  {
    hide ListOk, Greedy, LeavesOk;
    if c > 0 && !PrefersLeaf(ls, w, c) {
      PackageStepIsGreedy(ls, w, k, c, k');
    } else if ls.c1[c][0].index < |w| {
      LeafStepIsGreedy(ls, w, k, c, k');
    } else {
      BottomIsExhausted(ls, w, k);
    }
  }

  lemma LeafStepIsGreedy(ls: Lists, w: seq<int>, k: seq<nat>, c: nat, k': seq<nat>)
    requires Inv(ls, w, k, c) && AllGreedy(ls, w, k, c)
    requires ls.c1[c][0].index < |w| && (c > 0 ==> PrefersLeaf(ls, w, c))
    requires Inv(LeafTaken(ls, w, c), w, k', c) && k'[c] == k[c] + 1
    ensures AllGreedy(LeafTaken(ls, w, c), w, k', c)
  {
    hide ListOk, Greedy, LeavesOk;
    var r := LeafTaken(ls, w, c);
    TakesLeafInOrder(ls, w, k, c);
    if c > 0 {
      TakeLeaf(ls, w, k, c);
      SameCounts(r, w, k[c := k[c] + 1], k', c);
    }
    forall j | 0 <= j <= c ensures Greedy(r, w, j, k'[j]) {
      if j < c {
        assert k'[..c + 1][j] == k[j];
        GreedyFrame(ls, r, w, j, k[j]);
      }
    }
  }

  lemma BottomIsExhausted(ls: Lists, w: seq<int>, k: seq<nat>)
    requires Inv(ls, w, k, 0) && ls.c1[0][0].index >= |w|
    ensures Greedy(ls, w, 0, k[0] + 1)
  {
    assert ListOk(ls, w, 0, k[0]);
  }

  lemma {:induction false} PackageStepIsGreedy(ls: Lists, w: seq<int>, k: seq<nat>, c: nat, k': seq<nat>)
    requires Inv(ls, w, k, c) && AllGreedy(ls, w, k, c) && c > 0 && !PrefersLeaf(ls, w, c)
    requires Inv(Step(ls, w, c, true), w, k', c) && k'[c] == k[c] + 1
    ensures AllGreedy(Step(ls, w, c, true), w, k', c)
    decreases c, 0
  {
    hide ListOk, Greedy, LeavesOk;
    TakePackage(ls, w, k, c);
    assert Linked(ls, k, c);
    var taken := PackageTaken(ls, c);
    var k0 := k[c := k[c] + 1];
    forall j | 0 <= j <= c - 1 ensures Greedy(taken, w, j, k0[j]) { GreedyFrame(ls, taken, w, j, k[j]); }
    var k2 := TwoStepsAreGreedy(taken, w, k0, c - 1);
    var r := Step(ls, w, c, true);
    CountsBelow(ls, taken, r, w, k, k2, k', c);
    TakesPackageInOrder(ls, w, k, c);
    GreedyFrame(taken, r, w, c, k'[c]);
  }

  lemma {:induction false} TwoStepsAreGreedy(ls: Lists, w: seq<int>, k: seq<nat>, c: nat) returns (k': seq<nat>)
    requires Inv(ls, w, k, c) && AllGreedy(ls, w, k, c)
    ensures var r := Step(Step(ls, w, c, true), w, c, true);
            && Inv(r, w, k', c) && AllGreedy(r, w, k', c) && k'[c] == k[c] + 2
            && forall j :: c < j < |ls.c0| ==> r.c0[j] == ls.c0[j] && r.c1[j] == ls.c1[j]
    decreases c, 2
  {
    hide ListOk, Greedy, LeavesOk, Linked;
    StepFrame(ls, w, c, true);
    var k1 := StepKeepsInv(ls, w, k, c);
    StepIsGreedy(ls, w, k, c, k1);
    var once := Step(ls, w, c, true);
    StepFrame(once, w, c, true);
    k' := StepKeepsInv(once, w, k1, c);
    StepIsGreedy(once, w, k1, c, k');
  }

  /** The counts below list `c` after its package has been replaced. */
  lemma CountsBelow(ls: Lists, taken: Lists, r: Lists, w: seq<int>, k: seq<nat>, k2: seq<nat>, k': seq<nat>, c: nat)
    requires Inv(ls, w, k, c) && c > 0 && taken == PackageTaken(ls, c)
    requires Shaped(r, |ls.c0|) && r.c1[c] == taken.c1[c]
    requires Inv(r, w, k2, c - 1) && AllGreedy(r, w, k2, c - 1) && k2[c - 1] == k[c - 1] + 2
    requires Inv(r, w, k', c) && k'[c] == k[c] + 1
    ensures forall j :: 0 <= j < c ==> Greedy(r, w, j, k'[j])
  {
    hide ListOk, Greedy, LeavesOk;
    assert Linked(ls, k, c) && Linked(r, k', c);
    SameCounts(r, w, k2, k', c - 1);
    forall j | 0 <= j < c ensures Greedy(r, w, j, k'[j]) {
      assert k2[j] == k2[..c][j] == k'[j];
    }
  }

  // ----- whole runs

  lemma InitialIsGreedy(w: seq<int>, listsize: nat)
    requires LeavesOk(w) && listsize > 0
    ensures AllGreedy(Initial(w, listsize), w, seq(listsize, _ => 2), listsize - 1)
  {
    var ls := Initial(w, listsize);
    forall c | 0 <= c < listsize ensures Greedy(ls, w, c, 2) { FirstTwo(w, c); }
  }

  /** The two lightest leaves come first in every list. */
  lemma {:induction false} FirstTwo(w: seq<int>, c: nat)
    requires LeavesOk(w)
    ensures Leaves(w, c, 2) == 2 && ItemWeight(w, c, 0) == w[0] && ItemWeight(w, c, 1) == w[1]
  {
    assert Leaves(w, c, 0) == 0;
    if c > 0 {
      FirstTwo(w, c - 1);
      assert Package(w, c - 1, 0) == w[0] + w[1];
    }
    LeafIsNext(w, c, 0, 0);
    LeafIsNext(w, c, 1, 1);
  }

  lemma {:induction false} RunIsGreedy(w: seq<int>, listsize: nat, count: nat) returns (k: seq<nat>)
    requires LeavesOk(w) && listsize > 0 && 2 <= count && (count < 2 * |w| - 2 || count == 2)
    ensures Inv(Run(w, listsize, count), w, k, listsize - 1) && k[listsize - 1] == count
    ensures AllGreedy(Run(w, listsize, count), w, k, listsize - 1)
  {
    hide Greedy, Step, ListOk;
    if count == 2 {
      InitialInv(w, listsize);
      InitialIsGreedy(w, listsize);
      k := seq(listsize, _ => 2);
    } else {
      var k0 := RunIsGreedy(w, listsize, count - 1);
      var ls := Run(w, listsize, count - 1);
      k := StepKeepsInv(ls, w, k0, listsize - 1);
      StepIsGreedy(ls, w, k0, listsize - 1, k);
    }
  }

  /** The last step takes the next item as well. */
  lemma LastStepIsGreedy(ls: Lists, w: seq<int>, k: seq<nat>, c: nat)
    requires Inv(ls, w, k, c) && AllGreedy(ls, w, k, c)
    ensures Greedy(Step(ls, w, c, false), w, c, k[c] + 1)
  {
    hide ListOk, Greedy, LeavesOk;
    if c > 0 && !PrefersLeaf(ls, w, c) {
      TakesPackageInOrder(ls, w, k, c);
    } else if ls.c1[c][0].index < |w| {
      TakesLeafInOrder(ls, w, k, c);
    } else {
      BottomIsExhausted(ls, w, k);
    }
  }

  /** The chain that is read off in the end costs as much as the first
      `2n - 2` items of the last list. */
  lemma RunIsOptimal(w: seq<int>, listsize: nat)
    requires LeavesOk(w) && listsize > 0 && 2 * |w| - 2 <= Available(|w|, listsize - 1)
    ensures ChainCost(Run(w, listsize, 2 * |w| - 2).c1[listsize - 1], w) == Cost(w, listsize - 1, 2 * |w| - 2)
  {
    hide Step, ListOk, Cost, FirstItems, ItemWeight;
    var c := listsize - 1;
    if |w| == 2 {
      var k := RunIsGreedy(w, listsize, 2);
      assert Greedy(Run(w, listsize, 2), w, c, k[c]);
    } else {
      var k := RunIsGreedy(w, listsize, 2 * |w| - 3);
      LastStepIsGreedy(Run(w, listsize, 2 * |w| - 3), w, k, c);
    }
    ChainCostIsItems(Run(w, listsize, 2 * |w| - 2).c1[c], w, c, 2 * |w| - 2);
  }
}
