/** The Boundary Package-Merge step of Katajainen, Moffat and Turpin as a
    function on lists of chains, and why its result is a complete code.

    List `c` of the algorithm merges the leaves with the packages made of pairs
    of items of list `c - 1`, in order of weight.  Only two chains per list are
    kept: the last two items taken, `c0[c]` and `c1[c]`.  A chain records, head
    first, for this list and the ones below how many leaves were taken. */
module Chains {
  import opened Bits

  datatype Item = Item(weight: int, index: nat)

  type Chain = seq<Item>

  datatype Lists = Lists(c0: seq<Chain>, c1: seq<Chain>)

  ghost predicate Shaped(ls: Lists, listsize: nat) {
    && |ls.c0| == |ls.c1| == listsize
    && forall c :: 0 <= c < listsize ==> ls.c0[c] != [] && ls.c1[c] != []
  }

  /** The weight of the next package of list `c`. */
  ghost function PackageWeight(ls: Lists, c: nat): int
    requires Shaped(ls, |ls.c0|) && c < |ls.c0|
  {
    ls.c0[c][0].weight + ls.c1[c][0].weight
  }

  /** List `c` takes its next leaf. */
  ghost function LeafTaken(ls: Lists, w: seq<int>, c: nat): (r: Lists)
    requires Shaped(ls, |ls.c0|) && c < |ls.c0| && ls.c1[c][0].index < |w|
    ensures Shaped(r, |ls.c0|)
  {
    var last := ls.c1[c][0].index;
    Lists(ls.c0[c := ls.c1[c]], ls.c1[c := [Item(w[last], last + 1)] + ls.c1[c][1..]])
  }

  /** List `c` takes the package of the two lookahead items below it. */
  ghost function PackageTaken(ls: Lists, c: nat): (r: Lists)
    requires Shaped(ls, |ls.c0|) && 0 < c < |ls.c0|
    ensures Shaped(r, |ls.c0|)
  {
    Lists(ls.c0[c := ls.c1[c]],
          ls.c1[c := [Item(PackageWeight(ls, c - 1), ls.c1[c][0].index)] + ls.c1[c - 1]])
  }

  ghost predicate PrefersLeaf(ls: Lists, w: seq<int>, c: nat)
    requires Shaped(ls, |ls.c0|) && 0 < c < |ls.c0|
  {
    ls.c1[c][0].index < |w| && PackageWeight(ls, c - 1) > w[ls.c1[c][0].index]
  }

  /** boundaryPM: list `c` takes one more item.  `more` says whether further
      chains will be needed, so that used-up lookahead has to be replaced. */
  ghost function Step(ls: Lists, w: seq<int>, c: nat, more: bool): (r: Lists)
    requires Shaped(ls, |ls.c0|) && c < |ls.c0|
    ensures Shaped(r, |ls.c0|)
    decreases c
  {
    if c == 0 then
      if ls.c1[0][0].index >= |w| then ls
      else
        LeafTaken(ls, w, 0)
    else if PrefersLeaf(ls, w, c) then LeafTaken(ls, w, c)
    else if more then Step(Step(PackageTaken(ls, c), w, c - 1, more), w, c - 1, more)
    else PackageTaken(ls, c)
  }

  // ----- what a chain means

  /** Positive weights in ascending order. */
  ghost predicate LeavesOk(w: seq<int>) {
    && |w| >= 2 && w[0] > 0
    && forall i, j :: 0 <= i <= j < |w| ==> w[i] <= w[j]
  }

  /** How many items list `c` really has. */
  function Available(n: nat, c: nat): nat {
    if c == 0 then n else n + Available(n, c - 1) / 2
  }

  /** `ch` describes the first `k` items of list `c`: `ch[0].index` leaves, and
      packages made of the first `2 * (k - ch[0].index)` items of the list below,
      which hold no leaf that list `c` does not hold itself. */
  ghost predicate Describes(ch: Chain, n: nat, c: nat, k: nat)
    decreases c
  {
    && ch != [] && ch[0].index <= n && ch[0].index <= k
    && if c == 0 || k == ch[0].index then ch[0].index == k && |ch| == 1
       else |ch| >= 2 && ch[1].index <= ch[0].index && Describes(ch[1..], n, c - 1, 2 * (k - ch[0].index))
  }

  ghost predicate Described(ch: Chain, n: nat, c: nat, k: nat) {
    k <= Available(n, c) ==> Describes(ch, n, c, k)
  }

  /** List `c` has taken `k` items.  Weights grow; packages of items that do not
      exist are only ever taken when no leaf is left. */
  ghost predicate ListOk(ls: Lists, w: seq<int>, c: nat, k: nat)
    requires Shaped(ls, |ls.c0|) && c < |ls.c0|
  {
    var h := ls.c1[c][0];
    var n := |w|;
    && 0 < ls.c0[c][0].weight <= h.weight
    && 1 <= h.index <= n && h.index <= k && w[h.index - 1] <= h.weight
    && (h.index < n ==> h.weight <= w[h.index])
    && Described(ls.c1[c], n, c, k)
    && (if c == 0 then k > n ==> h.index == n
        else 2 * (k - h.index) > Available(n, c - 1) ==> h.index == n)
  }

  /** The lists up to `c` are consistent; `k[j]` counts the items list `j` has
      taken: two for each package of list `j + 1` and two of lookahead. */
  ghost predicate Inv(ls: Lists, w: seq<int>, k: seq<nat>, c: nat) {
    && Shaped(ls, |ls.c0|) && c < |ls.c0| == |k| && LeavesOk(w)
    && (forall j :: 0 <= j <= c ==> ListOk(ls, w, j, k[j]))
    && (forall j :: 0 < j <= c ==> Linked(ls, k, j))
  }

  ghost predicate Linked(ls: Lists, k: seq<nat>, j: nat)
    requires Shaped(ls, |ls.c0|) && 0 < j < |ls.c0| == |k|
  {
    && k[j - 1] == 2 * (k[j] - ls.c1[j][0].index + 1)
    && ls.c1[j][0].weight <= PackageWeight(ls, j - 1)
  }

  /** Asking for more items than there are means all leaves are taken. */
  lemma ExhaustedMeansAllLeaves(ls: Lists, w: seq<int>, c: nat, k: nat)
    requires Shaped(ls, |ls.c0|) && c < |ls.c0|
    requires ListOk(ls, w, c, k) && k > Available(|w|, c)
    ensures ls.c1[c][0].index == |w|
  {
  }

  /** Taking a leaf in list `c > 0`. */
  lemma TakeLeaf(ls: Lists, w: seq<int>, k: seq<nat>, c: nat)
    requires Inv(ls, w, k, c) && c > 0 && PrefersLeaf(ls, w, c)
    ensures Inv(LeafTaken(ls, w, c), w, k[c := k[c] + 1], c)
  {
    var ch := ls.c1[c];
    var last := ch[0].index;
    var ch' := [Item(w[last], last + 1)] + ch[1..];
    var r := LeafTaken(ls, w, c);
    var k' := k[c := k[c] + 1];
    assert Linked(ls, k, c) && ListOk(ls, w, c, k[c]);
    assert ch'[1..] == ch[1..];
    assert ListOk(r, w, c, k'[c]);
    hide Described;
    forall j | 0 <= j <= c ensures ListOk(r, w, j, k'[j]) { assert ListOk(ls, w, j, k[j]); }
    forall j | 0 < j <= c ensures Linked(r, k', j) { assert Linked(ls, k, j); }
  }

  /** Taking a package in list `c`; its two items must then be replaced. */
  lemma TakePackage(ls: Lists, w: seq<int>, k: seq<nat>, c: nat)
    requires Inv(ls, w, k, c) && c > 0 && !PrefersLeaf(ls, w, c)
    ensures var taken := PackageTaken(ls, c);
            && ListOk(taken, w, c, k[c] + 1)
            && Inv(taken, w, k[c := k[c] + 1], c - 1)
  {
    var n := |w|;
    var h, below := ls.c1[c][0], ls.c1[c - 1][0];
    var sum := PackageWeight(ls, c - 1);
    var ch' := [Item(sum, h.index)] + ls.c1[c - 1];
    var taken := PackageTaken(ls, c);
    var k' := k[c := k[c] + 1];
    assert Linked(ls, k, c) && ListOk(ls, w, c, k[c]) && ListOk(ls, w, c - 1, k[c - 1]);
    assert below.weight < sum;
    // a leaf inside the package is lighter than the package, so it was taken before
    assert h.index < n ==> w[below.index - 1] < w[h.index];
    assert below.index <= h.index;
    if k[c - 1] > Available(n, c - 1) {
      ExhaustedMeansAllLeaves(ls, w, c - 1, k[c - 1]);
      assert h.index == n;
    }
    assert ch'[1..] == ls.c1[c - 1];
    assert ListOk(taken, w, c, k'[c]);
    hide Described, Available;
    forall j | 0 <= j <= c - 1 ensures ListOk(taken, w, j, k'[j]) { assert ListOk(ls, w, j, k[j]); }
    forall j | 0 < j <= c - 1 ensures Linked(taken, k', j) { assert Linked(ls, k, j); }
  }

  /** A step of list `c` changes nothing above it. */
  lemma {:induction false} StepFrame(ls: Lists, w: seq<int>, c: nat, more: bool)
    requires Shaped(ls, |ls.c0|) && c < |ls.c0|
    ensures var r := Step(ls, w, c, more);
            forall j :: c < j < |ls.c0| ==> r.c0[j] == ls.c0[j] && r.c1[j] == ls.c1[j]
    decreases c
  {
    if c > 0 && !PrefersLeaf(ls, w, c) && more {
      var taken := PackageTaken(ls, c);
      var once := Step(taken, w, c - 1, more);
      StepFrame(taken, w, c - 1, more);
      StepFrame(once, w, c - 1, more);
      var r := Step(once, w, c - 1, more);
      assert Step(ls, w, c, more) == r;
      forall j | c < j < |ls.c0| ensures r.c0[j] == ls.c0[j] && r.c1[j] == ls.c1[j] {
        assert r.c0[j] == once.c0[j] == taken.c0[j];
        assert r.c1[j] == once.c1[j] == taken.c1[j];
      }
    } else {
      var r := Step(ls, w, c, more);
      assert r == ls || r.c0 == ls.c0[c := ls.c1[c]];
      assert r == ls || r.c1 == ls.c1[c := r.c1[c]];
    }
  }

  /** Every step keeps the lists consistent, and package weights never fall. */
  lemma {:induction false} StepKeepsInv(ls: Lists, w: seq<int>, k: seq<nat>, c: nat) returns (k': seq<nat>)
    requires Inv(ls, w, k, c)
    ensures Inv(Step(ls, w, c, true), w, k', c)
    ensures k'[c] == k[c] + 1
    ensures PackageWeight(Step(ls, w, c, true), c) >= PackageWeight(ls, c)
    decreases c, 1
  {
    assert ListOk(ls, w, c, k[c]);
    k' := k[c := k[c] + 1];
    if c == 0 {
      assert ListOk(Step(ls, w, 0, true), w, 0, k'[0]);
    } else {
      assert Linked(ls, k, c);
      if PrefersLeaf(ls, w, c) {
        TakeLeaf(ls, w, k, c);
      } else {
        k' := PackageStepKeepsInv(ls, w, k, c);
      }
    }
  }

  lemma {:induction false} PackageStepKeepsInv(ls: Lists, w: seq<int>, k: seq<nat>, c: nat) returns (k': seq<nat>)
    requires Inv(ls, w, k, c) && c > 0 && !PrefersLeaf(ls, w, c)
    ensures Inv(Step(ls, w, c, true), w, k', c)
    ensures k'[c] == k[c] + 1
    ensures Step(ls, w, c, true).c0[c] == ls.c1[c] && Step(ls, w, c, true).c1[c] == PackageTaken(ls, c).c1[c]
    decreases c, 0
  {
    hide ListOk, LeavesOk;
    TakePackage(ls, w, k, c);
    assert Linked(ls, k, c);
    var taken := PackageTaken(ls, c);
    var k2 := TwoStepsKeepInv(taken, w, k[c := k[c] + 1], c - 1);
    var r := Step(Step(taken, w, c - 1, true), w, c - 1, true);
    k' := k2[c := k[c] + 1];
    InvIgnoresAbove(r, w, k2, k', c - 1);
    Relinked(taken, r, w, k, k', c);
  }

  /** The two items of a package are replaced. */
  lemma {:induction false} TwoStepsKeepInv(ls: Lists, w: seq<int>, k: seq<nat>, c: nat) returns (k': seq<nat>)
    requires Inv(ls, w, k, c)
    ensures var r := Step(Step(ls, w, c, true), w, c, true);
            && Inv(r, w, k', c) && k'[c] == k[c] + 2 && PackageWeight(r, c) >= PackageWeight(ls, c)
            && forall j :: c < j < |ls.c0| ==> r.c0[j] == ls.c0[j] && r.c1[j] == ls.c1[j]
    decreases c, 2
  {
    hide ListOk, LeavesOk, Linked;
    StepFrame(ls, w, c, true);
    var k1 := StepKeepsInv(ls, w, k, c);
    var once := Step(ls, w, c, true);
    StepFrame(once, w, c, true);
    k' := StepKeepsInv(once, w, k1, c);
  }

  lemma InvIgnoresAbove(ls: Lists, w: seq<int>, k: seq<nat>, k': seq<nat>, c: nat)
    requires Inv(ls, w, k, c) && |k'| == |k| && k'[..c + 1] == k[..c + 1]
    ensures Inv(ls, w, k', c)
  {
    assert forall j :: 0 <= j <= c ==> k'[j] == k'[..c + 1][j] == k[j];
    forall j | 0 <= j <= c ensures ListOk(ls, w, j, k'[j]) { assert ListOk(ls, w, j, k[j]); }
    forall j | 0 < j <= c ensures Linked(ls, k', j) { assert Linked(ls, k, j); }
  }

  lemma Relinked(taken: Lists, r: Lists, w: seq<int>, k: seq<nat>, k': seq<nat>, c: nat)
    requires Shaped(taken, |taken.c0|) && 0 < c < |taken.c0| == |k| == |k'|
    requires ListOk(taken, w, c, k[c] + 1) && k'[c] == k[c] + 1
    requires Inv(r, w, k', c - 1) && |r.c0| == |taken.c0|
    requires r.c0[c] == taken.c0[c] && r.c1[c] == taken.c1[c]
    requires k[c - 1] == 2 * (k[c] - taken.c1[c][0].index + 1) && k'[c - 1] == k[c - 1] + 2
    requires taken.c1[c][0].weight <= PackageWeight(r, c - 1)
    ensures Inv(r, w, k', c)
  {
    assert ListOk(r, w, c, k'[c]);
    assert Linked(r, k', c);
  }

  ghost function Initial(w: seq<int>, listsize: nat): (ls: Lists)
    requires |w| >= 2
    ensures Shaped(ls, listsize)
  {
    Lists(seq(listsize, _ => [Item(w[0], 1)]), seq(listsize, _ => [Item(w[1], 2)]))
  }

  lemma InitialInv(w: seq<int>, listsize: nat)
    requires LeavesOk(w) && listsize > 0
    ensures Inv(Initial(w, listsize), w, seq(listsize, _ => 2), listsize - 1)
  {
    var ls, k := Initial(w, listsize), seq(listsize, _ => 2);
    forall j | 0 <= j < listsize ensures ListOk(ls, w, j, k[j]) {}
    forall j | 0 < j < listsize ensures Linked(ls, k, j) {}
  }

  /** `count` chains in the top list, after the loop of lodepng_huffman_code_lengths. */
  ghost function Run(w: seq<int>, listsize: nat, count: nat): (r: Lists)
    requires |w| >= 2 && listsize > 0 && 2 <= count <= 2 * |w| - 2
    ensures Shaped(r, listsize)
  {
    if count == 2 then Initial(w, listsize)
    else Step(Run(w, listsize, count - 1), w, listsize - 1, count < 2 * |w| - 2)
  }

  lemma {:induction false} RunInv(w: seq<int>, listsize: nat, count: nat) returns (k: seq<nat>)
    requires LeavesOk(w) && listsize > 0 && 2 <= count && (count < 2 * |w| - 2 || count == 2)
    ensures Inv(Run(w, listsize, count), w, k, listsize - 1) && k[listsize - 1] == count
  {
    if count == 2 {
      InitialInv(w, listsize);
      k := seq(listsize, _ => 2);
    } else {
      k := RunInv(w, listsize, count - 1);
      k := StepKeepsInv(Run(w, listsize, count - 1), w, k, listsize - 1);
    }
  }

  lemma {:induction false} AvailableEnough(n: nat, c: nat, m: nat)
    requires n <= m * Pow2(c)
    ensures Available(n, c) + m >= 2 * n
  {
    if c > 0 {
      assert m * Pow2(c) == (2 * m) * Pow2(c - 1);
      AvailableEnough(n, c - 1, 2 * m);
    }
  }

  /** With enough bits for all symbols, the chain of the top list describes
      its first `2n - 2` items. */
  lemma RunDescribes(w: seq<int>, listsize: nat)
    requires LeavesOk(w) && listsize > 0 && |w| <= Pow2(listsize)
    ensures Describes(Run(w, listsize, 2 * |w| - 2).c1[listsize - 1], |w|, listsize - 1, 2 * |w| - 2)
  {
    AvailableForRun(|w|, listsize);
    RunDescribed(w, listsize);
  }

  lemma AvailableForRun(n: nat, listsize: nat)
    requires listsize > 0 && n <= Pow2(listsize)
    ensures 2 * n - 2 <= Available(n, listsize - 1)
  {
    AvailableEnough(n, listsize - 1, 2);
  }

  lemma RunDescribed(w: seq<int>, listsize: nat)
    requires LeavesOk(w) && listsize > 0
    ensures Described(Run(w, listsize, 2 * |w| - 2).c1[listsize - 1], |w|, listsize - 1, 2 * |w| - 2)
  {
    if |w| == 2 {
      var k := RunInv(w, listsize, 2);
    } else {
      var k := RunInv(w, listsize, 2 * |w| - 3);
      LastStep(Run(w, listsize, 2 * |w| - 3), w, k, listsize - 1);
    }
  }

  /** The last step, which leaves used-up lookahead alone. */
  lemma LastStep(ls: Lists, w: seq<int>, k: seq<nat>, c: nat)
    requires Inv(ls, w, k, c)
    ensures ListOk(Step(ls, w, c, false), w, c, k[c] + 1)
  {
    assert ListOk(ls, w, c, k[c]);
    if c > 0 {
      if PrefersLeaf(ls, w, c) {
        TakeLeaf(ls, w, k, c);
      } else {
        TakePackage(ls, w, k, c);
      }
    }
  }
}
