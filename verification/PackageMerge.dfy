/** lodepng_huffman_code_lengths: length-limited code lengths from frequencies. */
module PackageMerge {
  import opened Bits
  import opened Chains
  import opened ChainLengths
  import opened HuffmanCodes
  import opened NodePool
  import opened OptimalChains
  import opened OptimalCodes

  /** List `c` takes its next item; `package` tells that it was a package. */
  method TakeItem(lists: BPMLists, w: seq<int>, c: nat) returns (package: bool)
    requires lists.Valid() && c < lists.listsize
    modifies lists.memory, lists.inUse, lists.freelist, lists.chains0, lists.chains1,
             lists`numfree, lists`nextfree
    ensures lists.Valid()
    ensures package ==> c > 0 && !PrefersLeaf(old(lists.Contents()), w, c)
    ensures package ==> lists.Contents() == PackageTaken(old(lists.Contents()), c)
    ensures !package ==> (c > 0 ==> PrefersLeaf(old(lists.Contents()), w, c))
                         && lists.Contents() == Step(old(lists.Contents()), w, c, false)
  {
    ghost var before := lists.Contents();
    var lastindex := lists.NewestIndex(c);
    if c == 0 {
      if lastindex < |w| {
        lists.TakeLeaf(w, 0);
      }
      return false;
    }
    // sum of the weights of the head nodes of the previous lookahead chains
    var sum := lists.LookaheadWeight(c - 1);
    if lastindex < |w| && sum > w[lastindex] {
      lists.TakeLeaf(w, c);
      return false;
    }
    lists.TakePackage(c, sum);
    return true;
  }

  lemma StepUnfolds(ls: Lists, w: seq<int>, c: nat, more: bool)
    requires Shaped(ls, |ls.c0|) && c < |ls.c0|
    ensures Step(ls, w, c, more) ==
      if c == 0 || PrefersLeaf(ls, w, c) then Step(ls, w, c, false)
      else if more then Step(Step(PackageTaken(ls, c), w, c - 1, more), w, c - 1, more)
      else PackageTaken(ls, c)
  {
  }

  /** boundaryPM: on the node pool it does what Step does on the chains. */
  method BoundaryPM(lists: BPMLists, w: seq<int>, c: nat, num: nat)
    requires lists.Valid() && c < lists.listsize && |w| >= 2
    modifies lists.memory, lists.inUse, lists.freelist, lists.chains0, lists.chains1,
             lists`numfree, lists`nextfree
    ensures lists.Valid()
    ensures lists.Contents() == Step(old(lists.Contents()), w, c, num + 1 < 2 * |w| - 2)
    decreases c, 1
  {
    hide Step;
    var package := TakeItem(lists, w, c);
    StepUnfolds(old(lists.Contents()), w, c, num + 1 < 2 * |w| - 2);
    // in the end only the chains of the last list matter
    if package && num + 1 < 2 * |w| - 2 {
      Replenish(lists, w, c - 1, num);
    }
  }

  /** Both lookahead chains of list `c` have been used. */
  method Replenish(lists: BPMLists, w: seq<int>, c: nat, num: nat)
    requires lists.Valid() && c < lists.listsize && num + 1 < 2 * |w| - 2
    modifies lists.memory, lists.inUse, lists.freelist, lists.chains0, lists.chains1,
             lists`numfree, lists`nextfree
    ensures lists.Valid()
    ensures lists.Contents() == Step(Step(old(lists.Contents()), w, c, true), w, c, true)
    decreases c + 1, 0
  {
    BoundaryPM(lists, w, c, num);
    BoundaryPM(lists, w, c, num);
  }

  // ----- leaves in order of weight

  datatype Leaf = Leaf(weight: nat, index: nat)

  /** bpmnode_compare */
  predicate Before(a: Leaf, b: Leaf) {
    a.weight < b.weight || (a.weight == b.weight && a.index > b.index)
  }

  ghost predicate Sorted(leaves: seq<Leaf>) {
    forall i, j :: 0 <= i < j < |leaves| ==> Before(leaves[i], leaves[j])
  }

  ghost predicate DistinctLeaves(leaves: seq<Leaf>) {
    forall i, j :: 0 <= i < j < |leaves| ==> leaves[i].index != leaves[j].index
  }

  method InsertLeaf(leaf: Leaf, sorted: seq<Leaf>) returns (r: seq<Leaf>)
    requires Sorted(sorted) && forall i :: 0 <= i < |sorted| ==> sorted[i].index != leaf.index
    ensures Sorted(r) && |r| == |sorted| + 1
    ensures forall x :: x in r <==> x == leaf || x in sorted
  {
    var k := 0;
    while k < |sorted| && Before(sorted[k], leaf)
      invariant k <= |sorted| && forall i :: 0 <= i < k ==> Before(sorted[i], leaf)
    {
      k := k + 1;
    }
    r := sorted[..k] + [leaf] + sorted[k..];
    assert sorted == sorted[..k] + sorted[k..];
  }

  /** The library's qsort: any sorting algorithm gives this result. */
  method SortLeaves(leaves: seq<Leaf>) returns (r: seq<Leaf>)
    requires DistinctLeaves(leaves)
    ensures Sorted(r) && |r| == |leaves|
    ensures forall x :: x in r <==> x in leaves
  {
    r := [];
    for i := 0 to |leaves|
      invariant Sorted(r) && |r| == i
      invariant forall x :: x in r <==> x in leaves[..i]
    {
      assert leaves[..i + 1] == leaves[..i] + [leaves[i]];
      forall k | 0 <= k < |r| ensures r[k].index != leaves[i].index {
        assert r[k] in leaves[..i];
      }
      r := InsertLeaf(leaves[i], r);
    }
    assert leaves[..|leaves|] == leaves;
  }

  /** The symbols with a frequency, as leaves. */
  method PresentLeaves(frequencies: seq<nat>) returns (leaves: seq<Leaf>)
    ensures DistinctLeaves(leaves)
    ensures IsLeaves(leaves, frequencies)
    ensures |leaves| <= |frequencies|
  {
    leaves := [];
    for i := 0 to |frequencies|
      invariant DistinctLeaves(leaves) && |leaves| <= i
      invariant forall x :: x in leaves <==> x.index < i && x.weight == frequencies[x.index] > 0
    {
      if frequencies[i] > 0 {
        leaves := leaves + [Leaf(frequencies[i], i)];
      }
    }
  }

  // ----- the lengths

  ghost function Weights(leaves: seq<Leaf>): (w: seq<int>)
    ensures |w| == |leaves|
  {
    seq(|leaves|, i requires 0 <= i < |leaves| => leaves[i].weight)
  }

  ghost function Symbols(leaves: seq<Leaf>): (s: seq<nat>)
    ensures |s| == |leaves|
  {
    seq(|leaves|, i requires 0 <= i < |leaves| => leaves[i].index)
  }

  ghost predicate Present(frequencies: seq<nat>, s: nat) {
    s < |frequencies| && frequencies[s] > 0
  }

  /** Adds the chain up: every node counts once for each leaf it covers. */
  method CountChain(lists: BPMLists, leaves: seq<Leaf>, lengths: array<nat>)
    requires lists.Valid() && lengths != lists.freelist && lengths != lists.chains0 && lengths != lists.chains1
    requires forall i :: 0 <= i < |leaves| ==> leaves[i].index < lengths.Length
    requires DistinctSymbols(Symbols(leaves))
    requires forall s :: 0 <= s < lengths.Length ==> lengths[s] == 0
    requires NonIncreasing(lists.Contents().c1[lists.listsize - 1], |leaves|)
    modifies lengths
    ensures AssignsLengths(lengths[..], Symbols(leaves), lists.Contents().c1[lists.listsize - 1])
  {
    ghost var mem := lists.memory[..];
    ghost var sym := Symbols(leaves);
    ghost var ch := lists.Contents().c1[lists.listsize - 1];
    var node := To(lists.chains1[lists.listsize - 1]);
    ghost var rest := lists.listsize;
    ghost var bound: nat := |leaves|;
    while node.To?
      invariant lists.memory[..] == mem
      invariant IsChain(mem, node, rest) && bound <= |leaves| && NonIncreasing(View(mem, node, rest), bound)
      invariant forall i :: 0 <= i < |sym| ==>
                  lengths[sym[i]] + LeafLength(View(mem, node, rest), i) == LeafLength(ch, i)
      invariant forall s :: 0 <= s < lengths.Length && s !in sym ==> lengths[s] == 0
      decreases rest
    {
      var item := lists.memory[node.addr];
      ghost var tail := View(mem, item.tail, rest - 1);
      assert View(mem, node, rest)[1..] == tail;
      AddOne(leaves, item.index, lengths);
      node := item.tail;
      rest := rest - 1;
      bound := item.index;
    }
    assert forall i :: 0 <= i < |sym| ==> LeafLength([], i) == 0;
  }

  method AddOne(leaves: seq<Leaf>, count: nat, lengths: array<nat>)
    requires count <= |leaves| && DistinctSymbols(Symbols(leaves))
    requires forall i :: 0 <= i < |leaves| ==> leaves[i].index < lengths.Length
    modifies lengths
    ensures forall i :: 0 <= i < |leaves| ==>
              var s := Symbols(leaves)[i]; lengths[s] == old(lengths[s]) + if i < count then 1 else 0
    ensures forall s :: 0 <= s < lengths.Length && s !in Symbols(leaves) ==> lengths[s] == old(lengths[s])
  {
    ghost var sym := Symbols(leaves);
    for i := 0 to count
      invariant forall j :: 0 <= j < |leaves| ==> lengths[sym[j]] == old(lengths[sym[j]]) + if j < i then 1 else 0
      invariant forall s :: 0 <= s < lengths.Length && s !in sym ==> lengths[s] == old(lengths[s])
    {
      assert leaves[i].index == sym[i];
      lengths[leaves[i].index] := lengths[leaves[i].index] + 1;
    }
  }

  /** Each BoundaryPM call adds one chain to the last list. */
  method AddChain(lists: BPMLists, w: seq<int>, i: nat)
    requires lists.Valid() && 2 <= i < 2 * |w| - 2 && lists.Contents() == Run(w, lists.listsize, i)
    modifies lists.memory, lists.inUse, lists.freelist, lists.chains0, lists.chains1,
             lists`numfree, lists`nextfree
    ensures lists.Valid() && lists.Contents() == Run(w, lists.listsize, i + 1)
  {
    hide Run, Step, Abs, BPMLists.Contents;
    NextRun(w, lists.listsize, i);
    BoundaryPM(lists, w, lists.listsize - 1, i);
  }

  lemma NextRun(w: seq<int>, listsize: nat, i: nat)
    requires |w| >= 2 && listsize > 0 && 2 <= i < 2 * |w| - 2
    ensures Run(w, listsize, i + 1) == Step(Run(w, listsize, i), w, listsize - 1, i + 1 < 2 * |w| - 2)
  {
  }

  method AddChains(lists: BPMLists, w: seq<int>)
    requires lists.Valid() && |w| >= 2 && lists.Contents() == Initial(w, lists.listsize)
    modifies lists.memory, lists.inUse, lists.freelist, lists.chains0, lists.chains1,
             lists`numfree, lists`nextfree
    ensures lists.Valid() && lists.Contents() == Run(w, lists.listsize, 2 * |w| - 2)
  {
    for i := 2 to 2 * |w| - 2
      invariant lists.Valid() && lists.Contents() == Run(w, lists.listsize, i)
    {
      AddChain(lists, w, i);
    }
  }

  /** The part of lodepng_huffman_code_lengths for two or more present symbols. */
  method MergePackages(leaves: seq<Leaf>, maxbitlen: nat, lengths: array<nat>, ghost frequencies: seq<nat>)
    requires 2 <= |leaves| <= Pow2(maxbitlen) && maxbitlen > 0
    requires Sorted(leaves) && DistinctSymbols(Symbols(leaves)) && leaves[0].weight > 0
    requires forall i :: 0 <= i < |leaves| ==> leaves[i].index < lengths.Length
    requires forall s :: 0 <= s < lengths.Length ==> lengths[s] == 0
    requires |frequencies| == lengths.Length && LeavesOf(Weights(leaves), Symbols(leaves), frequencies)
    modifies lengths
    ensures Complete(lengths[..], maxbitlen)
    ensures Optimal(lengths[..], frequencies, maxbitlen)
    ensures forall s :: 0 <= s < lengths.Length ==> (lengths[s] > 0 <==> s in Symbols(leaves))
    ensures forall i, j :: 0 <= i <= j < |leaves| ==> lengths[leaves[j].index] <= lengths[leaves[i].index]
  {
    hide Run, Step, Complete, Describes, NonIncreasing, Pow2, Available, LeafLength, Optimal, LeavesOf, ChainCost,
        AssignsLengths;
    var n := |leaves|;
    var w: seq<int> := seq(n, i requires 0 <= i < n => leaves[i].weight);
    assert w == Weights(leaves);
    assert LeavesOk(w);
    hide LeavesOk, Sorted;
    var lists := new BPMLists(maxbitlen, w);
    AddChains(lists, w);
    RunDescribes(w, maxbitlen);
    FinalChain(LastChain(w, maxbitlen), n, maxbitlen);
    CountChain(lists, leaves, lengths);
    LengthsOfLastChain(lengths[..], leaves, w, maxbitlen, frequencies);
  }

  ghost function LastChain(w: seq<int>, listsize: nat): Chain
    requires |w| >= 2 && listsize > 0
  {
    Run(w, listsize, 2 * |w| - 2).c1[listsize - 1]
  }

  lemma LengthsOfLastChain(lengths: seq<nat>, leaves: seq<Leaf>, w: seq<int>, max: nat, frequencies: seq<nat>)
    requires LeavesOk(w) && w == Weights(leaves) && |w| <= Pow2(max) && max > 0
    requires DistinctSymbols(Symbols(leaves)) && forall i :: 0 <= i < |leaves| ==> leaves[i].index < |lengths|
    requires |frequencies| == |lengths| && LeavesOf(w, Symbols(leaves), frequencies)
    requires AssignsLengths(lengths, Symbols(leaves), LastChain(w, max))
    ensures Complete(lengths, max) && Optimal(lengths, frequencies, max)
    ensures forall s :: 0 <= s < |lengths| ==> (lengths[s] > 0 <==> s in Symbols(leaves))
    ensures forall i, j :: 0 <= i <= j < |leaves| ==> lengths[leaves[j].index] <= lengths[leaves[i].index]
  {
    hide Run, Complete, Optimal, Describes, NonIncreasing, Pow2, Available, LeafLength, LeavesOf, AssignsLengths,
        ChainCost;
    var ch := LastChain(w, max);
    RunDescribes(w, max);
    FinalChain(ch, |w|, max);
    ChainGivesCompleteCode(lengths, Symbols(leaves), ch, max);
    AvailableForRun(|w|, max);
    RunIsOptimal(w, max);
    ChainGivesOptimalCode(frequencies, lengths, w, Symbols(leaves), ch, max);
    LengthsFall(lengths, leaves, ch);
  }

  lemma LengthsFall(lengths: seq<nat>, leaves: seq<Leaf>, ch: Chain)
    requires AssignsLengths(lengths, Symbols(leaves), ch)
    requires forall i :: 0 <= i < |leaves| ==> leaves[i].index < |lengths|
    ensures forall i, j :: 0 <= i <= j < |leaves| ==> lengths[leaves[j].index] <= lengths[leaves[i].index]
  {
    forall i, j | 0 <= i <= j < |leaves| ensures lengths[leaves[j].index] <= lengths[leaves[i].index] {
      LeafLengthFalls(ch, i, j);
      assert Symbols(leaves)[i] == leaves[i].index && Symbols(leaves)[j] == leaves[j].index;
    }
  }

  /** Two codes of one bit each. */
  lemma TwoSymbolCode(lengths: seq<nat>, a: nat, b: nat, max: nat)
    requires a < |lengths| && b < |lengths| && a != b && max > 0
    requires forall s :: 0 <= s < |lengths| ==> lengths[s] == if s == a || s == b then 1 else 0
    ensures Complete(lengths, max)
  {
    var zeros := seq(|lengths|, _ => 0);
    KraftOfZeros(zeros, |zeros|, max);
    KraftUpdate(zeros, |zeros|, max, a, 1);
    KraftUpdate(zeros[a := 1], |zeros|, max, b, 1);
    assert lengths == zeros[a := 1][b := 1];
  }

  lemma HasLeaf(leaves: seq<Leaf>, leaf: Leaf)
    requires leaf in leaves
    ensures leaf.index in Symbols(leaves)
  {
    var i :| 0 <= i < |leaves| && leaves[i] == leaf;
    assert Symbols(leaves)[i] == leaf.index;
  }

  /** A symbol that occurs more often never has the longer code. */
  ghost predicate MonotoneLengths(frequencies: seq<nat>, lengths: seq<nat>)
    requires |lengths| == |frequencies|
  {
    forall s: nat, t: nat ::
      Present(frequencies, s) && Present(frequencies, t) && frequencies[s] < frequencies[t] ==> lengths[t] <= lengths[s]
  }

  lemma SortedOrder(leaves: seq<Leaf>, i: nat, j: nat)
    requires Sorted(leaves) && i < |leaves| && j < |leaves|
    ensures leaves[i].weight < leaves[j].weight ==> i < j
  {
  }

  lemma HeavierIsShorter(frequencies: seq<nat>, leaves: seq<Leaf>, lengths: seq<nat>)
    requires |lengths| == |frequencies| && Sorted(leaves)
    requires IsLeaves(leaves, frequencies)
    requires forall i :: 0 <= i < |leaves| ==> leaves[i].index < |lengths|
    requires forall i, j :: 0 <= i <= j < |leaves| ==> lengths[leaves[j].index] <= lengths[leaves[i].index]
    ensures MonotoneLengths(frequencies, lengths)
  {
    forall s: nat, t: nat | Present(frequencies, s) && Present(frequencies, t) && frequencies[s] < frequencies[t]
      ensures lengths[t] <= lengths[s]
    {
      assert Leaf(frequencies[s], s) in leaves && Leaf(frequencies[t], t) in leaves;
      var i :| 0 <= i < |leaves| && leaves[i] == Leaf(frequencies[s], s);
      var j :| 0 <= j < |leaves| && leaves[j] == Leaf(frequencies[t], t);
      SortedOrder(leaves, i, j);
    }
  }

  // ----- all cases

  ghost predicate IsLeaves(leaves: seq<Leaf>, frequencies: seq<nat>) {
    forall x :: x in leaves <==> x.index < |frequencies| && x.weight == frequencies[x.index] > 0
  }

  ghost predicate OnlySymbol(frequencies: seq<nat>, a: nat) {
    Present(frequencies, a) && forall s: nat :: Present(frequencies, s) ==> s == a
  }

  /** Symbol `a` and another one have one bit each. */
  ghost function TwoOnes(n: nat, a: nat): seq<nat> {
    seq(n, s => if s == a || s == (if a == 0 then 1 else 0) then 1 else 0)
  }

  /** With two or more symbols that occur, only these have codes. */
  ghost predicate OnlyPresentCoded(lengths: seq<nat>, frequencies: seq<nat>) {
    forall s: nat, t: nat :: Present(frequencies, s) && Present(frequencies, t) && s != t ==>
      forall r :: 0 <= r < |lengths| && lengths[r] > 0 ==> Present(frequencies, r)
  }

  /** Complete, cheapest within the limit, a code for every symbol that occurs,
      and always at least two codes. */
  ghost predicate MadeFor(lengths: seq<nat>, frequencies: seq<nat>, max: nat) {
    && |lengths| == |frequencies| && Complete(lengths, max) && Optimal(lengths, frequencies, max)
    && (forall s: nat :: Present(frequencies, s) ==> lengths[s] > 0)
    && MonotoneLengths(frequencies, lengths) && OnlyPresentCoded(lengths, frequencies)
    && ((forall s: nat :: !Present(frequencies, s)) ==> lengths == TwoOnes(|lengths|, 0))
    && (forall a: nat :: OnlySymbol(frequencies, a) ==> lengths == TwoOnes(|lengths|, a))
  }

  lemma FewLeaves(frequencies: seq<nat>, leaves: seq<Leaf>, lengths: seq<nat>, max: nat)
    requires IsLeaves(leaves, frequencies) && |leaves| <= 1 && max > 0 && |lengths| == |frequencies| >= 2
    requires lengths == TwoOnes(|lengths|, if |leaves| == 0 then 0 else leaves[0].index)
    ensures MadeFor(lengths, frequencies, max)
  {
    hide Complete, Optimal;
    var a := if |leaves| == 0 then 0 else leaves[0].index;
    assert |leaves| == 1 ==> leaves[0] in leaves;
    forall s: nat | Present(frequencies, s) ensures |leaves| == 1 && s == a {
      assert Leaf(frequencies[s], s) in leaves;
    }
    assert |leaves| == 1 ==> Present(frequencies, a);
    TwoSymbolCode(lengths, a, if a == 0 then 1 else 0, max);
    assert forall s :: 0 <= s < |frequencies| && frequencies[s] > 0 ==> Present(frequencies, s);
    OneBitIsOptimal(frequencies, lengths, max);
  }

  lemma LeavesOfFrequencies(frequencies: seq<nat>, leaves: seq<Leaf>)
    requires IsLeaves(leaves, frequencies) && DistinctSymbols(Symbols(leaves))
    ensures LeavesOf(Weights(leaves), Symbols(leaves), frequencies)
    ensures forall s: nat :: Present(frequencies, s) <==> s in Symbols(leaves)
  {
    var sym := Symbols(leaves);
    forall i | 0 <= i < |sym| ensures sym[i] < |frequencies| && Weights(leaves)[i] == frequencies[sym[i]] > 0 {
      assert leaves[i] in leaves;
    }
    forall s: nat | Present(frequencies, s) ensures s in sym { HasLeaf(leaves, Leaf(frequencies[s], s)); }
    forall s: nat | s < |frequencies| && s !in sym ensures frequencies[s] == 0 {
      assert !Present(frequencies, s);
    }
  }

  lemma ManyLeaves(frequencies: seq<nat>, leaves: seq<Leaf>, lengths: seq<nat>, max: nat)
    requires IsLeaves(leaves, frequencies) && Sorted(leaves) && DistinctSymbols(Symbols(leaves)) && |leaves| >= 2
    requires |lengths| == |frequencies| && Complete(lengths, max) && Optimal(lengths, frequencies, max)
    requires forall s :: 0 <= s < |lengths| ==> (lengths[s] > 0 <==> s in Symbols(leaves))
    requires forall i :: 0 <= i < |leaves| ==> leaves[i].index < |lengths|
    requires forall i, j :: 0 <= i <= j < |leaves| ==> lengths[leaves[j].index] <= lengths[leaves[i].index]
    ensures MadeFor(lengths, frequencies, max)
  {
    hide Complete, Optimal;
    LeavesOfFrequencies(frequencies, leaves);
    HeavierIsShorter(frequencies, leaves, lengths);
    assert Symbols(leaves)[0] in Symbols(leaves) && Symbols(leaves)[1] in Symbols(leaves);
    assert Present(frequencies, Symbols(leaves)[0]) && Present(frequencies, Symbols(leaves)[1]);
  }

  /** Code lengths of at most `maxbitlen` that form a complete code in which
      every symbol that occurs has a code, the cheapest there is. */
  method HuffmanCodeLengths(frequencies: seq<nat>, maxbitlen: nat) returns (error: nat, lengths: array<nat>)
    requires maxbitlen < 32 && |frequencies| != 1
    ensures fresh(lengths) && lengths.Length == |frequencies|
    ensures error == if |frequencies| == 0 || Pow2(maxbitlen) < |frequencies| then 80 else 0
    ensures error == 0 ==> MadeFor(lengths[..], frequencies, maxbitlen)
  {
    hide Complete, KraftSum, Optimal, LeavesOf, MadeFor, DistinctSymbols, Sorted;
    var numcodes := |frequencies|;
    lengths := new nat[numcodes](_ => 0);
    if numcodes == 0 || Pow2(maxbitlen) < numcodes { return 80, lengths; }
    error := 0;
    assert maxbitlen > 0;
    var leaves := PresentLeaves(frequencies);
    assert |leaves| > 0 ==> leaves[0] in leaves;
    if |leaves| == 0 {
      lengths[0], lengths[1] := 1, 1;
      assert lengths[..] == TwoOnes(numcodes, 0);
      FewLeaves(frequencies, leaves, lengths[..], maxbitlen);
    } else if |leaves| == 1 {
      lengths[leaves[0].index] := 1;
      lengths[if leaves[0].index == 0 then 1 else 0] := 1;
      assert lengths[..] == TwoOnes(numcodes, leaves[0].index);
      FewLeaves(frequencies, leaves, lengths[..], maxbitlen);
    } else {
      leaves := SortLeaves(leaves);
      assert forall i :: 0 <= i < |leaves| ==> leaves[i] in leaves;
      SortedAreDistinct(leaves, frequencies);
      LeavesOfFrequencies(frequencies, leaves);
      MergePackages(leaves, maxbitlen, lengths, frequencies);
      ManyLeaves(frequencies, leaves, lengths[..], maxbitlen);
    }
  }

  lemma SortedAreDistinct(leaves: seq<Leaf>, frequencies: seq<nat>)
    requires IsLeaves(leaves, frequencies) && Sorted(leaves)
    ensures DistinctSymbols(Symbols(leaves))
  {
    forall i, j | 0 <= i < j < |leaves| ensures leaves[i].index != leaves[j].index {
      assert leaves[i] in leaves && leaves[j] in leaves && Before(leaves[i], leaves[j]);
    }
  }
}
