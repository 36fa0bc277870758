/** The node pool of the package-merge algorithm, with its own garbage collector. */
module NodePool {
  import opened Chains

  datatype Pointer = Null | To(addr: nat)

  datatype BPMNode = BPMNode(weight: int, index: nat, tail: Pointer)

  /** From `p` a list of at most `max` nodes can be followed. */
  ghost predicate IsChain(mem: seq<BPMNode>, p: Pointer, max: nat)
    decreases max
  {
    p.Null? || (p.addr < |mem| && max > 0 && IsChain(mem, mem[p.addr].tail, max - 1))
  }

  ghost function View(mem: seq<BPMNode>, p: Pointer, max: nat): (ch: Chain)
    requires IsChain(mem, p, max)
    ensures |ch| <= max && (p.To? ==> ch != [])
    decreases max
  {
    if p.Null? then []
    else
      var node := mem[p.addr];
      [Item(node.weight, node.index)] + View(mem, node.tail, max - 1)
  }

  ghost function Reach(mem: seq<BPMNode>, p: Pointer, max: nat): set<nat>
    requires IsChain(mem, p, max)
    decreases max
  {
    if p.Null? then {} else {p.addr} + Reach(mem, mem[p.addr].tail, max - 1)
  }

  lemma {:induction false} ReachFrame(mem: seq<BPMNode>, mem': seq<BPMNode>, p: Pointer, max: nat)
    requires IsChain(mem, p, max) && |mem'| == |mem|
    requires forall a :: a in Reach(mem, p, max) && a < |mem| ==> mem'[a] == mem[a]
    ensures IsChain(mem', p, max) && View(mem', p, max) == View(mem, p, max)
    ensures Reach(mem', p, max) == Reach(mem, p, max)
    decreases max
  {
    if p.To? {
      assert p.addr in Reach(mem, p, max);
      ReachFrame(mem, mem', mem[p.addr].tail, max - 1);
    }
  }

  lemma {:induction false} ReachSize(mem: seq<BPMNode>, p: Pointer, max: nat)
    requires IsChain(mem, p, max)
    ensures |Reach(mem, p, max)| <= max && forall a :: a in Reach(mem, p, max) ==> a < |mem|
    decreases max
  {
    if p.To? { ReachSize(mem, mem[p.addr].tail, max - 1); }
  }

  lemma {:induction false} LongerBound(mem: seq<BPMNode>, p: Pointer, max: nat, max': nat)
    requires IsChain(mem, p, max) && max <= max'
    ensures IsChain(mem, p, max') && View(mem, p, max') == View(mem, p, max)
    ensures Reach(mem, p, max') == Reach(mem, p, max)
    decreases max
  {
    if p.To? { LongerBound(mem, mem[p.addr].tail, max - 1, max' - 1); }
  }

  /** The chains of list `c` have at most `c + 1` nodes. */
  ghost predicate AllChains(mem: seq<BPMNode>, c0: seq<nat>, c1: seq<nat>) {
    && |c0| == |c1|
    && forall c :: 0 <= c < |c0| ==> IsChain(mem, To(c0[c]), c + 1) && IsChain(mem, To(c1[c]), c + 1)
  }

  ghost function Abs(mem: seq<BPMNode>, c0: seq<nat>, c1: seq<nat>): (ls: Lists)
    requires AllChains(mem, c0, c1)
    ensures Shaped(ls, |c0|)
  {
    Lists(seq(|c0|, c requires 0 <= c < |c0| => View(mem, To(c0[c]), c + 1)),
          seq(|c1|, c requires 0 <= c < |c1| => View(mem, To(c1[c]), c + 1)))
  }

  /** The nodes that the chains of the first `n` lists use. */
  ghost function Live(mem: seq<BPMNode>, c0: seq<nat>, c1: seq<nat>, n: nat): set<nat>
    requires AllChains(mem, c0, c1) && n <= |c0|
  {
    if n == 0 then {}
    else Live(mem, c0, c1, n - 1) + Reach(mem, To(c0[n - 1]), n) + Reach(mem, To(c1[n - 1]), n)
  }

  lemma UnionSize(a: set<nat>, b: set<nat>, c: set<nat>)
    ensures |a + b + c| <= |a| + |b| + |c|
  {
  }

  lemma Oblong(n: nat)
    ensures n > 0 ==> (n - 1) * n + 2 * n == n * (n + 1)
    ensures 2 * n * (n + 1) == 2 * (n * (n + 1))
  {
  }

  lemma {:induction false} LiveSize(mem: seq<BPMNode>, c0: seq<nat>, c1: seq<nat>, n: nat)
    requires AllChains(mem, c0, c1) && n <= |c0|
    ensures |Live(mem, c0, c1, n)| <= n * (n + 1)
    ensures forall a :: a in Live(mem, c0, c1, n) ==> a < |mem|
  {
    if n > 0 {
      LiveSize(mem, c0, c1, n - 1);
      ReachSize(mem, To(c0[n - 1]), n);
      ReachSize(mem, To(c1[n - 1]), n);
      UnionSize(Live(mem, c0, c1, n - 1), Reach(mem, To(c0[n - 1]), n), Reach(mem, To(c1[n - 1]), n));
      Oblong(n);
    }
  }

  lemma {:induction false} LiveHolds(mem: seq<BPMNode>, c0: seq<nat>, c1: seq<nat>, n: nat, c: nat)
    requires AllChains(mem, c0, c1) && c < n <= |c0|
    ensures Reach(mem, To(c0[c]), c + 1) <= Live(mem, c0, c1, n)
    ensures Reach(mem, To(c1[c]), c + 1) <= Live(mem, c0, c1, n)
  {
    if c < n - 1 { LiveHolds(mem, c0, c1, n - 1, c); }
  }

  /** Live nodes come from some chain. */
  lemma {:induction false} LiveWithin(mem: seq<BPMNode>, c0: seq<nat>, c1: seq<nat>, n: nat, s: set<nat>)
    requires AllChains(mem, c0, c1) && n <= |c0|
    requires forall c :: 0 <= c < n ==> Reach(mem, To(c0[c]), c + 1) <= s && Reach(mem, To(c1[c]), c + 1) <= s
    ensures Live(mem, c0, c1, n) <= s
  {
    if n > 0 { LiveWithin(mem, c0, c1, n - 1, s); }
  }

  /** Writing a node that is not live disturbs no chain. */
  lemma WriteUnused(mem: seq<BPMNode>, c0: seq<nat>, c1: seq<nat>, r: nat, node: BPMNode)
    requires AllChains(mem, c0, c1) && r < |mem| && r !in Live(mem, c0, c1, |c0|)
    ensures AllChains(mem[r := node], c0, c1)
    ensures Abs(mem[r := node], c0, c1) == Abs(mem, c0, c1)
    ensures Live(mem[r := node], c0, c1, |c0|) <= Live(mem, c0, c1, |c0|)
  {
    var mem' := mem[r := node];
    forall c | 0 <= c < |c0|
      ensures IsChain(mem', To(c0[c]), c + 1) && IsChain(mem', To(c1[c]), c + 1)
      ensures View(mem', To(c0[c]), c + 1) == View(mem, To(c0[c]), c + 1)
      ensures View(mem', To(c1[c]), c + 1) == View(mem, To(c1[c]), c + 1)
      ensures Reach(mem', To(c0[c]), c + 1) <= Live(mem, c0, c1, |c0|)
      ensures Reach(mem', To(c1[c]), c + 1) <= Live(mem, c0, c1, |c0|)
    {
      LiveHolds(mem, c0, c1, |c0|, c);
      ReachFrame(mem, mem', To(c0[c]), c + 1);
      ReachFrame(mem, mem', To(c1[c]), c + 1);
    }
    LiveWithin(mem', c0, c1, |c0|, Live(mem, c0, c1, |c0|));
  }

  /** Retargeting the two chains of list `c` to live or given nodes. */
  lemma Retarget(mem: seq<BPMNode>, c0: seq<nat>, c1: seq<nat>, c: nat, p0: nat, p1: nat, extra: set<nat>)
    requires AllChains(mem, c0, c1) && c < |c0|
    requires IsChain(mem, To(p0), c + 1) && IsChain(mem, To(p1), c + 1)
    requires Reach(mem, To(p0), c + 1) <= Live(mem, c0, c1, |c0|) + extra
    requires Reach(mem, To(p1), c + 1) <= Live(mem, c0, c1, |c0|) + extra
    ensures var c0', c1' := c0[c := p0], c1[c := p1];
            && AllChains(mem, c0', c1')
            && Abs(mem, c0', c1') == Lists(Abs(mem, c0, c1).c0[c := View(mem, To(p0), c + 1)],
                                           Abs(mem, c0, c1).c1[c := View(mem, To(p1), c + 1)])
            && Live(mem, c0', c1', |c0|) <= Live(mem, c0, c1, |c0|) + extra
  {
    var c0', c1' := c0[c := p0], c1[c := p1];
    forall j | 0 <= j < |c0|
      ensures Reach(mem, To(c0'[j]), j + 1) <= Live(mem, c0, c1, |c0|) + extra
      ensures Reach(mem, To(c1'[j]), j + 1) <= Live(mem, c0, c1, |c0|) + extra
    {
      LiveHolds(mem, c0, c1, |c0|, j);
    }
    LiveWithin(mem, c0', c1', |c0|, Live(mem, c0, c1, |c0|) + extra);
  }

  /** List `c` lets go of its older chain: `tail` stays live. */
  lemma BeforeCreate(mem: seq<BPMNode>, c0: seq<nat>, c1: seq<nat>, c: nat, tail: Pointer)
    requires AllChains(mem, c0, c1) && c < |c0| && IsChain(mem, tail, c)
    requires Reach(mem, tail, c) <= Reach(mem, To(c1[c]), c + 1) || (c > 0 && tail == To(c1[c - 1]))
    ensures var c0' := c0[c := c1[c]];
            && AllChains(mem, c0', c1)
            && Abs(mem, c0', c1) == Abs(mem, c0, c1).(c0 := Abs(mem, c0, c1).c0[c := Abs(mem, c0, c1).c1[c]])
            && Live(mem, c0', c1, |c0|) <= Live(mem, c0, c1, |c0|)
            && Reach(mem, tail, c) <= Live(mem, c0', c1, |c0|)
  {
    LiveHolds(mem, c0, c1, |c0|, c);
    Retarget(mem, c0, c1, c, c1[c], c1[c], {});
    assert c1[c := c1[c]] == c1;
    var ls := Abs(mem, c0, c1);
    assert ls.c1[c := ls.c1[c]] == ls.c1;
    LiveHolds(mem, c0[c := c1[c]], c1, |c0|, c);
    if c > 0 { LiveHolds(mem, c0[c := c1[c]], c1, |c0|, c - 1); }
  }

  /** A new node in front of a live tail becomes the newest chain of list `c`. */
  lemma AfterCreate(mem: seq<BPMNode>, c0: seq<nat>, c1: seq<nat>, c: nat, r: nat, node: BPMNode)
    requires AllChains(mem, c0, c1) && c < |c0| && IsChain(mem, node.tail, c)
    requires Reach(mem, node.tail, c) <= Live(mem, c0, c1, |c0|)
    requires r < |mem| && r !in Live(mem, c0, c1, |c0|)
    ensures var mem', c1' := mem[r := node], c1[c := r];
            && AllChains(mem', c0, c1')
            && Abs(mem', c0, c1')
                == Abs(mem, c0, c1).(c1 := Abs(mem, c0,
                    c1).c1[c := [Item(node.weight, node.index)] + View(mem, node.tail, c)])
            && Live(mem', c0, c1', |c0|) <= Live(mem, c0, c1, |c0|) + {r}
  {
    var mem' := mem[r := node];
    WriteUnused(mem, c0, c1, r, node);
    ReachFrame(mem, mem', node.tail, c);
    LiveHolds(mem, c0, c1, |c0|, c);
    LiveHolds(mem', c0, c1, |c0|, c);
    ReachFrame(mem, mem', To(c0[c]), c + 1);
    assert Reach(mem', To(r), c + 1) <= Live(mem, c0, c1, |c0|) + {r};
    RetargetNewest(mem, mem', c0, c1, c, r);
  }

  lemma RetargetNewest(mem: seq<BPMNode>, mem': seq<BPMNode>, c0: seq<nat>, c1: seq<nat>, c: nat, r: nat)
    requires AllChains(mem, c0, c1) && AllChains(mem', c0, c1) && c < |c0|
    requires Live(mem', c0, c1, |c0|) <= Live(mem, c0, c1, |c0|)
    requires IsChain(mem', To(r), c + 1)
    requires Reach(mem', To(r), c + 1) <= Live(mem, c0, c1, |c0|) + {r}
    ensures var c1' := c1[c := r];
            && AllChains(mem', c0, c1')
            && Abs(mem', c0, c1') == Abs(mem', c0, c1).(c1 := Abs(mem', c0, c1).c1[c := View(mem', To(r), c + 1)])
            && Live(mem', c0, c1', |c0|) <= Live(mem, c0, c1, |c0|) + {r}
  {
    var all := Live(mem, c0, c1, |c0|) + {r};
    LiveHolds(mem', c0, c1, |c0|, c);
    Retarget(mem', c0, c1, c, c0[c], r, all);
    assert c0[c := c0[c]] == c0;
    var ls := Abs(mem', c0, c1);
    assert ls.c0[c := ls.c0[c]] == ls.c0;
  }

  lemma HeadItem(mem: seq<BPMNode>, c0: seq<nat>, c1: seq<nat>, c: nat)
    requires AllChains(mem, c0, c1) && c < |c0|
    ensures var node := mem[c1[c]];
            && IsChain(mem, node.tail, c)
            && Abs(mem, c0, c1).c1[c] == [Item(node.weight, node.index)] + View(mem, node.tail, c)
    ensures Abs(mem, c0, c1).c0[c][0].weight == mem[c0[c]].weight
    ensures Reach(mem, mem[c1[c]].tail, c) <= Reach(mem, To(c1[c]), c + 1)
  {
  }

  ghost function Below(live: set<nat>, i: nat): set<nat> {
    set a | a in live && a < i
  }

  lemma BelowStep(live: set<nat>, i: nat)
    ensures |Below(live, i + 1)| == |Below(live, i)| + if i in live then 1 else 0
  {
    assert Below(live, i + 1) == Below(live, i) + if i in live then {i} else {};
  }

  /** The chains that every list starts with use two nodes. */
  lemma {:induction false} InitialLive(mem: seq<BPMNode>, c0: seq<nat>, c1: seq<nat>, n: nat)
    requires AllChains(mem, c0, c1) && n <= |c0|
    requires |mem| >= 2 && mem[0].tail == Null && mem[1].tail == Null
    requires forall c :: 0 <= c < |c0| ==> c0[c] == 0 && c1[c] == 1
    ensures Live(mem, c0, c1, n) <= {0, 1}
  {
    if n > 0 {
      InitialLive(mem, c0, c1, n - 1);
      assert Reach(mem, To(0), n) == {0} + Reach(mem, Null, n - 1);
      assert Reach(mem, To(1), n) == {1} + Reach(mem, Null, n - 1);
    }
  }

  lemma SingleNode(mem: seq<BPMNode>, a: nat, max: nat)
    requires a < |mem| && mem[a].tail == Null && max > 0
    ensures IsChain(mem, To(a), max) && View(mem, To(a), max) == [Item(mem[a].weight, mem[a].index)]
  {
    assert View(mem, Null, max - 1) == [];
  }

  lemma InitialChains(mem: seq<BPMNode>, c0: seq<nat>, c1: seq<nat>, w: seq<int>)
    requires |mem| >= 2 && |w| >= 2 && |c0| == |c1|
    requires mem[0] == BPMNode(w[0], 1, Null) && mem[1] == BPMNode(w[1], 2, Null)
    requires forall c :: 0 <= c < |c0| ==> c0[c] == 0 && c1[c] == 1
    ensures AllChains(mem, c0, c1) && Abs(mem, c0, c1) == Initial(w, |c0|)
  {
    hide IsChain, View;
    forall c | 0 <= c < |c0|
      ensures IsChain(mem, To(c0[c]), c + 1) && View(mem, To(c0[c]), c + 1) == [Item(w[0], 1)]
      ensures IsChain(mem, To(c1[c]), c + 1) && View(mem, To(c1[c]), c + 1) == [Item(w[1], 2)]
    {
      SingleNode(mem, 0, c + 1);
      SingleNode(mem, 1, c + 1);
    }
    assert Abs(mem, c0, c1).c0 == Initial(w, |c0|).c0;
    assert Abs(mem, c0, c1).c1 == Initial(w, |c0|).c1;
  }

  /** `memsize`: twice as many nodes as all chains can have. */
  function PoolSize(listsize: nat): nat {
    2 * listsize * (listsize + 1)
  }

  lemma PoolHoldsTwo(listsize: nat)
    requires listsize > 0
    ensures PoolSize(listsize) >= 2
  {
    assert listsize * (listsize + 1) >= listsize;
  }

  class BPMLists {
    const listsize: nat
    // memory pool
    const memory: array<BPMNode>
    const inUse: array<bool>
    const freelist: array<nat>
    var numfree: nat
    var nextfree: nat
    // two heads of lookahead chains per list
    const chains0: array<nat>
    const chains1: array<nat>

    ghost predicate Shape()
      reads this, chains0, chains1, memory
    {
      && listsize > 0
      && chains0.Length == chains1.Length == listsize
      && memory.Length == inUse.Length == freelist.Length == PoolSize(listsize)
      && chains0 != chains1 && freelist != chains0 && freelist != chains1
      && AllChains(memory[..], chains0[..], chains1[..])
    }

    ghost function LiveNodes(): set<nat>
      requires Shape()
      reads this, chains0, chains1, memory
    {
      Live(memory[..], chains0[..], chains1[..], listsize)
    }

    /** The nodes still to be handed out are unused and all different. */
    ghost predicate FreeOk(used: set<nat>)
      reads this, freelist
    {
      && numfree <= freelist.Length
      && (forall i :: nextfree <= i < numfree ==> freelist[i] < freelist.Length && freelist[i] !in used)
      && (forall i, j :: nextfree <= i < j < numfree ==> freelist[i] != freelist[j])
    }

    ghost predicate Valid()
      reads this, chains0, chains1, memory, freelist
    {
      Shape() && FreeOk(LiveNodes())
    }

    ghost function Contents(): Lists
      requires Shape()
      reads this, chains0, chains1, memory
    {
      Abs(memory[..], chains0[..], chains1[..])
    }

    /** The pool with the two chains that every list starts with, one leaf each. */
    constructor (listsize: nat, w: seq<int>)
      requires listsize > 0 && |w| >= 2
      ensures Valid() && fresh(memory) && fresh(inUse) && fresh(freelist) && fresh(chains0) && fresh(chains1)
      ensures this.listsize == listsize && Contents() == Initial(w, listsize)
    {
      hide PoolSize;
      PoolHoldsTwo(listsize);
      this.listsize := listsize;
      var memsize := PoolSize(listsize);
      memory := new BPMNode[memsize](i => BPMNode(if i == 0 then w[0] else w[1], if i == 0 then 1 else 2, Null));
      inUse := new bool[memsize](_ => false);
      freelist := new nat[memsize](i => i);
      chains0 := new nat[listsize](_ => 0);
      chains1 := new nat[listsize](_ => 1);
      numfree, nextfree := memsize, 2;
      new;
      hide Live, Abs, AllChains;
      InitialChains(memory[..], chains0[..], chains1[..], w);
      InitialLive(memory[..], chains0[..], chains1[..], listsize);
    }

    /** Marks the nodes of one chain. */
    method MarkChain(p: nat, max: nat)
      requires Shape() && IsChain(memory[..], To(p), max)
      modifies inUse
      ensures forall a :: 0 <= a < inUse.Length ==> inUse[a] == (old(inUse[a]) || a in Reach(memory[..], To(p), max))
    {
      var node := To(p);
      ghost var rest := max;
      ReachSize(memory[..], node, max);
      while node.To?
        invariant IsChain(memory[..], node, rest)
        invariant forall a :: 0 <= a < inUse.Length ==>
                    (inUse[a] || a in Reach(memory[..], node, rest)) ==
                    (old(inUse[a]) || a in Reach(memory[..], To(p), max))
        decreases rest
      {
        inUse[node.addr] := true;
        node := memory[node.addr].tail;
        rest := rest - 1;
      }
    }

    method MarkLive()
      requires Shape()
      modifies inUse
      ensures forall a :: 0 <= a < inUse.Length ==> inUse[a] == (a in LiveNodes())
    {
      for i := 0 to inUse.Length
        invariant forall a :: 0 <= a < i ==> !inUse[a]
      {
        inUse[i] := false;
      }
      for i := 0 to listsize
        invariant forall a :: 0 <= a < inUse.Length ==>
                    inUse[a] == (a in Live(memory[..], chains0[..], chains1[..], i))
      {
        MarkChain(chains0[i], i + 1);
        MarkChain(chains1[i], i + 1);
      }
    }

    /** The collection in bpmnode_create: live nodes are kept and, since the
        pool is twice as large as all chains can be, some node is always free. */
    method Collect()
      requires Shape()
      modifies inUse, freelist, this`numfree, this`nextfree
      ensures Valid() && nextfree == 0 && numfree >= listsize * (listsize + 1)
    {
      MarkLive();
      ghost var live := LiveNodes();
      GatherFree(live);
      LiveSize(memory[..], chains0[..], chains1[..], listsize);
      assert Below(live, memory.Length) == live;
      Oblong(listsize);
    }

    method GatherFree(ghost live: set<nat>)
      requires inUse.Length == freelist.Length
      requires forall a :: 0 <= a < inUse.Length ==> inUse[a] == (a in live)
      modifies freelist, this`numfree, this`nextfree
      ensures FreeOk(live) && nextfree == 0
      ensures numfree + |Below(live, inUse.Length)| == inUse.Length
    {
      numfree := 0;
      assert Below(live, 0) == {};
      for i := 0 to inUse.Length
        invariant numfree + |Below(live, i)| == i
        invariant forall k :: 0 <= k < numfree ==> freelist[k] < i && freelist[k] !in live
        invariant forall k, l :: 0 <= k < l < numfree ==> freelist[k] != freelist[l]
      {
        BelowStep(live, i);
        if !inUse[i] {
          freelist[numfree] := i;
          numfree := numfree + 1;
        }
      }
      nextfree := 0;
    }

    /** bpmnode_create: the node returned is in no chain, and collecting leaves
        every chain as it was. */
    method CreateNode(weight: int, index: nat, tail: Pointer) returns (result: nat)
      requires Valid()
      modifies memory, inUse, freelist, this`numfree, this`nextfree
      ensures Shape() && Contents() == old(Contents())
      ensures result < memory.Length && result !in old(LiveNodes())
      ensures memory[..] == old(memory[..])[result := BPMNode(weight, index, tail)]
      ensures FreeOk(old(LiveNodes()) + {result})
    {
      if nextfree >= numfree {
        Collect();
        Oblong(listsize);
        assert listsize * (listsize + 1) > 0;
      }
      result := freelist[nextfree];
      nextfree := nextfree + 1;
      WriteUnused(memory[..], chains0[..], chains1[..], result, BPMNode(weight, index, tail));
      memory[result] := BPMNode(weight, index, tail);
    }

    /** Moves list `c` on by one chain: the newest chain becomes the older of the
        two, and a new node in front of `tail` becomes the newest. */
    method Advance(c: nat, weight: int, index: nat, tail: Pointer)
      requires Valid() && c < listsize && IsChain(memory[..], tail, c)
      requires Reach(memory[..], tail, c) <= Reach(memory[..], To(chains1[c]), c + 1)
               || (c > 0 && tail == To(chains1[c - 1]))
      modifies memory, inUse, freelist, chains0, chains1, this`numfree, this`nextfree
      ensures Valid()
      ensures Contents() == Lists(old(Contents()).c0[c := old(Contents()).c1[c]],
                                  old(Contents()).c1[c := [Item(weight, index)] + old(View(memory[..], tail, c))])
    {
      ghost var mem, c0, c1 := memory[..], chains0[..], chains1[..];
      BeforeCreate(mem, c0, c1, c, tail);
      chains0[c] := chains1[c];
      ghost var c0' := c0[c := c1[c]];
      assert chains0[..] == c0';
      var r := CreateNode(weight, index, tail);
      AfterCreate(mem, c0', c1, c, r, BPMNode(weight, index, tail));
      chains1[c] := r;
      assert chains1[..] == c1[c := r];
    }

    method NewestIndex(c: nat) returns (index: nat)
      requires Valid() && c < listsize
      ensures index == Contents().c1[c][0].index
    {
      HeadItem(memory[..], chains0[..], chains1[..], c);
      index := memory[chains1[c]].index;
    }

    method LookaheadWeight(c: nat) returns (sum: int)
      requires Valid() && c < listsize
      ensures sum == PackageWeight(Contents(), c)
    {
      HeadItem(memory[..], chains0[..], chains1[..], c);
      sum := memory[chains0[c]].weight + memory[chains1[c]].weight;
    }

    method TakeLeaf(w: seq<int>, c: nat)
      requires Valid() && c < listsize && Contents().c1[c][0].index < |w|
      modifies memory, inUse, freelist, chains0, chains1, this`numfree, this`nextfree
      ensures Valid() && Contents() == LeafTaken(old(Contents()), w, c)
    {
      HeadItem(memory[..], chains0[..], chains1[..], c);
      var newest := memory[chains1[c]];
      ghost var rest := View(memory[..], newest.tail, c);
      assert Contents().c1[c][1..] == rest;
      Advance(c, w[newest.index], newest.index + 1, newest.tail);
    }

    method TakePackage(c: nat, sum: int)
      requires Valid() && 0 < c < listsize && sum == PackageWeight(Contents(), c - 1)
      modifies memory, inUse, freelist, chains0, chains1, this`numfree, this`nextfree
      ensures Valid() && Contents() == PackageTaken(old(Contents()), c)
    {
      HeadItem(memory[..], chains0[..], chains1[..], c);
      var lastindex := memory[chains1[c]].index;
      Advance(c, sum, lastindex, To(chains1[c - 1]));
    }
  }
}
