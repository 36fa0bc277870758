/** Positions in a circular window, linked into lists by a key: each position
    links to the last one before it that has the same key. */
module HashChains {
  import opened Bits

  // ----- the circular window

  /** The place of `pos` in the window: its remainder, which for a window size
      that is a power of two is `pos & (windowsize - 1)`. */
  function Circular(pos: nat, windowsize: nat): (w: nat)
    requires windowsize > 0
    ensures w < windowsize && w <= pos
  {
    if pos < windowsize then pos else Circular(pos - windowsize, windowsize)
  }

  /** Positions less than a window apart have different places. */
  lemma {:induction false} CircularDistinct(p: nat, q: nat, windowsize: nat)
    requires windowsize > 0 && p < q < p + windowsize
    ensures Circular(p, windowsize) != Circular(q, windowsize)
  {
    if p >= windowsize { CircularDistinct(p - windowsize, q - windowsize, windowsize); }
  }

  /** The distance from window place `h` to `pos`, as encodeLZ77 computes it. */
  function CurrentOffset(wpos: nat, h: nat, windowsize: nat): nat
    requires wpos < windowsize && h < windowsize
  {
    if h <= wpos then wpos - h else wpos - h + windowsize
  }

  /** A place that has been entered holds the position that lies that far back. */
  lemma {:induction false} OffsetIsDistance(pos: nat, h: nat, windowsize: nat)
    requires windowsize > 0 && h < windowsize && h <= pos
    ensures var off := CurrentOffset(Circular(pos, windowsize), h, windowsize);
            off < windowsize && off <= pos && Circular(pos - off, windowsize) == h
    decreases pos
  {
    if pos >= windowsize && h <= pos - windowsize { OffsetIsDistance(pos - windowsize, h, windowsize); }
  }

  /** And the other way round. */
  lemma DistanceIsOffset(pos: nat, q: nat, windowsize: nat)
    requires q <= pos < q + windowsize
    ensures CurrentOffset(Circular(pos, windowsize), Circular(q, windowsize), windowsize) == pos - q
  {
    var h := Circular(q, windowsize);
    OffsetIsDistance(pos, h, windowsize);
    var r: nat := pos - CurrentOffset(Circular(pos, windowsize), h, windowsize);
    hide Circular;
    if r < q { CircularDistinct(r, q, windowsize); } else if q < r { CircularDistinct(q, r, windowsize); }
  }

  /** windowsize & (windowsize - 1) is zero. */
  predicate PowerOfTwo(n: nat) {
    n == 1 || (n > 0 && n % 2 == 0 && PowerOfTwo(n / 2))
  }

  lemma {:induction false} PowersOfTwo(n: nat) returns (k: nat)
    requires PowerOfTwo(n)
    ensures n == Pow2(k)
  {
    if n == 1 {
      k := 0;
    } else {
      k := PowersOfTwo(n / 2);
      k := k + 1;
    }
  }

  /** These are the powers of two, and no other numbers. */
  lemma {:induction false} PowerIsPowerOfTwo(k: nat)
    ensures PowerOfTwo(Pow2(k))
  {
    if k > 0 { PowerIsPowerOfTwo(k - 1); }
  }

  /** `q` has not been overwritten when `n` positions have been entered. */
  predicate InWindow(q: nat, n: nat, windowsize: nat) {
    q < n <= q + windowsize
  }

  /** The values that were recorded for the positions in the window. */
  ghost predicate Records(vals: seq<int>, keys: seq<nat>, windowsize: nat)
    requires windowsize > 0
  {
    |vals| == windowsize && forall q: nat {:trigger keys[q]} :: InWindow(q, |keys|, windowsize) ==>
      vals[Circular(q, windowsize)] == keys[q]
  }

  lemma OneMoreRecord(vals: seq<int>, keys: seq<nat>, k: nat, windowsize: nat)
    requires windowsize > 0 && Records(vals, keys, windowsize)
    ensures Records(vals[Circular(|keys|, windowsize) := k], keys + [k], windowsize)
  {
    hide Circular;
    var keys' := keys + [k];
    var vals' := vals[Circular(|keys|, windowsize) := k];
    forall q: nat | InWindow(q, |keys'|, windowsize) ensures vals'[Circular(q, windowsize)] == keys'[q] {
      if q < |keys| {
        CircularDistinct(q, |keys|, windowsize);
        assert keys'[q] == keys[q];
      }
    }
  }

  lemma SameRecord(vals: seq<int>, keys: seq<nat>, windowsize: nat)
    requires windowsize > 0 && Records(vals, keys, windowsize) && keys != []
    ensures vals[Circular(|keys| - 1, windowsize) := keys[|keys| - 1]] == vals
  {
  }

  // ----- the lists

  /** The last position with key `k`, or -1. */
  function LastOf(keys: seq<nat>, k: nat): (q: int)
    ensures -1 <= q < |keys| && (q >= 0 ==> keys[q] == k)
    ensures forall r :: q < r < |keys| ==> keys[r] != k
  {
    if keys == [] then -1
    else if keys[|keys| - 1] == k then |keys| - 1
    else LastOf(keys[..|keys| - 1], k)
  }

  /** The last position before `q` that has its key, or -1. */
  function PrevOf(keys: seq<nat>, q: nat): (r: int)
    requires q < |keys|
    ensures -1 <= r < q && (r >= 0 ==> keys[r] == keys[q])
    ensures forall i :: r < i < q ==> keys[i] != keys[q]
  {
    LastOf(keys[..q], keys[q])
  }

  lemma LastOfSnoc(keys: seq<nat>, k: nat, h: nat)
    ensures LastOf(keys + [k], h) == if h == k then |keys| else LastOf(keys, h)
  {
    assert (keys + [k])[..|keys|] == keys;
  }

  lemma PrevOfSnoc(keys: seq<nat>, k: nat, q: nat)
    requires q <= |keys|
    ensures PrevOf(keys + [k], q) == if q < |keys| then PrevOf(keys, q) else LastOf(keys, k)
  {
    assert (keys + [k])[..q] == keys[..q];
    assert keys[..|keys|] == keys;
  }

  /** The head of list `h`: the place of its last position.  That of the newest
      position can be forgotten. */
  function HeadOf(keys: seq<nat>, h: nat, windowsize: nat, forgotten: bool): int
    requires windowsize > 0
  {
    var q := LastOf(keys, h);
    if q < 0 || (forgotten && q == |keys| - 1) then -1 else Circular(q, windowsize)
  }

  ghost predicate HeadsOk(head: seq<int>, keys: seq<nat>, windowsize: nat, forgotten: bool)
    requires windowsize > 0
  {
    forall h: nat {:trigger head[h]} :: h < |head| ==> head[h] == HeadOf(keys, h, windowsize, forgotten)
  }

  /** Every position in the window links to the one before it in its list, unless
      it is the first one ever; then its link is outdated. */
  ghost predicate LinksOk(chain: seq<nat>, keys: seq<nat>, windowsize: nat)
    requires windowsize > 0
  {
    |chain| == windowsize && forall q: nat {:trigger PrevOf(keys, q)} ::
      InWindow(q, |keys|, windowsize) && PrevOf(keys, q) >= 0 ==>
        chain[Circular(q, windowsize)] == Circular(PrevOf(keys, q), windowsize)
  }

  ghost predicate IsPlace(w: int, windowsize: nat, written: nat) {
    0 <= w < windowsize && w < written
  }

  /** Heads and links only name places that have been entered. */
  ghost predicate Linked(head: seq<int>, chain: seq<nat>, windowsize: nat, written: nat) {
    && |chain| == windowsize
    && (forall h :: 0 <= h < |head| ==> head[h] == -1 || IsPlace(head[h], windowsize, written))
    && (forall w :: 0 <= w < windowsize ==> chain[w] == w || IsPlace(chain[w], windowsize, written))
  }

  /** One array of heads with its links. */
  ghost predicate ListsOk(head: seq<int>, chain: seq<nat>, keys: seq<nat>, windowsize: nat, forgotten: bool) {
    && windowsize > 0 && Linked(head, chain, windowsize, |keys|)
    && HeadsOk(head, keys, windowsize, forgotten) && LinksOk(chain, keys, windowsize)
    && forall q :: 0 <= q < |keys| ==> keys[q] < |head|
  }

  lemma NothingListed(head: seq<int>, chain: seq<nat>, windowsize: nat)
    requires windowsize > 0 && |chain| == windowsize
    requires (forall h :: 0 <= h < |head| ==> head[h] == -1) && forall w :: 0 <= w < windowsize ==> chain[w] == w
    ensures ListsOk(head, chain, [], windowsize, false)
  {
  }

  /** The place `wpos` has become the head of list `k` and links to the head before. */
  ghost predicate IsEntered(head0: seq<int>, chain0: seq<nat>, head: seq<int>, chain: seq<nat>, k: nat, wpos: nat) {
    && k < |head0| && wpos < |chain0| && head == head0[k := wpos]
    && chain == if head0[k] >= 0 then chain0[wpos := head0[k]] else chain0
  }

  /** Makes `wpos` the head of list `k`. */
  method Enter(head: array<int>, chain: array<nat>, k: nat, wpos: nat)
    requires k < head.Length && wpos < chain.Length && head[k] >= -1
    modifies head, chain
    ensures IsEntered(old(head[..]), old(chain[..]), head[..], chain[..], k, wpos)
  {
    if head[k] != -1 { chain[wpos] := head[k]; }
    head[k] := wpos;
  }

  lemma EnteredIsLinked(head0: seq<int>, chain0: seq<nat>, head: seq<int>, chain: seq<nat>, k: nat, wpos: nat,
                        windowsize: nat, written0: nat, written: nat)
    requires Linked(head0, chain0, windowsize, written0) && written0 <= written
    requires IsEntered(head0, chain0, head, chain, k, wpos) && wpos < written
    ensures Linked(head, chain, windowsize, written)
  {
  }

  /** A new position. */
  lemma EnteredNew(head0: seq<int>, chain0: seq<nat>, head: seq<int>, chain: seq<nat>, keys: seq<nat>, k: nat,
                   windowsize: nat)
    requires ListsOk(head0, chain0, keys, windowsize, false)
    requires IsEntered(head0, chain0, head, chain, k, Circular(|keys|, windowsize))
    ensures ListsOk(head, chain, keys + [k], windowsize, false)
  {
    hide Circular, LastOf, PrevOf;
    var keys', wpos := keys + [k], Circular(|keys|, windowsize);
    EnteredIsLinked(head0, chain0, head, chain, k, wpos, windowsize, |keys|, |keys'|);
    hide Linked;
    forall h: nat | h < |head| ensures head[h] == HeadOf(keys', h, windowsize, false) {
      assert head0[h] == HeadOf(keys, h, windowsize, false);
      LastOfSnoc(keys, k, h);
    }
    assert head0[k] == HeadOf(keys, k, windowsize, false);
    forall q: nat | InWindow(q, |keys'|, windowsize) && PrevOf(keys', q) >= 0
      ensures chain[Circular(q, windowsize)] == Circular(PrevOf(keys', q), windowsize)
    {
      PrevOfSnoc(keys, k, q);
      if q < |keys| { CircularDistinct(q, |keys|, windowsize); }
    }
  }

  /** The newest position once more, after it has been forgotten. */
  lemma EnteredAgain(head0: seq<int>, chain0: seq<nat>, head: seq<int>, chain: seq<nat>, keys: seq<nat>, k: nat,
                     windowsize: nat)
    requires ListsOk(head0, chain0, keys, windowsize, true) && keys != [] && k == keys[|keys| - 1]
    requires IsEntered(head0, chain0, head, chain, k, Circular(|keys| - 1, windowsize))
    ensures ListsOk(head, chain, keys, windowsize, false)
  {
    hide Circular, LastOf, PrevOf;
    EnteredIsLinked(head0, chain0, head, chain, k, Circular(|keys| - 1, windowsize), windowsize, |keys|, |keys|);
    LastIsNewest(keys);
    assert head0[k] == HeadOf(keys, k, windowsize, true);
    forall h: nat | h < |head| ensures head[h] == HeadOf(keys, h, windowsize, false) {
      assert head0[h] == HeadOf(keys, h, windowsize, true);
      if LastOf(keys, h) == |keys| - 1 { OthersAreOlder(keys, h); }
    }
  }

  lemma LastIsNewest(keys: seq<nat>)
    requires keys != []
    ensures LastOf(keys, keys[|keys| - 1]) == |keys| - 1
  {
  }

  lemma OthersAreOlder(keys: seq<nat>, h: nat)
    requires keys != [] && LastOf(keys, h) == |keys| - 1
    ensures h == keys[|keys| - 1]
  {
  }

  lemma Forgotten(head0: seq<int>, head: seq<int>, chain: seq<nat>, keys: seq<nat>, windowsize: nat)
    requires ListsOk(head0, chain, keys, windowsize, false) && keys != []
    requires head == head0[keys[|keys| - 1] := -1]
    ensures ListsOk(head, chain, keys, windowsize, true)
  {
    hide Circular, LastOf, PrevOf;
    LastIsNewest(keys);
    forall h: nat | h < |head| ensures head[h] == HeadOf(keys, h, windowsize, true) {
      assert head0[h] == HeadOf(keys, h, windowsize, false);
      if LastOf(keys, h) == |keys| - 1 { OthersAreOlder(keys, h); }
    }
  }

  /** The keys after one more has been entered, or the newest once more. */
  function KeysEntered(keys: seq<nat>, k: nat, forgotten: bool): seq<nat> {
    if forgotten then keys else keys + [k]
  }

  function PosEntered(keys: seq<nat>, forgotten: bool): nat {
    if forgotten && keys != [] then |keys| - 1 else |keys|
  }

  lemma ListEntered(head0: seq<int>, chain0: seq<nat>, head: seq<int>, chain: seq<nat>, keys: seq<nat>, k: nat,
                    windowsize: nat, forgotten: bool)
    requires ListsOk(head0, chain0, keys, windowsize, forgotten)
    requires forgotten ==> keys != [] && k == keys[|keys| - 1]
    requires IsEntered(head0, chain0, head, chain, k, Circular(PosEntered(keys, forgotten), windowsize))
    ensures ListsOk(head, chain, KeysEntered(keys, k, forgotten), windowsize, false)
  {
    hide ListsOk, IsEntered;
    if forgotten {
      EnteredAgain(head0, chain0, head, chain, keys, k, windowsize);
    } else {
      EnteredNew(head0, chain0, head, chain, keys, k, windowsize);
    }
  }

  lemma RecordEntered(vals: seq<int>, keys: seq<nat>, k: nat, windowsize: nat, forgotten: bool)
    requires windowsize > 0 && Records(vals, keys, windowsize)
    requires forgotten ==> keys != [] && k == keys[|keys| - 1]
    ensures |vals| == windowsize
    ensures Records(vals[Circular(PosEntered(keys, forgotten), windowsize) := k], KeysEntered(keys, k, forgotten),
                    windowsize)
  {
    hide Circular;
    if forgotten { SameRecord(vals, keys, windowsize); } else { OneMoreRecord(vals, keys, k, windowsize); }
  }

  /** From a position in the window the link leads to the next one in its list. */
  lemma FollowLink(head: seq<int>, chain: seq<nat>, keys: seq<nat>, windowsize: nat, forgotten: bool, q: nat)
    requires ListsOk(head, chain, keys, windowsize, forgotten) && InWindow(q, |keys|, windowsize)
    ensures var r := PrevOf(keys, q);
            r >= 0 ==>
              && chain[Circular(q, windowsize)] == Circular(r, windowsize)
              && (InWindow(r, |keys|, windowsize) ==> chain[Circular(q, windowsize)] != Circular(q, windowsize))
  {
    hide Circular, LastOf;
    var r := PrevOf(keys, q);
    hide PrevOf;
    if r >= 0 && InWindow(r, |keys|, windowsize) { CircularDistinct(r, q, windowsize); }
  }

  // ----- how many positions of a list lie between two of them

  /** The number of positions from `lo` to `hi` with key `k`. */
  function CountKey(keys: seq<nat>, k: nat, lo: nat, hi: nat): (n: nat)
    requires lo <= hi <= |keys|
    ensures n <= hi - lo
    decreases hi - lo
  {
    if lo == hi then 0 else CountKey(keys, k, lo + 1, hi) + if keys[lo] == k then 1 else 0
  }

  lemma {:induction false} CountKeyMonotone(keys: seq<nat>, k: nat, lo: nat, mid: nat, hi: nat)
    requires lo <= mid <= hi <= |keys|
    ensures CountKey(keys, k, lo, hi) >= CountKey(keys, k, mid, hi)
    ensures lo < mid && keys[mid - 1] == k ==> CountKey(keys, k, lo, hi) >= CountKey(keys, k, mid, hi) + 1
    decreases mid - lo
  {
    if lo < mid { CountKeyMonotone(keys, k, lo + 1, mid, hi); }
  }

  /** How many nearer positions of the same list there are between `q` and the newest. */
  function Rank(keys: seq<nat>, q: nat): (n: nat)
    requires q + 1 < |keys|
    ensures n <= |keys| - q - 2
  {
    CountKey(keys, keys[|keys| - 1], q + 1, |keys| - 1)
  }

  lemma RankGrows(keys: seq<nat>, r: nat, q: nat)
    requires r < q && q + 1 < |keys|
    ensures Rank(keys, r) >= Rank(keys, q)
    ensures keys[q] == keys[|keys| - 1] ==> Rank(keys, r) >= Rank(keys, q) + 1
  {
    CountKeyMonotone(keys, keys[|keys| - 1], r + 1, q + 1, |keys| - 1);
  }
}
