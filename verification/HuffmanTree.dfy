/** The decoder's flattened Huffman tree: building it, and decoding with it. */
module HuffmanTree {
  import opened Bits
  import opened HuffmanCodes
  import opened Wrappers

  /** Marks a slot of the tree that is not filled in yet. */
  const UNFILLED: nat := 32767

  /** Alphabets are far too small for a node address to collide with UNFILLED. */
  const MAX_NUMCODES: nat := 16000

  /** The variables of HuffmanTree_make2DTree.  Slots `2k` and `2k+1` of `tree`
      hold what node `k` leads to on bit 0 and 1: a symbol, or a node address
      plus the number of codes. */
  datatype Builder = Builder(tree: seq<nat>, filled: nat, pos: nat)

  /** 32-bit unsigned subtraction. */
  function Sub32(a: nat, b: nat): nat {
    (a - b) % 0x1_0000_0000
  }

  /** One pass through the inner loop: bit `x` of the code of `symbol`. */
  function StepBit(b: Builder, symbol: nat, x: bit, last: bool): (r: Result<Builder>)
    ensures r.Ok? ==> |r.value.tree| == |b.tree|
  {
    var numcodes := |b.tree| / 2;
    if b.pos > 2147483647 || b.pos + 2 > numcodes then Error(55)
    else
      var slot := 2 * b.pos + x;
      if b.tree[slot] == UNFILLED then
        if last then Ok(Builder(b.tree[slot := symbol], b.filled, 0))
        else Ok(Builder(b.tree[slot := b.filled + 1 + numcodes], b.filled + 1, b.filled + 1))
      else Ok(b.(pos := Sub32(b.tree[slot], numcodes)))
  }

  function InsertCode(b: Builder, symbol: nat, w: seq<bit>): (r: Result<Builder>)
    ensures r.Ok? ==> |r.value.tree| == |b.tree|
    decreases |w|
  {
    if w == [] then Ok(b)
    else
      var b' :- StepBit(b, symbol, w[0], |w| == 1);
      InsertCode(b', symbol, w[1..])
  }

  /** Inserts the code words of the symbols from `n` on. */
  function InsertFrom(b: Builder, words: seq<seq<bit>>, n: nat): (r: Result<Builder>)
    requires n <= |words|
    ensures r.Ok? ==> |r.value.tree| == |b.tree|
    decreases |words| - n
  {
    if n == |words| then Ok(b)
    else
      var b' :- InsertCode(b, n, words[n]);
      InsertFrom(b', words, n + 1)
  }

  function EmptyBuilder(numcodes: nat): Builder {
    Builder(seq(2 * numcodes, _ => UNFILLED), 0, 0)
  }

  function ZeroUnfilled(tree: seq<nat>): (t: seq<nat>)
    ensures |t| == |tree|
  {
    seq(|tree|, i requires 0 <= i < |tree| => if tree[i] == UNFILLED then 0 else tree[i])
  }

  /** What HuffmanTree_make2DTree returns for the given code words. */
  function BuildTree(words: seq<seq<bit>>): (r: Result<seq<nat>>)
    ensures r.Ok? ==> |r.value| == 2 * |words|
  {
    var b :- InsertFrom(EmptyBuilder(|words|), words, 0);
    Ok(ZeroUnfilled(b.tree))
  }

  /** The inner loop of HuffmanTree_make2DTree, for symbol `n`. */
  method InsertSymbol(tree2d: array<nat>, numcodes: nat, n: nat, code: nat, length: nat, filled: nat, pos: nat)
    returns (error: nat, nodefilled: nat, treepos: nat)
    requires tree2d.Length == 2 * numcodes
    modifies tree2d
    ensures InsertCode(Builder(old(tree2d[..]), filled, pos), n, ToBitsReversed(code, length))
         == if error == 0 then Ok(Builder(tree2d[..], nodefilled, treepos)) else Error(error)
  {
    hide InsertCode, ToBitsReversed;
    error, nodefilled, treepos := 0, filled, pos;
    ghost var start := Builder(tree2d[..], filled, pos);
    ghost var w := ToBitsReversed(code, length);
    for i := 0 to length
      invariant InsertCode(start, n, w) == InsertCode(Builder(tree2d[..], nodefilled, treepos), n, w[i..])
    {
      var x := Bit(code, length - i - 1);
      ToBitsReversedAt(code, length, i);
      assert w[i..][0] == x && w[i..][1..] == w[i + 1..];
      InsertUnfolds(Builder(tree2d[..], nodefilled, treepos), n, w[i..]);
      if treepos > 2147483647 || treepos + 2 > numcodes {
        error := 55;
        return;
      }
      if tree2d[2 * treepos + x] == UNFILLED {
        if i + 1 == length {
          tree2d[2 * treepos + x] := n;
          treepos := 0;
        } else {
          nodefilled := nodefilled + 1;
          tree2d[2 * treepos + x] := nodefilled + numcodes;
          treepos := nodefilled;
        }
      } else {
        treepos := Sub32(tree2d[2 * treepos + x], numcodes);
      }
    }
    InsertNothing(Builder(tree2d[..], nodefilled, treepos), n);
  }

  lemma InsertUnfolds(b: Builder, symbol: nat, w: seq<bit>)
    requires w != []
    ensures InsertCode(b, symbol, w) == match StepBit(b, symbol, w[0], |w| == 1) {
                                          case Error(code) => Error(code)
                                          case Ok(b') => InsertCode(b', symbol, w[1..]) }
  {
  }

  lemma InsertNothing(b: Builder, symbol: nat)
    ensures InsertCode(b, symbol, []) == Ok(b)
  {
  }

  /** HuffmanTree_make2DTree, given the code table. */
  method Make2DTree(lengths: seq<nat>, tree1d: array<nat>) returns (error: nat, tree2d: array<nat>)
    requires tree1d.Length == |lengths| && IsCodeTable(lengths, tree1d[..])
    ensures fresh(tree2d)
    ensures BuildTree(Codewords(lengths)) == if error == 0 then Ok(tree2d[..]) else Error(error)
  {
    hide InsertCode, ToBitsReversed, IsCodeTable, NextCode, CountBefore, Codeword, ZeroUnfilled;
    var numcodes := |lengths|;
    CodeTableIsCanonical(lengths, tree1d[..]);
    ghost var words := Codewords(lengths);
    ghost var start := EmptyBuilder(numcodes);
    var nodefilled: nat, treepos: nat := 0, 0;
    tree2d := new nat[2 * numcodes](_ => UNFILLED);
    error := 0;
    assert tree2d[..] == start.tree;
    for n := 0 to numcodes
      invariant tree1d[..] == old(tree1d[..])
      invariant InsertFrom(start, words, 0) == InsertFrom(Builder(tree2d[..], nodefilled, treepos), words, n)
    {
      assert ToBitsReversed(tree1d[n], lengths[n]) == words[n];
      error, nodefilled, treepos := InsertSymbol(tree2d, numcodes, n, tree1d[n], lengths[n], nodefilled, treepos);
      if error != 0 { return; }
    }
    RemoveUnfilled(tree2d);
  }

  method RemoveUnfilled(tree2d: array<nat>)
    modifies tree2d
    ensures tree2d[..] == ZeroUnfilled(old(tree2d[..]))
  {
    for n := 0 to tree2d.Length
      invariant forall i :: 0 <= i < tree2d.Length ==>
                  tree2d[i] == if i < n && old(tree2d[i]) == UNFILLED then 0 else old(tree2d[i])
    {
      if tree2d[n] == UNFILLED { tree2d[n] := 0; }
    }
  }

  // ----- what the tree means

  /** The word `w`, read from node `pos` on, ends at symbol `s`. */
  ghost predicate Leads(tree: seq<nat>, pos: nat, w: seq<bit>, s: nat)
    decreases |w|
  {
    var numcodes := |tree| / 2;
    && w != [] && pos < numcodes
    && var e := tree[2 * pos + w[0]];
    if |w| == 1 then e == s && s < numcodes
    else numcodes <= e < 2 * numcodes && Leads(tree, e - numcodes, w[1..], s)
  }

  /** Entry `e` of the tree, reached by the bits `q`: empty, the symbol with
      that code word, or the node with that prefix. */
  ghost predicate EntryOk(e: nat, q: seq<bit>, words: seq<seq<bit>>, prefixes: seq<seq<bit>>) {
    || e == UNFILLED
    || (e < |words| && words[e] == q)
    || (|words| <= e < |words| + |prefixes| && prefixes[e - |words|] == q)
  }

  ghost predicate SlotOk(tree: seq<nat>, words: seq<seq<bit>>, prefixes: seq<seq<bit>>, k: nat, x: bit)
    requires k < |prefixes|
  {
    2 * k + x < |tree| && EntryOk(tree[2 * k + x], prefixes[k] + [x], words, prefixes)
  }

  ghost predicate HasParent(tree: seq<nat>, prefixes: seq<seq<bit>>, m: nat, k: nat)
    requires m < |prefixes|
  {
    && k < m && prefixes[m] != []
    && var x := prefixes[m][|prefixes[m]| - 1];
       2 * k + x < |tree| && tree[2 * k + x] == m + |tree| / 2 && prefixes[m] == prefixes[k] + [x]
  }

  ghost predicate Parented(tree: seq<nat>, prefixes: seq<seq<bit>>, m: nat)
    requires m < |prefixes|
  {
    exists k: nat :: HasParent(tree, prefixes, m, k)
  }

  ghost predicate IsProperPrefix(words: seq<seq<bit>>, q: seq<bit>) {
    exists s :: 0 <= s < |words| && q < words[s]
  }

  ghost predicate Distinct<T>(q: seq<T>) {
    forall i, j :: 0 <= i < j < |q| ==> q[i] != q[j]
  }

  /** Symbol `s` hangs off node `k`. */
  ghost predicate PlacedAt(tree: seq<nat>, prefixes: seq<seq<bit>>, words: seq<seq<bit>>, s: nat, k: nat)
    requires s < |words|
  {
    && k < |prefixes| && words[s] != []
    && var x := words[s][|words[s]| - 1];
       2 * k + x < |tree| && tree[2 * k + x] == s && words[s] == prefixes[k] + [x]
  }

  ghost predicate Placed(tree: seq<nat>, prefixes: seq<seq<bit>>, words: seq<seq<bit>>, s: nat)
    requires s < |words|
  {
    exists k: nat :: PlacedAt(tree, prefixes, words, s, k)
  }

  ghost predicate Entries(tree: seq<nat>, words: seq<seq<bit>>, prefixes: seq<seq<bit>>) {
    && 2 * |prefixes| <= |tree|
    && (forall k: nat, x: bit :: k < |prefixes| ==> SlotOk(tree, words, prefixes, k, x))
    && (forall i :: 2 * |prefixes| <= i < |tree| ==> tree[i] == UNFILLED)
  }

  ghost predicate AllParented(tree: seq<nat>, prefixes: seq<seq<bit>>) {
    forall m {:trigger Parented(tree, prefixes, m)} :: 1 <= m < |prefixes| ==> Parented(tree, prefixes, m)
  }

  ghost predicate AllPlaced(tree: seq<nat>, words: seq<seq<bit>>, n: nat, prefixes: seq<seq<bit>>)
    requires n <= |words|
  {
    forall s {:trigger Placed(tree, prefixes, words, s)} ::
      0 <= s < n && words[s] != [] ==> Placed(tree, prefixes, words, s)
  }

  ghost predicate AllProper(words: seq<seq<bit>>, prefixes: seq<seq<bit>>) {
    forall m {:trigger IsProperPrefix(words, prefixes[m])} ::
      0 <= m < |prefixes| ==> IsProperPrefix(words, prefixes[m])
  }

  /** The tree under construction holds the words of the symbols below `n`;
      node `k` stands for the bits `prefixes[k]`. */
  ghost predicate TreeOk(b: Builder, words: seq<seq<bit>>, n: nat, prefixes: seq<seq<bit>>) {
    && |b.tree| == 2 * |words| && n <= |words| <= MAX_NUMCODES
    && |prefixes| == b.filled + 1 <= |words| && prefixes[0] == []
    && Distinct(prefixes) && AllProper(words, prefixes)
    && Entries(b.tree, words, prefixes)
    && AllParented(b.tree, prefixes)
    && AllPlaced(b.tree, words, n, prefixes)
    && OnlyBelow(b.tree, |words|, n)
  }

  /** No symbol is placed before its turn. */
  ghost predicate OnlyBelow(tree: seq<nat>, numcodes: nat, n: nat) {
    forall i :: 0 <= i < |tree| ==> tree[i] < n || tree[i] >= numcodes
  }

  /** No more nodes than this ever appear, so there is memory for all of them. */
  ghost predicate NodesFit(words: seq<seq<bit>>) {
    forall prefixes: seq<seq<bit>> ::
      Distinct(prefixes) && AllProper(words, prefixes) ==> |prefixes| + 1 <= |words|
  }

  /** A word read so far never runs into another symbol. */
  lemma StepWithinWord(e: nat, words: seq<seq<bit>>, n: nat, i: nat, prefixes: seq<seq<bit>>)
    requires PrefixFree(words)
    requires n < |words| && i < |words[n]|
    requires EntryOk(e, words[n][..i + 1], words, prefixes)
    requires |words| <= e < |words| + |prefixes| ==> IsProperPrefix(words, prefixes[e - |words|])
    requires e != n
    ensures e == UNFILLED
            || (i + 1 < |words[n]| && |words| <= e < |words| + |prefixes| && prefixes[e - |words|] == words[n][..i + 1])
  {
    assert words[n][..i + 1] <= words[n];
    assert e < |words| && e != n && words[e] != [] ==> !(words[e] <= words[n]);
    if i + 1 == |words[n]| {
      assert words[n][..i + 1] == words[n];
      NoLongerWord(words, n);
    }
  }

  lemma NoLongerWord(words: seq<seq<bit>>, n: nat)
    requires PrefixFree(words) && n < |words| && words[n] != []
    ensures !IsProperPrefix(words, words[n])
  {
    forall s | 0 <= s < |words| ensures !(words[n] < words[s]) {
      assert s != n ==> !(words[n] <= words[s]);
    }
  }

  lemma SnocInjective(a: seq<bit>, x: bit, c: seq<bit>, y: bit)
    requires a != c || x != y
    ensures a + [x] != c + [y]
  {
    assert (a + [x])[..|a|] == a && (c + [y])[..|c|] == c;
    assert (a + [x])[|a|] == x && (c + [y])[|c|] == y;
  }

  /** A new node's prefix is new. */
  lemma FreshPrefix(tree: seq<nat>, prefixes: seq<seq<bit>>, pos: nat, x: bit)
    requires Distinct(prefixes) && AllParented(tree, prefixes)
    requires pos < |prefixes| && prefixes[0] == []
    requires 2 * pos + x < |tree| && tree[2 * pos + x] == UNFILLED
    requires |tree| / 2 + |prefixes| < UNFILLED
    ensures forall m :: 0 <= m < |prefixes| ==> prefixes[m] != prefixes[pos] + [x]
  {
    forall m | 0 <= m < |prefixes| ensures prefixes[m] != prefixes[pos] + [x] {
      if m > 0 {
        assert Parented(tree, prefixes, m);
        var k: nat :| HasParent(tree, prefixes, m, k);
        var y := prefixes[m][|prefixes[m]| - 1];
        assert k != pos || y != x;
        SnocInjective(prefixes[k], y, prefixes[pos], x);
      }
    }
  }

  /** Filling the empty slot of node `pos` for bit `x` disturbs nothing else. */
  lemma FillSlot(tree: seq<nat>, words: seq<seq<bit>>, prefixes: seq<seq<bit>>, pos: nat, x: bit, e: nat,
                 prefixes': seq<seq<bit>>)
    requires Entries(tree, words, prefixes)
    requires pos < |prefixes| && tree[2 * pos + x] == UNFILLED
    requires prefixes <= prefixes' && |prefixes'| <= |prefixes| + 1 && 2 * |prefixes'| <= |tree|
    requires EntryOk(e, prefixes[pos] + [x], words, prefixes')
    ensures Entries(tree[2 * pos + x := e], words, prefixes')
  {
    var slot := 2 * pos + x;
    var tree' := tree[slot := e];
    forall k: nat, y: bit | k < |prefixes'|
      ensures SlotOk(tree', words, prefixes', k, y)
    {
      if k < |prefixes| {
        assert SlotOk(tree, words, prefixes, k, y);
        assert 2 * k + y == slot ==> k == pos && y == x;
      } else {
        assert tree'[2 * k + y] == UNFILLED;
      }
    }
  }

  lemma FillSlotKeeps(tree: seq<nat>, words: seq<seq<bit>>, n: nat, prefixes: seq<seq<bit>>, slot: nat, e: nat,
                      prefixes': seq<seq<bit>>)
    requires AllParented(tree, prefixes) && n <= |words| && AllPlaced(tree, words, n, prefixes)
    requires slot < |tree| && tree[slot] == UNFILLED && prefixes <= prefixes'
    requires |words| < UNFILLED && |tree| / 2 + |prefixes| < UNFILLED
    ensures var tree' := tree[slot := e]; forall m :: 1 <= m < |prefixes| ==> Parented(tree', prefixes', m)
    ensures AllPlaced(tree[slot := e], words, n, prefixes')
  {
    var tree' := tree[slot := e];
    forall m | 1 <= m < |prefixes| ensures Parented(tree', prefixes', m) {
      assert Parented(tree, prefixes, m);
      var k: nat :| HasParent(tree, prefixes, m, k);
      assert HasParent(tree', prefixes', m, k);
    }
    forall s | 0 <= s < n && words[s] != [] ensures Placed(tree', prefixes', words, s) {
      assert Placed(tree, prefixes, words, s);
      var k: nat :| PlacedAt(tree, prefixes, words, s, k);
      assert PlacedAt(tree', prefixes', words, s, k);
    }
  }

  lemma AddNode(b: Builder, words: seq<seq<bit>>, n: nat, i: nat, prefixes: seq<seq<bit>>)
    requires TreeOk(b, words, n, prefixes)
    requires n < |words| && i + 1 < |words[n]|
    requires b.pos <= b.filled && prefixes[b.pos] == words[n][..i] && b.filled + 2 <= |words|
    requires b.tree[2 * b.pos + words[n][i]] == UNFILLED
    ensures TreeOk(Builder(b.tree[2 * b.pos + words[n][i] := b.filled + 1 + |words|], b.filled + 1, b.filled + 1),
                   words, n, prefixes + [words[n][..i + 1]])
  {
    var x := words[n][i];
    var q := words[n][..i + 1];
    var e := b.filled + 1 + |words|;
    var tree' := b.tree[2 * b.pos + x := e];
    var prefixes' := prefixes + [q];
    assert q == prefixes[b.pos] + [x];
    FreshPrefix(b.tree, prefixes, b.pos, x);
    FillSlot(b.tree, words, prefixes, b.pos, x, e, prefixes');
    FillSlotKeeps(b.tree, words, n, prefixes, 2 * b.pos + x, e, prefixes');
    assert HasParent(tree', prefixes', |prefixes|, b.pos);
    assert Parented(tree', prefixes', |prefixes|);
    AddPrefix(words, n, prefixes, q);
  }

  lemma AddPrefix(words: seq<seq<bit>>, n: nat, prefixes: seq<seq<bit>>, q: seq<bit>)
    requires Distinct(prefixes) && AllProper(words, prefixes)
    requires n < |words| && q < words[n]
    requires forall m :: 0 <= m < |prefixes| ==> prefixes[m] != q
    ensures Distinct(prefixes + [q]) && AllProper(words, prefixes + [q])
  {
    var prefixes' := prefixes + [q];
    forall m | 0 <= m < |prefixes'| ensures IsProperPrefix(words, prefixes'[m]) {
      assert m < |prefixes| ==> IsProperPrefix(words, prefixes[m]);
    }
  }

  lemma AddSymbol(b: Builder, words: seq<seq<bit>>, n: nat, prefixes: seq<seq<bit>>)
    requires TreeOk(b, words, n, prefixes)
    requires n < |words| && words[n] != []
    requires b.pos <= b.filled && prefixes[b.pos] == words[n][..|words[n]| - 1]
    requires b.tree[2 * b.pos + words[n][|words[n]| - 1]] == UNFILLED
    ensures TreeOk(Builder(b.tree[2 * b.pos + words[n][|words[n]| - 1] := n], b.filled, 0), words, n + 1, prefixes)
  {
    var x := words[n][|words[n]| - 1];
    var tree' := b.tree[2 * b.pos + x := n];
    assert words[n] == prefixes[b.pos] + [x];
    FillSlot(b.tree, words, prefixes, b.pos, x, n, prefixes);
    FillSlotKeeps(b.tree, words, n, prefixes, 2 * b.pos + x, n, prefixes);
    assert PlacedAt(tree', prefixes, words, n, b.pos);
    assert Placed(tree', prefixes, words, n);
  }

  /** Bits `..i` of word `n` have been followed to node `b.pos`. */
  ghost predicate Midway(b: Builder, words: seq<seq<bit>>, n: nat, i: nat, prefixes: seq<seq<bit>>) {
    && TreeOk(b, words, n, prefixes)
    && n < |words| && i < |words[n]|
    && b.pos <= b.filled && prefixes[b.pos] == words[n][..i]
  }

  /** One bit of a word: the symbol is placed, or the next node is reached, or
      memory is used up and the next bit reports error 55. */
  lemma StepOk(b: Builder, words: seq<seq<bit>>, n: nat, i: nat, prefixes: seq<seq<bit>>)
    returns (prefixes': seq<seq<bit>>)
    requires Midway(b, words, n, i, prefixes) && PrefixFree(words)
    requires b.pos + 2 <= |words|
    ensures var r := StepBit(b, n, words[n][i], i + 1 == |words[n]|);
            && r.Ok?
            && if i + 1 == |words[n]| then TreeOk(r.value, words, n + 1, prefixes') && r.value.pos == 0
               else Midway(r.value, words, n, i + 1, prefixes')
                    || (r.value.pos + 2 > |words| && |prefixes| + 1 > |words|)
  {
    hide Distinct, AllProper, Entries, AllParented, AllPlaced, OnlyBelow, PrefixFree, EntryOk, IsProperPrefix;
    prefixes' := prefixes;
    var x := words[n][i];
    EntryAt(b, words, n, i, prefixes);
    StepWithinWord(b.tree[2 * b.pos + x], words, n, i, prefixes);
    if b.tree[2 * b.pos + x] == UNFILLED {
      if i + 1 == |words[n]| {
        AddSymbol(b, words, n, prefixes);
      } else if b.filled + 2 <= |words| {
        AddNode(b, words, n, i, prefixes);
        prefixes' := prefixes + [words[n][..i + 1]];
      }
    }
  }

  /** Inserting the rest of a word keeps the tree well-formed, and succeeds
      when the nodes fit. */
  lemma {:induction false} InsertCodeOk(b: Builder, words: seq<seq<bit>>, n: nat, i: nat, prefixes: seq<seq<bit>>)
    returns (prefixes': seq<seq<bit>>)
    requires Midway(b, words, n, i, prefixes) && PrefixFree(words)
    ensures var r := InsertCode(b, n, words[n][i..]);
            && (NodesFit(words) ==> r.Ok?)
            && (r.Ok? ==> TreeOk(r.value, words, n + 1, prefixes') && r.value.pos == 0)
    decreases |words[n]| - i
  {
    prefixes' := prefixes;
    var w := words[n][i..];
    assert w[0] == words[n][i] && w[1..] == words[n][i + 1..];
    assert NodesFit(words) ==> |prefixes| + 1 <= |words|;
    if b.pos + 2 <= |words| {
      prefixes' := StepOk(b, words, n, i, prefixes);
      var b' := StepBit(b, n, words[n][i], i + 1 == |words[n]|).value;
      if i + 1 < |words[n]| && Midway(b', words, n, i + 1, prefixes') {
        prefixes' := InsertCodeOk(b', words, n, i + 1, prefixes');
      }
    }
  }

  /** The entry that bit `i` of word `n` selects. */
  lemma EntryAt(b: Builder, words: seq<seq<bit>>, n: nat, i: nat, prefixes: seq<seq<bit>>)
    requires Midway(b, words, n, i, prefixes)
    ensures var e := b.tree[2 * b.pos + words[n][i]];
            && e != n
            && EntryOk(e, words[n][..i + 1], words, prefixes)
            && (|words| <= e < |words| + |prefixes| ==> IsProperPrefix(words, prefixes[e - |words|]))
  {
    var x := words[n][i];
    assert words[n][..i + 1] == prefixes[b.pos] + [x];
    assert SlotOk(b.tree, words, prefixes, b.pos, x);
  }

  // ----- the finished tree

  /** Inserting all words from symbol `n` on. */
  lemma {:induction false} InsertFromOk(b: Builder, words: seq<seq<bit>>, n: nat, prefixes: seq<seq<bit>>)
    returns (prefixes': seq<seq<bit>>)
    requires TreeOk(b, words, n, prefixes) && b.pos == 0 && PrefixFree(words)
    ensures var r := InsertFrom(b, words, n);
            && (NodesFit(words) ==> r.Ok?)
            && (r.Ok? ==> TreeOk(r.value, words, |words|, prefixes'))
    decreases |words| - n
  {
    prefixes' := prefixes;
    if n < |words| {
      var r := InsertCode(b, n, words[n]);
      if words[n] != [] {
        assert words[n][0..] == words[n];
        prefixes' := InsertCodeOk(b, words, n, 0, prefixes);
      } else {
        SkipAbsent(b, words, n, prefixes);
      }
      if r.Ok? { prefixes' := InsertFromOk(r.value, words, n + 1, prefixes'); }
    }
  }

  lemma SkipAbsent(b: Builder, words: seq<seq<bit>>, n: nat, prefixes: seq<seq<bit>>)
    requires TreeOk(b, words, n, prefixes) && n < |words| && words[n] == []
    ensures TreeOk(b, words, n + 1, prefixes)
  {
    forall s | 0 <= s < n + 1 && words[s] != [] ensures Placed(b.tree, prefixes, words, s) {
      assert s < n;
    }
  }

  lemma EmptyTreeOk(words: seq<seq<bit>>, s: nat)
    requires 0 < |words| <= MAX_NUMCODES && s < |words| && words[s] != []
    ensures TreeOk(EmptyBuilder(|words|), words, 0, [[]])
  {
    assert [] < words[s];
    assert IsProperPrefix(words, []);
    var b := EmptyBuilder(|words|);
    forall k: nat, x: bit | k < 1 ensures SlotOk(b.tree, words, [[]], k, x) {
      assert b.tree[2 * k + x] == UNFILLED;
    }
  }

  /** From the root, the bits of node `k` and then `w` lead where `w` leads from `k`. */
  lemma {:induction false} LeadsFromRoot(tree: seq<nat>, prefixes: seq<seq<bit>>, k: nat, w: seq<bit>, s: nat)
    requires AllParented(tree, prefixes) && 0 < |prefixes| <= |tree| / 2 && prefixes[0] == []
    requires k < |prefixes| && Leads(tree, k, w, s)
    ensures Leads(tree, 0, prefixes[k] + w, s)
    decreases k
  {
    if k == 0 {
      assert prefixes[0] + w == w;
    } else {
      assert Parented(tree, prefixes, k);
      var p: nat :| HasParent(tree, prefixes, k, p);
      var x := prefixes[k][|prefixes[k]| - 1];
      assert ([x] + w)[1..] == w;
      LeadsFromRoot(tree, prefixes, p, [x] + w, s);
      assert prefixes[k] + w == prefixes[p] + ([x] + w);
    }
  }

  lemma {:induction false} LeadsZeroed(tree: seq<nat>, pos: nat, w: seq<bit>, s: nat)
    requires Leads(tree, pos, w, s) && |tree| < UNFILLED
    ensures Leads(ZeroUnfilled(tree), pos, w, s)
    decreases |w|
  {
    if |w| > 1 { LeadsZeroed(tree, tree[2 * pos + w[0]] - |tree| / 2, w[1..], s); }
  }

  /** Every word leads to its symbol in the finished tree. */
  lemma BuiltTreeLeads(words: seq<seq<bit>>, s: nat)
    requires PrefixFree(words) && |words| <= MAX_NUMCODES
    requires s < |words| && words[s] != [] && BuildTree(words).Ok?
    ensures Leads(BuildTree(words).value, 0, words[s], s)
  {
    EmptyTreeOk(words, s);
    var b := EmptyBuilder(|words|);
    var prefixes := InsertFromOk(b, words, 0, [[]]);
    var tree := InsertFrom(b, words, 0).value.tree;
    assert Placed(tree, prefixes, words, s);
    var k: nat :| PlacedAt(tree, prefixes, words, s, k);
    var x := words[s][|words[s]| - 1];
    LeadsFromRoot(tree, prefixes, k, [x], s);
    LeadsZeroed(tree, 0, words[s], s);
  }

  // ----- complete codes always fit

  /** The level and value of every bit string of fewer than `max` bits that lies
      beyond the codes of its length: the inner nodes of a complete code. */
  ghost function InnerNodes(lengths: seq<nat>, max: nat): set<(nat, nat)> {
    set l: nat, v: nat | l < max && v < Pow2(l) && EndCode(lengths, l) <= v :: (l, v)
  }

  ghost function InnerNodesAt(lengths: seq<nat>, l: nat): set<(nat, nat)> {
    set v: nat | v < Pow2(l) && EndCode(lengths, l) <= v :: (l, v)
  }

  lemma {:induction false} IntervalSize(l: nat, from: nat, to: nat)
    requires from <= to
    ensures |set v: nat | v < to && from <= v :: (l, v)| == to - from
  {
    var s := set v: nat | v < to && from <= v :: (l, v);
    if from < to {
      IntervalSize(l, from, to - 1);
      assert s == (set v: nat | v < to - 1 && from <= v :: (l, v)) + {(l, to - 1)};
    } else {
      assert s == {};
    }
  }

  /** How many symbols have a length from 1 to `max`. */
  ghost function PresentUpTo(lengths: seq<nat>, max: nat): nat {
    if max == 0 then 0 else PresentUpTo(lengths, max - 1) + Count(lengths, max)
  }

  lemma {:induction false} InnerNodesSize(lengths: seq<nat>, max: nat)
    requires EndCode(lengths, max) <= Pow2(max)
    ensures |InnerNodes(lengths, max)| + 1 == PresentUpTo(lengths, max) + (Pow2(max) - EndCode(lengths, max))
  {
    if max == 0 {
      assert InnerNodes(lengths, 0) == {};
    } else {
      var l := max - 1;
      EndCodeFits(lengths, l, max);
      InnerNodesSize(lengths, l);
      IntervalSize(l, EndCode(lengths, l), Pow2(l));
      assert InnerNodes(lengths, max) == InnerNodes(lengths, l) + InnerNodesAt(lengths, l);
    }
  }

  ghost function CountUpTo(lengths: seq<nat>, n: nat, max: nat): nat
    requires n <= |lengths|
  {
    if max == 0 then 0 else CountUpTo(lengths, n, max - 1) + CountBefore(lengths, n, max)
  }

  lemma {:induction false} PresentAtMost(lengths: seq<nat>, n: nat, max: nat)
    requires n <= |lengths|
    ensures CountUpTo(lengths, n, max) <= n
    ensures n > 0 && lengths[n - 1] > max ==> CountUpTo(lengths, n, max) == CountUpTo(lengths, n - 1, max)
    ensures n > 0 && 0 < lengths[n - 1] <= max ==> CountUpTo(lengths, n, max) == CountUpTo(lengths, n - 1, max) + 1
    ensures n > 0 && lengths[n - 1] == 0 ==> CountUpTo(lengths, n, max) == CountUpTo(lengths, n - 1, max)
    decreases n, max
  {
    if n > 0 {
      PresentAtMost(lengths, n - 1, max);
      if max > 0 { PresentAtMost(lengths, n, max - 1); }
    } else if max > 0 {
      PresentAtMost(lengths, 0, max - 1);
    }
  }

  lemma {:induction false} PresentIsCount(lengths: seq<nat>, max: nat)
    ensures PresentUpTo(lengths, max) == CountUpTo(lengths, |lengths|, max)
  {
    if max > 0 { PresentIsCount(lengths, max - 1); }
  }

  ghost function Elements<T>(q: seq<T>): set<T> {
    set x | x in q
  }

  lemma {:induction false} DistinctSize<T>(q: seq<T>)
    requires Distinct(q)
    ensures |Elements(q)| == |q|
  {
    if q == [] {
      assert Elements(q) == {};
    } else {
      var p, last := q[..|q| - 1], q[|q| - 1];
      DistinctSize(p);
      assert q == p + [last];
      assert Elements(q) == Elements(p) + {last};
      assert last !in p;
    }
  }

  lemma {:induction false} SubsetSize<T>(a: set<T>, b: set<T>)
    requires a <= b
    ensures |a| <= |b|
  {
    if a != {} {
      var x :| x in a;
      SubsetSize(a - {x}, b - {x});
    }
  }

  /** In a complete canonical code with `m` symbols at most `m - 1` proper
      prefixes of code words exist, so lodepng's memory for them suffices. */
  lemma CompleteNodesFit(lengths: seq<nat>, max: nat)
    requires Complete(lengths, max)
    ensures NodesFit(Codewords(lengths))
  {
    var words := Codewords(lengths);
    forall prefixes: seq<seq<bit>> | Distinct(prefixes) && AllProper(words, prefixes)
      ensures |prefixes| + 1 <= |words|
    {
      var keys := seq(|prefixes|, m requires 0 <= m < |prefixes| => (|prefixes[m]|, Val(prefixes[m])));
      forall m | 0 <= m < |prefixes| ensures keys[m] in InnerNodes(lengths, max) {
        assert IsProperPrefix(words, prefixes[m]);
        var s :| 0 <= s < |words| && prefixes[m] < words[s];
        PrefixIsInternal(lengths, max, s, |prefixes[m]|);
        assert Codeword(lengths, s)[..|prefixes[m]|] == prefixes[m];
      }
      forall i, j | 0 <= i < j < |keys| ensures keys[i] != keys[j] {
        if |prefixes[i]| == |prefixes[j]| && Val(prefixes[i]) == Val(prefixes[j]) {
          ValInjective(prefixes[i], prefixes[j]);
        }
      }
      DistinctSize(keys);
      SubsetSize(Elements(keys), InnerNodes(lengths, max));
      KraftIsEndCode(lengths, max);
      InnerNodesSize(lengths, max);
      PresentIsCount(lengths, max);
      PresentAtMost(lengths, |lengths|, max);
    }
  }

  /** A complete code has a symbol, and make2DTree accepts it. */
  lemma CompleteCodeBuilds(lengths: seq<nat>, max: nat)
    requires Complete(lengths, max) && |lengths| <= MAX_NUMCODES
    ensures BuildTree(Codewords(lengths)).Ok?
  {
    var words := Codewords(lengths);
    CodewordsPrefixFree(lengths, max);
    CompleteNodesFit(lengths, max);
    var s := CompleteHasSymbol(lengths, |lengths|, max);
    EmptyTreeOk(words, s);
    var prefixes := InsertFromOk(EmptyBuilder(|words|), words, 0, [[]]);
  }

  lemma {:induction false} CompleteHasSymbol(lengths: seq<nat>, n: nat, max: nat) returns (s: nat)
    requires n <= |lengths| && KraftSum(lengths, n, max) > 0
    ensures s < |lengths| && lengths[s] > 0
  {
    if lengths[n - 1] > 0 { s := n - 1; } else { s := CompleteHasSymbol(lengths, n - 1, max); }
  }

  // ----- decoding

  /** `(unsigned)(-1)`: no symbol could be decoded. */
  const NO_SYMBOL: nat := 0xFFFF_FFFF

  /** huffmanDecodeSymbol from tree position `pos` on: the symbol and the new bit pointer. */
  function DecodeFrom(tree: seq<nat>, s: seq<byte>, bp: nat, pos: nat): (r: (nat, nat))
    requires pos < |tree| / 2
    ensures bp <= r.1 && (r.0 != NO_SYMBOL ==> bp < r.1 <= 8 * |s| && r.0 < |tree| / 2)
    decreases 8 * |s| - bp
  {
    var numcodes := |tree| / 2;
    if bp >= 8 * |s| then (NO_SYMBOL, bp)
    else
      var ct := tree[2 * pos + StreamBit(s, bp)];
      if ct < numcodes then (ct, bp + 1)
      else if ct - numcodes >= numcodes then (NO_SYMBOL, bp + 1)
      else DecodeFrom(tree, s, bp + 1, ct - numcodes)
  }

  function DecodeSymbol(tree: seq<nat>, s: seq<byte>, bp: nat): (r: (nat, nat))
    requires |tree| >= 2
    ensures bp <= r.1 && (r.0 != NO_SYMBOL ==> bp < r.1 <= 8 * |s| && r.0 < |tree| / 2)
  {
    DecodeFrom(tree, s, bp, 0)
  }

  method HuffmanDecodeSymbol(s: seq<byte>, bp: nat, tree2d: seq<nat>) returns (symbol: nat, bp': nat)
    requires |tree2d| >= 2
    ensures (symbol, bp') == DecodeSymbol(tree2d, s, bp)
  {
    var numcodes := |tree2d| / 2;
    var treepos: nat := 0;
    bp' := bp;
    while true
      invariant treepos < numcodes
      invariant DecodeFrom(tree2d, s, bp', treepos) == DecodeSymbol(tree2d, s, bp)
      decreases 8 * |s| - bp'
    {
      if bp' >= 8 * |s| { return NO_SYMBOL, bp'; }
      var ct := tree2d[2 * treepos + StreamBit(s, bp')];
      bp' := bp' + 1;
      if ct < numcodes { return ct, bp'; }
      treepos := ct - numcodes;
      if treepos >= numcodes { return NO_SYMBOL, bp'; }
    }
  }

  lemma {:induction false} DecodeAlong(tree: seq<nat>, s: seq<byte>, bp: nat, pos: nat, w: seq<bit>, symbol: nat)
    requires Leads(tree, pos, w, symbol) && At(s, bp, w)
    ensures DecodeFrom(tree, s, bp, pos) == (symbol, bp + |w|)
    decreases |w|
  {
    AtBit(s, bp, w, 0);
    AtSplit(s, bp, [w[0]], w[1..]);
    assert w == [w[0]] + w[1..];
    if |w| > 1 {
      DecodeAlong(tree, s, bp + 1, tree[2 * pos + w[0]] - |tree| / 2, w[1..], symbol);
    }
  }

  /** Whenever make2DTree accepts a code that is not oversubscribed, decoding
      undoes encoding: the bits written for a present symbol give that symbol
      back and exactly its length is consumed. */
  lemma DecodeUndoesEncode(lengths: seq<nat>, max: nat, symbol: nat, s: seq<byte>, bp: nat)
    requires NotOversubscribed(lengths, max) && |lengths| <= MAX_NUMCODES
    requires BuildTree(Codewords(lengths)).Ok?
    requires symbol < |lengths| && lengths[symbol] > 0
    requires At(s, bp, Codeword(lengths, symbol))
    ensures DecodeSymbol(BuildTree(Codewords(lengths)).value, s, bp) == (symbol, bp + lengths[symbol])
  {
    var words := Codewords(lengths);
    CodewordsPrefixFree(lengths, max);
    BuiltTreeLeads(words, symbol);
    DecodeAlong(BuildTree(words).value, s, bp, 0, words[symbol], symbol);
  }

  /** Decoding with `tree` undoes the code with these code words. */
  ghost predicate Decodes(tree: seq<nat>, words: seq<seq<bit>>) {
    && |tree| == 2 * |words| > 0
    && forall symbol: nat, s: seq<byte>, bp: nat
         {:trigger At(s, bp, words[symbol]), DecodeSymbol(tree, s, bp)} ::
         symbol < |words| && words[symbol] != [] && At(s, bp, words[symbol]) ==>
         DecodeSymbol(tree, s, bp) == (symbol, bp + |words[symbol]|)
  }

  lemma TreeDecodes(lengths: seq<nat>, max: nat)
    requires NotOversubscribed(lengths, max) && 0 < |lengths| <= MAX_NUMCODES
    requires BuildTree(Codewords(lengths)).Ok?
    ensures Decodes(BuildTree(Codewords(lengths)).value, Codewords(lengths))
  {
    var words := Codewords(lengths);
    var tree := BuildTree(words).value;
    forall symbol: nat, s: seq<byte>, bp: nat
      | symbol < |words| && words[symbol] != [] && At(s, bp, words[symbol])
      ensures DecodeSymbol(tree, s, bp) == (symbol, bp + |words[symbol]|)
    {
      DecodeUndoesEncode(lengths, max, symbol, s, bp);
    }
  }
}
