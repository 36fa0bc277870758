/** Counting the symbols of a block, and Huffman codes made from the counts. */
module Frequencies {
  import opened Bits
  import opened BlockCodes
  import opened BlockWriter
  import opened HuffmanCodes
  import opened PackageMerge
  import opened RunLengths

  // ----- literals, lengths and distances

  /** How often literal/length symbol `s` occurs in `v`. */
  ghost function SymbolCount(v: seq<nat>, s: nat): nat
    decreases |v|
  {
    if v == [] then 0
    else (if v[0] == s then 1 else 0) + SymbolCount(if v[0] <= 255 || |v| < 4 then v[1..] else v[4..], s)
  }

  ghost function DistanceCount(v: seq<nat>, s: nat): nat
    decreases |v|
  {
    if v == [] then 0
    else if v[0] <= 255 || |v| < 4 then DistanceCount(v[1..], s)
    else (if v[2] == s then 1 else 0) + DistanceCount(v[4..], s)
  }

  lemma {:induction false} UsedIsCounted(v: seq<nat>, s: nat)
    ensures s in UsedSymbols(v) ==> SymbolCount(v, s) > 0
    ensures s in UsedDistances(v) ==> DistanceCount(v, s) > 0
    decreases |v|
  {
    if v != [] { UsedIsCounted(if v[0] <= 255 || |v| < 4 then v[1..] else v[4..], s); }
  }

  lemma {:induction false} UsedInRange(v: seq<nat>, s: nat)
    requires IsCodes(v)
    ensures s in UsedSymbols(v) ==> s < 286
    ensures s in UsedDistances(v) ==> s < 30
    decreases |v|
  {
    if v != [] { UsedInRange(if v[0] <= 255 then v[1..] else v[4..], s); }
  }

  /** The counts of the alphabets, with the one end code of a block. */
  ghost predicate Counted(v: seq<nat>, ll: seq<nat>, d: seq<nat>) {
    && |ll| == 286 && |d| == 30
    && (forall s :: 0 <= s < 286 && s != 256 ==> ll[s] == SymbolCount(v, s))
    && (forall s :: 0 <= s < 30 ==> d[s] == DistanceCount(v, s))
    && ll[256] == 1
  }

  method CountFrequencies(v: seq<nat>) returns (ll: seq<nat>, d: seq<nat>)
    requires IsCodes(v)
    ensures Counted(v, ll, d)
  {
    ll := Repeat(0, 286);
    d := Repeat(0, 30);
    var i := 0;
    while i < |v|
      invariant i <= |v| && |ll| == 286 && |d| == 30 && IsCodes(v[i..])
      invariant forall s :: 0 <= s < 286 ==> ll[s] + SymbolCount(v[i..], s) == SymbolCount(v, s)
      invariant forall s :: 0 <= s < 30 ==> d[s] + DistanceCount(v[i..], s) == DistanceCount(v, s)
    {
      var symbol := v[i];
      assert v[i..][0] == symbol;
      ll := ll[symbol := ll[symbol] + 1];
      if symbol > 256 {
        d := d[v[i + 2] := d[v[i + 2]] + 1];
        i := i + 3;
      }
      i := i + 1;
    }
    ll := ll[256 := 1];
  }

  // ----- the code length symbols

  ghost function RunCount(e: seq<nat>, s: nat): nat
    decreases |e|
  {
    if e == [] then 0
    else (if e[0] == s then 1 else 0) + RunCount(if e[0] < 16 || |e| < 2 then e[1..] else e[2..], s)
  }

  method CountRunFrequencies(e: seq<nat>) returns (cl: seq<nat>)
    requires Expand(e, []).Ok?
    ensures |cl| == 19 && forall s :: 0 <= s < 19 ==> cl[s] == RunCount(e, s)
  {
    cl := Repeat(0, 19);
    var i := 0;
    ghost var acc := [];
    while i < |e|
      invariant i <= |e| && |cl| == 19 && Expand(e[i..], acc).Ok?
      invariant forall s :: 0 <= s < 19 ==> cl[s] + RunCount(e[i..], s) == RunCount(e, s)
    {
      ghost var rest := e[i..];
      cl := cl[e[i] := cl[e[i]] + 1];
      acc := if rest[0] <= 15 then acc + [rest[0]] else acc + RunOf(rest[0], rest[1], acc);
      if e[i] >= 16 { i := i + 1; }
      i := i + 1;
      assert e[i..] == if rest[0] < 16 then rest[1..] else rest[2..];
    }
  }

  lemma {:induction false} CountedRunsCovered(e: seq<nat>, acc: seq<nat>, cl: seq<seq<bit>>)
    requires Expand(e, acc).Ok? && forall s :: 0 <= s < 19 && RunCount(e, s) > 0 ==> HasWord(cl, s)
    ensures RunsCovered(e, cl)
    decreases |e|
  {
    if e != [] {
      assert RunCount(e, e[0]) > 0 && HasWord(cl, e[0]);
      var rest := if e[0] < 16 then e[1..] else e[2..];
      var acc' := if e[0] <= 15 then acc + [e[0]] else acc + RunOf(e[0], e[1], acc);
      forall s | 0 <= s < 19 && RunCount(rest, s) > 0 ensures HasWord(cl, s) { assert RunCount(e, s) > 0; }
      CountedRunsCovered(rest, acc', cl);
    }
  }

  // ----- codes

  /** How many symbols are left when zeros at the end are trimmed, but not below `mincodes`. */
  ghost function Trimmed(frequencies: seq<nat>, mincodes: nat): (n: nat)
    requires mincodes <= |frequencies|
    ensures mincodes <= n <= |frequencies|
    ensures forall s :: n <= s < |frequencies| ==> frequencies[s] == 0
    ensures n > mincodes ==> frequencies[n - 1] > 0
    decreases |frequencies|
  {
    var n := |frequencies|;
    if n > mincodes && frequencies[n - 1] == 0 then Trimmed(frequencies[..n - 1], mincodes) else n
  }

  method TrimZeros(frequencies: seq<nat>, mincodes: nat) returns (numcodes: nat)
    requires 0 < mincodes <= |frequencies|
    ensures numcodes == Trimmed(frequencies, mincodes)
  {
    numcodes := |frequencies|;
    assert frequencies[..numcodes] == frequencies;
    while frequencies[numcodes - 1] == 0 && numcodes > mincodes
      invariant mincodes <= numcodes <= |frequencies|
      invariant Trimmed(frequencies[..numcodes], mincodes) == Trimmed(frequencies, mincodes)
    {
      assert frequencies[..numcodes][..numcodes - 1] == frequencies[..numcodes - 1];
      numcodes := numcodes - 1;
    }
  }

  /** HuffmanTree_makeFromFrequencies: the cheapest complete code in which every
      symbol that occurs has a code word. */
  method MakeFromFrequencies(frequencies: seq<nat>, mincodes: nat, maxbitlen: nat) returns (error: nat, c: Code)
    requires 2 <= mincodes <= |frequencies| && maxbitlen < 32
    ensures error == if Pow2(maxbitlen) < Trimmed(frequencies, mincodes) then 80 else 0
    ensures error == 0 ==>
              && CodeOk(c) && |c.lengths| == Trimmed(frequencies, mincodes) && Complete(c.lengths, maxbitlen)
              && MadeFor(c.lengths, frequencies[..|c.lengths|], maxbitlen)
              && forall s: nat :: Present(frequencies, s) ==> HasWord(Words(c), s)
  {
    var numcodes := TrimZeros(frequencies, mincodes);
    var lengths;
    error, lengths := HuffmanCodeLengths(frequencies[..numcodes], maxbitlen);
    c := Code([], []);
    if error == 0 {
      var tree1d := MakeCodes(lengths[..], maxbitlen);
      c := Code(lengths[..], tree1d[..]);
      forall s: nat | Present(frequencies, s) ensures HasWord(Words(c), s) {
        assert Present(frequencies[..numcodes], s);
        assert |Words(c)[s]| == c.lengths[s];
      }
    }
  }
}
