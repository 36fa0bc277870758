/** What the search for a match has to find: the longest repetition among the
    positions of a list, as far as the list is followed. */
module Matches {
  import opened Bits
  import opened HashChains
  import opened Lz77Codes

  datatype Match = Match(length: nat, offset: nat)

  /** The settings of the compressor that matter for LZ77. */
  datatype Lz77Settings = Lz77Settings(windowsize: nat, minmatch: nat, nicematch: nat, lazymatching: bool)

  function MaxChainLength(windowsize: nat): nat {
    if windowsize >= 8192 then windowsize else windowsize / 8
  }

  function MaxLazyMatch(windowsize: nat): nat {
    if windowsize >= 8192 then MAX_SUPPORTED_DEFLATE_LENGTH else 64
  }

  function NiceMatch(nicematch: nat): nat {
    if nicematch > MAX_SUPPORTED_DEFLATE_LENGTH then MAX_SUPPORTED_DEFLATE_LENGTH else nicematch
  }

  // ----- hash values

  const HASH_NUM_VALUES: nat := 65536

  /** getHash: a shift and xor hash of up to three bytes. */
  function GetHash(data: seq<byte>, size: nat, pos: nat): (h: nat)
    requires size <= |data|
    ensures h < HASH_NUM_VALUES
  {
    var result: bv32 :=
      if pos + 2 < size then
        (data[pos] as bv32) ^ ((data[pos + 1] as bv32) << 4) ^ ((data[pos + 2] as bv32) << 8)
      else if pos + 1 < size then
        (data[pos] as bv32) ^ ((data[pos + 1] as bv32) << 8)
      else if pos < size then data[pos] as bv32
      else 0;
    ((result & 65535) as bv16) as nat
  }

  /** Where the same three bytes lie the hash value is the same. */
  lemma SameBytesSameHash(data: seq<byte>, size: nat, p: nat, q: nat)
    requires p + 2 < size <= |data| && q + 2 < size
    requires data[p] == data[q] && data[p + 1] == data[q + 1] && data[p + 2] == data[q + 2]
    ensures GetHash(data, size, p) == GetHash(data, size, q)
  {
  }

  /** The second byte moves up by 4 bits and the third by 8, in front of the last two
      bytes the second one by 8. */
  lemma HashExamples()
    ensures GetHash([1, 2, 3], 3, 0) == 0x321 && GetHash([255, 255, 255], 3, 0) == 0xf00f
    ensures GetHash([1, 2, 3], 3, 1) == 0x302 && GetHash([1, 2, 3], 3, 2) == 3
    ensures GetHash([1, 2, 3], 2, 0) == 0x201 && GetHash([1, 2, 3], 3, 3) == 0
  {
  }

  // ----- streaks of zeros

  /** `z` zero bytes lie at `pos`, all of them before `end`. */
  ghost predicate ZeroRun(data: seq<byte>, end: nat, pos: nat, z: nat) {
    z > 0 ==>
      && pos + z <= end <= |data|
      && forall i :: pos <= i < pos + z ==> data[i] == 0
  }

  /** No further zero follows, as far as zeros are counted. */
  ghost predicate RunEnds(data: seq<byte>, end: nat, pos: nat, z: nat) {
    z >= MAX_SUPPORTED_DEFLATE_LENGTH || pos + z >= end || (pos + z < |data| && data[pos + z] != 0)
  }

  // ----- what is recorded about the positions entered so far

  /** The hash value and the streak of each position.  `forgotten` tells that the
      newest one is in no head at the moment. */
  datatype Trail = Trail(hashes: seq<nat>, streaks: seq<nat>, forgotten: bool)

  ghost predicate TrailOk(t: Trail, data: seq<byte>) {
    && |t.hashes| == |t.streaks| <= |data| && (t.forgotten ==> t.hashes != [])
    && forall q: nat {:trigger t.streaks[q]} :: q < |t.streaks| ==>
         ZeroRun(data, |data|, q, t.streaks[q]) && (t.streaks[q] > 0 ==> t.hashes[q] == 0)
  }

  function EnteredInto(t: Trail, hashval: nat, numzeros: nat): Trail {
    Trail(KeysEntered(t.hashes, hashval, t.forgotten), KeysEntered(t.streaks, numzeros, t.forgotten), false)
  }

  lemma TrailEntered(t: Trail, data: seq<byte>, hashval: nat, numzeros: nat)
    requires TrailOk(t, data) && |t.hashes| < |data| + if t.forgotten then 1 else 0
    requires ZeroRun(data, |data|, |t.hashes|, numzeros) || t.forgotten
    requires numzeros > 0 ==> hashval == 0
    ensures TrailOk(EnteredInto(t, hashval, numzeros), data)
  {
    hide ZeroRun;
    var t' := EnteredInto(t, hashval, numzeros);
    forall q: nat | q < |t'.streaks|
      ensures ZeroRun(data, |data|, q, t'.streaks[q]) && (t'.streaks[q] > 0 ==> t'.hashes[q] == 0)
    {
      if q < |t.streaks| { assert t'.streaks[q] == t.streaks[q]; }
    }
  }

  /** From `start` on the streaks are as long as the zeros before `end`. */
  ghost predicate StreaksEnd(hs: seq<nat>, ss: seq<nat>, data: seq<byte>, end: nat, start: nat)
    requires |hs| == |ss|
  {
    forall q: nat {:trigger ss[q]} :: start <= q < |ss| && hs[q] == 0 ==> RunEnds(data, end, q, ss[q])
  }

  /** What is recorded about the positions of a block is true of its data. */
  ghost predicate Recorded(hs: seq<nat>, ss: seq<nat>, data: seq<byte>, start: nat, insize: nat) {
    && insize <= |data| && |hs| == |ss|
    && (forall q: nat {:trigger hs[q]} :: start <= q < |hs| ==> hs[q] == GetHash(data, insize, q))
    && StreaksEnd(hs, ss, data, insize, start)
  }

  // ----- candidates for a match at the newest position

  /** The positions whose match counts: those in the window with the same hash
      value, and at a streak of zeros only those of this block. */
  ghost predicate Candidate(hs: seq<nat>, ss: seq<nat>, windowsize: nat, start: nat, r: nat)
    requires |hs| == |ss| && r + 1 < |hs|
  {
    && InWindow(r, |hs|, windowsize) && hs[r] == hs[|hs| - 1]
    && (ss[|ss| - 1] >= 3 ==> start <= r)
  }

  /** No repetition at this distance is longer. */
  ghost predicate AtMost(data: seq<byte>, pos: nat, insize: nat, offset: nat, length: nat) {
    forall n: nat :: n <= MAX_SUPPORTED_DEFLATE_LENGTH && pos + n <= insize && Repeats(data, pos, offset, n) ==>
      n <= length
  }

  /** No candidate behind `from` is longer. */
  ghost predicate Handled(hs: seq<nat>, ss: seq<nat>, data: seq<byte>, insize: nat, windowsize: nat, start: nat,
                          from: int, length: nat)
    requires |hs| == |ss|
  {
    forall r: nat {:trigger Candidate(hs, ss, windowsize, start, r)} ::
      from < r < |hs| - 1 && Candidate(hs, ss, windowsize, start, r) ==>
        AtMost(data, |hs| - 1, insize, |hs| - 1 - r, length)
  }

  /** A match that the encoder may use at `pos`. */
  ghost predicate IsMatch(data: seq<byte>, pos: nat, insize: nat, windowsize: nat, length: nat, offset: nat) {
    && length <= MAX_SUPPORTED_DEFLATE_LENGTH && pos + length <= insize <= |data|
    && (length > 0 ==> offset < windowsize && Repeats(data, pos, offset, length))
  }

  /** The search ends early with a match that is long enough, if all those that
      are left are farther away. */
  ghost predicate NiceBefore(hs: seq<nat>, nicematch: nat, length: nat, offset: nat, r: nat)
    requires r + 1 < |hs|
  {
    && length > 0 && length >= nicematch
    && offset < |hs| - 1 - r && hs[|hs| - 1 - offset] == hs[|hs| - 1]
  }

  /** No candidate with fewer than `max` nearer ones in its list is longer. */
  ghost predicate Longest(hs: seq<nat>, ss: seq<nat>, data: seq<byte>, insize: nat, windowsize: nat, start: nat,
                          max: nat, nicematch: nat, length: nat, offset: nat)
    requires |hs| == |ss|
  {
    forall r: nat {:trigger Candidate(hs, ss, windowsize, start, r)} ::
      r + 1 < |hs| && Candidate(hs, ss, windowsize, start, r) && Rank(hs, r) < max ==>
        || AtMost(data, |hs| - 1, insize, |hs| - 1 - r, length)
        || NiceBefore(hs, nicematch, length, offset, r)
  }

  /** What the search at the newest position finds: a match that cannot be made
      longer at its distance, that no candidate beats, and that no nearer one equals. */
  ghost predicate Found(hs: seq<nat>, ss: seq<nat>, data: seq<byte>, start: nat, insize: nat, settings: Lz77Settings,
                        m: Match)
    requires |hs| == |ss| > 0
  {
    && IsMatch(data, |hs| - 1, insize, settings.windowsize, m.length, m.offset)
    && (m.length > 0 ==>
          && AtMost(data, |hs| - 1, insize, m.offset, m.length)
          && Handled(hs, ss, data, insize, settings.windowsize, start, |hs| - 1 - m.offset, m.length - 1))
    && Longest(hs, ss, data, insize, settings.windowsize, start, MaxChainLength(settings.windowsize),
               NiceMatch(settings.nicematch), m.length, m.offset)
    && (MaxChainLength(settings.windowsize) == 0 ==> m.length == 0)
  }

  // ----- going through a list

  lemma AllAgree(data: seq<byte>, pos: nat, insize: nat, offset: nat, length: nat)
    requires 0 < offset <= pos && pos + length <= insize <= |data|
    requires length < MAX_SUPPORTED_DEFLATE_LENGTH && pos + length < insize ==>
               data[pos + length] != data[pos + length - offset]
    ensures AtMost(data, pos, insize, offset, length)
  {
  }

  lemma OneMoreHandled(hs: seq<nat>, ss: seq<nat>, data: seq<byte>, insize: nat, windowsize: nat, start: nat, q: nat,
                       length: nat, longer: nat)
    requires |hs| == |ss| && q + 1 < |hs| && Handled(hs, ss, data, insize, windowsize, start, q, length)
    requires AtMost(data, |hs| - 1, insize, |hs| - 1 - q, longer) && length <= longer
    ensures Handled(hs, ss, data, insize, windowsize, start, q - 1, longer)
  {
    hide Repeats, Candidate;
  }

  lemma StillHandled(hs: seq<nat>, ss: seq<nat>, data: seq<byte>, insize: nat, windowsize: nat, start: nat, from: int,
                     length: nat, longer: nat)
    requires |hs| == |ss| && Handled(hs, ss, data, insize, windowsize, start, from, length) && length <= longer
    ensures Handled(hs, ss, data, insize, windowsize, start, from, longer)
  {
    hide Repeats, Candidate;
  }

  /** Between a position and the one before it in its list there is no candidate. */
  lemma SkipOtherLists(hs: seq<nat>, ss: seq<nat>, data: seq<byte>, insize: nat, windowsize: nat, start: nat, q: nat,
                       length: nat)
    requires |hs| == |ss| && q < |hs| && hs[q] == hs[|hs| - 1]
    requires q < |hs| - 1 ==> Handled(hs, ss, data, insize, windowsize, start, q - 1, length)
    ensures Handled(hs, ss, data, insize, windowsize, start, PrevOf(hs, q), length)
  {
    hide AtMost;
  }

  /** A match that is longer than the streak starts with the same streak. */
  lemma SameStreak(data: seq<byte>, insize: nat, pos: nat, z: nat, r: nat, zr: nat, n: nat)
    requires insize <= |data| && r < pos && z > 0
    requires ZeroRun(data, |data|, pos, z) && RunEnds(data, insize, pos, z)
    requires ZeroRun(data, |data|, r, zr) && RunEnds(data, insize, r, zr)
    requires n <= MAX_SUPPORTED_DEFLATE_LENGTH && pos + n <= insize && Repeats(data, pos, pos - r, n) && n > z
    ensures zr == z
  {
    assert data[pos + z] != 0 && data[r + z] == data[pos + z];
    assert data[r + zr] == data[pos + zr];
  }

  /** So with a match longer than the streak only positions with the same streak
      can be better. */
  lemma SkipOtherStreaks(hs: seq<nat>, ss: seq<nat>, data: seq<byte>, insize: nat, windowsize: nat, start: nat, q: nat,
                         length: nat, forgotten: bool)
    requires TrailOk(Trail(hs, ss, forgotten), data) && insize <= |data| && q < |hs| - 1
    requires StreaksEnd(hs, ss, data, insize, start) && start < |hs|
    requires ss[|hs| - 1] >= 3 && length > ss[|hs| - 1] == ss[q]
    requires Handled(hs, ss, data, insize, windowsize, start, q - 1, length)
    ensures Handled(hs, ss, data, insize, windowsize, start, PrevOf(ss, q), length)
  {
    hide ZeroRun, RunEnds, Repeats;
    var p := |hs| - 1;
    forall r: nat | PrevOf(ss, q) < r < p && Candidate(hs, ss, windowsize, start, r)
      ensures AtMost(data, p, insize, p - r, length)
    {
      if r < q {
        var offset: nat := p - r;
        forall n: nat | n <= MAX_SUPPORTED_DEFLATE_LENGTH && p + n <= insize && Repeats(data, p, offset, n)
          ensures n <= length
        {
          if n > ss[p] { SameStreak(data, insize, p, ss[p], r, ss[r], n); }
        }
      } else {
        assert hs[r] == hs[p];
      }
    }
  }

  /** All candidates are inside the window. */
  lemma NoneLeft(hs: seq<nat>, ss: seq<nat>, data: seq<byte>, insize: nat, windowsize: nat, start: nat, from: int,
                 length: nat)
    requires |hs| == |ss| > 0 && Handled(hs, ss, data, insize, windowsize, start, from, length)
    requires from < |hs|
    requires from < 0 || !InWindow(from, |hs|, windowsize) || (ss[|ss| - 1] >= 3 && from < start)
    ensures Handled(hs, ss, data, insize, windowsize, start, -1, length)
  {
    hide AtMost;
  }
}
