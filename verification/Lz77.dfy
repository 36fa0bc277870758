/** The LZ77 encoder: circular hash chains, a second chain for runs of zeros,
    and lazy matching. */
module Lz77 {
  import opened Bits
  import opened HashChains
  import opened Lz77Codes
  import opened Lz77Steps
  import opened Matches
  import opened MatchSearch
  import opened Wrappers

  /** countZeros */
  method CountZeros(data: seq<byte>, size: nat, pos: nat) returns (z: nat)
    requires pos <= size <= |data|
    ensures z <= MAX_SUPPORTED_DEFLATE_LENGTH && ZeroRun(data, size, pos, z)
    ensures z < MAX_SUPPORTED_DEFLATE_LENGTH && pos + z < size ==> data[pos + z] != 0
  {
    var end := if pos + MAX_SUPPORTED_DEFLATE_LENGTH > size then size else pos + MAX_SUPPORTED_DEFLATE_LENGTH;
    var p := pos;
    while p != end && data[p] == 0
      invariant pos <= p <= end && forall i :: pos <= i < p ==> data[i] == 0
      decreases end - p
    {
      p := p + 1;
    }
    z := p - pos;
  }

  /** The streak of zeros at `pos`, found from the one at `before`, which is
      `pos` itself or the position in front of it. */
  method NextZeros(data: seq<byte>, insize: nat, pos: nat, hashval: nat, numzeros: nat, ghost before: nat)
    returns (z: nat)
    requires pos < insize <= |data| && before <= pos <= before + 1
    requires numzeros <= MAX_SUPPORTED_DEFLATE_LENGTH && ZeroRun(data, insize, before, numzeros)
    requires numzeros > 0 ==> RunEnds(data, insize, before, numzeros)
    ensures z <= MAX_SUPPORTED_DEFLATE_LENGTH && ZeroRun(data, insize, pos, z) && (z > 0 ==> hashval == 0)
    ensures hashval == 0 ==> RunEnds(data, insize, pos, z)
    ensures before == pos && (if hashval == 0 then RunEnds(data, insize, pos, numzeros) else numzeros == 0) ==>
              z == numzeros
  {
    z := numzeros;
    if hashval == 0 {
      if z == 0 {
        z := CountZeros(data, insize, pos);
      } else if pos + z > insize || data[pos + z - 1] != 0 {
        z := z - 1;
      }
    } else {
      z := 0;
    }
  }

  /** `z` zeros follow the last position entered, and no more in the block. */
  ghost predicate Streak(data: seq<byte>, insize: nat, written: nat, z: nat) {
    && z <= MAX_SUPPORTED_DEFLATE_LENGTH
    && (z > 0 ==> written > 0 && ZeroRun(data, insize, written - 1, z) && RunEnds(data, insize, written - 1, z))
  }

  lemma StreakAhead(data: seq<byte>, insize: nat, pos: nat, z: nat, last: nat)
    requires Streak(data, insize, pos + 1, z) && pos < insize <= |data|
    requires last == if insize < pos + MAX_SUPPORTED_DEFLATE_LENGTH then insize else pos + MAX_SUPPORTED_DEFLATE_LENGTH
    ensures ZeroRun(data, last, pos, z) && (RunEnds(data, insize, pos, z) || z == 0)
  {
  }

  /** The tables of the hash hold what has been entered. */
  ghost predicate TablesOk(t: Trail, data: seq<byte>, head: seq<int>, chain: seq<nat>, val: seq<int>, headz: seq<int>,
                           chainz: seq<nat>, zeros: seq<nat>, windowsize: nat) {
    && windowsize > 0 && TrailOk(t, data)
    && ListsOk(head, chain, t.hashes, windowsize, t.forgotten)
    && ListsOk(headz, chainz, t.streaks, windowsize, t.forgotten)
    && Records(val, t.hashes, windowsize) && Records(zeros, t.streaks, windowsize)
  }

  lemma TablesEntered(t: Trail, data: seq<byte>, head0: seq<int>, chain0: seq<nat>, val0: seq<int>, headz0: seq<int>,
                      chainz0: seq<nat>, zeros0: seq<nat>, head: seq<int>, chain: seq<nat>, headz: seq<int>,
                      chainz: seq<nat>, windowsize: nat, pos: nat, hashval: nat, numzeros: nat)
    requires TablesOk(t, data, head0, chain0, val0, headz0, chainz0, zeros0, windowsize)
    requires |t.hashes| == (if t.forgotten then pos + 1 else pos) && pos < |data|
    requires ZeroRun(data, |data|, pos, numzeros) && (numzeros > 0 ==> hashval == 0)
    requires t.forgotten ==> |t.streaks| == pos + 1 && t.hashes[pos] == hashval && t.streaks[pos] == numzeros
    requires IsEntered(head0, chain0, head, chain, hashval, Circular(pos, windowsize))
    requires IsEntered(headz0, chainz0, headz, chainz, numzeros, Circular(pos, windowsize))
    requires |val0| == |zeros0| == windowsize
    ensures TablesOk(EnteredInto(t, hashval, numzeros), data, head, chain, val0[Circular(pos, windowsize) := hashval],
                     headz, chainz, zeros0[Circular(pos, windowsize) := numzeros], windowsize)
  {
    hide ZeroRun, ListsOk, Records, IsEntered, Circular;
    assert |t.hashes| == |t.streaks|;
    TrailEntered(t, data, hashval, numzeros);
    hide TrailOk;
    ListEntered(head0, chain0, head, chain, t.hashes, hashval, windowsize, t.forgotten);
    ListEntered(headz0, chainz0, headz, chainz, t.streaks, numzeros, windowsize, t.forgotten);
    RecordEntered(val0, t.hashes, hashval, windowsize, t.forgotten);
    RecordEntered(zeros0, t.streaks, numzeros, windowsize, t.forgotten);
  }

  class Hash {
    const windowsize: nat
    const head: array<int>    // hash value to head circular pos, or -1
    const chain: array<nat>   // circular pos to previous circular pos
    const val: array<int>     // circular pos to hash value
    const headz: array<int>   // like head, but for chainz
    const chainz: array<nat>  // those with the same amount of zeros
    const zeros: array<nat>   // length of the zeros streak
    ghost var trail: Trail    // what was entered for each position so far

    ghost predicate Shape() {
      && windowsize > 0
      && head.Length == HASH_NUM_VALUES && headz.Length == MAX_SUPPORTED_DEFLATE_LENGTH + 1
      && chain.Length == val.Length == chainz.Length == zeros.Length == windowsize
      && head != val && head != headz && val != headz
      && chain != chainz && chain != zeros && chainz != zeros
    }

    ghost function Written(): nat
      reads this
    {
      |trail.hashes|
    }

    ghost predicate Entered(w: int)
      reads this
    {
      IsPlace(w, windowsize, Written())
    }

    /** The two lists of each position, by its hash value and by its streak of
        zeros, lead through all earlier positions of the window; the link of the
        first position of a list is outdated. */
    ghost predicate Valid(data: seq<byte>)
      reads this, head, chain, val, headz, chainz, zeros
    {
      Shape() && TablesOk(trail, data, head[..], chain[..], val[..], headz[..], chainz[..], zeros[..], windowsize)
    }

    /** Ready for position `pos`, which may have been entered already. */
    ghost predicate Ready(data: seq<byte>, pos: nat)
      reads this, head, chain, val, headz, chainz, zeros
    {
      Valid(data) && Written() == if trail.forgotten then pos + 1 else pos
    }

    /** hash_init; the zero streaks stay uninitialised. */
    constructor (windowsize: nat)
      ensures windowsize > 0 ==> forall data :: Ready(data, 0)
      ensures this.windowsize == windowsize && trail == Trail([], [], false)
      ensures fresh(head) && fresh(chain) && fresh(val) && fresh(headz) && fresh(chainz) && fresh(zeros)
    {
      this.windowsize := windowsize;
      head := new int[HASH_NUM_VALUES](_ => -1);
      val := new int[windowsize](_ => -1);
      chain := new nat[windowsize](i => i);
      headz := new int[MAX_SUPPORTED_DEFLATE_LENGTH + 1](_ => -1);
      chainz := new nat[windowsize](i => i);
      zeros := new nat[windowsize];
      trail := Trail([], [], false);
      new;
      hide ListsOk;
      if windowsize > 0 {
        NothingListed(head[..], chain[..], windowsize);
        NothingListed(headz[..], chainz[..], windowsize);
      }
    }

    /** updateHashChain for position `pos`, which may have been entered already,
        but then has been forgotten and is entered again as it was. */
    method UpdateHashChain(data: seq<byte>, pos: nat, hashval: nat, numzeros: nat)
      requires Ready(data, pos) && pos < |data|
      requires hashval < HASH_NUM_VALUES && numzeros <= MAX_SUPPORTED_DEFLATE_LENGTH
      requires ZeroRun(data, |data|, pos, numzeros) && (numzeros > 0 ==> hashval == 0)
      requires trail.forgotten ==> trail.hashes[pos] == hashval && trail.streaks[pos] == numzeros
      modifies this`trail, head, chain, val, headz, chainz, zeros
      ensures Valid(data) && trail == EnteredInto(old(trail), hashval, numzeros)
      ensures IsEntered(old(head[..]), old(chain[..]), head[..], chain[..], hashval, Circular(pos, windowsize))
      ensures IsEntered(old(headz[..]), old(chainz[..]), headz[..], chainz[..], numzeros, Circular(pos, windowsize))
      ensures val[..] == old(val[..])[Circular(pos, windowsize) := hashval]
      ensures zeros[..] == old(zeros[..])[Circular(pos, windowsize) := numzeros]
    {
      assert head[hashval] >= -1 && headz[numzeros] >= -1 && |trail.streaks| == |trail.hashes|
          by { HeadsAreSigned(data, hashval, numzeros); }
      hide ZeroRun, TablesOk;
      var wpos := Circular(pos, windowsize);
      ghost var heads, chains, vals := head[..], chain[..], val[..];
      ghost var headzs, chainzs, zeross := headz[..], chainz[..], zeros[..];
      val[wpos] := hashval;
      Enter(head, chain, hashval, wpos);
      zeros[wpos] := numzeros;
      Enter(headz, chainz, numzeros, wpos);
      TablesEntered(trail, data, heads, chains, vals, headzs, chainzs, zeross, head[..], chain[..], headz[..],
                    chainz[..], windowsize, pos, hashval, numzeros);
      trail := EnteredInto(trail, hashval, numzeros);
    }

    lemma HeadsAreSigned(data: seq<byte>, hashval: nat, numzeros: nat)
      requires Valid(data) && hashval < HASH_NUM_VALUES && numzeros <= MAX_SUPPORTED_DEFLATE_LENGTH
      ensures head[hashval] >= -1 && headz[numzeros] >= -1 && |trail.streaks| == |trail.hashes|
    {
      hide HeadsOk, LinksOk, Records;
      assert head[..][hashval] == head[hashval] && headz[..][numzeros] == headz[numzeros];
    }

    /** Undoes the entry of the last position in the heads, so that entering it
        once more changes no chain. */
    method ForgetHeads(data: seq<byte>, hashval: nat, numzeros: nat)
      requires Valid(data) && !trail.forgotten && trail.hashes != []
      requires hashval == trail.hashes[Written() - 1] && numzeros == trail.streaks[Written() - 1]
      modifies this`trail, head, headz
      ensures Valid(data) && trail == old(trail).(forgotten := true)
      ensures head[..] == old(head[..])[hashval := -1] && headz[..] == old(headz[..])[numzeros := -1]
    {
      hide HeadsOk, LinksOk, Linked, Records;
      ghost var heads, headzs := head[..], headz[..];
      head[hashval] := -1;
      headz[numzeros] := -1;
      trail := trail.(forgotten := true);
      hide ListsOk;
      Forgotten(heads, head[..], chain[..], trail.hashes, windowsize);
      Forgotten(headzs, headz[..], chainz[..], trail.streaks, windowsize);
    }

    /** What is recorded at an entered place belongs to the position that lies as
        far back as the place says. */
    lemma EntryAt(data: seq<byte>, pos: nat, h: nat)
      requires Valid(data) && Written() == pos + 1 && Entered(h)
      ensures var off := CurrentOffset(Circular(pos, windowsize), h, windowsize);
              && off < windowsize && off <= pos && ZeroRun(data, |data|, pos - off, zeros[h])
              && val[h] == trail.hashes[pos - off] && zeros[h] == trail.streaks[pos - off]
    {
      hide ListsOk, CurrentOffset, ZeroRun;
      OffsetIsDistance(pos, h, windowsize);
      var off := CurrentOffset(Circular(pos, windowsize), h, windowsize);
      assert trail.hashes[pos - off] == val[..][Circular(pos - off, windowsize)];
      assert trail.streaks[pos - off] == zeros[..][Circular(pos - off, windowsize)];
    }

    lemma LinksEntered(data: seq<byte>, h: nat)
      requires Valid(data) && Entered(h)
      ensures Entered(chain[h]) && Entered(chainz[h])
    {
      hide HeadsOk, LinksOk, Records;
      assert chain[..][h] == chain[h] && chainz[..][h] == chainz[h];
    }

    /** How many bytes agree at `pos` and `offset` before it, up to `last`; the
        zeros both are known to start with are skipped. */
    method MatchLength(data: seq<byte>, pos: nat, offset: nat, last: nat, numzeros: nat, zerosThere: nat)
      returns (length: nat)
      requires 0 < offset <= pos < last <= |data|
      requires ZeroRun(data, last, pos, numzeros) && ZeroRun(data, |data|, pos - offset, zerosThere)
      ensures pos + length <= last && Repeats(data, pos, offset, length)
      ensures pos + length < last ==> data[pos + length] != data[pos + length - offset]
    {
      var fore := pos;
      if numzeros >= 3 {
        var skip := if zerosThere > numzeros then numzeros else zerosThere;
        fore := fore + skip;
      }
      while fore != last && data[fore - offset] == data[fore]
        invariant pos <= fore <= last && Repeats(data, pos, offset, fore - pos)
        decreases last - fore
      {
        fore := fore + 1;
      }
      length := fore - pos;
    }

    /** The records of this search. */
    ghost function QueryAt(data: seq<byte>, insize: nat, start: nat): Query
      reads this
    {
      Query(trail.hashes, trail.streaks, data, insize, windowsize, start)
    }

    lemma RecordsAt(data: seq<byte>, q: nat)
      requires Valid(data) && InWindow(q, Written(), windowsize)
      ensures val[Circular(q, windowsize)] == trail.hashes[q] && zeros[Circular(q, windowsize)] == trail.streaks[q]
    {
      hide ListsOk, Circular, ZeroRun;
      assert val[..][Circular(q, windowsize)] == trail.hashes[q];
      assert zeros[..][Circular(q, windowsize)] == trail.streaks[q];
    }

    /** Everything is ready for the search at `pos`. */
    ghost predicate CanSearch(data: seq<byte>, pos: nat, insize: nat, u: Query, hashval: nat, numzeros: nat)
      reads this, head, chain, val, headz, chainz, zeros
    {
      && Valid(data) && !trail.forgotten && Written() == |trail.streaks| == pos + 1 && pos < insize <= |data|
      && QueryOk(u) && u == QueryAt(data, insize, u.start)
      && hashval == trail.hashes[pos] && numzeros == trail.streaks[pos] && Streak(data, insize, pos + 1, numzeros)
    }

    /** Compares what lies `currentOffset` back with the longest match so far. */
    method CompareAt(data: seq<byte>, pos: nat, insize: nat, numzeros: nat, hashpos: nat, currentOffset: nat,
                     length0: nat, offset0: nat, ghost u: Query, ghost live: bool, ghost q: nat, ghost prevOffset: nat,
                     ghost chainlength: nat, ghost hashval: nat)
      returns (length: nat, offset: nat)
      requires CanSearch(data, pos, insize, u, hashval, numzeros) && Entered(hashpos)
      requires currentOffset == CurrentOffset(Circular(pos, windowsize), hashpos, windowsize)
      requires Searching(u, live, q, hashpos, prevOffset, chainlength, length0)
      ensures Passed(u, live, q, hashpos, chainlength + 1, length)
      ensures (length, offset) == (length0, offset0)
              || (length > length0 && offset == currentOffset && 0 < offset < windowsize
                  && length <= MAX_SUPPORTED_DEFLATE_LENGTH && pos + length <= insize
                  && Repeats(data, pos, offset, length) && AtMost(data, pos, insize, offset, length)
                  && Behind(u, pos - offset, length - 1))
    {
      var last := if insize < pos + MAX_SUPPORTED_DEFLATE_LENGTH then insize else pos + MAX_SUPPORTED_DEFLATE_LENGTH;
      hide Repeats, TablesOk, ZeroRun, CurrentOffset, Circular, QueryOk, Searching, Passed, Behind, AtMost, RunEnds,
        Streak;
      StreakAhead(data, insize, pos, numzeros, last);
      length, offset := length0, offset0;
      FurtherOn(u, live, q, hashpos, prevOffset, chainlength, length);
      EntryAt(data, pos, hashpos);
      var currentLength := 0;
      if currentOffset > 0 {
        currentLength := MatchLength(data, pos, currentOffset, last, numzeros, zeros[hashpos]);
        AllAgree(data, pos, insize, currentOffset, currentLength);
      }
      Compared(u, live, q, hashpos, prevOffset, chainlength, length, currentLength,
               if currentLength > length then currentLength else length);
      if currentLength > length {
        NearestFound(u, live, q, hashpos, prevOffset, chainlength, length, currentLength, currentOffset);
        length, offset := currentLength, currentOffset;
      }
    }

    /** Follows a link; there is nothing more to find if it is of no use. */
    method NextPlace(data: seq<byte>, pos: nat, insize: nat, hashval: nat, numzeros: nat, hashpos0: nat, length: nat,
                     ghost u: Query, ghost live0: bool, ghost q0: nat, ghost prevOffset: nat, ghost chainlength: nat)
      returns (more: bool, hashpos: nat, ghost live: bool, ghost q: nat)
      requires CanSearch(data, pos, insize, u, hashval, numzeros) && Entered(hashpos0)
      requires Passed(u, live0, q0, hashpos0, chainlength, length) && (live0 ==> prevOffset == pos - q0)
      ensures more ==> Entered(hashpos) && Searching(u, live, q, hashpos, prevOffset, chainlength, length)
      ensures !more ==> Behind(u, -1, length)
    {
      hide Repeats, ListsOk, TrailOk, Records, Circular, QueryOk, Searching, Passed, Behind, Open, Streak;
      LinksEntered(data, hashpos0);
      more, hashpos, live, q := false, hashpos0, false, 0;
      if hashpos == chain[hashpos] {
        SelfLink(u, live0, q0, hashpos0, chainlength, length, head[..], chain[..]);
        return;
      }
      if numzeros >= 3 && length > numzeros {
        live, q := NextByStreak(u, live0, q0, hashpos0, prevOffset, chainlength, length, headz[..], chainz[..]);
        hashpos := chainz[hashpos];
        FurtherOn(u, live, q, hashpos, prevOffset, chainlength, length);
        if live { RecordsAt(data, q); }
        more := zeros[hashpos] == numzeros;
      } else {
        live, q := NextByHash(u, live0, q0, hashpos0, prevOffset, chainlength, length, head[..], chain[..]);
        hashpos := chain[hashpos];
        FurtherOn(u, live, q, hashpos, prevOffset, chainlength, length);
        if live { RecordsAt(data, q); }
        more := val[hashpos] == hashval; // otherwise the hash value is outdated
      }
    }

    /** The search loop of encodeLZ77 finds the best match among the positions of
        the list, as far as it may follow it. */
    method LongestMatch(data: seq<byte>, pos: nat, insize: nat, hashval: nat, numzeros: nat, nicematch: nat,
                        maxchainlength: nat, ghost u: Query)
      returns (length: nat, offset: nat)
      requires CanSearch(data, pos, insize, u, hashval, numzeros)
      ensures IsMatch(data, pos, insize, windowsize, length, offset)
      ensures length > 0 ==> AtMost(data, pos, insize, offset, length) && Behind(u, pos - offset, length - 1)
      ensures Ended(u, maxchainlength, nicematch, length, offset) && (maxchainlength == 0 ==> length == 0)
    {
      hide Repeats, ListsOk, TrailOk, Records, CurrentOffset, Circular, QueryOk, Searching, Passed, Behind, Ended, Open,
        AtMost, Streak;
      length, offset := 0, 0;
      var wpos := Circular(pos, windowsize);
      var hashpos := chain[wpos];
      LinksEntered(data, wpos);
      ghost var live, q := FirstPlace(u, head[..], chain[..]);
      var prevOffset := 0;
      var chainlength := 0;
      var more := true;
      while more && chainlength < maxchainlength
        invariant IsMatch(data, pos, insize, windowsize, length, offset) && (maxchainlength == 0 ==> length == 0)
        invariant length > 0 ==> AtMost(data, pos, insize, offset, length) && Behind(u, pos - offset, length - 1)
        invariant if more then Entered(hashpos) && Searching(u, live, q, hashpos, prevOffset, chainlength, length)
                  else Ended(u, maxchainlength, nicematch, length, offset)
        decreases maxchainlength - chainlength
      {
        chainlength := chainlength + 1;
        var currentOffset := CurrentOffset(wpos, hashpos, windowsize);
        FurtherOn(u, live, q, hashpos, prevOffset, chainlength - 1, length);
        if currentOffset < prevOffset {
          AllDone(u, maxchainlength, nicematch, length, offset);
          more := false; // went completely around the circular buffer
        } else {
          var before := length;
          length, offset := CompareAt(data, pos, insize, numzeros, hashpos, currentOffset, length, offset, u, live, q,
                                      prevOffset, chainlength - 1, hashval);
          prevOffset := currentOffset;
          if length > before && length >= nicematch {
            NiceEnough(u, live, q, hashpos, chainlength, maxchainlength, nicematch, length, offset);
            more := false;
          } else {
            more, hashpos, live, q := NextPlace(data, pos, insize, hashval, numzeros, hashpos, length, u, live, q,
                                                prevOffset, chainlength);
            if !more { AllDone(u, maxchainlength, nicematch, length, offset); }
          }
        }
      }
      if more {
        ChainTooLong(u, live, q, hashpos, prevOffset, chainlength, maxchainlength, nicematch, length, offset);
      }
    }
  }

  function WindowError(windowsize: nat): nat {
    if windowsize == 0 || windowsize > 32768 then 60
    else if !PowerOfTwo(windowsize) then 90
    else 0
  }

  /** The hash of a block: `from` is its first position. */
  ghost predicate InBlock(hash: Hash, data: seq<byte>, from: nat, insize: nat, pos: nat, numzeros: nat)
    reads hash, hash.head, hash.chain, hash.val, hash.headz, hash.chainz, hash.zeros
  {
    && hash.Ready(data, pos) && from <= pos <= insize <= |data|
    && Recorded(hash.trail.hashes, hash.trail.streaks, data, from, insize)
    && Streak(data, insize, hash.Written(), numzeros)
    && (hash.trail.forgotten ==> pos < insize && numzeros == hash.trail.streaks[pos])
  }

  /** The same positions, and perhaps more. */
  ghost predicate Continues(before: Trail, now: Trail) {
    before.hashes <= now.hashes && before.streaks <= now.streaks
  }

  /** Enters position `pos` into the chains. */
  method EnterPosition(hash: Hash, data: seq<byte>, ghost from: nat, pos: nat, insize: nat, numzeros: nat)
    returns (hashval: nat, z: nat)
    requires InBlock(hash, data, from, insize, pos, numzeros) && pos < insize
    modifies hash`trail, hash.head, hash.chain, hash.val, hash.headz, hash.chainz, hash.zeros
    ensures InBlock(hash, data, from, insize, pos + 1, z) && !hash.trail.forgotten
    ensures Continues(old(hash.trail), hash.trail)
    ensures from <= pos && |hash.trail.hashes| == |hash.trail.streaks| == pos + 1
    ensures hashval == hash.trail.hashes[pos] && z == hash.trail.streaks[pos]
  {
    hide ListsOk, Records, ZeroRun, RunEnds, GetHash;
    ghost var before := hash.trail;
    hashval := GetHash(data, insize, pos);
    z := NextZeros(data, insize, pos, hashval, numzeros, if hash.Written() > 0 then hash.Written() - 1 else 0);
    RunOfBlock(data, insize, pos, z);
    hash.UpdateHashChain(data, pos, hashval, z);
    StillRecorded(before, data, from, insize, pos, hashval, z);
  }

  lemma RunOfBlock(data: seq<byte>, insize: nat, pos: nat, z: nat)
    requires insize <= |data| && ZeroRun(data, insize, pos, z)
    ensures ZeroRun(data, |data|, pos, z)
  {
  }

  lemma StillRecorded(before: Trail, data: seq<byte>, from: nat, insize: nat, pos: nat, hashval: nat, z: nat)
    requires Recorded(before.hashes, before.streaks, data, from, insize)
    requires |before.hashes| == if before.forgotten then pos + 1 else pos
    requires hashval == GetHash(data, insize, pos) && (hashval == 0 ==> RunEnds(data, insize, pos, z))
    ensures var now := EnteredInto(before, hashval, z);
            Recorded(now.hashes, now.streaks, data, from, insize) && Continues(before, now)
  {
    hide GetHash, RunEnds;
    var now := EnteredInto(before, hashval, z);
    forall q: nat | from <= q < |now.hashes|
      ensures now.hashes[q] == GetHash(data, insize, q)
              && (now.hashes[q] == 0 ==> RunEnds(data, insize, q, now.streaks[q]))
    {
      if q < |before.hashes| { assert now.hashes[q] == before.hashes[q] && now.streaks[q] == before.streaks[q]; }
    }
  }

  /** The codes so far reproduce the data up to `pos`. */
  ghost predicate Reproduces(out: seq<nat>, data: seq<byte>, inpos: nat, pos: nat, windowsize: nat)
    requires inpos <= |data| && pos <= |data|
  {
    ExpandCodes(out, data[..inpos]) == Ok(data[..pos]) && WithinWindow(out, windowsize)
  }

  lemma NothingYet(data: seq<byte>, inpos: nat, windowsize: nat)
    requires inpos <= |data|
    ensures Reproduces([], data, inpos, inpos, windowsize)
  {
  }

  lemma PushLiteral(out: seq<nat>, data: seq<byte>, inpos: nat, pos: nat, windowsize: nat)
    requires inpos <= |data| && 0 < pos <= |data| && Reproduces(out, data, inpos, pos - 1, windowsize)
    ensures Reproduces(out + [data[pos - 1]], data, inpos, pos, windowsize)
  {
    AppendLiteral(out, data[..inpos], data, pos - 1, windowsize);
    assert pos - 1 + 1 == pos;
  }

  lemma PushPair(out: seq<nat>, data: seq<byte>, inpos: nat, pos: nat, windowsize: nat, pair: seq<nat>)
    requires |pair| == 4 && StartsWithPair(pair) && 3 <= PairLength(pair) <= MAX_SUPPORTED_DEFLATE_LENGTH
    requires PairDistance(pair) < windowsize && Repeats(data, pos, PairDistance(pair), PairLength(pair))
    requires inpos <= |data| && Reproduces(out, data, inpos, pos, windowsize) && pos + PairLength(pair) <= |data|
    ensures Reproduces(out + pair, data, inpos, pos + PairLength(pair), windowsize)
  {
    hide StartsWithPair, PairLength, PairDistance, Repeats;
    AppendPair(out, data[..inpos], data, pos, windowsize, pair);
  }

  /** The positions inside a match are entered too. */
  method EnterMatch(hash: Hash, data: seq<byte>, ghost from: nat, pos0: nat, insize: nat, length: nat, numzeros: nat)
    returns (pos: nat, z: nat)
    requires InBlock(hash, data, from, insize, pos0 + 1, numzeros) && length >= 3 && pos0 + length <= insize
    modifies hash`trail, hash.head, hash.chain, hash.val, hash.headz, hash.chainz, hash.zeros
    ensures InBlock(hash, data, from, insize, pos0 + length, z) && !hash.trail.forgotten && pos == pos0 + length - 1
    ensures Continues(old(hash.trail), hash.trail) && |hash.trail.hashes| == |hash.trail.streaks|
  {
    hide InBlock;
    pos, z := pos0, numzeros;
    for i := 1 to length
      invariant pos == pos0 + i - 1 && InBlock(hash, data, from, insize, pos + 1, z)
      invariant Continues(old(hash.trail), hash.trail) && (i > 1 ==> !hash.trail.forgotten)
    {
      pos := pos + 1;
      var _, z' := EnterPosition(hash, data, from, pos, insize, z);
      z := z';
    }
    SameLengths(hash, data, from, insize, pos + 1, z);
  }

  lemma SameLengths(hash: Hash, data: seq<byte>, from: nat, insize: nat, pos: nat, z: nat)
    requires InBlock(hash, data, from, insize, pos, z)
    ensures |hash.trail.hashes| == |hash.trail.streaks| && pos <= insize <= |data|
  {
  }

  lemma MatchIsBack(data: seq<byte>, pos: nat, insize: nat, windowsize: nat, length: nat, offset: nat)
    requires IsMatch(data, pos, insize, windowsize, length, offset) && length > 0
    ensures 0 < offset < windowsize
  {
  }

  method PushCodes(data: seq<byte>, inpos: nat, pos: nat, insize: nat, settings: Lz77Settings, out0: seq<nat>,
                   length: nat, offset: nat)
    returns (out: seq<nat>)
    requires inpos <= pos < insize <= |data| && settings.windowsize <= 32768
    requires Reproduces(out0, data, inpos, pos, settings.windowsize)
    requires IsMatch(data, pos, insize, settings.windowsize, length, offset)
    ensures pos + (if IsLiteral(length, offset, settings.minmatch) then 1 else length) <= |data|
    ensures Reproduces(out, data, inpos, pos + if IsLiteral(length, offset, settings.minmatch) then 1 else length,
                       settings.windowsize)
    ensures Pushed(out0, out, data, pos, length, offset, settings.minmatch)
  {
    hide StartsWithPair, PairLength, PairDistance, UsesLastCode, Repeats, Reproduces;
    if IsLiteral(length, offset, settings.minmatch) {
      PushLiteral(out0, data, inpos, pos + 1, settings.windowsize);
      out := out0 + [data[pos]];
    } else {
      assert offset > 0 by { MatchIsBack(data, pos, insize, settings.windowsize, length, offset); }
      var pair := LengthDistance(length, offset);
      PushPair(out0, data, inpos, pos, settings.windowsize, pair);
      out := out0 + pair;
      assert out[|out0|..] == pair;
    }
  }

  /** Encodes the byte or the match at `pos`. */
  method Emit(hash: Hash, data: seq<byte>, inpos: nat, pos0: nat, insize: nat, settings: Lz77Settings,
              out0: seq<nat>, length: nat, offset: nat, numzeros: nat)
    returns (out: seq<nat>, pos: nat, z: nat)
    requires InBlock(hash, data, inpos, insize, pos0 + 1, numzeros) && inpos <= pos0 && settings.windowsize <= 32768
    requires Reproduces(out0, data, inpos, pos0, settings.windowsize)
    requires IsMatch(data, pos0, insize, settings.windowsize, length, offset)
    modifies hash`trail, hash.head, hash.chain, hash.val, hash.headz, hash.chainz, hash.zeros
    ensures InBlock(hash, data, inpos, insize, pos, z) && Continues(old(hash.trail), hash.trail)
    ensures |hash.trail.hashes| == |hash.trail.streaks|
    ensures pos0 < pos <= insize && Reproduces(out, data, inpos, pos, settings.windowsize)
    ensures Pushed(out0, out, data, pos0, length, offset, settings.minmatch)
    ensures pos == pos0 + if IsLiteral(length, offset, settings.minmatch) then 1 else length
  {
    hide Reproduces, Pushed, IsMatch, InBlock;
    SameLengths(hash, data, inpos, insize, pos0 + 1, numzeros);
    pos, z := pos0, numzeros;
    out := PushCodes(data, inpos, pos, insize, settings, out0, length, offset);
    if !IsLiteral(length, offset, settings.minmatch) {
      MatchFits(data, pos, insize, settings.windowsize, length, offset);
      pos, z := EnterMatch(hash, data, inpos, pos, insize, length, z);
    }
    pos := pos + 1;
  }

  lemma MatchFits(data: seq<byte>, pos: nat, insize: nat, windowsize: nat, length: nat, offset: nat)
    requires IsMatch(data, pos, insize, windowsize, length, offset)
    ensures pos + length <= insize && (length > 0 ==> offset < windowsize)
  {
  }

  lemma SearchCanStart(hash: Hash, data: seq<byte>, from: nat, pos: nat, insize: nat, hashval: nat, z: nat)
    requires InBlock(hash, data, from, insize, pos + 1, z) && !hash.trail.forgotten && from <= pos < insize
    requires pos < hash.Written() && hashval == hash.trail.hashes[pos]
    requires pos < |hash.trail.streaks| && z == hash.trail.streaks[pos]
    ensures insize <= |data| && |hash.trail.hashes| == |hash.trail.streaks| == pos + 1
    ensures hash.CanSearch(data, pos, insize, hash.QueryAt(data, insize, from), hashval, z)
    ensures QueryOk(hash.QueryAt(data, insize, from))
  {
    hide ListsOk, Records, ZeroRun, GetHash, StreaksEnd, Streak;
  }

  lemma SearchHasFound(u: Query, settings: Lz77Settings, pos: nat, m: Match)
    requires QueryOk(u) && |u.hs| == pos + 1 && u.windowsize == settings.windowsize
    requires IsMatch(u.data, pos, u.insize, u.windowsize, m.length, m.offset)
    requires m.length > 0 ==>
               AtMost(u.data, pos, u.insize, m.offset, m.length) && Behind(u, pos - m.offset, m.length - 1)
    requires Ended(u, MaxChainLength(settings.windowsize), NiceMatch(settings.nicematch), m.length, m.offset)
    requires MaxChainLength(settings.windowsize) == 0 ==> m.length == 0
    ensures IsMatch(u.data, pos, u.insize, settings.windowsize, m.length, m.offset)
    ensures FoundAt(u.hs, u.ss, u.data, u.start, u.insize, settings, pos, m)
  {
    hide IsMatch, AtMost, Longest, TrailOk, StreaksEnd, Handled;
    assert u.hs[..pos + 1] == u.hs && u.ss[..pos + 1] == u.ss;
  }

  /** Enters a position and looks for a match there. */
  method Search(hash: Hash, data: seq<byte>, from: nat, pos: nat, insize: nat, numzeros: nat, nicematch: nat,
                maxchainlength: nat, ghost settings: Lz77Settings)
    returns (hashval: nat, z: nat, length: nat, offset: nat)
    requires InBlock(hash, data, from, insize, pos, numzeros) && pos < insize
    requires hash.windowsize == settings.windowsize && maxchainlength == MaxChainLength(settings.windowsize)
    requires nicematch == NiceMatch(settings.nicematch)
    modifies hash`trail, hash.head, hash.chain, hash.val, hash.headz, hash.chainz, hash.zeros
    ensures InBlock(hash, data, from, insize, pos + 1, z) && !hash.trail.forgotten
    ensures Continues(old(hash.trail), hash.trail)
    ensures |hash.trail.hashes| == |hash.trail.streaks| == pos + 1
    ensures hashval == hash.trail.hashes[pos] && z == hash.trail.streaks[pos]
    ensures FoundIn(hash.trail, data, from, insize, settings, pos, Match(length, offset))
  {
    hide InBlock, Hash.CanSearch, Found, IsMatch, AtMost, Ended, GetHash, Behind;
    hashval, z := EnterPosition(hash, data, from, pos, insize, numzeros);
    SearchCanStart(hash, data, from, pos, insize, hashval, z);
    ghost var u := hash.QueryAt(data, insize, from);
    length, offset := hash.LongestMatch(data, pos, insize, hashval, z, nicematch, maxchainlength, u);
    SearchHasFound(u, settings, pos, Match(length, offset));
  }

  /** The codes so far reproduce the data up to `pos` and follow from what the
      search has found. */
  ghost predicate Encoded(t: Trail, data: seq<byte>, inpos: nat, insize: nat, settings: Lz77Settings, out: seq<nat>,
                          steps: seq<Step>, pos: nat)
    requires inpos <= |data| && pos <= |data|
  {
    && Reproduces(out, data, inpos, pos, settings.windowsize)
    && Follows(steps, out, t.hashes, t.streaks, data, inpos, insize, settings, pos)
  }

  lemma EncodedStays(t: Trail, t': Trail, data: seq<byte>, inpos: nat, insize: nat, settings: Lz77Settings,
                     out: seq<nat>, steps: seq<Step>, pos: nat)
    requires inpos <= |data| && pos <= |data| && Encoded(t, data, inpos, insize, settings, out, steps, pos)
    requires Continues(t, t') && |t'.hashes| == |t'.streaks|
    ensures Encoded(t', data, inpos, insize, settings, out, steps, pos)
  {
    FollowsStays(steps, out, t.hashes, t.streaks, t'.hashes, t'.streaks, data, inpos, insize, settings, pos);
  }

  /** What the search has found at a position. */
  ghost predicate FoundIn(t: Trail, data: seq<byte>, inpos: nat, insize: nat, settings: Lz77Settings, pos: nat,
                          m: Match) {
    && IsMatch(data, pos, insize, settings.windowsize, m.length, m.offset)
    && FoundAt(t.hashes, t.streaks, data, inpos, insize, settings, pos, m)
  }

  lemma FoundInStays(t: Trail, t': Trail, data: seq<byte>, inpos: nat, insize: nat, settings: Lz77Settings, pos: nat,
                     m: Match)
    requires FoundIn(t, data, inpos, insize, settings, pos, m) && Continues(t, t') && |t'.hashes| == |t'.streaks|
    ensures FoundIn(t', data, inpos, insize, settings, pos, m)
  {
    FoundStays(t.hashes, t.streaks, t'.hashes, t'.streaks, data, inpos, insize, settings, pos, m);
  }

  lemma FoundInside(t: Trail, data: seq<byte>, inpos: nat, insize: nat, settings: Lz77Settings, pos: nat, m: Match)
    requires FoundIn(t, data, inpos, insize, settings, pos, m)
    ensures pos + m.length <= insize && (m.length > 0 ==> m.offset < settings.windowsize)
  {
  }

  /** Encodes the byte or the match at `pos0`, for a reason. */
  method TakeStep(hash: Hash, data: seq<byte>, inpos: nat, pos0: nat, insize: nat, settings: Lz77Settings,
                  out0: seq<nat>, length: nat, offset: nat, numzeros: nat, ghost steps0: seq<Step>, ghost next: Match)
    returns (out: seq<nat>, pos: nat, z: nat, ghost steps: seq<Step>)
    requires InBlock(hash, data, inpos, insize, pos0 + 1, numzeros) && inpos <= pos0 && settings.windowsize <= 32768
    requires pos0 <= |data| && Encoded(hash.trail, data, inpos, insize, settings, out0, steps0, pos0)
    requires FoundIn(hash.trail, data, inpos, insize, settings, pos0, Match(length, offset))
    requires IsReason(StepFor(|out0|, pos0, Match(length, offset), next, settings.minmatch),
                      AfterDeferred(steps0, |steps0|), hash.trail.hashes, hash.trail.streaks, data, inpos, insize,
                      settings)
    requires AfterDeferred(steps0, |steps0|) ==> Match(length, offset) == steps0[|steps0| - 1].next
    modifies hash`trail, hash.head, hash.chain, hash.val, hash.headz, hash.chainz, hash.zeros
    ensures InBlock(hash, data, inpos, insize, pos, z) && Continues(old(hash.trail), hash.trail)
    ensures pos0 < pos <= insize && Encoded(hash.trail, data, inpos, insize, settings, out, steps, pos)
    ensures !AfterDeferred(steps, |steps|)
  {
    assert pos0 + 1 <= insize <= |data|;
    hide Pushed, Repeats, Reproduces, IsMatch, InBlock, Follows, IsReason, IsLiteral;
    ghost var hs, ss := hash.trail.hashes, hash.trail.streaks;
    ghost var s := StepFor(|out0|, pos0, Match(length, offset), next, settings.minmatch);
    out, pos, z := Emit(hash, data, inpos, pos0, insize, settings, out0, length, offset, numzeros);
    StepTaken(steps0, out0, out, hs, ss, data, inpos, insize, settings, s, next);
    steps := steps0 + [s];
    FollowsStays(steps, out, hs, ss, hash.trail.hashes, hash.trail.streaks, data, inpos, insize, settings, pos);
  }

  /** Compares the match at `pos0` with that of the position before it, and goes
      back unless it is longer by at least two. */
  method JudgeLazy(hash: Hash, data: seq<byte>, inpos: nat, pos0: nat, insize: nat, settings: Lz77Settings,
                   out0: seq<nat>, before: Match, here: Match, hashval: nat, numzeros: nat, ghost steps0: seq<Step>)
    returns (out: seq<nat>, pos: nat, m: Match, ghost steps: seq<Step>, ghost next: Match)
    requires InBlock(hash, data, inpos, insize, pos0 + 1, numzeros) && !hash.trail.forgotten && inpos < pos0 < insize
    requires hash.Written() == |hash.trail.streaks| == pos0 + 1
    requires hashval == hash.trail.hashes[pos0] && numzeros == hash.trail.streaks[pos0]
    requires Lazy(settings, before.length) && insize <= |data|
    requires FoundIn(hash.trail, data, inpos, insize, settings, pos0 - 1, before)
    requires FoundIn(hash.trail, data, inpos, insize, settings, pos0, here)
    requires Encoded(hash.trail, data, inpos, insize, settings, out0, steps0, pos0 - 1)
    requires !AfterDeferred(steps0, |steps0|)
    modifies hash`trail, hash.head, hash.headz
    ensures pos0 - 1 <= pos <= pos0 && InBlock(hash, data, inpos, insize, pos + 1, numzeros)
    ensures Continues(old(hash.trail), hash.trail)
    ensures Encoded(hash.trail, data, inpos, insize, settings, out, steps, pos)
    ensures FoundIn(hash.trail, data, inpos, insize, settings, pos, m)
    ensures IsReason(StepFor(|out|, pos, m, next, settings.minmatch), AfterDeferred(steps, |steps|), hash.trail.hashes,
                     hash.trail.streaks, data, inpos, insize, settings)
    ensures AfterDeferred(steps, |steps|) ==> m == steps[|steps| - 1].next
  {
    hide Reproduces, Streak, IsMatch, TablesOk, Follows, FoundAt, Recorded;
    ghost var hs, ss := hash.trail.hashes, hash.trail.streaks;
    out, pos, m, steps, next := out0, pos0, here, steps0, here;
    if here.length > before.length + 1 {
      // push the previous character as literal
      ghost var s := Deferred(|out|, pos - 1, before, here);
      ByteDeferred(steps, out, hs, ss, data, inpos, insize, settings, s);
      PushLiteral(out, data, inpos, pos, settings.windowsize);
      out, steps := out + [data[pos - 1]], steps + [s];
    } else {
      m := before;
      hash.ForgetHeads(data, hashval, numzeros);
      pos := pos - 1;
    }
  }

  lemma BlockStarts(hash: Hash, data: seq<byte>, inpos: nat, insize: nat, settings: Lz77Settings)
    requires hash.Ready(data, inpos) && !hash.trail.forgotten && inpos <= insize <= |data|
    ensures InBlock(hash, data, inpos, insize, inpos, 0)
    ensures Encoded(hash.trail, data, inpos, insize, settings, [], [], inpos)
  {
    hide ListsOk, Records, ZeroRun, Reproduces, Follows;
    NothingYet(data, inpos, settings.windowsize);
    NoSteps(hash.trail.hashes, hash.trail.streaks, data, inpos, insize, settings);
  }

  /** A match that is not compared with the next one is used if it is worth it. */
  lemma ReasonAtOnce(t: Trail, data: seq<byte>, inpos: nat, insize: nat, settings: Lz77Settings, at: nat, pos: nat,
                     m: Match, next: Match)
    requires FoundIn(t, data, inpos, insize, settings, pos, m) && !Lazy(settings, m.length)
    ensures IsReason(StepFor(at, pos, m, next, settings.minmatch), false, t.hashes, t.streaks, data, inpos, insize,
                     settings)
  {
  }

  /** Between two positions: `m` is the match of the last position if it waits to
      be compared. */
  ghost predicate LoopOk(hash: Hash, data: seq<byte>, inpos: nat, insize: nat, settings: Lz77Settings, pos: nat,
                         numzeros: nat, lazy: bool, m: Match, out: seq<nat>, steps: seq<Step>)
    requires insize <= |data|
    reads hash, hash.head, hash.chain, hash.val, hash.headz, hash.chainz, hash.zeros
  {
    && hash.windowsize == settings.windowsize && settings.windowsize <= 32768
    && inpos <= pos <= insize && InBlock(hash, data, inpos, insize, pos, numzeros)
    && (lazy ==> !hash.trail.forgotten && inpos < pos < insize && Lazy(settings, m.length)
                 && FoundIn(hash.trail, data, inpos, insize, settings, pos - 1, m))
    && Encoded(hash.trail, data, inpos, insize, settings, out, steps, if lazy then pos - 1 else pos)
    && !AfterDeferred(steps, |steps|)
  }

  /** One pass through the loop over the positions of the block. */
  method EncodePosition(hash: Hash, data: seq<byte>, inpos: nat, pos0: nat, insize: nat, settings: Lz77Settings,
                        nicematch: nat, maxchainlength: nat, maxlazymatch: nat, numzeros0: nat, lazy0: bool,
                        lazymatch0: Match, out0: seq<nat>, ghost steps0: seq<Step>)
    returns (out: seq<nat>, pos: nat, numzeros: nat, lazy: bool, lazymatch: Match, ghost steps: seq<Step>)
    requires insize <= |data| && pos0 < insize
    requires LoopOk(hash, data, inpos, insize, settings, pos0, numzeros0, lazy0, lazymatch0, out0, steps0)
    requires nicematch == NiceMatch(settings.nicematch) && maxchainlength == MaxChainLength(settings.windowsize)
    requires maxlazymatch == MaxLazyMatch(settings.windowsize)
    modifies hash`trail, hash.head, hash.chain, hash.val, hash.headz, hash.chainz, hash.zeros
    ensures LoopOk(hash, data, inpos, insize, settings, pos, numzeros, lazy, lazymatch, out, steps)
    ensures 2 * pos - (if lazy then 1 else 0) > 2 * pos0 - if lazy0 then 1 else 0
  {
    hide Encoded, FoundIn, IsReason, IsMatch, InBlock, StepFor, IsLiteral, MaxChainLength, MaxLazyMatch, NiceMatch;
    ghost var before := hash.trail;
    out, pos, lazy, lazymatch, steps := out0, pos0, lazy0, lazymatch0, steps0;
    var hashval, length, offset;
    hashval, numzeros, length, offset := Search(hash, data, inpos, pos, insize, numzeros0, nicematch, maxchainlength,
                                                settings);
    ghost var next := Match(0, 0);
    EncodedStays(before, hash.trail, data, inpos, insize, settings, out, steps, if lazy then pos - 1 else pos);

    if settings.lazymatching && !lazy && length >= 3 && length <= maxlazymatch
       && length < MAX_SUPPORTED_DEFLATE_LENGTH {
      FoundInside(hash.trail, data, inpos, insize, settings, pos, Match(length, offset));
      lazy, lazymatch := true, Match(length, offset);
      pos := pos + 1;
      return; // try the next byte
    }
    if settings.lazymatching && lazy {
      lazy := false;
      if pos == 0 { assert false; } // error 81
      FoundInStays(before, hash.trail, data, inpos, insize, settings, pos - 1, lazymatch);
      var m;
      out, pos, m, steps, next := JudgeLazy(hash, data, inpos, pos, insize, settings, out, lazymatch,
                                            Match(length, offset), hashval, numzeros, steps);
      length, offset := m.length, m.offset;
    } else {
      ReasonAtOnce(hash.trail, data, inpos, insize, settings, |out|, pos, Match(length, offset), next);
    }
    FoundInside(hash.trail, data, inpos, insize, settings, pos, Match(length, offset));
    if length >= 3 && offset > settings.windowsize { assert false; } // error 86
    out, pos, numzeros, steps :=
      TakeStep(hash, data, inpos, pos, insize, settings, out, length, offset, numzeros, steps, next);
  }

  /** The loop over the positions of the block. */
  method EncodePositions(hash: Hash, data: seq<byte>, inpos: nat, insize: nat, settings: Lz77Settings)
    returns (out: seq<nat>, ghost steps: seq<Step>)
    requires inpos <= insize <= |data| && hash.windowsize == settings.windowsize && 0 < settings.windowsize <= 32768
    requires hash.Ready(data, inpos) && !hash.trail.forgotten
    modifies hash`trail, hash.head, hash.chain, hash.val, hash.headz, hash.chainz, hash.zeros
    ensures hash.Ready(data, insize) && !hash.trail.forgotten
    ensures Recorded(hash.trail.hashes, hash.trail.streaks, data, inpos, insize)
    ensures Encoded(hash.trail, data, inpos, insize, settings, out, steps, insize)
  {
    BlockStarts(hash, data, inpos, insize, settings);
    hide Encoded, InBlock, Hash.Ready, Recorded, FoundIn;
    out, steps := [], [];
    var windowsize := settings.windowsize;
    var maxchainlength := if windowsize >= 8192 then windowsize else windowsize / 8;
    var maxlazymatch := if windowsize >= 8192 then MAX_SUPPORTED_DEFLATE_LENGTH else 64;
    var nicematch := if settings.nicematch > MAX_SUPPORTED_DEFLATE_LENGTH then MAX_SUPPORTED_DEFLATE_LENGTH
                     else settings.nicematch;
    var numzeros: nat := 0;
    var lazy, lazymatch := false, Match(0, 0);
    var pos := inpos;
    while pos < insize
      invariant inpos <= pos <= insize
      invariant LoopOk(hash, data, inpos, insize, settings, pos, numzeros, lazy, lazymatch, out, steps)
      decreases 2 * (insize - pos) + if lazy then 1 else 0
    {
      out, pos, numzeros, lazy, lazymatch, steps :=
        EncodePosition(hash, data, inpos, pos, insize, settings, nicematch, maxchainlength, maxlazymatch, numzeros,
                       lazy, lazymatch, out, steps);
    }
    BlockEnds(hash, data, inpos, insize, numzeros);
  }

  lemma BlockEnds(hash: Hash, data: seq<byte>, inpos: nat, insize: nat, numzeros: nat)
    requires InBlock(hash, data, inpos, insize, insize, numzeros)
    ensures hash.Ready(data, insize) && !hash.trail.forgotten
    ensures Recorded(hash.trail.hashes, hash.trail.streaks, data, inpos, insize)
  {
  }

  /** encodeLZ77: the codes reproduce the block data[inpos..insize] after the
      data in front of it, and follow from what the search finds.  Errors 81 and
      86 never happen. */
  method EncodeLZ77(hash: Hash, data: seq<byte>, inpos: nat, insize: nat, settings: Lz77Settings)
    returns (error: nat, out: seq<nat>)
    requires inpos <= insize <= |data|
    requires hash.windowsize == settings.windowsize
    requires settings.windowsize > 0 ==> hash.Ready(data, inpos) && !hash.trail.forgotten
    modifies hash`trail, hash.head, hash.chain, hash.val, hash.headz, hash.chainz, hash.zeros
    ensures error == WindowError(settings.windowsize)
    ensures error == 0 ==>
              && hash.Ready(data, insize) && !hash.trail.forgotten
              && Reproduces(out, data, inpos, insize, settings.windowsize)
              && Recorded(hash.trail.hashes, hash.trail.streaks, data, inpos, insize)
              && FollowsSearch(out, hash.trail.hashes, hash.trail.streaks, data, inpos, insize, settings)
  {
    hide Reproduces, PowerOfTwo, Hash.Valid, Recorded, Follows;
    out := [];
    if settings.windowsize == 0 || settings.windowsize > 32768 { return 60, out; }
    if !PowerOfTwo(settings.windowsize) { return 90, out; }
    error := 0;
    ghost var steps;
    out, steps := EncodePositions(hash, data, inpos, insize, settings);
  }
}
