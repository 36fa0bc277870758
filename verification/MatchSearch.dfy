/** The search for a match goes through the list of a hash value, or through that
    of a streak of zeros once the match is longer than the streak, and misses no
    position that could be better. */
module MatchSearch {
  import opened Bits
  import opened HashChains
  import opened Lz77Codes
  import opened Matches

  /** A search at the newest of the recorded positions. */
  datatype Query = Query(hs: seq<nat>, ss: seq<nat>, data: seq<byte>, insize: nat, windowsize: nat, start: nat)

  ghost predicate QueryOk(u: Query) {
    && u.windowsize > 0 && |u.hs| == |u.ss| > 0 && u.start < |u.hs| && u.insize <= |u.data|
    && TrailOk(Trail(u.hs, u.ss, false), u.data) && StreaksEnd(u.hs, u.ss, u.data, u.insize, u.start)
  }

  ghost predicate Behind(u: Query, from: int, length: nat)
    requires QueryOk(u)
  {
    Handled(u.hs, u.ss, u.data, u.insize, u.windowsize, u.start, from, length)
  }

  /** Position `q` belongs to the list and can be better than all behind it. */
  ghost predicate Open(u: Query, q: nat)
    requires QueryOk(u)
  {
    q + 1 < |u.hs| && Candidate(u.hs, u.ss, u.windowsize, u.start, q)
  }

  /** In front of place `hashpos`: if `live` it is that of position `q`, and all
      candidates behind `q` have been dealt with; otherwise all candidates have. */
  ghost predicate Searching(u: Query, live: bool, q: nat, hashpos: nat, prevOffset: nat, chainlength: nat, length: nat)
    requires QueryOk(u)
  {
    if live then
      && Open(u, q) && hashpos == Circular(q, u.windowsize) && prevOffset < |u.hs| - 1 - q
      && chainlength <= Rank(u.hs, q) && Behind(u, q, length)
      && (length > u.ss[|u.ss| - 1] >= 3 ==> u.ss[q] == u.ss[|u.ss| - 1])
    else Behind(u, -1, length)
  }

  /** The same when `q` has been dealt with too. */
  ghost predicate Passed(u: Query, live: bool, q: nat, hashpos: nat, chainlength: nat, length: nat)
    requires QueryOk(u)
  {
    if live then
      && Open(u, q) && hashpos == Circular(q, u.windowsize)
      && chainlength <= Rank(u.hs, q) + 1 && Behind(u, q - 1, length)
      && (length > u.ss[|u.ss| - 1] >= 3 ==> u.ss[q] == u.ss[|u.ss| - 1])
    else Behind(u, -1, length)
  }

  /** What the search comes to. */
  ghost predicate Ended(u: Query, max: nat, nicematch: nat, length: nat, offset: nat)
    requires QueryOk(u)
  {
    Longest(u.hs, u.ss, u.data, u.insize, u.windowsize, u.start, max, nicematch, length, offset)
  }

  lemma AllDone(u: Query, max: nat, nicematch: nat, length: nat, offset: nat)
    requires QueryOk(u) && Behind(u, -1, length)
    ensures Ended(u, max, nicematch, length, offset)
  {
    hide QueryOk, Candidate, AtMost;
  }

  /** The list is as long as it may be. */
  lemma ChainTooLong(u: Query, live: bool, q: nat, hashpos: nat, prevOffset: nat, chainlength: nat, max: nat,
                     nicematch: nat, length: nat, offset: nat)
    requires QueryOk(u) && Searching(u, live, q, hashpos, prevOffset, chainlength, length) && chainlength >= max
    ensures Ended(u, max, nicematch, length, offset)
  {
    hide Candidate, AtMost, Rank;
    if live {
      forall r: nat | r + 1 < |u.hs| && Candidate(u.hs, u.ss, u.windowsize, u.start, r) && Rank(u.hs, r) < max
        ensures AtMost(u.data, |u.hs| - 1, u.insize, |u.hs| - 1 - r, length)
      {
        if r < q { RankGrows(u.hs, r, q); }
      }
    } else {
      AllDone(u, max, nicematch, length, offset);
    }
  }

  /** The match just found is long enough. */
  lemma NiceEnough(u: Query, live: bool, q: nat, hashpos: nat, chainlength: nat, max: nat, nicematch: nat, length: nat,
                   offset: nat)
    requires QueryOk(u) && Passed(u, live, q, hashpos, chainlength, length)
    requires live ==> length > 0 && length >= nicematch && offset == |u.hs| - 1 - q
    ensures Ended(u, max, nicematch, length, offset)
  {
    hide AtMost;
    if !live { AllDone(u, max, nicematch, length, offset); }
  }

  /** The first place. */
  lemma FirstPlace(u: Query, head: seq<int>, chain: seq<nat>) returns (live: bool, q: nat)
    requires QueryOk(u) && ListsOk(head, chain, u.hs, u.windowsize, false)
    ensures |chain| == u.windowsize
    ensures Searching(u, live, q, chain[Circular(|u.hs| - 1, u.windowsize)], 0, 0, 0)
  {
    var p := |u.hs| - 1;
    SkipOtherLists(u.hs, u.ss, u.data, u.insize, u.windowsize, u.start, p, 0);
    FollowLink(head, chain, u.hs, u.windowsize, false, p);
    live, q := NextOne(u, PrevOf(u.hs, p), 0);
  }

  /** Whether there is a next position. */
  lemma NextOne(u: Query, r: int, length: nat) returns (live: bool, q: nat)
    requires QueryOk(u) && r < |u.hs| - 1 && Behind(u, r, length)
    requires r >= 0 ==> u.hs[r] == u.hs[|u.hs| - 1]
    ensures live ==> q == r && Open(u, q)
    ensures !live ==> Behind(u, -1, length)
  {
    live, q := false, 0;
    if r >= 0 && InWindow(r, |u.hs|, u.windowsize) && (u.ss[|u.ss| - 1] >= 3 ==> u.start <= r) {
      live, q := true, r;
    } else {
      NoneLeft(u.hs, u.ss, u.data, u.insize, u.windowsize, u.start, r, length);
    }
  }

  /** A live search never meets a nearer position again. */
  lemma FurtherOn(u: Query, live: bool, q: nat, hashpos: nat, prevOffset: nat, chainlength: nat, length: nat)
    requires QueryOk(u) && Searching(u, live, q, hashpos, prevOffset, chainlength, length) && hashpos < u.windowsize
    ensures live ==> q + 1 < |u.hs| && InWindow(q, |u.hs|, u.windowsize) && hashpos == Circular(q, u.windowsize)
    ensures live ==> u.hs[q] == u.hs[|u.hs| - 1]
    ensures live ==> CurrentOffset(Circular(|u.hs| - 1, u.windowsize), hashpos, u.windowsize) == |u.hs| - 1 - q
                     && prevOffset < |u.hs| - 1 - q
    ensures !live ==> Behind(u, -1, length)
  {
    hide Behind, Circular, CurrentOffset;
    if live { DistanceIsOffset(|u.hs| - 1, q, u.windowsize); }
  }

  /** The match at `q` has been compared. */
  lemma Compared(u: Query, live: bool, q: nat, hashpos: nat, prevOffset: nat, chainlength: nat, length: nat,
                 currentLength: nat, longer: nat)
    requires QueryOk(u) && Searching(u, live, q, hashpos, prevOffset, chainlength, length)
    requires live ==> AtMost(u.data, |u.hs| - 1, u.insize, |u.hs| - 1 - q, currentLength)
    requires live ==> Repeats(u.data, |u.hs| - 1, |u.hs| - 1 - q, currentLength)
    requires currentLength <= MAX_SUPPORTED_DEFLATE_LENGTH && |u.hs| - 1 + currentLength <= u.insize
    requires RunEnds(u.data, u.insize, |u.hs| - 1, u.ss[|u.ss| - 1]) || u.ss[|u.ss| - 1] == 0
    requires longer == if currentLength > length then currentLength else length
    ensures Passed(u, live, q, hashpos, chainlength + 1, longer)
  {
    var p := |u.hs| - 1;
    if live {
      AtMostMore(u.data, p, u.insize, p - q, currentLength, longer);
      OneMoreHandled(u.hs, u.ss, u.data, u.insize, u.windowsize, u.start, q, length, longer);
      if longer > u.ss[p] >= 3 && length <= u.ss[p] {
        assert u.hs[p] == 0;
        SameStreak(u.data, u.insize, p, u.ss[p], q, u.ss[q], currentLength);
      }
    } else {
      StillHandled(u.hs, u.ss, u.data, u.insize, u.windowsize, u.start, -1, length, longer);
    }
  }

  /** A match that is longer than all before is the nearest of its length. */
  lemma NearestFound(u: Query, live: bool, q: nat, hashpos: nat, prevOffset: nat, chainlength: nat, length: nat,
                     longer: nat, offset: nat)
    requires QueryOk(u) && Searching(u, live, q, hashpos, prevOffset, chainlength, length)
    requires longer > length && 0 < offset < |u.hs| && (live ==> offset == |u.hs| - 1 - q)
    ensures Behind(u, |u.hs| - 1 - offset, longer - 1)
  {
    hide AtMost, Candidate;
    StillHandled(u.hs, u.ss, u.data, u.insize, u.windowsize, u.start, if live then q else -1, length, longer - 1);
  }

  lemma AtMostMore(data: seq<byte>, pos: nat, insize: nat, offset: nat, length: nat, longer: nat)
    requires AtMost(data, pos, insize, offset, length) && length <= longer
    ensures AtMost(data, pos, insize, offset, longer)
  {
  }

  /** Along the list of the hash value. */
  lemma NextByHash(u: Query, live: bool, q: nat, hashpos: nat, prevOffset: nat, chainlength: nat, length: nat,
                   head: seq<int>, chain: seq<nat>) returns (live': bool, q': nat)
    requires QueryOk(u) && Passed(u, live, q, hashpos, chainlength, length) && hashpos < u.windowsize
    requires ListsOk(head, chain, u.hs, u.windowsize, false) && !(length > u.ss[|u.ss| - 1] >= 3)
    requires live ==> prevOffset == |u.hs| - 1 - q
    ensures |chain| == u.windowsize
    ensures live' ==> live && chain[hashpos] != hashpos && chain[hashpos] == Circular(q', u.windowsize)
    ensures Searching(u, live', q', chain[hashpos], prevOffset, chainlength, length)
  {
    live', q' := false, 0;
    if live {
      SkipOtherLists(u.hs, u.ss, u.data, u.insize, u.windowsize, u.start, q, length);
      FollowLink(head, chain, u.hs, u.windowsize, false, q);
      live', q' := NextOne(u, PrevOf(u.hs, q), length);
      if live' { RankGrows(u.hs, q', q); }
    }
  }

  /** Along the list of the streak. */
  lemma NextByStreak(u: Query, live: bool, q: nat, hashpos: nat, prevOffset: nat, chainlength: nat, length: nat,
                     headz: seq<int>, chainz: seq<nat>) returns (live': bool, q': nat)
    requires QueryOk(u) && Passed(u, live, q, hashpos, chainlength, length) && hashpos < u.windowsize
    requires ListsOk(headz, chainz, u.ss, u.windowsize, false) && length > u.ss[|u.ss| - 1] >= 3
    requires live ==> prevOffset == |u.hs| - 1 - q
    ensures |chainz| == u.windowsize
    ensures live' ==> live && chainz[hashpos] == Circular(q', u.windowsize)
    ensures live' ==> q' < |u.ss| && u.ss[q'] == u.ss[|u.ss| - 1]
    ensures Searching(u, live', q', chainz[hashpos], prevOffset, chainlength, length)
  {
    live', q' := false, 0;
    if live {
      SkipOtherStreaks(u.hs, u.ss, u.data, u.insize, u.windowsize, u.start, q, length, false);
      FollowLink(headz, chainz, u.ss, u.windowsize, false, q);
      var r := PrevOf(u.ss, q);
      if r >= 0 { assert u.ss[r] > 0 && u.ss[|u.ss| - 1] > 0; }
      live', q' := NextOne(u, r, length);
      if live' { RankGrows(u.hs, q', q); }
    }
  }

  /** The link of a position leads to itself only when the list ends there. */
  lemma SelfLink(u: Query, live: bool, q: nat, hashpos: nat, chainlength: nat, length: nat, head: seq<int>,
                 chain: seq<nat>)
    requires QueryOk(u) && Passed(u, live, q, hashpos, chainlength, length) && hashpos < u.windowsize
    requires ListsOk(head, chain, u.hs, u.windowsize, false) && chain[hashpos] == hashpos
    ensures Behind(u, -1, length)
  {
    if live {
      SkipOtherLists(u.hs, u.ss, u.data, u.insize, u.windowsize, u.start, q, length);
      FollowLink(head, chain, u.hs, u.windowsize, false, q);
      var live', q' := NextOne(u, PrevOf(u.hs, q), length);
    }
  }
}
