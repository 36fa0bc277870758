/** How the codes of a block follow from what the search finds at each position:
    every code is a literal or a pair, and for each there is a reason. */
module Lz77Steps {
  import opened Bits
  import opened HashChains
  import opened Lz77Codes
  import opened Matches

  /** Matches that are too short, or too far away for their length, are not used. */
  predicate IsLiteral(length: nat, offset: nat, minmatch: nat) {
    length < 3 || length < minmatch || (length == 3 && offset > 4096)
  }

  /** One code of the output: it starts at code `at` and stands for the data from
      `pos` on, where the search has found `found`.  A deferred position is
      written as a literal because of the match `next` at the position behind it. */
  datatype Step =
    | Literal(at: nat, pos: nat, found: Match)
    | Deferred(at: nat, pos: nat, found: Match, next: Match)
    | Pair(at: nat, pos: nat, found: Match, next: Match)

  function CodesEnd(s: Step): nat {
    s.at + if s.Pair? then 4 else 1
  }

  function BytesEnd(s: Step): nat {
    s.pos + if s.Pair? then s.found.length else 1
  }

  // ----- the codes are made of steps

  ghost predicate IsPair(v: seq<nat>, length: nat, offset: nat) {
    |v| == 4 && StartsWithPair(v) && PairLength(v) == length && PairDistance(v) == offset && UsesLastCode(v)
  }

  ghost predicate IsCode(s: Step, out: seq<nat>, data: seq<byte>) {
    && CodesEnd(s) <= |out| && s.pos < |data|
    && if s.Pair? then IsPair(out[s.at..CodesEnd(s)], s.found.length, s.found.offset) else out[s.at] == data[s.pos]
  }

  ghost predicate IsSplit(steps: seq<Step>, out: seq<nat>, data: seq<byte>, from: nat, to: nat) {
    if steps == [] then out == [] && from == to
    else
      && steps[0].at == 0 && steps[0].pos == from
      && CodesEnd(steps[|steps| - 1]) == |out| && BytesEnd(steps[|steps| - 1]) == to
      && (forall i :: 0 <= i < |steps| - 1 ==>
            CodesEnd(steps[i]) == steps[i + 1].at && BytesEnd(steps[i]) == steps[i + 1].pos)
      && forall i :: 0 <= i < |steps| ==> IsCode(steps[i], out, data)
  }

  // ----- and each step is the one to take

  ghost predicate FoundAt(hs: seq<nat>, ss: seq<nat>, data: seq<byte>, start: nat, insize: nat, settings: Lz77Settings,
                          p: nat, m: Match) {
    p < |hs| == |ss| && Found(hs[..p + 1], ss[..p + 1], data, start, insize, settings, m)
  }

  /** With lazy matching a match is compared with that of the next position, unless
      it is long. */
  predicate Lazy(settings: Lz77Settings, length: nat) {
    && settings.lazymatching && 3 <= length < MAX_SUPPORTED_DEFLATE_LENGTH
    && length <= MaxLazyMatch(settings.windowsize)
  }

  /** A literal stands where the best match is not worth a pair, or where the next
      position has one that is longer by at least two.  Otherwise there is a pair. */
  ghost predicate IsReason(s: Step, deferred: bool, hs: seq<nat>, ss: seq<nat>, data: seq<byte>, start: nat,
                           insize: nat, settings: Lz77Settings) {
    && FoundAt(hs, ss, data, start, insize, settings, s.pos, s.found)
    && match s
       case Literal(_, _, found) => IsLiteral(found.length, found.offset, settings.minmatch)
       case Deferred(_, p, found, next) =>
         && !deferred && Lazy(settings, found.length)
         && FoundAt(hs, ss, data, start, insize, settings, p + 1, next) && next.length > found.length + 1
       case Pair(_, p, found, next) =>
         && !IsLiteral(found.length, found.offset, settings.minmatch)
         && (!deferred && Lazy(settings, found.length) ==>
               FoundAt(hs, ss, data, start, insize, settings, p + 1, next) && next.length <= found.length + 1)
  }

  predicate AfterDeferred(steps: seq<Step>, i: nat)
    requires i <= |steps|
  {
    i > 0 && steps[i - 1].Deferred?
  }

  ghost predicate AllReasons(steps: seq<Step>, hs: seq<nat>, ss: seq<nat>, data: seq<byte>, start: nat, insize: nat,
                             settings: Lz77Settings) {
    forall i: nat {:trigger steps[i]} :: i < |steps| ==>
      && IsReason(steps[i], AfterDeferred(steps, i), hs, ss, data, start, insize, settings)
      && (AfterDeferred(steps, i) ==> steps[i].found == steps[i - 1].next)
  }

  /** The codes so far, up to position `pos`. */
  ghost predicate Follows(steps: seq<Step>, out: seq<nat>, hs: seq<nat>, ss: seq<nat>, data: seq<byte>, start: nat,
                          insize: nat, settings: Lz77Settings, pos: nat) {
    && IsSplit(steps, out, data, start, pos)
    && AllReasons(steps, hs, ss, data, start, insize, settings)
  }

  /** The codes of a block. */
  ghost predicate FollowsSearch(out: seq<nat>, hs: seq<nat>, ss: seq<nat>, data: seq<byte>, start: nat, insize: nat,
                                settings: Lz77Settings) {
    exists steps: seq<Step> :: Follows(steps, out, hs, ss, data, start, insize, settings, insize)
  }

  // ----- one more step

  lemma NoSteps(hs: seq<nat>, ss: seq<nat>, data: seq<byte>, start: nat, insize: nat, settings: Lz77Settings)
    ensures Follows([], [], hs, ss, data, start, insize, settings, start)
  {
  }

  lemma SplitGrows(steps: seq<Step>, out: seq<nat>, s: Step, out': seq<nat>, data: seq<byte>, from: nat)
    requires IsSplit(steps, out, data, from, s.pos) && s.at == |out| && CodesEnd(s) == |out'| && out <= out'
    requires IsCode(s, out', data)
    ensures IsSplit(steps + [s], out', data, from, BytesEnd(s))
  {
    hide IsPair;
    var more := steps + [s];
    forall i | 0 <= i < |more| ensures IsCode(more[i], out', data) {
      if i < |steps| {
        EarlierCodes(steps, out, data, from, s.pos, i);
        assert IsCode(steps[i], out, data);
        assert out'[steps[i].at..CodesEnd(steps[i])] == out[steps[i].at..CodesEnd(steps[i])];
      }
    }
  }

  lemma EarlierCodes(steps: seq<Step>, out: seq<nat>, data: seq<byte>, from: nat, to: nat, i: nat)
    requires IsSplit(steps, out, data, from, to) && i < |steps|
    ensures CodesEnd(steps[i]) <= |out|
  {
    assert IsCode(steps[i], out, data);
  }

  lemma ReasonsGrow(steps: seq<Step>, s: Step, hs: seq<nat>, ss: seq<nat>, data: seq<byte>, start: nat, insize: nat,
                    settings: Lz77Settings)
    requires AllReasons(steps, hs, ss, data, start, insize, settings)
    requires IsReason(s, AfterDeferred(steps, |steps|), hs, ss, data, start, insize, settings)
    requires AfterDeferred(steps, |steps|) ==> s.found == steps[|steps| - 1].next
    ensures AllReasons(steps + [s], hs, ss, data, start, insize, settings)
  {
    hide IsReason;
    var more := steps + [s];
    forall i: nat | i < |more|
      ensures IsReason(more[i], AfterDeferred(more, i), hs, ss, data, start, insize, settings)
              && (AfterDeferred(more, i) ==> more[i].found == more[i - 1].next)
    {
      if i < |steps| { assert more[i] == steps[i] && AfterDeferred(more, i) == AfterDeferred(steps, i); }
    }
  }

  /** The step for a match that is used if it is worth it. */
  function StepFor(at: nat, pos: nat, found: Match, next: Match, minmatch: nat): Step {
    if IsLiteral(found.length, found.offset, minmatch) then Literal(at, pos, found) else Pair(at, pos, found, next)
  }

  /** The byte, or one pair of this length and distance, has been appended. */
  ghost predicate Pushed(out0: seq<nat>, out: seq<nat>, data: seq<byte>, pos: nat, length: nat, offset: nat,
                         minmatch: nat) {
    if IsLiteral(length, offset, minmatch) then
      pos < |data| && out == out0 + [data[pos]]
    else
      out0 <= out && IsPair(out[|out0|..], length, offset)
  }

  lemma StepTaken(steps: seq<Step>, out: seq<nat>, out': seq<nat>, hs: seq<nat>, ss: seq<nat>, data: seq<byte>,
                  start: nat, insize: nat, settings: Lz77Settings, s: Step, next: Match)
    requires Follows(steps, out, hs, ss, data, start, insize, settings, s.pos)
    requires s == StepFor(|out|, s.pos, s.found, next, settings.minmatch) && s.pos < |data|
    requires Pushed(out, out', data, s.pos, s.found.length, s.found.offset, settings.minmatch)
    requires IsReason(s, AfterDeferred(steps, |steps|), hs, ss, data, start, insize, settings)
    requires AfterDeferred(steps, |steps|) ==> s.found == steps[|steps| - 1].next
    ensures Follows(steps + [s], out', hs, ss, data, start, insize, settings, BytesEnd(s))
    ensures !AfterDeferred(steps + [s], |steps| + 1)
  {
    ReasonsGrow(steps, s, hs, ss, data, start, insize, settings);
    hide IsReason, AllReasons, IsSplit;
    if s.Pair? { assert out'[|out|..] == out'[s.at..CodesEnd(s)]; }
    SplitGrows(steps, out, s, out', data, start);
  }

  lemma ByteDeferred(steps: seq<Step>, out: seq<nat>, hs: seq<nat>, ss: seq<nat>, data: seq<byte>, start: nat,
                     insize: nat, settings: Lz77Settings, s: Step)
    requires Follows(steps, out, hs, ss, data, start, insize, settings, s.pos) && s.pos < |data|
    requires s.Deferred? && s.at == |out| && !AfterDeferred(steps, |steps|)
    requires IsReason(s, false, hs, ss, data, start, insize, settings)
    ensures Follows(steps + [s], out + [data[s.pos]], hs, ss, data, start, insize, settings, s.pos + 1)
  {
    ReasonsGrow(steps, s, hs, ss, data, start, insize, settings);
    hide IsReason, AllReasons, IsSplit;
    SplitGrows(steps, out, s, out + [data[s.pos]], data, start);
  }

  /** What has been found stays found when more positions are entered. */
  lemma FoundStays(hs: seq<nat>, ss: seq<nat>, hs': seq<nat>, ss': seq<nat>, data: seq<byte>, start: nat, insize: nat,
                   settings: Lz77Settings, p: nat, m: Match)
    requires FoundAt(hs, ss, data, start, insize, settings, p, m) && hs <= hs' && ss <= ss' && |hs'| == |ss'|
    ensures FoundAt(hs', ss', data, start, insize, settings, p, m)
  {
    assert hs'[..p + 1] == hs[..p + 1] && ss'[..p + 1] == ss[..p + 1];
  }

  lemma FollowsStays(steps: seq<Step>, out: seq<nat>, hs: seq<nat>, ss: seq<nat>, hs': seq<nat>, ss': seq<nat>,
                     data: seq<byte>, start: nat, insize: nat, settings: Lz77Settings, pos: nat)
    requires Follows(steps, out, hs, ss, data, start, insize, settings, pos)
    requires hs <= hs' && ss <= ss' && |hs'| == |ss'|
    ensures Follows(steps, out, hs', ss', data, start, insize, settings, pos)
  {
    hide IsSplit, FoundAt;
    forall i: nat | i < |steps|
      ensures IsReason(steps[i], AfterDeferred(steps, i), hs', ss', data, start, insize, settings)
              && (AfterDeferred(steps, i) ==> steps[i].found == steps[i - 1].next)
    {
      var s := steps[i];
      assert IsReason(s, AfterDeferred(steps, i), hs, ss, data, start, insize, settings);
      FoundStays(hs, ss, hs', ss', data, start, insize, settings, s.pos, s.found);
      if !s.Literal? && FoundAt(hs, ss, data, start, insize, settings, s.pos + 1, s.next) {
        FoundStays(hs, ss, hs', ss', data, start, insize, settings, s.pos + 1, s.next);
      }
    }
  }

  // ----- what this means for the data

  /** A literal where the match is too short, a deferred byte where the next match is
      longer by two at least, and otherwise a pair. */
  lemma ReasonForStep(steps: seq<Step>, out: seq<nat>, hs: seq<nat>, ss: seq<nat>, data: seq<byte>, start: nat,
                      insize: nat, settings: Lz77Settings, pos: nat, i: nat)
    requires Follows(steps, out, hs, ss, data, start, insize, settings, pos) && i < |steps|
    ensures FoundAt(hs, ss, data, start, insize, settings, steps[i].pos, steps[i].found)
    ensures var (n, offset) := (steps[i].found.length, steps[i].found.offset);
            match steps[i]
            case Literal(_, _, _) => n < 3 || n < settings.minmatch || (n == 3 && offset > 4096)
            case Deferred(_, p, _, next) =>
              && settings.lazymatching && 3 <= n <= (if settings.windowsize >= 8192 then 257 else 64)
              && FoundAt(hs, ss, data, start, insize, settings, p + 1, next) && next.length >= n + 2
            case Pair(_, p, _, next) =>
              && 3 <= n && settings.minmatch <= n && (n == 3 ==> offset <= 4096)
              && ((i == 0 || !steps[i - 1].Deferred?) && settings.lazymatching
                  && n <= (if settings.windowsize >= 8192 then 257 else 64) ==>
                    FoundAt(hs, ss, data, start, insize, settings, p + 1, next) && next.length <= n + 1)
    ensures steps[i].Deferred? && i + 1 < |steps| ==>
              !steps[i + 1].Deferred? && steps[i + 1].pos == steps[i].pos + 1 && steps[i + 1].found == steps[i].next
  {
    hide FoundAt, IsCode;
    assert IsReason(steps[i], AfterDeferred(steps, i), hs, ss, data, start, insize, settings);
    if i + 1 < |steps| {
      assert IsReason(steps[i + 1], AfterDeferred(steps, i + 1), hs, ss, data, start, insize, settings);
    }
  }

  /** With a large window and no early end the match at a position is as long as
      any repetition of the same block inside the window. */
  lemma LongestInBlock(hs: seq<nat>, ss: seq<nat>, data: seq<byte>, start: nat, insize: nat, settings: Lz77Settings,
                       p: nat, m: Match, offset: nat, n: nat)
    requires Recorded(hs, ss, data, start, insize) && FoundAt(hs, ss, data, start, insize, settings, p, m)
    requires settings.windowsize >= 8192 && settings.nicematch >= MAX_SUPPORTED_DEFLATE_LENGTH
    requires 0 < offset <= p - start && offset < settings.windowsize
    requires 3 <= n <= MAX_SUPPORTED_DEFLATE_LENGTH && p + n <= insize && Repeats(data, p, offset, n)
    ensures n <= m.length
  {
    CandidateFound(hs, ss, data, start, insize, settings, p, m, offset, n);
  }

  /** In general as long as any that starts with one of the nearest positions of
      its list, as many as the length of the list is limited to. */
  lemma CandidateFound(hs: seq<nat>, ss: seq<nat>, data: seq<byte>, start: nat, insize: nat, settings: Lz77Settings,
                       p: nat, m: Match, offset: nat, n: nat)
    requires Recorded(hs, ss, data, start, insize) && FoundAt(hs, ss, data, start, insize, settings, p, m)
    requires 0 < offset <= p - start && offset < settings.windowsize
    requires 3 <= n <= MAX_SUPPORTED_DEFLATE_LENGTH && p + n <= insize && Repeats(data, p, offset, n)
    requires Rank(hs[..p + 1], p - offset)
             < if settings.windowsize >= 8192 then settings.windowsize else settings.windowsize / 8
    ensures n <= m.length || (m.length > 0 && m.offset < offset
              && m.length >= if settings.nicematch > 258 then 258 else settings.nicematch)
  {
    hide GetHash, Repeats, AtMost, Rank, StreaksEnd, IsMatch, InWindow;
    var r: nat := p - offset;
    SameHashBefore(hs, ss, data, start, insize, p, offset, n);
    var hs1, ss1 := hs[..p + 1], ss[..p + 1];
    WindowReaches(r, p, settings.windowsize);
    assert Candidate(hs1, ss1, settings.windowsize, start, r);
    var distance := |hs1| - 1 - r;
    assert distance == offset;
    if AtMost(data, p, insize, offset, m.length) { UpperBound(data, p, insize, offset, m.length, n); }
  }

  /** And no nearer repetition of the block is as long. */
  lemma NearestInBlock(hs: seq<nat>, ss: seq<nat>, data: seq<byte>, start: nat, insize: nat, settings: Lz77Settings,
                       p: nat, m: Match, offset: nat)
    requires Recorded(hs, ss, data, start, insize) && FoundAt(hs, ss, data, start, insize, settings, p, m)
    requires m.length >= 3 && 0 < offset < m.offset && offset <= p - start
    ensures !Repeats(data, p, offset, m.length)
  {
    hide GetHash, Repeats, AtMost, StreaksEnd, InWindow, Longest;
    var n := m.length;
    if Repeats(data, p, offset, n) {
      MatchInside(hs, ss, data, start, insize, settings, p, m);
      SameHashBefore(hs, ss, data, start, insize, p, offset, n);
      var r: nat := p - offset;
      WindowReaches(r, p, settings.windowsize);
      assert Candidate(hs[..p + 1], ss[..p + 1], settings.windowsize, start, r);
      UpperBound(data, p, insize, offset, n - 1, n);
    }
  }

  lemma MatchInside(hs: seq<nat>, ss: seq<nat>, data: seq<byte>, start: nat, insize: nat, settings: Lz77Settings,
                    p: nat, m: Match)
    requires FoundAt(hs, ss, data, start, insize, settings, p, m) && m.length > 0
    ensures p + m.length <= insize && m.offset < settings.windowsize && m.length <= MAX_SUPPORTED_DEFLATE_LENGTH
  {
    hide AtMost, Longest, Handled;
  }

  lemma WindowReaches(r: nat, p: nat, windowsize: nat)
    requires r < p < r + windowsize
    ensures InWindow(r, p + 1, windowsize)
  {
  }

  lemma SameHashBefore(hs: seq<nat>, ss: seq<nat>, data: seq<byte>, start: nat, insize: nat, p: nat, offset: nat,
                       n: nat)
    requires Recorded(hs, ss, data, start, insize) && p < |hs| && 0 < offset <= p - start
    requires n >= 3 && p + n <= insize && Repeats(data, p, offset, n)
    ensures hs[p - offset] == hs[p]
  {
    hide GetHash, StreaksEnd;
    var q: nat := p - offset;
    assert data[p] == data[q] && data[p + 1] == data[q + 1] && data[p + 2] == data[q + 2];
    SameBytesSameHash(data, insize, p, q);
    assert hs[q] == GetHash(data, insize, q) && hs[p] == GetHash(data, insize, p);
  }

  lemma UpperBound(data: seq<byte>, pos: nat, insize: nat, offset: nat, length: nat, n: nat)
    requires AtMost(data, pos, insize, offset, length) && Repeats(data, pos, offset, n)
    requires n <= MAX_SUPPORTED_DEFLATE_LENGTH && pos + n <= insize
    ensures n <= length
  {
  }

  /** Nothing can be repeated at the first byte of all. */
  lemma NothingBefore(hs: seq<nat>, ss: seq<nat>, data: seq<byte>, insize: nat, settings: Lz77Settings, m: Match)
    requires FoundAt(hs, ss, data, 0, insize, settings, 0, m)
    ensures m.length == 0
  {
    hide AtMost, Longest;
  }

  /** At the second of equal bytes the search finds all the others. */
  lemma EqualFound(hs: seq<nat>, ss: seq<nat>, data: seq<byte>, settings: Lz77Settings, m: Match)
    requires 4 <= |data| <= 259 && (forall i :: 0 <= i < |data| ==> data[i] == data[0]) && settings.windowsize >= 8
    requires Recorded(hs, ss, data, 0, |data|) && FoundAt(hs, ss, data, 0, |data|, settings, 1, m)
    ensures m == Match(|data| - 1, 1)
  {
    assert Repeats(data, 1, 1, |data| - 1);
    assert Rank(hs[..2], 0) == 0;
    CandidateFound(hs, ss, data, 0, |data|, settings, 1, m, 1, |data| - 1);
    hide Recorded, AtMost, Longest, Rank;
  }

  lemma InsideData(steps: seq<Step>, out: seq<nat>, data: seq<byte>, from: nat, to: nat, i: nat)
    requires IsSplit(steps, out, data, from, to) && i < |steps|
    ensures steps[i].pos < |data|
  {
    assert IsCode(steps[i], out, data);
  }

  lemma EqualSteps(steps: seq<Step>, out: seq<nat>, hs: seq<nat>, ss: seq<nat>, data: seq<byte>, settings: Lz77Settings)
    requires 4 <= |data| <= 259 && (forall i :: 0 <= i < |data| ==> data[i] == data[0])
    requires settings.windowsize >= 8 && settings.minmatch <= |data| - 1
    requires |hs| == |data| && Recorded(hs, ss, data, 0, |data|)
    requires Follows(steps, out, hs, ss, data, 0, |data|, settings, |data|)
    ensures |steps| == 2 && steps[0].Literal?
    ensures steps[1].Pair? && steps[1].found == Match(|data| - 1, 1) && steps[1].pos == 1
  {
    var n := |data|;
    hide Recorded, FoundAt, IsCode;
    assert IsReason(steps[0], AfterDeferred(steps, 0), hs, ss, data, 0, n, settings);
    NothingBefore(hs, ss, data, n, settings, steps[0].found);
    assert steps[0].Literal?;
    assert |steps| > 1;
    var s := steps[1];
    assert s.pos == 1 && IsReason(s, AfterDeferred(steps, 1), hs, ss, data, 0, n, settings);
    EqualFound(hs, ss, data, settings, s.found);
    if s.Deferred? { FoundFits(hs, ss, data, n, settings, 2, s.next); }
    if |steps| > 2 { InsideData(steps, out, data, 0, n, 2); }
  }

  /** So equal bytes become one literal and one pair, if a pair is wanted at all and
      the window is not one of the smallest. */
  lemma EqualBytes(out: seq<nat>, hs: seq<nat>, ss: seq<nat>, data: seq<byte>, settings: Lz77Settings)
    requires 4 <= |data| <= 259 && (forall i :: 0 <= i < |data| ==> data[i] == data[0])
    requires settings.minmatch <= |data| - 1
    requires |hs| == |data| && Recorded(hs, ss, data, 0, |data|)
    requires FollowsSearch(out, hs, ss, data, 0, |data|, settings)
    ensures settings.windowsize >= 8 ==> |out| == 5 && out[0] == data[0] && IsPair(out[1..], |data| - 1, 1)
    ensures settings.windowsize < 8 ==> out == data
  {
    hide Recorded, AllReasons, IsPair;
    if settings.windowsize < 8 {
      SmallWindow(out, hs, ss, data, 0, |data|, settings);
      assert data[0..|data|] == data;
      return;
    }
    var steps: seq<Step> :| Follows(steps, out, hs, ss, data, 0, |data|, settings, |data|);
    EqualSteps(steps, out, hs, ss, data, settings);
    assert IsCode(steps[0], out, data) && IsCode(steps[1], out, data);
    assert out[1..5] == out[1..];
  }

  /** A list of the smallest windows is not followed at all: every byte is a literal. */
  lemma {:induction false} NothingFound(steps: seq<Step>, out: seq<nat>, hs: seq<nat>, ss: seq<nat>, data: seq<byte>,
                                        start: nat, insize: nat, settings: Lz77Settings, pos: nat, i: nat)
    requires settings.windowsize < 8 && i < |steps|
    requires Follows(steps, out, hs, ss, data, start, insize, settings, pos)
    ensures steps[i].Literal? && steps[i].at == i && steps[i].pos == start + i
  {
    if i > 0 { NothingFound(steps, out, hs, ss, data, start, insize, settings, pos, i - 1); }
    hide IsCode, AtMost, Longest, Handled;
    assert IsReason(steps[i], AfterDeferred(steps, i), hs, ss, data, start, insize, settings);
    assert steps[i].found.length == 0;
  }

  lemma SmallWindow(out: seq<nat>, hs: seq<nat>, ss: seq<nat>, data: seq<byte>, start: nat, insize: nat,
                    settings: Lz77Settings)
    requires settings.windowsize < 8 && start <= insize <= |data|
    requires FollowsSearch(out, hs, ss, data, start, insize, settings)
    ensures out == data[start..insize]
  {
    hide AllReasons, IsPair;
    var steps: seq<Step> :| Follows(steps, out, hs, ss, data, start, insize, settings, insize);
    if steps != [] {
      NothingFound(steps, out, hs, ss, data, start, insize, settings, insize, |steps| - 1);
      assert |out| == |steps| == insize - start;
      forall i: nat | i < |out| ensures out[i] == data[start + i] {
        NothingFound(steps, out, hs, ss, data, start, insize, settings, insize, i);
        assert IsCode(steps[i], out, data);
      }
    }
  }

  lemma FoundFits(hs: seq<nat>, ss: seq<nat>, data: seq<byte>, insize: nat, settings: Lz77Settings, p: nat, m: Match)
    requires FoundAt(hs, ss, data, 0, insize, settings, p, m)
    ensures p < |hs| && p + m.length <= insize
  {
    hide AtMost, Longest;
  }
}
