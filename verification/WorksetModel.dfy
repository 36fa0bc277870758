/** quant::Workset on values: a bounded buffer of the newest published entries,
    read by subscribers that each have a cursor of their own.  Publishing and
    popping happen under the lock, one operation at a time. */
module WorksetModel {
  import opened Wrappers

  /** A subscriber: its index into the buffer, and the history that the theorems
      speak of: where in the stream it started, which places it has received, and
      the entries it got there. */
  datatype Cursor<T> = Cursor(index: nat, start: nat, taken: seq<nat>, got: seq<T>)

  /** `stream` is everything ever published. */
  datatype State<T> = State(capacity: nat, buffer: seq<T>, stream: seq<T>, cursors: seq<Cursor<T>>)

  function Initial<T>(capacity: nat): State<T> {
    State(capacity, [], [], [])
  }

  /** How many entries have left the buffer: the place of its first one in the stream. */
  function Dropped<T>(s: State<T>): int {
    |s.stream| - |s.buffer|
  }

  /** The place in the stream that the cursor will read next. */
  function Position<T>(s: State<T>, c: Cursor<T>): int {
    Dropped(s) + c.index
  }

  predicate Full<T>(s: State<T>) {
    |s.buffer| == s.capacity
  }

  // ----- the operations

  /** circular_buffer::push_back: the oldest entry makes room. */
  function PushBack<T>(capacity: nat, buffer: seq<T>, e: T): seq<T> {
    if capacity == 0 then []
    else if |buffer| >= capacity then buffer[1..] + [e]
    else buffer + [e]
  }

  function MovedBack<T>(c: Cursor<T>): Cursor<T> {
    c.(index := if c.index > 0 then c.index - 1 else 0)
  }

  function AllMovedBack<T>(cursors: seq<Cursor<T>>): (r: seq<Cursor<T>>)
    ensures |r| == |cursors|
  {
    seq(|cursors|, k requires 0 <= k < |cursors| => MovedBack(cursors[k]))
  }

  /** Publisher::push */
  function Push<T>(s: State<T>, e: T): (s': State<T>)
    ensures |s'.cursors| == |s.cursors|
  {
    s.(buffer := PushBack(s.capacity, s.buffer, e),
       stream := s.stream + [e],
       cursors := if Full(s) then AllMovedBack(s.cursors) else s.cursors)
  }

  /** Subscriber::try_pop; `locked` tells whether the lock was obtained. */
  function TryPop<T>(s: State<T>, k: nat, locked: bool): (r: (State<T>, Option<T>))
    requires k < |s.cursors|
    ensures |r.0.cursors| == |s.cursors|
  {
    var c := s.cursors[k];
    if locked && s.buffer != [] && c.index < |s.buffer| then
      var e := s.buffer[c.index];
      var place := if Position(s, c) < 0 then 0 else Position(s, c);
      (s.(cursors := s.cursors[k := Cursor(c.index + 1, c.start, c.taken + [place], c.got + [e])]), Some(e))
    else (s, None)
  }

  /** get_subscriber: a new subscriber starts at the oldest entry kept. */
  function Subscribe<T>(s: State<T>): State<T> {
    s.(cursors := s.cursors + [Cursor(0, if Dropped(s) < 0 then 0 else Dropped(s), [], [])])
  }

  /** remove_subscriber */
  function Unsubscribe<T>(s: State<T>, k: nat): State<T>
    requires k < |s.cursors|
  {
    s.(cursors := s.cursors[..k] + s.cursors[k + 1..])
  }

  datatype Operation<T> =
    | OpPush(e: T)
    | OpTryPop(k: nat, locked: bool)
    | OpCount(k: nat)                      // num_available
    | OpSubscribe
    | OpUnsubscribe(k: nat)

  function Apply<T>(s: State<T>, op: Operation<T>): State<T> {
    match op
    case OpPush(e) => Push(s, e)
    case OpTryPop(k, locked) => if k < |s.cursors| then TryPop(s, k, locked).0 else s
    case OpCount(_) => s
    case OpSubscribe => Subscribe(s)
    case OpUnsubscribe(k) => if k < |s.cursors| then Unsubscribe(s, k) else s
  }

  /** Any interleaving of operations. */
  function Run<T>(capacity: nat, ops: seq<Operation<T>>): State<T> {
    if ops == [] then Initial(capacity) else Apply(Run(capacity, ops[..|ops| - 1]), ops[|ops| - 1])
  }

  // ----- what every operation keeps

  /** The buffer holds the end of the stream, and is full once anything was dropped. */
  ghost predicate BufferOk<T>(s: State<T>) {
    && |s.buffer| <= s.capacity && |s.buffer| <= |s.stream|
    && s.buffer == s.stream[|s.stream| - |s.buffer|..]
    && (|s.buffer| < s.capacity ==> |s.buffer| == |s.stream|)
  }

  ghost predicate Increasing(taken: seq<nat>) {
    forall i, j :: 0 <= i < j < |taken| ==> taken[i] < taken[j]
  }

  /** What a subscriber has received: a strictly increasing part of the stream
      from its start on, ending before its position.  A place it has passed
      without receiving it is no longer in the buffer. */
  ghost predicate CursorOk<T>(s: State<T>, c: Cursor<T>)
    requires BufferOk(s)
  {
    && c.index <= |s.buffer| && c.start <= Position(s, c)
    && |c.got| == |c.taken| && Increasing(c.taken)
    && (forall i :: 0 <= i < |c.taken| ==> c.start <= c.taken[i] < Position(s, c) && c.got[i] == s.stream[c.taken[i]])
    && (forall p: nat :: c.start <= p < Position(s, c) && p !in c.taken ==> p < Dropped(s))
  }

  ghost predicate Inv<T>(s: State<T>) {
    BufferOk(s) && forall k :: 0 <= k < |s.cursors| ==> CursorOk(s, s.cursors[k])
  }

  lemma PushKeepsBuffer<T>(s: State<T>, e: T)
    requires BufferOk(s)
    ensures BufferOk(Push(s, e))
    ensures Dropped(Push(s, e)) == Dropped(s) + if Full(s) then 1 else 0
  {
  }

  /** A push into a full buffer leaves a cursor on its place of the stream unless
      the cursor is at the entry that is overwritten. */
  lemma PushMoves<T>(s: State<T>, e: T, k: nat)
    requires Inv(s) && k < |s.cursors|
    ensures var s' := Push(s, e); var c, c' := s.cursors[k], s'.cursors[k];
            && c'.start == c.start && c'.taken == c.taken && c'.got == c.got
            && Position(s', c') == Position(s, c) + (if Full(s) && c.index == 0 then 1 else 0)
            && (Full(s) && c.index == 0 ==> Position(s, c) == Dropped(s) < Dropped(s'))
  {
    PushKeepsBuffer(s, e);
  }

  lemma PushKeepsCursor<T>(s: State<T>, e: T, k: nat)
    requires Inv(s) && k < |s.cursors|
    ensures BufferOk(Push(s, e)) && CursorOk(Push(s, e), Push(s, e).cursors[k])
  {
    PushKeepsBuffer(s, e);
    PushMoves(s, e, k);
    assert CursorOk(s, s.cursors[k]);
  }

  /** A pop takes the entry at the position, and moves only that cursor. */
  lemma PopTakes<T>(s: State<T>, k: nat, locked: bool)
    requires Inv(s) && k < |s.cursors|
    ensures var (s', r) := TryPop(s, k, locked); var c, c' := s.cursors[k], s'.cursors[k];
            && (r.Some? <==> locked && Position(s, c) < |s.stream|)
            && (r.None? ==> s' == s)
            && (r.Some? ==>
                  && r.value == s.stream[Position(s, c)]
                  && c'.taken == c.taken + [Position(s, c)] && c'.got == c.got + [r.value]
                  && Position(s', c') == Position(s, c) + 1
                  && s' == s.(cursors := s.cursors[k := c']))
  {
    assert CursorOk(s, s.cursors[k]);
  }

  lemma PopKeepsInv<T>(s: State<T>, k: nat, locked: bool)
    requires Inv(s) && k < |s.cursors|
    ensures Inv(TryPop(s, k, locked).0)
  {
    PopTakes(s, k, locked);
    var (s', r) := TryPop(s, k, locked);
    if r.Some? {
      var c, c' := s.cursors[k], s'.cursors[k];
      assert CursorOk(s, c);
      forall p: nat | c'.start <= p < Position(s', c') && p !in c'.taken ensures p < Dropped(s') {
        assert c'.taken[|c.taken|] == Position(s, c);
        assert forall q :: q in c.taken ==> q in c'.taken;
      }
      assert CursorOk(s', c');
      forall j | 0 <= j < |s'.cursors| ensures CursorOk(s', s'.cursors[j]) { assert CursorOk(s, s.cursors[j]); }
    }
  }

  lemma PushKeepsInv<T>(s: State<T>, e: T)
    requires Inv(s)
    ensures Inv(Push(s, e))
  {
    PushKeepsBuffer(s, e);
    forall k | 0 <= k < |s.cursors| ensures CursorOk(Push(s, e), Push(s, e).cursors[k]) { PushKeepsCursor(s, e, k); }
  }

  lemma ApplyKeepsInv<T>(s: State<T>, op: Operation<T>)
    requires Inv(s)
    ensures Inv(Apply(s, op))
  {
    match op
    case OpPush(e) => PushKeepsInv(s, e);
    case OpTryPop(k, locked) =>
      if k < |s.cursors| { PopKeepsInv(s, k, locked); }
    case OpCount(_) =>
    case OpSubscribe =>
      var s' := Subscribe(s);
      forall k | 0 <= k < |s'.cursors| ensures CursorOk(s', s'.cursors[k]) {
        if k < |s.cursors| { assert CursorOk(s, s.cursors[k]); }
      }
    case OpUnsubscribe(k) =>
      if k < |s.cursors| {
        var s' := Unsubscribe(s, k);
        forall j | 0 <= j < |s'.cursors| ensures CursorOk(s', s'.cursors[j]) {
          assert s'.cursors[j] == s.cursors[if j < k then j else j + 1];
        }
      }
  }

  /** In every reachable state, for every interleaving: cursors lie inside the
      buffer, and every subscriber has received a strictly increasing part of the
      stream, missing only entries that have been overwritten. */
  lemma {:induction false} RunKeepsInv<T>(capacity: nat, ops: seq<Operation<T>>)
    ensures Inv(Run(capacity, ops))
  {
    if ops != [] {
      RunKeepsInv(capacity, ops[..|ops| - 1]);
      ApplyKeepsInv(Run(capacity, ops[..|ops| - 1]), ops[|ops| - 1]);
    }
  }

  // ----- consequences

  /** num_available never falls below zero, and counts what try_pop can still return. */
  lemma AvailableIsExact<T>(capacity: nat, ops: seq<Operation<T>>, k: nat)
    requires k < |Run(capacity, ops).cursors|
    ensures var s := Run(capacity, ops); var c := s.cursors[k];
            0 <= |s.buffer| - c.index == |s.stream| - Position(s, c)
  {
    RunKeepsInv(capacity, ops);
    assert CursorOk(Run(capacity, ops), Run(capacity, ops).cursors[k]);
  }

  /** A subscription changes nothing else, and the new subscriber stands at the
      oldest entry that is kept; all of the buffer is available to it. */
  lemma SubscriberStartsAtOldest<T>(s: State<T>)
    requires Inv(s)
    ensures var s', k := Subscribe(s), |s.cursors|;
            && s' == s.(cursors := s'.cursors) && |s'.cursors| == k + 1 && s'.cursors[..k] == s.cursors
            && s'.cursors[k].taken == [] && s'.cursors[k].got == []
            && Position(s', s'.cursors[k]) == Dropped(s) == s'.cursors[k].start
            && |s'.stream| - Position(s', s'.cursors[k]) == |s.buffer|
  {
    var s', k := Subscribe(s), |s.cursors|;
    assert s'.cursors[..k] == s.cursors;
  }

  /** `n` pops by subscriber `k`, and what they return. */
  function PopMany<T>(s: State<T>, k: nat, n: nat): (r: (State<T>, seq<Option<T>>))
    requires k < |s.cursors|
    ensures |r.0.cursors| == |s.cursors| && |r.1| == n
  {
    if n == 0 then (s, [])
    else
      var (before, got) := PopMany(s, k, n - 1);
      var (after, entry) := TryPop(before, k, true);
      (after, got + [entry])
  }

  /** The subscriber has moved on by the entries it got, and nothing else has changed. */
  ghost predicate Popped<T>(s: State<T>, k: nat, n: nat, s': State<T>, got: seq<Option<T>>)
    requires k < |s.cursors| == |s'.cursors|
  {
    var from := Position(s, s.cursors[k]);
    && Inv(s') && s'.stream == s.stream && s'.buffer == s.buffer && from >= 0
    && Position(s', s'.cursors[k]) == from + n <= |s.stream| && |got| == n
    && forall i :: 0 <= i < n ==> got[i] == Some(s.stream[from + i])
  }

  /** They return the stream from the position of the subscriber on, one entry
      each, and nothing when the stream is at its end. */
  lemma {:induction false} PopsGoOn<T>(s: State<T>, k: nat, n: nat)
    requires Inv(s) && k < |s.cursors| && n <= |s.stream| - Position(s, s.cursors[k])
    ensures var (s', got) := PopMany(s, k, n); Popped(s, k, n, s', got)
  {
    if n == 0 {
      assert CursorOk(s, s.cursors[k]);
    } else {
      hide Inv, TryPop, Position, Popped;
      PopsGoOn(s, k, n - 1);
      OneMorePop(s, k, n - 1, PopMany(s, k, n - 1).0, PopMany(s, k, n - 1).1);
    }
  }

  lemma OneMorePop<T>(s: State<T>, k: nat, n: nat, s1: State<T>, got: seq<Option<T>>)
    requires k < |s.cursors| == |s1.cursors| && Popped(s, k, n, s1, got)
    requires n < |s.stream| - Position(s, s.cursors[k])
    ensures var (s2, r) := TryPop(s1, k, true); Popped(s, k, n + 1, s2, got + [r])
  {
    hide Inv, TryPop, Position;
    NextPop(s1, k);
  }

  lemma NextPop<T>(s: State<T>, k: nat)
    requires Inv(s) && k < |s.cursors| && Position(s, s.cursors[k]) < |s.stream|
    ensures var (s', r) := TryPop(s, k, true); var from := Position(s, s.cursors[k]);
            && Inv(s') && s'.stream == s.stream && s'.buffer == s.buffer && from >= 0
            && Position(s', s'.cursors[k]) == from + 1 && r == Some(s.stream[from])
  {
    assert CursorOk(s, s.cursors[k]);
    PopTakes(s, k, true);
    PopKeepsInv(s, k, true);
    hide Inv, TryPop;
  }

  /** So a new subscriber gets the buffer, from its oldest entry to its newest, and
      then nothing. */
  lemma NewSubscriberGetsBuffer<T>(s: State<T>)
    requires Inv(s)
    ensures var k := |s.cursors|; var (s', got) := PopMany(Subscribe(s), k, |s.buffer|);
            && (forall i :: 0 <= i < |s.buffer| ==> got[i] == Some(s.buffer[i]))
            && TryPop(s', k, true).1 == None
  {
    SubscriberStartsAtOldest(s);
    ApplyKeepsInv(s, OpSubscribe);
    assert BufferOk(s);
    hide Inv, Subscribe, TryPop;
    var s1, k := Apply(s, OpSubscribe), |s.cursors|;
    PopsGoOn(s1, k, |s.buffer|);
    PopTakes(PopMany(s1, k, |s.buffer|).0, k, true);
  }

  /** Removing a subscriber leaves the others and the entries as they are. */
  lemma OthersStaySubscribed<T>(s: State<T>, k: nat, j: nat)
    requires k < |s.cursors| && j < |s.cursors| && j != k
    ensures var s' := Unsubscribe(s, k);
            && s' == s.(cursors := s'.cursors) && |s'.cursors| == |s.cursors| - 1
            && s'.cursors[if j < k then j else j - 1] == s.cursors[j]
  {
  }

  /** No entry is received twice. */
  lemma NoDuplicates<T>(capacity: nat, ops: seq<Operation<T>>, k: nat, i: nat, j: nat)
    requires k < |Run(capacity, ops).cursors| && i < j < |Run(capacity, ops).cursors[k].taken|
    ensures var s := Run(capacity, ops); var c := s.cursors[k];
            c.start <= c.taken[i] < c.taken[j] < |s.stream| && |c.got| == |c.taken| && c.got[j] == s.stream[c.taken[j]]
  {
    RunKeepsInv(capacity, ops);
    assert CursorOk(Run(capacity, ops), Run(capacity, ops).cursors[k]);
  }

  lemma SamePositions<T>(s: State<T>, s': State<T>, k: nat)
    requires k < |s.cursors| <= |s'.cursors| && s'.cursors[k] == s.cursors[k]
    requires s'.buffer == s.buffer && s'.stream == s.stream
    ensures Position(s', s'.cursors[k]) == Position(s, s.cursors[k])
  {
  }

  lemma OthersStay<T>(s: State<T>, j: nat, locked: bool, k: nat)
    requires Inv(s) && j < |s.cursors| && k < |s.cursors|
    ensures var s' := TryPop(s, j, locked).0; var c, c' := s.cursors[k], s'.cursors[k];
            || (Position(s', c') == Position(s, c) && c'.taken == c.taken)
            || (j == k && locked && Position(s', c') == Position(s, c) + 1 && c'.taken == c.taken + [Position(s, c)])
  {
    PopTakes(s, j, locked);
    var s' := TryPop(s, j, locked).0;
    hide Inv, TryPop, Dropped;
    if s'.cursors[k] == s.cursors[k] { SamePositions(s, s', k); }
  }

  /** One operation passes a place of the stream without delivering it to the
      subscriber only as a push into a full buffer while the cursor is 0. */
  lemma OnlyOverwrittenIsSkipped<T>(s: State<T>, op: Operation<T>, k: nat)
    requires Inv(s) && k < |s.cursors| && !op.OpUnsubscribe?
    ensures k < |Apply(s, op).cursors|
    ensures var s' := Apply(s, op); var c, c' := s.cursors[k], s'.cursors[k];
            || (Position(s', c') == Position(s, c) && c'.taken == c.taken)
            || (op == OpTryPop(k, true) && Position(s', c') == Position(s, c) + 1
                && c'.taken == c.taken + [Position(s, c)])
            || (op.OpPush? && Full(s) && c.index == 0 && c'.taken == c.taken
                && Position(s', c') == Position(s, c) + 1 && Position(s, c) == Dropped(s) < Dropped(s'))
  {
    hide Inv, Push, TryPop, Dropped;
    match op
    case OpPush(e) => PushMoves(s, e, k);
    case OpTryPop(j, locked) => if j < |s.cursors| { OthersStay(s, j, locked, k); }
    case _ => SamePositions(s, Apply(s, op), k);
  }
}
