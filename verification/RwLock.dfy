/** aux::rw_lock as a state machine: every step of a thread is one atomic
    operation on `lock_`, and any thread may take the next step. */
module RwLock {

  /** Where a thread is.  A value loaded before may be stale by now. */
  datatype Thread =
    | Idle
    | TryEntered                         // in reader_try_lock, before the load
    | Trying(val: int, attempts: nat)    // in its loop, before a compare-exchange
    | LockEntered                        // in reader_lock, before the load
    | Locking(val: int)                  // in its loop
    | Reading                            // holds the lock for reading
    | WriterLocking                      // in the loop of writer_lock
    | Writing                            // holds the lock for writing

  /** What an idle or holding thread decides to do; all others just go on. */
  datatype Action = TryRead | Read | Write | Continue

  datatype State = State(lock: int, threads: seq<Thread>)

  const NUM_ATTEMPTS: nat := 1000

  /** compare_exchange_strong */
  function CompareExchange(lock: int, expected: int, desired: int): (r: (bool, int)) {
    if lock == expected then (true, desired) else (false, lock)
  }

  /** The compare-exchange of a reader: from the loaded value, or from 0 when a
      writer held the lock at the load. */
  function ReaderExchange(lock: int, val: int): (r: (bool, int)) {
    if val < 0 then CompareExchange(lock, 0, 1) else CompareExchange(lock, val, val + 1)
  }

  /** One atomic step of a thread: the new value of the lock and the new place. */
  function ThreadStep(lock: int, t: Thread, a: Action): (int, Thread) {
    match t
    case Idle =>
      (lock, match a
             case TryRead => TryEntered
             case Read => LockEntered
             case Write => WriterLocking
             case Continue => Idle)
    case TryEntered => (lock, Trying(lock, 0))
    case Trying(val, attempts) =>
      var (res, lock') := ReaderExchange(lock, val);
      (lock', if res then Reading else if attempts + 1 < NUM_ATTEMPTS then Trying(val, attempts + 1) else Idle)
    case LockEntered => (lock, Locking(lock))
    case Locking(val) =>
      var (res, lock') := ReaderExchange(lock, val);
      (lock', if res then Reading else t)
    case Reading => (lock - 1, Idle)                    // reader_unlock: fetch_sub
    case WriterLocking =>
      var (res, lock') := CompareExchange(lock, 0, -1);
      (lock', if res then Writing else t)
    case Writing => (0, Idle)                           // writer_unlock: store
  }

  function Step(s: State, k: nat, a: Action): (s': State)
    requires k < |s.threads|
    ensures |s'.threads| == |s.threads|
  {
    var (lock, t) := ThreadStep(s.lock, s.threads[k], a);
    State(lock, s.threads[k := t])
  }

  /** `n` threads, none of which holds the lock. */
  function Initial(n: nat): State {
    State(0, seq(n, _ => Idle))
  }

  /** Any interleaving: which thread moves, and what it decides. */
  function Run(s: State, schedule: seq<(nat, Action)>): (s': State)
    ensures |s'.threads| == |s.threads|
  {
    if schedule == [] then s
    else
      var before := Run(s, schedule[..|schedule| - 1]);
      var (k, a) := schedule[|schedule| - 1];
      if k < |before.threads| then Step(before, k, a) else before
  }

  // ----- who holds the lock

  function Readers(ts: seq<Thread>): nat {
    if ts == [] then 0 else Readers(ts[..|ts| - 1]) + if ts[|ts| - 1].Reading? then 1 else 0
  }

  function Writers(ts: seq<Thread>): nat {
    if ts == [] then 0 else Writers(ts[..|ts| - 1]) + if ts[|ts| - 1].Writing? then 1 else 0
  }

  lemma {:induction false} HoldersUpdate(ts: seq<Thread>, k: nat, t: Thread)
    requires k < |ts|
    ensures Readers(ts[k := t]) == Readers(ts) - (if ts[k].Reading? then 1 else 0) + if t.Reading? then 1 else 0
    ensures Writers(ts[k := t]) == Writers(ts) - (if ts[k].Writing? then 1 else 0) + if t.Writing? then 1 else 0
  {
    var n := |ts| - 1;
    if k < n {
      HoldersUpdate(ts[..n], k, t);
      assert ts[k := t][..n] == ts[..n][k := t];
    } else {
      assert ts[k := t][..n] == ts[..n];
    }
  }

  lemma {:induction false} HolderCounts(ts: seq<Thread>, k: nat)
    requires k < |ts|
    ensures ts[k].Reading? ==> Readers(ts) > 0
    ensures ts[k].Writing? ==> Writers(ts) > 0
  {
    if k < |ts| - 1 { HolderCounts(ts[..|ts| - 1], k); }
  }

  lemma {:induction false} TwoWriters(ts: seq<Thread>, j: nat, k: nat)
    requires j < k < |ts| && ts[j].Writing? && ts[k].Writing?
    ensures Writers(ts) >= 2
  {
    if k < |ts| - 1 { TwoWriters(ts[..|ts| - 1], j, k); } else { HolderCounts(ts[..|ts| - 1], j); }
  }

  lemma {:induction false} NobodyHolds(n: nat)
    ensures Readers(Initial(n).threads) == 0 && Writers(Initial(n).threads) == 0
  {
    if n > 0 {
      NobodyHolds(n - 1);
      assert Initial(n).threads[..n - 1] == Initial(n - 1).threads;
    }
  }

  /** `lock_` is -1 while one writer holds it, and else the number of readers. */
  ghost predicate Inv(s: State) {
    if s.lock == -1 then Writers(s.threads) == 1 && Readers(s.threads) == 0
    else Writers(s.threads) == 0 && Readers(s.threads) == s.lock
  }

  /** Every atomic step keeps the invariant, however stale loaded values are. */
  lemma StepKeepsInv(s: State, k: nat, a: Action)
    requires Inv(s) && k < |s.threads|
    ensures Inv(Step(s, k, a))
  {
    HolderCounts(s.threads, k);
    HoldersUpdate(s.threads, k, ThreadStep(s.lock, s.threads[k], a).1);
  }

  /** So it holds in every interleaving of any number of threads. */
  lemma {:induction false} RunKeepsInv(n: nat, schedule: seq<(nat, Action)>)
    ensures Inv(Run(Initial(n), schedule))
  {
    if schedule == [] {
      NobodyHolds(n);
    } else {
      RunKeepsInv(n, schedule[..|schedule| - 1]);
      var before := Run(Initial(n), schedule[..|schedule| - 1]);
      var (k, a) := schedule[|schedule| - 1];
      if k < |before.threads| { StepKeepsInv(before, k, a); }
    }
  }

  lemma WriterIsAlone(s: State, j: nat, k: nat)
    requires Inv(s) && j < |s.threads| && k < |s.threads| && j != k
    ensures s.threads[j].Writing? ==> !s.threads[k].Writing? && !s.threads[k].Reading?
  {
    var ts := s.threads;
    HolderCounts(ts, j);
    HolderCounts(ts, k);
    if ts[j].Writing? && ts[k].Writing? {
      if j < k { TwoWriters(ts, j, k); } else { TwoWriters(ts, k, j); }
    }
  }

  /** A writer never overlaps a reader or another writer. */
  lemma MutualExclusion(n: nat, schedule: seq<(nat, Action)>, j: nat, k: nat)
    requires j < n && k < n && j != k
    ensures var ts := Run(Initial(n), schedule).threads;
            ts[j].Writing? ==> !ts[k].Writing? && !ts[k].Reading?
  {
    RunKeepsInv(n, schedule);
    WriterIsAlone(Run(Initial(n), schedule), j, k);
  }

  /** The value of the lock tells the holders, in every reachable state. */
  lemma LockTellsHolders(n: nat, schedule: seq<(nat, Action)>)
    ensures var s := Run(Initial(n), schedule);
            && (s.lock == -1 <==> Writers(s.threads) == 1)
            && (s.lock >= 0 <==> Writers(s.threads) == 0)
            && (s.lock >= 0 ==> s.lock == Readers(s.threads))
            && -1 <= s.lock <= n
  {
    RunKeepsInv(n, schedule);
    ReadersBounded(Run(Initial(n), schedule).threads);
  }

  lemma {:induction false} ReadersBounded(ts: seq<Thread>)
    ensures Readers(ts) <= |ts|
  {
    if ts != [] { ReadersBounded(ts[..|ts| - 1]); }
  }

  /** A reader gets in exactly when its expected value is still there; it then
      finds no writer.  When nobody writes it may still be turned away by other
      readers, because the value is not loaded again. */
  lemma ReaderEnters(s: State, k: nat, a: Action, val: int)
    requires Inv(s) && k < |s.threads|
    requires s.threads[k] == Locking(val) || (s.threads[k].Trying? && s.threads[k].val == val)
    ensures Step(s, k, a).threads[k].Reading? <==> s.lock == if val < 0 then 0 else val
    ensures Step(s, k, a).threads[k].Reading? ==> Writers(s.threads) == 0
    ensures s.threads[k] == Locking(val) && !Step(s, k, a).threads[k].Reading? ==> Step(s, k, a) == s
  {
  }

  /** A writer gets in exactly when the lock is free, and waits otherwise. */
  lemma WriterEnters(s: State, k: nat, a: Action)
    requires Inv(s) && k < |s.threads| && s.threads[k].WriterLocking?
    ensures Step(s, k, a).threads[k].Writing? <==> s.lock == 0
    ensures s.lock == 0 <==> Readers(s.threads) == 0 && Writers(s.threads) == 0
    ensures s.lock != 0 ==> Step(s, k, a) == s
  {
  }

  /** Who holds the lock leaves it with one step, and a writer leaves it free. */
  lemma HoldersLeave(s: State, k: nat, a: Action)
    requires Inv(s) && k < |s.threads| && (s.threads[k].Reading? || s.threads[k].Writing?)
    ensures Step(s, k, a).threads == s.threads[k := Idle]
    ensures s.threads[k].Writing? ==> Step(s, k, a).lock == 0
    ensures s.threads[k].Reading? ==> 0 <= Step(s, k, a).lock == s.lock - 1 == Readers(Step(s, k, a).threads)
  {
    HolderCounts(s.threads, k);
    HoldersUpdate(s.threads, k, Idle);
  }

  /** Two readers are enough: the second loads 0, the first takes the lock, and
      the second cannot join it. */
  lemma StaleReaderWaits()
    ensures var s := Run(Initial(2), [(1, Read), (1, Continue), (0, Read), (0, Continue), (0, Continue)]);
            s == State(1, [Reading, Locking(0)]) && Step(s, 1, Continue) == s
  {
    var s0 := Initial(2);
    assert s0.threads == [Idle, Idle];
    var s1, s2 := Run(s0, [(1, Read)]), Run(s0, [(1, Read), (1, Continue)]);
    assert [(1, Read)][..0] == [];
    assert s1 == State(0, [Idle, LockEntered]);
    assert [(1, Read), (1, Continue)][..1] == [(1, Read)];
    assert s2 == State(0, [Idle, Locking(0)]);
    var s3, s4 := Run(s0, [(1, Read), (1, Continue), (0, Read)]),
        Run(s0, [(1, Read), (1, Continue), (0, Read), (0, Continue)]);
    assert [(1, Read), (1, Continue), (0, Read)][..2] == [(1, Read), (1, Continue)];
    assert s3 == State(0, [LockEntered, Locking(0)]);
    assert [(1, Read), (1, Continue), (0, Read), (0, Continue)][..3] == [(1, Read), (1, Continue), (0, Read)];
    assert s4 == State(0, [Locking(0), Locking(0)]);
    assert [(1, Read), (1, Continue), (0, Read), (0, Continue), (0, Continue)][..4]
        == [(1, Read), (1, Continue), (0, Read), (0, Continue)];
  }

  // ----- reader_try_lock as written

  /** Where a thread is in reader_try_lock after it has loaded a value and made
      `n` attempts, when the lock was `seen(i)` at attempt `i`. */
  function PlaceAfter(loaded: int, seen: nat -> int, n: nat): Thread {
    if n == 0 then ThreadStep(loaded, TryEntered, Continue).1
    else ThreadStep(seen(n - 1), PlaceAfter(loaded, seen, n - 1), Continue).1
  }

  /** The loops make the steps of the machine, whatever the other threads leave
      in the lock: the thread holds it for reading exactly if one of the attempts
      met the value it expected. */
  method ReaderTryLock(loaded: int, seen: nat -> int) returns (res: bool, attempts: nat)
    ensures attempts <= 1000
    ensures PlaceAfter(loaded, seen, attempts) == if res then Reading else Idle
    ensures res <==> exists i: nat :: i < 1000 && seen(i) == if loaded < 0 then 0 else loaded
  {
    res, attempts := false, 0;
    if loaded < 0 {
      while attempts < NUM_ATTEMPTS && !res
        invariant TriedSoFar(loaded, 0, seen, res, attempts)
      {
        res := CompareExchange(seen(attempts), 0, 1).0;
        attempts := attempts + 1;
      }
    } else {
      while attempts < NUM_ATTEMPTS && !res
        invariant TriedSoFar(loaded, loaded, seen, res, attempts)
      {
        res := CompareExchange(seen(attempts), loaded, loaded + 1).0;
        attempts := attempts + 1;
      }
    }
  }

  ghost predicate TriedSoFar(loaded: int, expected: int, seen: nat -> int, res: bool, n: nat) {
    && n <= NUM_ATTEMPTS
    && PlaceAfter(loaded, seen, n) == (if res then Reading else if n < NUM_ATTEMPTS then Trying(loaded, n) else Idle)
    && if res then n > 0 && seen(n - 1) == expected else forall i: nat :: i < n ==> seen(i) != expected
  }

  // ----- the lock itself

  /** The atomic field `lock_`; each method is one atomic operation. */
  class Lock {
    var value: int

    constructor ()
      ensures value == 0
    {
      value := 0;
    }

    method CompareExchangeStrong(expected: int, desired: int) returns (res: bool)
      modifies this
      ensures (res, value) == CompareExchange(old(value), expected, desired)
    {
      res := value == expected;
      if res { value := desired; }
    }

    method FetchSub(n: int) returns (before: int)
      modifies this
      ensures before == old(value) && value == old(value) - n
    {
      before := value;
      value := value - n;
    }

    method Store(v: int)
      modifies this
      ensures value == v
    {
      value := v;
    }

    /** The next atomic operation of a thread inside one of the five methods. */
    method Continue(t: Thread) returns (t': Thread)
      modifies this
      ensures (value, t') == ThreadStep(old(value), t, Action.Continue)
    {
      var res;
      t' := t;
      match t {
        case Idle =>
        case TryEntered => t' := Trying(value, 0);
        case Trying(val, attempts) =>
          if val < 0 { res := CompareExchangeStrong(0, 1); } else { res := CompareExchangeStrong(val, val + 1); }
          t' := if res then Reading else if attempts + 1 < NUM_ATTEMPTS then Trying(val, attempts + 1) else Idle;
        case LockEntered => t' := Locking(value);
        case Locking(val) =>
          if val < 0 { res := CompareExchangeStrong(0, 1); } else { res := CompareExchangeStrong(val, val + 1); }
          if res { t' := Reading; }
        case Reading =>
          var _ := FetchSub(1);
          t' := Idle;
        case WriterLocking =>
          res := CompareExchangeStrong(0, -1);
          if res { t' := Writing; }
        case Writing =>
          Store(0);
          t' := Idle;
      }
    }
  }
}
