/** The workset and its lock together: push, try_pop, num_available, get_subscriber
    and remove_subscriber in any number of threads, one memory access at a time.
    Every interleaving has the effect of the operations one after the other, in
    the order in which they took effect.  One subscriber is used by one thread at
    a time, which the source leaves to its callers. */
module SharedWorkset {
  import L = RwLock
  import opened WorksetModel
  import opened Wrappers

  /** How far a push, holding the lock for writing, has come. */
  datatype PushPhase = BeforeCheck | Moving(next: nat) | Appending | Pushed

  /** How far a try_pop, holding the lock for reading, has come. */
  datatype PopPhase<T> = Peeking | Fetched(fetched: T) | Popped

  /** How far a num_available, holding the lock for reading, has come: it reads
      the size of the buffer and then the index. */
  datatype CountPhase = Sizing | Sized(size: nat) | Counted(available: int)

  /** What a thread is doing. */
  datatype Job<T> =
    | NoJob
    | Pushing(entry: T, push: PushPhase)
    | Joining(joined: bool)                // get_subscriber
    | Leaving(k: nat)                      // remove_subscriber
    | Left                                 // when it has removed its subscriber
    | Popping(k: nat, pop: PopPhase<T>)
    | Counting(k: nat, count: CountPhase)

  datatype Proc<T> = Proc(place: L.Thread, job: Job<T>)

  /** `ops` are the operations that have taken effect. */
  datatype System<T> = System(lock: int, procs: seq<Proc<T>>, shared: State<T>, ops: seq<Operation<T>>)

  /** What an idle thread decides to do; all others go on. */
  datatype Choice<T> =
    | StartPush(e: T)
    | StartJoin
    | StartLeave(subscriber: nat)
    | StartPop(subscriber: nat)
    | StartCount(subscriber: nat)
    | Wait

  // ----- steps

  function Places<T>(procs: seq<Proc<T>>): (ts: seq<L.Thread>)
    ensures |ts| == |procs|
  {
    seq(|procs|, t requires 0 <= t < |procs| => procs[t].place)
  }

  function LockState<T>(s: System<T>): L.State {
    L.State(s.lock, Places(s.procs))
  }

  /** The job is about subscriber `job.k`. */
  predicate Using<T>(job: Job<T>) {
    job.Leaving? || job.Popping? || job.Counting?
  }

  predicate Busy<T>(s: System<T>, k: nat) {
    exists t :: 0 <= t < |s.procs| && Using(s.procs[t].job) && s.procs[t].job.k == k
  }

  predicate Free<T>(s: System<T>, k: nat) {
    k < |s.shared.cursors| && !Busy(s, k)
  }

  /** The next atomic operation on the lock, after which the thread has this job. */
  function LockStep<T>(s: System<T>, t: nat, a: L.Action, job: Job<T>): System<T>
    requires t < |s.procs|
  {
    var (lock, place) := L.ThreadStep(s.lock, s.procs[t].place, a);
    s.(lock := lock, procs := s.procs[t := Proc(place, job)])
  }

  function NextPhase<T>(s: System<T>, t: nat, job: Job<T>): System<T>
    requires t < |s.procs|
  {
    s.(procs := s.procs[t := s.procs[t].(job := job)])
  }

  function IdleStep<T>(s: System<T>, t: nat, c: Choice<T>): System<T>
    requires t < |s.procs|
  {
    match c
    case StartPush(e) => LockStep(s, t, L.Write, Pushing(e, BeforeCheck))
    case StartJoin => LockStep(s, t, L.Write, Joining(false))
    case StartLeave(k) => if Free(s, k) then LockStep(s, t, L.Write, Leaving(k)) else s
    case StartPop(k) => if Free(s, k) then LockStep(s, t, L.TryRead, Popping(k, Peeking)) else s
    case StartCount(k) => if Free(s, k) then LockStep(s, t, L.Read, Counting(k, Sizing)) else s
    case Wait => s
  }

  /** Waiting for the lock; a reader that gives up returns without an entry. */
  function WaitingStep<T>(s: System<T>, t: nat): System<T>
    requires t < |s.procs|
  {
    var p := s.procs[t];
    if p.job.Popping? && L.ThreadStep(s.lock, p.place, L.Continue).1.Idle? then
      LockStep(s, t, L.Continue, NoJob).(ops := s.ops + [OpTryPop(p.job.k, false)])
    else LockStep(s, t, L.Continue, p.job)
  }

  /** Subscribers are numbered in their list, so that those behind a removed one
      move up. */
  function Renumbered<T>(p: Proc<T>, k: nat): Proc<T> {
    if Using(p.job) && p.job.k > k then p.(job := p.job.(k := p.job.k - 1)) else p
  }

  function RemoveStep<T>(s: System<T>, t: nat, k: nat): (s': System<T>)
    requires t < |s.procs|
    ensures |s'.procs| == |s.procs|
  {
    System(
      s.lock,
      seq(|s.procs|, j requires 0 <= j < |s.procs| =>
        if j == t then s.procs[t].(job := Left) else Renumbered(s.procs[j], k)),
      if k < |s.shared.cursors| then Unsubscribe(s.shared, k) else s.shared,
      s.ops + [OpUnsubscribe(k)])
  }

  /** Inside push, get_subscriber or remove_subscriber. */
  function WriterStep<T>(s: System<T>, t: nat): System<T>
    requires t < |s.procs|
  {
    match s.procs[t].job
    case Pushing(e, BeforeCheck) => NextPhase(s, t, Pushing(e, if Full(s.shared) then Moving(0) else Appending))
    case Pushing(e, Moving(i)) =>
      if i < |s.shared.cursors| then
        NextPhase(s, t, Pushing(e,
            Moving(i + 1))).(shared := s.shared.(cursors := s.shared.cursors[i := MovedBack(s.shared.cursors[i])]))
      else NextPhase(s, t, Pushing(e, Appending))
    case Pushing(e, Appending) =>
      NextPhase(s, t, Pushing(e, Pushed)).(
        shared := s.shared.(buffer := PushBack(s.shared.capacity, s.shared.buffer, e), stream := s.shared.stream + [e]),
        ops := s.ops + [OpPush(e)])
    case Joining(false) => NextPhase(s, t, Joining(true)).(shared := Subscribe(s.shared), ops := s.ops + [OpSubscribe])
    case Leaving(k) => RemoveStep(s, t, k)
    case _ => LockStep(s, t, L.Continue, NoJob)
  }

  /** Inside try_pop the entry is copied, then the cursor moves on; num_available
      leaves everything as it is. */
  function ReaderStep<T>(s: System<T>, t: nat): System<T>
    requires t < |s.procs|
  {
    match s.procs[t].job
    case Popping(k, Peeking) =>
      if k < |s.shared.cursors| && s.shared.buffer != [] && s.shared.cursors[k].index < |s.shared.buffer| then
        NextPhase(s, t, Popping(k, Fetched(s.shared.buffer[s.shared.cursors[k].index])))
      else
        NextPhase(s, t, Popping(k, Popped)).(ops := s.ops + [OpTryPop(k, true)])
    case Popping(k, Fetched(e)) =>
      NextPhase(s, t, Popping(k, Popped)).(
        shared := if k < |s.shared.cursors| then s.shared.(cursors := s.shared.cursors[k := Taken(s.shared, k, e)])
            else s.shared,
        ops := s.ops + [OpTryPop(k, true)])
    case Counting(k, Sizing) => NextPhase(s, t, Counting(k, Sized(|s.shared.buffer|)))
    case Counting(k, Sized(n)) =>
      var index := if k < |s.shared.cursors| then s.shared.cursors[k].index else 0;
      NextPhase(s, t, Counting(k, Counted(n - index))).(ops := s.ops + [OpCount(k)])
    case _ => LockStep(s, t, L.Continue, NoJob)
  }

  function Taken<T>(s: State<T>, k: nat, e: T): Cursor<T>
    requires k < |s.cursors|
  {
    var c := s.cursors[k];
    Cursor(c.index + 1, c.start, c.taken + [if Position(s, c) < 0 then 0 else Position(s, c)], c.got + [e])
  }

  function Step<T>(s: System<T>, t: nat, c: Choice<T>): (s': System<T>)
    requires t < |s.procs|
    ensures |s'.procs| == |s.procs|
  {
    match s.procs[t].place
    case Idle => IdleStep(s, t, c)
    case Writing => WriterStep(s, t)
    case Reading => ReaderStep(s, t)
    case _ => WaitingStep(s, t)
  }

  function Start<T>(n: nat, capacity: nat): System<T> {
    System(0, seq(n, _ => Proc(L.Idle, NoJob)), Initial(capacity), [])
  }

  /** Any interleaving: which thread moves, and what it decides. */
  function Execution<T>(n: nat, capacity: nat, schedule: seq<(nat, Choice<T>)>): (s: System<T>)
    ensures |s.procs| == n
  {
    if schedule == [] then Start(n, capacity)
    else
      var before := Execution(n, capacity, schedule[..|schedule| - 1]);
      var (t, c) := schedule[|schedule| - 1];
      if t < n then Step(before, t, c) else before
  }

  // ----- the invariant

  /** The place of a thread fits what it is doing. */
  ghost predicate ProcOk<T>(p: Proc<T>) {
    match p.place
    case Idle => p.job.NoJob?
    case TryEntered => p.job.Popping? && p.job.pop.Peeking?
    case Trying(_, _) => p.job.Popping? && p.job.pop.Peeking?
    case LockEntered => p.job.Counting? && p.job.count.Sizing?
    case Locking(_) => p.job.Counting? && p.job.count.Sizing?
    case WriterLocking => p.job == Joining(false) || p.job.Leaving? || (p.job.Pushing? && p.job.push.BeforeCheck?)
    case Writing => p.job.Pushing? || p.job.Joining? || p.job.Leaving? || p.job.Left?
    case Reading => p.job.Popping? || p.job.Counting?
  }

  ghost predicate OneThreadPerSubscriber<T>(procs: seq<Proc<T>>) {
    forall i, j :: 0 <= i < j < |procs| && Using(procs[i].job) && Using(procs[j].job) ==>
          procs[i].job.k != procs[j].job.k
  }

  /** The cursors while a push is under way, compared with those before it. */
  ghost predicate CursorsShow<T>(job: Job<T>, cursors: seq<Cursor<T>>, a: State<T>) {
    |cursors| == |a.cursors| &&
    match job
    case Pushing(_, Moving(i)) =>
      Full(a) && i <= |cursors| && forall k :: 0 <= k < |cursors| ==>
            cursors[k] == if k < i then MovedBack(a.cursors[k]) else a.cursors[k]
    case Pushing(_, Appending) => cursors == if Full(a) then AllMovedBack(a.cursors) else a.cursors
    case _ => cursors == a.cursors
  }

  /** The entry a reader has copied is the one its cursor is at, and what it has
      counted is what is left behind the cursor. */
  ghost predicate FetchedOk<T>(p: Proc<T>, a: State<T>) {
    && (Using(p.job) ==> p.job.k < |a.cursors|)
    && (p.job.Popping? && p.job.pop.Fetched? ==>
          a.buffer != [] && a.cursors[p.job.k].index < |a.buffer|
              && p.job.pop.fetched == a.buffer[a.cursors[p.job.k].index])
    && (p.job.Counting? ==>
          match p.job.count
          case Sizing => true
          case Sized(n) => n == |a.buffer|
          case Counted(n) => n == |a.buffer| - a.cursors[p.job.k].index)
  }

  /** A thread that has not read anything yet. */
  predicate NothingRead<T>(job: Job<T>) {
    (job.Popping? ==> job.pop.Peeking?) && (job.Counting? ==> job.count.Sizing?)
  }

  ghost predicate NoWriter<T>(procs: seq<Proc<T>>) {
    forall t :: 0 <= t < |procs| ==> !procs[t].place.Writing?
  }

  /** The memory shows the state that the operations so far lead to, but for the
      cursors that a push under way has moved already. */
  ghost predicate Shows<T>(s: System<T>, a: State<T>) {
    && s.shared.(cursors := a.cursors) == a && |s.shared.cursors| == |a.cursors|
    && (NoWriter(s.procs) ==> s.shared.cursors == a.cursors)
    && (forall t :: 0 <= t < |s.procs| && s.procs[t].place.Writing? ==>
          CursorsShow(s.procs[t].job, s.shared.cursors, a))
    && (forall t :: 0 <= t < |s.procs| ==> FetchedOk(s.procs[t], a))
  }

  ghost predicate SystemOk<T>(s: System<T>, capacity: nat) {
    && L.Inv(LockState(s))
    && (forall t :: 0 <= t < |s.procs| ==> ProcOk(s.procs[t]))
    && OneThreadPerSubscriber(s.procs)
    && Shows(s, Run(capacity, s.ops))
  }

  // ----- one step

  lemma PlacesUpdate<T>(procs: seq<Proc<T>>, t: nat, p: Proc<T>)
    requires t < |procs|
    ensures Places(procs[t := p]) == Places(procs)[t := p.place]
  {
  }

  /** A lock step keeps the invariant of the lock. */
  lemma LockStepKeepsInv<T>(s: System<T>, t: nat, a: L.Action, job: Job<T>)
    requires L.Inv(LockState(s)) && t < |s.procs|
    ensures L.Inv(LockState(LockStep(s, t, a, job)))
  {
    var (lock, place) := L.ThreadStep(s.lock, s.procs[t].place, a);
    PlacesUpdate(s.procs, t, Proc(place, job));
    L.StepKeepsInv(LockState(s), t, a);
  }

  lemma PhaseKeepsInv<T>(s: System<T>, t: nat, job: Job<T>)
    requires L.Inv(LockState(s)) && t < |s.procs|
    ensures L.Inv(LockState(NextPhase(s, t, job)))
  {
    PlacesUpdate(s.procs, t, s.procs[t].(job := job));
    assert Places(s.procs)[t := s.procs[t].place] == Places(s.procs);
  }

  lemma WriterExcludes<T>(s: System<T>, t: nat, j: nat)
    requires L.Inv(LockState(s)) && t < |s.procs| && j < |s.procs| && j != t
    ensures s.procs[t].place.Writing? ==> !s.procs[j].place.Writing? && !s.procs[j].place.Reading?
    ensures s.procs[t].place.Reading? ==> !s.procs[j].place.Writing?
  {
    L.WriterIsAlone(LockState(s), t, j);
    L.WriterIsAlone(LockState(s), j, t);
  }

  lemma OneMoreOperation<T>(capacity: nat, ops: seq<Operation<T>>, op: Operation<T>)
    ensures Run(capacity, ops + [op]) == Apply(Run(capacity, ops), op)
  {
    assert (ops + [op])[..|ops|] == ops;
  }

  ghost predicate ProcsOk<T>(procs: seq<Proc<T>>) {
    (forall t :: 0 <= t < |procs| ==> ProcOk(procs[t])) && OneThreadPerSubscriber(procs)
  }

  /** A thread that does not take over a subscriber. */
  lemma ProcsUpdate<T>(procs: seq<Proc<T>>, t: nat, p: Proc<T>)
    requires t < |procs| && ProcsOk(procs) && ProcOk(p)
    requires Using(p.job) ==> Using(procs[t].job) && procs[t].job.k == p.job.k
    ensures ProcsOk(procs[t := p])
  {
  }

  /** Steps that leave the memory and its meaning alone. */
  lemma MemoryUntouched<T>(s: System<T>, s': System<T>, t: nat, a: State<T>)
    requires t < |s.procs| == |s'.procs| && s'.shared == s.shared && Shows(s, a)
    requires forall j :: 0 <= j < |s.procs| && j != t ==> s'.procs[j] == s.procs[j]
    requires FetchedOk(s'.procs[t], a)
    requires s'.procs[t].place.Writing? ==> CursorsShow(s'.procs[t].job, s.shared.cursors, a)
    requires !s'.procs[t].place.Writing? ==> !s.procs[t].place.Writing? || s.shared.cursors == a.cursors
    ensures Shows(s', a)
  {
    hide CursorsShow, FetchedOk;
    forall j | 0 <= j < |s'.procs|
      ensures FetchedOk(s'.procs[j], a)
              && (s'.procs[j].place.Writing? ==> CursorsShow(s'.procs[j].job, s'.shared.cursors, a))
    {
      if j != t { assert s'.procs[j] == s.procs[j]; }
    }
    if NoWriter(s'.procs) && !s.procs[t].place.Writing? {
      forall j | 0 <= j < |s.procs| ensures !s.procs[j].place.Writing? {
        if j != t { assert s'.procs[j] == s.procs[j]; }
      }
    }
  }

  lemma StartKeepsOk<T>(s: System<T>, t: nat, c: Choice<T>, capacity: nat)
    requires SystemOk(s, capacity) && t < |s.procs| && s.procs[t].place.Idle?
    ensures SystemOk(IdleStep(s, t, c), capacity)
  {
    hide L.Inv, CursorsShow;
    var s', a := IdleStep(s, t, c), Run(capacity, s.ops);
    if s' != s {
      var p := s'.procs[t];
      LockStepKeepsInv(s, t, if c.StartPop? then L.TryRead else if c.StartCount? then L.Read else L.Write, p.job);
      forall i, j | 0 <= i < j < |s'.procs| && Using(s'.procs[i].job) && Using(s'.procs[j].job)
        ensures s'.procs[i].job.k != s'.procs[j].job.k
      {
        if i != t { assert s'.procs[i] == s.procs[i]; }
        if j != t { assert s'.procs[j] == s.procs[j]; }
      }
      MemoryUntouched(s, s', t, a);
    }
  }

  /** A reader that gives up changes nothing. */
  lemma GivingUp<T>(s: State<T>, k: nat)
    ensures Apply(s, OpTryPop(k, false)) == s
  {
  }

  lemma WaitingKeepsOk<T>(s: System<T>, t: nat, capacity: nat)
    requires SystemOk(s, capacity) && t < |s.procs|
    requires !s.procs[t].place.Idle? && !s.procs[t].place.Reading? && !s.procs[t].place.Writing?
    ensures SystemOk(WaitingStep(s, t), capacity)
  {
    hide L.Inv, Run;
    var s', p, a := WaitingStep(s, t), s.procs[t], Run(capacity, s.ops);
    var p' := s'.procs[t];
    LockStepKeepsInv(s, t, L.Continue, p'.job);
    assert LockState(s') == LockState(LockStep(s, t, L.Continue, p'.job));
    assert ProcOk(p) && FetchedOk(p, a);
    ProcsUpdate(s.procs, t, p');
    if s'.ops != s.ops {
      OneMoreOperation(capacity, s.ops, OpTryPop(p.job.k, false));
      GivingUp(a, p.job.k);
    }
    if p'.place.Writing? {
      forall j | 0 <= j < |s.procs| ensures !s.procs[j].place.Writing? {
        if j != t {
          WriterExcludes(s', t, j);
          assert s'.procs[j] == s.procs[j];
        }
      }
    }
    MemoryUntouched(s, s', t, a);
  }

  // ----- inside push and get_subscriber

  /** While one thread writes, no other one has copied an entry. */
  lemma NobodyFetched<T>(s: System<T>, t: nat, capacity: nat)
    requires SystemOk(s, capacity) && t < |s.procs| && s.procs[t].place.Writing?
    ensures forall j :: 0 <= j < |s.procs| && j != t ==>
              !s.procs[j].place.Writing? && NothingRead(s.procs[j].job)
    ensures CursorsShow(s.procs[t].job, s.shared.cursors, Run(capacity, s.ops))
  {
    hide L.Inv, CursorsShow, FetchedOk, Run;
    forall j | 0 <= j < |s.procs| && j != t
      ensures !s.procs[j].place.Writing? && NothingRead(s.procs[j].job)
    {
      WriterExcludes(s, t, j);
      assert ProcOk(s.procs[j]);
    }
  }

  /** A step of the only writer. */
  lemma WriterShows<T>(s: System<T>, s': System<T>, t: nat, a: State<T>, a': State<T>)
    requires t < |s.procs| == |s'.procs| && Shows(s, a)
    requires forall j :: 0 <= j < |s.procs| && j != t ==> s'.procs[j] == s.procs[j]
    requires forall j :: 0 <= j < |s.procs| && j != t ==>
               !s.procs[j].place.Writing? && NothingRead(s.procs[j].job)
    requires s'.shared.(cursors := a'.cursors) == a' && |a'.cursors| >= |a.cursors|
    requires CursorsShow(s'.procs[t].job, s'.shared.cursors, a') && !Using(s'.procs[t].job)
    requires !s'.procs[t].place.Writing? ==> s'.shared.cursors == a'.cursors
    ensures Shows(s', a')
  {
    assert |s'.shared.cursors| == |a'.cursors|;
    hide CursorsShow;
    forall j | 0 <= j < |s'.procs|
      ensures FetchedOk(s'.procs[j], a')
              && (s'.procs[j].place.Writing? ==> CursorsShow(s'.procs[j].job, s'.shared.cursors, a'))
    {
      if j != t { assert s'.procs[j] == s.procs[j] && FetchedOk(s.procs[j], a); }
    }
  }

  /** What the phases of a writer do to the memory and its meaning. */
  lemma WriterPhase<T>(s: System<T>, t: nat, a: State<T>) returns (a': State<T>)
    requires t < |s.procs| && s.procs[t].place.Writing? && ProcOk(s.procs[t]) && !s.procs[t].job.Leaving?
    requires s.shared.(cursors := a.cursors) == a && CursorsShow(s.procs[t].job, s.shared.cursors, a)
    ensures var s' := WriterStep(s, t);
            && s'.shared.(cursors := a'.cursors) == a' && |a'.cursors| >= |a.cursors|
            && CursorsShow(s'.procs[t].job, s'.shared.cursors, a') && !Using(s'.procs[t].job)
            && (!s'.procs[t].place.Writing? ==> s'.shared.cursors == a'.cursors)
            && ((s'.ops == s.ops && a' == a)
                || (s'.ops != s.ops && |s'.ops| == |s.ops| + 1 && s'.ops[..|s.ops|] == s.ops
                                                && a' == Apply(a, s'.ops[|s.ops|])))
            && ProcOk(s'.procs[t])
  {
    var s' := WriterStep(s, t);
    a' := a;
    match s.procs[t].job {
      case Pushing(e, Moving(i)) =>
        if i == |s.shared.cursors| { assert s.shared.cursors == AllMovedBack(a.cursors); }
      case Pushing(e, Appending) => a' := Push(a, e);
      case Joining(false) => a' := Subscribe(a);
      case _ =>
    }
  }

  /** Removing a subscriber renumbers the jobs of those behind it. */
  lemma RenumberedOk<T>(p: Proc<T>, a: State<T>, k: nat)
    requires ProcOk(p) && FetchedOk(p, a) && NothingRead(p.job) && k < |a.cursors| && (Using(p.job) ==> p.job.k != k)
    ensures var p' := Renumbered(p, k); ProcOk(p') && FetchedOk(p', Unsubscribe(a, k)) && p'.place == p.place
  {
  }

  lemma RemoveKeepsOk<T>(s: System<T>, t: nat, k: nat, capacity: nat)
    requires SystemOk(s, capacity) && t < |s.procs| && s.procs[t].place.Writing? && s.procs[t].job == Leaving(k)
    ensures SystemOk(RemoveStep(s, t, k), capacity)
  {
    hide L.Inv, FetchedOk, Run, ProcOk, Renumbered, Unsubscribe;
    var s', a := RemoveStep(s, t, k), Run(capacity, s.ops);
    NobodyFetched(s, t, capacity);
    assert k < |a.cursors| && s.shared == a by { LeaverOk(s, t, k, a); }
    OneMoreOperation(capacity, s.ops, OpUnsubscribe(k));
    var a' := Unsubscribe(a, k);
    forall j | 0 <= j < |s.procs| && j != t
      ensures s'.procs[j] == Renumbered(s.procs[j], k) && s'.procs[j].place == s.procs[j].place
      ensures ProcOk(s'.procs[j]) && FetchedOk(s'.procs[j], a')
    {
      RenumberedOk(s.procs[j], a, k);
    }
    assert ProcOk(s'.procs[t]) && FetchedOk(s'.procs[t], a') by { LeftOk(s'.procs[t], a'); }
    assert Places(s'.procs) == Places(s.procs);
    assert LockState(s') == LockState(s);
    RenumberedApart(s, t, k);
    assert CursorsShow(Left, s'.shared.cursors, a');
  }

  lemma LeaverOk<T>(s: System<T>, t: nat, k: nat, a: State<T>)
    requires Shows(s, a) && t < |s.procs| && s.procs[t].place.Writing? && s.procs[t].job == Leaving(k)
    ensures k < |a.cursors| && s.shared == a
  {
    assert FetchedOk(s.procs[t], a);
  }

  lemma LeftOk<T>(p: Proc<T>, a: State<T>)
    requires p.place.Writing? && p.job.Left?
    ensures ProcOk(p) && FetchedOk(p, a)
  {
  }

  lemma RenumberedApart<T>(s: System<T>, t: nat, k: nat)
    requires t < |s.procs| && s.procs[t].job == Leaving(k) && OneThreadPerSubscriber(s.procs)
    ensures OneThreadPerSubscriber(RemoveStep(s, t, k).procs)
  {
    var procs := RemoveStep(s, t, k).procs;
    forall i, j | 0 <= i < j < |procs| && Using(procs[i].job) && Using(procs[j].job)
      ensures procs[i].job.k != procs[j].job.k
    {
      assert s.procs[i].job.k != s.procs[j].job.k && s.procs[i].job.k != k && s.procs[j].job.k != k;
    }
  }

  lemma WriterKeepsOk<T>(s: System<T>, t: nat, capacity: nat)
    requires SystemOk(s, capacity) && t < |s.procs| && s.procs[t].place.Writing?
    ensures SystemOk(WriterStep(s, t), capacity)
  {
    if s.procs[t].job.Leaving? {
      RemoveKeepsOk(s, t, s.procs[t].job.k, capacity);
    } else {
      StayingWriterKeepsOk(s, t, capacity);
    }
  }

  lemma StayingWriterKeepsOk<T>(s: System<T>, t: nat, capacity: nat)
    requires SystemOk(s, capacity) && t < |s.procs| && s.procs[t].place.Writing? && !s.procs[t].job.Leaving?
    ensures SystemOk(WriterStep(s, t), capacity)
  {
    hide L.Inv, CursorsShow, FetchedOk, Run, Apply, Subscribe, PushBack;
    var s', a := WriterStep(s, t), Run(capacity, s.ops);
    assert ProcOk(s.procs[t]);
    NobodyFetched(s, t, capacity);
    var a' := WriterPhase(s, t, a);
    if s'.ops != s.ops {
      assert s'.ops == s.ops + [s'.ops[|s.ops|]];
      OneMoreOperation(capacity, s.ops, s'.ops[|s.ops|]);
    }
    LockStepKeepsInv(s, t, L.Continue, NoJob);
    PhaseKeepsInv(s, t, s'.procs[t].job);
    ProcsUpdate(s.procs, t, s'.procs[t]);
    WriterShows(s, s', t, a, a');
  }

  // ----- inside try_pop

  lemma NobodyWrites<T>(s: System<T>, t: nat)
    requires L.Inv(LockState(s)) && t < |s.procs| && s.procs[t].place.Reading?
    ensures NoWriter(s.procs)
  {
    hide L.Inv;
    forall j | 0 <= j < |s.procs| ensures !s.procs[j].place.Writing? {
      if j != t { WriterExcludes(s, t, j); }
    }
  }

  /** What the phases of a reader do. */
  lemma ReaderPhase<T>(s: System<T>, t: nat, a: State<T>) returns (a': State<T>)
    requires t < |s.procs| && s.procs[t].place.Reading? && ProcOk(s.procs[t])
    requires s.shared == a && FetchedOk(s.procs[t], a)
    ensures var s' := ReaderStep(s, t);
            && s'.shared == a' && FetchedOk(s'.procs[t], a') && a'.buffer == a.buffer && |a'.cursors| == |a.cursors|
            && (forall j :: 0 <= j < |a.cursors| && j != s.procs[t].job.k ==> a'.cursors[j] == a.cursors[j])
            && ((s'.ops == s.ops && a' == a)
                || (s'.ops != s.ops && |s'.ops| == |s.ops| + 1 && s'.ops[..|s.ops|] == s.ops
                                                && a' == Apply(a, s'.ops[|s.ops|])))
            && ProcOk(s'.procs[t]) && !s'.procs[t].place.Writing?
            && (Using(s'.procs[t].job) ==> s'.procs[t].job.k == s.procs[t].job.k)
  {
    var s' := ReaderStep(s, t);
    var k := s.procs[t].job.k;
    a' := if s'.ops == s.ops then a else if s.procs[t].job.Counting? then a else Apply(a, OpTryPop(k, true));
  }

  lemma ReaderShows<T>(s: System<T>, s': System<T>, t: nat, a: State<T>, a': State<T>)
    requires t < |s.procs| == |s'.procs| && Shows(s, a) && NoWriter(s.procs) && OneThreadPerSubscriber(s.procs)
    requires forall j :: 0 <= j < |s.procs| && j != t ==> s'.procs[j] == s.procs[j]
    requires s'.shared == a' && FetchedOk(s'.procs[t], a') && a'.buffer == a.buffer && |a'.cursors| == |a.cursors|
    requires Using(s.procs[t].job) && !s'.procs[t].place.Writing?
    requires forall j :: 0 <= j < |a.cursors| && j != s.procs[t].job.k ==> a'.cursors[j] == a.cursors[j]
    ensures Shows(s', a')
  {
    hide CursorsShow;
    forall j | 0 <= j < |s'.procs| ensures FetchedOk(s'.procs[j], a') && !s'.procs[j].place.Writing? {
      if j != t { assert s'.procs[j] == s.procs[j] && FetchedOk(s.procs[j], a); }
    }
  }

  lemma ReaderKeepsOk<T>(s: System<T>, t: nat, capacity: nat)
    requires SystemOk(s, capacity) && t < |s.procs| && s.procs[t].place.Reading?
    ensures SystemOk(ReaderStep(s, t), capacity)
  {
    hide L.Inv, CursorsShow, FetchedOk, Run, Apply;
    var s', a := ReaderStep(s, t), Run(capacity, s.ops);
    assert ProcOk(s.procs[t]);
    NobodyWrites(s, t);
    var a' := ReaderPhase(s, t, a);
    if s'.ops != s.ops {
      assert s'.ops == s.ops + [s'.ops[|s.ops|]];
      OneMoreOperation(capacity, s.ops, s'.ops[|s.ops|]);
    }
    LockStepKeepsInv(s, t, L.Continue, NoJob);
    PhaseKeepsInv(s, t, s'.procs[t].job);
    ProcsUpdate(s.procs, t, s'.procs[t]);
    ReaderShows(s, s', t, a, a');
  }

  // ----- when operations take effect

  /** The operation the thread is in has taken effect, or it is in none. */
  predicate Effective<T>(job: Job<T>) {
    match job
    case NoJob => true
    case Pushing(_, phase) => phase.Pushed?
    case Joining(joined) => joined
    case Leaving(_) => false
    case Left => true
    case Popping(_, phase) => phase.Popped?
    case Counting(_, phase) => phase.Counted?
  }

  function OperationOf<T>(p: Proc<T>): Operation<T>
    requires !p.job.NoJob? && !p.job.Left?
  {
    match p.job
    case Pushing(e, _) => OpPush(e)
    case Joining(_) => OpSubscribe
    case Leaving(k) => OpUnsubscribe(k)
    case Popping(k, _) => OpTryPop(k, p.place.Reading?)
    case Counting(k, _) => OpCount(k)
  }

  /** Every operation takes effect in exactly one step between its start and its
      end, and only its own thread makes it do so. */
  lemma TakesEffectOnce<T>(s: System<T>, t: nat, c: Choice<T>)
    requires t < |s.procs| && ProcOk(s.procs[t])
    ensures var s' := Step(s, t, c);
            s'.ops == if !Effective(s.procs[t].job)
                && Effective(s'.procs[t].job) then s.ops + [OperationOf(s.procs[t])] else s.ops
    ensures var procs := Step(s, t, c).procs;
            forall j :: 0 <= j < |s.procs| && j != t ==>
              && (Effective(procs[j].job) <==> Effective(s.procs[j].job))
              && procs[j] == if s.procs[t].place.Writing? && s.procs[t].job.Leaving?
                then Renumbered(s.procs[j], s.procs[t].job.k) else s.procs[j]
  {
  }

  /** A try_pop that takes effect returns what the model's try_pop returns: the
      entry it has copied, or nothing. */
  lemma PopReturns<T>(s: System<T>, t: nat, capacity: nat)
    requires SystemOk(s, capacity) && t < |s.procs| && s.procs[t].place.Reading? && s.procs[t].job.Popping?
    ensures var a, job, job' := Run(capacity, s.ops), s.procs[t].job, ReaderStep(s, t).procs[t].job;
            && (job.pop.Fetched? ==> job.k < |a.cursors| && TryPop(a, job.k, true).1 == Some(job.pop.fetched))
            && (job.pop.Peeking? && job'.pop.Popped? ==> job.k < |a.cursors| && TryPop(a, job.k, true).1 == None)
  {
    hide L.Inv, CursorsShow, Run;
    assert ProcOk(s.procs[t]) && FetchedOk(s.procs[t], Run(capacity, s.ops));
    NobodyWrites(s, t);
  }

  // ----- whole executions

  lemma StepKeepsOk<T>(s: System<T>, t: nat, c: Choice<T>, capacity: nat)
    requires SystemOk(s, capacity) && t < |s.procs|
    ensures SystemOk(Step(s, t, c), capacity)
  {
    hide IdleStep, WaitingStep, WriterStep, ReaderStep;
    assert ProcOk(s.procs[t]);
    match s.procs[t].place {
      case Idle => StartKeepsOk(s, t, c, capacity);
      case Writing => WriterKeepsOk(s, t, capacity);
      case Reading => ReaderKeepsOk(s, t, capacity);
      case _ => WaitingKeepsOk(s, t, capacity);
    }
  }

  lemma StartIsOk<T>(n: nat, capacity: nat)
    ensures SystemOk<T>(Start(n, capacity), capacity)
  {
    L.NobodyHolds(n);
    assert LockState<T>(Start(n, capacity)).threads == L.Initial(n).threads;
  }

  /** In every interleaving the memory is that of the operations in their order. */
  lemma {:induction false} ExecutionKeepsOk<T>(n: nat, capacity: nat, schedule: seq<(nat, Choice<T>)>)
    ensures SystemOk(Execution(n, capacity, schedule), capacity)
  {
    if schedule == [] {
      StartIsOk<T>(n, capacity);
    } else {
      ExecutionKeepsOk(n, capacity, schedule[..|schedule| - 1]);
      var (t, c) := schedule[|schedule| - 1];
      if t < n { StepKeepsOk(Execution(n, capacity, schedule[..|schedule| - 1]), t, c, capacity); }
    }
  }

  /** Whenever nobody holds the lock for writing, the workset is in a state that the
      operations lead to one after the other; so every cursor is inside the
      buffer and every subscriber has received what these operations gave it. */
  lemma Linearizable<T>(n: nat, capacity: nat, schedule: seq<(nat, Choice<T>)>)
    ensures var s := Execution(n, capacity, schedule);
            NoWriter(s.procs) ==> s.shared == Run(capacity, s.ops) && WorksetModel.Inv(s.shared)
  {
    ExecutionKeepsOk(n, capacity, schedule);
    RunKeepsInv(capacity, Execution(n, capacity, schedule).ops);
  }

  /** A thread that joins adds a subscriber at the oldest entry that is kept, to
      which the whole buffer is available. */
  lemma JoinsAtOldest<T>(n: nat, capacity: nat, schedule: seq<(nat, Choice<T>)>, t: nat, c: Choice<T>)
    ensures var s := Execution(n, capacity, schedule);
            t < n && s.procs[t].job == Joining(false) && s.procs[t].place.Writing? ==>
                  var s', k := Step(s, t, c).shared, |s.shared.cursors|;
                  && s' == s.shared.(cursors := s'.cursors) && |s'.cursors| == k + 1
                  && s'.cursors[..k] == s.shared.cursors
                  && Position(s', s'.cursors[k]) == Dropped(s.shared) && s'.cursors[k].got == []
                  && |s'.stream| - Position(s', s'.cursors[k]) == |s.shared.buffer|
  {
    var s := Execution(n, capacity, schedule);
    if t < n && s.procs[t].job == Joining(false) && s.procs[t].place.Writing? {
      ExecutionKeepsOk(n, capacity, schedule);
      JoinerSees(s, t, capacity);
      RunKeepsInv(capacity, s.ops);
      SubscriberStartsAtOldest(Run(capacity, s.ops));
    }
  }

  lemma JoinerSees<T>(s: System<T>, t: nat, capacity: nat)
    requires SystemOk(s, capacity) && t < |s.procs| && s.procs[t].job == Joining(false) && s.procs[t].place.Writing?
    ensures s.shared == Run(capacity, s.ops)
  {
    hide Run;
    NobodyFetched(s, t, capacity);
  }

  /** What num_available has computed is the number of entries that are left for
      the subscriber, and never less than zero; it is so until the call returns. */
  lemma CountsUnderLock<T>(n: nat, capacity: nat, schedule: seq<(nat, Choice<T>)>, t: nat)
    ensures var s := Execution(n, capacity, schedule);
            t < n && s.procs[t].job.Counting? && s.procs[t].job.count.Counted? ==>
                  var k, available := s.procs[t].job.k, s.procs[t].job.count.available;
                  && s.shared == Run(capacity, s.ops) && k < |s.shared.cursors|
                  && available == |s.shared.stream| - Position(s.shared, s.shared.cursors[k]) >= 0
  {
    var s := Execution(n, capacity, schedule);
    if t < n && s.procs[t].job.Counting? && s.procs[t].job.count.Counted? {
      ExecutionKeepsOk(n, capacity, schedule);
      assert ProcOk(s.procs[t]) && FetchedOk(s.procs[t], Run(capacity, s.ops));
      NobodyWrites(s, t);
      Linearizable(n, capacity, schedule);
      assert CursorOk(s.shared, s.shared.cursors[s.procs[t].job.k]);
    }
  }
}
