/** The writer-preferring readers-writers lock over a guard lock and two Mesa condition variables
    (threads/synch.c). Any number of clients acquire and release it as readers or writers; each
    statement that touches shared state is one step. */
module RwLock {
  import opened Queues
  import opened Wrappers

  type Tid = nat

  datatype Role = Reader | Writer

  /** The statement a client executes next. */
  datatype Point =
    | Away
    | AcqGuard(r: Role)     // rw_lock_acquire: lock_acquire of the guard
    | Test(r: Role)         // the while condition
    | CountWaiter(r: Role)  // WR++ / WW++
    | Enlist(r: Role)       // cond_wait: join the waiters
    | DropGuard(r: Role)    // cond_wait: lock_release
    | Asleep(r: Role)       // cond_wait: sema_down on the private semaphore
    | Regain(r: Role)       // cond_wait: lock_acquire
    | UncountWaiter(r: Role) // WR-- / WW--
    | Admit(r: Role)        // AR++ / AW++
    | Unlock(r: Role)       // lock_release at the end of rw_lock_acquire
    | Inside(r: Role)       // between acquire and release
    | RelGuard(r: Role)     // rw_lock_release: lock_acquire of the guard
    | Depart(r: Role)       // AR-- / AW--
    | Choose(r: Role)       // which waiters to wake
    | Broadcast             // the loop of cond_broadcast
    | Finish(r: Role)       // lock_release at the end of rw_lock_release

  /** The shared variables and every client's position. `signalled` holds the sleepers whose private
      semaphore has been raised. */
  datatype State = State(guard: Option<Tid>, AR: int, WR: int, AW: int, WW: int,
                         readers: seq<Tid>, writers: seq<Tid>,
                         at: map<Tid, Point>, signalled: set<Tid>)

  /** Whether client t can execute its next statement. */
  ghost predicate Enabled(k: State, t: Tid) {
    t in k.at &&
    match k.at[t]
    case AcqGuard(_) => k.guard == None
    case Regain(_) => k.guard == None
    case RelGuard(_) => k.guard == None
    case Asleep(_) => t in k.signalled
    case _ => true
  }

  function Queue(k: State, r: Role): seq<Tid> { if r == Reader then k.readers else k.writers }

  function SetQueue(k: State, r: Role, q: seq<Tid>): State {
    if r == Reader then k.(readers := q) else k.(writers := q)
  }

  /** cond_signal: wake the first waiter, if there is one. */
  function Signal(k: State, r: Role): State {
    var q := Queue(k, r);
    if q == [] then k else SetQueue(k, r, q[1..]).(signalled := k.signalled + {q[0]})
  }

  function AddWaiting(k: State, r: Role, d: int): State {
    if r == Reader then k.(WR := k.WR + d) else k.(WW := k.WW + d)
  }

  function AddActive(k: State, r: Role, d: int): State {
    if r == Reader then k.(AR := k.AR + d) else k.(AW := k.AW + d)
  }

  function Go(k: State, t: Tid, p: Point): State { k.(at := k.at[t := p]) }

  /** What the next statement of client t does to the shared variables. */
  function Effect(k: State, t: Tid): State
    requires Enabled(k, t)
  {
    match k.at[t]
    case AcqGuard(_) => k.(guard := Some(t))
    case CountWaiter(r) => AddWaiting(k, r, 1)
    case Enlist(r) => SetQueue(k, r, Queue(k, r) + [t])
    case DropGuard(_) => k.(guard := None)
    case Asleep(_) => k.(signalled := k.signalled - {t})
    case Regain(_) => k.(guard := Some(t))
    case UncountWaiter(r) => AddWaiting(k, r, -1)
    case Admit(r) => AddActive(k, r, 1)
    case Unlock(_) => k.(guard := None)
    case RelGuard(_) => k.(guard := Some(t))
    case Depart(r) => AddActive(k, r, -1)
    case Choose(Reader) => if k.AR == 0 && k.WW > 0 then Signal(k, Writer) else k
    case Choose(Writer) => if k.WW > 0 then Signal(k, Writer) else k
    case Broadcast => Signal(k, Reader)
    case Finish(_) => k.(guard := None)
    case _ => k
  }

  /** The statement after it; `wish` is the role that a client which is away asks for. */
  function Target(k: State, t: Tid, wish: Role): Point
    requires t in k.at
  {
    match k.at[t]
    case Away => AcqGuard(wish)
    case AcqGuard(r) => Test(r)
    case Test(Reader) => if k.AW + k.WW > 0 then CountWaiter(Reader) else Admit(Reader)
    case Test(Writer) => if k.AR + k.AW > 0 then CountWaiter(Writer) else Admit(Writer)
    case CountWaiter(r) => Enlist(r)
    case Enlist(r) => DropGuard(r)
    case DropGuard(r) => Asleep(r)
    case Asleep(r) => Regain(r)
    case Regain(r) => UncountWaiter(r)
    case UncountWaiter(r) => Test(r)
    case Admit(r) => Unlock(r)
    case Unlock(r) => Inside(r)
    case Inside(r) => RelGuard(r)
    case RelGuard(r) => Depart(r)
    case Depart(r) => Choose(r)
    case Choose(Reader) => Finish(Reader)
    case Choose(Writer) => if k.WW == 0 && k.WR > 0 then Broadcast else Finish(Writer)
    case Broadcast => if k.readers != [] then Broadcast else Finish(Writer)
    case Finish(_) => Away
  }

  function Step(k: State, t: Tid, wish: Role): State
    requires Enabled(k, t)
  {
    Go(Effect(k, t), t, Target(k, t, wish))
  }

  // ---- counting clients by position ----

  ghost function Where(at: map<Tid, Point>, p: Point -> bool): set<Tid> {
    set t | t in at && p(at[t])
  }

  lemma Moved(at: map<Tid, Point>, t: Tid, to: Point, p: Point -> bool)
    requires t in at
    ensures |Where(at[t := to], p)| == |Where(at, p)| - (if p(at[t]) then 1 else 0) + (if p(to) then 1 else 0)
  {
    var rest := set u | u in at && u != t && p(at[u]);
    assert t !in rest;
    assert Where(at, p) == if p(at[t]) then rest + {t} else rest;
    var at' := at[t := to];
    assert Where(at', p) == if p(to) then rest + {t} else rest;
  }

  /** Positions counted in AR or AW: from the increment up to the decrement. */
  predicate Active(r: Role, p: Point) { p in {Unlock(r), Inside(r), RelGuard(r), Depart(r)} }

  /** Positions counted in WR or WW. */
  predicate Waiting(r: Role, p: Point) { p in {Enlist(r), DropGuard(r), Asleep(r), Regain(r), UncountWaiter(r)} }

  /** Positions at which the client holds the guard lock. */
  predicate Holds(p: Point) {
    !(p.Away? || p.AcqGuard? || p.Asleep? || p.Regain? || p.Inside? || p.RelGuard?)
  }

  ghost predicate GuardOk(k: State) {
    && (forall t | t in k.at && Holds(k.at[t]) :: k.guard == Some(t))
    && (k.guard != None ==> k.guard.value in k.at && Holds(k.at[k.guard.value]))
  }

  ghost predicate CountsOk(k: State) {
    && k.AR == |Where(k.at, p => Active(Reader, p))| && k.AW == |Where(k.at, p => Active(Writer, p))|
    && k.WR == |Where(k.at, p => Waiting(Reader, p))| && k.WW == |Where(k.at, p => Waiting(Writer, p))|
  }

  ghost predicate Enlisted(k: State, t: Tid, r: Role) {
    t in k.at && (k.at[t] == DropGuard(r) || (k.at[t] == Asleep(r) && t !in k.signalled))
  }

  /** The waiters of a condition variable are the clients that have joined it and were not signalled. */
  ghost predicate QueueOk(k: State, r: Role) {
    && NoDuplicates(Queue(k, r))
    && forall t :: t in Queue(k, r) <==> Enlisted(k, t, r)
  }

  ghost predicate SignalsOk(k: State) {
    forall t | t in k.signalled :: t in k.at && k.at[t].Asleep?
  }

  /** What the client holding the guard knows at point p from its last test of the counters. */
  ghost predicate Known(k: State, p: Point) {
    match p
    case Admit(Reader) => k.AW + k.WW == 0
    case Admit(Writer) => k.AR + k.AW == 0
    case CountWaiter(Reader) => k.AW + k.WW > 0
    case Enlist(Reader) => k.AW + k.WW > 0
    case DropGuard(Reader) => k.AW + k.WW > 0
    case CountWaiter(Writer) => k.AR + k.AW > 0
    case Enlist(Writer) => k.AR + k.AW > 0
    case DropGuard(Writer) => k.AR + k.AW > 0
    case Choose(Writer) => k.AR + k.AW == 0
    case Broadcast => k.WW == 0 && k.AR + k.AW == 0
    case _ => true
  }

  ghost predicate KnowledgeOk(k: State) {
    forall t | t in k.at :: Known(k, k.at[t])
  }

  /** The exclusion that the lock is for. */
  ghost predicate Exclusive(k: State) {
    k.AW <= 1 && (k.AW == 1 ==> k.AR == 0)
  }

  /** A writer that has been signalled and has not yet tested the counters again. */
  ghost predicate Resuming(k: State, t: Tid) {
    t in k.at && ((k.at[t] == Asleep(Writer) && t in k.signalled)
                  || k.at[t] in {Regain(Writer), UncountWaiter(Writer), Test(Writer), Admit(Writer)})
  }

  /** The client holding the guard is about to wake somebody or to become a counted writer. */
  ghost predicate OwnerActs(k: State, ps: set<Point>) {
    k.guard != None && k.guard.value in k.at && k.at[k.guard.value] in ps
  }

  ghost predicate NoReaderStranded(k: State) {
    k.readers != [] ==>
      k.AW + k.WW > 0
      || OwnerActs(k, {Test(Writer), CountWaiter(Writer), Admit(Writer), Choose(Writer), Broadcast})
  }

  ghost predicate NoWriterStranded(k: State) {
    k.writers != [] ==>
      k.AR + k.AW > 0 || (exists t :: Resuming(k, t)) || OwnerActs(k, {Choose(Reader), Choose(Writer)})
  }

  ghost predicate Inv(k: State) {
    && GuardOk(k) && CountsOk(k) && QueueOk(k, Reader) && QueueOk(k, Writer) && SignalsOk(k)
    && KnowledgeOk(k) && Exclusive(k) && NoReaderStranded(k) && NoWriterStranded(k)
  }

  // ---- every step keeps the invariant ----

  lemma GuardStep(k: State, t: Tid, wish: Role)
    requires GuardOk(k) && Enabled(k, t)
    ensures GuardOk(Step(k, t, wish))
  {}

  lemma CountsStep(k: State, t: Tid, wish: Role)
    requires CountsOk(k) && Enabled(k, t)
    ensures CountsOk(Step(k, t, wish))
  {
    var k', p, q := Step(k, t, wish), k.at[t], Target(k, t, wish);
    EffectOnCounts(k, t);
    assert k'.at == k.at[t := q];
    hide Effect, Enabled, Target;
    TargetCounted(k, t, wish, Reader);
    TargetCounted(k, t, wish, Writer);
    CountStep(k.at, t, q, Reader);
    CountStep(k.at, t, q, Writer);
  }

  /** The change each statement makes to the number of active and of waiting clients of role r. */
  function ActiveChange(p: Point, r: Role): int {
    if p == Admit(r) then 1 else if p == Depart(r) then -1 else 0
  }

  function WaitingChange(p: Point, r: Role): int {
    if p == CountWaiter(r) then 1 else if p == UncountWaiter(r) then -1 else 0
  }

  lemma EffectOnCounts(k: State, t: Tid)
    requires Enabled(k, t)
    ensures var e, p := Effect(k, t), k.at[t];
            && e.at == k.at
            && e.AR == k.AR + ActiveChange(p, Reader) && e.AW == k.AW + ActiveChange(p, Writer)
            && e.WR == k.WR + WaitingChange(p, Reader) && e.WW == k.WW + WaitingChange(p, Writer)
  {}

  lemma TargetCounted(k: State, t: Tid, wish: Role, r: Role)
    requires t in k.at
    ensures var p, q := k.at[t], Target(k, t, wish);
            && ActiveChange(p, r) == Delta(Active(r, p), Active(r, q))
            && WaitingChange(p, r) == Delta(Waiting(r, p), Waiting(r, q))
  {}

  function Delta(before: bool, after: bool): int {
    (if after then 1 else 0) - (if before then 1 else 0)
  }

  lemma CountStep(at: map<Tid, Point>, t: Tid, to: Point, r: Role)
    requires t in at
    ensures |Where(at[t := to], p => Active(r, p))|
         == |Where(at, p => Active(r, p))| + Delta(Active(r, at[t]), Active(r, to))
    ensures |Where(at[t := to], p => Waiting(r, p))|
         == |Where(at, p => Waiting(r, p))| + Delta(Waiting(r, at[t]), Waiting(r, to))
  {
    Moved(at, t, to, p => Active(r, p));
    Moved(at, t, to, p => Waiting(r, p));
  }

  /** What a statement does to the two queues and to the signals. */
  lemma EffectOnQueues(k: State, t: Tid)
    requires Enabled(k, t)
    ensures var e, p := Effect(k, t), k.at[t];
            if p.Enlist? then e.signalled == k.signalled && Queue(e, p.r) == Queue(k, p.r) + [t]
                              && (forall r | r != p.r :: Queue(e, r) == Queue(k, r))
            else if p.Asleep? then e == k.(signalled := k.signalled - {t})
            else (e.readers == k.readers && e.writers == k.writers && e.signalled == k.signalled)
                 || (p.Broadcast? && k.readers != [] && e == Signal(k, Reader))
                 || (p.Choose? && k.writers != [] && e == Signal(k, Writer))
  {}

  lemma QueueStep(k: State, t: Tid, wish: Role, r: Role)
    requires GuardOk(k) && QueueOk(k, Reader) && QueueOk(k, Writer) && SignalsOk(k) && Enabled(k, t)
    ensures QueueOk(Step(k, t, wish), r)
  {
    var e, p, to := Effect(k, t), k.at[t], Target(k, t, wish);
    EffectOnCounts(k, t);
    EffectOnQueues(k, t);
    if p.Enlist? {
      EnlistStep(k, e, t, p.r, r);
    } else if p.Broadcast? && k.readers != [] && e == Signal(k, Reader) {
      SignalStep(k, t, Reader, r, to);
    } else if p.Choose? && k.writers != [] && e == Signal(k, Writer) {
      SignalStep(k, t, Writer, r, to);
    } else {
      QuietStep(k, e, t, to, r);
    }
  }

  lemma EnlistStep(k: State, e: State, t: Tid, w: Role, r: Role)
    requires QueueOk(k, r) && t in k.at && k.at[t] == Enlist(w)
    requires e.at == k.at && e.signalled == k.signalled && Queue(e, w) == Queue(k, w) + [t]
    requires forall r | r != w :: Queue(e, r) == Queue(k, r)
    ensures QueueOk(Go(e, t, DropGuard(w)), r)
  {
    var k' := Go(e, t, DropGuard(w));
    assert !Enlisted(k, t, r);
    AppendNew(Queue(k, r), t);
    assert forall u | u != t :: Enlisted(k', u, r) <==> Enlisted(k, u, r);
    assert Enlisted(k', t, r) <==> r == w;
  }

  /** A statement that changes no queue moves its client into or out of no queue. */
  lemma QuietStep(k: State, e: State, t: Tid, to: Point, r: Role)
    requires QueueOk(k, r) && SignalsOk(k) && t in k.at && !k.at[t].Enlist?
    requires e.at == k.at && e.readers == k.readers && e.writers == k.writers
    requires e.signalled == (if k.at[t].Asleep? then k.signalled - {t} else k.signalled)
    requires k.at[t].Asleep? ==> t in k.signalled && to.Regain?
    requires k.at[t].DropGuard? <==> to.Asleep?
    requires k.at[t].DropGuard? ==> to.r == k.at[t].r
    requires !to.DropGuard?
    ensures QueueOk(Go(e, t, to), r)
  {
    var k' := Go(e, t, to);
    assert forall u | u != t :: Enlisted(k', u, r) <==> Enlisted(k, u, r);
    assert Enlisted(k', t, r) <==> Enlisted(k, t, r);
  }

  /** Signalling the waiters of role `w`, seen from the queue of role `r`. */
  lemma SignalStep(k: State, t: Tid, w: Role, r: Role, to: Point)
    requires GuardOk(k) && QueueOk(k, Reader) && QueueOk(k, Writer)
    requires t in k.at && k.guard == Some(t) && !k.at[t].DropGuard? && Queue(k, w) != []
    requires Holds(to) && !to.DropGuard? && Holds(k.at[t])
    ensures QueueOk(Go(Signal(k, w), t, to), r)
  {
    var q, k' := Queue(k, w), Go(Signal(k, w), t, to);
    PopFront(q);
    assert Enlisted(k, q[0], w) && k.at[q[0]] == Asleep(w);
    assert forall u :: Enlisted(k', u, r) <==> Enlisted(k, u, r) && !(u == q[0] && w == r);
  }

  lemma SignalsStep(k: State, t: Tid, wish: Role)
    requires GuardOk(k) && QueueOk(k, Reader) && QueueOk(k, Writer) && SignalsOk(k) && Enabled(k, t)
    ensures SignalsOk(Step(k, t, wish))
  {
    var r, w := Queue(k, Reader), Queue(k, Writer);
    if r != [] {
      assert r[0] in r;
    }
    if w != [] {
      assert w[0] in w;
    }
  }

  lemma Occupied(at: map<Tid, Point>, t: Tid, p: Point -> bool)
    requires t in at && p(at[t])
    ensures |Where(at, p)| > 0
  {
    assert t in Where(at, p);
  }

  ghost predicate NonNegative(k: State) { k.AR >= 0 && k.AW >= 0 && k.WR >= 0 && k.WW >= 0 }

  lemma KnowledgeStep(k: State, t: Tid, wish: Role)
    requires GuardOk(k) && CountsOk(k) && KnowledgeOk(k) && Exclusive(k) && Enabled(k, t)
    ensures KnowledgeOk(Step(k, t, wish))
  {
    var k', p := Step(k, t, wish), k.at[t];
    EffectOnCounts(k, t);
    forall u | u in k'.at ensures Known(k', k'.at[u]) {
      if u != t {
        assert Known(k, k.at[u]);
        if Holds(k.at[u]) {
          assert k.guard == Some(u) && !Holds(p);
          assert ActiveChange(p, Reader) == 0 && ActiveChange(p, Writer) == 0
              && WaitingChange(p, Reader) == 0 && WaitingChange(p, Writer) == 0;
        }
      } else {
        hide Effect, Step;
        OwnKnowledge(k, k', t, wish);
      }
    }
  }

  lemma OwnKnowledge(k: State, k': State, t: Tid, wish: Role)
    requires CountsOk(k) && KnowledgeOk(k) && Exclusive(k) && t in k.at
    requires var p := k.at[t];
             && k'.AR == k.AR + ActiveChange(p, Reader) && k'.AW == k.AW + ActiveChange(p, Writer)
             && k'.WR == k.WR + WaitingChange(p, Reader) && k'.WW == k.WW + WaitingChange(p, Writer)
    ensures Known(k', Target(k, t, wish))
  {
    assert Known(k, k.at[t]);
    if k.at[t] == Depart(Writer) {
      Occupied(k.at, t, p => Active(Writer, p));
    }
  }

  lemma ExclusiveStep(k: State, t: Tid, wish: Role)
    requires CountsOk(k) && KnowledgeOk(k) && Exclusive(k) && Enabled(k, t)
    ensures Exclusive(Step(k, t, wish))
  {
    EffectOnCounts(k, t);
    assert Known(k, k.at[t]);
    hide Effect;
    if k.at[t] == Depart(Reader) {
      Occupied(k.at, t, p => Active(Reader, p));
    }
  }

  lemma QueuedAreCounted(k: State, t: Tid, r: Role)
    requires CountsOk(k) && QueueOk(k, r) && t in Queue(k, r)
    ensures (if r == Reader then k.WR else k.WW) > 0
  {
    assert Enlisted(k, t, r);
    Occupied(k.at, t, p => Waiting(r, p));
  }

  lemma EffectOnGuard(k: State, t: Tid, wish: Role)
    requires GuardOk(k) && Enabled(k, t)
    ensures var k', q := Step(k, t, wish), Target(k, t, wish);
            && k'.at[t] == q
            && (if Holds(k.at[t]) then k.guard == Some(t) && k'.guard == (if Holds(q) then Some(t) else None)
                else if Holds(q) then k.guard == None && k'.guard == Some(t)
                else k'.guard == k.guard && k.guard != Some(t))
  {}

  lemma CountersNonNegative(k: State)
    requires CountsOk(k)
    ensures NonNegative(k)
  {}

  /** A client that does not hold the guard changes no counter and no queue. */
  lemma OutsideStep(k: State, t: Tid)
    requires Enabled(k, t) && !Holds(k.at[t])
    ensures var e := Effect(k, t);
            e.AR == k.AR && e.WR == k.WR && e.AW == k.AW && e.WW == k.WW
            && e.readers == k.readers && e.writers == k.writers
  {}

  lemma ReaderStep(k: State, t: Tid, wish: Role)
    requires Inv(k) && Enabled(k, t)
    ensures NoReaderStranded(Step(k, t, wish))
  {
    var k', p, q := Step(k, t, wish), k.at[t], Target(k, t, wish);
    EffectOnGuard(k, t, wish);
    EffectOnCounts(k, t);
    EffectOnQueues(k, t);
    CountersNonNegative(k);
    assert Known(k, p);
    if k.readers != [] {
      QueuedAreCounted(k, k.readers[0], Reader);
    }
    if !Holds(p) {
      OutsideStep(k, t);
      hide Effect, Target, GuardOk, CountsOk, QueueOk, KnowledgeOk;
      if k'.guard == k.guard && k.guard != None {
        assert k'.at[k.guard.value] == k.at[k.guard.value];
      }
    } else {
      OwnerReaderStep(k, t, wish);
    }
  }

  lemma OwnerReaderStep(k: State, t: Tid, wish: Role)
    requires Enabled(k, t) && k.guard == Some(t) && Holds(k.at[t]) && NonNegative(k) && Known(k, k.at[t])
    requires NoReaderStranded(k) && (k.readers != [] ==> k.WR > 0)
    ensures NoReaderStranded(Step(k, t, wish))
  {
    match k.at[t]
    case _ =>
  }

  lemma WriterStep(k: State, t: Tid, wish: Role)
    requires Inv(k) && Enabled(k, t)
    ensures NoWriterStranded(Step(k, t, wish))
  {
    var k', p, q := Step(k, t, wish), k.at[t], Target(k, t, wish);
    EffectOnGuard(k, t, wish);
    EffectOnCounts(k, t);
    CountersNonNegative(k);
    assert Known(k, p);
    if k.writers != [] {
      QueuedAreCounted(k, k.writers[0], Writer);
      assert Enlisted(k, k.writers[0], Writer);
    }
    if Holds(p) {
      OwnerWriterStep(k, t, wish);
    } else {
      OutsideStep(k, t);
      SignalsAfter(k, t, wish);
      hide Effect, Target, GuardOk, CountsOk, QueueOk, KnowledgeOk;
      if k'.guard == k.guard && k.guard != None {
        assert k'.at[k.guard.value] == k.at[k.guard.value];
      }
      if u :| Resuming(k, u) {
        assert Resuming(k', u);
      }
    }
  }

  lemma SignalsAfter(k: State, t: Tid, wish: Role)
    requires Enabled(k, t) && !Holds(k.at[t])
    ensures forall u | Resuming(k, u) :: Resuming(Step(k, t, wish), u)
  {}

  lemma OwnerWriterStep(k: State, t: Tid, wish: Role)
    requires Enabled(k, t) && k.guard == Some(t) && Holds(k.at[t]) && NonNegative(k) && Known(k, k.at[t])
    requires NoWriterStranded(k) && (k.writers != [] ==> k.WW > 0 && Enlisted(k, k.writers[0], Writer))
    requires GuardOk(k)
    ensures NoWriterStranded(Step(k, t, wish))
  {
    var k', p := Step(k, t, wish), k.at[t];
    if p.Choose? {
      if k'.writers != [] && k.writers != [] {
        assert Holds(DropGuard(Writer)) && k.at[k.writers[0]] == Asleep(Writer);
        assert k'.AR + k'.AW > 0 || Resuming(k', k.writers[0]);
      }
    } else {
      OwnerKeepsResuming(k, t, wish);
    }
  }

  lemma OwnerKeepsResuming(k: State, t: Tid, wish: Role)
    requires Enabled(k, t) && k.guard == Some(t) && Holds(k.at[t]) && NonNegative(k) && Known(k, k.at[t])
    requires NoWriterStranded(k) && !k.at[t].Choose? && (k.writers != [] ==> k.WW > 0)
    ensures NoWriterStranded(Step(k, t, wish))
  {
    var k', p := Step(k, t, wish), k.at[t];
    assert forall u | u != t && Resuming(k, u) :: Resuming(k', u);
    if Resuming(k, t) && !p.Admit? && !(p.Test? && k.AR + k.AW > 0) {
      assert Resuming(k', t);
    }
  }

  lemma StepOk(k: State, t: Tid, wish: Role)
    requires Inv(k) && Enabled(k, t)
    ensures Inv(Step(k, t, wish))
  {
    GuardStep(k, t, wish);
    CountsStep(k, t, wish);
    QueueStep(k, t, wish, Reader);
    QueueStep(k, t, wish, Writer);
    SignalsStep(k, t, wish);
    KnowledgeStep(k, t, wish);
    ExclusiveStep(k, t, wish);
    ReaderStep(k, t, wish);
    WriterStep(k, t, wish);
    hide GuardOk, CountsOk, QueueOk, SignalsOk, KnowledgeOk, Exclusive, NoReaderStranded, NoWriterStranded,
         Step, Enabled;
  }

  // ---- every interleaving ----

  /** rw_lock_init, with any set of clients that are all away. */
  ghost predicate Initial(k: State) {
    && k.guard == None && k.AR == 0 && k.WR == 0 && k.AW == 0 && k.WW == 0
    && k.readers == [] && k.writers == [] && k.signalled == {}
    && forall t | t in k.at :: k.at[t] == Away
  }

  /** An interleaving: which client executes its next statement, and its wish. */
  ghost predicate Leads(k: State, run: seq<(Tid, Role)>, k': State)
    decreases |run|
  {
    if run == [] then k' == k
    else Enabled(k, run[0].0) && Leads(Step(k, run[0].0, run[0].1), run[1..], k')
  }

  lemma InitialOk(k: State)
    requires Initial(k)
    ensures Inv(k)
  {
    assert Where(k.at, p => Active(Reader, p)) == {} && Where(k.at, p => Active(Writer, p)) == {};
    assert Where(k.at, p => Waiting(Reader, p)) == {} && Where(k.at, p => Waiting(Writer, p)) == {};
  }

  lemma {:induction false} RunOk(k: State, run: seq<(Tid, Role)>, k': State)
    requires Inv(k) && Leads(k, run, k')
    ensures Inv(k')
    decreases |run|
  {
    if run != [] {
      StepOk(k, run[0].0, run[0].1);
      RunOk(Step(k, run[0].0, run[0].1), run[1..], k');
    }
  }

  /** Readers exclude writers and writers exclude each other, and the counters count them. */
  lemma ReadersWriters(k: State, run: seq<(Tid, Role)>, k': State)
    requires Initial(k) && Leads(k, run, k')
    ensures k'.AW <= 1 && (k'.AW == 1 ==> k'.AR == 0)
    ensures k'.AR == |Where(k'.at, p => Active(Reader, p))| && k'.AW == |Where(k'.at, p => Active(Writer, p))|
    ensures forall t, u | t in k'.at && u in k'.at && t != u && k'.at[t] == Inside(Writer) :: !k'.at[u].Inside?
    ensures forall t | t in k'.at && k'.at[t] == Admit(Reader) :: k'.AW == 0 && k'.WW == 0
  {
    InitialOk(k);
    RunOk(k, run, k');
    CountersNonNegative(k');
    hide QueueOk, SignalsOk, GuardOk, NoReaderStranded, NoWriterStranded;
    assert forall t | t in k'.at :: Known(k', k'.at[t]);
    forall t, u | t in k'.at && u in k'.at && t != u && k'.at[t] == Inside(Writer) ensures !k'.at[u].Inside? {
      InsideAlone(k', t, u);
    }
  }

  lemma InsideAlone(k: State, t: Tid, u: Tid)
    requires CountsOk(k) && Exclusive(k) && t in k.at && u in k.at && t != u && k.at[t] == Inside(Writer)
    ensures !k.at[u].Inside?
  {
    Occupied(k.at, t, p => Active(Writer, p));
    match k.at[u]
    case Inside(Reader) => Occupied(k.at, u, p => Active(Reader, p));
    case Inside(Writer) => TwoOccupied(k.at, t, u, p => Active(Writer, p));
    case _ =>
  }

  lemma TwoOccupied(at: map<Tid, Point>, t: Tid, u: Tid, p: Point -> bool)
    requires t in at && u in at && t != u && p(at[t]) && p(at[u])
    ensures |Where(at, p)| >= 2
  {
    var w := Where(at, p);
    assert w == (w - {t} - {u}) + {t} + {u};
  }

  /** Between critical sections of the guard, a sleeping reader that has not been signalled is kept
      out by a writer, and a sleeping writer that has not been signalled is kept out by an active
      client or by another writer that was signalled and has not resumed. */
  lemma SleepersHaveAReason(k: State, run: seq<(Tid, Role)>, k': State, t: Tid)
    requires Initial(k) && Leads(k, run, k') && k'.guard == None && t in k'.at && t !in k'.signalled
    ensures k'.at[t] == Asleep(Reader) ==> k'.AW + k'.WW > 0
    ensures k'.at[t] == Asleep(Writer) ==>
              k'.AR + k'.AW > 0
              || exists u :: u in k'.at && u != t
                   && ((k'.at[u] == Asleep(Writer) && u in k'.signalled) || k'.at[u] == Regain(Writer))
  {
    InitialOk(k);
    RunOk(k, run, k');
    assert Enlisted(k', t, Reader) || Enlisted(k', t, Writer) || !k'.at[t].Asleep?;
    if k'.at[t] == Asleep(Writer) && k'.AR + k'.AW <= 0 {
      CountersNonNegative(k');
      assert t in k'.writers;
      var u :| Resuming(k', u);
      assert !Holds(k'.at[u]);
    }
    if k'.at[t] == Asleep(Reader) {
      assert t in k'.readers;
    }
  }

  /** No deadlock: while any client is not away, some client that is not away can execute its next
      statement. */
  lemma NoDeadlock(k: State, run: seq<(Tid, Role)>, k': State, t: Tid)
    requires Initial(k) && Leads(k, run, k') && t in k'.at && !k'.at[t].Away?
    ensures exists u :: u in k'.at && !k'.at[u].Away? && Enabled(k', u)
  {
    InitialOk(k);
    RunOk(k, run, k');
    if k'.guard != None {
      assert Enabled(k', k'.guard.value);
    } else if !Enabled(k', t) {
      assert k'.at[t].Asleep? && t !in k'.signalled;
      Unstuck(k', t);
    }
  }

  lemma Unstuck(k: State, t: Tid)
    requires Inv(k) && k.guard == None && t in k.at && k.at[t].Asleep? && t !in k.signalled
    ensures exists u :: u in k.at && !k.at[u].Away? && Enabled(k, u)
  {
    CountersNonNegative(k);
    assert Enlisted(k, t, k.at[t].r);
    if k.AR > 0 {
      Blocker(k, p => Active(Reader, p));
    } else if k.AW > 0 {
      Blocker(k, p => Active(Writer, p));
    } else {
      if k.at[t] == Asleep(Reader) {
        assert k.WW > 0;
        var u := Member(k.at, p => Waiting(Writer, p));
        assert !Holds(k.at[u]);
        if !Enabled(k, u) {
          assert Enlisted(k, u, Writer);
        }
      }
      if k.writers != [] {
        var u :| Resuming(k, u);
        assert !Holds(k.at[u]) && Enabled(k, u);
      }
    }
  }

  lemma Member(at: map<Tid, Point>, p: Point -> bool) returns (t: Tid)
    requires |Where(at, p)| > 0
    ensures t in at && p(at[t])
  {
    t :| t in Where(at, p);
  }

  lemma Blocker(k: State, p: Point -> bool)
    requires GuardOk(k) && k.guard == None && |Where(k.at, p)| > 0
    requires forall q | p(q) :: Active(Reader, q) || Active(Writer, q)
    ensures exists u :: u in k.at && !k.at[u].Away? && Enabled(k, u)
  {
    var u := Member(k.at, p);
    assert !Holds(k.at[u]) && Enabled(k, u);
  }

  // ---- the code, changing its variables in place ----

  /** struct rw_lock, its guard and its two condition variables, with the clients' positions. */
  class Lock {
    var guard: Option<Tid>
    var AR: int
    var WR: int
    var AW: int
    var WW: int
    var readers: seq<Tid>
    var writers: seq<Tid>
    var at: map<Tid, Point>
    var signalled: set<Tid>

    function Now(): State
      reads this
    {
      State(guard, AR, WR, AW, WW, readers, writers, at, signalled)
    }

    /** rw_lock_init */
    constructor (clients: set<Tid>)
      ensures Initial(Now()) && at.Keys == clients
    {
      guard, AR, WR, AW, WW := None, 0, 0, 0, 0;
      readers, writers, signalled := [], [], {};
      at := map t | t in clients :: Away;
    }

    method CondSignal(r: Role)
      modifies this
      ensures Now() == Signal(old(Now()), r)
    {
      if r == Reader {
        if readers != [] {
          signalled := signalled + {readers[0]};
          readers := readers[1..];
        }
      } else if writers != [] {
        signalled := signalled + {writers[0]};
        writers := writers[1..];
      }
    }

    /** Client t executes its next statement. */
    method Execute(t: Tid, wish: Role)
      requires Inv(Now()) && Enabled(Now(), t)
      modifies this
      ensures Now() == Step(old(Now()), t, wish) && Inv(Now())
    {
      StepOk(Now(), t, wish);
      hide Inv;
      var next := Target(Now(), t, wish);
      ghost var k := Now();
      RunStatement(t);
      at := at[t := next];
    }

    method RunStatement(t: Tid)
      requires Enabled(Now(), t)
      modifies this
      ensures Now() == Effect(old(Now()), t)
    {
      match at[t] {
        case AcqGuard(_) => guard := Some(t);
        case CountWaiter(r) => if r == Reader { WR := WR + 1; } else { WW := WW + 1; }
        case Enlist(r) => if r == Reader { readers := readers + [t]; } else { writers := writers + [t]; }
        case DropGuard(_) => guard := None;
        case Asleep(_) => signalled := signalled - {t};
        case Regain(_) => guard := Some(t);
        case UncountWaiter(r) => if r == Reader { WR := WR - 1; } else { WW := WW - 1; }
        case Admit(r) => if r == Reader { AR := AR + 1; } else { AW := AW + 1; }
        case Unlock(_) => guard := None;
        case RelGuard(_) => guard := Some(t);
        case Depart(r) => if r == Reader { AR := AR - 1; } else { AW := AW - 1; }
        case Choose(Reader) => if AR == 0 && WW > 0 { CondSignal(Writer); }
        case Choose(Writer) => if WW > 0 { CondSignal(Writer); }
        case Broadcast => CondSignal(Reader);
        case Finish(_) => guard := None;
        case _ =>
      }
    }
  }
}
