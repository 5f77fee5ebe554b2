/** Threads, the FIFO scheduler, semaphores and locks (threads/thread.c, threads/synch.c) as one
    step machine. A step is one region that the code executes with interrupts off. */
module Kernel {
  import opened Queues
  import opened Wrappers

  type Tid = nat
  type Sid = nat

  datatype Status = Running | Ready | Blocked | Dying

  /** Where a thread stands in the code of synch.c. */
  datatype Place =
    | User                 // outside
    | InDown(s: Sid)       // in the wait loop of sema_down
    | GotLock(s: Sid)      // lock_acquire: past sema_down, holder not yet set
    | Releasing(s: Sid)    // lock_release: holder cleared, sema_up still to come

  /** A semaphore with the history the laws speak of: its initial value, the number of ups and of
      completed downs. For the semaphore inside a lock, `inside` holds the threads that have come
      out of sema_down and not yet gone through sema_up, and `holder` is the lock's field. */
  datatype Sema = Sema(value: nat, waiters: seq<Tid>,
                       isLock: bool, holder: Option<Tid>, inside: set<Tid>,
                       initial: nat, ups: nat, downs: nat)

  datatype State = State(status: map<Tid, Status>, place: map<Tid, Place>, ready: seq<Tid>,
                         current: Tid, idle: Tid, first: Tid, nextTid: Tid, semas: seq<Sema>)

  // ---- scheduling ----

  /** thread_enqueue, followed by the status change of thread_unblock and thread_yield. */
  function Enqueue(k: State, t: Tid): State {
    k.(ready := k.ready + [t], status := k.status[t := Ready])
  }

  /** thread_schedule_fifo: the front of the ready list, or the idle thread. */
  function NextThread(k: State): Tid {
    if k.ready != [] then k.ready[0] else k.idle
  }

  /** The switch itself: the next thread leaves the ready list and becomes the running one. */
  function Dispatch(k: State): State {
    var next := NextThread(k);
    k.(ready := if k.ready != [] then k.ready[1..] else [], current := next, status := k.status[next := Running])
  }

  /** The end of thread_switch_tail: the thread just left is destroyed if it is dying, unless it is
      the initial thread. */
  function Reap(k: State, prev: Tid): State {
    if prev != k.current && prev in k.status && k.status[prev] == Dying && prev != k.first then
      k.(status := k.status - {prev}, place := k.place - {prev})
    else k
  }

  /** schedule */
  function Schedule(k: State): State { Reap(Dispatch(k), k.current) }

  /** thread_block */
  function Block(k: State): State {
    Schedule(k.(status := k.status[k.current := Blocked]))
  }

  // ---- semaphores ----

  /** One round of the loop in sema_down, executed by the current thread: sleep if the value is
      zero, otherwise take one and leave the loop. */
  function DownRound(k: State, s: Sid): State
    requires s < |k.semas|
  {
    var sema := k.semas[s];
    if sema.value == 0 then
      Block(k.(semas := k.semas[s := sema.(waiters := sema.waiters + [k.current])],
               place := k.place[k.current := InDown(s)]))
    else
      Taken(k, s)
  }

  /** The decrement at the end of sema_down and in sema_try_down. */
  function Taken(k: State, s: Sid): State
    requires s < |k.semas| && k.semas[s].value > 0
  {
    var sema := k.semas[s];
    var sema' := sema.(value := sema.value - 1, downs := sema.downs + 1,
                       inside := if sema.isLock then sema.inside + {k.current} else sema.inside);
    k.(semas := k.semas[s := sema'],
       place := k.place[k.current := if sema.isLock then GotLock(s) else User])
  }

  /** sema_try_down on a plain semaphore, wherever the interrupted thread stands. */
  function Tried(k: State, s: Sid): State
    requires s < |k.semas| && k.semas[s].value > 0
  {
    k.(semas := k.semas[s := k.semas[s].(value := k.semas[s].value - 1, downs := k.semas[s].downs + 1)])
  }

  /** sema_up, apart from what lock_release adds. */
  function Up(k: State, s: Sid): State
    requires s < |k.semas|
  {
    var sema := k.semas[s];
    var woken := if sema.waiters == [] then k else Enqueue(k, sema.waiters[0]);
    var sema' := sema.(value := sema.value + 1, ups := sema.ups + 1,
                       waiters := if sema.waiters == [] then [] else sema.waiters[1..]);
    woken.(semas := k.semas[s := sema'])
  }

  /** sema_init and lock_init */
  function NewSema(value: nat, isLock: bool): Sema {
    Sema(value, [], isLock, None, {}, value, 0, 0)
  }

  // ---- steps ----

  datatype Action =
    | Yield              // thread_yield, by the thread itself or on return from a timer interrupt
    | IdleBlock          // the idle thread's loop
    | Create             // thread_create
    | Exit               // thread_exit
    | Down(s: Sid)       // sema_down, or lock_acquire on the semaphore of a lock
    | Retry              // a thread woken in sema_down tests the value again
    | TryDown(s: Sid)    // sema_try_down, also from an interrupt handler, and lock_try_acquire
    | SemaUp(s: Sid)     // sema_up on a plain semaphore, also from an interrupt handler
    | SetHolder          // the last statement of lock_acquire
    | ClearHolder(s: Sid)  // the first statement of lock_release
    | LockUp             // the second statement of lock_release
    | Init(value: nat, isLock: bool)  // sema_init, or lock_init with the value 1

  /** Which steps the current thread can take. A thread in the wait loop still has interrupts off,
      so testing again is the only thing it can do. */
  ghost predicate Enabled(k: State, a: Action) {
    k.current in k.place &&
    var p := k.place[k.current];
    match a
    case Yield => !p.InDown?
    case IdleBlock => k.current == k.idle && p == User
    case Create => p == User && k.current != k.idle
    case Exit => p == User && k.current != k.idle
    case Down(s) => p == User && k.current != k.idle && s < |k.semas|
                    && (k.semas[s].isLock ==> k.semas[s].holder != Some(k.current))
    case Retry => p.InDown?
    case TryDown(s) => s < |k.semas| && !p.InDown?
                       && (k.semas[s].isLock ==> p == User && k.current != k.idle
                                                   && k.semas[s].holder != Some(k.current))
    case SemaUp(s) => !p.InDown? && s < |k.semas| && !k.semas[s].isLock
    case SetHolder => p.GotLock?
    case ClearHolder(s) => p == User && k.current != k.idle && s < |k.semas| && k.semas[s].isLock
                           && k.semas[s].holder == Some(k.current)
    case LockUp => p.Releasing?
    case Init(value, isLock) => p == User && k.current != k.idle && (isLock ==> value == 1)
  }

  ghost predicate PlacesInRange(k: State) {
    forall t | t in k.place :: !k.place[t].User? ==> k.place[t].s < |k.semas|
  }

  function Step(k: State, a: Action): State
    requires PlacesInRange(k) && Enabled(k, a)
  {
    var t := k.current;
    match a
    case Yield => Schedule(if t != k.idle then Enqueue(k, t) else k.(status := k.status[t := Ready]))
    case IdleBlock => Block(k)
    case Create =>
      Enqueue(k.(place := k.place[k.nextTid := User], nextTid := k.nextTid + 1), k.nextTid)
    case Exit => Schedule(k.(status := k.status[t := Dying]))
    case Down(s) => DownRound(k, s)
    case Retry => DownRound(k, k.place[t].s)
    case TryDown(s) =>
      if k.semas[s].value == 0 then k else if k.semas[s].isLock then Taken(k, s) else Tried(k, s)
    case SemaUp(s) => Up(k, s)
    case SetHolder =>
      var s := k.place[t].s;
      k.(semas := k.semas[s := k.semas[s].(holder := Some(t))], place := k.place[t := User])
    case ClearHolder(s) =>
      k.(semas := k.semas[s := k.semas[s].(holder := None)], place := k.place[t := Releasing(s)])
    case LockUp =>
      var s := k.place[t].s;
      var k' := Up(k, s);
      k'.(place := k'.place[t := User],
          semas := k'.semas[s := k'.semas[s].(inside := k'.semas[s].inside - {t})])
    case Init(value, isLock) => k.(semas := k.semas + [NewSema(value, isLock)])
  }

  // ---- the invariant ----

  /** What holds of threads and the ready list at every moment, also in the middle of a switch. */
  ghost predicate ThreadsOk(k: State) {
    && k.place.Keys == k.status.Keys
    && PlacesInRange(k)
    && (forall t | t in k.status :: t < k.nextTid)
    && k.current in k.status
    && k.idle in k.status && k.place[k.idle] == User && k.status[k.idle] != Dying
    && k.first < k.nextTid
    && NoDuplicates(k.ready)
    && (forall t :: t in k.ready <==> t in k.status && k.status[t] == Ready && t != k.idle)
    && (forall t | t in k.status && k.status[t] == Blocked && t != k.idle :: k.place[t].InDown?)
    && (forall t | t in k.status && k.place[t].InDown? ::
          k.status[t] != Dying && (k.status[t] == Blocked <==> t in k.semas[k.place[t].s].waiters))
    && (forall t | t in k.status && k.status[t] == Dying :: k.place[t] == User)
  }

  /** Exactly one thread runs. */
  ghost predicate OneRunning(k: State) {
    && k.current in k.status
    && (forall t | t in k.status :: k.status[t] == Running <==> t == k.current)
    && (forall t | t in k.status :: k.status[t] == Dying ==> t == k.first)
  }

  /** In the middle of a switch: nobody runs, and only the thread being left may be a new corpse. */
  ghost predicate Switching(k: State) {
    && k.current in k.status
    && (forall t | t in k.status :: k.status[t] != Running)
    && (forall t | t in k.status :: k.status[t] == Dying ==> t == k.first || t == k.current)
    && (k.status[k.current] == Dying ==> k.current != k.idle)
  }

  /** Threads that an up has taken off the waiters and that have not tested the value since. */
  ghost function Woken(k: State, s: Sid): set<Tid> {
    set t | t in k.place && t in k.status && k.place[t] == InDown(s) && k.status[t] != Blocked
  }

  ghost predicate SemaOk(k: State, s: Sid)
    requires s < |k.semas|
  {
    var sema := k.semas[s];
    && NoDuplicates(sema.waiters)
    && (forall t | t in sema.waiters ::
          t in k.place && t in k.status && k.place[t] == InDown(s) && k.status[t] == Blocked)
    && sema.initial + sema.ups == sema.value + sema.downs
    && (sema.waiters != [] ==> sema.value <= |Woken(k, s)|)
  }

  ghost predicate LockOk(k: State, s: Sid)
    requires s < |k.semas|
  {
    var sema := k.semas[s];
    && (sema.isLock ==> sema.value + |sema.inside| == 1)
    && (forall t | t in sema.inside :: t < k.nextTid)
    && (forall t | t in k.place && k.place[t] in {GotLock(s), Releasing(s)} ::
          sema.isLock && t in sema.inside && sema.holder == None)
    && (sema.holder != None ==> sema.isLock && sema.holder.value in sema.inside)
    && (sema.isLock && sema.holder == None ==>
          forall t | t in sema.inside :: t in k.place && k.place[t] in {GotLock(s), Releasing(s)})
  }

  ghost predicate SemasOk(k: State) {
    forall s | 0 <= s < |k.semas| :: SemaOk(k, s) && LockOk(k, s)
  }

  ghost predicate Inv(k: State) {
    ThreadsOk(k) && OneRunning(k) && SemasOk(k)
  }

  // ---- scheduling keeps it ----

  lemma ScheduleOk(k: State)
    requires ThreadsOk(k) && Switching(k) && SemasOk(k)
    ensures Inv(Schedule(k))
  {
    ScheduleThreads(k);
    ScheduleSemas(k);
  }

  /** Corpses other than the initial thread: at most the thread being left. */
  ghost predicate Corpses(k: State, prev: Tid) {
    && (forall t | t in k.status :: k.status[t] == Dying ==> t == k.first || t == prev)
    && (forall t | t in k.status :: k.status[t] == Running <==> t == k.current)
    && k.current in k.status
  }

  lemma DispatchThreads(k: State)
    requires ThreadsOk(k) && Switching(k)
    ensures ThreadsOk(Dispatch(k)) && Corpses(Dispatch(k), k.current)
  {
    DispatchReady(k);
    DispatchCorpses(k);
    hide Switching, NoDuplicates, Corpses;
  }

  lemma DispatchCorpses(k: State)
    requires ThreadsOk(k) && Switching(k)
    ensures NextThread(k) in k.status && k.status[NextThread(k)] in {Ready, Blocked} && Corpses(Dispatch(k), k.current)
  {
    hide NoDuplicates, PlacesInRange;
  }

  lemma DispatchReady(k: State)
    requires ThreadsOk(k) && Switching(k)
    ensures var m := Dispatch(k);
            && m.status.Keys == k.status.Keys && NoDuplicates(m.ready)
            && forall t :: t in m.ready <==> t in m.status && m.status[t] == Ready && t != m.idle
  {
    if k.ready != [] {
      PopFront(k.ready);
    }
    hide PlacesInRange;
  }

  lemma ReapThreads(k: State, prev: Tid)
    requires ThreadsOk(k) && Corpses(k, prev)
    ensures ThreadsOk(Reap(k, prev)) && OneRunning(Reap(k, prev))
  {
    var k' := Reap(k, prev);
    assert k'.status.Keys <= k.status.Keys && k'.place.Keys == k'.status.Keys;
  }

  lemma ScheduleThreads(k: State)
    requires ThreadsOk(k) && Switching(k)
    ensures ThreadsOk(Schedule(k)) && OneRunning(Schedule(k))
  {
    DispatchThreads(k);
    ReapThreads(Dispatch(k), k.current);
  }

  ghost predicate Busy(k: State, t: Tid, s: Sid) {
    t in k.place && t in k.status && k.place[t] != User && k.place[t].s == s
  }

  /** Nothing that semaphore `s` speaks about differs between the two states. */
  ghost predicate SameFor(k: State, k': State, s: Sid) {
    && s < |k.semas| && s < |k'.semas| && k'.semas[s] == k.semas[s] && k.nextTid <= k'.nextTid
    && (forall t {:trigger Busy(k', t, s)} {:trigger Busy(k, t, s)} :: Busy(k', t, s) <==> Busy(k, t, s))
    && (forall t {:trigger Busy(k', t, s)} | Busy(k', t, s) ::
          k'.place[t] == k.place[t] && (k'.status[t] == Blocked <==> k.status[t] == Blocked))
  }

  lemma SemaFrame(k: State, k': State, s: Sid)
    requires SameFor(k, k', s) && k.place.Keys == k.status.Keys && k'.place.Keys == k'.status.Keys
    requires SemaOk(k, s) && LockOk(k, s)
    ensures SemaOk(k', s) && LockOk(k', s)
  {
    assert forall t | t in k.place && k.place[t] != User && k.place[t].s == s :: Busy(k, t, s);
    assert forall t | t in k'.place && k'.place[t] != User && k'.place[t].s == s :: Busy(k', t, s);
    forall t ensures t in Woken(k, s) <==> t in Woken(k', s) {
      assert t in Woken(k, s) ==> Busy(k, t, s);
      assert t in Woken(k', s) ==> Busy(k', t, s);
    }
    assert Woken(k', s) == Woken(k, s);
  }

  lemma SemasFrame(k: State, k': State)
    requires |k.semas| == |k'.semas| && forall s | 0 <= s < |k.semas| :: SameFor(k, k', s)
    requires k.place.Keys == k.status.Keys && k'.place.Keys == k'.status.Keys && SemasOk(k)
    ensures SemasOk(k')
  {
    forall s | 0 <= s < |k'.semas| ensures SemaOk(k', s) && LockOk(k', s) {
      assert SemaOk(k, s) && LockOk(k, s);
      SemaFrame(k, k', s);
    }
  }

  lemma ScheduleSemas(k: State)
    requires ThreadsOk(k) && Switching(k) && SemasOk(k)
    ensures SemasOk(Schedule(k))
  {
    hide SemaOk, LockOk, SameFor, Switching, Corpses, OneRunning;
    DispatchThreads(k);
    ReapThreads(Dispatch(k), k.current);
    forall s | 0 <= s < |k.semas| ensures SameFor(k, Dispatch(k), s) {
      DispatchSame(k, s);
    }
    SemasFrame(k, Dispatch(k));
    forall s | 0 <= s < |k.semas| ensures SameFor(Dispatch(k), Schedule(k), s) {
      ReapSame(Dispatch(k), k.current, s);
    }
    SemasFrame(Dispatch(k), Schedule(k));
  }

  lemma DispatchSame(k: State, s: Sid)
    requires ThreadsOk(k) && Switching(k) && s < |k.semas|
    ensures SameFor(k, Dispatch(k), s)
  {
    if k.ready != [] {
      assert k.ready[0] in k.ready;
    }
  }

  lemma ReapSame(k: State, prev: Tid, s: Sid)
    requires ThreadsOk(k) && s < |k.semas|
    ensures SameFor(k, Reap(k, prev), s)
  {}

  // ---- each step keeps it ----

  function Yielding(k: State): State {
    if k.current != k.idle then Enqueue(k, k.current) else k.(status := k.status[k.current := Ready])
  }

  lemma YieldOk(k: State)
    requires Inv(k) && Enabled(k, Yield)
    ensures Inv(Step(k, Yield))
  {
    YieldingThreads(k);
    YieldingSemas(k);
    hide ThreadsOk, Switching, SemasOk, OneRunning, Schedule, Inv;
    ScheduleOk(Yielding(k));
  }

  lemma YieldingThreads(k: State)
    requires Inv(k) && Enabled(k, Yield)
    ensures ThreadsOk(Yielding(k)) && Switching(Yielding(k))
  {
    hide SemasOk;
    assert Yielding(k).status.Keys == k.status.Keys;
    assert k.current !in k.ready;
  }

  lemma YieldingSemas(k: State)
    requires Inv(k) && Enabled(k, Yield)
    ensures SemasOk(Yielding(k))
  {
    assert Yielding(k).status.Keys == k.status.Keys;
    SemasFrame(k, Yielding(k));
  }

  lemma IdleBlockOk(k: State)
    requires Inv(k) && Enabled(k, IdleBlock)
    ensures Inv(Step(k, IdleBlock))
  {
    var m := k.(status := k.status[k.current := Blocked]);
    assert m.status.Keys == k.status.Keys;
    SemasFrame(k, m);
    ScheduleOk(m);
  }

  lemma ExitOk(k: State)
    requires Inv(k) && Enabled(k, Exit)
    ensures Inv(Step(k, Exit))
  {
    var m := k.(status := k.status[k.current := Dying]);
    assert m.status.Keys == k.status.Keys;
    SemasFrame(k, m);
    ScheduleOk(m);
  }

  lemma CreateOk(k: State)
    requires Inv(k) && Enabled(k, Create)
    ensures Inv(Step(k, Create))
  {
    var m := Step(k, Create);
    var t := k.nextTid;
    assert t !in k.status && t !in k.ready;
    assert m.status.Keys == k.status.Keys + {t} && m.place.Keys == k.place.Keys + {t};
    SemasFrame(k, m);
  }

  /** All semaphores but `s` are untouched. */
  lemma OthersOk(k: State, k': State, s: Sid)
    requires s < |k.semas| == |k'.semas| && SemasOk(k)
    requires forall s' | 0 <= s' < |k.semas| && s' != s :: SameFor(k, k', s')
    requires k.place.Keys == k.status.Keys && k'.place.Keys == k'.status.Keys
    requires SemaOk(k', s) && LockOk(k', s)
    ensures SemasOk(k')
  {
    forall s' | 0 <= s' < |k'.semas| ensures SemaOk(k', s') && LockOk(k', s') {
      assert SemaOk(k, s') && LockOk(k, s');
      if s' != s {
        SemaFrame(k, k', s');
      }
    }
  }

  /** The state in which sema_down calls schedule. */
  function Asleep(k: State, s: Sid): State
    requires s < |k.semas|
  {
    var sema := k.semas[s];
    k.(semas := k.semas[s := sema.(waiters := sema.waiters + [k.current])],
       place := k.place[k.current := InDown(s)],
       status := k.status[k.current := Blocked])
  }

  /** Only thread `t`, which is at `s` or outside, and semaphore `s` may differ. */
  ghost predicate LocalChange(k: State, m: State, t: Tid, s: Sid) {
    && |m.semas| == |k.semas| && (forall s' | 0 <= s' < |k.semas| && s' != s :: m.semas[s'] == k.semas[s'])
    && m.nextTid == k.nextTid
    && m.status.Keys == k.status.Keys && m.place.Keys == k.place.Keys == k.status.Keys
    && (forall u | u in k.status && u != t :: m.place[u] == k.place[u] && m.status[u] == k.status[u])
    && t in k.place && (k.place[t] == User || k.place[t].s == s) && (m.place[t] == User || m.place[t].s == s)
  }

  lemma LocalSame(k: State, m: State, t: Tid, s: Sid, s': Sid)
    requires LocalChange(k, m, t, s) && s' < |k.semas| && s' != s
    ensures SameFor(k, m, s')
  {
    assert forall u :: Busy(m, u, s') <==> Busy(k, u, s');
  }

  lemma LocalChangeOk(k: State, m: State, t: Tid, s: Sid)
    requires LocalChange(k, m, t, s) && s < |k.semas| && SemasOk(k) && SemaOk(m, s) && LockOk(m, s)
    ensures SemasOk(m)
  {
    forall s' | 0 <= s' < |k.semas| && s' != s ensures SameFor(k, m, s') {
      LocalSame(k, m, t, s, s');
    }
    hide LocalChange, SameFor, SemaOk, LockOk;
    OthersOk(k, m, s);
  }

  lemma AsleepOk(k: State, s: Sid)
    requires Inv(k) && s < |k.semas| && k.semas[s].value == 0
    requires k.current != k.idle && k.place[k.current] in {User, InDown(s)}
    ensures ThreadsOk(Asleep(k, s)) && Switching(Asleep(k, s)) && SemasOk(Asleep(k, s))
  {
    AsleepThreads(k, s);
    AsleepSwitching(k, s);
    AsleepSema(k, s);
    AsleepLocal(k, s);
    hide ThreadsOk, Switching, SemaOk, LockOk, LocalChange, Asleep;
    LocalChangeOk(k, Asleep(k, s), k.current, s);
  }

  lemma AsleepLocal(k: State, s: Sid)
    requires Inv(k) && s < |k.semas|
    requires k.current != k.idle && k.place[k.current] in {User, InDown(s)}
    ensures LocalChange(k, Asleep(k, s), k.current, s)
  {}

  lemma AsleepThreads(k: State, s: Sid)
    requires Inv(k) && s < |k.semas|
    requires k.current != k.idle && k.place[k.current] in {User, InDown(s)}
    ensures ThreadsOk(Asleep(k, s))
  {
    AsleepWaiting(k, s);
    AsleepReady(k, s);
    hide SemasOk, NoDuplicates;
  }

  lemma AsleepReady(k: State, s: Sid)
    requires Inv(k) && s < |k.semas| && k.current != k.idle
    ensures var m := Asleep(k, s);
            && NoDuplicates(m.ready)
            && forall t :: t in m.ready <==> t in m.status && m.status[t] == Ready && t != m.idle
  {
    hide SemasOk, NoDuplicates, PlacesInRange;
    assert k.current !in k.ready;
  }

  /** The running thread is the one that comes to the waiters. */
  lemma AsleepWaiting(k: State, s: Sid)
    requires Inv(k) && s < |k.semas|
    requires k.current != k.idle && k.place[k.current] in {User, InDown(s)}
    ensures var m := Asleep(k, s);
            && m.status.Keys == m.place.Keys == k.status.Keys && PlacesInRange(m)
            && (forall t | t in m.status && m.status[t] == Blocked && t != m.idle :: m.place[t].InDown?)
            && (forall t | t in m.status && m.place[t].InDown? ::
                  m.status[t] != Dying && (m.status[t] == Blocked <==> t in m.semas[m.place[t].s].waiters))
  {
    hide SemasOk, NoDuplicates;
  }

  lemma AsleepSwitching(k: State, s: Sid)
    requires Inv(k) && s < |k.semas|
    requires k.current != k.idle && k.place[k.current] in {User, InDown(s)}
    ensures Switching(Asleep(k, s))
  {
    hide SemasOk;
  }

  lemma AsleepSema(k: State, s: Sid)
    requires Inv(k) && s < |k.semas| && k.semas[s].value == 0
    requires k.current != k.idle && k.place[k.current] in {User, InDown(s)}
    ensures SemaOk(Asleep(k, s), s) && LockOk(Asleep(k, s), s)
  {
    assert SemaOk(k, s) && LockOk(k, s);
    AppendNew(k.semas[s].waiters, k.current);
  }

  lemma TakenOk(k: State, s: Sid)
    requires Inv(k) && s < |k.semas| && k.semas[s].value > 0
    requires k.current != k.idle && k.place[k.current] in {User, InDown(s)}
    ensures Inv(Taken(k, s))
  {
    var m := Taken(k, s);
    assert SemaOk(k, s) && LockOk(k, s);
    TakenSema(k, s);
    assert LocalChange(k, m, k.current, s);
    LocalChangeOk(k, m, k.current, s);
    assert ThreadsOk(m) && OneRunning(m);
  }

  lemma TriedOk(k: State, s: Sid)
    requires Inv(k) && s < |k.semas| && k.semas[s].value > 0 && !k.semas[s].isLock
    ensures Inv(Tried(k, s))
  {
    var m := Tried(k, s);
    assert SemaOk(k, s) && LockOk(k, s);
    assert forall s' | 0 <= s' < |k.semas| :: Woken(m, s') == Woken(k, s');
    forall s' | 0 <= s' < |m.semas| ensures SemaOk(m, s') && LockOk(m, s') {
      assert SemaOk(k, s') && LockOk(k, s');
    }
  }

  lemma TakenSema(k: State, s: Sid)
    requires s < |k.semas| && SemaOk(k, s) && LockOk(k, s) && k.semas[s].value > 0
    requires k.place.Keys == k.status.Keys && k.current in k.status && k.current < k.nextTid
    requires k.status[k.current] == Running && k.place[k.current] in {User, InDown(s)}
    ensures SemaOk(Taken(k, s), s) && LockOk(Taken(k, s), s)
  {
    var m, t := Taken(k, s), k.current;
    assert Woken(m, s) == Woken(k, s) - {t};
    if k.semas[s].isLock {
      assert k.semas[s].inside == {};
    }
  }

  lemma DownRoundOk(k: State, s: Sid)
    requires Inv(k) && s < |k.semas| && k.current != k.idle && k.place[k.current] in {User, InDown(s)}
    ensures Inv(DownRound(k, s))
  {
    if k.semas[s].value == 0 {
      AsleepOk(k, s);
      hide Inv, ThreadsOk, Switching, SemasOk;
      ScheduleOk(Asleep(k, s));
    } else {
      TakenOk(k, s);
    }
  }

  /** What sema_up does to threads. */
  lemma UpThreads(k: State, s: Sid)
    requires Inv(k) && s < |k.semas|
    ensures ThreadsOk(Up(k, s)) && OneRunning(Up(k, s))
  {
    var m, w := Up(k, s), k.semas[s].waiters;
    assert SemaOk(k, s);
    if w != [] {
      PopFront(w);
      AppendNew(k.ready, w[0]);
      assert m.status.Keys == k.status.Keys;
    }
  }

  /** What sema_up does to its semaphore. */
  lemma UpSema(k: State, s: Sid)
    requires Inv(k) && s < |k.semas|
    ensures SemaOk(Up(k, s), s)
  {
    var m, w := Up(k, s), k.semas[s].waiters;
    assert SemaOk(k, s);
    if w != [] {
      PopFront(w);
      assert Woken(m, s) == Woken(k, s) + {w[0]};
    }
  }

  lemma UpLocal(k: State, s: Sid)
    requires Inv(k) && s < |k.semas|
    ensures var w := k.semas[s].waiters; LocalChange(k, Up(k, s), if w != [] then w[0] else k.idle, s)
  {
    assert SemaOk(k, s);
    if k.semas[s].waiters != [] {
      assert k.semas[s].waiters[0] in k.semas[s].waiters;
    }
  }

  lemma SemaUpOk(k: State, s: Sid)
    requires Inv(k) && s < |k.semas| && !k.semas[s].isLock
    ensures Inv(Up(k, s))
  {
    var w := k.semas[s].waiters;
    UpThreads(k, s);
    UpSema(k, s);
    UpLocal(k, s);
    assert LockOk(Up(k, s), s) by {
      assert LockOk(k, s);
    }
    LocalChangeOk(k, Up(k, s), if w != [] then w[0] else k.idle, s);
  }

  lemma SingleInside(k: State, s: Sid, t: Tid)
    requires s < |k.semas| && LockOk(k, s) && k.semas[s].isLock && t in k.semas[s].inside
    ensures k.semas[s].inside == {t} && k.semas[s].value == 0
  {
    var rest := k.semas[s].inside - {t};
    assert k.semas[s].inside == rest + {t};
    assert |rest| == 0;
  }

  /** lock_acquire past sema_down, or lock_release before sema_up: the holder field and the place of the
      running thread change. */
  ghost predicate HolderStep(k: State, a: Action, s: Sid) {
    && Inv(k) && Enabled(k, a) && s < |k.semas|
    && ((a == SetHolder && k.place[k.current] == GotLock(s)) || a == ClearHolder(s))
  }

  lemma HolderThreads(k: State, a: Action, s: Sid)
    requires HolderStep(k, a, s)
    ensures ThreadsOk(Step(k, a)) && OneRunning(Step(k, a))
  {
    hide SemasOk;
  }

  lemma HolderLocal(k: State, a: Action, s: Sid)
    requires HolderStep(k, a, s)
    ensures LocalChange(k, Step(k, a), k.current, s)
  {
    hide SemasOk, OneRunning;
  }

  lemma HolderSema(k: State, a: Action, s: Sid)
    requires HolderStep(k, a, s)
    ensures |Step(k, a).semas| == |k.semas| && SemaOk(Step(k, a), s) && LockOk(Step(k, a), s)
  {
    var t, m := k.current, Step(k, a);
    assert SemaOk(k, s) && LockOk(k, s);
    SingleInside(k, s, t);
    assert Woken(m, s) == Woken(k, s);
  }

  lemma HolderOk(k: State, a: Action, s: Sid)
    requires HolderStep(k, a, s)
    ensures Inv(Step(k, a))
  {
    HolderThreads(k, a, s);
    HolderLocal(k, a, s);
    HolderSema(k, a, s);
    hide ThreadsOk, OneRunning, SemaOk, LockOk, LocalChange, Step, Enabled;
    LocalChangeOk(k, Step(k, a), k.current, s);
  }

  /** A thread that is in no wait loop goes back outside, and no waiting list changes. */
  lemma BackToUser(u: State, m: State, t: Tid)
    requires ThreadsOk(u) && OneRunning(u) && t in u.place && !u.place[t].InDown?
    requires m == u.(place := u.place[t := User], semas := m.semas) && |m.semas| == |u.semas|
    requires forall s | 0 <= s < |u.semas| :: m.semas[s].waiters == u.semas[s].waiters
    ensures ThreadsOk(m) && OneRunning(m)
  {
    assert m.place.Keys == u.place.Keys;
  }

  lemma SameForTransitive(k: State, u: State, m: State, s: Sid)
    requires SameFor(k, u, s) && SameFor(u, m, s)
    ensures SameFor(k, m, s)
  {}

  lemma LockUpThreads(k: State, s: Sid)
    requires Inv(k) && Enabled(k, LockUp) && s < |k.semas| && k.place[k.current].s == s
    ensures var m := Step(k, LockUp);
            ThreadsOk(m) && OneRunning(m) && LocalChange(Up(k, s), m, k.current, s)
  {
    UpThreads(k, s);
    LockUpParts(k, s);
    hide Inv, SemasOk, ThreadsOk, OneRunning, Up;
    BackToUser(Up(k, s), Step(k, LockUp), k.current);
    LockUpLocal(k, s);
  }

  lemma LockUpParts(k: State, s: Sid)
    requires PlacesInRange(k) && Enabled(k, LockUp) && s < |k.semas| && k.place[k.current].s == s
    ensures var u, m := Up(k, s), Step(k, LockUp);
            && u.place == k.place && |u.semas| == |k.semas| && |m.semas| == |u.semas|
            && m == u.(place := u.place[k.current := User], semas := m.semas)
            && forall i | 0 <= i < |u.semas| :: m.semas[i].waiters == u.semas[i].waiters
  {}

  lemma LockUpLocal(k: State, s: Sid)
    requires PlacesInRange(k) && Enabled(k, LockUp) && s < |k.semas| && k.place[k.current].s == s
    requires Up(k, s).place.Keys == Up(k, s).status.Keys
    ensures LocalChange(Up(k, s), Step(k, LockUp), k.current, s)
  {
    UpKeepsPlaces(k, s);
    assert Step(k, LockUp).place.Keys == Up(k, s).place.Keys;
  }

  lemma UpKeepsPlaces(k: State, s: Sid)
    requires s < |k.semas|
    ensures Up(k, s).place == k.place && |Up(k, s).semas| == |k.semas|
  {}

  lemma LockUpOthers(k: State, s: Sid, s': Sid)
    requires Inv(k) && Enabled(k, LockUp) && s < |k.semas| && k.place[k.current].s == s
    requires s' < |k.semas| && s' != s
    ensures SameFor(k, Step(k, LockUp), s')
  {
    var w := k.semas[s].waiters;
    LockUpThreads(k, s);
    UpLocal(k, s);
    UpKeepsPlaces(k, s);
    assert PlacesInRange(k);
    hide ThreadsOk, OneRunning, SemasOk, LocalChange, SameFor, Up;
    LocalSame(k, Up(k, s), if w != [] then w[0] else k.idle, s, s');
    LocalSame(Up(k, s), Step(k, LockUp), k.current, s, s');
    SameForTransitive(k, Up(k, s), Step(k, LockUp), s');
  }

  lemma LockUpOk(k: State)
    requires Inv(k) && Enabled(k, LockUp)
    ensures Inv(Step(k, LockUp))
  {
    var s := k.place[k.current].s;
    var m := Step(k, LockUp);
    LockUpThreads(k, s);
    LockUpSema(k, s);
    hide SameFor, SemaOk, LockOk, SemasOk, OneRunning;
    forall s' | 0 <= s' < |k.semas| && s' != s ensures SameFor(k, m, s') {
      LockUpOthers(k, s, s');
    }
    OthersOk(k, m, s);
  }

  lemma LockUpSema(k: State, s: Sid)
    requires Inv(k) && Enabled(k, LockUp) && k.place[k.current].s == s
    ensures SemaOk(Step(k, LockUp), s) && LockOk(Step(k, LockUp), s)
  {
    var t, u, m := k.current, Up(k, s), Step(k, LockUp);
    assert SemaOk(k, s) && LockOk(k, s);
    SingleInside(k, s, t);
    UpSema(k, s);
    assert Woken(m, s) == Woken(u, s);
    assert m.semas[s].inside == {};
  }

  /** A new semaphore has neither waiters nor a holder, and the others are as before. */
  lemma InitOk(k: State, value: nat, isLock: bool)
    requires Inv(k) && (isLock ==> value == 1)
    ensures Inv(k.(semas := k.semas + [NewSema(value, isLock)]))
  {
    hide ThreadsOk;
    var k' := k.(semas := k.semas + [NewSema(value, isLock)]);
    InitThreads(k, NewSema(value, isLock));
    forall s | 0 <= s < |k'.semas| ensures SemaOk(k', s) && LockOk(k', s) {
      if s < |k.semas| {
        InitSame(k, NewSema(value, isLock), s);
        assert SemaOk(k, s) && LockOk(k, s);
        SemaFrame(k, k', s);
      } else {
        NobodyThere(k);
      }
    }
  }

  lemma InitThreads(k: State, sema: Sema)
    requires ThreadsOk(k)
    ensures ThreadsOk(k.(semas := k.semas + [sema])) && k.place.Keys == k.status.Keys
  {
    forall t | t in k.status && k.place[t].InDown?
      ensures k.place[t].s < |k.semas| && (k.semas + [sema])[k.place[t].s] == k.semas[k.place[t].s]
    {}
  }

  lemma InitSame(k: State, sema: Sema, s: Sid)
    requires s < |k.semas|
    ensures SameFor(k, k.(semas := k.semas + [sema]), s)
  {
    var k' := k.(semas := k.semas + [sema]);
    assert forall t :: Busy(k', t, s) <==> Busy(k, t, s);
  }

  lemma NobodyThere(k: State)
    requires ThreadsOk(k)
    ensures forall t | t in k.place && !k.place[t].User? :: k.place[t].s < |k.semas|
  {}

  /** Every step that the code can take keeps the invariant. */
  lemma StepOk(k: State, a: Action)
    requires Inv(k) && Enabled(k, a)
    ensures Inv(Step(k, a))
  {
    hide OneRunning, SemasOk;
    match a
    case Yield => YieldOk(k);
    case IdleBlock => IdleBlockOk(k);
    case Create => CreateOk(k);
    case Exit => ExitOk(k);
    case Down(s) => DownRoundOk(k, s);
    case Retry => DownRoundOk(k, k.place[k.current].s);
    case TryDown(s) =>
      if k.semas[s].value > 0 {
        if k.semas[s].isLock {
          TakenOk(k, s);
        } else {
          TriedOk(k, s);
        }
      }
    case SemaUp(s) => SemaUpOk(k, s);
    case SetHolder => HolderOk(k, SetHolder, k.place[k.current].s);
    case ClearHolder(s) => HolderOk(k, ClearHolder(s), s);
    case LockUp => LockUpOk(k);
    case Init(value, isLock) => InitOk(k, value, isLock);
  }

  // ---- runs ----

  /** A state in which thread_start has returned to the initial thread: idle has gone to sleep or was
      preempted before it did, and any number of semaphores have been used and are idle again. */
  ghost predicate Initial(k: State) {
    && k.first != k.idle && k.first < k.nextTid && k.idle < k.nextTid
    && k.status.Keys == {k.first, k.idle} && k.status[k.first] == Running && k.status[k.idle] in {Blocked, Ready}
    && k.place == map[k.first := User, k.idle := User]
    && k.ready == [] && k.current == k.first
    && forall s | 0 <= s < |k.semas| ::
         var m := k.semas[s];
         m.initial + m.ups == m.value + m.downs && m.waiters == [] && m.holder == None && m.inside == {}
         && (m.isLock ==> m.value == 1)
  }

  /** The actions `run` can be taken one after the other from k, and lead to k'. */
  ghost predicate Leads(k: State, run: seq<Action>, k': State)
    decreases |run|
  {
    if run == [] then k' == k
    else PlacesInRange(k) && Enabled(k, run[0]) && Leads(Step(k, run[0]), run[1..], k')
  }

  lemma InitialOk(k: State)
    requires Initial(k)
    ensures Inv(k)
  {
    assert k.status.Keys == {k.first, k.idle} == k.place.Keys;
    forall s | 0 <= s < |k.semas| ensures SemaOk(k, s) && LockOk(k, s) {
      assert k.semas[s].waiters == [];
    }
  }

  lemma {:induction false} RunOk(k: State, run: seq<Action>, k': State)
    requires Inv(k) && Leads(k, run, k')
    ensures Inv(k')
    decreases |run|
  {
    if run != [] {
      StepOk(k, run[0]);
      RunOk(Step(k, run[0]), run[1..], k');
    }
  }

  // ---- what every reachable state satisfies ----

  /** Exactly one thread runs, and the ready list holds the other threads that could. */
  lemma SchedulerState(k: State, run: seq<Action>, k': State)
    requires Initial(k) && Leads(k, run, k')
    ensures k'.current in k'.status && forall t | t in k'.status :: k'.status[t] == Running <==> t == k'.current
    ensures NoDuplicates(k'.ready)
    ensures forall t :: t in k'.ready <==> t in k'.status && k'.status[t] == Ready && t != k'.idle
  {
    InitialOk(k);
    RunOk(k, run, k');
  }

  /** The list element shared by the scheduler and the semaphores is never on two lists. */
  lemma ElementOnOneList(k: State, run: seq<Action>, k': State, t: Tid, s1: Sid, s2: Sid)
    requires Initial(k) && Leads(k, run, k') && s1 < |k'.semas| && s2 < |k'.semas|
    ensures t in k'.ready ==> t !in k'.semas[s1].waiters
    ensures t in k'.semas[s1].waiters && t in k'.semas[s2].waiters ==> s1 == s2
    ensures NoDuplicates(k'.ready) && NoDuplicates(k'.semas[s1].waiters)
  {
    InitialOk(k);
    RunOk(k, run, k');
    assert SemaOk(k', s1) && SemaOk(k', s2);
  }

  /** Every up is either still in the value or has let a down through. */
  lemma Conservation(k: State, run: seq<Action>, k': State, s: Sid)
    requires Initial(k) && Leads(k, run, k') && s < |k'.semas|
    ensures k'.semas[s].initial + k'.semas[s].ups == k'.semas[s].value + k'.semas[s].downs
  {
    InitialOk(k);
    RunOk(k, run, k');
    assert SemaOk(k', s);
  }

  /** No lost wakeup: a positive value together with a sleeper means that some thread has been woken
      for it and is about to test the value, running or on the ready list; and the value is at most
      the number of such threads. */
  lemma NoLostWakeup(k: State, run: seq<Action>, k': State, s: Sid)
    requires Initial(k) && Leads(k, run, k') && s < |k'.semas| && k'.semas[s].waiters != []
    ensures k'.semas[s].value <= |Woken(k', s)|
    ensures forall t | t in Woken(k', s) :: t == k'.current || t in k'.ready
  {
    InitialOk(k);
    RunOk(k, run, k');
    assert SemaOk(k', s);
  }

  /** Mutual exclusion: at most one thread is between coming out of sema_down in lock_acquire and
      going into sema_up in lock_release, and only such a thread is ever the holder. */
  lemma MutualExclusion(k: State, run: seq<Action>, k': State, s: Sid)
    requires Initial(k) && Leads(k, run, k') && s < |k'.semas| && k'.semas[s].isLock
    ensures |k'.semas[s].inside| <= 1 && k'.semas[s].value <= 1
    ensures k'.semas[s].holder != None ==> k'.semas[s].inside == {k'.semas[s].holder.value} && k'.semas[s].value == 0
    ensures k'.semas[s].value == 1 <==> k'.semas[s].inside == {}
  {
    InitialOk(k);
    RunOk(k, run, k');
    assert LockOk(k', s);
    if k'.semas[s].holder != None {
      SingleInside(k', s, k'.semas[s].holder.value);
    }
  }

  // ---- first in, first out ----

  /** Whether a step calls schedule. */
  predicate Schedules(k: State, a: Action)
    requires PlacesInRange(k) && Enabled(k, a)
  {
    match a
    case Yield => true
    case IdleBlock => true
    case Exit => true
    case Down(s) => k.semas[s].value == 0
    case Retry => k.semas[k.place[k.current].s].value == 0
    case _ => false
  }

  /** A schedule moves every ready thread one place forward; other steps move none. */
  lemma FifoStep(k: State, a: Action, i: nat)
    requires Inv(k) && Enabled(k, a) && i < |k.ready|
    ensures var k' := Step(k, a);
            if !Schedules(k, a) then i < |k'.ready| && k'.ready[i] == k.ready[i]
            else if i == 0 then k'.current == k.ready[0]
            else i - 1 < |k'.ready| && k'.ready[i - 1] == k.ready[i]
  {
    hide OneRunning, SemasOk;
    match a
    case _ =>
  }

  ghost function ScheduleCount(k: State, run: seq<Action>, k': State): nat
    requires Leads(k, run, k')
    decreases |run|
  {
    if run == [] then 0
    else (if Schedules(k, run[0]) then 1 else 0) + ScheduleCount(Step(k, run[0]), run[1..], k')
  }

  /** A thread at position i of the ready list is still waiting after at most i schedules, at
      position i minus their number; the schedule after that one runs it. */
  lemma {:induction false} FifoRun(k: State, run: seq<Action>, k': State, i: nat)
    requires Inv(k) && Leads(k, run, k') && i < |k.ready|
    requires ScheduleCount(k, run, k') <= i
    ensures var n := ScheduleCount(k, run, k'); i - n < |k'.ready| && k'.ready[i - n] == k.ready[i]
    ensures k'.current != k.ready[i]
    decreases |run|
  {
    hide Inv, ThreadsOk, OneRunning, SemasOk, Enabled, Step, Schedules;
    if run == [] {
      ReadyIsNotRunning(k, i);
    } else {
      StepOk(k, run[0]);
      FifoStep(k, run[0], i);
      var j := if Schedules(k, run[0]) then i - 1 else i;
      FifoRun(Step(k, run[0]), run[1..], k', j);
    }
  }

  lemma ReadyIsNotRunning(k: State, i: nat)
    requires Inv(k) && i < |k.ready|
    ensures k.ready[i] != k.current
  {
    assert k.ready[i] in k.ready;
  }

  lemma RunsAtItsTurn(k: State, run: seq<Action>, k': State, a: Action, i: nat)
    requires Inv(k) && Leads(k, run, k') && i < |k.ready| && ScheduleCount(k, run, k') == i
    requires Enabled(k', a) && PlacesInRange(k') && Schedules(k', a)
    ensures Step(k', a).current == k.ready[i]
  {
    FifoRun(k, run, k', i);
    RunOk(k, run, k');
    hide Inv, Leads, ScheduleCount, Enabled, Step, Schedules, PlacesInRange;
    FifoStep(k', a, 0);
  }

  // ---- the code, changing its variables in place ----

  lemma SetTwice(m: map<Tid, Status>, t: Tid)
    ensures m[t := Ready][t := Ready] == m[t := Ready]
  {}

  /** The variables of thread.c and synch.c. */
  class Machine {
    var status: map<Tid, Status>
    var place: map<Tid, Place>
    var ready: seq<Tid>
    var current: Tid
    var idle: Tid
    var first: Tid
    var nextTid: Tid
    var semas: seq<Sema>

    function Now(): State
      reads this
    {
      State(status, place, ready, current, idle, first, nextTid, semas)
    }

    method ThreadEnqueue(t: Tid)
      modifies this`ready, this`status
      ensures Now() == Enqueue(old(Now()), t)
    {
      ready := ready + [t];
      status := status[t := Ready];
    }

    method NextThreadToRun() returns (next: Tid)
      modifies this`ready
      ensures next == NextThread(old(Now()))
      ensures Now() == old(Now()).(ready := if old(ready) == [] then [] else old(ready)[1..])
    {
      if ready != [] {
        next := ready[0];
        ready := ready[1..];
      } else {
        next := idle;
      }
    }

    method DoSchedule()
      modifies this
      ensures Now() == Schedule(old(Now()))
    {
      var prev := current;
      var next := NextThreadToRun();
      current := next;
      status := status[next := Running];
      if prev != current && prev in status && status[prev] == Dying && prev != first {
        status := status - {prev};
        place := place - {prev};
      }
    }

    method ThreadBlock()
      modifies this
      ensures Now() == Block(old(Now()))
    {
      status := status[current := Blocked];
      DoSchedule();
    }

    /** The loop of the idle thread, once. */
    method IdleRound()
      requires Inv(Now()) && Enabled(Now(), IdleBlock)
      modifies this
      ensures Now() == Step(old(Now()), IdleBlock) && Inv(Now())
      ensures old(ready) != [] ==> current == old(ready)[0] && ready == old(ready)[1..]
      ensures old(ready) == [] ==> current == idle && ready == []
    {
      IdleBlockOk(Now());
      ThreadBlock();
    }

    method ThreadYield()
      requires Inv(Now()) && Enabled(Now(), Yield)
      modifies this
      ensures Now() == Step(old(Now()), Yield) && Inv(Now())
    {
      YieldOk(Now());
      hide Inv, Schedule;
      ghost var k := Now();
      SetTwice(status, current);
      if current != idle {
        ThreadEnqueue(current);
      }
      status := status[current := Ready];
      assert Now() == if k.current != k.idle then Enqueue(k, k.current) else k.(status := k.status[k.current := Ready]);
      DoSchedule();
    }

    method ThreadExit()
      requires Inv(Now()) && Enabled(Now(), Exit)
      modifies this
      ensures Now() == Step(old(Now()), Exit) && Inv(Now())
    {
      ExitOk(Now());
      status := status[current := Dying];
      DoSchedule();
    }

    method ThreadCreate() returns (tid: Tid)
      requires Inv(Now()) && Enabled(Now(), Create)
      modifies this
      ensures Now() == Step(old(Now()), Create) && Inv(Now()) && tid == old(nextTid)
    {
      CreateOk(Now());
      tid := nextTid;
      nextTid := nextTid + 1;
      place := place[tid := User];
      ThreadEnqueue(tid);
    }

    /** The loop of sema_down up to the point where it has slept once or finished. */
    method SemaDownRound(s: Sid)
      requires Inv(Now()) && s < |semas| && current != idle && place[current] in {User, InDown(s)}
      modifies this
      ensures Now() == DownRound(old(Now()), s) && Inv(Now())
    {
      DownRoundOk(Now(), s);
      if semas[s].value == 0 {
        semas := semas[s := semas[s].(waiters := semas[s].waiters + [current])];
        place := place[current := InDown(s)];
        ThreadBlock();
      } else {
        SemaTake(s);
      }
    }

    method SemaTake(s: Sid)
      requires s < |semas| && semas[s].value > 0
      modifies this`semas, this`place
      ensures Now() == Taken(old(Now()), s)
    {
      var sema := semas[s];
      semas := semas[s := sema.(value := sema.value - 1, downs := sema.downs + 1,
                                inside := if sema.isLock then sema.inside + {current} else sema.inside)];
      place := place[current := if sema.isLock then GotLock(s) else User];
    }

    method SemaTryDown(s: Sid) returns (success: bool)
      requires Inv(Now()) && Enabled(Now(), TryDown(s))
      modifies this
      ensures Now() == Step(old(Now()), TryDown(s)) && Inv(Now())
      ensures success <==> old(semas[s].value) > 0
      ensures |semas| == |old(semas)| && semas[s].value == old(semas[s].value) - (if success then 1 else 0)
      ensures ready == old(ready) && current == old(current) && status == old(status)
    {
      StepOk(Now(), TryDown(s));
      success := semas[s].value > 0;
      if success {
        if semas[s].isLock {
          SemaTake(s);
        } else {
          semas := semas[s := semas[s].(value := semas[s].value - 1, downs := semas[s].downs + 1)];
        }
      }
    }

    method DoSemaUp(s: Sid)
      requires s < |semas|
      modifies this
      ensures Now() == Up(old(Now()), s)
    {
      if semas[s].waiters != [] {
        var t := semas[s].waiters[0];
        semas := semas[s := semas[s].(waiters := semas[s].waiters[1..])];
        ThreadEnqueue(t);
      }
      semas := semas[s := semas[s].(value := semas[s].value + 1, ups := semas[s].ups + 1)];
    }

    /** sema_up: the longest waiter goes to the end of the ready list. */
    method SemaUp(s: Sid)
      requires Inv(Now()) && Enabled(Now(), Action.SemaUp(s))
      modifies this
      ensures Now() == Step(old(Now()), Action.SemaUp(s)) && Inv(Now())
      ensures |semas| == |old(semas)| && semas[s].value == old(semas[s].value) + 1
      ensures old(semas[s].waiters) != [] ==>
        ready == old(ready) + [old(semas[s].waiters)[0]] && semas[s].waiters == old(semas[s].waiters)[1..]
      ensures old(semas[s].waiters) == [] ==> ready == old(ready) && semas[s].waiters == []
    {
      SemaUpOk(Now(), s);
      hide Inv;
      DoSemaUp(s);
    }

    method SemaInit(value: nat, isLock: bool) returns (s: Sid)
      requires Inv(Now()) && Enabled(Now(), Init(value, isLock))
      modifies this`semas
      ensures Now() == Step(old(Now()), Init(value, isLock)) && Inv(Now())
      ensures s == |old(semas)| && semas == old(semas) + [NewSema(value, isLock)]
    {
      InitOk(Now(), value, isLock);
      s := |semas|;
      semas := semas + [NewSema(value, isLock)];
    }

    method LockReleaseFirst(s: Sid)
      requires Inv(Now()) && Enabled(Now(), ClearHolder(s))
      modifies this
      ensures Now() == Step(old(Now()), ClearHolder(s)) && Inv(Now())
    {
      HolderOk(Now(), ClearHolder(s), s);
      semas := semas[s := semas[s].(holder := None)];
      place := place[current := Releasing(s)];
    }

    method LockReleaseSecond()
      requires Inv(Now()) && Enabled(Now(), LockUp)
      modifies this
      ensures Now() == Step(old(Now()), LockUp) && Inv(Now())
    {
      LockUpOk(Now());
      var t := current;
      var s := place[t].s;
      DoSemaUp(s);
      place := place[t := User];
      semas := semas[s := semas[s].(inside := semas[s].inside - {t})];
    }
  }
}
