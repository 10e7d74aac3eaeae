/** Threads, sleeping and semaphores (threads/thread.c, devices/timer.c, threads/synch.c) as a
    transition system.

    A step is what one thread does with interrupts off, up to the end of the thread switch if it
    makes one, or one timer interrupt.  The append to the list of all threads in `init_thread` is a
    step of its own, taken as atomic. */
module Scheduler {
  import opened Common

  const TIME_SLICE: nat := 4
  const INT64: int := 0x8000_0000_0000_0000

  type Tid = nat
  type Sid = nat

  datatype Status = Running | Ready | Blocked

  /** What a thread is in the middle of: nothing, `thread_block` on its own account, `timer_sleep`, or
      the loop of `sema_down`. */
  datatype Pc = Free | Parked | Sleeping | Waiting(sema: Sid)

  datatype Thread = Thread(status: Status, pc: Pc, wakeup: int)
  datatype Sema = Sema(value: nat, waiters: seq<Tid>)

  datatype Kernel = Kernel(
    threads: map<Tid, Thread>,
    all: seq<Tid>,
    ready: seq<Tid>,
    cur: Tid,
    idle: Option<Tid>,
    ticks: int,
    slice: nat,
    semas: map<Sid, Sema>)

  predicate NoDup(s: seq<Tid>) {
    forall i, j | 0 <= i < j < |s| :: s[i] != s[j]
  }

  lemma {:induction false} NoDupAppend(s: seq<Tid>, t: Tid)
    requires NoDup(s) && t !in s
    ensures NoDup(s + [t]) && forall x: Tid :: x in s + [t] <==> x in s || x == t
  {
  }

  // ----- the invariant -----

  /** Exactly the current thread is running; while a switch is under way, none is. */
  ghost predicate OneRunning(k: Kernel, running: bool) {
    && (running ==> k.cur in k.threads)
    && (forall t | t in k.threads :: k.threads[t].status.Running? <==> running && t == k.cur)
  }

  /** The list of all threads holds each thread once; the ready list holds each ready thread once,
      but never the idle thread. */
  ghost predicate ListsExact(k: Kernel) {
    && NoDup(k.all) && (forall t: Tid :: t in k.all <==> t in k.threads)
    && NoDup(k.ready)
    && (forall t: Tid :: t in k.ready <==> t in k.threads && k.threads[t].status.Ready? && k.idle != Some(t))
    && (k.idle.Some? ==>
          k.idle.value in k.threads && (k.threads[k.idle.value].pc.Free? || k.threads[k.idle.value].pc.Parked?))
  }

  /** A blocked thread is blocked for a reason, and a sleeper whose time has not come is blocked. */
  ghost predicate SleepExact(k: Kernel) {
    && 0 <= k.ticks < INT64 && k.slice < TIME_SLICE
    && forall t | t in k.threads ::
      && (k.threads[t].status.Blocked? ==> !k.threads[t].pc.Free?)
      && (k.threads[t].pc.Parked? || k.threads[t].pc.Sleeping? ==> k.threads[t].status.Blocked?)
      && (k.threads[t].wakeup != 0 ==> k.threads[t].pc.Sleeping?)
      && (k.threads[t].wakeup > 0 ==> k.threads[t].wakeup > k.ticks)
  }

  /** A thread is on a semaphore's list exactly while it is blocked waiting for it. */
  ghost predicate WaitersExact(k: Kernel) {
    && (forall t | t in k.threads && k.threads[t].pc.Waiting? :: k.threads[t].pc.sema in k.semas)
    && (forall s | s in k.semas :: NoDup(k.semas[s].waiters))
    && (forall s, t | s in k.semas && t in k.semas[s].waiters ::
          t in k.threads && k.threads[t].status.Blocked? && k.threads[t].pc == Waiting(s))
    && (forall t | t in k.threads && k.threads[t].pc.Waiting? && k.threads[t].status.Blocked? &&
                   k.threads[t].pc.sema in k.semas ::
          t in k.semas[k.threads[t].pc.sema].waiters)
  }

  /** The threads that were woken from a semaphore's list and have not looked at its value since. */
  ghost function Woken(threads: map<Tid, Thread>, s: Sid): set<Tid> {
    set t | t in threads && threads[t].pc == Waiting(s) && !threads[t].status.Blocked?
  }

  /** No wakeup is lost: while threads wait, each unit of the value has a woken thread coming for it. */
  ghost predicate NoLostWakeup(k: Kernel) {
    forall s | s in k.semas && k.semas[s].waiters != [] :: k.semas[s].value <= |Woken(k.threads, s)|
  }

  ghost predicate Holds(k: Kernel, running: bool) {
    OneRunning(k, running) && ListsExact(k) && SleepExact(k) && WaitersExact(k) && NoLostWakeup(k)
  }

  ghost predicate Inv(k: Kernel) { Holds(k, true) }

  // ----- the switch -----

  predicate CanSwitch(k: Kernel) { k.ready != [] || k.idle.Some? }

  /** `next_thread_to_run`. */
  function Next(k: Kernel): (t: Tid)
    requires CanSwitch(k)
  {
    if k.ready == [] then k.idle.value else k.ready[0]
  }

  function Resume(th: Thread): (r: Thread) {
    th.(status := Running, pc := if th.pc.Parked? then Free else th.pc)
  }

  /** `schedule`, with `thread_schedule_tail`, when there is a thread to switch to. */
  function Switch(k: Kernel): (k': Kernel) {
    if !CanSwitch(k) || Next(k) !in k.threads then k else
    var next := Next(k);
    k.(ready := if k.ready == [] then [] else k.ready[1..],
       cur := next, slice := 0, threads := k.threads[next := Resume(k.threads[next])])
  }

  lemma {:induction false} NextExists(k: Kernel)
    requires ListsExact(k) && CanSwitch(k)
    ensures Next(k) in k.threads && (k.ready != [] ==> k.threads[Next(k)].status.Ready?)
    ensures k.idle == Some(Next(k)) ==> k.ready == []
  {
    if k.ready != [] { assert k.ready[0] in k.ready; }
  }

  lemma {:induction false} SwitchKeeps(k: Kernel)
    requires Holds(k, false) && CanSwitch(k)
    ensures Next(k) in k.threads && Inv(Switch(k))
  {
    hide WaitersExact, NoLostWakeup, ListsExact, SleepExact;
    NextExists(k);
    SwitchLists(k);
    SwitchSleep(k);
    SwitchWaits(k);
  }

  lemma {:induction false} SwitchLists(k: Kernel)
    requires OneRunning(k, false) && ListsExact(k) && CanSwitch(k) && Next(k) in k.threads
    ensures ListsExact(Switch(k))
  {
    var k' := Switch(k);
    NextExists(k);
    if k.ready != [] {
      assert k.ready == [k.ready[0]] + k'.ready;
      assert k.ready[0] !in k'.ready;
    }
  }

  lemma {:induction false} SwitchSleep(k: Kernel)
    requires OneRunning(k, false) && ListsExact(k) && SleepExact(k) && CanSwitch(k) && Next(k) in k.threads
    ensures SleepExact(Switch(k))
  {
    NextExists(k);
  }

  lemma {:induction false} SwitchWaits(k: Kernel)
    requires ListsExact(k) && WaitersExact(k) && NoLostWakeup(k) && CanSwitch(k) && Next(k) in k.threads
    ensures WaitersExact(Switch(k)) && NoLostWakeup(Switch(k))
  {
    hide ListsExact;
    NextExists(k);
    NextNotWaiting(k);
    var k' := Switch(k);
    forall s: Sid ensures Woken(k'.threads, s) == Woken(k.threads, s) {}
  }

  lemma {:induction false} NextNotWaiting(k: Kernel)
    requires ListsExact(k) && CanSwitch(k) && Next(k) in k.threads
    ensures k.threads[Next(k)].pc.Waiting? ==> k.threads[Next(k)].status.Ready?
  {
    NextExists(k);
  }

  // ----- the steps -----

  datatype Step =
    | Create(t: Tid)
    | Unblock(t: Tid)
    | Block
    | Yield
    | Exit
    | Sleep(n: int)
    | Down(s: Sid)
    | TryDown(s: Sid)
    | Up(s: Sid)
    | SemaInit(s: Sid, value: nat)
    | SetIdle
    | Tick

  /** A 64-bit signed sum. */
  function Wrap(x: int): (y: int) {
    if x < INT64 then x else x - 2 * INT64
  }

  /** When a step can be taken.  A thread that comes back from `thread_block` inside `sema_down` has
      interrupts off and looks at the value next; nothing else can happen first.  The idle thread only
      blocks, ups a semaphore, and is preempted. */
  predicate Guard(k: Kernel, st: Step) {
    && k.cur in k.threads
    && (k.threads[k.cur].pc.Free? || (st.Down? && k.threads[k.cur].pc == Waiting(st.s)))
    && match st
       case Create(t) => t !in k.threads
       case Unblock(t) => t in k.threads && k.threads[t].pc.Parked? && k.idle != Some(t)
       case Block => CanSwitch(k)
       case Yield => true
       case Exit => k.idle != Some(k.cur) && CanSwitch(k)
       case Sleep(n) => -INT64 <= n < INT64 && (n > 0 ==> k.idle != Some(k.cur) && CanSwitch(k))
       case Down(s) => s in k.semas && k.idle != Some(k.cur) && (k.semas[s].value == 0 ==> CanSwitch(k))
       case TryDown(s) => s in k.semas
       case Up(s) => s in k.semas
       case SemaInit(s, _) =>
         s !in k.semas || (k.semas[s].waiters == [] && forall t | t in k.threads :: k.threads[t].pc != Waiting(s))
       case SetIdle => k.idle.None?
       case Tick => k.ticks + 1 < INT64
  }

  /** A step that can be taken in a state that satisfies the invariant. */
  ghost predicate Enabled(k: Kernel, st: Step)
    ensures Enabled(k, st) ==> Inv(k) && Guard(k, st)
  {
    Inv(k) && Guard(k, st)
  }

  /** The current thread's record and lists when it gives up the processor. */
  function Leave(k: Kernel, th: Thread): (k': Kernel) {
    k.(threads := k.threads[k.cur := th])
  }

  function Queue(k: Kernel): (k': Kernel)
    requires k.cur in k.threads
  {
    Leave(k, k.threads[k.cur].(status := Ready)).(ready := if k.idle == Some(k.cur) then k.ready else k.ready + [k.cur])
  }

  function WithSema(k: Kernel, s: Sid, sema: Sema): (k': Kernel) { k.(semas := k.semas[s := sema]) }

  function MakeReady(k: Kernel, t: Tid): (k': Kernel) {
    if t !in k.threads then k else
    k.(threads := k.threads[t := k.threads[t].(status := Ready)], ready := k.ready + [t])
  }

  /** The current thread joins a semaphore's list. */
  function Enqueued(k: Kernel, s: Sid): (k': Kernel)
    requires s in k.semas
  {
    WithSema(Leave(k, Thread(Blocked, Waiting(s), 0)), s, Sema(0, k.semas[s].waiters + [k.cur]))
  }

  function Without(s: seq<Tid>, t: Tid): (r: seq<Tid>)
    ensures forall x :: x in r <==> x in s && x != t
    ensures NoDup(s) ==> NoDup(r)
  {
    if s == [] then [] else
      var rest := Without(s[1..], t);
      assert NoDup(s) ==> NoDup(s[1..]) && s[0] !in s[1..];
      assert s[0] !in rest && NoDup(rest) ==> NoDup([s[0]] + rest);
      assert forall x :: x in s <==> x == s[0] || x in s[1..];
      if s[0] == t then rest else [s[0]] + rest
  }

  // ----- a timer interrupt -----

  /** `update_sleeping_threads` wakes this thread. */
  predicate IsDue(threads: map<Tid, Thread>, t: Tid, now: int) {
    t in threads && threads[t].status.Blocked? && 0 < threads[t].wakeup <= now
  }

  /** The threads of a list that are due, in its order. */
  function Due(threads: map<Tid, Thread>, list: seq<Tid>, now: int): (r: seq<Tid>)
    ensures forall t :: t in r <==> t in list && IsDue(threads, t, now)
    ensures NoDup(list) ==> NoDup(r)
  {
    if list == [] then [] else
      var rest := Due(threads, list[1..], now);
      assert forall t :: t in list <==> t == list[0] || t in list[1..];
      if IsDue(threads, list[0], now) then [list[0]] + rest else rest
  }

  /** The sleepers whose time has come join the ready list. */
  function WakeSleepers(k: Kernel): (k': Kernel) {
    k.(threads := map t | t in k.threads ::
                    if IsDue(k.threads, t, k.ticks) then Thread(Ready, Free, 0) else k.threads[t],
       ready := k.ready + Due(k.threads, k.all, k.ticks))
  }

  /** The part of the interrupt before a possible switch. */
  function TickWake(k: Kernel): (k': Kernel) {
    WakeSleepers(k.(ticks := k.ticks + 1)).(slice := k.slice + 1)
  }

  /** The state after a step. */
  function Apply(k: Kernel, st: Step): (k': Kernel)
    requires Guard(k, st)
  {
    match st
    case Create(t) => k.(threads := k.threads[t := Thread(Blocked, Parked, 0)], all := k.all + [t])
    case Unblock(t) => MakeReady(k.(threads := k.threads[t := k.threads[t].(pc := Free)]), t)
    case Block => Switch(Leave(k, Thread(Blocked, Parked, 0)))
    case Yield => Switch(Queue(k))
    case Exit => Switch(Gone(k))
    case Sleep(n) => if n <= 0 then k else Switch(Leave(k, Thread(Blocked, Sleeping, Wrap(k.ticks + n))))
    case Down(s) =>
      if k.semas[s].value == 0 then
        Switch(Enqueued(k, s))
      else
        WithSema(Leave(k, Thread(Running, Free, 0)), s, k.semas[s].(value := k.semas[s].value - 1))
    case TryDown(s) => if k.semas[s].value > 0 then WithSema(k, s, k.semas[s].(value := k.semas[s].value - 1)) else k
    case Up(s) =>
      var sema := k.semas[s];
      if sema.waiters == [] then WithSema(k, s, sema.(value := sema.value + 1)) else
      WithSema(MakeReady(k, sema.waiters[0]), s, Sema(sema.value + 1, sema.waiters[1..]))
    case SemaInit(s, v) => WithSema(k, s, Sema(v, []))
    case SetIdle => k.(idle := Some(k.cur))
    case Tick =>
      var k1 := TickWake(k);
      if k1.slice >= TIME_SLICE then Switch(Queue(k1)) else k1
  }

  // ----- every step keeps the invariant -----

  lemma {:induction false} StepKeeps(k: Kernel, st: Step)
    requires Enabled(k, st)
    ensures Inv(Apply(k, st))
  {
    hide Holds, Switch, WakeSleepers;
    Basics(k);
    match st
    case Create(t) => CreateKeeps(k, t);
    case Unblock(t) => UnblockKeeps(k, t);
    case Block => LeaveKeeps(k, Thread(Blocked, Parked, 0)); SwitchKeeps(Leave(k, Thread(Blocked, Parked, 0)));
    case Yield => QueueKeeps(k); SwitchKeeps(Queue(k));
    case Exit => ExitKeeps(k); SwitchKeeps(Gone(k));
    case Sleep(n) =>
      if n > 0 {
        LeaveKeeps(k, Thread(Blocked, Sleeping, Wrap(k.ticks + n)));
        SwitchKeeps(Leave(k, Thread(Blocked, Sleeping, Wrap(k.ticks + n))));
      }
    case Down(s) =>
      if k.semas[s].value == 0 { WaitKeeps(k, s); SwitchKeeps(Enqueued(k, s)); } else { TakeKeeps(k, s); }
    case TryDown(s) => if k.semas[s].value > 0 { ValueDropped(k, s); }
    case Up(s) => if k.semas[s].waiters == [] { ValueRaised(k, s); } else { WakeFirstKeeps(k, s); }
    case SemaInit(s, v) => InitKeeps(k, s, v);
    case SetIdle => IdleKeeps(k);
    case Tick => TickKeeps(k);
  }

  lemma {:induction false} Basics(k: Kernel)
    requires Inv(k)
    ensures k.cur in k.threads && k.threads[k.cur].status.Running? && k.cur !in k.ready && 0 <= k.ticks < INT64
    ensures k.slice < TIME_SLICE
  {
  }

  /** A change to a thread that is, before and after, neither woken nor on a semaphore's list. */
  lemma {:induction false} WaitsUntouched(k: Kernel, k': Kernel, t: Tid)
    requires WaitersExact(k) && NoLostWakeup(k) && k'.semas == k.semas
    requires t in k.threads ==> !k.threads[t].pc.Waiting?
    requires t in k'.threads ==> !k'.threads[t].pc.Waiting?
    requires forall u: Tid | u != t ::
             (u in k'.threads <==> u in k.threads) && (u in k.threads ==> k'.threads[u] == k.threads[u])
    ensures WaitersExact(k') && NoLostWakeup(k')
  {
    hide NoDup;
    WokenSame(k.threads, k'.threads, t);
  }

  lemma {:induction false} WokenSame(threads: map<Tid, Thread>, threads': map<Tid, Thread>, t: Tid)
    requires t in threads ==> !threads[t].pc.Waiting?
    requires t in threads' ==> !threads'[t].pc.Waiting?
    requires forall u: Tid | u != t :: (u in threads' <==> u in threads) && (u in threads ==> threads'[u] == threads[u])
    ensures forall s: Sid :: Woken(threads', s) == Woken(threads, s)
  {
    forall s: Sid ensures Woken(threads', s) == Woken(threads, s) {}
  }

  lemma {:induction false} CreateKeeps(k: Kernel, t: Tid)
    requires Inv(k) && t !in k.threads
    ensures Inv(k.(threads := k.threads[t := Thread(Blocked, Parked, 0)], all := k.all + [t]))
  {
    hide NoDup, WaitersExact, NoLostWakeup;
    NoDupAppend(k.all, t);
    WaitsUntouched(k, k.(threads := k.threads[t := Thread(Blocked, Parked, 0)], all := k.all + [t]), t);
  }

  lemma {:induction false} UnblockKeeps(k: Kernel, t: Tid)
    requires Inv(k) && t in k.threads && k.threads[t].pc.Parked? && k.idle != Some(t)
    ensures Inv(MakeReady(k.(threads := k.threads[t := k.threads[t].(pc := Free)]), t))
  {
    hide NoDup, WaitersExact, NoLostWakeup;
    NoDupAppend(k.ready, t);
    WaitsUntouched(k, MakeReady(k.(threads := k.threads[t := k.threads[t].(pc := Free)]), t), t);
  }

  /** The current thread blocks without joining a semaphore's list. */
  lemma {:induction false} LeaveKeeps(k: Kernel, th: Thread)
    requires Inv(k) && k.threads[k.cur].pc.Free? && th.status.Blocked?
    requires th.pc.Parked? || (th.pc.Sleeping? && k.idle != Some(k.cur))
    requires (th.wakeup != 0 ==> th.pc.Sleeping?) && (th.wakeup > 0 ==> th.wakeup > k.ticks)
    ensures Holds(Leave(k, th), false)
  {
    hide NoDup, WaitersExact, NoLostWakeup;
    WaitsUntouched(k, Leave(k, th), k.cur);
  }

  lemma {:induction false} QueueKeeps(k: Kernel)
    requires Inv(k) && k.threads[k.cur].pc.Free?
    ensures Holds(Queue(k), false) && CanSwitch(Queue(k))
  {
    hide NoDup, WaitersExact, NoLostWakeup;
    NoDupAppend(k.ready, k.cur);
    WaitsUntouched(k, Queue(k), k.cur);
  }

  function Gone(k: Kernel): (k': Kernel) {
    k.(threads := k.threads - {k.cur}, all := Without(k.all, k.cur))
  }

  lemma {:induction false} ExitKeeps(k: Kernel)
    requires Inv(k) && k.threads[k.cur].pc.Free? && k.idle != Some(k.cur)
    ensures Holds(Gone(k), false)
  {
    hide Without, NoDup, WaitersExact, NoLostWakeup;
    WaitsUntouched(k, Gone(k), k.cur);
  }

  // ----- semaphores -----

  /** Replacing one thread's record by one that is not woken takes it out of the woken. */
  lemma {:induction false} WokenLess(threads: map<Tid, Thread>, t: Tid, th: Thread, s: Sid)
    requires t in threads && (th.pc != Waiting(s) || th.status.Blocked?)
    ensures Woken(threads[t := th], s) == Woken(threads, s) - {t}
    ensures |Woken(threads[t := th], s)| >= |Woken(threads, s)| - 1
    ensures t !in Woken(threads, s) ==> Woken(threads[t := th], s) == Woken(threads, s)
  {
    assert Woken(threads[t := th], s) == Woken(threads, s) - {t};
  }

  lemma {:induction false} WaitKeeps(k: Kernel, s: Sid)
    requires Inv(k) && s in k.semas && k.semas[s].value == 0 && k.idle != Some(k.cur)
    requires k.threads[k.cur].pc.Free? || k.threads[k.cur].pc == Waiting(s)
    ensures Holds(Enqueued(k, s), false)
  {
    hide NoDup, Woken;
    var k' := Enqueued(k, s);
    assert k.cur !in k.semas[s].waiters;
    NoDupAppend(k.semas[s].waiters, k.cur);
    OtherWoken(k, Thread(Blocked, Waiting(s), 0), s);
  }

  /** Other semaphores do not notice what the current thread does with this one. */
  lemma {:induction false} OtherWoken(k: Kernel, th: Thread, s: Sid)
    requires k.cur in k.threads && (k.threads[k.cur].pc.Free? || k.threads[k.cur].pc == Waiting(s))
    requires th.pc.Free? || th.pc == Waiting(s)
    ensures forall s': Sid | s' != s :: Woken(k.threads[k.cur := th], s') == Woken(k.threads, s')
  {
    forall s': Sid | s' != s ensures Woken(k.threads[k.cur := th], s') == Woken(k.threads, s') {}
  }

  lemma {:induction false} TakeKeeps(k: Kernel, s: Sid)
    requires Inv(k) && s in k.semas && k.semas[s].value > 0
    requires k.threads[k.cur].pc.Free? || k.threads[k.cur].pc == Waiting(s)
    ensures Inv(WithSema(Leave(k, Thread(Running, Free, 0)), s, k.semas[s].(value := k.semas[s].value - 1)))
  {
    hide NoDup, WaitersExact, NoLostWakeup;
    TakeWaits(k, s);
  }

  lemma {:induction false} TakeWaits(k: Kernel, s: Sid)
    requires OneRunning(k, true) && WaitersExact(k) && NoLostWakeup(k) && s in k.semas && k.semas[s].value > 0
    requires k.threads[k.cur].pc.Free? || k.threads[k.cur].pc == Waiting(s)
    ensures var k' := WithSema(Leave(k, Thread(Running, Free, 0)), s, k.semas[s].(value := k.semas[s].value - 1));
            WaitersExact(k') && NoLostWakeup(k')
  {
    hide NoDup, Woken;
    OtherWoken(k, Thread(Running, Free, 0), s);
    WokenLess(k.threads, k.cur, Thread(Running, Free, 0), s);
  }

  lemma {:induction false} ValueDropped(k: Kernel, s: Sid)
    requires Inv(k) && s in k.semas && k.semas[s].value > 0
    ensures Inv(WithSema(k, s, k.semas[s].(value := k.semas[s].value - 1)))
  {
    hide NoDup, Woken;
  }

  lemma {:induction false} ValueRaised(k: Kernel, s: Sid)
    requires Inv(k) && s in k.semas && k.semas[s].waiters == []
    ensures Inv(WithSema(k, s, k.semas[s].(value := k.semas[s].value + 1)))
  {
    hide NoDup, Woken;
  }

  lemma {:induction false} FirstWaiter(k: Kernel, s: Sid)
    requires WaitersExact(k) && s in k.semas && k.semas[s].waiters != []
    ensures var t, rest := k.semas[s].waiters[0], k.semas[s].waiters[1..];
      t in k.threads && k.threads[t].status.Blocked? && k.threads[t].pc == Waiting(s) && NoDup(rest)
      && forall x: Tid :: x in k.semas[s].waiters <==> x == t || x in rest
    ensures k.semas[s].waiters[0] !in k.semas[s].waiters[1..]
  {
    var w := k.semas[s].waiters;
    assert w[0] in w;
    assert w == [w[0]] + w[1..];
  }

  function WakeFirst(k: Kernel, s: Sid): (k': Kernel)
    requires s in k.semas && k.semas[s].waiters != [] && k.semas[s].waiters[0] in k.threads
  {
    WithSema(MakeReady(k, k.semas[s].waiters[0]), s, Sema(k.semas[s].value + 1, k.semas[s].waiters[1..]))
  }

  lemma {:induction false} WakeFirstKeeps(k: Kernel, s: Sid)
    requires Inv(k) && s in k.semas && k.semas[s].waiters != []
    ensures k.semas[s].waiters[0] in k.threads && Inv(WakeFirst(k, s))
  {
    hide NoDup, WaitersExact, NoLostWakeup;
    FirstWaiter(k, s);
    NoDupAppend(k.ready, k.semas[s].waiters[0]);
    WakeFirstWaits(k, s);
  }

  lemma {:induction false} WakeFirstWaits(k: Kernel, s: Sid)
    requires WaitersExact(k) && NoLostWakeup(k) && s in k.semas && k.semas[s].waiters != []
    requires k.semas[s].waiters[0] in k.threads
    ensures WaitersExact(WakeFirst(k, s)) && NoLostWakeup(WakeFirst(k, s))
  {
    hide NoDup, Woken;
    FirstWaiter(k, s);
    WokenMore(k.threads, k.semas[s].waiters[0], s);
  }

  lemma {:induction false} WokenMore(threads: map<Tid, Thread>, t: Tid, s: Sid)
    requires t in threads && threads[t].status.Blocked? && threads[t].pc == Waiting(s)
    ensures var threads' := threads[t := threads[t].(status := Ready)];
      |Woken(threads', s)| == |Woken(threads, s)| + 1 && forall s': Sid | s' != s ::
        Woken(threads', s') == Woken(threads, s')
  {
    var threads' := threads[t := threads[t].(status := Ready)];
    assert Woken(threads', s) == Woken(threads, s) + {t};
    forall s': Sid | s' != s ensures Woken(threads', s') == Woken(threads, s') {}
  }

  lemma {:induction false} InitKeeps(k: Kernel, s: Sid, v: nat)
    requires Inv(k)
    requires s !in k.semas || (k.semas[s].waiters == [] && forall t | t in k.threads :: k.threads[t].pc != Waiting(s))
    ensures Inv(WithSema(k, s, Sema(v, [])))
  {
    hide Woken;
  }

  lemma {:induction false} IdleKeeps(k: Kernel)
    requires Inv(k) && k.idle.None? && k.threads[k.cur].pc.Free?
    ensures Inv(k.(idle := Some(k.cur)))
  {
    hide Woken, NoDup;
  }

  // ----- the timer interrupt -----

  lemma {:induction false} NoDupConcat(a: seq<Tid>, b: seq<Tid>)
    requires NoDup(a) && NoDup(b) && forall t | t in a :: t !in b
    ensures NoDup(a + b) && forall x: Tid :: x in a + b <==> x in a || x in b
  {
    forall i, j | 0 <= i < j < |a + b| ensures (a + b)[i] != (a + b)[j] {
      if i < |a| <= j { assert a[i] in a && b[j - |a|] in b; }
    }
  }

  lemma {:induction false} WakeKeeps(k: Kernel)
    requires Inv(k) && k.ticks + 1 < INT64
    ensures Inv(WakeSleepers(k.(ticks := k.ticks + 1)))
  {
    hide NoDup, WaitersExact, NoLostWakeup, Due;
    var now := k.ticks + 1;
    NoDupConcat(k.ready, Due(k.threads, k.all, now));
    WakeWaits(k, now);
  }

  lemma {:induction false} WakeWaits(k: Kernel, now: int)
    requires WaitersExact(k) && NoLostWakeup(k) && SleepExact(k)
    ensures var k' := WakeSleepers(k.(ticks := now)); WaitersExact(k') && NoLostWakeup(k')
  {
    hide NoDup, Due;
    var k' := WakeSleepers(k.(ticks := now));
    forall s: Sid ensures Woken(k'.threads, s) == Woken(k.threads, s) {}
  }

  /** Waking sleepers does not touch the current thread. */
  lemma {:induction false} StillFree(k: Kernel)
    requires Inv(k) && k.threads[k.cur].pc.Free?
    ensures var k2 := WakeSleepers(k.(ticks := k.ticks + 1));
      && k2.cur == k.cur && k2.slice == k.slice && k.cur in k2.threads && k2.threads[k.cur] == k.threads[k.cur]
      && TickWake(k) == k2.(slice := k.slice + 1)
  {
    hide WaitersExact, NoLostWakeup, Due;
  }

  lemma {:induction false} TickKeeps(k: Kernel)
    requires Inv(k) && k.ticks + 1 < INT64 && k.threads[k.cur].pc.Free?
    ensures k.cur in TickWake(k).threads
    ensures var k1 := TickWake(k); Inv(if k1.slice >= TIME_SLICE then Switch(Queue(k1)) else k1)
  {
    hide NoDup, WaitersExact, NoLostWakeup, Due, ListsExact;
    WakeKeeps(k);
    var k1, k2 := TickWake(k), WakeSleepers(k.(ticks := k.ticks + 1));
    assert k1 == k2.(slice := k.slice + 1);
    if k1.slice >= TIME_SLICE {
      QueueKeeps(k2);
      SwitchKeeps(Queue(k2));
      assert Switch(Queue(k1)) == Switch(Queue(k2));
    } else {
      SliceOnly(k2, k.slice + 1);
    }
  }

  lemma {:induction false} SliceOnly(k: Kernel, n: nat)
    requires Inv(k) && n < TIME_SLICE
    ensures Inv(k.(slice := n))
  {
    hide NoDup, Woken;
  }

  /** A switch forgets how far the time slice was. */
  lemma {:induction false} SliceForgotten(k: Kernel, n: nat)
    requires Inv(k) && k.threads[k.cur].pc.Free?
    ensures Switch(Queue(k.(slice := n))) == Switch(Queue(k))
  {
    hide NoDup, WaitersExact, NoLostWakeup;
    QueueKeeps(k);
    NextExists(Queue(k));
  }
}
