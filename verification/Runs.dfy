/** What holds over every run of the kernel of module Scheduler: safety, the alarm clock, bounded
    waiting, and the semaphores' conservation laws. */
module Runs {
  import opened Common
  import opened Scheduler

  // ----- runs -----

  /** Every step of the run can be taken where it is taken. */
  ghost predicate Run(k: Kernel, steps: seq<Step>)
    decreases |steps|
  {
    steps == [] || (Guard(k, steps[0]) && Run(Apply(k, steps[0]), steps[1..]))
  }

  ghost function Exec(k: Kernel, steps: seq<Step>): (k': Kernel)
    requires Run(k, steps)
    decreases |steps|
  {
    if steps == [] then k else Exec(Apply(k, steps[0]), steps[1..])
  }

  /** The state after `thread_init`. */
  function Boot(main: Tid): (k: Kernel) {
    Kernel(map[main := Thread(Running, Free, 0)], [main], [], main, None, 0, 0, map[])
  }

  lemma {:induction false} BootHolds(main: Tid)
    ensures Inv(Boot(main))
  {
  }

  /** Every state that a run can reach keeps the invariant. */
  lemma {:induction false} Safety(k: Kernel, steps: seq<Step>)
    requires Inv(k) && Run(k, steps)
    ensures Inv(Exec(k, steps))
    decreases |steps|
  {
    hide Inv, Apply, Guard;
    if steps != [] {
      StepKeeps(k, steps[0]);
      Safety(Apply(k, steps[0]), steps[1..]);
    }
  }

  lemma {:induction false} SafetyFromBoot(main: Tid, steps: seq<Step>)
    requires Run(Boot(main), steps)
    ensures Inv(Exec(Boot(main), steps))
  {
    hide Inv, Run, Exec;
    BootHolds(main);
    Safety(Boot(main), steps);
  }

  // ----- a thread to run -----

  /** Nothing but its own start sets the idle thread. */
  lemma {:induction false} IdleStep(k: Kernel, st: Step)
    requires Guard(k, st)
    ensures Apply(k, st).idle == if st.SetIdle? then Some(k.cur) else k.idle
  {
    hide Due, Without;
  }

  lemma {:induction false} IdleStays(k: Kernel, steps: seq<Step>)
    requires Run(k, steps) && k.idle.Some?
    ensures Exec(k, steps).idle == k.idle
    decreases |steps|
  {
    hide Apply;
    if steps != [] {
      IdleStep(k, steps[0]);
      IdleStays(Apply(k, steps[0]), steps[1..]);
    }
  }

  /** Once the idle thread has started, in every later state of every run there is a thread for
      `schedule` to switch to: blocking, sleeping and exiting need not ask. */
  lemma {:induction false} SomeThreadRuns(k: Kernel, steps: seq<Step>, i: nat)
    requires Run(k, steps) && i < |steps| && steps[i].SetIdle?
    ensures CanSwitch(Exec(k, steps))
    decreases |steps|
  {
    hide Apply, Guard;
    var k1 := Apply(k, steps[0]);
    if i == 0 {
      IdleStep(k, steps[0]);
      IdleStays(k1, steps[1..]);
    } else {
      SomeThreadRuns(k1, steps[1..], i - 1);
    }
  }

  /** What a call asks of its caller, once the idle thread has started.  Nothing else stands in the way: not the
      lists, the time left or what other threads do. */
  predicate Asked(k: Kernel, st: Step) {
    match st
    case Create(t) => t !in k.threads
    case Unblock(t) => t in k.threads && k.threads[t].pc.Parked? && k.idle != Some(t)
    case Exit => k.idle != Some(k.cur)
    case Sleep(n) => -INT64 <= n < INT64 && (n <= 0 || k.idle != Some(k.cur))
    case Down(s) => s in k.semas && k.idle != Some(k.cur)
    case TryDown(s) => s in k.semas
    case Up(s) => s in k.semas
    case SemaInit(s, _) => s !in k.semas
    case SetIdle => false
    case Tick => k.ticks < 0x7FFF_FFFF_FFFF_FFFF
    case _ => true
  }

  lemma {:induction false} CallsPossible(k: Kernel, st: Step)
    requires Inv(k) && k.idle.Some? && Asked(k, st)
    ensures k.threads[k.cur].pc.Free? ==> Enabled(k, st)
    ensures st.Down? && k.threads[k.cur].pc == Waiting(st.s) ==> Enabled(k, st)
  {
    hide NoDup, WaitersExact, NoLostWakeup, ListsExact;
    Basics(k);
  }

  /** A thread that is running is at a point where it can act, or has been woken inside `sema_down` and looks
      at the value again. */
  lemma {:induction false} CurrentActs(k: Kernel)
    requires Inv(k)
    ensures k.threads[k.cur].pc.Free? ||
            (k.threads[k.cur].pc.Waiting? && k.threads[k.cur].pc.sema in k.semas && k.idle != Some(k.cur))
  {
    hide NoDup, NoLostWakeup;
    Basics(k);
  }

  /** What `thread_start` and the start of `idle` do, `s` being the semaphore idle_started. */
  function StartUp(idle: Tid, s: Sid): (steps: seq<Step>) {
    [SemaInit(s, 0), Create(idle), Unblock(idle), Down(s), SetIdle, Up(s), Block]
  }

  /** The states in between: the idle thread is ready; it runs and the initial thread waits; the
      initial thread is woken; the initial thread runs. */
  function Started(main: Tid, idle: Tid, s: Sid, i: nat): (k: Kernel)
    requires i < 4
  {
    var all := [main, idle];
    match i
    case 0 =>
      Kernel(map[main := Thread(Running, Free, 0), idle := Thread(Ready, Free, 0)],
             all, [idle], main, None, 0, 0, map[s := Sema(0, [])])
    case 1 =>
      Kernel(map[main := Thread(Blocked, Waiting(s), 0), idle := Thread(Running, Free, 0)],
             all, [], idle, None, 0, 0, map[s := Sema(0, [main])])
    case 2 =>
      Kernel(map[main := Thread(Ready, Waiting(s), 0), idle := Thread(Running, Free, 0)],
             all, [main], idle, Some(idle), 0, 0, map[s := Sema(1, [])])
    case 3 =>
      Kernel(map[main := Thread(Running, Waiting(s), 0), idle := Thread(Blocked, Parked, 0)],
             all, [], main, Some(idle), 0, 0, map[s := Sema(1, [])])
  }

  lemma {:induction false} RunCons(k: Kernel, st: Step, rest: seq<Step>)
    requires Guard(k, st) && Run(Apply(k, st), rest)
    ensures Run(k, [st] + rest) && Exec(k, [st] + rest) == Exec(Apply(k, st), rest)
  {
    hide Guard, Apply;
    assert ([st] + rest)[1..] == rest;
  }

  lemma {:induction false} IdleMade(main: Tid, idle: Tid, s: Sid, rest: seq<Step>)
    requires main != idle && Run(Started(main, idle, s, 0), rest)
    ensures var steps := [SemaInit(s, 0)] + ([Create(idle)] + ([Unblock(idle)] + rest));
            Run(Boot(main), steps) && Exec(Boot(main), steps) == Exec(Started(main, idle, s, 0), rest)
  {
    hide Run, Exec;
    var k1 := Apply(Boot(main), SemaInit(s, 0));
    var k2 := Apply(k1, Create(idle));
    var k3 := Apply(k2, Unblock(idle));
    assert k3.threads == Started(main, idle, s, 0).threads;
    assert k3 == Started(main, idle, s, 0);
    RunCons(k2, Unblock(idle), rest);
    RunCons(k1, Create(idle), [Unblock(idle)] + rest);
    RunCons(Boot(main), SemaInit(s, 0), [Create(idle)] + ([Unblock(idle)] + rest));
  }

  lemma {:induction false} MainWaits(main: Tid, idle: Tid, s: Sid, rest: seq<Step>)
    requires main != idle && Run(Started(main, idle, s, 1), rest)
    ensures var k := Started(main, idle, s, 0);
            Run(k, [Down(s)] + rest) && Exec(k, [Down(s)] + rest) == Exec(Started(main, idle, s, 1), rest)
  {
    hide Run, Exec;
    var k := Started(main, idle, s, 0);
    assert Next(Enqueued(k, s)) == idle && [] + [main] == [main] && [idle][1..] == [];
    assert Apply(k, Down(s)).threads == Started(main, idle, s, 1).threads;
    assert Apply(k, Down(s)).semas == Started(main, idle, s, 1).semas;
    RunCons(k, Down(s), rest);
  }

  lemma {:induction false} MainWoken(main: Tid, idle: Tid, s: Sid, rest: seq<Step>)
    requires main != idle && Run(Started(main, idle, s, 2), rest)
    ensures var k := Started(main, idle, s, 1);
            && Run(k, [SetIdle] + ([Up(s)] + rest))
            && Exec(k, [SetIdle] + ([Up(s)] + rest)) == Exec(Started(main, idle, s, 2), rest)
  {
    hide Run, Exec;
    var k := Started(main, idle, s, 1);
    var k1 := Apply(k, SetIdle);
    assert [] + [main] == [main] && [main][1..] == [];
    assert Apply(k1, Up(s)).threads == Started(main, idle, s, 2).threads;
    assert Apply(k1, Up(s)).semas == Started(main, idle, s, 2).semas;
    RunCons(k1, Up(s), rest);
    RunCons(k, SetIdle, [Up(s)] + rest);
  }

  lemma {:induction false} MainRuns(main: Tid, idle: Tid, s: Sid)
    requires main != idle
    ensures var k := Started(main, idle, s, 2); Run(k, [Block]) && Exec(k, [Block]) == Started(main, idle, s, 3)
  {
    hide Run, Exec;
    var k := Started(main, idle, s, 2);
    assert Next(Leave(k, Thread(Blocked, Parked, 0))) == main && [main][1..] == [];
    assert Apply(k, Block).threads == Started(main, idle, s, 3).threads;
    NoSteps(Started(main, idle, s, 3));
    RunCons(k, Block, []);
    assert [Block] + [] == [Block];
  }

  lemma {:induction false} NoSteps(k: Kernel)
    ensures Run(k, []) && Exec(k, []) == k
  {
  }

  /** Without timer interrupts the start-up runs to its end, with the idle thread known and the initial
      thread about to pass the semaphore. */
  lemma {:induction false} StartUpRuns(main: Tid, idle: Tid, s: Sid)
    requires main != idle
    ensures Run(Boot(main), StartUp(idle, s)) && Exec(Boot(main), StartUp(idle, s)) == Started(main, idle, s, 3)
  {
    hide Run, Exec, Started, Boot;
    MainRuns(main, idle, s);
    MainWoken(main, idle, s, [Block]);
    var rest := [SetIdle] + ([Up(s)] + [Block]);
    MainWaits(main, idle, s, rest);
    IdleMade(main, idle, s, [Down(s)] + rest);
    assert StartUp(idle, s) == [SemaInit(s, 0)] + ([Create(idle)] + ([Unblock(idle)] + ([Down(s)] + rest)));
  }

  // ----- the start-up with timer interrupts anywhere -----

  /** How far the initial thread is in `thread_start`, and the idle thread in `idle`. */
  datatype Progress = Progress(main: nat, idle: nat)

  /** What the current thread's code does next: `thread_start` sets up the semaphore, creates and starts
      the idle thread, and goes around the loop of `sema_down`; `idle` makes itself known, ups the
      semaphore, and blocks again and again. */
  predicate Scripted(k: Kernel, main: Tid, idle: Tid, s: Sid, p: Progress, st: Step) {
    if k.cur == main then
      match p.main case 0 => st == SemaInit(s, 0) case 1 => st == Create(idle) case 2 => st == Unblock(idle)
                   case 3 => st == Down(s) case _ => false
    else
      k.cur == idle && match p.idle case 0 => st == SetIdle case 1 => st == Up(s) case _ => st == Block
  }

  /** A timer interrupt, while interrupts are on and the tick count is below its limit. */
  predicate Interrupt(k: Kernel, st: Step) {
    st.Tick? && k.ticks + 1 < INT64 && k.cur in k.threads && k.threads[k.cur].pc.Free?
  }

  function Advance(k: Kernel, main: Tid, s: Sid, p: Progress, st: Step): (p': Progress) {
    if st.Tick? then p
    else if k.cur != main then p.(idle := if p.idle < 2 then p.idle + 1 else 2)
    else if p.main == 3 && s in k.semas && k.semas[s].value == 0 then p
    else p.(main := p.main + 1)
  }

  /** The steps are those of the two threads' code, with timer interrupts anywhere in between.  Nothing is
      said about there being a thread to switch to. */
  ghost predicate Interleaved(k: Kernel, main: Tid, idle: Tid, s: Sid, p: Progress, steps: seq<Step>)
    decreases |steps|
  {
    steps != [] ==>
      && (Interrupt(k, steps[0]) || Scripted(k, main, idle, s, p, steps[0]))
      && (Guard(k, steps[0]) ==>
            Interleaved(Apply(k, steps[0]), main, idle, s, Advance(k, main, s, p, steps[0]), steps[1..]))
  }

  /** What the two threads can be in the middle of. */
  ghost predicate Pcs(threads: map<Tid, Thread>, main: Tid, idle: Tid, s: Sid, p: Progress) {
    && threads.Keys == (if p.main < 2 then {main} else {main, idle})
    && (threads[main].pc.Free? || (p.main == 3 && threads[main].pc == Waiting(s)))
    && (p.main == 2 ==> threads[idle].pc.Parked?)
    && (p.main >= 3 ==> threads[idle].pc.Free? || (p.idle == 2 && threads[idle].pc.Parked?))
  }

  ghost predicate Shape(k: Kernel, main: Tid, idle: Tid, s: Sid, p: Progress) {
    && p.idle <= 2 && (p.idle > 0 ==> p.main >= 3) && Pcs(k.threads, main, idle, s, p)
    && k.idle == (if p.idle == 0 then None else Some(idle))
    && (p.main == 0 ==> k.semas == map[]) && (p.main > 0 ==> s in k.semas)
    && (p.main < 3 ==> k.cur == main && k.ready == [])
  }

  ghost predicate Starting(k: Kernel, main: Tid, idle: Tid, s: Sid, p: Progress) {
    Inv(k) && Shape(k, main, idle, s, p)
  }

  /** Whatever the code does next can be done: where it gives up the processor, there is a thread to
      switch to. */
  lemma {:induction false} NeverStuck(k: Kernel, main: Tid, idle: Tid, s: Sid, p: Progress, st: Step)
    requires main != idle && Starting(k, main, idle, s, p)
    requires Interrupt(k, st) || Scripted(k, main, idle, s, p, st)
    ensures Guard(k, st)
  {
    hide WaitersExact, NoLostWakeup;
    if st.Down? && p.idle == 0 { assert idle in k.ready; }
  }

  lemma {:induction false} StillStarting(k: Kernel, main: Tid, idle: Tid, s: Sid, p: Progress, st: Step)
    requires main != idle && Starting(k, main, idle, s, p) && Guard(k, st)
    requires Interrupt(k, st) || Scripted(k, main, idle, s, p, st)
    ensures Starting(Apply(k, st), main, idle, s, Advance(k, main, s, p, st))
  {
    hide Holds, Shape, Apply;
    StepKeeps(k, st);
    if st.Tick? {
      TickStarting(k, main, idle, s, p);
    } else if k.cur == main {
      MainStarting(k, main, idle, s, p, st);
    } else {
      IdleStarting(k, main, idle, s, p, st);
    }
  }

  lemma {:induction false} MainStarting(k: Kernel, main: Tid, idle: Tid, s: Sid, p: Progress, st: Step)
    requires main != idle && Starting(k, main, idle, s, p) && Guard(k, st)
    requires k.cur == main && Scripted(k, main, idle, s, p, st)
    ensures Shape(Apply(k, st), main, idle, s, Advance(k, main, s, p, st))
  {
    hide Holds, Switch;
    if p.main == 3 && k.semas[s].value == 0 { SwitchShape(Enqueued(k, s), main, idle, s, p); }
  }

  lemma {:induction false} IdleStarting(k: Kernel, main: Tid, idle: Tid, s: Sid, p: Progress, st: Step)
    requires main != idle && Starting(k, main, idle, s, p) && Guard(k, st) && !st.Tick?
    requires k.cur == idle && Scripted(k, main, idle, s, p, st)
    ensures Shape(Apply(k, st), main, idle, s, Advance(k, main, s, p, st))
  {
    hide Holds, Switch;
    if k.semas[s].waiters != [] { Waiters(k, s); }
    if p.idle == 2 { SwitchShape(Leave(k, Thread(Blocked, Parked, 0)), main, idle, s, p); }
  }

  /** Who waits for a semaphore is a thread. */
  lemma {:induction false} Waiters(k: Kernel, s: Sid)
    requires Inv(k) && s in k.semas && k.semas[s].waiters != []
    ensures k.semas[s].waiters[0] in k.threads
  {
    assert k.semas[s].waiters[0] in k.semas[s].waiters;
  }

  /** A switch changes nothing but that a parked thread goes on. */
  lemma {:induction false} SwitchShape(k: Kernel, main: Tid, idle: Tid, s: Sid, p: Progress)
    requires Shape(k, main, idle, s, p) && p.main >= 3
    ensures Shape(Switch(k), main, idle, s, p)
  {
  }

  /** Nobody sleeps during the start-up. */
  lemma {:induction false} NobodyDue(k: Kernel, main: Tid, idle: Tid, s: Sid, p: Progress)
    requires Starting(k, main, idle, s, p)
    ensures TickWake(k) == k.(ticks := k.ticks + 1, slice := k.slice + 1)
  {
    hide WaitersExact, NoLostWakeup, ListsExact;
    var k1 := k.(ticks := k.ticks + 1);
    forall t ensures !IsDue(k1.threads, t, k1.ticks) {}
    NoneDue(k1.threads, k1.all, k1.ticks);
    assert k.ready + [] == k.ready;
    assert WakeSleepers(k1).threads == k1.threads;
  }

  lemma {:induction false} NoneDue(threads: map<Tid, Thread>, list: seq<Tid>, now: int)
    requires forall t :: !IsDue(threads, t, now)
    ensures Due(threads, list, now) == []
  {
    if list != [] { NoneDue(threads, list[1..], now); }
  }

  lemma {:induction false} TickStarting(k: Kernel, main: Tid, idle: Tid, s: Sid, p: Progress)
    requires main != idle && Starting(k, main, idle, s, p) && Guard(k, Tick)
    ensures Shape(Apply(k, Tick), main, idle, s, p)
  {
    hide Holds, Switch, TickWake;
    NobodyDue(k, main, idle, s, p);
    var k1 := TickWake(k);
    if k1.slice >= TIME_SLICE {
      if p.main >= 3 { SwitchShape(Queue(k1), main, idle, s, p); } else { OnlyMain(k1); }
    }
  }

  /** With nobody else ready the current thread goes on. */
  lemma {:induction false} OnlyMain(k: Kernel)
    requires k.cur in k.threads && k.ready == [] && k.idle.None? && k.threads[k.cur].pc.Free?
    ensures var k' := Switch(Queue(k));
      && k'.cur == k.cur && k'.ready == [] && k'.idle == k.idle && k'.semas == k.semas
      && k'.threads.Keys == k.threads.Keys && forall t | t in k.threads :: k'.threads[t].pc == k.threads[t].pc
  {
    assert [] + [k.cur] == [k.cur] && [k.cur][1..] == [];
  }

  /** Every run of the start-up, with timer interrupts anywhere, finds a thread to switch to whenever it
      needs one. */
  lemma {:induction false} StartUpSafe(k: Kernel, main: Tid, idle: Tid, s: Sid, p: Progress, steps: seq<Step>)
    requires main != idle && Starting(k, main, idle, s, p) && Interleaved(k, main, idle, s, p, steps)
    ensures Run(k, steps)
    decreases |steps|
  {
    hide Starting, Scripted, Interrupt, Guard, Apply, Advance;
    if steps != [] {
      NeverStuck(k, main, idle, s, p, steps[0]);
      StillStarting(k, main, idle, s, p, steps[0]);
      StartUpSafe(Apply(k, steps[0]), main, idle, s, Advance(k, main, s, p, steps[0]), steps[1..]);
    }
  }

  lemma {:induction false} StartUpFromBoot(main: Tid, idle: Tid, s: Sid, steps: seq<Step>)
    requires main != idle && Interleaved(Boot(main), main, idle, s, Progress(0, 0), steps)
    ensures Run(Boot(main), steps)
  {
    hide Interleaved, Run;
    BootHolds(main);
    StartUpSafe(Boot(main), main, idle, s, Progress(0, 0), steps);
  }

  // ----- the alarm clock -----

  lemma {:induction false} TicksStep(k: Kernel, st: Step)
    requires Guard(k, st)
    ensures Apply(k, st).ticks == k.ticks + if st.Tick? then 1 else 0
  {
    hide Holds;
  }

  /** The switch does not pick a sleeper. */
  lemma {:induction false} SwitchSkips(k: Kernel, t: Tid)
    requires ListsExact(k) && CanSwitch(k) && t in k.threads && k.threads[t].status.Blocked?
    requires k.threads[t].pc.Sleeping?
    ensures Next(k) in k.threads && Next(k) != t
    ensures t in Switch(k).threads && Switch(k).threads[t] == k.threads[t]
  {
    NextExists(k);
  }

  predicate Asleep(k: Kernel, t: Tid, w: int) {
    t in k.threads && k.threads[t] == Thread(Blocked, Sleeping, w)
  }

  /** Nothing but the tick at its wakeup time touches a sleeper. */
  lemma {:induction false} SleeperUndisturbed(k: Kernel, st: Step, t: Tid, w: int)
    requires Enabled(k, st) && Asleep(k, t, w) && (w <= 0 || Apply(k, st).ticks < w)
    ensures Asleep(Apply(k, st), t, w)
  {
    hide NoDup, WaitersExact, NoLostWakeup, Due, Without;
    Basics(k);
    assert k.cur != t;
    match st
    case Block => LeaveKeeps(k, Thread(Blocked, Parked, 0)); SwitchSkips(Leave(k, Thread(Blocked, Parked, 0)), t);
    case Yield => QueueKeeps(k); SwitchSkips(Queue(k), t);
    case Exit => ExitKeeps(k); SwitchSkips(Gone(k), t);
    case Sleep(n) =>
      if n > 0 {
        LeaveKeeps(k, Thread(Blocked, Sleeping, Wrap(k.ticks + n)));
        SwitchSkips(Leave(k, Thread(Blocked, Sleeping, Wrap(k.ticks + n))), t);
      }
    case Down(s) =>
      if k.semas[s].value == 0 {
        WaitKeeps(k, s);
        SwitchSkips(Enqueued(k, s), t);
      }
    case Up(s) => if k.semas[s].waiters != [] { FirstWaiter(k, s); }
    case Tick =>
      TicksStep(k, st);
      var k1 := TickWake(k);
      assert Asleep(k1, t, w);
      if k1.slice >= TIME_SLICE { QueueSkips(k, t); }
    case _ =>
  }

  lemma {:induction false} QueueSkips(k: Kernel, t: Tid)
    requires Inv(k) && k.ticks + 1 < INT64 && k.threads[k.cur].pc.Free?
    requires t in TickWake(k).threads && TickWake(k).threads[t].status.Blocked? && TickWake(k).threads[t].pc.Sleeping?
    requires t != k.cur
    ensures k.cur in TickWake(k).threads
    ensures t in Switch(Queue(TickWake(k))).threads && Switch(Queue(TickWake(k))).threads[t] == TickWake(k).threads[t]
  {
    hide NoDup, WaitersExact, NoLostWakeup, Due;
    WakeKeeps(k);
    var k2 := WakeSleepers(k.(ticks := k.ticks + 1));
    QueueKeeps(k2);
    SwitchSkips(Queue(k2), t);
  }

  lemma {:induction false} TicksGrow(k: Kernel, steps: seq<Step>)
    requires Run(k, steps)
    ensures Exec(k, steps).ticks == k.ticks + NumTicks(steps)
    decreases |steps|
  {
    hide Apply, Guard;
    if steps != [] {
      TicksStep(k, steps[0]);
      TicksGrow(Apply(k, steps[0]), steps[1..]);
    }
  }

  function NumTicks(steps: seq<Step>): nat {
    if steps == [] then 0 else (if steps[0].Tick? then 1 else 0) + NumTicks(steps[1..])
  }

  /** A sleeper sleeps on in every run until its wakeup time. */
  lemma {:induction false} StaysAsleep(k: Kernel, steps: seq<Step>, t: Tid, w: int)
    requires Inv(k) && Run(k, steps) && Asleep(k, t, w) && (w <= 0 || Exec(k, steps).ticks < w)
    ensures Asleep(Exec(k, steps), t, w)
    decreases |steps|
  {
    hide Apply, Guard, Asleep, Inv;
    if steps != [] {
      TicksGrow(Apply(k, steps[0]), steps[1..]);
      SleeperUndisturbed(k, steps[0], t, w);
      StepKeeps(k, steps[0]);
      StaysAsleep(Apply(k, steps[0]), steps[1..], t, w);
    }
  }

  /** The tick at the wakeup time wakes the sleeper: it is on the ready list, or running already. */
  lemma {:induction false} WokenOnTime(k: Kernel, t: Tid)
    requires Enabled(k, Tick) && Asleep(k, t, k.ticks + 1)
    ensures t in TickWake(k).ready[|k.ready|..]
    ensures var k' := Apply(k, Tick); t in k'.threads && k'.threads[t].wakeup == 0 && (t in k'.ready || t == k'.cur)
  {
    hide NoDup, WaitersExact, NoLostWakeup, Due, Switch, ListsExact;
    var k2 := WakeSleepers(k.(ticks := k.ticks + 1));
    Basics(k);
    JoinsReady(k, t);
    if TickWake(k).slice >= TIME_SLICE {
      WakeKeeps(k);
      QueueKeeps(k2);
      SwitchTakes(Queue(k2), t);
      SliceForgotten(k2, k.slice + 1);
    }
  }

  lemma {:induction false} JoinsReady(k: Kernel, t: Tid)
    requires Inv(k) && Asleep(k, t, k.ticks + 1)
    ensures t in TickWake(k).ready[|k.ready|..] && t in TickWake(k).ready
    ensures t in TickWake(k).threads && TickWake(k).threads[t].wakeup == 0
  {
    hide NoDup, WaitersExact, NoLostWakeup, Due;
    var due := Due(k.threads, k.all, k.ticks + 1);
    assert IsDue(k.threads, t, k.ticks + 1);
    assert TickWake(k).ready == k.ready + due;
    assert t in due;
  }

  /** The first of the ready list runs, the others stay on it. */
  lemma {:induction false} SwitchTakes(k: Kernel, t: Tid)
    requires Holds(k, false) && t in k.ready
    ensures t in Switch(k).ready || t == Switch(k).cur
    ensures t in Switch(k).threads && t in k.threads && Switch(k).threads[t].wakeup == k.threads[t].wakeup
  {
    hide NoDup, WaitersExact, NoLostWakeup;
    NextExists(k);
    assert k.ready == [k.ready[0]] + k.ready[1..];
  }

  /** `timer_sleep (n)` at tick T: in every run the thread stays blocked through tick T + n - 1, and
      the interrupt that makes the tick count T + n puts it on the ready list. */
  lemma {:induction false} AlarmClock(k: Kernel, n: int, steps: seq<Step>)
    requires Enabled(k, Sleep(n)) && n > 0 && k.ticks + n < INT64
    requires Run(Apply(k, Sleep(n)), steps) && Exec(Apply(k, Sleep(n)), steps).ticks < k.ticks + n
    ensures var k' := Exec(Apply(k, Sleep(n)), steps);
      && Asleep(k', k.cur, k.ticks + n) && k.cur !in k'.ready && k.cur != k'.cur
      && (k'.ticks == k.ticks + n - 1 && Guard(k', Tick) ==> k.cur in TickWake(k').ready[|k'.ready|..])
  {
    hide Apply, Guard, Run, Exec, Inv;
    var k1 := Apply(k, Sleep(n));
    var k' := Exec(k1, steps);
    FallsAsleep(k, n);
    AfterSleep(k, n);
    StaysAsleep(k1, steps, k.cur, k.ticks + n);
    Safety(k1, steps);
    SleeperOffLists(k', k.cur, k.ticks + n);
    if k'.ticks == k.ticks + n - 1 && Guard(k', Tick) { WokenOnTime(k', k.cur); }
  }

  /** When the 64-bit sum of the tick count and `n` overflows, the thread is never woken. */
  lemma {:induction false} AlarmOverflow(k: Kernel, n: int, steps: seq<Step>)
    requires Enabled(k, Sleep(n)) && n > 0 && k.ticks + n >= INT64 && Run(Apply(k, Sleep(n)), steps)
    ensures var k' := Exec(Apply(k, Sleep(n)), steps);
            k.cur in k'.threads && k'.threads[k.cur].status.Blocked? && k.cur !in k'.ready
  {
    hide Apply, Guard, Run, Exec, Inv;
    FallsAsleep(k, n);
    var k1 := Apply(k, Sleep(n));
    AfterSleep(k, n);
    SleepTicks(k, n);
    StaysAsleep(k1, steps, k.cur, Wrap(k.ticks + n));
    Safety(k1, steps);
    SleeperOffLists(Exec(k1, steps), k.cur, Wrap(k.ticks + n));
  }

  lemma {:induction false} SleepTicks(k: Kernel, n: int)
    requires Enabled(k, Sleep(n))
    ensures 0 <= k.ticks < INT64 && n < INT64
  {
  }

  lemma {:induction false} AfterSleep(k: Kernel, n: int)
    requires Enabled(k, Sleep(n))
    ensures Inv(Apply(k, Sleep(n)))
  {
    StepKeeps(k, Sleep(n));
  }

  lemma {:induction false} FallsAsleep(k: Kernel, n: int)
    requires Enabled(k, Sleep(n)) && n > 0
    ensures 0 <= k.ticks < INT64 && Asleep(Apply(k, Sleep(n)), k.cur, Wrap(k.ticks + n))
  {
    hide NoDup, WaitersExact, NoLostWakeup;
    Basics(k);
    var th := Thread(Blocked, Sleeping, Wrap(k.ticks + n));
    LeaveKeeps(k, th);
    SwitchSkips(Leave(k, th), k.cur);
  }

  lemma {:induction false} SleeperOffLists(k: Kernel, t: Tid, w: int)
    requires Inv(k) && Asleep(k, t, w)
    ensures t !in k.ready && t != k.cur && k.threads[t].status.Blocked?
  {
    hide NoDup, WaitersExact, NoLostWakeup;
  }

  /** All that a tick wakes were to wake at that tick, and they join in the order of the list of all
      threads: over a run sleepers come back in the order of their deadlines, ties in list order. */
  lemma {:induction false} WakeOrder(k: Kernel)
    requires Enabled(k, Tick)
    ensures var due := TickWake(k).ready[|k.ready|..];
      && TickWake(k).ready[..|k.ready|] == k.ready
      && (forall t | t in due :: Asleep(k, t, k.ticks + 1))
      && Subsequence(due, k.all)
  {
    hide NoDup, WaitersExact, NoLostWakeup, Due;
    var due := Due(k.threads, k.all, k.ticks + 1);
    assert TickWake(k).ready == k.ready + due;
    DueInOrder(k.threads, k.all, k.ticks + 1);
  }

  /** Of two sleepers the one with the earlier deadline is back on the ready list while the other is
      still asleep, in every run. */
  lemma {:induction false} DeadlineOrder(k: Kernel, steps: seq<Step>, a: Tid, wa: int, b: Tid, wb: int)
    requires Inv(k) && Run(k, steps) && Asleep(k, a, wa) && Asleep(k, b, wb) && 0 < wa < wb
    requires Exec(k, steps).ticks == wa - 1 && Guard(Exec(k, steps), Tick)
    ensures var k' := Exec(k, steps); a in TickWake(k').ready[|k'.ready|..] && Asleep(Apply(k', Tick), b, wb)
  {
    hide Run, Exec, Apply, Inv, Asleep, Guard;
    var k' := Exec(k, steps);
    Safety(k, steps);
    StaysAsleep(k, steps, a, wa);
    StaysAsleep(k, steps, b, wb);
    WokenOnTime(k', a);
    TicksStep(k', Tick);
    SleeperUndisturbed(k', Tick, b, wb);
  }

  /** `a` can be got from `b` by leaving elements out. */
  ghost predicate Subsequence(a: seq<Tid>, b: seq<Tid>) {
    a == [] || (b != [] && if a[0] == b[0] then Subsequence(a[1..], b[1..]) else Subsequence(a, b[1..]))
  }

  lemma {:induction false} DueInOrder(threads: map<Tid, Thread>, list: seq<Tid>, now: int)
    requires NoDup(list)
    ensures Subsequence(Due(threads, list, now), list)
  {
    if list != [] {
      DueInOrder(threads, list[1..], now);
      var rest := Due(threads, list[1..], now);
      assert NoDup(list[1..]);
      if !IsDue(threads, list[0], now) && rest != [] {
        assert rest[0] in rest;
        assert rest[0] != list[0];
      } else if IsDue(threads, list[0], now) {
        assert ([list[0]] + rest)[1..] == rest;
      }
    }
  }

  // ----- bounded waiting -----

  /** The step calls `schedule`. */
  ghost predicate Schedules(k: Kernel, st: Step)
    requires Guard(k, st)
  {
    match st
    case Block => true
    case Yield => true
    case Exit => true
    case Sleep(n) => n > 0
    case Down(s) => k.semas[s].value == 0
    case Tick => k.slice + 1 >= TIME_SLICE
    case _ => false
  }

  ghost function NumSchedules(k: Kernel, steps: seq<Step>): (n: nat)
    requires Run(k, steps)
    decreases |steps|
  {
    if steps == [] then 0
    else (if Schedules(k, steps[0]) then 1 else 0) + NumSchedules(Apply(k, steps[0]), steps[1..])
  }

  /** Before the switch the ready list only grows at its end. */
  ghost predicate Extends(k: Kernel, k': Kernel) { k.ready <= k'.ready }

  /** A switch runs the head of the ready list. */
  lemma {:induction false} SwitchShifts(k: Kernel, q: Kernel)
    requires Holds(q, false) && Extends(k, q) && k.ready != []
    ensures Switch(q).cur == k.ready[0]
    ensures k.ready[1..] <= Switch(q).ready
  {
    hide NoDup, WaitersExact, NoLostWakeup;
    NextExists(q);
    assert k.ready[1..] == k.ready[1..|k.ready|];
    assert q.ready[1..][..|k.ready| - 1] == q.ready[..|k.ready|][1..];
  }

  /** Each call of `schedule` moves the ready list on by one; nothing else takes a thread off it. */
  lemma {:induction false} ReadyMoves(k: Kernel, st: Step)
    requires Enabled(k, st) && k.ready != []
    ensures if Schedules(k, st) then Apply(k, st).cur == k.ready[0] && k.ready[1..] <= Apply(k, st).ready
            else Apply(k, st).cur == k.cur && k.ready <= Apply(k, st).ready
  {
    hide NoDup, WaitersExact, NoLostWakeup, Due, Without, ListsExact, Switch;
    Basics(k);
    match st
    case Block => LeaveKeeps(k, Thread(Blocked, Parked, 0)); SwitchShifts(k, Leave(k, Thread(Blocked, Parked, 0)));
    case Yield => QueueKeeps(k); SwitchShifts(k, Queue(k));
    case Exit => ExitKeeps(k); SwitchShifts(k, Gone(k));
    case Sleep(n) =>
      if n > 0 {
        LeaveKeeps(k, Thread(Blocked, Sleeping, Wrap(k.ticks + n)));
        SwitchShifts(k, Leave(k, Thread(Blocked, Sleeping, Wrap(k.ticks + n))));
      }
    case Down(s) =>
      if k.semas[s].value == 0 {
        WaitKeeps(k, s);
        SwitchShifts(k, Enqueued(k, s));
      }
    case Tick => if k.slice + 1 >= TIME_SLICE { TickShifts(k); }
    case _ =>
  }

  lemma {:induction false} TickShifts(k: Kernel)
    requires Enabled(k, Tick) && k.ready != [] && k.slice + 1 >= TIME_SLICE
    ensures Apply(k, Tick).cur == k.ready[0] && k.ready[1..] <= Apply(k, Tick).ready
  {
    hide NoDup, WaitersExact, NoLostWakeup, Due, ListsExact, Switch;
    Basics(k);
    WakeKeeps(k);
    var k2 := WakeSleepers(k.(ticks := k.ticks + 1));
    QueueKeeps(k2);
    SwitchShifts(k, Queue(k2));
    SliceForgotten(k2, k.slice + 1);
  }

  /** A thread at index `i` of the ready list has moved to index `i - j` after `j <= i` calls of
      `schedule`, whatever else happens. */
  lemma {:induction false} WaitsInLine(k: Kernel, steps: seq<Step>, i: nat)
    requires Inv(k) && Run(k, steps) && i < |k.ready| && NumSchedules(k, steps) <= i
    ensures i - NumSchedules(k, steps) < |Exec(k, steps).ready|
    ensures Exec(k, steps).ready[i - NumSchedules(k, steps)] == k.ready[i]
    decreases |steps|
  {
    hide Apply, Guard, Schedules, Inv;
    if steps != [] {
      ReadyMoves(k, steps[0]);
      StepKeeps(k, steps[0]);
      var k1 := Apply(k, steps[0]);
      var j := if Schedules(k, steps[0]) then i - 1 else i;
      assert if Schedules(k, steps[0]) then k.ready[1..][i - 1] == k.ready[i] else true;
      assert k1.ready[j] == k.ready[i];
      WaitsInLine(k1, steps[1..], j);
    }
  }

  /** Bounded waiting: a thread at index `i` of the ready list runs after exactly `i + 1` further
      calls of `schedule`. */
  lemma {:induction false} BoundedWaiting(k: Kernel, steps: seq<Step>, last: Step, i: nat)
    requires Inv(k) && Run(k, steps) && i < |k.ready| && NumSchedules(k, steps) == i
    requires Guard(Exec(k, steps), last) && Schedules(Exec(k, steps), last)
    ensures Apply(Exec(k, steps), last).cur == k.ready[i]
  {
    hide Apply, Guard, Schedules, Run, Exec, Inv;
    WaitsInLine(k, steps, i);
    Safety(k, steps);
    ReadyMoves(Exec(k, steps), last);
  }

  lemma {:induction false} SliceStep(k: Kernel, st: Step)
    requires Enabled(k, st)
    ensures Apply(k, st).slice == if Schedules(k, st) then 0 else k.slice + if st.Tick? then 1 else 0
    ensures k.slice < TIME_SLICE
  {
    hide NoDup, WaitersExact, NoLostWakeup, Due, Without, ListsExact, Switch;
    Basics(k);
    match st
    case Block => LeaveKeeps(k, Thread(Blocked, Parked, 0)); SwitchResets(Leave(k, Thread(Blocked, Parked, 0)));
    case Yield => QueueKeeps(k); SwitchResets(Queue(k));
    case Exit => ExitKeeps(k); SwitchResets(Gone(k));
    case Sleep(n) =>
      if n > 0 {
        LeaveKeeps(k, Thread(Blocked, Sleeping, Wrap(k.ticks + n)));
        SwitchResets(Leave(k, Thread(Blocked, Sleeping, Wrap(k.ticks + n))));
      }
    case Down(s) =>
      if k.semas[s].value == 0 {
        WaitKeeps(k, s);
        SwitchResets(Enqueued(k, s));
      }
    case Tick =>
      WakeKeeps(k);
      var k2 := WakeSleepers(k.(ticks := k.ticks + 1));
      QueueKeeps(k2);
      SwitchResets(Queue(k2));
      SliceForgotten(k2, k.slice + 1);
    case _ =>
  }

  lemma {:induction false} SwitchResets(k: Kernel)
    requires Holds(k, false) && CanSwitch(k)
    ensures Switch(k).slice == 0
  {
    hide NoDup, WaitersExact, NoLostWakeup;
    NextExists(k);
  }

  /** Ticks force switches: no thread keeps the processor for more than a time slice. */
  lemma {:induction false} TicksForceSwitches(k: Kernel, steps: seq<Step>)
    requires Inv(k) && Run(k, steps)
    ensures NumTicks(steps) + k.slice <= TIME_SLICE * NumSchedules(k, steps) + Exec(k, steps).slice
    decreases |steps|
  {
    hide Apply, Guard, Schedules, Inv;
    if steps != [] {
      SliceStep(k, steps[0]);
      StepKeeps(k, steps[0]);
      TicksForceSwitches(Apply(k, steps[0]), steps[1..]);
    }
  }

  /** A thread at index `i` of the ready list runs within four ticks for itself and each thread before it. */
  lemma {:induction false} BoundedTicks(k: Kernel, steps: seq<Step>, i: nat) returns (m: nat)
    requires Inv(k) && Run(k, steps) && i < |k.ready| && NumTicks(steps) >= 4 * (i + 1)
    ensures m <= |steps| && Run(k, steps[..m]) && Exec(k, steps[..m]).cur == k.ready[i]
  {
    hide Apply, Guard, Schedules, Inv, Run, Exec, NumSchedules;
    TicksForceSwitches(k, steps);
    Safety(k, steps);
    Basics(Exec(k, steps));
    assert NumSchedules(k, steps) >= i + 1;
    m := RunsAt(k, steps, i);
  }

  lemma {:induction false} RunsAt(k: Kernel, steps: seq<Step>, i: nat) returns (m: nat)
    requires Inv(k) && Run(k, steps) && i < |k.ready| && NumSchedules(k, steps) >= i + 1
    ensures m <= |steps| && Run(k, steps[..m]) && Exec(k, steps[..m]).cur == k.ready[i]
    decreases |steps|
  {
    hide Apply, Guard, Schedules, Inv;
    ReadyMoves(k, steps[0]);
    StepKeeps(k, steps[0]);
    var k1 := Apply(k, steps[0]);
    if Schedules(k, steps[0]) && i == 0 {
      m := 1;
      assert steps[..1] == [steps[0]] && [steps[0]][1..] == [];
      assert Exec(k1, []) == k1;
    } else {
      var j := if Schedules(k, steps[0]) then i - 1 else i;
      assert if Schedules(k, steps[0]) then k.ready[1..][i - 1] == k.ready[i] else true;
      assert k1.ready[j] == k.ready[i];
      var n := RunsAt(k1, steps[1..], j);
      m := n + 1;
      assert steps[..m][0] == steps[0] && steps[..m][1..] == steps[1..][..n];
    }
  }

  // ----- who runs, who is ready, and who stays blocked -----

  /** Who joins the end of the ready list in a step: a thread that is unblocked, the first waiter at an
      up, the sleepers that are due, and the current thread when it yields or has run for four ticks,
      unless it is the idle one. */
  ghost function Joins(k: Kernel, st: Step): (r: seq<Tid>) {
    var self := if k.idle == Some(k.cur) then [] else [k.cur];
    match st
    case Unblock(t) => [t]
    case Up(s) => if s in k.semas && k.semas[s].waiters != [] then [k.semas[s].waiters[0]] else []
    case Yield => self
    case Tick => Due(k.threads, k.all, k.ticks + 1) + if k.slice + 1 >= 4 then self else []
    case _ => []
  }

  /** After every step: those who join stand behind those who were ready; a call of `schedule` takes the
      first of them to run, or the idle thread exactly when there is none. */
  lemma {:induction false} LineMoves(k: Kernel, st: Step)
    requires Enabled(k, st)
    ensures var line, k' := k.ready + Joins(k, st), Apply(k, st);
      if !Schedules(k, st) then k'.cur == k.cur && k'.ready == line
      else if line == [] then k.idle == Some(k'.cur) && k'.ready == []
      else k'.cur == line[0] && k'.ready == line[1..]
  {
    hide NoDup, WaitersExact, NoLostWakeup, Due, Without, ListsExact, Switch;
    Basics(k);
    assert k.ready + [] == k.ready;
    match st
    case Block => LeaveKeeps(k, Thread(Blocked, Parked, 0)); TakesFirst(Leave(k, Thread(Blocked, Parked, 0)));
    case Yield => QueueKeeps(k); TakesFirst(Queue(k));
    case Exit => ExitKeeps(k); TakesFirst(Gone(k));
    case Sleep(n) =>
      if n > 0 {
        LeaveKeeps(k, Thread(Blocked, Sleeping, Wrap(k.ticks + n)));
        TakesFirst(Leave(k, Thread(Blocked, Sleeping, Wrap(k.ticks + n))));
      }
    case Down(s) =>
      if k.semas[s].value == 0 {
        WaitKeeps(k, s);
        TakesFirst(Enqueued(k, s));
      }
    case Up(s) => if k.semas[s].waiters != [] { FirstWaiter(k, s); }
    case Tick => LineAtTick(k);
    case _ =>
  }

  lemma {:induction false} TakesFirst(k: Kernel)
    requires Holds(k, false) && CanSwitch(k)
    ensures if k.ready == [] then k.idle == Some(Switch(k).cur) && Switch(k).ready == []
            else Switch(k).cur == k.ready[0] && Switch(k).ready == k.ready[1..]
  {
    hide NoDup, WaitersExact, NoLostWakeup;
    NextExists(k);
  }

  lemma {:induction false} LineAtTick(k: Kernel)
    requires Enabled(k, Tick)
    ensures var line, k' := k.ready + Joins(k, Tick), Apply(k, Tick);
      if !Schedules(k, Tick) then k'.cur == k.cur && k'.ready == line
      else if line == [] then k.idle == Some(k'.cur) && k'.ready == []
      else k'.cur == line[0] && k'.ready == line[1..]
  {
    hide NoDup, WaitersExact, NoLostWakeup, Due, ListsExact, Switch;
    Basics(k);
    WakeKeeps(k);
    var k2, due := WakeSleepers(k.(ticks := k.ticks + 1)), Due(k.threads, k.all, k.ticks + 1);
    assert k.ready + (due + []) == k.ready + due && k.ready + (due + [k.cur]) == (k.ready + due) + [k.cur];
    StillFree(k);
    if Schedules(k, Tick) {
      QueueKeeps(k2);
      TakesFirst(Queue(k2));
      SliceForgotten(k2, k.slice + 1);
    }
  }

  /** What wakes a blocked thread: being unblocked, an up when it is the first waiter, and the tick at its
      wakeup time. */
  ghost predicate Awakens(k: Kernel, st: Step, t: Tid) {
    || st == Unblock(t)
    || (st.Up? && st.s in k.semas && k.semas[st.s].waiters != [] && k.semas[st.s].waiters[0] == t)
    || (st.Tick? && t in k.threads && k.threads[t].pc.Sleeping? && k.threads[t].wakeup == k.ticks + 1)
  }

  /** A blocked thread, if it is not the idle one, stays exactly as it is until something wakes it. */
  lemma {:induction false} BlockedUndisturbed(k: Kernel, st: Step, t: Tid)
    requires Enabled(k, st) && t in k.threads && k.threads[t].status.Blocked? && k.idle != Some(t) && !Awakens(k, st, t)
    ensures var k' := Apply(k, st);
      && t in k'.threads && k'.threads[t] == k.threads[t] && k'.idle != Some(t) && t != k'.cur && t !in k'.ready
  {
    hide Apply, Guard, Inv, Awakens;
    BlockedSame(k, st, t);
    IdleStep(k, st);
    BlockedOffLists(k, t);
    StepKeeps(k, st);
    BlockedOffLists(Apply(k, st), t);
  }

  lemma {:induction false} BlockedSame(k: Kernel, st: Step, t: Tid)
    requires Enabled(k, st) && t in k.threads && k.threads[t].status.Blocked? && k.idle != Some(t) && !Awakens(k, st, t)
    ensures t in Apply(k, st).threads && Apply(k, st).threads[t] == k.threads[t]
  {
    hide NoDup, WaitersExact, NoLostWakeup, Due, Without, Switch, ListsExact;
    Basics(k);
    assert k.cur != t;
    match st
    case Block => LeaveKeeps(k, Thread(Blocked, Parked, 0)); SwitchPasses(Leave(k, Thread(Blocked, Parked, 0)), t);
    case Yield => QueueKeeps(k); SwitchPasses(Queue(k), t);
    case Exit => ExitKeeps(k); SwitchPasses(Gone(k), t);
    case Sleep(n) =>
      if n > 0 {
        LeaveKeeps(k, Thread(Blocked, Sleeping, Wrap(k.ticks + n)));
        SwitchPasses(Leave(k, Thread(Blocked, Sleeping, Wrap(k.ticks + n))), t);
      }
    case Down(s) =>
      if k.semas[s].value == 0 {
        WaitKeeps(k, s);
        SwitchPasses(Enqueued(k, s), t);
      }
    case Up(s) => if k.semas[s].waiters != [] { FirstWaiter(k, s); }
    case Tick => TickPasses(k, t);
    case _ =>
  }

  lemma {:induction false} SwitchPasses(k: Kernel, t: Tid)
    requires Holds(k, false) && CanSwitch(k) && t in k.threads && k.threads[t].status.Blocked? && k.idle != Some(t)
    ensures t in Switch(k).threads && Switch(k).threads[t] == k.threads[t]
  {
    hide NoDup, WaitersExact, NoLostWakeup;
    NextExists(k);
  }

  lemma {:induction false} TickPasses(k: Kernel, t: Tid)
    requires Enabled(k, Tick) && t in k.threads && k.threads[t].status.Blocked? && k.idle != Some(t) && t != k.cur
    requires !Awakens(k, Tick, t)
    ensures t in Apply(k, Tick).threads && Apply(k, Tick).threads[t] == k.threads[t]
  {
    hide NoDup, WaitersExact, NoLostWakeup, Due, Switch, ListsExact;
    WakeKeeps(k);
    StillFree(k);
    var k2 := WakeSleepers(k.(ticks := k.ticks + 1));
    assert k2.threads[t] == k.threads[t];
    if Schedules(k, Tick) {
      QueueKeeps(k2);
      SwitchPasses(Queue(k2), t);
      SliceForgotten(k2, k.slice + 1);
    }
  }

  lemma {:induction false} BlockedOffLists(k: Kernel, t: Tid)
    requires Inv(k) && t in k.threads && k.threads[t].status.Blocked?
    ensures t != k.cur && t !in k.ready
  {
    hide NoDup, WaitersExact, NoLostWakeup;
  }

  ghost predicate NeverAwakened(k: Kernel, steps: seq<Step>, t: Tid)
    requires Run(k, steps)
    decreases |steps|
  {
    steps != [] ==> !Awakens(k, steps[0], t) && NeverAwakened(Apply(k, steps[0]), steps[1..], t)
  }

  /** Over every run in which nothing wakes it, a blocked thread stays as it is, off the ready list, and
      does not run. */
  lemma {:induction false} StaysBlocked(k: Kernel, steps: seq<Step>, t: Tid)
    requires Inv(k) && Run(k, steps) && NeverAwakened(k, steps, t)
    requires t in k.threads && k.threads[t].status.Blocked? && k.idle != Some(t)
    ensures var k' := Exec(k, steps);
      && t in k'.threads && k'.threads[t] == k.threads[t] && k'.idle != Some(t) && t != k'.cur && t !in k'.ready
    decreases |steps|
  {
    hide Apply, Guard, Awakens, Inv;
    if steps == [] {
      BlockedOffLists(k, t);
    } else {
      BlockedUndisturbed(k, steps[0], t);
      StepKeeps(k, steps[0]);
      StaysBlocked(Apply(k, steps[0]), steps[1..], t);
    }
  }

  /** `thread_block` by a thread other than the idle one: another thread runs, and over every run without
      a `thread_unblock` of it the caller stays blocked, off the ready list, and does not run. */
  lemma {:induction false} BlockLasts(k: Kernel, steps: seq<Step>)
    requires Enabled(k, Block) && k.idle != Some(k.cur) && Run(Apply(k, Block), steps)
    requires forall i | 0 <= i < |steps| :: steps[i] != Unblock(k.cur)
    ensures Apply(k, Block).cur != k.cur
    ensures var k' := Exec(Apply(k, Block), steps);
      && k.cur in k'.threads && k'.threads[k.cur] == Thread(Blocked, Parked, 0)
      && k.cur != k'.cur && k.cur !in k'.ready
  {
    hide Apply, Guard, Run, Exec, Inv, NeverAwakened;
    StepKeeps(k, Block);
    Parks(k);
    var k1 := Apply(k, Block);
    BlockedOffLists(k1, k.cur);
    OnlyUnblock(k1, steps, k.cur);
    StaysBlocked(k1, steps, k.cur);
  }

  lemma {:induction false} Parks(k: Kernel)
    requires Enabled(k, Block) && k.idle != Some(k.cur)
    ensures var k' := Apply(k, Block); k.cur in k'.threads && k'.threads[k.cur] == Thread(Blocked, Parked, 0)
    ensures Apply(k, Block).idle == k.idle
  {
    hide NoDup, WaitersExact, NoLostWakeup, Switch, ListsExact;
    LeaveKeeps(k, Thread(Blocked, Parked, 0));
    SwitchPasses(Leave(k, Thread(Blocked, Parked, 0)), k.cur);
    IdleStep(k, Block);
  }

  /** Of a thread that is blocked on its own account nothing but `thread_unblock` is a wakeup. */
  lemma {:induction false} OnlyUnblock(k: Kernel, steps: seq<Step>, t: Tid)
    requires Inv(k) && Run(k, steps) && k.idle != Some(t)
    requires t in k.threads && k.threads[t] == Thread(Blocked, Parked, 0)
    requires forall i | 0 <= i < |steps| :: steps[i] != Unblock(t)
    ensures NeverAwakened(k, steps, t)
    decreases |steps|
  {
    hide Apply, Guard, Inv, Awakens;
    if steps != [] {
      ParkedNotAwakened(k, steps[0], t);
      BlockedUndisturbed(k, steps[0], t);
      StepKeeps(k, steps[0]);
      OnlyUnblock(Apply(k, steps[0]), steps[1..], t);
    }
  }

  lemma {:induction false} ParkedNotAwakened(k: Kernel, st: Step, t: Tid)
    requires Inv(k) && t in k.threads && k.threads[t].pc.Parked? && st != Unblock(t)
    ensures !Awakens(k, st, t)
  {
    hide NoDup, NoLostWakeup, ListsExact;
    if st.Up? && st.s in k.semas && k.semas[st.s].waiters != [] { FirstWaiter(k, st.s); }
  }

  /** `thread_exit`: over every run in which its number is not given out again the thread does not exist. */
  lemma {:induction false} ExitLasts(k: Kernel, steps: seq<Step>, t: Tid)
    requires Inv(k) && Run(k, steps) && t !in k.threads && forall i | 0 <= i < |steps| :: steps[i] != Create(t)
    ensures var k' := Exec(k, steps); t !in k'.threads && t !in k'.all && t !in k'.ready && t != k'.cur
    decreases |steps|
  {
    hide Apply, Guard, Inv;
    if steps == [] {
      NotThere(k, t);
    } else {
      KeysStep(k, steps[0]);
      StepKeeps(k, steps[0]);
      ExitLasts(Apply(k, steps[0]), steps[1..], t);
    }
  }

  lemma {:induction false} NotThere(k: Kernel, t: Tid)
    requires Inv(k) && t !in k.threads
    ensures t !in k.all && t !in k.ready && t != k.cur
  {
    hide NoDup, WaitersExact, NoLostWakeup;
  }

  /** Threads come by `thread_create` and go by `thread_exit`, and in no other way; the list of all threads is
      in the order of their creation. */
  lemma {:induction false} KeysStep(k: Kernel, st: Step)
    requires Enabled(k, st)
    ensures Apply(k, st).threads.Keys ==
            if st.Create? then k.threads.Keys + {st.t}
            else if st.Exit? then k.threads.Keys - {k.cur} else k.threads.Keys
    ensures st.Create? ==> Apply(k, st).all == k.all + [st.t]
    ensures st.Exit? ==> exists i :: 0 <= i < |k.all| && k.all[i] == k.cur && Apply(k, st).all == Removed(k.all, i)
    ensures !st.Create? && !st.Exit? ==> Apply(k, st).all == k.all
  {
    hide NoDup, WaitersExact, NoLostWakeup, Due, Without, Switch, ListsExact;
    Basics(k);
    match st
    case Block => LeaveKeeps(k, Thread(Blocked, Parked, 0)); SwitchSame(Leave(k, Thread(Blocked, Parked, 0)));
    case Yield => QueueKeeps(k); SwitchSame(Queue(k));
    case Exit =>
      ExitKeeps(k);
      SwitchSame(Gone(k));
      CurInAll(k);
      var i := WithoutRemoves(k.all, k.cur);
    case Sleep(n) =>
      if n > 0 {
        LeaveKeeps(k, Thread(Blocked, Sleeping, Wrap(k.ticks + n)));
        SwitchSame(Leave(k, Thread(Blocked, Sleeping, Wrap(k.ticks + n))));
      }
    case Down(s) =>
      if k.semas[s].value == 0 {
        WaitKeeps(k, s);
        SwitchSame(Enqueued(k, s));
      }
    case Up(s) => if k.semas[s].waiters != [] { FirstWaiter(k, s); }
    case Tick =>
      WakeKeeps(k);
      StillFree(k);
      if Schedules(k, Tick) {
        var k2 := WakeSleepers(k.(ticks := k.ticks + 1));
        QueueKeeps(k2);
        SwitchSame(Queue(k2));
        SliceForgotten(k2, k.slice + 1);
      }
    case _ =>
  }

  ghost function Removed(s: seq<Tid>, i: nat): seq<Tid>
    requires i < |s|
  {
    s[..i] + s[i + 1..]
  }

  lemma {:induction false} WithoutRemoves(s: seq<Tid>, t: Tid) returns (i: nat)
    requires NoDup(s) && t in s
    ensures i < |s| && s[i] == t && Without(s, t) == Removed(s, i)
  {
    hide NoDup, Without;
    WithoutHead(s, t);
    if s[0] == t {
      i := 0;
      WithoutNone(s[1..], t);
    } else {
      var j := WithoutRemoves(s[1..], t);
      i := j + 1;
      assert Removed(s, i) == [s[0]] + Removed(s[1..], j);
    }
  }

  lemma {:induction false} WithoutHead(s: seq<Tid>, t: Tid)
    requires NoDup(s) && s != []
    ensures NoDup(s[1..]) && s[0] !in s[1..]
    ensures Without(s, t) == if s[0] == t then Without(s[1..], t) else [s[0]] + Without(s[1..], t)
  {
  }

  lemma {:induction false} WithoutNone(s: seq<Tid>, t: Tid)
    requires t !in s
    ensures Without(s, t) == s
  {
    if s != [] { WithoutNone(s[1..], t); }
  }

  lemma {:induction false} CurInAll(k: Kernel)
    requires Inv(k)
    ensures NoDup(k.all) && k.cur in k.all
  {
    hide NoDup, WaitersExact, NoLostWakeup;
  }

  lemma {:induction false} SwitchSame(k: Kernel)
    requires Holds(k, false) && CanSwitch(k)
    ensures Switch(k).threads.Keys == k.threads.Keys && Switch(k).all == k.all
  {
    hide NoDup, WaitersExact, NoLostWakeup;
    NextExists(k);
  }

  // ----- semaphores -----

  /** Units of semaphore `s` that a step adds or takes, and threads it adds to its list or wakes. */
  function Raised(st: Step, s: Sid): nat { if st == Up(s) then 1 else 0 }

  ghost function Taken(k: Kernel, st: Step, s: Sid): nat
    requires Guard(k, st) && s in k.semas
  {
    if (st == Down(s) || st == TryDown(s)) && k.semas[s].value > 0 then 1 else 0
  }

  ghost function Arrives(k: Kernel, st: Step, s: Sid): seq<Tid>
    requires Guard(k, st) && s in k.semas
  {
    if st == Down(s) && k.semas[s].value == 0 then [k.cur] else []
  }

  ghost function Wakes(k: Kernel, st: Step, s: Sid): seq<Tid>
    requires Guard(k, st) && s in k.semas
  {
    if st == Up(s) && k.semas[s].waiters != [] then [k.semas[s].waiters[0]] else []
  }

  predicate Initializes(st: Step, s: Sid) { st.SemaInit? && st.s == s }

  lemma {:induction false} SemaStep(k: Kernel, st: Step, s: Sid)
    requires Guard(k, st) && s in k.semas && !Initializes(st, s)
    ensures s in Apply(k, st).semas
    ensures Apply(k, st).semas[s].value == k.semas[s].value + Raised(st, s) - Taken(k, st, s)
    ensures k.semas[s].waiters + Arrives(k, st, s) == Wakes(k, st, s) + Apply(k, st).semas[s].waiters
  {
    hide NoDup, Holds, Due, Without;
    var w := k.semas[s].waiters;
    if st == Up(s) && w != [] { assert w == [w[0]] + w[1..]; }
  }

  ghost predicate RunWithout(k: Kernel, steps: seq<Step>, s: Sid) {
    Run(k, steps) && s in k.semas && forall i | 0 <= i < |steps| :: !Initializes(steps[i], s)
  }

  ghost function TotalRaised(steps: seq<Step>, s: Sid): nat {
    if steps == [] then 0 else Raised(steps[0], s) + TotalRaised(steps[1..], s)
  }

  ghost function TotalTaken(k: Kernel, steps: seq<Step>, s: Sid): nat
    requires RunWithout(k, steps, s)
    decreases |steps|
  {
    if steps == [] then 0 else
    SemaStep(k, steps[0], s);
    Taken(k, steps[0], s) + TotalTaken(Apply(k, steps[0]), steps[1..], s)
  }

  ghost function AllArrivals(k: Kernel, steps: seq<Step>, s: Sid): seq<Tid>
    requires RunWithout(k, steps, s)
    decreases |steps|
  {
    if steps == [] then [] else
    SemaStep(k, steps[0], s);
    Arrives(k, steps[0], s) + AllArrivals(Apply(k, steps[0]), steps[1..], s)
  }

  ghost function AllWakes(k: Kernel, steps: seq<Step>, s: Sid): seq<Tid>
    requires RunWithout(k, steps, s)
    decreases |steps|
  {
    if steps == [] then [] else
    SemaStep(k, steps[0], s);
    Wakes(k, steps[0], s) + AllWakes(Apply(k, steps[0]), steps[1..], s)
  }

  /** Over every run the value is what was there, plus the ups, minus the downs that went through; and
      threads are woken in the order in which they came. */
  lemma {:induction false} SemaphoreLaw(k: Kernel, steps: seq<Step>, s: Sid)
    requires RunWithout(k, steps, s)
    ensures s in Exec(k, steps).semas
    ensures Exec(k, steps).semas[s].value == k.semas[s].value + TotalRaised(steps, s) - TotalTaken(k, steps, s)
    ensures k.semas[s].waiters + AllArrivals(k, steps, s) == AllWakes(k, steps, s) + Exec(k, steps).semas[s].waiters
    decreases |steps|
  {
    hide Apply, Guard, Arrives, Wakes, Raised, Taken;
    if steps != [] {
      SemaStep(k, steps[0], s);
      var k1 := Apply(k, steps[0]);
      SemaphoreLaw(k1, steps[1..], s);
      Regroup(k.semas[s].waiters, Arrives(k, steps[0], s), AllArrivals(k1, steps[1..], s),
              Wakes(k, steps[0], s), AllWakes(k1, steps[1..], s), k1.semas[s].waiters,
              Exec(k1, steps[1..]).semas[s].waiters);
    }
  }

  lemma {:induction false} Regroup(w: seq<Tid>, a: seq<Tid>, as': seq<Tid>, p: seq<Tid>, ps: seq<Tid>, w1: seq<Tid>,
                                   w2: seq<Tid>)
    requires w + a == p + w1 && w1 + as' == ps + w2
    ensures w + (a + as') == (p + ps) + w2
  {
    assert w + (a + as') == (w + a) + as' == p + (w1 + as');
  }

  /** While threads wait and the value is positive, a woken thread is on the ready list or about to
      look at the value: it will be there within bounded time. */
  lemma {:induction false} SomeoneIsComing(k: Kernel, s: Sid) returns (t: Tid)
    requires Inv(k) && s in k.semas && k.semas[s].waiters != [] && k.semas[s].value > 0
    ensures t in k.threads && k.threads[t].pc == Waiting(s) && (t == k.cur || t in k.ready)
  {
    hide NoDup;
    assert |Woken(k.threads, s)| > 0;
    t :| t in Woken(k.threads, s);
  }
}
