/** The kernel's thread, timer and semaphore operations as they change the kernel's variables in place
    (threads/thread.c, devices/timer.c, threads/synch.c, threads/interrupt.c); each is a step of module
    Scheduler.  A call that switches threads ends where the switch ends. */
module Threads {
  import opened Common
  import opened Scheduler

  /** Going through a list one thread at a time gives the due threads in its order. */
  lemma {:induction false} DueAppend(threads: map<Tid, Thread>, list: seq<Tid>, t: Tid, now: int)
    ensures Due(threads, list + [t], now) == Due(threads, list, now) + if IsDue(threads, t, now) then [t] else []
  {
    if list == [] {
      assert list + [t] == [t];
      assert [t][1..] == [];
    } else {
      DueAppend(threads, list[1..], t, now);
      assert (list + [t])[1..] == list[1..] + [t];
    }
  }

  /** The threads with the due ones among the first `i` of the list woken. */
  ghost predicate WokenUpTo(old_: map<Tid, Thread>, threads: map<Tid, Thread>, list: seq<Tid>, now: int) {
    && threads.Keys == old_.Keys
    && forall t | t in old_ ::
      threads[t] == if t in list && IsDue(old_, t, now) then Thread(Ready, Free, 0) else old_[t]
  }

  class Machine {
    var threads: map<Tid, Thread>
    var all: seq<Tid>
    var ready: seq<Tid>
    var cur: Tid
    var idle: Option<Tid>
    var ticks: int
    var slice: nat
    var semas: map<Sid, Sema>

    ghost function K(): Kernel
      reads this
    {
      Kernel(threads, all, ready, cur, idle, ticks, slice, semas)
    }

    /** `thread_init`. */
    constructor (main: Tid)
      ensures Inv(K()) && K() == Kernel(map[main := Thread(Running, Free, 0)], [main], [], main, None, 0, 0, map[])
    {
      threads, all, ready := map[main := Thread(Running, Free, 0)], [main], [];
      cur, idle, ticks, slice, semas := main, None, 0, 0, map[];
    }

    /** `schedule`, with `next_thread_to_run` and `thread_schedule_tail`. */
    method Schedule()
      requires Holds(K(), false) && CanSwitch(K())
      modifies this
      ensures Inv(K()) && K() == Switch(old(K()))
    {
      hide Holds;
      SwitchKeeps(K());
      var next;
      if ready == [] {
        next := idle.value;
      } else {
        next := ready[0];
        ready := ready[1..];
      }
      cur := next;
      threads := threads[next := Resume(threads[next])];
      slice := 0;
    }

    /** `thread_unblock`. */
    method ThreadUnblock(t: Tid)
      requires t in threads && threads[t].status.Blocked?
      modifies this
      ensures K() == MakeReady(old(K()), t)
    {
      ready := ready + [t];
      threads := threads[t := threads[t].(status := Ready)];
    }

    /** The append of `init_thread`. */
    method InitThread(t: Tid)
      requires Enabled(K(), Create(t))
      modifies this
      ensures Inv(K()) && K() == Apply(old(K()), Create(t))
    {
      hide Holds;
      StepKeeps(K(), Create(t));
      threads := threads[t := Thread(Blocked, Parked, 0)];
      all := all + [t];
    }

    /** `thread_unblock` of a thread that is blocked on its own account, such as a new one. */
    method ThreadStart(t: Tid)
      requires Enabled(K(), Unblock(t))
      modifies this
      ensures Inv(K()) && K() == Apply(old(K()), Unblock(t))
    {
      StepKeeps(K(), Unblock(t));
      threads := threads[t := threads[t].(pc := Free)];
      ThreadUnblock(t);
    }

    /** The start of `idle`. */
    method BecomeIdle()
      requires Enabled(K(), SetIdle)
      modifies this
      ensures Inv(K()) && K() == Apply(old(K()), SetIdle)
    {
      hide Holds;
      StepKeeps(K(), SetIdle);
      idle := Some(cur);
    }

    /** `thread_block` on a thread's own account, as in the idle loop. */
    method ThreadBlock()
      requires Enabled(K(), Block)
      modifies this
      ensures Inv(K()) && K() == Apply(old(K()), Block)
    {
      hide Holds, Switch;
      LeaveKeeps(K(), Thread(Blocked, Parked, 0));
      threads := threads[cur := Thread(Blocked, Parked, 0)];
      Schedule();
    }

    /** `thread_yield`. */
    method ThreadYield()
      requires Inv(K()) && threads[cur].pc.Free?
      modifies this
      ensures Inv(K()) && K() == Switch(Queue(old(K())))
    {
      hide Holds, Switch;
      Basics(K());
      QueueKeeps(K());
      if idle != Some(cur) { ready := ready + [cur]; }
      threads := threads[cur := threads[cur].(status := Ready)];
      Schedule();
    }

    /** `thread_exit`. */
    method ThreadExit()
      requires Enabled(K(), Exit)
      modifies this
      ensures Inv(K()) && K() == Apply(old(K()), Exit) && old(cur) !in threads && old(cur) !in all
    {
      hide Holds, Switch, Without;
      ExitKeeps(K());
      GoneForGood(K());
      all := Without(all, cur);
      threads := threads - {cur};
      Schedule();
    }

    /** `timer_sleep`. */
    method TimerSleep(n: int)
      requires Enabled(K(), Sleep(n))
      modifies this
      ensures Inv(K()) && K() == Apply(old(K()), Sleep(n))
    {
      hide Holds, Switch;
      if n <= 0 { return; }
      Basics(K());
      var th := Thread(Blocked, Sleeping, Wrap(ticks + n));
      LeaveKeeps(K(), th);
      threads := threads[cur := th];
      Schedule();
    }

    /** `sema_init`. */
    method SemaInitialize(s: Sid, value: nat)
      requires Enabled(K(), SemaInit(s, value))
      modifies this
      ensures Inv(K()) && K() == Apply(old(K()), SemaInit(s, value))
    {
      hide Holds;
      StepKeeps(K(), SemaInit(s, value));
      semas := semas[s := Sema(value, [])];
    }

    /** One look of `sema_down` at the value: the thread takes a unit and goes on, or joins the list
        and blocks, to look again when it next runs. */
    method SemaDown(s: Sid) returns (done: bool)
      requires Enabled(K(), Down(s))
      modifies this
      ensures Inv(K()) && K() == Apply(old(K()), Down(s)) && done == (old(semas)[s].value > 0)
    {
      hide Holds, Switch;
      StepKeeps(K(), Down(s));
      if semas[s].value == 0 {
        WaitKeeps(K(), s);
        semas := semas[s := Sema(0, semas[s].waiters + [cur])];
        threads := threads[cur := Thread(Blocked, Waiting(s), 0)];
        Schedule();
        return false;
      }
      semas := semas[s := semas[s].(value := semas[s].value - 1)];
      threads := threads[cur := Thread(Running, Free, 0)];
      return true;
    }

    /** `sema_try_down`. */
    method SemaTryDown(s: Sid) returns (success: bool)
      requires Enabled(K(), TryDown(s))
      modifies this
      ensures Inv(K()) && K() == Apply(old(K()), TryDown(s)) && success == (old(semas)[s].value > 0)
    {
      hide Holds;
      StepKeeps(K(), TryDown(s));
      if semas[s].value > 0 {
        semas := semas[s := semas[s].(value := semas[s].value - 1)];
        return true;
      }
      return false;
    }

    /** `sema_up`. */
    method SemaUp(s: Sid)
      requires Enabled(K(), Up(s))
      modifies this
      ensures Inv(K()) && K() == Apply(old(K()), Up(s))
    {
      hide Holds;
      StepKeeps(K(), Up(s));
      if semas[s].waiters != [] {
        WaiterBlocked(K(), s);
        var t := semas[s].waiters[0];
        semas := semas[s := semas[s].(waiters := semas[s].waiters[1..])];
        ThreadUnblock(t);
      }
      semas := semas[s := semas[s].(value := semas[s].value + 1)];
      assert semas == Apply(old(K()), Up(s)).semas;
    }

    /** `update_sleeping_threads`. */
    method UpdateSleeping(t: Tid, now: int)
      requires t in threads && (threads[t].status.Blocked? && threads[t].wakeup > 0 ==> threads[t].pc.Sleeping?)
      modifies this
      ensures K() == if IsDue(old(threads), t, now)
        then old(K()).(threads := old(threads)[t := Thread(Ready, Free, 0)], ready := old(ready) + [t]) else old(K())
    {
      if threads[t].status.Blocked? && threads[t].wakeup > 0 && threads[t].wakeup <= now {
        threads := threads[t := threads[t].(wakeup := 0, pc := Free)];
        ThreadUnblock(t);
      }
    }

    /** `thread_foreach` with `update_sleeping_threads`: the loop over the list of all threads wakes
        exactly the due ones, in list order. */
    method WakeAll()
      requires NoDup(all) && (forall t | t in all :: t in threads)
      requires forall t | t in threads && threads[t].wakeup > 0 :: threads[t].pc.Sleeping? && t in all
      modifies this
      ensures K() == WakeSleepers(old(K()))
    {
      hide Due, WokenUpTo, NoDup;
      ghost var k := K();
      NoneWoken(threads, ticks);
      assert all[..0] == [] && ready == ready + [];
      for i := 0 to |all|
        invariant K() == k.(threads := threads, ready := ready)
        invariant WokenUpTo(k.threads, threads, all[..i], ticks)
        invariant ready == k.ready + Due(k.threads, all[..i], ticks)
      {
        NotYet(all, i);
        WokenStep(k.threads, threads, all[..i], all[i], ticks);
        DueAppend(k.threads, all[..i], all[i], ticks);
        UpdateSleeping(all[i], ticks);
      }
      assert all[..|all|] == all;
      AllWoken(k, threads);
    }

    /** `timer_interrupt` and the end of `intr_handler`: when the time slice is over the interrupted
        thread yields. */
    method TimerInterrupt()
      requires Enabled(K(), Tick)
      modifies this
      ensures Inv(K()) && K() == Apply(old(K()), Tick)
    {
      hide Holds, Switch, WakeSleepers;
      StepKeeps(K(), Tick);
      Basics(K());
      WakeKeeps(K());
      TimerReady(K());
      ghost var k2 := WakeSleepers(K().(ticks := ticks + 1));
      ticks := ticks + 1;
      WakeAll();
      StillFree(old(K()));
      if slice + 1 >= TIME_SLICE {
        ThreadYield();
        SliceForgotten(k2, k2.slice + 1);
      } else {
        slice := slice + 1;
      }
    }
  }

  lemma {:induction false} GoneForGood(k: Kernel)
    requires Inv(k) && k.threads[k.cur].pc.Free? && k.idle != Some(k.cur) && CanSwitch(k)
    ensures k.cur !in Switch(Gone(k)).threads && k.cur !in Switch(Gone(k)).all
  {
    hide NoDup, WaitersExact, NoLostWakeup, Without;
    ExitKeeps(k);
    NextExists(Gone(k));
  }

  lemma {:induction false} WaiterBlocked(k: Kernel, s: Sid)
    requires Inv(k) && s in k.semas && k.semas[s].waiters != []
    ensures k.semas[s].waiters[0] in k.threads && k.threads[k.semas[s].waiters[0]].status.Blocked?
  {
    FirstWaiter(k, s);
  }

  lemma {:induction false} TimerReady(k: Kernel)
    requires Inv(k)
    ensures NoDup(k.all) && (forall t | t in k.all :: t in k.threads)
    ensures forall t | t in k.threads && k.threads[t].wakeup > 0 :: k.threads[t].pc.Sleeping? && t in k.all
  {
  }

  lemma {:induction false} WokenStep(old_: map<Tid, Thread>, threads: map<Tid, Thread>, list: seq<Tid>, t: Tid,
                                     now: int)
    requires WokenUpTo(old_, threads, list, now) && t !in list && t in old_
    ensures t in threads && threads[t] == old_[t]
    ensures WokenUpTo(old_, if IsDue(old_, t, now) then threads[t := Thread(Ready, Free, 0)] else threads,
                      list + [t], now)
  {
  }

  lemma {:induction false} AllWoken(k: Kernel, threads: map<Tid, Thread>)
    requires WokenUpTo(k.threads, threads, k.all, k.ticks)
    requires forall t | t in k.threads && k.threads[t].wakeup > 0 :: t in k.all
    ensures threads == WakeSleepers(k).threads
  {
    hide Due;
  }

  lemma {:induction false} NotYet(list: seq<Tid>, i: nat)
    requires NoDup(list) && i < |list|
    ensures list[i] in list && list[i] !in list[..i] && list[..i + 1] == list[..i] + [list[i]]
  {
  }

  lemma {:induction false} NoneWoken(threads: map<Tid, Thread>, now: int)
    ensures WokenUpTo(threads, threads, [], now) && Due(threads, [], now) == []
  {
  }
}
