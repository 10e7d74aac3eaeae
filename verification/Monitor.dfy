/** Locks and condition variables (threads/synch.c) on top of the semaphores of module Scheduler.

    An action is one kernel step, or one assignment of the lock's holder.  The sections between them
    run with interrupts on, so that any other thread's actions may come in between. */
module Monitor {
  import opened Common
  import opened Scheduler
  import Runs

  type Lid = nat
  type Cid = nat

  /** Where a thread between `sema_down` and `sema_up` of a lock is: before it sets the holder, after
      that, or after it cleared the holder. */
  datatype Phase = Entering | Holding | Leaving

  datatype Lock = Lock(sema: Sid, holder: Option<Tid>, inside: map<Tid, Phase>)

  /** A condition variable: the list of waiters, each the semaphore of one `cond_wait`.  Beside it, all
      waiters that ever joined and all that were signalled, in order; whose they are; and which of them
      have gone through `sema_down`. */
  datatype Cond = Cond(lock: Lid, waiters: seq<Sid>, joined: seq<Sid>, signalled: seq<Sid>, owner: map<Sid, Tid>,
                       passed: set<Sid>)

  datatype Role = OfLock(l: Lid) | OfWaiter(c: Cid)

  datatype Mon = Mon(k: Kernel, locks: map<Lid, Lock>, conds: map<Cid, Cond>, roles: map<Sid, Role>)

  // ----- the invariant -----

  /** The semaphore's value and the number of threads inside add up to 1, and the holder is the one
      that is holding. */
  ghost predicate LockOk(roles: map<Sid, Role>, semas: map<Sid, Sema>, l: Lid, lock: Lock) {
    && lock.sema in roles && roles[lock.sema] == OfLock(l) && lock.sema in semas
    && semas[lock.sema].value + |lock.inside| == 1
    && (forall t: Tid :: lock.holder == Some(t) <==> t in lock.inside && lock.inside[t].Holding?)
  }

  ghost predicate LocksExact(m: Mon) {
    forall l | l in m.locks :: LockOk(m.roles, m.k.semas, l, m.locks[l])
  }

  /** Those that joined are those signalled, then those still waiting; a waiter's semaphore is up
      exactly from its signal to its passing. */
  ghost predicate CondOk(roles: map<Sid, Role>, semas: map<Sid, Sema>, c: Cid, cond: Cond) {
    && cond.joined == cond.signalled + cond.waiters && Distinct(cond.joined)
    && (forall e | e in cond.joined :: WaiterOk(roles, semas, c, cond, e))
    && (forall e | e in cond.passed :: e in cond.joined)
  }

  ghost predicate WaiterOk(roles: map<Sid, Role>, semas: map<Sid, Sema>, c: Cid, cond: Cond, e: Sid) {
    && e in roles && roles[e] == OfWaiter(c) && e in semas && e in cond.owner
    && semas[e].value + (if e in cond.passed then 1 else 0) == (if e in cond.signalled then 1 else 0)
  }

  ghost predicate CondsExact(m: Mon) {
    forall c | c in m.conds :: CondOk(m.roles, m.k.semas, c, m.conds[c])
  }

  predicate Distinct(s: seq<Sid>) { forall i, j | 0 <= i < j < |s| :: s[i] != s[j] }

  /** Only its owner waits on a waiter's semaphore. */
  ghost predicate OwnersOnly(m: Mon) {
    forall t, c | t in m.k.threads && m.k.threads[t].pc.Waiting? && c in m.conds &&
                  m.k.threads[t].pc.sema in m.conds[c].joined ::
      m.k.threads[t].pc.sema in m.conds[c].owner && m.conds[c].owner[m.k.threads[t].pc.sema] == t
  }

  ghost predicate MonInv(m: Mon) {
    Inv(m.k) && LocksExact(m) && CondsExact(m) && OwnersOnly(m)
  }

  // ----- what the invariant means -----

  /** Mutual exclusion: two threads are never both past `sema_down` and before `sema_up` of a lock. */
  lemma {:induction false} MutualExclusion(m: Mon, l: Lid, t: Tid, u: Tid)
    requires LocksExact(m) && l in m.locks && t in m.locks[l].inside && u in m.locks[l].inside
    ensures t == u
  {
    AtMostOne(m.locks[l].inside.Keys, t, u);
  }

  lemma {:induction false} AtMostOne(s: set<Tid>, t: Tid, u: Tid)
    requires |s| <= 1 && t in s && u in s
    ensures t == u
  {
    assert |s - {t}| == 0;
    assert u !in s - {t};
  }

  /** A signal is not lost: whoever was signalled and has not passed finds the semaphore up, and is not
      left on its list. */
  lemma {:induction false} SignalNotLost(m: Mon, c: Cid, e: Sid)
    requires MonInv(m) && c in m.conds && e in m.conds[c].signalled && e !in m.conds[c].passed
    ensures e in m.k.semas && m.k.semas[e].value == 1 && m.k.semas[e].waiters == []
  {
    hide LocksExact, ListsExact, SleepExact, OneRunning, WaitersExact, Scheduler.NoDup, OwnersOnly;
    assert e in m.conds[c].joined;
    if m.k.semas[e].waiters != [] {
      OwnerBlocked(m, c, e);
      assert false;
    }
  }

  lemma {:induction false} OwnerBlocked(m: Mon, c: Cid, e: Sid)
    requires WaitersExact(m.k) && OwnersOnly(m) && c in m.conds && e in m.conds[c].joined && e in m.k.semas
    requires m.k.semas[e].waiters != []
    ensures Woken(m.k.threads, e) == {}
  {
    hide Scheduler.NoDup;
    var w := m.k.semas[e].waiters[0];
    FirstWaiter(m.k, e);
    assert m.conds[c].owner[e] == w;
  }

  /** Nobody comes back from a wait without a signal, and signals go to waiters in the order in which
      they joined. */
  lemma {:induction false} SignalledInOrder(m: Mon, c: Cid, e: Sid)
    requires CondsExact(m) && c in m.conds
    ensures m.conds[c].signalled <= m.conds[c].joined
    ensures e in m.conds[c].passed ==> e in m.conds[c].signalled
  {
    assert e in m.conds[c].passed ==> e in m.conds[c].joined;
  }

  // ----- actions -----

  datatype Action =
    | Other(st: Step)
    | LockInit(l: Lid, s: Sid)
    | LockDown(l: Lid)
    | LockTry(l: Lid)
    | SetHolder(l: Lid)
    | ClearHolder(l: Lid)
    | LockUp(l: Lid)
    | CondInit(c: Cid, l: Lid)
    | CondJoin(c: Cid, e: Sid)
    | CondDown(c: Cid, e: Sid)
    | CondSignal(c: Cid)

  /** The step works on this semaphore. */
  predicate Touches(st: Step, s: Sid) {
    match st
    case Down(s') => s' == s
    case TryDown(s') => s' == s
    case Up(s') => s' == s
    case SemaInit(s', _) => s' == s
    case _ => false
  }

  /** The kernel step that an action makes, if any. */
  function KernelStep(m: Mon, a: Action): (r: Option<Step>)
    requires Permitted(m, a)
  {
    match a
    case Other(st) => Some(st)
    case LockInit(_, s) => Some(SemaInit(s, 1))
    case LockDown(l) => Some(Down(m.locks[l].sema))
    case LockTry(l) => Some(TryDown(m.locks[l].sema))
    case SetHolder(_) => None
    case ClearHolder(_) => None
    case LockUp(l) => Some(Up(m.locks[l].sema))
    case CondInit(_, _) => None
    case CondJoin(_, e) => Some(SemaInit(e, 0))
    case CondDown(_, e) => Some(Down(e))
    case CondSignal(c) => if m.conds[c].waiters == [] then None else Some(Up(m.conds[c].waiters[0]))
  }

  predicate HeldByCurrent(m: Mon, l: Lid) { l in m.locks && m.locks[l].holder == Some(m.k.cur) }

  /** What the program order and the assertions of the source allow the current thread to do. */
  predicate Permitted(m: Mon, a: Action) {
    match a
    case Other(st) => forall s | s in m.roles :: !Touches(st, s)
    case LockInit(l, s) => l !in m.locks && s !in m.roles
    case LockDown(l) => l in m.locks && m.k.cur !in m.locks[l].inside
    case LockTry(l) => l in m.locks && m.k.cur !in m.locks[l].inside
    case SetHolder(l) => l in m.locks && m.k.cur in m.locks[l].inside && m.locks[l].inside[m.k.cur].Entering?
    case ClearHolder(l) => HeldByCurrent(m, l)
    case LockUp(l) => l in m.locks && m.k.cur in m.locks[l].inside && m.locks[l].inside[m.k.cur].Leaving?
    case CondInit(c, _) => c !in m.conds
    case CondJoin(c, e) => c in m.conds && HeldByCurrent(m, m.conds[c].lock) && e !in m.roles
    case CondDown(c, e) => c in m.conds && e in m.conds[c].owner && m.conds[c].owner[e] == m.k.cur
      && e in m.conds[c].joined && e !in m.conds[c].passed
    case CondSignal(c) => c in m.conds && HeldByCurrent(m, m.conds[c].lock)
  }

  /** The action can be taken: the program allows it, and so does the kernel. */
  predicate Allowed(m: Mon, a: Action) {
    Permitted(m, a) && (KernelStep(m, a).Some? ==> Guard(m.k, KernelStep(m, a).value))
  }

  ghost predicate CanAct(m: Mon, a: Action)
    ensures CanAct(m, a) ==> MonInv(m) && Allowed(m, a)
  {
    MonInv(m) && Allowed(m, a)
  }

  function WithLock(m: Mon, l: Lid, lock: Lock): Mon { m.(locks := m.locks[l := lock]) }
  function WithCond(m: Mon, c: Cid, cond: Cond): Mon { m.(conds := m.conds[c := cond]) }

  /** The bookkeeping of an action, the kernel's own state aside. */
  function Record(m: Mon, a: Action): (m': Mon)
    requires Permitted(m, a)
    requires a.LockDown? || a.LockTry? ==> m.locks[a.l].sema in m.k.semas
    requires a.CondDown? ==> a.e in m.k.semas
  {
    match a
    case Other(_) => m
    case LockInit(l, s) => WithLock(m, l, Lock(s, None, map[])).(roles := m.roles[s := OfLock(l)])
    case LockDown(l) => Entered(m, l)
    case LockTry(l) => Entered(m, l)
    case SetHolder(l) =>
      WithLock(m, l, m.locks[l].(holder := Some(m.k.cur), inside := m.locks[l].inside[m.k.cur := Holding]))
    case ClearHolder(l) => WithLock(m, l, m.locks[l].(holder := None, inside := m.locks[l].inside[m.k.cur := Leaving]))
    case LockUp(l) => WithLock(m, l, m.locks[l].(inside := m.locks[l].inside - {m.k.cur}))
    case CondInit(c, l) => WithCond(m, c, Cond(l, [], [], [], map[], {}))
    case CondJoin(c, e) =>
      var cond := m.conds[c];
      var cond' := cond.(waiters := cond.waiters + [e], joined := cond.joined + [e], owner := cond.owner[e := m.k.cur]);
      WithCond(m, c, cond').(roles := m.roles[e := OfWaiter(c)])
    case CondDown(c, e) =>
      if m.k.semas[e].value > 0 then WithCond(m, c, m.conds[c].(passed := m.conds[c].passed + {e})) else m
    case CondSignal(c) =>
      var cond := m.conds[c];
      if cond.waiters == [] then m
      else WithCond(m, c, cond.(waiters := cond.waiters[1..], signalled := cond.signalled + [cond.waiters[0]]))
  }

  /** A down of a lock's semaphore goes through exactly when the value is positive. */
  function Entered(m: Mon, l: Lid): (m': Mon)
    requires l in m.locks && m.locks[l].sema in m.k.semas
  {
    if m.k.semas[m.locks[l].sema].value > 0
    then WithLock(m, l, m.locks[l].(inside := m.locks[l].inside[m.k.cur := Entering]))
    else m
  }

  ghost function Act(m: Mon, a: Action): (m': Mon)
    requires Allowed(m, a)
  {
    Record(m, a).(k := if KernelStep(m, a).Some? then Apply(m.k, KernelStep(m, a).value) else m.k)
  }

  // ----- what a kernel step does to semaphores and waiting threads -----

  lemma {:induction false} OthersUntouched(k: Kernel, st: Step)
    requires Enabled(k, st)
    ensures forall s | s in k.semas && !Touches(st, s) ::
            s in Apply(k, st).semas && Apply(k, st).semas[s].value == k.semas[s].value
  {
    hide Guard, Apply;
    forall s | s in k.semas && !Touches(st, s)
      ensures s in Apply(k, st).semas && Apply(k, st).semas[s].value == k.semas[s].value
    {
      Runs.SemaStep(k, st, s);
    }
  }

  /** Only a down by the current thread makes a thread wait. */
  lemma {:induction false} NewWaiters(k: Kernel, st: Step, t: Tid)
    requires Enabled(k, st) && t in Apply(k, st).threads && Apply(k, st).threads[t].pc.Waiting?
    ensures var s := Apply(k, st).threads[t].pc.sema;
            (t in k.threads && k.threads[t].pc == Waiting(s)) || (st == Down(s) && t == k.cur)
  {
    hide Scheduler.NoDup, Holds, Due, Without;
    Basics(k);
    if st.Up? && k.semas[st.s].waiters != [] { WaiterThread(k, st.s); }
  }

  lemma {:induction false} WaiterThread(k: Kernel, s: Sid)
    requires Inv(k) && s in k.semas && k.semas[s].waiters != []
    ensures k.semas[s].waiters[0] in k.threads
  {
    FirstWaiter(k, s);
  }

  // ----- every action keeps the invariant -----

  /** What an action leaves alone: every role's semaphore, but for at most one. */
  ghost predicate OnlyChanges(m: Mon, m': Mon, s: Sid) {
    && (forall r | r in m.roles && r != s :: r in m'.roles && m'.roles[r] == m.roles[r])
    && (forall r | r in m.roles && r != s && r in m.k.semas ::
          r in m'.k.semas && m'.k.semas[r].value == m.k.semas[r].value)
  }

  lemma {:induction false} LocksKept(m: Mon, m': Mon, s: Sid, l: Lid)
    requires LocksExact(m) && OnlyChanges(m, m', s) && l in m.locks && m.locks[l].sema != s
    ensures LockOk(m'.roles, m'.k.semas, l, m.locks[l])
  {
    assert LockOk(m.roles, m.k.semas, l, m.locks[l]);
  }

  lemma {:induction false} CondsKept(m: Mon, m': Mon, s: Sid, c: Cid)
    requires CondsExact(m) && OnlyChanges(m, m', s) && c in m.conds && s !in m.conds[c].joined
    ensures CondOk(m'.roles, m'.k.semas, c, m.conds[c])
  {
    hide Distinct;
    var cond := m.conds[c];
    assert CondOk(m.roles, m.k.semas, c, cond);
    forall e | e in cond.joined ensures WaiterOk(m'.roles, m'.k.semas, c, cond, e) {
      assert WaiterOk(m.roles, m.k.semas, c, cond, e);
    }
  }

  /** The semaphore belongs to one lock or to one waiter, if to anything. */
  lemma {:induction false} RoleUnique(m: Mon, s: Sid)
    requires LocksExact(m) && CondsExact(m)
    ensures s !in m.roles ==>
            (forall l | l in m.locks :: m.locks[l].sema != s) && (forall c | c in m.conds :: s !in m.conds[c].joined)
    ensures s in m.roles && m.roles[s].OfLock? ==>
      (forall l | l in m.locks && l != m.roles[s].l :: m.locks[l].sema != s)
        && (forall c | c in m.conds :: s !in m.conds[c].joined)
    ensures s in m.roles && m.roles[s].OfWaiter? ==>
      (forall l | l in m.locks :: m.locks[l].sema != s)
        && (forall c | c in m.conds && c != m.roles[s].c :: s !in m.conds[c].joined)
  {
    forall l | l in m.locks ensures m.locks[l].sema in m.roles && m.roles[m.locks[l].sema] == OfLock(l) {
      assert LockOk(m.roles, m.k.semas, l, m.locks[l]);
    }
    forall c, e | c in m.conds && e in m.conds[c].joined ensures e in m.roles && m.roles[e] == OfWaiter(c) {
      assert CondOk(m.roles, m.k.semas, c, m.conds[c]);
      assert WaiterOk(m.roles, m.k.semas, c, m.conds[c], e);
    }
  }

  /** A kernel step on semaphore `s` changes no other semaphore of a role. */
  lemma {:induction false} StepChanges(m: Mon, st: Step, s: Sid, m': Mon)
    requires Enabled(m.k, st) && m'.k == Apply(m.k, st) && (forall r | r in m.roles && r != s :: !Touches(st, r))
    requires forall r | r in m.roles && r != s :: r in m'.roles && m'.roles[r] == m.roles[r]
    ensures OnlyChanges(m, m', s)
  {
    hide Guard, Apply;
    OthersUntouched(m.k, st);
  }

  /** The owners stay the only ones that wait on waiters' semaphores. */
  lemma {:induction false} OwnersKept(m: Mon, st: Step, m': Mon)
    requires Enabled(m.k, st) && OwnersOnly(m) && m'.k == Apply(m.k, st) && WaitersExact(m.k)
    requires forall c | c in m.conds :: c in m'.conds && m'.conds[c].owner.Keys >= m.conds[c].owner.Keys
    requires forall c, e | c in m.conds && e in m.conds[c].owner && e in m.conds[c].joined ::
             m'.conds[c].owner[e] == m.conds[c].owner[e]
    requires forall c, e | c in m'.conds && e in m'.conds[c].joined && e in m.k.semas ::
             c in m.conds && e in m.conds[c].joined
    requires st.Down? ==>
             forall c | c in m'.conds && st.s in m'.conds[c].joined ::
               st.s in m'.conds[c].owner && m'.conds[c].owner[st.s] == m.k.cur
    ensures OwnersOnly(m')
  {
    hide Guard, Apply, Scheduler.NoDup;
    forall t, c | t in m'.k.threads && m'.k.threads[t].pc.Waiting? && c in m'.conds &&
                  m'.k.threads[t].pc.sema in m'.conds[c].joined
      ensures m'.k.threads[t].pc.sema in m'.conds[c].owner && m'.conds[c].owner[m'.k.threads[t].pc.sema] == t
    {
      NewWaiters(m.k, st, t);
    }
  }

  lemma {:induction false} RecordDefined(m: Mon, a: Action)
    requires MonInv(m) && Permitted(m, a)
    ensures a.LockDown? || a.LockTry? ==> m.locks[a.l].sema in m.k.semas
    ensures a.CondDown? ==> a.e in m.k.semas
  {
    hide Inv, OwnersOnly;
    if a.LockDown? || a.LockTry? { assert LockOk(m.roles, m.k.semas, a.l, m.locks[a.l]); }
    if a.CondDown? { assert WaiterOk(m.roles, m.k.semas, a.c, m.conds[a.c], a.e); }
  }

  /** Every action keeps the invariant. */
  lemma {:induction false} ActKeeps(m: Mon, a: Action)
    requires CanAct(m, a)
    ensures MonInv(Act(m, a))
  {
    hide Guard, Apply, Inv, LocksExact, CondsExact, OwnersOnly, Record;
    if KernelStep(m, a).Some? { StepKeeps(m.k, KernelStep(m, a).value); }
    match a
    case Other(st) => OtherKeeps(m, st);
    case LockInit(l, s) => LockInitKeeps(m, l, s);
    case LockDown(l) => LockDownKeeps(m, l, a);
    case LockTry(l) => LockDownKeeps(m, l, a);
    case SetHolder(l) => HolderKeeps(m, l, a);
    case ClearHolder(l) => HolderKeeps(m, l, a);
    case LockUp(l) => LockUpKeeps(m, l);
    case CondInit(c, l) => CondInitKeeps(m, c, l);
    case CondJoin(c, e) => CondJoinKeeps(m, c, e);
    case CondDown(c, e) => CondDownKeeps(m, c, e);
    case CondSignal(c) => CondSignalKeeps(m, c);
  }

  lemma {:induction false} NobodyNew(m: Mon)
    requires MonInv(m)
    ensures WaitersExact(m.k) && OwnersOnly(m) && LocksExact(m) && CondsExact(m)
  {
  }

  lemma {:induction false} OtherKeeps(m: Mon, st: Step)
    requires CanAct(m, Other(st))
    ensures var m' := Act(m, Other(st)); LocksExact(m') && CondsExact(m') && OwnersOnly(m')
  {
    hide Guard, Apply, Inv, WaitersExact, LocksExact, CondsExact, OwnersOnly, LockOk, CondOk;
    NobodyNew(m);
    var m' := Act(m, Other(st));
    AllKept(m, st, m');
    if st.Down? { RoleUnique(m, st.s); }
    OwnersKept(m, st, m');
  }

  /** A step that touches no role's semaphore leaves all locks and condition variables as they are. */
  lemma {:induction false} AllKept(m: Mon, st: Step, m': Mon)
    requires Enabled(m.k, st) && LocksExact(m) && CondsExact(m) && m'.k == Apply(m.k, st)
    requires forall s | s in m.roles :: !Touches(st, s)
    requires m'.locks == m.locks && m'.conds == m.conds && m'.roles == m.roles
    ensures LocksExact(m') && CondsExact(m')
  {
    hide Guard, Apply, LockOk, CondOk;
    OthersUntouched(m.k, st);
    forall l | l in m.locks ensures LockOk(m'.roles, m'.k.semas, l, m.locks[l]) { LockSame(m, m', l); }
    forall c | c in m.conds ensures CondOk(m'.roles, m'.k.semas, c, m.conds[c]) { CondSame(m, m', c); }
  }

  lemma {:induction false} LockSame(m: Mon, m': Mon, l: Lid)
    requires l in m.locks && LockOk(m.roles, m.k.semas, l, m.locks[l]) && m'.roles == m.roles
    requires forall s | s in m.k.semas && s in m.roles :: s in m'.k.semas && m'.k.semas[s].value == m.k.semas[s].value
    ensures LockOk(m'.roles, m'.k.semas, l, m.locks[l])
  {
  }

  lemma {:induction false} CondSame(m: Mon, m': Mon, c: Cid)
    requires c in m.conds && CondOk(m.roles, m.k.semas, c, m.conds[c]) && m'.roles == m.roles
    requires forall s | s in m.k.semas && s in m.roles :: s in m'.k.semas && m'.k.semas[s].value == m.k.semas[s].value
    ensures CondOk(m'.roles, m'.k.semas, c, m.conds[c])
  {
    hide Distinct;
    forall e | e in m.conds[c].joined ensures WaiterOk(m'.roles, m'.k.semas, c, m.conds[c], e) {
      assert WaiterOk(m.roles, m.k.semas, c, m.conds[c], e);
    }
  }

  // ----- locks -----

  /** All locks but one, and all condition variables, are as they were. */
  lemma {:induction false} RestKept(m: Mon, m': Mon, s: Sid, l: Lid)
    requires LocksExact(m) && CondsExact(m) && OnlyChanges(m, m', s) && m'.conds == m.conds
    requires forall l' | l' in m'.locks && l' != l :: l' in m.locks && m'.locks[l'] == m.locks[l']
    requires s in m.roles ==> m.roles[s] == OfLock(l)
    requires l in m'.locks && LockOk(m'.roles, m'.k.semas, l, m'.locks[l])
    ensures LocksExact(m') && CondsExact(m')
  {
    hide LockOk, CondOk;
    RoleUnique(m, s);
    forall l' | l' in m'.locks && l' != l
      ensures LockOk(m'.roles, m'.k.semas, l', m'.locks[l'])
    {
      LocksKept(m, m', s, l');
    }
    forall c | c in m'.conds ensures CondOk(m'.roles, m'.k.semas, c, m'.conds[c]) { CondsKept(m, m', s, c); }
  }

  lemma {:induction false} LockInitKeeps(m: Mon, l: Lid, s: Sid)
    requires CanAct(m, LockInit(l, s))
    ensures var m' := Act(m, LockInit(l, s)); LocksExact(m') && CondsExact(m') && OwnersOnly(m')
  {
    hide Guard, Apply, Inv, WaitersExact, LocksExact, CondsExact, OwnersOnly, CondOk;
    NobodyNew(m);
    var m' := Act(m, LockInit(l, s));
    StepChanges(m, SemaInit(s, 1), s, m');
    SemaSet(m.k, s, 1);
    RestKept(m, m', s, l);
    RoleUnique(m, s);
    OwnersKept(m, SemaInit(s, 1), m');
  }

  lemma {:induction false} SemaSet(k: Kernel, s: Sid, v: nat)
    requires Enabled(k, SemaInit(s, v))
    ensures s in Apply(k, SemaInit(s, v)).semas && Apply(k, SemaInit(s, v)).semas[s].value == v
  {
    hide Inv;
  }

  lemma {:induction false} LockDownKeeps(m: Mon, l: Lid, a: Action)
    requires CanAct(m, a) && (a == LockDown(l) || a == LockTry(l))
    ensures var m' := Act(m, a); LocksExact(m') && CondsExact(m') && OwnersOnly(m')
  {
    hide Guard, Apply, Inv, WaitersExact, LocksExact, CondsExact, OwnersOnly, CondOk, LockOk;
    NobodyNew(m);
    RecordDefined(m, a);
    TheLock(m, l);
    LockSema(m, l);
    var m', lock, st := Act(m, a), m.locks[l], KernelStep(m, a).value;
    StepChanges(m, st, lock.sema, m');
    Runs.SemaStep(m.k, st, lock.sema);
    MayEnter(m.roles, m.k.semas, m'.k.semas, l, lock, m.k.cur);
    RestKept(m, m', lock.sema, l);
    RoleUnique(m, lock.sema);
    OwnersKept(m, st, m');
  }

  lemma {:induction false} LockSema(m: Mon, l: Lid)
    requires l in m.locks && LockOk(m.roles, m.k.semas, l, m.locks[l])
    ensures m.locks[l].sema in m.roles && m.roles[m.locks[l].sema] == OfLock(l) && m.locks[l].sema in m.k.semas
  {
  }

  /** Taking the semaphore of a lock puts exactly one thread inside. */
  lemma {:induction false} MayEnter(roles: map<Sid, Role>, semas: map<Sid, Sema>, semas': map<Sid, Sema>, l: Lid,
                                    lock: Lock, t: Tid)
    requires LockOk(roles, semas, l, lock) && t !in lock.inside && lock.sema in semas'
    requires semas'[lock.sema].value == if semas[lock.sema].value > 0 then semas[lock.sema].value - 1 else 0
    ensures LockOk(roles, semas', l,
                   if semas[lock.sema].value > 0 then lock.(inside := lock.inside[t := Entering]) else lock)
  {
    assert lock.inside[t := Entering].Keys == lock.inside.Keys + {t};
    assert |lock.inside[t := Entering]| == |lock.inside| + 1;
  }

  lemma {:induction false} TheLock(m: Mon, l: Lid)
    requires LocksExact(m) && l in m.locks
    ensures LockOk(m.roles, m.k.semas, l, m.locks[l])
  {
  }

  /** The assignments of the holder. */
  lemma {:induction false} HolderKeeps(m: Mon, l: Lid, a: Action)
    requires CanAct(m, a) && (a == SetHolder(l) || a == ClearHolder(l))
    ensures var m' := Act(m, a); LocksExact(m') && CondsExact(m') && OwnersOnly(m')
  {
    hide Guard, Apply, Inv, WaitersExact, CondOk, LockOk;
    var lock, cur := m.locks[l], m.k.cur;
    TheLock(m, l);
    HolderOk(m.roles, m.k.semas, l, lock, cur, if a.SetHolder? then Some(cur) else None,
             if a.SetHolder? then Holding else Leaving);
  }

  /** Setting or clearing the holder, with the thread's phase. */
  lemma {:induction false} HolderOk(roles: map<Sid, Role>, semas: map<Sid, Sema>, l: Lid, lock: Lock, t: Tid,
                                    holder: Option<Tid>, phase: Phase)
    requires LockOk(roles, semas, l, lock) && (holder == (if phase.Holding? then Some(t) else None))
    requires t in lock.inside || lock.holder == Some(t)
    ensures LockOk(roles, semas, l, lock.(holder := holder, inside := lock.inside[t := phase]))
  {
    assert t in lock.inside;
    forall u | u in lock.inside ensures u == t { AtMostOne(lock.inside.Keys, t, u); }
    assert lock.inside[t := phase].Keys == lock.inside.Keys;
    assert |lock.inside[t := phase]| == |lock.inside|;
  }

  lemma {:induction false} LockUpKeeps(m: Mon, l: Lid)
    requires CanAct(m, LockUp(l))
    ensures var m' := Act(m, LockUp(l)); LocksExact(m') && CondsExact(m') && OwnersOnly(m')
  {
    hide Guard, Apply, Inv, WaitersExact, LocksExact, CondsExact, OwnersOnly, CondOk;
    NobodyNew(m);
    TheLock(m, l);
    var m', lock, st := Act(m, LockUp(l)), m.locks[l], Up(m.locks[l].sema);
    StepChanges(m, st, lock.sema, m');
    Runs.SemaStep(m.k, st, lock.sema);
    RestKept(m, m', lock.sema, l);
    OwnersKept(m, st, m');
  }

  // ----- condition variables -----

  /** All condition variables but one, and all locks, are as they were. */
  lemma {:induction false} RestKeptBy(m: Mon, m': Mon, s: Sid, c: Cid)
    requires LocksExact(m) && CondsExact(m) && OnlyChanges(m, m', s) && m'.locks == m.locks
    requires forall c' | c' in m'.conds && c' != c :: c' in m.conds && m'.conds[c'] == m.conds[c']
    requires s in m.roles ==> m.roles[s] == OfWaiter(c)
    requires c in m'.conds && CondOk(m'.roles, m'.k.semas, c, m'.conds[c])
    ensures LocksExact(m') && CondsExact(m')
  {
    hide LockOk, CondOk;
    RoleUnique(m, s);
    forall l | l in m'.locks ensures LockOk(m'.roles, m'.k.semas, l, m'.locks[l]) { LocksKept(m, m', s, l); }
    forall c' | c' in m'.conds && c' != c
      ensures CondOk(m'.roles, m'.k.semas, c', m'.conds[c'])
    {
      CondsKept(m, m', s, c');
    }
  }

  lemma {:induction false} TheCond(m: Mon, c: Cid)
    requires CondsExact(m) && c in m.conds
    ensures CondOk(m.roles, m.k.semas, c, m.conds[c])
  {
  }

  lemma {:induction false} CondInitKeeps(m: Mon, c: Cid, l: Lid)
    requires CanAct(m, CondInit(c, l))
    ensures var m' := Act(m, CondInit(c, l)); LocksExact(m') && CondsExact(m') && OwnersOnly(m')
  {
    hide Inv, LockOk;
    var m' := Act(m, CondInit(c, l));
    assert CondOk(m'.roles, m'.k.semas, c, m'.conds[c]);
  }

  lemma {:induction false} CondJoinKeeps(m: Mon, c: Cid, e: Sid)
    requires CanAct(m, CondJoin(c, e))
    ensures var m' := Act(m, CondJoin(c, e)); LocksExact(m') && CondsExact(m') && OwnersOnly(m')
  {
    hide Guard, Apply, Inv, WaitersExact, LocksExact, CondsExact, OwnersOnly, LockOk, CondOk;
    NobodyNew(m);
    var m' := Act(m, CondJoin(c, e));
    StepChanges(m, SemaInit(e, 0), e, m');
    SemaSet(m.k, e, 0);
    RoleUnique(m, e);
    TheCond(m, c);
    Joined(m, m', c, e);
    RestKeptBy(m, m', e, c);
    JoinOwners(m, c, e);
  }

  lemma {:induction false} Joined(m: Mon, m': Mon, c: Cid, e: Sid)
    requires c in m.conds && CondOk(m.roles, m.k.semas, c, m.conds[c]) && OnlyChanges(m, m', e)
    requires e !in m.conds[c].joined
    requires e in m'.roles && m'.roles[e] == OfWaiter(c) && e in m'.k.semas && m'.k.semas[e].value == 0
    requires c in m'.conds
    requires var cond := m.conds[c];
      m'.conds[c] ==
      cond.(waiters := cond.waiters + [e], joined := cond.joined + [e], owner := cond.owner[e := m.k.cur])
    ensures CondOk(m'.roles, m'.k.semas, c, m'.conds[c])
  {
    var cond, cond' := m.conds[c], m'.conds[c];
    assert cond'.joined == cond'.signalled + cond'.waiters;
    forall x | x in cond'.joined ensures WaiterOk(m'.roles, m'.k.semas, c, cond', x) {
      if x != e {
        assert x in cond.joined;
        assert WaiterOk(m.roles, m.k.semas, c, cond, x);
      } else {
        assert e !in cond.passed && e !in cond.signalled;
      }
    }
  }

  /** Nobody waits on a semaphore that was not in use before. */
  lemma {:induction false} JoinOwners(m: Mon, c: Cid, e: Sid)
    requires CanAct(m, CondJoin(c, e))
    ensures OwnersOnly(Act(m, CondJoin(c, e)))
  {
    hide Apply, LockOk, CondOk, Scheduler.NoDup, ListsExact, SleepExact, OneRunning, NoLostWakeup;
    var m' := Act(m, CondJoin(c, e));
    forall t, c' | t in m'.k.threads && m'.k.threads[t].pc.Waiting? && c' in m'.conds &&
                  m'.k.threads[t].pc.sema in m'.conds[c'].joined
      ensures m'.k.threads[t].pc.sema in m'.conds[c'].owner && m'.conds[c'].owner[m'.k.threads[t].pc.sema] == t
    {
      NewWaiters(m.k, SemaInit(e, 0), t);
    }
  }

  lemma {:induction false} CondDownKeeps(m: Mon, c: Cid, e: Sid)
    requires CanAct(m, CondDown(c, e))
    ensures var m' := Act(m, CondDown(c, e)); LocksExact(m') && CondsExact(m') && OwnersOnly(m')
  {
    hide Guard, Apply, Inv, WaitersExact, LocksExact, CondsExact, OwnersOnly, LockOk;
    NobodyNew(m);
    RecordDefined(m, CondDown(c, e));
    TheCond(m, c);
    var m', cond := Act(m, CondDown(c, e)), m.conds[c];
    assert WaiterOk(m.roles, m.k.semas, c, cond, e);
    StepChanges(m, Down(e), e, m');
    Runs.SemaStep(m.k, Down(e), e);
    Passed(m, m', c, e);
    RestKeptBy(m, m', e, c);
    RoleUnique(m, e);
    OwnersKept(m, Down(e), m');
  }

  lemma {:induction false} Passed(m: Mon, m': Mon, c: Cid, e: Sid)
    requires c in m.conds && CondOk(m.roles, m.k.semas, c, m.conds[c]) && OnlyChanges(m, m', e)
    requires e in m.conds[c].joined && e !in m.conds[c].passed
    requires e in m'.roles && m'.roles[e] == OfWaiter(c) && e in m'.k.semas && e in m.k.semas
    requires m'.k.semas[e].value == if m.k.semas[e].value > 0 then m.k.semas[e].value - 1 else 0
    requires c in m'.conds
    requires m'.conds[c] ==
             if m.k.semas[e].value > 0 then m.conds[c].(passed := m.conds[c].passed + {e}) else m.conds[c]
    ensures CondOk(m'.roles, m'.k.semas, c, m'.conds[c])
  {
    hide Distinct;
    var cond, cond' := m.conds[c], m'.conds[c];
    forall x | x in cond'.joined ensures WaiterOk(m'.roles, m'.k.semas, c, cond', x) {
      assert WaiterOk(m.roles, m.k.semas, c, cond, x);
    }
  }

  lemma {:induction false} CondSignalKeeps(m: Mon, c: Cid)
    requires CanAct(m, CondSignal(c))
    ensures var m' := Act(m, CondSignal(c)); LocksExact(m') && CondsExact(m') && OwnersOnly(m')
  {
    hide Guard, Apply, Inv, WaitersExact, LocksExact, CondsExact, OwnersOnly, LockOk, CondOk;
    NobodyNew(m);
    TheCond(m, c);
    var m', cond := Act(m, CondSignal(c)), m.conds[c];
    if cond.waiters == [] {
      assert m' == m;
    } else {
      var e := cond.waiters[0];
      FirstToSignal(m, c);
      StepChanges(m, Up(e), e, m');
      Runs.SemaStep(m.k, Up(e), e);
      Signalled(m, m', c, e);
      RestKeptBy(m, m', e, c);
      OwnersKept(m, Up(e), m');
    }
  }

  lemma {:induction false} FirstToSignal(m: Mon, c: Cid)
    requires c in m.conds && CondOk(m.roles, m.k.semas, c, m.conds[c]) && m.conds[c].waiters != []
    ensures var cond := m.conds[c]; var e := cond.waiters[0];
      && e in cond.joined && e !in cond.signalled && WaiterOk(m.roles, m.k.semas, c, cond, e)
      && cond.joined == (cond.signalled + [e]) + cond.waiters[1..]
  {
    var cond := m.conds[c];
    var e := cond.waiters[0];
    assert cond.joined[|cond.signalled|] == e;
    forall i | 0 <= i < |cond.signalled| ensures cond.signalled[i] != e { assert cond.joined[i] == cond.signalled[i]; }
    assert WaiterOk(m.roles, m.k.semas, c, cond, e);
  }

  lemma {:induction false} Signalled(m: Mon, m': Mon, c: Cid, e: Sid)
    requires c in m.conds && CondOk(m.roles, m.k.semas, c, m.conds[c]) && OnlyChanges(m, m', e)
    requires m.conds[c].waiters != [] && e == m.conds[c].waiters[0] && e !in m.conds[c].signalled && e in m.k.semas
    requires m.conds[c].joined == (m.conds[c].signalled + [e]) + m.conds[c].waiters[1..]
    requires e in m'.roles && m'.roles[e] == OfWaiter(c) && e in m'.k.semas
    requires m'.k.semas[e].value == m.k.semas[e].value + 1
    requires var cond := m.conds[c];
             c in m'.conds && m'.conds[c] == cond.(waiters := cond.waiters[1..], signalled := cond.signalled + [e])
    ensures CondOk(m'.roles, m'.k.semas, c, m'.conds[c])
  {
    hide Distinct;
    var cond, cond' := m.conds[c], m'.conds[c];
    forall x | x in cond'.joined ensures WaiterOk(m'.roles, m'.k.semas, c, cond', x) {
      assert WaiterOk(m.roles, m.k.semas, c, cond, x);
    }
  }

  // ----- what the calls come to -----

  /** A thread that looks at a semaphore goes on with one unit less, or is left blocked as its last waiter. */
  ghost predicate Passes(k: Kernel, k': Kernel, s: Sid) {
    k'.cur == k.cur && s in k.semas && s in k'.semas && k'.semas[s].value == k.semas[s].value - 1
  }

  ghost predicate Blocks(k: Kernel, k': Kernel, s: Sid) {
    && k'.cur != k.cur && k.cur in k'.threads && k'.threads[k.cur] == Thread(Blocked, Waiting(s), 0)
    && s in k.semas && s in k'.semas && k'.semas[s] == Sema(0, k.semas[s].waiters + [k.cur])
  }

  lemma {:induction false} DownOutcome(k: Kernel, s: Sid)
    requires Enabled(k, Down(s))
    ensures if k.semas[s].value > 0 then Passes(k, Apply(k, Down(s)), s) else Blocks(k, Apply(k, Down(s)), s)
  {
    hide Scheduler.NoDup, Holds, Switch;
    if k.semas[s].value == 0 {
      WaitKeeps(k, s);
      Runs.SwitchPasses(Enqueued(k, s), k.cur);
      SwitchLeaves(Enqueued(k, s));
    }
  }

  lemma {:induction false} SwitchLeaves(k: Kernel)
    requires Holds(k, false) && CanSwitch(k) && k.cur in k.threads && k.threads[k.cur].status.Blocked?
    requires k.idle != Some(k.cur)
    ensures Switch(k).cur != k.cur && Switch(k).semas == k.semas
  {
    hide Scheduler.NoDup, WaitersExact, NoLostWakeup;
    NextExists(k);
  }

  /** `lock_acquire`: the thread is inside at once exactly if nobody was; otherwise it is left blocked, last
      in line for the lock. */
  lemma {:induction false} AcquireOutcome(m: Mon, l: Lid)
    requires CanAct(m, LockDown(l))
    ensures var m', lock := Act(m, LockDown(l)), m.locks[l];
      if lock.inside == map[]
      then Passes(m.k, m'.k, lock.sema) && m'.locks == m.locks[l := lock.(inside := map[m.k.cur := Entering])]
      else Blocks(m.k, m'.k, lock.sema) && m'.locks == m.locks
  {
    hide Holds, Apply, Guard, Passes, Blocks;
    LockFree(m, l);
    DownOutcome(m.k, m.locks[l].sema);
  }

  /** `lock_try_acquire`: the same, but the thread never blocks. */
  lemma {:induction false} TryOutcome(m: Mon, l: Lid)
    requires CanAct(m, LockTry(l))
    ensures var m', lock := Act(m, LockTry(l)), m.locks[l];
      && m'.k.cur == m.k.cur
      && m'.locks == if lock.inside == map[] then m.locks[l := lock.(inside := map[m.k.cur := Entering])] else m.locks
  {
    hide Holds, MonInv;
    LockFree(m, l);
  }

  lemma {:induction false} LockFree(m: Mon, l: Lid)
    requires MonInv(m) && l in m.locks
    ensures m.locks[l].sema in m.k.semas && (m.k.semas[m.locks[l].sema].value > 0 <==> m.locks[l].inside == map[])
  {
    hide Inv, CondsExact, OwnersOnly;
    assert LockOk(m.roles, m.k.semas, l, m.locks[l]);
  }

  /** `cond_wait` up to the release of the lock: the thread is the last waiter, with a semaphore of its own on
      which it alone may wait, once. */
  lemma {:induction false} WaitOutcome(m: Mon, c: Cid, e: Sid)
    requires CanAct(m, CondJoin(c, e))
    ensures var m' := Act(m, CondJoin(c, e));
      && m'.k.cur == m.k.cur && m'.k.semas == m.k.semas[e := Sema(0, [])] && m'.locks == m.locks
      && m'.conds[c].waiters == m.conds[c].waiters + [e] && e !in m.conds[c].joined
      && forall t: Tid :: Permitted(m'.(k := m'.k.(cur := t)), CondDown(c, e)) <==> t == m.k.cur
  {
    hide Holds, Apply, Guard, Permitted;
    Joining(m, c, e);
    NotJoined(m, c, e);
    OwnerOnly(Act(m, CondJoin(c, e)), c, e);
  }

  lemma {:induction false} Joining(m: Mon, c: Cid, e: Sid)
    requires Allowed(m, CondJoin(c, e))
    ensures c in m.conds && e !in m.roles && Guard(m.k, SemaInit(e, 0))
    ensures var k, k' := m.k, Apply(m.k, SemaInit(e, 0)); k'.cur == k.cur && k'.semas == k.semas[e := Sema(0, [])]
  {
  }

  lemma {:induction false} OwnerOnly(m: Mon, c: Cid, e: Sid)
    requires c in m.conds && e in m.conds[c].owner && e in m.conds[c].joined && e !in m.conds[c].passed
    ensures forall t: Tid :: Permitted(m.(k := m.k.(cur := t)), CondDown(c, e)) <==> t == m.conds[c].owner[e]
  {
  }

  lemma {:induction false} NotJoined(m: Mon, c: Cid, e: Sid)
    requires CondsExact(m) && c in m.conds && e !in m.roles
    ensures e !in m.conds[c].joined && e !in m.conds[c].passed
  {
    var cond := m.conds[c];
    assert CondOk(m.roles, m.k.semas, c, cond);
    assert forall x | x in cond.joined :: WaiterOk(m.roles, m.k.semas, c, cond, x);
  }

  /** The wait itself: a waiter goes on at once exactly if it has been signalled, and is blocked otherwise. */
  lemma {:induction false} WaiterOutcome(m: Mon, c: Cid, e: Sid)
    requires CanAct(m, CondDown(c, e))
    ensures var m' := Act(m, CondDown(c, e));
      if e in m.conds[c].signalled then Passes(m.k, m'.k, e) && m'.conds[c].passed == m.conds[c].passed + {e}
      else Blocks(m.k, m'.k, e) && m'.conds == m.conds
  {
    hide Holds, Apply, Guard, Passes, Blocks, Distinct;
    var cond := m.conds[c];
    assert CondOk(m.roles, m.k.semas, c, cond) && WaiterOk(m.roles, m.k.semas, c, cond, e);
    DownOutcome(m.k, e);
  }

  /** A condition variable starts without waiters and belongs to its lock for good. */
  lemma {:induction false} CondLock(m: Mon, a: Action, c: Cid)
    requires Allowed(m, a)
    ensures c in m.conds ==> c in Act(m, a).conds && Act(m, a).conds[c].lock == m.conds[c].lock
    ensures a.CondInit? && a.c == c ==> c in Act(m, a).conds && Act(m, a).conds[c] == Cond(a.l, [], [], [], map[], {})
  {
    hide Apply, Guard;
  }

  // ----- runs -----

  ghost predicate Possible(m: Mon, actions: seq<Action>)
    decreases |actions|
  {
    actions == [] || (Allowed(m, actions[0]) && Possible(Act(m, actions[0]), actions[1..]))
  }

  ghost function After(m: Mon, actions: seq<Action>): (m': Mon)
    requires Possible(m, actions)
    decreases |actions|
  {
    if actions == [] then m else After(Act(m, actions[0]), actions[1..])
  }

  /** Over every run of every number of threads, locks exclude and signals are neither lost, made up
      nor reordered. */
  lemma {:induction false} MonitorSafety(m: Mon, actions: seq<Action>)
    requires MonInv(m) && Possible(m, actions)
    ensures MonInv(After(m, actions))
    decreases |actions|
  {
    hide MonInv, Act, Allowed;
    if actions != [] {
      ActKeeps(m, actions[0]);
      MonitorSafety(Act(m, actions[0]), actions[1..]);
    }
  }

  /** The laws hold over every run from the state after `thread_init`, when there are no locks yet. */
  lemma {:induction false} MonitorFromBoot(main: Tid, actions: seq<Action>)
    requires Possible(Mon(Runs.Boot(main), map[], map[], map[]), actions)
    ensures MonInv(After(Mon(Runs.Boot(main), map[], map[], map[]), actions))
  {
    hide Possible, After, Inv;
    Runs.BootHolds(main);
    MonitorSafety(Mon(Runs.Boot(main), map[], map[], map[]), actions);
  }

  /** Once signalled, a waiter stays signalled, and its turn among the waiters never changes. */
  lemma {:induction false} SignalsStay(m: Mon, actions: seq<Action>, c: Cid)
    requires Possible(m, actions) && c in m.conds
    ensures c in After(m, actions).conds
    ensures m.conds[c].signalled <= After(m, actions).conds[c].signalled
    ensures m.conds[c].joined <= After(m, actions).conds[c].joined
    decreases |actions|
  {
    hide MonInv, Act, Allowed;
    if actions != [] {
      SignalsGrow(m, actions[0], c);
      SignalsStay(Act(m, actions[0]), actions[1..], c);
    }
  }

  lemma {:induction false} SignalsGrow(m: Mon, a: Action, c: Cid)
    requires Allowed(m, a) && c in m.conds
    ensures c in Act(m, a).conds
    ensures m.conds[c].signalled <= Act(m, a).conds[c].signalled && m.conds[c].joined <= Act(m, a).conds[c].joined
  {
    hide MonInv, Apply;
  }

  // ----- broadcasting -----

  predicate HeldBy(m: Mon, c: Cid, t: Tid) {
    c in m.conds && m.conds[c].lock in m.locks && m.locks[m.conds[c].lock].holder == Some(t)
  }

  /** Thread `t` is in the loop of `cond_broadcast`: what it does itself is signal, or be interrupted; all
      other threads do what they like. */
  ghost predicate Broadcasting(m: Mon, actions: seq<Action>, c: Cid, t: Tid)
    requires Possible(m, actions)
    decreases |actions|
  {
    actions != [] ==>
      && (m.k.cur == t ==> actions[0] == CondSignal(c) || actions[0] == Other(Tick))
      && Broadcasting(Act(m, actions[0]), actions[1..], c, t)
  }

  function Signals(actions: seq<Action>, c: Cid): (n: nat)
    decreases |actions|
  {
    if actions == [] then 0 else Signals(actions[1..], c) + if actions[0] == CondSignal(c) then 1 else 0
  }

  function Take(w: seq<Sid>, n: nat): seq<Sid> { if n <= |w| then w[..n] else w }
  function Drop(w: seq<Sid>, n: nat): seq<Sid> { if n <= |w| then w[n..] else [] }

  /** From `m` to `m'` the first `n` waiters were signalled and nothing else happened to the condition
      variable, while `t` held the lock. */
  ghost predicate Progressed(m: Mon, m': Mon, c: Cid, t: Tid, n: nat) {
    && HeldBy(m, c, t) && HeldBy(m', c, t) && m'.conds[c].joined == m.conds[c].joined
    && m'.conds[c].waiters == Drop(m.conds[c].waiters, n)
    && m'.conds[c].signalled == m.conds[c].signalled + Take(m.conds[c].waiters, n)
  }

  /** `cond_broadcast`, with any actions of other threads in between: nobody joins meanwhile, nobody else
      signals, and each signal goes to the next waiter. */
  lemma {:induction false} BroadcastRun(m: Mon, actions: seq<Action>, c: Cid, t: Tid)
    requires MonInv(m) && Possible(m, actions) && HeldBy(m, c, t) && Broadcasting(m, actions, c, t)
    ensures Progressed(m, After(m, actions), c, t, Signals(actions, c))
    decreases |actions|
  {
    hide MonInv, Act, Allowed, HeldBy, Progressed;
    if actions == [] {
      NoProgress(m, c, t);
    } else {
      var m1 := Act(m, actions[0]);
      ActKeeps(m, actions[0]);
      BroadcastStep(m, actions[0], c, t);
      BroadcastRun(m1, actions[1..], c, t);
      ProgressTrans(m, m1, After(m1, actions[1..]), c, t, if actions[0] == CondSignal(c) then 1 else 0,
                    Signals(actions[1..], c));
    }
  }

  lemma {:induction false} NoProgress(m: Mon, c: Cid, t: Tid)
    requires HeldBy(m, c, t)
    ensures Progressed(m, m, c, t, 0)
  {
  }

  lemma {:induction false} ProgressTrans(m: Mon, m1: Mon, m2: Mon, c: Cid, t: Tid, i: nat, j: nat)
    requires Progressed(m, m1, c, t, i) && Progressed(m1, m2, c, t, j)
    ensures Progressed(m, m2, c, t, i + j)
  {
    InLine(m.conds[c].waiters, i, j);
  }

  lemma {:induction false} InLine(w: seq<Sid>, i: nat, j: nat)
    ensures Drop(Drop(w, i), j) == Drop(w, i + j) && Take(w, i) + Take(Drop(w, i), j) == Take(w, i + j)
  {
  }

  lemma {:induction false} BroadcastStep(m: Mon, a: Action, c: Cid, t: Tid)
    requires MonInv(m) && Allowed(m, a) && HeldBy(m, c, t)
    requires m.k.cur == t ==> a == CondSignal(c) || a == Other(Tick)
    ensures HeldBy(Act(m, a), c, t) && Progressed(m, Act(m, a), c, t, if a == CondSignal(c) then 1 else 0)
  {
    hide Inv, Apply, Guard, CondsExact, OwnersOnly, LockOk, MonInv;
    RecordDefined(m, a);
    LockStays(m, a, c, t);
  }

  /** Nobody else can take the lock or its holder away. */
  lemma {:induction false} LockStays(m: Mon, a: Action, c: Cid, t: Tid)
    requires MonInv(m) && Allowed(m, a) && HeldBy(m, c, t)
    requires m.k.cur == t ==> a == CondSignal(c) || a == Other(Tick)
    ensures var l := m.conds[c].lock; l in Act(m, a).locks && Act(m, a).locks[l].holder == Some(t)
  {
    hide Inv, CondsExact, OwnersOnly, Act, KernelStep, Record;
    var l := m.conds[c].lock;
    assert LockOk(m.roles, m.k.semas, l, m.locks[l]);
    if a == SetHolder(l) {
      MutualExclusion(m, l, t, m.k.cur);
      assert false;
    }
    HolderStays(m, a, l);
  }

  lemma {:induction false} HolderStays(m: Mon, a: Action, l: Lid)
    requires Allowed(m, a) && l in m.locks && a != SetHolder(l) && a != ClearHolder(l)
    ensures l in Act(m, a).locks && Act(m, a).locks[l].holder == m.locks[l].holder
  {
    hide Apply, Guard;
  }

  /** A broadcast empties the list exactly when it has signalled as often as there were waiters, and then
      they were released in the order in which they joined. */
  lemma {:induction false} BroadcastEmpties(m: Mon, actions: seq<Action>, c: Cid, t: Tid)
    requires MonInv(m) && Possible(m, actions) && HeldBy(m, c, t) && Broadcasting(m, actions, c, t)
    ensures c in After(m, actions).conds
    ensures After(m, actions).conds[c].waiters == [] <==> Signals(actions, c) >= |m.conds[c].waiters|
    ensures After(m, actions).conds[c].waiters == [] ==>
            After(m, actions).conds[c].signalled == m.conds[c].signalled + m.conds[c].waiters
  {
    hide MonInv, Possible, After, Broadcasting;
    BroadcastRun(m, actions, c, t);
  }
}
