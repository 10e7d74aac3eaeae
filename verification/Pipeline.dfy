/** How the shell wires a pipeline (code/lsh.c): descriptor tables changed by
    pipe, fork, dup2, open and close.  No system call fails. */
module Pipeline {
  import opened Common

  /** What an open file descriptor refers to.  Pipes are numbered in order of creation. */
  datatype Desc =
    | PipeRead(k: nat)
    | PipeWrite(k: nat)
    | File(name: string)
    | Inherited(id: nat)

  predicate IsPipe(d: Desc) { d.PipeRead? || d.PipeWrite? }

  type Table = map<int, Desc>

  const STDIN: int := 0
  const STDOUT: int := 1

  // ----- the lowest free descriptor -----

  lemma {:induction false} FewerAbove(t: Table, n: int)
    requires n in t
    ensures |set k | k in t && k >= n + 1| < |set k | k in t && k >= n|
  {
    var a, b := set k | k in t && k >= n + 1, set k | k in t && k >= n;
    assert b == a + {n};
  }

  /** The lowest descriptor from `n` on that is not open. */
  function FreeFrom(t: Table, n: int): (fd: int)
    ensures fd !in t && n <= fd
    ensures forall k | n <= k < fd :: k in t
    decreases |set k | k in t && k >= n|
  {
    if n !in t then n else
      FewerAbove(t, n);
      FreeFrom(t, n + 1)
  }

  // ----- what the steps do to one table -----

  /** `pipe`: the read end takes the lowest free descriptor, the write end the next. */
  function PipeEnds(t: Table): (ends: (int, int))
    ensures ends.0 !in t && ends.1 !in t && 0 <= ends.0 < ends.1
  {
    var r := FreeFrom(t, 0);
    (r, FreeFrom(t, r + 1))
  }

  function AfterPipe(t: Table, k: nat): (u: Table) {
    var (r, w) := PipeEnds(t);
    t[r := PipeRead(k)][w := PipeWrite(k)]
  }

  class World {
    var procs: seq<Table>
    var pipes: nat  // pipes created so far

    constructor (shell: Table, child: Table)
      ensures procs == [shell, child] && pipes == 0
    {
      procs, pipes := [shell, child], 0;
    }

    method Pipe(p: nat) returns (r: int, w: int)
      requires p < |procs|
      modifies this
      ensures (r, w) == PipeEnds(old(procs[p]))
      ensures procs == old(procs)[p := AfterPipe(old(procs[p]), old(pipes))] && pipes == old(pipes) + 1
    {
      r := FreeFrom(procs[p], 0);
      w := FreeFrom(procs[p], r + 1);
      procs := procs[p := procs[p][r := PipeRead(pipes)][w := PipeWrite(pipes)]];
      pipes := pipes + 1;
    }

    /** The child is a new process with a copy of the table. */
    method Fork(p: nat) returns (child: nat)
      requires p < |procs|
      modifies this`procs
      ensures child == |old(procs)| && procs == old(procs) + [old(procs[p])]
    {
      child := |procs|;
      procs := procs + [procs[p]];
    }

    method Dup2(p: nat, from: int, to: int)
      requires p < |procs| && from in procs[p]
      modifies this`procs
      ensures procs == old(procs)[p := old(procs[p])[to := old(procs[p])[from]]]
    {
      procs := procs[p := procs[p][to := procs[p][from]]];
    }

    method Close(p: nat, fd: int)
      requires p < |procs| && fd in procs[p]
      modifies this`procs
      ensures procs == old(procs)[p := old(procs[p]) - {fd}]
    {
      procs := procs[p := procs[p] - {fd}];
    }

    method Open(p: nat, name: string) returns (fd: int)
      requires p < |procs|
      modifies this`procs
      ensures fd == FreeFrom(old(procs[p]), 0) && procs == old(procs)[p := old(procs[p])[fd := File(name)]]
    {
      fd := FreeFrom(procs[p], 0);
      procs := procs[p := procs[p][fd := File(name)]];
    }

    /** `redirect_stdout`; an end that does not exist is None. */
    method RedirectStdout(p: nat, fd0: Option<int>, fd1: int)
      requires p < |procs| && fd1 in procs[p]
      requires fd0.Some? ==> fd0.value in procs[p] && fd0.value != fd1
      modifies this`procs
      ensures procs == old(procs)[p := old(procs[p])[STDOUT := old(procs[p])[fd1]] - ({fd1} + Ends(fd0))]
    {
      ghost var u := procs[p][STDOUT := procs[p][fd1]];
      Dup2(p, fd1, STDOUT);
      Close(p, fd1);
      if fd0.Some? {
        Close(p, fd0.value);
        assert u - {fd1} - {fd0.value} == u - ({fd1} + Ends(fd0));
      } else {
        assert u - {fd1} == u - ({fd1} + Ends(fd0));
      }
    }

    /** `redirect_stdin`. */
    method RedirectStdin(p: nat, fd0: int, fd1: Option<int>)
      requires p < |procs| && fd0 in procs[p]
      requires fd1.Some? ==> fd1.value in procs[p] && fd1.value != fd0
      modifies this`procs
      ensures procs == old(procs)[p := old(procs[p])[STDIN := old(procs[p])[fd0]] - ({fd0} + Ends(fd1))]
    {
      ghost var u := procs[p][STDIN := procs[p][fd0]];
      Dup2(p, fd0, STDIN);
      Close(p, fd0);
      if fd1.Some? {
        Close(p, fd1.value);
        assert u - {fd0} - {fd1.value} == u - ({fd0} + Ends(fd1));
      } else {
        assert u - {fd0} == u - ({fd0} + Ends(fd1));
      }
    }

    /** `redirect_stdout_to_file`. */
    method RedirectStdoutToFile(p: nat, name: string)
      requires p < |procs|
      modifies this`procs
      ensures procs == old(procs)[p := OutToFile(old(procs[p]), name)]
    {
      ghost var t := procs[p];
      var fd := Open(p, name);
      RedirectStdout(p, None, fd);
      assert t[fd := File(name)][STDOUT := File(name)] - ({fd} + Ends(None)) == OutToFile(t, name);
    }

    /** `redirect_stdin_to_file`. */
    method RedirectStdinToFile(p: nat, name: string)
      requires p < |procs|
      modifies this`procs
      ensures procs == old(procs)[p := InFromFile(old(procs[p]), name)]
    {
      ghost var t := procs[p];
      var fd := Open(p, name);
      RedirectStdin(p, fd, None);
      assert t[fd := File(name)][STDIN := File(name)] - ({fd} + Ends(None)) == InFromFile(t, name);
    }

    /** The rightmost program: reads the first pipe. */
    method StartRightmost(leader: nat, ends: (int, int), rstdout: Option<string>, ghost t: Table)
      requires leader < |procs| && ends == PipeEnds(t) && procs[leader] == AfterPipe(t, 0)
      modifies this`procs
      ensures procs == old(procs) + [Rightmost(t, rstdout)]
    {
      ghost var before := procs;
      var child := Fork(leader);
      RedirectStdin(child, ends.0, Some(ends.1));
      assert procs == before + [Reader(AfterPipe(t, 0), ends)];
      if rstdout.Some? { RedirectStdoutToFile(child, rstdout.value); }
    }

    /** A program in the middle: writes the previous pipe and reads a new one.
        The leader lets go of the previous pipe. */
    method StartMiddle(leader: nat, previous: (int, int), ghost k: nat) returns (ends: (int, int))
      requires leader < |procs| && pipes == k + 1 && Holds(procs[leader], previous, k)
      modifies this
      ensures pipes == k + 2 && ends == PipeEnds(old(procs[leader]))
      ensures procs == old(procs)[leader := LeaderNext(old(procs[leader]), previous, k)]
                       + [Middle(old(procs[leader]), previous, k)]
      ensures Holds(procs[leader], ends, k + 1)
    {
      ghost var u := procs[leader];
      var r, w := Pipe(leader);
      ends := (r, w);
      var child := Fork(leader);
      MiddleSteps(u, previous, k);
      RedirectStdout(child, Some(previous.0), previous.1);
      RedirectStdin(child, r, Some(w));
      Close(leader, previous.0);
      Close(leader, previous.1);
    }

    /** The leader becomes the leftmost program. */
    method BecomeLeftmost(leader: nat, ends: (int, int), rstdin: Option<string>, ghost k: nat)
      requires leader < |procs| && Holds(procs[leader], ends, k)
      modifies this`procs
      ensures procs == old(procs)[leader := Leftmost(old(procs[leader]), ends, rstdin)]
    {
      if rstdin.Some? { RedirectStdinToFile(leader, rstdin.value); }
      RedirectStdout(leader, Some(ends.0), ends.1);
    }

    /** The pipeline branch of `main`, run by the forked child `leader` for `n`
        programs.  `programs` counts those still to be started, right to left.
        Whatever is open in the leader, the programs run with the tables `Actual`; these are the
        wired ones exactly when standard input and output were open, and then every end of every
        pipe is held by exactly one process under exactly one descriptor. */
    method RunPipeline(leader: nat, n: nat, rstdin: Option<string>, rstdout: Option<string>)
      requires n >= 2 && leader < |procs| && pipes == 0
      modifies this
      ensures procs == old(procs)[leader := Actual(old(procs[leader]), n, n - 1, rstdin, rstdout)]
                       + Actuals(old(procs[leader]), n, n - 1, rstdin, rstdout)
      ensures procs == WiredWorld(old(procs), leader, n, rstdin, rstdout) <==> Standard(old(procs[leader]))
      ensures Standard(old(procs[leader])) && NoPipes(old(procs)) ==> EndsOwned(procs, n, leader, |old(procs)|)
    {
      hide Actual, Leader, Rightmost, Middle, Leftmost, LeaderNext, Stage;
      ghost var t, before := procs[leader], procs;
      var r, w := Pipe(leader);
      var ends := (r, w);
      LeaderStart(t);
      StartRightmost(leader, ends, rstdout, t);
      var programs := n - 1;
      ghost var k := 0;
      ActualFirst(t, n, rstdin, rstdout);
      while programs > 1
        invariant 1 <= programs && k == n - 1 - programs && pipes == k + 1
        invariant leader < |before| && |procs| == |before| + k + 1
        invariant (procs[leader], ends) == Leader(t, k) && Holds(procs[leader], ends, k)
        invariant procs == before[leader := procs[leader]] + Actuals(t, n, k + 1, rstdin, rstdout)
        decreases programs
      {
        ActualNext(t, n, k, rstdin, rstdout);
        ends := StartMiddle(leader, ends, k);
        programs := programs - 1;
        k := k + 1;
      }
      ActualLast(t, n, rstdin, rstdout);
      BecomeLeftmost(leader, ends, rstdin, k);
      WorldWired(before, procs, leader, n, rstdin, rstdout);
      if Standard(t) && NoPipes(before) { WorldOwnership(before, leader, n, rstdin, rstdout); }
    }
  }

  // ----- what each program's table becomes, from any table -----

  /** A table after `redirect_stdout_to_file`, which reuses the lowest free descriptor. */
  function OutToFile(t: Table, name: string): (u: Table) {
    var fd := FreeFrom(t, 0);
    t[fd := File(name)][STDOUT := File(name)] - {fd}
  }

  /** A table after `redirect_stdin_to_file`. */
  function InFromFile(t: Table, name: string): (u: Table) {
    var fd := FreeFrom(t, 0);
    t[fd := File(name)][STDIN := File(name)] - {fd}
  }

  /** A table after `redirect_stdin` of both ends of a pipe. */
  function Reader(u: Table, ends: (int, int)): (v: Table)
    requires ends.0 in u
  {
    u[STDIN := u[ends.0]] - ({ends.0} + Ends(Some(ends.1)))
  }

  /** A table after `redirect_stdout` of both ends of a pipe. */
  function Writer(u: Table, ends: (int, int)): (v: Table)
    requires ends.1 in u
  {
    u[STDOUT := u[ends.1]] - ({ends.1} + Ends(Some(ends.0)))
  }

  /** Both ends of pipe `k` are open. */
  predicate Holds(u: Table, ends: (int, int), k: nat) {
    ends.0 != ends.1 && ends.0 in u && ends.1 in u && u[ends.0] == PipeRead(k) && u[ends.1] == PipeWrite(k)
  }

  function Rightmost(t: Table, rstdout: Option<string>): (u: Table) {
    var u := Reader(AfterPipe(t, 0), PipeEnds(t));
    if rstdout.Some? then OutToFile(u, rstdout.value) else u
  }

  function Middle(u: Table, previous: (int, int), k: nat): (v: Table)
    requires Holds(u, previous, k)
  {
    MiddleSteps(u, previous, k);
    Reader(Writer(AfterPipe(u, k + 1), previous), PipeEnds(u))
  }

  function LeaderNext(u: Table, previous: (int, int), k: nat): (v: Table) {
    AfterPipe(u, k + 1) - {previous.0} - {previous.1}
  }

  function Leftmost(u: Table, ends: (int, int), rstdin: Option<string>): (v: Table)
    requires ends.0 != ends.1 && ends.0 in u && ends.1 in u
  {
    var v := if rstdin.Some? then InFromFile(u, rstdin.value) else u;
    Writer(v, ends)
  }

  lemma {:induction false} MiddleSteps(u: Table, previous: (int, int), k: nat)
    requires Holds(u, previous, k)
    ensures var ends := PipeEnds(u);
            var v := AfterPipe(u, k + 1);
            && Holds(v, previous, k) && Holds(v, ends, k + 1)
            && previous.0 != ends.0 && previous.0 != ends.1 && previous.1 != ends.0 && previous.1 != ends.1
            && ends.0 in Writer(v, previous) && ends.1 in Writer(v, previous)
            && Holds(LeaderNext(u, previous, k), ends, k + 1)
  {
  }

  /** The leader's table and the ends it holds after making pipe `k`. */
  function Leader(t: Table, k: nat): (r: (Table, (int, int)))
    ensures Holds(r.0, r.1, k)
  {
    if k == 0 then (AfterPipe(t, 0), PipeEnds(t))
    else
      var (u, ends) := Leader(t, k - 1);
      MiddleSteps(u, ends, k - 1);
      (LeaderNext(u, ends, k - 1), PipeEnds(u))
  }

  /** The table with which program `j` of `n`, counted from the right, does run. */
  function Actual(t: Table, n: nat, j: nat, rstdin: Option<string>, rstdout: Option<string>): (u: Table)
    requires n >= 2 && j < n
  {
    if j == 0 then Rightmost(t, rstdout)
    else
      var (u, ends) := Leader(t, j - 1);
      if j < n - 1 then Middle(u, ends, j - 1) else Leftmost(u, ends, rstdin)
  }

  function Actuals(t: Table, n: nat, cnt: nat, rstdin: Option<string>, rstdout: Option<string>): (s: seq<Table>)
    requires n >= 2 && cnt <= n
  {
    seq(cnt, j requires 0 <= j < cnt => Actual(t, n, j, rstdin, rstdout))
  }

  lemma {:induction false} LeaderStart(t: Table)
    ensures Leader(t, 0) == (AfterPipe(t, 0), PipeEnds(t)) && Holds(AfterPipe(t, 0), PipeEnds(t), 0)
  {
  }

  lemma {:induction false} ActualFirst(t: Table, n: nat, rstdin: Option<string>, rstdout: Option<string>)
    requires n >= 2
    ensures Actuals(t, n, 1, rstdin, rstdout) == [Rightmost(t, rstdout)]
  {
  }

  lemma {:induction false} ActualNext(t: Table, n: nat, k: nat, rstdin: Option<string>, rstdout: Option<string>)
    requires n >= 2 && k + 1 < n - 1
    ensures var (u, ends) := Leader(t, k);
            && Leader(t, k + 1) == (LeaderNext(u, ends, k), PipeEnds(u))
            && Actuals(t, n, k + 2, rstdin, rstdout) == Actuals(t, n, k + 1, rstdin, rstdout) + [Middle(u, ends, k)]
  {
    hide LeaderNext, Middle, Rightmost, Leftmost, AfterPipe, PipeEnds, Holds;
    var (u, ends) := Leader(t, k);
    assert Actual(t, n, k + 1, rstdin, rstdout) == Middle(u, ends, k);
  }

  lemma {:induction false} ActualLast(t: Table, n: nat, rstdin: Option<string>, rstdout: Option<string>)
    requires n >= 2
    ensures var (u, ends) := Leader(t, n - 2); Actual(t, n, n - 1, rstdin, rstdout) == Leftmost(u, ends, rstdin)
  {
  }

  // ----- what it should be -----

  /** The table `t` with standard input and output redirected. */
  function Wired(t: Table, stdin: Option<Desc>, stdout: Option<Desc>): (u: Table) {
    var u := if stdin.Some? then t[STDIN := stdin.value] else t;
    if stdout.Some? then u[STDOUT := stdout.value] else u
  }

  function FileDesc(name: Option<string>): (d: Option<Desc>) {
    if name.Some? then Some(File(name.value)) else None
  }

  /** The leader between two steps: its own table and both ends of pipe `k`. */
  ghost predicate Holding(u: Table, t: Table, ends: (int, int), k: nat) {
    && ends.0 !in t && ends.1 !in t && ends.0 != ends.1
    && u == t[ends.0 := PipeRead(k)][ends.1 := PipeWrite(k)]
  }

  /** The table with which program `j` of `n`, counted from the right, runs. */
  function Stage(t: Table, n: nat, j: nat, rstdin: Option<string>, rstdout: Option<string>): (u: Table)
    requires j < n
  {
    Wired(t,
          if j < n - 1 then Some(PipeRead(j)) else FileDesc(rstdin),
          if j > 0 then Some(PipeWrite(j - 1)) else FileDesc(rstdout))
  }

  function Stages(t: Table, n: nat, cnt: nat, rstdin: Option<string>, rstdout: Option<string>): (s: seq<Table>)
    requires cnt <= n
  {
    seq(cnt, j requires 0 <= j < cnt => Stage(t, n, j, rstdin, rstdout))
  }

  /** The leader has what it started with, and both ends of one pipe. */
  lemma {:induction false} LeaderHolding(t: Table, k: nat)
    ensures var (u, ends) := Leader(t, k); Holding(u, t, ends, k)
  {
    if k > 0 {
      LeaderHolding(t, k - 1);
      var (u, ends) := Leader(t, k - 1);
      LetGo(t, u, ends, k - 1);
    }
  }

  lemma {:induction false} LetGo(t: Table, u: Table, previous: (int, int), k: nat)
    requires Holding(u, t, previous, k)
    ensures Holding(LeaderNext(u, previous, k), t, PipeEnds(u), k + 1)
  {
    var (r, w) := PipeEnds(u);
    assert LeaderNext(u, previous, k) == t[r := PipeRead(k + 1)][w := PipeWrite(k + 1)];
  }

  lemma {:induction false} RightmostWired(t: Table, rstdout: Option<string>)
    requires Standard(t)
    ensures Rightmost(t, rstdout) == Wired(t, Some(PipeRead(0)), FileDesc(rstdout))
  {
    var u := Reader(AfterPipe(t, 0), PipeEnds(t));
    assert u == t[STDIN := PipeRead(0)];
  }

  /** Swapping the previous pipe onto standard output and the new one onto
      standard input leaves no other end behind. */
  lemma {:induction false} MiddleWired(t: Table, u: Table, previous: (int, int), k: nat)
    requires Standard(t) && Holding(u, t, previous, k) && Holds(u, previous, k)
    ensures Middle(u, previous, k) == Wired(t, Some(PipeRead(k + 1)), Some(PipeWrite(k)))
  {
    MiddleSteps(u, previous, k);
  }

  lemma {:induction false} LeftmostWired(t: Table, u: Table, ends: (int, int), k: nat, rstdin: Option<string>)
    requires Standard(t) && Holding(u, t, ends, k) && Holds(u, ends, k)
    ensures Leftmost(u, ends, rstdin) == Wired(t, FileDesc(rstdin), Some(PipeWrite(k)))
  {
    if rstdin.Some? { assert InFromFile(u, rstdin.value) == u[STDIN := File(rstdin.value)]; }
  }

  lemma {:induction false} ActualIsStage(t: Table, n: nat, j: nat, rstdin: Option<string>, rstdout: Option<string>)
    requires n >= 2 && j < n && Standard(t)
    ensures Actual(t, n, j, rstdin, rstdout) == Stage(t, n, j, rstdin, rstdout)
  {
    hide Leader, Middle, Leftmost, Rightmost, Wired;
    if j == 0 {
      RightmostWired(t, rstdout);
    } else {
      LeaderHolding(t, j - 1);
      var (u, ends) := Leader(t, j - 1);
      if j < n - 1 { MiddleWired(t, u, ends, j - 1); } else { LeftmostWired(t, u, ends, j - 1, rstdin); }
    }
  }

  /** With standard input closed `pipe` hands out descriptor 0 itself, and the redirection of the
      rightmost program closes it: the program has no pipe to read. */
  lemma {:induction false} ReaderNeedsStdin(t: Table, rstdout: Option<string>)
    requires STDIN !in t
    ensures STDIN !in Rightmost(t, rstdout)
  {
    assert PipeEnds(t).0 == STDIN;
    var u := Reader(AfterPipe(t, 0), PipeEnds(t));
    assert STDIN !in u;
    if rstdout.Some? { assert FreeFrom(u, 0) == 0; }
  }

  /** With standard output closed and standard input open `pipe` hands out descriptor 1 for the read
      end, and the redirection of the program that should write the first pipe closes it. */
  lemma {:induction false} WriterNeedsStdout(t: Table, n: nat, rstdin: Option<string>, rstdout: Option<string>)
    requires n >= 2 && STDIN in t && STDOUT !in t
    ensures STDOUT !in Actual(t, n, 1, rstdin, rstdout)
  {
    hide Leader, PipeEnds;
    LeaderStart(t);
    var u, ends := AfterPipe(t, 0), PipeEnds(t);
    FirstFreeIsOne(t);
    if n > 2 {
      MiddleSteps(u, ends, 0);
      assert STDOUT !in Writer(AfterPipe(u, 1), ends);
    }
  }

  lemma {:induction false} FirstFreeIsOne(t: Table)
    requires STDIN in t && STDOUT !in t
    ensures PipeEnds(t).0 == STDOUT
  {
    assert FreeFrom(t, 0) == FreeFrom(t, 1) == 1;
  }

  /** From any table, all programs run wired as the pipeline says if and only if standard input and
      output are open. */
  lemma {:induction false} WiredIffStandard(t: Table, n: nat, rstdin: Option<string>, rstdout: Option<string>)
    requires n >= 2
    ensures (forall j | 0 <= j < n :: Actual(t, n, j, rstdin, rstdout) == Stage(t, n, j, rstdin, rstdout)) <==>
            Standard(t)
  {
    hide Leader, Middle, Leftmost, Rightmost;
    if Standard(t) {
      forall j | 0 <= j < n ensures Actual(t, n, j, rstdin, rstdout) == Stage(t, n, j, rstdin, rstdout) {
        ActualIsStage(t, n, j, rstdin, rstdout);
      }
    } else if STDIN !in t {
      ReaderNeedsStdin(t, rstdout);
      assert STDIN !in Actual(t, n, 0, rstdin, rstdout) && STDIN in Stage(t, n, 0, rstdin, rstdout);
    } else {
      WriterNeedsStdout(t, n, rstdin, rstdout);
      assert STDOUT in Stage(t, n, 1, rstdin, rstdout);
    }
  }

  /** With only standard output open the last program of two has no standard input. */
  lemma {:induction false} ClosedStdinFails()
    ensures STDIN !in Actual(map[STDOUT := Inherited(1)], 2, 0, None, None)
  {
    ReaderNeedsStdin(map[STDOUT := Inherited(1)], None);
  }

  /** With only standard input open the first program of two has no standard output. */
  lemma {:induction false} ClosedStdoutFails()
    ensures STDOUT !in Actual(map[STDIN := Inherited(0)], 2, 1, None, None)
  {
    WriterNeedsStdout(map[STDIN := Inherited(0)], 2, None, None);
  }

  // ----- all processes -----

  /** The processes before the pipeline, the leader running the leftmost program, then the others. */
  ghost function WiredWorld(before: seq<Table>, leader: nat, n: nat, rstdin: Option<string>,
                            rstdout: Option<string>): (after: seq<Table>)
    requires n >= 2 && leader < |before|
  {
    before[leader := Stage(before[leader], n, n - 1, rstdin, rstdout)] +
    Stages(before[leader], n, n - 1, rstdin, rstdout)
  }

  lemma {:induction false} WorldWired(before: seq<Table>, after: seq<Table>, leader: nat, n: nat,
                                      rstdin: Option<string>, rstdout: Option<string>)
    requires n >= 2 && leader < |before|
    requires after == before[leader := Actual(before[leader], n, n - 1, rstdin, rstdout)]
                      + Actuals(before[leader], n, n - 1, rstdin, rstdout)
    ensures after == WiredWorld(before, leader, n, rstdin, rstdout) <==> Standard(before[leader])
  {
    hide Actual, Stage;
    var t, wired := before[leader], WiredWorld(before, leader, n, rstdin, rstdout);
    WiredIffStandard(t, n, rstdin, rstdout);
    assert after[leader] == Actual(t, n, n - 1, rstdin, rstdout)
      && wired[leader] == Stage(t, n, n - 1, rstdin, rstdout);
    forall j | 0 <= j < n - 1
      ensures after[|before| + j] == Actual(t, n, j, rstdin, rstdout)
      ensures wired[|before| + j] == Stage(t, n, j, rstdin, rstdout)
    {
    }
    if after == wired {
      forall j | 0 <= j < n ensures Actual(t, n, j, rstdin, rstdout) == Stage(t, n, j, rstdin, rstdout) {
        if j < n - 1 { assert after[|before| + j] == wired[|before| + j]; }
      }
    }
  }

  /** Who holds the ends of the pipes when all programs have been started: the
      write end of pipe `k` is standard output of program `k + 1` and nothing
      else, its read end is standard input of program `k`, the next one to the
      right, and nothing else. */
  lemma {:induction false} PipeOwnership(t: Table, n: nat, rstdin: Option<string>, rstdout: Option<string>, j: nat,
                                         fd: int, k: nat)
    requires n >= 2 && j < n && k < n - 1 && forall f | f in t :: !IsPipe(t[f])
    ensures Has(Stage(t, n, j, rstdin, rstdout), fd, PipeWrite(k)) <==> fd == STDOUT && j == k + 1
    ensures Has(Stage(t, n, j, rstdin, rstdout), fd, PipeRead(k)) <==> fd == STDIN && j == k
  {
  }

  predicate Has(t: Table, fd: int, d: Desc) { fd in t && t[fd] == d }

  ghost predicate NoPipes(procs: seq<Table>) {
    forall q, f | 0 <= q < |procs| && f in procs[q] :: !IsPipe(procs[q][f])
  }

  /** The process that runs program `j`. */
  function ProcessOf(j: nat, n: nat, leader: nat, processes: nat): (p: nat) {
    if j == n - 1 then leader else processes + j
  }

  /** Each end of each of the `n - 1` pipes is held by exactly one process, under exactly one
      descriptor: the write end as standard output of one program, the read end as standard input of
      the next to the right. */
  ghost predicate EndsOwned(procs: seq<Table>, n: nat, leader: nat, processes: nat)
    requires n >= 2
  {
    forall p: nat, fd: int, k: nat | p < |procs| && k < n - 1 ::
      && (Has(procs[p], fd, PipeWrite(k)) <==> fd == STDOUT && p == ProcessOf(k + 1, n, leader, processes))
      && (Has(procs[p], fd, PipeRead(k)) <==> fd == STDIN && p == ProcessOf(k, n, leader, processes))
  }

  /** The same over all processes, the shell included. */
  lemma {:induction false} WorldOwnership(before: seq<Table>, leader: nat, n: nat, rstdin: Option<string>,
                                          rstdout: Option<string>)
    requires n >= 2 && leader < |before| && NoPipes(before)
    ensures EndsOwned(WiredWorld(before, leader, n, rstdin, rstdout), n, leader, |before|)
  {
    hide Stage;
    var t, after := before[leader], WiredWorld(before, leader, n, rstdin, rstdout);
    forall p: nat, fd: int, k: nat | p < |after| && k < n - 1
      ensures Has(after[p], fd, PipeWrite(k)) <==> fd == STDOUT && p == ProcessOf(k + 1, n, leader, |before|)
      ensures Has(after[p], fd, PipeRead(k)) <==> fd == STDIN && p == ProcessOf(k, n, leader, |before|)
    {
      if p == leader {
        PipeOwnership(t, n, rstdin, rstdout, n - 1, fd, k);
      } else if p >= |before| {
        assert after[p] == Stage(t, n, p - |before|, rstdin, rstdout);
        PipeOwnership(t, n, rstdin, rstdout, p - |before|, fd, k);
      } else {
        assert after[p] == before[p];
      }
    }
  }

  function Ends(fd: Option<int>): (s: set<int>) {
    if fd.Some? then {fd.value} else {}
  }

  /** Standard input and output are open. */
  predicate Standard(t: Table) { STDIN in t && STDOUT in t }
}
