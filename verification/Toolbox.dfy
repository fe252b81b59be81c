/**
 The toolbox container: its main process is an idle loop that waits for a done mark, and
 gives up if no started mark appears in time; the command exec'd into it is wrapped so as
 to create the two marks. The container, and the command with it, dies with the loop.
 Both processes are shells: each test, assignment and file creation is one step, and the
 steps of the two may interleave in any way.
 */
module Toolbox {
  /** The idle loop, by what it does next; `i` is the shell variable. */
  datatype Loop =
    | Head(i: nat)      // test the done mark
    | Counting(i: nat)  // test the started mark, counting if it is missing
    | Limit(i: nat)     // test the count
    | Asleep(i: nat)
    | Exited(code: nat)

  /** The wrapper, by what it does next. */
  datatype Wrapper =
    | Marking        // create the started mark, or fail and exit
    | TrapExit       // install the EXIT trap
    | TrapSignals    // install the traps of HUP, INT and TERM
    | Running        // run the command
    | Leaving        // run the EXIT trap
    | Ended
    | Killed         // ended with no trap to run

  datatype State = State(loop: Loop, sleeps: nat, wrapper: Wrapper, started: bool, done: bool)

  datatype Step = LoopStep | WrapperStep | MarkFails | Signal

  predicate Enabled(s: State, a: Step) {
    && !s.loop.Exited?
    && match a
       case LoopStep => true
       case WrapperStep => !s.wrapper.Ended? && !s.wrapper.Killed?
       case MarkFails => s.wrapper.Marking?
       case Signal => !s.wrapper.Ended? && !s.wrapper.Killed? && !s.wrapper.Leaving?
  }

  function LoopAfter(s: State, timeout: nat): Loop
    requires !s.loop.Exited?
  {
    match s.loop
    case Head(i) => if s.done then Exited(0) else Counting(i)
    case Counting(i) => Limit(if s.started then i else i + 1)
    case Limit(i) => if i <= timeout then Asleep(i) else Exited(1)
    case Asleep(i) => Head(i)
  }

  function After(s: State, a: Step, timeout: nat): State
    requires Enabled(s, a)
  {
    match a
    case LoopStep =>
      s.(loop := LoopAfter(s, timeout), sleeps := if s.loop.Asleep? then s.sleeps + 1 else s.sleeps)
    case WrapperStep =>
      (match s.wrapper
       case Marking => s.(wrapper := TrapExit, started := true)
       case TrapExit => s.(wrapper := TrapSignals)
       case TrapSignals => s.(wrapper := Running)
       case Running => s.(wrapper := Leaving) // the command ended, in whatever way
       case _ => s.(wrapper := Ended, done := true))
    case MarkFails => s.(wrapper := Killed)
    case Signal => s.(wrapper := if s.wrapper.Running? then Leaving else Killed)
  }

  ghost predicate Next(s: State, s': State, timeout: nat) {
    exists a :: Enabled(s, a) && s' == After(s, a, timeout)
  }

  // A step of the idle loop.
  predicate LoopMoves(s: State, s': State, timeout: nat) {
    Enabled(s, LoopStep) && s' == After(s, LoopStep, timeout)
  }

  const START := State(Head(0), 0, Marking, false, false)

  // Past the installation of the traps.
  predicate Trapped(w: Wrapper) {
    w.Running? || w.Leaving? || w.Ended?
  }

  /** The loop has already decided to give up, or has done so. */
  predicate Doomed(s: State, timeout: nat) {
    match s.loop
    case Limit(i) => i > timeout
    case Exited(code) => code != 0
    case _ => false
  }

  /** Without a started mark every round but the last costs one sleep; with or without it
      the count does not pass the limit while the loop is at its head. */
  predicate Inv(s: State, timeout: nat) {
    && (s.done <==> s.wrapper.Ended?)
    && (s.wrapper.Marking? ==> !s.started)
    && (!s.wrapper.Marking? && !s.wrapper.Killed? ==> s.started)
    && match s.loop
       case Head(i) => i <= timeout && (s.started || i == s.sleeps)
       case Counting(i) => i <= timeout && (s.started || i == s.sleeps)
       case Limit(i) => i <= timeout + 1 && ((s.started && i <= timeout) || i == s.sleeps + 1)
       case Asleep(i) => i <= timeout && (s.started || i == s.sleeps + 1)
       case Exited(code) => if code == 0 then s.done else code == 1 && s.sleeps == timeout
  }

  lemma InvStep(s: State, a: Step, timeout: nat)
    requires Inv(s, timeout) && Enabled(s, a)
    ensures Inv(After(s, a, timeout), timeout)
  {
  }

  // What no step takes back.
  predicate Keeps(s: State, s': State, timeout: nat) {
    && (s.started ==> s'.started)
    && (s.done ==> s'.done)
    && (Trapped(s.wrapper) ==> Trapped(s'.wrapper))
    && (Doomed(s, timeout) ==> Doomed(s', timeout))
    && (s.started && !Doomed(s, timeout) ==> !Doomed(s', timeout))
  }

  lemma KeepsStep(s: State, a: Step, timeout: nat)
    requires Inv(s, timeout) && Enabled(s, a)
    ensures Keeps(s, After(s, a, timeout), timeout)
  {
  }

  // ---------------------------------------------------------------------- runs

  /** Any interleaving of steps, with pauses. */
  ghost predicate IsRun(run: nat -> State, timeout: nat) {
    run(0) == START && forall i: nat :: Moves(run, timeout, i)
  }

  ghost predicate Moves(run: nat -> State, timeout: nat, i: nat) {
    run(i + 1) == run(i) || Next(run(i), run(i + 1), timeout)
  }

  /** The idle loop always gets to run again; nothing is asked of the wrapper. */
  ghost predicate Fair(run: nat -> State, timeout: nat) {
    forall i: nat :: Resumes(run, timeout, i)
  }

  ghost predicate Resumes(run: nat -> State, timeout: nat, i: nat) {
    exists j: nat :: i <= j && LoopAt(run, timeout, j)
  }

  // The loop takes a step at j, or has exited.
  ghost predicate LoopAt(run: nat -> State, timeout: nat, j: nat) {
    run(j).loop.Exited? || LoopMoves(run(j), run(j + 1), timeout)
  }

  lemma {:induction false} RunInv(run: nat -> State, timeout: nat, i: nat)
    requires IsRun(run, timeout)
    ensures Inv(run(i), timeout)
  {
    if i > 0 {
      var s := run(i - 1);
      RunInv(run, timeout, i - 1);
      assert Moves(run, timeout, i - 1);
      if run(i) != s {
        var a :| Enabled(s, a) && run(i) == After(s, a, timeout);
        InvStep(s, a, timeout);
      }
    }
  }

  lemma {:induction false} RunKeeps(run: nat -> State, timeout: nat, k: nat, i: nat)
    requires IsRun(run, timeout) && k <= i
    ensures Keeps(run(k), run(i), timeout)
    decreases i
  {
    if k < i {
      var s := run(i - 1);
      RunKeeps(run, timeout, k, i - 1);
      RunInv(run, timeout, i - 1);
      assert Moves(run, timeout, i - 1);
      if run(i) != s {
        var a :| Enabled(s, a) && run(i) == After(s, a, timeout);
        KeepsStep(s, a, timeout);
      }
    }
  }

  // --------------------------------------------------------------------- safety

  /** The loop gives up only after exactly `timeout` sleeps; otherwise it ends only once the
      command was started and has ended. */
  lemma ExitCodes(run: nat -> State, timeout: nat, i: nat, code: nat)
    requires IsRun(run, timeout) && run(i).loop == Exited(code)
    ensures code <= 1
    ensures code == 1 ==> run(i).sleeps == timeout
    ensures code == 0 ==> run(i).started && run(i).done && run(i).wrapper.Ended?
  {
    RunInv(run, timeout, i);
  }

  /** A started mark that appears while the loop is at its head, or anywhere but between
      its last look and its giving up, is in time: the loop then never times out, and does
      not cut the command short. */
  lemma StartedInTime(run: nat -> State, timeout: nat, k: nat, i: nat)
    requires IsRun(run, timeout) && k <= i
    requires run(k).started && !Doomed(run(k), timeout)
    ensures run(i).loop != Exited(1)
    ensures run(i).loop.Exited? ==> run(i).loop == Exited(0) && run(i).done && run(i).wrapper.Ended?
  {
    RunKeeps(run, timeout, k, i);
    RunInv(run, timeout, i);
  }

  lemma HeadIsInTime(run: nat -> State, timeout: nat, k: nat)
    requires IsRun(run, timeout) && run(k).loop.Head?
    ensures run(k).loop.i <= timeout && !Doomed(run(k), timeout)
  {
    RunInv(run, timeout, k);
  }

  /** Once its traps are installed the wrapper does not end without running them, and the
      done mark is there exactly when it has ended. */
  lemma TrapsMarkDone(run: nat -> State, timeout: nat, k: nat, i: nat)
    requires IsRun(run, timeout) && k <= i && Trapped(run(k).wrapper)
    ensures !run(i).wrapper.Killed?
    ensures run(i).wrapper.Ended? <==> run(i).done
  {
    RunKeeps(run, timeout, k, i);
    RunInv(run, timeout, i);
  }

  // ------------------------------------------------------------------- liveness

  // Nothing keeps the loop going round.
  predicate Winding(s: State, timeout: nat) {
    !s.started || s.done || Doomed(s, timeout)
  }

  function Rank(s: State, timeout: nat): int {
    match s.loop
    case Exited(_) => 0
    case Head(i) => if s.done then 1 else 4 * (timeout + 1 - i) + 1
    case Asleep(i) => if s.done then 2 else 4 * (timeout + 1 - i) + 2
    case Limit(i) => if s.done then 3 else 4 * (timeout + 1 - i) + 3
    case Counting(i) => if s.done then 4 else 4 * (timeout + 1 - i)
  }

  lemma RankStep(s: State, a: Step, timeout: nat)
    requires Inv(s, timeout) && Winding(s, timeout) && Enabled(s, a)
    ensures 0 <= Rank(After(s, a, timeout), timeout) <= Rank(s, timeout)
    ensures a.LoopStep? ==> Rank(After(s, a, timeout), timeout) < Rank(s, timeout)
  {
  }

  // m is a later point at which the loop takes a step.
  lemma {:induction false} WindsDown(run: nat -> State, timeout: nat, k: nat, m: nat) returns (j: nat)
    requires IsRun(run, timeout) && Fair(run, timeout)
    requires forall i: nat :: k <= i ==> Winding(run(i), timeout)
    requires k <= m && LoopAt(run, timeout, m)
    ensures k <= j && run(j).loop.Exited?
    decreases Rank(run(k), timeout), m - k
  {
    RunInv(run, timeout, k);
    if run(k).loop.Exited? {
      return k;
    }
    assert Moves(run, timeout, k);
    if run(k + 1) != run(k) {
      var a :| Enabled(run(k), a) && run(k + 1) == After(run(k), a, timeout);
      RankStep(run(k), a, timeout);
    }
    if k < m {
      j := WindsDown(run, timeout, k + 1, m);
    } else {
      RankStep(run(k), LoopStep, timeout);
      assert Resumes(run, timeout, k + 1);
      var n: nat :| k + 1 <= n && LoopAt(run, timeout, n);
      j := WindsDown(run, timeout, k + 1, n);
    }
  }

  lemma Winds(run: nat -> State, timeout: nat, k: nat) returns (j: nat)
    requires IsRun(run, timeout) && Fair(run, timeout)
    requires forall i: nat :: k <= i ==> Winding(run(i), timeout)
    ensures k <= j && run(j).loop.Exited?
  {
    assert Resumes(run, timeout, k);
    var m: nat :| k <= m && LoopAt(run, timeout, m);
    j := WindsDown(run, timeout, k, m);
  }

  /** A toolbox whose command never starts exits with code 1, after exactly `timeout`
      sleeps. */
  lemma NeverStartedTimesOut(run: nat -> State, timeout: nat) returns (j: nat)
    requires IsRun(run, timeout) && Fair(run, timeout)
    requires forall i: nat :: !run(i).started
    ensures run(j).loop == Exited(1) && run(j).sleeps == timeout
  {
    j := Winds(run, timeout, 0);
    RunInv(run, timeout, j);
  }

  /** Once the started mark is there, the loop times out exactly if it had already taken
      its last look, and not found it, when the mark appeared. */
  lemma TimesOutIff(run: nat -> State, timeout: nat, k: nat)
    requires IsRun(run, timeout) && Fair(run, timeout) && run(k).started
    ensures (exists j: nat :: run(j).loop == Exited(1)) <==> Doomed(run(k), timeout)
  {
    if Doomed(run(k), timeout) {
      forall i: nat | k <= i
        ensures Winding(run(i), timeout)
      {
        RunKeeps(run, timeout, k, i);
      }
      var j := Winds(run, timeout, k);
      RunKeeps(run, timeout, k, j);
      RunInv(run, timeout, j);
    } else if j: nat :| run(j).loop == Exited(1) {
      if k <= j {
        RunKeeps(run, timeout, k, j);
      } else {
        RunKeeps(run, timeout, j, k);
      }
    }
  }

  // Once the done mark is there, a loop that is not giving up stops with code 0.
  lemma DoneStopsLoop(run: nat -> State, timeout: nat, m: nat) returns (j: nat)
    requires IsRun(run, timeout) && Fair(run, timeout)
    requires run(m).wrapper.Ended? && !Doomed(run(m), timeout)
    ensures run(j).loop == Exited(0)
  {
    RunInv(run, timeout, m);
    forall i: nat | m <= i
      ensures Winding(run(i), timeout)
    {
      RunKeeps(run, timeout, m, i);
    }
    j := Winds(run, timeout, m);
    StartedInTime(run, timeout, m, j);
  }

  // -------------------------------------------------------------- the wrapper

  /** The wrapper always gets to go on, except that its command may run for as long as it
      likes. */
  ghost predicate FairWrapper(run: nat -> State, timeout: nat) {
    forall i: nat :: WrapperResumes(run, timeout, i)
  }

  ghost predicate WrapperResumes(run: nat -> State, timeout: nat, i: nat) {
    exists j: nat :: i <= j && WrapperAt(run, timeout, j)
  }

  // The wrapper goes on at j, or its command is running, or it is over.
  ghost predicate WrapperAt(run: nat -> State, timeout: nat, j: nat) {
    || run(j).loop.Exited? || run(j).wrapper.Running? || run(j).wrapper.Ended? || run(j).wrapper.Killed?
    || WrapperMoves(run(j), run(j + 1), timeout)
  }

  ghost predicate WrapperMoves(s: State, s': State, timeout: nat) {
    || (Enabled(s, WrapperStep) && s' == After(s, WrapperStep, timeout))
    || (Enabled(s, MarkFails) && s' == After(s, MarkFails, timeout))
  }

  // Where a wrapper is after it has started to leave.
  lemma {:induction false} StaysLeft(run: nat -> State, timeout: nat, k: nat, i: nat)
    requires IsRun(run, timeout) && k <= i && (run(k).wrapper.Leaving? || run(k).wrapper.Ended?)
    ensures run(i).wrapper.Leaving? || run(i).wrapper.Ended?
    decreases i
  {
    if k < i {
      StaysLeft(run, timeout, k, i - 1);
      assert Moves(run, timeout, i - 1);
    }
  }

  /** A wrapper that runs its EXIT trap makes the done mark, and the loop exits with 0. */
  lemma LeavingStopsLoop(run: nat -> State, timeout: nat, k: nat) returns (j: nat)
    requires IsRun(run, timeout) && Fair(run, timeout) && FairWrapper(run, timeout)
    requires run(k).wrapper.Leaving? && !Doomed(run(k), timeout)
    ensures run(j).loop == Exited(0) && run(j).done
  {
    RunInv(run, timeout, k);
    assert WrapperResumes(run, timeout, k);
    var i: nat :| k <= i && WrapperAt(run, timeout, i);
    StaysLeft(run, timeout, k, i);
    StartedInTime(run, timeout, k, i);
    var m := if run(i).wrapper.Ended? then i else i + 1;
    RunKeeps(run, timeout, k, m);
    j := DoneStopsLoop(run, timeout, m);
    RunInv(run, timeout, j);
  }

  /** A command that was started in time and runs under its traps stops the toolbox with
      code 0 once it is over, whether it ended by itself or by a signal. */
  lemma EndedCommandStopsToolbox(run: nat -> State, timeout: nat, k: nat, m: nat) returns (j: nat)
    requires IsRun(run, timeout) && Fair(run, timeout) && FairWrapper(run, timeout) && k <= m
    requires Trapped(run(k).wrapper) && !Doomed(run(k), timeout) && !run(m).wrapper.Running?
    ensures run(j).loop == Exited(0) && run(j).done
  {
    RunInv(run, timeout, k);
    RunKeeps(run, timeout, k, m);
    if run(m).wrapper.Leaving? {
      j := LeavingStopsLoop(run, timeout, m);
    } else {
      j := DoneStopsLoop(run, timeout, m);
      RunInv(run, timeout, j);
    }
  }

  /** A wrapper that made its mark in time runs its command, unless a signal kills it before
      its traps are there. */
  lemma StartedCommandRuns(run: nat -> State, timeout: nat, k: nat) returns (j: nat)
    requires IsRun(run, timeout) && FairWrapper(run, timeout)
    requires run(k).started && !Doomed(run(k), timeout) && !Trapped(run(k).wrapper)
    requires forall i: nat :: !run(i).wrapper.Killed?
    ensures run(j).wrapper.Running?
  {
    RunInv(run, timeout, k);
    var m := SettingUpMoves(run, timeout, k);
    j := m;
    if !run(m).wrapper.Running? {
      RunKeeps(run, timeout, k, m);
      j := SettingUpMoves(run, timeout, m);
    }
  }

  // The step that follows while the traps are being installed.
  lemma SettingUpMoves(run: nat -> State, timeout: nat, k: nat) returns (m: nat)
    requires IsRun(run, timeout) && FairWrapper(run, timeout) && run(k).started && !Doomed(run(k), timeout)
    requires run(k).wrapper.TrapExit? || run(k).wrapper.TrapSignals?
    requires forall i: nat :: !run(i).wrapper.Killed?
    ensures k <= m && (if run(k).wrapper.TrapSignals? then run(m).wrapper.Running?
                       else run(m).wrapper.TrapSignals? || run(m).wrapper.Running?)
  {
    assert WrapperResumes(run, timeout, k);
    var i: nat :| k <= i && WrapperAt(run, timeout, i);
    m := FirstMove(run, timeout, k, i);
  }

  lemma {:induction false} FirstMove(run: nat -> State, timeout: nat, k: nat, i: nat) returns (m: nat)
    requires IsRun(run, timeout) && k <= i && WrapperAt(run, timeout, i) && run(k).started && !Doomed(run(k), timeout)
    requires run(k).wrapper.TrapExit? || run(k).wrapper.TrapSignals?
    requires forall i: nat :: !run(i).wrapper.Killed?
    ensures k <= m && (if run(k).wrapper.TrapSignals? then run(m).wrapper.Running? else run(m).wrapper.TrapSignals?)
    decreases i - k
  {
    RunInv(run, timeout, k);
    assert Moves(run, timeout, k);
    assert !run(k + 1).wrapper.Killed?;
    if run(k + 1).wrapper != run(k).wrapper {
      m := k + 1;
    } else {
      StartedInTime(run, timeout, k, k);
      RunKeeps(run, timeout, k, k + 1);
      m := FirstMove(run, timeout, k + 1, i);
    }
  }

  /** A wrapper that can make its mark does so, unless the toolbox gives up before. */
  lemma MarkIsMade(run: nat -> State, timeout: nat) returns (j: nat)
    requires IsRun(run, timeout) && FairWrapper(run, timeout)
    requires forall i: nat :: !run(i).wrapper.Killed?
    ensures run(j).started || run(j).loop.Exited?
  {
    assert WrapperResumes(run, timeout, 0);
    var i: nat :| WrapperAt(run, timeout, i);
    RunInv(run, timeout, i);
    assert !run(i + 1).wrapper.Killed?;
    j := if run(i).started || run(i).loop.Exited? then i else i + 1;
  }

  /** The traps run, and the done mark is made, only after the command has been run. */
  lemma {:induction false} LeavesAfterCommand(run: nat -> State, timeout: nat, i: nat) returns (j: nat)
    requires IsRun(run, timeout) && (run(i).wrapper.Leaving? || run(i).done)
    ensures j < i && run(j).wrapper.Running?
  {
    RunInv(run, timeout, i);
    if i > 0 {
      assert Moves(run, timeout, i - 1);
      if run(i - 1).wrapper.Running? {
        j := i - 1;
      } else {
        RunInv(run, timeout, i - 1);
        j := LeavesAfterCommand(run, timeout, i - 1);
      }
    }
  }

  // ------------------------------------------------------------------- the race

  // The mark appears between the loop's last look and its giving up.
  function Late(timeout: nat, j: nat): State {
    var q := j / 4;
    if j > 4 * timeout + 3 then State(Exited(1), timeout, TrapExit, true, false)
    else if j == 4 * timeout + 3 then State(Limit(timeout + 1), timeout, TrapExit, true, false)
    else if j % 4 == 0 then State(Head(q), q, Marking, false, false)
    else if j % 4 == 1 then State(Counting(q), q, Marking, false, false)
    else if j % 4 == 2 then State(Limit(q + 1), q, Marking, false, false)
    else State(Asleep(q + 1), q, Marking, false, false)
  }

  lemma LateStep(timeout: nat, j: nat)
    ensures Late(timeout, j + 1) == Late(timeout, j) || Next(Late(timeout, j), Late(timeout, j + 1), timeout)
  {
    var s, s' := Late(timeout, j), Late(timeout, j + 1);
    if j == 4 * timeout + 2 {
      assert j / 4 == timeout && j % 4 == 2;
      assert s' == After(s, WrapperStep, timeout);
    } else if j <= 4 * timeout + 3 {
      assert s' == After(s, LoopStep, timeout);
    }
  }

  /** For every limit some run loses its command that way: the mark was made, but late. */
  lemma MarkCanBeLate(timeout: nat)
    ensures exists run: nat -> State, j: nat ::
              IsRun(run, timeout) && run(j).started && !run(j).loop.Exited? && run(j + 1).loop == Exited(1)
  {
    var run := (j: nat) => Late(timeout, j);
    forall i: nat
      ensures Moves(run, timeout, i)
    {
      LateStep(timeout, i);
    }
    assert IsRun(run, timeout);
    var j := 4 * timeout + 3;
    assert run(j).started && !run(j).loop.Exited? && run(j + 1).loop == Exited(1);
  }
}
