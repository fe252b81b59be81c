/**
 How runs of a capture come out: an error at the end has a cause, and exactly from which
 states a run can hang because its producer never ends.
 */
module PipelineOutcomes {
  import opened Bytes
  import opened Pipeline

  // ------------------------------------------------------------- no false errors

  // A step that is or finds an error.
  predicate IsFault(a: Step) {
    a == ExecFails || a == RStops(Faulty) || a == SReturns(false)
  }

  // Nobody has come upon an error, nor thinks so.
  predicate NoError(s: State) {
    && (!s.exec.Sending? ==> s.exec.ok)
    && (s.redactor.RClosing? || s.redactor.RReporting? || s.redactor.REnded? ==> !s.redactor.result.Faulty?)
    && (StoreDone(s) ==> s.main.ok)
  }

  lemma NoErrorStep(s: State, a: Step)
    requires NoError(s) && Inv(s) && Enabled(s, a) && !IsFault(a)
    ensures NoError(After(s, a))
  {
  }

  lemma RunInv(run: nat -> State, i: nat)
    requires IsRun(run)
    ensures Inv(run(i))
  {
    RunKeeps(run, i);
  }

  // What happens from i to i + 1 is no fault.
  ghost predicate GoesWell(run: nat -> State, i: nat) {
    || (run(i + 1) == run(i) && AtRest(run(i)))
    || exists a :: Enabled(run(i), a) && run(i + 1) == After(run(i), a) && !IsFault(a)
  }

  ghost predicate AllGoesWell(run: nat -> State) {
    forall j: nat :: GoesWell(run, j)
  }

  lemma {:induction false} StaysWell(run: nat -> State, i: nat)
    requires IsRun(run) && AllGoesWell(run)
    ensures NoError(run(i))
  {
    if i > 0 {
      StaysWell(run, i - 1);
      RunInv(run, i - 1);
      assert GoesWell(run, i - 1);
      if run(i) != run(i - 1) {
        var a :| Enabled(run(i - 1), a) && run(i) == After(run(i - 1), a) && !IsFault(a);
        NoErrorStep(run(i - 1), a);
      }
    }
  }

  /** No error is made up: if the command does not fail, the redactor finds nothing wrong and
      the store succeeds, a run whose producer ends is over without an error, with the whole
      stream read. */
  lemma NoFaultNoError(run: nat -> State) returns (i: nat)
    requires IsRun(run) && Bounded(run(0)) && AllGoesWell(run)
    ensures AllDone(run(i)) && run(i).main == Finished(true) && run(i).exec == Ended(true)
    ensures run(i).taken == run(i).sent && run(0).job.final(run(i).kept)
  {
    i := FinishesFrom(run, 0);
    StaysWell(run, i);
    DoneWithoutError(run, i);
  }

  /** An error of the redactor is an error of the whole, whatever the store says. */
  lemma RedactorErrorKept(run: nat -> State, i: nat)
    requires IsRun(run) && RedactorIn(run(i)) && run(i).redactor == REnded(Faulty)
    ensures !run(i).main.ok
  {
    RunKeeps(run, i);
  }

  // ------------------------------------------------------------- hanging

  // A step that keeps a capture hanging.
  function HangStep(s: State): (a: Step)
    requires Inv(s) && CanHang(s)
    ensures Enabled(s, a) && Inv(After(s, a)) && CanHang(After(s, a))
  {
    var size := |s.exec.offer|;
    match s.main
    case Returned(_) => Proceeds(0)
    case Draining(_) => if size == 0 then Offer([0]) else Drains(size)
    case Stored(_) =>
      if ReadsOn(s.redactor) then ReadingStep(s) else ClosesReader
    case AwaitRedactor(_) =>
      if ReadsOn(s.redactor) then ReadingStep(s)
      else match s.redactor
        case Thinking(_) => RStops(Fine)
        case Reading(_) => if size == 0 then Offer([0]) else RReads(size, 0)
        case Writing(_, _) => RBroken
        case RClosing(_) => RCloses
        case RReporting(_) => RReports
        case REnded(_) => GetsRedactor
  }

  // A step of a redactor that reads an endless stream.
  function ReadingStep(s: State): (a: Step)
    requires s.exec.Sending? && s.exec.writes.Endless? && ReadsOn(s.redactor)
    ensures Enabled(s, a) && After(s, a).main == s.main
    ensures var s' := After(s, a); s'.exec.Sending? && s'.exec.writes.Endless? && ReadsOn(s'.redactor)
  {
    if s.redactor.Thinking? then RAsks
    else if s.exec.offer == [] then Offer([0])
    else RReads(|s.exec.offer|, 0)
  }

  function Hang(s: State, n: nat): (s': State)
    requires Inv(s) && CanHang(s)
    ensures Inv(s') && CanHang(s')
  {
    if n == 0 then s else
      var t := Hang(s, n - 1);
      After(t, HangStep(t))
  }

  lemma HangGoesOn(s: State, n: nat)
    requires Inv(s) && CanHang(s)
    ensures Next(Hang(s, n), Hang(s, n + 1)) && !Hang(s, n).main.Finished?
  {
    var t := Hang(s, n);
    assert Hang(s, n + 1) == After(t, HangStep(t));
  }

  // The run up to k, and then one that hangs.
  function HangAt(run: nat -> State, k: nat, j: nat): State
    requires Inv(run(k)) && CanHang(run(k))
  {
    if j <= k then run(j) else Hang(run(k), j - k)
  }

  ghost predicate IsHanging(run: nat -> State, k: nat, r: nat -> State)
    requires Inv(run(k)) && CanHang(run(k))
  {
    forall j: nat :: r(j) == HangAt(run, k, j)
  }

  lemma HangAtGoes(run: nat -> State, k: nat, j: nat)
    requires IsRun(run) && Inv(run(k)) && CanHang(run(k))
    ensures GoesTo(HangAt(run, k, j), HangAt(run, k, j + 1))
    ensures !HangAt(run, k, j).main.Finished?
  {
    if j < k {
      assert Goes(run, j);
      if run(j).main.Finished? {
        FinishedStays(run, j, k);
      }
    } else {
      HangGoesOn(run(k), j - k);
    }
  }

  // What has finished stays finished.
  lemma {:induction false} FinishedStays(run: nat -> State, i: nat, k: nat)
    requires IsRun(run) && i <= k && run(i).main.Finished?
    ensures run(k).main.Finished?
    decreases k
  {
    if i < k {
      FinishedStays(run, i, k - 1);
      assert Goes(run, k - 1);
    }
  }

  lemma HangingGoes(run: nat -> State, k: nat, r: nat -> State, j: nat)
    requires IsRun(run) && Inv(run(k)) && CanHang(run(k))
    requires IsHanging(run, k, r)
    ensures Goes(r, j) && !r(j).main.Finished?
  {
    HangAtGoes(run, k, j);
    assert r(j + 1) == HangAt(run, k, j + 1);
  }

  /** Every run can go on from a state that can hang in such a way that it never ends. */
  lemma HangsFrom(run: nat -> State, k: nat) returns (r: nat -> State)
    requires IsRun(run) && CanHang(run(k))
    ensures IsRun(r) && r(k) == run(k) && r(0) == run(0)
    ensures forall i: nat :: !r(i).main.Finished?
  {
    RunKeeps(run, k);
    r := (j: nat) => HangAt(run, k, j);
    forall j: nat
      ensures Goes(r, j) && !r(j).main.Finished?
    {
      HangingGoes(run, k, r, j);
    }
    assert r(0) == run(0) && Start(run(0));
  }

  lemma FinishesOrHangs(s: State)
    requires Inv(s) && StoreDone(s) && !CanHang(s)
    ensures Bounded(s) || Failing(s)
  {
  }

  /** Once the store is done, whether with or without an error: all ways in which the run
      can go on end, with everything finished and both results received, if and only if
      the state is not one that can hang. */
  lemma EndsIff(run: nat -> State, k: nat)
    requires IsRun(run) && StoreDone(run(k))
    ensures (forall r: nat -> State :: IsRun(r) && r(k) == run(k) ==> exists i: nat :: AllDone(r(i))) <==>
            !CanHang(run(k))
  {
    if CanHang(run(k)) {
      var r := HangsFrom(run, k);
      assert IsRun(r) && r(k) == run(k) && forall i: nat :: !AllDone(r(i));
    } else {
      forall r: nat -> State | IsRun(r) && r(k) == run(k)
        ensures exists i: nat :: AllDone(r(i))
      {
        EndsFrom(r, k);
      }
    }
  }

  lemma EndsFrom(run: nat -> State, k: nat)
    requires IsRun(run) && StoreDone(run(k)) && !CanHang(run(k))
    ensures exists i: nat :: AllDone(run(i))
  {
    RunKeeps(run, k);
    FinishesOrHangs(run(k));
    var i;
    if Bounded(run(k)) {
      i := FinishesFrom(run, k);
    } else {
      i := FallsFrom(run, k);
    }
    NeverStuck(run, i);
  }

  // The store fails at once, and what follows hangs.
  function Hanging(s: State, failed: State, j: nat): State
    requires Inv(failed) && CanHang(failed)
  {
    if j == 0 then s else Hang(failed, j - 1)
  }

  lemma FailedHanging(s: State, failed: State, j: nat)
    requires Inv(failed) && CanHang(failed) && Next(s, failed) && !s.main.Finished?
    ensures GoesTo(Hanging(s, failed, j), Hanging(s, failed, j + 1)) && !Hanging(s, failed, j).main.Finished?
  {
    if j == 0 {
      assert Hang(failed, 0) == failed;
    } else {
      HangGoesOn(failed, j - 1);
      assert Hanging(s, failed, j + 1) == Hang(failed, j);
    }
  }

  lemma FailedHangingRun(s: State, failed: State) returns (run: nat -> State)
    requires Start(s) && Inv(failed) && CanHang(failed) && Next(s, failed)
    ensures IsRun(run) && run(0) == s && run(1) == failed && forall i: nat :: !run(i).main.Finished?
  {
    run := (j: nat) => Hanging(s, failed, j);
    forall j: nat
      ensures Goes(run, j) && !run(j).main.Finished?
    {
      FailedHanging(s, failed, j);
    }
  }

  /** There are such runs: the producer is cancelled only after the redactor has finished,
      so one that drains an endless stream after the store has failed is never stopped. */
  lemma EndlessDrainHangs(job: Job)
    ensures exists run: nat -> State ::
              IsRun(run) && run(1).main == Stored(false) && run(0).job == job && forall i: nat :: !run(i).main.Finished?
  {
    var s := State(job, Sending(Endless, []), Thinking(Plan(true, 0, Endless)), Storing, More, [], [], [], []);
    var failed := s.(main := Stored(false));
    assert failed == After(s, SReturns(false));
    var run := FailedHangingRun(s, failed);
  }
}
