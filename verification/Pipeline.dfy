/**
 The goroutines of a capture. The exec goroutine writes the remote output into one
 synchronous pipe; with redaction a second goroutine reads it, rewrites it and writes
 into a second pipe; the main flow stores what comes out, closes its end, waits for the
 redactor, cancels the exec goroutine if there was an error, drains the first pipe and
 waits for the exec goroutine. A pipe has no buffer: a write waits until readers have
 taken all of it or the reader is gone; a read waits for a write or for the writer to close.

 What is proved: no reachable state is stuck; every run, however interleaved, of a
 producer that ends by itself or is cancelled after an error ends with both goroutines
 finished and both of their results received; and no bytes are lost or reordered, nor is
 an unfinished stream taken for a finished one.
 */
module Pipeline {
  import opened Bytes

  /** How often something may still happen. */
  datatype Supply = AtMost(n: nat) | Endless {
    predicate More() {
      this != AtMost(0)
    }

    function Less(): Supply
      requires More()
    {
      if Endless? then this else AtMost(n - 1)
    }

    function Cut(k: nat): Supply {
      if AtMost? && n <= k then this else AtMost(k)
    }
  }

  /** The exec goroutine: the number of writes it will make, and what is left of the one
      at hand. */
  datatype Exec =
    | Sending(writes: Supply, offer: bytes)
    | Closing(ok: bool)    // the stream is over
    | Reporting(ok: bool)  // the pipe is closed, with the error if there is one
    | Ended(ok: bool)      // the result is in its channel

  /** What the redactor may still do: whether it has yet to see its input end, how many
      bytes it may write before it reads more, how often it may read before it writes. */
  datatype Plan = Plan(more: bool, credit: nat, asks: Supply)

  // PipeClosed is the error of writing to a pipe whose reader is gone.
  datatype Result = Fine | Faulty | PipeClosed

  datatype Redactor =
    | Absent
    | Thinking(plan: Plan)
    | Reading(plan: Plan)
    | Writing(plan: Plan, part: bytes)
    | RClosing(result: Result)
    | RReporting(result: Result)
    | REnded(result: Result)

  /** The main flow; `ok` says whether storing went without an error. */
  datatype Main =
    | Storing                  // between reads of the store
    | StoreReading
    | Stored(ok: bool)         // the store is done
    | AwaitRedactor(ok: bool)  // its end of the second pipe is closed
    | Returned(ok: bool)       // the redactor's result is in
    | Draining(ok: bool)       // cancelled if not ok
    | AwaitExec(ok: bool)
    | Finished(ok: bool)

  // What the store knows of its input: it may go on, it ended, or it failed.
  datatype Heard = More | Clean | Failed

  /** The store succeeds only on input that is `final`; what the redactor writes keeps to
      `lawful`. */
  datatype Job = Job(final: bytes -> bool, lawful: bytes -> bool)

  /** `sent` is what the producer has written or is writing and `taken` what was read of
      it; `made` and `kept` are the same for the redactor and the store. */
  datatype State = State(job: Job, exec: Exec, redactor: Redactor, main: Main, heard: Heard,
                         sent: bytes, taken: bytes, made: bytes, kept: bytes)

  datatype Step =
    | Offer(p: bytes) | ExecDone | ExecFails | ExecCloses | ExecReports
    | RReads(n: nat, grant: nat) | REof | RAsks | RWrites(p: bytes, asks: Supply)
    | RStops(result: Result) | RBroken | RCloses | RReports
    | SAsks | SReadsRaw(n: nat) | SReadsRedacted(n: nat) | SEof | SReturns(ok: bool)
    | ClosesReader | GetsRedactor | Proceeds(grace: nat) | Drains(n: nat) | DrainEof | GetsExec

  // The writer of the first pipe has closed it; likewise the second.
  predicate RawEof(s: State) {
    s.exec.Reporting? || s.exec.Ended?
  }

  predicate RedactedEof(s: State) {
    s.redactor.RReporting? || s.redactor.REnded?
  }

  // The store reads no more.
  predicate StoreDone(s: State) {
    !s.main.Storing? && !s.main.StoreReading?
  }

  // The reader of the second pipe is gone.
  predicate ReaderGone(s: State) {
    StoreDone(s) && !s.main.Stored?
  }

  predicate RawOffered(s: State, n: nat) {
    s.exec.Sending? && 0 < n <= |s.exec.offer|
  }

  predicate Enabled(s: State, a: Step) {
    match a
    case Offer(p) => s.exec.Sending? && s.exec.offer == [] && p != [] && s.exec.writes.More()
    case ExecDone => s.exec.Sending? && s.exec.offer == [] && !s.exec.writes.More()
    case ExecFails => s.exec.Sending?
    case ExecCloses => s.exec.Closing?
    case ExecReports => s.exec.Reporting?
    case RAsks => s.redactor.Thinking? && s.redactor.plan.more && s.redactor.plan.asks.More()
    case RReads(n, _) => s.redactor.Reading? && s.redactor.plan.asks.More() && RawOffered(s, n)
    case REof => s.redactor.Reading? && RawEof(s)
    case RWrites(p, _) => s.redactor.Thinking? && 0 < |p| <= s.redactor.plan.credit && s.job.lawful(s.made + p)
    case RStops(result) => s.redactor.Thinking? && !result.PipeClosed?
    case RBroken => s.redactor.Writing? && ReaderGone(s)
    case RCloses => s.redactor.RClosing?
    case RReports => s.redactor.RReporting?
    case SAsks => s.main.Storing? && s.heard.More?
    case SReadsRaw(n) => s.main.StoreReading? && s.redactor.Absent? && RawOffered(s, n)
    case SReadsRedacted(n) => s.main.StoreReading? && s.redactor.Writing? && 0 < n <= |s.redactor.part|
    case SEof => s.main.StoreReading? && (if s.redactor.Absent? then RawEof(s) else RedactedEof(s))
    case SReturns(ok) => s.main.Storing? && (ok ==> s.job.final(s.kept))
    case ClosesReader => s.main.Stored?
    case GetsRedactor => s.main.AwaitRedactor? && s.redactor.REnded?
    case Proceeds(_) => s.main.Returned?
    case Drains(n) => s.main.Draining? && RawOffered(s, n)
    case DrainEof => s.main.Draining? && RawEof(s)
    case GetsExec => s.main.AwaitExec? && s.exec.Ended?
  }

  // A reader takes n bytes from the first pipe.
  function Take(s: State, n: nat): State
    requires RawOffered(s, n)
  {
    s.(exec := Sending(s.exec.writes, s.exec.offer[n..]), taken := s.taken + s.exec.offer[..n])
  }

  // The exec goroutine learns that it is cancelled, after up to `grace` more writes.
  function Cancelled(e: Exec, grace: nat): Exec {
    if e.Sending? then Sending(e.writes.Cut(grace), e.offer) else e
  }

  function After(s: State, a: Step): State
    requires Enabled(s, a)
  {
    match a
    case Offer(p) => s.(exec := Sending(s.exec.writes.Less(), p), sent := s.sent + p)
    case ExecDone => s.(exec := Closing(true))
    case ExecFails => s.(exec := Closing(false))
    case ExecCloses => s.(exec := Reporting(s.exec.ok))
    case ExecReports => s.(exec := Ended(s.exec.ok))
    case RAsks => s.(redactor := Reading(s.redactor.plan))
    case RReads(n, grant) =>
      var plan := s.redactor.plan;
      Take(s, n).(redactor := Thinking(Plan(true, plan.credit + grant, plan.asks.Less())))
    case REof => s.(redactor := Thinking(Plan(false, s.redactor.plan.credit, s.redactor.plan.asks)))
    case RWrites(p, asks) =>
      var plan := s.redactor.plan;
      s.(redactor := Writing(Plan(plan.more, plan.credit - |p|, asks), p), made := s.made + p)
    case RStops(result) => s.(redactor := RClosing(result))
    case RBroken => s.(redactor := RClosing(PipeClosed))
    case RCloses => s.(redactor := RReporting(s.redactor.result))
    case RReports => s.(redactor := REnded(s.redactor.result))
    case SAsks => s.(main := StoreReading)
    case SReadsRaw(n) => Take(s, n).(main := Storing, kept := s.kept + s.exec.offer[..n])
    case SReadsRedacted(n) =>
      s.(redactor := if n == |s.redactor.part| then Thinking(s.redactor.plan)
                     else Writing(s.redactor.plan, s.redactor.part[n..]),
         main := Storing, kept := s.kept + s.redactor.part[..n])
    case SEof =>
      var ok := if s.redactor.Absent? then s.exec.ok else s.redactor.result.Fine?;
      s.(main := Storing, heard := if ok then Clean else Failed)
    case SReturns(ok) => s.(main := Stored(ok))
    case ClosesReader => s.(main := if s.redactor.Absent? then Returned(s.main.ok) else AwaitRedactor(s.main.ok))
    case GetsRedactor => s.(main := Returned(s.main.ok && !s.redactor.result.Faulty?))
    case Proceeds(grace) =>
      s.(exec := if s.main.ok then s.exec else Cancelled(s.exec, grace), main := Draining(s.main.ok))
    case Drains(n) => Take(s, n)
    case DrainEof => s.(main := AwaitExec(s.main.ok))
    case GetsExec => s.(main := Finished(s.main.ok))
  }

  ghost predicate Next(s: State, s': State) {
    exists a :: Enabled(s, a) && s' == After(s, a)
  }

  predicate Start(s: State) {
    && s.exec.Sending? && s.exec.offer == []
    && (s.redactor.Absent? || s.redactor.Thinking?)
    && s.main.Storing? && s.heard.More?
    && s.sent == [] && s.taken == [] && s.made == [] && s.kept == []
  }

  // The main flow has the redactor's result.
  predicate RedactorIn(s: State) {
    s.main.Returned? || s.main.Draining? || s.main.AwaitExec? || s.main.Finished?
  }

  predicate Inv(s: State) {
    && (RedactorIn(s) ==> s.redactor.Absent? || s.redactor.REnded?)
    && (RedactorIn(s) && s.redactor == REnded(Faulty) ==> !s.main.ok)
    && (s.main.AwaitRedactor? ==> !s.redactor.Absent?)
    && (s.main.AwaitExec? ==> RawEof(s))
    && (s.main.Finished? ==> s.exec.Ended?)
    && (s.redactor.Writing? ==> s.redactor.part != [])
    && (s.redactor.Reading? ==> s.redactor.plan.asks.More())
  }

  lemma InvStep(s: State, a: Step)
    requires Inv(s) && Enabled(s, a)
    ensures Inv(After(s, a)) && After(s, a).job == s.job
  {
  }

  // ---------------------------------------------------------------- the two flows

  /** The first pipe: what was taken and is offered makes up what was sent, and of a
      producer that ends without error all was taken. */
  predicate RawFlow(s: State) {
    match s.exec
    case Sending(_, offer) => s.taken + offer == s.sent
    case _ => s.taken <= s.sent && (s.exec.ok ==> s.taken == s.sent)
  }

  // The first pipe when the store reads it.
  predicate StoreFlow(s: State) {
    s.redactor.Absent? ==>
      && s.kept <= s.taken
      && (!StoreDone(s) ==> s.kept == s.taken)
      && (s.heard.Clean? ==> RawEof(s) && s.exec.ok && s.kept == s.taken)
  }

  // The second pipe.
  predicate RedactedFlow(s: State) {
    !s.redactor.Absent? ==>
      && s.kept <= s.made
      && (s.redactor.Writing? && !ReaderGone(s) ==> s.kept + s.redactor.part == s.made)
      && (!s.redactor.Writing? && !ReaderGone(s) ==> s.kept == s.made)
      && (s.heard.Clean? ==> RedactedEof(s) && s.redactor.result.Fine? && s.kept == s.made)
  }

  /** What was written and stored is what the redactor and the store hold to be right. */
  predicate Honest(s: State) {
    && (s.made != [] ==> s.job.lawful(s.made))
    && (StoreDone(s) && s.main.ok ==> s.job.final(s.kept))
  }

  lemma RawFlowStep(s: State, a: Step)
    requires RawFlow(s) && Enabled(s, a)
    ensures RawFlow(After(s, a))
  {
  }

  lemma StoreFlowStep(s: State, a: Step)
    requires StoreFlow(s) && Inv(s) && Enabled(s, a)
    ensures StoreFlow(After(s, a))
  {
  }

  lemma RedactedFlowStep(s: State, a: Step)
    requires RedactedFlow(s) && Inv(s) && Enabled(s, a)
    ensures RedactedFlow(After(s, a))
  {
  }

  lemma HonestStep(s: State, a: Step)
    requires Honest(s) && Enabled(s, a)
    ensures Honest(After(s, a))
  {
  }

  // ------------------------------------------------------------------- progress

  // A step of the exec goroutine that needs no reader and is not a failure.
  function ExecMoves(s: State): (a: Step)
    requires !(s.exec.Sending? && s.exec.offer != []) && !s.exec.Ended?
    ensures Enabled(s, a) && a != ExecFails
  {
    match s.exec
    case Sending(writes, _) => if writes.More() then Offer([0]) else ExecDone
    case Closing(_) => ExecCloses
    case Reporting(_) => ExecReports
  }

  // The redactor can always be moved on, if need be by the exec goroutine.
  function RedactorMoves(s: State): (a: Step)
    requires !s.redactor.Absent? && !s.redactor.REnded? && (s.redactor.Writing? ==> ReaderGone(s))
    requires s.redactor.Reading? ==> s.redactor.plan.asks.More()
    ensures Enabled(s, a) && a != ExecFails
  {
    match s.redactor
    case Thinking(_) => RStops(Fine)
    case Reading(_) =>
      if s.exec.Sending? && s.exec.offer != [] then RReads(|s.exec.offer|, 0)
      else if RawEof(s) then REof
      else ExecMoves(s)
    case Writing(_, _) => RBroken
    case RClosing(_) => RCloses
    case RReporting(_) => RReports
  }

  // What can happen next in a state that is not final, without a failure of the producer.
  function Moves(s: State): (a: Step)
    requires Inv(s) && !s.main.Finished?
    ensures Enabled(s, a) && a != ExecFails
  {
    match s.main
    case Storing => SReturns(false)
    case StoreReading =>
      if s.redactor.Absent? then
        if s.exec.Sending? && s.exec.offer != [] then SReadsRaw(|s.exec.offer|)
        else if RawEof(s) then SEof
        else ExecMoves(s)
      else if RedactedEof(s) then SEof
      else if s.redactor.Writing? then SReadsRedacted(|s.redactor.part|)
      else RedactorMoves(s)
    case Stored(_) => ClosesReader
    case AwaitRedactor(_) => if s.redactor.REnded? then GetsRedactor else RedactorMoves(s)
    case Returned(_) => Proceeds(0)
    case Draining(_) =>
      if s.exec.Sending? && s.exec.offer != [] then Drains(|s.exec.offer|)
      else if RawEof(s) then DrainEof
      else ExecMoves(s)
    case AwaitExec(_) => if s.exec.Ended? then GetsExec else ExecMoves(s)
  }

  // ---------------------------------------------------------------- termination

  // The writes to come, as far as they are bounded.
  function WritesRank(e: Exec): nat {
    match e
    case Sending(AtMost(n), _) => n + 5
    case Sending(Endless, _) => 4
    case Closing(_) => 3
    case Reporting(_) => 2
    case Ended(_) => 1
  }

  function OfferRank(e: Exec): nat {
    match e
    case Sending(AtMost(_), offer) => |offer|
    case Sending(Endless, offer) => if offer == [] then 1 else 0
    case _ => 0
  }

  function MainRank(m: Main, heard: Heard): nat {
    match m
    case Storing => if heard.More? then 8 else 6
    case StoreReading => 7
    case Stored(_) => 5
    case AwaitRedactor(_) => 4
    case Returned(_) => 3
    case Draining(_) => 2
    case AwaitExec(_) => 1
    case Finished(_) => 0
  }

  // By what the redactor may still write.
  function CreditRank(r: Redactor): nat {
    match r
    case Thinking(plan) => 2 * plan.credit + 4 + if plan.more then 2 else 0
    case Reading(plan) => 2 * plan.credit + 5
    case Writing(plan, part) => 2 * plan.credit + |part| + 4 + if plan.more then 2 else 0
    case RClosing(_) => 2
    case RReporting(_) => 1
    case _ => 0
  }

  /** A producer that ends by itself. */
  predicate Bounded(s: State) {
    s.exec.Sending? ==> s.exec.writes.AtMost?
  }

  /** Every step uses up something: writes of the producer, work of the redactor, or a
      stage of the main flow. */
  predicate Descends(s: State, s': State) {
    var w, w' := WritesRank(s.exec), WritesRank(s'.exec);
    var o, o' := OfferRank(s.exec), OfferRank(s'.exec);
    var r, r' := CreditRank(s.redactor), CreditRank(s'.redactor);
    w' < w || (w' == w && (o' < o || (o' == o && (r' < r || (r' == r &&
      MainRank(s'.main, s'.heard) < MainRank(s.main, s.heard))))))
  }

  lemma StepDescends(s: State, a: Step)
    requires Inv(s) && Bounded(s) && Enabled(s, a)
    ensures Bounded(After(s, a)) && Descends(s, After(s, a))
  {
  }

  // -------------------------------------------- termination after an error

  // The stage the redactor is in.
  function StageRank(r: Redactor): nat {
    match r
    case Thinking(_) => 4
    case Reading(_) => 4
    case Writing(_, _) => 3
    case RClosing(_) => 2
    case RReporting(_) => 1
    case _ => 0
  }

  function ReadsRank(r: Redactor): nat {
    if (r.Thinking? || r.Reading?) && r.plan.asks.AtMost? then r.plan.asks.n else 0
  }

  function AskRank(r: Redactor): nat {
    match r
    case Thinking(plan) => if plan.more then 2 else 0
    case Reading(_) => 1
    case _ => 0
  }

  /** The redactor may go on reading for ever without writing anything. */
  predicate ReadsOn(r: Redactor) {
    (r.Reading? && r.plan.asks.Endless?) || (r.Thinking? && r.plan.more && r.plan.asks.Endless?)
  }

  // The redactor has found an error of its own.
  predicate Faulted(r: Redactor) {
    (r.RClosing? || r.RReporting? || r.REnded?) && r.result.Faulty?
  }

  /** After the store is done, a capture can hang: its producer never ends, and either the
      redactor may read it for ever, or nothing has failed and so nothing is cancelled. */
  predicate CanHang(s: State) {
    && s.exec.Sending? && s.exec.writes.Endless?
    && match s.main
       case Stored(ok) => ReadsOn(s.redactor) || (ok && !Faulted(s.redactor))
       case AwaitRedactor(ok) => ReadsOn(s.redactor) || (ok && !Faulted(s.redactor))
       case Returned(ok) => ok
       case Draining(_) => true
       case _ => false
  }

  /** Storing has failed, or will be found to have, or what comes after it is bounded. */
  predicate Failing(s: State) {
    match s.main
    case Storing => false
    case StoreReading => false
    case Stored(ok) => !ReadsOn(s.redactor) && (!ok || Faulted(s.redactor))
    case AwaitRedactor(ok) => !ReadsOn(s.redactor) && (!ok || Faulted(s.redactor))
    case Returned(ok) => !ok
    case _ => Bounded(s)
  }

  /** Every step of a failing capture uses up a stage of the main flow, work of the
      redactor, or what the producer can do without a reader. */
  predicate Falls(s: State, s': State) {
    var m, m' := MainRank(s.main, s.heard), MainRank(s'.main, s'.heard);
    var g, g' := StageRank(s.redactor), StageRank(s'.redactor);
    var n, n' := ReadsRank(s.redactor), ReadsRank(s'.redactor);
    var q, q' := AskRank(s.redactor), AskRank(s'.redactor);
    var w, w' := WritesRank(s.exec), WritesRank(s'.exec);
    m' < m || (m' == m && (g' < g || (g' == g && (n' < n || (n' == n && (q' < q || (q' == q && (w' < w || (w' == w &&
      OfferRank(s'.exec) < OfferRank(s.exec))))))))))
  }

  lemma StepFalls(s: State, a: Step)
    requires Inv(s) && Failing(s) && Enabled(s, a)
    ensures Failing(After(s, a)) && Falls(s, After(s, a))
  {
  }

  // ---------------------------------------------------------------- whole runs

  ghost predicate AllDone(s: State) {
    s.main.Finished? && s.exec.Ended? && (s.redactor.Absent? || s.redactor.REnded?)
  }

  // No step is possible.
  ghost predicate AtRest(s: State) {
    forall a :: !Enabled(s, a)
  }

  // Some step is possible, not counting a failure of the producer.
  ghost predicate CanMove(s: State) {
    exists a :: Enabled(s, a) && a != ExecFails
  }

  /** A run takes some step wherever it can, in any order, and stays put at the end. */
  ghost predicate IsRun(run: nat -> State) {
    Start(run(0)) && forall i: nat :: Goes(run, i)
  }

  ghost predicate Goes(run: nat -> State, i: nat) {
    GoesTo(run(i), run(i + 1))
  }

  ghost predicate GoesTo(s: State, s': State) {
    Next(s, s') || (s' == s && AtRest(s))
  }

  lemma {:induction false} RunKeeps(run: nat -> State, i: nat)
    requires IsRun(run)
    ensures Inv(run(i)) && run(i).job == run(0).job
    ensures RawFlow(run(i)) && StoreFlow(run(i)) && RedactedFlow(run(i)) && Honest(run(i))
  {
    if i > 0 {
      var s := run(i - 1);
      RunKeeps(run, i - 1);
      assert Goes(run, i - 1);
      if Next(s, run(i)) {
        var a :| Enabled(s, a) && run(i) == After(s, a);
        InvStep(s, a);
        RawFlowStep(s, a);
        StoreFlowStep(s, a);
        RedactedFlowStep(s, a);
        HonestStep(s, a);
      }
    }
  }

  /** Deadlock freedom: wherever the main flow has not finished, some step other than a
      failure of the producer is possible; where it has, both goroutines have finished. */
  lemma NeverStuck(run: nat -> State, i: nat)
    requires IsRun(run)
    ensures if run(i).main.Finished? then AllDone(run(i)) else CanMove(run(i))
  {
    RunKeeps(run, i);
    if !run(i).main.Finished? {
      var a := Moves(run(i));
    }
  }

  // The step a run takes where it has not finished.
  lemma StepTaken(run: nat -> State, i: nat) returns (a: Step)
    requires IsRun(run) && !run(i).main.Finished?
    ensures Inv(run(i)) && Enabled(run(i), a) && run(i + 1) == After(run(i), a)
  {
    NeverStuck(run, i);
    RunKeeps(run, i);
    assert Goes(run, i);
    a :| Enabled(run(i), a) && run(i + 1) == After(run(i), a);
  }

  /** Every run ends, with everything finished and both results received, if the producer
      makes only so many writes. */
  lemma EveryRunFinishes(run: nat -> State)
    requires IsRun(run) && Bounded(run(0))
    ensures exists i: nat :: AllDone(run(i))
  {
    var i := FinishesFrom(run, 0);
    NeverStuck(run, i);
  }

  lemma {:induction false} FinishesFrom(run: nat -> State, i: nat) returns (j: nat)
    requires IsRun(run) && Bounded(run(i))
    ensures run(j).main.Finished?
    decreases WritesRank(run(i).exec), OfferRank(run(i).exec), CreditRank(run(i).redactor),
              MainRank(run(i).main, run(i).heard)
  {
    if run(i).main.Finished? {
      j := i;
    } else {
      var a := StepTaken(run, i);
      StepDescends(run(i), a);
      j := FinishesFrom(run, i + 1);
    }
  }

  /** However much the producer would still write, a run whose store has failed ends: the
      producer is cancelled. With a redactor this needs one that does not go on reading
      for ever without writing. */
  lemma FailedStoreFinishes(run: nat -> State, k: nat)
    requires IsRun(run) && run(k).main == Stored(false) && !ReadsOn(run(k).redactor)
    ensures exists i: nat :: AllDone(run(i))
  {
    var i := FallsFrom(run, k);
    NeverStuck(run, i);
  }

  /** The same after an error of either, once the redactor has finished. */
  lemma FailedPutFinishes(run: nat -> State, k: nat)
    requires IsRun(run) && run(k).main == Returned(false)
    ensures exists i: nat :: AllDone(run(i))
  {
    var i := FallsFrom(run, k);
    NeverStuck(run, i);
  }

  lemma {:induction false} FallsFrom(run: nat -> State, i: nat) returns (j: nat)
    requires IsRun(run) && Failing(run(i))
    ensures run(j).main.Finished?
    decreases MainRank(run(i).main, run(i).heard), StageRank(run(i).redactor), ReadsRank(run(i).redactor),
              AskRank(run(i).redactor), WritesRank(run(i).exec), OfferRank(run(i).exec)
  {
    if run(i).main.Finished? {
      j := i;
    } else {
      var a := StepTaken(run, i);
      StepFalls(run(i), a);
      j := FallsFrom(run, i + 1);
    }
  }

  /** At every point of every run the store has read a prefix of what its writer wrote,
      and it sees a clean end only of a stream it has read in full from a writer that
      ended without error. A producer that ends without error was read to its end. */
  lemma StoreReadsInOrder(run: nat -> State, i: nat)
    requires IsRun(run)
    ensures var s := run(i);
            && s.taken <= s.sent
            && s.kept <= (if s.redactor.Absent? then s.sent else s.made)
            && (s.heard.Clean? ==>
                  if s.redactor.Absent? then !s.exec.Sending? && s.exec.ok && s.kept == s.sent
                  else RedactedEof(s) && s.redactor.result.Fine? && s.kept == s.made)
            && (!s.exec.Sending? && s.exec.ok ==> s.taken == s.sent)
  {
    RunKeeps(run, i);
  }

  /** When all is done without an error, the store has read something final: of what the
      producer sent, or of what the redactor lawfully wrote, from the beginning. */
  lemma DoneWithoutError(run: nat -> State, i: nat)
    requires IsRun(run) && run(i).main == Finished(true)
    ensures var s, job := run(i), run(0).job;
            && AllDone(s) && job.final(s.kept)
            && (if s.redactor.Absent? then s.kept <= s.sent
                else s.kept <= s.made && (s.made != [] ==> job.lawful(s.made)))
            && (s.exec.ok ==> s.taken == s.sent)
  {
    RunKeeps(run, i);
    NeverStuck(run, i);
  }
}
