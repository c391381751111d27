/**
 The phases of the multi-threaded demo: main sets the plain global `nThreads` to 1, starts a worker,
 does its own update, and polls until the worker has decremented `nThreads`. The program is any number
 of phases; a schedule says who takes each atomic step, and the worker's decrement is a load and a
 store.
 */
module DemoBarrier {
  import Bits

  /**
   What happens in one phase besides the counter: how many steps main and the worker take inside their
   try blocks, whether they leave them through the catch handler, and whether `_beginthread`, whose
   result main ignores, did start a thread.
   */
  datatype Phase = Phase(mainSteps: nat, mainThrows: bool, workerSteps: nat, workerThrows: bool, started: bool)

  datatype MainPc =
    | SetCounter
    | StartThread
    | Update(left: nat)
    | MainCatch
    | Test
    | Sleep
    | End

  datatype WorkerPc =
    | Absent
    | Body(left: nat)
    | WorkerCatch
    | Load
    | Store(seen: int)
    | Exited

  /** `phase` is the phase main is in; `workers[i]` is the worker of phase `i`. */
  datatype State = State(nThreads: int, phase: nat, main: MainPc, workers: seq<WorkerPc>)

  datatype Actor = Main | Worker(i: nat)

  type Demo = seq<Phase>

  function Initial(demo: Demo): State {
    State(0, 0, if demo == [] then End else SetCounter, seq(|demo|, _ => Absent))
  }

  predicate WellFormed(demo: Demo, s: State) {
    |s.workers| == |demo| && s.phase <= |demo| && (s.main == End <==> s.phase == |demo|)
  }

  function MainStep(demo: Demo, s: State): (s': State)
    requires WellFormed(demo, s)
    ensures WellFormed(demo, s')
  {
    match s.main
    case SetCounter => s.(nThreads := 1, main := StartThread)
    case StartThread =>
      var p := demo[s.phase];
      var workers := if p.started then s.workers[s.phase := Body(p.workerSteps)] else s.workers;
      s.(main := Update(p.mainSteps), workers := workers)
    case Update(left) =>
      if left > 0 then s.(main := Update(left - 1))
      else s.(main := if demo[s.phase].mainThrows then MainCatch else Test)
    case MainCatch => s.(main := Test)
    case Test =>
      if s.nThreads != 0 then s.(main := Sleep)
      else s.(phase := s.phase + 1, main := if s.phase + 1 == |demo| then End else SetCounter)
    case Sleep => s.(main := Test)
    case End => s
  }

  function WorkerStep(demo: Demo, s: State, i: nat): (s': State)
    requires WellFormed(demo, s)
    ensures WellFormed(demo, s')
  {
    if i >= |s.workers| then s
    else
      match s.workers[i]
      case Body(left) =>
        var next := if left > 0 then Body(left - 1) else if demo[i].workerThrows then WorkerCatch else Load;
        s.(workers := s.workers[i := next])
      case WorkerCatch => s.(workers := s.workers[i := Load])
      case Load => s.(workers := s.workers[i := Store(s.nThreads)])
      case Store(seen) => s.(nThreads := seen - 1, workers := s.workers[i := Exited])
      case Absent => s
      case Exited => s
  }

  function Step(demo: Demo, s: State, a: Actor): (s': State)
    requires WellFormed(demo, s)
    ensures WellFormed(demo, s')
  {
    match a
    case Main => MainStep(demo, s)
    case Worker(i) => WorkerStep(demo, s, i)
  }

  /** An infinite schedule and the state it has reached after `n` steps. */
  type Schedule = nat -> Actor

  function At(demo: Demo, schedule: Schedule, n: nat): (s: State)
    ensures WellFormed(demo, s)
  {
    if n == 0 then Initial(demo) else Step(demo, At(demo, schedule, n - 1), schedule(n - 1))
  }

  // Safety

  predicate Running(w: WorkerPc) { w != Absent && w != Exited }

  /** Main has set the counter for its phase and not yet seen it at zero. */
  predicate InPhase(m: MainPc) { m != SetCounter && m != End }

  /**
   The one-writer discipline: earlier workers have finished, later ones do not exist yet, and the
   counter is 1 exactly from main's store up to the worker's, whose load saw that 1.
   */
  ghost predicate Disciplined(demo: Demo, s: State) {
    WellFormed(demo, s) &&
    (forall i :: 0 <= i < s.phase ==> s.workers[i] == Exited) &&
    (forall i :: s.phase < i < |demo| ==> s.workers[i] == Absent) &&
    (forall i :: 0 <= i < |demo| && s.workers[i] != Absent ==> demo[i].started) &&
    (s.phase < |demo| ==>
       var w := s.workers[s.phase];
       (s.main in {SetCounter, StartThread} ==> w == Absent) &&
       (s.main !in {SetCounter, StartThread} && w == Absent ==> !demo[s.phase].started) &&
       (w.Store? ==> w.seen == 1)) &&
    s.nThreads == (if InPhase(s.main) && s.workers[s.phase] != Exited then 1 else 0)
  }

  lemma StepKeepsDiscipline(demo: Demo, s: State, a: Actor)
    requires Disciplined(demo, s)
    ensures Disciplined(demo, Step(demo, s, a))
  {
  }

  /** Every state of every schedule keeps the discipline. */
  lemma {:induction false} AlwaysDisciplined(demo: Demo, schedule: Schedule, n: nat)
    ensures Disciplined(demo, At(demo, schedule, n))
    decreases n
  {
    if n > 0 {
      AlwaysDisciplined(demo, schedule, n - 1);
      StepKeepsDiscipline(demo, At(demo, schedule, n - 1), schedule(n - 1));
    }
  }

  /**
   Safety in every interleaving: the counter is 0 or 1, at most one worker runs, its split decrement
   loses nothing, and a phase is over only when its worker has stored the decrement.
   */
  lemma BarrierIsSafe(demo: Demo, schedule: Schedule, n: nat)
    ensures var s := At(demo, schedule, n);
            (s.nThreads == 0 || s.nThreads == 1) &&
            (forall i, j :: 0 <= i < j < |demo| ==> !(Running(s.workers[i]) && Running(s.workers[j]))) &&
            (forall i :: 0 <= i < |demo| && s.workers[i].Store? ==> s.workers[i].seen == s.nThreads == 1) &&
            (forall i :: 0 <= i < |demo| && Running(s.workers[i]) ==> i == s.phase && s.nThreads == 1) &&
            (forall i :: 0 <= i < s.phase ==> s.workers[i] == Exited)
  {
    AlwaysDisciplined(demo, schedule, n);
  }

  // What has been done before a decrement and before a wait

  /** How many of the first `n` steps are `a`'s. */
  function Turns(schedule: Schedule, a: Actor, n: nat): nat {
    if n == 0 then 0 else Turns(schedule, a, n - 1) + (if schedule(n - 1) == a then 1 else 0)
  }

  /** How many steps of its own a worker has behind it. */
  function WorkerDone(p: Phase, w: WorkerPc): int {
    match w
    case Absent => 0
    case Body(left) => p.workerSteps - left
    case WorkerCatch => p.workerSteps + 1
    case Load => p.workerSteps + 1 + Extra(p.workerThrows)
    case Store(_) => p.workerSteps + 2 + Extra(p.workerThrows)
    case Exited => p.workerSteps + 3 + Extra(p.workerThrows)
  }

  /** The catch handler is a step of its own. */
  function Extra(throws: bool): nat { if throws then 1 else 0 }

  /** A worker that is running takes exactly one step in each of its turns, and none outside them. */
  lemma {:induction false} WorkerAdvances(demo: Demo, schedule: Schedule, i: nat, k: nat, n: nat)
    requires i < |demo| && k <= n && At(demo, schedule, k).workers[i] != Absent
    ensures var w, w' := At(demo, schedule, k).workers[i], At(demo, schedule, n).workers[i];
            var done := WorkerDone(demo[i], w) + Turns(schedule, Worker(i), n) - Turns(schedule, Worker(i), k);
            w' != Absent &&
            WorkerDone(demo[i], w') == Least(done, demo[i].workerSteps + 3 + Extra(demo[i].workerThrows))
    decreases n - k
  {
    hide Step, Disciplined, WorkerWithin, WorkerDone;
    WorkerInBounds(demo, schedule, i, k);
    DoneAtMost(demo[i], At(demo, schedule, k).workers[i]);
    if k < n {
      WorkerAdvances(demo, schedule, i, k, n - 1);
      AlwaysDisciplined(demo, schedule, n - 1);
      WorkerInBounds(demo, schedule, i, n - 1);
      var s := At(demo, schedule, n - 1);
      DoneAtMost(demo[i], s.workers[i]);
      assert At(demo, schedule, n) == Step(demo, s, schedule(n - 1));
      WorkerStepCounts(demo, s, schedule(n - 1), i);
    }
  }

  /** A worker has done everything exactly when it is gone. */
  lemma DoneAtMost(p: Phase, w: WorkerPc)
    requires WorkerWithin(p, w)
    ensures WorkerDone(p, w) <= p.workerSteps + 3 + Extra(p.workerThrows)
    ensures WorkerDone(p, w) == p.workerSteps + 3 + Extra(p.workerThrows) <==> w == Exited
  {
  }

  function Least(a: int, b: int): int {
    if a < b then a else b
  }

  /** A step, and whose it is. */
  lemma WorkerStepCounts(demo: Demo, s: State, a: Actor, i: nat)
    requires Disciplined(demo, s) && i < |demo| && WorkerWithin(demo[i], s.workers[i])
    ensures var w, w' := s.workers[i], Step(demo, s, a).workers[i];
            var turn := if a == Worker(i) && w != Absent && w != Exited then 1 else 0;
            WorkerWithin(demo[i], w') && (w != Absent ==> w' != Absent) &&
            WorkerDone(demo[i], w') == WorkerDone(demo[i], w) + turn
  {
  }

  predicate WorkerWithin(p: Phase, w: WorkerPc) {
    (w.Body? ==> w.left <= p.workerSteps) && (w == WorkerCatch ==> p.workerThrows)
  }

  lemma {:induction false} WorkerInBounds(demo: Demo, schedule: Schedule, i: nat, n: nat)
    requires i < |demo|
    ensures WorkerWithin(demo[i], At(demo, schedule, n).workers[i])
    ensures Turns(schedule, Worker(i), n) >= WorkerDone(demo[i], At(demo, schedule, n).workers[i])
    decreases n
  {
    if n > 0 {
      WorkerInBounds(demo, schedule, i, n - 1);
      AlwaysDisciplined(demo, schedule, n - 1);
      WorkerStepCounts(demo, At(demo, schedule, n - 1), schedule(n - 1), i);
    }
  }

  /**
   The decrement comes last: a worker that is about to load, about to store, or gone has had a turn for
   every step of its try block, one to leave it and, if it throws, one for the handler. A phase that is
   over has given its worker all of them and the two of the decrement.
   */
  lemma DecrementComesLast(demo: Demo, schedule: Schedule, n: nat, i: nat)
    requires i < |demo|
    ensures var w, turns, p := At(demo, schedule, n).workers[i], Turns(schedule, Worker(i), n), demo[i];
            (w == Load ==> turns >= p.workerSteps + (if p.workerThrows then 2 else 1)) &&
            (w.Store? ==> turns >= p.workerSteps + (if p.workerThrows then 3 else 2)) &&
            (w == Exited ==> turns >= p.workerSteps + (if p.workerThrows then 4 else 3)) &&
            (At(demo, schedule, n).phase > i ==> turns >= p.workerSteps + (if p.workerThrows then 4 else 3))
  {
    AlwaysDisciplined(demo, schedule, n);
    WorkerInBounds(demo, schedule, i, n);
  }

  /** How many steps of its own main has behind it in a phase. */
  function MainDone(p: Phase, main: MainPc): int {
    match main
    case SetCounter => 0
    case StartThread => 1
    case Update(left) => 2 + p.mainSteps - left
    case MainCatch => 3 + p.mainSteps
    case Test => 3 + p.mainSteps + Extra(p.mainThrows)
    case Sleep => 4 + p.mainSteps + Extra(p.mainThrows)
    case End => 0
  }

  /** The least number of main's steps in the phases before `k`: the last one of each is a test. */
  function MainBefore(demo: Demo, k: nat): nat
    requires k <= |demo|
  {
    if k == 0 then 0 else MainBefore(demo, k - 1) + 4 + demo[k - 1].mainSteps + Extra(demo[k - 1].mainThrows)
  }

  predicate MainWithin(p: Phase, main: MainPc) {
    (main.Update? ==> main.left <= p.mainSteps) && (main == MainCatch ==> p.mainThrows)
  }

  lemma {:induction false} MainInBounds(demo: Demo, schedule: Schedule, n: nat)
    ensures var s := At(demo, schedule, n);
            (s.phase < |demo| ==> MainWithin(demo[s.phase], s.main)) &&
            Turns(schedule, Main, n) >= MainTotal(demo, s)
    decreases n
  {
    if n > 0 {
      hide Step;
      MainInBounds(demo, schedule, n - 1);
      MainStepCounts(demo, At(demo, schedule, n - 1), schedule(n - 1));
    }
  }

  /** A step adds at most one to what main has behind it, and only if it is main's. */
  lemma MainStepCounts(demo: Demo, s: State, a: Actor)
    requires WellFormed(demo, s) && (s.phase < |demo| ==> MainWithin(demo[s.phase], s.main))
    ensures var s' := Step(demo, s, a);
            (s'.phase < |demo| ==> MainWithin(demo[s'.phase], s'.main)) &&
            MainTotal(demo, s') <= MainTotal(demo, s) + (if a == Main then 1 else 0)
  {
  }

  function MainTotal(demo: Demo, s: State): int
    requires WellFormed(demo, s)
  {
    MainBefore(demo, s.phase) + if s.phase < |demo| then MainDone(demo[s.phase], s.main) else 0
  }

  /**
   Main waits last: when it tests or sleeps in a phase it has had a turn for setting the counter, starting
   the thread, every step of its own update, leaving it and, if that throws, the handler, after as many in
   each earlier phase and one test there.
   */
  lemma MainWaitsLast(demo: Demo, schedule: Schedule, n: nat)
    ensures var s := At(demo, schedule, n);
            s.main == Test || s.main == Sleep ==>
              var p := demo[s.phase];
              Turns(schedule, Main, n) >= MainBefore(demo, s.phase) + 3 + p.mainSteps + (if p.mainThrows then 1 else 0)
  {
    MainInBounds(demo, schedule, n);
  }

  // Liveness

  /** Main and every worker are scheduled again and again. */
  ghost predicate Fair(demo: Demo, schedule: Schedule) {
    forall a: Actor, n: nat :: (a.Worker? ==> a.i < |demo|) ==> ActsFrom(schedule, a, n)
  }

  ghost predicate ActsFrom(schedule: Schedule, a: Actor, n: nat) {
    exists m: nat :: m >= n && schedule(m) == a
  }

  predicate AllStarted(demo: Demo) {
    forall i :: 0 <= i < |demo| ==> demo[i].started
  }

  /** A bound on the useful steps of one phase, and of the phases from `i` on. */
  function Cost(p: Phase): nat { 11 + p.mainSteps + p.workerSteps }

  function CostFrom(demo: Demo, i: nat): nat
    decreases |demo| - i
  {
    if i >= |demo| then 0 else Cost(demo[i]) + CostFrom(demo, i + 1)
  }

  /** Polling costs nothing while the counter is up: testing and sleeping then rank the same. */
  function MainRank(p: Phase, main: MainPc, nThreads: int): nat {
    match main
    case SetCounter => 6 + p.mainSteps
    case StartThread => 5 + p.mainSteps
    case Update(left) => 4 + left
    case MainCatch => 3
    case Sleep => 2
    case Test => if nThreads != 0 then 2 else 1
    case End => 0
  }

  function WorkerRank(p: Phase, w: WorkerPc, main: MainPc): nat {
    match w
    case Absent => if main in {SetCounter, StartThread} then 5 + p.workerSteps else 0
    case Body(left) => 4 + left
    case WorkerCatch => 3
    case Load => 2
    case Store(_) => 1
    case Exited => 0
  }

  function Rank(demo: Demo, s: State): nat
    requires WellFormed(demo, s)
  {
    if s.phase >= |demo| then 0
    else
      MainRank(demo[s.phase], s.main, s.nThreads) +
      WorkerRank(demo[s.phase], s.workers[s.phase], s.main) +
      CostFrom(demo, s.phase + 1)
  }

  /** Who can bring the demo forward: the worker while main polls a raised counter, main otherwise. */
  function Helper(s: State): Actor {
    if s.main in {Test, Sleep} && s.nThreads != 0 then Worker(s.phase) else Main
  }

  /** No step raises the rank, the helper's lowers it, and a step that keeps it keeps the helper. */
  lemma StepTowardsEnd(demo: Demo, s: State, a: Actor)
    requires Disciplined(demo, s) && AllStarted(demo) && s.main != End
    ensures var s' := Step(demo, s, a);
            Rank(demo, s') <= Rank(demo, s) &&
            (a == Helper(s) ==> Rank(demo, s') < Rank(demo, s)) &&
            (Rank(demo, s') == Rank(demo, s) ==> Helper(s') == Helper(s) && s'.main != End)
  {
  }

  /** The rank falls at the latest when the helper's turn comes, at step `k`. */
  lemma {:induction false} RankFallsBy(demo: Demo, schedule: Schedule, n: nat, k: nat) returns (m: nat)
    requires AllStarted(demo) && At(demo, schedule, n).main != End
    requires n <= k && schedule(k) == Helper(At(demo, schedule, n))
    ensures Rank(demo, At(demo, schedule, m)) < Rank(demo, At(demo, schedule, n))
    decreases k - n
  {
    hide Rank, Helper, Step, Disciplined;
    var s, s' := At(demo, schedule, n), At(demo, schedule, n + 1);
    assert s' == Step(demo, s, schedule(n));
    AlwaysDisciplined(demo, schedule, n);
    StepTowardsEnd(demo, s, schedule(n));
    m := n + 1;
    if Rank(demo, s') == Rank(demo, s) {
      m := RankFallsBy(demo, schedule, n + 1, k);
    }
  }

  /** Under a fair schedule the rank falls again and again until main is done. */
  lemma RankFalls(demo: Demo, schedule: Schedule, n: nat) returns (m: nat)
    requires Fair(demo, schedule) && AllStarted(demo) && At(demo, schedule, n).main != End
    ensures Rank(demo, At(demo, schedule, m)) < Rank(demo, At(demo, schedule, n))
  {
    hide Rank, At;
    AlwaysDisciplined(demo, schedule, n);
    assert ActsFrom(schedule, Helper(At(demo, schedule, n)), n);
    var k: nat :| k >= n && schedule(k) == Helper(At(demo, schedule, n));
    m := RankFallsBy(demo, schedule, n, k);
  }

  lemma {:induction false} ReachesEnd(demo: Demo, schedule: Schedule, n: nat) returns (m: nat)
    requires Fair(demo, schedule) && AllStarted(demo)
    ensures At(demo, schedule, m).main == End
    decreases Rank(demo, At(demo, schedule, n))
  {
    if At(demo, schedule, n).main == End {
      m := n;
    } else {
      var k := RankFalls(demo, schedule, n);
      m := ReachesEnd(demo, schedule, k);
    }
  }

  /**
   Under every fair schedule main gets through all its waits exactly when every thread it asked for was
   started; the ignored result of a failed start leaves it polling for ever.
   */
  lemma MainFinishesIff(demo: Demo, schedule: Schedule)
    requires Fair(demo, schedule)
    ensures (exists n: nat :: At(demo, schedule, n).main == End) <==> AllStarted(demo)
  {
    if AllStarted(demo) {
      var m := ReachesEnd(demo, schedule, 0);
    }
    if n: nat :| At(demo, schedule, n).main == End {
      AlwaysDisciplined(demo, schedule, n);
    }
  }

  function TurnOf(demo: Demo, n: nat): Actor {
    var turn := n % (|demo| + 1);
    if turn < |demo| then Worker(turn) else Main
  }

  function TakingTurns(demo: Demo): Schedule {
    (n: nat) => TurnOf(demo, n)
  }

  /** Fair schedules exist: taking turns is one. */
  lemma TakingTurnsIsFair(demo: Demo)
    ensures Fair(demo, TakingTurns(demo))
  {
    forall a: Actor, n: nat | a.Worker? ==> a.i < |demo| ensures ActsFrom(TakingTurns(demo), a, n) {
      var period, turn := |demo| + 1, if a.Worker? then a.i else |demo|;
      var m := period * n + turn;
      Bits.ModUnique(m, period, n, turn);
      Bits.MulAtLeast(n, period);
      assert TakingTurns(demo)(m) == TurnOf(demo, m) == a;
    }
  }
}
