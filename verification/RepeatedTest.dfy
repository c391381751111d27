/**
 Repeating decorators of the unit-test framework, running against a mutable test result. The test at
 the bottom of the decorators reports one `startTest` for each case it counts; `stops(n)` says that
 someone calls `stop` while the case that brought the counter to `n` is running.
 */
module RepeatedTest {
  import Bits

  datatype Test = Cases(count: nat) | Repeated(test: Test, times: int)

  type Interrupts = nat -> bool

  class TestResult {
    var runTests: nat
    var stopped: bool

    constructor ()
      ensures runTests == 0 && !stopped
    {
      runTests, stopped := 0, false;
    }

    method StartTest()
      modifies this`runTests
      ensures runTests == old(runTests) + 1
    {
      runTests := runTests + 1;
    }

    method Stop()
      modifies this`stopped
      ensures stopped
    {
      stopped := true;
    }

    method ShouldStop() returns (answer: bool)
      ensures answer == stopped
    {
      answer := stopped;
    }

    function Status(): Progress
      reads this
    {
      Progress(runTests, stopped)
    }
  }

  /** The part of a test result that running depends on, as a value. */
  datatype Progress = Progress(runs: nat, stopped: bool)

  // The runs as functions on that value

  function AfterCase(p: Progress, stops: Interrupts): Progress {
    Progress(p.runs + 1, p.stopped || stops(p.runs + 1))
  }

  function AfterCases(n: nat, p: Progress, stops: Interrupts): Progress {
    if n == 0 then p else AfterCases(n - 1, AfterCase(p, stops), stops)
  }

  function After(t: Test, p: Progress, stops: Interrupts): Progress
    decreases t, 0
  {
    match t
    case Cases(n) => AfterCases(n, p, stops)
    case Repeated(inner, times) => AfterRounds(inner, times, p, stops)
  }

  function AfterRounds(inner: Test, times: int, p: Progress, stops: Interrupts): Progress
    decreases inner, 1, times
  {
    if times <= 0 || p.stopped then p else AfterRounds(inner, times - 1, After(inner, p, stops), stops)
  }

  // The runs as the framework performs them

  method RunCases(n: nat, result: TestResult, stops: Interrupts)
    modifies result
    ensures result.Status() == AfterCases(n, old(result.Status()), stops)
  {
    for i := 0 to n
      invariant AfterCases(n - i, result.Status(), stops) == AfterCases(n, old(result.Status()), stops)
    {
      result.StartTest();
      if stops(result.runTests) {
        result.Stop();
      }
    }
  }

  /** A repeating decorator asks before each round whether to stop, then runs the test it decorates. */
  method Run(t: Test, result: TestResult, stops: Interrupts)
    modifies result
    ensures result.Status() == After(t, old(result.Status()), stops)
    decreases t
  {
    match t {
      case Cases(n) =>
        RunCases(n, result, stops);
      case Repeated(inner, times) =>
        var n := 0;
        while n < times
          invariant AfterRounds(inner, times - n, result.Status(), stops)
                 == AfterRounds(inner, times, old(result.Status()), stops)
        {
          var stop := result.ShouldStop();
          if stop {
            break;
          }
          Run(inner, result, stops);
          n := n + 1;
        }
    }
  }

  /** `countTestCases` */
  function CountTestCases(t: Test): int {
    match t
    case Cases(n) => n
    case Repeated(inner, times) => CountTestCases(inner) * times
  }

  // What runs

  /** The number of cases an uninterrupted run performs: a negative repeat count repeats nothing. */
  function Performed(t: Test): nat {
    match t
    case Cases(n) => n
    case Repeated(inner, times) => if times <= 0 then 0 else Performed(inner) * times
  }

  ghost predicate NeverStops(stops: Interrupts) {
    forall n: nat :: !stops(n)
  }

  /** Some repeat count, or the number of cases itself, is zero. */
  predicate HasZero(t: Test) {
    match t
    case Cases(n) => n == 0
    case Repeated(inner, times) => times == 0 || HasZero(inner)
  }

  predicate HasNegative(t: Test) {
    match t
    case Cases(_) => false
    case Repeated(inner, times) => times < 0 || HasNegative(inner)
  }

  lemma {:induction false} CountZero(t: Test)
    ensures CountTestCases(t) == 0 <==> HasZero(t)
    ensures Performed(t) == 0 <==> HasZero(t) || HasNegative(t)
    ensures !HasNegative(t) ==> Performed(t) == CountTestCases(t)
  {
    if t.Repeated? {
      CountZero(t.test);
      ProductZero(CountTestCases(t.test), t.times);
      ProductZero(Performed(t.test), t.times);
    }
  }

  lemma ProductZero(x: int, y: int)
    ensures x * y == 0 <==> x == 0 || y == 0
  {
    if x != 0 && y != 0 {
      Bits.MulAtLeast(if x < 0 then -x else x, y);
      assert (-x) * y == -(x * y);
    }
  }

  lemma {:induction false} UninterruptedCases(n: nat, p: Progress, stops: Interrupts)
    requires NeverStops(stops)
    ensures AfterCases(n, p, stops) == Progress(p.runs + n, p.stopped)
    decreases n
  {
    if n > 0 {
      UninterruptedCases(n - 1, AfterCase(p, stops), stops);
    }
  }

  lemma {:induction false} Uninterrupted(t: Test, p: Progress, stops: Interrupts)
    requires NeverStops(stops) && !p.stopped
    ensures After(t, p, stops) == Progress(p.runs + Performed(t), false)
    decreases t, 0
  {
    match t
    case Cases(n) => UninterruptedCases(n, p, stops);
    case Repeated(inner, times) => UninterruptedRounds(inner, times, p, stops);
  }

  lemma {:induction false} UninterruptedRounds(inner: Test, times: int, p: Progress, stops: Interrupts)
    requires NeverStops(stops) && !p.stopped
    ensures AfterRounds(inner, times, p, stops)
         == Progress(p.runs + (if times <= 0 then 0 else Performed(inner) * times), false)
    decreases inner, 1, times
  {
    if times > 0 {
      Uninterrupted(inner, p, stops);
      UninterruptedRounds(inner, times - 1, After(inner, p, stops), stops);
      assert Performed(inner) * times == Performed(inner) + Performed(inner) * (times - 1);
    }
  }

  /**
   When nobody calls `stop`, a run raises the counter by exactly the predicted count if and only if no
   repeat count is negative or some factor of the prediction is zero.
   */
  lemma CountIsExactIff(t: Test, p: Progress, stops: Interrupts)
    requires NeverStops(stops) && !p.stopped
    ensures After(t, p, stops).runs - p.runs == CountTestCases(t) <==> !HasNegative(t) || HasZero(t)
  {
    Uninterrupted(t, p, stops);
    CountZero(t);
  }

  /** Two negative repeat counts: six cases predicted, none run. */
  lemma NegativeRepeatExample(stops: Interrupts)
    requires NeverStops(stops)
    ensures var t := Repeated(Repeated(Cases(1), -2), -3);
            CountTestCases(t) == 6 && After(t, Progress(0, false), stops).runs == 0
  {
    var t := Repeated(Repeated(Cases(1), -2), -3);
    Uninterrupted(t, Progress(0, false), stops);
    assert CountTestCases(Repeated(Cases(1), -2)) == -2;
  }

  // Stopping

  /** The number of cases the undecorated test reports in one go. */
  function Batch(t: Test): nat {
    match t
    case Cases(n) => n
    case Repeated(inner, _) => Batch(inner)
  }

  /** From `p` on, the first call of `stop` comes when the counter has reached `at`. */
  ghost predicate FirstStop(p: Progress, stops: Interrupts, at: nat) {
    at > p.runs && stops(at) && forall n: nat :: p.runs < n < at ==> !stops(n)
  }

  function RoundUp(m: nat, k: nat): nat
    requires k > 0
  {
    (m + k - 1) / k * k
  }

  /** Where a run ends when the first `stop` comes at count `at`: with that batch, or finished earlier. */
  function Stopped(p: Progress, performed: nat, batch: nat, at: nat): Progress
    requires batch > 0 && at > p.runs
  {
    if at > p.runs + performed then Progress(p.runs + performed, false)
    else Progress(p.runs + RoundUp(at - p.runs, batch), true)
  }

  lemma {:induction false} StoppedCases(n: nat, p: Progress, stops: Interrupts, at: nat)
    requires !p.stopped && FirstStop(p, stops, at)
    ensures AfterCases(n, p, stops) == Progress(p.runs + n, at <= p.runs + n)
    decreases n
  {
    if n > 0 {
      if at == p.runs + 1 {
        StaysStopped(n - 1, AfterCase(p, stops), stops);
      } else {
        StoppedCases(n - 1, AfterCase(p, stops), stops, at);
      }
    }
  }

  lemma {:induction false} StaysStopped(n: nat, p: Progress, stops: Interrupts)
    requires p.stopped
    ensures AfterCases(n, p, stops) == Progress(p.runs + n, true)
    decreases n
  {
    if n > 0 {
      StaysStopped(n - 1, AfterCase(p, stops), stops);
    }
  }

  lemma {:induction false} BatchesAdd(t: Test)
    requires Batch(t) > 0
    ensures Performed(t) % Batch(t) == 0
  {
    match t
    case Cases(n) =>
    case Repeated(inner, times) =>
      BatchesAdd(inner);
      if times > 0 {
        MultipleTimes(Performed(inner), Batch(inner), times);
      }
  }

  lemma MultipleTimes(x: nat, k: nat, times: nat)
    requires k > 0 && x % k == 0
    ensures x * times % k == 0
  {
    var q := x / k;
    assert x == k * q;
    Bits.MulAssoc(k, q, times);
    Bits.MultipleMod(k, q * times);
  }

  lemma RoundUpShift(m: nat, q: nat, k: nat)
    requires k > 0 && q % k == 0 && m >= q
    ensures RoundUp(m - q, k) + q == RoundUp(m, k)
  {
    var c, r := q / k, (m - q + k - 1) % k;
    var d := (m - q + k - 1) / k;
    assert q == k * c && m - q + k - 1 == k * d + r;
    assert m + k - 1 == k * (c + d) + r;
    Bits.ModUnique(m + k - 1, k, c + d, r);
    assert (c + d) * k == c * k + d * k;
  }

  lemma RoundUpWithin(m: nat, k: nat)
    requires 1 <= m <= k
    ensures RoundUp(m, k) == k
  {
    Bits.ModUnique(m + k - 1, k, 1, m - 1);
  }

  /**
   When the first `stop` comes at count `at`, every loop starts no further round: the run ends with the
   batch that case belongs to, or with everything performed if the call comes too late to matter.
   */
  lemma {:induction false} StopEndsTheRun(t: Test, p: Progress, stops: Interrupts, at: nat)
    requires Batch(t) > 0 && !p.stopped && FirstStop(p, stops, at)
    ensures After(t, p, stops) == Stopped(p, Performed(t), Batch(t), at)
    decreases t, 0
  {
    match t
    case Cases(n) =>
      StoppedCases(n, p, stops, at);
      if at <= p.runs + n {
        RoundUpWithin(at - p.runs, n);
      }
    case Repeated(inner, times) =>
      StopEndsTheRounds(inner, times, p, stops, at);
  }

  lemma {:induction false} StopEndsTheRounds(inner: Test, times: int, p: Progress, stops: Interrupts, at: nat)
    requires Batch(inner) > 0 && !p.stopped && FirstStop(p, stops, at)
    ensures AfterRounds(inner, times, p, stops)
         == Stopped(p, if times <= 0 then 0 else Performed(inner) * times, Batch(inner), at)
    decreases inner, 1, times
  {
    if times > 0 {
      var one := Performed(inner);
      assert one * times == one + one * (times - 1);
      Bits.MulAtLeast(one, times - 1);
      StopEndsTheRun(inner, p, stops, at);
      if at > p.runs + one {
        var p' := Progress(p.runs + one, false);
        StopEndsTheRounds(inner, times - 1, p', stops, at);
        BatchesAdd(inner);
        RoundUpShift(at - p.runs, one, Batch(inner));
      }
    }
  }

  /** Once `stop` has been called no decorator runs anything. */
  lemma StoppedRunsNothing(inner: Test, times: int, p: Progress, stops: Interrupts)
    requires p.stopped
    ensures After(Repeated(inner, times), p, stops) == p
  {
  }

  /** Whoever calls `stop` and when, no more cases run than without. */
  lemma {:induction false} NeverMoreThanPerformed(t: Test, p: Progress, stops: Interrupts)
    ensures p.runs <= After(t, p, stops).runs <= p.runs + Performed(t)
    decreases t, 0
  {
    match t
    case Cases(n) => CasesRun(n, p, stops);
    case Repeated(inner, times) => RoundsRun(inner, times, p, stops);
  }

  lemma {:induction false} CasesRun(n: nat, p: Progress, stops: Interrupts)
    ensures AfterCases(n, p, stops).runs == p.runs + n
    decreases n
  {
    if n > 0 {
      CasesRun(n - 1, AfterCase(p, stops), stops);
    }
  }

  lemma {:induction false} RoundsRun(inner: Test, times: int, p: Progress, stops: Interrupts)
    ensures p.runs <= AfterRounds(inner, times, p, stops).runs
                   <= p.runs + (if times <= 0 then 0 else Performed(inner) * times)
    decreases inner, 1, times
  {
    if times > 0 {
      var one := Performed(inner);
      assert one * times == one + one * (times - 1);
      assert one * (times - 1) >= 0;
      if !p.stopped {
        NeverMoreThanPerformed(inner, p, stops);
        RoundsRun(inner, times - 1, After(inner, p, stops), stops);
      }
    }
  }
}
