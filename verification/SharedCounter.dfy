/**
 The shared counters `thread_safe_*` and `statistic_*`, as any number of threads interleaving atomic
 steps: acquire, load, store, release, or one interlocked instruction. A schedule is a sequence of
 moves; quantifying over schedules is quantifying over all interleavings.
 */
module SharedCounter {
  import Bits

  type Tid = nat

  datatype Op = Increment | Decrement | Add(c: nat) | Sub(c: nat)

  function Delta(op: Op): int {
    match op
    case Increment => 1
    case Decrement => -1
    case Add(c) => c
    case Sub(c) => -(c as int)
  }

  /** How a macro is compiled. */
  datatype Access = Unlocked | Locked | Interlocked

  /**
   `single` compiles increment and decrement, `bulk` compiles add and sub; the counter wraps at
   `modulus`.
   */
  datatype Build = Build(modulus: nat, single: Access, bulk: Access) {
    predicate Valid() { modulus >= 2 }

    function AccessOf(op: Op): Access {
      if op.Increment? || op.Decrement? then single else bulk
    }

    function Wrap(x: int): (r: nat)
      requires Valid()
      ensures r < modulus
    {
      x % modulus
    }
  }

  /** `my_pthread.h` alone, also `statistic_*` compiled with SAFE_STATISTICS. */
  const MUTEX_BUILD := Build(0x1_0000_0000, Locked, Locked)
  /** `config-win.h` with `__NT__`. */
  const WINDOWS_NT_BUILD := Build(0x1_0000_0000, Interlocked, Interlocked)
  /** `config-win.h` without `__NT__`: add and sub fall back to the mutex of `my_pthread.h`. */
  const WINDOWS_98_BUILD := Build(0x1_0000_0000, Interlocked, Locked)
  /** `statistic_*` without SAFE_STATISTICS. */
  const STATISTIC_BUILD := Build(0x1_0000_0000, Unlocked, Unlocked)

  /** Where a thread is inside a macro. */
  datatype Pc = Idle | Acquired(op: Op) | Loaded(op: Op, seen: nat) | Stored(op: Op)

  datatype Owner = Free | HeldBy(tid: Tid)

  /** A store instruction: whose, and of which operation. */
  datatype Entry = Entry(tid: Tid, op: Op)

  /** The shared word, its mutex, the threads, and the operations that have stored so far. */
  datatype State = State(value: nat, owner: Owner, pcs: map<Tid, Pc>, log: seq<Entry>) {
    function PcOf(t: Tid): Pc { if t in pcs then pcs[t] else Idle }

    function At(t: Tid, pc: Pc): State { this.(pcs := pcs[t := pc]) }

    /** The effect of the store instruction of `op` by thread `t`, writing `newValue`. */
    function Store(t: Tid, op: Op, newValue: nat): State {
      this.(value := newValue, log := log + [Entry(t, op)])
    }
  }

  datatype Move = Begin(tid: Tid, op: Op) | Continue(tid: Tid)

  /** One atomic step; a thread that cannot take the step it is asked for stays where it is. */
  function Step(b: Build, s: State, m: Move): State
    requires b.Valid()
  {
    match m
    case Begin(t, op) =>
      if s.PcOf(t) != Idle then s
      else (
        match b.AccessOf(op)
        case Interlocked => s.Store(t, op, b.Wrap(s.value + Delta(op)))
        case Unlocked => s.At(t, Loaded(op, s.value))
        case Locked => if s.owner == Free then s.At(t, Acquired(op)).(owner := HeldBy(t)) else s
      )
    case Continue(t) =>
      match s.PcOf(t)
      case Idle => s
      case Acquired(op) => s.At(t, Loaded(op, s.value))
      case Loaded(op, seen) =>
        s.Store(t, op, b.Wrap(seen + Delta(op))).At(t, if b.AccessOf(op) == Locked then Stored(op) else Idle)
      case Stored(op) => s.At(t, Idle).(owner := Free)
  }

  function Run(b: Build, s: State, moves: seq<Move>): State
    requires b.Valid()
    decreases |moves|
  {
    if moves == [] then s else Run(b, Step(b, s, moves[0]), moves[1..])
  }

  function Initial(v0: nat): State {
    State(v0, Free, map[], [])
  }

  lemma {:induction false} RunAppend(b: Build, s: State, xs: seq<Move>, ys: seq<Move>)
    requires b.Valid()
    ensures Run(b, s, xs + ys) == Run(b, Run(b, s, xs), ys)
    decreases |xs|
  {
    if xs == [] {
      assert xs + ys == ys;
    } else {
      RunAppend(b, Step(b, s, xs[0]), xs[1..], ys);
      assert (xs + ys)[1..] == xs[1..] + ys;
    }
  }

  // What a run was meant to do

  /** How often `op` has been stored. */
  function Times(log: seq<Entry>, op: Op): nat {
    if log == [] then 0
    else Times(log[..|log| - 1], op) + (if log[|log| - 1].op == op then 1 else 0)
  }

  /** What the stored additions add up to. */
  function Added(log: seq<Entry>): nat {
    if log == [] then 0
    else Added(log[..|log| - 1]) + (match log[|log| - 1].op case Add(c) => c case _ => 0)
  }

  /** What the stored subtractions add up to. */
  function Subtracted(log: seq<Entry>): nat {
    if log == [] then 0
    else Subtracted(log[..|log| - 1]) + (match log[|log| - 1].op case Sub(c) => c case _ => 0)
  }

  function Ups(log: seq<Entry>): nat {
    Times(log, Increment) + Added(log)
  }

  function Downs(log: seq<Entry>): nat {
    Times(log, Decrement) + Subtracted(log)
  }

  lemma LogStep(log: seq<Entry>, e: Entry)
    ensures Ups(log + [e]) == Ups(log) + (if Delta(e.op) > 0 then Delta(e.op) else 0)
    ensures Downs(log + [e]) == Downs(log) + (if Delta(e.op) < 0 then -Delta(e.op) else 0)
  {
    assert (log + [e])[..|log|] == log;
  }

  /** The schedule starts an operation here, which the thread and the mutex allow. */
  predicate Starts(b: Build, s: State, m: Move) {
    m.Begin? && s.PcOf(m.tid) == Idle && (b.AccessOf(m.op) == Locked ==> s.owner == Free)
  }

  /** The operations that the schedule starts in thread `t`, in order. */
  function Started(b: Build, s: State, moves: seq<Move>, t: Tid): seq<Op>
    requires b.Valid()
    decreases |moves|
  {
    if moves == [] then []
    else (if moves[0].tid == t && Starts(b, s, moves[0]) then [moves[0].op] else [])
         + Started(b, Step(b, s, moves[0]), moves[1..], t)
  }

  /** The operations that thread `t` has stored, in order. */
  function StoredBy(log: seq<Entry>, t: Tid): seq<Op> {
    if log == [] then []
    else StoredBy(log[..|log| - 1], t) + (if log[|log| - 1].tid == t then [log[|log| - 1].op] else [])
  }

  /** The operation a thread has still to store. */
  function InProgress(pc: Pc): seq<Op> {
    if pc.Acquired? || pc.Loaded? then [pc.op] else []
  }

  /** What thread `t` has stored and what it is about to store. */
  function Account(s: State, t: Tid): seq<Op> {
    StoredBy(s.log, t) + InProgress(s.PcOf(t))
  }

  lemma StoredByStep(log: seq<Entry>, e: Entry, t: Tid)
    ensures StoredBy(log + [e], t) == StoredBy(log, t) + (if e.tid == t then [e.op] else [])
  {
    assert (log + [e])[..|log|] == log;
  }

  lemma StepAccounts(b: Build, s: State, m: Move, t: Tid)
    requires b.Valid()
    ensures Account(Step(b, s, m), t)
         == Account(s, t) + (if m.tid == t && Starts(b, s, m) then [m.op] else [])
  {
    hide StoredBy, Build.Wrap, Delta;
    var s' := Step(b, s, m);
    if s'.log != s.log {
      StoredByStep(s.log, s'.log[|s.log|], t);
    }
    if m.tid != t {
      assert s'.PcOf(t) == s.PcOf(t);
    }
  }

  lemma {:induction false} RunAccounts(b: Build, s: State, moves: seq<Move>, t: Tid)
    requires b.Valid()
    ensures Account(Run(b, s, moves), t) == Account(s, t) + Started(b, s, moves, t)
    decreases |moves|
  {
    hide Step, Account, Starts;
    if moves != [] {
      StepAccounts(b, s, moves[0], t);
      RunAccounts(b, Step(b, s, moves[0]), moves[1..], t);
    }
  }

  /**
   The log is honest: in every interleaving each thread has stored exactly the operations the schedule
   started in it, in order, but for the one it may be in the middle of.
   */
  lemma EveryStartIsStored(b: Build, v0: nat, moves: seq<Move>, t: Tid)
    requires b.Valid()
    ensures var s := Run(b, Initial(v0), moves);
            Started(b, Initial(v0), moves, t) ==
            StoredBy(s.log, t) + (if s.PcOf(t).Acquired? || s.PcOf(t).Loaded? then [s.PcOf(t).op] else [])
  {
    hide Run, Started;
    RunAccounts(b, Initial(v0), moves, t);
    assert Account(Initial(v0), t) == [];
  }

  /** The moves of one undisturbed operation. */
  function Alone(access: Access, t: Tid, op: Op): seq<Move> {
    match access
    case Interlocked => [Begin(t, op)]
    case Unlocked => [Begin(t, op), Continue(t)]
    case Locked => [Begin(t, op), Continue(t), Continue(t), Continue(t)]
  }

  /** What each operation does when nobody interferes, and that it takes just these moves. */
  lemma AloneResult(b: Build, v0: nat, t: Tid, op: Op)
    requires b.Valid()
    ensures var access := if op.Increment? || op.Decrement? then b.single else b.bulk;
            var s := Run(b, Initial(v0), Alone(access, t, op));
            s.PcOf(t) == Idle && s.owner == Free && s.log == [Entry(t, op)] &&
            (op.Increment? ==> s.value == (v0 + 1) % b.modulus) &&
            (op.Decrement? ==> s.value == (v0 - 1) % b.modulus) &&
            (op.Add? ==> s.value == (v0 + op.c) % b.modulus) &&
            (op.Sub? ==> s.value == (v0 - op.c) % b.modulus)
  {
    var access := if op.Increment? || op.Decrement? then b.single else b.bulk;
    var s0, c := Initial(v0), Continue(t);
    if access == Unlocked {
      RunTwo(b, s0, Begin(t, op), c);
    } else if access == Locked {
      RunAppend(b, s0, [Begin(t, op), c], [c, c]);
      assert [Begin(t, op), c] + [c, c] == Alone(Locked, t, op);
      RunTwo(b, s0, Begin(t, op), c);
      RunTwo(b, Step(b, Step(b, s0, Begin(t, op)), c), c, c);
    } else {
      assert Run(b, Step(b, s0, Begin(t, op)), []) == Step(b, s0, Begin(t, op));
    }
  }

  /** Where the thread stands in between, and that the counter only changes with the store. */
  lemma AloneSteps(b: Build, v0: nat, t: Tid, op: Op)
    requires b.Valid()
    ensures var access := if op.Increment? || op.Decrement? then b.single else b.bulk;
            var s0 := Initial(v0);
            var s1 := Step(b, s0, Begin(t, op));
            var s2 := Step(b, s1, Continue(t));
            var s3 := Step(b, s2, Continue(t));
            (access == Unlocked ==> s1.PcOf(t) == Loaded(op, v0) && s1.value == v0) &&
            (access == Locked ==>
               s1.PcOf(t) == Acquired(op) && s2.PcOf(t) == Loaded(op, v0) && s3.PcOf(t) == Stored(op) &&
               s1.owner == s2.owner == s3.owner == HeldBy(t) && s1.value == s2.value == v0 &&
               |s2.log| == 0 && |s3.log| == 1)
  {
  }

  // Exact counters

  /** `fast` can store between the load and the store of `slow`. */
  predicate Interferes(b: Build, slow: Op, fast: Op) {
    b.AccessOf(slow) != Interlocked && !(b.AccessOf(slow) == Locked && b.AccessOf(fast) == Locked)
  }

  /** No operation that changes the counter can interfere with another one. */
  ghost predicate Compatible(b: Build, ops: iset<Op>)
    requires b.Valid()
  {
    forall slow, fast :: slow in ops && fast in ops && Interferes(b, slow, fast) ==> Delta(fast) % b.modulus == 0
  }

  /** The schedule only ever starts these operations. */
  ghost predicate Uses(moves: seq<Move>, ops: iset<Op>) {
    forall i :: 0 <= i < |moves| && moves[i].Begin? ==> moves[i].op in ops
  }

  /**
   What a thread that is inside a macro has done: if the macro locks, it owns the mutex, and what it has
   loaded is current.
   */
  ghost predicate InMacro(b: Build, ops: iset<Op>, s: State, t: Tid) {
    var pc := s.PcOf(t);
    pc != Idle ==>
      pc.op in ops && b.AccessOf(pc.op) != Interlocked &&
      (b.AccessOf(pc.op) == Locked ==> s.owner == HeldBy(t)) &&
      (pc.Stored? ==> b.AccessOf(pc.op) == Locked) &&
      (pc.Loaded? ==> pc.seen == s.value)
  }

  /** Nothing is lost so far, and nothing will be. */
  ghost predicate Exact(b: Build, ops: iset<Op>, v0: nat, s: State)
    requires b.Valid()
  {
    s.value == b.Wrap(v0 + Ups(s.log) - Downs(s.log)) &&
    (forall t :: InMacro(b, ops, s, t)) &&
    (s.owner.HeldBy? ==> s.PcOf(s.owner.tid) != Idle && b.AccessOf(s.PcOf(s.owner.tid).op) == Locked)
  }

  lemma StepKeepsExact(b: Build, ops: iset<Op>, v0: nat, s: State, m: Move)
    requires b.Valid() && Compatible(b, ops) && Exact(b, ops, v0, s) && (m.Begin? ==> m.op in ops)
    ensures Exact(b, ops, v0, Step(b, s, m))
  {
    hide Build.Wrap, Compatible, Interferes, Ups, Downs;
    var s' := Step(b, s, m);
    assert InMacro(b, ops, s, m.tid);
    if s'.log != s.log {
      var op := if m.Begin? then m.op else s.PcOf(m.tid).op;
      LogStep(s.log, Entry(m.tid, op));
      WrapAdds(b, v0 + Ups(s.log) - Downs(s.log), Delta(op));
    }
    forall t ensures InMacro(b, ops, s', t) {
      assert InMacro(b, ops, s, t);
      if t != m.tid {
        OthersStayCurrent(b, ops, v0, s, m, t);
      }
    }
  }

  /** A step does not outdate what another thread has loaded. */
  lemma OthersStayCurrent(b: Build, ops: iset<Op>, v0: nat, s: State, m: Move, t: Tid)
    requires b.Valid() && Compatible(b, ops) && Exact(b, ops, v0, s) && (m.Begin? ==> m.op in ops)
    requires t != m.tid
    ensures s.PcOf(t).Loaded? ==> Step(b, s, m).value == s.value
  {
    hide Build.Wrap, Ups, Downs;
    var s' := Step(b, s, m);
    assert InMacro(b, ops, s, t) && InMacro(b, ops, s, m.tid);
    if s'.log != s.log && s.PcOf(t).Loaded? {
      var op := if m.Begin? then m.op else s.PcOf(m.tid).op;
      assert Interferes(b, s.PcOf(t).op, op);
      NoEffect(b, v0 + Ups(s.log) - Downs(s.log), Delta(op));
    }
  }

  /** An operation is without effect exactly when it adds a multiple of the counter's range. */
  lemma NoEffect(b: Build, x: int, d: int)
    requires b.Valid()
    ensures b.Wrap(x + d) == b.Wrap(x) <==> d % b.modulus == 0
    ensures b.Wrap(b.Wrap(x) + d) == b.Wrap(x) <==> d % b.modulus == 0
  {
    var m := b.modulus;
    WrapAdds(b, x, d);
    if d % m == 0 {
      ModShift(x, m, d / m);
      assert x + d == m * (d / m) + x;
    }
    if b.Wrap(x + d) == b.Wrap(x) {
      var q, q' := x / m, (x + d) / m;
      assert d == m * q' - m * q;
      assert m * (q' - q) == m * q' - m * q;
      Bits.ModUnique(d, m, q' - q, 0);
    }
  }

  lemma WrapAdds(b: Build, x: int, d: int)
    requires b.Valid()
    ensures b.Wrap(b.Wrap(x) + d) == b.Wrap(x + d)
  {
    var m := b.modulus;
    var q, r := x / m, x % m;
    assert x + d == m * q + (r + d);
    ModShift(r + d, m, q);
  }

  lemma ModShift(x: int, m: nat, q: int)
    requires m > 0
    ensures (m * q + x) % m == x % m
  {
    var k, r := x / m, x % m;
    assert m * q + x == m * (q + k) + r;
    Bits.ModUnique(m * q + x, m, q + k, r);
  }

  /**
   Operations that cannot interfere are exact in every interleaving: at most one thread is between lock
   and unlock, and the counter is the start value with the increments, decrements, additions and
   subtractions stored so far, modulo its range.
   */
  lemma {:induction false} CompatibleIsExact(b: Build, ops: iset<Op>, v0: nat, s: State, moves: seq<Move>)
    requires b.Valid() && Compatible(b, ops) && Exact(b, ops, v0, s) && Uses(moves, ops)
    ensures Exact(b, ops, v0, Run(b, s, moves)) && Sums(b, v0, Run(b, s, moves))
    decreases |moves|
  {
    hide Compatible, Step, Times, Added, Subtracted;
    if moves != [] {
      StepKeepsExact(b, ops, v0, s, moves[0]);
      CompatibleIsExact(b, ops, v0, Step(b, s, moves[0]), moves[1..]);
    }
  }

  /** With these operations nothing is ever lost, from any start value and whatever the schedule. */
  ghost predicate Conserves(b: Build, ops: iset<Op>)
    requires b.Valid()
  {
    forall v0: nat, moves: seq<Move> | v0 < b.modulus && Uses(moves, ops) ::
      Sums(b, v0, Run(b, Initial(v0), moves))
  }

  /** The counter is its start value with all that has been stored. */
  predicate Sums(b: Build, v0: nat, s: State)
    requires b.Valid()
  {
    s.value == (v0 + Times(s.log, Increment) - Times(s.log, Decrement) + Added(s.log) - Subtracted(s.log)) % b.modulus
  }

  /** A counter is exact exactly when none of its operations that have an effect can interfere. */
  lemma ConservesIffCompatible(b: Build, ops: iset<Op>)
    requires b.Valid()
    ensures Conserves(b, ops) <==> Compatible(b, ops)
  {
    if Compatible(b, ops) {
      forall v0: nat, moves: seq<Move> | v0 < b.modulus && Uses(moves, ops)
        ensures Sums(b, v0, Run(b, Initial(v0), moves))
      {
        CompatibleIsExact(b, ops, v0, Initial(v0), moves);
      }
    } else {
      var slow, fast :| slow in ops && fast in ops && Interferes(b, slow, fast) && Delta(fast) % b.modulus != 0;
      LostUpdate(b, ops, slow, fast);
    }
  }

  /** These operations all go through one and the same exclusive mechanism. */
  ghost predicate OneMechanism(b: Build, ops: iset<Op>) {
    forall x, y :: x in ops && y in ops ==> b.AccessOf(x) == b.AccessOf(y) != Unlocked
  }

  /** When every operation has an effect, that takes one exclusive mechanism for all of them. */
  lemma ConservesIffOneMechanism(b: Build, ops: iset<Op>)
    requires b.Valid() && forall op :: op in ops ==> Delta(op) % b.modulus != 0
    ensures Conserves(b, ops) <==> OneMechanism(b, ops)
  {
    hide Conserves;
    ConservesIffCompatible(b, ops);
    if Compatible(b, ops) {
      forall x, y | x in ops && y in ops ensures b.AccessOf(x) == b.AccessOf(y) != Unlocked {
        assert !Interferes(b, x, x) && !Interferes(b, x, y) && !Interferes(b, y, x);
      }
    }
  }

  /** All operations a build offers. */
  ghost function Every(): iset<Op> { iset op: Op | op.Increment? || op.Decrement? || op.Add? || op.Sub? }

  /** Every operation goes through the same exclusive mechanism. */
  predicate Uniform(b: Build) {
    b.single == b.bulk && b.single != Unlocked
  }

  /** A build is exact for all its operations exactly when it compiles them to one exclusive mechanism. */
  lemma ConservesIffUniform(b: Build)
    requires b.Valid()
    ensures Conserves(b, Every()) <==> Uniform(b)
  {
    hide Conserves;
    ConservesIffCompatible(b, Every());
    if Compatible(b, Every()) {
      assert !Interferes(b, Increment, Increment) && !Interferes(b, Add(1), Add(1));
      assert !Interferes(b, Increment, Add(1)) && !Interferes(b, Add(1), Increment);
    }
  }

  /** The moves that take an idle thread up to, but not including, its store. */
  function Approach(b: Build, t: Tid, op: Op): seq<Move> {
    match b.AccessOf(op)
    case Interlocked => []
    case Unlocked => [Begin(t, op)]
    case Locked => [Begin(t, op), Continue(t)]
  }

  /** The move that stores. */
  function Strike(b: Build, t: Tid, op: Op): Move {
    if b.AccessOf(op) == Interlocked then Begin(t, op) else Continue(t)
  }

  /** A load and a store with another thread's store between them: the other one's effect vanishes. */
  lemma LostUpdate(b: Build, ops: iset<Op>, slow: Op, fast: Op)
    requires b.Valid() && slow in ops && fast in ops
    requires Interferes(b, slow, fast) && Delta(fast) % b.modulus != 0
    ensures !Conserves(b, ops)
  {
    hide Run, Step, Approach, Strike, Build.Wrap, Sums, Ups, Downs, Delta;
    var s0 := Initial(0);
    var s1 := Run(b, s0, Approach(b, 0, slow));
    var s2 := Run(b, s1, Approach(b, 1, fast));
    RunApproach(b, s0, 0, slow);
    RunApproach(b, s1, 1, fast);
    var s3 := Step(b, s2, Strike(b, 1, fast));
    StrikeStores(b, s2, 1, fast, 0);
    var s4 := Step(b, s3, Strike(b, 0, slow));
    StrikeStores(b, s3, 0, slow, 0);
    var strikes := [Strike(b, 1, fast), Strike(b, 0, slow)];
    RunTwo(b, s2, strikes[0], strikes[1]);
    RunAppend(b, s1, Approach(b, 1, fast), strikes);
    RunAppend(b, s0, Approach(b, 0, slow), Approach(b, 1, fast) + strikes);
    assert s4.log == [] + [Entry(1, fast)] + [Entry(0, slow)];
    TwoEntries(Entry(1, fast), Entry(0, slow));
    NoEffect(b, Delta(slow), Delta(fast));
    var moves := Approach(b, 0, slow) + (Approach(b, 1, fast) + strikes);
    MovesUse(b, ops, 0, slow);
    MovesUse(b, ops, 1, fast);
    assert Uses(moves, ops);
    assert Run(b, Initial(0), moves) == s4;
    WrapOfSum(b, s4);
  }

  lemma TwoEntries(e: Entry, e': Entry)
    ensures Ups([] + [e] + [e']) - Downs([] + [e] + [e']) == Delta(e.op) + Delta(e'.op)
  {
    LogStep([], e);
    LogStep([] + [e], e');
  }

  lemma WrapOfSum(b: Build, s: State)
    requires b.Valid()
    ensures Sums(b, 0, s) <==> s.value == b.Wrap(Ups(s.log) - Downs(s.log))
  {
  }

  lemma MovesUse(b: Build, ops: iset<Op>, t: Tid, op: Op)
    requires op in ops
    ensures Uses(Approach(b, t, op), ops) && Uses([Strike(b, t, op)], ops)
    ensures Strike(b, t, op).Begin? ==> Strike(b, t, op).op in ops
  {
  }

  lemma StrikeStores(b: Build, s: State, t: Tid, op: Op, seen: nat)
    requires b.Valid()
    requires s.PcOf(t) == if b.AccessOf(op) == Interlocked then Idle else Loaded(op, seen)
    requires b.AccessOf(op) == Interlocked ==> seen == s.value
    ensures var s' := Step(b, s, Strike(b, t, op));
            s'.value == b.Wrap(seen + Delta(op)) && s'.log == s.log + [Entry(t, op)] &&
            (forall u :: u != t ==> s'.PcOf(u) == s.PcOf(u))
  {
  }

  lemma RunTwo(b: Build, s: State, x: Move, y: Move)
    requires b.Valid()
    ensures Run(b, s, [x, y]) == Step(b, Step(b, s, x), y)
  {
    assert [x, y][1..] == [y] && [y][1..] == [];
    assert Run(b, Step(b, Step(b, s, x), y), []) == Step(b, Step(b, s, x), y);
  }

  lemma RunApproach(b: Build, s: State, t: Tid, op: Op)
    requires b.Valid() && s.PcOf(t) == Idle && (b.AccessOf(op) == Locked ==> s.owner == Free)
    ensures var s' := Run(b, s, Approach(b, t, op));
            s'.value == s.value && s'.log == s.log &&
            (forall u :: u != t ==> s'.PcOf(u) == s.PcOf(u)) && (b.AccessOf(op) != Locked ==> s'.owner == s.owner) &&
            s'.PcOf(t) == (if b.AccessOf(op) == Interlocked then Idle else Loaded(op, s.value))
  {
    if b.AccessOf(op) == Locked {
      RunTwo(b, s, Begin(t, op), Continue(t));
    } else if b.AccessOf(op) == Unlocked {
      assert Run(b, Step(b, s, Begin(t, op)), []) == Step(b, s, Begin(t, op));
    }
  }

  /**
   The builds of the headers. The Windows build without `__NT__` mixes the two mechanisms: a counter that
   is only incremented and decremented, or only added to and subtracted from, is exact, another is not.
   */
  lemma HeaderBuilds()
    ensures Conserves(MUTEX_BUILD, Every()) && Conserves(WINDOWS_NT_BUILD, Every())
    ensures !Conserves(WINDOWS_98_BUILD, Every()) && !Conserves(STATISTIC_BUILD, Every())
    ensures Conserves(WINDOWS_98_BUILD, iset{Increment, Decrement})
    ensures Conserves(WINDOWS_98_BUILD, iset op: Op | op.Add? || op.Sub?)
    ensures !Conserves(STATISTIC_BUILD, iset{Increment})
  {
    hide Conserves;
    ConservesIffUniform(MUTEX_BUILD);
    ConservesIffUniform(WINDOWS_NT_BUILD);
    ConservesIffUniform(WINDOWS_98_BUILD);
    ConservesIffUniform(STATISTIC_BUILD);
    ConservesIffCompatible(WINDOWS_98_BUILD, iset{Increment, Decrement});
    ConservesIffCompatible(WINDOWS_98_BUILD, iset op: Op | op.Add? || op.Sub?);
    ConservesIffCompatible(STATISTIC_BUILD, iset{Increment});
    assert Interferes(STATISTIC_BUILD, Increment, Increment);
  }

  /** The mutex is never held for good: three more steps of its owner free it. */
  lemma OwnerReleases(b: Build, ops: iset<Op>, v0: nat, s: State)
    requires b.Valid() && Exact(b, ops, v0, s) && s.owner.HeldBy?
    ensures var c := Continue(s.owner.tid); Run(b, s, [c, c, c]).owner == Free
  {
    var c := Continue(s.owner.tid);
    assert [c, c, c][1..] == [c, c];
    RunTwo(b, Step(b, s, c), c, c);
  }

  // Approximate counters

  /** `value` is the start value moved by some amount between `lo` and `hi`. */
  ghost predicate Within(b: Build, v0: nat, lo: int, hi: int, value: nat)
    requires b.Valid()
  {
    exists k: int :: lo <= k <= hi && Moved(b, v0, k, value)
  }

  predicate Moved(b: Build, v0: nat, k: int, value: nat)
    requires b.Valid()
  {
    value == b.Wrap(v0 + k)
  }

  ghost predicate Bounded(b: Build, v0: nat, s: State)
    requires b.Valid()
  {
    Within(b, v0, -(Downs(s.log) as int), Ups(s.log), s.value) &&
    forall t :: SeenWithin(b, v0, -(Downs(s.log) as int), Ups(s.log), s.PcOf(t))
  }

  ghost predicate SeenWithin(b: Build, v0: nat, lo: int, hi: int, pc: Pc)
    requires b.Valid()
  {
    pc.Loaded? ==> Within(b, v0, lo, hi, pc.seen)
  }

  lemma WithinGrows(b: Build, v0: nat, lo: int, hi: int, lo': int, hi': int, value: nat)
    requires b.Valid() && lo' <= lo && hi <= hi' && Within(b, v0, lo, hi, value)
    ensures Within(b, v0, lo', hi', value)
  {
  }

  lemma WithinMoves(b: Build, v0: nat, lo: int, hi: int, d: int, seen: nat)
    requires b.Valid() && Within(b, v0, lo, hi, seen)
    ensures Within(b, v0, lo + d, hi + d, b.Wrap(seen + d))
  {
    hide Build.Wrap;
    var k: int :| lo <= k <= hi && Moved(b, v0, k, seen);
    WrapAdds(b, v0 + k, d);
    assert Moved(b, v0, k + d, b.Wrap(seen + d));
  }

  lemma StepKeepsBounded(b: Build, v0: nat, s: State, m: Move)
    requires b.Valid() && Bounded(b, v0, s)
    ensures Bounded(b, v0, Step(b, s, m))
  {
    hide Within, Build.Wrap, Ups, Downs;
    var s' := Step(b, s, m);
    var pc := s.PcOf(m.tid);
    var lo, hi := -(Downs(s.log) as int), Ups(s.log);
    var lo', hi' := -(Downs(s'.log) as int), Ups(s'.log);
    assert SeenWithin(b, v0, lo, hi, pc);
    if s'.log != s.log {
      LogStep(s.log, s'.log[|s.log|]);
    }
    if m.Begin? {
      WithinMoves(b, v0, lo, hi, Delta(m.op), s.value);
      if s'.log != s.log {
        WithinGrows(b, v0, lo + Delta(m.op), hi + Delta(m.op), lo', hi', s'.value);
      }
    } else if pc.Loaded? {
      WithinMoves(b, v0, lo, hi, Delta(pc.op), pc.seen);
      WithinGrows(b, v0, lo + Delta(pc.op), hi + Delta(pc.op), lo', hi', s'.value);
    }
    forall t ensures SeenWithin(b, v0, lo', hi', s'.PcOf(t)) {
      assert SeenWithin(b, v0, lo, hi, s.PcOf(t));
      if t != m.tid && s.PcOf(t).Loaded? {
        WithinGrows(b, v0, lo, hi, lo', hi', s.PcOf(t).seen);
      }
    }
  }

  /**
   Whatever the build and the schedule, the counter stays within what was meant to be subtracted and
   added: updates can be lost, but none is applied twice or out of thin air.
   */
  lemma {:induction false} AlwaysBounded(b: Build, v0: nat, s: State, moves: seq<Move>)
    requires b.Valid() && Bounded(b, v0, s)
    ensures Bounded(b, v0, Run(b, s, moves))
    decreases |moves|
  {
    if moves != [] {
      StepKeepsBounded(b, v0, s, moves[0]);
      AlwaysBounded(b, v0, Step(b, s, moves[0]), moves[1..]);
    }
  }

  /** The schedule only ever starts increments. */
  predicate OnlyIncrements(moves: seq<Move>) {
    forall i :: 0 <= i < |moves| && moves[i].Begin? ==> moves[i].op == Increment
  }

  ghost predicate CountedUp(b: Build, v0: nat, s: State)
    requires b.Valid()
  {
    (forall i :: 0 <= i < |s.log| ==> s.log[i].op == Increment) &&
    Within(b, v0, if s.log != [] then 1 else 0, |s.log|, s.value) &&
    forall t :: OnlyIncrementing(b, v0, |s.log|, s.PcOf(t))
  }

  /** A thread that is incrementing has loaded a value some earlier state held. */
  ghost predicate OnlyIncrementing(b: Build, v0: nat, n: nat, pc: Pc)
    requires b.Valid()
  {
    pc != Idle ==> pc.op == Increment && (pc.Loaded? ==> Within(b, v0, 0, n, pc.seen))
  }

  lemma StepKeepsCountedUp(b: Build, v0: nat, s: State, m: Move)
    requires b.Valid() && CountedUp(b, v0, s) && (m.Begin? ==> m.op == Increment)
    ensures CountedUp(b, v0, Step(b, s, m))
  {
    hide Within, Build.Wrap;
    var s' := Step(b, s, m);
    var pc := s.PcOf(m.tid);
    WithinGrows(b, v0, if s.log != [] then 1 else 0, |s.log|, 0, |s.log|, s.value);
    assert OnlyIncrementing(b, v0, |s.log|, pc);
    if m.Begin? {
      WithinMoves(b, v0, 0, |s.log|, 1, s.value);
    } else if pc.Loaded? {
      WithinMoves(b, v0, 0, |s.log|, 1, pc.seen);
    }
    forall t ensures OnlyIncrementing(b, v0, |s'.log|, s'.PcOf(t)) {
      assert OnlyIncrementing(b, v0, |s.log|, s.PcOf(t));
      if t != m.tid && s.PcOf(t).Loaded? {
        WithinGrows(b, v0, 0, |s.log|, 0, |s'.log|, s.PcOf(t).seen);
      }
    }
  }

  lemma {:induction false} RunKeepsCountedUp(b: Build, v0: nat, s: State, moves: seq<Move>)
    requires b.Valid() && CountedUp(b, v0, s) && OnlyIncrements(moves)
    ensures CountedUp(b, v0, Run(b, s, moves))
    decreases |moves|
  {
    if moves != [] {
      StepKeepsCountedUp(b, v0, s, moves[0]);
      RunKeepsCountedUp(b, v0, Step(b, s, moves[0]), moves[1..]);
    }
  }

  /** What a schedule of increments can leave in the counter after `n` of them have stored. */
  ghost predicate Reachable(b: Build, v0: nat, n: nat, value: nat)
    requires b.Valid()
  {
    exists moves: seq<Move> :: Leaves(b, v0, moves, n, value)
  }

  predicate Leaves(b: Build, v0: nat, moves: seq<Move>, n: nat, value: nat)
    requires b.Valid()
  {
    OnlyIncrements(moves) && |Run(b, Initial(v0), moves).log| == n && Run(b, Initial(v0), moves).value == value
  }

  /**
   After `n > 0` unlocked increments the counter can hold exactly the values from one to `n` above its
   start: no schedule leaves anything else, and each of them is left by some schedule.
   */
  lemma UnlockedIncrements(b: Build, v0: nat, n: nat, value: nat)
    requires b.Valid() && b.single == Unlocked && v0 < b.modulus && n > 0
    ensures Reachable(b, v0, n, value) <==> Within(b, v0, 1, n, value)
  {
    if Reachable(b, v0, n, value) {
      var moves: seq<Move> :| Leaves(b, v0, moves, n, value);
      assert Moved(b, v0, 0, v0);
      RunKeepsCountedUp(b, v0, Initial(v0), moves);
    }
    if Within(b, v0, 1, n, value) {
      var k: int :| 1 <= k <= n && Moved(b, v0, k, value);
      LosingSchedule(b, v0, n, k);
    }
  }

  /** One undisturbed increment by thread `t`, and `n` of them. */
  function Clean(t: Tid, n: nat): (moves: seq<Move>)
    ensures OnlyIncrements(moves)
  {
    if n == 0 then [] else [Begin(t, Increment), Continue(t)] + Clean(t, n - 1)
  }

  lemma {:induction false} RunClean(b: Build, s: State, t: Tid, n: nat)
    requires b.Valid() && b.single == Unlocked && s.PcOf(t) == Idle && s.value < b.modulus
    ensures var s' := Run(b, s, Clean(t, n));
            s'.value == b.Wrap(s.value + n) && |s'.log| == |s.log| + n &&
            forall u :: s'.PcOf(u) == s.PcOf(u)
    decreases n
  {
    hide Run, Step, Build.Wrap, Clean, State.PcOf;
    if n == 0 {
      CleanNone(b, s, t);
    } else {
      var pair := [Begin(t, Increment), Continue(t)];
      CleanOnce(b, s, t);
      var next := Run(b, s, pair);
      RunClean(b, next, t, n - 1);
      WrapAdds(b, s.value + 1, n - 1);
      CleanSplits(b, s, t, n);
    }
  }

  lemma CleanNone(b: Build, s: State, t: Tid)
    requires b.Valid() && s.value < b.modulus
    ensures Run(b, s, Clean(t, 0)) == s && b.Wrap(s.value) == s.value
  {
    Bits.LessThanMod(s.value, b.modulus);
  }

  lemma CleanSplits(b: Build, s: State, t: Tid, n: nat)
    requires b.Valid() && n > 0
    ensures Run(b, s, Clean(t, n)) == Run(b, Run(b, s, [Begin(t, Increment), Continue(t)]), Clean(t, n - 1))
  {
    hide Run;
    RunAppend(b, s, [Begin(t, Increment), Continue(t)], Clean(t, n - 1));
  }

  lemma CleanOnce(b: Build, s: State, t: Tid)
    requires b.Valid() && b.single == Unlocked && s.PcOf(t) == Idle
    ensures var s' := Run(b, s, [Begin(t, Increment), Continue(t)]);
            s'.value == b.Wrap(s.value + 1) < b.modulus && |s'.log| == |s.log| + 1 &&
            forall u :: s'.PcOf(u) == s.PcOf(u)
  {
    RunTwo(b, s, Begin(t, Increment), Continue(t));
  }

  lemma RunFirst(b: Build, s: State, m: Move, rest: seq<Move>)
    requires b.Valid()
    ensures Run(b, s, [m] + rest) == Run(b, Step(b, s, m), rest)
  {
    assert ([m] + rest)[1..] == rest;
  }

  /** Thread 0 loads, thread 1 does `n - k` increments, thread 0 stores over them, `k - 1` more follow. */
  lemma LosingSchedule(b: Build, v0: nat, n: nat, k: nat)
    requires b.Valid() && b.single == Unlocked && v0 < b.modulus && 1 <= k <= n
    ensures Reachable(b, v0, n, b.Wrap(v0 + k))
  {
    hide Run, Clean, Build.Wrap;
    var load, store, before, after := Begin(0, Increment), Continue(0), Clean(1, n - k), Clean(1, k - 1);
    var s0 := Initial(v0);
    var s1 := Step(b, s0, load);
    var s2 := Run(b, s1, before);
    RunClean(b, s1, 1, n - k);
    assert s2.PcOf(0) == s1.PcOf(0) == Loaded(Increment, v0);
    var s3 := Step(b, s2, store);
    assert s3.value == b.Wrap(v0 + 1) && |s3.log| == n - k + 1;
    assert s3.PcOf(1) == s2.PcOf(1) == s1.PcOf(1) == Idle;
    RunClean(b, s3, 1, k - 1);
    WrapAdds(b, v0 + 1, k - 1);
    RunFirst(b, s0, load, before + ([store] + after));
    RunAppend(b, s1, before, [store] + after);
    RunFirst(b, s2, store, after);
    var moves := [load] + (before + ([store] + after));
    assert OnlyIncrements(moves);
    assert Leaves(b, v0, moves, n, b.Wrap(v0 + k));
  }
}
