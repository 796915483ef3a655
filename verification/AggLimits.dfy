/** The shared memory accounting of aggregations.

Every guard holds the same atomic counter.  Adding memory is three separate steps: the
atomic `fetch_add`, the update of the guard's own tally, and the validation of the value
that `fetch_add` returned; clones and drops of other guards, and their own steps, may come
in between.  `State` and `Next` describe those steps, and the theorems hold of every run.
Counters are u64: they wrap at 2^64.
 */
module AggregationLimits {
  import opened Collections
  import opened Bits

  const DEFAULT_MEMORY_LIMIT: nat := 500_000_000
  const DEFAULT_BUCKET_LIMIT: nat := 65000

  datatype Outcome = Ok | MemoryExceeded(limit: nat, current: nat)

  function ValidateMemoryConsumption(memoryConsumption: U64, memoryLimit: U64): (r: Outcome)
  {
    if memoryConsumption > memoryLimit then MemoryExceeded(memoryLimit, memoryConsumption) else Ok
  }

  // --- the protocol as a state machine -----------------------------------------------------

  // Where a guard stands.  `prev` is what fetch_add returned; `total` remembers the counter
  // right after it.
  datatype Phase =
    | Idle
    | Fetched(bytes: U64, prev: U64, total: U64)
    | Recorded(bytes: U64, prev: U64, total: U64)
    | Dropped

  datatype Guard = Guard(tally: U64, phase: Phase)

  // An add that has returned: the counter at its own fetch_add, and its result.
  datatype Finished = Finished(total: U64, outcome: Outcome)

  datatype State = State(counter: U64, limit: U64, guards: seq<Guard>, log: seq<Finished>)

  datatype Step =
    | Clone(id: nat)
    | FetchAdd(id: nat, bytes: U64)
    | Record(id: nat)
    | Validate(id: nat)
    | Drop(id: nat)

  function Init(limit: U64): (s: State)
  {
    State(0, limit, [Guard(0, Idle)], [])
  }

  predicate Enabled(s: State, step: Step)
  {
    && step.id < |s.guards|
    && match step
       case Clone(id) => !s.guards[id].phase.Dropped?
       case FetchAdd(id, _) => s.guards[id].phase.Idle?
       case Record(id) => s.guards[id].phase.Fetched?
       case Validate(id) => s.guards[id].phase.Recorded?
       case Drop(id) => s.guards[id].phase.Idle?
  }

  function Next(s: State, step: Step): (s': State)
    requires Enabled(s, step)
  {
    var g := s.guards[step.id];
    match step
    case Clone(id) =>
      s.(guards := s.guards + [Guard(0, Idle)])
    case FetchAdd(id, bytes) =>
      var total := Wrap(s.counter + bytes);
      s.(counter := total, guards := s.guards[id := g.(phase := Fetched(bytes, s.counter, total))])
    case Record(id) =>
      var p := g.phase;
      s.(guards := s.guards[id := Guard(Wrap(g.tally + p.bytes), Recorded(p.bytes, p.prev, p.total))])
    case Validate(id) =>
      var p := g.phase;
      var outcome := ValidateMemoryConsumption(Wrap(p.prev + p.bytes), s.limit);
      s.(guards := s.guards[id := g.(phase := Idle)], log := s.log + [Finished(p.total, outcome)])
    case Drop(id) =>
      s.(counter := Wrap(s.counter + U64_BOUND - g.tally),
         guards := s.guards[id := Guard(0, Dropped)])
  }

  predicate IsRun(s: State, steps: seq<Step>)
    decreases |steps|
  {
    |steps| == 0 || (Enabled(s, steps[0]) && IsRun(Next(s, steps[0]), steps[1..]))
  }

  function Exec(s: State, steps: seq<Step>): (s': State)
    requires IsRun(s, steps)
    decreases |steps|
  {
    if |steps| == 0 then s else Exec(Next(s, steps[0]), steps[1..])
  }

  // --- conservation --------------------------------------------------------------------------

  // What a guard accounts for: its tally, and bytes fetched but not yet tallied.
  ghost function Holds(g: Guard): (n: nat)
  {
    match g.phase
    case Dropped => 0
    case Fetched(bytes, _, _) => g.tally + bytes
    case _ => g.tally
  }

  ghost function Total(guards: seq<Guard>): (n: nat)
  {
    if |guards| == 0 then 0 else Holds(guards[0]) + Total(guards[1..])
  }

  lemma {:induction false} TotalUpdate(guards: seq<Guard>, id: nat, g: Guard)
    requires id < |guards|
    ensures Total(guards[id := g]) == Total(guards) - Holds(guards[id]) + Holds(g)
    ensures Holds(guards[id]) <= Total(guards)
  {
    if id == 0 {
      assert guards[0 := g][1..] == guards[1..];
    } else {
      TotalUpdate(guards[1..], id - 1, g);
      assert guards[id := g][1..] == guards[1..][id - 1 := g];
    }
  }

  lemma {:induction false} TotalAppend(guards: seq<Guard>, g: Guard)
    ensures Total(guards + [g]) == Total(guards) + Holds(g)
  {
    if |guards| == 0 {
      assert guards + [g] == [g];
    } else {
      TotalAppend(guards[1..], g);
      assert (guards + [g])[1..] == guards[1..] + [g];
    }
  }

  // The counter is the sum of all live tallies plus the untallied bytes, modulo 2^64.
  ghost predicate Conserved(s: State) {
    s.counter == Wrap(Total(s.guards))
  }

  lemma {:induction false} WrapAdd(total: nat, n: nat)
    ensures Wrap(Wrap(total) + n) == Wrap(total + n)
  {
    var q, r := total / U64_BOUND, total % U64_BOUND;
    var q', r' := (r + n) / U64_BOUND, (r + n) % U64_BOUND;
    DivModUnique(total + n, U64_BOUND, q + q', r');
  }

  lemma {:induction false} WrapSub(total: nat, n: nat)
    requires n <= total && n < U64_BOUND
    ensures Wrap(Wrap(total) + U64_BOUND - n) == Wrap(total - n)
  {
    WrapAdd(total - n, n);
    WrapAdd(total, U64_BOUND - n);
    WrapTurn(total - n);
  }

  lemma {:induction false} WrapTurn(x: nat)
    ensures Wrap(x + U64_BOUND) == Wrap(x)
  {
    DivModUnique(x + U64_BOUND, U64_BOUND, x / U64_BOUND + 1, x % U64_BOUND);
  }

  lemma {:induction false} WrapInside(total: nat, n: nat)
    requires n <= total
    ensures Wrap(total - n + Wrap(n)) == Wrap(total)
  {
    WrapAdd(n, total - n);
  }

  lemma {:induction false} StepConserves(s: State, step: Step)
    requires Enabled(s, step) && Conserved(s)
    ensures Conserved(Next(s, step))
  {
    hide Total, Wrap;
    var s' := Next(s, step);
    var total := Total(s.guards);
    match step
    case Clone(id) =>
      TotalAppend(s.guards, Guard(0, Idle));
    case FetchAdd(id, bytes) =>
      TotalUpdate(s.guards, id, s'.guards[id]);
      WrapAdd(total, bytes);
    case Record(id) =>
      TotalUpdate(s.guards, id, s'.guards[id]);
      WrapInside(total, s.guards[id].tally + s.guards[id].phase.bytes);
    case Validate(id) =>
      TotalUpdate(s.guards, id, s'.guards[id]);
    case Drop(id) =>
      TotalUpdate(s.guards, id, s'.guards[id]);
      WrapSub(total, s.guards[id].tally);
  }

  lemma {:induction false} RunConserves(s: State, steps: seq<Step>)
    requires IsRun(s, steps) && Conserved(s)
    ensures Conserved(Exec(s, steps))
    decreases |steps|
  {
    if |steps| > 0 {
      StepConserves(s, steps[0]);
      RunConserves(Next(s, steps[0]), steps[1..]);
    }
  }

  ghost predicate NoneLive(s: State) {
    forall i :: 0 <= i < |s.guards| ==> s.guards[i].phase.Dropped?
  }

  lemma {:induction false} TotalOfDropped(guards: seq<Guard>)
    requires forall i :: 0 <= i < |guards| ==> guards[i].phase.Dropped?
    ensures Total(guards) == 0
  {
    if |guards| > 0 {
      TotalOfDropped(guards[1..]);
    }
  }

  // Every interleaving conserves; in particular the counter is back to zero once every guard
  // is gone, whether or not adds have failed.
  lemma {:induction false} EveryRunConserves(limit: U64, steps: seq<Step>)
    requires IsRun(Init(limit), steps)
    ensures Conserved(Exec(Init(limit), steps))
    ensures NoneLive(Exec(Init(limit), steps)) ==> Exec(Init(limit), steps).counter == 0
  {
    var s := Exec(Init(limit), steps);
    assert Total(Init(limit).guards) == 0 by {
      assert Init(limit).guards[1..] == [];
    }
    RunConserves(Init(limit), steps);
    if NoneLive(s) {
      TotalOfDropped(s.guards);
    }
  }

  // While the accounted total fits in a u64, the counter is that total and no drop underflows.
  lemma {:induction false} NoUnderflow(s: State, id: nat)
    requires Conserved(s) && Total(s.guards) < U64_BOUND && id < |s.guards|
    ensures s.counter == Total(s.guards)
    ensures s.counter >= Holds(s.guards[id])
    ensures Enabled(s, Drop(id)) ==> Next(s, Drop(id)).counter == s.counter - s.guards[id].tally
  {
    TotalUpdate(s.guards, id, s.guards[id]);
  }

  // --- the limit -----------------------------------------------------------------------------

  // No state of the run accounts for 2^64 bytes or more.
  ghost predicate StaysBelow(s: State, steps: seq<Step>)
    requires IsRun(s, steps)
    decreases |steps|
  {
    && Total(s.guards) < U64_BOUND
    && (|steps| > 0 ==> StaysBelow(Next(s, steps[0]), steps[1..]))
  }

  predicate Pending(g: Guard) {
    g.phase.Fetched? || g.phase.Recorded?
  }

  // What each guard in flight remembers, and what every finished add returned.
  ghost predicate Truthful(s: State) {
    && (forall i :: 0 <= i < |s.guards| && Pending(s.guards[i]) ==>
          var p := s.guards[i].phase; p.total == Wrap(p.prev + p.bytes))
    && (forall i :: 0 <= i < |s.log| ==>
          s.log[i].outcome == if s.log[i].total > s.limit then MemoryExceeded(s.limit, s.log[i].total) else Ok)
  }

  ghost predicate SomeFailed(s: State) {
    exists i :: 0 <= i < |s.log| && !s.log[i].outcome.Ok?
  }

  ghost predicate SomeDoomed(s: State) {
    exists i :: 0 <= i < |s.guards| && Pending(s.guards[i]) && s.guards[i].phase.total > s.limit
  }

  // Above the limit, some add has failed or is about to.
  ghost predicate Guarded(s: State) {
    s.counter <= s.limit || SomeFailed(s) || SomeDoomed(s)
  }

  lemma {:induction false} StepTruthful(s: State, step: Step)
    requires Enabled(s, step) && Truthful(s)
    ensures Truthful(Next(s, step)) && Next(s, step).limit == s.limit
  {
  }

  lemma {:induction false} FailuresStay(s: State, step: Step)
    requires Enabled(s, step) && SomeFailed(s)
    ensures SomeFailed(Next(s, step))
  {
    var i :| 0 <= i < |s.log| && !s.log[i].outcome.Ok?;
    assert Next(s, step).log[i] == s.log[i];
  }

  lemma {:induction false} DoomedFails(s: State, step: Step)
    requires Enabled(s, step) && Truthful(s) && SomeDoomed(s)
    ensures SomeDoomed(Next(s, step)) || SomeFailed(Next(s, step))
  {
    var i :| 0 <= i < |s.guards| && Pending(s.guards[i]) && s.guards[i].phase.total > s.limit;
    var s' := Next(s, step);
    if step.Validate? && step.id == i {
      assert s'.log[|s.log|] == Finished(s.guards[i].phase.total, MemoryExceeded(s.limit, s.guards[i].phase.total));
    } else {
      assert Pending(s'.guards[i]) && s'.guards[i].phase.total == s.guards[i].phase.total;
    }
  }

  lemma {:induction false} StepGuarded(s: State, step: Step)
    requires Enabled(s, step) && Conserved(s) && Total(s.guards) < U64_BOUND
    requires Truthful(s) && Guarded(s)
    ensures Guarded(Next(s, step))
  {
    var s' := Next(s, step);
    if SomeFailed(s) {
      FailuresStay(s, step);
    } else if SomeDoomed(s) {
      DoomedFails(s, step);
    } else {
      match step
      case Clone(_) =>
      case FetchAdd(id, _) =>
        if s'.counter > s.limit {
          assert Pending(s'.guards[id]) && s'.guards[id].phase.total > s'.limit;
        }
      case Record(_) =>
      case Validate(_) =>
      case Drop(id) => NoUnderflow(s, id);
    }
  }

  lemma {:induction false} RunGuarded(s: State, steps: seq<Step>)
    requires IsRun(s, steps) && StaysBelow(s, steps)
    requires Conserved(s) && Truthful(s) && Guarded(s)
    ensures Guarded(Exec(s, steps)) && Truthful(Exec(s, steps)) && Exec(s, steps).limit == s.limit
    decreases |steps|
  {
    if |steps| > 0 {
      StepConserves(s, steps[0]);
      StepTruthful(s, steps[0]);
      StepGuarded(s, steps[0]);
      RunGuarded(Next(s, steps[0]), steps[1..]);
    }
  }

  ghost predicate AllFinishedOk(s: State) {
    && (forall i :: 0 <= i < |s.guards| ==> !Pending(s.guards[i]))
    && (forall i :: 0 <= i < |s.log| ==> s.log[i].outcome.Ok?)
  }

  // In every interleaving whose total stays below 2^64: an add fails exactly when the counter
  // at its own fetch_add exceeds the limit, and when every add so far has returned Ok the
  // counter is within the limit.
  lemma {:induction false} LimitHolds(limit: U64, steps: seq<Step>)
    requires IsRun(Init(limit), steps) && StaysBelow(Init(limit), steps)
    ensures var s := Exec(Init(limit), steps);
            && (AllFinishedOk(s) ==> s.counter <= limit)
            && (forall i :: 0 <= i < |s.log| ==>
                  s.log[i].outcome == if s.log[i].total > limit then MemoryExceeded(limit, s.log[i].total) else Ok)
  {
    assert Total(Init(limit).guards) == 0 by {
      assert Init(limit).guards[1..] == [];
    }
    RunGuarded(Init(limit), steps);
  }

  // --- runs of many guards -----------------------------------------------------------------------

  // A step of one guard neither changes another guard nor takes away any of its steps.
  lemma {:induction false} StepIsLocal(s: State, step: Step, other: Step)
    requires Enabled(s, step) && Enabled(s, other) && (step.id != other.id || step.Clone?)
    ensures Enabled(Next(s, step), other) && Next(s, step).guards[other.id] == s.guards[other.id]
  {
  }

  lemma {:induction false} RunAppend(s: State, a: seq<Step>, b: seq<Step>)
    requires IsRun(s, a) && IsRun(Exec(s, a), b)
    ensures IsRun(s, a + b) && Exec(s, a + b) == Exec(Exec(s, a), b)
    decreases |a|
  {
    hide Next, Enabled;
    if |a| == 0 {
      assert a + b == b;
    } else {
      RunAppend(Next(s, a[0]), a[1..], b);
      RunCons(s, a[0], a[1..] + b);
      assert a + b == [a[0]] + (a[1..] + b);
    }
  }

  lemma {:induction false} RunSnoc(s: State, a: seq<Step>, step: Step)
    requires IsRun(s, a) && Enabled(Exec(s, a), step)
    ensures IsRun(s, a + [step]) && Exec(s, a + [step]) == Next(Exec(s, a), step)
  {
    hide Next, Enabled;
    RunCons(Exec(s, a), step, []);
    assert [step] + [] == [step];
    RunAppend(s, a, [step]);
  }

  function Sum(bytes: seq<U64>): (n: nat)
  {
    if |bytes| == 0 then 0 else Sum(bytes[..|bytes| - 1]) + bytes[|bytes| - 1]
  }

  // The first k of n guards have fetched, none has gone on.
  ghost predicate AllFetched(s: State, limit: U64, bytes: seq<U64>, k: nat)
    requires k <= |bytes|
  {
    && |s.guards| == |bytes| && s.counter == Wrap(Sum(bytes[..k])) && s.limit == limit && s.log == []
    && (forall i :: 0 <= i < k ==>
          s.guards[i] == Guard(0, Fetched(bytes[i], Wrap(Sum(bytes[..i])), Wrap(Sum(bytes[..i + 1])))))
    && (forall i :: k <= i < |bytes| ==> s.guards[i] == Guard(0, Idle))
  }

  // Cloning makes any number of guards.
  lemma {:induction false} ManyGuards(limit: U64, n: nat) returns (steps: seq<Step>)
    requires n > 0
    ensures IsRun(Init(limit), steps)
    ensures Exec(Init(limit), steps) == State(0, limit, seq(n, _ => Guard(0, Idle)), [])
  {
    if n == 1 {
      steps := [];
      assert Init(limit).guards == seq(1, _ => Guard(0, Idle));
    } else {
      var before := ManyGuards(limit, n - 1);
      steps := before + [Clone(0)];
      RunSnoc(Init(limit), before, Clone(0));
      assert seq(n - 1, _ => Guard(0, Idle)) + [Guard(0, Idle)] == seq(n, _ => Guard(0, Idle));
    }
  }

  // Any number of guards may all have fetched before any of them goes on; each then knows the
  // counter as it was at its own turn.
  lemma {:induction false} FullOverlap(limit: U64, bytes: seq<U64>, k: nat) returns (steps: seq<Step>)
    requires 0 < |bytes| && k <= |bytes|
    ensures IsRun(Init(limit), steps) && AllFetched(Exec(Init(limit), steps), limit, bytes, k)
  {
    if k == 0 {
      steps := ManyGuards(limit, |bytes|);
    } else {
      var before := FullOverlap(limit, bytes, k - 1);
      steps := before + [FetchAdd(k - 1, bytes[k - 1])];
      RunSnoc(Init(limit), before, FetchAdd(k - 1, bytes[k - 1]));
      assert bytes[..k][..k - 1] == bytes[..k - 1];
      WrapAdd(Sum(bytes[..k - 1]), bytes[k - 1]);
    }
  }

  // A guard can always finish what it began and be dropped, whatever the others are doing.
  lemma {:induction false} GuardFinishes(s: State, id: nat) returns (steps: seq<Step>)
    requires id < |s.guards|
    ensures IsRun(s, steps)
    ensures var s' := Exec(s, steps);
            && |s'.guards| == |s.guards| && s'.guards[id].phase.Dropped?
            && (forall i :: 0 <= i < |s.guards| && i != id ==> s'.guards[i] == s.guards[i])
    decreases s.guards[id].phase.Fetched?, s.guards[id].phase.Recorded?
  {
    hide Wrap;
    match s.guards[id].phase
    case Dropped =>
      steps := [];
    case Idle =>
      RunCons(s, Drop(id), []);
      steps := [Drop(id)] + [];
    case Recorded(_, _, _) =>
      var s' := Next(s, Validate(id));
      var more := GuardFinishes(s', id);
      RunCons(s, Validate(id), more);
      steps := [Validate(id)] + more;
    case Fetched(_, _, _) =>
      var s' := Next(s, Record(id));
      var more := GuardFinishes(s', id);
      RunCons(s, Record(id), more);
      steps := [Record(id)] + more;
  }

  // So every state can be wound down, and then the counter is zero.
  lemma {:induction false} WindDown(s: State, k: nat) returns (steps: seq<Step>)
    requires Conserved(s) && k <= |s.guards|
    requires forall i :: 0 <= i < k ==> s.guards[i].phase.Dropped?
    ensures IsRun(s, steps) && NoneLive(Exec(s, steps)) && Exec(s, steps).counter == 0
    decreases |s.guards| - k
  {
    if k == |s.guards| {
      steps := [];
      TotalOfDropped(s.guards);
    } else {
      var first := GuardFinishes(s, k);
      RunConserves(s, first);
      var more := WindDown(Exec(s, first), k + 1);
      steps := first + more;
      RunAppend(s, first, more);
    }
  }

  // --- the guard object --------------------------------------------------------------------------

  class AtomicU64 {
    var value: U64

    constructor ()
      ensures value == 0
    {
      value := 0;
    }

    method FetchAdd(n: U64) returns (prev: U64)
      modifies this
      ensures prev == old(value) && value == Wrap(old(value) + n)
    {
      prev := value;
      value := Wrap(value + n);
    }

    method FetchSub(n: U64) returns (prev: U64)
      modifies this
      ensures prev == old(value) && value == Wrap(old(value) + U64_BOUND - n)
    {
      prev := value;
      value := Wrap(value + U64_BOUND - n);
    }
  }

  class AggregationLimitsGuard {
    const memoryConsumption: AtomicU64
    const memoryLimit: U64
    const bucketLimit: U32
    var allocatedWithTheGuard: U64

    constructor (memoryLimit: Option<U64>, bucketLimit: Option<U32>)
      ensures fresh(memoryConsumption) && memoryConsumption.value == 0 && allocatedWithTheGuard == 0
      ensures this.memoryLimit == if memoryLimit.Some? then memoryLimit.value else DEFAULT_MEMORY_LIMIT
      ensures this.bucketLimit == if bucketLimit.Some? then bucketLimit.value else DEFAULT_BUCKET_LIMIT
    {
      this.memoryLimit := if memoryLimit.Some? then memoryLimit.value else DEFAULT_MEMORY_LIMIT;
      this.bucketLimit := if bucketLimit.Some? then bucketLimit.value else DEFAULT_BUCKET_LIMIT;
      allocatedWithTheGuard := 0;
      memoryConsumption := new AtomicU64();
    }

    // The clone shares the counter and starts with an empty tally of its own.
    constructor Cloned(other: AggregationLimitsGuard, ghost others: seq<Guard>, ghost log: seq<Finished>)
      ensures memoryConsumption == other.memoryConsumption && allocatedWithTheGuard == 0
      ensures memoryLimit == other.memoryLimit && bucketLimit == other.bucketLimit
      ensures Enabled(other.Alone(others, log), Clone(0))
      ensures Next(other.Alone(others, log), Clone(0))
           == other.Alone(others + [Guard(allocatedWithTheGuard, Idle)], log)
    {
      memoryConsumption := other.memoryConsumption;
      memoryLimit := other.memoryLimit;
      bucketLimit := other.bucketLimit;
      allocatedWithTheGuard := 0;
    }

    // The guard as the state machine sees it when no other guard moves.
    ghost function Alone(others: seq<Guard>, log: seq<Finished>): (s: State)
      reads this, memoryConsumption
    {
      State(memoryConsumption.value, memoryLimit, [Guard(allocatedWithTheGuard, Idle)] + others, log)
    }

    // Without interference an add is its three steps in a row.
    method AddMemoryConsumed(addNumBytes: U64, ghost others: seq<Guard>, ghost log: seq<Finished>)
      returns (r: Outcome)
      modifies this`allocatedWithTheGuard, memoryConsumption
      ensures var steps := [FetchAdd(0, addNumBytes), Record(0), Validate(0)];
              && IsRun(old(Alone(others, log)), steps)
              && Exec(old(Alone(others, log)), steps)
              == Alone(others, log + [Finished(memoryConsumption.value, r)])
      ensures r.Ok? <==> memoryConsumption.value <= memoryLimit
    {
      ghost var before := Alone(others, log);
      var prevValue := memoryConsumption.FetchAdd(addNumBytes);
      allocatedWithTheGuard := Wrap(allocatedWithTheGuard + addNumBytes);
      r := ValidateMemoryConsumption(Wrap(prevValue + addNumBytes), memoryLimit);
      ThreeSteps(before, 0, addNumBytes);
    }

    method Drop(ghost others: seq<Guard>, ghost log: seq<Finished>)
      modifies memoryConsumption
      ensures Enabled(old(Alone(others, log)), Step.Drop(0))
      ensures Next(old(Alone(others, log)), Step.Drop(0))
           == State(memoryConsumption.value, memoryLimit, [Guard(0, Dropped)] + others, log)
    {
      ghost var before := Alone(others, log);
      var prev := memoryConsumption.FetchSub(allocatedWithTheGuard);
      assert before.guards[0 := Guard(0, Dropped)] == [Guard(0, Dropped)] + others;
    }
  }

  lemma {:induction false} ThreeSteps(s: State, id: nat, bytes: U64)
    requires id < |s.guards| && s.guards[id].phase.Idle?
    ensures var steps := [FetchAdd(id, bytes), Record(id), Validate(id)];
            var total := Wrap(s.counter + bytes);
            && IsRun(s, steps)
            && Exec(s, steps)
            == State(total, s.limit,
                     s.guards[id := Guard(Wrap(s.guards[id].tally + bytes), Idle)],
                     s.log + [Finished(total, ValidateMemoryConsumption(total, s.limit))])
  {
    hide Wrap;
    var s1 := Next(s, FetchAdd(id, bytes));
    var s2 := Next(s1, Record(id));
    var s3 := Next(s2, Validate(id));
    RunCons(s2, Validate(id), []);
    RunCons(s1, Record(id), [Validate(id)] + []);
    RunCons(s, FetchAdd(id, bytes), [Record(id)] + ([Validate(id)] + []));
    assert [FetchAdd(id, bytes)] + ([Record(id)] + ([Validate(id)] + []))
        == [FetchAdd(id, bytes), Record(id), Validate(id)];
    assert s3.guards == s.guards[id := Guard(Wrap(s.guards[id].tally + bytes), Idle)];
  }

  lemma {:induction false} RunCons(s: State, step: Step, rest: seq<Step>)
    requires Enabled(s, step) && IsRun(Next(s, step), rest)
    ensures IsRun(s, [step] + rest) && Exec(s, [step] + rest) == Exec(Next(s, step), rest)
  {
    hide Next, Enabled;
    assert ([step] + rest)[0] == step && ([step] + rest)[1..] == rest;
  }
}
