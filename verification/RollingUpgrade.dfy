/**
 The rolling upgrade coordinator as a transition system. Nodes are the indices
 of the node list. The coordinator spawns one goroutine per node of the current
 batch, waits for the WaitGroup and then drains the error channel; goroutines
 take a slot of the semaphore, call the upgrade function, report an error,
 give the slot back and leave the WaitGroup. Any enabled step may come next.
 */
module RollingUpgrade {
  import opened Sequences

  /** Both limits are at least one: the constructor of the source replaces smaller values. */
  datatype Config = Config(n: nat, maxUnavailable: nat, maxConcurrent: nat) {
    ghost predicate Valid() {
      maxUnavailable > 0 && maxConcurrent > 0
    }
  }

  function NewCoordinator(n: nat, maxUnavailable: int, maxConcurrent: int): (c: Config)
    ensures c.Valid() && c.n == n
    ensures maxUnavailable > 0 ==> c.maxUnavailable == maxUnavailable
    ensures maxUnavailable <= 0 ==> c.maxUnavailable == 1
    ensures maxConcurrent > 0 ==> c.maxConcurrent == maxConcurrent
    ensures maxConcurrent <= 0 ==> c.maxConcurrent == 1
  {
    Config(n, if maxUnavailable <= 0 then 1 else maxUnavailable, if maxConcurrent <= 0 then 1 else maxConcurrent)
  }

  // ----- Batches

  function Flatten<T>(batches: seq<seq<T>>): seq<T> {
    if batches == [] then [] else Flatten(batches[..|batches| - 1]) + batches[|batches| - 1]
  }

  function Min(a: int, b: int): int {
    if a <= b then a else b
  }

  /** The index of the first node of batch `k`. */
  function Start(k: nat, u: nat): nat {
    if k == 0 then 0 else Start(k - 1, u) + u
  }

  ghost predicate IsBatch<T>(nodes: seq<T>, u: nat, k: nat, batch: seq<T>) {
    Start(k, u) < |nodes| && batch == nodes[Start(k, u)..Min(Start(k, u) + u, |nodes|)]
  }

  method CreateBatches<T>(nodes: seq<T>, maxUnavailable: nat) returns (batches: seq<seq<T>>)
    requires maxUnavailable > 0
    ensures Flatten(batches) == nodes
    ensures forall k :: 0 <= k < |batches| ==> IsBatch(nodes, maxUnavailable, k, batches[k])
    ensures |nodes| <= Start(|batches|, maxUnavailable)
  {
    batches := [];
    var i := 0;
    while i < |nodes|
      invariant i == Start(|batches|, maxUnavailable)
      invariant Flatten(batches) == nodes[..Min(i, |nodes|)]
      invariant forall k :: 0 <= k < |batches| ==> IsBatch(nodes, maxUnavailable, k, batches[k])
    {
      var end := i + maxUnavailable;
      if end > |nodes| { end := |nodes|; }
      ghost var before := batches;
      batches := batches + [nodes[i..end]];
      assert batches[..|batches| - 1] == before;
      assert IsBatch(nodes, maxUnavailable, |before|, nodes[i..end]);
      assert nodes[..i] + nodes[i..end] == nodes[..end];
      i := i + maxUnavailable;
    }
    assert nodes[..|nodes|] == nodes;
  }

  // ----- The transition system

  datatype Pc = Unspawned | Waiting | Upgrading | Sending | Releasing | Exiting | Finished {
    function Rank(): nat {
      match this
      case Unspawned => 0 case Waiting => 1 case Upgrading => 2 case Sending => 3
      case Releasing => 4 case Exiting => 5 case Finished => 6
    }
    /** The goroutine occupies a slot of the semaphore. */
    predicate HoldsSlot() { Upgrading? || Sending? || Releasing? }
    /** The upgrade function has been called for the node. */
    predicate Started() { Rank() >= 2 }
    /** The goroutine is counted by the WaitGroup. */
    predicate Alive() { !Unspawned? && !Finished? }
  }

  datatype Outcome = Running | Succeeded | Failed(batch: nat, errors: seq<nat>)

  /**
   `batch` and `lo` are the current batch and its first node, `next` the next
   node to spawn, `sem` the occupied slots, `wg` the WaitGroup counter and `errs`
   the buffered errors. `failed` and `starts` record what happened so far.
   */
  datatype State = State(batch: nat, lo: nat, next: nat, pcs: seq<Pc>, sem: nat, wg: nat, errs: seq<nat>,
                         outcome: Outcome, failed: set<nat>, starts: seq<nat>)

  datatype Step =
    | Spawn | Acquire(i: nat) | Return(i: nat, ok: bool) | Send(i: nat) | Release(i: nat) | Done(i: nat) | Join

  /** The end of the current batch. */
  function Hi(c: Config, s: State): int {
    Min(s.lo + c.maxUnavailable, c.n)
  }

  function Init(c: Config): State {
    State(0, 0, 0, seq(c.n, _ => Unspawned), 0, 0, [], if c.n == 0 then Succeeded else Running, {}, [])
  }

  ghost predicate Enabled(c: Config, s: State, step: Step) {
    match step
    case Spawn => s.outcome.Running? && s.next < Hi(c, s) && s.next < |s.pcs|
    case Acquire(i) => i < |s.pcs| && s.pcs[i].Waiting? && s.sem < c.maxConcurrent
    case Return(i, _) => i < |s.pcs| && s.pcs[i].Upgrading?
    case Send(i) => i < |s.pcs| && s.pcs[i].Sending? && |s.errs| < Hi(c, s) - s.lo
    case Release(i) => i < |s.pcs| && s.pcs[i].Releasing? && s.sem > 0
    case Done(i) => i < |s.pcs| && s.pcs[i].Exiting? && s.wg > 0
    case Join => s.outcome.Running? && s.next == Hi(c, s) && s.wg == 0
  }

  function Apply(c: Config, s: State, step: Step): State
    requires Enabled(c, s, step)
  {
    match step
    case Spawn => s.(pcs := s.pcs[s.next := Waiting], next := s.next + 1, wg := s.wg + 1)
    case Acquire(i) => s.(pcs := s.pcs[i := Upgrading], sem := s.sem + 1, starts := s.starts + [i])
    case Return(i, ok) =>
      if ok then s.(pcs := s.pcs[i := Releasing])
      else s.(pcs := s.pcs[i := Sending], failed := s.failed + {i})
    case Send(i) => s.(pcs := s.pcs[i := Releasing], errs := s.errs + [i])
    case Release(i) => s.(pcs := s.pcs[i := Exiting], sem := s.sem - 1)
    case Done(i) => s.(pcs := s.pcs[i := Finished], wg := s.wg - 1)
    case Join =>
      if |s.errs| > 0 then s.(outcome := Failed(s.batch, s.errs))
      else if Hi(c, s) == c.n then s.(outcome := Succeeded)
      else s.(batch := s.batch + 1, lo := Hi(c, s), next := Hi(c, s), sem := 0, errs := [])
  }

  ghost predicate IsRun(c: Config, states: seq<State>, steps: seq<Step>) {
    && |states| == |steps| + 1
    && states[0] == Init(c)
    && forall k :: 0 <= k < |steps| ==>
         Enabled(c, states[k], steps[k]) && states[k + 1] == Apply(c, states[k], steps[k])
  }

  // ----- The invariant, one concern at a time

  ghost function Holders(pcs: seq<Pc>): set<nat> {
    set i: nat | i < |pcs| && pcs[i].HoldsSlot()
  }

  ghost function Counted(pcs: seq<Pc>): set<nat> {
    set i: nat | i < |pcs| && pcs[i].Alive()
  }

  lemma HoldersUpdate(pcs: seq<Pc>, i: nat, pc: Pc)
    requires i < |pcs|
    ensures |Holders(pcs[i := pc])| ==
      |Holders(pcs)| + (if pc.HoldsSlot() then 1 else 0) - if pcs[i].HoldsSlot() then 1 else 0
  {
    var others := Holders(pcs) - {i};
    assert Holders(pcs) == if pcs[i].HoldsSlot() then others + {i} else others;
    assert Holders(pcs[i := pc]) == if pc.HoldsSlot() then others + {i} else others;
  }

  lemma CountedUpdate(pcs: seq<Pc>, i: nat, pc: Pc)
    requires i < |pcs|
    ensures |Counted(pcs[i := pc])| ==
      |Counted(pcs)| + (if pc.Alive() then 1 else 0) - if pcs[i].Alive() then 1 else 0
  {
    var others := Counted(pcs) - {i};
    assert Counted(pcs) == if pcs[i].Alive() then others + {i} else others;
    assert Counted(pcs[i := pc]) == if pc.Alive() then others + {i} else others;
  }

  /** The goroutine a step belongs to and where the step leaves it. */
  function Moved(s: State, step: Step): (nat, Pc) {
    match step
    case Spawn => (s.next, Waiting)
    case Acquire(i) => (i, Upgrading)
    case Return(i, ok) => (i, if ok then Releasing else Sending)
    case Send(i) => (i, Releasing)
    case Release(i) => (i, Exiting)
    case Done(i) => (i, Finished)
    case Join => (0, Unspawned)
  }

  ghost predicate BatchInv(c: Config, s: State) {
    && |s.pcs| == c.n
    && s.lo == Start(s.batch, c.maxUnavailable)
    && s.lo <= s.next <= Hi(c, s)
    && (s.outcome.Running? ==> s.lo < c.n)
    && (forall i :: 0 <= i < s.lo ==> s.pcs[i].Finished?)
    && (forall i :: s.lo <= i < s.next ==> !s.pcs[i].Unspawned?)
    && (forall i :: s.next <= i < c.n ==> s.pcs[i].Unspawned?)
  }

  ghost predicate CountInv(c: Config, s: State) {
    s.sem == |Holders(s.pcs)| && s.sem <= c.maxConcurrent && s.wg == |Counted(s.pcs)|
  }

  ghost predicate ErrorInv(c: Config, s: State) {
    && (forall i :: i in s.failed ==> s.lo <= i < s.next && i < |s.pcs| && s.pcs[i].Rank() >= 3)
    && (forall i :: 0 <= i < |s.pcs| && s.pcs[i].Sending? ==> i in s.failed)
    && (forall i: nat :: i in s.errs <==> i in s.failed && i < |s.pcs| && !s.pcs[i].Sending?)
    && (forall a, b :: 0 <= a < b < |s.errs| ==> s.errs[a] != s.errs[b])
  }

  ghost predicate StartInv(c: Config, s: State) {
    && (forall i: nat :: i in s.starts <==> i < |s.pcs| && s.pcs[i].Started())
    && (forall a, b :: 0 <= a < b < |s.starts| ==> s.starts[a] != s.starts[b])
  }

  ghost predicate OutcomeInv(c: Config, s: State) {
    match s.outcome
    case Running => true
    case Succeeded => s.failed == {} && s.next == c.n && s.wg == 0
    case Failed(b, errors) => b == s.batch && errors == s.errs && errors != [] && s.next == Hi(c, s) && s.wg == 0
  }

  ghost predicate Inv(c: Config, s: State) {
    BatchInv(c, s) && CountInv(c, s) && ErrorInv(c, s) && StartInv(c, s) && OutcomeInv(c, s)
  }

  lemma InitEstablishes(c: Config)
    requires c.Valid()
    ensures Inv(c, Init(c))
  {
    assert Holders(Init(c).pcs) == {} && Counted(Init(c).pcs) == {};
  }

  /** Once nobody is counted, every spawned goroutine has finished. */
  lemma NobodyCounted(c: Config, s: State)
    requires BatchInv(c, s) && CountInv(c, s) && s.wg == 0
    ensures forall i :: 0 <= i < s.next ==> s.pcs[i].Finished?
    ensures s.sem == 0
  {
    forall i | 0 <= i < s.next
      ensures s.pcs[i].Finished?
    {
      assert Counted(s.pcs) == {};
      assert i !in Counted(s.pcs);
    }
    assert Holders(s.pcs) <= Counted(s.pcs);
  }

  lemma BatchKept(c: Config, s: State, step: Step)
    requires c.Valid() && BatchInv(c, s) && CountInv(c, s) && Enabled(c, s, step)
    ensures BatchInv(c, Apply(c, s, step))
  {
    if step.Join? {
      NobodyCounted(c, s);
    }
  }

  lemma CountKept(c: Config, s: State, step: Step)
    requires BatchInv(c, s) && CountInv(c, s) && Enabled(c, s, step)
    ensures CountInv(c, Apply(c, s, step))
  {
    if step.Join? {
      NobodyCounted(c, s);
    } else {
      var (i, pc) := Moved(s, step);
      HoldersUpdate(s.pcs, i, pc);
      CountedUpdate(s.pcs, i, pc);
    }
  }

  lemma ErrorKeptByReturn(c: Config, s: State, i: nat, ok: bool)
    requires BatchInv(c, s) && ErrorInv(c, s) && Enabled(c, s, Return(i, ok))
    ensures ErrorInv(c, Apply(c, s, Return(i, ok)))
  {
    assert i !in s.failed;
  }

  lemma ErrorKeptBySend(c: Config, s: State, i: nat)
    requires BatchInv(c, s) && ErrorInv(c, s) && Enabled(c, s, Send(i))
    ensures ErrorInv(c, Apply(c, s, Send(i)))
  {
    assert i in s.failed && i !in s.errs;
  }

  lemma ErrorKeptByOthers(c: Config, s: State, step: Step)
    requires BatchInv(c, s) && ErrorInv(c, s) && Enabled(c, s, step)
    requires step.Spawn? || step.Acquire? || step.Release? || step.Done?
    ensures ErrorInv(c, Apply(c, s, step))
  {
  }

  lemma ErrorKeptByJoin(c: Config, s: State)
    requires BatchInv(c, s) && CountInv(c, s) && ErrorInv(c, s) && Enabled(c, s, Join)
    ensures ErrorInv(c, Apply(c, s, Join))
  {
    NobodyCounted(c, s);
    FailuresAreReported(c, s);
  }

  lemma ErrorKept(c: Config, s: State, step: Step)
    requires Inv(c, s) && Enabled(c, s, step)
    ensures ErrorInv(c, Apply(c, s, step))
  {
    match step
    case Return(i, ok) => ErrorKeptByReturn(c, s, i, ok);
    case Send(i) => ErrorKeptBySend(c, s, i);
    case Join => ErrorKeptByJoin(c, s);
    case _ => ErrorKeptByOthers(c, s, step);
  }

  /** When all goroutines are gone the channel holds exactly the failed nodes. */
  lemma FailuresAreReported(c: Config, s: State)
    requires BatchInv(c, s) && ErrorInv(c, s)
    requires forall i :: 0 <= i < s.next ==> s.pcs[i].Finished?
    ensures forall i: nat :: i in s.errs <==> i in s.failed
    ensures s.errs == [] <==> s.failed == {}
  {
    if s.failed != {} {
      var i :| i in s.failed;
      assert i in s.errs;
    }
    if s.errs != [] {
      assert s.errs[0] in s.failed;
    }
  }

  lemma StartKept(c: Config, s: State, step: Step)
    requires BatchInv(c, s) && StartInv(c, s) && Enabled(c, s, step)
    ensures StartInv(c, Apply(c, s, step))
  {
    if step.Acquire? {
      assert step.i !in s.starts;
    }
  }

  lemma OutcomeKept(c: Config, s: State, step: Step)
    requires c.Valid() && Inv(c, s) && Enabled(c, s, step)
    ensures OutcomeInv(c, Apply(c, s, step))
  {
    if step.Join? {
      NobodyCounted(c, s);
      FailuresAreReported(c, s);
    } else if s.wg == 0 && !s.outcome.Running? {
      NobodyCounted(c, s);
    }
  }

  lemma StepKeeps(c: Config, s: State, step: Step)
    requires c.Valid() && Inv(c, s) && Enabled(c, s, step)
    ensures Inv(c, Apply(c, s, step))
  {
    BatchKept(c, s, step);
    CountKept(c, s, step);
    ErrorKept(c, s, step);
    StartKept(c, s, step);
    OutcomeKept(c, s, step);
  }

  /** The invariant holds in every state of every interleaving. */
  lemma {:induction false} RunKeeps(c: Config, states: seq<State>, steps: seq<Step>, k: nat)
    requires c.Valid() && IsRun(c, states, steps) && k < |states|
    ensures Inv(c, states[k])
    decreases k
  {
    if k == 0 {
      InitEstablishes(c);
    } else {
      RunKeeps(c, states, steps, k - 1);
      assert Enabled(c, states[k - 1], steps[k - 1]) && states[k] == states[k - 1 + 1];
      StepKeeps(c, states[k - 1], steps[k - 1]);
    }
  }

  // ----- What the state records of the steps taken

  ghost predicate Returned(done: seq<Step>, i: nat) {
    Return(i, true) in done || Return(i, false) in done
  }

  /** After the steps `done` the state knows whether the call for node `i` was begun, has returned and has failed. */
  ghost predicate Records(s: State, done: seq<Step>, i: nat) {
    && (i in s.failed <==> Return(i, false) in done)
    && (i in s.starts <==> Acquire(i) in done)
    && (i < |s.pcs| ==> (s.pcs[i].Rank() >= 3 <==> Returned(done, i)) && (s.pcs[i].Finished? <==> Done(i) in done))
  }

  lemma RecordsStep(c: Config, s: State, step: Step, done: seq<Step>, i: nat)
    requires BatchInv(c, s) && Enabled(c, s, step) && Records(s, done, i)
    ensures Records(Apply(c, s, step), done + [step], i)
  {
  }

  lemma {:induction false} RunRecords(c: Config, states: seq<State>, steps: seq<Step>, k: nat, i: nat)
    requires c.Valid() && IsRun(c, states, steps) && k < |states|
    ensures Records(states[k], steps[..k], i)
    decreases k
  {
    if k > 0 {
      RunKeeps(c, states, steps, k - 1);
      RunRecords(c, states, steps, k - 1, i);
      assert Enabled(c, states[k - 1], steps[k - 1]) && states[k] == states[k - 1 + 1];
      RecordsStep(c, states[k - 1], steps[k - 1], steps[..k - 1], i);
      assert steps[..k] == steps[..k - 1] + [steps[k - 1]];
    }
  }

  // ----- Safety of every interleaving

  /** The batch of a node. */
  function BatchOf(c: Config, i: nat): nat
    requires c.Valid()
  {
    i / c.maxUnavailable
  }

  lemma {:induction false} StartIsMultiple(k: nat, u: nat)
    ensures Start(k, u) == k * u
  {
    if k > 0 {
      StartIsMultiple(k - 1, u);
    }
  }

  lemma BatchBounds(u: nat, k: nat, i: nat)
    requires u > 0
    ensures i < Start(k, u) <==> i / u < k
  {
    StartIsMultiple(k, u);
    var q := i / u;
    assert q * u <= i < q * u + u;
    if q < k {
      MulMonotone(q + 1, k, u);
    } else {
      MulMonotone(k, q, u);
    }
  }

  lemma MulMonotone(a: nat, b: nat, u: nat)
    requires a <= b
    ensures a * u <= b * u
  {
  }

  /** Never more than min(maxConcurrent, maxUnavailable) calls of the upgrade function have begun and not returned. */
  lemma ConcurrencyBound(c: Config, states: seq<State>, steps: seq<Step>, k: nat)
    requires c.Valid() && IsRun(c, states, steps) && k < |states|
    ensures |set i: nat | i < c.n && Acquire(i) in steps[..k] && !Returned(steps[..k], i)| <=
      Min(c.maxConcurrent, c.maxUnavailable)
  {
    RunKeeps(c, states, steps, k);
    var s := states[k];
    var inside := set i: nat | i < c.n && Acquire(i) in steps[..k] && !Returned(steps[..k], i);
    forall i | i in inside
      ensures i in Holders(s.pcs) && s.lo <= i < s.next
    {
      RunRecords(c, states, steps, k, i);
    }
    CardinalityMonotone(inside, Holders(s.pcs));
    CardinalityMonotone(inside, Window(s.lo, s.next));
  }

  lemma CardinalityMonotone(a: set<nat>, b: set<nat>)
    requires a <= b
    ensures |a| <= |b|
  {
    assert b == a + (b - a);
  }

  /** The nodes from `lo` up to `hi`. */
  ghost function Window(lo: nat, hi: nat): (w: set<nat>)
    requires lo <= hi
    ensures |w| == hi - lo
    ensures forall i: nat :: i in w <==> lo <= i < hi
    decreases hi
  {
    if lo == hi then {} else Window(lo, hi - 1) + {hi - 1}
  }

  /** The upgrade of a node begins only after every node of all earlier batches has left the WaitGroup. */
  lemma Barrier(c: Config, states: seq<State>, steps: seq<Step>, k: nat, i: nat, j: nat)
    requires c.Valid() && IsRun(c, states, steps) && k < |steps|
    requires i < c.n && BatchOf(c, i) < BatchOf(c, j) && steps[k] == Acquire(j)
    ensures Done(i) in steps[..k]
  {
    RunKeeps(c, states, steps, k);
    RunRecords(c, states, steps, k, i);
    var s := states[k];
    assert Enabled(c, s, steps[k]);
    BatchBounds(c.maxUnavailable, s.batch + 1, j);
    BatchBounds(c.maxUnavailable, s.batch, i);
  }

  /** Once the upgrade function has returned an error no upgrade of a node of a later batch ever begins. */
  lemma FailureStopsTheRollout(c: Config, states: seq<State>, steps: seq<Step>, k: nat, m: nat, f: nat, j: nat)
    requires c.Valid() && IsRun(c, states, steps) && k < |steps| && m < |steps|
    requires steps[k] == Return(f, false) && steps[m] == Acquire(j)
    ensures BatchOf(c, j) <= BatchOf(c, f)
  {
    var end := |steps|;
    RunKeeps(c, states, steps, end);
    assert steps[..end] == steps;
    RunRecords(c, states, steps, end, f);
    RunRecords(c, states, steps, end, j);
    BatchBounds(c.maxUnavailable, states[end].batch, f);
    BatchBounds(c.maxUnavailable, states[end].batch + 1, j);
  }

  /** No node is upgraded twice. */
  lemma EachNodeStartsOnce(c: Config, states: seq<State>, steps: seq<Step>, k: nat, m: nat, i: nat)
    requires c.Valid() && IsRun(c, states, steps) && k <= m < |steps|
    requires steps[k] == Acquire(i) && steps[m] == Acquire(i)
    ensures k == m
  {
    RunKeeps(c, states, steps, m);
    RunRecords(c, states, steps, m, i);
    assert Enabled(c, states[m], steps[m]);
    assert Acquire(i) !in steps[..m];
  }

  // ----- Progress

  /** Reporting an error never blocks: the channel has room for the whole batch. */
  lemma SendNeverBlocks(c: Config, s: State, i: nat)
    requires c.Valid() && Inv(c, s) && i < |s.pcs| && s.pcs[i].Sending?
    ensures Enabled(c, s, Send(i))
  {
    DistinctSize(s.errs);
    var window := Window(s.lo, s.next);
    assert i in window && Elements(s.errs) <= window - {i};
    CardinalityMonotone(Elements(s.errs), window - {i});
  }

  /** A goroutine that holds a slot can always move, whatever its upgrade function returns. */
  lemma HolderMoves(c: Config, s: State, i: nat, failing: set<nat>) returns (step: Step)
    requires c.Valid() && Inv(c, s) && i in Holders(s.pcs)
    ensures Enabled(c, s, step) && (step.Return? ==> step.ok == (step.i !in failing))
  {
    match s.pcs[i]
    case Upgrading => step := Return(i, i !in failing);
    case Sending => SendNeverBlocks(c, s, i); step := Send(i);
    case Releasing => assert |Holders(s.pcs)| > 0; step := Release(i);
  }

  /** No interleaving deadlocks: whichever nodes fail, some step is enabled until the coordinator returns. */
  lemma NoDeadlock(c: Config, states: seq<State>, steps: seq<Step>, k: nat, failing: set<nat>) returns (step: Step)
    requires c.Valid() && IsRun(c, states, steps) && k < |states| && states[k].outcome.Running?
    ensures Enabled(c, states[k], step) && (step.Return? ==> step.ok == (step.i !in failing))
  {
    RunKeeps(c, states, steps, k);
    var s := states[k];
    if s.next < Hi(c, s) {
      step := Spawn;
    } else if s.wg == 0 {
      step := Join;
    } else {
      var i :| i in Counted(s.pcs);
      match s.pcs[i]
      case Waiting =>
        if s.sem < c.maxConcurrent {
          step := Acquire(i);
        } else {
          var h :| h in Holders(s.pcs);
          step := HolderMoves(c, s, h, failing);
        }
      case Exiting => step := Done(i);
      case Upgrading => step := HolderMoves(c, s, i, failing);
      case Sending => step := HolderMoves(c, s, i, failing);
      case Releasing => step := HolderMoves(c, s, i, failing);
    }
  }

  ghost function Remaining(pcs: seq<Pc>): nat {
    if pcs == [] then 0 else Remaining(pcs[..|pcs| - 1]) + 6 - pcs[|pcs| - 1].Rank()
  }

  lemma {:induction false} RemainingUpdate(pcs: seq<Pc>, i: nat, pc: Pc)
    requires i < |pcs|
    ensures Remaining(pcs[i := pc]) == Remaining(pcs) + pcs[i].Rank() - pc.Rank()
  {
    var last := |pcs| - 1;
    if i == last {
      assert pcs[i := pc][..last] == pcs[..last];
    } else {
      RemainingUpdate(pcs[..last], i, pc);
      assert pcs[i := pc][..last] == pcs[..last][i := pc];
    }
  }

  ghost function Measure(c: Config, s: State): int {
    Remaining(s.pcs) + c.n - s.lo + if s.outcome.Running? then 1 else 0
  }

  lemma MoveDecreases(c: Config, s: State, step: Step)
    requires BatchInv(c, s) && Enabled(c, s, step) && !step.Join?
    ensures 0 <= Measure(c, Apply(c, s, step)) < Measure(c, s)
  {
    var (i, pc) := Moved(s, step);
    assert i < |s.pcs| && s.pcs[i].Rank() < pc.Rank();
    RemainingUpdate(s.pcs, i, pc);
  }

  /** Every step brings the run closer to its end. */
  lemma StepDecreases(c: Config, s: State, step: Step)
    requires c.Valid() && Inv(c, s) && Enabled(c, s, step)
    ensures 0 <= Measure(c, Apply(c, s, step)) < Measure(c, s)
  {
    if !step.Join? {
      MoveDecreases(c, s, step);
    }
  }

  lemma {:induction false} FreshRemaining(pcs: seq<Pc>)
    requires forall i :: 0 <= i < |pcs| ==> pcs[i].Unspawned?
    ensures Remaining(pcs) == 6 * |pcs|
  {
    if pcs != [] {
      FreshRemaining(pcs[..|pcs| - 1]);
    }
  }

  /** Every interleaving ends after at most seven steps per node and one more. */
  lemma RunsAreBounded(c: Config, states: seq<State>, steps: seq<Step>)
    requires c.Valid() && IsRun(c, states, steps)
    ensures |steps| <= 7 * c.n + 1
  {
    FreshRemaining(Init(c).pcs);
    for k := 0 to |steps|
      invariant Measure(c, states[k]) + k <= 7 * c.n + 1
    {
      RunKeeps(c, states, steps, k);
      StepDecreases(c, states[k], steps[k]);
    }
    RunKeeps(c, states, steps, |steps|);
  }

  /**
   When the coordinator has returned: it reports an error exactly when some call
   of the upgrade function returned one, and then names the batch and exactly its
   failed nodes, once each; otherwise the call for every node returned without one.
   */
  lemma ReturnedResult(c: Config, states: seq<State>, steps: seq<Step>, k: nat)
    requires c.Valid() && IsRun(c, states, steps) && k < |states| && !states[k].outcome.Running?
    ensures states[k].outcome.Failed? <==> exists i :: Return(i, false) in steps[..k]
    ensures states[k].outcome.Failed? ==>
      && (forall i: nat :: i in states[k].outcome.errors <==> Return(i, false) in steps[..k])
      && (forall i: nat :: i in states[k].outcome.errors ==> BatchOf(c, i) == states[k].outcome.batch)
      && |Elements(states[k].outcome.errors)| == |states[k].outcome.errors|
    ensures states[k].outcome.Succeeded? ==> forall i: nat :: i < c.n ==> Return(i, true) in steps[..k]
  {
    var outcome := states[k].outcome;
    RunKeeps(c, states, steps, k);
    DistinctSize(states[k].errs);
    forall i: nat
      ensures outcome.Failed? ==> (i in outcome.errors <==> Return(i, false) in steps[..k])
      ensures outcome.Failed? && i in outcome.errors ==> BatchOf(c, i) == outcome.batch
      ensures outcome.Succeeded? ==> Return(i, false) !in steps[..k]
      ensures outcome.Succeeded? && i < c.n ==> Return(i, true) in steps[..k]
    {
      NodeResult(c, states, steps, k, i);
    }
    if outcome.Failed? {
      assert outcome.errors[0] in outcome.errors;
    }
  }

  /** The result as far as one node is concerned. */
  lemma NodeResult(c: Config, states: seq<State>, steps: seq<Step>, k: nat, i: nat)
    requires c.Valid() && IsRun(c, states, steps) && k < |states| && !states[k].outcome.Running?
    ensures var outcome := states[k].outcome;
      && (outcome.Failed? ==>
            && (i in outcome.errors <==> Return(i, false) in steps[..k])
            && (i in outcome.errors ==> BatchOf(c, i) == outcome.batch))
      && (outcome.Succeeded? ==>
            Return(i, false) !in steps[..k] && (i < c.n ==> Return(i, true) in steps[..k]))
  {
    RunKeeps(c, states, steps, k);
    RunRecords(c, states, steps, k, i);
    NobodyCounted(c, states[k]);
    FailuresAreReported(c, states[k]);
    BatchBounds(c.maxUnavailable, states[k].batch, i);
    BatchBounds(c.maxUnavailable, states[k].batch + 1, i);
  }

  /** The calls return errors exactly for the nodes in `failing`. */
  ghost predicate Follows(steps: seq<Step>, failing: set<nat>) {
    forall i: nat :: (Return(i, true) in steps ==> i !in failing) && (Return(i, false) in steps ==> i in failing)
  }

  /**
   The result does not depend on the interleaving: the first batch that holds a
   failing node ends the rollout, with exactly the failing nodes of that batch.
   */
  lemma OutcomeIsDetermined(c: Config, states: seq<State>, steps: seq<Step>, k: nat, failing: set<nat>)
    requires c.Valid() && IsRun(c, states, steps) && k < |states| && !states[k].outcome.Running?
    requires Follows(steps[..k], failing)
    ensures states[k].outcome.Succeeded? <==> forall i: nat :: i < c.n ==> i !in failing
    ensures states[k].outcome.Failed? ==>
      && (forall i: nat :: i in states[k].outcome.errors <==>
            i < c.n && i in failing && BatchOf(c, i) == states[k].outcome.batch)
      && (forall i: nat :: i < c.n && BatchOf(c, i) < states[k].outcome.batch ==> i !in failing)
  {
    var outcome := states[k].outcome;
    RunKeeps(c, states, steps, k);
    forall i: nat
      ensures outcome.Succeeded? && i < c.n ==> i !in failing
      ensures outcome.Failed? ==>
        (i in outcome.errors <==> i < c.n && i in failing && BatchOf(c, i) == outcome.batch)
      ensures outcome.Failed? && i < c.n && BatchOf(c, i) < outcome.batch ==> i !in failing
    {
      NodeResult(c, states, steps, k, i);
      NodeReturned(c, states, steps, k, i);
    }
    if outcome.Failed? {
      assert outcome.errors[0] in outcome.errors;
    }
  }

  /** When the coordinator has returned, so has the call for every node of the batches it has begun. */
  lemma NodeReturned(c: Config, states: seq<State>, steps: seq<Step>, k: nat, i: nat)
    requires c.Valid() && IsRun(c, states, steps) && k < |states| && !states[k].outcome.Running?
    ensures Return(i, false) in steps[..k] ==> i < c.n
    ensures var outcome := states[k].outcome;
      outcome.Failed? && i < c.n && BatchOf(c, i) <= outcome.batch ==> Returned(steps[..k], i)
  {
    RunKeeps(c, states, steps, k);
    RunRecords(c, states, steps, k, i);
    NobodyCounted(c, states[k]);
    BatchBounds(c.maxUnavailable, states[k].batch + 1, i);
  }

  /** Whichever nodes are to fail, some complete run has exactly their calls return errors. */
  lemma EveryOutcomeHappens(c: Config, failing: set<nat>) returns (states: seq<State>, steps: seq<Step>)
    requires c.Valid()
    ensures IsRun(c, states, steps) && !states[|steps|].outcome.Running? && Follows(steps, failing)
  {
    states, steps := [Init(c)], [];
    while states[|steps|].outcome.Running?
      invariant IsRun(c, states, steps) && Follows(steps, failing)
      decreases 7 * c.n + 2 - |steps|
    {
      RunsAreBounded(c, states, steps);
      var step := NoDeadlock(c, states, steps, |steps|, failing);
      states, steps := states + [Apply(c, states[|steps|], step)], steps + [step];
    }
  }
}
