/**
 Async workers that share a cursor over a list of values: `mapConcurrent` and `runAll`. A worker is interrupted
 only where it awaits the operation, so a step of the pool is one worker claiming an index, ending, or storing the
 result of an operation that has completed.
 */
module WorkerPools {

  /** At the head of the loop, awaiting the operation on an index, or done. */
  datatype Worker = Ready | Running(index: nat) | Ended

  /** The loop tests the cursor before it claims (`mapConcurrent`), or only the claimed index (`runAll`). */
  datatype Style = TestsFirst | ClaimsFirst

  /** `started` lists the indices handed to the operation, in the order of the calls. */
  datatype Pool<R> = Pool(next: nat, workers: seq<Worker>, results: map<nat, R>, started: seq<nat>)

  function Initial<R>(workers: nat): Pool<R> {
    Pool(0, seq(workers, _ => Ready), map[], [])
  }

  /** A worker at the head of its loop. */
  function Claim<V, R>(style: Style, values: seq<V>, p: Pool<R>, k: nat): Pool<R>
    requires k < |p.workers|
  {
    if p.next < |values| then
      p.(next := p.next + 1, workers := p.workers[k := Running(p.next)], started := p.started + [p.next])
    else if style == TestsFirst then p.(workers := p.workers[k := Ended])
    else p.(next := p.next + 1, workers := p.workers[k := Ended])
  }

  /** A worker whose operation has completed. */
  function Store<V, R>(values: seq<V>, operation: V -> R, p: Pool<R>, k: nat, i: nat): Pool<R>
    requires k < |p.workers| && i < |values|
  {
    p.(workers := p.workers[k := Ready], results := p.results[i := operation(values[i])])
  }

  ghost predicate Step<V(!new), R(!new)>(
    style: Style, values: seq<V>, operation: V -> R, p: Pool<R>, q: Pool<R>, k: nat) {
    k < |p.workers| &&
    match p.workers[k]
    case Ready => q == Claim(style, values, p, k)
    case Running(i) => i < |values| && q == Store(values, operation, p, k, i)
    case Ended => false
  }

  ghost predicate StepsSome<V(!new), R(!new)>(style: Style, values: seq<V>, operation: V -> R, p: Pool<R>, q: Pool<R>) {
    exists k: nat :: Step(style, values, operation, p, q, k)
  }

  /** One interleaving of the workers, from the start. */
  ghost predicate IsRun<V(!new), R(!new)>(
    style: Style, values: seq<V>, operation: V -> R, workers: nat, run: seq<Pool<R>>)
  {
    && |run| > 0 && run[0] == Initial(workers)
    && forall i :: 0 <= i < |run| - 1 ==> StepsSome(style, values, operation, run[i], run[i + 1])
  }

  /** The smaller of the cursor and the number of values: how many indices have been claimed. */
  function Taken<V, R>(values: seq<V>, p: Pool<R>): nat {
    if p.next <= |values| then p.next else |values|
  }

  ghost predicate IsRunning<R>(p: Pool<R>, i: nat) {
    exists k :: 0 <= k < |p.workers| && p.workers[k] == Running(i)
  }

  /** No two workers are at one index. */
  ghost predicate Apart(workers: seq<Worker>) {
    forall j, k :: 0 <= j < k < |workers| && workers[j].Running? ==> workers[j] != workers[k]
  }

  ghost predicate Inv<V(!new), R(!new)>(values: seq<V>, operation: V -> R, p: Pool<R>) {
    && p.started == seq(Taken(values, p), i => i)
    && (forall i :: i in p.results ==> i < Taken(values, p) && p.results[i] == operation(values[i]))
    && (forall k :: 0 <= k < |p.workers| && p.workers[k].Running? ==>
          p.workers[k].index < Taken(values, p) && p.workers[k].index !in p.results)
    && Apart(p.workers)
    && (forall i: nat :: i < Taken(values, p) ==> i in p.results || IsRunning(p, i))
    && (forall k :: 0 <= k < |p.workers| && p.workers[k].Ended? ==> p.next >= |values|)
  }

  lemma ClaimKeeps<V(!new), R(!new)>(style: Style, values: seq<V>, operation: V -> R, p: Pool<R>, k: nat)
    requires Inv(values, operation, p) && k < |p.workers| && p.workers[k] == Ready
    ensures Inv(values, operation, Claim(style, values, p, k))
  {
    var q := Claim(style, values, p, k);
    forall i: nat | i < Taken(values, q) ensures i in q.results || IsRunning(q, i) {
      if i < Taken(values, p) && i !in p.results {
        var j :| 0 <= j < |p.workers| && p.workers[j] == Running(i);
        assert q.workers[j] == Running(i);
      } else if i >= Taken(values, p) {
        assert q.workers[k] == Running(i);
      }
    }
  }

  lemma StoreKeeps<V(!new), R(!new)>(values: seq<V>, operation: V -> R, p: Pool<R>, k: nat, i: nat)
    requires Inv(values, operation, p) && k < |p.workers| && p.workers[k] == Running(i) && i < |values|
    ensures Inv(values, operation, Store(values, operation, p, k, i))
  {
    var q := Store(values, operation, p, k, i);
    forall l: nat | l < Taken(values, q) ensures l in q.results || IsRunning(q, l) {
      if l !in p.results && l != i {
        var j :| 0 <= j < |p.workers| && p.workers[j] == Running(l);
        assert q.workers[j] == Running(l);
      }
    }
  }

  lemma {:induction false} RunKeeps<V(!new), R(!new)>(
    style: Style, values: seq<V>, operation: V -> R, workers: nat, run: seq<Pool<R>>, n: nat)
    requires IsRun(style, values, operation, workers, run) && n < |run|
    ensures Inv(values, operation, run[n]) && |run[n].workers| == workers
  {
    hide Inv;
    if n == 0 {
      InitialKeeps(values, operation, workers);
    } else {
      RunKeeps(style, values, operation, workers, run, n - 1);
      assert StepsSome(style, values, operation, run[n - 1], run[n - 1 + 1]);
      var k: nat :| Step(style, values, operation, run[n - 1], run[n], k);
      match run[n - 1].workers[k]
      case Ready => ClaimKeeps(style, values, operation, run[n - 1], k);
      case Running(i) => StoreKeeps(values, operation, run[n - 1], k, i);
    }
  }

  lemma InitialKeeps<V(!new), R(!new)>(values: seq<V>, operation: V -> R, workers: nat)
    ensures Inv(values, operation, Initial<R>(workers))
  {
  }

  // ----- what every interleaving guarantees -----

  /** The operations under way. */
  ghost function InFlight<R>(workers: seq<Worker>): nat {
    if workers == [] then 0
    else InFlight<R>(workers[..|workers| - 1]) + (if workers[|workers| - 1].Running? then 1 else 0)
  }

  lemma {:induction false} InFlightAtMost<R>(workers: seq<Worker>)
    ensures InFlight<R>(workers) <= |workers|
  {
    if workers != [] {
      InFlightAtMost<R>(workers[..|workers| - 1]);
    }
  }

  /** The indices under way. */
  ghost function Claimed(workers: seq<Worker>): set<nat> {
    if workers == [] then {}
    else
      var n := |workers| - 1;
      Claimed(workers[..n]) + (if workers[n].Running? then {workers[n].index} else {})
  }

  lemma {:induction false} ClaimedIs(workers: seq<Worker>)
    ensures forall i :: i in Claimed(workers) ==> Running(i) in workers
  {
    if workers != [] {
      var n := |workers| - 1;
      ClaimedIs(workers[..n]);
      assert workers == workers[..n] + [workers[n]];
    }
  }

  lemma ApartLast(workers: seq<Worker>)
    requires workers != [] && Apart(workers)
    ensures var n := |workers| - 1; Apart(workers[..n]) && (workers[n].Running? ==> workers[n] !in workers[..n])
  {
  }

  /** There are as many indices under way as operations. */
  lemma {:induction false} InFlightIsClaimed<R>(workers: seq<Worker>)
    requires Apart(workers)
    ensures InFlight<R>(workers) == |Claimed(workers)|
  {
    hide Apart;
    if workers != [] {
      var n := |workers| - 1;
      ApartLast(workers);
      InFlightIsClaimed<R>(workers[..n]);
      ClaimedIs(workers[..n]);
      hide Claimed;
      ClaimedLast(workers);
    }
  }

  lemma ClaimedLast(workers: seq<Worker>)
    requires workers != []
    ensures var n := |workers| - 1;
            Claimed(workers) == Claimed(workers[..n]) + (if workers[n].Running? then {workers[n].index} else {})
  {
  }

  lemma {:induction false} Below(s: set<nat>, n: nat)
    requires forall i :: i in s ==> i < n
    ensures |s| <= n
  {
    if n > 0 {
      Below(s - {n - 1}, n - 1);
    } else {
      assert s == {};
    }
  }

  /** No more operations are under way than there are values. */
  lemma InFlightBelow<V(!new), R(!new)>(values: seq<V>, operation: V -> R, p: Pool<R>)
    requires Inv(values, operation, p)
    ensures InFlight<R>(p.workers) <= |values|
  {
    InFlightIsClaimed<R>(p.workers);
    ClaimedIs(p.workers);
    Below(Claimed(p.workers), |values|);
  }

  ghost predicate AllEnded<R>(p: Pool<R>) {
    forall k :: 0 <= k < |p.workers| ==> p.workers[k] == Ended
  }

  /**
   On every interleaving: the indices are handed out in order, each once; no more operations are under way than
   there are workers, or values; and once all workers have ended the results are those of mapping the operation over the
   values in sequence, provided there was a worker for a non-empty list.
   */
  lemma PoolRefinesMap<V(!new), R(!new)>(
    style: Style, values: seq<V>, operation: V -> R, workers: nat, run: seq<Pool<R>>, n: nat)
    requires IsRun(style, values, operation, workers, run) && n < |run|
    ensures var p := run[n];
            && p.started == seq(Taken(values, p), i => i)
            && InFlight<R>(p.workers) <= workers && InFlight<R>(p.workers) <= |values|
            && (AllEnded(p) && (workers > 0 || values == []) ==>
                  p.results == map i: nat | i < |values| :: operation(values[i]))
  {
    RunKeeps(style, values, operation, workers, run, n);
    InFlightAtMost<R>(run[n].workers);
    InFlightBelow(values, operation, run[n]);
    if AllEnded(run[n]) && (workers > 0 || values == []) {
      EndedIsMapped(values, operation, run[n]);
    }
  }

  /** Once all workers have ended, nothing is left to claim or to store. */
  lemma EndedIsMapped<V(!new), R(!new)>(values: seq<V>, operation: V -> R, p: Pool<R>)
    requires Inv(values, operation, p) && AllEnded(p) && (|p.workers| > 0 || values == [])
    ensures p.started == seq(|values|, i => i)
    ensures p.results == map i: nat | i < |values| :: operation(values[i])
  {
    if |p.workers| > 0 {
      assert p.workers[0] == Ended;
    }
    assert Taken(values, p) == |values|;
    forall i: nat | i < |values| ensures i in p.results {
      assert !IsRunning(p, i);
    }
  }

  // ----- every interleaving ends -----

  ghost function Effort(workers: seq<Worker>): nat {
    if workers == [] then 0
    else
      Effort(workers[..|workers| - 1])
      + (match workers[|workers| - 1] case Ready => 1 case Running(_) => 2 case Ended => 0)
  }

  ghost function Work<V, R>(values: seq<V>, p: Pool<R>): nat {
    3 * (|values| - Taken(values, p)) + Effort(p.workers)
  }

  lemma {:induction false} EffortChanges(workers: seq<Worker>, k: nat, w: Worker)
    requires k < |workers|
    ensures Effort(workers[k := w]) - Effort(workers) == Effort([w]) - Effort([workers[k]])
  {
    var n := |workers| - 1;
    if k == n {
      assert workers[k := w][..n] == workers[..n];
    } else {
      assert workers[k := w][..n] == workers[..n][k := w];
      EffortChanges(workers[..n], k, w);
    }
  }

  /** Every step leaves less to do, and until all workers have ended one of them has a step. */
  lemma PoolProgresses<V(!new), R(!new)>(style: Style, values: seq<V>, operation: V -> R, p: Pool<R>)
    requires Inv(values, operation, p)
    ensures forall q, k: nat :: Step(style, values, operation, p, q, k) ==> Work(values, q) < Work(values, p)
    ensures !AllEnded(p) ==> exists q :: StepsSome(style, values, operation, p, q)
  {
    hide Inv;
    forall q, k: nat | Step(style, values, operation, p, q, k) ensures Work(values, q) < Work(values, p) {
      EffortChanges(p.workers, k, q.workers[k]);
    }
    if !AllEnded(p) {
      var k :| 0 <= k < |p.workers| && p.workers[k] != Ended;
      var q := EnabledStep(style, values, operation, p, k);
      assert Step(style, values, operation, p, q, k);
      assert StepsSome(style, values, operation, p, q);
    }
  }

  lemma StepKeepsWorkers<V(!new), R(!new)>(
    style: Style, values: seq<V>, operation: V -> R, p: Pool<R>, q: Pool<R>, k: nat)
    requires Step(style, values, operation, p, q, k)
    ensures |q.workers| == |p.workers|
  {
  }

  lemma EnabledStep<V(!new), R(!new)>(style: Style, values: seq<V>, operation: V -> R, p: Pool<R>, k: nat)
    returns (q: Pool<R>)
    requires Inv(values, operation, p) && k < |p.workers| && p.workers[k] != Ended
    ensures Step(style, values, operation, p, q, k)
  {
    match p.workers[k]
    case Ready => q := Claim(style, values, p, k);
    case Running(i) => q := Store(values, operation, p, k, i);
  }

  // ----- the code -----

  /** The closure variables that the workers share, and where each worker stands. */
  class WorkerPool<V(!new), R(!new)> {
    const style: Style
    const values: seq<V>
    const operation: V -> R
    var next: nat
    var workers: seq<Worker>
    var results: map<nat, R>
    ghost var started: seq<nat>

    constructor (style: Style, values: seq<V>, operation: V -> R, count: nat)
      ensures this.style == style && this.values == values && this.operation == operation
      ensures Now() == Initial(count)
    {
      this.style, this.values, this.operation := style, values, operation;
      next, workers, results, started := 0, seq(count, _ => Ready), map[], [];
    }

    ghost function Now(): Pool<R>
      reads this
    {
      Pool(next, workers, results, started)
    }

    /** Worker `k` runs until it calls the operation, ends, or has stored a result. */
    method Resume(k: nat)
      requires Inv(values, operation, Now()) && k < |workers| && workers[k] != Ended
      modifies this
      ensures Step(style, values, operation, old(Now()), Now(), k) && Inv(values, operation, Now())
    {
      match workers[k] {
        case Running(i) =>
          StoreKeeps(values, operation, Now(), k, i);
          results := results[i := operation(values[i])];
          workers := workers[k := Ready];
        case Ready =>
          ClaimKeeps(style, values, operation, Now(), k);
          if style == TestsFirst && next >= |values| {
            workers := workers[k := Ended];
            return;
          }
          var index := next;
          next := next + 1;
          if index >= |values| {
            workers := workers[k := Ended];
            return;
          }
          started := started + [index];
          workers := workers[k := Running(index)];
      }
    }

    /** `await Promise.all(...)`: the workers are resumed in any order until all have ended. */
    method AwaitAll()
      requires Now() == Initial(|workers|) && (|workers| > 0 || values == [])
      modifies this
      ensures AllEnded(Now()) && started == seq(|values|, i => i)
      ensures results == map i: nat | i < |values| :: operation(values[i])
    {
      hide Inv, Step;
      InitialKeeps(values, operation, |workers|);
      while exists k :: 0 <= k < |workers| && workers[k] != Ended
        invariant Inv(values, operation, Now()) && |workers| == old(|workers|)
        decreases Work(values, Now())
      {
        var k: nat :| k < |workers| && workers[k] != Ended;
        ghost var before := Now();
        PoolProgresses(style, values, operation, before);
        Resume(k);
        StepKeepsWorkers(style, values, operation, before, Now(), k);
      }
      EndedIsMapped(values, operation, Now());
    }
  }

  // ----- how many workers -----

  function Min(a: nat, b: nat): nat {
    if a <= b then a else b
  }

  /** `mapConcurrent` starts `min(jobs, n)` workers, so never more operations than jobs or values. */
  lemma MapConcurrentMaps<V(!new), R(!new)>(
    values: seq<V>, operation: V -> R, jobs: nat, run: seq<Pool<R>>, n: nat)
    requires jobs > 0 && IsRun(TestsFirst, values, operation, Min(jobs, |values|), run) && n < |run|
    ensures |run[n].workers| == (if jobs <= |values| then jobs else |values|)
    ensures InFlight<R>(run[n].workers) <= jobs && InFlight<R>(run[n].workers) <= |values|
    ensures AllEnded(run[n]) ==> run[n].results == map i: nat | i < |values| :: operation(values[i])
  {
    RunKeeps(TestsFirst, values, operation, Min(jobs, |values|), run, n);
    PoolRefinesMap(TestsFirst, values, operation, Min(jobs, |values|), run, n);
  }

  /** `runAll` finds a result for every target: its "missing result" throw is never reached. */
  lemma RunAllComplete<V(!new), R(!new)>(
    targets: seq<V>, operation: V -> R, concurrency: nat, run: seq<Pool<R>>, n: nat)
    requires (concurrency == 0 ==> targets == []) && IsRun(ClaimsFirst, targets, operation, concurrency, run)
    requires n < |run| && AllEnded(run[n])
    ensures forall i: nat :: i < |targets| ==> i in run[n].results && run[n].results[i] == operation(targets[i])
  {
    PoolRefinesMap(ClaimsFirst, targets, operation, concurrency, run, n);
  }
}
