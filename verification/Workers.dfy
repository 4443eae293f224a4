/** Worker threads that claim indices from one shared counter, under every schedule. */
module Workers {
  import opened Features
  import opened BottomUp
  import opened StaticCapabilities

  datatype Outcome<T, E> = Returned(value: T) | Threw(error: E)

  /** Where a worker is: about to claim, inside the body of a claimed index, or done. */
  datatype Worker = Claiming | Running(index: nat) | Stopped

  /** begun records the indices whose bodies have been entered, in order. */
  datatype Pool<T, E> = Pool(
    next: nat,
    workers: seq<Worker>,
    slots: seq<Option<T>>,
    firstError: Option<E>,
    begun: seq<nat>)

  const MIN_FUNCTIONS_PER_WORKER := 24

  /** How many workers to start; hardware is the machine's own count, zero if unknown. */
  function ResolveWorkerCount(requested: nat, hardware: nat, work: nat): (count: nat)
    ensures count >= 1
    ensures count > 1 ==> count * MIN_FUNCTIONS_PER_WORKER <= work
    ensures requested >= 1 ==> count <= requested
    ensures requested == 0 && count > 1 ==> count <= hardware
  {
    if requested == 1 || work <= MIN_FUNCTIONS_PER_WORKER then 1
    else
      var want := if requested != 0 then requested else if hardware != 0 then hardware else 1;
      var byWork := (work / MIN_FUNCTIONS_PER_WORKER) % 0x1_0000_0000;
      var least := if byWork < want then byWork else want;
      if least == 0 then 1 else least
  }

  /** No larger count would do, as long as the count by work fits 32 bits. */
  lemma MostWorkers(requested: nat, hardware: nat, work: nat, count: nat)
    requires work / MIN_FUNCTIONS_PER_WORKER < 0x1_0000_0000 && count * MIN_FUNCTIONS_PER_WORKER <= work
    requires count <= if requested == 0 then hardware else requested
    ensures count <= ResolveWorkerCount(requested, hardware, work)
  {
    assert count <= work / MIN_FUNCTIONS_PER_WORKER;
  }

  function Initial<T, E>(n: nat, workers: nat): Pool<T, E> {
    Pool(0, seq(workers, _ => Claiming), seq(n, _ => None), None, [])
  }

  /** One atomic step of worker w: a claim, or the end of a body. */
  function Step<T, E>(p: Pool<T, E>, body: nat -> Outcome<T, E>, w: nat): Pool<T, E> {
    if w >= |p.workers| then p
    else
      match p.workers[w]
      case Stopped => p
      case Claiming =>
        if p.next >= |p.slots| then p.(next := p.next + 1, workers := p.workers[w := Stopped])
        else p.(next := p.next + 1, workers := p.workers[w := Running(p.next)], begun := p.begun + [p.next])
      case Running(i) => (
        match body(i)
        case Returned(v) =>
          if i < |p.slots| then p.(slots := p.slots[i := Some(v)], workers := p.workers[w := Claiming]) else p
        case Threw(e) =>
          p.(firstError := (if p.firstError.None? then Some(e) else p.firstError), workers := p.workers[w := Stopped]))
  }

  /** The pool after the workers took their steps in the order the schedule names them. */
  function Run<T, E>(n: nat, workers: nat, body: nat -> Outcome<T, E>, schedule: seq<nat>): Pool<T, E> {
    if schedule == [] then Initial(n, workers)
    else Step(Run(n, workers, body, schedule[..|schedule| - 1]), body, schedule[|schedule| - 1])
  }

  predicate Finished<T, E>(p: Pool<T, E>) {
    forall w | w in p.workers :: w.Stopped?
  }

  // ----- what every reachable pool satisfies

  /** The bodies begun are those of the claimed indices, in claiming order; each one is
      still running, has filled its slot, or has thrown. */
  ghost predicate Consistent<T, E>(p: Pool<T, E>, n: nat, workers: nat, body: nat -> Outcome<T, E>) {
    && |p.slots| == n && |p.workers| == workers
    && p.begun == seq(if p.next < n then p.next else n, i => i)
    && (forall w | 0 <= w < workers && p.workers[w].Running? :: p.workers[w].index in p.begun)
    && (forall i | 0 <= i < n && p.slots[i].Some? :: i in p.begun && body(i) == Returned(p.slots[i].value))
    && (forall i | i in p.begun :: p.slots[i].Some? || body(i).Threw? || Running(i) in p.workers)
    && (forall i | i in p.begun && body(i).Threw? && p.firstError.None? :: Running(i) in p.workers)
    && (p.firstError.Some? ==> exists i :: i in p.begun && body(i) == Threw(p.firstError.value))
    && ((exists w :: w in p.workers && w.Stopped?) ==> p.next > n || p.firstError.Some?)
    && (forall v, w | 0 <= v < w < workers && p.workers[v].Running? :: p.workers[v] != p.workers[w])
  }

  lemma {:induction false} AlwaysConsistent<T, E>(n: nat, workers: nat, body: nat -> Outcome<T, E>, schedule: seq<nat>)
    ensures Consistent(Run(n, workers, body, schedule), n, workers, body)
  {
    if schedule != [] {
      AlwaysConsistent(n, workers, body, schedule[..|schedule| - 1]);
      StepConsistent(Run(n, workers, body, schedule[..|schedule| - 1]), n, workers, body, schedule[|schedule| - 1]);
    }
  }

  lemma StepConsistent<T, E>(p: Pool<T, E>, n: nat, workers: nat, body: nat -> Outcome<T, E>, w: nat)
    requires Consistent(p, n, workers, body)
    ensures Consistent(Step(p, body, w), n, workers, body)
  {
    if w < workers {
      match p.workers[w]
      case Stopped =>
      case Claiming => ClaimConsistent(p, n, workers, body, w);
      case Running(i) => FinishConsistent(p, n, workers, body, w);
    }
  }

  /** Every other worker is where it was. */
  lemma OthersRunning<T, E>(p: Pool<T, E>, body: nat -> Outcome<T, E>, w: nat)
    requires w < |p.workers|
    ensures forall i | Running(i) in p.workers && p.workers[w] != Running(i) :: Running(i) in Step(p, body, w).workers
  {
    var q := Step(p, body, w);
    forall i | Running(i) in p.workers && p.workers[w] != Running(i) ensures Running(i) in q.workers {
      var v :| 0 <= v < |p.workers| && p.workers[v] == Running(i);
      assert q.workers[v] == Running(i);
    }
  }

  lemma ClaimConsistent<T, E>(p: Pool<T, E>, n: nat, workers: nat, body: nat -> Outcome<T, E>, w: nat)
    requires Consistent(p, n, workers, body) && w < workers && p.workers[w].Claiming?
    ensures Consistent(Step(p, body, w), n, workers, body)
  {
    OthersRunning(p, body, w);
    var q := Step(p, body, w);
    if p.next < n {
      assert q.workers[w] == Running(p.next);
      assert q.begun == p.begun + [p.next];
    } else {
      assert q.begun == p.begun;
    }
  }

  lemma FinishConsistent<T, E>(p: Pool<T, E>, n: nat, workers: nat, body: nat -> Outcome<T, E>, w: nat)
    requires Consistent(p, n, workers, body) && w < workers && p.workers[w].Running?
    ensures Consistent(Step(p, body, w), n, workers, body)
  {
    OthersRunning(p, body, w);
    var i := p.workers[w].index;
    assert i in p.begun && i < n;
  }

  // ----- the claims

  /** Under every schedule, no index is run twice and none outside the range is run. */
  lemma AtMostOnce<T, E>(n: nat, workers: nat, body: nat -> Outcome<T, E>, schedule: seq<nat>)
    ensures var begun := Run(n, workers, body, schedule).begun;
      && (forall i | i in begun :: i < n)
      && (forall a, b | 0 <= a < b < |begun| :: begun[a] != begun[b])
  {
    AlwaysConsistent(n, workers, body, schedule);
  }

  /** When no body throws, every schedule that lets all workers finish runs each index
      exactly once and fills each slot with its body's value. */
  lemma ExactlyOnce<T, E>(n: nat, workers: nat, body: nat -> Outcome<T, E>, schedule: seq<nat>)
    requires workers >= 1 && forall i | 0 <= i < n :: body(i).Returned?
    requires Finished(Run(n, workers, body, schedule))
    ensures var p := Run(n, workers, body, schedule);
      && (forall i: nat :: i in p.begun <==> i < n)
      && |p.begun| == n
      && p.slots == seq(n, i requires 0 <= i < n => Some(body(i).value))
      && p.firstError.None?
  {
    AlwaysConsistent(n, workers, body, schedule);
    var p := Run(n, workers, body, schedule);
    assert p.workers[0] in p.workers && p.workers[0].Stopped?;
    forall i: nat ensures Running(i) !in p.workers {}
    forall i: nat | i < |p.begun| ensures i in p.begun { assert p.begun[i] == i; }
  }

  /** The run reports an error exactly when some body that was begun threw. */
  lemma ReportsErrors<T, E>(n: nat, workers: nat, body: nat -> Outcome<T, E>, schedule: seq<nat>)
    requires Finished(Run(n, workers, body, schedule))
    ensures var p := Run(n, workers, body, schedule);
      && (p.firstError.Some? <==> exists i :: i in p.begun && body(i).Threw?)
      && (p.firstError.Some? ==> exists i :: i in p.begun && body(i) == Threw(p.firstError.value))
      && (workers >= 1 && p.firstError.None? ==> forall i: nat | i < n :: i in p.begun)
  {
    AlwaysConsistent(n, workers, body, schedule);
    var p := Run(n, workers, body, schedule);
    forall i: nat ensures Running(i) !in p.workers {}
    if workers >= 1 {
      assert p.workers[0] in p.workers && p.workers[0].Stopped?;
      forall i: nat | i < |p.begun| ensures i in p.begun { assert p.begun[i] == i; }
    }
  }

  // ----- every schedule ends

  function Weight(w: Worker): nat {
    match w
    case Claiming => 1
    case Running(_) => 2
    case Stopped => 0
  }

  function TotalWeight(workers: seq<Worker>): nat {
    if workers == [] then 0 else Weight(workers[0]) + TotalWeight(workers[1..])
  }

  /** Work left: three units per unclaimed index and what each worker still owes. */
  function Remaining<T, E>(p: Pool<T, E>): nat {
    3 * (if p.next < |p.slots| then |p.slots| - p.next else 0) + TotalWeight(p.workers)
  }

  lemma {:induction false} WeightUpdate(workers: seq<Worker>, w: nat, to: Worker)
    requires w < |workers|
    ensures TotalWeight(workers[w := to]) == TotalWeight(workers) - Weight(workers[w]) + Weight(to)
  {
    if w == 0 {
      assert workers[0 := to][1..] == workers[1..];
    } else {
      WeightUpdate(workers[1..], w - 1, to);
      assert workers[w := to][1..] == workers[1..][w - 1 := to];
    }
  }

  /** Each step of a worker that has not stopped leaves strictly less to do. */
  lemma StepsRunOut<T, E>(n: nat, workers: nat, body: nat -> Outcome<T, E>, schedule: seq<nat>, w: nat)
    requires w < |Run(n, workers, body, schedule).workers|
    requires !Run(n, workers, body, schedule).workers[w].Stopped?
    ensures var p := Run(n, workers, body, schedule);
      Remaining(Step(p, body, w)) < Remaining(p)
  {
    AlwaysConsistent(n, workers, body, schedule);
    var p := Run(n, workers, body, schedule);
    match p.workers[w]
    case Claiming =>
      WeightUpdate(p.workers, w, Stopped);
      WeightUpdate(p.workers, w, Running(p.next));
    case Running(i) =>
      assert i in p.begun;
      WeightUpdate(p.workers, w, Claiming);
      WeightUpdate(p.workers, w, Stopped);
    case Stopped =>
  }

  /** Every step of the schedule is taken by a worker that has not stopped. */
  ghost predicate Effective<T, E>(n: nat, workers: nat, body: nat -> Outcome<T, E>, schedule: seq<nat>) {
    schedule == [] ||
    var p, w := Run(n, workers, body, schedule[..|schedule| - 1]), schedule[|schedule| - 1];
    && Effective(n, workers, body, schedule[..|schedule| - 1])
    && w < |p.workers| && !p.workers[w].Stopped?
  }

  /** No schedule keeps the workers busy for more than 3n + workers steps. */
  lemma {:induction false} SchedulesEnd<T, E>(n: nat, workers: nat, body: nat -> Outcome<T, E>, schedule: seq<nat>)
    requires Effective(n, workers, body, schedule)
    ensures |schedule| + Remaining(Run(n, workers, body, schedule)) <= 3 * n + workers
  {
    if schedule == [] {
      AllClaiming(workers);
    } else {
      var front := schedule[..|schedule| - 1];
      SchedulesEnd(n, workers, body, front);
      StepsRunOut(n, workers, body, front, schedule[|schedule| - 1]);
    }
  }

  lemma {:induction false} AllClaiming(workers: nat)
    ensures TotalWeight(seq(workers, _ => Claiming)) == workers
  {
    if workers > 0 {
      AllClaiming(workers - 1);
      assert seq(workers, _ => Claiming)[1..] == seq(workers - 1, _ => Claiming);
    }
  }

  // ----- the static run

  /** Whatever the worker count and the schedule, reducing the slots gives the aggregate of
      the single-threaded run. */
  lemma ParallelAggregate<E>(env: Env, p: Program, workers: nat, schedule: seq<nat>,
                             body: nat -> Outcome<FunctionSlot, E>)
    requires workers >= 1
    requires forall i: nat | i < |p.functions| :: body(i) == Returned(SlotOf(env, p, i))
    requires Finished(Run(|p.functions|, workers, body, schedule))
    ensures var slots := Run(|p.functions|, workers, body, schedule).slots;
      && |slots| == |p.functions| && (forall i | 0 <= i < |slots| :: slots[i].Some?)
      && var units := Active(p, |p.functions|);
         Reduction(p, Values(slots))
         == Aggregate(PartTables(env, units), InnerTables(env, units), InsnTables(env, units),
                      LibraryOf(p, |p.functions|), CountsOf(env, p, |p.functions|))
  {
    ExactlyOnce(|p.functions|, workers, body, schedule);
    ReductionIs(env, p, Values(Run(|p.functions|, workers, body, schedule).slots));
  }

  function Values<T>(slots: seq<Option<T>>): seq<T>
    requires forall i | 0 <= i < |slots| :: slots[i].Some?
  {
    seq(|slots|, i requires 0 <= i < |slots| => slots[i].value)
  }
}
