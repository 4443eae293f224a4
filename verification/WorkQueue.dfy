/** The emulator's run over one function: a bounded stack of paths, each with the memory it
    starts from. */
module WorkQueue {
  import opened Features
  import opened ByteCursor
  import opened EmulatorMemory

  const MAX_EMU_STEPS := 4096
  const MAX_TODO_QUEUE := 4096
  const MAX_QUEUED_OVERLAY_ENTRIES := 0x40_0000

  datatype Path = Path(va: nat, overlay: Overlay)

  function Queued(todo: seq<Path>): nat {
    if todo == [] then 0 else Queued(todo[..|todo| - 1]) + |todo[|todo| - 1].overlay|
  }

  lemma QueuedSnoc(todo: seq<Path>, p: Path)
    ensures Queued(todo + [p]) == Queued(todo) + |p.overlay|
  {
    assert (todo + [p])[..|todo|] == todo;
  }

  /** Within both bounds, every queued overlay one the memory could have. */
  ghost predicate Bounded(todo: seq<Path>, cap: nat) {
    && |todo| <= MAX_TODO_QUEUE && Queued(todo) <= MAX_QUEUED_OVERLAY_ENTRIES
    && forall p | p in todo :: |p.overlay| <= cap
  }

  /** A bound would be exceeded by queueing p. */
  predicate Full(todo: seq<Path>, p: Path) {
    |todo| >= MAX_TODO_QUEUE || Queued(todo) + |p.overlay| > MAX_QUEUED_OVERLAY_ENTRIES
  }

  /** Queues a path unless a bound would be exceeded. The running total stays exact. */
  method PushPath(todo: seq<Path>, queuedOverlay: nat, p: Path, ghost cap: nat)
    returns (ok: bool, todo': seq<Path>, queued': nat)
    requires Bounded(todo, cap) && queuedOverlay == Queued(todo) && |p.overlay| <= cap
    ensures Bounded(todo', cap) && queued' == Queued(todo')
    ensures ok <==> !Full(todo, p)
    ensures todo' == if ok then todo + [p] else todo
  {
    var cost := |p.overlay|;
    if |todo| >= MAX_TODO_QUEUE || queuedOverlay + cost > MAX_QUEUED_OVERLAY_ENTRIES {
      return false, todo, queuedOverlay;
    }
    QueuedSnoc(todo, p);
    ok, todo', queued' := true, todo + [p], queuedOverlay + cost;
  }

  // ----- the history of a run

  /** What executing one instruction may do: write memory, move the program counter, fault
      or end the path, branch to several places. A watcher may then stop the whole run. */
  datatype Effect = Effect(writes: seq<(nat, seq<byte>)>, next: nat, goesOn: bool, branches: seq<nat>, stops: bool)

  /** Why a path ends without executing where it has come to. */
  datatype Reason = OutOfSteps | Unmapped | TooOften | Undecodable | StoppedBefore

  /** Paths were queued, one was taken up, an instruction was executed, a path ended short. */
  datatype Event =
    | Queueing(paths: seq<Path>)
    | Taking(path: Path)
    | Executing(va: nat, effect: Effect)
    | Ending(va: nat, why: Reason)

  type History = seq<Event>

  /** What a run starts from: the function, the mapped regions, the overlay and its cap, and
      how often an address may be come to. */
  datatype Setting = Setting(entry: nat, regions: seq<Region>, cap: nat, memory: Overlay, maxHit: nat)

  /** The queue a history leaves. */
  function QueueOf(h: History): seq<Path> {
    if h == [] then [] else QueueAfter(QueueOf(h[..|h| - 1]), h[|h| - 1])
  }

  function QueueAfter(was: seq<Path>, e: Event): seq<Path> {
    if e.Queueing? then was + e.paths
    else if e.Taking? && was != [] then was[..|was| - 1]
    else was
  }

  function AfterWrites(s: Setting, was: Overlay, writes: seq<(nat, seq<byte>)>): Overlay {
    if writes == [] then was
    else
      var last := writes[|writes| - 1];
      Written(s.regions, AfterWrites(s, was, writes[..|writes| - 1]), s.cap, last.0, last.1)
  }

  /** The memory a history leaves: a path taken up restores its own, an instruction writes. */
  function MemoryOf(s: Setting, h: History): Overlay {
    if h == [] then s.memory else MemoryAfter(s, MemoryOf(s, h[..|h| - 1]), h[|h| - 1])
  }

  function MemoryAfter(s: Setting, was: Overlay, e: Event): Overlay {
    match e
    case Queueing(_) => was
    case Taking(path) => path.overlay
    case Executing(_, effect) => AfterWrites(s, was, effect.writes)
    case Ending(_, _) => was
  }

  /** The addresses executed, in order. */
  function Executed(h: History): seq<nat> {
    if h == [] then []
    else
      var was := Executed(h[..|h| - 1]);
      if h[|h| - 1].Executing? then was + [h[|h| - 1].va] else was
  }

  /** The addresses whose hits were counted, in order: where an instruction was executed or
      was about to be. */
  function Arrivals(h: History): seq<nat> {
    if h == [] then []
    else
      var was, last := Arrivals(h[..|h| - 1]), h[|h| - 1];
      if last.Executing? || (last.Ending? && last.why != OutOfSteps && last.why != Unmapped) then was + [last.va]
      else was
  }

  /** Each branch target once, in order. */
  function Distinct(branches: seq<nat>): (targets: seq<nat>)
    ensures forall t :: t in targets <==> t in branches
    ensures forall i, j | 0 <= i < j < |targets| :: targets[i] != targets[j]
  {
    if branches == [] then []
    else
      var front, last := Distinct(branches[..|branches| - 1]), branches[|branches| - 1];
      if last in front then front else front + [last]
  }

  function PathsTo(targets: seq<nat>, overlay: Overlay): seq<Path> {
    seq(|targets|, i requires 0 <= i < |targets| => Path(targets[i], overlay))
  }

  /** The first n targets were queued, and all of them unless the next one would have
      exceeded a bound. */
  ghost predicate QueuesUpTo(was: seq<Path>, targets: seq<nat>, overlay: Overlay, n: nat) {
    && n <= |targets|
    && (n == |targets| || Full(was + PathsTo(targets[..n], overlay), Path(targets[n], overlay)))
  }

  /** Why event e may follow a history: the first thing is to queue the function itself; then
      the last path queued is taken up, its instruction executed, then the next one unless
      the path ends; several branches are queued instead, each with the memory as it is, as
      far as the bounds allow. Nothing of this is left out: a path is taken up only when the
      one before is done. */
  ghost predicate MayFollow(h: History, e: Event, s: Setting) {
    match e
    case Queueing(paths) => QueuesSome(h, paths, s)
    case Taking(path) => Idle(h) && QueueOf(h) != [] && QueueOf(h)[|QueueOf(h)| - 1] == path
    case Executing(va, _) => Reaches(h, va) && Executable(h, va, s)
    case Ending(va, why) => Reaches(h, va) && EndsFor(h, va, why, s)
  }

  /** What stands at pc may be executed. */
  predicate Executable(h: History, pc: nat, s: Setting) {
    |Executed(h)| < MAX_EMU_STEPS && FindMap(s.regions, pc).Some? && multiset(Arrivals(h))[pc] < s.maxHit
  }

  /** The path ends at pc for this reason, the first that applies. */
  predicate EndsFor(h: History, pc: nat, why: Reason, s: Setting) {
    match why
    case OutOfSteps => |Executed(h)| >= MAX_EMU_STEPS
    case Unmapped => |Executed(h)| < MAX_EMU_STEPS && FindMap(s.regions, pc).None?
    case TooOften =>
      && |Executed(h)| < MAX_EMU_STEPS && FindMap(s.regions, pc).Some?
      && multiset(Arrivals(h))[pc] >= s.maxHit
    case _ => Executable(h, pc, s)
  }

  /** The last path is done, and the run was not stopped. */
  predicate Idle(h: History) {
    h != [] && match h[|h| - 1]
      case Queueing(_) => true
      case Taking(_) => false
      case Executing(_, effect) => !effect.stops && !effect.goesOn
      case Ending(_, why) => why != StoppedBefore
  }

  /** A watcher stopped the run. */
  predicate Stopped(h: History) {
    h != [] && match h[|h| - 1]
      case Executing(_, effect) => effect.stops
      case Ending(_, why) => why == StoppedBefore
      case _ => false
  }

  ghost predicate QueuesSome(h: History, paths: seq<Path>, s: Setting) {
    exists targets, n :: QueuesTargets(h, paths, s, targets, n)
  }

  /** Where the run may go on: a path was just taken up at pc, or its last instruction goes
      on to pc. */
  predicate Reaches(h: History, pc: nat) {
    h != [] && match h[|h| - 1]
      case Taking(p) => p.va == pc
      case Executing(_, effect) => GoesOnTo(effect, pc)
      case _ => false
  }

  ghost predicate QueuesTargets(h: History, paths: seq<Path>, s: Setting, targets: seq<nat>, n: nat) {
    && QueuesUpTo(QueueOf(h), targets, MemoryOf(s, h), n) && paths == PathsTo(targets[..n], MemoryOf(s, h))
    && if h == [] then targets == [s.entry] else Branched(h[|h| - 1], targets)
  }

  predicate Branched(e: Event, targets: seq<nat>) {
    e.Executing? && e.effect.goesOn && !e.effect.stops && |e.effect.branches| > 1 &&
      targets == Distinct(e.effect.branches)
  }

  predicate GoesOnTo(effect: Effect, va: nat) {
    effect.goesOn && !effect.stops && |effect.branches| <= 1 && effect.next == va
  }

  /** A run of a function: every event may follow those before it, and the queue never leaves
      its bounds. */
  ghost predicate IsRun(h: History, s: Setting) {
    forall k | 0 <= k < |h| :: EventIsSound(h, k, s)
  }

  ghost predicate EventIsSound(h: History, k: nat, s: Setting)
    requires k < |h|
  {
    MayFollow(h[..k], h[k], s) && Bounded(QueueOf(h[..k + 1]), s.cap)
  }

  lemma RunSnoc(h: History, e: Event, s: Setting)
    requires IsRun(h, s) && MayFollow(h, e, s)
    requires Bounded(QueueOf(h + [e]), s.cap)
    ensures IsRun(h + [e], s)
  {
    hide MayFollow, Bounded, FindMap, QueueOf;
    var h' := h + [e];
    forall k | 0 <= k < |h'| ensures EventIsSound(h', k, s) {
      if k < |h| {
        assert h'[..k] == h[..k] && h'[..k + 1] == h[..k + 1] && h'[k] == h[k];
        assert EventIsSound(h, k, s);
      } else {
        assert h'[..k] == h && h'[..k + 1] == h';
      }
    }
  }

  lemma RunPrefix(h: History, s: Setting, n: nat)
    requires IsRun(h, s) && n <= |h|
    ensures IsRun(h[..n], s)
  {
    hide MayFollow, Bounded, FindMap, QueueOf;
    forall k | 0 <= k < n ensures EventIsSound(h[..n], k, s) {
      assert h[..n][..k] == h[..k] && h[..n][..k + 1] == h[..k + 1] && h[..n][k] == h[k];
      assert EventIsSound(h, k, s);
    }
  }

  // ----- where a path resumes

  /** Event j queued p: the start of the run, or just after the instruction that branched
      there, with the memory that instruction left. */
  ghost predicate QueuedAt(h: History, s: Setting, j: nat, p: Path) {
    && j < |h| && h[j].Queueing? && p in h[j].paths && p.overlay == MemoryOf(s, h[..j])
    && if j == 0 then p.va == s.entry
       else h[j - 1].Executing? && p.va in h[j - 1].effect.branches
  }

  /** Every queued path was queued by a branch, with the memory of that moment. */
  lemma {:induction false} QueuedFromBranch(h: History, s: Setting, p: Path)
    requires IsRun(h, s) && p in QueueOf(h)
    ensures exists j: nat :: QueuedAt(h, s, j, p)
  {
    hide Bounded, FindMap, Full, MemoryOf, Distinct;
    var n := |h| - 1;
    if p in QueueOf(h[..n]) {
      RunPrefix(h, s, n);
      QueuedFromBranch(h[..n], s, p);
      var j: nat :| QueuedAt(h[..n], s, j, p);
      assert h[..n][..j] == h[..j];
      assert QueuedAt(h, s, j, p);
    } else {
      QueuedNow(h, s, p);
    }
  }

  lemma QueuedNow(h: History, s: Setting, p: Path)
    requires IsRun(h, s) && h != [] && h[|h| - 1].Queueing? && p in h[|h| - 1].paths
    ensures QueuedAt(h, s, |h| - 1, p)
  {
    hide Bounded, FindMap, QueuesUpTo, MemoryOf;
    var n := |h| - 1;
    assert EventIsSound(h, n, s);
    var targets, m :| QueuesTargets(h[..n], h[n].paths, s, targets, m);
    BranchedHere(h[..n], h[n].paths, s, targets, m, p);
    if n > 0 { assert h[..n][n - 1] == h[n - 1]; }
  }

  lemma BranchedHere(h: History, paths: seq<Path>, s: Setting, targets: seq<nat>, n: nat, p: Path)
    requires QueuesTargets(h, paths, s, targets, n) && p in paths
    ensures p.overlay == MemoryOf(s, h)
    ensures if h == [] then p.va == s.entry else h[|h| - 1].Executing? && p.va in h[|h| - 1].effect.branches
  {
    hide MemoryOf, QueueOf, Full;
    var i :| 0 <= i < n && paths[i] == p;
    assert p.va == targets[i] && p.va in targets;
  }

  /** A path taken up resumes from exactly the memory at its branch, whatever other paths
      wrote in between. */
  lemma ResumesFromBranch(h: History, s: Setting, k: nat)
    requires IsRun(h, s) && k < |h| && h[k].Taking?
    ensures exists j: nat :: j < k && QueuedAt(h, s, j, h[k].path) && MemoryOf(s, h[..k + 1]) == MemoryOf(s, h[..j])
  {
    hide Bounded, FindMap;
    var p := h[k].path;
    assert EventIsSound(h, k, s);
    RunPrefix(h, s, k);
    QueuedFromBranch(h[..k], s, p);
    var j: nat :| QueuedAt(h[..k], s, j, p);
    assert h[..k][..j] == h[..j] && h[..k + 1][..k] == h[..k];
    assert QueuedAt(h, s, j, p);
  }

  lemma HistorySnoc(h: History, e: Event, s: Setting)
    ensures MemoryOf(s, h + [e]) == MemoryAfter(s, MemoryOf(s, h), e)
    ensures Executed(h + [e]) == if e.Executing? then Executed(h) + [e.va] else Executed(h)
    ensures Arrivals(h + [e]) ==
      if e.Executing? || (e.Ending? && e.why != OutOfSteps && e.why != Unmapped) then Arrivals(h) + [e.va]
      else Arrivals(h)
    ensures QueueOf(h + [e]) == QueueAfter(QueueOf(h), e)
  {
    assert (h + [e])[..|h|] == h;
  }

  // ----- what every run does

  /** No run executes more than the step budget, or an address more often than it may be come
      to, and every executed address is mapped. */
  lemma {:induction false} RunIsBounded(h: History, s: Setting)
    requires IsRun(h, s)
    ensures |Executed(h)| <= MAX_EMU_STEPS && forall va | va in Executed(h) :: FindMap(s.regions, va).Some?
    ensures forall va :: multiset(Executed(h))[va] <= multiset(Arrivals(h))[va]
    ensures forall va :: multiset(Executed(h))[va] <= s.maxHit
  {
    hide Bounded, FindMap, QueuesSome, QueueOf;
    if h != [] {
      var n := |h| - 1;
      RunPrefix(h, s, n);
      RunIsBounded(h[..n], s);
      assert EventIsSound(h, n, s) && h == h[..n] + [h[n]];
      HistorySnoc(h[..n], h[n], s);
    }
  }

  /** A run that came to its end: stopped, or with nothing left to take up. */
  ghost predicate Complete(h: History) { Stopped(h) || (Idle(h) && QueueOf(h) == []) }

  /** A complete run begins by queueing the function with the memory as it is, unless that
      alone exceeds a bound. */
  lemma EntryIsQueued(h: History, s: Setting)
    requires IsRun(h, s) && Complete(h)
    ensures var root := Path(s.entry, s.memory);
      h != [] && h[0] == Queueing(if Full([], root) then [] else [root])
  {
    hide FindMap, Executable, EndsFor, Bounded, Full, QueuesTargets, QueueOf;
    assert EventIsSound(h, 0, s) && h[..0] == [];
    var targets, n :| QueuesTargets([], h[0].paths, s, targets, n);
    EntryQueues(s, h[0].paths, targets, n);
    if h[0].paths != [] {
      assert h[..1] == [] + [h[0]];
      EntryFits(s, h[0]);
    }
  }

  lemma EntryQueues(s: Setting, paths: seq<Path>, targets: seq<nat>, n: nat)
    requires QueuesTargets([], paths, s, targets, n)
    ensures paths == [Path(s.entry, s.memory)] || (paths == [] && Full([], Path(s.entry, s.memory)))
  {
    var none: seq<Path> := [];
    if n == 0 { assert none + PathsTo(targets[..0], s.memory) == none; }
  }

  lemma EntryFits(s: Setting, e: Event)
    requires Bounded(QueueOf([] + [e]), s.cap) && e == Queueing([Path(s.entry, s.memory)])
    ensures !Full([], Path(s.entry, s.memory))
  {
    var root, none: seq<Path> := Path(s.entry, s.memory), [];
    assert ([] + [e])[..0] == [] && none + [root] == [root];
    QueuedSnoc([], root);
  }

  /** What comes next in a complete run. Where an instruction branches to several places, each
      of them is queued, once and in order, as far as the bounds allow. */
  lemma BranchesAreQueued(h: History, s: Setting, k: nat)
    requires IsRun(h, s) && Complete(h) && k < |h| && h[k].Executing? && !h[k].effect.stops && h[k].effect.goesOn
    requires |h[k].effect.branches| > 1
    ensures k + 1 < |h| && h[k + 1].Queueing?
    ensures var targets, was, memory := Distinct(h[k].effect.branches), QueueOf(h[..k + 1]), MemoryOf(s, h[..k + 1]);
      && |h[k + 1].paths| <= |targets|
      && (forall i | 0 <= i < |h[k + 1].paths| :: h[k + 1].paths[i] == Path(targets[i], memory))
      && (|h[k + 1].paths| == |targets| || Full(was + h[k + 1].paths, Path(targets[|h[k + 1].paths|], memory)))
  {
    hide Bounded, FindMap, Full, QueueOf, MemoryOf, Distinct, Executable, EndsFor;
    assert EventIsSound(h, k + 1, s) && h[..k + 1][k] == h[k];
    var targets, n :| QueuesTargets(h[..k + 1], h[k + 1].paths, s, targets, n);
  }

  /** Otherwise, and after a path was taken up, what stands there is executed, unless the path
      ends for a reason. */
  lemma NextIsExecuted(h: History, s: Setting, k: nat, pc: nat)
    requires IsRun(h, s) && Complete(h) && k < |h|
    requires (h[k].Taking? && h[k].path.va == pc)
      || (h[k].Executing? && !h[k].effect.stops && h[k].effect.goesOn && |h[k].effect.branches| <= 1
          && h[k].effect.next == pc)
    ensures k + 1 < |h| && (h[k + 1].Executing? || h[k + 1].Ending?) && h[k + 1].va == pc
    ensures h[k + 1].Ending? ==>
      var steps, hits := |Executed(h[..k + 1])|, multiset(Arrivals(h[..k + 1]))[pc];
      match h[k + 1].why
      case OutOfSteps => steps >= MAX_EMU_STEPS
      case Unmapped => FindMap(s.regions, pc).None?
      case TooOften => hits >= s.maxHit
      case Undecodable => true
      case StoppedBefore => k + 2 == |h|
  {
    hide Bounded, FindMap, QueueOf, Executed, Arrivals;
    assert EventIsSound(h, k + 1, s) && h[..k + 1][k] == h[k];
    if k + 2 < |h| { NothingAfterStop(h, s, k + 1); }
  }

  /** After a stop nothing happens. */
  lemma NothingAfterStop(h: History, s: Setting, k: nat)
    requires IsRun(h, s) && k + 1 < |h|
    ensures !Stopped(h[..k + 1])
  {
    hide Bounded, FindMap, QueueOf, Executable, EndsFor;
    assert EventIsSound(h, k + 1, s);
  }

  /** When a path is done, the last one queued is taken up, if there is one left. */
  lemma LastIsTaken(h: History, s: Setting, k: nat)
    requires IsRun(h, s) && Complete(h) && k < |h| && Idle(h[..k + 1]) && QueueOf(h[..k + 1]) != []
    ensures k + 1 < |h| && h[k + 1].Taking? && h[k + 1].path == QueueOf(h[..k + 1])[|QueueOf(h[..k + 1])| - 1]
  {
    hide Bounded, FindMap, QueueOf, Executable, EndsFor;
    assert h[..|h|] == h;
    assert EventIsSound(h, k + 1, s);
  }

  // ----- the run

  function Hits(hits: map<nat, nat>, va: nat): nat { if va in hits then hits[va] else 0 }

  /** The counters count the arrivals. */
  ghost predicate Counts(hits: map<nat, nat>, arrivals: seq<nat>) {
    forall va :: Hits(hits, va) == multiset(arrivals)[va]
  }

  method Execute(mem: SandboxMemory, writes: seq<(nat, seq<byte>)>, ghost s: Setting)
    requires mem.Valid() && mem.regions == s.regions && mem.overlayCap == s.cap
    modifies mem`overlay
    ensures mem.Valid() && mem.overlay == AfterWrites(s, old(mem.overlay), writes)
  {
    for i := 0 to |writes|
      invariant mem.Valid() && mem.overlay == AfterWrites(s, old(mem.overlay), writes[..i])
    {
      assert writes[..i + 1][..i] == writes[..i];
      ghost var n := mem.Write(writes[i].0, writes[i].1);
    }
    assert writes[..|writes|] == writes;
  }

  /** The state between two events: memory, queue and its total, steps and hits are what the
      history left. */
  ghost predicate Running(h: History, s: Setting, mem: SandboxMemory, todo: seq<Path>, queued: nat, steps: nat,
                          hits: map<nat, nat>)
    reads mem
  {
    && mem.Valid() && mem.regions == s.regions && mem.overlayCap == s.cap && mem.overlay == MemoryOf(s, h)
    && IsRun(h, s) && todo == QueueOf(h) && Bounded(todo, s.cap) && queued == Queued(todo)
    && steps == |Executed(h)| && Counts(hits, Arrivals(h))
  }

  /** Runs a function for any behaviour of its instructions. Whatever they do, the run ends,
      and leaves no path behind unless a watcher stopped it. */
  method RunFunction(mem: SandboxMemory, funcva: nat, maxHit: nat) returns (steps: nat, stopped: bool, ghost h: History)
    requires mem.Valid()
    modifies mem`overlay
    ensures var s := Setting(funcva, mem.regions, mem.overlayCap, old(mem.overlay), maxHit);
      mem.Valid() && IsRun(h, s) && mem.overlay == MemoryOf(s, h)
    ensures Complete(h) && (stopped <==> Stopped(h))
    ensures steps == |Executed(h)| <= MAX_EMU_STEPS && forall va :: multiset(Executed(h))[va] <= maxHit
  {
    hide MayFollow, FindMap, Bounded;
    ghost var s := Setting(funcva, mem.regions, mem.overlayCap, mem.overlay, maxHit);
    var hits: map<nat, nat> := map[];
    var todo, queuedOverlay: nat;
    todo, queuedOverlay, h := Begin(mem, funcva, s);
    steps, stopped := 0, false;
    while todo != []
      invariant Running(h, s, mem, todo, queuedOverlay, steps, hits) && Idle(h)
      invariant steps <= MAX_EMU_STEPS
      decreases MAX_EMU_STEPS - steps, |todo|
    {
      var path := todo[|todo| - 1];
      TakeOne(h, s, todo);
      h := h + [Taking(path)];
      queuedOverlay := queuedOverlay - |path.overlay|;
      todo := todo[..|todo| - 1];
      mem.Restore(path.overlay);
      stopped, steps, hits, h, todo, queuedOverlay :=
        RunPath(mem, s, path.va, maxHit, steps, hits, h, todo, queuedOverlay);
      RunIsBounded(h, s);
      if stopped { return; }
    }
    RunIsBounded(h, s);
    IdleNotStopped(h);
  }

  lemma IdleNotStopped(h: History)
    requires Idle(h)
    ensures !Stopped(h)
  {
  }

  method Begin(mem: SandboxMemory, funcva: nat, ghost s: Setting)
    returns (todo: seq<Path>, queued: nat, ghost h: History)
    requires mem.Valid() && s.entry == funcva && s.regions == mem.regions
    requires s.cap == mem.overlayCap && s.memory == mem.overlay
    ensures Running(h, s, mem, todo, queued, 0, map[]) && Idle(h)
  {
    hide Bounded, Full, IsRun, QueueOf, MemoryOf, Executed, Arrivals;
    NothingQueued(s.cap);
    var ok;
    ok, todo, queued := PushPath([], 0, Path(funcva, mem.overlay), mem.overlayCap);
    FirstQueued(s, ok, todo);
    h := [Queueing(todo)];
  }

  lemma NothingQueued(cap: nat)
    ensures Bounded([], cap) && Queued([]) == 0
  {
  }

  lemma FirstQueued(s: Setting, ok: bool, todo: seq<Path>)
    requires var root := Path(s.entry, s.memory);
      (ok <==> !Full([], root)) && todo == (if ok then [] + [root] else []) && Bounded(todo, s.cap)
    ensures var h := [Queueing(todo)];
      && IsRun(h, s) && QueueOf(h) == todo && MemoryOf(s, h) == s.memory && Executed(h) == [] && Arrivals(h) == []
  {
    var targets, n, e := [s.entry], if ok then 1 else 0, Queueing(todo);
    var none: seq<Path> := [];
    assert PathsTo(targets[..n], s.memory) == todo && none + PathsTo(targets[..0], s.memory) == none;
    assert QueuesTargets([], todo, s, targets, n);
    assert QueuesSome([], todo, s);
    HistorySnoc([], e, s);
    assert [] + [e] == [e];
    hide Bounded, Full, QueuesSome, FindMap;
    RunSnoc([], e, s);
  }

  lemma TakeOne(h: History, s: Setting, todo: seq<Path>)
    requires IsRun(h, s) && todo == QueueOf(h) && todo != [] && Bounded(todo, s.cap) && Idle(h)
    ensures var path, front := todo[|todo| - 1], todo[..|todo| - 1];
      var h' := h + [Taking(path)];
      && IsRun(h', s) && QueueOf(h') == front && Executed(h') == Executed(h) && Arrivals(h') == Arrivals(h)
      && MemoryOf(s, h') == path.overlay && Reaches(h', path.va) && |path.overlay| <= s.cap
      && Bounded(front, s.cap) && Queued(front) == Queued(todo) - |path.overlay|
  {
    var e, front := Taking(todo[|todo| - 1]), todo[..|todo| - 1];
    assert todo == front + [todo[|todo| - 1]] && todo[|todo| - 1] in todo;
    HistorySnoc(h, e, s);
    RunSnoc(h, e, s);
  }

  /** Runs one path until it ends, branches, or is stopped. A path that queued others executed
      something first. */
  method RunPath(mem: SandboxMemory, ghost s: Setting, start: nat, maxHit: nat, steps0: nat, hits0: map<nat, nat>,
                 ghost h0: History, todo0: seq<Path>, queued0: nat)
    returns (stopped: bool, steps: nat, hits: map<nat, nat>, ghost h: History, todo: seq<Path>, queued: nat)
    requires Running(h0, s, mem, todo0, queued0, steps0, hits0) && Reaches(h0, start) && maxHit == s.maxHit
    modifies mem`overlay
    ensures Running(h, s, mem, todo, queued, steps, hits)
    ensures if stopped then Stopped(h) else Idle(h)
    ensures steps0 <= steps && (steps == steps0 ==> todo == todo0)
  {
    hide MayFollow, FindMap, Bounded, IsRun, QueueOf, MemoryOf, Executed, Arrivals, Counts, AfterWrites;
    steps, hits, h, todo, queued := steps0, hits0, h0, todo0, queued0;
    stopped := false;
    var pc := start;
    while steps < MAX_EMU_STEPS
      invariant Running(h, s, mem, todo, queued, steps, hits) && Reaches(h, pc)
      invariant steps0 <= steps && todo == todo0
    {
      if FindMap(mem.regions, pc).None? {
        h := EndPath(h, s, pc, Unmapped);
        return;
      }
      ghost var before := hits;
      hits := hits[pc := Hits(hits, pc) + 1];
      HitOnce(Arrivals(h), before, pc);
      if hits[pc] > maxHit {
        h := EndPath(h, s, pc, TooOften);
        return;
      }
      var decodes :| decodes == true || decodes == false;
      if !decodes {
        h := EndPath(h, s, pc, Undecodable);
        return;
      }
      stopped :| stopped == true || stopped == false;
      if stopped {
        h := EndPath(h, s, pc, StoppedBefore);
        return;
      }
      var effect: Effect :| true;
      Execute(mem, effect.writes, s);
      ExecuteOnce(h, pc, effect, s);
      h := h + [Executing(pc, effect)];
      steps := steps + 1;
      if effect.stops {
        stopped := true;
        return;
      }
      if !effect.goesOn { return; }
      if |effect.branches| > 1 {
        todo, queued, h := QueueBranches(mem.overlay, effect.branches, todo, queued, h, s);
        return;
      }
      pc := effect.next;
    }
    h := EndPath(h, s, pc, OutOfSteps);
  }

  /** Being hit once more is arriving once more. */
  lemma HitOnce(arrivals: seq<nat>, hits: map<nat, nat>, pc: nat)
    requires Counts(hits, arrivals)
    ensures var more := hits[pc := Hits(hits, pc) + 1];
      more[pc] == multiset(arrivals)[pc] + 1 && Counts(more, arrivals + [pc])
  {
  }

  ghost method EndPath(h0: History, s: Setting, pc: nat, why: Reason) returns (h: History)
    requires IsRun(h0, s) && Reaches(h0, pc) && EndsFor(h0, pc, why, s) && Bounded(QueueOf(h0), s.cap)
    ensures IsRun(h, s) && QueueOf(h) == QueueOf(h0) && MemoryOf(s, h) == MemoryOf(s, h0) && Executed(h) == Executed(h0)
    ensures Arrivals(h) == if why == OutOfSteps || why == Unmapped then Arrivals(h0) else Arrivals(h0) + [pc]
    ensures if why == StoppedBefore then Stopped(h) else Idle(h)
  {
    hide Bounded, FindMap, IsRun, EndsFor;
    var e := Ending(pc, why);
    HistorySnoc(h0, e, s);
    RunSnoc(h0, e, s);
    h := h0 + [e];
  }

  lemma ExecuteOnce(h: History, pc: nat, effect: Effect, s: Setting)
    requires IsRun(h, s) && Reaches(h, pc) && Executable(h, pc, s) && Bounded(QueueOf(h), s.cap)
    ensures var e := Executing(pc, effect);
      && IsRun(h + [e], s) && QueueOf(h + [e]) == QueueOf(h)
      && MemoryOf(s, h + [e]) == AfterWrites(s, MemoryOf(s, h), effect.writes)
      && Executed(h + [e]) == Executed(h) + [pc] && Arrivals(h + [e]) == Arrivals(h) + [pc]
  {
    hide Bounded, FindMap, IsRun, Executable;
    var e := Executing(pc, effect);
    HistorySnoc(h, e, s);
    RunSnoc(h, e, s);
  }

  /** Queues each distinct branch target until a bound refuses one. */
  method QueueBranches(overlay: Overlay, branches: seq<nat>, todo0: seq<Path>, queued0: nat, ghost h0: History,
                       ghost s: Setting)
    returns (todo: seq<Path>, queued: nat, ghost h: History)
    requires IsRun(h0, s) && QueueOf(h0) == todo0 && Bounded(todo0, s.cap) && queued0 == Queued(todo0)
    requires overlay == MemoryOf(s, h0) && |overlay| <= s.cap
    requires h0 != [] && Branched(h0[|h0| - 1], Distinct(branches))
    ensures IsRun(h, s) && QueueOf(h) == todo && Bounded(todo, s.cap) && queued == Queued(todo)
    ensures Executed(h) == Executed(h0) && Arrivals(h) == Arrivals(h0) && MemoryOf(s, h) == MemoryOf(s, h0) && Idle(h)
  {
    hide IsRun, Bounded, Distinct, Queued, QueueOf, Executed, Arrivals, MemoryOf;
    var targets := DistinctTargets(branches);
    ghost var n: nat;
    n, todo, queued := PushTargets(overlay, targets, todo0, queued0, s.cap);
    ghost var e := Queueing(PathsTo(targets[..n], overlay));
    assert QueuesTargets(h0, e.paths, s, targets, n);
    assert QueuesSome(h0, e.paths, s);
    HistorySnoc(h0, e, s);
    RunSnoc(h0, e, s);
    h := h0 + [e];
  }

  method PushTargets(overlay: Overlay, targets: seq<nat>, todo0: seq<Path>, queued0: nat, ghost cap: nat)
    returns (ghost n: nat, todo: seq<Path>, queued: nat)
    requires Bounded(todo0, cap) && queued0 == Queued(todo0) && |overlay| <= cap
    ensures QueuesUpTo(todo0, targets, overlay, n) && todo == todo0 + PathsTo(targets[..n], overlay)
    ensures Bounded(todo, cap) && queued == Queued(todo)
  {
    hide Bounded, Queued;
    todo, queued, n := todo0, queued0, 0;
    assert todo0 + PathsTo(targets[..0], overlay) == todo0;
    for i := 0 to |targets|
      invariant n == i && todo == todo0 + PathsTo(targets[..i], overlay)
      invariant Bounded(todo, cap) && queued == Queued(todo)
    {
      var ok;
      ok, todo, queued := PushPath(todo, queued, Path(targets[i], overlay), cap);
      if !ok { return; }
      PathsSnoc(todo0, targets, overlay, i);
      n := n + 1;
    }
  }

  lemma PathsSnoc(before: seq<Path>, targets: seq<nat>, overlay: Overlay, i: nat)
    requires i < |targets|
    ensures before + PathsTo(targets[..i], overlay) + [Path(targets[i], overlay)] ==
      before + PathsTo(targets[..i + 1], overlay)
  {
    assert PathsTo(targets[..i + 1], overlay) == PathsTo(targets[..i], overlay) + [Path(targets[i], overlay)];
  }

  method DistinctTargets(branches: seq<nat>) returns (targets: seq<nat>)
    ensures targets == Distinct(branches)
  {
    targets := [];
    var seen: set<nat> := {};
    for i := 0 to |branches|
      invariant targets == Distinct(branches[..i]) && forall x :: x in seen <==> x in targets
    {
      assert branches[..i + 1][..i] == branches[..i];
      if branches[i] !in seen {
        seen := seen + {branches[i]};
        targets := targets + [branches[i]];
      }
    }
    assert branches[..|branches|] == branches;
  }
}
