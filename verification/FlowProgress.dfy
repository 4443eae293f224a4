/** What a stretch of a code-flow run adds up to, and the lists a flow works through. */
module FlowProgress {
  import opened Features
  import opened Locations
  import opened Discovery
  import opened FlowHistory
  import opened FlowAccount
  import opened Sequences
  import CodeBlocks

  datatype Progress = Progress(im: Image, locs: LocationMap, functions: set<nat>, reported: set<nat>, held: set<nat>,
                               events: History)

  /** The account of a moment at which nothing is open. */
  function Book(p: Progress): Account { Whole(p.im, p.events, p.locs) }

  /** Definitions, settled functions and the history only grow, and every function entered
      on the way was settled: reported, or held. */
  ghost predicate Advances(a: Progress, b: Progress) {
    && a.im == b.im && (forall x | Defined(a.locs, x) :: Defined(b.locs, x))
    && a.reported <= b.reported && a.reported + a.held <= b.reported + b.held
    && b.functions <= a.functions + b.reported + b.held
    && a.events <= b.events
  }

  /** An advance that leaves nothing open of what it began. */
  ghost predicate Runs(a: Progress, b: Progress) { Advances(a, b) && AllAnswered(Book(b), |a.events|) }

  lemma NoAdvance(a: Progress, b: Progress)
    requires b.im == a.im && b.locs == a.locs && b.functions <= a.functions
    requires b.reported == a.reported && b.held == a.held && b.events == a.events
    ensures Runs(a, b)
  {
  }

  lemma AdvancesOn(a: Progress, b: Progress, c: Progress)
    requires Advances(a, b) && Advances(b, c)
    ensures Advances(a, c)
  {
  }

  lemma RunsOn(a: Progress, b: Progress, c: Progress)
    requires Runs(a, b) && Runs(b, c)
    ensures Runs(a, c)
  {
    hide Answered;
    AnsweredLater(Book(b), Book(c), |a.events|);
  }

  /** The engine notes a decision. */
  lemma NoteRuns(a: Progress, e: Event)
    requires !e.Decoded? && !e.Tabled?
    ensures Advances(a, a.(events := a.events + [e]))
    ensures !e.Entered? ==> Runs(a, a.(events := a.events + [e]))
  {
  }

  /** An instruction or a pointer was defined. */
  lemma DefinesMore(a: Progress, e: Event, locs: LocationMap)
    requires forall x | Defined(a.locs, x) :: Defined(locs, x)
    ensures var b := a.(locs := locs, events := a.events + [e]);
      Advances(a, b) && (e.Pointed? ==> Runs(a, b))
  {
    hide Defined;
  }

  lemma PointerDefines(locs: LocationMap, site: nat, size: nat)
    requires Filed(locs) && !Defined(locs, site) && size > 0
    ensures forall x | Defined(locs, x) :: Defined(Put(locs, site, size, Pointer), x)
    ensures Defined(Put(locs, site, size, Pointer), site)
  {
    forall x ensures Defined(locs, x) ==> Defined(Put(locs, site, size, Pointer), x) {
      PutOnlyAdds(locs, site, size, Pointer, x);
    }
    PutOnlyAdds(locs, site, size, Pointer, site);
  }

  lemma RunStays(a: Progress, b: Progress)
    requires Runs(a, b)
    ensures forall x | Defined(a.locs, x) :: Defined(b.locs, x)
    ensures a.events <= b.events
  {
  }

  /** A function was entered, and flowing it decoded its entry if that can be. */
  lemma EntryRuns(a: Progress, entered: Progress, b: Progress, f: nat)
    requires Advances(a, b) && entered.events == a.events + [Entered(f)] && Runs(entered, b)
    requires Defined(b.locs, f) || b.im.read(f).None?
    ensures Runs(a, b)
  {
    assert b.events[|a.events|] == entered.events[|a.events|];
    hide EdgeDone, Defined;
  }

  lemma Stays(a: Progress, b: Progress)
    requires Advances(a, b)
    ensures forall x | Defined(a.locs, x) :: Defined(b.locs, x)
    ensures forall e | e in a.events :: e in b.events
    ensures a.reported <= b.reported && a.events <= b.events && a.im == b.im
    ensures EnteredIn(a.events) <= EnteredIn(b.events)
  {
    KeptIn(a.events, b.events);
  }

  /** The addresses not defined yet: the measure that ends every run. */
  ghost function Undefined(locs: LocationMap): set<nat> {
    set x: nat | x < CodeBlocks.SPACE && !Defined(locs, x)
  }

  lemma UndefinedShrinks(a: Progress, b: Progress)
    requires Advances(a, b)
    ensures Undefined(b.locs) <= Undefined(a.locs)
  {
  }

  lemma UndefinedLoses(a: LocationMap, b: LocationMap, va: nat)
    requires forall x | Defined(a, x) :: Defined(b, x)
    requires va < CodeBlocks.SPACE && !Defined(a, va) && Defined(b, va)
    ensures Undefined(b) < Undefined(a)
  {
    assert va in Undefined(a) && va !in Undefined(b);
  }

  /** Either more was defined, or no more is blocked than before. */
  ghost predicate Calmer(was: LocationMap, blockedBefore: seq<nat>, now: LocationMap, blocked: seq<nat>) {
    Undefined(now) < Undefined(was) || (Undefined(now) == Undefined(was) && |blocked| <= |blockedBefore|)
  }

  lemma StaysCalm(locs: LocationMap, blocked: seq<nat>)
    ensures Calmer(locs, blocked, locs, blocked)
  {
  }

  /** Entering va, flowing it and settling it is an advance. */
  lemma Settles(a: Progress, entered: Progress, flowed: Progress, d: Progress, va: nat)
    requires entered == a.(functions := a.functions + {va}) && Runs(entered, flowed)
    requires d.im == flowed.im && d.locs == flowed.locs && d.functions == flowed.functions
    requires flowed.reported <= d.reported && flowed.reported + flowed.held <= d.reported + d.held
    requires va in d.reported + d.held && OnlyReports(flowed.events, d.events)
    ensures Runs(a, d) && forall e | e in flowed.events :: e in d.events
  {
    hide Answered;
    assert AllAnswered(Book(d), |flowed.events|) by { ReportsAnswered(d, |flowed.events|); }
    AnsweredLater(Book(flowed), Book(d), |a.events|);
    KeptIn(flowed.events, d.events);
  }

  lemma ReportsAnswered(d: Progress, k: nat)
    requires forall i | k <= i < |d.events| :: d.events[i].Reported?
    ensures AllAnswered(Book(d), k)
  {
  }

  // ----- the lists of a flow

  ghost predicate AllCalled(im: Image, h: History, fs: seq<nat>) { forall f | f in fs :: Called(im, h, f) }

  lemma AllCalledLater(im: Image, h: History, l: History, fs: seq<nat>)
    requires h <= l && AllCalled(im, h, fs)
    ensures AllCalled(im, l, fs)
  {
    hide Called;
    forall f | f in fs ensures Called(im, l, f) { CalledLater(im, h, l, f); }
  }

  /** t is where the flow starts, or an edge to it was queued. */
  ghost predicate Asked(h: History, startva: nat, t: nat) { t == startva || exists x :: Queued(x, t) in h }

  /** The queue, the deferred calls and the table spans of a flow from startva all go back to
      the history. */
  ghost predicate Lists(p: Progress, startva: nat, optodo: seq<nat>, deferred: seq<nat>, tables: seq<(nat, nat)>) {
    && (forall t | t in optodo :: Asked(p.events, startva, t))
    && AllCalled(p.im, p.events, deferred)
    && (forall s | s in tables :: exists x :: Spanned(x, s.0, s.1) in p.events)
  }

  lemma ListsLater(a: Progress, b: Progress, startva: nat, optodo: seq<nat>, deferred: seq<nat>,
                   tables: seq<(nat, nat)>)
    requires Advances(a, b) && Lists(a, startva, optodo, deferred, tables)
    ensures Lists(b, startva, optodo, deferred, tables)
  {
    Stays(a, b);
    AllCalledLater(a.im, a.events, b.events, deferred);
    hide AllCalled, Advances, Defined;
  }

  /** What was visited needs no decoding any more, and what was flowed was decoded. */
  ghost predicate Visits(p: Progress, visited: set<nat>, flowed: set<nat>) {
    && (forall t | t in visited :: Done(p.im, p.events, p.locs, t))
    && (forall x | x in flowed :: exists op :: Decoded(x, op) in p.events)
  }

  lemma VisitsLater(a: Progress, b: Progress, visited: set<nat>, flowed: set<nat>)
    requires Advances(a, b) && Visits(a, visited, flowed)
    ensures Visits(b, visited, flowed)
  {
    Stays(a, b);
    hide Advances, Defined;
  }

  predicate InTables(tables: seq<(nat, nat)>, va: nat) {
    exists i :: 0 <= i < |tables| && tables[i].0 <= va < tables[i].1
  }

  /** An address passed over needs no decoding. */
  lemma PassedOver(p: Progress, startva: nat, optodo: seq<nat>, deferred: seq<nat>, tables: seq<(nat, nat)>,
                   visited: set<nat>, flowed: set<nat>, t: nat, queue: set<nat>)
    requires Lists(p, startva, optodo, deferred, tables) && Visits(p, visited, flowed)
    requires Defined(p.locs, t) || InTables(tables, t) || p.im.read(t).None?
    ensures Visits(p, visited + {t}, flowed) && (InTables(tables, t) ==> tables != [])
    ensures AllAnswered(Pending(p, flowed, queue), |p.events|)
  {
    hide AllCalled, Asked, Defined;
    if InTables(tables, t) {
      var i :| 0 <= i < |tables| && tables[i].0 <= t < tables[i].1;
      assert tables[i] in tables;
    }
    assert Done(p.im, p.events, p.locs, t);
    hide Done;
  }

  /** The account of a flow that decoded the given instructions and has still to look at the
      queue. */
  function Pending(p: Progress, flowed: set<nat>, queue: set<nat>): Account {
    Book(p).(flowed := flowed, queue := queue)
  }

  /** One more address was visited. */
  lemma FlowedOn(start: Progress, a: Progress, b: Progress, startva: nat, flowed: set<nat>, now: set<nat>,
                 queue: set<nat>, more: set<nat>)
    requires Advances(start, a) && Advances(a, b) && queue <= more && flowed <= now
    requires AllAnswered(Pending(a, flowed, queue), |start.events|)
    requires AllAnswered(Pending(b, now, more), |a.events|)
    ensures Advances(start, b) && AllAnswered(Pending(b, now, more), |start.events|)
    ensures Defined(a.locs, startva) ==> Defined(b.locs, startva)
  {
    hide Answered, Defined;
    AdvancesOn(start, a, b);
    AnsweredLater(Pending(a, flowed, queue), Pending(b, now, more), |start.events|);
  }

  lemma Widened(a: Account, flowed: set<nat>, queue: set<nat>, left: seq<(nat, Branch)>, k: nat)
    requires AllAnswered(a, k) && a.flowed <= flowed && a.queue <= queue && forall x | x in a.left :: x in left
    ensures AllAnswered(a.(flowed := flowed, queue := queue, left := left), k)
  {
    hide Answered, Defined;
    AnsweredLater(a, a.(flowed := flowed, queue := queue, left := left), k);
  }

  /** What a flow starts with. */
  lemma FlowBegins(p: Progress, startva: nat)
    ensures Lists(p, startva, [startva], [], []) && Visits(p, {}, {})
    ensures AllAnswered(Pending(p, {}, Elements([startva]) + {}), |p.events|)
  {
  }

  lemma Popped(p: Progress, startva: nat, optodo: seq<nat>, deferred: seq<nat>, tables: seq<(nat, nat)>,
               visited: set<nat>)
    requires optodo != [] && Lists(p, startva, optodo, deferred, tables)
    ensures Lists(p, startva, optodo[..|optodo| - 1], deferred, tables)
    ensures var cur := optodo[|optodo| - 1];
      && Asked(p.events, startva, cur)
      && Elements(optodo[..|optodo| - 1]) + (visited + {cur}) == Elements(optodo) + visited
      && (cur in visited ==> visited + {cur} == visited)
  {
    hide AllCalled, Asked;
    ElementsPrefix(optodo, |optodo| - 1);
    assert optodo[..|optodo| - 1 + 1] == optodo;
  }

  /** An instruction was flowed. */
  lemma InsnVisited(a: Progress, b: Progress, visited: set<nat>, flowed: set<nat>, cur: nat, op: Insn, queue: set<nat>)
    requires Advances(a, b) && Visits(a, visited, flowed) && Decoded(cur, op) in b.events && Defined(b.locs, cur)
    requires AllAnswered(Pending(b, {cur}, queue), |a.events|)
    ensures Visits(b, visited + {cur}, flowed + {cur})
    ensures AllAnswered(Pending(b, flowed + {cur}, queue), |a.events|)
  {
    hide Advances, Defined, Answered;
    VisitsLater(a, b, visited, flowed);
    Widened(Pending(b, {cur}, queue), flowed + {cur}, queue, [], |a.events|);
  }

  /** A flow whose queue is empty leaves nothing open. */
  lemma FlowDone(start: Progress, p: Progress, visited: set<nat>, flowed: set<nat>)
    requires Advances(start, p) && Visits(p, visited, flowed)
    requires AllAnswered(Pending(p, flowed, Elements([]) + visited), |start.events|)
    ensures Runs(start, p)
  {
    hide Advances, AllAnswered, Done;
    Discharged(Pending(p, flowed, Elements([]) + visited), |start.events|);
  }

  /** Nor does one that stops at its limit. */
  lemma FlowLimited(start: Progress, a: Progress, b: Progress, startva: nat, optodo: seq<nat>, deferred: seq<nat>,
                    tables: seq<(nat, nat)>, flowed: set<nat>, queue: set<nat>)
    requires Advances(start, a) && Runs(a, b) && b.events == a.events + [Limited(flowed)]
    requires AllAnswered(Pending(a, flowed, queue), |start.events|)
    requires Lists(a, startva, optodo, deferred, tables)
    ensures Runs(start, b) && Lists(b, startva, optodo, deferred, tables)
    ensures Undefined(b.locs) <= Undefined(a.locs) && (Defined(a.locs, startva) ==> Defined(b.locs, startva))
  {
    hide Answered, Done, Defined, Lists;
    ListsLater(a, b, startva, optodo, deferred, tables);
    RunShrinks(a, b);
    AdvancesOn(start, a, b);
    Widened(Book(b), flowed, queue, [], |a.events|);
    AnsweredLater(Pending(a, flowed, queue), Pending(b, flowed, queue), |start.events|);
    assert Limited(flowed) in b.events;
    Discharged(Pending(b, flowed, queue), |start.events|);
  }

  lemma LimitCaused(p: Progress, visited: set<nat>, flowed: set<nat>)
    requires Visits(p, visited, flowed) && |flowed| >= MAX_INSNS_PER_FUNCTION
    ensures Caused(p.im, p.events, Limited(flowed))
  {
  }

  lemma ListsCalled(p: Progress, startva: nat, optodo: seq<nat>, deferred: seq<nat>, tables: seq<(nat, nat)>)
    requires Lists(p, startva, optodo, deferred, tables)
    ensures AllCalled(p.im, p.events, deferred)
  {
  }

  lemma AllCalledRun(a: Progress, b: Progress, fs: seq<nat>)
    requires Runs(a, b) && AllCalled(a.im, a.events, fs)
    ensures AllCalled(b.im, b.events, fs)
  {
    hide AllCalled, AllAnswered;
    AllCalledLater(a.im, a.events, b.events, fs);
  }

  lemma RunShrinks(a: Progress, b: Progress)
    requires Runs(a, b)
    ensures Undefined(b.locs) <= Undefined(a.locs) && a.reported <= b.reported
    ensures forall e | e in a.events :: e in b.events
  {
    Stays(a, b);
  }

  lemma MoreDeferred(a: Progress, b: Progress, startva: nat, optodo: seq<nat>, deferred: seq<nat>, more: seq<nat>,
                     tables: seq<(nat, nat)>)
    requires Runs(a, b) && Lists(a, startva, optodo, deferred, tables) && AllCalled(b.im, b.events, more)
    ensures Lists(b, startva, optodo, more, tables)
  {
    hide AllCalled, AllAnswered, Advances, Asked;
    ListsLater(a, b, startva, optodo, deferred, tables);
  }

  lemma MoreQueued(a: Progress, b: Progress, startva: nat, optodo: seq<nat>, deferred: seq<nat>,
                   tables: seq<(nat, nat)>, cur: nat, t: nat)
    requires Runs(a, b) && Lists(a, startva, optodo, deferred, tables) && b.events == a.events + [Queued(cur, t)]
    ensures Lists(b, startva, optodo + [t], deferred, tables)
    ensures t in Elements(optodo + [t]) && Elements(optodo) <= Elements(optodo + [t])
  {
    hide AllCalled, AllAnswered, Advances;
    ListsLater(a, b, startva, optodo, deferred, tables);
    assert b.events[|a.events|] == Queued(cur, t);
    assert Asked(b.events, startva, t);
    hide Asked;
  }

  /** Spans added to those known before. */
  lemma Tables(a: Progress, b: Progress, startva: nat, optodo: seq<nat>, deferred: seq<nat>, was: seq<(nat, nat)>,
               now: seq<(nat, nat)>)
    requires Advances(a, b) && Lists(a, startva, optodo, deferred, was)
    requires forall s | s in now :: s in was || exists x :: Spanned(x, s.0, s.1) in b.events
    ensures Lists(b, startva, optodo, deferred, now)
  {
    hide AllCalled, Advances, Asked;
    ListsLater(a, b, startva, optodo, deferred, was);
  }

  // ----- the edges of one instruction

  /** Event i is the decoding of cur, or a case of its table, while path was being flowed,
      and b is an edge of it. */
  ghost predicate OpenEdge(im: Image, h: History, path: seq<nat>, cur: nat, i: nat, b: Branch) {
    && i < |h| && PathOf(h[..i]) == path && im.read(cur).Some?
    && (|| (h[i] == Decoded(cur, im.read(cur).value) && IsEdge(cur, im.read(cur).value, b))
        || (b.target.Some? && b.flags == {Cond} && h[i] == Tabled(cur, b.target.value)))
  }

  /** The branches still to be consumed, each an open edge. */
  ghost predicate AllOpen(im: Image, h: History, path: seq<nat>, cur: nat, branches: seq<Branch>,
                          left: seq<(nat, Branch)>) {
    |left| == |branches| && forall j | 0 <= j < |left| ::
      left[j].1 == branches[j] && OpenEdge(im, h, path, cur, left[j].0, left[j].1)
  }

  lemma OpenLater(im: Image, h: History, l: History, path: seq<nat>, cur: nat, branches: seq<Branch>,
                  left: seq<(nat, Branch)>)
    requires h <= l && AllOpen(im, h, path, cur, branches, left)
    ensures AllOpen(im, l, path, cur, branches, left)
  {
    hide IsEdge, PathOf;
    forall j | 0 <= j < |left| ensures OpenEdge(im, l, path, cur, left[j].0, left[j].1) {
      assert h[..left[j].0] == l[..left[j].0];
    }
  }

  lemma OpenLeads(im: Image, h: History, path: seq<nat>, cur: nat, i: nat, b: Branch)
    requires OpenEdge(im, h, path, cur, i, b)
    ensures LeadsOut(h, cur, b)
    ensures (Proc in b.flags && b.target.Some? && im.isExec(b.target.value)
      && b.target.value != cur + im.read(cur).value.length) ==> CallsTo(im, h, cur, b.target.value)
  {
    hide PathOf;
    assert h[i] in h;
  }

  /** The last open edge leads out of cur. */
  lemma LastOpen(im: Image, h: History, path: seq<nat>, cur: nat, branches: seq<Branch>, left: seq<(nat, Branch)>)
    requires AllOpen(im, h, path, cur, branches, left) && branches != []
    ensures |left| == |branches|
    ensures var b := branches[|branches| - 1];
      && LeadsOut(h, cur, b) && im.read(cur).Some?
      && ((Proc in b.flags && b.target.Some? && im.isExec(b.target.value)
           && b.target.value != cur + im.read(cur).value.length) ==> CallsTo(im, h, cur, b.target.value))
  {
    hide PathOf, LeadsOut, CallsTo;
    OpenLeads(im, h, path, cur, left[|left| - 1].0, left[|left| - 1].1);
  }

  /** The decoding of cur opens its edges. */
  lemma Opened(p: Progress, q: Progress, path: seq<nat>, cur: nat, op: Insn, branches: seq<Branch>)
    returns (left: seq<(nat, Branch)>)
    requires q.im == p.im && q.events == p.events + [Decoded(cur, op)] && p.im.read(cur) == Some(op)
    requires PathOf(p.events) == path && branches == Branches(cur, op)
    ensures AllOpen(q.im, q.events, path, cur, branches, left)
    ensures AllAnswered(Book(q).(left := left), |p.events|)
  {
    hide PathOf, Followed, Branches, IsEdge;
    BranchesAre(cur, op);
    var k := |p.events|;
    assert q.events[..k] == p.events;
    left := seq(|branches|, j requires 0 <= j < |branches| => (k, branches[j]));
    forall b | IsEdge(cur, op, b) ensures (k, b) in left {
      var j :| 0 <= j < |branches| && branches[j] == b;
      assert left[j] == (k, b);
    }
  }

  /** One branch was followed: the last edge is open no more. */
  lemma BranchFollowed(start: Progress, a: Progress, b: Progress, path: seq<nat>, cur: nat, op: Insn,
                       branches: seq<Branch>, left: seq<(nat, Branch)>, cases: seq<Branch>, owed: seq<(nat, Branch)>,
                       queue: set<nat>, more: set<nat>)
    requires Advances(start, a) && Advances(a, b) && queue <= more && branches != []
    requires a.im.read(cur) == Some(op) && AllOpen(a.im, a.events, path, cur, branches, left)
    requires AllAnswered(Pending(a, {cur}, queue).(left := left), |start.events|)
    requires Followed(Pending(b, {cur}, more), path, cur, op, branches[|branches| - 1])
    requires AllAnswered(Book(b).(left := owed), |a.events|)
    requires AllOpen(b.im, b.events, path, cur, cases, owed)
    ensures AllAnswered(Pending(b, {cur}, more).(left := left[..|left| - 1] + owed), |start.events|)
    ensures AllOpen(b.im, b.events, path, cur, branches[..|branches| - 1] + cases, left[..|left| - 1] + owed)
  {
    hide Answered, Defined, IsEdge, PathOf, Followed;
    OpenLater(a.im, a.events, b.events, path, cur, branches, left);
    var was := Pending(a, {cur}, queue).(left := left);
    var now := Pending(b, {cur}, more).(left := left[..|left| - 1] + owed);
    Widened(Book(b).(left := owed), {cur}, more, now.left, |a.events|);
    var last := left[|left| - 1];
    assert OpenEdge(b.im, b.events, path, cur, last.0, last.1);
    assert EdgeDone(now, last.0, last.1) by { SameButLeft(Pending(b, {cur}, more), now, path, cur, op, last.1); }
    AnsweredLater(was, now, |start.events|);
  }

  lemma SameButLeft(a: Account, b: Account, path: seq<nat>, va: nat, op: Insn, e: Branch)
    requires b == a.(left := b.left) && Followed(a, path, va, op, e)
    ensures Followed(b, path, va, op, e)
  {
    hide Defined;
  }

  lemma Unaimed(a: Account, path: seq<nat>, va: nat, op: Insn, b: Branch)
    requires b.target.None?
    ensures Followed(a, path, va, op, b)
  {
  }

  /** One more case of the table of cur was found. */
  lemma CaseOpened(start: Progress, a: Progress, b: Progress, path: seq<nat>, cur: nat, cases: seq<Branch>,
                   owed: seq<(nat, Branch)>, target: nat)
    requires Advances(start, a) && Advances(a, b) && PathOf(a.events) == path
    requires b.events == a.events + [Tabled(cur, target)]
    requires a.im.read(cur).Some?
    requires AllOpen(a.im, a.events, path, cur, cases, owed) && AllAnswered(Book(a).(left := owed), |start.events|)
    ensures var e := Branch(Some(target), {Cond});
      && AllOpen(b.im, b.events, path, cur, cases + [e], owed + [(|a.events|, e)])
      && AllAnswered(Book(b).(left := owed + [(|a.events|, e)]), |start.events|)
  {
    hide PathOf, Followed, IsEdge, Defined;
    var e := Branch(Some(target), {Cond});
    var more := owed + [(|a.events|, e)];
    OpenLater(a.im, a.events, b.events, path, cur, cases, owed);
    assert b.events[..|a.events|] == a.events;
    assert more[|owed|] == (|a.events|, e);
    AnsweredLater(Book(a).(left := owed), Book(b).(left := more), |start.events|);
  }

  /** The span of a table is noted. */
  lemma SpanNoted(start: Progress, a: Progress, b: Progress, path: seq<nat>, cur: nat, cases: seq<Branch>,
                  owed: seq<(nat, Branch)>)
    requires Advances(start, a) && Runs(a, b)
    requires AllOpen(a.im, a.events, path, cur, cases, owed) && AllAnswered(Book(a).(left := owed), |start.events|)
    ensures AllOpen(b.im, b.events, path, cur, cases, owed)
    ensures AllAnswered(Book(b).(left := owed), |start.events|)
  {
    hide Answered, Defined, OpenEdge;
    OpenLater(a.im, a.events, b.events, path, cur, cases, owed);
    Widened(Book(b), {}, {}, owed, |a.events|);
    AnsweredLater(Book(a).(left := owed), Book(b).(left := owed), |start.events|);
  }

  // ----- the causes of the engine's decisions

  lemma DecodeCaused(im: Image, h: History, startva: nat, cur: nat, op: Insn)
    requires PathOf(h) != [] && startva == PathOf(h)[|PathOf(h)| - 1] && Asked(h, startva, cur)
    ensures Caused(im, h, Decoded(cur, op))
  {
  }

  lemma EnterCaused(im: Image, h: History, f: nat)
    requires f !in PathOf(h) && |PathOf(h)| < MAX_DESCENT_DEPTH && (PathOf(h) == [] || Called(im, h, f))
    ensures Caused(im, h, Entered(f))
  {
  }

  lemma LeaveCaused(im: Image, h: History)
    requires PathOf(h) != []
    ensures Caused(im, h, Left(PathOf(h)[|PathOf(h)| - 1]))
  {
  }

  lemma ReadFits(read: nat -> Option<Insn>, va: nat)
    requires ReaderSound(read) && read(va).Some?
    ensures 1 <= read(va).value.length && va + read(va).value.length <= CodeBlocks.SPACE
  {
  }

  lemma PathGrows(path: seq<nat>, f: nat)
    requires Distinct(path) && f !in path
    ensures Distinct(path + [f]) && PathAfter(path, Entered(f)) == path + [f]
  {
  }

  lemma PathShrinks(path: seq<nat>)
    requires Distinct(path) && path != []
    ensures Distinct(path[..|path| - 1])
    ensures PathAfter(path, Left(path[|path| - 1])) == path[..|path| - 1]
  {
  }

  lemma SpanCaused(im: Image, h: History, cur: nat, at: nat, end: nat)
    requires im.read(cur).Some? && IsTableJump(im.read(cur).value)
    ensures Caused(im, h, Spanned(cur, at, end))
  {
  }

  lemma WaitCaused(im: Image, h: History, startva: nat, cur: nat, b: Branch)
    requires PathOf(h) != [] && startva == PathOf(h)[|PathOf(h)| - 1] && b.target.Some?
    requires LeadsOut(h, cur, b) && b.target.value in PathOf(h) && b.target.value != startva
    ensures Caused(im, h, Waited(startva, b.target.value))
  {
    hide PathOf, LeadsOut;
  }

  lemma QueueCaused(im: Image, h: History, cur: nat, b: Branch)
    requires LeadsOut(h, cur, b) && b.target.Some? && Proc !in b.flags
    requires im.isExec(b.target.value) && im.read(cur).Some? && (cur, b.target.value) !in SuppressedIn(h)
    requires !JumpsUp(im.read(cur).value, PathOf(h), b.target.value)
    ensures Caused(im, h, Queued(cur, b.target.value))
  {
    hide PathOf, LeadsOut;
    hide SuppressedIn;
    SuppressedKnown(h, cur, b.target.value);
  }

  lemma SuppressCaused(a: Progress, b: Progress, cur: nat, f: nat)
    requires Runs(a, b) && CallsTo(a.im, a.events, cur, f) && a.im.read(cur).Some?
    ensures Caused(b.im, b.events, Suppressed(cur, cur + a.im.read(cur).value.length))
  {
    hide PathOf, AllAnswered;
    Stays(a, b);
    assert CallsTo(b.im, b.events, cur, f);
  }

  lemma PushedCalled(a: Progress, b: Progress, fs: seq<nat>, f: nat)
    requires Runs(a, b) && AllCalled(b.im, b.events, fs) && Called(a.im, a.events, f)
    ensures AllCalled(b.im, b.events, if f in fs then fs else fs + [f])
  {
    hide AllAnswered, Called;
    CalledLater(a.im, a.events, b.events, f);
  }

  /** The entry of a flow, its flow and its end. */
  lemma Entry(a: Progress, pushed: Progress, ended: Progress, b: Progress, f: nat)
    requires Advances(a, pushed) && pushed.events == a.events + [Entered(f)]
    requires Runs(pushed, ended) && Runs(ended, b) && (Defined(ended.locs, f) || ended.im.read(f).None?)
    ensures Runs(a, b) && Entered(f) in b.events
  {
    hide AllAnswered, Answered, Defined;
    RunsOn(pushed, ended, b);
    assert pushed.events[|a.events|] == Entered(f);
    Stays(pushed, b);
    AdvancesOn(a, pushed, b);
    Stays(ended, b);
    EntryRuns(a, pushed, b, f);
  }

  // ----- what every event leaves standing

  /** Only entering and leaving change the path, and only a suppression what is suppressed. */
  lemma Standing(h: History, e: Event)
    ensures EnteredIn(h) <= EnteredIn(h + [e])
    ensures !e.Entered? && !e.Left? ==> PathOf(h + [e]) == PathOf(h)
    ensures !e.Suppressed? ==> SuppressedIn(h + [e]) == SuppressedIn(h)
  {
    hide EnteredIn, SuppressedIn;
    PathOn(h, e);
    SetsOn(h, e);
  }

  /** A sane history in which every event had its cause, and which says who waits, what is
      being flowed and what is suppressed. */
  ghost predicate Ledger(h: History, s: Store, reported: set<nat>, views: map<nat, CodeBlocks.View>, im: Image,
                         on: Waits, path: seq<nat>, noflow: set<(nat, nat)>) {
    && Sane(h, s, reported, views) && AllCaused(im, h) && Awaited(h, on) && on.Keys <= EnteredIn(h)
    && path == PathOf(h) && noflow == SuppressedIn(h)
  }

  /** A decision of the engine. */
  lemma Noted(h: History, s: Store, reported: set<nat>, views: map<nat, CodeBlocks.View>, im: Image, on: Waits,
              path: seq<nat>, noflow: set<(nat, nat)>, e: Event)
    requires Ledger(h, s, reported, views, im, on, path, noflow) && Caused(im, h, e)
    requires !e.Decoded? && !e.Tabled? && !e.Pointed? && !e.Reported?
    ensures Ledger(h + [e], s, reported, views, im, if e.Waited? then WithWait(on, e.f, e.target) else on,
      PathAfter(path, e), if e.Suppressed? then noflow + {(e.source, e.target)} else noflow)
    ensures EnteredIn(h + [e]) == if e.Entered? then EnteredIn(h) + {e.f} else EnteredIn(h)
  {
    var now := if e.Waited? then WithWait(on, e.f, e.target) else on;
    WaiterEntered(im, h, e);
    WaitKeys(on, e);
    hide Sane, Caused, AllCaused, Awaited, PathOf, EnteredIn, SuppressedIn, WithWait, PathAfter, Holds;
    SaneNoted(h, s, reported, views, e);
    CausedOn(im, h, e);
    AwaitedOn(h, on, e, now);
    PathOn(h, e);
    SetsOn(h, e);
  }

  lemma WaiterEntered(im: Image, h: History, e: Event)
    requires Caused(im, h, e)
    ensures e.Waited? ==> e.f in EnteredIn(h)
  {
    hide PathOf, EnteredIn;
    if e.Waited? {
      PathEntered(h);
      EnteredKnown(h, e.f);
    }
  }

  lemma WaitKeys(on: Waits, e: Event)
    ensures e.Waited? ==>
      && WithWait(on, e.f, e.target).Keys == on.Keys + {e.f} && Holds(WithWait(on, e.f, e.target), e.f, e.target)
      && forall f, g | Holds(on, f, g) :: Holds(WithWait(on, e.f, e.target), f, g)
  {
  }

  lemma ReportCaused(im: Image, h: History, on: Waits, f: nat)
    requires Awaited(h, on) && f !in on && Entered(f) in h
    ensures Caused(im, h, Reported(f, {}))
  {
    hide PathOf, ReportedSince;
  }

  /** Only reports were added. */
  ghost predicate OnlyReports(h: History, l: History) {
    h <= l && forall i | |h| <= i < |l| :: l[i].Reported?
  }
}
