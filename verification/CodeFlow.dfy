/** The re-entrant code-flow engine: it flows a function's code, descends into its callees
    first, defers what is still being flowed, and holds the reports of functions that jump
    into an unfinished ancestor. */
module CodeFlow {
  import opened Features
  import opened Locations
  import opened Discovery
  import opened FlowHistory
  import opened FlowAccount
  import opened FlowProgress
  import opened Sequences
  import CodeBlocks
  import Graphs

  // ----- waits and their inverse

  /** The two indices are mutual inverses and keep no empty entry. */
  ghost predicate Inverse(on: Waits, inv: Waits) {
    && (forall f, g :: Holds(on, f, g) <==> Holds(inv, g, f))
    && (forall f | f in on :: on[f] != {})
    && (forall g | g in inv :: inv[g] != {})
  }

  lemma WaitAdded(on: Waits, inv: Waits, f: nat, g: nat)
    requires Inverse(on, inv)
    ensures Inverse(WithWait(on, f, g), WithWait(inv, g, f))
  {
    var on', inv' := WithWait(on, f, g), WithWait(inv, g, f);
    forall x, y ensures Holds(on', x, y) <==> Holds(inv', y, x) {
      assert Holds(on', x, y) <==> Holds(on, x, y) || (x == f && y == g);
      assert Holds(inv', y, x) <==> Holds(inv, y, x) || (x == f && y == g);
    }
  }

  /** The waits once nothing waits on g any more. */
  function Released(on: Waits, g: nat): Waits {
    map f | f in on && on[f] != {g} :: on[f] - {g}
  }

  /** The functions whose only wait was g. */
  function Freed(on: Waits, g: nat): set<nat> { set f | f in on && on[f] == {g} }

  lemma WaitsReleased(on: Waits, inv: Waits, g: nat)
    requires Inverse(on, inv)
    ensures Inverse(Released(on, g), inv - {g})
    ensures (Released(on, g)).Keys == on.Keys - Freed(on, g)
  {
    var on', inv' := Released(on, g), inv - {g};
    forall x, y ensures Holds(on', x, y) <==> Holds(inv', y, x) {
      assert Holds(on', x, y) <==> Holds(on, x, y) && y != g;
    }
    forall f | f in on' ensures on'[f] != {} {
      assert on[f] != {} && on[f] != {g};
      var x :| x in on[f];
    }
  }

  function PushUnique(s: seq<nat>, x: nat): seq<nat> { if x in s then s else s + [x] }

  /** Without its first occurrence of x. */
  function EraseValue(s: seq<nat>, x: nat): (r: seq<nat>)
    ensures |r| == if x in s then |s| - 1 else |s|
    ensures forall y | y in r :: y in s
  {
    if s == [] then [] else if s[0] == x then s[1..] else [s[0]] + EraseValue(s[1..], x)
  }

  class CodeFlowContext {
    const driver: Driver
    const isExec: nat -> bool
    var functions: set<nat>
    var reported: set<nat>
    var cfBlocks: seq<nat>
    var waitsOn: Waits
    var awaitedBy: Waits
    var reportHeld: set<nat>
    var blockedRecursion: seq<nat>
    var noflow: set<(nat, nat)>
    ghost var events: History

    ghost function Stored(): Store
      reads this, driver, driver.locations, driver.xrefs
    {
      Store(driver.read, driver.locations.byStart, driver.xrefs.from, driver.noFall)
    }

    function Im(): Image { Image(driver.read, isExec) }

    /** The history is sane, every event in it had its cause, and the driver and the engine's
        own records are what it says. */
    ghost predicate Reporting()
      reads this, driver, driver.locations, driver.xrefs, driver.blocks
    {
      && driver.Valid() && driver.analyzed == reported
      && Ledger(events, Stored(), reported, driver.views, Im(), waitsOn, cfBlocks, noflow)
    }

    /** All functions but the given ones were entered. */
    ghost predicate SoundBut(entering: set<nat>)
      reads this, driver, driver.locations, driver.xrefs, driver.blocks
    {
      && Reporting() && Inverse(waitsOn, awaitedBy) && reportHeld <= waitsOn.Keys
      && Distinct(cfBlocks) && |cfBlocks| <= MAX_DESCENT_DEPTH
      && |functions| <= MAX_FUNCTIONS_PER_IMAGE && functions <= EnteredIn(events) + entering
      && AllCalled(Im(), events, blockedRecursion)
    }

    ghost predicate Sound()
      reads this, driver, driver.locations, driver.xrefs, driver.blocks
    {
      SoundBut({})
    }

    ghost function Now(): Progress
      reads this, driver, driver.locations
    {
      Progress(Im(), driver.locations.byStart, functions, reported, reportHeld, events)
    }

    constructor (d: Driver, executable: nat -> bool)
      requires d.Valid() && d.analyzed == {}
      requires d.locations.byStart == map[] && d.xrefs.from == map[] && d.noFall == {}
      ensures driver == d && isExec == executable && Sound()
      ensures functions == {} && cfBlocks == [] && events == []
    {
      driver, isExec := d, executable;
      functions, reported, reportHeld, noflow := {}, {}, {}, {};
      cfBlocks, blockedRecursion, events := [], [], [];
      waitsOn, awaitedBy := map[], map[];
      SaneAtFirst(Store(d.read, d.locations.byStart, d.xrefs.from, d.noFall), d.views);
    }

    predicate OnActivePath(va: nat)
      reads this
    {
      va in cfBlocks
    }

    /** Marks va reported and runs the function callback. It is never called with a wait
        outstanding. */
    method Fire(va: nat)
      requires Reporting()
      requires va !in waitsOn && Entered(va) in events
      modifies `reported, `events, driver, driver.blocks
      ensures Reporting()
      ensures reported == old(reported) + {va} && events == old(events) + [Reported(va, Waiting(waitsOn, va))]
    {
      hide Sane, AllRecovered, Listed, XrefsValid, LocationsFit, Discovery.ReaderSound, Sees, AllCaused, Caused,
        Awaited, PathOf;
      ghost var was, views, h := reported, driver.views, events;
      ReportCaused(Im(), h, waitsOn, va);
      CausedOn(Im(), h, Reported(va, {}));
      AwaitedOn(h, waitsOn, Reported(va, {}), waitsOn);
      Standing(h, Reported(va, {}));
      reported := reported + {va};
      events := events + [Reported(va, Waiting(waitsOn, va))];
      driver.OnFunction(va);
      if va !in was { SeesShown(driver, driver.views[va], h, Stored(), was, views); }
      SaneReported(h, Stored(), was, views, driver.views, va);
    }

    /** Reports va and releases, one level deep, what waited on nothing else. */
    method ReportFunction(va: nat)
      requires Sound() && va !in waitsOn && Entered(va) in events
      modifies `reported, `events, `waitsOn, `awaitedBy, `reportHeld, driver, driver.blocks
      ensures Sound() && OnlyReports(old(events), events)
      ensures waitsOn == Released(old(waitsOn), va) && awaitedBy == old(awaitedBy) - {va}
      ensures reported == old(reported) + {va} + Freed(old(waitsOn), va)
      ensures reportHeld == old(reportHeld) - Freed(old(waitsOn), va)
    {
      hide Sane, AllRecovered, Listed, XrefsValid, LocationsFit, Discovery.ReaderSound, Inverse, AllCaused, Awaited,
        PathOf, AllCalled;
      ghost var h := events;
      WaitsReleased(waitsOn, awaitedBy, va);
      Fire(va);
      ReleaseWaiters(va);
      KeptIn(h, events);
      AllCalledLater(Im(), h, events, blockedRecursion);
    }

    method ReleaseWaiters(va: nat)
      requires Reporting() && Inverse(waitsOn, awaitedBy)
      requires events != [] && events[|events| - 1] == Reported(va, {})
      modifies `reported, `events, `waitsOn, `awaitedBy, `reportHeld, driver, driver.blocks
      ensures Reporting() && OnlyReports(old(events), events)
      ensures waitsOn == Released(old(waitsOn), va) && awaitedBy == old(awaitedBy) - {va}
      ensures reported == old(reported) + Freed(old(waitsOn), va)
      ensures reportHeld == old(reportHeld) - Freed(old(waitsOn), va)
    {
      hide Sane, AllRecovered, Listed, XrefsValid, LocationsFit, Discovery.ReaderSound, Inverse, AllCaused, Awaited,
        PathOf;
      if va in awaitedBy {
        ghost var on := waitsOn;
        var freed := ClearWaits(va);
        awaitedBy := awaitedBy - {va};
        AwaitedReleased(events, on, waitsOn, va);
        ReportFreed(on, va, freed);
      } else {
        NoneWaits(waitsOn, awaitedBy, va);
        assert awaitedBy - {va} == awaitedBy;
        assert reported + {} == reported && reportHeld - {} == reportHeld;
      }
    }

    /** Takes va out of every wait set, collecting the waiters left with nothing. */
    method ClearWaits(va: nat) returns (freed: seq<nat>)
      requires Inverse(waitsOn, awaitedBy) && va in awaitedBy
      modifies `waitsOn
      ensures waitsOn == Without(old(waitsOn), old(waitsOn).Keys, va)
      ensures Distinct(freed) && forall f :: f in freed <==> f in Freed(old(waitsOn), va)
    {
      hide Inverse;
      ghost var on := waitsOn;
      WaitersKnown(waitsOn, awaitedBy, va);
      freed := [];
      var waiters := awaitedBy[va];
      while waiters != {}
        invariant waiters <= awaitedBy[va]
        invariant waitsOn == Without(on, awaitedBy[va] - waiters, va)
        invariant Distinct(freed) && forall f :: f in freed <==> f in Freed(on, va) && f !in waiters
        decreases waiters
      {
        var waiter :| waiter in waiters;
        WaiterHolds(on, awaitedBy, waiter, va);
        waiters := waiters - {waiter};
        if waiter in waitsOn {
          waitsOn := waitsOn[waiter := waitsOn[waiter] - {va}];
          if waitsOn[waiter] == {} {
            OnlyWait(on[waiter], va);
            freed := freed + [waiter];
          }
        }
      }
    }

    method Free(waiter: nat)
      requires Reporting() && waiter in waitsOn.Keys && waitsOn[waiter] == {}
      modifies `reported, `events, `waitsOn, `reportHeld, driver, driver.blocks
      ensures Reporting() && reported == old(reported) + {waiter} && events == old(events) + [Reported(waiter, {})]
      ensures waitsOn == old(waitsOn) - {waiter} && reportHeld == old(reportHeld) - {waiter}
    {
      hide Sane, AllRecovered, Listed, XrefsValid, LocationsFit, Discovery.ReaderSound, Inverse, AllCaused, PathOf;
      assert waiter in EnteredIn(events);
      waitsOn := waitsOn - {waiter};
      reportHeld := reportHeld - {waiter};
      Fire(waiter);
    }

    method ReportFreed(ghost on: Waits, ghost va: nat, freed: seq<nat>)
      requires Reporting()
      requires waitsOn == Without(on, on.Keys, va) && Distinct(freed)
      requires forall f :: f in freed <==> f in Freed(on, va)
      modifies `reported, `events, `waitsOn, `reportHeld, driver, driver.blocks
      ensures Reporting()
      ensures OnlyReports(old(events), events) && waitsOn == Released(on, va)
      ensures reported == old(reported) + Freed(on, va) && reportHeld == old(reportHeld) - Freed(on, va)
    {
      hide Sane, AllRecovered, Listed, XrefsValid, LocationsFit, Discovery.ReaderSound, Inverse, AllCaused, Awaited,
        PathOf;
      for i := 0 to |freed|
        invariant Reporting()
        invariant OnlyReports(old(events), events)
        invariant waitsOn == Without(on, on.Keys, va) - Elements(freed[..i])
        invariant reported == old(reported) + Elements(freed[..i])
        invariant reportHeld == old(reportHeld) - Elements(freed[..i])
      {
        var waiter := freed[i];
        assert Elements(freed[..i + 1]) == Elements(freed[..i]) + {waiter};
        assert waiter in Freed(on, va);
        assert waiter !in Elements(freed[..i]);
        Free(waiter);
      }
      assert freed[..|freed|] == freed;
      WithoutThenFreed(on, va);
      assert Elements(freed) == Freed(on, va);
    }

    // ----- the engine's decisions

    /** Notes a decision that changes nothing else. */
    ghost method Note(e: Event)
      requires Sound() && Caused(Im(), events, e) && (e.Queued? || e.Spanned? || e.Limited? || e.Refused?)
      modifies `events
      ensures Sound() && Runs(old(Now()), Now()) && events == old(events) + [e]
    {
      hide Ledger, AllRecovered, Listed, XrefsValid, LocationsFit, Discovery.ReaderSound, Inverse, Caused, AllCalled,
        Called, Runs, Advances, EnteredIn, Distinct, WithWait;
      Noted(events, Stored(), reported, driver.views, Im(), waitsOn, cfBlocks, noflow, e);
      AllCalledLater(Im(), events, events + [e], blockedRecursion);
      NoteRuns(Now(), e);
      events := events + [e];
    }

    /** Suppresses the fall-through of a call that does not return. */
    method Suppress(cur: nat, next: nat)
      requires Sound() && Caused(Im(), events, Suppressed(cur, next))
      modifies `events, `noflow
      ensures Sound() && Runs(old(Now()), Now()) && events == old(events) + [Suppressed(cur, next)]
    {
      hide Ledger, AllRecovered, Listed, XrefsValid, LocationsFit, Discovery.ReaderSound, Inverse, Caused, AllCalled,
        Called, Runs, Advances, EnteredIn, Distinct, WithWait;
      ghost var e := Suppressed(cur, next);
      Noted(events, Stored(), reported, driver.views, Im(), waitsOn, cfBlocks, noflow, e);
      AllCalledLater(Im(), events, events + [e], blockedRecursion);
      NoteRuns(Now(), e);
      events := events + [e];
      noflow := noflow + {(cur, next)};
    }

    /** Makes the function being flowed wait for an outer one. */
    method WaitFor(startva: nat, target: nat)
      requires Sound() && startva in cfBlocks && Caused(Im(), events, Waited(startva, target))
      modifies `events, `waitsOn, `awaitedBy
      ensures Sound() && Runs(old(Now()), Now()) && events == old(events) + [Waited(startva, target)]
    {
      hide Ledger, AllRecovered, Listed, XrefsValid, LocationsFit, Discovery.ReaderSound, Inverse, Caused, AllCalled,
        Called, Runs, Advances, EnteredIn, Distinct, WithWait;
      ghost var e, on := Waited(startva, target), waitsOn;
      WaitAdded(waitsOn, awaitedBy, startva, target);
      WaitKeys(waitsOn, e);
      Noted(events, Stored(), reported, driver.views, Im(), waitsOn, cfBlocks, noflow, e);
      AllCalledLater(Im(), events, events + [e], blockedRecursion);
      NoteRuns(Now(), e);
      events := events + [e];
      waitsOn := WithWait(waitsOn, startva, target);
      awaitedBy := WithWait(awaitedBy, target, startva);
    }

    /** Begins the flow of va. */
    method Push(va: nat)
      requires SoundBut({va}) && va !in cfBlocks && |cfBlocks| < MAX_DESCENT_DEPTH
      requires cfBlocks == [] || Called(Im(), events, va)
      modifies `events, `cfBlocks
      ensures Sound() && Advances(old(Now()), Now())
      ensures cfBlocks == old(cfBlocks) + [va] && events == old(events) + [Entered(va)]
    {
      hide Ledger, AllRecovered, Listed, XrefsValid, LocationsFit, Discovery.ReaderSound, Inverse, Caused, AllCalled,
        Called, Runs, Advances, EnteredIn, Distinct, PathAfter, WithWait;
      ghost var e := Entered(va);
      PathGrows(cfBlocks, va);
      PathIs();
      EnterCaused(Im(), events, va);
      Noted(events, Stored(), reported, driver.views, Im(), waitsOn, cfBlocks, noflow, e);
      AllCalledLater(Im(), events, events + [e], blockedRecursion);
      NoteRuns(Now(), e);
      events := events + [e];
      cfBlocks := cfBlocks + [va];
    }

    /** Ends the innermost flow. */
    method Pop()
      requires Sound() && cfBlocks != []
      modifies `events, `cfBlocks
      ensures Sound() && Runs(old(Now()), Now())
      ensures cfBlocks == old(cfBlocks)[..|old(cfBlocks)| - 1]
    {
      hide Ledger, AllRecovered, Listed, XrefsValid, LocationsFit, Discovery.ReaderSound, Inverse, Caused, AllCalled,
        Called, Runs, Advances, EnteredIn, Distinct, PathAfter, WithWait;
      var rest := cfBlocks[..|cfBlocks| - 1];
      ghost var e, before := Left(cfBlocks[|cfBlocks| - 1]), Now();
      PathShrinks(cfBlocks);
      PathIs();
      LeaveCaused(Im(), events);
      Noted(events, Stored(), reported, driver.views, Im(), waitsOn, cfBlocks, noflow, e);
      AllCalledLater(Im(), events, events + [e], blockedRecursion);
      NoteRuns(before, e);
      events := events + [e];
      cfBlocks := rest;
    }

    // ----- the engine

    /** Makes va a function, flows its code, and reports it unless it still waits. */
    method AddEntryPoint(va: nat)
      requires Sound() && va !in cfBlocks && |cfBlocks| < MAX_DESCENT_DEPTH
      requires cfBlocks == [] || Called(Im(), events, va)
      modifies this, driver, driver.locations, driver.xrefs, driver.blocks
      ensures Sound() && Runs(old(Now()), Now()) && cfBlocks == old(cfBlocks)
      ensures Entered(va) in events || Refused(va) in events
      ensures Calmer(old(driver.locations.byStart), old(blockedRecursion), driver.locations.byStart, blockedRecursion)
      decreases Undefined(driver.locations.byStart), |blockedRecursion|, 6
    {
      hide SoundBut, Runs, Advances, Called, Undefined, EnteredIn, Calmer, OnlyReports;
      NoAdvance(Now(), Now());
      StaysCalm(driver.locations.byStart, blockedRecursion);
      if |functions| >= MAX_FUNCTIONS_PER_IMAGE {
        TooMany(va);
        Note(Refused(va));
        return;
      }
      if va in functions { FunctionEntered(va); return; }
      NewFunction(va);
      ghost var entered := Now();
      AddCodeFlow(va);
      ghost var flowed := Now();
      Settle(va);
      Settles(old(Now()), entered, flowed, Now(), va);
    }

    /** Reports va, or keeps the report back while va waits. */
    method Settle(va: nat)
      requires Sound() && Entered(va) in events
      modifies `reported, `events, `waitsOn, `awaitedBy, `reportHeld, driver, driver.blocks
      ensures Sound() && OnlyReports(old(events), events) && va in reported + reportHeld
      ensures old(reported) <= reported && old(reported) + old(reportHeld) <= reported + reportHeld
    {
      hide SoundBut, Released, Inverse;
      if va !in waitsOn {
        ReportFunction(va);
      } else {
        HoldReport(va);
      }
    }

    method NewFunction(va: nat)
      requires Sound() && |functions| < MAX_FUNCTIONS_PER_IMAGE
      modifies `functions
      ensures SoundBut({va}) && functions == old(functions) + {va}
    {
      hide Ledger, AllRecovered, Listed, XrefsValid, LocationsFit, Discovery.ReaderSound, Inverse, AllCalled, EnteredIn;
      functions := functions + {va};
    }

    /** Keeps the report of va back. */
    method HoldReport(va: nat)
      requires Sound() && va in waitsOn
      modifies `reportHeld
      ensures Sound() && reportHeld == old(reportHeld) + {va}
    {
      hide Ledger, AllRecovered, Listed, XrefsValid, LocationsFit, Discovery.ReaderSound, Inverse, AllCalled, EnteredIn;
      reportHeld := reportHeld + {va};
    }

    lemma TooMany(va: nat)
      requires Sound() && |functions| >= MAX_FUNCTIONS_PER_IMAGE
      ensures Caused(Im(), events, Refused(va))
    {
      hide Reporting, AllCalled, PathOf;
      Graphs.Subset(functions, EnteredIn(events));
    }

    lemma BlockedCalled()
      requires Sound()
      ensures AllCalled(Im(), events, blockedRecursion)
    {
      hide Reporting, Called;
    }

    lemma FunctionEntered(va: nat)
      requires Sound() && va in functions
      ensures Entered(va) in events
    {
      hide Reporting, AllCalled;
    }

    /** Flows the code of one function, then enters what had to be deferred. Whatever stays
        blocked is still being flowed or was reported. */
    method AddCodeFlow(va: nat)
      requires SoundBut({va}) && va !in cfBlocks && |cfBlocks| < MAX_DESCENT_DEPTH
      requires cfBlocks == [] || Called(Im(), events, va)
      modifies this, driver, driver.locations, driver.xrefs, driver.blocks
      ensures Sound() && Runs(old(Now()), Now()) && cfBlocks == old(cfBlocks) && Entered(va) in events
      ensures forall f | f in blockedRecursion :: f in cfBlocks || f in reported
      ensures Calmer(old(driver.locations.byStart), old(blockedRecursion), driver.locations.byStart, blockedRecursion)
      decreases Undefined(driver.locations.byStart), |blockedRecursion|, 5
    {
      hide SoundBut, Runs, Advances, Called, AllCalled, Undefined, Defined;
      ghost var start := Now();
      Push(va);
      ghost var pushed := Now();
      var recursionTargets := FlowFrom(va);
      ghost var ended := Now();
      Pop();
      assert cfBlocks == old(cfBlocks);
      ghost var flowed := Now();
      Entry(start, pushed, ended, flowed, va);
      AllCalledRun(ended, flowed, recursionTargets);
      RunShrinks(start, flowed);
      DrainTargets(recursionTargets, Undefined(start.locs));
      ghost var drained := Now();
      RunsOn(start, flowed, drained);
      RunShrinks(flowed, drained);
      DrainBlocked();
      RunsOn(start, drained, Now());
      RunShrinks(drained, Now());
    }

    /** The work-list of one flow. Whatever it defers, it first decoded something. Its entry
        is decoded if that can be, and no edge is left open: the queue is worked off, or the
        flow ran into its limit. */
    method FlowFrom(startva: nat) returns (recursionTargets: seq<nat>)
      requires Sound() && cfBlocks != [] && startva == cfBlocks[|cfBlocks| - 1]
      modifies this, driver, driver.locations, driver.xrefs, driver.blocks
      ensures Sound() && Runs(old(Now()), Now()) && cfBlocks == old(cfBlocks)
      ensures Defined(driver.locations.byStart, startva) || driver.read(startva).None?
      ensures AllCalled(Im(), events, recursionTargets)
      ensures Undefined(driver.locations.byStart) < Undefined(old(driver.locations.byStart))
        || (recursionTargets == [] && blockedRecursion == old(blockedRecursion))
      decreases Undefined(driver.locations.byStart), 0, 4
    {
      hide SoundBut, Advances, Lists, Visits, AllAnswered, Defined, Undefined, AllCalled, Elements, Pending, Caused,
        Asked;
      ghost var start := Now();
      NoAdvance(start, start);
      recursionTargets := [];
      var optodo, visited, tables := [startva], {}, [];
      var flowInsns: set<nat> := {};
      FlowBegins(start, startva);
      while optodo != []
        invariant Sound() && Advances(start, Now()) && cfBlocks == old(cfBlocks)
        invariant Lists(Now(), startva, optodo, recursionTargets, tables) && Visits(Now(), visited, flowInsns)
        invariant AllAnswered(Pending(Now(), flowInsns, Elements(optodo) + visited), |start.events|)
        invariant (optodo == [startva] && visited == {} && tables == [] && flowInsns == {})
          || Defined(driver.locations.byStart, startva) || driver.read(startva).None?
        invariant Undefined(driver.locations.byStart) < Undefined(start.locs)
          || (Undefined(driver.locations.byStart) == Undefined(start.locs)
              && recursionTargets == [] && blockedRecursion == old(blockedRecursion))
        decreases Undefined(driver.locations.byStart), |optodo|
      {
        ghost var before, queue := Now(), Elements(optodo) + visited;
        if |flowInsns| >= MAX_INSNS_PER_FUNCTION {
          LimitCaused(before, visited, flowInsns);
          Note(Limited(flowInsns));
          FlowLimited(start, before, Now(), startva, optodo, recursionTargets, tables, flowInsns, queue);
          break;
        }
        var cur := optodo[|optodo| - 1];
        Popped(before, startva, optodo, recursionTargets, tables, visited);
        optodo := optodo[..|optodo| - 1];
        if cur in visited { continue; }
        ghost var flowed := flowInsns;
        optodo, recursionTargets, tables, flowInsns :=
          VisitAddress(startva, cur, visited, optodo, recursionTargets, tables, flowInsns);
        visited := visited + {cur};
        FlowedOn(start, before, Now(), startva, flowed, flowInsns, queue, Elements(optodo) + visited);
      }
      if optodo == [] { FlowDone(start, Now(), visited, flowInsns); }
      ListsCalled(Now(), startva, optodo, recursionTargets, tables);
    }

    /** One address from the work-list. What is defined, belongs to a table or cannot be
        decoded is passed over. */
    method VisitAddress(startva: nat, cur: nat, visited: set<nat>, todo: seq<nat>, deferred: seq<nat>,
                        jtData: seq<(nat, nat)>, flowed: set<nat>)
      returns (optodo: seq<nat>, recursionTargets: seq<nat>, tables: seq<(nat, nat)>, flowInsns: set<nat>)
      requires Sound() && cfBlocks != [] && startva == cfBlocks[|cfBlocks| - 1]
      requires Lists(Now(), startva, todo, deferred, jtData) && Asked(events, startva, cur)
      requires Visits(Now(), visited, flowed)
      modifies this, driver, driver.locations, driver.xrefs, driver.blocks
      ensures Sound() && Advances(old(Now()), Now()) && cfBlocks == old(cfBlocks)
      ensures Lists(Now(), startva, optodo, recursionTargets, tables) && Elements(todo) <= Elements(optodo)
      ensures Visits(Now(), visited + {cur}, flowInsns) && flowed <= flowInsns
      ensures AllAnswered(Pending(Now(), flowInsns, Elements(optodo) + (visited + {cur})), |old(events)|)
      ensures jtData == [] ==> Defined(driver.locations.byStart, cur) || driver.read(cur).None?
      ensures Undefined(driver.locations.byStart) < Undefined(old(driver.locations.byStart))
        || (Undefined(driver.locations.byStart) == Undefined(old(driver.locations.byStart)) && optodo == todo
            && recursionTargets == deferred && blockedRecursion == old(blockedRecursion))
      decreases Undefined(driver.locations.byStart), 0, 3
    {
      hide SoundBut, InTables, Advances, Lists, Visits, AllAnswered, Defined, Undefined, Elements, Pending, Asked;
      optodo, recursionTargets, tables, flowInsns := todo, deferred, jtData, flowed;
      ghost var before := Now();
      var defined := driver.IsDefined(cur);
      if defined || InTables(tables, cur) || driver.read(cur).None? {
        NoAdvance(before, before);
        PassedOver(before, startva, todo, deferred, jtData, visited, flowed, cur, Elements(todo) + (visited + {cur}));
        return;
      }
      flowInsns := flowInsns + {cur};
      var op := driver.read(cur).value;
      optodo, recursionTargets, tables := FollowInsn(startva, cur, op, visited + {cur}, todo, deferred, jtData);
      InsnVisited(before, Now(), visited, flowed, cur, op, Elements(optodo) + (visited + {cur}));
    }

    /** Decodes one instruction and consumes its branches from the end. Each edge of it is
        followed, or its target is in the queue or was visited. */
    method FollowInsn(startva: nat, cur: nat, op: Insn, visited: set<nat>, todo: seq<nat>, deferred: seq<nat>,
                      jtData: seq<(nat, nat)>)
      returns (optodo: seq<nat>, recursionTargets: seq<nat>, tables: seq<(nat, nat)>)
      requires Sound() && cfBlocks != [] && startva == cfBlocks[|cfBlocks| - 1]
      requires !Defined(driver.locations.byStart, cur) && driver.read(cur) == Some(op)
      requires Lists(Now(), startva, todo, deferred, jtData) && Asked(events, startva, cur)
      modifies this, driver, driver.locations, driver.xrefs, driver.blocks
      ensures Sound() && Advances(old(Now()), Now()) && cfBlocks == old(cfBlocks)
      ensures Lists(Now(), startva, optodo, recursionTargets, tables) && Elements(todo) <= Elements(optodo)
      ensures AllAnswered(Pending(Now(), {cur}, Elements(optodo) + visited), |old(events)|)
      ensures Decoded(cur, op) in events && Defined(driver.locations.byStart, cur)
      ensures Undefined(driver.locations.byStart) < Undefined(old(driver.locations.byStart))
      decreases Undefined(driver.locations.byStart), 0, 2
    {
      hide SoundBut, Advances, Lists, AllAnswered, OpenEdge, Asked, Defined, Followed, Branches, Undefined, Elements,
        LeadsOut, CallsTo, PathOf, Unresolved;
      ghost var start := Now();
      optodo, recursionTargets, tables := todo, deferred, jtData;
      var branches := Branches(cur, op);
      PathKnown();
      Decode(startva, cur, op, branches);
      ghost var decoded := Now();
      NoAdvance(decoded, decoded);
      ghost var left := Opened(start, decoded, cfBlocks, cur, op, branches);
      Widened(Book(decoded).(left := left), {cur}, Elements(optodo) + visited, left, |start.events|);
      ListsLater(start, decoded, startva, optodo, recursionTargets, tables);
      while branches != []
        invariant Sound() && Advances(start, Now()) && Advances(decoded, Now()) && cfBlocks == old(cfBlocks)
        invariant Lists(Now(), startva, optodo, recursionTargets, tables) && Elements(todo) <= Elements(optodo)
        invariant AllOpen(Im(), events, cfBlocks, cur, branches, left)
        invariant AllAnswered(Pending(Now(), {cur}, Elements(optodo) + visited).(left := left), |start.events|)
        invariant Undefined(driver.locations.byStart) < Undefined(start.locs)
        decreases Unresolved(branches), |branches|
      {
        ghost var before, queue, was, open := Now(), Elements(optodo) + visited, branches, left;
        var br := branches[|branches| - 1];
        LastUnresolved(branches);
        branches := branches[..|branches| - 1];
        ghost var cases, owed: seq<(nat, Branch)> := [], [];
        LastOpen(Im(), events, cfBlocks, cur, was, open);
        if br.target.None? {
          var found;
          found, tables, owed := ResolveTable(startva, cur, op, optodo, recursionTargets, tables);
          UnresolvedAppend(branches, found);
          branches, cases := branches + found, found;
          Unaimed(Pending(Now(), {cur}, queue), cfBlocks, cur, op, br);
        } else {
          optodo, recursionTargets :=
            FollowBranch(startva, cur, op, br, visited, optodo, recursionTargets, tables, Undefined(start.locs));
        }
        AdvancesOn(start, before, Now());
        AdvancesOn(decoded, before, Now());
        BranchFollowed(start, before, Now(), cfBlocks, cur, op, was, open, cases, owed, queue,
          Elements(optodo) + visited);
        left := open[..|open| - 1] + owed;
      }
      Stays(decoded, Now());
    }

    /** The instruction callback. It is never called for an address already defined. */
    method Decode(startva: nat, cur: nat, op: Insn, branches: seq<Branch>)
      requires Sound() && !Defined(driver.locations.byStart, cur) && driver.read(cur) == Some(op)
      requires cfBlocks != [] && startva == cfBlocks[|cfBlocks| - 1] && Asked(events, startva, cur)
      requires branches == Branches(cur, op)
      modifies `events, driver`noFall, driver.locations, driver.xrefs
      ensures Sound() && Advances(old(Now()), Now())
      ensures events == old(events) + [Decoded(cur, op)] && Defined(driver.locations.byStart, cur)
      ensures Undefined(driver.locations.byStart) < Undefined(old(driver.locations.byStart))
    {
      hide Sane, AllRecovered, Listed, XrefsValid, Inverse, Defined, EdgesRecorded, Branches, AllCaused, Awaited,
        PathOf, AllCalled, Advances, EnteredIn, SuppressedIn, Caused, Asked, Undefined, Discovery.ReaderSound, Put;
      ReadFits(driver.read, cur);
      DecodeCaused(Im(), events, startva, cur, op);
      ghost var s, locs, h, before := Stored(), driver.locations.byStart, events, Now();
      driver.OnOpcode(cur, op, branches);
      SaneDecoded(h, s, Stored(), reported, driver.views, cur, op);
      CausedOn(Im(), h, Decoded(cur, op));
      AwaitedOn(h, waitsOn, Decoded(cur, op), waitsOn);
      Standing(h, Decoded(cur, op));
      AllCalledLater(Im(), h, h + [Decoded(cur, op)], blockedRecursion);
      events := events + [Decoded(cur, op)];
      UndefinedLoses(locs, driver.locations.byStart, cur);
      DefinesMore(before, Decoded(cur, op), driver.locations.byStart);
    }

    /** An indirect branch: the cases of a switch, if the resolver recognises one. */
    method ResolveTable(ghost startva: nat, cur: nat, op: Insn, ghost optodo: seq<nat>, ghost deferred: seq<nat>,
                        jtData: seq<(nat, nat)>)
      returns (cases: seq<Branch>, tables: seq<(nat, nat)>, ghost owed: seq<(nat, Branch)>)
      requires Sound() && driver.read(cur) == Some(op) && Lists(Now(), startva, optodo, deferred, jtData)
      modifies `events, driver.xrefs
      ensures Sound() && Advances(old(Now()), Now()) && Unresolved(cases) == 0
      ensures Lists(Now(), startva, optodo, deferred, tables)
      ensures AllOpen(Im(), events, cfBlocks, cur, cases, owed)
      ensures AllAnswered(Book(Now()).(left := owed), |old(events)|)
    {
      hide SoundBut, Advances, Lists, AllAnswered, AllOpen, Defined, Unresolved, PathOf;
      ghost var start := Now();
      NoAdvance(start, start);
      NoCases(Im(), events, cfBlocks, cur);
      cases, tables, owed := [], jtData, [];
      var jt: Option<JumpTable> :| true;
      if IsTableJump(op) && jt.Some? {
        for i := 0 to |jt.value.targets|
          invariant Sound() && Advances(start, Now()) && Unresolved(cases) == 0
          invariant AllOpen(Im(), events, cfBlocks, cur, cases, owed)
          invariant AllAnswered(Book(Now()).(left := owed), |start.events|)
        {
          var target := jt.value.targets[i];
          ghost var before := Now();
          PathKnown();
          CaseResolved(cases, target);
          AddCase(cur, target);
          AdvancesOn(start, before, Now());
          CaseOpened(start, before, Now(), cfBlocks, cur, cases, owed, target);
          owed := owed + [(|before.events|, Branch(Some(target), {Cond}))];
          cases := cases + [Branch(Some(target), {Cond})];
        }
        if jt.value.size != 0 {
          var end: nat := jt.value.va + jt.value.size;
          ghost var before := Now();
          SpanCaused(Im(), events, cur, jt.value.va, end);
          Note(Spanned(cur, jt.value.va, end));
          SpanNoted(start, before, Now(), cfBlocks, cur, cases, owed);
          tables := tables + [(jt.value.va, end)];
          AdvancesOn(start, before, Now());
        }
      }
      Tables(start, Now(), startva, optodo, deferred, jtData, tables);
    }

    /** A pointer at an undefined site. */
    method DefinePointer(site: nat, size: nat)
      requires Sound() && cfBlocks == [] && !Defined(driver.locations.byStart, site)
      requires 0 < size && site + size <= CodeBlocks.SPACE
      modifies `events, driver.locations
      ensures Sound() && Runs(old(Now()), Now()) && events == old(events) + [Pointed(site, size)]
      ensures Defined(driver.locations.byStart, site)
    {
      hide Sane, AllRecovered, Listed, XrefsValid, Discovery.ReaderSound, Inverse, AllCaused, Awaited, PathOf,
        AllCalled, Runs, Advances, Defined, EnteredIn, SuppressedIn;
      ghost var s, h, e, before := Stored(), events, Pointed(site, size), Now();
      PointerDefines(driver.locations.byStart, site, size);
      driver.locations.AddLocation(site, size, Pointer);
      SanePointed(h, s, Stored(), reported, driver.views, site, size);
      CausedOn(Im(), h, e);
      AwaitedOn(h, waitsOn, e, waitsOn);
      Standing(h, e);
      AllCalledLater(Im(), h, h + [e], blockedRecursion);
      events := events + [e];
      DefinesMore(before, e, driver.locations.byStart);
    }

    /** A case of a jump table. */
    method AddCase(cur: nat, target: nat)
      requires Sound() && driver.read(cur).Some? && IsTableJump(driver.read(cur).value)
      modifies `events, driver.xrefs
      ensures Sound() && Advances(old(Now()), Now()) && events == old(events) + [Tabled(cur, target)]
    {
      hide Sane, AllRecovered, Listed, XrefsValid, LocationsFit, Discovery.ReaderSound, Inverse, EdgeAdded, AllCaused,
        Awaited, PathOf, AllCalled, Defined;
      ghost var s, h := Stored(), events;
      driver.OnBranchTable(cur, target);
      SaneTabled(h, s, Stored(), reported, driver.views, cur, target);
      CausedOn(Im(), h, Tabled(cur, target));
      AwaitedOn(h, waitsOn, Tabled(cur, target), waitsOn);
      Standing(h, Tabled(cur, target));
      AllCalledLater(Im(), h, h + [Tabled(cur, target)], blockedRecursion);
      events := events + [Tabled(cur, target)];
    }

    lemma PathIs()
      requires Reporting()
      ensures cfBlocks == PathOf(events)
    {
    }

    lemma PathKnown()
      requires Sound()
      ensures cfBlocks == PathOf(events) && noflow == SuppressedIn(events)
    {
    }

    /** One branch with a target: a callee is entered first, or deferred while it is being
        flowed; a jump into an unfinished ancestor makes this function wait for it; any other
        target is queued. */
    method FollowBranch(startva: nat, cur: nat, op: Insn, br: Branch, visited: set<nat>, todo: seq<nat>,
                        deferred: seq<nat>, ghost jtData: seq<(nat, nat)>, ghost bound: set<nat>)
      returns (optodo: seq<nat>, recursionTargets: seq<nat>)
      requires Sound() && cfBlocks != [] && startva == cfBlocks[|cfBlocks| - 1]
      requires br.target.Some? && driver.read(cur) == Some(op) && LeadsOut(events, cur, br)
      requires (Proc in br.flags && isExec(br.target.value) && br.target.value != cur + op.length) ==>
                 CallsTo(Im(), events, cur, br.target.value)
      requires Lists(Now(), startva, todo, deferred, jtData)
      requires Undefined(driver.locations.byStart) < bound
      modifies this, driver, driver.locations, driver.xrefs, driver.blocks
      ensures Sound() && Runs(old(Now()), Now()) && cfBlocks == old(cfBlocks)
      ensures Lists(Now(), startva, optodo, recursionTargets, jtData) && Elements(todo) <= Elements(optodo)
      ensures Followed(Pending(Now(), {cur}, Elements(optodo) + visited), cfBlocks, cur, op, br)
      ensures Undefined(driver.locations.byStart) < bound
      decreases bound, 0, 1
    {
      hide SoundBut, Lists, AllAnswered, Defined, Advances, LeadsOut, CallsTo, PathOf;
      optodo, recursionTargets := todo, deferred;
      ghost var before := Now();
      NoAdvance(before, before);
      PathKnown();
      var bva := br.target.value;
      if !isExec(bva) || (cur, bva) in noflow { return; }
      if Proc in br.flags {
        if bva != cur + op.length {
          ListsCalled(before, startva, todo, deferred, jtData);
          recursionTargets := FollowCall(cur, op, bva, recursionTargets, bound);
          MoreDeferred(before, Now(), startva, todo, deferred, recursionTargets, jtData);
        }
      } else if OnActivePath(bva) && op.isJump && startva != bva {
        WaitCaused(Im(), events, startva, cur, br);
        WaitFor(startva, bva);
        ListsLater(before, Now(), startva, todo, deferred, jtData);
      } else if bva !in visited {
        optodo := optodo + [bva];
        QueueCaused(Im(), events, cur, br);
        Note(Queued(cur, bva));
        MoreQueued(before, Now(), startva, todo, deferred, jtData, cur, bva);
      }
    }

    /** A direct call, not to the next instruction: the callee is entered, or deferred while
        it is being flowed. */
    method FollowCall(cur: nat, op: Insn, bva: nat, deferred: seq<nat>, ghost bound: set<nat>)
      returns (recursionTargets: seq<nat>)
      requires Sound() && cfBlocks != [] && driver.read(cur) == Some(op) && CallsTo(Im(), events, cur, bva)
      requires AllCalled(Im(), events, deferred) && Undefined(driver.locations.byStart) < bound
      modifies this, driver, driver.locations, driver.xrefs, driver.blocks
      ensures Sound() && Runs(old(Now()), Now()) && cfBlocks == old(cfBlocks)
      ensures AllCalled(Im(), events, recursionTargets)
      ensures recursionTargets == if bva in cfBlocks then PushUnique(deferred, bva) else deferred
      ensures |cfBlocks| >= MAX_DESCENT_DEPTH || Entered(bva) in events || Refused(bva) in events
      ensures Undefined(driver.locations.byStart) < bound
      decreases bound, 0, 0
    {
      hide SoundBut, Runs, AllCalled, Defined, Advances, CallsTo, PathOf, Caused;
      recursionTargets := deferred;
      ghost var start := Now();
      NoAdvance(start, start);
      PathKnown();
      PathEntered(events);
      assert Called(Im(), events, bva);
      if OnActivePath(bva) {
        recursionTargets := PushUnique(recursionTargets, bva);
      } else if |cfBlocks| < MAX_DESCENT_DEPTH {
        AddEntryPoint(bva);
        RunShrinks(start, Now());
      }
      AllCalledRun(start, Now(), deferred);
      PushedCalled(start, Now(), deferred, bva);
      var stops: bool := *;
      if stops {
        ghost var called := Now();
        SuppressCaused(start, called, cur, bva);
        Suppress(cur, cur + op.length);
        RunsOn(start, called, Now());
        RunShrinks(called, Now());
        AllCalledRun(called, Now(), recursionTargets);
      }
    }

    /** Enters the deferred targets that are no longer being flowed, and keeps the rest. */
    method DrainTargets(recursionTargets: seq<nat>, ghost bound: set<nat>)
      requires Sound() && |cfBlocks| < MAX_DESCENT_DEPTH && AllCalled(Im(), events, recursionTargets)
      requires recursionTargets != [] ==> Undefined(driver.locations.byStart) < bound
      modifies this, driver, driver.locations, driver.xrefs, driver.blocks
      ensures Sound() && Runs(old(Now()), Now()) && cfBlocks == old(cfBlocks)
      ensures recursionTargets == [] ==> blockedRecursion == old(blockedRecursion)
      decreases bound, 0, 0
    {
      hide SoundBut, Runs, Called, Undefined;
      ghost var start := Now();
      NoAdvance(start, start);
      for i := 0 to |recursionTargets|
        invariant Sound() && Runs(start, Now()) && cfBlocks == old(cfBlocks)
        invariant AllCalled(Im(), events, recursionTargets)
        invariant recursionTargets == [] ==> blockedRecursion == old(blockedRecursion)
        invariant recursionTargets != [] ==> Undefined(driver.locations.byStart) < bound
      {
        var fva := recursionTargets[i];
        if OnActivePath(fva) {
          Block(fva);
        } else if fva !in reported {
          ghost var before := Now();
          AddEntryPoint(fva);
          RunShrinks(before, Now());
          RunsOn(start, before, Now());
          AllCalledRun(before, Now(), recursionTargets);
        }
      }
    }

    /** Enters the blocked functions that are no longer being flowed and were not reported;
        the rest stay blocked. */
    method DrainBlocked()
      requires Sound() && |cfBlocks| < MAX_DESCENT_DEPTH
      modifies this, driver, driver.locations, driver.xrefs, driver.blocks
      ensures Sound() && Runs(old(Now()), Now()) && cfBlocks == old(cfBlocks)
      ensures forall f | f in blockedRecursion :: f in cfBlocks || f in reported
      ensures |blockedRecursion| <= |old(blockedRecursion)|
      decreases Undefined(driver.locations.byStart), |blockedRecursion|, 2
    {
      hide SoundBut, Runs, Called, Undefined;
      ghost var start := Now();
      NoAdvance(start, start);
      BlockedCalled();
      var snapshot := blockedRecursion;
      var stillBlocked: seq<nat> := [];
      for i := 0 to |snapshot|
        invariant Sound() && Runs(start, Now()) && cfBlocks == old(cfBlocks)
        invariant |stillBlocked| <= i && AllCalled(Im(), events, snapshot)
        invariant forall f | f in stillBlocked :: f in snapshot && (f in cfBlocks || f in reported)
        invariant Undefined(driver.locations.byStart) < Undefined(start.locs)
          || (Undefined(driver.locations.byStart) == Undefined(start.locs)
              && (blockedRecursion == snapshot || |blockedRecursion| < |snapshot|))
      {
        var fva := snapshot[i];
        if !OnActivePath(fva) && fva !in reported {
          ghost var before := Now();
          EnterBlocked(fva);
          RunShrinks(before, Now());
          RunsOn(start, before, Now());
          AllCalledRun(before, Now(), snapshot);
        } else {
          stillBlocked := stillBlocked + [fva];
        }
      }
      KeepBlocked(stillBlocked, snapshot);
    }

    method Block(fva: nat)
      requires Sound() && Called(Im(), events, fva)
      modifies `blockedRecursion
      ensures Sound() && blockedRecursion == PushUnique(old(blockedRecursion), fva)
    {
      hide Ledger, AllRecovered, Listed, XrefsValid, LocationsFit, Discovery.ReaderSound, Inverse, Called, EraseValue;
      blockedRecursion := PushUnique(blockedRecursion, fva);
    }

    method KeepBlocked(stillBlocked: seq<nat>, ghost snapshot: seq<nat>)
      requires Sound() && AllCalled(Im(), events, snapshot) && forall f | f in stillBlocked :: f in snapshot
      modifies `blockedRecursion
      ensures Sound() && blockedRecursion == stillBlocked
    {
      hide Ledger, AllRecovered, Listed, XrefsValid, LocationsFit, Discovery.ReaderSound, Inverse, Called, EraseValue;
      blockedRecursion := stillBlocked;
    }

    /** Forgets that fva was entered and blocked. */
    method Unblock(fva: nat)
      requires Sound()
      modifies `functions, `blockedRecursion
      ensures Sound() && functions == old(functions) - {fva}
      ensures blockedRecursion == EraseValue(old(blockedRecursion), fva)
    {
      hide Ledger, AllRecovered, Listed, XrefsValid, LocationsFit, Discovery.ReaderSound, Inverse, Called, EraseValue;
      functions := functions - {fva};
      blockedRecursion := EraseValue(blockedRecursion, fva);
    }

    /** Enters one blocked function afresh. */
    method EnterBlocked(fva: nat)
      requires Sound() && fva !in cfBlocks && |cfBlocks| < MAX_DESCENT_DEPTH && Called(Im(), events, fva)
      modifies this, driver, driver.locations, driver.xrefs, driver.blocks
      ensures Sound() && Runs(old(Now()), Now()) && cfBlocks == old(cfBlocks)
      ensures Calmer(old(driver.locations.byStart), EraseValue(old(blockedRecursion), fva), driver.locations.byStart,
        blockedRecursion)
      decreases Undefined(driver.locations.byStart), |EraseValue(blockedRecursion, fva)|, 7
    {
      hide SoundBut, Runs, Called, Undefined, EraseValue;
      ghost var before := Now();
      Unblock(fva);
      ghost var erased := Now();
      NoAdvance(before, erased);
      AddEntryPoint(fva);
      RunsOn(before, erased, Now());
    }
  }

  lemma SeesShown(d: Driver, v: CodeBlocks.View, h: History, s: Store, reported: set<nat>,
                  views: map<nat, CodeBlocks.View>)
    requires d.Shows(v) && Sane(h, s, reported, views)
    requires s == Store(d.read, d.locations.byStart, d.xrefs.from, d.noFall)
    ensures Sees(v, s.read, h)
  {
    hide From, EdgeFlags;
  }

  datatype JumpTable = JumpTable(targets: seq<nat>, va: nat, size: nat)

  /** The branches without a target. */
  function Unresolved(branches: seq<Branch>): nat {
    if branches == [] then 0
    else Unresolved(branches[..|branches| - 1]) + (if branches[|branches| - 1].target.None? then 1 else 0)
  }

  lemma NoCases(im: Image, h: History, path: seq<nat>, cur: nat)
    ensures Unresolved([]) == 0 && AllOpen(im, h, path, cur, [], [])
  {
  }

  lemma CaseResolved(cases: seq<Branch>, target: nat)
    ensures Unresolved(cases + [Branch(Some(target), {Cond})]) == Unresolved(cases)
  {
    UnresolvedAppend(cases, [Branch(Some(target), {Cond})]);
  }

  lemma LastUnresolved(branches: seq<Branch>)
    requires branches != []
    ensures Unresolved(branches) == Unresolved(branches[..|branches| - 1]) +
            if branches[|branches| - 1].target.None? then 1 else 0
  {
  }

  lemma {:induction false} UnresolvedAppend(a: seq<Branch>, b: seq<Branch>)
    ensures Unresolved(a + b) == Unresolved(a) + Unresolved(b)
  {
    if b == [] {
      assert a + b == a;
    } else {
      assert (a + b)[..|a + b| - 1] == a + b[..|b| - 1];
      UnresolvedAppend(a, b[..|b| - 1]);
    }
  }

  /** The waits with g taken out of the sets of the given functions. */
  function Without(on: Waits, fs: set<nat>, g: nat): Waits {
    map f | f in on :: if f in fs then on[f] - {g} else on[f]
  }

  lemma WaitersKnown(on: Waits, inv: Waits, g: nat)
    requires Inverse(on, inv) && g in inv
    ensures forall f | f in on :: g in on[f] <==> f in inv[g]
    ensures Without(on, inv[g], g) == Without(on, on.Keys, g)
  {
    forall f | f in on ensures (g in on[f] <==> f in inv[g]) && Without(on, inv[g], g)[f] == on[f] - {g} {
      assert Holds(on, f, g) <==> Holds(inv, g, f);
      if g !in on[f] { assert on[f] - {g} == on[f]; }
    }
  }

  lemma WaiterHolds(on: Waits, inv: Waits, f: nat, g: nat)
    requires Inverse(on, inv) && g in inv && f in inv[g]
    ensures f in on && g in on[f]
  {
    assert Holds(inv, g, f) && Holds(on, f, g);
  }

  lemma NoneWaits(on: Waits, inv: Waits, g: nat)
    requires Inverse(on, inv) && g !in inv
    ensures Released(on, g) == on && Freed(on, g) == {}
  {
    forall f | f in on ensures g !in on[f] && on[f] - {g} == on[f] && on[f] != {g} {
      assert Holds(on, f, g) <==> Holds(inv, g, f);
      assert g in {g};
    }
  }

  lemma WithoutThenFreed(on: Waits, g: nat)
    ensures Without(on, on.Keys, g) - Freed(on, g) == Released(on, g)
  {
  }

  lemma OnlyWait(s: set<nat>, g: nat)
    requires g in s
    ensures s - {g} == {} <==> s == {g}
  {
    if s - {g} == {} {
      forall x | x in s ensures x == g {
        assert x != g ==> x in s - {g};
      }
    }
  }

  // ----- the driver

  /** What the passes over the image ask of the driver. */
  datatype Job = MakeFunction(va: nat) | MakePointer(site: nat, stored: Option<nat>, follow: bool)

  /** f was entered, unless there are too many functions. */
  ghost predicate Begun(p: Progress, f: nat) { Entered(f) in p.events || Refused(f) in p.events }

  /** Defines a pointer at an undefined, readable site, and makes its target a function when
      that is undefined and looks like code. */
  method MakePointerAt(cf: CodeFlowContext, site: nat, stored: Option<nat>, follow: bool, pointerSize: nat,
                       isCode: nat -> bool)
    requires cf.Sound() && cf.cfBlocks == [] && 0 < pointerSize
    requires stored.Some? ==> site + pointerSize <= CodeBlocks.SPACE
    modifies cf, cf.driver, cf.driver.locations, cf.driver.xrefs, cf.driver.blocks
    ensures cf.Sound() && Runs(old(cf.Now()), cf.Now()) && cf.cfBlocks == []
    ensures Defined(old(cf.driver.locations.byStart), site) || stored.None? ==> cf.events == old(cf.events)
    ensures !Defined(old(cf.driver.locations.byStart), site) && stored.Some? ==>
              old(cf.events) + [Pointed(site, pointerSize)] <= cf.events
    ensures !Defined(old(cf.driver.locations.byStart), site) && stored.Some? && follow && isCode(stored.value) ==>
              Defined(cf.driver.locations.byStart, stored.value) || Begun(cf.Now(), stored.value)
    ensures stored.Some? ==> Defined(cf.driver.locations.byStart, site)
  {
    hide CodeFlowContext.SoundBut, Runs, Advances, Defined, Calmer;
    ghost var start := cf.Now();
    NoAdvance(start, start);
    var defined := cf.driver.IsDefined(site);
    if defined || stored.None? { return; }
    cf.DefinePointer(site, pointerSize);
    ghost var pointed := cf.Now();
    if follow {
      var known := cf.driver.IsDefined(stored.value);
      if !known && isCode(stored.value) {
        cf.AddEntryPoint(stored.value);
        RunsOn(start, pointed, cf.Now());
        RunStays(pointed, cf.Now());
      }
    }
  }

  /** The blocks listed for f are the registration of exactly what had been decoded, tabled
      and defined when f was first reported. */
  ghost predicate RecoveredFrom(h: History, read: nat -> Option<Insn>, f: nat, blocks: seq<CodeBlocks.CodeBlock>) {
    exists v :: Viewed(h, read, f, v) && Recovered(v, f, blocks)
  }

  ghost predicate Apart(blocks: seq<CodeBlocks.CodeBlock>) {
    forall i, j | 0 <= i < j < |blocks| :: blocks[i].va + blocks[i].size <= blocks[j].va
  }

  /** Event i is the first report of f, at a moment when instructions do not overlap, edges
      and f lead to instruction starts, and some edge leads to f. */
  ghost predicate ReportedTidily(h: History, i: nat, f: nat) {
    FirstReport(h, i, f) && TidyFor(h[..i], f) && HasEdgeTo(h[..i], f)
  }

  /** What is recovered at such a moment is pairwise disjoint. */
  lemma TidyBlocksApart(h: History, read: nat -> Option<Insn>, i: nat, f: nat, blocks: seq<CodeBlocks.CodeBlock>)
    requires RecoveredFrom(h, read, f, blocks) && ReportedTidily(h, i, f)
    ensures Apart(blocks)
  {
    var v :| Viewed(h, read, f, v) && Recovered(v, f, blocks);
    hide Sees, TidyFor, HasEdgeTo, CodeBlocks.ViewValid, CodeBlocks.Tidy, CodeBlocks.IsReach, CodeBlocks.IsRegistration;
    var k: nat :| FirstReport(h, k, f) && Sees(v, read, h[..k]);
    assert k == i;
    var d :| CodeBlocks.IsReach(v, f, d) && CodeBlocks.IsRegistration(v, f, d, blocks);
    TidySeen(v, read, h[..i], f);
    TargetsSeen(v, read, h[..i], f);
    CodeBlocks.EdgeToEntry(v, f, d);
    CodeBlocks.BlocksAreDisjoint(v, f, d, blocks);
  }

  /** Any run of the driver, from nothing: the history accounts for all the stores hold,
      nothing was decoded twice, what was decoded is still defined, no function was reported
      while it waited, each was listed once with the blocks of its moment, and every function
      entered was reported or is held by an outstanding wait. Blocks recovered at a tidy
      moment are disjoint. */
  method Explore(read: nat -> Option<Insn>, isExec: nat -> bool, isCode: nat -> bool, pointerSize: nat, jobs: seq<Job>)
    returns (cf: CodeFlowContext)
    requires ReaderSound(read) && 0 < pointerSize
    requires forall j | j in jobs && j.MakePointer? && j.stored.Some? :: j.site + pointerSize <= CodeBlocks.SPACE
    ensures cf.cfBlocks == []
    ensures Replays(cf.events, Store(read, cf.driver.locations.byStart, cf.driver.xrefs.from, cf.driver.noFall))
    ensures forall i: nat, j: nat, va | Happened(cf.events, i, va) && Happened(cf.events, j, va) :: i == j
    ensures forall i: nat, va | Happened(cf.events, i, va) :: Defined(cf.driver.locations.byStart, va)
    ensures forall e | e in cf.events && e.Reported? :: e.outstanding == {}
    ensures forall f | f in cf.functions && f !in cf.reported :: f in cf.waitsOn && cf.waitsOn[f] != {}
    ensures Inverse(cf.waitsOn, cf.awaitedBy)
    ensures Listed(cf.driver.entries, cf.reported)
    ensures forall f :: if f in cf.reported then RecoveredFrom(cf.events, read, f, cf.driver.blocks.FunctionBlocks(f))
                        else cf.driver.blocks.FunctionBlocks(f) == []
    ensures forall f, i: nat | ReportedTidily(cf.events, i, f) :: Apart(cf.driver.blocks.FunctionBlocks(f))
    ensures AllAnswered(Whole(Image(read, isExec), cf.events, cf.driver.locations.byStart), 0)
    ensures AllCaused(Image(read, isExec), cf.events) && PathOf(cf.events) == []
    ensures forall j | j in jobs && j.MakeFunction? :: Entered(j.va) in cf.events || Refused(j.va) in cf.events
  {
    cf := RunJobs(read, isExec, isCode, pointerSize, jobs);
    AllFromHistory(cf.events, read, cf.reported, cf.driver.views, cf.driver.blocks.byFunction);
    TidyReportsApart(cf.events, read, cf.reported, cf.driver.blocks.byFunction);
    hide AllRecovered, AllViewed, Replays, Defined, LocationsFit, XrefsValid, Discovery.ReaderSound, AllAnswered,
      AllCaused, Awaited, AllCalled;
  }

  lemma TidyReportsApart(h: History, read: nat -> Option<Insn>, reported: set<nat>,
                         byFunction: map<nat, seq<CodeBlocks.CodeBlock>>)
    requires forall e | e in h && e.Reported? :: e.va in reported
    requires forall f | f in reported :: RecoveredFrom(h, read, f, CodeBlocks.BlocksOf(byFunction, f))
    ensures forall f, i: nat | ReportedTidily(h, i, f) :: Apart(CodeBlocks.BlocksOf(byFunction, f))
  {
    hide RecoveredFrom, TidyFor, HasEdgeTo, Apart;
    forall f, i: nat | ReportedTidily(h, i, f) ensures Apart(CodeBlocks.BlocksOf(byFunction, f)) {
      assert h[i] in h;
      TidyBlocksApart(h, read, i, f, CodeBlocks.BlocksOf(byFunction, f));
    }
  }

  lemma AllFromHistory(h: History, read: nat -> Option<Insn>, reported: set<nat>, views: map<nat, CodeBlocks.View>,
                       byFunction: map<nat, seq<CodeBlocks.CodeBlock>>)
    requires AllViewed(h, read, reported, views) && AllRecovered(reported, views, byFunction)
    ensures forall f :: if f in reported then RecoveredFrom(h, read, f, CodeBlocks.BlocksOf(byFunction, f))
                        else CodeBlocks.BlocksOf(byFunction, f) == []
  {
    hide Viewed, Recovered;
    forall f | f in reported ensures RecoveredFrom(h, read, f, CodeBlocks.BlocksOf(byFunction, f)) {
      assert Viewed(h, read, f, views[f]) && Recovered(views[f], f, CodeBlocks.BlocksOf(byFunction, f));
    }
  }

  method RunJobs(read: nat -> Option<Insn>, isExec: nat -> bool, isCode: nat -> bool, pointerSize: nat,
                 jobs: seq<Job>)
    returns (cf: CodeFlowContext)
    requires ReaderSound(read) && 0 < pointerSize
    requires forall j | j in jobs && j.MakePointer? && j.stored.Some? :: j.site + pointerSize <= CodeBlocks.SPACE
    ensures cf.Sound() && cf.driver.read == read && cf.isExec == isExec && cf.cfBlocks == []
    ensures cf.functions <= cf.reported + cf.reportHeld && AllAnswered(Book(cf.Now()), 0)
    ensures forall j | j in jobs && j.MakeFunction? :: Begun(cf.Now(), j.va)
  {
    hide CodeFlowContext.SoundBut, Runs, AllAnswered, Discovery.ReaderSound, Calmer, Discovery.Driver.Valid;
    var driver := new Driver(read);
    cf := new CodeFlowContext(driver, isExec);
    ghost var start := cf.Now();
    NoAdvance(start, start);
    for i := 0 to |jobs|
      invariant cf.Sound() && cf.driver.read == read && cf.isExec == isExec && cf.cfBlocks == []
      invariant Runs(start, cf.Now())
      invariant forall j | 0 <= j < i && jobs[j].MakeFunction? :: Begun(cf.Now(), jobs[j].va)
      invariant fresh(cf) && fresh(cf.driver) && fresh(cf.driver.locations) && fresh(cf.driver.xrefs) &&
        fresh(cf.driver.blocks)
    {
      assert jobs[i] in jobs;
      ghost var before := cf.Now();
      match jobs[i] {
        case MakeFunction(va) => cf.AddEntryPoint(va);
        case MakePointer(site, stored, follow) => MakePointerAt(cf, site, stored, follow, pointerSize, isCode);
      }
      RunsOn(start, before, cf.Now());
      RunShrinks(before, cf.Now());
    }
    AllSettled(start, cf.Now());
  }

  // ----- what an account that leaves nothing open says

  /** After an instruction that is no jump, the next one is decoded if it can be, unless the
      call before it does not return, a table lies there, or the flow ran into its limit. */
  lemma FallThroughDecoded(a: Account, va: nat, op: Insn)
    requires AllAnswered(a, 0) && a.left == [] && a.flowed == {} && Decoded(va, op) in a.h
    requires op.isFallthrough && !op.isReturn && !op.isJump && a.im.isExec(va + op.length)
    ensures Done(a.im, a.h, a.locs, va + op.length) || Suppressed(va, va + op.length) in a.h || CutShort(a.h, va)
  {
    hide Done, PathOf;
    var i :| 0 <= i < |a.h| && a.h[i] == Decoded(va, op);
    assert Answered(a, i);
    var b := Branch(Some(va + op.length), CondMark(op) + {Fall});
    assert IsEdge(va, op, b) && EdgeDone(a, i, b);
  }

  /** A function called, other than by a call to the next instruction, is entered and its
      first instruction decoded if it can be, unless functions ran out or the call was made
      at the depth limit. */
  lemma CalleeDecoded(a: Account, i: nat, f: nat)
    requires AllAnswered(a, 0) && a.left == [] && i < |a.h| && a.h[i].Decoded?
    requires !a.h[i].op.isReturn && a.h[i].op.isCall && a.h[i].op.target == Some(f) && a.im.isExec(f)
    requires f != a.h[i].va + a.h[i].op.length && Suppressed(a.h[i].va, f) !in a.h
    ensures Defined(a.locs, f) || a.im.read(f).None? || Refused(f) in a.h || |PathOf(a.h[..i])| >= MAX_DESCENT_DEPTH
  {
    hide Defined, PathOf;
    var b := Branch(Some(f), CondMark(a.h[i].op) + {Proc});
    assert IsEdge(a.h[i].va, a.h[i].op, b) && Answered(a, i) && EdgeDone(a, i, b);
    if Entered(f) in a.h {
      var j :| 0 <= j < |a.h| && a.h[j] == Entered(f);
      assert Answered(a, j);
    }
  }

  lemma AllSettled(a: Progress, b: Progress)
    requires Runs(a, b) && a.functions == {} && a.events == []
    ensures b.functions <= b.reported + b.held && AllAnswered(Book(b), 0)
  {
    hide AllAnswered;
  }
}
