/** What reaches file scope: the tables of the units below, and the set the file's rules
    start from. */
module FileScopeSet {
  import opened Features
  import opened Engine
  import opened Rules
  import opened Matching
  import opened Sequences
  import opened BottomUp
  import opened StaticCapabilities
  import Fixpoint

  // ----- where a table announces a name

  function Heralds(byName: map<string, Rule>, m: MatchResults, x: string): set<Address> {
    InjectedPlaces(byName, m, m.Keys, x)
  }

  /** Injecting a table adds exactly the places it heralds. */
  lemma InjectedShows(fs: FeatureMap, byName: map<string, Rule>, m: MatchResults, x: string, places: set<Address>)
    requires ShowsAt(fs, x, places)
    ensures ShowsAt(Injected(fs, byName, m), x, places + Heralds(byName, m, x))
  {
    InjectedAt(fs, byName, m, m.Keys, Match(x));
    HeraldsSome(byName, m, x);
  }

  lemma HeraldsSome(byName: map<string, Rule>, m: MatchResults, x: string)
    ensures x in InjectedNames(byName, m, m.Keys) <==> Heralds(byName, m, x) != {}
  {
    if x in InjectedNames(byName, m, m.Keys) {
      var name :| name in m.Keys * m.Keys * byName.Keys && x in Names(byName[name]) && m[name] != [];
      assert m[name][0] in m[name] && m[name][0].0 in Addresses(m[name]);
      assert m[name][0].0 in Heralds(byName, m, x);
    }
    if a :| a in Heralds(byName, m, x) {
      var name :| name in m.Keys * m.Keys * byName.Keys && a in Addresses(m[name]) && x in Names(byName[name]);
      assert m[name] != [];
    }
  }

  /** A known rule of that name heralds x at a. */
  ghost predicate HeraldsAt(byName: map<string, Rule>, m: MatchResults, x: string, name: string, a: Address) {
    name in byName && x in Names(byName[name]) && a in Addresses(Entries(m, name))
  }

  lemma HeraldsAre(byName: map<string, Rule>, m: MatchResults, x: string, a: Address)
    ensures a in Heralds(byName, m, x) <==> exists name :: HeraldsAt(byName, m, x, name, a)
  {
    if a in Heralds(byName, m, x) {
      var name :| name in m.Keys * m.Keys * byName.Keys && a in Addresses(m[name]) && x in Names(byName[name]);
      assert HeraldsAt(byName, m, x, name, a);
    }
    if name :| HeraldsAt(byName, m, x, name, a) {
      assert name in m.Keys * m.Keys * byName.Keys;
    }
  }

  lemma JoinedHeralds(byName: map<string, Rule>, m: MatchResults, n: MatchResults, x: string)
    ensures Heralds(byName, Joined(m, n), x) == Heralds(byName, m, x) + Heralds(byName, n, x)
  {
    hide Heralds, Addresses;
    forall a
      ensures a in Heralds(byName, Joined(m, n), x) <==> a in Heralds(byName, m, x) || a in Heralds(byName, n, x)
    {
      HeraldsAre(byName, Joined(m, n), x, a);
      HeraldsAre(byName, m, x, a);
      HeraldsAre(byName, n, x, a);
      forall name ensures HeraldsAt(byName, Joined(m, n), x, name, a)
        <==> HeraldsAt(byName, m, x, name, a) || HeraldsAt(byName, n, x, name, a)
      {
        AddressesJoined(Entries(m, name), Entries(n, name));
        assert Entries(Joined(m, n), name) == Entries(m, name) + Entries(n, name);
      }
    }
  }

  lemma AddressesJoined(a: seq<(Address, Result)>, b: seq<(Address, Result)>)
    ensures Addresses(a + b) == Addresses(a) + Addresses(b)
  {
    assert forall e :: e in a + b <==> e in a || e in b;
  }

  /** Every entry of one pass's table is at the pass's address, and none is empty. */
  lemma {:induction false} TableEntries(rx: Search, rules: seq<Rule>, fs: FeatureMap, addr: Address)
    ensures forall name | name in Table(rx, rules, fs, addr) :: Addresses(Table(rx, rules, fs, addr)[name]) == {addr}
  {
    if rules != [] {
      var front, last := rules[..|rules| - 1], rules[|rules| - 1];
      TableEntries(rx, front, fs, addr);
      var before, seen := Table(rx, front, fs, addr), After(rx, front, fs, addr);
      assert rules == front + [last];
      RunSnoc(rx, front, last, fs, addr);
      AppendedAddresses(before, last.name, (addr, FullResult(rx, last.statement, seen)));
    }
  }

  lemma AppendedAddresses(m: MatchResults, name: string, entry: (Address, Result))
    requires forall n | n in m :: Addresses(m[n]) == {entry.0}
    ensures forall n | n in Appended(m, name, entry) :: Addresses(Appended(m, name, entry)[n]) == {entry.0}
  {
    AddressesJoined(Entries(m, name), [entry]);
    assert Addresses([entry]) == {entry.0} && Addresses([]) == {};
  }

  /** The lists hold rules the name index knows under their own names. */
  ghost predicate NamedLists(env: Env, byName: map<string, Rule>) {
    forall scope, q | q in env.lists(scope) :: q.name in byName && byName[q.name] == q
  }

  /** A pass's table heralds exactly the names its rules announced, where they did. */
  lemma PassHeralds(env: Env, byName: map<string, Rule>, scope: Scope, start: FeatureMap, addr: Address, x: string)
    requires NamedLists(env, byName)
    ensures Heralds(byName, Table(env.rx, env.lists(scope), start, addr), x)
         == if x in Fixpoint.FiredNames(env.rx, env.lists(scope), start, addr) then {addr} else {}
  {
    var m := Table(env.rx, env.lists(scope), start, addr);
    hide Table, Heralds, Fixpoint.FiredNames;
    forall a ensures a in Heralds(byName, m, x) <==>
      a == addr && x in Fixpoint.FiredNames(env.rx, env.lists(scope), start, addr)
    {
      HeraldsAre(byName, m, x, a);
      if name :| HeraldsAt(byName, m, x, name, a) { HeraldFired(env, byName, scope, start, addr, x, name, a); }
      if x in Fixpoint.FiredNames(env.rx, env.lists(scope), start, addr) {
        var name := FiredHeralds(env, byName, scope, start, addr, x);
      }
    }
  }

  lemma HeraldFired(env: Env, byName: map<string, Rule>, scope: Scope, start: FeatureMap, addr: Address, x: string,
                    name: string, a: Address)
    requires NamedLists(env, byName) && HeraldsAt(byName, Table(env.rx, env.lists(scope), start, addr), x, name, a)
    ensures a == addr && x in Fixpoint.FiredNames(env.rx, env.lists(scope), start, addr)
  {
    var list := env.lists(scope);
    TableEntries(env.rx, list, start, addr);
    NothingAddressed();
    Fixpoint.TableKeys(env.rx, list, start, addr, name);
    hide Table, Addresses, Fires, Names;
    var i :| 0 <= i < |list| && list[i].name == name && Fires(env.rx, list, start, addr, i);
    assert list[i] in list;
  }

  lemma FiredHeralds(env: Env, byName: map<string, Rule>, scope: Scope, start: FeatureMap, addr: Address, x: string)
    returns (name: string)
    requires NamedLists(env, byName) && x in Fixpoint.FiredNames(env.rx, env.lists(scope), start, addr)
    ensures HeraldsAt(byName, Table(env.rx, env.lists(scope), start, addr), x, name, addr)
  {
    var list := env.lists(scope);
    hide Fires, Names;
    var i :| 0 <= i < |list| && x in Names(list[i]) && Fires(env.rx, list, start, addr, i);
    assert list[i] in list;
    name := list[i].name;
    TableEntries(env.rx, list, start, addr);
    Fixpoint.TableKeys(env.rx, list, start, addr, name);
    hide Table, Addresses;
  }

  lemma NothingAddressed()
    ensures Addresses([]) == {}
  {
  }

  lemma UnitHeralds(env: Env, byName: map<string, Rule>, u: Unit, x: string)
    requires NamedLists(env, byName)
    ensures Heralds(byName, UnitTable(env, u), x) == if x in Said(env, u) then {u.addr} else {}
  {
    PassHeralds(env, byName, u.scope, Start(env, u), u.addr, x);
  }

  // ----- the tables of the units below

  lemma {:induction false} PartTablesHerald(env: Env, byName: map<string, Rule>, units: seq<Unit>, x: string)
    requires NamedLists(env, byName)
    ensures Heralds(byName, PartTables(env, units), x) == SaidAt(env, units, x)
  {
    if units != [] {
      var front, last := units[..|units| - 1], units[|units| - 1];
      PartTablesHerald(env, byName, front, x);
      hide Said, SaidAt, UnitTable, Heralds, Joined, NamedLists;
      JoinedHeralds(byName, PartTables(env, front), UnitTable(env, last), x);
      UnitHeralds(env, byName, last, x);
      SaidAtJoined(env, front, [last], x);
      assert units == front + [last];
      SaidAtOne(env, last, x);
    }
  }

  /** The parts of a list of units. */
  function PartsOf(units: seq<Unit>): seq<Unit> {
    if units == [] then [] else PartsOf(units[..|units| - 1]) + units[|units| - 1].parts
  }

  lemma SaidAtOne(env: Env, u: Unit, x: string)
    ensures SaidAt(env, [u], x) == if x in Said(env, u) then {u.addr} else {}
  {
    hide Said;
  }

  lemma SaidAtJoined(env: Env, a: seq<Unit>, b: seq<Unit>, x: string)
    ensures SaidAt(env, a + b, x) == SaidAt(env, a, x) + SaidAt(env, b, x)
  {
    hide Said;
    assert forall v :: v in a + b <==> v in a || v in b;
  }

  lemma {:induction false} InnerTablesHerald(env: Env, byName: map<string, Rule>, units: seq<Unit>, x: string)
    requires NamedLists(env, byName)
    ensures Heralds(byName, InnerTables(env, units), x) == SaidAt(env, PartsOf(units), x)
  {
    if units != [] {
      var front, last := units[..|units| - 1], units[|units| - 1];
      InnerTablesHerald(env, byName, front, x);
      JoinedHeralds(byName, InnerTables(env, front), PartTables(env, last.parts), x);
      PartTablesHerald(env, byName, last.parts, x);
      SaidAtJoined(env, PartsOf(front), last.parts, x);
    }
  }

  lemma {:induction false} InsnTablesHerald(env: Env, byName: map<string, Rule>, units: seq<Unit>, x: string)
    requires NamedLists(env, byName)
    ensures Heralds(byName, InsnTables(env, units), x) == SaidAt(env, PartsOf(PartsOf(units)), x)
  {
    if units != [] {
      var front, last := units[..|units| - 1], units[|units| - 1];
      InsnTablesHerald(env, byName, front, x);
      JoinedHeralds(byName, InsnTables(env, front), InnerTables(env, last.parts), x);
      InnerTablesHerald(env, byName, last.parts, x);
      PartsOfAppend(PartsOf(front), last.parts);
      SaidAtJoined(env, PartsOf(PartsOf(front)), PartsOf(last.parts), x);
    }
  }

  lemma {:induction false} PartsOfAppend(a: seq<Unit>, b: seq<Unit>)
    ensures PartsOf(a + b) == PartsOf(a) + PartsOf(b)
  {
    if b == [] {
      assert a + b == a;
    } else {
      assert (a + b)[..|a + b| - 1] == a + b[..|b| - 1];
      PartsOfAppend(a, b[..|b| - 1]);
    }
  }

  /** Functions, their blocks and their instructions are all there is. */
  lemma {:induction false} InsideAllFunctions(units: seq<Unit>, v: Unit)
    requires forall f | f in units :: IsFunction(f)
    ensures v in InsideAll(units) <==> v in units || v in PartsOf(units) || v in PartsOf(PartsOf(units))
  {
    if units != [] {
      var front, last := units[..|units| - 1], units[|units| - 1];
      assert last in units && units == front + [last];
      InsideAllFunctions(front, v);
      InsideAllBlocks(last.parts, v);
      PartsOfAppend(PartsOf(front), last.parts);
    }
  }

  lemma {:induction false} InsideAllBlocks(blocks: seq<Unit>, v: Unit)
    requires forall b | b in blocks :: IsBlock(b)
    ensures v in InsideAll(blocks) <==> v in blocks || v in PartsOf(blocks)
  {
    if blocks != [] {
      var front, last := blocks[..|blocks| - 1], blocks[|blocks| - 1];
      assert last in blocks && blocks == front + [last];
      InsideAllBlocks(front, v);
      InsideAllInsns(last.parts, v);
    }
  }

  lemma {:induction false} InsideAllInsns(insns: seq<Unit>, v: Unit)
    requires forall i | i in insns :: IsInsn(i)
    ensures v in InsideAll(insns) <==> v in insns
  {
    if insns != [] {
      var front, last := insns[..|insns| - 1], insns[|insns| - 1];
      assert last in insns && insns == front + [last];
      InsideAllInsns(front, v);
      assert Inside(last) == [];
    }
  }

  ghost predicate ProgramExtracted(p: Program) {
    && NoMatchFeatures(p.features) && NoMatchFeatures(p.globals)
    && forall f | f in p.functions :: Extracted(f)
  }

  lemma {:induction false} ActiveAre(p: Program, n: nat)
    requires n <= |p.functions|
    ensures forall f :: f in Active(p, n) <==> f in p.functions[..n] && f.addr !in p.library
    ensures forall f | f in Active(p, n) :: f in p.functions
  {
    if n > 0 {
      ActiveAre(p, n - 1);
      assert p.functions[..n] == p.functions[..n - 1] + [p.functions[n - 1]];
    }
  }

  /** What is seen in the file with no rule run: its own features and the shared ones. */
  function FileGiven(p: Program): FeatureMap { Collected(Elements(p.features) + Elements(p.globals)) }

  lemma FileBaseIs(p: Program)
    ensures FileBase(p) == FileGiven(p)
  {
    var pairs := Elements(p.features) + Elements(p.globals);
    forall f ensures Lookup(FileBase(p), f) == Lookup(FileGiven(p), f) {
      AddedAllSeen(map[], p.features, f, {});
      AddedAllSeen(AddedAll(map[], p.features), p.globals, f, {} + Elements(p.features));
      assert {} + Elements(p.features) + Elements(p.globals) == pairs;
      CollectedSeen(pairs, f);
    }
    SameMaps(FileBase(p), FileGiven(p));
  }

  /** The file's starting set before anything is announced, spelled out: a feature is there
      exactly if it was seen in the file or everywhere, at exactly those places. */
  lemma FileBaseHolds(p: Program, f: Feature)
    ensures f in FileBase(p) <==> exists a :: a in Places(FileBase(p), f)
    ensures forall a :: a in Places(FileBase(p), f) <==> (f, a) in p.features || (f, a) in p.globals
  {
    FileBaseIs(p);
    var pairs := Elements(p.features) + Elements(p.globals);
    CollectedSeen(pairs, f);
    forall a ensures a in PlacesIn(pairs, f) <==> (f, a) in p.features || (f, a) in p.globals {
      assert a in PlacesIn(pairs, f) <==> (f, a) in pairs;
    }
  }

  lemma SameMaps(fs: FeatureMap, gs: FeatureMap)
    requires forall f :: Lookup(fs, f) == Lookup(gs, f)
    ensures fs == gs
  {
    forall f ensures (f in fs <==> f in gs) && (f in fs ==> fs[f] == gs[f]) {
      assert Lookup(fs, f) == Lookup(gs, f);
    }
  }

  /** The analysed units of a program. */
  function UnitsOf(p: Program): seq<Unit> { InsideAll(Active(p, |p.functions|)) }

  lemma UnitsAre(p: Program)
    requires WellShaped(p) && ProgramExtracted(p)
    ensures forall v | v in UnitsOf(p) :: Extracted(v) && v.scope != FileScope
  {
    ActiveAre(p, |p.functions|);
    forall v | v in UnitsOf(p) ensures Extracted(v) && v.scope != FileScope {
      FunctionsExtracted(Active(p, |p.functions|), v);
      NotFileScope(Active(p, |p.functions|), v);
    }
  }

  /** The set the file's rules start from: the file's own features, and every match feature
      exactly where an analysed unit announced it. */
  lemma FileStartIs(env: Env, byName: map<string, Rule>, p: Program, x: string)
    requires WellShaped(p) && ProgramExtracted(p) && NamedLists(env, byName)
    ensures SameBase(FileStart(env, byName, p), FileBase(p))
    ensures ShowsAt(FileStart(env, byName, p), x, SaidAt(env, UnitsOf(p), x))
  {
    var units, base := Active(p, |p.functions|), FileBase(p);
    ActiveAre(p, |p.functions|);
    var a, b, c := PartTables(env, units), InnerTables(env, units), InsnTables(env, units);
    InjectedSameBase(base, byName, a);
    InjectedSameBase(Injected(base, byName, a), byName, b);
    InjectedSameBase(Injected(Injected(base, byName, a), byName, b), byName, c);
    AddedAllMatch(map[], p.features, x);
    AddedAllMatch(AddedAll(map[], p.features), p.globals, x);
    InjectedShows(base, byName, a, x, {});
    InjectedShows(Injected(base, byName, a), byName, b, x, {} + Heralds(byName, a, x));
    InjectedShows(Injected(Injected(base, byName, a), byName, b), byName, c, x,
                  {} + Heralds(byName, a, x) + Heralds(byName, b, x));
    PartTablesHerald(env, byName, units, x);
    InnerTablesHerald(env, byName, units, x);
    InsnTablesHerald(env, byName, units, x);
    forall v ensures v in UnitsOf(p) <==> v in units || v in PartsOf(units) || v in PartsOf(PartsOf(units)) {
      InsideAllFunctions(units, v);
    }
    SaidAtThree(env, UnitsOf(p), units, PartsOf(units), PartsOf(PartsOf(units)), x);
  }

  lemma SaidAtThree(env: Env, all: seq<Unit>, a: seq<Unit>, b: seq<Unit>, c: seq<Unit>, x: string)
    requires forall v :: v in all <==> v in a || v in b || v in c
    ensures SaidAt(env, all, x) == {} + SaidAt(env, a, x) + SaidAt(env, b, x) + SaidAt(env, c, x)
  {
    hide Said;
  }

  lemma InjectedSameBase(fs: FeatureMap, byName: map<string, Rule>, m: MatchResults)
    ensures SameBase(Injected(fs, byName, m), fs)
  {
    forall f: Feature | !f.IsMatch() ensures Agree(Injected(fs, byName, m), fs, f) {
      InjectedAt(fs, byName, m, m.Keys, f);
      assert Places(Injected(fs, byName, m), f) == Places(fs, f);
    }
  }

  lemma {:induction false} FunctionsExtracted(units: seq<Unit>, v: Unit)
    requires forall f | f in units :: Extracted(f)
    requires v in InsideAll(units)
    ensures Extracted(v)
  {
    var front, last := units[..|units| - 1], units[|units| - 1];
    assert last in units && forall f | f in front :: f in units;
    if v in InsideAll(front) {
      FunctionsExtracted(front, v);
    } else if v in Inside(last) {
      InsideExtracted(last, v);
    }
  }

  lemma NotFileScope(units: seq<Unit>, u: Unit)
    requires forall f | f in units :: IsFunction(f)
    requires u in InsideAll(units)
    ensures u.scope != FileScope
  {
    InsideAllFunctions(units, u);
    PartsOfScope(units);
    PartsOfInsns(PartsOf(units));
  }

  lemma {:induction false} PartsOfScope(units: seq<Unit>)
    requires forall f | f in units :: IsFunction(f)
    ensures forall b | b in PartsOf(units) :: IsBlock(b)
  {
    if units != [] {
      assert units[|units| - 1] in units;
      PartsOfScope(units[..|units| - 1]);
    }
  }

  lemma {:induction false} PartsOfInsns(blocks: seq<Unit>)
    requires forall b | b in blocks :: IsBlock(b)
    ensures forall i | i in PartsOf(blocks) :: IsInsn(i)
  {
    if blocks != [] {
      assert blocks[|blocks| - 1] in blocks;
      PartsOfInsns(blocks[..|blocks| - 1]);
    }
  }

  // ----- what the run records

  lemma PartTablesStep(env: Env, units: seq<Unit>, name: string)
    ensures name in PartTables(env, units) <==>
      && units != []
      && (name in PartTables(env, units[..|units| - 1]) || name in UnitTable(env, units[|units| - 1]))
  {
    hide UnitTable;
  }

  /** Some unit of the list recorded the name. */
  predicate RecordedBy(env: Env, units: seq<Unit>, name: string) {
    exists u :: u in units && name in UnitTable(env, u)
  }

  lemma RecordedByEither(env: Env, first: seq<Unit>, second: seq<Unit>, name: string)
    ensures RecordedBy(env, first + second, name) <==>
      RecordedBy(env, first, name) || RecordedBy(env, second, name)
  {
    hide UnitTable;
    assert forall u :: u in first + second <==> u in first || u in second;
  }

  lemma RecordedByOne(env: Env, u: Unit, name: string)
    ensures RecordedBy(env, [u], name) <==> name in UnitTable(env, u)
  {
    hide UnitTable;
    assert u in [u];
  }

  lemma RecordedByNone(env: Env, name: string)
    ensures !RecordedBy(env, [], name)
  {
  }

  lemma {:induction false} PartTablesKeys(env: Env, units: seq<Unit>, name: string)
    ensures name in PartTables(env, units) <==> RecordedBy(env, units, name)
  {
    hide *;
    PartTablesStep(env, units, name);
    if units == [] {
      RecordedByNone(env, name);
    } else {
      var front, last := units[..|units| - 1], units[|units| - 1];
      assert units == front + [last];
      PartTablesKeys(env, front, name);
      RecordedByEither(env, front, [last], name);
      RecordedByOne(env, last, name);
    }
  }

  lemma {:induction false} InnerTablesKeys(env: Env, units: seq<Unit>, name: string)
    ensures name in InnerTables(env, units) <==> RecordedBy(env, PartsOf(units), name)
  {
    hide UnitTable, PartTables, RecordedBy;
    if units == [] {
      RecordedByNone(env, name);
    } else {
      var front, last := units[..|units| - 1], units[|units| - 1];
      InnerTablesKeys(env, front, name);
      PartTablesKeys(env, last.parts, name);
      RecordedByEither(env, PartsOf(front), last.parts, name);
    }
  }

  lemma {:induction false} InsnTablesKeys(env: Env, units: seq<Unit>, name: string)
    ensures name in InsnTables(env, units) <==> RecordedBy(env, PartsOf(PartsOf(units)), name)
  {
    hide UnitTable, InnerTables, RecordedBy;
    if units == [] {
      RecordedByNone(env, name);
    } else {
      var front, last := units[..|units| - 1], units[|units| - 1];
      InsnTablesKeys(env, front, name);
      InnerTablesKeys(env, last.parts, name);
      PartsOfAppend(PartsOf(front), last.parts);
      RecordedByEither(env, PartsOf(PartsOf(front)), PartsOf(last.parts), name);
    }
  }

  /** The run records a name exactly when the file pass or an analysed unit does. */
  lemma RecordedIn(env: Env, byName: map<string, Rule>, p: Program, name: string)
    requires WellShaped(p)
    ensures name in StaticOf(env, byName, p).allMatches <==>
      || name in Table(env.rx, env.lists(FileScope), FileStart(env, byName, p), p.base)
      || exists u :: u in UnitsOf(p) && name in UnitTable(env, u)
  {
    var units := Active(p, |p.functions|);
    ActiveAre(p, |p.functions|);
    PartTablesKeys(env, units, name);
    InnerTablesKeys(env, units, name);
    InsnTablesKeys(env, units, name);
    hide UnitTable, FileStart, Table, PartTables, InnerTables, InsnTables;
    forall u ensures u in UnitsOf(p) <==> u in units || u in PartsOf(units) || u in PartsOf(PartsOf(units)) {
      InsideAllFunctions(units, u);
    }
  }
}
