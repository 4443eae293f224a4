/** The static run over a whole program: instructions, basic blocks, functions, file. */
module StaticCapabilities {
  import opened Features
  import opened Engine
  import opened Rules
  import opened Sequences
  import opened Matching
  import opened TopologicalOrder
  import opened BottomUp
  import opened RuleSets
  import opened Subscopes
  import Fixpoint

  datatype Program = Program(
    base: Address,
    features: seq<(Feature, Address)>,
    globals: seq<(Feature, Address)>,
    functions: seq<Unit>,
    library: set<Address>)

  // ----- match results

  function Entries(m: MatchResults, name: string): seq<(Address, Result)> {
    if name in m then m[name] else []
  }

  /** dst with every entry of src appended under its name. */
  function Joined(dst: MatchResults, src: MatchResults): MatchResults {
    map name | name in dst.Keys + src.Keys :: Entries(dst, name) + Entries(src, name)
  }

  method MergeInto(dst: MatchResults, src: MatchResults) returns (out: MatchResults)
    ensures out == Joined(dst, src)
  {
    out := dst;
    var rest := src.Keys;
    while rest != {}
      invariant rest <= src.Keys && out.Keys == dst.Keys + (src.Keys - rest)
      invariant forall name | name in out ::
        out[name] == Entries(dst, name) + (if name in rest then [] else Entries(src, name))
    {
      var name :| name in rest;
      out := out[name := Entries(out, name) + src[name]];
      rest := rest - {name};
    }
  }

  function Addresses(entries: seq<(Address, Result)>): set<Address> {
    set e | e in entries :: e.0
  }

  /** What injecting the matches recorded under some of the names adds. */
  function InjectedFrom(fs: FeatureMap, byName: map<string, Rule>, m: MatchResults, done: set<string>): FeatureMap {
    map f | f in fs.Keys + (set n | n in InjectedNames(byName, m, done) :: Match(n)) ::
      Places(fs, f) + (if f.IsMatch() then InjectedPlaces(byName, m, done, f.text) else {})
  }

  function InjectedNames(byName: map<string, Rule>, m: MatchResults, done: set<string>): set<string> {
    set name <- m.Keys * done * byName.Keys, n <- Names(byName[name]) | m[name] != [] :: n
  }

  function InjectedPlaces(byName: map<string, Rule>, m: MatchResults, done: set<string>, x: string): set<Address> {
    set name <- m.Keys * done * byName.Keys, a <- Addresses(m[name]) | x in Names(byName[name]) :: a
  }

  function Injected(fs: FeatureMap, byName: map<string, Rule>, m: MatchResults): FeatureMap {
    InjectedFrom(fs, byName, m, m.Keys)
  }

  lemma InjectedAt(fs: FeatureMap, byName: map<string, Rule>, m: MatchResults, done: set<string>, f: Feature)
    ensures f in InjectedFrom(fs, byName, m, done) <==>
      f in fs || (f.IsMatch() && f.text in InjectedNames(byName, m, done))
    ensures Places(InjectedFrom(fs, byName, m, done), f)
         == Places(fs, f) + (if f.IsMatch() then InjectedPlaces(byName, m, done, f.text) else {})
  {
    if f.IsMatch() {
      assert f == Match(f.text);
      forall a | a in InjectedPlaces(byName, m, done, f.text) ensures f.text in InjectedNames(byName, m, done) {
        var name :| name in m.Keys * done * byName.Keys && a in Addresses(m[name]) && f.text in Names(byName[name]);
        assert m[name] != [];
      }
    }
  }

  /** Injecting one more name announces its rule at the recorded addresses. */
  lemma InjectedOneMore(fs: FeatureMap, byName: map<string, Rule>, m: MatchResults, done: set<string>, name: string)
    requires name in m && name in byName && name !in done
    ensures InjectedFrom(fs, byName, m, done + {name})
         == Emitted(InjectedFrom(fs, byName, m, done), Names(byName[name]), Addresses(m[name]))
  {
    var after := InjectedFrom(fs, byName, m, done + {name});
    var emitted := Emitted(InjectedFrom(fs, byName, m, done), Names(byName[name]), Addresses(m[name]));
    forall f ensures Lookup(after, f) == Lookup(emitted, f) {
      InjectedOneMoreAt(fs, byName, m, done, name, f);
    }
    SameLookups(after, emitted);
  }

  lemma InjectedOneMoreAt(
      fs: FeatureMap, byName: map<string, Rule>, m: MatchResults, done: set<string>, name: string, f: Feature)
    requires name in m && name in byName && name !in done
    ensures Lookup(InjectedFrom(fs, byName, m, done + {name}), f)
         == Lookup(Emitted(InjectedFrom(fs, byName, m, done), Names(byName[name]), Addresses(m[name])), f)
  {
    hide InjectedFrom, InjectedNames, InjectedPlaces, Emitted, Names, Addresses;
    var before, after := InjectedFrom(fs, byName, m, done), InjectedFrom(fs, byName, m, done + {name});
    InjectedAt(fs, byName, m, done, f);
    InjectedAt(fs, byName, m, done + {name}, f);
    EmittedAt(before, Names(byName[name]), Addresses(m[name]), f);
    if f.IsMatch() { OneMoreName(byName, m, done, name, f.text); }
    assert Places(after, f) == Places(Emitted(before, Names(byName[name]), Addresses(m[name])), f);
  }

  lemma InjectedUnknown(fs: FeatureMap, byName: map<string, Rule>, m: MatchResults, done: set<string>, name: string)
    requires name !in byName
    ensures InjectedFrom(fs, byName, m, done + {name}) == InjectedFrom(fs, byName, m, done)
  {
    assert m.Keys * (done + {name}) * byName.Keys == m.Keys * done * byName.Keys;
  }

  lemma OneMoreName(byName: map<string, Rule>, m: MatchResults, done: set<string>, name: string, x: string)
    requires name in m && name in byName && name !in done
    ensures x in InjectedNames(byName, m, done + {name}) <==>
      x in InjectedNames(byName, m, done) || (Addresses(m[name]) != {} && x in Names(byName[name]))
    ensures InjectedPlaces(byName, m, done + {name}, x)
         == InjectedPlaces(byName, m, done, x) + (if x in Names(byName[name]) then Addresses(m[name]) else {})
  {
    if m[name] != [] { assert m[name][0] in m[name] && m[name][0].0 in Addresses(m[name]); }
    assert m.Keys * (done + {name}) * byName.Keys == m.Keys * done * byName.Keys + {name};
  }

  /** Announces every recorded rule at every address it matched at. */
  method InjectMatchFeatures(fs: FeatureSet, byName: map<string, Rule>, m: MatchResults)
    requires fs.Valid()
    modifies fs
    ensures fs.Valid() && fs.entries == Injected(old(fs.entries), byName, m)
  {
    ghost var was := fs.entries;
    InjectedNothing(was, byName, m);
    var rest := m.Keys;
    assert m.Keys - rest == {};
    while rest != {}
      invariant fs.Valid() && rest <= m.Keys
      invariant fs.entries == InjectedFrom(was, byName, m, m.Keys - rest)
    {
      var name :| name in rest;
      assert m.Keys - (rest - {name}) == (m.Keys - rest) + {name};
      if name in byName {
        var addrs := AddressList(m[name]);
        IndexRuleMatches(fs, byName[name], addrs);
        InjectedOneMore(was, byName, m, m.Keys - rest, name);
      } else {
        InjectedUnknown(was, byName, m, m.Keys - rest, name);
      }
      rest := rest - {name};
    }
    assert m.Keys - rest == m.Keys;
  }

  function AddressList(entries: seq<(Address, Result)>): (addrs: seq<Address>)
    ensures Elements(addrs) == Addresses(entries)
  {
    if entries == [] then []
    else
      assert entries == [entries[0]] + entries[1..];
      assert Addresses(entries) == {entries[0].0} + Addresses(entries[1..]);
      [entries[0].0] + AddressList(entries[1..])
  }

  lemma InjectedNothing(fs: FeatureMap, byName: map<string, Rule>, m: MatchResults)
    ensures InjectedFrom(fs, byName, m, {}) == fs
  {
    forall f ensures Lookup(InjectedFrom(fs, byName, m, {}), f) == Lookup(fs, f) {
      InjectedAt(fs, byName, m, {}, f);
      assert Places(InjectedFrom(fs, byName, m, {}), f) == Places(fs, f);
    }
    SameLookups(InjectedFrom(fs, byName, m, {}), fs);
  }

  // ----- specification of the passes

  function ListsOf(topo: map<Scope, seq<Rule>>): Scope -> seq<Rule> {
    scope => ListOf(topo, scope)
  }

  function UnitTable(env: Env, u: Unit): MatchResults {
    Table(env.rx, env.lists(u.scope), Start(env, u), u.addr)
  }

  /** The matches of a list of units, in order. */
  function PartTables(env: Env, parts: seq<Unit>): MatchResults {
    if parts == [] then map[]
    else Joined(PartTables(env, parts[..|parts| - 1]), UnitTable(env, parts[|parts| - 1]))
  }

  /** The matches of the parts of a list of units, in order. */
  function InnerTables(env: Env, units: seq<Unit>): MatchResults {
    if units == [] then map[]
    else Joined(InnerTables(env, units[..|units| - 1]), PartTables(env, units[|units| - 1].parts))
  }

  datatype CodeCapabilities =
    CodeCapabilities(functions: MatchResults, blocks: MatchResults, insns: MatchResults, featureCount: nat)

  function CodeOf(env: Env, f: Unit): CodeCapabilities {
    CodeCapabilities(UnitTable(env, f), PartTables(env, f.parts), InnerTables(env, f.parts), |Finish(env, f)|)
  }

  predicate IsInsn(u: Unit) { u.scope == InstructionScope && u.parts == [] }

  predicate IsBlock(u: Unit) { u.scope == BasicBlockScope && forall i | i in u.parts :: IsInsn(i) }

  predicate IsFunction(u: Unit) { u.scope == FunctionScope && forall b | b in u.parts :: IsBlock(b) }

  predicate WellShaped(p: Program) { forall f | f in p.functions :: IsFunction(f) }

  // ----- the passes

  ghost function EnvOf(rx: Search, rs: RuleSet, globals: seq<(Feature, Address)>): Env
    reads rs
  {
    Env(rx, ListsOf(rs.byScopeTopo), globals)
  }

  method FindInstructionCapabilities(rx: Search, rs: RuleSet, u: Unit, globals: seq<(Feature, Address)>)
    returns (fs: FeatureSet, matches: MatchResults)
    requires rs.Valid() && IsInsn(u)
    ensures fresh(fs) && fs.Valid() && fs.entries == Finish(EnvOf(rx, rs, globals), u)
    ensures matches == UnitTable(EnvOf(rx, rs, globals), u)
  {
    fs := new FeatureSet();
    fs.AddAll(u.features);
    fs.AddAll(globals);
    assert fs.entries == Start(EnvOf(rx, rs, globals), u);
    matches := rs.Match(rx, InstructionScope, fs, u.addr);
  }

  method FindBasicBlockCapabilities(rx: Search, rs: RuleSet, u: Unit, globals: seq<(Feature, Address)>)
    returns (fs: FeatureSet, matches: MatchResults, insns: MatchResults)
    requires rs.Valid() && IsBlock(u)
    ensures fresh(fs) && fs.Valid() && fs.entries == Finish(EnvOf(rx, rs, globals), u)
    ensures matches == UnitTable(EnvOf(rx, rs, globals), u)
    ensures insns == PartTables(EnvOf(rx, rs, globals), u.parts)
  {
    fs, insns := MergeInstructions(rx, rs, u.parts, globals);
    fs.AddAll(u.features);
    fs.AddAll(globals);
    assert fs.entries == Start(EnvOf(rx, rs, globals), u);
    matches := rs.Match(rx, BasicBlockScope, fs, u.addr);
  }

  method MergeInstructions(rx: Search, rs: RuleSet, parts: seq<Unit>, globals: seq<(Feature, Address)>)
    returns (fs: FeatureSet, insns: MatchResults)
    requires rs.Valid() && forall u | u in parts :: IsInsn(u)
    ensures fresh(fs) && fs.Valid() && fs.entries == MergedParts(EnvOf(rx, rs, globals), parts)
    ensures insns == PartTables(EnvOf(rx, rs, globals), parts)
  {
    hide Joined, UnitTable;
    ghost var env := EnvOf(rx, rs, globals);
    fs := new FeatureSet();
    insns := map[];
    for i := 0 to |parts|
      invariant fresh(fs) && fs.Valid() && fs.entries == MergedParts(env, parts[..i])
      invariant insns == PartTables(env, parts[..i])
    {
      assert parts[..i + 1][..i] == parts[..i] && parts[i] in parts;
      var insnFs, insnMatches := FindInstructionCapabilities(rx, rs, parts[i], globals);
      fs.MergeIn(insnFs.entries);
      insns := MergeInto(insns, insnMatches);
    }
    assert parts[..|parts|] == parts;
  }

  method FindCodeCapabilities(rx: Search, rs: RuleSet, u: Unit, globals: seq<(Feature, Address)>)
    returns (caps: CodeCapabilities)
    requires rs.Valid() && IsFunction(u)
    ensures caps == CodeOf(EnvOf(rx, rs, globals), u)
  {
    var fs, blocks, insns := MergeBlocks(rx, rs, u.parts, globals);
    fs.AddAll(u.features);
    fs.AddAll(globals);
    assert fs.entries == Start(EnvOf(rx, rs, globals), u);
    var matches := rs.Match(rx, FunctionScope, fs, u.addr);
    caps := CodeCapabilities(matches, blocks, insns, |fs.entries|);
  }

  method MergeBlocks(rx: Search, rs: RuleSet, parts: seq<Unit>, globals: seq<(Feature, Address)>)
    returns (fs: FeatureSet, blocks: MatchResults, insns: MatchResults)
    requires rs.Valid() && forall u | u in parts :: IsBlock(u)
    ensures fresh(fs) && fs.Valid() && fs.entries == MergedParts(EnvOf(rx, rs, globals), parts)
    ensures blocks == PartTables(EnvOf(rx, rs, globals), parts)
    ensures insns == InnerTables(EnvOf(rx, rs, globals), parts)
  {
    hide Joined, UnitTable;
    ghost var env := EnvOf(rx, rs, globals);
    fs := new FeatureSet();
    blocks, insns := map[], map[];
    for i := 0 to |parts|
      invariant fresh(fs) && fs.Valid() && fs.entries == MergedParts(env, parts[..i])
      invariant blocks == PartTables(env, parts[..i])
      invariant insns == InnerTables(env, parts[..i])
    {
      assert parts[..i + 1][..i] == parts[..i] && parts[i] in parts;
      var blockFs, blockMatches, blockInsns := FindBasicBlockCapabilities(rx, rs, parts[i], globals);
      fs.MergeIn(blockFs.entries);
      blocks := MergeInto(blocks, blockMatches);
      insns := MergeInto(insns, blockInsns);
    }
    assert parts[..|parts|] == parts;
  }

  // ----- the whole program

  /** The functions that are analysed: library functions are skipped. */
  function Active(p: Program, n: nat): seq<Unit>
    requires n <= |p.functions|
  {
    if n == 0 then []
    else if p.functions[n - 1].addr in p.library then Active(p, n - 1)
    else Active(p, n - 1) + [p.functions[n - 1]]
  }

  /** The set the file's rules start from before anything is announced. */
  function FileBase(p: Program): FeatureMap {
    AddedAll(AddedAll(map[], p.features), p.globals)
  }

  /** File features plus the announcements of every match below file scope. */
  function FileStart(env: Env, byName: map<string, Rule>, p: Program): FeatureMap {
    var units := Active(p, |p.functions|);
    Injected(Injected(Injected(FileBase(p), byName, PartTables(env, units)),
                      byName, InnerTables(env, units)),
             byName, InsnTables(env, units))
  }

  function InsnTables(env: Env, units: seq<Unit>): MatchResults {
    if units == [] then map[]
    else Joined(InsnTables(env, units[..|units| - 1]), InnerTables(env, units[|units| - 1].parts))
  }

  datatype StaticCapabilities = StaticCapabilities(
    allMatches: MatchResults,
    featureCount: nat,
    libraryFunctions: seq<Address>,
    perFunctionFeatureCounts: seq<(Address, nat)>)

  datatype FunctionSlot = FunctionSlot(caps: CodeCapabilities, library: bool)

  function SlotOf(env: Env, p: Program, i: nat): FunctionSlot
    requires i < |p.functions|
  {
    if p.functions[i].addr in p.library then FunctionSlot(CodeCapabilities(map[], map[], map[], 0), true)
    else FunctionSlot(CodeOf(env, p.functions[i]), false)
  }

  function LibraryOf(p: Program, n: nat): seq<Address>
    requires n <= |p.functions|
  {
    if n == 0 then []
    else if p.functions[n - 1].addr in p.library then LibraryOf(p, n - 1) + [p.functions[n - 1].addr]
    else LibraryOf(p, n - 1)
  }

  function StaticOf(env: Env, byName: map<string, Rule>, p: Program): StaticCapabilities {
    var units := Active(p, |p.functions|);
    var start := FileStart(env, byName, p);
    var list := env.lists(FileScope);
    StaticCapabilities(
      Joined(Joined(Joined(Joined(map[], Table(env.rx, list, start, p.base)),
                           PartTables(env, units)), InnerTables(env, units)), InsnTables(env, units)),
      |After(env.rx, list, start, p.base)|,
      LibraryOf(p, |p.functions|),
      CountsOf(env, p, |p.functions|))
  }

  /** One worker's job: analyse function i, or mark it as a library function. */
  method AnalyzeOne(rx: Search, rs: RuleSet, p: Program, i: nat) returns (slot: FunctionSlot)
    requires rs.Valid() && WellShaped(p) && i < |p.functions|
    ensures slot == SlotOf(EnvOf(rx, rs, p.globals), p, i)
  {
    if p.functions[i].addr in p.library { return FunctionSlot(CodeCapabilities(map[], map[], map[], 0), true); }
    assert p.functions[i] in p.functions;
    var caps := FindCodeCapabilities(rx, rs, p.functions[i], p.globals);
    slot := FunctionSlot(caps, false);
  }

  method FindStaticCapabilities(rx: Search, rs: RuleSet, p: Program) returns (caps: StaticCapabilities)
    requires rs.Valid() && WellShaped(p)
    ensures caps == StaticOf(EnvOf(rx, rs, p.globals), rs.byName, p)
  {
    var slots := FillSlots(rx, rs, p);
    var sum := Reduce(p, slots);
    ReductionIs(EnvOf(rx, rs, p.globals), p, slots);
    var fs := FileFeatures(p, rs.byName, sum.functions, sum.blocks, sum.insns);
    var matches := rs.Match(rx, FileScope, fs, p.base);
    var all := MergeInto(map[], matches);
    all := MergeInto(all, sum.functions);
    all := MergeInto(all, sum.blocks);
    all := MergeInto(all, sum.insns);
    caps := StaticCapabilities(all, |fs.entries|, sum.library, sum.counts);
  }

  method FillSlots(rx: Search, rs: RuleSet, p: Program) returns (slots: seq<FunctionSlot>)
    requires rs.Valid() && WellShaped(p)
    ensures |slots| == |p.functions|
    ensures forall j | 0 <= j < |slots| :: slots[j] == SlotOf(EnvOf(rx, rs, p.globals), p, j)
  {
    slots := [];
    for i := 0 to |p.functions|
      invariant |slots| == i && forall j | 0 <= j < i :: slots[j] == SlotOf(EnvOf(rx, rs, p.globals), p, j)
    {
      var slot := AnalyzeOne(rx, rs, p, i);
      slots := slots + [slot];
    }
  }

  method FileFeatures(p: Program, byName: map<string, Rule>,
                      functions: MatchResults, blocks: MatchResults, insns: MatchResults) returns (fs: FeatureSet)
    ensures fresh(fs) && fs.Valid()
    ensures fs.entries == Injected(Injected(Injected(FileBase(p), byName, functions), byName, blocks), byName, insns)
  {
    fs := new FeatureSet();
    fs.AddAll(p.features);
    fs.AddAll(p.globals);
    InjectMatchFeatures(fs, byName, functions);
    InjectMatchFeatures(fs, byName, blocks);
    InjectMatchFeatures(fs, byName, insns);
  }

  datatype Aggregate = Aggregate(
    functions: MatchResults, blocks: MatchResults, insns: MatchResults,
    library: seq<Address>, counts: seq<(Address, nat)>)

  /** What the ordered reduction makes of the first slots. It reads the filled slots and
      nothing else, so it cannot depend on which worker filled which slot when. */
  function Reduction(p: Program, slots: seq<FunctionSlot>): Aggregate
    requires |slots| <= |p.functions|
  {
    if slots == [] then Aggregate(map[], map[], map[], [], [])
    else
      var n := |slots| - 1;
      var sofar, slot, addr := Reduction(p, slots[..n]), slots[n], p.functions[n].addr;
      if slot.library then sofar.(library := sofar.library + [addr], counts := sofar.counts + [(addr, 0)])
      else
        Aggregate(Joined(sofar.functions, slot.caps.functions), Joined(sofar.blocks, slot.caps.blocks),
                  Joined(sofar.insns, slot.caps.insns), sofar.library,
                  sofar.counts + [(addr, slot.caps.featureCount)])
  }

  method Reduce(p: Program, slots: seq<FunctionSlot>) returns (out: Aggregate)
    requires |slots| == |p.functions|
    ensures out == Reduction(p, slots)
  {
    var functions: MatchResults, blocks: MatchResults, insns: MatchResults := map[], map[], map[];
    var library: seq<Address>, counts: seq<(Address, nat)> := [], [];
    for i := 0 to |slots|
      invariant Aggregate(functions, blocks, insns, library, counts) == Reduction(p, slots[..i])
    {
      assert slots[..i + 1][..i] == slots[..i];
      var addr := p.functions[i].addr;
      if slots[i].library {
        library := library + [addr];
        counts := counts + [(addr, 0)];
      } else {
        counts := counts + [(addr, slots[i].caps.featureCount)];
        functions := MergeInto(functions, slots[i].caps.functions);
        blocks := MergeInto(blocks, slots[i].caps.blocks);
        insns := MergeInto(insns, slots[i].caps.insns);
      }
    }
    assert slots[..|slots|] == slots;
    out := Aggregate(functions, blocks, insns, library, counts);
  }

  function CountsOf(env: Env, p: Program, n: nat): seq<(Address, nat)>
    requires n <= |p.functions|
  {
    if n == 0 then []
    else CountsOf(env, p, n - 1) + [(p.functions[n - 1].addr, SlotOf(env, p, n - 1).caps.featureCount)]
  }

  /** Reducing the slots of the analysed functions gives the matches of the active ones. */
  lemma {:induction false} ReductionIs(env: Env, p: Program, slots: seq<FunctionSlot>)
    requires |slots| <= |p.functions|
    requires forall j | 0 <= j < |slots| :: slots[j] == SlotOf(env, p, j)
    ensures var units := Active(p, |slots|);
      Reduction(p, slots) == Aggregate(PartTables(env, units), InnerTables(env, units), InsnTables(env, units),
                                       LibraryOf(p, |slots|), CountsOf(env, p, |slots|))
  {
    hide Joined, UnitTable, PartTables, InnerTables, InsnTables;
    if slots == [] {
      NoTables(env);
    } else {
      var n := |slots| - 1;
      ReductionIs(env, p, slots[..n]);
      assert slots[n] == SlotOf(env, p, n);
      TablesSnoc(env, Active(p, n), p.functions[n]);
    }
  }

  lemma NoTables(env: Env)
    ensures PartTables(env, []) == map[] && InnerTables(env, []) == map[] && InsnTables(env, []) == map[]
  {
  }

  lemma TablesSnoc(env: Env, units: seq<Unit>, u: Unit)
    ensures PartTables(env, units + [u]) == Joined(PartTables(env, units), UnitTable(env, u))
    ensures InnerTables(env, units + [u]) == Joined(InnerTables(env, units), PartTables(env, u.parts))
    ensures InsnTables(env, units + [u]) == Joined(InsnTables(env, units), InnerTables(env, u.parts))
  {
    assert (units + [u])[..|units|] == units;
  }
}
