/** The discovery driver's callbacks: what a decoded instruction and a finished function
    leave behind in the location, cross-reference and block stores. */
module Discovery {
  import opened Features
  import opened Locations
  import opened CodeBlocks

  /** A decoded instruction, as far as code flow looks at it. */
  datatype Insn = Insn(length: nat, isReturn: bool, isConditional: bool, isFallthrough: bool,
                       isCall: bool, isJump: bool, target: Option<nat>, indexed: bool)

  datatype Branch = Branch(target: Option<nat>, flags: BranchFlags)

  /** Instructions are non-empty and lie in the address space. */
  ghost predicate ReaderSound(read: nat -> Option<Insn>) {
    forall va: nat :: read(va).Some? ==> 1 <= read(va).value.length && va + read(va).value.length <= SPACE
  }

  ghost predicate LocationsFit(locs: LocationMap) {
    Filed(locs) && forall k | k in locs :: k + locs[k].size <= SPACE
  }

  /** The flags an edge to t holds after the non-fall-through branches are recorded. */
  function Accumulated(was: Option<BranchFlags>, branches: seq<Branch>, t: nat): Option<BranchFlags> {
    if branches == [] then was
    else
      var prior := Accumulated(was, branches[..|branches| - 1], t);
      var b := branches[|branches| - 1];
      if b.target == Some(t) && Fall !in b.flags
      then Some(if prior.Some? then prior.value + b.flags else b.flags)
      else prior
  }

  /** The edges out of va gained the branches; no other edge changed. */
  ghost predicate EdgesRecorded(was: XrefMap, now: XrefMap, va: nat, branches: seq<Branch>) {
    && (forall s | s != va :: From(now, s) == From(was, s))
    && (forall t :: EdgeFlags(From(now, va), t) == Accumulated(EdgeFlags(From(was, va), t), branches, t))
  }

  lemma EdgeRecorded(was: XrefMap, mid: XrefMap, now: XrefMap, va: nat, branches: seq<Branch>, b: Branch)
    requires EdgesRecorded(was, mid, va, branches)
    requires if b.target.Some? && Fall !in b.flags then EdgeAdded(mid, now, va, b.target.value, b.flags) else now == mid
    ensures EdgesRecorded(was, now, va, branches + [b])
  {
    forall t ensures EdgeFlags(From(now, va), t) == Accumulated(EdgeFlags(From(was, va), t), branches + [b], t) {
      AccumulatedSnoc(EdgeFlags(From(was, va), t), branches, b, t);
    }
  }

  lemma AccumulatedSnoc(was: Option<BranchFlags>, branches: seq<Branch>, b: Branch, t: nat)
    ensures Accumulated(was, branches + [b], t) ==
      var prior := Accumulated(was, branches, t);
      if b.target == Some(t) && Fall !in b.flags
      then Some(if prior.Some? then prior.value + b.flags else b.flags)
      else prior
  {
    assert (branches + [b])[..|branches|] == branches;
  }

  /** The blocks listed for a function are the registration of what was known when it was
      reported. */
  ghost predicate Recovered(v: View, f: nat, blocks: seq<CodeBlock>) {
    ViewValid(v) && exists d :: IsReach(v, f, d) && IsRegistration(v, f, d, blocks)
  }

  ghost predicate AllRecovered(analyzed: set<nat>, views: map<nat, View>, byFunction: map<nat, seq<CodeBlock>>) {
    && (forall f | f in analyzed :: f in views && Recovered(views[f], f, BlocksOf(byFunction, f)))
    && (forall f | f !in analyzed :: BlocksOf(byFunction, f) == [])
  }

  lemma RecoveredOne(analyzed: set<nat>, views: map<nat, View>, was: map<nat, seq<CodeBlock>>,
                     now: map<nat, seq<CodeBlock>>, va: nat, v: View, d: set<nat>, blocks: seq<CodeBlock>)
    requires AllRecovered(analyzed, views, was) && va !in analyzed
    requires ViewValid(v) && IsReach(v, va, d) && IsRegistration(v, va, d, blocks)
    requires forall f :: BlocksOf(now, f) == if f == va then BlocksOf(was, f) + blocks else BlocksOf(was, f)
    ensures AllRecovered(analyzed + {va}, views[va := v], now)
  {
    assert BlocksOf(now, va) == blocks;
    forall f | f in analyzed + {va} ensures f in views[va := v] && Recovered(views[va := v][f], f, BlocksOf(now, f)) {
      if f != va { assert Recovered(views[f], f, BlocksOf(was, f)); }
    }
  }

  /** Each function is listed once. */
  ghost predicate Listed(entries: seq<nat>, analyzed: set<nat>) {
    && (forall i, j | 0 <= i < j < |entries| :: entries[i] != entries[j])
    && (forall f :: f in entries <==> f in analyzed)
  }

  class Driver {
    const read: nat -> Option<Insn>
    const locations: LocationDb
    const xrefs: XrefDb
    const blocks: CodeBlockStore
    var noFall: set<nat>
    var analyzed: set<nat>
    var entries: seq<nat>
    ghost var views: map<nat, View>

    ghost predicate Valid()
      reads this, locations, xrefs, blocks
    {
      && ReaderSound(read) && LocationsFit(locations.byStart) && XrefsValid(xrefs.from, xrefs.to)
      && Listed(entries, analyzed) && AllRecovered(analyzed, views, blocks.byFunction)
    }

    constructor (reader: nat -> Option<Insn>)
      requires ReaderSound(reader)
      ensures Valid() && read == reader && fresh(locations) && fresh(xrefs) && fresh(blocks)
      ensures locations.byStart == map[] && xrefs.from == map[] && noFall == {}
      ensures analyzed == {} && entries == []
    {
      read := reader;
      locations := new LocationDb();
      xrefs := new XrefDb();
      blocks := new CodeBlockStore();
      noFall, analyzed, entries, views := {}, {}, [], map[];
    }

    method IsDefined(va: nat) returns (b: bool)
      ensures b == Defined(locations.byStart, va)
    {
      var loc := locations.GetLocation(va);
      b := loc.Some?;
    }

    /** Defines the instruction and records its edges, all but the fall-through. */
    method OnOpcode(va: nat, op: Insn, branches: seq<Branch>)
      requires Valid() && !Defined(locations.byStart, va) && read(va) == Some(op)
      modifies this`noFall, locations, xrefs
      ensures Valid()
      ensures locations.byStart == Put(old(locations.byStart), va, op.length, Op)
      ensures noFall == if op.isFallthrough then old(noFall) else old(noFall) + {va}
      ensures EdgesRecorded(old(xrefs.from), xrefs.from, va, branches)
    {
      locations.AddLocation(va, op.length, Op);
      if !op.isFallthrough { noFall := noFall + {va}; }
      RecordEdges(va, branches);
    }

    method RecordEdges(va: nat, branches: seq<Branch>)
      requires XrefsValid(xrefs.from, xrefs.to)
      modifies xrefs
      ensures XrefsValid(xrefs.from, xrefs.to)
      ensures EdgesRecorded(old(xrefs.from), xrefs.from, va, branches)
    {
      for i := 0 to |branches|
        invariant XrefsValid(xrefs.from, xrefs.to)
        invariant EdgesRecorded(old(xrefs.from), xrefs.from, va, branches[..i])
      {
        assert branches[..i + 1] == branches[..i] + [branches[i]];
        var branch := branches[i];
        ghost var mid := xrefs.from;
        if branch.target.Some? && Fall !in branch.flags {
          xrefs.AddCodeXref(va, branch.target.value, branch.flags);
          assert EdgeAdded(mid, xrefs.from, va, branch.target.value, branch.flags);
        }
        EdgeRecorded(old(xrefs.from), mid, xrefs.from, va, branches[..i], branch);
      }
      assert branches[..|branches|] == branches;
    }

    /** A resolved jump-table case is an edge too. */
    method OnBranchTable(source: nat, target: nat)
      requires Valid()
      modifies xrefs
      ensures Valid() && target in xrefs.to
      ensures EdgeAdded(old(xrefs.from), xrefs.from, source, target, {Cond})
    {
      xrefs.AddCodeXref(source, target, {Cond});
    }

    /** A view shows exactly what the stores hold now. */
    ghost predicate Shows(v: View)
      reads this, locations, xrefs
    {
      && v.locs == locations.byStart && v.from == xrefs.from && v.to == xrefs.to
      && (forall at :: v.noFall(at) <==> at in noFall)
      && (forall at :: v.canParse(at) <==> read(at).Some?)
    }

    /** A function reported for the first time is listed and its blocks are recovered from
        what the stores hold at that moment; a repeated report does nothing. */
    method OnFunction(va: nat)
      requires Valid()
      modifies `analyzed, `entries, `views, blocks
      ensures Valid() && analyzed == old(analyzed) + {va}
      ensures entries == if va in old(analyzed) then old(entries) else old(entries) + [va]
      ensures va in old(analyzed) ==> views == old(views)
      ensures va !in old(analyzed) ==> va in views && Shows(views[va]) && views == old(views)[va := views[va]]
      ensures forall f | f != va || f in old(analyzed) ::
        BlocksOf(blocks.byFunction, f) == old(BlocksOf(blocks.byFunction, f))
    {
      hide AllRecovered, ReaderSound, LocationsFit, XrefsValid;
      if va in analyzed {
        assert analyzed + {va} == analyzed;
        return;
      }
      ghost var v := RecoverBlocks(va);
      analyzed, entries := analyzed + {va}, entries + [va];
      views := views[va := v];
    }

    method RecoverBlocks(va: nat) returns (ghost v: View)
      requires Valid() && va !in analyzed
      modifies blocks
      ensures Shows(v) && AllRecovered(analyzed + {va}, views[va := v], blocks.byFunction)
      ensures forall f | f != va :: BlocksOf(blocks.byFunction, f) == old(BlocksOf(blocks.byFunction, f))
    {
      var noFall', read' := noFall, read;
      var seen := View(locations.byStart, xrefs.from, xrefs.to, at => at in noFall', (at: nat) => read'(at).Some?);
      ghost var reach, recovered := AnalyzeFunction(seen, va, blocks);
      RecoveredOne(analyzed, views, old(blocks.byFunction), blocks.byFunction, va, seen, reach, recovered);
      v := seen;
    }
  }
}
