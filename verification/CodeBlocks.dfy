/** Basic-block recovery: walking a function's flow, splitting it at cross-references,
    and registering the blocks in ascending order. */
module CodeBlocks {
  import opened Features
  import opened Locations
  import Sorting

  datatype CodeBlock = CodeBlock(va: nat, size: nat, functionVa: nat)

  class CodeBlockStore {
    var byFunction: map<nat, seq<CodeBlock>>
    var byStart: map<nat, CodeBlock>

    constructor ()
      ensures byFunction == map[] && byStart == map[]
    {
      byFunction, byStart := map[], map[];
    }

    function FunctionBlocks(functionVa: nat): seq<CodeBlock>
      reads this
    {
      BlocksOf(byFunction, functionVa)
    }

    /** Appended to its function's list; the last writer owns the start. */
    method AddCodeBlock(b: CodeBlock)
      modifies this
      ensures byFunction == old(byFunction)[b.functionVa := old(FunctionBlocks(b.functionVa)) + [b]]
      ensures byStart == old(byStart)[b.va := b]
    {
      byFunction := byFunction[b.functionVa := FunctionBlocks(b.functionVa) + [b]];
      byStart := byStart[b.va := b];
    }
  }

  function BlocksOf(byFunction: map<nat, seq<CodeBlock>>, functionVa: nat): seq<CodeBlock> {
    if functionVa in byFunction then byFunction[functionVa] else []
  }

  /** One past the last address. */
  const SPACE := 0x1_0000_0000_0000_0000

  /** What the walk reads: locations, edges, and the two predicates on instructions. */
  datatype View = View(locs: LocationMap, from: XrefMap, to: set<nat>, noFall: nat -> bool, canParse: nat -> bool)

  /** Locations lie in the address space, and the target set is that of the edges. */
  ghost predicate ViewValid(v: View) {
    && Filed(v.locs) && XrefsValid(v.from, v.to)
    && forall k | k in v.locs :: k + v.locs[k].size <= SPACE
  }

  predicate IsInsn(v: View, va: nat) {
    var loc := Get(v.locs, va); loc.Some? && loc.value.kind == Op
  }

  function Next(v: View, va: nat): nat
    requires IsInsn(v, va)
  {
    va + Get(v.locs, va).value.size
  }

  predicate Splits(x: CodeXref) { Proc !in x.flags && Deref !in x.flags }

  /** The targets of the edges that end a block. */
  function Targets(edges: seq<CodeXref>): seq<nat> {
    if edges == [] then []
    else Targets(edges[..|edges| - 1]) + (if Splits(edges[|edges| - 1]) then [edges[|edges| - 1].to] else [])
  }

  function BranchesAt(v: View, va: nat): seq<nat> { Targets(From(v.from, va)) }

  predicate EndsFlow(v: View, va: nat)
    requires IsInsn(v, va)
  {
    v.noFall(Get(v.locs, va).value.va)
  }

  /** The walk goes on into the next instruction within the same block. */
  predicate Flows(v: View, va: nat) {
    && IsInsn(v, va) && v.canParse(va)
    && BranchesAt(v, va) == [] && !EndsFlow(v, va) && Next(v, va) !in v.to
  }

  lemma InsnInSpace(v: View, va: nat)
    requires ViewValid(v) && IsInsn(v, va)
    ensures va < SPACE && va < Next(v, va) <= 2 * SPACE && InSpace(Next(v, va))
  {
    var k := Floor(v.locs, va);
    assert k.Some? && v.locs[k.value] == Get(v.locs, va).value;
  }

  /** The addresses of the instructions of the block that starts at va. */
  ghost function Chain(v: View, va: nat): seq<nat>
    requires ViewValid(v)
    decreases SPACE - va
  {
    if Flows(v, va) then InsnInSpace(v, va); [va] + Chain(v, Next(v, va))
    else if IsInsn(v, va) && v.canParse(va) then [va]
    else []
  }

  /** Where the walk from va stops. */
  ghost function Stop(v: View, va: nat): nat
    requires ViewValid(v)
    ensures va <= Stop(v, va)
    decreases SPACE - va
  {
    if Flows(v, va) then InsnInSpace(v, va); Stop(v, Next(v, va))
    else if IsInsn(v, va) && v.canParse(va) then Next(v, va)
    else va
  }

  /** The walk runs into bytes that no longer decode. */
  ghost predicate Breaks(v: View, va: nat)
    requires ViewValid(v)
    decreases SPACE - va
  {
    if Flows(v, va) then InsnInSpace(v, va); Breaks(v, Next(v, va))
    else IsInsn(v, va) && !v.canParse(va)
  }

  /** The starts the walk from va asks for. */
  ghost function Asks(v: View, va: nat): seq<nat>
    requires ViewValid(v)
    decreases SPACE - va
  {
    if Flows(v, va) then InsnInSpace(v, va); Asks(v, Next(v, va))
    else if IsInsn(v, va) && v.canParse(va) then
      if EndsFlow(v, va) then BranchesAt(v, va) else BranchesAt(v, va) + [Next(v, va)]
    else []
  }

  /** The walk closes the block with an end marker of its own, not with a next start. */
  ghost predicate Closes(v: View, va: nat)
    requires ViewValid(v)
    decreases SPACE - va
  {
    if Flows(v, va) then InsnInSpace(v, va); Closes(v, Next(v, va))
    else !IsInsn(v, va) || (v.canParse(va) && EndsFlow(v, va))
  }

  ghost function BlockSize(v: View, start: nat): nat
    requires ViewValid(v)
  {
    if Breaks(v, start) then 0 else Stop(v, start) - start
  }

  // ----- the set of starts

  ghost predicate ClosedUnderWalk(v: View, d: set<nat>)
    requires ViewValid(v)
  {
    forall s, t | s in d && t in Asks(v, s) :: t in d
  }

  /** d is the least set of starts that holds the entry and everything the walks ask for. */
  ghost predicate IsReach(v: View, entry: nat, d: set<nat>)
    requires ViewValid(v)
  {
    && entry in d && ClosedUnderWalk(v, d)
    && forall e: set<nat> | entry in e && ClosedUnderWalk(v, e) :: d <= e
  }

  // ----- the block walk

  datatype Ref = Ref(va: nat, begin: bool)

  /** Address order, an end before a begin. */
  predicate RefBefore(a: Ref, b: Ref) { a.va < b.va || (a.va == b.va && !a.begin && b.begin) }

  method SplitTargets(edges: seq<CodeXref>) returns (targets: seq<nat>)
    ensures targets == Targets(edges)
  {
    targets := [];
    for i := 0 to |edges|
      invariant targets == Targets(edges[..i])
    {
      assert edges[..i + 1][..i] == edges[..i];
      if Proc in edges[i].flags { continue; }
      if Deref in edges[i].flags { continue; }
      targets := targets + [edges[i].to];
    }
    assert edges[..|edges|] == edges;
  }

  lemma WalkFlows(v: View, va: nat)
    requires ViewValid(v) && Flows(v, va)
    ensures Stop(v, va) == Stop(v, Next(v, va)) && Breaks(v, va) == Breaks(v, Next(v, va))
    ensures Asks(v, va) == Asks(v, Next(v, va)) && Closes(v, va) == Closes(v, Next(v, va))
  {
    InsnInSpace(v, va);
  }

  lemma WalkEnds(v: View, va: nat)
    requires ViewValid(v) && !Flows(v, va)
    ensures Breaks(v, va) <==> IsInsn(v, va) && !v.canParse(va)
    ensures var ends := IsInsn(v, va) && v.canParse(va);
      && Stop(v, va) == (if ends then Next(v, va) else va)
      && Closes(v, va) == (!IsInsn(v, va) || (ends && EndsFlow(v, va)))
      && Asks(v, va) ==
         if !ends then [] else if EndsFlow(v, va) then BranchesAt(v, va) else BranchesAt(v, va) + [Next(v, va)]
  {
  }

  /** Walks one block, reporting its size, its end marker if it has one, and the starts to
      visit next. */
  method WalkBlock(v: View, start: nat) returns (size: nat, marker: Option<nat>, asks: seq<nat>)
    requires ViewValid(v)
    ensures size == BlockSize(v, start) && asks == Asks(v, start)
    ensures marker == if Closes(v, start) then Some(Stop(v, start)) else None
  {
    hide Stop, Breaks, Asks, Closes;
    var va := start;
    while true
      invariant start <= va
      invariant Stop(v, va) == Stop(v, start) && Breaks(v, va) == Breaks(v, start)
      invariant Asks(v, va) == Asks(v, start) && Closes(v, va) == Closes(v, start)
      decreases SPACE - va
    {
      if Flows(v, va) { WalkFlows(v, va); } else { WalkEnds(v, va); }
      var loc := Get(v.locs, va);
      if loc.None? || loc.value.kind != Op { return va - start, Some(va), []; }
      if !v.canParse(va) { return 0, None, []; }
      InsnInSpace(v, va);
      var next := va + loc.value.size;
      asks := SplitTargets(From(v.from, va));
      if v.noFall(loc.value.va) { return next - start, Some(next), asks; }
      if asks != [] { return next - start, None, asks + [next]; }
      if next in v.to { return next - start, None, [next]; }
      va := next;
    }
  }

  /** The begin and end markers met: one begin per start, and past every non-empty block
      either its end marker or a start at its end, visited or still to be visited. */
  ghost predicate Marked(v: View, done: set<nat>, todo: seq<nat>, refs: seq<Ref>)
    requires ViewValid(v)
  {
    && (forall s :: Ref(s, true) in refs <==> s in done)
    && (forall i, j | 0 <= i < j < |refs| && refs[i].begin :: refs[i] != refs[j])
    && (forall s | s in done && BlockSize(v, s) > 0 ::
      Ref(Stop(v, s), false) in refs || Stop(v, s) in done || Stop(v, s) in todo)
  }

  ghost predicate Searching(v: View, entry: nat, done: set<nat>, todo: seq<nat>)
    requires ViewValid(v)
  {
    && (entry in done || entry in todo)
    && (forall s, t | s in done && t in Asks(v, s) :: t in done || t in todo)
    && (forall e: set<nat> | entry in e && ClosedUnderWalk(v, e) :: done <= e && forall t | t in todo :: t in e)
  }

  /** Unless it ends in a marker, a non-empty block asks for a start at its own end. */
  lemma {:induction false} StopIsMarkedOrAsked(v: View, va: nat)
    requires ViewValid(v) && !Breaks(v, va)
    ensures Closes(v, va) || Stop(v, va) in Asks(v, va)
    decreases SPACE - va
  {
    if Flows(v, va) {
      InsnInSpace(v, va);
      StopIsMarkedOrAsked(v, Next(v, va));
    }
  }

  /** Everything the walk can ask for: the entry, edge targets, ends of instructions. */
  ghost function Universe(v: View, entry: nat): set<nat> {
    v.to + {entry} + (set x: nat | x <= 2 * SPACE && InSpace(x))
  }

  predicate InSpace(x: nat) { x <= 2 * SPACE }

  lemma {:induction false} AsksInUniverse(v: View, entry: nat, va: nat)
    requires ViewValid(v)
    ensures forall t | t in Asks(v, va) :: t in Universe(v, entry)
    decreases SPACE - va
  {
    if Flows(v, va) {
      InsnInSpace(v, va);
      AsksInUniverse(v, entry, Next(v, va));
    } else if IsInsn(v, va) {
      InsnInSpace(v, va);
      TargetsKnown(v, From(v.from, va));
    }
  }

  lemma {:induction false} TargetsKnown(v: View, edges: seq<CodeXref>)
    requires forall i | 0 <= i < |edges| :: edges[i].to in v.to
    ensures forall t | t in Targets(edges) :: t in v.to
  {
    if edges != [] { TargetsKnown(v, edges[..|edges| - 1]); }
  }

  method FindStarts(v: View, entry: nat) returns (sizes: map<nat, nat>, refs: seq<Ref>)
    requires ViewValid(v)
    ensures IsReach(v, entry, sizes.Keys)
    ensures forall s | s in sizes :: sizes[s] == BlockSize(v, s)
    ensures Marked(v, sizes.Keys, [], refs)
  {
    var todo := [entry];
    sizes, refs := map[], [];
    ghost var universe := Universe(v, entry);
    StartsAtFirst(v, entry);
    while todo != []
      invariant StartsSoFar(v, entry, universe, sizes, todo, refs)
      decreases universe - sizes.Keys, |todo|
    {
      var start, front := todo[|todo| - 1], todo[..|todo| - 1];
      assert todo == front + [start];
      if start in sizes {
        SkipStart(v, entry, universe, sizes, front, start, refs);
        todo := front;
      } else {
        var size, marker, asks := WalkBlock(v, start);
        VisitStart(v, entry, universe, sizes, front, start, refs, marker);
        sizes := sizes[start := size];
        refs := refs + [Ref(start, true)] + (if marker.Some? then [Ref(marker.value, false)] else []);
        todo := front + asks;
      }
    }
    SearchedAll(v, entry, sizes.Keys);
  }

  ghost predicate StartsSoFar(v: View, entry: nat, universe: set<nat>, sizes: map<nat, nat>, todo: seq<nat>,
                              refs: seq<Ref>)
    requires ViewValid(v)
  {
    && (forall s | s in sizes :: sizes[s] == BlockSize(v, s))
    && Searching(v, entry, sizes.Keys, todo)
    && Marked(v, sizes.Keys, todo, refs)
    && sizes.Keys <= universe && (forall t | t in todo :: t in universe)
  }

  lemma StartsAtFirst(v: View, entry: nat)
    requires ViewValid(v)
    ensures StartsSoFar(v, entry, Universe(v, entry), map[], [entry], [])
  {
  }

  lemma SearchedAll(v: View, entry: nat, d: set<nat>)
    requires ViewValid(v) && Searching(v, entry, d, [])
    ensures IsReach(v, entry, d)
  {
  }

  lemma SkipStart(v: View, entry: nat, universe: set<nat>, sizes: map<nat, nat>, front: seq<nat>, start: nat,
                  refs: seq<Ref>)
    requires ViewValid(v) && start in sizes
    requires StartsSoFar(v, entry, universe, sizes, front + [start], refs)
    ensures StartsSoFar(v, entry, universe, sizes, front, refs)
  {
    assert forall t :: t in front + [start] <==> t in front || t == start;
  }

  lemma VisitStart(v: View, entry: nat, universe: set<nat>, sizes: map<nat, nat>, front: seq<nat>, start: nat,
                   refs: seq<Ref>, marker: Option<nat>)
    requires ViewValid(v) && start !in sizes && universe == Universe(v, entry)
    requires StartsSoFar(v, entry, universe, sizes, front + [start], refs)
    requires marker == if Closes(v, start) then Some(Stop(v, start)) else None
    ensures StartsSoFar(v, entry, universe, sizes[start := BlockSize(v, start)], front + Asks(v, start),
      refs + [Ref(start, true)] + (if marker.Some? then [Ref(marker.value, false)] else []))
    ensures universe - sizes[start := BlockSize(v, start)].Keys < universe - sizes.Keys
  {
    hide Searching, Marked, Asks, BlockSize, Stop, Closes, Universe;
    var sizes', asks := sizes[start := BlockSize(v, start)], Asks(v, start);
    assert sizes'.Keys == sizes.Keys + {start};
    assert start in universe by { assert start in front + [start]; }
    SearchOn(v, entry, sizes.Keys, front, start);
    MarkStart(v, sizes.Keys, front, start, refs, marker);
    AllInUniverse(v, entry, front, start);
    assert start in universe - sizes.Keys && start !in universe - sizes'.Keys;
  }

  lemma AllInUniverse(v: View, entry: nat, front: seq<nat>, start: nat)
    requires ViewValid(v) && forall t | t in front + [start] :: t in Universe(v, entry)
    ensures forall t | t in front + Asks(v, start) :: t in Universe(v, entry)
  {
    AsksInUniverse(v, entry, start);
    assert forall t | t in front :: t in front + [start];
  }

  lemma SearchOn(v: View, entry: nat, done: set<nat>, front: seq<nat>, start: nat)
    requires ViewValid(v) && Searching(v, entry, done, front + [start])
    ensures Searching(v, entry, done + {start}, front + Asks(v, start))
  {
    assert forall t :: t in front + [start] <==> t in front || t == start;
    forall e: set<nat> | entry in e && ClosedUnderWalk(v, e)
      ensures done + {start} <= e && forall t | t in front + Asks(v, start) :: t in e
    {
      assert start in front + [start];
    }
  }

  lemma MarkStart(v: View, done: set<nat>, front: seq<nat>, start: nat, refs: seq<Ref>, marker: Option<nat>)
    requires ViewValid(v) && Marked(v, done, front + [start], refs) && start !in done
    requires marker == if Closes(v, start) then Some(Stop(v, start)) else None
    ensures Marked(v, done + {start}, front + Asks(v, start),
      refs + [Ref(start, true)] + (if marker.Some? then [Ref(marker.value, false)] else []))
  {
    hide Stop, Asks, Closes, Breaks;
    var more := refs + [Ref(start, true)] + (if marker.Some? then [Ref(marker.value, false)] else []);
    assert forall r :: r in more <==>
      r in refs || r == Ref(start, true) || (marker.Some? && r == Ref(marker.value, false));
    assert forall t :: t in front + [start] <==> t in front || t == start;
    if !Breaks(v, start) { StopIsMarkedOrAsked(v, start); }
    assert Ref(start, true) !in refs;
  }

  // ----- registration

  /** The blocks of the reached starts: ascending, each non-empty one exactly once. */
  ghost predicate IsRegistration(v: View, entry: nat, d: set<nat>, blocks: seq<CodeBlock>)
    requires ViewValid(v)
  {
    && (forall i, j | 0 <= i < j < |blocks| :: blocks[i].va < blocks[j].va)
    && (forall i | 0 <= i < |blocks| :: blocks[i] == CodeBlock(blocks[i].va, BlockSize(v, blocks[i].va), entry))
    && (forall s: nat :: s in Starts(blocks) <==> s in d && BlockSize(v, s) > 0)
  }

  function Starts(blocks: seq<CodeBlock>): set<nat> { set b | b in blocks :: b.va }

  lemma StartsHas(blocks: seq<CodeBlock>, k: nat)
    requires k < |blocks|
    ensures blocks[k].va in Starts(blocks)
  {
    assert blocks[k] in blocks;
  }

  lemma StartsSnoc(blocks: seq<CodeBlock>, b: CodeBlock)
    ensures Starts(blocks + [b]) == Starts(blocks) + {b.va}
  {
    assert forall x :: x in blocks + [b] <==> x in blocks || x == b;
  }

  lemma RefBeforeIsOrder()
    ensures Sorting.StrictWeakOrder(RefBefore)
  {
  }

  /** Recovers the blocks of a function and registers every non-empty one, ascending. The
      early exit at a trailing begin marker never drops a block. */
  method AnalyzeFunction(v: View, entry: nat, store: CodeBlockStore)
    returns (ghost reach: set<nat>, ghost blocks: seq<CodeBlock>)
    requires ViewValid(v)
    modifies store
    ensures IsReach(v, entry, reach) && IsRegistration(v, entry, reach, blocks)
    ensures Grew(old(store.byFunction), old(store.byStart), store.byFunction, store.byStart, entry, blocks)
  {
    var sizes, unsorted := FindStarts(v, entry);
    reach := sizes.Keys;
    var refs := Sorting.StableSort(unsorted, RefBefore);
    SortedMarks(v, reach, unsorted);
    blocks := RegisterBlocks(v, entry, sizes, refs, store);
    assert refs[..|refs|] == refs;
  }

  method RegisterBlocks(v: View, entry: nat, sizes: map<nat, nat>, refs: seq<Ref>, store: CodeBlockStore)
    returns (ghost blocks: seq<CodeBlock>)
    requires ViewValid(v) && MarkedInOrder(v, sizes.Keys, refs)
    requires forall s | s in sizes :: sizes[s] == BlockSize(v, s)
    modifies store
    ensures RegisteredUpTo(v, entry, refs, |refs|, blocks)
    ensures Grew(old(store.byFunction), old(store.byStart), store.byFunction, store.byStart, entry, blocks)
  {
    blocks := [];
    for i := 0 to |refs|
      invariant Grew(old(store.byFunction), old(store.byStart), store.byFunction, store.byStart, entry, blocks)
      invariant RegisteredUpTo(v, entry, refs, i, blocks)
    {
      var ref := refs[i];
      assert ref in refs;
      if !ref.begin {
        RegisterNone(v, entry, refs, i, blocks);
        continue;
      }
      assert ref == Ref(ref.va, true);
      if i + 1 == |refs| {
        LastIsEmpty(v, sizes.Keys, refs);
        RegisterNone(v, entry, refs, i, blocks);
        break;
      }
      var size := sizes[ref.va];
      if size == 0 {
        RegisterNone(v, entry, refs, i, blocks);
        continue;
      }
      RegisterOne(v, entry, refs, i, blocks);
      GrewOne(old(store.byFunction), old(store.byStart), store.byFunction, store.byStart, entry, blocks,
              CodeBlock(ref.va, size, entry));
      store.AddCodeBlock(CodeBlock(ref.va, size, entry));
      blocks := blocks + [CodeBlock(ref.va, size, entry)];
    }
  }

  /** The store gained the blocks at the end of the entry's list, each now owning its start,
      and nothing else changed. */
  ghost predicate Grew(lists: map<nat, seq<CodeBlock>>, owners: map<nat, CodeBlock>,
                       lists': map<nat, seq<CodeBlock>>, owners': map<nat, CodeBlock>,
                       entry: nat, blocks: seq<CodeBlock>) {
    && (forall f :: BlocksOf(lists', f) == if f == entry then BlocksOf(lists, f) + blocks else BlocksOf(lists, f))
    && owners'.Keys == owners.Keys + Starts(blocks)
    && (forall va | va in owners' :: Owned(owners, blocks, va, owners'[va]))
  }

  ghost predicate Owned(owners: map<nat, CodeBlock>, blocks: seq<CodeBlock>, va: nat, b: CodeBlock) {
    if va in Starts(blocks) then b in blocks && b.va == va else va in owners && b == owners[va]
  }

  lemma GrewOne(lists: map<nat, seq<CodeBlock>>, owners: map<nat, CodeBlock>,
                lists': map<nat, seq<CodeBlock>>, owners': map<nat, CodeBlock>,
                entry: nat, blocks: seq<CodeBlock>, b: CodeBlock)
    requires Grew(lists, owners, lists', owners', entry, blocks)
    ensures Grew(lists, owners, lists'[entry := BlocksOf(lists', entry) + [b]], owners'[b.va := b], entry, blocks + [b])
  {
    StartsSnoc(blocks, b);
    hide Owned, Starts;
    var lists'' := lists'[entry := BlocksOf(lists', entry) + [b]];
    forall f
      ensures BlocksOf(lists'', f) == if f == entry then BlocksOf(lists, f) + (blocks + [b]) else BlocksOf(lists, f)
    {
      if f == entry {
        assert BlocksOf(lists, f) + blocks + [b] == BlocksOf(lists, f) + (blocks + [b]);
      } else {
        assert BlocksOf(lists'', f) == BlocksOf(lists', f);
      }
    }
    var owners'' := owners'[b.va := b];
    forall va | va in owners'' ensures Owned(owners, blocks + [b], va, owners''[va]) {
      OwnedOne(owners, blocks, b, va, owners''[va], if va == b.va then b else owners'[va]);
    }
  }

  lemma OwnedOne(owners: map<nat, CodeBlock>, blocks: seq<CodeBlock>, b: CodeBlock, va: nat, c: CodeBlock,
                 was: CodeBlock)
    requires if va == b.va then c == b else c == was && Owned(owners, blocks, va, was)
    ensures Owned(owners, blocks + [b], va, c)
  {
    StartsSnoc(blocks, b);
    assert forall x :: x in blocks + [b] <==> x in blocks || x == b;
  }

  /** Sorted, the begins are still one per start and every non-empty block has a later mark. */
  ghost predicate MarkedInOrder(v: View, done: set<nat>, refs: seq<Ref>)
    requires ViewValid(v)
  {
    && Sorting.Sorted(refs, RefBefore)
    && (forall i, j | 0 <= i < j < |refs| && refs[i].begin && refs[j].begin :: refs[i].va < refs[j].va)
    && (forall s :: Ref(s, true) in refs <==> s in done)
    && (forall s | s in done && BlockSize(v, s) > 0 :: HasMark(refs, Stop(v, s)))
  }

  ghost predicate HasMark(refs: seq<Ref>, va: nat) {
    Ref(va, false) in refs || Ref(va, true) in refs
  }

  lemma SortedMarks(v: View, done: set<nat>, unsorted: seq<Ref>)
    requires ViewValid(v) && Marked(v, done, [], unsorted)
    ensures MarkedInOrder(v, done, Sorting.StableSort(unsorted, RefBefore))
  {
    var refs := Sorting.StableSort(unsorted, RefBefore);
    RefBeforeIsOrder();
    Sorting.StableSortCorrect(unsorted, RefBefore);
    forall r ensures r in refs <==> r in unsorted {
      assert r in refs <==> r in multiset(refs);
      assert r in unsorted <==> r in multiset(unsorted);
    }
    forall i, j | 0 <= i < j < |refs| && refs[i].begin && refs[j].begin ensures refs[i].va < refs[j].va {
      TwoBegins(unsorted, refs, i, j);
    }
    forall s | s in done && BlockSize(v, s) > 0 ensures HasMark(refs, Stop(v, s)) {
      assert Ref(Stop(v, s), false) in unsorted || Ref(Stop(v, s), true) in unsorted;
    }
  }

  lemma TwoBegins(unsorted: seq<Ref>, refs: seq<Ref>, i: nat, j: nat)
    requires multiset(refs) == multiset(unsorted) && Sorting.Sorted(refs, RefBefore)
    requires forall a, b | 0 <= a < b < |unsorted| && unsorted[a].begin :: unsorted[a] != unsorted[b]
    requires i < j < |refs| && refs[i].begin && refs[j].begin
    ensures refs[i].va < refs[j].va
  {
    assert !RefBefore(refs[j], refs[i]);
    hide Sorting.Sorted, RefBefore;
    AtMostOne(unsorted, refs[i]);
    TwiceCounted(refs, i, j);
  }

  lemma TwiceCounted(refs: seq<Ref>, i: nat, j: nat)
    requires i < j < |refs|
    ensures refs[i] == refs[j] ==> multiset(refs)[refs[i]] >= 2
  {
    assert refs == refs[..j] + refs[j..];
    assert refs[i] in refs[..j] && refs[j] in refs[j..];
  }

  lemma {:induction false} AtMostOne(refs: seq<Ref>, r: Ref)
    requires r.begin && forall i, j | 0 <= i < j < |refs| && refs[i].begin :: refs[i] != refs[j]
    ensures multiset(refs)[r] <= 1
  {
    if refs != [] {
      assert refs == [refs[0]] + refs[1..];
      AtMostOne(refs[1..], r);
      if refs[0] == r { assert r !in refs[1..]; }
    }
  }

  /** A begin marker in last place belongs to an empty block. */
  lemma LastIsEmpty(v: View, done: set<nat>, refs: seq<Ref>)
    requires ViewValid(v) && MarkedInOrder(v, done, refs)
    requires refs != [] && refs[|refs| - 1].begin
    ensures BlockSize(v, refs[|refs| - 1].va) == 0
  {
    var last := refs[|refs| - 1];
    assert last == Ref(last.va, true) && last in refs;
    assert forall k | 0 <= k < |refs| :: refs[k].va <= last.va;
    assert HasMark(refs, Stop(v, last.va)) ==> Stop(v, last.va) <= last.va;
  }

  /** The blocks registered so far are those of the first i marks. */
  ghost predicate RegisteredUpTo(v: View, entry: nat, refs: seq<Ref>, i: nat, blocks: seq<CodeBlock>)
    requires ViewValid(v) && i <= |refs|
  {
    && (forall a, b | 0 <= a < b < |blocks| :: blocks[a].va < blocks[b].va)
    && (forall k | 0 <= k < |blocks| :: blocks[k] == CodeBlock(blocks[k].va, BlockSize(v, blocks[k].va), entry))
    && (forall s: nat :: s in Starts(blocks) <==> Ref(s, true) in refs[..i] && BlockSize(v, s) > 0)
  }

  lemma RegisterNone(v: View, entry: nat, refs: seq<Ref>, i: nat, blocks: seq<CodeBlock>)
    requires ViewValid(v) && i < |refs| && RegisteredUpTo(v, entry, refs, i, blocks)
    requires !refs[i].begin || BlockSize(v, refs[i].va) == 0
    ensures RegisteredUpTo(v, entry, refs, i + 1, blocks)
  {
    assert refs[..i + 1] == refs[..i] + [refs[i]];
  }

  lemma RegisterOne(v: View, entry: nat, refs: seq<Ref>, i: nat, blocks: seq<CodeBlock>)
    requires ViewValid(v) && i < |refs| && RegisteredUpTo(v, entry, refs, i, blocks)
    requires refs[i].begin && BlockSize(v, refs[i].va) > 0
    requires forall a, b | 0 <= a < b < |refs| && refs[a].begin && refs[b].begin :: refs[a].va < refs[b].va
    ensures RegisteredUpTo(v, entry, refs, i + 1,
      blocks + [CodeBlock(refs[i].va, BlockSize(v, refs[i].va), entry)])
  {
    hide Starts, BlockSize;
    var b := CodeBlock(refs[i].va, BlockSize(v, refs[i].va), entry);
    StartsSnoc(blocks, b);
    assert refs[..i + 1] == refs[..i] + [refs[i]] && refs[i] == Ref(b.va, true);
    forall k | 0 <= k < |blocks| ensures blocks[k].va < b.va {
      StartsHas(blocks, k);
      var a :| 0 <= a < i && refs[a] == Ref(blocks[k].va, true);
    }
  }

  // ----- what a registered block is

  /** The instructions of a block: consecutive, tiling it, each flowing into the next. */
  ghost predicate IsRunOf(v: View, c: seq<nat>, start: nat, stop: nat)
    requires ViewValid(v)
  {
    && c != [] && c[0] == start
    && forall k: nat | k < |c| :: RunStep(v, c, stop, k)
  }

  /** The last instruction stops the run: it does not flow on, or nothing follows it. */
  ghost predicate RunStep(v: View, c: seq<nat>, stop: nat, k: nat)
    requires ViewValid(v) && k < |c|
  {
    && IsInsn(v, c[k]) && v.canParse(c[k])
    && if k + 1 < |c| then Flows(v, c[k]) && Next(v, c[k]) == c[k + 1]
       else Next(v, c[k]) == stop && (Flows(v, c[k]) ==> !IsInsn(v, stop))
  }

  /** A non-empty block is a maximal run of instructions. No boundary inside it has an
      inbound code edge. */
  lemma {:induction false} BlockIsMaximalRun(v: View, start: nat)
    requires ViewValid(v) && BlockSize(v, start) > 0
    ensures IsRunOf(v, Chain(v, start), start, start + BlockSize(v, start))
    ensures forall k | 0 < k < |Chain(v, start)| :: Chain(v, start)[k] !in v.to
  {
    ChainIsRun(v, start);
    var c, stop := Chain(v, start), Stop(v, start);
    forall k | 0 < k < |c| ensures c[k] !in v.to {
      assert RunStep(v, c, stop, k - 1);
    }
  }

  lemma {:induction false} ChainIsRun(v: View, start: nat)
    requires ViewValid(v) && !Breaks(v, start) && Stop(v, start) > start
    ensures IsRunOf(v, Chain(v, start), start, Stop(v, start))
    decreases SPACE - start
  {
    if Flows(v, start) {
      InsnInSpace(v, start);
      var next := Next(v, start);
      if Stop(v, next) > next {
        ChainIsRun(v, next);
        RunGrows(v, start, Chain(v, next), Stop(v, next));
      } else {
        EmptyWalk(v, next);
      }
    }
  }

  lemma RunGrows(v: View, va: nat, rest: seq<nat>, stop: nat)
    requires ViewValid(v) && Flows(v, va) && IsRunOf(v, rest, Next(v, va), stop)
    ensures IsRunOf(v, [va] + rest, va, stop)
  {
    var c := [va] + rest;
    forall k: nat | k < |c| ensures RunStep(v, c, stop, k) {
      if k > 0 { assert RunStep(v, rest, stop, k - 1); }
    }
  }

  lemma EmptyWalk(v: View, va: nat)
    requires ViewValid(v) && !Breaks(v, va) && Stop(v, va) == va
    ensures !IsInsn(v, va) && Chain(v, va) == []
  {
    if IsInsn(v, va) { InsnInSpace(v, va); }
  }

  // ----- blocks and starts, from the edges' own flags

  /** An edge out of x leads to t that is neither a call nor a dereference. */
  ghost predicate JumpsTo(v: View, x: nat, t: nat) {
    exists e | e in From(v.from, x) :: e.to == t && Proc !in e.flags && Deref !in e.flags
  }

  ghost predicate Jumps(v: View, x: nat) { exists t :: JumpsTo(v, x, t) }

  ghost predicate FallsThrough(v: View, x: nat)
    requires IsInsn(v, x)
  {
    !v.noFall(Get(v.locs, x).value.va)
  }

  /** The instructions c tile a block up to stop: inside it every edge is a call or a
      dereference, every instruction falls through, and no edge leads to a boundary. It ends
      only because its last instruction jumps or does not fall through, or because an edge
      leads to what follows, or no instruction follows. */
  ghost predicate IsBlock(v: View, c: seq<nat>, start: nat, stop: nat) {
    c != [] && c[0] == start && forall k: nat | k < |c| :: BlockStep(v, c, stop, k)
  }

  ghost predicate BlockStep(v: View, c: seq<nat>, stop: nat, k: nat)
    requires k < |c|
  {
    && IsInsn(v, c[k]) && v.canParse(c[k])
    && if k + 1 < |c| then
         Next(v, c[k]) == c[k + 1] && !Jumps(v, c[k]) && FallsThrough(v, c[k]) && c[k + 1] !in v.to
       else
         Next(v, c[k]) == stop && (Jumps(v, c[k]) || !FallsThrough(v, c[k]) || stop in v.to || !IsInsn(v, stop))
  }

  lemma {:induction false} TargetsJump(edges: seq<CodeXref>, t: nat)
    ensures t in Targets(edges) <==> exists e | e in edges :: e.to == t && Proc !in e.flags && Deref !in e.flags
  {
    if edges != [] {
      var front, last := edges[..|edges| - 1], edges[|edges| - 1];
      TargetsJump(front, t);
      assert edges == front + [last];
    }
  }

  lemma BranchesJump(v: View, x: nat)
    ensures forall t :: t in BranchesAt(v, x) <==> JumpsTo(v, x, t)
    ensures BranchesAt(v, x) == [] <==> !Jumps(v, x)
  {
    forall t ensures t in BranchesAt(v, x) <==> JumpsTo(v, x, t) { TargetsJump(From(v.from, x), t); }
    if BranchesAt(v, x) != [] { assert BranchesAt(v, x)[0] in BranchesAt(v, x); }
  }

  /** The walk goes on exactly where a block does. */
  lemma FlowsOn(v: View, x: nat)
    ensures Flows(v, x) <==>
      IsInsn(v, x) && v.canParse(x) && !Jumps(v, x) && FallsThrough(v, x) && Next(v, x) !in v.to
  {
    BranchesJump(v, x);
  }

  ghost predicate Spans(v: View, start: nat, stop: nat) { exists c :: IsBlock(v, c, start, stop) }

  lemma SpanStops(v: View, start: nat, stop: nat)
    requires ViewValid(v) && Spans(v, start, stop)
    ensures start < stop && BlockSize(v, start) == stop - start
  {
    var c :| IsBlock(v, c, start, stop);
    BlockStops(v, c, start, stop);
  }

  /** A walk yields a block of n bytes exactly when there is one. */
  lemma BlockSizeIs(v: View, start: nat, n: nat)
    requires ViewValid(v) && n > 0
    ensures BlockSize(v, start) == n <==> Spans(v, start, start + n)
  {
    if BlockSize(v, start) == n { ChainIsBlock(v, start); }
    if Spans(v, start, start + n) { SpanStops(v, start, start + n); }
  }

  lemma ChainIsBlock(v: View, start: nat)
    requires ViewValid(v) && BlockSize(v, start) > 0
    ensures IsBlock(v, Chain(v, start), start, start + BlockSize(v, start))
  {
    hide Flows, Jumps, FallsThrough, Chain, Stop, Breaks;
    ChainRuns(v, start);
    var c, stop := Chain(v, start), start + BlockSize(v, start);
    forall k: nat | k < |c| ensures BlockStep(v, c, stop, k) {
      assert RunStep(v, c, stop, k);
      FlowsOn(v, c[k]);
    }
  }

  lemma ChainRuns(v: View, start: nat)
    requires ViewValid(v) && BlockSize(v, start) > 0
    ensures IsRunOf(v, Chain(v, start), start, start + BlockSize(v, start))
  {
    ChainIsRun(v, start);
  }

  lemma {:induction false} BlockStops(v: View, c: seq<nat>, start: nat, stop: nat)
    requires ViewValid(v) && IsBlock(v, c, start, stop)
    ensures start < stop == Stop(v, start) && !Breaks(v, start) && BlockSize(v, start) == stop - start
    ensures Asks(v, start) == Asks(v, c[|c| - 1])
    decreases |c|
  {
    assert BlockStep(v, c, stop, 0);
    InsnInSpace(v, start);
    FlowsOn(v, start);
    if |c| > 1 {
      BlockTail(v, c, start, stop);
      BlockStops(v, c[1..], c[1], stop);
    }
  }

  lemma BlockTail(v: View, c: seq<nat>, start: nat, stop: nat)
    requires IsBlock(v, c, start, stop) && |c| > 1
    ensures IsBlock(v, c[1..], c[1], stop)
  {
    hide Jumps, FallsThrough;
    forall k: nat | k < |c[1..]| ensures BlockStep(v, c[1..], stop, k) {
      assert BlockStep(v, c, stop, k + 1);
    }
  }

  /** The block at s leads to t: its last instruction jumps there, or falls through to the
      block's end, and that is a start because the instruction jumps or an edge leads there. */
  ghost predicate LeadsTo(v: View, s: nat, t: nat) {
    exists c, stop :: IsBlock(v, c, s, stop) && EndLeadsTo(v, c[|c| - 1], stop, t)
  }

  ghost predicate EndLeadsTo(v: View, last: nat, stop: nat, t: nat) {
    || JumpsTo(v, last, t)
    || (t == stop && IsInsn(v, last) && FallsThrough(v, last) && (Jumps(v, last) || stop in v.to))
  }

  /** What a walk asks for is what its block leads to. */
  lemma AsksAre(v: View, s: nat, t: nat)
    requires ViewValid(v)
    ensures t in Asks(v, s) <==> LeadsTo(v, s, t)
  {
    if BlockSize(v, s) > 0 {
      ChainIsBlock(v, s);
      var c, stop := Chain(v, s), s + BlockSize(v, s);
      BlockStops(v, c, s, stop);
      EndAsks(v, c, s, stop, t);
    } else if t in Asks(v, s) {
      AsksSized(v, s);
    }
    if c, stop :| IsBlock(v, c, s, stop) && EndLeadsTo(v, c[|c| - 1], stop, t) {
      BlockStops(v, c, s, stop);
      EndAsks(v, c, s, stop, t);
    }
  }

  lemma EndAsks(v: View, c: seq<nat>, s: nat, stop: nat, t: nat)
    requires ViewValid(v) && IsBlock(v, c, s, stop) && Asks(v, s) == Asks(v, c[|c| - 1])
    ensures t in Asks(v, s) <==> EndLeadsTo(v, c[|c| - 1], stop, t)
  {
    var last := c[|c| - 1];
    assert BlockStep(v, c, stop, |c| - 1);
    FlowsOn(v, last);
    BranchesJump(v, last);
    InsnInSpace(v, last);
    if Flows(v, last) { AsksNothing(v, Next(v, last)); }
  }

  lemma AsksNothing(v: View, va: nat)
    requires ViewValid(v) && !IsInsn(v, va)
    ensures Asks(v, va) == []
  {
  }

  lemma {:induction false} AsksSized(v: View, va: nat)
    requires ViewValid(v) && Asks(v, va) != []
    ensures BlockSize(v, va) > 0
    decreases SPACE - va
  {
    InsnInSpace(v, va);
    if Flows(v, va) { AsksSized(v, Next(v, va)); }
  }

  /** The starts of a function are the least set that holds the entry and all that its blocks
      lead to; every start but the entry is one that a block of another start leads to. */
  lemma ReachIsLeast(v: View, entry: nat, d: set<nat>)
    requires ViewValid(v) && IsReach(v, entry, d)
    ensures entry in d && forall s, t | s in d && LeadsTo(v, s, t) :: t in d
    ensures forall e: set<nat> | entry in e && (forall s, t | s in e && LeadsTo(v, s, t) :: t in e) :: d <= e
    ensures forall t | t in d && t != entry :: exists s :: s in d && LeadsTo(v, s, t)
  {
    hide LeadsTo, Asks;
    forall s, t ensures t in Asks(v, s) <==> LeadsTo(v, s, t) { AsksAre(v, s, t); }
    forall e: set<nat> | entry in e && (forall s, t | s in e && LeadsTo(v, s, t) :: t in e) ensures d <= e {
      assert ClosedUnderWalk(v, e);
    }
    var led := set t | t in d && (t == entry || exists s :: s in d && LeadsTo(v, s, t));
    assert ClosedUnderWalk(v, led);
  }

  /** What is registered for a function: a block for every start that has one, and nothing
      else. */
  lemma RegisteredAre(v: View, entry: nat, d: set<nat>, blocks: seq<CodeBlock>, b: CodeBlock)
    requires ViewValid(v) && IsReach(v, entry, d) && IsRegistration(v, entry, d, blocks)
    ensures b in blocks <==>
      b.va in d && b.size > 0 && b.functionVa == entry && Spans(v, b.va, b.va + b.size)
  {
    hide BlockSize, Spans;
    if b.size > 0 { BlockSizeIs(v, b.va, b.size); }
    if b in blocks {
      var i :| 0 <= i < |blocks| && blocks[i] == b;
      StartsHas(blocks, i);
    }
    if b.va in d && b.size > 0 && b.functionVa == entry && BlockSize(v, b.va) == b.size {
      assert b.va in Starts(blocks);
      var q :| q in blocks && q.va == b.va;
    }
  }

  // ----- blocks do not overlap

  /** Instructions do not overlap, and an edge into an instruction goes to its start. Where
      pointers and data lie does not matter. */
  ghost predicate Tidy(v: View) {
    && (forall a, b | a in v.locs && b in v.locs && v.locs[a].kind == Op && v.locs[b].kind == Op && a < b ::
      a + v.locs[a].size <= b)
    && (forall t | t in v.to :: Aligned(v, t))
  }

  ghost predicate Aligned(v: View, va: nat) {
    IsInsn(v, va) ==> va in v.locs
  }

  /** How a start comes to be asked for: an edge leads to it, or the instruction before it
      does not flow on. */
  ghost predicate Reached(v: View, x: nat) {
    x in v.to || exists p :: EndsBefore(v, p, x)
  }

  ghost predicate EndsBefore(v: View, p: nat, x: nat) {
    p in v.locs && IsInsn(v, p) && Next(v, p) == x && !Flows(v, p)
  }

  lemma NextAligned(v: View, va: nat)
    requires ViewValid(v) && Tidy(v) && IsInsn(v, va) && va in v.locs
    ensures Aligned(v, Next(v, va))
  {
    var next := Next(v, va);
    if IsInsn(v, next) {
      var k := Floor(v.locs, next).value;
      assert Floor(v.locs, va) == Some(va);
      assert va <= k <= next < k + v.locs[k].size;
    }
  }

  lemma ReachedAligned(v: View, x: nat)
    requires ViewValid(v) && Tidy(v) && Reached(v, x)
    ensures Aligned(v, x)
  {
    if x !in v.to {
      var p :| EndsBefore(v, p, x);
      NextAligned(v, p);
    }
  }

  lemma {:induction false} AsksReached(v: View, va: nat)
    requires ViewValid(v) && Tidy(v) && Aligned(v, va)
    ensures forall t | t in Asks(v, va) :: Reached(v, t)
    decreases SPACE - va
  {
    if Flows(v, va) {
      InsnInSpace(v, va);
      NextAligned(v, va);
      AsksReached(v, Next(v, va));
    } else if IsInsn(v, va) && v.canParse(va) {
      TargetsKnown(v, From(v.from, va));
      assert EndsBefore(v, va, Next(v, va));
    }
  }

  lemma StartsReached(v: View, entry: nat, d: set<nat>)
    requires ViewValid(v) && Tidy(v) && IsReach(v, entry, d) && Aligned(v, entry)
    ensures forall s | s in d :: Aligned(v, s) && (s == entry || Reached(v, s))
  {
    var e := set s | s in d && Aligned(v, s) && (s == entry || Reached(v, s));
    forall s, t | s in e && t in Asks(v, s) ensures t in e {
      AsksReached(v, s);
      ReachedAligned(v, t);
    }
    assert entry in e && ClosedUnderWalk(v, e);
    assert d <= e;
  }

  lemma {:induction false} RunAligned(v: View, c: seq<nat>, start: nat, stop: nat, k: nat)
    requires ViewValid(v) && Tidy(v) && IsRunOf(v, c, start, stop) && Aligned(v, start) && k < |c|
    ensures c[k] in v.locs && IsInsn(v, c[k])
  {
    assert RunStep(v, c, stop, k);
    if k > 0 {
      RunAligned(v, c, start, stop, k - 1);
      assert RunStep(v, c, stop, k - 1);
      NextAligned(v, c[k - 1]);
    }
  }

  /** Every address of a run lies in one of its instructions. */
  lemma {:induction false} RunCovers(v: View, c: seq<nat>, start: nat, stop: nat, x: nat, k: nat) returns (i: nat)
    requires ViewValid(v) && IsRunOf(v, c, start, stop) && k < |c| && c[k] <= x < stop
    ensures k <= i < |c| && IsInsn(v, c[i]) && c[i] <= x < Next(v, c[i])
    decreases |c| - k
  {
    assert RunStep(v, c, stop, k);
    if x < Next(v, c[k]) {
      i := k;
    } else {
      i := RunCovers(v, c, start, stop, x, k + 1);
    }
  }

  /** An instruction start inside a block is one of the block's boundaries. */
  lemma InsideIsBoundary(v: View, c: seq<nat>, start: nat, stop: nat, x: nat) returns (i: nat)
    requires ViewValid(v) && Tidy(v) && IsRunOf(v, c, start, stop) && Aligned(v, start)
    requires start <= x < stop && x in v.locs && IsInsn(v, x)
    ensures i < |c| && c[i] == x
  {
    i := RunCovers(v, c, start, stop, x, 0);
    RunAligned(v, c, start, stop, i);
    assert Floor(v.locs, c[i]) == Some(c[i]);
  }

  lemma ReachedIsNotInside(v: View, s: nat, x: nat)
    requires ViewValid(v) && Tidy(v) && Aligned(v, s) && Reached(v, x)
    requires BlockSize(v, s) > 0 && BlockSize(v, x) > 0 && s < x
    ensures s + BlockSize(v, s) <= x
  {
    ReachedAligned(v, x);
    ChainIsRun(v, s);
    ChainIsRun(v, x);
    var c, stop := Chain(v, s), Stop(v, s);
    assert RunStep(v, Chain(v, x), Stop(v, x), 0);
    if x < stop { NotInsideRun(v, c, s, stop, x); }
  }

  lemma NotInsideRun(v: View, c: seq<nat>, s: nat, stop: nat, x: nat)
    requires ViewValid(v) && Tidy(v) && IsRunOf(v, c, s, stop) && Aligned(v, s)
    requires Reached(v, x) && x in v.locs && IsInsn(v, x) && s < x
    ensures stop <= x
  {
    if x < stop {
      var i := InsideIsBoundary(v, c, s, stop, x);
      assert RunStep(v, c, stop, i - 1);
      var p :| EndsBefore(v, p, x);
      RunAligned(v, c, s, stop, i - 1);
      SamePredecessor(v, p, c[i - 1]);
    }
  }

  lemma SamePredecessor(v: View, p: nat, q: nat)
    requires ViewValid(v) && Tidy(v) && p in v.locs && q in v.locs && IsInsn(v, p) && IsInsn(v, q)
    requires Next(v, p) == Next(v, q)
    ensures p == q
  {
    assert Floor(v.locs, p) == Some(p) && Floor(v.locs, q) == Some(q);
    InsnInSpace(v, p);
    InsnInSpace(v, q);
  }

  /** Some block of the function flows into the function's own entry. */
  ghost predicate FlowsIntoEntry(v: View, entry: nat, d: set<nat>)
    requires ViewValid(v)
  {
    exists s | s in d && BlockSize(v, s) > 0 :: entry in Chain(v, s) && entry != s
  }

  /** A walk that passes through x stops where the walk from x does. */
  lemma {:induction false} ChainThrough(v: View, start: nat, x: nat)
    requires ViewValid(v) && x in Chain(v, start)
    ensures start <= x < Stop(v, x) == Stop(v, start) && (Breaks(v, x) <==> Breaks(v, start))
    decreases SPACE - start
  {
    if IsInsn(v, start) { InsnInSpace(v, start); }
    if Flows(v, start) && x != start {
      ChainThrough(v, Next(v, start), x);
    } else if Flows(v, start) {
      StopPastFirst(v, start);
    }
  }

  lemma StopPastFirst(v: View, start: nat)
    requires ViewValid(v) && Flows(v, start)
    ensures start < Stop(v, start)
  {
    InsnInSpace(v, start);
    assert Next(v, start) <= Stop(v, Next(v, start));
  }

  /** With disjoint instructions, and edges and entry on instruction starts only, the blocks
      of a function are pairwise disjoint exactly when none of them flows into the entry. */
  lemma BlocksAreDisjoint(v: View, entry: nat, d: set<nat>, blocks: seq<CodeBlock>)
    requires ViewValid(v) && Tidy(v) && Aligned(v, entry)
    requires IsReach(v, entry, d) && IsRegistration(v, entry, d, blocks)
    ensures (forall i, j | 0 <= i < j < |blocks| :: blocks[i].va + blocks[i].size <= blocks[j].va)
       <==> !FlowsIntoEntry(v, entry, d)
  {
    StartsReached(v, entry, d);
    if FlowsIntoEntry(v, entry, d) {
      var s :| s in d && BlockSize(v, s) > 0 && entry in Chain(v, s) && entry != s;
      ChainThrough(v, s, entry);
      assert s in Starts(blocks) && entry in Starts(blocks);
      var b, c :| b in blocks && b.va == s && c in blocks && c.va == entry;
      var i, j :| 0 <= i < |blocks| && blocks[i] == b && 0 <= j < |blocks| && blocks[j] == c;
      assert i < j && blocks[i].va + blocks[i].size > blocks[j].va;
    } else {
      forall i, j | 0 <= i < j < |blocks| ensures blocks[i].va + blocks[i].size <= blocks[j].va {
        BlockEndsBefore(v, entry, d, blocks, i, j);
      }
    }
  }

  lemma BlockEndsBefore(v: View, entry: nat, d: set<nat>, blocks: seq<CodeBlock>, i: nat, j: nat)
    requires ViewValid(v) && Tidy(v) && Aligned(v, entry) && IsRegistration(v, entry, d, blocks)
    requires forall s | s in d :: Aligned(v, s) && (s == entry || Reached(v, s))
    requires !FlowsIntoEntry(v, entry, d) && i < j < |blocks|
    ensures blocks[i].va + blocks[i].size <= blocks[j].va
  {
    StartsHas(blocks, i);
    StartsHas(blocks, j);
    if blocks[j].va == entry {
      EntryIsNotInside(v, blocks[i].va, entry);
    } else {
      ReachedIsNotInside(v, blocks[i].va, blocks[j].va);
    }
  }

  lemma EntryIsNotInside(v: View, s: nat, entry: nat)
    requires ViewValid(v) && Tidy(v) && Aligned(v, s) && Aligned(v, entry) && entry !in Chain(v, s)
    requires BlockSize(v, s) > 0 && BlockSize(v, entry) > 0 && s < entry
    ensures s + BlockSize(v, s) <= entry
  {
    ChainIsRun(v, s);
    ChainIsRun(v, entry);
    assert RunStep(v, Chain(v, entry), Stop(v, entry), 0);
    if entry < Stop(v, s) {
      var i := InsideIsBoundary(v, Chain(v, s), s, Stop(v, s), entry);
      assert false;
    }
  }

  /** An edge to the entry is enough: no block flows past an edge target. */
  lemma EdgeToEntry(v: View, entry: nat, d: set<nat>)
    requires ViewValid(v) && entry in v.to
    ensures !FlowsIntoEntry(v, entry, d)
  {
    forall s | s in d && BlockSize(v, s) > 0 && entry in Chain(v, s) ensures entry == s {
      BlockIsMaximalRun(v, s);
      var c := Chain(v, s);
      var k :| 0 <= k < |c| && c[k] == entry;
    }
  }

  /** Two instructions of four bytes: the one at 4 jumps to the one at 0, which falls into it. */
  ghost function BackwardJump(): (v: View)
    ensures ViewValid(v)
  {
    var from := map[4 := [CodeXref(4, 0, {})]];
    assert IsTarget(from, 0) by { assert 4 in from && from[4][0].to == 0; }
    View(map[0 := Location(0, 4, Op), 4 := Location(4, 4, Op)], from, {0}, va => va == 4, va => true)
  }

  /** Entered at 4 without an edge leading there, it is recovered with two blocks that overlap. */
  lemma EntryWithoutEdge(d: set<nat>, blocks: seq<CodeBlock>)
    requires IsReach(BackwardJump(), 4, d) && IsRegistration(BackwardJump(), 4, d, blocks)
    ensures Tidy(BackwardJump()) && Aligned(BackwardJump(), 4)
    ensures CodeBlock(0, 8, 4) in blocks && CodeBlock(4, 4, 4) in blocks
  {
    var v := BackwardJump();
    BackwardIsTidy();
    BackwardAsks();
    BackwardSizes();
    hide Asks, BlockSize, Aligned;
    assert d == {0, 4} by {
      assert ClosedUnderWalk(v, {0, 4});
      assert 0 in Asks(v, 4);
    }
    assert 0 in Starts(blocks) && 4 in Starts(blocks);
  }

  lemma BackwardIsTidy()
    ensures Tidy(BackwardJump()) && Aligned(BackwardJump(), 4)
  {
    hide Floor;
  }

  lemma BackwardSteps()
    ensures var v := BackwardJump();
      && IsInsn(v, 4) && Next(v, 4) == 8 && BranchesAt(v, 4) == [0] && EndsFlow(v, 4) && !Flows(v, 4)
    ensures var v := BackwardJump(); IsInsn(v, 0) && Next(v, 0) == 4 && BranchesAt(v, 0) == [] && Flows(v, 0)
  {
    var v := BackwardJump();
    assert Floor(v.locs, 4) == Some(4) && Floor(v.locs, 0) == Some(0);
    assert From(v.from, 4) == [CodeXref(4, 0, {})];
    assert Targets(From(v.from, 4)) == [0];
  }

  lemma BackwardAsks()
    ensures Asks(BackwardJump(), 4) == [0] && Asks(BackwardJump(), 0) == [0]
  {
    BackwardSteps();
    hide IsInsn, Flows, BranchesAt, Floor;
  }

  lemma BackwardSizes()
    ensures BlockSize(BackwardJump(), 4) == 4 && BlockSize(BackwardJump(), 0) == 8
  {
    BackwardSteps();
    hide IsInsn, Flows, BranchesAt, Floor;
  }
}
