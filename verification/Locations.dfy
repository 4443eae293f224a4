/** The location database and the code cross-references that code discovery shares. */
module Locations {
  import opened Features

  datatype LocType = Op | Pointer | StringData | UnicodeData | NumberData | Pad | ImportEntry

  datatype Location = Location(va: nat, size: nat, kind: LocType)

  type LocationMap = map<nat, Location>

  /** The greatest start not past va. */
  function Floor(locs: LocationMap, va: nat): (k: Option<nat>)
    ensures k.Some? ==> k.value <= va && k.value in locs
    ensures forall j | j in locs && j <= va :: k.Some? && j <= k.value
  {
    if va in locs then Some(va)
    else if va == 0 then None
    else Floor(locs, va - 1)
  }

  /** The location whose bytes contain va, by one lookup. */
  function Get(locs: LocationMap, va: nat): (r: Option<Location>)
    ensures r.Some? ==> r.value.va <= va < r.value.va + r.value.size
  {
    var k := Floor(locs, va);
    if k.None? then None
    else
      var loc := locs[k.value];
      if loc.va <= va < loc.va + loc.size then Some(loc) else None
  }

  predicate Defined(locs: LocationMap, va: nat) { Get(locs, va).Some? }

  /** Every location is filed under its own start. */
  predicate Filed(locs: LocationMap) {
    forall k | k in locs :: locs[k].va == k
  }

  function Put(locs: LocationMap, va: nat, size: nat, kind: LocType): LocationMap {
    locs[va := Location(va, size, kind)]
  }

  lemma {:induction false} FloorPut(locs: LocationMap, va: nat, size: nat, kind: LocType, x: nat)
    ensures Floor(Put(locs, va, size, kind), x) ==
      if va <= x && (Floor(locs, x).None? || Floor(locs, x).value <= va) then Some(va) else Floor(locs, x)
  {
    var k, k' := Floor(locs, x), Floor(Put(locs, va, size, kind), x);
    assert va in Put(locs, va, size, kind);
    if va <= x {
      assert k'.Some? && va <= k'.value;
      if k'.value != va { assert k'.value in locs; }
    }
    if k.Some? { assert k.value in Put(locs, va, size, kind); }
    if k'.Some? && k'.value != va { assert k'.value in locs; }
  }

  /** Defining a range at an undefined address defines that address and everything up to
      the next start, and undefines nothing. */
  lemma PutOnlyAdds(locs: LocationMap, va: nat, size: nat, kind: LocType, x: nat)
    requires Filed(locs) && !Defined(locs, va)
    ensures Filed(Put(locs, va, size, kind))
    ensures Defined(Put(locs, va, size, kind), x) <==>
      Defined(locs, x)
      || (va <= x < va + size && forall k | k in locs :: !(va < k <= x))
  {
    FloorPut(locs, va, size, kind, x);
    var k := Floor(locs, x);
    if va <= x && k.Some? && k.value < va {
      // the floor of x is also the floor of va, whose range stops short of va
      assert Floor(locs, va) == k by {
        assert Floor(locs, va).Some? && Floor(locs, va).value <= k.value;
      }
    }
    if k.Some? && k.value == va && va <= x {
      assert Floor(locs, va) == Some(va);
    }
  }

  class LocationDb {
    var byStart: LocationMap

    constructor ()
      ensures byStart == map[]
    {
      byStart := map[];
    }

    method AddLocation(va: nat, size: nat, kind: LocType)
      modifies this
      ensures byStart == Put(old(byStart), va, size, kind)
    {
      byStart := byStart[va := Location(va, size, kind)];
    }

    method GetLocation(va: nat) returns (loc: Option<Location>)
      ensures loc == Get(byStart, va)
    {
      loc := Get(byStart, va);
    }

    method IsLocation(va: nat) returns (found: bool)
      requires Filed(byStart)
      ensures found <==> va in byStart && byStart[va].size > 0
    {
      var loc := GetLocation(va);
      found := loc.Some? && loc.value.va == va;
    }
  }

  // ----- code cross-references

  /** The branch bits: a flags word is the set of those that are on. */
  datatype BranchBit = Proc | Cond | Deref | TableBase | Fall

  type BranchFlags = set<BranchBit>

  datatype CodeXref = CodeXref(from: nat, to: nat, flags: BranchFlags)

  type XrefMap = map<nat, seq<CodeXref>>

  function From(xrefs: XrefMap, va: nat): seq<CodeXref> {
    if va in xrefs then xrefs[va] else []
  }

  /** The flags of the edge, if there is one. */
  function EdgeFlags(edges: seq<CodeXref>, to: nat): Option<BranchFlags> {
    if edges == [] then None
    else if edges[0].to == to then Some(edges[0].flags)
    else EdgeFlags(edges[1..], to)
  }

  /** One edge gained the flags, becoming an edge if it was none; nothing else changed. */
  ghost predicate EdgeAdded(was: XrefMap, now: XrefMap, source: nat, target: nat, flags: BranchFlags) {
    && (forall va | va != source :: From(now, va) == From(was, va))
    && (forall t | t != target :: EdgeFlags(From(now, source), t) == EdgeFlags(From(was, source), t))
    && (var f := EdgeFlags(From(was, source), target);
        EdgeFlags(From(now, source), target) == Some(if f.Some? then f.value + flags else flags))
  }

  class XrefDb {
    var from: XrefMap
    var to: set<nat>

    /** One entry per edge, and the target set is exactly the targets. */
    ghost predicate Valid()
      reads this
    {
      XrefsValid(from, to)
    }

    constructor ()
      ensures Valid() && from == map[] && to == {}
    {
      from, to := map[], {};
    }

    /** A repeated edge accumulates its flags instead of being duplicated. */
    method AddCodeXref(source: nat, target: nat, flags: BranchFlags)
      requires Valid()
      modifies this
      ensures Valid() && to == old(to) + {target}
      ensures EdgeAdded(old(from), from, source, target, flags)
    {
      hide XrefsValid, EdgeAdded, EdgeFlags;
      var edges := From(from, source);
      for i := 0 to |edges|
        invariant from == old(from) && to == old(to)
        invariant forall j | 0 <= j < i :: edges[j].to != target
      {
        if edges[i].to == target {
          MergedEdge(from, to, source, i, flags);
          from := from[source := edges[i := edges[i].(flags := edges[i].flags + flags)]];
          return;
        }
      }
      GrownEdge(from, to, source, target, flags);
      from := from[source := edges + [CodeXref(source, target, flags)]];
      to := to + {target};
    }
  }

  lemma MergedEdge(from: XrefMap, to: set<nat>, source: nat, i: nat, flags: BranchFlags)
    requires XrefsValid(from, to) && i < |From(from, source)|
    requires forall j | 0 <= j < i :: From(from, source)[j].to != From(from, source)[i].to
    ensures var edges := From(from, source);
      var now := from[source := edges[i := edges[i].(flags := edges[i].flags + flags)]];
      && XrefsValid(now, to) && to == to + {edges[i].to}
      && EdgeAdded(from, now, source, edges[i].to, flags)
  {
    var edges := From(from, source);
    EdgeUpdate(edges, i, edges[i].flags + flags);
    ReplacedValid(from, to, source, edges[i := edges[i].(flags := edges[i].flags + flags)], edges[i].to);
    assert to == to + {edges[i].to};
  }

  lemma GrownEdge(from: XrefMap, to: set<nat>, source: nat, target: nat, flags: BranchFlags)
    requires XrefsValid(from, to) && forall j | 0 <= j < |From(from, source)| :: From(from, source)[j].to != target
    ensures var now := from[source := From(from, source) + [CodeXref(source, target, flags)]];
      XrefsValid(now, to + {target}) && EdgeAdded(from, now, source, target, flags)
  {
    var edges := From(from, source);
    var grown := edges + [CodeXref(source, target, flags)];
    EdgeAppend(edges, CodeXref(source, target, flags));
    assert grown[|edges|].to == target;
    ReplacedValid(from, to, source, grown, target);
  }

  /** Replacing one source's edges by a list with the same targets and one more. */
  lemma ReplacedValid(from: XrefMap, to: set<nat>, source: nat, edges: seq<CodeXref>, target: nat)
    requires XrefsValid(from, to)
    requires forall i, j | 0 <= i < j < |edges| :: edges[i].to != edges[j].to
    requires forall i | 0 <= i < |edges| :: edges[i].from == source && edges[i].to in to + {target}
    requires |From(from, source)| <= |edges|
    requires forall i | 0 <= i < |From(from, source)| :: edges[i].to == From(from, source)[i].to
    requires exists i :: 0 <= i < |edges| && edges[i].to == target
    ensures XrefsValid(from[source := edges], to + {target})
  {
    forall t | t in to + {target} ensures IsTarget(from[source := edges], t) {
      if t == target {
        var i :| 0 <= i < |edges| && edges[i].to == target;
        assert source in from[source := edges] && from[source := edges][source][i].to == t;
      } else {
        var va: nat, j: nat :| va in from && 0 <= j < |from[va]| && from[va][j].to == t;
        assert va in from[source := edges] && from[source := edges][va][j].to == t;
      }
    }
  }

  ghost predicate XrefsValid(from: XrefMap, to: set<nat>) {
    && (forall va, i, j | va in from && 0 <= i < j < |from[va]| :: from[va][i].to != from[va][j].to)
    && (forall va, i | va in from && 0 <= i < |from[va]| :: from[va][i].from == va && from[va][i].to in to)
    && (forall t | t in to :: IsTarget(from, t))
  }

  ghost predicate IsTarget(from: XrefMap, t: nat) {
    exists va, i :: va in from && 0 <= i < |from[va]| && from[va][i].to == t
  }

  lemma {:induction false} EdgeUpdate(edges: seq<CodeXref>, i: nat, flags: BranchFlags)
    requires i < |edges| && forall j | 0 <= j < i :: edges[j].to != edges[i].to
    ensures EdgeFlags(edges, edges[i].to) == Some(edges[i].flags)
    ensures var after := edges[i := edges[i].(flags := flags)];
      forall t :: EdgeFlags(after, t) == (if t == edges[i].to then Some(flags) else EdgeFlags(edges, t))
  {
    var after := edges[i := edges[i].(flags := flags)];
    if i == 0 {
      assert after[1..] == edges[1..] && after[0].to == edges[0].to;
    } else {
      EdgeUpdate(edges[1..], i - 1, flags);
      assert after[1..] == edges[1..][i - 1 := edges[i].(flags := flags)];
    }
  }

  lemma {:induction false} EdgeAppend(edges: seq<CodeXref>, e: CodeXref)
    requires forall j | 0 <= j < |edges| :: edges[j].to != e.to
    ensures forall t :: EdgeFlags(edges + [e], t) == if t == e.to then Some(e.flags) else EdgeFlags(edges, t)
    ensures EdgeFlags(edges, e.to) == None
  {
    if edges != [] {
      EdgeAppend(edges[1..], e);
      assert (edges + [e])[1..] == edges[1..] + [e];
    } else {
      assert (edges + [e])[1..] == [];
    }
  }
}
