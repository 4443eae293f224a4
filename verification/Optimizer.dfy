/** Reordering a rule's children by evaluation cost. */
module Optimizer {
  import opened Features
  import opened Engine
  import opened Rules
  import opened Sorting

  function FeatureCost(f: Feature): nat {
    match f
    case Text(tag, _) =>
      if tag == Os || tag == Arch || tag == Format then 0
      else if tag == Substring || tag == Regex then 2
      else 1
    case Bytes(_) => 2
    case _ => 1
  }

  function NodeCost(s: Statement): nat
    decreases s, 1
  {
    match s
    case Leaf(f) => FeatureCost(f)
    case Range(f, _, _) => 1 + FeatureCost(f)
    case Not(kid) => 1 + NodeCost(kid)
    case And(kids) => 1 + TotalCost(kids)
    case Or(kids) => 1 + TotalCost(kids)
    case AtLeast(_, kids) => 1 + TotalCost(kids)
    case Subscope(_, _) => 1
  }

  function TotalCost(kids: seq<Statement>): nat
    decreases kids, 0
  {
    if kids == [] then 0 else NodeCost(kids[0]) + TotalCost(kids[1..])
  }

  predicate Cheaper(a: Statement, b: Statement) { NodeCost(a) < NodeCost(b) }

  /** Sorts the root's children, looking through negations only. */
  function Optimize(s: Statement): Statement {
    match s
    case And(kids) => And(StableSort(kids, Cheaper))
    case Or(kids) => Or(StableSort(kids, Cheaper))
    case AtLeast(n, kids) => AtLeast(n, StableSort(kids, Cheaper))
    case Not(kid) => Not(Optimize(kid))
    case _ => s
  }

  lemma CheaperIsOrder()
    ensures StrictWeakOrder(Cheaper)
  {
  }

  /** How many children hold is a property of the multiset of children. */
  lemma {:induction false} HoldCountInsert(rx: Search, x: Statement, kids: seq<Statement>, fs: FeatureMap)
    ensures HoldCount(rx, Insert(x, kids, Cheaper), fs) == HoldCount(rx, kids, fs) + (if Holds(rx, x, fs) then 1 else 0)
  {
    if kids != [] && !Cheaper(x, kids[0]) {
      HoldCountInsert(rx, x, kids[1..], fs);
    }
    assert ([x] + kids)[1..] == kids;
  }

  lemma {:induction false} HoldCountSorted(rx: Search, kids: seq<Statement>, fs: FeatureMap)
    ensures HoldCount(rx, StableSort(kids, Cheaper), fs) == HoldCount(rx, kids, fs)
  {
    if kids != [] {
      var front, x := kids[..|kids| - 1], kids[|kids| - 1];
      HoldCountSorted(rx, front, fs);
      HoldCountInsert(rx, x, StableSort(front, Cheaper), fs);
      HoldCountSnoc(rx, front, x, fs);
      assert kids == front + [x];
    }
  }

  lemma {:induction false} HoldCountSnoc(rx: Search, kids: seq<Statement>, x: Statement, fs: FeatureMap)
    ensures HoldCount(rx, kids + [x], fs) == HoldCount(rx, kids, fs) + (if Holds(rx, x, fs) then 1 else 0)
  {
    if kids != [] {
      HoldCountSnoc(rx, kids[1..], x, fs);
      assert (kids + [x])[1..] == kids[1..] + [x];
    }
  }

  lemma SortedMembers(kids: seq<Statement>)
    ensures forall k :: k in StableSort(kids, Cheaper) <==> k in kids
  {
    CheaperIsOrder();
    StableSortCorrect(kids, Cheaper);
    forall k ensures k in StableSort(kids, Cheaper) <==> k in kids {
      assert k in StableSort(kids, Cheaper) <==> k in multiset(StableSort(kids, Cheaper));
      assert k in kids <==> k in multiset(kids);
    }
  }

  /** Reordering changes neither the verdict nor the places reported. */
  lemma {:induction false} OptimizeKeepsMeaning(rx: Search, s: Statement, fs: FeatureMap)
    ensures Holds(rx, Optimize(s), fs) == Holds(rx, s, fs)
    ensures Locations(rx, Optimize(s), fs) == Locations(rx, s, fs)
  {
    match s
    case Not(kid) => OptimizeKeepsMeaning(rx, kid, fs);
    case And(kids) => SortedMembers(kids);
    case Or(kids) => SortedMembers(kids);
    case AtLeast(_, kids) =>
      SortedMembers(kids);
      HoldCountSorted(rx, kids, fs);
    case _ =>
  }

  /** Nor the names the tree refers to, nor whether it still holds a subscope. */
  lemma {:induction false} OptimizeKeepsShape(s: Statement)
    ensures forall x :: x in Refs(Optimize(s)) <==> x in Refs(s)
    ensures SubscopeFree(Optimize(s)) == SubscopeFree(s)
  {
    match s
    case Not(kid) => OptimizeKeepsShape(kid);
    case And(kids) => SortedRefs(kids);
    case Or(kids) => SortedRefs(kids);
    case AtLeast(_, kids) => SortedRefs(kids);
    case _ =>
  }

  lemma SortedRefs(kids: seq<Statement>)
    ensures forall k :: k in StableSort(kids, Cheaper) <==> k in kids
    ensures forall x :: x in RefsOfAll(StableSort(kids, Cheaper)) <==> x in RefsOfAll(kids)
  {
    SortedMembers(kids);
    forall x ensures x in RefsOfAll(StableSort(kids, Cheaper)) <==> x in RefsOfAll(kids) {
      RefsFromKid(kids, x);
      RefsFromKid(StableSort(kids, Cheaper), x);
    }
  }

  lemma {:induction false} RefsFromKid(kids: seq<Statement>, x: string)
    ensures x in RefsOfAll(kids) <==> exists k :: k in kids && x in Refs(k)
  {
    if kids != [] {
      RefsFromKid(kids[1..], x);
      assert kids[0] in kids;
      assert forall k :: k in kids <==> k == kids[0] || k in kids[1..];
    }
  }

  /** The children come out cheapest first, equal costs in source order. */
  lemma OptimizeSorts(kids: seq<Statement>)
    ensures Sorted(StableSort(kids, Cheaper), Cheaper)
    ensures multiset(StableSort(kids, Cheaper)) == multiset(kids)
    ensures forall y :: Ties(StableSort(kids, Cheaper), y, Cheaper) == Ties(kids, y, Cheaper)
  {
    CheaperIsOrder();
    StableSortCorrect(kids, Cheaper);
  }

  // ----- the order of the costs

  /** What is known of the whole sample. */
  predicate IsGlobal(f: Feature) { f.Text? && (f.tag == Os || f.tag == Arch || f.tag == Format) }

  /** What is decided by scanning the strings or bytes found. */
  predicate IsScan(f: Feature) { f.Bytes? || (f.Text? && (f.tag == Substring || f.tag == Regex)) }

  /** Global features cost less than lookups, and lookups less than scans. */
  lemma CostOrder(a: Feature, b: Feature)
    ensures FeatureCost(a) < FeatureCost(b) <==> (IsGlobal(a) && !IsGlobal(b)) || (!IsScan(a) && IsScan(b))
  {
  }

  function Kids(s: Statement): seq<Statement> {
    match s
    case And(kids) => kids
    case Or(kids) => kids
    case AtLeast(_, kids) => kids
    case Not(kid) => [kid]
    case _ => []
  }

  /** A compound costs more than any of its children, and no less than all of them. */
  lemma CompoundCost(s: Statement, k: Statement)
    requires k in Kids(s)
    ensures NodeCost(k) < NodeCost(s) == 1 + TotalCost(Kids(s))
  {
    if s.Not? { assert [k][1..] == []; }
    TotalAbove(Kids(s), k);
  }

  lemma {:induction false} TotalAbove(kids: seq<Statement>, k: Statement)
    requires k in kids
    ensures NodeCost(k) <= TotalCost(kids)
  {
    if kids[0] != k { TotalAbove(kids[1..], k); }
  }

  /** What reordering does to a node: its children come out cheapest first, equal costs in
      source order, and a negation is looked through; nothing else changes. */
  lemma OptimizedNode(s: Statement)
    ensures Sorted(Kids(Optimize(s)), Cheaper)
    ensures s.And? || s.Or? || s.AtLeast? ==>
      && multiset(Kids(Optimize(s))) == multiset(Kids(s))
      && forall y :: Ties(Kids(Optimize(s)), y, Cheaper) == Ties(Kids(s), y, Cheaper)
    ensures match s
      case And(_) => Optimize(s).And?
      case Or(_) => Optimize(s).Or?
      case AtLeast(n, _) => Optimize(s).AtLeast? && Optimize(s).count == n
      case Not(kid) => Optimize(s) == Not(Optimize(kid))
      case _ => Optimize(s) == s
  {
    if s.And? || s.Or? || s.AtLeast? { OptimizeSorts(Kids(s)); }
  }

  /** Among the features of a reordered node the global ones come first and the scans last. */
  lemma FeaturesByClass(s: Statement, i: nat, j: nat)
    requires i < j < |Kids(Optimize(s))| && Kids(Optimize(s))[i].Leaf? && Kids(Optimize(s))[j].Leaf?
    ensures var a, b := Kids(Optimize(s))[i].feature, Kids(Optimize(s))[j].feature;
      (IsGlobal(b) ==> IsGlobal(a)) && (IsScan(a) ==> IsScan(b))
  {
    OptimizedNode(s);
    CostOrder(Kids(Optimize(s))[j].feature, Kids(Optimize(s))[i].feature);
  }
}
