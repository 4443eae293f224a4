/** Putting producers first is not only enough for a run to record what is true: it is exactly
    what the references of the rules have to satisfy, whatever their trees say. */
module Guards {
  import opened Features
  import opened Engine
  import opened Rules
  import opened Matching
  import opened Fixpoint

  /** Rule by rule the same but for the trees, and these refer to the same names. */
  ghost predicate SameReferences(rules: seq<Rule>, other: seq<Rule>) {
    && |rules| == |other|
    && forall k | 0 <= k < |rules| ::
      && other[k] == rules[k].(statement := other[k].statement)
      && Refs(other[k].statement) == Refs(rules[k].statement)
  }

  /** A run records exactly the rules that are true at its end. */
  ghost predicate RecordsWhatHolds(rx: Search, rules: seq<Rule>, fs: FeatureMap, addr: Address) {
    forall i | 0 <= i < |rules| ::
      rules[i].name in Table(rx, rules, fs, addr) <==> Holds(rx, rules[i].statement, After(rx, rules, fs, addr))
  }

  /** The guard is exact: producers come first if and only if every list with these names and
      references, over every starting set, records what is true at its end. */
  lemma GuardIsExact(rx: Search, rules: seq<Rule>, addr: Address)
    requires DistinctNames(rules)
    ensures WellOrdered(rules) <==>
      forall other, fs | SameReferences(rules, other) :: RecordsWhatHolds(rx, other, fs, addr)
  {
    hide Holds, After, Table, Refs, Names;
    if WellOrdered(rules) {
      forall other: seq<Rule>, fs | SameReferences(rules, other) ensures RecordsWhatHolds(rx, other, fs, addr) {
        SameOrder(rules, other);
        forall i | 0 <= i < |other|
          ensures other[i].name in Table(rx, other, fs, addr) <==>
            Holds(rx, other[i].statement, After(rx, other, fs, addr))
        {
          RecordedIffHolds(rx, other, fs, addr, i);
        }
      }
    } else {
      var i, j, x :| 0 <= i <= j < |rules| && x in Refs(rules[i].statement) && x in Names(rules[j]);
      var other := UnguardedBreaks(rx, rules, i, j, x, addr);
      assert !RecordsWhatHolds(rx, other, map[], addr);
    }
  }

  lemma SameOrder(rules: seq<Rule>, other: seq<Rule>)
    requires SameReferences(rules, other) && WellOrdered(rules) && DistinctNames(rules)
    ensures WellOrdered(other) && DistinctNames(other)
  {
    hide Refs, Hierarchy;
    assert forall k | 0 <= k < |rules| :: Names(other[k]) == Names(rules[k]);
  }

  // ----- trees that break an unguarded list

  function Leaves(refs: seq<string>): seq<Statement> {
    seq(|refs|, k requires 0 <= k < |refs| => Leaf(Match(refs[k])))
  }

  lemma {:induction false} LeavesRefer(refs: seq<string>)
    ensures RefsOfAll(Leaves(refs)) == refs
  {
    if refs != [] {
      assert Leaves(refs)[1..] == Leaves(refs[1..]);
      LeavesRefer(refs[1..]);
    }
  }

  function Always(refs: seq<string>): Statement { AtLeast(0, Leaves(refs)) }

  function Never(refs: seq<string>): Statement { Not(Always(refs)) }

  /** Refers to all the names, and is true exactly when the name at p was not announced. */
  function Absent(refs: seq<string>, p: nat): Statement
    requires p < |refs|
  {
    And([Always(refs[..p]), Not(Leaf(Match(refs[p]))), Always(refs[p + 1..])])
  }

  lemma ConstantTrees(rx: Search, refs: seq<string>, fs: FeatureMap)
    ensures Refs(Always(refs)) == refs && SubscopeFree(Always(refs)) && Holds(rx, Always(refs), fs)
    ensures Refs(Never(refs)) == refs && SubscopeFree(Never(refs)) && !Holds(rx, Never(refs), fs)
  {
    LeavesRefer(refs);
  }

  lemma AbsentTree(rx: Search, refs: seq<string>, p: nat, fs: FeatureMap)
    requires p < |refs|
    ensures Refs(Absent(refs, p)) == refs && SubscopeFree(Absent(refs, p))
    ensures Holds(rx, Absent(refs, p), fs) <==> Match(refs[p]) !in fs
  {
    var first, mid, last := Always(refs[..p]), Not(Leaf(Match(refs[p]))), Always(refs[p + 1..]);
    ConstantTrees(rx, refs[..p], fs);
    ConstantTrees(rx, refs[p + 1..], fs);
    NegationHolds(rx, refs[p], fs);
    hide Always, Holds, Refs;
    ThreeRefs(first, mid, last);
    ThreeHold(rx, first, mid, last, fs);
    MidRefers(refs[p]);
    assert refs == refs[..p] + [refs[p]] + refs[p + 1..];
  }

  lemma MidRefers(x: string)
    ensures Refs(Not(Leaf(Match(x)))) == [x]
  {
  }

  lemma ThreeRefs(a: Statement, b: Statement, c: Statement)
    ensures Refs(And([a, b, c])) == Refs(a) + Refs(b) + Refs(c)
  {
    assert [a, b, c][1..] == [b, c] && [b, c][1..] == [c] && [c][1..] == [];
    assert RefsOfAll([c]) == Refs(c) + RefsOfAll([]);
    assert RefsOfAll([b, c]) == Refs(b) + RefsOfAll([c]);
    assert RefsOfAll([a, b, c]) == Refs(a) + RefsOfAll([b, c]);
  }

  lemma ThreeHold(rx: Search, a: Statement, b: Statement, c: Statement, fs: FeatureMap)
    ensures Holds(rx, And([a, b, c]), fs) <==> Holds(rx, a, fs) && Holds(rx, b, fs) && Holds(rx, c, fs)
    ensures SubscopeFree(And([a, b, c])) <==> SubscopeFree(a) && SubscopeFree(b) && SubscopeFree(c)
  {
    var kids := [a, b, c];
    assert a in kids && b in kids && c in kids && forall k | k in kids :: k == a || k == b || k == c;
  }

  /** Rule i asks that the name at p be absent, rule j is always true, no other rule is. */
  function Breaking(rules: seq<Rule>, i: nat, j: nat, p: nat): (other: seq<Rule>)
    requires i < |rules| && p < |Refs(rules[i].statement)|
    ensures |other| == |rules|
  {
    seq(|rules|, k requires 0 <= k < |rules| =>
      var refs := Refs(rules[k].statement);
      rules[k].(statement := if k == i then Absent(refs, p) else if k == j then Always(refs) else Never(refs)))
  }

  /** Where a rule refers to a name that it or a later rule announces, there are trees with
      these very references for which a run from nothing records that rule although it is
      false at the end. */
  lemma UnguardedBreaks(rx: Search, rules: seq<Rule>, i: nat, j: nat, x: string, addr: Address)
    returns (other: seq<Rule>)
    requires i <= j < |rules| && x in Refs(rules[i].statement) && x in Names(rules[j])
    ensures SameReferences(rules, other) && forall r | r in other :: SubscopeFree(r.statement)
    ensures other[i].name in Table(rx, other, map[], addr)
    ensures !Holds(rx, other[i].statement, After(rx, other, map[], addr))
  {
    var refs := Refs(rules[i].statement);
    var p :| 0 <= p < |refs| && refs[p] == x;
    other := Breaking(rules, i, j, p);
    BreakingRefers(rx, rules, i, j, p);
    FirstFires(rx, rules, i, j, p, addr);
    TableKeys(rx, other, map[], addr, other[i].name);
    ProducerFires(rx, rules, i, j, p, addr);
    AbsentTree(rx, refs, p, After(rx, other, map[], addr));
  }

  lemma BreakingRefers(rx: Search, rules: seq<Rule>, i: nat, j: nat, p: nat)
    requires i < |rules| && p < |Refs(rules[i].statement)|
    ensures SameReferences(rules, Breaking(rules, i, j, p))
    ensures forall r | r in Breaking(rules, i, j, p) :: SubscopeFree(r.statement)
  {
    hide Always, Never, Absent, Refs;
    forall k | 0 <= k < |rules|
      ensures var s := Breaking(rules, i, j, p)[k].statement;
        Refs(s) == Refs(rules[k].statement) && SubscopeFree(s)
    {
      ConstantTrees(rx, Refs(rules[k].statement), map[]);
      if k == i { AbsentTree(rx, Refs(rules[i].statement), p, map[]); }
    }
  }

  /** Nothing is announced before rule i, so it fires. */
  lemma FirstFires(rx: Search, rules: seq<Rule>, i: nat, j: nat, p: nat, addr: Address)
    requires i <= j < |rules| && p < |Refs(rules[i].statement)|
    ensures Fires(rx, Breaking(rules, i, j, p), map[], addr, i)
  {
    hide Holds, After, Refs, Always, Never, Absent;
    var other := Breaking(rules, i, j, p);
    forall k | 0 <= k < i ensures !Fires(rx, other[..i], map[], addr, k) {
      ConstantTrees(rx, Refs(rules[k].statement), After(rx, other[..i][..k], map[], addr));
    }
    AfterIsEmitted(rx, other[..i], map[], addr);
    assert FiredNames(rx, other[..i], map[], addr) == {};
    EmittedAt(map[], {}, {addr}, Match(Refs(rules[i].statement)[p]));
    AbsentTree(rx, Refs(rules[i].statement), p, After(rx, other[..i], map[], addr));
  }

  /** By the end the name is announced. */
  lemma ProducerFires(rx: Search, rules: seq<Rule>, i: nat, j: nat, p: nat, addr: Address)
    requires i <= j < |rules| && p < |Refs(rules[i].statement)| && Refs(rules[i].statement)[p] in Names(rules[j])
    ensures Match(Refs(rules[i].statement)[p]) in After(rx, Breaking(rules, i, j, p), map[], addr)
  {
    hide Holds, After, Refs, Always, Never, Absent, Hierarchy;
    var other, x := Breaking(rules, i, j, p), Refs(rules[i].statement)[p];
    FirstFires(rx, rules, i, j, p, addr);
    ConstantTrees(rx, Refs(rules[j].statement), After(rx, other[..j], map[], addr));
    assert Fires(rx, other, map[], addr, j) && x in Names(other[j]);
    AfterIsEmitted(rx, other, map[], addr);
    EmittedAt(map[], FiredNames(rx, other, map[], addr), {addr}, Match(x));
  }
}
