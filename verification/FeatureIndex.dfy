/** The index that narrows a scope's rules to the ones a feature set could match. */
module FeatureIndex {
  import opened Features
  import opened Engine
  import opened Rules
  import opened Matching
  import Fixpoint

  /** A lookup decides the feature, and the match cycle never injects it. */
  predicate Indexable(f: Feature) {
    match f
    case Text(tag, _) => tag !in {Substring, Regex, Os, Arch, MatchedRule}
    case Bytes(_) => false
    case _ => true
  }

  function NumberScore(n: Number): int {
    match n
    case Unsigned(u) => MagnitudeScore(u)
    case Signed(i) => if i < 0 then (if i >= -0x8000 then 3 else 7) else MagnitudeScore(i)
    case Floating(_) => 7
  }

  function MagnitudeScore(x: nat): int {
    if x <= 0x8000 || 0xFFFFFF00 <= x <= 0xFFFFFFFF || x >= 0xFFFF_FFFF_FFFF_FF00 then 3 else 7
  }

  /** Higher means more selective. */
  function Score(f: Feature): int {
    match f
    case Text(tag, _) => (
      match tag
      case String => 9
      case Api => 8
      case Export => 7
      case Class | Namespace | Import | Section | FunctionName => 5
      case Characteristic => 4
      case Mnemonic => 2
      case _ => 0)
    case NumberOf(n) => NumberScore(n)
    case OperandNumber(_, n) => NumberScore(n)
    case PropertyOf(_, _) => 5
    case OffsetOf(_) => 4
    case OperandOffset(_, _) => 4
    case BasicBlock => 1
    case Bytes(_) => 0
  }

  /** Features of which a tree needs at least one; empty when nothing is required. */
  datatype Need = Need(score: int, feats: set<Feature>)

  const NOTHING := Need(0, {})
  const INT_MAX := 0x7FFF_FFFF

  function LeafNeed(f: Feature): Need {
    if Indexable(f) then Need(Score(f), {f}) else NOTHING
  }

  function NeedOf(s: Statement): Need
    decreases s, 1
  {
    match s
    case Leaf(f) => LeafNeed(f)
    case Range(f, min, _) => if min == 0 then NOTHING else LeafNeed(f)
    case And(kids) => BestNeed(kids)
    case Or(kids) => EitherNeed(kids)
    case AtLeast(n, kids) => if n == 0 then NOTHING else EitherNeed(kids)
    case Not(_) => NOTHING
    case Subscope(_, _) => NOTHING
  }

  /** Strictly more selective, ties going to fewer features. */
  predicate Beats(n: Need, best: Need) {
    best.feats == {} || n.score > best.score || (n.score == best.score && |n.feats| < |best.feats|)
  }

  function BestNeed(kids: seq<Statement>): Need
    decreases kids, 0
  {
    if kids == [] then NOTHING
    else
      var best, n := BestNeed(kids[..|kids| - 1]), NeedOf(kids[|kids| - 1]);
      if n.feats != {} && Beats(n, best) then n else best
  }

  function EitherNeed(kids: seq<Statement>): Need {
    if kids == [] || exists k | k in kids :: NeedOf(k).feats == {} then NOTHING
    else Need(LeastScore(kids), AllFeats(kids))
  }

  function AllFeats(kids: seq<Statement>): set<Feature>
    decreases kids, 0
  {
    if kids == [] then {} else AllFeats(kids[..|kids| - 1]) + NeedOf(kids[|kids| - 1]).feats
  }

  function LeastScore(kids: seq<Statement>): int
    decreases kids, 0
  {
    if kids == [] then INT_MAX
    else
      var least, n := LeastScore(kids[..|kids| - 1]), NeedOf(kids[|kids| - 1]);
      if n.score < least then n.score else least
  }

  method ComputeNeed(s: Statement) returns (n: Need)
    ensures n == NeedOf(s)
    decreases s
  {
    match s
    case Leaf(f) => n := LeafNeed(f);
    case Range(f, min, _) => n := if min == 0 then NOTHING else LeafNeed(f);
    case Not(_) => n := NOTHING;
    case Subscope(_, _) => n := NOTHING;
    case And(kids) =>
      n := NOTHING;
      for i := 0 to |kids|
        invariant n == BestNeed(kids[..i])
      {
        assert kids[..i + 1][..i] == kids[..i];
        var kidNeed := ComputeNeed(kids[i]);
        if kidNeed.feats != {} && Beats(kidNeed, n) { n := kidNeed; }
      }
      assert kids[..|kids|] == kids;
    case Or(kids) => n := ComputeEither(s, kids);
    case AtLeast(count, kids) =>
      if count == 0 { return NOTHING; }
      n := ComputeEither(s, kids);
  }

  method ComputeEither(s: Statement, kids: seq<Statement>) returns (n: Need)
    requires (s.Or? || s.AtLeast?) && s.kids == kids
    ensures n == EitherNeed(kids)
    decreases s, 0
  {
    n := Need(INT_MAX, {});
    for i := 0 to |kids|
      invariant n == Need(LeastScore(kids[..i]), AllFeats(kids[..i]))
      invariant forall j | 0 <= j < i :: NeedOf(kids[j]).feats != {}
    {
      assert kids[..i + 1][..i] == kids[..i];
      var kidNeed := ComputeNeed(kids[i]);
      if kidNeed.feats == {} {
        assert kids[i] in kids;
        return NOTHING;
      }
      n := Need(if kidNeed.score < n.score then kidNeed.score else n.score, n.feats + kidNeed.feats);
    }
    assert kids[..|kids|] == kids;
    assert kids == [] || NeedOf(kids[|kids| - 1]).feats <= n.feats;
    if n.feats == {} { n := NOTHING; }
  }

  // ----- what the need means

  /** A tree that holds has one of its needed features in the set, and every needed
      feature is one a lookup decides. */
  lemma {:induction false} NeedIsNecessary(rx: Search, s: Statement, fs: FeatureMap)
    ensures forall f | f in NeedOf(s).feats :: Indexable(f)
    ensures NeedOf(s).feats != {} && Holds(rx, s, fs) ==> exists f :: f in NeedOf(s).feats && f in fs
    decreases s, 1
  {
    match s
    case Leaf(f) =>
      if Indexable(f) && Holds(rx, s, fs) {
        assert forall e :: Satisfies(rx, f, e) ==> e == f;
        assert f in NeedOf(s).feats && f in fs;
      }
    case Range(f, min, _) =>
      if min > 0 && Indexable(f) && Holds(rx, s, fs) {
        assert f in NeedOf(s).feats && f in fs;
      }
    case And(kids) =>
      BestNeedIsNecessary(rx, s, kids, fs);
      assert NeedOf(s) == BestNeed(kids);
    case Or(kids) =>
      EitherNeedIsNecessary(rx, s, kids, fs);
      HoldCountPositive(rx, kids, fs);
    case AtLeast(n, kids) =>
      if n > 0 { EitherNeedIsNecessary(rx, s, kids, fs); }
    case _ =>
  }

  lemma {:induction false} BestNeedIsNecessary(rx: Search, s: Statement, kids: seq<Statement>, fs: FeatureMap)
    requires forall k | k in kids :: k < s
    ensures forall f | f in BestNeed(kids).feats :: Indexable(f)
    ensures BestNeed(kids).feats != {} && (forall k | k in kids :: Holds(rx, k, fs)) ==>
      exists f :: f in BestNeed(kids).feats && f in fs
    decreases s, 0, |kids|
  {
    if kids != [] {
      var front, last := kids[..|kids| - 1], kids[|kids| - 1];
      assert last in kids && forall k | k in front :: k in kids;
      BestNeedIsNecessary(rx, s, front, fs);
      NeedIsNecessary(rx, last, fs);
    }
  }

  lemma {:induction false} EitherNeedIsNecessary(rx: Search, s: Statement, kids: seq<Statement>, fs: FeatureMap)
    requires forall k | k in kids :: k < s
    ensures forall f | f in EitherNeed(kids).feats :: Indexable(f)
    ensures EitherNeed(kids).feats != {} && 1 <= HoldCount(rx, kids, fs) ==>
      exists f :: f in EitherNeed(kids).feats && f in fs
    decreases s, 0
  {
    if EitherNeed(kids).feats != {} {
      forall k | k in kids
        ensures forall f | f in NeedOf(k).feats :: Indexable(f)
        ensures Holds(rx, k, fs) ==> exists f :: f in EitherNeed(kids).feats && f in fs
      {
        NeedIsNecessary(rx, k, fs);
        if Holds(rx, k, fs) {
          var f :| f in NeedOf(k).feats && f in fs;
          AllFeatsMember(kids, f);
        }
      }
      forall f | f in EitherNeed(kids).feats ensures Indexable(f) { AllFeatsMember(kids, f); }
      HoldCountPositive(rx, kids, fs);
    }
  }

  lemma {:induction false} AllFeatsMember(kids: seq<Statement>, f: Feature)
    ensures f in AllFeats(kids) <==> exists k :: k in kids && f in NeedOf(k).feats
  {
    if kids != [] {
      var front, last := kids[..|kids| - 1], kids[|kids| - 1];
      AllFeatsMember(front, f);
      assert kids == front + [last] && last in kids;
      assert forall k :: k in kids <==> k in front || k == last;
    }
  }

  /** An and is indexed by its most selective constrained child. */
  lemma {:induction false} AndTakesMostSelective(kids: seq<Statement>, k: Statement)
    requires k in kids && NeedOf(k).feats != {}
    ensures var best := BestNeed(kids);
      && best.feats != {}
      && !Beats(NeedOf(k), best)
      && exists j :: j in kids && NeedOf(j) == best
  {
    var front, last := kids[..|kids| - 1], kids[|kids| - 1];
    assert last in kids && forall j | j in front :: j in kids;
    assert kids == front + [last];
    if k in front {
      AndTakesMostSelective(front, k);
    } else if BestNeed(front).feats != {} {
      BestIsSome(front);
    }
  }

  lemma {:induction false} BestIsSome(kids: seq<Statement>)
    requires BestNeed(kids).feats != {}
    ensures exists j :: j in kids && NeedOf(j) == BestNeed(kids)
  {
    var front, last := kids[..|kids| - 1], kids[|kids| - 1];
    assert last in kids && forall j | j in front :: j in kids;
    if NeedOf(last) != BestNeed(kids) { BestIsSome(front); }
  }

  // ----- what is indexed

  /** In every feature set the feature matches exactly if it is present. */
  ghost predicate DecidedByLookup(f: Feature) { forall rx: Search, fs: FeatureMap :: Matches(rx, f, fs) <==> f in fs }

  /** A set in which the feature matches although it is absent. */
  ghost predicate MatchesUnseen(rx: Search, f: Feature, fs: FeatureMap) { Matches(rx, f, fs) && f !in fs }

  lemma Unseen(f: Feature) returns (rx: Search, fs: FeatureMap)
    requires f.Bytes? || (f.Text? && f.tag in {Substring, Regex, Os})
    ensures MatchesUnseen(rx, f, fs)
  {
    rx := (p, s) => true;
    var e := match f
      case Bytes(bytes) => Bytes(bytes + [0])
      case Text(tag, text) =>
        if tag != Os then Text(String, text) else if f == ANY_OS then Text(Os, "") else ANY_OS
      case _ => f;
    fs := map[e := {}];
    if f.Text? { assert OccursAt(f.text, f.text, 0); }
    assert Satisfies(rx, f, e) && e in fs;
  }

  /** What can be the key of the index: every feature that a lookup decides, save the
      architecture, which is not selective, and match features, which come later. */
  lemma IndexableIs(f: Feature)
    ensures Indexable(f) <==> DecidedByLookup(f) && !f.IsMatch() && !(f.Text? && f.tag == Arch)
  {
    if f.Bytes? || (f.Text? && f.tag in {Substring, Regex, Os}) {
      var rx, fs := Unseen(f);
      assert !DecidedByLookup(f);
    }
  }

  /** Something is required of every match. */
  predicate Constrained(s: Statement) {
    match s
    case Leaf(f) => Indexable(f)
    case Range(f, min, _) => min > 0 && Indexable(f)
    case And(kids) => exists k | k in kids :: Constrained(k)
    case Or(kids) => kids != [] && forall k | k in kids :: Constrained(k)
    case AtLeast(n, kids) => n > 0 && kids != [] && forall k | k in kids :: Constrained(k)
    case _ => false
  }

  /** A tree is indexed exactly if it requires something. */
  lemma {:induction false} NeedIsFound(s: Statement)
    ensures NeedOf(s).feats != {} <==> Constrained(s)
    decreases s
  {
    match s
    case And(kids) =>
      forall k | k in kids ensures NeedOf(k).feats != {} <==> Constrained(k) { NeedIsFound(k); }
      BestIsFound(kids);
    case Or(kids) =>
      forall k | k in kids ensures NeedOf(k).feats != {} <==> Constrained(k) { NeedIsFound(k); }
      if Constrained(s) { EitherTakesAll(kids, kids[0]); }
    case AtLeast(_, kids) =>
      forall k | k in kids ensures NeedOf(k).feats != {} <==> Constrained(k) { NeedIsFound(k); }
      if Constrained(s) { EitherTakesAll(kids, kids[0]); }
    case _ =>
  }

  lemma BestIsFound(kids: seq<Statement>)
    ensures BestNeed(kids).feats != {} <==> exists k | k in kids :: NeedOf(k).feats != {}
  {
    if BestNeed(kids).feats != {} { BestIsSome(kids); }
    if k :| k in kids && NeedOf(k).feats != {} { AndTakesMostSelective(kids, k); }
  }

  ghost predicate OfSome(kids: seq<Statement>, f: Feature) { exists j :: j in kids && f in NeedOf(j).feats }

  ghost predicate ScoreOfSome(kids: seq<Statement>, score: int) { exists j :: j in kids && NeedOf(j).score == score }

  /** A choice requires what any of its children does, and is no more selective than any. */
  lemma {:induction false} EitherTakesAll(kids: seq<Statement>, k: Statement)
    requires k in kids
    ensures NeedOf(k).feats <= AllFeats(kids) && LeastScore(kids) <= NeedOf(k).score
  {
    hide NeedOf;
    var front, last := kids[..|kids| - 1], kids[|kids| - 1];
    assert kids == front + [last];
    if k in front { EitherTakesAll(front, k); }
  }

  /** It requires nothing else, and its score is that of one of them. */
  lemma {:induction false} EitherTakesNoMore(kids: seq<Statement>, f: Feature)
    ensures f in AllFeats(kids) ==> OfSome(kids, f)
    ensures LeastScore(kids) == INT_MAX || ScoreOfSome(kids, LeastScore(kids))
  {
    hide NeedOf;
    if kids != [] {
      var front, last := kids[..|kids| - 1], kids[|kids| - 1];
      EitherTakesNoMore(front, f);
      assert kids == front + [last] && last in kids;
      if f in AllFeats(kids) && f !in NeedOf(last).feats {
        var j :| j in front && f in NeedOf(j).feats;
        assert j in kids;
      }
      if LeastScore(kids) != NeedOf(last).score && LeastScore(kids) != INT_MAX {
        var j :| j in front && NeedOf(j).score == LeastScore(front);
        assert j in kids;
      }
    }
  }

  /** A number is common when it is small in size, or small and negative as a word of 32 or 64
      bits; any other is as selective as an export. */
  predicate IsCommon(n: Number) {
    match n
    case Unsigned(u) => u <= 0x8000 || -0x100 <= u - 0x1_0000_0000 < 0 || u - 0x1_0000_0000_0000_0000 >= -0x100
    case Signed(i) => -0x8000 <= i <= 0x8000 || -0x100 <= i - 0x1_0000_0000 < 0 || i - 0x1_0000_0000_0000_0000 >= -0x100
    case Floating(_) => false
  }

  /** From the most selective kind of feature to the least. */
  lemma ScoreOrder(t: string, n: Number, rare: Number, at: nat, p: Access, off: int)
    requires IsCommon(n) && !IsCommon(rare)
    ensures Score(Text(String, t)) > Score(Text(Api, t)) > Score(Text(Export, t)) > Score(Text(Class, t))
    ensures Score(Text(Export, t)) == Score(NumberOf(rare)) == Score(OperandNumber(at, rare))
    ensures forall tag | tag in {Namespace, Import, Section, FunctionName} ::
      Score(Text(tag, t)) == Score(Text(Class, t))
    ensures Score(Text(Class, t)) == Score(PropertyOf(t, p)) > Score(Text(Characteristic, t))
    ensures Score(Text(Characteristic, t)) == Score(OffsetOf(off)) == Score(OperandOffset(at, off)) > Score(NumberOf(n))
    ensures Score(NumberOf(n)) == Score(OperandNumber(at, n)) > Score(Text(Mnemonic, t)) > Score(BasicBlock)
    ensures Score(BasicBlock) > Score(Text(Format, t)) == 0
  {
  }

  // ----- the index

  /** The rules a set could match: nothing is required, or a required feature is present. */
  predicate Candidate(r: Rule, fs: FeatureMap) {
    var n := NeedOf(r.statement);
    n.feats == {} || exists f | f in n.feats :: f in fs
  }

  function Candidates(rules: seq<Rule>, fs: FeatureMap): seq<Rule> {
    if rules == [] then []
    else
      Candidates(rules[..|rules| - 1], fs)
      + (if Candidate(rules[|rules| - 1], fs) then [rules[|rules| - 1]] else [])
  }

  class RuleFeatureIndex {
    var order: seq<Rule>
    var alwaysRun: seq<bool>
    var byFeature: map<Feature, seq<nat>>

    ghost predicate Valid()
      reads this
    {
      && |alwaysRun| == |order|
      && (forall i | 0 <= i < |order| :: alwaysRun[i] <==> NeedOf(order[i].statement).feats == {})
      && Indexes(order, |order|, byFeature)
    }

    constructor ()
      ensures Valid() && order == []
    {
      order, alwaysRun, byFeature := [], [], map[];
    }

    method Build(rules: seq<Rule>)
      modifies this
      ensures Valid() && order == rules
    {
      order := rules;
      alwaysRun := seq(|rules|, _ => true);
      byFeature := map[];
      for i := 0 to |rules|
        invariant order == rules && |alwaysRun| == |rules|
        invariant forall j | 0 <= j < |rules| :: alwaysRun[j] <==> j >= i || NeedOf(rules[j].statement).feats == {}
        invariant Indexes(rules, i, byFeature)
      {
        var n := ComputeNeed(rules[i].statement);
        if n.feats != {} {
          alwaysRun := alwaysRun[i := false];
          byFeature := Enrol(byFeature, n.feats, i);
        }
      }
    }

    /** The candidates, in the order given to Build. */
    method Select(fs: FeatureMap) returns (out: seq<Rule>)
      requires Valid()
      ensures out == Candidates(order, fs)
    {
      out := [];
      if order == [] { return; }
      var hit := seq(|order|, _ => false);
      var rest := fs.Keys;
      while rest != {}
        invariant |hit| == |order| && rest <= fs.Keys
        invariant forall i | 0 <= i < |order| ::
          hit[i] <==> exists f :: f in fs.Keys - rest && Needs(order, i, f)
      {
        var f :| f in rest;
        ghost var was := hit;
        if f in byFeature {
          assert byFeature[f] == Slots(byFeature, f);
          hit := MarkSlots(hit, byFeature[f]);
        }
        assert forall i | 0 <= i < |order| :: hit[i] <==> was[i] || Needs(order, i, f) by {
          assert forall i: nat | i < |order| :: i in Slots(byFeature, f) <==> Needs(order, i, f);
        }
        rest := rest - {f};
      }
      for i := 0 to |order|
        invariant out == Candidates(order[..i], fs)
      {
        assert order[..i + 1][..i] == order[..i];
        assert Candidate(order[i], fs) <==> alwaysRun[i] || hit[i] by {
          assert forall f :: Needs(order, i, f) <==> f in NeedOf(order[i].statement).feats;
        }
        if alwaysRun[i] || hit[i] { out := out + [order[i]]; }
      }
      assert order[..|order|] == order;
    }
  }

  // Files slot i under every needed feature
  method Enrol(byFeature: map<Feature, seq<nat>>, feats: set<Feature>, i: nat) returns (m: map<Feature, seq<nat>>)
    ensures m.Keys == byFeature.Keys + feats
    ensures forall f :: f in m ==> m[f] == Slots(byFeature, f) + (if f in feats then [i] else [])
  {
    m := byFeature;
    var rest := feats;
    while rest != {}
      invariant rest <= feats && m.Keys == byFeature.Keys + (feats - rest)
      invariant forall f :: f in m ==> m[f] == Slots(byFeature, f) + (if f in feats - rest then [i] else [])
    {
      var f :| f in rest;
      m := m[f := Slots(m, f) + [i]];
      rest := rest - {f};
    }
  }

  method MarkSlots(hit: seq<bool>, slots: seq<nat>) returns (marked: seq<bool>)
    requires forall j :: j in slots ==> j < |hit|
    ensures |marked| == |hit|
    ensures forall i: nat | i < |hit| :: marked[i] <==> hit[i] || i in slots
  {
    marked := hit;
    for k := 0 to |slots|
      invariant |marked| == |hit|
      invariant forall i: nat | i < |hit| :: marked[i] <==> hit[i] || i in slots[..k]
    {
      assert slots[k] in slots;
      assert slots[..k + 1] == slots[..k] + [slots[k]];
      marked := marked[slots[k] := true];
    }
    assert slots[..|slots|] == slots;
  }

  function Slots(byFeature: map<Feature, seq<nat>>, f: Feature): seq<nat> {
    if f in byFeature then byFeature[f] else []
  }

  /** The slots of a feature are the rules among the first n that need it. */
  ghost predicate Indexes(rules: seq<Rule>, n: nat, byFeature: map<Feature, seq<nat>>) {
    forall f: Feature, j: nat :: j in Slots(byFeature, f) <==> j < n && Needs(rules, j, f)
  }

  predicate Needs(rules: seq<Rule>, j: nat, f: Feature) {
    j < |rules| && f in NeedOf(rules[j].statement).feats
  }

  // ----- nothing is lost

  /** A rule that is no candidate at the start cannot hold at any point of the run. */
  lemma NonCandidateNeverHolds(rx: Search, r: Rule, fs: FeatureMap, names: set<string>, addr: Address)
    requires !Candidate(r, fs)
    ensures !Holds(rx, r.statement, Emitted(fs, names, {addr}))
  {
    var gs := Emitted(fs, names, {addr});
    NeedIsNecessary(rx, r.statement, gs);
    forall f | f in NeedOf(r.statement).feats ensures f !in gs {
      EmittedAt(fs, names, {addr}, f);
    }
  }

  /** Matching only the candidates of the initial set gives the same results and the
      same final set, although match features are injected after the selection. */
  lemma {:induction false} SelectLosesNothing(rx: Search, rules: seq<Rule>, fs: FeatureMap, addr: Address)
    ensures After(rx, Candidates(rules, fs), fs, addr) == After(rx, rules, fs, addr)
    ensures Table(rx, Candidates(rules, fs), fs, addr) == Table(rx, rules, fs, addr)
  {
    if rules != [] {
      var front, last := rules[..|rules| - 1], rules[|rules| - 1];
      assert rules == front + [last];
      SelectLosesNothing(rx, front, fs, addr);
      RunSnoc(rx, front, last, fs, addr);
      if Candidate(last, fs) {
        RunSnoc(rx, Candidates(front, fs), last, fs, addr);
      } else {
        assert Candidates(rules, fs) == Candidates(front, fs);
        Fixpoint.AfterIsEmitted(rx, front, fs, addr);
        NonCandidateNeverHolds(rx, last, fs, Fixpoint.FiredNames(rx, front, fs, addr), addr);
      }
    }
  }
}
