/** Rules, their namespaces and the names a match of one injects. */
module Rules {
  import opened Features
  import opened Engine
  import opened Sequences

  datatype Rule = Rule(
    name: string,
    namespace: Option<string>,
    scope: Scope,
    statement: Statement,
    parent: Option<string>)

  /** x is ns itself or one of its slash-delimited ancestors. */
  predicate Encloses(x: string, ns: string) {
    x <= ns && (x == ns || ns[|x|] == '/')
  }

  function LastSlash(s: string): (k: int)
    ensures -1 <= k < |s|
    ensures 0 <= k ==> s[k] == '/'
    ensures forall j :: k < j < |s| ==> s[j] != '/'
  {
    if s == [] then -1
    else if s[|s| - 1] == '/' then |s| - 1
    else LastSlash(s[..|s| - 1])
  }

  /** From the full namespace to its first component, trimming one component a step. */
  function Hierarchy(ns: string): (out: seq<string>)
    ensures forall x :: x in out <==> x != "" && Encloses(x, ns)
  {
    if ns == "" then []
    else if LastSlash(ns) < 0 then
      assert forall x :: Encloses(x, ns) ==> x == ns;
      [ns]
    else
      var up := ns[..LastSlash(ns)];
      assert forall x :: Encloses(x, ns) ==> x == ns || |x| <= |up|;
      assert forall x :: Encloses(x, ns) && |x| <= |up| ==> Encloses(x, up) by {
        assert forall x :: x <= ns && |x| <= |up| ==> x == ns[..|x|] && ns[..|x|] == up[..|x|];
      }
      assert forall x :: Encloses(x, up) ==> Encloses(x, ns);
      [ns] + Hierarchy(up)
  }

  /** Specific before general. */
  lemma {:induction false} HierarchyOrder(ns: string)
    ensures forall i, j :: 0 <= i < j < |Hierarchy(ns)| ==> |Hierarchy(ns)[i]| > |Hierarchy(ns)[j]|
  {
    if ns != "" && 0 <= LastSlash(ns) {
      var up := ns[..LastSlash(ns)];
      HierarchyOrder(up);
      assert forall x :: x in Hierarchy(up) ==> |x| <= |up|;
    }
  }

  method NamespaceHierarchy(ns: Option<string>) returns (out: seq<string>)
    ensures out == if ns.None? then [] else Hierarchy(ns.value)
  {
    out := [];
    if ns == None || ns.value == "" { return; }
    var current := ns.value;
    while current != ""
      invariant out + Hierarchy(current) == Hierarchy(ns.value)
      decreases |current|
    {
      out := out + [current];
      var slash := LastSlash(current);
      if slash < 0 { break; }
      current := current[..slash];
    }
  }

  /** Every name a match of the rule is announced under. */
  function Names(r: Rule): set<string> {
    {r.name} + if r.namespace.None? then {} else Elements(Hierarchy(r.namespace.value))
  }

  /** Some rule or namespace of the list answers to x. */
  predicate Resolves(rules: seq<Rule>, x: string) {
    exists q | q in rules :: x in Names(q)
  }

  /** The rule or namespace names a tree refers to through match:, in pre-order. */
  function Refs(s: Statement): seq<string> {
    match s
    case Leaf(f) => if f.IsMatch() then [f.text] else []
    case Range(f, _, _) => if f.IsMatch() then [f.text] else []
    case Not(kid) => Refs(kid)
    case And(kids) => RefsOfAll(kids)
    case Or(kids) => RefsOfAll(kids)
    case AtLeast(_, kids) => RefsOfAll(kids)
    case Subscope(_, _) => []
  }

  function RefsOfAll(kids: seq<Statement>): seq<string> {
    if kids == [] then [] else Refs(kids[0]) + RefsOfAll(kids[1..])
  }

  /** Every name the tree refers to, outside its subscopes, is a rule's or a namespace's. */
  predicate Answered(rules: seq<Rule>, s: Statement) {
    forall x | x in Refs(s) :: Resolves(rules, x)
  }

  method CollectMatchRefs(s: Statement, before: seq<string>) returns (out: seq<string>)
    ensures out == before + Refs(s)
    decreases s
  {
    out := before;
    match s
    case Leaf(f) => if f.IsMatch() { out := out + [f.text]; }
    case Range(f, _, _) => if f.IsMatch() { out := out + [f.text]; }
    case Subscope(_, _) =>
    case Not(kid) => out := CollectMatchRefs(kid, out);
    case _ =>
      var kids := s.kids;
      for i := 0 to |kids|
        invariant out + RefsOfAll(kids[i..]) == before + RefsOfAll(kids)
      {
        assert kids[i..][0] == kids[i] && kids[i..][1..] == kids[i + 1..];
        out := CollectMatchRefs(kids[i], out);
      }
  }

  lemma {:induction false} RefsOfKid(kids: seq<Statement>, k: Statement, x: string)
    requires k in kids && x in Refs(k)
    ensures x in RefsOfAll(kids)
  {
    if k != kids[0] { RefsOfKid(kids[1..], k, x); }
  }

  /** Rule names are distinct, which building the name index enforces. */
  predicate DistinctNames(rules: seq<Rule>) {
    forall i, j :: 0 <= i < j < |rules| ==> rules[i].name != rules[j].name
  }
}
