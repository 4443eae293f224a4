/** Compiling subscopes away: every subscope becomes a synthetic rule of its own and
    leaves a match: reference to that rule behind. */
module Subscopes {
  import opened Decimals
  import opened Features
  import opened Engine
  import opened Rules

  // ----- decimal counters

  lemma {:induction false} DecimalHasNoSlash(n: nat)
    ensures Digits(n) != [] && '/' !in Digits(n)
  {
    if n >= 10 { DecimalHasNoSlash(n / 10); }
  }

  lemma {:induction false} DecimalInjective(m: nat, n: nat)
    requires Digits(m) == Digits(n)
    ensures m == n
  {
    var a, b := Digits(m), Digits(n);
    assert a[|a| - 1] == DigitChar(m % 10) && b[|b| - 1] == DigitChar(n % 10);
    DecimalHasNoSlash(m / 10);
    DecimalHasNoSlash(n / 10);
    if m >= 10 && n >= 10 {
      assert a[..|a| - 1] == Digits(m / 10) && b[..|b| - 1] == Digits(n / 10);
      DecimalInjective(m / 10, n / 10);
    }
  }

  // ----- extraction

  function SyntheticName(parent: string, counter: nat): string {
    parent + "/" + Digits(counter)
  }

  datatype Extraction = Extraction(statement: Statement, counter: nat, spawned: seq<Rule>)
  datatype Extractions = Extractions(kids: seq<Statement>, counter: nat, spawned: seq<Rule>)

  /** The rewritten tree, the next free counter and the rules spawned, innermost first. */
  function Extract(s: Statement, parent: string, counter: nat): Extraction
    decreases s, 1
  {
    match s
    case Subscope(scope, inner) =>
      var name := SyntheticName(parent, counter);
      var e := Extract(inner, name, 0);
      Extraction(Leaf(Match(name)), counter + 1, e.spawned + [Rule(name, None, scope, e.statement, Some(parent))])
    case And(kids) =>
      var e := ExtractAll(kids, parent, counter); Extraction(And(e.kids), e.counter, e.spawned)
    case Or(kids) =>
      var e := ExtractAll(kids, parent, counter); Extraction(Or(e.kids), e.counter, e.spawned)
    case AtLeast(n, kids) =>
      var e := ExtractAll(kids, parent, counter); Extraction(AtLeast(n, e.kids), e.counter, e.spawned)
    case Not(kid) =>
      var e := Extract(kid, parent, counter); Extraction(Not(e.statement), e.counter, e.spawned)
    case Range(_, _, _) => Extraction(s, counter, [])
    case Leaf(_) => Extraction(s, counter, [])
  }

  function ExtractAll(kids: seq<Statement>, parent: string, counter: nat): Extractions
    decreases kids, 0
  {
    if kids == [] then Extractions([], counter, [])
    else
      var e := Extract(kids[0], parent, counter);
      var rest := ExtractAll(kids[1..], parent, e.counter);
      Extractions([e.statement] + rest.kids, rest.counter, e.spawned + rest.spawned)
  }

  /** The recursive walk, threading the counter and the list of spawned rules. */
  method ExtractSubscopesIn(s: Statement, parent: string, counter: nat, spawned: seq<Rule>)
    returns (s': Statement, counter': nat, spawned': seq<Rule>)
    ensures var e := Extract(s, parent, counter);
      s' == e.statement && counter' == e.counter && spawned' == spawned + e.spawned
    decreases s
  {
    s', counter', spawned' := s, counter, spawned;
    match s
    case Subscope(scope, inner) =>
      var name := SyntheticName(parent, counter);
      var body, _, spawnedInside := ExtractSubscopesIn(inner, name, 0, spawned);
      spawned' := spawnedInside + [Rule(name, None, scope, body, Some(parent))];
      s', counter' := Leaf(Match(name)), counter + 1;
    case Leaf(_) =>
    case Range(_, _, _) =>
    case Not(kid) =>
      var kid';
      kid', counter', spawned' := ExtractSubscopesIn(kid, parent, counter, spawned);
      s' := Not(kid');
    case And(kids) =>
      var kids';
      kids', counter', spawned' := ExtractChildren(s, parent, counter, spawned);
      s' := And(kids');
    case Or(kids) =>
      var kids';
      kids', counter', spawned' := ExtractChildren(s, parent, counter, spawned);
      s' := Or(kids');
    case AtLeast(n, kids) =>
      var kids';
      kids', counter', spawned' := ExtractChildren(s, parent, counter, spawned);
      s' := AtLeast(n, kids');
  }

  method ExtractChildren(s: Statement, parent: string, counter: nat, spawned: seq<Rule>)
    returns (kids': seq<Statement>, counter': nat, spawned': seq<Rule>)
    requires s.And? || s.Or? || s.AtLeast?
    ensures var e := ExtractAll(s.kids, parent, counter);
      kids' == e.kids && counter' == e.counter && spawned' == spawned + e.spawned
    decreases s, 0
  {
    kids', counter', spawned' := [], counter, spawned;
    for i := 0 to |s.kids|
      invariant var e, rest := ExtractAll(s.kids, parent, counter), ExtractAll(s.kids[i..], parent, counter');
        && kids' + rest.kids == e.kids
        && rest.counter == e.counter
        && spawned' + rest.spawned == spawned + e.spawned
    {
      ghost var rest := ExtractAll(s.kids[i..], parent, counter');
      assert s.kids[i..][0] == s.kids[i] && s.kids[i..][1..] == s.kids[i + 1..];
      ghost var was := spawned';
      var kid';
      kid', counter', spawned' := ExtractSubscopesIn(s.kids[i], parent, counter', spawned');
      ghost var rest' := ExtractAll(s.kids[i + 1..], parent, counter');
      assert kids' + rest.kids == kids' + [kid'] + rest'.kids;
      assert was + rest.spawned == spawned' + rest'.spawned;
      kids' := kids' + [kid'];
    }
  }

  /** Every original rule rewritten in place, then every spawned rule. */
  function Rewritten(rules: seq<Rule>): seq<Rule> {
    seq(|rules|, i requires 0 <= i < |rules| =>
      rules[i].(statement := Extract(rules[i].statement, rules[i].name, 0).statement))
  }

  function Spawned(rules: seq<Rule>): seq<Rule> {
    if rules == [] then []
    else
      var last := rules[|rules| - 1];
      Spawned(rules[..|rules| - 1]) + Extract(last.statement, last.name, 0).spawned
  }

  method ExtractSubscopeRules(rules: seq<Rule>) returns (out: seq<Rule>)
    ensures out == Rewritten(rules) + Spawned(rules)
  {
    var spawned: seq<Rule> := [];
    out := rules;
    for i := 0 to |rules|
      invariant |out| == |rules|
      invariant forall j | 0 <= j < i :: out[j] == Rewritten(rules)[j]
      invariant forall j | i <= j < |rules| :: out[j] == rules[j]
      invariant spawned == Spawned(rules[..i])
    {
      assert rules[..i + 1][..i] == rules[..i];
      var body, used;
      body, used, spawned := ExtractSubscopesIn(rules[i].statement, rules[i].name, 0, spawned);
      out := out[i := rules[i].(statement := body)];
    }
    assert rules[..|rules|] == rules;
    assert out == Rewritten(rules);
    out := out + spawned;
  }

  // ----- no subscope survives

  lemma {:induction false} ExtractIsSubscopeFree(s: Statement, parent: string, counter: nat)
    ensures SubscopeFree(Extract(s, parent, counter).statement)
    ensures forall r | r in Extract(s, parent, counter).spawned :: SubscopeFree(r.statement)
    decreases s, 1
  {
    match s
    case Subscope(_, inner) => ExtractIsSubscopeFree(inner, SyntheticName(parent, counter), 0);
    case Not(kid) => ExtractIsSubscopeFree(kid, parent, counter);
    case Leaf(_) =>
    case Range(_, _, _) =>
    case _ => ExtractAllIsSubscopeFree(s, s.kids, parent, counter);
  }

  lemma {:induction false} ExtractAllIsSubscopeFree(s: Statement, kids: seq<Statement>, parent: string, counter: nat)
    requires forall k | k in kids :: k < s
    ensures forall k | k in ExtractAll(kids, parent, counter).kids :: SubscopeFree(k)
    ensures forall r | r in ExtractAll(kids, parent, counter).spawned :: SubscopeFree(r.statement)
    decreases s, 0, |kids|
  {
    if kids != [] {
      assert kids[0] in kids && forall k | k in kids[1..] :: k in kids;
      ExtractIsSubscopeFree(kids[0], parent, counter);
      ExtractAllIsSubscopeFree(s, kids[1..], parent, Extract(kids[0], parent, counter).counter);
    }
  }

  // ----- synthetic names never collide

  /** The name is the synthetic name of some counter in [lo, hi), or nested below it. */
  ghost predicate Under(name: string, parent: string, lo: nat, hi: nat) {
    exists c: nat :: lo <= c < hi && AtOrBelow(name, SyntheticName(parent, c))
  }

  predicate AtOrBelow(name: string, top: string) {
    top <= name && (name == top || name[|top|] == '/')
  }

  ghost predicate DistinctUnder(spawned: seq<Rule>, parent: string, lo: nat, hi: nat) {
    && DistinctNames(spawned)
    && forall r | r in spawned :: Under(r.name, parent, lo, hi)
  }

  /** The rules spawned from one tree all have different names. */
  lemma {:induction false} SpawnedNamesDistinct(s: Statement, parent: string, counter: nat)
    ensures counter <= Extract(s, parent, counter).counter
    ensures DistinctUnder(Extract(s, parent, counter).spawned, parent, counter, Extract(s, parent, counter).counter)
    decreases s, 1
  {
    match s
    case Subscope(scope, inner) =>
      var name := SyntheticName(parent, counter);
      var e := Extract(inner, name, 0);
      SpawnedNamesDistinct(inner, name, 0);
      forall r | r in e.spawned
        ensures r.name != name && AtOrBelow(r.name, name)
      {
        var c: nat :| c < e.counter && AtOrBelow(r.name, SyntheticName(name, c));
        assert SyntheticName(name, c)[..|name|] == name && SyntheticName(name, c)[|name|] == '/';
        assert r.name[..|name|] == name && r.name[|name|] == '/';
      }
      assert AtOrBelow(name, name);
    case Not(kid) => SpawnedNamesDistinct(kid, parent, counter);
    case Leaf(_) =>
    case Range(_, _, _) =>
    case _ => SpawnedAllDistinct(s, s.kids, parent, counter);
  }

  lemma {:induction false} SpawnedAllDistinct(s: Statement, kids: seq<Statement>, parent: string, counter: nat)
    requires forall k | k in kids :: k < s
    ensures counter <= ExtractAll(kids, parent, counter).counter
    ensures DistinctUnder(ExtractAll(kids, parent, counter).spawned, parent, counter,
      ExtractAll(kids, parent, counter).counter)
    decreases s, 0, |kids|
  {
    if kids != [] {
      assert kids[0] in kids && forall k | k in kids[1..] :: k in kids;
      var e := Extract(kids[0], parent, counter);
      var rest := ExtractAll(kids[1..], parent, e.counter);
      SpawnedNamesDistinct(kids[0], parent, counter);
      SpawnedAllDistinct(s, kids[1..], parent, e.counter);
      forall a, b | a in e.spawned && b in rest.spawned ensures a.name != b.name {
        if a.name == b.name {
          var c: nat :| counter <= c < e.counter && AtOrBelow(a.name, SyntheticName(parent, c));
          var d: nat :| e.counter <= d < rest.counter && AtOrBelow(b.name, SyntheticName(parent, d));
          OneTop(a.name, parent, c, d);
        }
      }
    }
  }

  /** A name is at or below the synthetic name of at most one counter. */
  lemma OneTop(name: string, parent: string, c: nat, d: nat)
    requires AtOrBelow(name, SyntheticName(parent, c)) && AtOrBelow(name, SyntheticName(parent, d))
    ensures c == d
  {
    NotShorter(name, parent, c, d);
    NotShorter(name, parent, d, c);
    var n := |parent| + 1;
    assert name[n..n + |Digits(c)|] == Digits(c) && name[n..n + |Digits(d)|] == Digits(d);
    DecimalInjective(c, d);
  }

  // The counter's digits end at the next slash, so no other counter's can go past it
  lemma NotShorter(name: string, parent: string, c: nat, d: nat)
    requires AtOrBelow(name, SyntheticName(parent, c)) && AtOrBelow(name, SyntheticName(parent, d))
    ensures |Digits(d)| <= |Digits(c)|
  {
    hide Digits;
    DecimalHasNoSlash(d);
    var n := |parent| + 1;
    assert forall k | 0 <= k < |Digits(d)| :: name[n + k] == Digits(d)[k] && Digits(d)[k] != '/';
    assert |Digits(c)| < |name| - n ==> name[n + |Digits(c)|] == '/';
  }
}
