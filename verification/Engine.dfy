/** Rule statements, what they mean, and the loops that evaluate them. */
module Engine {
  import opened Features

  datatype Scope =
    | FileScope | FunctionScope | BasicBlockScope | InstructionScope | GlobalScope
    | ProcessScope | ThreadScope | CallScope | SpanOfCallsScope

  datatype Statement =
    | And(kids: seq<Statement>)
    | Or(kids: seq<Statement>)
    | Not(kid: Statement)
    | AtLeast(count: nat, kids: seq<Statement>)
    | Range(counted: Feature, min: nat, max: nat)
    | Subscope(scope: Scope, inner: Statement)
    | Leaf(feature: Feature)

  /** Whether the compiled form of a regex literal finds a match in a string. */
  type Search = (string, string) -> bool

  predicate SubscopeFree(s: Statement) {
    match s
    case And(kids) => forall k | k in kids :: SubscopeFree(k)
    case Or(kids) => forall k | k in kids :: SubscopeFree(k)
    case Not(kid) => SubscopeFree(kid)
    case AtLeast(_, kids) => forall k | k in kids :: SubscopeFree(k)
    case Subscope(_, _) => false
    case Range(_, _, _) => true
    case Leaf(_) => true
  }

  // ----- reference meaning

  predicate Occurs(needle: string, hay: string) {
    exists k | 0 <= k <= |hay| :: OccursAt(needle, hay, k)
  }

  predicate OccursAt(needle: string, hay: string, k: nat) {
    k + |needle| <= |hay| && hay[k..k + |needle|] == needle
  }

  /** Whether one set entry satisfies a rule feature. Only the scanning features and
      the os wildcard can be satisfied by an entry other than an equal one. */
  predicate Satisfies(rx: Search, f: Feature, entry: Feature) {
    if f.Text? && f.tag == Substring then entry.IsString() && Occurs(f.text, entry.text)
    else if f.Text? && f.tag == Regex then entry.IsString() && rx(f.text, entry.text)
    else if f.Bytes? then entry.Bytes? && f.bytes <= entry.bytes
    else if f.IsOs() then entry == f || (entry.IsOs() && (f == ANY_OS || entry == ANY_OS))
    else entry == f
  }

  predicate Matches(rx: Search, f: Feature, fs: FeatureMap) {
    exists e | e in fs :: Satisfies(rx, f, e)
  }

  predicate Holds(rx: Search, s: Statement, fs: FeatureMap)
    decreases s, 1
  {
    match s
    case And(kids) => forall k | k in kids :: Holds(rx, k, fs)
    case Or(kids) => exists k | k in kids :: Holds(rx, k, fs)
    case Not(kid) => !Holds(rx, kid, fs)
    case AtLeast(n, kids) => n <= HoldCount(rx, kids, fs)
    case Range(f, min, max) =>
      var n := |Places(fs, f)|;
      (min == 0 && n == 0) || min <= n <= max
    case Subscope(_, _) => false
    case Leaf(f) => Matches(rx, f, fs)
  }

  function HoldCount(rx: Search, kids: seq<Statement>, fs: FeatureMap): nat
    decreases kids, 0
  {
    if kids == [] then 0
    else (if Holds(rx, kids[0], fs) then 1 else 0) + HoldCount(rx, kids[1..], fs)
  }

  /** The places a feature reports: for os, equal entries win over the wildcard. */
  function FeaturePlaces(rx: Search, f: Feature, fs: FeatureMap): set<Address> {
    if f.IsOs() && f in fs then fs[f]
    else set e <- fs.Keys, a <- fs[e] | Satisfies(rx, f, e) :: a
  }

  /** The places a statement reports when every child is evaluated. */
  function Locations(rx: Search, s: Statement, fs: FeatureMap): set<Address> {
    match s
    case And(kids) =>
      if Holds(rx, s, fs) then set k <- kids, a <- Locations(rx, k, fs) :: a else {}
    case Or(kids) => set k <- kids, a <- Locations(rx, k, fs) | Holds(rx, k, fs) :: a
    case AtLeast(_, kids) => set k <- kids, a <- Locations(rx, k, fs) | Holds(rx, k, fs) :: a
    case Range(f, _, _) => if Holds(rx, s, fs) then Places(fs, f) else {}
    case Leaf(f) => FeaturePlaces(rx, f, fs)
    case Not(_) => {}
    case Subscope(_, _) => {}
  }

  // ----- results

  datatype Node = StatementNode(statement: Statement) | FeatureNode(feature: Feature)

  datatype Result =
    Result(success: bool, node: Node, children: seq<Result>, locations: set<Address>)

  function FeatureResult(rx: Search, f: Feature, fs: FeatureMap): Result {
    Result(Matches(rx, f, fs), FeatureNode(f), [], FeaturePlaces(rx, f, fs))
  }

  /** The complete result tree: one node per statement, each with its own verdict. */
  function FullResult(rx: Search, s: Statement, fs: FeatureMap): Result {
    match s
    case Leaf(f) => FeatureResult(rx, f, fs)
    case Not(kid) => Result(Holds(rx, s, fs), StatementNode(s), [FullResult(rx, kid, fs)], {})
    case And(kids) => Result(Holds(rx, s, fs), StatementNode(s), FullResults(rx, kids, fs), Locations(rx, s, fs))
    case Or(kids) => Result(Holds(rx, s, fs), StatementNode(s), FullResults(rx, kids, fs), Locations(rx, s, fs))
    case AtLeast(_, kids) =>
      Result(Holds(rx, s, fs), StatementNode(s), FullResults(rx, kids, fs), Locations(rx, s, fs))
    case Range(_, _, _) => Result(Holds(rx, s, fs), StatementNode(s), [], Locations(rx, s, fs))
    case Subscope(_, _) => Result(false, StatementNode(s), [], {})
  }

  function FullResults(rx: Search, kids: seq<Statement>, fs: FeatureMap): seq<Result> {
    seq(|kids|, i requires 0 <= i < |kids| => FullResult(rx, kids[i], fs))
  }

  // ----- evaluation: features

  /** Walks the tag index for the scanning features and looks the others up. */
  method MatchesQuick(rx: Search, f: Feature, fs: FeatureSet) returns (ok: bool)
    requires fs.Valid()
    ensures ok == Matches(rx, f, fs.entries)
  {
    if f.Text? && (f.tag == Substring || f.tag == Regex) {
      for i := 0 to |fs.strings|
        invariant forall j :: 0 <= j < i ==> !Satisfies(rx, f, fs.strings[j])
      {
        var s := fs.strings[i];
        assert s in fs.strings;
        if (if f.tag == Substring then Occurs(f.text, s.text) else rx(f.text, s.text)) {
          assert Satisfies(rx, f, s);
          return true;
        }
      }
      assert forall e :: e in fs.entries && e.IsString() ==> e in fs.strings;
      return false;
    }
    if f.Bytes? {
      for i := 0 to |fs.bytes|
        invariant forall j :: 0 <= j < i ==> !Satisfies(rx, f, fs.bytes[j])
      {
        var b := fs.bytes[i];
        assert b in fs.bytes;
        if |b.bytes| >= |f.bytes| && b.bytes[..|f.bytes|] == f.bytes {
          assert Satisfies(rx, f, b);
          return true;
        }
      }
      assert forall e :: e in fs.entries && e.Bytes? ==> e in fs.bytes;
      return false;
    }
    if f in fs.entries {
      assert Satisfies(rx, f, f);
      return true;
    }
    if f.IsOs() {
      if f != ANY_OS {
        assert ANY_OS in fs.entries ==> Satisfies(rx, f, ANY_OS);
        return ANY_OS in fs.entries;
      }
      assert forall e :: e in fs.entries && e.IsOs() ==> Satisfies(rx, f, e);
      return exists e :: e in fs.entries && e.IsOs();
    }
    return false;
  }

  method EvaluateFeature(rx: Search, f: Feature, fs: FeatureSet, sc: bool) returns (r: Result)
    requires fs.Valid()
    ensures !sc ==> r == FeatureResult(rx, f, fs.entries)
    ensures r.success == Matches(rx, f, fs.entries)
    ensures r.locations <= FeaturePlaces(rx, f, fs.entries)
  {
    r := Result(false, FeatureNode(f), [], {});
    if f.Text? && (f.tag == Substring || f.tag == Regex) {
      r := Scan(rx, f, fs, fs.strings, sc);
    } else if f.Bytes? {
      r := Scan(rx, f, fs, fs.bytes, sc);
    } else if f in fs.entries {
      assert Satisfies(rx, f, f);
      r := r.(success := true, locations := fs.entries[f]);
      assert f.IsOs() || forall e :: Satisfies(rx, f, e) <==> e == f;
    } else if f.IsOs() && f != ANY_OS {
      if ANY_OS in fs.entries {
        assert Satisfies(rx, f, ANY_OS);
        r := r.(success := true, locations := fs.entries[ANY_OS]);
      }
    } else if f.IsOs() {
      var rest := set e | e in fs.entries && e.IsOs();
      ghost var all := rest;
      while rest != {}
        invariant rest <= all
        invariant r.node == FeatureNode(f) && r.children == []
        invariant r.success <==> rest < all
        invariant r.locations == set e <- all - rest, a <- fs.entries[e] :: a
        invariant sc ==> rest == all
      {
        var e :| e in rest;
        assert Satisfies(rx, f, e);
        var grown := r.locations + fs.entries[e];
        assert grown == set g <- all - (rest - {e}), a <- fs.entries[g] :: a by {
          assert all - (rest - {e}) == (all - rest) + {e};
        }
        r := r.(success := true, locations := grown);
        rest := rest - {e};
        if sc { return; }
      }
      assert forall e :: e in fs.entries && Satisfies(rx, f, e) ==> e in all;
      assert r.success ==> exists e :: e in all && Satisfies(rx, f, e);
    }
  }

  // One pass over a tag index, merging the places of every entry that satisfies f
  method Scan(rx: Search, f: Feature, fs: FeatureSet, index: seq<Feature>, sc: bool) returns (r: Result)
    requires forall e :: e in index ==> e in fs.entries
    requires forall e :: e in fs.entries && Satisfies(rx, f, e) ==> e in index
    requires !f.IsOs()
    ensures !sc ==> r == FeatureResult(rx, f, fs.entries)
    ensures r.success == Matches(rx, f, fs.entries)
    ensures r.locations <= FeaturePlaces(rx, f, fs.entries)
    ensures r.node == FeatureNode(f) && r.children == []
  {
    r := Result(false, FeatureNode(f), [], {});
    for i := 0 to |index|
      invariant r.node == FeatureNode(f) && r.children == []
      invariant r.success <==> exists j :: 0 <= j < i && Satisfies(rx, f, index[j])
      invariant r.locations <= FeaturePlaces(rx, f, fs.entries)
      invariant forall j :: 0 <= j < i && Satisfies(rx, f, index[j]) ==> fs.entries[index[j]] <= r.locations
      invariant sc ==> !r.success
    {
      assert index[i] in index;
      if Satisfies(rx, f, index[i]) {
        r := r.(success := true, locations := r.locations + fs.entries[index[i]]);
        if sc { return; }
      }
    }
  }

  // ----- evaluation: statements

  /** Evaluates a subscope-free tree; with sc, stops as soon as the verdict is known. */
  method Evaluate(rx: Search, s: Statement, fs: FeatureSet, sc: bool) returns (r: Result)
    requires fs.Valid() && SubscopeFree(s)
    ensures r.success == Holds(rx, s, fs.entries)
    ensures r.locations <= Locations(rx, s, fs.entries)
    ensures !sc ==> r == FullResult(rx, s, fs.entries)
    decreases s
  {
    match s
    case Leaf(f) =>
      r := EvaluateFeature(rx, f, fs, sc);
    case Not(kid) =>
      var kidResult := Evaluate(rx, kid, fs, false);
      r := Result(!kidResult.success, StatementNode(s), [kidResult], {});
    case Range(f, min, max) =>
      var n := |Places(fs.entries, f)|;
      if min == 0 && n == 0 {
        r := Result(true, StatementNode(s), [], {});
        assert Places(fs.entries, f) == {};
      } else {
        r := Result(min <= n <= max, StatementNode(s), [],
                    if min <= n <= max then Places(fs.entries, f) else {});
      }
    case And(kids) =>
      r := EvaluateAnd(rx, s, kids, fs, sc);
    case Or(kids) =>
      r := EvaluateSome(rx, s, kids, 1, fs, sc);
      HoldCountPositive(rx, kids, fs.entries);
    case AtLeast(n, kids) =>
      r := EvaluateSome(rx, s, kids, n, fs, sc);
  }

  method EvaluateAnd(rx: Search, s: Statement, kids: seq<Statement>, fs: FeatureSet, sc: bool) returns (r: Result)
    requires fs.Valid() && s == And(kids) && forall k | k in kids :: SubscopeFree(k)
    ensures r.success == Holds(rx, s, fs.entries)
    ensures r.locations <= Locations(rx, s, fs.entries)
    ensures !sc ==> r == FullResult(rx, s, fs.entries)
    decreases s, 0
  {
    var ok := true;
    var results: seq<Result> := [];
    for i := 0 to |kids|
      invariant ok == forall j :: 0 <= j < i ==> Holds(rx, kids[j], fs.entries)
      invariant |results| == i
      invariant forall j :: 0 <= j < i ==> results[j].locations <= Locations(rx, kids[j], fs.entries)
      invariant !sc ==> forall j :: 0 <= j < i ==> results[j] == FullResult(rx, kids[j], fs.entries)
      invariant sc ==> ok
    {
      var kidResult := Evaluate(rx, kids[i], fs, sc);
      results := results + [kidResult];
      if !kidResult.success {
        ok := false;
        if sc { return Result(false, StatementNode(s), results, {}); }
      }
    }
    var locs: set<Address> := {};
    if ok {
      for i := 0 to |kids|
        invariant locs == set j, a | 0 <= j < i && a in results[j].locations :: a
      {
        locs := locs + results[i].locations;
      }
    }
    r := Result(ok, StatementNode(s), results, locs);
    forall k | k in kids && !sc ensures FullResult(rx, k, fs.entries).locations == Locations(rx, k, fs.entries) {
      FullResultLocations(rx, k, fs.entries);
    }
  }

  // Or is the case of at least one: both keep the places of every child that succeeds
  method EvaluateSome(rx: Search, s: Statement, kids: seq<Statement>, n: nat, fs: FeatureSet, sc: bool)
    returns (r: Result)
    requires fs.Valid() && forall k | k in kids :: SubscopeFree(k)
    requires s == AtLeast(n, kids) || (s == Or(kids) && n == 1)
    ensures r.success == (n <= HoldCount(rx, kids, fs.entries))
    ensures r.locations <= Locations(rx, s, fs.entries)
    ensures r.node == StatementNode(s)
    ensures !sc ==> r.children == FullResults(rx, kids, fs.entries)
    ensures !sc ==> r.locations == Locations(rx, s, fs.entries)
    decreases s, 0
  {
    var hits := 0;
    var results: seq<Result> := [];
    var locs: set<Address> := {};
    for i := 0 to |kids|
      invariant hits + HoldCount(rx, kids[i..], fs.entries) == HoldCount(rx, kids, fs.entries)
      invariant |results| == i
      invariant locs <= Locations(rx, s, fs.entries)
      invariant forall j :: 0 <= j < i && Holds(rx, kids[j], fs.entries) ==> results[j].locations <= locs
      invariant !sc ==> forall j :: 0 <= j < i ==> results[j] == FullResult(rx, kids[j], fs.entries)
    {
      var kidResult := Evaluate(rx, kids[i], fs, sc);
      assert kids[i..][0] == kids[i] && kids[i..][1..] == kids[i + 1..];
      if kidResult.success {
        assert kids[i] in kids;
        locs := locs + kidResult.locations;
        hits := hits + 1;
      }
      results := results + [kidResult];
      if sc && n > 0 && hits >= n { return Result(true, StatementNode(s), results, locs); }
    }
    r := Result(n == 0 || hits >= n, StatementNode(s), results, locs);
    forall k | k in kids && !sc ensures FullResult(rx, k, fs.entries).locations == Locations(rx, k, fs.entries) {
      FullResultLocations(rx, k, fs.entries);
    }
  }

  /** The probe pass: no result tree, same verdict. */
  method EvaluateQuick(rx: Search, s: Statement, fs: FeatureSet) returns (ok: bool)
    requires fs.Valid() && SubscopeFree(s)
    ensures ok == Holds(rx, s, fs.entries)
    decreases s
  {
    match s
    case Leaf(f) => ok := MatchesQuick(rx, f, fs);
    case Not(kid) =>
      ok := EvaluateQuick(rx, kid, fs);
      ok := !ok;
    case Range(f, min, max) =>
      var n := |Places(fs.entries, f)|;
      ok := (min == 0 && n == 0) || min <= n <= max;
    case And(kids) =>
      for i := 0 to |kids|
        invariant forall j :: 0 <= j < i ==> Holds(rx, kids[j], fs.entries)
      {
        ok := EvaluateQuick(rx, kids[i], fs);
        if !ok { return; }
      }
      ok := true;
    case Or(kids) =>
      for i := 0 to |kids|
        invariant forall j :: 0 <= j < i ==> !Holds(rx, kids[j], fs.entries)
      {
        ok := EvaluateQuick(rx, kids[i], fs);
        if ok { return; }
      }
      ok := false;
    case AtLeast(n, kids) =>
      if n == 0 { return true; }
      var hits := 0;
      for i := 0 to |kids|
        invariant hits < n
        invariant hits + HoldCount(rx, kids[i..], fs.entries) == HoldCount(rx, kids, fs.entries)
      {
        assert kids[i..][0] == kids[i] && kids[i..][1..] == kids[i + 1..];
        var kidOk := EvaluateQuick(rx, kids[i], fs);
        if kidOk {
          hits := hits + 1;
          if hits >= n { return true; }
        }
      }
      ok := false;
  }

  /** At least one child holds exactly when the count is positive. */
  lemma {:induction false} HoldCountPositive(rx: Search, kids: seq<Statement>, fs: FeatureMap)
    ensures 1 <= HoldCount(rx, kids, fs) <==> exists k :: k in kids && Holds(rx, k, fs)
  {
    if kids != [] {
      HoldCountPositive(rx, kids[1..], fs);
      assert kids == [kids[0]] + kids[1..];
      assert kids[0] in kids;
    }
  }

  lemma FullResultLocations(rx: Search, s: Statement, fs: FeatureMap)
    ensures FullResult(rx, s, fs).locations == Locations(rx, s, fs)
    ensures FullResult(rx, s, fs).success == Holds(rx, s, fs)
  {
    match s
    case Leaf(f) =>
    case _ =>
  }
}
