/** Features, addresses and feature sets: what the extractors emit and rules test.
    Two features are the same key exactly when tag and payload are equal, so a
    datatype with structural equality stands for the class hierarchy. */
module Features {

  datatype Option<+T> = None | Some(value: T)

  datatype Address =
    | NoAddress
    | AbsoluteVirtual(v: nat)
    | RelativeVirtual(v: nat)
    | FileOffset(v: nat)
    | DnToken(token: nat)
    | DnTokenOffset(token: nat, offset: nat)

  /** A number keeps the alternative it was written in: 1u64 and 1i64 differ. */
  datatype Number = Unsigned(u: nat) | Signed(i: int) | Floating(d: real)

  datatype Access = AnyAccess | Read | Write

  /** The features whose payload is one string. */
  datatype TextTag =
    | String | Substring | Regex | Mnemonic | Api | Import | Export | Section | FunctionName
    | Class | Namespace | Characteristic | MatchedRule | Os | Arch | Format

  datatype Feature =
    | Text(tag: TextTag, text: string)
    | Bytes(bytes: seq<bv8>)
    | NumberOf(number: Number)
    | OffsetOf(offset: int)
    | PropertyOf(property: string, access: Access)
    | OperandNumber(index: nat, operand: Number)
    | OperandOffset(index: nat, displacement: int)
    | BasicBlock
  {
    predicate IsString() { Text? && tag == String }
    predicate IsMatch() { Text? && tag == MatchedRule }
    predicate IsOs() { Text? && tag == Os }
  }

  const ANY_OS := Text(Os, "any")

  function Match(name: string): Feature { Text(MatchedRule, name) }

  /** The logical content of a feature set: every feature with the places it was seen. */
  type FeatureMap = map<Feature, set<Address>>

  function Lookup(fs: FeatureMap, f: Feature): Option<set<Address>> {
    if f in fs then Some(fs[f]) else None
  }

  function Places(fs: FeatureMap, f: Feature): set<Address> {
    if f in fs then fs[f] else {}
  }

  function Added(fs: FeatureMap, f: Feature, a: Address): FeatureMap {
    fs[f := Places(fs, f) + {a}]
  }

  function AddedAll(fs: FeatureMap, batch: seq<(Feature, Address)>): FeatureMap {
    if batch == [] then fs
    else Added(AddedAll(fs, batch[..|batch| - 1]), batch[|batch| - 1].0, batch[|batch| - 1].1)
  }

  /** The set that holds exactly these features at exactly these places. */
  function Collected(pairs: set<(Feature, Address)>): FeatureMap {
    map f | f in KeysOf(pairs) :: PlacesIn(pairs, f)
  }

  function KeysOf(pairs: set<(Feature, Address)>): set<Feature> { set p <- pairs :: p.0 }

  function PlacesIn(pairs: set<(Feature, Address)>, f: Feature): set<Address> {
    set p <- pairs | p.0 == f :: p.1
  }

  function Merged(fs: FeatureMap, other: FeatureMap): FeatureMap {
    map f | f in fs.Keys + other.Keys :: Places(fs, f) + Places(other, f)
  }

  /** What a batch of extracted features contributes, key by key. */
  lemma {:induction false} AddedAllPlaces(fs: FeatureMap, batch: seq<(Feature, Address)>, f: Feature)
    ensures f in AddedAll(fs, batch) <==> f in fs || exists p | p in batch :: p.0 == f
    ensures forall a :: a in Places(AddedAll(fs, batch), f) <==> a in Places(fs, f) || (f, a) in batch
  {
    if batch != [] {
      var front, last := batch[..|batch| - 1], batch[|batch| - 1];
      AddedAllPlaces(fs, front, f);
      assert batch == front + [last];
    }
  }

  /** The mutable set itself, with the two tag indices the scanning features walk. */
  class FeatureSet {
    var entries: FeatureMap
    var strings: seq<Feature>
    var bytes: seq<Feature>

    ghost predicate Valid()
      reads this
    {
      && Enumerates(strings, set f | f in entries && f.IsString())
      && Enumerates(bytes, set f | f in entries && f.Bytes?)
    }

    constructor ()
      ensures Valid() && entries == map[]
    {
      entries, strings, bytes := map[], [], [];
    }

    method Add(f: Feature, a: Address)
      requires Valid()
      modifies this
      ensures Valid() && entries == Added(old(entries), f, a)
    {
      NoteNew(f);
      entries := Added(entries, f, a);
    }

    method AddAll(batch: seq<(Feature, Address)>)
      requires Valid()
      modifies this
      ensures Valid() && entries == AddedAll(old(entries), batch)
    {
      for i := 0 to |batch|
        invariant Valid() && entries == AddedAll(old(entries), batch[..i])
      {
        assert batch[..i + 1][..i] == batch[..i];
        Add(batch[i].0, batch[i].1);
      }
      assert batch[..|batch|] == batch;
    }

    /** Entries of the other set are visited in no particular order. */
    method MergeIn(other: FeatureMap)
      requires Valid()
      modifies this
      ensures Valid() && entries == Merged(old(entries), other)
    {
      ghost var was := entries;
      var rest := other.Keys;
      while rest != {}
        invariant Valid() && rest <= other.Keys
        invariant entries.Keys == was.Keys + (other.Keys - rest)
        invariant forall f :: f in entries ==>
          entries[f] == Places(was, f) + (if f in rest then {} else Places(other, f))
      {
        var f :| f in rest;
        NoteNew(f);
        entries := entries[f := Places(entries, f) + other[f]];
        rest := rest - {f};
      }
      assert entries == Merged(was, other);
    }

    // Keeps the tag indices in step with a key about to be inserted
    method NoteNew(f: Feature)
      requires Valid()
      modifies this
      ensures entries == old(entries)
      ensures Enumerates(strings, set g | g in entries.Keys + {f} && g.IsString())
      ensures Enumerates(bytes, set g | g in entries.Keys + {f} && g.Bytes?)
    {
      if f !in entries {
        if f.IsString() {
          EnumeratesMore(strings, (set g | g in entries && g.IsString()), f);
          strings := strings + [f];
        } else if f.Bytes? {
          EnumeratesMore(bytes, (set g | g in entries && g.Bytes?), f);
          bytes := bytes + [f];
        }
        assert (set g | g in entries.Keys + {f} && g.IsString())
            == (set g | g in entries && g.IsString()) + (if f.IsString() then {f} else {});
        assert (set g | g in entries.Keys + {f} && g.Bytes?)
            == (set g | g in entries && g.Bytes?) + (if f.Bytes? then {f} else {});
      }
    }
  }

  /** The list holds exactly the set's members, each once. */
  ghost predicate Enumerates<T(!new)>(list: seq<T>, s: set<T>) {
    && (forall x :: x in list <==> x in s)
    && (forall i, j :: 0 <= i < j < |list| ==> list[i] != list[j])
  }

  lemma EnumeratesMore<T(!new)>(list: seq<T>, s: set<T>, x: T)
    requires Enumerates(list, s) && x !in s
    ensures Enumerates(list + [x], s + {x})
  {
    assert forall y :: y in list + [x] <==> y in list || y == x;
  }
}
