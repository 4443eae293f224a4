/** What the library's stable sort computes, for any strict weak order. */
module Sorting {

  ghost predicate StrictWeakOrder<T(!new)>(less: (T, T) -> bool) {
    && (forall a :: !less(a, a))
    && (forall a, b, c :: less(a, b) && less(b, c) ==> less(a, c))
    && (forall a, b, c :: !less(a, b) && !less(b, c) ==> !less(a, c))
  }

  ghost predicate Sorted<T>(s: seq<T>, less: (T, T) -> bool) {
    forall i, j | 0 <= i < j < |s| :: !less(s[j], s[i])
  }

  /** The members that neither precede nor follow x, in the order they appear. */
  function Ties<T>(s: seq<T>, x: T, less: (T, T) -> bool): seq<T> {
    if s == [] then []
    else (if less(s[0], x) || less(x, s[0]) then [] else [s[0]]) + Ties(s[1..], x, less)
  }

  /** x placed after every member it does not precede. */
  function Insert<T>(x: T, s: seq<T>, less: (T, T) -> bool): seq<T> {
    if s == [] || less(x, s[0]) then [x] + s else [s[0]] + Insert(x, s[1..], less)
  }

  function StableSort<T>(s: seq<T>, less: (T, T) -> bool): seq<T> {
    if s == [] then [] else Insert(s[|s| - 1], StableSort(s[..|s| - 1], less), less)
  }

  lemma {:induction false} InsertKeeps<T>(x: T, s: seq<T>, less: (T, T) -> bool)
    ensures multiset(Insert(x, s, less)) == multiset(s) + multiset{x}
  {
    if s != [] && !less(x, s[0]) {
      InsertKeeps(x, s[1..], less);
      assert s == [s[0]] + s[1..];
    }
  }

  lemma {:induction false} InsertSorts<T(!new)>(x: T, s: seq<T>, less: (T, T) -> bool)
    requires StrictWeakOrder(less) && Sorted(s, less)
    ensures Sorted(Insert(x, s, less), less)
  {
    if s != [] && !less(x, s[0]) {
      InsertSorts(x, s[1..], less);
      InsertKeeps(x, s[1..], less);
      var r := Insert(x, s[1..], less);
      forall y | y in r ensures !less(y, s[0]) {
        assert y in multiset(r);
      }
    } else if s != [] {
      forall j | 0 <= j < |s| ensures !less(s[j], x) {
        assert !less(s[j], s[0]) && less(x, s[0]);
      }
    }
  }

  lemma {:induction false} InsertTies<T(!new)>(x: T, s: seq<T>, y: T, less: (T, T) -> bool)
    requires StrictWeakOrder(less) && Sorted(s, less)
    ensures Ties(Insert(x, s, less), y, less) == Ties(s, y, less) + (if less(x, y) || less(y, x) then [] else [x])
  {
    if s == [] || less(x, s[0]) {
      InsertFirstTies(x, s, y, less);
    } else {
      InsertTies(x, s[1..], y, less);
      hide StrictWeakOrder, Sorted;
      TiesCons(s[0], Insert(x, s[1..], less), y, less);
    }
  }

  // x goes in front: if it is a tie of y, no member behind it is
  lemma InsertFirstTies<T(!new)>(x: T, s: seq<T>, y: T, less: (T, T) -> bool)
    requires StrictWeakOrder(less) && Sorted(s, less) && (s == [] || less(x, s[0]))
    ensures Ties([x] + s, y, less) == Ties(s, y, less) + (if less(x, y) || less(y, x) then [] else [x])
  {
    if s != [] && !less(x, y) && !less(y, x) {
      AllFollow(x, s, y, less);
      NoTies(s, y, less);
    }
    hide StrictWeakOrder, Sorted;
    TiesCons(x, s, y, less);
  }

  lemma AllFollow<T(!new)>(x: T, s: seq<T>, y: T, less: (T, T) -> bool)
    requires StrictWeakOrder(less) && Sorted(s, less) && s != [] && less(x, s[0]) && !less(x, y)
    ensures forall z | z in s :: less(y, z)
  {
    forall z | z in s ensures less(y, z) {
      assert !less(z, s[0]);
      assert less(x, z);
    }
  }

  lemma TiesCons<T>(x: T, s: seq<T>, y: T, less: (T, T) -> bool)
    ensures Ties([x] + s, y, less) == (if less(x, y) || less(y, x) then [] else [x]) + Ties(s, y, less)
  {
    assert ([x] + s)[1..] == s;
  }

  // Everything in a list whose members all follow y is no tie of y
  lemma {:induction false} NoTies<T(!new)>(s: seq<T>, y: T, less: (T, T) -> bool)
    requires forall z | z in s :: less(y, z)
    ensures Ties(s, y, less) == []
  {
    if s != [] {
      assert s[0] in s;
      NoTies(s[1..], y, less);
    }
  }

  /** The result is sorted, a permutation, and keeps ties in their original order. */
  lemma {:induction false} StableSortCorrect<T(!new)>(s: seq<T>, less: (T, T) -> bool)
    requires StrictWeakOrder(less)
    ensures Sorted(StableSort(s, less), less)
    ensures multiset(StableSort(s, less)) == multiset(s)
    ensures forall y :: Ties(StableSort(s, less), y, less) == Ties(s, y, less)
  {
    if s != [] {
      var front, x := s[..|s| - 1], s[|s| - 1];
      StableSortCorrect(front, less);
      var r := StableSort(front, less);
      InsertSorts(x, r, less);
      InsertKeeps(x, r, less);
      assert s == front + [x];
      forall y ensures Ties(StableSort(s, less), y, less) == Ties(s, y, less) {
        InsertTies(x, r, y, less);
        TiesSnoc(front, x, y, less);
      }
    }
  }

  lemma {:induction false} TiesSnoc<T>(s: seq<T>, x: T, y: T, less: (T, T) -> bool)
    ensures Ties(s + [x], y, less) == Ties(s, y, less) + (if less(x, y) || less(y, x) then [] else [x])
  {
    if s != [] {
      TiesSnoc(s[1..], x, y, less);
      assert (s + [x])[1..] == s[1..] + [x];
    }
  }
}
