/**
 * The processing order of algorithm.py:29-30: the existing rentals plus the
 * new one, sorted ascending by the key (end, start). Python's `sorted` is
 * stable, so rentals with equal keys keep their input order; the model is a
 * stable insertion sort on a fresh sequence, which leaves the caller's list
 * as it was.
 */
module Ordering {
  import opened Rentals

  /** The sort key of a rental, compared lexicographically. */
  function KeyOf(r: Rental): (int, int) {
    (r.end, r.start)
  }

  predicate KeyLe(a: Rental, b: Rental) {
    a.end < b.end || (a.end == b.end && a.start <= b.start)
  }

  /** KeyLe is the lexicographic order on keys: total, transitive, and antisymmetric up to equal keys. */
  lemma KeyOrder(a: Rental, b: Rental, c: Rental)
    ensures KeyLe(a, b) || KeyLe(b, a)
    ensures KeyLe(a, b) && KeyLe(b, c) ==> KeyLe(a, c)
    ensures KeyLe(a, b) && KeyLe(b, a) <==> KeyOf(a) == KeyOf(b)
  {
  }

  predicate SortedByKey(s: seq<Rental>) {
    forall i, j :: 0 <= i < j < |s| ==> KeyLe(s[i], s[j])
  }

  /** No rental object occurs twice. */
  predicate NoAliases(s: seq<Rental>) {
    forall i, j :: 0 <= i < j < |s| ==> s[i] != s[j]
  }

  /** The rentals of s whose key is k, in the order of s. */
  function WithKey(s: seq<Rental>, k: (int, int)): (r: seq<Rental>)
    ensures forall x :: x in r ==> x in s && KeyOf(x) == k
  {
    if s == [] then []
    else if KeyOf(s[0]) == k then [s[0]] + WithKey(s[1..], k)
    else WithKey(s[1..], k)
  }

  /** Puts x before the first element whose key is not below x's. */
  function Insert(x: Rental, s: seq<Rental>): (r: seq<Rental>)
    ensures multiset(r) == multiset(s) + multiset{x}
  {
    if s == [] || KeyLe(x, s[0]) then [x] + s
    else
      assert s == [s[0]] + s[1..];
      [s[0]] + Insert(x, s[1..])
  }

  lemma InMultiset(y: Rental, s: seq<Rental>, r: seq<Rental>)
    requires multiset(r) == multiset(s)
    ensures y in r <==> y in s
  {
    assert y in r <==> y in multiset(r);
    assert y in s <==> y in multiset(s);
  }

  lemma MultisetMembers(s: seq<Rental>, r: seq<Rental>)
    requires multiset(r) == multiset(s)
    ensures forall i :: 0 <= i < |r| ==> r[i] in s
    ensures forall i :: 0 <= i < |s| ==> s[i] in r
  {
    forall i | 0 <= i < |r| ensures r[i] in s {
      InMultiset(r[i], s, r);
    }
    forall i | 0 <= i < |s| ensures s[i] in r {
      InMultiset(s[i], s, r);
    }
  }

  lemma {:induction false} InsertSorted(x: Rental, s: seq<Rental>)
    requires SortedByKey(s)
    ensures SortedByKey(Insert(x, s))
  {
    if s != [] && !KeyLe(x, s[0]) {
      var t := Insert(x, s[1..]);
      InsertSorted(x, s[1..]);
      forall y | y in t ensures KeyLe(s[0], y) {
        assert s == [s[0]] + s[1..];
        InMultiset(y, s[1..] + [x], t);
      }
    }
  }

  lemma {:induction false} InsertNoAliases(x: Rental, s: seq<Rental>)
    requires NoAliases(s) && x !in s
    ensures NoAliases(Insert(x, s))
  {
    if s != [] && !KeyLe(x, s[0]) {
      var t := Insert(x, s[1..]);
      InsertNoAliases(x, s[1..]);
      assert s == [s[0]] + s[1..];
      InMultiset(s[0], s[1..] + [x], t);
    }
  }

  /** Python's `sorted(rentals, key=lambda x: (x.end, x.start))`. */
  function SortByKey(s: seq<Rental>): (r: seq<Rental>)
    ensures multiset(r) == multiset(s)
    ensures forall i :: 0 <= i < |r| ==> r[i] in s
    ensures SortedByKey(r)
    ensures NoAliases(s) ==> NoAliases(r)
  {
    if s == [] then []
    else
      var t := SortByKey(s[1..]);
      assert s == [s[0]] + s[1..];
      InsertSorted(s[0], t);
      MultisetMembers(s, Insert(s[0], t));
      if NoAliases(s) then
        InMultiset(s[0], s[1..], t);
        InsertNoAliases(s[0], t);
        Insert(s[0], t)
      else
        Insert(s[0], t)
  }

  lemma {:induction false} WithKeyInsert(x: Rental, s: seq<Rental>, k: (int, int))
    ensures WithKey(Insert(x, s), k) == if KeyOf(x) == k then [x] + WithKey(s, k) else WithKey(s, k)
  {
    if s == [] || KeyLe(x, s[0]) {
      assert ([x] + s)[1..] == s;
    } else {
      var t := Insert(x, s[1..]);
      assert ([s[0]] + t)[1..] == t;
      WithKeyInsert(x, s[1..], k);
    }
  }

  /** Stability: for every key, the rentals with that key appear in the sorted order as in the input. */
  lemma {:induction false} SortIsStable(s: seq<Rental>, k: (int, int))
    ensures WithKey(SortByKey(s), k) == WithKey(s, k)
  {
    if s != [] {
      SortIsStable(s[1..], k);
      WithKeyInsert(s[0], SortByKey(s[1..]), k);
    }
  }

  /** The sorted order holds exactly the rentals of the input. */
  lemma SortSameRentals(s: seq<Rental>)
    ensures forall i :: 0 <= i < |s| ==> s[i] in SortByKey(s)
  {
    MultisetMembers(s, SortByKey(s));
  }
}
