/** Strict total orders and the sorted enumeration of a finite set: what iterating a BTreeMap or a
    BTreeSet visits. */
module Order {

  ghost predicate StrictTotal<T(!new)>(less: (T, T) -> bool) {
    && (forall x :: !less(x, x))
    && (forall x, y, z :: less(x, y) && less(y, z) ==> less(x, z))
    && (forall x, y :: x == y || less(x, y) || less(y, x))
  }

  ghost predicate Increasing<T>(s: seq<T>, less: (T, T) -> bool) {
    forall i, j :: 0 <= i < j < |s| ==> less(s[i], s[j])
  }

  /** s lists exactly the elements of the set, each once, in increasing order. */
  ghost predicate Enumerates<T(!new)>(s: seq<T>, elems: set<T>, less: (T, T) -> bool) {
    && Increasing(s, less)
    && (forall x :: x in s <==> x in elems)
  }

  ghost predicate Distinct<T>(s: seq<T>) {
    forall i, j :: 0 <= i < j < |s| ==> s[i] != s[j]
  }

  ghost predicate IsLeast<T>(m: T, elems: set<T>, less: (T, T) -> bool) {
    m in elems && forall x :: x in elems && x != m ==> less(m, x)
  }

  lemma {:induction false} LeastExists<T(!new)>(elems: set<T>, less: (T, T) -> bool) returns (m: T)
    requires StrictTotal(less) && elems != {}
    ensures IsLeast(m, elems, less)
  {
    m :| m in elems;
    if elems != {m} {
      var rest := LeastExists(elems - {m}, less);
      if less(rest, m) {
        m := rest;
      }
    }
  }

  /** The sorted list of a set's elements. */
  function Sorted<T(!new, ==)>(elems: set<T>, less: (T, T) -> bool): (r: seq<T>)
    requires StrictTotal(less)
    ensures |r| == |elems|
  {
    if elems == {} then [] else
      assert exists m :: IsLeast(m, elems, less) by { var m := LeastExists(elems, less); }
      var m :| m in elems && forall x :: x in elems && x != m ==> less(m, x);
      [m] + Sorted(elems - {m}, less)
  }

  lemma {:induction false} SortedEnumerates<T(!new)>(elems: set<T>, less: (T, T) -> bool)
    requires StrictTotal(less)
    ensures Enumerates(Sorted(elems, less), elems, less)
  {
    if elems != {} {
      assert exists m :: IsLeast(m, elems, less) by { var m := LeastExists(elems, less); }
      var m :| m in elems && forall x :: x in elems && x != m ==> less(m, x);
      var rest := Sorted(elems - {m}, less);
      SortedEnumerates(elems - {m}, less);
      assert Sorted(elems, less) == [m] + rest;
      LeastFirst(m, rest, elems, less);
    }
  }

  lemma LeastFirst<T(!new)>(m: T, rest: seq<T>, elems: set<T>, less: (T, T) -> bool)
    requires IsLeast(m, elems, less) && Enumerates(rest, elems - {m}, less)
    ensures Enumerates([m] + rest, elems, less)
  {
    assert forall x :: x in [m] + rest <==> x == m || x in rest;
    forall j | 0 <= j < |rest| ensures less(m, rest[j]) {
      assert rest[j] in rest;
    }
  }

  /** An increasing list is determined by its elements. */
  lemma {:induction false} SortedUnique<T(!new)>(s: seq<T>, t: seq<T>, less: (T, T) -> bool)
    requires StrictTotal(less)
    requires Increasing(s, less) && Increasing(t, less)
    requires forall x :: x in s <==> x in t
    ensures s == t
  {
    if s == [] {
      assert forall i :: 0 <= i < |t| ==> t[i] in s;
    } else {
      assert s[0] in t;
      assert t[0] in s;
      var k :| 0 <= k < |t| && t[k] == s[0];
      var l :| 0 <= l < |s| && s[l] == t[0];
      assert k == 0 && l == 0;
      forall x ensures x in s[1..] <==> x in t[1..] {
        if x in s[1..] {
          assert x in s && less(s[0], x);
          assert x in t && x != t[0];
        }
        if x in t[1..] {
          assert x in t && less(t[0], x);
          assert x in s && x != s[0];
        }
      }
      SortedUnique(s[1..], t[1..], less);
      assert s == [s[0]] + s[1..] && t == [t[0]] + t[1..];
    }
  }

  /** Any list that enumerates the set in order is its sorted list. */
  lemma SortedIsTheEnumeration<T(!new)>(s: seq<T>, elems: set<T>, less: (T, T) -> bool)
    requires StrictTotal(less) && Enumerates(s, elems, less)
    ensures s == Sorted(elems, less)
  {
    SortedEnumerates(elems, less);
    SortedUnique(s, Sorted(elems, less), less);
  }

  /** The number of elements of a duplicate-free list is the size of its element set. */
  lemma {:induction false} DistinctSize<T>(s: seq<T>, elems: set<T>)
    requires Distinct(s)
    requires forall x :: x in s <==> x in elems
    ensures |s| == |elems|
  {
    if s == [] {
      assert elems == {};
    } else {
      var last := s[|s| - 1];
      forall x ensures x in s[..|s| - 1] <==> x in elems - {last} {
        if x in elems - {last} {
          assert x in s;
          var k :| 0 <= k < |s| && s[k] == x;
          assert s[..|s| - 1][k] == x;
        }
      }
      DistinctSize(s[..|s| - 1], elems - {last});
      assert last in elems;
    }
  }
}
