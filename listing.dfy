/**
 * Generic list machinery used by the repositories: reading a table in
 * primary-key order, LINQ-style filtering, and a stable sort that models
 * `OrderBy`.
 */
module Listing {

  // ---------------------------------------------------------------------
  // Duplicate-freedom

  /** Every element of `s` occurs exactly once. */
  ghost predicate NoDuplicates<T>(s: seq<T>) {
    forall x | x in s :: multiset(s)[x] == 1
  }

  /** Distinct keys hold distinct rows. */
  ghost predicate Injective<T>(m: map<int, T>) {
    forall j, k | j in m && k in m && j != k :: m[j] != m[k]
  }

  /** Two sequences with the same multiset have the same elements, length and duplicate-freedom. */
  lemma SameElements<T>(s: seq<T>, t: seq<T>)
    requires multiset(s) == multiset(t)
    ensures |s| == |t|
    ensures forall x :: x in s <==> x in t
    ensures NoDuplicates(s) ==> NoDuplicates(t)
  {
    assert |s| == |multiset(s)| == |multiset(t)| == |t|;
    forall x ensures x in s <==> x in t {
      assert x in s <==> x in multiset(s);
      assert x in t <==> x in multiset(t);
    }
  }

  /** Putting a new element in front of a duplicate-free sequence keeps it duplicate-free. */
  lemma ConsKeepsNoDuplicates<T>(x: T, t: seq<T>)
    requires NoDuplicates(t) && x !in t
    ensures NoDuplicates([x] + t)
  {
    var r := [x] + t;
    forall y | y in r ensures multiset(r)[y] == 1 {
      assert multiset(r)[y] == multiset([x])[y] + multiset(t)[y];
    }
  }

  // ---------------------------------------------------------------------
  // Primary-key order

  predicate IsLeast(m: int, s: set<int>) {
    m in s && forall k | k in s :: m <= k
  }

  lemma HasElement(s: set<int>)
    requires s != {}
    ensures exists x :: x in s
  {
    if forall x :: x !in s { assert false; }
  }

  lemma {:induction false} LeastExists(s: set<int>) returns (m: int)
    requires s != {}
    ensures IsLeast(m, s)
    decreases |s|
  {
    HasElement(s);
    var x :| x in s;
    if s == {x} {
      m := x;
    } else {
      var rest := s - {x};
      assert s == rest + {x};
      var r := LeastExists(rest);
      m := if x < r then x else r;
    }
  }

  lemma LeastIsDefined(s: set<int>)
    requires s != {}
    ensures exists m :: IsLeast(m, s)
  {
    var m := LeastExists(s);
  }

  /** The smallest key of a non-empty key set. */
  function MinKey(s: set<int>): (m: int)
    requires s != {}
    ensures IsLeast(m, s)
  {
    LeastIsDefined(s);
    var m :| IsLeast(m, s);
    m
  }

  /**
   * The rows of a table, in ascending primary-key order (the order in
   * which an unordered query over a clustered key returns them).
   */
  function Rows<T(!new,==)>(m: map<int, T>): (r: seq<T>)
    ensures |r| == |m|
    ensures forall k | k in m :: m[k] in r
    ensures forall x | x in r :: exists k | k in m :: m[k] == x
    ensures Injective(m) ==> NoDuplicates(r)
    decreases |m|
  {
    if m == map[] then []
    else
      var k := MinKey(m.Keys);
      var rest := m - {k};
      var t := Rows(rest);
      var r := [m[k]] + t;
      assert forall j | j in m :: j == k || j in rest;
      assert Injective(m) ==> NoDuplicates(r) by {
        if Injective(m) {
          forall j | j in rest ensures rest[j] != m[k] {
            assert j in m && j != k;
          }
          ConsKeepsNoDuplicates(m[k], t);
        }
      }
      r
  }

  // ---------------------------------------------------------------------
  // Filtering, as LINQ's `Where`

  function Filter<T(!new,==)>(s: seq<T>, p: T -> bool): (r: seq<T>)
    ensures forall x :: x in r <==> x in s && p(x)
    ensures multiset(r) <= multiset(s)
    ensures NoDuplicates(s) ==> NoDuplicates(r)
  {
    if s == [] then []
    else
      assert s == [s[0]] + s[1..];
      var t := Filter(s[1..], p);
      var r := if p(s[0]) then [s[0]] + t else t;
      assert NoDuplicates(s) ==> NoDuplicates(r) by {
        if NoDuplicates(s) {
          forall x | x in r ensures multiset(r)[x] == 1 {
            assert multiset(s)[x] == multiset([s[0]])[x] + multiset(s[1..])[x];
            if p(s[0]) {
              assert multiset(r)[x] == multiset([s[0]])[x] + multiset(t)[x];
            }
          }
        }
      }
      r
  }

  // ---------------------------------------------------------------------
  // Sorting, as LINQ's `OrderBy`

  /** `le` compares every pair and is transitive. */
  ghost predicate TotalPreorder<T(!new)>(le: (T, T) -> bool) {
    (forall a, b :: le(a, b) || le(b, a)) &&
    (forall a, b, c :: le(a, b) && le(b, c) ==> le(a, c))
  }

  ghost predicate Ordered<T>(s: seq<T>, le: (T, T) -> bool) {
    forall i, j | 0 <= i < j < |s| :: le(s[i], s[j])
  }

  function Insert<T(!new)>(x: T, s: seq<T>, le: (T, T) -> bool): (r: seq<T>)
    requires TotalPreorder(le) && Ordered(s, le)
    ensures multiset(r) == multiset(s) + multiset{x}
    ensures Ordered(r, le)
  {
    if s == [] then [x]
    else if le(x, s[0]) then
      assert forall j | 0 <= j < |s| :: le(s[0], s[j]);
      [x] + s
    else
      assert s == [s[0]] + s[1..];
      var t := Insert(x, s[1..], le);
      assert forall y | y in multiset(t) :: le(s[0], y) by {
        forall y | y in multiset(t) ensures le(s[0], y) {
          if y != x {
            assert y in multiset(s[1..]);
            assert y in s[1..];
          }
        }
      }
      var r := [s[0]] + t;
      assert forall j | 0 < j < |r| :: r[j] == t[j - 1] && t[j - 1] in multiset(t);
      r
  }

  /** Insertion sort by `le`; ties keep their input order. */
  function SortBy<T(!new)>(s: seq<T>, le: (T, T) -> bool): (r: seq<T>)
    requires TotalPreorder(le)
    ensures multiset(r) == multiset(s)
    ensures |r| == |s|
    ensures forall x :: x in r <==> x in s
    ensures NoDuplicates(s) ==> NoDuplicates(r)
    ensures Ordered(r, le)
  {
    if s == [] then []
    else
      assert s == [s[0]] + s[1..];
      var r := Insert(s[0], SortBy(s[1..], le), le);
      SameElements(s, r);
      r
  }

  // ---------------------------------------------------------------------
  // Ordinal string order (the model's stand-in for the database collation)

  predicate StrLe(a: string, b: string) {
    if a == [] then true
    else if b == [] then false
    else if a[0] == b[0] then StrLe(a[1..], b[1..])
    else a[0] < b[0]
  }

  lemma {:induction false} StrLeTotal(a: string, b: string)
    ensures StrLe(a, b) || StrLe(b, a)
  {
    if a != [] && b != [] && a[0] == b[0] {
      StrLeTotal(a[1..], b[1..]);
    }
  }

  lemma {:induction false} StrLeTransitive(a: string, b: string, c: string)
    requires StrLe(a, b) && StrLe(b, c)
    ensures StrLe(a, c)
  {
    if a != [] && b != [] && c != [] && a[0] == b[0] && b[0] == c[0] {
      StrLeTransitive(a[1..], b[1..], c[1..]);
    }
  }

  /** Ordering records by a string column is a total preorder. */
  lemma KeyOrderIsTotal<T(!new)>(key: T -> string, le: (T, T) -> bool)
    requires forall a, b :: le(a, b) == StrLe(key(a), key(b))
    ensures TotalPreorder(le)
  {
    forall a, b ensures le(a, b) || le(b, a) {
      StrLeTotal(key(a), key(b));
    }
    forall a, b, c | le(a, b) && le(b, c) ensures le(a, c) {
      StrLeTransitive(key(a), key(b), key(c));
    }
  }
}
