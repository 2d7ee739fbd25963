/** Small shared vocabulary: an optional value, distinctness of a sequence, and 32-bit conversion. */
module Prelude {

  datatype Option<+T> = None | Some(value: T)

  predicate Distinct<T(==)>(s: seq<T>) {
    forall i, j :: 0 <= i < j < |s| ==> s[i] != s[j]
  }

  /** The elements of a sequence as a set. */
  function Elements<T>(s: seq<T>): set<T> {
    set x | x in s
  }

  /** The list has the keys of the map, once each. */
  predicate Enumerates<V>(order: seq<string>, m: map<string, V>) {
    Distinct(order) && Elements(order) == m.Keys
  }

  /** A list without repetitions has as many elements as positions. */
  lemma {:induction false} DistinctCardinality<T>(s: seq<T>)
    requires Distinct(s)
    ensures |Elements(s)| == |s|
  {
    if s != [] {
      var front, last := s[..|s| - 1], s[|s| - 1];
      DistinctCardinality(front);
      assert Elements(s) == Elements(front) + {last};
    }
  }

  /** A list without repetitions whose elements all lie in a set is no longer than that set. */
  lemma {:induction false} DistinctFits<T>(s: seq<T>, bound: set<T>)
    requires Distinct(s)
    requires forall x :: x in s ==> x in bound
    ensures |s| <= |bound|
    ensures |s| == |bound| ==> Elements(s) == bound
  {
    DistinctCardinality(s);
    assert Elements(s) <= bound;
    var rest := bound - Elements(s);
    assert bound == Elements(s) + rest;
    assert |bound| == |s| + |rest|;
  }

  lemma SomeElement<T>(s: set<T>) returns (x: T)
    requires s != {}
    ensures x in s
  {
    x :| x in s;
  }

  function Insert<T>(s: seq<T>, k: nat, x: T): seq<T>
    requires k <= |s|
  {
    s[..k] + [x] + s[k..]
  }

  /** Inserting a new element keeps a list distinct and adds just that element. */
  lemma InsertDistinct<T>(s: seq<T>, k: nat, x: T)
    requires Distinct(s) && x !in s && k <= |s|
    ensures Distinct(Insert(s, k, x))
    ensures forall y :: y in Insert(s, k, x) <==> y in s || y == x
    ensures Elements(Insert(s, k, x)) == Elements(s) + {x}
  {
    var t := Insert(s, k, x);
    assert s == s[..k] + s[k..];
    assert forall y :: y in t <==> y in s || y == x;
    forall i, j | 0 <= i < j < |t|
      ensures t[i] != t[j]
    {
      if i == k { assert t[j] == s[j - 1]; }
      if j == k { assert t[i] == s[i]; }
    }
  }

  /** Conversion to a signed 32-bit integer keeps the low 32 bits. */
  function Int32(n: int): (r: int)
    ensures -0x8000_0000 <= r < 0x8000_0000
    ensures r == n <==> -0x8000_0000 <= n < 0x8000_0000
    ensures (r - n) % 0x1_0000_0000 == 0
  {
    (n + 0x8000_0000) % 0x1_0000_0000 - 0x8000_0000
  }
}
