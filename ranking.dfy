/** The orderings the ranked queries ask the database for (`ORDER BY` a
    number, then a text), and a stable insertion sort that realises them. */
module Ranking {

  /** `a` sorts no later than `b`, comparing character codes. */
  predicate StrLeq(a: string, b: string)
    decreases |a|
  {
    |a| == 0 || (|b| > 0 && (a[0] < b[0] || (a[0] == b[0] && StrLeq(a[1..], b[1..]))))
  }

  lemma {:induction false} StrLeqTotal(a: string, b: string)
    ensures StrLeq(a, b) || StrLeq(b, a)
    decreases |a|
  {
    if |a| > 0 && |b| > 0 && a[0] == b[0] {
      StrLeqTotal(a[1..], b[1..]);
    }
  }

  lemma {:induction false} StrLeqTrans(a: string, b: string, c: string)
    requires StrLeq(a, b) && StrLeq(b, c)
    ensures StrLeq(a, c)
    decreases |a|
  {
    if |a| > 0 && a[0] == b[0] && b[0] == c[0] {
      StrLeqTrans(a[1..], b[1..], c[1..]);
    }
  }

  /** An `ORDER BY` key: a number ascending, then a text ascending. A
      descending column is stored negated. */
  datatype SortKey = SortKey(primary: real, secondary: string)

  predicate KeyLeq(a: SortKey, b: SortKey) {
    a.primary < b.primary || (a.primary == b.primary && StrLeq(a.secondary, b.secondary))
  }

  lemma KeyLeqTotal(a: SortKey, b: SortKey)
    ensures KeyLeq(a, b) || KeyLeq(b, a)
  {
    StrLeqTotal(a.secondary, b.secondary);
  }

  lemma KeyLeqTrans(a: SortKey, b: SortKey, c: SortKey)
    requires KeyLeq(a, b) && KeyLeq(b, c)
    ensures KeyLeq(a, c)
  {
    if a.primary == b.primary && b.primary == c.primary {
      StrLeqTrans(a.secondary, b.secondary, c.secondary);
    }
  }

  predicate SortedBy<T>(s: seq<T>, key: T -> SortKey) {
    forall i, j :: 0 <= i < j < |s| ==> KeyLeq(key(s[i]), key(s[j]))
  }

  /** Puts `x` before the first element it does not sort after. */
  function Insert<T>(x: T, s: seq<T>, key: T -> SortKey): (r: seq<T>)
    requires SortedBy(s, key)
    ensures SortedBy(r, key)
    ensures multiset(r) == multiset(s) + multiset{x}
  {
    if |s| == 0 then [x]
    else if KeyLeq(key(x), key(s[0])) then
      InsertFront(x, s, key);
      [x] + s
    else
      var rest := Insert(x, s[1..], key);
      InsertBehind(x, s, rest, key);
      assert s == [s[0]] + s[1..];
      [s[0]] + rest
  }

  lemma InsertFront<T>(x: T, s: seq<T>, key: T -> SortKey)
    requires SortedBy(s, key) && |s| > 0 && KeyLeq(key(x), key(s[0]))
    ensures SortedBy([x] + s, key)
  {
    var r := [x] + s;
    forall i, j | 0 <= i < j < |r| ensures KeyLeq(key(r[i]), key(r[j])) {
      if i == 0 && j > 1 {
        KeyLeqTrans(key(x), key(s[0]), key(s[j - 1]));
      }
    }
  }

  lemma InsertBehind<T>(x: T, s: seq<T>, rest: seq<T>, key: T -> SortKey)
    requires SortedBy(s, key) && |s| > 0 && !KeyLeq(key(x), key(s[0]))
    requires SortedBy(rest, key) && multiset(rest) == multiset(s[1..]) + multiset{x}
    ensures SortedBy([s[0]] + rest, key)
  {
    KeyLeqTotal(key(x), key(s[0]));
    var r := [s[0]] + rest;
    forall i, j | 0 <= i < j < |r| ensures KeyLeq(key(r[i]), key(r[j])) {
      if i == 0 {
        var y := rest[j - 1];
        assert y in multiset(rest);
        if y != x {
          assert y in multiset(s[1..]);
          var k :| 0 <= k < |s[1..]| && s[1..][k] == y;
          assert s[k + 1] == y;
        }
      }
    }
  }

  /** The rows in key order; rows with equal keys keep their storage order. */
  function SortBy<T>(s: seq<T>, key: T -> SortKey): (r: seq<T>)
    ensures SortedBy(r, key)
    ensures multiset(r) == multiset(s)
  {
    if |s| == 0 then []
    else
      assert s == [s[0]] + s[1..];
      Insert(s[0], SortBy(s[1..], key), key)
  }

  /** Sorting keeps the number of rows. */
  lemma SortByLength<T>(s: seq<T>, key: T -> SortKey)
    ensures |SortBy(s, key)| == |s|
  {
    assert |multiset(SortBy(s, key))| == |multiset(s)|;
  }
}
