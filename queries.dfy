/** The filtered, ordered and paged reads the repositories build with the
    query builder: `WHERE`, `ORDER BY`, then `skip`/`take`. */
module Queries {
  import opened Common
  import opened Ranking
  import opened Paging

  /** `WHERE p(row)`: the rows that satisfy `p`, each as often as it is stored. */
  function Keep<T(!new)>(rows: seq<T>, p: T -> bool): (r: seq<T>)
    ensures forall x :: multiset(r)[x] == if p(x) then multiset(rows)[x] else 0
    ensures forall x :: x in r <==> x in rows && p(x)
  {
    if |rows| == 0 then []
    else
      assert rows == [rows[0]] + rows[1..];
      var rest := Keep(rows[1..], p);
      var r := (if p(rows[0]) then [rows[0]] else []) + rest;
      assert forall x :: x in r <==> multiset(r)[x] > 0;
      assert forall x :: x in rows <==> multiset(rows)[x] > 0;
      r
  }

  /** A page cut from a sorted sequence is sorted and holds only its rows. */
  lemma PageOfSorted<T>(s: seq<T>, key: T -> SortKey, page: Option<PageOpts>)
    requires SortedBy(s, key)
    ensures SortedBy(ApplyPage(s, page), key)
    ensures forall x :: x in ApplyPage(s, page) ==> x in s
  {
    if page.Some? {
      var r := ApplyPage(s, page);
      var k := Start(|s|, page.value.skip);
      forall i, j | 0 <= i < j < |r| ensures KeyLeq(key(r[i]), key(r[j])) {
        assert r[i] == s[k + i] && r[j] == s[k + j];
      }
      forall x | x in r ensures x in s {
        var i :| 0 <= i < |r| && r[i] == x;
        assert s[k + i] == x;
      }
    }
  }

  /** `SELECT … WHERE where ORDER BY orderBy` with optional paging: only
      matching rows, in order; unpaged, exactly the matching rows; paged, at
      most `take` of them. Rows with equal keys keep their storage order. */
  function Select<T(!new)>(rows: seq<T>, where: T -> bool, orderBy: T -> SortKey, page: Option<PageOpts>): (r: seq<T>)
    ensures forall x :: x in r ==> x in rows && where(x)
    ensures SortedBy(r, orderBy)
    ensures page.None? ==> forall x :: multiset(r)[x] == if where(x) then multiset(rows)[x] else 0
    ensures page.Some? && page.value.take.Some? && page.value.take.value > 0 ==> |r| <= page.value.take.value
  {
    var sorted := SortBy(Keep(rows, where), orderBy);
    PageOfSorted(sorted, orderBy, page);
    forall x | x in sorted ensures x in Keep(rows, where) {
      assert multiset(sorted)[x] > 0;
    }
    ApplyPage(sorted, page)
  }

  /** `findNearby`: the rows within the clamped radius, nearest first, then
      paged. The distance of a row to the query point (the SQL great-circle
      expression) is a parameter. */
  function Nearby<T(!new)>(rows: seq<T>, distanceKm: T -> real, radiusKm: Option<real>, page: Option<PageOpts>): (r: seq<T>)
    ensures forall x :: x in r ==> x in rows && distanceKm(x) <= ClampRadius(radiusKm)
    ensures forall x :: x in r ==> distanceKm(x) <= MaxRadiusKm
    ensures forall i, j :: 0 <= i < j < |r| ==> distanceKm(r[i]) <= distanceKm(r[j])
    ensures page.None? ==>
              forall x :: multiset(r)[x] == if distanceKm(x) <= ClampRadius(radiusKm) then multiset(rows)[x] else 0
    ensures page.Some? && page.value.take.Some? && page.value.take.value > 0 ==> |r| <= page.value.take.value
  {
    var radius := ClampRadius(radiusKm);
    var near := (t: T) => distanceKm(t) <= radius;
    var key := (t: T) => SortKey(distanceKm(t), "");
    var r := Select(rows, near, key, page);
    SortedByDistance(r, distanceKm, key);
    r
  }

  /** Reading the distance key back: nearest first. */
  lemma SortedByDistance<T>(r: seq<T>, distanceKm: T -> real, key: T -> SortKey)
    requires forall t :: key(t) == SortKey(distanceKm(t), "")
    requires SortedBy(r, key)
    ensures forall i, j :: 0 <= i < j < |r| ==> distanceKm(r[i]) <= distanceKm(r[j])
  {
    forall i, j | 0 <= i < j < |r| ensures distanceKm(r[i]) <= distanceKm(r[j]) {
      assert KeyLeq(key(r[i]), key(r[j]));
    }
  }
}
