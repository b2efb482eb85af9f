/** A database table seen as the sequence of its rows in storage order.
    TypeORM's `findOne({ where: { k: v } })` yields the first row whose key is
    `v`; a primary key is unique among the rows. */
module Table {
  import opened Common

  /** Position of the first row whose key is `k`, or None when no row has it. */
  function IndexOf<T>(rows: seq<T>, key: T -> string, k: string): (r: Option<nat>)
    ensures r.Some? ==> r.value < |rows| && key(rows[r.value]) == k
    ensures r.Some? ==> forall j :: 0 <= j < r.value ==> key(rows[j]) != k
    ensures r.None? <==> forall j :: 0 <= j < |rows| ==> key(rows[j]) != k
  {
    if |rows| == 0 then None
    else if key(rows[0]) == k then Some(0)
    else
      match IndexOf(rows[1..], key, k)
      case None => None
      case Some(i) => Some(i + 1)
  }

  /** No two rows share a key (a primary key, or a column the code keeps unique). */
  ghost predicate UniqueKeys<T>(rows: seq<T>, key: T -> string) {
    forall i, j :: 0 <= i < j < |rows| ==> key(rows[i]) != key(rows[j])
  }

  /** The table after `repo.remove(rows[i])`. */
  function Without<T>(rows: seq<T>, i: nat): (r: seq<T>)
    requires i < |rows|
    ensures |r| == |rows| - 1
    ensures forall j :: 0 <= j < i ==> r[j] == rows[j]
    ensures forall j :: i <= j < |r| ==> r[j] == rows[j + 1]
  {
    rows[..i] + rows[i + 1..]
  }

  /** With unique keys, looking a row up by its own key finds that row. */
  lemma IndexOfUnique<T>(rows: seq<T>, key: T -> string, i: nat)
    requires UniqueKeys(rows, key)
    requires i < |rows|
    ensures IndexOf(rows, key, key(rows[i])) == Some(i)
  {
  }

  /** Rewriting a row without touching its key changes no lookup by that key. */
  lemma IndexOfAfterUpdate<T>(rows: seq<T>, key: T -> string, i: nat, x: T, k: string)
    requires i < |rows|
    requires key(x) == key(rows[i])
    ensures IndexOf(rows[i := x], key, k) == IndexOf(rows, key, k)
  {
    assert forall j :: 0 <= j < |rows| ==> key(rows[i := x][j]) == key(rows[j]);
  }

  /** Appending a row changes no lookup that already finds a row. */
  lemma IndexOfAppendKeeps<T>(rows: seq<T>, key: T -> string, x: T, k: string)
    requires IndexOf(rows, key, k).Some?
    ensures IndexOf(rows + [x], key, k) == IndexOf(rows, key, k)
  {
    var i := IndexOf(rows, key, k).value;
    assert (rows + [x])[i] == rows[i];
    assert forall j :: 0 <= j < |rows| ==> (rows + [x])[j] == rows[j];
  }

  /** Rewriting a row keeps the keys unique when its key stays the same or
      moves to a key no row uses yet. */
  lemma UpdateKeepsUnique<T>(rows: seq<T>, key: T -> string, i: nat, x: T)
    requires UniqueKeys(rows, key)
    requires i < |rows|
    requires key(x) == key(rows[i]) || IndexOf(rows, key, key(x)).None?
    ensures UniqueKeys(rows[i := x], key)
  {
    var s := rows[i := x];
    forall a, b | 0 <= a < b < |s| ensures key(s[a]) != key(s[b]) {
      if a != i && b != i {
        assert s[a] == rows[a] && s[b] == rows[b];
      } else if a == i {
        assert s[b] == rows[b];
      } else {
        assert s[a] == rows[a];
      }
    }
  }

  /** Appending a row whose key is not yet used keeps the keys unique. */
  lemma AppendKeepsUnique<T>(rows: seq<T>, key: T -> string, x: T)
    requires UniqueKeys(rows, key)
    requires IndexOf(rows, key, key(x)).None?
    ensures UniqueKeys(rows + [x], key)
  {
    var s := rows + [x];
    forall a, b | 0 <= a < b < |s| ensures key(s[a]) != key(s[b]) {
      if b < |rows| {
        assert s[a] == rows[a] && s[b] == rows[b];
      } else {
        assert s[a] == rows[a] && s[b] == x;
      }
    }
  }

  /** Removing a row keeps the keys unique and leaves no row with its key. */
  lemma WithoutKeepsUnique<T>(rows: seq<T>, key: T -> string, i: nat)
    requires UniqueKeys(rows, key)
    requires i < |rows|
    ensures UniqueKeys(Without(rows, i), key)
    ensures IndexOf(Without(rows, i), key, key(rows[i])).None?
  {
    var s := Without(rows, i);
    forall a, b | 0 <= a < b < |s| ensures key(s[a]) != key(s[b]) {
      var a', b' := if a < i then a else a + 1, if b < i then b else b + 1;
      assert s[a] == rows[a'] && s[b] == rows[b'] && a' < b';
    }
    forall j | 0 <= j < |s| ensures key(s[j]) != key(rows[i]) {
      var j' := if j < i then j else j + 1;
      assert s[j] == rows[j'] && j' != i;
    }
  }
}
