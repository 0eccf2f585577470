/**
 * `ORDER BY` on one integer column. SQL leaves the order of rows with equal
 * keys unspecified; the model fixes it by a stable insertion sort, so rows
 * with equal keys keep their table order.
 */
module Sorting {
  import opened Common

  ghost predicate SortedBy<T>(s: seq<T>, key: T -> int)
  {
    forall i, j :: 0 <= i < j < |s| ==> key(s[i]) <= key(s[j])
  }

  /** Places `x` after every element whose key is at most its own. */
  function InsertBy<T>(s: seq<T>, x: T, key: T -> int): (r: seq<T>)
    requires SortedBy(s, key)
    ensures SortedBy(r, key)
    ensures multiset(r) == multiset(s) + multiset{x}
    ensures |r| == |s| + 1
    ensures r[0] == x || (s != [] && r[0] == s[0])
  {
    if s == [] then [x]
    else if key(x) < key(s[0]) then [x] + s
    else
      var tail := InsertBy(s[1..], x, key);
      assert s == [s[0]] + s[1..];
      [s[0]] + tail
  }

  /** The rows of `s` in non-decreasing order of `key`. */
  function SortBy<T>(s: seq<T>, key: T -> int): (r: seq<T>)
    ensures SortedBy(r, key)
    ensures multiset(r) == multiset(s)
    ensures |r| == |s|
  {
    if s == [] then []
    else
      assert s == s[..|s| - 1] + [s[|s| - 1]];
      InsertBy(SortBy(s[..|s| - 1], key), s[|s| - 1], key)
  }

  /** A page of a sorted table is sorted, and holds only rows of the table. */
  lemma PageOfSorted<T>(s: seq<T>, key: T -> int, skip: nat, limit: nat)
    requires SortedBy(s, key)
    ensures SortedBy(Page(s, skip, limit), key)
    ensures forall x :: x in Page(s, skip, limit) ==> x in s
  {
    var p := Page(s, skip, limit);
    forall i, j | 0 <= i < j < |p| ensures key(p[i]) <= key(p[j]) {
      assert p[i] == s[skip + i] && p[j] == s[skip + j];
    }
    forall x | x in p ensures x in s {
      var k :| 0 <= k < |p| && p[k] == x;
      assert s[skip + k] == x;
    }
  }

  /** A row is in the sorted output exactly when it is in the input. */
  lemma SortByKeepsRows<T>(s: seq<T>, key: T -> int, x: T)
    ensures x in SortBy(s, key) <==> x in s
  {
    assert x in SortBy(s, key) <==> x in multiset(SortBy(s, key));
    assert x in s <==> x in multiset(s);
  }

  /** `filter(owner == id)`: the rows whose owner is `id`, in table order, each as often as in the table. */
  function RowsOf<T(!new)>(rows: seq<T>, owner: T -> int, id: int): (r: seq<T>)
    ensures |r| <= |rows|
    ensures forall x :: x in r <==> x in rows && owner(x) == id
    ensures forall x :: multiset(r)[x] == if owner(x) == id then multiset(rows)[x] else 0
  {
    if rows == [] then []
    else
      assert rows == [rows[0]] + rows[1..];
      (if owner(rows[0]) == id then [rows[0]] else []) + RowsOf(rows[1..], owner, id)
  }

  /**
   * `order_by(key).offset(skip).limit(limit)`: the page at `skip` of some
   * arrangement of all the rows by non-decreasing key.
   */
  function SortedPage<T(!new)>(rows: seq<T>, key: T -> int, skip: nat, limit: nat): (r: seq<T>)
    ensures |r| == if skip >= |rows| then 0 else Min(limit, |rows| - skip)
    ensures SortedBy(r, key)
    ensures forall x :: x in r ==> x in rows
    ensures exists arranged :: multiset(arranged) == multiset(rows) && SortedBy(arranged, key) && r == Page(arranged, skip, limit)
    ensures skip == 0 && limit >= |rows| ==> multiset(r) == multiset(rows)
  {
    var arranged := SortBy(rows, key);
    PageOfSorted(arranged, key, skip, limit);
    forall x | x in arranged ensures x in rows {
      SortByKeepsRows(rows, key, x);
    }
    assert skip == 0 && limit >= |rows| ==> Page(arranged, skip, limit) == arranged;
    Page(arranged, skip, limit)
  }

  /** A first page at least as long as the table holds every row of the owner, and nothing else. */
  lemma FirstPageHoldsAllOwned<T(!new)>(rows: seq<T>, owner: T -> int, id: int, key: T -> int, limit: nat)
    requires limit >= |rows|
    ensures forall x ::
      multiset(SortedPage(RowsOf(rows, owner, id), key, 0, limit))[x] == (if owner(x) == id then multiset(rows)[x] else 0)
  {
  }
}
