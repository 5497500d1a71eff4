/**
 * In-memory tables as sequences of rows.  A SQL query that filters a table
 * and calls fetchone() sees the first matching row in table order; COUNT(*)
 * counts the matching rows; a WHERE clause keeps the matching rows in order.
 */
module Tables {
  import opened Outcomes

  /** Index of the first row satisfying `p` (what fetchone() returns), if any. */
  function FirstWhere<T>(rows: seq<T>, p: T -> bool): (r: Option<nat>)
    ensures r.None? <==> forall i :: 0 <= i < |rows| ==> !p(rows[i])
    ensures r.Some? ==> r.value < |rows| && p(rows[r.value])
    ensures r.Some? ==> forall j :: 0 <= j < r.value ==> !p(rows[j])
  {
    if |rows| == 0 then None
    else if p(rows[0]) then Some(0)
    else match FirstWhere(rows[1..], p)
      case None => None
      case Some(k) => Some(k + 1)
  }

  /** Number of rows satisfying `p` (SELECT COUNT(*) ... WHERE p). */
  function CountWhere<T>(rows: seq<T>, p: T -> bool): (n: nat)
    ensures n <= |rows|
    ensures n == 0 <==> forall i :: 0 <= i < |rows| ==> !p(rows[i])
  {
    if |rows| == 0 then 0
    else (if p(rows[0]) then 1 else 0) + CountWhere(rows[1..], p)
  }

  /** The rows satisfying `p`, in table order (SELECT * ... WHERE p). */
  function Where<T(!new)>(rows: seq<T>, p: T -> bool): (r: seq<T>)
    ensures |r| == CountWhere(rows, p)
    ensures forall x :: x in r <==> x in rows && p(x)
    ensures forall x :: multiset(r)[x] == if p(x) then multiset(rows)[x] else 0
  {
    if |rows| == 0 then []
    else
      assert rows == [rows[0]] + rows[1..];
      (if p(rows[0]) then [rows[0]] else []) + Where(rows[1..], p)
  }

  /** Appending a row adds one to a count exactly when the row matches. */
  lemma {:induction false} CountAppend<T>(rows: seq<T>, x: T, p: T -> bool)
    ensures CountWhere(rows + [x], p) == CountWhere(rows, p) + (if p(x) then 1 else 0)
  {
    if |rows| > 0 {
      assert (rows + [x])[1..] == rows[1..] + [x];
      CountAppend(rows[1..], x, p);
    }
  }

  /** Replacing one row changes a count by the difference of the two rows' matches. */
  lemma {:induction false} CountUpdate<T>(rows: seq<T>, k: nat, x: T, p: T -> bool)
    requires k < |rows|
    ensures CountWhere(rows[k := x], p)
         == CountWhere(rows, p) - (if p(rows[k]) then 1 else 0) + (if p(x) then 1 else 0)
  {
    if k > 0 {
      assert rows[k := x][1..] == rows[1..][k - 1 := x];
      CountUpdate(rows[1..], k - 1, x, p);
    }
  }

  /** A filter that no row passes keeps nothing. */
  lemma WhereNone<T(!new)>(rows: seq<T>, p: T -> bool)
    requires forall i :: 0 <= i < |rows| ==> !p(rows[i])
    ensures Where(rows, p) == []
  {
  }
}
