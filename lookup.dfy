/**
 * `cursor.fetchone()` after a `SELECT ... WHERE ...`: the first row of a
 * table, in table order, that satisfies the `WHERE` clause. Both agents run
 * their lookups through this scan; `matches` is the clause.
 */
module Lookup {
  /** Row `i` is the first row of `rows` that satisfies `matches`. */
  predicate IsFirst<R>(rows: seq<R>, matches: R -> bool, i: int) {
    0 <= i < |rows| && matches(rows[i])
    && forall j :: 0 <= j < i ==> !matches(rows[j])
  }

  /** Index of the first matching row at or after `i`, or `|rows|` when there is none. */
  function FirstFrom<R>(rows: seq<R>, matches: R -> bool, i: nat): (r: nat)
    requires i <= |rows|
    ensures i <= r <= |rows|
    ensures r < |rows| ==> matches(rows[r])
    ensures forall j :: i <= j < r ==> !matches(rows[j])
    decreases |rows| - i
  {
    if i == |rows| then i
    else if matches(rows[i]) then i
    else FirstFrom(rows, matches, i + 1)
  }

  /** The row `fetchone` returns, as an index; `|rows|` stands for `None`. */
  function First<R>(rows: seq<R>, matches: R -> bool): (r: nat)
    ensures r <= |rows|
    ensures r < |rows| <==> exists i :: 0 <= i < |rows| && matches(rows[i])
    ensures r < |rows| ==> IsFirst(rows, matches, r)
  {
    FirstFrom(rows, matches, 0)
  }

  /** The first match is unique: any row that is a first match is the one returned. */
  lemma FirstIsUnique<R>(rows: seq<R>, matches: R -> bool, i: int)
    requires IsFirst(rows, matches, i)
    ensures First(rows, matches) == i
  {
    var r := First(rows, matches);
    assert r <= i;
  }

  /** Rows added after the first match never change what the lookup returns. */
  lemma LaterRowsDoNotMatter<R>(rows: seq<R>, more: seq<R>, matches: R -> bool)
    requires First(rows, matches) < |rows|
    ensures First(rows + more, matches) == First(rows, matches)
  {
    var i := First(rows, matches);
    assert IsFirst(rows + more, matches, i) by {
      forall j | 0 <= j <= i
        ensures (rows + more)[j] == rows[j]
      {
      }
    }
    FirstIsUnique(rows + more, matches, i);
  }

  /** Two clauses that accept the same rows select the same first row. */
  lemma {:induction false} SameMatchesSameFirst<R>(rows: seq<R>, m1: R -> bool, m2: R -> bool, i: nat)
    requires i <= |rows|
    requires forall j :: 0 <= j < |rows| ==> m1(rows[j]) == m2(rows[j])
    ensures FirstFrom(rows, m1, i) == FirstFrom(rows, m2, i)
    decreases |rows| - i
  {
    if i < |rows| && !m1(rows[i]) {
      SameMatchesSameFirst(rows, m1, m2, i + 1);
    }
  }
}
