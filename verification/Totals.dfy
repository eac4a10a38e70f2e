/** Sums over the values of a finite map, and of the lengths of sequences. */
module Totals {

  ghost function Total(m: map<nat, nat>): nat
    decreases |m|
  {
    if m == map[] then 0
    else
      var k :| k in m;
      m[k] + Total(m - {k})
  }

  /** The sum may be taken from any key first. */
  lemma {:induction false} TotalSplit(m: map<nat, nat>, k: nat)
    requires k in m
    ensures Total(m) == m[k] + Total(m - {k})
    decreases |m|
  {
    var j :| j in m && Total(m) == m[j] + Total(m - {j});
    if j != k {
      TotalSplit(m - {j}, k);
      TotalSplit(m - {k}, j);
      assert m - {j} - {k} == m - {k} - {j};
    }
  }

  lemma TotalUpdate(m: map<nat, nat>, k: nat, v: nat)
    ensures Total(m[k := v]) == v + Total(m - {k})
    ensures Total(m) == (if k in m then m[k] else 0) + Total(m - {k})
  {
    TotalSplit(m[k := v], k);
    assert m[k := v] - {k} == m - {k};
    if k in m { TotalSplit(m, k); } else { assert m - {k} == m; }
  }

  /** The number of elements in all rows. */
  ghost function TotalLength(rows: seq<seq<nat>>): nat {
    if rows == [] then 0 else |rows[0]| + TotalLength(rows[1..])
  }

  lemma {:induction false} TotalLengthUpdate(rows: seq<seq<nat>>, i: nat, row: seq<nat>)
    requires i < |rows|
    ensures TotalLength(rows[i := row]) == TotalLength(rows) - |rows[i]| + |row|
    ensures TotalLength(rows) >= |rows[i]|
  {
    if i == 0 {
      assert rows[i := row][1..] == rows[1..];
    } else {
      assert rows[i := row][1..] == rows[1..][i - 1 := row];
      TotalLengthUpdate(rows[1..], i - 1, row);
    }
  }

  lemma {:induction false} TotalLengthEmpty(rows: seq<seq<nat>>)
    requires forall i :: 0 <= i < |rows| ==> rows[i] == []
    ensures TotalLength(rows) == 0
  {
    if rows == [] {
    } else {
      TotalLengthEmpty(rows[1..]);
    }
  }

  lemma {:induction false} TotalLengthBound(rows: seq<seq<nat>>, most: nat)
    requires forall i :: 0 <= i < |rows| ==> |rows[i]| <= most
    ensures TotalLength(rows) <= |rows| * most
  {
    if rows == [] {
    } else {
      TotalLengthBound(rows[1..], most);
    }
  }
}
