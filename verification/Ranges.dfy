/** Tables of ranges: merging neighbours, and finding the range that holds a point. */
module Ranges {
  import opened Wrappers

  // All points from `first` to `last` have one value.
  datatype Row<V> = Row(first: nat, last: nat, value: V)

  ghost predicate Ordered<V>(rows: seq<Row<V>>) {
    && (forall i :: 0 <= i < |rows| ==> rows[i].first <= rows[i].last)
    && (forall i, j :: 0 <= i < j < |rows| ==> rows[i].last < rows[j].first)
  }

  predicate Holds<V>(row: Row<V>, p: nat) {
    row.first <= p <= row.last
  }

  // The value of a point, by going through all the rows.
  function Scan<V>(rows: seq<Row<V>>, p: nat): Option<V> {
    if rows == [] then None
    else
      var last := rows[|rows| - 1];
      if Holds(last, p) then Some(last.value) else Scan(rows[..|rows| - 1], p)
  }

  predicate Adjacent<V(==)>(a: Row<V>, b: Row<V>, may: V -> bool) {
    may(b.value) && a.value == b.value && a.last + 1 == b.first
  }

  // One row more: it lengthens the last row, or it is added.
  function Absorb<V(==)>(merged: seq<Row<V>>, row: Row<V>, may: V -> bool): seq<Row<V>> {
    if merged != [] && Adjacent(merged[|merged| - 1], row, may) then
      merged[..|merged| - 1] + [merged[|merged| - 1].(last := row.last)]
    else
      merged + [row]
  }

  function Merge<V(==)>(rows: seq<Row<V>>, may: V -> bool): seq<Row<V>> {
    if rows == [] then [] else Absorb(Merge(rows[..|rows| - 1], may), rows[|rows| - 1], may)
  }

  // Nothing is left to merge.
  ghost predicate Maximal<V>(rows: seq<Row<V>>, may: V -> bool) {
    forall i :: 0 <= i < |rows| - 1 ==> !Adjacent(rows[i], rows[i + 1], may)
  }

  lemma NothingMerged<V>(rows: seq<Row<V>>, may: V -> bool)
    ensures Merge(rows[..0], may) == []
  {
  }

  lemma OneMoreMerged<V>(rows: seq<Row<V>>, n: nat, may: V -> bool)
    requires n < |rows|
    ensures Merge(rows[..n + 1], may) == Absorb(Merge(rows[..n], may), rows[n], may)
  {
    assert rows[..n + 1][..n] == rows[..n];
  }

  method MergeRanges<V(==)>(rows: seq<Row<V>>) returns (merged: seq<Row<V>>)
    ensures merged == Merge(rows, v => true)
  {
    hide Merge;
    merged := [];
    var may: V -> bool := v => true;
    NothingMerged(rows, may);
    for n := 0 to |rows|
      invariant merged == Merge(rows[..n], may)
    {
      OneMoreMerged(rows, n, may);
      var row := rows[n];
      if merged != [] && merged[|merged| - 1].value == row.value && merged[|merged| - 1].last + 1 == row.first {
        merged := merged[|merged| - 1 := merged[|merged| - 1].(last := row.last)];
      } else {
        merged := merged + [row];
      }
    }
    assert rows[..|rows|] == rows;
  }

  lemma ScanAppend<V>(rows: seq<Row<V>>, row: Row<V>, p: nat)
    ensures Scan(rows + [row], p) == if Holds(row, p) then Some(row.value) else Scan(rows, p)
  {
    assert (rows + [row])[..|rows|] == rows;
  }

  // Merging keeps the order, the extent and the value of every point, and leaves nothing to merge.
  lemma {:induction false} MergeIsFaithful<V>(rows: seq<Row<V>>, may: V -> bool, p: nat)
    requires Ordered(rows)
    ensures var merged := Merge(rows, may);
      && Ordered(merged) && Maximal(merged, may) && Scan(merged, p) == Scan(rows, p)
      && (rows == [] <==> merged == [])
      && (rows != [] ==> merged[|merged| - 1].last == rows[|rows| - 1].last
                         && merged[|merged| - 1].value == rows[|rows| - 1].value)
  {
    if rows != [] {
      var n := |rows| - 1;
      MergeIsFaithful(rows[..n], may, p);
      AbsorbIsFaithful(Merge(rows[..n], may), rows[n], may, p);
    }
  }

  lemma AbsorbIsFaithful<V>(merged: seq<Row<V>>, row: Row<V>, may: V -> bool, p: nat)
    requires Ordered(merged) && Maximal(merged, may) && row.first <= row.last
    requires merged != [] ==> merged[|merged| - 1].last < row.first
    ensures var after := Absorb(merged, row, may);
      && Ordered(after) && Maximal(after, may) && after != []
      && after[|after| - 1].last == row.last && after[|after| - 1].value == row.value
      && Scan(after, p) == if Holds(row, p) then Some(row.value) else Scan(merged, p)
  {
    hide Scan;
    if merged != [] && Adjacent(merged[|merged| - 1], row, may) {
      var k := |merged| - 1;
      assert merged == merged[..k] + [merged[k]];
      ScanAppend(merged[..k], merged[k], p);
      ScanAppend(merged[..k], merged[k].(last := row.last), p);
    } else {
      ScanAppend(merged, row, p);
    }
  }

  lemma {:induction false} ScanFinds<V>(rows: seq<Row<V>>, k: nat, p: nat)
    requires Ordered(rows) && k < |rows| && Holds(rows[k], p)
    ensures Scan(rows, p) == Some(rows[k].value)
  {
    if k < |rows| - 1 {
      ScanFinds(rows[..|rows| - 1], k, p);
    }
  }

  lemma {:induction false} ScanMisses<V>(rows: seq<Row<V>>, p: nat)
    requires forall i :: 0 <= i < |rows| ==> !Holds(rows[i], p)
    ensures Scan(rows, p) == None
  {
    if rows != [] {
      ScanMisses(rows[..|rows| - 1], p);
    }
  }

  ghost predicate SameValues<V>(a: seq<Row<V>>, b: seq<Row<V>>) {
    forall p: nat :: Scan(a, p) == Scan(b, p)
  }

  // Tables that give every point the same value merge into the same table.
  lemma MergeIsCanonical<V>(a: seq<Row<V>>, b: seq<Row<V>>)
    requires Ordered(a) && Ordered(b) && SameValues(a, b)
    ensures Merge(a, v => true) == Merge(b, v => true)
  {
    var may: V -> bool := v => true;
    MergeIsFaithful(a, may, 0);
    MergeIsFaithful(b, may, 0);
    forall p: nat
      ensures Scan(Merge(a, may), p) == Scan(Merge(b, may), p)
    {
      MergeIsFaithful(a, may, p);
      MergeIsFaithful(b, may, p);
    }
    MaximalIsUnique(Merge(a, may), Merge(b, may), may);
  }

  lemma {:induction false} MaximalIsUnique<V>(a: seq<Row<V>>, b: seq<Row<V>>, may: V -> bool)
    requires Ordered(a) && Ordered(b) && Maximal(a, may) && Maximal(b, may) && SameValues(a, b)
    requires forall v :: may(v)
    ensures a == b
  {
    hide Scan, Maximal;
    NothingIsEmpty(a, b);
    NothingIsEmpty(b, a);
    if a != [] {
      LastAgrees(a, b, may);
      LastAgrees(b, a, may);
      SameWithoutLast(a, b);
      MaximalWithoutLast(a, may);
      MaximalWithoutLast(b, may);
      var n := |a| - 1;
      MaximalIsUnique(a[..n], b[..|b| - 1], may);
      assert a == a[..n] + [a[n]] && b == b[..|b| - 1] + [b[|b| - 1]];
    }
  }

  lemma MaximalWithoutLast<V>(a: seq<Row<V>>, may: V -> bool)
    requires Maximal(a, may) && a != []
    ensures Maximal(a[..|a| - 1], may)
  {
  }

  lemma SameWithoutLast<V>(a: seq<Row<V>>, b: seq<Row<V>>)
    requires Ordered(a) && Ordered(b) && SameValues(a, b)
    requires a != [] && b != [] && a[|a| - 1] == b[|b| - 1]
    ensures SameValues(a[..|a| - 1], b[..|b| - 1])
  {
    var a', b' := a[..|a| - 1], b[..|b| - 1];
    forall p: nat
      ensures Scan(a', p) == Scan(b', p)
    {
      assert Scan(a, p) == Scan(b, p);
      if Holds(a[|a| - 1], p) {
        ScanMisses(a', p);
        ScanMisses(b', p);
      }
    }
  }

  lemma NothingIsEmpty<V>(a: seq<Row<V>>, b: seq<Row<V>>)
    requires Ordered(b) && SameValues(a, b)
    ensures a == [] ==> b == []
  {
    if b != [] {
      ScanFinds(b, 0, b[0].first);
      assert Scan(a, b[0].first) == Scan(b, b[0].first);
    }
  }

  lemma {:induction false} ScanHolder<V>(rows: seq<Row<V>>, p: nat) returns (k: nat)
    requires Scan(rows, p).Some?
    ensures k < |rows| && Holds(rows[k], p) && Scan(rows, p) == Some(rows[k].value)
  {
    k := |rows| - 1;
    if !Holds(rows[k], p) {
      k := ScanHolder(rows[..k], p);
    }
  }

  // The last rows of two maximal tables of the same values end together, with one value, and the
  // one does not begin before the other.
  lemma LastAgrees<V>(a: seq<Row<V>>, b: seq<Row<V>>, may: V -> bool)
    requires Ordered(a) && Ordered(b) && Maximal(b, may) && SameValues(a, b) && a != [] && b != []
    requires forall v :: may(v)
    ensures var x, y := a[|a| - 1], b[|b| - 1];
      x.last <= y.last && (x.last == y.last ==> x.value == y.value && y.first <= x.first)
  {
    var x, y := a[|a| - 1], b[|b| - 1];
    ScanFinds(a, |a| - 1, x.last);
    assert Scan(a, x.last) == Scan(b, x.last);
    var k := ScanHolder(b, x.last);
    if x.last == y.last {
      ScanFinds(b, |b| - 1, x.last);
      if x.first < y.first {
        var p := y.first - 1;
        ScanFinds(a, |a| - 1, p);
        assert Scan(a, p) == Scan(b, p);
        var l := ScanHolder(b, p);
        EndsBeforeLast(b, l, p);
        JoinsTheLast(b, l, may);
      }
    }
  }

  lemma EndsBeforeLast<V>(b: seq<Row<V>>, l: nat, p: nat)
    requires Ordered(b) && l < |b| && Holds(b[l], p) && p + 1 == b[|b| - 1].first
    ensures b[l].last == p
  {
  }

  lemma JoinsTheLast<V>(b: seq<Row<V>>, l: nat, may: V -> bool)
    requires Ordered(b) && Maximal(b, may) && forall v :: may(v)
    requires l < |b| && b[l].last + 1 == b[|b| - 1].first
    ensures b[l].value != b[|b| - 1].value
  {
    assert l < |b| - 1;
    NothingBetween(b, l);
    assert !Adjacent(b[l], b[l + 1], may);
  }

  lemma NothingBetween<V>(b: seq<Row<V>>, l: nat)
    requires Ordered(b) && l < |b| - 1 && b[l].last + 1 == b[|b| - 1].first
    ensures l + 1 == |b| - 1
  {
    assert b[l].last < b[l + 1].first <= b[l + 1].last;
  }
}
