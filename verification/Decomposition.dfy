/** Canonical decomposition, all the way down in one pass. */
module Decomposition {

  // What each decomposable point is made of.
  type Table = map<nat, seq<nat>>

  // How far a point is from being done.
  type Rank = nat -> nat

  // No point is made of itself, however far down.
  ghost predicate Acyclic(table: Table, rank: Rank) {
    forall p, c :: p in table && c in table[p] && c in table ==> rank(c) < rank(p)
  }

  // The parts of `s` decomposed, when all of them rank below `bound`.
  ghost function Below(table: Table, rank: Rank, s: seq<nat>, bound: nat): seq<nat>
    requires Acyclic(table, rank)
    requires forall c :: c in s && c in table ==> rank(c) < bound
    decreases bound, |s|
  {
    if s == [] then []
    else
      var last := s[|s| - 1];
      assert last in s;
      Below(table, rank, s[..|s| - 1], bound) + (if last in table then Full(table, rank, last) else [last])
  }

  ghost function Full(table: Table, rank: Rank, p: nat): seq<nat>
    requires Acyclic(table, rank) && p in table
    decreases rank(p), |table[p]| + 1
  {
    Below(table, rank, table[p], rank(p))
  }

  // A string with every character decomposed.
  ghost function Decomposed(table: Table, rank: Rank, s: seq<nat>): seq<nat>
    requires Acyclic(table, rank)
  {
    if s == [] then []
    else
      var last := s[|s| - 1];
      Decomposed(table, rank, s[..|s| - 1]) + (if last in table then Full(table, rank, last) else [last])
  }

  lemma {:induction false} BelowIsDecomposed(table: Table, rank: Rank, s: seq<nat>, bound: nat)
    requires Acyclic(table, rank) && forall c :: c in s && c in table ==> rank(c) < bound
    ensures Below(table, rank, s, bound) == Decomposed(table, rank, s)
  {
    if s != [] {
      BelowIsDecomposed(table, rank, s[..|s| - 1], bound);
    }
  }

  method FullDecomposition(point: nat, table: Table, ghost rank: Rank) returns (out: seq<nat>)
    requires Acyclic(table, rank) && point in table
    ensures out == Full(table, rank, point)
    decreases rank(point)
  {
    out := [];
    var parts := table[point];
    for n := 0 to |parts|
      invariant out == Decomposed(table, rank, parts[..n])
    {
      var each := parts[n];
      assert each in parts;
      assert parts[..n + 1][..n] == parts[..n];
      if each in table {
        var more := FullDecomposition(each, table, rank);
        out := out + more;
      } else {
        out := out + [each];
      }
    }
    assert parts[..|parts|] == parts;
    BelowIsDecomposed(table, rank, parts, rank(point));
  }

  // One character of a string replaced by what it is made of.
  function Rewrite(table: Table, s: seq<nat>, i: nat): seq<nat>
    requires i < |s| && s[i] in table
  {
    s[..i] + table[s[i]] + s[i + 1..]
  }

  // `t` comes from `s` by replacing `n` characters, one at a time and anywhere.
  ghost predicate Reaches(table: Table, s: seq<nat>, t: seq<nat>, n: nat)
    decreases n
  {
    if n == 0 then s == t
    else exists i :: 0 <= i < |s| && s[i] in table && Reaches(table, Rewrite(table, s, i), t, n - 1)
  }

  ghost predicate Done(table: Table, s: seq<nat>) {
    forall i :: 0 <= i < |s| ==> s[i] !in table
  }

  lemma {:induction false} DecomposedConcat(table: Table, rank: Rank, a: seq<nat>, b: seq<nat>)
    requires Acyclic(table, rank)
    ensures Decomposed(table, rank, a + b) == Decomposed(table, rank, a) + Decomposed(table, rank, b)
  {
    if b == [] {
      assert a + b == a;
    } else {
      assert (a + b)[..|a + b| - 1] == a + b[..|b| - 1];
      DecomposedConcat(table, rank, a, b[..|b| - 1]);
    }
  }

  lemma DecomposedOne(table: Table, rank: Rank, c: nat)
    requires Acyclic(table, rank)
    ensures Decomposed(table, rank, [c]) == if c in table then Decomposed(table, rank, table[c]) else [c]
  {
    assert [c][..0] == [];
    assert Decomposed(table, rank, []) == [];
    if c in table {
      BelowIsDecomposed(table, rank, table[c], rank(c));
    }
  }

  // How many replacements a string takes until it is done.
  ghost function Work(table: Table, rank: Rank, s: seq<nat>, bound: nat): nat
    requires Acyclic(table, rank)
    requires forall c :: c in s && c in table ==> rank(c) < bound
    decreases bound, |s|
  {
    if s == [] then 0
    else
      var last := s[|s| - 1];
      assert last in s;
      Work(table, rank, s[..|s| - 1], bound)
      + (if last in table then 1 + Work(table, rank, table[last], rank(last)) else 0)
  }

  // A bound on the ranks within a string.
  ghost function Bound(rank: Rank, s: seq<nat>): (b: nat)
    ensures forall c :: c in s ==> rank(c) < b
  {
    if s == [] then 0
    else
      var b, r := Bound(rank, s[..|s| - 1]), rank(s[|s| - 1]) + 1;
      assert forall c :: c in s ==> c in s[..|s| - 1] || c == s[|s| - 1];
      if b > r then b else r
  }

  lemma {:induction false} WorkIsUnbounded(table: Table, rank: Rank, s: seq<nat>, a: nat, b: nat)
    requires Acyclic(table, rank)
    requires forall c :: c in s && c in table ==> rank(c) < a && rank(c) < b
    ensures Work(table, rank, s, a) == Work(table, rank, s, b)
  {
    if s != [] {
      WorkIsUnbounded(table, rank, s[..|s| - 1], a, b);
    }
  }

  ghost function Steps(table: Table, rank: Rank, s: seq<nat>): nat
    requires Acyclic(table, rank)
  {
    Work(table, rank, s, Bound(rank, s))
  }

  lemma {:induction false} StepsConcat(table: Table, rank: Rank, a: seq<nat>, b: seq<nat>)
    requires Acyclic(table, rank)
    ensures Steps(table, rank, a + b) == Steps(table, rank, a) + Steps(table, rank, b)
  {
    var bound := Bound(rank, a + b);
    WorkConcat(table, rank, a, b, bound);
    WorkIsUnbounded(table, rank, a, bound, Bound(rank, a));
    WorkIsUnbounded(table, rank, b, bound, Bound(rank, b));
  }

  lemma {:induction false} WorkConcat(table: Table, rank: Rank, a: seq<nat>, b: seq<nat>, bound: nat)
    requires Acyclic(table, rank) && forall c :: c in a + b ==> rank(c) < bound
    ensures Work(table, rank, a + b, bound) == Work(table, rank, a, bound) + Work(table, rank, b, bound)
  {
    if b == [] {
      assert a + b == a;
    } else {
      assert (a + b)[..|a + b| - 1] == a + b[..|b| - 1];
      assert forall c :: c in a + b[..|b| - 1] ==> c in a + b;
      WorkConcat(table, rank, a, b[..|b| - 1], bound);
    }
  }

  lemma StepsOne(table: Table, rank: Rank, c: nat)
    requires Acyclic(table, rank)
    ensures Steps(table, rank, [c]) == if c in table then 1 + Steps(table, rank, table[c]) else 0
  {
    assert [c][..0] == [];
    assert Work(table, rank, [], Bound(rank, [c])) == 0;
    if c in table {
      WorkIsUnbounded(table, rank, table[c], rank(c), Bound(rank, table[c]));
    }
  }

  // A replacement anywhere leads to the same end, and is one step nearer to it.
  lemma RewriteIsProgress(table: Table, rank: Rank, s: seq<nat>, i: nat)
    requires Acyclic(table, rank) && i < |s| && s[i] in table
    ensures Decomposed(table, rank, Rewrite(table, s, i)) == Decomposed(table, rank, s)
    ensures Steps(table, rank, Rewrite(table, s, i)) == Steps(table, rank, s) - 1
  {
    var a, m, b := s[..i], table[s[i]], s[i + 1..];
    assert s == (a + [s[i]]) + b;
    DecomposedConcat(table, rank, a + [s[i]], b);
    DecomposedConcat(table, rank, a, [s[i]]);
    DecomposedConcat(table, rank, a + m, b);
    DecomposedConcat(table, rank, a, m);
    DecomposedOne(table, rank, s[i]);
    StepsConcat(table, rank, a + [s[i]], b);
    StepsConcat(table, rank, a, [s[i]]);
    StepsConcat(table, rank, a + m, b);
    StepsConcat(table, rank, a, m);
    StepsOne(table, rank, s[i]);
  }

  lemma {:induction false} DoneIsDecomposed(table: Table, rank: Rank, s: seq<nat>)
    requires Acyclic(table, rank) && Done(table, s)
    ensures Decomposed(table, rank, s) == s && Steps(table, rank, s) == 0
  {
    if s == [] {
      assert Steps(table, rank, []) == 0;
    } else {
      var n := |s| - 1;
      DoneIsDecomposed(table, rank, s[..n]);
      assert s == s[..n] + [s[n]];
      StepsConcat(table, rank, s[..n], [s[n]]);
      StepsOne(table, rank, s[n]);
    }
  }

  lemma {:induction false} RunKeepsEnd(table: Table, rank: Rank, s: seq<nat>, t: seq<nat>, n: nat)
    requires Acyclic(table, rank) && Reaches(table, s, t, n)
    ensures Decomposed(table, rank, t) == Decomposed(table, rank, s)
    ensures Steps(table, rank, t) + n == Steps(table, rank, s)
    decreases n
  {
    hide Decomposed, Steps, Rewrite;
    if n > 0 {
      var i :| 0 <= i < |s| && s[i] in table && Reaches(table, Rewrite(table, s, i), t, n - 1);
      RewriteIsProgress(table, rank, s, i);
      RunKeepsEnd(table, rank, Rewrite(table, s, i), t, n - 1);
    }
  }

  // There is always a way on until the string is done.
  lemma {:induction false} SomeRunEnds(table: Table, rank: Rank, s: seq<nat>)
    requires Acyclic(table, rank)
    ensures Reaches(table, s, Decomposed(table, rank, s), Steps(table, rank, s))
    ensures Done(table, Decomposed(table, rank, s))
    decreases Steps(table, rank, s)
  {
    if i :| 0 <= i < |s| && s[i] in table {
      RewriteIsProgress(table, rank, s, i);
      SomeRunEnds(table, rank, Rewrite(table, s, i));
    } else {
      DoneIsDecomposed(table, rank, s);
    }
  }

  // One pass does what replacing until nothing changes does: a run from `s` that ends where nothing
  // is left to replace ends in the decomposed string, after the same number of steps, whatever the
  // order of the replacements. Such a run exists, and every run can be continued to one.
  lemma OnePassIsEnough(table: Table, rank: Rank, s: seq<nat>, t: seq<nat>, n: nat)
    requires Acyclic(table, rank)
    ensures Reaches(table, s, t, n) && Done(table, t) <==>
            t == Decomposed(table, rank, s) && n == Steps(table, rank, s)
    ensures Reaches(table, s, t, n) ==>
            n <= Steps(table, rank, s)
            && Reaches(table, t, Decomposed(table, rank, s), Steps(table, rank, s) - n)
  {
    SomeRunEnds(table, rank, s);
    if Reaches(table, s, t, n) {
      RunKeepsEnd(table, rank, s, t, n);
      SomeRunEnds(table, rank, t);
      if Done(table, t) {
        DoneIsDecomposed(table, rank, t);
      }
    }
  }
}
