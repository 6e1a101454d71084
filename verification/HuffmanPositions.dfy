/** Positions of the code tree, and what the Kraft equality says about them. */
module HuffmanPositions {
  import opened Bits
  import opened HuffmanCode
  import opened Wrappers

  // A position is the root, or a prefix of some codeword.
  ghost predicate IsPosition(codes: Table, p: Path) {
    p == [] || exists i :: 0 <= i < |codes| && p <= Word(codes[i])
  }

  // The symbol whose codeword ends at `p`, among the first `n`. A later symbol takes the place of
  // an earlier one.
  function SymbolUpTo(codes: Table, n: nat, p: Path): (r: Option<nat>)
    requires n <= |codes|
    ensures r.Some? ==> r.value < n && Word(codes[r.value]) == p
    ensures r.None? ==> forall i :: 0 <= i < n ==> Word(codes[i]) != p
  {
    if n == 0 then None
    else if Word(codes[n - 1]) == p then Some(n - 1)
    else SymbolUpTo(codes, n - 1, p)
  }

  function SymbolAt(codes: Table, p: Path): Option<nat> {
    SymbolUpTo(codes, |codes|, p)
  }

  ghost predicate IsInterior(codes: Table, p: Path) {
    IsPosition(codes, p) && SymbolAt(codes, p).None?
  }

  ghost predicate HasBothChildren(codes: Table, p: Path) {
    IsPosition(codes, p + [false]) && IsPosition(codes, p + [true])
  }

  // The share of the space that the first `n` codewords take at and below `p`.
  ghost function Mass(codes: Table, n: nat, p: Path): nat
    requires n <= |codes|
  {
    if n == 0 then 0
    else Mass(codes, n - 1, p) + (if p <= Word(codes[n - 1]) then Share(codes[n - 1]) else 0)
  }

  // How many of the first `n` codewords are at or below `p`.
  ghost function Leaves(codes: Table, n: nat, p: Path): nat
    requires n <= |codes|
  {
    if n == 0 then 0
    else Leaves(codes, n - 1, p) + (if p <= Word(codes[n - 1]) then 1 else 0)
  }

  lemma {:induction false} MassOfRoot(codes: Table, n: nat)
    requires n <= |codes|
    ensures Mass(codes, n, []) == KraftSum(codes, n)
    ensures Leaves(codes, n, []) == n
  {
    if n > 0 {
      MassOfRoot(codes, n - 1);
    }
  }

  lemma {:induction false} NothingBelow(codes: Table, n: nat, p: Path)
    requires n <= |codes|
    requires forall i :: 0 <= i < n ==> !(p <= Word(codes[i]))
    ensures Mass(codes, n, p) == 0 && Leaves(codes, n, p) == 0
  {
    if n > 0 {
      NothingBelow(codes, n - 1, p);
    }
  }

  lemma {:induction false} SomethingBelow(codes: Table, n: nat, p: Path)
    requires n <= |codes| && Leaves(codes, n, p) > 0
    ensures exists i :: 0 <= i < n && p <= Word(codes[i])
  {
    if !(p <= Word(codes[n - 1])) {
      SomethingBelow(codes, n - 1, p);
    }
  }

  lemma {:induction false} OnlyOneBelow(codes: Table, n: nat, p: Path, k: nat)
    requires k < n <= |codes| && p <= Word(codes[k])
    requires forall i :: 0 <= i < n && i != k ==> !(p <= Word(codes[i]))
    ensures Mass(codes, n, p) == Share(codes[k]) && Leaves(codes, n, p) == 1
  {
    if k == n - 1 {
      NothingBelow(codes, n - 1, p);
    } else {
      OnlyOneBelow(codes, n - 1, p, k);
    }
  }

  // The space below a position that is no codeword is the space below its two children.
  lemma {:induction false} MassSplits(codes: Table, n: nat, p: Path)
    requires n <= |codes|
    requires forall i :: 0 <= i < n ==> Word(codes[i]) != p
    ensures Mass(codes, n, p) == Mass(codes, n, p + [false]) + Mass(codes, n, p + [true])
    ensures Leaves(codes, n, p) == Leaves(codes, n, p + [false]) + Leaves(codes, n, p + [true])
  {
    if n > 0 {
      MassSplits(codes, n - 1, p);
      Branches(p, Word(codes[n - 1]));
    }
  }

  // Kraft's inequality, for the subtree at `p`.
  lemma {:induction false} MassBound(codes: Table, p: Path)
    requires Sized(codes) && PrefixFree(codes) && Distinct(codes) && |p| <= LONGEST
    ensures Mass(codes, |codes|, p) <= Pow2(LONGEST - |p|)
    ensures Mass(codes, |codes|, p) > 0 ==> Leaves(codes, |codes|, p) > 0
    decreases LONGEST - |p|
  {
    if SymbolAt(codes, p).Some? {
      AloneBelow(codes, p);
    } else if |p| == LONGEST {
      NothingBelow(codes, |codes|, p);
    } else {
      MassSplits(codes, |codes|, p);
      MassBound(codes, p + [false]);
      MassBound(codes, p + [true]);
    }
  }

  // The subtree at a codeword is that one leaf.
  lemma AloneBelow(codes: Table, p: Path)
    requires Sized(codes) && PrefixFree(codes) && Distinct(codes) && SymbolAt(codes, p).Some?
    ensures Mass(codes, |codes|, p) == Pow2(LONGEST - |p|) && Leaves(codes, |codes|, p) == 1
  {
    var k := SymbolAt(codes, p).value;
    forall i | 0 <= i < |codes| && i != k
      ensures !(p <= Word(codes[i]))
    {
      assert Word(codes[i]) != p && !ProperPrefix(p, Word(codes[i]));
    }
    OnlyOneBelow(codes, |codes|, p, k);
  }

  // No codeword stands above a position.
  lemma ParentIsInterior(codes: Table, p: Path, q: Path)
    requires PrefixFree(codes) && IsPosition(codes, q) && ProperPrefix(p, q)
    ensures IsInterior(codes, p)
  {
    var i :| 0 <= i < |codes| && q <= Word(codes[i]);
    assert p <= Word(codes[i]);
    var at := SymbolAt(codes, p);
    assert at.Some? ==> ProperPrefix(Word(codes[at.value]), Word(codes[i]));
  }

  lemma LongestIsCodeword(codes: Table, p: Path)
    requires Sized(codes) && IsPosition(codes, p) && |p| >= LONGEST
    ensures |p| == LONGEST && SymbolAt(codes, p).Some?
  {
    var i :| 0 <= i < |codes| && p <= Word(codes[i]);
    assert SizedCode(codes[i]);
    assert p == Word(codes[i]);
  }

  lemma ChildrenAreFull(codes: Table, p: Path)
    requires Sized(codes) && PrefixFree(codes) && Distinct(codes)
    requires |p| < LONGEST && IsInterior(codes, p) && Mass(codes, |codes|, p) == Pow2(LONGEST - |p|)
    ensures Mass(codes, |codes|, p + [false]) == Mass(codes, |codes|, p + [true]) == Pow2(LONGEST - |p| - 1)
    ensures HasBothChildren(codes, p)
    ensures Leaves(codes, |codes|, p) == Leaves(codes, |codes|, p + [false]) + Leaves(codes, |codes|, p + [true])
  {
    MassSplits(codes, |codes|, p);
    MassBound(codes, p + [false]);
    MassBound(codes, p + [true]);
    SomethingBelow(codes, |codes|, p + [false]);
    SomethingBelow(codes, |codes|, p + [true]);
  }

  lemma FullChild(codes: Table, p: Path, bit: bool)
    requires Sized(codes) && PrefixFree(codes) && Distinct(codes)
    requires |p| <= LONGEST && IsInterior(codes, p) && Mass(codes, |codes|, p) == Pow2(LONGEST - |p|)
    ensures |p| < LONGEST && Mass(codes, |codes|, p + [bit]) == Pow2(LONGEST - |p| - 1)
  {
    if |p| >= LONGEST {
      LongestIsCodeword(codes, p);
    }
    ChildrenAreFull(codes, p);
  }

  // In a prefix code that meets Kraft's equality no space is left over anywhere: the subtree at
  // every position is full.
  lemma {:induction false} PositionsAreFull(codes: Table, p: Path)
    requires PrefixCode(codes) && IsPosition(codes, p)
    ensures |p| <= LONGEST && Mass(codes, |codes|, p) == Pow2(LONGEST - |p|)
  {
    hide IsPosition, SymbolUpTo, Mass, KraftSum, Sized, PrefixFree, Distinct;
    if p == [] {
      MassOfRoot(codes, |codes|);
    } else {
      var parent := p[..|p| - 1];
      assert p == parent + [p[|p| - 1]];
      assert IsInterior(codes, parent) by { ParentIsInterior(codes, parent, p); }
      PositionsAreFull(codes, parent);
      FullChild(codes, parent, p[|p| - 1]);
    }
  }

  // Completeness: every position that is not a codeword has both children.
  lemma InteriorIsBinary(codes: Table, p: Path)
    requires PrefixCode(codes) && IsInterior(codes, p)
    ensures |p| < LONGEST && HasBothChildren(codes, p)
    ensures Leaves(codes, |codes|, p) == Leaves(codes, |codes|, p + [false]) + Leaves(codes, |codes|, p + [true])
  {
    PositionsAreFull(codes, p);
    if |p| >= LONGEST {
      LongestIsCodeword(codes, p);
    }
    ChildrenAreFull(codes, p);
  }

  // Reading down from the root, a bit string of full length meets a codeword.
  lemma {:induction false} MeetsCodeword(codes: Table, p: Path, bits: Path) returns (symbol: nat)
    requires PrefixCode(codes) && |bits| >= LONGEST && |p| <= LONGEST
    requires p <= bits && IsPosition(codes, p)
    ensures symbol < |codes| && Word(codes[symbol]) <= bits
    decreases LONGEST - |p|
  {
    hide IsPosition;
    var at := SymbolAt(codes, p);
    if at.Some? {
      symbol := at.value;
    } else {
      InteriorIsBinary(codes, p);
      if bits[|p|] {
        symbol := MeetsCodeword(codes, p + [true], bits);
      } else {
        symbol := MeetsCodeword(codes, p + [false], bits);
      }
    }
  }

  ghost predicate StartsWithExactlyOne(codes: Table, bits: Path) {
    exists i :: 0 <= i < |codes| && Word(codes[i]) <= bits
      && forall j :: 0 <= j < |codes| && Word(codes[j]) <= bits ==> j == i
  }

  // Every bit string of at least LONGEST bits starts with the codeword of exactly one symbol.
  ghost predicate Complete(codes: Table) {
    forall bits: Path :: |bits| >= LONGEST ==> StartsWithExactlyOne(codes, bits)
  }

  lemma OneCodewordStarts(codes: Table, bits: Path)
    requires PrefixCode(codes) && |bits| >= LONGEST
    ensures StartsWithExactlyOne(codes, bits)
  {
    var i := MeetsCodeword(codes, [], bits);
    forall j | 0 <= j < |codes| && Word(codes[j]) <= bits
      ensures j == i
    {
      AtMostOneStarts(codes, bits, i, j);
    }
  }

  lemma AtMostOneStarts(codes: Table, bits: Path, i: nat, j: nat)
    requires PrefixFree(codes) && Distinct(codes) && i < |codes| && j < |codes|
    requires Word(codes[i]) <= bits && Word(codes[j]) <= bits
    ensures i == j
  {
    var a, b := Word(codes[i]), Word(codes[j]);
    assert !ProperPrefix(a, b) && !ProperPrefix(b, a);
    assert |a| == |b| && a == bits[..|a|] == b;
    assert i < j ==> a != b;
    assert j < i ==> a != b;
  }

  // What the checks are meant to establish holds exactly when, besides, no two symbols share a code.
  lemma CheckedIsCompleteIffDistinct(codes: Table)
    requires Checked(codes)
    ensures Complete(codes) <==> Distinct(codes)
  {
    if Distinct(codes) {
      forall bits: Path | |bits| >= LONGEST
        ensures StartsWithExactlyOne(codes, bits)
      {
        OneCodewordStarts(codes, bits);
      }
    } else {
      SharedCodeIsAmbiguous(codes);
    }
  }

  lemma SharedCodeIsAmbiguous(codes: Table)
    requires !Distinct(codes)
    ensures !Complete(codes)
  {
    hide StartsWithExactlyOne;
    var i, j :| 0 <= i < j < |codes| && Word(codes[i]) == Word(codes[j]);
    TwoCodewordsStart(codes, Word(codes[i]) + Ones(LONGEST), i, j);
  }

  lemma TwoCodewordsStart(codes: Table, bits: Path, i: nat, j: nat)
    requires i < j < |codes| && Word(codes[i]) == Word(codes[j]) <= bits
    ensures !StartsWithExactlyOne(codes, bits)
  {
  }

  // The symbol stands in the tree: no later symbol has taken its place.
  ghost predicate IsHeld(codes: Table, i: nat)
    requires i < |codes|
  {
    SymbolAt(codes, Word(codes[i])) == Some(i)
  }

  // The share of the space that those of the first `n` symbols take which stand in the tree, at and
  // below `p`.
  ghost function HeldMass(codes: Table, n: nat, p: Path): nat
    requires n <= |codes|
  {
    if n == 0 then 0
    else
      HeldMass(codes, n - 1, p)
      + (if p <= Word(codes[n - 1]) && IsHeld(codes, n - 1) then Share(codes[n - 1]) else 0)
  }

  lemma {:induction false} HeldMassSplits(codes: Table, n: nat, p: Path)
    requires n <= |codes| && SymbolAt(codes, p).None?
    ensures HeldMass(codes, n, p) == HeldMass(codes, n, p + [false]) + HeldMass(codes, n, p + [true])
  {
    hide IsHeld, SymbolUpTo, Word;
    if n > 0 {
      HeldMassSplits(codes, n - 1, p);
      Branches(p, Word(codes[n - 1]));
      assert Word(codes[n - 1]) != p;
    }
  }

  // At a codeword there is the one symbol that stands there.
  lemma {:induction false} HeldMassOfWord(codes: Table, n: nat, p: Path, k: nat)
    requires n <= |codes| && k < |codes| && PrefixFree(codes) && SymbolAt(codes, p) == Some(k)
    ensures HeldMass(codes, n, p) == if k < n then Share(codes[k]) else 0
  {
    hide SymbolUpTo, Word;
    if n > 0 {
      HeldMassOfWord(codes, n - 1, p, k);
      assert !ProperPrefix(Word(codes[k]), Word(codes[n - 1]));
      assert Word(codes[k]) == p;
      assert p <= Word(codes[n - 1]) ==> Word(codes[n - 1]) == p;
    }
  }

  ghost predicate IsBinary(codes: Table) {
    forall p :: IsInterior(codes, p) ==> HasBothChildren(codes, p)
  }

  // In a binary tree the symbols that stand in it fill the space below every position.
  lemma {:induction false} BinaryIsFilled(codes: Table, p: Path)
    requires Sized(codes) && PrefixFree(codes) && IsBinary(codes) && IsPosition(codes, p)
    ensures |p| <= LONGEST && HeldMass(codes, |codes|, p) == Pow2(LONGEST - |p|)
    decreases LONGEST - |p|
  {
    hide IsPosition, HeldMass, SymbolUpTo;
    PositionIsShort(codes, p);
    var at := SymbolAt(codes, p);
    if at.Some? {
      HeldMassOfWord(codes, |codes|, p, at.value);
      assert SizedCode(codes[at.value]);
    } else {
      assert IsInterior(codes, p) && HasBothChildren(codes, p);
      PositionIsShort(codes, p + [false]);
      BinaryIsFilled(codes, p + [false]);
      BinaryIsFilled(codes, p + [true]);
      HeldMassSplits(codes, |codes|, p);
    }
  }

  lemma PositionIsShort(codes: Table, p: Path)
    requires Sized(codes) && IsPosition(codes, p)
    ensures |p| <= LONGEST
  {
    if p != [] {
      var i :| 0 <= i < |codes| && p <= Word(codes[i]);
      assert SizedCode(codes[i]);
    }
  }

  // A symbol that has lost its place leaves less than all the shares.
  lemma {:induction false} HeldIsLess(codes: Table, n: nat, lost: nat)
    requires n <= |codes| && lost < |codes| && Sized(codes) && !IsHeld(codes, lost)
    ensures HeldMass(codes, n, []) + (if lost < n then 1 else 0) <= KraftSum(codes, n)
  {
    hide IsHeld, Word, SizedCode;
    if n > 0 {
      HeldIsLess(codes, n - 1, lost);
      ShareIsPositive(codes[n - 1]);
    }
  }

  lemma ShareIsPositive(c: Code)
    requires SizedCode(c)
    ensures Share(c) > 0
  {
  }

  lemma {:induction false} HeldIsLast(codes: Table, n: nat, p: Path, later: nat)
    requires later < n <= |codes| && Word(codes[later]) == p
    ensures SymbolUpTo(codes, n, p).Some? && SymbolUpTo(codes, n, p).value >= later
  {
    if Word(codes[n - 1]) != p {
      HeldIsLast(codes, n - 1, p, later);
    }
  }

  // In a table that passes the checks every interior node has both children exactly when no two
  // symbols share a codeword.
  lemma BinaryIffDistinct(codes: Table)
    requires Checked(codes)
    ensures IsBinary(codes) <==> Distinct(codes)
  {
    hide IsPosition, Word, HeldMass, KraftSum, PrefixFree;
    if Distinct(codes) {
      forall p | IsInterior(codes, p)
        ensures HasBothChildren(codes, p)
      {
        InteriorIsBinary(codes, p);
      }
    } else {
      var i, j :| 0 <= i < j < |codes| && Word(codes[i]) == Word(codes[j]);
      HeldIsLast(codes, |codes|, Word(codes[j]), j);
      HeldIsLess(codes, |codes|, i);
      RootIsPosition(codes);
      if IsBinary(codes) {
        BinaryIsFilled(codes, []);
      }
    }
  }

  lemma RootIsPosition(codes: Table)
    ensures IsPosition(codes, [])
  {
  }

  // All the positions at and below `p` that are not codewords.
  ghost function InteriorBelow(codes: Table, p: Path): set<Path>
    decreases LONGEST - |p|
  {
    if |p| > LONGEST || !IsInterior(codes, p) then {}
    else {p} + InteriorBelow(codes, p + [false]) + InteriorBelow(codes, p + [true])
  }

  lemma {:induction false} InteriorIsBelow(codes: Table, p: Path, q: Path)
    requires PrefixCode(codes) && p <= q && IsInterior(codes, q)
    ensures q in InteriorBelow(codes, p)
    decreases |q| - |p|
  {
    PositionsAreFull(codes, q);
    if p != q {
      ParentIsInterior(codes, p, q);
      Branches(p, q);
      InteriorIsBelow(codes, p + [q[|p|]], q);
    }
  }

  // A full binary tree has one interior node fewer than it has leaves.
  lemma {:induction false} InteriorCount(codes: Table, p: Path)
    requires PrefixCode(codes) && IsPosition(codes, p)
    ensures |InteriorBelow(codes, p)| == Leaves(codes, |codes|, p) - 1
    ensures forall q :: q in InteriorBelow(codes, p) ==> p <= q
    decreases LONGEST - |p|
  {
    PositionsAreFull(codes, p);
    if !IsInterior(codes, p) {
      AloneBelow(codes, p);
    } else {
      InteriorIsBinary(codes, p);
      InteriorCount(codes, p + [false]);
      InteriorCount(codes, p + [true]);
      DisjointBelow(p, InteriorBelow(codes, p + [false]), InteriorBelow(codes, p + [true]));
    }
  }

  lemma DisjointBelow(p: Path, left: set<Path>, right: set<Path>)
    requires forall q :: q in left ==> p + [false] <= q
    requires forall q :: q in right ==> p + [true] <= q
    ensures |{p} + left + right| == 1 + |left| + |right|
    ensures forall q :: q in {p} + left + right ==> p <= q
  {
    forall q ensures q in left ==> q !in right && q != p && p <= q { Branches(p, q); }
    forall q ensures q in right ==> q != p && p <= q { Branches(p, q); }
    assert {p} + left + right == {p} + (left + right);
  }

  // The code tree has exactly 256 interior nodes.
  lemma InteriorTotal(codes: Table)
    requires PrefixCode(codes)
    ensures |InteriorBelow(codes, [])| == SYMBOLS - 1
  {
    MassOfRoot(codes, |codes|);
    InteriorCount(codes, []);
  }
}
