/** The code tree: nodes linked in place, one code at a time. */
module HuffmanTree {
  import opened Bits
  import opened HuffmanCode
  import opened HuffmanPositions
  import opened Wrappers

  class Node {
    var children: seq<Node?>
    var symbol: Option<nat>

    constructor ()
      ensures children == [null, null] && symbol == None
    {
      children, symbol := [null, null], None;
    }
  }

  // Where the nodes of a tree stand: every node under its path from the root.
  type Layout = map<Path, Node>

  ghost function NodeAt(at: Layout, p: Path): Node? {
    if p in at then at[p] else null
  }

  ghost predicate Linked(at: Layout, p: Path)
    requires p in at
    reads at.Values
  {
    && (p != [] ==> p[..|p| - 1] in at)
    && at[p].children == [NodeAt(at, p + [false]), NodeAt(at, p + [true])]
  }

  ghost predicate Injective(at: Layout) {
    forall p, q :: p in at && q in at && at[p] == at[q] ==> p == q
  }

  // The nodes of `at` are distinct, and their links are exactly the steps from path to path.
  ghost predicate IsTree(at: Layout)
    reads at.Values
  {
    [] in at && Injective(at) && forall p :: p in at ==> Linked(at, p)
  }

  ghost predicate IsPositionUpTo(codes: Table, n: nat, p: Path)
    requires n <= |codes|
  {
    p == [] || exists i :: 0 <= i < n && p <= Word(codes[i])
  }

  // The symbols of the nodes are those of the first `n` codes.
  ghost predicate Labelled(codes: Table, n: nat, at: Layout)
    requires n <= |codes|
    reads at.Values
  {
    forall p :: p in at ==> at[p].symbol == SymbolUpTo(codes, n, p)
  }

  // The tree of a table: a node for every prefix of a codeword and no other, a symbol at the end
  // of every codeword and nowhere else.
  ghost predicate Built(codes: Table, root: Node, at: Layout)
    reads at.Values
  {
    && IsTree(at) && at[[]] == root
    && (forall p :: p in at <==> IsPosition(codes, p))
    && Labelled(codes, |codes|, at)
  }

  lemma StaysInjective(at: Layout, c: Path, child: Node)
    requires Injective(at) && forall p :: p in at ==> at[p] != child
    ensures Injective(at[c := child])
  {
  }

  // A step leads from one path only.
  lemma StepFrom(q: Path, b: bool, p: Path, bit: bool)
    ensures q + [b] == p + [bit] ==> q == p && b == bit
  {
    if q + [b] == p + [bit] {
      assert (q + [b])[..|q|] == q && (p + [bit])[..|p|] == p && |q| == |p|;
      assert (q + [b])[|q|] == b;
    }
  }

  // The links of the nodes, under their paths.
  type Links = map<Path, seq<Node?>>

  ghost predicate AreSteps(at: Layout, links: Links) {
    && links.Keys == at.Keys
    && (forall p :: p in at ==> p != [] ==> p[..|p| - 1] in at)
    && (forall p :: p in at ==> links[p] == [NodeAt(at, p + [false]), NodeAt(at, p + [true])])
  }

  lemma NothingBelowOutside(at: Layout, links: Links, p: Path)
    requires AreSteps(at, links) && p !in at
    ensures p + [false] !in at && p + [true] !in at
  {
    assert (p + [false])[..|p|] == p == (p + [true])[..|p|];
  }

  // A child put in its place is the link from its parent, leads nowhere, and leaves the other links.
  lemma LinkedAfter(at: Layout, links: Links, p: Path, bit: bool, child: Node, q: Path)
    requires AreSteps(at, links) && p in at && p + [bit] !in at && q in at
    ensures var after := at[p + [bit] := child];
      (if q == p then links[q][if bit then 1 else 0 := child] else links[q]) ==
      [NodeAt(after, q + [false]), NodeAt(after, q + [true])]
  {
    StepFrom(q, false, p, bit);
    StepFrom(q, true, p, bit);
    assert |links[q]| == 2;
  }

  lemma LinkedBelow(at: Layout, links: Links, p: Path, bit: bool, child: Node)
    requires AreSteps(at, links) && p in at && p + [bit] !in at
    ensures var after := at[p + [bit] := child];
      [NodeAt(after, p + [bit] + [false]), NodeAt(after, p + [bit] + [true])] == [null, null]
  {
    var c := p + [bit];
    NothingBelowOutside(at, links, c);
    assert |c + [false]| > |c| && |c + [true]| > |c|;
  }

  ghost function LinksOf(at: Layout): Links
    reads at.Values
  {
    map p | p in at :: at[p].children
  }

  lemma LinksAreSteps(at: Layout)
    requires IsTree(at)
    ensures AreSteps(at, LinksOf(at))
  {
    assert forall p :: p in at ==> Linked(at, p);
  }

  lemma OnlyNode(at: Layout, p: Path)
    requires Injective(at) && p in at
    ensures forall q :: q in at && at[q] == at[p] ==> q == p
  {
  }

  // A child where there was none.
  method AddChild(node: Node, bit: bool, ghost at: Layout, ghost p: Path)
    returns (child: Node, ghost after: Layout)
    requires IsTree(at) && p in at && at[p] == node && |node.children| == 2 && p + [bit] !in at
    modifies node`children
    ensures IsTree(after) && after == at[p + [bit] := child]
    ensures fresh(child) && child.symbol == None
  {
    hide AreSteps, Injective;
    ghost var c := p + [bit];
    ghost var links := LinksOf(at);
    LinksAreSteps(at);
    OnlyNode(at, p);
    child := new Node();
    after := at[c := child];
    StaysInjective(at, c, child);
    node.children := node.children[if bit then 1 else 0 := child];
    LinkedBelow(at, links, p, bit, child);
    assert c[..|c| - 1] == p;
    forall q | q in after
      ensures Linked(after, q)
    {
      if q != c {
        LinkedAfter(at, links, p, bit, child, q);
      }
    }
  }

  // One step down, making the child if it is not there.
  method Descend(node: Node, bit: bool, ghost at: Layout, ghost p: Path)
    returns (child: Node, ghost after: Layout)
    requires IsTree(at) && p in at && at[p] == node
    modifies node`children
    ensures IsTree(after) && after.Keys == at.Keys + {p + [bit]} && after[p + [bit]] == child
    ensures forall q :: q in at ==> after[q] == at[q]
    ensures p + [bit] !in at ==> fresh(child) && child.symbol == None
  {
    assert Linked(at, p);
    var found := node.children[if bit then 1 else 0];
    if found != null {
      return found, at;
    }
    child, after := AddChild(node, bit, at, p);
  }

  // The positions of the first `n` codes, and the way down to `path`.
  ghost predicate Covers(codes: Table, n: nat, path: Path, keys: set<Path>)
    requires n <= |codes|
  {
    forall p :: p in keys <==> IsPositionUpTo(codes, n, p) || p <= path
  }

  // Where there is no node there is no symbol.
  lemma NoSymbolOutside(codes: Table, n: nat, path: Path, keys: set<Path>)
    requires n <= |codes| && Covers(codes, n, path, keys)
    ensures forall p :: p !in keys ==> SymbolUpTo(codes, n, p) == None
  {
    forall p | p !in keys
      ensures SymbolUpTo(codes, n, p) == None
    {
      assert !IsPositionUpTo(codes, n, p);
    }
  }

  lemma CoversStep(codes: Table, n: nat, path: Path, bit: bool, keys: set<Path>)
    requires n <= |codes| && Covers(codes, n, path, keys)
    ensures Covers(codes, n, path + [bit], keys + {path + [bit]})
  {
    forall p: Path
      ensures p in keys + {path + [bit]} <==> IsPositionUpTo(codes, n, p) || p <= path + [bit]
    {
      PrefixOfStep(p, path, bit);
    }
  }

  lemma PrefixOfStep(p: Path, path: Path, bit: bool)
    ensures p <= path + [bit] <==> p <= path || p == path + [bit]
  {
  }

  lemma CoversNext(codes: Table, n: nat, keys: set<Path>)
    requires n < |codes|
    ensures Covers(codes, n, Word(codes[n]), keys) <==> Covers(codes, n + 1, [], keys)
  {
    forall p: Path
      ensures IsPositionUpTo(codes, n + 1, p) || p <= [] <==> IsPositionUpTo(codes, n, p) || p <= Word(codes[n])
    {
    }
  }

  method BuildTree(codes: Table) returns (root: Node, ghost at: Layout)
    ensures Built(codes, root, at)
    ensures fresh(at.Values)
  {
    root := new Node();
    at := map[[] := root];
    for symbol := 0 to |codes|
      invariant IsTree(at) && at[[]] == root && fresh(at.Values)
      invariant Covers(codes, symbol, [], at.Keys) && Labelled(codes, symbol, at)
    {
      at := Insert(codes, symbol, root, at);
    }
  }

  method Insert(codes: Table, symbol: nat, root: Node, ghost at: Layout) returns (ghost after: Layout)
    requires symbol < |codes| && IsTree(at) && at[[]] == root
    requires Covers(codes, symbol, [], at.Keys) && Labelled(codes, symbol, at)
    modifies at.Values
    ensures IsTree(after) && after[[]] == root && fresh(after.Values - at.Values)
    ensures Covers(codes, symbol + 1, [], after.Keys) && Labelled(codes, symbol + 1, after)
  {
    hide Covers, Linked, Injective, IsPositionUpTo, Labelled;
    var Code(code, bits) := codes[symbol];
    ghost var word := Word(codes[symbol]);
    var node := root;
    after := at;
    var shift := bits - 1;
    ghost var path: Path := [];
    while shift >= 0
      invariant shift == bits - 1 - |path| && |path| <= |word| && path == word[..|path|]
      invariant IsTree(after) && after[[]] == root && fresh(after.Values - at.Values)
      invariant path in after && after[path] == node
      invariant Covers(codes, symbol, path, after.Keys) && Labelled(codes, symbol, after)
    {
      var bit := Shr(code, shift) % 2 == 1;
      node, after := Follow(codes, symbol, node, bit, after, path);
      path := path + [bit];
      shift := shift - 1;
    }
    assert path == word;
    CoversNext(codes, symbol, after.Keys);
    SetSymbol(codes, symbol, node, after);
  }

  // One step along a new codeword: the tree stays labelled by the codes before it.
  method Follow(codes: Table, n: nat, node: Node, bit: bool, ghost at: Layout, ghost path: Path)
    returns (child: Node, ghost after: Layout)
    requires n <= |codes| && IsTree(at) && path in at && at[path] == node
    requires Covers(codes, n, path, at.Keys) && Labelled(codes, n, at)
    modifies node
    ensures IsTree(after) && after[[]] == at[[]] && fresh(after.Values - at.Values)
    ensures path + [bit] in after && after[path + [bit]] == child
    ensures Covers(codes, n, path + [bit], after.Keys) && Labelled(codes, n, after)
  {
    hide Covers, Linked, Injective, IsPositionUpTo;
    NoSymbolOutside(codes, n, path, at.Keys);
    CoversStep(codes, n, path, bit, at.Keys);
    child, after := Descend(node, bit, at, path);
  }

  method SetSymbol(codes: Table, symbol: nat, node: Node, ghost at: Layout)
    requires symbol < |codes| && IsTree(at) && Labelled(codes, symbol, at)
    requires Word(codes[symbol]) in at && at[Word(codes[symbol])] == node
    modifies node`symbol
    ensures IsTree(at) && Labelled(codes, symbol + 1, at)
  {
    node.symbol := Some(symbol);
  }
}
