/** The decoder compiled from the code tree: for each state, one transition for every four bits. */
module HuffmanMachine {
  import opened Bits
  import opened HuffmanCode
  import opened HuffmanPositions
  import opened HuffmanTree
  import opened Wrappers

  const ACCEPTED := 1
  const SYMBOL := 2
  const FAIL := 4
  const NIBBLES := 16
  const PADDING := 7

  // Flags are single bits of a number.
  predicate Has(flags: nat, flag: nat)
    requires flag > 0
  {
    flags / flag % 2 == 1
  }

  function Or(flags: nat, flag: nat): nat
    requires flag > 0
  {
    if Has(flags, flag) then flags else flags + flag
  }

  datatype Entry = Entry(state: nat, flags: nat, symbol: nat)

  type Machine = seq<seq<Entry>>

  // A walk down the tree that starts again at the root after every symbol. It fails where the tree
  // has no way on, and at EOS.
  datatype Walk = Failed | At(pos: Path, out: seq<nat>)

  ghost function StepBit(codes: Table, w: Walk, bit: bool): Walk {
    if w.Failed? || !IsPosition(codes, w.pos + [bit]) then Failed
    else
      match SymbolAt(codes, w.pos + [bit])
      case None => At(w.pos + [bit], w.out)
      case Some(symbol) => if symbol == EOS then Failed else At([], w.out + [symbol])
  }

  // Reading a whole bit string, one bit at a time.
  ghost function Run(codes: Table, w: Walk, bits: Path): Walk {
    if bits == [] then w
    else StepBit(codes, Run(codes, w, bits[..|bits| - 1]), bits[|bits| - 1])
  }

  lemma {:induction false} RunConcat(codes: Table, w: Walk, a: Path, b: Path)
    ensures Run(codes, w, a + b) == Run(codes, Run(codes, w, a), b)
  {
    if b == [] {
      assert a + b == a;
    } else {
      var n := |b| - 1;
      assert (a + b)[..|a| + n] == a + b[..n];
      RunConcat(codes, w, a, b[..n]);
    }
  }

  lemma {:induction false} RunFailed(codes: Table, bits: Path)
    ensures Run(codes, Failed, bits) == Failed
  {
    if bits != [] {
      RunFailed(codes, bits[..|bits| - 1]);
    }
  }

  // The places a string may end: the root, or up to seven ones away from it.
  ghost predicate IsPadding(codes: Table, p: Path) {
    |p| <= PADDING && p == Ones(|p|) && forall j :: 1 <= j <= |p| ==> SymbolAt(codes, Ones(j)).None?
  }

  function Last(out: seq<nat>): nat {
    if out == [] then 0 else out[|out| - 1]
  }

  // The entry for a walk that has read one nibble, with or without the mark of where a string may end.
  ghost predicate IsEntry(codes: Table, pos: seq<Path>, w: Walk, marked: bool, e: Entry) {
    match w
    case Failed => e == Entry(0, FAIL, 0)
    case At(p, out) =>
      && e.state < |pos| && pos[e.state] == p
      && e.symbol == Last(out)
      && e.flags == (if out == [] then 0 else SYMBOL) + (if marked && IsPadding(codes, p) then ACCEPTED else 0)
  }

  // What the entry of a compiled machine is for each end of its walk, flag by flag.
  lemma EntryMeans(codes: Table, pos: seq<Path>, w: Walk, e: Entry)
    requires IsEntry(codes, pos, w, true, e)
    ensures w.Failed? ==> e == Entry(0, 4, 0)
    ensures w.At? ==>
      && (w.out == [] ==> e.symbol == 0) && (forall x :: w.out == [x] ==> e.symbol == x)
      && e.flags == (if w.out == [] then 0 else 2) + (if IsPadding(codes, w.pos) then 1 else 0)
  {
  }

  ghost function NibbleWalk(codes: Table, p: Path, nibble: nat): Walk {
    Run(codes, At(p, []), ToBits(nibble, 4))
  }

  ghost predicate IsRow(codes: Table, pos: seq<Path>, p: Path, marked: bool, row: seq<Entry>) {
    |row| == NIBBLES && IsRowUpTo(codes, pos, p, marked, row)
  }

  ghost predicate IsRowUpTo(codes: Table, pos: seq<Path>, p: Path, marked: bool, row: seq<Entry>) {
    forall n :: 0 <= n < |row| ==> IsEntry(codes, pos, NibbleWalk(codes, p, n), marked, row[n])
  }

  ghost predicate Rows(codes: Table, pos: seq<Path>, marked: bool, table: Machine)
    requires |table| <= |pos|
  {
    forall i :: 0 <= i < |table| ==> IsRow(codes, pos, pos[i], marked, table[i])
  }

  // Where a walk can rest: at the root, or on the way to a codeword. Never at the end of one.
  ghost predicate IsResting(codes: Table, p: Path) {
    p == [] || IsInterior(codes, p)
  }

  ghost predicate AllResting(codes: Table, pos: seq<Path>) {
    forall i :: 0 <= i < |pos| ==> IsResting(codes, pos[i])
  }

  lemma {:induction false} RunRests(codes: Table, w: Walk, bits: Path)
    requires w.At? ==> IsResting(codes, w.pos)
    ensures Run(codes, w, bits).At? ==> IsResting(codes, Run(codes, w, bits).pos)
  {
    if bits != [] {
      RunRests(codes, w, bits[..|bits| - 1]);
    }
  }

  // `table` is the machine of `codes`, and its state number i stands for the position pos[i].
  ghost predicate Compiled(codes: Table, table: Machine, pos: seq<Path>) {
    && |table| == |pos| > 0 && pos[0] == []
    && (forall i, j :: 0 <= i < j < |pos| ==> pos[i] != pos[j])
    && AllResting(codes, pos)
    && Rows(codes, pos, true, table)
  }

  function RowTargets(row: seq<Entry>): (r: seq<nat>)
    ensures |r| == |row|
  {
    seq(|row|, n requires 0 <= n < |row| => row[n].state)
  }

  // Where the transitions of a machine lead, in the order they are printed.
  function Targets(table: Machine): seq<nat> {
    if table == [] then [] else Targets(table[..|table| - 1]) + RowTargets(table[|table| - 1])
  }

  // How many states have been reached by these transitions, when each new one has the next number.
  function Reached(targets: seq<nat>): (r: nat)
    ensures r > 0
  {
    if targets == [] then 1
    else
      var before := Reached(targets[..|targets| - 1]);
      if targets[|targets| - 1] == before then before + 1 else before
  }

  ghost predicate NumberedAsReached(targets: seq<nat>) {
    forall n :: 0 <= n < |targets| ==> targets[n] <= Reached(targets[..n])
  }

  // A state has its row after it has been reached.
  ghost predicate RowsAfterReached(table: Machine) {
    forall i :: 0 <= i < |table| ==> i < Reached(Targets(table[..i]))
  }

  // The states are numbered in the order they are first reached, and all that are reached have a row.
  ghost predicate InOrder(table: Machine) {
    NumberedAsReached(Targets(table)) && Reached(Targets(table)) == |table| && RowsAfterReached(table)
  }

  ghost predicate IsMachineOf(codes: Table, table: Machine) {
    InOrder(table) && exists pos :: Compiled(codes, table, pos)
  }

  lemma OneMoreTarget(targets: seq<nat>, state: nat)
    requires NumberedAsReached(targets) && state <= Reached(targets)
    ensures NumberedAsReached(targets + [state])
    ensures Reached(targets + [state]) == if state == Reached(targets) then state + 1 else Reached(targets)
  {
    var more := targets + [state];
    assert more[..|targets|] == targets;
    forall n | 0 <= n < |more|
      ensures more[n] <= Reached(more[..n])
    {
      assert n < |targets| ==> more[..n] == targets[..n];
    }
  }

  // The transitions read so far keep the numbering, and have reached as many states as are known.
  ghost predicate Reaching(targets: seq<nat>, pos: seq<Path>) {
    NumberedAsReached(targets) && Reached(targets) == |pos|
  }

  lemma RowReaches(before: seq<nat>, row: seq<Entry>, e: Entry, pos: seq<Path>, more: seq<Path>)
    requires Reaching(before + RowTargets(row), pos) && e.state <= |pos|
    requires |more| == if e.state == |pos| then |pos| + 1 else |pos|
    ensures Reaching(before + RowTargets(row + [e]), more)
  {
    hide Reached, NumberedAsReached;
    OneMoreTarget(before + RowTargets(row), e.state);
    assert before + RowTargets(row + [e]) == before + RowTargets(row) + [e.state];
  }

  lemma NoRowReaches(before: seq<nat>, pos: seq<Path>)
    requires Reaching(before, pos)
    ensures Reaching(before + RowTargets([]), pos) && |pos| > 0
  {
    assert before + RowTargets([]) == before;
  }

  lemma RootReached(codes: Table)
    ensures Reaching(Targets([]), [[]]) && Rows(codes, [[]], false, [])
  {
  }

  lemma TargetsAppend(table: Machine, row: seq<Entry>)
    ensures Targets(table + [row]) == Targets(table) + RowTargets(row)
  {
    assert (table + [row])[..|table|] == table;
  }

  // The numbering of the nodes found so far.
  ghost predicate Numbered(at: Layout, pos: seq<Path>, states: seq<Node>, numbering: map<Node, nat>) {
    && |pos| == |states| > 0 && pos[0] == []
    && (forall i :: 0 <= i < |pos| ==> pos[i] in at && at[pos[i]] == states[i])
    && (forall i :: 0 <= i < |states| ==> states[i] in numbering && numbering[states[i]] == i)
    && (forall n :: n in numbering ==> numbering[n] < |states| && states[numbering[n]] == n)
  }

  // One bit of a walk, told from the node it is at.
  lemma StepAt(codes: Table, root: Node, at: Layout, w: Walk, bit: bool)
    requires Built(codes, root, at) && w.At? && w.pos in at
    ensures |at[w.pos].children| == 2
    ensures IsStep(codes, at, w, bit, at[w.pos].children[if bit then 1 else 0], StepBit(codes, w, bit))
  {
    assert Linked(at, w.pos);
  }

  ghost predicate IsStep(codes: Table, at: Layout, w: Walk, bit: bool, child: Node?, w': Walk)
    requires w.At?
    reads child
  {
    if child == null || child.symbol == Some(EOS) then w' == Failed
    else if child.symbol.Some? then w' == At([], w.out + [child.symbol.value])
    else w' == At(w.pos + [bit], w.out) && w'.pos in at && at[w'.pos] == child
  }

  lemma RunNothing(codes: Table, w: Walk, bits: Path)
    ensures Run(codes, w, bits[..0]) == w
  {
  }

  lemma RunStep(codes: Table, w: Walk, bits: Path, k: nat)
    requires k < |bits|
    ensures Run(codes, w, bits[..k + 1]) == StepBit(codes, Run(codes, w, bits[..k]), bits[k])
  {
    assert bits[..k + 1][..k] == bits[..k];
  }

  method WalkNibble(codes: Table, root: Node, node: Node, nibble: nat, ghost at: Layout, ghost p: Path)
    returns (walk: Node, flags: nat, symbol: nat)
    requires Built(codes, root, at) && p in at && at[p] == node
    ensures var w := NibbleWalk(codes, p, nibble);
      if w.Failed? then Has(flags, FAIL)
      else
        && w.pos in at && at[w.pos] == walk && symbol == Last(w.out)
        && flags == if w.out == [] then 0 else SYMBOL
  {
    hide Built, StepBit, Run;
    walk, flags, symbol := node, 0, 0;
    ghost var w := At(p, []);
    ghost var bits := ToBits(nibble, 4);
    RunNothing(codes, w, bits);
    var shift := 3;
    while shift >= 0
      invariant -1 <= shift <= 3
      invariant w == Run(codes, At(p, []), bits[..3 - shift])
      invariant w.At? && w.pos in at && at[w.pos] == walk && symbol == Last(w.out)
      invariant flags == if w.out == [] then 0 else SYMBOL
    {
      var bit := Shr(nibble, shift) % 2 == 1;
      ghost var k := 3 - shift;
      RunStep(codes, At(p, []), bits, k);
      StepAt(codes, root, at, w, bit);
      var child := walk.children[if bit then 1 else 0];
      w := StepBit(codes, w, bit);
      if child == null || child.symbol == Some(EOS) {
        FailedAfter(codes, At(p, []), bits, k + 1);
        flags := Or(flags, FAIL);
        return;
      }
      if child.symbol.Some? {
        flags := Or(flags, SYMBOL);
        symbol := child.symbol.value;
        walk := root;
        RootAt(codes, root, at);
      } else {
        walk := child;
      }
      shift := shift - 1;
    }
    assert bits[..4] == bits;
  }

  lemma RootAt(codes: Table, root: Node, at: Layout)
    requires Built(codes, root, at)
    ensures [] in at && at[[]] == root
  {
  }

  lemma FailedAfter(codes: Table, w: Walk, bits: Path, k: nat)
    requires k <= |bits| && Run(codes, w, bits[..k]) == Failed
    ensures Run(codes, w, bits) == Failed
  {
    assert bits == bits[..k] + bits[k..];
    RunConcat(codes, w, bits[..k], bits[k..]);
    RunFailed(codes, bits[k..]);
  }

  lemma RowsGrow(codes: Table, pos: seq<Path>, more: seq<Path>, p: Path, row: seq<Entry>)
    requires pos <= more && IsRowUpTo(codes, pos, p, false, row)
    ensures IsRowUpTo(codes, more, p, false, row)
  {
    forall n | 0 <= n < |row|
      ensures IsEntry(codes, more, NibbleWalk(codes, p, n), false, row[n])
    {
      assert IsEntry(codes, pos, NibbleWalk(codes, p, n), false, row[n]);
    }
  }

  lemma EmptyRow(codes: Table, pos: seq<Path>, p: Path)
    ensures IsRowUpTo(codes, pos, p, false, [])
  {
  }

  lemma RowExtends(codes: Table, pos: seq<Path>, p: Path, row: seq<Entry>, e: Entry)
    requires IsRowUpTo(codes, pos, p, false, row)
    requires IsEntry(codes, pos, NibbleWalk(codes, p, |row|), false, e)
    ensures IsRowUpTo(codes, pos, p, false, row + [e])
  {
  }

  // The number of a node, given to it when it is first met.
  method NumberOf(walk: Node, states: seq<Node>, numbering: map<Node, nat>,
                  ghost codes: Table, ghost at: Layout, ghost pos: seq<Path>, ghost p: Path)
    returns (number: nat, states': seq<Node>, numbering': map<Node, nat>, ghost pos': seq<Path>)
    requires p in at && at[p] == walk && Numbered(at, pos, states, numbering)
    ensures Numbered(at, pos', states', numbering') && pos <= pos'
    requires Injective(at)
    ensures number < |pos'| && pos'[number] == p
    requires AllResting(codes, pos) && IsResting(codes, p)
    ensures AllResting(codes, pos')
    ensures number <= |pos| && |pos'| == if number == |pos| then |pos| + 1 else |pos|
  {
    if walk in numbering {
      return numbering[walk], states, numbering, pos;
    }
    number := |states|;
    numbering' := numbering[walk := |states|];
    states' := states + [walk];
    pos' := pos + [p];
  }

  lemma BuiltIsInjective(codes: Table, root: Node, at: Layout)
    requires Built(codes, root, at)
    ensures Injective(at)
  {
  }

  lemma NibbleRests(codes: Table, p: Path, nibble: nat)
    requires IsResting(codes, p)
    ensures NibbleWalk(codes, p, nibble).At? ==> IsResting(codes, NibbleWalk(codes, p, nibble).pos)
  {
    RunRests(codes, At(p, []), ToBits(nibble, 4));
  }

  method BuildRow(codes: Table, root: Node, node: Node, states: seq<Node>, numbering: map<Node, nat>,
                  ghost at: Layout, ghost pos: seq<Path>, ghost p: Path, ghost before: seq<nat>)
    returns (row: seq<Entry>, states': seq<Node>, numbering': map<Node, nat>, ghost pos': seq<Path>)
    requires Built(codes, root, at) && Numbered(at, pos, states, numbering) && p in at && at[p] == node
    requires AllResting(codes, pos) && IsResting(codes, p) && Reaching(before, pos)
    ensures Numbered(at, pos', states', numbering') && pos <= pos'
    ensures Reaching(before + RowTargets(row), pos')
    ensures AllResting(codes, pos')
    ensures IsRow(codes, pos', p, false, row)
  {
    hide Numbered, Built, IsResting, AllResting, IsRowUpTo, Reaching, RowTargets, NibbleWalk, IsPosition, Run;
    RootAt(codes, root, at);
    BuiltIsInjective(codes, root, at);
    row, states', numbering', pos' := [], states, numbering, pos;
    EmptyRow(codes, pos, p);
    NoRowReaches(before, pos);
    for nibble := 0 to NIBBLES
      invariant Reaching(before + RowTargets(row), pos') && |pos'| > 0
      invariant |row| == nibble && IsRowUpTo(codes, pos', p, false, row)
      invariant Numbered(at, pos', states', numbering') && pos <= pos'
      invariant AllResting(codes, pos')
    {
      NibbleRests(codes, p, nibble);
      ghost var w := NibbleWalk(codes, p, nibble);
      var walk, flags, symbol := WalkNibble(codes, root, node, nibble, at, p);
      if Has(flags, FAIL) {
        RowExtends(codes, pos', p, row, Entry(0, FAIL, 0));
        RowReaches(before, row, Entry(0, FAIL, 0), pos', pos');
        row := row + [Entry(0, FAIL, 0)];
      } else {
        ghost var known := pos';
        var number;
        number, states', numbering', pos' := NumberOf(walk, states', numbering', codes, at, pos', w.pos);
        RowsGrow(codes, known, pos', p, row);
        RowExtends(codes, pos', p, row, Entry(number, flags, symbol));
        RowReaches(before, row, Entry(number, flags, symbol), known, pos');
        row := row + [Entry(number, flags, symbol)];
      }
    }
  }

  lemma {:induction false} DistinctWithin<T>(s: seq<T>, all: set<T>)
    requires forall i :: 0 <= i < |s| ==> s[i] in all
    requires forall i, j :: 0 <= i < j < |s| ==> s[i] != s[j]
    ensures |s| <= |all|
  {
    if s != [] {
      var n := |s| - 1;
      DistinctWithin(s[..n], all - {s[n]});
    }
  }

  lemma NumberedIsFinite(at: Layout, pos: seq<Path>, states: seq<Node>, numbering: map<Node, nat>)
    requires Numbered(at, pos, states, numbering)
    ensures |states| <= |at.Keys|
    ensures forall i, j :: 0 <= i < j < |pos| ==> pos[i] != pos[j]
  {
    forall i, j | 0 <= i < j < |pos|
      ensures pos[i] != pos[j]
    {
      assert numbering[states[i]] == i && numbering[states[j]] == j;
    }
    DistinctWithin(pos, at.Keys);
  }

  lemma TableGrows(codes: Table, pos: seq<Path>, more: seq<Path>, table: Machine)
    requires |table| <= |pos| && pos <= more && Rows(codes, pos, false, table)
    ensures Rows(codes, more, false, table)
  {
    forall i | 0 <= i < |table|
      ensures IsRow(codes, more, more[i], false, table[i])
    {
      assert IsRow(codes, pos, pos[i], false, table[i]);
      RowsGrow(codes, pos, more, pos[i], table[i]);
    }
  }

  lemma RowAdded(codes: Table, pos: seq<Path>, more: seq<Path>, table: Machine, row: seq<Entry>)
    requires |table| < |pos| && pos <= more && Rows(codes, pos, false, table)
    requires IsRow(codes, more, pos[|table|], false, row)
    ensures Rows(codes, more, false, table + [row])
  {
    hide IsRow;
    TableGrows(codes, pos, more, table);
  }

  lemma RowReached(pos: seq<Path>, more: seq<Path>, table: Machine, row: seq<Entry>)
    requires |table| < |pos| && Reaching(Targets(table), pos) && RowsAfterReached(table)
    requires Reaching(Targets(table) + RowTargets(row), more)
    ensures Reaching(Targets(table + [row]), more) && RowsAfterReached(table + [row])
  {
    hide Targets, Reached, RowTargets, NumberedAsReached;
    TargetsAppend(table, row);
    var after := table + [row];
    forall i | 0 <= i < |after|
      ensures i < Reached(Targets(after[..i]))
    {
      assert after[..i] == table[..i];
      assert table[..|table|] == table;
    }
  }

  lemma ReachedAll(table: Machine, pos: seq<Path>)
    requires Reaching(Targets(table), pos) && |table| == |pos|
    requires RowsAfterReached(table)
    ensures InOrder(table)
  {
  }

  // The worklist: rows are added for the states in the order they were found, until every state
  // has one. Every state is a different node, so this ends.
  method BuildTable(codes: Table, root: Node, ghost at: Layout)
    returns (table: Machine, numbering: map<Node, nat>, ghost pos: seq<Path>, ghost states: seq<Node>)
    requires Built(codes, root, at)
    ensures Numbered(at, pos, states, numbering)
    ensures |table| == |pos| && Rows(codes, pos, false, table) && AllResting(codes, pos)
    ensures InOrder(table)
  {
    hide Built, Targets, Rows, IsRow, Reaching;
    RootAt(codes, root, at);
    RootReached(codes);
    numbering := map[root := 0];
    var found := [root];
    pos := [[]];
    table := [];
    while |table| < |found|
      invariant Numbered(at, pos, found, numbering)
      invariant |table| <= |pos| && Rows(codes, pos, false, table) && AllResting(codes, pos)
      invariant Reaching(Targets(table), pos) && RowsAfterReached(table)
      decreases |at.Keys| - |table|
    {
      NumberedIsFinite(at, pos, found, numbering);
      ghost var before, p := pos, pos[|table|];
      var row;
      row, found, numbering, pos :=
        BuildRow(codes, root, found[|table|], found, numbering, at, pos, p, Targets(table));
      RowAdded(codes, before, pos, table, row);
      RowReached(before, pos, table, row);
      table := table + [row];
    }
    states := found;
    ReachedAll(table, pos);
  }

  // The first `k` steps along the chain of ones that leads away from the root.
  ghost predicate OnChain(codes: Table, p: Path, k: nat) {
    |p| <= k && IsPadding(codes, p)
  }

  lemma RootIsFirst(codes: Table, at: Layout, pos: seq<Path>, states: seq<Node>, numbering: map<Node, nat>)
    requires Numbered(at, pos, states, numbering)
    ensures forall i :: 0 <= i < |pos| ==> (i in {0} <==> OnChain(codes, pos[i], 0))
  {
    NumberedIsFinite(at, pos, states, numbering);
    forall i | 0 <= i < |pos|
      ensures i in {0} <==> OnChain(codes, pos[i], 0)
    {
      assert i > 0 ==> pos[0] != pos[i];
    }
  }

  lemma ChainStep(codes: Table, root: Node, at: Layout, k: nat)
    requires Built(codes, root, at) && Ones(k) in at
    ensures |at[Ones(k)].children| == 2
    ensures at[Ones(k)].children[1] == NodeAt(at, Ones(k + 1))
    ensures Ones(k + 1) in at <==> IsPosition(codes, Ones(k + 1))
    ensures Ones(k + 1) in at ==> at[Ones(k + 1)].symbol == SymbolAt(codes, Ones(k + 1))
  {
    assert Linked(at, Ones(k));
    assert Ones(k) + [true] == Ones(k + 1);
  }

  lemma ChainEnds(codes: Table, at: Layout, pos: seq<Path>, k: nat)
    requires forall i :: 0 <= i < |pos| ==> IsPosition(codes, pos[i])
    requires !IsPosition(codes, Ones(k + 1)) || SymbolAt(codes, Ones(k + 1)).Some?
    ensures forall i :: 0 <= i < |pos| ==> (OnChain(codes, pos[i], k) <==> IsPadding(codes, pos[i]))
  {
    forall i | 0 <= i < |pos| && IsPadding(codes, pos[i])
      ensures |pos[i]| <= k
    {
      if |pos[i]| > k {
        assert Ones(k + 1) <= pos[i];
        PositionsAreClosed(codes, Ones(k + 1), pos[i]);
      }
    }
  }

  lemma PositionsAreClosed(codes: Table, p: Path, q: Path)
    requires p <= q && IsPosition(codes, q)
    ensures IsPosition(codes, p)
  {
    if q != [] {
      var i :| 0 <= i < |codes| && q <= Word(codes[i]);
      assert p <= Word(codes[i]);
    }
  }

  lemma ChainGrows(codes: Table, at: Layout, pos: seq<Path>, states: seq<Node>, numbering: map<Node, nat>, k: nat)
    requires Numbered(at, pos, states, numbering) && Injective(at)
    requires k < PADDING && IsPadding(codes, Ones(k))
    requires Ones(k + 1) in at && SymbolAt(codes, Ones(k + 1)).None?
    ensures IsPadding(codes, Ones(k + 1))
    ensures var walk := at[Ones(k + 1)];
      forall i :: 0 <= i < |pos| ==>
        (OnChain(codes, pos[i], k + 1) <==>
         OnChain(codes, pos[i], k) || (walk in numbering && numbering[walk] == i))
  {
    var walk := at[Ones(k + 1)];
    forall i | 0 <= i < |pos|
      ensures pos[i] == Ones(k + 1) <==> walk in numbering && numbering[walk] == i
    {
      assert at[pos[i]] == states[i];
    }
  }

  lemma ChainIsAll(codes: Table, pos: seq<Path>)
    ensures forall i :: 0 <= i < |pos| ==> (OnChain(codes, pos[i], PADDING) <==> IsPadding(codes, pos[i]))
  {
  }

  method Accepting(codes: Table, root: Node, numbering: map<Node, nat>,
                   ghost at: Layout, ghost pos: seq<Path>, ghost states: seq<Node>)
    returns (out: set<nat>)
    requires Built(codes, root, at) && Numbered(at, pos, states, numbering)
    ensures forall i :: 0 <= i < |pos| ==> (i in out <==> IsPadding(codes, pos[i]))
  {
    RootAt(codes, root, at);
    RootIsFirst(codes, at, pos, states, numbering);
    hide Linked, Numbered, OnChain, IsPadding;
    out := {0};
    var walk := root;
    for step := 0 to PADDING
      invariant Ones(step) in at && at[Ones(step)] == walk && IsPadding(codes, Ones(step))
      invariant forall i :: 0 <= i < |pos| ==> (i in out <==> OnChain(codes, pos[i], step))
    {
      ChainStep(codes, root, at, step);
      var next := walk.children[1];
      if next == null || next.symbol.Some? {
        ChainEnds(codes, at, pos, step);
        return;
      }
      walk := next;
      ChainGrows(codes, at, pos, states, numbering, step);
      if walk in numbering {
        out := out + {numbering[walk]};
      }
    }
    ChainIsAll(codes, pos);
  }

  method MarkRow(row: seq<Entry>, accepting: set<nat>, ghost codes: Table, ghost pos: seq<Path>, ghost p: Path)
    returns (marked: seq<Entry>)
    requires IsRow(codes, pos, p, false, row)
    requires forall i :: 0 <= i < |pos| ==> (i in accepting <==> IsPadding(codes, pos[i]))
    ensures IsRow(codes, pos, p, true, marked) && RowTargets(marked) == RowTargets(row)
  {
    marked := [];
    for n := 0 to |row|
      invariant |marked| == n && IsRowUpTo(codes, pos, p, true, marked)
      invariant forall i :: 0 <= i < n ==> marked[i].state == row[i].state
    {
      var e := row[n];
      assert IsEntry(codes, pos, NibbleWalk(codes, p, n), false, e);
      if !Has(e.flags, FAIL) && e.state in accepting {
        e := e.(flags := Or(e.flags, ACCEPTED));
      }
      assert IsEntry(codes, pos, NibbleWalk(codes, p, n), true, e);
      marked := marked + [e];
    }
  }

  method MarkTable(table: Machine, accepting: set<nat>, ghost codes: Table, ghost pos: seq<Path>)
    returns (out: Machine)
    requires |table| == |pos| && Rows(codes, pos, false, table)
    requires forall i :: 0 <= i < |pos| ==> (i in accepting <==> IsPadding(codes, pos[i]))
    ensures |out| == |pos| && Rows(codes, pos, true, out)
    ensures InOrder(table) ==> InOrder(out)
  {
    hide IsRow;
    out := [];
    for i := 0 to |table|
      invariant |out| == i && Rows(codes, pos, true, out)
      invariant forall k :: 0 <= k < i ==> RowTargets(out[k]) == RowTargets(table[k])
    {
      assert IsRow(codes, pos, pos[i], false, table[i]);
      var marked := MarkRow(table[i], accepting, codes, pos, pos[i]);
      out := out + [marked];
    }
    SameOrder(table, out);
  }

  lemma {:induction false} SameTargets(a: Machine, b: Machine)
    requires |a| == |b| && forall k :: 0 <= k < |a| ==> RowTargets(a[k]) == RowTargets(b[k])
    ensures Targets(a) == Targets(b)
  {
    hide RowTargets;
    if a != [] {
      SameTargets(a[..|a| - 1], b[..|b| - 1]);
    }
  }

  lemma SameOrder(a: Machine, b: Machine)
    requires |a| == |b| && forall k :: 0 <= k < |a| ==> RowTargets(a[k]) == RowTargets(b[k])
    ensures InOrder(a) ==> InOrder(b)
  {
    hide Targets, RowTargets, Reached, NumberedAsReached;
    SameTargets(a, b);
    assert a[..|a|] == a && b[..|b|] == b;
    forall i | 0 <= i < |a|
      ensures Targets(a[..i]) == Targets(b[..i])
    {
      SameTargets(a[..i], b[..i]);
    }
  }

  lemma MachineFound(codes: Table, table: Machine, pos: seq<Path>)
    requires Compiled(codes, table, pos) && InOrder(table)
    ensures IsMachineOf(codes, table)
  {
  }

  // Two lists of positions begin alike.
  ghost predicate Alike(p: seq<Path>, q: seq<Path>, n: nat) {
    n <= |p| && n <= |q| && p[..n] == q[..n]
  }

  // Two entries for one walk are the same, and so is the state they reach.
  lemma EntryAgrees(codes: Table, p: seq<Path>, q: seq<Path>, w: Walk, known: nat, a: Entry, b: Entry)
    requires IsEntry(codes, p, w, true, a) && IsEntry(codes, q, w, true, b)
    requires forall i, j :: 0 <= i < j < |p| ==> p[i] != p[j]
    requires forall i, j :: 0 <= i < j < |q| ==> q[i] != q[j]
    requires 0 < known && Alike(p, q, known) && a.state <= known && b.state <= known
    ensures a == b && Alike(p, q, if a.state == known then known + 1 else known)
  {
    if w.At? {
      assert a.state < known ==> p[..known][a.state] == q[..known][a.state];
      assert b.state < known ==> p[..known][b.state] == q[..known][b.state];
      if a.state == known {
        assert p[..known + 1] == p[..known] + [p[known]] && q[..known + 1] == q[..known] + [q[known]];
      }
    }
  }

  lemma {:induction false} EntriesAgree(codes: Table, p: seq<Path>, q: seq<Path>, at: Path, before: seq<nat>,
                                        a: seq<Entry>, b: seq<Entry>, n: nat)
    requires IsRow(codes, p, at, true, a) && IsRow(codes, q, at, true, b) && n <= NIBBLES
    requires forall i, j :: 0 <= i < j < |p| ==> p[i] != p[j]
    requires forall i, j :: 0 <= i < j < |q| ==> q[i] != q[j]
    requires NumberedAsReached(before + RowTargets(a)) && NumberedAsReached(before + RowTargets(b))
    requires Alike(p, q, Reached(before))
    ensures a[..n] == b[..n] && Alike(p, q, Reached(before + RowTargets(a[..n])))
  {
    hide IsEntry, Alike, NibbleWalk;
    if n == 0 {
      assert before + RowTargets(a[..0]) == before;
    } else {
      var k := n - 1;
      EntriesAgree(codes, p, q, at, before, a, b, k);
      NextTarget(before, a, k);
      NextTarget(before, b, k);
      EntryAgrees(codes, p, q, NibbleWalk(codes, at, k), Reached(before + RowTargets(a[..k])), a[k], b[k]);
      assert a[..n] == a[..k] + [a[k]] && b[..n] == b[..k] + [b[k]];
    }
  }

  lemma NextTarget(before: seq<nat>, row: seq<Entry>, k: nat)
    requires k < |row| && NumberedAsReached(before + RowTargets(row))
    ensures var reached := Reached(before + RowTargets(row[..k]));
      && row[k].state <= reached
      && Reached(before + RowTargets(row[..k + 1])) == if row[k].state == reached then reached + 1 else reached
  {
    var all := before + RowTargets(row);
    assert all[..|before| + k] == before + RowTargets(row[..k]);
    assert all[|before| + k] == row[k].state;
    assert (before + RowTargets(row[..k + 1]))[..|before| + k] == before + RowTargets(row[..k]);
  }

  lemma {:induction false} TargetsOfPrefix(table: Machine, i: nat)
    requires i <= |table| && NumberedAsReached(Targets(table))
    ensures NumberedAsReached(Targets(table[..i]))
  {
    if i == |table| {
      assert table[..i] == table;
    } else {
      hide NumberedAsReached;
      var n := |table| - 1;
      PrefixIsNumbered(Targets(table[..n]), RowTargets(table[n]));
      TargetsOfPrefix(table[..n], i);
      assert table[..n][..i] == table[..i];
    }
  }

  lemma PrefixIsNumbered(a: seq<nat>, b: seq<nat>)
    requires NumberedAsReached(a + b)
    ensures NumberedAsReached(a)
  {
    forall n | 0 <= n < |a|
      ensures a[n] <= Reached(a[..n])
    {
      assert (a + b)[..n] == a[..n] && (a + b)[n] == a[n];
    }
  }

  lemma {:induction false} RowsAgree(codes: Table, a: Machine, b: Machine, p: seq<Path>, q: seq<Path>, i: nat)
    requires Compiled(codes, a, p) && Compiled(codes, b, q) && InOrder(a) && InOrder(b)
    requires i <= |a| && i <= |b|
    ensures a[..i] == b[..i] && Alike(p, q, Reached(Targets(a[..i])))
  {
    hide Targets, RowTargets, Reached, NumberedAsReached, IsRow, AllResting;
    if i == 0 {
      NoTargets(a);
      assert p[..1] == q[..1];
    } else {
      var k := i - 1;
      RowsAgree(codes, a, b, p, q, k);
      TargetsOfPrefix(a, i);
      TargetsOfPrefix(b, i);
      assert a[..i] == a[..k] + [a[k]] && b[..i] == b[..k] + [b[k]];
      TargetsAppend(a[..k], a[k]);
      TargetsAppend(b[..k], b[k]);
      var reached := Reached(Targets(a[..k]));
      assert p[..reached][k] == q[..reached][k];
      assert IsRow(codes, p, p[k], true, a[k]) && IsRow(codes, q, q[k], true, b[k]);
      EntriesAgree(codes, p, q, p[k], Targets(a[..k]), a[k], b[k], NIBBLES);
      WholeRows(codes, p, q, p[k], a[k], b[k]);
    }
  }

  lemma NoTargets(a: Machine)
    ensures Reached(Targets(a[..0])) == 1
  {
  }

  lemma WholeRows(codes: Table, p: seq<Path>, q: seq<Path>, at: Path, a: seq<Entry>, b: seq<Entry>)
    requires IsRow(codes, p, at, true, a) && IsRow(codes, q, at, true, b)
    ensures a[..NIBBLES] == a && b[..NIBBLES] == b
  {
  }

  // There is one machine of a code whose states are numbered in the order they are first reached.
  lemma MachineIsUnique(codes: Table, a: Machine, b: Machine)
    requires IsMachineOf(codes, a) && IsMachineOf(codes, b)
    ensures a == b
  {
    hide Targets, Reached, NumberedAsReached;
    var p :| Compiled(codes, a, p);
    var q :| Compiled(codes, b, q);
    var n := if |a| < |b| then |a| else |b|;
    RowsAgree(codes, a, b, p, q, n);
    RowsAgree(codes, b, a, q, p, n);
    assert a[..|a|] == a && b[..|b|] == b;
  }

  // The whole compilation, from a table of codes to the machine that decodes it.
  method BuildStates(codes: Table) returns (out: Machine, ghost pos: seq<Path>)
    ensures IsMachineOf(codes, out) && Compiled(codes, out, pos)
  {
    hide Built, Rows, AllResting, IsMachineOf, InOrder;
    var root, at := BuildTree(codes);
    var table, numbering;
    ghost var states;
    table, numbering, pos, states := BuildTable(codes, root, at);
    var accepting := Accepting(codes, root, numbering, at, pos, states);
    out := MarkTable(table, accepting, codes, pos);
    NumberedIsFinite(at, pos, states, numbering);
    MachineFound(codes, out, pos);
  }
}
