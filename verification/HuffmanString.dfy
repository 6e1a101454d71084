/** Huffman coded strings: the decoder that reads the generated machine, and what it accepts. */
module HuffmanString {
  import opened Bits
  import opened HuffmanCode
  import opened HuffmanPositions
  import opened HuffmanMachine
  import opened HuffmanCodec
  import opened HuffmanTables
  import opened Wrappers
  import Hex

  datatype Decoded = Ok(out: seq<byte>) | HasEos | TooLong | BadPadding

  // What is read of `data` after its first `k` nibbles.
  ghost function After(codes: Table, data: seq<byte>, k: nat): Walk
    requires k <= 2 * |data|
  {
    Run(codes, START, BitsOf(data)[..4 * k])
  }

  ghost predicate Overflows(codes: Table, data: seq<byte>, limit: nat, k: nat)
    requires k <= 2 * |data|
  {
    var w := After(codes, data, k);
    w.At? && |w.out| > limit
  }

  ghost predicate OverflowsBy(codes: Table, data: seq<byte>, limit: nat, k: nat)
    requires k <= 2 * |data|
  {
    exists j :: 0 <= j <= k && Overflows(codes, data, limit, j)
  }

  // The reference: a walk of the tree bit by bit. Too much output is noticed between nibbles.
  ghost function Reference(codes: Table, data: seq<byte>, limit: nat): Decoded
    requires |codes| == SYMBOLS
  {
    var w := Run(codes, START, BitsOf(data));
    if OverflowsBy(codes, data, limit, 2 * |data|) then TooLong
    else if w.Failed? then HasEos
    else if !IsPadding(codes, w.pos) then BadPadding
    else Ok(AsBytes(codes, BitsOf(data), w.out))
  }

  // A walk gives out symbols of single bytes only.
  ghost function AsBytes(codes: Table, bits: Path, out: seq<nat>): (r: seq<byte>)
    requires |codes| == SYMBOLS && Run(codes, START, bits).At? && Run(codes, START, bits).out == out
    ensures r == out
  {
    SymbolsAreBytes(codes, [], bits);
    out
  }

  // One row of the machine read with one nibble does what the tree does with its four bits.
  lemma NibbleStep(codes: Table, states: Machine, pos: seq<Path>, w: Walk, state: nat, nibble: nat)
    requires PrefixCode(codes) && Compiled(codes, states, pos)
    requires w.At? && state < |pos| && pos[state] == w.pos && nibble < NIBBLES
    ensures var e := states[state][nibble];
      var w' := Run(codes, w, ToBits(nibble, 4));
      if Has(e.flags, FAIL) then w'.Failed?
      else
        && e.state < |pos|
        && w' == At(pos[e.state], if Has(e.flags, SYMBOL) then w.out + [e.symbol] else w.out)
        && (Has(e.flags, ACCEPTED) <==> IsPadding(codes, pos[e.state]))
  {
    var e := states[state][nibble];
    assert IsRow(codes, pos, pos[state], true, states[state]);
    assert IsEntry(codes, pos, NibbleWalk(codes, pos[state], nibble), true, e);
    RunOnto(codes, w.pos, w.out, ToBits(nibble, 4));
    AtMostOneSymbol(codes, w.pos, ToBits(nibble, 4));
    EntryMeans(codes, pos, w, NibbleWalk(codes, w.pos, nibble), e);
  }

  lemma EntryMeans(codes: Table, pos: seq<Path>, w: Walk, n: Walk, e: Entry)
    requires w.At? && IsEntry(codes, pos, n, true, e)
    requires n.At? ==> |n.out| <= 1
    ensures var w' := Onto(w.out, n);
      if Has(e.flags, FAIL) then w'.Failed?
      else
        && e.state < |pos|
        && w' == At(pos[e.state], if Has(e.flags, SYMBOL) then w.out + [e.symbol] else w.out)
        && (Has(e.flags, ACCEPTED) <==> IsPadding(codes, pos[e.state]))
  {
    if n.At? {
      assert |n.out| == 1 ==> n.out == [Last(n.out)];
      assert w.out + [] == w.out;
    }
  }

  // The nibbles of a byte, high before low.
  function NibbleAt(data: seq<byte>, k: nat): nat
    requires k < 2 * |data|
  {
    if k % 2 == 0 then Shr(data[k / 2], 4) % 16 else data[k / 2] % 16
  }

  lemma NibbleBits(data: seq<byte>, k: nat)
    requires k < 2 * |data|
    ensures BitsOf(data)[4 * k..4 * k + 4] == ToBits(NibbleAt(data, k), 4)
  {
    var i := k / 2;
    hide ToBits, BitsOf, Shr;
    ByteHalves(data[i]);
    BitsOfByte(data, i);
    SliceOfSlice(BitsOf(data), 8 * i, 8 * i + 8, 0, 4);
    SliceOfSlice(BitsOf(data), 8 * i, 8 * i + 8, 4, 8);
    if k % 2 == 0 {
      assert 4 * k == 8 * i;
    } else {
      assert 4 * k == 8 * i + 4;
    }
  }

  lemma ByteHalves(b: byte)
    ensures ToBits(b, 8)[..4] == ToBits(Shr(b, 4) % 16, 4)
    ensures ToBits(b, 8)[4..] == ToBits(b % 16, 4)
  {
    assert Pow2(4) == 16;
    ToBitsSplit(b, 4, 4);
    ToBitsMod(b, 4, 4);
    ToBitsMod(Shr(b, 4), 4, 4);
  }

  lemma AfterStep(codes: Table, data: seq<byte>, k: nat)
    requires k < 2 * |data|
    ensures After(codes, data, k + 1) == Run(codes, After(codes, data, k), ToBits(NibbleAt(data, k), 4))
  {
    NibbleBits(data, k);
    var bits := BitsOf(data);
    assert bits[..4 * (k + 1)] == bits[..4 * k] + bits[4 * k..4 * k + 4];
    RunConcat(codes, START, bits[..4 * k], bits[4 * k..4 * k + 4]);
  }

  // An entry of the machine, as it is read back from the text.
  ghost predicate ReadsAt(text: string, at: nat, e: Entry) {
    && at + STATE_WIDTH <= |text|
    && Hex.Value(text[at..at + 2]) == e.state
    && Hex.Value(text[at + 2..at + 2 + 2]) == e.flags
    && Hex.Value(text[at + 4..at + 4 + 2]) == e.symbol
  }

  lemma RecordReadsAt(text: string, at: nat, e: Entry)
    requires at + STATE_WIDTH <= |text| && text[at..at + STATE_WIDTH] == EntryRecord(e)
    requires e.state < 256 && e.flags < 256 && e.symbol < 256
    ensures ReadsAt(text, at, e)
  {
    EntryRecordReads(e);
    hide EntryRecord, Hex.Value;
    SliceOfSlice(text, at, at + STATE_WIDTH, 0, 2);
    SliceOfSlice(text, at, at + STATE_WIDTH, 2, 4);
    SliceOfSlice(text, at, at + STATE_WIDTH, 4, 6);
  }

  lemma RecordsRead(states: Machine, text: string, state: nat, nibble: nat)
    requires Fits(states) && text == Hex.Join(StateRecords(states))
    requires state < |states| && nibble < NIBBLES
    ensures ReadsAt(text, (state * 16 + nibble) * STATE_WIDTH, states[state][nibble])
    ensures states[state][nibble].symbol < 256
  {
    hide StateRecords, EntryRecord, Hex.Join, ReadsAt;
    assert RowFits(states[state]);
    var e := states[state][nibble];
    assert e.state < 256 && e.flags < 256 && e.symbol < 256;
    StateRecordsWidth(states);
    StateRecordAt(states, state, nibble);
    JoinedEntryReads(StateRecords(states), text, state * 16 + nibble, e);
  }

  lemma JoinedEntryReads(records: seq<string>, text: string, n: nat, e: Entry)
    requires Hex.AllOfWidth(records, STATE_WIDTH) && text == Hex.Join(records)
    requires n < |records| && records[n] == EntryRecord(e)
    requires e.state < 256 && e.flags < 256 && e.symbol < 256
    ensures ReadsAt(text, n * STATE_WIDTH, e)
  {
    hide EntryRecord, ReadsAt;
    Hex.RecordAt(records, STATE_WIDTH, n);
    RecordReadsAt(text, n * STATE_WIDTH, e);
  }

  // The decoder has read `k` nibbles and keeps in step with the walk of the tree.
  ghost predicate InStep(codes: Table, pos: seq<Path>, data: seq<byte>, limit: nat, k: nat,
                         state: int, accepted: bool, out: seq<byte>)
    requires k <= 2 * |data|
  {
    var w := After(codes, data, k);
    && w.At? && 0 <= state < |pos| && pos[state] == w.pos && w.out == out
    && (accepted <==> IsPadding(codes, w.pos))
    && !OverflowsBy(codes, data, limit, k)
  }

  lemma StartsInStep(codes: Table, states: Machine, pos: seq<Path>, data: seq<byte>, limit: nat)
    requires Compiled(codes, states, pos)
    ensures InStep(codes, pos, data, limit, 0, 0, true, [])
  {
    assert BitsOf(data)[..0] == [];
  }

  lemma FailsForGood(codes: Table, data: seq<byte>, limit: nat, k: nat)
    requires |codes| == SYMBOLS && k <= 2 * |data|
    requires After(codes, data, k).Failed? && !OverflowsBy(codes, data, limit, k)
    ensures Reference(codes, data, limit) == HasEos
  {
    FailedAfter(codes, START, BitsOf(data), 4 * k);
    forall j | k <= j <= 2 * |data|
      ensures After(codes, data, j).Failed?
    {
      assert BitsOf(data)[..4 * j][..4 * k] == BitsOf(data)[..4 * k];
      FailedAfter(codes, START, BitsOf(data)[..4 * j], 4 * k);
    }
  }

  // What the numbers of one entry mean for the decoder: it stops where the reference stops, or it
  // stays in step.
  ghost predicate IsTurn(codes: Table, pos: seq<Path>, data: seq<byte>, limit: nat, k: nat, out: seq<byte>,
                         flags: int, next: int, symbol: int)
    requires |codes| == SYMBOLS && k < 2 * |data|
  {
    && flags >= 0 && 0 <= symbol < 256
    && if Has(flags, FAIL) then Reference(codes, data, limit) == HasEos
       else if Has(flags, SYMBOL) && |out| >= limit then Reference(codes, data, limit) == TooLong
       else InStep(codes, pos, data, limit, k + 1, next, Has(flags, ACCEPTED),
                   if Has(flags, SYMBOL) then out + [symbol] else out)
  }

  lemma CompiledRow(codes: Table, states: Machine, pos: seq<Path>, state: nat)
    requires Compiled(codes, states, pos) && state < |pos|
    ensures |states| == |pos| && |states[state]| == NIBBLES
  {
    assert IsRow(codes, pos, pos[state], true, states[state]);
  }

  lemma FitsAt(states: Machine, state: nat, nibble: nat)
    requires Fits(states) && state < |states| && nibble < |states[state]|
    ensures states[state][nibble].symbol < 256
  {
    assert RowFits(states[state]);
  }

  lemma OverflowIsTooLong(codes: Table, data: seq<byte>, limit: nat)
    requires |codes| == SYMBOLS && OverflowsBy(codes, data, limit, 2 * |data|)
    ensures Reference(codes, data, limit) == TooLong
  {
  }

  // One turn of the decoder: it stops where the reference stops, or it stays in step.
  lemma StaysInStep(codes: Table, states: Machine, pos: seq<Path>, data: seq<byte>, limit: nat, k: nat,
                    state: int, accepted: bool, out: seq<byte>)
    requires PrefixCode(codes) && Compiled(codes, states, pos) && k < 2 * |data|
    requires InStep(codes, pos, data, limit, k, state, accepted, out)
    ensures var e := states[state][NibbleAt(data, k)];
      IsTurn(codes, pos, data, limit, k, out, e.flags, e.state, e.symbol)
  {
    hide Compiled, PrefixCode, IsPadding, Run, Reference, IsRow, Fits, OverflowsBy, After;
    HasAllSymbols(codes);
    CompiledRow(codes, states, pos, state);
    var nibble := NibbleAt(data, k);
    NibbleStep(codes, states, pos, After(codes, data, k), state, nibble);
    AfterStep(codes, data, k);
    CompiledFits(codes, states, pos);
    var e := states[state][nibble];
    FitsAt(states, state, nibble);
    OverflowStep(codes, data, limit, k);
    if Has(e.flags, FAIL) {
      FailsForGood(codes, data, limit, k + 1);
    } else if Has(e.flags, SYMBOL) && |out| >= limit {
      OverflowIsTooLong(codes, data, limit);
    }
  }

  lemma OverflowStep(codes: Table, data: seq<byte>, limit: nat, k: nat)
    requires k < 2 * |data|
    ensures OverflowsBy(codes, data, limit, k + 1) <==>
            OverflowsBy(codes, data, limit, k) || Overflows(codes, data, limit, k + 1)
    ensures OverflowsBy(codes, data, limit, k + 1) ==> OverflowsBy(codes, data, limit, 2 * |data|)
    ensures Overflows(codes, data, limit, k) ==> OverflowsBy(codes, data, limit, k)
  {
  }

  lemma EndsInStep(codes: Table, pos: seq<Path>, data: seq<byte>, limit: nat,
                   state: int, accepted: bool, out: seq<byte>)
    requires |codes| == SYMBOLS
    requires InStep(codes, pos, data, limit, 2 * |data|, state, accepted, out)
    ensures Reference(codes, data, limit) == if accepted then Ok(out) else BadPadding
  {
    assert BitsOf(data)[..4 * (2 * |data|)] == BitsOf(data);
  }

  // The decoder: two lookups for every byte.
  method Decode(text: string, data: seq<byte>, limit: nat,
                ghost codes: Table, ghost states: Machine, ghost pos: seq<Path>)
    returns (r: Decoded)
    requires PrefixCode(codes) && Compiled(codes, states, pos) && text == Hex.Join(StateRecords(states))
    ensures r == Reference(codes, data, limit)
  {
    hide *;
    HasAllSymbols(codes);
    StartsInStep(codes, states, pos, data, limit);
    var out: seq<byte>, state, accepted := [], 0, true;
    for i := 0 to |data|
      invariant InStep(codes, pos, data, limit, 2 * i, state, accepted, out)
    {
      var stop;
      stop, state, accepted, out :=
        DecodeByte(text, data[i], limit, state, accepted, out, codes, states, pos, data, i);
      if stop.Some? {
        return stop.value;
      }
    }
    EndsInStep(codes, pos, data, limit, state, accepted, out);
    if !accepted {
      return BadPadding;
    }
    return Ok(out);
  }

  method DecodeByte(text: string, b: byte, limit: nat, state: int, accepted: bool, out: seq<byte>,
                    ghost codes: Table, ghost states: Machine, ghost pos: seq<Path>,
                    ghost data: seq<byte>, ghost i: nat)
    returns (stop: Option<Decoded>, state': int, accepted': bool, out': seq<byte>)
    requires PrefixCode(codes) && Compiled(codes, states, pos) && text == Hex.Join(StateRecords(states))
    requires i < |data| && data[i] == b && InStep(codes, pos, data, limit, 2 * i, state, accepted, out)
    ensures |codes| == SYMBOLS
    ensures stop.Some? ==> Reference(codes, data, limit) == stop.value
    ensures stop.None? ==> InStep(codes, pos, data, limit, 2 * i + 2, state', accepted', out')
  {
    hide *;
    HasAllSymbols(codes);
    state', accepted', out' := state, accepted, out;
    stop := None;
    ghost var k := 2 * i;
    var shift := 4;
    while shift >= 0
      invariant (shift == 4 && k == 2 * i) || (shift == 0 && k == 2 * i + 1) || (shift == -4 && k == 2 * i + 2)
      invariant stop.None? && InStep(codes, pos, data, limit, k, state', accepted', out')
      decreases shift + 4
    {
      stop, state', accepted', out' :=
        Turn(text, b, shift, limit, state', accepted', out', codes, states, pos, data, i, k);
      if stop.Some? {
        return;
      }
      shift, k := shift - 4, k + 1;
    }
  }

  method Turn(text: string, b: byte, shift: nat, limit: nat, state: int, accepted: bool, out: seq<byte>,
              ghost codes: Table, ghost states: Machine, ghost pos: seq<Path>, ghost data: seq<byte>,
              ghost i: nat, ghost k: nat)
    returns (stop: Option<Decoded>, state': int, accepted': bool, out': seq<byte>)
    requires PrefixCode(codes) && Compiled(codes, states, pos) && text == Hex.Join(StateRecords(states))
    requires i < |data| && data[i] == b
    requires (shift == 4 && k == 2 * i) || (shift == 0 && k == 2 * i + 1)
    requires InStep(codes, pos, data, limit, k, state, accepted, out)
    ensures |codes| == SYMBOLS
    ensures stop.Some? ==> Reference(codes, data, limit) == stop.value
    ensures stop.None? ==> InStep(codes, pos, data, limit, k + 1, state', accepted', out')
  {
    NibbleByShift(data, i, k, shift);
    hide *;
    state', accepted', out' := state, accepted, out;
    var flags, next, symbol :=
      Lookup(text, state, Shr(b, shift) % 16, codes, states, pos, data, limit, k, accepted, out);
    TurnGoesOn(codes, pos, data, limit, k, out, flags, next, symbol);
    if Has(flags, FAIL) {
      return Some(HasEos), state', accepted', out';
    }
    if Has(flags, SYMBOL) {
      if |out| >= limit {
        return Some(TooLong), state', accepted', out';
      }
      out' := out + [symbol];
    }
    stop, state', accepted' := None, next, Has(flags, ACCEPTED);
  }

  lemma TurnGoesOn(codes: Table, pos: seq<Path>, data: seq<byte>, limit: nat, k: nat, out: seq<byte>,
                   flags: nat, next: int, symbol: byte)
    requires |codes| == SYMBOLS && k < 2 * |data|
    requires IsTurn(codes, pos, data, limit, k, out, flags, next, symbol)
    ensures Has(flags, FAIL) ==> Reference(codes, data, limit) == HasEos
    ensures !Has(flags, FAIL) && Has(flags, SYMBOL) && |out| >= limit ==>
      Reference(codes, data, limit) == TooLong
    ensures !Has(flags, FAIL) && !(Has(flags, SYMBOL) && |out| >= limit) ==>
      InStep(codes, pos, data, limit, k + 1, next, Has(flags, ACCEPTED),
             if Has(flags, SYMBOL) then out + [symbol] else out)
  {
  }

  method Lookup(text: string, state: int, nibble: nat,
                ghost codes: Table, ghost states: Machine, ghost pos: seq<Path>, ghost data: seq<byte>,
                ghost limit: nat, ghost k: nat, ghost accepted: bool, ghost out: seq<byte>)
    returns (flags: nat, next: int, symbol: byte)
    requires PrefixCode(codes) && Compiled(codes, states, pos) && text == Hex.Join(StateRecords(states))
    requires k < 2 * |data| && nibble == NibbleAt(data, k)
    requires InStep(codes, pos, data, limit, k, state, accepted, out)
    ensures |codes| == SYMBOLS && IsTurn(codes, pos, data, limit, k, out, flags, next, symbol)
  {
    assert 0 <= state < |pos| == |states| && |codes| == SYMBOLS;
    hide *;
    CompiledFits(codes, states, pos);
    StaysInStep(codes, states, pos, data, limit, k, state, accepted, out);
    RecordsRead(states, text, state, nibble);
    var at := (state * 16 + nibble) * STATE_WIDTH;
    flags, next, symbol := ReadRecord(text, at, states[state][nibble]);
  }

  method ReadRecord(text: string, at: nat, ghost e: Entry) returns (flags: nat, next: int, symbol: byte)
    requires ReadsAt(text, at, e) && e.symbol < 256
    ensures flags == e.flags && next == e.state && symbol == e.symbol
  {
    flags := Hex.At(text, at + 2, 2);
    symbol := Hex.At(text, at + 4, 2);
    next := Hex.At(text, at, 2);
  }

  lemma NibbleByShift(data: seq<byte>, i: nat, k: nat, shift: nat)
    requires i < |data|
    requires (shift == 4 && k == 2 * i) || (shift == 0 && k == 2 * i + 1)
    ensures Shr(data[i], shift) % 16 == NibbleAt(data, k)
  {
  }

  lemma OverflowsAtTheEnd(codes: Table, data: seq<byte>, limit: nat, k: nat)
    requires k <= 2 * |data| && Overflows(codes, data, limit, k)
    ensures var w := Run(codes, START, BitsOf(data)); w.At? ==> |w.out| > limit
  {
    var bits := BitsOf(data);
    assert bits == bits[..4 * k] + bits[4 * k..];
    RunConcat(codes, START, bits[..4 * k], bits[4 * k..]);
    if Run(codes, START, bits).At? {
      OutputGrows(codes, After(codes, data, k), bits[4 * k..]);
    }
  }

  lemma OverflowIsOutputBeyond(codes: Table, data: seq<byte>, limit: nat)
    ensures var w := Run(codes, START, BitsOf(data));
      w.At? ==> (OverflowsBy(codes, data, limit, 2 * |data|) <==> |w.out| > limit)
  {
    hide Run;
    assert BitsOf(data)[..4 * (2 * |data|)] == BitsOf(data);
    if OverflowsBy(codes, data, limit, 2 * |data|) {
      var k :| 0 <= k <= 2 * |data| && Overflows(codes, data, limit, k);
      OverflowsAtTheEnd(codes, data, limit, k);
    }
    var w := Run(codes, START, BitsOf(data));
    if w.At? && |w.out| > limit {
      assert Overflows(codes, data, limit, 2 * |data|);
    }
  }

  // The decoder accepts exactly the encodings of strings within the limit, and gives each string back.
  lemma DecodesExactly(codes: Table, data: seq<byte>, limit: nat, s: seq<byte>)
    requires PrefixCode(codes) && EosIsOnes(codes)
    ensures Reference(codes, data, limit) == Ok(s) <==> IsEncodingOf(codes, BitsOf(data), s) && |s| <= limit
  {
    AcceptsExactlyEncodings(codes, BitsOf(data), s);
    OverflowIsOutputBeyond(codes, data, limit);
  }

  // The first 4 k bits spell more symbols than the limit allows.
  ghost predicate SpellsTooMany(codes: Table, data: seq<byte>, limit: nat, k: nat)
    requires k <= 2 * |data|
  {
    exists s: seq<nat>, p: Path :: Spells(codes, BitsOf(data)[..4 * k], s, p) && |s| > limit
  }

  // The data spells a string, but does not end in fewer than eight ones.
  ghost predicate EndsBadly(codes: Table, data: seq<byte>) {
    exists s: seq<nat>, p: Path :: Spells(codes, BitsOf(data), s, p) && !(|p| <= 7 && forall i :: 0 <= i < |p| ==> p[i])
  }

  lemma OverflowMeans(codes: Table, data: seq<byte>, limit: nat, k: nat)
    requires PrefixCode(codes) && k <= 2 * |data|
    ensures Overflows(codes, data, limit, k) <==> SpellsTooMany(codes, data, limit, k)
  {
    hide Run, Spells, PrefixCode;
    var bits, w := BitsOf(data)[..4 * k], After(codes, data, k);
    if w.At? {
      RunSpells(codes, bits, w.out, w.pos);
    }
    forall s: seq<nat>, p: Path | Spells(codes, bits, s, p)
      ensures w == At(p, s)
    {
      RunSpells(codes, bits, s, p);
    }
  }

  // What each error says of the data.
  lemma ErrorsMean(codes: Table, data: seq<byte>, limit: nat)
    requires PrefixCode(codes) && EosIsOnes(codes)
    ensures var r := Reference(codes, data, limit);
      var tooMany := exists k :: 0 <= k <= 2 * |data| && SpellsTooMany(codes, data, limit, k);
      && (r == TooLong <==> tooMany)
      && (r == HasEos <==> !tooMany && HoldsEos(codes, BitsOf(data)))
      && (r == BadPadding <==> !tooMany && EndsBadly(codes, data))
  {
    hide Run, Spells, PrefixCode, HoldsEos, EndsBadly, SpellsTooMany, Overflows, IsPadding, EosIsOnes;
    HasAllSymbols(codes);
    forall k | 0 <= k <= 2 * |data|
      ensures Overflows(codes, data, limit, k) <==> SpellsTooMany(codes, data, limit, k)
    {
      OverflowMeans(codes, data, limit, k);
    }
    FailsIffEos(codes, BitsOf(data));
    EndMeans(codes, data);
  }

  lemma EndMeans(codes: Table, data: seq<byte>)
    requires PrefixCode(codes) && EosIsOnes(codes)
    ensures var w := Run(codes, START, BitsOf(data));
      EndsBadly(codes, data) <==> w.At? && !IsPadding(codes, w.pos)
  {
    hide Run, Spells, PrefixCode, IsPadding, EosIsOnes;
    var bits, w := BitsOf(data), Run(codes, START, BitsOf(data));
    if w.At? {
      RunSpells(codes, bits, w.out, w.pos);
      PaddingMeans(codes, w.pos);
    }
    forall s: seq<nat>, p: Path | Spells(codes, bits, s, p)
      ensures w == At(p, s)
    {
      RunSpells(codes, bits, s, p);
    }
  }

  lemma PaddingMeans(codes: Table, p: Path)
    requires PrefixCode(codes) && EosIsOnes(codes)
    ensures IsPadding(codes, p) <==> |p| <= 7 && forall i :: 0 <= i < |p| ==> p[i]
  {
    hide PrefixCode, EosIsOnes, IsPadding;
    OnesArePadding(codes, p);
    assert (forall i :: 0 <= i < |p| ==> p[i]) ==> p == Ones(|p|);
  }

  // A string has one encoding: the padding is what is missing from the last byte.
  lemma EncodingIsUnique(codes: Table, a: seq<byte>, b: seq<byte>, s: seq<nat>)
    requires IsEncodingOf(codes, BitsOf(a), s) && IsEncodingOf(codes, BitsOf(b), s)
    ensures a == b
  {
    assert |BitsOf(a)| - |BitsOf(b)| == 8 * (|a| - |b|);
    assert |BitsOf(a)| == |BitsOf(b)|;
    BitsOfInjective(a, b);
  }

  // The decoder is the inverse of the encoder on both sides: what is decoded could only have been
  // encoded so, and two accepted inputs with one output are the same.
  lemma DecodingIsInjective(codes: Table, a: seq<byte>, b: seq<byte>, limit: nat)
    requires PrefixCode(codes) && EosIsOnes(codes)
    requires Reference(codes, a, limit).Ok? && Reference(codes, a, limit) == Reference(codes, b, limit)
    ensures a == b
  {
    var s := Reference(codes, a, limit).out;
    DecodesExactly(codes, a, limit, s);
    DecodesExactly(codes, b, limit, s);
    EncodingIsUnique(codes, a, b, s);
  }

  // Output is at most 8/5 of the input.
  lemma ExpansionBound(codes: Table, data: seq<byte>, limit: nat)
    requires PrefixCode(codes) && EosIsOnes(codes) && Reference(codes, data, limit).Ok?
    ensures SHORTEST * |Reference(codes, data, limit).out| <= 8 * |data|
  {
    var s := Reference(codes, data, limit).out;
    DecodesExactly(codes, data, limit, s);
    EncodingIsLong(codes, s);
  }
}
