/** The generated tables as text: their records, and how the fields of a record read back. */
module HuffmanTables {
  import opened Bits
  import opened HuffmanCode
  import opened HuffmanPositions
  import opened HuffmanMachine
  import opened Wrappers
  import Hex
  import HuffmanCodec

  const CODE_WIDTH := 10
  const STATE_WIDTH := 6

  function CodeRecord(c: Code): string
    requires c.code >= 0 && c.bits >= 0
  {
    Hex.Field(Hex.Upper, c.code, 8) + Hex.Field(Hex.Upper, c.bits, 2)
  }

  function EntryRecord(e: Entry): string {
    Hex.Field(Hex.Upper, e.state, 2) + Hex.Field(Hex.Upper, e.flags, 2) + Hex.Field(Hex.Upper, e.symbol, 2)
  }

  lemma SizedIsNatural(c: Code)
    requires SizedCode(c)
    ensures 0 <= c.code < Pow2(LONGEST) && 0 <= c.bits
  {
    ShrZero(c.code, c.bits);
    Pow2Monotone(c.bits, LONGEST);
  }

  function CodeRecords(codes: Table): (r: seq<string>)
    requires forall i :: 0 <= i < |codes| ==> codes[i].code >= 0 && codes[i].bits >= 0
    ensures |r| == |codes|
  {
    seq(|codes|, i requires 0 <= i < |codes| => CodeRecord(codes[i]))
  }

  function RowRecords(row: seq<Entry>): (r: seq<string>)
    ensures |r| == |row|
  {
    seq(|row|, i requires 0 <= i < |row| => EntryRecord(row[i]))
  }

  function StateRecords(states: Machine): seq<string> {
    if states == [] then []
    else StateRecords(states[..|states| - 1]) + RowRecords(states[|states| - 1])
  }

  // Every number of the machine fits the two digits it is printed in.
  ghost predicate Fits(states: Machine) {
    forall i :: 0 <= i < |states| ==> |states[i]| == NIBBLES && RowFits(states[i])
  }

  ghost predicate RowFits(row: seq<Entry>) {
    forall n :: 0 <= n < |row| ==> row[n].state < 256 && row[n].flags < 256 && row[n].symbol < 256
  }

  lemma EntryRecordReads(e: Entry)
    requires e.state < 256 && e.flags < 256 && e.symbol < 256
    ensures var r := EntryRecord(e);
      |r| == STATE_WIDTH && Hex.Value(r[..2]) == e.state && Hex.Value(r[2..4]) == e.flags
      && Hex.Value(r[4..6]) == e.symbol
  {
    assert Hex.Pow16(2) == 16 * Hex.Pow16(1) == 256 * Hex.Pow16(0);
    Hex.FieldWidth(Hex.Upper, e.state, 2);
    Hex.FieldWidth(Hex.Upper, e.flags, 2);
    Hex.FieldWidth(Hex.Upper, e.symbol, 2);
    var a, b := Hex.Field(Hex.Upper, e.state, 2), Hex.Field(Hex.Upper, e.flags, 2);
    var c := Hex.Field(Hex.Upper, e.symbol, 2);
    assert (a + b + c)[..2] == a && (a + b + c)[2..4] == b && (a + b + c)[4..6] == c;
  }

  lemma EightDigitsHold()
    ensures Hex.Pow16(2) == 256 && Hex.Pow16(8) == 0x1_0000_0000 && Pow2(LONGEST) == 0x4000_0000
  {
    assert Hex.Pow16(2) == 256 && Hex.Pow16(4) == 256 * Hex.Pow16(2) && Hex.Pow16(8) == 65536 * Hex.Pow16(4);
    assert Pow2(10) == 1024 && Pow2(20) == 1024 * Pow2(10) && Pow2(LONGEST) == 1024 * Pow2(20);
  }

  lemma CodeRecordReads(c: Code)
    requires SizedCode(c) && c.code >= 0
    ensures var r := CodeRecord(c);
      |r| == CODE_WIDTH && Hex.Value(r[..8]) == c.code && Hex.Value(r[8..10]) == c.bits
  {
    hide Hex.Field, Hex.Pow16, Hex.Value, Pow2, Shr;
    SizedIsNatural(c);
    EightDigitsHold();
    Hex.FieldWidth(Hex.Upper, c.code, 8);
    Hex.FieldWidth(Hex.Upper, c.bits, 2);
    var a, b := Hex.Field(Hex.Upper, c.code, 8), Hex.Field(Hex.Upper, c.bits, 2);
    assert (a + b)[..8] == a && (a + b)[8..10] == b;
  }

  predicate IsUpper(text: string) {
    forall i :: 0 <= i < |text| ==> '0' <= text[i] <= '9' || 'A' <= text[i] <= 'F'
  }

  lemma UpperConcat(a: string, b: string)
    requires IsUpper(a) && IsUpper(b)
    ensures IsUpper(a + b)
  {
  }

  // Records are written in capital letters.
  lemma RecordsAreUpper(c: Code, e: Entry)
    requires c.code >= 0 && c.bits >= 0
    ensures IsUpper(CodeRecord(c)) && IsUpper(EntryRecord(e))
  {
    hide Hex.Field, IsUpper;
    FieldIsUpper(c.code, 8);
    FieldIsUpper(c.bits, 2);
    FieldIsUpper(e.state, 2);
    FieldIsUpper(e.flags, 2);
    FieldIsUpper(e.symbol, 2);
    UpperConcat(Hex.Field(Hex.Upper, c.code, 8), Hex.Field(Hex.Upper, c.bits, 2));
    UpperConcat(Hex.Field(Hex.Upper, e.state, 2), Hex.Field(Hex.Upper, e.flags, 2));
    UpperConcat(Hex.Field(Hex.Upper, e.state, 2) + Hex.Field(Hex.Upper, e.flags, 2), Hex.Field(Hex.Upper, e.symbol, 2));
  }

  lemma FieldIsUpper(value: nat, width: nat)
    ensures IsUpper(Hex.Field(Hex.Upper, value, width))
  {
    Hex.FieldIsCanonical(Hex.Upper, value, width);
  }

  lemma {:induction false} StateRecordAt(states: Machine, s: nat, n: nat)
    requires forall i :: 0 <= i < |states| ==> |states[i]| == NIBBLES
    requires s < |states| && n < NIBBLES
    ensures |StateRecords(states)| == NIBBLES * |states|
    ensures StateRecords(states)[NIBBLES * s + n] == EntryRecord(states[s][n])
  {
    StateRecordCount(states);
    var last := |states| - 1;
    StateRecordCount(states[..last]);
    if s < last {
      StateRecordAt(states[..last], s, n);
    }
  }

  lemma {:induction false} StateRecordCount(states: Machine)
    requires forall i :: 0 <= i < |states| ==> |states[i]| == NIBBLES
    ensures |StateRecords(states)| == NIBBLES * |states|
  {
    if states != [] {
      StateRecordCount(states[..|states| - 1]);
    }
  }

  lemma {:induction false} StateRecordsWidth(states: Machine)
    requires Fits(states)
    ensures Hex.AllOfWidth(StateRecords(states), STATE_WIDTH)
  {
    if states != [] {
      var row := states[|states| - 1];
      StateRecordsWidth(states[..|states| - 1]);
      forall n | 0 <= n < |row|
        ensures |EntryRecord(row[n])| == STATE_WIDTH
      {
        EntryRecordReads(row[n]);
      }
    }
  }

  method RenderCodes(codes: Table) returns (text: string)
    requires forall i :: 0 <= i < |codes| ==> codes[i].code >= 0 && codes[i].bits >= 0
    ensures text == Hex.Join(CodeRecords(codes))
  {
    text := "";
    ghost var records := CodeRecords(codes);
    for i := 0 to |codes|
      invariant text == Hex.Join(records[..i])
    {
      assert records[..i + 1][..i] == records[..i];
      text := text + CodeRecord(codes[i]);
    }
    assert records[..|codes|] == records;
  }

  method RenderStates(states: Machine) returns (text: string)
    ensures text == Hex.Join(StateRecords(states))
  {
    text := "";
    for s := 0 to |states|
      invariant text == Hex.Join(StateRecords(states[..s]))
    {
      assert states[..s + 1][..s] == states[..s];
      text := RenderRow(states[s], text, StateRecords(states[..s]));
    }
    assert states[..|states|] == states;
  }

  method RenderRow(row: seq<Entry>, so: string, ghost before: seq<string>) returns (text: string)
    requires so == Hex.Join(before)
    ensures text == Hex.Join(before + RowRecords(row))
  {
    hide EntryRecord, Hex.Join;
    text := so;
    assert before + [] == before;
    for n := 0 to |row|
      invariant text == Hex.Join(before + RowRecords(row[..n]))
    {
      Hex.JoinAppend(before + RowRecords(row[..n]), EntryRecord(row[n]));
      assert before + RowRecords(row[..n + 1]) == before + RowRecords(row[..n]) + [EntryRecord(row[n])];
      text := text + EntryRecord(row[n]);
    }
    assert row[..|row|] == row;
  }

  // The machine has at most 256 states, and its symbols are below EOS, so two digits hold every field.
  lemma CompiledFits(codes: Table, states: Machine, pos: seq<Path>)
    requires PrefixCode(codes) && Compiled(codes, states, pos)
    ensures |states| <= 256 && Fits(states)
  {
    forall i | 0 <= i < |pos|
      ensures pos[i] in InteriorBelow(codes, [])
    {
      HuffmanCodec.RestIsInterior(codes, pos[i]);
      InteriorIsBelow(codes, [], pos[i]);
    }
    InteriorTotal(codes);
    DistinctWithin(pos, InteriorBelow(codes, []));
    forall i | 0 <= i < |states|
      ensures |states[i]| == NIBBLES && RowFits(states[i])
    {
      RowOfCompiledFits(codes, pos, pos[i], states[i]);
    }
  }

  lemma RowOfCompiledFits(codes: Table, pos: seq<Path>, p: Path, row: seq<Entry>)
    requires |codes| == SYMBOLS && |pos| <= 256 && IsRow(codes, pos, p, true, row)
    ensures RowFits(row)
  {
    forall n | 0 <= n < |row|
      ensures row[n].state < 256 && row[n].flags < 256 && row[n].symbol < 256
    {
      assert IsEntry(codes, pos, NibbleWalk(codes, p, n), true, row[n]);
      SymbolsAreBytes(codes, p, ToBits(n, 4));
    }
  }

  lemma {:induction false} SymbolsAreBytes(codes: Table, p: Path, bits: Path)
    requires |codes| == SYMBOLS
    ensures var w := Run(codes, At(p, []), bits);
      w.At? ==> forall i :: 0 <= i < |w.out| ==> w.out[i] < EOS
  {
    if bits != [] {
      SymbolsAreBytes(codes, p, bits[..|bits| - 1]);
    }
  }
}
