/** The Huffman encoder, and the two inverse laws between it and the decoder. */
module HuffmanEncoder {
  import opened Bits
  import opened HuffmanCode
  import opened HuffmanPositions
  import opened HuffmanMachine
  import opened HuffmanCodec
  import opened HuffmanTables
  import opened HuffmanString
  import Hex

  // The accumulator of the encoder is a 64 bit word.
  const WORD := 64

  lemma CodeRecordsWidth(codes: Table)
    requires Sized(codes)
    requires forall i :: 0 <= i < |codes| ==> codes[i].code >= 0 && codes[i].bits >= 0
    ensures Hex.AllOfWidth(CodeRecords(codes), CODE_WIDTH)
  {
    hide CodeRecord;
    forall i | 0 <= i < |codes|
      ensures |CodeRecord(codes[i])| == CODE_WIDTH
    {
      CodeRecordReads(codes[i]);
    }
  }

  // The code of a symbol, as it is read back from the text.
  lemma CodeReads(codes: Table, text: string, symbol: nat)
    requires Sized(codes) && symbol < |codes|
    requires forall i :: 0 <= i < |codes| ==> codes[i].code >= 0 && codes[i].bits >= 0
    requires text == Hex.Join(CodeRecords(codes))
    ensures var at := symbol * CODE_WIDTH;
      && at + CODE_WIDTH <= |text|
      && Hex.Value(text[at..at + 8]) == codes[symbol].code
      && Hex.Value(text[at + 8..at + 8 + 2]) == codes[symbol].bits
  {
    hide CodeRecord, Hex.Join, Hex.Value, SizedCode;
    var records := CodeRecords(codes);
    CodeRecordsWidth(codes);
    var at := symbol * CODE_WIDTH;
    Hex.RecordAt(records, CODE_WIDTH, symbol);
    Hex.JoinWidth(records, CODE_WIDTH);
    CodeRecordReads(codes[symbol]);
    SliceOfSlice(text, at, at + CODE_WIDTH, 0, 8);
    SliceOfSlice(text, at, at + CODE_WIDTH, 8, 10);
  }

  // The bits written so far, with those still held in the accumulator.
  ghost function Pending(out: seq<byte>, bits: nat, held: nat): Path {
    BitsOf(out) + ToBits(bits, held)
  }

  // One step of the accumulator: what is shifted past the word is lost, and since the low bits are
  // then zero, setting the code into them is adding it.
  function ShiftIn(bits: nat, code: nat, length: nat): nat {
    (bits * Pow2(length) + code) % Pow2(WORD)
  }

  // The eight bits above the last `held`.
  function TopByte(bits: nat, held: nat): byte {
    Shr(bits, held) % 256
  }

  // The held bits, filled up with ones.
  function LastByte(bits: nat, held: nat): byte
    requires held < 8
  {
    ShiftIn(bits, Pow2(8 - held) - 1, 8 - held) % 256
  }

  // Shifting a code in behind the held bits.
  lemma PushCode(out: seq<byte>, bits: nat, held: nat, c: Code)
    requires SizedCode(c) && held < 8
    ensures 0 <= c.code < Pow2(c.bits)
    ensures Pending(out, ShiftIn(bits, c.code, c.bits), held + c.bits) == Pending(out, bits, held) + Word(c)
  {
    hide ToBits, BitsOf, Pow2, Shr;
    ShrZero(c.code, c.bits);
    ToBitsMod(bits * Pow2(c.bits) + c.code, held + c.bits, WORD);
    ToBitsConcat(bits, c.code, held, c.bits);
  }

  // Taking the eight oldest bits out as a byte.
  lemma PopByte(out: seq<byte>, bits: nat, held: nat)
    ensures Pending(out + [TopByte(bits, held)], bits, held) == Pending(out, bits, held + 8)
  {
    assert Pow2(8) == 256;
    ToBitsMod(Shr(bits, held), 8, 8);
    ToBitsSplit(bits, 8, held);
    BitsOfAppend(out, TopByte(bits, held));
  }

  // Filling the last byte with ones.
  lemma PadByte(out: seq<byte>, bits: nat, held: nat)
    requires 0 < held < 8
    ensures BitsOf(out + [LastByte(bits, held)]) == Pending(out, bits, held) + Ones(8 - held)
  {
    hide ToBits, BitsOf, Ones, Pow2;
    var pad := 8 - held;
    var ones := Pow2(pad) - 1;
    Pow2OfByte();
    ToBitsMod(ShiftIn(bits, ones, pad), 8, 8);
    ToBitsMod(bits * Pow2(pad) + ones, 8, WORD);
    ToBitsConcat(bits, ones, held, pad);
    ToBitsOnes(pad);
    BitsOfAppend(out, LastByte(bits, held));
  }

  // Everything read so far is written or held.
  ghost predicate IsPending(codes: Table, s: seq<byte>, out: seq<byte>, bits: nat, held: nat) {
    IsString(codes, s) && Pending(out, bits, held) == HuffmanCodec.Encode(codes, s)
  }

  lemma NothingPending(codes: Table)
    ensures IsPending(codes, [], [], 0, 0)
  {
  }

  lemma OneMorePending(codes: Table, s: seq<byte>, symbol: byte, before: Path, out: seq<byte>, bits: nat, held: nat)
    requires |codes| == SYMBOLS && IsString(codes, s) && before == HuffmanCodec.Encode(codes, s)
    requires Pending(out, bits, held) == before + Word(codes[symbol])
    ensures IsPending(codes, s + [symbol], out, bits, held)
  {
    EncodeAppend(codes, s, symbol);
  }

  lemma Finished(codes: Table, s: seq<byte>, out: seq<byte>, bits: nat, held: nat)
    requires |codes| == SYMBOLS && held < 8 && IsPending(codes, s, out, bits, held)
    ensures held == 0 ==> IsEncodingOf(codes, BitsOf(out), s)
    ensures held > 0 ==> forall r: Path :: r == Pending(out, bits, held) + Ones(8 - held) ==> IsEncodingOf(codes, r, s)
  {
    assert Pending(out, bits, held) + Ones(0) == Pending(out, bits, held);
    assert held == 0 ==> Pending(out, bits, held) == BitsOf(out);
  }

  // The encoder: a loop over a bit accumulator.
  method Encode(text: string, data: seq<byte>, ghost codes: Table) returns (out: seq<byte>)
    requires |codes| == SYMBOLS && Sized(codes) && text == Hex.Join(NaturalRecords(codes))
    ensures IsEncodingOf(codes, BitsOf(out), data)
  {
    assert |codes| == SYMBOLS && Sized(codes);
    hide *;
    out := [];
    var bits, held := 0, 0;
    NothingPending(codes);
    for i := 0 to |data|
      invariant 0 <= held < 8 && IsPending(codes, data[..i], out, bits, held)
    {
      ghost var before := Pending(out, bits, held);
      out, bits, held := PushSymbol(text, data[i], out, bits, held, codes);
      OneMorePending(codes, data[..i], data[i], before, out, bits, held);
      assert data[..i + 1] == data[..i] + [data[i]];
    }
    assert data[..|data|] == data;
    Finished(codes, data, out, bits, held);
    if held > 0 {
      PadByte(out, bits, held);
      out := out + [LastByte(bits, held)];
    }
  }

  ghost function NaturalRecords(codes: Table): seq<string>
    requires Sized(codes)
  {
    SizedAreNatural(codes);
    CodeRecords(codes)
  }

  lemma SizedAreNatural(codes: Table)
    requires Sized(codes)
    ensures forall i :: 0 <= i < |codes| ==> codes[i].code >= 0 && codes[i].bits >= 0
  {
    forall i | 0 <= i < |codes|
      ensures codes[i].code >= 0 && codes[i].bits >= 0
    {
      SizedIsNatural(codes[i]);
    }
  }

  // The entry of a symbol, read from the text.
  method CodeAt(text: string, symbol: byte, ghost codes: Table) returns (code: int, length: int)
    requires |codes| == SYMBOLS && Sized(codes) && text == Hex.Join(NaturalRecords(codes))
    ensures Code(code, length) == codes[symbol]
  {
    SizedAreNatural(codes);
    CodeReads(codes, text, symbol);
    hide *;
    var at := symbol * CODE_WIDTH;
    code := Hex.At(text, at, 8);
    length := Hex.At(text, at + 8, 2);
  }

  method PushSymbol(text: string, symbol: byte, so: seq<byte>, bits: nat, held: nat, ghost codes: Table)
    returns (out: seq<byte>, bits': nat, held': nat)
    requires |codes| == SYMBOLS && Sized(codes) && text == Hex.Join(NaturalRecords(codes)) && held < 8
    ensures held' < 8
    ensures Pending(out, bits', held') == Pending(so, bits, held) + Word(codes[symbol])
  {
    hide NaturalRecords, Hex.Join, Pending, Word, ShiftIn, Pow2, Shr;
    assert SizedCode(codes[symbol]);
    var code, length := CodeAt(text, symbol, codes);
    PushCode(so, bits, held, Code(code, length));
    bits' := ShiftIn(bits, code, length);
    out, held' := Drain(so, bits', held + length);
  }

  // Whole bytes leave the accumulator.
  method Drain(so: seq<byte>, bits: nat, held: nat) returns (out: seq<byte>, held': nat)
    requires held <= WORD
    ensures held' < 8 && Pending(out, bits, held') == Pending(so, bits, held)
  {
    hide *;
    out, held' := so, held;
    while held' >= 8
      invariant 0 <= held' <= WORD && Pending(out, bits, held') == Pending(so, bits, held)
    {
      held' := held' - 8;
      PopByte(out, bits, held');
      out := out + [TopByte(bits, held')];
    }
  }

  // What the encoder writes, the decoder reads back, and nothing else.
  lemma RoundTrip(codes: Table, s: seq<byte>, coded: seq<byte>, limit: nat)
    requires PrefixCode(codes) && EosIsOnes(codes)
    requires IsEncodingOf(codes, BitsOf(coded), s)
    ensures Reference(codes, coded, limit) == if |s| <= limit then Ok(s) else TooLong
    ensures forall other: seq<byte> :: Reference(codes, other, |s|) == Ok(s) ==> other == coded
  {
    DecodesExactly(codes, coded, limit, s);
    AcceptsExactlyEncodings(codes, BitsOf(coded), s);
    OverflowIsOutputBeyond(codes, coded, limit);
    forall other: seq<byte> | Reference(codes, other, |s|) == Ok(s)
      ensures other == coded
    {
      DecodesExactly(codes, other, |s|, s);
      EncodingIsUnique(codes, other, coded, s);
    }
  }

  // The length is known without encoding.
  method EncodedLength(text: string, data: seq<byte>, ghost codes: Table) returns (bytes: nat)
    requires |codes| == SYMBOLS && Sized(codes) && text == Hex.Join(NaturalRecords(codes))
    ensures forall coded: seq<byte> :: IsEncodingOf(codes, BitsOf(coded), data) ==> |coded| == bytes
  {
    assert |codes| == SYMBOLS && Sized(codes);
    hide *;
    var bits := 0;
    NothingPending(codes);
    for i := 0 to |data|
      invariant bits == EncodedBits(codes, data[..i])
    {
      var _, length := CodeAt(text, data[i], codes);
      bits := bits + length;
      OneMoreLength(codes, data[..i], data[i]);
      assert data[..i + 1] == data[..i] + [data[i]];
    }
    assert data[..|data|] == data;
    bytes := (bits + 7) / 8;
    forall coded: seq<byte> | IsEncodingOf(codes, BitsOf(coded), data)
      ensures |coded| == bytes
    {
      PaddedLength(codes, coded, data);
    }
  }

  ghost function EncodedBits(codes: Table, s: seq<byte>): nat
    requires |codes| == SYMBOLS
  {
    |HuffmanCodec.Encode(codes, s)|
  }

  lemma OneMoreLength(codes: Table, s: seq<byte>, symbol: byte)
    requires |codes| == SYMBOLS && Sized(codes)
    ensures EncodedBits(codes, s + [symbol]) == EncodedBits(codes, s) + codes[symbol].bits
  {
    EncodeAppend(codes, s, symbol);
    assert SizedCode(codes[symbol]);
  }

  lemma PaddedLength(codes: Table, coded: seq<byte>, s: seq<byte>)
    requires |codes| == SYMBOLS && IsEncodingOf(codes, BitsOf(coded), s)
    ensures |coded| == (EncodedBits(codes, s) + 7) / 8
  {
    hide BitsOf, HuffmanCodec.Encode;
    assert 8 * |coded| == |BitsOf(coded)|;
  }
}
