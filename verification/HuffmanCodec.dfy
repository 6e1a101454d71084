/** What the compiled machine decodes: exactly the encodings of section 5.2 of RFC 7541. */
module HuffmanCodec {
  import opened Bits
  import opened HuffmanCode
  import opened HuffmanPositions
  import opened HuffmanMachine
  import opened Wrappers

  // The codewords of a string of symbols, one after the other.
  ghost function Encode(codes: Table, s: seq<nat>): Path
    requires forall i :: 0 <= i < |s| ==> s[i] < |codes|
  {
    if s == [] then [] else Encode(codes, s[..|s| - 1]) + Word(codes[s[|s| - 1]])
  }

  // A string is made of symbols, and EOS is none of them.
  ghost predicate IsString(codes: Table, s: seq<nat>) {
    forall i :: 0 <= i < |s| ==> s[i] < |codes| && s[i] != EOS
  }

  // The codeword of EOS is thirty ones.
  ghost predicate EosIsOnes(codes: Table) {
    |codes| > EOS && Word(codes[EOS]) == Ones(LONGEST)
  }

  const START := At([], [])

  lemma EncodeAppend(codes: Table, s: seq<nat>, symbol: nat)
    requires IsString(codes, s) && symbol < |codes|
    ensures Encode(codes, s + [symbol]) == Encode(codes, s) + Word(codes[symbol])
  {
    assert (s + [symbol])[..|s|] == s;
  }

  // A walk remembers all it has read: the codewords of what came out, and the way from the root.
  lemma {:induction false} RunIsEncoding(codes: Table, bits: Path)
    ensures var w := Run(codes, START, bits);
      w.At? ==> IsString(codes, w.out) && bits == Encode(codes, w.out) + w.pos
  {
    hide IsPosition, SymbolUpTo, Word, Encode;
    if bits == [] {
      NothingIsEncoded(codes);
    } else {
      var n := |bits| - 1;
      RunIsEncoding(codes, bits[..n]);
      var before := Run(codes, START, bits[..n]);
      assert bits == bits[..n] + [bits[n]];
      if before.At? {
        var pos := before.pos + [bits[n]];
        assert bits == Encode(codes, before.out) + pos;
        var at := SymbolAt(codes, pos);
        if at.Some? {
          EncodeAppend(codes, before.out, at.value);
          StringAppend(codes, before.out, at.value);
          assert bits == bits + [];
        }
      }
    }
  }

  lemma StringAppend(codes: Table, s: seq<nat>, symbol: nat)
    requires IsString(codes, s) && symbol < |codes|
    ensures symbol != EOS ==> IsString(codes, s + [symbol])
  {
  }

  lemma NothingIsEncoded(codes: Table)
    ensures IsString(codes, []) && Encode(codes, []) == []
  {
  }

  // Along a codeword, and along no more than it, the walk goes straight down.
  lemma {:induction false} RunDown(codes: Table, out: seq<nat>, path: Path, q: Path)
    requires PrefixFree(codes) && IsPosition(codes, q) && ProperPrefix(path, q)
    ensures Run(codes, At([], out), path) == At(path, out)
  {
    hide IsPosition, SymbolUpTo, PrefixFree, Word;
    if path != [] {
      var n := |path| - 1;
      RunDown(codes, out, path[..n], q);
      ParentIsInterior(codes, path, q);
      assert path == path[..n] + [path[n]];
    }
  }

  lemma WordIsPosition(codes: Table, symbol: nat)
    requires Sized(codes) && symbol < |codes|
    ensures IsPosition(codes, Word(codes[symbol])) && Word(codes[symbol]) != []
  {
    assert SizedCode(codes[symbol]);
  }

  lemma RunWord(codes: Table, out: seq<nat>, symbol: nat)
    requires PrefixCode(codes) && symbol < |codes| && symbol != EOS
    ensures Run(codes, At([], out), Word(codes[symbol])) == At([], out + [symbol])
  {
    hide IsPosition, SymbolUpTo, Word, KraftSum, Sized, PrefixFree, Distinct;
    var word := Word(codes[symbol]);
    var n := |word| - 1;
    WordIsPosition(codes, symbol);
    RunDown(codes, out, word[..n], word);
    assert word == word[..n] + [word[n]];
    SymbolOfWord(codes, symbol);
  }

  lemma SymbolOfWord(codes: Table, symbol: nat)
    requires Distinct(codes) && symbol < |codes|
    ensures SymbolAt(codes, Word(codes[symbol])) == Some(symbol)
  {
    var at := SymbolAt(codes, Word(codes[symbol]));
    assert at.Some?;
  }

  lemma RunNone(codes: Table)
    ensures Run(codes, START, []) == START
  {
  }

  lemma {:induction false} RunEncoding(codes: Table, s: seq<nat>)
    requires PrefixCode(codes) && IsString(codes, s)
    ensures Run(codes, START, Encode(codes, s)) == At([], s)
  {
    hide Run, PrefixCode, Word;
    if s == [] {
      RunNone(codes);
    } else {
      var n := |s| - 1;
      RunEncoding(codes, s[..n]);
      RunConcat(codes, START, Encode(codes, s[..n]), Word(codes[s[n]]));
      RunWord(codes, s[..n], s[n]);
      assert s[..n] + [s[n]] == s;
    }
  }

  // In such a code, up to seven ones are always padding: they lead towards EOS.
  lemma OnesArePadding(codes: Table, p: Path)
    requires PrefixCode(codes) && EosIsOnes(codes)
    ensures IsPadding(codes, p) <==> |p| <= PADDING && p == Ones(|p|)
    ensures |p| <= PADDING && p == Ones(|p|) ==>
      IsPosition(codes, Ones(LONGEST)) && ProperPrefix(p, Ones(LONGEST))
  {
    assert IsPosition(codes, Ones(LONGEST));
    forall j | 1 <= j <= PADDING
      ensures SymbolAt(codes, Ones(j)).None?
    {
      ParentIsInterior(codes, Ones(j), Ones(LONGEST));
    }
  }

  // The bits that decode to `s`: its codewords, and fewer than eight ones after them.
  ghost predicate IsEncodingOf(codes: Table, bits: Path, s: seq<nat>) {
    && IsString(codes, s)
    && var pad := |bits| - |Encode(codes, s)|;
       0 <= pad <= PADDING && bits == Encode(codes, s) + Ones(pad)
  }

  // Reading bit by bit ends in an accepting place with output `s` exactly for the encodings of `s`.
  lemma AcceptsExactlyEncodings(codes: Table, bits: Path, s: seq<nat>)
    requires PrefixCode(codes) && EosIsOnes(codes)
    ensures IsEncodingOf(codes, bits, s) <==>
      (var w := Run(codes, START, bits); w.At? && IsPadding(codes, w.pos) && w.out == s)
  {
    hide Run, IsPosition, SymbolUpTo, Word, Encode, IsPadding, KraftSum, Sized, PrefixFree, Distinct;
    var w := Run(codes, START, bits);
    if w.At? && IsPadding(codes, w.pos) && w.out == s {
      RunIsEncoding(codes, bits);
      OnesArePadding(codes, w.pos);
      assert bits == Encode(codes, s) + Ones(|w.pos|);
    }
    if IsEncodingOf(codes, bits, s) {
      var k := |bits| - |Encode(codes, s)|;
      RunEncoding(codes, s);
      RunConcat(codes, START, Encode(codes, s), Ones(k));
      OnesArePadding(codes, Ones(k));
      RunDown(codes, s, Ones(k), Ones(LONGEST));
    }
  }

  // The codewords of a string, and after them the way to a place where a walk can rest.
  ghost predicate Spells(codes: Table, bits: Path, s: seq<nat>, p: Path) {
    IsString(codes, s) && bits == Encode(codes, s) + p && IsResting(codes, p)
  }

  lemma RunSpells(codes: Table, bits: Path, s: seq<nat>, p: Path)
    requires PrefixCode(codes)
    ensures Run(codes, START, bits) == At(p, s) <==> Spells(codes, bits, s, p)
  {
    hide Run, Encode, SymbolUpTo, Word;
    if Run(codes, START, bits) == At(p, s) {
      RunIsEncoding(codes, bits);
      RunRests(codes, START, bits);
    }
    if Spells(codes, bits, s, p) {
      RunEncoding(codes, s);
      RunConcat(codes, START, Encode(codes, s), p);
      RunToRest(codes, s, p);
    }
  }

  lemma RunToRest(codes: Table, s: seq<nat>, p: Path)
    requires PrefixFree(codes) && IsResting(codes, p)
    ensures Run(codes, At([], s), p) == At(p, s)
  {
    if p != [] {
      var i :| 0 <= i < |codes| && p <= Word(codes[i]);
      assert Word(codes[i]) != p;
      RunDown(codes, s, p, Word(codes[i]));
    }
  }

  // Some codewords, that of EOS, and anything after it.
  ghost predicate HoldsEos(codes: Table, bits: Path) {
    exists s: seq<nat>, rest: Path :: EosAfter(codes, bits, s, rest)
  }

  ghost predicate EosAfter(codes: Table, bits: Path, s: seq<nat>, rest: Path) {
    |codes| > EOS && IsString(codes, s) && bits == Encode(codes, s) + Word(codes[EOS]) + rest
  }

  // A walk fails exactly when it meets the codeword of EOS after some other codewords.
  lemma FailsIffEos(codes: Table, bits: Path)
    requires PrefixCode(codes)
    ensures Run(codes, START, bits).Failed? <==> HoldsEos(codes, bits)
  {
    hide Run, PrefixCode;
    if Run(codes, START, bits).Failed? {
      var s, rest := FailPoint(codes, bits);
    }
    forall s: seq<nat>, rest: Path | EosAfter(codes, bits, s, rest)
      ensures Run(codes, START, bits).Failed?
    {
      RunMeetsEos(codes, bits, s, rest);
    }
  }

  lemma RunMeetsEos(codes: Table, bits: Path, s: seq<nat>, rest: Path)
    requires PrefixCode(codes) && EosAfter(codes, bits, s, rest)
    ensures Run(codes, START, bits).Failed?
  {
    hide Run, PrefixCode, Encode;
    RunEncoding(codes, s);
    RunOverEos(codes, s);
    RunConcat(codes, START, Encode(codes, s), Word(codes[EOS]));
    RunConcat(codes, START, Encode(codes, s) + Word(codes[EOS]), rest);
    RunFailed(codes, rest);
  }

  lemma RunOverEos(codes: Table, out: seq<nat>)
    requires PrefixCode(codes) && EOS < |codes|
    ensures Run(codes, At([], out), Word(codes[EOS])) == Failed
  {
    hide IsPosition, SymbolUpTo, Word, KraftSum, Sized, PrefixFree, Distinct;
    var word := Word(codes[EOS]);
    var n := |word| - 1;
    WordIsPosition(codes, EOS);
    RunDown(codes, out, word[..n], word);
    assert word == word[..n] + [word[n]];
    SymbolOfWord(codes, EOS);
  }

  lemma {:induction false} FailPoint(codes: Table, bits: Path) returns (s: seq<nat>, rest: Path)
    requires PrefixCode(codes) && Run(codes, START, bits).Failed?
    ensures EosAfter(codes, bits, s, rest)
  {
    hide StepBit, Encode, IsPosition, SymbolUpTo, Word, PrefixCode, IsString;
    var n := |bits| - 1;
    var before := Run(codes, START, bits[..n]);
    assert bits == bits[..n] + [bits[n]];
    if before.Failed? {
      s, rest := FailPoint(codes, bits[..n]);
      rest := rest + [bits[n]];
      EosLonger(codes, bits[..n], s, rest[..|rest| - 1], bits[n]);
    } else {
      s, rest := before.out, [];
      RunIsEncoding(codes, bits[..n]);
      RunRests(codes, START, bits[..n]);
      FailsHere(codes, bits[..n], before, bits[n]);
    }
  }

  lemma EosLonger(codes: Table, bits: Path, s: seq<nat>, rest: Path, bit: bool)
    requires EosAfter(codes, bits, s, rest)
    ensures EosAfter(codes, bits + [bit], s, rest + [bit])
  {
    hide Encode, Word;
    var e := Encode(codes, s) + Word(codes[EOS]);
    assert e + rest + [bit] == e + (rest + [bit]);
  }

  lemma FailsHere(codes: Table, read: Path, w: Walk, bit: bool)
    requires PrefixCode(codes) && w.At? && IsResting(codes, w.pos) && StepBit(codes, w, bit).Failed?
    requires IsString(codes, w.out) && read == Encode(codes, w.out) + w.pos
    ensures EosAfter(codes, read + [bit], w.out, [])
  {
    hide Encode, IsPosition, Word, KraftSum, PrefixFree, Distinct, SymbolUpTo;
    RestIsInterior(codes, w.pos);
    FailsOnlyAtEos(codes, w, bit);
    var e := Encode(codes, w.out);
    assert read + [bit] == e + (w.pos + [bit]) + [];
  }

  lemma RestIsInterior(codes: Table, p: Path)
    requires Sized(codes) && IsResting(codes, p)
    ensures IsInterior(codes, p)
  {
    RootIsNoCodeword(codes, SymbolAt(codes, []));
  }

  lemma RootIsNoCodeword(codes: Table, at: Option<nat>)
    requires Sized(codes)
    ensures at.Some? && at.value < |codes| ==> Word(codes[at.value]) != []
  {
    if at.Some? && at.value < |codes| {
      assert SizedCode(codes[at.value]);
    }
  }

  // No two symbols come out of one nibble, because no codeword is shorter than five bits.
  lemma {:induction false} AtMostOneSymbol(codes: Table, p: Path, bits: Path)
    requires Sized(codes) && |bits| <= SHORTEST
    ensures var w := Run(codes, At(p, []), bits);
      w.At? ==> (w.out == [] && w.pos == p + bits) || (|w.out| == 1 && |w.pos| < |bits|)
  {
    if bits == [] {
      assert p + bits == p;
    } else {
      var n := |bits| - 1;
      AtMostOneSymbol(codes, p, bits[..n]);
      var before := Run(codes, At(p, []), bits[..n]);
      if before.At? {
        assert p + bits == p + bits[..n] + [bits[n]];
        var at := SymbolAt(codes, before.pos + [bits[n]]);
        assert at.Some? ==> SizedCode(codes[at.value]);
      }
    }
  }

  // What has come out before does not change how a walk goes on.
  ghost function Onto(out: seq<nat>, w: Walk): Walk {
    if w.Failed? then Failed else At(w.pos, out + w.out)
  }

  lemma {:induction false} RunOnto(codes: Table, p: Path, out: seq<nat>, bits: Path)
    ensures Run(codes, At(p, out), bits) == Onto(out, Run(codes, At(p, []), bits))
  {
    if bits == [] {
      assert out + [] == out;
    } else {
      var n := |bits| - 1;
      RunOnto(codes, p, out, bits[..n]);
      var w := Run(codes, At(p, []), bits[..n]);
      if w.At? {
        var at := SymbolAt(codes, w.pos + [bits[n]]);
        assert at.Some? ==> out + (w.out + [at.value]) == (out + w.out) + [at.value];
      }
    }
  }

  // Five bits at least for every symbol.
  lemma {:induction false} EncodingIsLong(codes: Table, s: seq<nat>)
    requires Sized(codes) && IsString(codes, s)
    ensures 5 * |s| <= |Encode(codes, s)| <= 30 * |s|
  {
    if s != [] {
      EncodingIsLong(codes, s[..|s| - 1]);
      assert SizedCode(codes[s[|s| - 1]]);
    }
  }

  // Bits that lead to a node without a child for the next bit.
  ghost predicate MissesChild(codes: Table, bits: Path, bit: bool) {
    var w := Run(codes, START, bits);
    w.At? && IsInterior(codes, w.pos) && !IsPosition(codes, w.pos + [bit])
  }

  // A child is missing somewhere on the way of some bits.
  ghost predicate SomeChildIsMissed(codes: Table) {
    exists bits, bit :: MissesChild(codes, bits, bit)
  }

  // In a table that passes the checks a walk never misses a child, and so fails at EOS and nowhere
  // else, exactly when no two symbols share a codeword.
  lemma MissesNoChildIffDistinct(codes: Table)
    requires Checked(codes)
    ensures !SomeChildIsMissed(codes) <==> Distinct(codes)
  {
    hide IsPosition, Run;
    BinaryIffDistinct(codes);
    if SomeChildIsMissed(codes) {
      var bits, bit :| MissesChild(codes, bits, bit);
      assert !HasBothChildren(codes, Run(codes, START, bits).pos);
    }
    if !IsBinary(codes) {
      var p :| IsInterior(codes, p) && !HasBothChildren(codes, p);
      WalksTo(codes, p);
      assert MissesChild(codes, p, false) || MissesChild(codes, p, true);
    }
  }

  // Every interior node is walked to by its own path.
  lemma WalksTo(codes: Table, p: Path)
    requires Checked(codes) && IsInterior(codes, p)
    ensures Run(codes, START, p) == At(p, [])
  {
    if p != [] {
      var i :| 0 <= i < |codes| && p <= Word(codes[i]);
      assert Word(codes[i]) != p;
      RunDown(codes, [], p, Word(codes[i]));
    }
  }

  // A step from an interior node fails where the child is missing, and at EOS.
  lemma FailsOnlyAtEos(codes: Table, w: Walk, bit: bool)
    requires w.At?
    ensures StepBit(codes, w, bit).Failed? <==>
      !IsPosition(codes, w.pos + [bit]) || SymbolAt(codes, w.pos + [bit]) == Some(EOS)
    ensures PrefixCode(codes) && IsInterior(codes, w.pos) ==> IsPosition(codes, w.pos + [bit])
  {
    if PrefixCode(codes) && IsInterior(codes, w.pos) {
      InteriorIsBinary(codes, w.pos);
    }
  }

  // What has come out stays out.
  lemma {:induction false} OutputGrows(codes: Table, w: Walk, bits: Path)
    requires Run(codes, w, bits).At?
    ensures w.At? && w.out <= Run(codes, w, bits).out
  {
    if bits != [] {
      OutputGrows(codes, w, bits[..|bits| - 1]);
    }
  }

  // Every string comes back from its codewords.
  ghost predicate RoundTrips(codes: Table) {
    forall s :: IsString(codes, s) ==> Run(codes, START, Encode(codes, s)) == At([], s)
  }

  // What comes out is the symbol that the tree holds at the end of its codeword.
  lemma {:induction false} OutputIsHeld(codes: Table, bits: Path)
    ensures var w := Run(codes, START, bits);
      w.At? ==> forall i :: 0 <= i < |w.out| ==>
        w.out[i] < |codes| && SymbolAt(codes, Word(codes[w.out[i]])) == Some(w.out[i])
  {
    if bits != [] {
      OutputIsHeld(codes, bits[..|bits| - 1]);
    }
  }

  // A table that passes the checks round trips exactly when no two symbols share a codeword.
  lemma RoundTripsIffDistinct(codes: Table)
    requires Checked(codes)
    ensures RoundTrips(codes) <==> Distinct(codes)
  {
    if Distinct(codes) {
      forall s | IsString(codes, s)
        ensures Run(codes, START, Encode(codes, s)) == At([], s)
      {
        RunEncoding(codes, s);
      }
    } else {
      var i, j :| 0 <= i < j < |codes| && Word(codes[i]) == Word(codes[j]);
      SharedDoesNotRoundTrip(codes, i, j);
    }
  }

  lemma SharedDoesNotRoundTrip(codes: Table, i: nat, j: nat)
    requires |codes| == SYMBOLS && i < j < |codes| && Word(codes[i]) == Word(codes[j])
    ensures IsString(codes, [i]) && Run(codes, START, Encode(codes, [i])) != At([], [i])
    ensures !RoundTrips(codes)
  {
    OutputIsHeld(codes, Encode(codes, [i]));
    HeldIsLast(codes, |codes|, Word(codes[j]), j);
    assert [i][0] == i;
  }

  // Such a table exists: 255 codes of eight bits, and one code of nine bits given to two symbols.
  // The other code of nine bits is left to no symbol, so the space adds up.
  function SharedTable(): (codes: Table)
    ensures |codes| == SYMBOLS
  {
    seq(SYMBOLS, i requires 0 <= i < SYMBOLS => if i < 255 then Code(i, 8) else Code(510, 9))
  }

  lemma {:induction false} SharedSum(n: nat)
    requires n <= 255
    ensures KraftSum(SharedTable(), n) == n * Pow2(LONGEST - 8)
  {
    if n > 0 {
      SharedSum(n - 1);
      assert SharedTable()[n - 1] == Code(n - 1, 8);
    }
  }

  lemma SharedIsSized()
    ensures Sized(SharedTable())
  {
    var codes := SharedTable();
    assert Pow2(8) == 256 && Pow2(9) == 512;
    forall i | 0 <= i < |codes|
      ensures SizedCode(codes[i])
    {
      ShrZero(codes[i].code, codes[i].bits);
    }
  }

  lemma SharedIsPrefixFree()
    ensures PrefixFree(SharedTable())
  {
    SharedIsSized();
    var codes := SharedTable();
    forall i, j | 0 <= i < |codes| && 0 <= j < |codes|
      ensures !ProperPrefix(Word(codes[i]), Word(codes[j]))
    {
      ShortNotPrefix(codes[i], codes[j]);
    }
  }

  lemma ShortNotPrefix(a: Code, b: Code)
    requires SizedCode(a) && SizedCode(b)
    requires (a.bits == 8 && a.code < 255) || a == Code(510, 9)
    requires (b.bits == 8 && b.code < 255) || b == Code(510, 9)
    ensures !ProperPrefix(Word(a), Word(b))
  {
    if a.bits < b.bits {
      PrefixByShift(a, b);
      assert Shr(510, 1) == Shr(255, 0) == 255;
    }
  }

  lemma SharedTablePasses()
    ensures Checked(SharedTable()) && !RoundTrips(SharedTable()) && !Complete(SharedTable())
    ensures SomeChildIsMissed(SharedTable())
  {
    hide Pow2, Sized, PrefixFree, RoundTrips, Complete, KraftSum, Word;
    var codes := SharedTable();
    SharedIsSized();
    SharedIsPrefixFree();
    SharedSum(255);
    assert codes[255] == codes[256] == Code(510, 9);
    SharedTotal(codes);
    SharedDoesNotRoundTrip(codes, 255, 256);
    assert !Distinct(codes);
    SharedCodeIsAmbiguous(codes);
    MissesNoChildIffDistinct(codes);
  }

  lemma SharedTotal(codes: Table)
    requires |codes| == SYMBOLS && KraftSum(codes, 255) == 255 * Pow2(LONGEST - 8)
    requires codes[255].bits == codes[256].bits == 9
    ensures KraftSum(codes, |codes|) == Pow2(LONGEST)
  {
    assert KraftSum(codes, 257) == KraftSum(codes, 256) + Share(codes[256]);
    assert KraftSum(codes, 256) == KraftSum(codes, 255) + Share(codes[255]);
    Pow2Add(8, LONGEST - 8);
    assert Pow2(8) == 256;
    hide KraftSum;
    assert Pow2(LONGEST - 8) == 2 * Pow2(LONGEST - 9);
  }
}
