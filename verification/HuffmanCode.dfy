/** The HPACK Huffman code as a table of codes, and the checks made before anything is generated from it. */
module HuffmanCode {
  import opened Bits

  const SYMBOLS := 257
  const EOS := 256
  const SHORTEST := 5
  const LONGEST := 30

  // One entry of the table: a code, and how many of its low bits are significant.
  datatype Code = Code(code: int, bits: int)

  type Table = seq<Code>

  datatype Verdict =
    | Accepted
    | WrongCount(count: nat)
    | BadLength(symbol: nat)
    | StrayBits(symbol: nat)
    | NotKraft(total: int)
    | IsPrefix(found: nat, symbol: nat)

  // The codeword of an entry, as the path from the root of the code tree to its leaf.
  function Word(c: Code): Path {
    ToBits(c.code, if c.bits < 0 then 0 else c.bits)
  }

  predicate SizedCode(c: Code) {
    SHORTEST <= c.bits <= LONGEST && Shr(c.code, c.bits) == 0
  }

  ghost predicate Sized(codes: Table) {
    SizedUpTo(codes, |codes|)
  }

  ghost predicate SizedUpTo(codes: Table, n: nat)
    requires n <= |codes|
  {
    forall i :: 0 <= i < n ==> SizedCode(codes[i])
  }

  // The space a code takes, in units of 2^-LONGEST.
  function Share(c: Code): nat {
    if c.bits > LONGEST then 0 else Pow2(LONGEST - c.bits)
  }

  // The space taken by the first `n` codes.
  function KraftSum(codes: Table, n: nat): nat
    requires n <= |codes|
  {
    if n == 0 then 0 else KraftSum(codes, n - 1) + Share(codes[n - 1])
  }

  ghost predicate ProperPrefix(p: Path, q: Path) {
    p <= q && |p| < |q|
  }

  ghost predicate PrefixFree(codes: Table) {
    forall i, j :: 0 <= i < |codes| && 0 <= j < |codes| ==> !ProperPrefix(Word(codes[i]), Word(codes[j]))
  }

  ghost predicate Distinct(codes: Table) {
    forall i, j :: 0 <= i < j < |codes| ==> Word(codes[i]) != Word(codes[j])
  }

  // What the checks establish.
  ghost predicate Checked(codes: Table) {
    |codes| == SYMBOLS && Sized(codes) && KraftSum(codes, |codes|) == Pow2(LONGEST) && PrefixFree(codes)
  }

  // What a decoder needs: what is checked, and that no codeword is given to two symbols.
  ghost predicate PrefixCode(codes: Table) {
    Checked(codes) && Distinct(codes)
  }

  lemma HasAllSymbols(codes: Table)
    requires PrefixCode(codes)
    ensures |codes| == SYMBOLS
  {
  }

  // `shorter` is a prefix of `longer` exactly when shifting `longer` down to its length gives it.
  lemma PrefixByShift(shorter: Code, longer: Code)
    requires SizedCode(shorter) && SizedCode(longer) && shorter.bits < longer.bits
    ensures ProperPrefix(Word(shorter), Word(longer)) <==>
            shorter.code == Shr(longer.code, longer.bits - shorter.bits)
  {
    var drop := longer.bits - shorter.bits;
    var top := Shr(longer.code, drop);
    ToBitsShr(longer.code, drop, longer.bits);
    ShrShr(longer.code, drop, shorter.bits);
    assert Word(longer)[..shorter.bits] == ToBits(top, shorter.bits);
    FromToBits(top, shorter.bits);
    FromToBits(shorter.code, shorter.bits);
    assert ProperPrefix(Word(shorter), Word(longer)) <==> Word(shorter) == Word(longer)[..shorter.bits];
  }

  lemma SameWordSameCode(a: Code, b: Code)
    requires SizedCode(a) && SizedCode(b) && Word(a) == Word(b)
    ensures a == b
  {
    assert a.bits == |Word(a)| && b.bits == |Word(b)|;
    FromToBits(a.code, a.bits);
    FromToBits(b.code, b.bits);
  }

  // A table is accepted exactly when it passes every check; a refusal names what is wrong with it.
  method Validate(codes: Table) returns (verdict: Verdict)
    ensures verdict.Accepted? <==> Checked(codes)
    ensures !verdict.Accepted? ==> Refuses(codes, verdict)
  {
    if |codes| != SYMBOLS {
      return WrongCount(|codes|);
    }
    verdict := CheckSizes(codes);
    if !verdict.Accepted? {
      return;
    }
    var total := KraftTotal(codes);
    if total != Pow2(LONGEST) {
      return NotKraft(total);
    }
    verdict := FindPrefix(codes);
  }

  ghost predicate Refuses(codes: Table, verdict: Verdict) {
    match verdict
    case Accepted => false
    case WrongCount(count) => count == |codes| != SYMBOLS
    case BadLength(s) =>
      s < |codes| && SizedUpTo(codes, s) && !(SHORTEST <= codes[s].bits <= LONGEST)
    case StrayBits(s) =>
      s < |codes| && SizedUpTo(codes, s) && codes[s].bits >= 0 && Shr(codes[s].code, codes[s].bits) != 0
    case NotKraft(total) => Sized(codes) && total == KraftSum(codes, |codes|) != Pow2(LONGEST)
    case IsPrefix(f, s) =>
      f < |codes| && s < |codes| && Sized(codes) && ProperPrefix(Word(codes[f]), Word(codes[s]))
  }

  method CheckSizes(codes: Table) returns (verdict: Verdict)
    ensures verdict.Accepted? <==> Sized(codes)
    ensures verdict.Accepted? || verdict.BadLength? || verdict.StrayBits?
    ensures !verdict.Accepted? ==> Refuses(codes, verdict)
  {
    for symbol := 0 to |codes|
      invariant SizedUpTo(codes, symbol)
    {
      var c := codes[symbol];
      if c.bits < SHORTEST || c.bits > LONGEST {
        return BadLength(symbol);
      }
      if Shr(c.code, c.bits) != 0 {
        return StrayBits(symbol);
      }
    }
    return Accepted;
  }

  method KraftTotal(codes: Table) returns (total: nat)
    requires Sized(codes)
    ensures total == KraftSum(codes, |codes|)
  {
    total := 0;
    for symbol := 0 to |codes|
      invariant total == KraftSum(codes, symbol)
    {
      total := total + Pow2(LONGEST - codes[symbol].bits);
    }
  }

  // Every code by its value and length, and the last symbol that has it.
  method Index(codes: Table) returns (seen: map<(int, int), nat>)
    ensures forall k :: k in seen ==> seen[k] < |codes| && codes[seen[k]] == Code(k.0, k.1)
    ensures forall i :: 0 <= i < |codes| ==> (codes[i].code, codes[i].bits) in seen
  {
    seen := map[];
    for symbol := 0 to |codes|
      invariant forall k :: k in seen ==> seen[k] < |codes| && codes[seen[k]] == Code(k.0, k.1)
      invariant forall i :: 0 <= i < symbol ==> (codes[i].code, codes[i].bits) in seen
    {
      seen := seen[(codes[symbol].code, codes[symbol].bits) := symbol];
    }
  }

  ghost predicate NoPrefixOf(codes: Table, word: Path, below: int) {
    forall i :: 0 <= i < |codes| && codes[i].bits < below ==> !ProperPrefix(Word(codes[i]), word)
  }

  method FindPrefix(codes: Table) returns (verdict: Verdict)
    requires Sized(codes)
    ensures verdict.Accepted? <==> PrefixFree(codes)
    ensures verdict.Accepted? || verdict.IsPrefix?
    ensures !verdict.Accepted? ==> Refuses(codes, verdict)
  {
    hide ProperPrefix;
    var seen := Index(codes);
    for symbol := 0 to |codes|
      invariant forall j :: 0 <= j < symbol ==> NoPrefixOf(codes, Word(codes[j]), LONGEST + 1)
    {
      var c := codes[symbol];
      for shorter := SHORTEST to c.bits
        invariant NoPrefixOf(codes, Word(c), shorter)
      {
        var key := (Shr(c.code, c.bits - shorter), shorter);
        ShorterStep(codes, seen, c, shorter);
        if key in seen {
          return IsPrefix(seen[key], symbol);
        }
      }
      NoLongerPrefix(codes, c);
    }
    return Accepted;
  }

  lemma NoLongerPrefix(codes: Table, c: Code)
    requires Sized(codes) && SizedCode(c) && NoPrefixOf(codes, Word(c), c.bits)
    ensures NoPrefixOf(codes, Word(c), LONGEST + 1)
  {
  }

  lemma ShorterStep(codes: Table, seen: map<(int, int), nat>, c: Code, shorter: int)
    requires Sized(codes) && SizedCode(c) && SHORTEST <= shorter < c.bits
    requires forall k :: k in seen ==> seen[k] < |codes| && codes[seen[k]] == Code(k.0, k.1)
    requires forall i :: 0 <= i < |codes| ==> (codes[i].code, codes[i].bits) in seen
    requires NoPrefixOf(codes, Word(c), shorter)
    ensures var key := (Shr(c.code, c.bits - shorter), shorter);
      if key in seen then ProperPrefix(Word(codes[seen[key]]), Word(c))
      else NoPrefixOf(codes, Word(c), shorter + 1)
  {
    var key := (Shr(c.code, c.bits - shorter), shorter);
    if key in seen {
      PrefixByShift(codes[seen[key]], c);
    } else {
      forall i | 0 <= i < |codes| && codes[i].bits == shorter
        ensures !ProperPrefix(Word(codes[i]), Word(c))
      {
        PrefixByShift(codes[i], c);
        assert (codes[i].code, codes[i].bits) in seen;
      }
    }
  }
}
