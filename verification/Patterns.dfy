/** The regular expressions of the comparator: where they match, and what is put in their place. */
module Patterns {
  import opened Text
  import opened Wrappers
  import Hex

  datatype Pattern = Boundary | ClientNonce | NonceCount | DigestResponse

  // What every match begins with.
  function Lead(p: Pattern): (lead: string)
    ensures lead != ""
  {
    match p
    case Boundary => "boundary="
    case ClientNonce => "cnonce=\""
    case NonceCount => "nc="
    case DigestResponse => "response=\""
  }

  predicate IsLetterOrDigit(c: char) {
    'a' <= c <= 'z' || 'A' <= c <= 'Z' || '0' <= c <= '9'
  }

  // The characters that a match goes on with.
  predicate Fits(p: Pattern, c: char) {
    match p
    case Boundary => IsLetterOrDigit(c) || c in "'()+_,./:=?-"
    case ClientNonce => c != '"'
    case NonceCount => Hex.IsDigit(c)
    case DigestResponse => '0' <= c <= '9' || 'a' <= c <= 'f'
  }

  // How many characters fit, from the front.
  function Span(p: Pattern, s: string): (n: nat)
    ensures n <= |s| && (forall i :: 0 <= i < n ==> Fits(p, s[i])) && (n < |s| ==> !Fits(p, s[n]))
  {
    if s == "" || !Fits(p, s[0]) then 0 else 1 + Span(p, s[1..])
  }

  // The length of the match at the front, after the character `before`. No match is empty.
  function MatchAt(p: Pattern, before: char, s: string): (n: nat)
    ensures n <= |s|
  {
    if !StartsWith(s, Lead(p)) || (p == NonceCount && (IsLetterOrDigit(before) || before == '_')) then 0
    else
      var lead := |Lead(p)|;
      var rest := s[lead..];
      var n := Span(p, rest);
      match p
      case Boundary => if n > 0 then lead + n else 0
      case NonceCount => if n > 0 then lead + n else 0
      case ClientNonce => if n < |rest| then lead + n + 1 else 0
      case DigestResponse => if n > 0 && n < |rest| && rest[n] == '"' then lead + n + 1 else 0
  }

  // Every match replaced, from the front. There is no word before the start.
  function Masked(p: Pattern, patch: string, s: string): string {
    MaskedAfter(p, patch, ' ', s)
  }

  function MaskedAfter(p: Pattern, patch: string, before: char, s: string): string
    decreases |s|
  {
    if s == "" then ""
    else
      var n := MatchAt(p, before, s);
      if n > 0 then patch + MaskedAfter(p, patch, s[n - 1], s[n..])
      else [s[0]] + MaskedAfter(p, patch, s[0], s[1..])
  }

  // The boundary in the first match.
  function FirstBoundary(s: string): (b: Option<string>)
    ensures b.Some? ==> b.value != "" && forall i :: 0 <= i < |b.value| ==> Fits(Boundary, b.value[i])
  {
    if s == "" then None
    else
      var n := MatchAt(Boundary, ' ', s);
      if n > 0 then
        var lead := |Lead(Boundary)|;
        assert s[lead..n] == s[lead..][..n - lead];
        Some(s[lead..n])
      else FirstBoundary(s[1..])
  }

  predicate IsBoundary(b: string) {
    b != "" && forall i :: 0 <= i < |b| ==> Fits(Boundary, b[i])
  }

  // The characters of a boundary, section 5.1.1 of RFC 2046, with no space among them.
  lemma BoundaryChars(c: char)
    ensures Lead(Boundary) == "boundary="
    ensures Fits(Boundary, c) <==>
      '0' <= c <= '9' || 'a' <= c <= 'z' || 'A' <= c <= 'Z' || c in "'()+_,-./:=?"
  {
  }

  lemma {:induction false} SpanAll(p: Pattern, s: string)
    requires forall i :: 0 <= i < |s| ==> Fits(p, s[i])
    ensures Span(p, s) == |s|
  {
    if s != "" {
      SpanAll(p, s[1..]);
    }
  }

  lemma BoundaryMatches(b: string)
    requires IsBoundary(b)
    ensures MatchAt(Boundary, ' ', "boundary=" + b) == |"boundary=" + b|
  {
    var s := "boundary=" + b;
    assert s[..9] == "boundary=" && s[9..] == b;
    SpanAll(Boundary, b);
  }

  lemma NoBoundaryAt(before: char, s: string)
    requires s != "" && s[0] != 'b'
    ensures MatchAt(Boundary, before, s) == 0
  {
    OtherStart(s, Lead(Boundary));
  }

  lemma AnyBefore(before: char, s: string)
    ensures MatchAt(Boundary, before, s) == MatchAt(Boundary, ' ', s)
  {
  }

  lemma BoundaryFirst(b: string, before: char, patch: string)
    requires IsBoundary(b)
    ensures FirstBoundary("boundary=" + b) == Some(b)
    ensures MaskedAfter(Boundary, patch, before, "boundary=" + b) == patch
  {
    hide MatchAt;
    var s := "boundary=" + b;
    BoundaryMatches(b);
    AnyBefore(before, s);
    assert s[9..|s|] == b && s[|s|..] == "";
    assert patch + "" == patch;
  }

  lemma NoBoundaryFirst(c: char, rest: string, before: char, patch: string)
    requires c != 'b'
    ensures FirstBoundary([c] + rest) == FirstBoundary(rest)
    ensures MaskedAfter(Boundary, patch, before, [c] + rest) == [c] + MaskedAfter(Boundary, patch, c, rest)
  {
    hide MatchAt;
    var s := [c] + rest;
    NoBoundaryAt(before, s);
    NoBoundaryAt(' ', s);
    assert s[1..] == rest;
  }

  // The boundary after a text in which none can begin.
  lemma {:induction false} BoundaryAfter(text: string, b: string, before: char, patch: string)
    requires IsBoundary(b) && forall i :: 0 <= i < |text| ==> text[i] != 'b'
    ensures FirstBoundary(text + "boundary=" + b) == Some(b)
    ensures MaskedAfter(Boundary, patch, before, text + "boundary=" + b) == text + patch
  {
    hide FirstBoundary, MaskedAfter;
    if text == "" {
      assert text + "boundary=" + b == "boundary=" + b && text + patch == patch;
      BoundaryFirst(b, before, patch);
    } else {
      var rest := text[1..] + "boundary=" + b;
      assert text + "boundary=" + b == [text[0]] + rest;
      NoBoundaryFirst(text[0], rest, before, patch);
      BoundaryAfter(text[1..], b, text[0], patch);
      assert [text[0]] + (text[1..] + patch) == text + patch;
    }
  }
}
