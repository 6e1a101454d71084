/** Percent escapes in URLs, and the normal form of section 6.2.2 of RFC 3986. */
module PercentEscape {
  import opened Wrappers
  import Hex

  predicate IsUnreserved(c: char) {
    'A' <= c <= 'Z' || 'a' <= c <= 'z' || '0' <= c <= '9' || c == '-' || c == '.' || c == '_' || c == '~'
  }

  // A percent sign with two hexadecimal digits after it.
  predicate IsEscape(text: string, i: nat) {
    i + 2 < |text| && text[i] == '%' && Hex.IsDigit(text[i + 1]) && Hex.IsDigit(text[i + 2])
  }

  function EscapedChar(text: string, i: nat): char
    requires IsEscape(text, i)
  {
    (Hex.DigitValue(text[i + 1]) * 16 + Hex.DigitValue(text[i + 2])) as char
  }

  function UpperDigit(c: char): (r: char)
    requires Hex.IsDigit(c)
    ensures Hex.IsDigit(r) && Hex.DigitValue(r) == Hex.DigitValue(c)
    ensures r == Hex.Digit(Hex.Upper, Hex.DigitValue(c))
  {
    if 'a' <= c <= 'f' then 'A' + (c as int - 'a' as int) as char else c
  }

  // The text with every escape replaced by its character. A percent sign that starts none stays.
  function Decoded(text: string): string
    decreases |text|
  {
    if text == "" then ""
    else if IsEscape(text, 0) then [EscapedChar(text, 0)] + Decoded(text[3..])
    else [text[0]] + Decoded(text[1..])
  }

  // The normal form: escapes of unreserved characters are decoded, the digits of the others are upper
  // case, and a percent sign that starts no escape is an error.
  function Normal(text: string): Option<string>
    decreases |text|
  {
    if text == "" then Some("")
    else if text[0] != '%' then Onto([text[0]], Normal(text[1..]))
    else if !IsEscape(text, 0) then None
    else Onto(NormalEscape(text), Normal(text[3..]))
  }

  function NormalEscape(text: string): string
    requires IsEscape(text, 0)
  {
    var c := EscapedChar(text, 0);
    if IsUnreserved(c) then [c] else ['%', UpperDigit(text[1]), UpperDigit(text[2])]
  }

  function Onto(head: string, tail: Option<string>): Option<string> {
    match tail case None => None case Some(t) => Some(head + t)
  }

  method PercentDecoded(text: string) returns (out: string)
    ensures out == Decoded(text)
  {
    hide Decoded, EscapedChar;
    out := "";
    var index := 0;
    DecodedEnds();
    assert text[0..] == text;
    while index < |text|
      invariant 0 <= index <= |text|
      invariant out + Decoded(text[index..]) == Decoded(text)
      decreases |text| - index
    {
      DecodedStep(text, index);
      if IsEscape(text, index) {
        out := out + [EscapedChar(text, index)];
        index := index + 3;
      } else {
        out := out + [text[index]];
        index := index + 1;
      }
    }
    assert text[index..] == "";
  }

  lemma DecodedEnds()
    ensures Decoded("") == ""
  {
  }

  lemma DecodedStep(text: string, i: nat)
    requires i < |text|
    ensures Decoded(text[i..]) ==
      if IsEscape(text, i) then [EscapedChar(text, i)] + Decoded(text[i + 3..])
      else [text[i]] + Decoded(text[i + 1..])
  {
    assert IsEscape(text[i..], 0) <==> IsEscape(text, i);
    if IsEscape(text, i) {
      assert text[i..][3..] == text[i + 3..];
    } else {
      assert text[i..][1..] == text[i + 1..];
    }
  }

  // An escape that normalizing would reject or rewrite.
  predicate IsRewritten(text: string, i: nat)
    requires i < |text|
  {
    text[i] == '%'
    && (!IsEscape(text, i)
        || UpperDigit(text[i + 1]) != text[i + 1] || UpperDigit(text[i + 2]) != text[i + 2]
        || IsUnreserved(EscapedChar(text, i)))
  }

  method HasARewrittenEscape(text: string) returns (found: bool)
    ensures found <==> Normal(text) != Some(text)
  {
    RewrittenIffNotNormal(text);
    for index := 0 to |text|
      invariant forall i :: 0 <= i < index ==> !IsRewritten(text, i)
    {
      if text[index] != '%' {
        continue;
      }
      if !IsEscape(text, index) {
        assert IsRewritten(text, index);
        return true;
      }
      var high, low := text[index + 1], text[index + 2];
      if high != UpperDigit(high) || low != UpperDigit(low) || IsUnreserved(EscapedChar(text, index)) {
        assert IsRewritten(text, index);
        return true;
      }
    }
    return false;
  }

  ghost predicate SomeRewritten(text: string) {
    exists i :: 0 <= i < |text| && IsRewritten(text, i)
  }

  lemma SomeRewrittenLater(text: string, n: nat)
    requires n <= |text| && forall i :: 0 <= i < n ==> !IsRewritten(text, i)
    ensures SomeRewritten(text) <==> SomeRewritten(text[n..])
  {
    forall i | 0 <= i < |text| - n
      ensures IsRewritten(text[n..], i) <==> IsRewritten(text, i + n)
    {
      assert IsEscape(text[n..], i) <==> IsEscape(text, i + n);
    }
    if SomeRewritten(text) {
      var i :| 0 <= i < |text| && IsRewritten(text, i);
      assert IsRewritten(text[n..], i - n);
    }
  }

  // A text is its own normal form exactly when none of its escapes would be rewritten.
  lemma {:induction false} RewrittenIffNotNormal(text: string)
    ensures SomeRewritten(text) <==> Normal(text) != Some(text)
    decreases |text|
  {
    if text != "" {
      if text[0] != '%' {
        SomeRewrittenLater(text, 1);
        RewrittenIffNotNormal(text[1..]);
        assert text == [text[0]] + text[1..];
      } else if IsRewritten(text, 0) {
        assert SomeRewritten(text);
        assert IsEscape(text, 0) ==> NormalEscape(text) != text[..3];
        OntoDiffers(text);
      } else {
        assert NormalEscape(text) == text[..3];
        SomeRewrittenLater(text, 3);
        RewrittenIffNotNormal(text[3..]);
        assert text == text[..3] + text[3..];
      }
    }
  }

  lemma OntoDiffers(text: string)
    requires text != "" && text[0] == '%' && (IsEscape(text, 0) ==> NormalEscape(text) != text[..3])
    ensures Normal(text) != Some(text)
  {
    if IsEscape(text, 0) && Normal(text[3..]).Some? {
      HeadOf(NormalEscape(text), Normal(text[3..]).value);
    }
  }

  lemma HeadOf(head: string, tail: string)
    ensures (head + tail)[..|head|] == head
  {
  }

  // Normalizing again changes nothing, and the decoded text is what it was.
  lemma {:induction false} NormalIsStable(text: string)
    ensures var n := Normal(text);
      n.Some? ==> Normal(n.value) == n && Decoded(n.value) == Decoded(text)
    decreases |text|
  {
    if text != "" && Normal(text).Some? {
      if text[0] != '%' {
        NormalIsStable(text[1..]);
        PlainFirst(text[0], Normal(text[1..]).value);
      } else {
        NormalIsStable(text[3..]);
        EscapeFirst(text, Normal(text[3..]).value);
      }
    }
  }

  lemma PlainFirst(c: char, rest: string)
    requires c != '%'
    ensures Normal([c] + rest) == Onto([c], Normal(rest))
    ensures Decoded([c] + rest) == [c] + Decoded(rest)
  {
    assert ([c] + rest)[1..] == rest;
  }

  lemma EscapeFirst(text: string, rest: string)
    requires IsEscape(text, 0)
    ensures var e := NormalEscape(text);
      Normal(e + rest) == Onto(e, Normal(rest)) && Decoded(e + rest) == [EscapedChar(text, 0)] + Decoded(rest)
  {
    var e := NormalEscape(text);
    var c := EscapedChar(text, 0);
    if IsUnreserved(c) {
      PlainFirst(c, rest);
    } else {
      assert IsEscape(e + rest, 0) && EscapedChar(e + rest, 0) == c;
      assert NormalEscape(e + rest) == e;
      assert (e + rest)[3..] == rest;
    }
  }

  // Decoding undoes the escape of any byte, in letters of either case, whatever follows.
  lemma EscapeDecodes(letters: Hex.Case, value: nat, rest: string)
    requires value < 256
    ensures var text := "%" + Hex.Field(letters, value, 2) + rest;
      IsEscape(text, 0) && EscapedChar(text, 0) == value as char && Decoded(text) == [value as char] + Decoded(rest)
  {
    var digits := Hex.Field(letters, value, 2);
    assert Hex.Pow16(2) == 256;
    Hex.FieldWidth(letters, value, 2);
    TwoDigits(digits);
    hide Hex.Field, Hex.Value;
    var text := "%" + digits + rest;
    assert text[1] == digits[0] && text[2] == digits[1] && text[3..] == rest;
  }

  lemma TwoDigits(digits: string)
    requires |digits| == 2
    ensures Hex.Value(digits) == 16 * Hex.DigitValue(digits[0]) + Hex.DigitValue(digits[1])
  {
    assert digits[..1][..0] == "";
    assert Hex.Value(digits[..1]) == Hex.DigitValue(digits[0]);
  }

  // A percent sign stays where no two digits follow it, and any other character stays.
  lemma OthersStay(c: char, rest: string)
    requires c != '%' || |rest| < 2 || !Hex.IsDigit(rest[0]) || !Hex.IsDigit(rest[1])
    ensures Decoded([c] + rest) == [c] + Decoded(rest)
  {
    assert ([c] + rest)[1..] == rest;
  }

  // The unreserved characters of section 2.3 of RFC 3986: letters, digits, and four marks.
  lemma UnreservedMeans(c: char)
    ensures IsUnreserved(c) <==>
      c in "-._~" || 48 <= c as int <= 57 || 65 <= c as int <= 90 || 97 <= c as int <= 122
  {
  }

  // A normal form has small letters in no escape, and no escape of an unreserved character.
  lemma NormalMeans(text: string, i: nat)
    requires Normal(text).Some? && i < |Normal(text).value| && Normal(text).value[i] == '%'
    ensures var n := Normal(text).value;
      IsEscape(n, i) && !('a' <= n[i + 1] <= 'f') && !('a' <= n[i + 2] <= 'f') && !IsUnreserved(EscapedChar(n, i))
  {
    NormalIsStable(text);
    RewrittenIffNotNormal(Normal(text).value);
    assert !IsRewritten(Normal(text).value, i);
  }
}
