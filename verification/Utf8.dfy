/** UTF-8, in which pools of text are measured. */
module Utf8 {
  import opened Bits

  // The bytes of one character: a lead byte, and six bits in every byte after it.
  function EncodeChar(c: char): (r: seq<byte>)
    ensures 1 <= |r| <= 4
  {
    var p := c as int;
    var q := p / 0x40;
    var r := q / 0x40;
    if p < 0x80 then [p]
    else if p < 0x800 then [0xC0 + q, Tail(p)]
    else if p < 0x1_0000 then [0xE0 + r, Tail(q), Tail(p)]
    else [0xF0 + r / 0x40, Tail(r), Tail(q), Tail(p)]
  }

  function Tail(p: nat): byte {
    0x80 + p % 0x40
  }

  function Encode(s: string): seq<byte> {
    if s == "" then [] else Encode(s[..|s| - 1]) + EncodeChar(s[|s| - 1])
  }

  lemma {:induction false} EncodeConcat(a: string, b: string)
    ensures Encode(a + b) == Encode(a) + Encode(b)
  {
    if b == "" {
      assert a + b == a;
    } else {
      assert (a + b)[..|a + b| - 1] == a + b[..|b| - 1];
      EncodeConcat(a, b[..|b| - 1]);
    }
  }

  // The lead byte tells how many bytes belong to the first character.
  function Length(lead: byte): nat {
    if lead < 0x80 then 1 else if lead < 0xE0 then 2 else if lead < 0xF0 then 3 else 4
  }

  // The code point of the bytes of one character.
  function Point(b: seq<byte>): int
    requires 1 <= |b| <= 4
  {
    var lead: int := b[0];
    if |b| == 1 then lead
    else if |b| == 2 then Six(lead - 0xC0, b[1])
    else if |b| == 3 then Six(Six(lead - 0xE0, b[1]), b[2])
    else Six(Six(Six(lead - 0xF0, b[1]), b[2]), b[3])
  }

  // Six bits more.
  function Six(high: int, tail: int): int {
    high * 0x40 + (tail - 0x80)
  }

  lemma CharReads(c: char)
    ensures Length(EncodeChar(c)[0]) == |EncodeChar(c)| && Point(EncodeChar(c)) == c as int
  {
  }

  // As many bytes as the ranges of section 3 of RFC 3629 have, and six bits in every byte after the
  // lead.
  lemma CharIsWellFormed(c: char)
    ensures var p, b := c as int, EncodeChar(c);
      && |b| == (if p < 0x80 then 1 else if p < 0x800 then 2 else if p < 0x1_0000 then 3 else 4)
      && IsForm(b)
  {
  }

  // A lead byte and the bytes it announces.
  predicate IsForm(b: seq<byte>) {
    1 <= |b| <= 4 && Length(b[0]) == |b| && forall i :: 1 <= i < |b| ==> 0x80 <= b[i] < 0xC0
  }

  // There is no other form of a character in as few bytes.
  lemma FormIsShortest(c: char, b: seq<byte>)
    requires IsForm(b) && Point(b) == c as int
    ensures b == EncodeChar(c) || |b| > |EncodeChar(c)|
  {
    CharIsWellFormed(c);
    CharReads(c);
    hide EncodeChar;
    if |b| <= |EncodeChar(c)| {
      FormIsBounded(b);
      FormIsBounded(EncodeChar(c));
      SameForm(b, EncodeChar(c));
    }
  }

  // What fewer bytes can hold.
  lemma FormIsBounded(b: seq<byte>)
    requires IsForm(b)
    ensures Point(b) >= 0x80 ==> |b| >= 2
    ensures Point(b) >= 0x800 ==> |b| >= 3
    ensures Point(b) >= 0x1_0000 ==> |b| >= 4
  {
  }

  function LeadBase(n: nat): nat {
    if n == 2 then 0xC0 else if n == 3 then 0xE0 else 0xF0
  }

  lemma SixIsUnique(high: int, tail: int, other: int, last: int)
    requires 0x80 <= tail < 0xC0 && 0x80 <= last < 0xC0
    ensures Six(high, tail) == Six(other, last) ==> high == other && tail == last
  {
  }

  lemma SameForm(a: seq<byte>, b: seq<byte>)
    requires IsForm(a) && IsForm(b) && Point(a) == Point(b)
    ensures |a| == |b| ==> a == b
  {
    hide Six;
    if |a| == |b| >= 2 {
      var n := |a|;
      var h0, g0: int := a[0] - LeadBase(n), b[0] - LeadBase(n);
      var h1, g1 := Six(h0, a[1]), Six(g0, b[1]);
      SixIsUnique(h0, a[1], g0, b[1]);
      if n >= 3 {
        SixIsUnique(h1, a[2], g1, b[2]);
        if n >= 4 {
          SixIsUnique(Six(h1, a[2]), a[3], Six(g1, b[2]), b[3]);
        }
      }
    }
    assert |a| == |b| == 1 ==> a == b;
  }

  // A character of two, of three and of four bytes.
  lemma Examples()
    ensures EncodeChar('\U{E4}') == [0xC3, 0xA4]
    ensures EncodeChar('\U{20AC}') == [0xE2, 0x82, 0xAC]
    ensures EncodeChar('\U{1F600}') == [0xF0, 0x9F, 0x98, 0x80]
  {
  }

  // No two strings have the same bytes.
  lemma {:induction false} EncodeIsInjective(a: string, b: string)
    requires Encode(a) == Encode(b)
    ensures a == b
  {
    hide Encode, EncodeChar, Length, Point;
    if a == "" || b == "" {
      EncodeIsLong(a);
      EncodeIsLong(b);
    } else {
      FirstChar(a);
      FirstChar(b);
      CharReads(a[0]);
      CharReads(b[0]);
      assert Encode(a)[0] == EncodeChar(a[0])[0] && Encode(b)[0] == EncodeChar(b[0])[0];
      var k := Length(Encode(a)[0]);
      assert EncodeChar(a[0]) == Encode(a)[..k] == EncodeChar(b[0]);
      assert Encode(a[1..]) == Encode(a)[k..] == Encode(b[1..]);
      EncodeIsInjective(a[1..], b[1..]);
      assert a == [a[0]] + a[1..] && b == [b[0]] + b[1..];
    }
  }

  lemma {:induction false} EncodeIsLong(s: string)
    ensures |Encode(s)| >= |s| && (s == "" ==> Encode(s) == [])
  {
    if s != "" {
      EncodeIsLong(s[..|s| - 1]);
    }
  }

  lemma FirstChar(s: string)
    requires s != ""
    ensures Encode(s) == EncodeChar(s[0]) + Encode(s[1..])
  {
    assert s == [s[0]] + s[1..];
    EncodeConcat([s[0]], s[1..]);
    assert [s[0]][..0] == "";
    assert Encode([s[0]]) == Encode("") + EncodeChar(s[0]) == EncodeChar(s[0]);
  }
}
