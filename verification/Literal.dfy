/** String literals of generated files: how they are printed, cut into lines, and read back. */
module Literal {
  import opened Wrappers
  import Hex

  const CHUNK := 60

  // A control character, which cannot stand in a literal as itself. A raw newline would end the line.
  predicate IsControl(c: char) {
    c as int < 0x20 || c as int == 0x7F
  }

  // What stands for a character between the quotes.
  function Escape(c: char): (r: string)
    ensures r != ""
  {
    if c == '\\' then "\\\\"
    else if c == '"' then "\\\""
    else if c == '\n' then "\\n"
    else if c == '\r' then "\\r"
    else if c == '\t' then "\\t"
    else if IsControl(c) then "\\x" + Hex.Field(Hex.Lower, c as int, 2)
    else [c]
  }

  function Escaped(text: string): string {
    if text == "" then "" else Escape(text[0]) + Escaped(text[1..])
  }

  // One character of a literal's body, and how much of the body it takes. A bare quote ends the
  // literal, so it is no character, and neither is a raw control character.
  function ReadChar(body: string): Option<(char, nat)>
    requires body != ""
  {
    if body[0] == '"' || IsControl(body[0]) then None
    else if body[0] != '\\' then Some((body[0], 1))
    else if |body| < 2 then None
    else
      match body[1]
      case '\\' => Some(('\\', 2))
      case '"' => Some(('"', 2))
      case 'n' => Some(('\n', 2))
      case 'r' => Some(('\r', 2))
      case 't' => Some(('\t', 2))
      case 'x' =>
        if |body| >= 4 && Hex.IsDigit(body[2]) && Hex.IsDigit(body[3]) then
          Some(((Hex.DigitValue(body[2]) * 16 + Hex.DigitValue(body[3])) as char, 4))
        else None
      case _ => None
  }

  // The text that a body stands for, if it is well formed.
  function Unescaped(body: string): Option<string>
    decreases |body|
  {
    if body == "" then Some("")
    else
      match ReadChar(body)
      case None => None
      case Some((c, n)) =>
        if n == 0 || n > |body| then None
        else
          match Unescaped(body[n..])
          case None => None
          case Some(rest) => Some([c] + rest)
  }

  // A literal: a body between quotes.
  function ReadLiteral(literal: string): Option<string> {
    if |literal| < 2 || literal[0] != '"' || literal[|literal| - 1] != '"' then None
    else Unescaped(literal[1..|literal| - 1])
  }

  // What reads holds no raw control character.
  lemma {:induction false} NoRawControl(body: string)
    requires Unescaped(body).Some?
    ensures forall i :: 0 <= i < |body| ==> !IsControl(body[i])
    decreases |body|
  {
    if body != "" {
      var (_, n) := ReadChar(body).value;
      NoRawControl(body[n..]);
      NoControlRead(body);
      assert forall i :: n <= i < |body| ==> body[i] == body[n..][i - n];
    }
  }

  lemma NoControlRead(body: string)
    requires body != "" && ReadChar(body).Some?
    ensures ReadChar(body).value.1 <= |body|
    ensures forall i :: 0 <= i < ReadChar(body).value.1 ==> !IsControl(body[i])
  {
  }

  // Adjacent literals are one string.
  function ReadAll(literals: seq<string>): Option<string> {
    if literals == [] then Some("")
    else
      var n := |literals| - 1;
      match (ReadAll(literals[..n]), ReadLiteral(literals[n]))
      case (Some(a), Some(b)) => Some(a + b)
      case _ => None
  }

  lemma EscapeReads(c: char, rest: string)
    ensures ReadChar(Escape(c) + rest) == Some((c, |Escape(c)|))
  {
    if IsControl(c) {
      HexPair(c as int);
    }
  }

  lemma HexPair(v: nat)
    requires v < 256
    ensures var f := Hex.Field(Hex.Lower, v, 2);
      |f| == 2 && Hex.DigitValue(f[0]) * 16 + Hex.DigitValue(f[1]) == v
  {
    assert Hex.Field(Hex.Lower, v, 2) == Hex.Field(Hex.Lower, v / 16, 1) + [Hex.Digit(Hex.Lower, v % 16)];
    assert Hex.Field(Hex.Lower, v / 16, 1) == [Hex.Digit(Hex.Lower, v / 16)];
  }

  // `text`, and what is read after it.
  function Onto(text: string, rest: Option<string>): Option<string> {
    match rest case None => None case Some(r) => Some(text + r)
  }

  lemma UnescapedStep(c: char, rest: string)
    ensures Unescaped(Escape(c) + rest) == Onto([c], Unescaped(rest))
  {
    EscapeReads(c, rest);
    hide Escape, ReadChar;
    assert (Escape(c) + rest)[|Escape(c)|..] == rest;
  }

  lemma OntoOnto(a: string, b: string, rest: Option<string>)
    ensures Onto(a, Onto(b, rest)) == Onto(a + b, rest)
    ensures Onto("", rest) == rest
  {
    if rest.Some? {
      assert a + (b + rest.value) == a + b + rest.value;
      assert "" + rest.value == rest.value;
    }
  }

  // Reading undoes printing, whatever follows.
  lemma {:induction false} UnescapedEscaped(text: string, rest: string)
    ensures Unescaped(Escaped(text) + rest) == Onto(text, Unescaped(rest))
  {
    hide Escape, Unescaped, Onto;
    OntoOnto([], [], Unescaped(rest));
    if text == "" {
      assert Escaped(text) + rest == rest;
    } else {
      var tail := Escaped(text[1..]) + rest;
      assert Escaped(text) + rest == Escape(text[0]) + tail;
      UnescapedStep(text[0], tail);
      UnescapedEscaped(text[1..], rest);
      OntoOnto([text[0]], text[1..], Unescaped(rest));
      assert [text[0]] + text[1..] == text;
    }
  }

  method MojoString(text: string) returns (literal: string)
    ensures literal == "\"" + Escaped(text) + "\""
    ensures ReadLiteral(literal) == Some(text)
  {
    hide Escape, Escaped, ReadLiteral;
    literal := "\"";
    NothingEscaped();
    for n := 0 to |text|
      invariant literal == "\"" + Escaped(text[..n])
    {
      EscapedAppend(text[..n], text[n]);
      assert text[..n + 1] == text[..n] + [text[n]];
      literal := literal + Escape(text[n]);
    }
    assert text[..|text|] == text;
    literal := literal + "\"";
    LiteralReads(text);
  }

  lemma NothingEscaped()
    ensures Escaped("") == ""
  {
  }

  lemma {:induction false} EscapedAppend(text: string, c: char)
    ensures Escaped(text + [c]) == Escaped(text) + Escape(c)
  {
    if text == "" {
      assert [c][1..] == "";
    } else {
      assert (text + [c])[1..] == text[1..] + [c];
      EscapedAppend(text[1..], c);
    }
  }

  // Every text has its literal, and the literal reads as exactly that text.
  lemma LiteralReads(text: string)
    ensures ReadLiteral("\"" + Escaped(text) + "\"") == Some(text)
  {
    var literal := "\"" + Escaped(text) + "\"";
    assert literal[1..|literal| - 1] == Escaped(text) + "";
    UnescapedEscaped(text, "");
    assert text + "" == text;
  }

  // The first characters of a text, all of them when there are not so many.
  function Upto(text: string, n: nat): string {
    if n < |text| then text[..n] else text
  }

  // The lines of a long literal: sixty characters of the text to a line, and one empty line for the
  // empty text.
  method Lines(text: string) returns (lines: seq<string>)
    ensures ReadAll(lines) == Some(text)
    ensures |lines| == if text == "" then 1 else (|text| + 59) / 60
    ensures forall i :: 0 <= i < |lines| ==>
      ReadLiteral(lines[i]).Some? && |ReadLiteral(lines[i]).value| <= 60
  {
    hide ReadAll, ReadLiteral, Escaped;
    lines := [];
    NoLines();
    if text == "" {
      var line := MojoString("");
      OneMoreLine([], "", line, "");
      return [line];
    }
    var start := 0;
    while start < |text|
      invariant start == CHUNK * |lines| && start < |text| + CHUNK
      invariant ReadAll(lines) == Some(Upto(text, start))
      invariant forall i :: 0 <= i < |lines| ==>
        ReadLiteral(lines[i]).Some? && |ReadLiteral(lines[i]).value| <= CHUNK
    {
      var piece := Upto(text[start..], CHUNK);
      var line := MojoString(piece);
      OneMoreLine(lines, Upto(text, start), line, piece);
      assert Upto(text, start) + piece == Upto(text, start + CHUNK);
      lines := lines + [line];
      start := start + CHUNK;
    }
  }

  lemma NoLines()
    ensures ReadAll([]) == Some("")
  {
  }

  lemma OneMoreLine(lines: seq<string>, read: string, line: string, piece: string)
    requires ReadAll(lines) == Some(read) && ReadLiteral(line) == Some(piece)
    ensures ReadAll(lines + [line]) == Some(read + piece)
    ensures ReadAll([line]) == Some(piece)
  {
    assert [line][..0] == [] && "" + piece == piece;
    assert (lines + [line])[..|lines|] == lines;
  }

  // What has been read whole is read the same when more follows.
  lemma {:induction false} UnescapedAppend(a: string, b: string)
    requires Unescaped(a).Some?
    ensures Unescaped(a + b) == Onto(Unescaped(a).value, Unescaped(b))
    decreases |a|
  {
    if a == "" {
      assert a + b == b;
      OntoOnto("", "", Unescaped(b));
    } else {
      var Some((c, n)) := ReadChar(a);
      assert ReadChar(a + b) == ReadChar(a);
      assert (a + b)[n..] == a[n..] + b;
      UnescapedAppend(a[n..], b);
      OntoOnto([c], Unescaped(a[n..]).value, Unescaped(b));
    }
  }

  // The escapes that have a letter, and what they are read as.
  lemma LettersAreRead()
    ensures Escape('\n') == "\\n" && ReadChar("\\n") == Some(('\n', 2))
    ensures Escape('\r') == "\\r" && ReadChar("\\r") == Some(('\r', 2))
    ensures Escape('\t') == "\\t" && ReadChar("\\t") == Some(('\t', 2))
    ensures Escape('"') == "\\\"" && ReadChar("\\\"") == Some(('"', 2))
    ensures Escape('\\') == "\\\\" && ReadChar("\\\\") == Some(('\\', 2))
  {
  }

  // Which characters are escaped by their number, and which stand for themselves.
  lemma EscapeMeans(c: char)
    requires c !in "\n\r\t\"\\"
    ensures |Escape(c)| == 4 <==> c as int <= 31 || c as int == 127
    ensures |Escape(c)| == 4 || Escape(c) == [c]
  {
    if IsControl(c) {
      HexPair(c as int);
    }
  }

  // No shorter body reads as the character.
  lemma EscapeIsShortest(c: char, body: string)
    requires body != "" && ReadChar(body) == Some((c, |body|))
    ensures |Escape(c)| <= |body|
  {
    EscapeReads(c, "");
    assert Escape(c) + "" == Escape(c);
    if IsControl(c) {
      HexPair(c as int);
    }
  }
}
