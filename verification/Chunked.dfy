/** Chunked framing, section 7.1 of RFC 9112: two writers and two readers. Bytes are written as the
    Latin-1 characters they are. */
module Chunked {
  import opened Text
  import opened Wrappers
  import Hex

  type Bytes = string

  const CRLF := "\r\n"

  // A stream that is read from the front and written at the back.
  class Stream {
    var data: Bytes

    constructor (data: Bytes)
      ensures this.data == data
    {
      this.data := data;
    }

    // Up to and with the next newline, or all there is.
    method ReadLine() returns (line: Bytes)
      modifies this
      ensures line == Line(old(data)) && data == Drop(old(data), |line|)
    {
      line := Line(data);
      data := Drop(data, |line|);
    }

    method Read(count: nat) returns (bytes: Bytes)
      modifies this
      ensures bytes == Take(old(data), count) && data == Drop(old(data), count)
    {
      bytes := Take(data, count);
      data := Drop(data, count);
    }

    method Write(bytes: Bytes)
      modifies this
      ensures data == old(data) + bytes
    {
      data := data + bytes;
    }
  }

  function Take(s: Bytes, n: nat): (r: Bytes)
    ensures |r| <= n
  {
    if n < |s| then s[..n] else s
  }

  function Drop(s: Bytes, n: nat): (r: Bytes)
    ensures |r| == if n < |s| then |s| - n else 0
  {
    if n < |s| then s[n..] else ""
  }

  function Line(s: Bytes): (r: Bytes)
    ensures |r| <= |s| && (s != "" ==> r != "")
  {
    if s == "" then "" else if s[0] == '\n' then "\n" else [s[0]] + Line(s[1..])
  }

  // What stands before the first semicolon.
  function Before(s: Bytes): Bytes {
    Partition(s, ";").0
  }

  predicate AllDigits(s: Bytes) {
    forall i :: 0 <= i < |s| ==> Hex.IsDigit(s[i])
  }

  // The digits of a number. Single underscores may stand between them.
  predicate IsNumeral(s: Bytes) {
    && s != "" && s[0] != '_' && s[|s| - 1] != '_'
    && (forall i :: 0 <= i < |s| ==> Hex.IsDigit(s[i]) || s[i] == '_')
    && (forall i :: 0 <= i < |s| - 1 ==> s[i] != '_' || s[i + 1] != '_')
  }

  function Bare(s: Bytes): (r: Bytes)
    ensures (forall i :: 0 <= i < |s| ==> Hex.IsDigit(s[i]) || s[i] == '_') ==> AllDigits(r)
  {
    if s == "" then ""
    else Bare(s[..|s| - 1]) + (if s[|s| - 1] == '_' then "" else [s[|s| - 1]])
  }

  predicate IsSigned(s: Bytes) {
    s != "" && (s[0] == '+' || s[0] == '-')
  }

  // What follows the mark of base sixteen, which may be left out.
  function AfterBase(s: Bytes): Bytes {
    if |s| < 2 || s[0] != '0' || (s[1] != 'x' && s[1] != 'X') then s
    else if |s| >= 3 && s[2] == '_' then s[3..]
    else s[2..]
  }

  // A chunk size, as the built-in conversion from base sixteen takes it: with space around it, a sign,
  // and the mark of the base. A negative size is no better than none, because reading so many bytes is
  // an error, or reads to the end, where there is no next size.
  function Number(s: Bytes): Option<nat> {
    var text := Strip(s);
    var digits := AfterBase(if IsSigned(text) then text[1..] else text);
    if !IsNumeral(digits) then None
    else
      ValueIsNatural(Bare(digits));
      var value := Hex.Value(Bare(digits));
      if text[0] == '-' && value > 0 then None else Some(value)
  }

  lemma {:induction false} ValueIsNatural(s: Bytes)
    requires AllDigits(s)
    ensures Hex.Value(s) >= 0
  {
    if s != "" {
      ValueIsNatural(s[..|s| - 1]);
    }
  }

  function Chunk(piece: Bytes): (r: Bytes)
    ensures r != ""
  {
    Hex.Field(Hex.Lower, |piece|, 1) + CRLF + piece + CRLF
  }

  // A body in chunks of `step` bytes, and the empty chunk and the empty trailer that end it.
  function Framed(body: Bytes, step: nat): Bytes
    requires step > 0
    decreases |body|
  {
    if body == "" then "0" + CRLF + CRLF else Chunk(Take(body, step)) + Framed(Drop(body, step), step)
  }

  // The framing from some place of the body on: a chunk more, or the end.
  lemma FramedFrom(body: Bytes, at: nat, step: nat)
    requires step > 0
    ensures Framed(Drop(body, at), step) ==
      if at < |body| then Chunk(Take(Drop(body, at), step)) + Framed(Drop(body, at + step), step)
      else "0" + CRLF + CRLF
  {
    assert Drop(Drop(body, at), step) == Drop(body, at + step);
  }

  lemma Regroup(a: Bytes, b: Bytes, c: Bytes)
    ensures a + (b + c) == a + b + c
  {
  }

  // The body of a chunked reply, four bytes to a chunk.
  method ReplyTail(body: Bytes) returns (tail: Bytes)
    ensures tail == Framed(body, 4)
  {
    assert Drop(body, 0) == body;
    hide *;
    tail := "";
    var at := 0;
    while at < |body|
      invariant at >= 0 && tail + Framed(Drop(body, at), 4) == Framed(body, 4)
    {
      FramedFrom(body, at, 4);
      Regroup(tail, Chunk(Take(Drop(body, at), 4)), Framed(Drop(body, at + 4), 4));
      tail := tail + Chunk(Take(Drop(body, at), 4));
      at := at + 4;
    }
    FramedFrom(body, at, 4);
    tail := tail + ("0" + CRLF + CRLF);
  }

  // The body of a streamed answer, a kilobyte to a chunk.
  method StreamBytes(payload: Bytes, wfile: Stream)
    modifies wfile
    ensures wfile.data == old(wfile.data) + Framed(payload, 1024)
  {
    assert Drop(payload, 0) == payload;
    hide *;
    var step := 1024;
    var start := 0;
    while start < |payload|
      invariant start >= 0 && wfile.data + Framed(Drop(payload, start), step) == old(wfile.data) + Framed(payload, step)
    {
      FramedFrom(payload, start, step);
      Regroup(wfile.data, Chunk(Take(Drop(payload, start), step)), Framed(Drop(payload, start + step), step));
      wfile.Write(Chunk(Take(Drop(payload, start), step)));
      start := start + step;
    }
    FramedFrom(payload, start, step);
    wfile.Write("0" + CRLF + CRLF);
  }

  // How a reader ends the trailers: which lines it stops at.
  datatype Reader = Origin | Server

  predicate IsLast(reader: Reader, line: Bytes) {
    match reader
    case Origin => line == CRLF || line == "\n" || line == ""
    case Server => Strip(line) == ""
  }

  function SizeOf(reader: Reader, line: Bytes): Option<nat> {
    match reader
    case Origin => Number(Before(line))
    case Server => Number(Before(Strip(line)))
  }

  // What is left when the trailers have been read.
  function AfterTrailers(reader: Reader, s: Bytes): Bytes
    decreases |s|
  {
    var line := Line(s);
    if s == "" || IsLast(reader, line) then Drop(s, |line|) else AfterTrailers(reader, Drop(s, |line|))
  }

  // A body and what is left unread, or a chunk size that is no number.
  datatype Got = Got(body: Bytes, rest: Bytes) | BadSize

  function Unframed(reader: Reader, s: Bytes): Got
    decreases |s|
  {
    var line := Line(s);
    var after := Drop(s, |line|);
    match SizeOf(reader, line)
    case None => BadSize
    case Some(size) =>
      if s == "" then BadSize
      else if size == 0 then Got("", AfterTrailers(reader, after))
      else
        Onto(Take(after, size), Unframed(reader, Drop(Drop(after, size), 2)))
  }

  function Onto(piece: Bytes, got: Got): Got {
    match got case BadSize => BadSize case Got(body, rest) => Got(piece + body, rest)
  }

  lemma OntoOnto(a: Bytes, b: Bytes, got: Got)
    ensures Onto(a, Onto(b, got)) == Onto(a + b, got)
  {
    if got.Got? {
      assert a + (b + got.body) == a + b + got.body;
    }
  }

  // A reader that has got `body` from `s` and has `left` to read.
  ghost predicate IsReading(reader: Reader, s: Bytes, body: Bytes, left: Bytes) {
    Unframed(reader, s) == Onto(body, Unframed(reader, left))
  }

  lemma ReadingStep(reader: Reader, s: Bytes, body: Bytes, left: Bytes)
    requires IsReading(reader, s, body, left)
    ensures var line := Line(left);
      var after := Drop(left, |line|);
      match SizeOf(reader, line)
      case None => Unframed(reader, s) == BadSize
      case Some(n) =>
        left != "" &&
        if n == 0 then Unframed(reader, s) == Got(body, AfterTrailers(reader, after))
        else IsReading(reader, s, body + Take(after, n), Drop(Drop(after, n), 2))
  {
    var line := Line(left);
    var after := Drop(left, |line|);
    hide AfterTrailers;
    match SizeOf(reader, line)
    case None =>
    case Some(n) =>
      assert body + "" == body;
      OntoOnto(body, Take(after, n), Unframed(reader, Drop(Drop(after, n), 2)));
  }

  lemma ReadingStarts(reader: Reader, s: Bytes)
    ensures IsReading(reader, s, "", s)
  {
    if Unframed(reader, s).Got? {
      assert "" + Unframed(reader, s).body == Unframed(reader, s).body;
    }
  }

  // The reader of the interop origin: it keeps the pieces and joins them at the end.
  method ReadBody(rfile: Stream) returns (body: Option<Bytes>)
    modifies rfile
    ensures match Unframed(Origin, old(rfile.data))
      case BadSize => body == None
      case Got(b, rest) => body == Some(b) && rfile.data == rest
  {
    var pieces: seq<Bytes> := [];
    ReadingStarts(Origin, rfile.data);
    assert Hex.Join(pieces) == "";
    hide *;
    while true
      invariant IsReading(Origin, old(rfile.data), Hex.Join(pieces), rfile.data)
      decreases |rfile.data|
    {
      ReadingStep(Origin, old(rfile.data), Hex.Join(pieces), rfile.data);
      var line := rfile.ReadLine();
      var size := Number(Before(line));
      SizeIs(line);
      if size == None {
        return None;
      }
      if size.value == 0 {
        break;
      }
      var piece := rfile.Read(size.value);
      var end := rfile.Read(2);
      Hex.JoinAppend(pieces, piece);
      pieces := pieces + [piece];
    }
    SkipTrailers(Origin, rfile);
    return Some(Hex.Join(pieces));
  }

  lemma SizeIs(line: Bytes)
    ensures SizeOf(Origin, line) == Number(Before(line))
    ensures SizeOf(Server, line) == Number(Before(Strip(line)))
  {
  }

  // The reader of the test server: it strips the line first, and lengthens the body as it goes.
  method ReadChunked(rfile: Stream) returns (out: Option<Bytes>)
    modifies rfile
    ensures match Unframed(Server, old(rfile.data))
      case BadSize => out == None
      case Got(b, rest) => out == Some(b) && rfile.data == rest
  {
    var body := "";
    ReadingStarts(Server, rfile.data);
    hide *;
    while true
      invariant IsReading(Server, old(rfile.data), body, rfile.data)
      decreases |rfile.data|
    {
      ReadingStep(Server, old(rfile.data), body, rfile.data);
      var line := rfile.ReadLine();
      var size := Number(Before(Strip(line)));
      SizeIs(line);
      if size == None {
        return None;
      }
      if size.value == 0 {
        SkipTrailers(Server, rfile);
        return Some(body);
      }
      var piece := rfile.Read(size.value);
      body := body + piece;
      var end := rfile.Read(2);
    }
  }

  method SkipTrailers(reader: Reader, rfile: Stream)
    modifies rfile
    ensures rfile.data == AfterTrailers(reader, old(rfile.data))
  {
    while true
      invariant AfterTrailers(reader, rfile.data) == old(AfterTrailers(reader, rfile.data))
      decreases |rfile.data|
    {
      ghost var before := rfile.data;
      var line := rfile.ReadLine();
      if IsLast(reader, line) {
        return;
      }
      assert before != "";
    }
  }

  lemma {:induction false} LineOfDigits(digits: Bytes, rest: Bytes)
    requires AllDigits(digits)
    ensures Line(digits + CRLF + rest) == digits + CRLF
  {
    var s := digits + CRLF + rest;
    if digits == "" {
      assert s[1..] == "\n" + rest;
      assert Line(s[1..]) == "\n";
    } else {
      assert s[1..] == digits[1..] + CRLF + rest;
      LineOfDigits(digits[1..], rest);
      assert [digits[0]] + (digits[1..] + CRLF) == digits + CRLF;
    }
  }

  lemma {:induction false} NothingBeforeCut(s: Bytes)
    requires forall i :: 0 <= i < |s| ==> s[i] != ';'
    ensures Before(s) == s
  {
    if s != "" {
      assert s[..1] == [s[0]];
      NothingBeforeCut(s[1..]);
      assert [s[0]] + s[1..] == s;
    }
  }

  lemma StripDigits(digits: Bytes)
    requires AllDigits(digits) && digits != ""
    ensures Strip(digits) == digits && Strip(digits + CRLF) == digits
  {
    var s := digits + CRLF;
    assert s[..|s| - 1] == digits + "\r" && (digits + "\r")[..|digits|] == digits;
    assert Strip(digits + "\r") == Strip(digits) == digits;
  }

  lemma {:induction false} BareDigits(digits: Bytes)
    requires AllDigits(digits)
    ensures Bare(digits) == digits
  {
    if digits != "" {
      BareDigits(digits[..|digits| - 1]);
      assert digits == digits[..|digits| - 1] + [digits[|digits| - 1]];
    }
  }

  // Plain digits are the number they are.
  lemma NumberOfDigits(s: Bytes, digits: Bytes)
    requires AllDigits(digits) && digits != "" && Strip(s) == digits
    ensures Hex.Value(digits) >= 0 && Number(s) == Some(Hex.Value(digits))
  {
    hide Strip, Bare, Hex.Value;
    assert forall i :: 0 <= i < |digits| ==> Hex.IsDigit(digits[i]);
    assert AfterBase(digits) == digits && IsNumeral(digits);
    BareDigits(digits);
    ValueIsNatural(digits);
  }

  // A line of digits gives both readers the number.
  lemma SizeOfDigits(reader: Reader, digits: Bytes)
    requires AllDigits(digits) && digits != ""
    ensures Hex.Value(digits) >= 0 && SizeOf(reader, digits + CRLF) == Some(Hex.Value(digits))
  {
    hide Number, Strip, Before;
    StripDigits(digits);
    NothingBeforeCut(digits + CRLF);
    NothingBeforeCut(digits);
    NumberOfDigits(digits + CRLF, digits);
    NumberOfDigits(digits, digits);
  }

  lemma TakeDrop(a: Bytes, b: Bytes)
    ensures Take(a + b, |a|) == a && Drop(a + b, |a|) == b
  {
  }

  // One chunk, whatever is in it and whatever follows: its bytes are counted, not looked at.
  lemma ChunkReads(reader: Reader, piece: Bytes, rest: Bytes)
    requires piece != ""
    ensures Unframed(reader, Chunk(piece) + rest) == Onto(piece, Unframed(reader, rest))
  {
    var digits := Hex.Field(Hex.Lower, |piece|, 1);
    var s := Chunk(piece) + rest;
    var after := piece + (CRLF + rest);
    assert s == digits + CRLF + after;
    LineOfDigits(digits, after);
    SizeOfDigits(reader, digits);
    hide Line, SizeOf, Chunk;
    TakeDrop(digits + CRLF, after);
    TakeDrop(piece, CRLF + rest);
    TakeDrop(CRLF, rest);
  }

  lemma TrailerEnds(reader: Reader, rest: Bytes)
    ensures AfterTrailers(reader, CRLF + rest) == rest
  {
    LineOfDigits("", rest);
    assert "" + CRLF + rest == CRLF + rest && "" + CRLF == CRLF;
    TakeDrop(CRLF, rest);
    assert Strip(CRLF) == "" by { assert CRLF[1..] == "\n" && "\n"[1..] == ""; }
    assert IsLast(reader, CRLF);
  }

  // A bare newline ends the trailers too. Space before it does so for one of the readers only.
  lemma BareLineEnds(reader: Reader, rest: Bytes)
    ensures AfterTrailers(reader, "\n" + rest) == rest
    ensures AfterTrailers(reader, " \r\n" + rest) == if reader == Server then rest else AfterTrailers(Origin, rest)
  {
    assert Strip("\n") == "" by { assert "\n"[1..] == ""; }
    assert Strip(" \r\n") == "" by { assert " \r\n"[1..] == CRLF && CRLF[1..] == "\n" && "\n"[1..] == ""; }
    hide Strip;
    TakeDrop("\n", rest);
    TakeDrop(" \r\n", rest);
    assert Line("\n" + rest) == "\n";
    var s := " \r\n" + rest;
    assert s[1..] == CRLF + rest && s[1..][1..] == "\n" + rest;
    assert Line(s) == " \r\n";
  }

  lemma EndReads(reader: Reader, rest: Bytes)
    ensures Unframed(reader, "0" + CRLF + CRLF + rest) == Got("", rest)
  {
    hide Line, AfterTrailers, SizeOf;
    var s := "0" + CRLF + CRLF + rest;
    assert s == "0" + CRLF + (CRLF + rest);
    LineOfDigits("0", CRLF + rest);
    SizeOfDigits(reader, "0");
    assert Hex.Value("0") == 0 by { assert "0"[..0] == ""; }
    TakeDrop("0" + CRLF, CRLF + rest);
    TrailerEnds(reader, rest);
  }

  // What any of the writers frames, each of the readers gives back, and leaves what follows unread.
  lemma {:induction false} FramedReads(reader: Reader, body: Bytes, step: nat, rest: Bytes)
    requires step > 0
    ensures Unframed(reader, Framed(body, step) + rest) == Got(body, rest)
    decreases |body|
  {
    hide Chunk, Unframed;
    if body == "" {
      EndReads(reader, rest);
    } else {
      var piece, more := Take(body, step), Drop(body, step);
      FramedReads(reader, more, step, rest);
      Regroup(Chunk(piece), Framed(more, step), rest);
      ChunkReads(reader, piece, Framed(more, step) + rest);
      assert piece + more == body;
    }
  }

  // How many hexadecimal digits a text begins with.
  function DigitSpan(s: Bytes): (n: nat)
    ensures n <= |s| && AllDigits(s[..n]) && (n < |s| ==> !Hex.IsDigit(s[n]))
  {
    if s == "" || !Hex.IsDigit(s[0]) then 0
    else
      var n := DigitSpan(s[1..]);
      assert s[..n + 1] == [s[0]] + s[1..][..n];
      n + 1
  }

  // The pieces of a framed body and what follows it, or no such thing.
  datatype Strict = Pieces(pieces: seq<Bytes>, rest: Bytes) | Malformed

  // A reader that takes the grammar of section 7.1 of RFC 9112 as it stands: digits and a line end
  // before the data, and a line end after it.
  function ReadStrictly(s: Bytes): Strict
    decreases |s|
  {
    var n := DigitSpan(s);
    if n == 0 || !StartsWith(s[n..], CRLF) then Malformed
    else
      ValueIsNatural(s[..n]);
      var size, after := Hex.Value(s[..n]), s[n + 2..];
      if size == 0 then
        if StartsWith(after, CRLF) then Pieces([], after[2..]) else Malformed
      else if |after| < size || !StartsWith(after[size..], CRLF) then Malformed
      else
        match ReadStrictly(after[size + 2..])
        case Malformed => Malformed
        case Pieces(pieces, rest) => Pieces([after[..size]] + pieces, rest)
  }

  lemma {:induction false} SpanOfDigits(digits: Bytes, rest: Bytes)
    requires AllDigits(digits) && (rest == "" || !Hex.IsDigit(rest[0]))
    ensures DigitSpan(digits + rest) == |digits|
  {
    if digits == "" {
      assert digits + rest == rest;
    } else {
      assert (digits + rest)[1..] == digits[1..] + rest;
      SpanOfDigits(digits[1..], rest);
    }
  }

  lemma LineEndStarts(rest: Bytes)
    ensures StartsWith(CRLF + rest, CRLF) && (CRLF + rest)[2..] == rest && !Hex.IsDigit((CRLF + rest)[0])
  {
    assert (CRLF + rest)[..2] == CRLF;
  }

  lemma ChunkReadsStrictly(piece: Bytes, rest: Bytes)
    requires piece != ""
    ensures ReadStrictly(Chunk(piece) + rest) ==
      match ReadStrictly(rest)
      case Malformed => Malformed
      case Pieces(pieces, left) => Pieces([piece] + pieces, left)
  {
    hide DigitSpan, StartsWith, Hex.Value, Hex.Field;
    var digits := Hex.Field(Hex.Lower, |piece|, 1);
    var end := CRLF + rest;
    var after := piece + end;
    var s := digits + (CRLF + after);
    assert Chunk(piece) + rest == s;
    LineEndStarts(after);
    LineEndStarts(rest);
    SpanOfDigits(digits, CRLF + after);
    assert s[..|digits|] == digits && s[|digits|..] == CRLF + after;
    assert s[|digits| + 2..] == (CRLF + after)[2..] == after;
    assert after[..|piece|] == piece && after[|piece|..] == end;
    assert after[|piece| + 2..] == end[2..] == rest;
  }

  lemma EndReadsStrictly(rest: Bytes)
    ensures ReadStrictly("0" + CRLF + CRLF + rest) == Pieces([], rest)
  {
    hide DigitSpan, StartsWith;
    var after := CRLF + rest;
    var s := "0" + (CRLF + after);
    assert "0" + CRLF + CRLF + rest == s;
    LineEndStarts(after);
    LineEndStarts(rest);
    SpanOfDigits("0", CRLF + after);
    assert s[..1] == "0" && s[1..] == CRLF + after && s[3..] == (CRLF + after)[2..] == after;
    assert Hex.Value("0") == 0 by { assert "0"[..0] == ""; }
  }

  // What is framed is in the grammar: the pieces are the body, each as long as the step but for the
  // last, and none is empty.
  lemma {:induction false} FramedIsInGrammar(body: Bytes, step: nat, rest: Bytes) returns (pieces: seq<Bytes>)
    requires step > 0
    ensures ReadStrictly(Framed(body, step) + rest) == Pieces(pieces, rest)
    ensures Hex.Join(pieces) == body && (forall i :: 0 <= i < |pieces| ==> 0 < |pieces[i]| <= step)
    ensures forall i :: 0 <= i < |pieces| - 1 ==> |pieces[i]| == step
    decreases |body|
  {
    hide ReadStrictly, Chunk, Hex.Join;
    NothingJoined();
    if body == "" {
      EndReadsStrictly(rest);
      pieces := [];
    } else {
      var piece, more := Take(body, step), Drop(body, step);
      var others := FramedIsInGrammar(more, step, rest);
      Regroup(Chunk(piece), Framed(more, step), rest);
      ChunkReadsStrictly(piece, Framed(more, step) + rest);
      pieces := [piece] + others;
      Hex.JoinConcat([piece], others);
      OneJoined(piece);
      assert piece + more == body;
      assert |piece| < step ==> others == [] by { NothingLeft(more, others); }
    }
  }

  lemma NothingJoined()
    ensures Hex.Join([]) == ""
  {
  }

  lemma OneJoined(piece: Bytes)
    ensures Hex.Join([piece]) == piece
  {
    assert [piece][..0] == [];
  }

  lemma NothingLeft(body: Bytes, pieces: seq<Bytes>)
    requires Hex.Join(pieces) == body && forall i :: 0 <= i < |pieces| ==> 0 < |pieces[i]|
    ensures body == "" ==> pieces == []
  {
  }

  // The size of a chunk is written with no zero before it and in small letters.
  lemma SizeIsCanonical(piece: Bytes)
    requires piece != ""
    ensures var digits := Hex.Field(Hex.Lower, |piece|, 1);
      && Chunk(piece) == digits + "\r\n" + piece + "\r\n" && digits[0] != '0'
      && forall i :: 0 <= i < |digits| ==> '0' <= digits[i] <= '9' || 'a' <= digits[i] <= 'f'
  {
    Hex.FieldIsCanonical(Hex.Lower, |piece|, 1);
    assert Hex.Value("0") == 0 by { assert "0"[..0] == ""; }
  }

  // A line of a trailer: there is something on it.
  predicate IsTrailer(line: Bytes) {
    Strip(line) != "" && forall i :: 0 <= i < |line| ==> line[i] != '\n'
  }

  function TrailerLines(lines: seq<Bytes>): Bytes {
    if lines == [] then CRLF else lines[0] + CRLF + TrailerLines(lines[1..])
  }

  // Both readers read past any trailers, and no further.
  lemma {:induction false} TrailersAreSkipped(reader: Reader, lines: seq<Bytes>, rest: Bytes)
    requires forall i :: 0 <= i < |lines| ==> IsTrailer(lines[i])
    ensures AfterTrailers(reader, TrailerLines(lines) + rest) == rest
  {
    if lines == [] {
      TrailerEnds(reader, rest);
    } else {
      var more := TrailerLines(lines[1..]) + rest;
      assert TrailerLines(lines) + rest == lines[0] + CRLF + more;
      TrailersAreSkipped(reader, lines[1..], rest);
      TrailerRead(reader, lines[0], more);
    }
  }

  lemma TrailerRead(reader: Reader, line: Bytes, more: Bytes)
    requires IsTrailer(line)
    ensures AfterTrailers(reader, line + CRLF + more) == AfterTrailers(reader, more)
  {
    hide Strip, Line;
    LineEndsThere(line, more);
    SpaceAfter(line, CRLF);
    TakeDrop(line + CRLF, more);
    assert Strip("") == "" && line != "" by { NothingStripped(); }
  }

  lemma NothingStripped()
    ensures Strip("") == ""
  {
  }

  lemma {:induction false} LineEndsThere(line: Bytes, more: Bytes)
    requires forall i :: 0 <= i < |line| ==> line[i] != '\n'
    ensures Line(line + CRLF + more) == line + CRLF
  {
    var s := line + CRLF + more;
    if line == "" {
      assert s[1..] == "\n" + more;
      assert Line(s[1..]) == "\n";
    } else {
      assert s[1..] == line[1..] + CRLF + more;
      LineEndsThere(line[1..], more);
      assert [line[0]] + (line[1..] + CRLF) == line + CRLF;
    }
  }

  // Space after a text is stripped, and leaves what is there.
  lemma {:induction false} SpaceAfter(s: Bytes, space: Bytes)
    requires forall i :: 0 <= i < |space| ==> IsSpace(space[i])
    ensures Strip(s + space) == Strip(s)
    decreases |s|, |space|
  {
    var all := s + space;
    if space == "" {
      assert all == s;
    } else if s == "" {
      assert all == space && space[1..] == "" + space[1..];
      SpaceAfter("", space[1..]);
    } else if IsSpace(s[0]) {
      assert all[1..] == s[1..] + space;
      SpaceAfter(s[1..], space);
    } else {
      assert all[..|all| - 1] == s + space[..|space| - 1];
      SpaceAfter(s, space[..|space| - 1]);
    }
  }

  // What stands after the size and a semicolon is not looked at.
  lemma ExtensionIsIgnored(reader: Reader, digits: Bytes, ext: Bytes)
    requires AllDigits(digits) && digits != ""
    ensures Hex.Value(digits) >= 0 && SizeOf(reader, digits + ";" + ext + CRLF) == Some(Hex.Value(digits))
  {
    hide Strip, Number, Partition, Hex.Value;
    var s := digits + (";" + (ext + CRLF));
    assert digits + ";" + ext + CRLF == s;
    var tail := StripAfter(digits, ext + CRLF);
    BeforeCut(digits, ext + CRLF);
    BeforeCut(digits, tail);
    StripDigits(digits);
    NumberOfDigits(digits, digits);
  }

  lemma {:induction false} BeforeCut(digits: Bytes, rest: Bytes)
    requires AllDigits(digits)
    ensures Before(digits + (";" + rest)) == digits
  {
    var s := digits + (";" + rest);
    if digits == "" {
      assert s == ";" + rest && s[..1] == ";";
    } else {
      assert s[..1] == [s[0]] && s[1..] == digits[1..] + (";" + rest);
      BeforeCut(digits[1..], rest);
    }
  }

  lemma {:induction false} StripAfter(digits: Bytes, rest: Bytes) returns (tail: Bytes)
    requires AllDigits(digits) && digits != ""
    ensures Strip(digits + (";" + rest)) == digits + (";" + tail)
    decreases |rest|
  {
    var s := digits + (";" + rest);
    assert s[0] == digits[0];
    tail := rest;
    if IsSpace(s[|s| - 1]) {
      assert rest != "" && s[..|s| - 1] == digits + (";" + rest[..|rest| - 1]);
      tail := StripAfter(digits, rest[..|rest| - 1]);
    }
  }

  // The other ways in which a size may be written.
  lemma NumberReads(digits: Bytes, more: Bytes)
    requires AllDigits(digits) && digits != "" && AllDigits(more) && more != ""
    ensures Hex.Value(digits) >= 0
    ensures Number("+" + digits) == Number("0x" + digits) == Number("0X" + digits) == Some(Hex.Value(digits))
    ensures Number("0x_" + digits) == Some(Hex.Value(digits))
    ensures Number("-" + digits) == if Hex.Value(digits) > 0 then None else Some(0)
    ensures Number(digits + "_" + more) == Number(digits + more)
    ensures Number("") == None && Number(digits + "__" + more) == None
  {
    hide Hex.Value, Bare, Strip;
    ValueIsNatural(digits);
    BareDigits(digits);
    SignedReads(digits);
    MarkedReads(digits);
    UnderscoreReads(digits, more);
    NothingStripped();
  }

  lemma Trimmed(s: Bytes)
    requires IsTrimmed(s)
    ensures Strip(s) == s
  {
    StripPads("", s, "");
    assert "" + s + "" == s;
  }

  lemma PlainNumeral(digits: Bytes)
    requires AllDigits(digits) && digits != ""
    ensures AfterBase(digits) == digits && IsNumeral(digits) && !IsSigned(digits)
  {
    assert forall i :: 0 <= i < |digits| ==> Hex.IsDigit(digits[i]);
  }

  lemma SignedReads(digits: Bytes)
    requires AllDigits(digits) && digits != "" && Bare(digits) == digits && Hex.Value(digits) >= 0
    ensures Number("+" + digits) == Some(Hex.Value(digits))
    ensures Number("-" + digits) == if Hex.Value(digits) > 0 then None else Some(0)
  {
    hide Hex.Value, Bare, Strip, AfterBase, IsNumeral;
    PlainNumeral(digits);
    SignTrimmed("+", digits);
    SignTrimmed("-", digits);
  }

  lemma SignTrimmed(sign: Bytes, digits: Bytes)
    requires (sign == "+" || sign == "-") && AllDigits(digits) && digits != ""
    ensures Strip(sign + digits) == sign + digits && (sign + digits)[1..] == digits
  {
    assert IsTrimmed(sign + digits);
    Trimmed(sign + digits);
  }

  lemma MarkedReads(digits: Bytes)
    requires AllDigits(digits) && digits != "" && Bare(digits) == digits && Hex.Value(digits) >= 0
    ensures Number("0x" + digits) == Number("0X" + digits) == Number("0x_" + digits) == Some(Hex.Value(digits))
  {
    hide *;
    MarkRead("0x", digits);
    MarkRead("0X", digits);
    MarkRead("0x_", digits);
  }

  lemma MarkRead(mark: Bytes, digits: Bytes)
    requires mark in {"0x", "0X", "0x_"}
    requires AllDigits(digits) && digits != "" && Bare(digits) == digits && Hex.Value(digits) >= 0
    ensures Number(mark + digits) == Some(Hex.Value(digits))
  {
    hide Hex.Value, Bare, Strip;
    Trimmed(mark + digits);
    assert (mark + digits)[|mark|..] == digits;
    assert IsNumeral(digits);
  }

  lemma UnderscoreReads(digits: Bytes, more: Bytes)
    requires AllDigits(digits) && digits != "" && AllDigits(more) && more != ""
    ensures Number(digits + "_" + more) == Number(digits + more)
    ensures Number(digits + "__" + more) == None
  {
    hide Hex.Value, Bare, Strip, AfterBase, IsNumeral, IsSigned;
    JoinedNumeral(digits, "_", more);
    JoinedNumeral(digits, "__", more);
    PlainNumeral(digits + more);
    Trimmed(digits + more);
    BareJoins(digits, more);
    assert (digits + "_" + more)[0] == (digits + more)[0] == digits[0];
  }

  lemma JoinedNumeral(digits: Bytes, between: Bytes, more: Bytes)
    requires AllDigits(digits) && digits != "" && AllDigits(more) && more != ""
    requires between == "_" || between == "__"
    ensures var s := digits + between + more;
      Strip(s) == s && AfterBase(s) == s && !IsSigned(s) && (IsNumeral(s) <==> between == "_")
  {
    hide Strip;
    var s := digits + between + more;
    assert s[0] == digits[0] && s[|s| - 1] == more[|more| - 1];
    Trimmed(s);
    assert between == "__" ==> s[|digits|] == '_' && s[|digits| + 1] == '_';
  }

  lemma {:induction false} BareConcat(a: Bytes, b: Bytes)
    ensures Bare(a + b) == Bare(a) + Bare(b)
  {
    if b == "" {
      assert a + b == a;
    } else {
      assert (a + b)[..|a + b| - 1] == a + b[..|b| - 1];
      BareConcat(a, b[..|b| - 1]);
    }
  }

  lemma BareJoins(digits: Bytes, more: Bytes)
    ensures Bare(digits + "_" + more) == Bare(digits + more)
  {
    BareConcat(digits + "_", more);
    BareConcat(digits, "_");
    BareConcat(digits, more);
    assert "_"[..0] == "" && Bare("_") == "";
  }
}
