/** Digest credentials in the comparator: what is masked in them, and what is kept. */
module Digests {
  import opened Patterns
  import opened Text

  predicate IsDigest(value: string) {
    StartsWith(Lower(value), "digest ")
  }

  const NONCE := "cnonce="

  // The response is masked only where there is a client nonce.
  function MaskDigest(value: string): string {
    var v := Masked(NonceCount, "nc=<count>", Masked(ClientNonce, "cnonce=\"<nonce>\"", value));
    if Contains(v, NONCE) then Masked(DigestResponse, "response=\"<digest>\"", v) else v
  }

  // A part of the credentials that one run makes differently from the next, and the text after it.
  datatype Field = Field(kind: Pattern, value: string, after: string)

  function Shown(kind: Pattern, value: string): (s: string)
    ensures s != ""
  {
    Lead(kind) + value + (if kind == NonceCount then "" else "\"")
  }

  function Render(fields: seq<Field>): string {
    if fields == [] then ""
    else Shown(fields[0].kind, fields[0].value) + (fields[0].after + Render(fields[1..]))
  }

  function MaskOf(kind: Pattern): string {
    match kind
    case ClientNonce => "<nonce>"
    case NonceCount => "<count>"
    case DigestResponse => "<digest>"
    case Boundary => ""
  }

  // The fields of one kind masked, and all else as it was.
  function Replaced(p: Pattern, fields: seq<Field>): (r: seq<Field>)
    ensures |r| == |fields|
    ensures forall i :: 0 <= i < |fields| ==>
      r[i] == if fields[i].kind == p then Field(p, MaskOf(p), fields[i].after) else fields[i]
  {
    seq(|fields|, i requires 0 <= i < |fields| =>
      if fields[i].kind == p then Field(p, MaskOf(p), fields[i].after) else fields[i])
  }

  predicate IsGap(c: char) {
    c == ' ' || c == ','
  }

  // What a value of a kind may be.
  predicate IsValue(kind: Pattern, value: string) {
    && (kind == ClientNonce || value != "")
    && forall i :: 0 <= i < |value| ==> Fits(kind, value[i])
  }

  // Fields stand between gaps.
  ghost predicate Spaced(fields: seq<Field>) {
    && (forall i :: 0 <= i < |fields| && fields[i].after != "" ==> IsGap(fields[i].after[0]))
    && (forall i :: 0 <= i < |fields| - 1 ==>
          fields[i].after != "" && IsGap(fields[i].after[|fields[i].after| - 1]))
  }

  // No match of `p` begins in what is no field of that kind.
  ghost predicate ClearOf(p: Pattern, fields: seq<Field>) {
    && (forall i :: 0 <= i < |fields| ==> !Contains(fields[i].after, Lead(p)))
    && (forall i :: 0 <= i < |fields| ==>
          if fields[i].kind == p then IsValue(p, fields[i].value)
          else !Contains(Shown(fields[i].kind, fields[i].value), Lead(p)))
  }

  // Only what is written as a field is taken for one.
  lemma MatchIsField(p: Pattern, before: char, s: string) returns (value: string)
    requires p != Boundary && MatchAt(p, before, s) > 0
    ensures IsValue(p, value) && s[..MatchAt(p, before, s)] == Shown(p, value)
  {
    hide Span, StartsWith, Lead;
    var lead := Lead(p);
    var rest := s[|lead|..];
    value := rest[..Span(p, rest)];
    StartsAt(s, lead);
    assert s[..|lead| + |value|] == lead + value;
  }

  lemma GapIsNoLead(p: Pattern, c: char)
    requires IsGap(c)
    ensures c !in Lead(p)
  {
  }

  lemma NoMatch(p: Pattern, before: char, w: string, rest: string)
    requires w != "" && !Contains(w, Lead(p)) && Apart(w, rest, Lead(p))
    ensures MatchAt(p, before, w + rest) == 0
  {
    NoStart(w, rest, Lead(p));
  }

  lemma Unmatched(p: Pattern, patch: string, before: char, s: string)
    requires s != "" && MatchAt(p, before, s) == 0
    ensures MaskedAfter(p, patch, before, s) == [s[0]] + MaskedAfter(p, patch, s[0], s[1..])
  {
    hide MatchAt;
  }

  lemma NoneLater(w: string, rest: string, mark: string)
    requires w != "" && !Contains(w, mark) && Apart(w, rest, mark)
    ensures !Contains(w[1..], mark) && Apart(w[1..], rest, mark)
  {
  }

  // Where no match can begin the text stays.
  lemma {:induction false} Pass(p: Pattern, patch: string, before: char, w: string, rest: string)
    requires !Contains(w, Lead(p)) && Apart(w, rest, Lead(p))
    ensures MaskedAfter(p, patch, before, w + rest) ==
            w + MaskedAfter(p, patch, if w == "" then before else w[|w| - 1], rest)
    decreases |w|
  {
    hide MatchAt, StartsWith, Contains, Lead, Apart, MaskedAfter;
    if w == "" {
      assert w + rest == rest;
    } else {
      NoMatch(p, before, w, rest);
      NoneLater(w, rest, Lead(p));
      assert (w + rest)[1..] == w[1..] + rest;
      Unmatched(p, patch, before, w + rest);
      Pass(p, patch, w[0], w[1..], rest);
      assert [w[0]] + w[1..] == w;
    }
  }

  // A field of the kind is one match.
  lemma FieldMatches(p: Pattern, value: string, before: char, rest: string)
    requires p != Boundary && IsValue(p, value) && IsGap(before) && (rest == "" || IsGap(rest[0]))
    ensures MatchAt(p, before, Shown(p, value) + rest) == |Shown(p, value)|
  {
    hide Span, Lead, Fits;
    var s := Shown(p, value) + rest;
    var lead := |Lead(p)|;
    var tail := (if p == NonceCount then "" else "\"") + rest;
    assert s == Lead(p) + (value + tail);
    assert s[..lead] == Lead(p) && s[lead..] == value + tail;
    TailStops(p, rest);
    SpanOf(p, value, tail);
    assert p == ClientNonce || p == DigestResponse ==> (value + tail)[|value|] == '"';
  }

  lemma TailStops(p: Pattern, rest: string)
    requires p != Boundary && (rest == "" || IsGap(rest[0]))
    ensures var tail := (if p == NonceCount then "" else "\"") + rest;
      tail == "" || !Fits(p, tail[0])
  {
  }

  lemma {:induction false} SpanOf(p: Pattern, value: string, tail: string)
    requires forall i :: 0 <= i < |value| ==> Fits(p, value[i])
    requires tail == "" || !Fits(p, tail[0])
    ensures Span(p, value + tail) == |value|
  {
    if value == "" {
      assert value + tail == tail;
    } else {
      assert (value + tail)[1..] == value[1..] + tail;
      SpanOf(p, value[1..], tail);
    }
  }

  lemma MaskFirst(p: Pattern, before: char, f: Field, rest: string)
    requires p != Boundary && IsGap(before) && (rest == "" || IsGap(rest[0]))
    requires if f.kind == p then IsValue(p, f.value) else !Contains(Shown(f.kind, f.value), Lead(p))
    ensures var shown, patch := Shown(f.kind, f.value), Shown(p, MaskOf(p));
      MaskedAfter(p, patch, before, shown + rest) ==
      (if f.kind == p then patch else shown) + MaskedAfter(p, patch, shown[|shown| - 1], rest)
  {
    var shown, patch := Shown(f.kind, f.value), Shown(p, MaskOf(p));
    if f.kind == p {
      FieldMatches(p, f.value, before, rest);
      hide MatchAt, Shown;
      assert (shown + rest)[|shown|..] == rest;
    } else {
      BeforeGap(p, shown, rest);
      Pass(p, patch, before, shown, rest);
    }
  }

  lemma BeforeGap(p: Pattern, w: string, rest: string)
    requires rest == "" || IsGap(rest[0])
    ensures Apart(w, rest, Lead(p))
  {
    if rest != "" {
      GapIsNoLead(p, rest[0]);
    }
  }

  lemma PassAfter(p: Pattern, patch: string, before: char, after: string, rest: string)
    requires !Contains(after, Lead(p))
    requires rest == "" || (after != "" && IsGap(after[|after| - 1]))
    ensures MaskedAfter(p, patch, before, after + rest) ==
            after + MaskedAfter(p, patch, if after == "" then before else after[|after| - 1], rest)
  {
    if rest != "" {
      GapIsNoLead(p, after[|after| - 1]);
    }
    Pass(p, patch, before, after, rest);
  }

  lemma FirstOf(p: Pattern, fields: seq<Field>)
    requires fields != [] && Spaced(fields) && ClearOf(p, fields)
    ensures Spaced(fields[1..]) && ClearOf(p, fields[1..])
    ensures var f := fields[0];
      && !Contains(f.after, Lead(p))
      && (if f.kind == p then IsValue(p, f.value) else !Contains(Shown(f.kind, f.value), Lead(p)))
      && (f.after != "" ==> IsGap(f.after[0]))
      && (fields[1..] != [] ==> f.after != "" && IsGap(f.after[|f.after| - 1]))
  {
    hide Contains, Shown, IsValue, IsGap;
  }

  lemma ReplacedFirst(p: Pattern, fields: seq<Field>)
    requires fields != []
    ensures var f := fields[0];
      Render(Replaced(p, fields)) ==
      (if f.kind == p then Shown(p, MaskOf(p)) else Shown(f.kind, f.value)) +
      (f.after + Render(Replaced(p, fields[1..])))
  {
    hide Shown, MaskOf;
    assert Replaced(p, fields)[1..] == Replaced(p, fields[1..]);
  }

  lemma {:induction false} MaskFields(p: Pattern, before: char, fields: seq<Field>)
    requires p != Boundary && IsGap(before) && Spaced(fields) && ClearOf(p, fields)
    ensures MaskedAfter(p, Shown(p, MaskOf(p)), before, Render(fields)) == Render(Replaced(p, fields))
    decreases |fields|
  {
    hide MaskedAfter, Contains, Spaced, ClearOf, Shown, MaskOf, IsGap, Lead, Replaced, IsValue;
    NothingMasked(p, Shown(p, MaskOf(p)));
    if fields != [] {
      FirstOf(p, fields);
      var f, rest := fields[0], Render(fields[1..]);
      var patch, shown := Shown(p, MaskOf(p)), Shown(f.kind, f.value);
      assert f.after + rest == "" || f.after != "";
      MaskFirst(p, before, f, f.after + rest);
      PassAfter(p, patch, shown[|shown| - 1], f.after, rest);
      if fields[1..] != [] {
        MaskFields(p, f.after[|f.after| - 1], fields[1..]);
      }
      ReplacedFirst(p, fields);
    }
  }

  lemma NothingMasked(p: Pattern, patch: string)
    ensures forall before :: MaskedAfter(p, patch, before, "") == ""
    ensures Render(Replaced(p, [])) == "" && Render([]) == ""
  {
  }

  // A text between fields: none of the leads is in it.
  ghost predicate IsPlainText(t: string) {
    !Contains(t, NONCE) && !Contains(t, Lead(ClientNonce)) && !Contains(t, Lead(NonceCount))
    && !Contains(t, Lead(DigestResponse))
  }

  // Digest credentials: a text, and after it the fields, in any order and with text between them.
  ghost predicate IsCredentials(first: string, fields: seq<Field>) {
    && first != "" && IsGap(first[|first| - 1]) && IsPlainText(first) && Spaced(fields)
    && forall i :: 0 <= i < |fields| ==>
         fields[i].kind != Boundary && IsValue(fields[i].kind, fields[i].value) && IsPlainText(fields[i].after)
  }

  ghost predicate HasNonce(fields: seq<Field>) {
    exists i :: 0 <= i < |fields| && fields[i].kind == ClientNonce
  }

  lemma MaskAll(p: Pattern, first: string, fields: seq<Field>)
    requires p != Boundary && first != "" && IsGap(first[|first| - 1]) && !Contains(first, Lead(p))
    requires Spaced(fields) && ClearOf(p, fields)
    ensures Masked(p, Shown(p, MaskOf(p)), first + Render(fields)) == first + Render(Replaced(p, fields))
  {
    hide MaskedAfter, Contains, Render, Lead, Spaced, ClearOf, Shown, MaskOf, IsGap;
    PassAfter(p, Shown(p, MaskOf(p)), ' ', first, Render(fields));
    MaskFields(p, first[|first| - 1], fields);
  }

  lemma MasksAre()
    ensures Shown(ClientNonce, MaskOf(ClientNonce)) == "cnonce=\"<nonce>\""
    ensures Shown(NonceCount, MaskOf(NonceCount)) == "nc=<count>"
    ensures Shown(DigestResponse, MaskOf(DigestResponse)) == "response=\"<digest>\""
  {
  }

  // A count holds no other lead, masked or not, and neither does a response.
  lemma CountIsClear(value: string)
    requires IsValue(NonceCount, value) || value == MaskOf(NonceCount)
    ensures IsValue(NonceCount, value) ==> !Contains(Shown(NonceCount, value), Lead(ClientNonce))
    ensures value == MaskOf(NonceCount) ==>
      !Contains(Shown(NonceCount, value), Lead(DigestResponse)) && !Contains(Shown(NonceCount, value), NONCE)
  {
    hide Contains;
    if IsValue(NonceCount, value) {
      NotInside(Shown(NonceCount, value), Lead(ClientNonce), 'o');
    }
    if value == MaskOf(NonceCount) {
      NotInside(Shown(NonceCount, value), Lead(DigestResponse), 'r');
      NotInside(Shown(NonceCount, value), NONCE, 'e');
    }
  }

  lemma ResponseIsClear(value: string)
    requires IsValue(DigestResponse, value)
    ensures var s := Shown(DigestResponse, value);
      !Contains(s, Lead(ClientNonce)) && !Contains(s, Lead(NonceCount)) && !Contains(s, NONCE)
  {
    hide Contains;
    var s, tail := Shown(DigestResponse, value), value + "\"";
    assert s == "response=\"" + tail;
    NotInside("response=\"", Lead(ClientNonce), 'c');
    NotInside("response=\"", Lead(NonceCount), 'c');
    NotInside("response=\"", NONCE, 'c');
    NotInside(tail, Lead(ClientNonce), 'n');
    NotInside(tail, Lead(NonceCount), 'n');
    NotInside(tail, NONCE, 'n');
    NotAcross("response=\"", tail, Lead(ClientNonce));
    NotAcross("response=\"", tail, Lead(NonceCount));
    NotAcross("response=\"", tail, NONCE);
  }

  lemma NoCountInNonce()
    ensures !Contains("cnonce=\"<nonce>\"", "nc=")
  {
    hide Contains;
    NoCountInTail();
    NotInside("cnonc", "nc=", '=');
    NotAcross("cnonc", "e=\"<nonce>\"", "nc=");
    assert "cnonce=\"<nonce>\"" == "cnonc" + "e=\"<nonce>\"";
  }

  lemma NoCountInTail()
    ensures !Contains("e=\"<nonce>\"", "nc=")
  {
    hide Contains;
    NotInside("e=\"<no", "nc=", 'c');
    NotInside("nce>\"", "nc=", '=');
    NotAcross("e=\"<no", "nce>\"", "nc=");
    assert "e=\"<nonce>\"" == "e=\"<no" + "nce>\"";
  }

  lemma MaskedNonceIsClear()
    ensures var s := Shown(ClientNonce, MaskOf(ClientNonce));
      !Contains(s, Lead(NonceCount)) && !Contains(s, Lead(DigestResponse))
  {
    hide Contains;
    MasksAre();
    NotInside("cnonce=\"<nonce>\"", Lead(DigestResponse), 'r');
    NoCountInNonce();
  }

  lemma FieldsAreClear(fields: seq<Field>)
    requires Spaced(fields)
    requires forall i :: 0 <= i < |fields| ==>
      fields[i].kind != Boundary && IsValue(fields[i].kind, fields[i].value) && IsPlainText(fields[i].after)
    ensures var a := Replaced(ClientNonce, fields);
      var b := Replaced(NonceCount, a);
      && ClearOf(ClientNonce, fields) && Spaced(a) && ClearOf(NonceCount, a)
      && Spaced(b) && ClearOf(DigestResponse, b)
  {
    hide Contains, Lead, IsValue, IsGap, Shown, MaskOf;
    var a := Replaced(ClientNonce, fields);
    var b := Replaced(NonceCount, a);
    MaskedNonceIsClear();
    forall i | 0 <= i < |fields|
      ensures fields[i].kind != ClientNonce ==> !Contains(Shown(fields[i].kind, fields[i].value), Lead(ClientNonce))
      ensures a[i].kind != NonceCount ==> !Contains(Shown(a[i].kind, a[i].value), Lead(NonceCount))
      ensures b[i].kind != DigestResponse ==> !Contains(Shown(b[i].kind, b[i].value), Lead(DigestResponse))
    {
      var f := fields[i];
      match f.kind
      case NonceCount =>
        CountIsClear(f.value);
        CountIsClear(MaskOf(NonceCount));
      case DigestResponse =>
        ResponseIsClear(f.value);
      case _ =>
    }
  }

  lemma SameKinds(fields: seq<Field>)
    ensures HasNonce(Replaced(NonceCount, Replaced(ClientNonce, fields))) <==> HasNonce(fields)
  {
    hide MaskOf;
    var b := Replaced(NonceCount, Replaced(ClientNonce, fields));
    assert forall i :: 0 <= i < |fields| ==> b[i].kind == fields[i].kind;
  }

  // Fields with the nonces and the counts masked.
  ghost predicate IsCounted(fields: seq<Field>) {
    forall i :: 0 <= i < |fields| ==>
      && !Contains(fields[i].after, NONCE) && fields[i].kind != Boundary
      && (fields[i].kind == NonceCount ==> fields[i].value == MaskOf(NonceCount))
      && (fields[i].kind == DigestResponse ==> IsValue(DigestResponse, fields[i].value))
  }

  lemma NoFieldNoNonce(fields: seq<Field>)
    requires fields == []
    ensures !HasNonce(fields)
  {
  }

  lemma RestOf(fields: seq<Field>)
    requires fields != [] && Spaced(fields) && IsCounted(fields)
    ensures Spaced(fields[1..]) && IsCounted(fields[1..]) && IsCounted([fields[0]])
    ensures fields[0].kind == ClientNonce ==> HasNonce(fields)
    ensures var after := fields[0].after;
      && (after != "" ==> IsGap(after[0])) && (fields[1..] != [] ==> after != "" && IsGap(after[|after| - 1]))
  {
    hide Contains, IsValue, MaskOf, IsGap;
  }

  // A client nonce is seen in the credentials exactly when there is one.
  lemma {:induction false} NonceIsSeen(first: string, fields: seq<Field>)
    requires !Contains(first, NONCE) && Spaced(fields) && IsCounted(fields)
    requires fields != [] ==> first != "" && IsGap(first[|first| - 1])
    ensures Contains(first + Render(fields), NONCE) <==> HasNonce(fields)
    decreases |fields|
  {
    hide Contains, IsValue, MaskOf, Shown, Spaced, IsCounted, HasNonce, IsGap;
    if fields == [] {
      NoFieldNoNonce(fields);
      assert first + "" == first;
    } else {
      var f, rest := fields[0], fields[1..];
      var shown := Shown(f.kind, f.value);
      RestOf(fields);
      assert first + Render(fields) == first + shown + (f.after + Render(rest));
      if f.kind == ClientNonce {
        NonceInside(first, f.value, f.after + Render(rest));
      } else {
        var text := first + shown + f.after;
        FieldHidesNone(first, f);
        assert text + Render(rest) == first + Render(fields);
        RestHasNonce(fields);
        NonceIsSeen(text, rest);
      }
    }
  }

  lemma RestHasNonce(fields: seq<Field>)
    requires fields != [] && fields[0].kind != ClientNonce
    ensures HasNonce(fields) <==> HasNonce(fields[1..])
  {
    if HasNonce(fields) {
      var i :| 0 <= i < |fields| && fields[i].kind == ClientNonce;
      assert fields[1..][i - 1].kind == ClientNonce;
    }
  }

  lemma NonceInside(first: string, value: string, rest: string)
    ensures Contains(first + Shown(ClientNonce, value) + rest, NONCE)
  {
    var tail := "\"" + value + "\"" + rest;
    assert first + Shown(ClientNonce, value) + rest == first + NONCE + tail;
    InsideOf(first, NONCE, tail);
  }

  lemma FieldHidesNone(first: string, f: Field)
    requires !Contains(first, NONCE) && first != "" && IsGap(first[|first| - 1])
    requires IsCounted([f]) && f.kind != ClientNonce && (f.after != "" ==> IsGap(f.after[0]))
    ensures !Contains(first + Shown(f.kind, f.value) + f.after, NONCE)
  {
    hide Contains, IsValue, MaskOf, Shown;
    assert [f][0] == f;
    var shown := Shown(f.kind, f.value);
    if f.kind == NonceCount {
      CountIsClear(f.value);
    } else {
      ResponseIsClear(f.value);
    }
    NotAcross(first, shown, NONCE);
    NotAcross(first + shown, f.after, NONCE);
  }

  lemma CountedFields(fields: seq<Field>)
    requires forall i :: 0 <= i < |fields| ==>
      fields[i].kind != Boundary && IsValue(fields[i].kind, fields[i].value) && IsPlainText(fields[i].after)
    ensures IsCounted(Replaced(NonceCount, Replaced(ClientNonce, fields)))
  {
    hide Contains, IsValue, MaskOf, Lead;
  }

  // The client nonce, the count and the response are masked whatever they are. Where there is no
  // client nonce the response is kept.
  lemma CredentialsAreMasked(first: string, fields: seq<Field>)
    requires IsCredentials(first, fields)
    ensures var counted := Replaced(NonceCount, Replaced(ClientNonce, fields));
      MaskDigest(first + Render(fields)) ==
      first + Render(if HasNonce(fields) then Replaced(DigestResponse, counted) else counted)
    ensures !HasNonce(fields) ==> Replaced(ClientNonce, fields) == fields
  {
    hide Contains, MaskedAfter, Render, Lead, IsValue, IsGap, Spaced, ClearOf, Shown, MaskOf;
    var a := Replaced(ClientNonce, fields);
    var b := Replaced(NonceCount, a);
    FieldsAreClear(fields);
    MaskAll(ClientNonce, first, fields);
    MaskAll(NonceCount, first, a);
    MaskAll(DigestResponse, first, b);
    MasksAre();
    CountedFields(fields);
    NonceIsSeen(first, b);
    assert HasNonce(fields) <==> HasNonce(b) by { SameKinds(fields); }
    if !HasNonce(fields) {
      assert a == fields;
    }
  }

  // The same fields with the same texts between them, whatever their values.
  ghost predicate SameButValues(f: seq<Field>, g: seq<Field>) {
    |f| == |g| && forall i :: 0 <= i < |f| ==> f[i].kind == g[i].kind && f[i].after == g[i].after
  }

  lemma ValuesDoNotMatter(first: string, f: seq<Field>, g: seq<Field>)
    requires IsCredentials(first, f) && IsCredentials(first, g) && SameButValues(f, g) && HasNonce(f)
    ensures MaskDigest(first + Render(f)) == MaskDigest(first + Render(g))
  {
    hide MaskDigest, Render, IsCredentials, Replaced;
    CredentialsAreMasked(first, f);
    CredentialsAreMasked(first, g);
    var i :| 0 <= i < |f| && f[i].kind == ClientNonce;
    assert g[i].kind == ClientNonce;
    AllAreReplaced(first, f);
    AllAreReplaced(first, g);
    assert AllMasked(f) == AllMasked(g);
  }

  ghost function AllMasked(fields: seq<Field>): (r: seq<Field>)
    ensures |r| == |fields|
    ensures forall i :: 0 <= i < |fields| ==>
      r[i] == Field(fields[i].kind, MaskOf(fields[i].kind), fields[i].after)
  {
    seq(|fields|, i requires 0 <= i < |fields| => Field(fields[i].kind, MaskOf(fields[i].kind), fields[i].after))
  }

  lemma AllAreReplaced(first: string, fields: seq<Field>)
    requires IsCredentials(first, fields)
    ensures Replaced(DigestResponse, Replaced(NonceCount, Replaced(ClientNonce, fields))) == AllMasked(fields)
  {
    hide MaskOf, Contains, IsValue, Lead;
  }

  lemma PlainWithoutMark(t: string)
    requires '=' !in t
    ensures IsPlainText(t)
  {
    hide Contains;
    NotInside(t, NONCE, '=');
    NotInside(t, Lead(ClientNonce), '=');
    NotInside(t, Lead(NonceCount), '=');
    NotInside(t, Lead(DigestResponse), '=');
  }

  // Credentials as they are written: a nonce, a count and a response.
  function Credentials(nonce: string, count: string, response: string): string {
    var last := "response=\"" + response + "\"";
    "digest " + ("cnonce=\"" + nonce + "\"" + (", " + ("nc=" + count + ("," + last))))
  }

  function ThreeFields(nonce: string, count: string, response: string): seq<Field> {
    [Field(ClientNonce, nonce, ", "), Field(NonceCount, count, ","), Field(DigestResponse, response, "")]
  }

  lemma CredentialsAreFields(nonce: string, count: string, response: string)
    ensures "digest " + Render(ThreeFields(nonce, count, response)) == Credentials(nonce, count, response)
  {
    hide Shown, Lead;
    var f := ThreeFields(nonce, count, response);
    assert f[1..][1..] == f[2..] && f[2..][1..] == [];
    FieldsAreWritten(nonce, ' ');
    FieldsAreWritten(count, ' ');
    FieldsAreWritten(response, ' ');
    var last := "response=\"" + response + "\"";
    assert Render(f[2..]) == last + ("" + "");
    assert last + ("" + "") == last;
  }

  lemma ThreeAreMasked(nonce: string, count: string, response: string)
    requires IsValue(ClientNonce, nonce) && IsValue(NonceCount, count) && IsValue(DigestResponse, response)
    ensures MaskDigest(Credentials(nonce, count, response)) == Credentials("<nonce>", "<count>", "<digest>")
  {
    hide MaskDigest, Render, IsPlainText, Credentials, IsValue;
    var f := ThreeFields(nonce, count, response);
    PlainWithoutMark("digest ");
    PlainWithoutMark(", ");
    PlainWithoutMark(",");
    PlainWithoutMark("");
    CredentialsAreFields(nonce, count, response);
    CredentialsAreFields("<nonce>", "<count>", "<digest>");
    CredentialsAreMasked("digest ", f);
    assert f[0].kind == ClientNonce;
    assert Replaced(DigestResponse, Replaced(NonceCount, Replaced(ClientNonce, f))) ==
      ThreeFields("<nonce>", "<count>", "<digest>");
  }

  // How the fields are written, and of what.
  lemma FieldsAreWritten(value: string, c: char)
    ensures Shown(ClientNonce, value) == "cnonce=\"" + value + "\""
    ensures Shown(NonceCount, value) == "nc=" + value
    ensures Shown(DigestResponse, value) == "response=\"" + value + "\""
    ensures Fits(ClientNonce, c) <==> c != '"'
    ensures Fits(NonceCount, c) <==> '0' <= c <= '9' || 'a' <= c <= 'f' || 'A' <= c <= 'F'
    ensures Fits(DigestResponse, c) <==> '0' <= c <= '9' || 'a' <= c <= 'f'
  {
    assert "nc=" + value + "" == "nc=" + value;
  }

  // A count within a word is none.
  lemma NoCountInWord(before: char, s: string)
    requires 'a' <= before <= 'z' || 'A' <= before <= 'Z' || '0' <= before <= '9' || before == '_'
    ensures MatchAt(NonceCount, before, s) == 0
  {
  }
}
