/** The Public Suffix List as one blob of text, cut into lines between its tokens. */
module SuffixList {
  import opened Literal
  import opened Text
  import opened Wrappers
  import Hex

  // The newline between two rules is written as two characters of source, which must stay together.
  const NEWLINE := "\\n"

  function CharTokens(rule: string): (r: seq<string>)
    ensures |r| == |rule|
  {
    seq(|rule|, i requires 0 <= i < |rule| => [rule[i]])
  }

  function Tokens(rules: seq<string>): seq<string> {
    if rules == [] then []
    else
      var n := |rules| - 1;
      Tokens(rules[..n]) + (if n > 0 then [NEWLINE] else []) + CharTokens(rules[n])
  }

  // The rules with a newline between any two.
  function Blob(rules: seq<string>): string {
    if rules == [] then ""
    else
      var n := |rules| - 1;
      Blob(rules[..n]) + (if n > 0 then "\n" else "") + rules[n]
  }

  // The rules stand one to a line, so they come back from their text, split at the newlines.
  lemma {:induction false} BlobIsGlued(rules: seq<string>)
    requires rules != []
    ensures Blob(rules) == Glued(rules, "\n")
  {
    var n := |rules| - 1;
    if n > 0 {
      BlobIsGlued(rules[..n]);
      GluedAppend(rules[..n], rules[n], "\n");
      assert rules == rules[..n] + [rules[n]];
    } else {
      assert "" + "" + rules[0] == rules[0];
      assert rules[..0] == [];
    }
  }

  lemma BlobSplits(rules: seq<string>)
    requires rules != [] && forall i :: 0 <= i < |rules| ==> '\n' !in rules[i]
    ensures Split(Blob(rules), "\n") == rules
  {
    hide Split, Blob;
    BlobIsGlued(rules);
    GluedSplits(rules, "\n");
  }

  // Neither a quote nor what starts an escape.
  predicate IsPlain(rule: string) {
    forall i :: 0 <= i < |rule| ==> rule[i] != '\\' && rule[i] != '"'
  }

  predicate HasNoControl(rule: string) {
    forall i :: 0 <= i < |rule| ==> !IsControl(rule[i])
  }

  // A rule that stands for itself between quotes.
  predicate StandsForItself(rule: string) {
    IsPlain(rule) && HasNoControl(rule)
  }

  function Concat(groups: seq<seq<string>>): seq<string> {
    if groups == [] then [] else Concat(groups[..|groups| - 1]) + groups[|groups| - 1]
  }

  // Every line is made of whole tokens: line i of those of group i.
  ghost predicate MadeOf(lines: seq<string>, groups: seq<seq<string>>) {
    |lines| == |groups| && forall i :: 0 <= i < |lines| ==> lines[i] == Hex.Join(groups[i])
  }

  // The lines are as long as they may be: the next token would not have fitted.
  ghost predicate Packed(lines: seq<string>, groups: seq<seq<string>>) {
    forall i :: 0 <= i < |lines| ==>
      0 < |lines[i]| <= CHUNK
      && (i + 1 < |lines| ==> i + 1 < |groups| && groups[i + 1] != [] && |lines[i]| + |groups[i + 1][0]| > CHUNK)
  }

  method MakeTokens(rules: seq<string>) returns (tokens: seq<string>)
    ensures tokens == Tokens(rules)
  {
    tokens := [];
    for index := 0 to |rules|
      invariant tokens == Tokens(rules[..index])
    {
      assert rules[..index + 1][..index] == rules[..index];
      if index > 0 {
        tokens := tokens + [NEWLINE];
      }
      tokens := tokens + CharTokens(rules[index]);
    }
    assert rules[..|rules|] == rules;
  }

  // The lines finished so far, and the one that is being filled.
  ghost predicate Filling(tokens: seq<string>, lines: seq<string>, groups: seq<seq<string>>,
                          chunk: string, group: seq<string>)
  {
    && MadeOf(lines, groups) && Packed(lines, groups) && chunk == Hex.Join(group) && |chunk| <= CHUNK
    && Concat(groups) + group == tokens
    && (group == [] <==> chunk == "")
    && (lines != [] ==> group != [] && |lines[|lines| - 1]| + |group[0]| > CHUNK)
  }

  lemma TokenFits(tokens: seq<string>, lines: seq<string>, groups: seq<seq<string>>,
                  chunk: string, group: seq<string>, token: string)
    requires Filling(tokens, lines, groups, chunk, group) && token != "" && |chunk| + |token| <= CHUNK
    ensures Filling(tokens + [token], lines, groups, chunk + token, group + [token])
  {
    hide Packed, MadeOf;
    Hex.JoinAppend(group, token);
    assert Concat(groups) + (group + [token]) == tokens + [token];
  }

  lemma TokenOverflows(tokens: seq<string>, lines: seq<string>, groups: seq<seq<string>>,
                       chunk: string, group: seq<string>, token: string)
    requires Filling(tokens, lines, groups, chunk, group) && 1 <= |token| <= 2 && |chunk| + |token| > CHUNK
    ensures Filling(tokens + [token], lines + [chunk], groups + [group], token, [token])
  {
    FlushLine(lines, groups, chunk, group);
    hide Packed, MadeOf;
    Hex.JoinAppend([], token);
    assert [] + [token] == [token] && "" + token == token;
  }

  lemma NothingFilled()
    ensures Filling([], [], [], "", [])
  {
  }

  lemma LastLine(tokens: seq<string>, lines: seq<string>, groups: seq<seq<string>>, chunk: string, group: seq<string>)
    requires Filling(tokens, lines, groups, chunk, group)
    ensures if chunk != "" then
        MadeOf(lines + [chunk], groups + [group]) && Concat(groups + [group]) == tokens
        && Packed(lines + [chunk], groups + [group])
      else MadeOf(lines, groups) && Concat(groups) == tokens && Packed(lines, groups)
  {
    if chunk != "" {
      FlushLine(lines, groups, chunk, group);
    }
  }

  method Chunks(tokens: seq<string>) returns (lines: seq<string>, ghost groups: seq<seq<string>>)
    requires forall i :: 0 <= i < |tokens| ==> 1 <= |tokens[i]| <= 2
    ensures MadeOf(lines, groups) && Concat(groups) == tokens && Packed(lines, groups)
    ensures Hex.Join(lines) == Hex.Join(tokens)
  {
    NothingFilled();
    hide *;
    lines, groups := [], [];
    var chunk := "";
    ghost var group: seq<string> := [];
    assert tokens[..0] == [];
    for n := 0 to |tokens|
      invariant Filling(tokens[..n], lines, groups, chunk, group)
    {
      var token := tokens[n];
      assert tokens[..n + 1] == tokens[..n] + [token];
      if |chunk| + |token| > CHUNK {
        TokenOverflows(tokens[..n], lines, groups, chunk, group, token);
        lines, groups := lines + [chunk], groups + [group];
        chunk, group := "", [];
        assert chunk + token == token && group + [token] == [token];
      } else {
        TokenFits(tokens[..n], lines, groups, chunk, group, token);
      }
      chunk, group := chunk + token, group + [token];
    }
    assert tokens[..|tokens|] == tokens;
    LastLine(tokens, lines, groups, chunk, group);
    if chunk != "" {
      lines, groups := lines + [chunk], groups + [group];
    }
    JoinedTwice(lines, groups);
  }

  lemma FlushLine(lines: seq<string>, groups: seq<seq<string>>, chunk: string, group: seq<string>)
    requires MadeOf(lines, groups) && Packed(lines, groups) && chunk == Hex.Join(group) && 0 < |chunk| <= CHUNK
    requires group != [] && (lines != [] ==> |lines[|lines| - 1]| + |group[0]| > CHUNK)
    ensures MadeOf(lines + [chunk], groups + [group]) && Packed(lines + [chunk], groups + [group])
    ensures Concat(groups + [group]) == Concat(groups) + group
  {
    hide Hex.Join, Concat;
    ConcatAppend(groups, group);
  }

  lemma ConcatAppend(groups: seq<seq<string>>, group: seq<string>)
    ensures Concat(groups + [group]) == Concat(groups) + group
  {
    assert (groups + [group])[..|groups|] == groups;
  }

  ghost predicate AllTokensRead(tokens: seq<string>) {
    forall i :: 0 <= i < |tokens| ==> tokens[i] == NEWLINE || (|tokens[i]| == 1 && StandsForItself(tokens[i]))
  }

  // What a run of tokens reads as: the escape is a newline, a character is itself.
  ghost function TextOf(tokens: seq<string>): string {
    if tokens == [] then ""
    else
      var last := tokens[|tokens| - 1];
      TextOf(tokens[..|tokens| - 1]) + (if last == NEWLINE then "\n" else last)
  }

  lemma {:induction false} TokensRead(tokens: seq<string>)
    requires AllTokensRead(tokens)
    ensures Unescaped(Hex.Join(tokens)) == Some(TextOf(tokens))
  {
    if tokens != [] {
      var n := |tokens| - 1;
      TokensRead(tokens[..n]);
      UnescapedAppend(Hex.Join(tokens[..n]), tokens[n]);
      TokenReads(tokens[n]);
    }
  }

  lemma TokenReads(token: string)
    requires token == NEWLINE || (|token| == 1 && StandsForItself(token))
    ensures Unescaped(token) == Some(if token == NEWLINE then "\n" else token)
  {
    if token == NEWLINE {
      assert ReadChar(token) == Some(('\n', 2));
      ReadsWhole(token, '\n');
    } else {
      assert ReadChar(token) == Some((token[0], 1));
      ReadsWhole(token, token[0]);
      assert [token[0]] == token;
    }
  }

  lemma ReadsWhole(body: string, c: char)
    requires body != "" && ReadChar(body) == Some((c, |body|))
    ensures Unescaped(body) == Some([c])
  {
    assert body[|body|..] == "" && Unescaped("") == Some("");
    assert [c] + "" == [c];
  }

  lemma {:induction false} TextOfConcat(a: seq<string>, b: seq<string>)
    ensures TextOf(a + b) == TextOf(a) + TextOf(b)
  {
    if b == [] {
      assert a + b == a;
    } else {
      hide TextOf;
      var n := |b| - 1;
      assert a + b == a + b[..n] + [b[n]] && b == b[..n] + [b[n]];
      TextOfConcat(a, b[..n]);
      TextOfAppend(a + b[..n], b[n]);
      TextOfAppend(b[..n], b[n]);
    }
  }

  lemma TextOfAppend(tokens: seq<string>, token: string)
    ensures TextOf(tokens + [token]) == TextOf(tokens) + (if token == NEWLINE then "\n" else token)
  {
    assert (tokens + [token])[..|tokens|] == tokens;
  }

  lemma {:induction false} TextOfRule(rule: string, n: nat)
    requires n <= |rule|
    ensures TextOf(CharTokens(rule)[..n]) == rule[..n]
  {
    if n > 0 {
      TextOfRule(rule, n - 1);
      assert CharTokens(rule)[..n][..n - 1] == CharTokens(rule)[..n - 1];
      assert rule[..n] == rule[..n - 1] + [rule[n - 1]];
      assert [rule[n - 1]] != NEWLINE;
    }
  }

  // The tokens of rules that stand for themselves read as the rules, one to a line.
  lemma {:induction false} TokensAreBlob(rules: seq<string>)
    requires forall i :: 0 <= i < |rules| ==> StandsForItself(rules[i])
    ensures AllTokensRead(Tokens(rules)) && TextOf(Tokens(rules)) == Blob(rules)
  {
    if rules != [] {
      hide CharTokens, TextOf, AllTokensRead;
      var n := |rules| - 1;
      TokensAreBlob(rules[..n]);
      var between := if n > 0 then [NEWLINE] else [];
      BreakReads(n > 0);
      RuleReads(rules[n]);
      PartsJoin(Tokens(rules[..n]), between);
      PartsJoin(Tokens(rules[..n]) + between, CharTokens(rules[n]));
    } else {
      BreakReads(false);
    }
  }

  // Runs of tokens are read one after the other.
  lemma PartsJoin(a: seq<string>, b: seq<string>)
    requires AllTokensRead(a) && AllTokensRead(b)
    ensures AllTokensRead(a + b) && TextOf(a + b) == TextOf(a) + TextOf(b)
  {
    TextOfConcat(a, b);
  }

  lemma RuleReads(rule: string)
    requires StandsForItself(rule)
    ensures AllTokensRead(CharTokens(rule)) && TextOf(CharTokens(rule)) == rule
  {
    TextOfRule(rule, |rule|);
    assert CharTokens(rule)[..|rule|] == CharTokens(rule) && rule[..|rule|] == rule;
  }

  lemma BreakReads(some: bool)
    ensures var between := if some then [NEWLINE] else [];
      AllTokensRead(between) && TextOf(between) == if some then "\n" else ""
  {
    assert [NEWLINE][..0] == [];
    assert TextOf([]) == "";
  }

  ghost function Quoted(lines: seq<string>): (r: seq<string>)
    ensures |r| == |lines|
  {
    seq(|lines|, i requires 0 <= i < |lines| => "\"" + lines[i] + "\"")
  }

  lemma {:induction false} LinesReadTokens(lines: seq<string>, groups: seq<seq<string>>)
    requires MadeOf(lines, groups) && AllTokensRead(Concat(groups))
    ensures ReadAll(Quoted(lines)) == Some(TextOf(Concat(groups)))
  {
    if lines != [] {
      var n := |lines| - 1;
      PartsRead(Concat(groups[..n]), groups[n]);
      LinesReadTokens(lines[..n], groups[..n]);
      TokensRead(groups[n]);
      TextOfConcat(Concat(groups[..n]), groups[n]);
      assert Quoted(lines)[..n] == Quoted(lines[..n]);
      assert Quoted(lines)[n][1..|Quoted(lines)[n]| - 1] == lines[n];
    }
  }

  lemma PartsRead(a: seq<string>, b: seq<string>)
    requires AllTokensRead(a + b)
    ensures AllTokensRead(a) && AllTokensRead(b)
  {
    forall i | 0 <= i < |a|
      ensures a[i] == NEWLINE || (|a[i]| == 1 && StandsForItself(a[i]))
    {
      assert (a + b)[i] == a[i];
    }
    forall i | 0 <= i < |b|
      ensures b[i] == NEWLINE || (|b[i]| == 1 && StandsForItself(b[i]))
    {
      assert (a + b)[|a| + i] == b[i];
    }
  }

  // The length of a text with every newline counted twice, as it is written.
  function Weight(s: string): nat {
    |s| + multiset(s)['\n']
  }

  lemma WeightConcat(a: string, b: string)
    ensures Weight(a + b) == Weight(a) + Weight(b)
  {
  }

  // Reading takes no text to a heavier one, and to one as heavy only if nothing but newlines was
  // escaped.
  lemma {:induction false} ReadingCosts(body: string)
    requires Unescaped(body).Some?
    ensures var text := Unescaped(body).value;
      Weight(text) <= Weight(body) && (Weight(text) == Weight(body) ==> IsPlain(text))
    decreases |body|
  {
    hide Weight, ReadChar, IsPlain, Unescaped;
    if body != "" {
      FirstRead(body);
      CharCosts(body);
      var (c, n) := ReadChar(body).value;
      var rest := Unescaped(body[n..]).value;
      ReadingCosts(body[n..]);
      assert body == body[..n] + body[n..];
      WeightConcat(body[..n], body[n..]);
      WeightConcat([c], rest);
      PlainConcat([c], rest);
    } else {
      NothingRead();
    }
  }

  lemma NothingRead()
    ensures Unescaped("") == Some("") && IsPlain("")
  {
  }

  lemma FirstRead(body: string)
    requires body != "" && Unescaped(body).Some?
    ensures ReadChar(body).Some?
    ensures var (c, n) := ReadChar(body).value;
      && 0 < n <= |body| && Unescaped(body[n..]).Some?
      && Unescaped(body) == Some([c] + Unescaped(body[n..]).value)
  {
  }

  lemma PlainConcat(a: string, b: string)
    ensures IsPlain(a + b) <==> IsPlain(a) && IsPlain(b)
  {
    assert forall i :: 0 <= i < |a| ==> (a + b)[i] == a[i];
    assert forall i :: 0 <= i < |b| ==> (a + b)[|a| + i] == b[i];
  }

  lemma CharCosts(body: string)
    requires body != "" && ReadChar(body).Some?
    ensures var (c, n) := ReadChar(body).value;
      && n <= |body| && Weight([c]) <= Weight(body[..n])
      && (Weight([c]) == Weight(body[..n]) ==> IsPlain([c]))
  {
  }

  lemma {:induction false} LinesCost(lines: seq<string>)
    requires ReadAll(Quoted(lines)).Some?
    ensures var text := ReadAll(Quoted(lines)).value;
      Weight(text) <= Weight(Hex.Join(lines)) && (Weight(text) == Weight(Hex.Join(lines)) ==> IsPlain(text))
  {
    if lines != [] {
      hide Weight;
      var n := |lines| - 1;
      assert Quoted(lines)[..n] == Quoted(lines[..n]);
      assert Quoted(lines)[n][1..|Quoted(lines)[n]| - 1] == lines[n];
      LinesCost(lines[..n]);
      ReadingCosts(lines[n]);
      WeightConcat(ReadAll(Quoted(lines[..n])).value, Unescaped(lines[n]).value);
      WeightConcat(Hex.Join(lines[..n]), lines[n]);
    }
  }

  lemma {:induction false} JoinedTwice(lines: seq<string>, groups: seq<seq<string>>)
    requires MadeOf(lines, groups)
    ensures Hex.Join(lines) == Hex.Join(Concat(groups))
  {
    if lines != [] {
      var n := |lines| - 1;
      JoinedTwice(lines[..n], groups[..n]);
      Hex.JoinConcat(Concat(groups[..n]), groups[n]);
    }
  }

  // The tokens are as heavy as the text they stand for.
  lemma {:induction false} TokensWeigh(rules: seq<string>)
    ensures Weight(Hex.Join(Tokens(rules))) == Weight(Blob(rules))
  {
    if rules != [] {
      hide CharTokens, Weight;
      var n := |rules| - 1;
      TokensWeigh(rules[..n]);
      var between, gap := if n > 0 then [NEWLINE] else [], if n > 0 then "\n" else "";
      BreakWeighs(n > 0);
      Hex.JoinConcat(Tokens(rules[..n]) + between, CharTokens(rules[n]));
      Hex.JoinConcat(Tokens(rules[..n]), between);
      RuleJoins(rules[n], |rules[n]|);
      WeightConcat(Hex.Join(Tokens(rules[..n])) + Hex.Join(between), rules[n]);
      WeightConcat(Hex.Join(Tokens(rules[..n])), Hex.Join(between));
      WeightConcat(Blob(rules[..n]) + gap, rules[n]);
      WeightConcat(Blob(rules[..n]), gap);
    }
  }

  lemma BreakWeighs(some: bool)
    ensures Weight(Hex.Join(if some then [NEWLINE] else [])) == Weight(if some then "\n" else "")
  {
    assert [NEWLINE][..0] == [];
    assert Hex.Join([NEWLINE]) == "" + NEWLINE == NEWLINE;
  }

  lemma {:induction false} RuleJoins(rule: string, n: nat)
    requires n <= |rule|
    ensures Hex.Join(CharTokens(rule)[..n]) == rule[..n]
    ensures n == |rule| ==> Hex.Join(CharTokens(rule)) == rule
  {
    if n > 0 {
      RuleJoins(rule, n - 1);
      assert CharTokens(rule)[..n][..n - 1] == CharTokens(rule)[..n - 1];
      assert rule[..n] == rule[..n - 1] + [rule[n - 1]];
    }
    if n == |rule| {
      assert CharTokens(rule)[..n] == CharTokens(rule) && rule[..n] == rule;
    }
  }

  lemma {:induction false} PlainParts(rules: seq<string>)
    requires IsPlain(Blob(rules))
    ensures forall i :: 0 <= i < |rules| ==> IsPlain(rules[i])
  {
    if rules != [] {
      var n := |rules| - 1;
      var before := Blob(rules[..n]) + (if n > 0 then "\n" else "");
      assert Blob(rules) == before + rules[n];
      PlainConcat(before, rules[n]);
      PlainConcat(Blob(rules[..n]), if n > 0 then "\n" else "");
      PlainParts(rules[..n]);
    }
  }

  // Lines that read hold no raw control character.
  lemma {:induction false} LinesHaveNoControl(lines: seq<string>)
    requires ReadAll(Quoted(lines)).Some?
    ensures HasNoControl(Hex.Join(lines))
  {
    if lines != [] {
      var n := |lines| - 1;
      assert Quoted(lines)[..n] == Quoted(lines[..n]);
      assert Quoted(lines)[n][1..|Quoted(lines)[n]| - 1] == lines[n];
      LinesHaveNoControl(lines[..n]);
      NoRawControl(lines[n]);
    }
  }

  lemma {:induction false} ControlParts(rules: seq<string>)
    requires HasNoControl(Hex.Join(Tokens(rules)))
    ensures forall i :: 0 <= i < |rules| ==> HasNoControl(rules[i])
  {
    hide CharTokens, HasNoControl;
    if rules != [] {
      var n := |rules| - 1;
      var between := if n > 0 then [NEWLINE] else [];
      Hex.JoinConcat(Tokens(rules[..n]) + between, CharTokens(rules[n]));
      Hex.JoinConcat(Tokens(rules[..n]), between);
      RuleJoins(rules[n], |rules[n]|);
      ControlConcat(Hex.Join(Tokens(rules[..n])) + Hex.Join(between), rules[n]);
      ControlConcat(Hex.Join(Tokens(rules[..n])), Hex.Join(between));
      ControlParts(rules[..n]);
    }
  }

  lemma ControlConcat(a: string, b: string)
    ensures HasNoControl(a + b) <==> HasNoControl(a) && HasNoControl(b)
  {
    assert forall i :: 0 <= i < |a| ==> (a + b)[i] == a[i];
    assert forall i :: 0 <= i < |b| ==> (a + b)[|a| + i] == b[i];
  }

  // The lines between quotes read as the rules with a newline between any two exactly when every rule
  // stands for itself between quotes.
  lemma LinesReadIffRulesStand(rules: seq<string>, lines: seq<string>, groups: seq<seq<string>>)
    requires MadeOf(lines, groups) && Concat(groups) == Tokens(rules)
    ensures ReadAll(Quoted(lines)) == Some(Blob(rules)) <==> forall i :: 0 <= i < |rules| ==> StandsForItself(rules[i])
  {
    hide ReadAll, Tokens, Blob, Quoted, Concat, Hex.Join, Weight, IsPlain, HasNoControl;
    if forall i :: 0 <= i < |rules| ==> StandsForItself(rules[i]) {
      TokensAreBlob(rules);
      LinesReadTokens(lines, groups);
    }
    if ReadAll(Quoted(lines)) == Some(Blob(rules)) {
      LinesCost(lines);
      JoinedTwice(lines, groups);
      TokensWeigh(rules);
      PlainParts(rules);
      LinesHaveNoControl(lines);
      ControlParts(rules);
    }
  }

  // Three rules that do not read back: a quote, a backslash, and a raw control character.
  lemma FailingRules(rule: string, lines: seq<string>, groups: seq<seq<string>>)
    requires rule in {"a\"b", "a\\b", "a\U{1}b"}
    requires MadeOf(lines, groups) && Concat(groups) == Tokens([rule])
    ensures ReadAll(Quoted(lines)) != Some(Blob([rule]))
  {
    hide ReadAll, Quoted, Concat, Tokens, Blob;
    assert !StandsForItself(rule) by { assert rule[1] == '"' || rule[1] == '\\' || IsControl(rule[1]); }
    assert [rule][0] == rule;
    LinesReadIffRulesStand([rule], lines, groups);
  }

  // The whole: no line is longer than it may be, and no line ends where another token would have fitted.
  method Render(rules: seq<string>) returns (lines: seq<string>, ghost groups: seq<seq<string>>)
    ensures MadeOf(lines, groups) && Concat(groups) == Tokens(rules) && Packed(lines, groups)
    ensures ReadAll(Quoted(lines)) == Some(Blob(rules)) <==> forall i :: 0 <= i < |rules| ==> StandsForItself(rules[i])
  {
    var tokens := MakeTokens(rules);
    TokensAreShort(rules);
    lines, groups := Chunks(tokens);
    LinesReadIffRulesStand(rules, lines, groups);
  }

  lemma {:induction false} TokensAreShort(rules: seq<string>)
    ensures forall i :: 0 <= i < |Tokens(rules)| ==> 1 <= |Tokens(rules)[i]| <= 2
  {
    if rules != [] {
      TokensAreShort(rules[..|rules| - 1]);
    }
  }
}
