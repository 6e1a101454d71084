/** Strings in their order, and the built-in operations on them that the comparator uses. */
module Text {

  // The order of strings, by their characters.
  predicate Less(a: string, b: string) {
    b != "" && (a == "" || a[0] < b[0] || (a[0] == b[0] && Less(a[1..], b[1..])))
  }

  lemma {:induction false} LessIsTotal(a: string, b: string)
    ensures a == b || Less(a, b) || Less(b, a)
    ensures !(Less(a, b) && Less(b, a)) && !Less(a, a)
  {
    if a != "" && b != "" {
      LessIsTotal(a[1..], b[1..]);
      if a[0] == b[0] && a[1..] == b[1..] {
        assert a == [a[0]] + a[1..] == b;
      }
    }
    if a != "" {
      LessIsTotal(a[1..], a[1..]);
    }
  }

  lemma {:induction false} LessIsTransitive(a: string, b: string, c: string)
    requires Less(a, b) && Less(b, c)
    ensures Less(a, c)
  {
    if a != "" && a[0] == b[0] == c[0] {
      LessIsTransitive(a[1..], b[1..], c[1..]);
    }
  }

  // Two strings agree up to a place where one has a smaller character, or ends.
  ghost predicate IsLessAt(a: string, b: string, k: nat) {
    k <= |a| && k < |b| && a[..k] == b[..k] && (k == |a| || a[k] as int < b[k] as int)
  }

  lemma {:induction false} LessMeans(a: string, b: string)
    ensures Less(a, b) <==> exists k: nat :: IsLessAt(a, b, k)
  {
    if Less(a, b) {
      var k := LessSomewhere(a, b);
    }
    forall k: nat | IsLessAt(a, b, k)
      ensures Less(a, b)
    {
      LessThere(a, b, k);
    }
  }

  lemma {:induction false} LessSomewhere(a: string, b: string) returns (k: nat)
    requires Less(a, b)
    ensures IsLessAt(a, b, k)
  {
    k := 0;
    if a != "" && a[0] == b[0] {
      k := LessSomewhere(a[1..], b[1..]);
      FirstAndNext(a, k);
      FirstAndNext(b, k);
      k := k + 1;
    }
  }

  lemma FirstAndNext(s: string, k: nat)
    requires k < |s|
    ensures s[..k + 1] == [s[0]] + s[1..][..k] && s[k + 1..] == s[1..][k..]
  {
  }

  lemma {:induction false} LessThere(a: string, b: string, k: nat)
    requires IsLessAt(a, b, k)
    ensures Less(a, b)
    decreases k
  {
    if k > 0 {
      assert a[0] == a[..k][0] == b[..k][0] == b[0];
      assert a[1..][..k - 1] == a[..k][1..] == b[..k][1..] == b[1..][..k - 1];
      LessThere(a[1..], b[1..], k - 1);
    }
  }

  ghost predicate Ascending(s: seq<string>) {
    forall i, j :: 0 <= i < j < |s| ==> Less(s[i], s[j])
  }

  // The members of a set in order. Insertion stands for the built-in sort.
  method Sorted(all: set<string>) returns (out: seq<string>)
    ensures Ascending(out) && forall n :: n in out <==> n in all
  {
    out := [];
    var left := all;
    while left != {}
      invariant Ascending(out) && left <= all && forall n :: n in out <==> n in all - left
      decreases left
    {
      var n :| n in left;
      left := left - {n};
      out := Insert(out, n);
    }
  }

  method Insert(s: seq<string>, n: string) returns (out: seq<string>)
    requires Ascending(s) && n !in s
    ensures Ascending(out) && forall m :: m in out <==> m in s || m == n
  {
    var at := 0;
    while at < |s| && Less(s[at], n)
      invariant 0 <= at <= |s| && forall i :: 0 <= i < at ==> Less(s[i], n)
    {
      at := at + 1;
    }
    forall i | at <= i < |s|
      ensures Less(n, s[i])
    {
      LessIsTotal(s[at], n);
      assert s[at] in s;
      if i > at {
        LessIsTransitive(n, s[at], s[i]);
      }
    }
    out := s[..at] + [n] + s[at..];
  }

  predicate StartsWith(s: string, mark: string) {
    |mark| <= |s| && s[..|mark|] == mark
  }

  lemma OtherStart(s: string, mark: string)
    requires s != "" && mark != "" && s[0] != mark[0]
    ensures !StartsWith(s, mark)
  {
    if |mark| <= |s| {
      assert s[..|mark|][0] == s[0];
    }
  }

  // No occurrence of `mark` lies partly in `w` and partly in `rest`: what meets there is not in it.
  ghost predicate Apart(w: string, rest: string, mark: string) {
    w != "" && rest != "" ==>
      forall k :: 0 <= k < |mark| - 1 ==> !(mark[k] == w[|w| - 1] && mark[k + 1] == rest[0])
  }

  lemma StartsAt(s: string, mark: string)
    ensures StartsWith(s, mark) <==> |mark| <= |s| && forall i :: 0 <= i < |mark| ==> mark[i] == s[i]
  {
  }

  // Such an occurrence would begin in `w`, and there is none in it.
  lemma NoStart(w: string, rest: string, mark: string)
    requires w != "" && mark != "" && !StartsWith(w, mark) && Apart(w, rest, mark)
    ensures !StartsWith(w + rest, mark)
  {
    StartsAt(w + rest, mark);
    assert |mark| <= |w| ==> (w + rest)[..|mark|] == w[..|mark|];
    assert |w| < |mark| <= |w + rest| ==> !(mark[|w| - 1] == w[|w| - 1] && mark[|w|] == rest[0]);
  }

  // What stands before and after the first `mark`; all of it before, when there is none.
  function Partition(s: string, mark: string): (r: (string, string))
    ensures |r.0| + |r.1| <= |s|
    ensures mark != "" && s != "" ==> |r.1| < |s|
  {
    if s == "" then ("", "")
    else if StartsWith(s, mark) then ("", s[|mark|..])
    else
      var r := Partition(s[1..], mark);
      ([s[0]] + r.0, r.1)
  }

  predicate Contains(s: string, mark: string) {
    if StartsWith(s, mark) then true else s != "" && Contains(s[1..], mark)
  }

  // The text does not go on with `mark` from any of its first `n` places.
  ghost predicate NoneBefore(s: string, mark: string, n: nat) {
    forall i :: 0 <= i < n && i <= |s| ==> !StartsWith(s[i..], mark)
  }

  // The first occurrence is where a text is parted, and there is one exactly when it is contained.
  lemma {:induction false} PartitionMeans(s: string, mark: string)
    requires mark != ""
    ensures var (a, b) := Partition(s, mark);
      if Contains(s, mark) then s == a + mark + b && NoneBefore(s, mark, |a|)
      else a == s && b == "" && NoneBefore(s, mark, |s|)
  {
    hide StartsWith, NoneBefore;
    NothingBefore(s, mark);
    if StartsWith(s, mark) {
      MarkFirst(s, mark);
    } else if s != "" {
      PartitionMeans(s[1..], mark);
      var (a, b) := Partition(s[1..], mark);
      Prepended(s[0], a, mark, b);
      Prepended(s[0], s[1..], "", "");
      NoneBeforeStep(s, mark, if Contains(s[1..], mark) then |a| else |s| - 1);
      assert s == [s[0]] + s[1..];
    } else {
      StartsAt(s, mark);
    }
  }

  lemma Prepended(c: char, a: string, mark: string, b: string)
    ensures [c] + (a + mark + b) == [c] + a + mark + b && [c] + a + "" + "" == [c] + a
  {
  }

  lemma NothingBefore(s: string, mark: string)
    ensures NoneBefore(s, mark, 0) && (s == "" ==> NoneBefore(s, mark, |s|))
  {
  }

  lemma NoneBeforeStep(s: string, mark: string, n: nat)
    requires s != "" && !StartsWith(s, mark) && NoneBefore(s[1..], mark, n)
    ensures NoneBefore(s, mark, n + 1)
  {
    hide StartsWith;
    forall i | 0 <= i < n + 1 && i <= |s|
      ensures !StartsWith(s[i..], mark)
    {
      if i == 0 {
        assert s[0..] == s;
      } else {
        assert s[i..] == s[1..][i - 1..];
      }
    }
  }

  lemma MarkFirst(s: string, mark: string)
    requires StartsWith(s, mark)
    ensures s == "" + mark + s[|mark|..]
  {
  }

  // A mark with a character in it that the text does not have is not in the text.
  lemma {:induction false} NotInside(s: string, mark: string, c: char)
    requires c in mark && c !in s
    ensures !Contains(s, mark)
  {
    hide StartsWith;
    StartsAt(s, mark);
    if s != "" {
      NotInside(s[1..], mark, c);
    }
  }

  lemma {:induction false} NotAcross(w: string, rest: string, mark: string)
    requires mark != "" && !Contains(w, mark) && !Contains(rest, mark) && Apart(w, rest, mark)
    ensures !Contains(w + rest, mark)
    decreases |w|
  {
    hide StartsWith;
    if w == "" {
      assert w + rest == rest;
    } else {
      NoStart(w, rest, mark);
      assert (w + rest)[1..] == w[1..] + rest;
      NotAcross(w[1..], rest, mark);
    }
  }

  lemma {:induction false} InsideOf(before: string, mark: string, rest: string)
    ensures Contains(before + mark + rest, mark)
  {
    var s := before + mark + rest;
    if before == "" {
      assert s[..|mark|] == mark;
    } else {
      assert s[1..] == before[1..] + mark + rest;
      InsideOf(before[1..], mark, rest);
    }
  }

  function Split(s: string, mark: string): (r: seq<string>)
    requires mark != ""
    ensures r != []
    decreases |s|
  {
    if s != "" && Contains(s, mark) then
      var (first, rest) := Partition(s, mark);
      [first] + Split(rest, mark)
    else [s]
  }

  // Every `mark` replaced, from the front.
  function Replace(s: string, mark: string, patch: string): string
    requires mark != ""
    decreases |s|
  {
    if s == "" then ""
    else if StartsWith(s, mark) then patch + Replace(s[|mark|..], mark, patch)
    else [s[0]] + Replace(s[1..], mark, patch)
  }

  // Pieces with something between any two.
  function Glued(pieces: seq<string>, between: string): string
    requires pieces != []
  {
    if |pieces| == 1 then pieces[0] else pieces[0] + between + Glued(pieces[1..], between)
  }

  function Prefixed(head: string, r: (string, string)): (string, string) {
    (head + r.0, r.1)
  }

  lemma {:induction false} PartitionPast(text: string, rest: string, mark: string)
    requires mark != "" && forall i :: 0 <= i < |text| ==> text[i] != mark[0]
    ensures Partition(text + rest, mark) == Prefixed(text, Partition(rest, mark))
    ensures Contains(text + rest, mark) == Contains(rest, mark)
  {
    if text == "" {
      assert text + rest == rest;
      assert Partition(rest, mark).0 == "" + Partition(rest, mark).0;
    } else {
      OtherStart(text + rest, mark);
      assert (text + rest)[1..] == text[1..] + rest;
      PartitionPast(text[1..], rest, mark);
      assert [text[0]] + (text[1..] + Partition(rest, mark).0) == text + Partition(rest, mark).0;
    }
  }

  lemma MarkFound(mark: string, rest: string)
    requires mark != ""
    ensures Partition(mark + rest, mark) == ("", rest) && Contains(mark + rest, mark)
  {
    assert (mark + rest)[..|mark|] == mark && (mark + rest)[|mark|..] == rest;
  }

  // Pieces come back where none has a character that the mark begins with.
  lemma {:induction false} GluedSplits(pieces: seq<string>, mark: string)
    requires pieces != [] && mark != "" && forall i :: 0 <= i < |pieces| ==> mark[0] !in pieces[i]
    ensures Split(Glued(pieces, mark), mark) == pieces
  {
    hide Partition, Contains;
    var first := pieces[0];
    assert forall i :: 0 <= i < |first| ==> first[i] in first;
    assert first + "" == first;
    if |pieces| == 1 {
      PartitionPast(first, "", mark);
      NothingInNothing(mark);
      assert pieces == [first];
    } else {
      var rest := Glued(pieces[1..], mark);
      MarkFound(mark, rest);
      PartitionPast(first, mark + rest, mark);
      assert first + (mark + rest) == Glued(pieces, mark);
      GluedSplits(pieces[1..], mark);
      assert [first] + pieces[1..] == pieces;
    }
  }

  lemma NothingInNothing(mark: string)
    requires mark != ""
    ensures !Contains("", mark)
  {
  }

  lemma {:induction false} GluedAppend(pieces: seq<string>, piece: string, between: string)
    requires pieces != []
    ensures Glued(pieces + [piece], between) == Glued(pieces, between) + between + piece
  {
    var more := pieces + [piece];
    if |pieces| == 1 {
      assert more[1..] == [piece];
    } else {
      GluedAppend(pieces[1..], piece, between);
      assert more[1..] == pieces[1..] + [piece];
      var tail := Glued(pieces[1..], between);
      assert pieces[0] + between + (tail + between + piece) == pieces[0] + between + tail + between + piece;
    }
  }

  lemma {:induction false} PartitionGlues(s: string, mark: string, patch: string)
    requires mark != "" && Contains(s, mark)
    ensures var (first, rest) := Partition(s, mark);
      |rest| < |s| && Replace(s, mark, patch) == first + patch + Replace(rest, mark, patch)
  {
    if !StartsWith(s, mark) {
      PartitionGlues(s[1..], mark, patch);
      var (first, rest) := Partition(s[1..], mark);
      var tail := Replace(rest, mark, patch);
      assert [s[0]] + (first + patch + tail) == [s[0]] + first + patch + tail;
    } else {
      assert "" + patch == patch;
    }
  }

  lemma {:induction false} NothingReplaced(s: string, mark: string, patch: string)
    requires mark != "" && !Contains(s, mark)
    ensures Replace(s, mark, patch) == s
  {
    if s != "" {
      NothingReplaced(s[1..], mark, patch);
      assert [s[0]] + s[1..] == s;
    }
  }

  // Replacing a mark is putting the patch between the pieces that splitting at the mark gives.
  lemma {:induction false} ReplaceIsGlue(s: string, mark: string, patch: string)
    requires mark != ""
    ensures Replace(s, mark, patch) == Glued(Split(s, mark), patch)
    decreases |s|
  {
    hide Replace, Partition, Contains;
    if s != "" && Contains(s, mark) {
      var (first, rest) := Partition(s, mark);
      PartitionGlues(s, mark, patch);
      ReplaceIsGlue(rest, mark, patch);
      assert ([first] + Split(rest, mark))[1..] == Split(rest, mark);
    } else {
      NoMark(s, mark, patch);
    }
  }

  lemma NoMark(s: string, mark: string, patch: string)
    requires mark != "" && (s == "" || !Contains(s, mark))
    ensures Replace(s, mark, patch) == s
  {
    if s != "" {
      NothingReplaced(s, mark, patch);
    }
  }

  lemma {:induction false} ReplaceKeepsLength(s: string, mark: string, patch: string)
    requires mark != "" && |patch| == |mark|
    ensures |Replace(s, mark, patch)| == |s|
    decreases |s|
  {
    if s != "" {
      if StartsWith(s, mark) {
        ReplaceKeepsLength(s[|mark|..], mark, patch);
      } else {
        ReplaceKeepsLength(s[1..], mark, patch);
      }
    }
  }

  predicate IsSpace(c: char) {
    c == ' ' || c == '\t' || c == '\n' || c == '\r' || c == '\U{0B}' || c == '\U{0C}'
  }

  // The six characters that are space in ASCII, by their numbers.
  lemma SpaceMeans(c: char)
    ensures IsSpace(c) <==> 9 <= c as int <= 13 || c as int == 32
  {
  }

  function Strip(s: string): string {
    if s == "" then ""
    else if IsSpace(s[0]) then Strip(s[1..])
    else if IsSpace(s[|s| - 1]) then Strip(s[..|s| - 1])
    else s
  }

  predicate IsTrimmed(s: string) {
    s == "" || (!IsSpace(s[0]) && !IsSpace(s[|s| - 1]))
  }

  // Stripping takes the space off both ends and nothing else.
  lemma {:induction false} StripPads(before: string, s: string, after: string)
    requires IsTrimmed(s) && (forall i :: 0 <= i < |before| ==> IsSpace(before[i]))
    requires forall i :: 0 <= i < |after| ==> IsSpace(after[i])
    ensures Strip(before + s + after) == s
    decreases |before| + |after|
  {
    var all := before + s + after;
    if before != "" {
      assert all[1..] == before[1..] + s + after;
      StripPads(before[1..], s, after);
    } else if after != "" {
      if s == "" {
        assert all[1..] == "" + s + after[1..];
        StripPads("", s, after[1..]);
      } else {
        assert all[..|all| - 1] == "" + s + after[..|after| - 1];
        StripPads("", s, after[..|after| - 1]);
      }
    } else {
      assert all == s;
    }
  }

  lemma LowerMeans(s: string, i: nat)
    requires i < |s|
    ensures Lower(s)[i] as int == s[i] as int + (if 'A' <= s[i] <= 'Z' then 32 else 0)
  {
  }

  function Lower(s: string): (r: string)
    ensures |r| == |s|
  {
    seq(|s|, i requires 0 <= i < |s| => if 'A' <= s[i] <= 'Z' then s[i] - 'A' + 'a' else s[i])
  }
}
