/** Hexadecimal as the generators print it, and as the readers take it back. */
module Hex {

  datatype Case = Upper | Lower

  function Digit(letters: Case, n: nat): char
    requires n < 16
  {
    if n < 10 then '0' + n as char
    else (if letters == Upper then 'A' else 'a') + (n - 10) as char
  }

  // The value of one digit in either case, or -1.
  function DigitValue(c: char): int {
    if '0' <= c <= '9' then c as int - '0' as int
    else if 'a' <= c <= 'f' then c as int - 'a' as int + 10
    else if 'A' <= c <= 'F' then c as int - 'A' as int + 10
    else -1
  }

  predicate IsDigit(c: char) {
    DigitValue(c) >= 0
  }

  // The value at the end of a run of digits. What is no digit counts as -1, as the reader has it.
  function Value(text: string): int {
    if text == "" then 0
    else Value(text[..|text| - 1]) * 16 + DigitValue(text[|text| - 1])
  }

  // `value` in at least `width` digits, more if it needs them.
  function Field(letters: Case, value: nat, width: nat): (r: string)
    ensures |r| >= width && |r| >= 1
    ensures Value(r) == value
    ensures forall i :: 0 <= i < |r| ==> IsDigit(r[i])
    decreases value, width
  {
    if value < 16 && width <= 1 then
      assert [Digit(letters, value)][..0] == "";
      [Digit(letters, value)]
    else
      var high := Field(letters, value / 16, if width == 0 then 0 else width - 1);
      assert (high + [Digit(letters, value % 16)])[..|high|] == high;
      high + [Digit(letters, value % 16)]
  }

  function Pow16(n: nat): (r: nat)
    ensures r > 0
  {
    if n == 0 then 1 else 16 * Pow16(n - 1)
  }

  // A field keeps its width exactly as long as the value fits.
  lemma {:induction false} FieldWidth(letters: Case, value: nat, width: nat)
    requires width > 0
    ensures |Field(letters, value, width)| == width <==> value < Pow16(width)
    decreases width
  {
    if width > 1 {
      FieldWidth(letters, value / 16, width - 1);
      assert Pow16(width) == 16 * Pow16(width - 1);
    } else if value >= 16 {
      assert |Field(letters, value / 16, 0)| >= 1;
    }
    assert Pow16(1) == 16 * Pow16(0);
  }

  // The letters are all of one case, and a number that is not padded has no zero before it.
  lemma {:induction false} FieldIsCanonical(letters: Case, value: nat, width: nat)
    ensures var r := Field(letters, value, width);
      && (forall i :: 0 <= i < |r| ==>
            '0' <= r[i] <= '9' || (if letters == Upper then 'A' <= r[i] <= 'F' else 'a' <= r[i] <= 'f'))
      && (width <= 1 ==> r == "0" || r[0] != '0')
    decreases value, width
  {
    if value >= 16 || width > 1 {
      FieldIsCanonical(letters, value / 16, if width == 0 then 0 else width - 1);
    }
  }

  // The reader of the tables: `width` digits from a place on.
  method At(text: string, at: nat, width: nat) returns (value: int)
    requires at + width <= |text|
    ensures value == Value(text[at..at + width])
  {
    value := 0;
    for i := at to at + width
      invariant value == Value(text[at..i])
    {
      assert text[at..i + 1][..i - at] == text[at..i];
      value := value * 16 + DigitValue(text[i]);
    }
  }

  // Records of one width, joined.
  function Join(records: seq<string>): string {
    if records == [] then "" else Join(records[..|records| - 1]) + records[|records| - 1]
  }

  lemma JoinAppend(records: seq<string>, record: string)
    ensures Join(records + [record]) == Join(records) + record
  {
    assert (records + [record])[..|records|] == records;
  }

  lemma {:induction false} JoinConcat(a: seq<string>, b: seq<string>)
    ensures Join(a + b) == Join(a) + Join(b)
  {
    if b == [] {
      assert a + b == a;
    } else {
      assert (a + b)[..|a + b| - 1] == a + b[..|b| - 1];
      JoinConcat(a, b[..|b| - 1]);
    }
  }

  ghost predicate AllOfWidth(records: seq<string>, width: nat) {
    forall i :: 0 <= i < |records| ==> |records[i]| == width
  }

  // The record at position n starts at n times the width.
  lemma {:induction false} RecordAt(records: seq<string>, width: nat, n: nat)
    requires AllOfWidth(records, width) && n < |records|
    ensures |Join(records)| == |records| * width
    ensures n * width + width <= |records| * width
    ensures Join(records)[n * width..n * width + width] == records[n]
  {
    JoinWidth(records, width);
    var last := |records| - 1;
    var rest := records[..last];
    JoinWidth(rest, width);
    PlaceFits(n, |records|, width);
    var at := n * width;
    if n < last {
      RecordAt(rest, width, n);
      assert Join(records)[at..at + width] == Join(rest)[at..at + width];
    } else {
      assert at == |Join(rest)|;
    }
  }

  lemma PlaceFits(n: nat, count: nat, width: nat)
    requires n < count
    ensures 0 <= n * width && n * width + width <= count * width
  {
    assert count * width == n * width + width + (count - n - 1) * width;
  }

  lemma {:induction false} JoinWidth(records: seq<string>, width: nat)
    requires AllOfWidth(records, width)
    ensures |Join(records)| == |records| * width
  {
    if records != [] {
      JoinWidth(records[..|records| - 1], width);
      assert |records| * width == (|records| - 1) * width + width;
    }
  }
}
