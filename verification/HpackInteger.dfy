/** HPACK integers, section 5.1 of RFC 7541: the writer, the standard's reader, and the bounded reader. */
module HpackInteger {
  import opened Bits
  import opened Wrappers

  const MAX_INTEGER := 0x7FFF_FFFF
  const MAX_OCTETS := 5

  // A value, and how many bytes it took.
  datatype Field = Field(value: nat, length: nat)

  // A mask leaves the bits of the prefix clear.
  ghost predicate IsMask(mask: byte, prefix: nat) {
    1 <= prefix <= 8 && mask % Pow2(prefix) == 0
  }

  function Limit(prefix: nat): (r: nat) {
    Pow2(prefix) - 1
  }

  // Seven bits to an octet, the low ones first, and a high bit on every octet but the last.
  function Octets(value: nat): (r: seq<byte>)
    ensures r != []
  {
    if value < 128 then [value] else [value % 128 + 128] + Octets(value / 128)
  }

  // The bits that are set in either of two numbers, among the low `width`.
  function Or(a: nat, b: nat, width: nat): (r: nat)
    ensures r < Pow2(width)
  {
    if width == 0 then 0
    else 2 * Or(a / 2, b / 2, width - 1) + (if a % 2 == 1 || b % 2 == 1 then 1 else 0)
  }

  function OrByte(a: nat, b: nat): byte {
    Pow2OfByte();
    Or(a, b, 8)
  }

  predicate IsPrefix(prefix: nat) {
    1 <= prefix <= 8
  }

  // The bytes of an integer under a prefix.
  function Encoding(value: nat, prefix: nat, mask: byte): (r: seq<byte>)
    ensures r != []
  {
    if value < Limit(prefix) then [OrByte(mask, value)]
    else [OrByte(mask, Limit(prefix))] + Octets(value - Limit(prefix))
  }

  lemma {:induction false} OrNothing(a: nat, width: nat)
    requires a < Pow2(width)
    ensures Or(a, 0, width) == a
    decreases width
  {
    if width > 0 {
      OrNothing(a / 2, width - 1);
    }
  }

  // Setting a value into clear bits adds it.
  lemma {:induction false} OrIsSum(a: nat, b: nat, clear: nat, width: nat)
    requires a < Pow2(width) && a % Pow2(clear) == 0 && b < Pow2(clear) && clear <= width
    ensures Or(a, b, width) == a + b
    decreases width
  {
    if clear == 0 {
      OrNothing(a, width);
    } else {
      ModHalf(a, Pow2(clear - 1));
      OrIsSum(a / 2, b / 2, clear - 1, width - 1);
    }
  }

  lemma DivDiv(x: nat, d: nat)
    requires d > 0
    ensures x / (2 * d) == (x / 2) / d
  {
    var q, r := (x / 2) / d, (x / 2) % d;
    assert x / 2 == d * q + r;
    var low := 2 * r + x % 2;
    assert x == 2 * d * q + low && 0 <= low < 2 * d;
    QuotientIs(x, 2 * d, q, low);
  }

  lemma QuotientIs(x: int, d: nat, q: int, r: int)
    requires d > 0 && 0 <= r < d && x == d * q + r
    ensures x / d == q
  {
    ModUnique(x, d, q, r);
    assert d * (x / d) == d * q;
    NoSmallMultiple(d, x / d - q);
  }

  // Setting low bits leaves the bits above them.
  lemma {:induction false} OrKeepsHigh(a: nat, b: nat, low: nat, width: nat)
    requires a < Pow2(width) && b < Pow2(low) && low <= width
    ensures Or(a, b, width) / Pow2(low) == a / Pow2(low)
    decreases width
  {
    if low == 0 {
      OrNothing(a, width);
    } else {
      OrKeepsHigh(a / 2, b / 2, low - 1, width - 1);
      DivDiv(a, Pow2(low - 1));
      DivDiv(Or(a, b, width), Pow2(low - 1));
      assert Or(a, b, width) / 2 == Or(a / 2, b / 2, width - 1);
    }
  }

  lemma OrInMask(mask: byte, prefix: nat, v: nat)
    requires IsMask(mask, prefix) && v <= Limit(prefix)
    ensures OrByte(mask, v) == mask + v
  {
    Pow2OfByte();
    OrIsSum(mask, v, prefix, 8);
  }

  lemma PrefixIsWide(prefix: nat)
    requires prefix >= 1
    ensures Pow2(prefix) > 1
  {
    assert Pow2(1) == 2;
    Pow2Monotone(1, prefix);
  }

  // The prefix bits of a byte that was put together from a mask and a value.
  lemma PrefixOf(mask: byte, prefix: nat, v: nat)
    requires IsMask(mask, prefix) && v <= Limit(prefix)
    ensures (mask + v) % Pow2(prefix) == v
  {
    hide Pow2;
    ModUnique(mask + v, Pow2(prefix), mask / Pow2(prefix), v);
  }

  lemma OctetsStep(out: seq<byte>, left: nat)
    ensures out + Octets(left) ==
      if left < 128 then out + [left] else out + [left % 128 + 128] + Octets(left / 128)
  {
  }

  method Integer(value: nat, prefix: nat, mask: byte) returns (out: seq<byte>)
    requires IsPrefix(prefix)
    ensures out == Encoding(value, prefix, mask)
  {
    hide Octets, OrByte, Pow2;
    var limit := Pow2(prefix) - 1;
    if value < limit {
      return [OrByte(mask, value)];
    }
    out := [OrByte(mask, limit)];
    var left: nat := value - limit;
    while left >= 128
      invariant out + Octets(left) == Encoding(value, prefix, mask)
    {
      OctetsStep(out, left);
      out := out + [left % 128 + 128];
      left := left / 128;
    }
    OctetsStep(out, left);
    out := out + [left];
  }

  // The octets as the standard reads them.
  function ReadOctets(b: seq<byte>): Option<Field> {
    if b == [] then None
    else if b[0] < 128 then Some(Field(b[0], 1))
    else
      match ReadOctets(b[1..])
      case None => None
      case Some(f) => Some(Field(b[0] - 128 + 128 * f.value, f.length + 1))
  }

  function Read(b: seq<byte>, prefix: nat): Option<Field> {
    if b == [] then None
    else if b[0] % Pow2(prefix) < Limit(prefix) then Some(Field(b[0] % Pow2(prefix), 1))
    else
      match ReadOctets(b[1..])
      case None => None
      case Some(f) => Some(Field(Limit(prefix) + f.value, f.length + 1))
  }

  lemma {:induction false} OctetsRead(value: nat, rest: seq<byte>)
    ensures ReadOctets(Octets(value) + rest) == Some(Field(value, |Octets(value)|))
  {
    if value >= 128 {
      OctetsRead(value / 128, rest);
      assert (Octets(value) + rest)[1..] == Octets(value / 128) + rest;
    }
  }

  ghost predicate ReadsBack(value: nat, prefix: nat, mask: byte, rest: seq<byte>) {
    Read(Encoding(value, prefix, mask) + rest, prefix) == Some(Field(value, |Encoding(value, prefix, mask)|))
  }

  // The encoding says itself where it ends: read with anything after it, it gives the value back and
  // leaves what follows.
  lemma EncodingReads(value: nat, prefix: nat, mask: byte, rest: seq<byte>)
    requires IsMask(mask, prefix)
    ensures ReadsBack(value, prefix, mask, rest)
  {
    hide Pow2, Octets, ReadOctets, OrByte;
    var e := Encoding(value, prefix, mask);
    if value < Limit(prefix) {
      OrInMask(mask, prefix, value);
      PrefixOf(mask, prefix, value);
    } else {
      OrInMask(mask, prefix, Limit(prefix));
      PrefixOf(mask, prefix, Limit(prefix));
      OctetsRead(value - Limit(prefix), rest);
      assert (e + rest)[1..] == Octets(value - Limit(prefix)) + rest;
    }
  }

  // The bits above the prefix are those of the mask.
  lemma MaskIsKept(value: nat, prefix: nat, mask: byte)
    requires IsPrefix(prefix)
    ensures Encoding(value, prefix, mask)[0] as int / Pow2(prefix) == mask as int / Pow2(prefix)
  {
    hide Pow2, Or, Octets;
    Pow2OfByte();
    OrKeepsHigh(mask, if value < Limit(prefix) then value else Limit(prefix), prefix, 8);
  }

  // The examples of section C.1 of RFC 7541.
  lemma Examples()
    ensures Encoding(10, 5, 0) == [10] && Encoding(1337, 5, 0) == [31, 154, 10] && Encoding(42, 8, 0) == [42]
  {
    Pow2OfByte();
    assert Pow2(5) == 32;
    OrOfNothing();
    hide Or;
    assert Octets(1306) == [154] + Octets(10) && Octets(10) == [10];
  }

  lemma OrOfNothing()
    ensures OrByte(0, 10) == 10 && OrByte(0, 31) == 31 && OrByte(0, 42) == 42
  {
    assert Pow2(5) == 32 && Pow2(8) == 256;
    OrIsSum(0, 10, 5, 8);
    OrIsSum(0, 31, 5, 8);
    OrIsSum(0, 42, 8, 8);
  }

  // Only so: a mask with a bit set where the prefix stands does not give back even zero.
  lemma ReadsBackIffMask(prefix: nat, mask: byte)
    requires IsPrefix(prefix)
    ensures IsMask(mask, prefix) <==>
      forall value: nat, rest: seq<byte> :: ReadsBack(value, prefix, mask, rest)
  {
    hide ReadsBack, IsMask;
    if IsMask(mask, prefix) {
      forall value: nat, rest: seq<byte>
        ensures ReadsBack(value, prefix, mask, rest)
      {
        EncodingReads(value, prefix, mask, rest);
      }
    }
    ZeroNeedsMask(prefix, mask);
    assert (forall value: nat, rest: seq<byte> :: ReadsBack(value, prefix, mask, rest))
      ==> ReadsBack(0, prefix, mask, []);
  }

  lemma ZeroNeedsMask(prefix: nat, mask: byte)
    requires IsPrefix(prefix)
    ensures ReadsBack(0, prefix, mask, []) ==> IsMask(mask, prefix)
  {
    PrefixIsWide(prefix);
    Pow2OfByte();
    OrNothing(mask, 8);
    assert Encoding(0, prefix, mask) + [] == [mask];
  }

  // No encoding is a prefix of another.
  lemma EncodingsArePrefixFree(v: nat, w: nat, prefix: nat, mask: byte)
    requires IsMask(mask, prefix) && Encoding(v, prefix, mask) <= Encoding(w, prefix, mask)
    ensures v == w
  {
    var a, b := Encoding(v, prefix, mask), Encoding(w, prefix, mask);
    assert a + b[|a|..] == b == b + [];
    EncodingReads(v, prefix, mask, b[|a|..]);
    EncodingReads(w, prefix, mask, []);
  }

  lemma {:induction false} OctetsAreShortest(b: seq<byte>)
    ensures var f := ReadOctets(b); f.Some? ==> |Octets(f.value.value)| <= f.value.length <= |b|
  {
    if b != [] && b[0] >= 128 {
      OctetsAreShortest(b[1..]);
      var f := ReadOctets(b[1..]);
      if f.Some? {
        var v := b[0] - 128 + 128 * f.value.value;
        assert v / 128 == f.value.value;
        OctetsGrow(v);
      }
    }
  }

  lemma OctetsGrow(v: nat)
    ensures |Octets(v)| <= 1 + |Octets(v / 128)|
  {
  }

  // However a value was written under a prefix, the writer needs no more bytes for it.
  lemma EncodingIsShortest(b: seq<byte>, prefix: nat, mask: byte)
    requires IsPrefix(prefix) && Read(b, prefix).Some?
    ensures var f := Read(b, prefix).value; |Encoding(f.value, prefix, mask)| <= f.length <= |b|
  {
    OctetsAreShortest(b[1..]);
  }

  datatype Decoded = Ok(value: nat, after: nat) | BadPrefix | Truncated | TooManyOctets | TooLarge

  // What the bounded reader takes: a value it can hold, in no more octets than such a value needs.
  ghost predicate Acceptable(f: Option<Field>) {
    f.Some? && f.value.value <= MAX_INTEGER && f.value.length <= 1 + MAX_OCTETS
  }

  // What the low seven bits of the first `k` octets come to.
  ghost function Sum(b: seq<byte>, k: nat): nat
    requires k <= |b|
  {
    if k == 0 then 0 else Sum(b, k - 1) + Pow2(7 * (k - 1)) * (b[k - 1] % 128)
  }

  // The first `k` octets all announce another one, and have not come to too much.
  ghost predicate GoesOn(b: seq<byte>, k: nat, limit: nat) {
    k <= |b| && limit + Sum(b, k) <= MAX_INTEGER && forall i :: 0 <= i < k ==> b[i] >= 128
  }

  // Where the octets after a full prefix stop the bounded reader, and with which error.
  ghost predicate StopsIn(b: seq<byte>, limit: nat, r: Decoded) {
    match r
    case Ok(_, _) => false
    case BadPrefix => false
    case Truncated => |b| <= MAX_OCTETS && GoesOn(b, |b|, limit)
    case TooManyOctets => |b| > MAX_OCTETS && GoesOn(b, MAX_OCTETS, limit)
    case TooLarge => exists k :: TooLargeAt(b, limit, k)
  }

  ghost predicate TooLargeAt(b: seq<byte>, limit: nat, k: nat) {
    k < MAX_OCTETS && k < |b| && GoesOn(b, k, limit) && limit + Sum(b, k + 1) > MAX_INTEGER
  }

  ghost predicate Stops(b: seq<byte>, prefix: nat, r: Decoded) {
    if b == [] then r == Truncated
    else b[0] % Pow2(prefix) >= Limit(prefix) && StopsIn(b[1..], Limit(prefix), r)
  }

  function From(data: seq<byte>, at: nat): seq<byte> {
    if at <= |data| then data[at..] else []
  }

  // The whole of the octets, when `k` of them have been read and come to `part`.
  ghost function Shifted(part: nat, k: nat, rest: Option<Field>): Option<Field> {
    match rest
    case None => None
    case Some(f) => Some(Field(part + Pow2(7 * k) * f.value, f.length + k))
  }

  lemma NextShift(k: nat)
    ensures Pow2(7 * (k + 1)) == Pow2(7 * k) * 128
  {
    Pow2Add(7 * k, 7);
    assert Pow2(7) == 128;
  }

  lemma ShiftedStep(part: nat, k: nat, b: seq<byte>)
    requires b != []
    ensures var more := part + Pow2(7 * k) * (b[0] % 128);
      Shifted(part, k, ReadOctets(b)) ==
      if b[0] < 128 then Some(Field(more, k + 1)) else Shifted(more, k + 1, ReadOctets(b[1..]))
  {
    hide Pow2;
    if b[0] >= 128 {
      NextShift(k);
      ShiftedMore(part, k, b[0] - 128, ReadOctets(b[1..]));
    }
  }

  lemma ShiftedMore(part: nat, k: nat, low: nat, rest: Option<Field>)
    requires Pow2(7 * (k + 1)) == Pow2(7 * k) * 128
    ensures Shifted(part + Pow2(7 * k) * low, k + 1, rest) ==
      Shifted(part, k, match rest case None => None case Some(f) => Some(Field(low + 128 * f.value, f.length + 1)))
  {
    hide Pow2;
    if rest.Some? {
      Distribute(Pow2(7 * k), low, rest.value.value);
    }
  }

  lemma Distribute(p: nat, low: nat, v: nat)
    ensures p * (low + 128 * v) == p * low + p * 128 * v
  {
  }

  // The reader that bounds the number of octets and the value.
  method DecodeInteger(data: seq<byte>, at: nat, prefix: nat) returns (r: Decoded)
    ensures r.BadPrefix? <==> !(1 <= prefix <= 8)
    ensures r.Ok? <==> 1 <= prefix <= 8 && Acceptable(Read(From(data, at), prefix))
    ensures r.Ok? ==> r.after > at && Read(From(data, at), prefix) == Some(Field(r.value, r.after - at))
    ensures !r.Ok? && !r.BadPrefix? ==> Stops(From(data, at), prefix, r)
  {
    if prefix < 1 || prefix > 8 {
      return BadPrefix;
    }
    if at >= |data| {
      return Truncated;
    }
    var limit := Pow2(prefix) - 1;
    var value := data[at] % Pow2(prefix);
    if value < limit {
      SmallValue(prefix, value);
      return Ok(value, at + 1);
    }
    assert data[at..][1..] == data[at + 1..];
    r := DecodeOctets(data, at, prefix);
  }

  lemma SmallValue(prefix: nat, value: nat)
    requires 1 <= prefix <= 8 && value < Limit(prefix)
    ensures value <= MAX_INTEGER
  {
    Pow2Monotone(prefix, 8);
    assert Pow2(8) == 256;
  }

  // Where reading the octets has got to.
  ghost predicate Reading(data: seq<byte>, at: nat, limit: nat, next: nat, k: nat, value: nat) {
    && next == at + 1 + k <= |data| && k <= MAX_OCTETS && limit <= value <= MAX_INTEGER
    && GoesOn(data[at + 1..], k, limit) && value == limit + Sum(data[at + 1..], k)
    && ReadOctets(data[at + 1..]) == Shifted(value - limit, k, ReadOctets(data[next..]))
  }

  method DecodeOctets(data: seq<byte>, at: nat, prefix: nat) returns (r: Decoded)
    requires at < |data| && 1 <= prefix <= 8 && data[at] % Pow2(prefix) >= Limit(prefix)
    ensures r.Ok? <==> Acceptable(Read(data[at..], prefix))
    ensures r.Ok? ==> r.after > at && Read(data[at..], prefix) == Some(Field(r.value, r.after - at))
    ensures !r.Ok? ==> StopsIn(data[at + 1..], Limit(prefix), r)
  {
    hide Pow2, ReadOctets, Read, Sum, Shifted;
    var limit := Pow2(prefix) - 1;
    var value: nat, next, shift := limit, at + 1, 0;
    ghost var k := 0;
    StartsReading(data, at, prefix);
    while true
      invariant shift == 7 * k && Reading(data, at, limit, next, k, value)
      decreases |data| - next
    {
      ReadingStops(data, at, prefix, next, k, value);
      if next >= |data| {
        return Truncated;
      }
      if shift > 28 {
        return TooManyOctets;
      }
      var octet := data[next];
      var more := value + Pow2(shift) * (octet % 128);
      ReadingStep(data, at, prefix, next, k, value);
      next, value := next + 1, more;
      if value > MAX_INTEGER {
        return TooLarge;
      }
      if octet < 128 {
        return Ok(value, next);
      }
      shift, k := shift + 7, k + 1;
    }
  }

  lemma SumStep(b: seq<byte>, k: nat)
    requires k < |b|
    ensures Sum(b, k + 1) == Sum(b, k) + Pow2(7 * k) * (b[k] % 128)
  {
  }

  lemma StartsReading(data: seq<byte>, at: nat, prefix: nat)
    requires at < |data| && 1 <= prefix <= 8
    ensures Reading(data, at, Limit(prefix), at + 1, 0, Limit(prefix))
  {
    Pow2Monotone(prefix, 8);
    assert Pow2(8) == 256 && Pow2(0) == 1;
  }

  // Where there is nothing more to read, or too much has been read.
  lemma ReadingStops(data: seq<byte>, at: nat, prefix: nat, next: nat, k: nat, value: nat)
    requires at < |data| && IsPrefix(prefix) && data[at] % Pow2(prefix) >= Limit(prefix)
    requires Reading(data, at, Limit(prefix), next, k, value)
    ensures next == |data| || k == MAX_OCTETS ==> !Acceptable(Read(data[at..], prefix))
  {
    ReadIsOctets(data, at, prefix);
    hide Pow2, Read;
    if next == |data| {
      assert data[next..] == [] && ReadOctets([]) == None;
    } else {
      ShiftedIsLonger(value - Limit(prefix), k, data[next..]);
    }
  }

  lemma ShiftedIsLonger(part: nat, k: nat, b: seq<byte>)
    ensures var f := Shifted(part, k, ReadOctets(b)); f.Some? ==> f.value.length > k
  {
  }

  lemma ReadingStep(data: seq<byte>, at: nat, prefix: nat, next: nat, k: nat, value: nat)
    requires at < |data| && 1 <= prefix <= 8 && data[at] % Pow2(prefix) >= Limit(prefix)
    requires Reading(data, at, Limit(prefix), next, k, value) && next < |data| && k < MAX_OCTETS
    ensures var more := value + Pow2(7 * k) * (data[next] % 128);
      var whole := Read(data[at..], prefix);
      if more > MAX_INTEGER then !Acceptable(whole) && TooLargeAt(data[at + 1..], Limit(prefix), k)
      else if data[next] < 128 then whole == Some(Field(more, next + 1 - at)) && Acceptable(whole)
      else Reading(data, at, Limit(prefix), next + 1, k + 1, more)
  {
    hide Pow2, ReadOctets, Read, Shifted, Sum, Limit;
    assert data[next..][1..] == data[next + 1..] && data[next..][0] == data[next];
    SumStep(data[at + 1..], k);
    ReadIsOctets(data, at, prefix);
    ShiftedStep(value - Limit(prefix), k, data[next..]);
    var more := value + Pow2(7 * k) * (data[next] % 128);
    ShiftedGrows(more - Limit(prefix), k + 1, ReadOctets(data[next + 1..]));
  }

  lemma ReadIsOctets(data: seq<byte>, at: nat, prefix: nat)
    requires at < |data| && data[at] % Pow2(prefix) >= Limit(prefix)
    ensures Read(data[at..], prefix) ==
      match ReadOctets(data[at + 1..])
      case None => None
      case Some(f) => Some(Field(Limit(prefix) + f.value, f.length + 1))
  {
    hide Pow2, ReadOctets;
    assert data[at..][1..] == data[at + 1..];
  }

  lemma ShiftedGrows(part: nat, k: nat, rest: Option<Field>)
    ensures var f := Shifted(part, k, rest); f.Some? ==> f.value.value >= part && f.value.length >= k
  {
  }

  lemma {:induction false} OctetCount(v: nat, n: nat)
    requires n > 0 && v < Pow2(7 * n)
    ensures |Octets(v)| <= n
    decreases n
  {
    assert Pow2(7) == 128;
    if n > 1 {
      Pow2Add(7 * (n - 1), 7);
      if v >= 128 {
        OctetCount(v / 128, n - 1);
      }
    }
  }

  lemma ThirtyFiveBits()
    ensures Pow2(7 * MAX_OCTETS) > MAX_INTEGER
  {
    Pow2Add(28, 7);
    Pow2Add(14, 14);
    assert Pow2(7) == 128 && Pow2(14) == 16384;
  }

  // The bounded reader takes back what the writer writes, exactly up to the largest value of 31 bits.
  lemma BoundedReadsBack(value: nat, prefix: nat, mask: byte, rest: seq<byte>)
    requires IsMask(mask, prefix)
    ensures Acceptable(Read(Encoding(value, prefix, mask) + rest, prefix)) <==> value < 0x8000_0000
  {
    hide Pow2, Octets, Read;
    EncodingReads(value, prefix, mask, rest);
    if value <= MAX_INTEGER && value >= Limit(prefix) {
      ThirtyFiveBits();
      OctetCount(value - Limit(prefix), MAX_OCTETS);
    }
  }
}
