/** Bit strings, most significant bit first, and the arithmetic that connects them to numbers. */
module Bits {

  // A bit string. It is also a position in a code tree: the path from the root.
  type Path = seq<bool>

  function Pow2(n: nat): (r: nat)
    ensures r > 0
  {
    if n == 0 then 1 else 2 * Pow2(n - 1)
  }

  // Python's `x >> n`, which rounds towards minus infinity.
  function Shr(x: int, n: nat): int
    decreases n
  {
    if n == 0 then x else Shr(x / 2, n - 1)
  }

  // The low `width` bits of `value`: each is read with a shift and a mask.
  function ToBits(value: int, width: nat): (r: Path)
    ensures |r| == width
  {
    seq(width, i requires 0 <= i < width => Shr(value, width - 1 - i) % 2 == 1)
  }

  function FromBits(bits: Path): (r: nat) {
    if bits == [] then 0
    else 2 * FromBits(bits[..|bits| - 1]) + (if bits[|bits| - 1] then 1 else 0)
  }

  function Ones(n: nat): (r: Path)
    ensures |r| == n
    ensures forall i :: 0 <= i < n ==> r[i]
  {
    seq(n, i => true)
  }

  lemma {:induction false} ShrShr(x: int, a: nat, b: nat)
    ensures Shr(Shr(x, a), b) == Shr(x, a + b)
    decreases a
  {
    if a > 0 {
      ShrShr(x / 2, a - 1, b);
    }
  }

  // Shifting right drops the low bits and keeps the rest.
  lemma ToBitsShr(value: int, drop: nat, width: nat)
    requires drop <= width
    ensures ToBits(Shr(value, drop), width - drop) == ToBits(value, width)[..width - drop]
  {
    forall i | 0 <= i < width - drop
      ensures ToBits(Shr(value, drop), width - drop)[i] == ToBits(value, width)[i]
    {
      ShrShr(value, drop, width - drop - 1 - i);
    }
  }

  lemma LastBit(value: int, width: nat)
    requires width > 0
    ensures ToBits(value, width) == ToBits(value / 2, width - 1) + [value % 2 == 1]
  {
    forall i | 0 <= i < width - 1
      ensures ToBits(value, width)[i] == ToBits(value / 2, width - 1)[i]
    {
      assert Shr(value, width - 1 - i) == Shr(value / 2, width - 2 - i);
    }
    assert Shr(value, 0) == value;
    var r := ToBits(value / 2, width - 1) + [value % 2 == 1];
    assert forall i :: 0 <= i < width - 1 ==> r[i] == ToBits(value / 2, width - 1)[i];
  }

  lemma {:induction false} ShrZero(value: int, n: nat)
    ensures Shr(value, n) == 0 <==> 0 <= value < Pow2(n)
    decreases n
  {
    if n > 0 {
      ShrZero(value / 2, n - 1);
    }
  }

  lemma {:induction false} FromToBits(value: int, width: nat)
    requires Shr(value, width) == 0
    ensures FromBits(ToBits(value, width)) == value
    decreases width
  {
    if width > 0 {
      LastBit(value, width);
      FromToBits(value / 2, width - 1);
      assert ToBits(value, width)[..width - 1] == ToBits(value / 2, width - 1);
    }
  }

  lemma {:induction false} ToFromBits(bits: Path)
    ensures 0 <= FromBits(bits) < Pow2(|bits|)
    ensures ToBits(FromBits(bits), |bits|) == bits
  {
    if bits != [] {
      ToFromBits(bits[..|bits| - 1]);
      LastBit(FromBits(bits), |bits|);
    }
  }

  lemma {:induction false} ToBitsConcat(hi: int, lo: int, a: nat, b: nat)
    requires 0 <= lo < Pow2(b)
    ensures ToBits(hi * Pow2(b) + lo, a + b) == ToBits(hi, a) + ToBits(lo, b)
    decreases b
  {
    if b > 0 {
      var v := hi * Pow2(b) + lo;
      assert hi * Pow2(b) == 2 * (hi * Pow2(b - 1));
      assert v / 2 == hi * Pow2(b - 1) + lo / 2 && v % 2 == lo % 2;
      ToBitsConcat(hi, lo / 2, a, b - 1);
      LastBit(v, a + b);
      LastBit(lo, b);
    }
  }

  lemma Pow2OfByte()
    ensures Pow2(8) == 256
  {
    assert Pow2(8) == 16 * Pow2(4);
  }

  lemma {:induction false} Pow2Add(a: nat, b: nat)
    ensures Pow2(a + b) == Pow2(a) * Pow2(b)
  {
    if a > 0 {
      Pow2Add(a - 1, b);
    }
  }

  lemma {:induction false} Pow2Monotone(a: nat, b: nat)
    requires a <= b
    ensures Pow2(a) <= Pow2(b)
  {
    if a < b {
      Pow2Monotone(a, b - 1);
    }
  }

  // Below a path lie the path itself and what is below either of its two children.
  lemma Branches(p: Path, q: Path)
    ensures p <= q <==> p == q || p + [false] <= q || p + [true] <= q
    ensures !(p + [false] <= q && p + [true] <= q)
    ensures p <= q && p != q ==> p + [q[|p|]] <= q
    ensures !(p + [false] <= p) && !(p + [true] <= p)
  {
    if p + [false] <= q {
      assert (p + [false])[|p|] == q[|p|];
    }
    if p + [true] <= q {
      assert (p + [true])[|p|] == q[|p|];
    }
    if p <= q && p != q {
      assert |p| < |q|;
      assert q[..|p| + 1] == p + [q[|p|]];
      if q[|p|] {
        assert p + [true] <= q;
      } else {
        assert p + [false] <= q;
      }
    }
  }

  // The upper and the lower part of a number.
  lemma ToBitsSplit(value: int, a: nat, b: nat)
    ensures ToBits(value, a + b) == ToBits(Shr(value, b), a) + ToBits(value, b)
  {
    ToBitsShr(value, b, a + b);
    var whole := ToBits(value, a + b);
    assert whole[a..] == ToBits(value, b);
    assert whole == whole[..a] + whole[a..];
  }

  // Cutting a number down to a word does not change the bits within the word.
  lemma {:induction false} ToBitsMod(value: int, width: nat, word: nat)
    requires width <= word
    ensures ToBits(value % Pow2(word), width) == ToBits(value, width)
    decreases width
  {
    if width > 0 {
      var cut := value % Pow2(word);
      ModHalf(value, Pow2(word - 1));
      ToBitsMod(value / 2, width - 1, word - 1);
      LastBit(value, width);
      LastBit(cut, width);
    }
  }

  lemma ModHalf(value: int, half: nat)
    requires half > 0
    ensures (value % (2 * half)) / 2 == (value / 2) % half
    ensures (value % (2 * half)) % 2 == value % 2
  {
    var q, r := value / (2 * half), value % (2 * half);
    assert value == 2 * (half * q) + r;
    assert value / 2 == half * q + r / 2;
    ModUnique(value / 2, half, q, r / 2);
  }

  lemma ModUnique(value: int, d: nat, q: int, r: int)
    requires d > 0 && 0 <= r < d && value == d * q + r
    ensures value % d == r
  {
    var q', r' := value / d, value % d;
    assert d * (q - q') == r' - r;
    NoSmallMultiple(d, q - q');
  }

  lemma NoSmallMultiple(d: int, k: int)
    requires d > 0
    ensures -d < d * k < d ==> k == 0
  {
    if k >= 1 {
      assert d * k >= d;
    } else if k <= -1 {
      assert d * k <= -d;
    }
  }

  lemma {:induction false} ToBitsOnes(n: nat)
    ensures ToBits(Pow2(n) - 1, n) == Ones(n)
  {
    if n > 0 {
      ToBitsOnes(n - 1);
      LastBit(Pow2(n) - 1, n);
      assert (Pow2(n) - 1) / 2 == Pow2(n - 1) - 1 && (Pow2(n) - 1) % 2 == 1;
    }
  }

  lemma SliceOfSlice<T>(s: seq<T>, a: nat, b: nat, c: nat, d: nat)
    requires a <= b <= |s| && c <= d <= b - a
    ensures s[a..b][c..d] == s[a + c..a + d]
  {
    var t := s[a..b];
    assert forall i :: 0 <= i < d - c ==> t[c..d][i] == t[c + i] == s[a + c + i];
  }

  type byte = x: int | 0 <= x < 256

  // The bits of a string of bytes.
  function BitsOf(data: seq<byte>): (r: Path)
    ensures |r| == 8 * |data|
  {
    if data == [] then [] else BitsOf(data[..|data| - 1]) + ToBits(data[|data| - 1], 8)
  }

  lemma BitsOfAppend(data: seq<byte>, b: byte)
    ensures BitsOf(data + [b]) == BitsOf(data) + ToBits(b, 8)
  {
    assert (data + [b])[..|data|] == data;
  }

  lemma {:induction false} BitsOfByte(data: seq<byte>, i: nat)
    requires i < |data|
    ensures BitsOf(data)[8 * i..8 * i + 8] == ToBits(data[i], 8)
  {
    var n := |data| - 1;
    if i < n {
      BitsOfByte(data[..n], i);
      assert BitsOf(data)[8 * i..8 * i + 8] == BitsOf(data[..n])[8 * i..8 * i + 8];
    }
  }

  // A byte string is known by its bits.
  lemma {:induction false} BitsOfInjective(a: seq<byte>, b: seq<byte>)
    requires BitsOf(a) == BitsOf(b)
    ensures a == b
  {
    forall i | 0 <= i < |a|
      ensures a[i] == b[i]
    {
      BitsOfByte(a, i);
      BitsOfByte(b, i);
      ShrZero(a[i], 8);
      ShrZero(b[i], 8);
      assert Pow2(8) == 256;
      FromToBits(a[i], 8);
      FromToBits(b[i], 8);
    }
  }
}
