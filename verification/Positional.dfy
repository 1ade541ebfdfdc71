/** Bytes, and numbers written as digit sequences with the most significant digit first. */
module Positional {

  type byte = x: nat | x < 256

  function Pow(b: nat, n: nat): nat
  {
    if n == 0 then 1 else b * Pow(b, n - 1)
  }

  lemma {:induction false} PowPositive(b: nat, n: nat)
    requires b > 0
    ensures Pow(b, n) > 0
  {
    if n > 0 {
      PowPositive(b, n - 1);
    }
  }

  lemma MulAssociates(x: int, y: int, z: int)
    ensures x * (y * z) == (x * y) * z
  {
  }

  lemma {:induction false} PowAdd(b: nat, m: nat, n: nat)
    ensures Pow(b, m + n) == Pow(b, m) * Pow(b, n)
  {
    if m > 0 {
      PowAdd(b, m - 1, n);
      MulAssociates(b, Pow(b, m - 1), Pow(b, n));
    }
  }

  lemma {:induction false} PowMul(b: nat, m: nat, n: nat)
    ensures Pow(Pow(b, m), n) == Pow(b, m * n)
  {
    if n > 0 {
      PowMul(b, m, n - 1);
      PowAdd(b, m, m * (n - 1));
      assert m + m * (n - 1) == m * n;
    }
  }

  lemma {:induction false} PowMonotoneInBase(a: nat, b: nat, n: nat)
    requires a <= b
    ensures Pow(a, n) <= Pow(b, n)
  {
    if n > 0 {
      PowMonotoneInBase(a, b, n - 1);
      MulMonotone(a, b, Pow(a, n - 1), Pow(b, n - 1));
    }
  }

  lemma {:induction false} PowStrictInBase(a: nat, b: nat, n: nat)
    requires a < b && n > 0
    ensures Pow(a, n) < Pow(b, n)
  {
    PowMonotoneInBase(a, b, n - 1);
    PowPositive(b, n - 1);
    MulMonotone(a, b - 1, Pow(a, n - 1), Pow(b, n - 1));
    assert (b - 1) * Pow(b, n - 1) == b * Pow(b, n - 1) - Pow(b, n - 1);
  }

  lemma PowMonotoneInExponent(b: nat, m: nat, n: nat)
    requires b > 0 && m <= n
    ensures Pow(b, m) <= Pow(b, n)
  {
    PowAdd(b, m, n - m);
    PowPositive(b, n - m);
    MulMonotone(Pow(b, m), Pow(b, m), 1, Pow(b, n - m));
  }

  /** Comparing two powers settles the comparison of all their multiples in the exponent. */
  lemma PowScale(a: nat, b: nat, k: nat, l: nat, m: nat, n: nat, e: nat, f: nat)
    requires a > 0 && b > 0 && k > 0 && Pow(a, k) <= Pow(b, l)
    requires e == l * m && f == k * n && e <= f
    ensures Pow(a, m) <= Pow(b, n)
  {
    hide Pow;
    PowSwap(a, m, k);
    PowMonotoneInBase(Pow(a, k), Pow(b, l), m);
    PowMul(b, l, m);
    PowMonotoneInExponent(b, e, f);
    PowMul(b, k, n);
    PowSwap(b, n, k);
    PowReflectsOrder(Pow(a, m), Pow(b, n), k);
  }

  lemma PowReflectsOrder(x: nat, y: nat, k: nat)
    requires k > 0 && Pow(x, k) <= Pow(y, k)
    ensures x <= y
  {
    if y < x {
      PowStrictInBase(y, x, k);
    }
  }

  lemma PowSwap(b: nat, m: nat, n: nat)
    ensures Pow(Pow(b, m), n) == Pow(Pow(b, n), m)
  {
    PowMul(b, m, n);
    PowMul(b, n, m);
    MulCommutes(m, n);
  }

  lemma MulCommutes(m: int, n: int)
    ensures m * n == n * m
  {
  }

  lemma MulMonotone(a: nat, b: nat, c: nat, d: nat)
    requires a <= b && c <= d
    ensures a * c <= b * d
  {
    assert a * c <= a * d;
    assert a * d <= b * d;
  }

  /** The number a digit sequence denotes. */
  function Value(base: nat, s: seq<nat>): nat
  {
    if s == [] then 0 else Value(base, s[..|s| - 1]) * base + s[|s| - 1]
  }

  predicate IsDigits(base: nat, s: seq<nat>)
  {
    forall i :: 0 <= i < |s| ==> s[i] < base
  }

  predicate IsCanonical(base: nat, s: seq<nat>)
  {
    IsDigits(base, s) && (s == [] || s[0] != 0)
  }

  /** The shortest digit sequence that denotes `v`. */
  function ToDigits(base: nat, v: nat): seq<nat>
    requires base >= 2
  {
    if v == 0 then [] else ToDigits(base, v / base) + [v % base]
  }

  function Zeros(n: nat): (z: seq<byte>)
    ensures |z| == n && forall i :: 0 <= i < n ==> z[i] == 0
  {
    seq(n, _ => 0)
  }

  lemma {:induction false} ValueConcat(base: nat, s: seq<nat>, t: seq<nat>)
    ensures Value(base, s + t) == Value(base, s) * Pow(base, |t|) + Value(base, t)
    decreases |t|
  {
    if t == [] {
      assert s + t == s;
    } else {
      var t' := t[..|t| - 1];
      assert (s + t)[..|s + t| - 1] == s + t';
      ValueConcat(base, s, t');
      ShiftSum(base, Value(base, s), Pow(base, |t'|), Value(base, t'));
      assert (s + t)[|s + t| - 1] == t[|t| - 1];
    }
  }

  lemma ShiftSum(base: nat, v: nat, p: nat, w: nat)
    ensures (v * p + w) * base == v * (base * p) + w * base
  {
    assert v * p * base == v * (base * p);
  }

  lemma ValueSingle(base: nat, d: nat)
    ensures Value(base, [d]) == d
  {
    assert [d][..0] == [];
  }

  /** Splitting off the most significant digit. */
  lemma ValueFirst(base: nat, s: seq<nat>)
    requires s != []
    ensures Value(base, s) == s[0] * Pow(base, |s| - 1) + Value(base, s[1..])
  {
    ValueConcat(base, [s[0]], s[1..]);
    ValueSingle(base, s[0]);
    assert [s[0]] + s[1..] == s;
  }

  lemma {:induction false} ValueBound(base: nat, s: seq<nat>)
    requires IsDigits(base, s)
    ensures Value(base, s) < Pow(base, |s|)
  {
    if s != [] {
      var s' := s[..|s| - 1];
      ValueBound(base, s');
      MulMonotone(Value(base, s') + 1, Pow(base, |s'|), base, base);
      assert (Value(base, s') + 1) * base == Value(base, s') * base + base;
    }
  }

  lemma {:induction false} ValueOfZeros(base: nat, s: seq<nat>)
    requires forall i :: 0 <= i < |s| ==> s[i] == 0
    ensures Value(base, s) == 0
  {
    if s != [] {
      ValueOfZeros(base, s[..|s| - 1]);
    }
  }

  lemma ValueLeadingZeros(base: nat, z: seq<nat>, s: seq<nat>)
    requires forall i :: 0 <= i < |z| ==> z[i] == 0
    ensures Value(base, z + s) == Value(base, s)
  {
    ValueConcat(base, z, s);
    ValueOfZeros(base, z);
  }

  lemma AppendDigit(base: nat, s: seq<nat>, d: nat)
    requires d < base && IsCanonical(base, s) && (s == [] ==> d != 0)
    ensures Value(base, s + [d]) == Value(base, s) * base + d
    ensures IsCanonical(base, s + [d])
  {
    assert (s + [d])[..|s|] == s;
  }

  lemma DivShrinks(v: nat, base: nat)
    requires base >= 2 && v > 0
    ensures v / base < v && v == v / base * base + v % base && v % base < base
  {
    MulMonotone(v / base, v / base, 2, base);
  }

  /** `ToDigits` is a right inverse of `Value`, and its result is canonical. */
  lemma {:induction false} ToDigitsCorrect(base: nat, v: nat)
    requires base >= 2
    ensures Value(base, ToDigits(base, v)) == v
    ensures IsCanonical(base, ToDigits(base, v))
    ensures v > 0 ==> ToDigits(base, v) != []
  {
    if v > 0 {
      hide Value, IsCanonical;
      DivShrinks(v, base);
      ToDigitsCorrect(base, v / base);
      AppendDigit(base, ToDigits(base, v / base), v % base);
    }
  }

  /** A canonical digit sequence is the only one for its value. */
  lemma {:induction false} CanonicalUnique(base: nat, s: seq<nat>)
    requires base >= 2 && IsCanonical(base, s)
    ensures ToDigits(base, Value(base, s)) == s
  {
    if s != [] {
      var s', d := s[..|s| - 1], s[|s| - 1];
      CanonicalUnique(base, s');
      DivMod(base, Value(base, s'), d);
      if s' != [] {
        ValueFirst(base, s');
        PowPositive(base, |s'| - 1);
        MulMonotone(1, s'[0], 1, Pow(base, |s'| - 1));
        MulMonotone(1, Value(base, s'), 1, base);
      }
      assert s == s' + [d];
    }
  }

  /** A value below `base^n` needs at most `n` digits, and conversely. */
  lemma DigitCount(base: nat, v: nat, n: nat)
    requires base >= 2
    ensures v < Pow(base, n) <==> |ToDigits(base, v)| <= n
  {
    var s := ToDigits(base, v);
    ToDigitsCorrect(base, v);
    ValueBound(base, s);
    if |s| <= n {
      PowMonotoneInExponent(base, |s|, n);
    } else {
      ValueFirst(base, s);
      PowPositive(base, |s| - 1);
      MulMonotone(1, s[0], Pow(base, |s| - 1), Pow(base, |s| - 1));
      PowMonotoneInExponent(base, n, |s| - 1);
    }
  }

  /** Sequences of equal length with the same value are the same. */
  lemma {:induction false} FixedLengthUnique(base: nat, s: seq<nat>, t: seq<nat>)
    requires |s| == |t| && IsDigits(base, s) && IsDigits(base, t)
    requires Value(base, s) == Value(base, t)
    ensures s == t
  {
    if s != [] {
      var s', t' := s[..|s| - 1], t[..|t| - 1];
      var ds, dt := s[|s| - 1], t[|t| - 1];
      DivMod(base, Value(base, s'), ds);
      DivMod(base, Value(base, t'), dt);
      FixedLengthUnique(base, s', t');
      assert s == s' + [ds] && t == t' + [dt];
    }
  }

  function LeadingZeros(s: seq<nat>): (z: nat)
    ensures z <= |s|
    ensures forall i :: 0 <= i < z ==> s[i] == 0
    ensures z < |s| ==> s[z] != 0
  {
    if s != [] && s[0] == 0 then 1 + LeadingZeros(s[1..]) else 0
  }

  /** What is left after the leading zeros is the canonical form of the value. */
  lemma SignificantPart(base: nat, s: seq<nat>)
    requires base >= 2 && IsDigits(base, s)
    ensures s[LeadingZeros(s)..] == ToDigits(base, Value(base, s))
  {
    var z := LeadingZeros(s);
    assert s[..z] + s[z..] == s;
    ValueLeadingZeros(base, s[..z], s[z..]);
    CanonicalUnique(base, s[z..]);
  }

  lemma LeadingZerosUnique(s: seq<nat>, z: nat)
    requires z <= |s| && forall i :: 0 <= i < z ==> s[i] == 0
    requires z < |s| ==> s[z] != 0
    ensures LeadingZeros(s) == z
  {
  }

  // ----- fixed-width big-endian integers -----

  /** The low `n` bytes of the two's complement form of `v`, most significant first. */
  function BigEndian(n: nat, v: int): (s: seq<byte>)
    ensures |s| == n
  {
    if n == 0 then [] else BigEndian(n - 1, v / 256) + [v % 256]
  }

  lemma {:induction false} BigEndianValue(n: nat, v: int)
    ensures Pow(256, n) > 0 && Value(256, BigEndian(n, v)) == v % Pow(256, n)
  {
    PowPositive(256, n);
    if n == 0 {
      assert v % 1 == 0;
    } else {
      BigEndianValue(n - 1, v / 256);
      assert BigEndian(n, v)[..n - 1] == BigEndian(n - 1, v / 256);
      DivModChain(v, 256, Pow(256, n - 1));
    }
  }

  /** Dividing by `b` and then by `p` is dividing by `b * p`. */
  lemma DivModChain(v: int, b: nat, p: nat)
    requires b > 0 && p > 0
    ensures b * p > 0
    ensures v / (b * p) == v / b / p && v % (b * p) == v / b % p * b + v % b
  {
    MulMonotone(1, b, 1, p);
    var q, r := v / b, v % b;
    DivModChainOf(v, b, p, b * p, q, r, q / p, q % p);
  }

  lemma DivModChainOf(v: int, b: nat, p: nat, bp: nat, q: int, r: nat, x: int, y: nat)
    requires bp == b * p && bp > 0
    requires v == q * b + r && r < b && q == x * p + y && y < p
    ensures v / bp == x && v % bp == y * b + r
  {
    MixedBound(b, p, y, r);
    Regroup(x, p, y, b, r);
    DivMod(bp, x, y * b + r);
  }

  lemma MixedBound(b: nat, p: nat, y: nat, r: nat)
    requires y < p && r < b
    ensures 0 <= y * b + r < b * p
  {
    MulMonotone(y + 1, p, b, b);
    assert (y + 1) * b == y * b + b;
  }

  lemma Regroup(x: int, p: int, y: int, b: int, r: int)
    ensures (x * p + y) * b + r == x * (b * p) + (y * b + r)
  {
    assert x * p * b == x * (b * p);
  }

  lemma DivMod(b: nat, q: int, r: nat)
    requires r < b
    ensures (q * b + r) / b == q && (q * b + r) % b == r
  {
    var n := q * b + r;
    var e := n / b - q;
    assert n == n / b * b + n % b;
    assert e * b == r - n % b;
    assert e < 1 by {
      if e >= 1 {
        MulMonotone(1, e, b, b);
      }
    }
  }

  lemma DigitsOfBytes(s: seq<byte>)
    ensures IsDigits(256, s)
  {
  }

  lemma BigEndianFits(n: nat, v: nat)
    requires v < Pow(256, n)
    ensures Value(256, BigEndian(n, v)) == v
  {
    hide *;
    BigEndianValue(n, v);
    DivMod(Pow(256, n), 0, v);
  }

  /** Reading the bytes of any sequence as a number and writing it out again changes nothing. */
  lemma BigEndianOfValue(s: seq<byte>)
    ensures BigEndian(|s|, Value(256, s)) == s
  {
    hide *;
    var v := Value(256, s);
    BigEndianFits(|s|, v) by {
      ValueBound(256, s);
    }
    DigitsOfBytes(s);
    DigitsOfBytes(BigEndian(|s|, v));
    FixedLengthUnique(256, BigEndian(|s|, v), s);
  }

  lemma BigEndianSmall(v: int)
    ensures BigEndian(1, v) == [v % 256]
    ensures BigEndian(2, v) == [v / 0x100 % 256, v % 256]
    ensures BigEndian(3, v) == [v / 0x10000 % 256, v / 0x100 % 256, v % 256]
  {
    assert v / 256 / 256 == v / 0x10000;
    assert BigEndian(1, v / 256) == [v / 256 % 256];
    assert BigEndian(2, v / 256) == BigEndian(1, v / 256 / 256) + [v / 256 % 256];
    assert BigEndian(1, v / 256 / 256) == [v / 256 / 256 % 256];
  }

  lemma BigEndianFour(v: int)
    ensures BigEndian(4, v) == [v / 0x1000000 % 256, v / 0x10000 % 256, v / 0x100 % 256, v % 256]
  {
    assert v / 256 / 0x10000 == v / 0x1000000 && v / 256 / 0x100 == v / 0x10000;
    BigEndianSmall(v / 256);
  }

  lemma BigEndianEight(v: int)
    ensures BigEndian(8, v) == [
      v / 0x100_0000_0000_0000 % 256, v / 0x1_0000_0000_0000 % 256,
      v / 0x100_0000_0000 % 256, v / 0x1_0000_0000 % 256,
      v / 0x1000000 % 256, v / 0x10000 % 256, v / 0x100 % 256, v % 256]
  {
    assert Pow(256, 4) == 0x1_0000_0000;
    hide BigEndian, Pow;
    BigEndianSplit(4, 4, v);
    var high := v / 0x1_0000_0000;
    assert high / 0x1000000 == v / 0x100_0000_0000_0000;
    assert high / 0x10000 == v / 0x1_0000_0000_0000;
    assert high / 0x100 == v / 0x100_0000_0000;
    BigEndianFour(high);
    BigEndianFour(v);
  }

  lemma {:induction false} BigEndianSplit(m: nat, n: nat, v: int)
    ensures Pow(256, n) > 0 && BigEndian(m + n, v) == BigEndian(m, v / Pow(256, n)) + BigEndian(n, v)
  {
    PowPositive(256, n);
    if n > 0 {
      BigEndianSplit(m, n - 1, v / 256);
      DivModChain(v, 256, Pow(256, n - 1));
    }
  }
}
