/** The in-place algorithms `b58enc` and `b58tobin`, proved against `Base58.Encode` and `Base58.Decode`. */
module Base58Buffers {
  import opened Positional
  import opened Base58
  import opened Words

  // ----- multiply and add, digit by digit -----

  /** `now` arises from `was` by multiplying by `factor` and adding `c0`, done from the end down to but
      not including index `j`, with `carry` still to be added there. */
  ghost predicate Underway(base: nat, factor: nat, c0: nat, was: seq<nat>, now: seq<nat>, j: int, carry: nat)
  {
    && |now| == |was|
    && -1 <= j < |now|
    && carry < factor
    && IsDigits(base, now)
    && now[..j + 1] == was[..j + 1]
    && Value(base, now[j + 1..]) + carry * Pow(base, |now| - 1 - j) == factor * Value(base, was[j + 1..]) + c0
  }

  lemma UnderwayStart(base: nat, factor: nat, c0: nat, s: seq<nat>)
    requires s != [] && IsDigits(base, s) && c0 < factor
    ensures Underway(base, factor, c0, s, s, |s| - 1, c0)
  {
    assert s[|s|..] == [];
  }

  /** One step of the inner loops. */
  lemma UnderwayStep(base: nat, factor: nat, c0: nat, was: seq<nat>, now: seq<nat>, j: int, carry: nat)
    requires base > 0 && Underway(base, factor, c0, was, now, j, carry) && j >= 0
    ensures var total := carry + factor * now[j];
            Underway(base, factor, c0, was, now[j := total % base], j - 1, total / base)
  {
    hide Value, Pow;
    var total := carry + factor * now[j];
    var next := now[j := total % base];
    assert was[j] == now[j] == now[..j + 1][j] == was[..j + 1][j];
    CarryStep(base, factor, now[j + 1..], was[j + 1..], total % base, was[j], carry, total / base, c0);
    assert next[j..] == [total % base] + now[j + 1..] && was[j..] == [was[j]] + was[j + 1..];
    assert next[..j] == now[..j + 1][..j] == was[..j + 1][..j] == was[..j];
    CarryBound(base, factor, carry, now[j]);
  }

  lemma CarryBound(base: nat, factor: nat, carry: nat, d: nat)
    requires d < base && carry < factor
    ensures (carry + factor * d) / base < factor
  {
    var total := carry + factor * d;
    MulMonotone(factor, factor, d + 1, base);
    assert factor * (d + 1) == factor * d + factor;
    assert total < factor * base;
    var q := total / base;
    assert base * q <= total;
    if q >= factor {
      MulMonotone(base, base, factor, q);
    }
  }

  /** Above the last index written everything is zero, so the values of the parts are the values. */
  lemma UnderwayDone(base: nat, factor: nat, c0: nat, was: seq<nat>, now: seq<nat>, j: int)
    requires Underway(base, factor, c0, was, now, j, 0)
    requires forall k :: 0 <= k <= j ==> was[k] == 0
    ensures Value(base, now) == factor * Value(base, was) + c0
    ensures forall k :: 0 <= k <= j ==> now[k] == 0
  {
    assert forall k :: 0 <= k <= j ==> now[k] == now[..j + 1][k] == was[..j + 1][k];
    DropZeros(base, now, j + 1);
    DropZeros(base, was, j + 1);
  }

  // ----- b58enc -----

  /** One round of the encoder: `buf` becomes 256 * `buf` + `digit`. Every entry up to `high` is zero,
      so the round may stop there once the carry is gone; the new watermark is returned. */
  method PushByte(buf: array<byte>, high: int, digit: byte) returns (j: int)
    requires buf.Length > 0 && -1 <= high < buf.Length
    requires IsDigits(58, buf[..])
    requires forall k :: 0 <= k <= high ==> buf[k] == 0
    requires 256 * Value(58, buf[..]) + digit < Pow(58, buf.Length)
    modifies buf
    ensures -1 <= j <= high
    ensures IsDigits(58, buf[..])
    ensures forall k :: 0 <= k <= j ==> buf[k] == 0
    ensures Value(58, buf[..]) == 256 * Value(58, old(buf[..])) + digit
  {
    hide Value, Pow;
    ghost var was := buf[..];
    var carry: nat := digit;
    j := buf.Length - 1;
    UnderwayStart(58, 256, digit, was);
    while j > high || carry != 0
      invariant Underway(58, 256, digit, was, buf[..], j, carry)
      decreases j
    {
      NoCarryLeft(256, digit, was, buf[..], j, carry);
      UnderwayStep(58, 256, digit, was, buf[..], j, carry);
      ghost var now: seq<nat> := buf[..];
      var d: nat := buf[j];
      carry := carry + 256 * d;
      ghost var next := now[j := carry % 58];
      buf[j] := carry % 58;
      carry := carry / 58;
      assert buf[..] == next;
      j := j - 1;
    }
    UnderwayDone(58, 256, digit, was, buf[..], j);
  }

  /** A buffer that is large enough has no carry out of its first entry. */
  lemma NoCarryLeft(factor: nat, c0: nat, was: seq<nat>, now: seq<nat>, j: int, carry: nat)
    requires Underway(58, factor, c0, was, now, j, carry)
    requires factor * Value(58, was) + c0 < Pow(58, |was|)
    ensures j == -1 ==> carry == 0
  {
    if j == -1 && carry != 0 {
      assert now[0..] == now && was[0..] == was;
      MulMonotone(1, carry, Pow(58, |now|), Pow(58, |now|));
    }
  }

  lemma DropZeros(base: nat, s: seq<nat>, k: nat)
    requires k <= |s| && forall i :: 0 <= i < k ==> s[i] == 0
    ensures Value(base, s) == Value(base, s[k..])
  {
    ValueLeadingZeros(base, s[..k], s[k..]);
    assert s[..k] + s[k..] == s;
  }

  /** Writing out one more digit of a product keeps the value written plus the carry. */
  lemma CarryStep(base: nat, factor: nat, rest: seq<nat>, oldRest: seq<nat>, digit: nat, oldDigit: nat,
                  carry: nat, carry': nat, c0: nat)
    requires |rest| == |oldRest|
    requires Value(base, rest) + carry * Pow(base, |rest|) == factor * Value(base, oldRest) + c0
    requires carry + factor * oldDigit == carry' * base + digit
    ensures Value(base, [digit] + rest) + carry' * Pow(base, |rest| + 1)
         == factor * Value(base, [oldDigit] + oldRest) + c0
  {
    hide Value;
    ValueFirst(base, [digit] + rest);
    ValueFirst(base, [oldDigit] + oldRest);
    assert ([digit] + rest)[1..] == rest && ([oldDigit] + oldRest)[1..] == oldRest;
    CarryAlgebra(base, factor, Pow(base, |rest|), Value(base, rest), Value(base, oldRest),
                 digit, oldDigit, carry, carry', c0);
  }

  lemma CarryAlgebra(base: int, factor: int, p: int, v: int, w: int,
                     digit: int, oldDigit: int, carry: int, carry': int, c0: int)
    requires v + carry * p == factor * w + c0
    requires carry + factor * oldDigit == carry' * base + digit
    ensures digit * p + v + carry' * (base * p) == factor * (oldDigit * p + w) + c0
  {
    calc {
      digit * p + v + carry' * (base * p);
      digit * p + v + carry' * base * p;
      (carry' * base + digit) * p + v;
      (carry + factor * oldDigit) * p + v;
      carry * p + factor * (oldDigit * p) + v;
      factor * (oldDigit * p + w) + c0;
    }
  }

  /** The digits of the data, written by the rounds of the encoder. */
  method BytesToDigits(data: seq<byte>, zcount: nat) returns (buf: array<byte>)
    requires zcount <= |data|
    ensures fresh(buf) && buf.Length == BufferSize(|data| - zcount)
    ensures IsDigits(58, buf[..]) && Value(58, buf[..]) == Value(256, data[zcount..])
  {
    hide Value, Pow;
    var binsz := |data|;
    var size := (binsz - zcount) * 138 / 100 + 1;
    buf := new byte[size](_ => 0);
    var i, high := zcount, size - 1;
    ValueOfZeros(58, buf[..]);
    ValueOfZeros(256, data[zcount..i]);
    while i < binsz
      invariant zcount <= i <= binsz
      invariant -1 <= high < size
      invariant IsDigits(58, buf[..])
      invariant forall k :: 0 <= k <= high ==> buf[k] == 0
      invariant Value(58, buf[..]) == Value(256, data[zcount..i])
    {
      PrefixFits(data, zcount, i);
      var j := PushByte(buf, high, data[i]);
      i, high := i + 1, j;
    }
    assert data[zcount..binsz] == data[zcount..];
  }

  lemma PrefixFits(data: seq<byte>, zcount: nat, i: nat)
    requires zcount <= i < |data|
    ensures Value(256, data[zcount..i + 1]) == 256 * Value(256, data[zcount..i]) + data[i]
    ensures Value(256, data[zcount..i + 1]) < Pow(58, BufferSize(|data| - zcount))
  {
    var next := data[zcount..i + 1];
    assert next[..|next| - 1] == data[zcount..i];
    ValueBound(256, next);
    PowMonotoneInExponent(256, |next|, |data| - zcount);
    BufferSuffices(|data| - zcount);
  }

  /** Without its leading zeros, any base-58 form of the value is the canonical one. */
  lemma CanonicalDigits(data: seq<byte>, digits: seq<nat>)
    requires IsDigits(58, digits)
    requires Value(58, digits) == Value(256, data[LeadingZeros(data)..])
    ensures IsDigits(58, digits[LeadingZeros(digits)..])
    ensures Encode(data) == Ones(LeadingZeros(data)) + Letters(digits[LeadingZeros(digits)..])
  {
    SignificantPart(58, digits);
    var z := LeadingZeros(data);
    assert Value(256, data) == Value(256, data[z..]) by {
      DropZeros(256, data, z);
    }
  }

  lemma TextAt(z: nat, digits: seq<nat>, k: nat)
    requires IsDigits(58, digits) && k < z + |digits|
    ensures (Ones(z) + Letters(digits))[k] == if k < z then '1' else Letter(digits[k - z])
  {
  }

  /** The last loops of the encoder: the '1's, the letters of `buf[from..]` and the terminator. */
  method WriteText(b58: array<char>, zcount: nat, buf: array<byte>, from: nat)
    requires from <= buf.Length && IsDigits(58, buf[from..])
    requires zcount + buf.Length - from < b58.Length
    modifies b58
    ensures var text := Ones(zcount) + Letters(old(buf[from..])) + ['\0'];
            b58[..] == text + old(b58[|text|..])
  {
    hide Letter, Letters, Ones;
    ghost var was, digits := b58[..], buf[from..];
    ghost var text := Ones(zcount) + Letters(digits);
    var i := 0;
    while i < zcount
      invariant i <= zcount
      invariant forall k :: 0 <= k < i ==> b58[k] == text[k]
      invariant forall k :: i <= k < b58.Length ==> b58[k] == was[k]
    {
      TextAt(zcount, digits, i);
      b58[i] := '1';
      i := i + 1;
    }
    var j := from;
    while j < buf.Length
      invariant from <= j <= buf.Length && i == zcount + (j - from)
      invariant forall k :: 0 <= k < i ==> b58[k] == text[k]
      invariant forall k :: i <= k < b58.Length ==> b58[k] == was[k]
    {
      assert buf[j] == digits[j - from];
      TextAt(zcount, digits, i);
      b58[i] := Letter(buf[j]);
      i, j := i + 1, j + 1;
    }
    b58[i] := '\0';
    assert b58[..i] == text;
  }

  method B58Enc(b58: array<char>, b58sz: nat, data: seq<byte>) returns (ok: bool, newsz: nat)
    requires b58sz <= b58.Length
    modifies b58
    ensures newsz == |Encode(data)| + 1
    ensures ok <==> newsz <= b58sz
    ensures ok ==> b58[..] == Encode(data) + ['\0'] + old(b58[newsz..])
    ensures !ok ==> b58[..] == old(b58[..])
  {
    hide Value, Encode, LeadingZeros, Letters, Pow;
    var binsz := |data|;
    var zcount := 0;
    while zcount < binsz && data[zcount] == 0
      invariant zcount <= binsz
      invariant forall k :: 0 <= k < zcount ==> data[k] == 0
    {
      zcount := zcount + 1;
    }
    LeadingZerosUnique(data, zcount);

    var buf := BytesToDigits(data, zcount);
    ghost var digits := buf[..];
    var size, j := buf.Length, 0;
    while j < size && buf[j] == 0
      invariant j <= size && buf[..] == digits
      invariant forall k :: 0 <= k < j ==> digits[k] == 0
    {
      j := j + 1;
    }
    LeadingZerosUnique(digits, j);
    CanonicalDigits(data, digits);
    assert buf[j..] == digits[j..];

    if b58sz <= zcount + size - j {
      return false, zcount + size - j + 1;
    }
    WriteText(b58, zcount, buf, j);
    ok, newsz := true, zcount + size - j + 1;
  }

  // ----- b58tobin -----

  /** `outi` becomes 58 * `outi` + `digit`; the carry out of its first limb is returned. The carry is
      bits 32 to 37 of the product, as the mask 0x3f00000000 has it, and none is ever lost. */
  method PushDigit(outi: array<uint32>, digit: nat) returns (c: nat)
    requires outi.Length > 0 && digit < 58
    modifies outi
    ensures c < 58
    ensures Value(TWO32, outi[..]) + c * Pow(TWO32, outi.Length) == 58 * Value(TWO32, old(outi[..])) + digit
  {
    hide Value, Pow;
    ghost var was := outi[..];
    var j := outi.Length;
    c := digit;
    UnderwayStart(TWO32, 58, digit, was);
    while j > 0
      invariant 0 <= j <= outi.Length
      invariant Underway(TWO32, 58, digit, was, outi[..], j - 1, c)
    {
      UnderwayStep(TWO32, 58, digit, was, outi[..], j - 1, c);
      j := j - 1;
      ghost var now: seq<nat> := outi[..];
      var limb: nat := outi[j];
      var t := limb * 58 + c;
      ghost var next := now[j := t % TWO32];
      assert t == c + 58 * limb;
      CarryIsSixBits(t);
      assert Underway(TWO32, 58, digit, was, next, j - 1, t / TWO32);
      c := t / TWO32 % 0x40;
      outi[j] := t % TWO32;
      assert outi[..] == next;
    }
    assert outi[0..] == outi[..] && was[0..] == was;
  }

  /** The mask on the carry never drops a bit. */
  lemma CarryIsSixBits(t: nat)
    requires t < 58 * TWO32
    ensures t / TWO32 % 0x40 == t / TWO32 < 58
  {
  }

  /** What the mask keeps of the first limb: the bits above the bytes it may use. */
  function Masked(limb: nat, bytesleft: nat): nat {
    PowPositive(256, bytesleft);
    if bytesleft == 0 then 0 else limb / Pow(256, bytesleft) * Pow(256, bytesleft)
  }

  function LimbCount(binsz: nat): nat {
    (binsz + 3) / 4
  }

  lemma LimbIsFourBytes(n: nat)
    ensures Pow(256, 4) == TWO32
    ensures Pow(TWO32, n) == Pow(256, 4 * n)
  {
    assert Pow(256, 4) == TWO32;
    PowMul(256, 4, n);
  }

  lemma ByteLimit(b: nat, n: nat)
    ensures Pow(256, 4 * n + b) == Pow(256, b) * Pow(TWO32, n)
  {
    LimbIsFourBytes(n);
    PowAdd(256, b, 4 * n);
  }

  /** The mask on the first limb tests exactly whether the value fits `binsz` bytes. */
  lemma MaskTestsSize(limbs: seq<uint32>, binsz: nat)
    requires binsz > 0 && |limbs| == LimbCount(binsz)
    ensures Masked(limbs[0], binsz % 4) == 0 <==> Value(TWO32, limbs) < Pow(256, binsz)
  {
    hide Value, Pow;
    var n, b := |limbs|, binsz % 4;
    if b == 0 {
      assert binsz == 4 * n;
      LimbIsFourBytes(n);
      ValueBound(TWO32, limbs);
    } else {
      assert binsz == 4 * (n - 1) + b;
      TopLimbTest(limbs, b);
    }
  }

  lemma TopLimbTest(limbs: seq<uint32>, b: nat)
    requires limbs != [] && b > 0
    ensures Masked(limbs[0], b) == 0 <==> Value(TWO32, limbs) < Pow(256, 4 * (|limbs| - 1) + b)
  {
    var n := |limbs| - 1;
    ByteLimit(b, n);
    PowPositive(256, b);
    ValueFirst(TWO32, limbs);
    ValueBound(TWO32, limbs[1..]);
    TopTest(limbs[0], Pow(256, b), Pow(TWO32, n), Value(TWO32, limbs[1..]));
  }

  lemma TopTest(top: nat, q: nat, p: nat, rest: nat)
    requires q > 0 && rest < p
    ensures top / q * q == 0 <==> top * p + rest < q * p
  {
    assert top / q * q == 0 <==> top < q by {
      if top >= q {
        assert top / q >= 1;
        MulMonotone(1, top / q, q, q);
      }
    }
    if top < q {
      MulMonotone(top + 1, q, p, p);
      assert (top + 1) * p == top * p + p;
    } else {
      MulMonotone(q, top, p, p);
    }
  }

  /** An overflow at some prefix is an overflow of the whole, so failing early is no difference. */
  lemma PrefixBelow(base: nat, s: seq<nat>, i: nat)
    requires base > 0 && i <= |s|
    ensures Value(base, s[..i]) <= Value(base, s)
  {
    assert s[..i] + s[i..] == s;
    ValueConcat(base, s[..i], s[i..]);
    PowPositive(base, |s| - i);
    MulMonotone(Value(base, s[..i]), Value(base, s[..i]), 1, Pow(base, |s| - i));
  }

  /** The accumulation loop of the decoder. `ok` is false where the source returns false. */
  method Accumulate(outi: array<uint32>, binsz: nat, text: string) returns (ok: bool, zerocount: nat)
    requires binsz > 0 && outi.Length == LimbCount(binsz)
    requires forall k :: 0 <= k < outi.Length ==> outi[k] == 0
    modifies outi
    ensures ok <==> AllValid(text) && Value(58, DigitsOf(text)) < Pow(256, binsz)
    ensures ok ==> Value(TWO32, outi[..]) == Value(58, DigitsOf(text)) && zerocount == LeadingZeros(DigitsOf(text))
  {
    hide Value, Pow, Digit, DigitsOf, Masked;
    var i := 0;
    zerocount := 0;
    ValueOfZeros(TWO32, outi[..]);
    while i < |text| && Digit(text[i]) == 0
      invariant i <= |text| && zerocount == i
      invariant forall k :: 0 <= k < i ==> Digit(text[k]) == 0
    {
      i, zerocount := i + 1, zerocount + 1;
    }
    ZeroPrefix(text, i);
    PowPositive(256, binsz);
    while i < |text|
      invariant zerocount <= i <= |text|
      invariant forall k :: 0 <= k < zerocount ==> Digit(text[k]) == 0
      invariant zerocount < |text| ==> Digit(text[zerocount]) != 0
      invariant AllValid(text[..i])
      invariant Value(TWO32, outi[..]) == Value(58, DigitsOf(text[..i])) < Pow(256, binsz)
    {
      DigitThenLetter(text[i]);
      if Digit(text[i]) == -1 {
        return false, zerocount;
      }
      ValidExtend(text, i);
      var c := PushDigit(outi, Digit(text[i]));
      CarryTestsSize(outi[..], c, binsz, Value(58, DigitsOf(text[..i + 1])));
      if c != 0 || Masked(outi[0], binsz % 4) != 0 {
        if AllValid(text) {
          DigitsPrefix(text, i + 1);
          PrefixBelow(58, DigitsOf(text), i + 1);
        }
        return false, zerocount;
      }
      i := i + 1;
    }
    assert text[..i] == text;
    ok := true;
    LeadingZerosUnique(DigitsOf(text), zerocount);
  }

  lemma ZeroPrefix(text: string, i: nat)
    requires i <= |text| && forall k :: 0 <= k < i ==> Digit(text[k]) == 0
    ensures AllValid(text[..i]) && Value(58, DigitsOf(text[..i])) == 0
  {
    ValueOfZeros(58, DigitsOf(text[..i]));
  }

  lemma {:induction false} DigitsPrefix(text: string, i: nat)
    requires i <= |text| && AllValid(text)
    ensures AllValid(text[..i]) && DigitsOf(text[..i]) == DigitsOf(text)[..i]
  {
    hide Digit, DigitsOf;
    var prefix := text[..i];
    assert forall k :: 0 <= k < i ==> prefix[k] == text[k];
    assert forall k :: 0 <= k < i ==> DigitsOf(prefix)[k] == DigitsOf(text)[k];
  }

  lemma ValidExtend(text: string, i: nat)
    requires i < |text| && AllValid(text[..i]) && Digit(text[i]) >= 0
    ensures AllValid(text[..i + 1])
    ensures Value(58, DigitsOf(text[..i + 1])) == 58 * Value(58, DigitsOf(text[..i])) + Digit(text[i])
  {
    var longer := text[..i + 1];
    assert longer == text[..i] + [text[i]];
    DigitsPrefix(longer, i);
    assert longer[..i] == text[..i];
  }

  /** The two overflow tests together are the test on the value. */
  lemma CarryTestsSize(limbs: seq<uint32>, c: nat, binsz: nat, v: nat)
    requires binsz > 0 && |limbs| == LimbCount(binsz)
    requires Value(TWO32, limbs) + c * Pow(TWO32, |limbs|) == v
    ensures c == 0 && Masked(limbs[0], binsz % 4) == 0 <==> v < Pow(256, binsz)
    ensures c == 0 ==> Value(TWO32, limbs) == v
  {
    var n := |limbs|;
    MaskTestsSize(limbs, binsz);
    if c != 0 {
      MulMonotone(1, c, Pow(TWO32, n), Pow(TWO32, n));
      LimbIsFourBytes(n);
      PowMonotoneInExponent(256, binsz, 4 * n);
    }
  }

  lemma LimbStep(done: seq<byte>, limbs: seq<uint32>, j: nat)
    requires j < |limbs| && Value(256, done) == Value(TWO32, limbs[..j])
    ensures Value(256, done + BigEndian(4, limbs[j])) == Value(TWO32, limbs[..j + 1])
  {
    LimbIsFourBytes(1);
    BigEndianFits(4, limbs[j]);
    ValueConcat(256, done, BigEndian(4, limbs[j]));
    assert limbs[..j + 1][..j] == limbs[..j];
  }

  /** The four byte writes of one full limb. */
  method WriteLimb(bin: array<byte>, k: nat, limb: uint32)
    requires k + 4 <= bin.Length
    modifies bin
    ensures bin[..k + 4] == old(bin[..k]) + BigEndian(4, limb)
    ensures bin[k + 4..] == old(bin[k + 4..])
  {
    BigEndianFour(limb);
    bin[k] := limb / 0x1000000 % 256;
    bin[k + 1] := limb / 0x10000 % 256;
    bin[k + 2] := limb / 0x100 % 256;
    bin[k + 3] := limb % 256;
  }

  /** The fall-through switch for the first limb, which holds `b` bytes. */
  method WriteTopLimb(bin: array<byte>, b: nat, limb: uint32) returns (k: nat, j: nat)
    requires b < 4 && b <= bin.Length
    modifies bin
    ensures k == b && j == if b == 0 then 0 else 1
    ensures bin[..b] == BigEndian(b, limb) && bin[b..] == old(bin[b..])
  {
    BigEndianSmall(limb);
    j, k := 0, 0;
    if b == 3 {
      bin[k] := limb / 0x10000 % 256;
      k := k + 1;
    }
    if b >= 2 {
      bin[k] := limb / 0x100 % 256;
      k := k + 1;
    }
    if b >= 1 {
      bin[k] := limb % 256;
      k, j := k + 1, j + 1;
    }
  }

  /** Writing the limbs out as bytes; the first limb holds only `binsz % 4` of them, unless that is 0. */
  method Unpack(outi: array<uint32>, bin: array<byte>, binsz: nat)
    requires binsz > 0 && outi.Length == LimbCount(binsz) && binsz <= bin.Length
    requires Value(TWO32, outi[..]) < Pow(256, binsz)
    modifies bin
    ensures Value(256, bin[..binsz]) == Value(TWO32, outi[..])
    ensures bin[binsz..] == old(bin[binsz..])
  {
    hide Value, Pow, BigEndian;
    ghost var limbs, was := outi[..], bin[..];
    var k, j := WriteTopLimb(bin, binsz % 4, outi[0]);
    FirstLimb(limbs, binsz, k, j);
    while j < outi.Length
      invariant j <= outi.Length && k == binsz - 4 * (outi.Length - j)
      invariant Value(256, bin[..k]) == Value(TWO32, limbs[..j])
      invariant bin[k..] == was[k..]
    {
      LimbStep(bin[..k], limbs, j);
      DropDrop(was, k, 4);
      DropDrop(bin[..], k, 4);
      WriteLimb(bin, k, outi[j]);
      j, k := j + 1, k + 4;
    }
    assert limbs[..j] == limbs;
  }

  lemma DropDrop(s: seq<byte>, k: nat, n: nat)
    requires k + n <= |s|
    ensures s[k + n..] == s[k..][n..]
  {
  }

  lemma FirstLimb(limbs: seq<uint32>, binsz: nat, b: nat, j: nat)
    requires binsz > 0 && |limbs| == LimbCount(binsz) && Value(TWO32, limbs) < Pow(256, binsz)
    requires b == binsz % 4 && j == if b == 0 then 0 else 1
    ensures Value(256, BigEndian(b, limbs[0])) == Value(TWO32, limbs[..j])
  {
    if b != 0 {
      MaskTestsSize(limbs, binsz);
      PowPositive(256, b);
      TopTest(limbs[0], Pow(256, b), 1, 0);
      BigEndianFits(b, limbs[0]);
      assert limbs[..1] == [limbs[0]];
      ValueSingle(TWO32, limbs[0]);
    }
  }

  /** The unpacked bytes, with all but as many zeros as the text has leading '1's dropped. */
  lemma ResultBytes(binsz: nat, text: string, bytes: seq<byte>, lead: nat)
    requires AllValid(text) && |bytes| == binsz
    requires Value(256, bytes) == Value(58, DigitsOf(text)) < Pow(256, binsz)
    requires lead == LeadingZeros(bytes)
    ensures var zeros := LeadingZeros(DigitsOf(text));
            if lead < zeros then Decode(binsz, text) == OutOfRange
            else Decode(binsz, text) == Decoded(bytes[lead - zeros..])
  {
    hide Value, Pow, Digit, LeadingZeros, ToDigits, DigitsOf;
    SignificantPart(256, bytes);
    var zeros := LeadingZeros(DigitsOf(text));
    if lead >= zeros {
      assert bytes[lead - zeros..] == Zeros(zeros) + bytes[lead..];
    }
  }

  lemma Refuses(binsz: nat, text: string)
    requires !(AllValid(text) && Value(58, DigitsOf(text)) < Pow(256, binsz))
    ensures Decode(binsz, text) == Rejected
  {
  }

  /** `b58tobin`: `newsz` is the size left in `*binszp`. Where it exceeds `binsz` the source goes on to
      shift from in front of the buffer, and the method stops. */
  method B58ToBin(bin: array<byte>, binsz: nat, text: string) returns (ok: bool, newsz: nat)
    requires binsz > 0 && bin.Length >= 2 * binsz
    modifies bin
    ensures match Decode(binsz, text)
            case Rejected => !ok && newsz == binsz && bin[..] == old(bin[..])
            case OutOfRange => ok && newsz > binsz
            case Decoded(data) => ok && newsz == |data| <= binsz && bin[..newsz] == data
    ensures ok ==> bin[binsz..] == old(bin[binsz..])
  {
    hide Value, Pow, Digit, LeadingZeros, ToDigits, DigitsOf, Decode, BytesOf;
    var outi := new uint32[(binsz + 3) / 4](_ => 0);
    var accepted, zerocount := Accumulate(outi, binsz, text);
    if !accepted {
      Refuses(binsz, text);
      return false, binsz;
    }
    Unpack(outi, bin, binsz);
    ghost var was := bin[..];
    ok, newsz := true, binsz;
    var i := 0;
    while i < binsz && bin[i] == 0
      invariant i <= binsz && newsz == binsz - i
      invariant forall k :: 0 <= k < i ==> bin[k] == 0
    {
      newsz := newsz - 1;
      i := i + 1;
    }
    LeadingZerosUnique(was[..binsz], i);
    ResultBytes(binsz, text, was[..binsz], i);
    newsz := newsz + zerocount;
    if newsz > binsz {
      return;
    }
    ShiftLeft(bin, binsz, binsz - newsz);
    SliceEnd(was, bin[..], binsz, binsz - newsz);
  }

  lemma SliceEnd(was: seq<byte>, now: seq<byte>, n: nat, j: nat)
    requires j <= n && 2 * n <= |was| == |now|
    requires now[..n] == was[j..][..n]
    ensures now[..n - j] == was[..n][j..]
  {
    assert forall k :: 0 <= k < n - j ==> now[..n - j][k] == now[..n][k] == was[j..][..n][k] == was[..n][j..][k];
  }

  /** The overlapping copy that removes the leading zeros: reading stays ahead of writing. */
  method ShiftLeft(bin: array<byte>, binsz: nat, j: nat)
    requires j <= binsz && bin.Length >= 2 * binsz
    modifies bin
    ensures bin[..binsz] == old(bin[j..])[..binsz]
    ensures bin[binsz..] == old(bin[binsz..])
  {
    var i := 0;
    while i < binsz
      invariant i <= binsz
      invariant forall k :: 0 <= k < i ==> bin[k] == old(bin[j + k])
      invariant forall k :: i <= k < bin.Length ==> bin[k] == old(bin[k])
    {
      bin[i] := bin[j + i];
      i := i + 1;
    }
  }
}
