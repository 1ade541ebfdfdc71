/** The Base58 codec of BitMRC/base58.cpp: what it computes, and the bound on its buffer. */
module Base58 {
  import opened Positional

  // The two digit tables, row by row.
  const ORDERED: seq<string> := [
    ['1', '2', '3', '4', '5', '6', '7', '8', '9', 'A', 'B', 'C', 'D', 'E', 'F', 'G'],
    ['H', 'J', 'K', 'L', 'M', 'N', 'P', 'Q', 'R', 'S', 'T', 'U', 'V', 'W', 'X', 'Y'],
    ['Z', 'a', 'b', 'c', 'd', 'e', 'f', 'g', 'h', 'i', 'j', 'k', 'm', 'n', 'o', 'p'],
    ['q', 'r', 's', 't', 'u', 'v', 'w', 'x', 'y', 'z']
  ]

  const DIGITS_MAP: seq<seq<int>> := [
    [-1, -1, -1, -1, -1, -1, -1, -1, -1, -1, -1, -1, -1, -1, -1, -1],
    [-1, -1, -1, -1, -1, -1, -1, -1, -1, -1, -1, -1, -1, -1, -1, -1],
    [-1, -1, -1, -1, -1, -1, -1, -1, -1, -1, -1, -1, -1, -1, -1, -1],
    [-1, 0, 1, 2, 3, 4, 5, 6, 7, 8, -1, -1, -1, -1, -1, -1],
    [-1, 9, 10, 11, 12, 13, 14, 15, 16, -1, 17, 18, 19, 20, 21, -1],
    [22, 23, 24, 25, 26, 27, 28, 29, 30, 31, 32, -1, -1, -1, -1, -1],
    [-1, 33, 34, 35, 36, 37, 38, 39, 40, 41, 42, 43, -1, 44, 45, 46],
    [47, 48, 49, 50, 51, 52, 53, 54, 55, 56, 57, -1, -1, -1, -1, -1]
  ]

  /** The character of a digit. */
  function Letter(d: nat): char
    requires d < 58
  {
    ORDERED[d / 16][d % 16]
  }

  /** The digit of a character, or -1. */
  function Digit(c: char): int
  {
    if c as int < 128 then DIGITS_MAP[c as int / 16][c as int % 16] else -1
  }

  /** The letters come in six runs of consecutive character codes. */
  function Code(d: nat): nat {
    if d < 9 then 49 + d
    else if d < 17 then 56 + d
    else if d < 22 then 57 + d
    else if d < 33 then 58 + d
    else if d < 44 then 64 + d
    else 65 + d
  }

  lemma LetterCode(d: nat)
    requires d < 58
    ensures Letter(d) as int == Code(d)
  {
  }

  lemma DigitCode(d: nat)
    requires d < 58
    ensures Digit(Code(d) as char) == d
  {
  }

  lemma CodeOfDigit(c: char)
    ensures -1 <= Digit(c) < 58
    ensures Digit(c) >= 0 ==> Code(Digit(c)) == c as int
  {
  }

  /** The tables are inverse to each other. */
  lemma LetterThenDigit(d: nat)
    requires d < 58
    ensures Digit(Letter(d)) == d
  {
    LetterCode(d);
    DigitCode(d);
  }

  lemma DigitThenLetter(c: char)
    ensures -1 <= Digit(c) < 58
    ensures Digit(c) >= 0 ==> Letter(Digit(c)) == c
  {
    hide Digit, Letter;
    CodeOfDigit(c);
    if Digit(c) >= 0 {
      LetterCode(Digit(c));
    }
  }

  predicate IsAlphanumeric(c: char) {
    '0' <= c <= '9' || 'A' <= c <= 'Z' || 'a' <= c <= 'z'
  }

  /** The alphabet: digits and letters in the order of their codes, without the four that look alike. */
  lemma Alphabet(c: char)
    ensures Digit(c) >= 0 <==> IsAlphanumeric(c) && c != '0' && c != 'O' && c != 'I' && c != 'l'
    ensures forall d: char :: Digit(c) >= 0 && Digit(d) >= 0 && c < d ==> Digit(c) < Digit(d)
  {
    forall d: char | Digit(c) >= 0 && Digit(d) >= 0 && c < d ensures Digit(c) < Digit(d) {
      CodesGrow(c, d);
    }
    DigitsAreLetters(c);
  }

  lemma CodesGrow(c: char, d: char)
    requires Digit(c) >= 0 && Digit(d) >= 0 && c < d
    ensures Digit(c) < Digit(d)
  {
    hide Digit;
    CodeOfDigit(c);
    CodeOfDigit(d);
  }

  lemma DigitsAreLetters(c: char)
    ensures Digit(c) >= 0 <==> IsAlphanumeric(c) && c != '0' && c != 'O' && c != 'I' && c != 'l'
  {
  }

  // ----- what the codec computes -----

  function Letters(ds: seq<nat>): (s: string)
    requires IsDigits(58, ds)
    ensures |s| == |ds|
  {
    seq(|ds|, i requires 0 <= i < |ds| => Letter(ds[i]))
  }

  function Ones(n: nat): (s: string)
    ensures |s| == n
  {
    seq(n, _ => '1')
  }

  /** One '1' for each leading zero byte, then the shortest base-58 form of the value. */
  function Encode(data: seq<byte>): string
  {
    var v := Value(256, data);
    ToDigitsCorrect(58, v);
    Ones(LeadingZeros(data)) + Letters(ToDigits(58, v))
  }

  predicate AllValid(text: string) {
    forall i :: 0 <= i < |text| ==> Digit(text[i]) >= 0
  }

  function ValidDigit(c: char): (d: nat)
    requires Digit(c) >= 0
    ensures d == Digit(c) < 58
  {
    DigitThenLetter(c);
    Digit(c)
  }

  function DigitsOf(text: string): (ds: seq<nat>)
    requires AllValid(text)
    ensures |ds| == |text| && IsDigits(58, ds)
    ensures forall i :: 0 <= i < |ds| ==> ds[i] == Digit(text[i])
  {
    if text == [] then []
    else
      DigitsOf(text[..|text| - 1]) + [ValidDigit(text[|text| - 1])]
  }

  /** `OutOfRange` is the case in which the source accepts the text but its leading zeros and its
      value together need more than the `binsz` bytes asked for, so that the final shift would read
      in front of the buffer. */
  datatype Decoding = Rejected | OutOfRange | Decoded(data: seq<byte>)

  function BytesOf(v: nat): seq<byte> {
    ToDigitsCorrect(256, v);
    ToDigits(256, v)
  }

  function Decode(binsz: nat, text: string): Decoding
  {
    if !AllValid(text) then Rejected
    else
      var v, zeros := Value(58, DigitsOf(text)), LeadingZeros(DigitsOf(text));
      if v >= Pow(256, binsz) then Rejected
      else if zeros + |BytesOf(v)| > binsz then OutOfRange
      else Decoded(Zeros(zeros) + BytesOf(v))
  }

  // ----- the round trips -----

  lemma DigitsOfEncode(data: seq<byte>)
    ensures AllValid(Encode(data))
    ensures DigitsOf(Encode(data)) == Zeros(LeadingZeros(data)) + ToDigits(58, Value(256, data))
  {
    ToDigitsCorrect(58, Value(256, data));
    DigitsOfLetters(LeadingZeros(data), ToDigits(58, Value(256, data)));
  }

  lemma DigitsOfLetters(z: nat, ds: seq<nat>)
    requires IsDigits(58, ds)
    ensures AllValid(Ones(z) + Letters(ds))
    ensures DigitsOf(Ones(z) + Letters(ds)) == Zeros(z) + ds
  {
    hide Digit, Letter, DigitsOf;
    var text := Ones(z) + Letters(ds);
    forall i | 0 <= i < |text| ensures Digit(text[i]) == (Zeros(z) + ds)[i] {
      if i < z {
        OneIsZero();
      } else {
        LetterThenDigit(ds[i - z]);
      }
    }
  }

  lemma OneIsZero()
    ensures Digit('1') == 0 && Letter(0) == '1'
  {
    LetterCode(0);
    DigitCode(0);
  }

  lemma LettersOfDigits(text: string, z: nat)
    requires AllValid(text) && z == LeadingZeros(DigitsOf(text))
    ensures Ones(z) + Letters(DigitsOf(text)[z..]) == text
  {
    hide Digit, Letter, DigitsOf, LeadingZeros;
    OneIsZero();
    forall i | 0 <= i < |text| ensures Letter(DigitsOf(text)[i]) == text[i] {
      DigitThenLetter(text[i]);
    }
  }

  /** Decoding an encoded byte string: rejected if its value is too large, out of range if only the zeros in
      front of it are too many. */
  lemma DecodeText(binsz: nat, data: seq<byte>)
    ensures Decode(binsz, Encode(data))
         == if Value(256, data) >= Pow(256, binsz) then Rejected else if |data| > binsz then OutOfRange
            else Decoded(data)
  {
    hide Pow, ToDigits, Value, Encode, AllValid, LeadingZeros, DigitsOf;
    var z, v := LeadingZeros(data), Value(256, data);
    var ds := ToDigits(58, v);
    ToDigitsCorrect(58, v);
    DigitsOfEncode(data);
    ValueLeadingZeros(58, Zeros(z), ds);
    LeadingZerosUnique(Zeros(z) + ds, z);
    SignificantPart(256, data);
    assert Zeros(z) + data[z..] == data;
  }

  /** One that fits comes back, leading zeros and length included. */
  lemma DecodeEncode(binsz: nat, data: seq<byte>)
    requires |data| <= binsz
    ensures Decode(binsz, Encode(data)) == Decoded(data)
  {
    hide Pow, Value, Encode, Decode;
    DecodeText(binsz, data);
    ValueBound(256, data);
    PowMonotoneInExponent(256, |data|, binsz);
  }

  /** Every text of valid characters encodes some bytes. */
  lemma BytesOfText(text: string) returns (data: seq<byte>)
    requires AllValid(text)
    ensures data == Zeros(LeadingZeros(DigitsOf(text))) + BytesOf(Value(58, DigitsOf(text)))
    ensures Encode(data) == text
  {
    hide Pow, ToDigits, Value, Letters, LeadingZeros, DigitsOf;
    var ds := DigitsOf(text);
    var z, v := LeadingZeros(ds), Value(58, ds);
    data := Zeros(z) + BytesOf(v);
    ToDigitsCorrect(256, v);
    ToDigitsCorrect(58, v);
    SignificantPart(58, ds);
    ValueLeadingZeros(256, Zeros(z), BytesOf(v));
    LeadingZerosUnique(Zeros(z) + BytesOf(v), z);
    LettersOfDigits(text, z);
  }

  /** Whatever is decoded encodes to the text it came from. */
  lemma EncodeDecode(binsz: nat, text: string)
    requires Decode(binsz, text).Decoded?
    ensures Encode(Decode(binsz, text).data) == text
  {
    hide Pow, ToDigits, Value, Encode, LeadingZeros, DigitsOf;
    var data := BytesOfText(text);
  }

  /** The other outcomes: rejected is what encodes nothing of a value that fits, be it for a wrong character,
      and out of range what encodes such a value behind too many zeros. */
  lemma RejectedIff(binsz: nat, text: string)
    ensures Decode(binsz, text) == Rejected <==>
              forall data: seq<byte> :: Encode(data) == text ==> Value(256, data) >= Pow(256, binsz)
    ensures Decode(binsz, text) == OutOfRange <==>
              exists data: seq<byte> :: Encode(data) == text && |data| > binsz && Value(256, data) < Pow(256, binsz)
  {
    hide Pow, Value, Encode, DigitsOf, LeadingZeros;
    forall data: seq<byte> | Encode(data) == text
      ensures AllValid(text)
      ensures Decode(binsz, text)
           == if Value(256, data) >= Pow(256, binsz) then Rejected else if |data| > binsz then OutOfRange
              else Decoded(data)
    {
      DigitsOfEncode(data);
      DecodeText(binsz, data);
    }
    if AllValid(text) {
      var data := BytesOfText(text);
    }
    hide AllValid;
  }

  /** The texts that decode are exactly the encodings of byte strings that fit. */
  lemma DecodesIffEncoding(binsz: nat, text: string, data: seq<byte>)
    ensures Decode(binsz, text) == Decoded(data) <==> text == Encode(data) && |data| <= binsz
  {
    hide Encode;
    if Decode(binsz, text) == Decoded(data) {
      EncodeDecode(binsz, text);
    }
    if text == Encode(data) && |data| <= binsz {
      DecodeEncode(binsz, data);
    }
  }

  /** More ones than bytes asked for are accepted, and the decoder's last loop then starts to copy in
      front of its buffer. */
  lemma TooManyOnes(binsz: nat, n: nat)
    requires n > binsz
    ensures Decode(binsz, Ones(n)) == OutOfRange
  {
    hide Digit;
    OneIsZero();
    var ds := DigitsOf(Ones(n));
    assert forall i :: 0 <= i < n ==> ds[i] == 0;
    ValueOfZeros(58, ds);
    LeadingZerosUnique(ds, n);
    PowPositive(256, binsz);
  }

  // ----- the buffer bound of the encoder -----

  lemma SevenDigits()
    ensures Pow(2, 41) <= Pow(58, 7)
  {
    assert Pow(58, 7) == 2207984167552;
    assert Pow(2, 10) == 1024;
    PowAdd(2, 10, 10);
    PowAdd(2, 20, 20);
    PowAdd(2, 40, 1);
  }

  function BufferSize(n: nat): nat {
    n * 138 / 100 + 1
  }

  /** `n` bytes never need more than `n * 138 / 100 + 1` base-58 digits. */
  lemma BufferSuffices(n: nat)
    ensures Pow(256, n) <= Pow(58, BufferSize(n))
  {
    SevenDigits();
    PowMul(2, 8, n);
    assert Pow(2, 8) == 256;
    PowScale(2, 58, 41, 7, 8 * n, BufferSize(n), 7 * (8 * n), 41 * BufferSize(n));
  }
}
