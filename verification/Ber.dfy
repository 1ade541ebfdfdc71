/** Signatures as two integers in a BER sequence, after sections 8.1 and 8.3 of X.690. Conversion is left
    to a library; every signature goes through it before a message is stored. */
module Ber {
  import opened Positional
  import opened Wire
  import opened HashFunction

  const SEQUENCE: byte := 0x30
  const INTEGER: byte := 2

  /** Tag and length in front of a value; -1 stands for the indefinite length. */
  function GetHeader(tag: byte, s: seq<byte>, i: nat): Read<int> {
    if i + 2 > |s| || s[i] != tag then OutOfBytes
    else
      var octet: nat := s[i + 1];
      var (v, j) :- if octet <= 128 then Got(octet, i + 2) else GetInt(octet - 128, s, i + 2);
      var len: int := if octet == 128 then -1 else v;
      Got(len, j)
  }

  function GetInteger(s: seq<byte>, i: nat): Read<seq<byte>> {
    var (len, j) :- GetHeader(INTEGER, s, i);
    if len < 0 || j + len > |s| then OutOfBytes else Got(s[j..j + len], j + len)
  }

  /** The two integers of a signature; anything behind the sequence is ignored. */
  function DecodePair(s: seq<byte>): Read<(seq<byte>, seq<byte>)> {
    var (len, i) :- GetHeader(SEQUENCE, s, 0);
    var (r, j) :- GetInteger(s, i);
    var (t, k) :- GetInteger(s, j);
    if len >= 0 then
      if k == i + len then Got((r, t), k) else OutOfBytes
    else if k + 2 <= |s| && s[k] == 0 && s[k + 1] == 0 then Got((r, t), k + 2)
    else OutOfBytes
  }

  lemma HeaderAdvances(tag: byte, s: seq<byte>, i: nat)
    requires GetHeader(tag, s, i).Got?
    ensures i + 2 <= GetHeader(tag, s, i).next <= |s|
  {
    hide Value;
  }

  lemma IntegerAdvances(s: seq<byte>, i: nat)
    requires GetInteger(s, i).Got?
    ensures i + 2 <= GetInteger(s, i).next <= |s|
  {
    HeaderAdvances(INTEGER, s, i);
    hide GetHeader;
  }

  /** Three headers of at least two bytes each: a signature that can be read has at least six bytes,
      and so its bucket never depends on stale bytes. */
  lemma SignatureIsStable(sign: seq<byte>)
    requires DecodePair(sign).Got?
    ensures |sign| >= 6 && Stable(sign)
  {
    hide GetHeader, GetInteger;
    HeaderAdvances(SEQUENCE, sign, 0);
    var i := GetHeader(SEQUENCE, sign, 0).next;
    IntegerAdvances(sign, i);
    IntegerAdvances(sign, GetInteger(sign, i).next);
  }

  // ----- what a signer writes -----

  function EncodeInteger(r: seq<byte>): (s: seq<byte>)
    requires |r| < 126
    ensures |s| == 2 + |r|
  {
    [2, |r|] + r
  }

  function EncodeIntegers(r: seq<byte>, t: seq<byte>): (s: seq<byte>)
    requires |r| < 126 && |t| < 126
    ensures |s| == 4 + |r| + |t| < 256
  {
    EncodeInteger(r) + EncodeInteger(t)
  }

  lemma IntegerReadsBack(r: seq<byte>, s: seq<byte>, i: nat)
    requires |r| < 126 && At(s, i, EncodeInteger(r))
    ensures GetInteger(s, i) == Got(r, i + |EncodeInteger(r)|)
  {
    AtSplit(s, i, [INTEGER, |r|], r);
    assert s[i..i + 2][0] == s[i] && s[i..i + 2][1] == s[i + 1];
  }

  /** Both integers come back behind any header of the sequence. */
  lemma IntegersReadBack(r: seq<byte>, t: seq<byte>, front: seq<byte>, behind: seq<byte>)
    requires |r| < 126 && |t| < 126
    ensures var s, i, n := front + (EncodeIntegers(r, t) + behind), |front|, |EncodeIntegers(r, t)|;
            && |s| == i + n + |behind| && s[..i] == front && s[i + n..] == behind
            && GetInteger(s, i).Got? && GetInteger(s, i).value == r
            && GetInteger(s, GetInteger(s, i).next) == Got(t, i + n)
  {
    hide GetInteger, At;
    var a, b := EncodeInteger(r), EncodeInteger(t);
    var s := front + ((a + b) + behind);
    AtWhole(s);
    AtSplit(s, 0, front, (a + b) + behind);
    AtSplit(s, |front|, a + b, behind);
    AtSplit(s, |front|, a, b);
    IntegerReadsBack(r, s, |front|);
    IntegerReadsBack(t, s, |front| + |a|);
  }

  /** A signature of two integers can be read with its length in one byte, which must be the right one... */
  lemma PairReadsBack(r: seq<byte>, t: seq<byte>, n: byte, behind: seq<byte>)
    requires |r| < 126 && |t| < 126 && n < 128
    ensures DecodePair([0x30, n] + (EncodeIntegers(r, t) + behind))
         == if n == |EncodeIntegers(r, t)| then Got((r, t), 2 + n) else OutOfBytes
  {
    hide GetInteger, Value, EncodeIntegers;
    var s := [0x30, n] + (EncodeIntegers(r, t) + behind);
    IntegersReadBack(r, t, [0x30, n], behind);
    assert GetHeader(SEQUENCE, s, 0) == Got(n, 2);
  }

  /** ...with the length in the long form... */
  lemma LongPairReadsBack(r: seq<byte>, t: seq<byte>, n: byte, behind: seq<byte>)
    requires |r| < 126 && |t| < 126
    ensures DecodePair([0x30, 0x81, n] + (EncodeIntegers(r, t) + behind))
         == if n == |EncodeIntegers(r, t)| then Got((r, t), 3 + n) else OutOfBytes
  {
    hide GetInteger, Value, EncodeIntegers;
    var s := [0x30, 0x81, n] + (EncodeIntegers(r, t) + behind);
    IntegersReadBack(r, t, [0x30, 0x81, n], behind);
    assert s[2..3] == [n];
    ValueSingle(256, n);
    assert GetHeader(SEQUENCE, s, 0) == Got(n, 3);
  }

  /** ...or with the indefinite length, if two zeros end it. */
  lemma OpenPairReadsBack(r: seq<byte>, t: seq<byte>, behind: seq<byte>)
    requires |r| < 126 && |t| < 126
    ensures DecodePair([0x30, 0x80] + (EncodeIntegers(r, t) + behind))
         == if [0, 0] <= behind then Got((r, t), 4 + |EncodeIntegers(r, t)|) else OutOfBytes
  {
    hide GetInteger, Value, EncodeIntegers;
    var s, k := [0x30, 0x80] + (EncodeIntegers(r, t) + behind), 2 + |EncodeIntegers(r, t)|;
    IntegersReadBack(r, t, [0x30, 0x80], behind);
    assert GetHeader(SEQUENCE, s, 0) == Got(-1, 2);
    assert forall j :: 0 <= j < |behind| ==> s[k + j] == s[k..][j];
  }

  /** Nothing but a sequence is a signature. */
  lemma OnlySequences(s: seq<byte>)
    requires DecodePair(s).Got?
    ensures s[0] == 0x30
  {
    hide GetInteger, Value;
  }
}
