/** What the append and get methods of the byte strings in BitMRC/utils.cpp write and read. */
module Wire {
  import opened Positional
  import opened Words

  /** The outcome of a read at a cursor: the value with the next cursor, or the exception thrown when
      the bytes run out. */
  datatype Read<+T> = Got(value: T, next: nat) | OutOfBytes
  {
    predicate IsFailure() {
      OutOfBytes?
    }

    function PropagateFailure<U>(): Read<U>
      requires OutOfBytes?
    {
      OutOfBytes
    }

    function Extract(): (T, nat)
      requires Got?
    {
      (value, next)
    }
  }

  /** `bytes` stands at position `i` of `s`. */
  ghost predicate At(s: seq<byte>, i: nat, bytes: seq<byte>) {
    i + |bytes| <= |s| && s[i..i + |bytes|] == bytes
  }

  lemma AtSplit(s: seq<byte>, i: nat, a: seq<byte>, b: seq<byte>)
    ensures At(s, i, a + b) <==> At(s, i, a) && At(s, i + |a|, b)
  {
    var n := |a + b|;
    if At(s, i, a + b) {
      assert s[i..i + |a|] == s[i..i + n][..|a|] == a;
      assert s[i + |a|..i + |a| + |b|] == s[i..i + n][|a|..] == b;
    }
    if At(s, i, a) && At(s, i + |a|, b) {
      assert s[i..i + n] == s[i..i + |a|] + s[i + |a|..i + |a| + |b|];
    }
  }

  lemma AtWhole(s: seq<byte>)
    ensures At(s, 0, s)
  {
    assert s[0..|s|] == s;
  }

  // ----- integers -----

  function GetInt(n: nat, s: seq<byte>, i: nat): Read<nat> {
    if i + n <= |s| then Got(Value(256, s[i..i + n]), i + n) else OutOfBytes
  }

  lemma IntReadsBack(n: nat, v: int, s: seq<byte>, i: nat)
    requires At(s, i, BigEndian(n, v))
    ensures Pow(256, n) > 0 && GetInt(n, s, i) == Got(v % Pow(256, n), i + n)
  {
    BigEndianValue(n, v);
  }

  lemma Widths()
    ensures Pow(256, 2) == TWO16 && Pow(256, 4) == TWO32 && Pow(256, 8) == TWO64
  {
    PowAdd(256, 2, 2);
    PowAdd(256, 4, 4);
  }

  // ----- varints -----

  function EncodeVarInt(v: uint64): (s: seq<byte>)
    ensures 1 <= |s| <= 9
  {
    if v < 253 then [v]
    else if v < TWO16 then [253] + BigEndian(2, v)
    else if v < TWO32 then [254] + BigEndian(4, v)
    else [255] + BigEndian(8, v)
  }

  /** The format: one byte for small numbers, else a marker and the big-endian number in the least of
      two, four and eight bytes it fits. */
  lemma VarIntFormat(v: uint64)
    ensures var s := EncodeVarInt(v);
            && (v < 253 ==> s == [v])
            && (253 <= v < 0x1_0000 ==> |s| == 3 && s[0] == 253)
            && (0x1_0000 <= v < 0x1_0000_0000 ==> |s| == 5 && s[0] == 254)
            && (0x1_0000_0000 <= v ==> |s| == 9 && s[0] == 255)
            && (253 <= v ==> Value(256, s[1..]) == v)
  {
    hide BigEndian, Value, Pow;
    if v >= 253 {
      var n := if v < TWO16 then 2 else if v < TWO32 then 4 else 8;
      assert EncodeVarInt(v)[1..] == BigEndian(n, v);
      Widths();
      BigEndianFits(n, v);
    }
  }

  /** At the end of the string the source reads a zero and leaves the cursor alone. */
  function GetVarInt(s: seq<byte>, i: nat): Read<nat> {
    if |s| <= i then Got(0, i)
    else if s[i] < 253 then Got(s[i], i + 1)
    else GetInt(if s[i] == 253 then 2 else if s[i] == 254 then 4 else 8, s, i + 1)
  }

  lemma VarIntReadsBack(v: uint64, s: seq<byte>, i: nat)
    requires At(s, i, EncodeVarInt(v))
    ensures GetVarInt(s, i) == Got(v, i + |EncodeVarInt(v)|)
  {
    hide Pow, Value, BigEndian;
    var e := EncodeVarInt(v);
    assert s[i] == s[i..i + |e|][0] == e[0];
    if v >= 253 {
      var n := if v < TWO16 then 2 else if v < TWO32 then 4 else 8;
      AtSplit(s, i, [e[0]], BigEndian(n, v));
      IntReadsBack(n, v, s, i + 1);
      Widths();
    }
  }

  /** What a varint read yields always fits 64 bits. */
  lemma VarIntRange(s: seq<byte>, i: nat)
    ensures GetVarInt(s, i).Got? ==> GetVarInt(s, i).value < TWO64 && i <= GetVarInt(s, i).next
  {
    if i < |s| && s[i] >= 253 {
      var n := if s[i] == 253 then 2 else if s[i] == 254 then 4 else 8;
      if i + 1 + n <= |s| {
        ValueBound(256, s[i + 1..i + 1 + n]);
        Widths();
      }
    }
  }

  function VarIntSize(first: byte): nat {
    if first < 253 then 1 else if first == 253 then 3 else if first == 254 then 5 else 9
  }

  /** A varint can be read exactly if all the bytes its first one announces are there, or none at all, and
      then it is zero. */
  lemma VarIntMeans(s: seq<byte>, i: nat)
    requires i <= |s|
    ensures GetVarInt(s, i).Got? <==> i == |s| || i + VarIntSize(s[i]) <= |s|
    ensures GetVarInt(s, i).Got? ==> GetVarInt(s, i).next == (if i == |s| then i else i + VarIntSize(s[i])) <= |s|
    ensures GetVarInt(s, i).Got? ==>
              GetVarInt(s, i).value == if i == |s| then 0 else if s[i] < 253 then s[i]
                                       else Value(256, s[i + 1..GetVarInt(s, i).next])
  {
    hide Value;
  }

  // ----- byte strings -----

  /** `substr` with a length taken from an `int`: a negative one becomes huge and takes all that is left,
      while the 32-bit cursor still moves by it. */
  function GetBytes(len: int32, s: seq<byte>, i: nat): Read<seq<byte>> {
    if i > |s| then OutOfBytes
    else
      var count := if 0 <= len <= |s| - i then len else |s| - i;
      Got(s[i..i + count], U32(i + len))
  }

  function GetRest(s: seq<byte>, i: nat): Read<seq<byte>> {
    if i > |s| then OutOfBytes else Got(s[i..], |s|)
  }

  /** The length counts as an unsigned number of 64 bits, and no more is taken than there is. */
  lemma BytesMean(len: int32, s: seq<byte>, i: nat)
    requires |s| < TWO31
    ensures GetBytes(len, s, i).Got? <==> i <= |s|
    ensures i <= |s| ==>
              var count, rest := U64(len), |s| - i;
              && GetBytes(len, s, i).value == s[i..][..if count < rest then count else rest]
              && GetBytes(len, s, i).next == (i + count) % 0x1_0000_0000
  {
    if i <= |s| {
      assert U64(len) == if len < 0 then len + TWO64 else len;
      assert (i + U64(len)) % TWO32 == (i + len) % TWO32;
    }
  }

  lemma BytesReadBack(bytes: seq<byte>, s: seq<byte>, i: nat)
    requires At(s, i, bytes) && |s| < TWO31
    ensures GetBytes(|bytes|, s, i) == Got(bytes, i + |bytes|)
  {
  }

  lemma RestReadsBack(bytes: seq<byte>, s: seq<byte>, i: nat)
    requires At(s, i, bytes) && |s| == i + |bytes|
    ensures GetRest(s, i) == Got(bytes, |s|)
  {
    assert s[i..] == s[i..|s|];
  }

  /** A byte string behind its length. */
  function EncodeVarBytes(bytes: seq<byte>): seq<byte>
    requires |bytes| < TWO31
  {
    EncodeVarInt(|bytes|) + bytes
  }

  function GetVarBytes(s: seq<byte>, i: nat): Read<seq<byte>> {
    var (len, i) :- GetVarInt(s, i);
    GetBytes(Int32(len), s, i)
  }

  lemma VarBytesReadBack(bytes: seq<byte>, s: seq<byte>, i: nat)
    requires |s| < TWO31 && |bytes| < TWO31 && At(s, i, EncodeVarBytes(bytes))
    ensures GetVarBytes(s, i) == Got(bytes, i + |EncodeVarBytes(bytes)|)
  {
    hide EncodeVarInt, GetVarInt;
    var prefix := EncodeVarInt(|bytes|);
    AtSplit(s, i, prefix, bytes);
    VarIntReadsBack(|bytes|, s, i);
    BytesReadBack(bytes, s, i + |prefix|);
    assert Int32(|bytes|) == |bytes|;
  }

  // ----- varints in shortest form -----

  /** The varint at `i` is there and uses no more bytes than its value needs. */
  predicate ShortestAt(s: seq<byte>, i: nat) {
    && i < |s|
    && (var r := GetVarInt(s, i);
        && r.Got?
        && (s[i] == 253 ==> r.value >= 253)
        && (s[i] == 254 ==> r.value >= TWO16)
        && (s[i] == 255 ==> r.value >= TWO32))
  }

  /** Writing out what was read gives the same bytes exactly for the shortest form; any longer form
      shrinks by an even number of bytes, and a varint read at the end of the string grows by one. */
  lemma VarIntRewrites(s: seq<byte>, i: nat)
    requires i <= |s| && GetVarInt(s, i).Got?
    ensures GetVarInt(s, i).value < TWO64 && i <= GetVarInt(s, i).next <= |s|
    ensures var (v, j) := GetVarInt(s, i).Extract();
            && (s[i..j] == EncodeVarInt(v) <==> ShortestAt(s, i))
            && (i < |s| ==> |EncodeVarInt(v)| <= j - i && (j - i - |EncodeVarInt(v)|) % 2 == 0)
            && (i < |s| && !ShortestAt(s, i) ==> |EncodeVarInt(v)| < j - i)
            && (i == |s| ==> j == i && |EncodeVarInt(v)| == 1)
  {
    hide Pow, Value, BigEndian;
    VarIntRange(s, i);
    var (v, j) := GetVarInt(s, i).Extract();
    if i < |s| && s[i] >= 253 {
      var n := if s[i] == 253 then 2 else if s[i] == 254 then 4 else 8;
      assert j == i + 1 + n;
      assert s[i..j] == [s[i]] + s[i + 1..j];
      BigEndianOfValue(s[i + 1..j]);
      ValueBound(256, s[i + 1..j]);
      Widths();
    } else if i < |s| {
      assert s[i..j] == [s[i]];
    }
  }
}
