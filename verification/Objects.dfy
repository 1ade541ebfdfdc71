/** The `object` packet of BitMRC/include/Packet.h: header, payload, and the bytes they make. */
module Objects {
  import opened Positional
  import opened Words
  import opened Wire
  import opened ByteStrings

  datatype Object = Object(nonce: uint64, time: int64, objectType: uint32, version: uint64, stream: uint64,
                           body: seq<byte>)

  /** The part of the header behind the nonce; it is also what every signature starts with. */
  function EncodeHeader(o: Object): seq<byte> {
    BigEndian(8, o.time) + (BigEndian(4, o.objectType) + (EncodeVarInt(o.version) + EncodeVarInt(o.stream)))
  }

  function EncodePayload(o: Object): (p: seq<byte>)
    ensures |p| >= 22
  {
    BigEndian(8, o.nonce) + (EncodeHeader(o) + o.body)
  }

  function DecodeData(p: seq<byte>): Read<Object> {
    var (nonce, i) :- GetInt(8, p, 0);
    var (time, i) :- GetInt(8, p, i);
    var (objectType, i) :- GetInt(4, p, i);
    var (version, i) :- GetVarInt(p, i);
    var (stream, i) :- GetVarInt(p, i);
    var (body, i) :- GetRest(p, i);
    Got(Object(U64(nonce), Int64(time), U32(objectType), U64(version), U64(stream), body), i)
  }

  /** Where the fields stand: nonce, time and type in eight, eight and four bytes, then version and
      stream, and the body. */
  lemma PayloadLayout(o: Object)
    ensures var p := EncodePayload(o);
            && Value(256, p[0..8]) == o.nonce && Value(256, p[8..16]) == U64(o.time)
            && Value(256, p[16..20]) == o.objectType
            && var j := 20 + |EncodeVarInt(o.version)|;
               && p[20..j] == EncodeVarInt(o.version)
               && p[j..j + |EncodeVarInt(o.stream)|] == EncodeVarInt(o.stream)
               && p[j + |EncodeVarInt(o.stream)|..] == o.body
    ensures EncodePayload(o)[8..|EncodePayload(o)| - |o.body|] == EncodeHeader(o)
  {
    hide BigEndian, EncodeVarInt, Value, Pow;
    var p, a, b, c := EncodePayload(o), BigEndian(8, o.nonce), BigEndian(8, o.time), BigEndian(4, o.objectType);
    Widths();
    BigEndianValue(8, o.nonce);
    BigEndianValue(8, o.time);
    BigEndianValue(4, o.objectType);
    assert p[0..8] == a && p[8..16] == b && p[16..20] == c;
  }

  /** A payload is an object exactly if it has the twenty fixed bytes and two varints that can be read. */
  lemma DecodeDataMeans(p: seq<byte>)
    ensures DecodeData(p).Got?
       <==> |p| >= 20 && GetVarInt(p, 20).Got? && GetVarInt(p, GetVarInt(p, 20).next).Got?
  {
    hide GetVarInt, Value;
    if |p| >= 20 {
      VarIntMeans(p, 20);
      if GetVarInt(p, 20).Got? {
        VarIntMeans(p, GetVarInt(p, 20).next);
      }
    }
  }

  /** The header fields read from position `i`. */
  lemma HeaderReadsBack(o: Object, s: seq<byte>, i: nat)
    requires At(s, i, EncodeHeader(o))
    ensures GetInt(8, s, i) == Got(U64(o.time), i + 8)
    ensures GetInt(4, s, i + 8) == Got(o.objectType, i + 12)
    ensures var j := i + 12 + |EncodeVarInt(o.version)|;
            && GetVarInt(s, i + 12) == Got(o.version, j)
            && GetVarInt(s, j) == Got(o.stream, i + |EncodeHeader(o)|)
  {
    hide BigEndian, EncodeVarInt, GetVarInt, GetInt, Pow;
    var a, b, c, d := BigEndian(8, o.time), BigEndian(4, o.objectType), EncodeVarInt(o.version), EncodeVarInt(o.stream);
    AtSplit(s, i, a, b + (c + d));
    AtSplit(s, i + 8, b, c + d);
    AtSplit(s, i + 12, c, d);
    IntReadsBack(8, o.time, s, i);
    IntReadsBack(4, o.objectType, s, i + 8);
    VarIntReadsBack(o.version, s, i + 12);
    VarIntReadsBack(o.stream, s, i + 12 + |c|);
    Widths();
  }

  /** Decoding an encoded object recovers every field. */
  lemma ObjectReadsBack(o: Object)
    ensures DecodeData(EncodePayload(o)) == Got(o, |EncodePayload(o)|)
  {
    hide BigEndian, EncodeVarInt, GetVarInt, GetInt, EncodeHeader, Pow;
    var p := EncodePayload(o);
    AtWhole(p);
    AtSplit(p, 0, BigEndian(8, o.nonce), EncodeHeader(o) + o.body);
    AtSplit(p, 8, EncodeHeader(o), o.body);
    IntReadsBack(8, o.nonce, p, 0);
    Widths();
    HeaderReadsBack(o, p, 8);
    RestReadsBack(o.body, p, 8 + |EncodeHeader(o)|);
    Int64OfU64(o.time);
  }

  /** The other way round: re-encoding a decoded payload gives the same bytes exactly when both
      varints of its header are in shortest form. */
  lemma ReencodeIffShortest(p: seq<byte>)
    requires DecodeData(p).Got?
    ensures EncodePayload(DecodeData(p).value) == p
       <==> ShortestAt(p, 20) && ShortestAt(p, GetVarInt(p, 20).next)
  {
    hide BigEndian, EncodeVarInt, GetVarInt, ShortestAt, DecodeData, EncodePayload;
    var o := DecodeData(p).value;
    var j, k := Reassembled(p);
    VarIntRewrites(p, 20);
    VarIntRewrites(p, j);
    var v, s := EncodeVarInt(o.version), EncodeVarInt(o.stream);
    if |v| == j - 20 && |s| == k - j {
      SamePieces(p, j, k, v, s);
    } else {
      assert |EncodePayload(o)| == 20 + |v| + |s| + (|p| - k);
    }
  }

  /** Where the varints of a decoded payload end. */
  lemma Cuts(p: seq<byte>) returns (j: nat, k: nat)
    requires DecodeData(p).Got?
    ensures var o := DecodeData(p).value;
            && 20 <= j <= k <= |p| && o.body == p[k..]
            && GetVarInt(p, 20) == Got(o.version, j) && GetVarInt(p, j) == Got(o.stream, k)
  {
    hide BigEndian, EncodeVarInt, GetVarInt, ShortestAt, Value, Pow;
    j := GetVarInt(p, 20).next;
    VarIntRewrites(p, 20);
    k := GetVarInt(p, j).next;
    VarIntRewrites(p, j);
  }

  /** A decoded payload, with its varints written anew. */
  lemma Reassembled(p: seq<byte>) returns (j: nat, k: nat)
    requires DecodeData(p).Got?
    ensures var o := DecodeData(p).value;
            && 20 <= j <= k <= |p|
            && GetVarInt(p, 20) == Got(o.version, j) && GetVarInt(p, j) == Got(o.stream, k)
            && EncodePayload(o) == p[..20] + EncodeVarInt(o.version) + EncodeVarInt(o.stream) + p[k..]
  {
    hide BigEndian, EncodeVarInt, GetVarInt, DecodeData;
    FixedPart(p);
    j, k := Cuts(p);
    var o := DecodeData(p).value;
    Regroup(BigEndian(8, o.nonce), BigEndian(8, o.time), BigEndian(4, o.objectType),
            EncodeVarInt(o.version), EncodeVarInt(o.stream), o.body);
  }

  lemma Regroup(a: seq<byte>, b: seq<byte>, c: seq<byte>, d: seq<byte>, e: seq<byte>, f: seq<byte>)
    ensures a + ((b + (c + (d + e))) + f) == (a + b + c) + d + e + f
  {
  }

  lemma SamePieces(p: seq<byte>, j: nat, k: nat, v: seq<byte>, s: seq<byte>)
    requires 20 <= j <= k <= |p| && |v| == j - 20 && |s| == k - j
    ensures p[..20] + v + s + p[k..] == p <==> p[20..j] == v && p[j..k] == s
  {
    var q := p[..20] + v + s + p[k..];
    assert q[20..j] == v && q[j..k] == s;
    if p[20..j] == v && p[j..k] == s {
      assert p == p[..20] + p[20..j] + p[j..k] + p[k..];
    }
  }

  lemma FixedPart(p: seq<byte>)
    requires DecodeData(p).Got?
    ensures var o := DecodeData(p).value;
            && |p| >= 20
            && BigEndian(8, o.nonce) + BigEndian(8, o.time) + BigEndian(4, o.objectType) == p[..20]
  {
    hide GetVarInt, Pow, Value, BigEndian;
    FixedRewrites(8, p[0..8]);
    FixedRewrites(8, p[8..16]);
    FixedRewrites(4, p[16..20]);
    Widths();
    SignRewrites(Value(256, p[8..16]));
    assert p[..20] == p[0..8] + p[8..16] + p[16..20];
  }

  lemma FixedRewrites(n: nat, s: seq<byte>)
    requires |s| == n
    ensures BigEndian(n, Value(256, s)) == s && Value(256, s) < Pow(256, n)
  {
    BigEndianOfValue(s);
    ValueBound(256, s);
  }

  /** A number and its signed reading have the same bytes. */
  lemma SignRewrites(v: uint64)
    ensures BigEndian(8, Int64(v)) == BigEndian(8, v)
  {
    hide BigEndian, Pow, Value;
    Widths();
    var a, b := BigEndian(8, Int64(v)), BigEndian(8, v);
    BigEndianValue(8, Int64(v));
    BigEndianValue(8, v);
    DigitsOfBytes(a);
    DigitsOfBytes(b);
    FixedLengthUnique(256, a, b);
  }

  /** The version of this payload, zero, takes three bytes. */
  const LONG_VERSION: seq<byte> := Zeros(20) + [253, 0, 0, 0]

  lemma LongVersionShrinks()
    ensures DecodeData(LONG_VERSION) == Got(Object(0, 0, 0, 0, 0, []), 24)
    ensures |EncodePayload(Object(0, 0, 0, 0, 0, []))| == 22 && EncodePayload(Object(0, 0, 0, 0, 0, [])) != LONG_VERSION
  {
    var p := LONG_VERSION;
    assert p[0..8] == p[8..16] == Zeros(8) && p[16..20] == Zeros(4);
    ValueOfZeros(256, Zeros(8));
    ValueOfZeros(256, Zeros(4));
    assert p[21..23] == Zeros(2);
    ValueOfZeros(256, Zeros(2));
    assert p[24..] == [];
    hide Value;
  }

  class ObjectPacket {
    var messagePayload: seq<byte>
    var nonce: uint64
    var time: int64
    var objectType: uint32
    var version: uint64
    var stream: uint64
    var objectPayload: seq<byte>

    ghost function Fields(): Object
      reads this
    {
      Object(nonce, time, objectType, version, stream, objectPayload)
    }

    constructor (o: Object)
      ensures Fields() == o && messagePayload == []
    {
      messagePayload := [];
      nonce, time, objectType, version, stream := o.nonce, o.time, o.objectType, o.version, o.stream;
      objectPayload := o.body;
    }

    method Encode()
      modifies this`messagePayload
      ensures messagePayload == EncodePayload(Fields())
    {
      hide BigEndian, EncodeVarInt;
      var w := new ByteString();
      w.AppendInt64(nonce);
      w.AppendInt64(time);
      w.AppendInt32(objectType);
      w.AppendVarInt(version);
      w.AppendVarInt(stream);
      w.Append(objectPayload);
      messagePayload := w.bytes;
    }

    /** `ok` is false when the source throws; the fields read before that keep their new values. */
    method Decode() returns (ok: bool)
      modifies this
      ensures messagePayload == old(messagePayload)
      ensures ok == DecodeData(messagePayload).Got?
      ensures ok ==> Fields() == DecodeData(messagePayload).value
    {
      hide GetInt, GetVarInt;
      var w := new ByteString.Of(messagePayload);
      var r := w.GetUnsigned(8, 0);
      if r.OutOfBytes? { return false; }
      nonce := U64(r.value);
      r := w.GetUnsigned(8, r.next);
      if r.OutOfBytes? { return false; }
      time := Int64(r.value);
      r := w.GetUnsigned(4, r.next);
      if r.OutOfBytes? { return false; }
      objectType := U32(r.value);
      r := w.GetVarInt(r.next);
      if r.OutOfBytes? { return false; }
      version := U64(r.value);
      r := w.GetVarInt(r.next);
      if r.OutOfBytes? { return false; }
      stream := U64(r.value);
      var rest := w.GetRest(r.next);
      if rest.OutOfBytes? { return false; }
      objectPayload := rest.value;
      ok := true;
    }
  }
}
