/** Packets on a socket: BitMRC/packet.cpp over the socket reads of BitMRC/utils.cpp. */
module Framing {
  import opened Positional
  import opened Words
  import opened Wire
  import opened ByteStrings
  import opened Inventory
  import opened CStrings
  import opened Hashes

  const MAGIC: uint32 := 0xE9BEB4D9

  /** `command` is the text in front of the first zero of the 12-byte field. */
  datatype Packet = Packet(magic: uint32, command: seq<byte>, length: uint32, checksum: seq<byte>, payload: seq<byte>)

  ghost predicate IsCommand(command: seq<byte>) {
    |command| < 12 && forall k :: 0 <= k < |command| ==> command[k] != 0
  }

  /** A packet ready to be sent: `setChecksum_Lenght_Magic` has been called on it. */
  function Sealed(sha512: Hash512, command: seq<byte>, payload: seq<byte>): Packet
    requires |payload| < TWO31
  {
    Packet(MAGIC, command, |payload|, sha512(payload)[..4], payload)
  }

  function Frame(p: Packet): seq<byte>
    requires |p.command| <= 12 && p.length <= |p.payload|
  {
    BigEndian(4, p.magic) + (p.command + (Zeros(12 - |p.command|)
      + (BigEndian(4, p.length) + (p.checksum + p.payload[..p.length]))))
  }

  function Take(len: nat, s: seq<byte>, i: nat): Read<seq<byte>> {
    if i + len <= |s| then Got(s[i..i + len], i + len) else OutOfBytes
  }

  /** The length field of a packet has its top bit set. */
  predicate HugeLength(s: seq<byte>) {
    |s| >= 24 && U32(Value(256, s[16..20])) >= TWO31
  }

  /** The bit is in the first of its four bytes. */
  lemma HugeLengthMeans(s: seq<byte>)
    ensures HugeLength(s) <==> |s| >= 24 && s[16] >= 128
  {
    hide Value, Pow;
    if |s| >= 24 {
      var f := s[16..20];
      IsU32(f);
      ValueFirst(256, f);
      ValueBound(256, f[1..]);
      assert Pow(256, 3) == 0x1000000 by { PowThree(); }
    }
  }

  lemma PowThree()
    ensures Pow(256, 3) == 0x1000000
  {
  }

  /** The packet in front of a stream. A length above 2^31 turns negative and throws. */
  function ParseFrame(s: seq<byte>): Read<Packet> {
    var (magic, i) :- GetInt(4, s, 0);
    var (command, i) :- Take(12, s, i);
    var (length, i) :- GetInt(4, s, i);
    var (checksum, i) :- Take(4, s, i);
    if U32(length) >= TWO31 then OutOfBytes
    else
      var (payload, i) :- Take(U32(length), s, i);
      Got(Packet(U32(magic), UntilZero(command), U32(length), checksum, payload), i)
  }

  // ----- what is sent is what is received -----

  lemma {:induction false} UntilZeroOfPadded(command: seq<byte>, n: nat)
    requires forall k :: 0 <= k < |command| ==> command[k] != 0
    ensures UntilZero(command + Zeros(n)) == command
  {
    if command != [] {
      assert (command + Zeros(n))[1..] == command[1..] + Zeros(n);
      UntilZeroOfPadded(command[1..], n);
    }
  }

  ghost predicate Sendable(p: Packet) {
    IsCommand(p.command) && |p.checksum| == 4 && p.length == |p.payload| < TWO31
  }

  lemma FrameParts(p: Packet, rest: seq<byte>)
    requires Sendable(p)
    ensures var s := Frame(p) + rest;
            && At(s, 0, BigEndian(4, p.magic)) && At(s, 4, p.command + Zeros(12 - |p.command|))
            && At(s, 16, BigEndian(4, p.length)) && At(s, 20, p.checksum) && At(s, 24, p.payload)
            && |Frame(p)| == 24 + |p.payload|
  {
    hide BigEndian, At;
    var s, z := Frame(p) + rest, Zeros(12 - |p.command|);
    var a, l := BigEndian(4, p.magic), BigEndian(4, p.length);
    AtWhole(s);
    AtSplit(s, 0, Frame(p), rest);
    assert p.payload[..p.length] == p.payload;
    AtSplit(s, 0, a, p.command + (z + (l + (p.checksum + p.payload))));
    AtSplit(s, 4, p.command, z + (l + (p.checksum + p.payload)));
    AtSplit(s, 4 + |p.command|, z, l + (p.checksum + p.payload));
    AtSplit(s, 4, p.command, z);
    AtSplit(s, 16, l, p.checksum + p.payload);
    AtSplit(s, 20, p.checksum, p.payload);
  }

  /** What a packet that is sent looks like: the magic number, the command padded with zeros, the length
      of the payload, the first four bytes of its hash, and the payload. */
  lemma SealedLayout(sha512: Hash512, command: seq<byte>, payload: seq<byte>)
    requires IsCommand(command) && |payload| < TWO31
    ensures var s := Frame(Sealed(sha512, command, payload));
            && |s| == 24 + |payload| && s[0..4] == [0xE9, 0xBE, 0xB4, 0xD9]
            && s[4..4 + |command|] == command && (forall k :: 4 + |command| <= k < 16 ==> s[k] == 0)
            && Value(256, s[16..20]) == |payload| && s[20..24] == sha512(payload)[..4] && s[24..] == payload
  {
    hide BigEndian, Value, Pow, Frame, At;
    var p := Sealed(sha512, command, payload);
    var s := Frame(p);
    assert s + [] == s;
    FrameParts(p, []);
    BigEndianFour(MAGIC);
    Widths();
    BigEndianFits(4, |payload|);
    StandAt(s, 0, BigEndian(4, MAGIC));
    Padding(s, command);
    StandAt(s, 16, BigEndian(4, |payload|));
    StandAt(s, 20, sha512(payload)[..4]);
    StandAt(s, 24, payload);
    assert s[24..] == s[24..|s|];
  }

  lemma StandAt(s: seq<byte>, i: nat, bytes: seq<byte>)
    requires At(s, i, bytes)
    ensures i + |bytes| <= |s| && s[i..i + |bytes|] == bytes
  {
  }

  lemma Padding(s: seq<byte>, command: seq<byte>)
    requires |command| <= 12 && At(s, 4, command + Zeros(12 - |command|))
    ensures s[4..4 + |command|] == command && forall k :: 4 + |command| <= k < 16 ==> s[k] == 0
  {
    var padded := command + Zeros(12 - |command|);
    assert s[4..16] == padded;
    assert s[4..4 + |command|] == padded[..|command|];
    assert forall k :: 4 <= k < 16 ==> s[k] == padded[k - 4];
  }

  /** The parser in terms of the slices it takes. */
  lemma FrameSteps(s: seq<byte>)
    ensures |s| < 24 ==> ParseFrame(s) == OutOfBytes
    ensures |s| >= 24 ==>
              var length := U32(Value(256, s[16..20]));
              ParseFrame(s) == if length >= TWO31 || 24 + length > |s| then OutOfBytes
                               else Got(Packet(U32(Value(256, s[0..4])), UntilZero(s[4..16]), length, s[20..24],
                                               s[24..24 + length]), 24 + length)
  {
    hide Value, UntilZero;
  }

  /** A frame in front of any stream parses to its packet, and the parser stops right behind it. */
  lemma FrameParses(p: Packet, rest: seq<byte>)
    requires Sendable(p)
    ensures ParseFrame(Frame(p) + rest) == Got(p, |Frame(p)|)
  {
    Widths();
    hide BigEndian, Value, Frame, Pow, UntilZero, ParseFrame;
    var s := Frame(p) + rest;
    FrameParts(p, rest);
    FrameSteps(s);
    BigEndianFits(4, p.magic);
    BigEndianFits(4, p.length);
    UntilZeroOfPadded(p.command, 12 - |p.command|);
  }

  ghost predicate AllSendable(ps: seq<Packet>) {
    forall k :: 0 <= k < |ps| ==> Sendable(ps[k])
  }

  function Frames(ps: seq<Packet>): seq<byte>
    requires AllSendable(ps)
  {
    if ps == [] then [] else Frame(ps[0]) + Frames(ps[1..])
  }

  function ParseFrames(n: nat, s: seq<byte>): Read<seq<Packet>> {
    if n == 0 then Got([], 0)
    else
      var (p, i) :- ParseFrame(s);
      if i > |s| then OutOfBytes
      else
        var (ps, j) :- ParseFrames(n - 1, s[i..]);
        Got([p] + ps, i + j)
  }

  /** Any number of packets, sent one behind the other, come out in order with nothing in between. */
  lemma {:induction false} FramesParse(ps: seq<Packet>, rest: seq<byte>)
    requires AllSendable(ps)
    ensures ParseFrames(|ps|, Frames(ps) + rest) == Got(ps, |Frames(ps)|)
  {
    hide Frame, ParseFrame;
    if ps != [] {
      var more := Frames(ps[1..]) + rest;
      assert Frames(ps) + rest == Frame(ps[0]) + more;
      FrameParses(ps[0], more);
      assert (Frame(ps[0]) + more)[|Frame(ps[0])|..] == more;
      FramesParse(ps[1..], rest);
      assert [ps[0]] + ps[1..] == ps;
    }
  }

  /** An `inv` or `getdata` packet carries its tags through sealing, framing, parsing and decoding. */
  lemma TagsTravel(sha512: Hash512, command: seq<byte>, tags: seq<Tag>, rest: seq<byte>)
    requires IsCommand(command) && |tags| < TWO63 && |EncodeTags(tags)| < TWO31
    ensures var r := ParseFrame(Frame(Sealed(sha512, command, EncodeTags(tags))) + rest);
            r.Got? && r.value.command == command && DecodeTags(r.value.payload) == Got(tags, |r.value.payload|)
  {
    hide Frame, ParseFrame, EncodeTags, DecodeTags;
    FrameParses(Sealed(sha512, command, EncodeTags(tags)), rest);
    TagsReadBack(tags);
  }

  // ----- a packet in a byte string -----

  /** The constructor that takes a packet from a byte string: its payload is all that follows the
      header, whatever the length field says. */
  function ParsePacket(s: seq<byte>): Read<Packet> {
    var (magic, i) :- GetInt(4, s, 0);
    var (command, i) :- GetBytes(12, s, i);
    var (length, i) :- GetInt(4, s, i);
    var (checksum, i) :- GetBytes(4, s, i);
    var (payload, i) :- GetRest(s, i);
    Got(Packet(U32(magic), UntilZero(command), U32(length), checksum, payload), i)
  }

  /** It needs the 24 bytes of the header and nothing else; where the fields stand. */
  lemma ParsePacketMeans(s: seq<byte>)
    requires |s| < TWO31
    ensures ParsePacket(s).Got? <==> |s| >= 24
    ensures |s| >= 24 ==>
              var p := ParsePacket(s).value;
              && p.magic == Value(256, s[0..4]) && p.command == UntilZero(s[4..16])
              && p.length == Value(256, s[16..20]) && p.checksum == s[20..24] && p.payload == s[24..]
  {
    hide GetInt, GetBytes, UntilZero;
    IntStands(4, s, 0);
    if |s| >= 4 {
      BytesStand(12, s, 4);
      IntStands(4, s, 16);
      BytesStand(4, s, 20);
    }
    if |s| >= 24 {
      IsU32(s[0..4]);
      IsU32(s[16..20]);
    }
  }

  lemma IsU32(s: seq<byte>)
    requires |s| == 4
    ensures Value(256, s) < TWO32 && U32(Value(256, s)) == Value(256, s)
  {
    hide Value;
    ValueBound(256, s);
    Widths();
  }

  lemma IntStands(n: nat, s: seq<byte>, i: nat)
    ensures GetInt(n, s, i) == if i + n <= |s| then Got(Value(256, s[i..i + n]), i + n) else OutOfBytes
  {
    hide Value;
  }

  lemma BytesStand(n: nat, s: seq<byte>, i: nat)
    requires |s| < TWO31 && n < 16
    ensures GetBytes(n, s, i).Got? <==> i <= |s|
    ensures i <= |s| ==> GetBytes(n, s, i).next == i + n
    ensures i + n <= |s| ==> GetBytes(n, s, i).value == s[i..i + n]
  {
  }

  /** A frame taken from a byte string gives its packet back. */
  lemma FrameIsPacket(p: Packet)
    requires Sendable(p) && |Frame(p)| < TWO31
    ensures ParsePacket(Frame(p)) == Got(p, |Frame(p)|)
  {
    Widths();
    hide BigEndian, Value, Frame, Pow, UntilZero, At;
    var s := Frame(p);
    assert s + [] == s;
    FrameParts(p, []);
    IntReadsBack(4, p.magic, s, 0);
    BytesReadBack(p.command + Zeros(12 - |p.command|), s, 4);
    IntReadsBack(4, p.length, s, 16);
    BytesReadBack(p.checksum, s, 20);
    RestReadsBack(p.payload, s, 24);
    UntilZeroOfPadded(p.command, 12 - |p.command|);
  }

  method ReadPacket(data: seq<byte>) returns (r: Read<Packet>)
    ensures r == ParsePacket(data)
  {
    hide GetInt, GetBytes, UntilZero;
    var w := new ByteString.Of(data);
    var magic := w.GetUnsigned(4, 0);
    if magic.OutOfBytes? { return OutOfBytes; }
    var command := w.GetUstring(12, magic.next);
    if command.OutOfBytes? { return OutOfBytes; }
    var length := w.GetUnsigned(4, command.next);
    if length.OutOfBytes? { return OutOfBytes; }
    var checksum := w.GetUstring(4, length.next);
    if checksum.OutOfBytes? { return OutOfBytes; }
    var payload := w.GetRest(checksum.next);
    if payload.OutOfBytes? { return OutOfBytes; }
    return Got(Packet(U32(magic.value), UntilZero(command.value), U32(length.value), checksum.value, payload.value),
               payload.next);
  }

  // ----- the version packet -----

  /** Of a version packet only the version is kept; everything else must be there all the same. */
  function DecodeVersion(p: seq<byte>): Read<int32> {
    var (version, i) :- GetInt(4, p, 0);
    var (services, i) :- GetInt(8, p, i);
    var (timestamp, i) :- GetInt(8, p, i);
    var (recvServices, i) :- GetInt(8, p, i);
    var (recvIp, i) :- Take(16, p, i);
    var (recvPort, i) :- GetInt(2, p, i);
    var (fromServices, i) :- GetInt(8, p, i);
    var (fromIp, i) :- Take(16, p, i);
    var (fromPort, i) :- GetInt(2, p, i);
    var (nonce, i) :- GetInt(8, p, i);
    var (userAgent, i) :- GetVarBytes(p, i);
    var (streams, i) :- GetRest(p, i);
    Got(Int32(version), i)
  }

  /** It decodes exactly if the eighty fixed bytes and the length of the user agent are there, and the
      length leads to a place in the payload, be it backwards. Its first four bytes are the version. */
  lemma DecodeVersionMeans(p: seq<byte>)
    requires |p| < TWO31
    ensures var len := GetVarInt(p, 80);
            DecodeVersion(p).Got? <==> |p| >= 80 && len.Got? && 0 <= len.next + Int32(len.value) <= |p|
    ensures DecodeVersion(p).Got? ==> DecodeVersion(p).value == Int32(Value(256, p[0..4]))
  {
    hide GetVarInt, Value;
    if |p| >= 80 {
      VarIntMeans(p, 80);
      if GetVarInt(p, 80).Got? {
        AgentMeans(p, GetVarInt(p, 80).next, Int32(GetVarInt(p, 80).value));
      }
    }
  }

  lemma AgentMeans(p: seq<byte>, j: nat, len: int32)
    requires j <= |p| < TWO31
    ensures GetBytes(len, p, j).Got? && (GetRest(p, GetBytes(len, p, j).next).Got? <==> 0 <= j + len <= |p|)
  {
  }

  method TakeBytes(w: ByteString, n: nat, i: nat) returns (r: Read<seq<byte>>)
    requires n > 0
    ensures r == Take(n, w.bytes, i)
  {
    var s, k := [], 0;
    while k < n
      invariant 0 <= k <= n && |s| == k
      invariant k > 0 ==> i + k <= |w.bytes| && s == w.bytes[i..i + k]
    {
      var c := w.GetInt8(i + k);
      if c.OutOfBytes? {
        return OutOfBytes;
      }
      s, k := s + [c.value], k + 1;
    }
    return Got(s, i + n);
  }

  /** Services, address and port of one side. */
  method SkipSide(w: ByteString, i: nat) returns (r: Read<nat>)
    ensures i + 26 <= |w.bytes| ==> r.Got? && r.next == i + 26
    ensures i + 26 > |w.bytes| ==> r.OutOfBytes?
  {
    hide Value;
    var services := w.GetUnsigned(8, i);
    if services.OutOfBytes? { return OutOfBytes; }
    var ip := TakeBytes(w, 16, services.next);
    if ip.OutOfBytes? { return OutOfBytes; }
    r := w.GetUnsigned(2, ip.next);
  }

  method ReadVersion(payload: seq<byte>) returns (r: Read<int32>)
    requires |payload| < TWO31
    ensures r.Got? <==> DecodeVersion(payload).Got?
    ensures r.Got? ==> r.value == DecodeVersion(payload).value
  {
    hide GetVarInt, Value;
    DecodeVersionMeans(payload);
    var w := new ByteString.Of(payload);
    var version := w.GetUnsigned(4, 0);
    if version.OutOfBytes? { return OutOfBytes; }
    var services := w.GetUnsigned(8, version.next);
    if services.OutOfBytes? { return OutOfBytes; }
    var timestamp := w.GetUnsigned(8, services.next);
    if timestamp.OutOfBytes? { return OutOfBytes; }
    var recv := SkipSide(w, timestamp.next);
    if recv.OutOfBytes? { return OutOfBytes; }
    var from := SkipSide(w, recv.next);
    if from.OutOfBytes? { return OutOfBytes; }
    var nonce := w.GetUnsigned(8, from.next);
    if nonce.OutOfBytes? { return OutOfBytes; }
    var userAgent := w.GetVarUstring(nonce.next);
    if userAgent.OutOfBytes? { return OutOfBytes; }
    var streams := w.GetRest(userAgent.next);
    if streams.OutOfBytes? { return OutOfBytes; }
    return Got(Int32(version.value), streams.next);
  }

  // ----- the socket -----

  /** Reading at position `i` of a stream is reading in front of what is left behind `i` bytes. */
  lemma Shifted(s: seq<byte>, i: nat, n: nat)
    requires i <= |s|
    ensures Take(n, s[i..], 0) == if i + n <= |s| then Got(s[i..i + n], n) else OutOfBytes
    ensures GetInt(n, s[i..], 0) == if i + n <= |s| then Got(Value(256, s[i..i + n]), n) else OutOfBytes
    ensures i + n <= |s| ==> s[i..][n..] == s[i + n..]
  {
    if i + n <= |s| {
      assert s[i..][0..n] == s[i..i + n];
    }
  }

  lemma FourBytes(s: seq<byte>)
    requires |s| == 4
    ensures Value(256, s) == s[0] as int * 0x1000000 + s[1] as int * 0x10000 + s[2] as int * 0x100 + s[3]
  {
    assert s[..3][..2] == s[..2] && s[..2][..1] == s[..1] && s[..1][..0] == [];
    assert Value(256, s[..1]) == s[0];
    assert Value(256, s[..2]) == s[0] as int * 0x100 + s[1];
    assert Value(256, s[..3]) == s[0] as int * 0x10000 + s[1] as int * 0x100 + s[2];
  }

  /** `Closed` is the exception the listener catches when the connection ends. A length that turns
      negative makes the allocation throw one that nothing catches. */
  datatype Received<+T> = Bytes(value: T) | Closed | Aborts

  class Socket {
    /** Bytes on their way that have not been read. */
    var stream: seq<byte>

    constructor (s: seq<byte>)
      ensures stream == s
    {
      stream := s;
    }

    /** `recv`: any number of the bytes that are there, at least one and at most `max`; none when the
        peer has closed. */
    method Recv(max: nat) returns (chunk: seq<byte>)
      requires max > 0
      modifies this
      ensures |chunk| <= max && old(stream) == chunk + stream
      ensures chunk == [] <==> old(stream) == []
    {
      if stream == [] {
        return [];
      }
      var n: nat :| 1 <= n <= max && n <= |stream|;
      chunk := stream[..n];
      stream := stream[n..];
    }

    method GetInt8() returns (r: Received<byte>)
      modifies this
      ensures if old(stream) == [] then r == Closed && stream == []
              else r == Bytes(old(stream)[0]) && stream == old(stream)[1..]
    {
      var chunk := Recv(1);
      return if chunk == [] then Closed else Bytes(chunk[0]);
    }

    method GetInt32() returns (r: Received<uint32>)
      modifies this
      ensures match GetInt(4, old(stream), 0)
              case Got(v, i) => r == Bytes(U32(v)) && stream == old(stream)[i..]
              case OutOfBytes => r == Closed
    {
      hide Value;
      ghost var was := stream;
      var b4 := GetInt8();
      if b4.Closed? { return Closed; }
      var b3 := GetInt8();
      if b3.Closed? { return Closed; }
      var b2 := GetInt8();
      if b2.Closed? { return Closed; }
      var b1 := GetInt8();
      if b1.Closed? { return Closed; }
      assert was == [b4.value, b3.value, b2.value, b1.value] + stream;
      FourBytes(was[0..4]);
      var high, middle, low: nat := b4.value, b3.value, b2.value;
      return Bytes(U32(high * 0x1000000 + middle * 0x10000 + low * 0x100 + b1.value));
    }

    /** The reassembly loop: however the stream is cut into chunks, exactly `len` bytes come out. */
    method GetUstring(len: nat) returns (r: Received<seq<byte>>)
      modifies this
      ensures match Take(len, old(stream), 0)
              case Got(v, i) => r == Bytes(v) && stream == old(stream)[i..]
              case OutOfBytes => r == Closed
    {
      if len == 0 {
        return Bytes([]);
      }
      var ret, read := [], 0;
      while read < len
        invariant read == |ret| <= len && old(stream) == ret + stream
      {
        var chunk := Recv(len - read);
        if chunk == [] {
          return Closed;
        }
        read := read + |chunk|;
        ret := ret + chunk;
      }
      return Bytes(ret);
    }

    /** A whole packet, whatever the chunks. */
    method GetCommand() returns (r: Received<Packet>)
      modifies this
      ensures match ParseFrame(old(stream))
              case Got(p, i) => r == Bytes(p) && i <= |old(stream)| && stream == old(stream)[i..]
              case OutOfBytes => r == if HugeLength(old(stream)) then Aborts else Closed
    {
      hide Take, GetInt, UntilZero, ParseFrame, Value;
      ghost var was := stream;
      FrameSteps(was);
      Shifted(was, 0, 4);
      assert was[0..] == was;
      var magic := GetInt32();
      if magic.Closed? { return Closed; }
      Shifted(was, 4, 12);
      var command := GetUstring(12);
      if command.Closed? { return Closed; }
      Shifted(was, 16, 4);
      var length := GetInt32();
      if length.Closed? { return Closed; }
      Shifted(was, 20, 4);
      var checksum := GetUstring(4);
      if checksum.Closed? { return Closed; }
      if length.value >= TWO31 {
        return Aborts;
      }
      ghost var n := length.value;
      Shifted(was, 24, n);
      var payload := GetUstring(length.value);
      if payload.Closed? { return Closed; }
      return Bytes(Packet(magic.value, UntilZero(command.value), length.value, checksum.value, payload.value));
    }

    method SendInt32(i: uint32)
      modifies this
      ensures stream == old(stream) + BigEndian(4, i)
    {
      hide BigEndian;
      BigEndianFour(i);
      stream := stream + [i / 0x1000000 % 256];
      stream := stream + [i / 0x10000 % 256];
      stream := stream + [i / 0x100 % 256];
      stream := stream + [i % 256];
    }

    /** `sendData`, writing to the peer's stream. */
    method SendData(p: Packet)
      requires IsCommand(p.command) && |p.checksum| == 4 && p.length <= |p.payload|
      modifies this
      ensures stream == old(stream) + Frame(p)
    {
      hide BigEndian;
      SendInt32(p.magic);
      var tmp, i := p.command, |p.command|;
      while i < 12
        invariant |p.command| <= i <= 12 && tmp == p.command + Zeros(i - |p.command|)
      {
        tmp := tmp + [0];
        i := i + 1;
      }
      stream := stream + tmp;
      SendInt32(p.length);
      i := 0;
      ghost var before := stream;
      while i < 4
        invariant i <= 4 && stream == before + p.checksum[..i]
      {
        stream := stream + [p.checksum[i]];
        i := i + 1;
      }
      stream := stream + p.payload[..p.length];
    }
  }
}
