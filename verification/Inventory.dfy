/** The list packets of BitMRC/include/Packet.h: `inv` and `getdata`, which hold tags, and `addr`. */
module Inventory {
  import opened Positional
  import opened Words
  import opened Wire
  import opened ByteStrings

  type Tag = t: seq<byte> | |t| == 32 witness seq(32, _ => 0)

  // ----- inv and getdata -----

  function Concat(tags: seq<Tag>): seq<byte> {
    if tags == [] then [] else Concat(tags[..|tags| - 1]) + tags[|tags| - 1]
  }

  function EncodeTags(tags: seq<Tag>): seq<byte>
    requires |tags| < TWO64
  {
    EncodeVarInt(|tags|) + Concat(tags)
  }

  function ReadTags(p: seq<byte>, i: nat, count: nat): Read<seq<Tag>> {
    if count == 0 then Got([], i)
    else
      var (tags, j) :- ReadTags(p, i, count - 1);
      if j + 32 <= |p| then Got(tags + [p[j..j + 32]], j + 32) else OutOfBytes
  }

  /** A count with the top bit set reads as a negative number, and the loop does not start. */
  function Count(v: nat): nat {
    if Int64(v) < 0 then 0 else Int64(v)
  }

  function DecodeTags(p: seq<byte>): Read<seq<Tag>> {
    var (v, i) :- GetVarInt(p, 0);
    ReadTags(p, i, Count(v))
  }

  lemma {:induction false} ReadTagsMeans(p: seq<byte>, i: nat, count: nat)
    requires i <= |p|
    ensures ReadTags(p, i, count).Got? <==> i + 32 * count <= |p|
    ensures ReadTags(p, i, count).Got? ==>
              var (tags, next) := ReadTags(p, i, count).Extract();
              && next == i + 32 * count && |tags| == count
              && forall k :: 0 <= k < count ==> tags[k] == p[i + 32 * k..i + 32 * k + 32]
  {
    if count > 0 {
      ReadTagsMeans(p, i, count - 1);
    }
  }

  /** A tag list decodes exactly if its count can be read and 32 bytes for each counted tag follow, a
      count from 2^63 on being none; the tags are these bytes, and more may stand behind them. */
  lemma DecodeTagsMeans(p: seq<byte>)
    ensures var size := GetVarInt(p, 0);
            DecodeTags(p).Got? <==> size.Got? && size.next + 32 * (if size.value < TWO63 then size.value else 0) <= |p|
    ensures DecodeTags(p).Got? ==>
              var size, tags := GetVarInt(p, 0), DecodeTags(p).value;
              && |tags| == (if size.value < TWO63 then size.value else 0)
              && forall k :: 0 <= k < |tags| ==> tags[k] == p[size.next + 32 * k..size.next + 32 * k + 32]
  {
    hide GetVarInt, ReadTags, Count;
    VarIntMeans(p, 0);
    if GetVarInt(p, 0).Got? {
      VarIntRange(p, 0);
      CountMeans(GetVarInt(p, 0).value);
      ReadTagsMeans(p, GetVarInt(p, 0).next, Count(GetVarInt(p, 0).value));
    }
  }

  lemma CountMeans(v: uint64)
    ensures Count(v) == if v < TWO63 then v else 0
  {
  }

  lemma {:induction false} TagsStandAt(tags: seq<Tag>, p: seq<byte>, i: nat)
    requires At(p, i, Concat(tags))
    ensures ReadTags(p, i, |tags|) == Got(tags, i + |Concat(tags)|)
  {
    if tags != [] {
      var n := |tags| - 1;
      AtSplit(p, i, Concat(tags[..n]), tags[n]);
      TagsStandAt(tags[..n], p, i);
      assert tags == tags[..n] + [tags[n]];
    }
  }

  /** Decoding an encoded tag list of any length gives the list back and uses up the payload. */
  lemma TagsReadBack(tags: seq<Tag>)
    requires |tags| < TWO63
    ensures DecodeTags(EncodeTags(tags)) == Got(tags, |EncodeTags(tags)|)
  {
    hide EncodeVarInt, GetVarInt, Concat, ReadTags;
    var p := EncodeTags(tags);
    AtWhole(p);
    AtSplit(p, 0, EncodeVarInt(|tags|), Concat(tags));
    VarIntReadsBack(|tags|, p, 0);
    TagsStandAt(tags, p, |EncodeVarInt(|tags|)|);
  }

  class TagListPacket {
    var inventory: seq<Tag>
    var messagePayload: seq<byte>

    constructor (tags: seq<Tag>, payload: seq<byte>)
      ensures inventory == tags && messagePayload == payload
    {
      inventory, messagePayload := tags, payload;
    }

    method EncodeData()
      requires |inventory| < TWO64
      modifies this`messagePayload
      ensures messagePayload == EncodeTags(inventory)
    {
      hide EncodeVarInt;
      var w := new ByteString();
      w.AppendVarInt(|inventory|);
      var i := 0;
      assert inventory[..0] == [];
      while i < |inventory|
        invariant i <= |inventory|
        invariant w.bytes == EncodeVarInt(|inventory|) + Concat(inventory[..i])
      {
        assert inventory[..i + 1][..i] == inventory[..i];
        w.Append(inventory[i]);
        i := i + 1;
      }
      assert inventory[..i] == inventory;
      messagePayload := w.bytes;
    }

    /** The decoded tags are pushed behind those already there. */
    method DecodeData() returns (ok: bool)
      modifies this`inventory
      ensures ok == DecodeTags(messagePayload).Got?
      ensures ok ==> inventory == old(inventory) + DecodeTags(messagePayload).value
    {
      hide GetVarInt;
      var w := new ByteString.Of(messagePayload);
      var size := w.GetVarInt(0);
      if size.OutOfBytes? {
        return false;
      }
      var i, j := size.next, 0;
      while j < Int64(size.value)
        invariant 0 <= j <= Count(size.value) && w.bytes == messagePayload
        invariant ReadTags(messagePayload, size.next, j).Got?
        invariant ReadTags(messagePayload, size.next, j).next == i
        invariant inventory == old(inventory) + ReadTags(messagePayload, size.next, j).value
      {
        var tag := GetTag(w, i);
        if tag.OutOfBytes? {
          NoFurther(messagePayload, size.next, j, Count(size.value));
          return false;
        }
        inventory := inventory + [tag.value];
        i, j := tag.next, j + 1;
      }
      ok := true;
    }
  }

  /** The inner loop of both decoders. */
  method GetTag(w: ByteString, i: nat) returns (r: Read<Tag>)
    ensures r == if i + 32 <= |w.bytes| then Got(w.bytes[i..i + 32], i + 32) else OutOfBytes
  {
    var tag, k := [], 0;
    while k < 32
      invariant 0 <= k <= 32 && |tag| == k
      invariant k > 0 ==> i + k <= |w.bytes| && tag == w.bytes[i..i + k]
    {
      var c := w.GetInt8(i + k);
      if c.OutOfBytes? {
        return OutOfBytes;
      }
      tag, k := tag + [c.value], k + 1;
    }
    return Got(tag, i + 32);
  }

  /** Once a tag is cut short, no larger count can be read. */
  lemma {:induction false} NoFurther(p: seq<byte>, i: nat, j: nat, count: nat)
    requires j < count && ReadTags(p, i, j).Got? && ReadTags(p, i, j).next + 32 > |p|
    ensures ReadTags(p, i, count).OutOfBytes?
  {
    if j + 1 < count {
      NoFurther(p, i, j, count - 1);
    }
  }

  // ----- addr -----

  datatype NetworkAddress = NetworkAddress(time: uint32, stream: uint32, services: uint64, ip: seq<byte>, port: uint16)

  function EncodeAddress(a: NetworkAddress): seq<byte> {
    BigEndian(4, a.time) + (BigEndian(4, a.stream) + (BigEndian(8, a.services) + (a.ip + BigEndian(2, a.port))))
  }

  function EncodeList(addresses: seq<NetworkAddress>): seq<byte> {
    if addresses == [] then []
    else EncodeList(addresses[..|addresses| - 1]) + EncodeAddress(addresses[|addresses| - 1])
  }

  function EncodeAddresses(addresses: seq<NetworkAddress>): seq<byte>
    requires |addresses| < TWO64
  {
    EncodeVarInt(|addresses|) + EncodeList(addresses)
  }

  function GetAddress(p: seq<byte>, i: nat): Read<NetworkAddress> {
    var (time, i) :- GetInt(4, p, i);
    var (stream, i) :- GetInt(4, p, i);
    var (services, i) :- GetInt(8, p, i);
    var (ip, i) :- GetBytes(16, p, i);
    var (port, i) :- GetInt(2, p, i);
    Got(NetworkAddress(U32(time), U32(stream), U64(services), ip, port % TWO16), i)
  }

  function ReadAddresses(p: seq<byte>, i: nat, count: nat): Read<seq<NetworkAddress>> {
    if count == 0 then Got([], i)
    else
      var (list, j) :- ReadAddresses(p, i, count - 1);
      var (a, k) :- GetAddress(p, j);
      Got(list + [a], k)
  }

  function DecodeAddresses(p: seq<byte>): Read<seq<NetworkAddress>> {
    var (v, i) :- GetVarInt(p, 0);
    ReadAddresses(p, i, Count(v))
  }

  const ADDRESS_SIZE := 34

  /** The fields of the address at position `i`. */
  ghost predicate StandsAt(p: seq<byte>, i: nat, a: NetworkAddress) {
    && i + ADDRESS_SIZE <= |p|
    && a.time == Value(256, p[i..i + 4]) && a.stream == Value(256, p[i + 4..i + 8])
    && a.services == Value(256, p[i + 8..i + 16]) && a.ip == p[i + 16..i + 32]
    && a.port == Value(256, p[i + 32..i + 34])
  }

  lemma AddressMeans(p: seq<byte>, i: nat)
    requires i <= |p| < TWO31
    ensures GetAddress(p, i).Got? <==> i + ADDRESS_SIZE <= |p|
    ensures GetAddress(p, i).Got? ==> GetAddress(p, i).next == i + ADDRESS_SIZE
    ensures GetAddress(p, i).Got? ==> StandsAt(p, i, GetAddress(p, i).value)
  {
    hide Value;
    if i + ADDRESS_SIZE <= |p| {
      Widths();
      ValueBound(256, p[i..i + 4]);
      ValueBound(256, p[i + 4..i + 8]);
      ValueBound(256, p[i + 8..i + 16]);
      ValueBound(256, p[i + 32..i + 34]);
    }
  }

  lemma {:induction false} ReadAddressesMeans(p: seq<byte>, i: nat, count: nat)
    requires i <= |p| < TWO31
    ensures ReadAddresses(p, i, count).Got? <==> i + ADDRESS_SIZE * count <= |p|
    ensures ReadAddresses(p, i, count).Got? ==>
              var (list, next) := ReadAddresses(p, i, count).Extract();
              && next == i + ADDRESS_SIZE * count && |list| == count
              && forall k :: 0 <= k < count ==> StandsAt(p, i + ADDRESS_SIZE * k, list[k])
  {
    hide GetAddress, StandsAt;
    if count > 0 {
      ReadAddressesMeans(p, i, count - 1);
      if ReadAddresses(p, i, count - 1).Got? {
        AddressMeans(p, i + ADDRESS_SIZE * (count - 1));
      }
    }
  }

  /** An address list decodes exactly if its count can be read and 34 bytes for each counted address
      follow: time, stream, services, the 16 bytes of the IP, and the port. */
  lemma DecodeAddressesMeans(p: seq<byte>)
    requires |p| < TWO31
    ensures var size := GetVarInt(p, 0);
            DecodeAddresses(p).Got? <==>
              size.Got? && size.next + ADDRESS_SIZE * (if size.value < TWO63 then size.value else 0) <= |p|
    ensures DecodeAddresses(p).Got? ==>
              var size, list := GetVarInt(p, 0), DecodeAddresses(p).value;
              && |list| == (if size.value < TWO63 then size.value else 0) && FullAddresses(list)
              && forall k :: 0 <= k < |list| ==> StandsAt(p, size.next + ADDRESS_SIZE * k, list[k])
  {
    hide GetVarInt, ReadAddresses, Count, Value;
    VarIntMeans(p, 0);
    if GetVarInt(p, 0).Got? {
      VarIntRange(p, 0);
      CountMeans(GetVarInt(p, 0).value);
      ReadAddressesMeans(p, GetVarInt(p, 0).next, Count(GetVarInt(p, 0).value));
    }
  }

  /** The addresses in an `addr` packet that are connected to: those of IPv4 nodes, with their ports. */
  function Connections(list: seq<NetworkAddress>): seq<(seq<byte>, uint16)>
    requires FullAddresses(list)
  {
    if list == [] then []
    else
      var init, a := list[..|list| - 1], list[|list| - 1];
      Connections(init) + if a.ip[11] == 0xff && a.ip[10] == 0xff then [(a.ip[12..16], a.port)] else []
  }

  /** Connected to is every address whose IP has two bytes 0xff in front of its last four, at these four
      bytes and its port, in the order of the list. */
  lemma ConnectionsMean(list: seq<NetworkAddress>, a: NetworkAddress)
    requires FullAddresses(list) && |a.ip| == 16
    ensures Connections([]) == [] && FullAddresses(list + [a])
    ensures Connections(list + [a])
         == if a.ip[10..12] == [255, 255] then Connections(list) + [(a.ip[12..], a.port)] else Connections(list)
  {
    assert (list + [a])[..|list|] == list;
    assert a.ip[10..12] == [a.ip[10], a.ip[11]] && a.ip[12..16] == a.ip[12..];
  }

  lemma AddressReadsBack(a: NetworkAddress, p: seq<byte>, i: nat)
    requires |a.ip| == 16 && |p| < TWO31 && At(p, i, EncodeAddress(a))
    ensures GetAddress(p, i) == Got(a, i + |EncodeAddress(a)|)
  {
    hide BigEndian, GetInt, GetBytes, Pow, At;
    AddressParts(a, p, i);
    IntReadsBack(4, a.time, p, i);
    IntReadsBack(4, a.stream, p, i + 4);
    IntReadsBack(8, a.services, p, i + 8);
    BytesReadBack(a.ip, p, i + 16);
    IntReadsBack(2, a.port, p, i + 32);
    Widths();
  }

  lemma AddressParts(a: NetworkAddress, p: seq<byte>, i: nat)
    requires |a.ip| == 16 && At(p, i, EncodeAddress(a))
    ensures At(p, i, BigEndian(4, a.time)) && At(p, i + 4, BigEndian(4, a.stream))
    ensures At(p, i + 8, BigEndian(8, a.services)) && At(p, i + 16, a.ip)
    ensures At(p, i + 32, BigEndian(2, a.port))
  {
    hide BigEndian, At;
    var t, s, v, q := BigEndian(4, a.time), BigEndian(4, a.stream), BigEndian(8, a.services), BigEndian(2, a.port);
    AtSplit(p, i, t, s + (v + (a.ip + q)));
    AtSplit(p, i + 4, s, v + (a.ip + q));
    AtSplit(p, i + 8, v, a.ip + q);
    AtSplit(p, i + 16, a.ip, q);
  }

  ghost predicate FullAddresses(addresses: seq<NetworkAddress>) {
    forall k :: 0 <= k < |addresses| ==> |addresses[k].ip| == 16
  }

  lemma {:induction false} AddressesStandAt(addresses: seq<NetworkAddress>, p: seq<byte>, i: nat)
    requires FullAddresses(addresses) && |p| < TWO31 && At(p, i, EncodeList(addresses))
    ensures ReadAddresses(p, i, |addresses|) == Got(addresses, i + |EncodeList(addresses)|)
  {
    hide EncodeAddress, GetAddress;
    if addresses != [] {
      var n := |addresses| - 1;
      var init, last := addresses[..n], addresses[n];
      AtSplit(p, i, EncodeList(init), EncodeAddress(last));
      AddressesStandAt(init, p, i);
      AddressReadsBack(last, p, i + |EncodeList(init)|);
      assert addresses == init + [last];
    }
  }

  /** Address lists with 16-byte addresses survive the trip, whatever their length. */
  lemma AddressesReadBack(addresses: seq<NetworkAddress>)
    requires FullAddresses(addresses)
    requires |addresses| < TWO63 && |EncodeAddresses(addresses)| < TWO31
    ensures DecodeAddresses(EncodeAddresses(addresses)) == Got(addresses, |EncodeAddresses(addresses)|)
  {
    hide EncodeVarInt, GetVarInt, EncodeList, ReadAddresses;
    var p := EncodeAddresses(addresses);
    AtWhole(p);
    AtSplit(p, 0, EncodeVarInt(|addresses|), EncodeList(addresses));
    VarIntReadsBack(|addresses|, p, 0);
    AddressesStandAt(addresses, p, |EncodeVarInt(|addresses|)|);
  }

  class AddrPacket {
    var addrList: seq<NetworkAddress>
    var messagePayload: seq<byte>

    constructor (addresses: seq<NetworkAddress>, payload: seq<byte>)
      ensures addrList == addresses && messagePayload == payload
    {
      addrList, messagePayload := addresses, payload;
    }

    method EncodeData()
      requires |addrList| < TWO64
      modifies this`messagePayload
      ensures messagePayload == EncodeAddresses(addrList)
    {
      hide EncodeVarInt, BigEndian;
      var w := new ByteString();
      w.AppendVarInt(|addrList|);
      var i := 0;
      assert addrList[..0] == [];
      while i < |addrList|
        invariant i <= |addrList|
        invariant w.bytes == EncodeVarInt(|addrList|) + EncodeList(addrList[..i])
      {
        assert addrList[..i + 1][..i] == addrList[..i];
        AppendAddress(w, addrList[i]);
        i := i + 1;
      }
      assert addrList[..i] == addrList;
      messagePayload := w.bytes;
    }

    method DecodeData() returns (ok: bool)
      modifies this`addrList
      ensures ok == DecodeAddresses(messagePayload).Got?
      ensures ok ==> addrList == old(addrList) + DecodeAddresses(messagePayload).value
    {
      hide GetVarInt, GetAddress;
      var w := new ByteString.Of(messagePayload);
      var size := w.GetVarInt(0);
      if size.OutOfBytes? {
        return false;
      }
      var i, j := size.next, 0;
      while j < Int64(size.value)
        invariant 0 <= j <= Count(size.value) && w.bytes == messagePayload
        invariant ReadAddresses(messagePayload, size.next, j).Got?
        invariant ReadAddresses(messagePayload, size.next, j).next == i
        invariant addrList == old(addrList) + ReadAddresses(messagePayload, size.next, j).value
      {
        var a := TakeAddress(w, i);
        if a.OutOfBytes? {
          NoFurtherAddress(messagePayload, size.next, j, Count(size.value));
          return false;
        }
        addrList := addrList + [a.value];
        i, j := a.next, j + 1;
      }
      ok := true;
    }
  }

  method AppendAddress(w: ByteString, a: NetworkAddress)
    modifies w
    ensures w.bytes == old(w.bytes) + EncodeAddress(a)
  {
    hide BigEndian;
    w.AppendInt32(a.time);
    w.AppendInt32(a.stream);
    w.AppendInt64(a.services);
    w.Append(a.ip);
    w.AppendInt16(a.port);
  }

  method TakeAddress(w: ByteString, i: nat) returns (r: Read<NetworkAddress>)
    ensures r == GetAddress(w.bytes, i)
  {
    hide GetInt, GetBytes;
    var time := w.GetUnsigned(4, i);
    if time.OutOfBytes? { return OutOfBytes; }
    var stream := w.GetUnsigned(4, time.next);
    if stream.OutOfBytes? { return OutOfBytes; }
    var services := w.GetUnsigned(8, stream.next);
    if services.OutOfBytes? { return OutOfBytes; }
    var ip := w.GetUstring(16, services.next);
    if ip.OutOfBytes? { return OutOfBytes; }
    var port := w.GetUnsigned(2, ip.next);
    if port.OutOfBytes? { return OutOfBytes; }
    return Got(NetworkAddress(U32(time.value), U32(stream.value), U64(services.value), ip.value, port.value % TWO16),
               port.next);
  }

  lemma {:induction false} NoFurtherAddress(p: seq<byte>, i: nat, j: nat, count: nat)
    requires j < count && ReadAddresses(p, i, j).Got? && GetAddress(p, ReadAddresses(p, i, j).next).OutOfBytes?
    ensures ReadAddresses(p, i, count).OutOfBytes?
  {
    hide GetAddress;
    if j + 1 < count {
      NoFurtherAddress(p, i, j, count - 1);
    }
  }
}
