/** The methods of a node that take part in the gossip: BitMRC/BitMRC.cpp and BitMRC/NodeConnection.cpp. */
module Nodes {
  import opened Positional
  import opened Words
  import opened ByteStrings
  import opened Objects
  import opened Inventory
  import opened Hashes
  import opened HashFunction
  import opened HashTables
  import opened ProofOfWork
  import opened Gossip
  import opened Framing
  import opened Signatures
  import opened Wire
  import Ber

  lemma LongTag(tag: Tag)
    ensures Stable(tag)
  {
  }

  lemma NeededFrom(log: Log, tags: seq<Tag>, i: nat)
    requires i <= |tags|
    ensures Needed(log, tags[..0]) == []
    ensures i < |tags| ==>
              Needed(log, tags[..i + 1]) == Needed(log, tags[..i]) + if Holds(log, tags[i]) then [] else [tags[i]]
  {
    hide Holds;
    if i < |tags| {
      assert tags[..i + 1][..i] == tags[..i];
    }
  }

  lemma RepliesFrom(log: Log, tags: seq<Tag>, i: nat)
    requires i <= |tags|
    ensures Replies(log, tags[..0]) == []
    ensures i < |tags| ==>
              var payload := FirstInfo(Bucket(log, SlotOf(tags[i])), tags[i], []);
              Replies(log, tags[..i + 1]) == Replies(log, tags[..i]) + if payload == [] then [] else [payload]
  {
    hide FirstInfo, Bucket, SlotOf;
    if i < |tags| {
      assert tags[..i + 1][..i] == tags[..i];
    }
  }

  /** The payload of the acknowledgement packet, if the packet can be taken from the bytes of the message
      and is an object. */
  function AckPayload(ackData: seq<byte>): Read<seq<byte>> {
    var (ack, i) :- ParsePacket(ackData);
    if DecodeData(ack.payload).OutOfBytes? then OutOfBytes else Got(ack.payload, i)
  }

  /** It can exactly if an object stands behind 24 bytes of header, whatever these say. */
  lemma AckPayloadMeans(ackData: seq<byte>)
    requires |ackData| < TWO31
    ensures AckPayload(ackData).Got? <==> |ackData| >= 24 && DecodeData(ackData[24..]).Got?
    ensures AckPayload(ackData).Got? ==> AckPayload(ackData).value == ackData[24..]
  {
    hide DecodeData, ParsePacket;
    ParsePacketMeans(ackData);
  }

  /** What follows the storing, up to the use that is made of the object. */
  method Dispatch(o: Object, plains: seq<seq<byte>>) returns (throws: bool)
    ensures throws == DispatchThrows(o, plains)
  {
    hide TaggedBody, Unreadable;
    if Tagged(o) {
      var tagged := ReadTagged(o.body);
      if tagged.OutOfBytes? {
        return true;
      }
    }
    if o.objectType == TYPE_PUBKEY {
      var k := 0;
      while k < |plains|
        invariant k <= |plains| && forall i :: 0 <= i < k ==> !Unreadable(plains[i])
      {
        var unreadable := TryPubKey(plains[k]);
        if unreadable {
          return true;
        }
        k := k + 1;
      }
    }
    return false;
  }

  method OpenAll(list: seq<NetworkAddress>) returns (connected: seq<(seq<byte>, uint16)>)
    requires FullAddresses(list)
    ensures connected == Connections(list)
  {
    connected := [];
    var i := 0;
    assert list[..0] == [];
    while i < |list|
      invariant i <= |list| && FullAddresses(list[..i]) && connected == Connections(list[..i])
    {
      assert list[..i + 1][..i] == list[..i];
      if list[i].ip[11] == 0xff && list[i].ip[10] == 0xff {
        connected := connected + [(list[i].ip[12..16], list[i].port)];
      }
      i := i + 1;
    }
    assert list[..i] == list;
  }

  method TryPubKey(plain: seq<byte>) returns (unreadable: bool)
    ensures unreadable == Unreadable(plain)
  {
    hide ParsePubKey, Ber.DecodePair;
    var r := ReadPubKey(plain);
    unreadable := r.OutOfBytes? || Ber.DecodePair(r.value.sign).OutOfBytes?;
  }

  /** `decodeObject` of the tagged kinds. */
  method ReadTagged(objectPayload: seq<byte>) returns (r: Read<(seq<byte>, seq<byte>)>)
    ensures r == TaggedBody(objectPayload)
  {
    hide GetBytes;
    var w := new ByteString.Of(objectPayload);
    var tag := w.GetUstring(32, 0);
    if tag.OutOfBytes? { return OutOfBytes; }
    var encrypted := w.GetRest(tag.next);
    if encrypted.OutOfBytes? { return OutOfBytes; }
    return Got((tag.value, encrypted.value), encrypted.next);
  }

  class Node {
    const sharedObj: HashTable<seq<byte>>
    var newInv: seq<Tag>
    ghost var Repr: set<object>

    ghost predicate Valid()
      reads this, Repr
    {
      && this in Repr && sharedObj in Repr && sharedObj.Repr <= Repr && this !in sharedObj.Repr
      && sharedObj.Valid()
    }

    ghost function Now(): State
      reads this, sharedObj
    {
      State(sharedObj.Log, newInv, true)
    }

    constructor ()
      ensures Valid() && fresh(Repr) && Now() == EMPTY
    {
      sharedObj := new HashTable<seq<byte>>();
      newInv := [];
      new;
      Repr := {this} + sharedObj.Repr;
    }

    /** Storing a payload under its inventory hash. */
    method Store(sha512: Hash512, payload: seq<byte>) returns (present: int)
      requires Valid()
      modifies Repr
      ensures Valid() && fresh(Repr - old(Repr))
      ensures present == Code(old(Now()).log, EntryOf(sha512, payload))
      ensures Now() == old(Now()).(log := Added(old(Now()).log, EntryOf(sha512, payload)))
    {
      hide TagOf, SlotOf, Code, Added;
      var invHash := TagOf(sha512, payload);
      ghost var e;
      present, e := sharedObj.Insert(payload, invHash);
      assert e == EntryOf(sha512, payload);
      Repr := Repr + sharedObj.Repr;
    }

    method Propagate(sha512: Hash512, payload: seq<byte>, time: int64, now: int)
      requires Valid()
      modifies Repr
      ensures Valid() && fresh(Repr - old(Repr))
      ensures Now() == Propagated(sha512, old(Now()), payload, time, now)
      ensures var tag := sha512(sha512(payload))[..32];
              if Validate(sha512, payload, time, now) == Accepted then
                && newInv == old(newInv) + [tag]
                && (var log := old(sharedObj.Log);
                    sharedObj.Log == if HasInfo(Bucket(log, SlotOf(tag)), payload) then log
                                     else log + [Entry(tag, payload, SlotOf(tag))])
              else
                newInv == old(newInv) && sharedObj.Log == old(sharedObj.Log)
    {
      ObjectStored(sha512, Now(), payload, time, now);
      hide Validate, TagOf, SlotOf, Code, Added, EntryOf, Bucket, HasInfo;
      if Validate(sha512, payload, time, now) != Accepted {
        return;
      }
      var present := Store(sha512, payload);
      newInv := newInv + [TagOf(sha512, payload)];
    }

    /** `throws` tells of an exception behind the storing. */
    method ProcessObj(sha512: Hash512, o: Object, payload: seq<byte>, plains: seq<seq<byte>>, now: int)
      returns (throws: bool)
      requires Valid()
      modifies Repr
      ensures Valid() && fresh(Repr - old(Repr))
      ensures Now() == Processed(sha512, old(Now()), payload, o.time, now)
      ensures var tag := sha512(sha512(payload))[..32];
              var chain := Bucket(old(sharedObj.Log), SlotOf(tag));
              if Validate(sha512, payload, o.time, now) == Accepted then
                && newInv == (if chain == [] || HasInfo(chain, payload) then old(newInv) + [tag] else old(newInv))
                && sharedObj.Log == (if HasInfo(chain, payload) then old(sharedObj.Log)
                                     else old(sharedObj.Log) + [Entry(tag, payload, SlotOf(tag))])
              else
                newInv == old(newInv) && sharedObj.Log == old(sharedObj.Log)
      ensures throws <==> && Validate(sha512, payload, o.time, now) == Accepted
                          && Code(old(Now()).log, EntryOf(sha512, payload)) != 2 && DispatchThrows(o, plains)
    {
      ObjectStored(sha512, Now(), payload, o.time, now);
      hide Validate, TagOf, SlotOf, Code, Added, EntryOf, DispatchThrows, Bucket, HasInfo;
      if Validate(sha512, payload, o.time, now) == Accepted {
        var present := Store(sha512, payload);
        if present == 2 {
          return false;
        }
        newInv := newInv + [TagOf(sha512, payload)];
        throws := Dispatch(o, plains);
        return;
      }
      return false;
    }

    /** The `object` branch of the listener; `ends` tells of an exception that leaves it. */
    method HandleObject(sha512: Hash512, payload: seq<byte>, plains: seq<seq<byte>>, now: int) returns (ends: bool)
      requires Valid()
      modifies Repr
      ensures Valid() && fresh(Repr - old(Repr))
      ensures ends <==> !Endures(sha512, old(Now()).log, Arrival(payload, plains, now))
      ensures Next(sha512, old(Now()), Arrival(payload, plains, now)) == if ends then STOPPED else Now()
    {
      hide Validate, Processed, DecodeData, Code, EntryOf, DispatchThrows;
      var obj := new ObjectPacket(Object(0, 0, 0, 0, 0, []));
      obj.messagePayload := payload;
      var ok := obj.Decode();
      if !ok {
        return true;
      }
      var o := Object(obj.nonce, obj.time, obj.objectType, obj.version, obj.stream, obj.objectPayload);
      ends := ProcessObj(sha512, o, payload, plains, now);
    }

    /** The packet that came with a message as its acknowledgement. `ok` is false when taking it from
        the bytes or decoding it throws; then nothing has been done. */
    method PropagateAck(sha512: Hash512, ackData: seq<byte>, now: int) returns (ok: bool)
      requires Valid()
      modifies Repr
      ensures Valid() && fresh(Repr - old(Repr))
      ensures ok <==> AckPayload(ackData).Got?
      ensures Now() == if ok then Next(sha512, old(Now()), Publish(AckPayload(ackData).value, now)) else old(Now())
    {
      hide Validate, Propagated, DecodeData, ParsePacket, HasInfo, Bucket, SlotOf, Next;
      var ack := ReadPacket(ackData);
      if ack.OutOfBytes? {
        return false;
      }
      var obj := new ObjectPacket(Object(0, 0, 0, 0, 0, []));
      obj.messagePayload := ack.value.payload;
      ok := obj.Decode();
      if ok {
        PublishingPropagates(sha512, Now(), ack.value.payload, now);
        Propagate(sha512, ack.value.payload, obj.time, now);
      }
    }

    /** The `inv` branch: a `getdata` for the tags that are not present, if there are any. */
    method HandleInv(sha512: Hash512, payload: seq<byte>) returns (ends: bool, needed: seq<Tag>)
      requires Valid()
      ensures ends <==> !Endures(sha512, Now().log, Inv(payload))
      ensures !ends ==> needed == Needed(Now().log, DecodeTags(payload).value)
    {
      hide DecodeTags;
      var inv := new TagListPacket([], payload);
      var ok := inv.DecodeData();
      if !ok {
        return true, [];
      }
      assert inv.inventory == DecodeTags(payload).value;
      needed := NeededTags(inv.inventory);
      ends := false;
    }

    method NeededTags(tags: seq<Tag>) returns (needed: seq<Tag>)
      requires Valid()
      ensures needed == Needed(Now().log, tags)
    {
      hide Bucket, HasHash, SlotOf, Slot, Stable, Needed, AllStored, Owned, Heads, Linked;
      needed := [];
      NeededFrom(sharedObj.Log, tags, 0);
      var i := 0;
      while i < |tags|
        invariant i <= |tags| && needed == Needed(sharedObj.Log, tags[..i])
      {
        NeededFrom(sharedObj.Log, tags, i);
        LongTag(tags[i]);
        var present;
        ghost var slot;
        present, slot := sharedObj.Present(tags[i]);
        if present == 0 {
          needed := needed + [tags[i]];
        }
        i := i + 1;
      }
      assert tags[..i] == tags;
    }

    /** The `getdata` branch. */
    method HandleGetdata(sha512: Hash512, payload: seq<byte>) returns (ends: bool, sent: seq<seq<byte>>)
      requires Valid()
      ensures ends <==> !Endures(sha512, Now().log, Getdata(payload))
      ensures !ends ==> sent == Replies(Now().log, DecodeTags(payload).value)
    {
      hide DecodeTags;
      var getdata := new TagListPacket([], payload);
      var ok := getdata.DecodeData();
      if !ok {
        return true, [];
      }
      assert getdata.inventory == DecodeTags(payload).value;
      sent := FoundObjects(getdata.inventory);
      ends := false;
    }

    method FoundObjects(tags: seq<Tag>) returns (sent: seq<seq<byte>>)
      requires Valid()
      ensures sent == Replies(Now().log, tags)
    {
      hide Bucket, FirstInfo, SlotOf, Slot, Stable, Replies, AllStored, Owned, Heads, Linked;
      sent := [];
      RepliesFrom(sharedObj.Log, tags, 0);
      var i := 0;
      while i < |tags|
        invariant i <= |tags| && sent == Replies(sharedObj.Log, tags[..i])
      {
        RepliesFrom(sharedObj.Log, tags, i);
        LongTag(tags[i]);
        var objPayload;
        ghost var slot;
        objPayload, slot := sharedObj.SearchByHash(tags[i], []);
        if objPayload != [] {
          sent := sent + [objPayload];
        }
        i := i + 1;
      }
      assert tags[..i] == tags;
    }

    /** The `version` branch. */
    method HandleVersion(sha512: Hash512, payload: seq<byte>) returns (ends: bool, version: int32)
      requires Valid() && |payload| < TWO31
      ensures ends <==> !Endures(sha512, Now().log, Version(payload))
      ensures !ends ==> version == DecodeVersion(payload).value
    {
      hide DecodeVersion;
      var r := ReadVersion(payload);
      if r.OutOfBytes? {
        return true, 0;
      }
      return false, r.value;
    }

    /** The `addr` branch: the packet is passed on before it is decoded, and every IPv4 node in it is
        connected to. */
    method HandleAddr(sha512: Hash512, payload: seq<byte>)
      returns (ends: bool, passedOn: seq<byte>, connected: seq<(seq<byte>, uint16)>)
      requires Valid() && |payload| < TWO31
      ensures passedOn == payload
      ensures ends <==> !Endures(sha512, Now().log, Addr(payload))
      ensures !ends ==>
                var list := DecodeAddresses(payload).value;
                FullAddresses(list) && connected == Connections(list)
      ensures ends ==> connected == []
    {
      hide DecodeAddresses;
      passedOn := payload;
      DecodeAddressesMeans(payload);
      var addr := new AddrPacket([], payload);
      var ok := addr.DecodeData();
      if !ok {
        return true, passedOn, [];
      }
      assert addr.addrList == DecodeAddresses(payload).value;
      connected := OpenAll(addr.addrList);
      ends := false;
    }

    /** An own object on its way from `sendObj` through `processPOW`: encoded without a nonce, mined,
        encoded again and propagated at a later time. */
    method Send(sha512: Hash512, o: Object, now: int, later: int) returns (nonce: uint64)
      requires Valid() && Minable(sha512, o, now)
      modifies Repr
      ensures Valid() && fresh(Repr - old(Repr))
      ensures IsFirst(sha512, Draft(o), MiningTarget(sha512, o, now), nonce)
      ensures Now() == Next(sha512, old(Now()), Publish(EncodePayload(o.(nonce := nonce)), later))
      ensures StaysInWindow(o, now, later) ==>
                Validate(sha512, EncodePayload(o.(nonce := nonce)), o.time, later) == Accepted
    {
      hide Validate, EncodePayload, DecodeData, Propagated, StaysInWindow, Minable, MiningTarget, IsFirst, Draft;
      hide HasInfo, Bucket, SlotOf, Next;
      var payload;
      nonce, payload := Mine(sha512, o, now);
      MinedInWindow(sha512, o, now, nonce, later);
      ghost var before := Now();
      Propagate(sha512, payload, o.time, later);
      ObjectReadsBack(o.(nonce := nonce));
      PublishingPropagates(sha512, before, payload, later);
    }
  }

  /** The object encoded without a nonce, the search, and the object encoded with what it found. */
  method Mine(sha512: Hash512, o: Object, now: int) returns (nonce: uint64, payload: seq<byte>)
    requires Minable(sha512, o, now)
    ensures IsFirst(sha512, Draft(o), MiningTarget(sha512, o, now), nonce)
    ensures payload == EncodePayload(o.(nonce := nonce))
  {
    hide EncodePayload, Meets, SearchTarget, Divisor, IsFirst, Value, BigEndian;
    var obj := new ObjectPacket(o.(nonce := 0));
    obj.Encode();
    nonce := SearchPow(sha512, obj.messagePayload, o.time, now);
    obj.nonce := nonce;
    obj.Encode();
    payload := obj.messagePayload;
  }

  /** The payload that is mined. */
  function Draft(o: Object): (data: seq<byte>)
    ensures |data| >= 22
  {
    EncodePayload(o.(nonce := 0))
  }

  /** The target is defined, and some nonce meets it. */
  ghost predicate Minable(sha512: Hash512, o: Object, now: int) {
    && Divisor(U64(|Draft(o)| - 8), U64(o.time - now), EXTRA_BYTES, NONCE_TRIALS) != 0
    && Reachable(sha512, Draft(o), SearchTarget(|Draft(o)| - 8, o.time - now))
  }

  ghost function MiningTarget(sha512: Hash512, o: Object, now: int): nat
    requires Minable(sha512, o, now)
  {
    SearchTarget(|Draft(o)| - 8, o.time - now)
  }

  /** The object is small enough, and inside its time window both when it is mined and when it is sent. */
  ghost predicate StaysInWindow(o: Object, now: int, later: int) {
    && |Draft(o)| <= MAX_PAYLOAD && now <= later
    && InWindow(|Draft(o)| - 8, o.time - now) && InWindow(|Draft(o)| - 8, o.time - later)
  }

  lemma PublishingPropagates(sha512: Hash512, s: State, payload: seq<byte>, now: int)
    requires s.up && DecodeData(payload).Got?
    ensures Next(sha512, s, Publish(payload, now))
         == Propagated(sha512, s, payload, DecodeData(payload).value.time, now)
  {
    hide DecodeData, Propagated;
  }

  /** Inside the window the object passes the node's own check. */
  lemma MinedInWindow(sha512: Hash512, o: Object, now: int, nonce: uint64, later: int)
    requires Minable(sha512, o, now) && IsFirst(sha512, Draft(o), MiningTarget(sha512, o, now), nonce)
    ensures StaysInWindow(o, now, later) ==>
              Validate(sha512, EncodePayload(o.(nonce := nonce)), o.time, later) == Accepted
  {
    hide Validate, EncodePayload, Meets, TargetOf, SearchTarget, Divisor, PlainDivisor;
    if StaysInWindow(o, now, later) {
      SearchTargetInWindow(|Draft(o)| - 8, o.time - now);
      SearchMeetsCheck(sha512, o, Draft(o), now, nonce, later);
    }
  }
}
