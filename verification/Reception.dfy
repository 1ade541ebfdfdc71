/** From a decrypted plaintext to the message table: the two overloads of `decryptMsg` in
    BitMRC/BitMRC.cpp, behind the decryption. */
module Reception {
  import opened Positional
  import opened Words
  import opened Wire
  import opened Hashes
  import opened Objects
  import opened HashTables
  import opened Framing
  import opened Signatures
  import Addresses
  import AddressBook
  import Ber
  import Delivery
  import Gossip
  import Nodes
  import TableLaws

  /** The check of a signature: key, signature and the bytes it is over. */
  type Verifier = (seq<byte>, seq<byte>, seq<byte>) -> bool

  // ----- messages -----

  /** The plaintext is taken apart, is meant for the address it was decrypted with, and is signed by the
      key in it. */
  predicate Verified(payload: seq<byte>, recovered: seq<byte>, ripe: seq<byte>, verifies: Verifier) {
    var r := ParseMessage(recovered);
    && r.Got? && r.value.ripe == ripe && Ber.DecodePair(r.value.sign).Got?
    && var mess := Preimage(payload, [], recovered, r.value.k);
       mess.Got? && verifies(r.value.sender.keys.signing, r.value.sign, mess.value)
  }

  /** A verified message is delivered exactly if its acknowledgement is a packet with an object: taking
      the packet apart throws otherwise, and that is before the message is stored. */
  predicate Delivered(payload: seq<byte>, recovered: seq<byte>, ripe: seq<byte>, verifies: Verifier) {
    Verified(payload, recovered, ripe, verifies) && Nodes.AckPayload(ParseMessage(recovered).value.ack).Got?
  }

  function SenderAddress(sha512: Hash512, ripemd: Hash160, s: Sender): string {
    Addresses.Address(sha512, s.version, s.stream, Addresses.RipeOf(sha512, ripemd, s.keys.signing, s.keys.encryption))
  }

  function MessageOf(sha512: Hash512, ripemd: Hash160, m: Message, to: string): Delivery.Message {
    Delivery.Message(SenderAddress(sha512, ripemd, m.sender), to, m.text, m.sign)
  }

  /** The acknowledgement of every message the program sends is the single byte 1. No packet can be
      taken from it, so such a message is never delivered, whoever receives it. */
  lemma OwnMessagesAreLost(id: Identity, to: seq<byte>, text: seq<byte>, sign: seq<byte>, payload: seq<byte>,
                           ripe: seq<byte>, verifies: Verifier)
    requires FullKeys(id) && |to| == 20 && |text| < TWO31 && |sign| < TWO31
    requires |WithSignature(MessageBody(id, to, text), sign)| < TWO31
    ensures !Delivered(payload, WithSignature(MessageBody(id, to, text), sign), ripe, verifies)
  {
    hide ParseMessage, BodyWithAck, WithSignature, Verified, Nodes.AckPayload;
    MessageReadsBack(id, to, text, OWN_ACK, sign);
    Nodes.AckPayloadMeans(OWN_ACK);
  }

  /** A message with a framed object for its acknowledgement is delivered if and only if it verifies. */
  lemma AcknowledgedIsDelivered(payload: seq<byte>, recovered: seq<byte>, ripe: seq<byte>, verifies: Verifier,
                                p: Packet)
    requires Sendable(p) && |Frame(p)| < TWO31 && DecodeData(p.payload).Got?
    requires ParseMessage(recovered).Got? && ParseMessage(recovered).value.ack == Frame(p)
    ensures Delivered(payload, recovered, ripe, verifies) <==> Verified(payload, recovered, ripe, verifies)
  {
    hide ParseMessage, Verified, DecodeData, ParsePacket;
    FrameIsPacket(p);
  }

  /** There are such messages: one with any framed object for its acknowledgement, to the address it is
      decrypted with, is delivered if and only if the verifier takes its signature for the bytes that
      were signed. */
  lemma FramedAckIsDelivered(draft: Object, sent: Object, id: Identity, ripe: seq<byte>, text: seq<byte>, p: Packet,
                             sign: seq<byte>, verifies: Verifier)
    requires EncodeHeader(draft) == EncodeHeader(sent) && Sendable(p) && DecodeData(p.payload).Got?
    requires FullKeys(id) && |ripe| == 20 && |text| < TWO31 && |Frame(p)| < TWO31 && |sign| < TWO31
    requires |WithSignature(BodyWithAck(id, ripe, text, Frame(p)), sign)| < TWO31 && Ber.DecodePair(sign).Got?
    ensures var body := BodyWithAck(id, ripe, text, Frame(p));
            && (Delivered(EncodePayload(sent), WithSignature(body, sign), ripe, verifies)
                <==> verifies(id.signing[1..65], sign, EncodeHeader(draft) + body))
  {
    hide EncodeHeader, EncodePayload, BodyWithAck, WithSignature, ParseMessage, Preimage, DecodeData, Frame;
    var body := BodyWithAck(id, ripe, text, Frame(p));
    MessageVerifiesWhatWasSigned(draft, sent, id, ripe, text, Frame(p), sign);
    MessageReadsBack(id, ripe, text, Frame(p), sign);
    SameBytes(draft, sent, [], body, sign);
    assert EncodeHeader(draft) + [] + body == EncodeHeader(draft) + body;
    AcknowledgedIsDelivered(EncodePayload(sent), WithSignature(body, sign), ripe, verifies, p);
  }

  /** For a plaintext with any recipient, text, acknowledgement and signature: it is delivered if and only
      if it is meant for the address that decrypted it, its signature has the form of one, an object stands
      behind the 24 bytes of a packet header in its acknowledgement, and the verifier takes the signature
      for the bytes that were signed, by the signing key in it. */
  lemma DeliveredIff(draft: Object, sent: Object, id: Identity, to: seq<byte>, text: seq<byte>, ack: seq<byte>,
                     sign: seq<byte>, ripe: seq<byte>, verifies: Verifier)
    requires EncodeHeader(draft) == EncodeHeader(sent)
    requires FullKeys(id) && |to| == 20 && |text| < TWO31 && |ack| < TWO31 && |sign| < TWO31
    requires |WithSignature(BodyWithAck(id, to, text, ack), sign)| < TWO31
    ensures var body := BodyWithAck(id, to, text, ack);
            Delivered(EncodePayload(sent), WithSignature(body, sign), ripe, verifies) <==>
              && to == ripe && Ber.DecodePair(sign).Got? && |ack| >= 24 && DecodeData(ack[24..]).Got?
              && verifies(id.signing[1..], sign, EncodeHeader(draft) + body)
  {
    hide EncodeHeader, EncodePayload, BodyWithAck, WithSignature, ParseMessage, Preimage, DecodeData, Ber.DecodePair;
    hide Nodes.AckPayload;
    var body := BodyWithAck(id, to, text, ack);
    MessageReadsBack(id, to, text, ack, sign);
    SameBytes(draft, sent, [], body, sign);
    assert EncodeHeader(draft) + [] + body == EncodeHeader(draft) + body;
    assert id.signing[1..65] == id.signing[1..];
    Nodes.AckPayloadMeans(ack);
  }

  /** What is stored for such a message: its text, its signature, the receiving address, and the printed
      address of the version, the stream and the two keys in it. The sender becomes a contact with these
      keys and its proof of work parameters. */
  lemma WhatIsStored(sha512: Hash512, ripemd: Hash160, id: Identity, to: seq<byte>, text: seq<byte>, ack: seq<byte>,
                     sign: seq<byte>, own: string, book: seq<AddressBook.Contact>)
    requires FullKeys(id) && |to| == 20 && |text| < TWO31 && |ack| < TWO31 && |sign| < TWO31
    requires |WithSignature(BodyWithAck(id, to, text, ack), sign)| < TWO31
    ensures var r := ParseMessage(WithSignature(BodyWithAck(id, to, text, ack), sign));
            && r.Got?
            && (var m := MessageOf(sha512, ripemd, r.value, own);
                && m.info == text && m.signature == sign && m.to == own
                && m.sender == PrintedSender(sha512, ripemd, id))
            && WithSender(sha512, ripemd, book, r.value.sender)
            == AddressBook.Put(book, ContactFor(sha512, ripemd, id))
  {
    hide BodyWithAck, WithSignature, ParseMessage, AddressBook.Put, Addresses.Address;
    MessageReadsBack(id, to, text, ack, sign);
    SenderIs(sha512, ripemd, id);
    hide SenderAddress, PrintedSender, ContactOf, ContactFor, SenderOf;
  }

  /** And what is published: the object behind the header of the acknowledgement. */
  lemma WhatIsPublished(sha512: Hash512, recovered: seq<byte>, s: Gossip.State, now: int)
    requires |recovered| < TWO31
    requires ParseMessage(recovered).Got? && Nodes.AckPayload(ParseMessage(recovered).value.ack).Got?
    ensures var ack := ParseMessage(recovered).value.ack;
            && |ack| >= 24
            && Published(sha512, s, recovered, now) == Gossip.Next(sha512, s, Gossip.Publish(ack[24..], now))
  {
    hide ParseMessage, Nodes.AckPayload, Gossip.Next;
    AckIsShort(recovered);
    Nodes.AckPayloadMeans(ParseMessage(recovered).value.ack);
  }

  lemma AckIsShort(recovered: seq<byte>)
    requires ParseMessage(recovered).Got?
    ensures |ParseMessage(recovered).value.ack| <= |recovered|
  {
    hide GetSender, GetVarInt, GetBytes, GetVarBytes;
    forall i: nat | GetVarBytes(recovered, i).Got? ensures |GetVarBytes(recovered, i).value| <= |recovered| {
      PartIsShort(recovered, i);
    }
  }

  lemma PartIsShort(s: seq<byte>, i: nat)
    requires GetVarBytes(s, i).Got?
    ensures |GetVarBytes(s, i).value| <= |s|
  {
    hide GetVarInt;
  }

  /** The address printed for the keys of an identity. */
  function PrintedSender(sha512: Hash512, ripemd: Hash160, id: Identity): string
    requires FullKeys(id)
  {
    Addresses.Address(sha512, id.version, id.stream,
                      ripemd(sha512([4] + id.signing[1..] + [4] + id.encryption[1..])))
  }

  /** The parameters are only sent from version 3 on; before, both are 1000. */
  function ContactFor(sha512: Hash512, ripemd: Hash160, id: Identity): AddressBook.Contact
    requires FullKeys(id)
  {
    AddressBook.Contact(PrintedSender(sha512, ripemd, id), false, [4] + id.signing[1..], [4] + id.encryption[1..],
                        if id.version >= 3 then id.nonceTrials else 1000,
                        if id.version >= 3 then id.extraBytes else 1000)
  }

  lemma SenderIs(sha512: Hash512, ripemd: Hash160, id: Identity)
    requires FullKeys(id)
    ensures SenderAddress(sha512, ripemd, SenderOf(id)) == PrintedSender(sha512, ripemd, id)
    ensures ContactOf(PrintedSender(sha512, ripemd, id), SenderOf(id)) == ContactFor(sha512, ripemd, id)
  {
    hide Addresses.Address;
    var signing, encryption := id.signing[1..65], id.encryption[1..65];
    Addresses.KeysAreJoined(sha512, ripemd, signing, encryption);
    assert signing == id.signing[1..] && encryption == id.encryption[1..];
  }

  // ----- broadcasts -----

  /** The tag is part of what is signed in version 5. */
  function SignedTag(version: uint64, tag: seq<byte>): seq<byte> {
    if version == 5 then tag else []
  }

  predicate VerifiedBroadcast(payload: seq<byte>, version: uint64, tag: seq<byte>, recovered: seq<byte>,
                              verifies: Verifier)
  {
    var r := ParseBroadcast(recovered);
    && r.Got? && Ber.DecodePair(r.value.sign).Got?
    && var mess := Preimage(payload, SignedTag(version, tag), recovered, r.value.k);
       mess.Got? && verifies(r.value.sender.keys.signing, r.value.sign, mess.value)
  }

  /** A broadcast carries neither recipient nor acknowledgement: it is delivered if and only if its signature
      has the form of one and the verifier takes it for the bytes that were signed. */
  lemma BroadcastDeliveredIff(draft: Object, sent: Object, id: Identity, version: uint64, tag: seq<byte>,
                              text: seq<byte>, sign: seq<byte>, verifies: Verifier)
    requires EncodeHeader(draft) == EncodeHeader(sent) && FullKeys(id) && |text| < TWO31 && |sign| < TWO31
    requires |WithSignature(BroadcastBody(id, text), sign)| < TWO31
    ensures VerifiedBroadcast(EncodePayload(sent), version, tag, WithSignature(BroadcastBody(id, text), sign), verifies)
       <==> && Ber.DecodePair(sign).Got?
            && verifies(id.signing[1..], sign,
                        EncodeHeader(draft) + (if version == 5 then tag else []) + BroadcastBody(id, text))
  {
    hide EncodeHeader, EncodePayload, BroadcastBody, WithSignature, ParseBroadcast, Preimage, Ber.DecodePair;
    BroadcastReadsBack(id, text, sign);
    SameBytes(draft, sent, SignedTag(version, tag), BroadcastBody(id, text), sign);
    assert id.signing[1..65] == id.signing[1..];
  }

  /** A broadcast carries no acknowledgement: one the program sent, signed in a form that can be read,
      is delivered if and only if the verifier takes the signature for the bytes that were signed. */
  lemma OwnBroadcastsArrive(draft: Object, sent: Object, id: Identity, tag: seq<byte>, text: seq<byte>,
                            sign: seq<byte>, encrypted: seq<byte>, verifies: Verifier)
    requires EncodeHeader(draft) == EncodeHeader(sent) && |tag| == 32 && sent.body == tag + encrypted
    requires FullKeys(id) && |text| < TWO31 && |sign| < TWO31 && |sent.body| < TWO31
    requires |WithSignature(BroadcastBody(id, text), sign)| < TWO31 && Ber.DecodePair(sign).Got?
    ensures TaggedBody(sent.body).Got?
    ensures VerifiedBroadcast(EncodePayload(sent), 5, TaggedBody(sent.body).value.0,
                              WithSignature(BroadcastBody(id, text), sign), verifies)
       <==> verifies(id.signing[1..65], sign, EncodeHeader(draft) + tag + BroadcastBody(id, text))
  {
    hide EncodeHeader, EncodePayload, BroadcastBody, WithSignature, ParseBroadcast, Preimage, TaggedBody;
    BroadcastVerifiesWhatWasSigned(draft, sent, id, tag, text, sign, encrypted);
    BroadcastReadsBack(id, text, sign);
    SameBytes(draft, sent, tag, BroadcastBody(id, text), sign);
  }

  function BroadcastOf(sha512: Hash512, ripemd: Hash160, m: Broadcast): Delivery.Message {
    Delivery.Message(SenderAddress(sha512, ripemd, m.sender), "Broadcast", m.text, m.sign)
  }

  /** What is stored for a broadcast: the same as for a message, addressed to nobody. */
  lemma WhatIsStoredOfBroadcast(sha512: Hash512, ripemd: Hash160, id: Identity, text: seq<byte>, sign: seq<byte>,
                                book: seq<AddressBook.Contact>)
    requires FullKeys(id) && |text| < TWO31 && |sign| < TWO31
    requires |WithSignature(BroadcastBody(id, text), sign)| < TWO31
    ensures var r := ParseBroadcast(WithSignature(BroadcastBody(id, text), sign));
            && r.Got?
            && (var m := BroadcastOf(sha512, ripemd, r.value);
                && m.info == text && m.signature == sign && m.to == "Broadcast"
                && m.sender == PrintedSender(sha512, ripemd, id))
            && WithSender(sha512, ripemd, book, r.value.sender)
            == AddressBook.Put(book, ContactFor(sha512, ripemd, id))
  {
    hide BroadcastBody, WithSignature, ParseBroadcast, AddressBook.Put, Addresses.Address;
    BroadcastReadsBack(id, text, sign);
    SenderIs(sha512, ripemd, id);
    hide SenderAddress, PrintedSender, ContactOf, ContactFor, SenderOf;
  }

  // ----- the code -----

  /** The key hash of a sender is not all zeros; printing its address would read behind the hash. */
  predicate HasAddress(sha512: Hash512, ripemd: Hash160, s: Sender) {
    LeadingZeros(Addresses.RipeOf(sha512, ripemd, s.keys.signing, s.keys.encryption)) < 20
  }

  function ContactOf(addr: string, s: Sender): AddressBook.Contact {
    AddressBook.Contact(addr, false, Addresses.FullKey(s.keys.signing), Addresses.FullKey(s.keys.encryption),
                        s.params.nonceTrials, s.params.extraBytes)
  }

  function WithSender(sha512: Hash512, ripemd: Hash160, book: seq<AddressBook.Contact>, s: Sender)
    : seq<AddressBook.Contact>
  {
    AddressBook.Put(book, ContactOf(SenderAddress(sha512, ripemd, s), s))
  }

  ghost function Published(sha512: Hash512, s: Gossip.State, recovered: seq<byte>, now: int): Gossip.State
    requires ParseMessage(recovered).Got? && Nodes.AckPayload(ParseMessage(recovered).value.ack).Got?
  {
    Gossip.Next(sha512, s, Gossip.Publish(Nodes.AckPayload(ParseMessage(recovered).value.ack).value, now))
  }

  /** A plaintext that can be taken apart has its signature inside. */
  lemma SignedPartEnds(recovered: seq<byte>)
    ensures ParseMessage(recovered).Got? ==> ParseMessage(recovered).value.k <= |recovered|
    ensures ParseBroadcast(recovered).Got? ==> ParseBroadcast(recovered).value.k <= |recovered|
  {
    hide GetSender, GetInt;
  }

  class Receiver {
    const node: Nodes.Node
    const inbox: Delivery.Inbox
    const book: AddressBook.Addresses
    ghost var Repr: set<object>

    ghost predicate Valid()
      reads this, Repr
    {
      && this in Repr && node in Repr && inbox in Repr && book in Repr
      && node.Repr <= Repr && inbox.Repr <= Repr
      && this !in node.Repr && this !in inbox.Repr && book !in node.Repr && book !in inbox.Repr
      && node.Repr !! inbox.Repr
      && node.Valid() && inbox.Valid()
    }

    constructor ()
      ensures Valid() && fresh(Repr)
    {
      node := new Nodes.Node();
      inbox := new Delivery.Inbox();
      book := new AddressBook.Addresses();
      new;
      Repr := {this, book} + node.Repr + inbox.Repr + {node, inbox};
    }

    /** The sender of what has been verified goes into the list of addresses. */
    method StoreSender(sha512: Hash512, ripemd: Hash160, s: Sender) returns (addr: string)
      requires Valid() && HasAddress(sha512, ripemd, s)
      modifies book
      ensures addr == SenderAddress(sha512, ripemd, s)
      ensures book.PubAddresses == AddressBook.Put(old(book.PubAddresses), ContactOf(addr, s))
    {
      hide Addresses.Address, Addresses.RipeOf, Addresses.Load, LeadingZeros, AddressBook.Put;
      addr := Addresses.BuildAddressFromKeys(sha512, ripemd, s.keys.signing, s.keys.encryption, s.stream, s.version);
      Addresses.AddressReadsBack(sha512, s.version, s.stream,
                                 Addresses.RipeOf(sha512, ripemd, s.keys.signing, s.keys.encryption));
      var from := new Addresses.PubAddr();
      var loaded := from.LoadAddr(sha512, addr);
      book.AddAddr(ContactOf(from.address, s));
    }

    /** The last part of both overloads: sender and message are stored. */
    method Store(sha512: Hash512, ripemd: Hash160, sender: Sender, to: string, text: seq<byte>, sign: seq<byte>)
      requires Valid() && HasAddress(sha512, ripemd, sender) && Ber.DecodePair(sign).Got?
      modifies book, inbox.Repr, this`Repr
      ensures Valid() && fresh(Repr - old(Repr)) && node.Now() == old(node.Now())
      ensures Delivery.Messages(inbox.History) == Delivery.Messages(old(inbox.History))
                + [Delivery.Message(SenderAddress(sha512, ripemd, sender), to, text, sign)]
      ensures book.PubAddresses == WithSender(sha512, ripemd, old(book.PubAddresses), sender)
    {
      hide SenderAddress, HasAddress, AddressBook.Put, Ber.DecodePair;
      hide AllStored, Owned, Heads, Linked, Delivery.Messages, Delivery.NewMessages, TableLaws.Stored, Delivery.Lawful;
      var addr := StoreSender(sha512, ripemd, sender);
      inbox.Deliver(Delivery.Message(addr, to, text, sign));
      Repr := Repr + inbox.Repr;
    }

    /** `decryptMsg` for a message, from its plaintext on. */
    method AcceptMessage(sha512: Hash512, ripemd: Hash160, payload: seq<byte>, recovered: seq<byte>, own: string,
                         ripe: seq<byte>, verifies: Verifier, now: int) returns (accepted: bool)
      requires Valid() && |recovered| < TWO31
      requires ParseMessage(recovered).Got? ==> HasAddress(sha512, ripemd, ParseMessage(recovered).value.sender)
      modifies Repr
      ensures Valid() && fresh(Repr - old(Repr))
      ensures accepted <==> Delivered(payload, recovered, ripe, verifies)
      ensures Delivery.Messages(inbox.History) == Delivery.Messages(old(inbox.History))
                + if accepted then [MessageOf(sha512, ripemd, ParseMessage(recovered).value, own)] else []
      ensures node.Now() == if accepted then Published(sha512, old(node.Now()), recovered, now) else old(node.Now())
      ensures book.PubAddresses
           == if !accepted then old(book.PubAddresses)
              else WithSender(sha512, ripemd, old(book.PubAddresses), ParseMessage(recovered).value.sender)
    {
      hide ParseMessage, Verified, Nodes.AckPayload, SenderAddress, HasAddress, Gossip.Next, AddressBook.Put;
      hide WithSender;
      hide AllStored, Owned, Heads, Linked, Delivery.Messages, Delivery.NewMessages, TableLaws.Stored, Delivery.Lawful;
      var m := CheckMessage(payload, recovered, ripe, verifies);
      if m.OutOfBytes? {
        return false;
      }
      var ok := node.PropagateAck(sha512, m.value.ack, now);
      Repr := Repr + node.Repr;
      if !ok {
        return false;
      }
      Store(sha512, ripemd, m.value.sender, own, m.value.text, m.value.sign);
      accepted := true;
    }

    /** The same for a broadcast. */
    method AcceptBroadcast(sha512: Hash512, ripemd: Hash160, payload: seq<byte>, version: uint64, tag: seq<byte>,
                           recovered: seq<byte>, verifies: Verifier) returns (accepted: bool)
      requires Valid() && |recovered| < TWO31
      requires ParseBroadcast(recovered).Got? ==> HasAddress(sha512, ripemd, ParseBroadcast(recovered).value.sender)
      modifies Repr
      ensures Valid() && fresh(Repr - old(Repr))
      ensures accepted <==> VerifiedBroadcast(payload, version, tag, recovered, verifies)
      ensures Delivery.Messages(inbox.History) == Delivery.Messages(old(inbox.History))
                + if accepted then [BroadcastOf(sha512, ripemd, ParseBroadcast(recovered).value)] else []
      ensures node.Now() == old(node.Now())
      ensures book.PubAddresses
           == if !accepted then old(book.PubAddresses)
              else WithSender(sha512, ripemd, old(book.PubAddresses), ParseBroadcast(recovered).value.sender)
    {
      hide ParseBroadcast, VerifiedBroadcast, SenderAddress, HasAddress, AddressBook.Put, WithSender;
      hide AllStored, Owned, Heads, Linked, Delivery.Messages, Delivery.NewMessages, TableLaws.Stored, Delivery.Lawful;
      var m := CheckBroadcast(payload, version, tag, recovered, verifies);
      if m.OutOfBytes? {
        return false;
      }
      Store(sha512, ripemd, m.value.sender, "Broadcast", m.value.text, m.value.sign);
      accepted := true;
    }
  }

  /** Everything in front of the acknowledgement; `OutOfBytes` stands for every way out. */
  method CheckMessage(payload: seq<byte>, recovered: seq<byte>, ripe: seq<byte>, verifies: Verifier)
    returns (r: Read<Message>)
    requires |recovered| < TWO31
    ensures r.Got? <==> Verified(payload, recovered, ripe, verifies)
    ensures r.Got? ==> r == ParseMessage(recovered) && Ber.DecodePair(r.value.sign).Got?
  {
    hide ParseMessage, ParseBroadcast, Preimage, Ber.DecodePair;
    r := ReadMessage(recovered);
    if r.OutOfBytes? || r.value.ripe != ripe {
      return OutOfBytes;
    }
    SignedPartEnds(recovered);
    var mess := VerifiedBytes(payload, [], recovered, r.value.k);
    if mess.OutOfBytes? || Ber.DecodePair(r.value.sign).OutOfBytes? {
      return OutOfBytes;
    }
    if !verifies(r.value.sender.keys.signing, r.value.sign, mess.value) {
      return OutOfBytes;
    }
  }

  method CheckBroadcast(payload: seq<byte>, version: uint64, tag: seq<byte>, recovered: seq<byte>, verifies: Verifier)
    returns (r: Read<Broadcast>)
    requires |recovered| < TWO31
    ensures r.Got? <==> VerifiedBroadcast(payload, version, tag, recovered, verifies)
    ensures r.Got? ==> r == ParseBroadcast(recovered) && Ber.DecodePair(r.value.sign).Got?
  {
    hide ParseMessage, ParseBroadcast, Preimage, Ber.DecodePair;
    r := ReadBroadcast(recovered);
    if r.OutOfBytes? {
      return OutOfBytes;
    }
    SignedPartEnds(recovered);
    var mess := VerifiedBytes(payload, SignedTag(version, tag), recovered, r.value.k);
    if mess.OutOfBytes? || Ber.DecodePair(r.value.sign).OutOfBytes? {
      return OutOfBytes;
    }
    if !verifies(r.value.sender.keys.signing, r.value.sign, mess.value) {
      return OutOfBytes;
    }
  }
}
