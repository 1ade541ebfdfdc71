/** The plaintext layouts of messages, broadcasts and public keys, and the bytes that are signed and
    verified: BitMRC/BitMRC.cpp and BitMRC/Addr.cpp. */
module Signatures {
  import opened Positional
  import opened Words
  import opened Wire
  import opened ByteStrings
  import opened Objects
  import opened Hashes
  import Addresses

  /** An own address; its public keys are kept with the leading 0x04. */
  datatype Identity = Identity(version: int32, stream: int32, signing: seq<byte>, encryption: seq<byte>,
                               nonceTrials: int32, extraBytes: int32)

  ghost predicate FullKeys(id: Identity) {
    |id.signing| == 65 && |id.encryption| == 65
  }

  // ----- the bytes in front of what is signed -----

  /** The header as both sides take it from the packet: read from position 8 and written anew. */
  function HeaderFrom(payload: seq<byte>): Read<seq<byte>> {
    var (time, i) :- GetInt(8, payload, 8);
    var (objectType, i) :- GetInt(4, payload, i);
    var (version, i) :- GetVarInt(payload, i);
    var (stream, i) :- GetVarInt(payload, i);
    Got(BigEndian(8, Int64(time)) + (BigEndian(4, objectType)
        + (EncodeVarInt(U64(version)) + EncodeVarInt(U64(stream)))), i)
  }

  /** It is the header of the object whatever the nonce and the body are. */
  lemma HeaderOfObject(o: Object)
    ensures HeaderFrom(EncodePayload(o)).Got? && HeaderFrom(EncodePayload(o)).value == EncodeHeader(o)
  {
    hide BigEndian, EncodeVarInt, GetVarInt, GetInt, EncodePayload, At;
    var p := EncodePayload(o);
    HeaderAtEight(o);
    HeaderReadsBack(o, p, 8);
    Int64OfU64(o.time);
    Small(o.version);
    Small(o.stream);
  }

  /** For any payload that decodes, in shortest form or not, it is the header of the decoded object. */
  lemma HeaderOfPayload(p: seq<byte>)
    requires DecodeData(p).Got?
    ensures HeaderFrom(p).Got? && HeaderFrom(p).value == EncodeHeader(DecodeData(p).value)
  {
    hide BigEndian, EncodeVarInt, GetVarInt, Value;
    var o := DecodeData(p).value;
    if |p| >= 20 {
      Widths();
      ValueBound(256, p[16..20]);
    }
  }

  lemma HeaderAtEight(o: Object)
    ensures At(EncodePayload(o), 8, EncodeHeader(o))
  {
    hide BigEndian, EncodeHeader;
    var p := EncodePayload(o);
    AtWhole(p);
    AtSplit(p, 0, BigEndian(8, o.nonce), EncodeHeader(o) + o.body);
    AtSplit(p, 8, EncodeHeader(o), o.body);
  }

  /** What is signed, and what is verified: the header, the tag if there is one, and the plaintext in
      front of the signature. */
  function Preimage(payload: seq<byte>, tag: seq<byte>, plain: seq<byte>, k: nat): Read<seq<byte>> {
    var (header, _) :- HeaderFrom(payload);
    if k <= |plain| then Got(header + tag + plain[..k], k) else Got(header + tag + plain, k)
  }

  /** The plaintext that is encrypted: the signed part and the signature behind it. */
  function WithSignature(body: seq<byte>, sign: seq<byte>): seq<byte>
    requires |sign| < TWO31
  {
    body + EncodeVarBytes(sign)
  }

  /** Sender and receiver hash the same bytes: the sender before the nonce, the body and the signature
      are known, the receiver from the finished packet. */
  lemma SameBytes(draft: Object, sent: Object, tag: seq<byte>, body: seq<byte>, sign: seq<byte>)
    requires EncodeHeader(draft) == EncodeHeader(sent) && |sign| < TWO31
    ensures Preimage(EncodePayload(sent), tag, WithSignature(body, sign), |body|)
         == Preimage(EncodePayload(draft), tag, body, |body|)
         == Got(EncodeHeader(draft) + tag + body, |body|)
  {
    hide EncodePayload, EncodeHeader, EncodeVarBytes, HeaderFrom;
    HeaderOfObject(draft);
    HeaderOfObject(sent);
    assert WithSignature(body, sign)[..|body|] == body;
    assert body[..|body|] == body;
  }

  // ----- the parts all plaintexts share -----

  datatype Keys = Keys(bitfield: int32, signing: seq<byte>, encryption: seq<byte>)

  function EncodeKeys(id: Identity): (s: seq<byte>)
    requires |id.signing| >= 65 && |id.encryption| >= 65
    ensures |s| == 132
  {
    BigEndian(4, 1) + (id.signing[1..65] + id.encryption[1..65])
  }

  function GetKeys(s: seq<byte>, i: nat): Read<Keys> {
    var (bitfield, i) :- GetInt(4, s, i);
    var (signing, i) :- GetBytes(64, s, i);
    var (encryption, i) :- GetBytes(64, s, i);
    Got(Keys(Int32(bitfield), signing, encryption), i)
  }

  function PublicKeys(id: Identity): Keys
    requires |id.signing| >= 65 && |id.encryption| >= 65
  {
    Keys(1, id.signing[1..65], id.encryption[1..65])
  }

  lemma KeysReadBack(id: Identity, s: seq<byte>, i: nat)
    requires FullKeys(id) && |s| < TWO31 && At(s, i, EncodeKeys(id))
    ensures GetKeys(s, i) == Got(PublicKeys(id), i + 132)
  {
    hide BigEndian, GetInt, GetBytes, At, Pow;
    var a, b, c := BigEndian(4, 1), id.signing[1..65], id.encryption[1..65];
    AtSplit(s, i, a, b + c);
    AtSplit(s, i + 4, b, c);
    IntReadsBack(4, 1, s, i);
    BytesReadBack(b, s, i + 4);
    BytesReadBack(c, s, i + 68);
    Widths();
  }

  datatype Params = Params(nonceTrials: int32, extraBytes: int32)

  function EncodeParams(id: Identity): seq<byte> {
    EncodeVarInt(U64(id.nonceTrials)) + EncodeVarInt(U64(id.extraBytes))
  }

  function GetParams(s: seq<byte>, i: nat): Read<Params> {
    var (nonceTrials, i) :- GetVarInt(s, i);
    var (extraBytes, i) :- GetVarInt(s, i);
    Got(Params(Int32(nonceTrials), Int32(extraBytes)), i)
  }

  lemma ParamsReadBack(id: Identity, s: seq<byte>, i: nat)
    requires At(s, i, EncodeParams(id))
    ensures GetParams(s, i) == Got(Params(id.nonceTrials, id.extraBytes), i + |EncodeParams(id)|)
  {
    hide EncodeVarInt, GetVarInt, At;
    var a, b := EncodeVarInt(U64(id.nonceTrials)), EncodeVarInt(U64(id.extraBytes));
    AtSplit(s, i, a, b);
    VarIntReadsBack(U64(id.nonceTrials), s, i);
    VarIntReadsBack(U64(id.extraBytes), s, i + |a|);
    Int32OfU64(id.nonceTrials);
    Int32OfU64(id.extraBytes);
  }

  // ----- the sender part of messages and broadcasts -----

  datatype Sender = Sender(version: int32, stream: int32, keys: Keys, params: Params)

  function EncodeSender(id: Identity): seq<byte>
    requires |id.signing| >= 65 && |id.encryption| >= 65
  {
    EncodeVarInt(U64(id.version)) + (EncodeVarInt(U64(id.stream)) + (EncodeKeys(id)
      + if id.version >= 3 then EncodeParams(id) else []))
  }

  function GetSender(s: seq<byte>, i: nat): Read<Sender> {
    var (version, i) :- GetVarInt(s, i);
    var (stream, i) :- GetVarInt(s, i);
    var (keys, i) :- GetKeys(s, i);
    if Int32(version) >= 3 then
      var (params, i) :- GetParams(s, i);
      Got(Sender(Int32(version), Int32(stream), keys, params), i)
    else
      Got(Sender(Int32(version), Int32(stream), keys, Params(1000, 1000)), i)
  }

  /** What a receiver learns of a sender; old versions do not carry the parameters. */
  function SenderOf(id: Identity): Sender
    requires |id.signing| >= 65 && |id.encryption| >= 65
  {
    Sender(id.version, id.stream, PublicKeys(id),
           if id.version >= 3 then Params(id.nonceTrials, id.extraBytes) else Params(1000, 1000))
  }

  lemma SenderReadsBack(id: Identity, s: seq<byte>, i: nat)
    requires FullKeys(id) && |s| < TWO31 && At(s, i, EncodeSender(id))
    ensures GetSender(s, i) == Got(SenderOf(id), i + |EncodeSender(id)|)
  {
    hide EncodeVarInt, GetVarInt, GetKeys, GetParams, EncodeParams, At, PublicKeys;
    var a, b, c := EncodeVarInt(U64(id.version)), EncodeVarInt(U64(id.stream)), EncodeKeys(id);
    var d := if id.version >= 3 then EncodeParams(id) else [];
    AtSplit(s, i, a, b + (c + d));
    AtSplit(s, i + |a|, b, c + d);
    AtSplit(s, i + |a| + |b|, c, d);
    VarIntReadsBack(U64(id.version), s, i);
    VarIntReadsBack(U64(id.stream), s, i + |a|);
    KeysReadBack(id, s, i + |a| + |b|);
    Int32OfU64(id.version);
    Int32OfU64(id.stream);
    if id.version >= 3 {
      ParamsReadBack(id, s, i + |a| + |b| + 132);
    }
  }

  // ----- messages -----

  /** `k` is where the signed part ends. */
  datatype Message = Message(sender: Sender, ripe: seq<byte>, encoding: int32, text: seq<byte>, ack: seq<byte>,
                             k: nat, sign: seq<byte>)

  /** A message with any acknowledgement. */
  function BodyWithAck(id: Identity, ripe: seq<byte>, text: seq<byte>, ack: seq<byte>): seq<byte>
    requires |id.signing| >= 65 && |id.encryption| >= 65 && |text| < TWO31 && |ack| < TWO31
  {
    EncodeSender(id) + (ripe + (EncodeVarInt(1) + (EncodeVarBytes(text) + EncodeVarBytes(ack))))
  }

  /** The acknowledgement of every message the program makes itself. */
  const OWN_ACK: seq<byte> := [1]

  function MessageBody(id: Identity, ripe: seq<byte>, text: seq<byte>): seq<byte>
    requires |id.signing| >= 65 && |id.encryption| >= 65 && |text| < TWO31
  {
    BodyWithAck(id, ripe, text, OWN_ACK)
  }

  function ParseMessage(s: seq<byte>): Read<Message> {
    var (sender, i) :- GetSender(s, 0);
    var (ripe, i) :- GetBytes(20, s, i);
    var (encoding, i) :- GetVarInt(s, i);
    var (text, i) :- GetVarBytes(s, i);
    var (ack, k) :- GetVarBytes(s, i);
    var (sign, i) :- GetVarBytes(s, k);
    Got(Message(sender, ripe, Int32(encoding), text, ack, k, sign), i)
  }

  /** Every field of a message is recovered, for any acknowledgement and any signature. */
  lemma MessageReadsBack(id: Identity, ripe: seq<byte>, text: seq<byte>, ack: seq<byte>, sign: seq<byte>)
    requires FullKeys(id) && |ripe| == 20 && |text| < TWO31 && |ack| < TWO31 && |sign| < TWO31
    requires |WithSignature(BodyWithAck(id, ripe, text, ack), sign)| < TWO31
    ensures var body := BodyWithAck(id, ripe, text, ack);
            var s := WithSignature(body, sign);
            ParseMessage(s) == Got(Message(SenderOf(id), ripe, 1, text, ack, |body|, sign), |s|)
  {
    hide EncodeSender, GetSender, SenderOf, EncodeVarInt, GetVarInt, EncodeVarBytes, GetVarBytes, GetBytes, At;
    var a, c, d := EncodeSender(id), EncodeVarInt(1), EncodeVarBytes(text);
    var e, f := EncodeVarBytes(ack), EncodeVarBytes(sign);
    var body := BodyWithAck(id, ripe, text, ack);
    var s := WithSignature(body, sign);
    AtWhole(s);
    AtSplit(s, 0, body, f);
    AtSplit(s, 0, a, ripe + (c + (d + e)));
    AtSplit(s, |a|, ripe, c + (d + e));
    AtSplit(s, |a| + 20, c, d + e);
    AtSplit(s, |a| + 20 + |c|, d, e);
    SenderReadsBack(id, s, 0);
    BytesReadBack(ripe, s, |a|);
    VarIntReadsBack(1, s, |a| + 20);
    VarBytesReadBack(text, s, |a| + 20 + |c|);
    VarBytesReadBack(ack, s, |a| + 20 + |c| + |d|);
    VarBytesReadBack(sign, s, |body|);
  }

  /** A message verifies over exactly the bytes it was signed over: the verifier's preimage, cut at the
      position its own parser found, is the signer's. */
  lemma MessageVerifiesWhatWasSigned(draft: Object, sent: Object, id: Identity, ripe: seq<byte>, text: seq<byte>,
                                     ack: seq<byte>, sign: seq<byte>)
    requires EncodeHeader(draft) == EncodeHeader(sent)
    requires FullKeys(id) && |ripe| == 20 && |text| < TWO31 && |ack| < TWO31 && |sign| < TWO31
    requires |WithSignature(BodyWithAck(id, ripe, text, ack), sign)| < TWO31
    ensures var body := BodyWithAck(id, ripe, text, ack);
            var r := ParseMessage(WithSignature(body, sign));
            && r.Got? && r.value.sign == sign
            && Preimage(EncodePayload(sent), [], WithSignature(body, sign), r.value.k)
            == Preimage(EncodePayload(draft), [], body, |body|)
  {
    hide EncodeHeader, EncodePayload, BodyWithAck, WithSignature, ParseMessage, Preimage;
    MessageReadsBack(id, ripe, text, ack, sign);
    SameBytes(draft, sent, [], BodyWithAck(id, ripe, text, ack), sign);
  }

  /** What a message looks like in full: version, stream, the number 1 in four bytes, the two keys without
      their first byte, the parameters from version 3 on, the hash of the recipient, encoding 1, and text,
      acknowledgement and signature behind their lengths. */
  lemma MessageLayout(id: Identity, ripe: seq<byte>, text: seq<byte>, ack: seq<byte>, sign: seq<byte>)
    requires FullKeys(id) && |text| < TWO31 && |ack| < TWO31 && |sign| < TWO31
    ensures WithSignature(BodyWithAck(id, ripe, text, ack), sign)
         == EncodeVarInt(U64(id.version)) + EncodeVarInt(U64(id.stream))
          + [0, 0, 0, 1] + id.signing[1..] + id.encryption[1..]
          + (if id.version >= 3 then EncodeVarInt(U64(id.nonceTrials)) + EncodeVarInt(U64(id.extraBytes)) else [])
          + ripe + [1] + EncodeVarInt(|text|) + text + EncodeVarInt(|ack|) + ack + EncodeVarInt(|sign|) + sign
  {
    SenderLayout(id);
    assert EncodeVarInt(1) == [1];
    hide EncodeVarInt, EncodeSender;
    Joined(EncodeSender(id), ripe, [1], EncodeVarInt(|text|), text, EncodeVarInt(|ack|), ack, EncodeVarInt(|sign|),
           sign);
  }

  lemma Joined(s: seq<byte>, r: seq<byte>, one: seq<byte>, n: seq<byte>, text: seq<byte>, m: seq<byte>, ack: seq<byte>,
               k: seq<byte>, sign: seq<byte>)
    ensures s + (r + (one + ((n + text) + (m + ack)))) + (k + sign) == s + r + one + n + text + m + ack + k + sign
  {
    Associates(s, r, one + ((n + text) + (m + ack)));
    Associates(s + r, one, (n + text) + (m + ack));
    var front := s + r + one;
    Associates(front, n + text, m + ack);
    Associates(front, n, text);
    Associates(front + n + text, m, ack);
    Associates(front + n + text + m + ack, k, sign);
  }

  lemma Associates(a: seq<byte>, b: seq<byte>, c: seq<byte>)
    ensures a + (b + c) == a + b + c
  {
  }

  lemma SenderLayout(id: Identity)
    requires FullKeys(id)
    ensures EncodeKeys(id) == [0, 0, 0, 1] + id.signing[1..] + id.encryption[1..]
    ensures EncodeSender(id)
         == EncodeVarInt(U64(id.version)) + EncodeVarInt(U64(id.stream))
          + [0, 0, 0, 1] + id.signing[1..] + id.encryption[1..]
          + if id.version >= 3 then EncodeVarInt(U64(id.nonceTrials)) + EncodeVarInt(U64(id.extraBytes)) else []
  {
    hide EncodeVarInt, BigEndian;
    BigEndianFour(1);
    assert BigEndian(4, 1) == [0, 0, 0, 1];
  }

  // ----- broadcasts -----

  datatype Broadcast = Broadcast(sender: Sender, encoding: int32, text: seq<byte>, k: nat, sign: seq<byte>)

  function BroadcastBody(id: Identity, text: seq<byte>): seq<byte>
    requires |id.signing| >= 65 && |id.encryption| >= 65 && |text| < TWO31
  {
    EncodeSender(id) + (EncodeVarInt(1) + EncodeVarBytes(text))
  }

  function ParseBroadcast(s: seq<byte>): Read<Broadcast> {
    var (sender, i) :- GetSender(s, 0);
    var (encoding, i) :- GetVarInt(s, i);
    var (text, k) :- GetVarBytes(s, i);
    var (sign, i) :- GetVarBytes(s, k);
    Got(Broadcast(sender, Int32(encoding), text, k, sign), i)
  }

  lemma BroadcastReadsBack(id: Identity, text: seq<byte>, sign: seq<byte>)
    requires FullKeys(id) && |text| < TWO31 && |sign| < TWO31
    requires |WithSignature(BroadcastBody(id, text), sign)| < TWO31
    ensures var body := BroadcastBody(id, text);
            var s := WithSignature(body, sign);
            ParseBroadcast(s) == Got(Broadcast(SenderOf(id), 1, text, |body|, sign), |s|)
  {
    hide EncodeSender, GetSender, SenderOf, EncodeVarInt, GetVarInt, EncodeVarBytes, GetVarBytes, At;
    var a, c, d, f := EncodeSender(id), EncodeVarInt(1), EncodeVarBytes(text), EncodeVarBytes(sign);
    var body := BroadcastBody(id, text);
    var s := WithSignature(body, sign);
    AtWhole(s);
    AtSplit(s, 0, body, f);
    AtSplit(s, 0, a, c + d);
    AtSplit(s, |a|, c, d);
    SenderReadsBack(id, s, 0);
    VarIntReadsBack(1, s, |a|);
    VarBytesReadBack(text, s, |a| + |c|);
    VarBytesReadBack(sign, s, |body|);
  }

  /** A broadcast is a message without recipient and acknowledgement. */
  lemma BroadcastLayout(id: Identity, text: seq<byte>, sign: seq<byte>)
    requires FullKeys(id) && |text| < TWO31 && |sign| < TWO31
    ensures WithSignature(BroadcastBody(id, text), sign)
         == EncodeVarInt(U64(id.version)) + EncodeVarInt(U64(id.stream))
          + [0, 0, 0, 1] + id.signing[1..] + id.encryption[1..]
          + (if id.version >= 3 then EncodeVarInt(U64(id.nonceTrials)) + EncodeVarInt(U64(id.extraBytes)) else [])
          + [1] + EncodeVarInt(|text|) + text + EncodeVarInt(|sign|) + sign
  {
    SenderLayout(id);
    assert EncodeVarInt(1) == [1];
    hide EncodeVarInt, EncodeSender;
    var s, n, k := EncodeSender(id), EncodeVarInt(|text|), EncodeVarInt(|sign|);
    Associates(s, [1], n + text);
    Associates(s + [1], n, text);
    Associates(s + [1] + n + text, k, sign);
  }

  /** The tag a broadcast of version 5 carries in front of its ciphertext is the one both sides hash. */
  lemma BroadcastVerifiesWhatWasSigned(draft: Object, sent: Object, id: Identity, tag: seq<byte>, text: seq<byte>,
                                       sign: seq<byte>, encrypted: seq<byte>)
    requires EncodeHeader(draft) == EncodeHeader(sent) && |tag| == 32 && sent.body == tag + encrypted
    requires FullKeys(id) && |text| < TWO31 && |sign| < TWO31 && |sent.body| < TWO31
    requires |WithSignature(BroadcastBody(id, text), sign)| < TWO31
    ensures TaggedBody(sent.body) == Got((tag, encrypted), |sent.body|)
    ensures var body := BroadcastBody(id, text);
            var r := ParseBroadcast(WithSignature(body, sign));
            && r.Got? && r.value.sign == sign
            && Preimage(EncodePayload(sent), TaggedBody(sent.body).value.0, WithSignature(body, sign), r.value.k)
            == Preimage(EncodePayload(draft), tag, body, |body|)
  {
    hide EncodeHeader, EncodePayload, BroadcastBody, WithSignature, ParseBroadcast, Preimage;
    TagReadsBack(tag, encrypted);
    BroadcastReadsBack(id, text, sign);
    SameBytes(draft, sent, tag, BroadcastBody(id, text), sign);
  }

  /** `decodeObject` of broadcasts of version 5 and public keys of version 4. */
  function TaggedBody(s: seq<byte>): Read<(seq<byte>, seq<byte>)> {
    var (tag, i) :- GetBytes(32, s, 0);
    var (encrypted, i) :- GetRest(s, i);
    Got((tag, encrypted), i)
  }

  lemma TagReadsBack(tag: seq<byte>, encrypted: seq<byte>)
    requires |tag| == 32 && |tag + encrypted| < TWO31
    ensures TaggedBody(tag + encrypted) == Got((tag, encrypted), |tag + encrypted|)
  {
    var s := tag + encrypted;
    AtWhole(s);
    AtSplit(s, 0, tag, encrypted);
    BytesReadBack(tag, s, 0);
    RestReadsBack(encrypted, s, 32);
  }

  // ----- public keys -----

  datatype PubKey = PubKey(keys: Keys, params: Params, k: nat, sign: seq<byte>)

  function PubKeyBody(id: Identity): seq<byte>
    requires |id.signing| >= 65 && |id.encryption| >= 65
  {
    EncodeKeys(id) + EncodeParams(id)
  }

  function ParsePubKey(s: seq<byte>): Read<PubKey> {
    var (keys, i) :- GetKeys(s, 0);
    var (params, k) :- GetParams(s, i);
    var (sign, i) :- GetVarBytes(s, k);
    Got(PubKey(keys, params, k, sign), i)
  }

  lemma PubKeyReadsBack(id: Identity, sign: seq<byte>)
    requires FullKeys(id) && |sign| < TWO31 && |WithSignature(PubKeyBody(id), sign)| < TWO31
    ensures var body := PubKeyBody(id);
            var s := WithSignature(body, sign);
            ParsePubKey(s) == Got(PubKey(PublicKeys(id), Params(id.nonceTrials, id.extraBytes), |body|, sign), |s|)
  {
    hide EncodeKeys, GetKeys, PublicKeys, EncodeParams, GetParams, EncodeVarBytes, GetVarBytes, At;
    var a, b, f := EncodeKeys(id), EncodeParams(id), EncodeVarBytes(sign);
    var body := PubKeyBody(id);
    var s := WithSignature(body, sign);
    AtWhole(s);
    AtSplit(s, 0, body, f);
    AtSplit(s, 0, a, b);
    KeysReadBack(id, s, 0);
    ParamsReadBack(id, s, 132);
    VarBytesReadBack(sign, s, |body|);
  }

  /** A public key is keys and parameters, whatever the version. */
  lemma PubKeyLayout(id: Identity, sign: seq<byte>)
    requires FullKeys(id) && |sign| < TWO31
    ensures WithSignature(PubKeyBody(id), sign)
         == [0, 0, 0, 1] + id.signing[1..] + id.encryption[1..]
          + EncodeVarInt(U64(id.nonceTrials)) + EncodeVarInt(U64(id.extraBytes)) + EncodeVarInt(|sign|) + sign
  {
    SenderLayout(id);
    hide EncodeVarInt, EncodeKeys;
  }

  /** The tag an owner signs with: `loadKeys` prints its address and loads it. */
  function OwnTag(sha512: Hash512, version: int32, stream: int32, ripe: seq<byte>): (tag: seq<byte>)
    ensures |tag| == 32
  {
    sha512(sha512(Addresses.Body(version, stream, ripe)))[32..]
  }

  /** It is the second half of the double hash over version, stream and the whole key hash, and the `tag`
      of the address object that loads the printed text. */
  lemma OwnTagMeans(sha512: Hash512, version: int32, stream: int32, ripe: seq<byte>, a: Addresses.PubAddr)
    ensures var body := EncodeVarInt(U64(version)) + EncodeVarInt(U64(stream)) + ripe;
            OwnTag(sha512, version, stream, ripe) == sha512(sha512(body))[32..]
    ensures a.IsLoaded(sha512, version, stream, ripe) ==> OwnTag(sha512, version, stream, ripe) == a.tag
  {
    hide EncodeVarInt;
    assert Addresses.Body(version, stream, ripe) == EncodeVarInt(U64(version)) + EncodeVarInt(U64(stream)) + ripe;
  }

  /** The tag of an address that was loaded from a text. */
  function TagOfText(sha512: Hash512, text: string): seq<byte>
    requires Addresses.Load(sha512, text).Loaded?
  {
    var a := Addresses.Load(sha512, text);
    OwnTag(sha512, a.version, a.stream, a.ripe)
  }

  /** The owner signs over the tag of its keys. The receiver, who knows no more than the printed address,
      hashes the tag that text gives: it finds the packet by it, and verifies the bytes signed. */
  lemma PubKeyVerifiesWhatWasSigned(sha512: Hash512, draft: Object, sent: Object, id: Identity, ripe: seq<byte>,
                                    sign: seq<byte>, encrypted: seq<byte>)
    requires EncodeHeader(draft) == EncodeHeader(sent) && |ripe| == 20 && LeadingZeros(ripe) <= 16
    requires sent.body == OwnTag(sha512, id.version, id.stream, ripe) + encrypted && |sent.body| < TWO31
    requires FullKeys(id) && |sign| < TWO31 && |WithSignature(PubKeyBody(id), sign)| < TWO31
    ensures var text := Addresses.Address(sha512, id.version, id.stream, ripe);
            && Addresses.Load(sha512, text).Loaded?
            && TaggedBody(sent.body) == Got((TagOfText(sha512, text), encrypted), |sent.body|)
    ensures var body, text := PubKeyBody(id), Addresses.Address(sha512, id.version, id.stream, ripe);
            var r := ParsePubKey(WithSignature(body, sign));
            && r.Got? && r.value.sign == sign
            && Preimage(EncodePayload(sent), TagOfText(sha512, text), WithSignature(body, sign), r.value.k)
            == Preimage(EncodePayload(draft), OwnTag(sha512, id.version, id.stream, ripe), body, |body|)
  {
    hide EncodeHeader, EncodePayload, PubKeyBody, WithSignature, ParsePubKey, Preimage, OwnTag, TaggedBody;
    hide Addresses.Load, Addresses.Address;
    var tag := OwnTag(sha512, id.version, id.stream, ripe);
    Addresses.AddressReadsBack(sha512, id.version, id.stream, ripe);
    TagReadsBack(tag, encrypted);
    PubKeyReadsBack(id, sign);
    SameBytes(draft, sent, tag, PubKeyBody(id), sign);
  }

  // ----- the code that builds and parses them -----

  method HeaderBytes(payload: seq<byte>) returns (r: Read<seq<byte>>)
    ensures r == HeaderFrom(payload)
  {
    hide BigEndian, EncodeVarInt, GetInt, GetVarInt;
    var from := new ByteString.Of(payload);
    var mess1 := new ByteString();
    var time := from.GetUnsigned(8, 8);
    if time.OutOfBytes? { return OutOfBytes; }
    mess1.AppendInt64(Int64(time.value));
    var objectType := from.GetUnsigned(4, time.next);
    if objectType.OutOfBytes? { return OutOfBytes; }
    mess1.AppendInt32(objectType.value);
    var version := from.GetVarInt(objectType.next);
    if version.OutOfBytes? { return OutOfBytes; }
    mess1.AppendVarInt(U64(version.value));
    var stream := from.GetVarInt(version.next);
    if stream.OutOfBytes? { return OutOfBytes; }
    mess1.AppendVarInt(U64(stream.value));
    assert mess1.bytes == BigEndian(8, Int64(time.value)) + (BigEndian(4, objectType.value)
      + (EncodeVarInt(U64(version.value)) + EncodeVarInt(U64(stream.value))));
    return Got(mess1.bytes, stream.next);
  }

  method AppendKeys(w: ByteString, id: Identity)
    requires |id.signing| >= 65 && |id.encryption| >= 65
    modifies w
    ensures w.bytes == old(w.bytes) + EncodeKeys(id)
  {
    hide BigEndian;
    w.AppendInt32(1);
    w.Append(id.signing[1..65]);
    w.Append(id.encryption[1..65]);
  }

  method AppendSender(w: ByteString, id: Identity)
    requires |id.signing| >= 65 && |id.encryption| >= 65
    modifies w
    ensures w.bytes == old(w.bytes) + EncodeSender(id)
  {
    hide EncodeKeys, EncodeVarInt;
    w.AppendVarInt(U64(id.version));
    w.AppendVarInt(U64(id.stream));
    AppendKeys(w, id);
    ghost var before := w.bytes;
    if id.version >= 3 {
      w.AppendVarInt(U64(id.nonceTrials));
      w.AppendVarInt(U64(id.extraBytes));
      assert w.bytes == before + EncodeParams(id);
    } else {
      assert w.bytes == before + [];
    }
  }

  method BuildMessageBody(id: Identity, ripe: seq<byte>, text: seq<byte>) returns (msg: ByteString)
    requires |id.signing| >= 65 && |id.encryption| >= 65 && |text| < TWO31
    ensures fresh(msg) && msg.bytes == MessageBody(id, ripe, text)
  {
    hide EncodeSender, EncodeVarInt;
    msg := new ByteString();
    AppendSender(msg, id);
    msg.Append(ripe);
    msg.AppendVarInt(1);
    msg.AppendVarInt(|text|);
    msg.Append(text);
    msg.AppendVarInt(1);
    msg.AppendInt8(1);
  }

  /** The plaintext of `sendMessage`, with the signature made by `signer` over the header and the body. */
  method BuildMessage(draft: Object, id: Identity, ripe: seq<byte>, text: seq<byte>, signer: seq<byte> -> seq<byte>)
    returns (plain: seq<byte>)
    requires |id.signing| >= 65 && |id.encryption| >= 65 && |text| < TWO31
    requires forall m :: |signer(m)| < TWO31
    ensures var body := MessageBody(id, ripe, text);
            plain == WithSignature(body, signer(EncodeHeader(draft) + body))
  {
    hide MessageBody, EncodeVarInt, HeaderFrom, EncodeHeader, EncodePayload;
    var msg := BuildMessageBody(id, ripe, text);
    HeaderOfObject(draft);
    var mess1 := HeaderBytes(EncodePayload(draft));
    ghost var body := msg.bytes;
    var sign := signer(mess1.value + msg.bytes);
    msg.AppendVarInt(|sign|);
    msg.Append(sign);
    plain := msg.bytes;
    assert plain == WithSignature(body, sign);
  }

  method ReadSender(from: ByteString, i: nat) returns (r: Read<Sender>)
    ensures r == GetSender(from.bytes, i)
  {
    hide GetInt, GetVarInt, GetBytes;
    var version := from.GetVarInt(i);
    if version.OutOfBytes? { return OutOfBytes; }
    var stream := from.GetVarInt(version.next);
    if stream.OutOfBytes? { return OutOfBytes; }
    var bitfield := from.GetUnsigned(4, stream.next);
    if bitfield.OutOfBytes? { return OutOfBytes; }
    var signing := from.GetUstring(64, bitfield.next);
    if signing.OutOfBytes? { return OutOfBytes; }
    var encryption := from.GetUstring(64, signing.next);
    if encryption.OutOfBytes? { return OutOfBytes; }
    var keys := Keys(Int32(bitfield.value), signing.value, encryption.value);
    if Int32(version.value) < 3 {
      return Got(Sender(Int32(version.value), Int32(stream.value), keys, Params(1000, 1000)), encryption.next);
    }
    var nonce := from.GetVarInt(encryption.next);
    if nonce.OutOfBytes? { return OutOfBytes; }
    var extra := from.GetVarInt(nonce.next);
    if extra.OutOfBytes? { return OutOfBytes; }
    return Got(Sender(Int32(version.value), Int32(stream.value), keys, Params(Int32(nonce.value), Int32(extra.value))),
               extra.next);
  }

  /** The parser of `decryptMsg` for messages. */
  method ReadMessage(recovered: seq<byte>) returns (r: Read<Message>)
    ensures r == ParseMessage(recovered)
  {
    hide GetSender, GetVarInt, GetBytes, GetVarBytes;
    var from := new ByteString.Of(recovered);
    var sender := ReadSender(from, 0);
    if sender.OutOfBytes? { return OutOfBytes; }
    var ripe := from.GetUstring(20, sender.next);
    if ripe.OutOfBytes? { return OutOfBytes; }
    var encoding := from.GetVarInt(ripe.next);
    if encoding.OutOfBytes? { return OutOfBytes; }
    var text := from.GetVarUstring(encoding.next);
    if text.OutOfBytes? { return OutOfBytes; }
    var ack := from.GetVarUstring(text.next);
    if ack.OutOfBytes? { return OutOfBytes; }
    var sign := from.GetVarUstring(ack.next);
    if sign.OutOfBytes? { return OutOfBytes; }
    return Got(Message(sender.value, ripe.value, Int32(encoding.value), text.value, ack.value, ack.next, sign.value),
               sign.next);
  }

  method BuildBroadcastBody(id: Identity, text: seq<byte>) returns (msg: ByteString)
    requires |id.signing| >= 65 && |id.encryption| >= 65 && |text| < TWO31
    ensures fresh(msg) && msg.bytes == BroadcastBody(id, text)
  {
    hide EncodeSender, EncodeVarInt;
    msg := new ByteString();
    AppendSender(msg, id);
    msg.AppendVarInt(1);
    msg.AppendVarInt(|text|);
    msg.Append(text);
  }

  /** The plaintext of `sendBroadcast`; the tag is signed too when the packet is of version 5. */
  method BuildBroadcast(draft: Object, version: uint64, tag: seq<byte>, id: Identity, text: seq<byte>,
                        signer: seq<byte> -> seq<byte>) returns (plain: seq<byte>)
    requires |id.signing| >= 65 && |id.encryption| >= 65 && |text| < TWO31
    requires forall m :: |signer(m)| < TWO31
    ensures var body := BroadcastBody(id, text);
            plain == WithSignature(body, signer(EncodeHeader(draft) + (if version == 5 then tag else []) + body))
  {
    hide BroadcastBody, EncodeVarInt, HeaderFrom, EncodeHeader, EncodePayload;
    var msg := BuildBroadcastBody(id, text);
    HeaderOfObject(draft);
    var mess1 := HeaderBytes(EncodePayload(draft));
    ghost var body := msg.bytes;
    var sign := signer(mess1.value + (if version == 5 then tag else []) + msg.bytes);
    msg.AppendVarInt(|sign|);
    msg.Append(sign);
    plain := msg.bytes;
    assert plain == WithSignature(body, sign);
  }

  /** The parser of the decrypted broadcast. */
  method ReadBroadcast(recovered: seq<byte>) returns (r: Read<Broadcast>)
    ensures r == ParseBroadcast(recovered)
  {
    hide GetSender, GetVarInt, GetVarBytes;
    var from := new ByteString.Of(recovered);
    var sender := ReadSender(from, 0);
    if sender.OutOfBytes? { return OutOfBytes; }
    var encoding := from.GetVarInt(sender.next);
    if encoding.OutOfBytes? { return OutOfBytes; }
    var text := from.GetVarUstring(encoding.next);
    if text.OutOfBytes? { return OutOfBytes; }
    var sign := from.GetVarUstring(text.next);
    if sign.OutOfBytes? { return OutOfBytes; }
    return Got(Broadcast(sender.value, Int32(encoding.value), text.value, text.next, sign.value), sign.next);
  }

  /** The plaintext of `encodePubKey`. */
  method BuildPubKey(draft: Object, tag: seq<byte>, id: Identity, signer: seq<byte> -> seq<byte>)
    returns (plain: seq<byte>)
    requires |id.signing| >= 65 && |id.encryption| >= 65
    requires forall m :: |signer(m)| < TWO31
    ensures var body := PubKeyBody(id);
            plain == WithSignature(body, signer(EncodeHeader(draft) + tag + body))
  {
    hide EncodeKeys, EncodeVarInt, HeaderFrom, EncodeHeader, EncodePayload;
    var w := new ByteString();
    AppendKeys(w, id);
    w.AppendVarInt(U64(id.nonceTrials));
    w.AppendVarInt(U64(id.extraBytes));
    ghost var body := w.bytes;
    assert body == PubKeyBody(id);
    HeaderOfObject(draft);
    var mess1 := HeaderBytes(EncodePayload(draft));
    var sign := signer(mess1.value + tag + w.bytes);
    w.AppendVarInt(|sign|);
    w.Append(sign);
    plain := w.bytes;
    assert plain == WithSignature(body, sign);
  }

  /** The parser of `decodeFromObj`. */
  method ReadPubKey(data: seq<byte>) returns (r: Read<PubKey>)
    ensures r == ParsePubKey(data)
  {
    hide GetInt, GetVarInt, GetBytes, GetVarBytes;
    var from := new ByteString.Of(data);
    var bitfield := from.GetUnsigned(4, 0);
    if bitfield.OutOfBytes? { return OutOfBytes; }
    var signing := from.GetUstring(64, bitfield.next);
    if signing.OutOfBytes? { return OutOfBytes; }
    var encryption := from.GetUstring(64, signing.next);
    if encryption.OutOfBytes? { return OutOfBytes; }
    var nonceTrials := from.GetVarInt(encryption.next);
    if nonceTrials.OutOfBytes? { return OutOfBytes; }
    var extraBytes := from.GetVarInt(nonceTrials.next);
    if extraBytes.OutOfBytes? { return OutOfBytes; }
    var sign := from.GetVarUstring(extraBytes.next);
    if sign.OutOfBytes? { return OutOfBytes; }
    var keys := Keys(Int32(bitfield.value), signing.value, encryption.value);
    var params := Params(Int32(nonceTrials.value), Int32(extraBytes.value));
    return Got(PubKey(keys, params, extraBytes.next, sign.value), sign.next);
  }

  /** What all three verifiers hash: the re-encoded header, the tag if any, and the plaintext up to `k`. */
  method VerifiedBytes(payload: seq<byte>, tag: seq<byte>, recovered: seq<byte>, k: nat) returns (r: Read<seq<byte>>)
    requires k < TWO31
    ensures r == Preimage(payload, tag, recovered, k)
  {
    hide HeaderFrom;
    var mess1 := HeaderBytes(payload);
    if mess1.OutOfBytes? { return OutOfBytes; }
    var from := new ByteString.Of(recovered);
    var front := from.GetUstring(k, 0);
    assert front.value == if k <= |recovered| then recovered[..k] else recovered;
    return Got(mess1.value + tag + front.value, k);
  }
}
