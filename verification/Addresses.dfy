/** Addresses: how BitMRC/Addr.cpp prints keys as an address and reads an address back. */
module Addresses {
  import opened Positional
  import opened Words
  import opened Wire
  import opened ByteStrings
  import opened Hashes
  import Base58
  import opened Base58Buffers

  // ----- printing -----

  /** A 64-byte key gets its leading 0x04 back. */
  function FullKey(key: seq<byte>): seq<byte> {
    if |key| == 64 then [4] + key else key
  }

  function RipeOf(sha512: Hash512, ripemd: Hash160, signing: seq<byte>, encryption: seq<byte>): (r: seq<byte>)
    ensures |r| == 20
  {
    ripemd(sha512(FullKey(signing) + FullKey(encryption)))
  }

  /** Version, stream and hash; the address carries the hash without its leading zeros, the tag with them. */
  function Body(version: int32, stream: int32, ripe: seq<byte>): seq<byte> {
    EncodeVarInt(U64(version)) + (EncodeVarInt(U64(stream)) + ripe)
  }

  function WithChecksum(sha512: Hash512, body: seq<byte>): seq<byte> {
    body + sha512(sha512(body))[..4]
  }

  function Stripped(ripe: seq<byte>): seq<byte> {
    ripe[LeadingZeros(ripe)..]
  }

  function Address(sha512: Hash512, version: int32, stream: int32, ripe: seq<byte>): string {
    "BM-" + Base58.Encode(WithChecksum(sha512, Body(version, stream, Stripped(ripe))))
  }

  // ----- reading -----

  /** `Undefined` is an address whose decoded form does not fit 50 bytes, for which the decoder shifts
      from in front of its buffer; `Threw` is the exception for fewer than four decoded bytes. */
  datatype Loading =
    | NotBase58 | Undefined | Threw | BadChecksum | Malformed | BadLength
    | Loaded(version: int32, stream: int32, ripe: seq<byte>)

  function TextUntilZero(s: string): string {
    if s == [] || s[0] == '\0' then [] else [s[0]] + TextUntilZero(s[1..])
  }

  function Digits(address: string): string {
    TextUntilZero(if |address| >= 3 && address[..3] == "BM-" then address[3..] else address)
  }

  function Load(sha512: Hash512, address: string): Loading {
    match Base58.Decode(50, Digits(address))
    case Rejected => NotBase58
    case OutOfRange => Undefined
    case Decoded(data) => LoadBytes(sha512, data)
  }

  function LoadBytes(sha512: Hash512, data: seq<byte>): Loading {
    if |data| < 4 then Threw
    else
      var n := |data| - 4;
      if sha512(sha512(data[..n]))[..4] != data[n..] then BadChecksum else LoadBody(data[..n])
  }

  function LoadBody(body: seq<byte>): (r: Loading)
    ensures r.Malformed? || r.BadLength? || (r.Loaded? && |r.ripe| == 20)
  {
    match GetFields(body)
    case OutOfBytes => Malformed
    case Got((version, stream, ripe), _) =>
      if |ripe| > 20 || |ripe| < 4 then BadLength
      else Loaded(Int32(version), Int32(stream), Zeros(20 - |ripe|) + ripe)
  }

  function GetFields(body: seq<byte>): Read<(nat, nat, seq<byte>)> {
    var (version, i) :- GetVarInt(body, 0);
    var (stream, i) :- GetVarInt(body, i);
    var (ripe, i) :- GetRest(body, i);
    Got((version, stream, ripe), i)
  }

  // ----- the round trip -----

  lemma FieldsReadBack(version: int32, stream: int32, ripe: seq<byte>)
    ensures GetFields(Body(version, stream, ripe))
         == Got((U64(version), U64(stream), ripe), |Body(version, stream, ripe)|)
  {
    hide EncodeVarInt, GetVarInt, At;
    var a, b := EncodeVarInt(U64(version)), EncodeVarInt(U64(stream));
    var s := Body(version, stream, ripe);
    AtWhole(s);
    AtSplit(s, 0, a, b + ripe);
    AtSplit(s, |a|, b, ripe);
    VarIntReadsBack(U64(version), s, 0);
    VarIntReadsBack(U64(stream), s, |a|);
    RestReadsBack(ripe, s, |a| + |b|);
  }

  lemma BodyReadsBack(version: int32, stream: int32, ripe: seq<byte>)
    requires |ripe| == 20
    ensures LoadBody(Body(version, stream, Stripped(ripe)))
         == if |Stripped(ripe)| >= 4 then Loaded(version, stream, ripe) else BadLength
  {
    hide Body, GetFields;
    FieldsReadBack(version, stream, Stripped(ripe));
    Int32OfU64(version);
    Int32OfU64(stream);
    assert Zeros(LeadingZeros(ripe)) + Stripped(ripe) == ripe;
  }

  lemma {:induction false} NoZeroInText(text: string)
    requires Base58.AllValid(text)
    ensures TextUntilZero(text) == text
  {
    hide Base58.Digit;
    if text != [] {
      ZeroIsNoDigit();
      assert Base58.Digit(text[0]) >= 0;
      assert forall k :: 0 <= k < |text[1..]| ==> text[1..][k] == text[k + 1];
      NoZeroInText(text[1..]);
    }
  }

  lemma ZeroIsNoDigit()
    ensures Base58.Digit('\0') == -1
  {
  }

  /** Reading the printed address of any keys gives back version, stream and the whole hash, leading
      zeros included, exactly when the hash has at least four significant bytes; else it is refused. */
  lemma AddressReadsBack(sha512: Hash512, version: int32, stream: int32, ripe: seq<byte>)
    requires |ripe| == 20
    ensures Load(sha512, Address(sha512, version, stream, ripe))
         == if LeadingZeros(ripe) <= 16 then Loaded(version, stream, ripe) else BadLength
  {
    hide Base58.Encode, Load, LoadBody, EncodeVarInt, LeadingZeros, Stripped, WithChecksum;
    StrippedLength(ripe);
    var body := Body(version, stream, Stripped(ripe));
    assert |body| <= 38;
    hide Body;
    PrintedLoads(sha512, body);
    BodyReadsBack(version, stream, ripe);
  }

  lemma StrippedLength(ripe: seq<byte>)
    ensures |Stripped(ripe)| == |ripe| - LeadingZeros(ripe)
  {
    hide LeadingZeros;
  }

  /** Bytes printed with their checksum are loaded from it. */
  lemma PrintedLoads(sha512: Hash512, body: seq<byte>)
    requires |body| <= 46
    ensures Load(sha512, "BM-" + Base58.Encode(WithChecksum(sha512, body))) == LoadBody(body)
  {
    hide Base58.Encode, Base58.Decode, Base58.AllValid, TextUntilZero, LoadBody, Digits;
    var data := WithChecksum(sha512, body);
    Base58.DigitsOfEncode(data);
    NoZeroInText(Base58.Encode(data));
    PrefixTaken(Base58.Encode(data));
    Base58.DecodeEncode(50, data);
    assert data[..|data| - 4] == body;
  }

  lemma PrefixTaken(text: string)
    ensures Digits("BM-" + text) == TextUntilZero(text)
  {
    hide TextUntilZero;
    var address := "BM-" + text;
    assert address[..3] == "BM-" && address[3..] == text;
  }

  /** What printing writes: version, stream, the hash without its leading zeros, and the first four bytes
      of the double hash over these. */
  lemma PrintedAddress(sha512: Hash512, version: int32, stream: int32, ripe: seq<byte>, zeros: nat)
    requires |ripe| == 20 && zeros <= 20 && (forall k :: 0 <= k < zeros ==> ripe[k] == 0)
    requires zeros < 20 ==> ripe[zeros] != 0
    ensures var body := EncodeVarInt(U64(version)) + EncodeVarInt(U64(stream)) + ripe[zeros..];
            Address(sha512, version, stream, ripe) == "BM-" + Base58.Encode(body + sha512(sha512(body))[..4])
  {
    hide EncodeVarInt, Base58.Encode;
    LeadingZerosUnique(ripe, zeros);
    assert Body(version, stream, Stripped(ripe))
        == EncodeVarInt(U64(version)) + EncodeVarInt(U64(stream)) + ripe[zeros..];
  }

  /** The hash of an address is over the signing key and the encryption key, in this order and each with
      its leading 0x04, whether they come with it or without. */
  lemma KeysAreJoined(sha512: Hash512, ripemd: Hash160, signing: seq<byte>, encryption: seq<byte>)
    requires |signing| == |encryption| == 64
    ensures var ripe := ripemd(sha512([4] + signing + [4] + encryption));
            && RipeOf(sha512, ripemd, signing, encryption) == ripe
            && RipeOf(sha512, ripemd, [4] + signing, [4] + encryption) == ripe
            && RipeOf(sha512, ripemd, signing, [4] + encryption) == ripe
            && RipeOf(sha512, ripemd, [4] + signing, encryption) == ripe
  {
    assert FullKey(signing) + FullKey(encryption) == [4] + signing + [4] + encryption;
  }

  // ----- every address -----

  /** The fields of an address behind its checksum: two varints, and a hash of 4 to 20 bytes that gets its
      leading zeros back. */
  lemma LoadBodyMeans(body: seq<byte>)
    ensures var v := GetVarInt(body, 0);
            LoadBody(body).Malformed? <==> v.OutOfBytes? || GetVarInt(body, v.next).OutOfBytes?
    ensures !LoadBody(body).Malformed? ==>
              var v := GetVarInt(body, 0);
              var s := GetVarInt(body, v.next);
              && s.next <= |body|
              && var ripe, r := body[s.next..], LoadBody(body);
                 && (r.Loaded? <==> 4 <= |ripe| <= 20)
                 && (r.Loaded? ==>
                       && r.version == Int32(v.value) && r.stream == Int32(s.value)
                       && r.ripe[20 - |ripe|..] == ripe && (forall k :: 0 <= k < 20 - |ripe| ==> r.ripe[k] == 0))
  {
    hide GetVarInt;
    VarIntMeans(body, 0);
    if GetVarInt(body, 0).Got? {
      VarIntMeans(body, GetVarInt(body, 0).next);
    }
  }

  /** Loading the text of any bytes, with or without the prefix, and whatever stands behind a zero: fewer
      than four throw; if the last four are not those of the double hash of the others, a mistyped address
      for one, it is refused; else the others decide. */
  lemma LoadMeans(sha512: Hash512, data: seq<byte>, behind: string, address: string)
    requires |data| <= 50
    requires var text := Base58.Encode(data);
             address == text || address == "BM-" + text || address == "BM-" + text + "\0" + behind
    ensures |data| < 4 ==> Load(sha512, address) == Threw
    ensures |data| >= 4 ==>
              var n := |data| - 4;
              && (Load(sha512, address) == BadChecksum <==> data[n..] != sha512(sha512(data[..n]))[..4])
              && (Load(sha512, address) != BadChecksum ==> Load(sha512, address) == LoadBody(data[..n]))
  {
    DigitsOfText(data, behind, address);
    Base58.DecodeEncode(50, data);
    hide Base58.Encode, Base58.Decode, Digits, LoadBody;
  }

  lemma DigitsOfText(data: seq<byte>, behind: string, address: string)
    requires var text := Base58.Encode(data);
             address == text || address == "BM-" + text || address == "BM-" + text + "\0" + behind
    ensures Digits(address) == Base58.Encode(data)
  {
    hide Base58.Encode, Base58.AllValid, TextUntilZero;
    var text := Base58.Encode(data);
    Base58.DigitsOfEncode(data);
    NoZeroInText(text);
    NoPrefix(text);
    hide Digits;
    ZeroEndsText(text, behind);
    PrefixTaken(text);
    PrefixTaken(text + "\0" + behind);
    assert "BM-" + text + "\0" + behind == "BM-" + (text + "\0" + behind);
  }

  lemma NoPrefix(text: string)
    requires Base58.AllValid(text)
    ensures !(|text| >= 3 && text[..3] == "BM-")
  {
    hide Base58.Digit;
    DashIsNoDigit();
    if |text| >= 3 {
      assert text[..3][2] == text[2] != '-';
    }
  }

  lemma DashIsNoDigit()
    ensures Base58.Digit('-') == -1
  {
  }

  lemma {:induction false} ZeroEndsText(text: string, behind: string)
    requires Base58.AllValid(text)
    ensures TextUntilZero(text + "\0" + behind) == text
  {
    hide Base58.Digit;
    if text != [] {
      ZeroIsNoDigit();
      assert Base58.Digit(text[0]) >= 0;
      assert forall k :: 0 <= k < |text[1..]| ==> text[1..][k] == text[k + 1];
      ZeroEndsText(text[1..], behind);
      assert (text + "\0" + behind)[1..] == text[1..] + "\0" + behind;
    }
  }

  /** Nothing else loads: an address loads exactly if its digits are the text of at most 50 bytes that end
      in their checksum and start with fields that are in order. */
  lemma LoadsIff(sha512: Hash512, address: string, version: int32, stream: int32, ripe: seq<byte>)
    ensures Load(sha512, address) == Loaded(version, stream, ripe) <==>
              exists body :: && LoadBody(body) == Loaded(version, stream, ripe) && |body| <= 46
                             && Digits(address) == Base58.Encode(body + sha512(sha512(body))[..4])
  {
    hide Base58.Encode, Base58.Decode, Digits, LoadBody;
    if Load(sha512, address).Loaded? {
      var data := Base58.Decode(50, Digits(address)).data;
      Base58.DecodesIffEncoding(50, Digits(address), data);
      var body := data[..|data| - 4];
      assert data == body + sha512(sha512(body))[..4];
    }
    if body :| LoadBody(body) == Loaded(version, stream, ripe) && |body| <= 46
               && Digits(address) == Base58.Encode(body + sha512(sha512(body))[..4]) {
      var data := body + sha512(sha512(body))[..4];
      Base58.DecodesIffEncoding(50, Digits(address), data);
      assert data[..|data| - 4] == body && data[|data| - 4..] == sha512(sha512(body))[..4];
    }
  }

  /** An address of more than fifty ones is none of the outcomes the program reckons with. */
  lemma OnesAreUndefined(sha512: Hash512, n: nat)
    requires n > 50
    ensures Load(sha512, "BM-" + Base58.Ones(n)) == Undefined
  {
    hide Base58.Decode;
    var text := Base58.Ones(n);
    PrefixTaken(text);
    AllOnesValid(n);
    NoZeroInText(text);
    Base58.TooManyOnes(50, n);
  }

  lemma AllOnesValid(n: nat)
    ensures Base58.AllValid(Base58.Ones(n))
  {
    hide Base58.Digit;
    Base58.OneIsZero();
  }

  // ----- the code -----

  method BuildAddressFromKeys(sha512: Hash512, ripemd: Hash160, signing: seq<byte>, encryption: seq<byte>,
                              stream: int32, version: int32) returns (addr: string)
    requires LeadingZeros(RipeOf(sha512, ripemd, signing, encryption)) < 20
    ensures addr == Address(sha512, version, stream, RipeOf(sha512, ripemd, signing, encryption))
  {
    hide Base58.Encode, Body, FullKey, LeadingZeros, Stripped;
    var buffer := JoinKeys(signing, encryption);
    var digest2 := ripemd(sha512(buffer));
    var ripe := SkipZeros(digest2);
    var body := WriteBody(version, stream, ripe);
    var checksum := sha512(sha512(body))[..4];
    var text := Print(body + checksum);
    addr := "BM-" + text;
  }

  method JoinKeys(signing: seq<byte>, encryption: seq<byte>) returns (bytes: seq<byte>)
    ensures bytes == FullKey(signing) + FullKey(encryption)
  {
    hide FullKey;
    var buffer := new ByteString();
    buffer.Append(FullKey(signing));
    buffer.Append(FullKey(encryption));
    bytes := buffer.bytes;
  }

  /** The part of a digest behind its leading zeros. A digest of nothing but zeros makes the source read on. */
  method SkipZeros(digest: seq<byte>) returns (ripe: seq<byte>)
    requires |digest| == 20 && LeadingZeros(digest) < 20
    ensures ripe == Stripped(digest) && |ripe| <= 20
  {
    var i := 0;
    while digest[i] == 0
      invariant i <= LeadingZeros(digest)
      decreases 20 - i
    {
      i := i + 1;
    }
    LeadingZerosUnique(digest, i);
    ghost var start := i;
    ripe := [];
    while i < 20
      invariant start <= i <= 20 && ripe == digest[start..i]
    {
      ripe := ripe + [digest[i]];
      i := i + 1;
    }
  }

  /** Any 42 bytes fit the 256 characters the source allocates. */
  lemma TextFits(data: seq<byte>)
    requires |data| <= 42
    ensures |Base58.Encode(data)| < 256
  {
    hide Pow, Value, ToDigits, LeadingZeros;
    var n, v := |data|, Value(256, data);
    ToDigitsCorrect(58, v);
    ValueBound(256, data);
    Base58.BufferSuffices(n);
    DigitCount(58, v, Base58.BufferSize(n));
  }

  method Print(data: seq<byte>) returns (text: string)
    requires |data| <= 42
    ensures text == Base58.Encode(data)
  {
    hide Base58.Encode;
    TextFits(data);
    var ret := new char[256];
    var ok, size := B58Enc(ret, 256, data);
    assert ret[..][..size - 1] == Base58.Encode(data);
    text := ret[..size - 1];
  }

  /** What `loadAddr` does: return true or false, throw, or read outside its buffer. */
  datatype Outcome = True | False | Exception | Broken

  class PubAddr {
    var address: string
    var version: int32
    var stream: int32
    var ripe: seq<byte>
    var tag: seq<byte>
    var tagE: seq<byte>
    var empty: bool

    constructor ()
    {
      address, version, stream, ripe, tag, tagE, empty := "", 0, 0, [], [], [], true;
    }

    method LoadAddr(sha512: Hash512, text: string) returns (outcome: Outcome)
      modifies this
      ensures match Load(sha512, text)
              case NotBase58 => outcome == False && unchanged(this)
              case BadChecksum => outcome == False && unchanged(this)
              case Undefined => outcome == Broken && unchanged(this)
              case Threw => outcome == Exception && unchanged(this)
              case Malformed => outcome == False && address == text && KeysKept(old(Fields()))
              case BadLength => outcome == False && address == text && KeysKept(old(Fields()))
              case Loaded(v, s, r) => outcome == True && address == text && IsLoaded(sha512, v, s, r)
      ensures match Base58.Decode(50, Digits(text))
              case Decoded(data) =>
                |data| >= 4 && data[|data| - 4..] != sha512(sha512(data[..|data| - 4]))[..4] ==>
                  outcome == False && unchanged(this)
              case _ => unchanged(this)
    {
      hide Base58.Decode, LoadBody, Digits;
      var decoding := DecodeText(text);
      if decoding.Rejected? {
        return False;
      }
      if decoding.OutOfRange? {
        return Broken;
      }
      var body, checksum := SplitChecksum(decoding.data);
      if checksum.OutOfBytes? {
        return Exception;
      }
      ghost var n := |decoding.data| - 4;
      assert body == decoding.data[..n] && checksum.value == decoding.data[n..];
      if sha512(sha512(body))[..4] != checksum.value {
        return False;
      }
      assert Load(sha512, text) == LoadBytes(sha512, decoding.data) == LoadBody(body);
      outcome := LoadFields(sha512, text, body);
    }

    /** The part under the lock. */
    method LoadFields(sha512: Hash512, text: string, body: seq<byte>) returns (outcome: Outcome)
      modifies this
      ensures address == text
      ensures match LoadBody(body)
              case Loaded(v, s, r) => outcome == True && IsLoaded(sha512, v, s, r)
              case _ => outcome == False && KeysKept(old(Fields()))
    {
      hide LoadBody, Body;
      address := text;
      var fields := ReadFields(body);
      if !fields.Loaded? {
        return False;
      }
      version, stream, ripe := fields.version, fields.stream, fields.ripe;
      var buffer := WriteBody(version, stream, ripe);
      var digest2 := sha512(sha512(buffer));
      tagE, tag := digest2[..32], digest2[32..];
      empty := true;
      outcome := True;
    }

    ghost function Fields(): (int32, int32, seq<byte>, seq<byte>, seq<byte>, bool)
      reads this
    {
      (version, stream, ripe, tag, tagE, empty)
    }

    ghost predicate KeysKept(was: (int32, int32, seq<byte>, seq<byte>, seq<byte>, bool))
      reads this
    {
      Fields() == was
    }

    ghost predicate IsLoaded(sha512: Hash512, v: int32, s: int32, r: seq<byte>)
      reads this
    {
      && version == v && stream == s && ripe == r && empty
      && var digest := sha512(sha512(Body(v, s, r)));
         tagE == digest[..32] && tag == digest[32..]
    }
  }

  method DecodeText(text: string) returns (decoding: Base58.Decoding)
    ensures decoding == Base58.Decode(50, Digits(text))
    ensures decoding.Decoded? ==> |decoding.data| <= 50
  {
    hide Base58.Decode, TextUntilZero;
    var digits := TextUntilZero(if |text| >= 3 && text[..3] == "BM-" then text[3..] else text);
    var retu := new byte[100];
    var ok, size2 := B58ToBin(retu, 50, digits);
    if !ok {
      return Base58.Rejected;
    }
    if size2 > 50 {
      return Base58.OutOfRange;
    }
    var data := CopyOut(retu, size2);
    assert Base58.Decode(50, Digits(text)).data == data;
    decoding := Base58.Decoded(data);
  }

  /** With fewer than four bytes the position of the checksum wraps, and reading it throws. */
  method SplitChecksum(data: seq<byte>) returns (body: seq<byte>, checksum: Read<seq<byte>>)
    requires |data| <= 50
    ensures if |data| < 4 then checksum.OutOfBytes?
            else body == data[..|data| - 4] && checksum.Got? && checksum.value == data[|data| - 4..]
  {
    var buffer := new ByteString.Of(data);
    var checkPos := U32(|data| - 4);
    var front := buffer.GetUstring(Int32(checkPos), 0);
    body := front.value;
    checksum := buffer.GetUstring(4, checkPos);
  }

  method ReadFields(body: seq<byte>) returns (fields: Loading)
    ensures fields == LoadBody(body)
  {
    hide GetVarInt;
    var buffer := new ByteString.Of(body);
    var v := buffer.GetVarInt(0);
    if v.OutOfBytes? { return Malformed; }
    var s := buffer.GetVarInt(v.next);
    if s.OutOfBytes? { return Malformed; }
    var r := buffer.GetRest(s.next);
    if r.OutOfBytes? { return Malformed; }
    if |r.value| > 20 || |r.value| < 4 { return BadLength; }
    var ripe := Pad(r.value);
    return Loaded(Int32(v.value), Int32(s.value), ripe);
  }

  method Pad(tmpRipe: seq<byte>) returns (ripe: seq<byte>)
    requires |tmpRipe| <= 20
    ensures ripe == Zeros(20 - |tmpRipe|) + tmpRipe
  {
    ripe := tmpRipe;
    ghost var n: nat := 0;
    while |ripe| != 20
      invariant |ripe| == n + |tmpRipe| <= 20 && ripe == Zeros(n) + tmpRipe
      decreases 20 - n
    {
      assert [0] + Zeros(n) == Zeros(n + 1);
      ripe, n := [0] + ripe, n + 1;
    }
  }

  method WriteBody(version: int32, stream: int32, ripe: seq<byte>) returns (bytes: seq<byte>)
    ensures bytes == Body(version, stream, ripe) && |bytes| <= 18 + |ripe|
  {
    hide EncodeVarInt;
    var buffer := new ByteString();
    buffer.AppendVarInt(U64(version));
    buffer.AppendVarInt(U64(stream));
    buffer.Append(ripe);
    assert buffer.bytes == Body(version, stream, ripe);
    bytes := buffer.bytes;
  }

  method CopyOut(from: array<byte>, n: nat) returns (data: seq<byte>)
    requires n <= from.Length
    ensures data == from[..n]
  {
    data := [];
    var j := 0;
    while j < n
      invariant j <= n && data == from[..j]
    {
      data := data + [from[j]];
      j := j + 1;
    }
  }

  /** Printing an address and loading it into a blank object, whatever the keys are: version, stream
      and the padded hash come back, and the tags are the halves of the double hash over them. */
  method PrintAndLoad(sha512: Hash512, ripemd: Hash160, signing: seq<byte>, encryption: seq<byte>,
                      stream: int32, version: int32) returns (outcome: Outcome, loaded: PubAddr)
    requires LeadingZeros(RipeOf(sha512, ripemd, signing, encryption)) < 20
    ensures var ripe := RipeOf(sha512, ripemd, signing, encryption);
            && (outcome == True <==> LeadingZeros(ripe) <= 16)
            && (outcome == True ==> loaded.IsLoaded(sha512, version, stream, ripe))
            && (outcome != True ==> outcome == False)
  {
    hide Address, Load, LeadingZeros, RipeOf;
    var text := BuildAddressFromKeys(sha512, ripemd, signing, encryption, stream, version);
    AddressReadsBack(sha512, version, stream, RipeOf(sha512, ripemd, signing, encryption));
    loaded := new PubAddr();
    outcome := loaded.LoadAddr(sha512, text);
  }
}
