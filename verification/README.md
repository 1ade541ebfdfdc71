# BitMRC in Dafny

BitMRC is a Bitmessage node. This project models what it does apart from cryptography, sockets and
SQL, and proves what these parts are for:

* the Base58 codec that addresses are written in, with its buffers, limbs, carries and masks;
* the proof of work that decides which objects are accepted, in 64-bit arithmetic, and the search for it;
* the chained hash table in which objects and messages are kept, with its linked nodes;
* the gossip by which nodes pass objects on, as runs of any number of nodes on any network;
* the file that carries the object table over a restart;
* the blocking queue between the threads, as interleaved steps;
* the wire formats: integers, varints, packets, object headers, inventories, addresses, and the bytes
  that are signed and verified.

Code that changes things in place is modelled by methods over arrays, linked nodes and object fields.
Each is proved against a function of its inputs, and what the program promises is proved about these
functions, for all inputs or over all runs.

## Layout

| file | what it models |
|---|---|
| `Positional.dfy`, `Words.dfy`, `CStrings.dfy`, `Hashes.dfy` | positional numbers, fixed-width integers, zero-ended strings, hash functions |
| `Base58.dfy`, `Base58Buffers.dfy` | `base58.cpp`: what it computes, and how |
| `Wire.dfy`, `ByteStrings.dfy`, `Objects.dfy`, `Inventory.dfy`, `Framing.dfy` | byte strings, packets and sockets |
| `Signatures.dfy`, `Ber.dfy`, `Addresses.dfy`, `AddressBook.dfy` | message layouts, signatures, addresses, the list of addresses |
| `HashFunction.dfy`, `HashTables.dfy`, `TableLaws.dfy` | the hash table |
| `ProofOfWork.dfy` | targets, the check and the search |
| `Gossip.dfy`, `Nodes.dfy` | the exchange of objects: steps and runs, and the methods that take them |
| `Reception.dfy`, `Delivery.dfy` | from a decrypted plaintext to the message table, and what is handed on |
| `Archive.dfy`, `Sessions.dfy` | the object file, and nodes that stop and start |
| `BlockingQueue.dfy` | the queue |

## Conventions

* A hash function is any function with digests of the right length. Time is a parameter.
* Masks and shifts are written as division and remainder. Reads of several bytes evaluate left to right.
* Lengths of byte strings are below 2^31 where the program casts them to `int`. Time differences do not
  overflow. `char` is signed and `long` has 64 bits.
* An exception is a result (`OutOfBytes`, `Closed`, `Throws`, `Exception`). Behaviour that the language
  leaves undefined is a result of its own (`OutOfRange`, `Undefined`, `Broken`). An exception that leaves
  a listener thread ends the process, and with it the object table: the node is down.
* What a cipher makes of a text and whether a signature is right are parameters. A signature is taken
  apart as sections 8.1 and 8.3 of X.690 say.
* The bucket function copies into an uninitialised buffer of four bytes, so its result may depend on
  what the stack held. The model keeps that: the slot of such a hash is not determined. `Stable` hashes
  are those for which it is.

## Where code and expectation part

* `getTarget` is the quotient of 2^64 for divisors from 2 to 2^63 only (`HalvedIsQuotient`).
* `validateObj` lets an object pass that is exactly 3600 seconds past its time, but there `getTarget` no
  longer raises the time left to 300; it wraps to almost 2^64 and the target falls to 65
  (`TargetAtDeadline`, `ValidityPersists`, `FailsAtDeadline`).
* The comment on `insert` calls 1 "first with this hash" and 2 "not first". The code tells chains apart,
  not hashes, and 0 is the duplicate. `processObj` takes 2 for "already analysed": an object that is
  new to a chain in use is stored but never announced, while a duplicate is announced again
  (`AnnouncedIff`, `SecondIsSilent`, `SilenceHappens`).
* A hash under which something was inserted need not be present, because insertion compares infos and
  not hashes (`PresentAfterInsert`, `InsertedButAbsent`). The inventory always inserts under the hash of
  the info, and there it is present (`FoundUnderDiscipline`).
* An address whose key hash has fewer than four significant bytes is printed but not read back
  (`AddressReadsBack`). The test `checkPos < 0` never holds for an unsigned number; an address of fewer
  than four bytes throws instead.
* A verified message is delivered only if its acknowledgement is a packet with an object in it: taking
  the packet apart throws otherwise, before the message is stored. The acknowledgement of every message
  `sendMessage` makes is the single byte 1, so none of these is ever delivered, by any receiver
  (`OwnMessagesAreLost`; `DeliveredIff` for messages with any acknowledgement).
* A payload that does not decode makes a constructor throw `runtime_error`. The listener catches `int`
  only and is the body of a thread, so one truncated `inv`, `getdata`, `addr`, `version` or `object` ends the
  process (`TruncationStops`). So does an accepted object that is to start with a tag and is too short
  for one (`ShortTagStops`), and a packet header whose length has the top bit set
  (`Framing.Socket.GetCommand`, and `Stream` among the events of `Gossip`). Exactly which bytes of which
  event end a node is said by `WhatEnds`, when it is up by `UpIff`, and what it has decoded by
  `UpMeansDecoded`.
* An address whose leading ones and value together need more than 50 bytes makes the decoder copy from
  in front of its buffer, for example more than fifty ones (`TooManyOnes`, `OnesAreUndefined`).
* A decoded object need not encode to the bytes it came from: longer varints than needed are accepted
  (`ReencodeIffShortest`, with a payload of 24 bytes that becomes 22 in `LongVersionShrinks`).

## Model

| member | source | states |
|---|---|---|
| Base58.LetterThenDigit | BitMRC/base58.cpp:40-49 | the digit table undoes the letter table |
| Base58.DigitThenLetter | BitMRC/base58.cpp:40-151 | and the other way round for every valid character; invalid ones map to -1 |
| Base58.Alphabet | BitMRC/base58.cpp:40-49 | the valid characters are the digits and letters without 0, O, I and l, and their digits grow with their codes |
| Base58.DecodeEncode | BitMRC/base58.cpp:51-195 | decoding the text of any byte string that fits the buffer gives it back, leading zeros and exact length included |
| Base58.EncodeDecode | BitMRC/base58.cpp:51-195 | the bytes decoded from an accepted text encode to that same text |
| Base58.DecodesIffEncoding | BitMRC/base58.cpp:51-195 | a text decodes to given bytes if and only if it is their encoding and they fit |
| Base58.RejectedIff | BitMRC/base58.cpp:51-148 | rejected is exactly what encodes no bytes of a value that fits, be it for a wrong character; out of range exactly what encodes such a value behind too many zeros |
| Base58.BufferSuffices | BitMRC/base58.cpp:163 | 58^(n*138/100+1) >= 256^n, so the digit buffer can never be too small |
| Base58.TooManyOnes | BitMRC/base58.cpp:138-145 | any number of ones above the size asked for is accepted and goes out of range |
| Base58Buffers.PushByte | BitMRC/base58.cpp:169-174 | one outer step multiplies the buffer's value by 256 and adds the byte, stays inside the buffer, and leaves only zeros up to the new watermark |
| Base58Buffers.NoCarryLeft | BitMRC/base58.cpp:169-175 | when the value fits the buffer the carry is gone before the buffer's first position is passed |
| Base58Buffers.BytesToDigits | BitMRC/base58.cpp:163-175 | the conversion loops leave exactly the base-58 value of the bytes in the buffer |
| Base58Buffers.CanonicalDigits | BitMRC/base58.cpp:177 | what follows the zeros in the buffer is the one canonical base-58 form of the value |
| Base58Buffers.WriteText | BitMRC/base58.cpp:186-191 | the output is the ones, then the letters, then a zero; the rest of the buffer is untouched |
| Base58Buffers.B58Enc | BitMRC/base58.cpp:153-195 | the encoder writes the encoding and its size, or only the size if the output is too small, in which case nothing is written |
| Base58Buffers.CarryIsSixBits | BitMRC/base58.cpp:91-92 | the mask 0x3f00000000 loses no bit of the carry, which stays below 58 |
| Base58Buffers.PushDigit | BitMRC/base58.cpp:89-94 | one digit multiplies the value of the limbs by 58 and adds the digit, the carry out counting 2^(32 n) |
| Base58Buffers.MaskTestsSize | BitMRC/base58.cpp:62-101 | the mask test on the top limb fails exactly when the value needs more than the asked number of bytes |
| Base58Buffers.CarryTestsSize | BitMRC/base58.cpp:95-106 | carry test and mask test together are the test of the value against 256^binsz |
| Base58Buffers.PrefixBelow | BitMRC/base58.cpp:74-107 | once a prefix of the digits is too large so is the whole, so that failing early is right |
| Base58Buffers.Accumulate | BitMRC/base58.cpp:70-107 | the digit loop accepts exactly the texts of valid characters with a value below 256^binsz, and then the limbs hold that value |
| Base58Buffers.Unpack | BitMRC/base58.cpp:109-128 | the uneven first limb and the others come out as the big-endian bytes of the value |
| Base58Buffers.ShiftLeft | BitMRC/base58.cpp:141-145 | the overlapping copy moves the bytes down in place and leaves everything behind binsz alone |
| Base58Buffers.B58ToBin | BitMRC/base58.cpp:51-148 | the decoder rejects, goes out of range or gives the bytes exactly as the specification says, and writes nothing behind binsz |
| Wire.VarIntReadsBack | BitMRC/utils.cpp:133-299 | every 64-bit number is read back from its varint anywhere in a string, the cursor right behind it |
| Wire.VarIntFormat | BitMRC/utils.cpp:133-162 | one byte below 253, else a marker and the big-endian number in the least of two, four and eight bytes it fits |
| Wire.VarIntRange | BitMRC/utils.cpp:276-299 | a varint that can be read fits 64 bits and never moves the cursor back |
| Wire.VarIntMeans | BitMRC/utils.cpp:276-299 | a varint can be read exactly if all the bytes its first one announces are there, or none at all, and then it is zero; what its value is |
| Wire.VarIntRewrites | BitMRC/utils.cpp:133-299 | writing a read varint anew gives its bytes exactly if it was in shortest form; otherwise it shrinks by an even number of bytes |
| Wire.VarBytesReadBack | BitMRC/utils.cpp:364-440 | a byte string behind its length is read back at any position, the cursor right behind it |
| Wire.BytesMean | BitMRC/utils.cpp:394-400 | a length counts as an unsigned number of 64 bits, no more is taken than there is, and the cursor moves by it modulo 2^32 |
| ByteStrings.ByteString.AppendVarInt | BitMRC/utils.cpp:133-162 | the four ranges append the varint of the number |
| ByteStrings.ByteString.AppendInt64 | BitMRC/utils.cpp:110-131 | the eight shifted bytes are the big-endian two's complement form |
| ByteStrings.ByteString.AppendVarBytes | BitMRC/utils.cpp:364-368 | the string grows by the length and the bytes |
| ByteStrings.ByteString.GetUnsigned | BitMRC/utils.cpp:255-274 | summing shifted bytes gives their big-endian value, or throws at the end of the string |
| ByteStrings.ByteString.GetVarInt | BitMRC/utils.cpp:276-299 | the value and the next cursor, 0 at the very end of the string, an exception in the middle of a number |
| ByteStrings.ByteString.GetUstring | BitMRC/utils.cpp:394-400 | a negative length takes the rest, the cursor wraps at 32 bits, a cursor behind the end throws |
| Objects.HeaderReadsBack | BitMRC/include/Packet.h:415-435 | time, type, version and stream are read back from wherever the header stands |
| Objects.PayloadLayout | BitMRC/include/Packet.h:426-435 | at which bytes of a payload nonce, time, type, version, stream and body stand |
| Objects.DecodeDataMeans | BitMRC/include/Packet.h:415-424 | a payload is an object exactly if it has twenty fixed bytes and two varints that can be read |
| Objects.ObjectReadsBack | BitMRC/include/Packet.h:415-435 | decoding an encoded object recovers all six fields for all 64-bit values and any payload |
| Objects.ReencodeIffShortest | BitMRC/include/Packet.h:415-435 | a decoded payload encodes to itself exactly if both its varints are in shortest form |
| Objects.LongVersionShrinks | BitMRC/include/Packet.h:415-435 | a payload of 24 bytes that decodes to an object of 22 |
| Objects.ObjectPacket.Encode | BitMRC/include/Packet.h:426-435 | the payload becomes the encoding of the fields, which stay as they are |
| Objects.ObjectPacket.Decode | BitMRC/include/Packet.h:415-424 | the fields become what the payload encodes, or an exception is thrown |
| Inventory.TagsReadBack | BitMRC/include/Packet.h:305-376 | a tag list of any length below 2^63 decodes to itself and uses up the payload |
| Inventory.DecodeTagsMeans | BitMRC/include/Packet.h:305-376 | a payload is a tag list exactly if its count can be read and 32 bytes for each counted tag follow, and these are the tags; a count of 2^63 or more counts as none |
| Inventory.TagListPacket.EncodeData | BitMRC/include/Packet.h:320-329 | count and tags, in order |
| Inventory.TagListPacket.DecodeData | BitMRC/include/Packet.h:305-318 | the decoded tags are appended to those already there; a payload cut short throws |
| Inventory.NoFurther | BitMRC/include/Packet.h:305-318 | once a tag is cut short no larger count can be read |
| Inventory.AddressReadsBack | BitMRC/include/Packet.h:251-281 | a network address with a 16-byte IP is read back field by field |
| Inventory.AddressesReadBack | BitMRC/include/Packet.h:251-281 | so is a list of any length |
| Inventory.DecodeAddressesMeans | BitMRC/include/Packet.h:251-266 | a payload is an address list exactly if its count can be read and 34 bytes for each counted address follow; at which of them time, stream, services, IP and port stand |
| Inventory.AddrPacket.DecodeData | BitMRC/include/Packet.h:251-266 | the loop appends exactly the decoded addresses, or throws |
| Inventory.ConnectionsMean | BitMRC/NodeConnection.cpp:357-373 | connected to is every address with 0xff in bytes 10 and 11 of its IP, at bytes 12 to 15 and its port, in order |
| Framing.FrameParses | BitMRC/packet.cpp:12-39 | a frame in front of any stream parses to its packet and the parser stops right behind it |
| Framing.SealedLayout | BitMRC/packet.cpp:25-61 | what is sent: e9 be b4 d9, the command padded with zeros, the length, the first four bytes of the hash of the payload, the payload |
| Framing.FrameSteps | BitMRC/packet.cpp:12-23 | of which bytes of a stream the parser makes which field, and when there is no packet |
| Framing.HugeLengthMeans | BitMRC/packet.cpp:12-23 | a length turns negative exactly if its first byte, the 17th of the header, is 128 or more |
| Framing.FramesParse | BitMRC/packet.cpp:12-39 | any number of packets sent one after the other come out in order with nothing in between |
| Framing.TagsTravel | BitMRC/packet.cpp:12-39 | sealing, framing, parsing and decoding carry a tag list through |
| Framing.FrameIsPacket | BitMRC/packet.cpp:3-11 | a frame kept in a byte string gives its packet back |
| Framing.ParsePacketMeans | BitMRC/packet.cpp:3-11 | a packet can be taken from exactly the strings of 24 bytes and more; which bytes are its fields, the payload being all that follows the header |
| Framing.ReadPacket | BitMRC/packet.cpp:3-11 | the constructor that takes a packet from a byte string, exceptions included |
| Framing.DecodeVersionMeans | BitMRC/include/Packet.h:161-184 | a version packet decodes exactly if eighty fixed bytes are there and the length behind them leads to a place in the payload, be it backwards; its first four bytes are the version |
| Framing.ReadVersion | BitMRC/include/Packet.h:161-184 | the decoder of the version packet, exceptions included |
| Framing.Socket.GetUstring | BitMRC/utils.cpp:867-904 | however the stream is cut into chunks, exactly the asked bytes come out, or it throws |
| Framing.Socket.GetCommand | BitMRC/packet.cpp:12-23 | a whole packet is read whatever the chunks, and the stream stands at the next one; a closed connection is told from a length that turns negative |
| Framing.Socket.SendData | BitMRC/packet.cpp:25-39 | the stream grows by the frame of the packet, with the command padded to 12 bytes |
| Signatures.HeaderOfObject | BitMRC/BitMRC.cpp:490-494 | the header taken from a finished packet is the object's, whatever nonce and body are |
| Signatures.HeaderOfPayload | BitMRC/BitMRC.cpp:784-789 | for any payload that decodes, in shortest form or not, the header both sides write is that of the decoded object |
| Signatures.SameBytes | BitMRC/BitMRC.cpp:484-497 | the verifier's bytes, cut at the end of the signed part, are the signer's |
| Signatures.MessageReadsBack | BitMRC/BitMRC.cpp:741-760 | every field of a message is recovered from its plaintext, for any acknowledgement and any signature |
| Signatures.MessageLayout | BitMRC/BitMRC.cpp:457-473 | every byte of the plaintext of a message, part after part |
| Signatures.MessageVerifiesWhatWasSigned | BitMRC/BitMRC.cpp:457-802 | for every message, with any acknowledgement, the bytes verified are byte for byte the bytes signed |
| Signatures.BroadcastReadsBack | BitMRC/BitMRC.cpp:909-930 | every field of a broadcast is recovered |
| Signatures.BroadcastLayout | BitMRC/BitMRC.cpp:568-583 | every byte of the plaintext of a broadcast |
| Signatures.BroadcastVerifiesWhatWasSigned | BitMRC/BitMRC.cpp:568-963 | the same for broadcasts, with the tag recovered from the packet |
| Signatures.PubKeyReadsBack | BitMRC/Addr.cpp:228-240 | every field of a public key object is recovered |
| Signatures.PubKeyLayout | BitMRC/Addr.cpp:1124-1128 | every byte of the plaintext of a public key |
| Signatures.PubKeyVerifiesWhatWasSigned | BitMRC/Addr.cpp:228-1152 | the owner signs over the tag of its keys; a receiver who knows the printed address derives that tag from the text, finds the packet by it, and verifies the bytes signed |
| Signatures.OwnTagMeans | BitMRC/Addr.cpp:150-159 | the tag is the second half of the double hash over version, stream and the whole key hash, and is the tag of any address object that loaded the printed text |
| Signatures.TagReadsBack | BitMRC/packet.cpp:113-126 | tag and ciphertext are separated again |
| Signatures.HeaderBytes | BitMRC/BitMRC.cpp:490-494 | the header is read from position 8 and written anew, or throws |
| Signatures.BuildMessage | BitMRC/BitMRC.cpp:457-520 | the plaintext is the body and the signature over header and body |
| Signatures.ReadMessage | BitMRC/BitMRC.cpp:741-760 | the parser of the decrypted message is the one the round trip is proved for |
| Signatures.BuildBroadcast | BitMRC/BitMRC.cpp:568-631 | the same for broadcasts; the tag is signed exactly in version 5 |
| Signatures.ReadBroadcast | BitMRC/BitMRC.cpp:909-928 | the parser of the decrypted broadcast |
| Signatures.BuildPubKey | BitMRC/Addr.cpp:1124-1175 | the same for public keys |
| Signatures.ReadPubKey | BitMRC/Addr.cpp:228-240 | the parser of the decrypted public key |
| Signatures.VerifiedBytes | BitMRC/BitMRC.cpp:784-796 | what a verifier hashes is header, tag and plaintext up to the position its parser found |
| Ber.SignatureIsStable | BitMRC/BitMRC.cpp:806-813 | a signature that can be taken apart has at least six bytes, and its bucket depends on nothing else |
| Ber.PairReadsBack | BitMRC/BitMRC.cpp:804-810 | two integers behind a sequence header of one length byte are read back, whatever follows, exactly if the length is right |
| Ber.LongPairReadsBack | BitMRC/BitMRC.cpp:804-810 | so are they with the length in the long form |
| Ber.OpenPairReadsBack | BitMRC/BitMRC.cpp:804-810 | and with the indefinite length exactly if two zeros end it |
| Ber.OnlySequences | BitMRC/BitMRC.cpp:804-810 | a signature starts with the tag of a sequence |
| Addresses.AddressReadsBack | BitMRC/Addr.cpp:68-593 | reading a printed address gives version, stream and the padded 20-byte hash exactly if the hash has four significant bytes; otherwise it is refused |
| Addresses.PrintedAddress | BitMRC/Addr.cpp:552-593 | the printed address is "BM-" and the Base58 text of version, stream, the hash without leading zeros and the first four bytes of the double hash of these |
| Addresses.KeysAreJoined | BitMRC/Addr.cpp:524-551 | the hash of an address is RIPEMD-160 of SHA-512 of the signing key and then the encryption key, each with its leading 4, given or not |
| Addresses.LoadMeans | BitMRC/Addr.cpp:68-112 | loading the text of any bytes, with or without prefix or something behind a zero: fewer than four throw; it is refused for its checksum exactly if the last four bytes are not those of the double hash of the others; else these decide |
| Addresses.LoadBodyMeans | BitMRC/Addr.cpp:114-147 | what is loaded from the bytes in front of the checksum: two varints, and a hash that must have 4 to 20 bytes and gets its zeros back |
| Addresses.LoadsIff | BitMRC/Addr.cpp:68-147 | an address loads exactly if its digits encode at most 50 bytes with a right checksum and fields in order |
| Addresses.BodyReadsBack | BitMRC/Addr.cpp:116-147 | stripping the zeros of the hash is undone by padding |
| Addresses.OnesAreUndefined | BitMRC/Addr.cpp:77-87 | an address of more than fifty ones makes the program read in front of its buffer |
| Addresses.BuildAddressFromKeys | BitMRC/Addr.cpp:524-593 | the address printed for two keys, whatever their length |
| Addresses.TextFits | BitMRC/Addr.cpp:580-586 | the 256 characters of the buffer always suffice |
| Addresses.PubAddr.LoadAddr | BitMRC/Addr.cpp:68-164 | which fields change on which outcome; bytes that do not end in the start of the double hash of the others are refused and change nothing; the tags are the halves of the double hash over the padded form |
| Addresses.PrintAndLoad | BitMRC/Addr.cpp:68-593 | printing and loading: recovered with its tags exactly from four significant bytes on, never an exception |
| AddressBook.BookHoldsBest | BitMRC/BitMRC.cpp:1042-1065 | after any additions an address stands in the list once, exactly if it was ever added, with the first keys that came for it |
| AddressBook.FirstKeysStay | BitMRC/BitMRC.cpp:1042-1065 | a contact stands in the list exactly if it has an address and is the first added with its keys, or the first at all when none has keys |
| AddressBook.PlacesStay | BitMRC/BitMRC.cpp:1042-1065 | an addition changes no place in the list and adds at the end |
| AddressBook.Addresses.AddAddr | BitMRC/BitMRC.cpp:1042-1065 | the loop replaces, appends or ignores as specified |
| HashFunction.DeterministicIffStable | BitMRC/include/utils.h:573-595 | the bucket is determined by the hash exactly if the hash has four bytes or no zero in front of its last byte |
| HashFunction.SlotMeans | BitMRC/include/utils.h:573-595 | the bucket is the amount of the sum of the words modulo 100771: signed bytes, little end first, a zero hiding what follows it in its word |
| HashFunction.HashF | BitMRC/include/utils.h:573-595 | the loops compute a slot inside the table from the hash and, if the hash is not stable, the stale buffer |
| HashTables.HashTable.Insert | BitMRC/include/utils.h:459-500 | the linked nodes afterwards hold the specified list: unchanged for an info its chain has, else with the entry at the end; the return code tells which |
| HashTables.HashTable.Present | BitMRC/include/utils.h:505-521 | 1 exactly if the chain has an entry with the hash |
| HashTables.HashTable.SearchByHash | BitMRC/include/utils.h:523-540 | the info of the first entry with the hash, or a blank |
| TableLaws.StoredHasNoEqualInfos | BitMRC/include/utils.h:459-500 | no chain ever holds an info twice |
| TableLaws.StoredGrows | BitMRC/include/utils.h:459-500 | insertions never lose or reorder entries |
| TableLaws.StoredIffInserted | BitMRC/include/utils.h:459-500 | a chain holds an info exactly if it was inserted into that chain at some time |
| TableLaws.ChainScanIsFullScan | BitMRC/include/utils.h:505-540 | looking into one chain finds what scanning the whole history of entries finds |
| TableLaws.PresentAfterInsert | BitMRC/include/utils.h:459-521 | exactly when a hash is found after an insertion under it |
| TableLaws.InsertedButAbsent | BitMRC/include/utils.h:459-521 | two insertions after which the second hash is not found |
| TableLaws.FoundUnderDiscipline | BitMRC/include/utils.h:459-540 | when everything is inserted under the hash of its info, a hash is found exactly if something with it was inserted, and what is found has it |
| BlockingQueue.EveryRun | BitMRC/include/utils.h:361-398 | in every interleaving of pushes, pops, spurious wakeups and late notifies: one thread holds the lock, nothing is taken from an empty queue, popped and queued items are the pushed ones in order, and no wakeup is lost |
| BlockingQueue.NothingLost | BitMRC/include/utils.h:361-398 | in terms of the steps alone: what was popped and what is queued are the items that the calls to push carried, one for each push step and in their order, and the k-th item went to the consumer of the k-th take |
| BlockingQueue.PushGoesThrough | BitMRC/include/utils.h:384-390 | a push without interruption can be made whenever the lock is free, and leaves its item at the end of the queue |
| BlockingQueue.PopGoesThrough | BitMRC/include/utils.h:361-371 | a pop without interruption takes the first item, or parks the consumer if there is none |
| BlockingQueue.NotifyWakes | BitMRC/include/utils.h:384-390 | a notification cannot be spent on nobody while a consumer is parked, and wakes the one it is spent on; one may also wake unasked |
| BlockingQueue.KeepsWakeups | BitMRC/include/utils.h:361-398 | each step keeps the bound: while a consumer is parked there are at least as many pending notifies and woken consumers as items |
| BlockingQueue.Progress | BitMRC/include/utils.h:361-398 | while a consumer is parked and an item is queued, the owner of the lock, a notification or a woken consumer can go on |
| ProofOfWork.HalvedIsQuotient | BitMRC/pow.cpp:61-69 | dividing 2^63 twice gives the quotient of 2^64 exactly for divisors from 2 to 2^63 |
| ProofOfWork.TargetInWindow | BitMRC/pow.cpp:52-72 | in the window of accepted objects nothing overflows and the target is the rounded-down quotient, positive and within the signed type |
| ProofOfWork.TargetAntitone | BitMRC/pow.cpp:52-72 | more time to live or a longer object never has a larger target |
| ProofOfWork.TargetAtDeadline | BitMRC/pow.cpp:57-69 | exactly 3600 seconds past its time an object of any size has target 65 |
| ProofOfWork.ValidateMeans | BitMRC/BitMRC.cpp:694-715 | an object is accepted exactly if size and time are in range and the first eight bytes of SHA-512 of SHA-512 of its nonce and the SHA-512 of the rest are at most 2^64 divided by the divisor, written out, or 65 at the deadline; it throws exactly for fewer than eight bytes at a time in range |
| ProofOfWork.ValidityPersists | BitMRC/BitMRC.cpp:694-715 | an object accepted once is accepted later exactly while less than 3600 seconds past its time, or at 3600 with a work value of at most 65 |
| ProofOfWork.FailsAtDeadline | BitMRC/BitMRC.cpp:694-715 | an encoded object that passes one second before that and fails then |
| ProofOfWork.SearchPow | BitMRC/pow.cpp:84-131 | the nonce found is the first that meets the target in the order 1, 2, ..., with what it hashes to written out |
| ProofOfWork.SearchNonce | BitMRC/pow.cpp:109-128 | the loop over the shared buffer ends, if any nonce can meet the target, with the first that does |
| ProofOfWork.SearchMeetsCheck | BitMRC/BitMRC.cpp:654-715 | what the search finds is accepted by the separate check on the object encoded anew, then and later in the window |
| Gossip.StoredIffAdmitted | BitMRC/BitMRC.cpp:169-181 | after every run a node that is up stores exactly the payloads that passed the check when they came in, each once, under the first half of its double SHA-512 and in the chain of that; one that is down stores nothing |
| Gossip.WhatChanges | BitMRC/BitMRC.cpp:169-181 | what one event changes at a node that stays up, in terms of its bytes: which entry is added at the end of the table, and which tag at the end of those to announce; nothing at other nodes |
| Gossip.WhatEnds | BitMRC/NodeConnection.cpp:279-439 | exactly which bytes of which event end a node that is up |
| Gossip.ObjectStored | BitMRC/BitMRC.cpp:169-181 | what propagating and processing an object do to the table and the queue of tags, with the hash written out |
| Gossip.UpIff | BitMRC/NodeConnection.cpp:279-439 | a node is up exactly if its listener came back from every event: the packet could be read, its payload decoded, and no object it handled beyond the storing threw |
| Gossip.UpMeansDecoded | BitMRC/NodeConnection.cpp:279-439 | a node that is up has received nothing but packets that can be read and payloads that decode, and such payloads, if they can be handled, never bring one down, whatever its table holds |
| Gossip.UpBefore | BitMRC/NodeConnection.cpp:279-439 | a node that is down stays down |
| Gossip.TruncationStops | BitMRC/NodeConnection.cpp:376-439 | one byte of an inventory brings down any node in any state, and everything it held is gone |
| Gossip.ShortTagStops | BitMRC/BitMRC.cpp:203-239 | an object with valid work and no tag where one is to be brings down the node that accepted it |
| Gossip.HoldsIffAdmitted | BitMRC/NodeConnection.cpp:376-398 | a tag is present exactly if the node is up and a payload with that tag passed the check at the node at some time |
| Gossip.ReplyHashes | BitMRC/NodeConnection.cpp:399-424 | what is found for a tag was accepted and its double SHA-512 starts with the tag; something is found exactly if the tag is held |
| Gossip.RepliesMatchRequest | BitMRC/NodeConnection.cpp:399-424 | the objects sent are one for each requested tag that is held, in the order of the request; the double SHA-512 of each starts with its tag |
| Gossip.NeededOrHeld | BitMRC/NodeConnection.cpp:376-398 | what is asked for and what is held split the advertised tags |
| Gossip.NeededInOrder | BitMRC/NodeConnection.cpp:376-398 | both keep the order of the advertised tags |
| Gossip.HoldsForever | BitMRC/BitMRC.cpp:169-181 | a tag once held stays held exactly as long as the node is up |
| Gossip.ExchangeCompletes | BitMRC/NodeConnection.cpp:376-427 | after inv, getdata and objects, with any other steps of any nodes in between, the receiver, if still up, holds each advertised tag the sender held, if only the object arrives after the sender accepted it and less than 3600 seconds past its time |
| Gossip.ExchangeHappens | BitMRC/NodeConnection.cpp:376-427 | for every object that passes the check there is a run with such an exchange; the receiver holds the tag after its last step and not before |
| Gossip.AnnouncedIff | BitMRC/BitMRC.cpp:169-181 | exactly which events of a run get a tag announced by a node that is up |
| Gossip.AnnouncedAreHeld | BitMRC/BitMRC.cpp:169-181 | announced tags are held |
| Gossip.SecondIsSilent | BitMRC/BitMRC.cpp:175-181 | of any two objects in one chain the second is stored without being announced, and announced when it comes in again |
| Gossip.SilenceHappens | BitMRC/BitMRC.cpp:175-181 | a hash function and a run in which that happens |
| Nodes.Node.ProcessObj | BitMRC/BitMRC.cpp:169-241 | the table and the queue of tags change as the step of an arriving object says, with the inventory hash written out, and it throws exactly if what follows the storing is reached and throws |
| Nodes.Dispatch | BitMRC/BitMRC.cpp:183-239 | exactly which objects make it throw behind the storing |
| Nodes.Node.Propagate | BitMRC/BitMRC.cpp:674-686 | the same for an object of the node's own, which is always announced |
| Nodes.Mine | BitMRC/BitMRC.cpp:642-672 | the object is encoded without a nonce, the first possible nonce is found, and it is encoded again with it |
| Nodes.Node.HandleObject | BitMRC/NodeConnection.cpp:424-439 | an object packet is decoded and processed; the listener ends exactly if the payload does not decode or handling the object throws |
| Nodes.Node.PropagateAck | BitMRC/BitMRC.cpp:828-830 | what stands behind 24 bytes of the acknowledgement is propagated; if that is no object it throws and nothing has changed |
| Nodes.AckPayloadMeans | BitMRC/packet.cpp:3-11 | an acknowledgement can be propagated exactly if an object stands behind its first 24 bytes |
| Nodes.Node.HandleInv | BitMRC/NodeConnection.cpp:376-398 | the tags asked for are those of the inv that are not present, in order; a payload that does not decode ends the listener |
| Nodes.Node.HandleGetdata | BitMRC/NodeConnection.cpp:399-424 | the objects sent are those found, in order; a payload that does not decode ends the listener |
| Nodes.Node.HandleAddr | BitMRC/NodeConnection.cpp:351-375 | the packet is passed on as it is; an address list that does not decode ends the listener, else the IPv4 nodes in it are connected to, in order |
| Nodes.Node.HandleVersion | BitMRC/NodeConnection.cpp:294-298 | the version is taken; a version packet that does not decode ends the listener |
| Nodes.Node.Send | BitMRC/BitMRC.cpp:642-686 | an own object is mined with the first possible nonce and propagated as the step says; inside the window it passes the node's own check |
| Delivery.ExactlyOnce | BitMRC/BitMRC.cpp:832-853 | as long as no thread comes between an insertion and its push, the messages handed on are the distinct ones in the order of first arrival |
| Delivery.ArrivalHandsOn | BitMRC/BitMRC.cpp:849-853 | one more arrival is handed on last, unless its message came before |
| Delivery.OnceInEveryInterleaving | BitMRC/BitMRC.cpp:850-853 | with insertion and push of any number of listeners interleaved in any way, a message is queued or waits, once, exactly if an insertion brought it, and the queue has grown by each push |
| Delivery.OnceIfArrived | BitMRC/BitMRC.cpp:832-853 | whatever else arrives, a message is handed on once if it arrives at all |
| Delivery.NothingInvented | BitMRC/BitMRC.cpp:989-1010 | no message is handed on that did not arrive |
| Delivery.SilentIffSeen | BitMRC/BitMRC.cpp:989-1010 | an arriving message is not handed on exactly if it came before |
| Delivery.Inbox.Deliver | BitMRC/BitMRC.cpp:849-853 | one more arrival; the queue stays what the laws say of the arrivals so far |
| Reception.OwnMessagesAreLost | BitMRC/BitMRC.cpp:473-853 | no plaintext `sendMessage` makes is ever delivered, whatever address and signature check receive it |
| Reception.AcknowledgedIsDelivered | BitMRC/BitMRC.cpp:741-853 | a message whose acknowledgement is a framed object is delivered if and only if it verifies |
| Reception.FramedAckIsDelivered | BitMRC/BitMRC.cpp:741-853 | plaintexts that are delivered: one with any framed object for its acknowledgement is, if and only if its signature is right for the bytes that were signed |
| Reception.DeliveredIff | BitMRC/BitMRC.cpp:741-853 | for plaintexts with any recipient, text, acknowledgement and signature: delivered exactly if meant for the receiving address, with a signature that can be taken apart, an object behind 24 bytes of acknowledgement, and a signature that is right for the bytes signed |
| Reception.WhatIsStored | BitMRC/BitMRC.cpp:832-848 | of each of these the text and the signature are stored, with the receiving address and the printed address of the version, stream and keys in it; the sender becomes a contact with its keys and parameters |
| Reception.WhatIsPublished | BitMRC/BitMRC.cpp:828-830 | what stands behind the header of the acknowledgement is published |
| Reception.BroadcastDeliveredIff | BitMRC/BitMRC.cpp:909-985 | broadcasts of both versions: delivered exactly if the signature can be taken apart and is right for header, tag in version 5, and body |
| Reception.WhatIsStoredOfBroadcast | BitMRC/BitMRC.cpp:990-1010 | the same is stored of a broadcast, addressed to "Broadcast" |
| Reception.OwnBroadcastsArrive | BitMRC/BitMRC.cpp:568-1012 | a broadcast the program sent is delivered if and only if its signature is right for the bytes that were signed |
| Reception.Receiver.AcceptMessage | BitMRC/BitMRC.cpp:738-863 | a plaintext reaches the message table exactly if it verifies and its acknowledgement is a packet with an object; then the acknowledgement is propagated and the sender listed, otherwise nothing changes |
| Reception.Receiver.AcceptBroadcast | BitMRC/BitMRC.cpp:905-1020 | a broadcast reaches the message table exactly if it verifies; its sender is listed |
| Reception.Receiver.StoreSender | BitMRC/BitMRC.cpp:837-843 | the sender's address is printed, loaded and listed with its keys and its parameters |
| Archive.LoadRecords | BitMRC/BitMRC.cpp:1184-1211 | reading back any written entries inserts, in order, those that outlive the time of loading, up to the first that is no object |
| Archive.LoadCutShort | BitMRC/BitMRC.cpp:1184-1211 | a file that ends anywhere, because writing was interrupted, gives exactly what would be loaded of the records that are whole |
| Archive.LoadRestoresSave | BitMRC/BitMRC.cpp:1182-1242 | loading a saved table reads the file to its end and gives every chain exactly its entries that outlive the time of loading, in their order |
| Archive.ReachableIsSavable | BitMRC/BitMRC.cpp:1230-1236 | every table the gossip can produce satisfies what that needs |
| Archive.SurvivesRestart | BitMRC/BitMRC.cpp:1182-1242 | after a restart a node that was up when it saved holds exactly the tags of payloads it had accepted whose time is later than the start |
| Archive.RecordReadsBack | BitMRC/utils.cpp:1172-1380 | hash and payload of a record are read back from wherever it stands |
| Archive.RecordLayout | BitMRC/utils.cpp:1172-1380 | a record is the hash, the length of the payload and the payload |
| Archive.InOrderMeans | BitMRC/BitMRC.cpp:1224-1242 | in the file are exactly the entries of the table with a hash of 32 bytes and a payload, chain after chain |
| Archive.Save | BitMRC/BitMRC.cpp:1224-1242 | the walk over buckets and linked nodes writes the entries chain after chain, without those it has to skip |
| Archive.Load | BitMRC/BitMRC.cpp:1182-1211 | the loop makes exactly the specified insertions and stops where reading or decoding fails, which is also where it leaves the file |
| Archive.Restart | BitMRC/BitMRC.cpp:1182-1242 | saving a table and loading it into a new one, as methods; the file is read to its end |
| Sessions.Reload | BitMRC/BitMRC.cpp:1182-1242 | a table loaded from a file is the table of another run, the one that accepted what is still of use |
| Sessions.HoldsAcrossSessions | BitMRC/BitMRC.cpp:1182-1242 | after any number of sessions, with crashes in between, a node that is up stores and answers for exactly what passed the check in the last session or was on file and still of use when it began |
| Sessions.CrashesLoseNothing | BitMRC/BitMRC.cpp:1182-1242 | what passed the check in a session that ended in order is there again after any number of crashes, exactly if its time is later than the last start or it came again |
| Sessions.SessionEnds | BitMRC/NodeConnection.cpp:279-439 | a session is ended by its own events only: undecodable payloads always end it, harmless events never |

## Left out

- ProofOfWork.SearchPow: asks for a nonce that meets the target to exist; without one the source searches forever.
- ProofOfWork.Validate: has two times as parameters where the source asks the clock three times; the clock is taken to stand still during one check.
- Base58Buffers.B58ToBin: says of the `OutOfRange` case only that the source returns true with a size above binsz; the bytes it then copies come from in front of the buffer. The output buffer has twice the asked size, as at the only caller, and characters from 128 on count as invalid.
- Addresses.BuildAddressFromKeys: asks for a key hash that is not all zeros; the source reads behind such a hash.
- Addresses.PubAddr.LoadAddr: the lock around the fields is not modelled.
- Framing.Socket.Recv: may return any non-empty part of what is there, and nothing once the peer has closed; error codes, time-outs and the retry loop on EAGAIN are not modelled, and a buffer is always sent as a whole.
- Framing.Sealed: fills the checksum from the hash, but checksums are not compared on receipt, as in the source; copies of checksums by `strncpy`, which stop at a zero byte, are not modelled.
- BlockingQueue.EveryRun: the queue is modelled on values, not as a class, because its point is the interleaving of threads inside `push` and `pop`; `size` only reads.
- Nodes.Node.Send: follows one object from `sendObj` through `processPOW`, given that some nonce meets the target; the queue and the thread in between are the subject of `BlockingQueue`.
- Reception.Receiver.AcceptMessage: starts from the decrypted plaintext and the address it was decrypted with; it asks for a sender whose key hash is not all zeros, behind which the source reads on; the notice to the user is not modelled.
- Gossip.UpIff: failures of storage, of allocation other than with a negative length, and of the cryptographic library are not events of the model; nor is what a listener does on `verack`.
- Sessions.HoldsAcrossSessions: takes it that an orderly end saves the table and that a node that goes down does not.
- Nodes.Node.HandleObject: is given the plaintexts that contacts waiting for their keys decrypt from a public key; which objects decrypt is not modelled.
- Archive.Load: the file with the keys, which is read and written beside the object file, is not part of this model.
- Signatures.BuildMessage: the signature is any function of the bytes signed; ECDSA, its DER form and the encryption around the plaintext are not part of this model.
- The answer to key requests, the choice of the key an object is decrypted with, and the broadcast of queued tags to the connections.
- The varints in seven-bit groups, the writing of the version packet and the splitting of the first inventory into packets: their round trips fail in the source or the loop does not end.
- `updateByHash`, which follows a null pointer on an empty chain, and the early part of `processObj` as a filter against repeated work.
- SQL storage, configuration, blacklists, DNS, connection set-up, threads, the user interface, key generation and byte swapping.
