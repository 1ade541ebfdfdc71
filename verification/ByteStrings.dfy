/** The byte string class `ustring` of BitMRC/utils.cpp. */
module ByteStrings {
  import opened Positional
  import opened Words
  import opened Wire

  lemma NextDigit(s: seq<byte>, b: byte)
    ensures Value(256, s + [b]) == Value(256, s) * 256 + b
  {
    assert (s + [b])[..|s|] == s;
  }

  class ByteString {
    var bytes: seq<byte>

    constructor ()
      ensures bytes == []
    {
      bytes := [];
    }

    constructor Of(s: seq<byte>)
      ensures bytes == s
    {
      bytes := s;
    }

    method AppendInt8(i: byte)
      modifies this
      ensures bytes == old(bytes) + [i]
    {
      bytes := bytes + [i];
    }

    method Append(s: seq<byte>)
      modifies this
      ensures bytes == old(bytes) + s
    {
      bytes := bytes + s;
    }

    method AppendInt16(i: int)
      modifies this
      ensures bytes == old(bytes) + BigEndian(2, i)
    {
      hide BigEndian;
      BigEndianSmall(i);
      var b1, b2 := i % 256, i / 0x100 % 256;
      AppendInt8(b2);
      AppendInt8(b1);
    }

    method AppendInt32(i: int)
      modifies this
      ensures bytes == old(bytes) + BigEndian(4, i)
    {
      hide BigEndian;
      BigEndianFour(i);
      var b1, b2, b3, b4 := i % 256, i / 0x100 % 256, i / 0x10000 % 256, i / 0x1000000 % 256;
      AppendInt8(b4);
      AppendInt8(b3);
      AppendInt8(b2);
      AppendInt8(b1);
    }

    method AppendInt64(i: int)
      modifies this
      ensures bytes == old(bytes) + BigEndian(8, i)
    {
      hide BigEndian;
      BigEndianEight(i);
      var b1, b2, b3, b4 := i % 256, i / 0x100 % 256, i / 0x10000 % 256, i / 0x1000000 % 256;
      var b5, b6 := i / 0x1_0000_0000 % 256, i / 0x100_0000_0000 % 256;
      var b7, b8 := i / 0x1_0000_0000_0000 % 256, i / 0x100_0000_0000_0000 % 256;
      AppendInt8(b8);
      AppendInt8(b7);
      AppendInt8(b6);
      AppendInt8(b5);
      AppendInt8(b4);
      AppendInt8(b3);
      AppendInt8(b2);
      AppendInt8(b1);
    }

    method AppendVarInt(i: uint64)
      modifies this
      ensures bytes == old(bytes) + EncodeVarInt(i)
    {
      hide BigEndian;
      if i < 253 {
        AppendInt8(i);
      } else if 253 <= i < 65536 {
        AppendInt8(253);
        AppendInt16(i);
      } else if 65536 <= i < 4294967296 {
        AppendInt8(254);
        AppendInt32(i);
      } else if i >= 4294967296 {
        AppendInt8(255);
        AppendInt64(i);
      }
    }

    method AppendVarBytes(s: seq<byte>)
      requires |s| < TWO31
      modifies this
      ensures bytes == old(bytes) + EncodeVarBytes(s)
    {
      AppendVarInt(|s|);
      Append(s);
    }

    method GetInt8(i: nat) returns (r: Read<byte>)
      ensures r == if i < |bytes| then Got(bytes[i], i + 1) else OutOfBytes
    {
      if |bytes| <= i {
        return OutOfBytes;
      }
      return Got(bytes[i], i + 1);
    }

    /** The readers of fixed width sum `n` bytes shifted into place, left to right. */
    method GetUnsigned(n: nat, i: nat) returns (r: Read<nat>)
      requires n > 0
      ensures r == GetInt(n, bytes, i)
    {
      var sum, j := 0, i;
      while j < i + n
        invariant i <= j <= i + n
        invariant if i <= |bytes| then j <= |bytes| && sum == Value(256, bytes[i..j]) else j == i
      {
        var b := GetInt8(j);
        if b.OutOfBytes? {
          return OutOfBytes;
        }
        NextDigit(bytes[i..j], b.value);
        assert bytes[i..j + 1] == bytes[i..j] + [b.value];
        var shifted: nat := sum;
        sum := shifted * 256 + b.value;
        j := b.next;
      }
      return Got(sum, j);
    }

    method GetVarInt(i: nat) returns (r: Read<nat>)
      ensures r == Wire.GetVarInt(bytes, i)
    {
      hide Value;
      if |bytes| <= i {
        return Got(0, i);
      }
      var first := GetInt8(i);
      if first.value < 253 {
        return Got(first.value, first.next);
      } else if first.value == 253 {
        r := GetUnsigned(2, first.next);
      } else if first.value == 254 {
        r := GetUnsigned(4, first.next);
      } else {
        r := GetUnsigned(8, first.next);
      }
    }

    method GetUstring(len: int32, i: nat) returns (r: Read<seq<byte>>)
      ensures r == GetBytes(len, bytes, i)
    {
      if i > |bytes| {
        return OutOfBytes;
      }
      var count := if 0 <= len <= |bytes| - i then len else |bytes| - i;
      return Got(bytes[i..i + count], U32(i + len));
    }

    method GetVarUstring(i: nat) returns (r: Read<seq<byte>>)
      ensures r == GetVarBytes(bytes, i)
    {
      var len := GetVarInt(i);
      if len.OutOfBytes? {
        return OutOfBytes;
      }
      r := GetUstring(Int32(len.value), len.next);
    }

    method GetRest(i: nat) returns (r: Read<seq<byte>>)
      ensures r == Wire.GetRest(bytes, i)
    {
      if i > |bytes| {
        return OutOfBytes;
      }
      return Got(bytes[i..], |bytes|);
    }
  }
}
