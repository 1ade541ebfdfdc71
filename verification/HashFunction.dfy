/** The bucket function `hash_f` of BitMRC/include/utils.h, with its four-byte stack buffer. */
module HashFunction {
  import opened Positional
  import opened CStrings

  const DIM := 100771

  /** A `char` is signed. */
  function Signed(b: byte): int {
    if b < 128 then b else b - 256
  }

  /** The weighted sum of the first `n` bytes of the buffer. */
  function Weigh(c: seq<byte>, n: nat): int
    requires n <= |c|
  {
    if n == 0 then 0 else Weigh(c, n - 1) + Signed(c[n - 1]) * Pow(256, n - 1)
  }

  /** `strncpy` of four bytes: what follows a zero is zero. */
  function Padded(chunk: seq<byte>): (c: seq<byte>)
    requires |chunk| == 4
    ensures |c| == 4
  {
    UntilZero(chunk) + Zeros(4 - |UntilZero(chunk)|)
  }

  /** `strcpy` of the last bytes: the copy ends at the first zero and the buffer keeps what it had behind it. */
  function Overwritten(buffer: seq<byte>, tail: seq<byte>): (c: seq<byte>)
    requires |buffer| == 4 && |tail| < 4
    ensures |c| == 4
  {
    UntilZero(tail) + [0] + buffer[|UntilZero(tail)| + 1..]
  }

  function ChunkSum(hash: seq<byte>, n: nat): int
    requires 4 * n <= |hash|
  {
    if n == 0 then 0 else ChunkSum(hash, n - 1) + Weigh(Padded(hash[4 * n - 4..4 * n]), 4)
  }

  /** The buffer after `n` full chunks; `c0` is what the stack held before. */
  function BufferAfter(c0: seq<byte>, hash: seq<byte>, n: nat): (c: seq<byte>)
    requires |c0| == 4 && 4 * n <= |hash|
    ensures |c| == 4
  {
    if n == 0 then c0 else Padded(hash[4 * n - 4..4 * n])
  }

  function Sum(c0: seq<byte>, hash: seq<byte>): int
    requires |c0| == 4
  {
    var n := |hash| / 4;
    ChunkSum(hash, n) + Weigh(Overwritten(BufferAfter(c0, hash, n), hash[4 * n..]), |hash| - 4 * n)
  }

  function Abs(x: int): nat {
    if x < 0 then -x else x
  }

  function Slot(c0: seq<byte>, hash: seq<byte>): (slot: nat)
    requires |c0| == 4
    ensures slot < DIM
  {
    Abs(Sum(c0, hash)) % DIM
  }

  const BLANK: seq<byte> := [0, 0, 0, 0]

  /** The slot of a hash that does not make the function read stale stack bytes. */
  function SlotOf(hash: seq<byte>): (slot: nat)
    ensures slot < DIM
  {
    Slot(BLANK, hash)
  }

  /** A byte with its top bit set counts negative. */
  function Weight(b: byte, unit: int): int {
    (if b < 128 then b else b - 256) * unit
  }

  /** A word counts little end first, and a zero in it hides what follows. */
  function WordSum(word: seq<byte>): int
    requires |word| == 4
  {
    if word[0] == 0 then 0
    else if word[1] == 0 then Weight(word[0], 1)
    else if word[2] == 0 then Weight(word[0], 1) + Weight(word[1], 0x100)
    else Weight(word[0], 1) + Weight(word[1], 0x100) + Weight(word[2], 0x1_0000) + Weight(word[3], 0x100_0000)
  }

  /** The bucket is the amount of the sum of the words, modulo the size of the table. Up to three bytes
      behind the words count likewise, if none of them is zero. */
  lemma SlotMeans(c0: seq<byte>, hash: seq<byte>, word: seq<byte>, tail: seq<byte>)
    requires |c0| == 4 && |hash| % 4 == 0 && |word| == 4
    requires |tail| < 4 && forall k :: 0 <= k < |tail| ==> tail[k] != 0
    ensures Sum(c0, []) == 0
    ensures Sum(c0, hash + word) == Sum(c0, hash) + WordSum(word)
    ensures Sum(c0, hash + tail) == Sum(c0, hash) + WordSum(tail + Zeros(4 - |tail|))
    ensures Slot(c0, hash + tail) == (var sum := Sum(c0, hash + tail); if sum < 0 then -sum else sum) % 100771
  {
    EmptyTail(c0, []);
    WordCounts(c0, hash, word);
    TailCounts(c0, hash, tail);
    hide Sum;
  }

  lemma WordCounts(c0: seq<byte>, hash: seq<byte>, word: seq<byte>)
    requires |c0| == 4 && |hash| % 4 == 0 && |word| == 4
    ensures Sum(c0, hash + word) == Sum(c0, hash) + WordSum(word)
  {
    hide Sum, Weigh, Padded, WordSum;
    var n, longer := |hash| / 4, hash + word;
    SameChunks(hash, word, n);
    EmptyTail(c0, hash);
    EmptyTail(c0, longer);
    assert longer[4 * n..4 * n + 4] == word;
    WordMeans(word);
  }

  lemma WordMeans(word: seq<byte>)
    requires |word| == 4
    ensures Weigh(Padded(word), 4) == WordSum(word)
  {
    PaddedWord(word);
    WeighFour(Padded(word));
    hide Weigh, Padded;
  }

  lemma TailCounts(c0: seq<byte>, hash: seq<byte>, tail: seq<byte>)
    requires |c0| == 4 && |hash| % 4 == 0
    requires |tail| < 4 && forall k :: 0 <= k < |tail| ==> tail[k] != 0
    ensures Sum(c0, hash + tail) == Sum(c0, hash) + WordSum(tail + Zeros(4 - |tail|))
  {
    var n, longer := |hash| / 4, hash + tail;
    EmptyTail(c0, hash);
    TailSum(c0, longer, n, tail);
    SameChunks(hash, tail, n);
    hide Sum, ChunkSum, WordSum;
  }

  lemma TailSum(c0: seq<byte>, longer: seq<byte>, n: nat, tail: seq<byte>)
    requires |c0| == 4 && |longer| == 4 * n + |tail| && longer[4 * n..] == tail
    requires |tail| < 4 && forall k :: 0 <= k < |tail| ==> tail[k] != 0
    ensures Sum(c0, longer) == ChunkSum(longer, n) + WordSum(tail + Zeros(4 - |tail|))
  {
    hide Weigh, WordSum, ChunkSum, BufferAfter, Overwritten;
    assert |longer| / 4 == n;
    TailWeight(BufferAfter(c0, longer, n), tail, tail + Zeros(4 - |tail|));
  }

  lemma TailWeight(buffer: seq<byte>, tail: seq<byte>, d: seq<byte>)
    requires |buffer| == |d| == 4 && |tail| < 4
    requires forall k :: 0 <= k < |tail| ==> tail[k] != 0 && d[k] == tail[k]
    requires forall k :: |tail| <= k < 4 ==> d[k] == 0
    ensures Weigh(Overwritten(buffer, tail), |tail|) == WordSum(d)
  {
    assert Weight(0, 0x100_0000) == 0;
    FrontOverwritten(buffer, tail);
    hide Weigh, Overwritten, Weight;
    var c := Overwritten(buffer, tail);
    WeighFour(c);
    if |tail| == 3 {
      assert c[2] == d[2];
    }
  }

  lemma FrontOverwritten(buffer: seq<byte>, tail: seq<byte>)
    requires |buffer| == 4 && |tail| < 4 && forall k :: 0 <= k < |tail| ==> tail[k] != 0
    ensures forall k :: 0 <= k < |tail| ==> Overwritten(buffer, tail)[k] == tail[k]
  {
    UntilZeroUnique(tail, |tail|);
    hide UntilZero;
  }

  lemma EmptyTail(c0: seq<byte>, hash: seq<byte>)
    requires |c0| == 4 && |hash| % 4 == 0
    ensures Sum(c0, hash) == ChunkSum(hash, |hash| / 4)
  {
    hide Weigh, Padded;
    var c := Overwritten(BufferAfter(c0, hash, |hash| / 4), hash[4 * (|hash| / 4)..]);
    WeighFour(c);
  }

  lemma {:induction false} SameChunks(hash: seq<byte>, more: seq<byte>, n: nat)
    requires 4 * n <= |hash|
    ensures ChunkSum(hash + more, n) == ChunkSum(hash, n)
  {
    hide Weigh, Padded;
    if n > 0 {
      SameChunks(hash, more, n - 1);
      assert (hash + more)[4 * n - 4..4 * n] == hash[4 * n - 4..4 * n];
    }
  }

  lemma PaddedWord(word: seq<byte>)
    requires |word| == 4
    ensures var z := if word[0] == 0 then 0 else if word[1] == 0 then 1 else if word[2] == 0 then 2 else
                     if word[3] == 0 then 3 else 4;
            forall k :: 0 <= k < 4 ==> Padded(word)[k] == if k < z then word[k] else 0
  {
  }

  lemma WeighFour(c: seq<byte>)
    requires |c| == 4
    ensures Weigh(c, 0) == 0 && Weigh(c, 1) == Weight(c[0], 1) && Weigh(c, 2) == Weight(c[0], 1) + Weight(c[1], 0x100)
    ensures Weigh(c, 3) == Weight(c[0], 1) + Weight(c[1], 0x100) + Weight(c[2], 0x1_0000)
    ensures Weigh(c, 4) == Weigh(c, 3) + Weight(c[3], 0x100_0000)
  {
    assert Pow(256, 0) == 1 && Pow(256, 1) == 0x100 && Pow(256, 2) == 0x1_0000 && Pow(256, 3) == 0x100_0000;
  }

  predicate Stable(hash: seq<byte>) {
    |hash| >= 4 || forall k :: 0 <= k < |hash| - 1 ==> hash[k] != 0
  }

  /** The bucket of a hash depends on nothing but the hash exactly when the hash has four bytes or
      no zero in front of its last byte. */
  lemma DeterministicIffStable(hash: seq<byte>)
    ensures Stable(hash) <==> forall c0 :: |c0| == 4 ==> Slot(c0, hash) == SlotOf(hash)
  {
    if Stable(hash) {
      forall c0 | |c0| == 4 ensures Slot(c0, hash) == SlotOf(hash) {
        StableSlot(c0, hash);
      }
    } else {
      StaleByteShows(hash);
    }
  }

  lemma StableSlot(c0: seq<byte>, hash: seq<byte>)
    requires |c0| == 4 && Stable(hash)
    ensures Slot(c0, hash) == SlotOf(hash)
  {
    var n := |hash| / 4;
    if n == 0 {
      assert hash[0..] == hash;
      WeighPrefix(Overwritten(c0, hash), Overwritten(BLANK, hash), |hash|);
    }
  }

  lemma {:induction false} WeighPrefix(c: seq<byte>, d: seq<byte>, n: nat)
    requires n <= |c| && n <= |d| && c[..n] == d[..n]
    ensures Weigh(c, n) == Weigh(d, n)
  {
    if n > 0 {
      assert c[..n - 1] == c[..n][..n - 1] == d[..n][..n - 1] == d[..n - 1];
      assert c[n - 1] == c[..n][n - 1] == d[..n][n - 1] == d[n - 1];
      WeighPrefix(c, d, n - 1);
    }
  }

  lemma ShortSum(c0: seq<byte>, hash: seq<byte>)
    requires |c0| == 4 && |hash| < 4
    ensures Slot(c0, hash) == Abs(Weigh(Overwritten(c0, hash), |hash|)) % DIM
  {
    hide Weigh, Overwritten;
    assert |hash| / 4 == 0 && hash[0..] == hash;
  }

  /** The byte behind the copied zero is read from the stack. */
  lemma StaleByteShows(hash: seq<byte>)
    requires !Stable(hash)
    ensures exists c0 :: |c0| == 4 && Slot(c0, hash) != SlotOf(hash)
  {
    hide Weigh, Slot, Signed;
    var u := UntilZero(hash);
    var n := |u|;
    var c0: seq<byte> := if n == 0 then [0, 1, 0, 0] else [0, 0, 1, 0];
    assert n + 1 < |hash| < 4;
    var c, d := Overwritten(c0, hash), Overwritten(BLANK, hash);
    assert if n == 0 then c == [0, 1, 0, 0] && d == [0, 0, 0, 0] else c == [u[0], 0, 1, 0] && d == [u[0], 0, 0, 0];
    ShortSum(c0, hash);
    ShortSum(BLANK, hash);
    WeighFour(c);
    WeighFour(d);
    SmallSigns(c[0]);
    assert Slot(c0, hash) != Slot(BLANK, hash);
  }

  lemma SmallSigns(b: byte)
    ensures -128 <= Signed(b) < 128 && Signed(0) == 0 && Signed(1) == 1
  {
  }

  /** `hash_f`. The buffer is not initialised. */
  method HashF(hash: seq<byte>) returns (slot: nat, ghost c0: seq<byte>)
    ensures |c0| == 4 && slot == Slot(c0, hash)
    ensures Stable(hash) ==> slot == SlotOf(hash)
  {
    hide Weigh, Stable, Padded, Overwritten, UntilZero;
    var intLength := |hash| / 4;
    var sum := 0;
    var c := new byte[4];
    c0 := c[..];
    var j := 0;
    while j < intLength
      invariant j <= intLength && sum == ChunkSum(hash, j) && c[..] == BufferAfter(c0, hash, j)
    {
      Strncpy(c, hash[j * 4..j * 4 + 4]);
      var s := WeighBuffer(c, 4);
      sum := sum + s;
      j := j + 1;
    }
    Strcpy(c, hash[intLength * 4..]);
    var s := WeighBuffer(c, |hash| - intLength * 4);
    sum := sum + s;
    if Stable(hash) {
      StableSlot(c0, hash);
    }
    slot := Abs(sum) % DIM;
  }

  lemma UntilZeroUnique(s: seq<byte>, n: nat)
    requires n <= |s| && forall k :: 0 <= k < n ==> s[k] != 0
    requires n < |s| ==> s[n] == 0
    ensures UntilZero(s) == s[..n]
  {
    hide UntilZero;
    var u := UntilZero(s);
    assert |u| == n;
  }

  method Strncpy(c: array<byte>, from: seq<byte>)
    requires c.Length == 4 && |from| == 4
    modifies c
    ensures c[..] == Padded(from)
  {
    hide UntilZero;
    var i := 0;
    while i < 4 && from[i] != 0
      invariant 0 <= i <= 4
      invariant forall k :: 0 <= k < i ==> c[k] == from[k] != 0
    {
      c[i] := from[i];
      i := i + 1;
    }
    UntilZeroUnique(from, i);
    ghost var n := i;
    while i < 4
      invariant n <= i <= 4
      invariant forall k :: 0 <= k < i ==> c[k] == if k < n then from[k] else 0
    {
      c[i] := 0;
      i := i + 1;
    }
  }

  method Strcpy(c: array<byte>, from: seq<byte>)
    requires c.Length == 4 && |from| < 4
    modifies c
    ensures c[..] == Overwritten(old(c[..]), from)
  {
    hide UntilZero;
    ghost var was := c[..];
    var i := 0;
    while i < |from| && from[i] != 0
      invariant 0 <= i <= |from|
      invariant forall k :: 0 <= k < i ==> c[k] == from[k] != 0
      invariant forall k :: i <= k < 4 ==> c[k] == was[k]
    {
      c[i] := from[i];
      i := i + 1;
    }
    UntilZeroUnique(from, i);
    assert c[..] == from[..i] + was[i..];
    c[i] := 0;
    assert c[..] == from[..i] + [0] + was[i + 1..];
  }

  method WeighBuffer(c: array<byte>, n: nat) returns (sum: int)
    requires n <= c.Length
    ensures sum == Weigh(c[..], n)
  {
    sum := 0;
    var mult, k := 1, 0;
    while k < n
      invariant k <= n && mult == Pow(256, k) && sum == Weigh(c[..], k)
    {
      sum := sum + Signed(c[k]) * mult;
      mult := mult * 256;
      k := k + 1;
    }
  }
}
