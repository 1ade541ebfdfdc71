/** The object file: `save` and `load` of BitMRC/BitMRC.cpp over the file reader and writer of
    BitMRC/utils.cpp. */
module Archive {
  import opened Positional
  import opened Words
  import opened Wire
  import opened ByteStrings
  import opened Objects
  import opened Inventory
  import opened Hashes
  import opened HashFunction
  import opened HashTables
  import opened TableLaws
  import opened ProofOfWork
  import opened Gossip

  // ----- what is written -----

  /** An entry of the table that `save` does not skip. */
  predicate IsSaved(e: Entry<seq<byte>>) {
    |e.hash| == 32 && e.info != []
  }

  ghost predicate Sized(log: Log) {
    forall k :: 0 <= k < |log| ==> |log[k].info| < TWO31
  }

  function Record(e: Entry<seq<byte>>): seq<byte>
    requires |e.info| < TWO31
  {
    e.hash + EncodeVarBytes(e.info)
  }

  function Saved(b: Log): (r: Log)
    ensures forall k :: 0 <= k < |r| ==> IsSaved(r[k]) && r[k] in b
  {
    if b == [] then []
    else Saved(b[..|b| - 1]) + if IsSaved(b[|b| - 1]) then [b[|b| - 1]] else []
  }

  /** The entries in the order of the file: chain after chain. */
  function InOrder(log: Log, n: nat): Log {
    if n == 0 then [] else InOrder(log, n - 1) + Saved(Bucket(log, n - 1))
  }

  function Records(es: Log): seq<byte>
    requires Sized(es)
  {
    if es == [] then [] else Records(es[..|es| - 1]) + Record(es[|es| - 1])
  }

  // ----- what is read -----

  /** Unlike the byte strings, a file has no varint at its end. */
  function GetFileVarInt(s: seq<byte>, i: nat): Read<nat> {
    if |s| <= i then OutOfBytes else GetVarInt(s, i)
  }

  function GetFileBytes(len: int, s: seq<byte>, i: nat): Read<seq<byte>> {
    if len < 0 || i + len > |s| then OutOfBytes else Got(s[i..i + len], i + len)
  }

  /** One turn of the loading loop, up to the decoding of the object. */
  function GetRecord(s: seq<byte>, i: nat): Read<(seq<byte>, seq<byte>)> {
    var (tag, i) :- GetFileBytes(32, s, i);
    var (len, i) :- GetFileVarInt(s, i);
    var (info, i) :- GetFileBytes(Int32(len), s, i);
    Got((tag, info), i)
  }

  /** Where the attempt to read the record at `i` leaves the file: a read that is cut short takes what is
      left, and a negative length is not even tried. */
  function RecordEnd(s: seq<byte>, i: nat): nat {
    if i + 32 > |s| then |s|
    else
      match GetFileVarInt(s, i + 32)
      case OutOfBytes => |s|
      case Got(len, j) => if Int32(len) < 0 then j else if j + Int32(len) > |s| then |s| else j + Int32(len)
  }

  lemma RecordAdvances(s: seq<byte>, i: nat)
    requires GetRecord(s, i).Got?
    ensures i < GetRecord(s, i).next <= |s|
  {
    hide GetVarInt;
    VarIntRange(s, i + 32);
  }

  /** The insertions `load` makes, and where it stops: at the first record that is cut short or is no
      object. */
  function LoadFrom(s: seq<byte>, i: nat, now: int): (Log, nat)
    decreases |s| - i
  {
    match GetRecord(s, i)
    case OutOfBytes => ([], i)
    case Got((tag, info), next) =>
      RecordAdvances(s, i);
      match DecodeData(info)
      case OutOfBytes => ([], i)
      case Got(o, _) =>
        var (more, stop) := LoadFrom(s, next, now);
        (if now < o.time then [Entry(tag, info, SlotOf(tag))] + more else more, stop)
  }

  // ----- reading back what was written -----

  lemma RecordReadsBack(e: Entry<seq<byte>>, s: seq<byte>, i: nat)
    requires |e.hash| == 32 && |e.info| < TWO31 && At(s, i, Record(e))
    ensures GetRecord(s, i) == Got((e.hash, e.info), i + |Record(e)|)
  {
    hide EncodeVarInt, GetVarInt, At;
    var prefix := EncodeVarInt(|e.info|);
    AtSplit(s, i, e.hash, prefix + e.info);
    AtSplit(s, i + 32, prefix, e.info);
    VarIntReadsBack(|e.info|, s, i + 32);
    StandsAt(s, i, e.hash);
    StandsAt(s, i + 32, prefix);
    StandsAt(s, i + 32 + |prefix|, e.info);
    Small(|e.info|);
  }

  /** What a record looks like: the hash, the length of the payload as a varint, and the payload. */
  lemma RecordLayout(e: Entry<seq<byte>>)
    requires |e.hash| == 32 && |e.info| < TWO31
    ensures var s := Record(e);
            && s[..32] == e.hash && GetVarInt(s, 32).Got? && GetVarInt(s, 32).value == |e.info|
            && 33 <= GetVarInt(s, 32).next <= |s| && s[GetVarInt(s, 32).next..] == e.info
  {
    hide EncodeVarInt, GetVarInt, At;
    var s, prefix := Record(e), EncodeVarInt(|e.info|);
    AtWhole(s);
    AtSplit(s, 0, e.hash, prefix + e.info);
    AtSplit(s, 32, prefix, e.info);
    VarIntReadsBack(|e.info|, s, 32);
    assert s[..32] == e.hash && s[32 + |prefix|..] == e.info;
  }

  lemma StandsAt(s: seq<byte>, i: nat, bytes: seq<byte>)
    requires At(s, i, bytes)
    ensures i + |bytes| <= |s| && s[i..i + |bytes|] == bytes
  {
  }

  /** An object that outlives `now`. */
  predicate Outlives(e: Entry<seq<byte>>, now: int) {
    DecodeData(e.info).Got? && now < DecodeData(e.info).value.time
  }

  function Kept(es: Log, now: int): (r: Log)
    ensures forall e :: e in r <==> e in es && Outlives(e, now)
  {
    if es == [] then []
    else (if Outlives(es[0], now) then [es[0]] else []) + Kept(es[1..], now)
  }

  /** The entries in front of the first one that is no object. */
  function Readable(es: Log): (r: Log)
    ensures r <= es
  {
    if es == [] || DecodeData(es[0].info).OutOfBytes? then [] else [es[0]] + Readable(es[1..])
  }

  lemma {:induction false} ReadableMeans(es: Log)
    ensures forall k :: 0 <= k < |Readable(es)| ==> DecodeData(es[k].info).Got?
    ensures |Readable(es)| < |es| ==> DecodeData(es[|Readable(es)|].info).OutOfBytes?
    ensures (forall k :: 0 <= k < |es| ==> DecodeData(es[k].info).Got?) ==> Readable(es) == es
  {
    hide DecodeData;
    if es != [] && DecodeData(es[0].info).Got? {
      ReadableMeans(es[1..]);
      var n := |Readable(es[1..])|;
      assert Readable(es) == [es[0]] + Readable(es[1..]);
      assert forall k :: 0 < k < |es| ==> es[k] == es[1..][k - 1];
    }
  }

  lemma {:induction false} RecordsFirst(es: Log)
    requires Sized(es) && es != []
    ensures Records(es) == Record(es[0]) + Records(es[1..])
  {
    hide Record;
    var n := |es| - 1;
    if n > 0 {
      RecordsFirst(es[..n]);
      assert es[..n][1..] == es[1..][..n - 1];
    }
  }

  /** Every entry sits in the chain of its 32-byte hash. */
  ghost predicate Filed(es: Log) {
    forall k :: 0 <= k < |es| ==> |es[k].hash| == 32 && es[k].slot == SlotOf(es[k].hash)
  }

  lemma RecordsStep(e: Entry<seq<byte>>, more: seq<byte>, s: seq<byte>, i: nat)
    requires |e.hash| == 32 && |e.info| < TWO31
    requires At(s, i, Record(e) + more) && |s| == i + |Record(e) + more|
    ensures var next := i + |Record(e)|;
            && GetRecord(s, i) == Got((e.hash, e.info), next)
            && At(s, next, more) && |s| == next + |more|
  {
    hide Record, At, GetRecord;
    AtSplit(s, i, Record(e), more);
    RecordReadsBack(e, s, i);
  }

  lemma LoadStops(s: seq<byte>, i: nat, now: int)
    requires match GetRecord(s, i) case OutOfBytes => true case Got((_, info), _) => DecodeData(info).OutOfBytes?
    ensures LoadFrom(s, i, now) == ([], i)
  {
  }

  lemma NoRecord(s: seq<byte>, i: nat)
    ensures i == |s| ==> GetRecord(s, i) == OutOfBytes
    ensures |Records([])| == 0
  {
  }

  lemma LoadGoesOn(s: seq<byte>, i: nat, now: int, e: Entry<seq<byte>>, next: nat)
    requires GetRecord(s, i) == Got((e.hash, e.info), next) && e.slot == SlotOf(e.hash) && DecodeData(e.info).Got?
    ensures LoadFrom(s, i, now).0 == (if Outlives(e, now) then [e] else []) + LoadFrom(s, next, now).0
    ensures LoadFrom(s, i, now).1 == LoadFrom(s, next, now).1
  {
    hide GetRecord, DecodeData, SlotOf;
  }

  lemma FirstReadable(es: Log, now: int)
    requires es != []
    ensures DecodeData(es[0].info).OutOfBytes? ==> Readable(es) == []
    ensures DecodeData(es[0].info).Got? ==>
              Kept(Readable(es), now) == (if Outlives(es[0], now) then [es[0]] else []) + Kept(Readable(es[1..]), now)
  {
    hide DecodeData, Kept, Outlives;
    if DecodeData(es[0].info).Got? {
      assert Readable(es) == [es[0]] + Readable(es[1..]);
      KeptFirst(es[0], Readable(es[1..]), now);
    }
  }

  lemma KeptFirst(e: Entry<seq<byte>>, more: Log, now: int)
    ensures Kept([e] + more, now) == (if Outlives(e, now) then [e] else []) + Kept(more, now)
  {
    hide Outlives;
    assert ([e] + more)[0] == e && ([e] + more)[1..] == more;
  }

  lemma ReadableRecords(es: Log)
    requires Sized(es) && es != [] && DecodeData(es[0].info).Got?
    ensures |Records(Readable(es))| == |Record(es[0])| + |Records(Readable(es[1..]))|
  {
    hide Record, Records, DecodeData;
    assert Readable(es)[1..] == Readable(es[1..]);
    RecordsFirst(Readable(es));
  }

  /** Reading the file back inserts, in the order of the file, the entries that are still of use; at a
      record that is no object it stops, and everything behind that is lost. */
  lemma {:induction false} LoadRecords(es: Log, s: seq<byte>, i: nat, now: int)
    requires Sized(es) && Filed(es) && At(s, i, Records(es)) && |s| == i + |Records(es)|
    ensures LoadFrom(s, i, now).0 == Kept(Readable(es), now)
    ensures LoadFrom(s, i, now).1 == i + |Records(Readable(es))|
    decreases |es|
  {
    hide Record, Records, At, GetRecord, DecodeData, LoadFrom, Kept, Readable, SlotOf, Outlives;
    NoRecord(s, i);
    KeptNothing(now);
    if es == [] {
      LoadStops(s, i, now);
    } else {
      RecordsFirst(es);
      RecordsStep(es[0], Records(es[1..]), s, i);
      FirstReadable(es, now);
      if DecodeData(es[0].info).Got? {
        LoadGoesOn(s, i, now, es[0], i + |Record(es[0])|);
        LoadRecords(es[1..], s, i + |Record(es[0])|, now);
        ReadableRecords(es);
      } else {
        LoadStops(s, i, now);
      }
    }
  }

  // ----- a file that is cut short -----

  /** What can be read of the front of a file reads the same in the whole. */
  lemma RecordOfFront(s: seq<byte>, whole: seq<byte>, i: nat)
    requires s <= whole && GetRecord(s, i).Got?
    ensures GetRecord(whole, i) == GetRecord(s, i)
  {
    hide GetVarInt, Value;
    VarIntOfFront(s, whole, i + 32);
    assert s[i..i + 32] == whole[i..i + 32];
    var next := GetFileVarInt(s, i + 32).next;
    var len := Int32(GetFileVarInt(s, i + 32).value);
    assert s[next..next + len] == whole[next..next + len];
  }

  lemma VarIntOfFront(s: seq<byte>, whole: seq<byte>, i: nat)
    requires s <= whole && i < |s| && GetVarInt(s, i).Got?
    ensures GetVarInt(whole, i) == GetVarInt(s, i)
  {
    hide Value;
    VarIntMeans(s, i);
    if s[i] >= 253 {
      assert s[i + 1..GetVarInt(s, i).next] == whole[i + 1..GetVarInt(s, i).next];
    }
  }

  /** So a part of a record is no record. */
  lemma CutRecord(e: Entry<seq<byte>>, s: seq<byte>, i: nat, n: nat)
    requires |e.hash| == 32 && |e.info| < TWO31 && n < |Record(e)|
    requires |s| == i + n && s[i..] == Record(e)[..n]
    ensures GetRecord(s, i).OutOfBytes?
  {
    hide GetRecord, Record, At;
    var r := Record(e);
    var whole := s[..i] + r;
    assert s == whole[..i + n];
    AtWhole(whole);
    AtSplit(whole, 0, s[..i], r);
    RecordReadsBack(e, whole, i);
    if GetRecord(s, i).Got? {
      RecordOfFront(s, whole, i);
      RecordAdvances(s, i);
    }
  }

  /** A file that ends anywhere, because writing it was interrupted, gives the entries whose records are
      whole and that would be loaded from the whole file. */
  lemma {:induction false} LoadCutShort(es: Log, s: seq<byte>, i: nat, n: nat, now: int) returns (m: nat)
    requires Sized(es) && Filed(es) && n <= |Records(es)| && |s| == i + n && s[i..] == Records(es)[..n]
    ensures m <= |es| && |Records(es[..m])| <= n && (m < |es| ==> n < |Records(es[..m + 1])|)
    ensures LoadFrom(s, i, now).0 == Kept(Readable(es[..m]), now)
    decreases |es|
  {
    hide Record, Records, At, GetRecord, DecodeData, LoadFrom, Kept, Readable, SlotOf, Outlives;
    NoRecord(s, i);
    KeptNothing(now);
    if es == [] {
      m := 0;
      LoadStops(s, i, now);
      assert es[..0] == [];
      return;
    }
    RecordsFirst(es);
    var r := |Record(es[0])|;
    if n < r {
      m := 0;
      assert s[i..] == Record(es[0])[..n];
      CutRecord(es[0], s, i, n);
      LoadStops(s, i, now);
      OneRecord(es);
    } else {
      assert s[i..] == Record(es[0]) + Records(es[1..])[..n - r];
      FirstRecord(es[0], Records(es[1..])[..n - r], s, i);
      var rest := LoadCutShort(es[1..], s, i + r, n - r, now);
      m := rest + 1;
      FrontOf(es, m);
      ReadMore(es[..m], s, i, now);
      if m < |es| {
        FrontOf(es, m + 1);
      }
    }
  }

  lemma OneRecord(es: Log)
    requires Sized(es) && es != []
    ensures es[..0] == [] && Records([]) == [] && Readable([]) == [] && Records(es[..1]) == Record(es[0])
  {
    hide Record;
    assert es[..1] == [es[0]] && [es[0]][..0] == [];
  }

  lemma FirstRecord(e: Entry<seq<byte>>, more: seq<byte>, s: seq<byte>, i: nat)
    requires |e.hash| == 32 && |e.info| < TWO31 && i <= |s| && s[i..] == Record(e) + more
    ensures var next := i + |Record(e)|;
            GetRecord(s, i) == Got((e.hash, e.info), next) && next <= |s| && s[next..] == more
  {
    hide Record, At, GetRecord;
    AtWhole(s);
    assert s == s[..i] + (Record(e) + more);
    AtSplit(s, 0, s[..i], Record(e) + more);
    AtSplit(s, i, Record(e), more);
    RecordReadsBack(e, s, i);
  }

  lemma FrontOf(es: Log, m: nat)
    requires Sized(es) && 0 < m <= |es|
    ensures es[..m][0] == es[0] && es[..m][1..] == es[1..][..m - 1] && Sized(es[..m]) && Sized(es[1..][..m - 1])
    ensures |Records(es[..m])| == |Record(es[0])| + |Records(es[1..][..m - 1])|
  {
    hide Record, Records;
    RecordsFirst(es[..m]);
  }

  lemma ReadMore(es: Log, s: seq<byte>, i: nat, now: int)
    requires Filed(es) && es != [] && |es[0].info| < TWO31
    requires GetRecord(s, i) == Got((es[0].hash, es[0].info), i + |Record(es[0])|)
    requires LoadFrom(s, i + |Record(es[0])|, now).0 == Kept(Readable(es[1..]), now)
    ensures LoadFrom(s, i, now).0 == Kept(Readable(es), now)
  {
    hide Record, Records, GetRecord, DecodeData, LoadFrom, Kept, Readable, SlotOf, Outlives;
    FirstReadable(es, now);
    KeptNothing(now);
    if DecodeData(es[0].info).Got? {
      LoadGoesOn(s, i, now, es[0], i + |Record(es[0])|);
    } else {
      LoadStops(s, i, now);
    }
  }

  // ----- the whole table -----

  lemma {:induction false} BucketConcat(a: Log, b: Log, slot: nat)
    ensures Bucket(a + b, slot) == Bucket(a, slot) + Bucket(b, slot)
  {
    hide Bucket;
    EmptyBucket<seq<byte>>(slot);
    if b == [] {
      assert a + b == a;
    } else {
      var init, e := b[..|b| - 1], b[|b| - 1];
      assert b == init + [e] && a + b == (a + init) + [e];
      BucketConcat(a, init, slot);
      BucketOfLonger(init, e, slot);
      BucketOfLonger(a + init, e, slot);
    }
  }

  lemma {:induction false} BucketOfChain(b: Log, i: nat, slot: nat)
    requires forall k :: 0 <= k < |b| ==> b[k].slot == i
    ensures Bucket(b, slot) == if i == slot then b else []
  {
    hide Bucket;
    if b == [] {
      EmptyBucket<seq<byte>>(slot);
    } else {
      var init, e := b[..|b| - 1], b[|b| - 1];
      assert b == init + [e];
      BucketOfChain(init, i, slot);
      BucketOfLonger(init, e, slot);
    }
  }

  lemma BucketSlots(log: Log, slot: nat)
    ensures forall k :: 0 <= k < |Bucket(log, slot)| ==>
              Bucket(log, slot)[k].slot == slot && Bucket(log, slot)[k] in log
  {
    forall k | 0 <= k < |Bucket(log, slot)| ensures Bucket(log, slot)[k].slot == slot && Bucket(log, slot)[k] in log {
      assert Bucket(log, slot)[k] in Bucket(log, slot);
    }
  }

  lemma {:induction false} SavedAll(b: Log)
    requires forall k :: 0 <= k < |b| ==> IsSaved(b[k])
    ensures Saved(b) == b
  {
    hide IsSaved;
    if b != [] {
      var init, e := b[..|b| - 1], b[|b| - 1];
      SavedAll(init);
      assert Saved(b) == Saved(init) + [e];
      assert b == init + [e];
    }
  }

  ghost predicate AllSaved(log: Log) {
    forall e :: e in log ==> IsSaved(e)
  }

  /** The chains of the file are the chains of the table. */
  lemma {:induction false} ChainsInOrder(log: Log, n: nat, slot: nat)
    requires AllSaved(log)
    ensures Bucket(InOrder(log, n), slot) == if slot < n then Bucket(log, slot) else []
  {
    hide Bucket, AllSaved, InOrder;
    if n == 0 {
      NoChains(log);
      EmptyBucket<seq<byte>>(slot);
    } else {
      var a, b := InOrder(log, n - 1), Bucket(log, n - 1);
      ChainsInOrder(log, n - 1, slot);
      AllOfChain(log, n - 1);
      BucketConcat(a, b, slot);
      BucketSlots(log, n - 1);
      BucketOfChain(b, n - 1, slot);
      assert Bucket(a, slot) + [] == Bucket(a, slot) && [] + b == b;
    }
  }

  lemma NoChains(log: Log)
    ensures InOrder(log, 0) == []
  {
  }

  lemma AllOfChain(log: Log, i: nat)
    requires AllSaved(log)
    ensures InOrder(log, i + 1) == InOrder(log, i) + Bucket(log, i)
  {
    hide Bucket, Saved, IsSaved;
    BucketSlots(log, i);
    SavedAll(Bucket(log, i));
  }

  /** What gets into the file, and in which order: every entry of a chain of the table, with a hash of 32
      bytes and a payload, chain after chain. */
  lemma {:induction false} InOrderMeans(log: Log, n: nat, e: Entry<seq<byte>>)
    ensures e in InOrder(log, n) <==> e in log && e.slot < n && |e.hash| == 32 && e.info != []
    ensures ChainAfterChain(InOrder(log, n))
  {
    hide Bucket, Saved;
    if n > 0 {
      var before, b := InOrder(log, n - 1), Saved(Bucket(log, n - 1));
      InOrderMeans(log, n - 1, e);
      SavedIff(Bucket(log, n - 1), e);
      forall k | 0 <= k < |before| ensures before[k].slot < n - 1 {
        InOrderMeans(log, n - 1, before[k]);
      }
      forall k | 0 <= k < |b| ensures b[k].slot == n - 1 {
        SavedIff(Bucket(log, n - 1), b[k]);
      }
      Chained(before, b, n - 1);
    }
  }

  ghost predicate ChainAfterChain(es: Log) {
    forall i, j :: 0 <= i < j < |es| ==> es[i].slot <= es[j].slot
  }

  lemma Chained(a: Log, b: Log, slot: nat)
    requires ChainAfterChain(a)
    requires (forall k :: 0 <= k < |a| ==> a[k].slot < slot) && forall k :: 0 <= k < |b| ==> b[k].slot == slot
    ensures ChainAfterChain(a + b)
  {
  }

  lemma {:induction false} SavedIff(b: Log, e: Entry<seq<byte>>)
    ensures e in Saved(b) <==> e in b && |e.hash| == 32 && e.info != []
  {
    if b != [] {
      var init, last := b[..|b| - 1], b[|b| - 1];
      assert b == init + [last];
      SavedIff(init, e);
    }
  }

  lemma {:induction false} KeptAppend(es: Log, e: Entry<seq<byte>>, now: int)
    ensures Kept(es + [e], now) == Kept(es, now) + if Outlives(e, now) then [e] else []
  {
    hide Outlives;
    if es != [] {
      assert (es + [e])[1..] == es[1..] + [e];
      KeptAppend(es[1..], e, now);
    }
  }

  lemma {:induction false} BucketOfKept(es: Log, now: int, slot: nat)
    ensures Bucket(Kept(es, now), slot) == Kept(Bucket(es, slot), now)
  {
    hide Outlives, Kept, Bucket;
    if es == [] {
      EmptyBucket<seq<byte>>(slot);
      KeptNothing(now);
    } else {
      var init, e := es[..|es| - 1], es[|es| - 1];
      assert es == init + [e];
      BucketOfKept(init, now, slot);
      BucketOfLonger(init, e, slot);
      KeptAppend(init, e, now);
      KeptAppend(Bucket(init, slot), e, now);
      BucketOfLonger(Kept(init, now), e, slot);
      assert Kept(init, now) + [] == Kept(init, now);
      assert Bucket(init, slot) + [] == Bucket(init, slot);
    }
  }

  lemma KeptNothing(now: int)
    ensures Kept([], now) == []
  {
  }

  // ----- nothing is a duplicate -----

  ghost predicate DistinctInfos(b: Log) {
    forall i, j :: 0 <= i < j < |b| ==> b[i].info != b[j].info
  }

  lemma {:induction false} ChainIsDistinct(log: Log, slot: nat)
    requires NoEqualInfos(log)
    ensures DistinctInfos(Bucket(log, slot))
  {
    if log != [] {
      var init, e := log[..|log| - 1], log[|log| - 1];
      ChainIsDistinct(init, slot);
      BucketSlots(init, slot);
      forall k | 0 <= k < |Bucket(init, slot)| && e.slot == slot ensures Bucket(init, slot)[k].info != e.info {
        var j :| 0 <= j < |init| && init[j] == Bucket(init, slot)[k];
        assert log[j] == init[j];
      }
    }
  }

  lemma {:induction false} KeptIsDistinct(b: Log, now: int)
    requires DistinctInfos(b)
    ensures DistinctInfos(Kept(b, now))
  {
    hide Outlives;
    if b != [] {
      KeptIsDistinct(b[1..], now);
      forall k | 0 <= k < |Kept(b[1..], now)| ensures Kept(b[1..], now)[k].info != b[0].info {
        assert Kept(b[1..], now)[k] in b[1..];
      }
    }
  }

  lemma LastIsNew(b: Log, e: Entry<seq<byte>>)
    requires DistinctInfos(b + [e])
    ensures DistinctInfos(b) && !HasInfo(b, e.info)
  {
    var c := b + [e];
    assert forall k :: 0 <= k < |b| ==> b[k] == c[k] && c[k].info != c[|b|].info;
  }

  ghost predicate ChainsDistinct(log: Log) {
    forall slot :: DistinctInfos(Bucket(log, slot))
  }

  lemma ChainsOfPrefix(log: Log, e: Entry<seq<byte>>)
    requires ChainsDistinct(log + [e])
    ensures ChainsDistinct(log) && !HasInfo(Bucket(log, e.slot), e.info)
  {
    hide Bucket, DistinctInfos, HasInfo;
    forall slot: nat ensures DistinctInfos(Bucket(log, slot)) {
      BucketOfLonger(log, e, slot);
      assert DistinctInfos(Bucket(log + [e], slot));
      if e.slot == slot {
        LastIsNew(Bucket(log, slot), e);
      } else {
        assert Bucket(log, slot) + [] == Bucket(log, slot);
      }
    }
    BucketOfLonger(log, e, e.slot);
    assert DistinctInfos(Bucket(log + [e], e.slot));
    LastIsNew(Bucket(log, e.slot), e);
  }

  /** Inserting entries whose chains hold no info twice stores them all. */
  lemma {:induction false} StoredDistinct(history: Log)
    requires ChainsDistinct(history)
    ensures Stored(history) == history
  {
    hide Bucket, ChainsDistinct, HasInfo;
    if history != [] {
      var init, e := history[..|history| - 1], history[|history| - 1];
      assert history == init + [e];
      ChainsOfPrefix(init, e);
      StoredDistinct(init);
    }
  }

  // ----- saving and loading -----

  /** A table of decodable objects as the gossip leaves it. */
  ghost predicate Savable(log: Log) {
    && NoEqualInfos(log)
    && forall e :: e in log ==> GoodEntry(e)
  }

  ghost predicate GoodEntry(e: Entry<seq<byte>>) {
    |e.hash| == 32 && e.slot == SlotOf(e.hash) && 0 < |e.info| < TWO31 && DecodeData(e.info).Got?
  }

  lemma FileShape(log: Log)
    requires Savable(log)
    ensures Sized(InOrder(log, DIM)) && Filed(InOrder(log, DIM)) && AllSaved(log)
    ensures Readable(InOrder(log, DIM)) == InOrder(log, DIM)
  {
    hide InOrder, SlotOf, DecodeData, NoEqualInfos, Readable;
    var es := InOrder(log, DIM);
    ReadableMeans(es);
    forall k | 0 <= k < |es| ensures GoodEntry(es[k]) {
      InOrderMeans(log, DIM, es[k]);
    }
  }

  function FileBytes(log: Log): seq<byte>
    requires Sized(InOrder(log, DIM))
  {
    Records(InOrder(log, DIM))
  }

  /** Loading a saved table into an empty one reads the file to its end and gives every chain exactly
      the entries that outlive the time of loading, in their order. */
  lemma LoadRestoresSave(log: Log, now: int, slot: nat)
    requires Savable(log)
    ensures Sized(InOrder(log, DIM))
    ensures var (inserted, stop) := LoadFrom(FileBytes(log), 0, now);
            && stop == |FileBytes(log)|
            && Bucket(Stored(inserted), slot) == Kept(Bucket(log, slot), now)
  {
    hide InOrder, LoadFrom, Records, Kept, Bucket, Stored, NoEqualInfos, Readable, GoodEntry;
    var es := InOrder(log, DIM);
    FileShape(log);
    AtWhole(FileBytes(log));
    LoadRecords(es, FileBytes(log), 0, now);
    forall i: nat
      ensures Bucket(Kept(es, now), i) == Kept(Bucket(log, i), now) && DistinctInfos(Kept(Bucket(log, i), now))
    {
      OneChain(log, now, i);
    }
    StoredDistinct(Kept(es, now));
  }

  lemma OneChain(log: Log, now: int, i: nat)
    requires Savable(log) && AllSaved(log)
    ensures Bucket(Kept(InOrder(log, DIM), now), i) == Kept(Bucket(log, i), now)
    ensures DistinctInfos(Kept(Bucket(log, i), now))
  {
    hide InOrder, Kept, NoEqualInfos, GoodEntry;
    BucketOfKept(InOrder(log, DIM), now, i);
    ChainsInOrder(log, DIM, i);
    ChainIsDistinct(log, i);
    KeptIsDistinct(Bucket(log, i), now);
    SlotInTable(log, i);
    KeptNothing(now);
  }

  lemma SlotInTable(log: Log, i: nat)
    requires Savable(log)
    ensures Bucket(log, i) != [] ==> i < DIM
  {
    hide Bucket, SlotOf;
    BucketSlots(log, i);
    if Bucket(log, i) != [] {
      assert GoodEntry(Bucket(log, i)[0]);
    }
  }

  // ----- the tables nodes have -----

  /** Every table the gossip can produce is savable. */
  lemma ReachableIsSavable(sha512: Hash512, run: seq<Step>, node: nat)
    ensures Savable(After(sha512, run, node).log)
  {
    hide After, WasAdmitted, NoEqualInfos, TagOf, SlotOf, GoodEntry;
    var log := After(sha512, run, node).log;
    StoredIffAdmitted(sha512, run, node, []);
    forall e | e in log ensures GoodEntry(e) {
      StoredIffAdmitted(sha512, run, node, e.info);
      AdmittedIsGood(sha512, run, node, e.info);
    }
  }

  lemma AdmittedIsGood(sha512: Hash512, run: seq<Step>, node: nat, payload: seq<byte>)
    requires WasAdmitted(sha512, run, node, payload)
    ensures GoodEntry(EntryOf(sha512, payload))
  {
    hide CheckPow, DecodeData, SlotOf;
  }

  /** After a restart a node that was up when it saved holds the tags of exactly those payloads it had
      accepted that are still of use when it starts. */
  lemma SurvivesRestart(sha512: Hash512, run: seq<Step>, node: nat, now: int, tag: Tag)
    ensures Sized(InOrder(After(sha512, run, node).log, DIM))
    ensures Holds(Stored(LoadFrom(FileBytes(After(sha512, run, node).log), 0, now).0), tag)
       <==> && After(sha512, run, node).up
            && exists p :: && sha512(sha512(p))[..32] == tag && WasAdmitted(sha512, run, node, p)
                           && DecodeData(p).Got? && now < DecodeData(p).value.time
  {
    hide After, WasAdmitted, TagOf, EntryOf, Outlives, Holds, Stored, LoadFrom, FileBytes, InOrder, DecodeData;
    LoadedHolds(sha512, run, node, now, tag);
    OfUse(sha512, run, node, now, tag);
  }

  lemma OfUse(sha512: Hash512, run: seq<Step>, node: nat, now: int, tag: Tag)
    ensures (exists p :: && TagOf(sha512, p) == tag && WasAdmitted(sha512, run, node, p)
                         && Outlives(EntryOf(sha512, p), now))
       <==> exists p :: && sha512(sha512(p))[..32] == tag && WasAdmitted(sha512, run, node, p)
                        && DecodeData(p).Got? && now < DecodeData(p).value.time
  {
    hide WasAdmitted, SlotOf, DecodeData;
  }

  lemma LoadedHolds(sha512: Hash512, run: seq<Step>, node: nat, now: int, tag: Tag)
    ensures Sized(InOrder(After(sha512, run, node).log, DIM))
    ensures Holds(Stored(LoadFrom(FileBytes(After(sha512, run, node).log), 0, now).0), tag)
       <==> && After(sha512, run, node).up
            && exists p :: && TagOf(sha512, p) == tag && WasAdmitted(sha512, run, node, p)
                           && Outlives(EntryOf(sha512, p), now)
  {
    hide After, WasAdmitted, TagOf, SlotOf, Outlives, Bucket, Stored, LoadFrom, FileBytes, InOrder, Savable;
    hide NoEqualInfos;
    var log := After(sha512, run, node).log;
    ReachableIsSavable(sha512, run, node);
    var b := Bucket(log, SlotOf(tag));
    LoadRestoresSave(log, now, SlotOf(tag));
    StoredIffAdmitted(sha512, run, node, []);
    BucketSlots(log, SlotOf(tag));
    if HasHash(Kept(b, now), tag) {
      var k :| 0 <= k < |Kept(b, now)| && Kept(b, now)[k].hash == tag;
      var e := Kept(b, now)[k];
      assert e in b && e in log;
      StoredIffAdmitted(sha512, run, node, e.info);
    }
    if
      p :| && After(sha512, run, node).up && TagOf(sha512, p) == tag && WasAdmitted(sha512, run, node, p)
           && Outlives(EntryOf(sha512, p), now)
    {
      StoredIffAdmitted(sha512, run, node, p);
      var e :| e in log && e.info == p;
      assert e == EntryOf(sha512, p) && e in b;
      assert e in Kept(b, now);
    }
  }

  // ----- the code -----

  class DataFile {
    var bytes: seq<byte>
    var pos: nat

    constructor (s: seq<byte>)
      ensures bytes == s && pos == 0
    {
      bytes, pos := s, 0;
    }

    method WriteUstring(s: seq<byte>)
      modifies this`bytes
      ensures bytes == old(bytes) + s
    {
      bytes := bytes + s;
    }

    method WriteVarUstring(s: seq<byte>)
      requires |s| < TWO31
      modifies this`bytes
      ensures bytes == old(bytes) + EncodeVarBytes(s)
    {
      var w := new ByteString();
      w.AppendVarInt(|s|);
      bytes := bytes + w.bytes;
      bytes := bytes + s;
    }

    /** A negative length cannot be allocated, and a short read throws. */
    method GetUstring(len: int) returns (r: Read<seq<byte>>)
      requires pos <= |bytes|
      modifies this`pos
      ensures r == GetFileBytes(len, bytes, old(pos))
      ensures pos == if r.Got? then r.next else if len < 0 then old(pos) else |bytes|
    {
      if len < 0 {
        return OutOfBytes;
      }
      if pos + len > |bytes| {
        pos := |bytes|;
        return OutOfBytes;
      }
      r := Got(bytes[pos..pos + len], pos + len);
      pos := pos + len;
    }

    method GetVarInt() returns (r: Read<nat>)
      requires pos <= |bytes|
      modifies this`pos
      ensures r == GetFileVarInt(bytes, old(pos))
      ensures pos == if r.Got? then r.next else |bytes|
      ensures pos <= |bytes|
    {
      if |bytes| <= pos {
        return OutOfBytes;
      }
      var w := new ByteString.Of(bytes);
      r := w.GetVarInt(pos);
      if r.Got? {
        VarIntRewrites(bytes, pos);
      }
      pos := if r.Got? then r.next else |bytes|;
    }
  }

  lemma {:induction false} RecordsConcat(a: Log, b: Log)
    requires Sized(a) && Sized(b)
    ensures Sized(a + b) && Records(a + b) == Records(a) + Records(b)
  {
    hide Record, Records;
    if b == [] {
      NoRecord([], 0);
      assert a + b == a;
    } else {
      var init, e := b[..|b| - 1], b[|b| - 1];
      assert b == init + [e] && a + b == (a + init) + [e];
      RecordsConcat(a, init);
      RecordsLonger(init, e);
      RecordsLonger(a + init, e);
    }
  }

  lemma SizedChain(log: Log, i: nat)
    requires Sized(log)
    ensures Sized(Bucket(log, i)) && Sized(Saved(Bucket(log, i)))
  {
    hide Bucket, IsSaved;
    BucketSlots(log, i);
    var b, r := Bucket(log, i), Saved(Bucket(log, i));
    forall k | 0 <= k < |r| ensures |r[k].info| < TWO31 {
      assert r[k] in b;
    }
  }

  lemma NextChain(log: Log, n: nat)
    requires Sized(log) && Sized(InOrder(log, n)) && Sized(Saved(Bucket(log, n)))
    ensures Sized(InOrder(log, n + 1))
    ensures Records(InOrder(log, n + 1)) == Records(InOrder(log, n)) + Records(Saved(Bucket(log, n)))
  {
    hide Bucket, Saved, Records;
    assert InOrder(log, n + 1) == InOrder(log, n) + Saved(Bucket(log, n));
    RecordsConcat(InOrder(log, n), Saved(Bucket(log, n)));
  }

  lemma RecordsLonger(r: Log, e: Entry<seq<byte>>)
    requires Sized(r) && |e.info| < TWO31
    ensures Sized(r + [e]) && Records(r + [e]) == Records(r) + Record(e)
  {
    hide Record;
    assert (r + [e])[..|r|] == r;
  }

  lemma NextEntry(b: Log, k: nat)
    requires k < |b| && Sized(b) && Sized(Saved(b[..k]))
    ensures Sized(Saved(b[..k + 1]))
    ensures Records(Saved(b[..k + 1])) == Records(Saved(b[..k])) + if IsSaved(b[k]) then Record(b[k]) else []
  {
    hide Record, Records, IsSaved;
    assert b[..k + 1][..k] == b[..k];
    var r := Saved(b[..k]);
    if IsSaved(b[k]) {
      assert Saved(b[..k + 1]) == r + [b[k]];
      RecordsLonger(r, b[k]);
    } else {
      assert Saved(b[..k + 1]) == r + [] == r;
    }
  }

  lemma ChainOf(table: HashTable<seq<byte>>, i: nat)
    requires table.Valid() && i < DIM
    ensures table.Table.Length == |table.Chains| == DIM
    ensures var chain, b := table.Chains[i], Bucket(table.Log, i);
            && |chain| == |b| && table.Table[i] == NodeAt(chain, 0)
            && forall k :: 0 <= k < |chain| ==> chain[k].hash == b[k].hash && chain[k].info == b[k].info
  {
    hide Bucket;
    assert Stores(table.Chains[i], i, Bucket(table.Log, i));
  }

  lemma NextNode(table: HashTable<seq<byte>>, i: nat, k: nat)
    requires table.Valid() && i < |table.Chains| && k < |table.Chains[i]|
    ensures table.Chains[i][k].next == NodeAt(table.Chains[i], k + 1)
  {
    hide AllStored, Heads;
  }

  /** The nodes of one chain, from its head on. */
  method SaveChain(table: HashTable<seq<byte>>, file: DataFile, i: nat)
    requires table.Valid() && file !in table.Repr && i < DIM && Sized(table.Log)
    modifies file`bytes
    ensures Sized(Saved(Bucket(table.Log, i)))
    ensures file.bytes == old(file.bytes) + Records(Saved(Bucket(table.Log, i)))
  {
    hide Bucket, Records, EncodeVarBytes, Saved, AllStored, Owned, Heads, Linked;
    ChainOf(table, i);
    ghost var chain, b := table.Chains[i], Bucket(table.Log, i);
    SizedChain(table.Log, i);
    var cur := table.Table[i];
    ghost var k: nat := 0;
    ghost var was := file.bytes;
    assert b[..0] == [];
    NoRecords();
    while cur != null
      invariant k <= |chain| && cur == NodeAt(chain, k) && table.Valid()
      invariant Sized(Saved(b[..k])) && file.bytes == was + Records(Saved(b[..k]))
      decreases |chain| - k
    {
      NextNode(table, i, k);
      assert cur.hash == b[k].hash && cur.info == b[k].info;
      NextEntry(b, k);
      if |cur.hash| == 32 && cur.info != [] {
        file.WriteUstring(cur.hash);
        file.WriteVarUstring(cur.info);
      }
      cur, k := cur.next, k + 1;
    }
    assert b[..k] == b;
  }

  lemma NoRecords()
    ensures Saved([]) == [] && Sized([]) && Records([]) == []
  {
  }

  /** `save`: bucket after bucket. */
  method Save(table: HashTable<seq<byte>>, file: DataFile)
    requires table.Valid() && file !in table.Repr && Sized(table.Log)
    modifies file`bytes
    ensures Sized(InOrder(table.Log, DIM)) && file.bytes == old(file.bytes) + FileBytes(table.Log)
  {
    hide Bucket, Saved, Records, AllStored, Owned, Heads, Linked;
    var i := 0;
    ghost var log, was := table.Log, file.bytes;
    NoRecords();
    while i < DIM
      invariant i <= DIM && table.Valid()
      invariant Sized(InOrder(log, i)) && file.bytes == was + Records(InOrder(log, i))
    {
      SaveChain(table, file, i);
      NextChain(log, i);
      i := i + 1;
    }
  }

  /** Insertions on top of what a table holds. */
  ghost function AddedAll(log: Log, history: Log): Log {
    if history == [] then log else Added(AddedAll(log, history[..|history| - 1]), history[|history| - 1])
  }

  lemma {:induction false} AddedToEmpty(history: Log)
    ensures AddedAll([], history) == Stored(history)
  {
    hide Added;
    if history != [] {
      AddedToEmpty(history[..|history| - 1]);
    }
  }

  lemma AddedNext(log: Log, history: Log, e: Entry<seq<byte>>)
    ensures AddedAll(log, history + [e]) == Added(AddedAll(log, history), e)
  {
    assert (history + [e])[..|history|] == history;
  }

  /** One turn of the loading loop: it is the last one if no object can be read. */
  method LoadOne(file: DataFile, table: HashTable<seq<byte>>, now: int) returns (more: bool, ghost added: Log)
    requires table.Valid() && file !in table.Repr && file.pos <= |file.bytes|
    modifies file`pos, table.Repr
    ensures table.Valid() && fresh(table.Repr - old(table.Repr))
    ensures file.pos == RecordEnd(file.bytes, old(file.pos)) <= |file.bytes|
    ensures |added| <= 1 && table.Log == if added == [] then old(table.Log) else Added(old(table.Log), added[0])
    ensures var (rest, stop) := LoadFrom(file.bytes, old(file.pos), now);
            if more then
              && file.pos > old(file.pos)
              && rest == added + LoadFrom(file.bytes, file.pos, now).0 && stop == LoadFrom(file.bytes, file.pos, now).1
            else
              added == rest == [] && stop == old(file.pos)
  {
    hide Added, LoadFrom, GetRecord, RecordEnd, DecodeData, Outlives, SlotOf, Stable, Slot;
    hide AllStored, Owned, Heads, Linked;
    ghost var s, i := file.bytes, file.pos;
    var record := ReadRecord(file);
    if record.OutOfBytes? {
      LoadStops(s, i, now);
      return false, [];
    }
    var (tagS, infoS) := record.value;
    RecordAdvances(s, i);
    var obj := new ObjectPacket(Object(0, 0, 0, 0, 0, []));
    obj.messagePayload := infoS;
    var ok := obj.Decode();
    if !ok {
      LoadStops(s, i, now);
      return false, [];
    }
    ghost var e := Entry(tagS, infoS, SlotOf(tagS));
    LoadGoesOn(s, i, now, e, file.pos);
    OutlivesTells(e, now);
    if now < obj.time {
      var present;
      ghost var inserted;
      Long(tagS);
      present, inserted := table.Insert(infoS, tagS);
      return true, [e];
    }
    return true, [];
  }

  /** `load`: record after record until one cannot be read or is no object. The source loops until the
      end of the file has been hit, but hitting it throws first. */
  method Load(file: DataFile, table: HashTable<seq<byte>>, now: int)
    requires table.Valid() && file !in table.Repr && file.pos <= |file.bytes|
    modifies file`pos, table.Repr
    ensures table.Valid() && fresh(table.Repr - old(table.Repr))
    ensures var (inserted, stop) := LoadFrom(file.bytes, old(file.pos), now);
            table.Log == AddedAll(old(table.Log), inserted) && file.pos == RecordEnd(file.bytes, stop)
  {
    hide Added, LoadFrom, AllStored, Owned, Heads, Linked, RecordEnd;
    ghost var log, s, start := table.Log, file.bytes, file.pos;
    ghost var done: Log := [];
    var more := true;
    ghost var last := start;
    assert Behind(done, LoadFrom(s, start, now)) == LoadFrom(s, start, now) by {
      BehindNothing(LoadFrom(s, start, now));
    }
    while more
      invariant table.Valid() && fresh(table.Repr - old(table.Repr)) && file !in table.Repr
      invariant file.bytes == s && file.pos <= |s| && table.Log == AddedAll(log, done)
      invariant if more then LoadFrom(s, start, now) == Behind(done, LoadFrom(s, file.pos, now))
                else LoadFrom(s, start, now) == (done, last) && file.pos == RecordEnd(s, last)
      decreases more, |s| - file.pos
    {
      ghost var added;
      last := file.pos;
      more, added := LoadOne(file, table, now);
      AddedMore(log, done, added);
      BehindMore(done, added, LoadFrom(s, file.pos, now));
      done := done + added;
    }
  }

  ghost function Behind(done: Log, rest: (Log, nat)): (Log, nat) {
    (done + rest.0, rest.1)
  }

  lemma BehindNothing(rest: (Log, nat))
    ensures Behind([], rest) == rest
  {
    assert [] + rest.0 == rest.0;
  }

  lemma BehindMore(done: Log, added: Log, rest: (Log, nat))
    ensures Behind(done + added, rest) == Behind(done, (added + rest.0, rest.1))
    ensures Behind(done, ([], rest.1)) == (done, rest.1)
  {
    assert done + added + rest.0 == done + (added + rest.0);
    assert done + [] == done;
  }

  lemma AddedMore(log: Log, done: Log, added: Log)
    requires |added| <= 1
    ensures AddedAll(log, done + added)
         == if added == [] then AddedAll(log, done) else Added(AddedAll(log, done), added[0])
  {
    hide Added;
    if added == [] {
      assert done + added == done;
    } else {
      assert added == [added[0]];
      AddedNext(log, done, added[0]);
    }
  }

  lemma OutlivesTells(e: Entry<seq<byte>>, now: int)
    requires DecodeData(e.info).Got?
    ensures Outlives(e, now) <==> now < DecodeData(e.info).value.time
  {
  }

  lemma Long(hash: seq<byte>)
    requires |hash| == 32
    ensures Stable(hash)
  {
  }

  method ReadRecord(file: DataFile) returns (r: Read<(seq<byte>, seq<byte>)>)
    requires file.pos <= |file.bytes|
    modifies file`pos
    ensures r == GetRecord(file.bytes, old(file.pos))
    ensures file.pos == RecordEnd(file.bytes, old(file.pos)) <= |file.bytes|
    ensures r.Got? ==> file.pos == r.next && |r.value.0| == 32
  {
    hide GetFileVarInt;
    var tagS := file.GetUstring(32);
    if tagS.OutOfBytes? { return OutOfBytes; }
    var len := file.GetVarInt();
    if len.OutOfBytes? { return OutOfBytes; }
    var infoS := file.GetUstring(Int32(len.value));
    if infoS.OutOfBytes? { return OutOfBytes; }
    r := Got((tagS.value, infoS.value), infoS.next);
  }

  /** Save, restart, load. */
  method Restart(table: HashTable<seq<byte>>, now: int) returns (reloaded: HashTable<seq<byte>>, file: DataFile)
    requires table.Valid() && Savable(table.Log) && Sized(table.Log)
    ensures reloaded.Valid() && fresh(reloaded.Repr) && file.pos == |file.bytes|
    ensures forall slot :: Bucket(reloaded.Log, slot) == Kept(Bucket(table.Log, slot), now)
  {
    hide Bucket, Kept, Savable, LoadFrom, FileBytes, InOrder, AddedAll, Stored;
    file := new DataFile([]);
    Save(table, file);
    assert file.bytes == FileBytes(table.Log);
    reloaded := new HashTable<seq<byte>>();
    Load(file, reloaded, now);
    AddedToEmpty(LoadFrom(file.bytes, 0, now).0);
    LoadRestoresSave(table.Log, now, 0);
    forall slot: nat ensures Bucket(reloaded.Log, slot) == Kept(Bucket(table.Log, slot), now) {
      LoadRestoresSave(table.Log, now, slot);
    }
  }
}
