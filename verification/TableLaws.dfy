/** What any sequence of insertions leaves in a hash table. */
module TableLaws {
  import opened Positional
  import opened HashFunction
  import opened HashTables

  /** The contents after a history of insertions. */
  ghost function Stored<T(!new)>(history: seq<Entry<T>>): seq<Entry<T>> {
    if history == [] then [] else Added(Stored(history[..|history| - 1]), history[|history| - 1])
  }

  /** No chain holds the same info twice. */
  ghost predicate NoEqualInfos<T(!new)>(log: seq<Entry<T>>) {
    forall i, j :: 0 <= i < j < |log| && log[i].slot == log[j].slot ==> log[i].info != log[j].info
  }

  lemma HasInfoInLog<T(!new)>(log: seq<Entry<T>>, slot: nat, info: T)
    ensures HasInfo(Bucket(log, slot), info) <==> exists e :: e in log && e.slot == slot && e.info == info
  {
    if e :| e in log && e.slot == slot && e.info == info {
      assert e in Bucket(log, slot);
    }
    if HasInfo(Bucket(log, slot), info) {
      var k :| 0 <= k < |Bucket(log, slot)| && Bucket(log, slot)[k].info == info;
      assert Bucket(log, slot)[k] in log;
    }
  }

  lemma HasHashInLog<T(!new)>(log: seq<Entry<T>>, slot: nat, hash: seq<byte>)
    ensures HasHash(Bucket(log, slot), hash) <==> exists e :: e in log && e.slot == slot && e.hash == hash
  {
    if e :| e in log && e.slot == slot && e.hash == hash {
      assert e in Bucket(log, slot);
    }
    if HasHash(Bucket(log, slot), hash) {
      var k :| 0 <= k < |Bucket(log, slot)| && Bucket(log, slot)[k].hash == hash;
      assert Bucket(log, slot)[k] in log;
    }
  }

  lemma {:induction false} StoredHasNoEqualInfos<T(!new)>(history: seq<Entry<T>>)
    ensures NoEqualInfos(Stored(history))
  {
    if history != [] {
      var init, e := history[..|history| - 1], history[|history| - 1];
      hide Bucket, HasInfo;
      StoredHasNoEqualInfos(init);
      HasInfoInLog(Stored(init), e.slot, e.info);
    }
  }

  /** Insertions never lose or reorder entries: what is stored at any time stays a prefix. */
  lemma {:induction false} StoredGrows<T(!new)>(history: seq<Entry<T>>, k: nat)
    requires k <= |history|
    ensures Stored(history[..k]) <= Stored(history)
  {
    if k == |history| {
      assert history[..k] == history;
    } else {
      var init := history[..|history| - 1];
      StoredGrows(init, k);
      assert init[..k] == history[..k];
    }
  }

  /** A chain holds an info exactly when some insertion in the history was for that chain and info. */
  lemma {:induction false} StoredIffInserted<T(!new)>(history: seq<Entry<T>>, slot: nat, info: T)
    ensures HasInfo(Bucket(Stored(history), slot), info)
       <==> exists e :: e in history && e.slot == slot && e.info == info
  {
    hide Bucket, HasInfo;
    HasInfoInLog(Stored(history), slot, info);
    if history != [] {
      var init, e := history[..|history| - 1], history[|history| - 1];
      StoredIffInserted(init, slot, info);
      assert history == init + [e];
      HasInfoInLog(Stored(init), slot, info);
      HasInfoInLog(Stored(init), e.slot, e.info);
    }
  }

  /** Everything stored was inserted. */
  lemma {:induction false} StoredWasInserted<T(!new)>(history: seq<Entry<T>>, e: Entry<T>)
    requires e in Stored(history)
    ensures e in history
  {
    var init, last := history[..|history| - 1], history[|history| - 1];
    if e in Stored(init) {
      StoredWasInserted(init, e);
    }
  }

  // ----- looking up by hash -----

  /** Every entry sits in the chain its hash belongs to. */
  ghost predicate Placed<T(!new)>(log: seq<Entry<T>>) {
    forall e :: e in log ==> Stable(e.hash) && e.slot == SlotOf(e.hash)
  }

  lemma PlacedStored<T(!new)>(history: seq<Entry<T>>)
    requires Placed(history)
    ensures Placed(Stored(history))
  {
    forall e | e in Stored(history) ensures e in history {
      StoredWasInserted(history, e);
    }
  }

  /** Looking only into the chain of the hash finds what a scan of the whole list finds. */
  lemma {:induction false} ChainScanIsFullScan<T(!new)>(log: seq<Entry<T>>, hash: seq<byte>, blank: T)
    requires Placed(log)
    ensures HasHash(Bucket(log, SlotOf(hash)), hash) <==> HasHash(log, hash)
    ensures FirstInfo(Bucket(log, SlotOf(hash)), hash, blank) == FirstInfo(log, hash, blank)
  {
    hide SlotOf, Stable, Bucket, FirstInfo, HasHash;
    var slot := SlotOf(hash);
    if log == [] {
      EmptyBucket<T>(slot);
    } else {
      var init, e := log[..|log| - 1], log[|log| - 1];
      var b := Bucket(init, slot);
      assert log == init + [e];
      ChainScanIsFullScan(init, hash, blank);
      BucketOfLonger(init, e, slot);
      FirstInfoAppend(init, e, hash, blank);
      HasHashAppend(init, e, hash);
      if e.slot == slot {
        FirstInfoAppend(b, e, hash, blank);
        HasHashAppend(b, e, hash);
      } else {
        assert e in log && e.hash != hash;
        assert Bucket(log, slot) == b + [] == b;
      }
    }
  }

  lemma EmptyBucket<T(!new)>(slot: nat)
    ensures Bucket<T>([], slot) == []
  {
  }

  lemma HasHashAppend<T(!new)>(b: seq<Entry<T>>, e: Entry<T>, hash: seq<byte>)
    ensures HasHash(b + [e], hash) <==> HasHash(b, hash) || e.hash == hash
  {
    if HasHash(b, hash) {
      var k :| 0 <= k < |b| && b[k].hash == hash;
      assert (b + [e])[k].hash == hash;
    }
    if e.hash == hash {
      assert (b + [e])[|b|].hash == hash;
    }
  }

  lemma {:induction false} FirstInfoAppend<T(!new)>(b: seq<Entry<T>>, e: Entry<T>, hash: seq<byte>, blank: T)
    ensures FirstInfo(b + [e], hash, blank)
         == if HasHash(b, hash) || e.hash != hash then FirstInfo(b, hash, blank) else e.info
  {
    if b == [] {
      assert (b + [e])[1..] == [];
    } else {
      FirstInfoAppend(b[1..], e, hash, blank);
      assert (b + [e])[1..] == b[1..] + [e];
      assert b == [b[0]] + b[1..];
      if HasHash(b[1..], hash) {
        var k :| 0 <= k < |b[1..]| && b[1..][k].hash == hash;
        assert b[k + 1].hash == hash;
      }
      if HasHash(b, hash) && b[0].hash != hash {
        var k :| 0 <= k < |b| && b[k].hash == hash;
        assert b[1..][k - 1].hash == hash;
      }
    }
  }

  // ----- is a hash present after an insertion under it? -----

  /** After an insertion its hash is found exactly when the info was new to the chain or the hash was
      found before. */
  lemma PresentAfterInsert<T(!new)>(log: seq<Entry<T>>, e: Entry<T>)
    ensures HasHash(Bucket(Added(log, e), e.slot), e.hash)
       <==> !HasInfo(Bucket(log, e.slot), e.info) || HasHash(Bucket(log, e.slot), e.hash)
  {
    BucketOfLonger(log, e, e.slot);
    HasHashAppend(Bucket(log, e.slot), e, e.hash);
  }

  const HASH_A: seq<byte> := [0, 0, 0, 0]
  const HASH_B: seq<byte> := [0, 1, 0, 0]

  /** `strncpy` stops at the zero in front, so the rest of the chunk does not matter. */
  lemma SameSlot()
    ensures HASH_A != HASH_B && Stable(HASH_A) && Stable(HASH_B) && SlotOf(HASH_A) == SlotOf(HASH_B)
  {
    assert HASH_A[1] != HASH_B[1];
    assert HASH_A[0..4] == HASH_A && HASH_B[0..4] == HASH_B;
  }

  /** It is not always found: two hashes of one chain, and the same info under both. */
  lemma InsertedButAbsent()
    ensures var a, b := Entry(HASH_A, 7, SlotOf(HASH_A)), Entry(HASH_B, 7, SlotOf(HASH_B));
            && Stable(a.hash) && Stable(b.hash)
            && !HasHash(Bucket(Stored([a, b]), b.slot), b.hash)
  {
    SameSlot();
    hide SlotOf, Stable;
    var a, b := Entry(HASH_A, 7, SlotOf(HASH_A)), Entry(HASH_B, 7, SlotOf(HASH_B));
    StoredTwice(a, b);
  }

  lemma StoredTwice<T(!new)>(a: Entry<T>, b: Entry<T>)
    requires a.slot == b.slot && a.info == b.info && a.hash != b.hash
    ensures !HasHash(Bucket(Stored([a, b]), b.slot), b.hash)
  {
    assert [a, b][..1] == [a] && [a][..0] == [];
    assert Stored([a]) == [a];
    assert Bucket([a], b.slot) == [a];
    assert [a][0].info == b.info;
  }

  /** The discipline of the inventory: everything is inserted under the hash of its info. */
  ghost predicate Disciplined<T(!new)>(log: seq<Entry<T>>, h: T -> seq<byte>) {
    Placed(log) && forall e :: e in log ==> e.hash == h(e.info)
  }

  /** Under the discipline every inserted info is found under its hash from then on, and whatever is
      found under a hash has that hash. */
  lemma FoundUnderDiscipline<T(!new)>(history: seq<Entry<T>>, h: T -> seq<byte>, hash: seq<byte>, blank: T)
    requires Disciplined(history, h)
    ensures Disciplined(Stored(history), h)
    ensures HasHash(Bucket(Stored(history), SlotOf(hash)), hash) <==> exists e :: e in history && e.hash == hash
    ensures HasHash(Bucket(Stored(history), SlotOf(hash)), hash) ==>
              var found := FirstInfo(Bucket(Stored(history), SlotOf(hash)), hash, blank);
              h(found) == hash && exists e :: e in history && e.info == found
  {
    hide SlotOf, Stable;
    PlacedStored(history);
    forall e | e in Stored(history) ensures e in history {
      StoredWasInserted(history, e);
    }
    var slot := SlotOf(hash);
    var b := Bucket(Stored(history), slot);
    HasHashInLog(Stored(history), slot, hash);
    if e :| e in history && e.hash == hash {
      StoredIffInserted(history, slot, e.info);
      HasInfoInLog(Stored(history), slot, e.info);
    }
    if HasHash(b, hash) {
      FirstInfoFound(b, hash, blank);
    }
  }

  lemma {:induction false} FirstInfoFound<T(!new)>(b: seq<Entry<T>>, hash: seq<byte>, blank: T)
    requires HasHash(b, hash)
    ensures exists k :: 0 <= k < |b| && b[k].hash == hash && b[k].info == FirstInfo(b, hash, blank)
  {
    if b[0].hash != hash {
      var k :| 0 <= k < |b| && b[k].hash == hash;
      assert b[1..][k - 1].hash == hash;
      FirstInfoFound(b[1..], hash, blank);
      var j :| 0 <= j < |b[1..]| && b[1..][j].hash == hash && b[1..][j].info == FirstInfo(b[1..], hash, blank);
      assert b[j + 1].hash == hash && b[j + 1].info == FirstInfo(b, hash, blank);
    }
  }
}
