/** The chained hash table of BitMRC/include/utils.h and the list it refines. */
module HashTables {
  import opened Positional
  import opened HashFunction

  // ----- the table as a list of its entries in the order they were added -----

  datatype Entry<T> = Entry(hash: seq<byte>, info: T, slot: nat)

  /** One chain of the table. */
  function Bucket<T(!new)>(log: seq<Entry<T>>, slot: nat): (b: seq<Entry<T>>)
    ensures |b| <= |log|
    ensures forall e :: e in b <==> e in log && e.slot == slot
  {
    if log == [] then []
    else
      var e := log[|log| - 1];
      Bucket(log[..|log| - 1], slot) + if e.slot == slot then [e] else []
  }

  ghost predicate HasInfo<T(!new)>(b: seq<Entry<T>>, info: T) {
    exists k :: 0 <= k < |b| && b[k].info == info
  }

  ghost predicate HasHash<T(!new)>(b: seq<Entry<T>>, hash: seq<byte>) {
    exists k :: 0 <= k < |b| && b[k].hash == hash
  }

  /** The info of the first entry with the given hash; `blank` is the default-constructed one. */
  function FirstInfo<T(!new)>(b: seq<Entry<T>>, hash: seq<byte>, blank: T): T {
    if b == [] then blank
    else if b[0].hash == hash then b[0].info
    else FirstInfo(b[1..], hash, blank)
  }

  /** Adding an entry: nothing happens if the chain holds the same info already. */
  ghost function Added<T(!new)>(log: seq<Entry<T>>, e: Entry<T>): seq<Entry<T>> {
    if HasInfo(Bucket(log, e.slot), e.info) then log else log + [e]
  }

  /** The return code: 0 for a duplicate, 1 for the first entry of a chain, 2 for any other. */
  ghost function Code<T(!new)>(log: seq<Entry<T>>, e: Entry<T>): int {
    if HasInfo(Bucket(log, e.slot), e.info) then 0
    else if Bucket(log, e.slot) == [] then 1
    else 2
  }

  lemma BucketOfLonger<T(!new)>(log: seq<Entry<T>>, e: Entry<T>, slot: nat)
    ensures Bucket(log + [e], slot) == Bucket(log, slot) + if e.slot == slot then [e] else []
  {
    assert (log + [e])[..|log|] == log;
  }

  lemma BucketsOfLonger<T(!new)>(log: seq<Entry<T>>, e: Entry<T>)
    ensures forall slot ::
              Bucket(log + [e], slot) == if e.slot == slot then Bucket(log, slot) + [e] else Bucket(log, slot)
  {
    forall slot: nat
      ensures Bucket(log + [e], slot) == if e.slot == slot then Bucket(log, slot) + [e] else Bucket(log, slot)
    {
      BucketOfLonger(log, e, slot);
    }
  }

  lemma EmptyHasNoInfo<T(!new)>(b: seq<Entry<T>>, info: T)
    ensures b == [] ==> !HasInfo(b, info)
  {
  }

  lemma {:induction false} FirstInfoSkips<T(!new)>(b: seq<Entry<T>>, n: nat, hash: seq<byte>, blank: T)
    requires n <= |b| && forall k :: 0 <= k < n ==> b[k].hash != hash
    ensures FirstInfo(b, hash, blank) == FirstInfo(b[n..], hash, blank)
  {
    if n > 0 {
      FirstInfoSkips(b[1..], n - 1, hash, blank);
      assert b[1..][n - 1..] == b[n..];
    } else {
      assert b[0..] == b;
    }
  }

  // ----- the linked nodes -----

  class Node<T> {
    const hash: seq<byte>
    const info: T
    var next: Node?<T>
    ghost const bucket: nat
    ghost const pos: nat

    constructor (hash: seq<byte>, info: T, ghost bucket: nat, ghost pos: nat)
      ensures this.hash == hash && this.info == info && next == null
      ensures this.bucket == bucket && this.pos == pos
    {
      this.hash, this.info, this.next := hash, info, null;
      this.bucket, this.pos := bucket, pos;
    }
  }

  /** The nodes of a chain carry the entries of a bucket; nothing here can change. */
  ghost predicate Stores<T(!new)>(chain: seq<Node<T>>, i: nat, b: seq<Entry<T>>) {
    && |chain| == |b|
    && (forall k :: 0 <= k < |chain| ==> chain[k].bucket == i && chain[k].pos == k)
    && (forall k :: 0 <= k < |chain| ==> chain[k].hash == b[k].hash && chain[k].info == b[k].info)
  }

  /** Every chain of the table carries its bucket. */
  ghost predicate AllStored<T(!new)>(chains: seq<seq<Node<T>>>, log: seq<Entry<T>>) {
    |chains| == DIM && forall i :: 0 <= i < DIM ==> Stores(chains[i], i, Bucket(log, i))
  }

  lemma StoredLonger<T(!new)>(chains: seq<seq<Node<T>>>, log: seq<Entry<T>>, n: Node<T>, e: Entry<T>)
    requires AllStored(chains, log) && e.slot < DIM
    requires n.bucket == e.slot && n.pos == |chains[e.slot]| && n.hash == e.hash && n.info == e.info
    ensures AllStored(chains[e.slot := chains[e.slot] + [n]], log + [e])
  {
    BucketsOfLonger(log, e);
    var chain, b := chains[e.slot], Bucket(log, e.slot);
    hide Bucket;
    assert Stores(chain, e.slot, b);
    assert Stores(chain + [n], e.slot, b + [e]);
  }

  ghost function NodeAt<T(!new)>(chain: seq<Node<T>>, k: nat): Node?<T> {
    if k < |chain| then chain[k] else null
  }

  ghost predicate IsLinked<T(!new)>(head: Node?<T>, chain: seq<Node<T>>)
    reads chain
  {
    && head == NodeAt(chain, 0)
    && forall k :: 0 <= k < |chain| ==> chain[k].next == NodeAt(chain, k + 1)
  }

  ghost predicate Owned<T(!new)>(chains: seq<seq<Node<T>>>, repr: set<object>) {
    forall i, k :: 0 <= i < |chains| && 0 <= k < |chains[i]| ==> chains[i][k] in repr
  }

  ghost predicate Heads<T(!new)>(table: seq<Node?<T>>, chains: seq<seq<Node<T>>>) {
    |table| == |chains| == DIM && forall i :: 0 <= i < DIM ==> table[i] == NodeAt(chains[i], 0)
  }

  ghost predicate Linked<T(!new)>(chains: seq<seq<Node<T>>>, repr: set<object>)
    requires Owned(chains, repr)
    reads repr
  {
    forall i, k :: 0 <= i < |chains| && 0 <= k < |chains[i]| ==> chains[i][k].next == NodeAt(chains[i], k + 1)
  }

  /** One more node at the end of a chain: the parts of the invariant that no heap update can touch. */
  lemma Longer<T(!new)>(chains: seq<seq<Node<T>>>, log: seq<Entry<T>>, table: seq<Node?<T>>, repr: set<object>,
                        n: Node<T>, e: Entry<T>)
    requires AllStored(chains, log) && Heads(table, chains) && Owned(chains, repr) && e.slot < DIM
    requires n.bucket == e.slot && n.pos == |chains[e.slot]| && n.hash == e.hash && n.info == e.info
    ensures var chains' := chains[e.slot := chains[e.slot] + [n]];
            && AllStored(chains', log + [e]) && Owned(chains', repr + {n})
            && Heads(if table[e.slot] == null then table[e.slot := n] else table, chains')
  {
    StoredLonger(chains, log, n, e);
    hide AllStored;
  }

  lemma HeadTells<T(!new)>(table: seq<Node?<T>>, chains: seq<seq<Node<T>>>, i: nat)
    requires Heads(table, chains) && i < DIM
    ensures |table| == |chains| == DIM && (table[i] == null <==> chains[i] == [])
  {
  }

  lemma OnlyLast<T(!new)>(chains: seq<seq<Node<T>>>, log: seq<Entry<T>>, repr: set<object>, i: nat, last: Node<T>)
    requires AllStored(chains, log) && Owned(chains, repr)
    requires i < DIM && chains[i] != [] && last == chains[i][|chains[i]| - 1]
    ensures last in repr
    ensures forall j, k :: 0 <= j < |chains| && 0 <= k < |chains[j]| && !(j == i && k == |chains[i]| - 1) ==>
              chains[j][k] != last
  {
    assert Stores(chains[i], i, Bucket(log, i));
    assert forall j :: 0 <= j < DIM ==> Stores(chains[j], j, Bucket(log, j));
  }

  /** The loop of the two searches. */
  method Walk<T(!new)>(head: Node?<T>, hash: seq<byte>, ghost chain: seq<Node<T>>, ghost i: nat, ghost b: seq<Entry<T>>)
    returns (cur: Node?<T>, ghost k: nat)
    requires IsLinked(head, chain) && Stores(chain, i, b)
    ensures k <= |b| && forall j :: 0 <= j < k ==> b[j].hash != hash
    ensures if k < |b| then cur != null && b[k].hash == hash && cur.info == b[k].info else cur == null
  {
    cur, k := head, 0;
    while cur != null && cur.hash != hash
      invariant k <= |chain| && cur == NodeAt(chain, k)
      invariant forall j :: 0 <= j < k ==> b[j].hash != hash
      decreases |chain| - k
    {
      assert chain[k].hash == b[k].hash;
      cur, k := cur.next, k + 1;
    }
    assert k < |chain| ==> chain[k].hash == b[k].hash;
  }

  /** The loop of `insert`: it stops early at an equal info, else at the last node. */
  method WalkToEnd<T(==, !new)>(head: Node<T>, info: T, ghost chain: seq<Node<T>>, ghost i: nat, ghost b: seq<Entry<T>>)
    returns (cur: Node<T>)
    requires IsLinked(head, chain) && Stores(chain, i, b)
    ensures HasInfo(b, info) ==> cur.info == info
    ensures !HasInfo(b, info) ==> cur.info != info && cur == chain[|chain| - 1]
  {
    cur := head;
    ghost var k: nat := 0;
    while cur.next != null
      invariant k < |chain| && cur == chain[k]
      invariant forall j :: 0 <= j < k ==> b[j].info != info
      decreases |chain| - k
    {
      assert chain[k].info == b[k].info;
      if cur.info == info {
        return;
      }
      assert chain[k].next == NodeAt(chain, k + 1);
      cur, k := cur.next, k + 1;
    }
    assert chain[k].next == NodeAt(chain, k + 1) && chain[k].info == b[k].info;
  }

  class HashTable<T(==, !new)> {
    const Table: array<Node?<T>>
    ghost var Log: seq<Entry<T>>
    ghost var Chains: seq<seq<Node<T>>>
    ghost var Repr: set<object>

    ghost predicate Valid()
      reads this, Repr
      ensures Valid() ==> this in Repr
    {
      && this in Repr && Table in Repr
      && AllStored(Chains, Log) && Owned(Chains, Repr) && Heads(Table[..], Chains) && Linked(Chains, Repr)
    }

    constructor ()
      ensures Valid() && fresh(Repr) && Log == []
    {
      Table := new Node?<T>[100771](_ => null);
      new;
      Log := [];
      Chains := seq(DIM, _ => []);
      Repr := {this, Table};
    }

    method Insert(info: T, hash: seq<byte>) returns (ret: int, ghost e: Entry<T>)
      requires Valid()
      modifies Repr
      ensures Valid() && fresh(Repr - old(Repr))
      ensures e.hash == hash && e.info == info && (exists c0 :: |c0| == 4 && e.slot == Slot(c0, hash))
      ensures Stable(hash) ==> e.slot == SlotOf(hash)
      ensures ret == Code(old(Log), e) && Log == Added(old(Log), e)
    {
      hide Bucket, Slot, SlotOf, Stable, HasInfo;
      ghost var c0;
      var i;
      i, c0 := HashF(hash);
      e := Entry(hash, info, i);
      ghost var b := Bucket(Log, i);
      assert Stores(Chains[i], i, b) && IsLinked(Table[i], Chains[i]);
      var cur := Table[i];
      if cur == null {
        EmptyHasNoInfo(b, info);
        StartChain(hash, info, i);
        return 1, e;
      }
      cur := WalkToEnd(cur, info, Chains[i], i, b);
      if cur.info == info {
        return 0, e;
      }
      ExtendChain(hash, info, i, cur);
      return 2, e;
    }

    method StartChain(hash: seq<byte>, info: T, i: nat)
      requires Valid() && i < DIM == Table.Length && Table[i] == null
      modifies Repr
      ensures Valid() && fresh(Repr - old(Repr)) && Log == old(Log) + [Entry(hash, info, i)]
    {
      hide AllStored, Heads, Owned;
      ghost var e, chains, table, repr := Entry(hash, info, i), Chains, Table[..], Repr;
      HeadTells(table, chains, i);
      var n := new Node(hash, info, i, 0);
      Longer(chains, Log, table, repr, n, e);
      Table[i] := n;
      assert Table[..] == table[i := n];
      Record(n, e, chains[i := chains[i] + [n]]);
    }

    method ExtendChain(hash: seq<byte>, info: T, i: nat, last: Node<T>)
      requires Valid() && i < DIM && Chains[i] != [] && last == Chains[i][|Chains[i]| - 1]
      modifies Repr
      ensures Valid() && fresh(Repr - old(Repr)) && Log == old(Log) + [Entry(hash, info, i)]
    {
      hide AllStored, Heads, Owned;
      ghost var e, chains, table, repr := Entry(hash, info, i), Chains, Table[..], Repr;
      HeadTells(table, chains, i);
      OnlyLast(chains, Log, repr, i, last);
      var n := new Node(hash, info, i, |chains[i]|);
      Longer(chains, Log, table, repr, n, e);
      last.next := n;
      assert Table[..] == table;
      Record(n, e, chains[i := chains[i] + [n]]);
    }

    ghost method Record(n: Node<T>, e: Entry<T>, chains: seq<seq<Node<T>>>)
      requires this in Repr && Table in Repr && AllStored(chains, Log + [e]) && Heads(Table[..], chains)
      requires Owned(chains, Repr + {n}) && Linked(chains, Repr + {n})
      modifies this
      ensures Valid() && Repr == old(Repr) + {n} && Log == old(Log) + [e]
    {
      hide AllStored, Heads, Owned;
      ghost var table := Table[..];
      Log, Chains, Repr := Log + [e], chains, Repr + {n};
      assert Table[..] == table;
    }

    method Present(hash: seq<byte>) returns (ret: int, ghost slot: nat)
      requires Valid()
      ensures exists c0 :: |c0| == 4 && slot == Slot(c0, hash)
      ensures Stable(hash) ==> slot == SlotOf(hash)
      ensures ret == if HasHash(Bucket(Log, slot), hash) then 1 else 0
      ensures Stable(hash) ==> ret == if HasHash(Bucket(Log, SlotOf(hash)), hash) then 1 else 0
    {
      hide Bucket, Slot, SlotOf, Stable;
      ghost var c0;
      var i;
      i, c0 := HashF(hash);
      var cur;
      ghost var k;
      assert Stores(Chains[i], i, Bucket(Log, i)) && IsLinked(Table[i], Chains[i]);
      cur, k := Walk(Table[i], hash, Chains[i], i, Bucket(Log, i));
      return if cur != null then 1 else 0, i;
    }

    method SearchByHash(hash: seq<byte>, blank: T) returns (info: T, ghost slot: nat)
      requires Valid()
      ensures exists c0 :: |c0| == 4 && slot == Slot(c0, hash)
      ensures Stable(hash) ==> slot == SlotOf(hash)
      ensures info == FirstInfo(Bucket(Log, slot), hash, blank)
      ensures Stable(hash) ==> info == FirstInfo(Bucket(Log, SlotOf(hash)), hash, blank)
    {
      hide Bucket, Slot, SlotOf, Stable;
      ghost var c0;
      var i;
      i, c0 := HashF(hash);
      var cur;
      ghost var k;
      assert Stores(Chains[i], i, Bucket(Log, i)) && IsLinked(Table[i], Chains[i]);
      cur, k := Walk(Table[i], hash, Chains[i], i, Bucket(Log, i));
      FirstInfoSkips(Bucket(Log, i), k, hash, blank);
      return if cur != null then cur.info else blank, i;
    }
  }
}
