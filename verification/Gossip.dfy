/** Nodes that exchange inventories: the storing part of BitMRC/BitMRC.cpp and the `inv`, `getdata` and
    `object` branches of BitMRC/NodeConnection.cpp, as steps of any number of nodes on any network. */
module Gossip {
  import opened Positional
  import opened Words
  import opened Wire
  import opened Objects
  import opened Inventory
  import opened Hashes
  import opened HashFunction
  import opened HashTables
  import opened TableLaws
  import opened ProofOfWork
  import Framing
  import Ber
  import Signatures

  // ----- one node -----

  type Log = seq<Entry<seq<byte>>>

  /** The object table, and the tags queued for the next `inv`. A node goes down when an exception
      leaves a listener thread, for that ends the process, and the table with it. */
  datatype State = State(log: Log, newInv: seq<Tag>, up: bool)

  const EMPTY := State([], [], true)
  const STOPPED := State([], [], false)

  /** `inventoryHash`. */
  function TagOf(sha512: Hash512, payload: seq<byte>): Tag {
    sha512(sha512(payload))[..32]
  }

  function EntryOf(sha512: Hash512, payload: seq<byte>): Entry<seq<byte>> {
    Entry(TagOf(sha512, payload), payload, SlotOf(TagOf(sha512, payload)))
  }

  ghost predicate Holds(log: Log, tag: Tag) {
    HasHash(Bucket(log, SlotOf(tag)), tag)
  }

  /** `propagate` stores and announces an object. */
  ghost function Propagated(sha512: Hash512, s: State, payload: seq<byte>, time: int64, now: int): State {
    if Validate(sha512, payload, time, now) != Accepted then s
    else s.(log := Added(s.log, EntryOf(sha512, payload)), newInv := s.newInv + [TagOf(sha512, payload)])
  }

  /** `processObj` does so for an object that came in, but leaves early on the return code 2. */
  ghost function Processed(sha512: Hash512, s: State, payload: seq<byte>, time: int64, now: int): State {
    if Validate(sha512, payload, time, now) != Accepted then s
    else if Code(s.log, EntryOf(sha512, payload)) == 2 then s.(log := Added(s.log, EntryOf(sha512, payload)))
    else Propagated(sha512, s, payload, time, now)
  }

  /** What is stored and what is announced, in terms of the hash function alone. */
  lemma ObjectStored(sha512: Hash512, s: State, payload: seq<byte>, time: int64, now: int)
    ensures var tag := sha512(sha512(payload))[..32];
            var chain, ok := Bucket(s.log, SlotOf(tag)), Validate(sha512, payload, time, now) == Accepted;
            var log := if ok && !HasInfo(chain, payload) then s.log + [Entry(tag, payload, SlotOf(tag))] else s.log;
            && Propagated(sha512, s, payload, time, now)
            == State(log, if ok then s.newInv + [tag] else s.newInv, s.up)
            && Processed(sha512, s, payload, time, now)
            == State(log, if ok && (chain == [] || HasInfo(chain, payload)) then s.newInv + [tag] else s.newInv, s.up)
  {
    hide Validate, SlotOf, Bucket, HasInfo;
  }

  /** The tags of an `inv` that are asked for. */
  ghost function Needed(log: Log, tags: seq<Tag>): seq<Tag> {
    if tags == [] then []
    else
      var tag := tags[|tags| - 1];
      Needed(log, tags[..|tags| - 1]) + if Holds(log, tag) then [] else [tag]
  }

  ghost function Held(log: Log, tags: seq<Tag>): seq<Tag> {
    if tags == [] then []
    else
      var tag := tags[|tags| - 1];
      Held(log, tags[..|tags| - 1]) + if Holds(log, tag) then [tag] else []
  }

  /** The payloads sent in answer to a `getdata`; an empty one stands for an unknown tag. */
  function Replies(log: Log, tags: seq<Tag>): seq<seq<byte>> {
    if tags == [] then []
    else
      var tag := tags[|tags| - 1];
      var payload := FirstInfo(Bucket(log, SlotOf(tag)), tag, []);
      Replies(log, tags[..|tags| - 1]) + if payload == [] then [] else [payload]
  }

  // ----- what brings a node down -----

  const TYPE_PUBKEY := 1
  const TYPE_BROADCAST := 3

  /** The kinds of object whose payload starts with a tag. */
  predicate Tagged(o: Object) {
    || (o.objectType == TYPE_PUBKEY && o.version == 4)
    || (o.objectType == TYPE_BROADCAST && o.version == 5)
  }

  /** The plaintext of a public key that cannot be taken apart. */
  predicate Unreadable(plain: seq<byte>) {
    var r := Signatures.ParsePubKey(plain);
    r.OutOfBytes? || Ber.DecodePair(r.value.sign).OutOfBytes?
  }

  /** What `processObj` does with an object behind the storing throws. `plains` are the plaintexts that
      the contacts waiting for their keys decrypt from it. Messages and broadcasts are decrypted inside
      a handler of their own. */
  predicate DispatchThrows(o: Object, plains: seq<seq<byte>>) {
    || (Tagged(o) && Signatures.TaggedBody(o.body).OutOfBytes?)
    || (o.objectType == TYPE_PUBKEY && exists k :: 0 <= k < |plains| && Unreadable(plains[k]))
  }

  // ----- runs -----

  /** What can happen at a node: a listener finds the bytes of a stream in front of it, or it handles the
      payload of a packet, or an own object is published. Bytes and payloads come from anyone; `now` is
      the node's clock. */
  datatype Event =
    | Stream(bytes: seq<byte>)
    | Version(payload: seq<byte>)
    | Inv(payload: seq<byte>)
    | Getdata(payload: seq<byte>)
    | Addr(payload: seq<byte>)
    | Arrival(payload: seq<byte>, plains: seq<seq<byte>>, now: int)
    | Publish(payload: seq<byte>, now: int)

  datatype Step = Step(node: nat, event: Event)

  /** The payload is an object that passes the check at the given time. */
  predicate Passes(sha512: Hash512, payload: seq<byte>, now: int) {
    DecodeData(payload).Got? && Validate(sha512, payload, DecodeData(payload).value.time, now) == Accepted
  }

  /** The packet in front of the stream can be read, or the payload of the packet decodes. */
  predicate Decodes(event: Event) {
    match event
    case Stream(bytes) => !Framing.HugeLength(bytes)
    case Version(payload) => Framing.DecodeVersion(payload).Got?
    case Inv(payload) => DecodeTags(payload).Got?
    case Getdata(payload) => DecodeTags(payload).Got?
    case Addr(payload) => DecodeAddresses(payload).Got?
    case Arrival(payload, _, _) => DecodeData(payload).Got?
    case Publish(_, _) => true
  }

  /** The listener comes back from handling the event: the payload decodes, and an object that is
      handled beyond the storing does not throw there. */
  ghost predicate Endures(sha512: Hash512, log: Log, event: Event) {
    && Decodes(event)
    && (event.Arrival? && Passes(sha512, event.payload, event.now) && Code(log, EntryOf(sha512, event.payload)) != 2 ==>
          !DispatchThrows(DecodeData(event.payload).value, event.plains))
  }

  ghost function Next(sha512: Hash512, s: State, event: Event): State {
    if !s.up then s
    else if !Endures(sha512, s.log, event) then STOPPED
    else
      match event
      case Arrival(payload, _, now) => Processed(sha512, s, payload, DecodeData(payload).value.time, now)
      case Publish(payload, now) =>
        if DecodeData(payload).OutOfBytes? then s
        else Propagated(sha512, s, payload, DecodeData(payload).value.time, now)
      case _ => s
  }

  /** The state of a node after a run of all nodes together. */
  ghost function After(sha512: Hash512, run: seq<Step>, node: nat): State {
    if run == [] then EMPTY
    else
      var s := After(sha512, run[..|run| - 1], node);
      var last := run[|run| - 1];
      if last.node == node then Next(sha512, s, last.event) else s
  }

  /** The event brings the payload to the node and the object check accepts it there and then. */
  predicate Admits(sha512: Hash512, event: Event, payload: seq<byte>) {
    (event.Arrival? || event.Publish?) && event.payload == payload && Passes(sha512, payload, event.now)
  }

  ghost predicate WasAdmitted(sha512: Hash512, run: seq<Step>, node: nat, payload: seq<byte>) {
    exists k :: 0 <= k < |run| && run[k].node == node && Admits(sha512, run[k].event, payload)
  }

  // ----- the table of a node is a history of insertions -----

  function PayloadsOf(sha512: Hash512, event: Event): (ps: seq<seq<byte>>)
    ensures forall p :: p in ps <==> Admits(sha512, event, p)
    ensures |ps| <= 1
  {
    if (event.Arrival? || event.Publish?) && Passes(sha512, event.payload, event.now) then [event.payload] else []
  }

  function Insertions(sha512: Hash512, run: seq<Step>, node: nat): Log {
    if run == [] then []
    else
      var last := run[|run| - 1];
      var ps := PayloadsOf(sha512, last.event);
      Insertions(sha512, run[..|run| - 1], node)
        + if last.node == node && ps != [] then [EntryOf(sha512, ps[0])] else []
  }

  lemma NextInserts(sha512: Hash512, s: State, event: Event)
    requires s.up || s == STOPPED
    ensures var ps := PayloadsOf(sha512, event);
            if Next(sha512, s, event).up then
              s.up && Next(sha512, s, event).log == if ps == [] then s.log else Added(s.log, EntryOf(sha512, ps[0]))
            else
              Next(sha512, s, event) == STOPPED
  {
    hide DecodeData, DecodeTags, DecodeAddresses, Framing.DecodeVersion, Framing.HugeLength;
    hide Validate, Code, Added, EntryOf, DispatchThrows;
  }

  lemma {:induction false} LogIsStored(sha512: Hash512, run: seq<Step>, node: nat)
    ensures var s := After(sha512, run, node);
            if s.up then s.log == Stored(Insertions(sha512, run, node)) else s == STOPPED
  {
    hide Next, Admits, Added, EntryOf;
    if run != [] {
      var init, last := run[..|run| - 1], run[|run| - 1];
      LogIsStored(sha512, init, node);
      var history := Insertions(sha512, init, node);
      var ps := PayloadsOf(sha512, last.event);
      NextInserts(sha512, After(sha512, init, node), last.event);
      if last.node == node && ps != [] {
        var e := EntryOf(sha512, ps[0]);
        assert (history + [e])[..|history|] == history;
      } else {
        assert history + [] == history;
      }
    }
  }

  lemma AdmittedLonger(sha512: Hash512, run: seq<Step>, last: Step, node: nat, payload: seq<byte>)
    ensures WasAdmitted(sha512, run + [last], node, payload)
       <==> WasAdmitted(sha512, run, node, payload) || (last.node == node && Admits(sha512, last.event, payload))
  {
    hide Admits;
    var longer := run + [last];
    if WasAdmitted(sha512, run, node, payload) {
      var k :| 0 <= k < |run| && run[k].node == node && Admits(sha512, run[k].event, payload);
      assert longer[k] == run[k];
    }
    assert longer[|run|] == last;
  }

  lemma AddedEntry(sha512: Hash512, event: Event, e: Entry<seq<byte>>)
    ensures var ps := PayloadsOf(sha512, event);
            ps != [] && e == EntryOf(sha512, ps[0]) <==> e == EntryOf(sha512, e.info) && Admits(sha512, event, e.info)
  {
    hide Admits, PayloadsOf, EntryOf;
    var ps := PayloadsOf(sha512, event);
    EntryKeepsInfo(sha512, e.info);
    if ps != [] {
      assert ps[0] in ps;
      EntryKeepsInfo(sha512, ps[0]);
      assert forall p :: p in ps ==> p == ps[0];
    }
  }

  lemma {:induction false} InsertionIffAdmitted(sha512: Hash512, run: seq<Step>, node: nat, e: Entry<seq<byte>>)
    ensures e in Insertions(sha512, run, node)
       <==> e == EntryOf(sha512, e.info) && WasAdmitted(sha512, run, node, e.info)
  {
    hide Admits, EntryOf, PayloadsOf, WasAdmitted;
    if run == [] {
      NothingAdmitted(sha512, node, e.info);
    } else {
      var init, last := run[..|run| - 1], run[|run| - 1];
      assert run == init + [last];
      InsertionIffAdmitted(sha512, init, node, e);
      AdmittedLonger(sha512, init, last, node, e.info);
      AddedEntry(sha512, last.event, e);
    }
  }

  lemma NothingAdmitted(sha512: Hash512, node: nat, payload: seq<byte>)
    ensures !WasAdmitted(sha512, [], node, payload)
  {
  }

  lemma EntryKeepsInfo(sha512: Hash512, payload: seq<byte>)
    ensures EntryOf(sha512, payload).info == payload
  {
  }

  lemma EntryMeans(sha512: Hash512, payload: seq<byte>)
    ensures TagOf(sha512, payload) == sha512(sha512(payload))[..32]
    ensures var tag := TagOf(sha512, payload);
            EntryOf(sha512, payload) == Entry(tag, payload, SlotOf(tag))
  {
    hide SlotOf;
  }

  function Tagger(sha512: Hash512): seq<byte> -> seq<byte> {
    (payload: seq<byte>) => TagOf(sha512, payload)
  }

  lemma InsertionsAreDisciplined(sha512: Hash512, run: seq<Step>, node: nat)
    ensures Disciplined(Insertions(sha512, run, node), Tagger(sha512))
  {
    hide Insertions, WasAdmitted, SlotOf;
    forall e | e in Insertions(sha512, run, node)
      ensures Stable(e.hash) && e.slot == SlotOf(e.hash) && e.hash == Tagger(sha512)(e.info)
    {
      InsertionIffAdmitted(sha512, run, node, e);
    }
  }

  // ----- what holds after every run -----

  /** Everything a node stores is stored under the tag of its payload, once, and was accepted by the
      object check at that node when it came in; nothing accepted is missing as long as the node is up. */
  lemma StoredIffAdmitted(sha512: Hash512, run: seq<Step>, node: nat, payload: seq<byte>)
    ensures (exists e :: e in After(sha512, run, node).log && e.info == payload)
       <==> After(sha512, run, node).up && WasAdmitted(sha512, run, node, payload)
    ensures forall e :: e in After(sha512, run, node).log ==>
              e == EntryOf(sha512, e.info) && e.hash == sha512(sha512(e.info))[..32] && e.slot == SlotOf(e.hash)
    ensures NoEqualInfos(After(sha512, run, node).log)
  {
    LogIsStored(sha512, run, node);
    if !After(sha512, run, node).up {
      return;
    }
    hide Insertions, WasAdmitted, EntryOf, After, NoEqualInfos;
    var history := Insertions(sha512, run, node);
    var log := After(sha512, run, node).log;
    StoredHasNoEqualInfos(history);
    forall e | e in log ensures e == EntryOf(sha512, e.info) && WasAdmitted(sha512, run, node, e.info) {
      StoredWasInserted(history, e);
      InsertionIffAdmitted(sha512, run, node, e);
    }
    forall e | e in log ensures e.hash == sha512(sha512(e.info))[..32] && e.slot == SlotOf(e.hash) {
      EntryMeans(sha512, e.info);
    }
    if WasAdmitted(sha512, run, node, payload) {
      var e := EntryOf(sha512, payload);
      EntryKeepsInfo(sha512, payload);
      InsertionIffAdmitted(sha512, run, node, e);
      InsertedIsStored(history, e);
    }
  }

  lemma InsertedIsStored(history: Log, e: Entry<seq<byte>>)
    requires e in history
    ensures exists f :: f in Stored(history) && f.slot == e.slot && f.info == e.info
  {
    hide Stored, Bucket;
    StoredIffInserted(history, e.slot, e.info);
    HasInfoInLog(Stored(history), e.slot, e.info);
  }

  lemma EmptyHoldsNothing(tag: Tag)
    ensures !Holds([], tag)
  {
  }

  /** A node answers `present` for exactly the tags of payloads it accepted at some time. */
  lemma HoldsIffAdmitted(sha512: Hash512, run: seq<Step>, node: nat, tag: Tag)
    ensures Holds(After(sha512, run, node).log, tag)
       <==> && After(sha512, run, node).up
            && exists p :: TagOf(sha512, p) == tag && WasAdmitted(sha512, run, node, p)
  {
    hide Insertions, WasAdmitted, After, TagOf, SlotOf;
    var history := Insertions(sha512, run, node);
    LogIsStored(sha512, run, node);
    EmptyHoldsNothing(tag);
    InsertionsAreDisciplined(sha512, run, node);
    FoundUnderDiscipline(history, Tagger(sha512), tag, []);
    if p :| TagOf(sha512, p) == tag && WasAdmitted(sha512, run, node, p) {
      InsertionIffAdmitted(sha512, run, node, EntryOf(sha512, p));
    }
    if e :| e in history && e.hash == tag {
      InsertionIffAdmitted(sha512, run, node, e);
    }
  }

  /** What is sent for a requested tag hashes to it. */
  lemma ReplyHashes(sha512: Hash512, run: seq<Step>, node: nat, tag: Tag)
    ensures var found := FirstInfo(Bucket(After(sha512, run, node).log, SlotOf(tag)), tag, []);
            && (found != [] <==> Holds(After(sha512, run, node).log, tag))
            && (found != [] ==> && TagOf(sha512, found) == sha512(sha512(found))[..32] == tag
                                && WasAdmitted(sha512, run, node, found))
  {
    hide Insertions, WasAdmitted, After, TagOf, SlotOf, Bucket, HasHash;
    var history := Insertions(sha512, run, node);
    var b := Bucket(After(sha512, run, node).log, SlotOf(tag));
    LogIsStored(sha512, run, node);
    InsertionsAreDisciplined(sha512, run, node);
    FoundUnderDiscipline(history, Tagger(sha512), tag, []);
    if Holds(After(sha512, run, node).log, tag) {
      EmptyHoldsNothing(tag);
      var found := FirstInfo(b, tag, []);
      var e :| e in history && e.info == found;
      InsertionIffAdmitted(sha512, run, node, e);
      AdmittedNotEmpty(sha512, run, node, found);
      EntryMeans(sha512, found);
    } else {
      NotFound(b, tag);
    }
  }

  lemma {:induction false} NotFound(b: Log, hash: seq<byte>)
    requires !HasHash(b, hash)
    ensures FirstInfo(b, hash, []) == []
  {
    if b != [] {
      assert b[0].hash != hash;
      forall k | 0 <= k < |b[1..]| ensures b[1..][k].hash != hash {
        assert b[1..][k] == b[k + 1];
      }
      NotFound(b[1..], hash);
    }
  }

  lemma AdmittedNotEmpty(sha512: Hash512, run: seq<Step>, node: nat, payload: seq<byte>)
    requires WasAdmitted(sha512, run, node, payload)
    ensures payload != []
  {
    hide CheckPow, DecodeData;
  }

  /** The objects sent in answer to a `getdata` are one for each requested tag that is held, in the
      order of the request, and each hashes to the tag it answers. */
  lemma {:induction false} RepliesMatchRequest(sha512: Hash512, run: seq<Step>, node: nat, tags: seq<Tag>)
    ensures var replies, held := Replies(After(sha512, run, node).log, tags), Held(After(sha512, run, node).log, tags);
            && |replies| == |held|
            && forall k :: 0 <= k < |replies| ==>
                 sha512(sha512(replies[k]))[..32] == held[k] && WasAdmitted(sha512, run, node, replies[k])
  {
    hide After, SlotOf, Bucket, Holds, FirstInfo, WasAdmitted;
    if tags != [] {
      RepliesMatchRequest(sha512, run, node, tags[..|tags| - 1]);
      ReplyHashes(sha512, run, node, tags[|tags| - 1]);
    }
  }

  /** What is needed and what is held split the advertised tags. */
  lemma {:induction false} NeededOrHeld(log: Log, tags: seq<Tag>)
    ensures forall tag :: tag in Needed(log, tags) <==> tag in tags && !Holds(log, tag)
    ensures forall tag :: tag in Held(log, tags) <==> tag in tags && Holds(log, tag)
  {
    hide Holds;
    if tags != [] {
      var init, tag := tags[..|tags| - 1], tags[|tags| - 1];
      NeededOrHeld(log, init);
      assert tags == init + [tag];
    }
  }

  /** Both keep the order of what was advertised. */
  lemma {:induction false} NeededInOrder(log: Log, front: seq<Tag>, back: seq<Tag>)
    ensures Needed(log, front + back) == Needed(log, front) + Needed(log, back)
    ensures Held(log, front + back) == Held(log, front) + Held(log, back)
    decreases |back|
  {
    hide Holds;
    if back == [] {
      assert front + back == front;
    } else {
      var init, tag := back[..|back| - 1], back[|back| - 1];
      assert (front + back)[..|front + back| - 1] == front + init;
      NeededInOrder(log, front, init);
    }
  }

  // ----- up and down -----

  ghost predicate EnduredAll(sha512: Hash512, run: seq<Step>, node: nat) {
    forall k :: 0 <= k < |run| && run[k].node == node ==>
      Endures(sha512, After(sha512, run[..k], node).log, run[k].event)
  }

  lemma EnduredLonger(sha512: Hash512, run: seq<Step>, last: Step, node: nat)
    ensures EnduredAll(sha512, run + [last], node)
       <==> && EnduredAll(sha512, run, node)
            && (last.node == node ==> Endures(sha512, After(sha512, run, node).log, last.event))
  {
    hide Endures, After;
    var longer, n := run + [last], |run|;
    assert longer[..n] == run && longer[n] == last;
    assert forall k :: 0 <= k < n ==> longer[k] == run[k] && longer[..k] == run[..k];
  }

  /** A node is up exactly if its listener came back from every event so far. */
  lemma {:induction false} UpIff(sha512: Hash512, run: seq<Step>, node: nat)
    ensures After(sha512, run, node).up <==> EnduredAll(sha512, run, node)
  {
    hide Next, Endures;
    if run != [] {
      var init, last := run[..|run| - 1], run[|run| - 1];
      assert run == init + [last];
      UpIff(sha512, init, node);
      EnduredLonger(sha512, init, last, node);
      NextIsUp(sha512, After(sha512, init, node), last.event);
    }
  }

  lemma NextIsUp(sha512: Hash512, s: State, event: Event)
    ensures Next(sha512, s, event).up <==> s.up && Endures(sha512, s.log, event)
  {
    hide Endures, Validate, DecodeData, Code, Added, EntryOf;
  }

  /** Whatever it stores: a node that is up has received nothing but payloads that decode, and one that
      received nothing else, and no object that throws when handled, is up. */
  lemma UpMeansDecoded(sha512: Hash512, run: seq<Step>, node: nat)
    ensures After(sha512, run, node).up ==>
              forall k :: 0 <= k < |run| && run[k].node == node ==> Decodes(run[k].event)
    ensures (forall k :: 0 <= k < |run| && run[k].node == node ==> Harmless(run[k].event)) ==>
              After(sha512, run, node).up
  {
    hide After, Decodes, DispatchThrows, DecodeData, Passes, Code, EntryOf;
    UpIff(sha512, run, node);
  }

  predicate Harmless(event: Event) {
    Decodes(event) && (event.Arrival? ==> !DispatchThrows(DecodeData(event.payload).value, event.plains))
  }

  /** Once down, a node stays down; so a node that is up was up all the time. */
  lemma UpBefore(sha512: Hash512, run: seq<Step>, k: nat, node: nat)
    requires k <= |run| && After(sha512, run, node).up
    ensures After(sha512, run[..k], node).up
  {
    hide After, Endures;
    UpIff(sha512, run, node);
    UpIff(sha512, run[..k], node);
    assert forall j :: 0 <= j < k ==> run[..k][j] == run[j] && run[..k][..j] == run[..j];
  }

  /** One truncated inventory takes any node down, and everything it held is gone. */
  lemma TruncationStops(sha512: Hash512, run: seq<Step>, node: nat, tag: Tag)
    ensures After(sha512, run + [Step(node, Inv([1]))], node) == STOPPED
    ensures !Holds(After(sha512, run + [Step(node, Inv([1]))], node).log, tag)
  {
    var last := Step(node, Inv([1]));
    assert (run + [last])[..|run|] == run;
    LogIsStored(sha512, run, node);
    OneTagMissing();
    EmptyHoldsNothing(tag);
    hide Holds;
  }

  lemma OneTagMissing()
    ensures DecodeTags([1]).OutOfBytes?
  {
    assert ReadTags([1], 1, 0) == Got([], 1);
  }

  /** What is held stays held as long as the node is up. */
  lemma HoldsForever(sha512: Hash512, run: seq<Step>, k: nat, node: nat, tag: Tag)
    requires k <= |run| && Holds(After(sha512, run[..k], node).log, tag)
    ensures Holds(After(sha512, run, node).log, tag) <==> After(sha512, run, node).up
  {
    hide After, Holds, Admits;
    HoldsIffAdmitted(sha512, run[..k], node, tag);
    HoldsIffAdmitted(sha512, run, node, tag);
    var p :| TagOf(sha512, p) == tag && WasAdmitted(sha512, run[..k], node, p);
    var j :| 0 <= j < k && run[..k][j].node == node && Admits(sha512, run[..k][j].event, p);
    assert run[j] == run[..k][j];
  }

  /** When a single event ends a node that is up: a length with its top bit set, a payload that does not
      decode, or an accepted object that is not passed over as a second one of its chain and that is too
      short for its tag, or is a public key that decrypts to something unreadable. */
  lemma WhatEnds(sha512: Hash512, run: seq<Step>, step: Step)
    requires After(sha512, run, step.node).up
    ensures After(sha512, run + [step], step.node).up <==>
              match step.event
              case Stream(bytes) => |bytes| < 24 || bytes[16] < 128
              case Version(payload) => Framing.DecodeVersion(payload).Got?
              case Inv(payload) => DecodeTags(payload).Got?
              case Getdata(payload) => DecodeTags(payload).Got?
              case Addr(payload) => DecodeAddresses(payload).Got?
              case Publish(_, _) => true
              case Arrival(payload, plains, now) =>
                && DecodeData(payload).Got?
                && var o, log := DecodeData(payload).value, After(sha512, run, step.node).log;
                   || Validate(sha512, payload, o.time, now) != Accepted
                   || (StandsSecond(sha512, log, payload))
                   || !(|| (o.objectType == 1 && o.version == 4 && |o.body| < 32)
                        || (o.objectType == 3 && o.version == 5 && |o.body| < 32)
                        || (o.objectType == 1 && exists k :: 0 <= k < |plains| && Unreadable(plains[k])))
  {
    assert (run + [step])[..|run|] == run;
    var s := After(sha512, run, step.node);
    NextIsUp(sha512, s, step.event);
    if step.event.Stream? {
      Framing.HugeLengthMeans(step.event.bytes);
    } else if step.event.Arrival? && DecodeData(step.event.payload).Got? {
      StandsSecondIff(sha512, s.log, step.event.payload);
      ThrowsMeans(DecodeData(step.event.payload).value, step.event.plains);
    }
    hide After, DispatchThrows, StandsSecond, Framing.HugeLength, Framing.DecodeVersion, DecodeData, DecodeTags;
    hide DecodeAddresses, Validate, Unreadable, Code, EntryOf;
  }

  lemma ThrowsMeans(o: Object, plains: seq<seq<byte>>)
    ensures DispatchThrows(o, plains) <==>
              || (o.objectType == 1 && o.version == 4 && |o.body| < 32)
              || (o.objectType == 3 && o.version == 5 && |o.body| < 32)
              || (o.objectType == 1 && exists k :: 0 <= k < |plains| && Unreadable(plains[k]))
  {
    hide Unreadable;
  }

  /** The chain of the payload holds others but not the payload itself. */
  ghost predicate StandsSecond(sha512: Hash512, log: Log, payload: seq<byte>) {
    var slot := SlotOf(sha512(sha512(payload))[..32]);
    (exists e :: e in log && e.slot == slot) && forall e :: e in log && e.slot == slot ==> e.info != payload
  }

  lemma StandsSecondIff(sha512: Hash512, log: Log, payload: seq<byte>)
    ensures StandsSecond(sha512, log, payload) <==> Code(log, EntryOf(sha512, payload)) == 2
  {
    hide Bucket, SlotOf;
    var slot := SlotOf(sha512(sha512(payload))[..32]);
    EntryMeans(sha512, payload);
    hide EntryOf;
    var b := Bucket(log, slot);
    if e :| e in log && e.slot == slot {
      assert e in b;
    }
    if b != [] {
      assert b[0] in b;
    }
    if HasInfo(b, payload) {
      var k :| 0 <= k < |b| && b[k].info == payload;
      assert b[k] in b;
    } else {
      forall e | e in log && e.slot == slot ensures e.info != payload {
        assert e in b;
        var k :| 0 <= k < |b| && b[k] == e;
      }
    }
  }

  ghost predicate Contains(log: Log, payload: seq<byte>) {
    exists e :: e in log && e.info == payload
  }

  /** The event is an object that decodes and passes the check. */
  ghost predicate BringsObject(sha512: Hash512, event: Event) {
    && (event.Arrival? || event.Publish?) && DecodeData(event.payload).Got?
    && Validate(sha512, event.payload, DecodeData(event.payload).value.time, event.now) == Accepted
  }

  /** What a single event changes at a node that stays up: an object that passes is added at the end of
      the table unless it is there; it is announced if it is the node's own, if its chain was empty, or if
      it was there. Nothing else changes anything, nor does anything that happens at other nodes. */
  lemma WhatChanges(sha512: Hash512, run: seq<Step>, step: Step, other: nat)
    ensures After(sha512, [], other) == State([], [], true)
    ensures other != step.node ==> After(sha512, run + [step], other) == After(sha512, run, other)
    ensures var s, t := After(sha512, run, step.node), After(sha512, run + [step], step.node);
            && (!t.up ==> t == State([], [], false))
            && (t.up && !BringsObject(sha512, step.event) ==> t == s)
            && (t.up && BringsObject(sha512, step.event) ==>
                  var payload, tag := step.event.payload, sha512(sha512(step.event.payload))[..32];
                  && s.up
                  && t.log == (if Contains(s.log, payload) then s.log
                               else s.log + [Entry(tag, payload, SlotOf(tag))])
                  && t.newInv == (if step.event.Publish? || !StandsSecond(sha512, s.log, payload) then s.newInv + [tag]
                                  else s.newInv))
  {
    assert (run + [step])[..|run|] == run;
    var s := After(sha512, run, step.node);
    LogIsStored(sha512, run + [step], step.node);
    NextIsUp(sha512, s, step.event);
    hide Endures, DecodeData, Validate, SlotOf, StandsSecond, Contains, Decodes;
    if s.up && After(sha512, run + [step], step.node).up && BringsObject(sha512, step.event) {
      var payload := step.event.payload;
      ObjectStored(sha512, s, payload, DecodeData(payload).value.time, step.event.now);
      StandsSecondIff(sha512, s.log, payload);
      CodeMeans(sha512, s.log, payload);
      ContainsIff(sha512, run, step.node, payload);
      hide Bucket, HasInfo, Code, EntryOf, Processed, Propagated;
    } else {
      hide Propagated, Processed;
    }
  }

  lemma CodeMeans(sha512: Hash512, log: Log, payload: seq<byte>)
    ensures var chain := Bucket(log, SlotOf(sha512(sha512(payload))[..32]));
            Code(log, EntryOf(sha512, payload)) == 2 <==> !(chain == [] || HasInfo(chain, payload))
  {
    hide Bucket, SlotOf;
    EntryMeans(sha512, payload);
  }

  /** A payload can only be stored in the chain of its own hash. */
  lemma ContainsIff(sha512: Hash512, run: seq<Step>, node: nat, payload: seq<byte>)
    ensures var log := After(sha512, run, node).log;
            Contains(log, payload) <==> HasInfo(Bucket(log, SlotOf(sha512(sha512(payload))[..32])), payload)
  {
    hide After, Bucket, SlotOf;
    var log := After(sha512, run, node).log;
    var b := Bucket(log, SlotOf(sha512(sha512(payload))[..32]));
    StoredIffAdmitted(sha512, run, node, payload);
    EntryMeans(sha512, payload);
    if e :| e in log && e.info == payload {
      assert e in b;
      var k :| 0 <= k < |b| && b[k] == e;
    }
    if k :| 0 <= k < |b| && b[k].info == payload {
      assert b[k] in b;
    }
  }

  // ----- the exchange -----

  predicate Lists(payload: seq<byte>, tags: seq<Tag>) {
    DecodeTags(payload).Got? && DecodeTags(payload).value == tags
  }

  /** The payload reaches `b` after step `j`, not before `a` had accepted it, and less than 3600 seconds
      past its time. */
  ghost predicate ArrivesInTime(sha512: Hash512, run: seq<Step>, j: nat, a: nat, b: nat, p: seq<byte>)
    requires j <= |run|
  {
    exists m, k :: 0 <= m < j <= k < |run| && IsInTime(sha512, run[m], run[k], a, b, p)
  }

  predicate IsInTime(sha512: Hash512, accepting: Step, arriving: Step, a: nat, b: nat, p: seq<byte>) {
    && accepting.node == a && Admits(sha512, accepting.event, p)
    && arriving.node == b && arriving.event.Arrival? && arriving.event.payload == p
    && accepting.event.now <= arriving.event.now
    && DecodeData(p).value.time - arriving.event.now > -PAST
  }

  /** What one node has accepted, another accepts in time. */
  lemma AcceptedAgain(sha512: Hash512, accepting: Step, arriving: Step, a: nat, b: nat, p: seq<byte>)
    requires IsInTime(sha512, accepting, arriving, a, b, p)
    ensures Admits(sha512, arriving.event, p)
  {
    hide Validate, DecodeData, WorkValue;
    ValidityPersists(sha512, p, DecodeData(p).value.time, accepting.event.now, arriving.event.now);
  }

  /** The exchange: an `inv` reaches `b` in step `i`, `b`'s `getdata` reaches `a` in step `j`, and the
      replies reach `b` in later steps, with anything else going on at all nodes meanwhile. If `b` is
      still up at the end it holds every advertised tag that `a` held, if only the object came in time. */
  lemma ExchangeCompletes(sha512: Hash512, run: seq<Step>, i: nat, j: nat, a: nat, b: nat, tags: seq<Tag>, tag: Tag)
    requires i < j < |run| && tag in tags
    requires run[i].node == b && run[i].event.Inv? && Lists(run[i].event.payload, tags)
    requires run[j].node == a && run[j].event.Getdata?
    requires Lists(run[j].event.payload, Needed(After(sha512, run[..i], b).log, tags))
    requires Holds(After(sha512, run[..j], a).log, tag)
    requires forall p ::
               && p in Replies(After(sha512, run[..j], a).log, Needed(After(sha512, run[..i], b).log, tags))
               && TagOf(sha512, p) == tag ==>
                 ArrivesInTime(sha512, run, j, a, b, p)
    ensures Holds(After(sha512, run, b).log, tag) <==> After(sha512, run, b).up
  {
    hide After, Holds, Admits, TagOf, Needed, Replies, IsInTime, Lists;
    var needed := Needed(After(sha512, run[..i], b).log, tags);
    NeededOrHeld(After(sha512, run[..i], b).log, tags);
    if Holds(After(sha512, run[..i], b).log, tag) {
      HoldsForever(sha512, run, i, b, tag);
    } else {
      var p := ReplyFor(sha512, run[..j], a, needed, tag);
      var m, k :| 0 <= m < j <= k < |run| && IsInTime(sha512, run[m], run[k], a, b, p);
      ArrivalAdmits(sha512, run, m, k, a, b, p);
      HoldsIffAdmitted(sha512, run, b, tag);
    }
  }

  lemma ArrivalAdmits(sha512: Hash512, run: seq<Step>, m: nat, k: nat, a: nat, b: nat, p: seq<byte>)
    requires m < |run| && k < |run| && IsInTime(sha512, run[m], run[k], a, b, p)
    ensures WasAdmitted(sha512, run, b, p)
  {
    AcceptedAgain(sha512, run[m], run[k], a, b, p);
    hide Admits;
  }

  lemma {:induction false} ReplyFor(sha512: Hash512, run: seq<Step>, node: nat, tags: seq<Tag>, tag: Tag)
    returns (p: seq<byte>)
    requires tag in tags && Holds(After(sha512, run, node).log, tag)
    ensures p in Replies(After(sha512, run, node).log, tags) && TagOf(sha512, p) == tag
  {
    hide After, TagOf, SlotOf, Bucket, Holds, FirstInfo;
    var log, last := After(sha512, run, node).log, tags[|tags| - 1];
    if last == tag {
      ReplyHashes(sha512, run, node, tag);
      p := FirstInfo(Bucket(log, SlotOf(tag)), tag, []);
    } else {
      p := ReplyFor(sha512, run, node, tags[..|tags| - 1], tag);
    }
  }

  // ----- what is announced -----

  /** The event makes the node announce the tag: the object passes the check and, unless it is the
      node's own, its chain is empty or holds it already. */
  ghost predicate Announces(sha512: Hash512, log: Log, event: Event, tag: Tag) {
    && (event.Publish? || event.Arrival?)
    && Admits(sha512, event, event.payload)
    && tag == TagOf(sha512, event.payload)
    && (event.Publish? || Code(log, EntryOf(sha512, event.payload)) != 2)
  }

  lemma NextAnnounces(sha512: Hash512, s: State, event: Event, tag: Tag)
    requires Next(sha512, s, event).up
    ensures tag in Next(sha512, s, event).newInv <==> tag in s.newInv || Announces(sha512, s.log, event, tag)
  {
    hide DecodeData, DecodeTags, DecodeAddresses, Framing.DecodeVersion, Framing.HugeLength;
    hide Validate, Code, Added, EntryOf, TagOf, DispatchThrows;
  }

  ghost predicate WasAnnounced(sha512: Hash512, run: seq<Step>, node: nat, tag: Tag) {
    exists k :: 0 <= k < |run| && run[k].node == node
                && Announces(sha512, After(sha512, run[..k], node).log, run[k].event, tag)
  }

  lemma AnnouncedLonger(sha512: Hash512, run: seq<Step>, last: Step, node: nat, tag: Tag)
    ensures WasAnnounced(sha512, run + [last], node, tag)
       <==> || WasAnnounced(sha512, run, node, tag)
            || (last.node == node && Announces(sha512, After(sha512, run, node).log, last.event, tag))
  {
    hide Announces, After;
    var longer, n := run + [last], |run|;
    assert longer[..n] == run && longer[n] == last;
    assert forall k :: 0 <= k < n ==> longer[k] == run[k] && longer[..k] == run[..k];
  }

  /** The tags announced over a run are exactly those of such events. */
  lemma {:induction false} AnnouncedIff(sha512: Hash512, run: seq<Step>, node: nat, tag: Tag)
    ensures tag in After(sha512, run, node).newInv
       <==> After(sha512, run, node).up && WasAnnounced(sha512, run, node, tag)
  {
    hide Next, Announces, WasAnnounced;
    LogIsStored(sha512, run, node);
    if run == [] {
      NothingAnnounced(sha512, node, tag);
    } else if After(sha512, run, node).up {
      var init, last := run[..|run| - 1], run[|run| - 1];
      assert run == init + [last];
      AnnouncedIff(sha512, init, node, tag);
      AnnouncedLonger(sha512, init, last, node, tag);
      LogIsStored(sha512, init, node);
      NextInserts(sha512, After(sha512, init, node), last.event);
      if last.node == node {
        NextAnnounces(sha512, After(sha512, init, node), last.event, tag);
      }
    }
  }

  lemma NothingAnnounced(sha512: Hash512, node: nat, tag: Tag)
    ensures !WasAnnounced(sha512, [], node, tag)
  {
  }

  /** So announced tags are held... */
  lemma AnnouncedAreHeld(sha512: Hash512, run: seq<Step>, node: nat, tag: Tag)
    requires tag in After(sha512, run, node).newInv
    ensures Holds(After(sha512, run, node).log, tag)
  {
    hide After, Holds, Admits, TagOf, Code;
    AnnouncedIff(sha512, run, node, tag);
    var k :| 0 <= k < |run| && run[k].node == node
             && Announces(sha512, After(sha512, run[..k], node).log, run[k].event, tag);
    assert WasAdmitted(sha512, run, node, run[k].event.payload);
    HoldsIffAdmitted(sha512, run, node, tag);
  }

  /** An object that passes the check at time 0 and can be handled when no contact waits for keys. */
  predicate Quiet(sha512: Hash512, p: seq<byte>) {
    Passes(sha512, p, 0) && !DispatchThrows(DecodeData(p).value, [])
  }

  /** ...but not every held tag has been announced: of two objects in one chain the second is stored
      in silence, and announced only if it comes in once more. */
  lemma SecondIsSilent(sha512: Hash512, p: seq<byte>, q: seq<byte>)
    requires Quiet(sha512, p) && Quiet(sha512, q)
    requires TagOf(sha512, p) != TagOf(sha512, q) && EntryOf(sha512, p).slot == EntryOf(sha512, q).slot
    ensures var once := [Step(0, Arrival(p, [], 0)), Step(0, Arrival(q, [], 0))];
            var twice := once + [Step(0, Arrival(q, [], 0))];
            var tag := TagOf(sha512, q);
            && Holds(After(sha512, once, 0).log, tag) && tag !in After(sha512, once, 0).newInv
            && tag in After(sha512, twice, 0).newInv
  {
    hide Passes, TagOf, SlotOf, DispatchThrows, Decodes, Quiet;
    var one, two := Step(0, Arrival(p, [], 0)), Step(0, Arrival(q, [], 0));
    var once, twice, tag := [one, two], [one, two, two], TagOf(sha512, q);
    assert [one, two] + [two] == twice;
    QuietAdmits(sha512, p);
    QuietAdmits(sha512, q);
    ChainsOf(EntryOf(sha512, p), EntryOf(sha512, q));
    LogsOf(sha512, p, q);
    hide After, Code, Added;
    assert WasAdmitted(sha512, once, 0, q) by { assert once[1] == two; }
    HoldsIffAdmitted(sha512, once, 0, tag);
    NextAnnounces(sha512, EMPTY, one.event, tag);
    NextAnnounces(sha512, After(sha512, [one], 0), two.event, tag);
    NextAnnounces(sha512, After(sha512, once, 0), two.event, tag);
  }

  lemma QuietAdmits(sha512: Hash512, p: seq<byte>)
    requires Quiet(sha512, p)
    ensures Admits(sha512, Arrival(p, [], 0), p)
    ensures forall log :: Endures(sha512, log, Arrival(p, [], 0))
  {
    hide DispatchThrows, Code, EntryOf, Validate;
  }

  lemma LogsOf(sha512: Hash512, p: seq<byte>, q: seq<byte>)
    requires Quiet(sha512, p) && Quiet(sha512, q)
    requires Added([], EntryOf(sha512, p)) == [EntryOf(sha512, p)]
    requires Added([EntryOf(sha512, p)], EntryOf(sha512, q)) == [EntryOf(sha512, p), EntryOf(sha512, q)]
    ensures var one, two := Step(0, Arrival(p, [], 0)), Step(0, Arrival(q, [], 0));
            var s1 := Next(sha512, EMPTY, one.event);
            var s2 := Next(sha512, s1, two.event);
            && After(sha512, [one], 0) == s1 && s1.log == [EntryOf(sha512, p)]
            && After(sha512, [one, two], 0) == s2 && s2.log == [EntryOf(sha512, p), EntryOf(sha512, q)]
            && After(sha512, [one, two, two], 0) == Next(sha512, s2, two.event)
            && s1.up && s2.up && Next(sha512, s2, two.event).up
  {
    hide Next, Admits, Endures, TagOf, SlotOf, Added, EntryOf, Quiet;
    var one, two := Step(0, Arrival(p, [], 0)), Step(0, Arrival(q, [], 0));
    assert [one][..0] == [] && [one, two][..1] == [one] && [one, two, two][..2] == [one, two];
    QuietAdmits(sha512, p);
    QuietAdmits(sha512, q);
    var s1 := Next(sha512, EMPTY, one.event);
    var s2 := Next(sha512, s1, two.event);
    NextIsUp(sha512, EMPTY, one.event);
    NextIsUp(sha512, s1, two.event);
    NextIsUp(sha512, s2, two.event);
    NextInserts(sha512, EMPTY, one.event);
    NextInserts(sha512, s1, two.event);
  }

  lemma ChainsOf(a: Entry<seq<byte>>, b: Entry<seq<byte>>)
    requires a.slot == b.slot && a.info != b.info
    ensures Added([], a) == [a]
    ensures Code([a], b) == 2 && Added([a], b) == [a, b]
    ensures Code([a, b], b) == 0
  {
    hide Bucket, HasInfo, Code, Added;
    FirstOfChain(a);
    EmptyBucket<seq<byte>>(b.slot);
    BucketOfLonger([], a, b.slot);
    assert [] + [a] == [a] && [a] + [b] == [a, b];
    SecondOfChain([a], a, b);
    BucketOfLonger([a], b, b.slot);
    AlreadyInChain([a, b], a, b);
  }

  lemma SecondOfChain(log: Log, a: Entry<seq<byte>>, b: Entry<seq<byte>>)
    requires Bucket(log, b.slot) == [a] && a.info != b.info
    ensures Code(log, b) == 2 && Added(log, b) == log + [b]
  {
    hide Bucket;
  }

  lemma AlreadyInChain(log: Log, a: Entry<seq<byte>>, b: Entry<seq<byte>>)
    requires Bucket(log, b.slot) == [a] + [b]
    ensures Code(log, b) == 0
  {
    hide Bucket;
    assert Bucket(log, b.slot)[1].info == b.info;
  }

  /** A hash function for which there are two such objects. */
  function Weak512(m: seq<byte>): Digest64 {
    if |m| == 64 then m else Zeros(9) + [if m == [] then 0 else m[|m| - 1]] + Zeros(54)
  }

  function Sample(b: byte): seq<byte> {
    EncodePayload(Object(0, 0, 0, 0, 0, [b]))
  }

  lemma SampleShape(b: byte)
    ensures |Sample(b)| == 23 && Sample(b)[22] == b
  {
  }

  lemma SampleTag(b: byte)
    ensures TagOf(Weak512, Sample(b)) == Zeros(9) + [b] + Zeros(22)
  {
    SampleShape(b);
    hide Sample;
    assert Weak512(Weak512(Sample(b))) == Zeros(9) + [b] + Zeros(54);
  }

  lemma SampleIsQuiet(b: byte)
    ensures Quiet(Weak512, Sample(b))
  {
    var p := Sample(b);
    ObjectReadsBack(Object(0, 0, 0, 0, 0, [b]));
    SampleShape(b);
    NoWork(p);
    hide EncodePayload, DecodeData, WorkValue, CheckPow, TargetOf, Validate;
    ValidateIff(Weak512, p, 0, 0);
  }

  lemma NoWork(p: seq<byte>)
    requires |p| >= 8
    ensures WorkValue(Weak512, p) == 0
  {
    var m := p[..8] + Weak512(p[8..]);
    assert |m| == 72;
    assert Weak512(Weak512(m))[..8] == Zeros(8);
    ValueOfZeros(256, Zeros(8));
  }

  /** The first zero of a chunk hides what follows. */
  lemma SameChain(b: byte, c: byte)
    ensures SlotOf(Zeros(9) + [b] + Zeros(22)) == SlotOf(Zeros(9) + [c] + Zeros(22))
  {
    hide ChunkSum, Padded;
    var s, t := Zeros(9) + [b] + Zeros(22), Zeros(9) + [c] + Zeros(22);
    forall k | 0 <= k < 8 ensures Padded(s[4 * k..4 * k + 4]) == Padded(t[4 * k..4 * k + 4]) {
      assert s[4 * k] == 0 && t[4 * k] == 0;
      ZeroHides(s[4 * k..4 * k + 4]);
      ZeroHides(t[4 * k..4 * k + 4]);
    }
    SameSums(s, t, 8);
  }

  lemma ZeroHides(chunk: seq<byte>)
    requires |chunk| == 4 && chunk[0] == 0
    ensures Padded(chunk) == Zeros(4)
  {
  }

  lemma {:induction false} SameSums(s: seq<byte>, t: seq<byte>, n: nat)
    requires |s| == |t| && 4 * n <= |s|
    requires forall k :: 0 <= k < n ==> Padded(s[4 * k..4 * k + 4]) == Padded(t[4 * k..4 * k + 4])
    ensures ChunkSum(s, n) == ChunkSum(t, n)
  {
    hide Padded, Weigh;
    if n > 0 {
      SameSums(s, t, n - 1);
      assert Padded(s[4 * (n - 1)..4 * (n - 1) + 4]) == Padded(t[4 * (n - 1)..4 * (n - 1) + 4]);
    }
  }

  /** So it does happen that a stored object is never announced. */
  lemma SilenceHappens() returns (sha512: Hash512, run: seq<Step>, tag: Tag)
    ensures Holds(After(sha512, run, 0).log, tag) && tag !in After(sha512, run, 0).newInv
  {
    sha512 := Weak512;
    var p, q := Sample(0), Sample(1);
    SamplesClash();
    hide Sample, Quiet, EntryOf, TagOf, After, Holds;
    SecondIsSilent(sha512, p, q);
    run, tag := [Step(0, Arrival(p, [], 0)), Step(0, Arrival(q, [], 0))], TagOf(sha512, q);
  }

  lemma SamplesClash()
    ensures Quiet(Weak512, Sample(0)) && Quiet(Weak512, Sample(1))
    ensures TagOf(Weak512, Sample(0)) != TagOf(Weak512, Sample(1))
    ensures EntryOf(Weak512, Sample(0)).slot == EntryOf(Weak512, Sample(1)).slot
  {
    hide Sample, Quiet, TagOf, SlotOf;
    SampleIsQuiet(0);
    SampleIsQuiet(1);
    SampleTag(0);
    SampleTag(1);
    SameChain(0, 1);
    assert (Zeros(9) + [0] + Zeros(22))[9] != (Zeros(9) + [1] + Zeros(22))[9];
  }

  /** An object with valid work ends every node that handles it, if its payload is to start with a tag
      and is too short for one. */
  lemma ShortTagStops() returns (sha512: Hash512, payload: seq<byte>)
    ensures Passes(sha512, payload, 0)
    ensures After(sha512, [Step(0, Arrival(payload, [], 0))], 0) == STOPPED
  {
    sha512, payload := Weak512, EncodePayload(Object(0, 0, TYPE_PUBKEY, 4, 0, []));
    ShortTagPasses();
    hide Passes, DispatchThrows, EncodePayload, After;
    StopsAtOnce(sha512, payload);
  }

  lemma StopsAtOnce(sha512: Hash512, payload: seq<byte>)
    requires Passes(sha512, payload, 0) && DispatchThrows(DecodeData(payload).value, [])
    ensures After(sha512, [Step(0, Arrival(payload, [], 0))], 0) == STOPPED
  {
    hide Passes, DispatchThrows, EntryOf, DecodeData;
    var one := Step(0, Arrival(payload, [], 0));
    assert [one][..0] == [];
    FirstOfChain(EntryOf(sha512, payload));
    assert !Endures(sha512, [], one.event);
  }

  lemma ShortTagPasses()
    ensures var payload := EncodePayload(Object(0, 0, TYPE_PUBKEY, 4, 0, []));
            Passes(Weak512, payload, 0) && DispatchThrows(DecodeData(payload).value, [])
  {
    var o := Object(0, 0, TYPE_PUBKEY, 4, 0, []);
    var payload := EncodePayload(o);
    assert 22 <= |payload| <= 30;
    ObjectReadsBack(o);
    NoWork(payload);
    hide EncodePayload, DecodeData, WorkValue, CheckPow, TargetOf, Validate;
    ValidateIff(Weak512, payload, 0, 0);
  }

  lemma FirstOfChain(e: Entry<seq<byte>>)
    ensures Code([], e) == 1 && Added([], e) == [e]
  {
  }

  /** Exchanges do happen: node 0 publishes any object that passes the check, advertises it to node 1,
      is asked for it and delivers it; node 1 holds the tag after that last step and not before. */
  lemma ExchangeHappens(sha512: Hash512, p: seq<byte>) returns (run: seq<Step>, tag: Tag)
    requires Quiet(sha512, p) && DecodeData(p).value.time > -PAST
    ensures |run| == 4 && run[1].node == 1 && run[1].event.Inv? && Lists(run[1].event.payload, [tag])
    ensures run[2].node == 0 && run[2].event.Getdata?
    ensures Lists(run[2].event.payload, Needed(After(sha512, run[..1], 1).log, [tag]))
    ensures Holds(After(sha512, run[..2], 0).log, tag) && !Holds(After(sha512, run[..3], 1).log, tag)
    ensures forall q :: q in Replies(After(sha512, run[..2], 0).log, [tag]) ==> ArrivesInTime(sha512, run, 2, 0, 1, q)
    ensures Holds(After(sha512, run, 1).log, tag)
  {
    tag := TagOf(sha512, p);
    var first, last := Step(0, Publish(p, 0)), Step(1, Arrival(p, [], 0));
    var offer, ask := Step(1, Inv(EncodeTags([tag]))), Step(0, Getdata(EncodeTags([tag])));
    TagsReadBack([tag]);
    PublishedThenArrives(sha512, p);
    assert Harmless(offer.event) && Harmless(ask.event);
    assert Lists(offer.event.payload, [tag]) && Lists(ask.event.payload, [tag]);
    run := [first, offer, ask, last];
    hide Quiet, Admits, TagOf, After, Holds, Replies, Needed, Harmless, EncodeTags, IsInTime, Lists, WasAdmitted;
    FourSteps(sha512, first, offer, ask, last, p);
    TagsAfter(sha512, run, p);
    assert run[0] == first && run[3] == last;
  }

  /** What is held, needed and sent in such a run. */
  lemma TagsAfter(sha512: Hash512, run: seq<Step>, p: seq<byte>)
    requires |run| == 4
    requires WasAdmitted(sha512, run[..2], 0, p) && forall q :: WasAdmitted(sha512, run[..2], 0, q) ==> q == p
    requires forall q :: !WasAdmitted(sha512, run[..1], 1, q) && !WasAdmitted(sha512, run[..3], 1, q)
    requires WasAdmitted(sha512, run, 1, p) && After(sha512, run[..2], 0).up && After(sha512, run, 1).up
    ensures var tag := TagOf(sha512, p);
            && Holds(After(sha512, run[..2], 0).log, tag) && !Holds(After(sha512, run[..3], 1).log, tag)
            && Holds(After(sha512, run, 1).log, tag)
            && Needed(After(sha512, run[..1], 1).log, [tag]) == [tag]
            && forall q :: q in Replies(After(sha512, run[..2], 0).log, [tag]) ==> q == p
  {
    hide After, Holds, TagOf, WasAdmitted, Replies, Needed, FirstInfo, Bucket, SlotOf;
    var tag := TagOf(sha512, p);
    HoldsIffAdmitted(sha512, run[..1], 1, tag);
    HoldsIffAdmitted(sha512, run[..2], 0, tag);
    HoldsIffAdmitted(sha512, run[..3], 1, tag);
    HoldsIffAdmitted(sha512, run, 1, tag);
    OneNeeded(After(sha512, run[..1], 1).log, tag);
    OneReply(After(sha512, run[..2], 0).log, tag);
    ReplyHashes(sha512, run[..2], 0, tag);
  }

  lemma PublishedThenArrives(sha512: Hash512, p: seq<byte>)
    requires Quiet(sha512, p) && DecodeData(p).value.time > -PAST
    ensures var first, last := Step(0, Publish(p, 0)), Step(1, Arrival(p, [], 0));
            && IsInTime(sha512, first, last, 0, 1, p) && Admits(sha512, first.event, p) && Admits(sha512, last.event, p)
            && Harmless(first.event) && Harmless(last.event)
  {
    hide Validate, DecodeData, DispatchThrows;
  }

  /** Who has accepted what, and who is up, in a run of four steps. */
  lemma FourSteps(sha512: Hash512, first: Step, offer: Step, ask: Step, last: Step, p: seq<byte>)
    requires first.node == ask.node == 0 && offer.node == last.node == 1 && offer.event.Inv? && ask.event.Getdata?
    requires first.event.Publish? && Admits(sha512, first.event, p) && Admits(sha512, last.event, p)
    requires Harmless(first.event) && Harmless(offer.event) && Harmless(ask.event) && Harmless(last.event)
    ensures var run := [first, offer, ask, last];
            && WasAdmitted(sha512, run[..2], 0, p) && (forall q :: WasAdmitted(sha512, run[..2], 0, q) ==> q == p)
            && (forall q :: !WasAdmitted(sha512, run[..1], 1, q) && !WasAdmitted(sha512, run[..3], 1, q))
            && WasAdmitted(sha512, run, 1, p)
            && After(sha512, run[..2], 0).up && After(sha512, run, 1).up
  {
    hide Passes, Harmless, After;
    var run := [first, offer, ask, last];
    assert run[..1] == [first] && run[..2] == [first, offer] && run[..3] == [first, offer, ask];
    UpMeansDecoded(sha512, run[..2], 0);
    UpMeansDecoded(sha512, run, 1);
    assert run[..2][0] == first && run[3] == last;
  }

  lemma OneReply(log: Log, tag: Tag)
    ensures var found := FirstInfo(Bucket(log, SlotOf(tag)), tag, []);
            Replies(log, [tag]) == if found == [] then [] else [found]
  {
    hide FirstInfo, Bucket, SlotOf;
    assert [tag][..0] == [];
  }

  lemma OneNeeded(log: Log, tag: Tag)
    ensures Needed(log, [tag]) == if Holds(log, tag) then [] else [tag]
    ensures Held(log, [tag]) == if Holds(log, tag) then [tag] else []
  {
    hide Holds;
    assert [tag][..0] == [];
  }
}
