/** Delivery of decrypted messages and broadcasts: the end of the two overloads of `decryptMsg` in
    BitMRC/BitMRC.cpp, where a message is handed on unless the message table has it already. */
module Delivery {
  import opened Positional
  import opened HashFunction
  import opened HashTables
  import opened TableLaws
  import Ber

  datatype Message = Message(sender: string, to: string, info: seq<byte>, signature: seq<byte>)

  ghost predicate Lawful(run: seq<Entry<Message>>) {
    forall k :: 0 <= k < |run| ==> IsInsertion(run[k])
  }

  /** A message is inserted under its signature, which was taken apart before, in a chain the bucket
      function can give it. */
  ghost predicate IsInsertion(e: Entry<Message>) {
    && e.hash == e.info.signature
    && Ber.DecodePair(e.hash).Got?
    && (exists c0 :: |c0| == 4 && e.slot == Slot(c0, e.hash))
  }

  lemma InsertionSlot(e: Entry<Message>)
    requires IsInsertion(e)
    ensures e.slot == SlotOf(e.info.signature)
  {
    hide Slot, SlotOf, Stable;
    Ber.SignatureIsStable(e.hash);
    var c0 :| |c0| == 4 && e.slot == Slot(c0, e.hash);
    StableSlot(c0, e.hash);
  }

  /** What a run of insertions hands on: every message for which the return code is not zero. */
  ghost function NewMessages(run: seq<Entry<Message>>): seq<Message> {
    if run == [] then []
    else
      var init, e := run[..|run| - 1], run[|run| - 1];
      NewMessages(init) + if Code(Stored(init), e) != 0 then [e.info] else []
  }

  function Messages(run: seq<Entry<Message>>): (ms: seq<Message>)
    ensures |ms| == |run| && forall k :: 0 <= k < |run| ==> ms[k] == run[k].info
  {
    if run == [] then [] else Messages(run[..|run| - 1]) + [run[|run| - 1].info]
  }

  /** The first occurrences, in order. */
  function Distinct(ms: seq<Message>): seq<Message> {
    if ms == [] then []
    else
      var init, m := ms[..|ms| - 1], ms[|ms| - 1];
      Distinct(init) + if m in init then [] else [m]
  }

  /** The insertion of a message is silent exactly when the message came before. */
  lemma SilentIffSeen(run: seq<Entry<Message>>, e: Entry<Message>)
    requires Lawful(run) && IsInsertion(e)
    ensures Code(Stored(run), e) == 0 <==> e.info in Messages(run)
  {
    hide Stored, Bucket, HasInfo, Slot, SlotOf, Messages, IsInsertion;
    StoredIffInserted(run, e.slot, e.info);
    InsertionSlot(e);
    if e.info in Messages(run) {
      var k :| 0 <= k < |run| && Messages(run)[k] == e.info;
      InsertionSlot(run[k]);
      assert run[k] in run && run[k].slot == e.slot;
    }
    if HasInfo(Bucket(Stored(run), e.slot), e.info) {
      var f :| f in run && f.slot == e.slot && f.info == e.info;
      var k :| 0 <= k < |run| && run[k] == f;
      assert Messages(run)[k] == e.info;
    }
  }

  /** The messages handed on are the distinct messages in the order of their first arrival, as long as
      no other thread comes between the insertion of a message and its push. */
  lemma {:induction false} ExactlyOnce(run: seq<Entry<Message>>)
    requires Lawful(run)
    ensures NewMessages(run) == Distinct(Messages(run))
  {
    hide Stored, Code, IsInsertion;
    if run != [] {
      var init, e := run[..|run| - 1], run[|run| - 1];
      assert Messages(run)[..|run| - 1] == Messages(init);
      ExactlyOnce(init);
      SilentIffSeen(init, e);
    }
  }

  /** One more arrival is handed on last, unless its message came before. */
  lemma ArrivalHandsOn(run: seq<Entry<Message>>, e: Entry<Message>)
    requires Lawful(run) && IsInsertion(e)
    ensures NewMessages([]) == [] && Messages(run + [e]) == Messages(run) + [e.info]
    ensures NewMessages(run + [e])
         == if exists k :: 0 <= k < |run| && run[k].info == e.info then NewMessages(run)
            else NewMessages(run) + [e.info]
  {
    hide IsInsertion, Code, Stored, NewMessages, Messages;
    Extends(run, e);
    SilentIffSeen(run, e);
    if e.info in Messages(run) {
      var k :| 0 <= k < |run| && Messages(run)[k] == e.info;
      assert run[k].info == e.info;
    }
    if k :| 0 <= k < |run| && run[k].info == e.info {
      assert Messages(run)[k] == e.info;
    }
    NothingNew();
  }

  lemma NothingNew()
    ensures NewMessages([]) == []
  {
  }

  /** Whatever else arrives, a message is handed on once if it arrives at all. */
  lemma {:induction false} OnceIfArrived(run: seq<Entry<Message>>, m: Message)
    requires Lawful(run)
    ensures multiset(NewMessages(run))[m] == if m in Messages(run) then 1 else 0
  {
    hide Stored, Code, IsInsertion;
    if run != [] {
      var init, e := run[..|run| - 1], run[|run| - 1];
      OnceIfArrived(init, m);
      assert Messages(run) == Messages(init) + [e.info];
      if e.info == m {
        SilentIffSeen(init, e);
      }
    }
  }

  /** No message is handed on that did not arrive. */
  lemma {:induction false} NothingInvented(run: seq<Entry<Message>>, m: Message)
    requires m in NewMessages(run)
    ensures m in Messages(run)
  {
    hide Stored, Code;
    if run != [] {
      var init := run[..|run| - 1];
      assert Messages(run)[|run| - 1] == run[|run| - 1].info;
      if m in NewMessages(init) {
        NothingInvented(init, m);
        var k :| 0 <= k < |init| && Messages(init)[k] == m;
        assert Messages(run)[k] == m;
      }
    }
  }

  // ----- several listeners at once -----

  /** Insertion and push are two critical sections; a message waits in between. */
  datatype Traffic = Traffic(history: seq<Entry<Message>>, waiting: seq<Message>, queue: seq<Message>)

  datatype Move = Insert(e: Entry<Message>) | Push(i: nat)

  ghost predicate CanMove(t: Traffic, move: Move) {
    match move
    case Insert(e) => IsInsertion(e)
    case Push(i) => i < |t.waiting|
  }

  ghost function Moved(t: Traffic, move: Move): Traffic
    requires CanMove(t, move)
  {
    match move
    case Insert(e) =>
      Traffic(t.history + [e], t.waiting + if Code(Stored(t.history), e) != 0 then [e.info] else [], t.queue)
    case Push(i) => Traffic(t.history, t.waiting[..i] + t.waiting[i + 1..], t.queue + [t.waiting[i]])
  }

  ghost predicate IsRun(states: seq<Traffic>, moves: seq<Move>) {
    && |states| == |moves| + 1 && states[0] == Traffic([], [], [])
    && forall k :: 0 <= k < |moves| ==> CanMove(states[k], moves[k]) && states[k + 1] == Moved(states[k], moves[k])
  }

  /** In every interleaving what is queued and what waits is, each once, what was to be handed on. */
  ghost predicate Accounted(t: Traffic) {
    Lawful(t.history) && multiset(t.queue) + multiset(t.waiting) == multiset(NewMessages(t.history))
  }

  lemma MoveAccounts(t: Traffic, move: Move)
    requires Accounted(t) && CanMove(t, move)
    ensures Accounted(Moved(t, move))
  {
    hide Stored, Code, IsInsertion, NewMessages;
    match move
    case Insert(e) =>
      Extends(t.history, e);
    case Push(i) =>
      assert t.waiting == t.waiting[..i] + [t.waiting[i]] + t.waiting[i + 1..];
  }

  /** The messages that the insertions so far brought. */
  function Inserted(moves: seq<Move>): seq<Message> {
    if moves == [] then []
    else
      var last := moves[|moves| - 1];
      Inserted(moves[..|moves| - 1]) + if last.Insert? then [last.e.info] else []
  }

  function Pushes(moves: seq<Move>): nat {
    if moves == [] then 0
    else Pushes(moves[..|moves| - 1]) + if moves[|moves| - 1].Push? then 1 else 0
  }

  /** The history is that of the moves, and the queue has grown by each push. */
  ghost predicate Told(t: Traffic, moves: seq<Move>) {
    Messages(t.history) == Inserted(moves) && |t.queue| == Pushes(moves)
  }

  lemma MoveTells(t: Traffic, moves: seq<Move>, move: Move)
    requires CanMove(t, move) && Told(t, moves)
    ensures Told(Moved(t, move), moves + [move])
  {
    hide Stored, Code, IsInsertion, NewMessages, Messages;
    assert (moves + [move])[..|moves|] == moves;
    if move.Insert? {
      Extends(t.history, move.e);
    }
  }

  lemma NothingYet()
    ensures Accounted(Traffic([], [], [])) && Told(Traffic([], [], []), [])
  {
  }

  lemma {:induction false} EveryStateAccounts(states: seq<Traffic>, moves: seq<Move>, k: nat)
    requires IsRun(states, moves) && k < |states|
    ensures Accounted(states[k]) && Told(states[k], moves[..k])
  {
    hide Accounted, CanMove, Moved, Told;
    NothingYet();
    if k == 0 {
      assert moves[..0] == [];
    } else {
      EveryStateAccounts(states, moves, k - 1);
      assert moves[..k] == moves[..k - 1] + [moves[k - 1]];
      MoveAccounts(states[k - 1], moves[k - 1]);
      MoveTells(states[k - 1], moves[..k - 1], moves[k - 1]);
    }
  }

  lemma {:induction false} InsertedIff(moves: seq<Move>, m: Message)
    ensures m in Inserted(moves) <==> WasInserted(moves, m)
  {
    if moves != [] {
      var init := moves[..|moves| - 1];
      InsertedIff(init, m);
      if k :| 0 <= k < |init| && init[k].Insert? && init[k].e.info == m {
        assert moves[k] == init[k];
      }
      if k :| 0 <= k < |moves| && moves[k].Insert? && moves[k].e.info == m {
        assert k < |init| ==> init[k] == moves[k];
      }
    }
  }

  ghost predicate WasInserted(moves: seq<Move>, m: Message) {
    exists k :: 0 <= k < |moves| && moves[k].Insert? && moves[k].e.info == m
  }

  /** However many listeners there are: no message is ever queued twice or without having been inserted,
      and once none is waiting every message that was inserted is queued. The queue grows by every push,
      and waiting is what was inserted and has not been pushed. */
  lemma OnceInEveryInterleaving(states: seq<Traffic>, moves: seq<Move>, k: nat, m: Message)
    requires IsRun(states, moves) && k < |states|
    ensures var t, inserted := states[k], if WasInserted(moves[..k], m) then 1 else 0;
            && multiset(t.queue)[m] + multiset(t.waiting)[m] == inserted
            && |t.queue| == Pushes(moves[..k])
  {
    EveryStateAccounts(states, moves, k);
    hide IsRun, IsInsertion, NewMessages, Messages;
    OnceIfArrived(states[k].history, m);
    InsertedIff(moves[..k], m);
    assert (multiset(states[k].queue) + multiset(states[k].waiting))[m] == multiset(NewMessages(states[k].history))[m];
  }

  class Inbox {
    const messages: HashTable<Message>
    var newMessages: seq<Message>
    ghost var History: seq<Entry<Message>>
    ghost var Repr: set<object>

    ghost predicate Valid()
      reads this, Repr
    {
      && this in Repr && messages in Repr && messages.Repr <= Repr && this !in messages.Repr
      && messages.Valid() && messages.Log == Stored(History)
      && newMessages == NewMessages(History) && Lawful(History)
    }

    constructor ()
      ensures Valid() && fresh(Repr) && History == []
    {
      messages := new HashTable<Message>();
      newMessages, History := [], [];
      new;
      Repr := {this} + messages.Repr;
    }

    method Deliver(mess: Message)
      requires Valid() && Ber.DecodePair(mess.signature).Got?
      modifies Repr
      ensures Valid() && fresh(Repr - old(Repr))
      ensures |History| == |old(History)| + 1 && History[..|old(History)|] == old(History)
      ensures Messages(History) == Messages(old(History)) + [mess]
    {
      hide Stored, Code, Added, Stable, Slot, SlotOf, NewMessages, Messages, Ber.DecodePair;
      ghost var history := History;
      var ret;
      ghost var e;
      ret, e := messages.Insert(mess, mess.signature);
      if ret != 0 {
        newMessages := newMessages + [mess];
      }
      Extends(history, e);
      History := history + [e];
      Repr := Repr + messages.Repr;
    }
  }

  lemma Extends(history: seq<Entry<Message>>, e: Entry<Message>)
    ensures Stored(history + [e]) == Added(Stored(history), e)
    ensures NewMessages(history + [e]) == NewMessages(history) + if Code(Stored(history), e) != 0 then [e.info] else []
    ensures Messages(history + [e]) == Messages(history) + [e.info]
  {
    assert (history + [e])[..|history|] == history;
  }
}
