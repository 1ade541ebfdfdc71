/** Nodes that are stopped and started: what a node holds after any number of sessions, each of which
    loads the file the last orderly end has saved. */
module Sessions {
  import opened Positional
  import opened Hashes
  import opened Inventory
  import opened Objects
  import opened HashFunction
  import opened HashTables
  import opened TableLaws
  import opened Gossip
  import opened Archive
  import Wire

  // ----- going on from a state -----

  /** The state of a node that was in state `s` before the run. */
  ghost function Resume(sha512: Hash512, s: State, run: seq<Step>, node: nat): State {
    if run == [] then s
    else
      var t := Resume(sha512, s, run[..|run| - 1], node);
      var last := run[|run| - 1];
      if last.node == node then Next(sha512, t, last.event) else t
  }

  /** Two states differ in no more than what is queued for the next `inv`. */
  ghost predicate Alike(s: State, t: State) {
    s.log == t.log && s.up == t.up
  }

  lemma NextAlike(sha512: Hash512, s: State, t: State, event: Event)
    requires Alike(s, t)
    ensures Alike(Next(sha512, s, event), Next(sha512, t, event))
  {
    hide Endures, DecodeData, Code, Added, EntryOf;
  }

  /** A run after a run that led to the same table leads to the same table as both together. */
  lemma {:induction false} ResumeIsAfter(sha512: Hash512, s: State, before: seq<Step>, run: seq<Step>, node: nat)
    requires Alike(s, After(sha512, before, node))
    ensures Alike(Resume(sha512, s, run, node), After(sha512, before + run, node))
  {
    hide Next;
    if run == [] {
      assert before + run == before;
    } else {
      var init, last := run[..|run| - 1], run[|run| - 1];
      ResumeIsAfter(sha512, s, before, init, node);
      assert (before + run)[..|before + run| - 1] == before + init;
      NextAlike(sha512, Resume(sha512, s, init, node), After(sha512, before + init, node), last.event);
    }
  }

  // ----- a loaded table is the table of a run -----

  ghost predicate PassedOnce(sha512: Hash512, e: Entry<seq<byte>>) {
    e == EntryOf(sha512, e.info) && exists time :: Passes(sha512, e.info, time)
  }

  /** Publishing the entries again one after the other, each at a time at which it passes the check. */
  lemma {:induction false} Replay(sha512: Hash512, entries: Log, node: nat) returns (run: seq<Step>)
    requires forall k :: 0 <= k < |entries| ==> PassedOnce(sha512, entries[k])
    ensures After(sha512, run, node).up && After(sha512, run, node).log == Stored(entries)
    ensures forall p :: WasAdmitted(sha512, run, node, p) <==> Among(entries, p)
  {
    hide Passes, EntryOf, Added, Next, WasAdmitted, Admits, Among;
    if entries == [] {
      run := [];
      forall p: seq<byte> ensures !WasAdmitted(sha512, [], node, p) && !Among([], p) {
        NothingAdmitted(sha512, node, p);
        AmongNone(p);
      }
    } else {
      var init, e := entries[..|entries| - 1], entries[|entries| - 1];
      var before := Replay(sha512, init, node);
      assert PassedOnce(sha512, e);
      var time :| Passes(sha512, e.info, time);
      run := before + [Step(node, Publish(e.info, time))];
      OneMore(sha512, before, e, time, node);
      forall p: seq<byte>
        ensures WasAdmitted(sha512, run, node, p) <==> Among(entries, p)
      {
        AdmittedLonger(sha512, before, Step(node, Publish(e.info, time)), node, p);
        OnlyIts(sha512, e.info, time, p);
        InfoOfLonger(init, e, p);
        assert entries == init + [e];
      }
    }
  }

  ghost predicate Among(es: Log, p: seq<byte>) {
    exists k :: 0 <= k < |es| && es[k].info == p
  }

  lemma AmongNone(p: seq<byte>)
    ensures !Among([], p)
  {
  }

  lemma InfoOfLonger(es: Log, e: Entry<seq<byte>>, p: seq<byte>)
    ensures Among(es + [e], p) <==> Among(es, p) || e.info == p
  {
    var longer := es + [e];
    assert longer[|es|] == e;
    if k :| 0 <= k < |es| && es[k].info == p {
      assert longer[k] == es[k];
    }
  }

  lemma OnlyIts(sha512: Hash512, payload: seq<byte>, time: int, p: seq<byte>)
    requires Passes(sha512, payload, time)
    ensures Admits(sha512, Publish(payload, time), p) <==> p == payload
  {
    hide Passes;
  }

  lemma OneMore(sha512: Hash512, run: seq<Step>, e: Entry<seq<byte>>, time: int, node: nat)
    requires Passes(sha512, e.info, time) && e == EntryOf(sha512, e.info) && After(sha512, run, node).up
    ensures var longer := run + [Step(node, Publish(e.info, time))];
            && After(sha512, longer, node).up
            && After(sha512, longer, node).log == Added(After(sha512, run, node).log, e)
  {
    hide Passes, EntryOf, Added;
    var last := Step(node, Publish(e.info, time));
    assert (run + [last])[..|run|] == run;
    NextIsUp(sha512, After(sha512, run, node), last.event);
    NextInserts(sha512, After(sha512, run, node), last.event);
    assert PayloadsOf(sha512, last.event) == [e.info];
    hide After, Next;
  }

  /** Loading what a run left on file gives the table of another run: the one that has accepted what
      was accepted then and is still of use. */
  lemma Reload(sha512: Hash512, saved: seq<Step>, node: nat, now: int) returns (run: seq<Step>)
    requires After(sha512, saved, node).up
    ensures Sized(InOrder(After(sha512, saved, node).log, DIM))
    ensures After(sha512, run, node).up
    ensures After(sha512, run, node).log == Stored(LoadFrom(FileBytes(After(sha512, saved, node).log), 0, now).0)
    ensures forall p :: WasAdmitted(sha512, run, node, p)
                   <==> WasAdmitted(sha512, saved, node, p) && Outlives(EntryOf(sha512, p), now)
  {
    hide After, WasAdmitted, LoadFrom, FileBytes, InOrder, Kept, Savable, EntryOf, Outlives, Stored, PassedOnce, Among;
    var log := After(sha512, saved, node).log;
    ReachableIsSavable(sha512, saved, node);
    FileShape(log);
    var entries := Loaded(log, now);
    forall k | 0 <= k < |entries| ensures PassedOnce(sha512, entries[k]) {
      assert entries[k] in entries;
      StoredPassedOnce(sha512, saved, node, entries[k]);
    }
    run := Replay(sha512, entries, node);
    forall p: seq<byte>
      ensures WasAdmitted(sha512, run, node, p)
         <==> WasAdmitted(sha512, saved, node, p) && Outlives(EntryOf(sha512, p), now)
    {
      LoadedIff(sha512, saved, node, now, entries, p);
    }
  }

  /** The insertions a saved table is loaded with, as a part of it. */
  lemma Loaded(log: Log, now: int) returns (entries: Log)
    requires Savable(log) && Sized(InOrder(log, DIM))
    ensures entries == LoadFrom(FileBytes(log), 0, now).0
    ensures forall e :: e in entries <==> e in log && Outlives(e, now)
  {
    hide InOrder, LoadFrom, Records, Savable, Readable, Outlives, Filed;
    FileShape(log);
    Positioned(log);
    LoadRecords(InOrder(log, DIM), FileBytes(log), 0, now);
    entries := Kept(InOrder(log, DIM), now);
    forall e ensures e in InOrder(log, DIM) <==> e in log {
      InOrderIff(log, e);
    }
  }

  lemma Positioned(log: Log)
    requires Sized(InOrder(log, DIM))
    ensures Wire.At(FileBytes(log), 0, Records(InOrder(log, DIM)))
  {
    hide InOrder, Records;
    Wire.AtWhole(FileBytes(log));
  }

  /** The file has every entry of the table. */
  lemma InOrderIff(log: Log, e: Entry<seq<byte>>)
    requires Savable(log)
    ensures e in InOrder(log, DIM) <==> e in log
  {
    hide InOrder, SlotOf, DecodeData, NoEqualInfos;
    InOrderMeans(log, DIM, e);
  }

  lemma StoredPassedOnce(sha512: Hash512, run: seq<Step>, node: nat, e: Entry<seq<byte>>)
    requires e in After(sha512, run, node).log
    ensures PassedOnce(sha512, e)
  {
    hide After, EntryOf, Passes;
    StoredIffAdmitted(sha512, run, node, e.info);
    var k :| 0 <= k < |run| && run[k].node == node && Admits(sha512, run[k].event, e.info);
    assert Passes(sha512, e.info, run[k].event.now);
  }

  lemma LoadedIff(sha512: Hash512, saved: seq<Step>, node: nat, now: int, entries: Log, p: seq<byte>)
    requires After(sha512, saved, node).up
    requires forall e :: e in entries <==> e in After(sha512, saved, node).log && Outlives(e, now)
    ensures Among(entries, p)
       <==> WasAdmitted(sha512, saved, node, p) && Outlives(EntryOf(sha512, p), now)
  {
    hide After, WasAdmitted, EntryOf, Outlives;
    StoredIffAdmitted(sha512, saved, node, p);
    if k :| 0 <= k < |entries| && entries[k].info == p {
      assert entries[k] in entries;
    }
    if WasAdmitted(sha512, saved, node, p) && Outlives(EntryOf(sha512, p), now) {
      var e :| e in After(sha512, saved, node).log && e.info == p;
      assert e in entries;
      var k :| 0 <= k < |entries| && entries[k] == e;
    }
  }

  // ----- any number of sessions -----

  /** A node is started at a time and then takes part in a run. */
  datatype Session = Session(start: int, run: seq<Step>)

  datatype Device = Device(state: State, file: seq<byte>)

  /** A start loads the file into an empty table. An end saves the table, if the node has come so far;
      one that goes down leaves the file as it was. */
  ghost function AfterSessions(sha512: Hash512, sessions: seq<Session>, node: nat): Device {
    if sessions == [] then Device(STOPPED, [])
    else
      var file := AfterSessions(sha512, sessions[..|sessions| - 1], node).file;
      var last := sessions[|sessions| - 1];
      var started := State(Stored(LoadFrom(file, 0, last.start).0), [], true);
      var ended := Resume(sha512, started, last.run, node);
      Device(ended, if ended.up && Sized(InOrder(ended.log, DIM)) then FileBytes(ended.log) else file)
  }

  /** The payload passed the check in the last session, or it was on file and of use when that started. */
  ghost predicate Retained(sha512: Hash512, sessions: seq<Session>, node: nat, p: seq<byte>)
    decreases |sessions|, 1
  {
    sessions != [] &&
    var init, last := sessions[..|sessions| - 1], sessions[|sessions| - 1];
    || WasAdmitted(sha512, last.run, node, p)
    || (OnFile(sha512, init, node, p) && Outlives(EntryOf(sha512, p), last.start))
  }

  /** The payload was retained when the node last ended in order. */
  ghost predicate OnFile(sha512: Hash512, sessions: seq<Session>, node: nat, p: seq<byte>)
    decreases |sessions|, 2
  {
    sessions != [] &&
    if AfterSessions(sha512, sessions, node).state.up then Retained(sha512, sessions, node, p)
    else OnFile(sha512, sessions[..|sessions| - 1], node, p)
  }

  lemma AdmittedInBoth(sha512: Hash512, a: seq<Step>, b: seq<Step>, node: nat, p: seq<byte>)
    ensures WasAdmitted(sha512, a + b, node, p) <==> WasAdmitted(sha512, a, node, p) || WasAdmitted(sha512, b, node, p)
  {
    hide Admits;
    var c := a + b;
    if k :| 0 <= k < |a| && a[k].node == node && Admits(sha512, a[k].event, p) {
      assert c[k] == a[k];
    }
    if k :| 0 <= k < |b| && b[k].node == node && Admits(sha512, b[k].event, p) {
      assert c[|a| + k] == b[k];
    }
    if k :| 0 <= k < |c| && c[k].node == node && Admits(sha512, c[k].event, p) {
      assert c[k] == if k < |a| then a[k] else b[k - |a|];
    }
  }

  lemma EmptyFile(sha512: Hash512, node: nat)
    ensures After(sha512, [], node) == EMPTY && Sized(InOrder([], DIM)) && FileBytes([]) == []
    ensures forall p :: !WasAdmitted(sha512, [], node, p)
  {
    hide InOrder, IsSaved, Admits;
    NothingInOrder();
  }

  lemma NothingInOrder()
    ensures InOrder([], DIM) == []
  {
    hide InOrder, IsSaved;
    var none: Log := [];
    if InOrder(none, DIM) != [] {
      InOrderMeans(none, DIM, InOrder(none, DIM)[0]);
    }
  }

  /** The sessions of a node seen as two single runs: one that leads to the table it has, and one that
      leads to the table it has on file. */
  lemma {:induction false} SessionsAreRuns(sha512: Hash512, sessions: seq<Session>, node: nat)
    returns (now: seq<Step>, saved: seq<Step>)
    ensures var d := AfterSessions(sha512, sessions, node);
            && (sessions != [] ==> Alike(d.state, After(sha512, now, node)))
            && After(sha512, saved, node).up && Sized(InOrder(After(sha512, saved, node).log, DIM))
            && d.file == FileBytes(After(sha512, saved, node).log)
    ensures forall p :: sessions != [] ==> (WasAdmitted(sha512, now, node, p) <==> Retained(sha512, sessions, node, p))
    ensures forall p :: WasAdmitted(sha512, saved, node, p) <==> OnFile(sha512, sessions, node, p)
  {
    hide After, WasAdmitted, LoadFrom, FileBytes, InOrder, Outlives, Stored, Resume, EntryOf;
    if sessions == [] {
      now, saved := [], [];
      EmptyFile(sha512, node);
    } else {
      var init, last := sessions[..|sessions| - 1], sessions[|sessions| - 1];
      var _, before := SessionsAreRuns(sha512, init, node);
      var file := AfterSessions(sha512, init, node).file;
      var started := State(Stored(LoadFrom(file, 0, last.start).0), [], true);
      var replay := Reload(sha512, before, node, last.start);
      now := replay + last.run;
      ResumeIsAfter(sha512, started, replay, last.run, node);
      forall p: seq<byte> ensures WasAdmitted(sha512, now, node, p) <==> Retained(sha512, sessions, node, p) {
        AdmittedInBoth(sha512, replay, last.run, node, p);
      }
      ReachableIsSavable(sha512, now, node);
      FileShape(After(sha512, now, node).log);
      saved := if AfterSessions(sha512, sessions, node).state.up then now else before;
    }
  }

  /** After any number of sessions, with stops, crashes and starts in between: a node that is up stores
      exactly the payloads that passed the check in the last session, or that were on file, and still of
      use, when that began; a tag is present exactly if one of these has it. */
  lemma HoldsAcrossSessions(sha512: Hash512, sessions: seq<Session>, node: nat, payload: seq<byte>, tag: Tag)
    requires sessions != []
    ensures var s := AfterSessions(sha512, sessions, node).state;
            && ((exists e :: e in s.log && e.info == payload) <==> s.up && Retained(sha512, sessions, node, payload))
            && (Holds(s.log, tag)
                <==> s.up && exists p :: TagOf(sha512, p) == tag && Retained(sha512, sessions, node, p))
  {
    hide After, AfterSessions, WasAdmitted, Holds, TagOf, Retained, OnFile, FileBytes, InOrder;
    var now, _ := SessionsAreRuns(sha512, sessions, node);
    StoredIffAdmitted(sha512, now, node, payload);
    HoldsIffAdmitted(sha512, now, node, tag);
  }

  /** Whether a node comes to the end of a session is decided by the events of that session. */
  lemma SessionEnds(sha512: Hash512, sessions: seq<Session>, node: nat)
    requires sessions != []
    ensures var up, run := AfterSessions(sha512, sessions, node).state.up, sessions[|sessions| - 1].run;
            && (up ==> forall k :: 0 <= k < |run| && run[k].node == node ==> Decodes(run[k].event))
            && ((forall k :: 0 <= k < |run| && run[k].node == node ==> Harmless(run[k].event)) ==> up)
  {
    hide Stored, LoadFrom, FileBytes, InOrder, Resume, Decodes, Harmless;
    var last := sessions[|sessions| - 1];
    var file := AfterSessions(sha512, sessions[..|sessions| - 1], node).file;
    ResumeEnds(sha512, State(Stored(LoadFrom(file, 0, last.start).0), [], true), last.run, node);
  }

  lemma {:induction false} ResumeEnds(sha512: Hash512, s: State, run: seq<Step>, node: nat)
    requires s.up
    ensures Resume(sha512, s, run, node).up ==>
              forall k :: 0 <= k < |run| && run[k].node == node ==> Decodes(run[k].event)
    ensures (forall k :: 0 <= k < |run| && run[k].node == node ==> Harmless(run[k].event)) ==>
              Resume(sha512, s, run, node).up
  {
    hide Next, Decodes, DispatchThrows, DecodeData, Code, EntryOf, Passes;
    if run != [] {
      var init, last := run[..|run| - 1], run[|run| - 1];
      ResumeEnds(sha512, s, init, node);
      assert forall k :: 0 <= k < |init| ==> init[k] == run[k];
      NextIsUp(sha512, Resume(sha512, s, init, node), last.event);
    }
  }

  /** A crash costs nothing that was on file: what passed the check in a session that ended in order is
      there again after any number of crashes, as long as it is of use when the last session starts. */
  lemma CrashesLoseNothing(sha512: Hash512, sessions: seq<Session>, i: nat, node: nat, payload: seq<byte>)
    requires i < |sessions| - 1 && WasAdmitted(sha512, sessions[i].run, node, payload)
    requires AfterSessions(sha512, sessions[..i + 1], node).state.up
    requires forall j :: i + 1 < j < |sessions| ==> !AfterSessions(sha512, sessions[..j], node).state.up
    requires AfterSessions(sha512, sessions, node).state.up
    ensures (exists e :: e in AfterSessions(sha512, sessions, node).state.log && e.info == payload) <==>
              || WasAdmitted(sha512, sessions[|sessions| - 1].run, node, payload)
              || (DecodeData(payload).Got? && sessions[|sessions| - 1].start < DecodeData(payload).value.time)
  {
    hide AfterSessions, WasAdmitted, DecodeData, OnFile, Retained;
    assert OnFile(sha512, sessions[..|sessions| - 1], node, payload) by {
      StillOnFile(sha512, sessions, i, |sessions| - 1, node, payload);
    }
    RetainedMeans(sha512, sessions, node, payload);
    StoredIffRetained(sha512, sessions, node, payload);
  }

  lemma StoredIffRetained(sha512: Hash512, sessions: seq<Session>, node: nat, payload: seq<byte>)
    requires sessions != []
    ensures (exists e :: e in AfterSessions(sha512, sessions, node).state.log && e.info == payload) <==>
              AfterSessions(sha512, sessions, node).state.up && Retained(sha512, sessions, node, payload)
  {
    hide AfterSessions, Retained, Holds;
    HoldsAcrossSessions(sha512, sessions, node, payload, sha512(sha512(payload))[..32]);
  }

  lemma RetainedMeans(sha512: Hash512, sessions: seq<Session>, node: nat, p: seq<byte>)
    requires sessions != []
    ensures Retained(sha512, sessions, node, p) <==>
              var init, last := sessions[..|sessions| - 1], sessions[|sessions| - 1];
              || WasAdmitted(sha512, last.run, node, p)
              || (OnFile(sha512, init, node, p) && DecodeData(p).Got? && last.start < DecodeData(p).value.time)
  {
    EntryKeepsInfo(sha512, p);
    hide EntryOf, WasAdmitted, OnFile, DecodeData;
  }

  lemma {:induction false} StillOnFile(sha512: Hash512, sessions: seq<Session>, i: nat, n: nat, node: nat, p: seq<byte>)
    requires i < n <= |sessions| && WasAdmitted(sha512, sessions[i].run, node, p)
    requires AfterSessions(sha512, sessions[..i + 1], node).state.up
    requires forall j :: i + 1 < j <= n ==> !AfterSessions(sha512, sessions[..j], node).state.up
    ensures OnFile(sha512, sessions[..n], node, p)
    decreases n
  {
    hide AfterSessions, WasAdmitted, Outlives, EntryOf;
    var s := sessions[..n];
    assert s[..n - 1] == sessions[..n - 1] && s[n - 1] == sessions[n - 1];
    if n > i + 1 {
      StillOnFile(sha512, sessions, i, n - 1, node, p);
    }
  }
}
