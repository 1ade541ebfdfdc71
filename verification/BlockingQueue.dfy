/** The blocking `Queue` of BitMRC/include/utils.h: its mutex and condition variable as interleaved steps. */
module BlockingQueue {

  /** Where a thread stands inside `push`. `Pushed` still holds the mutex, `Notifying` has released it. */
  datatype Producer<T> = Out | Entering(item: T) | Pushing(item: T) | Pushed | Notifying

  /** Where a thread stands inside `pop`. `woken` says that it has been parked and woken in this call. */
  datatype Consumer = Away | Wanting | Checking(woken: bool) | Taking(woken: bool) | Leaving | Parked | Woken

  datatype Thread = Pusher(i: nat) | Popper(j: nat)

  datatype Option<T> = None | Some(value: T)

  datatype State<T> = State(
    producers: seq<Producer<T>>,
    consumers: seq<Consumer>,
    owner: Option<Thread>,
    queue: seq<T>,
    pushed: seq<T>,
    popped: seq<(nat, T)>
  )

  datatype Step<T> =
    | CallPush(i: nat, item: T) | LockPush(i: nat) | Push(i: nat) | UnlockPush(i: nat)
    | Notify(i: nat, target: Option<nat>)
    | CallPop(j: nat) | LockPop(j: nat) | Check(j: nat) | Take(j: nat) | UnlockPop(j: nat)
    | Spurious(j: nat)

  ghost predicate Init<T(!new)>(s: State<T>) {
    && (forall i :: 0 <= i < |s.producers| ==> s.producers[i] == Out)
    && (forall j :: 0 <= j < |s.consumers| ==> s.consumers[j] == Away)
    && s.owner == None && s.queue == [] && s.pushed == [] && s.popped == []
  }

  /** When a thread may take a step. `notify_one` wakes a parked thread if there is one. */
  ghost predicate Enabled<T(!new)>(s: State<T>, step: Step<T>) {
    match step
    case CallPush(i, _) => i < |s.producers| && s.producers[i] == Out
    case LockPush(i) => i < |s.producers| && s.producers[i].Entering? && s.owner == None
    case Push(i) => i < |s.producers| && s.producers[i].Pushing?
    case UnlockPush(i) => i < |s.producers| && s.producers[i] == Pushed
    case Notify(i, None) => i < |s.producers| && s.producers[i] == Notifying && !SomeParked(s)
    case Notify(i, Some(j)) =>
      i < |s.producers| && s.producers[i] == Notifying && j < |s.consumers| && s.consumers[j] == Parked
    case CallPop(j) => j < |s.consumers| && s.consumers[j] == Away
    case LockPop(j) => j < |s.consumers| && s.consumers[j] in {Wanting, Woken} && s.owner == None
    case Check(j) => j < |s.consumers| && s.consumers[j].Checking?
    case Take(j) => j < |s.consumers| && s.consumers[j].Taking? && s.queue != []
    case UnlockPop(j) => j < |s.consumers| && s.consumers[j] == Leaving
    case Spurious(j) => j < |s.consumers| && s.consumers[j] == Parked
  }

  ghost predicate SomeParked<T(!new)>(s: State<T>) {
    exists j :: 0 <= j < |s.consumers| && s.consumers[j] == Parked
  }

  ghost function Apply<T(!new)>(s: State<T>, step: Step<T>): State<T>
    requires Enabled(s, step)
  {
    match step
    case CallPush(i, item) => s.(producers := s.producers[i := Entering(item)])
    case LockPush(i) => s.(producers := s.producers[i := Pushing(s.producers[i].item)], owner := Some(Pusher(i)))
    case Push(i) =>
      var item := s.producers[i].item;
      s.(producers := s.producers[i := Pushed], queue := s.queue + [item], pushed := s.pushed + [item])
    case UnlockPush(i) => s.(producers := s.producers[i := Notifying], owner := None)
    case Notify(i, None) => s.(producers := s.producers[i := Out])
    case Notify(i, Some(j)) => s.(producers := s.producers[i := Out], consumers := s.consumers[j := Woken])
    case CallPop(j) => s.(consumers := s.consumers[j := Wanting])
    case LockPop(j) => s.(consumers := s.consumers[j := Checking(s.consumers[j] == Woken)], owner := Some(Popper(j)))
    case Check(j) =>
      if s.queue == [] then s.(consumers := s.consumers[j := Parked], owner := None)
      else s.(consumers := s.consumers[j := Taking(s.consumers[j].woken)])
    case Take(j) =>
      s.(consumers := s.consumers[j := Leaving], queue := s.queue[1..], popped := s.popped + [(j, s.queue[0])])
    case UnlockPop(j) => s.(consumers := s.consumers[j := Away], owner := None)
    case Spurious(j) => s.(consumers := s.consumers[j := Woken])
  }

  /** The states a run goes through: each step enabled where it is taken. */
  ghost predicate IsRun<T(!new)>(states: seq<State<T>>, steps: seq<Step<T>>) {
    && |states| == |steps| + 1
    && Init(states[0])
    && forall k :: 0 <= k < |steps| ==> Enabled(states[k], steps[k]) && states[k + 1] == Apply(states[k], steps[k])
  }

  // ----- mutual exclusion -----

  ghost predicate ProducerHolds<T(!new)>(p: Producer<T>) {
    p.Pushing? || p == Pushed
  }

  ghost predicate ConsumerHolds(c: Consumer) {
    c.Checking? || c.Taking? || c == Leaving
  }

  /** The threads inside a locked section are exactly the owner of the mutex. */
  ghost predicate Exclusive<T(!new)>(s: State<T>) {
    && (s.owner.Some? ==>
          if s.owner.value.Pusher? then s.owner.value.i < |s.producers| else s.owner.value.j < |s.consumers|)
    && (forall i :: 0 <= i < |s.producers| ==> (ProducerHolds(s.producers[i]) <==> s.owner == Some(Pusher(i))))
    && (forall j :: 0 <= j < |s.consumers| ==> (ConsumerHolds(s.consumers[j]) <==> s.owner == Some(Popper(j))))
  }

  /** A consumer that has seen an item still finds one: nobody else can have taken it. */
  ghost predicate NoEmptyTake<T(!new)>(s: State<T>) {
    forall j :: 0 <= j < |s.consumers| && s.consumers[j].Taking? ==> s.queue != []
  }

  // ----- order -----

  ghost function Items<T(!new)>(popped: seq<(nat, T)>): seq<T> {
    seq(|popped|, k requires 0 <= k < |popped| => popped[k].1)
  }

  ghost predicate InOrder<T(!new)>(s: State<T>) {
    Items(s.popped) + s.queue == s.pushed
  }

  // ----- wakeups -----

  /** Pushes whose notification is still to come. */
  ghost function Pending<T(!new)>(ps: seq<Producer<T>>): nat {
    if ps == [] then 0
    else Pending(ps[..|ps| - 1]) + if ps[|ps| - 1] == Pushed || ps[|ps| - 1] == Notifying then 1 else 0
  }

  ghost predicate IsWoken(c: Consumer) {
    c == Woken || c == Checking(true) || c == Taking(true)
  }

  ghost function WokenCount(cs: seq<Consumer>): nat {
    if cs == [] then 0 else WokenCount(cs[..|cs| - 1]) + if IsWoken(cs[|cs| - 1]) then 1 else 0
  }

  /** While anybody is parked, every queued item has a notification or a woken consumer on its way. */
  ghost predicate NoLostWakeup<T(!new)>(s: State<T>) {
    SomeParked(s) ==> |s.queue| <= Pending(s.producers) + WokenCount(s.consumers)
  }

  lemma {:induction false} PendingUpdate<T(!new)>(ps: seq<Producer<T>>, i: nat, p: Producer<T>)
    requires i < |ps|
    ensures Pending(ps[i := p]) + (if ps[i] == Pushed || ps[i] == Notifying then 1 else 0)
         == Pending(ps) + if p == Pushed || p == Notifying then 1 else 0
  {
    var n := |ps| - 1;
    if i == n {
      assert ps[i := p][..n] == ps[..n];
    } else {
      PendingUpdate(ps[..n], i, p);
      assert ps[i := p][..n] == ps[..n][i := p];
    }
  }

  lemma {:induction false} WokenUpdate(cs: seq<Consumer>, j: nat, c: Consumer)
    requires j < |cs|
    ensures WokenCount(cs[j := c]) + (if IsWoken(cs[j]) then 1 else 0) == WokenCount(cs) + if IsWoken(c) then 1 else 0
  {
    var n := |cs| - 1;
    if j == n {
      assert cs[j := c][..n] == cs[..n];
    } else {
      WokenUpdate(cs[..n], j, c);
      assert cs[j := c][..n] == cs[..n][j := c];
    }
  }

  // ----- every step keeps them -----

  ghost predicate Inv<T(!new)>(s: State<T>) {
    Exclusive(s) && NoEmptyTake(s) && InOrder(s) && NoLostWakeup(s)
  }

  lemma InitInv<T(!new)>(s: State<T>)
    requires Init(s)
    ensures Inv(s)
  {
  }

  lemma KeepsExclusive<T(!new)>(s: State<T>, step: Step<T>)
    requires Exclusive(s) && NoEmptyTake(s) && Enabled(s, step)
    ensures Exclusive(Apply(s, step)) && NoEmptyTake(Apply(s, step))
  {
  }

  lemma KeepsOrder<T(!new)>(s: State<T>, step: Step<T>)
    requires InOrder(s) && Enabled(s, step)
    ensures InOrder(Apply(s, step))
  {
    if step.Take? {
      assert Items(s.popped + [(step.j, s.queue[0])]) == Items(s.popped) + [s.queue[0]];
    }
  }

  lemma KeepsWakeups<T(!new)>(s: State<T>, step: Step<T>)
    requires NoLostWakeup(s) && Enabled(s, step)
    ensures NoLostWakeup(Apply(s, step))
  {
    var s' := Apply(s, step);
    match step
    case CallPush(i, _) => PendingUpdate(s.producers, i, s'.producers[i]);
    case LockPush(i) => PendingUpdate(s.producers, i, s'.producers[i]);
    case Push(i) => PendingUpdate(s.producers, i, s'.producers[i]);
    case UnlockPush(i) => PendingUpdate(s.producers, i, s'.producers[i]);
    case Notify(i, t) =>
      PendingUpdate(s.producers, i, s'.producers[i]);
      if t.Some? {
        WokenUpdate(s.consumers, t.value, Woken);
      }
    case CallPop(j) => WokenUpdate(s.consumers, j, s'.consumers[j]);
    case LockPop(j) => WokenUpdate(s.consumers, j, s'.consumers[j]);
    case Check(j) => WokenUpdate(s.consumers, j, s'.consumers[j]);
    case Take(j) => WokenUpdate(s.consumers, j, s'.consumers[j]);
    case UnlockPop(j) => WokenUpdate(s.consumers, j, s'.consumers[j]);
    case Spurious(j) => WokenUpdate(s.consumers, j, s'.consumers[j]);
  }

  /** All four properties hold in every state of every run, whatever the interleaving. */
  lemma {:induction false} EveryRun<T(!new)>(states: seq<State<T>>, steps: seq<Step<T>>, k: nat)
    requires IsRun(states, steps) && k < |states|
    ensures Inv(states[k])
  {
    if k == 0 {
      InitInv(states[0]);
    } else {
      EveryRun(states, steps, k - 1);
      KeepsExclusive(states[k - 1], steps[k - 1]);
      KeepsOrder(states[k - 1], steps[k - 1]);
      KeepsWakeups(states[k - 1], steps[k - 1]);
    }
  }

  // ----- what a run has done, read off its steps -----

  /** The item thread `i` has last called `push` with. */
  ghost function LatestCall<T(!new)>(steps: seq<Step<T>>, i: nat): Option<T> {
    if steps == [] then None
    else
      var last := steps[|steps| - 1];
      if last.CallPush? && last.i == i then Some(last.item) else LatestCall(steps[..|steps| - 1], i)
  }

  /** The items callers have passed in, in the order in which their pushes took place. */
  ghost function Given<T(!new)>(steps: seq<Step<T>>): seq<T> {
    if steps == [] then []
    else
      var init, last := steps[..|steps| - 1], steps[|steps| - 1];
      Given(init) + if last.Push? && LatestCall(init, last.i).Some? then [LatestCall(init, last.i).value] else []
  }

  /** The consumers that have taken an item, in order. */
  ghost function Takers<T(!new)>(steps: seq<Step<T>>): seq<nat> {
    if steps == [] then []
    else
      var last := steps[|steps| - 1];
      Takers(steps[..|steps| - 1]) + if last.Take? then [last.j] else []
  }

  ghost function PushCount<T(!new)>(steps: seq<Step<T>>): nat {
    if steps == [] then 0
    else PushCount(steps[..|steps| - 1]) + if steps[|steps| - 1].Push? then 1 else 0
  }

  ghost function Names<T(!new)>(popped: seq<(nat, T)>): seq<nat> {
    seq(|popped|, k requires 0 <= k < |popped| => popped[k].0)
  }

  /** What a thread carries is what it was called with. */
  ghost predicate CarriesCall<T(!new)>(s: State<T>, steps: seq<Step<T>>) {
    forall i :: 0 <= i < |s.producers| ==>
      && (s.producers[i].Entering? ==> LatestCall(steps, i) == Some(s.producers[i].item))
      && (s.producers[i].Pushing? ==> LatestCall(steps, i) == Some(s.producers[i].item))
  }

  ghost predicate Told<T(!new)>(s: State<T>, steps: seq<Step<T>>) {
    && CarriesCall(s, steps)
    && Items(s.popped) + s.queue == Given(steps) && |Given(steps)| == PushCount(steps)
    && Names(s.popped) == Takers(steps)
  }

  lemma StepTells<T(!new)>(s: State<T>, steps: seq<Step<T>>, step: Step<T>)
    requires Told(s, steps) && Enabled(s, step)
    ensures Told(Apply(s, step), steps + [step])
  {
    assert (steps + [step])[..|steps|] == steps;
    StepCarries(s, steps, step);
    if step.Take? {
      var more := s.popped + [(step.j, s.queue[0])];
      assert Items(more) == Items(s.popped) + [s.queue[0]] && Names(more) == Names(s.popped) + [step.j];
    }
    hide CarriesCall;
  }

  lemma StepCarries<T(!new)>(s: State<T>, steps: seq<Step<T>>, step: Step<T>)
    requires CarriesCall(s, steps) && Enabled(s, step)
    ensures CarriesCall(Apply(s, step), steps + [step])
    ensures step.Push? ==> LatestCall(steps, step.i) == Some(s.producers[step.i].item)
  {
    assert (steps + [step])[..|steps|] == steps;
  }

  /** In every run the items popped and those queued are together the items that the pushes of the run
      were called with, one for each and in their order, and the k-th item went to the consumer that
      made the k-th `Take`. */
  lemma {:induction false} NothingLost<T(!new)>(states: seq<State<T>>, steps: seq<Step<T>>, k: nat)
    requires IsRun(states, steps) && k < |states|
    ensures Items(states[k].popped) + states[k].queue == Given(steps[..k])
    ensures |Given(steps[..k])| == PushCount(steps[..k])
    ensures Names(states[k].popped) == Takers(steps[..k])
  {
    RunTells(states, steps, k);
  }

  lemma {:induction false} RunTells<T(!new)>(states: seq<State<T>>, steps: seq<Step<T>>, k: nat)
    requires IsRun(states, steps) && k < |states|
    ensures Told(states[k], steps[..k])
  {
    if k == 0 {
      assert steps[..0] == [];
    } else {
      RunTells(states, steps, k - 1);
      StepTells(states[k - 1], steps[..k - 1], steps[k - 1]);
      assert steps[..k] == steps[..k - 1] + [steps[k - 1]];
    }
  }

  /** A push that nobody comes between goes through: its item is the last in the queue. */
  lemma PushGoesThrough<T(!new)>(s: State<T>, i: nat, item: T)
    requires s.owner == None && i < |s.producers| && s.producers[i] == Out
    ensures Enabled(s, CallPush(i, item))
    ensures var a := Apply(s, CallPush(i, item));
            && Enabled(a, LockPush(i))
            && var b := Apply(a, LockPush(i));
               && Enabled(b, Push(i))
               && var c := Apply(b, Push(i));
                  && Enabled(c, UnlockPush(i))
                  && var d := Apply(c, UnlockPush(i));
                     && d.queue == s.queue + [item] && d.owner == None && d.consumers == s.consumers
                     && d.producers == s.producers[i := Notifying] && d.popped == s.popped
  {
    assert s.producers[i := Entering(item)][i := Pushing(item)] == s.producers[i := Pushing(item)];
    assert s.producers[i := Pushing(item)][i := Pushed] == s.producers[i := Pushed];
    assert s.producers[i := Pushed][i := Notifying] == s.producers[i := Notifying];
  }

  /** A pop that nobody comes between takes the first item, or sleeps if there is none; woken later it
      looks again. */
  lemma PopGoesThrough<T(!new)>(s: State<T>, j: nat)
    requires s.owner == None && j < |s.consumers| && s.consumers[j] in {Away, Woken}
    ensures s.consumers[j] == Away ==>
              Enabled(s, CallPop(j)) && Apply(s, CallPop(j)) == s.(consumers := s.consumers[j := Wanting])
    ensures var a := if s.consumers[j] == Away then s.(consumers := s.consumers[j := Wanting]) else s;
            && Enabled(a, LockPop(j))
            && var b := Apply(a, LockPop(j));
               && Enabled(b, Check(j))
               && var c := Apply(b, Check(j));
                  if s.queue == [] then c == s.(consumers := s.consumers[j := Parked])
                  else
                    && Enabled(c, Take(j))
                    && var d := Apply(c, Take(j));
                       && Enabled(d, UnlockPop(j))
                       && Apply(d, UnlockPop(j)) == s.(consumers := s.consumers[j := Away], queue := s.queue[1..],
                                                       popped := s.popped + [(j, s.queue[0])])
  {
    var w := s.consumers[j] == Woken;
    var cs := if w then s.consumers else s.consumers[j := Wanting];
    assert cs[j := Checking(w)] == s.consumers[j := Checking(w)];
    assert s.consumers[j := Checking(w)][j := Parked] == s.consumers[j := Parked];
    assert s.consumers[j := Checking(w)][j := Taking(w)] == s.consumers[j := Taking(w)];
    assert s.consumers[j := Taking(w)][j := Leaving] == s.consumers[j := Leaving];
    assert s.consumers[j := Leaving][j := Away] == s.consumers[j := Away];
  }

  /** A notification wakes a sleeper, which only then competes for the lock again; it may also wake unasked. */
  lemma NotifyWakes<T(!new)>(s: State<T>, i: nat, j: nat)
    requires i < |s.producers| && s.producers[i] == Notifying && j < |s.consumers| && s.consumers[j] == Parked
    ensures !Enabled(s, LockPop(j)) && !Enabled(s, Notify(i, None)) && Enabled(s, Notify(i, Some(j)))
    ensures Apply(s, Notify(i, Some(j))).consumers == s.consumers[j := Woken]
    ensures Apply(s, Notify(i, Some(j))).producers == s.producers[i := Out]
    ensures Enabled(s, Spurious(j)) && Apply(s, Spurious(j)) == s.(consumers := s.consumers[j := Woken])
  {
  }

  lemma {:induction false} SomePending<T(!new)>(ps: seq<Producer<T>>) returns (i: nat)
    requires Pending(ps) > 0
    ensures i < |ps| && (ps[i] == Pushed || ps[i] == Notifying)
  {
    i := |ps| - 1;
    if !(ps[i] == Pushed || ps[i] == Notifying) {
      i := SomePending(ps[..i]);
    }
  }

  lemma {:induction false} SomeWoken(cs: seq<Consumer>) returns (j: nat)
    requires WokenCount(cs) > 0
    ensures j < |cs| && IsWoken(cs[j])
  {
    j := |cs| - 1;
    if !IsWoken(cs[j]) {
      j := SomeWoken(cs[..j]);
    }
  }

  /** A step inside a call under way, other than a newcomer taking the mutex. */
  ghost predicate Advances<T(!new)>(s: State<T>, step: Step<T>) {
    && Enabled(s, step)
    && !step.CallPush? && !step.CallPop? && !step.Spurious? && !step.LockPush?
    && (step.LockPop? ==> s.consumers[step.j] == Woken)
  }

  /** The owner of the mutex can always go on. */
  lemma OwnerAdvances<T(!new)>(s: State<T>)
    requires Exclusive(s) && NoEmptyTake(s) && s.owner.Some?
    ensures exists step :: Advances(s, step)
  {
    match s.owner.value
    case Pusher(i) =>
      assert ProducerHolds(s.producers[i]);
      assert Advances(s, if s.producers[i] == Pushed then UnlockPush(i) else Push(i));
    case Popper(j) =>
      assert ConsumerHolds(s.consumers[j]);
      assert Advances(s, if s.consumers[j] == Leaving then UnlockPop(j)
                         else if s.consumers[j].Checking? then Check(j) else Take(j));
  }

  /** So no item is left lying with every consumer asleep: whenever somebody is parked and the queue
      is not empty, the owner of the mutex, a notification or a woken consumer can go on. */
  lemma Progress<T(!new)>(s: State<T>)
    requires Inv(s) && SomeParked(s) && s.queue != []
    ensures exists step :: Advances(s, step)
  {
    if s.owner.Some? {
      OwnerAdvances(s);
    } else if Pending(s.producers) > 0 {
      var i := SomePending(s.producers);
      assert !ProducerHolds(s.producers[i]);
      var j :| 0 <= j < |s.consumers| && s.consumers[j] == Parked;
      assert Advances(s, Notify(i, Some(j)));
    } else {
      var j := SomeWoken(s.consumers);
      assert !ConsumerHolds(s.consumers[j]);
      assert Advances(s, LockPop(j));
    }
  }
}
