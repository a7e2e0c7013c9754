/**
 What every interleaving of the channel's threads keeps, and the four ways in
 which a disconnection can go unnoticed, each with the exact condition
 under which it does (that of the third is in `ChannelDrops`).
 */
module ChannelProperties {
  import opened Wrappers
  import opened Channel

  // ---------- Runs ----------

  lemma {:induction false} RunKeepsInv(s: State, acts: seq<Step>)
    requires Inv(s) && Executable(s, acts)
    ensures Inv(After(s, acts))
    decreases |acts|
  {
    hide Apply, Enabled, Inv;
    if acts != [] {
      InvPreserved(s, acts[0]);
      RunKeepsInv(Apply(s, acts[0]), acts[1..]);
    }
  }

  /** Every state reached from a freshly opened channel satisfies the invariant. */
  lemma ReachableInv(acts: seq<Step>)
    requires Executable(Open(), acts)
    ensures Inv(After(Open(), acts))
  {
    RunKeepsInv(Open(), acts);
  }

  lemma {:induction false} RunAppend(s: State, acts: seq<Step>, more: seq<Step>)
    requires Executable(s, acts) && Executable(After(s, acts), more)
    ensures Executable(s, acts + more) && After(s, acts + more) == After(After(s, acts), more)
    decreases |acts|
  {
    hide Apply, Enabled;
    if acts == [] {
      assert acts + more == more;
    } else {
      RunAppend(Apply(s, acts[0]), acts[1..], more);
      assert (acts + more)[1..] == acts[1..] + more;
    }
  }

  lemma {:induction false} HistoryGrows(s: State, acts: seq<Step>)
    requires Executable(s, acts)
    ensures s.log <= After(s, acts).log
    ensures s.pushed <= After(s, acts).pushed
    ensures s.delivered <= After(s, acts).delivered
    decreases |acts|
  {
    if acts != [] {
      HistoryGrows(Apply(s, acts[0]), acts[1..]);
    }
  }

  // ---------- Refusals ----------

  /**
   Once some call has refused (a `send` returned false, or a `receive` returned
   nothing), every call that returns later refuses too, and no message refused
   so far is ever delivered. `acts` is any run up to now, `more` any run from there.
   */
  lemma RefusalIsFinal(acts: seq<Step>, more: seq<Step>, i: nat, j: nat)
    requires Executable(Open(), acts) && Executable(After(Open(), acts), more)
    ensures var s, s' := After(Open(), acts), After(After(Open(), acts), more);
            i < |s.log| && IsRefusal(s.log[i]) ==>
              && (i < j < |s'.log| ==> IsRefusal(s'.log[j]))
              && (s.log[i].Sent? ==> |s'.delivered| <= s.log[i].ticket < |s.pushed|)
  {
    var s := After(Open(), acts);
    var s' := After(s, more);
    ReachableInv(acts);
    RunKeepsInv(s, more);
    HistoryGrows(s, more);
    if i < |s.log| {
      assert s'.log[i] == s.log[i];
    }
  }

  /** The moment a refusal is decided under the mutex, the tag can no longer change. */
  lemma {:induction false} RefusedTagStays(s: State, more: seq<Step>)
    requires Inv(s) && Executable(s, more)
    requires Refused(s) || s.receiver == RClosed || exists t :: At(s, t, SRefused)
    ensures After(s, more).tag == Disconnected
  {
    NoStorePendingWhenRefused(s);
    DisconnectedSticks(s, more);
  }

  // ---------- The raw store of Disconnected ----------

  /** A thread holding the mutex has already decided to overwrite the tag. */
  ghost predicate StorePending(s: State) {
    || (exists t :: At(s, t, SConnected))
    || s.receiver.RPoppedLast?
    || (s.receiver == RFull && |s.queue| == 1)
  }

  lemma NoStorePendingWhenRefused(s: State)
    requires Inv(s)
    requires Refused(s) || s.receiver == RClosed || exists t :: At(s, t, SRefused)
    ensures s.tag == Disconnected && !StorePending(s)
  {
  }

  lemma StickyStep(s: State, a: Step)
    requires Inv(s) && Enabled(s, a) && s.tag == Disconnected && !StorePending(s)
    ensures Apply(s, a).tag == Disconnected && !StorePending(Apply(s, a))
  {
    var s' := Apply(s, a);
    assert forall t :: At(s', t, SConnected) ==> At(s, t, SConnected);
  }

  lemma {:induction false} DisconnectedSticks(s: State, more: seq<Step>)
    requires Inv(s) && Executable(s, more) && s.tag == Disconnected && !StorePending(s)
    ensures After(s, more).tag == Disconnected
    decreases |more|
  {
    hide Apply, Enabled, Inv, StorePending;
    if more != [] {
      StickyStep(s, more[0]);
      InvPreserved(s, more[0]);
      DisconnectedSticks(Apply(s, more[0]), more[1..]);
    }
  }

  /** The steps by which the pending store lands. */
  lemma PendingStoreLands(s: State) returns (more: seq<Step>)
    requires Inv(s) && StorePending(s)
    ensures Executable(s, more) && After(s, more).tag != Disconnected
  {
    if t :| At(s, t, SConnected) {
      more := [SendStoreTag(t)];
    } else if s.receiver.RPoppedLast? {
      more := [ReceiveStoreTag];
    } else {
      more := [ReceivePop, ReceiveStoreTag];
      var s1 := Apply(s, ReceivePop);
      assert more[1..] == [ReceiveStoreTag];
      assert Executable(s1, [ReceiveStoreTag]);
    }
  }

  /**
   `Disconnected` is not absorbing. A tag of `Disconnected` survives every
   continuation exactly when no mutex holder is past its load of the tag and
   on its way to a store.
   */
  lemma DisconnectedSticksIff(acts: seq<Step>)
    requires Executable(Open(), acts) && After(Open(), acts).tag == Disconnected
    ensures (forall more :: Executable(After(Open(), acts), more) ==>
                              After(After(Open(), acts), more).tag == Disconnected)
            <==> !StorePending(After(Open(), acts))
  {
    var s := After(Open(), acts);
    ReachableInv(acts);
    if StorePending(s) {
      var more := PendingStoreLands(s);
    } else {
      forall more | Executable(s, more) ensures After(s, more).tag == Disconnected {
        DisconnectedSticks(s, more);
      }
    }
  }

  // ---------- Tag, queue and wake-ups ----------

  /** With the mutex free the tag describes the queue; `front` and `pop` never
      run on an empty queue at all. */
  lemma TagDescribesQueue(acts: seq<Step>)
    requires Executable(Open(), acts)
    ensures var s := After(Open(), acts);
            && (s.holder == None && s.tag == NewMessage ==> s.queue != [])
            && (s.holder == None && s.tag == UpToDate ==> s.queue == [])
            && (s.receiver == RFull ==> s.queue != [])
            && !s.fault
  {
    ReachableInv(acts);
  }

  /**
   No wake-up is lost for an accepted message: with the mutex free, a receiver
   that is blocked and not notified has been delivered every message whose
   `send` returned true, and the tag does not announce a message.
   */
  lemma NoLostWakeUp(acts: seq<Step>)
    requires Executable(Open(), acts)
    ensures var s := After(Open(), acts);
            s.holder == None && s.receiver == RBlocked(false) ==>
              && s.tag != NewMessage
              && forall i :: 0 <= i < |s.log| && s.log[i].Sent? && s.log[i].accepted ==>
                   s.log[i].ticket < |s.delivered|
  {
    ReachableInv(acts);
    var s := After(Open(), acts);
    assert forall t :: At(s, t, SStored) ==> SenderHolds(s.senders[t]);
  }

  // ---------- Order ----------

  /** The messages of one sender handle. */
  function From(t: nat, entries: seq<Entry>): seq<Message> {
    if entries == [] then []
    else
      From(t, entries[..|entries| - 1])
      + (if entries[|entries| - 1].sender == t then [entries[|entries| - 1].message] else [])
  }

  lemma {:induction false} FromConcat(t: nat, xs: seq<Entry>, ys: seq<Entry>)
    ensures From(t, xs + ys) == From(t, xs) + From(t, ys)
  {
    if ys == [] {
      assert xs + ys == xs;
    } else {
      assert (xs + ys)[..|xs + ys| - 1] == xs + ys[..|ys| - 1];
      FromConcat(t, xs, ys[..|ys| - 1]);
    }
  }

  /** The messages for which the owner of handle `t` called `send`, in order. */
  function Calls(t: nat, acts: seq<Step>): seq<Message> {
    if acts == [] then []
    else (if acts[0].SendLock? && acts[0].t == t then [acts[0].message] else []) + Calls(t, acts[1..])
  }

  function InFlight(s: State, t: nat): seq<Message> {
    if t in s.senders && s.senders[t].SLocked? then [s.senders[t].message] else []
  }

  lemma CallsPush(s: State, a: Step, t: nat)
    requires Enabled(s, a) && a.SendPush?
    ensures From(t, Apply(s, a).pushed) + InFlight(Apply(s, a), t) == From(t, s.pushed) + InFlight(s, t)
  {
    var e := Entry(a.t, s.senders[a.t].message);
    FromConcat(t, s.pushed, [e]);
    assert [e][..0] == [] && From(t, []) == [];
  }

  lemma CallsStep(s: State, a: Step, t: nat)
    requires Enabled(s, a)
    ensures From(t, Apply(s, a).pushed) + InFlight(Apply(s, a), t)
            == From(t, s.pushed) + InFlight(s, t) + Calls(t, [a])
  {
    if a.SendPush? {
      CallsPush(s, a, t);
    } else {
      assert Apply(s, a).pushed == s.pushed;
    }
    assert [a][1..] == [];
  }

  lemma CallsSplit(t: nat, acts: seq<Step>)
    requires acts != []
    ensures Calls(t, acts) == Calls(t, [acts[0]]) + Calls(t, acts[1..])
  {
    assert [acts[0]][1..] == [];
  }

  lemma {:induction false} CallsArePushedInOrder(s: State, acts: seq<Step>, t: nat)
    requires Executable(s, acts)
    ensures From(t, After(s, acts).pushed) + InFlight(After(s, acts), t)
            == From(t, s.pushed) + InFlight(s, t) + Calls(t, acts)
    decreases |acts|
  {
    hide Apply, Enabled, From, InFlight;
    if acts != [] {
      var s1 := Apply(s, acts[0]);
      CallsStep(s, acts[0], t);
      CallsArePushedInOrder(s1, acts[1..], t);
      CallsSplit(t, acts);
    }
  }

  /**
   First in, first out, with nothing lost from the middle, duplicated or
   reordered. What calls of `receive` returned, then the message in the
   receiver's hands, then the queue, is what was pushed; and for each sender
   handle what was delivered, then what is queued, then what is about to be
   pushed, are its own calls of `send` in their own order.
   */
  lemma FifoConservation(acts: seq<Step>, t: nat)
    requires Executable(Open(), acts)
    ensures var s := After(Open(), acts);
            && Deliveries(s.log) + InHand(s.receiver) + s.queue == s.pushed
            && From(t, Deliveries(s.log) + InHand(s.receiver)) + From(t, s.queue) + InFlight(s, t)
               == Calls(t, acts)
  {
    var s := After(Open(), acts);
    ReachableInv(acts);
    CallsArePushedInOrder(Open(), acts, t);
    FromConcat(t, s.delivered, s.queue);
  }

  // ---------- Disconnections that go unnoticed ----------

  /** One more step at the end of a run. */
  lemma Then(acts: seq<Step>, a: Step) returns (longer: seq<Step>)
    requires Executable(Open(), acts) && Enabled(After(Open(), acts), a)
    ensures longer == acts + [a] && Executable(Open(), longer)
    ensures After(Open(), longer) == Apply(After(Open(), acts), a)
  {
    longer := acts + [a];
    RunAppend(Open(), acts, [a]);
  }

  lemma OpenRuns()
    ensures Executable(Open(), []) && After(Open(), []) == Open()
  {
  }

  /** The destructor of the last sender handle, up to its store. */
  lemma StoreLast(acts: seq<Step>) returns (r: seq<Step>)
    requires Executable(Open(), acts)
    requires var s := After(Open(), acts); At(s, 0, SIdle) && 0 !in s.borrowed && s.handles == 2
    ensures Executable(Open(), r)
    ensures var s := After(Open(), acts);
            After(Open(), r) == s.(tag := Disconnected, senders := s.senders[0 := SDropNotify])
  {
    r := Then(acts, DropTest(0));
    r := Then(r, DropStore(0));
  }

  /** The last sender handle is dropped from start to end. */
  lemma DropLast(acts: seq<Step>) returns (r: seq<Step>)
    requires Executable(Open(), acts)
    requires var s := After(Open(), acts); At(s, 0, SIdle) && 0 !in s.borrowed && s.handles == 2
    ensures Executable(Open(), r)
    ensures var s := After(Open(), acts);
            After(Open(), r) == s.(tag := Disconnected, senders := s.senders[0 := SGone],
                                   receiver := Notified(s.receiver), handles := 1)
  {
    hide Executable, After;
    r := StoreLast(acts);
    r := Then(r, DropNotify(0));
    r := Then(r, DropRelease(0));
  }

  /** The receiver, idle with the mutex free, is called and gets as far as the switch. */
  lemma CallReceive(acts: seq<Step>) returns (r: seq<Step>)
    requires Executable(Open(), acts)
    requires After(Open(), acts).receiver == RIdle && After(Open(), acts).holder == None
    ensures Executable(Open(), r)
    ensures After(Open(), r) == After(Open(), acts).(receiver := RLocked, holder := Some(ByReceiver))
  {
    r := Then(acts, ReceiveCall);
    r := Then(r, ReceiveLock);
  }

  /** A call of `send` on handle 0 up to and including its load of the tag. */
  lemma StartSend(acts: seq<Step>, m: Message) returns (r: seq<Step>)
    requires Executable(Open(), acts)
    requires var s := After(Open(), acts); At(s, 0, SIdle) && s.holder == None && s.tag != Disconnected
    ensures Executable(Open(), r)
    ensures var s := After(Open(), acts);
            After(Open(), r) == s.(holder := Some(BySender(0)), senders := s.senders[0 := SConnected],
                                   queue := s.queue + [Entry(0, m)], pushed := s.pushed + [Entry(0, m)])
  {
    r := Then(acts, SendLock(0, m));
    r := Then(r, SendPush(0));
    r := Then(r, SendLoadTag(0));
  }

  /** The store and the notification of that call. */
  lemma PublishSend(acts: seq<Step>) returns (r: seq<Step>)
    requires Executable(Open(), acts) && At(After(Open(), acts), 0, SConnected)
    ensures Executable(Open(), r)
    ensures var s := After(Open(), acts);
            After(Open(), r) == s.(senders := s.senders[0 := SAccepted], tag := NewMessage,
                                   receiver := Notified(s.receiver))
  {
    r := Then(acts, SendStoreTag(0));
    r := Then(r, SendNotify(0));
  }

  /** The rest of that call. */
  lemma FinishSend(acts: seq<Step>) returns (r: seq<Step>)
    requires Executable(Open(), acts) && At(After(Open(), acts), 0, SConnected) && |After(Open(), acts).pushed| > 0
    ensures Executable(Open(), r)
    ensures var s := After(Open(), acts);
            After(Open(), r) == s.(holder := None, senders := s.senders[0 := SIdle], tag := NewMessage,
                                   receiver := Notified(s.receiver),
                                   log := s.log + [Sent(|s.pushed| - 1, true)])
  {
    hide Executable, After;
    r := PublishSend(acts);
    r := Then(r, SendUnlock(0));
  }

  /** A receiver in the switch takes the only message queued. */
  lemma TakeOnly(acts: seq<Step>, e: Entry) returns (r: seq<Step>)
    requires Executable(Open(), acts)
    requires var s := After(Open(), acts); s.receiver == RLocked && s.tag == NewMessage && s.queue == [e]
    ensures Executable(Open(), r)
    ensures var s := After(Open(), acts);
            After(Open(), r) == s.(receiver := RPoppedLast(e), queue := [], delivered := s.delivered + [e])
  {
    r := Then(acts, ReceiveSwitch);
    r := Then(r, ReceivePop);
  }

  /** It marks the queue empty and returns. */
  lemma ReturnOnly(acts: seq<Step>) returns (r: seq<Step>)
    requires Executable(Open(), acts) && After(Open(), acts).receiver.RPoppedLast?
    ensures Executable(Open(), r)
    ensures var s := After(Open(), acts);
            After(Open(), r) == s.(receiver := RIdle, tag := UpToDate, holder := None,
                                   log := s.log + [Received(s.receiver.entry)])
  {
    r := Then(acts, ReceiveStoreTag);
    r := Then(r, ReceiveUnlock);
  }

  /** A receiver in the switch with nothing queued decides to sleep. */
  lemma Doze(acts: seq<Step>) returns (r: seq<Step>)
    requires Executable(Open(), acts)
    requires After(Open(), acts).receiver == RLocked && After(Open(), acts).tag == UpToDate
    ensures Executable(Open(), r)
    ensures After(Open(), r) == After(Open(), acts).(receiver := RBlocking)
  {
    r := Then(acts, ReceiveSwitch);
    r := Then(r, ReceiveTest);
  }

  /** A receiver in the switch with nothing queued goes to sleep. */
  lemma GoToSleep(acts: seq<Step>) returns (r: seq<Step>)
    requires Executable(Open(), acts)
    requires After(Open(), acts).receiver == RLocked && After(Open(), acts).tag == UpToDate
    ensures Executable(Open(), r)
    ensures After(Open(), r) == After(Open(), acts).(receiver := RBlocked(false), holder := None)
  {
    hide Executable, After;
    r := Doze(acts);
    r := Then(r, ReceiveBlock);
  }

  /** No sender handle is left, and the receiver sleeps without a notification to come. */
  ghost predicate Stranded(s: State) {
    && (forall t :: t in s.senders ==> s.senders[t] == SGone)
    && s.receiver == RBlocked(false) && s.holder == None
  }

  /**
   The last sender handle goes away while the receiver is between taking the
   last message and marking the queue empty. The mark overwrites the
   disconnection, and the next `receive` blocks with no sender left.
   */
  lemma DropOverwrittenByReceiver(m: Message) returns (r: seq<Step>)
    ensures Executable(Open(), r)
    ensures Stranded(After(Open(), r)) && After(Open(), r).tag == UpToDate
  {
    r := StartSend([], m);
    r := FinishSend(r);
    r := CallReceive(r);
    r := TakeOnly(r, Entry(0, m));
    r := DropLast(r);
    r := ReturnOnly(r);
    r := CallReceive(r);
    r := GoToSleep(r);
  }

  /**
   The last sender handle stores and notifies, without the mutex, after the
   receiver evaluated its predicate and before it blocks. The tag says
   `Disconnected`, yet nobody will tell the receiver.
   */
  lemma DropNotificationLost() returns (r: seq<Step>)
    ensures Executable(Open(), r)
    ensures Stranded(After(Open(), r)) && After(Open(), r).tag == Disconnected
  {
    hide Executable, After;
    OpenRuns();
    r := CallReceive([]);
    r := Doze(r);
    r := DropLast(r);
    r := Then(r, ReceiveBlock);
  }

  /** Two sender handles test the use count before either gives up its pointer,
      so neither stores `Disconnected`. */
  lemma DropsRacePastTheTest() returns (r: seq<Step>)
    ensures Executable(Open(), r)
    ensures Stranded(After(Open(), r)) && After(Open(), r).tag == UpToDate
  {
    hide Executable, After;
    OpenRuns();
    r := Then([], CopySender(0, 1));
    r := Then(r, DropTest(0));
    r := Then(r, DropTest(1));
    r := Then(r, DropRelease(0));
    r := Then(r, DropRelease(1));
    r := CallReceive(r);
    r := GoToSleep(r);
  }

  /** The receiver handle is dropped from start to end. */
  lemma LoseReceiver(acts: seq<Step>) returns (r: seq<Step>)
    requires Executable(Open(), acts) && After(Open(), acts).receiver == RIdle
    ensures Executable(Open(), r)
    ensures var s := After(Open(), acts);
            After(Open(), r) == s.(tag := Disconnected, receiver := RGone, handles := s.handles - 1)
  {
    hide Executable, After;
    r := Then(acts, ReceiverDropStore);
    r := Then(r, ReceiverDropRelease);
  }

  /** A `send` in flight overwrites the store of `~Receiver` and returns true
      although no receiver is left. */
  lemma AcceptedWithoutReceiver(m: Message) returns (r: seq<Step>)
    ensures Executable(Open(), r)
    ensures var s := After(Open(), r);
            s.receiver == RGone && s.tag == NewMessage && s.log == [Sent(0, true)] && s.delivered == []
  {
    hide Executable, After, Apply, Enabled;
    OpenRuns();
    r := StartSend([], m);
    r := LoseReceiver(r);
    r := FinishSend(r);
  }

  // ---------- When exactly a send succeeds without a receiver ----------

  /** The user of handle `t` is past a load that did not see `Disconnected`. */
  predicate Committed(s: State, t: nat) {
    t in s.senders && (s.senders[t] == SConnected || s.senders[t] == SStored || s.senders[t] == SAccepted)
  }

  /** A `send` returned true after the log had length `n`. */
  predicate AcceptedSince(s: State, n: nat) {
    exists j :: n <= j < |s.log| && s.log[j].Sent? && s.log[j].accepted
  }

  /** The rest of a call that is past its load of the tag. */
  lemma CommittedSendReturns(s: State, t: nat) returns (more: seq<Step>)
    requires Committed(s, t)
    ensures Executable(s, more) && AcceptedSince(After(s, more), |s.log|)
  {
    if s.senders[t] == SConnected {
      more := [SendStoreTag(t), SendNotify(t), SendUnlock(t)];
      assert more[1..] == [SendNotify(t), SendUnlock(t)] && more[1..][1..] == [SendUnlock(t)];
    } else if s.senders[t] == SStored {
      more := [SendNotify(t), SendUnlock(t)];
      assert more[1..] == [SendUnlock(t)];
    } else {
      more := [SendUnlock(t)];
    }
    UnlockAccepts(s, t, more);
  }

  lemma UnlockAccepts(s: State, t: nat, more: seq<Step>)
    requires Committed(s, t)
    requires more == if s.senders[t] == SConnected then [SendStoreTag(t), SendNotify(t), SendUnlock(t)]
                     else if s.senders[t] == SStored then [SendNotify(t), SendUnlock(t)]
                     else [SendUnlock(t)]
    ensures Executable(s, more) && AcceptedSince(After(s, more), |s.log|)
    decreases |more|
  {
    var s1 := Apply(s, more[0]);
    if s.senders[t] == SAccepted {
      assert more[1..] == [] && After(s, more) == s1;
      var e := s1.log[|s.log|];
      assert e.Sent? && e.accepted;
    } else {
      UnlockAccepts(s1, t, more[1..]);
    }
  }

  /** The channel is disconnected for good and nobody is about to succeed. */
  ghost predicate Closed(s: State) {
    s.tag == Disconnected && !StorePending(s) && forall t :: !Committed(s, t)
  }

  lemma ClosedStep(s: State, a: Step, n: nat)
    requires Inv(s) && Enabled(s, a) && Closed(s) && n <= |s.log| && !AcceptedSince(s, n)
    ensures Closed(Apply(s, a)) && n <= |Apply(s, a).log| && !AcceptedSince(Apply(s, a), n)
  {
    StickyStep(s, a);
    var s' := Apply(s, a);
    forall t ensures !Committed(s', t) {
      assert !Committed(s, t);
    }
    if a.SendUnlock? {
      assert !Committed(s, a.t);
    }
  }

  lemma {:induction false} ClosedRun(s: State, more: seq<Step>, n: nat)
    requires Inv(s) && Executable(s, more) && Closed(s) && n <= |s.log| && !AcceptedSince(s, n)
    ensures !AcceptedSince(After(s, more), n)
    decreases |more|
  {
    hide Apply, Enabled, Inv, Closed, AcceptedSince;
    if more != [] {
      ClosedStep(s, more[0], n);
      InvPreserved(s, more[0]);
      ClosedRun(Apply(s, more[0]), more[1..], n);
    }
  }

  lemma ClosedUnlessCommitted(s: State)
    requires Inv(s) && Enabled(s, ReceiverDropStore) && forall t :: !Committed(s, t)
    ensures Closed(Apply(s, ReceiverDropStore))
  {
    var s' := Apply(s, ReceiverDropStore);
    forall t ensures !Committed(s', t) {
      assert !Committed(s, t);
    }
    forall t ensures !At(s', t, SConnected) {
      assert !Committed(s, t);
    }
  }

  /** Some continuation from `s` has a `send` return true. */
  ghost predicate MayAccept(s: State) {
    exists more :: Executable(s, more) && AcceptedSince(After(s, more), |s.log|)
  }

  lemma CommittedMayAccept(s: State, t: nat)
    requires Committed(s, t)
    ensures MayAccept(s)
  {
    var more := CommittedSendReturns(s, t);
  }

  lemma ClosedMayNotAccept(s: State)
    requires Inv(s) && Closed(s)
    ensures !MayAccept(s)
  {
    assert !AcceptedSince(s, |s.log|);
    hide Inv, Closed, AcceptedSince;
    forall more | Executable(s, more) ensures !AcceptedSince(After(s, more), |s.log|) {
      ClosedRun(s, more, |s.log|);
    }
  }

  /**
   After `~Receiver` has stored `Disconnected`, some continuation has a `send`
   return true if and only if the user of some sender handle was past a load of
   the tag that did not see `Disconnected` when the store was made.
   */
  lemma AcceptedWithoutReceiverIff(acts: seq<Step>)
    requires Executable(Open(), acts) && Enabled(After(Open(), acts), ReceiverDropStore)
    ensures MayAccept(Apply(After(Open(), acts), ReceiverDropStore))
            <==> exists t :: Committed(After(Open(), acts), t)
  {
    hide Inv, Closed, MayAccept;
    var s := After(Open(), acts);
    var s' := Apply(s, ReceiverDropStore);
    ReachableInv(acts);
    if t :| Committed(s, t) {
      assert Committed(s', t);
      CommittedMayAccept(s', t);
    } else {
      ClosedUnlessCommitted(s);
      InvPreserved(s, ReceiverDropStore);
      ClosedMayNotAccept(s');
    }
  }

  // ---------- When exactly a disconnection goes unheard ----------

  /** Between evaluating its predicate and being woken. */
  predicate Drowsy(r: ReceiverPc) {
    r.RBlocking? || r == RBlocked(false)
  }

  /**
   Whether a disconnection has come too late for the receiver's present sleep:
   a destructor stored `Disconnected` after the predicate was evaluated and
   before the receiver blocked, or the destructor of a spare receiver handle,
   which never notifies, did so while the receiver slept. `late` is the answer at `s`.
   */
  function Unheard(s: State, late: bool, acts: seq<Step>): bool
    requires Executable(s, acts)
    decreases |acts|
  {
    if acts == [] then late else Unheard(Apply(s, acts[0]), LateAfter(s, late, acts[0]), acts[1..])
  }

  function LateAfter(s: State, late: bool, a: Step): bool
    requires Enabled(s, a)
  {
    Drowsy(Apply(s, a).receiver)
    && (late || (a.DropStore? && s.receiver == RBlocking) || (a.SpareDropStore? && Drowsy(s.receiver)))
  }

  ghost predicate LateInv(s: State, late: bool) {
    && (late ==> Drowsy(s.receiver) && (s.tag == Disconnected || exists t :: At(s, t, SStored)))
    && (!late && s.receiver == RBlocking ==> s.tag != Disconnected)
    && (!late && Drowsy(s.receiver) && s.tag == Disconnected ==> exists t :: At(s, t, SDropNotify))
  }

  lemma LateInvPreserved(s: State, late: bool, a: Step)
    requires Inv(s) && LateInv(s, late) && Enabled(s, a)
    ensures LateInv(Apply(s, a), LateAfter(s, late, a))
  {
    var s' := Apply(s, a);
    var late' := LateAfter(s, late, a);
    if late' && s'.tag != Disconnected {
      if a.SendStoreTag? {
        assert At(s', a.t, SStored);
      } else {
        var t :| At(s, t, SStored);
        assert At(s', t, SStored);
      }
    }
    if !late' && Drowsy(s'.receiver) && s'.tag == Disconnected {
      if a.DropStore? {
        assert At(s', a.t, SDropNotify);
      } else {
        var t :| At(s, t, SDropNotify);
        assert At(s', t, SDropNotify);
      }
    }
  }

  lemma {:induction false} LateInvOfRun(s: State, late: bool, acts: seq<Step>)
    requires Inv(s) && LateInv(s, late) && Executable(s, acts)
    ensures LateInv(After(s, acts), Unheard(s, late, acts))
    decreases |acts|
  {
    hide Apply, Enabled, Inv, LateInv, LateAfter;
    if acts != [] {
      InvPreserved(s, acts[0]);
      LateInvPreserved(s, late, acts[0]);
      LateInvOfRun(Apply(s, acts[0]), LateAfter(s, late, acts[0]), acts[1..]);
    }
  }

  /**
   With the mutex free and no destructor about to notify, a sleeping receiver
   that was not notified faces a disconnected channel exactly when the
   disconnection came too late for it.
   */
  lemma DisconnectionUnheardIff(acts: seq<Step>)
    requires Executable(Open(), acts)
    ensures var s := After(Open(), acts);
            s.receiver == RBlocked(false) && s.holder == None && (forall t :: !At(s, t, SDropNotify)) ==>
              (s.tag == Disconnected <==> Unheard(Open(), false, acts))
  {
    var s := After(Open(), acts);
    ReachableInv(acts);
    LateInvOfRun(Open(), false, acts);
    assert forall t :: At(s, t, SStored) ==> SenderHolds(s.senders[t]);
  }
}
