/**
 What the use-count test of `~Sender` is meant to decide. Here every copy,
 move, drop, `send` and `receive` is one action. A move of a handle copies its
 pointer, so a moved receiver leaves a second receiver handle behind.
 */
module ChannelHandles {
  import opened Wrappers
  import opened Channel
  import opened ChannelDrops
  import ChannelProperties

  datatype Counts = Counts(senders: nat, receivers: nat, tag: StateTag)

  datatype Op = CopyOrMoveSender | DropSender | MoveReceiver | DropReceiver | Send | Receive(emptied: bool)

  predicate Allowed(h: Counts, op: Op) {
    match op
    case CopyOrMoveSender => h.senders > 0
    case DropSender => h.senders > 0
    case MoveReceiver => h.receivers > 0
    case DropReceiver => h.receivers > 0
    case Send => h.senders > 0
    case Receive(_) => h.receivers > 0 && h.tag != UpToDate
  }

  function Do(h: Counts, op: Op): Counts
    requires Allowed(h, op)
  {
    match op
    case CopyOrMoveSender => h.(senders := h.senders + 1)
    case DropSender =>
      h.(senders := h.senders - 1,
         tag := if h.senders + h.receivers <= 2 then Disconnected else h.tag)
    case MoveReceiver => h.(receivers := h.receivers + 1)
    case DropReceiver => h.(receivers := h.receivers - 1, tag := Disconnected)
    case Send => h.(tag := if h.tag == Disconnected then Disconnected else NewMessage)
    case Receive(emptied) => h.(tag := if h.tag == NewMessage && emptied then UpToDate else h.tag)
  }

  predicate AllAllowed(h: Counts, ops: seq<Op>)
    decreases |ops|
  {
    ops == [] || (Allowed(h, ops[0]) && AllAllowed(Do(h, ops[0]), ops[1..]))
  }

  function DoAll(h: Counts, ops: seq<Op>): Counts
    requires AllAllowed(h, ops)
    decreases |ops|
  {
    if ops == [] then h else DoAll(Do(h, ops[0]), ops[1..])
  }

  /** The tag says whether one side of the channel is gone. */
  predicate Truthful(h: Counts) {
    h.tag == Disconnected <==> h.senders == 0 || h.receivers == 0
  }

  predicate AlwaysTruthful(h: Counts, ops: seq<Op>)
    requires AllAllowed(h, ops)
    decreases |ops|
  {
    Truthful(h) && (ops == [] || AlwaysTruthful(Do(h, ops[0]), ops[1..]))
  }

  /** A drop that the test cannot judge: both sides are present, a moved
      receiver is still counted, and a receiver handle or the last sender goes. */
  predicate Misjudged(h: Counts, op: Op) {
    h.tag != Disconnected && h.receivers > 1
    && (op.DropReceiver? || (op.DropSender? && h.senders == 1))
  }

  predicate EverMisjudged(h: Counts, ops: seq<Op>)
    requires AllAllowed(h, ops)
    decreases |ops|
  {
    ops != [] && (Misjudged(h, ops[0]) || EverMisjudged(Do(h, ops[0]), ops[1..]))
  }

  /** From any state with a truthful tag, the tag stays truthful through a run
      exactly when no drop of the run is misjudged. */
  lemma {:induction false} TruthfulIffNeverMisjudged(h: Counts, ops: seq<Op>)
    requires AllAllowed(h, ops) && Truthful(h)
    ensures AlwaysTruthful(h, ops) <==> !EverMisjudged(h, ops)
    decreases |ops|
  {
    if ops != [] {
      var h1 := Do(h, ops[0]);
      assert Truthful(h1) <==> !Misjudged(h, ops[0]);
      if Truthful(h1) {
        TruthfulIffNeverMisjudged(h1, ops[1..]);
      } else {
        assert !AlwaysTruthful(h1, ops[1..]);
      }
    }
  }

  lemma {:induction false} NeverMisjudgedWithOneReceiver(h: Counts, ops: seq<Op>)
    requires AllAllowed(h, ops) && h.receivers <= 1 && Op.MoveReceiver !in ops
    ensures !EverMisjudged(h, ops)
    decreases |ops|
  {
    if ops != [] {
      NeverMisjudgedWithOneReceiver(Do(h, ops[0]), ops[1..]);
    }
  }

  lemma {:induction false} AlwaysReachesEnd(h: Counts, ops: seq<Op>)
    requires AllAllowed(h, ops) && AlwaysTruthful(h, ops)
    ensures Truthful(DoAll(h, ops))
    decreases |ops|
  {
    if ops != [] {
      AlwaysReachesEnd(Do(h, ops[0]), ops[1..]);
    }
  }

  /** With one receiver handle that is never moved, the tag is `Disconnected`
      exactly when no sender or no receiver remains. */
  lemma DisconnectedIffOneSideGone(ops: seq<Op>)
    requires AllAllowed(Counts(1, 1, UpToDate), ops) && Op.MoveReceiver !in ops
    ensures var h := DoAll(Counts(1, 1, UpToDate), ops);
            h.tag == Disconnected <==> h.senders == 0 || h.receivers == 0
  {
    NeverMisjudgedWithOneReceiver(Counts(1, 1, UpToDate), ops);
    TruthfulIffNeverMisjudged(Counts(1, 1, UpToDate), ops);
    AlwaysReachesEnd(Counts(1, 1, UpToDate), ops);
  }

  // ---------- Uninterrupted calls of the fine-grained machine ----------

  /** The handles and the tag of a state of the fine-grained machine. */
  function Coarse(s: State): Counts {
    Counts(|Handles(s)|, ReceiverHandles(s), s.tag)
  }

  lemma OneMore(s: State, acts: seq<Step>, a: Step) returns (longer: seq<Step>)
    requires Executable(s, acts) && Enabled(After(s, acts), a)
    ensures Executable(s, longer) && After(s, longer) == Apply(After(s, acts), a)
  {
    longer := acts + [a];
    ChannelProperties.RunAppend(s, acts, [a]);
  }

  /** The owner of a handle is among those counted. */
  lemma OwnerIsCounted(s: State, t: nat)
    requires t in s.senders && t !in s.borrowed && s.senders[t] != SGone
    ensures Coarse(s).senders > 0
  {
    assert t in Handles(s);
  }

  /** A copy can be made of any handle whose destructor has not begun. */
  lemma CopyIsCopy(s: State, t: nat, copy: nat)
    requires Counted(s) && Usable(s, t) && copy !in s.senders && t !in s.borrowed
    ensures Enabled(s, CopySender(t, copy)) && Allowed(Coarse(s), CopyOrMoveSender)
    ensures Coarse(Apply(s, CopySender(t, copy))) == Do(Coarse(s), CopyOrMoveSender)
  {
    OwnerIsCounted(s, t);
    HandlesAfterCopy(s, CopySender(t, copy));
  }

  /** Such a handle can be used by reference, which is no new handle. */
  lemma BorrowIsNothing(s: State, t: nat, user: nat)
    requires Counted(s) && Usable(s, t) && user !in s.senders
    ensures Enabled(s, BorrowSender(t, user)) && At(Apply(s, BorrowSender(t, user)), user, SIdle)
    ensures Coarse(Apply(s, BorrowSender(t, user))) == Coarse(s)
  {
    HandlesAfterOtherStep(s, BorrowSender(t, user));
  }

  /** A receiver that is not in use can be moved. */
  lemma MoveIsMove(s: State)
    requires Counted(s) && s.receiver == RIdle
    ensures Enabled(s, Step.MoveReceiver) && Allowed(Coarse(s), Op.MoveReceiver)
    ensures Coarse(Apply(s, Step.MoveReceiver)) == Do(Coarse(s), Op.MoveReceiver)
  {
    HandlesAfterOtherStep(s, Step.MoveReceiver);
  }

  lemma StoreOfDrop(s: State, t: nat) returns (acts: seq<Step>)
    requires At(s, t, SDropStore)
    ensures Executable(s, acts)
    ensures After(s, acts) == s.(tag := Disconnected, receiver := Notified(s.receiver),
                                 senders := s.senders[t := SDropRelease])
  {
    acts := OneMore(s, [], DropStore(t));
    acts := OneMore(s, acts, DropNotify(t));
  }

  /** What `~Sender` leaves behind. */
  lemma RunOfDrop(s: State, t: nat) returns (acts: seq<Step>)
    requires At(s, t, SIdle) && t !in s.borrowed
    ensures Executable(s, acts)
    ensures var few := s.handles <= 2;
            After(s, acts) == s.(handles := s.handles - 1, senders := s.senders[t := SGone],
                                 tag := if few then Disconnected else s.tag,
                                 receiver := if few then Notified(s.receiver) else s.receiver)
  {
    acts := OneMore(s, [], DropTest(t));
    if s.handles <= 2 {
      var more := StoreOfDrop(After(s, acts), t);
      ChannelProperties.RunAppend(s, acts, more);
      acts := acts + more;
    }
    acts := OneMore(s, acts, DropRelease(t));
  }

  /** `~Sender`. */
  lemma DropIsDropSender(s: State, t: nat) returns (acts: seq<Step>)
    requires Counted(s) && At(s, t, SIdle) && t !in s.borrowed
    ensures Executable(s, acts) && At(After(s, acts), t, SGone)
    ensures Allowed(Coarse(s), DropSender) && Coarse(After(s, acts)) == Do(Coarse(s), DropSender)
  {
    OwnerIsCounted(s, t);
    acts := RunOfDrop(s, t);
    assert Handles(After(s, acts)) == Handles(s) - {t} && t in Handles(s);
  }

  /** `~Receiver` of the handle that receives. */
  lemma DropIsDropReceiver(s: State) returns (acts: seq<Step>)
    requires Counted(s) && s.receiver == RIdle
    ensures Executable(s, acts)
    ensures Allowed(Coarse(s), DropReceiver) && Coarse(After(s, acts)) == Do(Coarse(s), DropReceiver)
  {
    acts := OneMore(s, [], ReceiverDropStore);
    acts := OneMore(s, acts, ReceiverDropRelease);
    SameHandles(s, After(s, acts));
  }

  /** `~Receiver` of a handle that a move left behind. */
  lemma SpareDropIsDropReceiver(s: State) returns (acts: seq<Step>)
    requires Counted(s) && s.spares > 0
    ensures Executable(s, acts)
    ensures Allowed(Coarse(s), DropReceiver) && Coarse(After(s, acts)) == Do(Coarse(s), DropReceiver)
  {
    acts := OneMore(s, [], SpareDropStore);
    acts := OneMore(s, acts, SpareDropRelease);
    SameHandles(s, After(s, acts));
  }

  /** `send` up to its load of the tag. */
  lemma LoadOfSend(s: State, t: nat, m: Message) returns (acts: seq<Step>)
    requires At(s, t, SIdle) && s.holder == None
    ensures Executable(s, acts)
    ensures var e := [Entry(t, m)];
            After(s, acts) == s.(holder := Some(BySender(t)), queue := s.queue + e, pushed := s.pushed + e,
                                 senders := s.senders[t := if s.tag == Disconnected then SRefused else SConnected])
  {
    acts := OneMore(s, [], SendLock(t, m));
    acts := OneMore(s, acts, SendPush(t));
    acts := OneMore(s, acts, SendLoadTag(t));
  }

  /** The store and the notification of a `send` that saw a tag other than
      `Disconnected`. */
  lemma PublicationOfSend(s: State, t: nat) returns (acts: seq<Step>)
    requires At(s, t, SConnected)
    ensures Executable(s, acts)
    ensures After(s, acts)
            == s.(tag := NewMessage, receiver := Notified(s.receiver), senders := s.senders[t := SAccepted])
  {
    acts := OneMore(s, [], SendStoreTag(t));
    acts := OneMore(s, acts, SendNotify(t));
  }

  /** The rest of that `send`. */
  lemma RestOfSend(s: State, t: nat) returns (acts: seq<Step>)
    requires At(s, t, SConnected) && |s.pushed| > 0
    ensures Executable(s, acts)
    ensures After(s, acts) == s.(holder := None, tag := NewMessage, receiver := Notified(s.receiver),
                                 senders := s.senders[t := SIdle], log := s.log + [Sent(|s.pushed| - 1, true)])
  {
    hide Executable, After;
    acts := PublicationOfSend(s, t);
    acts := OneMore(s, acts, SendUnlock(t));
  }

  /** The rest of one that saw `Disconnected`. */
  lemma RefusalOfSend(s: State, t: nat) returns (acts: seq<Step>)
    requires At(s, t, SRefused) && |s.pushed| > 0
    ensures Executable(s, acts)
    ensures After(s, acts) == s.(holder := None, senders := s.senders[t := SIdle],
                                 log := s.log + [Sent(|s.pushed| - 1, false)])
  {
    acts := OneMore(s, [], SendUnlock(t));
  }

  /** What `send` leaves behind. */
  lemma RunOfSend(s: State, t: nat, m: Message) returns (acts: seq<Step>)
    requires At(s, t, SIdle) && s.holder == None
    ensures Executable(s, acts)
    ensures var ok, e := s.tag != Disconnected, [Entry(t, m)];
            After(s, acts)
            == s.(queue := s.queue + e, pushed := s.pushed + e, log := s.log + [Sent(|s.pushed|, ok)],
                  tag := if ok then NewMessage else s.tag,
                  receiver := if ok then Notified(s.receiver) else s.receiver)
  {
    hide Apply, Executable, After;
    acts := LoadOfSend(s, t, m);
    var s1 := After(s, acts);
    var rest;
    if s.tag != Disconnected {
      rest := RestOfSend(s1, t);
    } else {
      rest := RefusalOfSend(s1, t);
    }
    ChannelProperties.RunAppend(s, acts, rest);
    acts := acts + rest;
    assert After(s, acts).senders == s.senders;
  }

  /** `send`, and its result. */
  lemma SendIsSend(s: State, t: nat, m: Message) returns (acts: seq<Step>)
    requires Counted(s) && At(s, t, SIdle) && s.holder == None && t !in s.borrowed
    ensures Executable(s, acts) && At(After(s, acts), t, SIdle)
    ensures Allowed(Coarse(s), Send) && Coarse(After(s, acts)) == Do(Coarse(s), Send)
    ensures After(s, acts).log == s.log + [Sent(|s.pushed|, s.tag != Disconnected)]
  {
    OwnerIsCounted(s, t);
    acts := RunOfSend(s, t, m);
  }

  /** `receive` up to the switch. */
  lemma SwitchOfReceive(s: State) returns (acts: seq<Step>)
    requires s.receiver == RIdle && s.holder == None && s.tag != UpToDate
    ensures Executable(s, acts)
    ensures After(s, acts)
            == s.(holder := Some(ByReceiver), receiver := if s.tag == Disconnected then RClosed else RFull)
  {
    acts := OneMore(s, [], ReceiveCall);
    acts := OneMore(s, acts, ReceiveLock);
    acts := OneMore(s, acts, ReceiveSwitch);
  }

  /** The rest of a `receive` that found a message. */
  lemma RestOfReceive(s: State) returns (acts: seq<Step>)
    requires s.receiver == RFull && s.queue != []
    ensures Executable(s, acts)
    ensures After(s, acts)
            == s.(holder := None, receiver := RIdle, queue := s.queue[1..], delivered := s.delivered + [s.queue[0]],
                  tag := if |s.queue| == 1 then UpToDate else s.tag, log := s.log + [Received(s.queue[0])])
  {
    acts := OneMore(s, [], ReceivePop);
    if |s.queue| == 1 {
      acts := OneMore(s, acts, ReceiveStoreTag);
    }
    acts := OneMore(s, acts, ReceiveUnlock);
  }

  /** `receive` when it need not wait. */
  lemma ReceiveIsReceive(s: State) returns (acts: seq<Step>)
    requires Inv(s) && s.receiver == RIdle && s.holder == None && s.tag != UpToDate
    ensures Executable(s, acts) && After(s, acts).receiver == RIdle
    ensures var op := Op.Receive(|s.queue| == 1);
            Allowed(Coarse(s), op) && Coarse(After(s, acts)) == Do(Coarse(s), op)
  {
    acts := SwitchOfReceive(s);
    if s.tag == Disconnected {
      acts := OneMore(s, acts, ReceiveUnlock);
    } else {
      assert s.queue != [];
      var rest := RestOfReceive(After(s, acts));
      ChannelProperties.RunAppend(s, acts, rest);
      acts := acts + rest;
    }
    SameHandles(s, After(s, acts));
  }
}
