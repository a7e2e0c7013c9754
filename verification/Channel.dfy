/**
 The multiple-producer, single-consumer channel of `include/channel.h`, as a
 state machine whose steps are the single actions of its threads: taking and
 releasing the mutex, one access to the queue, one load or store of the atomic
 tag, one notification. Every thread has its own program counter, any number of
 sender handles may exist, and destructors store to the tag without the mutex.
 */
module Channel {
  import opened Wrappers

  /** What a channel carries; the channel never looks inside. */
  type Message(==, !new)

  datatype StateTag = UpToDate | NewMessage | Disconnected

  /** A message together with the user of a sender handle who pushed it. */
  datatype Entry = Entry(sender: nat, message: Message)

  /** What the calls returned, in the order in which they released the mutex.
      A ticket is the position of the message among all messages pushed. */
  datatype Event =
    | Sent(ticket: nat, accepted: bool)
    | Received(entry: Entry)
    | ReceivedNothing

  predicate IsRefusal(e: Event) {
    e.ReceivedNothing? || (e.Sent? && !e.accepted)
  }

  datatype Holder = BySender(t: nat) | ByReceiver

  /** Where a user of a sender handle stands in `send`, or its owner in `~Sender`. */
  datatype SenderPc =
    | SIdle
    | SLocked(message: Message)  // holds the mutex, has not pushed yet
    | SPushed                    // next: load the tag
    | SConnected                 // saw a tag other than Disconnected; next: store NewMessage
    | SStored                    // next: notify
    | SAccepted                  // next: release, returning true
    | SRefused                   // next: release, returning false
    | SDropStore                 // the use count was at most 2; next: store Disconnected
    | SDropNotify
    | SDropRelease               // next: give up the shared pointer
    | SGone

  /** Where the receiving thread stands in `receive` or `~Receiver`. */
  datatype ReceiverPc =
    | RIdle
    | RTop                       // at the head of the loop; next: take the mutex
    | RLocked                    // next: load the tag in the switch
    | RFull                      // saw NewMessage; next: front and pop
    | RPoppedLast(entry: Entry)  // emptied the queue; next: store UpToDate
    | RPopped(entry: Entry)      // next: release, returning the message
    | RCheck                     // inside wait; next: evaluate the predicate
    | RBlocking                  // the predicate was false; next: release and block at once
    | RBlocked(notified: bool)
    | RWoken                     // next: take the mutex again
    | RLeaving                   // the predicate was true; next: release and loop
    | RClosed                    // saw Disconnected; next: release, returning nothing
    | RDropRelease
    | RGone

  /** The shared object, the threads, and the history of the run. `senders` are
      the users of sender handles: the owner of each handle, and in `borrowed`
      those who use someone else's by reference. `spares` are receiver handles
      left behind by a move, `dropping` those of them whose
      destructor has stored to the tag but not yet given up the pointer, and
      `fault` records a `front`/`pop` on an empty queue. */
  datatype State = State(
    tag: StateTag,
    queue: seq<Entry>,
    holder: Option<Holder>,
    senders: map<nat, SenderPc>,
    borrowed: set<nat>,
    receiver: ReceiverPc,
    handles: int,
    spares: nat,
    dropping: nat,
    fault: bool,
    pushed: seq<Entry>,
    delivered: seq<Entry>,
    log: seq<Event>)

  function Open(): State {
    State(UpToDate, [], None, map[0 := SIdle], {}, RIdle, 2, 0, 0, false, [], [], [])
  }

  datatype Step =
    | CopySender(t: nat, copy: nat)
    | BorrowSender(t: nat, user: nat)
    | SendLock(t: nat, message: Message)
    | SendPush(t: nat)
    | SendLoadTag(t: nat)
    | SendStoreTag(t: nat)
    | SendNotify(t: nat)
    | SendUnlock(t: nat)
    | DropTest(t: nat)
    | DropStore(t: nat)
    | DropNotify(t: nat)
    | DropRelease(t: nat)
    | ReceiveCall
    | ReceiveLock
    | ReceiveSwitch
    | ReceivePop
    | ReceiveStoreTag
    | ReceiveTest
    | ReceiveBlock
    | ReceiveWake
    | ReceiveRelock
    | ReceiveUnlock
    | ReceiverDropStore
    | ReceiverDropRelease
    | MoveReceiver
    | SpareDropStore
    | SpareDropRelease

  predicate At(s: State, t: nat, pc: SenderPc) {
    t in s.senders && s.senders[t] == pc
  }

  /** The destructor of the handle that `t` uses has not begun. */
  predicate Usable(s: State, t: nat) {
    t in s.senders && (s.senders[t] == SIdle || SenderHolds(s.senders[t]))
  }

  predicate Enabled(s: State, a: Step) {
    match a
    case CopySender(t, copy) => Usable(s, t) && copy !in s.senders
    case BorrowSender(t, user) => Usable(s, t) && user !in s.senders
    case SendLock(t, m) => At(s, t, SIdle) && s.holder == None
    case SendPush(t) => t in s.senders && s.senders[t].SLocked?
    case SendLoadTag(t) => At(s, t, SPushed)
    case SendStoreTag(t) => At(s, t, SConnected)
    case SendNotify(t) => At(s, t, SStored)
    case SendUnlock(t) => At(s, t, SAccepted) || At(s, t, SRefused)
    case DropTest(t) => At(s, t, SIdle) && t !in s.borrowed
    case DropStore(t) => At(s, t, SDropStore)
    case DropNotify(t) => At(s, t, SDropNotify)
    case DropRelease(t) => At(s, t, SDropRelease)
    case ReceiveCall => s.receiver == RIdle
    case ReceiveLock => s.receiver == RTop && s.holder == None
    case ReceiveSwitch => s.receiver == RLocked
    case ReceivePop => s.receiver == RFull
    case ReceiveStoreTag => s.receiver.RPoppedLast?
    case ReceiveTest => s.receiver == RCheck
    case ReceiveBlock => s.receiver == RBlocking
    case ReceiveWake => s.receiver.RBlocked?  // notified or not: wake-ups may be spurious
    case ReceiveRelock => s.receiver == RWoken && s.holder == None
    case ReceiveUnlock => s.receiver.RPopped? || s.receiver == RLeaving || s.receiver == RClosed
    case ReceiverDropStore => s.receiver == RIdle
    case ReceiverDropRelease => s.receiver == RDropRelease
    case MoveReceiver => s.receiver == RIdle
    case SpareDropStore => s.spares > 0
    case SpareDropRelease => s.dropping > 0
  }

  /** `notify_one`: reaches the receiver only when it is blocked already. */
  function Notified(r: ReceiverPc): ReceiverPc {
    if r.RBlocked? then RBlocked(true) else r
  }

  function Apply(s: State, a: Step): State
    requires Enabled(s, a)
  {
    match a
    case CopySender(t, copy) =>
      s.(senders := s.senders[copy := SIdle], handles := s.handles + 1)
    case BorrowSender(t, user) =>
      s.(senders := s.senders[user := SIdle], borrowed := s.borrowed + {user})
    case SendLock(t, m) =>
      s.(holder := Some(BySender(t)), senders := s.senders[t := SLocked(m)])
    case SendPush(t) =>
      var e := Entry(t, s.senders[t].message);
      s.(queue := s.queue + [e], pushed := s.pushed + [e], senders := s.senders[t := SPushed])
    case SendLoadTag(t) =>
      s.(senders := s.senders[t := if s.tag == Disconnected then SRefused else SConnected])
    case SendStoreTag(t) =>
      s.(tag := NewMessage, senders := s.senders[t := SStored])
    case SendNotify(t) =>
      s.(receiver := Notified(s.receiver), senders := s.senders[t := SAccepted])
    case SendUnlock(t) =>
      var ticket := if |s.pushed| > 0 then |s.pushed| - 1 else 0;
      s.(holder := None, senders := s.senders[t := SIdle],
         log := s.log + [Sent(ticket, s.senders[t] == SAccepted)])
    case DropTest(t) =>
      s.(senders := s.senders[t := if s.handles <= 2 then SDropStore else SDropRelease])
    case DropStore(t) =>
      s.(tag := Disconnected, senders := s.senders[t := SDropNotify])
    case DropNotify(t) =>
      s.(receiver := Notified(s.receiver), senders := s.senders[t := SDropRelease])
    case DropRelease(t) =>
      s.(handles := s.handles - 1, senders := s.senders[t := SGone])
    case ReceiveCall => s.(receiver := RTop)
    case ReceiveLock => s.(holder := Some(ByReceiver), receiver := RLocked)
    case ReceiveSwitch =>
      s.(receiver := match s.tag
                     case NewMessage => RFull
                     case UpToDate => RCheck
                     case Disconnected => RClosed)
    case ReceivePop =>
      if s.queue == [] then s.(fault := true)
      else
        var e := s.queue[0];
        s.(queue := s.queue[1..], delivered := s.delivered + [e],
           receiver := if |s.queue| == 1 then RPoppedLast(e) else RPopped(e))
    case ReceiveStoreTag => s.(tag := UpToDate, receiver := RPopped(s.receiver.entry))
    case ReceiveTest => s.(receiver := if s.tag == UpToDate then RBlocking else RLeaving)
    case ReceiveBlock => s.(holder := None, receiver := RBlocked(false))
    case ReceiveWake => s.(receiver := RWoken)
    case ReceiveRelock => s.(holder := Some(ByReceiver), receiver := RCheck)
    case ReceiveUnlock =>
      match s.receiver {
        case RPopped(e) => s.(holder := None, receiver := RIdle, log := s.log + [Received(e)])
        case RClosed => s.(holder := None, receiver := RIdle, log := s.log + [ReceivedNothing])
        case _ => s.(holder := None, receiver := RTop)
      }
    case ReceiverDropStore => s.(tag := Disconnected, receiver := RDropRelease)
    case ReceiverDropRelease => s.(handles := s.handles - 1, receiver := RGone)
    case MoveReceiver => s.(spares := s.spares + 1, handles := s.handles + 1)
    case SpareDropStore =>
      s.(tag := Disconnected, spares := s.spares - 1, dropping := s.dropping + 1)
    case SpareDropRelease => s.(handles := s.handles - 1, dropping := s.dropping - 1)
  }

  /** The steps of `acts` can be taken one after the other from `s`. */
  predicate Executable(s: State, acts: seq<Step>)
    decreases |acts|
  {
    acts == [] || (Enabled(s, acts[0]) && Executable(Apply(s, acts[0]), acts[1..]))
  }

  function After(s: State, acts: seq<Step>): State
    requires Executable(s, acts)
    decreases |acts|
  {
    if acts == [] then s else After(Apply(s, acts[0]), acts[1..])
  }

  // ---------- The invariant ----------

  predicate SenderHolds(pc: SenderPc) {
    pc.SLocked? || pc.SPushed? || pc.SConnected? || pc.SStored? || pc.SAccepted? || pc.SRefused?
  }

  predicate ReceiverHolds(r: ReceiverPc) {
    r.RLocked? || r.RFull? || r.RPoppedLast? || r.RPopped? || r.RCheck? || r.RBlocking?
    || r.RLeaving? || r.RClosed?
  }

  /** The mutex field and the program counters tell the same story. */
  ghost predicate Exclusive(s: State) {
    && (s.holder == Some(ByReceiver) <==> ReceiverHolds(s.receiver))
    && (forall t :: t in s.senders && SenderHolds(s.senders[t]) ==> s.holder == Some(BySender(t)))
    && (s.holder.Some? && s.holder.value.BySender? ==>
          s.holder.value.t in s.senders && SenderHolds(s.senders[s.holder.value.t]))
  }

  /** The tag describes the queue, up to a disconnection. */
  predicate TagFits(s: State) {
    (s.tag == NewMessage ==> s.queue != []) && (s.tag == UpToDate ==> s.queue == [])
  }

  predicate TagFitsSender(s: State, pc: SenderPc) {
    match pc
    case SLocked(_) => TagFits(s)
    case SPushed => s.queue != []
    case SConnected => s.queue != []
    case SStored => s.queue != [] && s.tag != UpToDate
    case SAccepted => s.queue != [] && s.tag != UpToDate && s.receiver != RBlocked(false)
    case SRefused => s.queue != [] && s.tag == Disconnected
    case _ => true
  }

  predicate TagFitsReceiver(s: State) {
    match s.receiver
    case RFull => s.queue != [] && s.tag != UpToDate
    case RPoppedLast(_) => s.queue == [] && s.tag != UpToDate
    case RBlocking => s.queue == [] && s.tag != NewMessage
    case RLeaving => TagFits(s) && s.tag != UpToDate
    case RClosed => s.tag == Disconnected
    case _ => TagFits(s)
  }

  ghost predicate TagInv(s: State) {
    match s.holder
    case None => TagFits(s)
    case Some(BySender(t)) => t in s.senders && TagFitsSender(s, s.senders[t])
    case Some(ByReceiver) => TagFitsReceiver(s)
  }

  /** Some thread is inside a call that will not refuse. */
  ghost predicate Succeeding(s: State) {
    || (exists t :: t in s.senders && s.senders[t] in {SConnected, SStored, SAccepted})
    || s.receiver.RFull? || s.receiver.RPoppedLast? || s.receiver.RPopped?
  }

  ghost predicate Refused(s: State) {
    exists i :: 0 <= i < |s.log| && IsRefusal(s.log[i])
  }

  ghost predicate RefusalInv(s: State) {
    && (Refused(s) ==> s.tag == Disconnected && !Succeeding(s))
    && (forall i, j :: 0 <= i < j < |s.log| && IsRefusal(s.log[i]) ==> IsRefusal(s.log[j]))
  }

  ghost predicate TicketInv(s: State) {
    && (forall i :: 0 <= i < |s.log| && s.log[i].Sent? ==> s.log[i].ticket < |s.pushed|)
    && (forall i :: 0 <= i < |s.log| && s.log[i].Sent? && !s.log[i].accepted ==>
          s.log[i].ticket >= |s.delivered|)
  }

  /** A receiver that is blocked and not notified has nothing to wake up for. */
  ghost predicate WakeInv(s: State) {
    s.receiver == RBlocked(false) ==>
      && (forall i :: 0 <= i < |s.log| && s.log[i].Sent? && s.log[i].accepted ==>
            s.log[i].ticket < |s.delivered|)
      && (s.tag == NewMessage ==> exists t :: At(s, t, SStored))
  }

  /** The messages that calls of `receive` returned, in order. */
  function Deliveries(log: seq<Event>): seq<Entry> {
    if log == [] then []
    else
      var rest := Deliveries(log[..|log| - 1]);
      var e := log[|log| - 1];
      if e.Received? then rest + [e.entry] else rest
  }

  function InHand(r: ReceiverPc): seq<Entry> {
    if r.RPoppedLast? || r.RPopped? then [r.entry] else []
  }

  ghost predicate FifoInv(s: State) {
    && !s.fault
    && s.delivered + s.queue == s.pushed
    && Deliveries(s.log) + InHand(s.receiver) == s.delivered
  }

  ghost predicate Inv(s: State) {
    Exclusive(s) && TagInv(s) && RefusalInv(s) && TicketInv(s) && WakeInv(s) && FifoInv(s)
  }

  predicate IsSendStep(a: Step) {
    a.SendLock? || a.SendPush? || a.SendLoadTag? || a.SendStoreTag? || a.SendNotify? || a.SendUnlock?
  }

  predicate IsReceiveStep(a: Step) {
    a.ReceiveCall? || a.ReceiveLock? || a.ReceiveSwitch? || a.ReceivePop? || a.ReceiveStoreTag? || a.ReceiveTest?
    || a.ReceiveBlock? || a.ReceiveWake? || a.ReceiveRelock? || a.ReceiveUnlock?
  }

  lemma ExclusiveAfterSendStep(s: State, a: Step)
    requires Exclusive(s) && Enabled(s, a) && IsSendStep(a)
    ensures Exclusive(Apply(s, a))
  {
  }

  lemma ExclusiveAfterReceiveStep(s: State, a: Step)
    requires Exclusive(s) && Enabled(s, a) && IsReceiveStep(a)
    ensures Exclusive(Apply(s, a))
  {
  }

  lemma ExclusiveAfterHandleStep(s: State, a: Step)
    requires Exclusive(s) && Enabled(s, a) && !IsSendStep(a) && !IsReceiveStep(a)
    ensures Exclusive(Apply(s, a))
  {
  }

  lemma ExclusivePreserved(s: State, a: Step)
    requires Exclusive(s) && Enabled(s, a)
    ensures Exclusive(Apply(s, a))
  {
    hide Apply, Exclusive;
    if IsSendStep(a) {
      ExclusiveAfterSendStep(s, a);
    } else if IsReceiveStep(a) {
      ExclusiveAfterReceiveStep(s, a);
    } else {
      ExclusiveAfterHandleStep(s, a);
    }
  }

  lemma TagInvAfterSendStep(s: State, a: Step)
    requires Exclusive(s) && TagInv(s) && Enabled(s, a) && IsSendStep(a)
    ensures TagInv(Apply(s, a))
  {
  }

  lemma TagInvAfterReceiveStep(s: State, a: Step)
    requires Exclusive(s) && TagInv(s) && Enabled(s, a) && IsReceiveStep(a)
    ensures TagInv(Apply(s, a))
  {
  }

  lemma TagInvAfterHandleStep(s: State, a: Step)
    requires Exclusive(s) && TagInv(s) && Enabled(s, a) && !IsSendStep(a) && !IsReceiveStep(a)
    ensures TagInv(Apply(s, a))
  {
  }

  lemma TagInvPreserved(s: State, a: Step)
    requires Exclusive(s) && TagInv(s) && Enabled(s, a)
    ensures TagInv(Apply(s, a))
  {
    hide Apply, Exclusive, TagInv;
    if IsSendStep(a) {
      TagInvAfterSendStep(s, a);
    } else if IsReceiveStep(a) {
      TagInvAfterReceiveStep(s, a);
    } else {
      TagInvAfterHandleStep(s, a);
    }
  }

  lemma RefusalInvAfterSendStep(s: State, a: Step)
    requires Exclusive(s) && TagInv(s) && RefusalInv(s) && Enabled(s, a) && IsSendStep(a)
    ensures RefusalInv(Apply(s, a))
  {
  }

  lemma RefusalInvAfterReturn(s: State, a: Step)
    requires Exclusive(s) && TagInv(s) && RefusalInv(s) && Enabled(s, a) && a.ReceiveUnlock?
    ensures RefusalInv(Apply(s, a))
  {
  }

  lemma RefusalInvAfterReceiveStep(s: State, a: Step)
    requires Exclusive(s) && TagInv(s) && RefusalInv(s) && Enabled(s, a) && IsReceiveStep(a)
    ensures RefusalInv(Apply(s, a))
  {
    if a.ReceiveUnlock? {
      RefusalInvAfterReturn(s, a);
    } else {
      assert Apply(s, a).log == s.log;
    }
  }

  lemma RefusalInvAfterHandleStep(s: State, a: Step)
    requires RefusalInv(s) && Enabled(s, a) && !IsSendStep(a) && !IsReceiveStep(a)
    ensures RefusalInv(Apply(s, a))
  {
  }

  lemma RefusalInvPreserved(s: State, a: Step)
    requires Exclusive(s) && TagInv(s) && RefusalInv(s) && Enabled(s, a)
    ensures RefusalInv(Apply(s, a))
  {
    hide Apply, Exclusive, TagInv, RefusalInv;
    if IsSendStep(a) {
      RefusalInvAfterSendStep(s, a);
    } else if IsReceiveStep(a) {
      RefusalInvAfterReceiveStep(s, a);
    } else {
      RefusalInvAfterHandleStep(s, a);
    }
  }

  lemma TicketsAfterSend(s: State, a: Step)
    requires Exclusive(s) && TagInv(s) && TicketInv(s) && FifoInv(s) && Enabled(s, a) && a.SendUnlock?
    ensures TicketInv(Apply(s, a))
  {
    assert |s.queue| > 0 && |s.pushed| == |s.delivered| + |s.queue|;
  }

  lemma TicketsAfterPop(s: State, a: Step)
    requires Exclusive(s) && TagInv(s) && RefusalInv(s) && TicketInv(s) && Enabled(s, a) && a.ReceivePop?
    ensures TicketInv(Apply(s, a))
  {
    assert !Refused(s);
  }

  lemma TicketInvPreserved(s: State, a: Step)
    requires Exclusive(s) && TagInv(s) && RefusalInv(s) && TicketInv(s) && FifoInv(s) && Enabled(s, a)
    ensures TicketInv(Apply(s, a))
  {
    if a.SendUnlock? {
      TicketsAfterSend(s, a);
    } else if a.ReceivePop? {
      TicketsAfterPop(s, a);
    } else {
      TicketsUntouched(s, a);
    }
  }

  lemma TicketsUntouched(s: State, a: Step)
    requires TicketInv(s) && Enabled(s, a) && !a.SendUnlock? && !a.ReceivePop?
    ensures TicketInv(Apply(s, a))
  {
  }

  lemma WakeInvAfterSendStep(s: State, a: Step)
    requires Exclusive(s) && TagInv(s) && WakeInv(s) && Enabled(s, a) && IsSendStep(a)
    ensures WakeInv(Apply(s, a))
  {
    if a.SendStoreTag? {
      assert At(Apply(s, a), a.t, SStored);
    } else {
      assert forall t :: At(s, t, SStored) ==> s.holder == Some(BySender(t));
    }
  }

  lemma WakeInvAfterBlock(s: State, a: Step)
    requires Exclusive(s) && TagInv(s) && TicketInv(s) && FifoInv(s) && Enabled(s, a) && a.ReceiveBlock?
    ensures WakeInv(Apply(s, a))
  {
    assert s.queue == [] && s.pushed == s.delivered;
  }

  lemma WakeInvAfterOtherStep(s: State, a: Step)
    requires WakeInv(s) && Enabled(s, a) && !IsSendStep(a) && !a.ReceiveBlock?
    ensures WakeInv(Apply(s, a))
  {
    var s' := Apply(s, a);
    if s'.receiver == RBlocked(false) && s'.tag == NewMessage {
      var t :| At(s, t, SStored);
      assert At(s', t, SStored);
    }
  }

  lemma WakeInvPreserved(s: State, a: Step)
    requires Exclusive(s) && TagInv(s) && TicketInv(s) && WakeInv(s) && FifoInv(s) && Enabled(s, a)
    ensures WakeInv(Apply(s, a))
  {
    if IsSendStep(a) {
      WakeInvAfterSendStep(s, a);
    } else if a.ReceiveBlock? {
      WakeInvAfterBlock(s, a);
    } else {
      WakeInvAfterOtherStep(s, a);
    }
  }

  lemma DeliveriesAppend(log: seq<Event>, e: Event)
    ensures Deliveries(log + [e]) == Deliveries(log) + (if e.Received? then [e.entry] else [])
  {
    assert (log + [e])[..|log|] == log;
  }

  lemma ConservationPreserved(s: State, a: Step)
    requires Exclusive(s) && TagInv(s) && FifoInv(s) && Enabled(s, a)
    ensures !Apply(s, a).fault && Apply(s, a).delivered + Apply(s, a).queue == Apply(s, a).pushed
  {
    if a.SendPush? {
      var e := Entry(a.t, s.senders[a.t].message);
      assert s.delivered + (s.queue + [e]) == (s.delivered + s.queue) + [e];
    } else if a.ReceivePop? {
      assert s.delivered + s.queue == (s.delivered + [s.queue[0]]) + s.queue[1..];
    }
  }

  lemma DeliveriesAfterUnlock(s: State, a: Step)
    requires Exclusive(s) && FifoInv(s) && Enabled(s, a) && (a.SendUnlock? || a.ReceiveUnlock?)
    ensures Deliveries(Apply(s, a).log) + InHand(Apply(s, a).receiver) == Apply(s, a).delivered
  {
    var s' := Apply(s, a);
    if s'.log != s.log {
      DeliveriesAppend(s.log, s'.log[|s.log|]);
    }
  }

  lemma DeliveriesAfterPop(s: State, a: Step)
    requires FifoInv(s) && Enabled(s, a) && a.ReceivePop?
    ensures Deliveries(Apply(s, a).log) + InHand(Apply(s, a).receiver) == Apply(s, a).delivered
  {
    assert InHand(s.receiver) == [];
  }

  lemma HandsUntouched(s: State, a: Step)
    requires Enabled(s, a) && !a.SendUnlock? && !a.ReceiveUnlock? && !a.ReceivePop?
    ensures Apply(s, a).log == s.log && InHand(Apply(s, a).receiver) == InHand(s.receiver)
    ensures Apply(s, a).delivered == s.delivered
  {
  }

  lemma DeliveriesPreserved(s: State, a: Step)
    requires Exclusive(s) && TagInv(s) && FifoInv(s) && Enabled(s, a)
    ensures Deliveries(Apply(s, a).log) + InHand(Apply(s, a).receiver) == Apply(s, a).delivered
  {
    if a.SendUnlock? || a.ReceiveUnlock? {
      DeliveriesAfterUnlock(s, a);
    } else if a.ReceivePop? {
      DeliveriesAfterPop(s, a);
    } else {
      HandsUntouched(s, a);
    }
  }

  lemma InvPreserved(s: State, a: Step)
    requires Inv(s) && Enabled(s, a)
    ensures Inv(Apply(s, a))
  {
    ExclusivePreserved(s, a);
    TagInvPreserved(s, a);
    RefusalInvPreserved(s, a);
    TicketInvPreserved(s, a);
    WakeInvPreserved(s, a);
    ConservationPreserved(s, a);
    DeliveriesPreserved(s, a);
  }
}
