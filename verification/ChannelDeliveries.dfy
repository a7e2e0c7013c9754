/**
 Which of the messages in the queue can still be delivered. A `send` that
 returned true is no promise that its message is.
 */
module ChannelDeliveries {
  import opened Wrappers
  import opened Channel
  import opened ChannelProperties

  // ---------- The condition ----------

  /** `~Receiver` has begun. */
  predicate Leaving(r: ReceiverPc) {
    r == RDropRelease || r == RGone
  }

  /** The receiver is there, and either the channel is not disconnected for good
      or the receiver has seen a message before it was and the message at `k` is
      the one it is about to take. */
  ghost predicate Deliverable(s: State, k: nat) {
    && !Leaving(s.receiver)
    && (s.tag != Disconnected || StorePending(s) || (s.receiver == RFull && k == 0))
  }

  /** Some continuation delivers the message at `k` of the queue, and so all
      before it. */
  ghost predicate MayDeliver(s: State, k: nat) {
    exists more :: Executable(s, more) && |After(s, more).delivered| > |s.delivered| + k
  }

  // ---------- Nothing more comes ----------

  /** How many messages are delivered when the receiver is done with the one it
      is about to take. */
  function Limit(s: State): nat {
    |s.delivered| + (if s.receiver == RFull then 1 else 0)
  }

  ghost predicate Over(s: State) {
    Leaving(s.receiver) || (s.tag == Disconnected && !StorePending(s))
  }

  lemma OverStep(s: State, a: Step)
    requires Inv(s) && Enabled(s, a) && Over(s)
    ensures Over(Apply(s, a)) && Limit(Apply(s, a)) <= Limit(s)
  {
    if Leaving(s.receiver) {
      assert Leaving(Apply(s, a).receiver);
    } else {
      StickyStep(s, a);
    }
  }

  lemma {:induction false} OverRun(s: State, more: seq<Step>)
    requires Inv(s) && Executable(s, more) && Over(s)
    ensures |After(s, more).delivered| <= Limit(s)
    decreases |more|
  {
    hide Apply, Enabled, Inv, Over;
    if more != [] {
      OverStep(s, more[0]);
      InvPreserved(s, more[0]);
      OverRun(Apply(s, more[0]), more[1..]);
    }
  }

  // ---------- The way to a delivery ----------

  /** What remains to be done before the receiver takes a message. */
  function SenderSteps(pc: SenderPc): nat {
    match pc
    case SLocked(_) => 6
    case SPushed => 5
    case SConnected => 4
    case SStored => 3
    case SAccepted => 2
    case SRefused => 2
    case _ => 0
  }

  function ReceiverSteps(r: ReceiverPc): nat {
    match r
    case RBlocked(_) => 6
    case RWoken => 5
    case RCheck => 4
    case RPopped(_) => 4
    case RIdle => 3
    case RLeaving => 3
    case RTop => 2
    case RLocked => 1
    case _ => 0
  }

  function StepsLeft(s: State): nat {
    ReceiverSteps(s.receiver)
    + if s.holder.Some? && s.holder.value.BySender? && s.holder.value.t in s.senders
      then SenderSteps(s.senders[s.holder.value.t]) else 0
  }

  /** The next action of the sender in the mutex. */
  function SenderNext(t: nat, pc: SenderPc): Step {
    match pc
    case SLocked(_) => SendPush(t)
    case SPushed => SendLoadTag(t)
    case SConnected => SendStoreTag(t)
    case SStored => SendNotify(t)
    case _ => SendUnlock(t)
  }

  /** The next action of the receiver on its way to a message. */
  function ReceiverNext(r: ReceiverPc): Step {
    match r
    case RIdle => ReceiveCall
    case RTop => ReceiveLock
    case RLocked => ReceiveSwitch
    case RFull => ReceivePop
    case RBlocked(_) => ReceiveWake
    case RWoken => ReceiveRelock
    case RCheck => ReceiveTest
    case _ => ReceiveUnlock
  }

  /** Someone in the mutex goes on first, then the receiver. */
  function Next(s: State): Step {
    if s.holder.Some? && s.holder.value.BySender? && s.holder.value.t in s.senders
    then SenderNext(s.holder.value.t, s.senders[s.holder.value.t])
    else ReceiverNext(s.receiver)
  }

  lemma NextOfSender(s: State, k: nat)
    requires Inv(s) && Deliverable(s, k) && k < |s.queue| && s.holder.Some? && s.holder.value.BySender?
    ensures Enabled(s, Next(s)) && !Next(s).ReceivePop?
    ensures var s' := Apply(s, Next(s));
            Deliverable(s', k) && k < |s'.queue| && StepsLeft(s') < StepsLeft(s) && s'.delivered == s.delivered
  {
    hide RefusalInv, TicketInv, WakeInv, FifoInv;
    var t := s.holder.value.t;
    var s' := Apply(s, Next(s));
    assert forall x :: At(s, x, SConnected) ==> x == t;
    if s'.senders[t] == SConnected {
      assert At(s', t, SConnected);
    }
  }

  lemma NextOfReceiver(s: State, k: nat)
    requires Inv(s) && Deliverable(s, k) && k < |s.queue| && !(s.holder.Some? && s.holder.value.BySender?)
    requires !(s.receiver == RFull && k == 0)
    ensures Enabled(s, Next(s))
    ensures var s' := Apply(s, Next(s));
            if Next(s).ReceivePop? then k > 0 && Deliverable(s', k - 1) && k <= |s'.queue|
                                        && |s'.delivered| == |s.delivered| + 1
            else Deliverable(s', k) && StepsLeft(s') < StepsLeft(s) && s'.delivered == s.delivered
                 && s'.queue == s.queue
  {
    hide RefusalInv, TicketInv, WakeInv, FifoInv;
    assert forall x :: !At(s, x, SConnected);
    assert s.tag == NewMessage;
  }

  lemma {:induction false} Deliver(s: State, k: nat) returns (more: seq<Step>)
    requires Inv(s) && Deliverable(s, k) && k < |s.queue|
    ensures Executable(s, more) && |After(s, more).delivered| > |s.delivered| + k
    decreases k, StepsLeft(s)
  {
    if s.receiver == RFull && k == 0 {
      more := [ReceivePop];
      assert more[1..] == [];
    } else {
      var a := Next(s);
      if s.holder.Some? && s.holder.value.BySender? {
        NextOfSender(s, k);
      } else {
        NextOfReceiver(s, k);
      }
      hide Apply, Enabled, Inv, Deliverable, StepsLeft, Next;
      InvPreserved(s, a);
      var rest := Deliver(Apply(s, a), if a.ReceivePop? then k - 1 else k);
      more := [a] + rest;
      assert more[1..] == rest;
    }
  }

  /**
   In every reachable state, a message in the queue can still be delivered if and
   only if the receiver has not begun to go away, and the tag is not
   `Disconnected`, or is about to be overwritten by a thread in the mutex, or the
   message is the next and the receiver is about to take it.
   */
  lemma MayDeliverIff(acts: seq<Step>, k: nat)
    requires Executable(Open(), acts) && k < |After(Open(), acts).queue|
    ensures MayDeliver(After(Open(), acts), k) <==> Deliverable(After(Open(), acts), k)
  {
    hide Inv;
    var s := After(Open(), acts);
    ReachableInv(acts);
    if Deliverable(s, k) {
      var more := Deliver(s, k);
    } else {
      forall more | Executable(s, more) ensures |After(s, more).delivered| <= |s.delivered| + k {
        OverRun(s, more);
      }
    }
  }

  /**
   A `send` returns true, the last sender handle goes away, and then `receive`
   returns nothing, with the message still in the queue and nobody to take it.
   */
  lemma AcceptedButNeverDelivered(m: Message) returns (r: seq<Step>)
    ensures Executable(Open(), r)
    ensures var s := After(Open(), r);
            && s.log == [Sent(0, true), ReceivedNothing] && s.queue == [Entry(0, m)] && s.receiver == RIdle
            && !MayDeliver(s, 0)
  {
    hide Executable, After;
    OpenRuns();
    r := StartSend([], m);
    r := FinishSend(r);
    r := DropLast(r);
    r := CallReceive(r);
    r := Then(r, ReceiveSwitch);
    r := Then(r, ReceiveUnlock);
    var s := After(Open(), r);
    assert forall t :: !At(s, t, SConnected);
    assert !Deliverable(s, 0);
    MayDeliverIff(r, 0);
  }
}
