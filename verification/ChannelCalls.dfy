/**
 `send`, `receive` and the two destructors as the source writes them, over the
 fields they share.
 Between any two of their actions the other threads may take any number of
 their own steps, unlocked stores to the tag included. The ghost field
 `machine` says where the run stands in the state machine of `Channel`; every
 action of a call is one step of that machine, so whatever is proved of all
 runs holds of these bodies.
 */
module ChannelCalls {
  import opened Wrappers
  import opened Channel
  import opened ChannelProperties

  predicate IsStepOf(who: Holder, a: Step) {
    match a
    case CopySender(_, _) => false
    case BorrowSender(_, _) => false
    case SendLock(t, _) => who == BySender(t)
    case SendPush(t) => who == BySender(t)
    case SendLoadTag(t) => who == BySender(t)
    case SendStoreTag(t) => who == BySender(t)
    case SendNotify(t) => who == BySender(t)
    case SendUnlock(t) => who == BySender(t)
    case DropTest(t) => who == BySender(t)
    case DropStore(t) => who == BySender(t)
    case DropNotify(t) => who == BySender(t)
    case DropRelease(t) => who == BySender(t)
    case SpareDropStore => false
    case SpareDropRelease => false
    case _ => who == ByReceiver
  }

  ghost predicate Foreign(who: Holder, acts: seq<Step>) {
    forall i :: 0 <= i < |acts| ==> !IsStepOf(who, acts[i])
  }

  ghost predicate Reaches(s: State, s': State) {
    exists acts :: Executable(s, acts) && After(s, acts) == s'
  }

  /** Threads other than `who` lead from `s` to `s'`. */
  ghost predicate Interference(s: State, s': State, who: Holder) {
    exists acts :: Executable(s, acts) && After(s, acts) == s' && Foreign(who, acts)
  }

  lemma ReachesStep(s: State, s': State, a: Step)
    requires Reaches(s, s') && Enabled(s', a)
    ensures Reaches(s, Apply(s', a))
  {
    var acts :| Executable(s, acts) && After(s, acts) == s';
    RunAppend(s, acts, [a]);
  }

  lemma ReachesTrans(s: State, s': State, s'': State)
    requires Reaches(s, s') && Reaches(s', s'')
    ensures Reaches(s, s'')
  {
    var acts :| Executable(s, acts) && After(s, acts) == s';
    var more :| Executable(s', more) && After(s', more) == s'';
    RunAppend(s, acts, more);
  }

  lemma ReachesItself(s: State)
    ensures Reaches(s, s)
  {
    assert Executable(s, []) && After(s, []) == s;
  }

  /** Between `s` and `s'` the destructor of `who` has stored `Disconnected`. */
  ghost predicate StoresBetween(s: State, s': State, who: Holder) {
    exists m: State ::
      && Reaches(s, m) && m.tag == Disconnected && Reaches(m, s')
      && (if who.BySender? then At(m, who.t, SDropNotify) else m.receiver == RDropRelease)
  }

  /** Between `s` and `s'` the `send` of `t` has loaded the tag, and the result
      says whether it was other than `Disconnected`. */
  ghost predicate LoadsBetween(s: State, s': State, t: nat, ok: bool) {
    exists m: State ::
      Reaches(s, m) && At(m, t, SPushed) && Reaches(m, s') && (ok <==> m.tag != Disconnected)
  }

  function PcOf(s: State, t: nat): Option<SenderPc> {
    if t in s.senders then Some(s.senders[t]) else None
  }

  /** What a thread may rely on while it holds the mutex. */
  ghost predicate Undisturbed(s: State, s': State) {
    && s'.holder == s.holder && s'.queue == s.queue && s'.pushed == s.pushed
    && s'.delivered == s.delivered && s'.log == s.log && s'.fault == s.fault
    && (s'.tag == s.tag || s'.tag == Disconnected)
  }

  lemma HolderExcludesSends(s: State, a: Step, who: Holder)
    requires Exclusive(s) && Enabled(s, a) && !IsStepOf(who, a) && s.holder == Some(who)
    ensures !IsSendStep(a)
  {
  }

  lemma HolderOverReceives(s: State, a: Step, who: Holder)
    requires Exclusive(s) && Enabled(s, a) && !IsStepOf(who, a) && s.holder == Some(who)
    requires IsReceiveStep(a)
    ensures Undisturbed(s, Apply(s, a))
    ensures who == ByReceiver ==> Apply(s, a).receiver == s.receiver
    ensures who.BySender? ==> PcOf(Apply(s, a), who.t) == PcOf(s, who.t)
  {
  }

  lemma HolderOverHandles(s: State, a: Step, who: Holder)
    requires Exclusive(s) && Enabled(s, a) && !IsStepOf(who, a) && s.holder == Some(who)
    requires !IsSendStep(a) && !IsReceiveStep(a)
    ensures Undisturbed(s, Apply(s, a))
    ensures who == ByReceiver ==> Apply(s, a).receiver == s.receiver
    ensures who.BySender? ==> PcOf(Apply(s, a), who.t) == PcOf(s, who.t)
  {
  }

  lemma HolderStep(s: State, a: Step, who: Holder)
    requires Inv(s) && Enabled(s, a) && !IsStepOf(who, a) && s.holder == Some(who)
    ensures Undisturbed(s, Apply(s, a))
    ensures who == ByReceiver ==> Apply(s, a).receiver == s.receiver
    ensures who.BySender? ==> PcOf(Apply(s, a), who.t) == PcOf(s, who.t)
  {
    hide Apply, Enabled, Exclusive, TagInv, RefusalInv, TicketInv, WakeInv, FifoInv, IsSendStep, IsReceiveStep;
    hide Undisturbed, IsStepOf, PcOf;
    HolderExcludesSends(s, a, who);
    if IsReceiveStep(a) {
      HolderOverReceives(s, a, who);
    } else {
      HolderOverHandles(s, a, who);
    }
  }

  lemma ForeignTail(who: Holder, acts: seq<Step>)
    requires Foreign(who, acts) && acts != []
    ensures !IsStepOf(who, acts[0]) && Foreign(who, acts[1..])
  {
    forall i | 0 <= i < |acts[1..]| ensures !IsStepOf(who, acts[1..][i]) {
      assert acts[1..][i] == acts[i + 1];
    }
  }

  /** While `who` holds the mutex, the other threads can only store `Disconnected`. */
  lemma {:induction false} HolderIsUndisturbed(s: State, acts: seq<Step>, who: Holder)
    requires Inv(s) && Executable(s, acts) && Foreign(who, acts) && s.holder == Some(who)
    ensures Undisturbed(s, After(s, acts))
    ensures who == ByReceiver ==> After(s, acts).receiver == s.receiver
    ensures who.BySender? ==> PcOf(After(s, acts), who.t) == PcOf(s, who.t)
    decreases |acts|
  {
    if acts != [] {
      ForeignTail(who, acts);
      InvPreserved(s, acts[0]);
      HolderStep(s, acts[0], who);
      HolderIsUndisturbed(Apply(s, acts[0]), acts[1..], who);
    }
  }

  lemma {:induction false} ForeignersLeaveReceiver(s: State, acts: seq<Step>)
    requires Executable(s, acts) && Foreign(ByReceiver, acts)
    ensures s.receiver.RBlocked? ==> After(s, acts).receiver.RBlocked?
    ensures !s.receiver.RBlocked? ==> After(s, acts).receiver == s.receiver
    ensures After(s, acts).delivered == s.delivered
    decreases |acts|
  {
    if acts != [] {
      ForeignTail(ByReceiver, acts);
      ForeignersLeaveReceiver(Apply(s, acts[0]), acts[1..]);
    }
  }

  lemma {:induction false} ForeignersLeaveSender(s: State, acts: seq<Step>, t: nat)
    requires Executable(s, acts) && Foreign(BySender(t), acts) && t in s.senders
    ensures PcOf(After(s, acts), t) == PcOf(s, t)
    decreases |acts|
  {
    if acts != [] {
      ForeignTail(BySender(t), acts);
      ForeignersLeaveSender(Apply(s, acts[0]), acts[1..], t);
    }
  }

  /** The messages of a queue, without their senders. */
  function Payload(entries: seq<Entry>): seq<Message> {
    seq(|entries|, i requires 0 <= i < |entries| => entries[i].message)
  }

  lemma PayloadAppend(entries: seq<Entry>, e: Entry)
    ensures Payload(entries + [e]) == Payload(entries) + [e.message]
  {
  }

  /** How a finite part of a call of `receive` ended. */
  datatype Outcome = Returned(message: Option<Message>) | StillWaiting

  /** The receiver is inside `receive` and cannot go on by itself: it wants the
      mutex, which someone else holds, or sleeps and was not notified. */
  predicate Stuck(s: State) {
    s.receiver == RBlocked(false) || ((s.receiver == RTop || s.receiver == RWoken) && s.holder.Some?)
  }

  /** `receive` has been called and has not returned. */
  predicate InReceive(r: ReceiverPc) {
    !r.RIdle? && !r.RDropRelease? && !r.RGone?
  }

  /** It is stuck exactly when the one thing it can do is to wake up without reason. */
  lemma StuckIff(s: State)
    requires Inv(s) && InReceive(s.receiver)
    ensures Stuck(s)
            <==> forall a :: IsStepOf(ByReceiver, a) && Enabled(s, a) ==>
                               a == ReceiveWake && s.receiver == RBlocked(false)
  {
    hide TagInv, RefusalInv, TicketInv, WakeInv, FifoInv;
    var next := match s.receiver
      case RTop => ReceiveLock
      case RLocked => ReceiveSwitch
      case RFull => ReceivePop
      case RPoppedLast(_) => ReceiveStoreTag
      case RCheck => ReceiveTest
      case RBlocking => ReceiveBlock
      case RBlocked(_) => ReceiveWake
      case RWoken => ReceiveRelock
      case _ => ReceiveUnlock;
    assert IsStepOf(ByReceiver, next);
    assert !Stuck(s) ==> Enabled(s, next);
  }

  class Mpsc {
    var locked: bool
    var stateTag: StateTag
    var messages: seq<Message>
    /** The use count of the shared pointers to this object. */
    var useCount: int
    /** The condition variable: whether the receiver is blocked on it, and was
        notified since. */
    var blocked: bool
    var notified: bool
    ghost var machine: State
    /** How often the other threads have run while the receiver waited. */
    ghost var turns: nat

    ghost predicate Valid()
      reads this
    {
      Inv(machine) && Shows(machine)
    }

    /** The shared fields are those of `s`. */
    ghost predicate Shows(s: State)
      reads this
    {
      locked == s.holder.Some? && stateTag == s.tag && messages == Payload(s.queue)
      && useCount == s.handles
      && blocked == s.receiver.RBlocked? && notified == (s.receiver == RBlocked(true))
    }

    /** With the two handles that `open` returns. */
    constructor ()
      ensures Valid() && machine == Open()
    {
      locked, stateTag, messages, useCount, machine := false, UpToDate, [], 2, Open();
      blocked, notified, turns := false, false, 0;
    }

    /** The other threads run for a while. Callers see every outcome the
        contract allows; the body takes the shortest of these runs. */
    method OtherThreads(ghost who: Holder)
      requires Valid()
      modifies this
      ensures Valid() && Interference(old(machine), machine, who) && turns == old(turns)
    {
      assert Executable(machine, []) && After(machine, []) == machine && Foreign(who, []);
    }

    /** `machine` takes step `a`, whose effect on the shared fields the caller
        has just written. `origin` is the state in which the call began. */
    ghost method Advance(a: Step, origin: State)
      requires Inv(machine) && Enabled(machine, a) && Reaches(origin, machine)
      requires Shows(Apply(machine, a))
      modifies this`machine
      ensures machine == Apply(old(machine), a) && Valid() && Reaches(origin, machine)
      ensures Reaches(old(machine), machine)
    {
      InvPreserved(machine, a);
      ReachesStep(origin, machine, a);
      ReachesItself(machine);
      ReachesStep(machine, machine, a);
      machine := Apply(machine, a);
    }

    /** `Advance` by the mutex holder `who`, then a while for the others. */
    method Act(ghost a: Step, ghost who: Holder, ghost origin: State)
      requires Inv(machine) && Enabled(machine, a) && Reaches(origin, machine)
      requires Shows(Apply(machine, a))
      requires Apply(machine, a).holder == Some(who)
      modifies this
      ensures Valid() && Reaches(origin, machine) && Undisturbed(Apply(old(machine), a), machine)
      ensures Reaches(old(machine), machine)
      ensures who == ByReceiver ==> machine.receiver == Apply(old(machine), a).receiver
      ensures who.BySender? ==> PcOf(machine, who.t) == PcOf(Apply(old(machine), a), who.t)
      ensures turns == old(turns)
    {
      Advance(a, origin);
      ghost var before := machine;
      OtherThreads(who);
      ghost var acts :| Executable(before, acts) && After(before, acts) == machine && Foreign(who, acts);
      HolderIsUndisturbed(before, acts, who);
      assert Reaches(before, machine);
      ReachesTrans(origin, before, machine);
      ReachesTrans(old(machine), before, machine);
    }

    /** How far a call of `send` on handle `t` has come. */
    ghost predicate Sending(origin: State, t: nat, message: Message, pc: SenderPc)
      reads this
    {
      && Valid() && Reaches(origin, machine)
      && machine.holder == Some(BySender(t)) && At(machine, t, pc)
      && machine.log == origin.log
      && machine.pushed == origin.pushed + [Entry(t, message)]
      && machine.queue == origin.queue + [Entry(t, message)]
    }

    /** Takes the mutex and pushes. */
    method Push(ghost t: nat, message: Message)
      requires Valid() && At(machine, t, SIdle) && machine.holder == None
      modifies this
      ensures Sending(old(machine), t, message, SPushed)
      ensures messages == old(messages) + [message]
      ensures old(stateTag) == Disconnected ==> stateTag == Disconnected
    {
      ghost var who, origin := BySender(t), machine;
      ReachesItself(origin);
      locked := true;
      Act(SendLock(t, message), who, origin);
      PayloadAppend(machine.queue, Entry(t, message));
      messages := messages + [message];
      Act(SendPush(t), who, origin);
    }

    /** `notify_one` reaches the receiver only when it is blocked already. */
    method NotifyOne()
      modifies this`notified
      ensures notified == (old(notified) || blocked)
    {
      if blocked {
        notified := true;
      }
    }

    /** Stores `NewMessage` and notifies. */
    method Publish(ghost t: nat, message: Message, ghost origin: State)
      requires Sending(origin, t, message, SConnected)
      modifies this
      ensures Sending(origin, t, message, SAccepted) && Reaches(old(machine), machine)
    {
      stateTag := NewMessage;
      Act(SendStoreTag(t), BySender(t), origin);
      ghost var stored := machine;
      NotifyOne();
      Act(SendNotify(t), BySender(t), origin);
      ReachesTrans(old(machine), stored, machine);
    }

    /** Releases the mutex and returns. */
    method SendReturns(ghost t: nat, ghost message: Message, ghost origin: State, ghost ok: bool)
      requires Sending(origin, t, message, if ok then SAccepted else SRefused)
      modifies this
      ensures Valid() && Reaches(origin, machine) && machine.holder == None && At(machine, t, SIdle)
      ensures Reaches(old(machine), machine)
      ensures machine.pushed == origin.pushed + [Entry(t, message)]
      ensures machine.queue == origin.queue + [Entry(t, message)]
      ensures machine.log == origin.log + [Sent(|origin.pushed|, ok)]
      ensures if ok then stateTag != UpToDate else stateTag == Disconnected
    {
      locked := false;
      Advance(SendUnlock(t), origin);
    }

    /** The rest of `send`, from its load of the tag. */
    method LoadAndAnswer(ghost t: nat, message: Message, ghost origin: State) returns (ok: bool)
      requires Sending(origin, t, message, SPushed)
      modifies this
      ensures Valid() && Reaches(origin, machine) && machine.holder == None && At(machine, t, SIdle)
      ensures Reaches(old(machine), machine)
      ensures ok <==> old(stateTag) != Disconnected
      ensures machine.pushed == origin.pushed + [Entry(t, message)]
      ensures machine.queue == origin.queue + [Entry(t, message)]
      ensures machine.log == origin.log + [Sent(|origin.pushed|, ok)]
      ensures if ok then stateTag != UpToDate else stateTag == Disconnected
    {
      ghost var loading := machine;
      ok := stateTag != Disconnected;
      Act(SendLoadTag(t), BySender(t), origin);
      ghost var loaded := machine;
      if ok {
        Publish(t, message, origin);
        ReachesTrans(loading, loaded, machine);
      }
      ghost var answered := machine;
      SendReturns(t, message, origin, ok);
      ReachesTrans(loading, answered, machine);
    }

    /** `send`, from the moment the mutex is granted. It returns true exactly when
        the tag was not `Disconnected` at its load, with the message pushed. */
    method Send(ghost t: nat, message: Message) returns (ok: bool)
      requires Valid() && At(machine, t, SIdle) && machine.holder == None
      modifies this
      ensures Valid() && Reaches(old(machine), machine)
      ensures messages == old(messages) + [message]
      ensures machine.pushed == old(machine).pushed + [Entry(t, message)]
      ensures machine.log == old(machine).log + [Sent(|old(machine).pushed|, ok)]
      ensures LoadsBetween(old(machine), machine, t, ok)
      ensures old(stateTag) == Disconnected ==> !ok
      ensures if ok then stateTag != UpToDate else stateTag == Disconnected
      ensures At(machine, t, SIdle) && machine.holder == None
    {
      ghost var origin := machine;
      Push(t, message);
      ghost var loading := machine;
      ok := LoadAndAnswer(t, message, origin);
      assert Reaches(origin, loading) && At(loading, t, SPushed) && Reaches(loading, machine);
      PayloadAppend(origin.queue, Entry(t, message));
    }

    /** How far the call of `receive` has come. */
    ghost predicate Receiving(origin: State, pc: ReceiverPc)
      reads this
    {
      && Valid() && Reaches(origin, machine)
      && machine.receiver == pc && machine.delivered == origin.delivered
    }

    /** Waits, for at most `patience` turns of the other threads, until the mutex is free. */
    method AwaitMutex(ghost origin: State, ghost pc: ReceiverPc, patience: nat) returns (left: nat)
      requires Receiving(origin, pc) && !ReceiverHolds(pc) && !pc.RBlocked?
      modifies this
      ensures Receiving(origin, pc) && left <= patience && (locked ==> left == 0)
      ensures turns + left == old(turns) + patience
      ensures !old(locked) ==> !locked && left == patience && stateTag == old(stateTag)
      ensures old(locked) && !locked ==> left < patience
    {
      left := patience;
      while locked && left > 0
        invariant Receiving(origin, pc) && left <= patience && turns + left == old(turns) + patience
        invariant !old(locked) ==> !locked && left == patience && stateTag == old(stateTag)
        invariant old(locked) && !locked ==> left < patience
      {
        YieldAsReceiver(origin);
        left := left - 1;
      }
    }

    /** The other threads run while the receiver does not hold the mutex. */
    method YieldAsReceiver(ghost origin: State)
      requires Valid() && Reaches(origin, machine)
      modifies this
      ensures Valid() && Reaches(origin, machine) && machine.delivered == old(machine).delivered
      ensures turns == old(turns) + 1
      ensures old(machine).receiver.RBlocked? ==> machine.receiver.RBlocked?
      ensures !old(machine).receiver.RBlocked? ==> machine.receiver == old(machine).receiver
    {
      OtherThreads(ByReceiver);
      turns := turns + 1;
      ghost var acts :| Executable(old(machine), acts) && After(old(machine), acts) == machine
                        && Foreign(ByReceiver, acts);
      ForeignersLeaveReceiver(old(machine), acts);
      assert Reaches(old(machine), machine);
      ReachesTrans(origin, old(machine), machine);
    }

    /** Takes the mutex, which is free. */
    method LockAsReceiver(ghost origin: State, ghost pc: ReceiverPc)
      requires Receiving(origin, pc) && pc in {RTop, RWoken} && !locked
      modifies this
      ensures Receiving(origin, if pc == RTop then RLocked else RCheck)
      ensures (stateTag == old(stateTag) || stateTag == Disconnected) && turns == old(turns)
    {
      locked := true;
      Act(if pc == RTop then ReceiveLock else ReceiveRelock, ByReceiver, origin);
    }

    /** The load of the tag in the switch. */
    method LoadTag(ghost origin: State) returns (tag: StateTag)
      requires Receiving(origin, RLocked)
      modifies this
      ensures Receiving(origin, match tag case NewMessage => RFull case UpToDate => RCheck case Disconnected => RClosed)
      ensures tag == old(stateTag) && (tag == Disconnected ==> stateTag == Disconnected) && turns == old(turns)
    {
      tag := stateTag;
      Act(ReceiveSwitch, ByReceiver, origin);
    }

    /** The predicate given to `wait`. */
    method TagMoved(ghost origin: State) returns (moved: bool)
      requires Receiving(origin, RCheck)
      modifies this
      ensures Receiving(origin, if moved then RLeaving else RBlocking)
      ensures moved == (old(stateTag) != UpToDate) && (moved ==> stateTag != UpToDate) && turns == old(turns)
    {
      moved := stateTag != UpToDate;
      Act(ReceiveTest, ByReceiver, origin);
    }

    /** Releases the mutex and blocks, in one action. */
    method Block(ghost origin: State)
      requires Receiving(origin, RBlocking)
      modifies this
      ensures Receiving(origin, RBlocked(false)) && turns == old(turns)
    {
      locked := false;
      blocked := true;
      Advance(ReceiveBlock, origin);
    }

    /** Sleeps until a notification or, for no reason, earlier, or for `patience`
        turns of the other threads. */
    method Sleep(ghost origin: State, patience: nat) returns (woken: bool, left: nat)
      requires Receiving(origin, RBlocked(false))
      modifies this
      ensures turns + left == old(turns) + patience
      ensures woken ==> Receiving(origin, RWoken) && left < patience
      ensures !woken ==> Receiving(origin, RBlocked(false)) && left == 0
    {
      left := patience;
      var spurious := false;
      while !notified && !spurious && left > 0
        invariant Valid() && Reaches(origin, machine) && machine.delivered == origin.delivered
        invariant machine.receiver.RBlocked? && turns + left == old(turns) + patience
        invariant notified || spurious ==> left < patience
        decreases left
      {
        YieldAsReceiver(origin);
        left := left - 1;
        spurious := *;
      }
      woken := notified || spurious;
      if woken {
        blocked, notified := false, false;
        Advance(ReceiveWake, origin);
      }
    }

    /** Releases the mutex at the end of a turn of the loop, or of a call that
        returns nothing. */
    method UnlockAsReceiver(ghost origin: State, ghost pc: ReceiverPc)
      requires Receiving(origin, pc) && pc in {RLeaving, RClosed}
      modifies this
      ensures Receiving(origin, if pc == RLeaving then RTop else RIdle)
      ensures stateTag == old(stateTag) && !locked && turns == old(turns)
      ensures pc == RClosed ==> stateTag == Disconnected && |machine.log| > 0
                                && machine.log[|machine.log| - 1] == ReceivedNothing
    {
      hide RefusalInv, TicketInv, WakeInv, FifoInv, Executable;
      locked := false;
      Advance(ReceiveUnlock, origin);
    }

    /** `front` and `pop`. */
    method Pop(ghost origin: State) returns (message: Message, ghost e: Entry)
      requires Receiving(origin, RFull)
      modifies this
      ensures Valid() && Reaches(origin, machine)
      ensures machine.receiver == if messages == [] then RPoppedLast(e) else RPopped(e)
      ensures e.message == message && machine.delivered == origin.delivered + [e]
      ensures old(messages) == [message] + messages
      ensures (stateTag == old(stateTag) || stateTag == Disconnected) && turns == old(turns)
    {
      message := messages[0];
      e := machine.queue[0];
      messages := messages[1..];
      Act(ReceivePop, ByReceiver, origin);
    }

    method MarkEmptied(ghost origin: State, ghost e: Entry)
      requires Valid() && Reaches(origin, machine) && machine.receiver == RPoppedLast(e)
      modifies this
      ensures Valid() && Reaches(origin, machine) && machine.receiver == RPopped(e)
      ensures machine.delivered == old(machine).delivered && messages == old(messages)
      ensures (stateTag == UpToDate || stateTag == Disconnected) && turns == old(turns)
    {
      stateTag := UpToDate;
      Act(ReceiveStoreTag, ByReceiver, origin);
    }

    /** Takes the oldest message, marks an emptied queue, and releases the mutex. */
    method TakeMessage(ghost origin: State) returns (message: Message, ghost e: Entry)
      requires Receiving(origin, RFull)
      modifies this
      ensures Valid() && Reaches(origin, machine) && machine.receiver == RIdle
      ensures |machine.log| > 0 && machine.log[|machine.log| - 1] == Received(e)
      ensures e.message == message && machine.delivered == origin.delivered + [e]
      ensures |machine.pushed| > |origin.delivered| && e == machine.pushed[|origin.delivered|]
      ensures old(messages) == [message] + messages
      ensures stateTag == (if messages == [] then UpToDate else old(stateTag)) || stateTag == Disconnected
      ensures !locked && turns == old(turns)
    {
      message, e := Pop(origin);
      if messages == [] {
        MarkEmptied(origin, e);
      }
      ReturnMessage(origin, e);
      assert machine.pushed == machine.delivered + machine.queue;
    }

    /** Releases the mutex with a message in hand. */
    method ReturnMessage(ghost origin: State, ghost e: Entry)
      requires Valid() && Reaches(origin, machine) && machine.receiver == RPopped(e)
      modifies this
      ensures Valid() && Reaches(origin, machine) && machine.receiver == RIdle
      ensures machine.log == old(machine).log + [Received(e)] && machine.delivered == old(machine).delivered
      ensures messages == old(messages) && stateTag == old(stateTag) && !locked && turns == old(turns)
    {
      hide TagInv, RefusalInv, TicketInv, WakeInv, FifoInv, Exclusive, Executable;
      locked := false;
      Advance(ReceiveUnlock, origin);
    }

    /** `cond_var.wait` with its predicate. Returns with the mutex held and the
        predicate true; otherwise it is stuck, after `patience` turns of the
        other threads. */
    method Wait(ghost origin: State, patience: nat) returns (woken: bool, left: nat)
      requires Receiving(origin, RCheck)
      modifies this
      ensures left <= patience && turns + left == old(turns) + patience
      ensures woken ==> Receiving(origin, RLeaving) && stateTag != UpToDate
      ensures woken ==> left < patience || old(stateTag) != UpToDate
      ensures !woken ==> Receiving(origin, machine.receiver) && Stuck(machine) && left == 0
    {
      left := patience;
      woken := TagMoved(origin);
      while !woken
        invariant Receiving(origin, if woken then RLeaving else RBlocking)
        invariant left <= patience && turns + left == old(turns) + patience
        invariant woken ==> stateTag != UpToDate && (left < patience || old(stateTag) != UpToDate)
        decreases !woken, left
      {
        Block(origin);
        var up;
        up, left := Sleep(origin, left);
        if !up {
          return;
        }
        left := AwaitMutex(origin, RWoken, left);
        if locked {
          return;
        }
        LockAsReceiver(origin, RWoken);
        woken := TagMoved(origin);
      }
    }

    /** What a call of `receive` that ended this way has done. */
    ghost predicate Concluded(origin: State, r: Outcome)
      reads this
    {
      && Valid() && Reaches(origin, machine)
      && (r.StillWaiting? ==> Stuck(machine))
      && (r.Returned? ==> machine.receiver == RIdle)
      && (r.Returned? ==> |machine.log| > 0)
      && (r.Returned? && r.message.Some? ==>
            var last := machine.log[|machine.log| - 1];
            && last.Received? && last.entry.message == r.message.value
            && machine.delivered == origin.delivered + [last.entry]
            && |machine.pushed| > |origin.delivered| && last.entry == machine.pushed[|origin.delivered|])
      && (r.Returned? && r.message.None? ==>
            machine.log[|machine.log| - 1] == ReceivedNothing && stateTag == Disconnected)
      && (r.StillWaiting? || r.message.None? ==> machine.delivered == origin.delivered)
    }

    /** One turn of the loop of `receive`; None when the loop goes on. It goes on
        exactly after a wait, and it is given up only when it is stuck, after
        `patience` turns of the other threads. */
    method Turn(ghost origin: State, patience: nat) returns (r: Option<Outcome>, left: nat)
      requires Receiving(origin, RTop)
      modifies this
      ensures left <= patience && turns + left == old(turns) + patience
      ensures r.Some? ==> Concluded(origin, r.value)
      ensures r == Some(StillWaiting) ==> left == 0
      ensures r.None? ==> Receiving(origin, RTop) && !locked && stateTag != UpToDate
      ensures r.None? && left == patience ==> !old(locked) && old(stateTag) == UpToDate
      ensures !old(locked) && old(stateTag) != UpToDate ==> r.Some? && r.value.Returned? && left == patience
      ensures !old(locked) && old(stateTag) == Disconnected ==> r == Some(Returned(None))
    {
      hide Inv, Reaches;
      left := AwaitMutex(origin, RTop, patience);
      if locked {
        return Some(StillWaiting), 0;
      }
      LockAsReceiver(origin, RTop);
      var tag := LoadTag(origin);
      match tag {
        case NewMessage =>
          var message, e := TakeMessage(origin);
          r := Some(Returned(Some(message)));
        case UpToDate =>
          var woken;
          woken, left := Wait(origin, left);
          if !woken {
            return Some(StillWaiting), left;
          }
          UnlockAsReceiver(origin, RLeaving);
          r := None;
        case Disconnected =>
          UnlockAsReceiver(origin, RClosed);
          r := Some(Returned(None));
      }
    }

    /**
     `receive`, followed for at most `patience` turns of waiting. A message that
     is returned is the oldest one not delivered yet; an empty result means the
     tag was `Disconnected` under the mutex. It is followed until it returns or,
     after `patience` turns of the other threads, is stuck. A call that finds the
     mutex free and a tag other than `UpToDate` returns at once, and with
     `Disconnected` it returns nothing.
     */
    method Receive(patience: nat) returns (r: Outcome)
      requires Valid() && machine.receiver == RIdle
      modifies this
      ensures Concluded(old(machine), r)
      ensures turns <= old(turns) + patience
      ensures r.StillWaiting? ==> turns == old(turns) + patience
      ensures !old(locked) && old(stateTag) != UpToDate ==> r.Returned? && turns == old(turns)
      ensures !old(locked) && old(stateTag) == Disconnected ==> r == Returned(None)
    {
      ghost var origin := machine;
      ReachesItself(origin);
      Advance(ReceiveCall, origin);
      var turn, left := Turn(origin, patience);
      ghost var atOnce := !old(locked) && old(stateTag) != UpToDate;
      while turn.None?
        invariant 0 <= left <= patience && turns + left == old(turns) + patience
        invariant turn.Some? ==> Concluded(origin, turn.value)
        invariant turn == Some(StillWaiting) ==> left == 0
        invariant turn.None? ==> Receiving(origin, RTop) && !locked && stateTag != UpToDate
        invariant atOnce ==> turn.Some? && turn.value.Returned? && left == patience
        invariant atOnce && old(stateTag) == Disconnected ==> turn == Some(Returned(None))
        decreases turn.None?, left
      {
        if left > 0 {
          YieldAsReceiver(origin);
          left := left - 1;
        }
        turn, left := Turn(origin, left);
      }
      r := turn.value;
    }

    // ---------- Destructors, which do not take the mutex ----------

    /** The destructor of handle `t` has come as far as `pc`. */
    ghost predicate Dropping(origin: State, t: nat, pc: SenderPc)
      reads this
    {
      Valid() && Reaches(origin, machine) && At(machine, t, pc)
    }

    /** One action of the destructor of handle `t`, then a while for the others. */
    method DropStep(ghost a: Step, ghost t: nat, ghost origin: State)
      requires Inv(machine) && Enabled(machine, a) && Reaches(origin, machine)
      requires Shows(Apply(machine, a)) && t in Apply(machine, a).senders
      modifies this
      ensures Dropping(origin, t, Apply(old(machine), a).senders[t])
      ensures Reaches(Apply(old(machine), a), machine)
    {
      hide Inv, Apply, Enabled;
      Advance(a, origin);
      ghost var before := machine;
      OtherThreads(BySender(t));
      ghost var acts :| Executable(before, acts) && After(before, acts) == machine && Foreign(BySender(t), acts);
      ForeignersLeaveSender(before, acts, t);
      assert Reaches(before, machine);
      ReachesTrans(origin, before, machine);
    }

    /** Stores `Disconnected` and notifies, the others in between. */
    method Disconnect(ghost t: nat, ghost origin: State)
      requires Dropping(origin, t, SDropStore)
      modifies this
      ensures Dropping(origin, t, SDropRelease) && StoresBetween(origin, machine, BySender(t))
    {
      hide Inv, Reaches;
      stateTag := Disconnected;
      ghost var stored := Apply(machine, DropStore(t));
      ReachesStep(origin, machine, DropStore(t));
      DropStep(DropStore(t), t, origin);
      NotifyOne();
      DropStep(DropNotify(t), t, stored);
      ReachesTrans(origin, stored, machine);
    }

    /** Gives up the shared pointer. */
    method Release(ghost t: nat, ghost origin: State)
      requires Dropping(origin, t, SDropRelease)
      modifies this
      ensures Dropping(origin, t, SGone)
      ensures forall s: State :: Reaches(s, old(machine)) ==> Reaches(s, machine)
    {
      useCount := useCount - 1;
      Advance(DropRelease(t), origin);
      forall s: State | Reaches(s, old(machine)) ensures Reaches(s, machine) {
        ReachesStep(s, old(machine), DropRelease(t));
      }
    }

    /** `~Sender`. It goes through the machine to the end of the handle, and
        through the store and the notification if the use count it read was at
        most 2. */
    method DropSender(ghost t: nat) returns (disconnects: bool)
      requires Valid() && At(machine, t, SIdle) && t !in machine.borrowed
      modifies this
      ensures Dropping(old(machine), t, SGone)
      ensures disconnects <==> old(useCount) <= 2
      ensures disconnects ==> StoresBetween(old(machine), machine, BySender(t))
    {
      ghost var origin := machine;
      ReachesItself(origin);
      disconnects := useCount <= 2;
      DropStep(DropTest(t), t, origin);
      if disconnects {
        Disconnect(t, origin);
      }
      Release(t, origin);
    }

    method DisconnectAsReceiver(ghost origin: State)
      requires Receiving(origin, RIdle)
      modifies this
      ensures Receiving(origin, RDropRelease) && StoresBetween(origin, machine, ByReceiver)
    {
      stateTag := Disconnected;
      Advance(ReceiverDropStore, origin);
      ghost var stored := machine;
      ReachesItself(stored);
      YieldAsReceiver(stored);
      ReachesTrans(origin, stored, machine);
    }

    method ReleaseAsReceiver(ghost origin: State)
      requires Receiving(origin, RDropRelease)
      modifies this
      ensures Receiving(origin, RGone)
      ensures forall s: State :: Reaches(s, old(machine)) ==> Reaches(s, machine)
    {
      useCount := useCount - 1;
      Advance(ReceiverDropRelease, origin);
      forall s: State | Reaches(s, old(machine)) ensures Reaches(s, machine) {
        ReachesStep(s, old(machine), ReceiverDropRelease);
      }
    }

    /** `~Receiver`: stores and does not notify. */
    method DropReceiver()
      requires Valid() && machine.receiver == RIdle
      modifies this
      ensures Receiving(old(machine), RGone) && StoresBetween(old(machine), machine, ByReceiver)
    {
      ghost var origin := machine;
      ReachesItself(origin);
      DisconnectAsReceiver(origin);
      ReleaseAsReceiver(origin);
    }
  }
}
