/**
 The use count that `~Sender` tests, and when its test makes anybody store
 `Disconnected`.
 */
module ChannelDrops {
  import opened Channel

  // ---------- The use count ----------

  /** The sender handles that still hold their pointer. */
  function Handles(s: State): set<nat> {
    set t | t in s.senders && s.senders[t] != SGone && t !in s.borrowed
  }

  /** The receiver handles that still hold theirs. */
  function ReceiverHandles(s: State): nat {
    (if s.receiver == RGone then 0 else 1) + s.spares + s.dropping
  }

  /** The use count is the number of handles, and a borrowed handle has no
      destructor of its own. */
  ghost predicate Counted(s: State) {
    && s.handles == |Handles(s)| + ReceiverHandles(s)
    && (forall t :: t in s.borrowed ==> t in s.senders && Usable(s, t))
  }

  lemma SameHandles(s: State, s': State)
    requires forall t :: t in Handles(s) <==> t in Handles(s')
    ensures Handles(s) == Handles(s')
  {
  }

  lemma HandlesAfterCopy(s: State, a: Step)
    requires Counted(s) && Enabled(s, a) && a.CopySender?
    ensures Handles(Apply(s, a)) == Handles(s) + {a.copy} && a.copy !in Handles(s)
  {
  }

  lemma HandlesAfterRelease(s: State, a: Step)
    requires Counted(s) && Enabled(s, a) && a.DropRelease?
    ensures Handles(Apply(s, a)) == Handles(s) - {a.t} && a.t in Handles(s)
  {
  }

  lemma HandlesAfterOtherStep(s: State, a: Step)
    requires Counted(s) && Enabled(s, a) && !a.CopySender? && !a.DropRelease?
    ensures Handles(Apply(s, a)) == Handles(s)
  {
    SameHandles(s, Apply(s, a));
  }

  lemma BorrowersStay(s: State, a: Step)
    requires Counted(s) && Enabled(s, a)
    ensures forall t :: t in Apply(s, a).borrowed ==> t in Apply(s, a).senders && Usable(Apply(s, a), t)
  {
    hide Handles;
  }

  lemma CountStays(s: State, a: Step)
    requires Counted(s) && Enabled(s, a)
    ensures Apply(s, a).handles == |Handles(Apply(s, a))| + ReceiverHandles(Apply(s, a))
  {
    if a.CopySender? {
      HandlesAfterCopy(s, a);
    } else if a.DropRelease? {
      HandlesAfterRelease(s, a);
    } else {
      HandlesAfterOtherStep(s, a);
    }
    hide Handles, Usable;
  }

  /** Every step keeps the use count equal to the number of handles alive. */
  lemma CountedPreserved(s: State, a: Step)
    requires Counted(s) && Enabled(s, a)
    ensures Counted(Apply(s, a))
  {
    BorrowersStay(s, a);
    CountStays(s, a);
    hide Apply, Handles, Usable;
  }

  lemma {:induction false} RunKeepsCounted(s: State, acts: seq<Step>)
    requires Counted(s) && Executable(s, acts)
    ensures Counted(After(s, acts))
    decreases |acts|
  {
    hide Apply, Enabled, Counted;
    if acts != [] {
      CountedPreserved(s, acts[0]);
      RunKeepsCounted(Apply(s, acts[0]), acts[1..]);
    }
  }

  lemma OpenIsCounted()
    ensures Counted(Open())
  {
    assert Handles(Open()) == {0};
  }

  /** In every reachable state the use count is the number of sender handles and
      receiver handles that hold their pointer, moved-from ones included. */
  lemma UseCountIsExact(acts: seq<Step>)
    requires Executable(Open(), acts)
    ensures var s := After(Open(), acts); s.handles == |Handles(s)| + ReceiverHandles(s)
  {
    OpenIsCounted();
    RunKeepsCounted(Open(), acts);
  }

  // ---------- When a destructor stores ----------

  /** No sender handle other than that of `t` is left. */
  predicate OthersGone(s: State, t: nat) {
    forall x :: x in s.senders && x != t && x !in s.borrowed ==> s.senders[x] == SGone
  }

  /** At most two handles are left, of senders and receivers together. */
  predicate FewLeft(s: State) {
    |Handles(s)| + ReceiverHandles(s) <= 2
  }

  /** Two are left when `t` is the last sender and there is one receiver handle,
      or when no receiver handle is left and at most one other sender. */
  lemma FewLeftIff(s: State, t: nat)
    requires Counted(s) && Enabled(s, DropTest(t))
    ensures ReceiverHandles(s) == 1 ==> (FewLeft(s) <==> OthersGone(s, t))
    ensures ReceiverHandles(s) >= 2 ==> !FewLeft(s)
    ensures ReceiverHandles(s) == 0 ==> (FewLeft(s) <==> |Handles(s) - {t}| <= 1)
  {
    assert t in Handles(s) && |Handles(s) - {t}| == |Handles(s)| - 1;
    if OthersGone(s, t) {
      assert Handles(s) == {t};
    } else {
      var x :| x in s.senders && x != t && x !in s.borrowed && s.senders[x] != SGone;
      assert x in Handles(s) - {t};
    }
  }

  predicate AnyStore(acts: seq<Step>) {
    exists i :: 0 <= i < |acts| && acts[i].DropStore?
  }

  /** Some `~Sender` reads the use count when at most two handles are left. */
  predicate TestedFew(s: State, acts: seq<Step>)
    requires Executable(s, acts)
    decreases |acts|
  {
    acts != [] && ((acts[0].DropTest? && FewLeft(s)) || TestedFew(Apply(s, acts[0]), acts[1..]))
  }

  /** Some `~Sender` reads the use count when every other sender handle is gone. */
  predicate TestedLast(s: State, acts: seq<Step>)
    requires Executable(s, acts)
    decreases |acts|
  {
    acts != [] && ((acts[0].DropTest? && OthersGone(s, acts[0].t)) || TestedLast(Apply(s, acts[0]), acts[1..]))
  }

  ghost predicate AboutToStore(s: State) {
    exists t :: At(s, t, SDropStore)
  }

  predicate AllGone(s: State) {
    forall t :: t in s.senders && t !in s.borrowed ==> s.senders[t] == SGone
  }

  lemma AboutToStoreAfterTest(s: State, a: Step)
    requires Counted(s) && Enabled(s, a) && a.DropTest?
    ensures AboutToStore(Apply(s, a)) <==> AboutToStore(s) || FewLeft(s)
  {
    var s' := Apply(s, a);
    if FewLeft(s) {
      assert At(s', a.t, SDropStore);
    } else if AboutToStore(s) {
      var t :| At(s, t, SDropStore);
      assert At(s', t, SDropStore);
    }
    forall t | At(s', t, SDropStore) && t != a.t ensures At(s, t, SDropStore) {}
  }

  lemma AboutToStoreAfterOtherStep(s: State, a: Step)
    requires Enabled(s, a) && !a.DropTest? && !a.DropStore?
    ensures AboutToStore(Apply(s, a)) <==> AboutToStore(s)
  {
    var s' := Apply(s, a);
    forall t ensures At(s', t, SDropStore) <==> At(s, t, SDropStore) {}
  }

  lemma AnyStoreSplits(acts: seq<Step>)
    requires acts != []
    ensures AnyStore(acts) <==> acts[0].DropStore? || AnyStore(acts[1..])
  {
    if i :| 0 < i < |acts| && acts[i].DropStore? {
      assert acts[1..][i - 1].DropStore?;
    }
    if i :| 0 <= i < |acts[1..]| && acts[1..][i].DropStore? {
      assert acts[i + 1].DropStore?;
    }
  }

  lemma StoreFollows(s: State, a: Step, rest: bool, tested: bool)
    requires Counted(s) && Enabled(s, a)
    requires rest <==> AboutToStore(Apply(s, a)) || tested
    ensures a.DropStore? || rest <==> AboutToStore(s) || (a.DropTest? && FewLeft(s)) || tested
  {
    hide Apply, Counted, FewLeft;
    if a.DropStore? {
      assert At(s, a.t, SDropStore);
    } else if a.DropTest? {
      AboutToStoreAfterTest(s, a);
    } else {
      AboutToStoreAfterOtherStep(s, a);
    }
  }

  lemma {:induction false} StoresFrom(s: State, acts: seq<Step>)
    requires Counted(s) && Executable(s, acts) && !AboutToStore(After(s, acts))
    ensures AnyStore(acts) <==> AboutToStore(s) || TestedFew(s, acts)
    decreases |acts|
  {
    hide Apply, Enabled, Counted, FewLeft, AboutToStore, AnyStore;
    if acts == [] {
      NothingStored();
    } else {
      var s1 := Apply(s, acts[0]);
      CountedPreserved(s, acts[0]);
      StoresFrom(s1, acts[1..]);
      AnyStoreSplits(acts);
      StoreFollows(s, acts[0], AnyStore(acts[1..]), TestedFew(s1, acts[1..]));
    }
  }

  lemma NothingStored()
    ensures !AnyStore([])
  {
  }

  lemma NobodyLeftToStore(s: State)
    requires Counted(s) && AllGone(s)
    ensures !AboutToStore(s)
  {
  }

  /** No receiver handle is dropped in the run; it may be moved. */
  predicate ReceiversStay(acts: seq<Step>) {
    forall i :: 0 <= i < |acts| ==> !acts[i].ReceiverDropStore? && !acts[i].SpareDropStore?
  }

  lemma {:induction false} NoStoreNoDisconnection(s: State, acts: seq<Step>)
    requires s.tag != Disconnected && Executable(s, acts) && ReceiversStay(acts) && !AnyStore(acts)
    ensures After(s, acts).tag != Disconnected
    decreases |acts|
  {
    if acts != [] {
      AnyStoreSplits(acts);
      assert ReceiversStay(acts[1..]) && !acts[0].DropStore?;
      NoStoreNoDisconnection(Apply(s, acts[0]), acts[1..]);
    }
  }

  /** Exactly one receiver handle is counted throughout the run. */
  predicate OneReceiver(s: State, acts: seq<Step>)
    requires Executable(s, acts)
    decreases |acts|
  {
    ReceiverHandles(s) == 1 && (acts == [] || OneReceiver(Apply(s, acts[0]), acts[1..]))
  }

  /** With one receiver handle throughout, few are left when the last sender tests. */
  lemma {:induction false} FewIsLastWithOne(s: State, acts: seq<Step>)
    requires Counted(s) && Executable(s, acts) && OneReceiver(s, acts)
    ensures TestedFew(s, acts) <==> TestedLast(s, acts)
    decreases |acts|
  {
    hide Apply, Counted, FewLeft, ReceiverHandles, OthersGone;
    if acts != [] {
      CountedPreserved(s, acts[0]);
      if acts[0].DropTest? {
        FewLeftIff(s, acts[0].t);
      }
      FewIsLastWithOne(Apply(s, acts[0]), acts[1..]);
    }
  }

  /**
   Over every run at whose end all sender handles are gone, with receiver
   handles moved and dropped at will: some `~Sender` has stored `Disconnected` if
   and only if some `~Sender` read the use count when at most two handles were
   left; with one receiver handle throughout, that is when every other sender
   handle was gone. Otherwise, unless a `~Receiver` stored it, the tag does not
   say `Disconnected` at the end.
   */
  lemma LastDropStoresIff(acts: seq<Step>)
    requires Executable(Open(), acts) && AllGone(After(Open(), acts))
    ensures AnyStore(acts) <==> TestedFew(Open(), acts)
    ensures OneReceiver(Open(), acts) ==> (AnyStore(acts) <==> TestedLast(Open(), acts))
    ensures !TestedFew(Open(), acts) && ReceiversStay(acts) ==> After(Open(), acts).tag != Disconnected
  {
    OpenIsCounted();
    RunKeepsCounted(Open(), acts);
    NobodyLeftToStore(After(Open(), acts));
    StoresFrom(Open(), acts);
    if OneReceiver(Open(), acts) {
      FewIsLastWithOne(Open(), acts);
    }
    if !AnyStore(acts) && ReceiversStay(acts) {
      NoStoreNoDisconnection(Open(), acts);
    }
  }

  // ---------- Moved receivers ----------

  /** At least two receiver handles are counted throughout the run. */
  predicate LeftOver(s: State, acts: seq<Step>)
    requires Executable(s, acts)
    decreases |acts|
  {
    ReceiverHandles(s) >= 2 && (acts == [] || LeftOver(Apply(s, acts[0]), acts[1..]))
  }

  lemma {:induction false} NeverFewWithTwo(s: State, acts: seq<Step>)
    requires Counted(s) && Executable(s, acts) && LeftOver(s, acts)
    ensures !TestedFew(s, acts)
    decreases |acts|
  {
    hide Apply, Counted, FewLeft, ReceiverHandles;
    if acts != [] {
      CountedPreserved(s, acts[0]);
      if acts[0].DropTest? {
        FewLeftIff(s, acts[0].t);
      }
      NeverFewWithTwo(Apply(s, acts[0]), acts[1..]);
    }
  }

  lemma {:induction false} NoStoreWithoutTest(s: State, acts: seq<Step>)
    requires Counted(s) && Executable(s, acts) && !AboutToStore(s) && !TestedFew(s, acts)
    ensures !AnyStore(acts) && !AboutToStore(After(s, acts))
    decreases |acts|
  {
    hide Apply, Enabled, Counted, FewLeft, AboutToStore, AnyStore;
    if acts == [] {
      NothingStored();
    } else {
      var s1 := Apply(s, acts[0]);
      CountedPreserved(s, acts[0]);
      StoreFollows(s, acts[0], AboutToStore(s1), false);
      NoStoreWithoutTest(s1, acts[1..]);
      AnyStoreSplits(acts);
    }
  }

  /**
   After a move the handle left behind is counted, and while it is no `~Sender`
   that begins then ever stores `Disconnected`, not even the last one.
   */
  lemma LeftOverSilencesSenders(before: seq<Step>, acts: seq<Step>)
    requires Executable(Open(), before) && !AboutToStore(After(Open(), before))
    requires Executable(After(Open(), before), acts) && LeftOver(After(Open(), before), acts)
    ensures !AnyStore(acts)
  {
    OpenIsCounted();
    RunKeepsCounted(Open(), before);
    NeverFewWithTwo(After(Open(), before), acts);
    NoStoreWithoutTest(After(Open(), before), acts);
  }
}
