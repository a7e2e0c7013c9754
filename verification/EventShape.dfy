/**
 The order of the events of one station when the program runs one monitoring
 thread: an insertion, changes of status, and a removal last, unless the
 interface thread is overtaken by a removal between its write and its report.
 */
module EventShape {
  import opened StationTable
  import opened Interleaving

  /** What step `a` reports about `w`. */
  function News(y: System, a: Step, w: nat): seq<EventKind>
    requires Enabled(y, a)
  {
    match a
    case Discover(x, addresses) => if x == w && addresses.hostname !in y.t.byHostname then [Insertion] else []
    case Report(m) => if y.monitors[m].w == w then [ChangedStatus] else []
    case ReportRemoval(m) => if y.monitors[m].w == w then [Removal] else []
    case WakeReport => if y.interface.w == w then [ChangedStatus] else []
    case _ => []
  }

  lemma NewsIsAppended(y: System, a: Step, w: nat)
    requires Enabled(y, a)
    ensures KindsOf(Apply(y, a).t.log, w) == KindsOf(y.t.log, w) + News(y, a, w)
  {
    var log := Apply(y, a).t.log;
    if log != y.t.log {
      assert log == y.t.log + [log[|y.t.log|]];
      KindsAppend(y.t.log, log[|y.t.log|], w);
    }
  }

  /** The removal of `w` is reported while the interface thread has written to
      `w` and not reported it yet. */
  predicate Overtakes(y: System, a: Step, w: nat) {
    a.ReportRemoval? && a.m in y.monitors && y.monitors[a.m] == MMarked(w) && y.interface == IWritten(w)
  }

  predicate EverOvertaken(y: System, acts: seq<Step>, w: nat)
    requires Executable(y, acts)
    decreases |acts|
  {
    acts != [] && (Overtakes(y, acts[0], w) || EverOvertaken(Apply(y, acts[0]), acts[1..], w))
  }

  // ---------- The story of one station ----------

  /** `w` is not to be found in the table, and nobody holds a pointer to it. */
  predicate OutOfReach(y: System, w: nat) {
    && !Listed(y.t, w)
    && (y.interface == IIdle || y.interface.w != w)
    && (forall m :: m in y.monitors ==> y.monitors[m] == MIdle || y.monitors[m].w != w)
  }

  /** Whoever reaches `w` does so after its insertion was reported. */
  ghost predicate Begun(y: System, w: nat) {
    KindsOf(y.t.log, w) == [] ==> OutOfReach(y, w)
  }

  /** A station not met yet has no events, and a marked one counts as removed. */
  ghost predicate Orderly(y: System, w: nat) {
    && (w !in y.t.status ==> KindsOf(y.t.log, w) == [])
    && (forall m :: m in y.monitors && y.monitors[m] == MMarked(w) ==> w in y.gone)
  }

  /** `w` was removed, and no thread has anything to report about it. */
  predicate Settled(y: System, w: nat) {
    && w in y.gone && y.interface != IWritten(w)
    && forall m :: m in y.monitors ==> y.monitors[m] != MWritten(w) && y.monitors[m] != MMarked(w)
  }

  /** The events of `w` are in order; if they have ended, no more will follow. */
  ghost predicate InOrder(y: System, w: nat) {
    WellShaped(KindsOf(y.t.log, w)) && (Ended(KindsOf(y.t.log, w)) ==> Settled(y, w))
  }

  /** They are out of order, or will be with the next report of the interface. */
  predicate OutOfOrder(y: System, w: nat) {
    !WellShaped(KindsOf(y.t.log, w)) || (Ended(KindsOf(y.t.log, w)) && y.interface == IWritten(w))
  }

  ghost predicate Story(y: System, w: nat, overtaken: bool) {
    Begun(y, w) && Orderly(y, w) && if overtaken then OutOfOrder(y, w) else InOrder(y, w)
  }

  lemma Lengthened(kinds: seq<EventKind>, kind: EventKind)
    ensures kinds == [] ==> (WellShaped(kinds + [kind]) <==> kind == Insertion)
    ensures kinds != [] && WellShaped(kinds) && !Ended(kinds) && kind != Insertion ==> WellShaped(kinds + [kind])
    ensures !WellShaped(kinds) || Ended(kinds) ==> !WellShaped(kinds + [kind])
    ensures Ended(kinds + [kind]) <==> kind == Removal
  {
    var longer := kinds + [kind];
    assert forall i :: 0 <= i < |kinds| ==> longer[i] == kinds[i];
    if Ended(kinds) {
      assert longer[|kinds| - 1] == Removal;
    }
  }

  lemma StrangersKept(y: System, a: Step, w: nat)
    requires Interleaving.Inv(y) && Enabled(y, a) && w !in Apply(y, a).t.status
    ensures w !in y.t.status && News(y, a, w) == []
  {
  }

  lemma MarkedKept(y: System, a: Step, w: nat)
    requires Enabled(y, a)
    requires forall m :: m in y.monitors && y.monitors[m] == MMarked(w) ==> w in y.gone
    ensures forall m :: m in Apply(y, a).monitors && Apply(y, a).monitors[m] == MMarked(w) ==> w in Apply(y, a).gone
  {
  }

  lemma OrderlyKept(y: System, a: Step, w: nat)
    requires Interleaving.Inv(y) && Enabled(y, a) && Orderly(y, w)
    ensures Orderly(Apply(y, a), w)
  {
    hide Apply, KindsOf, Interleaving.Inv;
    MarkedKept(y, a, w);
    NewsIsAppended(y, a, w);
    if w !in Apply(y, a).t.status {
      StrangersKept(y, a, w);
    }
  }

  lemma OutOfReachOfLookup(y: System, a: Step, w: nat)
    requires Interleaving.Inv(y) && Enabled(y, a) && OutOfReach(y, w)
    requires a.Lookup? || a.Extract? || a.WakeLookup?
    ensures OutOfReach(Apply(y, a), w)
  {
    if !a.WakeLookup? && a.mac in y.t.byMac {
      assert Listed(y.t, y.t.byMac[a.mac]);
    }
    if a.WakeLookup? && a.hostname in y.t.byHostname {
      assert Listed(y.t, y.t.byHostname[a.hostname]);
    }
  }

  lemma OutOfReachOfDiscovery(y: System, a: Step, w: nat)
    requires Interleaving.Inv(y) && Enabled(y, a) && OutOfReach(y, w)
    requires a.Discover? && News(y, a, w) == []
    ensures OutOfReach(Apply(y, a), w)
  {
  }

  lemma OutOfReachOfOthers(y: System, a: Step, w: nat)
    requires Enabled(y, a) && OutOfReach(y, w)
    requires !a.Lookup? && !a.Extract? && !a.WakeLookup? && !a.Discover?
    ensures OutOfReach(Apply(y, a), w)
  {
  }

  lemma BegunKept(y: System, a: Step, w: nat)
    requires Interleaving.Inv(y) && Enabled(y, a) && Begun(y, w)
    ensures Begun(Apply(y, a), w)
  {
    hide Apply, KindsOf, Interleaving.Inv, OutOfReach;
    NewsIsAppended(y, a, w);
    if KindsOf(Apply(y, a).t.log, w) == [] {
      if a.Lookup? || a.Extract? || a.WakeLookup? {
        OutOfReachOfLookup(y, a, w);
      } else if a.Discover? {
        OutOfReachOfDiscovery(y, a, w);
      } else {
        OutOfReachOfOthers(y, a, w);
      }
    }
  }

  /** Out of order once, out of order for good. */
  lemma OutOfOrderKept(y: System, a: Step, w: nat)
    requires Enabled(y, a) && OutOfOrder(y, w)
    ensures OutOfOrder(Apply(y, a), w)
  {
    var kinds, news := KindsOf(y.t.log, w), News(y, a, w);
    NewsIsAppended(y, a, w);
    hide KindsOf;
    if news != [] {
      assert news == [news[0]];
      Lengthened(kinds, news[0]);
    } else {
      assert kinds + news == kinds;
    }
  }

  /** Something is reported about `w`. */
  lemma InOrderKeptByNews(y: System, a: Step, w: nat)
    requires Interleaving.Inv(y) && Alone(y) && Enabled(y, a) && Begun(y, w) && Orderly(y, w) && InOrder(y, w)
    requires News(y, a, w) != []
    ensures if Overtakes(y, a, w) then OutOfOrder(Apply(y, a), w) else InOrder(Apply(y, a), w)
  {
    var kinds, news := KindsOf(y.t.log, w), News(y, a, w);
    NewsIsAppended(y, a, w);
    hide KindsOf;
    assert news == [news[0]];
    Lengthened(kinds, news[0]);
  }

  lemma SettledKept(y: System, a: Step, w: nat)
    requires Alone(y) && Enabled(y, a) && Settled(y, w)
    ensures Settled(Apply(y, a), w)
  {
  }

  /** Nothing is reported about `w`. */
  lemma InOrderKeptInSilence(y: System, a: Step, w: nat)
    requires Alone(y) && Enabled(y, a) && InOrder(y, w) && News(y, a, w) == []
    ensures InOrder(Apply(y, a), w)
  {
    hide Apply, KindsOf, Alone, Settled;
    NewsIsAppended(y, a, w);
    assert KindsOf(y.t.log, w) + [] == KindsOf(y.t.log, w);
    if Ended(KindsOf(y.t.log, w)) {
      SettledKept(y, a, w);
    }
  }

  lemma StoryKept(y: System, a: Step, w: nat, overtaken: bool)
    requires Interleaving.Inv(y) && Alone(y) && Enabled(y, a) && Story(y, w, overtaken)
    ensures Story(Apply(y, a), w, overtaken || Overtakes(y, a, w))
  {
    hide Apply, Interleaving.Inv, Alone, Begun, Orderly, InOrder, OutOfOrder;
    OrderlyKept(y, a, w);
    BegunKept(y, a, w);
    if overtaken {
      OutOfOrderKept(y, a, w);
    } else if News(y, a, w) != [] {
      InOrderKeptByNews(y, a, w);
    } else {
      InOrderKeptInSilence(y, a, w);
    }
  }

  lemma {:induction false} StoryOfRun(y: System, acts: seq<Step>, w: nat, overtaken: bool)
    requires Interleaving.Inv(y) && Alone(y) && Executable(y, acts) && Story(y, w, overtaken)
    ensures Story(After(y, acts), w, overtaken || EverOvertaken(y, acts, w))
    decreases |acts|
  {
    hide Apply, Enabled, Interleaving.Inv, Alone, Story, Overtakes;
    if acts != [] {
      StoryKept(y, acts[0], w, overtaken);
      Interleaving.InvPreserved(y, acts[0]);
      AloneKept(y, acts[0]);
      StoryOfRun(Apply(y, acts[0]), acts[1..], w, overtaken || Overtakes(y, acts[0], w));
    }
  }

  lemma StoryAtStart(m: nat, w: nat)
    ensures Interleaving.Inv(Start({m})) && Alone(Start({m})) && Story(Start({m}), w, false)
  {
    assert KindsOf<nat>([], w) == [];
  }

  /**
   With one monitoring thread, in every interleaving that ends with the interface
   thread idle: the events of a station are an insertion, changes of status and
   at most one removal, which is last, if and only if its removal was never
   reported between a write of the interface to that station and the report of
   that write.
   */
  lemma EventsInOrderIff(m: nat, acts: seq<Step>, w: nat)
    requires Executable(Start({m}), acts) && After(Start({m}), acts).interface == IIdle
    ensures WellShaped(KindsOf(After(Start({m}), acts).t.log, w)) <==> !EverOvertaken(Start({m}), acts, w)
  {
    StoryAtStart(m, w);
    StoryOfRun(Start({m}), acts, w, false);
  }
}
