/**
 The whole manager program around the table: discovery threads insert fresh
 station objects, monitoring threads update statuses and remove stations, the
 interface thread wakes stations up. A lookup, the write to the status of what
 it found, and the report to the handlers are separate steps; insertions and
 removals hold the table's lock, a removal for several steps.
 */
module Interleaving {
  import opened Wrappers
  import opened Address
  import opened StationTable

  datatype MonitorPc =
    | MIdle
    | MFound(w: nat, s: Status)  // holds the pointer a lookup returned; next: compare and write
    | MWritten(w: nat)           // next: report the change
    | MExtracted(w: nat)         // holds the table lock, indices done; next: write Disconnected
    | MMarked(w: nat)            // holds the table lock; next: report the removal and unlock

  datatype InterfacePc = IIdle | IFound(w: nat) | IWritten(w: nat)

  /** `holder` is the monitoring thread that holds the table lock; `gone` are
      the stations whose removal has marked them. */
  datatype System = System(
    t: Table<nat>,
    monitors: map<nat, MonitorPc>,
    interface: InterfacePc,
    holder: Option<nat>,
    gone: set<nat>)

  function Start(monitors: set<nat>): System {
    System(Empty(), map m | m in monitors :: MIdle, IIdle, None, {})
  }

  datatype Step =
    | Discover(w: nat, a: NodeAddresses)
    | Lookup(m: nat, mac: MacAddress, s: Status)
    | Write(m: nat)
    | Report(m: nat)
    | Extract(m: nat, mac: MacAddress)
    | Mark(m: nat)
    | ReportRemoval(m: nat)
    | WakeLookup(hostname: string)
    | WakeWrite
    | WakeReport

  predicate MonitorAt(y: System, m: nat, idle: bool) {
    m in y.monitors && (idle ==> y.monitors[m] == MIdle)
  }

  predicate Enabled(y: System, a: Step) {
    match a
    case Discover(w, _) => y.holder == None && w !in y.t.status
    case Lookup(m, _, _) => MonitorAt(y, m, true) && y.holder == None
    case Write(m) => MonitorAt(y, m, false) && y.monitors[m].MFound? && y.monitors[m].w in y.t.status
    case Report(m) => MonitorAt(y, m, false) && y.monitors[m].MWritten?
    case Extract(m, mac) => MonitorAt(y, m, true) && y.holder == None && Known(y.t)
    case Mark(m) => MonitorAt(y, m, false) && y.monitors[m].MExtracted?
    case ReportRemoval(m) => MonitorAt(y, m, false) && y.monitors[m].MMarked?
    case WakeLookup(_) => y.interface == IIdle && y.holder == None
    case WakeWrite => y.interface.IFound? && y.interface.w in y.t.status
    case WakeReport => y.interface.IWritten?
  }

  function Go(y: System, m: nat, pc: MonitorPc): System {
    y.(monitors := y.monitors[m := pc])
  }

  function Apply(y: System, a: Step): System
    requires Enabled(y, a)
  {
    match a
    case Discover(w, a) => y.(t := Insert(y.t, w, a, Awaken))
    case Lookup(m, mac, s) => if mac in y.t.byMac then Go(y, m, MFound(y.t.byMac[mac], s)) else y
    case Write(m) =>
      var w, s := y.monitors[m].w, y.monitors[m].s;
      if y.t.status[w] == s then Go(y, m, MIdle)
      else Go(y.(t := y.t.(status := y.t.status[w := s])), m, MWritten(w))
    case Report(m) =>
      Go(y.(t := y.t.(log := y.t.log + [Event(ChangedStatus, y.monitors[m].w)])), m, MIdle)
    case Extract(m, mac) =>
      if mac !in y.t.byMac then y
      else
        var w := y.t.byMac[mac];
        var a := y.t.addresses[w];
        Go(y.(t := y.t.(byMac := y.t.byMac - {mac}, byIp := y.t.byIp - {a.ip},
                        byHostname := y.t.byHostname - {a.hostname}),
              holder := Some(m)), m, MExtracted(w))
    case Mark(m) =>
      var w := y.monitors[m].w;
      Go(y.(t := y.t.(status := y.t.status[w := Disconnected]), gone := y.gone + {w}), m, MMarked(w))
    case ReportRemoval(m) =>
      Go(y.(t := y.t.(log := y.t.log + [Event(Removal, y.monitors[m].w)]), holder := None), m, MIdle)
    case WakeLookup(hostname) =>
      if hostname in y.t.byHostname then y.(interface := IFound(y.t.byHostname[hostname])) else y
    case WakeWrite =>
      var w := y.interface.w;
      if y.t.status[w] == Asleep
      then y.(t := y.t.(status := y.t.status[w := Awaken]), interface := IWritten(w))
      else y.(interface := IIdle)
    case WakeReport =>
      y.(t := y.t.(log := y.t.log + [Event(ChangedStatus, y.interface.w)]), interface := IIdle)
  }

  predicate Executable(y: System, acts: seq<Step>)
    decreases |acts|
  {
    acts == [] || (Enabled(y, acts[0]) && Executable(Apply(y, acts[0]), acts[1..]))
  }

  function After(y: System, acts: seq<Step>): System
    requires Executable(y, acts)
    decreases |acts|
  {
    if acts == [] then y else After(Apply(y, acts[0]), acts[1..])
  }

  // ---------- What holds for any number of monitoring threads ----------

  predicate Removing(pc: MonitorPc) {
    pc.MExtracted? || pc.MMarked?
  }

  /** The station taken out of the indices whose removal is not reported yet. */
  function Pending(y: System): set<nat> {
    match y.holder
    case None => {}
    case Some(m) =>
      if m in y.monitors && Removing(y.monitors[m]) then {y.monitors[m].w} else {}
  }

  ghost predicate Locking(y: System) {
    && (forall m :: m in y.monitors && Removing(y.monitors[m]) ==> y.holder == Some(m))
    && (y.holder.Some? ==> y.holder.value in y.monitors && Removing(y.monitors[y.holder.value]))
  }

  /** Pointers in hand are station objects, and those gone are in no index. */
  ghost predicate Pointers(y: System) {
    && (forall m :: m in y.monitors && y.monitors[m] != MIdle ==> y.monitors[m].w in y.t.status)
    && (y.interface != IIdle ==> y.interface.w in y.t.status)
    && (forall w :: w in y.gone ==> w in y.t.status && !Listed(y.t, w))
    && (forall m :: m in y.monitors && Removing(y.monitors[m]) ==> !Listed(y.t, y.monitors[m].w))
  }

  ghost predicate Inv(y: System) {
    Indexed(y.t) && Locking(y) && Pointers(y)
  }

  /** The indices do not depend on the statuses and the events. */
  lemma SameIndices(t: Table<nat>, t': Table<nat>)
    requires Indexed(t) && t'.status.Keys == t.status.Keys
    requires t' == t.(status := t'.status, log := t'.log)
    ensures Indexed(t')
    ensures forall w :: Listed(t', w) <==> Listed(t, w)
  {
  }

  lemma IndicesKept(y: System, a: Step)
    requires Inv(y) && Enabled(y, a)
    ensures Indexed(Apply(y, a).t)
  {
    var t' := Apply(y, a).t;
    if a.Discover? {
      IndexedPreserved(y.t, Inserting(a.w, a.a, Awaken));
    } else if a.Extract? && a.mac in y.t.byMac {
      var w := y.t.byMac[a.mac];
      IndexedAfterRemove(y.t, w);
      SameIndices(Remove(y.t, w), t');
    } else {
      SameIndices(y.t, t');
    }
  }

  lemma LockingKept(y: System, a: Step)
    requires Locking(y) && Enabled(y, a)
    ensures Locking(Apply(y, a))
  {
  }

  predicate IsWakeStep(a: Step) {
    a.WakeLookup? || a.WakeWrite? || a.WakeReport?
  }

  lemma PointersKeptByMonitor(y: System, a: Step)
    requires Inv(y) && Enabled(y, a) && !a.Discover? && !a.Extract? && !IsWakeStep(a)
    ensures Pointers(Apply(y, a))
  {
    SameIndices(y.t, Apply(y, a).t);
  }

  lemma PointersKeptByInterface(y: System, a: Step)
    requires Inv(y) && Enabled(y, a) && IsWakeStep(a)
    ensures Pointers(Apply(y, a))
  {
    SameIndices(y.t, Apply(y, a).t);
  }

  lemma PointersKeptOutside(y: System, a: Step)
    requires Inv(y) && Enabled(y, a) && (a.Discover? || a.Extract?)
    ensures Pointers(Apply(y, a))
  {
  }

  lemma InvPreserved(y: System, a: Step)
    requires Inv(y) && Enabled(y, a)
    ensures Inv(Apply(y, a))
  {
    IndicesKept(y, a);
    LockingKept(y, a);
    if a.Discover? || a.Extract? {
      PointersKeptOutside(y, a);
    } else if IsWakeStep(a) {
      PointersKeptByInterface(y, a);
    } else {
      PointersKeptByMonitor(y, a);
    }
  }

  /** Replaying the events gives the listed stations and the one being removed. */
  ghost predicate Reported(y: System) {
    Replay(y.t.log) == y.t.byHostname.Values + Pending(y)
  }

  lemma ReportedAfterDiscover(y: System, a: Step)
    requires Inv(y) && Reported(y) && Enabled(y, a) && a.Discover?
    ensures Reported(Apply(y, a))
  {
    ReplayAppend(y.t.log, Event(Insertion, a.w));
    if a.a.hostname !in y.t.byHostname {
      ValuesAdded(y.t.byHostname, a.a.hostname, a.w);
    }
  }

  lemma ReportedAfterExtract(y: System, a: Step)
    requires Inv(y) && Reported(y) && Enabled(y, a) && a.Extract?
    ensures Reported(Apply(y, a))
  {
    if a.mac in y.t.byMac {
      var w := y.t.byMac[a.mac];
      assert Listed(y.t, w);
      ValuesRemoved(y.t.byHostname, y.t.addresses[w].hostname);
      assert w in y.t.byHostname.Values;
    }
  }

  lemma ReportedAfterReportRemoval(y: System, a: Step)
    requires Inv(y) && Reported(y) && Enabled(y, a) && a.ReportRemoval?
    ensures Reported(Apply(y, a))
  {
    var w := y.monitors[a.m].w;
    ReplayAppend(y.t.log, Event(Removal, w));
    assert Pending(y) == {w};
    assert !Listed(y.t, w);
    ListedIffValue(y.t, w);
  }

  lemma ReportedAfterReport(y: System, a: Step)
    requires Inv(y) && Reported(y) && Enabled(y, a) && (a.Report? || a.WakeReport?)
    ensures Reported(Apply(y, a))
  {
    ReplayAppend(y.t.log, Event(ChangedStatus, if a.Report? then y.monitors[a.m].w else y.interface.w));
  }

  lemma ReportedAfterSilence(y: System, a: Step)
    requires Inv(y) && Reported(y) && Enabled(y, a)
    requires a.Lookup? || a.Write? || a.Mark? || a.WakeLookup? || a.WakeWrite?
    ensures Reported(Apply(y, a))
  {
    assert Apply(y, a).t.log == y.t.log && Apply(y, a).t.byHostname == y.t.byHostname;
    assert Pending(Apply(y, a)) == Pending(y);
  }

  lemma ReportedKept(y: System, a: Step)
    requires Inv(y) && Reported(y) && Enabled(y, a)
    ensures Reported(Apply(y, a))
  {
    if a.Discover? {
      ReportedAfterDiscover(y, a);
    } else if a.Extract? {
      ReportedAfterExtract(y, a);
    } else if a.ReportRemoval? {
      ReportedAfterReportRemoval(y, a);
    } else if a.Report? || a.WakeReport? {
      ReportedAfterReport(y, a);
    } else {
      ReportedAfterSilence(y, a);
    }
  }

  lemma {:induction false} RunReports(y: System, acts: seq<Step>)
    requires Inv(y) && Reported(y) && Executable(y, acts)
    ensures Inv(After(y, acts)) && Reported(After(y, acts))
    decreases |acts|
  {
    hide Apply, Enabled, Inv, Reported;
    if acts != [] {
      InvPreserved(y, acts[0]);
      ReportedKept(y, acts[0]);
      RunReports(Apply(y, acts[0]), acts[1..]);
    }
  }

  /**
   With any number of monitoring threads, in every interleaving: each key is
   its station's own address, the hostname index dominates the other two, and
   whenever the table lock is free the insertions and removals reported give
   exactly the stations of the hostname index.
   */
  lemma TableSoundInEveryInterleaving(monitors: set<nat>, acts: seq<Step>)
    requires Executable(Start(monitors), acts)
    ensures var y := After(Start(monitors), acts);
            && Indexed(y.t)
            && (y.holder == None ==> Replay(y.t.log) == y.t.byHostname.Values)
  {
    RunReports(Start(monitors), acts);
  }

  // ---------- A removed station stays removed ----------

  /** The stations removed up to `y` are disconnected and in no index in `y'`. */
  predicate StillOut(y: System, y': System) {
    forall w :: w in y.gone ==>
      && w in y'.t.status && y'.t.status[w] == Disconnected
      && w !in y'.t.byMac.Values && w !in y'.t.byIp.Values && w !in y'.t.byHostname.Values
  }

  predicate Safe(y: System) {
    StillOut(y, y)
  }

  /** If this is a run, what was removed before it is still out after it. */
  predicate OutAfter(y: System, more: seq<Step>) {
    Executable(y, more) ==> StillOut(y, After(y, more))
  }

  /** One monitoring thread at most, which never holds a pointer to a removed
      station when it is about to write. */
  ghost predicate Alone(y: System) {
    && (forall m, n :: m in y.monitors && n in y.monitors ==> m == n)
    && (forall w :: w in y.gone ==> w in y.t.status && y.t.status[w] == Disconnected)
    && (forall m :: m in y.monitors && (y.monitors[m].MFound? || y.monitors[m].MExtracted?) ==>
          y.monitors[m].w !in y.gone)
  }

  lemma AloneKept(y: System, a: Step)
    requires Inv(y) && Alone(y) && Enabled(y, a)
    ensures Alone(Apply(y, a))
  {
    if (a.Lookup? || a.Extract?) && a.mac in y.t.byMac {
      assert Listed(y.t, y.t.byMac[a.mac]);
    }
  }

  lemma AloneIsSafe(y: System)
    requires Inv(y) && Alone(y)
    ensures Safe(y)
  {
    forall w | w in y.gone
      ensures w !in y.t.byMac.Values && w !in y.t.byIp.Values && w !in y.t.byHostname.Values
    {
      assert !Listed(y.t, w);
      ListedIffValue(y.t, w);
    }
  }

  lemma {:induction false} AloneRunIsSafe(y: System, acts: seq<Step>)
    requires Inv(y) && Alone(y) && Executable(y, acts)
    ensures Safe(After(y, acts))
    decreases |acts|
  {
    hide Apply, Enabled, Inv, Alone, Safe;
    if acts == [] {
      AloneIsSafe(y);
    } else {
      InvPreserved(y, acts[0]);
      AloneKept(y, acts[0]);
      AloneRunIsSafe(Apply(y, acts[0]), acts[1..]);
    }
  }

  /** Stations once removed count as removed in every later state. */
  lemma {:induction false} GoneStays(y: System, acts: seq<Step>)
    requires Executable(y, acts)
    ensures y.gone <= After(y, acts).gone
    decreases |acts|
  {
    if acts != [] {
      GoneStays(Apply(y, acts[0]), acts[1..]);
    }
  }

  lemma {:induction false} RunAppend(y: System, acts: seq<Step>, more: seq<Step>)
    requires Executable(y, acts) && Executable(After(y, acts), more)
    ensures Executable(y, acts + more) && After(y, acts + more) == After(After(y, acts), more)
    decreases |acts|
  {
    hide Apply, Enabled;
    if acts == [] {
      assert acts + more == more;
    } else {
      RunAppend(Apply(y, acts[0]), acts[1..], more);
      assert (acts + more)[1..] == acts[1..] + more;
    }
  }

  lemma Then(y: System, acts: seq<Step>, a: Step) returns (longer: seq<Step>)
    requires Executable(y, acts) && Enabled(After(y, acts), a)
    ensures Executable(y, longer) && After(y, longer) == Apply(After(y, acts), a)
  {
    longer := acts + [a];
    RunAppend(y, acts, [a]);
  }

  /** Thread `m` has looked a station up; thread `n` removes the station; then
      `m` writes to it. */
  lemma RivalsResurrect(monitors: set<nat>, m: nat, n: nat, a: NodeAddresses) returns (r: seq<Step>)
    requires m in monitors && n in monitors && m != n
    ensures Executable(Start(monitors), r) && !Safe(After(Start(monitors), r))
  {
    var y := Start(monitors);
    r := Then(y, [], Discover(0, a));
    r := Then(y, r, Lookup(m, a.mac, Asleep));
    r := Then(y, r, Extract(n, a.mac));
    r := Then(y, r, Mark(n));
    r := Then(y, r, Write(m));
    assert 0 in After(y, r).gone && After(y, r).t.status[0] == Asleep;
  }

  lemma AtLeastTwo(s: set<nat>, m: nat, n: nat)
    requires m in s && n in s && m != n
    ensures |s| >= 2
  {
    assert |s - {m}| == |s| - 1 && n in s - {m};
  }

  lemma AloneStaysOut(y: System, acts: seq<Step>, more: seq<Step>)
    requires Inv(y) && Alone(y) && Executable(y, acts)
    ensures OutAfter(After(y, acts), more)
  {
    hide Apply, Enabled, Inv, Alone;
    if Executable(After(y, acts), more) {
      RunAppend(y, acts, more);
      AloneRunIsSafe(y, acts + more);
      GoneStays(After(y, acts), more);
    }
  }

  /**
   Removal is final in every interleaving exactly when the program runs at most
   one monitoring thread, however many discovery threads insert and whenever
   the interface wakes stations up: what was removed after `acts` is still out
   after `more`.
   */
  lemma RemovalFinalIffOneMonitor(monitors: set<nat>)
    ensures (forall acts, more :: Executable(Start(monitors), acts) ==> OutAfter(After(Start(monitors), acts), more))
            <==> |monitors| <= 1
  {
    if |monitors| <= 1 {
      forall m, n | m in monitors && n in monitors ensures m == n {
        if m != n {
          AtLeastTwo(monitors, m, n);
        }
      }
      forall acts, more | Executable(Start(monitors), acts) ensures OutAfter(After(Start(monitors), acts), more) {
        AloneStaysOut(Start(monitors), acts, more);
      }
    } else {
      var m :| m in monitors;
      assert |monitors - {m}| == |monitors| - 1;
      var n :| n in monitors - {m};
      var a := NodeAddresses([0, 0, 0, 0, 0, 0], [0, 0, 0, 0], "");
      var r := RivalsResurrect(monitors, m, n, a);
      assert !OutAfter(After(Start(monitors), r), []);
    }
  }

  /** One monitoring thread and one station, in the indices or not. */
  function Scene(a: NodeAddresses, s: Status, listed: bool, log: seq<Event<nat>>, pc: MonitorPc, i: InterfacePc)
    : System
  {
    var t := if listed
             then Table(map[0 := a], map[0 := s], map[a.mac := 0], map[a.ip := 0], map[a.hostname := 0], log)
             else Table(map[0 := a], map[0 := s], map[], map[], map[], log);
    System(t, map[0 := pc], i, if Removing(pc) then Some(0) else None, if pc.MMarked? then {0} else {})
  }

  lemma Discovered(a: NodeAddresses) returns (r: seq<Step>)
    ensures Executable(Start({0}), r)
    ensures After(Start({0}), r) == Scene(a, Awaken, true, [Event(Insertion, 0)], MIdle, IIdle)
  {
    assert Start({0}).monitors == map[0 := MIdle];
    r := Then(Start({0}), [], Discover(0, a));
  }

  lemma LookedUp(a: NodeAddresses) returns (r: seq<Step>)
    ensures Executable(Start({0}), r)
    ensures After(Start({0}), r) == Scene(a, Awaken, true, [Event(Insertion, 0)], MFound(0, Asleep), IIdle)
  {
    r := Discovered(a);
    r := Then(Start({0}), r, Lookup(0, a.mac, Asleep));
  }

  lemma Written(a: NodeAddresses) returns (r: seq<Step>)
    ensures Executable(Start({0}), r)
    ensures After(Start({0}), r) == Scene(a, Asleep, true, [Event(Insertion, 0)], MWritten(0), IIdle)
  {
    r := LookedUp(a);
    r := Then(Start({0}), r, Write(0));
  }

  lemma PutToSleep(a: NodeAddresses) returns (r: seq<Step>)
    ensures Executable(Start({0}), r)
    ensures After(Start({0}), r)
            == Scene(a, Asleep, true, [Event(Insertion, 0), Event(ChangedStatus, 0)], MIdle, IIdle)
  {
    r := Written(a);
    r := Then(Start({0}), r, Report(0));
  }

  lemma Woken(a: NodeAddresses) returns (r: seq<Step>)
    ensures Executable(Start({0}), r)
    ensures After(Start({0}), r)
            == Scene(a, Awaken, true, [Event(Insertion, 0), Event(ChangedStatus, 0)], MIdle, IWritten(0))
  {
    var y := Start({0});
    r := PutToSleep(a);
    r := Then(y, r, WakeLookup(a.hostname));
    r := Then(y, r, WakeWrite);
  }

  lemma ExtractedWhileWoken(a: NodeAddresses) returns (r: seq<Step>)
    ensures Executable(Start({0}), r)
    ensures After(Start({0}), r)
            == Scene(a, Awaken, false, [Event(Insertion, 0), Event(ChangedStatus, 0)], MExtracted(0), IWritten(0))
  {
    r := Woken(a);
    r := Then(Start({0}), r, Extract(0, a.mac));
  }

  lemma MarkedWhileWoken(a: NodeAddresses) returns (r: seq<Step>)
    ensures Executable(Start({0}), r)
    ensures After(Start({0}), r)
            == Scene(a, Disconnected, false, [Event(Insertion, 0), Event(ChangedStatus, 0)], MMarked(0), IWritten(0))
  {
    r := ExtractedWhileWoken(a);
    r := Then(Start({0}), r, Mark(0));
  }

  /** Even with one monitoring thread the reports may be out of order: the
      interface's change of status is reported after the removal. */
  lemma ChangeReportedAfterRemoval(a: NodeAddresses) returns (r: seq<Step>)
    ensures Executable(Start({0}), r)
    ensures !WellShaped(KindsOf(After(Start({0}), r).t.log, 0))
  {
    var y := Start({0});
    r := MarkedWhileWoken(a);
    r := Then(y, r, ReportRemoval(0));
    r := Then(y, r, WakeReport);
    assert After(y, r).t.log
        == [Event(Insertion, 0), Event(ChangedStatus, 0), Event(Removal, 0), Event(ChangedStatus, 0)];
    FourKinds(Event(Insertion, 0), Event(ChangedStatus, 0), Event(Removal, 0), Event(ChangedStatus, 0));
    assert [Insertion, ChangedStatus, Removal, ChangedStatus][2] == Removal;
  }

  lemma FourKinds(a: Event<nat>, b: Event<nat>, c: Event<nat>, d: Event<nat>)
    requires a.station == b.station == c.station == d.station == 0
    ensures KindsOf([a, b, c, d], 0) == [a.kind, b.kind, c.kind, d.kind]
  {
    assert KindsOf<nat>([], 0) == [];
    KindsAppend([], a, 0);
    assert [] + [a] == [a];
    KindsAppend([a], b, 0);
    assert [a] + [b] == [a, b];
    KindsAppend([a, b], c, 0);
    assert [a, b] + [c] == [a, b, c];
    KindsAppend([a, b, c], d, 0);
    assert [a, b, c] + [d] == [a, b, c, d];
  }
}
