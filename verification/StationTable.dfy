/**
 The table of work stations as a value (`src/management.cpp`): three indices
 over station objects, the status of every object, and the events dispatched.
 `S` is the identity of a station object.
 */
module StationTable {
  import opened Address

  datatype Status = Disconnected | Asleep | Awaken

  datatype EventKind = Insertion | Removal | ChangedStatus

  datatype Event<S> = Event(kind: EventKind, station: S)

  /** `addresses` and `status` cover every station object the table has met,
      whether or not it is in an index. */
  datatype Table<S> = Table(
    addresses: map<S, NodeAddresses>,
    status: map<S, Status>,
    byMac: map<MacAddress, S>,
    byIp: map<IpAddress, S>,
    byHostname: map<string, S>,
    log: seq<Event<S>>)

  function Empty<S>(): Table<S> {
    Table(map[], map[], map[], map[], map[], [])
  }

  predicate Known<S(==)>(t: Table<S>) {
    && t.addresses.Keys == t.status.Keys
    && (forall k :: k in t.byMac ==> t.byMac[k] in t.status)
    && (forall k :: k in t.byIp ==> t.byIp[k] in t.status)
    && (forall k :: k in t.byHostname ==> t.byHostname[k] in t.status)
  }

  // ---------- The operations ----------

  function Meet<S>(t: Table<S>, w: S, a: NodeAddresses, s: Status): Table<S> {
    t.(addresses := t.addresses[w := a], status := t.status[w := s])
  }

  predicate Accepts<S>(t: Table<S>, a: NodeAddresses, s: Status) {
    s != Disconnected && a.hostname !in t.byHostname
  }

  /** `map::insert` leaves a key that is already there alone. */
  function Added<K, S>(m: map<K, S>, k: K, w: S): map<K, S> {
    if k in m then m else m[k := w]
  }

  /** Only the hostname decides; the other indices keep what they have. */
  function Insert<S>(t: Table<S>, w: S, a: NodeAddresses, s: Status): Table<S> {
    var t := Meet(t, w, a, s);
    if !Accepts(t, a, s) then t
    else t.(byHostname := t.byHostname[a.hostname := w],
            byMac := Added(t.byMac, a.mac, w),
            byIp := Added(t.byIp, a.ip, w),
            log := t.log + [Event(Insertion, w)])
  }

  function OnRemove<S(==)>(t: Table<S>, w: S): Table<S> {
    t.(status := t.status[w := Disconnected], log := t.log + [Event(Removal, w)])
  }

  function RemoveByMac<S(==)>(t: Table<S>, mac: MacAddress): Table<S>
    requires Known(t)
  {
    if mac !in t.byMac then t
    else
      var w := t.byMac[mac];
      OnRemove(t.(byMac := t.byMac - {mac}, byIp := t.byIp - {t.addresses[w].ip},
                  byHostname := t.byHostname - {t.addresses[w].hostname}), w)
  }

  function RemoveByIp<S(==)>(t: Table<S>, ip: IpAddress): Table<S>
    requires Known(t)
  {
    if ip !in t.byIp then t
    else
      var w := t.byIp[ip];
      OnRemove(t.(byIp := t.byIp - {ip}, byMac := t.byMac - {t.addresses[w].mac},
                  byHostname := t.byHostname - {t.addresses[w].hostname}), w)
  }

  function RemoveByHostname<S(==)>(t: Table<S>, hostname: string): Table<S>
    requires Known(t)
  {
    if hostname !in t.byHostname then t
    else
      var w := t.byHostname[hostname];
      OnRemove(t.(byHostname := t.byHostname - {hostname}, byMac := t.byMac - {t.addresses[w].mac},
                  byIp := t.byIp - {t.addresses[w].ip}), w)
  }

  function SetStatus<S(==)>(t: Table<S>, w: S, s: Status): Table<S> {
    t.(status := t.status[w := s], log := t.log + [Event(ChangedStatus, w)])
  }

  function UpdateSleepStatus<S(==)>(t: Table<S>, mac: MacAddress, s: Status): Table<S>
    requires Known(t)
  {
    if mac in t.byMac && t.status[t.byMac[mac]] != s then SetStatus(t, t.byMac[mac], s) else t
  }

  function WakeUp<S(==)>(t: Table<S>, hostname: string): Table<S>
    requires Known(t)
  {
    if hostname in t.byHostname && t.status[t.byHostname[hostname]] == Asleep
    then SetStatus(t, t.byHostname[hostname], Awaken) else t
  }

  datatype Op<S> =
    | Inserting(w: S, a: NodeAddresses, s: Status)
    | RemovingByMac(mac: MacAddress)
    | RemovingByIp(ip: IpAddress)
    | RemovingByHostname(hostname: string)
    | Updating(mac: MacAddress, s: Status)
    | Waking(hostname: string)

  /** An object keeps its addresses, and only the table changes its status. */
  predicate Possible<S(==)>(t: Table<S>, op: Op<S>) {
    Known(t) && (op.Inserting? && op.w in t.status ==> t.addresses[op.w] == op.a && t.status[op.w] == op.s)
  }

  function Perform<S(==)>(t: Table<S>, op: Op<S>): Table<S>
    requires Possible(t, op)
  {
    match op
    case Inserting(w, a, s) => Insert(t, w, a, s)
    case RemovingByMac(mac) => RemoveByMac(t, mac)
    case RemovingByIp(ip) => RemoveByIp(t, ip)
    case RemovingByHostname(hostname) => RemoveByHostname(t, hostname)
    case Updating(mac, s) => UpdateSleepStatus(t, mac, s)
    case Waking(hostname) => WakeUp(t, hostname)
  }

  predicate AllPossible<S(==)>(t: Table<S>, ops: seq<Op<S>>)
    decreases |ops|
  {
    ops == [] || (Possible(t, ops[0]) && AllPossible(Perform(t, ops[0]), ops[1..]))
  }

  function PerformAll<S(==)>(t: Table<S>, ops: seq<Op<S>>): Table<S>
    requires AllPossible(t, ops)
    decreases |ops|
  {
    if ops == [] then t else PerformAll(Perform(t, ops[0]), ops[1..])
  }

  // ---------- The invariant ----------

  /** Every key is its station's own address, and the hostname index dominates
      the other two. */
  ghost predicate Indexed<S>(t: Table<S>) {
    && Known(t)
    && (forall h :: h in t.byHostname ==> t.addresses[t.byHostname[h]].hostname == h)
    && (forall k :: k in t.byMac ==> t.addresses[t.byMac[k]].mac == k && Listed(t, t.byMac[k]))
    && (forall k :: k in t.byIp ==> t.addresses[t.byIp[k]].ip == k && Listed(t, t.byIp[k]))
  }

  /** The hostname index holds `w`, under its hostname. */
  predicate Listed<S(==)>(t: Table<S>, w: S)
  {
    w in t.addresses && t.addresses[w].hostname in t.byHostname
    && t.byHostname[t.addresses[w].hostname] == w
  }

  /** Adds on insertion, deletes on removal. */
  function Replay<S(==)>(log: seq<Event<S>>): set<S> {
    if log == [] then {}
    else
      var before := Replay(log[..|log| - 1]);
      var e := log[|log| - 1];
      match e.kind
      case Insertion => before + {e.station}
      case Removal => before - {e.station}
      case ChangedStatus => before
  }

  /** The kinds of the events of one station. */
  function KindsOf<S(==)>(log: seq<Event<S>>, w: S): seq<EventKind> {
    if log == [] then []
    else
      KindsOf(log[..|log| - 1], w)
      + (if log[|log| - 1].station == w then [log[|log| - 1].kind] else [])
  }

  /** An insertion, changes of status, and at most one removal, which is last. */
  predicate WellShaped(kinds: seq<EventKind>) {
    kinds != [] ==>
      kinds[0] == Insertion
      && forall i :: 0 < i < |kinds| ==>
           kinds[i] == ChangedStatus || (kinds[i] == Removal && i == |kinds| - 1)
  }

  predicate Ended(kinds: seq<EventKind>) {
    kinds != [] && kinds[|kinds| - 1] == Removal
  }

  /** The events of a station tell whether it is listed, and an ended station is
      disconnected. */
  predicate Chronicle(kinds: seq<EventKind>, listed: bool, s: Status) {
    && WellShaped(kinds)
    && (listed <==> kinds != [] && !Ended(kinds))
    && (Ended(kinds) ==> s == Disconnected)
  }

  lemma ChronicleGrows(kinds: seq<EventKind>, s: Status, s': Status)
    requires Chronicle(kinds, true, s)
    ensures Chronicle(kinds + [ChangedStatus], true, s')
    ensures Chronicle(kinds + [Removal], false, Disconnected)
  {
  }

  ghost predicate Chronicled<S>(t: Table<S>) {
    forall w {:trigger KindsOf(t.log, w)} :: w in t.status ==>
      Chronicle(KindsOf(t.log, w), w in t.byHostname.Values, t.status[w])
  }

  ghost predicate Logged<S>(t: Table<S>) {
    && (forall i :: 0 <= i < |t.log| ==> t.log[i].station in t.status)
    && Replay(t.log) == t.byHostname.Values
    && Chronicled(t)
  }

  ghost predicate Inv<S>(t: Table<S>) {
    Indexed(t) && Logged(t)
  }

  // ---------- Preservation ----------

  lemma ReplayAppend<S>(log: seq<Event<S>>, e: Event<S>)
    ensures Replay(log + [e]) == (match e.kind
                                  case Insertion => Replay(log) + {e.station}
                                  case Removal => Replay(log) - {e.station}
                                  case ChangedStatus => Replay(log))
  {
    assert (log + [e])[..|log|] == log;
  }

  lemma KindsAppend<S>(log: seq<Event<S>>, e: Event<S>, w: S)
    ensures KindsOf(log + [e], w) == KindsOf(log, w) + (if e.station == w then [e.kind] else [])
  {
    assert (log + [e])[..|log|] == log;
  }

  lemma {:induction false} NoKindsOfStranger<S>(log: seq<Event<S>>, w: S)
    requires forall i :: 0 <= i < |log| ==> log[i].station != w
    ensures KindsOf(log, w) == []
  {
    if log != [] {
      NoKindsOfStranger(log[..|log| - 1], w);
    }
  }

  lemma ListedIffValue<S>(t: Table<S>, w: S)
    requires Indexed(t)
    ensures w in t.byHostname.Values <==> Listed(t, w)
  {
  }

  lemma OwnMacIsKey<S>(t: Table<S>, w: S)
    requires Indexed(t) && w in t.byMac.Values
    ensures w in t.addresses && t.addresses[w].mac in t.byMac && t.byMac[t.addresses[w].mac] == w
  {
    var k :| k in t.byMac && t.byMac[k] == w;
    assert t.addresses[t.byMac[k]].mac == k;
  }

  /** What all three removals do to a table that satisfies the invariant. */
  function Remove<S(==)>(t: Table<S>, w: S): Table<S>
    requires Known(t) && w in t.status
  {
    var a := t.addresses[w];
    OnRemove(t.(byMac := t.byMac - {a.mac}, byIp := t.byIp - {a.ip}, byHostname := t.byHostname - {a.hostname}), w)
  }

  /** Each of them removes the station that its index has under the key given,
      which is listed, and nothing if there is none. */
  lemma RemovalsAreOne<S>(t: Table<S>, op: Op<S>)
    requires Indexed(t) && (op.RemovingByMac? || op.RemovingByIp? || op.RemovingByHostname?)
    ensures Perform(t, op) == t || exists w :: Listed(t, w) && Perform(t, op) == Remove(t, w)
    ensures op.RemovingByMac? ==>
              Perform(t, op) == if op.mac in t.byMac then Remove(t, t.byMac[op.mac]) else t
    ensures op.RemovingByIp? ==>
              Perform(t, op) == if op.ip in t.byIp then Remove(t, t.byIp[op.ip]) else t
    ensures op.RemovingByHostname? ==>
              Perform(t, op) == if op.hostname in t.byHostname then Remove(t, t.byHostname[op.hostname]) else t
  {
    match op {
      case RemovingByMac(mac) =>
        if mac in t.byMac { assert Listed(t, t.byMac[mac]); }
      case RemovingByIp(ip) =>
        if ip in t.byIp { assert Listed(t, t.byIp[ip]); }
      case RemovingByHostname(hostname) =>
        if hostname in t.byHostname { assert Listed(t, t.byHostname[hostname]); }
      case _ =>
    }
  }

  lemma IndexedAfterRefusal<S>(t: Table<S>, w: S, a: NodeAddresses, s: Status)
    requires Indexed(t) && (w in t.status ==> t.addresses[w] == a) && !Accepts(t, a, s)
    ensures Indexed(Insert(t, w, a, s))
  {
  }

  lemma IndexedAfterInsert<S>(t: Table<S>, w: S, a: NodeAddresses, s: Status)
    requires Indexed(t) && (w in t.status ==> t.addresses[w] == a) && Accepts(t, a, s)
    ensures Indexed(Insert(t, w, a, s))
  {
    var t' := Insert(t, w, a, s);
    assert Listed(t', w);
    forall x | Listed(t, x) ensures Listed(t', x) {}
  }

  lemma IndexedAfterRemove<S>(t: Table<S>, w: S)
    requires Indexed(t) && Listed(t, w)
    ensures Indexed(Remove(t, w))
  {
  }

  /** The structural invariant survives every operation, whatever addresses collide. */
  lemma IndexedPreserved<S>(t: Table<S>, op: Op<S>)
    requires Indexed(t) && Possible(t, op)
    ensures Indexed(Perform(t, op))
  {
    if op.Inserting? {
      if Accepts(t, op.a, op.s) {
        IndexedAfterInsert(t, op.w, op.a, op.s);
      } else {
        IndexedAfterRefusal(t, op.w, op.a, op.s);
      }
    } else if op.RemovingByMac? || op.RemovingByIp? || op.RemovingByHostname? {
      RemovalsAreOne(t, op);
      if Perform(t, op) != t {
        var w :| Listed(t, w) && Perform(t, op) == Remove(t, w);
        IndexedAfterRemove(t, w);
      }
    }
  }

  lemma ValuesAdded<K, S>(m: map<K, S>, k: K, w: S)
    requires k !in m
    ensures m[k := w].Values == m.Values + {w}
  {
    var m' := m[k := w];
    assert m'[k] == w;
    forall x | x in m.Values ensures x in m'.Values {
      var j :| j in m && m[j] == x;
      assert m'[j] == x;
    }
  }

  lemma ValuesRemoved<K, S>(m: map<K, S>, k: K)
    requires k in m && forall j :: j in m && m[j] == m[k] ==> j == k
    ensures (m - {k}).Values == m.Values - {m[k]}
  {
    var m' := m - {k};
    forall x | x in m.Values - {m[k]} ensures x in m'.Values {
      var j :| j in m && m[j] == x;
      assert m'[j] == x;
    }
  }

  /** An object that may be inserted has no events yet. */
  lemma NewcomerHasNoEvents<S>(t: Table<S>, w: S, a: NodeAddresses, s: Status)
    requires Inv(t) && Accepts(t, a, s) && Possible(t, Inserting(w, a, s))
    ensures KindsOf(t.log, w) == [] && w !in t.byHostname.Values
  {
    if w !in t.status {
      NoKindsOfStranger(t.log, w);
    } else {
      ListedIffValue(t, w);
    }
  }

  lemma ChronicledAfterInsert<S>(t: Table<S>, w: S, a: NodeAddresses, s: Status)
    requires Inv(t) && Possible(t, Inserting(w, a, s)) && Accepts(t, a, s)
    ensures Chronicled(Insert(t, w, a, s))
  {
    var t' := Insert(t, w, a, s);
    NewcomerHasNoEvents(t, w, a, s);
    ValuesAdded(t.byHostname, a.hostname, w);
    forall x | x in t'.status ensures Chronicle(KindsOf(t'.log, x), x in t'.byHostname.Values, t'.status[x]) {
      KindsAppend(t.log, Event(Insertion, w), x);
      if x == w {
        assert KindsOf(t'.log, x) == [Insertion];
      }
    }
  }

  lemma LoggedAfterInsert<S>(t: Table<S>, w: S, a: NodeAddresses, s: Status)
    requires Inv(t) && Possible(t, Inserting(w, a, s)) && Accepts(t, a, s)
    ensures Logged(Insert(t, w, a, s))
  {
    ChronicledAfterInsert(t, w, a, s);
    hide Chronicled, Indexed, KindsOf;
    var t' := Insert(t, w, a, s);
    assert t'.log == t.log + [Event(Insertion, w)] && t'.byHostname == t.byHostname[a.hostname := w];
    assert Replay(t'.log) == t'.byHostname.Values by {
      ReplayAppend(t.log, Event(Insertion, w));
      ValuesAdded(t.byHostname, a.hostname, w);
    }
  }

  lemma LoggedAfterRefusal<S>(t: Table<S>, w: S, a: NodeAddresses, s: Status)
    requires Inv(t) && Possible(t, Inserting(w, a, s)) && !Accepts(t, a, s)
    ensures Logged(Insert(t, w, a, s))
  {
    if w !in t.status {
      NoKindsOfStranger(t.log, w);
    }
  }

  lemma ChronicledAfterRemove<S>(t: Table<S>, w: S)
    requires Inv(t) && Listed(t, w)
    ensures Chronicled(Remove(t, w))
  {
    var t' := Remove(t, w);
    ValuesRemoved(t.byHostname, t.addresses[w].hostname);
    forall x | x in t'.status ensures Chronicle(KindsOf(t'.log, x), x in t'.byHostname.Values, t'.status[x]) {
      KindsAppend(t.log, Event(Removal, w), x);
      if x == w {
        ListedIffValue(t, w);
        ChronicleGrows(KindsOf(t.log, w), t.status[w], Disconnected);
      }
    }
  }

  lemma LoggedAfterRemove<S>(t: Table<S>, w: S)
    requires Inv(t) && Listed(t, w)
    ensures Logged(Remove(t, w))
  {
    ChronicledAfterRemove(t, w);
    ReplayAppend(t.log, Event(Removal, w));
    ValuesRemoved(t.byHostname, t.addresses[w].hostname);
  }

  lemma ChronicledAfterSetStatus<S>(t: Table<S>, w: S, s: Status)
    requires Inv(t) && Listed(t, w)
    ensures Chronicled(SetStatus(t, w, s))
  {
    var t' := SetStatus(t, w, s);
    forall x | x in t'.status ensures Chronicle(KindsOf(t'.log, x), x in t'.byHostname.Values, t'.status[x]) {
      KindsAppend(t.log, Event(ChangedStatus, w), x);
      if x == w {
        ListedIffValue(t, w);
        ChronicleGrows(KindsOf(t.log, w), t.status[w], s);
      }
    }
  }

  lemma LoggedAfterSetStatus<S>(t: Table<S>, w: S, s: Status)
    requires Inv(t) && Listed(t, w)
    ensures Logged(SetStatus(t, w, s))
  {
    ChronicledAfterSetStatus(t, w, s);
    ReplayAppend(t.log, Event(ChangedStatus, w));
  }

  lemma InvPreserved<S>(t: Table<S>, op: Op<S>)
    requires Inv(t) && Possible(t, op)
    ensures Inv(Perform(t, op))
  {
    IndexedPreserved(t, op);
    if op.Inserting? {
      if Accepts(t, op.a, op.s) {
        LoggedAfterInsert(t, op.w, op.a, op.s);
      } else {
        LoggedAfterRefusal(t, op.w, op.a, op.s);
      }
    } else if Perform(t, op) == t {
    } else if op.Updating? {
      LoggedAfterSetStatus(t, t.byMac[op.mac], op.s);
    } else if op.Waking? {
      LoggedAfterSetStatus(t, t.byHostname[op.hostname], Awaken);
    } else {
      RemovalsAreOne(t, op);
      var w :| Listed(t, w) && Perform(t, op) == Remove(t, w);
      LoggedAfterRemove(t, w);
    }
  }

  lemma {:induction false} RunKeepsInv<S>(t: Table<S>, ops: seq<Op<S>>)
    requires Inv(t) && AllPossible(t, ops)
    ensures Inv(PerformAll(t, ops))
    decreases |ops|
  {
    hide Perform, Possible, Inv;
    if ops != [] {
      InvPreserved(t, ops[0]);
      RunKeepsInv(Perform(t, ops[0]), ops[1..]);
    }
  }
}
