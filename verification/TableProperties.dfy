/** What every sequential run of the table's operations keeps. */
module TableProperties {
  import opened Address
  import opened StationTable

  lemma EmptyInv<S>()
    ensures Inv(Empty<S>())
  {
  }

  /**
   Over every run, whatever addresses collide: each key is its station's own
   address, and each station in the MAC or IP index is in the hostname index
   under its hostname.
   */
  lemma HostnameIndexDominates<S>(ops: seq<Op<S>>)
    requires AllPossible(Empty(), ops)
    ensures var t := PerformAll(Empty(), ops);
            && Known(t)
            && (forall h :: h in t.byHostname ==> t.addresses[t.byHostname[h]].hostname == h)
            && (forall k :: k in t.byMac ==> t.addresses[t.byMac[k]].mac == k && Listed(t, t.byMac[k]))
            && (forall k :: k in t.byIp ==> t.addresses[t.byIp[k]].ip == k && Listed(t, t.byIp[k]))
  {
    EmptyInv<S>();
    RunKeepsInv(Empty(), ops);
  }

  /** Over every run, replaying the events gives the stations of the hostname
      index, and the events of each station are an insertion, changes of status,
      and at most one removal, which is last. */
  lemma LogTellsTheTable<S>(ops: seq<Op<S>>)
    requires AllPossible(Empty(), ops)
    ensures var t := PerformAll(Empty(), ops);
            && Replay(t.log) == t.byHostname.Values
            && forall w :: w in t.status ==> WellShaped(KindsOf(t.log, w))
  {
    EmptyInv<S>();
    RunKeepsInv(Empty(), ops);
    var t := PerformAll(Empty(), ops);
    forall w | w in t.status ensures WellShaped(KindsOf(t.log, w)) {
      KindsShaped(t, w);
    }
  }

  // ---------- Removal is final ----------

  ghost predicate Removed<S>(t: Table<S>, w: S) {
    w in t.status && Ended(KindsOf(t.log, w))
  }

  lemma RemovedIsOut<S>(t: Table<S>, w: S)
    requires Inv(t) && Removed(t, w)
    ensures t.status[w] == Disconnected
    ensures w !in t.byMac.Values && w !in t.byIp.Values && w !in t.byHostname.Values
  {
    ListedIffValue(t, w);
    assert Chronicle(KindsOf(t.log, w), w in t.byHostname.Values, t.status[w]);
  }

  lemma KindsShaped<S>(t: Table<S>, w: S)
    requires Inv(t) && w in t.status
    ensures WellShaped(KindsOf(t.log, w))
  {
    assert Chronicle(KindsOf(t.log, w), w in t.byHostname.Values, t.status[w]);
  }

  /** The station whose status or listing an operation changes, if any, is not removed. */
  lemma RemovedStepQuiet<S>(t: Table<S>, op: Op<S>, w: S)
    requires Inv(t) && Possible(t, op) && Removed(t, w)
    ensures w in Perform(t, op).status && KindsOf(Perform(t, op).log, w) == KindsOf(t.log, w)
  {
    var t' := Perform(t, op);
    RemovedIsOut(t, w);
    if t'.log != t.log {
      var e := t'.log[|t.log|];
      assert t'.log == t.log + [e];
      KindsAppend(t.log, e, w);
      if e.station == w {
        InvPreserved(t, op);
        KindsShaped(t', w);
        AppendedToEnded(KindsOf(t.log, w), e.kind);
      }
    }
  }

  lemma AppendedToEnded(kinds: seq<EventKind>, kind: EventKind)
    requires Ended(kinds)
    ensures !WellShaped(kinds + [kind])
  {
    var longer := kinds + [kind];
    assert longer[|kinds| - 1] == Removal;
  }

  /** Once removed, a station stays disconnected and out of every index, and
      nothing is reported about it any more, whatever operations follow. */
  lemma {:induction false} RemovalIsFinal<S>(t: Table<S>, ops: seq<Op<S>>, w: S)
    requires Inv(t) && AllPossible(t, ops) && Removed(t, w)
    ensures var t' := PerformAll(t, ops);
            && w in t'.status && t'.status[w] == Disconnected
            && w !in t'.byMac.Values && w !in t'.byIp.Values && w !in t'.byHostname.Values
            && KindsOf(t'.log, w) == KindsOf(t.log, w)
    decreases |ops|
  {
    hide Perform, Possible, Inv;
    if ops == [] {
      RemovedIsOut(t, w);
    } else {
      RemovedStepQuiet(t, ops[0], w);
      InvPreserved(t, ops[0]);
      RemovalIsFinal(Perform(t, ops[0]), ops[1..], w);
    }
  }

  // ---------- When the indices agree ----------

  predicate Agree<S(==)>(t: Table<S>) {
    t.byMac.Values == t.byHostname.Values && t.byIp.Values == t.byHostname.Values
  }

  /** An insertion that goes through although its MAC or IP address is taken. */
  predicate Collides<S(==)>(t: Table<S>, op: Op<S>) {
    op.Inserting? && Accepts(t, op.a, op.s) && (op.a.mac in t.byMac || op.a.ip in t.byIp)
  }

  predicate AlwaysAgree<S(==)>(t: Table<S>, ops: seq<Op<S>>)
    requires AllPossible(t, ops)
    decreases |ops|
  {
    Agree(t) && (ops == [] || AlwaysAgree(Perform(t, ops[0]), ops[1..]))
  }

  predicate EverCollides<S(==)>(t: Table<S>, ops: seq<Op<S>>)
    requires AllPossible(t, ops)
    decreases |ops|
  {
    ops != [] && (Collides(t, ops[0]) || EverCollides(Perform(t, ops[0]), ops[1..]))
  }

  lemma InsertAgreesIff<S>(t: Table<S>, w: S, a: NodeAddresses, s: Status)
    requires Inv(t) && Agree(t) && Possible(t, Inserting(w, a, s)) && Accepts(t, a, s)
    ensures Agree(Insert(t, w, a, s)) <==> a.mac !in t.byMac && a.ip !in t.byIp
  {
    NewcomerHasNoEvents(t, w, a, s);
    ValuesAdded(t.byHostname, a.hostname, w);
    if a.mac !in t.byMac {
      ValuesAdded(t.byMac, a.mac, w);
    }
    if a.ip !in t.byIp {
      ValuesAdded(t.byIp, a.ip, w);
    }
  }

  /** With the indices in agreement, a removal deletes one station, and the same
      one, from all three. */
  lemma RemoveDeletesOne<S>(t: Table<S>, w: S)
    requires Indexed(t) && Agree(t) && Listed(t, w)
    ensures var t' := Remove(t, w);
            && t'.byHostname.Values == t.byHostname.Values - {w}
            && t'.byMac.Values == t.byMac.Values - {w}
            && t'.byIp.Values == t.byIp.Values - {w}
            && |t'.byHostname| + 1 == |t.byHostname|
            && |t'.byMac| + 1 == |t.byMac|
            && |t'.byIp| + 1 == |t.byIp|
  {
    var a := t.addresses[w];
    assert w in t.byHostname.Values;
    var k :| k in t.byMac && t.byMac[k] == w;
    var i :| i in t.byIp && t.byIp[i] == w;
    assert k == a.mac && i == a.ip;
    ValuesRemoved(t.byHostname, a.hostname);
    ValuesRemoved(t.byMac, a.mac);
    ValuesRemoved(t.byIp, a.ip);
    SizeRemoved(t.byHostname, a.hostname);
    SizeRemoved(t.byMac, a.mac);
    SizeRemoved(t.byIp, a.ip);
  }

  lemma SizeRemoved<K, S>(m: map<K, S>, k: K)
    requires k in m
    ensures |m - {k}| + 1 == |m|
  {
    var m' := m - {k};
    assert m'.Keys == m.Keys - {k};
  }

  lemma AgreeStepIff<S>(t: Table<S>, op: Op<S>)
    requires Inv(t) && Agree(t) && Possible(t, op)
    ensures Agree(Perform(t, op)) <==> !Collides(t, op)
  {
    if op.Inserting? {
      if Accepts(t, op.a, op.s) {
        InsertAgreesIff(t, op.w, op.a, op.s);
      }
    } else if op.RemovingByMac? || op.RemovingByIp? || op.RemovingByHostname? {
      RemovalsAreOne(t, op);
      if Perform(t, op) != t {
        var w :| Listed(t, w) && Perform(t, op) == Remove(t, w);
        RemoveDeletesOne(t, w);
      }
    }
  }

  /** The three indices hold the same stations throughout a run exactly when
      every insertion that goes through brings a fresh MAC and a fresh IP address. */
  lemma {:induction false} AgreeIffNoCollision<S>(t: Table<S>, ops: seq<Op<S>>)
    requires Inv(t) && Agree(t) && AllPossible(t, ops)
    ensures AlwaysAgree(t, ops) <==> !EverCollides(t, ops)
    decreases |ops|
  {
    if ops != [] {
      var t1 := Perform(t, ops[0]);
      AgreeStepIff(t, ops[0]);
      InvPreserved(t, ops[0]);
      if Agree(t1) {
        AgreeIffNoCollision(t1, ops[1..]);
      } else {
        assert !AlwaysAgree(t1, ops[1..]);
      }
    }
  }

  /** While the indices agree, every lookup is a search of the one set of stations. */
  lemma LookupIsSearch<S>(t: Table<S>, w: S, a: NodeAddresses)
    requires Indexed(t) && Agree(t)
    ensures a.mac in t.byMac && t.byMac[a.mac] == w
            <==> w in t.byHostname.Values && t.addresses[w].mac == a.mac
    ensures a.ip in t.byIp && t.byIp[a.ip] == w
            <==> w in t.byHostname.Values && t.addresses[w].ip == a.ip
    ensures a.hostname in t.byHostname && t.byHostname[a.hostname] == w
            <==> w in t.byHostname.Values && t.addresses[w].hostname == a.hostname
  {
    if w in t.byHostname.Values {
      var k :| k in t.byMac && t.byMac[k] == w;
      var i :| i in t.byIp && t.byIp[i] == w;
      var h :| h in t.byHostname && t.byHostname[h] == w;
      assert t.addresses[w].mac == k && t.addresses[w].ip == i && t.addresses[w].hostname == h;
    } else {
      assert forall k :: k in t.byMac && t.byMac[k] == w ==> w in t.byMac.Values;
      assert forall i :: i in t.byIp && t.byIp[i] == w ==> w in t.byIp.Values;
    }
  }

  /** Two stations with one MAC address: removing the second makes the first,
      which stays in the table, unreachable by its MAC address. */
  lemma CollisionOrphans(mac: MacAddress, ip1: IpAddress, ip2: IpAddress) returns (ops: seq<Op<nat>>)
    requires ip1 != ip2
    ensures AllPossible(Empty(), ops)
    ensures var t := PerformAll(Empty(), ops);
            && 1 in t.byHostname.Values && 1 in t.addresses && 1 in t.status
            && t.addresses[1].mac == mac && t.status[1] == Awaken
            && mac !in t.byMac
  {
    var a := NodeAddresses(mac, ip1, "a");
    var b := NodeAddresses(mac, ip2, "b");
    var t1 := Perform(Empty(), Inserting(1, a, Awaken));
    var t2 := Perform(t1, Inserting(2, b, Awaken));
    var t3 := Perform(t2, RemovingByHostname("b"));
    ops := [Inserting(1, a, Awaken), Inserting(2, b, Awaken), RemovingByHostname("b")];
    assert ops[1..] == [Inserting(2, b, Awaken), RemovingByHostname("b")];
    assert ops[1..][1..] == [RemovingByHostname("b")];
    assert AllPossible(t2, ops[1..][1..]) && PerformAll(t2, ops[1..][1..]) == t3;
    assert AllPossible(t1, ops[1..]) && PerformAll(t1, ops[1..]) == t3;
    assert t3.byHostname["a"] == 1;
  }
}
