/**
 The calls of the program's threads, taken without interruption, do to the table
 what the operations of `StationTable` do.
 */
module ProgramCalls {
  import opened Wrappers
  import opened Address
  import opened StationTable
  import opened Interleaving

  /** `update_sleep_status` by monitoring thread `m`. */
  lemma UpdateIsUpdate(y: System, m: nat, mac: MacAddress, s: Status) returns (r: seq<Step>)
    requires Known(y.t) && MonitorAt(y, m, true) && y.holder == None
    ensures Executable(y, r)
    ensures After(y, r) == y.(t := StationTable.UpdateSleepStatus(y.t, mac, s))
  {
    r := Then(y, [], Lookup(m, mac, s));
    if mac in y.t.byMac {
      r := Then(y, r, Write(m));
      if y.t.status[y.t.byMac[mac]] != s {
        r := Then(y, r, Report(m));
      }
    }
    assert After(y, r).monitors == y.monitors;
  }

  /** `remove_by_mac_address` by monitoring thread `m`. */
  lemma RemovalIsRemoval(y: System, m: nat, mac: MacAddress) returns (r: seq<Step>)
    requires Known(y.t) && MonitorAt(y, m, true) && y.holder == None
    ensures Executable(y, r)
    ensures After(y, r) == y.(t := RemoveByMac(y.t, mac),
                              gone := y.gone + if mac in y.t.byMac then {y.t.byMac[mac]} else {})
  {
    r := Then(y, [], Extract(m, mac));
    if mac in y.t.byMac {
      r := Then(y, r, Mark(m));
      r := Then(y, r, ReportRemoval(m));
    }
    assert After(y, r).monitors == y.monitors;
  }

  /** `wakeup` by the interface thread. */
  lemma WakeIsWake(y: System, hostname: string) returns (r: seq<Step>)
    requires Known(y.t) && y.interface == IIdle && y.holder == None
    ensures Executable(y, r)
    ensures After(y, r) == y.(t := WakeUp(y.t, hostname))
  {
    r := Then(y, [], WakeLookup(hostname));
    if hostname in y.t.byHostname {
      r := Then(y, r, WakeWrite);
      if y.t.status[y.t.byHostname[hostname]] == Asleep {
        r := Then(y, r, WakeReport);
      }
    }
  }

  /** `insert` of a fresh, awake station by a discovery thread. */
  lemma DiscoveryIsInsertion(y: System, w: nat, a: NodeAddresses) returns (r: seq<Step>)
    requires w !in y.t.status && y.holder == None
    ensures Executable(y, r)
    ensures After(y, r) == y.(t := Insert(y.t, w, a, Awaken))
  {
    r := Then(y, [], Discover(w, a));
  }
}
