/**
 The classes of `include/management.h`: station objects, whose status is
 overwritten in place, and the service with its three maps and its event
 handlers. `View` is the table the service stands for; every method does to it
 what the operation of `StationTable` of the same name does.
 */
module Management {
  import opened Address
  import opened StationTable
  import TableProperties

  class WorkStation {
    const addresses: NodeAddresses
    var status: Status

    constructor (addresses: NodeAddresses, status: Status)
      ensures this.addresses == addresses && this.status == status
    {
      this.addresses, this.status := addresses, status;
    }
  }

  class ManagementService {
    var macAddressIndex: map<MacAddress, WorkStation>
    var ipAddressIndex: map<IpAddress, WorkStation>
    var hostnameIndex: map<string, WorkStation>
    /** For each registered handler, in order, the events it was called with. */
    var inboxes: seq<seq<Event<WorkStation>>>
    ghost var log: seq<Event<WorkStation>>
    /** For each handler, how many events came before its registration. */
    ghost var joined: seq<nat>
    /** Every station object the service has met. */
    ghost var known: set<WorkStation>

    ghost function View(): Table<WorkStation>
      reads this, known
    {
      Table(map w | w in known :: w.addresses, map w | w in known :: w.status,
            macAddressIndex, ipAddressIndex, hostnameIndex, log)
    }

    /** Every handler has seen the events since its registration. */
    ghost predicate Informed()
      reads this
    {
      |inboxes| == |joined|
      && forall k :: 0 <= k < |joined| ==> joined[k] <= |log| && inboxes[k] == log[joined[k]..]
    }

    ghost predicate Valid()
      reads this, known
    {
      Inv(View()) && Informed()
    }

    constructor ()
      ensures Valid() && View() == Empty() && known == {} && joined == []
    {
      macAddressIndex, ipAddressIndex, hostnameIndex, inboxes := map[], map[], map[], [];
      log, joined, known := [], [], {};
    }

    method RegisterEventHandler() returns (handler: nat)
      requires Valid()
      modifies this`inboxes, this`joined
      ensures Valid() && View() == old(View())
      ensures handler == |old(inboxes)| && inboxes == old(inboxes) + [[]]
      ensures joined == old(joined) + [|log|]
    {
      handler := |inboxes|;
      inboxes := inboxes + [[]];
      joined := joined + [|log|];
    }

    method DispatchEvent(event: Event<WorkStation>)
      requires Informed()
      modifies this`inboxes, this`log
      ensures Informed() && |inboxes| == |old(inboxes)|
      ensures View() == old(View()).(log := old(log) + [event])
    {
      for k := 0 to |inboxes|
        invariant |inboxes| == |old(inboxes)| && log == old(log)
        invariant forall j :: 0 <= j < k ==> inboxes[j] == old(inboxes)[j] + [event]
        invariant forall j :: k <= j < |inboxes| ==> inboxes[j] == old(inboxes)[j]
      {
        inboxes := inboxes[k := inboxes[k] + [event]];
      }
      log := log + [event];
    }

    method Insert(node: WorkStation) returns (inserted: bool)
      requires Valid()
      modifies this
      ensures Valid() && joined == old(joined) && known == old(known) + {node}
      ensures View() == StationTable.Insert(old(View()), node, node.addresses, old(node.status))
      ensures inserted <==> Accepts(old(View()), node.addresses, node.status)
    {
      InvPreserved(View(), Inserting(node, node.addresses, node.status));
      inserted := IndexNew(node);
    }

    /** The body of `insert`. */
    method IndexNew(node: WorkStation) returns (inserted: bool)
      requires Informed()
      modifies this
      ensures Informed() && joined == old(joined) && known == old(known) + {node}
      ensures View() == StationTable.Insert(old(View()), node, node.addresses, old(node.status))
      ensures inserted <==> Accepts(old(View()), node.addresses, node.status)
    {
      known := known + {node};
      assert View() == Meet(old(View()), node, node.addresses, node.status);
      if node.status == Disconnected {
        return false;
      }
      inserted := node.addresses.hostname !in hostnameIndex;
      if inserted {
        AddToIndices(node);
        DispatchEvent(Event(Insertion, node));
      }
    }

    method AddToIndices(node: WorkStation)
      requires Informed()
      modifies this`hostnameIndex, this`macAddressIndex, this`ipAddressIndex
      ensures Informed()
      ensures var t := old(View());
              View() == t.(byHostname := t.byHostname[node.addresses.hostname := node],
                           byMac := Added(t.byMac, node.addresses.mac, node),
                           byIp := Added(t.byIp, node.addresses.ip, node))
    {
      hostnameIndex := hostnameIndex[node.addresses.hostname := node];
      macAddressIndex := Added(macAddressIndex, node.addresses.mac, node);
      ipAddressIndex := Added(ipAddressIndex, node.addresses.ip, node);
    }

    method OnRemove(node: WorkStation)
      requires Informed() && node in known
      modifies this`inboxes, this`log, node`status
      ensures Informed() && View() == StationTable.OnRemove(old(View()), node)
    {
      node.status := Disconnected;
      DispatchEvent(Event(Removal, node));
    }

    method RemoveByMacAddress(address: MacAddress) returns (removed: bool)
      requires Valid()
      modifies this, known
      ensures Valid() && joined == old(joined) && known == old(known)
      ensures View() == RemoveByMac(old(View()), address)
      ensures removed <==> address in old(macAddressIndex)
    {
      InvPreserved(View(), RemovingByMac(address));
      removed := ExtractByMacAddress(address);
    }

    method ExtractByMacAddress(address: MacAddress) returns (removed: bool)
      requires Known(View()) && Informed()
      modifies this, known
      ensures Informed() && joined == old(joined) && known == old(known)
      ensures View() == RemoveByMac(old(View()), address)
      ensures removed <==> address in old(macAddressIndex)
    {
      removed := address in macAddressIndex;
      if removed {
        var node := macAddressIndex[address];
        macAddressIndex := macAddressIndex - {address};
        ipAddressIndex := ipAddressIndex - {node.addresses.ip};
        hostnameIndex := hostnameIndex - {node.addresses.hostname};
        OnRemove(node);
      }
    }

    method RemoveByIpAddress(address: IpAddress) returns (removed: bool)
      requires Valid()
      modifies this, known
      ensures Valid() && joined == old(joined) && known == old(known)
      ensures View() == RemoveByIp(old(View()), address)
      ensures removed <==> address in old(ipAddressIndex)
    {
      InvPreserved(View(), RemovingByIp(address));
      removed := ExtractByIpAddress(address);
    }

    method ExtractByIpAddress(address: IpAddress) returns (removed: bool)
      requires Known(View()) && Informed()
      modifies this, known
      ensures Informed() && joined == old(joined) && known == old(known)
      ensures View() == RemoveByIp(old(View()), address)
      ensures removed <==> address in old(ipAddressIndex)
    {
      removed := address in ipAddressIndex;
      if removed {
        var node := ipAddressIndex[address];
        ipAddressIndex := ipAddressIndex - {address};
        macAddressIndex := macAddressIndex - {node.addresses.mac};
        hostnameIndex := hostnameIndex - {node.addresses.hostname};
        OnRemove(node);
      }
    }

    method RemoveByHostname(hostname: string) returns (removed: bool)
      requires Valid()
      modifies this, known
      ensures Valid() && joined == old(joined) && known == old(known)
      ensures View() == StationTable.RemoveByHostname(old(View()), hostname)
      ensures removed <==> hostname in old(hostnameIndex)
    {
      InvPreserved(View(), RemovingByHostname(hostname));
      removed := ExtractByHostname(hostname);
    }

    method ExtractByHostname(hostname: string) returns (removed: bool)
      requires Known(View()) && Informed()
      modifies this, known
      ensures Informed() && joined == old(joined) && known == old(known)
      ensures View() == StationTable.RemoveByHostname(old(View()), hostname)
      ensures removed <==> hostname in old(hostnameIndex)
    {
      removed := hostname in hostnameIndex;
      if removed {
        var node := hostnameIndex[hostname];
        hostnameIndex := hostnameIndex - {hostname};
        macAddressIndex := macAddressIndex - {node.addresses.mac};
        ipAddressIndex := ipAddressIndex - {node.addresses.ip};
        OnRemove(node);
      }
    }

    /** The station found has the address asked for and is in the table; null
        means that no station of the MAC index has it. */
    method GetByMacAddress(address: MacAddress) returns (station: WorkStation?)
      requires Valid()
      ensures station == null <==> address !in macAddressIndex
      ensures station != null ==> station == macAddressIndex[address] && station in known
                                  && station.addresses.mac == address && Listed(View(), station)
      ensures TableProperties.Agree(View()) && station == null ==>
                forall w :: w in hostnameIndex.Values ==> w.addresses.mac != address
    {
      station := if address in macAddressIndex then macAddressIndex[address] else null;
      if station == null && TableProperties.Agree(View()) {
        forall w | w in hostnameIndex.Values ensures w.addresses.mac != address {
          TableProperties.LookupIsSearch(View(), w, w.addresses);
        }
      }
    }

    method GetByIpAddress(address: IpAddress) returns (station: WorkStation?)
      requires Valid()
      ensures station == null <==> address !in ipAddressIndex
      ensures station != null ==> station == ipAddressIndex[address] && station in known
                                  && station.addresses.ip == address && Listed(View(), station)
      ensures TableProperties.Agree(View()) && station == null ==>
                forall w :: w in hostnameIndex.Values ==> w.addresses.ip != address
    {
      station := if address in ipAddressIndex then ipAddressIndex[address] else null;
      if station == null && TableProperties.Agree(View()) {
        forall w | w in hostnameIndex.Values ensures w.addresses.ip != address {
          TableProperties.LookupIsSearch(View(), w, w.addresses);
        }
      }
    }

    /** Exact whether or not the indices agree. */
    method GetByHostname(hostname: string) returns (station: WorkStation?)
      requires Valid()
      ensures station == null <==> hostname !in hostnameIndex
      ensures station != null ==> station == hostnameIndex[hostname] && station in known
                                  && station.addresses.hostname == hostname
      ensures station == null ==> forall w :: w in hostnameIndex.Values ==> w.addresses.hostname != hostname
    {
      station := if hostname in hostnameIndex then hostnameIndex[hostname] else null;
    }

    /** Overwrites the status and reports the change. */
    method ChangeStatus(station: WorkStation, status: Status)
      requires Informed() && station in known
      modifies this`inboxes, this`log, station`status
      ensures Informed() && View() == SetStatus(old(View()), station, status)
    {
      station.status := status;
      DispatchEvent(Event(ChangedStatus, station));
    }

    method UpdateSleepStatus(address: MacAddress, status: Status) returns (updated: bool)
      requires Valid()
      modifies this, known
      ensures Valid() && joined == old(joined) && known == old(known)
      ensures View() == StationTable.UpdateSleepStatus(old(View()), address, status)
      ensures updated <==> address in old(macAddressIndex) && old(macAddressIndex[address].status) != status
    {
      InvPreserved(View(), Updating(address, status));
      updated := false;
      var station := GetByMacAddress(address);
      if station != null {
        if station.status != status {
          ChangeStatus(station, status);
          updated := true;
        }
      }
    }

    method WakeUp(hostname: string) returns (woken: bool)
      requires Valid()
      modifies this, known
      ensures Valid() && joined == old(joined) && known == old(known)
      ensures View() == StationTable.WakeUp(old(View()), hostname)
      ensures woken <==> hostname in old(hostnameIndex) && old(hostnameIndex[hostname].status) == Asleep
    {
      InvPreserved(View(), Waking(hostname));
      woken := false;
      var station := GetByHostname(hostname);
      if station != null {
        if station.status == Asleep {
          ChangeStatus(station, Awaken);
          woken := true;
        }
      }
    }

    /** As coded the vector starts with one null pointer for each participant;
        the participants follow, each once, in the order of their addresses. */
    method ParticipantList() returns (list: seq<WorkStation?>)
      requires Valid()
      ensures |list| == 2 * |macAddressIndex|
      ensures forall k :: 0 <= k < |macAddressIndex| ==> list[k] == null
      ensures forall k :: |macAddressIndex| <= k < |list| ==> list[k] != null && list[k] in macAddressIndex.Values
      ensures forall w :: w in macAddressIndex.Values ==> w in list[|macAddressIndex|..]
      ensures forall j, k :: |macAddressIndex| <= j < k < |list| ==>
                Before(list[j].addresses.mac, list[k].addresses.mac)
    {
      hide Before;
      list := BehindAsManyNulls(macAddressIndex);
    }
  }

  /** The body of `participant_list`. */
  method BehindAsManyNulls(index: map<MacAddress, WorkStation>) returns (list: seq<WorkStation?>)
    requires forall k :: k in index ==> index[k].addresses.mac == k
    ensures |list| == 2 * |index|
    ensures forall k :: 0 <= k < |index| ==> list[k] == null
    ensures forall k :: |index| <= k < |list| ==> list[k] != null && list[k] in index.Values
    ensures forall w :: w in index.Values ==> w in list[|index|..]
    ensures forall j, k :: |index| <= j < k < |list| ==> Before(list[j].addresses.mac, list[k].addresses.mac)
  {
    hide Before;
    var entries := Stations(index);
    list := seq(|index|, _ => null);
    for k := 0 to |entries|
      invariant |list| == |index| + k
      invariant forall j :: 0 <= j < |index| ==> list[j] == null
      invariant forall j :: |index| <= j < |list| ==> list[j] == entries[j - |index|]
    {
      list := list + [entries[k]];
    }
    ListedBehind(index, entries, list);
  }

  lemma ListedBehind(index: map<MacAddress, WorkStation>, entries: seq<WorkStation>, list: seq<WorkStation?>)
    requires |list| == |index| + |entries|
    requires forall j :: |index| <= j < |list| ==> list[j] == entries[j - |index|]
    requires forall w :: w in entries <==> w in index.Values
    requires forall j, k :: 0 <= j < k < |entries| ==> Before(entries[j].addresses.mac, entries[k].addresses.mac)
    ensures forall k :: |index| <= k < |list| ==> list[k] != null && list[k] in index.Values
    ensures forall w :: w in index.Values ==> w in list[|index|..]
    ensures forall j, k :: |index| <= j < k < |list| ==> Before(list[j].addresses.mac, list[k].addresses.mac)
  {
    hide Before;
    forall w | w in index.Values ensures w in list[|index|..] {
      var k :| 0 <= k < |entries| && entries[k] == w;
      assert list[|index|..][k] == w;
    }
  }

  /** The order of a map keyed by MAC addresses: lexicographic, byte by byte. */
  predicate Before(a: MacAddress, b: MacAddress) {
    exists i :: 0 <= i < 6 && a[..i] == b[..i] && a[i] < b[i]
  }

  /** A MAC address as one number. */
  function Rank(a: MacAddress): nat {
    a[0] as int * 0x100_0000_0000 + a[1] as int * 0x1_0000_0000 + a[2] as int * 0x100_0000
    + a[3] as int * 0x1_0000 + a[4] as int * 0x100 + a[5] as int
  }

  lemma RankOrders(a: MacAddress, b: MacAddress)
    ensures Rank(a) < Rank(b) <==> Before(a, b)
    ensures Rank(a) == Rank(b) ==> a == b
  {
    if a != b {
      var i := 0;
      while a[i] == b[i]
        invariant 0 <= i < 6 && a[..i] == b[..i]
        invariant exists k :: i <= k < 6 && a[k] != b[k]
        decreases 6 - i
      {
        assert a[..i + 1] == a[..i] + [a[i]] && b[..i + 1] == b[..i] + [b[i]];
        i := i + 1;
      }
      RankAt(a, b, i);
      forall j | 0 <= j < 6 && j != i ensures a[..j] == b[..j] ==> a[j] == b[j] {
        if j < i {
          SamePrefix(a, b, i, j);
        } else if a[..j] == b[..j] {
          SamePrefix(a, b, j, i);
        }
      }
    }
  }

  lemma SamePrefix(a: MacAddress, b: MacAddress, j: nat, i: nat)
    requires i < j < 6 && a[..j] == b[..j]
    ensures a[i] == b[i]
  {
    assert a[..j][i] == b[..j][i];
  }

  lemma RankAt(a: MacAddress, b: MacAddress, i: nat)
    requires i < 6 && a[..i] == b[..i] && a[i] != b[i]
    ensures Rank(a) < Rank(b) <==> a[i] < b[i]
    ensures Rank(a) != Rank(b)
  {
    assert forall k :: 0 <= k < i ==> a[..i][k] == b[..i][k];
  }

  /** The first key of a map. */
  method FirstKey(index: map<MacAddress, WorkStation>) returns (mac: MacAddress)
    requires index != map[]
    ensures mac in index && forall k :: k in index && k != mac ==> Before(mac, k)
  {
    var rest := index.Keys;
    mac :| mac in rest;
    rest := rest - {mac};
    while rest != {}
      invariant mac in index && rest <= index.Keys
      invariant forall k :: k in index && k !in rest ==> Rank(mac) <= Rank(k)
      decreases |rest|
    {
      var k :| k in rest;
      if Rank(k) < Rank(mac) {
        mac := k;
      }
      rest := rest - {k};
    }
    forall k | k in index && k != mac ensures Before(mac, k) {
      RankOrders(mac, k);
    }
  }

  /** The stations of an index keyed by MAC address, in the order of its keys. */
  method Stations(index: map<MacAddress, WorkStation>) returns (list: seq<WorkStation>)
    requires forall k :: k in index ==> index[k].addresses.mac == k
    ensures |list| == |index|
    ensures forall w :: w in list <==> w in index.Values
    ensures forall j, k :: 0 <= j < k < |list| ==> Before(list[j].addresses.mac, list[k].addresses.mac)
  {
    hide Before;
    list := [];
    var rest := index;
    while rest != map[]
      invariant rest.Keys <= index.Keys && |list| + |rest| == |index|
      invariant forall k :: k in rest ==> rest[k] == index[k]
      invariant forall w :: w in list ==> w in index.Values && w.addresses.mac !in rest
      invariant forall k :: k in index && k !in rest ==> index[k] in list
      invariant forall j, k :: 0 <= j < |list| && k in rest ==> Before(list[j].addresses.mac, k)
      invariant forall j, k :: 0 <= j < k < |list| ==> Before(list[j].addresses.mac, list[k].addresses.mac)
      decreases |rest|
    {
      var mac := FirstKey(rest);
      TableProperties.SizeRemoved(rest, mac);
      list := list + [rest[mac]];
      rest := rest - {mac};
    }
  }
}
