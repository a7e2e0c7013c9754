/**
 From the packet a participant sends to the manager's table, as coded: the
 discovery thread (`src/discovery.cpp`) on top of `ServerSocket::receive`, the
 exit port, and what the codec does to both.
 */
module EndToEnd {
  import opened Wrappers
  import opened Address
  import opened StationTable
  import opened Management
  import Codec = PacketCodec
  import opened Numerals
  import opened PacketProperties
  import opened PacketOutcome
  import opened Sockets
  import Monitoring
  import Program = Interleaving

  // ---------- Receiving ----------

  /** What `ServerSocket::receive` returns when these datagrams arrive: packets
      that are not recognised are skipped, each read into the same object. None
      means that it still blocks, an error that an exception ended it. */
  function Heard(inbox: seq<string>, p: Codec.Contents): Option<Result<Codec.Contents, Codec.DecodeError>> {
    if inbox == [] then None
    else
      match AttemptOf(Some(inbox[0]), p)
      case Raised(e) => Some(Err(e))
      case Recognised(q) => Some(Ok(q))
      case Unrecognised(left) => Heard(inbox[1..], left)
      case Nothing => Heard(inbox[1..], p)
  }

  lemma HeardNext(inbox: seq<string>, k: nat, p: Codec.Contents)
    requires k < |inbox|
    ensures Heard(inbox[k..], p)
            == match AttemptOf(Some(inbox[k]), p)
               case Raised(e) => Some(Err(e))
               case Recognised(q) => Some(Ok(q))
               case Unrecognised(left) => Heard(inbox[k + 1..], left)
               case Nothing => Heard(inbox[k + 1..], p)
  {
    assert inbox[k..][0] == inbox[k] && inbox[k..][1..] == inbox[k + 1..];
  }

  method Receive(inbox: seq<string>) returns (r: Option<Result<Codec.Contents, Codec.DecodeError>>)
    ensures r == Heard(inbox, BLANK)
  {
    var packet := new Codec.Packet(BLANK_SENDER);
    assert inbox[0..] == inbox;
    for k := 0 to |inbox|
      invariant fresh(packet) && fresh(packet.header) && fresh(packet.body)
      invariant Heard(inbox[k..], packet.View()) == Heard(inbox, BLANK)
    {
      HeardNext(inbox, k, packet.View());
      var read := TryReceive(Some(inbox[k]), packet);
      match read {
        case Raised(e) => return Some(Err(e));
        case Recognised(q) => return Some(Ok(q));
        case _ =>
      }
    }
    r := None;
  }

  /** `discovery_response`, the thread that `discovery_main` starts for each
      packet received: a fresh, awake station object for its sender goes into
      the table. */
  method DiscoveryResponse(service: ManagementService, received: Codec.Contents) returns (node: WorkStation)
    requires service.Valid()
    modifies service
    ensures service.Valid() && fresh(node) && node.addresses == received.header.sender
    ensures service.View() == Insert(old(service.View()), node, received.header.sender, Awaken)
  {
    node := new WorkStation(received.header.sender, Awaken);
    assert service.View() == old(service.View());
    var inserted := service.Insert(node);
  }

  // ---------- What arrives ----------

  /** What is received when `p` is the first packet that is not missed. */
  ghost predicate IsHearing(r: Option<Result<Codec.Contents, Codec.DecodeError>>, p: Codec.Contents) {
    r.Some? && if Recognisable(Tail(p)) then r.value.Ok? && IsSender(r.value.value.header.sender, p) else r.value.Err?
  }

  lemma NotMissedIsHeard(p: Codec.Contents, rest: seq<string>, prior: Codec.Contents)
    requires !Missed(p)
    ensures IsHearing(Heard([Codec.Encoded(p)] + rest, prior), p)
  {
    hide Codec.Encoded, AttemptOf, Tail, Recognisable, Decodable, IsSender;
    AttemptOfPacket(p, prior);
    assert ([Codec.Encoded(p)] + rest)[0] == Codec.Encoded(p);
  }

  lemma {:induction false} HeardFrom(packets: seq<Codec.Contents>, inbox: seq<string>, k: nat, first: nat,
                                     prior: Codec.Contents)
    requires inbox == Wire(packets) && k <= first <= |packets|
    requires forall j :: k <= j < first ==> Missed(packets[j])
    requires first < |packets| ==> !Missed(packets[first])
    ensures if first == |packets| then Heard(inbox[k..], prior) == None
            else IsHearing(Heard(inbox[k..], prior), packets[first])
    decreases first - k
  {
    hide AttemptOf, Codec.Encoded, IsHearing, Tail, Recognisable, Decodable, IsSender;
    if k == |packets| {
      assert inbox[k..] == [];
    } else if k == first {
      assert inbox[k..] == [Codec.Encoded(packets[k])] + inbox[k + 1..];
      NotMissedIsHeard(packets[k], inbox[k + 1..], prior);
    } else {
      HeardNext(inbox, k, prior);
      assert inbox[k] == Codec.Encoded(packets[k]);
      AttemptOfPacket(packets[k], prior);
      var a := AttemptOf(Some(inbox[k]), prior);
      HeardFrom(packets, inbox, k + 1, first, if a.Unrecognised? then a.left else prior);
    }
  }

  /**
   Of the packets that arrive, whatever they are, the first that is not missed
   decides: the discovery thread hears it, with the sender's MAC and IP address
   right and the first field found for its hostname, if it is recognisable;
   otherwise an exception ends the thread. While all are missed it waits.
   */
  lemma FirstNotMissedIsHeard(packets: seq<Codec.Contents>, first: nat)
    requires first <= |packets| && forall j :: 0 <= j < first ==> Missed(packets[j])
    requires first < |packets| ==> !Missed(packets[first])
    ensures if first == |packets| then Heard(Wire(packets), BLANK) == None
            else IsHearing(Heard(Wire(packets), BLANK), packets[first])
  {
    hide Missed, IsHearing, Heard;
    HeardFrom(packets, Wire(packets), 0, first, BLANK);
    assert Wire(packets)[0..] == Wire(packets);
  }

  /** A packet alone in the inbox. */
  lemma HeardAlone(p: Codec.Contents)
    ensures var r := Heard(Wire([p]), BLANK);
            if Missed(p) then r == None else IsHearing(r, p)
  {
    hide Missed, IsHearing, Heard;
    assert [p][0] == p;
    FirstNotMissedIsHeard([p], if Missed(p) then 1 else 0);
  }

  /** A discovery from a computer whose hostname has no backslash is heard, with
      an empty hostname. */
  lemma PlainDiscoveryIsHeard(p: Codec.Contents)
    requires '\\' !in p.header.sender.hostname && p.kind == Codec.Discovery
    ensures !Missed(p) && IsHearing(Heard(Wire([p]), BLANK), p) && Recognisable(Tail(p))
    ensures forall a :: IsSender(a, p) ==> a.hostname == ""
  {
    hide IsHearing, Recognisable, Decodable, Heard;
    KeptOfPlain(p.header.sender.hostname);
    GuardedOutcome(p);
    HeardAlone(p);
    forall a | IsSender(a, p) ensures a.hostname == "" {
      var rest :| Heads(Tail(p), a.hostname, rest);
      var empty := EmptyHead(p);
      HeadsAreOne(Tail(p), a.hostname, rest, "", empty);
    }
  }

  lemma EmptyHead(p: Codec.Contents) returns (rest: string)
    requires KeptOf(p) == ""
    ensures Heads(Tail(p), "", rest)
  {
    rest := Numeral(10, p.header.direction.Code()) + ";" + (Numeral(10, p.kind.Code()) + ";" + "");
    ThreeFieldsTogether("", Numeral(10, p.header.direction.Code()), Numeral(10, p.kind.Code()));
  }

  /** `a` is what the manager hears when a computer whose hostname has no
      backslash announces itself. */
  ghost predicate Arrives(a: NodeAddresses) {
    exists p :: Brings(p, a)
  }

  predicate Brings(p: Codec.Contents, a: NodeAddresses) {
    '\\' !in p.header.sender.hostname && p.kind == Codec.Discovery
    && var r := Heard(Wire([p]), BLANK); r.Some? && r.value.Ok? && r.value.value.header.sender == a
  }

  lemma ArrivesNameless(a: NodeAddresses)
    requires Arrives(a)
    ensures a.hostname == ""
  {
    var p :| Brings(p, a);
    PlainDiscoveryIsHeard(p);
  }

  // ---------- The table of the whole program ----------

  ghost predicate Nameless(t: Table<nat>) {
    forall h :: h in t.byHostname ==> h == ""
  }

  lemma NamelessKept(y: Program.System, a: Program.Step)
    requires Nameless(y.t) && Program.Enabled(y, a) && (a.Discover? ==> a.a.hostname == "")
    ensures Nameless(Program.Apply(y, a).t)
  {
  }

  lemma {:induction false} NamelessRun(y: Program.System, acts: seq<Program.Step>)
    requires Nameless(y.t) && Program.Executable(y, acts)
    requires forall i :: 0 <= i < |acts| && acts[i].Discover? ==> Arrives(acts[i].a)
    ensures Nameless(Program.After(y, acts).t)
    decreases |acts|
  {
    if acts != [] {
      if acts[0].Discover? {
        ArrivesNameless(acts[0].a);
      }
      NamelessKept(y, acts[0]);
      forall i | 0 <= i < |acts[1..]| && acts[1..][i].Discover? ensures Arrives(acts[1..][i].a) {
        assert acts[1..][i] == acts[i + 1];
      }
      NamelessRun(Program.Apply(y, acts[0]), acts[1..]);
    }
  }

  lemma OneKeyAtMost<K, V>(m: map<K, V>)
    requires forall j, k :: j in m && k in m ==> j == k
    ensures |m| <= 1
  {
    if m != map[] {
      var k :| k in m;
      assert m.Keys == {k};
    }
  }

  /**
   As coded, the whole program in any interleaving, with any number of
   discovery and monitoring threads: as long as no computer has a backslash in
   its hostname, the table never holds more than one station.
   */
  lemma OneStationAtMost(monitors: set<nat>, acts: seq<Program.Step>)
    requires Program.Executable(Program.Start(monitors), acts)
    requires forall i :: 0 <= i < |acts| && acts[i].Discover? ==> Arrives(acts[i].a)
    ensures var t := Program.After(Program.Start(monitors), acts).t;
            |t.byHostname| <= 1 && |t.byMac| <= 1 && |t.byIp| <= 1
  {
    var t := Program.After(Program.Start(monitors), acts).t;
    Program.TableSoundInEveryInterleaving(monitors, acts);
    NamelessRun(Program.Start(monitors), acts);
    OneKeyAtMost(t.byHostname);
    forall j, k | j in t.byMac && k in t.byMac ensures j == k {
      assert Listed(t, t.byMac[j]) && Listed(t, t.byMac[k]);
    }
    OneKeyAtMost(t.byMac);
    forall j, k | j in t.byIp && k in t.byIp ensures j == k {
      assert Listed(t, t.byIp[j]) && Listed(t, t.byIp[k]);
    }
    OneKeyAtMost(t.byIp);
  }

  // ---------- Joining and leaving ----------

  predicate SameIndices(t: Table<nat>, t': Table<nat>) {
    t'.byMac == t.byMac && t'.byIp == t.byIp && t'.byHostname == t.byHostname
  }

  lemma TakenMacIsLost(t: Table<nat>, w: nat, a: NodeAddresses)
    requires Known(t) && Known(Insert(t, w, a, Awaken)) && Accepts(t, a, Awaken) && a.mac in t.byMac
    ensures !SameIndices(t, RemoveByMac(Insert(t, w, a, Awaken), a.mac))
  {
    assert a.mac !in RemoveByMac(Insert(t, w, a, Awaken), a.mac).byMac;
  }

  /** With a fresh MAC address the new station is the one removed, and its IP
      address goes with it, whoever held it. */
  lemma FreshMacIsUndone(t: Table<nat>, w: nat, a: NodeAddresses)
    requires Known(t) && Known(Insert(t, w, a, Awaken)) && Accepts(t, a, Awaken) && a.mac !in t.byMac
    ensures var t2 := RemoveByMac(Insert(t, w, a, Awaken), a.mac);
            && t2.byMac == t.byMac && t2.byHostname == t.byHostname && t2.byIp == t.byIp - {a.ip}
  {
    var t1 := Insert(t, w, a, Awaken);
    assert t1.byMac[a.mac] == w && t1.addresses[w] == a;
  }

  lemma RemovalUndoesInsertionIff(t: Table<nat>, w: nat, a: NodeAddresses)
    requires Indexed(t) && w !in t.status
    ensures Known(Insert(t, w, a, Awaken))
    ensures SameIndices(t, RemoveByMac(Insert(t, w, a, Awaken), a.mac))
            <==> a.mac !in t.byMac && (Accepts(t, a, Awaken) ==> a.ip !in t.byIp)
  {
    var t1 := Insert(t, w, a, Awaken);
    if !Accepts(t, a, Awaken) {
      assert Known(t1);
      if a.mac in t.byMac {
        assert a.mac !in RemoveByMac(t1, a.mac).byMac;
      }
    } else if a.mac in t.byMac {
      IndexedAfterInsert(t, w, a, Awaken);
      TakenMacIsLost(t, w, a);
    } else {
      IndexedAfterInsert(t, w, a, Awaken);
      FreshMacIsUndone(t, w, a);
      assert t.byIp - {a.ip} == t.byIp <==> a.ip !in t.byIp;
    }
  }

  /** The table after a turn of the discovery thread that received `r`. */
  function Discovered(t: Table<nat>, w: nat, r: Option<Result<Codec.Contents, Codec.DecodeError>>): Table<nat> {
    if r.Some? && r.value.Ok? then Insert(t, w, r.value.value.header.sender, Awaken) else t
  }

  /** The discovery packet gets its computer into the table. */
  ghost predicate Joins(t: Table<nat>, join: Codec.Contents) {
    Recognisable(Tail(join)) && exists h, rest :: Heads(Tail(join), h, rest) && h !in t.byHostname
  }

  lemma JoinsIffAccepted(t: Table<nat>, join: Codec.Contents, a: NodeAddresses)
    requires IsSender(a, join) && Recognisable(Tail(join))
    ensures Joins(t, join) <==> Accepts(t, a, Awaken)
  {
    hide Recognisable, Heads;
    var rest :| Heads(Tail(join), a.hostname, rest);
    forall h, x | Heads(Tail(join), h, x) ensures h == a.hostname {
      HeadsAreOne(Tail(join), h, x, a.hostname, rest);
    }
  }

  /** Without the exit, only a station that did not enter leaves the indices alone. */
  lemma InsertionShows(t: Table<nat>, w: nat, a: NodeAddresses)
    ensures SameIndices(t, Insert(t, w, a, Awaken)) <==> !Accepts(t, a, Awaken)
  {
    if Accepts(t, a, Awaken) {
      assert a.hostname in Insert(t, w, a, Awaken).byHostname;
    }
  }

  lemma LeaveIsHeard(leave: Codec.Contents)
    ensures ExitsIn(Wire([leave])).0 == if Decodable(Tail(leave)) then [leave.header.sender.mac] else []
  {
    hide ExitsIn, Tail, Decodable;
    assert [leave][0] == leave;
    ExitsAreHeard([leave], if Decodable(Tail(leave)) then 1 else 0);
    assert MacsOf([leave])[..1] == [leave.header.sender.mac];
  }

  lemma DrainedOfOne(t: Table<nat>, mac: MacAddress)
    requires Known(t)
    ensures Monitoring.Drained(t, []) == t
    ensures Monitoring.Drained(t, [mac]) == RemoveByMac(t, mac)
  {
    assert [mac][1..] == [];
  }

  /** The table after both packets, given the addresses heard. */
  lemma JoinThenLeave(t: Table<nat>, w: nat, a: NodeAddresses, left: bool)
    requires Indexed(t) && w !in t.status
    ensures var t1 := Insert(t, w, a, Awaken);
            Known(t1)
            && (SameIndices(t, if left then RemoveByMac(t1, a.mac) else t1)
                <==> if left then a.mac !in t.byMac && (Accepts(t, a, Awaken) ==> a.ip !in t.byIp)
                     else !Accepts(t, a, Awaken))
  {
    hide RemoveByMac, Insert, SameIndices;
    RemovalUndoesInsertionIff(t, w, a);
    InsertionShows(t, w, a);
  }

  lemma LeaveAlone(t: Table<nat>, mac: MacAddress)
    requires Known(t)
    ensures SameIndices(t, RemoveByMac(t, mac)) <==> mac !in t.byMac
  {
    if mac in t.byMac {
      assert mac !in RemoveByMac(t, mac).byMac;
    }
  }

  /**
   A computer announces itself and leaves, with any hostname: the three indices
   are as before exactly when its exit packet decodes and its MAC address was
   not in the table before, nor, if it got in, its IP address; or its exit packet
   does not decode and it did not get in.
   */
  lemma LeavingUndoesJoiningIff(t: Table<nat>, w: nat, join: Codec.Contents, leave: Codec.Contents)
    requires leave.header.sender == join.header.sender
    requires Indexed(t) && w !in t.status
    ensures var t1 := Discovered(t, w, Heard(Wire([join]), BLANK));
            var mac, ip := join.header.sender.mac, join.header.sender.ip;
            Known(t1)
            && (SameIndices(t, Monitoring.Drained(t1, ExitsIn(Wire([leave])).0))
                <==> if Decodable(Tail(leave)) then mac !in t.byMac && (Joins(t, join) ==> ip !in t.byIp)
                     else !Joins(t, join))
  {
    hide Recognisable, Decodable, Tail, Heard, ExitsIn, Wire, SameIndices, Joins;
    hide Monitoring.Drained, RemoveByMac, Insert;
    var r := Heard(Wire([join]), BLANK);
    var left := Decodable(Tail(leave));
    HeardAlone(join);
    LeaveIsHeard(leave);
    if Recognisable(Tail(join)) {
      var a := r.value.value.header.sender;
      JoinsIffAccepted(t, join, a);
      JoinThenLeave(t, w, a, left);
      DrainedOfOne(Insert(t, w, a, Awaken), a.mac);
    } else {
      NobodyJoins(t, join);
      LeaveAlone(t, join.header.sender.mac);
      DrainedOfOne(t, join.header.sender.mac);
      NothingChanged(t);
    }
  }

  lemma NobodyJoins(t: Table<nat>, join: Codec.Contents)
    requires !Recognisable(Tail(join))
    ensures !Joins(t, join)
  {
    hide Recognisable;
  }

  lemma NothingChanged(t: Table<nat>)
    ensures SameIndices(t, t)
  {
  }
}
