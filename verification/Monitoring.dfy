/**
 One turn of the endless loop of `src/monitoring.cpp`: a snapshot of the
 participants, a poll of each, an update per poll, and the removals that have
 come in. The answers to the polls are given.
 */
module Monitoring {
  import opened Wrappers
  import opened Address
  import opened StationTable
  import opened Management
  import opened Numerals
  import opened PacketCodec
  import opened Sockets

  const MAX_RETRIES: nat := 3

  datatype Poll = Poll(mac: MacAddress, s: Status)

  /** The updates of a round, in order. */
  function Polled<S(==)>(t: Table<S>, polls: seq<Poll>): (r: Table<S>)
    requires Known(t)
    ensures Known(r)
    decreases |polls|
  {
    if polls == [] then t
    else
      KnownKept(t, polls[0].mac, polls[0].s);
      Polled(UpdateSleepStatus(t, polls[0].mac, polls[0].s), polls[1..])
  }

  lemma KnownKept<S>(t: Table<S>, mac: MacAddress, s: Status)
    requires Known(t)
    ensures Known(UpdateSleepStatus(t, mac, s))
  {
  }

  function Drained<S(==)>(t: Table<S>, exits: seq<MacAddress>): (r: Table<S>)
    requires Known(t)
    ensures Known(r)
    decreases |exits|
  {
    if exits == [] then t
    else
      KnownKeptByRemoval(t, exits[0]);
      Drained(RemoveByMac(t, exits[0]), exits[1..])
  }

  lemma KnownKeptByRemoval<S>(t: Table<S>, mac: MacAddress)
    requires Known(t)
    ensures Known(RemoveByMac(t, mac))
  {
  }

  predicate DistinctMacs(polls: seq<Poll>) {
    forall j, k :: 0 <= j < k < |polls| ==> polls[j].mac != polls[k].mac
  }

  /** The MAC index leads from `mac` to `w`. */
  predicate Reaches<S(==)>(t: Table<S>, mac: MacAddress, w: S) {
    mac in t.byMac && t.byMac[mac] == w
  }

  // ---------- What the updates of a round come to ----------

  lemma UpdateEffect<S>(t: Table<S>, mac: MacAddress, s: Status, w: S)
    requires Known(t) && w in t.status
    ensures var t' := UpdateSleepStatus(t, mac, s);
            && t'.byMac == t.byMac && t'.status.Keys == t.status.Keys && t'.addresses == t.addresses
            && t'.status[w] == (if Reaches(t, mac, w) then s else t.status[w])
            && KindsOf(t'.log, w)
               == KindsOf(t.log, w) + (if Reaches(t, mac, w) && t.status[w] != s then [ChangedStatus] else [])
  {
    if mac in t.byMac && t.status[t.byMac[mac]] != s {
      KindsAppend(t.log, Event(ChangedStatus, t.byMac[mac]), w);
    }
  }

  /** A station that no poll reaches is left alone. */
  lemma {:induction false} UnpolledUntouched<S>(t: Table<S>, polls: seq<Poll>, w: S)
    requires Known(t) && w in t.status
    requires forall k :: 0 <= k < |polls| ==> !Reaches(t, polls[k].mac, w)
    ensures var t' := Polled(t, polls);
            && w in t'.status && t'.status[w] == t.status[w] && KindsOf(t'.log, w) == KindsOf(t.log, w)
    decreases |polls|
  {
    if polls != [] {
      var t1 := UpdateSleepStatus(t, polls[0].mac, polls[0].s);
      KnownKept(t, polls[0].mac, polls[0].s);
      UpdateEffect(t, polls[0].mac, polls[0].s, w);
      forall k | 0 <= k < |polls[1..]| ensures !Reaches(t1, polls[1..][k].mac, w) {
        assert polls[1..][k] == polls[k + 1];
      }
      UnpolledUntouched(t1, polls[1..], w);
    }
  }

  lemma ReachedUnderOwnMac<S>(t: Table<S>, mac: MacAddress, w: S)
    requires Indexed(t) && Reaches(t, mac, w)
    ensures w in t.addresses && t.addresses[w].mac == mac
  {
  }

  /** No two polls reach one station. */
  lemma ReachedByOneOnly<S>(t: Table<S>, polls: seq<Poll>, w: S, j: nat, k: nat)
    requires Indexed(t) && DistinctMacs(polls) && j < |polls| && k < |polls| && j != k
    requires Reaches(t, polls[j].mac, w)
    ensures !Reaches(t, polls[k].mac, w)
  {
    assert polls[j].mac != polls[k].mac;
    ReachedUnderOwnMac(t, polls[j].mac, w);
  }

  lemma DistinctRest(polls: seq<Poll>)
    requires polls != [] && DistinctMacs(polls)
    ensures DistinctMacs(polls[1..])
  {
  }

  /** The first poll reaches `w`; the others come too late for it. */
  lemma PolledFirst<S>(t: Table<S>, polls: seq<Poll>, w: S)
    requires Indexed(t) && w in t.status && polls != [] && DistinctMacs(polls)
    requires Reaches(t, polls[0].mac, w)
    ensures var t' := Polled(t, polls);
            && w in t'.status && t'.status[w] == polls[0].s
            && KindsOf(t'.log, w)
               == KindsOf(t.log, w) + (if t.status[w] != polls[0].s then [ChangedStatus] else [])
  {
    var t1 := UpdateSleepStatus(t, polls[0].mac, polls[0].s);
    KnownKept(t, polls[0].mac, polls[0].s);
    UpdateEffect(t, polls[0].mac, polls[0].s, w);
    forall k | 0 <= k < |polls[1..]| ensures !Reaches(t1, polls[1..][k].mac, w) {
      assert polls[1..][k] == polls[k + 1];
      ReachedByOneOnly(t, polls, w, 0, k + 1);
    }
    UnpolledUntouched(t1, polls[1..], w);
  }

  /** A station reached by poll `k` takes its result, and is reported once if
      that is a change. */
  lemma {:induction false} PolledOnce<S>(t: Table<S>, polls: seq<Poll>, w: S, k: nat)
    requires Indexed(t) && w in t.status && k < |polls| && DistinctMacs(polls)
    requires Reaches(t, polls[k].mac, w)
    ensures var t' := Polled(t, polls);
            && w in t'.status && t'.status[w] == polls[k].s
            && KindsOf(t'.log, w)
               == KindsOf(t.log, w) + (if t.status[w] != polls[k].s then [ChangedStatus] else [])
    decreases |polls|
  {
    if k == 0 {
      PolledFirst(t, polls, w);
    } else {
      ReachedByOneOnly(t, polls, w, k, 0);
      PolledLater(t, polls, w);
      DistinctRest(polls);
      assert polls[1..][k - 1] == polls[k];
      PolledOnce(UpdateSleepStatus(t, polls[0].mac, polls[0].s), polls[1..], w, k - 1);
    }
  }

  /** Dealing with a first poll that does not reach `w`. */
  lemma PolledLater<S>(t: Table<S>, polls: seq<Poll>, w: S)
    requires Indexed(t) && w in t.status && polls != [] && !Reaches(t, polls[0].mac, w)
    ensures var t1 := UpdateSleepStatus(t, polls[0].mac, polls[0].s);
            && Indexed(t1) && w in t1.status && t1.status[w] == t.status[w] && t1.byMac == t.byMac
            && KindsOf(t1.log, w) == KindsOf(t.log, w)
            && Polled(t, polls) == Polled(t1, polls[1..])
  {
    hide KindsOf;
    UpdateEffect(t, polls[0].mac, polls[0].s, w);
    IndexedPreserved(t, Updating(polls[0].mac, polls[0].s));
  }

  lemma {:induction false} PolledKeepsIndices<S>(t: Table<S>, polls: seq<Poll>)
    requires Known(t)
    ensures var t' := Polled(t, polls);
            && t'.byMac == t.byMac && t'.byIp == t.byIp && t'.byHostname == t.byHostname
            && t'.addresses == t.addresses && t'.status.Keys == t.status.Keys
    decreases |polls|
  {
    if polls != [] {
      KnownKept(t, polls[0].mac, polls[0].s);
      PolledKeepsIndices(UpdateSleepStatus(t, polls[0].mac, polls[0].s), polls[1..]);
    }
  }

  /**
   The updates of a round, whatever happened to the table since the snapshot.
   Each station that is still in the MAC index under a polled address takes the
   result of that poll, every other station keeps its status, a change is
   reported exactly once and only when there is one, and no index changes.
   */
  lemma RoundOutcome<S>(t: Table<S>, polls: seq<Poll>, w: S)
    requires Indexed(t) && DistinctMacs(polls) && w in t.status
    ensures var t' := Polled(t, polls);
            && t'.byMac == t.byMac && t'.byIp == t.byIp && t'.byHostname == t.byHostname
            && w in t'.status
            && (forall k :: 0 <= k < |polls| && Reaches(t, polls[k].mac, w) ==> t'.status[w] == polls[k].s)
            && ((forall k :: 0 <= k < |polls| ==> !Reaches(t, polls[k].mac, w)) ==> t'.status[w] == t.status[w])
            && KindsOf(t'.log, w)
               == KindsOf(t.log, w) + (if t'.status[w] != t.status[w] then [ChangedStatus] else [])
  {
    PolledKeepsIndices(t, polls);
    if k :| 0 <= k < |polls| && Reaches(t, polls[k].mac, w) {
      PolledOnce(t, polls, w, k);
      forall j | 0 <= j < |polls| && j != k ensures !Reaches(t, polls[j].mac, w) {
        ReachedByOneOnly(t, polls, w, k, j);
      }
    } else {
      UnpolledUntouched(t, polls, w);
    }
  }

  lemma SameForOneStation<S>(t: Table<S>, polls: seq<Poll>, others: seq<Poll>, w: S)
    requires Indexed(t) && DistinctMacs(polls) && DistinctMacs(others) && w in t.status
    requires forall p :: p in polls <==> p in others
    ensures w in Polled(t, polls).status && w in Polled(t, others).status
    ensures Polled(t, polls).status[w] == Polled(t, others).status[w]
    ensures KindsOf(Polled(t, polls).log, w) == KindsOf(Polled(t, others).log, w)
  {
    if k :| 0 <= k < |polls| && Reaches(t, polls[k].mac, w) {
      assert polls[k] in others;
      var j :| 0 <= j < |others| && others[j] == polls[k];
      PolledOnce(t, polls, w, k);
      PolledOnce(t, others, w, j);
    } else {
      forall j | 0 <= j < |others| ensures !Reaches(t, others[j].mac, w) {
        assert others[j] in polls;
      }
      UnpolledUntouched(t, polls, w);
      UnpolledUntouched(t, others, w);
    }
  }

  /** The order in which a round processes its polls does not matter: the same
      table results, and each station is reported the same way. */
  lemma RoundOrderIrrelevant<S>(t: Table<S>, polls: seq<Poll>, others: seq<Poll>)
    requires Indexed(t) && DistinctMacs(polls) && DistinctMacs(others)
    requires forall p :: p in polls <==> p in others
    ensures Polled(t, others) == Polled(t, polls).(log := Polled(t, others).log)
    ensures forall w :: w in t.status ==>
              KindsOf(Polled(t, polls).log, w) == KindsOf(Polled(t, others).log, w)
  {
    PolledKeepsIndices(t, polls);
    PolledKeepsIndices(t, others);
    var s1, s2 := Polled(t, polls).status, Polled(t, others).status;
    forall w | w in t.status
      ensures w in s1 && w in s2 && s1[w] == s2[w]
      ensures KindsOf(Polled(t, polls).log, w) == KindsOf(Polled(t, others).log, w)
    {
      SameForOneStation(t, polls, others, w);
    }
    assert s1 == s2;
  }

  // ---------- What the removals of a round come to ----------

  /** The MAC index holds `w`, under its own address. */
  predicate Reachable<S(==)>(t: Table<S>, w: S) {
    w in t.addresses && Reaches(t, t.addresses[w].mac, w)
  }

  /** Whether `w` is among those that the exit packets remove. */
  predicate Leaves<S(==)>(t: Table<S>, exits: seq<MacAddress>, w: S) {
    Reachable(t, w) && t.addresses[w].mac in exits
  }

  lemma RemovalEffect<S>(t: Table<S>, mac: MacAddress, w: S)
    requires Indexed(t) && w in t.status
    ensures var t' := RemoveByMac(t, mac);
            && t'.addresses == t.addresses && t'.status.Keys == t.status.Keys
            && t'.status[w] == (if Reaches(t, mac, w) then Disconnected else t.status[w])
            && (Reachable(t', w) <==> Reachable(t, w) && !Reaches(t, mac, w))
            && (Listed(t', w) <==> Listed(t, w) && !Reaches(t, mac, w))
            && KindsOf(t'.log, w) == KindsOf(t.log, w) + (if Reaches(t, mac, w) then [Removal] else [])
  {
    if mac in t.byMac {
      assert Listed(t, t.byMac[mac]);
      KindsAppend(t.log, Event(Removal, t.byMac[mac]), w);
    }
  }

  /**
   The exit packets of a round, in any number and order and with repetitions.
   Exactly the stations that the MAC index held under one of the addresses are
   disconnected, unlisted and reported as removed, once each; all others stay
   as they were.
   */
  lemma {:induction false} DrainOutcome<S>(t: Table<S>, exits: seq<MacAddress>, w: S)
    requires Indexed(t) && w in t.status
    ensures var t' := Drained(t, exits);
            && Indexed(t') && w in t'.status
            && t'.status[w] == (if Leaves(t, exits, w) then Disconnected else t.status[w])
            && (Reachable(t', w) <==> Reachable(t, w) && !Leaves(t, exits, w))
            && (Listed(t', w) <==> Listed(t, w) && !Leaves(t, exits, w))
            && KindsOf(t'.log, w) == KindsOf(t.log, w) + (if Leaves(t, exits, w) then [Removal] else [])
    decreases |exits|
  {
    hide KindsOf;
    if exits != [] {
      var t1 := RemoveByMac(t, exits[0]);
      RemovalEffect(t, exits[0], w);
      IndexedPreserved(t, RemovingByMac(exits[0]));
      DrainOutcome(t1, exits[1..], w);
      LeavesSplits(t, t1, exits, w);
    }
  }

  lemma LeavesSplits<S>(t: Table<S>, t1: Table<S>, exits: seq<MacAddress>, w: S)
    requires Indexed(t) && exits != [] && t1.addresses == t.addresses
    requires Reachable(t1, w) <==> Reachable(t, w) && !Reaches(t, exits[0], w)
    ensures Leaves(t, exits, w) <==> Reaches(t, exits[0], w) || Leaves(t1, exits[1..], w)
    ensures !(Reaches(t, exits[0], w) && Leaves(t1, exits[1..], w))
  {
    if Reaches(t, exits[0], w) {
      ReachedUnderOwnMac(t, exits[0], w);
    }
    if Reachable(t, w) {
      assert t.addresses[w].mac in exits <==> t.addresses[w].mac == exits[0] || t.addresses[w].mac in exits[1..];
    }
  }

  // ---------- A whole round ----------

  /** What polling one station comes to, as documented: the status replied,
      `Asleep` when every attempt missed, or an exception. `attempts` is what
      the network delivers, and `replied` the status of the reply. */
  function PollResult(attempts: seq<Attempt>, replied: Status): Result<Status, DecodeError> {
    match Verdict(attempts, 0, MAX_RETRIES)
    case Err(e) => Err(e)
    case Ok(packet) => Ok(if packet.Some? then replied else Asleep)
  }

  /** A reply counts if it is among the first three attempts; a station that is
      silent through them is asleep, and has missed three. */
  lemma PollWithinThree(attempts: seq<Attempt>, replied: Status, k: nat)
    requires forall j :: 0 <= j < k ==> IsMiss(At(attempts, j))
    ensures k >= 3 ==> PollResult(attempts, replied) == Ok(Asleep) && MissesFrom(attempts, 0, MAX_RETRIES) == 3
    ensures k < 3 && At(attempts, k).Recognised? ==>
              PollResult(attempts, replied) == Ok(replied) && MissesFrom(attempts, 0, MAX_RETRIES) == k
    ensures k < 3 && At(attempts, k).Raised? ==>
              PollResult(attempts, replied) == Err(At(attempts, k).error) && MissesFrom(attempts, 0, MAX_RETRIES) == k
  {
    VerdictSkips(attempts, if k < 3 then k else 3, MAX_RETRIES);
  }

  /** The network during one round, for each address polled. */
  datatype Network = Network(attempts: MacAddress -> seq<Attempt>, replied: MacAddress -> Status) {
    function Answer(mac: MacAddress): Result<Status, DecodeError> {
      PollResult(attempts(mac), replied(mac))
    }

    function Misses(mac: MacAddress): nat {
      MissesFrom(attempts(mac), 0, MAX_RETRIES)
    }
  }

  /** The polls of these addresses, in order, up to the first exception. */
  function PollsOf(macs: seq<MacAddress>, net: Network): (r: (seq<Poll>, Option<DecodeError>))
    ensures |r.0| <= |macs|
    ensures forall k :: 0 <= k < |r.0| ==> net.Answer(macs[k]) == Ok(r.0[k].s) && r.0[k].mac == macs[k]
    ensures match r.1
            case None => |r.0| == |macs|
            case Some(e) => |r.0| < |macs| && net.Answer(macs[|r.0|]) == Err(e)
  {
    if macs == [] then ([], None)
    else
      match net.Answer(macs[0])
      case Err(e) => ([], Some(e))
      case Ok(s) => ([Poll(macs[0], s)] + PollsOf(macs[1..], net).0, PollsOf(macs[1..], net).1)
  }

  lemma PollsNext(macs: seq<MacAddress>, net: Network, k: nat)
    requires k < |macs|
    ensures PollsOf(macs[k..], net)
            == match net.Answer(macs[k])
               case Err(e) => ([], Some(e))
               case Ok(s) => ([Poll(macs[k], s)] + PollsOf(macs[k + 1..], net).0, PollsOf(macs[k + 1..], net).1)
  {
    assert macs[k..][0] == macs[k] && macs[k..][1..] == macs[k + 1..];
  }

  /** Every address of the MAC index, in the order of the index. */
  ghost predicate IsSnapshot<S>(t: Table<S>, macs: seq<MacAddress>) {
    && (forall mac :: mac in macs <==> mac in t.byMac)
    && (forall j, k :: 0 <= j < k < |macs| ==> Before(macs[j], macs[k]))
  }

  /** There is only one, so the table and the network determine the round. */
  lemma {:induction false} SnapshotIsOne<S>(t: Table<S>, macs: seq<MacAddress>, others: seq<MacAddress>)
    requires IsSnapshot(t, macs) && IsSnapshot(t, others)
    ensures macs == others
  {
    hide Before;
    SortedAreOne(macs, others);
  }

  predicate Sorted(macs: seq<MacAddress>) {
    forall j, k :: 0 <= j < k < |macs| ==> Before(macs[j], macs[k])
  }

  lemma {:induction false} SortedAreOne(macs: seq<MacAddress>, others: seq<MacAddress>)
    requires Sorted(macs) && Sorted(others) && forall mac :: mac in macs <==> mac in others
    ensures macs == others
    decreases |macs|
  {
    hide Before;
    if macs == [] {
      assert forall k :: 0 <= k < |others| ==> others[k] in macs;
    } else {
      assert macs[0] in others && others[0] in macs;
      SameFirst(macs, others);
      forall mac ensures mac in macs[1..] <==> mac in others[1..] {
        FirstOnce(macs, mac);
        FirstOnce(others, mac);
      }
      SortedAreOne(macs[1..], others[1..]);
    }
  }

  lemma NeverBoth(a: MacAddress, b: MacAddress)
    ensures !(Before(a, b) && Before(b, a)) && !Before(a, a)
  {
    RankOrders(a, b);
    RankOrders(b, a);
    RankOrders(a, a);
  }

  lemma SameFirst(macs: seq<MacAddress>, others: seq<MacAddress>)
    requires Sorted(macs) && Sorted(others) && macs != [] && others != []
    requires macs[0] in others && others[0] in macs
    ensures macs[0] == others[0]
  {
    hide Before;
    NeverBoth(macs[0], others[0]);
  }

  lemma FirstOnce(macs: seq<MacAddress>, mac: MacAddress)
    requires Sorted(macs) && macs != []
    ensures mac in macs[1..] <==> mac in macs && mac != macs[0]
  {
    hide Before;
    NeverBoth(macs[0], macs[0]);
    if mac in macs && mac != macs[0] {
      var k :| 0 <= k < |macs| && macs[k] == mac;
      assert macs[1..][k - 1] == mac;
    }
  }

  /** The table after a round, and the exception that ended it, if any. One from
      a poll ends it before any removal. */
  function Round<S(==)>(t: Table<S>, macs: seq<MacAddress>, net: Network, inbox: seq<string>)
    : (Table<S>, Option<DecodeError>)
    requires Known(t)
  {
    var (polls, error) := PollsOf(macs, net);
    if error.Some? then (Polled(t, polls), error) else (Drained(Polled(t, polls), ExitsIn(inbox).0), ExitsIn(inbox).1)
  }

  /** What a round has done to `w`: it was given status `s`, and removed if `leaves`. */
  ghost predicate TakesPart<S>(t: Table<S>, t': Table<S>, w: S, s: Status, leaves: bool) {
    && w in t.status && w in t'.status
    && t'.status[w] == (if leaves then Disconnected else s)
    && (Listed(t', w) <==> Listed(t, w) && !leaves)
    && KindsOf(t'.log, w) == KindsOf(t.log, w) + (if s != t.status[w] then [ChangedStatus] else [])
                             + (if leaves then [Removal] else [])
  }

  /**
   A whole round, station by station. One whose address was polled before any
   poll raised an exception takes the result of its own poll, and is removed
   afterwards exactly when no poll raised one and an exit packet names its
   address. Any other station is untouched.
   */
  lemma WholeRound<S>(t: Table<S>, macs: seq<MacAddress>, net: Network, inbox: seq<string>, w: S)
    requires Indexed(t) && IsSnapshot(t, macs) && w in t.status
    ensures var (polls, error) := PollsOf(macs, net);
            var t' := Round(t, macs, net, inbox).0;
            && Indexed(t')
            && if Reachable(t, w) && t.addresses[w].mac in macs[..|polls|] then
                 var mac := t.addresses[w].mac;
                 net.Answer(mac).Ok?
                 && TakesPart(t, t', w, net.Answer(mac).value, error == None && mac in ExitsIn(inbox).0)
               else
                 TakesPart(t, t', w, t.status[w], false) && (error == None ==> !Reachable(t, w))
  {
    hide PollsOf, ExitsIn, KindsOf, Polled, Drained, TakesPart;
    var (polls, error) := PollsOf(macs, net);
    var t1 := Polled(t, polls);
    PolledKeepsIndices(t, polls);
    UpdatesReach(t, macs, net, w);
    assert Indexed(t1);
    if error == None {
      assert macs[..|polls|] == macs;
      var s := if Reachable(t, w) then net.Answer(t.addresses[w].mac).value else t.status[w];
      RemovalsReach(t, t1, ExitsIn(inbox).0, w, s);
    }
  }

  lemma PollsAreDistinct<S>(t: Table<S>, macs: seq<MacAddress>, net: Network)
    requires IsSnapshot(t, macs)
    ensures DistinctMacs(PollsOf(macs, net).0)
  {
    hide Before;
    forall j, k | 0 <= j < k < |macs| ensures macs[j] != macs[k] {
      NeverBoth(macs[j], macs[k]);
    }
  }

  /** The updates of the round for one station. */
  lemma UpdatesReach<S>(t: Table<S>, macs: seq<MacAddress>, net: Network, w: S)
    requires Indexed(t) && IsSnapshot(t, macs) && w in t.status
    ensures var polls := PollsOf(macs, net).0;
            var t' := Polled(t, polls);
            if Reachable(t, w) && t.addresses[w].mac in macs[..|polls|] then
              net.Answer(t.addresses[w].mac).Ok?
              && TakesPart(t, t', w, net.Answer(t.addresses[w].mac).value, false)
            else
              TakesPart(t, t', w, t.status[w], false)
  {
    hide KindsOf, Polled, PollsOf, PollResult;
    var polls := PollsOf(macs, net).0;
    PollsAreDistinct(t, macs, net);
    PolledKeepsIndices(t, polls);
    if Reachable(t, w) && t.addresses[w].mac in macs[..|polls|] {
      var k :| 0 <= k < |polls| && macs[k] == t.addresses[w].mac;
      PolledOnce(t, polls, w, k);
    } else {
      forall k | 0 <= k < |polls| ensures !Reaches(t, polls[k].mac, w) {
        assert macs[..|polls|][k] == polls[k].mac;
        if Reaches(t, polls[k].mac, w) {
          ReachedUnderOwnMac(t, polls[k].mac, w);
        }
      }
      UnpolledUntouched(t, polls, w);
    }
  }

  /** The removals of the round for one station. */
  lemma RemovalsReach<S>(t: Table<S>, t1: Table<S>, exits: seq<MacAddress>, w: S, s: Status)
    requires Indexed(t1) && t1.byMac == t.byMac && t1.addresses == t.addresses && TakesPart(t, t1, w, s, false)
    ensures Indexed(Drained(t1, exits))
    ensures TakesPart(t, Drained(t1, exits), w, s, Reachable(t, w) && t.addresses[w].mac in exits)
  {
    hide KindsOf, Drained, Listed, Indexed;
    DrainOutcome(t1, exits, w);
    assert Leaves(t1, exits, w) <==> Reachable(t, w) && t.addresses[w].mac in exits;
  }

  // ---------- The loop ----------

  /** One turn, on the participants that `ParticipantList` puts behind its null
      pointers: all requests go out, then one participant after the other is
      polled and updated, then the exit port is read; `inbox` holds the datagrams
      found there. An exception ends the turn. `stamp` gives the counter and the
      clock for each request. */
  method MonitoringRound(service: ManagementService, host: NodeAddresses, stamp: nat -> (Uint64, Uint64),
                         net: Network, inbox: seq<string>)
    returns (failure: Option<DecodeError>, macs: seq<MacAddress>, requests: seq<ClientRequest>)
    requires service.Valid()
    modifies service, service.known
    ensures service.Valid() && service.known == old(service.known) && service.joined == old(service.joined)
    ensures Known(old(service.View())) && IsSnapshot(old(service.View()), macs)
    ensures (service.View(), failure) == Round(old(service.View()), macs, net, inbox)
    ensures |requests| == |macs|
    ensures forall k :: 0 <= k < |macs| ==>
              && requests[k].sentPacket == RequestText(host, stamp(k).0, stamp(k).1, SleepStatus)
              && requests[k].sent == Copies(requests[k].sentPacket, Sendings(macs, net, k))
  {
    macs := Snapshot(service);
    requests := SendAll(macs, host, stamp);
    assert service.View() == old(service.View());
    failure := UpdateAll(service, macs, requests, net);
    if failure == None {
      failure := DrainExits(service, inbox);
    }
  }

  /** How often the request to the `k`-th station goes out in a round: once, and
      again for each attempt that missed if its poll is reached. */
  function Sendings(macs: seq<MacAddress>, net: Network, k: nat): nat
    requires k < |macs|
  {
    1 + if k <= |PollsOf(macs, net).0| then net.Misses(macs[k]) else 0
  }

  /** One request per address, sent once. */
  method SendAll(macs: seq<MacAddress>, host: NodeAddresses, stamp: nat -> (Uint64, Uint64))
    returns (requests: seq<ClientRequest>)
    ensures |requests| == |macs| && forall j, k :: 0 <= j < k < |requests| ==> requests[j] != requests[k]
    ensures forall k :: 0 <= k < |requests| ==>
              && fresh(requests[k]) && requests[k].sent == [requests[k].sentPacket]
              && requests[k].sentPacket == RequestText(host, stamp(k).0, stamp(k).1, SleepStatus)
  {
    hide RequestText;
    requests := [];
    for k := 0 to |macs|
      invariant |requests| == k && forall i, j :: 0 <= i < j < k ==> requests[i] != requests[j]
      invariant forall j :: 0 <= j < k ==>
                  && fresh(requests[j]) && requests[j].sent == [requests[j].sentPacket]
                  && requests[j].sentPacket == RequestText(host, stamp(j).0, stamp(j).1, SleepStatus)
    {
      var request := MakeRequest(host, stamp(k).0, stamp(k).1, SleepStatus);
      requests := requests + [request];
    }
  }

  /** The loop over the requests. */
  method UpdateAll(service: ManagementService, macs: seq<MacAddress>, requests: seq<ClientRequest>, net: Network)
    returns (failure: Option<DecodeError>)
    requires service.Valid() && |requests| == |macs|
    requires forall j, k :: 0 <= j < k < |requests| ==> requests[j] != requests[k]
    requires forall k :: 0 <= k < |requests| ==> requests[k].sent == [requests[k].sentPacket]
    modifies service, service.known, requests
    ensures service.Valid() && service.known == old(service.known) && service.joined == old(service.joined)
    ensures Known(old(service.View())) && service.View() == Polled(old(service.View()), PollsOf(macs, net).0)
    ensures failure == PollsOf(macs, net).1
    ensures forall k :: 0 <= k < |macs| ==>
              requests[k].sent == Copies(requests[k].sentPacket, Sendings(macs, net, k))
  {
    hide PollsOf, Polled, PollResult, MissesFrom, UpdateSleepStatus;
    ghost var start, all := service.View(), PollsOf(macs, net);
    assert macs[0..] == macs;
    for k := 0 to |macs|
      invariant service.Valid() && service.known == old(service.known) && service.joined == old(service.joined)
      invariant Known(start) && Known(service.View())
      invariant PollsOf(macs[k..], net).1 == all.1 && k + |PollsOf(macs[k..], net).0| == |all.0|
      invariant Polled(service.View(), PollsOf(macs[k..], net).0) == Polled(start, all.0)
      invariant forall j :: 0 <= j < k ==>
                  requests[j].sent == Copies(requests[j].sentPacket, 1 + net.Misses(macs[j]))
      invariant forall j :: k <= j < |requests| ==> requests[j].sent == [requests[j].sentPacket]
    {
      PollsNext(macs, net, k);
      var status := PollAsDocumented(requests[k], net.attempts(macs[k]), BLANK, net.replied(macs[k]));
      OneMoreCopy(requests[k].sentPacket, net.Misses(macs[k]));
      NoPolls(service.View());
      if status.Err? {
        return Some(status.error);
      }
      PolledNext(service.View(), Poll(macs[k], status.value), PollsOf(macs[k + 1..], net).0);
      var updated := service.UpdateSleepStatus(macs[k], status.value);
    }
    NoPolls(service.View());
    failure := None;
  }

  lemma OneMoreCopy(text: string, n: nat)
    ensures [text] + Copies(text, n) == Copies(text, 1 + n)
  {
  }

  lemma NoPolls<S>(t: Table<S>)
    requires Known(t)
    ensures Polled(t, []) == t
  {
  }

  lemma PolledNext<S>(t: Table<S>, poll: Poll, polls: seq<Poll>)
    requires Known(t)
    ensures Known(UpdateSleepStatus(t, poll.mac, poll.s))
    ensures Polled(t, [poll] + polls) == Polled(UpdateSleepStatus(t, poll.mac, poll.s), polls)
  {
    KnownKept(t, poll.mac, poll.s);
    assert ([poll] + polls)[1..] == polls;
  }

  /** The inner loop: removes the sender of every packet found on the exit port. */
  method DrainExits(service: ManagementService, inbox: seq<string>) returns (failure: Option<DecodeError>)
    requires service.Valid()
    modifies service, service.known
    ensures service.Valid() && service.known == old(service.known) && service.joined == old(service.joined)
    ensures Known(old(service.View()))
    ensures service.View() == Drained(old(service.View()), ExitsIn(inbox).0)
    ensures failure == ExitsIn(inbox).1
  {
    ghost var start, all := service.View(), ExitsIn(inbox);
    assert inbox[0..] == inbox;
    for k := 0 to |inbox|
      invariant service.Valid() && service.known == old(service.known) && service.joined == old(service.joined)
      invariant Known(start) && Known(service.View())
      invariant ExitsIn(inbox[k..]).1 == all.1
      invariant Drained(service.View(), ExitsIn(inbox[k..]).0) == Drained(start, all.0)
    {
      ExitsNext(inbox, k);
      var read := ServerTryReceive(inbox[k]);
      if read.Err? {
        return Some(read.error);
      }
      DrainedNext(service.View(), read.value.header.sender.mac, ExitsIn(inbox[k + 1..]).0);
      var removed := service.RemoveByMacAddress(read.value.header.sender.mac);
    }
    failure := None;
  }

  lemma DrainedNext<S>(t: Table<S>, mac: MacAddress, exits: seq<MacAddress>)
    requires Known(t)
    ensures Known(RemoveByMac(t, mac)) && Drained(t, [mac] + exits) == Drained(RemoveByMac(t, mac), exits)
  {
    KnownKeptByRemoval(t, mac);
    assert ([mac] + exits)[1..] == exits;
  }

  /** The loop over the participants. It dereferences every pointer of the
      list; None stands for the null pointer met. */
  method BuildRequests(list: seq<WorkStation?>) returns (requests: Option<seq<MacAddress>>)
    ensures requests == None <==> null in list
    ensures requests.Some? ==>
              |requests.value| == |list|
              && forall k :: 0 <= k < |list| ==> list[k] != null && requests.value[k] == list[k].addresses.mac
  {
    var macs: seq<MacAddress> := [];
    for k := 0 to |list|
      invariant |macs| == k
      invariant forall j :: 0 <= j < k ==> list[j] != null && macs[j] == list[j].addresses.mac
    {
      if list[k] == null {
        return None;
      }
      macs := macs + [list[k].addresses.mac];
    }
    requests := Some(macs);
  }

  /** As coded the list starts with null pointers, so the loop comes through
      exactly when there is no participant. */
  method SnapshotAsCoded(service: ManagementService) returns (requests: Option<seq<MacAddress>>)
    requires service.Valid()
    ensures requests == if service.macAddressIndex == map[] then Some([]) else None
  {
    var list := service.ParticipantList();
    requests := BuildRequests(list);
    if service.macAddressIndex != map[] {
      assert list[0] == null;
    }
  }

  /** The addresses of the participants behind the null pointers, in order. */
  method Snapshot(service: ManagementService) returns (requests: seq<MacAddress>)
    requires service.Valid()
    ensures forall mac :: mac in requests <==> mac in service.macAddressIndex
    ensures forall j, k :: 0 <= j < k < |requests| ==> Before(requests[j], requests[k])
  {
    hide Before;
    var list := service.ParticipantList();
    var n := |service.macAddressIndex|;
    var built := BuildRequests(list[n..]);
    requests := built.value;
    forall j | 0 <= j < |requests|
      ensures requests[j] in service.macAddressIndex && service.macAddressIndex[requests[j]] == list[n + j]
    {
      OwnMacIsKey(service.View(), list[n + j]);
    }
    forall mac | mac in service.macAddressIndex ensures mac in requests {
      var w := service.macAddressIndex[mac];
      assert w in service.macAddressIndex.Values && w in list[n..];
      var j :| 0 <= j < |list[n..]| && list[n..][j] == w;
      assert service.View().addresses[w].mac == mac;
      assert requests[j] == mac;
    }
  }

  // ---------- One poll ----------

  /**
   What the code passes on after polling one station: `unset` is the value of
   the variable that no branch assigns when a packet is returned. As coded a
   packet is returned unless an attempt raises an exception, so the branch that
   puts a silent station to sleep is never taken.
   */
  method PollAsCoded(request: ClientRequest, attempts: seq<Attempt>, blank: Contents, unset: Status)
    returns (status: Result<Status, DecodeError>)
    modifies request
    ensures match Verdict(attempts, 0, MAX_RETRIES)
            case Err(e) => status == Err(e)
            case Ok(_) => status == Ok(unset)
    ensures status == Ok(unset) <==> !Fails(attempts, MAX_RETRIES)
  {
    var r, polls, misses := request.ReceiveBounded(MAX_RETRIES, attempts, blank);
    match r {
      case Err(e) => status := Err(e);
      case Ok(packet) => status := Ok(if packet.Some? then unset else Asleep);
    }
    VerdictFails(attempts, 0, MAX_RETRIES);
  }

  /** With `receive_bounded` as documented, and the status of the reply used: the
      status of the reply is passed on when there is one, `Asleep` when every
      attempt missed, and the exception when an attempt raised one. */
  method PollAsDocumented(request: ClientRequest, attempts: seq<Attempt>, blank: Contents, replied: Status)
    returns (status: Result<Status, DecodeError>)
    modifies request
    ensures status == PollResult(attempts, replied)
    ensures request.sent
            == old(request.sent) + Copies(request.sentPacket, MissesFrom(attempts, 0, MAX_RETRIES))
    ensures Succeeds(attempts, MAX_RETRIES) ==> status == Ok(replied)
    ensures (forall k :: 0 <= k < MAX_RETRIES ==> IsMiss(At(attempts, k))) ==> status == Ok(Asleep)
    ensures Fails(attempts, MAX_RETRIES) <==> status.Err?
  {
    var r, polls, misses := request.ReceiveBoundedAsDocumented(MAX_RETRIES, attempts, blank);
    match r {
      case Err(e) => status := Err(e);
      case Ok(packet) => status := Ok(if packet.Some? then replied else Asleep);
    }
  }
}
