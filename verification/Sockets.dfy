/**
 The retry loops of `ClientSocket::Request` and the Wake-on-LAN payload
 (`src/socket.cpp`). What the network delivers to each attempt is given: the
 `k`-th attempt finds `inbox[k]`, and nothing once the inbox is used up.
 */
module Sockets {
  import opened Wrappers
  import opened Numerals
  import opened Address
  import opened PacketCodec
  import opened PacketProperties
  import opened PacketOutcome

  // ---------- Attempts ----------

  /** What one `try_receive` comes to: nothing there, a packet that was not
      recognised (and what it left in the object), a packet, or an exception. */
  datatype Attempt =
    | Nothing
    | Unrecognised(left: Contents)
    | Recognised(packet: Contents)
    | Raised(error: DecodeError)

  predicate IsMiss(a: Attempt) {
    a.Nothing? || a.Unrecognised?
  }

  function At(attempts: seq<Attempt>, k: nat): Attempt {
    if k < |attempts| then attempts[k] else Nothing
  }

  /** The attempt that finds this datagram, reading into an object that holds `p`. */
  function AttemptOf(datagram: Option<string>, p: Contents): Attempt {
    match datagram
    case None => Nothing
    case Some(text) =>
      var d := Decode(text, 0, p);
      match d.outcome
      case Err(e) => Raised(e)
      case Ok(known) => if known then Recognised(d.value) else Unrecognised(d.value)
  }

  /** `UdpReceiverSocket::try_receive(Packet&)`. */
  method TryReceive(datagram: Option<string>, packet: Packet) returns (read: Attempt)
    modifies packet.header, packet.body
    ensures read == AttemptOf(datagram, old(packet.View()))
    ensures datagram.Some? ==> packet.View() == Decode(datagram.value, 0, old(packet.View())).value
    ensures read.Unrecognised? ==> packet.View() == read.left
    ensures read.Recognised? ==> packet.View() == read.packet
    ensures read.Nothing? ==> packet.View() == old(packet.View())
  {
    match datagram {
      case None => read := Nothing;
      case Some(text) =>
        var deserializer := new PacketDeserializer(text);
        var r := packet.Deserialize(deserializer);
        match r {
          case Err(e) => read := Raised(e);
          case Ok(known) => read := if known then Recognised(packet.View()) else Unrecognised(packet.View());
        }
    }
  }

  /** The attempts that find these datagrams one after the other. */
  function Attempts(inbox: seq<Option<string>>, p: Contents): (attempts: seq<Attempt>)
    ensures |attempts| == |inbox|
  {
    if inbox == [] then []
    else
      var a := AttemptOf(inbox[0], p);
      var p' := match a case Unrecognised(q) => q case Recognised(q) => q case _ => p;
      [a] + Attempts(inbox[1..], p')
  }

  /** What the attempts from the `k`-th on bring within the bound: the first
      packet or exception, or nothing. */
  function Verdict(attempts: seq<Attempt>, k: nat, bound: nat): Result<Option<Contents>, DecodeError>
    decreases bound - k
  {
    if k >= bound then Ok(None)
    else
      match At(attempts, k)
      case Recognised(p) => Ok(Some(p))
      case Raised(e) => Err(e)
      case _ => Verdict(attempts, k + 1, bound)
  }

  /** How many attempts miss before that. */
  function MissesFrom(attempts: seq<Attempt>, k: nat, bound: nat): nat
    decreases bound - k
  {
    if k >= bound || !IsMiss(At(attempts, k)) then 0 else 1 + MissesFrom(attempts, k + 1, bound)
  }

  /** Misses are passed over. */
  lemma {:induction false} VerdictSkips(attempts: seq<Attempt>, misses: nat, bound: nat)
    requires misses <= bound && forall k :: 0 <= k < misses ==> IsMiss(At(attempts, k))
    ensures Verdict(attempts, 0, bound) == Verdict(attempts, misses, bound)
    ensures MissesFrom(attempts, 0, bound) == misses + MissesFrom(attempts, misses, bound)
  {
    if misses > 0 {
      VerdictSkips(attempts, misses - 1, bound);
      assert IsMiss(At(attempts, misses - 1));
    }
  }

  // ---------- The retry loops ----------

  function Copies(text: string, n: nat): seq<string> {
    seq(n, _ => text)
  }

  class ClientRequest {
    const sentPacket: string
    /** Everything put on the wire for this request. */
    var sent: seq<string>

    constructor (sentPacket: string)
      ensures this.sentPacket == sentPacket && sent == []
    {
      this.sentPacket := sentPacket;
      sent := [];
    }

    method Send()
      modifies this
      ensures sent == old(sent) + [sentPacket]
    {
      sent := sent + [sentPacket];
    }

    /**
     The loop of `receive_bounded`. It makes at most `retryBound` attempts and
     sends the request again exactly once for each attempt that missed; it ends
     at the first attempt that did not, or after `retryBound` misses. `received`
     is the packet object when the loop ends.
     */
    method Retry(retryBound: nat, attempts: seq<Attempt>, blank: Contents)
      returns (heard: Result<bool, DecodeError>, received: Contents, polls: nat, ghost misses: nat)
      modifies this
      ensures sent == old(sent) + Copies(sentPacket, misses)
      ensures forall k :: 0 <= k < misses ==> IsMiss(At(attempts, k))
      ensures misses == MissesFrom(attempts, 0, retryBound)
      ensures match Verdict(attempts, 0, retryBound)
              case Ok(None) => heard == Ok(false)
              case Ok(Some(p)) => heard == Ok(true) && received == p
              case Err(e) => heard == Err(e)
      ensures if heard == Ok(false) then misses == polls == retryBound
              else misses + 1 == polls <= retryBound && !IsMiss(At(attempts, misses))
      ensures heard == Ok(true) ==> At(attempts, misses) == Recognised(received)
      ensures heard.Err? ==> At(attempts, misses) == Raised(heard.error)
    {
      var left: nat := retryBound;
      heard, received, polls, misses := Ok(false), blank, 0, 0;
      while left > 0
        invariant left <= retryBound
        invariant sent == old(sent) + Copies(sentPacket, misses)
        invariant forall k :: 0 <= k < misses ==> IsMiss(At(attempts, k))
        invariant if heard == Ok(false) then misses == polls == retryBound - left
                  else left == 0 && heard == Ok(true) && misses + 1 == polls <= retryBound
                       && At(attempts, misses) == Recognised(received)
      {
        var read := At(attempts, polls);
        polls := polls + 1;
        if read.Raised? {
          heard := Err(read.error);
          VerdictSkips(attempts, misses, retryBound);
          return;
        }
        if read.Recognised? {
          heard, received := Ok(true), read.packet;
          left := 0;
        } else {
          if read.Unrecognised? {
            received := read.left;
          }
          assert Copies(sentPacket, misses + 1) == Copies(sentPacket, misses) + [sentPacket];
          Send();
          misses := misses + 1;
          left := left - 1;
        }
      }
      VerdictSkips(attempts, misses, retryBound);
    }

    /** `receive_bounded` as coded: a packet is returned whether or not an
        attempt succeeded. */
    method ReceiveBounded(retryBound: nat, attempts: seq<Attempt>, blank: Contents)
      returns (r: Result<Option<Contents>, DecodeError>, polls: nat, ghost misses: nat)
      modifies this
      ensures sent == old(sent) + Copies(sentPacket, misses)
      ensures forall k :: 0 <= k < misses ==> IsMiss(At(attempts, k))
      ensures if misses == retryBound then polls == misses && r.Ok?
              else misses < retryBound && polls == misses + 1 && !IsMiss(At(attempts, misses))
      ensures misses == MissesFrom(attempts, 0, retryBound)
      ensures match Verdict(attempts, 0, retryBound)
              case Err(e) => r == Err(e)
              case Ok(_) => r.Ok? && r.value.Some?
      ensures r.Ok? && misses < retryBound ==> At(attempts, misses) == Recognised(r.value.value)
      ensures r.Err? ==> misses < retryBound && At(attempts, misses) == Raised(r.error)
    {
      var heard, received;
      heard, received, polls, misses := Retry(retryBound, attempts, blank);
      r := match heard case Ok(_) => Ok(Some(received)) case Err(e) => Err(e);
    }

    /** `receive_bounded` as documented: a packet is returned exactly when an
        attempt within the bound succeeded before any raised an exception. */
    method ReceiveBoundedAsDocumented(retryBound: nat, attempts: seq<Attempt>, blank: Contents)
      returns (r: Result<Option<Contents>, DecodeError>, polls: nat, ghost misses: nat)
      modifies this
      ensures sent == old(sent) + Copies(sentPacket, misses) && polls <= retryBound
      ensures misses == MissesFrom(attempts, 0, retryBound) && r == Verdict(attempts, 0, retryBound)
      ensures r.Ok? && r.value.Some? <==> Succeeds(attempts, retryBound)
      ensures r.Ok? && r.value.Some? ==> At(attempts, misses) == Recognised(r.value.value) && polls == misses + 1
      ensures r.Ok? && r.value.None? ==> polls == misses == retryBound
      ensures r.Ok? && r.value.None? <==> forall k :: 0 <= k < retryBound ==> IsMiss(At(attempts, k))
      ensures r.Err? <==> Fails(attempts, retryBound)
    {
      var heard, received;
      heard, received, polls, misses := Retry(retryBound, attempts, blank);
      r := match heard
        case Ok(true) => Ok(Some(received))
        case Ok(false) => Ok(None)
        case Err(e) => Err(e);
      assert heard == Ok(true) ==> SucceedsAt(attempts, retryBound, misses);
      assert forall k :: SucceedsAt(attempts, retryBound, k) ==> k == misses;
      assert heard.Err? ==> FailsAt(attempts, retryBound, misses);
      assert forall k :: FailsAt(attempts, retryBound, k) ==> k == misses;
    }

    /** `receive_response`, followed until the given attempts are used up; None
        means that it is still waiting then. It returns a packet only after an
        attempt that succeeded, and has sent once more for each one before it. */
    method ReceiveResponse(attempts: seq<Attempt>) returns (r: Option<Result<Contents, DecodeError>>, ghost misses: nat)
      modifies this
      ensures sent == old(sent) + Copies(sentPacket, misses) && misses <= |attempts|
      ensures forall k :: 0 <= k < misses ==> IsMiss(attempts[k])
      ensures match r
              case None => misses == |attempts|
              case Some(Ok(p)) => misses < |attempts| && attempts[misses] == Recognised(p)
              case Some(Err(e)) => misses < |attempts| && attempts[misses] == Raised(e)
    {
      misses := 0;
      for k := 0 to |attempts|
        invariant misses == k
        invariant sent == old(sent) + Copies(sentPacket, misses)
        invariant forall j :: 0 <= j < k ==> IsMiss(attempts[j])
      {
        match attempts[k] {
          case Raised(e) => return Some(Err(e)), misses;
          case Recognised(p) => return Some(Ok(p)), misses;
          case _ =>
            assert Copies(sentPacket, misses + 1) == Copies(sentPacket, misses) + [sentPacket];
            Send();
            misses := misses + 1;
        }
      }
      r := None;
    }
  }

  /** `ClientSocket::request`: the packet goes out once. The addresses of the
      host, the counter and the clock are given. */
  method MakeRequest(host: NodeAddresses, seqn: Uint64, timestamp: Uint64, kind: Kind)
    returns (request: ClientRequest)
    ensures fresh(request) && request.sent == [request.sentPacket]
    ensures request.sentPacket == RequestText(host, seqn, timestamp, kind)
    ensures request.sentPacket
            == Numeral(10, seqn) + ";" + Numeral(10, timestamp) + ";" + Text(ColonHex, host.mac) + ";"
               + Text(DottedDecimal, host.ip) + ";" + Kept(host.hostname, false) + ";" + "0" + ";"
               + (match kind case Discovery => "0" case Exit => "1" case Wol => "2" case SleepStatus => "3") + ";"
    ensures kind == Discovery && Framed(Kept(host.hostname, false)) ==>
              Decode(request.sentPacket, 0, BLANK)
              == Decoding(Ok(true), |request.sentPacket|,
                          Contents(Header(seqn % 0x1_0000, timestamp % 0x1_0000,
                                          host.(hostname := Kept(host.hostname, false)), Request), Discovery))
  {
    hide Encoded, Decode, Kept, Framed, Text, Numeral;
    var packet := new Packet(host);
    packet.header.seqn := seqn;
    packet.header.timestamp := timestamp;
    packet.header.direction := Request;
    packet.body.kind := kind;
    var serializer := new PacketSerializer();
    packet.Serialize(serializer);
    var message := serializer.Finish();
    assert message == RequestText(host, seqn, timestamp, kind);
    WireFormat(Contents(Header(seqn, timestamp, host, Request), kind));
    AsCodedRoundTripAlone(Contents(Header(seqn, timestamp, host, Request), kind), BLANK);
    request := new ClientRequest(message);
    request.Send();
  }

  function RequestText(host: NodeAddresses, seqn: Uint64, timestamp: Uint64, kind: Kind): string {
    Encoded(Contents(Header(seqn, timestamp, host, Request), kind))
  }

  /** Attempt `k` is the first that is no miss, is within the bound, and succeeds. */
  predicate SucceedsAt(attempts: seq<Attempt>, bound: nat, k: nat) {
    k < bound && At(attempts, k).Recognised? && forall j :: 0 <= j < k ==> IsMiss(At(attempts, j))
  }

  ghost predicate Succeeds(attempts: seq<Attempt>, bound: nat) {
    exists k :: SucceedsAt(attempts, bound, k)
  }

  /** Attempt `k` is the first that is no miss, is within the bound, and raises. */
  predicate FailsAt(attempts: seq<Attempt>, bound: nat, k: nat) {
    k < bound && At(attempts, k).Raised? && forall j :: 0 <= j < k ==> IsMiss(At(attempts, j))
  }

  ghost predicate Fails(attempts: seq<Attempt>, bound: nat) {
    exists k :: FailsAt(attempts, bound, k)
  }

  lemma {:induction false} VerdictFails(attempts: seq<Attempt>, k: nat, bound: nat)
    requires k <= bound && forall j :: 0 <= j < k ==> IsMiss(At(attempts, j))
    ensures Verdict(attempts, k, bound).Err? <==> Fails(attempts, bound)
    decreases bound - k
  {
    if k < bound {
      if IsMiss(At(attempts, k)) {
        VerdictFails(attempts, k + 1, bound);
      } else if At(attempts, k).Raised? {
        assert FailsAt(attempts, bound, k);
      }
    }
  }

  // ---------- The server's side ----------

  /** A packet object as its constructors leave it. */
  const BLANK_SENDER := NodeAddresses([0, 0, 0, 0, 0, 0], [0, 0, 0, 0], "")
  const BLANK := Contents(Header(0, 0, BLANK_SENDER, Request), Discovery)

  /** The packet object after a datagram was read into it, recognised or not. */
  function HeardIn(datagram: string): Result<Contents, DecodeError> {
    match AttemptOf(Some(datagram), BLANK)
    case Raised(e) => Err(e)
    case Unrecognised(p) => Ok(p)
    case Recognised(p) => Ok(p)
    case Nothing => Ok(BLANK)
  }

  /** `ServerSocket::try_receive` when a datagram is there. What it tests is
      whether one was, not whether the packet was recognised. */
  method ServerTryReceive(datagram: string) returns (r: Result<Contents, DecodeError>)
    ensures r == HeardIn(datagram)
    ensures match Decode(datagram, 0, BLANK).outcome
            case Err(e) => r == Err(e)
            case Ok(_) => r == Ok(Decode(datagram, 0, BLANK).value)
  {
    var packet := new Packet(BLANK_SENDER);
    var read := TryReceive(Some(datagram), packet);
    match read {
      case Raised(e) => r := Err(e);
      case _ => r := Ok(packet.View());
    }
  }

  /** The senders of the packets on the exit port, up to an exception. */
  function ExitsIn(inbox: seq<string>): (seq<MacAddress>, Option<DecodeError>) {
    if inbox == [] then ([], None)
    else
      match HeardIn(inbox[0])
      case Err(e) => ([], Some(e))
      case Ok(p) => ([p.header.sender.mac] + ExitsIn(inbox[1..]).0, ExitsIn(inbox[1..]).1)
  }

  lemma ExitsNext(inbox: seq<string>, k: nat)
    requires k < |inbox|
    ensures ExitsIn(inbox[k..])
            == match HeardIn(inbox[k])
               case Err(e) => ([], Some(e))
               case Ok(p) => ([p.header.sender.mac] + ExitsIn(inbox[k + 1..]).0, ExitsIn(inbox[k + 1..]).1)
  {
    assert inbox[k..][0] == inbox[k] && inbox[k..][1..] == inbox[k + 1..];
  }

  function Wire(packets: seq<Contents>): seq<string> {
    seq(|packets|, k requires 0 <= k < |packets| => Encoded(packets[k]))
  }

  function MacsOf(packets: seq<Contents>): seq<MacAddress> {
    seq(|packets|, k requires 0 <= k < |packets| => packets[k].header.sender.mac)
  }

  /** Exactly what an attempt that finds a packet as a client encodes it comes to. */
  lemma AttemptOfPacket(p: Contents, prior: Contents)
    ensures var a := AttemptOf(Some(Encoded(p)), prior);
            && (a.Recognised? <==> Recognisable(Tail(p)))
            && (a.Raised? <==> !Decodable(Tail(p)))
            && !a.Nothing?
            && (a.Recognised? ==> a.packet.kind == Discovery && IsSender(a.packet.header.sender, p))
            && (a.Unrecognised? ==> IsSender(a.left.header.sender, p))
  {
    hide Encoded, Decode, Tail, Recognisable, Decodable, IsSender;
    OutcomeIff(p, prior);
    DecodedKind(Encoded(p), prior);
    if Decode(Encoded(p), 0, prior).outcome.Ok? {
      SenderIsRead(p, prior);
    }
  }

  /** Its own addresses, and for its hostname the first field from there on. */
  ghost predicate IsSender(a: NodeAddresses, p: Contents) {
    a == p.header.sender.(hostname := a.hostname) && exists rest :: Heads(Tail(p), a.hostname, rest)
  }

  lemma SenderIsRead(p: Contents, prior: Contents)
    requires Decode(Encoded(p), 0, prior).outcome.Ok?
    ensures IsSender(Decode(Encoded(p), 0, prior).value.header.sender, p)
  {
    hide Encoded, Decode, Tail, Recognisable;
    OutcomeIff(p, prior);
    var h, a, d, b :| Heads(Tail(p), h, a) && Heads(a, d, b);
    WhatIsRead(p, prior, h, a);
  }

  lemma DecodedKind(s: string, prior: Contents)
    ensures Decode(s, 0, prior).outcome == Ok(true) ==> Decode(s, 0, prior).value.kind == Discovery
  {
  }

  /** The packet decodes without an exception, but is not taken for a discovery. */
  ghost predicate Missed(p: Contents) {
    Decodable(Tail(p)) && !Recognisable(Tail(p))
  }

  lemma {:induction false} ExitsHeardFrom(packets: seq<Contents>, inbox: seq<string>, k: nat, n: nat)
    requires inbox == Wire(packets) && k <= n <= |packets|
    requires forall j :: k <= j < n ==> Decodable(Tail(packets[j]))
    requires n < |packets| ==> !Decodable(Tail(packets[n]))
    ensures ExitsIn(inbox[k..]).0 == MacsOf(packets)[k..n]
    ensures ExitsIn(inbox[k..]).1 == None <==> n == |packets|
    decreases n - k
  {
    hide AttemptOf, Encoded, Tail, Decodable, Recognisable;
    if k == |packets| {
      assert inbox[k..] == [];
    } else {
      ExitsNext(inbox, k);
      assert inbox[k] == Encoded(packets[k]);
      AttemptOfPacket(packets[k], BLANK);
      if k < n {
        ExitsHeardFrom(packets, inbox, k + 1, n);
        assert MacsOf(packets)[k..n] == [packets[k].header.sender.mac] + MacsOf(packets)[k + 1..n];
      }
    }
  }

  /** Although their type is rejected, exit packets are heard: the senders found
      are those of the packets up to the first that is not decodable, in order,
      and there is an exception exactly if there is such a packet. */
  lemma ExitsAreHeard(packets: seq<Contents>, n: nat)
    requires n <= |packets| && forall j :: 0 <= j < n ==> Decodable(Tail(packets[j]))
    requires n < |packets| ==> !Decodable(Tail(packets[n]))
    ensures ExitsIn(Wire(packets)).0 == MacsOf(packets)[..n]
    ensures ExitsIn(Wire(packets)).1 == None <==> n == |packets|
  {
    hide ExitsIn, Decodable;
    ExitsHeardFrom(packets, Wire(packets), 0, n);
    assert Wire(packets)[0..] == Wire(packets);
  }

  lemma FirstUndecodable(packets: seq<Contents>) returns (n: nat)
    ensures n <= |packets| && forall j :: 0 <= j < n ==> Decodable(Tail(packets[j]))
    ensures n < |packets| ==> !Decodable(Tail(packets[n]))
  {
    hide Decodable, Tail;
    n := 0;
    while n < |packets| && Decodable(Tail(packets[n]))
      invariant n <= |packets| && forall j :: 0 <= j < n ==> Decodable(Tail(packets[j]))
    {
      n := n + 1;
    }
  }

  /** So all of them are heard exactly when each is decodable. */
  lemma ExitsAreHeardIff(packets: seq<Contents>)
    ensures ExitsIn(Wire(packets)) == (MacsOf(packets), None) <==> forall p :: p in packets ==> Decodable(Tail(p))
  {
    hide ExitsIn, Decodable, Tail;
    var n := FirstUndecodable(packets);
    ExitsAreHeard(packets, n);
    assert MacsOf(packets)[..|packets|] == MacsOf(packets);
    if n < |packets| {
      assert packets[n] in packets;
    }
  }

  /** An exit packet whose hostname is two backslashes raises, and so ends the
      reading of the exit port. */
  lemma BackslashEndsTheExits(p: Contents, rest: seq<string>)
    requires p.kind == Exit && p.header.sender.hostname == "\\\\"
    ensures ExitsIn([Encoded(p)] + rest) == ([], Some(MissingFieldEnd))
  {
    hide Encoded, Decode;
    KeepsEscaped(p.header.sender.hostname, "");
    assert KeptOf(p) == "\\";
    SwallowedFields(p, BLANK);
    assert ([Encoded(p)] + rest)[0] == Encoded(p);
  }

  /** A reply of any type is recognised if its hostname forges the fields. */
  lemma ForgedReplyIsRecognised(p: Contents, prior: Contents)
    requires p.header.sender.hostname == "\\x\\;\\0\\;\\0"
    ensures AttemptOf(Some(Encoded(p)), prior).Recognised?
  {
    hide Encoded, Decode;
    ForgedFields(p, prior);
  }

  /** The datagram is silence, or this packet as the code itself encodes it. */
  predicate Carries(datagram: Option<string>, packet: Option<Contents>) {
    match packet
    case None => datagram == None
    case Some(p) => datagram == Some(Encoded(p))
  }

  ghost predicate MissedOrNone(packet: Option<Contents>) {
    packet == None || Missed(packet.value)
  }

  lemma AttemptMissesIff(datagram: Option<string>, packet: Option<Contents>, prior: Contents)
    requires Carries(datagram, packet)
    ensures IsMiss(AttemptOf(datagram, prior)) <==> MissedOrNone(packet)
  {
    hide Encoded, Decode, Tail, Recognisable, Decodable, IsSender;
    if packet.Some? {
      AttemptOfPacket(packet.value, prior);
    }
  }

  lemma AttemptsStep(inbox: seq<Option<string>>, p: Contents, q: Contents, k: nat)
    requires inbox != []
    requires q == match AttemptOf(inbox[0], p) case Unrecognised(q) => q case Recognised(q) => q case _ => p
    ensures At(Attempts(inbox, p), 0) == AttemptOf(inbox[0], p)
    ensures At(Attempts(inbox, p), k + 1) == At(Attempts(inbox[1..], q), k)
  {
  }

  /** Of the attempts that find these packets one after the other, exactly those
      miss that find nothing or a packet that is decodable and not recognisable;
      each sleep status packet whose hostname has its field ends escaped is one. */
  lemma {:induction false} MissedIff(inbox: seq<Option<string>>, packets: seq<Option<Contents>>,
                                     prior: Contents, k: nat)
    requires |packets| == |inbox| && forall j :: 0 <= j < |inbox| ==> Carries(inbox[j], packets[j])
    ensures IsMiss(At(Attempts(inbox, prior), k)) <==> k >= |packets| || MissedOrNone(packets[k])
    decreases |inbox|
  {
    hide Carries, AttemptOf, MissedOrNone;
    if inbox != [] {
      AttemptMissesIff(inbox[0], packets[0], prior);
      var q := match AttemptOf(inbox[0], prior) case Unrecognised(q) => q case Recognised(q) => q case _ => prior;
      AttemptsStep(inbox, prior, q, if k > 0 then k - 1 else 0);
      if k > 0 {
        MissedIff(inbox[1..], packets[1..], q, k - 1);
      }
    }
  }

  lemma SleepStatusIsMissed(p: Contents)
    requires p.kind == SleepStatus
    ensures Guarded(KeptOf(p)) ==> Missed(p)
  {
    hide Guarded, Framed, Tail, Recognisable, Decodable;
    GuardedOutcome(p);
  }

  // ---------- Wake-on-LAN ----------

  /** Six bytes 0xff and sixteen copies of the MAC address. */
  predicate IsMagic(payload: seq<Byte>, mac: MacAddress) {
    && |payload| == 102
    && (forall k :: 0 <= k < 6 ==> payload[k] == 0xff)
    && (forall k :: 6 <= k < 102 ==> payload[k] == mac[(k - 6) % 6])
  }

  method WolPayload(mac: MacAddress) returns (payload: seq<Byte>)
    ensures IsMagic(payload, mac) && WolAccepted(payload)
    ensures forall n :: 0 <= n < 102 ==> !WolAccepted(payload[..n])
  {
    var packet := new Byte[102](_ => 0);
    for i := 0 to 6
      invariant forall k :: 0 <= k < i ==> packet[k] == 0xff
    {
      packet[i] := 0xff;
    }
    for i := 0 to 16
      invariant forall k :: 0 <= k < 6 ==> packet[k] == 0xff
      invariant forall k :: 6 <= k < 6 + i * 6 ==> packet[k] == mac[(k - 6) % 6]
    {
      for j := 0 to 6
        invariant forall k :: 0 <= k < 6 ==> packet[k] == 0xff
        invariant forall k :: 6 <= k < 6 + i * 6 + j ==> packet[k] == mac[(k - 6) % 6]
      {
        assert (6 + i * 6 + j - 6) % 6 == j;
        packet[6 + i * 6 + j] := mac[j];
      }
    }
    payload := packet[..];
  }

  /** The receiver reads at most 102 bytes and insists on all of them. */
  predicate WolAccepted(datagram: seq<Byte>) {
    var read := if |datagram| < 102 then |datagram| else 102;
    read == 102
  }

  /** A payload belongs to one MAC address only. */
  lemma MagicDeterminesMac(payload: seq<Byte>, m: MacAddress, n: MacAddress)
    requires IsMagic(payload, m) && IsMagic(payload, n)
    ensures m == n
  {
    forall j | 0 <= j < 6 ensures m[j] == n[j] {
      assert (j + 6 - 6) % 6 == j;
      assert payload[j + 6] == m[j] && payload[j + 6] == n[j];
    }
  }
}
