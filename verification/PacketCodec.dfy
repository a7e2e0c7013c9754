/**
 Packets and their wire text, as the code writes and reads them
 (`src/packet.cpp`). The functions give the meaning of the methods; what the
 code promises is proved about the functions.
 */
module PacketCodec {
  import opened Wrappers
  import opened Numerals
  import opened Address

  datatype Direction = Request | Response {
    function Code(): nat { if Request? then 0 else 1 }
  }

  datatype Kind = Discovery | Exit | Wol | SleepStatus {
    function Code(): nat {
      match this
      case Discovery => 0
      case Exit => 1
      case Wol => 2
      case SleepStatus => 3
    }
  }

  datatype Header = Header(seqn: Uint64, timestamp: Uint64, sender: NodeAddresses, direction: Direction)

  /** The fields of a packet that travel. */
  datatype Contents = Contents(header: Header, kind: Kind)

  datatype DecodeError = MissingFieldEnd | NotANumber | OutOfRange | BadAddress(reason: AddressError)

  // ---------- Encoding ----------

  /** What `write(string)` keeps of a text: the characters that follow a
      backslash which is not itself kept. */
  function Kept(text: string, escape: bool): string {
    if text == "" then ""
    else if escape then [text[0]] + Kept(text[1..], false)
    else Kept(text[1..], text[0] == '\\')
  }

  /** Every field is followed by the field end. */
  function Fields(texts: seq<string>): string {
    if texts == [] then "" else texts[0] + ";" + Fields(texts[1..])
  }

  function HeaderTexts(h: Header, hostname: string): seq<string> {
    [Numeral(10, h.seqn), Numeral(10, h.timestamp), Text(ColonHex, h.sender.mac),
     Text(DottedDecimal, h.sender.ip), hostname, Numeral(10, h.direction.Code())]
  }

  function Encoded(p: Contents): string {
    Fields(HeaderTexts(p.header, Kept(p.header.sender.hostname, false)) + [Numeral(10, p.kind.Code())])
  }

  lemma {:induction false} FieldsAppend(texts: seq<string>, text: string)
    ensures Fields(texts + [text]) == Fields(texts) + text + ";"
  {
    if texts == [] {
      assert Fields([text]) == text + ";" + Fields([]);
    } else {
      FieldsAppend(texts[1..], text);
      assert (texts + [text])[1..] == texts[1..] + [text];
    }
  }

  class PacketSerializer {
    var serialized: string

    constructor ()
      ensures serialized == ""
    {
      serialized := "";
    }

    method WriteUint(n: Uint64)
      modifies this
      ensures serialized == old(serialized) + Numeral(10, n) + ";"
    {
      serialized := serialized + Numeral(10, n);
      serialized := serialized + ";";
    }

    method WriteText(text: string)
      modifies this
      ensures serialized == old(serialized) + Kept(text, false) + ";"
    {
      var escape := false;
      for k := 0 to |text|
        invariant old(serialized) + Kept(text, false) == serialized + Kept(text[k..], escape)
      {
        var ch := text[k];
        assert text[k..][1..] == text[k + 1..];
        if escape {
          serialized := serialized + [ch];
          escape := false;
        } else if ch == '\\' {
          escape := true;
        }
      }
      serialized := serialized + ";";
    }

    method WriteIp(address: IpAddress)
      modifies this
      ensures serialized == old(serialized) + Text(DottedDecimal, address) + ";"
    {
      var text := Render(DottedDecimal, address);
      serialized := serialized + text + ";";
    }

    method WriteMac(address: MacAddress)
      modifies this
      ensures serialized == old(serialized) + Text(ColonHex, address) + ";"
    {
      var text := Render(ColonHex, address);
      serialized := serialized + text + ";";
    }

    method Finish() returns (text: string)
      ensures text == serialized
    {
      text := serialized;
    }
  }

  // ---------- Decoding ----------

  /** The end of the field at `i`, where `escape` says whether the character
      before `i` was a backslash of this field. */
  function ProbeEnd(s: string, i: nat, escape: bool): (j: Option<nat>)
    requires i <= |s|
    ensures j.Some? ==> i <= j.value < |s| && s[j.value] == ';'
    decreases |s| - i
  {
    if i == |s| then None
    else if s[i] == ';' && !escape then Some(i)
    else ProbeEnd(s, i + 1, s[i] == '\\')
  }

  /** `stoull`: digits must be there and fit 64 bits; what follows them is ignored. */
  function Stoull(text: string): Result<Uint64, DecodeError> {
    var number := ScanNumber(10, text, 0);
    var v := Value(10, text[number.start..number.end]);
    if number.start == number.end then Err(NotANumber)
    else if v >= 0x1_0000_0000_0000_0000 then Err(OutOfRange)
    else Ok(Signed(number.negative, v, 0x1_0000_0000_0000_0000))
  }

  /** It reads a number as it is written. */
  lemma StoullOfNumeral(n: Uint64)
    ensures Stoull(Numeral(10, n)) == Ok(n)
  {
    var t := Numeral(10, n);
    ScanDigits(10, t, 0, |t|);
    assert t[0..|t|] == t;
    ValueOfNumeral(10, n);
  }

  /** It reads a number with white space and a sign before it, and whatever follows. */
  lemma StoullAhead(blanks: string, sign: string, digits: string, rest: string)
    requires Written(10, blanks, sign, "", digits, rest)
    ensures var v := Value(10, digits);
            Stoull(blanks + (sign + (digits + rest)))
            == if digits == "" then Err(NotANumber)
               else if v > 0xffff_ffff_ffff_ffff then Err(OutOfRange)
               else if sign == "-" && v > 0 then Ok(0x1_0000_0000_0000_0000 - v)
               else Ok(v)
  {
    hide Value, ScanNumber, Written, StandsAt;
    var s := blanks + (sign + (digits + rest));
    WholeStands(s, blanks, sign + (digits + rest));
    assert "" + (digits + rest) == digits + rest;
    NumberAhead(10, s, 0, blanks, sign, "", digits, rest);
    DigitsStand(s, |blanks| + |sign|, digits, rest);
  }

  lemma WholeStands(s: string, text: string, rest: string)
    requires s == text + rest
    ensures StandsAt(s, 0, text, rest)
  {
    assert s[0..] == s;
  }

  /** The outcome of reading one field, and where the cursor is left. */
  datatype Read<T> = Read(outcome: Result<T, DecodeError>, cursor: nat)

  function ReadTextAt(s: string, i: nat): (r: Read<string>)
    requires i <= |s|
    ensures r.cursor <= |s|
  {
    match ProbeEnd(s, i, false)
    case None => Read(Err(MissingFieldEnd), i)
    case Some(j) => Read(Ok(s[i..j]), j + 1)
  }

  /** The value passes through a 16-bit variable. */
  function ReadUintAt(s: string, i: nat): (r: Read<Uint64>)
    requires i <= |s|
    ensures r.cursor <= |s|
  {
    match ProbeEnd(s, i, false)
    case None => Read(Err(MissingFieldEnd), i)
    case Some(j) =>
      match Stoull(s[i..j])
      case Err(e) => Read(Err(e), i)
      case Ok(v) => Read(Ok(v % 0x1_0000), j + 1)
  }

  function ReadAddressAt(nt: Notation, s: string, i: nat, n: nat): (r: Read<seq<Byte>>)
    requires i <= |s|
    ensures r.cursor <= |s| && (r.outcome.Ok? ==> |r.outcome.value| == n)
  {
    var text := ReadTextAt(s, i);
    match text.outcome
    case Err(e) => Read(Err(e), text.cursor)
    case Ok(t) =>
      match Parse(nt, t, n)
      case Err(reason) => Read(Err(BadAddress(reason)), text.cursor)
      case Ok(a) => Read(Ok(a), text.cursor)
  }

  class PacketDeserializer {
    const serialized: string
    var i: nat

    ghost predicate Valid()
      reads this
    {
      i <= |serialized|
    }

    constructor (serialized: string)
      ensures Valid() && this.serialized == serialized && i == 0
    {
      this.serialized := serialized;
      i := 0;
    }

    /** None stands for the exception. */
    method ProbeFieldEnd() returns (end: Option<nat>)
      requires Valid()
      ensures end == ProbeEnd(serialized, i, false)
    {
      var j := i;
      var escape := false;
      while j < |serialized| && (serialized[j] != ';' || escape)
        invariant i <= j <= |serialized|
        invariant ProbeEnd(serialized, i, false) == ProbeEnd(serialized, j, escape)
        decreases |serialized| - j
      {
        escape := serialized[j] == '\\';
        j := j + 1;
      }
      end := if j >= |serialized| then None else Some(j);
    }

    method ReadUint() returns (r: Result<Uint64, DecodeError>)
      requires Valid()
      modifies this
      ensures Valid() && Read(r, i) == ReadUintAt(serialized, old(i))
    {
      var end := ProbeFieldEnd();
      if end == None {
        return Err(MissingFieldEnd);
      }
      var j := end.value;
      var number := Stoull(serialized[i..j]);
      if number.Err? {
        return number;
      }
      var uint := number.value % 0x1_0000;
      i := j + 1;
      r := Ok(uint);
    }

    method ReadText() returns (r: Result<string, DecodeError>)
      requires Valid()
      modifies this
      ensures Valid() && Read(r, i) == ReadTextAt(serialized, old(i))
    {
      var end := ProbeFieldEnd();
      if end == None {
        return Err(MissingFieldEnd);
      }
      var j := end.value;
      r := Ok(serialized[i..j]);
      i := j + 1;
    }

    method ReadAddress(nt: Notation, n: nat) returns (r: Result<seq<Byte>, DecodeError>)
      requires Valid()
      modifies this
      ensures Valid() && Read(r, i) == ReadAddressAt(nt, serialized, old(i), n)
      ensures r.Ok? ==> |r.value| == n
    {
      var text := ReadText();
      if text.Err? {
        return Err(text.error);
      }
      var a := ParseText(nt, text.value, n);
      r := match a case Ok(v) => Ok(v) case Err(e) => Err(BadAddress(e));
    }
  }

  /** How a `deserialize` ended: its boolean or an exception, the cursor, and
      the object, which keeps whatever was assigned before an exception. */
  datatype Decoding<T> = Decoding(outcome: Result<bool, DecodeError>, cursor: nat, value: T)

  function DecodeHeader(s: string, i: nat, h: Header): (d: Decoding<Header>)
    requires i <= |s|
    ensures d.cursor <= |s|
  {
    var seqn := ReadUintAt(s, i);
    if seqn.outcome.Err? then Decoding(Err(seqn.outcome.error), seqn.cursor, h) else
    var h := h.(seqn := seqn.outcome.value);
    var timestamp := ReadUintAt(s, seqn.cursor);
    if timestamp.outcome.Err? then Decoding(Err(timestamp.outcome.error), timestamp.cursor, h) else
    DecodeSender(s, timestamp.cursor, h.(timestamp := timestamp.outcome.value))
  }

  function DecodeSender(s: string, i: nat, h: Header): (d: Decoding<Header>)
    requires i <= |s|
    ensures d.cursor <= |s|
  {
    var mac := ReadAddressAt(ColonHex, s, i, 6);
    if mac.outcome.Err? then Decoding(Err(mac.outcome.error), mac.cursor, h) else
    var h := h.(sender := h.sender.(mac := mac.outcome.value));
    var ip := ReadAddressAt(DottedDecimal, s, mac.cursor, 4);
    if ip.outcome.Err? then Decoding(Err(ip.outcome.error), ip.cursor, h) else
    DecodeHostname(s, ip.cursor, h.(sender := h.sender.(ip := ip.outcome.value)))
  }

  function DecodeHostname(s: string, i: nat, h: Header): (d: Decoding<Header>)
    requires i <= |s|
    ensures d.cursor <= |s|
  {
    var hostname := ReadTextAt(s, i);
    if hostname.outcome.Err? then Decoding(Err(hostname.outcome.error), hostname.cursor, h) else
    DecodeDirection(s, hostname.cursor, h.(sender := h.sender.(hostname := hostname.outcome.value)))
  }

  function DecodeDirection(s: string, i: nat, h: Header): (d: Decoding<Header>)
    requires i <= |s|
    ensures d.cursor <= |s|
  {
    var code := ReadUintAt(s, i);
    match code.outcome
    case Err(e) => Decoding(Err(e), code.cursor, h)
    case Ok(v) =>
      if v == 0 then Decoding(Ok(true), code.cursor, h.(direction := Request))
      else if v == 1 then Decoding(Ok(true), code.cursor, h.(direction := Response))
      else Decoding(Ok(false), code.cursor, h)
  }

  /** Only one packet type is accepted. */
  function DecodeKind(s: string, i: nat, kind: Kind): (d: Decoding<Kind>)
    requires i <= |s|
    ensures d.cursor <= |s|
  {
    var code := ReadUintAt(s, i);
    match code.outcome
    case Err(e) => Decoding(Err(e), code.cursor, kind)
    case Ok(v) =>
      if v == 0 then Decoding(Ok(true), code.cursor, Discovery) else Decoding(Ok(false), code.cursor, kind)
  }

  function Decode(s: string, i: nat, p: Contents): Decoding<Contents>
    requires i <= |s|
  {
    var header := DecodeHeader(s, i, p.header);
    if header.outcome != Ok(true) then
      Decoding(header.outcome, header.cursor, p.(header := header.value))
    else
      var kind := DecodeKind(s, header.cursor, p.kind);
      Decoding(kind.outcome, kind.cursor, Contents(header.value, kind.value))
  }

  class PacketHeader {
    var seqn: Uint64
    var timestamp: Uint64
    var sender: NodeAddresses
    var direction: Direction

    function View(): Header
      reads this
    {
      Header(seqn, timestamp, sender, direction)
    }

    constructor (sender: NodeAddresses)
      ensures View() == Header(0, 0, sender, Request)
    {
      seqn, timestamp, this.sender, direction := 0, 0, sender, Request;
    }

    method ParseDirection(uint: Uint64) returns (ok: bool)
      modifies this`direction
      ensures ok <==> uint == 0 || uint == 1
      ensures ok ==> direction.Code() == uint
      ensures !ok ==> direction == old(direction)
    {
      match uint {
        case 0 => direction := Request; ok := true;
        case 1 => direction := Response; ok := true;
        case _ => ok := false;
      }
    }

    method Serialize(serializer: PacketSerializer)
      modifies serializer
      ensures serializer.serialized == old(serializer.serialized)
                                       + Fields(HeaderTexts(View(), Kept(sender.hostname, false)))
    {
      ghost var before := serializer.serialized;
      serializer.WriteUint(seqn);
      serializer.WriteUint(timestamp);
      serializer.WriteMac(sender.mac);
      serializer.WriteIp(sender.ip);
      serializer.WriteText(sender.hostname);
      serializer.WriteUint(direction.Code());
      AppendSix(before, Numeral(10, seqn), Numeral(10, timestamp), Text(ColonHex, sender.mac),
                Text(DottedDecimal, sender.ip), Kept(sender.hostname, false), Numeral(10, direction.Code()));
    }

    method Deserialize(d: PacketDeserializer) returns (r: Result<bool, DecodeError>)
      requires d.Valid()
      modifies this, d
      ensures d.Valid() && Decoding(r, d.i, View()) == DecodeHeader(d.serialized, old(d.i), old(View()))
    {
      var number := d.ReadUint();
      if number.Err? { return Err(number.error); }
      seqn := number.value;
      number := d.ReadUint();
      if number.Err? { return Err(number.error); }
      timestamp := number.value;
      r := DeserializeSender(d);
    }

    /** The rest of `deserialize`, from the MAC address on. */
    method DeserializeSender(d: PacketDeserializer) returns (r: Result<bool, DecodeError>)
      requires d.Valid()
      modifies this, d
      ensures d.Valid() && Decoding(r, d.i, View()) == DecodeSender(d.serialized, old(d.i), old(View()))
    {
      var address := d.ReadAddress(ColonHex, 6);
      if address.Err? { return Err(address.error); }
      sender := sender.(mac := address.value);
      address := d.ReadAddress(DottedDecimal, 4);
      if address.Err? { return Err(address.error); }
      sender := sender.(ip := address.value);
      r := DeserializeHostname(d);
    }

    /** The rest of `deserialize`, from the hostname on. */
    method DeserializeHostname(d: PacketDeserializer) returns (r: Result<bool, DecodeError>)
      requires d.Valid()
      modifies this, d
      ensures d.Valid() && Decoding(r, d.i, View()) == DecodeHostname(d.serialized, old(d.i), old(View()))
    {
      var text := d.ReadText();
      if text.Err? { return Err(text.error); }
      sender := sender.(hostname := text.value);
      var number := d.ReadUint();
      if number.Err? { return Err(number.error); }
      var ok := ParseDirection(number.value);
      r := Ok(ok);
    }
  }

  lemma AppendField(before: string, texts: seq<string>, text: string)
    ensures before + Fields(texts) + text + ";" == before + Fields(texts + [text])
  {
    FieldsAppend(texts, text);
    assert before + Fields(texts) + text + ";" == before + (Fields(texts) + text + ";");
  }

  lemma AppendSix(before: string, a: string, b: string, c: string, d: string, e: string, f: string)
    ensures before + a + ";" + b + ";" + c + ";" + d + ";" + e + ";" + f + ";"
            == before + Fields([a, b, c, d, e, f])
  {
    assert before + Fields([]) == before;
    AppendField(before, [], a);
    assert [] + [a] == [a];
    AppendField(before, [a], b);
    assert [a] + [b] == [a, b];
    AppendField(before, [a, b], c);
    assert [a, b] + [c] == [a, b, c];
    AppendField(before, [a, b, c], d);
    assert [a, b, c] + [d] == [a, b, c, d];
    AppendField(before, [a, b, c, d], e);
    assert [a, b, c, d] + [e] == [a, b, c, d, e];
    AppendField(before, [a, b, c, d, e], f);
    assert [a, b, c, d, e] + [f] == [a, b, c, d, e, f];
  }

  class PacketBody {
    var kind: Kind

    constructor ()
      ensures kind == Discovery
    {
      kind := Discovery;
    }

    method ParseType(uint: Uint64) returns (ok: bool)
      modifies this
      ensures ok <==> uint == 0
      ensures kind == if ok then Discovery else old(kind)
    {
      ok := uint == 0;
      if ok {
        kind := Discovery;
      }
    }

    method Serialize(serializer: PacketSerializer)
      modifies serializer
      ensures serializer.serialized == old(serializer.serialized) + Numeral(10, kind.Code()) + ";"
    {
      serializer.WriteUint(kind.Code());
    }

    method Deserialize(d: PacketDeserializer) returns (r: Result<bool, DecodeError>)
      requires d.Valid()
      modifies this, d
      ensures d.Valid() && Decoding(r, d.i, kind) == DecodeKind(d.serialized, old(d.i), old(kind))
    {
      var number := d.ReadUint();
      if number.Err? { return Err(number.error); }
      var ok := ParseType(number.value);
      r := Ok(ok);
    }
  }

  class Packet {
    const header: PacketHeader
    const body: PacketBody

    function View(): Contents
      reads this, header, body
    {
      Contents(header.View(), body.kind)
    }

    constructor (sender: NodeAddresses)
      ensures fresh(header) && fresh(body)
      ensures View() == Contents(Header(0, 0, sender, Request), Discovery)
    {
      header := new PacketHeader(sender);
      body := new PacketBody();
    }

    method Serialize(serializer: PacketSerializer)
      modifies serializer
      ensures serializer.serialized == old(serializer.serialized) + Encoded(View())
    {
      header.Serialize(serializer);
      body.Serialize(serializer);
      FieldsAppend(HeaderTexts(header.View(), Kept(header.sender.hostname, false)), Numeral(10, body.kind.Code()));
    }

    method Deserialize(d: PacketDeserializer) returns (r: Result<bool, DecodeError>)
      requires d.Valid()
      modifies header, body, d
      ensures d.Valid() && Decoding(r, d.i, View()) == Decode(d.serialized, old(d.i), old(View()))
    {
      r := header.Deserialize(d);
      if r == Ok(true) {
        r := body.Deserialize(d);
      }
    }
  }
}
