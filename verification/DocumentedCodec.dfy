/**
 The packet codec that `include/packet.h` documents: texts are escaped when
 written and de-escaped when read, integers keep their 64 bits, and all packet
 types are accepted. Field order, numerals, addresses and the field end are
 those of the code.
 */
module DocumentedCodec {
  import opened Wrappers
  import opened Numerals
  import opened Address
  import opened PacketCodec
  import opened PacketProperties

  /** The two control characters are each prefixed by a backslash. */
  function Escaped(text: string): string {
    if text == "" then ""
    else (if text[0] in {';', '\\'} then ['\\', text[0]] else [text[0]]) + Escaped(text[1..])
  }

  function Unescaped(text: string): string {
    if text == "" then ""
    else if text[0] == '\\' && |text| > 1 then [text[1]] + Unescaped(text[2..])
    else [text[0]] + Unescaped(text[1..])
  }

  /** `probe_field_end` with a flag that toggles: an escaped backslash does not
      escape what follows. */
  function ProbeToggling(s: string, i: nat, escape: bool): (j: Option<nat>)
    requires i <= |s|
    ensures j.Some? ==> i <= j.value < |s|
    decreases |s| - i
  {
    if i == |s| then None
    else if s[i] == ';' && !escape then Some(i)
    else ProbeToggling(s, i + 1, !escape && s[i] == '\\')
  }

  lemma {:induction false} UnescapedEscaped(text: string)
    ensures Unescaped(Escaped(text)) == text
  {
    if text != "" {
      var e := Escaped(text);
      UnescapedEscaped(text[1..]);
      if text[0] in {';', '\\'} {
        assert e[0] == '\\' && e[1] == text[0] && e[2..] == Escaped(text[1..]);
      } else {
        assert e[0] == text[0] && e[1..] == Escaped(text[1..]);
      }
      assert text == [text[0]] + text[1..];
    }
  }

  /** How an escaped text continues behind its first character. */
  lemma EscapedTail(s: string, i: nat, text: string) returns (width: nat)
    requires FieldAt(s, i, Escaped(text)) && text != ""
    ensures FieldAt(s, i + width, Escaped(text[1..]))
    ensures |Escaped(text)| == width + |Escaped(text[1..])|
    ensures if text[0] in {';', '\\'} then width == 2 && s[i] == '\\' && s[i + 1] == text[0]
            else width == 1 && s[i] == text[0]
  {
    var e, rest := Escaped(text), Escaped(text[1..]);
    width := if text[0] in {';', '\\'} then 2 else 1;
    assert s[i + 0] == e[0] && (width == 2 ==> s[i + 1] == e[1]);
    forall k | 0 <= k < |rest| ensures s[i + width + k] == rest[k] {
      assert s[i + (width + k)] == e[width + k] == rest[k];
    }
  }

  /** With a toggling flag the probe always stops at the end written for the field. */
  lemma {:induction false} TogglingProbeStops(s: string, i: nat, text: string)
    requires FieldAt(s, i, Escaped(text))
    ensures ProbeToggling(s, i, false) == Some(i + |Escaped(text)|)
    decreases |text|
  {
    if text != "" {
      var width := EscapedTail(s, i, text);
      TogglingProbeStops(s, i + width, text[1..]);
    }
  }

  lemma {:induction false} CodedProbeStopsFrom(s: string, i: nat, text: string, escape: bool)
    requires FieldAt(s, i, Escaped(text))
    ensures ProbeEnd(s, i, escape) == Some(i + |Escaped(text)|)
            <==> if text == "" then !escape else text[|text| - 1] != '\\'
    decreases |text|
  {
    if text != "" {
      var width := EscapedTail(s, i, text);
      CodedProbeStopsFrom(s, i + width, text[1..], text[0] == '\\');
      if |text| == 1 {
        assert text[1..] == "";
      } else {
        assert text[1..][|text| - 2] == text[|text| - 1];
      }
    }
  }

  /** The probe as coded, given correctly escaped text, stops at the end
      written for the field exactly when the text does not end in a backslash. */
  lemma CodedProbeStopsIff(s: string, i: nat, text: string)
    requires FieldAt(s, i, Escaped(text))
    ensures ProbeEnd(s, i, false) == Some(i + |Escaped(text)|) <==> text == "" || text[|text| - 1] != '\\'
  {
    CodedProbeStopsFrom(s, i, text, false);
  }

  lemma PlainRest(text: string)
    requires Plain(text) && text != ""
    ensures text[0] !in {';', '\\'} && Plain(text[1..])
  {
    assert text[0] in text;
    forall k | 0 <= k < |text[1..]| ensures text[1..][k] != ';' && text[1..][k] != '\\' {
      assert text[1..][k] == text[k + 1] && text[k + 1] in text;
    }
  }

  lemma {:induction false} EscapedPlain(text: string)
    requires Plain(text)
    ensures Escaped(text) == text
  {
    if text != "" {
      PlainRest(text);
      EscapedPlain(text[1..]);
      assert text == [text[0]] + text[1..];
    }
  }

  // ---------- Packets ----------

  datatype Rejection = Malformed(reason: DecodeError) | UnknownCode

  function EncodedPacket(p: Contents): string {
    Fields(PacketTexts(p, Escaped(p.header.sender.hostname)))
  }

  function EncodedPackets(ps: seq<Contents>): string {
    if ps == [] then "" else EncodedPacket(ps[0]) + EncodedPackets(ps[1..])
  }

  function Field(s: string, i: nat): (r: Result<(string, nat), Rejection>)
    requires i <= |s|
    ensures r.Ok? ==> r.value.1 <= |s|
  {
    match ProbeToggling(s, i, false)
    case None => Err(Malformed(MissingFieldEnd))
    case Some(j) => Ok((s[i..j], j + 1))
  }

  function Number(s: string, i: nat): (r: Result<(Uint64, nat), Rejection>)
    requires i <= |s|
    ensures r.Ok? ==> r.value.1 <= |s|
  {
    var (text, next) :- Field(s, i);
    match Stoull(text)
    case Err(e) => Err(Malformed(e))
    case Ok(n) => Ok((n, next))
  }

  function AddressField(nt: Notation, s: string, i: nat, n: nat): (r: Result<(seq<Byte>, nat), Rejection>)
    requires i <= |s|
    ensures r.Ok? ==> |r.value.0| == n && r.value.1 <= |s|
  {
    var (text, next) :- Field(s, i);
    match Parse(nt, text, n)
    case Err(e) => Err(Malformed(BadAddress(e)))
    case Ok(a) => Ok((a, next))
  }

  function Sender(s: string, i: nat): (r: Result<(NodeAddresses, nat), Rejection>)
    requires i <= |s|
    ensures r.Ok? ==> r.value.1 <= |s|
  {
    var (mac, i1) :- AddressField(ColonHex, s, i, 6);
    var (ip, i2) :- AddressField(DottedDecimal, s, i1, 4);
    var (hostname, i3) :- Field(s, i2);
    Ok((NodeAddresses(mac, ip, Unescaped(hostname)), i3))
  }

  function DirectionOf(code: Uint64): Option<Direction> {
    if code == 0 then Some(Request) else if code == 1 then Some(Response) else None
  }

  function KindOf(code: Uint64): Option<Kind> {
    if code == 0 then Some(Discovery) else if code == 1 then Some(Exit)
    else if code == 2 then Some(Wol) else if code == 3 then Some(SleepStatus) else None
  }

  function Codes(s: string, i: nat): (r: Result<(Direction, Kind, nat), Rejection>)
    requires i <= |s|
    ensures r.Ok? ==> r.value.2 <= |s|
  {
    var (direction, i1) :- Number(s, i);
    if DirectionOf(direction) == None then Err(UnknownCode) else
    var (kind, i2) :- Number(s, i1);
    if KindOf(kind) == None then Err(UnknownCode) else
    Ok((DirectionOf(direction).value, KindOf(kind).value, i2))
  }

  function DecodedPacket(s: string, i: nat): (r: Result<(Contents, nat), Rejection>)
    requires i <= |s|
    ensures r.Ok? ==> r.value.1 <= |s|
  {
    var (seqn, i1) :- Number(s, i);
    var (timestamp, i2) :- Number(s, i1);
    var (sender, i3) :- Sender(s, i2);
    var (direction, kind, i4) :- Codes(s, i3);
    Ok((Contents(Header(seqn, timestamp, sender, direction), kind), i4))
  }

  /** `n` packets, one behind the other. */
  function DecodedPackets(s: string, i: nat, n: nat): Result<(seq<Contents>, nat), Rejection>
    requires i <= |s|
    decreases n
  {
    if n == 0 then Ok(([], i))
    else
      var (p, next) :- DecodedPacket(s, i);
      var (ps, end) :- DecodedPackets(s, next, n - 1);
      Ok(([p] + ps, end))
  }

  lemma FieldBack(s: string, i: nat, text: string)
    requires FieldAt(s, i, Escaped(text))
    ensures Field(s, i) == Ok((Escaped(text), i + |Escaped(text)| + 1))
  {
    TogglingProbeStops(s, i, text);
    FieldIsSlice(s, i, Escaped(text));
  }

  lemma NumberBack(s: string, i: nat, n: Uint64)
    requires FieldAt(s, i, Numeral(10, n))
    ensures Number(s, i) == Ok((n, i + |Numeral(10, n)| + 1))
  {
    hide Field, FieldAt, Numeral, Escaped;
    var t := Numeral(10, n);
    NumeralIsPlain(n);
    EscapedPlain(t);
    FieldBack(s, i, t);
    StoullOfNumeral(n);
  }

  lemma AddressFieldBack(nt: Notation, s: string, i: nat, a: seq<Byte>)
    requires FieldAt(s, i, Text(nt, a))
    ensures AddressField(nt, s, i, |a|) == Ok((a, i + |Text(nt, a)| + 1))
  {
    hide Field, FieldAt, Parse, Text, Escaped;
    TextIsPlain(nt, a);
    EscapedPlain(Text(nt, a));
    FieldBack(s, i, Text(nt, a));
    AddressRoundTrip(nt, a);
  }

  lemma SenderJoins(s: string, i: nat, i1: nat, i2: nat, i3: nat, a: NodeAddresses)
    requires i <= |s| && AddressField(ColonHex, s, i, 6) == Ok((a.mac, i1))
    requires i1 <= |s| && AddressField(DottedDecimal, s, i1, 4) == Ok((a.ip, i2))
    requires i2 <= |s| && Field(s, i2) == Ok((Escaped(a.hostname), i3))
    ensures Sender(s, i) == Ok((a, i3))
  {
    UnescapedEscaped(a.hostname);
  }

  lemma SenderBack(s: string, i: nat, i1: nat, i2: nat, a: NodeAddresses)
    requires FieldAt(s, i, Text(ColonHex, a.mac)) && i1 == i + |Text(ColonHex, a.mac)| + 1
    requires FieldAt(s, i1, Text(DottedDecimal, a.ip)) && i2 == i1 + |Text(DottedDecimal, a.ip)| + 1
    requires FieldAt(s, i2, Escaped(a.hostname))
    ensures Sender(s, i) == Ok((a, i2 + |Escaped(a.hostname)| + 1))
  {
    hide AddressField, Field, Sender, FieldAt, Text, Escaped;
    AddressFieldBack(ColonHex, s, i, a.mac);
    AddressFieldBack(DottedDecimal, s, i1, a.ip);
    FieldBack(s, i2, a.hostname);
    SenderJoins(s, i, i1, i2, i2 + |Escaped(a.hostname)| + 1, a);
  }

  lemma CodesJoin(s: string, i: nat, i1: nat, i2: nat, d: Direction, k: Kind)
    requires i <= |s| && Number(s, i) == Ok((d.Code(), i1))
    requires i1 <= |s| && Number(s, i1) == Ok((k.Code(), i2))
    ensures Codes(s, i) == Ok((d, k, i2))
  {
  }

  lemma CodesBack(s: string, i: nat, i1: nat, d: Direction, k: Kind)
    requires FieldAt(s, i, Numeral(10, d.Code())) && i1 == i + |Numeral(10, d.Code())| + 1
    requires FieldAt(s, i1, Numeral(10, k.Code()))
    ensures Codes(s, i) == Ok((d, k, i1 + |Numeral(10, k.Code())| + 1))
  {
    hide Number, Codes, FieldAt, Numeral;
    NumberBack(s, i, d.Code());
    NumberBack(s, i1, k.Code());
    CodesJoin(s, i, i1, i1 + |Numeral(10, k.Code())| + 1, d, k);
  }

  lemma PacketJoins(s: string, i: nat, i1: nat, i2: nat, i5: nat, end: nat, p: Contents)
    requires i <= |s| && Number(s, i) == Ok((p.header.seqn, i1))
    requires i1 <= |s| && Number(s, i1) == Ok((p.header.timestamp, i2))
    requires i2 <= |s| && Sender(s, i2) == Ok((p.header.sender, i5))
    requires i5 <= |s| && Codes(s, i5) == Ok((p.header.direction, p.kind, end))
    ensures DecodedPacket(s, i) == Ok((p, end))
  {
  }

  /** The text of a packet as documented: that of the code, with the hostname escaped. */
  lemma DocumentedFormat(p: Contents)
    ensures EncodedPacket(p)
            == Numeral(10, p.header.seqn) + ";" + Numeral(10, p.header.timestamp) + ";"
               + Text(ColonHex, p.header.sender.mac) + ";" + Text(DottedDecimal, p.header.sender.ip) + ";"
               + Escaped(p.header.sender.hostname) + ";"
               + (match p.header.direction case Request => "0" case Response => "1") + ";"
               + (match p.kind case Discovery => "0" case Exit => "1" case Wol => "2" case SleepStatus => "3") + ";"
  {
    hide Fields, Numeral, Text;
    FieldOrder(p, Escaped(p.header.sender.hostname));
  }

  /** Other codes than those of the two directions and the four types are rejected. */
  lemma OtherCodesRejected(s: string, i: nat, direction: Uint64, kind: Uint64)
    requires FieldAt(s, i, Numeral(10, direction))
    requires FieldAt(s, i + |Numeral(10, direction)| + 1, Numeral(10, kind))
    ensures Codes(s, i) == Err(UnknownCode) <==> direction > 1 || kind > 3
    ensures direction <= 1 && kind <= 3 ==> Codes(s, i).Ok?
  {
    hide Number, FieldAt, Numeral;
    NumberBack(s, i, direction);
    NumberBack(s, i + |Numeral(10, direction)| + 1, kind);
    assert i + |Numeral(10, direction)| + 1 <= |s| by { FieldWithin(s, i, Numeral(10, direction)); }
  }

  /** One packet is read back whole, and the cursor ends behind it. */
  lemma PacketBack(s: string, i: nat, p: Contents, tail: string)
    requires i <= |s| && s[i..] == EncodedPacket(p) + tail
    ensures |tail| <= |s| && DecodedPacket(s, i) == Ok((p, |s| - |tail|))
  {
    hide DecodedPacket, Number, Sender, Codes, FieldAt, Fields, Numeral;
    var i1, i2, i3, i4, i5, i6 := LayOut(s, i, p, Escaped(p.header.sender.hostname), tail);
    NumberBack(s, i, p.header.seqn);
    NumberBack(s, i1, p.header.timestamp);
    SenderBack(s, i2, i3, i4, p.header.sender);
    CodesBack(s, i5, i6, p.header.direction, p.kind);
    PacketJoins(s, i, i1, i2, i5, |s| - |tail|, p);
  }

  lemma TailStands(s: string, i: nat, head: string, tail: string)
    requires i <= |s| && s[i..] == head + tail
    ensures |tail| <= |s| && s[|s| - |tail|..] == tail
  {
    assert s[|s| - |tail|..] == s[i..][|head|..];
  }

  lemma OnePacketMore(s: string, i: nat, p: Contents, next: nat, ps: seq<Contents>, end: nat)
    requires i <= |s| && DecodedPacket(s, i) == Ok((p, next))
    requires next <= |s| && DecodedPackets(s, next, |ps|) == Ok((ps, end))
    ensures DecodedPackets(s, i, |ps| + 1) == Ok(([p] + ps, end))
  {
    hide DecodedPacket;
  }

  lemma {:induction false} PacketsAhead(s: string, i: nat, ps: seq<Contents>)
    requires i <= |s| && s[i..] == EncodedPackets(ps)
    ensures DecodedPackets(s, i, |ps|) == Ok((ps, |s|))
    decreases |ps|
  {
    hide DecodedPacket, EncodedPacket;
    if ps == [] {
      assert |s[i..]| == 0;
    } else {
      var rest := ps[1..];
      PacketBack(s, i, ps[0], EncodedPackets(rest));
      TailStands(s, i, EncodedPacket(ps[0]), EncodedPackets(rest));
      var next := |s| - |EncodedPackets(rest)|;
      PacketsAhead(s, next, rest);
      OnePacketMore(s, i, ps[0], next, rest, |s|);
      assert ps == [ps[0]] + rest;
    }
  }

  /**
   For every list of packets, with any hostname, any 64-bit numbers and any of
   the four types: written one behind the other into one text and read from it
   one behind the other, they come back in order with every field that travels,
   and the cursor ends exactly at the end of the text.
   */
  lemma PacketsRoundTrip(ps: seq<Contents>)
    ensures DecodedPackets(EncodedPackets(ps), 0, |ps|) == Ok((ps, |EncodedPackets(ps)|))
  {
    var s := EncodedPackets(ps);
    assert s[0..] == s;
    PacketsAhead(s, 0, ps);
  }
}
