/** What the packet codec does as coded, for every packet. */
module PacketProperties {
  import opened Wrappers
  import opened Numerals
  import opened Address
  import opened PacketCodec

  // ---------- Framing ----------

  /** Position `j` holds a field end that is not preceded by a backslash of the
      field starting at `i`. `escape` stands for the character before `i`. */
  predicate Ends(s: string, i: nat, escape: bool, j: nat) {
    i <= j < |s| && s[j] == ';' && if j == i then !escape else s[j - 1] != '\\'
  }

  lemma {:induction false} ProbeEndIsLeastFrom(s: string, i: nat, escape: bool)
    requires i <= |s|
    ensures match ProbeEnd(s, i, escape)
            case Some(j) => Ends(s, i, escape, j) && forall k: nat :: Ends(s, i, escape, k) ==> j <= k
            case None => forall k: nat :: !Ends(s, i, escape, k)
    decreases |s| - i
  {
    if i < |s| && (s[i] != ';' || escape) {
      ProbeEndIsLeastFrom(s, i + 1, s[i] == '\\');
      assert forall k: nat :: Ends(s, i, escape, k) <==> Ends(s, i + 1, s[i] == '\\', k);
    }
  }

  /** `probe_field_end` returns the least position at or after the cursor that
      holds a field end not preceded by a backslash within the field, and fails
      exactly when there is none. */
  lemma ProbeEndIsLeast(s: string, i: nat, j: nat)
    requires i <= |s|
    ensures ProbeEnd(s, i, false) == Some(j)
            <==> Ends(s, i, false, j) && forall k: nat :: Ends(s, i, false, k) ==> j <= k
    ensures ProbeEnd(s, i, false) == None <==> forall k: nat :: !Ends(s, i, false, k)
  {
    ProbeEndIsLeastFrom(s, i, false);
  }

  predicate Plain(text: string) {
    ';' !in text && '\\' !in text
  }

  /** The text of a field, with its end, stands at `i`. */
  predicate FieldAt(s: string, i: nat, text: string) {
    i + |text| < |s| && (forall k :: 0 <= k < |text| ==> s[i + k] == text[k]) && s[i + |text|] == ';'
  }

  lemma FieldIsSlice(s: string, i: nat, text: string)
    requires FieldAt(s, i, text)
    ensures s[i..i + |text|] == text
  {
  }

  /** Every field end in the text follows a backslash of the text. */
  predicate Guarded(text: string) {
    forall k :: 0 <= k < |text| && text[k] == ';' ==> k > 0 && text[k - 1] == '\\'
  }

  /** It is guarded, and does not end in a backslash. */
  predicate Framed(text: string) {
    Guarded(text) && (text == "" || text[|text| - 1] != '\\')
  }

  lemma PlainIsFramed(text: string)
    requires Plain(text)
    ensures Framed(text)
  {
    assert forall k :: 0 <= k < |text| ==> text[k] in text;
  }

  /** The end found for a field is the one written for it exactly when its text
      is framed. */
  lemma FieldEndsIff(s: string, i: nat, text: string)
    requires FieldAt(s, i, text)
    ensures ProbeEnd(s, i, false) == Some(i + |text|) <==> Framed(text)
  {
    var j := i + |text|;
    ProbeEndIsLeast(s, i, j);
    assert text != "" ==> s[i + (|text| - 1)] == text[|text| - 1];
    assert Ends(s, i, false, j) <==> (text == "" || text[|text| - 1] != '\\');
    if Framed(text) {
      forall k: nat | i <= k < j ensures !Ends(s, i, false, k) {
        assert s[i + (k - i)] == text[k - i];
        assert k > i ==> s[i + (k - 1 - i)] == text[k - 1 - i];
      }
    } else if Ends(s, i, false, j) {
      var k :| 0 <= k < |text| && text[k] == ';' && !(k > 0 && text[k - 1] == '\\');
      assert k > 0 ==> s[i + (k - 1)] == text[k - 1];
      assert Ends(s, i, false, i + k);
    }
  }

  /** Where the `k`-th of these fields starts, the first one starting at `i`. */
  function StartOf(i: nat, texts: seq<string>, k: nat): nat
    requires k <= |texts|
  {
    if k == 0 then i else StartOf(i, texts, k - 1) + |texts[k - 1]| + 1
  }

  lemma FieldInFront(s: string, i: nat, text: string, rest: string)
    requires i <= |s| && s[i..] == text + ";" + rest
    ensures FieldAt(s, i, text) && i + |text| + 1 <= |s| && s[i + |text| + 1..] == rest
  {
    assert s[i..][|text|] == ';';
    forall k | 0 <= k < |text| ensures s[i + k] == text[k] {
      assert s[i..][k] == text[k];
    }
    assert s[i + |text| + 1..] == s[i..][|text| + 1..];
  }

  /** The first field ahead, and what is ahead of it. */
  lemma FirstField(s: string, i: nat, texts: seq<string>, tail: string)
    requires i <= |s| && texts != [] && s[i..] == Fields(texts) + tail
    ensures FieldAt(s, i, texts[0]) && i + |texts[0]| + 1 <= |s|
    ensures s[i + |texts[0]| + 1..] == Fields(texts[1..]) + tail
  {
    hide FieldAt;
    assert Fields(texts) + tail == texts[0] + ";" + (Fields(texts[1..]) + tail);
    FieldInFront(s, i, texts[0], Fields(texts[1..]) + tail);
  }

  lemma {:induction false} FieldsFrom(s: string, i: nat, texts: seq<string>, tail: string, k: nat)
    requires i <= |s| && s[i..] == Fields(texts) + tail && k <= |texts|
    ensures StartOf(i, texts, k) <= |s| && s[StartOf(i, texts, k)..] == Fields(texts[k..]) + tail
    ensures k > 0 ==> FieldAt(s, StartOf(i, texts, k - 1), texts[k - 1])
    decreases k
  {
    hide FieldAt, Fields;
    if k == 0 {
      assert texts[0..] == texts;
    } else {
      FieldsFrom(s, i, texts, tail, k - 1);
      FirstField(s, StartOf(i, texts, k - 1), texts[k - 1..], tail);
      assert texts[k - 1..][1..] == texts[k..];
    }
  }

  /** Fields written one behind the other stand one behind the other. */
  lemma FieldsStand(s: string, i: nat, texts: seq<string>, tail: string)
    requires i <= |s| && s[i..] == Fields(texts) + tail
    ensures forall k :: 0 <= k < |texts| ==> FieldAt(s, StartOf(i, texts, k), texts[k])
    ensures |tail| <= |s| && StartOf(i, texts, |texts|) == |s| - |tail|
  {
    forall k | 0 <= k < |texts| ensures FieldAt(s, StartOf(i, texts, k), texts[k]) {
      FieldsFrom(s, i, texts, tail, k + 1);
    }
    FieldsFrom(s, i, texts, tail, |texts|);
    assert texts[|texts|..] == [];
  }

  /** The texts of the seven fields of a packet, whatever stands for its hostname. */
  function PacketTexts(p: Contents, hostname: string): (texts: seq<string>)
    ensures |texts| == 7
  {
    HeaderTexts(p.header, hostname) + [Numeral(10, p.kind.Code())]
  }

  function DirectionText(d: Direction): string {
    match d case Request => "0" case Response => "1"
  }

  function KindText(k: Kind): string {
    match k case Discovery => "0" case Exit => "1" case Wol => "2" case SleepStatus => "3"
  }

  lemma CodesAre(d: Direction, k: Kind)
    ensures Numeral(10, d.Code()) == DirectionText(d) && Numeral(10, k.Code()) == KindText(k)
  {
  }

  lemma SevenFields(a: string, b: string, c: string, d: string, e: string, f: string, g: string)
    ensures Fields([a, b, c, d, e, f, g])
            == a + ";" + b + ";" + c + ";" + d + ";" + e + ";" + f + ";" + g + ";"
  {
    AppendSix("", a, b, c, d, e, f);
    assert "" + a == a && "" + Fields([a, b, c, d, e, f]) == Fields([a, b, c, d, e, f]);
    FieldsAppend([a, b, c, d, e, f], g);
    assert [a, b, c, d, e, f, g] == [a, b, c, d, e, f] + [g];
  }

  /** Seven fields in this order make a packet, whatever stands for the hostname. */
  lemma FieldOrder(p: Contents, hostname: string)
    ensures Fields(PacketTexts(p, hostname))
            == Numeral(10, p.header.seqn) + ";" + Numeral(10, p.header.timestamp) + ";"
               + Text(ColonHex, p.header.sender.mac) + ";" + Text(DottedDecimal, p.header.sender.ip) + ";"
               + hostname + ";" + DirectionText(p.header.direction) + ";" + KindText(p.kind) + ";"
  {
    hide Fields, Numeral, Text;
    CodesAre(p.header.direction, p.kind);
    SevenFields(Numeral(10, p.header.seqn), Numeral(10, p.header.timestamp), Text(ColonHex, p.header.sender.mac),
                Text(DottedDecimal, p.header.sender.ip), hostname, DirectionText(p.header.direction), KindText(p.kind));
    assert PacketTexts(p, hostname)
           == [Numeral(10, p.header.seqn), Numeral(10, p.header.timestamp), Text(ColonHex, p.header.sender.mac),
               Text(DottedDecimal, p.header.sender.ip), hostname, DirectionText(p.header.direction), KindText(p.kind)];
  }

  /** The text of a packet as coded. */
  lemma WireFormat(p: Contents)
    ensures Encoded(p)
            == Numeral(10, p.header.seqn) + ";" + Numeral(10, p.header.timestamp) + ";"
               + Text(ColonHex, p.header.sender.mac) + ";" + Text(DottedDecimal, p.header.sender.ip) + ";"
               + Kept(p.header.sender.hostname, false) + ";"
               + (match p.header.direction case Request => "0" case Response => "1") + ";"
               + (match p.kind case Discovery => "0" case Exit => "1" case Wol => "2" case SleepStatus => "3") + ";"
  {
    hide Fields, Numeral, Text;
    FieldOrder(p, KeptOf(p));
  }

  /** Where they start, in a text in which all seven stand. */
  lemma LayOut(s: string, i: nat, p: Contents, hostname: string, tail: string)
    returns (i1: nat, i2: nat, i3: nat, i4: nat, i5: nat, i6: nat)
    requires i <= |s| && s[i..] == Fields(PacketTexts(p, hostname)) + tail
    ensures FieldAt(s, i, Numeral(10, p.header.seqn)) && i1 == i + |Numeral(10, p.header.seqn)| + 1
    ensures FieldAt(s, i1, Numeral(10, p.header.timestamp)) && i2 == i1 + |Numeral(10, p.header.timestamp)| + 1
    ensures FieldAt(s, i2, Text(ColonHex, p.header.sender.mac)) && i3 == i2 + |Text(ColonHex, p.header.sender.mac)| + 1
    ensures FieldAt(s, i3, Text(DottedDecimal, p.header.sender.ip))
            && i4 == i3 + |Text(DottedDecimal, p.header.sender.ip)| + 1
    ensures FieldAt(s, i4, hostname) && i5 == i4 + |hostname| + 1
    ensures FieldAt(s, i5, Numeral(10, p.header.direction.Code()))
            && i6 == i5 + |Numeral(10, p.header.direction.Code())| + 1
    ensures FieldAt(s, i6, Numeral(10, p.kind.Code()))
    ensures |tail| <= |s| && i6 + |Numeral(10, p.kind.Code())| + 1 == |s| - |tail|
  {
    hide FieldAt, Fields, Text, Numeral;
    var texts := PacketTexts(p, hostname);
    FieldsStand(s, i, texts, tail);
    i1 := StartOf(i, texts, 1);
    i2 := StartOf(i, texts, 2);
    i3 := StartOf(i, texts, 3);
    i4 := StartOf(i, texts, 4);
    i5 := StartOf(i, texts, 5);
    i6 := StartOf(i, texts, 6);
    assert FieldAt(s, StartOf(i, texts, 0), texts[0]);
  }

  // ---------- Fields ----------

  lemma NumeralIsPlain(n: nat)
    ensures Plain(Numeral(10, n))
  {
    var s := Numeral(10, n);
    assert forall k :: 0 <= k < |s| ==> DigitOf(s[k]) < 10;
  }

  lemma ReadUintBack(s: string, i: nat, n: Uint64)
    requires FieldAt(s, i, Numeral(10, n))
    ensures ReadUintAt(s, i) == Read(Ok(n % 0x1_0000), i + |Numeral(10, n)| + 1)
  {
    var t := Numeral(10, n);
    NumeralIsPlain(n);
    PlainIsFramed(t);
    FieldEndsIff(s, i, t);
    FieldIsSlice(s, i, t);
    StoullOfNumeral(n);
  }

  lemma ReadAddressBack(nt: Notation, s: string, i: nat, a: seq<Byte>)
    requires FieldAt(s, i, Text(nt, a))
    ensures ReadAddressAt(nt, s, i, |a|) == Read(Ok(a), i + |Text(nt, a)| + 1)
  {
    hide Parse, Text, ProbeEnd, FieldAt, Framed;
    TextIsPlain(nt, a);
    PlainIsFramed(Text(nt, a));
    FieldEndsIff(s, i, Text(nt, a));
    FieldIsSlice(s, i, Text(nt, a));
    AddressRoundTrip(nt, a);
  }

  // ---------- Packets ----------

  /** What the hostname field of a packet holds, as coded. */
  function KeptOf(p: Contents): string {
    Kept(p.header.sender.hostname, false)
  }

  /** A packet as it comes out: numbers cut to 16 bits, another hostname. */
  function Cut(h: Header, hostname: string): Header {
    Header(h.seqn % 0x1_0000, h.timestamp % 0x1_0000, h.sender.(hostname := hostname), h.direction)
  }

  lemma {:induction false} KeptIsShort(text: string, escape: bool)
    ensures 2 * |Kept(text, escape)| <= |text| + (if escape then 1 else 0)
  {
    if text != "" {
      KeptIsShort(text[1..], if escape then false else text[0] == '\\');
    }
  }

  lemma {:induction false} KeptOfPlain(text: string)
    requires '\\' !in text
    ensures Kept(text, false) == ""
  {
    if text != "" {
      assert text[0] in text;
      forall k | 0 <= k < |text[1..]| ensures text[1..][k] != '\\' {
        assert text[1..][k] == text[k + 1] && text[k + 1] in text;
      }
      KeptOfPlain(text[1..]);
    }
  }

  lemma HeaderStep(s: string, i: nat, i1: nat, i2: nat, a: Uint64, b: Uint64, prior: Header)
    requires i <= |s| && ReadUintAt(s, i) == Read(Ok(a), i1)
    requires i1 <= |s| && ReadUintAt(s, i1) == Read(Ok(b), i2)
    ensures i2 <= |s| && DecodeHeader(s, i, prior) == DecodeSender(s, i2, prior.(seqn := a, timestamp := b))
  {
  }

  lemma SenderStep(s: string, i: nat, i1: nat, i2: nat, mac: seq<Byte>, ip: seq<Byte>, h: Header)
    requires |mac| == 6 && |ip| == 4 && i <= |s| && ReadAddressAt(ColonHex, s, i, 6) == Read(Ok(mac), i1)
    requires i1 <= |s| && ReadAddressAt(DottedDecimal, s, i1, 4) == Read(Ok(ip), i2)
    ensures i2 <= |s|
    ensures DecodeSender(s, i, h) == DecodeHostname(s, i2, h.(sender := h.sender.(mac := mac, ip := ip)))
  {
  }

  lemma DirectionBack(s: string, i: nat, d: Direction, h: Header)
    requires FieldAt(s, i, Numeral(10, d.Code()))
    ensures DecodeDirection(s, i, h)
            == Decoding(Ok(true), i + |Numeral(10, d.Code())| + 1, h.(direction := d))
  {
    ReadUintBack(s, i, d.Code());
  }

  lemma KindBack(s: string, i: nat, k: Kind, prior: Kind)
    requires FieldAt(s, i, Numeral(10, k.Code()))
    ensures DecodeKind(s, i, prior)
            == Decoding(Ok(k == Discovery), i + |Numeral(10, k.Code())| + 1, if k == Discovery then k else prior)
  {
    ReadUintBack(s, i, k.Code());
  }

  /** Everything up to the hostname comes back, whatever the hostname wrote. */
  lemma UpToHostname(s: string, i: nat, p: Contents, hostname: string, tail: string, prior: Header)
    returns (i4: nat, i5: nat, i6: nat, h: Header)
    requires i <= |s| && s[i..] == Fields(PacketTexts(p, hostname)) + tail
    ensures FieldAt(s, i4, hostname) && i5 == i4 + |hostname| + 1
    ensures FieldAt(s, i5, Numeral(10, p.header.direction.Code()))
            && i6 == i5 + |Numeral(10, p.header.direction.Code())| + 1
    ensures FieldAt(s, i6, Numeral(10, p.kind.Code()))
    ensures |tail| <= |s| && i6 + |Numeral(10, p.kind.Code())| + 1 == |s| - |tail|
    ensures DecodeHeader(s, i, prior) == DecodeHostname(s, i4, h)
    ensures h.(sender := h.sender.(hostname := hostname), direction := p.header.direction) == Cut(p.header, hostname)
  {
    hide DecodeHeader, DecodeSender, DecodeHostname, ReadUintAt, ReadAddressAt, FieldAt, Fields, Text, Numeral;
    var i1, i2, i3;
    i1, i2, i3, i4, i5, i6 := LayOut(s, i, p, hostname, tail);
    h := prior.(seqn := p.header.seqn % 0x1_0000, timestamp := p.header.timestamp % 0x1_0000);
    ReadUintBack(s, i, p.header.seqn);
    ReadUintBack(s, i1, p.header.timestamp);
    HeaderStep(s, i, i1, i2, p.header.seqn % 0x1_0000, p.header.timestamp % 0x1_0000, prior);
    ReadAddressBack(ColonHex, s, i2, p.header.sender.mac);
    ReadAddressBack(DottedDecimal, s, i3, p.header.sender.ip);
    SenderStep(s, i2, i3, i4, p.header.sender.mac, p.header.sender.ip, h);
    h := h.(sender := h.sender.(mac := p.header.sender.mac, ip := p.header.sender.ip));
  }

  lemma HostnameStep(s: string, at: nat, h: Header)
    requires at <= |s|
    ensures match ProbeEnd(s, at, false)
            case None => DecodeHostname(s, at, h).outcome == Err(MissingFieldEnd)
            case Some(end) =>
              var h' := h.(sender := h.sender.(hostname := s[at..end]));
              DecodeHostname(s, at, h) == DecodeDirection(s, end + 1, h')
              && DecodeHostname(s, at, h).value.sender.hostname == s[at..end]
  {
  }

  /** The rest of a header whose hostname field is framed. */
  lemma FramedHostnameBack(s: string, at: nat, h: Header, hostname: string, d: Direction)
    requires FieldAt(s, at, hostname) && Framed(hostname)
    requires FieldAt(s, at + |hostname| + 1, Numeral(10, d.Code()))
    ensures DecodeHostname(s, at, h)
            == Decoding(Ok(true), at + |hostname| + 1 + |Numeral(10, d.Code())| + 1,
                        h.(sender := h.sender.(hostname := hostname), direction := d))
  {
    hide DecodeHostname, DecodeDirection, Numeral, Framed;
    FieldEndsIff(s, at, hostname);
    FieldIsSlice(s, at, hostname);
    HostnameStep(s, at, h);
    DirectionBack(s, at + |hostname| + 1, d, h.(sender := h.sender.(hostname := hostname)));
  }

  /** A hostname field that is not framed reads as another text, or not at all. */
  lemma UnframedHostnameLost(s: string, at: nat, h: Header, hostname: string)
    requires FieldAt(s, at, hostname) && !Framed(hostname)
    ensures DecodeHostname(s, at, h).outcome.Ok? ==> DecodeHostname(s, at, h).value.sender.hostname != hostname
  {
    hide DecodeHostname, Framed;
    FieldEndsIff(s, at, hostname);
    HostnameStep(s, at, h);
    var end := ProbeEnd(s, at, false);
    if end.Some? {
      assert |s[at..end.value]| != |hostname|;
    }
  }

  lemma DecodeJoins(s: string, i: nat, header: Decoding<Header>, kind: Decoding<Kind>, prior: Contents)
    requires i <= |s| && DecodeHeader(s, i, prior.header) == header && header.outcome == Ok(true)
    requires DecodeKind(s, header.cursor, prior.kind) == kind
    ensures Decode(s, i, prior) == Decoding(kind.outcome, kind.cursor, Contents(header.value, kind.value))
  {
  }

  /** What decoding the encoding of `p` comes to, with the cursor at `end`. */
  function Remains(p: Contents, prior: Contents, end: nat): Decoding<Contents> {
    Decoding(Ok(p.kind == Discovery), end,
             Contents(Cut(p.header, KeptOf(p)),
                      if p.kind == Discovery then p.kind else prior.kind))
  }

  lemma FramedRoundTrip(s: string, i: nat, p: Contents, tail: string, prior: Contents)
    requires Framed(KeptOf(p))
    requires i <= |s| && s[i..] == Encoded(p) + tail
    ensures |tail| <= |s| && Decode(s, i, prior) == Remains(p, prior, |s| - |tail|)
  {
    hide Decode, DecodeHeader, DecodeHostname, DecodeKind, FieldAt, Fields, Numeral, Kept, Framed;
    var hostname := KeptOf(p);
    var i4, i5, i6, h := UpToHostname(s, i, p, hostname, tail, prior.header);
    FramedHostnameBack(s, i4, h, hostname, p.header.direction);
    KindBack(s, i6, p.kind, prior.kind);
    DecodeJoins(s, i, DecodeHostname(s, i4, h), DecodeKind(s, i6, prior.kind), prior);
  }

  lemma UnframedRoundTrip(s: string, i: nat, p: Contents, tail: string, prior: Contents, end: nat)
    requires !Framed(KeptOf(p))
    requires i <= |s| && s[i..] == Encoded(p) + tail
    ensures Decode(s, i, prior) != Remains(p, prior, end)
  {
    hide Decode, DecodeHeader, DecodeHostname, DecodeKind, FieldAt, Fields, Numeral, Kept, Framed;
    var hostname := KeptOf(p);
    var i4, i5, i6, h := UpToHostname(s, i, p, hostname, tail, prior.header);
    UnframedHostnameLost(s, i4, h, hostname);
    DecodeHeaderFirst(s, i, prior);
  }

  lemma DecodeHeaderFirst(s: string, i: nat, prior: Contents)
    requires i <= |s|
    ensures Decode(s, i, prior).outcome.Ok? ==> DecodeHeader(s, i, prior.header).outcome.Ok?
    ensures Decode(s, i, prior).value.header == DecodeHeader(s, i, prior.header).value
  {
  }

  lemma RoundTripAt(s: string, i: nat, p: Contents, tail: string, prior: Contents)
    requires i <= |s| && s[i..] == Encoded(p) + tail
    ensures |tail| <= |s|
    ensures Decode(s, i, prior) == Remains(p, prior, |s| - |tail|) <==> Framed(KeptOf(p))
  {
    hide Decode, Encoded, Kept, Framed, Remains;
    if Framed(KeptOf(p)) {
      FramedRoundTrip(s, i, p, tail, prior);
    } else {
      assert |s[i..]| == |Encoded(p)| + |tail|;
      UnframedRoundTrip(s, i, p, tail, prior, |s| - |tail|);
    }
  }

  /**
   The exact round trip, as coded, anywhere in a text: decoding keeps the MAC
   address, the IP address and the direction, cuts both numbers to 16 bits,
   replaces the hostname by what was kept of it, returns true exactly when the
   type is `Discovery` (any other leaves the type of `prior` in place) and ends
   behind the packet. It comes to this for exactly the packets whose kept
   hostname is framed.
   */
  lemma AsCodedRoundTrip(before: string, p: Contents, after: string, prior: Contents)
    ensures Decode(before + Encoded(p) + after, |before|, prior) == Remains(p, prior, |before + Encoded(p)|)
            <==> Framed(KeptOf(p))
  {
    var s := before + Encoded(p) + after;
    assert s[|before|..] == Encoded(p) + after;
    RoundTripAt(s, |before|, p, after, prior);
  }

  /** The same for a packet that is alone in its text. */
  lemma AsCodedRoundTripAlone(p: Contents, prior: Contents)
    ensures Decode(Encoded(p), 0, prior) == Remains(p, prior, |Encoded(p)|)
            <==> Framed(KeptOf(p))
  {
    var s := Encoded(p);
    assert s[0..] == s + "";
    RoundTripAt(s, 0, p, "", prior);
  }

  /** In particular every hostname without a backslash is emptied. */
  lemma AsCodedRoundTripOfPlainHostname(p: Contents, prior: Contents)
    requires '\\' !in p.header.sender.hostname
    ensures KeptOf(p) == ""
    ensures Decode(Encoded(p), 0, prior)
            == Decoding(Ok(p.kind == Discovery), |Encoded(p)|,
                        Contents(Cut(p.header, ""), if p.kind == Discovery then p.kind else prior.kind))
  {
    KeptOfPlain(p.header.sender.hostname);
    AsCodedRoundTripAlone(p, prior);
  }

  // ---------- When a packet survives ----------

  /** What the code asks of a packet for it to come back unchanged. */
  predicate Survives(p: Contents) {
    && p.header.seqn < 0x1_0000 && p.header.timestamp < 0x1_0000
    && p.header.sender.hostname == "" && p.kind == Discovery
  }

  /** With one field left, the direction is read from it and the type from nothing. */
  lemma NothingLeftForKind(s: string, i: nat, k: Kind, h: Header, prior: Kind)
    requires FieldAt(s, i, Numeral(10, k.Code())) && i + |Numeral(10, k.Code())| + 1 == |s|
    ensures var d := DecodeDirection(s, i, h);
            d.outcome == Ok(true) ==> DecodeKind(s, d.cursor, prior).outcome == Err(MissingFieldEnd)
  {
    ReadUintBack(s, i, k.Code());
  }

  /** A field that does not stop at the end written for it stops at the next
      one, if the field between is a digit. */
  lemma SwallowedEnd(s: string, at: nat, hostname: string, d: Direction, end: nat)
    requires FieldAt(s, at, hostname) && FieldAt(s, at + |hostname| + 1, Numeral(10, d.Code()))
    requires ProbeEnd(s, at, false) == Some(end) && end > at + |hostname|
    ensures end == at + |hostname| + 1 + |Numeral(10, d.Code())|
  {
    var w, dt := at + |hostname|, Numeral(10, d.Code());
    NumeralIsPlain(d.Code());
    assert |dt| == 1 && s[w + 1 + 0] == dt[0] && dt[0] in dt;
    ProbeEndIsLeast(s, at, end);
    assert Ends(s, at, false, w + 2);
  }

  /** A packet is decoded only if its header and then its type are. */
  lemma DecodeSplits(s: string, prior: Contents)
    requires Decode(s, 0, prior).outcome == Ok(true)
    ensures var header := DecodeHeader(s, 0, prior.header);
            header.outcome == Ok(true) && header.cursor <= |s|
            && DecodeKind(s, header.cursor, prior.kind).outcome == Ok(true)
            && Decode(s, 0, prior).value.header == header.value
  {
  }

  /** The hostname read back is shorter than `original`, or what follows fails. */
  lemma ShortenedOrFatal(s: string, at: nat, h: Header, hostname: string, d: Direction, k: Kind,
                         original: string, prior: Kind)
    requires FieldAt(s, at, hostname) && FieldAt(s, at + |hostname| + 1, Numeral(10, d.Code()))
    requires var i := at + |hostname| + 1 + |Numeral(10, d.Code())| + 1;
             FieldAt(s, i, Numeral(10, k.Code())) && i + |Numeral(10, k.Code())| + 1 == |s|
    requires |hostname| < |original|
    ensures var x := DecodeHostname(s, at, h);
            x.outcome == Ok(true) && x.value.sender.hostname == original ==>
              DecodeKind(s, x.cursor, prior).outcome != Ok(true)
  {
    hide DecodeHostname, DecodeDirection, DecodeKind, Numeral;
    HostnameStep(s, at, h);
    var end := ProbeEnd(s, at, false);
    if end.Some? && end.value > at + |hostname| {
      SwallowedEnd(s, at, hostname, d, end.value);
      NothingLeftForKind(s, end.value + 1, k, h.(sender := h.sender.(hostname := s[at..end.value])), prior);
    }
  }

  /** A hostname that is not empty is lost: it is cut short, or its backslash
      swallows the field end and the packet with it. */
  lemma HostnameIsLost(p: Contents, prior: Contents)
    requires p.header.sender.hostname != ""
    ensures Decode(Encoded(p), 0, prior).outcome == Ok(true) ==> Decode(Encoded(p), 0, prior).value != p
  {
    hide Decode, DecodeHeader, DecodeHostname, DecodeKind, FieldAt, Fields, Numeral, Kept;
    var original := p.header.sender.hostname;
    KeptIsShort(original, false);
    var s := Encoded(p);
    assert s[0..] == s + "";
    var i4, i5, i6, h := UpToHostname(s, 0, p, Kept(original, false), "", prior.header);
    ShortenedOrFatal(s, i4, h, Kept(original, false), p.header.direction, p.kind, original, prior.kind);
    if Decode(s, 0, prior).outcome == Ok(true) {
      DecodeSplits(s, prior);
    }
  }

  lemma CutIsWhole(p: Contents, prior: Contents)
    requires p.header.sender.hostname == ""
    ensures p.kind == Discovery
            && Contents(Cut(p.header, ""), if p.kind == Discovery then p.kind else prior.kind) == p
            <==> Survives(p)
  {
  }

  /** As coded, a packet comes back unchanged exactly when it survives. */
  lemma SurvivesIff(p: Contents, prior: Contents)
    ensures Decode(Encoded(p), 0, prior).outcome == Ok(true) && Decode(Encoded(p), 0, prior).value == p
            <==> Survives(p)
  {
    if p.header.sender.hostname != "" {
      HostnameIsLost(p, prior);
    } else {
      AsCodedRoundTripOfPlainHostname(p, prior);
      CutIsWhole(p, prior);
    }
  }

  // ---------- Hostnames that are not framed ----------

  lemma KeepsEscaped(text: string, rest: string)
    requires |text| >= 2 && text[0] == '\\' && text[2..] == rest
    ensures Kept(text, false) == [text[1]] + Kept(rest, false)
  {
    assert text[1..][0] == text[1] && text[1..][1..] == rest;
  }

  lemma KeepsForgery()
    ensures Kept("\\x\\;\\0\\;\\0", false) == "x;0;0"
  {
    KeepsEscaped("\\0", "");
    KeepsEscaped("\\;\\0", "\\0");
    KeepsEscaped("\\0\\;\\0", "\\;\\0");
    KeepsEscaped("\\;\\0\\;\\0", "\\0\\;\\0");
    KeepsEscaped("\\x\\;\\0\\;\\0", "\\;\\0\\;\\0");
  }

  lemma ThreeFields(s: string, at: nat)
    requires FieldAt(s, at, "x;0;0")
    ensures FieldAt(s, at, "x") && FieldAt(s, at + 2, "0") && FieldAt(s, at + 4, "0")
  {
    var t := "x;0;0";
    assert s[at + 0] == t[0] && s[at + 1] == t[1] && s[at + 2] == t[2] && s[at + 3] == t[3] && s[at + 4] == t[4];
  }

  lemma ForgedTail(s: string, at: nat, h: Header, prior: Kind)
    requires FieldAt(s, at, "x;0;0")
    ensures var d := DecodeHostname(s, at, h);
            && d == Decoding(Ok(true), at + 4, h.(sender := h.sender.(hostname := "x"), direction := Request))
            && DecodeKind(s, at + 4, prior) == Decoding(Ok(true), at + 6, Discovery)
  {
    hide DecodeHostname, DecodeKind, FieldAt;
    assert Numeral(10, 0) == "0";
    ThreeFields(s, at);
    assert Framed("x");
    FramedHostnameBack(s, at, h, "x", Request);
    KindBack(s, at + 4, Discovery, prior);
    assert at + 4 <= |s| by { FieldWithin(s, at + 4, "0"); }
  }

  lemma FieldWithin(s: string, at: nat, text: string)
    requires FieldAt(s, at, text)
    ensures at + |text| < |s|
  {
  }

  /** A hostname that keeps `x;0;0` forges the fields behind it: whatever its
      direction and type, the packet reads as a discovery request from `x`. */
  lemma ForgedFields(p: Contents, prior: Contents)
    requires p.header.sender.hostname == "\\x\\;\\0\\;\\0"
    ensures var d := Decode(Encoded(p), 0, prior);
            d.outcome == Ok(true) && d.value == Contents(Cut(p.header, "x").(direction := Request), Discovery)
  {
    hide Decode, DecodeHeader, DecodeHostname, DecodeKind, Fields, FieldAt, Kept, Numeral;
    KeepsForgery();
    var s := Encoded(p);
    assert s[0..] == s + "";
    var i4, i5, i6, h := UpToHostname(s, 0, p, "x;0;0", "", prior.header);
    ForgedTail(s, i4, h, prior.kind);
    DecodeJoins(s, 0, DecodeHostname(s, i4, h), DecodeKind(s, i4 + 4, prior.kind), prior);
  }

  lemma BackslashSwallows(s: string, at: nat, text: string, digit: string)
    requires FieldAt(s, at, text) && Guarded(text) && text != "" && text[|text| - 1] == '\\'
    requires FieldAt(s, at + |text| + 1, digit) && |digit| == 1 && Plain(digit)
    ensures ProbeEnd(s, at, false) == Some(at + |text| + 2)
  {
    var w := at + |text|;
    assert s[w + 1 + 0] == digit[0] && digit[0] in digit;
    assert s[at + (|text| - 1)] == text[|text| - 1];
    forall k: nat | at <= k < w ensures !Ends(s, at, false, k) {
      assert s[at + (k - at)] == text[k - at];
      assert k > at ==> s[at + (k - 1 - at)] == text[k - 1 - at];
    }
    ProbeEndIsLeast(s, at, w + 2);
  }

  lemma KindForDirection(s: string, at: nat, k: Kind, h: Header, prior: Kind)
    requires FieldAt(s, at, Numeral(10, k.Code())) && at + |Numeral(10, k.Code())| + 1 == |s|
    ensures var d := DecodeDirection(s, at, h);
            d.outcome == Ok(k.Code() <= 1) && d.cursor == |s|
    ensures DecodeKind(s, |s|, prior).outcome == Err(MissingFieldEnd)
  {
    ReadUintBack(s, at, k.Code());
  }

  lemma DecodeOutcome(s: string, prior: Contents)
    ensures var header := DecodeHeader(s, 0, prior.header);
            Decode(s, 0, prior).outcome
            == if header.outcome == Ok(true) then DecodeKind(s, header.cursor, prior.kind).outcome else header.outcome
  {
  }

  /** A hostname whose only fault is the backslash at its end swallows the field
      end behind it, and the type is read as the direction. If it can be one no
      type is left, which raises; otherwise the packet is rejected. */
  lemma SwallowedFields(p: Contents, prior: Contents)
    requires var kept := KeptOf(p); Guarded(kept) && !Framed(kept)
    ensures Decode(Encoded(p), 0, prior).outcome
            == if p.kind.Code() <= 1 then Err(MissingFieldEnd) else Ok(false)
  {
    hide Decode, DecodeHeader, DecodeHostname, DecodeKind, DecodeDirection, Fields, FieldAt, Kept, Numeral, Guarded;
    var kept, d := KeptOf(p), p.header.direction.Code();
    var s := Encoded(p);
    assert s[0..] == s + "";
    var i4, i5, i6, h := UpToHostname(s, 0, p, kept, "", prior.header);
    NumeralIsPlain(d);
    OneDigit(d);
    BackslashSwallows(s, i4, kept, Numeral(10, d));
    HostnameStep(s, i4, h);
    KindForDirection(s, i6, p.kind, h.(sender := h.sender.(hostname := s[i4..i4 + |kept| + 2])), prior.kind);
    DecodeOutcome(s, prior);
  }

  /** Whatever the hostname does, the addresses of the sender come back. */
  lemma AddressesComeBack(p: Contents, prior: Contents)
    ensures var q := Decode(Encoded(p), 0, prior).value;
            q.header.sender.mac == p.header.sender.mac && q.header.sender.ip == p.header.sender.ip
  {
    hide Decode, DecodeHeader, DecodeHostname, Fields, FieldAt, Kept, Numeral;
    var kept := KeptOf(p);
    var s := Encoded(p);
    assert s[0..] == s + "";
    var i4, i5, i6, h := UpToHostname(s, 0, p, kept, "", prior.header);
    assert i4 <= |s| by { FieldWithin(s, i4, kept); }
    HostnameKeepsAddresses(s, i4, h);
    DecodeHeaderFirst(s, 0, prior);
  }

  lemma HostnameKeepsAddresses(s: string, at: nat, h: Header)
    requires at <= |s|
    ensures var q := DecodeHostname(s, at, h).value;
            q.sender.mac == h.sender.mac && q.sender.ip == h.sender.ip
  {
  }

  lemma OneDigit(n: nat)
    requires n < 10
    ensures |Numeral(10, n)| == 1
  {
  }
}
