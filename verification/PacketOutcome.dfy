/**
 What becomes of a packet on the way through the printer and the parser as
 coded, whatever its hostname: exactly which packets are recognised, which are
 rejected, and which raise an exception.
 */
module PacketOutcome {
  import opened Wrappers
  import opened Numerals
  import opened Address
  import opened PacketCodec
  import opened PacketProperties

  // ---------- The condition ----------

  /** What the serializer writes from the hostname on. */
  function Tail(p: Contents): string {
    Fields([KeptOf(p), Numeral(10, p.header.direction.Code()), Numeral(10, p.kind.Code())])
  }

  /** The text starts with the field `x`, and `rest` is what follows its end. */
  predicate Heads(t: string, x: string, rest: string) {
    Framed(x) && t == x + ";" + rest
  }

  /** The number a field stands for, through a 16-bit variable. */
  function CodeOf(x: string): Option<nat> {
    match Stoull(x)
    case Ok(v) => Some(v % 0x1_0000)
    case Err(_) => None
  }

  /** Three fields, of which the second is a direction and the third is the code
      of a discovery. */
  ghost predicate Recognisable(t: string) {
    exists h, a, d, b, k, c ::
      && Heads(t, h, a) && Heads(a, d, b) && Heads(b, k, c)
      && CodeOf(d).Some? && CodeOf(d).value <= 1 && CodeOf(k) == Some(0)
  }

  /** Two fields, of which the second is a number; if it is a direction, a third
      one that is a number. */
  ghost predicate Decodable(t: string) {
    exists h, a, d, b :: Heads(t, h, a) && Heads(a, d, b) && CodeOf(d).Some? && (CodeOf(d).value <= 1 ==> Numbered(b))
  }

  ghost predicate Numbered(t: string) {
    exists k, c :: Heads(t, k, c) && CodeOf(k).Some?
  }

  // ---------- Fields that are found ----------

  /** A field is found where the text starts with it, and only there. */
  lemma HeadsIff(s: string, i: nat, x: string, rest: string)
    requires i <= |s|
    ensures Heads(s[i..], x, rest)
            <==> ProbeEnd(s, i, false) == Some(i + |x|) && s[i..i + |x|] == x && s[i + |x| + 1..] == rest
  {
    if s[i..] == x + ";" + rest {
      FieldInFront(s, i, x, rest);
      FieldEndsIff(s, i, x);
      FieldIsSlice(s, i, x);
    } else if ProbeEnd(s, i, false) == Some(i + |x|) && s[i..i + |x|] == x {
      assert s[i..] == x + ";" + s[i + |x| + 1..];
    }
  }

  /** The field found at `i`, if there is one. */
  lemma HeadFound(s: string, i: nat) returns (x: string, rest: string)
    requires i <= |s| && ProbeEnd(s, i, false).Some?
    ensures Heads(s[i..], x, rest)
  {
    var j := ProbeEnd(s, i, false).value;
    x, rest := s[i..j], s[j + 1..];
    HeadsIff(s, i, x, rest);
  }

  lemma ReadUintOf(s: string, i: nat, x: string, rest: string)
    requires i <= |s| && Heads(s[i..], x, rest)
    ensures i + |x| + 1 <= |s| && s[i + |x| + 1..] == rest
    ensures match CodeOf(x)
            case None => ReadUintAt(s, i).outcome.Err?
            case Some(c) => ReadUintAt(s, i) == Read(Ok(c), i + |x| + 1)
  {
    hide Stoull, Framed;
    HeadsIff(s, i, x, rest);
  }

  // ---------- The steps of the decoding ----------

  lemma KindOutcome(s: string, i: nat, prior: Kind)
    requires i <= |s|
    ensures DecodeKind(s, i, prior).outcome.Ok? <==> Numbered(s[i..])
    ensures DecodeKind(s, i, prior).outcome == Ok(true)
            <==> exists k, c :: Heads(s[i..], k, c) && CodeOf(k) == Some(0)
    ensures DecodeKind(s, i, prior).outcome == Ok(true) ==> DecodeKind(s, i, prior).value == Discovery
  {
    hide CodeOf, Heads;
    if ProbeEnd(s, i, false).Some? {
      var x, rest := HeadFound(s, i);
      ReadUintOf(s, i, x, rest);
      forall k, c | Heads(s[i..], k, c) ensures k == x {
        HeadsAreOne(s[i..], k, c, x, rest);
      }
    } else {
      forall k, c ensures !Heads(s[i..], k, c) {
        HeadsIff(s, i, k, c);
      }
    }
  }

  lemma HeadsAreOne(t: string, x: string, rest: string, y: string, after: string)
    requires Heads(t, x, rest) && Heads(t, y, after)
    ensures x == y && rest == after
  {
    assert t[0..] == t;
    HeadsIff(t, 0, x, rest);
    HeadsIff(t, 0, y, after);
  }

  lemma DirectionOutcome(s: string, i: nat, h: Header, d: string, b: string)
    requires i <= |s| && Heads(s[i..], d, b)
    ensures i + |d| + 1 <= |s| && s[i + |d| + 1..] == b
    ensures match CodeOf(d)
            case None => DecodeDirection(s, i, h).outcome.Err?
            case Some(c) =>
              DecodeDirection(s, i, h)
              == Decoding(Ok(c <= 1), i + |d| + 1,
                          h.(direction := if c == 0 then Request else if c == 1 then Response else h.direction))
  {
    hide CodeOf, Heads;
    ReadUintOf(s, i, d, b);
  }

  lemma NoField(s: string, i: nat, h: Header)
    requires i <= |s| && ProbeEnd(s, i, false) == None
    ensures DecodeDirection(s, i, h).outcome.Err? && DecodeHostname(s, i, h).outcome.Err?
    ensures forall x, rest :: !Heads(s[i..], x, rest)
  {
    forall x, rest ensures !Heads(s[i..], x, rest) {
      HeadsIff(s, i, x, rest);
    }
  }

  lemma HostnameOf(s: string, i: nat, h: Header, x: string, a: string)
    requires i <= |s| && Heads(s[i..], x, a)
    ensures i + |x| + 1 <= |s| && s[i + |x| + 1..] == a
    ensures DecodeHostname(s, i, h) == DecodeDirection(s, i + |x| + 1, h.(sender := h.sender.(hostname := x)))
  {
    hide DecodeDirection, Framed;
    HeadsIff(s, i, x, a);
  }

  // ---------- From the hostname on ----------

  lemma WithTwoFields(t: string, h: string, a: string, d: string, b: string)
    requires Heads(t, h, a) && Heads(a, d, b)
    ensures Recognisable(t)
            <==> CodeOf(d).Some? && CodeOf(d).value <= 1 && exists k, c :: Heads(b, k, c) && CodeOf(k) == Some(0)
    ensures Decodable(t) <==> CodeOf(d).Some? && (CodeOf(d).value <= 1 ==> Numbered(b))
  {
    hide Heads, CodeOf, Numbered;
    forall h', a' | Heads(t, h', a') ensures h' == h && a' == a {
      HeadsAreOne(t, h, a, h', a');
    }
    forall d', b' | Heads(a, d', b') ensures d' == d && b' == b {
      HeadsAreOne(a, d, b, d', b');
    }
  }

  lemma WithOneField(t: string, h: string, a: string)
    requires Heads(t, h, a) && forall x, rest :: !Heads(a, x, rest)
    ensures !Recognisable(t) && !Decodable(t)
  {
    hide Heads, CodeOf, Numbered;
    forall h', a' | Heads(t, h', a') ensures h' == h && a' == a {
      HeadsAreOne(t, h, a, h', a');
    }
  }

  /** How the decoding ends, from the hostname on. */
  function RestOutcome(s: string, i: nat, h: Header, prior: Kind): Result<bool, DecodeError>
    requires i <= |s|
  {
    var header := DecodeHostname(s, i, h);
    if header.outcome == Ok(true) then DecodeKind(s, header.cursor, prior).outcome else header.outcome
  }

  lemma RestOutcomeIff(s: string, i: nat, h: Header, prior: Kind)
    requires i <= |s|
    ensures RestOutcome(s, i, h, prior) == Ok(true) <==> Recognisable(s[i..])
    ensures RestOutcome(s, i, h, prior).Ok? <==> Decodable(s[i..])
  {
    hide Heads, CodeOf, Numbered, DecodeHostname, DecodeDirection, DecodeKind, Recognisable, Decodable;
    if ProbeEnd(s, i, false) == None {
      NoField(s, i, h);
      WithoutFields(s[i..]);
    } else {
      var x, a := HeadFound(s, i);
      HostnameOf(s, i, h, x, a);
      var i1, h1 := i + |x| + 1, h.(sender := h.sender.(hostname := x));
      if ProbeEnd(s, i1, false) == None {
        NoField(s, i1, h1);
        WithOneField(s[i..], x, a);
      } else {
        var d, b := HeadFound(s, i1);
        DirectionOutcome(s, i1, h1, d, b);
        WithTwoFields(s[i..], x, a, d, b);
        KindOutcome(s, i1 + |d| + 1, prior);
      }
    }
  }

  lemma WithoutFields(t: string)
    requires forall x, rest :: !Heads(t, x, rest)
    ensures !Recognisable(t) && !Decodable(t)
  {
  }

  // ---------- Whole packets ----------

  lemma FieldSplits(s: string, i: nat, x: string)
    requires FieldAt(s, i, x)
    ensures s[i..] == x + ";" + s[i + |x| + 1..]
  {
    FieldIsSlice(s, i, x);
  }

  lemma TailStands(s: string, at: nat, p: Contents)
    requires var d, k := Numeral(10, p.header.direction.Code()), Numeral(10, p.kind.Code());
             var i5 := at + |KeptOf(p)| + 1;
             var i6 := i5 + |d| + 1;
             FieldAt(s, at, KeptOf(p)) && FieldAt(s, i5, d) && FieldAt(s, i6, k) && i6 + |k| + 1 == |s|
    ensures s[at..] == Tail(p)
  {
    hide FieldAt, KeptOf, Numeral;
    var h, d, k := KeptOf(p), Numeral(10, p.header.direction.Code()), Numeral(10, p.kind.Code());
    var i5 := at + |h| + 1;
    FieldSplits(s, at, h);
    FieldSplits(s, i5, d);
    FieldSplits(s, i5 + |d| + 1, k);
    ThreeFieldsTogether(h, d, k);
    assert s[|s|..] == "";
  }

  lemma ThreeFieldsTogether(h: string, d: string, k: string)
    ensures Fields([h, d, k]) == h + ";" + (d + ";" + (k + ";" + ""))
  {
    assert [h, d, k][1..] == [d, k] && [d, k][1..] == [k] && [k][1..] == [];
    assert Fields([k]) == k + ";" + "";
    assert Fields([d, k]) == d + ";" + Fields([k]);
  }

  /** Where the hostname field stands, and what has been read up to there. */
  lemma AtHostname(p: Contents, prior: Header) returns (at: nat, h: Header)
    ensures at <= |Encoded(p)| && Encoded(p)[at..] == Tail(p)
    ensures DecodeHeader(Encoded(p), 0, prior) == DecodeHostname(Encoded(p), at, h)
    ensures forall x: string, d: Direction {:trigger Cut(p.header, x).(direction := d)} ::
              h.(sender := h.sender.(hostname := x), direction := d) == Cut(p.header, x).(direction := d)
  {
    hide DecodeHeader, DecodeHostname, FieldAt, Fields, Numeral, Kept;
    var s := Encoded(p);
    assert s[0..] == s + "";
    var i5, i6;
    at, i5, i6, h := UpToHostname(s, 0, p, KeptOf(p), "", prior);
    FieldWithin(s, at, KeptOf(p));
    TailStands(s, at, p);
  }

  /**
   Exactly which packets come through the printer and the parser, whatever their
   hostname: a packet is recognised if and only if what it writes from the
   hostname on is recognisable, and decoded without an exception if and only if
   that is decodable.
   */
  lemma OutcomeIff(p: Contents, prior: Contents)
    ensures Decode(Encoded(p), 0, prior).outcome == Ok(true) <==> Recognisable(Tail(p))
    ensures Decode(Encoded(p), 0, prior).outcome.Ok? <==> Decodable(Tail(p))
  {
    hide Decode, DecodeHeader, DecodeHostname, DecodeKind, Encoded, Tail, Recognisable, Decodable;
    var at, h := AtHostname(p, prior.header);
    DecodeOutcome(Encoded(p), prior);
    RestOutcomeIff(Encoded(p), at, h, prior.kind);
  }

  function DirectionOf(code: nat): Direction
    requires code <= 1
  {
    if code == 0 then Request else Response
  }

  /** The hostname read is the first field of that text, and the direction its
      second; the rest of the header is as written, its numbers cut. */
  lemma WhatIsRead(p: Contents, prior: Contents, h: string, a: string)
    requires Heads(Tail(p), h, a)
    ensures Decode(Encoded(p), 0, prior).value.header.sender == p.header.sender.(hostname := h)
    ensures forall d, b :: Heads(a, d, b) && CodeOf(d).Some? && CodeOf(d).value <= 1 ==>
              Decode(Encoded(p), 0, prior).value.header
              == Cut(p.header, h).(direction := DirectionOf(CodeOf(d).value))
  {
    hide Decode, DecodeHeader, DecodeHostname, DecodeDirection, Encoded, Tail, Heads, CodeOf, Cut;
    var s := Encoded(p);
    var at, header := AtHostname(p, prior.header);
    DecodeHeaderFirst(s, 0, prior);
    HostnameOf(s, at, header, h, a);
    var i, header1 := at + |h| + 1, header.(sender := header.sender.(hostname := h));
    SenderAsWritten(p.header, header, h);
    DirectionKeepsSender(s, i, header1);
    forall d, b | Heads(a, d, b) && CodeOf(d).Some? && CodeOf(d).value <= 1
      ensures DecodeDirection(s, i, header1).value == Cut(p.header, h).(direction := DirectionOf(CodeOf(d).value))
    {
      DirectionOutcome(s, i, header1, d, b);
      assert header1.(direction := DirectionOf(CodeOf(d).value))
             == Cut(p.header, h).(direction := DirectionOf(CodeOf(d).value));
    }
  }

  lemma DirectionKeepsSender(s: string, i: nat, h: Header)
    requires i <= |s|
    ensures DecodeDirection(s, i, h).value.sender == h.sender
  {
  }

  lemma SenderAsWritten(written: Header, read: Header, hostname: string)
    requires read.(sender := read.sender.(hostname := hostname), direction := Request)
             == Cut(written, hostname).(direction := Request)
    ensures read.sender.(hostname := hostname) == written.sender.(hostname := hostname)
  {
  }

  /** Where every field end in the hostname is escaped, a packet is recognised if
      and only if it is a framed discovery, and raises if and only if its
      hostname ends in a backslash and the type is the code of a direction. */
  lemma GuardedOutcome(p: Contents)
    ensures Guarded(KeptOf(p)) ==> (Recognisable(Tail(p)) <==> Framed(KeptOf(p)) && p.kind == Discovery)
    ensures Guarded(KeptOf(p)) ==> (Decodable(Tail(p)) <==> Framed(KeptOf(p)) || p.kind.Code() > 1)
  {
    hide Decode, Encoded, Tail, Recognisable, Decodable, Framed, Guarded;
    if Guarded(KeptOf(p)) {
      OutcomeIff(p, Contents(p.header, p.kind));
      AsCodedRoundTripAlone(p, Contents(p.header, p.kind));
      if !Framed(KeptOf(p)) {
        SwallowedFields(p, Contents(p.header, p.kind));
      }
    }
  }

  /** A hostname that keeps only a field end leaves an empty field for the
      direction, which is not a number: any such packet raises. */
  lemma EmptyField(p: Contents, prior: Contents)
    requires p.header.sender.hostname == "\\;"
    ensures Decode(Encoded(p), 0, prior).outcome == Err(NotANumber)
  {
    hide Decode, DecodeHeader, DecodeHostname, DecodeDirection, Encoded, Tail, Numeral;
    KeepsEscaped(p.header.sender.hostname, "");
    assert KeptOf(p) == ";";
    var s := Encoded(p);
    var at, h := AtHostname(p, prior.header);
    DecodeOutcome(s, prior);
    var a := EmptyTail(p);
    HostnameOf(s, at, h, "", ";" + a);
    NotADirection(s, at + 1, h.(sender := h.sender.(hostname := "")), a);
  }

  lemma EmptyTail(p: Contents) returns (a: string)
    requires KeptOf(p) == ";"
    ensures Heads(Tail(p), "", ";" + a)
  {
    var d, k := Numeral(10, p.header.direction.Code()), Numeral(10, p.kind.Code());
    ThreeFieldsTogether(";", d, k);
    a := d + ";" + (k + ";" + "");
    assert Tail(p) == "" + ";" + (";" + a);
  }

  lemma NotADirection(s: string, i: nat, h: Header, a: string)
    requires i <= |s| && s[i..] == ";" + a
    ensures DecodeDirection(s, i, h).outcome == Err(NotANumber)
  {
    assert s[i] == s[i..][0];
    assert s[i..i] == "";
  }

  // ---------- Fields that are not there, or are not what they should be ----------

  lemma TextReads(s: string, i: nat, x: string, rest: string)
    requires i <= |s|
    ensures Heads(s[i..], x, rest) ==> ReadTextAt(s, i) == Read(Ok(x), i + |x| + 1)
    ensures (forall y, after :: !Heads(s[i..], y, after)) ==> ReadTextAt(s, i) == Read(Err(MissingFieldEnd), i)
  {
    hide Framed;
    HeadsIff(s, i, x, rest);
    if ProbeEnd(s, i, false).Some? {
      var y, after := HeadFound(s, i);
    }
  }

  /** A number is taken modulo 65536 and the cursor moves behind the field; if
      there is no number the cursor stays where it was. */
  lemma UintReads(s: string, i: nat, x: string, rest: string)
    requires i <= |s|
    ensures Heads(s[i..], x, rest) ==>
              ReadUintAt(s, i)
              == match Stoull(x)
                 case Ok(v) => Read(Ok(v % 65536), i + |x| + 1)
                 case Err(e) => Read(Err(e), i)
    ensures (forall y, after :: !Heads(s[i..], y, after)) ==> ReadUintAt(s, i) == Read(Err(MissingFieldEnd), i)
  {
    hide Framed, Stoull;
    HeadsIff(s, i, x, rest);
    if ProbeEnd(s, i, false).Some? {
      var y, after := HeadFound(s, i);
    }
  }

  /** The cursor moves behind the field even if it is no address. */
  lemma AddressReads(nt: Notation, s: string, i: nat, n: nat, x: string, rest: string)
    requires i <= |s|
    ensures Heads(s[i..], x, rest) ==>
              ReadAddressAt(nt, s, i, n)
              == match Parse(nt, x, n)
                 case Ok(a) => Read(Ok(a), i + |x| + 1)
                 case Err(e) => Read(Err(BadAddress(e)), i + |x| + 1)
    ensures (forall y, after :: !Heads(s[i..], y, after)) ==>
              ReadAddressAt(nt, s, i, n) == Read(Err(MissingFieldEnd), i)
  {
    hide Parse, ReadTextAt;
    TextReads(s, i, x, rest);
  }

  // ---------- Packets that are cut off ----------

  /** The first `k` fields of `p`, the others as they were. */
  function Overwritten(p: Contents, prior: Contents, k: nat): Contents {
    var h, o := p.header, prior.header;
    Contents(Header(if k > 0 then h.seqn % 65536 else o.seqn,
                    if k > 1 then h.timestamp % 65536 else o.timestamp,
                    NodeAddresses(if k > 2 then h.sender.mac else o.sender.mac,
                                  if k > 3 then h.sender.ip else o.sender.ip,
                                  if k > 4 then KeptOf(p) else o.sender.hostname),
                    if k > 5 then h.direction else o.direction),
             prior.kind)
  }

  lemma NothingAhead(s: string, nt: Notation, n: nat, h: Header, prior: Kind)
    ensures ReadUintAt(s, |s|) == Read(Err(MissingFieldEnd), |s|)
    ensures ReadAddressAt(nt, s, |s|, n) == Read(Err(MissingFieldEnd), |s|)
    ensures DecodeHostname(s, |s|, h) == Decoding(Err(MissingFieldEnd), |s|, h)
    ensures DecodeDirection(s, |s|, h) == Decoding(Err(MissingFieldEnd), |s|, h)
    ensures DecodeKind(s, |s|, prior) == Decoding(Err(MissingFieldEnd), |s|, prior)
  {
  }

  /** The header stops where the text does. */
  lemma HeaderStops(s: string, prior: Contents, h: Header)
    requires DecodeHeader(s, 0, prior.header) == Decoding(Err(MissingFieldEnd), |s|, h)
    ensures Decode(s, 0, prior) == Decoding(Err(MissingFieldEnd), |s|, prior.(header := h))
  {
  }

  lemma NumberMissing(s: string, i: nat, h: Header)
    requires i <= |s| && (i == |s| || (ReadUintAt(s, i).outcome.Ok? && ReadUintAt(s, i).cursor == |s|))
    ensures DecodeHeader(s, i, h)
            == Decoding(Err(MissingFieldEnd), |s|,
                        if i == |s| then h else h.(seqn := ReadUintAt(s, i).outcome.value))
  {
    NothingAhead(s, ColonHex, 6, h, Discovery);
  }

  lemma AddressMissing(s: string, i: nat, h: Header)
    requires i <= |s|
    requires var mac := ReadAddressAt(ColonHex, s, i, 6); i == |s| || (mac.outcome.Ok? && mac.cursor == |s|)
    ensures DecodeSender(s, i, h)
            == Decoding(Err(MissingFieldEnd), |s|,
                        if i == |s| then h
                        else h.(sender := h.sender.(mac := ReadAddressAt(ColonHex, s, i, 6).outcome.value)))
  {
    NothingAhead(s, ColonHex, 6, h, Discovery);
    NothingAhead(s, DottedDecimal, 4, h, Discovery);
  }

  /** The numbers are there, if `k > 1`. */
  lemma CutAfterNumbers(s: string, i1: nat, i2: nat, p: Contents, prior: Header)
    requires FieldAt(s, 0, Numeral(10, p.header.seqn)) && i1 == |Numeral(10, p.header.seqn)| + 1
    requires FieldAt(s, i1, Numeral(10, p.header.timestamp)) && i2 == i1 + |Numeral(10, p.header.timestamp)| + 1
    ensures i2 <= |s|
    ensures DecodeHeader(s, 0, prior)
            == DecodeSender(s, i2, prior.(seqn := p.header.seqn % 65536, timestamp := p.header.timestamp % 65536))
  {
    hide DecodeHeader, DecodeSender, ReadUintAt, FieldAt, Numeral;
    FieldWithin(s, 0, Numeral(10, p.header.seqn));
    FieldWithin(s, i1, Numeral(10, p.header.timestamp));
    ReadUintBack(s, 0, p.header.seqn);
    ReadUintBack(s, i1, p.header.timestamp);
    HeaderStep(s, 0, i1, i2, p.header.seqn % 65536, p.header.timestamp % 65536, prior);
  }

  /** The addresses are there too, if `k > 3`. */
  lemma CutAfterAddresses(s: string, i2: nat, i3: nat, i4: nat, a: NodeAddresses, h: Header)
    requires FieldAt(s, i2, Text(ColonHex, a.mac)) && i3 == i2 + |Text(ColonHex, a.mac)| + 1
    requires FieldAt(s, i3, Text(DottedDecimal, a.ip)) && i4 == i3 + |Text(DottedDecimal, a.ip)| + 1
    ensures i2 <= |s| && i4 <= |s|
    ensures DecodeSender(s, i2, h) == DecodeHostname(s, i4, h.(sender := h.sender.(mac := a.mac, ip := a.ip)))
  {
    hide DecodeSender, DecodeHostname, ReadAddressAt, FieldAt, Text;
    FieldWithin(s, i2, Text(ColonHex, a.mac));
    FieldWithin(s, i3, Text(DottedDecimal, a.ip));
    ReadAddressBack(ColonHex, s, i2, a.mac);
    ReadAddressBack(DottedDecimal, s, i3, a.ip);
    SenderStep(s, i2, i3, i4, a.mac, a.ip, h);
  }

  /** Where the fields of the part that is left start. */
  lemma FrontStands(texts: seq<string>, k: nat, j: nat)
    requires j <= k <= |texts|
    ensures var s := Fields(texts[..k]);
            && StartOf(0, texts, k) == |s| && StartOf(0, texts, j) <= |s|
            && (j < k ==> FieldAt(s, StartOf(0, texts, j), texts[j]))
  {
    hide FieldAt, Fields;
    var front := texts[..k];
    var s := Fields(front);
    assert s[0..] == s + "";
    FieldsStand(s, 0, front, "");
    FieldsFrom(s, 0, front, "", j);
    SameStarts(texts, k, j);
    SameStarts(texts, k, k);
    assert j < k ==> front[j] == texts[j];
  }

  lemma {:induction false} SameStarts(texts: seq<string>, k: nat, j: nat)
    requires j <= k <= |texts|
    ensures StartOf(0, texts[..k], j) == StartOf(0, texts, j)
    decreases j
  {
    if j > 0 {
      SameStarts(texts, k, j - 1);
    }
  }

  lemma FiveStarts(p: Contents, hostname: string, k: nat)
    requires k < 7
    ensures var t, h := PacketTexts(p, hostname), p.header;
            var s := Fields(t[..k]);
            && StartOf(0, t, 0) == 0 && StartOf(0, t, k) == |s|
            && StartOf(0, t, 1) == |Numeral(10, h.seqn)| + 1
            && StartOf(0, t, 2) == StartOf(0, t, 1) + |Numeral(10, h.timestamp)| + 1
            && StartOf(0, t, 3) == StartOf(0, t, 2) + |Text(ColonHex, h.sender.mac)| + 1
            && StartOf(0, t, 4) == StartOf(0, t, 3) + |Text(DottedDecimal, h.sender.ip)| + 1
            && StartOf(0, t, 5) == StartOf(0, t, 4) + |hostname| + 1
            && StartOf(0, t, 6) == StartOf(0, t, 5) + |Numeral(10, h.direction.Code())| + 1
            && (k > 0 ==> FieldAt(s, StartOf(0, t, 0), Numeral(10, h.seqn)))
            && (k > 1 ==> FieldAt(s, StartOf(0, t, 1), Numeral(10, h.timestamp)))
            && (k > 2 ==> FieldAt(s, StartOf(0, t, 2), Text(ColonHex, h.sender.mac)))
            && (k > 3 ==> FieldAt(s, StartOf(0, t, 3), Text(DottedDecimal, h.sender.ip)))
            && (k > 4 ==> FieldAt(s, StartOf(0, t, 4), hostname))
            && (k > 5 ==> FieldAt(s, StartOf(0, t, 5), Numeral(10, h.direction.Code())))
  {
    hide FieldAt, Fields, Numeral, Text;
    var t := PacketTexts(p, hostname);
    forall j | 0 <= j < k ensures FieldAt(Fields(t[..k]), StartOf(0, t, j), t[j]) {
      FrontStands(t, k, j);
    }
    FrontStands(t, k, k);
  }

  /** What has been read of the header when the text ends behind `k` fields. */
  lemma CutHeader(p: Contents, prior: Contents, k: nat)
    requires k < 6 && Framed(KeptOf(p))
    ensures var s := Fields(PacketTexts(p, KeptOf(p))[..k]);
            DecodeHeader(s, 0, prior.header) == Decoding(Err(MissingFieldEnd), |s|, Overwritten(p, prior, k).header)
  {
    hide DecodeHeader, DecodeSender, DecodeHostname, DecodeDirection, ReadUintAt, ReadAddressAt, FieldAt, Fields;
    hide Numeral, Text, KeptOf, Framed, StartOf;
    var t, h := PacketTexts(p, KeptOf(p)), p.header;
    var s := Fields(t[..k]);
    FiveStarts(p, KeptOf(p), k);
    if k < 2 {
      if k == 1 {
        ReadUintBack(s, 0, h.seqn);
      }
      NumberMissing(s, 0, prior.header);
    } else {
      CutAfterNumbers(s, StartOf(0, t, 1), StartOf(0, t, 2), p, prior.header);
      CutSender(s, StartOf(0, t, 2), StartOf(0, t, 3), StartOf(0, t, 4), StartOf(0, t, 5), p, k,
                prior.header.(seqn := h.seqn % 65536, timestamp := h.timestamp % 65536));
    }
  }

  lemma CutSender(s: string, i2: nat, i3: nat, i4: nat, i5: nat, p: Contents, k: nat, h: Header)
    requires 2 <= k < 6 && Framed(KeptOf(p)) && i2 <= |s|
    requires i3 == i2 + |Text(ColonHex, p.header.sender.mac)| + 1
    requires i4 == i3 + |Text(DottedDecimal, p.header.sender.ip)| + 1 && i5 == i4 + |KeptOf(p)| + 1
    requires k > 2 ==> FieldAt(s, i2, Text(ColonHex, p.header.sender.mac))
    requires k > 3 ==> FieldAt(s, i3, Text(DottedDecimal, p.header.sender.ip))
    requires k > 4 ==> FieldAt(s, i4, KeptOf(p))
    requires (k == 2 ==> i2 == |s|) && (k == 3 ==> i3 == |s|) && (k == 4 ==> i4 == |s|) && (k == 5 ==> i5 == |s|)
    ensures var a := p.header.sender;
            DecodeSender(s, i2, h)
            == Decoding(Err(MissingFieldEnd), |s|,
                        h.(sender := NodeAddresses(if k > 2 then a.mac else h.sender.mac,
                                                   if k > 3 then a.ip else h.sender.ip,
                                                   if k > 4 then KeptOf(p) else h.sender.hostname)))
  {
    hide DecodeSender, DecodeHostname, DecodeDirection, ReadAddressAt, FieldAt, Text, KeptOf, Framed;
    var a := p.header.sender;
    if k < 4 {
      if k == 3 {
        ReadAddressBack(ColonHex, s, i2, a.mac);
      }
      AddressMissing(s, i2, h);
    } else {
      CutAfterAddresses(s, i2, i3, i4, a, h);
      var h := h.(sender := h.sender.(mac := a.mac, ip := a.ip));
      NothingAhead(s, ColonHex, 6, h, Discovery);
      if k == 5 {
        FieldEndsIff(s, i4, KeptOf(p));
        FieldIsSlice(s, i4, KeptOf(p));
        HostnameStep(s, i4, h);
        NothingAhead(s, ColonHex, 6, h.(sender := h.sender.(hostname := KeptOf(p))), Discovery);
      }
    }
  }

  /** All of the header is there, and the type is not. */
  lemma CutType(p: Contents, prior: Contents)
    requires Framed(KeptOf(p))
    ensures var s := Fields(PacketTexts(p, KeptOf(p))[..6]);
            Decode(s, 0, prior) == Decoding(Err(MissingFieldEnd), |s|, Overwritten(p, prior, 6))
  {
    hide Decode, DecodeHeader, DecodeSender, DecodeHostname, DecodeKind, FieldAt, Fields;
    hide Numeral, Text, KeptOf, Framed, StartOf;
    var t, h := PacketTexts(p, KeptOf(p)), p.header;
    var s := Fields(t[..6]);
    FiveStarts(p, KeptOf(p), 6);
    CutAfterNumbers(s, StartOf(0, t, 1), StartOf(0, t, 2), p, prior.header);
    var h1 := prior.header.(seqn := h.seqn % 65536, timestamp := h.timestamp % 65536);
    CutAfterAddresses(s, StartOf(0, t, 2), StartOf(0, t, 3), StartOf(0, t, 4), h.sender, h1);
    var h2 := h1.(sender := h1.sender.(mac := h.sender.mac, ip := h.sender.ip));
    FramedHostnameBack(s, StartOf(0, t, 4), h2, KeptOf(p), h.direction);
    NothingAhead(s, ColonHex, 6, h2, prior.kind);
    DecodeJoins(s, 0, DecodeHostname(s, StartOf(0, t, 4), h2), DecodeKind(s, |s|, prior.kind), prior);
  }

  /**
   A packet that is cut off behind some of its fields raises, with the cursor at
   its end, and leaves the fields read so far in the object. (Its kept hostname
   is framed.)
   */
  lemma CutOff(p: Contents, prior: Contents, k: nat)
    requires k < 7 && Framed(KeptOf(p))
    ensures var s := Fields(PacketTexts(p, KeptOf(p))[..k]);
            Decode(s, 0, prior) == Decoding(Err(MissingFieldEnd), |s|, Overwritten(p, prior, k))
  {
    hide Decode, DecodeHeader, Fields, KeptOf, Framed;
    if k == 6 {
      CutType(p, prior);
    } else {
      CutHeader(p, prior, k);
      HeaderStops(Fields(PacketTexts(p, KeptOf(p))[..k]), prior, Overwritten(p, prior, k).header);
    }
  }
}
