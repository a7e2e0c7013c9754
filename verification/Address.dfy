/**
 MAC and IPv4 addresses and their texts (`src/address.cpp`). The two stream
 operators of each kind differ only in base, separator and padding.
 */
module Address {
  import opened Wrappers
  import opened Numerals

  type MacAddress = a: seq<Byte> | |a| == 6 witness [0, 0, 0, 0, 0, 0]
  type IpAddress = a: seq<Byte> | |a| == 4 witness [0, 0, 0, 0]

  datatype NodeAddresses = NodeAddresses(mac: MacAddress, ip: IpAddress, hostname: string)

  datatype Notation = DottedDecimal | ColonHex {
    function Base(): Base { if DottedDecimal? then 10 else 16 }
    function Separator(): char { if DottedDecimal? then '.' else ':' }

    /** `setfill('0') << setw(2)` for hexadecimal octets only. */
    function OctetText(b: Byte): string {
      var s := Numeral(Base(), b);
      if ColonHex? && |s| < 2 then "0" + s else s
    }
  }

  /** The exceptions of the parsers. `StreamFailure` stands for every text on
      which the stream enters its failed state. */
  datatype AddressError = ExpectedSeparator | ExpectedEnd | StreamFailure

  function Joined(separator: char, tokens: seq<string>): string {
    if tokens == [] then []
    else if |tokens| == 1 then tokens[0]
    else Joined(separator, tokens[..|tokens| - 1]) + [separator] + tokens[|tokens| - 1]
  }

  function Octets(nt: Notation, a: seq<Byte>): seq<string> {
    seq(|a|, k requires 0 <= k < |a| => nt.OctetText(a[k]))
  }

  /** The text of an address. */
  function Text(nt: Notation, a: seq<Byte>): string {
    Joined(nt.Separator(), Octets(nt, a))
  }

  method Render(nt: Notation, address: seq<Byte>) returns (text: string)
    ensures text == Text(nt, address)
  {
    text := "";
    var first := true;
    for k := 0 to |address|
      invariant first <==> k == 0
      invariant text == Text(nt, address[..k])
    {
      if !first {
        text := text + [nt.Separator()];
      }
      first := false;
      text := text + nt.OctetText(address[k]);
      assert Octets(nt, address[..k + 1])[..k] == Octets(nt, address[..k]);
    }
    assert address[..|address|] == address;
  }

  /** An input stream over a string. */
  class InputStream {
    const text: string
    var pos: nat

    ghost predicate Valid()
      reads this
    {
      pos <= |text|
    }

    constructor (text: string)
      ensures Valid() && this.text == text && pos == 0
    {
      this.text := text;
      pos := 0;
    }

    /** Passes over blanks. */
    method SkipBlanks()
      requires Valid()
      modifies this
      ensures Valid() && pos == BlanksEnd(text, old(pos))
    {
      while pos < |text| && IsBlank(text[pos])
        invariant Valid() && BlanksEnd(text, pos) == BlanksEnd(text, old(pos))
        decreases |text| - pos
      {
        pos := pos + 1;
      }
    }

    /** Extracts the first character behind blanks. */
    method ReadChar() returns (c: Option<char>)
      requires Valid()
      modifies this
      ensures Valid()
      ensures var at := BlanksEnd(text, old(pos));
              if at < |text| then c == Some(text[at]) && pos == at + 1 else c == None && pos == at
    {
      SkipBlanks();
      if pos < |text| {
        c := Some(text[pos]);
        pos := pos + 1;
      } else {
        c := None;
      }
    }

    /** Uses up a run of digits and yields its value. */
    method ReadDigits(base: Base) returns (v: nat)
      requires Valid()
      modifies this
      ensures Valid() && pos == DigitsEnd(base, text, old(pos)) && v == Value(base, text[old(pos)..pos])
    {
      hide DigitOf, DigitsEnd, Value;
      var start := pos;
      v := 0;
      NoDigits(base, text, start);
      while pos < |text| && DigitOf(text[pos]) < base
        invariant Valid() && start <= pos
        invariant forall k :: start <= k < pos ==> DigitOf(text[k]) < base
        invariant v == Value(base, text[start..pos])
        decreases |text| - pos
      {
        DigitNext(base, text, start, pos);
        v := (if base == 10 then 10 else 16) * v + DigitOf(text[pos]);
        pos := pos + 1;
      }
      DigitsEndIs(base, text, start, pos);
    }

    /** Extracts an `unsigned` in the given base: behind blanks, a sign and the
        hexadecimal prefix the longest run of digits is used up, and its value is
        what comes out, negated after a minus, unless there is no digit or 32
        bits do not hold it. */
    method ReadUnsigned(base: Base) returns (value: Option<nat>)
      requires Valid()
      modifies this
      ensures Valid() && pos == ScanNumber(base, text, old(pos)).end
      ensures value == Unsigned(base, text, old(pos))
    {
      hide DigitOf, DigitsEnd, Value, BlanksEnd;
      SkipBlanks();
      var negative := false;
      if pos < |text| && IsSign(text[pos]) {
        negative := text[pos] == '-';
        pos := pos + 1;
      }
      if HasPrefix(base, text, pos) {
        pos := pos + 2;
      }
      var start := pos;
      var v := ReadDigits(base);
      value := if pos == start || v >= 0x1_0000_0000 then None else Some(Signed(negative, v, 0x1_0000_0000));
    }
  }

  lemma NoDigits(base: Base, text: string, i: nat)
    requires i <= |text|
    ensures Value(base, text[i..i]) == 0
  {
  }

  lemma DigitNext(base: Base, text: string, i: nat, j: nat)
    requires i <= j < |text| && forall k :: i <= k <= j ==> DigitOf(text[k]) < base
    ensures Value(base, text[i..j + 1]) == (if base == 10 then 10 else 16) * Value(base, text[i..j]) + DigitOf(text[j])
  {
    ValueNext(base, text[i..j], text[j]);
    assert text[i..j + 1] == text[i..j] + [text[j]];
  }

  /** The number at `i` as a 32-bit `unsigned`, if there is one. */
  function Unsigned(base: Base, text: string, i: nat): Option<nat>
    requires i <= |text|
  {
    var number := ScanNumber(base, text, i);
    var v := Value(base, text[number.start..number.end]);
    if number.start == number.end || v >= 0x1_0000_0000 then None
    else Some(Signed(number.negative, v, 0x1_0000_0000))
  }

  /** One turn of the extraction loop: the separator, except the first time,
      then an `unsigned` cut down to a byte. Yields it and the new position. */
  function OctetAt(nt: Notation, text: string, pos: nat, first: bool): (r: Result<(Byte, nat), AddressError>)
    requires pos <= |text|
    ensures r.Ok? ==> r.value.1 <= |text|
  {
    var at := BlanksEnd(text, pos);
    if !first && at == |text| then Err(StreamFailure)
    else if !first && text[at] != nt.Separator() then Err(ExpectedSeparator)
    else
      var start := if first then pos else at + 1;
      match Unsigned(nt.Base(), text, start)
      case None => Err(StreamFailure)
      case Some(v) => Ok((v % 256, ScanNumber(nt.Base(), text, start).end))
  }

  /** Continues the extraction of an `n`-octet address: `got` are the octets
      stored so far and `pos` the position of the stream. */
  function Scan(nt: Notation, text: string, pos: nat, got: seq<Byte>, n: nat)
    : (r: Result<(seq<Byte>, nat), AddressError>)
    requires pos <= |text| && |got| <= n
    ensures r.Ok? ==> |r.value.0| == n && r.value.1 <= |text|
    decreases n - |got|
  {
    if |got| == n then Ok((got, pos))
    else
      match OctetAt(nt, text, pos, got == [])
      case Err(e) => Err(e)
      case Ok((b, next)) => Scan(nt, text, next, got + [b], n)
  }

  /** Extraction followed by the end-of-input test. */
  function Parse(nt: Notation, text: string, n: nat): (r: Result<seq<Byte>, AddressError>)
    ensures r.Ok? ==> |r.value| == n
  {
    match Scan(nt, text, 0, [], n)
    case Err(e) => Err(e)
    case Ok((a, pos)) => if pos == |text| then Ok(a) else Err(ExpectedEnd)
  }

  method ReadOctet(nt: Notation, input: InputStream, first: bool) returns (r: Result<Byte, AddressError>)
    requires input.Valid()
    modifies input
    ensures input.Valid()
    ensures match OctetAt(nt, input.text, old(input.pos), first)
            case Ok((b, next)) => r == Ok(b) && input.pos == next
            case Err(e) => r == Err(e)
  {
    hide ScanNumber, Unsigned, BlanksEnd;
    if !first {
      var ch := input.ReadChar();
      if ch == None {
        return Err(StreamFailure);
      }
      if ch != Some(nt.Separator()) {
        return Err(ExpectedSeparator);
      }
    }
    var byte := input.ReadUnsigned(nt.Base());
    r := if byte == None then Err(StreamFailure) else Ok(byte.value % 256);
  }

  /** The extraction operator: fills the array octet by octet. */
  method Extract(nt: Notation, input: InputStream, address: array<Byte>) returns (error: Option<AddressError>)
    requires input.Valid()
    modifies input, address
    ensures input.Valid()
    ensures var r := Scan(nt, input.text, old(input.pos), [], address.Length);
            match r
            case Ok((a, pos)) => error == None && address[..] == a && input.pos == pos
            case Err(e) => error == Some(e)
  {
    hide OctetAt;
    for k := 0 to address.Length
      invariant input.Valid()
      invariant Scan(nt, input.text, old(input.pos), [], address.Length)
             == Scan(nt, input.text, input.pos, address[..k], address.Length)
    {
      ghost var before := address[..k];
      var r := ReadOctet(nt, input, k == 0);
      if r.Err? {
        return Some(r.error);
      }
      address[k] := r.value;
      assert address[..k + 1] == before + [r.value];
    }
    assert address[..address.Length] == address[..];
    error := None;
  }

  method ParseText(nt: Notation, text: string, n: nat) returns (r: Result<seq<Byte>, AddressError>)
    ensures r == Parse(nt, text, n)
  {
    var input := new InputStream(text);
    var address := new Byte[n](_ => 0);
    var error := Extract(nt, input, address);
    match error {
      case Some(e) => r := Err(e);
      case None =>
        r := if input.pos == |text| then Ok(address[..]) else Err(ExpectedEnd);
    }
  }

  // ---------- Round trips ----------

  /** What one octet may look like: an unsigned numeral that fits 32 bits. */
  predicate IsToken(nt: Notation, token: string) {
    IsNumeral(nt.Base(), token) && Value(nt.Base(), token) < 0x1_0000_0000
  }

  predicate AllTokens(nt: Notation, tokens: seq<string>) {
    forall k :: 0 <= k < |tokens| ==> IsToken(nt, tokens[k])
  }

  function Reduced(nt: Notation, tokens: seq<string>): (a: seq<Byte>)
    requires AllTokens(nt, tokens)
    ensures |a| == |tokens|
  {
    seq(|tokens|, k requires 0 <= k < |tokens| => Value(nt.Base(), tokens[k]) % 256)
  }

  lemma JoinedLast(separator: char, front: seq<string>, last: string)
    requires front != []
    ensures Joined(separator, front + [last]) == Joined(separator, front) + [separator] + last
  {
    assert (front + [last])[..|front|] == front;
  }

  /** Where the text of the first `k` tokens ends, and what follows it. */
  lemma {:induction false} JoinedPrefix(separator: char, tokens: seq<string>, k: nat)
    requires k <= |tokens|
    ensures Joined(separator, tokens[..k]) <= Joined(separator, tokens)
    ensures 0 < k < |tokens| ==>
              var j := |Joined(separator, tokens[..k])|;
              j < |Joined(separator, tokens)| && Joined(separator, tokens)[j] == separator
    decreases |tokens|
  {
    if k == |tokens| {
      assert tokens[..k] == tokens;
    } else if k > 0 {
      var front := tokens[..|tokens| - 1];
      JoinedPrefix(separator, front, k);
      assert front[..k] == tokens[..k];
    }
  }

  /** The `k`-th token within the joined text. */
  lemma TokenSpan(separator: char, tokens: seq<string>, k: nat) returns (start: nat, next: nat)
    requires k < |tokens|
    ensures start == |Joined(separator, tokens[..k])| + (if k == 0 then 0 else 1)
    ensures next == |Joined(separator, tokens[..k + 1])|
    ensures start <= next <= |Joined(separator, tokens)|
    ensures Joined(separator, tokens)[start..next] == tokens[k]
    ensures k > 0 ==> Joined(separator, tokens)[start - 1] == separator
    ensures if k + 1 == |tokens| then next == |Joined(separator, tokens)|
            else next < |Joined(separator, tokens)| && Joined(separator, tokens)[next] == separator
  {
    JoinedPrefix(separator, tokens, k + 1);
    var text := Joined(separator, tokens);
    var head := Joined(separator, tokens[..k]);
    var upTo := Joined(separator, tokens[..k + 1]);
    start := |head| + (if k == 0 then 0 else 1);
    next := |upTo|;
    assert tokens[..k + 1] == tokens[..k] + [tokens[k]];
    if k > 0 {
      JoinedLast(separator, tokens[..k], tokens[k]);
    }
    assert upTo == head + (if k == 0 then "" else [separator]) + tokens[k];
    assert upTo == text[..next];
    assert text[start..next] == upTo[start..];
    if k > 0 {
      assert text[start - 1] == upTo[start - 1];
    }
    if k + 1 == |tokens| {
      assert tokens[..k + 1] == tokens;
    }
  }

  /** This character ends a numeral. */
  predicate Ends(nt: Notation, c: char) {
    DigitOf(c) >= nt.Base() && (nt.ColonHex? ==> c != 'x' && c != 'X')
  }

  /** Reading a token behind which no digit follows. */
  lemma UnsignedOfToken(nt: Notation, text: string, start: nat, next: nat, token: string)
    requires IsToken(nt, token) && start <= next <= |text| && text[start..next] == token
    requires next < |text| ==> Ends(nt, text[next])
    ensures Unsigned(nt.Base(), text, start) == Some(Value(nt.Base(), token))
    ensures ScanNumber(nt.Base(), text, start).end == next
  {
    forall i | start <= i < next ensures DigitOf(text[i]) < nt.Base() {
      assert text[i] == token[i - start];
    }
    ScanDigits(nt.Base(), text, start, next);
  }

  function EndOf(separator: char, tokens: seq<string>, k: nat): nat
    requires k <= |tokens|
  {
    |Joined(separator, tokens[..k])|
  }

  /** The text starts with these tokens, and no digit follows them. */
  predicate StartsWith(nt: Notation, text: string, tokens: seq<string>) {
    var joined := Joined(nt.Separator(), tokens);
    joined <= text && (|joined| < |text| ==> Ends(nt, text[|joined|]))
  }

  /** Reading the `k`-th of these tokens. */
  lemma OctetOfToken(nt: Notation, text: string, tokens: seq<string>, k: nat)
    requires AllTokens(nt, tokens) && k < |tokens| && StartsWith(nt, text, tokens)
    ensures EndOf(nt.Separator(), tokens, k) <= |text|
    ensures OctetAt(nt, text, EndOf(nt.Separator(), tokens, k), k == 0)
            == Ok((Value(nt.Base(), tokens[k]) % 256, EndOf(nt.Separator(), tokens, k + 1)))
  {
    hide Joined, ScanNumber, Value, Unsigned, IsToken;
    var joined := Joined(nt.Separator(), tokens);
    var start, next := TokenSpan(nt.Separator(), tokens, k);
    assert IsToken(nt, tokens[k]);
    assert text[start..next] == joined[start..next];
    assert next < |joined| ==> text[next] == joined[next];
    UnsignedOfToken(nt, text, start, next, tokens[k]);
    if k > 0 {
      assert text[start - 1] == joined[start - 1] && !IsBlank(nt.Separator());
    }
  }

  /** The scan stores octets found one behind the other at `ends`. */
  lemma {:induction false} ScanFrom(nt: Notation, text: string, ends: seq<nat>, all: seq<Byte>, k: nat, n: nat)
    requires k <= |all| <= n && |ends| == |all| + 1
    requires forall i :: 0 <= i < |ends| ==> ends[i] <= |text|
    requires forall i :: 0 <= i < |all| ==> OctetAt(nt, text, ends[i], i == 0) == Ok((all[i], ends[i + 1]))
    ensures Scan(nt, text, ends[k], all[..k], n) == Scan(nt, text, ends[|all|], all, n)
    decreases |all| - k
  {
    hide OctetAt;
    if k == |all| {
      assert all[..k] == all;
    } else {
      ScanFrom(nt, text, ends, all, k + 1, n);
      assert all[..k + 1] == all[..k] + [all[k]];
    }
  }

  /** Where the tokens end in the text. */
  lemma EndsOfTokens(nt: Notation, tokens: seq<string>, text: string, all: seq<Byte>) returns (ends: seq<nat>)
    requires AllTokens(nt, tokens) && StartsWith(nt, text, tokens) && all == Reduced(nt, tokens)
    ensures |ends| == |tokens| + 1 && ends[0] == 0 && ends[|tokens|] == |Joined(nt.Separator(), tokens)|
    ensures forall i :: 0 <= i < |ends| ==> ends[i] <= |text|
    ensures forall i :: 0 <= i < |all| ==> OctetAt(nt, text, ends[i], i == 0) == Ok((all[i], ends[i + 1]))
  {
    hide OctetAt, Joined;
    ends := seq(|tokens| + 1, k requires 0 <= k <= |tokens| => EndOf(nt.Separator(), tokens, k));
    forall k | 0 <= k < |ends| ensures ends[k] <= |text| {
      JoinedPrefix(nt.Separator(), tokens, k);
    }
    forall k | 0 <= k < |all| ensures OctetAt(nt, text, ends[k], k == 0) == Ok((all[k], ends[k + 1])) {
      OctetOfToken(nt, text, tokens, k);
    }
    assert tokens[..0] == [] && tokens[..|tokens|] == tokens;
    NothingJoined(nt.Separator());
  }

  lemma NothingJoined(separator: char)
    ensures Joined(separator, []) == ""
  {
  }

  /** The scan comes through the tokens that the text starts with. */
  lemma ScanTokens(nt: Notation, text: string, tokens: seq<string>, n: nat)
    requires AllTokens(nt, tokens) && StartsWith(nt, text, tokens) && |tokens| <= n
    ensures |Joined(nt.Separator(), tokens)| <= |text|
    ensures Scan(nt, text, 0, [], n)
            == Scan(nt, text, |Joined(nt.Separator(), tokens)|, Reduced(nt, tokens), n)
  {
    hide OctetAt, Joined, Scan, IsToken;
    var all := Reduced(nt, tokens);
    var ends := EndsOfTokens(nt, tokens, text, all);
    ScanFrom(nt, text, ends, all, 0, n);
    assert all[..0] == [];
  }

  /** The text starts with one token for each octet: it must end there. */
  lemma ParseEnough(nt: Notation, text: string, tokens: seq<string>)
    requires AllTokens(nt, tokens) && StartsWith(nt, text, tokens)
    ensures Parse(nt, text, |tokens|)
            == if text == Joined(nt.Separator(), tokens) then Ok(Reduced(nt, tokens)) else Err(ExpectedEnd)
  {
    hide OctetAt, Joined, IsToken;
    ScanTokens(nt, text, tokens, |tokens|);
  }

  /** It starts with fewer: what follows must be a separator. */
  lemma ParseTooFew(nt: Notation, text: string, tokens: seq<string>, n: nat)
    requires AllTokens(nt, tokens) && StartsWith(nt, text, tokens) && |tokens| < n
    requires var i := |Joined(nt.Separator(), tokens)|;
             i < |text| ==> text[i] != nt.Separator() && !IsBlank(text[i]) && !IsSign(text[i])
    ensures Parse(nt, text, n)
            == if tokens != [] && text != Joined(nt.Separator(), tokens) then Err(ExpectedSeparator)
               else Err(StreamFailure)
  {
    hide Joined, IsToken, IsBlank, IsSign, HasPrefix;
    ScanTokens(nt, text, tokens, n);
    var i := |Joined(nt.Separator(), tokens)|;
    assert BlanksEnd(text, i) == i;
    if tokens == [] {
      NothingJoined(nt.Separator());
      NoNumber(nt, text);
    }
  }

  lemma NoNumber(nt: Notation, text: string)
    requires text != "" ==> Ends(nt, text[0]) && !IsBlank(text[0]) && !IsSign(text[0])
    ensures Unsigned(nt.Base(), text, 0) == None
  {
    assert BlanksEnd(text, 0) == 0;
  }

  lemma FrontOfTokens(nt: Notation, tokens: seq<string>, n: nat)
    requires AllTokens(nt, tokens) && n < |tokens|
    ensures Joined(nt.Separator(), tokens[..n]) <= Joined(nt.Separator(), tokens)
    ensures n > 0 ==> var i := |Joined(nt.Separator(), tokens[..n])|;
                      i < |Joined(nt.Separator(), tokens)| && Joined(nt.Separator(), tokens)[i] == nt.Separator()
    ensures n == 0 ==> Joined(nt.Separator(), tokens) != "" && Joined(nt.Separator(), tokens[..n]) == ""
  {
    JoinedPrefix(nt.Separator(), tokens, n);
    if n == 0 {
      var start, next := TokenSpan(nt.Separator(), tokens, 0);
      assert IsToken(nt, tokens[0]);
    }
  }

  /**
   Numerals of 32 bits joined by separators are an address exactly if there are
   as many as octets, and then every one is taken modulo 256. With more of them
   the end is missed, with fewer the stream runs out.
   */
  lemma ParseJoined(nt: Notation, tokens: seq<string>, n: nat)
    requires AllTokens(nt, tokens)
    ensures Parse(nt, Joined(nt.Separator(), tokens), n)
            == if |tokens| == n then Ok(Reduced(nt, tokens))
               else if |tokens| > n then Err(ExpectedEnd)
               else Err(StreamFailure)
  {
    hide Joined, IsToken, Parse;
    var text := Joined(nt.Separator(), tokens);
    if |tokens| == n {
      ParseEnough(nt, text, tokens);
    } else if |tokens| < n {
      ParseTooFew(nt, text, tokens, n);
    } else if n == 0 {
      FrontOfTokens(nt, tokens, 0);
      ParseNothing(nt, text);
    } else {
      FrontOfTokens(nt, tokens, n);
      assert |text| > |Joined(nt.Separator(), tokens[..n])|;
      ParseEnough(nt, text, tokens[..n]);
    }
  }

  lemma ParseNothing(nt: Notation, text: string)
    ensures Parse(nt, text, 0) == if text == "" then Ok([]) else Err(ExpectedEnd)
  {
  }

  /**
   Where a character that is no separator, no blank, no sign and no part of a
   number stands behind numerals, the address is rejected, whatever follows: a
   separator was expected there if octets are missing, otherwise the end.
   */
  lemma ForeignRejected(nt: Notation, tokens: seq<string>, c: char, rest: string, n: nat)
    requires AllTokens(nt, tokens) && 0 < |tokens| <= n
    requires Ends(nt, c) && c != nt.Separator() && !IsBlank(c) && !IsSign(c)
    ensures Parse(nt, Joined(nt.Separator(), tokens) + [c] + rest, n)
            == Err(if |tokens| < n then ExpectedSeparator else ExpectedEnd)
  {
    hide Joined, IsToken, Parse, IsBlank, IsSign, Ends;
    var joined := Joined(nt.Separator(), tokens);
    var text := joined + [c] + rest;
    assert text[|joined|] == c;
    if |tokens| < n {
      ParseTooFew(nt, text, tokens, n);
    } else {
      ParseEnough(nt, text, tokens);
    }
  }

  // ---------- Any way to write an octet ----------

  /** The value of a number that is written with this sign and these digits. */
  function WrittenValue(base: Base, sign: string, digits: string): Option<nat>
    requires AllDigits(base, digits)
  {
    var v := Value(base, digits);
    if digits == "" || v > 0xffff_ffff then None
    else if sign == "-" && v > 0 then Some(0x1_0000_0000 - v)
    else Some(v)
  }

  lemma UnsignedAhead(base: Base, s: string, i: nat, blanks: string, sign: string, prefix: string, digits: string,
                      rest: string)
    requires StandsAt(s, i, blanks, sign + (prefix + (digits + rest)))
    requires Written(base, blanks, sign, prefix, digits, rest)
    ensures Unsigned(base, s, i) == WrittenValue(base, sign, digits)
  {
    hide StandsAt, Value, ScanNumber;
    NumberAhead(base, s, i, blanks, sign, prefix, digits, rest);
    DigitsStand(s, i + |blanks| + |sign| + |prefix|, digits, rest);
  }

  lemma DigitsStand(s: string, i: nat, digits: string, rest: string)
    requires StandsAt(s, i, digits, rest)
    ensures i + |digits| <= |s| && s[i..i + |digits|] == digits
  {
    assert s[i..i + |digits|] == s[i..][..|digits|];
  }

  /** One octet, with white space before the separator and before the number, a
      sign, and for hexadecimal a prefix: its value modulo 256. */
  lemma OctetAhead(nt: Notation, s: string, i: nat, gap: string, blanks: string, sign: string, prefix: string,
                   digits: string, rest: string)
    requires StandsAt(s, i, gap, [nt.Separator()] + (blanks + (sign + (prefix + (digits + rest)))))
    requires Among(gap, WHITE) && Written(nt.Base(), blanks, sign, prefix, digits, rest)
    ensures OctetAt(nt, s, i, false)
            == match WrittenValue(nt.Base(), sign, digits)
               case None => Err(StreamFailure)
               case Some(v) => Ok((v % 256, i + |gap| + 1 + |blanks| + |sign| + |prefix| + |digits|))
  {
    hide StandsAt, Unsigned, ScanNumber, Written, WrittenValue;
    var number := blanks + (sign + (prefix + (digits + rest)));
    BlanksAhead(s, i, gap, [nt.Separator()] + number);
    Behind(s, i, gap, [nt.Separator()], number);
    Behind(s, i + |gap|, [nt.Separator()], blanks, sign + (prefix + (digits + rest)));
    SeparatorStands(s, i + |gap|, nt.Separator(), number);
    UnsignedAhead(nt.Base(), s, i + |gap| + 1, blanks, sign, prefix, digits, rest);
    NumberAhead(nt.Base(), s, i + |gap| + 1, blanks, sign, prefix, digits, rest);
  }

  lemma SeparatorStands(s: string, i: nat, c: char, rest: string)
    requires StandsAt(s, i, [c], rest)
    ensures i < |s| && s[i] == c
  {
    assert s[i] == s[i..][0];
  }

  predicate IsAddressChar(nt: Notation, c: char) {
    DigitOf(c) < nt.Base() || c == nt.Separator()
  }

  lemma {:induction false} JoinedChars(nt: Notation, tokens: seq<string>, c: char)
    requires forall k :: 0 <= k < |tokens| ==> IsNumeral(nt.Base(), tokens[k])
    requires c in Joined(nt.Separator(), tokens)
    ensures IsAddressChar(nt, c)
    decreases |tokens|
  {
    if |tokens| == 1 {
      assert IsNumeral(nt.Base(), tokens[0]);
    } else {
      var front, last := tokens[..|tokens| - 1], tokens[|tokens| - 1];
      assert IsNumeral(nt.Base(), last);
      if c in Joined(nt.Separator(), front) {
        JoinedChars(nt, front, c);
      }
    }
  }

  lemma OctetTextIsToken(nt: Notation, b: Byte)
    ensures IsToken(nt, nt.OctetText(b)) && Value(nt.Base(), nt.OctetText(b)) == b
  {
    var s := Numeral(nt.Base(), b);
    ValueOfNumeral(nt.Base(), b);
    if nt.ColonHex? && |s| < 2 {
      assert ("0" + s)[..1] == "0";
      assert Value(16, "0") == 0 by { assert "0"[..0] == ""; }
      assert s[..0] == "";
    }
  }

  lemma OctetsAreTokens(nt: Notation, a: seq<Byte>)
    ensures AllTokens(nt, Octets(nt, a)) && Reduced(nt, Octets(nt, a)) == a
  {
    hide IsToken, Value;
    forall k | 0 <= k < |a| ensures IsToken(nt, Octets(nt, a)[k]) && Value(nt.Base(), Octets(nt, a)[k]) == a[k] {
      OctetTextIsToken(nt, a[k]);
    }
  }

  /** Parsing the rendering of an address returns the address. */
  lemma AddressRoundTrip(nt: Notation, a: seq<Byte>)
    ensures Parse(nt, Text(nt, a), |a|) == Ok(a)
  {
    OctetsAreTokens(nt, a);
    ParseJoined(nt, Octets(nt, a), |a|);
  }

  lemma OctetTextIs(b: Byte)
    ensures ColonHex.OctetText(b) == [LOWER[b / 16], LOWER[b % 16]]
  {
    DigitTable('0', b / 16);
    DigitTable('0', b % 16);
    if b >= 16 {
      assert Numeral(16, b) == Numeral(16, b / 16) + [CharOf(b % 16)];
    }
  }

  lemma {:induction false} JoinedPairs(separator: char, tokens: seq<string>, k: nat)
    requires k < |tokens| && forall j :: 0 <= j < |tokens| ==> |tokens[j]| == 2
    ensures var text := Joined(separator, tokens);
            && |text| == 3 * |tokens| - 1
            && text[3 * k] == tokens[k][0] && text[3 * k + 1] == tokens[k][1]
            && (k + 1 < |tokens| ==> text[3 * k + 2] == separator)
    decreases |tokens|
  {
    if |tokens| > 1 {
      var front := tokens[..|tokens| - 1];
      JoinedPairs(separator, front, if k < |front| then k else 0);
    }
  }

  /** A MAC address is printed as six pairs of lower-case hexadecimal digits, the
      high one first, with colons between. */
  lemma MacTextIs(a: MacAddress, k: nat)
    requires k < 6
    ensures |Text(ColonHex, a)| == 17
    ensures Text(ColonHex, a)[3 * k] == "0123456789abcdef"[a[k] / 16]
    ensures Text(ColonHex, a)[3 * k + 1] == "0123456789abcdef"[a[k] % 16]
    ensures k < 5 ==> Text(ColonHex, a)[3 * k + 2] == ':'
  {
    hide Joined;
    forall j | 0 <= j < 6 ensures Octets(ColonHex, a)[j] == [LOWER[a[j] / 16], LOWER[a[j] % 16]] {
      OctetTextIs(a[j]);
    }
    JoinedPairs(':', Octets(ColonHex, a), k);
  }

  /** A rendering never disturbs the framing of packet fields. */
  lemma TextIsPlain(nt: Notation, a: seq<Byte>)
    ensures ';' !in Text(nt, a) && '\\' !in Text(nt, a)
  {
    OctetsAreTokens(nt, a);
    if c :| c in Text(nt, a) && c in {';', '\\'} {
      JoinedChars(nt, Octets(nt, a), c);
    }
  }

  lemma {:induction false} JoinedInjective(nt: Notation, xs: seq<string>, ys: seq<string>)
    requires |xs| == |ys| && Joined(nt.Separator(), xs) == Joined(nt.Separator(), ys)
    requires forall k :: 0 <= k < |xs| ==> IsNumeral(nt.Base(), xs[k]) && IsNumeral(nt.Base(), ys[k])
    ensures xs == ys
    decreases |xs|
  {
    if |xs| > 1 {
      var fx, lx := xs[..|xs| - 1], xs[|xs| - 1];
      var fy, ly := ys[..|ys| - 1], ys[|ys| - 1];
      SplitAtLast(nt.Separator(), Joined(nt.Separator(), fx), lx, Joined(nt.Separator(), fy), ly) by {
        assert IsNumeral(nt.Base(), lx) && IsNumeral(nt.Base(), ly);
      }
      JoinedInjective(nt, fx, fy);
      assert xs == fx + [lx] && ys == fy + [ly];
    }
  }

  /** Behind the separator comes no other. */
  lemma NoneBehind(c: char, x: string, lx: string, i: int)
    requires c !in lx && |x| < i < |x| + 1 + |lx|
    ensures (x + [c] + lx)[i] != c
  {
    assert (x + [c] + lx)[i] == lx[i - |x| - 1];
  }

  lemma SplitAtLast(c: char, x: string, lx: string, y: string, ly: string)
    requires c !in lx && c !in ly && x + [c] + lx == y + [c] + ly
    ensures x == y && lx == ly
  {
    var text := x + [c] + lx;
    assert text[|x|] == c && text[|y|] == c;
    if |x| < |y| {
      NoneBehind(c, x, lx, |y|);
    } else if |y| < |x| {
      NoneBehind(c, y, ly, |x|);
    } else {
      assert x == text[..|x|] && y == text[..|x|];
      assert lx == text[|x| + 1..] && ly == text[|x| + 1..];
    }
  }

  // ---------- The grammar of section 3.2.2 of RFC 3986 ----------

  /** `dec-octet`: 0-9, 10-99, 100-199, 200-249, 250-255. */
  predicate DecOctet(s: string) {
    || (|s| == 1 && '0' <= s[0] <= '9')
    || (|s| == 2 && '1' <= s[0] <= '9' && '0' <= s[1] <= '9')
    || (|s| == 3 && s[0] == '1' && '0' <= s[1] <= '9' && '0' <= s[2] <= '9')
    || (|s| == 3 && s[0] == '2' && '0' <= s[1] <= '4' && '0' <= s[2] <= '9')
    || (|s| == 3 && s[0] == '2' && s[1] == '5' && '0' <= s[2] <= '5')
  }

  predicate IPv4address(text: string, o: seq<string>) {
    |o| == 4 && DecOctet(o[0]) && DecOctet(o[1]) && DecOctet(o[2]) && DecOctet(o[3])
    && text == o[0] + "." + o[1] + "." + o[2] + "." + o[3]
  }

  lemma ShortValue(s: string)
    requires IsNumeral(10, s) && |s| <= 3
    ensures |s| == 1 ==> Value(10, s) == DigitOf(s[0])
    ensures |s| == 2 ==> Value(10, s) == DigitOf(s[0]) * 10 + DigitOf(s[1])
    ensures |s| == 3 ==> Value(10, s) == DigitOf(s[0]) * 100 + DigitOf(s[1]) * 10 + DigitOf(s[2])
  {
    assert Value(10, s[..0]) == 0;
    if |s| > 1 {
      var t := s[..|s| - 1];
      assert t[..0] == "";
      if |s| > 2 {
        var u := t[..1];
        assert u[..0] == "";
      }
    }
  }

  lemma {:induction false} LongValue(s: string)
    requires IsNumeral(10, s) && |s| > 3 && s[0] != '0'
    ensures Value(10, s) >= 1000
  {
    if |s| == 4 {
      ShortValue(s[..3]);
    } else {
      LongValue(s[..|s| - 1]);
    }
  }

  /** Which numerals of three digits are words: those from 100 to 255. */
  lemma ThreeDigits(s: string)
    requires IsNumeral(10, s) && |s| == 3
    ensures DecOctet(s) <==> s[0] != '0' && Value(10, s) < 256
  {
    ShortValue(s);
    assert forall k :: 0 <= k < 3 ==> '0' <= s[k] <= '9' && DigitOf(s[k]) == s[k] as int - '0' as int;
  }

  lemma TwoDigits(s: string)
    requires IsNumeral(10, s) && |s| <= 2
    ensures DecOctet(s) <==> |s| == 1 || s[0] != '0'
    ensures Value(10, s) < 256
  {
    ShortValue(s);
    assert forall k :: 0 <= k < |s| ==> '0' <= s[k] <= '9' && DigitOf(s[k]) <= 9;
  }

  /** The decimal text of an octet is exactly a `dec-octet`. */
  lemma DecOctetIff(s: string)
    requires IsNumeral(10, s)
    ensures DecOctet(s) <==> Value(10, s) < 256 && s == Numeral(10, Value(10, s))
  {
    CanonicalDecimal(s);
    if |s| <= 2 {
      TwoDigits(s);
    } else if |s| == 3 {
      ThreeDigits(s);
    } else if s[0] != '0' {
      LongValue(s);
    }
  }

  lemma JoinFour(separator: char, o: seq<string>)
    requires |o| == 4
    ensures Joined(separator, o) == o[0] + [separator] + o[1] + [separator] + o[2] + [separator] + o[3]
  {
    assert o == [o[0], o[1], o[2]] + [o[3]];
    JoinedLast(separator, [o[0], o[1], o[2]], o[3]);
    assert [o[0], o[1], o[2]] == [o[0], o[1]] + [o[2]];
    JoinedLast(separator, [o[0], o[1]], o[2]);
    assert [o[0], o[1]] == [o[0]] + [o[1]];
    JoinedLast(separator, [o[0]], o[1]);
  }

  /** The words of the grammar are the joined `dec-octet`s. */
  lemma DecOctetsAreTokens(o: seq<string>)
    requires forall k :: 0 <= k < |o| ==> DecOctet(o[k])
    ensures AllTokens(DottedDecimal, o) && Octets(DottedDecimal, Reduced(DottedDecimal, o)) == o
  {
    forall k | 0 <= k < |o| ensures IsToken(DottedDecimal, o[k])
                                    && Value(10, o[k]) < 256 && o[k] == Numeral(10, Value(10, o[k])) {
      DecOctetIff(o[k]);
    }
  }

  lemma OctetsAreDecOctets(a: seq<Byte>, k: nat)
    requires k < |a|
    ensures DecOctet(Octets(DottedDecimal, a)[k])
  {
    ValueOfNumeral(10, a[k]);
    DecOctetIff(Numeral(10, a[k]));
  }

  lemma IpTextIsGrammatical(a: IpAddress)
    ensures IPv4address(Text(DottedDecimal, a), Octets(DottedDecimal, a))
  {
    var o := Octets(DottedDecimal, a);
    OctetsAreDecOctets(a, 0);
    OctetsAreDecOctets(a, 1);
    OctetsAreDecOctets(a, 2);
    OctetsAreDecOctets(a, 3);
    JoinFour('.', o);
  }

  lemma GrammarIsIpText(text: string, o: seq<string>) returns (a: IpAddress)
    requires IPv4address(text, o)
    ensures Text(DottedDecimal, a) == text
  {
    DecOctetsAreTokens([o[0], o[1], o[2], o[3]]);
    assert [o[0], o[1], o[2], o[3]] == o;
    a := Reduced(DottedDecimal, o);
    JoinFour('.', o);
  }

  /** The texts of IPv4 addresses are exactly the words of the grammar. */
  lemma IpTextsAreTheGrammar(text: string)
    ensures (exists a: IpAddress :: Text(DottedDecimal, a) == text) <==> (exists o :: IPv4address(text, o))
  {
    if a: IpAddress :| Text(DottedDecimal, a) == text {
      IpTextIsGrammatical(a);
    }
    if o :| IPv4address(text, o) {
      var a := GrammarIsIpText(text, o);
    }
  }

  /**
   A dotted quad of unsigned decimals is parsed with each octet reduced modulo
   256, and rendering the result gives the text back exactly when every part
   is a `dec-octet`.
   */
  lemma QuadRestoredIffCanonical(tokens: seq<string>)
    requires |tokens| == 4 && AllTokens(DottedDecimal, tokens)
    ensures Parse(DottedDecimal, Joined('.', tokens), 4) == Ok(Reduced(DottedDecimal, tokens))
    ensures Text(DottedDecimal, Reduced(DottedDecimal, tokens)) == Joined('.', tokens)
            <==> forall k :: 0 <= k < 4 ==> DecOctet(tokens[k])
  {
    var a := Reduced(DottedDecimal, tokens);
    ParseJoined(DottedDecimal, tokens, |tokens|);
    if Text(DottedDecimal, a) == Joined('.', tokens) {
      OctetsAreTokens(DottedDecimal, a);
      JoinedInjective(DottedDecimal, Octets(DottedDecimal, a), tokens);
      forall k | 0 <= k < 4 ensures DecOctet(tokens[k]) {
        OctetsAreDecOctets(a, k);
      }
    } else if forall k :: 0 <= k < 4 ==> DecOctet(tokens[k]) {
      DecOctetsAreTokens(tokens);
    }
  }
}
