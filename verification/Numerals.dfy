/** Unsigned decimal and hexadecimal numerals, as the standard library of C++
    prints and reads them. */
module Numerals {
  type Byte = x: int | 0 <= x < 256
  type Uint64 = x: int | 0 <= x < 0x1_0000_0000_0000_0000

  type Base = b: nat | b == 10 || b == 16 witness 10

  /** The value of a digit of either case; 99 for any other character. */
  function DigitOf(c: char): nat {
    if '0' <= c <= '9' then c as int - '0' as int
    else if 'a' <= c <= 'f' then c as int - 'a' as int + 10
    else if 'A' <= c <= 'F' then c as int - 'A' as int + 10
    else 99
  }

  function CharOf(d: nat): char
    requires d < 16
  {
    if d < 10 then ('0' as int + d) as char else ('a' as int + d - 10) as char
  }

  predicate IsNumeral(base: Base, s: string) {
    |s| > 0 && forall k :: 0 <= k < |s| ==> DigitOf(s[k]) < base
  }

  /** `n` without leading zeros, in lower case. */
  function Numeral(base: Base, n: nat): (s: string)
    ensures IsNumeral(base, s)
    decreases n
  {
    if n < base then [CharOf(n)]
    else if base == 10 then Numeral(10, n / 10) + [CharOf(n % 10)]
    else Numeral(16, n / 16) + [CharOf(n % 16)]
  }

  function Value(base: Base, s: string): nat
    requires forall k :: 0 <= k < |s| ==> DigitOf(s[k]) < base
  {
    if s == [] then 0
    else (if base == 10 then 10 else 16) * Value(base, s[..|s| - 1]) + DigitOf(s[|s| - 1])
  }

  lemma ValueNext(base: Base, s: string, c: char)
    requires DigitOf(c) < base && forall k :: 0 <= k < |s| ==> DigitOf(s[k]) < base
    ensures Value(base, s + [c]) == (if base == 10 then 10 else 16) * Value(base, s) + DigitOf(c)
  {
    assert (s + [c])[..|s|] == s;
  }

  lemma DigitOfChar(d: nat)
    requires d < 16
    ensures DigitOf(CharOf(d)) == d
  {
  }

  lemma NoValue(base: Base)
    ensures Value(base, "") == 0
  {
  }

  lemma {:induction false} ValueOfNumeral(base: Base, n: nat)
    ensures Value(base, Numeral(base, n)) == n
    decreases n
  {
    hide Value, DigitOf, CharOf;
    if n < base {
      DigitOfChar(n);
      NoValue(base);
      assert [CharOf(n)] == "" + [CharOf(n)];
      ValueNext(base, "", CharOf(n));
    } else if base == 10 {
      DigitOfChar(n % 10);
      ValueOfNumeral(10, n / 10);
      ValueNext(10, Numeral(10, n / 10), CharOf(n % 10));
    } else {
      DigitOfChar(n % 16);
      ValueOfNumeral(16, n / 16);
      ValueNext(16, Numeral(16, n / 16), CharOf(n % 16));
    }
  }

  /** The end of the longest run of digits that starts at `i`. */
  function DigitsEnd(base: Base, s: string, i: nat): (j: nat)
    requires i <= |s|
    ensures i <= j <= |s|
    ensures forall k :: i <= k < j ==> DigitOf(s[k]) < base
    ensures j < |s| ==> DigitOf(s[j]) >= base
    decreases |s| - i
  {
    if i < |s| && DigitOf(s[i]) < base then DigitsEnd(base, s, i + 1) else i
  }

  /** The digits stop where the run of digits stops. */
  lemma {:induction false} DigitsEndIs(base: Base, s: string, i: nat, j: nat)
    requires i <= j <= |s|
    requires forall k :: i <= k < j ==> DigitOf(s[k]) < base
    requires j < |s| ==> DigitOf(s[j]) >= base
    ensures DigitsEnd(base, s, i) == j
    decreases j - i
  {
    if i < j {
      DigitsEndIs(base, s, i + 1, j);
    }
  }

  /** The white space of the "C" locale. */
  predicate IsBlank(c: char) {
    c == ' ' || '\t' <= c <= '\r'
  }

  function BlanksEnd(s: string, i: nat): (j: nat)
    requires i <= |s|
    ensures i <= j <= |s|
    decreases |s| - i
  {
    if i < |s| && IsBlank(s[i]) then BlanksEnd(s, i + 1) else i
  }

  /** A number as the library reads it: whether a minus came first, and where its
      digits start and end. */
  datatype Scanned = Scanned(negative: bool, start: nat, end: nat)

  predicate IsSign(c: char) {
    c == '-' || c == '+'
  }

  predicate HasPrefix(base: Base, s: string, i: nat) {
    base == 16 && i + 1 < |s| && s[i] == '0' && (s[i + 1] == 'x' || s[i + 1] == 'X')
  }

  /** Blanks, a sign, the prefix of a hexadecimal number, and the longest run of
      digits, all of which may be missing. */
  function ScanNumber(base: Base, s: string, i: nat): (r: Scanned)
    requires i <= |s|
    ensures i <= r.start <= r.end <= |s|
    ensures forall k :: r.start <= k < r.end ==> DigitOf(s[k]) < base
  {
    var sign := BlanksEnd(s, i);
    var signed := sign < |s| && IsSign(s[sign]);
    var first := if signed then sign + 1 else sign;
    var start := if HasPrefix(base, s, first) then first + 2 else first;
    Scanned(signed && s[sign] == '-', start, DigitsEnd(base, s, start))
  }

  /** A minus negates a number modulo the range of its type. */
  function Signed(negative: bool, v: nat, range: nat): (r: nat)
    requires v < range
    ensures r < range
  {
    if negative then (range - v) % range else v
  }

  lemma DigitIsNoBlankOrSign(base: Base, c: char)
    requires DigitOf(c) < base
    ensures !IsBlank(c) && !IsSign(c)
  {
  }

  /** Digits without anything before them are read as they stand. */
  lemma ScanDigits(base: Base, s: string, i: nat, j: nat)
    requires i < j <= |s| && forall k :: i <= k < j ==> DigitOf(s[k]) < base
    requires j < |s| ==> DigitOf(s[j]) >= base && (base == 16 ==> s[j] != 'x' && s[j] != 'X')
    ensures ScanNumber(base, s, i) == Scanned(false, i, j)
  {
    DigitIsNoBlankOrSign(base, s[i]);
    DigitsEndIs(base, s, i, j);
    assert !HasPrefix(base, s, i) by {
      if i + 1 < j {
        assert DigitOf(s[i + 1]) < base;
      }
    }
  }

  const LOWER := "0123456789abcdef"
  const UPPER := "0123456789ABCDEF"

  /** The digits, of either case, and nothing else. */
  lemma DigitTable(c: char, d: nat)
    requires d < 16
    ensures DigitOf(c) == d <==> c == LOWER[d] || c == UPPER[d]
    ensures CharOf(d) == LOWER[d]
  {
  }

  const WHITE := " \t\n\U{b}\U{c}\r"
  const SIGNS := "+-"

  /** The characters are all among `allowed`. */
  predicate Among(s: string, allowed: string) {
    forall c :: c in s ==> c in allowed
  }

  /** The first character, if there is one, is not among `avoided`. */
  predicate StartsOutside(s: string, avoided: string) {
    s == "" || s[0] !in avoided
  }

  /** `text` stands at `i`, and `rest` behind it. */
  predicate StandsAt(s: string, i: nat, text: string, rest: string) {
    i <= |s| && s[i..] == text + rest
  }

  predicate StartsWithDigit(base: Base, s: string) {
    s != "" && DigitOf(s[0]) < base
  }

  predicate AllDigits(base: Base, s: string) {
    forall k :: 0 <= k < |s| ==> DigitOf(s[k]) < base
  }

  /** A sign or none. */
  predicate SignText(sign: string) {
    sign == "" || sign == "+" || sign == "-"
  }

  /** The prefix of a hexadecimal number, or none. */
  predicate PrefixText(base: Base, prefix: string) {
    prefix == "" || (base == 16 && (prefix == "0x" || prefix == "0X"))
  }

  predicate StartsWithPrefix(base: Base, s: string) {
    base == 16 && ("0x" <= s || "0X" <= s)
  }

  /** These parts make a number: any white space, a sign or none, a prefix or
      none, any digits of either case. Each part is as long as it can be in front
      of `rest`. */
  predicate Written(base: Base, blanks: string, sign: string, prefix: string, digits: string, rest: string) {
    && Among(blanks, WHITE) && SignText(sign) && PrefixText(base, prefix)
    && AllDigits(base, digits) && !StartsWithDigit(base, rest)
    && StartsOutside(sign + (prefix + (digits + rest)), WHITE)
    && (sign == "" ==> StartsOutside(prefix + (digits + rest), SIGNS))
    && (prefix == "" ==> !StartsWithPrefix(base, digits + rest))
  }

  lemma BlanksAhead(s: string, i: nat, blanks: string, rest: string)
    requires StandsAt(s, i, blanks, rest) && Among(blanks, WHITE) && StartsOutside(rest, WHITE)
    ensures BlanksEnd(s, i) == i + |blanks|
    decreases |blanks|
  {
    if blanks == "" {
      assert rest != "" ==> s[i] == s[i..][0] == rest[0];
    } else {
      assert s[i] == s[i..][0] == blanks[0] && blanks[0] in blanks;
      assert s[i + 1..] == s[i..][1..] == blanks[1..] + rest;
      BlanksAhead(s, i + 1, blanks[1..], rest);
    }
  }

  lemma SignAhead(s: string, i: nat, sign: string, rest: string)
    requires StandsAt(s, i, sign, rest) && SignText(sign)
    requires sign == "" ==> StartsOutside(rest, SIGNS)
    ensures i < |s| && IsSign(s[i]) <==> sign != ""
    ensures i < |s| && s[i] == '-' <==> sign == "-"
    ensures sign == "" || |sign| == 1
  {
    if i < |s| {
      assert s[i] == s[i..][0];
    }
  }

  lemma PrefixAhead(base: Base, s: string, i: nat, prefix: string, rest: string)
    requires StandsAt(s, i, prefix, rest) && PrefixText(base, prefix)
    requires prefix == "" ==> !StartsWithPrefix(base, rest)
    ensures HasPrefix(base, s, i) <==> prefix != ""
    ensures prefix == "" || |prefix| == 2
  {
    if i + 1 < |s| {
      assert s[i] == s[i..][0] && s[i + 1] == s[i..][1];
    }
  }

  lemma DigitsAhead(base: Base, s: string, i: nat, digits: string, rest: string)
    requires StandsAt(s, i, digits, rest) && AllDigits(base, digits) && !StartsWithDigit(base, rest)
    ensures DigitsEnd(base, s, i) == i + |digits|
  {
    forall k | i <= k < i + |digits| ensures DigitOf(s[k]) < base {
      assert s[k] == s[i..][k - i] == digits[k - i];
    }
    if rest != "" {
      assert s[i + |digits|] == s[i..][|digits|] == rest[0];
    }
    DigitsEndIs(base, s, i, i + |digits|);
  }

  lemma Behind(s: string, i: nat, x: string, y: string, rest: string)
    requires StandsAt(s, i, x, y + rest)
    ensures StandsAt(s, i + |x|, y, rest)
  {
    assert s[i + |x|..] == s[i..][|x|..];
  }

  /** A number is read as it is written, whatever follows. */
  lemma NumberAhead(base: Base, s: string, i: nat, blanks: string, sign: string, prefix: string, digits: string,
                    rest: string)
    requires StandsAt(s, i, blanks, sign + (prefix + (digits + rest)))
    requires Written(base, blanks, sign, prefix, digits, rest)
    ensures ScanNumber(base, s, i)
            == Scanned(sign == "-", i + |blanks| + |sign| + |prefix|, i + |blanks| + |sign| + |prefix| + |digits|)
    ensures StandsAt(s, i + |blanks| + |sign| + |prefix|, digits, rest)
  {
    hide StandsAt;
    var a := i + |blanks|;
    var b := a + |sign|;
    Behind(s, i, blanks, sign, prefix + (digits + rest));
    Behind(s, a, sign, prefix, digits + rest);
    Behind(s, b, prefix, digits, rest);
    PartsAhead(base, s, i, blanks, sign, prefix, digits, sign + (prefix + (digits + rest)),
               prefix + (digits + rest), digits + rest, rest);
  }

  lemma PartsAhead(base: Base, s: string, i: nat, blanks: string, sign: string, prefix: string, digits: string,
                   afterBlanks: string, afterSign: string, afterPrefix: string, rest: string)
    requires StandsAt(s, i, blanks, afterBlanks) && Among(blanks, WHITE) && StartsOutside(afterBlanks, WHITE)
    requires StandsAt(s, i + |blanks|, sign, afterSign) && SignText(sign)
    requires sign == "" ==> StartsOutside(afterSign, SIGNS)
    requires StandsAt(s, i + |blanks| + |sign|, prefix, afterPrefix) && PrefixText(base, prefix)
    requires prefix == "" ==> !StartsWithPrefix(base, afterPrefix)
    requires StandsAt(s, i + |blanks| + |sign| + |prefix|, digits, rest)
    requires AllDigits(base, digits) && !StartsWithDigit(base, rest)
    ensures ScanNumber(base, s, i)
            == Scanned(sign == "-", i + |blanks| + |sign| + |prefix|, i + |blanks| + |sign| + |prefix| + |digits|)
  {
    hide BlanksEnd, DigitsEnd, HasPrefix, IsSign, DigitOf, Among, StartsOutside, AllDigits, StartsWithDigit;
    hide SignText, PrefixText, StartsWithPrefix, StandsAt;
    BlanksAhead(s, i, blanks, afterBlanks);
    SignAhead(s, i + |blanks|, sign, afterSign);
    PrefixAhead(base, s, i + |blanks| + |sign|, prefix, afterPrefix);
    DigitsAhead(base, s, i + |blanks| + |sign| + |prefix|, digits, rest);
  }

  /** A decimal numeral is what `Numeral` prints unless it starts with a needless zero. */
  lemma {:induction false} CanonicalDecimal(s: string)
    requires IsNumeral(10, s)
    ensures s == Numeral(10, Value(10, s)) <==> |s| == 1 || s[0] != '0'
  {
    if |s| > 1 {
      var front, d := s[..|s| - 1], DigitOf(s[|s| - 1]);
      var v := Value(10, front);
      CanonicalDecimal(front);
      assert CharOf(d) == s[|s| - 1];
      if v == 0 {
        ZeroHasLeadingZero(front);
        assert |Numeral(10, d)| == 1;
      } else {
        assert (v * 10 + d) / 10 == v && (v * 10 + d) % 10 == d;
        assert Numeral(10, v * 10 + d) == Numeral(10, v) + [CharOf(d)];
        assert s == front + [s[|s| - 1]];
        if |front| == 1 {
          assert front[0] != '0';
        }
      }
    }
  }

  lemma {:induction false} ZeroHasLeadingZero(s: string)
    requires IsNumeral(10, s) && Value(10, s) == 0
    ensures s[0] == '0'
  {
    if |s| > 1 {
      ZeroHasLeadingZero(s[..|s| - 1]);
    }
  }
}
