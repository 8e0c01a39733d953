// Numbers in packet descriptions: what printf writes in src/rapd.c and strtoul and
// inet_aton read in src/apd.c.
module ApdNumber {
  import opened Arith
  import opened Checksum
  import opened Numeral
  import opened Options

  const MAX_ULONG: nat := 0xFFFF_FFFF_FFFF_FFFF

  /** "%u" */
  function Dec(n: nat): (s: string)
    ensures |s| > 0
  {
    Numeral.Numeral(n, 10)
  }

  /** "%0kx", for numbers of at most k digits. */
  function Hex(n: nat, k: nat): (s: string)
    ensures |s| == k
  {
    if k == 0 then "" else Hex(n / 16, k - 1) + [DigitChar(n % 16)]
  }

  // --- reading ----------------------------------------------------------------------------

  function DigitRun(s: string, b: nat): (n: nat)
    ensures n <= |s| && AllDigits(s[..n], b)
    ensures n < |s| ==> !(0 <= CharValue(s[n]) < b)
  {
    if |s| > 0 && 0 <= CharValue(s[0]) < b then 1 + DigitRun(s[1..], b) else 0
  }

  /** The base that strtoul finds with base 0, and the digits to read in it. */
  function FindBase(s: string): (r: (nat, string)) {
    if |s| > 2 && s[0] == '0' && (s[1] == 'x' || s[1] == 'X') && 0 <= CharValue(s[2]) < 16 then (16, s[2..])
    else if |s| > 0 && s[0] == '0' then (8, s)
    else (10, s)
  }

  /** ars_atou: strtoul in base 0 reads as many digits as there are. */
  function Atou(s: string): nat {
    var t := SkipSpace(s);
    var neg := |t| > 0 && t[0] == '-';
    var u := if |t| > 0 && (t[0] == '-' || t[0] == '+') then t[1..] else t;
    var (b, digits) := FindBase(u);
    var v := ValueOf(digits[..DigitRun(digits, b)], b);
    if v > MAX_ULONG then MAX_ULONG else if neg && v > 0 then MAX_ULONG + 1 - v else v
  }

  lemma {:induction false} RunIs(s: string, n: nat, b: nat)
    requires n <= |s| && AllDigits(s[..n], b) && (n < |s| ==> !(0 <= CharValue(s[n]) < b))
    ensures DigitRun(s, b) == n
    decreases n
  {
    if n > 0 {
      assert s[..n][0] == s[0];
      assert s[1..][..n - 1] == s[..n][1..];
      RunIs(s[1..], n - 1, b);
    }
  }

  /** Digits alone are read in full. */
  lemma AtouDigits(s: string, b: nat, digits: string)
    requires |s| > 0 && !IsSpace(s[0]) && s[0] != '-' && s[0] != '+' && FindBase(s) == (b, digits)
    requires AllDigits(digits, b) && ValueOf(digits, b) <= MAX_ULONG
    ensures Atou(s) == ValueOf(digits, b)
  {
    assert digits[..|digits|] == digits;
    RunIs(digits, |digits|, b);
  }

  /** Decimal text reads back: only "0" looks octal. */
  lemma AtouDec(n: nat)
    requires n <= MAX_ULONG
    ensures Atou(Dec(n)) == n
  {
    var s := Dec(n);
    NumeralRoundTrip(n, 10);
    assert 0 <= CharValue(s[0]) < 10;
    if s[0] == '0' {
      assert s == "0" && s[..0] == "";
      assert ValueOf(s, 8) == 0;
      AtouDigits(s, 8, s);
    } else {
      AtouDigits(s, 10, s);
    }
  }

  lemma {:induction false} HexValue(n: nat, k: nat)
    requires n < Pow(16, k)
    ensures AllDigits(Hex(n, k), 16) && ValueOf(Hex(n, k), 16) == n
  {
    if k > 0 {
      HexValue(n / 16, k - 1);
      CharValueOfDigit(n % 16);
      ValueOfSnoc(Hex(n / 16, k - 1), DigitChar(n % 16), 16);
    }
  }

  lemma Pow16Small(k: nat)
    requires k <= 4
    ensures Pow(16, k) <= 0x1_0000
  {
    assert Pow(16, 4) == 16 * Pow(16, 3) && Pow(16, 3) == 16 * Pow(16, 2) && Pow(16, 2) == 16 * Pow(16, 1);
  }

  lemma AtouHex(n: nat, k: nat)
    requires n < Pow(16, k) && 0 < k <= 4
    ensures Atou("0x" + Hex(n, k)) == n
  {
    Pow16Small(k);
    HexValue(n, k);
    hide Hex, ValueOf, Pow, DigitRun, SkipSpace, Atou;
    var s, h := "0x" + Hex(n, k), Hex(n, k);
    assert s[2..] == h && s[2] == h[0] && 0 <= CharValue(h[0]) < 16;
    AtouDigits(s, 16, h);
  }

  // --- any number -----------------------------------------------------------------------------

  predicate IsSign(sign: string) {
    sign == "" || sign == "-" || sign == "+"
  }

  /** The prefix in front of the digits d of base b: hexadecimal, octal and decimal. */
  predicate Prefixes(prefix: string, d: string, b: nat) {
    || (b == 16 && (prefix == "0x" || prefix == "0X") && |d| > 0)
    || (b == 8 && prefix == "0")
    || (b == 10 && prefix == "" && |d| > 0 && d[0] != '0')
  }

  /** No digit of base b goes on here, and nothing that makes a zero a prefix. */
  predicate Ends(after: string, b: nat) {
    |after| > 0 ==> !(0 <= CharValue(after[0]) < b) && (b == 8 ==> after[0] != 'x' && after[0] != 'X')
  }

  lemma PrefixFound(prefix: string, d: string, after: string, b: nat)
    requires Prefixes(prefix, d, b) && AllDigits(d, b) && Ends(after, b)
    ensures FindBase(prefix + (d + after)) == (b, if b == 8 then "0" + d + after else d + after)
  {
    var t := prefix + (d + after);
    if b == 16 {
      assert t[2..] == d + after && t[2] == d[0] && 0 <= CharValue(d[0]) < 16;
    } else if b == 8 {
      assert t == "0" + d + after && (|d| > 0 ==> t[1] == d[0] && 0 <= CharValue(d[0]) < 8);
      assert |d| == 0 && |after| > 0 ==> t[1] == after[0];
    } else {
      assert t == d + after && 0 <= CharValue(d[0]) < 10 && t[0] == d[0];
    }
  }

  lemma RunOfDigits(d: string, after: string, b: nat)
    requires AllDigits(d, b) && Ends(after, b)
    ensures var t := d + after; t[..DigitRun(t, b)] == d
  {
    var t := d + after;
    assert t[..|d|] == d;
    RunIs(t, |d|, b);
  }

  lemma SignFound(before: string, sign: string, body: string)
    requires Blank(before) && IsSign(sign) && |body| > 0 && 0 <= CharValue(body[0])
    ensures SkipSpace(before + (sign + body)) == sign + body && body[0] != '-' && body[0] != '+'
  {
    var t := sign + body;
    SkipsBlank(before, t);
  }

  lemma FirstDigit(prefix: string, d: string, after: string, b: nat)
    requires Prefixes(prefix, d, b) && AllDigits(d, b)
    ensures var t := prefix + (d + after); |t| > 0 && 0 <= CharValue(t[0])
  {
    if prefix == "" {
      assert (prefix + (d + after))[0] == d[0];
    }
  }

  /** Blanks, a sign, a prefix that names the base, digits, and whatever follows: strtoul
      stops at the largest 64-bit number, and a minus sign counts down from 2^64. */
  lemma AtouReads(before: string, sign: string, prefix: string, d: string, after: string, b: nat)
    requires Blank(before) && IsSign(sign) && Prefixes(prefix, d, b) && AllDigits(d, b) && Ends(after, b)
    ensures var v := ValueOf(d, b);
            Atou(before + (sign + (prefix + (d + after)))) ==
            if v > 0xFFFF_FFFF_FFFF_FFFF then 0xFFFF_FFFF_FFFF_FFFF
            else if sign == "-" && v > 0 then 0x1_0000_0000_0000_0000 - v else v
  {
    hide FindBase, DigitRun, ValueOf, SkipSpace, Blank;
    var body := prefix + (d + after);
    FirstDigit(prefix, d, after, b);
    SignFound(before, sign, body);
    PrefixFound(prefix, d, after, b);
    var t := sign + body;
    assert sign != "" ==> t[1..] == body;
    assert sign == "" ==> t == body;
    if b == 8 {
      ValueOfCons('0', d, 8);
      RunOfDigits("0" + d, after, 8);
    } else {
      RunOfDigits(d, after, b);
    }
  }

  /** Without digits the number is zero. */
  lemma AtouNothing(before: string, sign: string, after: string)
    requires Blank(before) && IsSign(sign)
    requires |after| > 0 ==>
               !(0 <= CharValue(after[0]) < 10) && !IsSpace(after[0]) && (sign == "" ==> after[0] !in "+-")
    ensures Atou(before + (sign + after)) == 0
  {
    var t := sign + after;
    SkipsBlank(before, t);
    assert sign != "" ==> t[1..] == after;
    assert sign == "" ==> t == after;
  }

  // --- dotted quads -------------------------------------------------------------------------

  /** "%u.%u.%u.%u" */
  function QuadText(a: seq<Byte>): string
    requires |a| == 4
  {
    Dec(a[0]) + "." + Dec(a[1]) + "." + Dec(a[2]) + "." + Dec(a[3])
  }

  /** One decimal number up to 255 without leading zeros, and what follows it. */
  function Octet(s: string): Option<(Byte, string)> {
    var n := DigitRun(s, 10);
    if n == 0 || (n > 1 && s[0] == '0') || ValueOf(s[..n], 10) > 255 then None
    else Some((ValueOf(s[..n], 10), s[n..]))
  }

  /** `more` numbers with a dot before each. */
  function DottedOctets(s: string, more: nat): Option<seq<Byte>> {
    if more == 0 then (if s == "" then Some([]) else None)
    else if |s| == 0 || s[0] != '.' then None
    else match Octet(s[1..])
      case None => None
      case Some(r) =>
        match DottedOctets(r.1, more - 1)
        case None => None
        case Some(rest) => Some([r.0] + rest)
  }

  /** ars_resolve for an address in dotted-decimal form; anything else is a name. */
  function Resolve(s: string): (r: Option<seq<Byte>>)
  {
    DottedOctets("." + s, 4)
  }

  lemma OctetOfDec(n: Byte, rest: string)
    requires |rest| > 0 ==> rest[0] == '.'
    ensures Octet(Dec(n) + rest) == Some((n, rest))
  {
    var s, d := Dec(n) + rest, Dec(n);
    NumeralRoundTrip(n, 10);
    assert s[..|d|] == d && s[|d|..] == rest && s[0] == d[0];
    RunIs(s, |d|, 10);
  }

  /** One number more in front. */
  lemma DottedDec(n: Byte, rest: string, more: nat)
    requires more > 0 && (|rest| > 0 ==> rest[0] == '.') && DottedOctets(rest, more - 1).Some?
    ensures DottedOctets("." + Dec(n) + rest, more) == Some([n] + DottedOctets(rest, more - 1).value)
  {
    hide Octet, Dec;
    OctetOfDec(n, rest);
    var s := "." + Dec(n) + rest;
    assert s[1..] == Dec(n) + rest;
  }

  lemma ResolveQuad(a: seq<Byte>)
    requires |a| == 4
    ensures Resolve(QuadText(a)) == Some(a)
  {
    hide Octet, Dec;
    var s3 := "." + Dec(a[3]) + "";
    var s2 := "." + Dec(a[2]) + s3;
    var s1 := "." + Dec(a[1]) + s2;
    DottedDec(a[3], "", 1);
    DottedDec(a[2], s3, 2);
    DottedDec(a[1], s2, 3);
    DottedDec(a[0], s1, 4);
    assert "." + QuadText(a) == "." + Dec(a[0]) + s1;
    assert [a[0]] + ([a[1]] + ([a[2]] + ([a[3]] + []))) == a;
  }

  lemma DecimalDigit(c: char)
    requires 0 <= CharValue(c) < 10
    ensures DigitChar(CharValue(c)) == c && (CharValue(c) == 0 <==> c == '0')
  {
    DigitValues(c, CharValue(c));
  }

  /** Digits without a leading zero are the numeral of what they stand for. */
  lemma {:induction false} DigitsAreNumeral(d: string)
    requires |d| > 0 && AllDigits(d, 10) && (|d| > 1 ==> d[0] != '0')
    ensures Dec(ValueOf(d, 10)) == d && (ValueOf(d, 10) == 0 ==> d == "0")
    decreases |d|
  {
    hide CharValue, DigitChar;
    var n := |d| - 1;
    var c: nat := CharValue(d[n]);
    assert d == d[..n] + [d[n]];
    DecimalDigit(d[n]);
    if n > 0 {
      DigitsAreNumeral(d[..n]);
      var q := ValueOf(d[..n], 10);
      DivModUnique(q * 10 + c, 10, q, c);
    } else {
      assert ValueOf(d[..0], 10) == 0;
    }
  }

  lemma OctetIsDec(s: string)
    requires Octet(s).Some?
    ensures s == Dec(Octet(s).value.0) + Octet(s).value.1
  {
    var n := DigitRun(s, 10);
    DigitsAreNumeral(s[..n]);
    hide Dec;
    assert s == s[..n] + s[n..];
  }

  lemma OctetsAreDec(s: string, more: nat)
    requires more > 0 && DottedOctets(s, more).Some?
    ensures |s| > 0 && Octet(s[1..]).Some?
    ensures var r := Octet(s[1..]).value;
            && DottedOctets(r.1, more - 1).Some? && s == "." + Dec(r.0) + r.1
            && DottedOctets(s, more).value == [r.0] + DottedOctets(r.1, more - 1).value
  {
    hide Octet, Dec;
    OctetIsDec(s[1..]);
    assert s == "." + s[1..];
  }

  lemma NoMoreOctets(s: string)
    requires DottedOctets(s, 0).Some?
    ensures s == "" && DottedOctets(s, 0).value == []
  {
  }

  /** Exactly the dotted quads are addresses. */
  lemma ResolvesQuads(s: string, a: seq<Byte>)
    ensures Resolve(s) == Some(a) <==> |a| == 4 && s == QuadText(a)
  {
    hide DottedOctets, Octet, Dec;
    if |a| == 4 {
      ResolveQuad(a);
    }
    if Resolve(s).Some? {
      var s0 := "." + s;
      OctetsAreDec(s0, 4);
      var r0 := Octet(s0[1..]).value;
      OctetsAreDec(r0.1, 3);
      var r1 := Octet(r0.1[1..]).value;
      OctetsAreDec(r1.1, 2);
      var r2 := Octet(r1.1[1..]).value;
      OctetsAreDec(r2.1, 1);
      var r3 := Octet(r2.1[1..]).value;
      NoMoreOctets(r3.1);
      var q := [r0.0, r1.0, r2.0, r3.0];
      assert Resolve(s).value == q;
      assert s0 == "." + QuadText(q);
      assert s == s0[1..] && QuadText(q) == ("." + QuadText(q))[1..];
    }
  }
}
