// Numerals in bases 2 to 36: what mpz_tostr writes and mpz_set_str reads, as
// functions on integers and strings, and why reading undoes writing.
module Numeral {
  import opened Arith
  import opened Options

  const MIN_BASE: nat := 2
  const MAX_BASE: nat := 36
  const CSET := "0123456789abcdefghijklmnopqrstuvwxyz"

  /** A base the library accepts. */
  type Base = b: nat | MIN_BASE <= b <= MAX_BASE witness 10

  /** sbn_valtochar */
  function DigitChar(v: nat): char
    requires v < MAX_BASE
  {
    CSET[v]
  }

  /** sbn_chartoval: the digit that c stands for in either case, or -1. */
  function CharValue(c: char): int {
    if '0' <= c <= '9' then c as int - '0' as int
    else if 'a' <= c <= 'z' then c as int - 'a' as int + 10
    else if 'A' <= c <= 'Z' then c as int - 'A' as int + 10
    else -1
  }

  /** isspace */
  predicate IsSpace(c: char) {
    c == ' ' || '\t' <= c <= '\r'
  }

  lemma CharValueOfDigit(v: nat)
    requires v < MAX_BASE
    ensures CharValue(DigitChar(v)) == v
    ensures !IsSpace(DigitChar(v)) && DigitChar(v) != '-'
  {
  }

  /** The numeral of n, most significant digit first, without leading zeros. */
  function Numeral(n: nat, b: Base): (s: string)
    ensures |s| > 0
  {
    if n < b then [DigitChar(n)] else
      QuotientShrinks(n, b);
      Numeral(n / b, b) + [DigitChar(n % b)]
  }

  /** The text of an integer. */
  function IntText(n: int, b: Base): string {
    if n < 0 then "-" + Numeral(0 - n, b) else Numeral(n, b)
  }

  /** The digits of n in the order in which dividing by the base finds them. */
  function LowText(n: nat, b: Base): string {
    if n == 0 then "" else
      QuotientShrinks(n, b);
      [DigitChar(n % b)] + LowText(n / b, b)
  }

  function Reverse(s: string): (r: string) {
    if |s| == 0 then "" else Reverse(s[1..]) + [s[0]]
  }

  lemma {:induction false} ReverseAt(s: string, k: nat)
    requires k < |s|
    ensures |Reverse(s)| == |s| && Reverse(s)[k] == s[|s| - 1 - k]
  {
    if |s| > 1 {
      ReverseAt(s[1..], if k < |s| - 1 then k else 0);
    }
  }

  lemma {:induction false} ReverseSnoc(s: string, c: char)
    ensures Reverse(s + [c]) == [c] + Reverse(s)
  {
    if |s| == 0 {
      assert Reverse([c]) == Reverse([c][1..]) + [c];
    } else {
      ReverseSnoc(s[1..], c);
      assert (s + [c])[1..] == s[1..] + [c];
    }
  }

  lemma ReverseCons(c: char, s: string)
    ensures Reverse([c] + s) == Reverse(s) + [c]
  {
    assert ([c] + s)[1..] == s;
  }

  /** Writing the low digits first and reversing gives the numeral. */
  lemma {:induction false} ReversedLowText(n: nat, b: Base)
    requires n > 0
    ensures Reverse(LowText(n, b)) == Numeral(n, b)
  {
    QuotientShrinks(n, b);
    var q, c := n / b, DigitChar(n % b);
    ReverseCons(c, LowText(q, b));
    if n < b {
      assert LowText(q, b) == "" && Reverse("") + [c] == [c];
    } else {
      ReversedLowText(q, b);
    }
  }

  // --- reading ---------------------------------------------------------------

  /** Every character is a digit of the base. */
  predicate AllDigits(s: string, b: nat) {
    forall i | 0 <= i < |s| :: 0 <= CharValue(s[i]) < b
  }

  /** The number that the digits of s stand for. */
  function ValueOf(s: string, b: nat): nat
    requires AllDigits(s, b)
  {
    if |s| == 0 then 0 else ValueOf(s[..|s| - 1], b) * b + CharValue(s[|s| - 1])
  }

  /** Reading from the tail: a digit in front adds its power of the base. */
  lemma {:induction false} ValueOfCons(c: char, s: string, b: nat)
    requires 0 <= CharValue(c) < b && AllDigits(s, b)
    ensures AllDigits([c] + s, b)
    ensures ValueOf([c] + s, b) == CharValue(c) * Pow(b, |s|) + ValueOf(s, b)
  {
    var t := [c] + s;
    if |s| == 0 {
      assert t[..0] == "";
    } else {
      var u := s[..|s| - 1];
      ValueOfCons(c, u, b);
      assert t[..|t| - 1] == [c] + u;
      var v, p: nat := CharValue(c), Pow(b, |u|);
      MulDistrib(v * p, ValueOf(u, b), b);
      MulAssoc(v, p, b);
      MulCommute(p, b);
    }
  }

  lemma ValueOfSnoc(s: string, c: char, b: nat)
    requires 0 <= CharValue(c) < b && AllDigits(s, b)
    ensures AllDigits(s + [c], b)
    ensures ValueOf(s + [c], b) == ValueOf(s, b) * b + CharValue(c)
  {
    var t := s + [c];
    assert t[..|t| - 1] == s;
  }

  lemma {:induction false} NumeralRoundTrip(n: nat, b: Base)
    ensures AllDigits(Numeral(n, b), b) && ValueOf(Numeral(n, b), b) == n
    ensures CharValue(Numeral(n, b)[0]) == 0 ==> n == 0
  {
    if n < b {
      CharValueOfDigit(n);
      ValueOfSnoc("", DigitChar(n), b);
      assert "" + [DigitChar(n)] == [DigitChar(n)];
    } else {
      var q, d := n / b, n % b;
      QuotientShrinks(n, b);
      DivModFact(n, b);
      CharValueOfDigit(d);
      NumeralRoundTrip(q, b);
      ValueOfSnoc(Numeral(q, b), DigitChar(d), b);
    }
  }

  function SkipSpace(s: string): string {
    if |s| > 0 && IsSpace(s[0]) then SkipSpace(s[1..]) else s
  }

  /** Trailing blanks go, except that the first character is never looked at. */
  function TrimTail(s: string): string {
    if |s| > 1 && IsSpace(s[|s| - 1]) then TrimTail(s[..|s| - 1]) else s
  }

  /** The base a prefix selects when none is given, and what follows the prefix. */
  function GuessBase(s: string, b: int): (int, string) {
    if b != 0 then (b, s)
    else if |s| == 0 || s[0] != '0' then (10, s)
    else if |s| > 1 && (s[1] == 'x' || s[1] == 'X') then (16, s[2..])
    else if |s| > 1 && (s[1] == 'b' || s[1] == 'B') then (2, s[2..])
    else (8, s[1..])
  }

  /** A leading minus sign and what follows it. */
  function SplitSign(s: string): (bool, string) {
    if |s| > 0 && s[0] == '-' then (true, s[1..]) else (false, s)
  }

  /** What mpz_set_str makes of a string: sign and magnitude, or an error. */
  function ParseInt(s: string, base: int): Option<(bool, nat)> {
    var (neg, rest) := SplitSign(SkipSpace(s));
    var (b, body) := GuessBase(rest, base);
    if b < MIN_BASE || b > MAX_BASE then None
    else
      var digits := TrimTail(body);
      if AllDigits(digits, b) then Some((neg, ValueOf(digits, b))) else None
  }

  lemma NoBlanks(s: string, b: Base)
    requires AllDigits(s, b)
    ensures SkipSpace(s) == s && TrimTail(s) == s && SplitSign(s) == (false, s)
  {
    if |s| > 0 {
      assert 0 <= CharValue(s[0]) && 0 <= CharValue(s[|s| - 1]);
    }
  }

  /** Reading back the text of an integer gives the integer. */
  lemma TextRoundTrip(n: int, b: Base)
    ensures ParseInt(IntText(n, b), b) == Some((n < 0, if n < 0 then -n else n))
  {
    var m := if n < 0 then -n else n;
    var s := Numeral(m, b);
    NumeralRoundTrip(m, b);
    NoBlanks(s, b);
    if n < 0 {
      var t := "-" + s;
      assert t[1..] == s;
      assert SkipSpace(t) == t;
    }
  }

  /** Decimal text is read back without naming the base, too: only zero starts with
      the octal prefix, and an empty octal numeral is zero. */
  lemma DecimalNeedsNoBase(n: int)
    ensures ParseInt(IntText(n, 10), 0) == Some((n < 0, if n < 0 then -n else n))
  {
    TextRoundTrip(n, 10);
    var m := if n < 0 then -n else n;
    var s := Numeral(m, 10);
    NumeralRoundTrip(m, 10);
    NoBlanks(s, 10);
    if n < 0 {
      var t := "-" + s;
      assert t[1..] == s;
      assert SkipSpace(t) == t;
    }
    if s[0] == '0' {
      assert s == "0";
      assert s[1..] == "";
    }
  }

  // --- what the text says, character by character ---------------------------------------------

  lemma LowerDigit(v: nat)
    requires v < 36
    ensures var c := "0123456789abcdefghijklmnopqrstuvwxyz"[v] as int; c == if v < 10 then 48 + v else 87 + v
  {
  }

  lemma UpperDigit(v: nat)
    requires v < 36
    ensures var c := "0123456789ABCDEFGHIJKLMNOPQRSTUVWXYZ"[v] as int; c == if v < 10 then 48 + v else 55 + v
  {
  }

  lemma ValueByCode(c: char, v: nat)
    requires v < 36
    ensures CharValue(c) == v <==> if v < 10 then c as int == 48 + v else c as int == 87 + v || c as int == 55 + v
  {
  }

  /** The digits and their values, in either case; nothing else has one. */
  lemma DigitValues(c: char, v: nat)
    requires v < 36
    ensures CharValue(c) == v <==>
            c == "0123456789abcdefghijklmnopqrstuvwxyz"[v] || c == "0123456789ABCDEFGHIJKLMNOPQRSTUVWXYZ"[v]
    ensures DigitChar(v) == "0123456789abcdefghijklmnopqrstuvwxyz"[v]
  {
    hide CharValue;
    LowerDigit(v);
    UpperDigit(v);
    ValueByCode(c, v);
  }

  /** Digit k of a numeral, counted from the last, is that of the number's place b^k, and
      the first is not zero. */
  lemma {:induction false} NumeralPlaces(n: nat, b: Base, k: nat)
    requires k < |Numeral(n, b)|
    ensures Pow(b, k) > 0 && Numeral(n, b)[|Numeral(n, b)| - 1 - k] ==
                             "0123456789abcdefghijklmnopqrstuvwxyz"[(n / Pow(b, k)) % b]
    ensures n > 0 ==> Numeral(n, b)[0] != '0'
    decreases n
  {
    PowPositive(b, k);
    if n < b {
      DivModUnique(n, b, 0, n);
      assert Pow(b, 0) == 1;
    } else {
      var q := n / b;
      QuotientShrinks(n, b);
      DivModFact(n, b);
      if k == 0 {
        assert Pow(b, 0) == 1;
        NumeralPlaces(q, b, 0);
      } else {
        NumeralPlaces(q, b, k - 1);
        PowPositive(b, k - 1);
        DivDiv(n, b, Pow(b, k - 1));
      }
    }
  }

  predicate Blank(s: string) {
    forall i | 0 <= i < |s| :: s[i] in " \t\n\r" || s[i] == 11 as char || s[i] == 12 as char
  }

  lemma {:induction false} SkipsBlank(w: string, s: string)
    requires Blank(w) && (|s| > 0 ==> !IsSpace(s[0]))
    ensures SkipSpace(w + s) == s
    decreases |w|
  {
    if |w| == 0 {
      assert w + s == s;
    } else {
      assert (w + s)[1..] == w[1..] + s;
      SkipsBlank(w[1..], s);
    }
  }

  lemma {:induction false} TrimsBlank(s: string, w: string)
    requires Blank(w) && |s| > 0 && !IsSpace(s[|s| - 1])
    ensures TrimTail(s + w) == s
    decreases |w|
  {
    if |w| == 0 {
      assert s + w == s;
    } else {
      assert (s + w)[..|s + w| - 1] == s + w[..|w| - 1];
      TrimsBlank(s, w[..|w| - 1]);
    }
  }

  /** A minus sign, if any. */
  function Sign(minus: bool): string {
    if minus then "-" else ""
  }

  /** The prefixes that name a base, with it. */
  predicate NamesBase(prefix: string, b: nat) {
    || (b == 16 && (prefix == "0x" || prefix == "0X"))
    || (b == 2 && (prefix == "0b" || prefix == "0B"))
    || (b == 8 && prefix == "0")
  }

  /** Characters that would change what a prefix means. */
  predicate Continues(prefix: string, c: char) {
    (prefix == "0" && c in "xXbB") || (prefix == "" && c == '0')
  }

  /** With base 0 a prefix selects the base, and without one it is ten. */
  lemma PrefixSelects(prefix: string, d: string, b: nat)
    requires |d| > 0 && !Continues(prefix, d[0]) && (NamesBase(prefix, b) || (prefix == "" && b == 10))
    ensures GuessBase(prefix + d, 0) == (b, d)
  {
    var t := prefix + d;
    if |prefix| == 2 {
      assert t[2..] == d && t[1] == prefix[1];
    } else if |prefix| == 1 {
      assert t[1..] == d && t[1] == d[0];
    } else {
      assert t == d;
    }
  }

  lemma GivenBase(s: string, b: Base)
    ensures GuessBase(s, b) == (b as int, s)
  {
  }

  /** isspace knows these six characters. */
  lemma BlankIsSpace(c: char)
    ensures IsSpace(c) <==> Blank([c])
  {
    assert Blank([c]) <==> [c][0] in " \t\n\r" || c == 11 as char || c == 12 as char;
  }

  /** Where the digits begin and end. */
  predicate Bounded(minus: bool, prefix: string, d: string) {
    |d| > 0 && !Blank([d[0]]) && !Blank([d[|d| - 1]]) && (d[0] == '-' ==> minus || prefix != "")
  }

  lemma FirstIsPlain(minus: bool, prefix: string, d: string, after: string, b: Base)
    requires Bounded(minus, prefix, d) && (prefix == "" || NamesBase(prefix, b))
    ensures var t := Sign(minus) + (prefix + (d + after));
            !IsSpace(t[0]) && (t[0] == '-' <==> minus) && !IsSpace(d[|d| - 1])
  {
    BlankIsSpace(d[0]);
    BlankIsSpace(d[|d| - 1]);
  }

  /** The prefix of a text that is read with base `base` in base b. */
  predicate Selects(prefix: string, d: string, base: nat, b: Base) {
    if base == 0 then
      (|d| > 0 ==> !Continues(prefix, d[0])) && (NamesBase(prefix, b) || (prefix == "" && b == 10))
    else prefix == "" && base == b
  }

  /** A text of blanks, sign, prefix, digits and blanks is its digits, in the base the
      prefix names when no base is given, and without a prefix in the base given; it is an
      error exactly if one of them is no digit of that base. */
  lemma ReadsText(before: string, minus: bool, prefix: string, d: string, after: string, base: nat, b: Base)
    requires Blank(before) && Blank(after) && Bounded(minus, prefix, d) && Selects(prefix, d, base, b)
    ensures ParseInt(before + (Sign(minus) + (prefix + (d + after))), base) ==
            if AllDigits(d, b) then Some((minus, ValueOf(d, b))) else None
  {
    hide ValueOf, CharValue, SkipSpace, TrimTail, GuessBase;
    var body := prefix + (d + after);
    var t := Sign(minus) + body;
    FirstIsPlain(minus, prefix, d, after, b);
    SkipsBlank(before, t);
    assert minus ==> t[1..] == body;
    assert !minus ==> t == body;
    if base == 0 {
      PrefixSelects(prefix, d + after, b);
    } else {
      assert body == d + after;
      GivenBase(body, b);
    }
    TrimsBlank(d, after);
  }

  /** d is the numeral of n in base b, each letter in either case. */
  predicate SpellsOut(d: string, n: nat, b: Base) {
    && |d| == |Numeral(n, b)|
    && forall i | 0 <= i < |d| :: CharValue(d[i]) == CharValue(Numeral(n, b)[i])
  }

  lemma {:induction false} SameDigitsSameValue(d: string, e: string, b: nat)
    requires |d| == |e| && (forall i | 0 <= i < |d| :: CharValue(d[i]) == CharValue(e[i])) && AllDigits(e, b)
    ensures AllDigits(d, b) && ValueOf(d, b) == ValueOf(e, b)
    decreases |d|
  {
    hide CharValue;
    assert forall i | 0 <= i < |d| :: 0 <= CharValue(e[i]) < b;
    if |d| > 0 {
      SameDigitsSameValue(d[..|d| - 1], e[..|e| - 1], b);
    }
  }

  lemma SpelledValue(d: string, n: nat, b: Base)
    requires SpellsOut(d, n, b)
    ensures |d| > 0 && AllDigits(d, b) && ValueOf(d, b) == n && (d[0] == '0' ==> n == 0)
  {
    NumeralRoundTrip(n, b);
    SameDigitsSameValue(d, Numeral(n, b), b);
    hide ValueOf, Numeral;
    assert CharValue('0') == 0;
  }

  /** So a number in hexadecimal, binary and octal is read with its prefix, with blanks
      around it, a minus sign before it, and letters in either case. */
  lemma ReadsPrefixed(before: string, minus: bool, prefix: string, d: string, after: string, n: nat, b: Base)
    requires Blank(before) && Blank(after) && SpellsOut(d, n, b) && NamesBase(prefix, b)
    ensures ParseInt(before + (Sign(minus) + (prefix + (d + after))), 0) == Some((minus, n))
  {
    SpelledValue(d, n, b);
    assert 0 <= CharValue(d[0]) < b && 0 <= CharValue(d[|d| - 1]) < b;
    BlankIsSpace(d[0]);
    BlankIsSpace(d[|d| - 1]);
    hide ParseInt, SpellsOut, ValueOf;
    ReadsText(before, minus, prefix, d, after, 0, b);
  }
}
