// Reading back the printed fields of a header copies the header.
module ApdCopy {
  import opened Arith
  import opened Checksum
  import opened Ars
  import opened Numeral
  import opened Options
  import opened ApdNumber
  import opened ApdField

  // --- single values --------------------------------------------------------------------------

  lemma Atou16(w: Word16)
    ensures Atou(Dec(w)) % 0x1_0000 == w && Atou("0x" + Hex(w, 4)) % 0x1_0000 == w
  {
    hide Atou, Dec, Hex;
    AtouDec(w);
    assert Pow(16, 4) == 16 * Pow(16, 3) && Pow(16, 3) == 16 * Pow(16, 2) && Pow(16, 2) == 16 * Pow(16, 1);
    AtouHex(w, 4);
  }

  lemma Atou8(b: Byte)
    ensures Atou(Dec(b)) % 256 == b && Atou("0x" + Hex(b, 2)) % 256 == b
  {
    hide Atou, Dec, Hex;
    AtouDec(b);
    assert Pow(16, 2) == 16 * Pow(16, 1);
    AtouHex(b, 2);
  }

  lemma Atou4(n: nat)
    requires n < 16
    ensures Atou("0x" + Hex(n, 1)) == n && Atou(Dec(n)) == n
  {
    hide Atou, Dec, Hex;
    AtouDec(n);
    assert Pow(16, 1) == 16;
    AtouHex(n, 1);
  }

  lemma Copy16(h: seq<Byte>, d: seq<Byte>, i: nat)
    requires i + 1 < |h| == |d|
    ensures Put16(h, i, Get16(d, i)) == h[i := d[i]][i + 1 := d[i + 1]]
  {
  }

  lemma Copy32(h: seq<Byte>, d: seq<Byte>, i: nat)
    requires i + 3 < |h| == |d|
    ensures Put32(h, i, Get32(d, i)) == h[i := d[i]][i + 1 := d[i + 1]][i + 2 := d[i + 2]][i + 3 := d[i + 3]]
  {
    var hi: nat, lo: nat := Get16(d, i), Get16(d, i + 2);
    assert Get32(d, i) / 0x1_0000 == hi && Get32(d, i) % 0x1_0000 == lo;
    Copy16(h, d, i);
    Copy16(Put16(h, i, hi), d, i + 2);
  }

  /** A byte as its low five bits and its three flag bits. */
  lemma Decompose(b: Byte)
    ensures b == b % 32 + 32 * Bit(b, 5) + 64 * Bit(b, 6) + 128 * Bit(b, 7)
  {
    var q: nat := b / 32;
    DivModFact(b, 32);
    DivDiv(b, 32, 2);
    DivDiv(b, 64, 2);
    DivModFact(q, 2);
    DivModFact(q / 2, 2);
    assert b / 128 <= 1;
  }

  lemma Compose(lo: nat, x: nat, y: nat, z: nat)
    requires lo < 32 && x <= 1 && y <= 1 && z <= 1
    ensures var b := lo + 32 * x + 64 * y + 128 * z;
            b <= 255 && b % 32 == lo && Bit(b, 5) == x && Bit(b, 6) == y && Bit(b, 7) == z
  {
    var b := lo + 32 * x + 64 * y + 128 * z;
    DivModUnique(b, 32, x + 2 * y + 4 * z, lo);
    DivModUnique(b, 64, y + 2 * z, lo + 32 * x);
    DivModUnique(b, 128, z, lo + 32 * x + 64 * y);
    DivModUnique(x + 2 * y + 4 * z, 2, y + 2 * z, x);
    DivModUnique(y + 2 * z, 2, z, y);
  }

  lemma WithBitFacts(b: Byte, i: nat, on: bool)
    requires 5 <= i <= 7
    ensures var r := WithBit(b, i, on);
            && Bit(r, i) == (if on then 1 else 0) && r % 32 == b % 32
            && forall j | 5 <= j <= 7 && j != i :: Bit(r, j) == Bit(b, j)
  {
    hide Bit;
    Decompose(b);
    var lo, x, y, z, v := b % 32, Bit(b, 5), Bit(b, 6), Bit(b, 7), if on then 1 else 0;
    if i == 5 {
      Compose(lo, v, y, z);
    } else if i == 6 {
      Compose(lo, x, v, z);
    } else {
      Compose(lo, x, y, v);
    }
  }

  lemma FlagBitsMakeByte(h: Byte, d: Byte)
    requires h % 32 == d % 32 && Bit(h, 5) == Bit(d, 5) && Bit(h, 6) == Bit(d, 6) && Bit(h, 7) == Bit(d, 7)
    ensures h == d
  {
    Decompose(h);
    Decompose(d);
  }

  /** A decimal number is not the name of a protocol. */
  lemma NumberIsNoName(n: nat, name: string)
    requires |name| > 0 && 'a' <= name[0] <= 'z'
    ensures !SameWord(Dec(n), name)
  {
    NumeralRoundTrip(n, 10);
    assert 0 <= CharValue(Dec(n)[0]) < 10;
  }

  lemma ProtoReads(b: Byte)
    ensures ProtoValue(Dec(b)) == b
  {
    hide SameWord, Atou, Dec;
    NumberIsNoName(b, "icmp");
    NumberIsNoName(b, "udp");
    NumberIsNoName(b, "tcp");
    Atou8(b);
  }

  // --- the TCP flags -----------------------------------------------------------------------------

  /** The letters are different, and none is a capital. */
  lemma LettersApart(i: nat, j: nat)
    requires i < 8 && j < 8
    ensures Letter(i) == Letter(j) <==> i == j
    ensures Capital(j) != Letter(i)
  {
  }

  lemma OneMoreLetter(b: Byte, i: nat, c: char)
    requires i < 8
    ensures c in FlagLetters(b, i) <==> (Bit(b, i) == 1 && c == Letter(i)) || c in FlagLetters(b, i + 1)
  {
    hide Bit, Letter;
    var one := if Bit(b, i) == 1 then [Letter(i)] else "";
    assert FlagLetters(b, i) == one + FlagLetters(b, i + 1);
  }

  lemma {:induction false} LettersOfFlags(b: Byte, i: nat, j: nat)
    requires i <= 8 && j < 8
    ensures Letter(j) in FlagLetters(b, i) <==> i <= j && Bit(b, j) == 1
    ensures Capital(j) !in FlagLetters(b, i)
    decreases 8 - i
  {
    hide Bit, Letter, Capital;
    if i < 8 {
      LettersApart(i, j);
      LettersOfFlags(b, i + 1, j);
      hide FlagLetters;
      OneMoreLetter(b, i, Letter(j));
      OneMoreLetter(b, i, Capital(j));
    }
  }

  lemma LetterPerBit(b: Byte, j: nat)
    requires j < 8
    ensures LetterBit(FlagLetters(b, 0), j) == Bit(b, j)
  {
    hide FlagLetters, Letter, Capital;
    LettersOfFlags(b, 0, j);
  }

  lemma LowBits(b: nat, w: nat)
    requires w > 0
    ensures b % (2 * w) == b % w + w * (b / w % 2)
  {
    DivModFact(b, w);
    var q := b / w;
    DivModFact(q, 2);
    MulAssoc(q / 2, 2, w);
    MulDistrib(q / 2 * 2, q % 2, w);
    MulCommute(q % 2, w);
    assert q % 2 == 0 || q % 2 == 1;
    DivModUnique(b, 2 * w, q / 2, b % w + w * (q % 2));
  }

  lemma BitsSum(b: Byte)
    ensures b == Bit(b, 0) + 2 * Bit(b, 1) + 4 * Bit(b, 2) + 8 * Bit(b, 3) +
                 16 * Bit(b, 4) + 32 * Bit(b, 5) + 64 * Bit(b, 6) + 128 * Bit(b, 7)
  {
    Decompose(b);
    LowBits(b, 2);
    LowBits(b, 4);
    LowBits(b, 8);
    LowBits(b, 16);
    assert b % 2 == Bit(b, 0);
  }

  lemma FlagsRead(b: Byte)
    ensures FlagByte(FlagLetters(b, 0)) == b
  {
    hide FlagLetters, Bit, LetterBit;
    var v := FlagLetters(b, 0);
    LetterPerBit(b, 0);
    LetterPerBit(b, 1);
    LetterPerBit(b, 2);
    LetterPerBit(b, 3);
    LetterPerBit(b, 4);
    LetterPerBit(b, 5);
    LetterPerBit(b, 6);
    LetterPerBit(b, 7);
    BitsSum(b);
  }

  // --- hexadecimal data -------------------------------------------------------------------------------

  lemma HexDigitReads(v: nat)
    requires v < 16
    ensures HexVal(DigitChar(v)) == v
  {
    CharValueOfDigit(v);
  }

  lemma OneDigit(v: nat)
    requires v < 16
    ensures Hex(v, 1) == [DigitChar(v)]
  {
    hide DigitChar;
    assert Hex(v, 1) == Hex(v / 16, 0) + [DigitChar(v % 16)];
  }

  lemma TwoDigits(b: Byte)
    ensures Hex(b, 2) == [DigitChar(b / 16), DigitChar(b % 16)]
  {
    var hi: nat, lo: nat := b / 16, b % 16;
    OneDigit(hi);
    hide DigitChar;
    assert Hex(b, 2) == Hex(hi, 1) + [DigitChar(lo)];
  }

  lemma DecodeLast(w: string, hi: nat, lo: nat, d: seq<Byte>)
    requires |w| >= 2 && |w| % 2 == 0 && DecodeHex(w[..|w| - 2]) == Some(d)
    requires HexVal(w[|w| - 2]) == hi && HexVal(w[|w| - 1]) == lo
    ensures DecodeHex(w) == Some(d + [16 * hi + lo])
  {
    hide HexVal;
  }

  lemma DecodeSnoc(v: string, hi: nat, lo: nat, d: seq<Byte>)
    requires |v| % 2 == 0 && DecodeHex(v) == Some(d) && hi < 16 && lo < 16
    ensures DecodeHex(v + [DigitChar(hi), DigitChar(lo)]) == Some(d + [16 * hi + lo])
  {
    hide HexVal, DigitChar, CharValue, DecodeHex;
    HexDigitReads(hi);
    HexDigitReads(lo);
    var w := v + [DigitChar(hi), DigitChar(lo)];
    assert w[..|w| - 2] == v;
    DecodeLast(w, hi, lo, d);
  }

  lemma NoHex()
    ensures DecodeHex("") == Some([])
  {
  }

  lemma {:induction false} HexReads(d: seq<Byte>)
    ensures |HexText(d)| == 2 * |d| && DecodeHex(HexText(d)) == Some(d)
  {
    hide Hex, DigitChar, DecodeHex;
    if |d| > 0 {
      var b, rest := d[|d| - 1], d[..|d| - 1];
      HexReads(rest);
      TwoDigits(b);
      DecodeSnoc(HexText(rest), b / 16, b % 16, rest);
      assert rest + [b] == d;
    } else {
      NoHex();
    }
  }

  // --- whole headers -------------------------------------------------------------------------------------

  /** The first i fields of an IP header are those of d; nothing has touched the fragment
      field before its turn. */
  predicate IpDone(h: seq<Byte>, flags: set<nat>, d: seq<Byte>, i: nat)
    requires |d| == 20
  {
    && |h| == 20
    && (i == 1 ==> Low4(h[0]) == Low4(d[0])) && (i >= 2 ==> h[0] == d[0])
    && (i >= 3 ==> h[1] == d[1]) && (i >= 4 ==> h[2] == d[2] && h[3] == d[3])
    && (i >= 5 ==> h[4] == d[4] && h[5] == d[5])
    && (i <= 5 ==> h[6] == 0 && h[7] == 0) && (i >= 6 ==> h[6] % 32 == d[6] % 32 && h[7] == d[7])
    && (i >= 7 ==> Bit(h[6], 5) == Bit(d[6], 5)) && (i >= 8 ==> Bit(h[6], 6) == Bit(d[6], 6))
    && (i >= 9 ==> Bit(h[6], 7) == Bit(d[6], 7))
    && (i >= 10 ==> h[8] == d[8]) && (i >= 11 ==> h[9] == d[9]) && (i >= 12 ==> h[10] == d[10] && h[11] == d[11])
    && (i >= 13 ==> h[12..16] == d[12..16]) && (i >= 14 ==> h[16..20] == d[16..20])
    && (i >= 1 ==> TAKE_IP_HDRLEN in flags) && (i >= 2 ==> TAKE_IP_VERSION in flags)
    && (i >= 4 ==> TAKE_IP_TOTLEN in flags) && (i >= 11 ==> TAKE_IP_PROTOCOL in flags)
    && (i >= 12 ==> TAKE_IP_CKSUM in flags)
  }

  lemma IpDoneCopies(h: seq<Byte>, flags: set<nat>, d: seq<Byte>)
    requires |d| == 20 && IpDone(h, flags, d, 14)
    ensures h == d
    ensures {TAKE_IP_HDRLEN, TAKE_IP_VERSION, TAKE_IP_TOTLEN, TAKE_IP_PROTOCOL, TAKE_IP_CKSUM} <= flags
  {
    FlagBitsMakeByte(h[6], d[6]);
    hide Bit, Low4;
    assert h == h[..12] + h[12..16] + h[16..20];
    assert d == d[..12] + d[12..16] + d[16..20];
  }

  lemma FragOffReads(d: seq<Byte>)
    requires |d| == 20
    ensures var w := Atou(Dec(Get16(d, 6) % 0x2000 * 8)) / 8 % 0x1_0000; w / 256 == d[6] % 32 && w % 256 == d[7]
  {
    hide Atou, Dec;
    var n := Get16(d, 6) % 0x2000;
    AtouDec(n * 8);
    var hi: nat, lo: nat := d[6], d[7];
    DivModFact(hi, 32);
    DivModUnique(256 * hi + lo, 0x2000, hi / 32, 256 * (hi % 32) + lo);
  }

  lemma OrNothing(b: Byte)
    ensures OrHigh3(0, b) == b
  {
    Decompose(b);
  }

  function Copy2(h: seq<Byte>, d: seq<Byte>, i: nat): (r: seq<Byte>)
    requires i + 1 < |h| == |d|
    ensures |r| == |h|
  {
    h[i := d[i]][i + 1 := d[i + 1]]
  }

  function Copy4(h: seq<Byte>, d: seq<Byte>, i: nat): (r: seq<Byte>)
    requires i + 3 < |h| == |d|
    ensures |r| == |h|
  {
    h[..i] + d[i..i + 4] + h[i + 4..]
  }

  /** The header h with a field of d. */
  function Copied(f: Field, h: seq<Byte>, d: seq<Byte>): (r: seq<Byte>)
    requires |h| == |d| && |h| >= HomeSize(f) > 0
    ensures |r| == |h|
  {
    match f
    case Ihl => h[0 := PutLow4(h[0], Low4(d[0]))]
    case Ver => h[0 := PutHigh4(h[0], High4(d[0]))]
    case Tos => h[1 := d[1]]
    case TotLen => Copy2(h, d, 2)
    case Id => Copy2(h, d, 4)
    case FragOff => h[6 := d[6] % 32][7 := d[7]]
    case Mf => h[6 := WithBit(h[6], 5, Bit(d[6], 5) != 0)]
    case Df => h[6 := WithBit(h[6], 6, Bit(d[6], 6) != 0)]
    case Rf => h[6 := WithBit(h[6], 7, Bit(d[6], 7) != 0)]
    case Ttl => h[8 := d[8]]
    case Proto => h[9 := d[9]]
    case IpCksum => Copy2(h, d, 10)
    case SAddr => Copy4(h, d, 12)
    case DAddr => Copy4(h, d, 16)
    case SPort => Copy2(h, d, 0)
    case DPort => Copy2(h, d, 2)
    case UdpLen => Copy2(h, d, 4)
    case UdpCksum => Copy2(h, d, 6)
    case SeqNum => Copy4(h, d, 4)
    case Ack => Copy4(h, d, 8)
    case X2 => h[12 := PutLow4(h[12], Low4(d[12]))]
    case Off => h[12 := PutHigh4(h[12], High4(d[12]))]
    case TcpFlags => h[13 := d[13]]
    case Win => Copy2(h, d, 14)
    case TcpCksum => Copy2(h, d, 16)
    case Urp => Copy2(h, d, 18)
  }

  /** What is printed for a field and read into another header copies the field; into an
      untouched fragment field, as far as that is concerned. */
  predicate Reads(o: Order, f: Field, h: seq<Byte>, d: seq<Byte>)
    requires |h| == |d| && |h| >= HomeSize(f) > 0
  {
    (f == FragOff ==> h[6] == 0 && h[7] == 0) ==> Written(o, f, h, Value(f, d)) == Some(Copied(f, h, d))
  }

  /** The forms of the fields: four bits, one bit, a byte or what fills up to one, and 16
      or 32 bits. */
  datatype Form = Nibble | Flag | Octet | Word | Long | Text

  function FormOf(f: Field): Form {
    match f
    case Ihl | Ver | X2 | Off => Nibble
    case Mf | Df | Rf => Flag
    case Tos | Ttl | Proto | TcpFlags | FragOff => Octet
    case SeqNum | Ack | SAddr | DAddr => Long
    case HexData | Uint32 | Uint24 | Uint16 | Uint8 => Text
    case _ => Word
  }

  lemma HeaderForms(f: Field)
    requires HomeSize(f) > 0
    ensures FormOf(f) != Text && (FormOf(f) != Word ==> HomeSize(f) == 20)
  {
  }

  lemma NibblesRead(o: Order, f: Field, h: seq<Byte>, d: seq<Byte>)
    requires |h| == |d| == 20 && FormOf(f) == Nibble
    ensures Reads(o, f, h, d)
  {
    hide Atou, Dec, Hex;
    Atou4(Low4(d[0]));
    Atou4(High4(d[0]));
    Atou4(Low4(d[12]));
    Atou4(High4(d[12]));
  }

  lemma BytesRead(o: Order, f: Field, h: seq<Byte>, d: seq<Byte>)
    requires |h| == |d| == 20 && FormOf(f) == Octet
    ensures Reads(o, f, h, d)
  {
    hide Atou, Dec, Hex, FlagByte, FlagLetters, ProtoValue;
    Atou8(d[1]);
    Atou8(d[8]);
    ProtoReads(d[9]);
    FlagsRead(d[13]);
    FragOffReads(d);
    OrNothing(d[6] % 32);
    OrNothing(d[7]);
  }

  lemma BitsRead(o: Order, f: Field, h: seq<Byte>, d: seq<Byte>)
    requires |h| == |d| == 20 && FormOf(f) == Flag
    ensures Reads(o, f, h, d)
  {
    hide Atou, Dec, Hex, Bit, WithBit;
    AtouDec(Bit(d[6], 5));
    AtouDec(Bit(d[6], 6));
    AtouDec(Bit(d[6], 7));
  }

  /** Where a 16-bit field stands. */
  function WordAt(f: Field): nat {
    match f
    case DPort | TotLen => 2 case Id | UdpLen => 4 case UdpCksum => 6 case IpCksum => 10 case Win => 14
    case TcpCksum => 16 case Urp => 18 case _ => 0
  }

  /** The 16-bit fields are printed in one of two ways. */
  lemma WordIsPrinted(f: Field, d: seq<Byte>)
    requires |d| >= HomeSize(f) && FormOf(f) == Word
    ensures var w := Get16(d, WordAt(f)); Value(f, d) == Dec(w) || Value(f, d) == "0x" + Hex(w, 4)
  {
    hide Dec, Hex, Get16, Get32;
  }

  lemma WordIsWritten(o: Order, f: Field, h: seq<Byte>, v: string)
    requires |h| >= HomeSize(f) && FormOf(f) == Word
    ensures Written(o, f, h, v) == Some(Put16(h, WordAt(f), Atou(v) % 0x1_0000))
  {
    hide Atou, Put16, Resolve, Put32, KeptFragBits, OrHigh3, FlagByte, WithBit, PutLow4, PutHigh4, DecodeHex,
      ProtoValue;
  }

  lemma WordIsCopied(f: Field, h: seq<Byte>, d: seq<Byte>)
    requires |h| == |d| && |h| >= HomeSize(f) && FormOf(f) == Word
    ensures WordAt(f) + 1 < |h| && Copied(f, h, d) == Copy2(h, d, WordAt(f))
  {
    hide Copy2, Copy4, WithBit, PutLow4, PutHigh4, Bit;
  }

  lemma WordsRead(o: Order, f: Field, h: seq<Byte>, d: seq<Byte>)
    requires |h| == |d| && |h| >= HomeSize(f) && FormOf(f) == Word
    ensures Reads(o, f, h, d)
  {
    hide Atou, Dec, Hex, Put16, Get16, Value, Written, Copied, FormOf, WordAt;
    WordIsPrinted(f, d);
    WordIsWritten(o, f, h, Value(f, d));
    WordIsCopied(f, h, d);
    Copy16(h, d, WordAt(f));
    Atou16(Get16(d, WordAt(f)));
  }

  lemma Copy4Is(h: seq<Byte>, d: seq<Byte>, i: nat)
    requires i + 3 < |h| == |d|
    ensures Copy4(h, d, i) == h[i := d[i]][i + 1 := d[i + 1]][i + 2 := d[i + 2]][i + 3 := d[i + 3]]
  {
  }

  lemma SeqNumReads(o: Order, h: seq<Byte>, d: seq<Byte>)
    requires |h| == |d| == 20
    ensures Reads(o, SeqNum, h, d)
  {
    hide Atou, Dec, Hex, Get32, Put32, Resolve, QuadText, Put16, Get16,
      KeptFragBits, OrHigh3, FlagByte, WithBit, PutLow4, PutHigh4, DecodeHex, ProtoValue, FlagLetters, HexText, Bit,
      TakenBy, Copy2, Copy4;
    AtouDec(Get32(d, 4));
    Copy32(h, d, 4);
    Copy4Is(h, d, 4);
  }

  lemma AckReads(o: Order, h: seq<Byte>, d: seq<Byte>)
    requires |h| == |d| == 20
    ensures Reads(o, Ack, h, d)
  {
    hide Atou, Dec, Hex, Get32, Put32, Resolve, QuadText, Put16, Get16,
      KeptFragBits, OrHigh3, FlagByte, WithBit, PutLow4, PutHigh4, DecodeHex, ProtoValue, FlagLetters, HexText, Bit,
      TakenBy, Copy2, Copy4;
    AtouDec(Get32(d, 8));
    Copy32(h, d, 8);
    Copy4Is(h, d, 8);
  }

  lemma SourceReads(o: Order, h: seq<Byte>, d: seq<Byte>)
    requires |h| == |d| == 20
    ensures Reads(o, SAddr, h, d)
  {
    hide Atou, Dec, Hex, Get32, Put32, Resolve, QuadText, Put16, Get16,
      KeptFragBits, OrHigh3, FlagByte, WithBit, PutLow4, PutHigh4, DecodeHex, ProtoValue, FlagLetters, HexText, Bit,
      TakenBy, Copy2;
    ResolveQuad(d[12..16]);
  }

  lemma DestinationReads(o: Order, h: seq<Byte>, d: seq<Byte>)
    requires |h| == |d| == 20
    ensures Reads(o, DAddr, h, d)
  {
    hide Atou, Dec, Hex, Get32, Put32, Resolve, QuadText, Put16, Get16,
      KeptFragBits, OrHigh3, FlagByte, WithBit, PutLow4, PutHigh4, DecodeHex, ProtoValue, FlagLetters, HexText, Bit,
      TakenBy, Copy2;
    ResolveQuad(d[16..20]);
  }

  lemma LongsRead(o: Order, f: Field, h: seq<Byte>, d: seq<Byte>)
    requires |h| == |d| == 20 && FormOf(f) == Long
    ensures Reads(o, f, h, d)
  {
    hide Reads;
    match f {
      case SeqNum => SeqNumReads(o, h, d);
      case Ack => AckReads(o, h, d);
      case SAddr => SourceReads(o, h, d);
      case DAddr => DestinationReads(o, h, d);
    }
  }


  /** Every printed header field reads back. */
  lemma FieldReads(o: Order, f: Field, h: seq<Byte>, d: seq<Byte>)
    requires |h| == |d| && |h| >= HomeSize(f) > 0 && (HomeSize(f) == 20 ==> |h| == 20)
    ensures Reads(o, f, h, d)
  {
    HeaderForms(f);
    hide Reads, FormOf, HomeSize;
    match FormOf(f) {
      case Word => WordsRead(o, f, h, d);
      case Nibble => NibblesRead(o, f, h, d);
      case Flag => BitsRead(o, f, h, d);
      case Long => LongsRead(o, f, h, d);
      case Octet => BytesRead(o, f, h, d);
    }
  }

  lemma IpStep(h: seq<Byte>, flags: set<nat>, d: seq<Byte>, i: nat)
    requires |d| == 20 && i < 14 && IpDone(h, flags, d, i)
    ensures var f := Printed(Ip)[i]; IpDone(Copied(f, h, d), flags + TakenBy(f), d, i + 1)
  {
    hide Bit, WithBit;
    var b, bits := h[6], d[6];
    WithBitFacts(b, 5, Bit(bits, 5) != 0);
    WithBitFacts(b, 6, Bit(bits, 6) != 0);
    WithBitFacts(b, 7, Bit(bits, 7) != 0);
  }

  predicate UdpDone(h: seq<Byte>, flags: set<nat>, d: seq<Byte>, i: nat)
    requires |d| == 8
  {
    && |h| == 8
    && (i >= 1 ==> h[0] == d[0] && h[1] == d[1]) && (i >= 2 ==> h[2] == d[2] && h[3] == d[3])
    && (i >= 3 ==> h[4] == d[4] && h[5] == d[5] && TAKE_UDP_LEN in flags)
    && (i >= 4 ==> h[6] == d[6] && h[7] == d[7] && TAKE_UDP_CKSUM in flags)
  }

  lemma UdpStep(h: seq<Byte>, flags: set<nat>, d: seq<Byte>, i: nat)
    requires |d| == 8 && i < 4 && UdpDone(h, flags, d, i)
    ensures var f := Printed(Udp)[i]; UdpDone(Copied(f, h, d), flags + TakenBy(f), d, i + 1)
  {
  }

  predicate TcpDone(h: seq<Byte>, flags: set<nat>, d: seq<Byte>, i: nat)
    requires |d| == 20
  {
    && |h| == 20
    && (i >= 1 ==> h[0] == d[0] && h[1] == d[1]) && (i >= 2 ==> h[2] == d[2] && h[3] == d[3])
    && (i >= 3 ==> h[4..8] == d[4..8]) && (i >= 4 ==> h[8..12] == d[8..12])
    && (i >= 5 ==> Low4(h[12]) == Low4(d[12])) && (i >= 6 ==> h[12] == d[12] && TAKE_TCP_HDRLEN in flags)
    && (i >= 7 ==> h[13] == d[13]) && (i >= 8 ==> h[14] == d[14] && h[15] == d[15])
    && (i >= 9 ==> h[16] == d[16] && h[17] == d[17] && TAKE_TCP_CKSUM in flags)
    && (i >= 10 ==> h[18] == d[18] && h[19] == d[19])
  }

  lemma TcpWordStep(h: seq<Byte>, flags: set<nat>, d: seq<Byte>, i: nat)
    requires |d| == 20 && i < 10 && TcpDone(h, flags, d, i) && (i < 2 || i > 6)
    ensures var f := Printed(Tcp)[i]; TcpDone(Copied(f, h, d), flags + TakenBy(f), d, i + 1)
  {
    hide PutLow4, PutHigh4, WithBit, Low4, Copy4;
  }

  lemma TcpLongStep(h: seq<Byte>, flags: set<nat>, d: seq<Byte>, i: nat)
    requires |d| == 20 && i < 10 && TcpDone(h, flags, d, i) && 2 <= i <= 3
    ensures var f := Printed(Tcp)[i]; TcpDone(Copied(f, h, d), flags + TakenBy(f), d, i + 1)
  {
    hide PutLow4, PutHigh4, WithBit, Low4, Copy2;
  }

  lemma TcpByteStep(h: seq<Byte>, flags: set<nat>, d: seq<Byte>, i: nat)
    requires |d| == 20 && i < 10 && TcpDone(h, flags, d, i) && 4 <= i <= 6
    ensures var f := Printed(Tcp)[i]; TcpDone(Copied(f, h, d), flags + TakenBy(f), d, i + 1)
  {
    hide WithBit, Copy2, Copy4;
  }

  lemma TcpStep(h: seq<Byte>, flags: set<nat>, d: seq<Byte>, i: nat)
    requires |d| == 20 && i < 10 && TcpDone(h, flags, d, i)
    ensures var f := Printed(Tcp)[i]; TcpDone(Copied(f, h, d), flags + TakenBy(f), d, i + 1)
  {
    hide TcpDone, Copied, TakenBy;
    if i < 2 || i > 6 {
      TcpWordStep(h, flags, d, i);
    } else if i < 4 {
      TcpLongStep(h, flags, d, i);
    } else {
      TcpByteStep(h, flags, d, i);
    }
  }

  /** The first i fields printed of a header of kind k are in h. */
  predicate FieldsDone(k: Kind, h: seq<Byte>, flags: set<nat>, d: seq<Byte>, i: nat)
    requires |d| == HeaderSize(k) && (k == Ip || k == Udp || k == Tcp)
  {
    if k == Ip then IpDone(h, flags, d, i) else if k == Udp then UdpDone(h, flags, d, i) else TcpDone(h, flags, d, i)
  }

  /** The flags of a header all of whose fields were named. */
  function AllTaken(k: Kind): set<nat> {
    if k == Ip then {TAKE_IP_HDRLEN, TAKE_IP_VERSION, TAKE_IP_TOTLEN, TAKE_IP_PROTOCOL, TAKE_IP_CKSUM}
    else if k == Udp then {TAKE_UDP_LEN, TAKE_UDP_CKSUM}
    else if k == Tcp then {TAKE_TCP_HDRLEN, TAKE_TCP_CKSUM}
    else {}
  }

  lemma TcpDoneCopies(h: seq<Byte>, flags: set<nat>, d: seq<Byte>)
    requires |d| == 20 && TcpDone(h, flags, d, 10)
    ensures h == d
  {
    hide Low4;
    assert h == h[..4] + h[4..8] + h[8..12] + h[12..];
    assert d == d[..4] + d[4..8] + d[8..12] + d[12..];
  }

  lemma FieldsDoneCopy(k: Kind, h: seq<Byte>, flags: set<nat>, d: seq<Byte>)
    requires |d| == HeaderSize(k) && (k == Ip || k == Udp || k == Tcp)
    requires FieldsDone(k, h, flags, d, |Printed(k)|)
    ensures h == d && AllTaken(k) <= flags
  {
    if k == Ip {
      IpDoneCopies(h, flags, d);
    } else if k == Tcp {
      TcpDoneCopies(h, flags, d);
    }
  }

  lemma FragmentFieldIsFresh(h: seq<Byte>, flags: set<nat>, d: seq<Byte>, i: nat)
    requires |d| == 20 && IpDone(h, flags, d, i) && i < 14
    ensures |h| == 20 && (Printed(Ip)[i] == FragOff ==> h[6] == 0 && h[7] == 0)
  {
  }

  /** The setter of the i-th printed field takes the header one field further. */
  lemma FieldStep(o: Order, k: Kind, h: seq<Byte>, flags: set<nat>, d: seq<Byte>, i: nat) returns (r: seq<Byte>)
    requires |d| == HeaderSize(k) && (k == Ip || k == Udp || k == Tcp)
    requires i < |Printed(k)| && |h| == |d| && FieldsDone(k, h, flags, d, i)
    ensures var f := Printed(k)[i];
            && HomeSize(f) <= |d| && Written(o, f, h, Value(f, d)) == Some(r) && |r| == |d|
            && FieldsDone(k, r, flags + TakenBy(f), d, i + 1)
  {
    hide Written, Value, Copied, IpDone, UdpDone, TcpDone;
    var f := Printed(k)[i];
    assert 0 < HomeSize(f) <= |d| && (HomeSize(f) == 20 ==> |d| == 20);
    FieldReads(o, f, h, d);
    r := Copied(f, h, d);
    if k == Ip {
      FragmentFieldIsFresh(h, flags, d, i);
      IpStep(h, flags, d, i);
    } else if k == Udp {
      UdpStep(h, flags, d, i);
    } else {
      TcpStep(h, flags, d, i);
    }
  }
}
