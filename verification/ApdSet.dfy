// What the settings of a packet description do: which bytes of a header a name changes, and
// which fields it keeps the compiler from filling in, with names, places and letters
// written out.
module ApdSet {
  import opened Arith
  import opened Checksum
  import opened Ars
  import opened Numeral
  import opened Options
  import opened ArsWire
  import opened ApdNumber
  import opened ApdField
  import ApdCopy

  // --- words ------------------------------------------------------------------------------------

  predicate SameLetter(a: char, b: char) {
    a == b || ('A' <= a <= 'Z' && b as int == a as int + 32) || ('A' <= b <= 'Z' && a as int == b as int + 32)
  }

  /** s is the word w, in capitals or not. */
  predicate Is(s: string, w: string) {
    |s| == |w| && forall i | 0 <= i < |s| :: SameLetter(s[i], w[i])
  }

  lemma {:induction false} SameWordIs(a: string, b: string)
    ensures SameWord(a, b) <==> Is(a, b)
  {
    if |a| == |b| && |a| > 0 {
      SameWordIs(a[1..], b[1..]);
      assert forall i | 0 < i < |a| :: SameLetter(a[i], b[i]) <==> SameLetter(a[1..][i - 1], b[1..][i - 1]);
    }
  }

  lemma {:induction false} SameForBoth(a: string, b: string, w: string)
    requires SameWord(a, b)
    ensures SameWord(a, w) <==> SameWord(b, w)
  {
    if |a| > 0 && |w| > 0 {
      SameForBoth(a[1..], b[1..], w[1..]);
    }
  }

  /** The fields that can be set by name. */
  function Fields(k: Kind): seq<Field> {
    if k == Data then [HexData, Uint32, Uint24, Uint16, Uint8] else Printed(k)
  }

  lemma IpFieldOfBoth(a: string, b: string)
    requires SameWord(a, b)
    ensures IpField(a) == IpField(b)
  {
    hide SameWord;
    SameForBoth(a, b, "saddr");
    SameForBoth(a, b, "daddr");
    SameForBoth(a, b, "ihl");
    SameForBoth(a, b, "ver");
    SameForBoth(a, b, "tos");
    SameForBoth(a, b, "totlen");
    SameForBoth(a, b, "id");
    SameForBoth(a, b, "fragoff");
    SameForBoth(a, b, "mf");
    SameForBoth(a, b, "df");
    SameForBoth(a, b, "rf");
    SameForBoth(a, b, "ttl");
    SameForBoth(a, b, "proto");
    SameForBoth(a, b, "cksum");
  }

  lemma UdpFieldOfBoth(a: string, b: string)
    requires SameWord(a, b)
    ensures UdpField(a) == UdpField(b)
  {
    hide SameWord;
    SameForBoth(a, b, "sport");
    SameForBoth(a, b, "dport");
    SameForBoth(a, b, "len");
    SameForBoth(a, b, "cksum");
  }

  lemma TcpFieldOfBoth(a: string, b: string)
    requires SameWord(a, b)
    ensures TcpField(a) == TcpField(b)
  {
    hide SameWord;
    SameForBoth(a, b, "sport");
    SameForBoth(a, b, "dport");
    SameForBoth(a, b, "seq");
    SameForBoth(a, b, "ack");
    SameForBoth(a, b, "x2");
    SameForBoth(a, b, "off");
    SameForBoth(a, b, "flags");
    SameForBoth(a, b, "win");
    SameForBoth(a, b, "cksum");
    SameForBoth(a, b, "urp");
  }

  lemma DataNames(name: string)
    ensures DataField(name) ==
            if Is(name, "hex") then Some(HexData) else if Is(name, "uint32") then Some(Uint32)
            else if Is(name, "uint24") then Some(Uint24) else if Is(name, "uint16") then Some(Uint16)
            else if Is(name, "uint8") then Some(Uint8) else None
  {
    hide SameWord, Is;
    SameWordIs(name, "hex");
    SameWordIs(name, "uint32");
    SameWordIs(name, "uint24");
    SameWordIs(name, "uint16");
    SameWordIs(name, "uint8");
  }

  /** The names of the numbers in data are different. */
  lemma DataNamesDiffer(name: string)
    ensures Is(name, "hex") || Is(name, "uint8") ==> !Is(name, "uint32") && !Is(name, "uint24") && !Is(name, "uint16")
    ensures Is(name, "hex") ==> !Is(name, "uint8")
    ensures Is(name, "uint32") ==> !Is(name, "uint24") && !Is(name, "uint16")
    ensures Is(name, "uint24") ==> !Is(name, "uint16")
  {
    if |name| == 6 {
      assert Is(name, "uint32") ==> name[4] == '3';
      assert Is(name, "uint24") ==> name[4] == '2';
      assert Is(name, "uint16") ==> name[4] == '1';
    }
  }

  lemma BothSelect(k: Kind, a: string, b: string)
    requires SameWord(a, b) && k != Data
    ensures FieldOf(k, a) == FieldOf(k, b)
  {
    hide IpField, UdpField, TcpField, DataField, SameWord;
    IpFieldOfBoth(a, b);
    UdpFieldOfBoth(a, b);
    TcpFieldOfBoth(a, b);
  }

  lemma IpSelected(name: string)
    requires IpField(name).Some?
    ensures IpField(name).value in Printed(Ip) && SameWord(name, Name(IpField(name).value))
  {
    hide SameWord, TcpField, UdpField;
  }

  lemma UdpSelected(name: string)
    requires UdpField(name).Some?
    ensures UdpField(name).value in Printed(Udp) && SameWord(name, Name(UdpField(name).value))
  {
    hide SameWord;
  }

  lemma TcpSelected(name: string)
    requires TcpField(name).Some?
    ensures TcpField(name).value in Printed(Tcp) && SameWord(name, Name(TcpField(name).value))
  {
    hide SameWord;
  }

  lemma SelectedIsNamed(k: Kind, name: string)
    requires FieldOf(k, name).Some? && k != Data
    ensures FieldOf(k, name).value in Fields(k) && SameWord(name, Name(FieldOf(k, name).value))
  {
    hide SameWord, IpField, UdpField, TcpField, DataField, Name;
    if k == Ip {
      IpSelected(name);
    } else if k == Udp {
      UdpSelected(name);
    } else {
      TcpSelected(name);
    }
  }

  /** A field is set by its name and by no other. */
  lemma NameSelects(k: Kind, name: string, f: Field)
    requires f in Fields(k)
    ensures FieldOf(k, name) == Some(f) <==> Is(name, Name(f))
  {
    hide IpField, UdpField, TcpField, DataField, SameWord, Is;
    SameWordIs(name, Name(f));
    if k == Data {
      DataNames(name);
      DataNamesDiffer(name);
    } else {
      NamesAreKnown(k, f);
      if SameWord(name, Name(f)) {
        BothSelect(k, name, Name(f));
      }
      if FieldOf(k, name).Some? {
        SelectedIsNamed(k, name);
      }
    }
  }

  /** The layers that have a field, and what their setters call it. */
  predicate HasField(k: Kind, f: Field) {
    match f
    case SPort | DPort => k == Udp || k == Tcp
    case UdpLen | UdpCksum => k == Udp
    case SeqNum | Ack | X2 | Off | TcpFlags | Win | TcpCksum | Urp => k == Tcp
    case HexData | Uint32 | Uint24 | Uint16 | Uint8 => k == Data
    case _ => k == Ip
  }

  function Called(f: Field): string {
    match f
    case SAddr => "saddr" case DAddr => "daddr" case Ihl => "ihl" case Ver => "ver" case Tos => "tos"
    case TotLen => "totlen" case Id => "id" case FragOff => "fragoff" case Mf => "mf" case Df => "df" case Rf => "rf"
    case Ttl => "ttl" case Proto => "proto" case IpCksum => "cksum" case SPort => "sport" case DPort => "dport"
    case UdpLen => "len" case UdpCksum => "cksum" case SeqNum => "seq" case Ack => "ack" case X2 => "x2"
    case Off => "off" case TcpFlags => "flags" case Win => "win" case TcpCksum => "cksum" case Urp => "urp"
    case HexData => "hex" case Uint32 => "uint32" case Uint24 => "uint24" case Uint16 => "uint16"
    case Uint8 => "uint8"
  }

  predicate Calls(k: Kind, name: string, f: Field) {
    HasField(k, f) && Is(name, Called(f))
  }

  lemma NamedAsCalled(f: Field)
    ensures Name(f) == Called(f)
  {
  }

  lemma ListedIp(f: Field)
    ensures f in Printed(Ip) ==> HasField(Ip, f)
  {
  }

  lemma AllIpListed(f: Field)
    requires HasField(Ip, f)
    ensures f in Printed(Ip)
  {
  }

  lemma ListedUdp(f: Field)
    ensures HasField(Udp, f) <==> f in Printed(Udp)
  {
  }

  lemma ListedTcp(f: Field)
    ensures HasField(Tcp, f) <==> f in Printed(Tcp)
  {
  }

  lemma ListedFields(k: Kind, f: Field)
    ensures HasField(k, f) <==> f in Fields(k)
  {
    if k == Ip {
      ListedIp(f);
      if HasField(Ip, f) {
        AllIpListed(f);
      }
    } else if k == Udp {
      ListedUdp(f);
    } else if k == Tcp {
      ListedTcp(f);
    }
  }

  lemma FieldIsListed(k: Kind, name: string)
    requires FieldOf(k, name).Some?
    ensures FieldOf(k, name).value in Fields(k)
  {
    hide SameWord, IpField, UdpField, TcpField, Name;
    if k != Data {
      SelectedIsNamed(k, name);
    }
  }

  /** A setter knows the fields of its layer by these names. */
  lemma NamesAre(k: Kind, name: string, f: Field)
    ensures FieldOf(k, name) == Some(f) <==> Calls(k, name, f)
  {
    hide Is, FieldOf, Name, Called, HasField, Fields, SameWord;
    NamedAsCalled(f);
    ListedFields(k, f);
    if f in Fields(k) {
      NameSelects(k, name, f);
    } else if FieldOf(k, name) == Some(f) {
      FieldIsListed(k, name);
    }
  }

  // --- what a setting writes --------------------------------------------------------------------

  /** A byte with the bits of w, and those of the upper three of was. */
  predicate Joined(was: Byte, w: nat, b: Byte) {
    && b % 32 == w % 32
    && (b / 32 % 2 == 1 <==> was / 32 % 2 == 1 || w / 32 % 2 == 1)
    && (b / 64 % 2 == 1 <==> was / 64 % 2 == 1 || w / 64 % 2 == 1)
    && (b / 128 % 2 == 1 <==> was / 128 % 2 == 1 || w / 128 % 2 == 1)
  }

  function One(on: bool): Byte {
    if on then 1 else 0
  }

  /** The letter for a TCP flag, in capitals or not. */
  function Given(v: string, small: char, capital: char): Byte {
    if small in v || capital in v then 1 else 0
  }

  /** The four bytes of a number in network order. */
  function FourBytes(n: nat): seq<Byte> {
    [n / 16777216 % 256, n / 65536 % 256, n / 256 % 256, n % 256]
  }

  /** From h to g, for the value v. */
  predicate Effect(o: Order, f: Field, v: string, h: seq<Byte>, g: seq<Byte>)
    requires |h| >= HomeSize(f)
  {
    var n := Atou(v);
    match f
    case Ver => SameBut(h, g, {0}) && g[0] / 16 == n % 16 && g[0] % 16 == h[0] % 16
    case Ihl => SameBut(h, g, {0}) && g[0] % 16 == n % 16 && g[0] / 16 == h[0] / 16
    case Tos => g == h[1 := n % 256]
    case TotLen => g == h[2 := n / 256 % 256][3 := n % 256]
    case Id => g == h[4 := n / 256 % 256][5 := n % 256]
    case FragOff =>
      && SameBut(h, g, {6, 7}) && Joined(if o == BigEndian then h[6] else 0, n / 8 / 256 % 256, g[6])
      && Joined(if o == LittleEndian then h[7] else 0, n / 8 % 256, g[7])
    case Mf =>
      && SameBut(h, g, {6}) && g[6] / 32 % 2 == One(n != 0)
      && g[6] / 64 == h[6] / 64 && g[6] % 32 == h[6] % 32
    case Df =>
      && SameBut(h, g, {6}) && g[6] / 64 % 2 == One(n != 0)
      && g[6] / 128 == h[6] / 128 && g[6] % 64 == h[6] % 64
    case Rf => SameBut(h, g, {6}) && g[6] / 128 == One(n != 0) && g[6] % 128 == h[6] % 128
    case Ttl => g == h[8 := n % 256]
    case Proto =>
      g == h[9 := if Is(v, "icmp") then 1 else if Is(v, "udp") then 17 else if Is(v, "tcp") then 6 else n % 256]
    case IpCksum => g == h[10 := n / 256 % 256][11 := n % 256]
    case SAddr => Resolve(v).Some? && |Resolve(v).value| == 4 && g == h[..12] + Resolve(v).value + h[16..]
    case DAddr => Resolve(v).Some? && |Resolve(v).value| == 4 && g == h[..16] + Resolve(v).value + h[20..]
    case SPort => g == h[0 := n / 256 % 256][1 := n % 256]
    case DPort => g == h[2 := n / 256 % 256][3 := n % 256]
    case UdpLen => g == h[4 := n / 256 % 256][5 := n % 256]
    case UdpCksum => g == h[6 := n / 256 % 256][7 := n % 256]
    case SeqNum => g == h[..4] + FourBytes(n) + h[8..]
    case Ack => g == h[..8] + FourBytes(n) + h[12..]
    case X2 => SameBut(h, g, {12}) && g[12] % 16 == n % 16 && g[12] / 16 == h[12] / 16
    case Off => SameBut(h, g, {12}) && g[12] / 16 == n % 16 && g[12] % 16 == h[12] % 16
    case TcpFlags =>
      g == h[13 := 1 * Given(v, 'f', 'F') + 2 * Given(v, 's', 'S') + 4 * Given(v, 'r', 'R') + 8 * Given(v, 'p', 'P') +
                   16 * Given(v, 'a', 'A') + 32 * Given(v, 'u', 'U') + 64 * Given(v, 'x', 'X') +
                   128 * Given(v, 'y', 'Y')]
    case Win => g == h[14 := n / 256 % 256][15 := n % 256]
    case TcpCksum => g == h[16 := n / 256 % 256][17 := n % 256]
    case Urp => g == h[18 := n / 256 % 256][19 := n % 256]
    case HexData => DecodeHex(v).Some? && g == h + DecodeHex(v).value
    case Uint32 => g == h + FourBytes(n)
    case Uint24 => g == h + FourBytes(n)[1..]
    case Uint16 => g == h + FourBytes(n)[2..]
    case Uint8 => g == h + FourBytes(n)[3..]
  }

  lemma LowWord(n: nat)
    ensures n % 0x1_0000 / 256 == n / 256 % 256 && n % 0x1_0000 % 256 == n % 256
  {
  }

  lemma WordBytes(h: seq<Byte>, i: nat, n: nat)
    requires i + 1 < |h|
    ensures Put16(h, i, n % 0x1_0000) == h[i := n / 256 % 256][i + 1 := n % 256]
  {
    LowWord(n);
  }

  lemma ByteParts(b: Byte)
    ensures var lo, x, y, z := b % 32, Bit(b, 5), Bit(b, 6), Bit(b, 7);
            && b % 64 == lo + 32 * x && b % 128 == lo + 32 * x + 64 * y && b / 64 == y + 2 * z && b / 128 == z
            && b / 32 % 2 == x && b / 64 % 2 == y
  {
    ApdCopy.Decompose(b);
    var lo, x, y, z := b % 32, Bit(b, 5), Bit(b, 6), Bit(b, 7);
    DivModUnique(b, 64, y + 2 * z, lo + 32 * x);
    DivModUnique(b, 128, z, lo + 32 * x + 64 * y);
  }

  lemma FlagBit(b: Byte, i: nat, on: bool)
    requires 5 <= i <= 7
    ensures var r := WithBit(b, i, on);
            && (i == 5 ==> r / 32 % 2 == One(on) && r / 64 == b / 64 && r % 32 == b % 32)
            && (i == 6 ==> r / 64 % 2 == One(on) && r / 128 == b / 128 && r % 64 == b % 64)
            && (i == 7 ==> r / 128 == One(on) && r % 128 == b % 128)
  {
    hide WithBit, Bit;
    var r := WithBit(b, i, on);
    ApdCopy.WithBitFacts(b, i, on);
    ByteParts(b);
    ByteParts(r);
  }

  lemma JoinedIs(a: Byte, b: Byte)
    ensures Joined(a, b, OrHigh3(a, b))
  {
    ApdCopy.Compose(b % 32, OrBit(a, b, 5), OrBit(a, b, 6), OrBit(a, b, 7));
  }

  /** The lower bits are dropped. */
  lemma KeptJoins(a: Byte, b: Byte)
    ensures Joined(a, b, OrHigh3(a - a % 32, b))
  {
    JoinedIs(a - a % 32, b);
    ApdCopy.Decompose(a);
    ApdCopy.Compose(0, Bit(a, 5), Bit(a, 6), Bit(a, 7));
    hide OrHigh3;
  }

  lemma WordEffect(o: Order, f: Field, h: seq<Byte>, v: string)
    requires |h| >= HomeSize(f) && ApdCopy.FormOf(f) == ApdCopy.Word
    ensures Written(o, f, h, v).Some? && Effect(o, f, v, h, Written(o, f, h, v).value)
  {
    ApdCopy.WordIsWritten(o, f, h, v);
    WordBytes(h, ApdCopy.WordAt(f), Atou(v));
    hide Written, Put16, Atou;
  }

  lemma BitEffect(o: Order, f: Field, h: seq<Byte>, v: string)
    requires |h| >= HomeSize(f) && ApdCopy.FormOf(f) == ApdCopy.Flag
    ensures Written(o, f, h, v).Some? && Effect(o, f, v, h, Written(o, f, h, v).value)
  {
    hide Atou, WithBit, Put16, Resolve, Put32, KeptFragBits, OrHigh3, FlagByte, PutLow4, PutHigh4, DecodeHex,
      ProtoValue, FourBytes, Joined, Given;
    var on := Atou(v) != 0;
    match f {
      case Mf => FlagBit(h[6], 5, on);
      case Df => FlagBit(h[6], 6, on);
      case Rf => FlagBit(h[6], 7, on);
    }
  }

  lemma NibbleEffect(o: Order, f: Field, h: seq<Byte>, v: string)
    requires |h| >= HomeSize(f) && ApdCopy.FormOf(f) == ApdCopy.Nibble
    ensures Written(o, f, h, v).Some? && Effect(o, f, v, h, Written(o, f, h, v).value)
  {
    hide Atou;
  }

  lemma FragOffEffect(o: Order, h: seq<Byte>, v: string)
    requires |h| >= 20
    ensures Written(o, FragOff, h, v).Some? && Effect(o, FragOff, v, h, Written(o, FragOff, h, v).value)
  {
    hide Atou, OrHigh3, Joined;
    var n := Atou(v) / 8;
    var (hi, lo) := KeptFragBits(o, h[6], h[7]);
    LowWord(n);
    KeptJoins(if o == BigEndian then h[6] else 0, n / 256 % 256);
    KeptJoins(if o == LittleEndian then h[7] else 0, n % 256);
  }

  lemma ProtoEffect(o: Order, h: seq<Byte>, v: string)
    requires |h| >= 20
    ensures Written(o, Proto, h, v).Some? && Effect(o, Proto, v, h, Written(o, Proto, h, v).value)
  {
    SameWordIs(v, "icmp");
    SameWordIs(v, "udp");
    SameWordIs(v, "tcp");
    hide Is, Atou, SameWord;
  }

  lemma LettersAre(v: string)
    ensures FlagByte(v) == 1 * Given(v, 'f', 'F') + 2 * Given(v, 's', 'S') + 4 * Given(v, 'r', 'R') +
                           8 * Given(v, 'p', 'P') + 16 * Given(v, 'a', 'A') + 32 * Given(v, 'u', 'U') +
                           64 * Given(v, 'x', 'X') + 128 * Given(v, 'y', 'Y')
  {
  }

  lemma OctetEffect(o: Order, f: Field, h: seq<Byte>, v: string)
    requires |h| >= HomeSize(f) && (f == Tos || f == Ttl || f == TcpFlags)
    ensures Written(o, f, h, v).Some? && Effect(o, f, v, h, Written(o, f, h, v).value)
  {
    LettersAre(v);
    hide FlagByte, Given, Is, Atou, SameWord, WithBit, Put16, Resolve, Put32, KeptFragBits, OrHigh3, PutLow4, PutHigh4,
      DecodeHex, FourBytes, Joined;
  }

  /** The bytes of a 32-bit number. */
  lemma FourParts(n: nat)
    ensures var m := n % 0x1_0000_0000;
            && m / 0x1_0000 % 0x1_0000 / 256 == n / 16777216 % 256
            && m / 0x1_0000 % 0x1_0000 % 256 == n / 65536 % 256
            && m % 0x1_0000 / 256 == n / 256 % 256 && m % 0x1_0000 % 256 == n % 256
  {
    var m := n % 0x1_0000_0000;
    assert m % 0x1_0000 == n % 0x1_0000 && m / 0x1_0000 % 0x1_0000 == n / 65536 % 65536;
    LowWord(n);
    LowWord(n / 65536);
    assert n / 65536 / 256 == n / 16777216;
  }

  lemma LongBytes(h: seq<Byte>, i: nat, n: nat)
    requires i + 3 < |h|
    ensures Put32(h, i, n % 0x1_0000_0000) == h[..i] + FourBytes(n) + h[i + 4..]
  {
    FourParts(n);
    var m := n % 0x1_0000_0000;
    var g := Put32(h, i, m);
    assert g[i] == m / 0x1_0000 % 0x1_0000 / 256 && g[i + 1] == m / 0x1_0000 % 0x1_0000 % 256;
    assert g[i + 2] == m % 0x1_0000 / 256 && g[i + 3] == m % 0x1_0000 % 256;
    hide Put32;
  }

  lemma {:induction false} OctetsSize(s: string, more: nat)
    ensures DottedOctets(s, more).Some? ==> |DottedOctets(s, more).value| == more
    decreases more
  {
    hide Octet;
    if more > 0 && |s| > 0 && s[0] == '.' && Octet(s[1..]).Some? {
      OctetsSize(Octet(s[1..]).value.1, more - 1);
    }
  }

  lemma ResolveSize(v: string)
    ensures Resolve(v).Some? ==> |Resolve(v).value| == 4
  {
    OctetsSize("." + v, 4);
  }

  lemma LongEffect(o: Order, f: Field, h: seq<Byte>, v: string)
    requires |h| >= HomeSize(f) && ApdCopy.FormOf(f) == ApdCopy.Long
    ensures Written(o, f, h, v).None? ==> (f == SAddr || f == DAddr) && Resolve(v).None?
    ensures Written(o, f, h, v).Some? ==> Effect(o, f, v, h, Written(o, f, h, v).value)
  {
    hide Atou, Is, SameWord, WithBit, Put16, Resolve, Put32, KeptFragBits, OrHigh3, PutLow4, PutHigh4, DecodeHex,
      FourBytes, Joined;
    ResolveSize(v);
    LongBytes(h, 4, Atou(v));
    LongBytes(h, 8, Atou(v));
  }

  lemma NumberTails(n: nat)
    ensures FourBytes(n)[2..] == [n / 256 % 256, n % 256] && FourBytes(n)[3..] == [n % 256]
  {
  }

  lemma TextEffect(o: Order, f: Field, h: seq<Byte>, v: string)
    requires ApdCopy.FormOf(f) == ApdCopy.Text
    ensures Written(o, f, h, v).None? ==> f == HexData && DecodeHex(v).None?
    ensures Written(o, f, h, v).Some? ==> Effect(o, f, v, h, Written(o, f, h, v).value)
  {
    hide Atou, Is, SameWord, WithBit, Put16, Resolve, Put32, KeptFragBits, OrHigh3, PutLow4, PutHigh4, DecodeHex,
      FourBytes, Joined;
    var n := Atou(v);
    LongBytes([0, 0, 0, 0], 0, n);
    WordBytes([0, 0], 0, n);
    NumberTails(n);
    assert [0, 0][0 := n / 256 % 256][1 := n % 256] == [n / 256 % 256, n % 256];
    assert [0, 0, 0, 0][..0] + FourBytes(n) + [0, 0, 0, 0][4..] == FourBytes(n);
  }

  /** What a setter writes. */
  lemma WrittenEffect(o: Order, f: Field, h: seq<Byte>, v: string)
    requires |h| >= HomeSize(f)
    ensures Written(o, f, h, v).None? ==>
              ((f == SAddr || f == DAddr) && Resolve(v).None?) || (f == HexData && DecodeHex(v).None?)
    ensures Written(o, f, h, v).Some? ==> Effect(o, f, v, h, Written(o, f, h, v).value)
  {
    hide Written, Effect, Resolve, DecodeHex;
    match ApdCopy.FormOf(f) {
      case Nibble => NibbleEffect(o, f, h, v);
      case Flag => BitEffect(o, f, h, v);
      case Octet =>
        if f == FragOff {
          FragOffEffect(o, h, v);
        } else if f == Proto {
          ProtoEffect(o, h, v);
        } else {
          OctetEffect(o, f, h, v);
        }
      case Word => WordEffect(o, f, h, v);
      case Long => LongEffect(o, f, h, v);
      case Text => TextEffect(o, f, h, v);
    }
  }

  // --- hexadecimal data -------------------------------------------------------------------------

  /** v has two hexadecimal digits for each byte of d. */
  predicate Spells(v: string, d: seq<Byte>) {
    && |v| == 2 * |d|
    && forall i | 0 <= i < |d| ::
         && 0 <= CharValue(v[2 * i]) < 16 && 0 <= CharValue(v[2 * i + 1]) < 16
         && d[i] == 16 * CharValue(v[2 * i]) + CharValue(v[2 * i + 1])
  }

  lemma SpellsLast(v: string, d: seq<Byte>, b: Byte)
    requires |v| >= 2
    ensures Spells(v, d + [b]) <==>
            && Spells(v[..|v| - 2], d) && 0 <= CharValue(v[|v| - 2]) < 16 && 0 <= CharValue(v[|v| - 1]) < 16
            && b == 16 * CharValue(v[|v| - 2]) + CharValue(v[|v| - 1])
  {
    hide CharValue;
    var w, e := v[..|v| - 2], d + [b];
    assert |v| == 2 * |e| ==> v[2 * |d|] == v[|v| - 2] && v[2 * |d| + 1] == v[|v| - 1] && e[|d|] == b;
    assert |w| == 2 * |d| ==> forall i | 0 <= i < |d| :: w[2 * i] == v[2 * i] && w[2 * i + 1] == v[2 * i + 1];
    assert forall i | 0 <= i < |d| :: e[i] == d[i];
  }

  lemma SnocEqual(e: seq<Byte>, x: Byte, d: seq<Byte>, b: Byte)
    ensures e + [x] == d + [b] <==> e == d && x == b
  {
    assert (e + [x])[..|e|] == e && (d + [b])[..|d|] == d;
    assert (e + [x])[|e|] == x && (d + [b])[|d|] == b;
  }

  lemma DecodesLast(v: string, d: seq<Byte>, b: Byte)
    requires |v| >= 2
    ensures DecodeHex(v) == Some(d + [b]) <==>
            && DecodeHex(v[..|v| - 2]) == Some(d) && 0 <= CharValue(v[|v| - 2]) < 16 && 0 <= CharValue(v[|v| - 1]) < 16
            && b == 16 * CharValue(v[|v| - 2]) + CharValue(v[|v| - 1])
    ensures DecodeHex(v) != Some([])
  {
    hide CharValue;
    var w := v[..|v| - 2];
    if |w| % 2 == 0 && DecodeHex(w).Some? {
      var e, hi, lo := DecodeHex(w).value, HexVal(v[|v| - 2]), HexVal(v[|v| - 1]);
      if hi >= 0 && lo >= 0 {
        assert DecodeHex(v) == Some(e + [16 * hi + lo]);
        SnocEqual(e, 16 * hi + lo, d, b);
      }
    }
  }

  lemma ShortSpells(v: string, d: seq<Byte>)
    requires |v| < 2 || |d| == 0
    ensures Spells(v, d) <==> |v| == 0 && |d| == 0
  {
    hide CharValue;
  }

  lemma ShortHex(v: string, d: seq<Byte>)
    requires |v| < 2
    ensures DecodeHex(v) == Some(d) <==> |v| == 0 && |d| == 0
  {
    hide HexVal;
  }

  /** Hexadecimal text is decoded pair by pair, or is an error if its length is odd or a
      character no digit. */
  lemma {:induction false} HexDecodes(v: string, d: seq<Byte>)
    ensures DecodeHex(v) == Some(d) <==> Spells(v, d)
    decreases |v|
  {
    hide CharValue, DecodeHex, Spells;
    if |v| < 2 || |d| == 0 {
      ShortSpells(v, d);
      if |v| < 2 {
        ShortHex(v, d);
      } else {
        DecodesLast(v, [], 0);
      }
    } else {
      var n := |d| - 1;
      assert d == d[..n] + [d[n]];
      HexDecodes(v[..|v| - 2], d[..n]);
      SpellsLast(v, d[..n], d[n]);
      DecodesLast(v, d[..n], d[n]);
    }
  }

  // --- which fields the compiler leaves alone --------------------------------------------------------

  /** Naming a field as name keeps the compiler from filling it in: t says which it is. */
  predicate Holds(k: Kind, name: string, t: nat) {
    if k == Ip then
      || (t == TAKE_IP_VERSION && Is(name, "ver")) || (t == TAKE_IP_HDRLEN && Is(name, "ihl"))
      || (t == TAKE_IP_TOTLEN && Is(name, "totlen")) || (t == TAKE_IP_PROTOCOL && Is(name, "proto"))
      || (t == TAKE_IP_CKSUM && Is(name, "cksum"))
    else if k == Udp then (t == TAKE_UDP_LEN && Is(name, "len")) || (t == TAKE_UDP_CKSUM && Is(name, "cksum"))
    else if k == Tcp then (t == TAKE_TCP_HDRLEN && Is(name, "off")) || (t == TAKE_TCP_CKSUM && Is(name, "cksum"))
    else false
  }

  lemma OneField(k: Kind, name: string, f: Field, g: Field)
    requires Calls(k, name, f)
    ensures Calls(k, name, g) <==> f == g
  {
    hide Calls, FieldOf;
    NamesAre(k, name, f);
    NamesAre(k, name, g);
  }

  lemma IpHeld(name: string, f: Field, t: nat)
    requires Calls(Ip, name, f)
    ensures t in TakenBy(f) <==> Holds(Ip, name, t)
  {
    hide Is;
    OneField(Ip, name, f, Ver);
    OneField(Ip, name, f, Ihl);
    OneField(Ip, name, f, TotLen);
    OneField(Ip, name, f, Proto);
    OneField(Ip, name, f, IpCksum);
  }

  lemma UdpHeld(name: string, f: Field, t: nat)
    requires Calls(Udp, name, f)
    ensures t in TakenBy(f) <==> Holds(Udp, name, t)
  {
    hide Is;
    OneField(Udp, name, f, UdpLen);
    OneField(Udp, name, f, UdpCksum);
  }

  lemma TcpHeld(name: string, f: Field, t: nat)
    requires Calls(Tcp, name, f)
    ensures t in TakenBy(f) <==> Holds(Tcp, name, t)
  {
    hide Is;
    OneField(Tcp, name, f, Off);
    OneField(Tcp, name, f, TcpCksum);
  }

  lemma NoneHeld(k: Kind, name: string, f: Field, t: nat)
    requires Calls(k, name, f) && k != Ip && k != Udp && k != Tcp
    ensures t !in TakenBy(f) && !Holds(k, name, t)
  {
  }

  lemma HeldBy(k: Kind, name: string, f: Field, t: nat)
    requires Calls(k, name, f)
    ensures t in TakenBy(f) <==> Holds(k, name, t)
  {
    hide Is, Calls, TakenBy, Holds;
    if k == Ip {
      IpHeld(name, f, t);
    } else if k == Udp {
      UdpHeld(name, f, t);
    } else if k == Tcp {
      TcpHeld(name, f, t);
    } else {
      NoneHeld(k, name, f, t);
    }
  }

  /** A setting by name and value: the field it calls, what it writes, and that it keeps the
      compiler from that field and from no other; it fails for a name that the layer does
      not know, an address that is none, and data with an odd or wrong digit. */
  lemma Setter(o: Order, l: Layer, name: string, v: string) returns (f: Field)
    requires |l.data| >= HeaderSize(l.kind)
    ensures var r := SetLayer(o, l, name, v);
            if r.Ok? then
              && Calls(l.kind, name, f) && |l.data| >= HomeSize(f)
              && r.value.kind == l.kind && Effect(o, f, v, l.data, r.value.data)
              && forall t :: t in r.value.flags <==> t in l.flags || Holds(l.kind, name, t)
            else
              || (forall g :: !Calls(l.kind, name, g))
              || (Calls(l.kind, name, f) && (f == SAddr || f == DAddr) && Resolve(v).None?)
              || (Calls(l.kind, name, f) && f == HexData && DecodeHex(v).None?)
  {
    hide Written, Effect, FieldOf, Resolve, DecodeHex, Is, Called, HasField, TakenBy, Holds;
    match FieldOf(l.kind, name) {
      case None =>
        f := Ver;
        forall g
          ensures !Calls(l.kind, name, g)
        {
          NamesAre(l.kind, name, g);
        }
      case Some(known) =>
        f := known;
        NamesAre(l.kind, name, f);
        WrittenEffect(o, f, l.data, v);
        forall t
          ensures t in TakenBy(f) <==> Holds(l.kind, name, t)
        {
          HeldBy(l.kind, name, f, t);
        }
    }
  }
}
