// The fields of packet descriptions: how src/rapd.c prints them and what the setters of
// src/apd.c do with them.
module ApdField {
  import opened Checksum
  import opened Ars
  import opened Numeral
  import opened Options
  import opened ApdNumber

  datatype Field =
    | Ihl | Ver | Tos | TotLen | Id | FragOff | Mf | Df | Rf | Ttl | Proto | IpCksum | SAddr | DAddr
    | SPort | DPort | UdpLen | UdpCksum
    | SeqNum | Ack | X2 | Off | TcpFlags | Win | TcpCksum | Urp
    | HexData | Uint32 | Uint24 | Uint16 | Uint8

  /** The size of the header a field belongs to. */
  function HomeSize(f: Field): nat {
    match f
    case SPort | DPort | UdpLen | UdpCksum => 8
    case HexData | Uint32 | Uint24 | Uint16 | Uint8 => 0
    case _ => 20
  }

  // --- names ------------------------------------------------------------------------------

  function LowerChar(c: char): char {
    if 'A' <= c <= 'Z' then (c as int + 32) as char else c
  }

  /** strcasecmp(a, b) == 0 */
  predicate SameWord(a: string, b: string) {
    |a| == |b| && (|a| == 0 || (LowerChar(a[0]) == LowerChar(b[0]) && SameWord(a[1..], b[1..])))
  }

  function IpField(name: string): (r: Option<Field>)
    ensures r.Some? ==> HomeSize(r.value) <= 20
  {
    if SameWord(name, "saddr") then Some(SAddr)
    else if SameWord(name, "daddr") then Some(DAddr)
    else if SameWord(name, "ihl") then Some(Ihl)
    else if SameWord(name, "ver") then Some(Ver)
    else if SameWord(name, "tos") then Some(Tos)
    else if SameWord(name, "totlen") then Some(TotLen)
    else if SameWord(name, "id") then Some(Id)
    else if SameWord(name, "fragoff") then Some(FragOff)
    else if SameWord(name, "mf") then Some(Mf)
    else if SameWord(name, "df") then Some(Df)
    else if SameWord(name, "rf") then Some(Rf)
    else if SameWord(name, "ttl") then Some(Ttl)
    else if SameWord(name, "proto") then Some(Proto)
    else if SameWord(name, "cksum") then Some(IpCksum)
    else None
  }

  function UdpField(name: string): (r: Option<Field>)
    ensures r.Some? ==> HomeSize(r.value) <= 8
  {
    if SameWord(name, "sport") then Some(SPort)
    else if SameWord(name, "dport") then Some(DPort)
    else if SameWord(name, "len") then Some(UdpLen)
    else if SameWord(name, "cksum") then Some(UdpCksum)
    else None
  }

  function TcpField(name: string): (r: Option<Field>)
    ensures r.Some? ==> HomeSize(r.value) <= 20
  {
    if SameWord(name, "sport") then Some(SPort)
    else if SameWord(name, "dport") then Some(DPort)
    else if SameWord(name, "seq") then Some(SeqNum)
    else if SameWord(name, "ack") then Some(Ack)
    else if SameWord(name, "x2") then Some(X2)
    else if SameWord(name, "off") then Some(Off)
    else if SameWord(name, "flags") then Some(TcpFlags)
    else if SameWord(name, "win") then Some(Win)
    else if SameWord(name, "cksum") then Some(TcpCksum)
    else if SameWord(name, "urp") then Some(Urp)
    else None
  }

  function DataField(name: string): (r: Option<Field>)
    ensures r.Some? ==> HomeSize(r.value) <= 0
  {
    if SameWord(name, "hex") then Some(HexData)
    else if SameWord(name, "uint32") then Some(Uint32)
    else if SameWord(name, "uint24") then Some(Uint24)
    else if SameWord(name, "uint16") then Some(Uint16)
    else if SameWord(name, "uint8") then Some(Uint8)
    else None
  }

  /** The field a setter of the layer knows by the name. */
  function FieldOf(k: Kind, name: string): (r: Option<Field>)
    ensures r.Some? ==> HomeSize(r.value) <= HeaderSize(k)
  {
    if k == Ip then IpField(name)
    else if k == Udp then UdpField(name)
    else if k == Tcp then TcpField(name)
    else if k == Data then DataField(name)
    else None
  }

  /** The name a field is printed with. */
  function Name(f: Field): string {
    match f
    case Ihl => "ihl" case Ver => "ver" case Tos => "tos" case TotLen => "totlen" case Id => "id"
    case FragOff => "fragoff" case Mf => "mf" case Df => "df" case Rf => "rf" case Ttl => "ttl" case Proto => "proto"
    case IpCksum => "cksum" case SAddr => "saddr" case DAddr => "daddr" case SPort => "sport" case DPort => "dport"
    case UdpLen => "len" case UdpCksum => "cksum" case SeqNum => "seq" case Ack => "ack" case X2 => "x2"
    case Off => "off" case TcpFlags => "flags" case Win => "win" case TcpCksum => "cksum" case Urp => "urp"
    case HexData => "hex" case Uint32 => "uint32" case Uint24 => "uint24" case Uint16 => "uint16" case Uint8 => "uint8"
  }

  /** The fields of a layer in the order in which they are printed, all of them when the
      packet has no defaults. */
  function Printed(k: Kind): seq<Field> {
    if k == Ip then [Ihl, Ver, Tos, TotLen, Id, FragOff, Mf, Df, Rf, Ttl, Proto, IpCksum, SAddr, DAddr]
    else if k == Udp then [SPort, DPort, UdpLen, UdpCksum]
    else if k == Tcp then [SPort, DPort, SeqNum, Ack, X2, Off, TcpFlags, Win, TcpCksum, Urp]
    else if k == Data then [HexData]
    else []
  }

  lemma {:induction false} SameWordRefl(a: string)
    ensures SameWord(a, a)
  {
    if |a| > 0 {
      SameWordRefl(a[1..]);
    }
  }

  /** Words that agree have the same length and the same first two letters. */
  predicate HeadsAgree(a: string, b: string) {
    && |a| == |b| && (|a| > 0 ==> LowerChar(a[0]) == LowerChar(b[0]))
    && (|a| > 1 ==> LowerChar(a[1]) == LowerChar(b[1]))
  }

  lemma Compare(a: string, b: string)
    ensures SameWord(a, b) ==> HeadsAgree(a, b)
  {
    if SameWord(a, b) && |a| > 1 {
      assert SameWord(a[1..], b[1..]) && a[1..][0] == a[1] && b[1..][0] == b[1];
    }
  }

  lemma IpNames(f: Field)
    requires f in Printed(Ip)
    ensures IpField(Name(f)) == Some(f)
  {
    SameWordRefl(Name(f));
    hide SameWord;
    Compare(Name(f), "saddr");
    Compare(Name(f), "daddr");
    Compare(Name(f), "ihl");
    Compare(Name(f), "ver");
    Compare(Name(f), "tos");
    Compare(Name(f), "totlen");
    Compare(Name(f), "id");
    Compare(Name(f), "fragoff");
    Compare(Name(f), "mf");
    Compare(Name(f), "df");
    Compare(Name(f), "rf");
    Compare(Name(f), "ttl");
    Compare(Name(f), "proto");
    Compare(Name(f), "cksum");
  }

  lemma UdpNames(f: Field)
    requires f in Printed(Udp)
    ensures UdpField(Name(f)) == Some(f)
  {
    SameWordRefl(Name(f));
    hide SameWord;
    Compare(Name(f), "sport");
    Compare(Name(f), "dport");
    Compare(Name(f), "len");
    Compare(Name(f), "cksum");
  }

  lemma TcpNames(f: Field)
    requires f in Printed(Tcp)
    ensures TcpField(Name(f)) == Some(f)
  {
    SameWordRefl(Name(f));
    hide SameWord;
    Compare(Name(f), "sport");
    Compare(Name(f), "dport");
    Compare(Name(f), "seq");
    Compare(Name(f), "ack");
    Compare(Name(f), "x2");
    Compare(Name(f), "off");
    Compare(Name(f), "flags");
    Compare(Name(f), "win");
    Compare(Name(f), "cksum");
    Compare(Name(f), "urp");
  }

  /** A setter knows every field that is printed, by the name it is printed with. */
  lemma NamesAreKnown(k: Kind, f: Field)
    requires f in Printed(k)
    ensures FieldOf(k, Name(f)) == Some(f)
  {
    hide IpField, UdpField, TcpField;
    if k == Ip {
      IpNames(f);
    } else if k == Udp {
      UdpNames(f);
    } else if k == Tcp {
      TcpNames(f);
    } else {
      SameWordRefl("hex");
    }
  }

  // --- printing -----------------------------------------------------------------------------

  /** The letter of the i-th TCP flag. */
  function Letter(i: nat): char
    requires i < 8
  {
    "fsrpauxy"[i]
  }

  function Capital(i: nat): char
    requires i < 8
  {
    "FSRPAUXY"[i]
  }

  function BitWeight(i: nat): nat
    requires i < 8
    ensures BitWeight(i) > 0
  {
    if i == 0 then 1 else if i == 1 then 2 else if i == 2 then 4 else if i == 3 then 8
    else if i == 4 then 16 else if i == 5 then 32 else if i == 6 then 64 else 128
  }

  function Bit(b: Byte, i: nat): (r: nat)
    requires i < 8
    ensures r <= 1
  {
    (b / BitWeight(i)) % 2
  }

  /** The letters of the TCP flags from the i-th on. */
  function FlagLetters(b: Byte, i: nat): string
    requires i <= 8
    decreases 8 - i
  {
    if i == 8 then "" else (if Bit(b, i) == 1 then [Letter(i)] else "") + FlagLetters(b, i + 1)
  }

  function Get32(h: seq<Byte>, i: nat): (v: nat)
    requires i + 3 < |h|
    ensures v <= 0xFFFF_FFFF
  {
    0x1_0000 * Get16(h, i) + Get16(h, i + 2)
  }

  function HexText(d: seq<Byte>): string {
    if |d| == 0 then "" else HexText(d[..|d| - 1]) + Hex(d[|d| - 1], 2)
  }

  /** The value a field of header h is printed with. */
  function Value(f: Field, h: seq<Byte>): string
    requires |h| >= HomeSize(f)
  {
    match f
    case Ihl => "0x" + Hex(Low4(h[0]), 1)
    case Ver => "0x" + Hex(High4(h[0]), 1)
    case Tos => "0x" + Hex(h[1], 2)
    case TotLen => Dec(Get16(h, 2))
    case Id => Dec(Get16(h, 4))
    case FragOff => Dec(Get16(h, 6) % 0x2000 * 8)
    case Mf => Dec(Bit(h[6], 5))
    case Df => Dec(Bit(h[6], 6))
    case Rf => Dec(Bit(h[6], 7))
    case Ttl => Dec(h[8])
    case Proto => Dec(h[9])
    case IpCksum => "0x" + Hex(Get16(h, 10), 4)
    case SAddr => QuadText(h[12..16])
    case DAddr => QuadText(h[16..20])
    case SPort => Dec(Get16(h, 0))
    case DPort => Dec(Get16(h, 2))
    case UdpLen => Dec(Get16(h, 4))
    case UdpCksum => "0x" + Hex(Get16(h, 6), 4)
    case SeqNum => Dec(Get32(h, 4))
    case Ack => Dec(Get32(h, 8))
    case X2 => "0x" + Hex(Low4(h[12]), 1)
    case Off => Dec(High4(h[12]))
    case TcpFlags => FlagLetters(h[13], 0)
    case Win => Dec(Get16(h, 14))
    case TcpCksum => "0x" + Hex(Get16(h, 16), 4)
    case Urp => Dec(Get16(h, 18))
    case HexData => HexText(h)
    case _ => ""
  }

  // --- setting ------------------------------------------------------------------------------------

  /** Bit i of b set or cleared. */
  function WithBit(b: Byte, i: nat, on: bool): (r: Byte)
    requires i < 8
  {
    var others := b - Bit(b, i) * BitWeight(i);
    if on then others + BitWeight(i) else others
  }

  function OrBit(a: Byte, b: Byte, i: nat): (r: nat)
    requires i < 8
    ensures r <= 1
  {
    if Bit(a, i) == 1 || Bit(b, i) == 1 then 1 else 0
  }

  /** a | b, where a has only its upper three bits */
  function OrHigh3(a: Byte, b: Byte): Byte {
    b % 32 + 32 * OrBit(a, b, 5) + 64 * OrBit(a, b, 6) + 128 * OrBit(a, b, 7)
  }

  /** Whether the i-th flag is named in v. */
  function LetterBit(v: string, i: nat): (r: nat)
    requires i < 8
    ensures r <= 1
  {
    if Letter(i) in v || Capital(i) in v then 1 else 0
  }

  /** The TCP flags a string of letters names. */
  function FlagByte(v: string): Byte {
    LetterBit(v, 0) + 2 * LetterBit(v, 1) + 4 * LetterBit(v, 2) + 8 * LetterBit(v, 3) +
    16 * LetterBit(v, 4) + 32 * LetterBit(v, 5) + 64 * LetterBit(v, 6) + 128 * LetterBit(v, 7)
  }

  function HexVal(c: char): (r: int)
    ensures -1 <= r < 16
  {
    if CharValue(c) < 16 then CharValue(c) else -1
  }

  /** ars_decode_hex */
  function DecodeHex(v: string): Option<seq<Byte>>
  {
    if |v| % 2 == 1 then None
    else if |v| == 0 then Some([])
    else
      var hi, lo := HexVal(v[|v| - 2]), HexVal(v[|v| - 1]);
      match DecodeHex(v[..|v| - 2])
      case None => None
      case Some(d) => if hi < 0 || lo < 0 then None else Some(d + [16 * hi + lo])
  }

  function Put32(h: seq<Byte>, i: nat, v: nat): (r: seq<Byte>)
    requires i + 3 < |h|
    ensures |r| == |h| && Get32(r, i) == v % 0x1_0000_0000
    ensures forall k | 0 <= k < |h| && !(i <= k < i + 4) :: r[k] == h[k]
  {
    var upper: nat, lower: nat := v / 0x1_0000 % 0x1_0000, v % 0x1_0000;
    assert v % 0x1_0000_0000 == 0x1_0000 * upper + lower;
    var first := Put16(h, i, upper);
    assert Get16(first, i) == upper;
    Put16(first, i + 2, lower)
  }

  /** `ip->frag_off & 0xE000`, on the bytes as the host sees them. */
  function KeptFragBits(o: Order, hi: Byte, lo: Byte): (Byte, Byte) {
    if o == BigEndian then (hi - hi % 32, 0) else (0, lo - lo % 32)
  }

  function ProtoValue(v: string): Byte {
    if SameWord(v, "icmp") then PROTO_ICMP
    else if SameWord(v, "udp") then PROTO_UDP
    else if SameWord(v, "tcp") then PROTO_TCP
    else Atou(v) % 256
  }

  /** What the setters write into the header for a field other than an address. */
  function Written(o: Order, f: Field, h: seq<Byte>, v: string): (r: Option<seq<Byte>>)
    requires |h| >= HomeSize(f)
    ensures r.Some? ==> |r.value| >= |h|
  {
    match f
    case Ihl => Some(h[0 := PutLow4(h[0], Atou(v))])
    case Ver => Some(h[0 := PutHigh4(h[0], Atou(v))])
    case Tos => Some(h[1 := Atou(v) % 256])
    case TotLen => Some(Put16(h, 2, Atou(v) % 0x1_0000))
    case Id => Some(Put16(h, 4, Atou(v) % 0x1_0000))
    case FragOff =>
      var (hi, lo) := KeptFragBits(o, h[6], h[7]);
      var w := Atou(v) / 8 % 0x1_0000;
      Some(h[6 := OrHigh3(hi, w / 256)][7 := OrHigh3(lo, w % 256)])
    case Mf => Some(h[6 := WithBit(h[6], 5, Atou(v) != 0)])
    case Df => Some(h[6 := WithBit(h[6], 6, Atou(v) != 0)])
    case Rf => Some(h[6 := WithBit(h[6], 7, Atou(v) != 0)])
    case Ttl => Some(h[8 := Atou(v) % 256])
    case Proto => Some(h[9 := ProtoValue(v)])
    case IpCksum => Some(Put16(h, 10, Atou(v) % 0x1_0000))
    case SAddr =>
      (match Resolve(v) case None => None case Some(a) => if |a| == 4 then Some(h[..12] + a + h[16..]) else None)
    case DAddr =>
      (match Resolve(v) case None => None case Some(a) => if |a| == 4 then Some(h[..16] + a + h[20..]) else None)
    case SPort => Some(Put16(h, 0, Atou(v) % 0x1_0000))
    case DPort => Some(Put16(h, 2, Atou(v) % 0x1_0000))
    case UdpLen => Some(Put16(h, 4, Atou(v) % 0x1_0000))
    case UdpCksum => Some(Put16(h, 6, Atou(v) % 0x1_0000))
    case SeqNum => Some(Put32(h, 4, Atou(v) % 0x1_0000_0000))
    case Ack => Some(Put32(h, 8, Atou(v) % 0x1_0000_0000))
    case X2 => Some(h[12 := PutLow4(h[12], Atou(v))])
    case Off => Some(h[12 := PutHigh4(h[12], Atou(v))])
    case TcpFlags => Some(h[13 := FlagByte(v)])
    case Win => Some(Put16(h, 14, Atou(v) % 0x1_0000))
    case TcpCksum => Some(Put16(h, 16, Atou(v) % 0x1_0000))
    case Urp => Some(Put16(h, 18, Atou(v) % 0x1_0000))
    case HexData => (match DecodeHex(v) case None => None case Some(d) => Some(h + d))
    case Uint32 => Some(h + Put32([0, 0, 0, 0], 0, Atou(v) % 0x1_0000_0000))
    case Uint24 => Some(h + Put32([0, 0, 0, 0], 0, Atou(v) % 0x1_0000_0000)[1..])
    case Uint16 => Some(h + Put16([0, 0], 0, Atou(v) % 0x1_0000))
    case Uint8 => Some(h + [Atou(v) % 256])
  }

  /** The ARS_TAKE flag that naming the field sets. */
  function TakenBy(f: Field): set<nat> {
    match f
    case Ihl => {TAKE_IP_HDRLEN} case Ver => {TAKE_IP_VERSION} case TotLen => {TAKE_IP_TOTLEN}
    case Proto => {TAKE_IP_PROTOCOL} case IpCksum => {TAKE_IP_CKSUM}
    case UdpLen => {TAKE_UDP_LEN} case UdpCksum => {TAKE_UDP_CKSUM}
    case Off => {TAKE_TCP_HDRLEN} case TcpCksum => {TAKE_TCP_CKSUM}
    case _ => {}
  }

  /** ars_d_set_ip, _udp, _tcp and _data */
  function SetLayer(o: Order, l: Layer, name: string, v: string): Result<Layer>
    requires |l.data| >= HeaderSize(l.kind)
  {
    match FieldOf(l.kind, name)
    case None => Err(Invalid)
    case Some(f) =>
      match Written(o, f, l.data, v)
      case None => Err(Invalid)
      case Some(h) => Ok(Layer(l.kind, h, l.flags + TakenBy(f)))
  }
}
