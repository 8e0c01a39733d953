// What a description prints, field by field, with the names, the order and the number forms
// written out.
module ApdText {
  import opened Arith
  import opened Checksum
  import opened Ars
  import opened ArsWire
  import opened Numeral
  import opened Options
  import opened ApdNumber
  import opened ApdField
  import opened Apd
  import opened ApdSet
  import opened ApdFill

  lemma LowDigits(v: nat)
    requires v < 16
    ensures "0123456789abcdefghijklmnopqrstuvwxyz"[v] == "0123456789abcdef"[v]
  {
  }

  /** Digit i of a hexadecimal number of k digits, letters small. */
  lemma {:induction false} HexPlaces(n: nat, k: nat, i: nat)
    requires i < k
    ensures Pow(16, i) > 0 && Hex(n, k)[k - 1 - i] == "0123456789abcdef"[(n / Pow(16, i)) % 16]
  {
    hide DigitChar, CharValue;
    PowPositive(16, i);
    DigitValues(DigitChar(n / Pow(16, i) % 16), n / Pow(16, i) % 16);
    LowDigits(n / Pow(16, i) % 16);
    if i == 0 {
      assert Pow(16, 0) == 1;
    } else {
      HexPlaces(n / 16, k - 1, i - 1);
      DivDiv(n, 16, Pow(16, i - 1));
    }
  }

  function IfSet(on: bool, letter: string): string {
    if on then letter else ""
  }

  lemma NextLetter(b: Byte, i: nat, letter: string)
    requires i < 8 && [Letter(i)] == letter
    ensures FlagLetters(b, i) == IfSet(Bit(b, i) == 1, letter) + FlagLetters(b, i + 1)
  {
    hide Bit;
  }

  lemma NoLetter(b: Byte)
    ensures FlagLetters(b, 8) == ""
  {
  }

  lemma BitsAre(b: Byte)
    ensures Bit(b, 0) == b % 2 && Bit(b, 1) == b / 2 % 2 && Bit(b, 2) == b / 4 % 2 && Bit(b, 3) == b / 8 % 2
    ensures Bit(b, 4) == b / 16 % 2 && Bit(b, 5) == b / 32 % 2 && Bit(b, 6) == b / 64 % 2 && Bit(b, 7) == b / 128 % 2
  {
  }

  /** The letters of the TCP flags, from the lowest bit to the highest. */
  lemma LettersInOrder(b: Byte)
    ensures FlagLetters(b, 0) ==
            IfSet(b % 2 == 1, "f") + (IfSet(b / 2 % 2 == 1, "s") + (IfSet(b / 4 % 2 == 1, "r") +
            (IfSet(b / 8 % 2 == 1, "p") + (IfSet(b / 16 % 2 == 1, "a") + (IfSet(b / 32 % 2 == 1, "u") +
            (IfSet(b / 64 % 2 == 1, "x") + (IfSet(b / 128 % 2 == 1, "y") + "")))))))
  {
    hide FlagLetters, IfSet, Bit;
    NextLetter(b, 0, "f");
    NextLetter(b, 1, "s");
    NextLetter(b, 2, "r");
    NextLetter(b, 3, "p");
    NextLetter(b, 4, "a");
    NextLetter(b, 5, "u");
    NextLetter(b, 6, "x");
    NextLetter(b, 7, "y");
    NoLetter(b);
    BitsAre(b);
  }

  /** The order in which the fields of a layer are printed. */
  function FieldOrder(k: Kind): seq<Field> {
    if k == Ip then [Ihl, Ver, Tos, TotLen, Id, FragOff, Mf, Df, Rf, Ttl, Proto, IpCksum, SAddr, DAddr]
    else if k == Udp then [SPort, DPort, UdpLen, UdpCksum]
    else if k == Tcp then [SPort, DPort, SeqNum, Ack, X2, Off, TcpFlags, Win, TcpCksum, Urp]
    else [HexData]
  }

  /** How a field of header h is printed. */
  function PrintedAs(f: Field, h: seq<Byte>): Setting
    requires |h| >= HomeSize(f)
  {
    match f
    case Ihl => Setting("ihl", "0x" + Hex(h[0] % 16, 1))
    case Ver => Setting("ver", "0x" + Hex(h[0] / 16, 1))
    case Tos => Setting("tos", "0x" + Hex(h[1], 2))
    case TotLen => Setting("totlen", Dec(Number(h[2], h[3])))
    case Id => Setting("id", Dec(Number(h[4], h[5])))
    case FragOff => Setting("fragoff", Dec(8 * Number(h[6] % 32, h[7])))
    case Mf => Setting("mf", Dec(h[6] / 32 % 2))
    case Df => Setting("df", Dec(h[6] / 64 % 2))
    case Rf => Setting("rf", Dec(h[6] / 128))
    case Ttl => Setting("ttl", Dec(h[8]))
    case Proto => Setting("proto", Dec(h[9]))
    case IpCksum => Setting("cksum", "0x" + Hex(Number(h[10], h[11]), 4))
    case SAddr => Setting("saddr", Dec(h[12]) + "." + Dec(h[13]) + "." + Dec(h[14]) + "." + Dec(h[15]))
    case DAddr => Setting("daddr", Dec(h[16]) + "." + Dec(h[17]) + "." + Dec(h[18]) + "." + Dec(h[19]))
    case SPort => Setting("sport", Dec(Number(h[0], h[1])))
    case DPort => Setting("dport", Dec(Number(h[2], h[3])))
    case UdpLen => Setting("len", Dec(Number(h[4], h[5])))
    case UdpCksum => Setting("cksum", "0x" + Hex(Number(h[6], h[7]), 4))
    case SeqNum => Setting("seq", Dec(65536 * Number(h[4], h[5]) + Number(h[6], h[7])))
    case Ack => Setting("ack", Dec(65536 * Number(h[8], h[9]) + Number(h[10], h[11])))
    case X2 => Setting("x2", "0x" + Hex(h[12] % 16, 1))
    case Off => Setting("off", Dec(h[12] / 16))
    case TcpFlags => Setting("flags", FlagLetters(h[13], 0))
    case Win => Setting("win", Dec(Number(h[14], h[15])))
    case TcpCksum => Setting("cksum", "0x" + Hex(Number(h[16], h[17]), 4))
    case Urp => Setting("urp", Dec(Number(h[18], h[19])))
    case HexData => Setting("hex", HexText(h))
    case Uint32 => Setting("uint32", "")
    case Uint24 => Setting("uint24", "")
    case Uint16 => Setting("uint16", "")
    case Uint8 => Setting("uint8", "")
  }

  lemma OffsetInBytes(h: seq<Byte>)
    requires |h| >= 20
    ensures Get16(h, 6) % 0x2000 * 8 == 8 * Number(h[6] % 32, h[7]) && Bit(h[6], 7) == h[6] / 128
  {
  }

  lemma NamesPrinted(f: Field, h: seq<Byte>)
    requires |h| >= HomeSize(f)
    ensures PrintedAs(f, h).name == Name(f)
  {
    hide Dec, Hex, FlagLetters, HexText;
  }

  lemma IpValuesPrinted(f: Field, h: seq<Byte>)
    requires |h| >= 20 && HasField(Ip, f)
    ensures PrintedAs(f, h).value == Value(f, h)
  {
    hide Dec, Hex, FlagLetters, HexText, Bit;
    OffsetInBytes(h);
    BitsAre(h[6]);
  }

  lemma ValuesPrinted(f: Field, h: seq<Byte>)
    requires |h| >= HomeSize(f)
    ensures PrintedAs(f, h).value == Value(f, h)
  {
    hide Dec, Hex, FlagLetters, HexText;
    if HasField(Ip, f) {
      hide Value, PrintedAs;
      IpValuesPrinted(f, h);
    }
  }

  lemma OrderIs(k: Kind)
    requires k == Ip || k == Udp || k == Tcp || k == Data
    ensures Printed(k) == FieldOrder(k)
  {
  }

  lemma FieldFits(l: Layer, i: nat)
    requires IsDescribed(l) && i < |FieldOrder(l.kind)|
    ensures HomeSize(FieldOrder(l.kind)[i]) <= |l.data|
  {
  }

  /** The fields of a layer as settings. */
  function Items(l: Layer, i: nat): seq<Setting>
    requires IsDescribed(l) && i <= |FieldOrder(l.kind)|
    decreases |FieldOrder(l.kind)| - i
  {
    if i == |FieldOrder(l.kind)| then []
    else
      FieldFits(l, i);
      [PrintedAs(FieldOrder(l.kind)[i], l.data)] + Items(l, i + 1)
  }

  lemma FieldsStep(l: Layer, i: nat)
    requires IsDescribed(l) && i < |Printed(l.kind)| && HomeSize(Printed(l.kind)[i]) <= |l.data|
    ensures var f := Printed(l.kind)[i];
            FieldsText(l, i) ==
            Name(f) + "=" + Value(f, l.data) + if i + 1 < |Printed(l.kind)| then "," + FieldsText(l, i + 1) else ""
  {
    hide Name, Value, Printed;
  }

  lemma KindIsDescribed(l: Layer)
    requires IsDescribed(l)
    ensures l.kind == Ip || l.kind == Udp || l.kind == Tcp || l.kind == Data
  {
  }

  lemma {:induction false} FieldsPrinted(l: Layer, i: nat)
    requires IsDescribed(l) && i < |FieldOrder(l.kind)|
    ensures i < |Printed(l.kind)| && FieldsText(l, i) == SettingsText(Items(l, i))
    decreases |FieldOrder(l.kind)| - i
  {
    hide FieldOrder, Printed, PrintedAs, Name, Value, HomeSize, IsDescribed, FieldsText;
    KindIsDescribed(l);
    OrderIs(l.kind);
    FieldFits(l, i);
    var f, more := FieldOrder(l.kind)[i], Items(l, i + 1);
    NamesPrinted(f, l.data);
    ValuesPrinted(f, l.data);
    FieldsStep(l, i);
    assert Items(l, i)[1..] == more;
    if i + 1 < |FieldOrder(l.kind)| {
      FieldsPrinted(l, i + 1);
    }
  }

  /** A layer as it is printed. */
  function Shown(l: Layer): Description
    requires IsDescribed(l)
  {
    Description(if l.kind == Ip then "ip" else if l.kind == Udp then "udp" else if l.kind == Tcp then "tcp" else "data",
                Some(Items(l, 0)), "")
  }

  function AllShown(ls: seq<Layer>): (ds: seq<Description>)
    requires AllDescribed(ls)
    ensures |ds| == |ls|
  {
    if |ls| == 0 then [] else [Shown(ls[0])] + AllShown(ls[1..])
  }

  lemma LayerPrinted(l: Layer)
    requires IsDescribed(l)
    ensures LayerText(l) == TextOf(Shown(l))
  {
    hide FieldsText, SettingsText, Items;
    FieldsPrinted(l, 0);
    assert TextOf(Shown(l)) == Keyword(l.kind) + ("(" + SettingsText(Items(l, 0)) + ")" + "");
    assert LayerText(l) == Keyword(l.kind) + ("(" + FieldsText(l, 0) + ")" + "");
  }

  lemma {:induction false} MorePrinted(ls: seq<Layer>)
    requires AllDescribed(ls) && |ls| > 0
    ensures MoreText(ls) == "+" + Joint(AllShown(ls))
    decreases |ls|
  {
    hide LayerText, TextOf, Shown, IsDescribed;
    LayerPrinted(ls[0]);
    assert AllShown(ls)[1..] == AllShown(ls[1..]);
    if |ls| > 1 {
      MorePrinted(ls[1..]);
    } else {
      assert MoreText(ls[1..]) == "";
    }
  }

  /** The description of a packet: every field of every layer, in this order, with these
      names and in these forms of numbers, and a plus between the layers. */
  lemma PrintsEveryField(ls: seq<Layer>)
    requires AllDescribed(ls)
    ensures PacketText(ls) == Joint(AllShown(ls))
  {
    hide LayerText, TextOf, Shown, IsDescribed, MoreText;
    if |ls| > 0 {
      LayerPrinted(ls[0]);
      assert AllShown(ls)[1..] == AllShown(ls[1..]);
      if |ls| > 1 {
        MorePrinted(ls[1..]);
      } else {
        NoMoreText();
      }
    }
  }
}
