// The packet of src/ars.h: a stack of layers, their bytes, and the pseudo headers
// that tie an upper layer to the IP layer before it.
module Ars {
  import opened Checksum

  datatype Kind = Ip | IpOpt | Icmp | Udp | Tcp | TcpOpt | Igrp | IgrpEntry | Ip6 | Icmp6 | Data

  /** struct ars_layer; `flags` holds the numbers of the bits set in l_flags. */
  datatype Layer = Layer(kind: Kind, data: seq<Byte>, flags: set<nat>)

  datatype Error = NoSpace | Invalid
  datatype Result<T> = Ok(value: T) | Err(error: Error)

  const MAX_LAYER: nat := 256

  // flag bits of the compilers (ARS_TAKE_*)
  const TAKE_IP_VERSION: nat := 0
  const TAKE_IP_HDRLEN: nat := 1
  const TAKE_IP_TOTLEN: nat := 2
  const TAKE_IP_PROTOCOL: nat := 3
  const TAKE_IP_CKSUM: nat := 4
  const TAKE_ICMP_CKSUM: nat := 0
  const TAKE_UDP_CKSUM: nat := 0
  const TAKE_UDP_LEN: nat := 1
  const TAKE_TCP_HDRLEN: nat := 0
  const TAKE_TCP_CKSUM: nat := 1
  const TAKE_IGRP_CKSUM: nat := 0
  const TAKE_IP6_VERSION: nat := 0
  const TAKE_IP6_PAYLOADLEN: nat := 1
  const TAKE_IP6_NEXTHDR: nat := 2
  const TAKE_ICMP6_CKSUM: nat := 0

  // flag bits of the dissector (ARS_SPLIT_*)
  const TRUNCATED: nat := 0
  const BAD_CKSUM: nat := 1

  // protocol numbers
  const PROTO_ICMP: Byte := 1
  const PROTO_IPIP: Byte := 4
  const PROTO_TCP: Byte := 6
  const PROTO_IGRP: Byte := 9
  const PROTO_UDP: Byte := 17
  const PROTO_IPV6: Byte := 41
  const PROTO_ICMPV6: Byte := 58
  const PROTO_NONE: Byte := 59
  const PROTO_RAW: Byte := 255

  /** The size of the fixed header of a layer. */
  function HeaderSize(k: Kind): nat {
    match k
    case Ip => 20
    case Ip6 => 40
    case Tcp => 20
    case Udp => 8
    case Icmp => 8
    case Icmp6 => 8
    case Igrp => 12
    case IgrpEntry => 14
    case _ => 0
  }

  /** Every header layer holds at least its fixed header. */
  ghost predicate WellSized(ls: seq<Layer>) {
    forall i | 0 <= i < |ls| :: |ls[i].data| >= HeaderSize(ls[i].kind)
  }

  /** The bytes of the layers one after the other. */
  function Bytes(ls: seq<Layer>): seq<Byte> {
    if |ls| == 0 then [] else ls[0].data + Bytes(ls[1..])
  }

  /** ars_relative_size */
  function RelativeSize(ls: seq<Layer>, j: nat): nat
    requires j <= |ls|
  {
    |Bytes(ls[j..])|
  }

  lemma BytesCons(ls: seq<Layer>, j: nat)
    requires j < |ls|
    ensures Bytes(ls[j..]) == ls[j].data + Bytes(ls[j + 1..])
  {
    assert ls[j..][1..] == ls[j + 1..];
  }

  lemma {:induction false} BytesConcat(a: seq<Layer>, b: seq<Layer>)
    ensures Bytes(a + b) == Bytes(a) + Bytes(b)
  {
    if |a| == 0 {
      assert a + b == b;
    } else {
      assert (a + b)[1..] == a[1..] + b;
      BytesConcat(a[1..], b);
    }
  }

  lemma BytesOne(l: Layer)
    ensures Bytes([l]) == l.data
  {
    assert [l][1..] == [];
  }

  /** The layers with one more. */
  lemma BytesSnoc(ls: seq<Layer>, l: Layer)
    ensures Bytes(ls + [l]) == Bytes(ls) + l.data
  {
    BytesConcat(ls, [l]);
    BytesOne(l);
  }

  /** A slice of the layers with one more. */
  lemma BytesGrow(ls: seq<Layer>, b: nat, e: nat)
    requires b <= e < |ls|
    ensures Bytes(ls[b..e + 1]) == Bytes(ls[b..e]) + ls[e].data
  {
    hide Bytes;
    assert ls[b..e + 1] == ls[b..e] + [ls[e]];
    BytesSnoc(ls[b..e], ls[e]);
  }

  // --- header fields -----------------------------------------------------------------

  /** A 16-bit field in network order. */
  function Get16(h: seq<Byte>, i: nat): Word16
    requires i + 1 < |h|
  {
    var hi: nat, lo: nat := h[i], h[i + 1];
    256 * hi + lo
  }

  function Put16(h: seq<Byte>, i: nat, w: Word16): (r: seq<Byte>)
    requires i + 1 < |h|
    ensures |r| == |h| && Get16(r, i) == w
    ensures forall k | 0 <= k < |h| && k != i && k != i + 1 :: r[k] == h[k]
  {
    h[i := w / 256][i + 1 := w % 256]
  }

  /** The 4-bit fields of a byte. */
  function High4(b: Byte): (r: nat)
    ensures r < 16
  {
    b / 16
  }

  function Low4(b: Byte): (r: nat)
    ensures r < 16
  {
    b % 16
  }

  function PutHigh4(b: Byte, v: nat): (r: Byte)
    ensures High4(r) == v % 16 && Low4(r) == Low4(b)
  {
    (v % 16) * 16 + b % 16
  }

  function PutLow4(b: Byte, v: nat): (r: Byte)
    ensures Low4(r) == v % 16 && High4(r) == High4(b)
  {
    (b / 16) * 16 + v % 16
  }

  // --- pseudo headers --------------------------------------------------------------------

  /** struct ars_pseudohdr for an upper layer of `len` bytes. */
  function Pseudo4(ip: seq<Byte>, proto: Byte, len: nat): seq<Byte>
    requires |ip| >= 20
  {
    ip[12..20] + [0, proto, (len / 256) % 256, len % 256]
  }

  /** struct ars_ip6_pseudohdr (section 8.1 of RFC 8200). */
  function Pseudo6(ip6: seq<Byte>, proto: Byte, len: nat): seq<Byte>
    requires |ip6| >= 40
  {
    ip6[8..40] + [(len / 0x100_0000) % 256, (len / 0x1_0000) % 256, (len / 256) % 256, len % 256, 0, 0, 0, proto]
  }

  /** The first layer at or below k that is not an IP option; layer 0 whatever it is. */
  function SkipOptions(ls: seq<Layer>, k: int): (p: int)
    requires -1 <= k < |ls|
    ensures -1 <= p <= k && (p == -1 <==> k == -1)
    ensures forall i | p < i <= k :: ls[i].kind == IpOpt
    ensures p > 0 ==> ls[p].kind != IpOpt
    decreases k
  {
    if k > 0 && ls[k].kind == IpOpt then SkipOptions(ls, k - 1) else k
  }

  /** The pseudo header ars_ip6_pseudo_cksum sums, if the layer before is IPv6. */
  function PseudoFor6(ls: seq<Layer>, j: nat, proto: Byte, len: nat): Result<seq<Byte>>
    requires j <= |ls| && WellSized(ls)
  {
    if j == 0 || ls[j - 1].kind != Ip6 then Err(Invalid) else Ok(Pseudo6(ls[j - 1].data, proto, len))
  }

  function ProtoOf(k: Kind): Byte {
    if k == Tcp then PROTO_TCP else PROTO_UDP
  }

  /** The pseudo header ars_udptcp_cksum sums for layer j of kind k and length len. */
  function PseudoForL4(ls: seq<Layer>, j: nat, k: Kind, len: nat): Result<seq<Byte>>
    requires j <= |ls| && WellSized(ls)
  {
    var p := SkipOptions(ls[..j], j - 1);
    if p >= 0 && ls[p].kind == Ip6 then PseudoFor6(ls, j, ProtoOf(k), len)
    else if p < 0 || ls[p].kind != Ip then Err(Invalid)
    else Ok(Pseudo4(ls[p].data, ProtoOf(k), len))
  }

  /** The pseudo header that the checksum of layer j covers: none for ICMP and IGRP. */
  function PseudoOf(ls: seq<Layer>, j: nat, k: Kind, len: nat): Result<seq<Byte>>
    requires j <= |ls| && WellSized(ls)
  {
    if k == Icmp6 then PseudoFor6(ls, j, PROTO_ICMPV6, len)
    else if k == Tcp || k == Udp then PseudoForL4(ls, j, k, len)
    else Ok([])
  }

  // --- the packet object ----------------------------------------------------------------

  /** struct ars_packet. */
  class Packet {
    var layers: seq<Layer>
    var aux: nat        // option bytes still to be dissected
    var auxProto: Byte  // protocol to go on with after the IP options

    /** ars_init */
    constructor ()
      ensures layers == [] && aux == 0 && auxProto == 0
    {
      layers, aux, auxProto := [], 0, 0;
    }

    /** ars_relative_size */
    method RelativeSizeFrom(n: nat) returns (size: nat)
      requires n <= |layers|
      ensures size == RelativeSize(layers, n)
    {
      var j := n;
      size := 0;
      while j < |layers|
        invariant n <= j <= |layers| && size + |Bytes(layers[j..])| == |Bytes(layers[n..])|
      {
        BytesCons(layers, j);
        size := size + |layers[j].data|;
        j := j + 1;
      }
    }

    /** ars_build_packet: the layers one after the other; an empty packet is an error. */
    method BuildPacket() returns (r: Result<seq<Byte>>)
      ensures r == if |Bytes(layers)| == 0 then Err(Invalid) else Ok(Bytes(layers))
    {
      var total := RelativeSizeFrom(0);
      assert layers[0..] == layers;
      if total == 0 {
        return Err(Invalid);
      }
      var packet: seq<Byte> := [];
      var j := 0;
      while j < |layers|
        invariant 0 <= j <= |layers| && packet + Bytes(layers[j..]) == Bytes(layers)
      {
        BytesCons(layers, j);
        packet := packet + layers[j].data;
        j := j + 1;
      }
      assert layers[j..] == [] && packet + [] == packet;
      return Ok(packet);
    }
  }
}
