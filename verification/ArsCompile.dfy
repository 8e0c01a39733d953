// The layer compilers of src/ars.c: lengths, option padding, protocol numbers and
// checksums, filled in from the last layer to the first.
module ArsCompile {
  import opened Checksum
  import opened Ars

  const NOP: Byte := 1  // ARS_IPOPT_NOP and ARS_TCPOPT_NOP

  // --- what each compiler computes ------------------------------------------------------

  /** The index after the run of layers of kind k that starts at j. */
  function RunEnd(ls: seq<Layer>, j: nat, k: Kind): (e: nat)
    requires j <= |ls|
    ensures j <= e <= |ls|
    ensures forall i | j <= i < e :: ls[i].kind == k
    ensures e < |ls| ==> ls[e].kind != k
    decreases |ls| - j
  {
    if j < |ls| && ls[j].kind == k then RunEnd(ls, j + 1, k) else j
  }

  /** The first layer of the run of layers of kind k that ends before j. */
  function RunStart(ls: seq<Layer>, j: nat, k: Kind): (b: nat)
    requires j <= |ls|
    ensures b <= j
    ensures forall i | b <= i < j :: ls[i].kind == k
    ensures b > 0 ==> ls[b - 1].kind != k
  {
    if j > 0 && ls[j - 1].kind == k then RunStart(ls, j - 1, k) else j
  }

  /** The option bytes that follow header layer j. */
  function OptionBytes(ls: seq<Layer>, j: nat, k: Kind): seq<Byte>
    requires j < |ls|
  {
    Bytes(ls[j + 1..RunEnd(ls, j + 1, k)])
  }

  function Padding(size: nat): (n: nat)
    ensures n < 4 && (size + n) % 4 == 0
  {
    (4 - size % 4) % 4
  }

  function Nops(n: nat): (s: seq<Byte>)
    ensures |s| == n
  {
    seq(n, i => NOP)
  }

  /** ars_compiler_ipopt and ars_compiler_tcpopt: the last option of a run is padded to
      a multiple of four bytes. */
  function CompiledOption(ls: seq<Layer>, j: nat): Layer
    requires j < |ls|
  {
    var k := ls[j].kind;
    if j + 1 < |ls| && ls[j + 1].kind == k then ls[j]
    else
      var size := |Bytes(ls[RunStart(ls, j, k)..j + 1])|;
      ls[j].(data := ls[j].data + Nops(Padding(size)))
  }

  /** The protocol number of the layer after the options that start at n. */
  function ProtocolAt(ls: seq<Layer>, n: nat): Byte
    requires n <= |ls|
  {
    var e := RunEnd(ls, n, IpOpt);
    if e == |ls| then PROTO_RAW
    else match ls[e].kind
      case Ip => PROTO_IPIP
      case Icmp => PROTO_ICMP
      case Udp => PROTO_UDP
      case Tcp => PROTO_TCP
      case Igrp => PROTO_IGRP
      case _ => PROTO_RAW
  }

  /** The header fields ars_compiler_ip sets before the checksum. With an explicit
      header length the protocol search starts on the IP layer itself. */
  function IpFields(ls: seq<Layer>, j: nat): (h: seq<Byte>)
    requires j < |ls| && |ls[j].data| >= 20
    ensures |h| == |ls[j].data| && h[12..20] == ls[j].data[12..20]
  {
    var f, h0 := ls[j].flags, ls[j].data;
    var h1 := if TAKE_IP_VERSION in f then h0 else h0[0 := PutHigh4(h0[0], 4)];
    var h2 := if TAKE_IP_HDRLEN in f then h1
              else h1[0 := PutLow4(h1[0], 5 + |OptionBytes(ls, j, IpOpt)| / 4)];
    var h3 := if TAKE_IP_TOTLEN in f then h2 else Put16(h2, 2, RelativeSize(ls, j) % 0x1_0000);
    if TAKE_IP_PROTOCOL in f then h3
    else h3[9 := if TAKE_IP_HDRLEN in f then PROTO_IPIP else ProtocolAt(ls, j + 1)]
  }

  /** ars_compiler_ip */
  function CompiledIp(ls: seq<Layer>, j: nat): Layer
    requires j < |ls| && |ls[j].data| >= 20
  {
    var h := IpFields(ls, j);
    ls[j].(data := if TAKE_IP_CKSUM in ls[j].flags then h
                   else Put16(h, 10, Cksum(BigEndian, Put16(h, 10, 0)[..20] + OptionBytes(ls, j, IpOpt))))
  }

  function NextHeaderOf(k: Kind): Byte {
    match k
    case Ip6 => PROTO_IPV6
    case Ip => PROTO_IPIP
    case Icmp6 => PROTO_ICMPV6
    case Icmp => PROTO_ICMP
    case Udp => PROTO_UDP
    case Tcp => PROTO_TCP
    case _ => PROTO_NONE
  }

  /** ars_compiler_ip6 */
  function CompiledIp6(ls: seq<Layer>, j: nat): (l: Layer)
    requires j < |ls| && |ls[j].data| >= 40
    ensures |l.data| == |ls[j].data| && l.data[8..40] == ls[j].data[8..40]
  {
    var f, h0 := ls[j].flags, ls[j].data;
    var h1 := if TAKE_IP6_VERSION in f then h0 else h0[0 := PutHigh4(h0[0], 6)];
    var h2 := if TAKE_IP6_PAYLOADLEN in f then h1 else Put16(h1, 4, RelativeSize(ls, j + 1) % 0x1_0000);
    ls[j].(data := if TAKE_IP6_NEXTHDR in f then h2
                   else h2[6 := if j + 1 < |ls| then NextHeaderOf(ls[j + 1].kind) else PROTO_NONE])
  }

  /** Layers with a checksum over everything from them on. */
  predicate IsUpper(k: Kind) {
    k == Tcp || k == Udp || k == Icmp || k == Icmp6 || k == Igrp
  }

  function CksumOffset(k: Kind): nat
    requires IsUpper(k)
    ensures CksumOffset(k) + 1 < HeaderSize(k)
  {
    if k == Tcp then 16 else if k == Udp then 6 else if k == Igrp then 10 else 2
  }

  predicate KeepsCksum(l: Layer) {
    if l.kind == Tcp then TAKE_TCP_CKSUM in l.flags else 0 in l.flags
  }

  /** The length fields of an upper layer. */
  function UpperFields(ls: seq<Layer>, j: nat): (h: seq<Byte>)
    requires j < |ls| && IsUpper(ls[j].kind) && |ls[j].data| >= HeaderSize(ls[j].kind)
    ensures |h| == |ls[j].data|
  {
    var f, h := ls[j].flags, ls[j].data;
    if ls[j].kind == Tcp && TAKE_TCP_HDRLEN !in f then h[12 := PutHigh4(h[12], 5 + |OptionBytes(ls, j, TcpOpt)| / 4)]
    else if ls[j].kind == Udp && TAKE_UDP_LEN !in f then Put16(h, 4, RelativeSize(ls, j) % 0x1_0000)
    else h
  }

  /** The checksum of an upper layer whose header bytes are h. */
  function UpperCksum(ls: seq<Layer>, j: nat, h: seq<Byte>): Result<Word16>
    requires j < |ls| && WellSized(ls) && IsUpper(ls[j].kind) && |h| >= HeaderSize(ls[j].kind)
  {
    var k := ls[j].kind;
    var rest := Bytes(ls[j + 1..]);
    match PseudoOf(ls, j, k, |h| + |rest|)
    case Err(e) => Err(e)
    case Ok(ps) => Ok(Cksum(BigEndian, ps + Put16(h, CksumOffset(k), 0) + rest))
  }

  /** ars_compiler_tcp, _udp, _icmp, _icmp6 and _igrp */
  function CompiledUpper(ls: seq<Layer>, j: nat): Result<Layer>
    requires j < |ls| && WellSized(ls) && IsUpper(ls[j].kind)
  {
    var h := UpperFields(ls, j);
    if KeepsCksum(ls[j]) then Ok(ls[j].(data := h))
    else match UpperCksum(ls, j, h)
      case Err(e) => Err(e)
      case Ok(c) => Ok(ls[j].(data := Put16(h, CksumOffset(ls[j].kind), c)))
  }

  /** The compiler of layer j. */
  function CompiledLayer(ls: seq<Layer>, j: nat): (r: Result<Layer>)
    requires j < |ls| && WellSized(ls)
    ensures r.Ok? ==> r.value.kind == ls[j].kind && r.value.flags == ls[j].flags && |r.value.data| >= |ls[j].data|
  {
    var k := ls[j].kind;
    if k == Ip then Ok(CompiledIp(ls, j))
    else if k == Ip6 then Ok(CompiledIp6(ls, j))
    else if k == IpOpt || k == TcpOpt then Ok(CompiledOption(ls, j))
    else if IsUpper(k) then CompiledUpper(ls, j)
    else Ok(ls[j])
  }

  /** ars_compile for the layers below n. */
  function CompiledBelow(ls: seq<Layer>, n: nat): Result<seq<Layer>>
    requires n <= |ls| && WellSized(ls)
    decreases n
  {
    if n == 0 then Ok(ls)
    else match CompiledLayer(ls, n - 1)
      case Err(e) => Err(e)
      case Ok(l) => CompiledBelow(ls[n - 1 := l], n - 1)
  }

  /** ars_compile */
  function Compiled(ls: seq<Layer>): Result<seq<Layer>>
    requires WellSized(ls)
  {
    CompiledBelow(ls, |ls|)
  }

  // --- the compilers, step by step --------------------------------------------------------

  /** The length and the end of the options that follow layer j. */
  method SumOptions(pkt: Packet, j: nat, k: Kind) returns (size: nat, e: nat)
    requires j < |pkt.layers|
    ensures e == RunEnd(pkt.layers, j + 1, k) && size == |OptionBytes(pkt.layers, j, k)|
  {
    size, e := 0, j + 1;
    ghost var ls := pkt.layers;
    while e < |pkt.layers| && pkt.layers[e].kind == k
      invariant j + 1 <= e <= |ls| && RunEnd(ls, e, k) == RunEnd(ls, j + 1, k)
      invariant size == |Bytes(ls[j + 1..e])|
    {
      BytesGrow(ls, j + 1, e);
      size := size + |pkt.layers[e].data|;
      e := e + 1;
    }
  }

  /** One ARS_MC_UPDATE for each of the layers from b up to e. */
  method FeedLayers(mc: McContext, pkt: Packet, b: nat, e: nat)
    requires mc.Valid() && b <= e <= |pkt.layers|
    modifies mc
    ensures mc.Valid() && mc.fed == old(mc.fed) + Bytes(pkt.layers[b..e])
  {
    var j := b;
    ghost var ls, start := pkt.layers, mc.fed;
    assert start + Bytes(ls[b..b]) == start;
    while j < e
      invariant b <= j <= e && mc.Valid() && mc.fed == start + Bytes(ls[b..j])
      invariant pkt.layers == ls
    {
      BytesGrow(ls, b, j);
      mc.Update(pkt.layers[j].data);
      assert (start + Bytes(ls[b..j])) + ls[j].data == start + (Bytes(ls[b..j]) + ls[j].data);
      j := j + 1;
    }
  }

  /** The length, version and protocol fields of ars_compiler_ip. */
  method IpHeaderFields(pkt: Packet, j: nat, size: nat, e: nat) returns (h: seq<Byte>)
    requires j < |pkt.layers| && |pkt.layers[j].data| >= 20
    requires e == RunEnd(pkt.layers, j + 1, IpOpt) && size == |OptionBytes(pkt.layers, j, IpOpt)|
    ensures h == IpFields(pkt.layers, j)
  {
    var f := pkt.layers[j].flags;
    h := pkt.layers[j].data;
    if TAKE_IP_VERSION !in f {
      h := h[0 := PutHigh4(h[0], 4)];
    }
    if TAKE_IP_HDRLEN !in f {
      h := h[0 := PutLow4(h[0], 5 + size / 4)];
    }
    if TAKE_IP_TOTLEN !in f {
      var total := pkt.RelativeSizeFrom(j);
      h := Put16(h, 2, total % 0x1_0000);
    }
    if TAKE_IP_PROTOCOL !in f {
      assert RunEnd(pkt.layers, e, IpOpt) == e;
      var proto := if TAKE_IP_HDRLEN in f then PROTO_IPIP else ProtocolAt(pkt.layers, e);
      h := h[9 := proto];
    }
  }

  /** The checksum of ars_compiler_ip: the fixed header and the options up to e. */
  method IpHeaderCksum(pkt: Packet, j: nat, h: seq<Byte>, e: nat) returns (c: Word16)
    requires j < |pkt.layers| && |h| >= 20 && e == RunEnd(pkt.layers, j + 1, IpOpt)
    ensures c == Cksum(BigEndian, h[..20] + OptionBytes(pkt.layers, j, IpOpt))
  {
    var mc := new McContext(BigEndian);
    mc.Update(h[..20]);
    FeedLayers(mc, pkt, j + 1, e);
    assert mc.fed == h[..20] + OptionBytes(pkt.layers, j, IpOpt);
    c := mc.Final();
  }

  /** A field written twice holds the second value. */
  lemma PutTwice(h: seq<Byte>, i: nat, v: Word16, w: Word16)
    requires i + 1 < |h|
    ensures Put16(Put16(h, i, v), i, w) == Put16(h, i, w)
  {
  }

  /** ars_compiler_ip */
  method CompilerIp(pkt: Packet, j: nat)
    requires j < |pkt.layers| && |pkt.layers[j].data| >= 20
    modifies pkt`layers
    ensures pkt.layers == old(pkt.layers)[j := CompiledIp(old(pkt.layers), j)]
  {
    var l := pkt.layers[j];
    var size, e := SumOptions(pkt, j, IpOpt);
    var h := IpHeaderFields(pkt, j, size, e);
    if TAKE_IP_CKSUM !in l.flags {
      h := Put16(h, 10, 0);
      var c := IpHeaderCksum(pkt, j, h, e);
      PutTwice(IpFields(pkt.layers, j), 10, 0, c);
      h := Put16(h, 10, c);
    }
    pkt.layers := pkt.layers[j := l.(data := h)];
  }

  /** ars_compiler_ip6 */
  method CompilerIp6(pkt: Packet, j: nat)
    requires j < |pkt.layers| && |pkt.layers[j].data| >= 40
    modifies pkt`layers
    ensures pkt.layers == old(pkt.layers)[j := CompiledIp6(old(pkt.layers), j)]
  {
    var f, h := pkt.layers[j].flags, pkt.layers[j].data;
    if TAKE_IP6_VERSION !in f {
      h := h[0 := PutHigh4(h[0], 6)];
    }
    if TAKE_IP6_PAYLOADLEN !in f {
      var size := pkt.RelativeSizeFrom(j + 1);
      h := Put16(h, 4, size % 0x1_0000);
    }
    if TAKE_IP6_NEXTHDR !in f {
      var next := PROTO_NONE;
      if j + 1 < |pkt.layers| {
        next := NextHeaderOf(pkt.layers[j + 1].kind);
      }
      h := h[6 := next];
    }
    pkt.layers := pkt.layers[j := pkt.layers[j].(data := h)];
  }

  /** ars_compiler_ipopt and ars_compiler_tcpopt */
  method CompilerOption(pkt: Packet, j: nat)
    requires j < |pkt.layers| && (pkt.layers[j].kind == IpOpt || pkt.layers[j].kind == TcpOpt)
    modifies pkt`layers
    ensures pkt.layers == old(pkt.layers)[j := CompiledOption(old(pkt.layers), j)]
  {
    var ls := pkt.layers;
    var k := ls[j].kind;
    if j + 1 < |ls| && ls[j + 1].kind == k {
      return;
    }
    var b := j;
    while b > 0 && ls[b - 1].kind == k
      invariant 0 <= b <= j && RunStart(ls, b, k) == RunStart(ls, j, k)
    {
      b := b - 1;
    }
    var upTo := pkt.RelativeSizeFrom(b);
    var after := pkt.RelativeSizeFrom(j + 1);
    assert ls[b..] == ls[b..j + 1] + ls[j + 1..];
    BytesConcat(ls[b..j + 1], ls[j + 1..]);
    var size := upTo - after;
    pkt.layers := ls[j := ls[j].(data := ls[j].data + Nops(Padding(size)))];
  }

  /** The updates of a checksum context for pseudo header, header and what follows. */
  method SumFrom(pkt: Packet, j: nat, pseudo: seq<Byte>, header: seq<Byte>) returns (c: Word16)
    requires j < |pkt.layers|
    ensures c == Cksum(BigEndian, pseudo + header + Bytes(pkt.layers[j + 1..]))
  {
    var mc := new McContext(BigEndian);
    mc.Update(pseudo);
    mc.Update(header);
    FeedLayers(mc, pkt, j + 1, |pkt.layers|);
    assert pkt.layers[j + 1..|pkt.layers|] == pkt.layers[j + 1..];
    assert mc.fed == pseudo + header + Bytes(pkt.layers[j + 1..]);
    c := mc.Final();
  }

  /** The checksum of layer j over its pseudo header and all the layers from it on. */
  method ChecksumFrom(pkt: Packet, j: nat, h: seq<Byte>) returns (r: Result<Word16>)
    requires j < |pkt.layers| && WellSized(pkt.layers) && IsUpper(pkt.layers[j].kind)
    requires |h| >= HeaderSize(pkt.layers[j].kind)
    ensures r == UpperCksum(pkt.layers, j, h)
  {
    hide PseudoOf, Put16, Cksum;
    var k := pkt.layers[j].kind;
    var rest := pkt.RelativeSizeFrom(j + 1);
    var pseudo := PseudoOf(pkt.layers, j, k, |h| + rest);
    if pseudo.Err? {
      return Err(pseudo.error);
    }
    var zeroed := Put16(h, CksumOffset(k), 0);
    var c := SumFrom(pkt, j, pseudo.value, zeroed);
    r := Ok(c);
  }

  /** ars_compiler_tcp, _udp, _icmp, _icmp6 and _igrp: their length field, then the
      checksum. */
  method CompilerUpper(pkt: Packet, j: nat) returns (r: Result<()>)
    requires j < |pkt.layers| && WellSized(pkt.layers) && IsUpper(pkt.layers[j].kind)
    modifies pkt`layers
    ensures match CompiledUpper(old(pkt.layers), j)
            case Err(e) => r == Err(e)
            case Ok(l) => r.Ok? && pkt.layers == old(pkt.layers)[j := l]
  {
    hide UpperCksum, Bytes, Put16, CksumOffset;
    var l := pkt.layers[j];
    var h := l.data;
    if l.kind == Tcp && TAKE_TCP_HDRLEN !in l.flags {
      var size, e := SumOptions(pkt, j, TcpOpt);
      h := h[12 := PutHigh4(h[12], 5 + size / 4)];
    }
    if l.kind == Udp && TAKE_UDP_LEN !in l.flags {
      var size := pkt.RelativeSizeFrom(j);
      h := Put16(h, 4, size % 0x1_0000);
    }
    if !KeepsCksum(l) {
      var c := ChecksumFrom(pkt, j, h);
      if c.Err? {
        return Err(c.error);
      }
      h := Put16(h, CksumOffset(l.kind), c.value);
    }
    pkt.layers := pkt.layers[j := l.(data := h)];
    r := Ok(());
  }

  /** The table of compilers; data and unknown layers have none. */
  method CompileLayer(pkt: Packet, j: nat) returns (r: Result<()>)
    requires j < |pkt.layers| && WellSized(pkt.layers)
    modifies pkt`layers
    ensures match CompiledLayer(old(pkt.layers), j)
            case Err(e) => r == Err(e)
            case Ok(l) => r.Ok? && pkt.layers == old(pkt.layers)[j := l]
  {
    r := Ok(());
    match pkt.layers[j].kind {
      case Ip => CompilerIp(pkt, j);
      case Ip6 => CompilerIp6(pkt, j);
      case IpOpt => CompilerOption(pkt, j);
      case TcpOpt => CompilerOption(pkt, j);
      case Data =>
      case IgrpEntry =>
      case Tcp => r := CompilerUpper(pkt, j);
      case Udp => r := CompilerUpper(pkt, j);
      case Icmp => r := CompilerUpper(pkt, j);
      case Icmp6 => r := CompilerUpper(pkt, j);
      case Igrp => r := CompilerUpper(pkt, j);
    }
  }

  /** ars_compile: from the last layer to the first, stopping at an error. */
  method Compile(pkt: Packet) returns (r: Result<()>)
    requires WellSized(pkt.layers)
    modifies pkt`layers
    ensures match Compiled(old(pkt.layers))
            case Err(e) => r == Err(e)
            case Ok(ls) => r.Ok? && pkt.layers == ls
  {
    var j := |pkt.layers|;
    while j > 0
      invariant 0 <= j <= |pkt.layers| && WellSized(pkt.layers)
      invariant CompiledBelow(pkt.layers, j) == Compiled(old(pkt.layers))
    {
      j := j - 1;
      r := CompileLayer(pkt, j);
      if r.Err? {
        return;
      }
    }
    r := Ok(());
  }
}
