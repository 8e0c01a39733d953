// The dissector of src/split.c: a state machine that cuts a byte string into layers.
module ArsSplit {
  import opened Checksum
  import opened Ars

  /** ARS_SPLIT_* states */
  datatype Phase =
    | Done | GetIp | GetIpOpt | GetIcmp | GetUdp | GetTcp | GetTcpOpt | GetIgrp | GetIgrpEntry | GetData | GetIp6
    | GetIcmp6

  /** What a state handler does: the layer it adds, the bytes it consumes, and the
      state it leaves behind. */
  datatype Taken = Taken(layer: Layer, len: nat, next: Phase, aux: nat, proto: Byte)

  /** The dissection so far. */
  datatype Scan = Scan(phase: Phase, layers: seq<Layer>, aux: nat, proto: Byte)

  function Min(a: nat, b: nat): nat {
    if a < b then a else b
  }

  /** The header that ars_add_*hdr allocates before the bytes are copied over it. */
  function FreshHeader(k: Kind): (h: seq<Byte>)
    ensures |h| == HeaderSize(k)
  {
    var zeros: seq<Byte> := seq(HeaderSize(k), i => 0);
    if k == Ip6 then zeros[0 := 0x60][7 := 64]
    else if k == Icmp then zeros[0 := 8]
    else if k == Icmp6 then zeros[0 := 128]
    else zeros
  }

  /** A header layer made of the first bytes of p; short input leaves the rest fresh. */
  function HeaderLayer(k: Kind, p: seq<Byte>, flags: set<nat>): (l: Layer)
    ensures l.kind == k && l.flags == flags && |l.data| == HeaderSize(k)
    ensures var n := Min(|p|, HeaderSize(k)); l.data == p[..n] + FreshHeader(k)[n..]
  {
    var n := Min(|p|, HeaderSize(k));
    Layer(k, p[..n] + FreshHeader(k)[n..], flags)
  }

  /** ars_ip_next_state */
  function IpNext(proto: Byte): Phase {
    if proto == PROTO_IPIP then GetIp
    else if proto == PROTO_ICMP then GetIcmp
    else if proto == PROTO_TCP then GetTcp
    else if proto == PROTO_UDP then GetUdp
    else if proto == PROTO_IGRP then GetIgrp
    else GetData
  }

  /** ars_ip6_is_extension */
  predicate IsExtension(next: Byte) {
    next == 0 || next == 43 || next == 44 || next == 50 || next == 51 || next == 60 || next == 135
  }

  /** ars_ip6_next_state */
  function Ip6Next(next: Byte): Phase {
    if IsExtension(next) then GetData
    else if next == PROTO_ICMPV6 then GetIcmp6
    else if next == PROTO_TCP then GetTcp
    else if next == PROTO_UDP then GetUdp
    else if next == PROTO_ICMP then GetIcmp
    else if next == PROTO_IPV6 then GetIp6
    else if next == PROTO_IPIP then GetIp
    else GetData
  }

  /** The stored checksum at offset o is the one the other bytes give. */
  predicate CksumMatches(pseudo: seq<Byte>, p: seq<Byte>, o: nat)
    requires o + 1 < |p|
  {
    Cksum(BigEndian, pseudo + Put16(p, o, 0)) == Get16(p, o)
  }

  function Bad(ok: bool): set<nat> {
    if ok then {} else {BAD_CKSUM}
  }

  // --- the state handlers ---------------------------------------------------------------

  /** ars_split_ip */
  function TakeIp(p: seq<Byte>, aux: nat, proto: Byte): Taken {
    if |p| < 20 then Taken(HeaderLayer(Ip, p, {TRUNCATED}), |p|, GetData, aux, proto)
    else
      var ihl := Low4(p[0]);
      if ihl < 5 then Taken(HeaderLayer(Ip, p, {TRUNCATED, BAD_CKSUM}), 20, GetData, aux, proto)
      else if |p| < ihl * 4 then Taken(HeaderLayer(Ip, p, {TRUNCATED}), 20, GetData, aux, proto)
      else
        var l := HeaderLayer(Ip, p, Bad(CksumMatches([], p[..ihl * 4], 10)));
        if ihl > 5 then Taken(l, 20, GetIpOpt, (ihl - 5) * 4, p[9]) else Taken(l, 20, IpNext(p[9]), aux, proto)
  }

  /** ars_split_ip6 */
  function TakeIp6(p: seq<Byte>, aux: nat, proto: Byte): Taken {
    if |p| < 40 then Taken(HeaderLayer(Ip6, p, {TRUNCATED}), |p|, GetData, aux, proto)
    else Taken(HeaderLayer(Ip6, p, {}), 40, Ip6Next(p[6]), aux, proto)
  }

  /** The size ars_split_ipopt and ars_split_tcpopt give to the option at the head of
      p, of which m bytes are option space, and whether it is cut short. */
  function OptionSize(p: seq<Byte>, m: nat): (r: (nat, bool))
    requires 0 < m <= |p|
    ensures 1 <= r.0 <= m
  {
    if p[0] == 0 || p[0] == 1 then (1, false)
    else if m < 2 then (1, true)
    else if p[1] == 0 then (1, false)
    else if m < p[1] then (m, true)
    else (p[1], false)
  }

  /** ars_split_ipopt and ars_split_tcpopt */
  function TakeOption(k: Kind, p: seq<Byte>, aux: nat, proto: Byte): Taken
    requires aux > 0 && |p| > 0
  {
    var (size, cut) := OptionSize(p, Min(|p|, aux));
    var l := Layer(k, p[..size], if cut then {TRUNCATED} else {});
    var after := if k == IpOpt then IpNext(proto) else GetData;
    var again := if k == IpOpt then GetIpOpt else GetTcpOpt;
    Taken(l, size, if aux - size > 0 then again else after, aux - size, proto)
  }

  /** ars_split_icmp */
  function TakeIcmp(p: seq<Byte>, aux: nat, proto: Byte): Taken {
    if |p| < 8 then Taken(HeaderLayer(Icmp, p, {TRUNCATED}), |p|, GetData, aux, proto)
    else
      var echoLike := p[0] == 8 || p[0] == 0 || 13 <= p[0] <= 16;
      Taken(HeaderLayer(Icmp, p, Bad(CksumMatches([], p, 2))), 8, if echoLike then GetData else GetIp, aux, proto)
  }

  /** ars_split_icmp6; without an IPv6 header before it nothing can be verified. */
  function TakeIcmp6(ls: seq<Layer>, p: seq<Byte>, aux: nat, proto: Byte): Taken
    requires WellSized(ls)
  {
    if |p| < 8 then Taken(HeaderLayer(Icmp6, p, {TRUNCATED}), |p|, GetData, aux, proto)
    else
      var ok := match PseudoOf(ls, |ls|, Icmp6, |p|)
                case Err(_) => true
                case Ok(ps) => CksumMatches(ps, p, 2);
      Taken(HeaderLayer(Icmp6, p, Bad(ok)), 8, GetData, aux, proto)
  }

  /** ars_split_udp */
  function TakeUdp(ls: seq<Layer>, p: seq<Byte>, aux: nat, proto: Byte): Result<Taken>
    requires WellSized(ls)
  {
    if |p| < 8 then Ok(Taken(HeaderLayer(Udp, p, {TRUNCATED}), |p|, GetData, aux, proto))
    else match PseudoOf(ls, |ls|, Udp, |p|)
      case Err(e) => Err(e)
      case Ok(ps) => Ok(Taken(HeaderLayer(Udp, p, Bad(CksumMatches(ps, p, 6))), 8, GetData, aux, proto))
  }

  /** ars_split_tcp */
  function TakeTcp(ls: seq<Layer>, p: seq<Byte>, aux: nat, proto: Byte): Result<Taken>
    requires WellSized(ls)
  {
    if |p| < 20 then Ok(Taken(HeaderLayer(Tcp, p, {TRUNCATED}), |p|, GetData, aux, proto))
    else match PseudoOf(ls, |ls|, Tcp, |p|)
      case Err(e) => Err(e)
      case Ok(ps) =>
        var off := High4(p[12]);
        var flags := if off < 5 then {BAD_CKSUM}
                     else if |p| < off * 4 then {TRUNCATED}
                     else Bad(CksumMatches(ps, p, 16));
        Ok(Taken(HeaderLayer(Tcp, p, flags), 20, if off > 5 then GetTcpOpt else GetData,
                 if off > 5 then (off - 5) * 4 else aux, proto))
  }

  /** ars_split_igrp and ars_split_igrpentry */
  function TakeIgrp(k: Kind, p: seq<Byte>, aux: nat, proto: Byte): Taken {
    Taken(HeaderLayer(k, p, if |p| < HeaderSize(k) then {TRUNCATED} else {}), Min(|p|, HeaderSize(k)), GetIgrpEntry,
          aux, proto)
  }

  /** A state the machine can be in: option states have option space left, and each
      upper layer follows the IP header its checksum needs. */
  ghost predicate Sane(s: Scan) {
    var n := |s.layers|;
    var p := SkipOptions(s.layers, n - 1);
    && WellSized(s.layers) && s.phase != Done
    && (s.phase == GetIpOpt ==> s.aux > 0 && p >= 0 && s.layers[p].kind == Ip)
    && (s.phase == GetTcpOpt ==> s.aux > 0)
    && (s.phase == GetTcp || s.phase == GetUdp ==>
          p >= 0 && (s.layers[p].kind == Ip || (s.layers[p].kind == Ip6 && p == n - 1)))
    && (s.phase == GetIcmp6 ==> n > 0 && s.layers[n - 1].kind == Ip6)
  }

  /** The handler of the current state; a full packet takes no more layers. */
  function Handle(s: Scan, p: seq<Byte>): (r: Result<Taken>)
    requires Sane(s) && (s.phase == GetIpOpt || s.phase == GetTcpOpt ==> |p| > 0)
    ensures r.Ok? ==> r.value.len <= |p| && (|p| > 0 ==> r.value.len > 0)
    ensures r.Ok? ==> |r.value.layer.data| >= HeaderSize(r.value.layer.kind)
  {
    if |s.layers| == MAX_LAYER then Err(NoSpace)
    else if s.phase == GetIp then Ok(TakeIp(p, s.aux, s.proto))
    else if s.phase == GetIp6 then Ok(TakeIp6(p, s.aux, s.proto))
    else if s.phase == GetIpOpt then Ok(TakeOption(IpOpt, p, s.aux, s.proto))
    else if s.phase == GetTcpOpt then Ok(TakeOption(TcpOpt, p, s.aux, s.proto))
    else if s.phase == GetIcmp then Ok(TakeIcmp(p, s.aux, s.proto))
    else if s.phase == GetIcmp6 then Ok(TakeIcmp6(s.layers, p, s.aux, s.proto))
    else if s.phase == GetUdp then TakeUdp(s.layers, p, s.aux, s.proto)
    else if s.phase == GetTcp then TakeTcp(s.layers, p, s.aux, s.proto)
    else if s.phase == GetIgrp then Ok(TakeIgrp(Igrp, p, s.aux, s.proto))
    else if s.phase == GetIgrpEntry then Ok(TakeIgrp(IgrpEntry, p, s.aux, s.proto))
    else Ok(Taken(Layer(Data, p, {}), |p|, Done, s.aux, s.proto))
  }

  /** The pseudo-header lookup never fails in a state the machine can be in. */
  lemma {:induction false} LookupNeverFails(s: Scan, p: seq<Byte>)
    requires Sane(s) && (s.phase == GetIpOpt || s.phase == GetTcpOpt ==> |p| > 0)
    ensures Handle(s, p) != Err(Invalid)
    ensures Handle(s, p).Err? <==> |s.layers| == MAX_LAYER
  {
    var ls := s.layers;
    assert ls[..|ls|] == ls;
  }

  /** The state after a handler. */
  function After(s: Scan, t: Taken): Scan {
    Scan(t.next, s.layers + [t.layer], t.aux, t.proto)
  }

  lemma {:induction false} SkipOptionsPrefix(ls: seq<Layer>, l: Layer, k: int)
    requires -1 <= k < |ls|
    ensures SkipOptions(ls + [l], k) == SkipOptions(ls, k)
    decreases k
  {
    if k > 0 && ls[k].kind == IpOpt {
      SkipOptionsPrefix(ls, l, k - 1);
    }
  }

  /** Which layer leads to which state. */
  predicate LeadsOn(phase: Phase, t: Taken) {
    var k := t.layer.kind;
    && (t.next == GetTcp || t.next == GetUdp || t.next == GetIpOpt ==>
          k == Ip || (k == Ip6 && t.next != GetIpOpt) || (k == IpOpt && phase == GetIpOpt))
    && (t.next == GetIcmp6 ==> k == Ip6)
    && (t.next == GetIpOpt || t.next == GetTcpOpt ==> t.aux > 0)
  }

  lemma IpLeadsOn(p: seq<Byte>, aux: nat, proto: Byte)
    ensures var t, t6 := TakeIp(p, aux, proto), TakeIp6(p, aux, proto);
            && LeadsOn(GetIp, t) && (t.next == Done ==> t.len == |p|)
            && LeadsOn(GetIp6, t6) && (t6.next == Done ==> t6.len == |p|)
  {
    hide CksumMatches, HeaderLayer, Get16;
  }

  lemma OptionLeadsOn(k: Kind, p: seq<Byte>, aux: nat, proto: Byte)
    requires aux > 0 && |p| > 0 && (k == IpOpt || k == TcpOpt)
    ensures var t := TakeOption(k, p, aux, proto);
            LeadsOn(if k == IpOpt then GetIpOpt else GetTcpOpt, t) && (t.next == Done ==> t.len == |p|)
  {
  }

  lemma SaneOption(s: Scan)
    requires Sane(s)
    ensures s.phase == GetIpOpt || s.phase == GetTcpOpt ==> s.aux > 0
  {
  }

  lemma NextPhase(s: Scan, p: seq<Byte>)
    requires |p| > 0 && Sane(s) && Handle(s, p).Ok?
    ensures var t := Handle(s, p).value; LeadsOn(s.phase, t) && (t.next == Done ==> t.len == |p|)
  {
    hide Sane, CksumMatches, PseudoOf, SkipOptions, WellSized, HeaderLayer, TakeIp, TakeIp6, TakeOption;
    SaneOption(s);
    match s.phase {
      case GetIp => IpLeadsOn(p, s.aux, s.proto);
      case GetIp6 => IpLeadsOn(p, s.aux, s.proto);
      case GetIpOpt => OptionLeadsOn(IpOpt, p, s.aux, s.proto);
      case GetTcpOpt => OptionLeadsOn(TcpOpt, p, s.aux, s.proto);
      case _ =>
    }
  }

  lemma SaneAfter(s: Scan, t: Taken)
    requires Sane(s) && t.next != Done && |t.layer.data| >= HeaderSize(t.layer.kind) && LeadsOn(s.phase, t)
    ensures Sane(After(s, t))
  {
    var ls := s.layers;
    SkipOptionsPrefix(ls, t.layer, |ls| - 1);
    var next := ls + [t.layer];
    assert next[|ls|] == t.layer;
  }

  /** Every step with bytes left leads to such a state again, or to the end. */
  lemma {:induction false} StepKeepsSane(s: Scan, p: seq<Byte>)
    requires |p| > 0 && Sane(s) && Handle(s, p).Ok?
    ensures var t := Handle(s, p).value; t.next != Done ==> Sane(After(s, t))
    ensures var t := Handle(s, p).value; t.next == Done ==> t.len == |p|
  {
    NextPhase(s, p);
    var t := Handle(s, p).value;
    if t.next != Done {
      SaneAfter(s, t);
    }
  }

  // --- the machine ------------------------------------------------------------------------

  /** Link-layer padding: the first layer says how long the datagram is. A length that
      does not even cover the header taken leaves just the header. */
  function Datagram(layers: seq<Layer>, len: nat, p: seq<Byte>): (n: nat)
    requires WellSized(layers) && len <= |p|
    ensures len <= n <= |p|
  {
    if |layers| != 1 then |p|
    else if layers[0].kind == Ip then
      var total := Get16(layers[0].data, 2);
      Min(|p|, if total < len then len else total)
    else if layers[0].kind == Ip6 then Min(|p|, Get16(layers[0].data, 4) + len)
    else |p|
  }

  /** ars_split_packet from a state of the machine. */
  function Dissect(s: Scan, p: seq<Byte>): Result<seq<Layer>>
    requires Sane(s) && (s.phase == GetIpOpt || s.phase == GetTcpOpt ==> |p| > 0)
    decreases |p|
  {
    match Handle(s, p)
    case Err(e) => Err(e)
    case Ok(t) =>
      var layers := s.layers + [t.layer];
      var rest := p[t.len..Datagram(layers, t.len, p)];
      if |rest| == 0 then Ok(layers)
      else
        StepKeepsSane(s, p);
        Dissect(After(s, t), rest)
  }

  /** The first layer is chosen by the version nibble. */
  function Start(p: seq<Byte>): (s: Scan)
    ensures Sane(s) && s.layers == []
  {
    Scan(if |p| > 0 && High4(p[0]) == 6 then GetIp6 else GetIp, [], 0, 0)
  }

  /** ars_seems_ip: version 4, a header that fits, and its checksum. */
  predicate SeemsIp(p: seq<Byte>) {
    && |p| >= 20 && High4(p[0]) == 4 && Low4(p[0]) >= 5 && Low4(p[0]) * 4 <= |p|
    && CksumMatches([], p[..Low4(p[0]) * 4], 10)
  }

  /** ars_guess_ipoff: the first place that looks like an IPv4 header. */
  method GuessIpOff(packet: seq<Byte>) returns (off: int)
    ensures -1 <= off <= |packet|
    ensures off >= 0 ==> SeemsIp(packet[off..])
    ensures forall i | 0 <= i < (if off >= 0 then off else |packet| + 1) :: !SeemsIp(packet[i..])
  {
    off := 0;
    while |packet| - off >= 20
      invariant 0 <= off <= |packet|
      invariant forall i | 0 <= i < off :: !SeemsIp(packet[i..])
    {
      if SeemsIp(packet[off..]) {
        return;
      }
      off := off + 1;
    }
    forall i | off <= i <= |packet|
      ensures !SeemsIp(packet[i..])
    {
      assert |packet[i..]| < 20;
    }
    off := -1;
  }

  /** One turn of the loop of ars_split_packet. */
  method SplitStep(pkt: Packet, state: Phase, p: seq<Byte>) returns (r: Result<(Phase, nat, nat)>)
    requires Sane(Scan(state, pkt.layers, pkt.aux, pkt.auxProto))
    requires state == GetIpOpt || state == GetTcpOpt ==> |p| > 0
    modifies pkt
    ensures match Handle(Scan(state, old(pkt.layers), old(pkt.aux), old(pkt.auxProto)), p)
            case Err(e) => r == Err(e)
            case Ok(t) =>
              && pkt.layers == old(pkt.layers) + [t.layer] && pkt.aux == t.aux && pkt.auxProto == t.proto
              && WellSized(pkt.layers) && r == Ok((t.next, t.len, Datagram(pkt.layers, t.len, p)))
  {
    match Handle(Scan(state, pkt.layers, pkt.aux, pkt.auxProto), p) {
      case Err(e) => return Err(e);
      case Ok(t) =>
        pkt.layers := pkt.layers + [t.layer];
        pkt.aux, pkt.auxProto := t.aux, t.proto;
        return Ok((t.next, t.len, Datagram(pkt.layers, t.len, p)));
    }
  }

  lemma SliceOfSlice(s: seq<Byte>, offset: nat, size: nat, b: nat, e: nat)
    requires offset + size <= |s| && b <= e <= size
    ensures s[offset..offset + size][b..e] == s[offset + b..offset + e]
  {
    var inner := s[offset..offset + size];
    assert forall i | 0 <= i < e - b :: inner[b..e][i] == s[offset + b..offset + e][i];
  }

  /** What dissection leaves: the layers the machine gives for the bytes p, or its error. */
  predicate IsDissection(r: Result<()>, layers: seq<Layer>, p: seq<Byte>) {
    match Dissect(Start(p), p)
    case Err(e) => r == Err(e)
    case Ok(ls) => r.Ok? && layers == ls
  }

  /** The loop of ars_split_packet. */
  method SplitFrom(pkt: Packet, packet: seq<Byte>) returns (r: Result<()>)
    requires pkt.layers == [] && pkt.aux == 0 && pkt.auxProto == 0
    modifies pkt
    ensures IsDissection(r, pkt.layers, packet)
  {
    hide Handle, WellSized, Datagram;
    var state := Start(packet).phase;
    var offset, size := 0, |packet|;
    ghost var goal := Dissect(Start(packet), packet);
    assert packet[0..size] == packet;
    while state != Done
      invariant 0 <= offset <= offset + size <= |packet|
      invariant state != Done ==>
                  && Sane(Scan(state, pkt.layers, pkt.aux, pkt.auxProto))
                  && (state == GetIpOpt || state == GetTcpOpt ==> size > 0)
                  && Dissect(Scan(state, pkt.layers, pkt.aux, pkt.auxProto), packet[offset..offset + size]) == goal
      invariant state == Done ==> goal == Ok(pkt.layers)
      decreases size, if state == Done then 0 else 1
    {
      var p := packet[offset..offset + size];
      ghost var s := Scan(state, pkt.layers, pkt.aux, pkt.auxProto);
      var step := SplitStep(pkt, state, p);
      if step.Err? {
        return Err(step.error);
      }
      var (next, len, n) := step.value;
      SliceOfSlice(packet, offset, size, len, n);
      if n == len {
        state := Done;
      } else {
        StepKeepsSane(s, p);
        state := next;
      }
      offset := offset + len;
      size := n - len;
    }
    r := Ok(());
  }

  /** The first place that looks like an IPv4 header. */
  ghost predicate IsFirstIp(packet: seq<Byte>, off: nat) {
    && off <= |packet| && SeemsIp(packet[off..])
    && forall i | 0 <= i < off :: !SeemsIp(packet[i..])
  }

  lemma OneFirstIp(packet: seq<Byte>, guess: int)
    requires -1 <= guess <= |packet| && (guess >= 0 ==> SeemsIp(packet[guess..]))
    requires forall i | 0 <= i < (if guess >= 0 then guess else |packet| + 1) :: !SeemsIp(packet[i..])
    ensures forall off: nat | IsFirstIp(packet, off) :: off == guess
    ensures guess >= 0 ==> exists i | 0 <= i <= |packet| :: SeemsIp(packet[i..])
  {
    hide SeemsIp;
  }

  /** ars_split_packet; an offset of -1 asks for autodetection. */
  method SplitPacket(pkt: Packet, packet: seq<Byte>, ipoff: int) returns (r: Result<()>)
    requires pkt.layers == [] && pkt.aux == 0 && pkt.auxProto == 0
    modifies pkt
    ensures 0 <= ipoff <= |packet| ==> IsDissection(r, pkt.layers, packet[ipoff..])
    ensures ipoff < -1 || ipoff > |packet| ==> r == Err(Invalid)
    ensures ipoff == -1 ==> forall off: nat | IsFirstIp(packet, off) :: IsDissection(r, pkt.layers, packet[off..])
    ensures ipoff == -1 && (forall i | 0 <= i <= |packet| :: !SeemsIp(packet[i..])) ==> r == Err(Invalid)
  {
    hide IsDissection, SeemsIp, Dissect, IsFirstIp;
    var off := ipoff;
    if ipoff == -1 {
      off := GuessIpOff(packet);
      OneFirstIp(packet, off);
    }
    if off < 0 || off > |packet| {
      return Err(Invalid);
    }
    r := SplitFrom(pkt, packet[off..]);
  }

  // --- nothing is lost -----------------------------------------------------------------------

  predicate TakesHeader(phase: Phase) {
    phase != GetIpOpt && phase != GetTcpOpt && phase != GetData && phase != Done
  }

  /** The header of p, or all there is of it. */
  predicate TakenAsHeader(t: Taken, p: seq<Byte>) {
    var l := t.layer;
    && l == HeaderLayer(l.kind, p, l.flags) && t.len == Min(|p|, HeaderSize(l.kind))
    && (|p| < HeaderSize(l.kind) ==> TRUNCATED in l.flags)
  }

  lemma IpTakesHeader(p: seq<Byte>, aux: nat, proto: Byte)
    ensures TakenAsHeader(TakeIp(p, aux, proto), p) && TakenAsHeader(TakeIp6(p, aux, proto), p)
  {
    hide CksumMatches, Bad, IpNext, Ip6Next, FreshHeader;
  }

  lemma IcmpTakesHeader(p: seq<Byte>, aux: nat, proto: Byte)
    ensures TakenAsHeader(TakeIcmp(p, aux, proto), p)
  {
    hide CksumMatches, Bad, FreshHeader;
  }

  lemma Icmp6TakesHeader(ls: seq<Layer>, p: seq<Byte>, aux: nat, proto: Byte)
    requires WellSized(ls)
    ensures TakenAsHeader(TakeIcmp6(ls, p, aux, proto), p)
  {
    hide CksumMatches, PseudoOf, Bad, FreshHeader;
  }

  lemma UdpTakesHeader(ls: seq<Layer>, p: seq<Byte>, aux: nat, proto: Byte)
    requires WellSized(ls)
    ensures var r := TakeUdp(ls, p, aux, proto); r.Ok? ==> TakenAsHeader(r.value, p)
  {
    hide CksumMatches, PseudoOf, Bad, FreshHeader;
  }

  lemma TcpTakesHeader(ls: seq<Layer>, p: seq<Byte>, aux: nat, proto: Byte)
    requires WellSized(ls)
    ensures var r := TakeTcp(ls, p, aux, proto); r.Ok? ==> TakenAsHeader(r.value, p)
  {
    hide CksumMatches, PseudoOf, Bad, FreshHeader;
  }

  lemma IgrpTakesHeader(k: Kind, p: seq<Byte>, aux: nat, proto: Byte)
    ensures TakenAsHeader(TakeIgrp(k, p, aux, proto), p)
  {
    hide FreshHeader;
  }

  /** Every handler but those of options and data takes a header. */
  lemma HeaderTaken(s: Scan, p: seq<Byte>)
    requires Sane(s) && TakesHeader(s.phase) && Handle(s, p).Ok?
    ensures TakenAsHeader(Handle(s, p).value, p)
  {
    hide TakenAsHeader, TakeIp, TakeIp6, TakeIcmp, TakeIcmp6, TakeUdp, TakeTcp, TakeIgrp, SkipOptions;
    match s.phase {
      case GetIp => IpTakesHeader(p, s.aux, s.proto);
      case GetIp6 => IpTakesHeader(p, s.aux, s.proto);
      case GetIcmp => IcmpTakesHeader(p, s.aux, s.proto);
      case GetIcmp6 => Icmp6TakesHeader(s.layers, p, s.aux, s.proto);
      case GetUdp => UdpTakesHeader(s.layers, p, s.aux, s.proto);
      case GetTcp => TcpTakesHeader(s.layers, p, s.aux, s.proto);
      case GetIgrp => IgrpTakesHeader(Igrp, p, s.aux, s.proto);
      case GetIgrpEntry => IgrpTakesHeader(IgrpEntry, p, s.aux, s.proto);
    }
  }

  /** What an option or data handler takes is its layer. */
  lemma OthersTaken(s: Scan, p: seq<Byte>)
    requires Sane(s) && !TakesHeader(s.phase) && (s.phase != GetData ==> |p| > 0) && Handle(s, p).Ok?
    ensures var t := Handle(s, p).value; t.len <= |p| && t.layer.data == p[..t.len]
  {
    hide OptionSize, IpNext, WellSized;
    assert p[..|p|] == p;
  }

  lemma NotDone(s: Scan)
    requires Sane(s)
    ensures s.phase != Done
  {
  }

  /** The layer a handler adds holds the bytes it consumed; only a header cut short is
      longer, and then nothing is left to dissect. */
  lemma StepKeepsBytes(s: Scan, p: seq<Byte>)
    requires Sane(s) && (s.phase == GetIpOpt || s.phase == GetTcpOpt ==> |p| > 0) && Handle(s, p).Ok?
    ensures var t := Handle(s, p).value; var d := t.layer.data;
            && t.len <= |p| && t.len <= |d| && d[..t.len] == p[..t.len]
            && (t.len < |d| ==> t.len == |p| && TRUNCATED in t.layer.flags && |d| == HeaderSize(t.layer.kind) &&
                                d[t.len..] == FreshHeader(t.layer.kind)[t.len..])
  {
    NotDone(s);
    hide Handle, Sane, FreshHeader, HeaderLayer;
    if TakesHeader(s.phase) {
      HeaderTaken(s, p);
    } else {
      OthersTaken(s, p);
    }
  }

  /** The bytes that complete a header cut short, if the last layer is one. */
  ghost predicate IsCutHeader(l: Layer, missing: seq<Byte>) {
    && TRUNCATED in l.flags && |missing| <= HeaderSize(l.kind) == |l.data|
    && missing == FreshHeader(l.kind)[|l.data| - |missing|..]
  }

  /** The layers rebuild to the bytes p, after which come bytes of a fresh header
      exactly when the last layer is a header cut short. */
  ghost predicate Rebuilds(r: seq<Layer>, p: seq<Byte>, missing: seq<Byte>) {
    && |r| > 0 && Bytes(r) == p + missing
    && (missing != [] ==> IsCutHeader(r[|r| - 1], missing))
  }

  lemma Unfolds(s: Scan, p: seq<Byte>, t: Taken) returns (rest: seq<Byte>)
    requires Sane(s) && (s.phase == GetIpOpt || s.phase == GetTcpOpt ==> |p| > 0) && Handle(s, p) == Ok(t)
    ensures t.len <= |p| && WellSized(s.layers + [t.layer])
    ensures rest == p[t.len..Datagram(s.layers + [t.layer], t.len, p)]
    ensures |rest| == 0 ==> Dissect(s, p) == Ok(s.layers + [t.layer])
    ensures |rest| > 0 ==> |rest| < |p| && Sane(After(s, t)) && Dissect(s, p) == Dissect(After(s, t), rest)
  {
    hide Handle;
    rest := p[t.len..Datagram(s.layers + [t.layer], t.len, p)];
    if |rest| > 0 {
      StepKeepsSane(s, p);
    }
  }

  lemma BytesInTwo(ls: seq<Layer>, l: Layer, n: nat)
    requires n <= |l.data|
    ensures Bytes(ls + [l]) == Bytes(ls) + l.data[..n] + l.data[n..]
  {
    hide Bytes;
    BytesSnoc(ls, l);
    assert l.data == l.data[..n] + l.data[n..];
  }

  lemma Keeps(s: Scan, p: seq<Byte>) returns (t: Taken)
    requires Sane(s) && (s.phase == GetIpOpt || s.phase == GetTcpOpt ==> |p| > 0) && Handle(s, p).Ok?
    ensures Handle(s, p) == Ok(t) && t.len <= |p| && t.len <= |t.layer.data|
    ensures Bytes(s.layers + [t.layer]) == Bytes(s.layers) + p[..t.len] + t.layer.data[t.len..]
    ensures t.len < |t.layer.data| ==> t.len == |p| && IsCutHeader(t.layer, t.layer.data[t.len..])
  {
    hide Handle, Sane, WellSized, FreshHeader, Bytes, Datagram;
    StepKeepsBytes(s, p);
    t := Handle(s, p).value;
    BytesInTwo(s.layers, t.layer, t.len);
  }

  /** One turn of the machine: what it leaves to be done, and what it has kept. */
  lemma Turn(s: Scan, p: seq<Byte>) returns (t: Taken, rest: seq<Byte>)
    requires Sane(s) && (s.phase == GetIpOpt || s.phase == GetTcpOpt ==> |p| > 0) && Dissect(s, p).Ok?
    ensures Handle(s, p) == Ok(t) && t.len <= |p| && t.len <= |t.layer.data|
    ensures WellSized(s.layers + [t.layer]) && rest == p[t.len..Datagram(s.layers + [t.layer], t.len, p)]
    ensures |rest| == 0 ==> Dissect(s, p) == Ok(s.layers + [t.layer])
    ensures |rest| > 0 ==> |rest| < |p| && Sane(After(s, t)) && Dissect(s, p) == Dissect(After(s, t), rest)
    ensures Bytes(s.layers + [t.layer]) == Bytes(s.layers) + p[..t.len] + t.layer.data[t.len..]
    ensures t.len < |t.layer.data| ==> t.len == |p| && IsCutHeader(t.layer, t.layer.data[t.len..])
  {
    hide Handle, Bytes, IsCutHeader, Sane;
    t := Keeps(s, p);
    rest := Unfolds(s, p, t);
  }

  /** Rebuilding the layers gives the bytes dissected. */
  lemma {:induction false} NothingIsLost(s: Scan, p: seq<Byte>) returns (missing: seq<Byte>)
    requires Sane(s) && (s.phase == GetIpOpt || s.phase == GetTcpOpt ==> |p| > 0)
    requires |s.layers| > 0 && Dissect(s, p).Ok?
    ensures Rebuilds(Dissect(s, p).value, Bytes(s.layers) + p, missing)
    ensures s.layers <= Dissect(s, p).value
    decreases |p|
  {
    hide Handle, Dissect, Sane, Bytes, IsCutHeader, WellSized;
    var t, rest := Turn(s, p);
    if |rest| == 0 {
      missing := t.layer.data[t.len..];
    } else {
      missing := NothingIsLost(After(s, t), rest);
    }
    assert p == p[..t.len] + rest;
    assert Bytes(s.layers) + p == Bytes(s.layers) + p[..t.len] + rest;
  }

  lemma FirstTaken(p: seq<Byte>)
    ensures var h := Handle(Start(p), p);
            h.Ok? && (h.value.layer.kind == Ip || h.value.layer.kind == Ip6)
            && h.value.len == Min(|p|, HeaderSize(h.value.layer.kind))
            && |h.value.layer.data| == HeaderSize(h.value.layer.kind)
  {
  }

  /** A whole packet: the bytes kept are those up to the length the IP header names;
      link-layer padding is dropped and nothing else. */
  lemma {:induction false} NothingIsLostFromStart(p: seq<Byte>) returns (kept: nat, missing: seq<Byte>)
    requires Dissect(Start(p), p).Ok?
    ensures var r := Dissect(Start(p), p).value;
            && |r| > 0 && (r[0].kind == Ip || r[0].kind == Ip6) && |r[0].data| == HeaderSize(r[0].kind)
            && kept == Datagram([r[0]], Min(|p|, HeaderSize(r[0].kind)), p)
            && Rebuilds(r, p[..kept], missing)
  {
    var s := Start(p);
    FirstTaken(p);
    hide Handle, Dissect, Sane, IsCutHeader;
    var t, rest := Turn(s, p);
    var layers := s.layers + [t.layer];
    assert layers == [t.layer];
    kept := Datagram(layers, t.len, p);
    if |rest| == 0 {
      missing := t.layer.data[t.len..];
    } else {
      missing := NothingIsLost(After(s, t), rest);
    }
    assert p[..kept] == p[..t.len] + rest;
  }
}
