// What the dissector says of the bytes it takes apart: which layer follows which, and when
// a layer is marked as cut short or as carrying a wrong checksum, byte by byte and with the
// numbers written out.
module ArsMarks {
  import opened Checksum
  import opened Ars
  import opened ArsSplit
  import opened ArsWire

  // --- the marks -------------------------------------------------------------------------------------

  /** The marks of an IPv4 header at the head of q: it is cut short if q or its own length
      is too small for it, and its checksum is wrong if the length is no header's or the sum
      over the header and its options does not match. */
  predicate MarksIp4(q: seq<Byte>, cut: bool, bad: bool) {
    if |q| < 20 then cut && !bad
    else
      var size := 4 * (q[0] % 16);
      if size < 20 then cut && bad else if |q| < size then cut && !bad else !cut && (bad <==> !Sums([], q[..size], 10))
  }

  /** TCP, over the pseudo header given. */
  predicate MarksTcp(pseudo: seq<Byte>, q: seq<Byte>, cut: bool, bad: bool) {
    if |q| < 20 then cut && !bad
    else
      var size := 4 * (q[12] / 16);
      if size < 20 then !cut && bad else if |q| < size then cut && !bad else !cut && (bad <==> !Sums(pseudo, q, 16))
  }

  /** A header of eight bytes with its checksum at o. */
  predicate MarksSmall(pseudo: seq<Byte>, q: seq<Byte>, o: nat, cut: bool, bad: bool)
    requires o < 7
  {
    if |q| < 8 then cut && !bad else !cut && (bad <==> !Sums(pseudo, q, o))
  }

  /** An option: a pad or a no-operation has one byte, as has one of length zero; any other
      has the length it names, and is cut short when that is not there. */
  predicate MarksOption(d: seq<Byte>, q: seq<Byte>, cut: bool, bad: bool) {
    && !bad && 0 < |d| <= |q| && d == q[..|d|]
    && (q[0] <= 1 ==> |d| == 1 && !cut)
    && (q[0] > 1 && !cut ==> 2 <= |q| && |d| == if q[1] == 0 then 1 else q[1])
    && (q[0] > 1 && cut ==> |d| == 1 || (2 <= |q| && |d| < q[1]))
  }

  /** The marks of layer l, whose bytes and all those after it are q, behind the layers
      `before`: the layer over which its pseudo header is taken is the IP header that only
      options part from it. */
  ghost predicate MarkedRight(before: seq<Layer>, l: Layer, q: seq<Byte>) {
    var cut, bad, j := TRUNCATED in l.flags, BAD_CKSUM in l.flags, |before|;
    match l.kind
    case Ip => MarksIp4(q, cut, bad)
    case Ip6 => (cut <==> |q| < 40) && !bad
    case Icmp => MarksSmall([], q, 2, cut, bad)
    case Tcp =>
      && (forall p: nat | Over4(before, p, j) && |before[p].data| >= 20 ::
            MarksTcp(PseudoBytes4(before[p].data, 6, |q|), q, cut, bad))
      && (forall p: nat | Over6(before, p, j) && |before[p].data| >= 40 ::
            MarksTcp(PseudoBytes6(before[p].data, 6, |q|), q, cut, bad))
    case Udp =>
      && (forall p: nat | Over4(before, p, j) && |before[p].data| >= 20 ::
            MarksSmall(PseudoBytes4(before[p].data, 17, |q|), q, 6, cut, bad))
      && (forall p: nat | Over6(before, p, j) && |before[p].data| >= 40 ::
            MarksSmall(PseudoBytes6(before[p].data, 17, |q|), q, 6, cut, bad))
    case Icmp6 =>
      forall p: nat | Over6(before, p, j) && |before[p].data| >= 40 ::
        MarksSmall(PseudoBytes6(before[p].data, 58, |q|), q, 2, cut, bad)
    case Igrp => (cut <==> |q| < 12) && !bad
    case IgrpEntry => (cut <==> |q| < 14) && !bad
    case Data => l.flags == {} && l.data == q
    case _ => MarksOption(l.data, q, cut, bad)
  }

  lemma MatchesIsSums(pseudo: seq<Byte>, q: seq<Byte>, o: nat)
    requires o + 1 < |q|
    ensures CksumMatches(pseudo, q, o) <==> Sums(pseudo, q, o)
  {
    assert q[..o] + [0, 0] + q[o + 2..] == Put16(q, o, 0);
    hide Cksum;
  }

  /** What looks like an IPv4 header: version 4, a length that is a header's and fits, and the
      right checksum. */
  lemma SeemsIpIff(p: seq<Byte>)
    ensures SeemsIp(p) <==>
            && |p| >= 20 && p[0] / 16 == 4 && 20 <= 4 * (p[0] % 16) <= |p| && Sums([], p[..4 * (p[0] % 16)], 10)
  {
    if |p| >= 20 && 20 <= 4 * (p[0] % 16) <= |p| {
      MatchesIsSums([], p[..4 * (p[0] % 16)], 10);
    }
    hide CksumMatches, Sums;
  }

  lemma Ip4Marked(q: seq<Byte>, aux: nat, proto: Byte)
    ensures var l := TakeIp(q, aux, proto).layer;
            l.kind == Ip && MarksIp4(q, TRUNCATED in l.flags, BAD_CKSUM in l.flags)
  {
    if |q| >= 20 && 20 <= 4 * Low4(q[0]) <= |q| {
      MatchesIsSums([], q[..4 * Low4(q[0])], 10);
    }
    hide CksumMatches, Sums, HeaderLayer, IpNext;
  }

  lemma IcmpMarked(q: seq<Byte>, aux: nat, proto: Byte)
    ensures var l := TakeIcmp(q, aux, proto).layer;
            l.kind == Icmp && MarksSmall([], q, 2, TRUNCATED in l.flags, BAD_CKSUM in l.flags)
  {
    if |q| >= 8 {
      MatchesIsSums([], q, 2);
    }
    hide CksumMatches, Sums, HeaderLayer;
  }

  lemma Icmp6Marked(ls: seq<Layer>, q: seq<Byte>, aux: nat, proto: Byte)
    requires WellSized(ls)
    ensures TakeIcmp6(ls, q, aux, proto).layer.kind == Icmp6
    ensures MarkedRight(ls, TakeIcmp6(ls, q, aux, proto).layer, q)
  {
    hide CksumMatches, Sums, HeaderLayer, PseudoOf, PseudoBytes6, WellSized;
    var l := TakeIcmp6(ls, q, aux, proto).layer;
    forall p: nat | Over6(ls, p, |ls|) && |ls[p].data| >= 40
      ensures MarksSmall(PseudoBytes6(ls[p].data, 58, |q|), q, 2, TRUNCATED in l.flags, BAD_CKSUM in l.flags)
    {
      PseudoOver6(ls, p, |ls|, Icmp6, |q|);
      if |q| >= 8 {
        MatchesIsSums(PseudoBytes6(ls[p].data, 58, |q|), q, 2);
      }
    }
  }

  lemma UdpMarked(ls: seq<Layer>, q: seq<Byte>, aux: nat, proto: Byte)
    requires WellSized(ls) && TakeUdp(ls, q, aux, proto).Ok?
    ensures TakeUdp(ls, q, aux, proto).value.layer.kind == Udp
    ensures MarkedRight(ls, TakeUdp(ls, q, aux, proto).value.layer, q)
  {
    hide CksumMatches, Sums, HeaderLayer, PseudoOf, PseudoBytes4, PseudoBytes6, WellSized;
    var l := TakeUdp(ls, q, aux, proto).value.layer;
    forall p: nat | Over4(ls, p, |ls|) && |ls[p].data| >= 20
      ensures MarksSmall(PseudoBytes4(ls[p].data, 17, |q|), q, 6, TRUNCATED in l.flags, BAD_CKSUM in l.flags)
    {
      PseudoOver4(ls, p, |ls|, Udp, |q|);
      if |q| >= 8 {
        MatchesIsSums(PseudoBytes4(ls[p].data, 17, |q|), q, 6);
      }
    }
    forall p: nat | Over6(ls, p, |ls|) && |ls[p].data| >= 40
      ensures MarksSmall(PseudoBytes6(ls[p].data, 17, |q|), q, 6, TRUNCATED in l.flags, BAD_CKSUM in l.flags)
    {
      PseudoOver6(ls, p, |ls|, Udp, |q|);
      if |q| >= 8 {
        MatchesIsSums(PseudoBytes6(ls[p].data, 17, |q|), q, 6);
      }
    }
  }

  lemma TcpMarked(ls: seq<Layer>, q: seq<Byte>, aux: nat, proto: Byte)
    requires WellSized(ls) && TakeTcp(ls, q, aux, proto).Ok?
    ensures TakeTcp(ls, q, aux, proto).value.layer.kind == Tcp
    ensures MarkedRight(ls, TakeTcp(ls, q, aux, proto).value.layer, q)
  {
    hide CksumMatches, Sums, HeaderLayer, PseudoOf, PseudoBytes4, PseudoBytes6, WellSized;
    var l := TakeTcp(ls, q, aux, proto).value.layer;
    forall p: nat | Over4(ls, p, |ls|) && |ls[p].data| >= 20
      ensures MarksTcp(PseudoBytes4(ls[p].data, 6, |q|), q, TRUNCATED in l.flags, BAD_CKSUM in l.flags)
    {
      PseudoOver4(ls, p, |ls|, Tcp, |q|);
      if |q| >= 20 {
        MatchesIsSums(PseudoBytes4(ls[p].data, 6, |q|), q, 16);
      }
    }
    forall p: nat | Over6(ls, p, |ls|) && |ls[p].data| >= 40
      ensures MarksTcp(PseudoBytes6(ls[p].data, 6, |q|), q, TRUNCATED in l.flags, BAD_CKSUM in l.flags)
    {
      PseudoOver6(ls, p, |ls|, Tcp, |q|);
      if |q| >= 20 {
        MatchesIsSums(PseudoBytes6(ls[p].data, 6, |q|), q, 16);
      }
    }
  }

  lemma OptionMarked(k: Kind, q: seq<Byte>, aux: nat, proto: Byte)
    requires aux > 0 && |q| > 0
    ensures var l := TakeOption(k, q, aux, proto).layer;
            l.kind == k && MarksOption(l.data, q, TRUNCATED in l.flags, BAD_CKSUM in l.flags)
  {
  }

  /** The kind of layer a state takes. */
  function KindAt(phase: Phase): Kind {
    match phase
    case GetIp => Ip case GetIp6 => Ip6 case GetIpOpt => IpOpt case GetTcpOpt => TcpOpt case GetIcmp => Icmp
    case GetIcmp6 => Icmp6 case GetUdp => Udp case GetTcp => Tcp case GetIgrp => Igrp case GetIgrpEntry => IgrpEntry
    case _ => Data
  }

  /** Every handler marks its layer right. */
  lemma HandlerMarks(s: Scan, q: seq<Byte>)
    requires Sane(s) && (s.phase == GetIpOpt || s.phase == GetTcpOpt ==> |q| > 0) && Handle(s, q).Ok?
    ensures var l := Handle(s, q).value.layer; l.kind == KindAt(s.phase) && MarkedRight(s.layers, l, q)
  {
    hide TakeIp, TakeIcmp, TakeIcmp6, TakeUdp, TakeTcp, TakeOption, MarksIp4, MarksSmall, MarksTcp, MarksOption, Sums,
      HeaderLayer, PseudoBytes4, PseudoBytes6, Over4, Over6, SkipOptions;
    match s.phase {
      case GetIp => Ip4Marked(q, s.aux, s.proto);
      case GetIcmp => IcmpMarked(q, s.aux, s.proto);
      case GetIcmp6 => Icmp6Marked(s.layers, q, s.aux, s.proto);
      case GetUdp => UdpMarked(s.layers, q, s.aux, s.proto);
      case GetTcp => TcpMarked(s.layers, q, s.aux, s.proto);
      case GetIpOpt => OptionMarked(IpOpt, q, s.aux, s.proto);
      case GetTcpOpt => OptionMarked(TcpOpt, q, s.aux, s.proto);
      case _ =>
    }
  }

  // --- which layer follows ------------------------------------------------------------------------------

  /** What an IPv4 header with protocol number n carries. */
  function After4(n: Byte): Kind {
    if n == 1 then Icmp else if n == 4 then Ip else if n == 6 then Tcp else if n == 9 then Igrp
    else if n == 17 then Udp else Data
  }

  /** What an IPv6 header with next header n carries; extension headers are data. */
  function After6(n: Byte): Kind {
    if n == 1 then Icmp else if n == 4 then Ip else if n == 6 then Tcp else if n == 17 then Udp
    else if n == 41 then Ip6 else if n == 58 then Icmp6 else Data
  }

  /** Layer p is the TCP header over layer j: only its options are between. */
  predicate OverTcp(ls: seq<Layer>, p: nat, j: nat) {
    p < j <= |ls| && ls[p].kind == Tcp && forall i | p < i < j :: ls[i].kind == TcpOpt
  }

  /** The bytes of options that an IPv4 or TCP header of w words announces. */
  function OptionSpace(w: nat): int {
    4 * w - 20
  }

  /** Whole headers with the kind k after them: options as long as the header announces
      more of them. */
  ghost predicate LeadsTo(ls: seq<Layer>, k: Kind)
    requires |ls| > 0
  {
    var l := ls[|ls| - 1];
    |l.data| >= HeaderSize(l.kind) &&
    match l.kind
    case Ip => k == if TRUNCATED in l.flags then Data else if l.data[0] % 16 > 5 then IpOpt else After4(l.data[9])
    case Ip6 => k == After6(l.data[6])
    case Tcp => k == if l.data[12] / 16 > 5 then TcpOpt else Data
    case Icmp => k == if l.data[0] in {0, 8, 13, 14, 15, 16} then Data else Ip
    case IpOpt =>
      forall p: nat | Over4(ls, p, |ls|) && |ls[p].data| >= 20 ::
        k == if |Bytes(ls[p + 1..])| < OptionSpace(ls[p].data[0] % 16) then IpOpt else After4(ls[p].data[9])
    case TcpOpt =>
      forall p: nat | OverTcp(ls, p, |ls|) && |ls[p].data| >= 20 ::
        k == if |Bytes(ls[p + 1..])| < OptionSpace(ls[p].data[12] / 16) then TcpOpt else Data
    case Igrp => k == IgrpEntry
    case IgrpEntry => k == IgrpEntry
    case _ => k == Data
  }

  /** The state counts the option space left and remembers the protocol. */
  ghost predicate CountsOptions(s: Scan) {
    var ls := s.layers;
    && (s.phase == GetIpOpt ==>
          exists p: nat :: Over4(ls, p, |ls|) && |ls[p].data| >= 20 && s.proto == ls[p].data[9] &&
                           s.aux + |Bytes(ls[p + 1..])| == OptionSpace(ls[p].data[0] % 16))
    && (s.phase == GetTcpOpt ==>
          exists p: nat :: OverTcp(ls, p, |ls|) && |ls[p].data| >= 20 &&
                           s.aux + |Bytes(ls[p + 1..])| == OptionSpace(ls[p].data[12] / 16))
  }

  ghost predicate OnTrack(s: Scan) {
    |s.layers| > 0 && s.phase != Done && LeadsTo(s.layers, KindAt(s.phase)) && CountsOptions(s)
  }

  lemma Next4(n: Byte)
    ensures KindAt(IpNext(n)) == After4(n) && IpNext(n) != GetIpOpt && IpNext(n) != GetTcpOpt && IpNext(n) != Done
  {
  }

  lemma Next6(n: Byte)
    ensures KindAt(Ip6Next(n)) == After6(n) && Ip6Next(n) != GetIpOpt && Ip6Next(n) != GetTcpOpt && Ip6Next(n) != Done
  {
  }

  lemma NoBytes(ls: seq<Layer>, l: Layer)
    ensures |Bytes((ls + [l])[|ls| + 1..])| == 0
  {
    assert (ls + [l])[|ls| + 1..] == [];
  }

  /** After an IPv4 header. */
  lemma TrackIp4(s: Scan, q: seq<Byte>, t: Taken)
    requires s.phase == GetIp && t == TakeIp(q, s.aux, s.proto) && t.len < |q|
    ensures OnTrack(After(s, t))
  {
    Next4(q[9]);
    NoBytes(s.layers, t.layer);
    hide IpNext, After4, CksumMatches, FreshHeader;
    var v := After(s, t);
    assert t.layer.data == q[..20] && v.layers[|s.layers|] == t.layer;
    assert Over4(v.layers, |s.layers|, |v.layers|);
  }

  lemma TrackTcp(s: Scan, q: seq<Byte>, t: Taken)
    requires WellSized(s.layers) && s.phase == GetTcp && TakeTcp(s.layers, q, s.aux, s.proto) == Ok(t) && t.len < |q|
    ensures OnTrack(After(s, t))
  {
    NoBytes(s.layers, t.layer);
    hide CksumMatches, FreshHeader, PseudoOf;
    var v := After(s, t);
    assert t.layer.data == q[..20] && v.layers[|s.layers|] == t.layer;
    assert OverTcp(v.layers, |s.layers|, |v.layers|);
  }

  lemma MoreOptionBytes(ls: seq<Layer>, l: Layer, p: nat)
    requires p < |ls|
    ensures |Bytes((ls + [l])[p + 1..])| == |Bytes(ls[p + 1..])| + |l.data|
  {
    assert (ls + [l])[p + 1..] == ls[p + 1..] + [l];
    BytesSnoc(ls[p + 1..], l);
  }

  lemma OptionCounted(s: Scan, q: seq<Byte>, t: Taken)
    requires s.aux > 0 && |q| > 0
    requires t == TakeOption(IpOpt, q, s.aux, s.proto) || t == TakeOption(TcpOpt, q, s.aux, s.proto)
    ensures t.aux == s.aux - |t.layer.data| && t.proto == s.proto
    ensures if t.layer.kind == IpOpt then t.next == if t.aux > 0 then GetIpOpt else IpNext(s.proto)
            else t.layer.kind == TcpOpt && t.next == if t.aux > 0 then GetTcpOpt else GetData
  {
    hide IpNext;
  }

  lemma OneHeader4(ls: seq<Layer>, p: nat, p': nat)
    requires Over4(ls, p, |ls|) && Over4(ls, p', |ls|)
    ensures p == p'
  {
  }

  /** Only one header can be over an option. */
  lemma Leads4(ls: seq<Layer>, p: nat, k: Kind)
    requires |ls| > 0 && ls[|ls| - 1].kind == IpOpt && Over4(ls, p, |ls|) && |ls[p].data| >= 20
    requires k == if |Bytes(ls[p + 1..])| < OptionSpace(ls[p].data[0] % 16) then IpOpt else After4(ls[p].data[9])
    ensures LeadsTo(ls, k)
  {
    forall p': nat | Over4(ls, p', |ls|)
      ensures p' == p
    {
      OneHeader4(ls, p, p');
    }
  }

  lemma TrackIpOption(s: Scan, q: seq<Byte>, t: Taken)
    requires OnTrack(s) && s.phase == GetIpOpt && s.aux > 0 && |q| > 0 && t == TakeOption(IpOpt, q, s.aux, s.proto)
    ensures OnTrack(After(s, t))
  {
    var ls, v := s.layers, After(s, t);
    var p: nat :| Over4(ls, p, |ls|) && |ls[p].data| >= 20 && s.proto == ls[p].data[9] &&
                  s.aux + |Bytes(ls[p + 1..])| == OptionSpace(ls[p].data[0] % 16);
    Next4(s.proto);
    MoreOptionBytes(ls, t.layer, p);
    hide IpNext, After4, Bytes, LeadsTo, TakeOption;
    OptionCounted(s, q, t);
    assert Over4(v.layers, p, |v.layers|) && v.layers[p] == ls[p];
    Leads4(v.layers, p, KindAt(t.next));
  }

  lemma OneHeaderTcp(ls: seq<Layer>, p: nat, p': nat)
    requires OverTcp(ls, p, |ls|) && OverTcp(ls, p', |ls|)
    ensures p == p'
  {
  }

  lemma LeadsTcp(ls: seq<Layer>, p: nat, k: Kind)
    requires |ls| > 0 && ls[|ls| - 1].kind == TcpOpt && OverTcp(ls, p, |ls|) && |ls[p].data| >= 20
    requires k == if |Bytes(ls[p + 1..])| < OptionSpace(ls[p].data[12] / 16) then TcpOpt else Data
    ensures LeadsTo(ls, k)
  {
    forall p': nat | OverTcp(ls, p', |ls|)
      ensures p' == p
    {
      OneHeaderTcp(ls, p, p');
    }
  }

  lemma TrackTcpOption(s: Scan, q: seq<Byte>, t: Taken)
    requires OnTrack(s) && s.phase == GetTcpOpt && s.aux > 0 && |q| > 0 && t == TakeOption(TcpOpt, q, s.aux, s.proto)
    ensures OnTrack(After(s, t))
  {
    var ls, v := s.layers, After(s, t);
    var p: nat :| OverTcp(ls, p, |ls|) && |ls[p].data| >= 20 &&
                  s.aux + |Bytes(ls[p + 1..])| == OptionSpace(ls[p].data[12] / 16);
    MoreOptionBytes(ls, t.layer, p);
    hide Bytes, LeadsTo, TakeOption;
    OptionCounted(s, q, t);
    assert v.layers == ls + [t.layer];
    hide After;
    assert OverTcp(v.layers, p, |v.layers|) && v.layers[p] == ls[p];
    LeadsTcp(v.layers, p, KindAt(t.next));
  }

  lemma TrackIp6(s: Scan, q: seq<Byte>, t: Taken)
    requires s.phase == GetIp6 && t == TakeIp6(q, s.aux, s.proto) && t.len < |q|
    ensures OnTrack(After(s, t))
  {
    Next6(q[6]);
    hide Ip6Next, After6, FreshHeader;
    assert t.layer.data == q[..40] && After(s, t).layers[|s.layers|] == t.layer;
  }

  lemma TrackIcmp(s: Scan, q: seq<Byte>, t: Taken)
    requires s.phase == GetIcmp && t == TakeIcmp(q, s.aux, s.proto) && t.len < |q|
    ensures OnTrack(After(s, t))
  {
    hide CksumMatches, FreshHeader;
    assert t.layer.data == q[..8] && After(s, t).layers[|s.layers|] == t.layer;
  }

  lemma TrackUdp(s: Scan, q: seq<Byte>, t: Taken)
    requires WellSized(s.layers) && t.len < |q|
    requires (s.phase == GetUdp && TakeUdp(s.layers, q, s.aux, s.proto) == Ok(t)) ||
             (s.phase == GetIcmp6 && TakeIcmp6(s.layers, q, s.aux, s.proto) == t)
    ensures OnTrack(After(s, t))
  {
    hide CksumMatches, FreshHeader, PseudoOf;
    assert After(s, t).layers[|s.layers|] == t.layer;
  }

  lemma TrackIgrp(s: Scan, q: seq<Byte>, t: Taken, k: Kind)
    requires (k == Igrp || k == IgrpEntry) && t == TakeIgrp(k, q, s.aux, s.proto)
    ensures OnTrack(After(s, t))
  {
    hide FreshHeader;
    assert After(s, t).layers[|s.layers|] == t.layer;
  }

  /** Every handler leads on to the layer that its own announces. */
  lemma StaysOnTrack(s: Scan, q: seq<Byte>, t: Taken)
    requires Sane(s) && (s.phase == GetIpOpt || s.phase == GetTcpOpt ==> |q| > 0) && Handle(s, q) == Ok(t)
    requires t.len < |q| && ((s.layers == [] && s.phase != GetIpOpt && s.phase != GetTcpOpt) || OnTrack(s))
    ensures OnTrack(After(s, t))
  {
    hide OnTrack, TakeIp, TakeIp6, TakeIcmp, TakeIcmp6, TakeUdp, TakeTcp, TakeIgrp, TakeOption, SkipOptions;
    match s.phase {
      case GetIp => TrackIp4(s, q, t);
      case GetTcp => TrackTcp(s, q, t);
      case GetIpOpt => TrackIpOption(s, q, t);
      case GetTcpOpt => TrackTcpOption(s, q, t);
      case GetIp6 => TrackIp6(s, q, t);
      case GetIcmp => TrackIcmp(s, q, t);
      case GetUdp => TrackUdp(s, q, t);
      case GetIcmp6 => TrackUdp(s, q, t);
      case GetIgrp => TrackIgrp(s, q, t, Igrp);
      case GetIgrpEntry => TrackIgrp(s, q, t, IgrpEntry);
      case GetData =>
    }
  }

  // --- the whole packet --------------------------------------------------------------------------------

  /** An option ends within the space its header announces. */
  ghost predicate WithinSpace(ls: seq<Layer>, l: Layer) {
    && (forall p: nat | l.kind == IpOpt && Over4(ls, p, |ls|) && |ls[p].data| >= 20 ::
          |Bytes(ls[p + 1..])| + |l.data| <= OptionSpace(ls[p].data[0] % 16))
    && (forall p: nat | l.kind == TcpOpt && OverTcp(ls, p, |ls|) && |ls[p].data| >= 20 ::
          |Bytes(ls[p + 1..])| + |l.data| <= OptionSpace(ls[p].data[12] / 16))
  }

  lemma OptionTaken(s: Scan, q: seq<Byte>)
    requires Sane(s) && (s.phase == GetIpOpt || s.phase == GetTcpOpt ==> |q| > 0) && Handle(s, q).Ok?
    ensures s.phase == GetIpOpt || s.phase == GetTcpOpt ==> |Handle(s, q).value.layer.data| <= s.aux
  {
    hide TakeIp, TakeIp6, TakeIcmp, TakeIcmp6, TakeUdp, TakeTcp, TakeIgrp, SkipOptions;
  }

  lemma IpOptionWithin(ls: seq<Layer>, l: Layer, p: nat, aux: nat)
    requires Over4(ls, p, |ls|) && |ls[p].data| >= 20 && l.kind == IpOpt && |l.data| <= aux
    requires aux + |Bytes(ls[p + 1..])| == OptionSpace(ls[p].data[0] % 16)
    ensures WithinSpace(ls, l)
  {
    hide Bytes, Over4;
    forall p': nat | Over4(ls, p', |ls|)
      ensures p' == p
    {
      OneHeader4(ls, p, p');
    }
  }

  lemma TcpOptionWithin(ls: seq<Layer>, l: Layer, p: nat, aux: nat)
    requires OverTcp(ls, p, |ls|) && |ls[p].data| >= 20 && l.kind == TcpOpt && |l.data| <= aux
    requires aux + |Bytes(ls[p + 1..])| == OptionSpace(ls[p].data[12] / 16)
    ensures WithinSpace(ls, l)
  {
    hide Bytes, OverTcp;
    forall p': nat | OverTcp(ls, p', |ls|)
      ensures p' == p
    {
      OneHeaderTcp(ls, p, p');
    }
  }

  lemma OthersWithin(ls: seq<Layer>, l: Layer)
    requires l.kind != IpOpt && l.kind != TcpOpt
    ensures WithinSpace(ls, l)
  {
  }

  lemma OptionsStayWithin(s: Scan, q: seq<Byte>)
    requires Sane(s) && (s.phase == GetIpOpt || s.phase == GetTcpOpt ==> |q| > 0) && OnTrack(s) && Handle(s, q).Ok?
    ensures WithinSpace(s.layers, Handle(s, q).value.layer)
  {
    HandlerMarks(s, q);
    OptionTaken(s, q);
    hide Handle, Bytes, LeadsTo, MarkedRight, Sane, WithinSpace;
    var ls, l := s.layers, Handle(s, q).value.layer;
    if s.phase == GetIpOpt {
      var p: nat :| Over4(ls, p, |ls|) && |ls[p].data| >= 20 &&
                    s.aux + |Bytes(ls[p + 1..])| == OptionSpace(ls[p].data[0] % 16);
      IpOptionWithin(ls, l, p, s.aux);
    } else if s.phase == GetTcpOpt {
      var p: nat :| OverTcp(ls, p, |ls|) && |ls[p].data| >= 20 &&
                    s.aux + |Bytes(ls[p + 1..])| == OptionSpace(ls[p].data[12] / 16);
      TcpOptionWithin(ls, l, p, s.aux);
    } else {
      OthersWithin(ls, l);
    }
  }

  /** Layer i of r is right for the bytes p from which the layers from b on are taken. */
  ghost predicate LayerRight(r: seq<Layer>, b: nat, p: seq<Byte>, i: nat)
    requires b <= i < |r|
  {
    var off := |Bytes(r[b..i])|;
    && off <= |p| && MarkedRight(r[..i], r[i], p[off..]) && WithinSpace(r[..i], r[i])
    && (i > 0 ==> LeadsTo(r[..i], r[i].kind))
  }

  ghost predicate RightFrom(r: seq<Layer>, b: nat, p: seq<Byte>) {
    forall i: nat | b <= i < |r| :: LayerRight(r, b, p, i)
  }

  lemma FirstRight(s: Scan, p: seq<Byte>, r: seq<Layer>)
    requires Sane(s) && (s.phase == GetIpOpt || s.phase == GetTcpOpt ==> |p| > 0) && OnTrack(s) && Handle(s, p).Ok?
    requires s.layers + [Handle(s, p).value.layer] <= r
    ensures LayerRight(r, |s.layers|, p, |s.layers|)
  {
    HandlerMarks(s, p);
    OptionsStayWithin(s, p);
    hide Handle, Sane, MarkedRight, LeadsTo, CountsOptions, WithinSpace;
    var b := |s.layers|;
    assert r[b..b] == [] && p[0..] == p && r[..b] == s.layers && r[b] == Handle(s, p).value.layer;
  }

  lemma LaterRight(r: seq<Layer>, b: nat, p: seq<Byte>, n: nat, i: nat)
    requires b < i < |r| && n == |r[b].data| <= |p| && LayerRight(r, b + 1, p[n..], i)
    ensures LayerRight(r, b, p, i)
  {
    hide MarkedRight, LeadsTo, Bytes, WithinSpace;
    var off := |Bytes(r[b + 1..i])|;
    assert r[b..i] == [r[b]] + r[b + 1..i];
    BytesConcat([r[b]], r[b + 1..i]);
    BytesOne(r[b]);
    assert p[n..][off..] == p[n + off..];
  }

  lemma NotFirst(s: Scan, t: Taken, p: seq<Byte>)
    requires OnTrack(s) && WellSized(s.layers + [t.layer]) && t.len <= |p|
    ensures p[t.len..Datagram(s.layers + [t.layer], t.len, p)] == p[t.len..]
  {
  }

  lemma NotCut(t: Taken, p: seq<Byte>)
    requires t.len <= |p| && t.len <= |t.layer.data| && t.len < |p|
    requires t.len < |t.layer.data| ==> t.len == |p|
    ensures t.len == |t.layer.data|
  {
  }

  lemma {:induction false} RestIsRight(s: Scan, p: seq<Byte>, r: seq<Layer>)
    requires Sane(s) && (s.phase == GetIpOpt || s.phase == GetTcpOpt ==> |p| > 0) && OnTrack(s)
    requires Dissect(s, p) == Ok(r)
    ensures s.layers < r && RightFrom(r, |s.layers|, p)
    decreases |p|
  {
    hide Handle, Dissect, Sane, OnTrack, LayerRight, Bytes, WellSized, IsCutHeader, Datagram;
    var t, rest := Turn(s, p);
    NotFirst(s, t, p);
    var next := s.layers + [t.layer];
    if |rest| > 0 {
      StaysOnTrack(s, p, t);
      RestIsRight(After(s, t), rest, r);
      NotCut(t, p);
      forall i: nat | |s.layers| < i < |r|
        ensures LayerRight(r, |s.layers|, p, i)
      {
        assert r[|s.layers|] == next[|s.layers|];
        LaterRight(r, |s.layers|, p, t.len, i);
      }
    }
    FirstRight(s, p, r);
  }

  /** How many bytes of p the first header says there are. */
  function Announced(p: seq<Byte>): (n: nat)
    ensures n <= |p|
  {
    if |p| > 0 && p[0] / 16 == 6 then if |p| < 40 then |p| else Min(|p|, 40 + Number(p[4], p[5]))
    else if |p| < 20 then |p|
    else if Number(p[2], p[3]) < 20 then 20
    else Min(|p|, Number(p[2], p[3]))
  }

  lemma FirstIsAnnounced(p: seq<Byte>, t: Taken)
    requires Handle(Start(p), p) == Ok(t)
    ensures t.layer.kind == if |p| > 0 && p[0] / 16 == 6 then Ip6 else Ip
    ensures WellSized([t.layer]) && t.len == Min(|p|, |t.layer.data|) <= Announced(p)
    ensures Datagram([t.layer], t.len, p) == Announced(p) || t.len == |p|
  {
    hide CksumMatches, IpNext, Ip6Next;
    assert |p| >= 40 ==> p[..40][4] == p[4] && p[..40][5] == p[5];
    assert |p| >= 20 ==> p[..20][2] == p[2] && p[..20][3] == p[3];
  }

  /** The dissection in its first step and the rest. */
  lemma FirstStep(p: seq<Byte>, r: seq<Layer>) returns (t: Taken, rest: seq<Byte>)
    requires Dissect(Start(p), p) == Ok(r)
    ensures Handle(Start(p), p) == Ok(t) && t.len <= Announced(p) && t.len == Min(|p|, |t.layer.data|)
    ensures rest == p[t.len..Announced(p)]
    ensures |rest| == 0 ==> r == [t.layer]
    ensures var next := After(Start(p), t);
            |rest| > 0 ==>
              && t.len == |t.layer.data| && Sane(next) && OnTrack(next) && next.layers == [t.layer]
              && Dissect(next, rest) == Ok(r)
  {
    var s := Start(p);
    hide Handle, Dissect, Sane, Bytes, IsCutHeader, Datagram, MarkedRight, OnTrack, Announced;
    t, rest := Turn(s, p);
    FirstIsAnnounced(p, t);
    assert s.layers + [t.layer] == [t.layer];
    assert rest == p[t.len..Announced(p)];
    if |rest| > 0 {
      StaysOnTrack(s, p, t);
      NotCut(t, p);
    }
  }

  lemma OptionsNeedBytes(s: Scan)
    requires OnTrack(s)
    ensures |s.layers| > 0
  {
  }

  /** Every layer of every dissection: the first is the IP header its version names, marked
      right for the whole packet; the others are taken from the bytes it announces, each is
      the one announced before it and marked right for all the bytes from it on. */
  lemma DissectionIsRight(p: seq<Byte>, r: seq<Layer>)
    requires Dissect(Start(p), p) == Ok(r)
    ensures |r| > 0 && r[0].kind == (if |p| > 0 && p[0] / 16 == 6 then Ip6 else Ip) && MarkedRight([], r[0], p)
    ensures |r| == 1 ==> Announced(p) <= |r[0].data|
    ensures |r| > 1 ==> |r[0].data| <= Announced(p) && RightFrom(r, 1, p[|r[0].data|..Announced(p)])
  {
    hide Handle, Dissect, Sane, RightFrom, Bytes, Datagram, MarkedRight, OnTrack, Announced, CountsOptions, LeadsTo;
    var t, rest := FirstStep(p, r);
    HandlerMarks(Start(p), p);
    FirstIsAnnounced(p, t);
    if |rest| > 0 {
      var next := After(Start(p), t);
      OptionsNeedBytes(next);
      RestIsRight(next, rest, r);
      assert r[0] == [t.layer][0];
    }
  }
}
