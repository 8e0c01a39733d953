// The dissector accepts what the compiler builds: the two sides agree on every length,
// protocol number, pseudo header and checksum.
module ArsAccept {
  import opened Checksum
  import opened Ars
  import opened ArsCompile
  import opened ArsSettled
  import opened ArsSplit

  // --- the stacks ---------------------------------------------------------------------------

  predicate IsEchoLike(t: Byte) {
    t == 8 || t == 0 || 13 <= t <= 16
  }

  /** The transport layers: TCP, UDP, an ICMP message that quotes no packet, and ICMPv6
      over IPv6. */
  predicate IsTransport(l: Layer, over: Kind) {
    && (l.kind == Tcp || l.kind == Udp || l.kind == Icmp || (l.kind == Icmp6 && over == Ip6))
    && |l.data| == HeaderSize(l.kind)
    && (l.kind == Icmp ==> IsEchoLike(l.data[0]))
  }

  predicate Options(ls: seq<Layer>, k: Kind) {
    forall i | 0 <= i < |ls| :: ls[i].kind == k
  }

  /** A header, n IP options (IPv4 only), a transport header, m TCP options (TCP only)
      and data. */
  predicate HasShape(ls: seq<Layer>, n: nat, m: nat) {
    var u := n + 1;
    && u + 1 + m <= |ls|
    && (ls[0].kind == Ip || (ls[0].kind == Ip6 && n == 0)) && |ls[0].data| == HeaderSize(ls[0].kind)
    && Options(ls[1..u], IpOpt) && IsTransport(ls[u], ls[0].kind)
    && Options(ls[u + 1..u + 1 + m], TcpOpt) && (m > 0 ==> ls[u].kind == Tcp)
    && Options(ls[u + 1 + m..], Data)
  }

  /** Up to 40 bytes of options each, and, once they are padded, a length that the IP
      header can hold. */
  predicate Fits(ls: seq<Layer>, n: nat, m: nat)
    requires n + 2 + m <= |ls|
  {
    var o, t := |Bytes(ls[1..n + 1])|, |Bytes(ls[n + 2..n + 2 + m])|;
    && o <= 40 && t <= 40
    && (if ls[0].kind == Ip then |Bytes(ls)| else |Bytes(ls[1..])|) + Padding(o) + Padding(t) <= 0xFFFF
  }

  predicate IsStack(ls: seq<Layer>, n: nat, m: nat) {
    HasShape(ls, n, m) && Fits(ls, n, m)
  }

  /** No field was set by hand. */
  predicate NothingTaken(ls: seq<Layer>) {
    forall i | 0 <= i < |ls| :: ls[i].flags == {}
  }

  predicate Clean(ls: seq<Layer>) {
    forall i | 0 <= i < |ls| :: BAD_CKSUM !in ls[i].flags
  }

  /** Dissection succeeds, with no bad checksum and with the same bytes. */
  ghost predicate Accepts(s: Scan, p: seq<Byte>)
    requires Sane(s) && (s.phase == GetIpOpt || s.phase == GetTcpOpt ==> |p| > 0)
  {
    match Dissect(s, p)
    case Err(_) => false
    case Ok(r) => Clean(r) && Bytes(r) == Bytes(s.layers) + p
  }

  /** After the first layer nothing is trimmed. */
  lemma UnfoldsLater(s: Scan, p: seq<Byte>, t: Taken)
    requires Sane(s) && (s.phase == GetIpOpt || s.phase == GetTcpOpt ==> |p| > 0) && Handle(s, p) == Ok(t)
    requires |s.layers| > 0
    ensures t.len <= |p|
    ensures t.len == |p| ==> Dissect(s, p) == Ok(s.layers + [t.layer])
    ensures t.len < |p| ==> Sane(After(s, t)) && Dissect(s, p) == Dissect(After(s, t), p[t.len..])
    ensures t.len < |p| && (t.next == GetIpOpt || t.next == GetTcpOpt) ==> t.aux > 0
  {
    hide Handle, WellSized, Dissect;
    var rest := Unfolds(s, p, t);
    assert rest == p[t.len..];
  }

  /** One handler that keeps its bytes, then acceptance of the rest. */
  lemma AcceptStep(s: Scan, p: seq<Byte>, t: Taken)
    requires Sane(s) && (s.phase == GetIpOpt || s.phase == GetTcpOpt ==> |p| > 0) && Handle(s, p) == Ok(t)
    requires Clean(s.layers) && BAD_CKSUM !in t.layer.flags && t.len <= |p| && t.layer.data == p[..t.len]
    requires |s.layers| > 0
    requires t.len < |p| ==> Sane(After(s, t)) && Accepts(After(s, t), p[t.len..])
    ensures Accepts(s, p)
  {
    hide Handle, Sane, Bytes, Dissect;
    UnfoldsLater(s, p, t);
    BytesSnoc(s.layers, t.layer);
    assert p == p[..t.len] + p[t.len..];
    assert Bytes(s.layers) + p == Bytes(s.layers) + p[..t.len] + p[t.len..];
    if t.len == |p| {
      assert p[..t.len] == p;
    }
  }

  /** What is left is data. */
  lemma AcceptData(s: Scan, p: seq<Byte>)
    requires Sane(s) && s.phase == GetData && 0 < |s.layers| < MAX_LAYER && Clean(s.layers)
    ensures Accepts(s, p)
  {
    var t := Taken(Layer(Data, p, {}), |p|, Done, s.aux, s.proto);
    assert Handle(s, p) == Ok(t);
    hide Handle;
    assert p[..|p|] == p;
    AcceptStep(s, p, t);
  }

  // --- the option loop ------------------------------------------------------------------------

  function OptionKind(s: Scan): Kind {
    if s.phase == GetIpOpt then IpOpt else TcpOpt
  }

  /** The state after the last option. */
  function AfterOptions(s: Scan, opts: seq<Layer>): Scan {
    Scan(if s.phase == GetIpOpt then IpNext(s.proto) else GetData, s.layers + opts, 0, s.proto)
  }

  lemma OneOption(s: Scan, p: seq<Byte>) returns (t: Taken)
    requires Sane(s) && (s.phase == GetIpOpt || s.phase == GetTcpOpt) && s.aux <= |p| && |s.layers| < MAX_LAYER
    ensures Handle(s, p) == Ok(t) && 0 < t.len <= s.aux
    ensures t.layer.kind == OptionKind(s) && t.layer.data == p[..t.len] && BAD_CKSUM !in t.layer.flags
    ensures t.len < s.aux ==> After(s, t) == Scan(s.phase, s.layers + [t.layer], s.aux - t.len, s.proto)
    ensures t.len == s.aux ==> After(s, t) == AfterOptions(s, [t.layer])
  {
    t := TakeOption(OptionKind(s), p, s.aux, s.proto);
  }

  predicate InOptions(s: Scan, p: seq<Byte>) {
    (s.phase == GetIpOpt || s.phase == GetTcpOpt) && |s.layers| > 0 && 0 < s.aux <= |p|
  }

  /** opts are the layers the option loop makes of the s.aux bytes of options. */
  ghost predicate OptionsRead(s: Scan, p: seq<Byte>, opts: seq<Layer>)
    requires Sane(s) && InOptions(s, p)
  {
    && |opts| <= s.aux && Options(opts, OptionKind(s)) && Clean(opts) && Bytes(opts) == p[..s.aux]
    && (|p| > s.aux ==> Sane(AfterOptions(s, opts)) && AfterOptions(s, opts).phase != GetIpOpt &&
                        Dissect(s, p) == Dissect(AfterOptions(s, opts), p[s.aux..]))
    && (|p| == s.aux ==> Dissect(s, p) == Ok(s.layers + opts))
  }

  lemma LastOption(s: Scan, p: seq<Byte>, t: Taken)
    requires Sane(s) && InOptions(s, p) && Handle(s, p) == Ok(t) && t.len == s.aux
    requires t.layer.kind == OptionKind(s) && t.layer.data == p[..t.len] && BAD_CKSUM !in t.layer.flags
    requires After(s, t) == AfterOptions(s, [t.layer])
    ensures OptionsRead(s, p, [t.layer])
  {
    hide Handle, Sane, Bytes, Dissect;
    UnfoldsLater(s, p, t);
    BytesOne(t.layer);
  }

  lemma MoreOptions(s: Scan, p: seq<Byte>, t: Taken, more: seq<Layer>)
    requires Sane(s) && InOptions(s, p) && Handle(s, p) == Ok(t) && t.len < s.aux
    requires t.layer.kind == OptionKind(s) && t.layer.data == p[..t.len] && BAD_CKSUM !in t.layer.flags
    requires After(s, t) == Scan(s.phase, s.layers + [t.layer], s.aux - t.len, s.proto)
    requires Sane(After(s, t)) && OptionsRead(After(s, t), p[t.len..], more) && t.len > 0
    ensures OptionsRead(s, p, [t.layer] + more)
  {
    hide Handle, Sane, Bytes, Dissect, IpNext;
    UnfoldsLater(s, p, t);
    BytesOne(t.layer);
    BytesConcat([t.layer], more);
    assert p[..s.aux] == p[..t.len] + p[t.len..][..s.aux - t.len];
    assert p[s.aux..] == p[t.len..][s.aux - t.len..];
    assert s.layers + [t.layer] + more == s.layers + ([t.layer] + more);
  }

  /** The option loop takes s.aux bytes, however the options cut them. */
  lemma {:induction false} OptionsTaken(s: Scan, p: seq<Byte>) returns (opts: seq<Layer>)
    requires Sane(s) && InOptions(s, p) && |s.layers| + s.aux < MAX_LAYER
    ensures OptionsRead(s, p, opts)
    decreases s.aux
  {
    var t := OneOption(s, p);
    hide Handle, OptionsRead, AfterOptions, OptionKind;
    UnfoldsLater(s, p, t);
    if t.len == s.aux {
      LastOption(s, p, t);
      opts := [t.layer];
    } else {
      var more := OptionsTaken(After(s, t), p[t.len..]);
      MoreOptions(s, p, t, more);
      opts := [t.layer] + more;
    }
  }

  lemma AcceptOptions(s: Scan, p: seq<Byte>, opts: seq<Layer>)
    requires Sane(s) && InOptions(s, p) && Clean(s.layers) && OptionsRead(s, p, opts)
    requires |p| > s.aux ==> Accepts(AfterOptions(s, opts), p[s.aux..])
    ensures Accepts(s, p)
  {
    hide Handle, Sane, Bytes, Dissect, IpNext;
    BytesConcat(s.layers, opts);
    assert p == p[..s.aux] + p[s.aux..];
    assert Bytes(s.layers) + p == Bytes(s.layers) + p[..s.aux] + p[s.aux..];
    if |p| == s.aux {
      assert p[..s.aux] == p;
    }
  }

  /** What follows a transport header. */
  lemma AcceptTail(s: Scan, p: seq<Byte>)
    requires Sane(s) && 0 < |s.layers| && |s.layers| + 41 < MAX_LAYER && Clean(s.layers)
    requires s.phase == GetData || (s.phase == GetTcpOpt && s.aux <= |p| && s.aux <= 40)
    ensures Accepts(s, p)
  {
    if s.phase == GetData {
      AcceptData(s, p);
    } else {
      var opts := OptionsTaken(s, p);
      if |p| > s.aux {
        AcceptData(AfterOptions(s, opts), p[s.aux..]);
      }
      AcceptOptions(s, p, opts);
    }
  }

  // --- what a compiled stack looks like ---------------------------------------------------------

  lemma {:induction false} RunEndIs(ls: seq<Layer>, j: nat, e: nat, k: Kind)
    requires j <= e <= |ls| && (forall i | j <= i < e :: ls[i].kind == k) && (e < |ls| ==> ls[e].kind != k)
    ensures RunEnd(ls, j, k) == e
    decreases e - j
  {
    if j < e {
      RunEndIs(ls, j + 1, e, k);
    }
  }

  lemma {:induction false} RunStartIs(ls: seq<Layer>, b: nat, j: nat, k: Kind)
    requires b <= j <= |ls| && (forall i | b <= i < j :: ls[i].kind == k) && (b > 0 ==> ls[b - 1].kind != k)
    ensures RunStart(ls, j, k) == b
    decreases j - b
  {
    if b < j {
      RunStartIs(ls, b, j - 1, k);
    }
  }

  lemma EmptyBytes()
    ensures Bytes([]) == []
  {
  }

  /** The options of layer h run up to e and fill whole words. */
  lemma SettledOptions(ls: seq<Layer>, h: nat, e: nat, k: Kind)
    requires h < e <= |ls| && WellSized(ls) && (k == IpOpt || k == TcpOpt) && ls[h].kind != k
    requires Options(ls[h + 1..e], k) && (e < |ls| ==> ls[e].kind != k) && (e - 1 > h ==> Settled(ls, e - 1))
    ensures OptionBytes(ls, h, k) == Bytes(ls[h + 1..e]) && |Bytes(ls[h + 1..e])| % 4 == 0
  {
    hide Bytes, RunEnd, RunStart, CompiledIp, CompiledIp6, CompiledUpper, WellSized;
    forall i | h < i < e
      ensures ls[i].kind == k
    {
      assert ls[h + 1..e][i - h - 1] == ls[i];
    }
    RunEndIs(ls, h + 1, e, k);
    if e - 1 > h {
      RunStartIs(ls, h + 1, e - 1, k);
      var size := |Bytes(ls[h + 1..e])|;
      assert CompiledOption(ls, e - 1).data == ls[e - 1].data + Nops(Padding(size));
      assert Padding(size) == 0;
    } else {
      assert ls[h + 1..e] == [];
      EmptyBytes();
    }
  }

  /** The checksum a compiled upper layer carries is right. */
  lemma SettledUpper(ls: seq<Layer>, u: nat) returns (pseudo: seq<Byte>)
    requires u < |ls| && WellSized(ls) && IsUpper(ls[u].kind) && ls[u].flags == {} && Settled(ls, u)
    ensures var d := ls[u].data; var k := ls[u].kind;
            && PseudoOf(ls, u, k, |d| + |Bytes(ls[u + 1..])|) == Ok(pseudo)
            && Cksum(BigEndian, pseudo + Put16(d, CksumOffset(k), 0) + Bytes(ls[u + 1..])) == Get16(d, CksumOffset(k))
  {
    hide PseudoOf, Cksum, Bytes, Put16, CksumOffset;
    var h, o := UpperFields(ls, u), CksumOffset(ls[u].kind);
    var c := UpperCksum(ls, u, h).value;
    PutTwice(h, o, c, 0);
    pseudo := PseudoOf(ls, u, ls[u].kind, |h| + |Bytes(ls[u + 1..])|).value;
  }

  // --- what the IP header of a compiled stack says ---------------------------------------------------

  lemma CutBytes(ls: seq<Layer>, a: nat, b: nat)
    requires a <= b <= |ls|
    ensures Bytes(ls[a..]) == Bytes(ls[a..b]) + Bytes(ls[b..])
  {
    hide Bytes;
    assert ls[a..] == ls[a..b] + ls[b..];
    BytesConcat(ls[a..b], ls[b..]);
  }

  lemma Associates(a: seq<Byte>, b: seq<Byte>, c: seq<Byte>)
    ensures a + (b + c) == a + b + c
  {
  }

  /** The bytes from layer j on: its own, its options, the rest. */
  lemma PartsFrom(ls: seq<Layer>, j: nat, e: nat)
    requires j < e <= |ls|
    ensures Bytes(ls[j..]) == ls[j].data + Bytes(ls[j + 1..e]) + Bytes(ls[e..])
    ensures Bytes(ls[j + 1..]) == Bytes(ls[j + 1..e]) + Bytes(ls[e..])
  {
    hide Bytes;
    BytesCons(ls, j);
    CutBytes(ls, j + 1, e);
    Associates(ls[j].data, Bytes(ls[j + 1..e]), Bytes(ls[e..]));
  }

  ghost predicate AllSettled(ls: seq<Layer>) {
    WellSized(ls) && forall k | 0 <= k < |ls| :: Settled(ls, k)
  }

  lemma StackOptions(ls: seq<Layer>, n: nat, m: nat)
    requires IsStack(ls, n, m) && AllSettled(ls)
    ensures ls[0].kind == Ip ==> OptionBytes(ls, 0, IpOpt) == Bytes(ls[1..n + 1])
    ensures |Bytes(ls[1..n + 1])| % 4 == 0
    ensures ls[n + 1].kind == Tcp ==> OptionBytes(ls, n + 1, TcpOpt) == Bytes(ls[n + 2..n + 2 + m])
    ensures |Bytes(ls[n + 2..n + 2 + m])| % 4 == 0
  {
    hide CompiledLayer, Bytes, OptionBytes;
    if ls[0].kind == Ip {
      SettledOptions(ls, 0, n + 1, IpOpt);
    } else {
      assert ls[1..1] == [];
      EmptyBytes();
    }
    if ls[n + 1].kind == Tcp {
      if n + 2 + m < |ls| {
        assert ls[n + 2 + m..][0].kind == Data;
      }
      SettledOptions(ls, n + 1, n + 2 + m, TcpOpt);
    } else {
      assert ls[n + 2..n + 2] == [];
      EmptyBytes();
    }
  }

  // --- the transport header -----------------------------------------------------------------------------

  function PhaseOf(k: Kind): Phase {
    if k == Tcp then GetTcp else if k == Udp then GetUdp else if k == Icmp then GetIcmp else GetIcmp6
  }

  /** The layers taken so far end in the IP header d and its options. */
  predicate OverIp(ls: seq<Layer>, k: Kind, d: seq<Byte>) {
    && |ls| > 0 && ls[0].kind == k && ls[0].data == d && |d| == HeaderSize(k)
    && Options(ls[1..], IpOpt) && (k == Ip6 ==> |ls| == 1)
  }

  lemma {:induction false} SkipOptionsIs(ls: seq<Layer>, k: int)
    requires 0 <= k < |ls| && (forall i | 0 < i <= k :: ls[i].kind == IpOpt)
    ensures SkipOptions(ls, k) == 0
    decreases k
  {
    if k > 0 {
      SkipOptionsIs(ls, k - 1);
    }
  }

  /** Compiler and dissector sum the same pseudo header. */
  lemma SamePseudoHeader(a: seq<Layer>, i: nat, b: seq<Layer>, j: nat, kind: Kind, len: nat)
    requires 0 < i <= |a| && 0 < j <= |b| && WellSized(a) && WellSized(b)
    requires (a[0].kind == Ip || (a[0].kind == Ip6 && i == j == 1)) && OverIp(a[..i], a[0].kind, a[0].data)
    requires OverIp(b[..j], a[0].kind, a[0].data)
    ensures PseudoOf(a, i, kind, len) == PseudoOf(b, j, kind, len)
  {
    forall x | 0 < x < i
      ensures a[..i][x].kind == IpOpt
    {
      assert a[..i][1..][x - 1] == a[..i][x];
    }
    forall x | 0 < x < j
      ensures b[..j][x].kind == IpOpt
    {
      assert b[..j][1..][x - 1] == b[..j][x];
    }
    SkipOptionsIs(a[..i], i - 1);
    SkipOptionsIs(b[..j], j - 1);
    assert a[0] == a[..i][0] && b[0] == b[..j][0];
  }

  /** The dissector's view of a transport header whose checksum is right. */
  lemma TakeTransport(s: Scan, p: seq<Byte>, d: seq<Byte>, rest: seq<Byte>, k: Kind, pseudo: seq<Byte>)
    returns (t: Taken)
    requires Sane(s) && s.phase == PhaseOf(k) && |s.layers| < MAX_LAYER && IsUpper(k) && k != Igrp
    requires p == d + rest && |d| == HeaderSize(k) && PseudoOf(s.layers, |s.layers|, k, |p|) == Ok(pseudo)
    requires Cksum(BigEndian, pseudo + Put16(d, CksumOffset(k), 0) + rest) == Get16(d, CksumOffset(k))
    requires k == Icmp ==> IsEchoLike(d[0]) && pseudo == []
    requires k == Tcp ==> High4(d[12]) >= 5 && High4(d[12]) * 4 <= |p|
    ensures Handle(s, p) == Ok(t) && t.layer == Layer(k, d, {}) && t.len == |d|
    ensures if k == Tcp && High4(d[12]) > 5 then t.next == GetTcpOpt && t.aux == (High4(d[12]) - 5) * 4
            else t.next == GetData
  {
    hide Cksum, PseudoOf, SkipOptions, WellSized;
    var o := CksumOffset(k);
    assert Put16(p, o, 0) == Put16(d, o, 0) + rest;
    assert pseudo + Put16(p, o, 0) == pseudo + Put16(d, o, 0) + rest;
    assert Get16(p, o) == Get16(d, o);
    assert CksumMatches(pseudo, p, o);
    assert p[..|d|] == d;
    t := Handle(s, p).value;
  }

  /** Only the checksum bytes differ from the fields set before it. */
  lemma SettledFields(ls: seq<Layer>, u: nat)
    requires u < |ls| && WellSized(ls) && IsUpper(ls[u].kind) && Settled(ls, u)
    ensures |UpperFields(ls, u)| == |ls[u].data|
    ensures var o := CksumOffset(ls[u].kind);
            forall k | 0 <= k < |ls[u].data| && k != o && k != o + 1 :: ls[u].data[k] == UpperFields(ls, u)[k]
  {
    hide Bytes, OptionBytes, UpperCksum, UpperFields;
  }

  lemma TcpOffset(ls: seq<Layer>, u: nat)
    requires u < |ls| && ls[u].kind == Tcp && |ls[u].data| >= 20 && ls[u].flags == {}
    requires |OptionBytes(ls, u, TcpOpt)| <= 40
    ensures High4(UpperFields(ls, u)[12]) == 5 + |OptionBytes(ls, u, TcpOpt)| / 4
  {
    hide OptionBytes;
  }

  /** The data offset of a compiled TCP header counts its options. */
  lemma SettledTcp(ls: seq<Layer>, n: nat, m: nat)
    requires IsStack(ls, n, m) && AllSettled(ls) && ls[n + 1].kind == Tcp && ls[n + 1].flags == {}
    ensures var t := |Bytes(ls[n + 2..n + 2 + m])|;
            High4(ls[n + 1].data[12]) == 5 + t / 4 && t % 4 == 0 && t <= 40
  {
    hide Bytes, OptionBytes, UpperFields, High4, CompiledLayer;
    StackOptions(ls, n, m);
    assert Settled(ls, n + 1);
    SettledFields(ls, n + 1);
    TcpOffset(ls, n + 1);
  }

  lemma OverIpPrefix(ls: seq<Layer>, n: nat, m: nat)
    requires IsStack(ls, n, m)
    ensures OverIp(ls[..n + 1], ls[0].kind, ls[0].data)
  {
    assert ls[..n + 1][1..] == ls[1..n + 1];
  }

  lemma NoPseudoForIcmp(ls: seq<Layer>, j: nat, len: nat)
    requires j <= |ls| && WellSized(ls)
    ensures PseudoOf(ls, j, Icmp, len) == Ok([])
  {
  }

  lemma TransportTaken(ls: seq<Layer>, n: nat, m: nat, s: Scan, p: seq<Byte>) returns (t: Taken)
    requires IsStack(ls, n, m) && NothingTaken(ls) && AllSettled(ls)
    requires Sane(s) && s.phase == PhaseOf(ls[n + 1].kind) && |s.layers| <= 41
    requires OverIp(s.layers, ls[0].kind, ls[0].data) && p == ls[n + 1].data + Bytes(ls[n + 2..])
    requires ls[n + 1].kind == Tcp ==> var off := High4(ls[n + 1].data[12]); 5 <= off && off * 4 <= |p|
    ensures var d, k := ls[n + 1].data, ls[n + 1].kind;
            && Handle(s, p) == Ok(t) && t.layer == Layer(k, d, {}) && t.len == |d|
            && (if k == Tcp && High4(d[12]) > 5 then t.next == GetTcpOpt && t.aux == (High4(d[12]) - 5) * 4
                else t.next == GetData)
  {
    hide Bytes, CompiledLayer, Handle, Cksum, PseudoOf, High4, Put16;
    var u, k := n + 1, ls[n + 1].kind;
    OverIpPrefix(ls, n, m);
    assert Settled(ls, u) && s.layers[..|s.layers|] == s.layers;
    var pseudo := SettledUpper(ls, u);
    SamePseudoHeader(ls, u, s.layers, |s.layers|, k, |p|);
    NoPseudoForIcmp(ls, u, |p|);
    t := TakeTransport(s, p, ls[u].data, Bytes(ls[u + 1..]), k, pseudo);
  }

  lemma AfterTransport(s: Scan, p: seq<Byte>, t: Taken)
    requires Sane(s) && 0 < |s.layers| <= 41 && Clean(s.layers) && s.phase != GetIpOpt && s.phase != GetTcpOpt
    requires Handle(s, p) == Ok(t) && t.len <= |p| && t.layer.data == p[..t.len] && BAD_CKSUM !in t.layer.flags
    requires t.next == GetData || (t.next == GetTcpOpt && t.aux <= |p| - t.len && t.aux <= 40)
    ensures Accepts(s, p)
  {
    hide Handle, Dissect, Bytes, Sane;
    UnfoldsLater(s, p, t);
    if t.len < |p| {
      AcceptTail(After(s, t), p[t.len..]);
    }
    AcceptStep(s, p, t);
  }

  /** From the transport header on. */
  lemma {:induction false} AcceptTransport(ls: seq<Layer>, n: nat, m: nat, s: Scan)
    requires IsStack(ls, n, m) && NothingTaken(ls) && AllSettled(ls)
    requires Sane(s) && s.phase == PhaseOf(ls[n + 1].kind) && Clean(s.layers) && |s.layers| <= 41
    requires OverIp(s.layers, ls[0].kind, ls[0].data)
    ensures Accepts(s, Bytes(ls[n + 1..]))
  {
    hide Bytes, CompiledLayer, Handle, Dissect, Cksum, PseudoOf, High4;
    var d, rest, p := ls[n + 1].data, Bytes(ls[n + 2..]), Bytes(ls[n + 1..]);
    BytesCons(ls, n + 1);
    PartsFrom(ls, n + 1, n + 2 + m);
    if ls[n + 1].kind == Tcp {
      SettledTcp(ls, n, m);
    }
    var t := TransportTaken(ls, n, m, s, p);
    assert p[..|d|] == d;
    AfterTransport(s, p, t);
  }

  // --- the IP header ----------------------------------------------------------------------------------------

  function ProtoNumber(k: Kind): Byte {
    if k == Tcp then PROTO_TCP else if k == Udp then PROTO_UDP else if k == Icmp then PROTO_ICMP else PROTO_ICMPV6
  }

  lemma IpFieldsSay(ls: seq<Layer>)
    requires |ls| > 0 && |ls[0].data| == 20 && ls[0].flags == {}
    requires |OptionBytes(ls, 0, IpOpt)| <= 40 && RelativeSize(ls, 0) <= 0xFFFF
    ensures var h := IpFields(ls, 0);
            && High4(h[0]) == 4 && Low4(h[0]) == 5 + |OptionBytes(ls, 0, IpOpt)| / 4
            && Get16(h, 2) == RelativeSize(ls, 0) && h[9] == ProtocolAt(ls, 1)
  {
    hide OptionBytes, RelativeSize, ProtocolAt;
  }

  /** A checksum written over header h is right for the bytes that then stand there. */
  lemma ChecksumSays(h: seq<Byte>, o: seq<Byte>, d: seq<Byte>)
    requires |h| == 20 && d == Put16(h, 10, Cksum(BigEndian, Put16(h, 10, 0)[..20] + o))
    ensures Cksum(BigEndian, Put16(d, 10, 0) + o) == Get16(d, 10)
  {
    hide Cksum, Get16, Put16;
    var c := Cksum(BigEndian, Put16(h, 10, 0)[..20] + o);
    PutTwice(h, 10, c, 0);
    assert Put16(h, 10, 0)[..20] == Put16(h, 10, 0);
  }

  lemma OptionsBetween(ls: seq<Layer>, n: nat, m: nat)
    requires IsStack(ls, n, m)
    ensures forall i | 1 <= i < n + 1 :: ls[i].kind == IpOpt
    ensures var k := ls[n + 1].kind; k != IpOpt && k == ls[n + 1].kind
  {
    forall i | 1 <= i < n + 1
      ensures ls[i].kind == IpOpt
    {
      assert ls[1..n + 1][i - 1] == ls[i];
    }
  }

  /** The fields of a compiled IPv4 header. */
  lemma SettledIp(ls: seq<Layer>, n: nat, m: nat)
    requires IsStack(ls, n, m) && AllSettled(ls) && ls[0].kind == Ip && ls[0].flags == {}
    ensures var h := ls[0].data; var o := Bytes(ls[1..n + 1]);
            && High4(h[0]) == 4 && Low4(h[0]) == 5 + |o| / 4 && |o| % 4 == 0
            && Get16(h, 2) == |Bytes(ls)| && h[9] == ProtoNumber(ls[n + 1].kind)
            && Cksum(BigEndian, Put16(h, 10, 0) + o) == Get16(h, 10)
  {
    hide Bytes, OptionBytes, Cksum, RunEnd, IpFields, High4, Low4, Put16;
    StackOptions(ls, n, m);
    assert Settled(ls, 0) && ls[0..] == ls;
    OptionsBetween(ls, n, m);
    RunEndIs(ls, 1, n + 1, IpOpt);
    IpFieldsSay(ls);
    ChecksumSays(IpFields(ls, 0), OptionBytes(ls, 0, IpOpt), ls[0].data);
  }

  /** The fields of a compiled IPv6 header. */
  lemma SettledIp6(ls: seq<Layer>, n: nat, m: nat)
    requires IsStack(ls, n, m) && AllSettled(ls) && ls[0].kind == Ip6 && ls[0].flags == {}
    ensures var h := ls[0].data;
            High4(h[0]) == 6 && Get16(h, 4) == |Bytes(ls[1..])| && h[6] == ProtoNumber(ls[1].kind)
  {
    hide Bytes;
    assert Settled(ls, 0);
  }

  // --- the whole packet -----------------------------------------------------------------------------------------

  /** Dissecting p from the start succeeds, with no bad checksum, and gives the bytes b. */
  ghost predicate AcceptsAs(p: seq<Byte>, b: seq<Byte>) {
    match Dissect(Start(p), p)
    case Err(_) => false
    case Ok(r) => Clean(r) && Bytes(r) == b
  }

  lemma TransportHasBytes(ls: seq<Layer>, n: nat, m: nat)
    requires IsStack(ls, n, m)
    ensures |Bytes(ls[n + 1..])| >= 8
  {
    BytesCons(ls, n + 1);
  }

  lemma UpperAfterOptions(ls: seq<Layer>, n: nat, m: nat, s: Scan, opts: seq<Layer>)
    requires IsStack(ls, n, m) && |s.layers| == 1 && Clean(s.layers) && OverIp(s.layers, ls[0].kind, ls[0].data)
    requires s.phase == GetIpOpt && |Bytes(ls[1..n + 1])| > 0 && Options(opts, IpOpt) && Clean(opts)
    ensures var ls' := AfterOptions(s, opts).layers; Clean(ls') && OverIp(ls', ls[0].kind, ls[0].data)
  {
    assert (s.layers + opts)[1..] == opts;
    assert |Bytes(ls[1..1])| == 0;
  }

  /** After the IP header the transport header, or IPv4 options and then that. */
  lemma AcceptUpper(ls: seq<Layer>, n: nat, m: nat, s: Scan, p: seq<Byte>)
    requires IsStack(ls, n, m) && NothingTaken(ls) && AllSettled(ls) && p == Bytes(ls[1..]) && |p| > 0
    requires Sane(s) && |s.layers| == 1 && Clean(s.layers) && OverIp(s.layers, ls[0].kind, ls[0].data)
    requires var o := Bytes(ls[1..n + 1]); var k := ls[n + 1].kind;
             if |o| > 0 then s.phase == GetIpOpt && s.aux == |o| && IpNext(s.proto) == PhaseOf(k)
             else s.phase == PhaseOf(k)
    ensures Accepts(s, p)
  {
    hide Bytes, AllSettled, Dissect, Sane, Handle;
    var o, rest := Bytes(ls[1..n + 1]), Bytes(ls[n + 1..]);
    PartsFrom(ls, 0, n + 1);
    if |o| == 0 {
      assert o + rest == rest;
      AcceptTransport(ls, n, m, s);
    } else {
      assert (o + rest)[..|o|] == o && (o + rest)[|o|..] == rest;
      TransportHasBytes(ls, n, m);
      var opts := OptionsTaken(s, p);
      UpperAfterOptions(ls, n, m, s, opts);
      AcceptTransport(ls, n, m, AfterOptions(s, opts));
      AcceptOptions(s, p, opts);
    }
  }

  lemma HeaderChecksumMatches(h: seq<Byte>, o: seq<Byte>, p: seq<Byte>)
    requires |h| == 20 && h + o <= p && Cksum(BigEndian, Put16(h, 10, 0) + o) == Get16(h, 10)
    ensures CksumMatches([], p[..20 + |o|], 10)
  {
    hide Cksum;
    var q := p[..20 + |o|];
    assert q == h + o;
    assert [] + Put16(q, 10, 0) == Put16(h, 10, 0) + o;
  }

  /** A header with right fields and checksum leads on to its options or payload. */
  lemma IpHeaderTaken(p: seq<Byte>, h: seq<Byte>, o: seq<Byte>) returns (t: Taken)
    requires |h| == 20 && h + o <= p && High4(h[0]) == 4 && Low4(h[0]) == 5 + |o| / 4 && |o| % 4 == 0
    requires CksumMatches([], p[..20 + |o|], 10)
    ensures Handle(Start(p), p) == Ok(t) && t.layer == Layer(Ip, h, {}) && t.len == 20
    ensures if |o| > 0 then t.next == GetIpOpt && t.aux == |o| && t.proto == h[9] else t.next == IpNext(h[9])
  {
    hide CksumMatches, FreshHeader, IpNext;
    assert p[..20] == h && p[0] == h[0] && p[9] == h[9];
    t := TakeIp(p, 0, 0);
  }

  lemma Ip6HeaderTaken(p: seq<Byte>, h: seq<Byte>) returns (t: Taken)
    requires |h| == 40 && h <= p && High4(h[0]) == 6
    ensures Handle(Start(p), p) == Ok(t) && t.layer == Layer(Ip6, h, {}) && t.len == 40 && t.next == Ip6Next(h[6])
  {
    hide FreshHeader, Ip6Next;
    assert p[..40] == h && p[0] == h[0] && p[6] == h[6];
    t := TakeIp6(p, 0, 0);
  }

  /** The state after the IP header of a compiled stack. */
  lemma IpTaken(ls: seq<Layer>, n: nat, m: nat, p: seq<Byte>) returns (t: Taken)
    requires IsStack(ls, n, m) && NothingTaken(ls) && AllSettled(ls) && Bytes(ls) <= p
    ensures Handle(Start(p), p) == Ok(t) && t.layer == ls[0] && t.len == |ls[0].data|
    ensures Datagram([t.layer], t.len, p) == |Bytes(ls)|
    ensures var o := Bytes(ls[1..n + 1]); var k := ls[n + 1].kind;
            if |o| > 0 then t.next == GetIpOpt && t.aux == |o| && IpNext(t.proto) == PhaseOf(k)
            else t.next == PhaseOf(k)
  {
    hide Bytes, Dissect, Cksum, CompiledLayer, Handle, AllSettled, High4, Low4, CksumMatches;
    var h, o := ls[0].data, Bytes(ls[1..n + 1]);
    PartsFrom(ls, 0, n + 1);
    assert ls[0..] == ls;
    if ls[0].kind == Ip {
      SettledIp(ls, n, m);
      HeaderChecksumMatches(h, o, p);
      t := IpHeaderTaken(p, h, o);
    } else {
      SettledIp6(ls, n, m);
      assert ls[1..1] == [];
      EmptyBytes();
      t := Ip6HeaderTaken(p, h);
    }
  }

  lemma AcceptStart(p: seq<Byte>, t: Taken, total: nat)
    requires Handle(Start(p), p) == Ok(t) && t.len < total <= |p| && t.layer.data == p[..t.len]
    requires WellSized([t.layer]) && Datagram([t.layer], t.len, p) == total
    requires Sane(After(Start(p), t)) && Accepts(After(Start(p), t), p[t.len..total])
    ensures AcceptsAs(p, p[..total])
  {
    hide Bytes, Dissect, Sane, Handle, Datagram;
    var s := Start(p);
    assert s.layers + [t.layer] == [t.layer];
    var rest := Unfolds(s, p, t);
    BytesOne(t.layer);
    assert p[..total] == p[..t.len] + p[t.len..total];
  }

  lemma SaneAfterIp(p: seq<Byte>, t: Taken)
    requires |p| > 0 && Handle(Start(p), p) == Ok(t) && t.next != Done
    ensures Sane(After(Start(p), t)) && After(Start(p), t).layers == [t.layer] && WellSized([t.layer])
  {
    hide Handle;
    StepKeepsSane(Start(p), p);
    assert [] + [t.layer] == [t.layer];
  }

  lemma FirstIsHeader(ls: seq<Layer>, n: nat, m: nat)
    requires IsStack(ls, n, m)
    ensures n + 1 < |ls| && |ls[0].data| == HeaderSize(ls[0].kind)
    ensures OverIp([ls[0]], ls[0].kind, ls[0].data) && PhaseOf(ls[n + 1].kind) != Done
  {
    assert [ls[0]][1..] == [];
  }

  lemma PayloadFollows(ls: seq<Layer>, n: nat, m: nat, p: seq<Byte>)
    requires IsStack(ls, n, m) && Bytes(ls) <= p
    ensures |ls[0].data| < |Bytes(ls)|
    ensures p[..|ls[0].data|] == ls[0].data && p[|ls[0].data|..|Bytes(ls)|] == Bytes(ls[1..])
  {
    hide Bytes;
    TransportHasBytes(ls, n, m);
    PartsFrom(ls, 0, n + 1);
    BytesCons(ls, 0);
    assert ls[0..] == ls;
    assert Bytes(ls) == ls[0].data + Bytes(ls[1..]);
    assert p == Bytes(ls) + p[|Bytes(ls)|..];
  }

  /** The dissector accepts what the compiler builds: for every compiled stack, and
      whatever link-layer padding follows, it drops the padding, finds no bad checksum
      and keeps every byte. */
  lemma {:induction false} CompiledIsAccepted(ls: seq<Layer>, n: nat, m: nat, pad: seq<Byte>)
    requires IsStack(ls, n, m) && NothingTaken(ls) && AllSettled(ls)
    ensures AcceptsAs(Bytes(ls) + pad, Bytes(ls))
  {
    hide Bytes, Dissect, Sane, Handle, AllSettled, Datagram, IsStack;
    var p := Bytes(ls) + pad;
    FirstIsHeader(ls, n, m);
    var t := IpTaken(ls, n, m, p);
    PayloadFollows(ls, n, m, p);
    SaneAfterIp(p, t);
    AcceptUpper(ls, n, m, After(Start(p), t), p[t.len..|Bytes(ls)|]);
    AcceptStart(p, t, |Bytes(ls)|);
    assert p[..|Bytes(ls)|] == Bytes(ls);
  }
}
