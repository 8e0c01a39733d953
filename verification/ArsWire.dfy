// What a compiled packet says on the wire, byte by byte and with the numbers written out:
// RFC 791, RFC 8200, RFC 768, RFC 9293, RFC 792 and RFC 4443.
module ArsWire {
  import opened Checksum
  import opened Ars
  import opened ArsCompile
  import opened ArsSettled
  import opened ArsAccept

  /** A number in network order. */
  function Number(hi: Byte, lo: Byte): nat {
    var a: nat, b: nat := hi, lo;
    256 * a + b
  }

  /** The two bytes at o hold the checksum of the rest, with zeroes in their place, after
      the bytes `before`. */
  predicate Sums(before: seq<Byte>, q: seq<Byte>, o: nat)
    requires o + 1 < |q|
  {
    Cksum(BigEndian, before + (q[..o] + [0, 0] + q[o + 2..])) == Number(q[o], q[o + 1])
  }

  /** The layers of kind k that follow layer j end before e. */
  predicate Followed(ls: seq<Layer>, j: nat, e: nat, k: Kind) {
    j < e <= |ls| && (forall i | j < i < e :: ls[i].kind == k) && (e < |ls| ==> ls[e].kind != k)
  }

  /** Layer p is the IPv4 header over layer j: only its options are between. */
  predicate Over4(ls: seq<Layer>, p: nat, j: nat) {
    p < j <= |ls| && ls[p].kind == Ip && forall i | p < i < j :: ls[i].kind == IpOpt
  }

  /** Layer p is the IPv6 header right before layer j. */
  predicate Over6(ls: seq<Layer>, p: nat, j: nat) {
    p + 1 == j <= |ls| && ls[p].kind == Ip6
  }

  /** Addresses, a zero, the protocol number and the length (section 3.1 of RFC 9293). */
  function PseudoBytes4(ip: seq<Byte>, n: Byte, len: nat): seq<Byte>
    requires |ip| >= 20
  {
    ip[12..16] + ip[16..20] + [0, n, len / 256 % 256, len % 256]
  }

  /** Addresses, the length in four bytes, three zeroes and the next header (section 8.1 of
      RFC 8200). */
  function PseudoBytes6(ip: seq<Byte>, n: Byte, len: nat): seq<Byte>
    requires |ip| >= 40
  {
    ip[8..24] + ip[24..40] +
    [len / 16777216 % 256, len / 65536 % 256, len / 256 % 256, len % 256] + [0, 0, 0, n]
  }

  /** The protocol number of what an IPv4 header carries: 255 for what has none. */
  function Protocol4(k: Kind): Byte {
    match k
    case Icmp => 1 case Ip => 4 case Tcp => 6 case Igrp => 9 case Udp => 17 case _ => 255
  }

  /** The next header after IPv6: 59 for nothing. */
  function Protocol6(k: Kind): Byte {
    match k
    case Icmp => 1 case Ip => 4 case Tcp => 6 case Udp => 17 case Ip6 => 41 case Icmp6 => 58 case _ => 59
  }

  lemma CompiledSettles(ls: seq<Layer>, r: seq<Layer>)
    requires WellSized(ls) && Compiled(ls) == Ok(r)
    ensures WellSized(r) && |r| == |ls| && forall k | 0 <= k < |r| :: Settled(r, k)
  {
    AllSettle(ls, |ls|);
  }

  lemma FollowedOptions(ls: seq<Layer>, j: nat, e: nat, k: Kind)
    requires Followed(ls, j, e, k)
    ensures OptionBytes(ls, j, k) == Bytes(ls[j + 1..e]) && RunEnd(ls, j + 1, k) == e
  {
    RunEndIs(ls, j + 1, e, k);
  }

  lemma TwoBytes(w: Word16)
    ensures Number(w / 256, w % 256) == w
  {
  }

  // --- IPv4 and IPv6 headers ------------------------------------------------------------------------

  lemma SettledFields(r: seq<Layer>, j: nat)
    requires j < |r| && |r[j].data| >= 20 && CompiledIp(r, j) == r[j]
    ensures forall k | 0 <= k < |r[j].data| && k != 10 && k != 11 :: IpFields(r, j)[k] == r[j].data[k]
  {
    hide IpFields, Cksum, OptionBytes;
  }

  lemma VersionAndLengths(r: seq<Layer>, j: nat)
    requires j < |r| && |r[j].data| >= 20
    ensures var h, f := IpFields(r, j), r[j].flags;
            && (TAKE_IP_VERSION !in f ==> h[0] / 16 == 4)
            && (TAKE_IP_HDRLEN !in f ==> h[0] % 16 == (5 + |OptionBytes(r, j, IpOpt)| / 4) % 16)
            && (TAKE_IP_TOTLEN !in f ==> Number(h[2], h[3]) == |Bytes(r[j..])| % 65536)
  {
    hide OptionBytes, Bytes, ProtocolAt;
  }

  lemma ProtocolField(r: seq<Layer>, j: nat, e: nat)
    requires j < |r| && |r[j].data| >= 20 && Followed(r, j, e, IpOpt)
    ensures TAKE_IP_PROTOCOL !in r[j].flags ==>
              IpFields(r, j)[9] ==
              if TAKE_IP_HDRLEN in r[j].flags then 4 else if e < |r| then Protocol4(r[e].kind) else 255
  {
    RunEndIs(r, j + 1, e, IpOpt);
    hide OptionBytes, Bytes, PutHigh4, PutLow4, Put16;
  }

  /** Version, lengths and protocol of a compiled IPv4 header, unless set by hand. */
  lemma Ip4Fields(ls: seq<Layer>, r: seq<Layer>, j: nat, e: nat)
    requires WellSized(ls) && Compiled(ls) == Ok(r) && j < |r| && r[j].kind == Ip && Followed(r, j, e, IpOpt)
    ensures var h, f, o := r[j].data, r[j].flags, Bytes(r[j + 1..e]);
            && |h| >= 20
            && (TAKE_IP_VERSION !in f ==> h[0] / 16 == 4)
            && (TAKE_IP_HDRLEN !in f ==> h[0] % 16 == (5 + |o| / 4) % 16)
            && (TAKE_IP_TOTLEN !in f ==> Number(h[2], h[3]) == |Bytes(r[j..])| % 65536)
            && (TAKE_IP_PROTOCOL !in f ==>
                  h[9] == if TAKE_IP_HDRLEN in f then 4 else if e < |r| then Protocol4(r[e].kind) else 255)
  {
    CompiledSettles(ls, r);
    FollowedOptions(r, j, e, IpOpt);
    assert Settled(r, j);
    hide Bytes, OptionBytes, RunEnd, IpFields, ProtocolAt, High4, Low4, Cksum, Put16, WellSized, Followed;
    SettledFields(r, j);
    VersionAndLengths(r, j);
    ProtocolField(r, j, e);
  }

  /** Its checksum: over the header and the options. */
  lemma Ip4Checksum(ls: seq<Layer>, r: seq<Layer>, j: nat, e: nat)
    requires WellSized(ls) && Compiled(ls) == Ok(r) && j < |r| && r[j].kind == Ip && Followed(r, j, e, IpOpt)
    ensures |r[j].data| >= 20
    ensures TAKE_IP_CKSUM !in r[j].flags ==> Sums([], r[j].data[..20] + Bytes(r[j + 1..e]), 10)
  {
    CompiledSettles(ls, r);
    FollowedOptions(r, j, e, IpOpt);
    assert Settled(r, j);
    hide Bytes, OptionBytes, Cksum, RunEnd, IpFields, WellSized, Compiled;
    if TAKE_IP_CKSUM !in r[j].flags {
      var h, d, o := IpFields(r, j), r[j].data, Bytes(r[j + 1..e]);
      var q := d[..20] + o;
      assert [] + (q[..10] + [0, 0] + q[12..]) == Put16(h, 10, 0)[..20] + o;
      TwoBytes(Cksum(BigEndian, Put16(h, 10, 0)[..20] + o));
    }
  }

  /** Version, payload length and next header of a compiled IPv6 header. */
  lemma Ip6Fields(ls: seq<Layer>, r: seq<Layer>, j: nat)
    requires WellSized(ls) && Compiled(ls) == Ok(r) && j < |r| && r[j].kind == Ip6
    ensures var h, f := r[j].data, r[j].flags;
            && |h| >= 40
            && (TAKE_IP6_VERSION !in f ==> h[0] / 16 == 6)
            && (TAKE_IP6_PAYLOADLEN !in f ==> Number(h[4], h[5]) == |Bytes(r[j + 1..])| % 65536)
            && (TAKE_IP6_NEXTHDR !in f ==> h[6] == if j + 1 < |r| then Protocol6(r[j + 1].kind) else 59)
  {
    CompiledSettles(ls, r);
    assert Settled(r, j);
    hide Bytes;
  }

  // --- transport headers --------------------------------------------------------------------------------

  lemma SettledUpperFields(r: seq<Layer>, j: nat)
    requires j < |r| && WellSized(r) && Settled(r, j) && IsUpper(r[j].kind)
    ensures var h, o := UpperFields(r, j), CksumOffset(r[j].kind);
            |h| == |r[j].data| && forall k | 0 <= k < |h| && k != o && k != o + 1 :: h[k] == r[j].data[k]
  {
    hide UpperCksum, UpperFields, CksumOffset;
  }

  /** The data offset of a compiled TCP header. */
  lemma TcpLength(ls: seq<Layer>, r: seq<Layer>, j: nat, e: nat)
    requires WellSized(ls) && Compiled(ls) == Ok(r) && j < |r| && r[j].kind == Tcp && Followed(r, j, e, TcpOpt)
    ensures |r[j].data| >= 20
    ensures TAKE_TCP_HDRLEN !in r[j].flags ==> r[j].data[12] / 16 == (5 + |Bytes(r[j + 1..e])| / 4) % 16
  {
    CompiledSettles(ls, r);
    FollowedOptions(r, j, e, TcpOpt);
    SettledUpperFields(r, j);
    hide Bytes, OptionBytes, RunEnd, CompiledLayer, Compiled;
    assert CksumOffset(Tcp) == 16;
    assert TAKE_TCP_HDRLEN !in r[j].flags ==>
             UpperFields(r, j)[12] == PutHigh4(r[j].data[12], 5 + |OptionBytes(r, j, TcpOpt)| / 4);
  }

  /** The length of a compiled UDP header. */
  lemma UdpLength(ls: seq<Layer>, r: seq<Layer>, j: nat)
    requires WellSized(ls) && Compiled(ls) == Ok(r) && j < |r| && r[j].kind == Udp
    ensures |r[j].data| >= 8
    ensures TAKE_UDP_LEN !in r[j].flags ==> Number(r[j].data[4], r[j].data[5]) == |Bytes(r[j..])| % 65536
  {
    CompiledSettles(ls, r);
    SettledUpperFields(r, j);
    hide Bytes, OptionBytes, RunEnd, CompiledLayer, Compiled;
    assert CksumOffset(Udp) == 6;
  }

  lemma {:induction false} SkipsTo(ls: seq<Layer>, p: nat, k: nat)
    requires p <= k < |ls| && (forall i | p < i <= k :: ls[i].kind == IpOpt) && ls[p].kind != IpOpt
    ensures SkipOptions(ls, k) == p
    decreases k
  {
    if k > p {
      SkipsTo(ls, p, k - 1);
    }
  }

  /** The pseudo header over IPv4, for TCP and UDP. */
  lemma PseudoOver4(ls: seq<Layer>, p: nat, j: nat, k: Kind, len: nat)
    requires WellSized(ls) && Over4(ls, p, j) && (k == Tcp || k == Udp)
    ensures |ls[p].data| >= 20
    ensures PseudoOf(ls, j, k, len) == Ok(PseudoBytes4(ls[p].data, if k == Tcp then 6 else 17, len))
  {
    SkipsTo(ls[..j], p, j - 1);
    var ip := ls[p].data;
    assert ip[12..20] == ip[12..16] + ip[16..20];
  }

  /** The pseudo header over IPv6, for TCP, UDP and ICMPv6. */
  lemma PseudoOver6(ls: seq<Layer>, p: nat, j: nat, k: Kind, len: nat)
    requires WellSized(ls) && Over6(ls, p, j) && (k == Tcp || k == Udp || k == Icmp6)
    ensures |ls[p].data| >= 40
    ensures PseudoOf(ls, j, k, len) ==
            Ok(PseudoBytes6(ls[p].data, if k == Tcp then 6 else if k == Udp then 17 else 58, len))
  {
    SkipsTo(ls[..j], p, j - 1);
    var ip := ls[p].data;
    assert Pseudo6(ip, if k == Tcp then 6 else if k == Udp then 17 else 58, len) ==
           PseudoBytes6(ip, if k == Tcp then 6 else if k == Udp then 17 else 58, len);
  }

  lemma SumsAsPut(before: seq<Byte>, d: seq<Byte>, rest: seq<Byte>, o: nat)
    requires o + 1 < |d|
    ensures Sums(before, d + rest, o) <==>
            Cksum(BigEndian, before + Put16(d, o, 0) + rest) == Get16(d, o)
  {
    var q := d + rest;
    assert before + (q[..o] + [0, 0] + q[o + 2..]) == before + Put16(d, o, 0) + rest;
    hide Cksum;
  }

  /** The stored checksum of a settled layer, with its pseudo header. */
  lemma SettledSum(r: seq<Layer>, j: nat, pseudo: seq<Byte>)
    requires j < |r| && WellSized(r) && Settled(r, j) && IsUpper(r[j].kind) && !KeepsCksum(r[j])
    requires PseudoOf(r, j, r[j].kind, |Bytes(r[j..])|) == Ok(pseudo)
    ensures |Bytes(r[j..])| > CksumOffset(r[j].kind) + 1 && Sums(pseudo, Bytes(r[j..]), CksumOffset(r[j].kind))
  {
    hide PseudoOf, Cksum, Bytes, Put16, CksumOffset, Sums;
    BytesCons(r, j);
    var h, d, o := UpperFields(r, j), r[j].data, CksumOffset(r[j].kind);
    var rest := Bytes(r[j + 1..]);
    assert |h| + |rest| == |Bytes(r[j..])|;
    var c := UpperCksum(r, j, h).value;
    PutTwice(h, o, c, 0);
    SumsAsPut(pseudo, d, rest, o);
  }

  /** What is common to them. */
  lemma TransportChecksum(ls: seq<Layer>, r: seq<Layer>, j: nat, p: nat)
    requires WellSized(ls) && Compiled(ls) == Ok(r) && j < |r|
    ensures var q, k := Bytes(r[j..]), r[j].kind;
            IsUpper(k) && !KeepsCksum(r[j]) ==>
              && |q| >= HeaderSize(k)
              && (Over4(r, p, j) && (k == Tcp || k == Udp) ==>
                    && |r[p].data| >= 20
                    && Sums(PseudoBytes4(r[p].data, if k == Tcp then 6 else 17, |q|), q, CksumOffset(k)))
              && (Over6(r, p, j) && (k == Tcp || k == Udp || k == Icmp6) ==>
                    && |r[p].data| >= 40
                    && Sums(PseudoBytes6(r[p].data, if k == Tcp then 6 else if k == Udp then 17 else 58, |q|), q,
                            CksumOffset(k)))
              && (k == Icmp || k == Igrp ==> Sums([], q, CksumOffset(k)))
  {
    CompiledSettles(ls, r);
    assert Settled(r, j);
    BytesCons(r, j);
    var q, k := Bytes(r[j..]), r[j].kind;
    hide Sums, Bytes, PseudoBytes4, PseudoBytes6, Cksum, CompiledLayer, Compiled, CksumOffset;
    if IsUpper(k) && !KeepsCksum(r[j]) {
      if Over4(r, p, j) && (k == Tcp || k == Udp) {
        PseudoOver4(r, p, j, k, |q|);
        SettledSum(r, j, PseudoBytes4(r[p].data, if k == Tcp then 6 else 17, |q|));
      }
      if Over6(r, p, j) && (k == Tcp || k == Udp || k == Icmp6) {
        PseudoOver6(r, p, j, k, |q|);
        SettledSum(r, j, PseudoBytes6(r[p].data, if k == Tcp then 6 else if k == Udp then 17 else 58, |q|));
      }
      if k == Icmp || k == Igrp {
        SettledSum(r, j, []);
      }
    }
  }

  /** TCP over IPv4: protocol 6, the checksum in bytes 16 and 17; over IPv6 the same. */
  lemma TcpChecksum(ls: seq<Layer>, r: seq<Layer>, j: nat, p: nat)
    requires WellSized(ls) && Compiled(ls) == Ok(r) && j < |r| && r[j].kind == Tcp && TAKE_TCP_CKSUM !in r[j].flags
    ensures var q := Bytes(r[j..]);
            && |q| >= 20
            && (Over4(r, p, j) ==> |r[p].data| >= 20 && Sums(PseudoBytes4(r[p].data, 6, |q|), q, 16))
            && (Over6(r, p, j) ==> |r[p].data| >= 40 && Sums(PseudoBytes6(r[p].data, 6, |q|), q, 16))
  {
    TransportChecksum(ls, r, j, p);
    hide Sums, Bytes, PseudoBytes4, PseudoBytes6;
  }

  /** UDP: 17, bytes 6 and 7. */
  lemma UdpChecksum(ls: seq<Layer>, r: seq<Layer>, j: nat, p: nat)
    requires WellSized(ls) && Compiled(ls) == Ok(r) && j < |r| && r[j].kind == Udp && TAKE_UDP_CKSUM !in r[j].flags
    ensures var q := Bytes(r[j..]);
            && |q| >= 8
            && (Over4(r, p, j) ==> |r[p].data| >= 20 && Sums(PseudoBytes4(r[p].data, 17, |q|), q, 6))
            && (Over6(r, p, j) ==> |r[p].data| >= 40 && Sums(PseudoBytes6(r[p].data, 17, |q|), q, 6))
  {
    TransportChecksum(ls, r, j, p);
    hide Sums, Bytes, PseudoBytes4, PseudoBytes6;
  }

  /** ICMPv6: 58 and a pseudo header, bytes 2 and 3. */
  lemma Icmp6Checksum(ls: seq<Layer>, r: seq<Layer>, j: nat, p: nat)
    requires WellSized(ls) && Compiled(ls) == Ok(r) && j < |r| && r[j].kind == Icmp6 && TAKE_ICMP6_CKSUM !in r[j].flags
    ensures var q := Bytes(r[j..]);
            |q| >= 8 && (Over6(r, p, j) ==> |r[p].data| >= 40 && Sums(PseudoBytes6(r[p].data, 58, |q|), q, 2))
  {
    TransportChecksum(ls, r, j, p);
    hide Sums, Bytes, PseudoBytes4, PseudoBytes6;
  }

  /** ICMP in bytes 2 and 3 and IGRP in bytes 10 and 11 have no pseudo header. */
  lemma PlainChecksum(ls: seq<Layer>, r: seq<Layer>, j: nat)
    requires WellSized(ls) && Compiled(ls) == Ok(r) && j < |r|
    ensures r[j].kind == Icmp && TAKE_ICMP_CKSUM !in r[j].flags ==>
              |Bytes(r[j..])| >= 8 && Sums([], Bytes(r[j..]), 2)
    ensures r[j].kind == Igrp && TAKE_IGRP_CKSUM !in r[j].flags ==>
              |Bytes(r[j..])| >= 12 && Sums([], Bytes(r[j..]), 10)
  {
    TransportChecksum(ls, r, j, j);
    hide Sums, Bytes;
  }

  // --- what compiling leaves alone ------------------------------------------------------------------------

  lemma StaysWellSized(ls: seq<Layer>, k: nat, l: Layer)
    requires k < |ls| && WellSized(ls) && l.kind == ls[k].kind && |l.data| >= |ls[k].data|
    ensures WellSized(ls[k := l])
  {
  }

  /** The packet in which a layer meets its compiler still has the layer as it was. */
  lemma {:induction false} AtItsTurn(ls: seq<Layer>, n: nat, j: nat) returns (at: seq<Layer>)
    requires n <= |ls| && j < |ls| && WellSized(ls) && CompiledBelow(ls, n).Ok?
    ensures var r := CompiledBelow(ls, n).value;
            && |r| == |ls| == |at| && at[j] == ls[j] && WellSized(at)
            && (if j < n then CompiledLayer(at, j) == Ok(r[j]) else r[j] == ls[j])
    ensures var r := CompiledBelow(ls, n).value;
            forall i | 0 <= i < |ls| :: r[i].kind == at[i].kind == ls[i].kind
    decreases n
  {
    hide CompiledLayer, WellSized;
    at := ls;
    if n > 0 {
      var l := CompiledLayer(ls, n - 1).value;
      StaysWellSized(ls, n - 1, l);
      var next := AtItsTurn(ls[n - 1 := l], n - 1, j);
      if j != n - 1 {
        at := next;
      }
    }
  }

  lemma TurnOf(ls: seq<Layer>, r: seq<Layer>, j: nat) returns (at: seq<Layer>)
    requires WellSized(ls) && Compiled(ls) == Ok(r) && j < |ls|
    ensures |r| == |ls| == |at| && at[j] == ls[j] && WellSized(at) && CompiledLayer(at, j) == Ok(r[j])
    ensures forall i | 0 <= i < |ls| :: r[i].kind == at[i].kind == ls[i].kind
  {
    at := AtItsTurn(ls, |ls|, j);
  }

  /** The bytes of d and e agree everywhere but at the places given. */
  predicate SameBut(d: seq<Byte>, e: seq<Byte>, places: set<nat>) {
    |d| == |e| && forall i: nat | i < |d| && i !in places :: d[i] == e[i]
  }

  lemma KeptByFields(at: seq<Layer>, j: nat)
    requires j < |at| && |at[j].data| >= 20
    ensures var d, h, f := at[j].data, IpFields(at, j), at[j].flags;
            && SameBut(d, h, {0, 2, 3, 9})
            && (TAKE_IP_VERSION in f ==> h[0] / 16 == d[0] / 16) && (TAKE_IP_HDRLEN in f ==> h[0] % 16 == d[0] % 16)
            && (TAKE_IP_TOTLEN in f ==> h[2] == d[2] && h[3] == d[3]) && (TAKE_IP_PROTOCOL in f ==> h[9] == d[9])
  {
    hide OptionBytes, RelativeSize, ProtocolAt;
  }

  lemma KeptByChecksum(at: seq<Layer>, j: nat)
    requires j < |at| && |at[j].data| >= 20
    ensures var d, h := IpFields(at, j), CompiledIp(at, j).data;
            SameBut(d, h, {10, 11}) && (TAKE_IP_CKSUM in at[j].flags ==> h == d)
  {
    hide OptionBytes, IpFields, Cksum;
  }

  /** An IPv4 header keeps everything but the fields compiled, and those set by hand. */
  lemma Ip4Keeps(ls: seq<Layer>, r: seq<Layer>, j: nat)
    requires WellSized(ls) && Compiled(ls) == Ok(r) && j < |ls| && ls[j].kind == Ip
    ensures |r| == |ls| && r[j].kind == Ip && r[j].flags == ls[j].flags
    ensures var d, h, f := ls[j].data, r[j].data, r[j].flags;
            && |h| >= 20 && SameBut(d, h, {0, 2, 3, 9, 10, 11})
            && (TAKE_IP_VERSION in f ==> h[0] / 16 == d[0] / 16) && (TAKE_IP_HDRLEN in f ==> h[0] % 16 == d[0] % 16)
            && (TAKE_IP_TOTLEN in f ==> h[2] == d[2] && h[3] == d[3]) && (TAKE_IP_PROTOCOL in f ==> h[9] == d[9])
            && (TAKE_IP_CKSUM in f ==> h[10] == d[10] && h[11] == d[11])
  {
    var at := TurnOf(ls, r, j);
    hide Bytes, OptionBytes, ProtocolAt, Cksum, Compiled, WellSized, IpFields;
    KeptByFields(at, j);
    KeptByChecksum(at, j);
  }

  /** An IPv6 header. */
  lemma Ip6Keeps(ls: seq<Layer>, r: seq<Layer>, j: nat)
    requires WellSized(ls) && Compiled(ls) == Ok(r) && j < |ls| && ls[j].kind == Ip6
    ensures |r| == |ls| && r[j].kind == Ip6 && r[j].flags == ls[j].flags
    ensures var d, h, f := ls[j].data, r[j].data, r[j].flags;
            && |h| >= 40 && SameBut(d, h, {0, 4, 5, 6}) && h[0] % 16 == d[0] % 16
            && (TAKE_IP6_VERSION in f ==> h[0] == d[0]) && (TAKE_IP6_PAYLOADLEN in f ==> h[4] == d[4] && h[5] == d[5])
            && (TAKE_IP6_NEXTHDR in f ==> h[6] == d[6])
  {
    var at := TurnOf(ls, r, j);
    hide Bytes, Compiled;
  }

  /** The layers with a checksum, and data. */
  lemma UpperKeeps(ls: seq<Layer>, r: seq<Layer>, j: nat)
    requires WellSized(ls) && Compiled(ls) == Ok(r) && j < |ls|
    ensures |r| == |ls| && r[j].kind == ls[j].kind && r[j].flags == ls[j].flags
    ensures var d, h, f := ls[j].data, r[j].data, r[j].flags;
            match ls[j].kind
            case Tcp =>
              && |h| >= 20 && SameBut(d, h, {12, 16, 17}) && h[12] % 16 == d[12] % 16
              && (TAKE_TCP_HDRLEN in f ==> h[12] == d[12]) && (TAKE_TCP_CKSUM in f ==> h[16] == d[16] && h[17] == d[17])
            case Udp =>
              && |h| >= 8 && SameBut(d, h, {4, 5, 6, 7})
              && (TAKE_UDP_LEN in f ==> h[4] == d[4] && h[5] == d[5])
              && (TAKE_UDP_CKSUM in f ==> h[6] == d[6] && h[7] == d[7])
            case Icmp => SameBut(d, h, {2, 3}) && (TAKE_ICMP_CKSUM in f ==> h == d)
            case Icmp6 => SameBut(d, h, {2, 3}) && (TAKE_ICMP6_CKSUM in f ==> h == d)
            case Igrp => SameBut(d, h, {10, 11}) && (TAKE_IGRP_CKSUM in f ==> h == d)
            case Data => h == d
            case IgrpEntry => h == d
            case _ => true
  {
    var at := TurnOf(ls, r, j);
    hide Bytes, Compiled, UpperCksum, OptionBytes, CompiledIp, CompiledIp6, CompiledOption;
  }

  lemma PaddingIsOnes(size: nat)
    ensures Padding(size) < 4 && Nops(Padding(size)) == [1, 1, 1][..Padding(size)]
    ensures Padding(size) == 0 ==> size % 4 == 0
  {
  }

  /** An option keeps its bytes; the last of a run is filled up with no-operations to whole
      words. */
  lemma OptionKeeps(ls: seq<Layer>, r: seq<Layer>, b: nat, j: nat)
    requires WellSized(ls) && Compiled(ls) == Ok(r) && b <= j < |ls| && (ls[j].kind == IpOpt || ls[j].kind == TcpOpt)
    requires (forall i | b <= i <= j :: ls[i].kind == ls[j].kind) && (b > 0 ==> ls[b - 1].kind != ls[j].kind)
    ensures |r| == |ls|
    ensures if j + 1 < |ls| && ls[j + 1].kind == ls[j].kind then r[j] == ls[j]
            else var n := |r[j].data| - |ls[j].data|;
                 && 0 <= n < 4 && r[j] == ls[j].(data := ls[j].data + [1, 1, 1][..n])
                 && |Bytes(r[b..j + 1])| % 4 == 0
  {
    var at := TurnOf(ls, r, j);
    CompiledSettles(ls, r);
    if !(j + 1 < |ls| && ls[j + 1].kind == ls[j].kind) {
      RunStartIs(at, b, j, ls[j].kind);
      RunStartIs(r, b, j, ls[j].kind);
      PaddingIsOnes(|Bytes(at[b..j + 1])|);
      assert Settled(r, j);
      hide Bytes, Compiled, RunStart, Nops, Padding;
      var size := |Bytes(r[b..j + 1])|;
      assert r[j].data == r[j].data + Nops(Padding(size));
      PaddingIsOnes(size);
    }
  }
}
