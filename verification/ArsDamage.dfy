// A compiled packet whose transport checksum was changed on the way is marked.
module ArsDamage {
  import opened Checksum
  import opened Ars
  import opened ArsCompile
  import opened ArsSettled
  import opened ArsSplit
  import opened ArsAccept
  import opened ArsBuild
  import opened ArsWire
  import opened ArsMarks

  /** q' is q with one or both of the bytes at o changed. */
  predicate Changed(q: seq<Byte>, q': seq<Byte>, o: nat)
    requires o + 1 < |q|
  {
    |q'| == |q| && q'[..o] == q[..o] && q'[o + 2..] == q[o + 2..] && q'[o..o + 2] != q[o..o + 2]
  }

  lemma ChangedSumFails(before: seq<Byte>, q: seq<Byte>, q': seq<Byte>, o: nat)
    requires o + 1 < |q| && Sums(before, q, o) && Changed(q, q', o)
    ensures !Sums(before, q', o)
  {
    hide Cksum;
    assert q[o..o + 2] == [q[o], q[o + 1]] && q'[o..o + 2] == [q'[o], q'[o + 1]];
  }

  lemma OthersStay(p: seq<Byte>, p': seq<Byte>, o: nat, i: nat)
    requires o + 1 < |p| && Changed(p, p', o) && i < |p| && i != o && i != o + 1
    ensures p'[i] == p[i]
  {
    if i < o {
      assert p'[..o][i] == p[..o][i];
    } else {
      assert p'[o + 2..][i - o - 2] == p[o + 2..][i - o - 2];
    }
  }

  lemma SliceOfSlice(p: seq<Byte>, a: nat, b: nat, o: nat)
    requires a + o + 1 < b <= |p|
    ensures p[a + o..a + o + 2] == p[a..b][o..o + 2]
  {
    assert p[a + o..a + o + 2] == [p[a + o], p[a + o + 1]];
    assert p[a..b][o..o + 2] == [p[a + o], p[a + o + 1]];
  }

  lemma ChangedSlice(p: seq<Byte>, p': seq<Byte>, a: nat, b: nat, o: nat)
    requires a + o + 1 < b <= |p| && Changed(p, p', a + o)
    ensures Changed(p[a..b], p'[a..b], o) && p'[..a] == p[..a]
    ensures forall i: nat | i < |p| && i != a + o && i != a + o + 1 :: p'[i] == p[i]
  {
    forall i: nat | i < |p| && i != a + o && i != a + o + 1
      ensures p'[i] == p[i]
    {
      OthersStay(p, p', a + o, i);
    }
    SliceOfSlice(p, a, b, o);
    SliceOfSlice(p', a, b, o);
    assert p'[a..b][..o] == p[a..b][..o] && p'[a..b][o + 2..] == p[a..b][o + 2..];
  }

  /** The layers hold all the bytes the first header announces. */
  lemma LayersHold(p: seq<Byte>, r: seq<Layer>)
    requires Dissect(Start(p), p) == Ok(r)
    ensures |Bytes(r)| >= Announced(p)
  {
    hide Handle, Dissect, Sane, Bytes, IsCutHeader, Datagram, Announced, OnTrack;
    var t, rest := FirstStep(p, r);
    BytesOne(t.layer);
    if |rest| > 0 {
      OptionsNeedBytes(After(Start(p), t));
      var missing := NothingIsLost(After(Start(p), t), rest);
    }
  }

  lemma HeaderIsCopied(p: seq<Byte>, t: Taken)
    requires Handle(Start(p), p) == Ok(t) && |p| >= 20 && p[0] / 16 != 6
    ensures t.layer.data == p[..20]
  {
    hide CksumMatches, FreshHeader, IpNext;
  }

  lemma FirstHeader(p: seq<Byte>, r: seq<Layer>)
    requires Dissect(Start(p), p) == Ok(r) && |p| >= 20 && p[0] / 16 != 6
    ensures |r| > 0 && r[0].data == p[..20]
  {
    hide Dissect, Sane, Bytes, Announced, OnTrack, Handle;
    var t, rest := FirstStep(p, r);
    HeaderIsCopied(p, t);
    if |rest| > 0 {
      OptionsNeedBytes(After(Start(p), t));
      var missing := NothingIsLost(After(Start(p), t), rest);
      assert r[0] == [t.layer][0];
    }
  }

  lemma SecondLayer(r: seq<Layer>, q: seq<Byte>)
    requires |r| > 1 && RightFrom(r, 1, q) && r[0].kind == Ip && |r[0].data| == 20 && TRUNCATED !in r[0].flags
    ensures r[1].kind == if r[0].data[0] % 16 > 5 then IpOpt else After4(r[0].data[9])
  {
    assert LayerRight(r, 1, q, 1);
    assert r[..1][0] == r[0];
  }

  lemma RightAt(r: seq<Layer>, u: nat, q: seq<Byte>, off: nat)
    requires 0 < u < |r| && RightFrom(r, 1, q) && |Bytes(r[1..u])| == off
    ensures off <= |q| && MarkedRight(r[..u], r[u], q[off..])
  {
    assert LayerRight(r, 1, q, u);
  }

  lemma OptionStep(r: seq<Layer>, i: nat, q: seq<Byte>)
    requires 0 < i < |r| && Over4(r, 0, i) && |r[0].data| == 20 && r[i].kind == IpOpt && RightFrom(r, 1, q)
    ensures |Bytes(r[1..i + 1])| == |Bytes(r[1..i])| + |r[i].data| <= OptionSpace(r[0].data[0] % 16)
    ensures |r[i].data| > 0
    ensures i + 1 < |r| ==>
              r[i + 1].kind == if |Bytes(r[1..i + 1])| < OptionSpace(r[0].data[0] % 16) then IpOpt
                               else After4(r[0].data[9])
  {
    assert LayerRight(r, 1, q, i);
    assert Over4(r[..i], 0, i) && r[..i][1..] == r[1..i];
    BytesGrow(r, 1, i);
    if i + 1 < |r| {
      assert LayerRight(r, 1, q, i + 1);
      assert Over4(r[..i + 1], 0, i + 1) && r[..i + 1][1..] == r[1..i + 1] && r[..i + 1][i] == r[i];
    }
    hide Bytes;
  }

  /** Going over the options of an IPv4 header leads to what its protocol number says. */
  lemma {:induction false} FindTransport(r: seq<Layer>, i: nat, q: seq<Byte>) returns (u: nat)
    requires 0 < i < |r| && Over4(r, 0, i) && |r[0].data| == 20 && RightFrom(r, 1, q)
    requires |Bytes(r[1..i])| <= OptionSpace(r[0].data[0] % 16) < |Bytes(r[1..])|
    requires r[i].kind == if |Bytes(r[1..i])| < OptionSpace(r[0].data[0] % 16) then IpOpt else After4(r[0].data[9])
    ensures 0 < u < |r| && Over4(r, 0, u) && |Bytes(r[1..u])| == OptionSpace(r[0].data[0] % 16)
    ensures r[u].kind == After4(r[0].data[9])
    decreases |r| - i
  {
    hide Bytes, RightFrom, After4;
    if |Bytes(r[1..i])| == OptionSpace(r[0].data[0] % 16) {
      u := i;
    } else {
      assert i + 1 == |r| ==> r[1..i + 1] == r[1..];
      OptionStep(r, i, q);
      u := FindTransport(r, i + 1, q);
    }
  }

  /** Behind a whole IPv4 header its transport layer stands where its options end. */
  lemma Transport4(p: seq<Byte>, r: seq<Layer>) returns (u: nat)
    requires Dissect(Start(p), p) == Ok(r) && |p| >= 20 && p[0] / 16 != 6
    requires |r| > 0 && TRUNCATED !in r[0].flags
    requires 20 <= 4 * (p[0] % 16) < Announced(p)
    ensures 0 < u < |r| && Over4(r, 0, u) && r[u].kind == After4(p[9])
    ensures r[0].data == p[..20]
    ensures MarkedRight(r[..u], r[u], p[4 * (p[0] % 16)..Announced(p)])
  {
    hide Dissect, Sane, Handle, Bytes, Announced, MarkedRight, After4, RightFrom, Start;
    DissectionIsRight(p, r);
    LayersHold(p, r);
    FirstHeader(p, r);
    var q, space := p[20..Announced(p)], OptionSpace(p[0] % 16);
    BytesCons(r, 0);
    assert r[0..] == r;
    SecondLayer(r, q);
    assert r[1..1] == [];
    EmptyBytes();
    u := FindTransport(r, 1, q);
    RightAt(r, u, q, space);
    assert q[space..] == p[20 + space..Announced(p)];
  }

  // --- a changed checksum ---------------------------------------------------------------------------

  lemma CutIsWhole(p: seq<Byte>, l: Layer)
    requires |p| >= 20 && p[0] / 16 != 6 && l.kind == Ip && MarkedRight([], l, p) && 20 <= 4 * (p[0] % 16) <= |p|
    ensures TRUNCATED !in l.flags
  {
    hide Sums;
  }

  /** What the dissector says of a transport header whose checksum does not match. */
  lemma WrongSumIsMarked4(before: seq<Layer>, l: Layer, q: seq<Byte>)
    requires MarkedRight(before, l, q) && Over4(before, 0, |before|) && |before[0].data| >= 20
    requires l.kind == Tcp || l.kind == Udp || l.kind == Icmp
    requires |q| >= HeaderSize(l.kind) && (l.kind == Tcp ==> 20 <= 4 * (q[12] / 16) <= |q|)
    requires if l.kind == Tcp then !Sums(PseudoBytes4(before[0].data, 6, |q|), q, 16)
             else if l.kind == Udp then !Sums(PseudoBytes4(before[0].data, 17, |q|), q, 6)
             else !Sums([], q, 2)
    ensures BAD_CKSUM in l.flags
  {
    hide Sums, PseudoBytes4, PseudoBytes6;
  }

  lemma WrongSumIsMarked6(before: seq<Layer>, l: Layer, q: seq<Byte>)
    requires MarkedRight(before, l, q) && Over6(before, 0, |before|) && |before[0].data| >= 40
    requires l.kind == Tcp || l.kind == Udp || l.kind == Icmp || l.kind == Icmp6
    requires |q| >= HeaderSize(l.kind) && (l.kind == Tcp ==> 20 <= 4 * (q[12] / 16) <= |q|)
    requires if l.kind == Tcp then !Sums(PseudoBytes6(before[0].data, 6, |q|), q, 16)
             else if l.kind == Udp then !Sums(PseudoBytes6(before[0].data, 17, |q|), q, 6)
             else if l.kind == Icmp6 then !Sums(PseudoBytes6(before[0].data, 58, |q|), q, 2)
             else !Sums([], q, 2)
    ensures BAD_CKSUM in l.flags
  {
    hide Sums, PseudoBytes4, PseudoBytes6;
  }

  /** A compiled stack and its parts. */
  ghost predicate IsCompiledStack(ls: seq<Layer>, n: nat, m: nat, c: seq<Layer>) {
    IsStack(ls, n, m) && NothingTaken(ls) && WellSized(ls) && Compiled(ls) == Ok(c)
  }

  /** Where the checksum of a transport header stands. */
  function FieldAt(k: Kind): nat {
    if k == Tcp then 16 else if k == Udp then 6 else 2
  }

  lemma StackFacts(ls: seq<Layer>, n: nat, m: nat, c: seq<Layer>)
    requires IsCompiledStack(ls, n, m, c)
    ensures IsStack(c, n, m) && NothingTaken(c) && AllSettled(c) && n + 2 + m <= |c|
    ensures (c[0].kind == Ip || (c[0].kind == Ip6 && n == 0)) && |c[0].data| == HeaderSize(c[0].kind)
    ensures IsTransport(c[n + 1], c[0].kind) && |Bytes(c[n + 2..n + 2 + m])| <= 40 && |Bytes(c[1..n + 1])| <= 40
    ensures Followed(c, 0, n + 1, IpOpt) && (c[n + 1].kind == Tcp ==> Followed(c, n + 1, n + 2 + m, TcpOpt))
    ensures c[0].kind == Ip ==> Over4(c, 0, n + 1)
    ensures c[0].kind == Ip6 ==> Over6(c, 0, n + 1)
  {
    hide CompiledLayer, CompiledBelow, Bytes;
    AllSettle(ls, |ls|);
    CompiledStaysStack(ls, n, m, |ls|);
    forall i | 0 < i < |c|
      ensures 0 < i <= n ==> c[i].kind == IpOpt
      ensures n + 1 < i < n + 2 + m ==> c[i].kind == TcpOpt
      ensures n + 2 + m <= i ==> c[i].kind == Data
    {
      ArsBuild.KindAt(c, n, m, i);
    }
  }

  lemma StackShape(c: seq<Layer>, n: nat, m: nat)
    requires IsStack(c, n, m)
    ensures n + 2 + m <= |c|
  {
  }

  lemma StackBytes(c: seq<Layer>, n: nat, m: nat)
    requires IsStack(c, n, m) && AllSettled(c)
    ensures n + 2 + m <= |c|
    ensures Bytes(c) == c[0].data + Bytes(c[1..n + 1]) + Bytes(c[n + 1..])
    ensures |Bytes(c[1..n + 1])| % 4 == 0 && |Bytes(c[n + 2..n + 2 + m])| % 4 == 0
    ensures |Bytes(c[n + 1..])| >= |c[n + 1].data| + |Bytes(c[n + 2..n + 2 + m])|
    ensures |c[n + 1].data| > 0 ==> |Bytes(c[n + 1..])| > 0
  {
    hide Bytes, AllSettled, IsStack, OptionBytes;
    StackShape(c, n, m);
    StackOptions(c, n, m);
    PartsFrom(c, 0, n + 1);
    assert c[0..] == c;
    PartsFrom(c, n + 1, n + 2 + m);
  }

  lemma NoFlags(c: seq<Layer>, i: nat)
    requires NothingTaken(c) && i < |c|
    ensures c[i].flags == {}
  {
  }

  lemma WholeHeader(d: seq<Byte>, q: seq<Byte>, size: nat)
    requires |d| >= 20 && d <= q && |q| >= |d| + size && size <= 40 && size % 4 == 0
    requires d[12] / 16 == (5 + size / 4) % 16
    ensures |q| >= 20 && 20 <= 4 * (q[12] / 16) <= |q|
  {
    assert q[12] == d[12];
  }

  /** The transport header is as long as it says. */
  lemma TcpIsWhole(ls: seq<Layer>, n: nat, m: nat, c: seq<Layer>)
    requires IsCompiledStack(ls, n, m, c) && n + 1 < |c| && c[n + 1].kind == Tcp
    ensures |Bytes(c[n + 1..])| >= 20 && 20 <= 4 * (Bytes(c[n + 1..])[12] / 16) <= |Bytes(c[n + 1..])|
  {
    hide Bytes, IsStack, NothingTaken, AllSettled, Compiled, Followed, Over4, Over6, WellSized, IsTransport;
    StackFacts(ls, n, m, c);
    StackBytes(c, n, m);
    TcpLength(ls, c, n + 1, n + 2 + m);
    BytesCons(c, n + 1);
    NoFlags(c, n + 1);
    WholeHeader(c[n + 1].data, Bytes(c[n + 1..]), |Bytes(c[n + 2..n + 2 + m])|);
  }

  /** The pseudo header for transport k over the IP header given. */
  predicate PseudoIs(pseudo: seq<Byte>, over: Kind, ip: seq<Byte>, k: Kind, len: nat) {
    if over == Ip then
      && |ip| >= 20 && k != Icmp6
      && pseudo == if k == Tcp then PseudoBytes4(ip, 6, len) else if k == Udp then PseudoBytes4(ip, 17, len) else []
    else
      && |ip| >= 40
      && pseudo == if k == Tcp then PseudoBytes6(ip, 6, len) else if k == Udp then PseudoBytes6(ip, 17, len)
                   else if k == Icmp6 then PseudoBytes6(ip, 58, len) else []
  }

  /** The checksum of the transport header as it was. */
  lemma RightSum(ls: seq<Layer>, n: nat, m: nat, c: seq<Layer>) returns (pseudo: seq<Byte>)
    requires IsCompiledStack(ls, n, m, c) && n + 1 < |c|
    ensures var q, ip, k := Bytes(c[n + 1..]), c[0].data, c[n + 1].kind;
            && |q| >= HeaderSize(k) > FieldAt(k) + 1 && Sums(pseudo, q, FieldAt(k))
            && (k == Tcp || k == Udp || k == Icmp || k == Icmp6)
            && (c[0].kind == Ip || c[0].kind == Ip6) && PseudoIs(pseudo, c[0].kind, ip, k, |q|)
  {
    hide Bytes, IsStack, NothingTaken, AllSettled, Compiled, PseudoBytes4, PseudoBytes6, Sums, Followed;
    StackFacts(ls, n, m, c);
    var k := c[n + 1].kind;
    NoFlags(c, n + 1);
    if k == Tcp {
      TcpChecksum(ls, c, n + 1, 0);
    } else if k == Udp {
      UdpChecksum(ls, c, n + 1, 0);
    } else if k == Icmp6 {
      Icmp6Checksum(ls, c, n + 1, 0);
    } else {
      PlainChecksum(ls, c, n + 1);
    }
    var ip, q := c[0].data, Bytes(c[n + 1..]);
    if k == Icmp {
      pseudo := [];
    } else if c[0].kind == Ip {
      pseudo := PseudoBytes4(ip, if k == Tcp then 6 else 17, |q|);
    } else {
      pseudo := PseudoBytes6(ip, if k == Tcp then 6 else if k == Udp then 17 else 58, |q|);
    }
  }

  /** The parts of the damaged packet. */
  lemma DamagedParts(h: seq<Byte>, o: seq<Byte>, q: seq<Byte>, pad: seq<Byte>, p': seq<Byte>, f: nat)
    requires f + 1 < |q| && Changed(h + o + q + pad, p', |h| + |o| + f)
    ensures |p'| == |h| + |o| + |q| + |pad| && p'[..|h|] == h
    ensures Changed(q, p'[|h| + |o|..|h| + |o| + |q|], f)
  {
    var p, a := h + o + q + pad, |h| + |o|;
    assert p[a..a + |q|] == q && p[..a] == h + o;
    ChangedSlice(p, p', a, a + |q|, f);
    assert p'[..|h|] == p'[..a][..|h|];
  }

  lemma Carried4(k: Kind)
    requires k == Tcp || k == Udp || k == Icmp
    ensures After4(ProtoNumber(k)) == k
  {
  }

  /** What an IPv4 header says of the packet, damaged or not. */
  lemma Head4(ls: seq<Layer>, n: nat, m: nat, c: seq<Layer>, p: seq<Byte>)
    requires IsCompiledStack(ls, n, m, c) && |c| > n + 1 && c[0].kind == Ip && |c[0].data| == 20
    requires |p| >= |Bytes(c)| >= 20 && p[..20] == c[0].data
    ensures p[0] / 16 == 4 && 4 * (p[0] % 16) == 20 + |Bytes(c[1..n + 1])|
    ensures Announced(p) == |Bytes(c)| && After4(p[9]) == c[n + 1].kind
  {
    hide Bytes, IsStack, NothingTaken, AllSettled, Compiled, Cksum, WellSized, After4, ProtoNumber, Over4, Followed;
    StackFacts(ls, n, m, c);
    NoFlags(c, 0);
    SettledIp(c, n, m);
    Carried4(c[n + 1].kind);
    var h := c[0].data;
    assert p[..20][0] == p[0] && p[..20][2] == p[2] && p[..20][3] == p[3] && p[..20][9] == p[9];
  }

  /** A compiled packet over IPv4 whose transport checksum was changed: whatever padding
      follows, the dissector marks a layer of that transport. */
  lemma DamageIsMarked4(ls: seq<Layer>, n: nat, m: nat, c: seq<Layer>, pad: seq<Byte>, p': seq<Byte>, r: seq<Layer>)
    returns (u: nat)
    requires IsCompiledStack(ls, n, m, c) && |c| > n + 1 && c[0].kind == Ip
    requires var at := 20 + |Bytes(c[1..n + 1])| + FieldAt(c[n + 1].kind);
             at + 1 < |Bytes(c)| && Changed(Bytes(c) + pad, p', at)
    requires Dissect(Start(p'), p') == Ok(r)
    ensures u < |r| && r[u].kind == c[n + 1].kind && BAD_CKSUM in r[u].flags
  {
    hide Bytes, IsStack, NothingTaken, AllSettled, Compiled, Followed, Over6, WellSized, IsTransport, Dissect, Start,
      Announced, Sums, MarkedRight, PseudoBytes4, PseudoBytes6, After4, RightFrom, Changed;
    StackFacts(ls, n, m, c);
    StackBytes(c, n, m);
    var h, o, q, k := c[0].data, Bytes(c[1..n + 1]), Bytes(c[n + 1..]), c[n + 1].kind;
    var pseudo := RightSum(ls, n, m, c);
    DamagedParts(h, o, q, pad, p', FieldAt(k));
    Head4(ls, n, m, c, p');
    DissectionIsRight(p', r);
    CutIsWhole(p', r[0]);
    u := Transport4(p', r);
    var q' := p'[20 + |o|..20 + |o| + |q|];
    ChangedSumFails(pseudo, q, q', FieldAt(k));
    if k == Tcp {
      TcpIsWhole(ls, n, m, c);
      OthersStay(q, q', 16, 12);
    }
    WrongSumIsMarked4(r[..u], r[u], q');
  }

  lemma Carried6(k: Kind)
    requires k == Tcp || k == Udp || k == Icmp || k == Icmp6
    ensures After6(ProtoNumber(k)) == k
  {
  }

  lemma Head6(ls: seq<Layer>, n: nat, m: nat, c: seq<Layer>, p: seq<Byte>)
    requires IsCompiledStack(ls, n, m, c) && |c| > n + 1 && c[0].kind == Ip6 && |c[0].data| == 40 && n == 0
    requires |p| >= |Bytes(c)| == 40 + |Bytes(c[1..])| && p[..40] == c[0].data
    ensures p[0] / 16 == 6 && Announced(p) == |Bytes(c)| && After6(p[6]) == c[1].kind
  {
    hide Bytes, IsStack, NothingTaken, AllSettled, Compiled, Cksum, WellSized, After6, ProtoNumber, Over6, Followed;
    StackFacts(ls, n, m, c);
    NoFlags(c, 0);
    SettledIp6(c, n, m);
    Carried6(c[1].kind);
    var h := c[0].data;
    assert p[..40][0] == p[0] && p[..40][4] == p[4] && p[..40][5] == p[5] && p[..40][6] == p[6];
  }

  lemma HeaderIsCopied6(p: seq<Byte>, t: Taken)
    requires Handle(Start(p), p) == Ok(t) && |p| >= 40 && p[0] / 16 == 6
    ensures t.layer.data == p[..40]
  {
    hide FreshHeader, Ip6Next;
  }

  /** Behind an IPv6 header. */
  lemma Transport6(p: seq<Byte>, r: seq<Layer>)
    requires Dissect(Start(p), p) == Ok(r) && |p| >= 40 && p[0] / 16 == 6 && Announced(p) > 40
    ensures |r| > 1 && Over6(r, 0, 1) && r[1].kind == After6(p[6])
    ensures r[0].data == p[..40] && MarkedRight(r[..1], r[1], p[40..Announced(p)])
  {
    hide Dissect, Sane, Handle, Bytes, Announced, MarkedRight, After6, Start, OnTrack, IsCutHeader, Datagram;
    var t, rest := FirstStep(p, r);
    HeaderIsCopied6(p, t);
    OptionsNeedBytes(After(Start(p), t));
    var missing := NothingIsLost(After(Start(p), t), rest);
    assert r[0] == [t.layer][0];
    DissectionIsRight(p, r);
    var q := p[40..Announced(p)];
    assert LayerRight(r, 1, q, 1);
    assert r[1..1] == [] && q[0..] == q && r[..1][0] == r[0];
    EmptyBytes();
  }

  /** The same over IPv6. */
  lemma DamageIsMarked6(ls: seq<Layer>, n: nat, m: nat, c: seq<Layer>, pad: seq<Byte>, p': seq<Byte>, r: seq<Layer>)
    requires IsCompiledStack(ls, n, m, c) && |c| > n + 1 && c[0].kind == Ip6
    requires var at := 40 + FieldAt(c[1].kind); at + 1 < |Bytes(c)| && Changed(Bytes(c) + pad, p', at)
    requires Dissect(Start(p'), p') == Ok(r)
    ensures |r| > 1 && r[1].kind == c[1].kind && BAD_CKSUM in r[1].flags
  {
    hide Bytes, IsStack, NothingTaken, AllSettled, Compiled, Followed, Over4, WellSized, IsTransport, Dissect, Start,
      Announced, Sums, MarkedRight, PseudoBytes4, PseudoBytes6, After6, RightFrom, Changed;
    StackFacts(ls, n, m, c);
    StackBytes(c, n, m);
    var h, q, k := c[0].data, Bytes(c[1..]), c[1].kind;
    assert c[1..1] == [];
    EmptyBytes();
    var pseudo := RightSum(ls, n, m, c);
    assert h + [] + q == Bytes(c);
    DamagedParts(h, [], q, pad, p', FieldAt(k));
    Head6(ls, n, m, c, p');
    Transport6(p', r);
    var q' := p'[40..40 + |q|];
    ChangedSumFails(pseudo, q, q', FieldAt(k));
    if k == Tcp {
      TcpIsWhole(ls, n, m, c);
      OthersStay(q, q', 16, 12);
    }
    WrongSumIsMarked6(r[..1], r[1], q');
  }
}
