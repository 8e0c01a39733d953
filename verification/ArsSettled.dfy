// What holds after ars_compile: every layer is what its compiler makes of the final
// packet, so compiling once is enough; and when compiling fails.
module ArsSettled {
  import opened Checksum
  import opened Ars
  import opened ArsCompile

  /** Layer j needs no further compilation. */
  ghost predicate Settled(ls: seq<Layer>, j: nat)
    requires j < |ls| && WellSized(ls)
  {
    CompiledLayer(ls, j) == Ok(ls[j])
  }

  /** What later layers see of layer i. */
  ghost predicate SameForLater(a: seq<Layer>, b: seq<Layer>, i: nat)
    requires |a| == |b| && i + 1 < |a|
  {
    && (a[i].kind == Ip ==> |a[i].data| >= 20 && |b[i].data| >= 20 && a[i].data[12..20] == b[i].data[12..20])
    && (a[i].kind == Ip6 ==> |a[i].data| >= 40 && |b[i].data| >= 40 && a[i].data[8..40] == b[i].data[8..40])
    && (a[i].kind == IpOpt || a[i].kind == TcpOpt ==> a[i + 1].kind == a[i].kind ==> a[i] == b[i])
  }

  /** The compiler of layer k cannot tell a from b: same kinds, same layers from k on,
      and before k the same addresses and the same inner options. */
  ghost predicate Agree(a: seq<Layer>, b: seq<Layer>, k: nat) {
    && |a| == |b| && k < |a|
    && (forall i | 0 <= i < |a| :: a[i].kind == b[i].kind)
    && (forall i | k <= i < |a| :: a[i] == b[i])
    && (forall i | 0 <= i < k :: SameForLater(a, b, i))
  }

  lemma {:induction false} RunEndAgrees(a: seq<Layer>, b: seq<Layer>, j: nat, k: Kind)
    requires |a| == |b| && j <= |a| && forall i | 0 <= i < |a| :: a[i].kind == b[i].kind
    ensures RunEnd(a, j, k) == RunEnd(b, j, k)
    decreases |a| - j
  {
    if j < |a| && a[j].kind == k {
      RunEndAgrees(a, b, j + 1, k);
    }
  }

  lemma {:induction false} RunStartAgrees(a: seq<Layer>, b: seq<Layer>, j: nat, k: Kind)
    requires |a| == |b| && j <= |a| && forall i | 0 <= i < |a| :: a[i].kind == b[i].kind
    ensures RunStart(a, j, k) == RunStart(b, j, k)
  {
    if j > 0 && a[j - 1].kind == k {
      RunStartAgrees(a, b, j - 1, k);
    }
  }

  lemma {:induction false} SkipOptionsAgrees(a: seq<Layer>, b: seq<Layer>, k: int)
    requires |a| == |b| && -1 <= k < |a| && forall i | 0 <= i < |a| :: a[i].kind == b[i].kind
    ensures SkipOptions(a, k) == SkipOptions(b, k)
    decreases k
  {
    if k > 0 && a[k].kind == IpOpt {
      SkipOptionsAgrees(a, b, k - 1);
    }
  }

  lemma OptionBytesAgree(a: seq<Layer>, b: seq<Layer>, j: nat, k: Kind)
    requires j < |a| == |b| && (forall i | 0 <= i < |a| :: a[i].kind == b[i].kind)
    requires forall i | j < i < |a| :: a[i] == b[i]
    ensures OptionBytes(a, j, k) == OptionBytes(b, j, k) && RelativeSize(a, j + 1) == RelativeSize(b, j + 1)
  {
    RunEndAgrees(a, b, j + 1, k);
    assert a[j + 1..RunEnd(a, j + 1, k)] == b[j + 1..RunEnd(a, j + 1, k)];
    assert a[j + 1..] == b[j + 1..];
  }

  lemma PseudoAgrees(a: seq<Layer>, b: seq<Layer>, k: nat, kind: Kind, len: nat)
    requires Agree(a, b, k) && WellSized(a) && WellSized(b)
    ensures PseudoOf(a, k, kind, len) == PseudoOf(b, k, kind, len)
  {
    SkipOptionsAgrees(a[..k], b[..k], k - 1);
    var p := SkipOptions(a[..k], k - 1);
    if k > 0 {
      assert SameForLater(a, b, k - 1) && SameForLater(a, b, p);
    }
  }

  lemma SuffixAgrees(a: seq<Layer>, b: seq<Layer>, k: nat)
    requires Agree(a, b, k)
    ensures RelativeSize(a, k) == RelativeSize(b, k) && Bytes(a[k + 1..]) == Bytes(b[k + 1..])
  {
    assert a[k..] == b[k..] && a[k + 1..] == b[k + 1..];
  }

  lemma IpFieldsAgree(a: seq<Layer>, b: seq<Layer>, k: nat)
    requires Agree(a, b, k) && a[k].kind == Ip && |a[k].data| >= 20
    ensures OptionBytes(a, k, IpOpt) == OptionBytes(b, k, IpOpt) && IpFields(a, k) == IpFields(b, k)
  {
    OptionBytesAgree(a, b, k, IpOpt);
    RunEndAgrees(a, b, k + 1, IpOpt);
    SuffixAgrees(a, b, k);
    hide OptionBytes, RelativeSize, PutHigh4, PutLow4, Put16;
    assert ProtocolAt(a, k + 1) == ProtocolAt(b, k + 1);
  }

  lemma IpAgrees(a: seq<Layer>, b: seq<Layer>, k: nat)
    requires Agree(a, b, k) && a[k].kind == Ip && |a[k].data| >= 20
    ensures CompiledIp(a, k) == CompiledIp(b, k)
  {
    hide IpFields, OptionBytes, Cksum, Put16;
    IpFieldsAgree(a, b, k);
  }

  lemma OptionAgrees(a: seq<Layer>, b: seq<Layer>, k: nat)
    requires Agree(a, b, k) && (a[k].kind == IpOpt || a[k].kind == TcpOpt)
    ensures CompiledOption(a, k) == CompiledOption(b, k)
  {
    var kind := a[k].kind;
    RunStartAgrees(a, b, k, kind);
    var s := RunStart(a, k, kind);
    forall i | s <= i < k
      ensures a[i] == b[i]
    {
      assert SameForLater(a, b, i);
    }
    assert a[s..k + 1] == b[s..k + 1];
  }

  lemma UpperFieldsAgree(a: seq<Layer>, b: seq<Layer>, k: nat)
    requires Agree(a, b, k) && IsUpper(a[k].kind) && |a[k].data| >= HeaderSize(a[k].kind)
    ensures UpperFields(a, k) == UpperFields(b, k)
  {
    SuffixAgrees(a, b, k);
    OptionBytesAgree(a, b, k, TcpOpt);
  }

  /** The checksum depends on the pseudo header and the bytes from the layer on. */
  lemma UpperCksumFrom(a: seq<Layer>, b: seq<Layer>, k: nat, h: seq<Byte>, h': seq<Byte>)
    requires k < |a| == |b| && WellSized(a) && WellSized(b) && IsUpper(a[k].kind) && a[k].kind == b[k].kind
    requires |h| == |h'| >= HeaderSize(a[k].kind)
    requires Put16(h, CksumOffset(a[k].kind), 0) == Put16(h', CksumOffset(a[k].kind), 0)
    requires Bytes(a[k + 1..]) == Bytes(b[k + 1..])
    requires var len := |h| + |Bytes(a[k + 1..])|; PseudoOf(a, k, a[k].kind, len) == PseudoOf(b, k, a[k].kind, len)
    ensures UpperCksum(a, k, h) == UpperCksum(b, k, h')
  {
    hide PseudoOf, Cksum, Bytes, WellSized, HeaderSize, Put16, CksumOffset, IsUpper;
  }

  lemma UpperCksumAgrees(a: seq<Layer>, b: seq<Layer>, k: nat, h: seq<Byte>)
    requires Agree(a, b, k) && WellSized(a) && WellSized(b) && IsUpper(a[k].kind) && |h| >= HeaderSize(a[k].kind)
    ensures UpperCksum(a, k, h) == UpperCksum(b, k, h)
  {
    hide PseudoOf, Cksum, Bytes, WellSized, HeaderSize, Put16, CksumOffset, IsUpper, UpperCksum;
    SuffixAgrees(a, b, k);
    PseudoAgrees(a, b, k, a[k].kind, |h| + |Bytes(a[k + 1..])|);
    UpperCksumFrom(a, b, k, h, h);
  }

  lemma UpperAgrees(a: seq<Layer>, b: seq<Layer>, k: nat)
    requires Agree(a, b, k) && WellSized(a) && WellSized(b) && IsUpper(a[k].kind)
    ensures CompiledUpper(a, k) == CompiledUpper(b, k)
  {
    UpperFieldsAgree(a, b, k);
    UpperCksumAgrees(a, b, k, UpperFields(a, k));
  }

  /** Agreement is enough for the compiler of layer k. */
  lemma AgreeCompiles(a: seq<Layer>, b: seq<Layer>, k: nat)
    requires Agree(a, b, k) && WellSized(a) && WellSized(b)
    ensures CompiledLayer(a, k) == CompiledLayer(b, k)
  {
    var kind := a[k].kind;
    if kind == Ip {
      IpAgrees(a, b, k);
    } else if kind == Ip6 {
      OptionBytesAgree(a, b, k, IpOpt);
    } else if kind == IpOpt || kind == TcpOpt {
      OptionAgrees(a, b, k);
    } else if IsUpper(kind) {
      UpperAgrees(a, b, k);
    }
  }

  lemma CompiledIpKeepsAddresses(ls: seq<Layer>, j: nat)
    requires j < |ls| && |ls[j].data| >= 20
    ensures |CompiledIp(ls, j).data| == |ls[j].data|
    ensures CompiledIp(ls, j).data[12..20] == ls[j].data[12..20]
  {
    var h, g := IpFields(ls, j), CompiledIp(ls, j).data;
    assert g[12..20] == h[12..20];
  }

  /** Compiling a lower layer leaves the view of the higher ones unchanged. */
  lemma LowerStepAgrees(ls: seq<Layer>, m: nat, k: nat)
    requires m < k < |ls| && WellSized(ls) && CompiledLayer(ls, m).Ok?
    ensures Agree(ls, ls[m := CompiledLayer(ls, m).value], k)
  {
    if ls[m].kind == Ip {
      CompiledIpKeepsAddresses(ls, m);
    }
  }

  lemma AgreeTrans(a: seq<Layer>, b: seq<Layer>, c: seq<Layer>, k: nat)
    requires Agree(a, b, k) && Agree(b, c, k)
    ensures Agree(a, c, k)
  {
    forall i | 0 <= i < k
      ensures SameForLater(a, c, i)
    {
      assert SameForLater(a, b, i) && SameForLater(b, c, i);
    }
  }

  lemma {:induction false} BelowAgrees(ls: seq<Layer>, n: nat, k: nat)
    requires n <= k < |ls| && WellSized(ls) && CompiledBelow(ls, n).Ok?
    ensures WellSized(CompiledBelow(ls, n).value) && Agree(ls, CompiledBelow(ls, n).value, k)
    decreases n
  {
    hide CompiledLayer;
    if n == 0 {
    } else {
      LowerStepAgrees(ls, n - 1, k);
      var next := ls[n - 1 := CompiledLayer(ls, n - 1).value];
      BelowAgrees(next, n - 1, k);
      AgreeTrans(ls, next, CompiledBelow(next, n - 1).value, k);
    }
  }

  // --- compiling a layer twice ------------------------------------------------------------

  /** Replacing layer j by one of the same kind and size changes nothing it looks at. */
  lemma OwnContext(ls: seq<Layer>, j: nat, l: Layer)
    requires j < |ls| && l.kind == ls[j].kind && |l.data| == |ls[j].data|
    ensures var b := ls[j := l];
            && b[j + 1..] == ls[j + 1..] && RelativeSize(b, j) == RelativeSize(ls, j)
            && (forall k :: OptionBytes(b, j, k) == OptionBytes(ls, j, k))
            && ProtocolAt(b, j + 1) == ProtocolAt(ls, j + 1)
            && RelativeSize(b, j + 1) == RelativeSize(ls, j + 1)
  {
    var b := ls[j := l];
    assert b[j + 1..] == ls[j + 1..];
    BytesCons(ls, j);
    BytesCons(b, j);
    forall k
      ensures OptionBytes(b, j, k) == OptionBytes(ls, j, k)
    {
      OptionBytesAgree(ls, b, j, k);
    }
    RunEndAgrees(ls, b, j + 1, IpOpt);
  }

  lemma NibblesAgain(b: Byte, n: nat)
    ensures PutHigh4(PutHigh4(b, 4), 4) == PutHigh4(b, 4) && PutLow4(PutLow4(b, n), n) == PutLow4(b, n)
    ensures var x := PutLow4(PutHigh4(b, 4), n); PutLow4(PutHigh4(x, 4), n) == x
  {
  }

  /** Writing the same fields again changes nothing, whatever the checksum bytes. */
  lemma IpFieldsAgain(ls: seq<Layer>, j: nat, g: seq<Byte>)
    requires j < |ls| && ls[j].kind == Ip && |ls[j].data| >= 20 && |g| == |ls[j].data|
    requires forall k | 0 <= k < |g| && k != 10 && k != 11 :: g[k] == IpFields(ls, j)[k]
    ensures IpFields(ls[j := ls[j].(data := g)], j) == g
  {
    hide ProtocolAt, OptionBytes, RelativeSize, RunEnd, Bytes, PutHigh4, PutLow4;
    OwnContext(ls, j, ls[j].(data := g));
    NibblesAgain(ls[j].data[0], 5 + |OptionBytes(ls, j, IpOpt)| / 4);
    var b := ls[j := ls[j].(data := g)];
    var h, r := IpFields(ls, j), IpFields(b, j);
    assert g[0] == h[0] && g[2] == h[2] && g[3] == h[3] && g[9] == h[9];
    assert r[0] == g[0];
    forall k | 0 <= k < |g|
      ensures r[k] == g[k]
    {
    }
  }

  lemma IpSettles(ls: seq<Layer>, j: nat)
    requires j < |ls| && ls[j].kind == Ip && |ls[j].data| >= 20
    ensures CompiledIp(ls[j := CompiledIp(ls, j)], j) == CompiledIp(ls, j)
  {
    var h, l := IpFields(ls, j), CompiledIp(ls, j);
    OwnContext(ls, j, l);
    if TAKE_IP_CKSUM in ls[j].flags {
      IpFieldsAgain(ls, j, h);
    } else {
      var c := Cksum(BigEndian, Put16(h, 10, 0)[..20] + OptionBytes(ls, j, IpOpt));
      IpFieldsAgain(ls, j, Put16(h, 10, c));
      PutTwice(h, 10, c, 0);
      PutTwice(h, 10, c, c);
    }
  }

  lemma Ip6Settles(ls: seq<Layer>, j: nat)
    requires j < |ls| && ls[j].kind == Ip6 && |ls[j].data| >= 40
    ensures CompiledIp6(ls[j := CompiledIp6(ls, j)], j) == CompiledIp6(ls, j)
  {
    OwnContext(ls, j, CompiledIp6(ls, j));
  }

  lemma PaddingSettles(size: nat)
    ensures Padding(size + Padding(size)) == 0
  {
  }

  lemma OptionSettles(ls: seq<Layer>, j: nat)
    requires j < |ls| && (ls[j].kind == IpOpt || ls[j].kind == TcpOpt)
    ensures CompiledOption(ls[j := CompiledOption(ls, j)], j) == CompiledOption(ls, j)
  {
    hide RunStart, Bytes, Padding;
    var l, k := CompiledOption(ls, j), ls[j].kind;
    var b := ls[j := l];
    RunStartAgrees(ls, b, j, k);
    var s := RunStart(ls, j, k);
    if !(j + 1 < |ls| && ls[j + 1].kind == k) {
      assert ls[s..j + 1] == ls[s..j] + [ls[j]] && b[s..j + 1] == ls[s..j] + [l];
      BytesSnoc(ls[s..j], ls[j]);
      BytesSnoc(ls[s..j], l);
      PaddingSettles(|Bytes(ls[s..j + 1])|);
      assert l.data + Nops(0) == l.data;
    }
  }

  lemma UpperFieldsAgain(ls: seq<Layer>, j: nat, g: seq<Byte>)
    requires j < |ls| && IsUpper(ls[j].kind) && |ls[j].data| >= HeaderSize(ls[j].kind) && |g| == |ls[j].data|
    requires var o := CksumOffset(ls[j].kind);
             forall k | 0 <= k < |g| && k != o && k != o + 1 :: g[k] == UpperFields(ls, j)[k]
    ensures UpperFields(ls[j := ls[j].(data := g)], j) == g
  {
    OwnContext(ls, j, ls[j].(data := g));
    var r := UpperFields(ls[j := ls[j].(data := g)], j);
    forall k | 0 <= k < |g|
      ensures r[k] == g[k]
    {
    }
  }

  lemma SamePseudo(ls: seq<Layer>, b: seq<Layer>, j: nat, len: nat)
    requires j < |ls| == |b| && WellSized(ls) && WellSized(b) && b[..j] == ls[..j]
    ensures PseudoOf(b, j, ls[j].kind, len) == PseudoOf(ls, j, ls[j].kind, len)
  {
    forall i | 0 <= i < j
      ensures b[i] == ls[i]
    {
      assert b[..j][i] == ls[..j][i];
    }
  }

  lemma UpperCksumAgain(ls: seq<Layer>, j: nat, h: seq<Byte>, w: Word16)
    requires j < |ls| && IsUpper(ls[j].kind) && WellSized(ls) && |h| == |ls[j].data|
    ensures var h' := Put16(h, CksumOffset(ls[j].kind), w);
            WellSized(ls[j := ls[j].(data := h')]) &&
            UpperCksum(ls[j := ls[j].(data := h')], j, h') == UpperCksum(ls, j, h)
  {
    var h' := Put16(h, CksumOffset(ls[j].kind), w);
    var b := ls[j := ls[j].(data := h')];
    hide PseudoOf, Cksum, Bytes, Put16, CksumOffset, UpperCksum;
    PutTwice(h, CksumOffset(ls[j].kind), w, 0);
    assert b[j + 1..] == ls[j + 1..];
    SamePseudo(ls, b, j, |h| + |Bytes(ls[j + 1..])|);
    UpperCksumFrom(b, ls, j, h', h);
  }

  lemma UpperSettles(ls: seq<Layer>, j: nat)
    requires j < |ls| && IsUpper(ls[j].kind) && WellSized(ls) && CompiledUpper(ls, j).Ok?
    ensures var l := CompiledUpper(ls, j).value;
            WellSized(ls[j := l]) && CompiledUpper(ls[j := l], j) == Ok(l)
  {
    var h := UpperFields(ls, j);
    if KeepsCksum(ls[j]) {
      UpperFieldsAgain(ls, j, h);
    } else {
      var c := UpperCksum(ls, j, h).value;
      UpperFieldsAgain(ls, j, Put16(h, CksumOffset(ls[j].kind), c));
      UpperCksumAgain(ls, j, h, c);
      PutTwice(h, CksumOffset(ls[j].kind), c, c);
    }
  }

  /** A compiled layer is settled. */
  lemma LayerSettles(ls: seq<Layer>, j: nat)
    requires j < |ls| && WellSized(ls) && CompiledLayer(ls, j).Ok?
    ensures var l := CompiledLayer(ls, j).value;
            WellSized(ls[j := l]) && Settled(ls[j := l], j)
  {
    var kind := ls[j].kind;
    if kind == Ip {
      IpSettles(ls, j);
    } else if kind == Ip6 {
      Ip6Settles(ls, j);
    } else if kind == IpOpt || kind == TcpOpt {
      OptionSettles(ls, j);
    } else if IsUpper(kind) {
      UpperSettles(ls, j);
    }
  }

  lemma StaysSettled(ls: seq<Layer>, m: nat, k: nat)
    requires m < k < |ls| && WellSized(ls) && CompiledLayer(ls, m).Ok? && Settled(ls, k)
    ensures var next := ls[m := CompiledLayer(ls, m).value]; WellSized(next) && Settled(next, k)
  {
    LowerStepAgrees(ls, m, k);
    AgreeCompiles(ls, ls[m := CompiledLayer(ls, m).value], k);
  }

  lemma StepSettles(ls: seq<Layer>, m: nat, next: seq<Layer>)
    requires m < |ls| && WellSized(ls) && CompiledLayer(ls, m).Ok? && next == ls[m := CompiledLayer(ls, m).value]
    requires forall k | m < k < |ls| :: Settled(ls, k)
    ensures WellSized(next) && forall k | m <= k < |ls| :: Settled(next, k)
  {
    LayerSettles(ls, m);
    forall k | m <= k < |ls|
      ensures Settled(next, k)
    {
      if k > m {
        StaysSettled(ls, m, k);
      }
    }
  }

  /** After ars_compile every layer is settled. */
  lemma {:induction false} AllSettle(ls: seq<Layer>, n: nat)
    requires n <= |ls| && WellSized(ls) && CompiledBelow(ls, n).Ok?
    requires forall k | n <= k < |ls| :: Settled(ls, k)
    ensures var r := CompiledBelow(ls, n).value;
            WellSized(r) && |r| == |ls| && forall k | 0 <= k < |r| :: Settled(r, k)
    decreases n
  {
    hide CompiledLayer, WellSized, Settled;
    if n > 0 {
      var next := ls[n - 1 := CompiledLayer(ls, n - 1).value];
      StepSettles(ls, n - 1, next);
      AllSettle(next, n - 1);
    }
  }

  lemma {:induction false} SettledCompilesToItself(ls: seq<Layer>, n: nat)
    requires n <= |ls| && WellSized(ls) && forall k | 0 <= k < |ls| :: Settled(ls, k)
    ensures CompiledBelow(ls, n) == Ok(ls)
    decreases n
  {
    if n > 0 {
      assert Settled(ls, n - 1);
      assert ls[n - 1 := ls[n - 1]] == ls;
      SettledCompilesToItself(ls, n - 1);
    }
  }

  /** Compiling a compiled packet changes nothing, for every stack and all flags. */
  lemma {:induction false} CompileIsIdempotent(ls: seq<Layer>)
    requires WellSized(ls) && Compiled(ls).Ok?
    ensures WellSized(Compiled(ls).value) && Compiled(Compiled(ls).value) == Compiled(ls)
  {
    AllSettle(ls, |ls|);
    SettledCompilesToItself(Compiled(ls).value, |ls|);
  }

  // --- when compiling fails -----------------------------------------------------------------

  /** Layer j finds the IP header its checksum needs. */
  ghost predicate HasParent(ls: seq<Layer>, j: nat)
    requires j < |ls|
  {
    var k := ls[j].kind;
    var p := SkipOptions(ls[..j], j - 1);
    if k == Icmp6 then j > 0 && ls[j - 1].kind == Ip6
    else if k == Tcp || k == Udp then p >= 0 && (ls[p].kind == Ip || (ls[p].kind == Ip6 && p == j - 1))
    else true
  }

  lemma LayerCompilesIff(ls: seq<Layer>, j: nat)
    requires j < |ls| && WellSized(ls)
    ensures CompiledLayer(ls, j).Ok? <==> KeepsCksum(ls[j]) || HasParent(ls, j)
  {
    if IsUpper(ls[j].kind) {
      var p := SkipOptions(ls[..j], j - 1);
      assert p >= 0 ==> ls[..j][p] == ls[p];
    }
  }

  /** What layer j brings or finds does not depend on the bytes of layer m. */
  lemma NeedsAreKept(ls: seq<Layer>, m: nat, l: Layer, j: nat)
    requires j < m < |ls|
    ensures KeepsCksum(ls[m := l][j]) == KeepsCksum(ls[j]) && HasParent(ls[m := l], j) == HasParent(ls, j)
  {
    assert ls[m := l][..j] == ls[..j];
  }

  ghost predicate AllProvided(ls: seq<Layer>, n: nat)
    requires n <= |ls|
  {
    forall j | 0 <= j < n :: KeepsCksum(ls[j]) || HasParent(ls, j)
  }

  lemma ProvidedAfterStep(ls: seq<Layer>, n: nat, l: Layer)
    requires 0 < n <= |ls|
    ensures AllProvided(ls, n) <==>
            (KeepsCksum(ls[n - 1]) || HasParent(ls, n - 1)) && AllProvided(ls[n - 1 := l], n - 1)
  {
    forall j | 0 <= j < n - 1
      ensures KeepsCksum(ls[n - 1 := l][j]) == KeepsCksum(ls[j])
      ensures HasParent(ls[n - 1 := l], j) == HasParent(ls, j)
    {
      NeedsAreKept(ls, n - 1, l, j);
    }
  }

  lemma {:induction false} BelowCompilesIff(ls: seq<Layer>, n: nat)
    requires n <= |ls| && WellSized(ls)
    ensures CompiledBelow(ls, n).Ok? <==> AllProvided(ls, n)
    decreases n
  {
    hide CompiledLayer, HasParent;
    if n > 0 {
      LayerCompilesIff(ls, n - 1);
      if CompiledLayer(ls, n - 1).Ok? {
        var l := CompiledLayer(ls, n - 1).value;
        ProvidedAfterStep(ls, n, l);
        BelowCompilesIff(ls[n - 1 := l], n - 1);
      }
    }
  }

  /** ars_compile succeeds exactly when every TCP, UDP and ICMPv6 layer either brings
      its own checksum or finds its IP header. */
  lemma CompilesIff(ls: seq<Layer>)
    requires WellSized(ls)
    ensures Compiled(ls).Ok? <==> forall j | 0 <= j < |ls| :: KeepsCksum(ls[j]) || HasParent(ls, j)
  {
    BelowCompilesIff(ls, |ls|);
  }
}
