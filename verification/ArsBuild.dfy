// End to end: compile, build and dissect.
module ArsBuild {
  import opened Checksum
  import opened Ars
  import opened ArsCompile
  import opened ArsSettled
  import opened ArsAccept

  lemma BytesUpdate(ls: seq<Layer>, k: nat, l: Layer)
    requires k < |ls|
    ensures |Bytes(ls[k := l])| == |Bytes(ls)| + |l.data| - |ls[k].data|
  {
    hide Bytes;
    var b := ls[k := l];
    assert ls == ls[..k] + ls[k..] && b == ls[..k] + b[k..];
    BytesConcat(ls[..k], ls[k..]);
    BytesConcat(ls[..k], b[k..]);
    BytesCons(ls, k);
    BytesCons(b, k);
    assert b[k + 1..] == ls[k + 1..];
  }

  /** The size of a slice of the layers when layer k grows. */
  lemma SliceUpdate(ls: seq<Layer>, k: nat, l: Layer, a: nat, b: nat)
    requires k < |ls| && a <= b <= |ls|
    ensures |Bytes(ls[k := l][a..b])| == |Bytes(ls[a..b])| + if a <= k < b then |l.data| - |ls[k].data| else 0
  {
    hide Bytes;
    if a <= k < b {
      assert ls[k := l][a..b] == ls[a..b][k - a := l];
      BytesUpdate(ls[a..b], k - a, l);
    } else {
      assert ls[k := l][a..b] == ls[a..b];
    }
  }

  lemma KindsStay(ls: seq<Layer>, k: nat, l: Layer, a: nat, b: nat, kind: Kind)
    requires k < |ls| && a <= b <= |ls| && l.kind == ls[k].kind && Options(ls[a..b], kind)
    ensures Options(ls[k := l][a..b], kind)
  {
    var old', new' := ls[a..b], ls[k := l][a..b];
    assert forall i | 0 <= i < |new'| :: new'[i].kind == old'[i].kind;
  }

  /** By how much the compiler may lengthen layer k of a stack. */
  ghost predicate Grows(ls: seq<Layer>, n: nat, m: nat, k: nat, l: Layer)
    requires n + 2 + m <= |ls| && k < |ls|
  {
    && l.kind == ls[k].kind
    && |l.data| == |ls[k].data| +
         (if k == n && n > 0 then Padding(|Bytes(ls[1..n + 1])|)
          else if k == n + 1 + m && m > 0 then Padding(|Bytes(ls[n + 2..n + 2 + m])|)
          else 0)
    && (k == n + 1 && |ls[k].data| > 0 ==> l.data[0] == ls[k].data[0])
  }

  lemma PaddedOnce(size: nat)
    ensures Padding(size + Padding(size)) == 0
    ensures size <= 40 ==> size + Padding(size) <= 40
  {
  }

  lemma GrownHasShape(ls: seq<Layer>, n: nat, m: nat, k: nat, l: Layer)
    requires HasShape(ls, n, m) && k < |ls| && Grows(ls, n, m, k, l)
    ensures HasShape(ls[k := l], n, m)
  {
    var u := n + 1;
    var b := ls[k := l];
    hide Bytes, Padding;
    KindsStay(ls, k, l, 1, u, IpOpt);
    KindsStay(ls, k, l, u + 1, u + 1 + m, TcpOpt);
    KindsStay(ls, k, l, u + 1 + m, |ls|, Data);
  }

  lemma GrownFits(ls: seq<Layer>, n: nat, m: nat, k: nat, l: Layer)
    requires n + 2 + m <= |ls| && Fits(ls, n, m) && k < |ls| && Grows(ls, n, m, k, l)
    ensures Fits(ls[k := l], n, m)
  {
    hide Bytes, Padding;
    var u := n + 1;
    var b := ls[k := l];
    PaddedOnce(|Bytes(ls[1..u])|);
    PaddedOnce(|Bytes(ls[u + 1..u + 1 + m])|);
    SliceUpdate(ls, k, l, 1, u);
    SliceUpdate(ls, k, l, u + 1, u + 1 + m);
    SliceUpdate(ls, k, l, 1, |ls|);
    BytesUpdate(ls, k, l);
    assert ls[1..|ls|] == ls[1..] && b[1..|ls|] == b[1..];
  }

  /** An option of the run between h and e grows if it is the last. */
  lemma OptionGrows(ls: seq<Layer>, h: nat, e: nat, k: nat)
    requires h < k < e <= |ls| && Options(ls[h + 1..e], ls[k].kind) && ls[h].kind != ls[k].kind
    requires e < |ls| ==> ls[e].kind != ls[k].kind
    ensures |CompiledOption(ls, k).data| ==
            |ls[k].data| + if k == e - 1 then Padding(|Bytes(ls[h + 1..e])|) else 0
  {
    forall i | h < i < e
      ensures ls[i].kind == ls[k].kind
    {
      assert ls[h + 1..e][i - h - 1] == ls[i];
    }
    if k == e - 1 {
      RunStartIs(ls, h + 1, k, ls[k].kind);
    }
  }

  lemma UpperKeepsSize(ls: seq<Layer>, u: nat)
    requires u < |ls| && IsUpper(ls[u].kind) && WellSized(ls) && CompiledUpper(ls, u).Ok?
    ensures var d := CompiledUpper(ls, u).value.data; |d| == |ls[u].data| && d[0] == ls[u].data[0]
  {
    hide UpperCksum, Bytes;
  }

  lemma KindAt(ls: seq<Layer>, n: nat, m: nat, k: nat)
    requires HasShape(ls, n, m) && k < |ls|
    ensures 0 < k <= n ==> ls[k].kind == IpOpt
    ensures n + 1 < k < n + 2 + m ==> ls[k].kind == TcpOpt
    ensures n + 2 + m <= k ==> ls[k].kind == Data
  {
    if 0 < k <= n {
      assert ls[1..n + 1][k - 1] == ls[k];
    } else if n + 1 < k < n + 2 + m {
      assert ls[n + 2..n + 2 + m][k - n - 2] == ls[k];
    } else if n + 2 + m <= k {
      assert ls[n + 2 + m..][k - n - 2 - m] == ls[k];
    }
  }

  lemma CompiledIpSize(ls: seq<Layer>)
    requires |ls| > 0 && |ls[0].data| >= HeaderSize(ls[0].kind)
    ensures ls[0].kind == Ip ==> |CompiledIp(ls, 0).data| == |ls[0].data| && CompiledIp(ls, 0).kind == Ip
  {
    hide Cksum, OptionBytes;
  }

  /** Compiling a layer of a stack lengthens it as said. */
  lemma CompiledGrows(ls: seq<Layer>, n: nat, m: nat, k: nat)
    requires HasShape(ls, n, m) && k < |ls| && WellSized(ls) && CompiledLayer(ls, k).Ok?
    ensures Grows(ls, n, m, k, CompiledLayer(ls, k).value)
  {
    hide Bytes, Padding, CompiledIp, CompiledIp6, CompiledUpper, CompiledOption, WellSized;
    KindAt(ls, n, m, k);
    if k == 0 {
      CompiledIpSize(ls);
    } else if k <= n {
      OptionGrows(ls, 0, n + 1, k);
    } else if k == n + 1 {
      UpperKeepsSize(ls, k);
    } else if k < n + 2 + m {
      if n + 2 + m < |ls| {
        KindAt(ls, n, m, n + 2 + m);
      }
      OptionGrows(ls, n + 1, n + 2 + m, k);
    }
  }

  lemma StackSize(ls: seq<Layer>, n: nat, m: nat)
    requires HasShape(ls, n, m)
    ensures n + 2 + m <= |ls|
  {
  }

  lemma {:induction false} CompiledStaysStack(ls: seq<Layer>, n: nat, m: nat, k: nat)
    requires IsStack(ls, n, m) && NothingTaken(ls) && k <= |ls| && WellSized(ls) && CompiledBelow(ls, k).Ok?
    ensures var r := CompiledBelow(ls, k).value; IsStack(r, n, m) && NothingTaken(r)
    decreases k
  {
    hide CompiledLayer, HasShape, Fits;
    if k > 0 {
      var l := CompiledLayer(ls, k - 1).value;
      StackSize(ls, n, m);
      CompiledGrows(ls, n, m, k - 1);
      GrownHasShape(ls, n, m, k - 1, l);
      GrownFits(ls, n, m, k - 1, l);
      CompiledStaysStack(ls[k - 1 := l], n, m, k - 1);
    }
  }

  lemma StackIsWellSized(ls: seq<Layer>, n: nat, m: nat)
    requires HasShape(ls, n, m)
    ensures WellSized(ls)
  {
    forall i | 0 <= i < |ls|
      ensures |ls[i].data| >= HeaderSize(ls[i].kind)
    {
      KindAt(ls, n, m, i);
    }
  }

  /** The transport layer of a stack finds its IP header. */
  lemma StackCompiles(ls: seq<Layer>, n: nat, m: nat)
    requires HasShape(ls, n, m) && WellSized(ls)
    ensures Compiled(ls).Ok?
  {
    hide Bytes;
    forall j | 0 <= j < |ls|
      ensures KeepsCksum(ls[j]) || HasParent(ls, j)
    {
      KindAt(ls, n, m, j);
      if j == n + 1 {
        forall i | 0 < i <= n
          ensures ls[..j][i].kind == IpOpt
        {
          KindAt(ls, n, m, i);
        }
        SkipOptionsIs(ls[..j], n);
      }
    }
    CompilesIff(ls);
  }

  /** Compile, build, dissect: for every stack in which no field was set by hand, and
      whatever link-layer padding follows, compiling succeeds, and dissecting what is
      built drops the padding, finds no bad checksum and keeps every byte. */
  lemma {:induction false} BuiltIsAccepted(ls: seq<Layer>, n: nat, m: nat, pad: seq<Byte>)
    requires IsStack(ls, n, m) && NothingTaken(ls)
    ensures WellSized(ls) && Compiled(ls).Ok?
    ensures var b := Bytes(Compiled(ls).value); AcceptsAs(b + pad, b)
  {
    hide Bytes, HasShape, Fits, CompiledLayer, CompiledBelow, Settled, AcceptsAs;
    StackIsWellSized(ls, n, m);
    StackCompiles(ls, n, m);
    AllSettle(ls, |ls|);
    CompiledStaysStack(ls, n, m, |ls|);
    CompiledIsAccepted(Compiled(ls).value, n, m, pad);
  }
}
