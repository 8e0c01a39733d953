// Fragmentation: the fragment loop of src/sendip_handler.c, and its undoing.
module Fragment {
  import opened Checksum
  import opened SendIp

  /** The fragment size of automatic fragmentation: what the MTU leaves after a plain
      header, in unsigned arithmetic, down to a multiple of eight. */
  function AutoMtu(mtu: nat): nat {
    var room: nat := (mtu - IPHDR_SIZE) % WRAP;
    room - room % 8
  }

  predicate NeedsFragments(mtu: nat, optlen: nat, size: nat) {
    size + optlen + 20 >= mtu
  }

  /** The id of the i-th datagram of a burst. */
  function IdAt(srcId: int, counts: bool, pid: nat, i: nat): Word16 {
    var id := if counts then srcId + i else srcId;
    if id != -1 then id % 0x1_0000 else pid % 256
  }

  /** The datagrams that carry the pieces, first to last. */
  function Datagrams(ps: seq<Piece>, srcId: int, counts: bool, pid: nat, options: seq<Byte>): (ds: seq<Datagram>)
    ensures |ds| == |ps|
  {
    seq(|ps|, i requires 0 <= i < |ps| =>
      Built(IdAt(srcId, counts, pid, i), if ps[i].more then MF else 0, ps[i].offset, options, ps[i].data))
  }

  /** What the header of the i-th fragment says: one id for all, or counted on, of the process
      when ids are random; where its piece belongs, and whether more follow. */
  lemma FragmentSays(ps: seq<Piece>, srcId: int, counts: bool, pid: nat, options: seq<Byte>, i: nat)
    requires i < |ps|
    ensures var d, id := Datagrams(ps, srcId, counts, pid, options)[i], if counts then srcId + i else srcId;
            && d.id == (if id == -1 then pid % 256 else id % 65536)
            && d.options == options && d.data == ps[i].data
            && (ps[i].offset < 65536 ==>
                  d.fragOff == ps[i].offset / 8 + (if ps[i].more then 8192 else 0))
            && (20 + |options| + |d.data| < 65536 ==> d.totLen == 20 + |options| + |d.data|)
  {
  }

  // --- when the loop ends -----------------------------------------------------------------

  /** The variables of the fragment loop. */
  datatype Progress = Progress(remainder: nat, offset: nat)

  predicate Leaves(p: Progress, vmtu: nat) {
    p.remainder <= vmtu
  }

  /** One turn of the loop. */
  function Turned(p: Progress, vmtu: nat): Progress
    requires !Leaves(p, vmtu)
  {
    Progress(p.remainder - vmtu, p.offset + vmtu)
  }

  /** The loop leaves after at most n turns. */
  predicate LeavesWithin(p: Progress, vmtu: nat, n: nat)
    decreases n
  {
    Leaves(p, vmtu) || (n > 0 && LeavesWithin(Turned(p, vmtu), vmtu, n - 1))
  }

  lemma {:induction false} LeavesAfterRemainder(p: Progress, vmtu: nat, n: nat)
    requires vmtu > 0 && p.remainder <= n
    ensures LeavesWithin(p, vmtu, n)
    decreases n
  {
    if !Leaves(p, vmtu) {
      LeavesAfterRemainder(Turned(p, vmtu), vmtu, n - 1);
    }
  }

  /** With a fragment size of zero a turn changes nothing. */
  lemma {:induction false} StaysForever(p: Progress, n: nat)
    requires p.remainder > 0
    ensures Turned(p, 0) == p && !LeavesWithin(p, 0, n)
    decreases n
  {
    if n > 0 {
      StaysForever(p, n - 1);
    }
  }

  /** The loop leaves at all. */
  ghost predicate Ends(size: nat, vmtu: nat) {
    exists n: nat :: LeavesWithin(Progress(size, 0), vmtu, n)
  }

  /** The fragment loop ends exactly for an empty packet or a positive fragment size. */
  lemma LoopEndsIff(size: nat, vmtu: nat)
    ensures Ends(size, vmtu) <==> size == 0 || vmtu > 0
  {
    if vmtu > 0 {
      LeavesAfterRemainder(Progress(size, 0), vmtu, size);
    } else if size == 0 {
      assert LeavesWithin(Progress(size, 0), vmtu, 0);
    } else {
      forall n: nat
        ensures !LeavesWithin(Progress(size, 0), vmtu, n)
      {
        StaysForever(Progress(size, 0), n);
      }
    }
  }

  /** Automatic fragmentation finds no room exactly for these interface MTUs. */
  lemma AutoMtuIsZeroIff(mtu: nat)
    requires mtu < WRAP
    ensures AutoMtu(mtu) == 0 <==> 20 <= mtu < 28
  {
    var room: nat := (mtu - IPHDR_SIZE) % WRAP;
    if mtu >= 20 {
      assert room == mtu - 20;
    } else {
      assert room == mtu - 20 + WRAP;
    }
  }

  /** The handler fragments: it was told to, or the packet asks for it. */
  predicate Fragments(fragment: bool, mtu: nat, optlen: nat, size: nat) {
    fragment || NeedsFragments(mtu, optlen, size)
  }

  /** The fragment size it then uses. */
  function FragmentSize(fragment: bool, virtualMtu: nat, mtu: nat): nat {
    if fragment then virtualMtu else AutoMtu(mtu)
  }

  /** Calls of send_ip_handler that come back. */
  ghost predicate ComesBack(fragment: bool, virtualMtu: nat, mtu: nat, optlen: nat, size: nat) {
    Fragments(fragment, mtu, optlen, size) ==> Ends(size, FragmentSize(fragment, virtualMtu, mtu))
  }

  /** send_ip_handler comes back exactly if the packet is empty, or it fragments by a
      positive size it was given, or it was given none and either the packet goes out
      whole or the interface MTU is not one of 20 to 27. */
  lemma ComesBackIff(fragment: bool, virtualMtu: nat, mtu: nat, optlen: nat, size: nat)
    requires mtu < WRAP
    ensures ComesBack(fragment, virtualMtu, mtu, optlen, size) <==>
            size == 0 || (if fragment then virtualMtu > 0 else size + optlen + 20 < mtu || !(20 <= mtu < 28))
  {
    hide Ends, AutoMtu;
    AutoMtuIsZeroIff(mtu);
    LoopEndsIff(size, FragmentSize(fragment, virtualMtu, mtu));
  }

  // --- the handler --------------------------------------------------------------------------

  lemma OneMore(ps: seq<Piece>, p: Piece, wire: seq<Datagram>, srcId: int, counts: bool, pid: nat, options: seq<Byte>)
    ensures wire + Datagrams(ps + [p], srcId, counts, pid, options) ==
            wire + Datagrams(ps, srcId, counts, pid, options) +
            [Built(IdAt(srcId, counts, pid, |ps|), if p.more then MF else 0, p.offset, options, p.data)]
  {
    hide Built, IdAt;
    assert Datagrams(ps + [p], srcId, counts, pid, options) ==
           Datagrams(ps, srcId, counts, pid, options) +
           [Built(IdAt(srcId, counts, pid, |ps|), if p.more then MF else 0, p.offset, options, p.data)];
  }

  lemma PieceStep(payload: seq<Byte>, vmtu: nat, off: nat)
    requires off <= |payload| && (vmtu > 0 || payload == [])
    ensures Pieces(payload, vmtu, off) ==
            if |payload| - off <= vmtu then [Piece(off, false, payload[off..])]
            else [Piece(off, true, payload[off..off + vmtu])] + Pieces(payload, vmtu, off + vmtu)
  {
  }

  lemma FragmentId(h: Host, srcId: int, counts: bool, i: nat, random: Word16)
    requires h.fragment && h.srcId == srcId + if counts then i else 0
    ensures h.NextId(random) == IdAt(srcId, counts, h.pid, i)
  {
  }

  /** The fragment loop. */
  method SendPieces(h: Host, packet: seq<Byte>, options: seq<Byte>, random: Word16)
    requires h.fragment && (h.virtualMtu > 0 || packet == [])
    modifies h`wire, h`srcId
    ensures h.wire == old(h.wire) +
              Datagrams(Pieces(packet, h.virtualMtu, 0), old(h.srcId), h.Counts(), h.pid, options)
  {
    hide Datagrams, Built, Pieces, IdAt, Host.NextId;
    var vmtu := h.virtualMtu;
    var remainder, off := |packet|, 0;
    ghost var done: seq<Piece> := [];
    ghost var wire, id, counts := h.wire, h.srcId, h.Counts();
    while remainder > vmtu
      invariant 0 <= off && 0 <= remainder && off + remainder == |packet|
      invariant h.fragment == old(h.fragment) && h.virtualMtu == old(h.virtualMtu) && h.eofReached == old(h.eofReached)
      invariant Pieces(packet, vmtu, 0) == done + Pieces(packet, vmtu, off)
      invariant h.wire == wire + Datagrams(done, id, counts, h.pid, options)
      invariant h.srcId == id + if counts then |done| else 0
      decreases remainder
    {
      ghost var piece := Piece(off, true, packet[off..off + vmtu]);
      FragmentId(h, id, counts, |done|, random);
      h.Send(packet[off..off + vmtu], MF, off, options, random);
      OneMore(done, piece, wire, id, counts, h.pid, options);
      PieceStep(packet, vmtu, off);
      assert done + ([piece] + Pieces(packet, vmtu, off + vmtu)) == done + [piece] + Pieces(packet, vmtu, off + vmtu);
      done := done + [piece];
      remainder, off := remainder - vmtu, off + vmtu;
    }
    ghost var last := Piece(off, false, packet[off..]);
    FragmentId(h, id, counts, |done|, random);
    h.Send(packet[off..], 0, off, options, random);
    OneMore(done, last, wire, id, counts, h.pid, options);
    PieceStep(packet, vmtu, off);
  }

  /** send_ip_handler, for the calls that come back. */
  method SendIpHandler(h: Host, packet: seq<Byte>, options: seq<Byte>, random: Word16)
    requires ComesBack(h.fragment, h.virtualMtu, h.mtu, |options|, |packet|)
    modifies h
    ensures h.eofReached == old(h.eofReached)
    ensures h.fragment == (old(h.fragment) || |packet| + |options| + 20 >= h.mtu)
    ensures h.virtualMtu == if h.fragment && !old(h.fragment) then AutoMtu(h.mtu) else old(h.virtualMtu)
    ensures h.fragment && !old(h.fragment) && 20 <= h.mtu < 4294967296 ==> h.virtualMtu == (h.mtu - 20) / 8 * 8
    ensures h.fragment && !old(h.fragment) ==> !h.mf && !h.df
    ensures !(h.fragment && !old(h.fragment)) ==> h.mf == old(h.mf) && h.df == old(h.df)
    ensures h.virtualMtu > 0 || packet == [] || !h.fragment
    ensures h.wire == old(h.wire) +
              if h.fragment then
                Datagrams(Pieces(packet, h.virtualMtu, 0), old(h.srcId), h.Counts(), h.pid, options)
              else
                [Built(old(h.NextId(random)), (if h.mf then MF else 0) + (if h.df then DF else 0), h.fragOffset,
                       options, packet)]
    ensures !h.fragment ==> h.wire[|h.wire| - 1].id == if old(h.srcId) == -1 then random else old(h.srcId) % 65536
  {
    LoopEndsIff(|packet|, FragmentSize(h.fragment, h.virtualMtu, h.mtu));
    hide Ends;
    if !h.fragment && |packet| + |options| + 20 >= h.mtu {
      h.virtualMtu := AutoMtu(h.mtu);
      h.fragment := true;
      h.mf, h.df := false, false;
    }
    if !h.fragment {
      var flags: Word16 := (if h.mf then MF else 0) + (if h.df then DF else 0);
      h.Send(packet, flags, h.fragOffset, options, random);
    } else {
      SendPieces(h, packet, options, random);
    }
  }

  // --- reassembly -------------------------------------------------------------------------

  /** What a receiver reads in the header of a fragment. */
  function Received(d: Datagram): Piece {
    Piece(d.Offset(), d.MoreFragments(), d.data)
  }

  predicate Covers(p: Piece, k: nat) {
    p.offset <= k < p.offset + |p.data|
  }

  ghost predicate SomeCovers(ps: seq<Piece>, k: nat) {
    exists i :: 0 <= i < |ps| && Covers(ps[i], k)
  }

  /** The pieces, in whatever order they come, fill the payload from `off` on with its
      own bytes, no byte twice, and the one without "more fragments" says where it ends
      (section 3.2 of RFC 791). */
  ghost predicate TileFrom(ps: seq<Piece>, payload: seq<Byte>, off: nat) {
    && |ps| > 0
    && (forall p | p in ps :: off <= p.offset && p.offset + |p.data| <= |payload| &&
                              p.data == payload[p.offset..p.offset + |p.data|])
    && (forall k | off <= k < |payload| :: SomeCovers(ps, k))
    && (forall i, j, k | 0 <= i < j < |ps| && Covers(ps[i], k) :: !Covers(ps[j], k))
    && (exists p :: p in ps && !p.more)
    && (forall p | p in ps && !p.more :: p.offset + |p.data| == |payload|)
    && (forall p | p in ps && p.more :: p.offset + |p.data| < |payload|)
  }

  ghost predicate Tile(ps: seq<Piece>, payload: seq<Byte>) {
    TileFrom(ps, payload, 0)
  }

  lemma LastTiles(payload: seq<Byte>, off: nat)
    requires off <= |payload|
    ensures TileFrom([Piece(off, false, payload[off..])], payload, off)
  {
    var ps := [Piece(off, false, payload[off..])];
    forall k | off <= k < |payload|
      ensures SomeCovers(ps, k)
    {
      assert Covers(ps[0], k);
    }
    assert ps[0] in ps && !ps[0].more;
  }

  lemma PrependTiles(p: Piece, rest: seq<Piece>, payload: seq<Byte>)
    requires TileFrom(rest, payload, p.offset + |p.data|) && p.more && p.offset + |p.data| < |payload|
    requires p.data == payload[p.offset..p.offset + |p.data|]
    ensures TileFrom([p] + rest, payload, p.offset)
  {
    var ps := [p] + rest;
    forall k | p.offset <= k < |payload|
      ensures SomeCovers(ps, k)
    {
      if k < p.offset + |p.data| {
        assert Covers(ps[0], k);
      } else {
        assert SomeCovers(rest, k);
        var i :| 0 <= i < |rest| && Covers(rest[i], k);
        assert Covers(ps[i + 1], k);
      }
    }
    forall i, j, k | 0 <= i < j < |ps| && Covers(ps[i], k)
      ensures !Covers(ps[j], k)
    {
      assert ps[j] == rest[j - 1] && rest[j - 1] in rest;
      if i > 0 {
        assert ps[i] == rest[i - 1];
      }
    }
    var last :| last in rest && !last.more;
    assert last in ps;
  }

  lemma {:induction false} PiecesTile(payload: seq<Byte>, vmtu: nat, off: nat)
    requires off <= |payload| && (vmtu > 0 || payload == [])
    ensures TileFrom(Pieces(payload, vmtu, off), payload, off)
    decreases |payload| - off
  {
    hide Pieces, TileFrom;
    PieceStep(payload, vmtu, off);
    if |payload| - off > vmtu {
      PiecesTile(payload, vmtu, off + vmtu);
      PrependTiles(Piece(off, true, payload[off..off + vmtu]), Pieces(payload, vmtu, off + vmtu), payload);
    } else {
      LastTiles(payload, off);
    }
  }

  /** What tiles is one payload: reassembly has one answer. */
  lemma ReassemblyIsUnique(ps: seq<Piece>, a: seq<Byte>, b: seq<Byte>)
    requires Tile(ps, a) && Tile(ps, b)
    ensures a == b
  {
    var last :| last in ps && !last.more;
    assert |a| == |b|;
    forall k | 0 <= k < |a|
      ensures a[k] == b[k]
    {
      assert SomeCovers(ps, k);
      var i :| 0 <= i < |ps| && Covers(ps[i], k);
      var p := ps[i];
      assert p in ps && p.data[k - p.offset] == a[p.offset..p.offset + |p.data|][k - p.offset] == a[k];
      assert p.data[k - p.offset] == b[p.offset..p.offset + |p.data|][k - p.offset] == b[k];
    }
  }

  // --- from the wire back to the payload ------------------------------------------------------------

  /** The pieces a receiver reads off the wire. */
  function Heard(ds: seq<Datagram>): (ps: seq<Piece>)
    ensures |ps| == |ds|
  {
    seq(|ds|, i requires 0 <= i < |ds| => Received(ds[i]))
  }

  lemma FieldsApart(flags: nat, units: nat)
    requires flags <= 1 && units < 0x2000
    ensures (flags * 0x2000 + units) % 0x2000 == units && (flags * 0x2000 + units) / 0x2000 == flags
  {
  }

  /** The header counts in units of eight bytes: what is lost of an offset. */
  lemma HeardPiece(ps: seq<Piece>, srcId: int, counts: bool, pid: nat, options: seq<Byte>, i: nat)
    requires i < |ps| && ps[i].offset <= 0xFFFF
    ensures Heard(Datagrams(ps, srcId, counts, pid, options))[i] == Piece(ps[i].offset / 8 * 8, ps[i].more, ps[i].data)
  {
    var flags: Word16 := if ps[i].more then MF else 0;
    FieldsApart(flags / 0x2000, ps[i].offset / 8);
  }

  lemma {:induction false} PieceOffsets(payload: seq<Byte>, vmtu: nat, off: nat, i: nat)
    requires off <= |payload| && (vmtu > 0 || payload == []) && i < |Pieces(payload, vmtu, off)|
    ensures Pieces(payload, vmtu, off)[i].offset <= |payload|
    ensures vmtu % 8 == 0 && off % 8 == 0 ==> Pieces(payload, vmtu, off)[i].offset % 8 == 0
    decreases |payload| - off
  {
    if |payload| - off > vmtu && i > 0 {
      PieceOffsets(payload, vmtu, off + vmtu, i - 1);
    }
  }

  /** All fragments of one datagram carry one id. */
  ghost predicate OneId(ds: seq<Datagram>) {
    forall i, j | 0 <= i < j < |ds| :: ds[i].id == ds[j].id
  }

  lemma {:induction false} PieceSizes(payload: seq<Byte>, vmtu: nat, off: nat)
    requires off <= |payload| && (vmtu > 0 || payload == [])
    ensures var ps := Pieces(payload, vmtu, off);
            && (forall i | 0 <= i < |ps| :: |ps[i].data| <= vmtu && |ps[i].data| <= |payload| - off)
            && |ps[0].data| == if |payload| - off <= vmtu then |payload| - off else vmtu
    decreases |payload| - off
  {
    if |payload| - off > vmtu {
      PieceSizes(payload, vmtu, off + vmtu);
    }
  }

  /** The header length and the total length of a datagram, both in their fields' widths,
      say where its data begins and ends (section 3.1 of RFC 791). */
  predicate Readable(d: Datagram) {
    4 * d.ihl == IPHDR_SIZE + |d.options| && d.totLen == 4 * d.ihl + |d.data|
  }

  /** A whole datagram has at most 65535 bytes. */
  predicate Whole(options: seq<Byte>, payload: seq<Byte>) {
    IPHDR_SIZE + |options| + |payload| <= 0xFFFF
  }

  /** A receiver puts the payload together from the fragments, into one datagram. */
  ghost predicate Reassembles(ds: seq<Datagram>, payload: seq<Byte>) {
    && |ds| > 0 && (forall d | d in ds :: Readable(d) && Whole(d.options, payload))
    && OneId(ds) && Tile(Heard(ds), payload)
  }

  lemma ReadableIff(id: Word16, flags: Word16, fragOff: nat, options: seq<Byte>, data: seq<Byte>)
    requires flags % 0x2000 == 0
    ensures Readable(Built(id, flags, fragOff, options, data)) <==>
            |options| % 4 == 0 && |options| <= 40 && IPHDR_SIZE + |options| + |data| <= 0xFFFF
  {
  }

  /** The headers are readable exactly for options of whole words that fit a header. */
  lemma HeadersReadableIff(payload: seq<Byte>, vmtu: nat, srcId: int, counts: bool, pid: nat, options: seq<Byte>)
    requires vmtu > 0 || payload == []
    ensures var ds := Datagrams(Pieces(payload, vmtu, 0), srcId, counts, pid, options);
            (forall d | d in ds :: Readable(d) && Whole(d.options, payload)) <==>
            |options| % 4 == 0 && |options| <= 40 && Whole(options, payload)
  {
    hide Readable, Pieces;
    PieceSizes(payload, vmtu, 0);
    var ps := Pieces(payload, vmtu, 0);
    var ds := Datagrams(ps, srcId, counts, pid, options);
    forall i | 0 <= i < |ds|
      ensures ds[i].options == options
      ensures Whole(options, payload) ==> (Readable(ds[i]) <==> |options| % 4 == 0 && |options| <= 40)
    {
      ReadableIff(IdAt(srcId, counts, pid, i), if ps[i].more then MF else 0, ps[i].offset, options, ps[i].data);
    }
    assert ds[0] in ds;
  }

  lemma AlignedIsHeard(payload: seq<Byte>, vmtu: nat, srcId: int, counts: bool, pid: nat, options: seq<Byte>)
    requires (vmtu > 0 || payload == []) && |payload| <= 0xFFFF && (vmtu % 8 == 0 || |payload| <= vmtu)
    ensures var ps := Pieces(payload, vmtu, 0); Heard(Datagrams(ps, srcId, counts, pid, options)) == ps
  {
    var ps := Pieces(payload, vmtu, 0);
    forall i | 0 <= i < |ps|
      ensures Heard(Datagrams(ps, srcId, counts, pid, options))[i] == ps[i]
    {
      PieceOffsets(payload, vmtu, 0, i);
      HeardPiece(ps, srcId, counts, pid, options, i);
    }
  }

  /** Without alignment the second fragment is put over the end of the first. */
  lemma UnalignedOverlaps(payload: seq<Byte>, vmtu: nat, srcId: int, counts: bool, pid: nat, options: seq<Byte>)
    requires vmtu > 0 && |payload| <= 0xFFFF && vmtu % 8 != 0 && |payload| > vmtu
    ensures !Tile(Heard(Datagrams(Pieces(payload, vmtu, 0), srcId, counts, pid, options)), payload)
  {
    var ps := Pieces(payload, vmtu, 0);
    assert ps[1] == Pieces(payload, vmtu, vmtu)[0];
    HeardPiece(ps, srcId, counts, pid, options, 0);
    HeardPiece(ps, srcId, counts, pid, options, 1);
    var heard := Heard(Datagrams(ps, srcId, counts, pid, options));
    var k := vmtu / 8 * 8;
    assert Covers(heard[0], k) && Covers(heard[1], k);
  }

  lemma IdsAgreeIff(ps: seq<Piece>, srcId: int, counts: bool, pid: nat, options: seq<Byte>)
    requires counts ==> srcId >= 0
    ensures OneId(Datagrams(ps, srcId, counts, pid, options)) <==> !counts || |ps| <= 1
  {
    var ds := Datagrams(ps, srcId, counts, pid, options);
    if counts && |ps| > 1 {
      assert ds[0].id == srcId % 0x1_0000 && ds[1].id == (srcId + 1) % 0x1_0000;
    }
  }

  lemma TileIsFromStart(ps: seq<Piece>, payload: seq<Byte>)
    ensures Tile(ps, payload) == TileFrom(ps, payload, 0)
  {
  }

  /** Fragmentation is undone by reassembly exactly when options and payload fit a
      datagram, and the payload goes in one piece, or the fragment size is a multiple of
      eight and the fragments are not numbered one by one as the safe protocol numbers its
      datagrams. */
  lemma ReassemblesIff(payload: seq<Byte>, vmtu: nat, srcId: int, counts: bool, pid: nat, options: seq<Byte>)
    requires (vmtu > 0 || payload == []) && (counts ==> srcId >= 0)
    ensures Reassembles(Datagrams(Pieces(payload, vmtu, 0), srcId, counts, pid, options), payload) <==>
            && |options| % 4 == 0 && |options| <= 40 && Whole(options, payload)
            && (|payload| <= vmtu || (vmtu % 8 == 0 && !counts))
  {
    hide Tile, OneId, Heard, Datagrams, Readable;
    var ps := Pieces(payload, vmtu, 0);
    HeadersReadableIff(payload, vmtu, srcId, counts, pid, options);
    IdsAgreeIff(ps, srcId, counts, pid, options);
    if !Whole(options, payload) {
    } else if vmtu % 8 == 0 || |payload| <= vmtu {
      AlignedIsHeard(payload, vmtu, srcId, counts, pid, options);
      PiecesTile(payload, vmtu, 0);
      TileIsFromStart(ps, payload);
    } else {
      UnalignedOverlaps(payload, vmtu, srcId, counts, pid, options);
    }
  }

  // --- the interface MTU ---------------------------------------------------------------------------------

  ghost predicate Obeys(ds: seq<Datagram>, mtu: nat) {
    forall d | d in ds :: IPHDR_SIZE + |d.options| + |d.data| <= mtu
  }

  /** The fragments obey an MTU exactly when the largest of them does. */
  lemma ObeysIff(payload: seq<Byte>, vmtu: nat, srcId: int, counts: bool, pid: nat, options: seq<Byte>, mtu: nat)
    requires vmtu > 0 || payload == []
    ensures Obeys(Datagrams(Pieces(payload, vmtu, 0), srcId, counts, pid, options), mtu) <==>
            IPHDR_SIZE + |options| + (if |payload| <= vmtu then |payload| else vmtu) <= mtu
  {
    PieceSizes(payload, vmtu, 0);
    var ds := Datagrams(Pieces(payload, vmtu, 0), srcId, counts, pid, options);
    assert ds[0] in ds;
  }

  lemma AutoMtuFact(mtu: nat)
    requires 20 <= mtu < WRAP
    ensures AutoMtu(mtu) == mtu - 20 - (mtu - 20) % 8
  {
    var room: nat := mtu - IPHDR_SIZE;
    assert room % WRAP == room;
  }

  /** Automatic fragmentation forgets the IP options: its fragments obey the interface
      MTU exactly when there is room for a header at all, and the options fit into what
      rounding down left over, or the payload into the MTU. */
  lemma {:induction false} AutomaticObeysIff(payload: seq<Byte>, mtu: nat, srcId: int, counts: bool, pid: nat,
                                             options: seq<Byte>)
    requires mtu < WRAP && (AutoMtu(mtu) > 0 || payload == [])
    ensures Obeys(Datagrams(Pieces(payload, AutoMtu(mtu), 0), srcId, counts, pid, options), mtu) <==>
            mtu >= 20 && (|options| <= (mtu - 20) % 8 || IPHDR_SIZE + |options| + |payload| <= mtu)
  {
    if mtu >= 20 {
      AutoMtuFact(mtu);
    }
    hide AutoMtu, Obeys, Pieces;
    ObeysIff(payload, AutoMtu(mtu), srcId, counts, pid, options, mtu);
  }
}
