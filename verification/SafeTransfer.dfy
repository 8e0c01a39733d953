// The "safe" file transfer: src/datafiller.c, the id counter of src/sendip.c, the
// restarts of src/waitpacket.c and the receiver of src/listen.c.
module SafeTransfer {
  import opened Arith
  import opened Checksum
  import opened Options

  /** What stays fixed during a transfer: the file, the bytes of it that a packet
      carries (cfg.data_size - cfg.signlen), and --end. */
  datatype Config = Config(file: seq<Byte>, chunk: nat, end: bool) {
    /** An empty file without --end would be read again and again. */
    predicate Valid() {
      0 < chunk <= 0xFFFF && (end || |file| > 0)
    }
  }

  /** The file position, ctx.eof_reached and cfg.src_id. */
  datatype Tx = Tx(pos: nat, eof: bool, srcId: nat)

  /** exp_id and what was written to standard output. */
  datatype Rx = Rx(expId: Word16, output: seq<Byte>)

  /** A data packet: IP id, and the bytes after the signature. */
  datatype Packet = Packet(id: Word16, data: seq<Byte>)

  // --- the sender ----------------------------------------------------------------------

  /** read(): what is left of the file, up to one chunk. */
  function Read(c: Config, pos: nat): (r: seq<Byte>)
    ensures |r| <= c.chunk
  {
    if pos >= |c.file| then []
    else if pos + c.chunk <= |c.file| then c.file[pos..pos + c.chunk]
    else c.file[pos..]
  }

  function Padded(c: Config, s: seq<Byte>): (r: seq<Byte>)
    requires |s| <= c.chunk
    ensures |r| == c.chunk
  {
    s + seq(c.chunk - |s|, i => 0)
  }

  /** datafiller: the next chunk. At the end of the file the rest is zeroes and the file
      is rewound; with --end that is remembered, without it an empty rest is skipped. */
  function Filled(c: Config, s: Tx): (r: (seq<Byte>, Tx))
    requires c.Valid()
    ensures |r.0| == c.chunk && r.1.srcId == s.srcId
  {
    var got := Read(c, s.pos);
    if |got| == c.chunk then (got, s.(pos := s.pos + c.chunk))
    else if c.end then (Padded(c, got), s.(pos := 0, eof := true))
    else if |got| > 0 then (Padded(c, got), s.(pos := 0))
    else
      var again := Read(c, 0);
      (Padded(c, again), s.(pos := if |again| == c.chunk then c.chunk else 0))
  }

  /** One data packet, and the sender after it. */
  function Sent(c: Config, s: Tx): (r: (Packet, Tx))
    requires c.Valid()
  {
    var (data, next) := Filled(c, s);
    (Packet(s.srcId % 0x1_0000, data), if next.eof then next else next.(srcId := s.srcId + 1))
  }

  /** handle_hcmp with HCMP_RESTART: the id, and the seek in unsigned arithmetic. */
  function Restarted(c: Config, s: Tx, seqnum: Word16): Tx {
    s.(srcId := seqnum, pos := (c.chunk * ((seqnum - 1) % WRAP)) % WRAP)
  }

  /** Where chunk k begins, counted from 1. */
  function Offset(c: Config, k: nat): nat
    requires k > 0
  {
    c.chunk * (k - 1)
  }

  lemma SeekIsExact(c: Config, n: Word16)
    requires c.chunk <= 0xFFFF && n > 0
    ensures (c.chunk * ((n - 1) % WRAP)) % WRAP == c.chunk * (n - 1)
  {
    var m: int := n - 1;
    assert m % WRAP == m;
    MulMonotone(c.chunk, 0xFFFF, m);
    assert 0xFFFF * m < WRAP;
    MulMonotone(0, c.chunk, m);
    DivModUnique(c.chunk * m, WRAP, 0, c.chunk * m);
  }

  class Sender {
    const c: Config
    var pos: nat
    var eof: bool
    var srcId: nat

    function State(): Tx
      reads this
    {
      Tx(pos, eof, srcId)
    }

    /** --safe starts with id 1. */
    constructor (c: Config)
      requires c.Valid()
      ensures this.c == c && State() == Tx(0, false, 1)
    {
      this.c := c;
      pos, eof, srcId := 0, false, 1;
    }

    /** datafiller */
    method Datafiller() returns (p: seq<Byte>)
      requires c.Valid()
      modifies this`pos, this`eof
      ensures (p, State()) == Filled(c, old(State()))
    {
      var readed := Read(c, pos);
      pos := pos + |readed|;
      if |readed| == c.chunk {
        return readed;
      }
      if !c.end {
        pos := 0;
        if |readed| == 0 {
          readed := Read(c, pos);
          pos := pos + |readed|;
          if |readed| == c.chunk {
            return Padded(c, readed);
          }
        }
      } else {
        eof := true;
      }
      pos := 0;
      return Padded(c, readed);
    }

    /** A data packet is built and sent; send_ip counts the id up to the end of file. */
    method SendPacket() returns (p: Packet)
      requires c.Valid()
      modifies this
      ensures (p, State()) == Sent(c, old(State()))
    {
      var data := Datafiller();
      p := Packet(srcId % 0x1_0000, data);
      if !eof {
        srcId := srcId + 1;
      }
    }

    /** handle_hcmp */
    method HandleRestart(seqnum: Word16)
      modifies this`srcId, this`pos
      ensures State() == Restarted(c, old(State()), seqnum)
      ensures seqnum > 0 && c.chunk <= 0xFFFF ==> pos == Offset(c, seqnum)
    {
      if seqnum > 0 && c.chunk <= 0xFFFF {
        SeekIsExact(c, seqnum);
      }
      srcId := seqnum;
      pos := (c.chunk * ((seqnum - 1) % WRAP)) % WRAP;
    }
  }

  // --- the receiver ---------------------------------------------------------------------

  /** One packet at the receiver: only the expected id is accepted; any other asks for a
      restart. */
  function Received(r: Rx, p: Packet): (res: (Rx, Option<Word16>)) {
    if p.id == r.expId then (Rx((r.expId + 1) % 0x1_0000, r.output + p.data), None) else (r, Some(r.expId))
  }

  /** All the packets of a run, one after the other, with the restarts asked for. */
  function Listened(r: Rx, ps: seq<Packet>): (res: (Rx, seq<Word16>)) {
    if |ps| == 0 then (r, [])
    else
      var (before, asked) := Listened(r, ps[..|ps| - 1]);
      var (after, restart) := Received(before, ps[|ps| - 1]);
      (after, if restart.Some? then asked + [restart.value] else asked)
  }

  class Receiver {
    var expId: Word16
    var output: seq<Byte>

    function State(): Rx
      reads this
    {
      Rx(expId, output)
    }

    constructor ()
      ensures State() == Rx(1, [])
    {
      expId, output := 1, [];
    }

    /** The loop of listen_run over the packets that carry the signature. */
    method Listen(ps: seq<Packet>) returns (asked: seq<Word16>)
      modifies this
      ensures (State(), asked) == Listened(old(State()), ps)
    {
      asked := [];
      var i := 0;
      while i < |ps|
        invariant 0 <= i <= |ps| && (State(), asked) == Listened(old(State()), ps[..i])
      {
        assert ps[..i + 1][..i] == ps[..i];
        if ps[i].id == expId {
          expId := (expId + 1) % 0x1_0000;
          output := output + ps[i].data;
        } else {
          asked := asked + [expId];
        }
        i := i + 1;
      }
      assert ps[..i] == ps;
    }
  }

  // --- runs over a network that loses, repeats and reorders ---------------------------------

  /** Everything ever sent stays in the network: it may arrive late, again, or never. */
  datatype World = World(tx: Tx, rx: Rx, data: set<Packet>, restarts: set<Word16>)

  datatype Event = Send | Arrive(p: Packet) | Restart(seqnum: Word16)

  function Start(): World {
    World(Tx(0, false, 1), Rx(1, []), {}, {})
  }

  /** Only what was sent arrives. */
  predicate Enabled(w: World, e: Event) {
    match e
    case Send => true
    case Arrive(p) => p in w.data
    case Restart(n) => n in w.restarts
  }

  function Next(c: Config, w: World, e: Event): World
    requires c.Valid()
  {
    match e
    case Send =>
      var (p, tx) := Sent(c, w.tx);
      w.(tx := tx, data := w.data + {p})
    case Arrive(p) =>
      var (rx, restart) := Received(w.rx, p);
      w.(rx := rx, restarts := if restart.Some? then w.restarts + {restart.value} else w.restarts)
    case Restart(n) => w.(tx := Restarted(c, w.tx, n))
  }

  /** The sender has not gone past the end of the file: a whole chunk is left, or this is
      the first read of --end that comes up short. */
  predicate BeforeEnd(c: Config, s: Tx) {
    !s.eof && (s.pos + c.chunk <= |c.file| || c.end)
  }

  /** es is a run from w on. */
  predicate IsRun(c: Config, w: World, es: seq<Event>)
    requires c.Valid()
    decreases |es|
  {
    |es| == 0 || (Enabled(w, es[0]) && IsRun(c, Next(c, w, es[0]), es[1..]))
  }

  /** es is a run from w on in which the sender never sends past the end of the file. */
  predicate IsRunBeforeEnd(c: Config, w: World, es: seq<Event>)
    requires c.Valid()
    decreases |es|
  {
    |es| == 0 ||
    (Enabled(w, es[0]) && (es[0] == Send ==> BeforeEnd(c, w.tx)) && IsRunBeforeEnd(c, Next(c, w, es[0]), es[1..]))
  }

  function After(c: Config, w: World, es: seq<Event>): World
    requires c.Valid()
    decreases |es|
  {
    if |es| == 0 then w else After(c, Next(c, w, es[0]), es[1..])
  }

  // --- safety --------------------------------------------------------------------------------

  /** The file followed by zeroes. */
  function FileByte(c: Config, i: nat): Byte {
    if i < |c.file| then c.file[i] else 0
  }

  function FileBytes(c: Config, pos: nat, n: nat): (r: seq<Byte>)
    ensures |r| == n
  {
    seq<Byte>(n, i requires 0 <= i => FileByte(c, pos + i))
  }

  function Chunk(c: Config, k: nat): seq<Byte>
    requires k > 0
  {
    FileBytes(c, Offset(c, k), c.chunk)
  }

  /** The chunks before chunk k. */
  function ChunksBefore(c: Config, k: nat): seq<Byte>
    requires k > 0
  {
    FileBytes(c, 0, Offset(c, k))
  }

  /** Fewer than 65534 chunks: ids do not wrap. */
  predicate FitsIds(c: Config) {
    |c.file| < c.chunk * 65534
  }

  /** The last id sent so far at most: the full chunks, and one more after end of file. */
  function LastId(c: Config, s: Tx): nat
    requires c.chunk > 0
  {
    |c.file| / c.chunk + if s.eof then 1 else 0
  }

  ghost predicate Inv(c: Config, w: World)
    requires c.Valid()
  {
    var last := LastId(c, w.tx);
    && last <= 65534
    && (forall p | p in w.data :: 0 < p.id <= last && p.data == Chunk(c, p.id))
    && 0 < w.rx.expId <= last + 1 && w.rx.output == ChunksBefore(c, w.rx.expId)
    && (forall n | n in w.restarts :: 0 < n <= last + 1)
    && (!w.tx.eof ==> 0 < w.tx.srcId <= last + 1 && w.tx.pos == Offset(c, w.tx.srcId))
  }

  lemma FullChunk(c: Config, k: nat)
    requires c.Valid() && k > 0
    ensures Offset(c, k) + c.chunk == Offset(c, k + 1)
    ensures Offset(c, k) + c.chunk <= |c.file| <==> k <= |c.file| / c.chunk
  {
    MulDistrib(k - 1, 1, c.chunk);
    DivModFact(|c.file|, c.chunk);
    MulCommute(|c.file| / c.chunk, c.chunk);
    if k <= |c.file| / c.chunk {
      MulMonotone(k, |c.file| / c.chunk, c.chunk);
    } else {
      MulMonotone(|c.file| / c.chunk + 1, k, c.chunk);
      MulDistrib(|c.file| / c.chunk, 1, c.chunk);
    }
  }

  /** What is read and padded are the bytes of the file from there on. */
  lemma ReadsFile(c: Config, pos: nat)
    ensures Padded(c, Read(c, pos)) == FileBytes(c, pos, c.chunk)
    ensures |Read(c, pos)| == c.chunk ==> Read(c, pos) == FileBytes(c, pos, c.chunk)
  {
    var got, want := Padded(c, Read(c, pos)), FileBytes(c, pos, c.chunk);
    forall i | 0 <= i < c.chunk
      ensures got[i] == want[i]
    {
      assert want[i] == FileByte(c, pos + i);
    }
    assert |Read(c, pos)| == c.chunk ==> got == Read(c, pos);
  }

  lemma OffsetStep(c: Config, k: nat)
    requires k > 0
    ensures Offset(c, k) + c.chunk == Offset(c, k + 1)
  {
    MulDistrib(k - 1, 1, c.chunk);
  }

  lemma NextChunk(c: Config, k: nat)
    requires k > 0
    ensures ChunksBefore(c, k) + Chunk(c, k) == ChunksBefore(c, k + 1)
  {
    OffsetStep(c, k);
    hide Offset;
  }

  /** What a sender in step with the file does next. */
  lemma SendsChunk(c: Config, s: Tx)
    requires c.Valid() && !s.eof && s.srcId > 0 && s.pos == Offset(c, s.srcId) && BeforeEnd(c, s)
    ensures var (p, next) := Sent(c, s); var k := s.srcId;
            && p == Packet(k % 0x1_0000, Chunk(c, k))
            && next == if k <= |c.file| / c.chunk then Tx(Offset(c, k + 1), false, k + 1) else Tx(0, true, k)
  {
    FullChunk(c, s.srcId);
    ReadsFile(c, s.pos);
    hide Offset, FileBytes;
  }

  lemma FitsMeans(c: Config)
    requires c.Valid() && FitsIds(c)
    ensures |c.file| / c.chunk < 65534
  {
    DivModFact(|c.file|, c.chunk);
    MulStrict(|c.file| / c.chunk, 65534, c.chunk);
  }

  lemma SendKeepsInv(c: Config, w: World)
    requires c.Valid() && Inv(c, w) && FitsIds(c) && BeforeEnd(c, w.tx)
    ensures Inv(c, Next(c, w, Send))
  {
    SendsChunk(c, w.tx);
    FitsMeans(c);
    hide Offset, FileBytes, Sent;
  }

  lemma ArriveKeepsInv(c: Config, w: World, p: Packet)
    requires c.Valid() && Inv(c, w) && p in w.data
    ensures Inv(c, Next(c, w, Arrive(p)))
  {
    if p.id == w.rx.expId {
      NextChunk(c, p.id);
    }
  }

  lemma RestartKeepsInv(c: Config, w: World, n: Word16)
    requires c.Valid() && Inv(c, w) && n in w.restarts
    ensures Inv(c, Next(c, w, Restart(n)))
  {
    SeekIsExact(c, n);
  }

  lemma {:induction false} RunKeepsInv(c: Config, w: World, es: seq<Event>)
    requires c.Valid() && Inv(c, w) && FitsIds(c) && IsRunBeforeEnd(c, w, es)
    ensures Inv(c, After(c, w, es))
    decreases |es|
  {
    if |es| > 0 {
      var next := Next(c, w, es[0]);
      match es[0] {
        case Send => SendKeepsInv(c, w);
        case Arrive(p) => ArriveKeepsInv(c, w, p);
        case Restart(n) => RestartKeepsInv(c, w, n);
      }
      RunKeepsInv(c, next, es[1..]);
    }
  }

  lemma StartInv(c: Config)
    requires c.Valid() && FitsIds(c)
    ensures Inv(c, Start())
  {
    FitsMeans(c);
    assert Offset(c, 1) == 0;
  }

  /** Safe transfer: whatever is lost, repeated or reordered, and whatever stale restarts
      arrive, before the sender passes the end of the file every packet with id k carries
      chunk k, and the output is exactly the chunks before the expected one. */
  lemma SafeTransfer(c: Config, es: seq<Event>)
    requires c.Valid() && FitsIds(c) && IsRunBeforeEnd(c, Start(), es)
    ensures var w := After(c, Start(), es);
            && (forall p | p in w.data :: p.id > 0 && p.data == Chunk(c, p.id))
            && w.rx.expId > 0 && w.rx.output == ChunksBefore(c, w.rx.expId)
  {
    StartInv(c);
    RunKeepsInv(c, Start(), es);
  }

  /** As long as the chunks are full, that is a prefix of the file. */
  lemma FullChunksAreFile(c: Config, k: nat)
    requires k > 0 && Offset(c, k) <= |c.file|
    ensures ChunksBefore(c, k) == c.file[..Offset(c, k)]
  {
    hide Offset;
  }

  // --- runs that go past the end of the file ------------------------------------------------------------

  /** Where the next packet is read: without --end an exhausted file starts again. */
  function ReadFrom(c: Config, s: Tx): nat {
    if !c.end && s.pos >= |c.file| then 0 else s.pos
  }

  lemma SentData(c: Config, s: Tx)
    requires c.Valid()
    ensures Sent(c, s).0 == Packet(s.srcId % 0x1_0000, FileBytes(c, ReadFrom(c, s), c.chunk))
  {
    ReadsFile(c, s.pos);
    ReadsFile(c, 0);
    hide FileBytes;
  }

  /** The packet carries the chunk its id stands for. */
  predicate Right(c: Config, p: Packet) {
    p.id > 0 && p.data == Chunk(c, p.id)
  }

  ghost predicate AllRight(c: Config, ps: set<Packet>) {
    forall p | p in ps :: Right(c, p)
  }

  /** Before sending: the bytes at the position are those of the chunk of the id. */
  predicate Fits(c: Config, s: Tx) {
    var id := s.srcId % 0x1_0000;
    id > 0 && FileBytes(c, ReadFrom(c, s), c.chunk) == Chunk(c, id)
  }

  /** The sender sends only where position and id fit. */
  predicate SendsFit(c: Config, w: World, es: seq<Event>)
    requires c.Valid()
    decreases |es|
  {
    |es| == 0 || ((es[0] == Send ==> Fits(c, w.tx)) && SendsFit(c, Next(c, w, es[0]), es[1..]))
  }

  /** The receiver accepts only right packets. */
  predicate AcceptsRight(c: Config, w: World, es: seq<Event>)
    requires c.Valid()
    decreases |es|
  {
    |es| == 0 ||
    ((es[0].Arrive? && es[0].p.id == w.rx.expId ==> Right(c, es[0].p)) &&
     AcceptsRight(c, Next(c, w, es[0]), es[1..]))
  }

  lemma {:induction false} DataGrows(c: Config, w: World, es: seq<Event>)
    requires c.Valid()
    ensures w.data <= After(c, w, es).data
    decreases |es|
  {
    if |es| > 0 {
      DataGrows(c, Next(c, w, es[0]), es[1..]);
    }
  }

  /** Every packet of a run is right exactly if each was sent where it fits. */
  lemma {:induction false} PacketsRightIff(c: Config, w: World, es: seq<Event>)
    requires c.Valid() && AllRight(c, w.data)
    ensures AllRight(c, After(c, w, es).data) <==> SendsFit(c, w, es)
    decreases |es|
  {
    if |es| > 0 {
      var next := Next(c, w, es[0]);
      SentData(c, w.tx);
      hide Sent, FileBytes, Chunk;
      if es[0] == Send && !Fits(c, w.tx) {
        assert Sent(c, w.tx).0 in next.data;
        DataGrows(c, next, es[1..]);
      } else {
        PacketsRightIff(c, next, es[1..]);
      }
    }
  }

  /** No packet has the last id, so that the expected one does not wrap. */
  ghost predicate NoWrap(ps: set<Packet>) {
    forall p | p in ps :: p.id < 0xFFFF
  }

  /** What counts bytes: every packet carries a whole chunk. */
  ghost predicate Counted(c: Config, w: World) {
    && w.rx.expId > 0 && |w.rx.output| == Offset(c, w.rx.expId)
    && forall p | p in w.data :: |p.data| == c.chunk
  }

  predicate OutputRight(c: Config, r: Rx) {
    r.expId > 0 && r.output == ChunksBefore(c, r.expId)
  }

  lemma NextCounted(c: Config, w: World, e: Event)
    requires c.Valid() && Counted(c, w) && Enabled(w, e) && NoWrap(Next(c, w, e).data)
    ensures Counted(c, Next(c, w, e))
    ensures OutputRight(c, Next(c, w, e).rx) <==>
            OutputRight(c, w.rx) && (e.Arrive? && e.p.id == w.rx.expId ==> Right(c, e.p))
  {
    SentData(c, w.tx);
    if e.Arrive? && e.p.id == w.rx.expId {
      OffsetStep(c, e.p.id);
      NextChunk(c, e.p.id);
      hide Offset, FileBytes, FileByte, Sent;
      var out, want := w.rx.output, ChunksBefore(c, e.p.id);
      assert (out + e.p.data)[..|out|] == out && (want + Chunk(c, e.p.id))[..|out|] == want;
      assert (out + e.p.data)[|out|..] == e.p.data && (want + Chunk(c, e.p.id))[|out|..] == Chunk(c, e.p.id);
    }
  }

  /** The output of a run is right exactly if every packet accepted was. */
  lemma {:induction false} OutputRightIff(c: Config, w: World, es: seq<Event>)
    requires c.Valid() && Counted(c, w) && IsRun(c, w, es) && NoWrap(After(c, w, es).data)
    ensures OutputRight(c, After(c, w, es).rx) <==> OutputRight(c, w.rx) && AcceptsRight(c, w, es)
    decreases |es|
  {
    hide Counted, OutputRight, Right;
    if |es| > 0 {
      var next := Next(c, w, es[0]);
      DataGrows(c, next, es[1..]);
      NextCounted(c, w, es[0]);
      OutputRightIff(c, next, es[1..]);
    }
  }

  lemma {:induction false} RightPacketsSuffice(c: Config, w: World, es: seq<Event>)
    requires c.Valid() && IsRun(c, w, es) && AllRight(c, After(c, w, es).data)
    ensures AcceptsRight(c, w, es)
    decreases |es|
  {
    hide Right;
    if |es| > 0 {
      var next := Next(c, w, es[0]);
      DataGrows(c, next, es[1..]);
      RightPacketsSuffice(c, next, es[1..]);
    }
  }

  /** Any run, past the end of the file and with a file that starts again: packets and
      output are right exactly under these conditions, and the first implies the second. */
  lemma AnyRunIsRightIff(c: Config, es: seq<Event>)
    requires c.Valid() && IsRun(c, Start(), es) && NoWrap(After(c, Start(), es).data)
    ensures AllRight(c, After(c, Start(), es).data) <==> SendsFit(c, Start(), es)
    ensures OutputRight(c, After(c, Start(), es).rx) <==> AcceptsRight(c, Start(), es)
    ensures SendsFit(c, Start(), es) ==> AcceptsRight(c, Start(), es)
  {
    assert Offset(c, 1) == 0;
    PacketsRightIff(c, Start(), es);
    OutputRightIff(c, Start(), es);
    hide IsRun, SendsFit, AcceptsRight;
    if SendsFit(c, Start(), es) {
      RightPacketsSuffice(c, Start(), es);
    }
  }

  // --- the transfer can always go on ---------------------------------------------------------------

  lemma Follow(c: Config, w: World, e: Event, es: seq<Event>)
    requires c.Valid()
    ensures After(c, w, [e] + es) == After(c, Next(c, w, e), es)
    ensures IsRun(c, w, [e] + es) == (Enabled(w, e) && IsRun(c, Next(c, w, e), es))
    ensures IsRunBeforeEnd(c, w, [e] + es) ==
            (Enabled(w, e) && (e == Send ==> BeforeEnd(c, w.tx)) && IsRunBeforeEnd(c, Next(c, w, e), es))
  {
    assert ([e] + es)[0] == e && ([e] + es)[1..] == es;
  }

  lemma {:induction false} RunsCompose(c: Config, w: World, a: seq<Event>, b: seq<Event>)
    requires c.Valid()
    ensures After(c, w, a + b) == After(c, After(c, w, a), b)
    ensures IsRun(c, w, a + b) == (IsRun(c, w, a) && IsRun(c, After(c, w, a), b))
    ensures IsRunBeforeEnd(c, w, a + b) == (IsRunBeforeEnd(c, w, a) && IsRunBeforeEnd(c, After(c, w, a), b))
    decreases |a|
  {
    hide Next, Enabled, BeforeEnd;
    if |a| == 0 {
      assert a + b == b;
    } else {
      assert (a + b)[1..] == a[1..] + b;
      RunsCompose(c, Next(c, w, a[0]), a[1..], b);
    }
  }

  /** A byte of chunk k is in the file, or --end lets the sender read past it. */
  predicate CanRead(c: Config, k: nat)
    requires k > 0
  {
    c.end || Offset(c, k) < |c.file|
  }

  /** The first packet after a restart is the one asked for, past the end of the file, too. */
  lemma RestartSends(c: Config, s: Tx, n: Word16)
    requires c.Valid() && n > 0 && CanRead(c, n)
    ensures Sent(c, Restarted(c, s, n)).0 == Packet(n, Chunk(c, n))
  {
    SeekIsExact(c, n);
    SentData(c, Restarted(c, s, n));
    hide FileBytes, Sent;
  }

  /** Any other restart: without --end the file starts again under the id asked for, and
      the position of id 0, which comes after 65535, is a chunk before 2^32. */
  lemma OtherRestarts(c: Config, s: Tx, n: Word16)
    requires c.Valid()
    ensures n > 0 && !CanRead(c, n) ==> Sent(c, Restarted(c, s, n)).0 == Packet(n, Chunk(c, 1))
    ensures n == 0 ==> Restarted(c, s, n).pos == WRAP - c.chunk
  {
    if n == 0 {
      assert (n - 1) % WRAP == WRAP - 1;
      MulDistrib(c.chunk - 1, 1, WRAP);
      assert c.chunk * (WRAP - 1) == (c.chunk - 1) * WRAP + (WRAP - c.chunk);
      DivModUnique(c.chunk * (WRAP - 1), WRAP, c.chunk - 1, WRAP - c.chunk);
    } else {
      SeekIsExact(c, n);
      SentData(c, Restarted(c, s, n));
      assert Offset(c, 1) == 0;
      hide FileBytes, Sent;
    }
  }

  /** The receiver has written the chunk it expected. */
  predicate Advanced(c: Config, before: Rx, after: Rx) {
    before.expId > 0 && after == Rx((before.expId + 1) % 0x1_0000, before.output + Chunk(c, before.expId))
  }

  /** From any state: a packet with another id asks for a restart, and what that sends
      moves the receiver on. */
  lemma RestartAdvances(c: Config, w: World, p: Packet) returns (es: seq<Event>)
    requires c.Valid() && p in w.data && p.id != w.rx.expId > 0 && CanRead(c, w.rx.expId)
    ensures IsRun(c, w, es) && Advanced(c, w.rx, After(c, w, es).rx)
    ensures BeforeEnd(c, Restarted(c, w.tx, w.rx.expId)) ==> IsRunBeforeEnd(c, w, es)
  {
    hide Sent, Chunk, BeforeEnd, CanRead;
    var n := w.rx.expId;
    var w1 := Next(c, w, Arrive(p));
    var w2 := Next(c, w1, Restart(n));
    var w3 := Next(c, w2, Send);
    RestartSends(c, w.tx, n);
    var q := Packet(n, Chunk(c, n));
    assert w2.tx == Restarted(c, w.tx, n) && q in w3.data && w3.rx == w.rx;
    es := [Arrive(q)] + [];
    Follow(c, w3, Arrive(q), []);
    Follow(c, w2, Send, es);
    es := [Send] + es;
    Follow(c, w1, Restart(n), es);
    es := [Restart(n)] + es;
    Follow(c, w, Arrive(p), es);
    es := [Arrive(p)] + es;
  }

  ghost predicate SomeOtherId(w: World) {
    exists p :: p in w.data && p.id != w.rx.expId
  }

  /** Nothing was received, and no packet but the first was sent. */
  ghost predicate JustStarted(c: Config, w: World) {
    && w.rx == Rx(1, []) && w.restarts == {}
    && if w.data == {} then w.tx == Tx(0, false, 1)
       else && w.data == {Packet(1, Chunk(c, 1))}
            && (w.tx.srcId == 2 || (c.end && |c.file| < c.chunk && w.tx == Tx(0, true, 1)))
  }

  lemma FirstSends(c: Config, w: World)
    requires c.Valid() && JustStarted(c, w)
    ensures SomeOtherId(Next(c, w, Send)) || JustStarted(c, Next(c, w, Send))
  {
    var (p, next) := Sent(c, w.tx);
    SentData(c, w.tx);
    assert Offset(c, 1) == 0;
    hide FileBytes, Offset;
    var v := Next(c, w, Send);
    if w.tx.srcId == 2 {
      assert p in v.data && p.id != v.rx.expId;
    } else {
      assert p == Packet(1, Chunk(c, 1)) && v.data == {p};
    }
  }

  /** Past the beginning some packet in the network always has another id than the one
      expected: the last one accepted has. */
  lemma NextHasOther(c: Config, w: World, e: Event)
    requires c.Valid() && Enabled(w, e) && (SomeOtherId(w) || JustStarted(c, w))
    ensures SomeOtherId(Next(c, w, e)) || JustStarted(c, Next(c, w, e))
  {
    SentData(c, w.tx);
    assert Offset(c, 1) == 0;
    hide FileBytes, Offset, Chunk;
    var v := Next(c, w, e);
    if e.Arrive? && e.p.id == w.rx.expId {
      assert e.p in v.data && e.p.id != v.rx.expId;
    } else if SomeOtherId(w) {
      var p :| p in w.data && p.id != w.rx.expId;
      assert p in v.data && p.id != v.rx.expId;
    } else if e == Send {
      FirstSends(c, w);
    }
  }

  lemma {:induction false} RunHasOther(c: Config, w: World, es: seq<Event>)
    requires c.Valid() && IsRun(c, w, es) && (SomeOtherId(w) || JustStarted(c, w))
    ensures SomeOtherId(After(c, w, es)) || JustStarted(c, After(c, w, es))
    decreases |es|
  {
    hide SomeOtherId, JustStarted, Next;
    if |es| > 0 {
      NextHasOther(c, w, es[0]);
      RunHasOther(c, Next(c, w, es[0]), es[1..]);
    }
  }

  lemma FirstAdvances(c: Config, w: World) returns (es: seq<Event>)
    requires c.Valid() && JustStarted(c, w)
    ensures IsRun(c, w, es) && Advanced(c, w.rx, After(c, w, es).rx)
    ensures c.end || c.chunk <= |c.file| ==> IsRunBeforeEnd(c, w, es)
  {
    var p := Packet(1, Chunk(c, 1));
    es := [Arrive(p)] + [];
    if w.data == {} {
      SentData(c, w.tx);
      assert Offset(c, 1) == 0;
      hide FileBytes, Offset, Sent;
      var w1 := Next(c, w, Send);
      assert p in w1.data && w1.rx == w.rx;
      Follow(c, w1, Arrive(p), []);
      Follow(c, w, Send, es);
      es := [Send] + es;
    } else {
      Follow(c, w, Arrive(p), []);
    }
  }

  /** No run gets stuck, wherever the sender is: as long as there is something to read for
      the chunk expected, packets that do arrive make the receiver write exactly it.
      Before the end that needs no packet past the end. */
  lemma CanAdvance(c: Config, es: seq<Event>) returns (more: seq<Event>)
    requires c.Valid() && IsRun(c, Start(), es)
    requires var n := After(c, Start(), es).rx.expId; n > 0 && CanRead(c, n)
    ensures IsRun(c, Start(), es + more)
    ensures Advanced(c, After(c, Start(), es).rx, After(c, Start(), es + more).rx)
    ensures var w := After(c, Start(), es);
            IsRunBeforeEnd(c, Start(), es) && !w.tx.eof && (c.end || w.rx.expId <= |c.file| / c.chunk) ==>
              IsRunBeforeEnd(c, Start(), es + more)
  {
    var w := After(c, Start(), es);
    RunHasOther(c, Start(), es);
    SeekIsExact(c, w.rx.expId);
    FullChunk(c, w.rx.expId);
    hide Next, Chunk, IsRun, IsRunBeforeEnd, After, CanRead;
    if SomeOtherId(w) {
      var p :| p in w.data && p.id != w.rx.expId;
      more := RestartAdvances(c, w, p);
    } else {
      more := FirstAdvances(c, w);
    }
    RunsCompose(c, Start(), es, more);
  }

  // --- what is sent past the end -------------------------------------------------------------------------

  /** The packet sent after i others, with no restart between. */
  function Nth(c: Config, s: Tx, i: nat): Packet
    requires c.Valid()
    decreases i
  {
    if i == 0 then Sent(c, s).0 else Nth(c, Sent(c, s).1, i - 1)
  }

  /** The packets that carry the file once: the full chunks, and the one at its end. */
  function LapLength(c: Config): (n: nat)
    requires c.chunk > 0
    ensures n > 0
  {
    |c.file| / c.chunk + 1
  }

  /** The chunk read after i others when reading starts at chunk j: the file over and
      over, each time with a chunk of zeroes or of the rest at its end. */
  function Lap(c: Config, j: nat, i: nat): (k: nat)
    requires c.chunk > 0 && j > 0
    ensures k > 0
    decreases i
  {
    if i == 0 then j else Lap(c, if j < LapLength(c) then j + 1 else 1, i - 1)
  }

  /** The chunk i places after the first one. */
  function Around(c: Config, i: nat): (k: nat)
    requires c.chunk > 0
    ensures k > 0
  {
    1 + i % LapLength(c)
  }

  lemma {:induction false} LapIsModular(c: Config, j: nat, i: nat)
    requires c.chunk > 0 && 0 < j <= LapLength(c)
    ensures Lap(c, j, i) == Around(c, j - 1 + i)
    decreases i
  {
    var n := LapLength(c);
    if i == 0 {
      DivModUnique(j - 1, n, 0, j - 1);
    } else if j < n {
      LapIsModular(c, j + 1, i - 1);
    } else {
      LapIsModular(c, 1, i - 1);
      ModAddMultiple(i - 1, n, 1);
    }
  }

  /** Past the end: the id stays, the file goes on. */
  lemma EofStep(c: Config, s: Tx, j: nat)
    requires c.Valid() && c.end && s.eof && j > 0 && s.pos == Offset(c, j)
    ensures Sent(c, s) == (Packet(s.srcId % 0x1_0000, Chunk(c, j)),
                           s.(pos := if j < LapLength(c) then Offset(c, j + 1) else 0))
  {
    FullChunk(c, j);
    SentData(c, s);
    hide Offset, FileBytes;
  }

  lemma {:induction false} EofLaps(c: Config, s: Tx, j: nat, i: nat)
    requires c.Valid() && c.end && s.eof && j > 0 && s.pos == Offset(c, j)
    ensures Nth(c, s, i) == Packet(s.srcId % 0x1_0000, Chunk(c, Lap(c, j, i)))
    decreases i
  {
    EofStep(c, s, j);
    if i > 0 {
      assert Offset(c, 1) == 0;
      hide Offset, Sent;
      EofLaps(c, Sent(c, s).1, if j < LapLength(c) then j + 1 else 1, i - 1);
    }
  }

  lemma MeetsTheEnd(c: Config, s: Tx)
    requires c.Valid() && c.end && !s.eof && s.srcId > 0 && s.pos == Offset(c, s.srcId)
    requires s.pos + c.chunk > |c.file|
    ensures Sent(c, s) == (Packet(s.srcId % 0x1_0000, Chunk(c, s.srcId)), Tx(0, true, s.srcId))
  {
    FullChunk(c, s.srcId);
    SendsChunk(c, s);
    hide Offset, FileBytes, Sent;
  }

  lemma EofLapsFromFirst(c: Config, s: Tx, i: nat)
    requires c.Valid() && c.end && s.eof && s.pos == 0
    ensures Nth(c, s, i) == Packet(s.srcId % 0x1_0000, Chunk(c, Around(c, i)))
  {
    assert Offset(c, 1) == 0;
    hide Chunk, Around, Lap, LapLength;
    EofLaps(c, s, 1, i);
    LapIsModular(c, 1, i);
  }

  /** From the packet on that meets the end, all have its id; the first of them is right,
      the others carry the file from its first chunk on, over and over. */
  lemma {:induction false} PastTheEnd(c: Config, s: Tx, i: nat)
    requires c.Valid() && c.end && !s.eof && s.srcId > 0 && s.pos == Offset(c, s.srcId)
    requires s.pos + c.chunk > |c.file|
    ensures Nth(c, s, 0) == Packet(s.srcId % 0x1_0000, Chunk(c, s.srcId))
    ensures Nth(c, s, i + 1) == Packet(s.srcId % 0x1_0000, Chunk(c, Around(c, i)))
  {
    hide Chunk, Sent, Lap, Around, Offset;
    MeetsTheEnd(c, s);
    EofLapsFromFirst(c, Tx(0, true, s.srcId), i);
  }

  /** A restart past the end moves the position, but the id does not count any more: the
      packets after it all have id n, and carry chunks n, n + 1 and so on. So the first
      one is right, and another exactly if its chunk repeats chunk n. */
  lemma {:induction false} RestartPastTheEnd(c: Config, s: Tx, n: Word16, i: nat)
    requires c.Valid() && c.end && s.eof && n > 0
    ensures Nth(c, Restarted(c, s, n), i) == Packet(n, Chunk(c, Lap(c, n, i)))
    ensures Right(c, Nth(c, Restarted(c, s, n), i)) <==> Chunk(c, Lap(c, n, i)) == Chunk(c, n)
  {
    SeekIsExact(c, n);
    hide Chunk;
    EofLaps(c, Restarted(c, s, n), n, i);
  }

  // --- without --end -------------------------------------------------------------------------------------

  /** The chunks of a file that is not empty, a short last one included. */
  function FileChunks(c: Config): (n: nat)
    requires c.chunk > 0 && |c.file| > 0
    ensures n > 0
  {
    (|c.file| - 1) / c.chunk + 1
  }

  lemma LastChunk(c: Config, k: nat)
    requires c.Valid() && |c.file| > 0 && k > 0
    ensures Offset(c, k) < |c.file| <==> k <= FileChunks(c)
    ensures Offset(c, k) + c.chunk == Offset(c, k + 1)
  {
    var q: nat, size: nat := (|c.file| - 1) / c.chunk, |c.file| - 1;
    DivModFact(size, c.chunk);
    MulCommute(q, c.chunk);
    OffsetStep(c, k);
    if k <= q + 1 {
      MulMonotone(k - 1, q, c.chunk);
    } else {
      MulMonotone(q + 1, k - 1, c.chunk);
      MulDistrib(q, 1, c.chunk);
    }
  }

  /** The next chunk read is chunk k: the position is its offset or, for the first, also
      the end of the file. */
  predicate NextIs(c: Config, s: Tx, k: nat)
    requires k > 0
  {
    !s.eof && (s.pos == Offset(c, k) || (k == 1 && s.pos == |c.file|))
  }

  function ChunkAfter(c: Config, k: nat): (r: nat)
    requires c.chunk > 0 && |c.file| > 0
    ensures r > 0
  {
    if k < FileChunks(c) then k + 1 else 1
  }

  /** Where the sender stands after a packet without --end. */
  lemma StandsAfter(c: Config, s: Tx, k: nat)
    requires c.Valid() && !c.end && 0 < k <= FileChunks(c) && NextIs(c, s, k)
    ensures Sent(c, s).1.srcId == s.srcId + 1 && NextIs(c, Sent(c, s).1, ChunkAfter(c, k))
  {
    LastChunk(c, k);
    LastChunk(c, k + 1);
    assert Offset(c, 1) == 0;
    hide Offset, FileChunks;
  }

  lemma WrapsAround(c: Config, s: Tx, k: nat)
    requires c.Valid() && !c.end && 0 < k <= FileChunks(c) && NextIs(c, s, k)
    ensures Sent(c, s).0 == Packet(s.srcId % 0x1_0000, Chunk(c, k))
    ensures Sent(c, s).1.srcId == s.srcId + 1 && NextIs(c, Sent(c, s).1, ChunkAfter(c, k))
  {
    StandsAfter(c, s, k);
    SentData(c, s);
    LastChunk(c, k);
    assert Offset(c, 1) == 0;
    hide Offset, FileBytes, Sent, FileChunks;
  }

  /** Chunk k and i more on, in a file of n chunks that starts again. */
  lemma NextTurn(n: nat, k: nat, i: nat)
    requires 0 < k <= n && i > 0
    ensures var k' := if k < n then k + 1 else 1; 1 + (k - 1 + i) % n == 1 + (k' - 1 + (i - 1)) % n
  {
    if k == n {
      ModAddMultiple(i - 1, n, 1);
      assert k - 1 + i == i - 1 + 1 * n;
    }
  }

  lemma {:induction false} RepeatsFrom(c: Config, s: Tx, k: nat, i: nat)
    requires c.Valid() && !c.end && 0 < k <= FileChunks(c) && NextIs(c, s, k)
    ensures Nth(c, s, i) == Packet((s.srcId + i) % 0x1_0000, Chunk(c, 1 + (k - 1 + i) % FileChunks(c)))
    decreases i
  {
    var n := FileChunks(c);
    WrapsAround(c, s, k);
    hide Sent, NextIs, Chunk, FileChunks;
    if i == 0 {
      DivModUnique(k - 1, n, 0, k - 1);
    } else {
      NextTurn(n, k, i);
      RepeatsFrom(c, Sent(c, s).1, ChunkAfter(c, k), i - 1);
    }
  }

  /** Without --end the file is sent over and over, a short last chunk filled with zeroes,
      and the ids count on: packet i carries chunk 1 + i mod n of a file of n chunks. */
  lemma {:induction false} RepeatsFile(c: Config, i: nat)
    requires c.Valid() && !c.end
    ensures Nth(c, Tx(0, false, 1), i) == Packet((1 + i) % 0x1_0000, Chunk(c, 1 + i % FileChunks(c)))
  {
    assert Offset(c, 1) == 0;
    RepeatsFrom(c, Tx(0, false, 1), 1, i);
  }

  // --- a run that ends with the wrong file -----------------------------------------------------------------

  lemma EndsWith(c: Config, w: World, e: Event)
    requires c.Valid()
    ensures After(c, w, [e]) == Next(c, w, e) && IsRun(c, w, [e]) == Enabled(w, e)
  {
    assert [e][1..] == [];
  }

  /** Three chunks of one byte, with --end. */
  const THREE_BYTES := Config([1, 2, 3], 1, true)

  lemma SendsByte(s: Tx)
    ensures Sent(THREE_BYTES, s) ==
            if s.pos < 3 then (Packet(s.srcId % 0x1_0000, [THREE_BYTES.file[s.pos]]),
                               Tx(s.pos + 1, s.eof, if s.eof then s.srcId else s.srcId + 1))
            else (Packet(s.srcId % 0x1_0000, [0]), Tx(0, true, s.srcId))
  {
    assert s.pos < 3 ==> Read(THREE_BYTES, s.pos) == [THREE_BYTES.file[s.pos]];
    assert Padded(THREE_BYTES, []) == [0];
  }

  /** The whole file is sent; packets 1 and 3 arrive, and packet 2 is asked for. */
  lemma AllSentOneLost(es: seq<Event>) returns (run: seq<Event>)
    ensures var ps := {Packet(1, [1]), Packet(2, [2]), Packet(3, [3]), Packet(4, [0])};
            var w := World(Tx(0, true, 4), Rx(2, [1]), ps, {2});
            && After(THREE_BYTES, Start(), run) == After(THREE_BYTES, w, es)
            && IsRun(THREE_BYTES, Start(), run) == IsRun(THREE_BYTES, w, es)
  {
    hide Sent, After, IsRun;
    var c := THREE_BYTES;
    var p1, p2, p3, p4 := Packet(1, [1]), Packet(2, [2]), Packet(3, [3]), Packet(4, [0]);
    var w1 := World(Tx(1, false, 2), Rx(1, []), {p1}, {});
    var w2 := World(Tx(2, false, 3), Rx(1, []), {p1, p2}, {});
    var w3 := World(Tx(3, false, 4), Rx(1, []), {p1, p2, p3}, {});
    var w4 := World(Tx(0, true, 4), Rx(1, []), {p1, p2, p3, p4}, {});
    var w5 := w4.(rx := Rx(2, [1]));
    SendsByte(Start().tx);
    SendsByte(w1.tx);
    SendsByte(w2.tx);
    SendsByte(w3.tx);
    assert [] + p1.data == [1];
    assert Next(c, Start(), Send) == w1 && Next(c, w1, Send) == w2 && Next(c, w2, Send) == w3;
    assert Next(c, w3, Send) == w4 && Next(c, w4, Arrive(p1)) == w5;
    assert Next(c, w5, Arrive(p3)) == w5.(restarts := {2});
    run := [Arrive(p3)] + es;
    Follow(c, w5, Arrive(p3), es);
    Follow(c, w4, Arrive(p1), run);
    run := [Arrive(p1)] + run;
    Follow(c, w3, Send, run);
    run := [Send] + run;
    Follow(c, w2, Send, run);
    run := [Send] + run;
    Follow(c, w1, Send, run);
    run := [Send] + run;
    Follow(c, Start(), Send, run);
    run := [Send] + run;
  }

  /** A run that meets every other assumption and ends with the wrong file: packet 2 is
      lost, and asked for when the end has been met. The restart is answered with chunk 2
      and, under the same id, chunk 3; only the second arrives, and is written as chunk 2. */
  lemma LateLossSpoilsOutput() returns (run: seq<Event>)
    ensures var c, w := THREE_BYTES, After(THREE_BYTES, Start(), run);
            && c.Valid() && FitsIds(c) && IsRun(c, Start(), run) && NoWrap(w.data)
            && w.rx == Rx(3, [1, 3]) && ChunksBefore(c, 3) == [1, 2] && !OutputRight(c, w.rx)
  {
    var c := THREE_BYTES;
    var p1, p2, p3, p4, q := Packet(1, [1]), Packet(2, [2]), Packet(3, [3]), Packet(4, [0]), Packet(2, [3]);
    var ps := {p1, p2, p3, p4};
    var w6 := World(Tx(0, true, 4), Rx(2, [1]), ps, {2});
    var w7 := w6.(tx := Tx(1, true, 2));
    var w8 := w6.(tx := Tx(2, true, 2));
    var w9 := World(Tx(3, true, 2), Rx(2, [1]), ps + {q}, {2});
    SendsByte(w7.tx);
    SendsByte(w8.tx);
    hide Sent, After, IsRun;
    assert [1] + q.data == [1, 3];
    assert Next(c, w6, Restart(2)) == w7 && Next(c, w7, Send) == w8 && Next(c, w8, Send) == w9;
    EndsWith(c, w9, Arrive(q));
    Follow(c, w8, Send, [Arrive(q)]);
    Follow(c, w7, Send, [Send] + [Arrive(q)]);
    Follow(c, w6, Restart(2), [Send] + ([Send] + [Arrive(q)]));
    run := AllSentOneLost([Restart(2)] + ([Send] + ([Send] + [Arrive(q)])));
  }
}
