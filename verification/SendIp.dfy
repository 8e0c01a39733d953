// The IPv4 datagrams of src/sendip.c and the fragmentation of src/sendip_handler.c.
module SendIp {
  import opened Checksum

  const IPHDR_SIZE: nat := 20
  const MF: Word16 := 0x2000
  const DF: Word16 := 0x4000

  /** The fields of a datagram that fragmentation and the safe protocol depend on. */
  datatype Datagram = Datagram(
    ihl: nat, totLen: Word16, id: Word16, fragOff: Word16, options: seq<Byte>, data: seq<Byte>)
  {
    /** Section 3.1 of RFC 791: the low thirteen bits count units of eight bytes. */
    function Offset(): nat {
      fragOff % 0x2000 * 8
    }

    predicate MoreFragments() {
      fragOff / 0x2000 % 2 == 1
    }
  }

  /** One fragment of a payload: its place, and whether more follow. */
  datatype Piece = Piece(offset: nat, more: bool, data: seq<Byte>)

  /** The loop of send_ip_handler: pieces of vmtu bytes, then what remains. */
  function Pieces(payload: seq<Byte>, vmtu: nat, off: nat): (ps: seq<Piece>)
    requires off <= |payload| && (vmtu > 0 || payload == [])
    ensures |ps| > 0
    decreases |payload| - off
  {
    if |payload| - off <= vmtu then [Piece(off, false, payload[off..])]
    else [Piece(off, true, payload[off..off + vmtu])] + Pieces(payload, vmtu, off + vmtu)
  }

  /** What send_ip puts on the wire: header length and total length in their fields'
      widths, and an offset that counts eight-byte units. */
  function Built(id: Word16, flags: Word16, fragOff: nat, options: seq<Byte>, data: seq<Byte>): (d: Datagram)
    requires flags % 0x2000 == 0
  {
    Datagram((IPHDR_SIZE + |options| + 3) / 4 % 16, (IPHDR_SIZE + |options| + |data|) % 0x1_0000, id,
             flags + fragOff % 0x1_0000 / 8, options, data)
  }

  /** What the header of a datagram sent in one piece says: length and header length, bit 14
      for "do not fragment", bit 13 for "more fragments", and the offset in units of eight
      bytes. */
  lemma HeaderSays(id: Word16, mf: bool, df: bool, fragOff: Word16, options: seq<Byte>, data: seq<Byte>)
    ensures var d := Built(id, (if mf then MF else 0) + (if df then DF else 0), fragOff, options, data);
            && d.fragOff / 0x4000 == (if df then 1 else 0) && d.fragOff / 0x2000 % 2 == (if mf then 1 else 0)
            && d.fragOff % 0x2000 == fragOff / 8
            && (d.MoreFragments() <==> mf) && d.Offset() == fragOff / 8 * 8
            && (20 + |options| + |data| < 65536 ==> d.totLen == 20 + |options| + |data|)
            && (|options| <= 40 && |options| % 4 == 0 ==> 4 * d.ihl == 20 + |options|)
            && d.id == id && d.options == options && d.data == data
  {
  }

  /** The configuration send_ip reads and changes, and the datagrams it has sent. */
  class Host {
    var srcId: int          // cfg.src_id; -1 asks for random ids
    var fragment: bool
    var mf: bool
    var df: bool
    var virtualMtu: nat
    const safe: bool
    var eofReached: bool
    const pid: nat
    const fragOffset: Word16  // cfg.ip_frag_offset
    const mtu: nat            // ctx.h_if_mtu
    var wire: seq<Datagram>

    constructor (srcId: int, safe: bool, pid: nat, fragOffset: Word16, mtu: nat, virtualMtu: nat)
      ensures this.srcId == srcId && this.safe == safe && this.pid == pid && this.fragOffset == fragOffset
      ensures this.mtu == mtu && this.virtualMtu == virtualMtu && wire == [] && !fragment && !mf && !df && !eofReached
    {
      this.srcId, this.safe, this.pid, this.fragOffset, this.mtu := srcId, safe, pid, fragOffset, mtu;
      this.virtualMtu, wire, fragment, mf, df, eofReached := virtualMtu, [], false, false, false, false;
    }

    /** The id field: random when asked for, but one value for a process that fragments. */
    function NextId(random: Word16): Word16
      reads this
    {
      if srcId != -1 then srcId % 0x1_0000 else if fragment then pid % 256 else random
    }

    /** The safe protocol numbers its datagrams until the end of the file. */
    predicate Counts()
      reads this
    {
      safe && !eofReached
    }

    /** send_ip */
    method Send(data: seq<Byte>, flags: Word16, fragOff: nat, options: seq<Byte>, random: Word16)
      requires flags % 0x2000 == 0
      modifies this`wire, this`srcId
      ensures wire == old(wire) + [Built(old(NextId(random)), flags, fragOff, options, data)]
      ensures srcId == old(srcId) + if safe && !eofReached then 1 else 0
    {
      var d := Built(NextId(random), flags, fragOff, options, data);
      wire := wire + [d];
      if safe && !eofReached {
        srcId := srcId + 1;
      }
    }
  }
}
