// The Internet checksum of src/ars.c, in one buffer and in chunks (RFC 1071).
module Checksum {
  import opened Arith

  type Byte = x: int | 0 <= x < 256

  /** The order in which the host keeps the two bytes of a word. */
  datatype Order = LittleEndian | BigEndian

  /** A u_int32_t accumulator. */
  type Acc = x: int | 0 <= x < 0x1_0000_0000

  /** A u_int16_t. */
  type Word16 = x: int | 0 <= x < 0x1_0000

  const WRAP: nat := 0x1_0000_0000
  const MAX_CKSUM_BYTES: nat := 131074

  /** The word that bytes a, b form when fetched from memory. */
  function FetchWord(o: Order, a: Byte, b: Byte): (w: Word16) {
    if o == LittleEndian then a + 256 * b else 256 * a + b
  }

  /** The sum of the words of s; an odd last byte is padded with a zero after it. */
  function WordSum(o: Order, s: seq<Byte>): nat {
    if |s| == 0 then 0
    else if |s| == 1 then FetchWord(o, s[0], 0)
    else FetchWord(o, s[0], s[1]) + WordSum(o, s[2..])
  }

  /** What a u_int32_t keeps of n. */
  function Wrapped(n: nat): Acc {
    n % WRAP
  }

  /** The two carry folds and the complement. */
  function Fold(sum: Acc): (r: Word16) {
    var once := sum / 0x1_0000 + sum % 0x1_0000;
    var twice := once + once / 0x1_0000;
    0xFFFF - twice % 0x1_0000
  }

  /** ars_cksum as a function of the bytes. */
  function Cksum(o: Order, s: seq<Byte>): Word16 {
    Fold(Wrapped(WordSum(o, s)))
  }

  /** Words may be split off an even prefix. */
  lemma {:induction false} WordSumConcat(o: Order, s: seq<Byte>, t: seq<Byte>)
    requires |s| % 2 == 0
    ensures WordSum(o, s + t) == WordSum(o, s) + WordSum(o, t)
  {
    if |s| == 0 {
      assert s + t == t;
    } else {
      assert (s + t)[2..] == s[2..] + t;
      WordSumConcat(o, s[2..], t);
    }
  }

  /** `sum += w` in 32 bits. */
  function AddWrapped(sum: Acc, w: Word16): (r: Acc) {
    Wrapped(sum + w)
  }

  /** Wrapping at every addition wraps the sum. */
  lemma WrapAdd(a: nat, w: Word16)
    ensures AddWrapped(Wrapped(a), w) == Wrapped(a + w)
  {
    DivModFact(a, WRAP);
    ModAddMultiple(a % WRAP + w, WRAP, a / WRAP);
  }

  lemma SmallSums(o: Order, a: Byte, b: Byte)
    ensures WordSum(o, [a, b]) == FetchWord(o, a, b) && WordSum(o, [a]) == FetchWord(o, a, 0)
  {
    assert [a, b][2..] == [];
  }

  lemma NextWord(o: Order, s: seq<Byte>, a: Byte, b: Byte)
    requires |s| % 2 == 0
    ensures Wrapped(WordSum(o, s + [a, b])) == AddWrapped(Wrapped(WordSum(o, s)), FetchWord(o, a, b))
  {
    hide AddWrapped, Wrapped, WordSum, FetchWord;
    WordSumConcat(o, s, [a, b]);
    SmallSums(o, a, b);
    WrapAdd(WordSum(o, s), FetchWord(o, a, b));
  }

  lemma LastByte(o: Order, s: seq<Byte>, a: Byte)
    requires |s| % 2 == 0
    ensures Wrapped(WordSum(o, s + [a])) == AddWrapped(Wrapped(WordSum(o, s)), FetchWord(o, a, 0))
  {
    hide AddWrapped, Wrapped, WordSum, FetchWord;
    WordSumConcat(o, s, [a]);
    SmallSums(o, a, 0);
    WrapAdd(WordSum(o, s), FetchWord(o, a, 0));
  }

  /** ars_cksum */
  method ArsCksum(o: Order, buf: seq<Byte>) returns (r: Word16)
    ensures r == Cksum(o, buf)
  {
    var sum: Acc := 0;
    var p := 0;
    assert buf[..0] == [];
    while |buf| - p > 1
      invariant 0 <= p <= |buf| && p % 2 == 0
      invariant sum == Wrapped(WordSum(o, buf[..p]))
    {
      var w := FetchWord(o, buf[p], buf[p + 1]);
      assert buf[..p + 2] == buf[..p] + [buf[p], buf[p + 1]];
      NextWord(o, buf[..p], buf[p], buf[p + 1]);
      sum := AddWrapped(sum, w);
      p := p + 2;
    }
    if |buf| - p == 1 {
      assert buf == buf[..p] + [buf[p]];
      LastByte(o, buf[..p], buf[p]);
      sum := AddWrapped(sum, FetchWord(o, buf[p], 0));
    } else {
      assert buf[..p] == buf;
    }
    r := Fold(sum);
  }

  // --- feeding the bytes in chunks -----------------------------------------------

  /** struct mc_context, with the bytes fed so far. */
  class McContext {
    const order: Order
    var oddbyteFlag: bool
    var oddbyte: Byte
    var sum: Acc
    ghost var fed: seq<Byte>

    /** The context holds the sum of the whole words fed, and the odd byte. */
    ghost predicate Valid()
      reads this
    {
      var even := |fed| - |fed| % 2;
      && oddbyteFlag == (|fed| % 2 == 1)
      && (oddbyteFlag ==> oddbyte == fed[|fed| - 1])
      && sum == Wrapped(WordSum(order, fed[..even]))
    }

    /** ARS_MC_INIT */
    constructor (o: Order)
      ensures Valid() && fed == [] && order == o
    {
      order := o;
      oddbyteFlag, oddbyte, sum := false, 0, 0;
      fed := [];
    }

    /** The byte left over by the previous chunk meets the first one of this. */
    method PairOddByte(b: Byte)
      requires Valid() && oddbyteFlag
      modifies this
      ensures Valid() && !oddbyteFlag && fed == old(fed) + [b]
    {
      ghost var even := |fed| - 1;
      assert fed[..even] + [oddbyte, b] == fed + [b];
      NextWord(order, fed[..even], oddbyte, b);
      sum := AddWrapped(sum, FetchWord(order, oddbyte, b));
      oddbyteFlag := false;
      fed := fed + [b];
      assert fed[..|fed|] == fed;
    }

    /** `sum += w` for a whole word. */
    method AddWord(a: Byte, b: Byte)
      requires Valid() && !oddbyteFlag
      modifies this
      ensures Valid() && !oddbyteFlag && fed == old(fed) + [a, b]
    {
      assert fed[..|fed|] == fed;
      NextWord(order, fed, a, b);
      sum := AddWrapped(sum, FetchWord(order, a, b));
      fed := fed + [a, b];
      assert fed[..|fed|] == fed;
    }

    /** The word loop of ARS_MC_UPDATE and the odd byte it leaves. */
    method FeedWords(buf: seq<Byte>)
      requires Valid() && (oddbyteFlag ==> |buf| == 0)
      modifies this
      ensures Valid() && fed == old(fed) + buf
    {
      ghost var start := fed;
      assert start + buf[..0] == start;
      var p := 0;
      while |buf| - p > 1
        invariant 0 <= p <= |buf| && Valid() && fed == start + buf[..p]
        invariant oddbyteFlag ==> |buf| == 0
      {
        AddWord(buf[p], buf[p + 1]);
        assert start + buf[..p] + [buf[p], buf[p + 1]] == start + buf[..p + 2];
        p := p + 2;
      }
      if |buf| - p == 1 {
        assert start + buf == (start + buf[..p]) + [buf[p]];
        ghost var even := fed;
        oddbyte := buf[p];
        oddbyteFlag := true;
        fed := fed + [buf[p]];
        assert fed[..|fed| - 1] == even && even[..|even|] == even;
      } else {
        assert buf[..p] == buf;
      }
    }

    /** ARS_MC_UPDATE */
    method Update(buf: seq<Byte>)
      requires Valid()
      modifies this
      ensures Valid() && fed == old(fed) + buf
    {
      var p := 0;
      if oddbyteFlag && |buf| > 0 {
        PairOddByte(buf[0]);
        p := 1;
      }
      FeedWords(buf[p..]);
      assert old(fed) + buf == old(fed) + buf[..p] + buf[p..];
    }

    /** ARS_MC_FINAL: the checksum of everything fed, however it was cut. */
    method Final() returns (r: Word16)
      requires Valid()
      ensures r == Cksum(order, fed)
    {
      var s := sum;
      ghost var even := |fed| - |fed| % 2;
      if oddbyteFlag {
        assert fed == fed[..even] + [oddbyte];
        LastByte(order, fed[..even], oddbyte);
        s := AddWrapped(s, FetchWord(order, oddbyte, 0));
      } else {
        assert fed[..even] == fed;
      }
      r := Fold(s);
    }
  }

  function Flatten(chunks: seq<seq<Byte>>): seq<Byte> {
    if |chunks| == 0 then [] else chunks[0] + Flatten(chunks[1..])
  }

  lemma {:induction false} FlattenSnoc(chunks: seq<seq<Byte>>, c: seq<Byte>)
    ensures Flatten(chunks + [c]) == Flatten(chunks) + c
  {
    if |chunks| == 0 {
      assert chunks + [c] == [c] && [c][1..] == [];
      assert Flatten([c]) == c + Flatten([]);
    } else {
      assert (chunks + [c])[1..] == chunks[1..] + [c];
      FlattenSnoc(chunks[1..], c);
    }
  }

  /** The way every compiler sums: init, one update a buffer, final. The result does
      not depend on where the bytes are cut, odd and empty chunks included. */
  method MultiCksum(o: Order, chunks: seq<seq<Byte>>) returns (r: Word16)
    ensures r == Cksum(o, Flatten(chunks))
  {
    var mc := new McContext(o);
    var j := 0;
    while j < |chunks|
      invariant 0 <= j <= |chunks| && mc.Valid() && mc.order == o
      invariant mc.fed == Flatten(chunks[..j])
    {
      mc.Update(chunks[j]);
      assert chunks[..j + 1] == chunks[..j] + [chunks[j]];
      FlattenSnoc(chunks[..j], chunks[j]);
      j := j + 1;
    }
    assert chunks[..j] == chunks;
    r := mc.Final();
  }

  // --- what the sum means -----------------------------------------------------------

  /** Up to 131074 bytes the 32-bit accumulator cannot wrap. */
  lemma {:induction false} SumFits(o: Order, s: seq<Byte>)
    ensures WordSum(o, s) <= 0xFFFF * ((|s| + 1) / 2)
    ensures |s| <= MAX_CKSUM_BYTES ==> WordSum(o, s) < WRAP
  {
    if |s| > 1 {
      SumFits(o, s[2..]);
    }
  }

  /** r is the one's complement sum that n folds to. */
  ghost predicate FoldsTo(n: nat, r: nat) {
    r <= 0xFFFF && r % 0xFFFF == n % 0xFFFF && (r == 0 <==> n == 0)
  }

  lemma FoldsToUnique(n: nat, r: nat, r': nat)
    requires FoldsTo(n, r) && FoldsTo(n, r')
    ensures r == r'
  {
  }

  lemma FoldOnceMore(once: nat)
    requires once <= 0x1_FFFE
    ensures var r := (once + once / 0x1_0000) % 0x1_0000;
            r % 0xFFFF == once % 0xFFFF && (r == 0 <==> once == 0)
  {
    if once >= 0x1_0000 {
      ModAddMultiple(once - 0xFFFF, 0xFFFF, 1);
    }
  }

  /** Two folds are enough for every 32-bit sum. */
  lemma TwoFoldsSuffice(sum: Acc)
    ensures FoldsTo(sum, 0xFFFF - Fold(sum))
  {
    var hi, lo := sum / 0x1_0000, sum % 0x1_0000;
    var once := hi + lo;
    assert sum == hi * 0xFFFF + once;
    ModAddMultiple(once, 0xFFFF, hi);
    FoldOnceMore(once);
  }

  /** The two bytes of a word exchanged. */
  function SwapBytes(w: Word16): (r: Word16) {
    (w % 256) * 256 + w / 256
  }

  lemma SwapFolds(n: nat, r: Word16)
    requires FoldsTo(n, r)
    ensures FoldsTo(256 * n, SwapBytes(r))
  {
    var hi, lo := r / 256, r % 256;
    assert 256 * r == SwapBytes(r) + hi * 0xFFFF;
    ModAddMultiple(SwapBytes(r), 0xFFFF, hi);
    ModMul(r, 256, 0xFFFF);
    ModMul(n, 256, 0xFFFF);
  }

  /** One word of either sum. */
  lemma SwappedWord(a: nat, b: nat, u: nat, v: nat)
    requires (256 * u) % 0xFFFF == v % 0xFFFF
    ensures (256 * ((256 * a + b) + u)) % 0xFFFF == ((a + 256 * b) + v) % 0xFFFF
  {
    var w := a + 256 * b;
    assert 256 * ((256 * a + b) + u) == (w + 256 * u) + a * 0xFFFF;
    ModAddMultiple(w + 256 * u, 0xFFFF, a);
    DivModFact(256 * u, 0xFFFF);
    DivModFact(v, 0xFFFF);
    var r := v % 0xFFFF;
    ModAddMultiple(w + r, 0xFFFF, (256 * u) / 0xFFFF);
    ModAddMultiple(w + r, 0xFFFF, v / 0xFFFF);
  }

  lemma {:induction false} LittleSumIsSwapped(s: seq<Byte>)
    ensures (256 * WordSum(BigEndian, s)) % 0xFFFF == WordSum(LittleEndian, s) % 0xFFFF
    ensures WordSum(BigEndian, s) == 0 <==> WordSum(LittleEndian, s) == 0
  {
    if |s| == 1 {
      SwappedWord(s[0], 0, 0, 0);
    } else if |s| > 1 {
      LittleSumIsSwapped(s[2..]);
      SwappedWord(s[0], s[1], WordSum(BigEndian, s[2..]), WordSum(LittleEndian, s[2..]));
    }
  }

  /** The complement of the checksum is the one's complement sum of the bytes. */
  lemma CksumFolds(o: Order, s: seq<Byte>)
    requires |s| <= MAX_CKSUM_BYTES
    ensures FoldsTo(WordSum(o, s), 0xFFFF - Cksum(o, s))
  {
    SumFits(o, s);
    DivModUnique(WordSum(o, s), WRAP, 0, WordSum(o, s));
    TwoFoldsSuffice(WordSum(o, s));
  }

  lemma SwapOfComplement(c: Word16)
    ensures SwapBytes(0xFFFF - c) == 0xFFFF - SwapBytes(c)
  {
  }

  lemma SwappedComplement(big: nat, little: nat, c: Word16, d: Word16)
    requires FoldsTo(big, 0xFFFF - c) && FoldsTo(little, 0xFFFF - d)
    requires (256 * big) % 0xFFFF == little % 0xFFFF && (big == 0 <==> little == 0)
    ensures d == SwapBytes(c)
  {
    var r: Word16 := 0xFFFF - c;
    SwapFolds(big, r);
    SwapOfComplement(c);
    hide SwapBytes;
    FoldsToUnique(little, SwapBytes(r), 0xFFFF - d);
  }

  /** Stored in memory the checksum is the same two bytes on either kind of host. */
  lemma HostOrderDoesNotMatter(s: seq<Byte>)
    requires |s| <= MAX_CKSUM_BYTES
    ensures Cksum(LittleEndian, s) == SwapBytes(Cksum(BigEndian, s))
  {
    var big, little := WordSum(BigEndian, s), WordSum(LittleEndian, s);
    CksumFolds(BigEndian, s);
    CksumFolds(LittleEndian, s);
    LittleSumIsSwapped(s);
    SwappedComplement(big, little, Cksum(BigEndian, s), Cksum(LittleEndian, s));
  }

  lemma FieldInSum(head: seq<Byte>, a: Byte, b: Byte, tail: seq<Byte>)
    requires |head| % 2 == 0
    ensures WordSum(BigEndian, head + [a, b] + tail)
         == WordSum(BigEndian, head) + (256 * a + b) + WordSum(BigEndian, tail)
  {
    assert head + [a, b] + tail == head + ([a, b] + tail);
    WordSumConcat(BigEndian, head, [a, b] + tail);
    assert ([a, b] + tail)[2..] == tail;
  }

  lemma ComplementSum(n: nat, c: Word16, d: Word16)
    requires FoldsTo(n, 0xFFFF - c) && FoldsTo(n + c, 0xFFFF - d)
    ensures d == 0
  {
    var k := n / 0xFFFF;
    DivModFact(n, 0xFFFF);
    if c == 0 {
      assert n % 0xFFFF == 0;
    } else {
      assert n + c == 0 + (k + 1) * 0xFFFF;
      ModAddMultiple(0, 0xFFFF, k + 1);
    }
  }

  /** RFC 1071, section 1: with the checksum stored in its zeroed field the whole sums
      to the complement of zero, so a receiver's own checksum is zero. */
  lemma StoredChecksumVerifies(head: seq<Byte>, tail: seq<Byte>)
    requires |head| % 2 == 0 && |head| + 2 + |tail| <= MAX_CKSUM_BYTES
    ensures var c := Cksum(BigEndian, head + [0, 0] + tail);
            Cksum(BigEndian, head + [c / 256, c % 256] + tail) == 0
  {
    var zeroed := head + [0, 0] + tail;
    var c := Cksum(BigEndian, zeroed);
    var stored := head + [c / 256, c % 256] + tail;
    FieldInSum(head, 0, 0, tail);
    FieldInSum(head, c / 256, c % 256, tail);
    CksumFolds(BigEndian, zeroed);
    CksumFolds(BigEndian, stored);
    ComplementSum(WordSum(BigEndian, zeroed), c, Cksum(BigEndian, stored));
  }
}
