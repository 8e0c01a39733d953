# Proofs about the engines of the packet tool

A Dafny 4.11 model of the algorithmic parts of the program. To verify it:

    dafny verify dfyconfig.toml

Where the C code changes things in place, the model does too: a number is an object whose atom array, length and sign
flag the methods overwrite; a packet is an object whose layers the compilers and the dissector replace; the scanner, the
event loop, the sender and the receiver are objects with the fields of the C structures. Each such method is proved
against a function or a relation on values, and the main results are lemmas about those.

## What is modelled

- **Arbitrary-precision integers** (`src/sbignum.c`; files `AtomSeq`, `Mpz*`, `Numeral`, `Divisors`). Little-endian arrays
  of 32-bit atoms, a used length, a sign. Every operation is proved against the integer it stands for, in all the ways
  its operands may overlap; for one overlap of an addition, and for the greatest common divisor, under an assumption about
  memory that the contracts report (see below). `Val` is the number a sequence of atoms denotes; `Valid` is the global
  assumption of the source
  (all atoms from the length on are zero), `Normal` adds that the top used atom is not zero, `Canonical` that zero has no
  sign.
- **The packet engine** (`src/ars.c`, `src/split.c`; files `Checksum`, `Ars*`). Layers, their compilers from the last
  layer to
  the first, the serializer, the dissector, and the theorem that ties them together. What they agree on is also stated by
  itself, byte by byte and with the numbers of the standards: what a compiled packet says on the wire (`ArsWire`), and what
  the dissector says of any bytes, right or wrong (`ArsMarks`, `ArsDamage`).
- **Packet descriptions** (`src/rapd.c`, `src/apd.c`; files `Apd*`). The printer, the tokenizer, the state machine and the
  setters, as text and as bytes; the text, the settings and what compiling fills in are also written out (`ApdText`,
  `ApdSet`, `ApdFill`).
- **The safe file transfer** (`src/datafiller.c`, `src/listen.c`, `src/waitpacket.c`, `src/sendip.c`; file
  `SafeTransfer`), as
  events over a network that loses, repeats and reorders.
- **The port scanner** (`src/scan.c`; file `Scanner`), as steps and replies in any order.
- **Fragmentation** (`src/sendip_handler.c`, `src/sendip.c`; files `SendIp`, `Fragment`).
- **The sending schedule** (`src/lifecycle.c`; file `Schedule`), under any monotone clock.

The clock, random ids, the result of sending and waiting, signals and received packets are parameters. Allocation
succeeds; `realloc` is a new array with the old atoms and zeroes. A number of bytes or atoms is unbounded unless its field
width matters; then it is written out (`% 0x1_0000`, `Word16`, `Acc`).

## What turned out different from the documentation

The model follows the code. These are the places where a caller might expect something else, each with the exact
condition proved; for the first two the result rests on an assumption, and what is proved is exactly when it is made:

- `mpz_gcd_raw` halves zero in its last turn, always (`MpzGcd.GcdRaw`), and the macro that halves looks at atom `l - 1` of
  a number of length 0, outside its array (`src/sbignum.c:546-558`, used in line 1595). The model assumes that it finds an
  atom that is not zero there, so that the length stays 0; no result about the greatest common divisor of two positive
  numbers holds without that. The assumption is made in `MpzGcd.HalveAssumingZero` and counted in the contracts above it.
  All other uses of the macro are proved to halve a number that is not zero.
- `mpz_addi_raw` may replace the block of its first operand by a longer one before it reads the second
  (`src/sbignum.c:672-712`). When a number that fills its block is added to itself into another number, it reads the block
  that was released (`MpzAddSub.AddRaw`, `MpzAddSub.Add`), as for t = s + s after s = (2^32 - 1) + 1
  (`MpzAddSub.DoublingReadsReleasedBlock`). The sum is then proved for a block that still holds its atoms. No other
  operation makes use of that: each of the other callers is proved not to.
- `mpz_set(z, z)` clears `z`, and with it `mpz_gcd` of a number with zero stored over that number, and the remainder of a
  smaller dividend stored over itself (`MpzCore.Mpz.Set`, `MpzGcd.GcdWithZero`, `MpzDiv.TdivQr`).
- The quotient of opposite numbers is +1 (`MpzDiv.QuotientIsTruncatedIff`).
- The remainder of a negative number loses its sign when the bits the number begins with are a multiple of the divisor:
  -5 by 2 leaves +1 (`MpzDiv.RemainderIsTruncatedIff`), and -5 modulo 2 is 3 (`MpzDiv.ModIsRightIff`,
  `MpzDiv.MinusFiveByTwo`).
- `mpz_pow` and `mpz_powm` start from one multiplication too many when the exponent is zero (`MpzPow.PowIsRightIff`,
  `MpzPow.PowmIsRightIff`), and a negative power modulo m may lose its sign as above.
- A fragment size that is not a multiple of eight makes fragments overlap, and the safe protocol gives every fragment an id
  of its own (`Fragment.ReassemblesIff`). Automatic fragmentation forgets the IP options (`Fragment.AutomaticObeysIff`). The
  handler does not come back when it fragments a packet that is not empty by a size of zero, which automatic
  fragmentation does exactly for an interface MTU from 20 to 27 (`Fragment.ComesBackIff`).
- A TCP header without flags, no data, and more than 5999 bytes of data print a description that does not build
  (`ApdRoundTrip.DescribeThenBuild`).
- Past the end of the file the safe sender still takes restarts, but does not count its id any more. So it repeats its last
  id with the file from the first chunk on (`SafeTransfer.PastTheEnd`), and answers a restart to n with chunk n, chunk
  n + 1 and so on, all under id n (`SafeTransfer.RestartPastTheEnd`). A packet that is lost before the end and asked for
  after it can make the receiver write a wrong chunk (`SafeTransfer.LateLossSpoilsOutput`; the exact conditions for any run
  are in `SafeTransfer.AnyRunIsRightIff`).

## Model

| member | source | states |
|---|---|---|
| `AtomSeq.TrimmedUnique` | src/sbignum.c:220-222 | A number has one representation without leading zero atoms, so equality of numbers is equality of atoms. |
| `AtomSeq.TopAtomDecides` | src/sbignum.c:587-619 | Of two sequences equal above an atom, the order of that atom decides, whatever stands below. |
| `MpzCore.Mpz.Realloc` | src/sbignum.c:202-218 | Keeps every atom, and the new ones are zero, so the number does not change and the global assumption holds. |
| `MpzCore.Mpz.Normalize` | src/sbignum.c:223-238 | Gives the canonical form of the same magnitude; a zero loses its sign. |
| `MpzCore.Mpz.Set` | src/sbignum.c:1427-1437 | Copies magnitude, length and sign of another number, and clears a number assigned to itself. |
| `MpzCore.CmpAbs` | src/sbignum.c:607-619 | The sign of the difference of the magnitudes, both ways. |
| `MpzBits.BitOfVal` | src/sbignum.c:403-411 | The bit tested in one atom is the bit of the whole number. |
| `MpzBits.TestBit` | src/sbignum.c:403-411 | Bit i of the number, zero beyond its length. |
| `MpzBits.Bits` | src/sbignum.c:328-337 | n bits means 2^(n-1) <= the magnitude < 2^n, for a number that is not zero. |
| `MpzBits.SetClearBit` | src/sbignum.c:363-368 | Setting a clear bit of an atom in range adds exactly 2^i. |
| `MpzBits.ClearSetBit` | src/sbignum.c:393-398 | Clearing a set bit of an atom in range subtracts exactly 2^i. |
| `MpzBits.ShiftLeft1` | src/sbignum.c:489-514 | Shifting in a bit gives twice the number plus the bit, with no more than one atom of growth. |
| `MpzBits.ShiftRight1` | src/sbignum.c:546-558 | Halves a number that has an atom, rounding down. |
| `MpzAddSub.AddRaw` | src/sbignum.c:672-712 | The exact sum of the magnitudes in normal form, also when the result is an operand or holds the atoms added; under the assumption about a released block exactly when the atoms added are the full block of the first operand and the result is another number. |
| `MpzAddSub.SubRaw` | src/sbignum.c:779-818 | The exact difference of magnitudes that are in order, under the same overlaps; a zero result loses its sign. |
| `MpzAddSub.Add` | src/sbignum.c:740-774 | Signed integer addition in canonical form, for every overlap of result and operands; under that assumption exactly when a number that fills its block is added to itself into another one. |
| `MpzAddSub.DoublingReadsReleasedBlock` | src/sbignum.c:672-712 | Such a number comes out of (2^32 - 1) + 1, so that doubling it needs the assumption. |
| `MpzAddSub.Sub` | src/sbignum.c:822-856 | Signed integer subtraction in canonical form, for every overlap. |
| `MpzMul.AccumulatorFits` | src/sbignum.c:886-948 | The inner accumulator never exceeds 2^64 - 1. |
| `MpzMul.MulRow` | src/sbignum.c:886-948 | One row adds z * d[j] * 2^(32j) to the result; the carry cell it writes was still zero. |
| `MpzMul.MulRaw` | src/sbignum.c:886-948 | The exact product of the magnitudes and its sign, under every aliasing of result and operands. |
| `MpzMul.Mul` | src/sbignum.c:951-955 | Signed integer multiplication in canonical form. |
| `MpzMul.MulUi` | src/sbignum.c:959-964 | Multiplication by one atom. |
| `MpzDiv.DivStep` | src/sbignum.c:1170-1189 | One bit of long division: the partial remainder stays below the divisor and in as many atoms as it has, and the sign flag goes exactly with a subtraction down to zero. |
| `MpzDiv.QuotientBitFits` | src/sbignum.c:1170-1189 | Every quotient bit set lands inside the atoms allocated for the quotient. |
| `MpzDiv.DivQrRaw` | src/sbignum.c:1170-1189 | z = q * d + r with 0 <= r < d on magnitudes, for z >= d > 0; the remainder keeps its sign flag exactly when no leading part of z is a multiple of d. |
| `MpzDiv.DivRRaw` | src/sbignum.c:1192-1208 | The same remainder, with the same sign, without the quotient. |
| `MpzDiv.NextSign` | src/sbignum.c:1170-1189 | A turn takes the sign exactly when what has been brought down becomes a multiple of the divisor for the first time. |
| `MpzDiv.QuotRemIsDivMod` | src/sbignum.c:1170-1189 | The relation the division methods establish determines quotient and remainder. |
| `MpzDiv.TdivQr` | src/sbignum.c:1221-1259 | Quotient and remainder of the magnitudes with the signs of both, the error for a zero divisor, and the one overlap that loses the remainder. |
| `MpzDiv.QuotientIsTruncatedIff` | src/sbignum.c:1235-1258 | The signed quotient is the one rounded toward zero exactly when the operands are not opposite. |
| `MpzDiv.TdivR` | src/sbignum.c:1284-1312 | The remainder of the magnitudes with its sign, and its error case. |
| `MpzDiv.RemainderIsTruncatedIff` | src/sbignum.c:1284-1312 | The signed remainder is that of the rounded quotient exactly when the dividend is not negative, or divides, or no leading part of it is a multiple of the divisor. |
| `MpzDiv.Mod` | src/sbignum.c:1395-1413 | What reduction leaves of every number, for every overlap, with its error case. |
| `MpzDiv.ModIsRightIff` | src/sbignum.c:1395-1413 | That is the residue from 0 to abs(m) - 1 exactly when the number is not negative, or divides, or keeps its sign in the division, or is reduced in place and leaves half of m. |
| `MpzDiv.MinusFiveByTwo` | src/sbignum.c:1170-1189 | -5 by 2 leaves the remainder 1 and the residue 3. |
| `MpzPow.RaiseTo` | src/sbignum.c:1047-1086 | The power by squaring, with its sign, for every overlap; a negative exponent changes nothing. |
| `MpzPow.PowIsRightIff` | src/sbignum.c:1047-1086 | What mpz_pow computes is b^e exactly when e > 0 or b is 1 or -1. |
| `MpzPow.PowmTurn` | src/sbignum.c:1025-1033 | One turn keeps r * B^E congruent to b^e and halves E. |
| `MpzPow.RaiseMod` | src/sbignum.c:998-1043 | What the last reduction makes of the last product with the sign of the power, for every overlap, and the errors for a negative exponent and a zero modulus. |
| `MpzPow.LastProductResidue` | src/sbignum.c:1024-1034 | The last product leaves the residue of the power. |
| `MpzPow.PowmIsRightIff` | src/sbignum.c:1024-1034 | What mpz_powm computes is b^e mod m exactly when, for e = 0, b leaves the residue of 1 or -1 with its sign dropped and, for e > 0, the power is not negative, or divides, or the last product of the loop keeps its sign, or leaves half of m. |
| `MpzPow.LastProductKnown` | src/sbignum.c:1024-1034 | That last product is the base for exponents up to one, and the power when it is below the modulus. |
| `MpzPow.SmallPowmIsRight` | src/sbignum.c:998-1043 | So every power, negative or not, whose magnitude is below the modulus comes out right. |
| `MpzSqrt.SqrtTurn` | src/sbignum.c:1113-1123 | One bit keeps s = r^2, R = r * 2^(i+1) and r^2 <= z < (r + 2^(i+1))^2; R is not zero when it is halved. |
| `MpzSqrt.NextBracket` | src/sbignum.c:1113-1123 | The bracket around the root halves whether or not the trial bit is taken. |
| `MpzSqrt.SetBit` | src/sbignum.c:355-361 | Setting a clear bit adds 2^i and extends the length to reach it. |
| `MpzSqrt.Sqrt` | src/sbignum.c:1094-1128 | The floor of the square root of every z > 0, also over z itself. |
| `Divisors.HalveKeepsDivisors` | src/sbignum.c:1584-1589 | Halving an even number beside an odd one keeps the common divisors. |
| `Divisors.SubtractKeepsDivisors` | src/sbignum.c:1590-1602 | Subtracting the smaller number from the larger keeps the common divisors. |
| `Divisors.GcdScale` | src/sbignum.c:1576-1605 | The powers of two taken out at the start multiply the greatest common divisor. |
| `MpzGcd.CommonTwos` | src/sbignum.c:1576-1581 | The first phase divides both numbers by 2^n, remembers 2^n in g, and leaves one of them odd. |
| `MpzGcd.HalveAssumingZero` | src/sbignum.c:546-558 | Halves a number that may be zero, and reports exactly then that it assumed what the macro reads outside the array. |
| `MpzGcd.OddTurn` | src/sbignum.c:1584-1602 | One turn keeps the common divisors and lowers the sum; it halves zero exactly when the odd parts are equal, and is then the last. |
| `MpzGcd.OddPhase` | src/sbignum.c:1583-1603 | The second phase ends with zero on one side and the same common divisors, after halving zero exactly once. |
| `MpzGcd.GcdRaw` | src/sbignum.c:1556-1611 | The greatest common divisor of every pair of positive numbers, with any overlap; the algorithm ends, and has halved zero exactly once. |
| `MpzGcd.Gcd` | src/sbignum.c:1614-1631 | The same, and what a zero operand gives; zero is halved exactly when both operands are positive. |
| `MpzGcd.GcdWithZero` | src/sbignum.c:1614-1631 | With a zero operand the result is a greatest common divisor exactly when the other operand is not the result itself. |
| `MpzGcd.GcdUnique` | src/sbignum.c:1556-1611 | The relation GcdRaw establishes determines its result. |
| `MpzText.TableIsRight` | src/sbignum-tables.c:263-303 | For every base each entry is the largest power of the base that fits an atom, with its exponent. |
| `MpzText.SelfDiv1` | src/sbignum.c:1377-1392 | Division in place by one atom: quotient, remainder, normal form. |
| `MpzText.WriteChunk` | src/sbignum.c:1706-1716 | The digits of one chunk, with zeros inside the number and none at its top. |
| `MpzText.ToStr` | src/sbignum.c:1684-1735 | The buffer holds the sign and the numeral of the integer in the base, most significant digit first, and a NUL, whatever length above one is passed; for one only the NUL unless the number is zero, and nothing for zero. |
| `MpzText.ReadDigits` | src/sbignum.c:1800-1829 | The value of the digits, read from the last one, or an error exactly for a character that is no digit of the base. |
| `MpzText.SetStr` | src/sbignum.c:1759-1830 | Sign and magnitude of a text with blanks, sign and base prefix, or an error. |
| `MpzText.SetText` | src/sbignum.c:1759-1830 | On blanks, an optional minus sign, a prefix, digits and blanks: the number is the value of the digits in the base that the prefix names (0x or 0X sixteen, 0b or 0B two, 0 eight, none ten) or, without a prefix, in the base given; an error exactly if one of them is no digit of it. |
| `MpzText.WriteThenRead` | src/sbignum.c:1684-1830 | Writing a number into a buffer and reading the buffer back gives the number again, in every base from 2 to 36, also over itself. |
| `Numeral.ReversedLowText` | src/sbignum.c:1684-1735 | Digits found by repeated division and reversed are the numeral. |
| `Numeral.TextRoundTrip` | src/sbignum.c:1684-1830 | Reading the text of any integer in any base from 2 to 36 gives the integer. |
| `Numeral.DecimalNeedsNoBase` | src/sbignum.c:1777-1794 | Decimal text is read back with base 0, too. |
| `Numeral.ReadsText` | src/sbignum.c:1759-1830 | The same for the text alone: blanks, sign, prefix, digits, blanks. |
| `Numeral.ReadsPrefixed` | src/sbignum.c:1777-1794 | So the numeral of n in base 16, 2 or 8 is read as n behind its prefix, each letter in either case. |
| `Numeral.DigitValues` | src/sbignum.c:1684-1735 | The digits are 0 to 9 and a to z or, for reading, A to Z, in this order. |
| `Numeral.NumeralPlaces` | src/sbignum.c:1684-1735 | Digit k of a numeral, from the last, is (n / b^k) mod b, and the first is not zero. |
| `Checksum.ArsCksum` | src/ars.c:454-476 | The one's complement checksum of the bytes, as one sum of words. |
| `Checksum.McContext.Update` | src/ars.c:480-534 | The context after a chunk is that of all the bytes fed so far, across odd boundaries. |
| `Checksum.MultiCksum` | src/ars.c:480-534 | Feeding the bytes in any chunks gives the checksum of their concatenation. |
| `Checksum.SumFits` | src/ars.c:447-476 | Up to 131074 bytes the 32-bit accumulator cannot overflow. |
| `Checksum.TwoFoldsSuffice` | src/ars.c:473-476 | Two folds are enough for every 32-bit sum (section 2 of RFC 1071). |
| `Checksum.HostOrderDoesNotMatter` | src/ars.c:454-476 | The little-endian checksum is the byte swap of the big-endian one. |
| `Checksum.StoredChecksumVerifies` | src/ars.c:454-476 | With the checksum stored in its zeroed field, the checksum of the whole is zero (section 1 of RFC 1071). |
| `Ars.Packet.RelativeSizeFrom` | src/ars.c:430-439 | The number of bytes of the layers from one on. |
| `Ars.Packet.BuildPacket` | src/ars.c:1053-1074 | The bytes of the layers one after the other, or an error for none. |
| `ArsCompile.CompilerIp` | src/ars.c:603-676 | Changes the IP layer only, to the header whose version, length, total length, protocol and checksum fit the layers after it. |
| `ArsCompile.CompilerIp6` | src/ars.c:834-874 | Changes the IPv6 layer only, to the header whose payload length and next header fit. |
| `ArsCompile.CompilerOption` | src/ars.c:679-716 | Pads the last option of a run to whole words, and no other. |
| `ArsCompile.CompilerUpper` | src/ars.c:878-1024 | Changes the layer only, to the header with its length and the checksum over pseudo header and all that follows, or fails without a parent; the `ArsWire` rows say which bytes these are. |
| `ArsCompile.Compile` | src/ars.c:585-600 | Compiles every layer, from the last to the first, or stops at the first error. |
| `ArsSettled.LayerSettles` | src/ars.c:585-600 | A compiled layer is what its compiler makes of the packet it is in. |
| `ArsSettled.AllSettle` | src/ars.c:585-600 | After compiling every layer is settled: no later step disturbs an earlier one. |
| `ArsSettled.CompileIsIdempotent` | src/ars.c:585-600 | Compiling a compiled packet changes nothing, for every stack and all flags. |
| `ArsSettled.CompilesIff` | src/ars.c:721-771 | Compiling succeeds exactly when every TCP, UDP and ICMPv6 layer brings its checksum or finds its IP header. |
| `ArsWire.Ip4Fields` | src/ars.c:603-676 | In a compiled IPv4 header version 4, the length of header and options, the total length, and the protocol number (1, 4, 6, 9, 17, or 255 for none of these), each unless set by hand (section 3.1 of RFC 791). |
| `ArsWire.Ip4Checksum` | src/ars.c:603-676 | Its bytes 10 and 11 hold the checksum of header and options with zeroes there, unless set by hand. |
| `ArsWire.Ip6Fields` | src/ars.c:834-874 | In a compiled IPv6 header version 6, the payload length, and the next header (1, 4, 6, 17, 41, 58, or 59 for none), each unless set by hand (section 3 of RFC 8200). |
| `ArsWire.TcpLength` | src/ars.c:892-916 | The data offset of a compiled TCP header counts header and options in words. |
| `ArsWire.UdpLength` | src/ars.c:958-975 | The length of a compiled UDP header is that of header and data. |
| `ArsWire.TcpChecksum` | src/ars.c:721-830 | Bytes 16 and 17 of a compiled TCP header hold the checksum of addresses, 0, 6, the length in two bytes, and all that follows over IPv4, and of addresses, the length in four bytes, 0, 0, 0, 6 and all that follows over IPv6, whatever options are between (section 3.1 of RFC 9293, section 8.1 of RFC 8200). |
| `ArsWire.UdpChecksum` | src/ars.c:721-830 | Bytes 6 and 7 of a compiled UDP header, with 17 (RFC 768). |
| `ArsWire.Icmp6Checksum` | src/ars.c:721-830 | Bytes 2 and 3 of a compiled ICMPv6 header, with 58 (section 2.3 of RFC 4443). |
| `ArsWire.PlainChecksum` | src/ars.c:977-1024 | Bytes 2 and 3 of ICMP, and 10 and 11 of IGRP, hold the checksum without a pseudo header. |
| `ArsWire.Ip4Keeps` | src/ars.c:603-676 | Compiling changes no other byte of an IPv4 header, and none of a field set by hand. |
| `ArsWire.Ip6Keeps` | src/ars.c:834-874 | The same for an IPv6 header. |
| `ArsWire.UpperKeeps` | src/ars.c:878-1024 | The same for TCP, UDP, ICMP, ICMPv6 and IGRP; data and IGRP entries do not change. |
| `ArsWire.OptionKeeps` | src/ars.c:679-716 | An option keeps its bytes; the last of a run gets at most three no-operations, so that the run is whole words. |
| `ArsSplit.OptionSize` | src/split.c:372-420 | An option takes at least one byte and never more than the option space. |
| `ArsSplit.Handle` | src/split.c:246-695 | Every state handler consumes at least one byte and at most what is left; a header layer has its full size. |
| `ArsSplit.LookupNeverFails` | src/split.c:481-531 | In a reachable state the pseudo-header lookup succeeds; only a full packet is an error. |
| `ArsSplit.StepKeepsSane` | src/split.c:140-199 | TCP and UDP follow IP and its options or IPv6, ICMPv6 follows IPv6, and option states have space left, after every step. |
| `ArsSplit.GuessIpOff` | src/split.c:32-51 | The first offset that looks like an IPv4 header, or none exactly if there is none. |
| `ArsMarks.SeemsIpIff` | src/split.c:17-30 | A place looks like an IPv4 header exactly if its version is 4, its length is a header's and fits, and its checksum is right. |
| `ArsSplit.SplitStep` | src/split.c:163-197 | One turn of the loop appends the layer of the handler and trims the packet after the first. |
| `ArsSplit.SplitPacket` | src/split.c:140-199 | The loop ends on every input, with the layers the machine gives from the offset, or its error; without an offset from the first place that looks like an IPv4 header, and with an error when there is none; what those layers are is in `ArsMarks.DissectionIsRight`. |
| `ArsSplit.StepKeepsBytes` | src/split.c:246-695 | The new layer holds the bytes consumed; only a header cut short holds more, and then nothing is left. |
| `ArsSplit.NothingIsLost` | src/split.c:140-199 | The layers of a successful dissection rebuild to the bytes dissected, plus the rest of a cut header if the last layer is one. |
| `ArsSplit.NothingIsLostFromStart` | src/split.c:140-199 | The same for a whole packet: exactly the bytes after the length the IP header names are dropped. |
| `ArsMarks.HandlerMarks` | src/split.c:246-695 | Each handler marks its layer as cut short or as having a bad checksum exactly when it is so: over the bytes themselves for IPv4 (10), ICMP (2), and with the pseudo header for TCP (16), UDP (6) and ICMPv6 (2). |
| `ArsMarks.StaysOnTrack` | src/split.c:163-197 | Each handler leads to the layer its bytes announce: options as long as the header says there are more, then what the protocol number says. |
| `ArsMarks.DissectionIsRight` | src/split.c:140-199 | For every dissection: the first layer is the IP header of the version named, the others come one after the other from the bytes it announces, each is the one announced before it, and each carries the mark for a bad checksum if and only if its stored checksum is wrong, and the mark for a cut header if and only if it is cut. |
| `ArsAccept.OptionsTaken` | src/split.c:372-420 | The option loop takes all the option space, however the bytes cut it into options, and no option is marked as bad. |
| `ArsAccept.SamePseudoHeader` | src/ars.c:721-830 | Compiler and dissector sum the same pseudo header although the options in between differ. |
| `ArsAccept.SettledUpper` | src/ars.c:878-1024 | The checksum a compiled layer carries is the right one for the bytes that stand there. |
| `ArsAccept.SettledIp` | src/ars.c:603-676 | A compiled IPv4 header names its length, the datagram's length and the protocol, and its checksum is right (section 3.1 of RFC 791). |
| `ArsAccept.SettledIp6` | src/ars.c:834-874 | A compiled IPv6 header names the payload length and the next header. |
| `ArsAccept.AcceptTransport` | src/split.c:422-604 | From a compiled transport header on dissection succeeds with no bad checksum and the same bytes (section 8.1 of RFC 8200, section 2.3 of RFC 4443). |
| `ArsAccept.CompiledIsAccepted` | src/split.c:140-199 | Every compiled stack followed by any padding is dissected without a bad checksum into exactly its bytes. |
| `ArsBuild.CompiledStaysStack` | src/ars.c:585-600 | Compiling keeps the shape of a stack and the limits on options and length. |
| `ArsBuild.BuiltIsAccepted` | src/ars.c:585-1074 | Compile, build, dissect: for every stack with no field set by hand and any padding, compiling succeeds and dissection drops the padding, finds no bad checksum and keeps every byte. |
| `ArsDamage.DamageIsMarked4` | src/split.c:422-604 | A compiled packet over IPv4 whose transport checksum was changed on the way, with any padding: the dissector marks a layer of that transport. |
| `ArsDamage.DamageIsMarked6` | src/split.c:275-318 | The same over IPv6, ICMPv6 included. |
| `ApdNumber.AtouDec` | src/rapd.c:49-93 | A number printed in decimal is read back. |
| `ApdNumber.AtouHex` | src/rapd.c:49-93 | A number printed in hexadecimal with its prefix is read back. |
| `ApdNumber.ResolveQuad` | src/ars.c:1182-1197 | An address printed as a dotted quad is read back. |
| `ApdNumber.ResolvesQuads` | src/ars.c:1182-1197 | Exactly the dotted quads are addresses. |
| `ApdNumber.AtouReads` | src/ars.h:522 | Blanks, a sign, a prefix (0x or 0X, 0, none) and digits of that base, whatever follows, are read as their value, at most 2^64 - 1; a minus sign counts down from 2^64. |
| `ApdNumber.AtouNothing` | src/ars.h:522 | Without digits the number is zero. |
| `ApdField.NamesAreKnown` | src/apd.c:175-534 | A setter knows every field its layer prints, under the name it prints. |
| `ApdCopy.FlagsRead` | src/apd.c:505-521 | The letters of the TCP flags name exactly those flags. |
| `ApdCopy.HexReads` | src/apd.c:896-926 | Decoding the hexadecimal text of data gives the data. |
| `ApdCopy.FieldReads` | src/apd.c:175-534 | Setting a field from its printed text copies the field and nothing else, the fragment offset and flags included. |
| `ApdCopy.FieldStep` | src/apd.c:175-534 | Setting the printed fields in their order copies the header field by field. |
| `Apd.RapdData` | src/rapd.c:478-488 | The hexadecimal description of a data layer. |
| `Apd.FromArs` | src/rapd.c:21-46 | The descriptions of the layers with a plus between them. |
| `Apd.Parser` | src/apd.c:26-60 | A special character alone, or the longest plain run that fits the buffer, and what follows it. |
| `Apd.Build` | src/apd.c:1036-1141 | The layers that the state machine makes of the tokens, or its error; `ApdFill.BuildsWhatIsDescribed` says which these are. |
| `ApdRoundTrip.WordIsToken` | src/apd.c:26-60 | A plain word before a special character is one token. |
| `ApdRoundTrip.ValuesAreWords` | src/rapd.c:49-338 | Every printed value is one token, but for no flags, no data and too much data. |
| `ApdRoundTrip.LayerBuilt` | src/apd.c:1036-1141 | The description of a readable layer builds a layer with its bytes, all fields marked as set by hand. |
| `ApdRoundTrip.UnreadableFails` | src/apd.c:1036-1141 | The description of any other layer does not build. |
| `ApdRoundTrip.SizedLayerBuilt` | src/apd.c:159-173 | A size after a description cuts the layer to its first n bytes, and is an error exactly when it has not that many or n is 0. |
| `ApdRoundTrip.DescribeThenBuild` | src/rapd.c:21-93 | A described stack of IPv4, TCP, UDP and data layers builds exactly when every TCP header has a flag and every data layer 1 to 5999 bytes; then compiling changes nothing and all the bytes are those described, right or wrong. |
| `ApdText.PrintsEveryField` | src/rapd.c:49-338 | The description of a packet has every field of every layer, in the order, with the names and in the forms of numbers of the printer, and a plus between the layers. |
| `ApdText.HexPlaces` | src/rapd.c:49-93 | A hexadecimal number is printed with the digits of its places, letters small. |
| `ApdText.LettersInOrder` | src/rapd.c:321-330 | TCP flags are printed as the letters f, s, r, p, a, u, x, y of the bits set, from the lowest on. |
| `ApdSet.Setter` | src/apd.c:175-534 | A setting writes the bytes of the field its name stands for, names, places, widths and letters written out, in capitals or not; a flag that keeps the compiler from a field is set if and only if the name is that of the field; unknown names, addresses that are none and bad digits are errors. |
| `ApdSet.NamesAre` | src/apd.c:175-534 | Each setter knows the names listed for its layer and no other. |
| `ApdSet.HexDecodes` | src/apd.c:896-926 | Hexadecimal data is decoded pair by pair, or is an error for an odd length or a character that is no digit. |
| `ApdFill.BuildsWhatIsDescribed` | src/apd.c:1036-1141 | Every description in plain words, with any settings and sizes, builds the layers it describes, each a header of zeroes with its settings made in order, or is an error exactly when one of them is none or there are more than 256. |
| `ApdFill.BrokenOff` | src/apd.c:1036-1141 | A description broken off after a plus, a bracket, a name, an equals sign, a value or a comma is an error. |
| `ApdFill.WrongCharacter` | src/apd.c:1078-1130 | After a keyword, a name, a value or a size, any special character but those that may follow it is an error. |
| `ApdFill.MissingWord` | src/apd.c:1046-1130 | So is a special character instead of a keyword, and any but the plus instead of a size. |
| `ApdFill.FlagsOfLayer` | src/apd.c:175-534 | The fields of a built layer that count as set by hand are exactly those the description names. |
| `ApdFill.OnlyTheRestIsFilledIn` | src/ars.c:603-976 | Compiling what was built fills in exactly the version, lengths, protocol and checksum that the description does not name, with their right values, and changes no other byte. |
| `SafeTransfer.Sender.Datafiller` | src/datafiller.c:24-77 | The next chunk and the file position after it, at and before the end of the file. |
| `SafeTransfer.Sender.SendPacket` | src/sendip.c:150-152 | The packet carries the id before the increment; the id counts until the end of the file. |
| `SafeTransfer.Sender.HandleRestart` | src/waitpacket.c:922-930 | The id is the one asked for, and the position the beginning of its chunk. |
| `SafeTransfer.Receiver.Listen` | src/listen.c:26-97 | Over any packets, only the expected ids are written, and every other asks for a restart. |
| `SafeTransfer.SendKeepsInv` | src/datafiller.c:46-76 | A sender in step with the file sends the chunk of its id and stays in step. |
| `SafeTransfer.SeekIsExact` | src/datafiller.c:40-44 | The unsigned product of the seek does not wrap for any 16-bit id. |
| `SafeTransfer.SafeTransfer` | src/listen.c:72-89 | Over every run with loss, repetition, reordering and stale restarts before the end of the file, every packet with id k carries chunk k and the output is exactly the chunks before the expected id. |
| `SafeTransfer.FullChunksAreFile` | src/listen.c:72-96 | Those chunks are a prefix of the file while they are full. |
| `SafeTransfer.CanAdvance` | src/listen.c:72-89 | From every state of every run, past the end of the file too, some packets arriving make the receiver write exactly the chunk it expects, as long as there is something to read for it; before the end none of them is from past it. |
| `SafeTransfer.RestartSends` | src/waitpacket.c:922-930 | Wherever the sender is, the first packet after a restart is the chunk asked for. |
| `SafeTransfer.OtherRestarts` | src/datafiller.c:40-44 | Past the file without --end a restart is answered with the first chunk, and id 0 seeks to a chunk before 2^32. |
| `SafeTransfer.PastTheEnd` | src/datafiller.c:56-76 | The packet that meets the end of the file carries the chunk of its id; all after it have the same id, and carry the file from its first chunk on, over and over. |
| `SafeTransfer.RepeatsFile` | src/datafiller.c:46-61 | Without --end packet i, from 0, has id 1 + i and carries chunk 1 + i mod n of a file of n chunks, a short last one included: the file over and over. |
| `SafeTransfer.RestartPastTheEnd` | src/waitpacket.c:922-930 | A restart to n past the end is answered with chunk n and, under the same id, chunks n + 1, n + 2 and so on: the i-th packet is right exactly if its chunk equals chunk n. |
| `SafeTransfer.PacketsRightIff` | src/sendip.c:150-152 | In any run, past the end too, every packet carries the chunk of its id exactly when each was sent with position and id of one chunk. |
| `SafeTransfer.OutputRightIff` | src/listen.c:72-89 | The output of any run whose ids do not wrap is the chunks before the expected id exactly when every packet accepted carried the chunk of its id. |
| `SafeTransfer.AnyRunIsRightIff` | src/listen.c:72-89 | Both, from the start; and right packets make a right output. |
| `SafeTransfer.LateLossSpoilsOutput` | src/datafiller.c:56-76 | A run that ends with the wrong file: a packet lost before the end and asked for after it. |
| `Scanner.Scan.constructor` | src/scan.c:425-452 | Selected ports have eight probes, the others none. |
| `Scanner.Scan.Step` | src/scan.c:255-276 | Waits for pause and deadline, then probes the first port that is due or closes the round. |
| `Scanner.Scan.RoundDoneStep` | src/scan.c:208-251 | Ends the scan, grants a last second, or starts the next round with its pause and interval. |
| `Scanner.StepWaits` | src/scan.c:255-265 | A step does nothing before the pause and the deadline are over. |
| `Scanner.StepProbes` | src/scan.c:266-274 | After them it probes the first port that was selected, did not answer and has a probe left, and sets the deadline an interval later. |
| `Scanner.RoundFollows` | src/scan.c:222-250 | A round with probes is followed by the next, from the third on after a pause of one round trip or one second, and ten times slower from the sixth on, or after half a second at full speed without an answer. |
| `Scanner.LastSecond` | src/scan.c:216-227 | A round without probes ends the scan, after one more second of doing nothing if no port answered with probes left. |
| `Scanner.Scan.Reply` | src/scan.c:335-391 | A reply ends the probing of its port and touches no other. |
| `Scanner.Scan.Report` | src/scan.c:192-204 | The ports still active without probes left, in order, each once. |
| `Scanner.ProbesAreFair` | src/scan.c:182-276 | Over every run, no port is probed more than eight times, none that was not selected, and a port still active was probed once in each finished round. |
| `Scanner.NoProbeAfterAnswer` | src/scan.c:255-276 | The port probed next was selected, never answered and has a probe left. |
| `Scanner.ReportIsExact` | src/scan.c:192-204 | The report of a complete scan lists exactly the selected ports that never answered, each probed eight times. |
| `Scanner.ProbesAreSpaced` | src/scan.c:208-276 | Whatever happens between two probes, they are at least an interval apart, none falls into a pause, and the interval never shrinks. |
| `Scanner.DueStepsCount` | src/scan.c:255-276 | A due step ends the scan or lowers its rank. |
| `Scanner.ScanEnds` | src/scan.c:182-276 | Whatever replies come, a scan of n ports ends after at most 9(n + 2) + 1 due steps. |
| `SendIp.Host.Send` | src/sendip.c:30-154 | The datagram put on the wire, and the id counted on in safe mode only. |
| `SendIp.HeaderSays` | src/sendip.c:52-92 | Bit 14 says "do not fragment", bit 13 "more fragments", the offset counts eight bytes, and both lengths are those of header, options and data. |
| `Fragment.SendIpHandler` | src/sendip_handler.c:18-71 | When fragmentation sets in, with which size, and exactly which datagrams go out, for every call that comes back. |
| `Fragment.LoopEndsIff` | src/sendip_handler.c:45-69 | The fragment loop ends exactly for an empty packet or a positive fragment size; with none a turn changes nothing. |
| `Fragment.AutoMtuIsZeroIff` | src/sendip_handler.c:23-32 | Automatic fragmentation finds no room exactly for an interface MTU from 20 to 27. |
| `Fragment.ComesBackIff` | src/sendip_handler.c:18-71 | The handler comes back exactly when the packet is empty, or the size it was told is positive, or, told none, the packet goes out whole or the MTU is not one of those. |
| `Fragment.PiecesTile` | src/sendip_handler.c:45-69 | The pieces fill the payload with its own bytes, without gap or overlap, and only the last has "more fragments" clear. |
| `Fragment.FragmentSays` | src/sendip.c:30-154 | In the header of a fragment the id is that of all fragments, or counted on, and that of the process when ids are random; the offset counts eight bytes; "more fragments" is set for all pieces but the last. |
| `Fragment.ReassemblyIsUnique` | src/sendip_handler.c:45-69 | Pieces that tile determine the payload. |
| `Fragment.ReassemblesIff` | src/sendip_handler.c:45-69 | What is heard on the wire reassembles, headers and total lengths included, exactly when options of whole words and the payload fit one datagram, and the payload goes in one piece, or the size is a multiple of eight and the id is not counted (sections 3.1 and 3.2 of RFC 791). |
| `Fragment.ObeysIff` | src/sendip_handler.c:45-69 | All fragments obey an MTU exactly when the largest does, options included. |
| `Fragment.AutomaticObeysIff` | src/sendip_handler.c:23-32 | Automatic fragmentation obeys the interface MTU exactly when that has room for a header and the options fit what rounding left, or the payload fits anyway. |
| `Schedule.Loop.SendDueProbe` | src/lifecycle.c:428-444 | The next deadline after a probe, or the late-reply deadline after the last. |
| `Schedule.Loop.Turn` | src/lifecycle.c:473-525 | One turn of the loop, dry runs included: when it stops and why, whether it sends, and how long it may sleep. |
| `Schedule.WhyItStops` | src/lifecycle.c:473-525 | The reasons a turn stops for, in their order: a signal, the late-reply deadline, a probe that cannot be sent, a signal during the sleep of a dry run, a failed wait, the packet read. |
| `Schedule.DueProbeIsSent` | src/lifecycle.c:486-492 | In every run a turn without a signal sends a probe exactly when one is due. |
| `Schedule.SleepIsExact` | src/lifecycle.c:494-504 | The next turn sends a probe or ends the loop for having waited out the replies if the time asked for has passed, and does neither if it was woken before. |
| `Schedule.ScheduleIsKept` | src/lifecycle.c:428-525 | Over every run with any stalls, probe k is never before start + k intervals, probes i < j are at least j - 1 - i intervals apart, and never more than --count are sent. |
| `Schedule.RepliesGetASecond` | src/lifecycle.c:481-485 | The loop ends for "all sent" only with the count reached and a full second for late replies. |
| `Schedule.NoDrift` | src/lifecycle.c:438-443 | While no probe is more than an interval late, the next is due at exactly start + k intervals. |

## Left out

- MpzGcd.GcdRaw: keeps the sign flag the result had, as the code does; the magnitude is what is stated.
- MpzSqrt.Sqrt: keeps the sign flag the result had, as the code does.
- MpzText.ToStr: needs a buffer that is large enough, whatever length is passed; `mpz_sizeinbase`, which uses floating
  point, is not part of this model.
- In `src/sbignum.c`: `mpz_rshiftword` and `mpz_and`, whose clearing counts bytes instead of atoms, general shifts,
  `mpz_cmp` and its variants, `mpz_fac_ui`, the `_ui`, `_si` and 64-bit variants, random numbers, doubles, atom sizes other
  than 4. Lengths are unbounded instead of 32-bit.
- A number's array is never released, and one that `mpz_realloc` replaced keeps its atoms in the model; the one place
  where it is read
  then is reported by `MpzAddSub.AddRaw`.
- ArsBuild.BuiltIsAccepted: stacks of one IP header, options, one transport header and data; ICMP messages that quote a
  packet, IGRP and tunnels are compiled and dissected in the model, but not part of it.
- ArsCompile.Compile: header layers that a size has cut below their full header, which the code compiles beyond their
  end; data and options of any size are compiled. The same holds for `ArsCompile.CompilerIp`, `ArsCompile.CompilerIp6`,
  `ArsCompile.CompilerUpper` and `ArsSettled.CompileIsIdempotent`.
- Apd.FromArs: layers other than IPv4, TCP, UDP and data.
- ApdRoundTrip.DescribeThenBuild: options, ICMP (its checksum is not printed), IPv6, IGRP, `str=` data (a raw backslash
  before two hexadecimal digits is not escaped), `file=`, defaults, and a result buffer that is too small.
- Apd.Build: keywords and data fields of the kinds just named are unknown to the model and end in an error. The same holds
  for `ApdSet.Setter` and `ApdFill.BuildsWhatIsDescribed`.
- ApdFill.OnlyTheRestIsFilledIn: header layers that a size has cut below their full header, as for `ArsCompile.Compile`.
- ApdNumber.ResolveQuad: addresses in dotted-decimal form only; other forms and host names are not part of this model.
- SafeTransfer.SafeTransfer: the signature is found where the sender put it, fragmentation is off, a packet carries at least
  one byte of the file, and the file has fewer than 65534 chunks, so that ids do not wrap. Without `--end` the run stops
  before the packet that meets the end of the file. `SafeTransfer.AnyRunIsRightIff` and
  `SafeTransfer.CanAdvance` have neither of the last two limits.
- SafeTransfer.Sender.Datafiller: a file that cannot be opened or read.
- Scanner.Scan.Reply: which captured frames answer a probe; the average round trip is a parameter; a failed send ends the
  scan outside the model; parsing of the port list.
- Fragment.SendIpHandler: building the options, other byte orders of some BSD systems, and a failing socket.
- Schedule.SleepIsExact: a clock that starts below zero, where a deadline could be the number that stands for none; the
  same holds for `Scanner.LastSecond`.
- Schedule.Loop.Turn: the flood loop, and the suspend key, which changes the destination port.
- Allocation failure, the Tcl binding, capture, sockets, interfaces, name resolution, signals, JSON and human output,
  command line, `adbuf`, hexadecimal helpers, round-trip statistics, `display_ipopt`: input and output, or shallow.
