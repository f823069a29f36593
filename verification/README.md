# A verified model of AtomVM's engines

AtomVM is a small virtual machine for BEAM code. This project models, in Dafny, the parts of its C core that
carry the most reasoning, and proves what they promise for all inputs and all runs:

- **Multi-precision integers** (`intn.c`): sign and magnitude, 32-bit digits. Multiplication, Knuth's division by
  16-bit digits, addition, comparison, bitwise operations by way of two's complement, shifts, printing in bases 2
  to 36, and bytes in either order. Modules `Digits`, `Bits`, `Division`, `Intn`, `IntnBits`, `IntnShift`,
  `IntnText`, `IntnBytes`.
- **Integer arithmetic across representations** (`bif.c`): small integers, boxed words, boxed 64-bit integers and
  multi-precision integers, on 32-bit and 64-bit machines. Module `Bif`.
- **Shortest float text** (`float_utils.c`): Grisu3 from the bits of a double to its text, with the table of powers
  of ten, after Loitsch, "Printing Floating-Point Numbers Quickly and Accurately with Integers" (PLDI 2010).
  Modules `Grisu`, `CachedPowers`, `Grisu3`, `FloatText`, `FloatPrint`.
- **Monitors and aliases** (`context.c`, `nifs.c`, `mailbox.c`): the entries of a process, and the protocol of
  monitor, demonitor, DOWN, alias messages and termination as a state machine whose processes step in any order.
  Modules `Monitors`, `Protocol`, `ProtocolProof`, `ProtocolRuns`, `ProtocolEffects`.
- **External Term Format** (`external_term.c`), as in the chapter "External Term Format" of the ERTS User's Guide:
  serializer, validator and parser, and apart from them the format itself as a relation between terms and bytes.
  Modules `Etf`, `EtfProof`, `EtfCode`, `EtfFormat`.
- **ETS tables** (`ets_multimap.c`, `ets.c`): the bucketed multimap with its rollback, and the operations on top.
  Modules `Ets`, `EtsTable`, `EtsOps`.
- **The flash code stream** (`jit_stream_flash.c`): a page-buffered writer over memory where writes only clear
  bits. Module `Flash`.
- **The atom table** (`atom_table.c`), **map updates** (`jit.c`) and **bit fields** (`bitstring.c`,
  `bitstring.h`). Modules `Atoms`, `MapUpdate`, `BitString`.

Loops and in-place updates of the C code are methods and classes here, proved against functions on values; the
laws about those functions are lemmas. `Prelude` holds what several modules share. Every request for memory or to
the flash device may be refused (`Prelude.Granted`), so contracts cover a failure at every such point; a flag says
that requests are never refused, and then the contracts promise that none of these failures happens.

## Where the code departs from its documentation

The contracts say for all inputs what happens where the code does less than promised; the lemmas named here give
concrete inputs or exact conditions.

- `intn_band`, `intn_bxor`, `intn_bnot` and `intn_bsr` answer zero when the result is exactly minus 2^(32 n) for
  the n digits they keep (`IntnBits.BandOverflows`, `IntnBits.BxorOverflows`, `IntnBits.BnotOverflows`,
  `IntnShift.BsrOverflows`). They are exact in every other case, and `intn_bor` always is. Which operands those are:
  for bnot, a positive one of n digits with all bits set; for bxor, one positive and one negative whose magnitudes add
  up to 2^(32 n) (`IntnBits.BxorExact`); for band, two negative ones whose two's complements share no bit
  (`IntnBits.BandExact`); for bsr see `IntnShift.BsrExact`.
- `intn_from_integer_bytes` accepts up to 43 bytes but counts eight digits of a positive and ten of a negative
  number, so longer values lose their top (`IntnBytes.FromBytesOverflows`); up to 32 bytes it is exact. It always
  fills eleven digits, although its header asks only for as many as the bytes need.
- `intn_add`, `intn_sub` and `intn_subu` read the operand of larger magnitude up to the length of the other one,
  although the header admits leading zeros (`Intn.AddReadsOn`). The contracts say when memory ends before, and that
  the result is right if and only if only zeros are read. `intn_add` keeps the sign of its first operand for a zero
  result of more than one digit.
- `rem` on a 32-bit machine reads a multi-precision operand between 2^63 and 2^64 as a signed 64-bit word when the
  other operand is no larger, so 2^63 rem 10 is -8 (`Bif.RemainderOfLarge`). `Bif.Rem` says what is computed in
  every case, including the smallest word by -1, which C leaves undefined.
- `*` on a 64-bit machine reports an overflow for 2^192 times 2^63, whose product has 256 bits
  (`Bif.FalseOverflow`); `Bif.TooLongExact` gives the whole family.
- `ets:update_counter` checks the sum against the machine word and then keeps its low bits, so a counter past the
  largest small integer wraps, in the table and in the answer, and no overflow is ever reported
  (`EtsOps.CounterWraps`, `EtsOps.NeverOverflows`; `EtsOps.OperationExact` is an equivalence).
- `ets:update_counter` with a list runs into an assertion at the first item that is no tuple, if all operations before
  it succeed; `ets:update_counter(T, K, [1])` stops the machine (`EtsOps.CounterAborts`). `EtsOps.OpsAbort` and
  `EtsOps.AbortsExactly` are equivalences, and the contract of `EtsOps.UpdateCounter` has the outcome.
- A list of 65536 bytes or more is written with a 16-bit count and does not come back (`EtfProof.LongStringLost`;
  `EtfProof.ExactRoundTrip` is an equivalence).
- The parser takes a list of no elements without the tail that the format has there, and integers of up to 43 bytes,
  of which it counts 32. Of the terms modelled here that is all it reads beyond the format (`EtfFormat.ParseIsFormat` is an equivalence).
- The validator of external terms counts the two-byte header of a small tuple as one byte
  (`EtfProof.TuplePassesShort`; `EtfProof.ValidateExact` is an equivalence).
- `atom_table_ensure_atoms` gives a name that occurs twice in one batch, and is new, two indices
  (`Atoms.RepeatedName`).
- A node of the atom table keeps the length of its name in 10 bits. A name of 1024 bytes or more, which an external
  term can hold, is read back as its first bytes, is never found, and gets an index with every call
  (`Atoms.LongNameTwice`). `Atoms.DistinctAfter` and, over whole runs, `Atoms.RunDistinct` say exactly when texts and
  indices stay one to one; for shorter names that is when no batch repeats a new name (`Atoms.ShortNames`).
- A node keeps its index in 20 bits, so a name behind the first 2^20 is found under the index of another
  (`Atoms.FieldRight` is an equivalence).
- `atom_table_ensure_atoms` makes one group for all names that do not fit the last, and a group keeps its length in
  16 bits. From 65536 such names on, indices cannot be read and a rehash loses names (`Atoms.LongGroupLost`).
  `Atoms.AllReadable`, and `DoRehash` and `EnsureAtoms` of `Atoms.AtomTable`, say exactly when.
- `atom_table_new` does not look whether its first group was granted; the table then has no groups, and its room left
  is not set.
- `nif_jit_stream_flash_new` erases the sector of the entry before it writes back what lay before it there. If a page
  cannot be written back, that page and those behind it are lost (`Flash.CutShort` in the contract of `Flash.Create`;
  `Flash.LostBefore` is an equivalence). Every other failure leaves memory before the entry as it was.
- Little-endian bit fields that end within a byte do not come back (`BitString.PartByteLost`;
  `BitString.RoundTrip` is an equivalence). Fields of more than 64 bits do not repeat the sign, and little-endian ones
  off a byte border lose the low bytes (`BitString.LongFieldsLost`; `BitString.LongExact` is an equivalence). Signed
  fields of 64 bits off a byte border, and signed or little-endian fields of no bits, shift a word too far, which C
  leaves undefined (`BitString.SignedWordUndefined`).
- `bitstring_copy_bits_incomplete_bytes` reads the byte behind the last bit on both sides and writes that of the
  destination back (`BitString.CopyReadsOn` is an equivalence).

## Model

| member | source | states |
|---|---|---|
| `Digits.CarryChain` | src/libAtomVM/intn.c:72-90 | any loop that writes digits and passes carries on computes digits read times a factor plus an addend, whatever the sign of factor and carry |
| `Bits.BitOpBit` | src/libAtomVM/intn.c:702-759 | bit k of an operation on infinite two's complement strings is the operation on bits k |
| `Bits.BitsDetermine` | src/libAtomVM/intn.c:702-759 | an integer is determined by its bits, so the bitwise operations are pinned down |
| `Bits.BitOpSplit` | src/libAtomVM/intn.c:656-680 | an operation on a string is the operation on its low word and on what is above it |
| `Bits.ShiftedLeftValue` | src/libAtomVM/intn.c:305-317 | digits shifted left through their neighbours are the number times a power of two, less what leaves at the top |
| `Bits.ShiftedRightValue` | src/libAtomVM/intn.c:843-871 | digits shifted right through their neighbours are the quotient by a power of two |
| `Bits.LeadingZeros32` | src/libAtomVM/intn.c:222-270 | the count found shifts the top set bit of a word to bit 31 |
| `Division.EstimateDigit` | src/libAtomVM/intn.c:320-330 | the estimate ends as the three-by-two quotient capped at the largest digit, after at most two corrections, and no product wraps |
| `Division.EstimateIsClose` | src/libAtomVM/intn.c:320-330 | with a normalised divisor the three-by-two quotient is the true digit or one more |
| `Division.MultiplySubtract` | src/libAtomVM/intn.c:332-341 | the window less qhat times the divisor, with the sign of the true difference in the top digit |
| `Division.AddBack` | src/libAtomVM/intn.c:344-353 | adding the divisor to a window and its carry to the top digit |
| `Division.SubtractDigit` | src/libAtomVM/intn.c:332-353 | the digit is exact and the window is the remainder after at most one add-back |
| `Division.DivideDigit` | src/libAtomVM/intn.c:319-353 | one round yields the quotient digit of the window and reduces the window modulo the divisor |
| `Division.NormalisingShift` | src/libAtomVM/intn.c:300-305 | the shift brings the leading divisor digit to at least half the base |
| `Division.DivideBySmall` | src/libAtomVM/intn.c:288-298 | division by one digit: quotient and remainder by Euclid's law |
| `Division.DivMnu16` | src/libAtomVM/intn.c:274-363 | u == q * v + r with 0 <= r < v for every dividend at least as long as the divisor with a nonzero top digit; invalid parameters change nothing |
| `Intn.CountDigits` | src/libAtomVM/intn.c:901-912 | the number of digits up to the highest nonzero one |
| `Intn.MulU` | src/libAtomVM/intn.c:72-90 | the product of the magnitudes, with no 64-bit sum wrapping |
| `Intn.CmpU` | src/libAtomVM/intn.c:437-459 | the order of the values, leading zeros or not |
| `Intn.AddU` | src/libAtomVM/intn.c:473-515 | the sum of the magnitudes in at most one more digit |
| `Intn.SubU` | src/libAtomVM/intn.c:564-583 | the difference with all digits read of the larger operand, exact if and only if only zeros are read behind it; reads past its memory exactly if the other operand is longer than that |
| `Intn.Add` | src/libAtomVM/intn.c:517-548 | the sum of signed integers, for all signs and lengths, if and only if only zeros are read behind the larger magnitude; what is computed otherwise, and when memory ends |
| `Intn.Sub` | src/libAtomVM/intn.c:585-592 | the difference of signed integers under the same condition |
| `Intn.ReadFurther` | src/libAtomVM/intn.c:564-583 | reading further digits keeps the value if and only if they are zero |
| `Intn.AddReadsOn` | src/libAtomVM/intn.c:517-583 | 5 plus -1 with -1 in two digits: past the end of the 5, or wrong with a digit there |
| `Intn.HalvesValue` | src/libAtomVM/intn.c:387-435 | the 16-bit view of digits has the same value |
| `Intn.PairsValue` | src/libAtomVM/intn.c:387-435 | reading 16-bit digits in pairs keeps the value |
| `Intn.PadToDigits` | src/libAtomVM/intn.c:53-62 | completing the last digit keeps the value |
| `Intn.DivU` | src/libAtomVM/intn.c:387-435 | quotient and remainder of the magnitudes through trimming, 16-bit division and padding; aborts exactly on a zero divisor or a shorter dividend |
| `IntnBits.Neg` | src/libAtomVM/intn.c:606-614 | two's complement modulo the room of the digits |
| `IntnBits.CondNeg` | src/libAtomVM/intn.c:616-624 | two's complement digits of a signed integer |
| `IntnBits.DigitwiseValue` | src/libAtomVM/intn.c:656-680 | digits combined one by one, with the signs combined above, are the integers combined |
| `IntnBits.SignedBitwise` | src/libAtomVM/intn.c:656-680 | combines with an operand negated on the fly and sign-extended |
| `IntnBits.CountAndNormalizeSign` | src/libAtomVM/intn.c:690-700 | no negative zero leaves |
| `IntnBits.Bor` | src/libAtomVM/intn.c:707-727 | exactly the or of the two integers, for all lengths and signs |
| `IntnBits.Band` | src/libAtomVM/intn.c:734-754 | exactly the and if and only if its magnitude fits the longer operand's digits, otherwise zero; which operands those are |
| `IntnBits.Bxor` | src/libAtomVM/intn.c:761-781 | exactly the exclusive or unless the signs differ and the magnitudes add up to the room of the digits, then zero |
| `IntnBits.Bnot` | src/libAtomVM/intn.c:783-798 | exactly -x - 1 unless the operand is positive with all bits of its digits set, then zero |
| `IntnBits.BandOverflows` | src/libAtomVM/intn.c:734-754 | two one-digit operands whose and is -2^32, for which the contract of band leaves no digits but none |
| `IntnBits.BxorOverflows` | src/libAtomVM/intn.c:761-781 | 2^32 - 1 and -1, for which the contract of bxor leaves no digits but none |
| `IntnBits.BnotOverflows` | src/libAtomVM/intn.c:783-798 | 2^32 - 1, for which the contract of bnot leaves no digits but none |
| `IntnBits.BandExact` | src/libAtomVM/intn.c:734-754 | the and is minus the room of the digits if and only if both operands are negative and their two's complements share no bit |
| `IntnBits.BxorExact` | src/libAtomVM/intn.c:761-781 | the exclusive or is minus the room if and only if the signs differ and the magnitudes add up to it |
| `IntnBits.NegInPlace` | src/libAtomVM/intn.c:1161-1177 | two's complement in place and the digits it needs |
| `IntnShift.EffectiveBits` | src/libAtomVM/intn.c:800-841 | the bit length of a magnitude from its top digit |
| `IntnShift.Bsl` | src/libAtomVM/intn.c:800-841 | num * 2^n below 2^256, and more than eight digits otherwise; for a normalised number more than eight digits are reported exactly then |
| `IntnShift.Bsru` | src/libAtomVM/intn.c:843-871 | the digits from bit n on, with the sign's word shifted in |
| `IntnShift.Bsr` | src/libAtomVM/intn.c:873-899 | as many digits as the bits left need, computed from the operand, holding the magnitude of floor(x / 2^n) for both signs if it fits them and zero otherwise |
| `IntnShift.BsrExact` | src/libAtomVM/intn.c:873-899 | the answer is floor(x / 2^n) unless x is negative, the bits left fill whole digits and rounding carries out of them |
| `IntnShift.BsrOverflows` | src/libAtomVM/intn.c:873-899 | -(2^64 - 1) bsr 32: every answer that bsr may give is one digit zero, although the result is -2^32 |
| `IntnText.Tables` | src/libAtomVM/intn.c:966-991 | for every base the chunk is the power its digit count says and the buffer length has room for 256 bits |
| `IntnText.WriteAscii` | src/libAtomVM/utils.c:44-58 | the digits written denote the number, without leading zeros |
| `IntnText.DivideChunk` | src/libAtomVM/intn.c:1026-1048 | one division by the chunk leaves quotient and rest |
| `IntnText.PrintChunk` | src/libAtomVM/intn.c:1026-1063 | quotient and text together still denote the number |
| `IntnText.ToString` | src/libAtomVM/intn.c:961-1075 | the text is the numeral of the integer in the base, without leading zeros, and fits the buffer, or memory ran out |
| `IntnBytes.FromIntegerBytes` | src/libAtomVM/intn.c:1179-1230 | the magnitude modulo the room of the digits counted, so the value itself up to 32 bytes, in either order, unsigned or two's complement; -1 exactly from 44 bytes on |
| `IntnBytes.FromBytesOverflows` | src/libAtomVM/intn.c:1225-1229 | 33 bytes whose value is 2^256 and whose digits kept are all zero |
| `IntnBytes.RequiredUnsignedBytes` | src/libAtomVM/intn.c:1300-1311 | the least number of bytes that hold the magnitude |
| `IntnBytes.ToIntegerBytes` | src/libAtomVM/intn.c:1232-1298 | the value modulo the room of the bytes in either order; -1 exactly when the magnitude does not fit |
| `IntnBytes.BytesRoundTrip` | src/libAtomVM/intn.c:1179-1298 | the bytes give the value back if and only if it is in the unsigned or the two's complement range |
| `IntnBytes.LittleUnique` | src/libAtomVM/intn.c:1254-1274 | bytes with a nonzero top byte are the only shortest bytes of their value |
| `Bif.CanonicalUnique` | src/libAtomVM/bif.c:592-625 | a value has one canonical representation on each machine |
| `Bif.MakeBigExact` | src/libAtomVM/bif.c:592-625 | a result is stored canonically with its value, or is an overflow exactly beyond 256 bits |
| `Bif.Mul` | src/libAtomVM/bif.c:907-1049 | the exact product in canonical form across all representations, or an overflow exactly when it has more than 256 bits or two digit buffers together are too long |
| `Bif.TooLongExact` | src/libAtomVM/bif.c:918-942 | where the buffers are too long the product is too, except for one family on 64-bit machines |
| `Bif.FalseOverflow` | src/libAtomVM/bif.c:918-942 | two operands of that family whose product fits |
| `Bif.DivMaybeBig` | src/libAtomVM/bif.c:1077-1111 | the quotient towards zero for operands of any size |
| `Bif.Div` | src/libAtomVM/bif.c:1120-1193 | the quotient towards zero in canonical form across all representations; zero divisors are refused |
| `Bif.RemMaybeBig` | src/libAtomVM/bif.c:1400-1434 | the remainder with the dividend's sign for operands of any size |
| `Bif.Rem` | src/libAtomVM/bif.c:1436-1502 | the remainder in canonical form unless an operand is misread or the machine word overflows, and what comes out then |
| `Bif.RemainderOfLarge` | src/libAtomVM/bif.c:1468-1478 | 2^63 rem 10 on a 32-bit machine is computed as -8 |
| `Bif.TruncLaw` | src/libAtomVM/bif.c:1172-1193 | a == (a div b) * b + (a rem b), the remainder smaller than b and signed like a |
| `Grisu.Multiply` | src/libAtomVM/float_utils.c:153-170 | the high half of the 128-bit product, correctly rounded, at least 2^62 for normalised factors, with no sum wrapping |
| `Grisu.RoundWeed` | src/libAtomVM/float_utils.c:214-230 | where the stepping stops, and acceptance exactly if no step further would be nearer to w - ulp and the number is well inside; the last digit never goes below zero |
| `Grisu.LargestPow10` | src/libAtomVM/float_utils.c:204-212 | a power of ten whose tenfold exceeds n, and at most n if n has no more than one leading zero bit |
| `Grisu.DigitGen` | src/libAtomVM/float_utils.c:232-277 | succeeds if and only if some number of the final length is sound, with digits of a sound number, no leading zero for normalised factors, and nothing shorter in the unsafe interval; the loops end and no 64-bit step wraps |
| `Grisu.ShorterNoneFits` | src/libAtomVM/float_utils.c:232-277 | if no number of one length fits the unsafe interval, none shorter does |
| `Grisu.SoundIsNearest` | src/libAtomVM/float_utils.c:214-277 | a sound number is as near to every point within a unit of w as any other number of its length |
| `Grisu.SoundIsInside` | src/libAtomVM/float_utils.c:232-277 | a sound number lies strictly between any true boundaries within a unit of the computed ones |
| `CachedPowers.Accurate` | src/libAtomVM/float_utils.c:89-132 | each of the 87 cached powers of ten is normalised and right to half a unit of its last bit |
| `CachedPowers.CachedPow` | src/libAtomVM/float_utils.c:134-143 | the entry chosen is accurate and brings the exponent of the product between -60 and -32, however the estimate is rounded |
| `Grisu3.Normalize` | src/libAtomVM/float_utils.c:172-184 | the same value with the top bit set |
| `Grisu3.NextDouble` | src/libAtomVM/float_utils.c:186-198 | the double of the next bits is one unit in the last place above, across exponents and subnormals |
| `Grisu3.ReadsBack` | src/libAtomVM/float_utils.c:279-314 | whatever lies strictly between the midpoints is nearer to the double than to any other |
| `Grisu3.WithinOne` | src/libAtomVM/float_utils.c:306-310 | value and boundaries times the cached power are within one unit of exact |
| `Grisu3.ShortestDigits` | src/libAtomVM/float_utils.c:279-314 | for every positive finite double: at most 17 digits, strictly between the midpoints to its neighbours, no decimal with fewer digits there, none of the same length nearer; it gives up only if no number of the shortest length is sound |
| `Grisu3.ShortestReadsBack` | src/libAtomVM/float_utils.c:279-314 | no other double is as near to the digits as the one they were made for |
| `Grisu3.SeventeenDigits` | src/libAtomVM/float_utils.c:279-314 | the shortest digits of a double are at most 17 |
| `Grisu3.SeventeenReadsBack` | src/libAtomVM/float_utils.c:419-432 | a double correctly rounded to seventeen digits lies strictly between the midpoints |
| `FloatText.WriteExponent` | src/libAtomVM/float_utils.c:320-327 | the exponent as a numeral with its sign |
| `FloatText.Lay` | src/libAtomVM/float_utils.c:434-489 | all layouts mean the digits' number, with digits on both sides of the point, no superfluous leading zeros, the last digit last, and an exponent exactly when it is called for |
| `FloatPrint.FixedOk` | src/libAtomVM/float_utils.c:336-393 | a text of the C library in Erlang's form is well written and means the same number |
| `FloatPrint.FixupG` | src/libAtomVM/float_utils.c:336-393 | in place: point and digit behind it added, plus sign and leading zeros of the exponent dropped |
| `FloatPrint.ShortText` | src/libAtomVM/float_utils.c:396-490 | for every finite double the text reads back as the double; where Grisu3 succeeds it is the shortest nearest decimal within 32 characters and nothing in it can be left out, otherwise the seventeen digits of the C library; by the number, which texts have an exponent; nothing is returned only if the library fails |
| `FloatPrint.TextReadsBack` | src/libAtomVM/float_utils.c:396-490 | no other number that a double stands for, of either sign, is as near to what the text says |
| `FloatPrint.MinusIsSign` | src/libAtomVM/float_utils.c:396-416 | the text begins with a minus if and only if the sign bit is set, also for zero |
| `FloatPrint.OnlyText` | src/libAtomVM/float_utils.c:434-489 | with or without an exponent, a number has one well-written text that leaves out what it can |
| `FloatPrint.PlaceOf` | src/libAtomVM/float_utils.c:445-460 | the guard on the length of the digits and their exponent is that the number is below 10^-4 |
| `Monitors.ShortcutAgrees` | src/libAtomVM/context.c:1341-1360 | skipping the walk on a zero count never hides an alias, for any number of aliases |
| `Monitors.AddSane` | src/libAtomVM/context.c:1109-1188 | adding keeps the list free of duplicates and the saturating count right |
| `Monitors.CountFitsByte` | src/libAtomVM/context.c:1109-1188 | the count of aliases fits eight bits and is exact below 255 |
| `Monitors.UnaliasSane` | src/libAtomVM/context.c:1362-1375 | removing an alias keeps the list free of duplicates and the saturating count right |
| `Monitors.Context.AddMonitor` | src/libAtomVM/context.c:1109-1188 | the list becomes the specified one, and tells whether the entry was new |
| `Monitors.Context.UnaliasAt` | src/libAtomVM/context.c:1362-1375 | unlinks one alias and adjusts the count |
| `Monitors.Context.DropAliasOf` | src/libAtomVM/context.c:1293-1339 | an alias goes with its monitor unless it asked for an explicit unalias |
| `Monitors.Context.DemonitorRef` | src/libAtomVM/context.c:1293-1339 | the list after a demonitor |
| `Monitors.Context.MonitorDown` | src/libAtomVM/context.c:506-560 | a DOWN is delivered exactly when the monitor is still there, and takes it along |
| `ProtocolProof.ApplyWatchers` | src/libAtomVM/context.c:143-250 | handling a signal changes who watches a process just as its queue said, and touches no monitor of its own |
| `ProtocolProof.DrainWatchers` | src/libAtomVM/context.c:143-250 | so does draining the whole mailbox |
| `ProtocolProof.TerminateFindsTargets` | src/libAtomVM/context.c:854-986 | under the invariant every monitored half left after the drain names another live process |
| `ProtocolProof.CallDemonitorKeeps` | src/libAtomVM/nifs.c:5358-5401 | demonitoring keeps the invariant |
| `ProtocolProof.SetMonitorKeeps` | src/libAtomVM/nifs.c:5214-5356 | setting a monitor keeps the invariant, on itself, on a missing or on a live process |
| `ProtocolProof.AliasMessageKeeps` | src/libAtomVM/context.c:562-592 | delivering or dropping an alias message keeps the invariant |
| `ProtocolProof.SetAsideKeeps` | src/libAtomVM/mailbox.c:464-570 | the first pass over a batch keeps the invariant |
| `ProtocolProof.HandleDownKeeps` | src/libAtomVM/context.c:506-560 | handling a DOWN keeps the invariant |
| `ProtocolProof.TerminateKeeps` | src/libAtomVM/context.c:854-986 | a dying process leaves the invariant to the others |
| `ProtocolProof.NextKeeps` | src/libAtomVM/context.c:143-250 | every step of every process keeps the invariant |
| `ProtocolRuns.NextStanding` | src/libAtomVM/context.c:854-986 | every step keeps each monitor registered with its live target or its DOWN on the way |
| `ProtocolRuns.RunStanding` | src/libAtomVM/context.c:854-986 | both invariants hold in every state of every run |
| `ProtocolRuns.RunTargetsFound` | src/libAtomVM/context.c:854-986 | in every run a dying process finds everyone it has to notify |
| `ProtocolRuns.RunDelivery` | src/libAtomVM/context.c:506-592 | in every run a monitor delivers at most one DOWN and a reply alias at most one message |
| `ProtocolRuns.RunSettled` | src/libAtomVM/context.c:854-986 | a process with nothing queued monitors live processes only, and they know it |
| `ProtocolRuns.RunQuiet` | src/libAtomVM/context.c:506-592 | once a monitor is gone no DOWN comes for it, and once an alias is inactive nothing comes through it |
| `ProtocolRuns.DemonitorTakesEffect` | src/libAtomVM/nifs.c:5358-5401 | after demonitor the monitor is gone |
| `ProtocolRuns.RunEnds` | src/libAtomVM/context.c:506-592 | while its owner lives and does not demonitor, a monitor stands, or its DOWN or its one reply has come |
| `ProtocolRuns.RunDownArrives` | src/libAtomVM/context.c:854-986 | with the target gone and the owner's queue empty the DOWN has come exactly once, unless the owner took the monitor back or got its reply |
| `ProtocolEffects.MonitorIsSet` | src/libAtomVM/nifs.c:5214-5356 | on another live process the caller holds its half, the alias if and only if asked for, and the target will count it among its watchers; nothing else changes |
| `ProtocolEffects.MissingGivesDown` | src/libAtomVM/nifs.c:5214-5356 | on a missing process one DOWN at once, no half, only an explicit alias |
| `ProtocolEffects.OwnIsIgnored` | src/libAtomVM/nifs.c:5214-5356 | on itself entries, queues and messages are as before |
| `ProtocolEffects.DemonitorRemoves` | src/libAtomVM/nifs.c:5358-5401 | half and alias go unless the alias is explicit, the target is told and forgets the caller; nothing happens without such a half |
| `ProtocolEffects.AliasIsMade` | src/libAtomVM/nifs.c:7804-7842 | one active alias more, and nothing else |
| `ProtocolEffects.UnaliasRemoves` | src/libAtomVM/nifs.c:7844-7864 | the alias of any kind is gone, and nothing else |
| `ProtocolEffects.SendIsQueued` | src/libAtomVM/globalcontext.c:433-445 | a message to an alias of a live process is queued behind all others |
| `ProtocolEffects.DetachTakesAll` | src/libAtomVM/mailbox.c:464-490 | a process looks at all that is queued, in order |
| `ProtocolEffects.SpawnStarts` | src/libAtomVM/context.c:65-141 | a new process holds, has queued and has received nothing |
| `ProtocolEffects.MessageIsDelivered` | src/libAtomVM/context.c:562-592 | a message is received with its payload if and only if its alias is active; one to a reply alias takes alias and monitor along |
| `ProtocolEffects.SignalIsSetAside` | src/libAtomVM/mailbox.c:464-570 | other signals wait in their order; a DOWN takes an alias along that is not explicit |
| `ProtocolEffects.DownIsDelivered` | src/libAtomVM/context.c:506-560 | a DOWN is received if and only if the monitor still stands, and takes it along |
| `ProtocolEffects.SignalIsApplied` | src/libAtomVM/context.c:1109-1188 | a half comes or goes as the signal says |
| `ProtocolEffects.TerminateTells` | src/libAtomVM/context.c:854-986 | exactly the watchers of a process that ends are sent its DOWN, exactly its targets are told, and nobody gets anything else |
| `ProtocolEffects.RunMonitorFires` | src/libAtomVM/nifs.c:5214-5356 | in every run, from the call that sets a monitor to exactly one DOWN once the target is gone and the queue is empty, or the reply that ends it |
| `ProtocolEffects.RunDownMeansDeath` | src/libAtomVM/context.c:854-986 | in every run a DOWN comes only if the target has ended since the monitor was set |
| `ProtocolEffects.RunInOrder` | src/libAtomVM/context.c:562-592 | in every run, while an alias stays active, nothing sent to it is lost, doubled or out of order |
| `ProtocolEffects.CanSettle` | src/libAtomVM/mailbox.c:464-570 | a process can always work through its queue to the end |
| `ProtocolEffects.CanEnd` | src/libAtomVM/context.c:854-986 | and then it can end |
| `ProtocolEffects.CanCall` | src/libAtomVM/nifs.c:5214-5401 | who can make which call, and when |
| `EtfProof.SizeIsLength` | src/libAtomVM/external_term.c:210-408 | the size pass returns the length of what the write pass writes |
| `EtfProof.RoundTrip` | src/libAtomVM/external_term.c:662-940 | parsing the bytes of a term anywhere in memory gives the term, its length and its heap words |
| `EtfProof.OnlyEncodable` | src/libAtomVM/external_term.c:236-408 | a term that comes back has no list of bytes too long for its count |
| `EtfProof.ExactRoundTrip` | src/libAtomVM/external_term.c:119-149 | binary_to_term, validator and parser together, undoes term_to_binary if and only if no list of bytes has 65536 elements or more |
| `EtfProof.LongStringLost` | src/libAtomVM/external_term.c:343-362 | a list of 65536 bytes that binary_to_term does not give back |
| `EtfProof.ValidateExact` | src/libAtomVM/external_term.c:1098-1416 | the validator accepts the bytes of a term if and only if enough are said to remain, with the term's size and at least the parser's heap words |
| `EtfProof.TuplePassesShort` | src/libAtomVM/external_term.c:1185-1229 | an empty tuple accepted with one byte fewer than it has |
| `EtfProof.BinaryRoundTripWhole` | src/libAtomVM/external_term.c:119-149 | validation and parsing together give the term back and use every byte |
| `EtfProof.DigitsFromBytes` | src/libAtomVM/external_term.c:1157-1163 | the digits the validator reserves for a magnitude are those the parser stores |
| `EtfCode.GetNumBytes` | src/libAtomVM/external_term.c:215-223 | the number of bytes of a magnitude |
| `EtfCode.WriteBytes` | src/libAtomVM/external_term.c:225-234 | the bytes of a magnitude in place, and nothing else changed |
| `EtfCode.ReadBytes` | src/libAtomVM/external_term.c:593-600 | the value of little-endian bytes |
| `EtfCode.SerializeInt` | src/libAtomVM/external_term.c:238-279 | the encoding of an integer in place |
| `EtfCode.SerializeList` | src/libAtomVM/external_term.c:364-381 | elements, tail, and the count put in last |
| `EtfCode.Serialize` | src/libAtomVM/external_term.c:236-408 | writes exactly the encoding, returns exactly the size pass, and changes no other byte |
| `EtfCode.ToBinary` | src/libAtomVM/external_term.c:186-208 | the version byte and the encoding |
| `EtfFormat.EncodeStands` | src/libAtomVM/external_term.c:236-408 | what is written for a term is bytes of the format that stand for it: tags, fields by powers of 256, payloads |
| `EtfFormat.ParseIsFormat` | src/libAtomVM/external_term.c:662-940 | the parser reads bytes as a term if and only if they stand for it and its names are valid |
| `EtfFormat.FormatAccepted` | src/libAtomVM/external_term.c:1098-1416 | the validator accepts all bytes that stand for a term, to the last, and counts words enough to parse them |
| `EtfFormat.AcceptsOnly` | src/libAtomVM/external_term.c:1098-1416 | nothing with another tag is accepted |
| `EtfFormat.OneTerm` | src/libAtomVM/external_term.c:662-940 | bytes stand for one term only |
| `EtfFormat.BinaryStands` | src/libAtomVM/external_term.c:186-208 | term_to_binary writes 131 and bytes of the format |
| `EtfFormat.BinaryTakes` | src/libAtomVM/external_term.c:119-150 | binary_to_term takes 131 and any bytes of the format for their term |
| `EtfFormat.BinaryReads` | src/libAtomVM/external_term.c:119-150 | what binary_to_term used begins with 131 and stands for its result |
| `EtfFormat.HeapLayout` | src/libAtomVM/external_term.c:1098-1416 | heap words as a header and the payload in words of the machine |
| `EtfFormat.SmallBits` | src/libAtomVM/term_typedef.h:91-92 | small integers are those of all bits of a word but four |
| `EtfCode.ParseElements` | src/libAtomVM/external_term.c:769-778 | the element loop with its running position is parsing one term after the other |
| `EtfCode.ValidateElements` | src/libAtomVM/external_term.c:1211-1228 | the element loop with what remains is validating one term after the other |
| `Ets.PlacedRows` | src/libAtomVM/ets_multimap.c:155-204 | a placed entry gives its key one row more in front, and other keys what they had |
| `Ets.SingleKeepsLatest` | src/libAtomVM/ets_multimap.c:132-215 | a set keeps the latest row of a key |
| `Ets.UniqueKeepsEach` | src/libAtomVM/ets_multimap.c:132-215 | a bag keeps each row once, those there and those that came |
| `Ets.ManyKeepsAll` | src/libAtomVM/ets_multimap.c:132-215 | a duplicate bag keeps everything, latest first |
| `Ets.CutRows` | src/libAtomVM/ets_multimap.c:438-454 | cutting the chains leaves each key its latest row |
| `Ets.ExceptKind` | src/libAtomVM/ets_multimap.c:256-361 | removing a row leaves the other rows of the key |
| `EtsTable.RevertEntries` | src/libAtomVM/ets_multimap.c:395-436 | a chain is cut behind the last entry of the batch |
| `EtsTable.RevertChain` | src/libAtomVM/ets_multimap.c:395-436 | a bucket that a partial batch has grown becomes exactly what it was |
| `EtsTable.Multimap.NodeFind` | src/libAtomVM/ets_multimap.c:363-392 | the node of a key in its bucket, or no memory to compare |
| `EtsTable.Multimap.Lookup` | src/libAtomVM/ets_multimap.c:86-130 | the rows of a key, latest first |
| `EtsTable.Multimap.Revert` | src/libAtomVM/ets_multimap.c:395-436 | all buckets and chains as before the batch |
| `EtsTable.Multimap.ToSingle` | src/libAtomVM/ets_multimap.c:438-454 | every chain cut to its head |
| `EtsTable.Multimap.Insert` | src/libAtomVM/ets_multimap.c:132-215 | every key holds what the table kind says of its old rows and the batch, or memory ran out and the buckets are exactly as before |
| `EtsTable.Multimap.Remove` | src/libAtomVM/ets_multimap.c:217-254 | the key holds nothing, other keys what they held, or nothing changed |
| `EtsTable.Multimap.RemoveTuple` | src/libAtomVM/ets_multimap.c:256-361 | the key loses exactly the equal rows, or nothing changed |
| `EtsOps.InsertOne` | src/libAtomVM/ets.c:682-711 | the status as a function of row and table, the row in on success and the table as before otherwise |
| `EtsOps.InsertMany` | src/libAtomVM/ets.c:713-772 | all rows or none, the status as a function of list and table: with insert_new one taken key keeps all out |
| `EtsOps.InsertTerm` | src/libAtomVM/ets.c:273-296 | a tuple or a proper list of tuples long enough, and nothing else, goes in |
| `EtsOps.LookupOrDefault` | src/libAtomVM/ets.c:859-910 | the row there, or the default under the key, or exactly why there is none |
| `EtsOps.UpdateElement` | src/libAtomVM/ets.c:298-353 | the status by table, specs and default; on success each element is the value of the last spec for its position and others stay, otherwise the table is as before |
| `EtsOps.UpdateCounter` | src/libAtomVM/ets.c:355-468 | the status by table, operations and default; on success each value returned counts on from the element there or the last value at its position, by the sum or the set value beyond the threshold, and is the element left for the last operation there; the assertion is met if and only if an item that is no tuple is reached; otherwise the table is as before |
| `EtsOps.SpecsKeepKey` | src/libAtomVM/ets.c:912-938 | element specs never change the key or the arity |
| `EtsOps.SpecsSucceed` | src/libAtomVM/ets.c:912-938 | specs succeed if and only if each is a pair with a position in the row that is not the key's |
| `EtsOps.ElementsLeft` | src/libAtomVM/ets.c:912-938 | each element is the second element of the last spec at its position, and elements no spec names stay |
| `EtsOps.OperationFollows` | src/libAtomVM/ets.c:940-999 | when an operation succeeds, and that it leaves the sum, in the bits a small integer has, or the set value beyond its threshold |
| `EtsOps.ValuesCountOn` | src/libAtomVM/ets.c:404-445 | each value of a list of operations counts on from the last one at its position |
| `EtsOps.CountStatus` | src/libAtomVM/ets.c:355-468 | which updates of counters succeed, run into the assertion, or are refused |
| `EtsOps.OpsKeepKey` | src/libAtomVM/ets.c:940-999 | neither do counter operations |
| `EtsOps.ValuesLeft` | src/libAtomVM/ets.c:404-445 | each value of a list of operations is the element left for the last operation on its position, and other elements stay |
| `EtsOps.OperationExact` | src/libAtomVM/ets.c:940-999 | an operation leaves what is meant if and only if it has four elements or the sum is a small integer; the value returned is the element left |
| `EtsOps.CounterWraps` | src/libAtomVM/ets.c:393-403 | a counter past the largest small integer, left and returned as the smallest |
| `EtsOps.OpsAbort` | src/libAtomVM/ets.c:940-942 | operations run into the assertion if and only if some item is no tuple and all before it succeed |
| `EtsOps.AbortsExactly` | src/libAtomVM/ets.c:355-468 | the same for every kind of operation |
| `EtsOps.CounterAborts` | src/libAtomVM/ets.c:940-942 | a list of one integer, for every row |
| `EtsOps.NeverOverflows` | src/libAtomVM/ets.c:940-999 | the overflow status is never given |
| `Flash.Create` | src/libAtomVM/jit_stream_flash.c:389-545 | a stream with an empty header in erased memory; nothing before the entry changed, on failure either, unless the write-back was cut short |
| `Flash.Prepare` | src/libAtomVM/jit_stream_flash.c:420-518 | stale data behind the entry is gone, what lies before it is as it was, or on failure perhaps only up to a page border |
| `Flash.EraseAround` | src/libAtomVM/jit_stream_flash.c:442-496 | a sector erased and written back up to the entry; on failure nothing changed, or the pages written back and behind them erased memory |
| `Flash.LostBefore` | src/libAtomVM/jit_stream_flash.c:442-496 | after a write-back cut short, memory before the entry is as it was if and only if what is missing was erased |
| `Flash.WritePage` | src/libAtomVM/jit_stream_flash.c:226-237 | a page written over memory where it clears bits only is what is read back |
| `Flash.FlushClears` | src/libAtomVM/jit_stream_flash.c:336-387 | writing the page buffer never sets a bit |
| `Flash.Stream.Open` | src/libAtomVM/jit_stream_flash.c:520-521 | the stream begins with the page of the entry |
| `Flash.Stream.AppendByte` | src/libAtomVM/jit_stream_flash.c:336-387 | one byte more; the check for a bit that cannot be set never fires; memory before the entry is as it was in every outcome |
| `Flash.Stream.Append` | src/libAtomVM/jit_stream_flash.c:336-387 | flushed pages and the buffer hold exactly what was written, in every page and sector; memory before the entry is as it was in every outcome |
| `Flash.Stream.Replace` | src/libAtomVM/jit_stream_flash.c:586-644 | the bytes are replaced if and only if those in flushed pages only clear bits; otherwise exactly the pages before the first that would set a bit are replaced; memory before the entry is as it was in every outcome |
| `Flash.ReplaceInPage` | src/libAtomVM/jit_stream_flash.c:269-334 | within a page: done if and only if only bits are cleared, otherwise unchanged |
| `Flash.Stream.Flush` | src/libAtomVM/jit_stream_flash.c:684-724 | flash holds the header, whose four bytes from 12 on are the size modulo 2^32, all the code, and, even on failure, what was there before the entry |
| `Atoms.AtomTable.constructor` | src/libAtomVM/atom_table.c:83-106 | an empty complete table, or one without groups if the first is refused |
| `Atoms.AtomTable.Find` | src/libAtomVM/atom_table.c:164-177 | the bucket finds a name if and only if a node with it as text is there, and then its 20-bit index |
| `Atoms.AtomTable.NameAt` | src/libAtomVM/atom_table.c:194-211 | the name of an index if and only if the 16-bit length of its group covers it, otherwise nothing or an address outside |
| `Atoms.AtomTable.NewGroup` | src/libAtomVM/atom_table.c:132-149 | a new group continues the indices without a gap, its length kept in 16 bits |
| `Atoms.AtomTable.InsertNode` | src/libAtomVM/atom_table.c:301-313 | the text kept of the name gets the next index, others keep theirs; texts stay where they are looked for if and only if the name and its text have one bucket |
| `Atoms.AtomTable.DoRehash` | src/libAtomVM/atom_table.c:315-349 | exactly the nodes that the 16-bit lengths count are in the new buckets, and all of them if no group is too long |
| `Atoms.AtomTable.MaybeRehash` | src/libAtomVM/atom_table.c:351-361 | when and to what capacity, and no name or index changes |
| `Atoms.AtomTable.EnsureAtom` | src/libAtomVM/atom_table.c:363-409 | the index field of a node with the name, or the next index for what is kept of it; a table stays complete with a name of less than 1024 bytes; nothing changed on failure |
| `Atoms.AtomTable.EnsureAtoms` | src/libAtomVM/atom_table.c:432-507 | what is kept of the names without a node at the end in batch order and the index of each, on failure of those before it; groups stay short if and only if fewer than 65536 names do not fit the last one |
| `Atoms.IndexRight` | src/libAtomVM/atom_table.c:363-507 | with at most 2^20 texts, the index given for a name is one of what is kept of it |
| `Atoms.FieldRight` | src/libAtomVM/atom_table.c:50-56 | among different texts the index field gives the text if and only if the index is below 2^20 |
| `Atoms.DistinctAfter` | src/libAtomVM/atom_table.c:363-507 | texts and indices stay one to one if and only if no two missing names are kept as one text, and none as a text that is there |
| `Atoms.MissingJoin` | src/libAtomVM/atom_table.c:432-507 | missing names come in the order of the batch |
| `Atoms.ShortNames` | src/libAtomVM/atom_table.c:432-507 | for names of less than 1024 bytes and a table that knows its names, that is so if and only if the batch repeats no missing name |
| `Atoms.LongNameTwice` | src/libAtomVM/atom_table.c:164-177 | a name of 1024 bytes or more, given in two calls, gets two indices in every table |
| `Atoms.RepeatedName` | src/libAtomVM/atom_table.c:432-507 | a new name given twice gets two indices |
| `Atoms.RunDistinct` | src/libAtomVM/atom_table.c:363-507 | over every run of calls, with any names, refusals and losses, an index keeps its text, and texts and indices are one to one if and only if no call clashed |
| `Atoms.RunShort` | src/libAtomVM/atom_table.c:363-507 | over every run with names of less than 1024 bytes, on tables that know their names, they are one to one if no batch repeats a new one |
| `Atoms.WalkFinds` | src/libAtomVM/atom_table.c:194-211 | where the walk through the groups comes to, for every index and any lengths |
| `Atoms.AllReadable` | src/libAtomVM/atom_table.c:194-211 | every index is read as its name if and only if no group uses more nodes than its length field says |
| `Atoms.LongGroupLost` | src/libAtomVM/atom_table.c:132-149 | 65536 new names behind a full group: none is readable and a rehash drops them all |
| `Atoms.NodeAdded` | src/libAtomVM/atom_table.c:293-313 | buckets stay truthful when a name comes, and complete if and only if they were and the name and its text have one bucket |
| `MapUpdate.SortPairs` | src/libAtomVM/jit.c:1791-1820 | ascending and a permutation; a permutation if memory to compare ran out |
| `MapUpdate.Merge` | src/libAtomVM/jit.c:1822-1888 | the two lists stitched: ascending, and never reading past either |
| `MapUpdate.PutMapAssoc` | src/libAtomVM/jit.c:1822-1888 | ascending, and exactly the updates and the old associations whose keys were not updated |
| `BitString.FieldOfBits` | src/libAtomVM/bitstring.c:61-113 | a field with the bits of a value is the value modulo 2^n |
| `BitString.ExtractAny` | src/libAtomVM/bitstring.c:32-59 | the field of up to 64 bits read bit by bit, swapped and sign-extended, or that the code shifts a word too far |
| `BitString.InsertAny` | src/libAtomVM/bitstring.c:61-113 | for every width, what the field then holds, and every other bit as it was |
| `BitString.EncodedShort` | src/libAtomVM/bitstring.c:61-113 | up to 64 bits the field holds the value modulo 2^n, with its bytes reversed first if little-endian |
| `BitString.BitOfRev` | src/libAtomVM/bitstring.c:27-30 | bit by bit, what reversing bytes does |
| `BitString.RoundTrip` | src/libAtomVM/bitstring.c:32-113 | for every width up to 64 the value modulo 2^n comes back with its sign, if and only if the field is big-endian, of whole bytes, or the bits that move are equal |
| `BitString.PartByteLost` | src/libAtomVM/bitstring.c:32-113 | 1 in a little-endian field of twelve bits does not come back |
| `BitString.LongExact` | src/libAtomVM/bitstring.c:61-113 | a field of more than 64 bits holds the value if and only if that is not negative and, little-endian off a byte border, has zeros in its low bytes |
| `BitString.LongFieldsLost` | src/libAtomVM/bitstring.c:61-113 | 1 and -1 in fields of 72 bits |
| `BitString.SignedWordUndefined` | src/libAtomVM/bitstring.c:52-53 | a signed field of 64 bits off a byte border |
| `BitString.InRange` | src/libAtomVM/bitstring.c:32-113 | values in the range of the field come back unchanged |
| `BitString.RevTwice` | src/libAtomVM/bitstring.c:27-30 | reversing bytes twice gives them back |
| `BitString.SwapDown` | src/libAtomVM/bitstring.c:48-50 | swapping as a 64-bit word and shifting down reverses the bytes of the field |
| `BitString.ExtractInteger` | src/libAtomVM/bitstring.h:116-193 | the aligned fast paths read what the bit loop reads; what is undefined |
| `BitString.InsertInteger` | src/libAtomVM/bitstring.h:195-284 | the aligned fast paths write what the bit loops write, for every width |
| `BitString.CopyLoop` | src/libAtomVM/bitstring.c:335-359 | bits copied across byte borders on both sides, every other bit as it was; the highest byte touched on either side is the one behind the last bit |
| `BitString.CopyBits` | src/libAtomVM/bitstring.h:497-504 | the bits of the source in place and every other bit as it was, by whole bytes and bit by bit alike, unless a byte behind a buffer is touched |
| `BitString.CopyReadsOn` | src/libAtomVM/bitstring.c:323-360 | within both buffers a byte behind one is touched if and only if the bits end with it and are not whole bytes to whole bytes |

## Left out

- Locks: each locked region is one atomic step.
- Garbage collection, heap layout and tag bits: terms are values, and heap use is counted in words.
- Memory exhaustion in `Bif`: results that need heap are assumed to get it.
- Floats in arithmetic, and `add`, `sub`, `neg`, `abs` and the bitwise operations of `bif.c`: the same dispatch again.
- The 16-bit multiplication and the big-endian conversions of `intn.c`: other builds of the same functions.
- `size_t` widths in `intn.c`: lengths are unbounded; the buffers the code declares are kept.
- Parsing of integers and floats from text, and `intn_from_double`.
- FloatPrint.ShortText: what `snprintf` prints where Grisu3 gives up is a parameter for each of the two formats, required to be seventeen digits correctly rounded, with an exponent where the C standard has one; digits are copied into the buffer where the code generates them in place.
- The other float formats and the single precision build of `float_utils.c`.
- CachedPowers.CachedPow: the product of doubles in the estimate is a real product rounded by any function off by at most 1/10000.
- Links, resource monitors, remote processes, ports and the flush option of demonitor: the monitor protocol is modelled between local processes.
- Process identifiers and references wrap around in the code; here references are never reused.
- External pids, ports, references, funs and exports, Latin-1 atoms and the safe option of the external term format; the UTF-8 check of atom names is a parameter.
- Single precision floats in external terms: floats are their 64 bits.
- EtfCode.Serialize: does not model the `int` the code returns wrapping beyond 2^31 bytes.
- EtsTable.Multimap.Insert: does not model the relinking of `next` pointers and freeing, because chains are sequences and the address of an entry is its id; the order of entries and what is unlinked are kept.
- Hash functions of ETS and of the atom table are parameters; `term_compare` is equality in ETS and a total order in map updates.
- ETS table registry, access rights, select on lookup and table deletion.
- Flash.ReplaceInPage: one page, as the stream calls it; the marker change in `globalcontext_set_cache_valid` uses the same loop over more pages.
- `jit_stream_flash_finalize_entry`, reading from the stream, replacing after a flush, and the search for the last entry.
- Flash.Prepare: compares bytes where the code compares aligned words.
- Flash.WritePage: flash memory is an array whose bytes are anded with what is written; a write or an erase that fails changes nothing.
- Atoms.AtomTable.EnsureAtoms: takes decoded names; counts fit an `int`.
- BitString.ExtractAny: fields of more than 64 bits are not modelled, because every caller refuses them or takes them as bytes.
- Floats and UTF encodings in `bitstring.c`.
- Instruction decoding, scheduling, drivers and the standard library.
