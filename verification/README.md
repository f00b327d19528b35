# ACE core algorithms, modelled and proved

This project models the self-contained algorithms of the ACE library that is bundled with the peer-to-peer
application under `P2pNet/ace`, and proves what they promise. Each module models one component.

| module | component |
|---|---|
| `Barrier` | the two-generation thread barrier, as a state machine of lock-held pieces run by any number of threads |
| `SwapArray` | word-parallel byte swapping of arrays, with its alignment cases and both store paths |
| `LongDouble` | the 16-byte CDR long double and its conversions from and to a native double |
| `CrcPolynomial`, `BitUnpacking`, `Crc32`, `CrcCcitt` | the table-driven checksums, against polynomial division over GF(2) |
| `CrcOrder`, `Crc32Order`, `CrcCcittOrder` | which errors they miss, and the order of x modulo their generators |
| `Alignments` | rounding up to alignments, shared by `SwapArray` and `SizeCdr` |
| `WildMatch` | the backtracking wildcard matcher, against the recursive relation |
| `Transfer` | gather/scatter transfers that continue after partial ones, and the batched sending of message chains |
| `FrameSize` | greatest common divisor and enclosing frame, with wrap-around |
| `ArrayMap` | the map in an unsorted array, against finite maps |
| `SizeCdr` | the size-computing CDR stream, against an encoder |
| `ArgvTypeConverter` | keeping two copies of an argument list in step |
| `ArgShifter` | the argument shifter, as a stable partition |
| `Argv` | the incrementally built argument list, its text, and the splitting of that text |
| `ArgvLayout` | what splitting makes of every text |

Code that updates state is modelled by methods, on arrays and on classes with the source's fields. Each method
is tied by its `ensures` to a function of its inputs and the old state, and the lemmas are about these functions.

What the environment does is a parameter: the kernel is a script of answers, the scheduler any sequence of
enabled events, the platform (word size, byte order, alignments) a value every routine takes, the allocation of
the shifter's temporary vector a flag. Fixed-width arithmetic is modelled with bit-vectors where it is the point
(swaps, checksums, the long double) and with an explicit modulus in `FrameSize` and in the string lengths of
`SizeCdr`; other sizes and counts are unbounded.

Where the code does not do what its description suggests, the code is modelled and the exact condition under
which it does is proved:

- `WildMatch.OneGapIff`: `wild_match` does not move `str` when it meets a star but restarts from `++str`, so
  the end of a text may overlap its beginning.
- `ArrayMap.ErasedRangeIff`: range erase moves tail entries into the range it walks, and refuses ranges that end
  at `end()`.
- `LongDouble.ValueKeptIff`: zeros and subnormal doubles become nonzero normal quads.
- `SizeCdr.CountedIff`, `SizeCdr.RunSizedRightIff`: where a wide character has two octets both in memory and on
  the wire, a single one is accounted as four, while an array of them is accounted as two each. Later padding can
  absorb the error; but for wrapped lengths it never makes a run too small (`SizeCdr.NeverTooSmall`).
- `FrameSize.FrameIsLcmIff`: the product of two periods may wrap around.
- `Argv.RoundTripIff`: only well-formed arguments survive rendering and splitting.
- `Argv.BodyFitsIff`: `argv()` overwrites `argc_` with the number of words the text splits into. It can then be
  below the number of arguments added (`Argv.FallBehind`), and the buffer for their text is too small.
- `Transfer.EndOfFileIff`, `Transfer.TimedSendIff`: the precedence of `&&` and `||` in the timed send.
- `Barrier.MixedIff`: two sub-barriers are not enough when more threads wait than the barrier counts.
- `ArgShifter.OffsetZeroIff`: the documentation says the offset of a longer match is always positive; for an
  empty flag it can be 0.
- `ArgShifter.ArgShifter.constructor`: the documentation says that a failed allocation forbids iteration; the code
  returns before doing so.
- The comments on `back_` and `front_` in `P2pNet/ace/Arg_Shifter.h` are exchanged relative to the code.

`dafny verify dfyconfig.toml` checks everything.

## Model

| member | source | states |
|---|---|---|
| `Barrier.Barrier.constructor` | P2pNet/ace/Barrier.cpp:68-80 | Two sub-barriers with all threads still to come, generation 0, not shut down. |
| `Barrier.SubBarrier.constructor` | P2pNet/ace/Barrier.cpp:40-48 | All threads still to come, nobody waiting. |
| `Barrier.SubBarrier.NotifyAll` | P2pNet/ace/Barrier.cpp:107 | The broadcast releases every thread asleep on this sub-barrier. |
| `Barrier.Barrier.Wait` | P2pNet/ace/Barrier.cpp:83-111 | The first lock-held piece of `wait`: fails after shutdown, lets the last arrival swap generations and release the others, makes any other arrival count itself and sleep. |
| `Barrier.Barrier.Test` | P2pNet/ace/Barrier.cpp:112-125 | The waiting loop's test: sleep while threads are missing, otherwise return, with -1 after shutdown. |
| `Barrier.Barrier.Continue` | P2pNet/ace/Barrier.cpp:110-128 | A thread released by the condition variable either sleeps again or returns 0, or -1 if the barrier was shut down meanwhile. |
| `Barrier.Barrier.ShutDown` | P2pNet/ace/Barrier.cpp:132-154 | Clears both sub-barrier pointers and releases the current sleepers; returns -1 and changes nothing when already shut down. |
| `Barrier.Step` | P2pNet/ace/Barrier.cpp:83-154 | Every step (arrival, wakeup, spurious wakeup, shutdown) of any thread keeps the inductive invariant: which threads may be in which sub-barrier and what the two counters hold. |
| `Barrier.Reachable` | P2pNet/ace/Barrier.cpp:83-154 | The invariant holds after every run from a state that has it. |
| `Barrier.EnterLast` | P2pNet/ace/Barrier.cpp:98-107 | When the last thread arrives, as many threads take part as the barrier counts, everybody else is in the current sub-barrier, and both are left with no sleeper: why two are enough. |
| `Barrier.Safety` | P2pNet/ace/Barrier.cpp:83-129 | With at most as many threads as the barrier counts: if a thread's k-th wait returned 0, all of them have entered their k-th wait; any interleaving, spurious wakeups and shutdown included. |
| `Barrier.RoundsDifferByOne` | P2pNet/ace/Barrier.cpp:83-129 | The numbers of waits that returned 0 differ by at most one between any two threads. |
| `Barrier.NeverReentered` | P2pNet/ace/Barrier.cpp:83-129 | Before shutdown, threads inside the same sub-barrier are in the same call of wait, and no wait has failed. |
| `Barrier.MixedIff` | P2pNet/ace/Barrier.cpp:83-129 | For any numbers of threads and count: some run puts threads in different calls of wait into one sub-barrier before shutdown if and only if the count is at least two and more threads than that take part. |
| `Barrier.NoLostWakeup` | P2pNet/ace/Barrier.cpp:112-116 | A thread sleeps only in the current sub-barrier and only while arrivals are missing; nobody sleeps after shutdown. |
| `Barrier.Progress` | P2pNet/ace/Barrier.cpp:83-129 | With `count` threads and all of them inside wait, some thread can run and its wait returns 0. |
| `Barrier.NeverStuck` | P2pNet/ace/Barrier.cpp:83-129 | From every state before shutdown that `count` threads reach there is a continuation, without shutdown, after which every thread has completed exactly one round more than the most any had completed, and every wait returned 0. |
| `Barrier.RoundsOf` | P2pNet/ace/Barrier.cpp:83-129 | From every state before shutdown, whatever the schedule, a run without shutdown of `count` threads or fewer completes enough rounds to pay for its events: the steps left in the current round, and 2 count - 1 for each further one, a spurious wakeup counting against the run. |
| `Barrier.EverySchedule` | P2pNet/ace/Barrier.cpp:83-129 | In every run of `count` threads without shutdown, whatever the scheduler does, all waits return 0 and the number each thread has completed grows with the length of the run: without spurious wakeups a run is shorter than count + (completed + 1) * (2 count - 1) events. |
| `Barrier.CanGoOn` | P2pNet/ace/Barrier.cpp:83-129 | Before shutdown some thread can always arrive, or run and complete its wait. |
| `Barrier.ShutdownReleases` | P2pNet/ace/Barrier.cpp:118-154 | After shutdown every thread still inside, in either sub-barrier, can run and its wait returns -1. |
| `Barrier.StaysDown` | P2pNet/ace/Barrier.cpp:88-95 | After shutdown every later wait and shutdown, in every run, returns -1 and changes nothing. |
| `Barrier.FirstShutdown` | P2pNet/ace/Barrier.cpp:132-154 | In every run, of all calls of shutdown the first returns 0 and the others -1. |
| `Barrier.OneThreadTooMany` | P2pNet/ace/Barrier.cpp:83-129 | For every count of at least two and every larger number of threads there is a run in which a sub-barrier is entered again while an old waiter is still inside, and that waiter, whose round is over, falls asleep again. |
| `SwapArray.Swap2Array` | P2pNet/ace/CDR_Base.cpp:27-251 | For every count, source aligned to its elements, target alignment, byte order and word size, the target receives exactly the elements with their two bytes exchanged and nothing else changes; in place or on separate memory. |
| `SwapArray.Swap4Array` | P2pNet/ace/CDR_Base.cpp:254-455 | The same for elements of four bytes. |
| `SwapArray.Prefix2` | P2pNet/ace/CDR_Base.cpp:34-58 | The prefix step moves elements until wide reads are aligned or none is left. |
| `SwapArray.Prefix4` | P2pNet/ace/CDR_Base.cpp:258-273 | For four-byte elements the mismatch with eight-byte words is at most one element. |
| `SwapArray.Unrolled` | P2pNet/ace/CDR_Base.cpp:60-236 | The unrolled loop moves the largest multiple of four of the elements left, by mask and shift. It reads words only at multiples of their size and stores a word whole exactly where the target is one (multiples of four where `swap_2_array` takes a 64-bit x86 for a Pentium; the 32-bit loop of `swap_4_array` does not look at the target). |
| `SwapArray.Tail` | P2pNet/ace/CDR_Base.cpp:238-250 | The fall-through switch moves the rest. |
| `SwapArray.FourPairs64` | P2pNet/ace/CDR_Base.cpp:104-200 | One turn on a 64-bit word: the same four swapped elements through the aligned store and through four two-byte stores. |
| `SwapArray.FourPairs32` | P2pNet/ace/CDR_Base.cpp:115-230 | One turn on two 32-bit words, again by either store. |
| `SwapArray.FourQuads64` | P2pNet/ace/CDR_Base.cpp:285-371 | One turn on two 64-bit words of four-byte elements, by either store. |
| `SwapArray.FourQuads32` | P2pNet/ace/CDR_Base.cpp:413-438 | One turn on four 32-bit words. |
| `SwapArray.Pairs8Join` | P2pNet/ace/CDR_Base.cpp:109-112 | The two masks and shifts exchange the bytes of each of the four pairs of a 64-bit word. |
| `SwapArray.Quads8Join` | P2pNet/ace/CDR_Base.cpp:303-313 | The four masks and shifts reverse each of the two quadruples of a 64-bit word. |
| `SwapArray.Swap2` | P2pNet/ace/CDR_Base.inl:66-94 | One two-byte element, as a 16-bit word shifted both ways. |
| `SwapArray.Swap4` | P2pNet/ace/CDR_Base.inl:97-126 | One four-byte element, as a 32-bit word. |
| `SwapArray.ReversedTwice` | P2pNet/ace/CDR_Base.cpp:27-251 | Reversing elements anywhere in a memory twice restores it. |
| `SwapArray.OtherByteOrder2` | P2pNet/ace/CDR_Base.cpp:27-251 | An element read in one byte order before the swap and in the other after it is the same number. |
| `SwapArray.OtherByteOrder4` | P2pNet/ace/CDR_Base.cpp:254-455 | The same for elements of four bytes. |
| `SwapArray.SwapTwice` | P2pNet/ace/CDR_Base.cpp:27-455 | Two calls on the same elements of an array, aligned to their size, on any two platforms, restore it. |
| `LongDouble.Swap8` | P2pNet/ace/CDR_Base.inl:129-185 | The portable eight-byte swap, with 64-bit or with 32-bit words, stores the eight bytes backwards, also in place. |
| `LongDouble.Swap16` | P2pNet/ace/CDR_Base.inl:188-192 | Sixteen bytes backwards. |
| `LongDouble.LongDouble.Assign` | P2pNet/ace/CDR_Base.cpp:608-677 | From an eight-byte number, in either byte order, the object holds the quad `Widen` defines; from any other size, the bytes followed by zeros. |
| `LongDouble.LongDouble.ExpandFraction` | P2pNet/ace/CDR_Base.cpp:645-664 | The two-cursor nibble loop writes every fraction byte once, from digits that straddle the bytes of the double. |
| `LongDouble.LongDouble.ToNative` | P2pNet/ace/CDR_Base.cpp:698-773 | The conversion back is `Narrow` in either byte order, and a plain copy for other sizes. |
| `LongDouble.LongDouble.ContractFraction` | P2pNet/ace/CDR_Base.cpp:738-756 | The nibble loop of the conversion back. |
| `LongDouble.RoundTrip` | P2pNet/ace/CDR_Base.cpp:609-773 | Every 64-bit pattern survives the trip through the quad bit for bit. |
| `LongDouble.ThereAndBack` | P2pNet/ace/CDR_Base.cpp:609-773 | Assigning a native number of any size and converting back returns its bytes, on every platform. |
| `LongDouble.QuadRoundTrip` | P2pNet/ace/CDR_Base.cpp:609-773 | The other way round nothing is lost exactly for quads whose exponent is special or in a double's normal range (or the one just below it) and whose fraction has at most 52 bits. |
| `LongDouble.WidenedFields` | P2pNet/ace/CDR_Base.cpp:620-664 | The quad has the sign, the rebiased exponent (special stays special) and the fraction of the double, read as IEEE 754-2008 section 3.4 defines them. |
| `LongDouble.ValueKeptIff` | P2pNet/ace/CDR_Base.cpp:620-664 | The quad has the value of the double, NaN and infinities included, exactly when the exponent field is not zero: zeros and subnormals become nonzero normal quads. |
| `LongDouble.ZeroExample` | P2pNet/ace/CDR_Base.cpp:620-664 | Zero becomes a quad with exponent field 0x3c00. |
| `LongDouble.NarrowedFields` | P2pNet/ace/CDR_Base.cpp:714-756 | What every quad is converted back to: the exponent rebiased modulo 2^11 (special stays special), the sign combined with the twelfth bit of the rebiased exponent, and the first 13 digits of the fraction. |
| `LongDouble.ZeroQuadExample` | P2pNet/ace/CDR_Base.cpp:714-756 | A quad of zeros is converted to the double 2. |
| `Crc32.EntryIsEightSteps` | P2pNet/ace/ACE_crc32.cpp:32-98 | Every table entry is its index pushed through eight steps of reflected division by polynomial 0x04C11DB7. |
| `Crc32.ComputeIsUpdate` | P2pNet/ace/ACE_crc32.cpp:105 | One table step on a (signed) character is eight bits of bitwise division, lowest bit first. |
| `Crc32.RegisterIsUpdate` | P2pNet/ace/ACE_crc32.cpp:126-139 | The table loop over a buffer is bitwise division of its bits. |
| `Crc32.FromString` | P2pNet/ace/ACE_crc32.cpp:111-123 | The string overload is the checksum, from the all-ones register, of the characters before the first NUL. |
| `Crc32.FromBuffer` | P2pNet/ace/ACE_crc32.cpp:126-139 | The buffer overload is the checksum of the buffer. |
| `Crc32.FromIovec` | P2pNet/ace/ACE_crc32.cpp:142-156 | The iovec overload is the checksum of the concatenation of its buffers, however they are cut. |
| `Crc32.ChecksumIffRemainder` | P2pNet/ace/ACE_crc32.cpp:126-139 | The checksum is the one value whose complement is the remainder of polynomial division of the message (with the complemented seed in front) by the degree-32 generator. |
| `Crc32.ChecksumChained` | P2pNet/ace/ACE_crc32.cpp:126-139 | The checksum of one part as the seed of the next gives the checksum of the concatenation. |
| `Crc32.BurstChangesChecksum` | P2pNet/ace/ACE_crc32.cpp:126-139 | Two messages that differ only within 32 consecutive bits, at any bit position, have different checksums. |
| `Crc32.WindowChangesChecksum` | P2pNet/ace/ACE_crc32.cpp:126-139 | Two messages of equal length that differ only within four consecutive bytes have different checksums. |
| `Crc32.GoodFrameIff` | P2pNet/ace/ACE_crc32.cpp:126-139 | A message followed by four bytes has the fixed checksum of good frames (RFC 1662 Appendix C.3, after the final complement) exactly when these bytes are its own checksum, least significant first. |
| `CrcCcitt.EntryIsEightSteps` | P2pNet/ace/ACE_crc_ccitt.cpp:31-65 | Every table entry is its index pushed through eight steps of reflected division by polynomial 0x1021. |
| `CrcCcitt.ComputeIsUpdate` | P2pNet/ace/ACE_crc_ccitt.cpp:72 | One table step on a (signed) character is eight bits of bitwise division, lowest bit first. |
| `CrcCcitt.RegisterIsUpdate` | P2pNet/ace/ACE_crc_ccitt.cpp:93-106 | The table loop over a buffer is bitwise division of its bits. |
| `CrcCcitt.FromString` | P2pNet/ace/ACE_crc_ccitt.cpp:78-90 | The string overload is the checksum, from the all-ones register, of the characters before the first NUL. |
| `CrcCcitt.FromBuffer` | P2pNet/ace/ACE_crc_ccitt.cpp:93-106 | The buffer overload is the checksum of the buffer. |
| `CrcCcitt.FromIovec` | P2pNet/ace/ACE_crc_ccitt.cpp:109-123 | The iovec overload is the checksum of the concatenation of its buffers, however they are cut. |
| `CrcCcitt.ChecksumIffRemainder` | P2pNet/ace/ACE_crc_ccitt.cpp:93-106 | The checksum is the one value whose complement is the remainder of polynomial division of the message (with the complemented seed in front) by the degree-16 generator. |
| `CrcCcitt.ChecksumChained` | P2pNet/ace/ACE_crc_ccitt.cpp:93-106 | The checksum of one part as the seed of the next gives the checksum of the concatenation. |
| `CrcCcitt.BurstChangesChecksum` | P2pNet/ace/ACE_crc_ccitt.cpp:93-106 | Two messages that differ only within 16 consecutive bits, at any bit position, have different checksums. |
| `CrcCcitt.WindowChangesChecksum` | P2pNet/ace/ACE_crc_ccitt.cpp:93-106 | Two messages of equal length that differ only within two consecutive bytes have different checksums. |
| `CrcCcitt.GoodFrameIff` | P2pNet/ace/ACE_crc_ccitt.cpp:93-106 | A message followed by two bytes has the fixed checksum of good frames (RFC 1662 Appendix C.2, after the final complement) exactly when these bytes are its own checksum, least significant first. |
| `CrcCcitt.OddErrorChangesChecksum` | P2pNet/ace/ACE_crc_ccitt.cpp:93-106 | An odd number of wrong bits always changes the 16-bit checksum, since x + 1 divides the generator. |
| `Crc32Order.SameChecksumIff` | P2pNet/ace/ACE_crc32.cpp:126-139 | For any error: two messages of one length have the same checksum if and only if the generator divides the polynomial of their difference. |
| `Crc32Order.OrderOfX` | P2pNet/ace/ACE_crc32.cpp:126-139 | The order of x modulo the generator is 4294967295. |
| `Crc32Order.TwoBitErrorIff` | P2pNet/ace/ACE_crc32.cpp:126-139 | Two wrong bits are missed if and only if their distance is a multiple of 4294967295. |
| `CrcCcittOrder.SameChecksumIff` | P2pNet/ace/ACE_crc_ccitt.cpp:93-106 | For any error: two messages of one length have the same checksum if and only if the generator divides the polynomial of their difference. |
| `CrcCcittOrder.OrderOfX` | P2pNet/ace/ACE_crc_ccitt.cpp:93-106 | The order of x modulo the generator is 32767. |
| `CrcCcittOrder.TwoBitErrorIff` | P2pNet/ace/ACE_crc_ccitt.cpp:93-106 | Two wrong bits are missed if and only if their distance is a multiple of 32767. |
| `CrcOrder.MissedIffMultiple` | P2pNet/ace/ACE_crc32.cpp:105-139 | For any generator, an error leaves the register unchanged if and only if the generator divides it. |
| `CrcOrder.TwoBitsIff` | P2pNet/ace/ACE_crc32.cpp:105-139 | For any generator with a constant term, two wrong bits leave the register unchanged if and only if their distance is a period of the powers of x. |
| `CrcOrder.OrderIff` | P2pNet/ace/ACE_crc32.cpp:105-139 | If a product of primes is a period, and none of its quotients by one of them is, then the periods are exactly its multiples. |
| `CrcPolynomial.RegisterIsRemainder` | P2pNet/ace/ACE_crc32.cpp:105-139 | Bitwise reflected division leaves the remainder of an exhibited quotient. |
| `CrcPolynomial.RemainderIff` | P2pNet/ace/ACE_crc32.cpp:105-139 | The register is the remainder of the dividend and no other polynomial of its degree is. |
| `CrcPolynomial.TableStep` | P2pNet/ace/ACE_crc32.cpp:105 | Looking up the low byte and shifting is eight division steps, for registers of any width of at least eight bits. |
| `CrcPolynomial.StepsInjective` | P2pNet/ace/ACE_crc32.cpp:105 | Division steps never merge two registers. |
| `CrcPolynomial.ResidueIff` | P2pNet/ace/ACE_crc32.cpp:126-139 | Feeding a register its own complement, and nothing else, leaves a residue that depends only on the generator. |
| `WildMatch.WildMatch` | P2pNet/ace/ACE.cpp:3365-3409 | The loop over four cursors terminates and returns what the scan specification says; equal pointers match, a single null pointer does not. |
| `WildMatch.Complete` | P2pNet/ace/ACE.cpp:3365-3409 | Every text that a pattern with `*` and `?` describes is accepted, for every pattern. |
| `WildMatch.PlainIff` | P2pNet/ace/ACE.cpp:3365-3409 | Acceptance is exactly the relation for patterns in which at most one character other than stars precedes each piece that follows a star. |
| `WildMatch.StarFreeIff` | P2pNet/ace/ACE.cpp:3357-3409 | Without stars, acceptance is equality of the lengths and, character by character, a question mark, the same character or, when case is ignored, the other case of the same ASCII letter. |
| `WildMatch.LiteralIff` | P2pNet/ace/ACE.cpp:3357-3409 | Without question marks either, case-sensitive acceptance is equality. |
| `WildMatch.StarsReach` | P2pNet/ace/ACE.cpp:3377-3397 | In the relation a run of stars stands for any text: what follows it may start anywhere. |
| `WildMatch.AffixesArePlain` | P2pNet/ace/ACE.cpp:3365-3409 | That covers seg, *seg, seg* and *seg* with any runs of stars. |
| `WildMatch.OneGapIff` | P2pNet/ace/ACE.cpp:3377-3397 | A pattern u*v, with or without stars at its ends, is decided correctly except for exactly the texts `Overlap` describes: v is found only where it overlaps the first u, and not so that the text ends inside it. |
| `WildMatch.AlwaysRightIff` | P2pNet/ace/ACE.cpp:3377-3397 | A pattern u*v, with or without stars at its ends, is decided correctly for every text if and only if a comparison of u with v alone (`Ambiguous`) fails: an end of u and a beginning of v can stand for the same text, and v need not follow u then. |
| `WildMatch.OverlapExamples` | P2pNet/ace/ACE.cpp:3377-3397 | The pattern ab*bc accepts abc, and *ab*bc* accepts xabcx, which they do not describe. |
| `WildMatch.RepairedIff` | P2pNet/ace/ACE.cpp:3377-3397 | A corrected variant, in which `str` also moves when a star is met, decides the relation for every pattern. |
| `WildMatch.MatchesItself` | P2pNet/ace/ACE.cpp:3367-3368 | A pattern describes itself, so the shortcut for equal pointers agrees with the relation. |
| `Transfer.Kernel.Move` | P2pNet/ace/ACE.cpp:995-997 | The kernel as an oracle: it moves a scripted count of bytes from the front of what it is offered, reports end of file, or fails. A receive stores the next bytes of the incoming stream in the cells offered; a send puts the bytes in them on the wire. |
| `Transfer.MoveAll` | P2pNet/ace/ACE.cpp:1758-1819 | For every script of kernel answers the bytes moved are the prefix of the original buffers of the reported length; a positive result means everything and equals its size, everything moved is reported as such, and what is returned, and the answers left, are what `Flow` and `FlowRest` make of the script. A receive leaves the next bytes of the stream in that prefix, in order, and every other cell alone if the cells are distinct; a send puts the prefix on the wire and no cell changes. The other loops (983-1042 and 1045-1114 for receiving, 1822-1896 with a timeout, 2099-2173 without waiting) differ in the answers they retry, which the variant selects. |
| `Transfer.Turn` | P2pNet/ace/ACE.cpp:1758-1819 | One turn of the loop: bytes moved plus bytes still described by the rewritten buffers never change. |
| `Transfer.Advance` | P2pNet/ace/ACE.cpp:1801-1815 | Skipping completed buffers and shortening the one a partial transfer ends in leaves exactly the bytes not yet moved. |
| `Transfer.FlowIsHonest` | P2pNet/ace/ACE.cpp:1758-1896 | For every variant, short of everything the code is 0 or -1, and never otherwise. |
| `Transfer.NothingToMove` | P2pNet/ace/ACE.cpp:2099-2134 | With nothing to move the call cannot report success. |
| `Transfer.FailureIff` | P2pNet/ace/ACE.cpp:1008-1021 | After a failure, for every variant (also 1074-1093, 1782-1801, 1853-1874): the call goes on with the rest of the script when the handle becomes ready and errno is EWOULDBLOCK, except in the two loops that never wait, or ENOBUFS, in the two sends; otherwise it is over with -1 and the count so far. |
| `Transfer.BytesGo` | P2pNet/ace/ACE.cpp:1804-1820 | Bytes that go are counted whatever errno and the handle say, and the call is over exactly when none are left. |
| `Transfer.EndOfFileIff` | P2pNet/ace/ACE.cpp:1850-1875 | For every variant an end of file, whatever errno holds, ends the call, unless it is the timed send with ENOBUFS left in errno and the handle ready, which goes on with the rest of the script; then the call reports an end of file only if what follows is again such an end. |
| `Transfer.TimedSendIff` | P2pNet/ace/ACE.cpp:1845-1880 | Over whole scripts the timed send does what the plain one does if and only if it is never misled: no end of file with ENOBUFS left in errno and a ready handle, followed by anything but an end of file. |
| `Transfer.MisledExample` | P2pNet/ace/ACE.cpp:1850-1875 | An end of file with ENOBUFS left in errno and a ready handle: the plain send returns 0, the timed one waits, goes on and fails. |
| `Transfer.SendChain` | P2pNet/ace/ACE.cpp:1902-2096 | Flushing a chain of messages in batches, chunk by chunk, moves a prefix of its bytes (next-outer, cont-inner) of the reported length even on failure, with the effect on memory and wire that `Transfer.MoveAll` has; only the whole chain is success, and it is reported as such. The result, the count and the answers left are those of `ChunkFlow`: one `Flow` after the other over the chunks of the chain, cut where a block exceeds `chunkMax`, in batches of `iovMax`. The receiving `recv_n` (1123-1226) is the same loop over a receiving variant and kernel. |
| `Transfer.ChainOutcome` | P2pNet/ace/ACE.cpp:1902-2096 | What the script decides: the call ends short exactly at an answer that ends it (an end of file, with 0, or a failure not waited for, with -1) or when the script is exhausted (-1), every answer used before letting it go on; with as many answers that move bytes as there are bytes, before one that ends it, the whole chain goes. |
| `Transfer.GetsThrough` | P2pNet/ace/ACE.cpp:1928-1995 | For any cutting into chunks and batches, enough answers that move bytes give the whole length as result and count. |
| `Transfer.Collect` | P2pNet/ace/ACE.cpp:1928-1979 | The chunk loop of one block neither loses nor repeats a byte across flushes. |
| `Transfer.Flush` | P2pNet/ace/ACE.cpp:1957-1978 | Handing over a batch either empties it or stops with a prefix delivered. |
| `Transfer.ScatterGather` | P2pNet/ace/ACE.cpp:983-1042 | Bytes stored in cells that do not overlap are there in order, and nothing else is touched. |
| `Transfer.ScatterConcat` | P2pNet/ace/ACE.cpp:983-1042 | Receiving in pieces, however they are cut, leaves what receiving the whole at once would. |
| `FrameSize.ComputeGcd` | P2pNet/ace/ACE.cpp:2933-2943 | Euclid's loop computes `Gcd`. |
| `FrameSize.GcdGreatest` | P2pNet/ace/ACE.cpp:2933-2943 | The common divisors are exactly the divisors of the result, which is the greatest. |
| `FrameSize.MinimumFrameSize` | P2pNet/ace/ACE.cpp:2948-2987 | The four branches compute `Frame`, modulo the size of an unsigned long. |
| `FrameSize.UnsetPeriod` | P2pNet/ace/ACE.cpp:2952-2959 | A period of zero is ignored. |
| `FrameSize.LcmIsLcm` | P2pNet/ace/ACE.cpp:2981-2985 | The product over the greatest common divisor is the smallest positive number both periods divide. |
| `FrameSize.FrameIsLcmIff` | P2pNet/ace/ACE.cpp:2961-2986 | For non-zero periods the frame is that number exactly when one period divides the other or their product does not wrap around. |
| `FrameSize.WrappedExample` | P2pNet/ace/ACE.cpp:2961-2986 | With 32 bits the frame of 65536 and 65537 is 65536. |
| `ArrayMap.ArrayMap.constructor` | P2pNet/ace/Array_Map.inl:9-15 | An empty map with a preallocated array. |
| `ArrayMap.ArrayMap.Find` | P2pNet/ace/Array_Map.cpp:212-223 | The scan returns the place of the key, or end when it is not in the map. |
| `ArrayMap.ArrayMap.Insert` | P2pNet/ace/Array_Map.cpp:96-121 | Adds the pair if the key is new and otherwise changes nothing; says which, and where the key is. |
| `ArrayMap.ArrayMap.InsertAll` | P2pNet/ace/Array_Map.cpp:126-134 | Inserting a range is inserting its pairs one by one, into room made once for all of them. |
| `ArrayMap.InsertedAllMap` | P2pNet/ace/Array_Map.cpp:126-134 | After a range insert the keys are the old and the new ones; old keys keep their value and of several new pairs the first counts. |
| `ArrayMap.ArrayMap.Index` | P2pNet/ace/Array_Map.inl:123-127 | The index operator inserts a default value for a new key and never changes another. |
| `ArrayMap.ArrayMap.EraseAt` | P2pNet/ace/Array_Map.cpp:153-175 | Removes the key at the position and no other although the last entry moves; outside the map nothing happens. The place given up holds a default entry. |
| `ArrayMap.ErasedAtMap` | P2pNet/ace/Array_Map.cpp:153-175 | Filling the hole with the last entry removes exactly one key and keeps keys unique. |
| `ArrayMap.ArrayMap.EraseKey` | P2pNet/ace/Array_Map.cpp:180-189 | Removes exactly the key and returns how many entries went. |
| `ArrayMap.ArrayMap.EraseRange` | P2pNet/ace/Array_Map.cpp:194-201 | What the loop removes: the first places of the range, up to where the shrinking end meets the cursor; nothing unless the range ends before end(). |
| `ArrayMap.ErasedSpanMap` | P2pNet/ace/Array_Map.cpp:198-200 | The loop over the range removes the keys of exactly its first min(length, half of what is left) places. |
| `ArrayMap.ErasedRangeIff` | P2pNet/ace/Array_Map.cpp:194-201 | Range erase removes exactly the keys of a valid range if and only if the range is empty, or it ends before end() and is at most one longer than what follows it. |
| `ArrayMap.ErasedRangeExamples` | P2pNet/ace/Array_Map.cpp:194-201 | Erasing the only entry by a range erases nothing, and of the first three of four entries two go. |
| `ArrayMap.ArrayMap.Grow` | P2pNet/ace/Array_Map.cpp:244-269 | Makes exactly the room asked for if there is too little, keeps the array otherwise, and changes nothing observable. |
| `ArrayMap.ArrayMap.Clear` | P2pNet/ace/Array_Map.cpp:205-208 | Empties the map and keeps the array. |
| `ArrayMap.ArrayMap.Swap` | P2pNet/ace/Array_Map.cpp:86-92 | Exchanges two maps. |
| `SizeCdr.SizeStream.Adjust` | P2pNet/ace/CDR_Size.cpp:221-236 | Pads to the alignment and adds the size. |
| `SizeCdr.SizeStream.constructor` | P2pNet/ace/CDR_Size.inl:9-17 | Size 0 and a good stream. |
| `SizeCdr.SizeStream.Reset` | P2pNet/ace/CDR_Size.inl:26-29 | Resets the size but not the good bit. |
| `SizeCdr.SizeStream.WritePrimitive` | P2pNet/ace/CDR_Size.cpp:148-173 | A primitive of 1, 2, 4 or 8 octets at its natural alignment. |
| `SizeCdr.SizeStream.Write16` | P2pNet/ace/CDR_Size.cpp:176-181 | Sixteen octets aligned to eight. |
| `SizeCdr.SizeStream.WriteBooleanArray` | P2pNet/ace/CDR_Size.cpp:213-218 | Octets one by one. |
| `SizeCdr.SizeStream.WriteWCharArrayNarrow` | P2pNet/ace/CDR_Size.cpp:184-196 | Wide characters narrower on the wire than in memory, one by one. |
| `SizeCdr.SizeStream.WriteArray` | P2pNet/ace/CDR_Size.cpp:200-210 | Adding a run at once is the size of its elements written one by one; an empty run adds no padding. |
| `SizeCdr.SizeStream.WriteWChar` | P2pNet/ace/CDR_Size.cpp:16-73 | The size, result and good bit for a wide character under each GIOP version and width. |
| `SizeCdr.SizeStream.WriteString` | P2pNet/ace/CDR_Size.cpp:76-97 | Length, characters and NUL; the empty string likewise. |
| `SizeCdr.SizeStream.WriteWString` | P2pNet/ace/CDR_Size.cpp:109-145 | The size, result and good bit for a wide string, present or null. |
| `SizeCdr.SizeStream.WriteWCharArray` | P2pNet/ace/CDR_Size.inl:156-172 | Wide characters one by one, of their width on the wire. |
| `SizeCdr.SizeStream.Perform` | P2pNet/ace/CDR_Size.cpp:16-218 | Each pseudo-write adds what `Counted` says and clears the good bit exactly when it fails. |
| `SizeCdr.SizeStream.PerformAll` | P2pNet/ace/CDR_Size.cpp:148-236 | After any run of writes, failed and wrongly sized ones included, the size is that of everything accounted, which is what the writes put on the wire if no write is wrongly sized, and the good bit tells whether all succeeded. |
| `SizeCdr.WrittenSize` | P2pNet/ace/CDR_Size.cpp:16-236 | Where each write ends on the wire, from any offset and in closed form: a string after its length, aligned to 4, and one octet more than its characters; a GIOP 1.2 wide character 1 + maxBytes octets on; wide strings per version, present or null; failures where the encoding has no wide characters. |
| `SizeCdr.AccountedSize` | P2pNet/ace/CDR_Size.cpp:16-236 | Where each write ends in the account: in the same place, but for the wide character accounted as four octets and the lengths that wrap to 0. |
| `SizeCdr.EncodedAligned` | P2pNet/ace/CDR_Size.cpp:227-236 | In the encoding every primitive starts at a multiple of its alignment and earlier octets stay. |
| `SizeCdr.SizeIsLength` | P2pNet/ace/CDR_Size.cpp:227-236 | The computed size is the length of the encoding. |
| `SizeCdr.SizeRepeat` | P2pNet/ace/CDR_Size.cpp:200-210 | Aligning once for a whole array is the same as aligning each element. |
| `SizeCdr.RunSize` | P2pNet/ace/CDR_Size.cpp:227-236 | For every run of writes the encoder's length is the size of what they put on the wire, behind any multiple of 8 octets the run takes the same room, and the accounted size is that length if no write in it is wrongly sized. |
| `SizeCdr.NeverTooSmall` | P2pNet/ace/CDR_Size.cpp:16-236 | Unless a string length wraps, no run is accounted smaller than it is encoded, and one whose last write is wrongly sized is accounted larger. |
| `SizeCdr.RunSizedRightIff` | P2pNet/ace/CDR_Size.cpp:16-236 | A run of any writes, from any offset, is sized as it is encoded if and only if the two sizes agree up to its last wrongly sized write or the padding of a later primitive rounds both to the same multiple; if no string length wraps they agree there only when no write is wrongly sized. |
| `SizeCdr.AbsorbedIff` | P2pNet/ace/CDR_Size.cpp:221-236 | From two different offsets the same primitives end at the same one if and only if the padding before one of them makes the two equal. |
| `SizeCdr.AbsorbedError` | P2pNet/ace/CDR_Size.cpp:46-73 | An instance: a wide character accounted as four octets instead of two and then an eight-octet primitive, sized right. |
| `SizeCdr.SizeShift` | P2pNet/ace/CDR_Size.cpp:227-236 | An offset that is a multiple of 8 only shifts the result. |
| `SizeCdr.ShiftByFour` | P2pNet/ace/CDR_Size.cpp:227-236 | An offset of 4 does not. |
| `SizeCdr.CountedIff` | P2pNet/ace/CDR_Size.cpp:16-145 | A single write is sized as the encoder writes it unless it is a two-octet wide character that is as wide in memory (outside GIOP 1.2), or a string whose length with the NUL wraps to 0; these, and no others, are sized wrongly from every offset, and the former too large. |
| `ArgvTypeConverter.Converter.constructor` | P2pNet/ace/Argv_Type_Converter.cpp:19-49 | Makes the second list from copies of the texts, each a string of its own, and a null pointer behind them. |
| `ArgvTypeConverter.Align` | P2pNet/ace/Argv_Type_Converter.cpp:109-177 | The swap loops only reorder the list, and its first `saved_argc_` entries end up equal to the reference's pairwise if and only if the reference's are a sub-multiset of the list's. |
| `ArgvTypeConverter.AlignEntry` | P2pNet/ace/Argv_Type_Converter.cpp:114-137 | One turn brings the wanted entry to its place and keeps the rest findable. |
| `ArgvTypeConverter.Converter.AlignList` | P2pNet/ace/Argv_Type_Converter.cpp:109-177 | After a caller reordered and shortened one list, the other is aligned with what is left, dropped entries are forgotten, and only null pointers are left behind the list owned. |
| `ArgvTypeConverter.Converter.Cleanup` | P2pNet/ace/Argv_Type_Converter.cpp:180-200 | Frees the dropped copies once, sets their entries to null and resets the counters and flags. |
| `ArgvTypeConverter.Converter.FreeDropped` | P2pNet/ace/Argv_Type_Converter.cpp:182-194 | Moves the copies behind the first `saved_argc_` entries from owned to freed and sets these entries to null; leaves the others. |
| `ArgvTypeConverter.Converter.GetWide` | P2pNet/ace/Argv_Type_Converter.inl:8-21 | Returns the wide list with the texts, in the order, the caller left in the other. |
| `ArgvTypeConverter.Converter.GetChar` | P2pNet/ace/Argv_Type_Converter.inl:24-36 | The same for the char list. |
| `ArgvTypeConverter.Converter.Rearrange` | P2pNet/ace/Argv_Type_Converter.h:33-38 | What a caller may do with the list it was passed: any permutation, and a lower count; keeps the invariant. |
| `ArgvTypeConverter.Converter.Destroy` | P2pNet/ace/Argv_Type_Converter.cpp:56-83 | After any such history every copied string has been freed exactly once, and the original list is aligned with the other one if that was with a caller. |
| `ArgvTypeConverter.CopiesDistinct` | P2pNet/ace/Argv_Type_Converter.cpp:31-49 | The copies are pairwise different strings, so the multiset accounts count each once. |
| `ArgShifter.ArgShifter.constructor` | P2pNet/ace/Arg_Shifter.cpp:15-72 | Moves the arguments to the temporary vector, the caller's or one of its own; if that cannot be allocated, returns at once and leaves vector and count as they are, with all arguments left to scan (ACE_NEW returns, P2pNet/ace/OS_Memory.h:192-195). |
| `ArgShifter.ArgShifter.GetCurrent` | P2pNet/ace/Arg_Shifter.cpp:83-91 | The next argument, or null at the end. |
| `ArgShifter.ArgShifter.IsOptionNext` | P2pNet/ace/Arg_Shifter.cpp:207-211 | Whether there is a next argument and it starts with a dash. |
| `ArgShifter.ArgShifter.IsParameterNext` | P2pNet/ace/Arg_Shifter.cpp:215-219 | Whether there is a next argument and it does not. |
| `ArgShifter.ArgShifter.NumIgnoredArgs` | P2pNet/ace/Arg_Shifter.cpp:223-226 | The number of arguments ignored so far. |
| `ArgShifter.ArgShifter.ConsumeArg` | P2pNet/ace/Arg_Shifter.cpp:158-175 | Puts the next arguments in front of those consumed before, or does nothing if there are too few; a negative count reports success and only moves the back cursor. |
| `ArgShifter.ArgShifter.IgnoreArg` | P2pNet/ace/Arg_Shifter.cpp:179-196 | Puts the next arguments behind those ignored before and counts them in `argc_`, or does nothing if there are too few; a negative count reports success and only lowers `argc_`. |
| `ArgShifter.StablePartition` | P2pNet/ace/Arg_Shifter.cpp:158-196 | Over every run of calls the ignored arguments are those marked ignored, in their order, the consumed ones are a permutation of the others, and the rest is not scanned yet. |
| `ArgShifter.BothMarks` | P2pNet/ace/Arg_Shifter.cpp:158-196 | The arguments marked consumed and those marked ignored are, together, the arguments scanned. |
| `ArgShifter.OneByOneReverses` | P2pNet/ace/Arg_Shifter.cpp:158-175 | When arguments are consumed one at a time they end up at the back in reverse order. |
| `ArgShifter.Exhausted` | P2pNet/ace/Arg_Shifter.cpp:158-196 | After any calls that scan everything, the vector is a permutation of the arguments given: first the ignored ones in their order, as many as `argc_` says, then the consumed ones. |
| `ArgShifter.ArgShifter.GetTheParameter` | P2pNet/ace/Arg_Shifter.cpp:95-121 | Finds a flag's value in its own argument, behind blanks, or in the next argument, which then is current. |
| `ArgShifter.ParameterIs` | P2pNet/ace/Arg_Shifter.cpp:95-154 | The search, on the arguments: nothing without the flag (compared as the C locale ignores case); behind a flag that stands alone, which is consumed, the next argument unless it begins with a dash; otherwise what follows the flag and the blanks after it. |
| `ArgShifter.ArgShifter.CurArgStrncasecmp` | P2pNet/ace/Arg_Shifter.cpp:124-154 | The offset of the value in the next argument, -1 when there is none. |
| `ArgShifter.OffsetIs` | P2pNet/ace/Arg_Shifter.cpp:124-154 | -1 without the flag, 0 for the flag alone, otherwise the first place behind it that is not a blank. |
| `ArgShifter.OffsetZeroIff` | P2pNet/ace/Arg_Shifter.cpp:124-154 | An argument longer than the flag is mistaken for the flag itself only when the flag is empty and the argument does not start with a blank. |
| `Argv.Argv.Add` | P2pNet/ace/ARGV.cpp:206-252 | Queues the argument, quoted only if it has a blank, and keeps the incremental length equal to the size of the rendered arguments. |
| `Argv.Argv.constructor` | P2pNet/ace/ARGV.cpp:190-202 | An empty list in iterative mode. |
| `Argv.LengthToAdd` | P2pNet/ace/ARGV.cpp:216-228 | The incremental length of one argument is the size of its rendering. |
| `Argv.Argv.Buf` | P2pNet/ace/ARGV.inl:56-66 | The buffer, made when it is needed, starts with the text of the list; says when it cannot be made and when making it would write past its end. |
| `Argv.Argv.CreateBufFromQueue` | P2pNet/ace/ARGV.cpp:285-354 | The new buffer has `length_ + argc_` characters and starts with the arguments joined by single blanks, quoted ones wrapped and inner quotes escaped, and a NUL; they fill it exactly if and only if `argc_` counts the arguments added, and go past its end (an overrun, where the model stops) if and only if their size exceeds it. |
| `Argv.Render` | P2pNet/ace/ARGV.cpp:317-346 | Writes one argument, wrapped and escaped if quoted, and leaves what is before and behind it. |
| `Argv.CopyEscaped` | P2pNet/ace/ARGV.cpp:322-327 | The character loop puts a backslash before each double quote. |
| `Argv.BodyLength` | P2pNet/ace/ARGV.cpp:209-222 | The rendered arguments with a blank each take `length_` plus their number of characters. |
| `Argv.BodyFitsIff` | P2pNet/ace/ARGV.cpp:285-354 | For every list the rendered arguments fit into `length_ + argc_` characters if and only if `argc_` is not below the number of arguments added. |
| `Argv.FallBehind` | P2pNet/ace/ARGV.inl:70-88 | Two empty arguments, a split, which sets `argc_` to 0, and one more argument: `argc_` is 1 for three arguments, and writing them would go past the buffer. |
| `Argv.BodyIsText` | P2pNet/ace/ARGV.cpp:348-353 | Writing a blank behind every argument and overwriting the last one gives the joined text. |
| `Argv.Argv.GetVector` | P2pNet/ace/ARGV.inl:70-88 | The vector is the split of the text, and `argc_` its length; it is the arguments added if and only if these are all well-formed and the text does not start with a comment sign. Without arguments there is none; an overrun changes nothing. |
| `Argv.Argv.FromText` | P2pNet/ace/ARGV.cpp:79-104 | A list made from a text is its split. |
| `Argv.StringToArgv` | P2pNet/ace/OS_NS_unistd.cpp:680-811 | The counting and the copying pass together compute `Split`. |
| `Argv.CountPass` | P2pNet/ace/OS_NS_unistd.cpp:695-732 | The counting pass: words outside quotes, unmatched quotes not counted, a comment sign only at the very start. |
| `Argv.PastQuoted` | P2pNet/ace/OS_NS_unistd.cpp:711-716 | Finds the closing quote, passing over those with a backslash before them. |
| `Argv.CopyPass` | P2pNet/ace/OS_NS_unistd.cpp:752-778 | The copying pass for one word drops its quotes and the backslashes before inner ones. |
| `Argv.RoundTripIff` | P2pNet/ace/ARGV.cpp:285-354 | Splitting the text of any list of arguments that were added gives them back if and only if each is well-formed (quoted and not ending in a backslash, or a plain non-empty word without blanks and quotes) and the text does not start with a comment sign. |
| `Argv.SplitAccount` | P2pNet/ace/OS_NS_unistd.cpp:680-811 | No split invents a quote: those kept in the words, and two for every word that cannot be written without them, were all in the text. |
| `ArgvLayout.SplitIsMeaning` | P2pNet/ace/OS_NS_unistd.cpp:680-811 | Every text is words, gaps and, at the end, possibly a word with a quote that is never closed; the words are sequences of bare pieces and of strings in single or double quotes with a backslash before inner ones. It is split into what the words mean, and into nothing if it starts with a comment sign. Separators, quotes and bare characters are written out. |
| `ArgvLayout.SplitIff` | P2pNet/ace/OS_NS_unistd.cpp:680-811 | Any layout of words is split into their meanings if and only if its text does not start with a comment sign. |
| `ArgvLayout.EscapedUpTo` | P2pNet/ace/ARGV.cpp:322-327 | Escaping puts a backslash in front of each quote and changes nothing else. |
| `Argv.OneArgumentIff` | P2pNet/ace/ARGV.cpp:206-252 | For a single argument: it comes back if and only if it is quoted and does not end in a backslash, or is a plain non-empty word not starting with a comment sign. |

## Left out

- Transfer.MoveAll: a script that ends stands for a dead connection, so a transfer that blocks for ever on a connection that never dies is not modelled; byte counts are unbounded, without the limit the kernel puts on one call.
- Transfer.SendChain: message blocks are values with a base, a length and two links; `write_n`, `send_n` and `recv_n` are one method with the kind of transfer as a parameter, like the six loops behind `Transfer.MoveAll`.
- WildMatch.PlainIff: for patterns with two or more gaps between pieces that are not plain only completeness is stated; the matcher may accept such texts wrongly, and which ones depends on overlaps between any two pieces.
- WildMatch.WildMatch: case is ignored as in the C locale, for ASCII letters only.
- Argv.Argv.CreateBufFromQueue: what happens after an overrun is not modelled.
- Argv.Argv.Add: substitution of environment variables in arguments is not modelled.
- ArgShifter.ArgShifter.ConsumeArg: after a negative count, here or in IgnoreArg, the cursors no longer fit the vector, and what later calls do then is not modelled; neither is scanning without a temporary vector, where the source dereferences null, nor the destructor, which deletes the temporary vector whoever supplied it.
- ArgvTypeConverter.Align: char and wide texts are compared as the same strings, so characters a conversion cannot represent are not modelled; a caller only permutes the list it was passed and lowers the count.
- SizeCdr.RunSize: sizes are unbounded, without the wrap-around of `size_t`; octet values are not part of the encoding, only their places; `ACE_LACKS_CDR_ALIGNMENT` builds are left out.
- SizeCdr.CountedIff: assumes a wide character takes 0, 1, 2 or 4 octets on the wire and 2 or 4 in memory.
- ArrayMap.ArrayMap.Insert: keys are compared by equality rather than by a functor of the user's; inserting a range of the map into itself is left out.
- Barrier.Safety: condition variables may wake up spuriously but do not fail, and locking always succeeds; with more threads than the barrier counts only `Barrier.MixedIff` is stated.
- LongDouble.LongDouble.ToNative: the closing assignment to a dummy object, a workaround for a compiler, has no effect and is left out.
- Inline assembly and compiler intrinsics for byte swapping; only the portable code is modelled.
- The array-map constructor from a range and its comparison operators, and the ARGV constructors from argument arrays.
- Sockets, select and poll, errno texts, daemonizing, message-block allocation, the ATM, Acceptor, Asynch and address classes, and the application itself.
