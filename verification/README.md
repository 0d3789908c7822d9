# Verified model of a toolbox of small C++ components

The repository is a collection of small components, six of which hold an algorithm or a protocol.
This project models those six in Dafny and proves what they promise. `dafny verify dfyconfig.toml`
checks all of it.

**The shared-memory ring** (`Words`, `Crc32`, `CrcRemainder`, `RingSpec`, `HkShm`, `RingInterleaving`,
`RingRuns`). One writer puts payloads of 2464 bytes into 15 slots, each with a timestamp and a
CRC-32, and publishes the slot's index last; `Get` checks the age, copies, verifies the checksum and
falls back to the slot before. The checksum loops are proved to compute the polynomial remainder that
CRC-32 is, to agree with the table-driven form in section 8 of RFC 1952, and to tell apart any two
strings that differ only within 32 consecutive bits; 33 bits would be too many. The ring is modelled
twice: as memory updated in place, which refines a history of Puts, and as a step system in which
every single load and store of the writer and the reader may interleave. In the step system a Get is
atomic until the 15th Put after the one it read begins to write; the first store of that Put is enough
for an old payload to pass as fresh. However far a Get is overtaken, what it returns still carries a
checksum that some Put stored.

**The formatter** (`Numerals`, `FormatSpec`, `Formatter`, `FieldTheorems`, `FormatTheorems`,
`DirectiveTheorems`, `PrintedText`) and **the chained buffer** (`BufPrintf`). `FormatSpec.Render` is the
text a format produces when nothing is cut off. The loops of the source are proved to count that text
and to keep as much of it as fits; chained calls leave the truncated concatenation of their texts. The
scanner is proved to understand the parts of a directive in any order, rendering to distribute over
concatenation, every directive to print the text that `PrintedText` spells out, and fields to read back
as the numbers they print, with the exact conditions under which they do not.

**The double-falling-edge detector** (`EdgeDetector`). Its runs are a greedy pairing of the falling
edges of the input, and no other choice of disjoint pairs within the timeout has more.

**The hex dumper** (`HexDump`). Every print stays inside the allocated block, every character of the
dump is accounted for, and a reader that knows only the text gets the bytes back, NULs, newlines and
bars included.

**Signal dispatch** (`Signals`). In every interleaving of handlers, reads, callbacks and changes of
the table, each signal the pipe took has exactly one fate, decided by the table row that its read saw;
a registered signal that is written reaches its callback.

**Route expansion** (`Routes`). A route is a chain of neighbours in the first rule that contains both
ends, it exists exactly if each of its nodes has an entry for the next, and the way back is the same
nodes in reverse.

## Conventions

- Words of the machine are bounded integers. `c >> 1` is `c / 2`, `c & 1` is `c % 2`, `~c` is
  `0xffffffff - c`, and `^` is `Words.Xor`, characterised bit by bit by `Words.XorBit`.
- A component that updates state in place is a class or a method on arrays; its `ensures` equates the
  new state with a function of the old one, and the theorems are about that function.
- Clock readings, the success of system calls (`locked`, `written`, `added`, `callocOk`) and what a
  mapped region held before are parameters.
- `None` from `FormatSpec.Render` is a call the source does not allow: a missing or mistyped argument,
  an overrun of the 36-byte scratch array, the negation of the least 64-bit number.

## Where the code and its comments disagree

The model follows the code.

- The comment on `Get` (tmp.h:91-94) promises a tag that tells whether the data changed; the code
  returns only 0 or -1.
- The comment on `selfpipe_cb` (zsignal.cc:210-212) speaks of a loop over callbacks; there is one
  callback per signal.
- The formatter departs from the C library where `FieldTheorems` and `DirectiveTheorems` say so: a
  precision cancels zero-fill after the sign has been stored, `#` raises the precision, a precision of 0
  prints a whole string, numbers are reduced modulo 2^32, a negative width from an argument is no width
  instead of a left-justified field, and a negative precision from an argument acts as a precision of 1
  for numbers and widens the padding of strings.
- A rule file that is not an array makes `test_cross_map` succeed with no points.

## Model

| member | source | states |
|---|---|---|
| Words.XorBit | bazelPro/src/tmp/tmp.cc:261-265 | the `^` of the checksum acts bit by bit |
| Crc32.Compute | bazelPro/src/tmp/tmp.cc:256-271 | the nested loops compute `Crc` of the first `length` bytes |
| Crc32.ShiftLinear | bazelPro/src/tmp/tmp.cc:264-267 | the shift/xor step is linear over GF(2) |
| Crc32.HighBitOfOddStep | bazelPro/src/tmp/tmp.cc:264-267 | the step has a trivial kernel and leaves the top bit clear only for even registers |
| Crc32.UpdateIsFeed | bazelPro/src/tmp/tmp.cc:259-269 | absorbing bytes is feeding their bits, least significant first, one at a time |
| Crc32.TableDrivenAgrees | bazelPro/src/tmp/tmp.cc:256-271 | for every string the loop equals the table-driven form of section 8 of RFC 1952 |
| Crc32.BurstDetected | bazelPro/src/tmp/tmp.cc:256-271 | equal-length strings that differ only within 32 consecutive bits have different checksums |
| Crc32.GeneratorEscapes | bazelPro/src/tmp/tmp.cc:256-271 | strings that differ by exactly the 33 generator bits, anywhere, have the same checksum, so 32 is the most |
| Crc32.CollisionExample | bazelPro/src/tmp/tmp.cc:256-271 | two strings of five bytes, 33 bits apart, with the same checksum |
| CrcRemainder.RegisterStep | bazelPro/src/tmp/tmp.cc:264-267 | one step is one step of long division by the generator |
| CrcRemainder.RemainderUnique | bazelPro/src/tmp/tmp.cc:256-271 | a dividend has one remainder below degree 32 |
| CrcRemainder.CrcIsTheRemainder | bazelPro/src/tmp/tmp.cc:256-271 | the complemented checksum is the remainder of the preset message, and nothing else is |
| HkShm.Shm.constructor | bazelPro/src/tmp/tmp.h:68-86 | a region whose three words are 0x5A5A5A5A, 0xA5A5A5A5 and version 1 is kept, any other zeroed, and the words are set |
| HkShm.Shm.Put | bazelPro/src/tmp/tmp.cc:319-340 | in-place Put: next slot gets time, checksum and payload, then the index; all else unchanged |
| HkShm.Shm.Get | bazelPro/src/tmp/tmp.cc:273-317 | in-place Get returns and copies exactly what `GetSpec` says and leaves the region alone |
| RingSpec.PutSlotExactly | bazelPro/src/tmp/tmp.cc:329-330 | where Put stores for every index the region may hold, wrap and truncating remainder included |
| RingSpec.FreshIsAge | bazelPro/src/tmp/tmp.cc:285 | the unsigned difference is within the range exactly if the times as plain integers are, on either side of the reader's clock |
| RingSpec.GetExactly | bazelPro/src/tmp/tmp.cc:273-317 | on any memory, what Get returns and leaves in the payload: the newer slot if it is fresh and matches its checksum, else the older if it is, else -1, with clocks as plain integers |
| RingSpec.RingRefinesHistory | bazelPro/src/tmp/tmp.cc:319-340 | after any Puts, Put j of the last 15 is whole in slot j mod 15 |
| RingSpec.UnreachedSlotIsZero | bazelPro/src/tmp/tmp.h:78-85 | a slot no Put has reached is as the constructor left it |
| RingSpec.GetReturnsLastPut | bazelPro/src/tmp/tmp.cc:273-340 | Get after any Puts returns the last payload exactly while its time, as a plain integer, is within the range |
| RingSpec.GetAfterDamage | bazelPro/src/tmp/tmp.cc:290-316 | whatever overwrote the newest payload, the outcome of Get, wrap from slot 0 to 14 included |
| RingSpec.CorruptionRecovered | bazelPro/src/tmp/tmp.cc:290-316 | a burst of at most 32 bits in the newest payload makes Get return the previous Put |
| RingSpec.OnlyPutDamaged | bazelPro/src/tmp/tmp.cc:296-307 | with a single Put damaged there is nothing to fall back to |
| RingSpec.NoBurstEscapes | bazelPro/src/tmp/tmp.cc:290-316 | with any slots burst-damaged, a success is a payload some Put wrote |
| RingInterleaving.WriterKeepsInv | bazelPro/src/tmp/tmp.cc:333-337 | each store of the writer keeps the invariant of the ring |
| RingInterleaving.ReaderKeepsInv | bazelPro/src/tmp/tmp.cc:276-316 | each load of the reader keeps it |
| RingInterleaving.InterleavedGetIsAtomic | bazelPro/src/tmp/tmp.cc:273-340 | in every interleaving, a Get of Put k that ends before Put k+15 begins copies payload k, passes the CRC, never falls back, and returns 0 exactly while fresh |
| RingInterleaving.OvertakenGetIsChecked | bazelPro/src/tmp/tmp.cc:290-316 | in every interleaving, what a Get returns with 0 has the checksum of some Put (or 0), and each byte comes from the same place of some Put (or is 0) |
| RingRuns.WholePutIsPutSpec | bazelPro/src/tmp/tmp.cc:319-340 | the steps of an undisturbed Put add up to the sequential Put |
| RingRuns.WholeGetIsGetSpec | bazelPro/src/tmp/tmp.cc:273-317 | the steps of a Get that is left alone once it has the index add up to the sequential Get, whose one clock reading is the first |
| RingRuns.OneStoreOverruns | bazelPro/src/tmp/tmp.cc:285-340 | once Put 16 has stored its timestamp alone, a Get of Put 1 returns payload 1 however old it is, so the bound of 15 is sharp to the store |
| RingRuns.TwoStoresForceFallback | bazelPro/src/tmp/tmp.cc:285-340 | once it has stored its checksum too, a Get of Put 1 falls back and returns Put 15 |
| RingRuns.FifteenPutsOverrun | bazelPro/src/tmp/tmp.cc:273-340 | 15 whole Puts inside a Get of Put 1 make it return the last of them |
| EdgeDetector.Detector.TestEdge | bazelPro/src/tmp/tmp.cc:58-120 | the in-place step is `StepSpec` on the file's statics |
| EdgeDetector.MachineIsGreedy | bazelPro/src/tmp/tmp.cc:67-120 | over every run, results and state are those of greedy pairing of the input's falling edges |
| EdgeDetector.NoMatchingBeatsGreedy | bazelPro/src/tmp/tmp.cc:80-115 | no set of disjoint pairs within the timeout is larger than the greedy one |
| EdgeDetector.GreedyIsOptimal | bazelPro/src/tmp/tmp.cc:67-120 | the machine's pairs are disjoint adjacent falling edges, as many as its completed results, and a maximum |
| EdgeDetector.MachineAccounts | bazelPro/src/tmp/tmp.cc:75-116 | falling edges are arms, timeouts and completions; arms exceed completions by one exactly when armed |
| EdgeDetector.FirstPairThreeThenFour | bazelPro/src/tmp/tmp.cc:35-39 | with the file's flags the first completed pair gives 3 and every later one 4 |
| EdgeDetector.EveryResult | bazelPro/src/tmp/tmp.cc:67-120 | each result of each run: 0 but for a falling edge, 1 for one more than 3000 ms after the one waiting, a pair's result for one within, clock wrap included |
| EdgeDetector.PairResultByFlags | bazelPro/src/tmp/tmp.cc:84-104 | from any flags, a completed pair gives 2, 3 or 4 by the flags and the pairs before it, and nothing else ever gives those |
| Numerals.Itoa | bazelPro/src/lib/snprintf_asyncsignalsafe.cc:29-51 | writes `Text` and a NUL at the place given, inside both arrays |
| Numerals.TextReadsBack | bazelPro/src/lib/snprintf_asyncsignalsafe.cc:29-51 | length is the larger of minimal digits and precision, all digits are of the base, and their value is the number |
| Numerals.TextIsTheOnlyOne | bazelPro/src/lib/snprintf_asyncsignalsafe.cc:38-51 | among strings of its length with digits of the base in the case asked for, the printed one and no other reads as the number |
| Numerals.DigitsAreMinimal | bazelPro/src/lib/snprintf_asyncsignalsafe.cc:42-43 | digits without precision have no leading zero |
| Formatter.Store | bazelPro/src/lib/snprintf_asyncsignalsafe.cc:14-25 | the store macro: keep what fits, close the window, lose the rest |
| Formatter.ScanConversion | bazelPro/src/lib/snprintf_asyncsignalsafe.cc:120-159 | the scanning loops with their step back and look-ahead end, stay within the NUL, and find what `Scan` finds |
| Formatter.PutField | bazelPro/src/lib/snprintf_asyncsignalsafe.cc:315-328 | the three closing loops store `Padded` |
| Formatter.ConvertNumeric | bazelPro/src/lib/snprintf_asyncsignalsafe.cc:169-269 | sign, prefix, digits and fill flag of a numeric conversion, through the scratch array |
| Formatter.Vsnprintf | bazelPro/src/lib/snprintf_asyncsignalsafe.cc:100-338 | the count is the length of the whole rendering; the window holds its first size-1 characters and a NUL; nothing else changes |
| FormatTheorems.ScanReadsDirective | bazelPro/src/lib/snprintf_asyncsignalsafe.cc:120-159 | every directive of flags, width, precision, length and letter, with numbers or stars, is scanned to its meaning |
| FormatTheorems.ScanReadsItems | bazelPro/src/lib/snprintf_asyncsignalsafe.cc:120-159 | flags, widths, precisions and lengths in any order and number are scanned to their meanings in turn |
| FormatTheorems.RenderConcat | bazelPro/src/lib/snprintf_asyncsignalsafe.cc:108-329 | a complete format followed by another renders to the two renderings in a row |
| DirectiveTheorems.PrintedIntReadsBack | bazelPro/src/lib/snprintf_asyncsignalsafe.cc:169-204 | any int with any flags and width prints a field of exactly the promised length that reads back as the int |
| DirectiveTheorems.RenderDirective | bazelPro/src/lib/snprintf_asyncsignalsafe.cc:120-328 | a format that starts with a directive prints the field its meaning gives and then the rest, whatever the arguments |
| DirectiveTheorems.StarMeansWidth | bazelPro/src/lib/snprintf_asyncsignalsafe.cc:161-162 | a width of 0 or more taken from an argument is that width written out, whatever follows |
| DirectiveTheorems.NegativeStarWidth | bazelPro/src/lib/snprintf_asyncsignalsafe.cc:315-328 | a width of 0 or less taken from an argument is no width, `-` or not |
| DirectiveTheorems.StarMeansPrec | bazelPro/src/lib/snprintf_asyncsignalsafe.cc:163-164 | a precision of 0 or more taken from an argument is that precision written out, whatever follows |
| DirectiveTheorems.NegativeStarPrec | bazelPro/src/lib/snprintf_asyncsignalsafe.cc:163-164 | a negative precision taken from an argument is a precision of 1, except for strings and for `#` |
| FormatTheorems.UnfinishedConversion | bazelPro/src/lib/snprintf_asyncsignalsafe.cc:166-167 | a format that ends inside a conversion prints nothing for it |
| FieldTheorems.SignedLayout | bazelPro/src/lib/snprintf_asyncsignalsafe.cc:184-204 | sign, padding and digits of a signed field, the sign before the zeros |
| FieldTheorems.SignedLength | bazelPro/src/lib/snprintf_asyncsignalsafe.cc:315-328 | a signed field has exactly the larger of the width and the signed number's length |
| FieldTheorems.HalfArgument | bazelPro/src/lib/snprintf_asyncsignalsafe.cc:184-219 | `h` keeps the one 16-bit value, signed or unsigned, that agrees with the argument modulo 2^16 |
| FieldTheorems.SignedRoundTrip | bazelPro/src/lib/snprintf_asyncsignalsafe.cc:307-313 | a signed field reads back as its argument if and only if the magnitude fits 32 bits and no blanks follow the sign |
| DirectiveTheorems.DetachedExample | bazelPro/src/lib/snprintf_asyncsignalsafe.cc:187-193 | `%+06.1d` of 3 prints `+`, four blanks and `3`, which does not read back |
| DirectiveTheorems.LongExample | bazelPro/src/lib/snprintf_asyncsignalsafe.cc:308 | `%ld` of 2^32 prints `0` |
| PrintedText.PrintedPlain | bazelPro/src/lib/snprintf_asyncsignalsafe.cc:116-119 | what holds no percent sign is copied, whatever follows and whatever the arguments |
| PrintedText.PrintedPercent | bazelPro/src/lib/snprintf_asyncsignalsafe.cc:297-301 | `%%` prints a percent sign in its field, takes no argument, and the rest prints itself |
| PrintedText.PrintedChar | bazelPro/src/lib/snprintf_asyncsignalsafe.cc:288-292 | `%c` prints the byte of its argument's low eight bits, nothing for a NUL, and takes one argument |
| PrintedText.PrintedString | bazelPro/src/lib/snprintf_asyncsignalsafe.cc:283-287 | `%s` prints what the precision keeps of its one argument, for every flag, width and precision, negative ones included |
| PrintedText.UnknownLetter | bazelPro/src/lib/snprintf_asyncsignalsafe.cc:302-304 | an unknown letter prints itself, takes no argument, and the rest prints itself |
| PrintedText.PrintedUnsigned | bazelPro/src/lib/snprintf_asyncsignalsafe.cc:205-313 | u, x, X, o, O and p print the low bits of their one argument in the letter's base with prefix, precision and fill, or overrun the scratch array |
| PrintedText.UnsignedReadsBack | bazelPro/src/lib/snprintf_asyncsignalsafe.cc:205-313 | without a prefix that field has the promised width and reads back, in the letter's base, as the low bits |
| PrintedText.PrintedSigned | bazelPro/src/lib/snprintf_asyncsignalsafe.cc:169-204 | `%d` and `%i` print sign and digits of their one argument for every flag, width, precision and length, and exactly when they cannot |
| FieldTheorems.SignedAllowed | bazelPro/src/lib/snprintf_asyncsignalsafe.cc:113 | exactly which signed conversions fit the scratch array |
| FieldTheorems.UnsignedRoundTrip | bazelPro/src/lib/snprintf_asyncsignalsafe.cc:205-269 | u, x, X, p, o fields read back as the low 32 bits and have the promised length |
| FieldTheorems.AlternativeForm | bazelPro/src/lib/snprintf_asyncsignalsafe.cc:241-245 | `#` prints the prefix before the digits, padded outside |
| FieldTheorems.AlternativeDigits | bazelPro/src/lib/snprintf_asyncsignalsafe.cc:264-267 | `#` adds its prefix length to the precision, and the digits still read as the number |
| FieldTheorems.StringField | bazelPro/src/lib/snprintf_asyncsignalsafe.cc:283-287 | how precision cuts a string, 0 and negative values included |
| BufPrintf.Buffer.constructor | bazelPro/src/lib/bufprintf.h:25-30 | `bufinit`: an empty string at the start of the window |
| BufPrintf.Buffer.Bufprintf | bazelPro/src/lib/bufprintf.cc:6-17 | one call prints into the rest of the window and shrinks it by what it wrote |
| BufPrintf.ChainIsTruncatedConcat | bazelPro/src/lib/bufprintf.cc:6-17 | any sequence of calls leaves the first size-1 characters of all renderings, NUL-terminated, with counts adding up and the end fixed |
| BufPrintf.TwoCallsAreOne | bazelPro/src/lib/bufprintf.cc:6-17 | two calls leave what one call with both texts leaves |
| HexDump.Dumped | bazelPro/src/utils/dump.cc:11-58 | error returns, block size, and the dump followed by NULs in a block it never leaves |
| HexDump.PrintRow | bazelPro/src/utils/dump.cc:37-52 | one turn of the outer loop appends exactly one row |
| HexDump.FlattenLength | bazelPro/src/utils/dump.cc:26-52 | n rows take at most 78 n characters |
| HexDump.ChunksJoin | bazelPro/src/utils/dump.cc:37-52 | the rows consume every input byte once, in order |
| HexDump.ChunkCount | bazelPro/src/utils/dump.cc:26-30 | there are as many rows as the block was allocated for |
| HexDump.DumpShows | bazelPro/src/utils/dump.cc:37-55 | every character of the dump of every input: each row at its offset, its number, two blanks, its cells, a blank, a bar, its bytes up to a NUL with the blanks of later rows, a bar, a newline |
| HexDump.ColumnShowsBytes | bazelPro/src/utils/dump.cc:43-50 | the text column shows the bytes up to the first NUL, then blanks except in the first row |
| HexDump.DumpReadsBack | bazelPro/src/utils/dump.cc:37-55 | reading a dump recovers the input for every non-empty input |
| HexDump.DumpInjective | bazelPro/src/utils/dump.cc:37-55 | different inputs have different dumps |
| Signals.IsFatal | bazelPro/src/lib/zsignal.cc:48-56 | the search loop finds exactly the signals 4, 6, 7, 8, 11 and 31 |
| Signals.Dispatcher.RegisterUser | bazelPro/src/lib/zsignal.cc:339-367 | in-place registration: it succeeds exactly for a free row of a signal that is not fatal with the lock held, fills that row and touches no other |
| Signals.Dispatcher.DeregisterUser | bazelPro/src/lib/zsignal.cc:369-381 | in-place deregistration: 0 and a cleared row with the lock, -1 and no change without |
| Signals.Dispatcher.ResetDefault | bazelPro/src/lib/zsignal.cc:383-390 | the two sections in a row, whatever they return |
| Signals.Dispatcher.NonfatalHandler | bazelPro/src/lib/zsignal.cc:128-149 | the handler queues the siginfo if there is a pipe that takes it |
| Signals.Dispatcher.SelfpipeCb | bazelPro/src/lib/zsignal.cc:213-240 | one read and what becomes of the siginfo |
| Signals.Dispatcher.SignalCb | bazelPro/src/lib/zsignal.cc:187-192 | a pending event is run once and freed |
| Signals.ReadMayWait | bazelPro/src/lib/zsignal.cc:218-239 | other threads between the read and the locked section of `selfpipe_cb` make no difference: the read may be put off until the lock |
| Signals.ResetInstallsDefault | bazelPro/src/lib/zsignal.cc:383-390 | after a reset the default callback is there, except for a fatal signal |
| Signals.Conservation | bazelPro/src/lib/zsignal.cc:128-240 | in every run each siginfo the pipe took is in exactly one of five places, delivered at most once, and no fatal signal has a callback |
| Signals.Provenance | bazelPro/src/lib/zsignal.cc:196-240 | every scheduled or delivered event carries the callback and context that were in the table when its siginfo was read |
| Signals.FateDecided | bazelPro/src/lib/zsignal.cc:213-240 | every siginfo read was read by one step, and the table row that step saw decides its fate, both ways |
| Signals.SignalReachesCallback | bazelPro/src/lib/zsignal.cc:128-240 | a signal with a callback is delivered to it in every run that reads far enough, unless its row is cleared or a read fails |
| Signals.AcceptedExactly | bazelPro/src/lib/zsignal.cc:128-149 | in every run with a pipe, the pipe took exactly what handlers wrote, in order; without a pipe, nothing |
| Signals.TableExactly | bazelPro/src/lib/zsignal.cc:339-381 | in every run the row of a signal is what the registrations and deregistrations so far leave |
| Signals.RegisteredSignalIsDelivered | bazelPro/src/lib/zsignal.cc:128-240 | from the start of the program, a signal left with a callback by the registrations, written by a handler and followed by enough reads reaches that callback |
| Routes.LoadPoint | bazelPro/src/tmp/tmp.cc:121-152 | the loop finds the first entry for the neighbour, and nothing exactly if there is none |
| Routes.HopExactly | bazelPro/src/tmp/tmp.cc:142-151 | a hop has a point exactly if its node's file has an entry for the next node, and then the first such entry's |
| Routes.LookupIsFirst | bazelPro/src/tmp/tmp.cc:142-148 | of several entries the first counts |
| Routes.CrossMap | bazelPro/src/tmp/tmp.cc:153-230 | the loops over rules and hops compute `Expand`; a file that is not an array succeeds with no points |
| Routes.RouteExistsExactly | bazelPro/src/tmp/tmp.cc:193-222 | an array of rules gives a route exactly if some rule has both ends and, in the first such rule, every node on the way has an entry for the next |
| Routes.RoutePoints | bazelPro/src/tmp/tmp.cc:200-214 | the points of a route are those of its hops, in order |
| Routes.RouteSound | bazelPro/src/tmp/tmp.cc:176-216 | a route has as many points as hops, one looked up for each pair of neighbours from the one end to the other, in the first rule with both |
| Routes.RouteReverses | bazelPro/src/tmp/tmp.cc:200-214 | swapping the ends makes the same rule the first match and visits the same nodes in reverse |

## Left out

- FormatSpec.Scan: widths and precisions are unbounded integers, because the overflow of an `int` by the digits of a format is undefined.
- FormatSpec.Convert: has no meaning for `%f`, whose digits rest on IEEE rounding, nor for `%n`, which stores through an argument.
- Formatter.Vsnprintf: is stated for sizes from 1 up and renderings up to 2^31 - 1 characters, because a size of 0 or a longer count is undefined in the source.
- FormatSpec.FetchNumber: takes arguments of the type the source names in `va_arg`, so `%p` takes an int unless `l` is given.
- BufPrintf.Buffer.Bufprintf: the variant `bufprintf` on the C library's formatter is not part of this model.
- HkShm.Shm.Get: is stated for indices below 2^31, because a larger one makes the source read before the table.
- HkShm.Shm.Put: is stated for indices whose successor, taken as an int, leaves a remainder of at least 0, because any other makes the source write before the table.
- HkShm.Shm.constructor: opening, sizing and mapping the shared memory; what the region held is a parameter.
- RingInterleaving.InterleavedGetIsAtomic: assumes sequential consistency and one writer; weak memory order and several writers are not modelled.
- EdgeDetector.GreedyIsOptimal: assumes a clock that does not run backwards and is never 0, which is the machine's mark for "not armed".
- Signals: fatal handlers, backtraces, raising and aborting, and floating-point traps; the default registrations of `zsignal_init` are ordinary registrations of a run; a failing `malloc` is undefined in the source.
- Routes.CrossMap: starts from the parsed rule file; an unreadable one makes the source return false before anything modelled here.
- Routes.LoadPoint: starts from the parsed cross files; the library that parses them is not part of this model.
- All logging by `printf`, the wrapper `hexdump` that prints a dump, sockets, message generators, threads, the event loop and `/proc` readers: input and output, or thin wrappers around libraries.
