# A verified model of the etrace syscall tracer

etrace is an eBPF strace for arm64 and arm32. This project models its decoder, its kernel-side pairing
protocol, its syscall filter and the AF_XDP ring header it ships, and proves what they are for.

- **Decoder** (`src/sysdecode.c`): `OutBuffer`, `Quoting`, `Remote`, `Flags`, `Vectors`, `Eabi` and `Decoder` print
  through one append buffer, as the C code does. Every printer is a method proved to append a text given by a
  function; the laws about these texts are in `Quoting`, `Format`, `Memory`, `ViewLaws`, `FlagLaws`,
  `VectorLaws`, `BufferLaws`, `Times`, `EabiLaws`, `LineLaws`, `EventLaws` and `Truncation`. They start from bytes in
  memory, registers and the kernel's event, and end in what the text reads back as.
- **Pairing** (`src/mini_etrace.bpf.c`): `Handlers` holds the two handlers as methods that write their scratch
  records field by field. `Pairing` is the protocol with each handler as one step and an invariant over whole
  runs. `FineGrained` splits the handlers into single writes with CPUs interleaving freely, and refines
  `Pairing`. `SelfHealing` starts from arbitrary map contents, at both grain sizes.
- **Filter** (`src/mini_etrace.c`): `FilterParser` cuts the argument up in place; `SyscallBitmap` is the bitmap
  written in user space and read in the kernel.
- **Ring** (`aarch64-elib/include/bpf/xsk.h`): `Ring` has the two sides together with the history of a run, and each
  side as a class over the memory they share; every operation of either class is one step of the whole system, so
  the laws about runs hold of any interleaving of calls. `Modular` has the arithmetic of wrapping indices.

A traced process is seen through a memory reader: a function from pid, address and length to the bytes copied.
Where a property needs it, the reader is required to return the longest readable prefix (`Memory.PrefixReader`)
or at least only genuine bytes (`Memory.Faithful`). Addresses must not wrap within one read, and 32-bit pointers
must arrive zero-extended (`Memory.PointsTo`). Generated tables, C library names and the printers of fixed
layouts are parameters (`Decoder.Names`). The pairing runs start with both programs attached and nothing in
flight; each thread alternates between entering and leaving, so a pid_tgid is not reused after a call that never
returns. The self-healing theorem for whole handlers needs neither.

Where the code and its documentation differ: the header promises that a result of at least `dst_size` means
truncation, but the code clamps the result to `INT32_MAX`. `Truncation.PromiseHoldsIffSizeFitsInt` gives the exact
condition on the size under which the promise holds, and `Truncation.LongPathIsCutSilently` a call for which it does
not. An exit can report another system call than the one returning when the enter before it was rejected by a
filter and the map held a stale entry: `SelfHealing.HealsIffAccepted` and `SelfHealing.StaleEntryIsReported`.

## Model

| member | source | states |
|---|---|---|
| OutBuffer.Out.Printf | src/sysdecode.c:53-75 | whatever is appended, the buffer holds the longest prefix of everything appended so far that fits with a NUL, the rest of the memory is untouched, and the length counts every character |
| Quoting.PrintQuoted | src/sysdecode.c:117-140 | the byte-by-byte loop appends the escaped string, quoted, with an ellipsis on request |
| Quoting.ReadOfQuoted | src/sysdecode.c:117-140 | unescaping a quoted text gives back exactly the bytes, for all bytes and whatever follows |
| Quoting.QuotedIsInjective | src/sysdecode.c:117-140 | two byte strings, or the presence of an ellipsis, never share a text |
| Quoting.ClosingQuoteCloses | src/sysdecode.c:122-137 | the first double quote that is not escaped is the closing one |
| Quoting.QuotedShape | src/sysdecode.c:117-140 | every character is printable ASCII and the length lies between n+2 and 4n+2, plus the ellipsis |
| Quoting.QuotedIsShortest | src/sysdecode.c:122-135 | no printable text that reads as the same bytes is shorter, and no other one is as short |
| Quoting.PlainBytesAppear | src/sysdecode.c:131-132 | printable bytes other than the quote and the backslash appear as themselves |
| Format.DigitsAreShortest | src/sysdecode.c:601 | the digits printed for a number are the only shortest ones that denote it |
| Format.HexIsShortest | src/sysdecode.c:114 | so is the hexadecimal form |
| Format.SignedIsShortest | src/sysdecode.c:599-600 | and the signed one |
| Format.PaddedIsUnique | src/sysdecode.c:948-950 | of a given width, only one string of digits denotes a number |
| Remote.PrintPtr | src/sysdecode.c:107-115 | NULL or the pointer at its ABI width |
| Remote.ReadString | src/sysdecode.c:158-181 | the loop over 32-byte chunks ends and finds what reading chunk by chunk finds, for any reader, short reads included |
| Remote.PrintCString | src/sysdecode.c:142-189 | prints that string, or the pointer when it cannot be followed or read |
| Remote.PrintBuffer | src/sysdecode.c:191-227 | prints at most the configured part of a buffer, with its error cases |
| Remote.PrintOutputBuffer | src/sysdecode.c:613-618 | a buffer filled by a failed call is shown as a pointer |
| Memory.ChunkedIsBytewise | src/sysdecode.c:164-180 | with a longest-prefix reader, 32-byte chunks and one byte at a time find the same bytes and the same end |
| Memory.StringShowsMemory | src/sysdecode.c:142-189 | the bytes shown are those before the first NUL, unreadable byte or limit; there is no ellipsis iff a NUL was found; unreadable iff the first byte is |
| Memory.StringComesInChunks | src/sysdecode.c:164-180 | for any reader, byte k comes out of one read of 32 bytes, or of what is left, at the multiple of 32 below k |
| Memory.TargetIsRead | src/sysdecode.c:83-89 | an AArch64 pointer is followed without the tag in its top byte, an EABI one by its low half |
| Memory.BufferNeverOverShows | src/sysdecode.c:191-227 | a buffer shows at most what was requested and max_buffer, all from memory, with an ellipsis iff some but fewer than requested are shown |
| Memory.BufferShowsAll | src/sysdecode.c:206-225 | and exactly that many when the memory can be read |
| Memory.OutputIsLimited | src/sysdecode.c:573-582 | of a buffer the call filled in, min(requested, max(retval, 0)) bytes are requested; after a failed call it is not looked at |
| ViewLaws.ViewReadsBack | src/sysdecode.c:107-227 | what is printed for a pointer reads back as the bytes and the ellipsis, or as the pointer and whether it is noted as unreadable |
| Flags.PrintFlags | src/sysdecode.c:271-295 | the loop prints the greedy decomposition in table order, then the residual |
| Flags.PrintOpenFlags | src/sysdecode.c:297-324 | the same after the access mode, skipping entries inside it |
| FlagLaws.FlagDecomposition | src/sysdecode.c:286-294 | for any table and value: printed masks are pairwise disjoint and disjoint from the residual, together they are the value, and no mask of the table still fits in the residual |
| FlagLaws.FlagsByRule | src/sysdecode.c:271-295 | the text is the names, in table order, of exactly the entries all of whose bits are left when their turn comes, then what is left of the value |
| FlagLaws.OpenFlagsByRule | src/sysdecode.c:297-324 | the same for the bits outside the access mode, behind the mode's own name |
| FlagLaws.FittingIs | src/sysdecode.c:287-289 | an entry fits when the value has all its bits, and then they are cleared |
| FlagLaws.FlagsReadBack | src/sysdecode.c:271-295 | the text evaluates to the value, symbolic or not, with or without a name for zero |
| FlagLaws.OpenFlagsReadBack | src/sysdecode.c:297-324 | the open-flags text evaluates to the value, access mode included |
| Vectors.PrintStrv | src/sysdecode.c:422-446 | the loop over pointers, with its stops at NULL, an unreadable slot and the array limit |
| VectorLaws.StrvShowsMemory | src/sysdecode.c:422-446 | from the pointers as bytes in memory, 8 or 4 to a slot: the text shows slot by slot what each pointer leads to, and whether it ended at a NULL, at max_array or at a slot that cannot be read |
| VectorLaws.StrvReadsBack | src/sysdecode.c:422-446 | so for readable, terminated strings it gives back every string byte for byte, and ends in an ellipsis iff the first max_array slots are all non-NULL |
| Vectors.PrintIov | src/sysdecode.c:448-475 | the running budget of the loop gives area i min(len, what earlier areas left of the total) |
| VectorLaws.ScatterIsGiven | src/sysdecode.c:469-472 | this closed form is what each area holds after the bytes arrived one at a time, each going to the first area with room |
| VectorLaws.GivenInTotal | src/sysdecode.c:457-473 | in total min(sum of lengths, total) bytes are given out |
| BufferLaws.IovReadsBack | src/sysdecode.c:448-475 | the printed list reads back as its areas up to the first unreadable entry, each with what is seen at its base and its length |
| BufferLaws.IovShows | src/sysdecode.c:448-475 | each area shows at most what it gets of the budget when the areas are filled in order, all of it genuine, and together they show no more than the budget |
| BufferLaws.ReadvShowsWhatWasFilled | src/sysdecode.c:631-634 | from the bases and lengths as bytes in memory: a readv() that did not fail shows of each area what POSIX readv() put there, up to max_buffer; in total at most what the call returned |
| BufferLaws.WritevShowsFirstBytes | src/sysdecode.c:630 | a writev() shows the first max_buffer bytes of its areas in order |
| BufferLaws.FailedReadvShowsPointers | src/sysdecode.c:631-634 | a readv() that failed shows its areas as pointers |
| Times.PrintTimeSpec | src/sysdecode.c:402-420 | the two words, or the pointer when they cannot be read |
| Times.TimeShowsMemory | src/sysdecode.c:402-420 | from the bytes in memory, 8 or 4 to a word: the text gives back both as signed numbers |
| Eabi.PrintAligned64 | src/sysdecode.c:777-809 | the five calls with a 64-bit argument are printed with their logical C arguments, and no others |
| Eabi.LiftInvertsLower | src/sysdecode.c:767-809 | lowering the C arguments by rule C.3 of section 6.5 of AAPCS32 and decoding them gives the same arguments back, whatever the skipped register holds |
| EabiLaws.PositionalReadsBack | src/sysdecode.c:782-794 | from the C arguments of pread64 or pwrite64 through the registers to the text: it reads back as descriptor, buffer, count and offset in this order; the buffer is the one written, or what was filled in, or the pointer after an error |
| EabiLaws.ReadaheadReadsBack | src/sysdecode.c:795-800 | so does readahead, as descriptor, offset and count |
| EabiLaws.TruncateReadsBack | src/sysdecode.c:801-807 | and truncate64, as the string at the path and the length |
| EabiLaws.FtruncateReadsBack | src/sysdecode.c:801-807 | and ftruncate64, as descriptor and length |
| Decoder.PrintArg | src/sysdecode.c:594-639 | each kind of argument is printed by its own rule and nothing else is written |
| Decoder.PrintArgs | src/sysdecode.c:929-944 | the number of arguments, with the open and openat exceptions, and their separators |
| Decoder.PrintCall | src/sysdecode.c:913-945 | which of the special, aligned, described and raw forms a call gets |
| Decoder.PrintResult | src/sysdecode.c:831-843 | error, address and plain results |
| Decoder.FindCall | src/sysdecode.c:564-571 | the first entry with the name, or none exactly when no entry has it |
| Decoder.DecodeWithTable | src/sysdecode.c:886-953 | the buffer becomes the prefix of the one unlimited line, and the result is that line's length clamped to INT32_MAX, for every size; invalid arguments change nothing |
| Decoder.ParseEvent | src/sysdecode.c:967-988 | the same from the kernel's event, with the ABI taken from the table |
| Truncation.SmallerBufferHoldsPrefix | src/sysdecode.c:53-66 | buffers of different sizes agree up to the smaller one's NUL, and nothing after it is written |
| Truncation.PromiseHoldsIffSizeFitsInt | include/syscall_parser.h:69-70 | for a given size, the result tells truncation for every parser, event and table if and only if the size fits an int |
| Truncation.LongStringIsCutSilently | src/sysdecode.c:952 | every call with a string argument of max_string readable bytes is cut without the result saying so, for sizes above INT32_MAX up to max_string |
| Truncation.LongPathIsCutSilently | src/sysdecode.c:952 | for every size above INT32_MAX, a chdir() whose line is cut without the result saying so |
| BufferLaws.BufOutShows | src/sysdecode.c:613-618 | the text printed for any output buffer shows, if the call did not fail, at most min(requested, max(retval, 0), max_buffer) genuine bytes, all of them when they can be read, with an ellipsis iff some but not all; a failed call's shows the pointer |
| BufferLaws.BufInShows | src/sysdecode.c:612 | and for any input buffer, whatever the call returned, at most what was requested |
| EventLaws.EventReadsBack | src/sysdecode.c:967-988 | the line of a plain event gives back from the event and its table: tid or pid, the table's name, as many arguments as the table says at the width of its ABI, the result at that width, and the microseconds |
| EventLaws.ResultReadsBack | src/sysdecode.c:831-843 | errors as -1 with name and message for -4095 to -1, mmap, mmap2 and brk as an unsigned address, all else as a signed number |
| EventLaws.StringArgShows | src/sysdecode.c:605 | a string argument shows what its pointer leads to |
| EventLaws.StrvArgShows | src/sysdecode.c:606 | a list of strings shows what its slots lead to |
| EventLaws.TimeArgShows | src/sysdecode.c:620-629 | a time argument shows its two words at the width of its kind and ABI, or the pointer when a failed call should have filled it in |
| EventLaws.NothingIsFollowed | src/sysdecode.c:91-95 | without a reader or permission to follow pointers, every such argument shows its pointer |
| EventLaws.ModeIsShownForCreation | src/sysdecode.c:931-934 | open and openat show a mode exactly when the flags have O_CREAT |
| EventLaws.DescribedCallShowsArgs | src/sysdecode.c:929-936 | every other described call shows as many arguments as its descriptor has, at most six |
| EventLaws.DescribedArgIsShown | src/sysdecode.c:940-941 | each by the kind at its place |
| EventLaws.SpecialCallsAreApart | src/sysdecode.c:916-927 | the calls with a printer of their own get it |
| LineLaws.ArgReadsBack | src/sysdecode.c:598-636 | each numeric, pointer, descriptor, signal and flag argument reads back as the register's value at its width and sign |
| LineLaws.DurationReadsBack | src/sysdecode.c:948-950 | seconds and six fraction digits give back the duration in whole microseconds |
| LineLaws.LineReadsBack | src/sysdecode.c:911-950 | a plain line gives back thread or process, name, normalised arguments in order, result and microseconds |
| LineLaws.LineIsInjective | src/sysdecode.c:911-950 | two plain events with one line agree on all of these |
| SyscallBitmap.FilterAdd | src/mini_etrace.c:134-157 | adds one number to the set the bitmap stands for, or refuses and changes nothing |
| SyscallBitmap.SetAll | src/mini_etrace.c:159-167 | afterwards every number below 512 and no other is allowed |
| SyscallBitmap.AllowedAfterAdd | src/mini_etrace.bpf.c:87-111 | after user space adds a number, the kernel allows exactly that one more, whatever the bitmap held and whatever number it asks about |
| SyscallBitmap.AllowedIsBit | src/mini_etrace.bpf.c:87-111 | the kernel tests bit id % 64 of word id / 64, for numbers from 0 to 511 |
| FilterParser.NextToken | src/mini_etrace.c:203 | strtok_r in place: the token and what is left denote the tokens there were |
| FilterParser.TrimInPlace | src/mini_etrace.c:209-220 | the pointer loops leave the trimmed token as a C string and touch one character |
| FilterParser.TrimMeans | src/mini_etrace.c:209-220 | trimming removes blanks from both ends and nothing else |
| FilterParser.SyscallNumber | src/mini_etrace.c:173-187 | the first slot with the name, or -1 |
| FilterParser.ParseFilter | src/mini_etrace.c:189-264 | the whole mutation refines split, trim and drop-empty: success iff there is a token and all are known; the tokens before the first unknown one are added either way |
| FilterParser.TokensAreListed | src/mini_etrace.c:203-220 | the tokens are exactly the non-empty fields between commas, less the blanks and tabs around them |
| FilterParser.FilterEndToEnd | src/mini_etrace.c:538-542 | from an empty bitmap: success iff the argument lists some name and the table has all it lists; then the kernel allows n iff n is the first slot of a name listed |
| Text.SplitMeans | src/mini_etrace.c:203 | splitting at commas gives fields without commas that make up the argument again |
| Handlers.CommEqual | src/mini_etrace.bpf.c:115-129 | true iff the two names are the same up to their NUL or 16 bytes |
| Handlers.StoreTargetComm | src/mini_etrace.c:411-433 | the stored name is the argument, or its last 15 characters for a com. package, or its first 15 |
| Handlers.TargetNameMeans | src/mini_etrace.c:411-433 | the whole argument up to 15 characters; of a longer one the last 15 if it begins with com., else the first 15 |
| Handlers.NamesAgree | src/mini_etrace.bpf.c:115-129 | names are the same iff the characters agree up to a NUL in both or to the end |
| Handlers.AcceptsMeans | src/mini_etrace.bpf.c:155-168 | a thread t of process p with call number id is let through iff its name is known and every filter that is on agrees: p is the target, the names agree, the bit of id is set |
| Handlers.Tracer.TraceEnter | src/mini_etrace.bpf.c:132-198 | an accepted enter fills this CPU's scratch record and stores it unless the map is full and has no such key; a rejected one changes nothing |
| Handlers.Tracer.TraceExit | src/mini_etrace.bpf.c:200-252 | an entry found is reported once and deleted; without one nothing changes |
| Records.CallIsReported | src/mini_etrace.bpf.c:149-249 | for thread t of process p and call number id, in numbers: what an accepted enter stores and when, and the event its exit sends, with pid p, tid t, number id, the arguments, the result and both times |
| Records.FilledMatches | src/mini_etrace.bpf.c:174-190 | the filled record holds this call only, with pid and tid the halves of the key and the low word of the number: nothing a reader relies on is left over from the scratch |
| Records.ReportedMatches | src/mini_etrace.bpf.c:224-241 | the event reports the record's call, and its duration ends now without wrapping |
| Pairing.HandlersTakeSteps | src/mini_etrace.bpf.c:132-252 | whatever a handler does, accepting or not, finding an entry or not, and whatever the scratch records held, is one step of the protocol with the same map and events |
| Pairing.HitReportsCurrentCall | src/mini_etrace.bpf.c:212-231 | the entry an exit finds is that of the call its thread is returning from |
| Pairing.StepKeepsInv | src/mini_etrace.bpf.c:132-252 | every step keeps the table, event, time and count invariants |
| Pairing.PairingOverRuns | src/mini_etrace.bpf.c:132-252 | in every reachable state a key is in flight iff its thread is inside an accepted, stored call and its value is that call's record; every event reports one accepted call with the result and time of the exit that ended it, and no call is reported twice |
| Pairing.ConservationOverRuns | src/mini_etrace.bpf.c:34-39 | accepted enters are events sent, entries in flight and inserts lost to a full map; at most 4096 are in flight |
| Pairing.IntervalsOverRuns | src/mini_etrace.bpf.c:224-226 | one thread's events cover disjoint, ordered stretches of time |
| SelfHealing.AcceptedEnterHeals | src/mini_etrace.bpf.c:192-195 | from any maps and after any handler runs, inside a call whose enter the filters accepted the entry is a record of that call alone, or absent exactly when the map was full without it |
| SelfHealing.SelfHealing | src/mini_etrace.bpf.c:212-249 | from any maps, an exit of a thread all of whose enters are accepted sends an event for its latest enter with its own result and time, or none |
| SelfHealing.FineSelfHealing | src/mini_etrace.bpf.c:192-249 | the same from any map contents with the handlers split into single reads and writes on all CPUs |
| SelfHealing.HealsIffAccepted | src/mini_etrace.bpf.c:165-168 | an enter is sure to be reported by its exit, or nothing is, whatever the maps held and others do, if and only if the filters accept it |
| SelfHealing.RejectedEnterReportsStale | src/mini_etrace.bpf.c:165-168 | the exit after a rejected enter sends an event iff there was a stale entry, and then that entry's |
| SelfHealing.StaleEntryIsReported | src/mini_etrace.bpf.c:212-249 | a rejected enter and its exit that sends an event with another system call's number |
| FineGrained.WritesAreFilled | src/mini_etrace.bpf.c:174-190 | the single writes of the enter handler add up to the record the whole handler leaves, from any scratch record |
| FineGrained.WritesAreReported | src/mini_etrace.bpf.c:224-241 | and those of the exit handler to the event it sends |
| FineGrained.FineStepRefines | src/mini_etrace.bpf.c:170-249 | every single read or write, on any CPU, is one step of the atomic protocol or none |
| FineGrained.FineRefinesAtomic | src/mini_etrace.bpf.c:132-252 | every interleaving of the split handlers is a run of the atomic protocol |
| FineGrained.EventsAreWhole | src/mini_etrace.bpf.c:216-249 | whatever the interleaving, each event's id, arguments, time, pid, tid and captured frames come from one enter of its thread, its result and end from the exit that ended that call |
| FineGrained.EventsAreDistinct | src/mini_etrace.bpf.c:243-249 | at no moment have two events been sent for one enter |
| Ring.SlotOf | aarch64-elib/include/bpf/xsk.h:114-120 | masking an index gives its remainder by the ring size |
| Modular.MaskIsRemainder | aarch64-elib/include/bpf/xsk.h:127 | bitwise and with a power of two less one is the remainder |
| Modular.WrapKeepsSlot | aarch64-elib/include/bpf/xsk.h:119 | wrapping an index at 2^32 does not change its slot |
| Ring.RingProd.NbFree | aarch64-elib/include/bpf/xsk.h:151-169 | never more than is free, and exactly that when it is less than asked for |
| Ring.RingProd.Reserve | aarch64-elib/include/bpf/xsk.h:183-192 | the next nb entries and the first one's index exactly when they are free, else nothing |
| Ring.RingProd.Write | aarch64-elib/include/bpf/xsk.h:114-120 | fills the slot of one reserved entry, keeping the ring a queue |
| Ring.RingProd.Submit | aarch64-elib/include/bpf/xsk.h:194-200 | the next nb reserved entries join the queue with what their slots hold, after all earlier ones |
| Ring.RingCons.NbAvail | aarch64-elib/include/bpf/xsk.h:171-181 | nothing that was not submitted, and nothing at all only if nothing is there |
| Ring.RingCons.Peek | aarch64-elib/include/bpf/xsk.h:202-212 | how many entries follow the ones peeked before, and the first one's index |
| Ring.RingCons.Cancel | aarch64-elib/include/bpf/xsk.h:214-217 | the last nb peeked entries are the next ones again |
| Ring.CancelUndoesPeek | aarch64-elib/include/bpf/xsk.h:202-217 | peeking and giving everything back leaves the whole system as if the consumer had only looked |
| Ring.RingCons.Release | aarch64-elib/include/bpf/xsk.h:219-226 | the oldest nb peeked entries leave the queue: what was released is still the beginning of what was submitted |
| Ring.RingCons.Read | aarch64-elib/include/bpf/xsk.h:122-128 | a peeked entry is what was submitted under its number |
| Ring.FreeIsSafe | aarch64-elib/include/bpf/xsk.h:151-169 | the biased mod-2^32 difference is the producer's view of the free count, between 0 and the true one, with or without a refresh |
| Ring.PeekGivesKnown | aarch64-elib/include/bpf/xsk.h:171-212 | a peek hands out what is known to be there up to nb, and looks again when nothing is |
| Ring.ReserveNeverOverruns | aarch64-elib/include/bpf/xsk.h:183-192 | a successful reserve hands out pairwise distinct slots, none of which holds an unreleased entry |
| Ring.ReserveRefusesOnlyWhenFull | aarch64-elib/include/bpf/xsk.h:183-192 | a reserve fails iff that many slots are really not free |
| Ring.WriteSetsOneEntry | aarch64-elib/include/bpf/xsk.h:114-136 | filling a reserved entry changes no other entry in use |
| Ring.StepKeepsInv | aarch64-elib/include/bpf/xsk.h:151-226 | every operation keeps the six wrapped indices equal to ordered counts and the entries in their slots |
| Ring.ReleasedIsPrefixOfSubmitted | aarch64-elib/include/bpf/xsk.h:151-226 | over every interleaving and any number of wraps, what is released is a prefix of what was submitted, in order |
| Ring.PeekedEntriesAreNext | aarch64-elib/include/bpf/xsk.h:202-212 | entries peeked and not yet released are the next ones submitted |

## Left out

- Out.Printf: does not model a single formatted piece longer than INT_MAX, nor the wrap-around of the length at 2^64; neither can arise from a line that fits in memory.
- Remote.ReadString: does not model a failing malloc, and memory does not change while one line is printed.
- Decoder.PrintArg: socket address layouts are a parameter that yields the pieces printed, and signal names are a parameter; they are finite lookups.
- Decoder.PrintCall: the ioctl, bpf, openat2, clone3, fcntl and socketcall printers are one parameter that yields the pieces printed.
- Decoder.PrintResult: errno names and strerror are parameters.
- LineLaws.LineReadsBack: covers calls without a descriptor or special printer and with a result that is no error, since other lines do not determine their arguments.
- FilterParser.ParseFilter: console messages and failing map updates are not modelled; an array map with a valid key does not fail.
- Handlers.Tracer.TraceEnter: lookups of element 0 of array maps always succeed and are not modelled as failing.
- Pairing.ConservationOverRuns: counts an event as sent when it is passed to the perf buffer; events the perf buffer drops are not modelled.
- Ring.StepKeepsInv: each load or store of a shared index is one atomic step; memory ordering is not modelled.
- Big-endian hosts: words read from memory and register pairs are little-endian.
- A high 32-bit mmap result is sign-extended and printed with 64 bits, as the code does; nothing is claimed about a 32-bit rendering.
- Loading and attaching the programs, polling, signals and option dispatch, symbolisation of stacks, and the umem address helpers of the ring header.
- `syscall_parse`, `syscall_parser_create` and `syscall_parse_options_init` are declared but not defined in the repository and are not part of this model.
