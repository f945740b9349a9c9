# A verified model of the freestanding shell and its build scripts

This project models the parts of the repository where a mistake is easiest to make and hardest
to see, and proves what they keep, on every input and every run:

- **The payload** (`payload/`), a libc-free shell with fixed buffers and fixed-width numbers:
  decimal and IPv4 parsers and printers (`Numerals`, `Printing`, `Ipv4`), the Internet checksum
  (`Checksum`), the in-place tokeniser (`Tokens`), the read-eval loop (`Shell`), the HTTP header
  parser (`Http`), the downloader (`Fetch`), and the byte movers `nc` and `cp` (`Relay`).
- **The rootfs cache** (`scripts/ensure-rootfs.py`), as a state machine over files whose runs
  may fail or be stopped between any two steps, also half way through writing a file (`Rootfs`).
- **Two parsers of the package tests** (`scripts/test-packages.py`): the newc CPIO walk
  (`Cpio`) and the incremental console reader with its marker-order check (`Guest`).
- **The kernel fragments** (`scripts/gen-config.py`, `Makefile`): a printer, the shell recipe
  that reads its output back, and the order in which two fragments are applied (`Kconfig`).

`Text` holds what they share (C strings, splitting, words); `Machine` holds the operating system.

## How the model is built

Code that changes things step by step is a class or a method with loops, proved against
functions and predicates that say what the result means. `Machine.Kernel` stands for the system
calls. Each call may fail, and a read or write may do less than asked; how much is left open, so
what is proved holds for every pattern of short reads, short writes and failures. The kernel
keeps ghost counts of failed calls (`failures`), of writes that returned 0 (`stalls`), of
descriptors opened (`opens`), and logs of closed descriptors, unlinked paths and connections made.

- A C `char` and a stream byte are a Dafny `char`; the payload only copies and compares them.
  The checksum and the echo packet use numbers from 0 to 255.
- `unsigned long` has 32 or 64 bits, a parameter `w` wherever it matters; wrap-around is
  written out with `%`, shifts and masks as division and remainder.
- The results of writes to the console are ignored by the source, so `console` records the text
  the payload issued.
- SHA-256 and MD5 are injective: a recorded digest is the digested content.
- A Buildroot build adds the packages the configuration selects to the tree. Its other settings
  take effect only in an empty tree, and cleaning empties it. An image is wrong if it has
  another package or was built with another setting than asked for.

## Where the code does less than it may seem to

Each of these is proved, with the exact condition under which the code does meet the promise.

- `parse_unsigned` and `content_length` guard against overflow by `next < value`, which misses
  some wraps: with 32 bits `10000000000` is read as 1410065408 (`GuardMissesWrap`,
  `DeclaredCanWrap`). A declared length is the written one exactly when the width can hold it
  (`DeclaredExactly`), and the port test of `fetch` is exact all the same (`PortIsExact`).
- `write_all` returns 0 when a write makes no progress, and its callers test only for negative
  results. Copies, downloads and the relay deliver everything exactly when no write stalled
  (`Machine.Delivered` and the contracts that use it);
  otherwise something is missing, but nothing is reordered, repeated or invented.
- The 32-bit checksum accumulator is wide enough for all buffers of a length exactly when that
  is at most 131074 bytes (`WidthIsSharp`).
- A string in a kernel fragment reads back as itself only without blanks and quotes, and only
  if it is not empty (`LineReadsBack`).
- `cp` of a file onto itself leaves it empty and reports nothing (`Cp`).
- A run stopped while it copies into the rootfs cache leaves an identity no later run can
  finish (`Ensure`). A build started by hand in a stamped tree keeps what the runs rely on
  exactly when it selects nothing the stamp does not (`MakeByHand`, `BuiltByHandBetween`,
  `WrongAfterHandBuild`).
- `docs/buildroot.md:25-26` speaks of a clean build on every configuration change without a
  cache entry. The code also keeps the tree when the change only adds packages
  (`scripts/ensure-rootfs.py:73-90`); the model follows the code.

## Model

| member | source | states |
|---|---|---|
| Machine.WriteAll | payload/util.c:210-223 | for every pattern of short writes, a prefix of the text arrives in order; on a non-negative result all of it arrived, or a write stalled and the result is 0 |
| Machine.Kernel.Read | payload/syscall.c:60-63 | the assumed read: negative, 0 at end of input only, or 1 to n characters, which leave the stream and fill the buffer from its start |
| Machine.Kernel.Write | payload/syscall.c:65-68 | the assumed write: negative, 0, or 1 to n characters accepted, which also reach the file behind the descriptor |
| Machine.WriteChunk | payload/transfer.c:181 | one chunk of a copy extends the file; the file is complete so far exactly when no write stalled since the start, and otherwise what arrived is still in order, with nothing twice and nothing from elsewhere |
| Machine.DeliveredMore | payload/util.c:217-219 | after any number of stalled writes, whose callers go on as if nothing had happened, what arrived is a proper subsequence of what was meant |
| Numerals.ParseUnsigned | payload/util.c:49-70 | accepts exactly the nonempty digit strings whose prefixes never drop modulo 2^W, and returns the number modulo 2^W |
| Numerals.FittingClimbs | payload/util.c:61-64 | the overflow guard turns no number away that fits, and it is read exactly |
| Numerals.SmallValueIsExact | payload/util.c:61-64 | an accepted value below a tenth of 2^W has not wrapped |
| Numerals.GuardMissesWrap | payload/util.c:61-64 | with 32 bits 10000000000 passes the guard and becomes 1410065408 |
| Numerals.ParseUndoesPrint | payload/util.c:49-70 | every value of the width is read back from its decimal text |
| Numerals.LeadingZeros | payload/util.c:56-67 | leading zeros, however many, do not change the number read |
| Numerals.DecimalIsCanonical | payload/util.c:139-153 | the decimal text of n denotes n and has no superfluous zero |
| Numerals.CanonicalIsDecimal | payload/util.c:139-153 | it is the only such text, so both printers agree wherever both apply |
| Printing.PrintUnsigned | payload/util.c:139-153 | prints the canonical decimal of every value of the width |
| Printing.CollectDigits | payload/util.c:141-147 | the reversed buffer is the decimal, and the buffer of 3 * sizeof(long) + 1 characters suffices |
| Printing.WidthDigits | payload/util.c:141 | no value has more than 10 digits in 32 bits or 20 in 64 |
| Printing.PrintU64 | payload/util.c:155-186 | prints the same canonical decimal for every 64-bit value, without dividing |
| Printing.FillDigits | payload/util.c:162-175 | the row denotes the value after bit 0, by way of value div 2^b after each bit b |
| Printing.DoubleInPlace | payload/util.c:164-174 | one pass doubles the number and adds the bit; all digits stay below 10 and no carry leaves the first place |
| Printing.PrintDigits | payload/util.c:177-185 | prints the row without its leading zeros, but never nothing |
| Printing.StrippedIsDecimal | payload/util.c:177-185 | a row of digits without leading zeros is the canonical decimal of the number it denotes |
| Ipv4.ParseIpv4 | payload/util.c:72-103 | accepts exactly four dot-separated nonempty digit groups of value at most 255 and packs them first octet lowest |
| Ipv4.PrintIpv4 | payload/util.c:188-197 | prints the four octets in decimal, lowest first, dots between |
| Ipv4.AddressTexts | payload/util.c:72-103 | any four octets joined with dots are accepted with the packed value |
| Ipv4.AddressGroups | payload/util.c:72-103 | and nothing else is |
| Ipv4.ParseUndoesPrint | payload/util.c:188-197 | every 32-bit address is read back from its printed text |
| Ipv4.PrintNormalises | payload/util.c:188-197 | printing an accepted text again drops leading zeros, and the text printed is accepted with the same address |
| Checksum.ComputeChecksum | payload/util.c:110-126 | the complement of the sum modulo 2^32 folded to 16 bits, after at most two folds |
| Checksum.FoldCarries | payload/util.c:122-124 | the loop ends with the representative of the sum modulo 65535, 0 only for 0, in at most two rounds |
| Checksum.NoWrap | payload/util.c:113-121 | up to 131074 bytes the 32-bit sum cannot wrap |
| Checksum.WidthIsSharp | payload/util.c:113-121 | all buffers of a length are summed right if and only if the length is at most 131074 |
| Checksum.SwappedSums | payload/util.c:115-121 | summing byte-swapped words is multiplying the sum by 256 modulo 65535 |
| Checksum.MatchesStandard | payload/util.c:110-126 | byte-order independence, section 2(B) of RFC 1071: the native-order result is the byte-swapped checksum of section 1, for even and odd lengths |
| Checksum.FieldVerifies | payload/net.c:89-97 | a packet with a cleared field at an even offset checks to 0 if and only if the value stored there is the computed one, up to the two zeros |
| Checksum.StoredChecksumVerifies | payload/net.c:97 | the stored checksum makes a second computation return 0 |
| Checksum.FillEcho | payload/net.c:89-97 | the packet filled in place carries every field and the standard's checksum in network order, and checks to 0 |
| Text.CStringIs | payload/util.c:4-11 | the string in memory is what precedes the first NUL |
| Text.WordsJoin | payload/util.c:247-269 | joining words with one blank and splitting again is the identity |
| Text.WordsPrefix | payload/util.c:252-265 | stopping at the end of a word yields a prefix of all words |
| Tokens.SplitArgs | payload/util.c:247-269 | exactly the first min(n, capacity - 1) words, each NUL-terminated where it stood in the line, one after another with only blanks before and between them, then NULL; nothing else in argv changes, and in the line only blanks become NUL |
| Tokens.NextWord | payload/util.c:252-263 | one round takes one more word, or the rest of the line had none |
| Tokens.Echo | payload/commands.c:31-41 | prints the arguments joined with single blanks, and a newline |
| Tokens.EchoResplits | payload/commands.c:31-41 | splitting what echo printed gives the echoed words back |
| Shell.ReadLine | payload/util.c:225-245 | consumes a whole line, or exactly what fills the buffer; the line is what was consumed without CR and LF, and a failure drops an unfinished line |
| Shell.PieceIsUnique | payload/util.c:229-242 | no input can be cut in two ways |
| Shell.Turn | payload/tiny_shell.c:15-21 | a command gets the first 15 words of the line just read, after a prompt; where no line came a line end is shown |
| Shell.Serve | payload/tiny_shell.c:13-22 | over any number of rounds the consumed pieces concatenate to a prefix of the input, each command runs on its own piece, and there is a prompt a round |
| Shell.EchoedLineReadsBack | payload/tiny_shell.c:13-22 | what echo prints for any line of the shell fits its buffers, and read back it is the echoed arguments |
| Http.HttpStatusOk | payload/transfer.c:7-20 | accepts exactly HTTP/, a version without blanks, and status 200 between blanks |
| Http.HeaderNameMatches | payload/transfer.c:27-35 | compares without regard to letter case and stops at the end of the string |
| Http.LengthName | payload/transfer.c:22-35 | a line has the name exactly if each of its first fifteen characters is that of content-length: or of CONTENT-LENGTH:, in any mixture |
| Http.ContentLength | payload/transfer.c:37-73 | the first line of that name decides (section 10.4 of RFC 1945): its number modulo 2^W, or -1 when malformed; 0 without such a line; no read past the NUL |
| Http.FieldOfLine | payload/transfer.c:47-61 | the scan of the field, which does not look for the end of its line, never leaves it |
| Http.FieldIs | payload/transfer.c:47-63 | a field declares a length if and only if it is blanks, digits that pass the guard, and then CR or the end of a terminated line; the length is the number modulo 2^W |
| Http.DeclaredLengthReadsBack | payload/transfer.c:42-63 | a length that fits is read exactly, whatever the letter case, the blanks and the other lines |
| Http.DeclaredExactly | payload/transfer.c:50-63 | an accepted field yields the number written if and only if the width can hold it |
| Http.DeclaredCanWrap | payload/transfer.c:51-54 | with 32 bits a field of 10000000000 declares 1410065408 |
| Http.ReadResponseHeader | payload/transfer.c:111-129 | consumes the shortest prefix ending in CRLFCRLF if that has at most capacity - 1 bytes, and otherwise says why there is none |
| Http.HeaderIsUnique | payload/transfer.c:121-126 | a stream has at most one such prefix |
| Fetch.Fetch | payload/transfer.c:131-201 | without a failed call the run ends as the arguments and the stream foresee, and a failed call leads to one of four failures; saved if and only if everything is good and no call failed, and then, if nothing stalled, the file holds exactly the bytes after the header; a failure before the output is opened changes no file and unlinks nothing, a later one unlinks it; every descriptor is closed once and the printed line is that of the outcome |
| Fetch.Exchange | payload/transfer.c:152-196 | each outcome after the connection has its cause in the header that was read, the length it declares or a failed call, and leaves what belongs to it: closed descriptors in order, the output created or not, unlinked or kept |
| Fetch.ExplainedIsForeseen | payload/transfer.c:143-196 | those causes leave one possible outcome where no call failed, and saved only for an acceptable stream |
| Fetch.Transfer | payload/transfer.c:165-200 | from the output file on: kept if and only if no call failed and the length agrees with the declared one; which descriptors are closed, in which order, and what is unlinked |
| Fetch.Receive | payload/transfer.c:176-196 | the open output file is closed before the socket, and unlinked exactly when the transfer failed |
| Fetch.StreamBody | payload/transfer.c:176-186 | without failure the whole stream was read, the total is its size modulo 2^64, and the file holds it unless a write stalled |
| Fetch.SendRequest | payload/transfer.c:101-109 | the five writes send the request, whole unless a write stalled |
| Fetch.RequestLines | payload/transfer.c:103-107 | the request is a line of three words, two fields and an empty line, and one header: no empty line comes before the last |
| Fetch.ConnectTcp | payload/transfer.c:75-99 | dials exactly the parsed address and the port in network order, leaves no descriptor behind when it fails |
| Fetch.CheckArguments | payload/transfer.c:143-147 | accepts exactly five arguments with a port from 1 to 65535 and an absolute remote path |
| Fetch.PortIsExact | payload/transfer.c:143-144 | no number beyond the range passes by wrapping around |
| Fetch.AcceptableIff | payload/transfer.c:152-163 | for a stream with a good header, the declared length alone decides |
| Fetch.NotAcceptable | payload/transfer.c:152-157 | whenever the header reader gives up without a failed read, the stream has no header to accept |
| Fetch.DeclaredLength | payload/transfer.c:158-163 | the length is taken from the header up to its first NUL |
| Fetch.Report | payload/transfer.c:192-200 | the printed line is the one for the outcome, with the total in decimal |
| Relay.NcRelay | payload/net.c:139-176 | every poll is served until one ends the loop: each ready side gives at least a byte per poll and no other side is read; at every loop head and on a return of 0 both directions are conserved, complete if and only if no write stalled; it ends only for a failed call, a failed poll or the end of a ready side, and then each output is in order, a prefix unless a write stalled |
| Relay.Turn | payload/net.c:149-175 | one turn reads exactly the sides reported ready, the socket first, at least one byte and at most a buffer of each, and keeps both directions; where the socket gives nothing the input is left alone |
| Relay.Cp | payload/commands.c:127-163 | the destination is touched only when both files could be opened; then it holds some of the source in its order, a prefix unless a write stalled, and all of it when also nothing was reported; onto itself a file becomes empty; no descriptor stays open, and the printed line names the file whose opening, reading or writing failed |
| Relay.CopyLoop | payload/commands.c:148-160 | what is written is in the order of what was read, a prefix of the source unless a write stalled, and reaches its end when nothing failed; the source is blamed only when all that was read was delivered, the destination only when it was not |
| Rootfs.Checkout.Ensure | scripts/ensure-rootfs.py:36-126 | wherever it stops, the stamp and the cache stay truthful and other entries are untouched; a finished run delivers the image of the requested packages and settings with its manifest, both from an intact cache entry for it; the tree is kept if and only if the stamp allows, and then no package or setting in it is in the way; a build has every required BusyBox line; undisturbed it ends as foreseen |
| Rootfs.Checkout.BuildAnew | scripts/ensure-rootfs.py:62-125 | the part from the stamp test on: what tree and stamp it ends with, and the intact entry it leaves; an existing cache directory makes it fail in the end |
| Rootfs.Checkout.UseCache | scripts/ensure-rootfs.py:52-61 | only an intact entry is used, and then output and manifest are the cached ones |
| Rootfs.Checkout.Reusable | scripts/ensure-rootfs.py:65-90 | with a stamp, the tree is kept exactly when it is the same configuration, or an earlier request all of whose values the new one keeps, apart from the overlay and the BusyBox fragment, adding only packages |
| Rootfs.Checkout.StampAndBuild | scripts/ensure-rootfs.py:99-100 | at each point the stamp is the old one with an untouched tree, torn, or the new one over a tree within old plus selected |
| Rootfs.Checkout.Publish | scripts/ensure-rootfs.py:101-125 | only a build with every required BusyBox line is recorded; an entry with a whole manifest is truthful and intact, other entries are untouched, an existing directory makes it fail |
| Rootfs.Checkout.MakeByHand | scripts/buildroot.mk:69-93 | a build by hand keeps what the runs rely on about stamp and tree if and only if it selects no package the stamp does not and does not start an empty tree with other settings, or the stamp is torn |
| Rootfs.ValuesAre | scripts/ensure-rootfs.py:81-83 | a symbol has a value exactly when some line sets it, and the last such line decides |
| Rootfs.AdditiveIsCompatible | scripts/ensure-rootfs.py:84-89 | the test accepts exactly the changes that keep every value, apart from the overlay and the BusyBox fragment, and add only packages |
| Rootfs.CompatibleIff | scripts/ensure-rootfs.py:73-75 | these are exactly the changes that drop no package and touch no other setting |
| Rootfs.History | scripts/ensure-rootfs.py:36-126 | over any sequence of runs, new clones, runs for the other width and damaged cache files: each run that ends normally delivered the requested packages and settings, a kept tree held no removed package and no changed setting, and a usable cache entry stays as it is while its own files do |
| Rootfs.BuiltOnce | scripts/ensure-rootfs.py:47-61 | after a normal end, whatever runs come in between, the next undisturbed run for the same identity takes the same image from the cache |
| Rootfs.BuiltByHandBetween | docs/buildroot.md:28-33 | after a build by hand between two runs of one configuration, the second run builds the right image if and only if the hand build selected nothing else; with no cache entry and nothing going wrong it does end as built |
| Rootfs.HandBuiltPackageStays | docs/buildroot.md:28-29 | a package outside the empty configuration that a hand build selects |
| Rootfs.WrongAfterHandBuild | docs/buildroot.md:28-33 | with such a package a run in which nothing goes wrong ends as built with the wrong image |
| Cpio.UserElf | scripts/test-packages.py:45-75 | the loop computes the walk from offset 0, and its offset stays a multiple of 4 |
| Cpio.UserElfExactly | scripts/test-packages.py:45-75 | on any archive of well-formed records and a trailer it returns a program if and only if no record has a modules path, every wanted name that holds an ELF file has the class, machine and float bytes asked for, and the program is the last of these, with its path and little-endian flags |
| Cpio.ConsideredExactly | scripts/test-packages.py:60-72 | for each record, refusing, skipping or taking it depends on its name and those bytes alone |
| Cpio.NormalNames | scripts/test-packages.py:60 | a name stands for what follows an optional ./ and any slashes |
| Cpio.ReadRecord | scripts/test-packages.py:51-59 | with hexadecimal sizes the next offset is a larger multiple of 4 |
| Cpio.ReadExactly | scripts/test-packages.py:51-55 | a record is read if and only if it has one of the two magics and both sizes are hexadecimal digits of either case |
| Cpio.HexReadsBack | scripts/test-packages.py:54-55 | a number written in k hexadecimal digits is read back |
| Cpio.WrittenFieldsAreWellFormed | scripts/test-packages.py:54-55 | what archivers write for any name and body below 2^32 bytes is well formed |
| Cpio.RecordReadsBack | scripts/test-packages.py:51-59 | a record that stands at a multiple of 4 is read whole, and the offset moves to the next |
| Cpio.ArchiveStands | scripts/test-packages.py:49-59 | in a concatenation of records every record stands where the walk looks for it |
| Cpio.WalkSeesRecords | scripts/test-packages.py:49-73 | the walk inverts serialisation: it sees exactly the records before the one it stops at, in order, with names and bodies, whatever it does with them |
| Cpio.UserElfOfArchive | scripts/test-packages.py:45-75 | on any archive of well-formed records and a trailer the result is that of the records themselves, whatever follows the trailer |
| Cpio.TrailerStops | scripts/test-packages.py:60-64 | the trailer name, with or without ./ and slashes before it, ends the walk |
| Cpio.DecideIsLast | scripts/test-packages.py:65-75 | if no record is refused, the result is the last matching program |
| Cpio.RefusedRecordRefuses | scripts/test-packages.py:61-71 | one refused record refuses the archive, whatever was found before it |
| Text.SplitConcat | scripts/test-packages.py:152-154 | splitting is a homomorphism: only the pieces at the seam join |
| Text.SplitJoin | scripts/gen-config.py:262 | joining pieces and splitting again is the identity |
| Guest.Console.Read | scripts/test-packages.py:147-162 | after every chunk the events are those of the lines of the whole stream so far; an error is raised if and only if a new line is one of the three failure reports, or one of the seven kernel failure texts stands anywhere in the cleaned stream |
| Guest.ShowsFailureIs | scripts/test-packages.py:161-162 | a text shows a failure exactly when it is something, one of the seven texts, and something |
| Guest.Console.Feed | scripts/test-packages.py:147-162 | the same over any sequence of chunks |
| Guest.SplitContinues | scripts/test-packages.py:152-154 | splitting the pending text with what arrives continues the split of the stream |
| Guest.FirstSeenIsFirst | scripts/test-packages.py:156-157 | the events are the recorded lines, once each, in the order of their first occurrence |
| Guest.TimesFollowLines | scripts/test-packages.py:156-157 | recorded times compare as the first occurrences do |
| Guest.CheckOrder | scripts/test-packages.py:311-315 | passes if and only if the six markers occur in the stream and their first occurrences follow the list |
| Guest.Accept | scripts/test-packages.py:309-315 | from the first chunk on, the verdict is a function of the stream and not of how it was cut |
| Guest.AcceptBoth | scripts/test-packages.py:147-162 | two ways of cutting one stream never lead to two verdicts; a line or a whole stream that shows a failure ends both |
| Kconfig.LineReadsBack | scripts/gen-config.py:107-122 | a printed line makes the reader do what was meant, for every boolean and number, and for a string if and only if it is plain |
| Kconfig.IntTextDenotes | scripts/gen-config.py:120-121 | the text printed for an integer is the canonical decimal of exactly that integer |
| Kconfig.AssignmentReads | Makefile:253-259 | any assignment enables its symbol if the line ends in =y, and else sets it to the unquoted words behind the first equals sign |
| Kconfig.OtherLines | Makefile:252-260 | any other line does nothing |
| Kconfig.QuoteDropped | Makefile:258 | quotes are taken out and nothing else |
| Kconfig.StringComesThrough | Makefile:256-259 | a string is one unchanged word for the recipe if and only if it is not empty and has no blank or quote |
| Kconfig.EnableReadsBack | Makefile:253-255 | a line ending in =y enables exactly its symbol |
| Kconfig.DisableReadsBack | Makefile:249-251 | a line that says is not set disables exactly its symbol |
| Kconfig.GenShared | scripts/gen-config.py:195-236 | the shared fragment is the fixed head and the sections for 32 bits, zstd and the user, each only when asked for |
| Kconfig.GenVariant | scripts/gen-config.py:239-262 | the variant fragment is its head and the entries of its table in order |
| Kconfig.ApplyFragment | Makefile:243-262 | the while loop applies the lines of the file one after another, except text after the last newline |
| Kconfig.FragmentReadsBack | Makefile:243-262 | reading a printed fragment back overrides exactly the symbols its entries name |
| Kconfig.VariantReadsBack | scripts/gen-config.py:239-262 | a generated variant fragment reads back as its table |
| Kconfig.SharedReadable | scripts/gen-config.py:195-236 | the shared fragment asks for its fixed settings and then the user's, which win |
| Kconfig.ConfiguredKernel | Makefile:351-354 | after both generated fragments the configuration is defconfig overridden by the shared one and then by the variant |
| Kconfig.ConfiguredSymbol | Makefile:351-354 | symbol by symbol: the last entry of the variant decides, else the last of the user, else what the shared fragment sets by architecture and compression, else the defconfig; booleans are on or off, a number is a text that denotes it, a string is itself |
| Kconfig.AskedMeans | scripts/gen-config.py:107-122 | the last entry for a symbol decides what a table asks for, and what is set means what the entry says |
| Kconfig.VariantWins | Makefile:353-354 | for each symbol the variant decides, else the shared fragment, else the defconfig |

## Left out

- Cpio.UserElf: a size field that is not eight hexadecimal digits is refused, while Python's int() also takes signs, blanks, underscores and a 0x prefix, and with a negative size the walk could go back. Names that are not UTF-8 and the gzip layer are not part of the model.
- Relay.NcRelay: the polls are a finite list, so nothing is said about whether the relay ever ends.
- Relay.Cp: two different path texts are taken to name two different files; links are not modelled.
- Kconfig.LineReadsBack: strings with a backslash or a shell pattern character are not judged, because echo and pathname expansion may give them any meaning.
- Kconfig.ApplyFragment: the effect of scripts/config on other numbers of words than one symbol, or one symbol and one value, is taken to be none; TOML values other than booleans, integers and strings are left out.
- Guest.Console.Read: ASCII chunks only; what the removal of terminal escapes does to a line is any function; the exit of QEMU and the elapsed-time check of the sleep marker are left out.
- Rootfs.Checkout.Ensure: Kconfig dependencies and symbols on by default, a changed Buildroot commit and overlay files removed from the tree are not modelled, because Buildroot itself is not; only safety is claimed after a run stopped in the copy to the cache.
- Rootfs.Checkout.Reclone: the removal of the clone is one step.
- Rootfs.History: builds by hand are not among its events, because the claim is false with them, as `MakeByHand` says.
- The rest of the payload: replies to ping, `nc` around its relay, running programs and their status, the other built-in commands, the system call stubs.
- The remaining scripts: downloading and building Linux, OpenSBI and the distributions, packaging, release checks, QEMU and SSH.
