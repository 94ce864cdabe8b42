# Verified models of the AliveClient cores

The repository is a monitoring agent: it keeps a server informed that a machine is alive
over a small binary protocol, and carries a utility library (INNOLIB) with a command
locator, a portable formatter and an ICMP prober. This project models four independent
cores in Dafny and proves what they are for.

* **Command locator** (`PathCleanUp`, `PathMeaning`, `WorkingDirectory`, `Tilde`,
  `PathSearch`, `Which`, over `Splitting`): the one-pass path normaliser of which.cpp with its
  three flags and its backtracking, tilde expansion for any way of expanding a single word, the
  search along PATH, and the two put together. The normaliser is proved equal
  to a specification over path components (section 4.11 of IEEE Std 1003.1-2004, Base
  Definitions), and the laws are proved of that specification.
* **Formatter** (`Directive`, `Conversion`, `Formatter`, over `Buffers`): the directive
  parser against a grammar, the integer conversion against evaluation in the base, and the
  bounded output loop against an unbounded renderer.
* **ICMP manager** (`Checksum`, `Probing`, `RangeScan`, `IcmpManager`): the checksum against
  section 1 of RFC 1071, and the two probing loops as state machines over arbitrary sequences
  of socket events; the class updates the same tables in place.
* **Wire protocol and sessions** (`Bytes`, `Wire`, `Transport`, `Packet`, `Session`,
  `Scheduler`): the growing packet buffer, typed writers and readers, frames over a transport
  that moves as many bytes at a time as it likes, the connect, exchange and close discipline of
  the commands with a ledger of descriptors, and the tick loop.

Where the C code updates memory in place there is a class or a method on an array, with loops
and invariants, proved equal to a specification function; the laws are lemmas about these
functions. The outside world enters as parameters: event lists for `select`, the clock and
`recvfrom` (a timeout is the end of the list), schedules of byte counts for `read` and
`write`, lists of outcomes for `socket` and `connect`, a function for `stat` and `access`, a map for
the password database. An endless loop is modelled as any number of its turns.

## What the code does other than promised

Where code and promise disagree the model follows the code, and the exact condition is proved.

* `path_clean_up` gives up and returns its input when ".." steps above the root more often than
  a leading "//" allows; for absolute paths these are exactly the results that are not in normal
  form (`NormalExact`). When it absorbs one such step, it loses the pair (`PairKept`). A working directory is not
  cleaned: every path keeps its location exactly if no empty, "." or ".." component of the
  working directory follows a name (`DenotesExact`; `UncleanDirectory` is a case where it
  does not). `getcwd` never yields such a spelling; the fallback to `$PWD`
  (test/INNOLIB/src/which.cpp:145-150) can.
* Of two adjacent empty PATH units the splitter loses one (`DeliveredWhole`); the search
  result does not change (`DeliveredSuffices`).
* The checksum folds exactly twice, which is right if and only if the second fold does not
  carry (`FoldExact`). It is right on all buffers of a size if and only if the size is at
  most 131076 bytes (`FoldBound`; `FoldFails` has the buffer).
* `Ping` leaves the sequence numbers of earlier calls in its table. In every run a target that
  was probed is credited only for a number it was probed with, and a target that was not only
  for the number left in the table (`CreditPaid`); such a stale reply is always accepted
  (`StaleCredited`). On a fresh manager, with at most 256 targets and 255 tries, these
  are exactly the replies with number zero (`CreditEarned`, `ZeroCredited`).
* When `Find` has stopped because enough have answered, every address of the range has been
  heard if and only if the range is not a full block of 256 (`FullBlock`, `RepliesStop`).
* The formatter reports an exact fit as truncated, contrary to the comment at its head
  (`ExactFit`). It pads with zeros in front of a sign or base prefix (`ZerosBeforePrefix`).
  The width of an integer is not clipped to the space left: a call leaves the buffer if and
  only if an integer that fits is padded past the end; otherwise the buffer holds the
  beginning of the whole text if and only if no field that starts inside it moves when it is
  cut, as right-justified ones do (`BoundedExact`, `CutExact`; `OverrunOccurs` is a call
  that leaves the buffer).
* `WriteShortString` is read back exactly when the text is shorter than 65536 bytes
  (`ShortStringExact`). The frame header must arrive in one read (`ReceiveFrame`).
  `ReceivePacket_Select` does not stop at a bad magic (`SelectDiffers`).
* A command that fails to connect a hundred times closes descriptor 0, which it never
  opened (`LedgerSquare`); a connection made on descriptor 0 is taken for none and leaks
  (`ZeroLeaks`).

Modelled as the code has them, without a law of their own: `%#X` prints "0x", `%+u` prints a
sign, `h` is ignored and `%p` prints nothing; a reply is accepted whatever its category and
command.

## Model

| member | source | states |
|---|---|---|
| PathCleanUp.CleanUp | test/INNOLIB/src/which.cpp:167-217 | the buffer ends up holding, NUL-terminated, the path resolved component by component, or the input where too many ".." meet the root; it never leaves the buffer |
| PathCleanUp.TakeTurn | test/INNOLIB/src/which.cpp:190-209 | one character written and the component it completes undone; -1 exactly when the backtracking runs off the front |
| PathCleanUp.StepBack | test/INNOLIB/src/which.cpp:196-208 | the inner loop finds the third slash from the end, or reports that there is none |
| PathCleanUp.ScanStep | test/INNOLIB/src/which.cpp:184-214 | the loop invariant: the text and the three flags are those of the components read so far, and the loop runs off only if the root is met too often |
| PathCleanUp.ScanUp | test/INNOLIB/src/which.cpp:194-209 | the step that completes a "..": the last name is removed, the leading pair spent, or the input escapes |
| PathCleanUp.EscapeStays | test/INNOLIB/src/which.cpp:199-203 | once too many ".." have met the root, the rest of the path cannot mend it, so leaving early is right |
| PathMeaning.CleanDenotes | test/INNOLIB/src/which.cpp:167-217 | the result denotes the same location as the input, on both exits, for absolute paths and from working directories in which only names follow a name |
| WorkingDirectory.DenotesExact | test/INNOLIB/src/which.cpp:140-217 | all paths keep their location if and only if no empty, "." or ".." component of the working directory follows a name |
| PathMeaning.CleanIdempotent | test/INNOLIB/src/which.cpp:167-217 | cleaning a cleaned path changes nothing |
| PathMeaning.CleanNormal | test/INNOLIB/src/which.cpp:184-216 | on the normal exit no "/./" and no "/../" is left, and no "//" but a leading pair the input had |
| PathMeaning.NormalExact | test/INNOLIB/src/which.cpp:184-216 | an absolute path is cleaned to a normal form if and only if it does not escape |
| PathMeaning.CleanShorter | test/INNOLIB/src/which.cpp:184-216 | the result is no longer than the input, plus the working directory for a relative path |
| PathMeaning.PairKept | test/INNOLIB/src/which.cpp:186-191 | the leading pair survives if and only if no ".." met the root or the input escaped |
| PathMeaning.PairIs | test/INNOLIB/src/which.cpp:186-190 | a pair is two slashes in front and not a third |
| PathMeaning.LastKept | test/INNOLIB/src/which.cpp:184-214 | what follows the last slash is kept as it is |
| PathMeaning.UncleanDirectory | test/INNOLIB/src/which.cpp:140-182 | a working directory spelled with ".." on which the location is not preserved |
| Tilde.FindPrefix | test/INNOLIB/src/tilde.cpp:83-112 | finds the first tilde at the start or after a blank |
| Tilde.FindSuffix | test/INNOLIB/src/tilde.cpp:116-141 | finds the end of the tilde word: a slash, a space, a newline or the end of the text |
| Tilde.TildeExpand | test/INNOLIB/src/tilde.cpp:144-212 | the scanner with its growing buffer computes the recursive expansion for any word expander: literal text, expanded word, rest |
| Tilde.Append | test/INNOLIB/src/tilde.cpp:166-171 | the capacity counted by the code always leaves room for the text and a terminator |
| Tilde.IsolateTildePrefix | test/INNOLIB/src/tilde.cpp:217-234 | the user name up to the slash, within a buffer of the word's length |
| Tilde.GluePrefixAndSuffix | test/INNOLIB/src/tilde.cpp:238-251 | prefix and the rest of the word, joined |
| Tilde.TildeExpandWord | test/INNOLIB/src/tilde.cpp:256-327 | the expander the scanner is used with: home directory, known user, unknown user and no tilde |
| Tilde.WordCases | test/INNOLIB/src/tilde.cpp:256-327 | "~", "~/rest", "~user", "~user/rest" for known and unknown users, and any other word, case by case |
| Tilde.FirstTildeIs | test/INNOLIB/src/tilde.cpp:83-112 | a word starts at the first tilde in front or after a space or a tab |
| Tilde.WordEndIs | test/INNOLIB/src/tilde.cpp:116-141 | a word ends at the first slash, space or newline |
| Tilde.ExpandIdentity | test/INNOLIB/src/tilde.cpp:144-212 | text without an eligible tilde is left alone |
| Tilde.ExpandSpace | test/INNOLIB/src/tilde.cpp:41-51 | a space separates expansions, whatever stands on either side |
| Tilde.ExpandLine | test/INNOLIB/src/tilde.cpp:41-51 | expanding a line is expanding each of its space-separated words by itself |
| PathSearch.ExtractColonUnit | test/INNOLIB/src/bash.cpp:180-220 | delivers the first unit still to come and advances past it, swallowing one more when two empty units are adjacent |
| PathSearch.GetNextPathElement | test/INNOLIB/src/bash.cpp:227-244 | the same with "." for an empty unit; the index strictly increases |
| PathSearch.MakeFullPathname | test/INNOLIB/src/bash.cpp:249-261 | path, slash and name |
| PathSearch.FindCommandInPath | test/INNOLIB/src/which.cpp:48-135 | what is found is an executable file, the name in the directory of the first unit that has one; nothing is found if and only if no unit of the rest of PATH has one, and then PATH is used up |
| PathSearch.FirstMatchIs | test/INNOLIB/src/which.cpp:83-134 | the specification of the search, unit by unit: "." for an empty one, expanded if it starts with a tilde |
| PathSearch.SkipEmpty | test/INNOLIB/src/bash.cpp:180-220 | losing an empty unit next to a failed one loses no match |
| PathSearch.DeliveredSuffices | test/INNOLIB/src/which.cpp:83-134 | searching the delivered units finds what searching all units finds |
| PathSearch.DeliveredKeeps | test/INNOLIB/src/bash.cpp:180-220 | every non-empty unit is delivered, in order |
| PathSearch.DeliveredWhole | test/INNOLIB/src/bash.cpp:180-220 | the split is delivered whole if and only if no two empty units are adjacent |
| PathSearch.WholePath | test/INNOLIB/src/which.cpp:226-231 | from index zero of a non-empty PATH the search runs over its full split |
| Which.Search | test/INNOLIB/src/which.cpp:219-271 | what is found is an executable file in the directory of the first unit of PATH that has one, and nothing only if no unit has one; the buffer then holds its cleaned name, which denotes the same file |
| Which.CleanWithout | test/INNOLIB/src/which.cpp:167-217 | cleaning brings no character into a path but slashes, so the copy of the result is not cut short |
| Checksum.Compute | test/INNOLIB/src/icmpmgr4.cpp:239-257 | sums the 16-bit words and the odd byte, folds twice and complements |
| Checksum.TotalIs | test/INNOLIB/src/icmpmgr4.cpp:243-252 | the sum two bytes at a time, the low one first, an odd last byte alone |
| Checksum.InternetExact | test/INNOLIB/src/icmpmgr4.cpp:239-257 | the RFC's checksum is the number that completes the sum to a multiple of 65535 |
| Checksum.FoldExact | test/INNOLIB/src/icmpmgr4.cpp:254-256 | two folds give the complement of the one's-complement sum if and only if the second does not carry |
| Checksum.FoldFits | test/INNOLIB/src/icmpmgr4.cpp:239-257 | up to 131076 bytes the result is the RFC's checksum |
| Checksum.FoldFails | test/INNOLIB/src/icmpmgr4.cpp:239-257 | for every larger size a buffer of that size on which the result is wrong |
| Checksum.FoldBound | test/INNOLIB/src/icmpmgr4.cpp:239-257 | the result is right on all buffers of a size if and only if the size is at most 131076 |
| Checksum.StampVerifies | test/INNOLIB/src/icmpmgr4.cpp:342-343 | storing the checksum in a zero word makes the checksum of the whole zero |
| Checksum.OneWordDetected | test/INNOLIB/src/icmpmgr4.cpp:239-257 | a change of one word of a verifying packet goes unnoticed only between the two zeros |
| Checksum.SendTo | test/INNOLIB/src/icmpmgr4.cpp:328-347 | the datagram sent is the echo request, byte by byte, with its RFC checksum, and it verifies |
| Probing.RunConsistent | test/INNOLIB/src/icmpmgr4.cpp:46-125 | in every run of Ping: answers counted are targets answered, the sequence number is the sum of all tries mod 65536, tries are probes sent and at most the limit, no target is credited twice or probed after it answered |
| Probing.StepConsistent | test/INNOLIB/src/icmpmgr4.cpp:73-122 | every turn keeps that invariant |
| Probing.RunDistinct | test/INNOLIB/src/icmpmgr4.cpp:46-134 | on a fresh manager with at most 255 tries the non-zero sequence numbers in the table are pairwise different |
| Probing.HashUnique | test/INNOLIB/src/icmpmgr4.cpp:127-134 | then the lookup of a non-zero sequence number finds the one target that has it |
| Probing.CursorIs | test/INNOLIB/src/icmpmgr4.cpp:101-119 | after any run the cursor stands at the number of writable turns modulo the number of targets |
| Probing.WritableTurn | test/INNOLIB/src/icmpmgr4.cpp:101-113 | a writable turn of any run probes the target at the cursor, and no other, exactly if it has not answered, has tries left and was last sent to a second ago or more; what it books |
| Probing.ReplyTurn | test/INNOLIB/src/icmpmgr4.cpp:85-100 | a datagram credits the first target with its address and number exactly if it is long enough, ours and not answered yet |
| Probing.StrayTurn | test/INNOLIB/src/icmpmgr4.cpp:85-100 | a datagram without such a target changes nothing |
| Probing.Sweep | test/INNOLIB/src/icmpmgr4.cpp:91-113 | as long as nothing is heard the turns probe one target after the other, each once in a round, with the numbers 1, 2, ... |
| Probing.CreditPaid | test/INNOLIB/src/icmpmgr4.cpp:46-134 | in every run, whatever numbers earlier calls left, a credited target was sent a probe with the credited number, or was never probed and the number is the one left in the table |
| Probing.CreditEarned | test/INNOLIB/src/icmpmgr4.cpp:46-134 | on a fresh manager with at most 256 targets and 255 tries a credit was preceded by a probe of that target with that number if and only if the number is not zero |
| Probing.StaleCredited | test/INNOLIB/src/icmpmgr4.cpp:53-57 | on any manager a reply with the number left in the table is credited before any probe |
| Probing.ZeroCredited | test/INNOLIB/src/icmpmgr4.cpp:85-100 | on a fresh manager a reply with sequence number zero credits a target never probed |
| RangeScan.Normalise | test/INNOLIB/src/icmpmgr4.cpp:368-387 | the range computed lies within one block of 256 |
| RangeScan.NormaliseIs | test/INNOLIB/src/icmpmgr4.cpp:368-387 | ends in order within a block give all addresses between them and no other, and their number but at most 255 to wait for; any other two ends give the first alone; none for an invalid end |
| RangeScan.SlotsDiffer | test/INNOLIB/src/icmpmgr4.cpp:424-435 | within the range no two addresses share a table slot |
| RangeScan.RunCounted | test/INNOLIB/src/icmpmgr4.cpp:357-461 | in every run of Find the count is the number of distinct in-range addresses that answered, at most the number waited for, and slots and addresses agree |
| RangeScan.StepCounted | test/INNOLIB/src/icmpmgr4.cpp:405-458 | every turn keeps that invariant |
| RangeScan.RunStopped | test/INNOLIB/src/icmpmgr4.cpp:405-405 | once enough have answered later events change nothing |
| RangeScan.FullBlock | test/INNOLIB/src/icmpmgr4.cpp:380-405 | in every run that stopped with enough answers, every address of the range has been heard if and only if the range is not a full block |
| RangeScan.RepliesStop | test/INNOLIB/src/icmpmgr4.cpp:405-433 | answers from the first addresses of the range in order are all counted, and stop the loop exactly when they are as many as waited for |
| RangeScan.FindAll | test/INNOLIB/src/icmpmgr4.cpp:357-461 | when all addresses of a range of at most 255 answer, all are counted |
| RangeScan.WritableTurn | test/INNOLIB/src/icmpmgr4.cpp:434-449 | a writable turn probes the address at the cursor exactly if it is due, and moves on round the range |
| RangeScan.ReplyTurn | test/INNOLIB/src/icmpmgr4.cpp:422-431 | a datagram counts an address of the range exactly if it is long enough, ours and the address not counted yet |
| RangeScan.Sweep | test/INNOLIB/src/icmpmgr4.cpp:404-449 | as long as nothing is heard the turns probe one address after the other, each once in a round |
| IcmpManager.IcmpMgr.constructor | test/INNOLIB/src/icmpmgr4.cpp:22-38 | a manager without targets whose sequence numbers are all zero |
| IcmpManager.IcmpMgr.Add | test/INNOLIB/src/icmpmgr4.cpp:136-146 | appends a target exactly when there is room |
| IcmpManager.IcmpMgr.Hash | test/INNOLIB/src/icmpmgr4.cpp:127-134 | the first target with this address and latest sequence number, or -1 |
| IcmpManager.IcmpMgr.PingTurn | test/INNOLIB/src/icmpmgr4.cpp:73-119 | the loop body updates the tables as one step of the state machine and sends the datagram of that step |
| IcmpManager.IcmpMgr.Ping | test/INNOLIB/src/icmpmgr4.cpp:46-125 | the tables end up as a run of the state machine over the events used, the datagrams sent are those of its history; it stops as soon as all have answered and not before |
| IcmpManager.IcmpMgr.FindTurn | test/INNOLIB/src/icmpmgr4.cpp:405-455 | the loop body updates the tables as one step and sends its probe, and the cursor stays in the range |
| IcmpManager.IcmpMgr.Find | test/INNOLIB/src/icmpmgr4.cpp:357-461 | answer count, tables and datagrams sent are those of a run over the normalised range; zero and nothing for an invalid address |
| Directive.GetDirective | test/INNOLIB/src/snprintf.cpp:64-188 | flags, amounts, size and conversion are those of the form at the start of the text; stars take arguments; never looks past the terminator |
| Directive.ReadFlags | test/INNOLIB/src/snprintf.cpp:78-103 | each flag is set exactly if it occurs, and minus cancels zero |
| Directive.ReadNumber | test/INNOLIB/src/snprintf.cpp:106-109 | all digits are taken and their decimal value returned |
| Directive.ParsePrint | test/INNOLIB/src/snprintf.cpp:64-188 | every well-formed directive, followed by anything, is parsed back to its meaning, taking exactly its text and its stars' arguments |
| Directive.ParseOnlyPrinted | test/INNOLIB/src/snprintf.cpp:64-188 | whatever is accepted is the text of a well-formed directive, of exactly the length returned |
| Directive.PrintIs | test/INNOLIB/src/snprintf.cpp:76-157 | the text of a directive, letter by letter: star, dot, h, l, ll, I64, L |
| Directive.WellFormedIs | test/INNOLIB/src/snprintf.cpp:79-175 | which flags, digits and conversion characters make a directive |
| Directive.MeaningIs | test/INNOLIB/src/snprintf.cpp:71-128 | what each flag, width and precision means, absent, written or starred |
| Conversion.WriteDigits | test/INNOLIB/src/snprintf.cpp:209-218 | the backwards loop leaves the digits at the end of the scratch buffer |
| Conversion.WritePrefix | test/INNOLIB/src/snprintf.cpp:220-247 | sign or base prefix in front of the digits, cut where the scratch buffer is full |
| Conversion.ConvertUlong | test/INNOLIB/src/snprintf.cpp:198-276 | the core, padded to its width, or its beginning where it does not fit |
| Conversion.DigitsEval | test/INNOLIB/src/snprintf.cpp:212-218 | the digits evaluate to the number, in every base |
| Conversion.DigitsLength | test/INNOLIB/src/snprintf.cpp:212-218 | as many digits as the number needs or the precision asks for |
| Conversion.LeadingZero | test/INNOLIB/src/snprintf.cpp:212-218 | a leading zero is there only because of the precision |
| Conversion.Word64 | test/INNOLIB/src/snprintf.cpp:198-204 | a 64-bit value has at most 22 digits, so the scratch buffer suffices |
| Conversion.CoreParts | test/INNOLIB/src/snprintf.cpp:209-249 | with precision at most 98 nothing is cut: prefix, then digits that evaluate to the value |
| Conversion.ReadBack | test/INNOLIB/src/snprintf.cpp:198-276 | space-padded output reads back as the value converted, over all 64 bits |
| Conversion.ZerosBeforePrefix | test/INNOLIB/src/snprintf.cpp:255-264 | a zero-padded field starts with its prefix if and only if no zero is added |
| Formatter.PutString | test/INNOLIB/src/snprintf.cpp:511-529 | text and width clipped to the space left, padded on the right side |
| Formatter.PutChar | test/INNOLIB/src/snprintf.cpp:478-496 | one character in its field |
| Formatter.PutItem | test/INNOLIB/src/snprintf.cpp:377-556 | each conversion puts its field, cut to the space left, and takes its argument |
| Formatter.Vsnprintf | test/INNOLIB/src/snprintf.cpp:334-576 | buffer, terminator and return value are those of the bounded specification; nothing outside the size is needed |
| Formatter.BoundedRefines | test/INNOLIB/src/snprintf.cpp:334-576 | the bounded formatter writes the beginning of the unbounded rendering and says whether it was the whole |
| Formatter.BoundedExact | test/INNOLIB/src/snprintf.cpp:334-576 | for every renderable format: the call leaves the buffer if and only if an integer field that starts inside is padded past the end, and writes the beginning of the unbounded rendering if and only if moreover every field that starts inside is cut cleanly |
| Formatter.OverrunOccurs | test/INNOLIB/src/snprintf.cpp:251-264 | "%9d" into five bytes leaves the buffer |
| Formatter.CutExact | test/INNOLIB/src/snprintf.cpp:470-530 | a cut field is the beginning of the whole one if and only if it fits, has no padding in front, or shows only padding characters |
| Formatter.ExactFit | test/INNOLIB/src/snprintf.cpp:570-575 | the bounded formatter reports text it wrote completely as truncated if and only if it fills the space exactly |
| Formatter.IntegerReadBack | test/INNOLIB/src/snprintf.cpp:377-465 | an integer directive's output, read in base 10, 8 or 16 as its letter says, is the number va_arg delivered, 64 bits with l, ll, I64 and 32 without |
| Formatter.IntegerText | test/INNOLIB/src/snprintf.cpp:198-276 | an integer field character by character: base 10 for d, i, u, 8 for o, 16 for x, X with letters of their case; 64 bits for l, ll, I64, else 32; sign or prefix; precision; padding |
| Formatter.StringText | test/INNOLIB/src/snprintf.cpp:499-530 | a string field: the text or "(null)" up to the precision, padded |
| Formatter.CharText | test/INNOLIB/src/snprintf.cpp:470-497 | a character field |
| Formatter.RenderText | test/INNOLIB/src/snprintf.cpp:560-563 | text without a percent sign is rendered as it stands |
| Formatter.RenderPercent | test/INNOLIB/src/snprintf.cpp:353-356 | a doubled percent sign is rendered as one |
| Formatter.RenderDirective | test/INNOLIB/src/snprintf.cpp:361-556 | a directive is rendered as its field, the rest after it with the arguments left |
| Formatter.PrintNumber | test/INNOLIB/src/snprintf.cpp:334-576 | a call with one integer directive and room for it leaves that field, terminated, in the buffer and returns its length |
| Wire.ReadExact | Packet.cpp:49-183 | a successful read returns exactly the bytes between old and new pointer |
| Wire.EncodeBytes | Packet.cpp:185-299 | every field byte by byte, the high byte of a number first |
| Wire.ReadBytes | Packet.cpp:49-183 | what every reader makes of the bytes at the pointer, and when it fails |
| Wire.ReadFailed | Packet.cpp:49-183 | a failed read advances by 0, 2 or 4 bytes |
| Wire.PointerMonotone | Packet.cpp:49-183 | over any reads of any payload the pointer stays inside and never moves back |
| Wire.ReadBack | Packet.cpp:49-299 | any one written field is read back, whatever surrounds it |
| Wire.ReadAllBack | Packet.cpp:49-307 | any list of fields is read back by the schema it was written with |
| Wire.CanonExact | Packet.cpp:49-116 | a number comes back as itself if and only if its reader can return it |
| Wire.ShortStringExact | Packet.cpp:283-299 | a short string comes back if and only if its length fits two bytes |
| Wire.EndOfData | Packet.cpp:301-307 | the end is reached exactly when only empty blocks remain |
| Transport.HeaderBack | Packet.cpp:309-345 | the receiver recovers category, command and length from the sender's header |
| Transport.FrameBytes | Packet.cpp:466-498 | a frame byte by byte: two 0xFF, version 1, the whole length with its high byte first, category, command, 0, payload |
| Transport.ReceiveBytes | Packet.cpp:309-375 | which streams a receive accepts, byte by byte, and what it takes from them |
| Transport.DeliversExact | Packet.cpp:500-527 | a schedule delivers n bytes if and only if some beginning of it never stalls and moves as many |
| Transport.ReceiveFrame | Packet.cpp:309-375 | a frame is received, unchanged and nothing beyond it, if and only if its header comes in one read and no payload read is empty |
| Transport.ReceiveStream | Packet.cpp:309-375 | back-to-back frames are recovered in order if and only if each is brought in |
| Transport.SelectDiffers | Packet.cpp:377-464 | the two receivers differ exactly on frames without the magic that would otherwise be accepted |
| Packet.CPacket.CheckDataBuffer | Packet.cpp:546-567 | room as asked, contents kept, capacity a doubled 2048 below twice the demand, copying paid for by the capacity, no 32-bit overflow |
| Packet.CPacket.WriteTinyInt | Packet.cpp:185-197 | appends the encoding of one byte |
| Packet.CPacket.WriteShortInt | Packet.cpp:199-212 | appends v modulo 65536 in two bytes, the high one first |
| Packet.CPacket.WriteInt | Packet.cpp:214-226 | appends the low 32 bits in four bytes, the high one first |
| Packet.CPacket.WriteBigInt | Packet.cpp:228-250 | appends the low 64 bits in eight bytes, the high one first |
| Packet.CPacket.WriteChar | Packet.cpp:252-263 | appends the bytes as they are |
| Packet.CPacket.WriteString | Packet.cpp:265-281 | appends the length in four bytes, the high one first, and the text |
| Packet.CPacket.WriteShortString | Packet.cpp:283-299 | appends the length modulo 65536 in two bytes, the high one first, and the text |
| Packet.CPacket.CheckDataExists | Packet.cpp:534-544 | whether that many bytes are left |
| Packet.CPacket.IsEOD | Packet.cpp:301-307 | true exactly at the end of the payload |
| Packet.CPacket.ReadTinyInt | Packet.cpp:49-65 | one signed byte |
| Packet.CPacket.ReadShortInt | Packet.cpp:67-83 | 256 times the first byte plus the second |
| Packet.CPacket.ReadInt | Packet.cpp:85-98 | four bytes, the high one first, as a signed number |
| Packet.CPacket.ReadBigInt | Packet.cpp:100-116 | eight bytes, the high one first, as a signed number; fails after four if the second half is missing |
| Packet.CPacket.ReadChar | Packet.cpp:118-131 | a block of the size asked for |
| Packet.CPacket.ReadShortString | Packet.cpp:133-157 | text after a two-byte length, the high byte first, refused if longer than the maximum |
| Packet.CPacket.ReadString | Packet.cpp:159-183 | text after a four-byte length, the high byte first, refused if negative or longer than the maximum |
| Packet.CPacket.SendPacket | Packet.cpp:466-532 | what has gone out is always a beginning of the frame, and all of it, as spelled out byte by byte, if and only if the call succeeds; exactly when it succeeds |
| Packet.CPacket.ReceivePacket | Packet.cpp:309-375 | receives what stands at the front of the stream, byte by byte, under any partial reads, and takes no more |
| Packet.CPacket.ReceivePacketSelect | Packet.cpp:377-464 | the same on a ready socket without stopping at the magic; false on timeout and error |
| Packet.SendFields | Packet.cpp:185-299 | fields written and sent go out as the frame of their encoding |
| Packet.ReceiveFields | Packet.cpp:49-183 | a received packet read by a schema to its end |
| Packet.RoundTrip | Packet.cpp:49-532 | fields written, sent and received in pieces and read with the same schema arrive unchanged, if and only if both transports deliver |
| Session.Net.ConnectToServer | main_alive.cpp:10-52 | opens a descriptor and closes it again when the connection is refused |
| Session.Net.ConnectLoop | main_alive.cpp:121-142 | the loop makes the connection and the descriptor operations of the specification, over at most 100 attempts |
| Session.Net.Report | main_alive.cpp:353-430 | true exactly when one of the first 99 attempts gave a connection, the request went out whole and the reply is four bytes other than ERR_FAILED; the ledger on every exit |
| Session.AliveReport | main_alive.cpp:353-430 | the alive command: command 4 with name and identifier, byte by byte, under that condition |
| Session.HeartbeatReport | main_alive.cpp:226-351 | the heartbeat command: command 3 with its seven fields in order, byte by byte |
| Session.MetadataReport | main_alive.cpp:119-224 | the metadata command: command 6 with identifier, address and health, byte by byte |
| Session.Net.RefreshInfo | main_alive.cpp:432-466 | succeeds exactly when connected, and closes what it opened |
| Session.DialEntered | main_alive.cpp:353-378 | if socket never returns 0, the exchange is entered if and only if one of the first 99 attempts connects, and with the first that does |
| Session.LedgerBalance | main_alive.cpp:10-57 | every descriptor but 0 is closed as often as opened, on every exit; the exact balance of descriptor 0 |
| Session.LedgerSquare | main_alive.cpp:353-378 | if socket never returns 0, all descriptors balance if and only if some attempt connects |
| Session.ZeroLeaks | main_alive.cpp:353-378 | a connection on descriptor 0 is never closed |
| Session.ReplyIsInt | main_alive.cpp:404-418 | reading one int and finding the end of data is having exactly four bytes |
| Session.ReplyIs | main_alive.cpp:404-424 | a good reply byte by byte: a frame of 14 bytes whose payload is not 0, 0, 0, 1 |
| Session.SucceedsIs | main_alive.cpp:353-430 | a reporting command returns TRUE if and only if the first connection among the first 99 attempts takes the whole frame and answers well |
| Scheduler.Run | main_alive.cpp:89-114 | after n ticks the counters are n mod 3601 and n mod 61, and the calls are those of the specification |
| Scheduler.Turn | main_alive.cpp:92-111 | one tick: its calls in order, and whose result is remembered |
| Scheduler.TickLaw | main_alive.cpp:62-111 | tick by tick: nothing called and FALSE before the first; then which calls in which order, and whose result is remembered |
| Scheduler.AliveIssued | main_alive.cpp:95-95 | n ticks issue n alive reports |
| Scheduler.MetadataIssued | main_alive.cpp:105-111 | n ticks issue n / 61 metadata reports |
| Scheduler.HeartbeatsIssued | main_alive.cpp:92-103 | n ticks issue n / 3601 heartbeats and one for each tick that starts with FALSE |
| Scheduler.Coincide | main_alive.cpp:97-111 | both periodic actions fall on the same tick exactly at multiples of 219661 |

## Left out

- PathSearch.FindCommandInPath: only names without a slash, because the other branch copies one path; console output is not modelled.
- Formatter.Vsnprintf: defined only for calls that stay inside the buffer (BoundedExact says which); floating point and `%n` make the outcome undefined in the model, and so do a negative width given by a star, an argument of the wrong kind and a padding of negative length, which needs more than 100 digits; sizes above the range of int are not modelled.
- Conversion.ConvertUlong: defined only where the padding stays inside the space left and has no negative length.
- Directive.ReadNumber: widths and precisions are unbounded, because overflow of int in the digit loop is undefined in C.
- Conversion.ReadBack: precision up to 98, because beyond it the 100-byte scratch buffer cuts the prefix or the digits; ConvertUlong itself covers every precision.
- PathMeaning.CleanIdempotent: for relative paths this and the other laws about the text of the result (CleanNormal, PairKept) are stated for working directories of names only, as getcwd gives them.
- Which.Search: the found file name must fit the static buffer of path_clean_up, which the source does not check; the options to skip or show tildes and dots, which are always off, are not modelled.
- Packet.CPacket.ReceivePacket: what a failed receive leaves in the object is not stated (the source may leave a negative length), nor that receiving again leaks the old buffer.
- Transport.HeaderBack: a length word of 0x80000000 to 0x80000009, whose subtraction of 10 overflows int in C, is taken as negative and refused.
- Session.HeartbeatReport: the list of client addresses from getifaddrs is a parameter, and the fixed character buffers it is built in are not modelled.
- Session.MetadataReport: the two HTTP requests are parameters.
- IcmpManager.IcmpMgr.Find: addresses are given as numbers, not as dotted text.
- Trace, DNS lookup, the single-address Ping, round-trip times and receive time stamps of the ICMP manager.
- C strings are the characters before the terminator; memory is never exhausted and freeing it is not modelled.
- Some loop bodies of the source are methods of their own here (TakeTurn, PingTurn, FindTurn, ReadText, ReadMore, SendFrame, Grow, ConnectTurn, Turn); PrintNumber is a call of Vsnprintf and not in the source, and the four copies of the connect loop are one.
- JSON, REST and HTTP wrappers, rcscript, tcpsock, thread, mutex and condition wrappers, PerfInfo, configuration, logging, and the copies of files under bak/ and test/.
