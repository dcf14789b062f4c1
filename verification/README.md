# Verified model of the virtual diagnostic server

The repository is a UDS diagnostic server (ISO 14229-1): a dispatcher and six
services, each with a setup, a call and a pack function, that share a session
variable, a memory file and a table of data identifiers read from configuration
text. This project models the dispatcher, the six services, the file access, the
identifier table and the configuration text in Dafny and proves what they do over
single requests and over whole runs.

## How it is built

There are two layers.

* `Machine.dfy` is a pure machine. Its state is a session and a finite map from
  address to byte; its steps are requests paired with the outcome of the file
  access they cause (complete, failed, or stopped after some bytes). All theorems
  about runs are about this machine: `Provenance.dfy`, `Faults.dfy`, `Algebra.dfy`,
  `Requests.dfy`, `Answers.dfy`. `Exchanges.dfy` says what each service answers and
  changes for every request, state and outcome, in the bytes of requests and replies
  and without naming the machine's decoder or constants.
* The imperative layer follows the C files: 4096-byte message buffers, byte loops,
  a memory file updated in place, a 65536-slot index rebuilt in place, data buffers
  that are allocated and released. `Utils.dfy`, `SessionHandlers.dfy`,
  `AddressHandlers.dfy`, `DidHandlers.dfy`, `Uds.dfy` and `UdsServer.dfy` prove
  that it refines the machine, from one handler up to the whole process.

The configuration pipeline has the same two layers: `CText.dfy`, `ConfigText.dfy` and
`PrintedText.dfy` say what text means and how lists and numbers are read and printed;
`StrTok.dfy` and `Configuration.dfy` are the in-place tokeniser and the configuration
object.

C's unsigned arithmetic is written out: a 32-bit sum is `% 2^32`, a shift is a
multiplication modulo `2^32`, and `(x << 8) | b == x * 256 + b` is proved from a
bit-by-bit definition of `|`.

## Choices

Where the text of the C code leaves the behaviour undefined or plainly differs
from its siblings, the model takes the reading below.

* `uds_rdba_pack` returns after a negative response, as the other pack functions
  do (uds_handlers/src/rdba_handler.c:93-98). With that reading a failed read by
  address keeps its data buffer: only the positive path releases it. The exact
  number of such buffers is proved, see `StrandedCountsReads`.
* The result of `read_memory` is tested as the signed number it is, so a failed
  read is answered with code 0x22 (uds_handlers/src/rdba_handler.c:81-85,
  uds_handlers/src/rdbi_handler.c:83-90). A read or write of zero bytes fails.
* `uds_wrbi_setup` tests the range of the identifier, as `uds_rdbi_setup` does;
  the text tests parameters it has not filled yet
  (uds_handlers/src/wrbi_handler.c:54-62).
* The data pointer `uds_wrba_setup` returns is taken to point into the request; the
  text points into a by-value copy (uds_handlers/src/wrba_handler.c:76).
* The request buffer is zero past the request, so a write by identifier that is too
  short writes zero padding.
* The high nibble of the format byte is the address width, as in the code; the
  standard has it the other way round.
* The initial session is 0, and an unknown service is not answered at all.
* The C code does not bound the sizes it copies. The imperative layer asks for
  `Fits`, in the state reached and with the outcome given: no more than 4096 bytes are
  read into the buffer of a read by address, a positive reply fits its message, an
  identifier that is written has at most 4093 bytes, and the bytes of a written slice
  that are transferred lie in the request buffer. `BoundedRequestFits` gives bounds on
  the request alone that suffice. The pure machine and all its theorems cover every
  request; there a slice reaching past the request reads as zeros.
* Writing past the end of the file leaves a hole that reads as zeros, as a seek
  followed by a write does.
* `atoi` is taken as `strtol` cut to the field's width, and `long` has 64 bits.

## Results that are not what one might expect

* The range test is not the window test: it accepts a sum that wraps
  (`RangeTestDiffers`), and an accepted write stays in the window if and only if
  its sum does not wrap (`AcceptedWriteInWindowIff`, with a concrete request in
  `WrappedWriteLeavesWindow`).
* An accepted write's data slice lies inside the request if and only if its size sum
  does not wrap (`SliceInRequestIff`, input in `WrappedSizeIsAccepted`).
* The file is created with end - start bytes while requests use absolute addresses. A
  started server answers every clean read in its window with data if and only if the
  window starts at 0, or is empty, or the file was already long enough
  (`StartedServerReadsIff`, input in `LastByteUnanswered`).
* Data buffers are conserved over a run if and only if it has no accepted read by
  address that is empty, transferred short, or past the end of the file
  (`BuffersConservedIff`, input in `EmptyReadStrands`). This belongs to the chosen
  reading of `uds_rdba_pack`: its C text has no return after the negative response and
  reaches `free` on every path (uds_handlers/src/rdba_handler.c:93-106).
* The name table has eight characters a name and no room for the terminator of a name
  of eight or more, so printing runs on into the next slot. A printed list is read
  back unchanged if and only if every name so printed still spells its identifier
  (`ListRoundTripIff`, input in `RunOnNameIsMisread`); seven characters are always
  short enough (`ListRoundTrip`).

## Model

| member | source | states |
|---|---|---|
| UdsServer.Serve | uds_server/src/uds_server.c:112-124 | over any list of requests and file outcomes the buffer-and-array server sends exactly the messages of the pure machine, ends in its session and memory, keeps its index correct, and holds exactly the data buffers it began with plus the counted stranded ones |
| UdsServer.Turn | uds_server/src/uds_server.c:113-121 | one turn of the loop is one step of the machine; a message is sent exactly when its encoding is nonempty |
| UdsServer.Start | uds_server/src/uds_server.c:73-127 | configuration text, initial file bytes, requests and outcomes together determine everything sent, the final file and its exact length; it serves exactly when the file could be created, and otherwise leaves the old bytes and the zeros transferred |
| UdsServer.StartedServerReadsIff | uds_server/src/uds_server.c:85-86 | a started server answers, after every run, all accepted nonempty non-wrapping fault-free reads with data if and only if the window starts at 0, or is empty, or the file already reached its end |
| UdsServer.LastByteUnanswered | uds_handlers/src/utils.c:75-87 | the input that fails otherwise: reading the window's last byte from a shorter file is accepted and answered 7F 23 22 |
| UdsServer.InitialLength | uds_server/src/ecu_config.c:36-56 | the created file is one stretch from 0 whose length is the larger of its old length and end - start in 32 bits |
| UdsServer.InitialContent | uds_server/src/ecu_config.c:33-58 | a started server is in session 0 and its file holds every old byte where it was, zeros from there to end - start in 32 bits, and nothing more |
| UdsServer.StartedReadReturns | uds_handlers/src/rdba_handler.c:80-102 | from start-up, over any run, each byte of a positive read is the byte of the latest write covering its address, else the byte the file held before, else zero |
| UdsServer.ConfigAfterLine | uds_server/src/ecu_config.c:115-155 | one more line sets the start address for start_addr and the end address for end_addr of the memory section, adds the entry of an identifier line with three or more fields while there are fewer than 50, and changes nothing else |
| Ecu.CreatesIff | uds_server/src/ecu_config.c:33-62 | creation succeeds exactly when the file opens and has the size or receives all that is missing |
| UdsServer.StrandsIffAnswered | uds_handlers/src/rdba_handler.c:67-107 | a request leaves its data buffer allocated if and only if its answer is 7F 23 22 |
| UdsServer.StrandedCountsReplies | uds_server/src/uds.c:114-121 | the buffers a run leaves allocated number exactly its replies 7F 23 22 |
| UdsServer.StrandedCountsReads | uds_handlers/src/rdba_handler.c:67-107 | on a file of any length they number exactly the accepted reads by address that are empty, transferred short, or end past the file, counted from requests and outcomes alone |
| UdsServer.BuffersConservedIff | uds_handlers/src/rdba_handler.c:67-107 | a run ends with the data buffers it began with if and only if it has no such read |
| UdsServer.EmptyReadStrands | uds_handlers/src/utils.c:64-68 | the input that breaks conservation: a read of zero bytes keeps its buffer in every state and under every outcome |
| Uds.HandleMsg | uds_server/src/uds.c:67-159 | dispatch, setup, call and pack of any request refine one machine step; every buffer but a stranded one is released exactly once; an unknown service fills the buffer but sends nothing |
| Uds.HandleReadAddress | uds_server/src/uds.c:114-121 | the read-by-address path refines the machine and strands a buffer exactly when an accepted read fails |
| Uds.HandleWriteDid | uds_server/src/uds.c:141-149 | the write-by-identifier path refines the machine, releases the buffer its setup always allocates, and leaves the index correct |
| Exchanges.SessionControlAnswer | uds_handlers/src/dsc_handler.c:11-93 | in every state: code 0x13 for a length other than two, 0x12 for a type other than 1 to 4, and otherwise the type becomes the session and the six bytes with its timings are sent |
| Exchanges.TesterPresentAnswer | uds_handlers/src/tp_handler.c:7-53 | in every configuration, state and outcome 3E 00 is answered 7E 00, 3E 80 not at all, a length other than two 7F 3E 13 and all others 7F 3E 12; nothing changes |
| Exchanges.UnknownAnswer | uds_server/src/uds.c:90-155 | empty and unknown requests change nothing and are not answered |
| Exchanges.ReadAddressAnswer | uds_handlers/src/rdba_handler.c:11-107 | for every request, all field widths and trailing bytes included: the exact refusal, or 63 and the addressed bytes exactly when the range is allowed, nonempty, backed and transferred; nothing changes |
| Exchanges.WriteAddressAnswer | uds_handlers/src/wrba_handler.c:13-117 | for every request: the exact refusal with nothing changed, or the transferred bytes of the data behind the fields in memory at the address they carry, and 7D exactly for a complete nonempty transfer |
| Exchanges.ReadDidAnswer | uds_handlers/src/rdbi_handler.c:13-121 | for every request: 62, the identifier and the bytes at the address and of the size of its last entry, exactly when that range is allowed, nonempty, backed and transferred; the exact refusal otherwise; nothing changes |
| Exchanges.WriteDidAnswer | uds_handlers/src/wrbi_handler.c:13-109 | for every request: the exact refusal with nothing changed, or, at any access level, the data padded or cut to the last entry's size is written at its address and acknowledged with the identifier exactly for a complete nonempty transfer |
| Exchanges.DidExchange | uds_handlers/src/wrbi_handler.c:44-64 | a configured identifier with an allowed nonempty range can always be written in session 3, answered 6E and the identifier, and read where it is backed |
| SessionHandlers.DscSetup | uds_handlers/src/dsc_handler.c:11-37 | accepts exactly the two-byte requests for sessions 1 to 4, with codes 0x13 and 0x12 otherwise |
| SessionHandlers.DscPack | uds_handlers/src/dsc_handler.c:74-93 | writes the encoding of the session reply or of the negative response |
| SessionHandlers.TpSetup | uds_handlers/src/tp_handler.c:7-26 | accepts exactly sub-functions 0x00 and 0x80 in two-byte requests |
| SessionHandlers.TpPack | uds_handlers/src/tp_handler.c:37-53 | leaves the response empty for the suppressing sub-function and writes 7E 00 otherwise |
| AddressHandlers.DecodeField | uds_handlers/src/wrba_handler.c:51-61 | the shift-and-or loop computes the big-endian value of a field of up to four bytes without losing a bit |
| AddressHandlers.RdbaSetup | uds_handlers/src/rdba_handler.c:11-65 | gives the machine's verdict, address and size for every request |
| AddressHandlers.Rdba | uds_handlers/src/rdba_handler.c:67-88 | succeeds exactly when the range is nonempty, backed and transferred in full, with its bytes in the new buffer |
| AddressHandlers.RdbaPack | uds_handlers/src/rdba_handler.c:90-107 | writes the encoding of the data or the negative response and releases the buffer on the positive path |
| AddressHandlers.WrbaSetup | uds_handlers/src/wrba_handler.c:13-79 | gives the machine's verdict for every request, with the address, size and start of the data slice it accepts |
| AddressHandlers.Wrba | uds_handlers/src/wrba_handler.c:81-101 | the bytes of the request's data that land under the given outcome are written at the address; success is reported for a nonempty complete write only |
| DidHandlers.RdbiSetup | uds_handlers/src/rdbi_handler.c:13-62 | gives the machine's verdict through the rebuilt index |
| DidHandlers.Rdbi | uds_handlers/src/rdbi_handler.c:64-96 | returns a live buffer with the range's bytes on success and has released it on failure |
| DidHandlers.RdbiPack | uds_handlers/src/rdbi_handler.c:98-121 | writes the encoding of identifier and data or the negative response and releases the buffer on the positive path |
| DidHandlers.WrbiSetup | uds_handlers/src/wrbi_handler.c:13-65 | gives the machine's verdict; the allocated copy holds the request's data zero-padded or cut to the identifier's size |
| Utils.InitMapping | uds_handlers/src/did_map.c:7-35 | whatever the table held, every one of its 65536 slots becomes what a backward scan of the list finds |
| Config.LookupIsLastDuplicate | uds_handlers/src/did_map.c:13-35 | the scan is empty exactly for identifiers without entry and otherwise has the address, the size and the level of the last entry with the identifier |
| Utils.WriteMemory | uds_handlers/src/utils.c:17-56 | the new file content and the return value for every outcome, including partial writes and holes; only bytes transferred need lie in the buffer |
| Utils.ReadMemory | uds_handlers/src/utils.c:58-96 | the return value for every outcome and the bytes read on success |
| Utils.CheckMemrange | uds_handlers/src/utils.c:11-15 | the unbounded window test for every sum below 2^32, and the test of the wrapped end for every other |
| Ecu.MemFile.Create | uds_server/src/ecu_config.c:31-63 | appends exactly the zeros that are transferred to a short file, under every outcome, and fails exactly on a failed open or a short write |
| Config.RangeTestWithoutWrap | uds_handlers/src/utils.c:11-15 | without wrap the 32-bit test is the unbounded window test |
| Config.RangeTestDiffers | uds_handlers/src/utils.c:11-15 | the two tests differ on exactly the sums that wrap to a value up to the end address |
| Requests.NarrowRequestsDoNotWrap | uds_handlers/src/wrba_handler.c:51-66 | fields of at most three bytes cannot wrap, so the test is the window test |
| Requests.LowDidsDoNotWrap | uds_handlers/src/rdbi_handler.c:51-55 | identifiers at addresses up to 2^32 - 65536 cannot wrap, so the test is the window test |
| Faults.AcceptedWriteInWindowIff | uds_handlers/src/wrba_handler.c:63-72 | an accepted write lies in the window if and only if its range sum does not wrap |
| Faults.WrappedWriteLeavesWindow | uds_handlers/src/wrba_handler.c:63-66 | a concrete request whose sum wraps is accepted and changes a byte outside the window |
| Faults.NegativeLeavesState | uds_handlers/src/utils.c:34-55 | under every outcome a negative response leaves session and memory alone, except that with code 0x22 a strict prefix of the data may have landed at the validated address |
| Faults.OutsideWindowUntouched | uds_handlers/src/utils.c:34-49 | under every outcome a non-wrapping request keeps every existing byte outside the window and creates at most zeros there, below the end |
| Faults.FileLength | uds_handlers/src/utils.c:34-49 | over every run and any outcomes the file is one stretch from 0 whose exact length is read off the requests |
| Faults.LengthBounds | uds_handlers/src/utils.c:34-49 | that length never shrinks, and without wrapping writes never exceeds the larger of the initial length and the end address |
| Faults.ReadsComplete | uds_handlers/src/utils.c:80-87 | once the file reaches the end address every accepted nonempty fault-free non-wrapping read returns data, after every run |
| Faults.ReadSucceedsIff | uds_handlers/src/utils.c:80-87 | for a file of any length an accepted read succeeds exactly when nonempty, fully transferred and ending within the file |
| Provenance.SessionIsLastAsked | uds_handlers/src/dsc_handler.c:25-50 | the session after any run is the value of the last session request, read off the request bytes alone |
| Provenance.LastSessionWitness | uds_handlers/src/dsc_handler.c:25-50 | that value belongs to a request no other session request follows, or is the initial one; it is the initial value or 1 to 4 |
| Provenance.MemoryIsLastPut | uds_handlers/src/utils.c:34-49 | the value at every address after any run and any outcomes: what its latest covering write left, else its initial value, else zero exactly below the end of some landed write, else no byte |
| Provenance.DomainAfter | uds_handlers/src/utils.c:34-49 | the bytes that exist after a run are the initial ones and those below the end of a landed write |
| Provenance.LastPutWitness | uds_server/src/uds.c:132-149 | the latest covering write is a request of the run that no later one covering the address follows |
| Provenance.ReadReturnsLatestWrite | uds_handlers/src/rdba_handler.c:80-102 | each byte of a positive read reply is the byte of the latest write covering its address, else the initial byte, else zero |
| Provenance.ChangedByteHasWriter | uds_handlers/src/wrba_handler.c:34-36 | if a byte differs between two points of a run, an accepted write between them, made in session 3, covers it (or created it) |
| Provenance.WriterFollowsExtendedSession | uds_handlers/src/wrbi_handler.c:34-36 | from session 0, such a write follows a request for session 3 with no other accepted session request between |
| Algebra.ErasureUnobservable | uds_server/src/uds.c:94-156 | deleting all TesterPresent, read, unknown and rejected requests changes neither the final state nor the remaining replies, under any outcomes |
| Algebra.InertIff | uds_server/src/uds.c:94-156 | the deleted requests are exactly those that neither enter a session nor perform a write |
| Algebra.ErasureIsComplete | uds_server/src/uds.c:94-156 | what remains holds no such request, judged by the session it reaches itself |
| Algebra.DisjointWritesCommute | uds_handlers/src/utils.c:34-49 | accepted writes whose landed bytes do not overlap commute, with the same replies, under any outcomes and wherever the file ends |
| Algebra.CoveredWriteUnobservable | uds_handlers/src/utils.c:34-49 | a write whose landed bytes a later write covers leaves no trace in the state or in the later reply |
| Algebra.RepeatedWriteIdempotent | uds_handlers/src/wrba_handler.c:92-100 | repeating a write changes nothing and gives the same reply |
| Algebra.ReadServicesAgree | uds_handlers/src/rdbi_handler.c:57-59 | in every state and under every outcome both read services return the same data for the same range |
| Algebra.WriteDidReadBack | uds_handlers/src/wrbi_handler.c:60-63 | after a positive write by identifier both read services return its data, padded or cut to the identifier's size |
| Algebra.WriteAddressReadBack | uds_handlers/src/wrba_handler.c:92-100 | after a positive write by address a read of the range returns its data |
| Requests.WriteRequestRoundTrip | uds_handlers/src/wrba_handler.c:38-78 | for all field widths, addresses and data, an encoded write with its range allowed decodes to exactly them in session 3 |
| Requests.WriteDidRequestRoundTrip | uds_handlers/src/wrbi_handler.c:44-64 | in session 3, for the last entry with an identifier and any data, an encoded write by identifier decodes to the entry's address and the data padded or cut to its size, whatever its access level |
| Requests.AcceptedWriteIsEncoding | uds_handlers/src/wrba_handler.c:38-78 | conversely every accepted write with non-wrapping size sum is such an encoding followed by ignored bytes |
| Requests.AcceptedWriteIsReadable | uds_handlers/src/rdba_handler.c:40-64 | every accepted write is, with the service byte exchanged, an accepted read of the same address and size |
| Requests.TrailingBytesIgnored | uds_handlers/src/wrba_handler.c:69-78 | the slice lies inside the message, and bytes after it change neither verdict nor parameters |
| Requests.SliceInRequestIff | uds_handlers/src/wrba_handler.c:69-76 | the slice of an accepted write lies inside the request if and only if its size sum does not wrap |
| Requests.WrappedSizeIsAccepted | uds_handlers/src/wrba_handler.c:69-76 | the input that fails: a ten-byte request without data is accepted as a write of 2^32 - 10 bytes |
| Requests.BoundedRequestFits | uds_server/inc/can.h:17 | bounds on the sizes in a request that keep its copies inside the buffers in every state and under every outcome |
| Requests.SizeSumWraps | uds_handlers/src/wrba_handler.c:69-72 | the size sum can wrap only for a four-byte size field within ten of 2^32 |
| Answers.InterpretInvertsEncode | uds_handlers/src/rdbi_handler.c:109-114 | a tester's decoder recovers service, outcome, code, identifier, timings and data from every sent reply |
| Answers.SilentIff | uds_server/src/uds.c:94-156 | nothing is sent for exactly the empty, unknown and suppressed requests |
| Answers.AnswerOpening | uds_handlers/src/dsc_handler.c:52-92 | every other request is answered by 7F, its service and a nonzero code, or by a message opening with its service plus 0x40, never 7F; accepted session requests get their exact six bytes and identifier writes their own identifier |
| Answers.FittingReply | uds_server/inc/can.h:17 | requests whose copies stay inside the buffers get replies that fit a message |
| Bytes.ShiftOr | uds_handlers/src/wrba_handler.c:54-54 | below 2^24, shifting by eight and or-ing a byte is multiplying by 256 and adding it |
| Bytes.BigEndianInverse | uds_handlers/src/wrba_handler.c:51-61 | decoding the encoding of a number that fits a field gives the number back |
| StrTok.NextToken | uds_server/src/ecu_config.c:131-136 | one strtok call cuts off exactly the first field of the text left to scan and leaves the others and all other characters alone |
| StrTok.Trim | uds_server/src/ecu_config.c:70-85 | trims in place to the stripped text, writing only its terminator |
| StrTok.Tokens | uds_server/src/ecu_config.c:129-138 | interleaved strtok and trim on one buffer yield, read at the end, the first three stripped fields of the value |
| CText.FieldsAreNonEmptySplit | uds_server/src/ecu_config.c:131-136 | the fields strtok walks through are the plain split on colons without its empty parts |
| CText.JoinSplit | uds_server/src/ecu_config.c:131-136 | the plain split loses nothing and its parts contain no colon |
| CText.StripMeaning | uds_server/src/ecu_config.c:70-85 | stripping removes white space from both ends, all of it and nothing else |
| CText.IsSpaceIff | uds_server/src/ecu_config.c:74-81 | white space is exactly the six characters of isspace |
| Configuration.EcuConfig.Handler | uds_server/src/ecu_config.c:87-168 | one line extends the list as the pure reading says, records and 400-character name table included, and sets the window's ends |
| Configuration.EcuConfig.Append | uds_server/src/ecu_config.c:139-147 | storing an entry keeps every earlier record and name and cuts or pads the new name to its slot |
| Configuration.CopyName | uds_server/src/ecu_config.c:141-142 | strncpy writes exactly one slot, terminated only for a name of at most seven characters |
| Configuration.ParseConfig | uds_server/src/ecu_config.c:170-183 | any lines give the list and window of their pure reading |
| Configuration.EcuConfig.PrintDids | uds_server/src/ecu_config.c:200-206 | the text printed is one line per list entry, in order, each name read up to the first terminator from its slot on; reading that text back gives the list exactly when the printed names spell its identifiers |
| ConfigText.ListIsFirstFifty | uds_server/src/ecu_config.c:127-155 | any lines leave the first 50 entries of the section with at least three fields, in order |
| ConfigText.EntriesAreStable | uds_server/src/ecu_config.c:127-155 | later lines never alter an entry already in the list |
| ConfigText.EntryFields | uds_server/src/ecu_config.c:139-147 | the first part between colons is the address, the second the size in 16 bits, the third the level in 8; the name gives the identifier in 16 bits and is kept to eight characters |
| ConfigText.SameIgnoringCaseIff | uds_server/src/ecu_config.c:93-127 | section and key names match exactly when they have one length and agree up to the case of letters |
| PrintedText.PrintedLineForm | uds_server/src/ecu_config.c:202-205 | every printed line is the printed name, " = 0x", the address in hexadecimal, the size and the level in decimal, and a line end |
| PrintedText.PrintedNameRunsOn | uds_server/src/ecu_config.c:202-203 | a name of at most seven characters is printed as it is; one that fills its slot is followed by what reading from the next slot yields |
| PrintedText.ListRoundTripIff | uds_server/src/ecu_config.c:200-206 | reading the printed lines of any storable list rebuilds it if and only if every printed name, with what it runs on into, still spells its identifier |
| PrintedText.TextRoundTripIff | uds_server/src/ecu_config.c:200-206 | the same for the whole printed text, split at its line ends, when no printed name has one |
| PrintedText.ListRoundTrip | uds_server/src/ecu_config.c:200-206 | reading the printed lines of any list of at most 50 well-named entries rebuilds exactly that list |
| PrintedText.RunOnNameIsMisread | uds_server/src/ecu_config.c:141-142 | the input that fails: an eight-character name before a used slot is printed with the next name and read back as another identifier |
| PrintedText.ReadingIsStableIff | uds_server/src/ecu_config.c:200-206 | printing and re-reading a list read from any lines changes nothing if and only if every printed name still spells the identifier its line's name spelled |
| CText.HexRoundTrip | uds_server/src/ecu_config.c:65-68 | reading a printed 32-bit address gives it back |
| CText.DecimalRoundTrip | uds_server/src/ecu_config.c:144-146 | reading a printed decimal field gives it back |
| CText.HexForm | uds_server/src/ecu_config.c:65-68 | white space, a sign, an optional 0x or 0X and hexadecimal digits are read as the number they stand for by place, negated for a minus, in 32 bits; as all ones when it exceeds 64 bits; the text after them is ignored |
| CText.DecimalForm | uds_server/src/ecu_config.c:144-147 | white space, a sign and decimal digits are read as the number they stand for by place, held at the ends of a 64-bit long |
| CText.DigitValueIsPlace | uds_server/src/ecu_config.c:65-68 | a digit's value is its place in the alphabet of either case |
| CText.PrintHex4IsCanonical | uds_server/src/ecu_config.c:202-203 | %04X prints upper-case digits that stand for the number, at least four, and more only without leading zeros |
| CText.PrintIsCanonical | uds_server/src/ecu_config.c:202-205 | %d and %X print upper-case digits that stand for the number, without leading zeros |

## Left out

- CAN sockets, select and hex dumps: a request is a list of at most 4096 bytes and an empty reply is not sent.
- Loading handlers from a shared library, signals and process set-up: the handlers are called directly.
- The INI parser and the file it reads: lines arrive as (section, name, value) triples. Printed lines are cut at the last equals sign; the parser's comments and its treatment of white space in names are not modelled.
- CAN, UDS, path and logging settings, and log output: plain copies of strings.
- File descriptors and errno: the file is a byte sequence and each access has an explicit outcome; closing is not modelled.
- Null-pointer guards and failing allocations: the objects always exist.
- Release of the value copy in `handler`: only the handlers' data buffers are tracked.
- Security levels, session timeout and enforcement of the P2 times: the code does not implement them.
- Reading several identifiers in one request: the code reads one.
- Configuration.EcuConfig.PrintDids: what memory holds after the name table is a parameter, since a full last slot is printed past it.
- Uds.HandleMsg: requests outside `Fits` overrun a buffer in C and are not modelled for the imperative layer.
