# uvvm-cosim core in Dafny

uvvm-cosim connects a VHDL simulation that uses UVVM verification components
(VVCs) to software outside the simulator. The simulator calls foreign (VHPI)
functions: they report which VVCs exist and move bytes through queues. A
JSON-RPC server lets remote clients list the VVCs, queue bytes for
transmission and read back received bytes.

This project models the core of that system as pure functions over immutable
values:

- `CosimServer` is the registry server, `UvvmCosimServer`. It keeps a map
  from VVC identity (type, channel, instance id) to a pair of byte queues.
  The simulation side can register a VVC, test its transmit queue, pop a
  byte from it and push a received byte. The remote side can list VVCs,
  transmit bytes and receive bytes (all-or-nothing or best-effort), and
  gets an error for an unknown VVC. Each operation runs as one critical
  section in the source, so each is one atomic step from a registry to a
  new registry.
- `CosimTypes` holds the records and the `VvcCompare` ordering. `Lexical`
  is the `std::string` `<` that the ordering is built on.
- `VvcConfig`, `Tokens` and `Decimal` cover the configuration string.
  `VvcConfig` models `parse_vvc_cfg_str`, `Tokens` models `split_str` /
  `split`, and `Decimal` models `std::stoi` and `std::to_string`.
- `LegacyServer` is the older single-VVC `UVVMCosimServer`.
- `Vhpi` models the VHPI foreign functions over the global UART/AXI-Stream
  queues, `uvvm_cosim_vhpi_report_vvc_info`, and `convert_time_to_ns`.
- `ServerProperties` proves properties that span several registry
  operations: FIFO order end to end, idempotent registration, and an
  invariant every operation keeps.

Modelling decisions:

- **The registry is a Dafny map keyed by the (type, channel, id) triple.**
  `std::map` with `VvcCompare` identifies two instances exactly when
  neither is less than the other. `CosimTypes.EquivalentIffSameKey` proves
  that this holds exactly when their triples are equal, so the
  configuration never takes part in identity.
- **`GetVvcList` is a method.** It inserts every key into a list kept
  sorted by `VvcCompare`, which is the order in which a `std::map` is
  iterated.
- **Strings compare as sequences of code points.** `std::string`
  comparison uses `char_traits<char>`, which compares as `unsigned char`.
- **`std::stoi` is modelled as follows.** It skips C white space and reads
  an optional sign and at least one decimal digit. Any text after the
  digits is ignored. It fails on no digits and on values outside the 32-bit
  `int` range.
- **Bytes are a `uint8` newtype**, and `int` values put into a byte are
  reduced modulo 256.
- **`ReceiveBytes` compares its `int` length with the queue size as a
  `size_t`.** A negative length therefore acts as a huge one:
  `ServerProperties.NegativeLengthReads`.

Source behaviour worth knowing:

- **Items without a value are skipped, not fatal.** For `"a=1,bad,c=3"`
  the parser skips `bad`, because it splits at `=` into one piece rather
  than two (`uvvm_cosim_server.cpp`, lines 45-47), and goes on to give
  `{a:1, c:3}`. Only an item whose value `std::stoi` rejects (such as `b=x`,
  or a number outside the `int` range) ends the parse, keeping what was read
  before it (`VvcConfig.ParseExampleSkipsMalformed`,
  `VvcConfig.ParseExampleAbortsOnBadValue`,
  `Decimal.StoiRejectsOutOfRange`).
- **The channel is hard-coded.** `UART_VVC` gives `TX` in the transmit
  direction and `RX` in the receive direction, and every other type gives
  `NA` (`uvvm_cosim_server.cpp`, lines 95 and 163).

`uvvm_cosim_vhpi.cpp` carries its own copies of `split` and
`parse_vvc_cfg_str`, textually identical to `split_str` and
`parse_vvc_cfg_str` in `uvvm_cosim_server.cpp`. Both are modelled once, by
`Tokens.Split` and `VvcConfig.ParseCfgStr`.

## Model

| member | source | states |
|---|---|---|
| Lexical.Less | src/cpp/uvvm_cosim_types.hpp:33-36 | `std::string` `<` never holds between equal strings, and the empty string is below exactly the nonempty ones; `Lexical.LessIsLexicographic` characterises it completely |
| Lexical.LessIsLexicographic | src/cpp/uvvm_cosim_types.hpp:33-36 | the string `<` used by `VvcCompare` holds iff the left string is a proper prefix of the right or is smaller at the first position where they differ |
| Lexical.LessIrreflexive | src/cpp/uvvm_cosim_types.hpp:33-36 | no string is below itself |
| Lexical.LessAsymmetric | src/cpp/uvvm_cosim_types.hpp:33-36 | two strings are never below each other both ways |
| Lexical.LessTransitive | src/cpp/uvvm_cosim_types.hpp:33-36 | string order is transitive |
| Lexical.LessTrichotomous | src/cpp/uvvm_cosim_types.hpp:33-36 | two strings are equal or one is below the other |
| CosimTypes.VvcCompare | src/cpp/uvvm_cosim_types.hpp:32-39 | the comparator holds only between different identities, and between instances of equal type and channel it is exactly `<` on the instance ids |
| CosimTypes.VvcCompareIsLexicographic | src/cpp/uvvm_cosim_types.hpp:30-40 | the if-chain of `VvcCompare` orders by type, then channel, then instance id, and ignores the configuration |
| CosimTypes.VvcCompareIrreflexive | src/cpp/uvvm_cosim_types.hpp:25-40 | no instance is less than itself (strict ordering, as a `std::map` key requires) |
| CosimTypes.VvcCompareAsymmetric | src/cpp/uvvm_cosim_types.hpp:25-40 | the comparator never holds both ways |
| CosimTypes.VvcCompareTransitive | src/cpp/uvvm_cosim_types.hpp:25-40 | the comparator is transitive |
| CosimTypes.EquivalentIffSameKey | src/cpp/uvvm_cosim_types.hpp:28-40 | two instances are equivalent under `VvcCompare` iff their type, channel and id agree, so the configuration is never part of identity |
| CosimTypes.EquivalenceTransitive | src/cpp/uvvm_cosim_types.hpp:25-40 | equivalence under the comparator is transitive, as `std::map` requires |
| CosimTypes.VvcCompareIgnoresConfig | src/cpp/uvvm_cosim_types.hpp:28-29 | changing the configurations never changes the comparison |
| CosimTypes.VvcCompareTotalOnKeys | src/cpp/uvvm_cosim_types.hpp:30-40 | instances with different identities are always ordered one way or the other |
| CosimTypes.SortedHasDistinctKeys | src/cpp/uvvm_cosim_types.hpp:25-40 | a list strictly sorted by the comparator never repeats an identity |
| CosimTypes.PrependSorted | src/cpp/uvvm_cosim_types.hpp:30-40 | an instance below the head of a sorted list may be put in front and the list stays sorted |
| CosimTypes.InsertSorted | src/cpp/uvvm_cosim_server.cpp:185-189 | insertion into a comparator-sorted list keeps it sorted, grows it by one, and its elements are exactly the old ones plus the new one |
| Decimal.DigitChar | src/cpp/uvvm_cosim_server.cpp:231 | a digit value below ten is written as a decimal digit that reads back as that value |
| Decimal.SkipSpace | src/cpp/uvvm_cosim_server.cpp:51 | `std::stoi` starts at the first non-white-space character, after a prefix consisting only of white space |
| Decimal.DigitRun | src/cpp/uvvm_cosim_server.cpp:51 | the digits read are the longest run of decimal digits, stopping at the first non-digit |
| Decimal.Stoi | src/cpp/uvvm_cosim_server.cpp:51 | a successful `std::stoi` yields a value in the 32-bit `int` range; the value read and both failure causes are stated by `Decimal.StoiOfSignedDigits`, `Decimal.StoiRejectsNonNumeric` and `Decimal.StoiRejectsOutOfRange` |
| Decimal.ParseSigned | src/cpp/uvvm_cosim_server.cpp:51 | a successful read starts with a digit, or with a sign followed by a digit; its value is in the `int` range and is negative only after a `-` |
| Decimal.NatToString | src/cpp/uvvm_cosim_server.cpp:231 | the decimal text of a natural number is all digits, has no leading zero, and denotes that number |
| Decimal.IntToString | src/cpp/uvvm_cosim_server.cpp:231 | `std::to_string` never gives an empty text |
| Decimal.StoiSkipsLeadingSpace | src/cpp/uvvm_cosim_server.cpp:51 | leading white space never changes what `std::stoi` reads |
| Decimal.DigitRunOfDigits | src/cpp/uvvm_cosim_server.cpp:51 | a digit string followed by a non-digit is read exactly up to that non-digit |
| Decimal.ParseNonNegative | src/cpp/uvvm_cosim_server.cpp:51 | an in-range digit string followed by a non-digit reads as its value |
| Decimal.ParseNegative | src/cpp/uvvm_cosim_server.cpp:51 | a minus sign before an in-range digit string reads as the negated value |
| Decimal.StoiOfSignedDigits | src/cpp/uvvm_cosim_server.cpp:51 | an optional sign, digits and then a non-digit read as the signed value of the digits when it fits in an `int`, and fail (`out_of_range`) when it does not; `+` reads as no sign |
| Decimal.StoiRejectsOutOfRange | src/cpp/uvvm_cosim_server.cpp:51-59 | a digit string whose value is outside the `int` range fails with or without a sign, so an item such as `a=99999999999` ends the parse |
| Decimal.StoiPlusSign | src/cpp/uvvm_cosim_server.cpp:51 | an explicit `+` before the digits reads the same as no sign |
| Decimal.StoiOfUnspaced | src/cpp/uvvm_cosim_server.cpp:51 | text not starting with white space goes unchanged to the sign and digit reader |
| Decimal.StoiReadsToString | src/cpp/uvvm_cosim_server.cpp:51 | the text `std::to_string` gives for an `int`, followed by anything that is not a digit, reads back as that `int` |
| Decimal.StoiToStringRoundTrip | src/cpp/uvvm_cosim_server.cpp:51 | `std::stoi(std::to_string(n)) == n` for every 32-bit `n` |
| Decimal.StoiRejectsNonNumeric | src/cpp/uvvm_cosim_server.cpp:51 | text with no digit after optional white space and sign is rejected (the exception in the source) |
| Decimal.IntToStringAlphabet | src/cpp/uvvm_cosim_server.cpp:231 | `std::to_string` produces only digits and a leading minus sign |
| Tokens.TokenLength | src/cpp/uvvm_cosim_server.cpp:19-20 | the piece taken runs up to the first delimiter, or to the end |
| Tokens.Split | src/cpp/uvvm_cosim_server.cpp:8-25 | every piece of the split is nonempty and contains no delimiter |
| Tokens.FindFirstNotOf | src/cpp/uvvm_cosim_server.cpp:16 | `find_first_not_of` gives the first position outside the delimiter set, or none when every character is a delimiter |
| Tokens.FindFirstOf | src/cpp/uvvm_cosim_server.cpp:19 | `find_first_of` gives the first delimiter position, or none when there is no delimiter |
| Tokens.SplitStr | src/cpp/uvvm_cosim_server.cpp:10-25 | the erase/find loop of `split_str` computes exactly the recursive split |
| Tokens.SplitSkipsDelims | src/cpp/uvvm_cosim_server.cpp:8-9 | leading delimiters never change the split |
| Tokens.SplitOfDelims | src/cpp/uvvm_cosim_server.cpp:16 | a string of delimiters only splits into no pieces |
| Tokens.TokenLengthIsFirstDelim | src/cpp/uvvm_cosim_server.cpp:19-20 | the token length is the unique position bounding a delimiter-free prefix at a delimiter or the end |
| Tokens.SplitTakesToken | src/cpp/uvvm_cosim_server.cpp:19-21 | a string starting with a non-delimiter splits into its leading token followed by the split of the rest |
| Tokens.SplitLosesOnlyDelims | src/cpp/uvvm_cosim_server.cpp:8-9 | the pieces concatenated are the input with every delimiter removed: nothing else is lost, nothing is reordered |
| Tokens.SplitOfTokenThenRest | src/cpp/uvvm_cosim_server.cpp:16-21 | a token followed by a delimiter (or nothing) is split off as one piece |
| Tokens.SplitJoinRoundTrip | src/cpp/uvvm_cosim_server.cpp:8-25 | joining nonempty delimiter-free pieces with a delimiter and splitting again gives the pieces back |
| VvcConfig.ReadItem | src/cpp/uvvm_cosim_server.cpp:43-51 | an item read as a pair has a key that is nonempty and free of `=` |
| VvcConfig.ReadItems | src/cpp/uvvm_cosim_server.cpp:37-43 | every comma-separated item is read on its own, in order |
| VvcConfig.ParseItems | src/cpp/uvvm_cosim_server.cpp:39-59 | the loop never replaces an entry already present (`emplace`) |
| VvcConfig.ParseCfgStr | src/cpp/uvvm_cosim_server.cpp:32-62 | the configuration's keys are exactly the keys accepted before the first bad value, each keeps the value of its first occurrence, and each is a nonempty text without `=` |
| VvcConfig.ParseItemsKeys | src/cpp/uvvm_cosim_server.cpp:39-59 | the configuration has exactly the keys of the well-formed items before the first bad value, and keys present before keep their values |
| VvcConfig.ParseItemsFirstWins | src/cpp/uvvm_cosim_server.cpp:53 | `emplace` keeps the first value of a duplicated key |
| VvcConfig.FirstWinsCons | src/cpp/uvvm_cosim_server.cpp:53 | a pair in front either sets a new key to its value or meets a key already set; first values are kept either way |
| VvcConfig.AcceptedStopsAtBadValue | src/cpp/uvvm_cosim_server.cpp:51-59 | an item whose value `std::stoi` rejects ends the parse: nothing after it is accepted |
| VvcConfig.AcceptedSkipsMalformed | src/cpp/uvvm_cosim_server.cpp:45-48 | an item that does not split into key and value is skipped and parsing goes on |
| VvcConfig.ReadItemOfPair | src/cpp/uvvm_cosim_server.cpp:43-53 | `key=value`, with the value written by `std::to_string`, reads back as that pair |
| VvcConfig.ReadItemWithoutEquals | src/cpp/uvvm_cosim_server.cpp:43-48 | an item without `=` splits into one piece and is skipped |
| VvcConfig.ReadItemWithoutValue | src/cpp/uvvm_cosim_server.cpp:43-48 | an item `key=` with nothing after `=` splits into one piece and is skipped |
| VvcConfig.ReadItemWithTwoEquals | src/cpp/uvvm_cosim_server.cpp:43-48 | an item with three `=`-separated parts is skipped |
| VvcConfig.ReadItemWithBadValue | src/cpp/uvvm_cosim_server.cpp:43-51 | `key=x` with `x` starting with neither white space, sign nor digit has a value `std::stoi` rejects |
| VvcConfig.MalformedItems | src/cpp/uvvm_cosim_server.cpp:43-48 | the items `bad`, `k=` and `a=b=c` are rejected as malformed |
| VvcConfig.ParseOfJoinedItems | src/cpp/uvvm_cosim_server.cpp:37 | a configuration string built by joining items with commas is parsed item by item |
| VvcConfig.ParseOfTwoItems | src/cpp/uvvm_cosim_server.cpp:37-43 | two comma-free items joined by a comma are parsed as their two readings, in order |
| VvcConfig.ParseOfThreeItems | src/cpp/uvvm_cosim_server.cpp:37-43 | three comma-free items joined by commas are parsed as their three readings, in order |
| VvcConfig.ParseExampleTwoPairs | src/cpp/uvvm_cosim_server.cpp:27-62 | two items reading as pairs give both entries for distinct keys, and only the first value for a repeated key |
| VvcConfig.ParseExampleSkipsMalformed | src/cpp/uvvm_cosim_server.cpp:39-54 | pair, malformed item, pair (as in `a=1,bad,c=3`) gives both pairs: the malformed item is skipped and parsing goes on |
| VvcConfig.ParseExampleAbortsOnBadValue | src/cpp/uvvm_cosim_server.cpp:36-59 | pair, item with a non-numeric value, anything (as in `a=1,b=x,c=3`) gives only the first pair: the exception ends the loop, keeping what was read |
| CosimServer.InferredChannel | src/cpp/uvvm_cosim_server.cpp:95 | the channel is the direction's UART name (`TX` for transmit, `RX` for receive at line 163) exactly for `UART_VVC`, otherwise `NA` |
| CosimServer.NotFoundMessage | src/cpp/uvvm_cosim_server.cpp:228-232 | the error text opens with `VVC with type=` and the type, and closes with the `std::to_string` text of the instance id and ` does not exist.` (the same text at lines 297-301) |
| CosimServer.NotFoundMessageNamesId | src/cpp/uvvm_cosim_server.cpp:228-232 | `std::stoi` of the closing part of the error text gives the instance id back |
| CosimServer.Frames | src/cpp/uvvm_cosim_server.cpp:214-222 | bytes to transmit become frames, in order, without the end-of-packet mark |
| CosimServer.Bytes | src/cpp/uvvm_cosim_server.cpp:276-283 | received frames become their bytes, in order, end-of-packet marks stripped |
| CosimServer.SizeOf | src/cpp/uvvm_cosim_server.cpp:269-274 | the `int` length compared with a `size_t` queue size is that length modulo 2^64 |
| CosimServer.SetQueues | src/cpp/uvvm_cosim_server.cpp:167-169 | updating one VVC's queues leaves every other entry and its configuration alone |
| CosimServer.AddVvc | src/cpp/uvvm_cosim_server.cpp:64-87 | registration adds the identity with the parsed configuration and empty queues if it is new, and never changes an existing entry |
| CosimServer.TransmitQueueEmpty | src/cpp/uvvm_cosim_server.cpp:89-114 | true iff the VVC is unknown or its transmit queue is empty |
| CosimServer.TransmitQueueGet | src/cpp/uvvm_cosim_server.cpp:116-155 | pops the oldest frame of a nonempty transmit queue, touching nothing else; otherwise returns a present `(0, false)` and changes nothing |
| CosimServer.ReceiveQueuePut | src/cpp/uvvm_cosim_server.cpp:157-178 | appends the frame to a known VVC's receive queue and nothing else; an unknown VVC changes nothing |
| CosimServer.GetVvcList | src/cpp/uvvm_cosim_server.cpp:180-197 | succeeds with every registered VVC exactly once, in `VvcCompare` order, each with its stored configuration |
| CosimServer.ListedStep | src/cpp/uvvm_cosim_server.cpp:185-189 | adding one more registered VVC to the sorted list keeps it sorted, duplicate-free and in step with the registry |
| CosimServer.TransmitBytes | src/cpp/uvvm_cosim_server.cpp:199-240 | succeeds iff the VVC is known; then the bytes are appended, unmarked, to its transmit queue and nothing else changes; otherwise the error names type, channel and id |
| CosimServer.TransmitPacket | src/cpp/uvvm_cosim_server.cpp:242-251 | always fails with `Not implemented` and changes nothing |
| CosimServer.ReceiveBytes | src/cpp/uvvm_cosim_server.cpp:253-309 | succeeds iff the VVC is known; then returns the front `min(queued, length)` bytes, or none when all-or-nothing and too few are queued, and removes exactly those; otherwise an error |
| CosimServer.ReceivePacket | src/cpp/uvvm_cosim_server.cpp:311-320 | always fails with `Not implemented` and changes nothing |
| ServerProperties.AddVvcIdempotent | src/cpp/uvvm_cosim_server.cpp:77-86 | registering an identity twice is registering it once; the first configuration is kept |
| ServerProperties.BytesOfFrames | src/cpp/uvvm_cosim_server.cpp:214-222 | frames built from bytes give those bytes back |
| ServerProperties.DrainTakesPrefix | src/cpp/uvvm_cosim_server.cpp:128-133 | `n` pops yield the first `n` frames in order and leave the rest |
| ServerProperties.TransmitIsFifo | src/cpp/uvvm_cosim_server.cpp:199-240 | bytes a client transmits come out of the simulation side after what was queued, in order, with no loss or duplication |
| ServerProperties.PutAllAppends | src/cpp/uvvm_cosim_server.cpp:167-169 | pushing bytes one by one appends them, in order, to the receive queue |
| ServerProperties.ExactReadTakesPrefix | src/cpp/uvvm_cosim_server.cpp:269-290 | an all-or-nothing read of at most the queued amount takes exactly that many frames from the front |
| ServerProperties.ReadFramesPrefix | src/cpp/uvvm_cosim_server.cpp:269-290 | reading from a queue holding the frames of some bytes returns a prefix of those bytes and leaves the frames of the rest |
| ServerProperties.ReceiveIsFifo | src/cpp/uvvm_cosim_server.cpp:253-309 | bytes pushed by the simulation are read by a client in order, split across reads without loss |
| ServerProperties.PartialReadModes | src/cpp/uvvm_cosim_server.cpp:269-274 | with too few bytes queued, all-or-nothing returns nothing and keeps them while best-effort returns them all; with exactly enough both return them all |
| ServerProperties.NegativeLengthReads | src/cpp/uvvm_cosim_server.cpp:254-274 | a negative length makes a best-effort read take the whole queue and an all-or-nothing read take nothing |
| ServerProperties.AddVvcKeepsTransmitUnmarked | src/cpp/uvvm_cosim_server.cpp:77-79 | registration adds only empty queues, so no transmit frame is ever marked by it |
| ServerProperties.TransmitQueueGetKeepsTransmitUnmarked | src/cpp/uvvm_cosim_server.cpp:128-133 | a pop keeps transmit queues unmarked and never returns a marked frame |
| ServerProperties.ReceiveQueuePutKeepsTransmitUnmarked | src/cpp/uvvm_cosim_server.cpp:167-169 | a push leaves every transmit queue as it was |
| ServerProperties.TransmitBytesKeepsTransmitUnmarked | src/cpp/uvvm_cosim_server.cpp:214-222 | transmitted bytes are queued with the end-of-packet flag false |
| ServerProperties.ReceiveBytesKeepsTransmitUnmarked | src/cpp/uvvm_cosim_server.cpp:264-290 | a read leaves every transmit queue as it was |
| LegacyServer.UartTransmit | src/cpp/uvvm_cosim_server.h:21-37 | always succeeds; the data is appended to the transmit queue and the receive queue is untouched |
| LegacyServer.UartReceive | src/cpp/uvvm_cosim_server.h:39-62 | returns `min(length, queued)` bytes from the front; returned and remaining bytes together are the old queue |
| LegacyServer.UartReceiveCases | src/cpp/uvvm_cosim_server.h:45-58 | more queued than asked for gives exactly `length` bytes; otherwise all bytes are returned and the queue is emptied |
| LegacyServer.UartReceiveSlices | src/cpp/uvvm_cosim_server.h:44-59 | a read returns the first `min(length, queued)` bytes and leaves exactly the rest |
| LegacyServer.UartReceiveComposes | src/cpp/uvvm_cosim_server.h:39-62 | reading `a` then `b` bytes returns and leaves the same as one read of `a + b` |
| LegacyServer.UartTransmitComposes | src/cpp/uvvm_cosim_server.h:21-37 | two transmits equal one transmit of the concatenation |
| Vhpi.WithTransmitQueue | src/cpp/uvvm_cosim_vhpi.cpp:104-110 | replacing one transmit queue leaves the other queues and the VVC list alone |
| Vhpi.WithReceiveQueue | src/cpp/uvvm_cosim_vhpi.cpp:142 | replacing one receive queue leaves the other queues and the VVC list alone |
| Vhpi.TransmitQueueEmpty | src/cpp/uvvm_cosim_vhpi.cpp:62-88 | 1 iff the port's transmit queue is empty or the VVC index is not 0, else 0 |
| Vhpi.TransmitQueueGet | src/cpp/uvvm_cosim_vhpi.cpp:90-118 | removes and returns the front byte of the port's transmit queue; nothing else changes |
| Vhpi.TruncateToByte | src/cpp/uvvm_cosim_vhpi.cpp:140 | the byte stored is congruent to the `int` value modulo 256, and equal to it when it fits |
| Vhpi.ReceiveQueuePut | src/cpp/uvvm_cosim_vhpi.cpp:120-143 | appends the truncated value to the port's receive queue; nothing else changes |
| Vhpi.ReportVvcInfo | src/cpp/uvvm_cosim_vhpi.cpp:295-354 | appends the VVC with its parsed configuration to the list, queues untouched |
| Vhpi.ReportKeepsDuplicates | src/cpp/uvvm_cosim_vhpi.cpp:343-352 | reporting the same identity twice lists it twice, unlike registry registration |
| Vhpi.EmptyCheckGuardsGet | src/cpp/uvvm_cosim_vhpi.cpp:62-118 | an emptiness answer of 0 guarantees the following get pops a byte from a nonempty queue |
| Vhpi.DrainTransmit | src/cpp/uvvm_cosim_vhpi.cpp:62-118 | popping while the emptiness check answers 0 yields the whole transmit queue in order and then reads as empty |
| Vhpi.TimeValue | src/cpp/uvvm_cosim_vhpi.cpp:445-448 | the two 32-bit halves denote a time below 2^64 |
| Vhpi.ConvertTimeToNsAsWritten | src/cpp/uvvm_cosim_vhpi.cpp:447 | the source's result is negative exactly when the high half is at least 2^31 (and the time is at least 10^6 fs below 2^64), and always lies within 2^63 / 10^6 of zero |
| Vhpi.ConvertTimeToNs | src/cpp/uvvm_cosim_vhpi.cpp:445-448 | the nanoseconds are the time in femtoseconds divided by 10^6, rounded down |
| Vhpi.ConvertAgreesBelowSignBit | src/cpp/uvvm_cosim_vhpi.cpp:445-448 | the source's formula is exact while the high half is below 2^31 |
| Vhpi.ConvertAsWrittenGoesNegative | src/cpp/uvvm_cosim_vhpi.cpp:445-448 | at 2^63 fs the source's formula gives -9223372036854 ns instead of 9223372036854 |

## Left out

- Threads, locks and the shared container wrappers (`shared_vector`, `shared_deque`, `shared_map`): each operation is one atomic step in the model.
- Console and `vhpi_printf` logging, and the JSON-RPC transport, HTTP server and (de)serialisation: the model works on the values the handlers see.
- Starting and stopping the server, the start-of-simulation delay, callback and foreign-function registration, and `end_of_sim_cb`: they do I/O only. `end_of_sim_cb` prints the result of `convert_time_to_ns`, which is modelled.
- Reading VHPI parameters, including a failing `vhpi_get_value`: the handlers' parameters are plain arguments.
- The 256-character buffers for string parameters of `uvvm_cosim_vhpi_report_vvc_info`: strings are taken whole.
- Vhpi.TransmitQueueGet: requires a nonempty queue. On an empty queue the source raises a VHPI error assertion and then reads the front of an empty deque, which has no defined result.
- Decimal.Stoi: models only decimal text. `std::stoi` with base 10 accepts nothing else; locale-specific white space is not modelled.
- The end-of-packet flag is carried through the registry queues, but the packet operations fail as not implemented, so there is no packet semantics to model.
- LegacyServer.UartReceive: takes the length as unbounded; the source's `unsigned int` cannot exceed 2^32 - 1, which changes nothing about the result.

## Findings

| source | as written | input that shows it | evidently intended | confidence | as-written member | corrected member |
|---|---|---|---|---|---|---|
| src/cpp/uvvm_cosim_vhpi.cpp:445-448 | `((long)high << 32 \| low) / 1000000` on a signed 64-bit `long`: the shifted high half overflows into the sign bit once it reaches 2^31 | `high = 2^31`, `low = 0` (2^63 fs): the result is -9223372036854 ns | the unsigned 64-bit time divided by 10^6, i.e. 9223372036854 ns | not executed; follows from 64-bit two's-complement arithmetic | Vhpi.ConvertTimeToNsAsWritten (Vhpi.ConvertAsWrittenGoesNegative) | Vhpi.ConvertTimeToNs (Vhpi.ConvertAgreesBelowSignBit) |
