# A verified model of the mytftpclient read path

This project models the core of `mytftpclient`, a small TFTP client written in C++. It
covers five parts:

- **Octets** (`octets.dfy`): bytes, the decimal text `std::to_string` writes, and the stream
  extraction `istream >> int` in the classic "C" locale. The defined extraction skips
  whitespace, takes an optional sign, stores 0 when no digit follows, clamps to the `int`
  range, and leaves the variable untouched when only whitespace is left.
- **Netascii** (`netascii.dfy`): the two transcoding loops of the `TFTP` class. They are
  imperative methods on arrays, proved against functions on sequences:
  - `netasciiToOctet` scans a buffer in place with a carried carriage-return flag;
  - `octetToNetascii` expands into a buffer of double capacity.
- **Packets** (`packets.dfy`): the stream-built framing, as functions on byte sequences:
  - `blockNumberToStr`, `writeOption`/`writeOptions`, the request body of `makeRRQ`/`makeWRQ`,
    `makeACK`, and the DATA framing of `send`;
  - a NUL-separated field view that reads a request back.
- **Protocol** (`protocol.dfy`): the `TFTP` object as a class. `asciiMode` is its field;
  `makeRRQ`/`makeWRQ` switch it on, and `send` and `receive` consult it.
- **Client** (`client.dfy`): the read branch of `main`, and `parseServerConfig`:
  - the buffer size choice;
  - one pass of the do-while loop, as a function `Step` on a `Session` value;
  - the whole loop, as `Run`;
  - the same loop in place, on the two `new char[blocksize]` buffers, in class `ReadSession`.
- **Arguments** (`arguments.dfy`): `CustomArgLine`, which turns a typed line into an argv-like
  array of NUL-terminated words. Its destructor is modelled as written and corrected.

The transport is replaced by data:
- each receive is an `Arrival`, holding the datagram and the value the uninitialised
  `blockNumber` variable holds when nothing is parsed into it;
- the transport writes at most `blocksize` bytes of a datagram into the buffer and leaves the
  rest of the buffer as it was;
- every string the receive loop hands to the transport's `send` is appended to `sent` (the
  read request sent before the loop is not);
- the output file is a byte sequence plus the `ofstream` failed flag.

Where the code departs from what a TFTP client is expected to do, the model follows the code:
- **Block numbers.** Block numbers are not read as big-endian 16-bit values. The two header
  bytes are shifted by `'0'` and parsed as decimal text (`src/mytftpclient.cpp:92-95`), so only
  blocks 0..9 framed as RFC 1350 section 5 frames them read back correctly. Block 10 reads as 0
  (`ReadBlockNumberOfBigEndian`, `RfcBlockTenIsOutOfSync`).
- **Out-of-sync blocks.** An out-of-sync block does not abort anything. It prints a message,
  and the loop goes on while the datagram fills the buffer (`src/mytftpclient.cpp:140-144`).
- **Option acknowledgements.** OACK datagrams are not interpreted; they take the
  unusual-opcode path.
- **Netascii on receive.** The read loop calls the transport directly, so no netascii decoding
  happens on received data. `TFTP::receive` is modelled on its own.
- **Replays.** When both block bytes read as blanks once shifted by `'0'` (bytes 217..221
  and 240), `>>` stores nothing and the comparison uses whatever the uninitialised
  `blockNumber` holds (`src/mytftpclient.cpp:94-95`). A byte-identical replay is then accepted
  and written again when that value is the next block number (`ReplayIsIdempotent`,
  `ReplayOfBlankHeaderWrittenTwice`).
- **DATA framing.** `send` writes no opcode: the literal `"\000\003"` is a C string that starts
  with its terminator (`src/tftp.cpp:152`). The block number text is cut to two characters.

## Model

| member | source | states |
|---|---|---|
| Octets.DecimalRoundTrip | src/tftp.cpp:91-92 | extracting the text `std::to_string(n)` writes gives back `n`, for every `int` |
| Octets.DigitsValueOfDigits | src/tftp.cpp:91 | the decimal digits of `n` are digits and read back as `n` |
| Octets.SkipSpaceParts | src/mytftpclient.cpp:93-95 | the sentry's skip removes exactly the leading whitespace and stops at a non-space byte |
| Octets.ExtractTwoAgrees | src/mytftpclient.cpp:92-95 | the case analysis of a two-character text (blanks, sign, digits) is exactly what `>> int` stores |
| Octets.IndexOfIs | src/mytftpclient.cpp:190 | the first occurrence of a byte is the position before which it does not occur |
| Octets.OverwriteParts | src/mytftpclient.cpp:125 | after `memcpy` of `n` bytes, the first `n` bytes are the source's and the rest are unchanged |
| Netascii.NetasciiToOctet | src/tftp.cpp:19-57 | the scan changes only the scanned range, into `Decoded`; it returns `DecodedCount` and leaves the flag as "the last byte was CR" (the flag passed in when the length is not positive) |
| Netascii.DecodedCountBound | src/tftp.cpp:19-57 | the count exceeds the length by at most one, and only when a CR was pending on entry and none on exit |
| Netascii.DecodedInChunks | src/tftp.cpp:19-57 | scanning in two pieces and carrying the flag gives the same bytes, count and final flag as one scan |
| Netascii.OctetToNetascii | src/tftp.cpp:59-85 | the output holds `Encoded(input)` and nothing beyond it changes; the count is its length, between `length` and `length + 1` |
| Netascii.EncodedLength | src/tftp.cpp:59-85 | the expansion is as long as the input or one byte longer |
| Netascii.EncodedPlain | src/tftp.cpp:78-81 | input without CR or LF is copied unchanged |
| Netascii.LineEndAfterCarriageReturnIsLost | src/tftp.cpp:67-71 | "\r\n" expands to CR NUL, because the byte after a CR is skipped; scanning that back gives CR CR and count 1 |
| Netascii.LineFeedCountedTwice | src/tftp.cpp:43-51 | a lone LF expands to CR LF, which the scan leaves as it is but counts as 2 (the `'\n'` case falls through) |
| Packets.BlockNumberToStrReadsBack | src/tftp.cpp:10-16 | the zero-padded text is at least two characters long and reads back as the block number |
| Packets.DataPacketHeader | src/tftp.cpp:148-164 | a DATA packet is the payload behind two header bytes; those bytes name the block for -9..99; for 100 or more they are its first two digits and read as that two-digit number, and below -9 they are `-` and its first digit and read as minus that digit |
| Packets.Ack | src/tftp.cpp:173-180 | an ACK is four bytes long: 0, 4, then the first two bytes of the block string's C string (its terminator when it is one byte long) |
| Packets.SplitJoin | src/tftp.cpp:87-93 | NUL-free fields joined with NUL separators split back into the same fields |
| Packets.JoinAddOption | src/tftp.cpp:87-103 | appending a name/value pair to the fields appends NUL, name, NUL, value to the joined bytes |
| Packets.RequestIsJoin | src/tftp.cpp:105-120 | a request is its two opcode bytes, then its fields (file name, mode, then the option names and values) joined with NUL |
| Packets.RequestLayout | src/tftp.cpp:87-120 | with a NUL-free file name and mode, a request starts with 0 and the opcode, and the rest splits at NUL into exactly those fields |
| Protocol.Tftp.constructor | include/tftp.hpp:6-11 | a new TFTP object is not in ascii mode |
| Protocol.Tftp.MakeRrq | src/tftp.cpp:105-120 | the packet is the read request with tsize 0; ascii mode is switched on by "ascii" or "netascii" and never switched off |
| Protocol.Tftp.MakeWrq | src/tftp.cpp:131-146 | the packet is the write request with the given transfer size; the ascii-mode update is the same as for `MakeRrq` |
| Protocol.Tftp.Send | src/tftp.cpp:148-171 | the datagram is the DATA framing of the first `length` bytes, expanded to netascii in ascii mode |
| Protocol.Tftp.Receive | src/tftp.cpp:182-203 | in ascii mode, the bytes after the 4-byte header are decoded in place with a fresh flag and their count is returned; in binary mode, the received length is returned |
| Protocol.Deliver | src/tftp.cpp:186 | the transport keeps `min(datagram length, maxLength)` bytes at the front of the buffer and leaves the rest of the buffer alone |
| Protocol.RequestsKeepAsciiMode | src/tftp.cpp:112-115 | after a "netascii" request, a following "octet" request leaves the object in ascii mode |
| Client.BlockSize | src/mytftpclient.cpp:56-62 | the buffer size is 512 by default, and the smaller of the requested size and the MTU when `-s` is given |
| Client.Initial | src/mytftpclient.cpp:78-85 | the loop starts with block 0, an empty file, nothing sent, and whatever the buffers held |
| Client.ReadBlockNumberIsExtraction | src/mytftpclient.cpp:92-95 | the block number is `>> int` applied to the two header bytes shifted by `'0'` |
| Client.ReadBlockNumberDecimal | src/mytftpclient.cpp:92-95 | header bytes 0..9 read as the two-digit decimal number they spell |
| Client.ReadBlockNumberRange | src/mytftpclient.cpp:92-95 | any stored block number lies in -9..99 |
| Client.ReadBlockNumberOfBigEndian | src/mytftpclient.cpp:92-95 | an RFC 1350 16-bit block number reads back as itself if and only if it is at most 9 |
| Client.HasOpcodeBytes | src/mytftpclient.cpp:96-112 | the "05"/"03" text comparisons are exactly comparisons of the opcode bytes with 0,5 and 0,3 |
| Client.StepReceives | src/mytftpclient.cpp:89-112 | the received bytes land in the buffer; the step is an ERROR, leaving everything else unchanged, if and only if the opcode bytes are 0,5; otherwise the loop continues exactly when the buffer was filled |
| Client.StepAccept | src/mytftpclient.cpp:114-127 | the next block is written (or the stream fails on a datagram shorter than 4 bytes), ACKed with its own two block bytes, and remembered |
| Client.StepResend | src/mytftpclient.cpp:131-137 | a byte-identical repeat resends the remembered ACK and changes nothing else |
| Client.StepOutOfSync | src/mytftpclient.cpp:140-142 | a block that is neither the next one nor a repeat changes nothing but the buffer and sends nothing |
| Client.ReplayIsIdempotent | src/mytftpclient.cpp:92-137 | the same datagram received right after it was accepted is accepted again if and only if its block bytes read as blanks and the uninitialised variable holds the next block number; otherwise it only resends the same ACK, and the file and every remembered value stay as they were |
| Client.ReplayOfBlankHeaderWrittenTwice | src/mytftpclient.cpp:92-127 | a loop over two identical full datagrams with blank-reading block bytes accepts both and writes the payload twice |
| Client.StepAccounting | src/mytftpclient.cpp:114-142 | for any datagram, one step raises the block number by one if and only if it accepts and sends one datagram if it accepts or resends; for one of at least 4 bytes, on a stream not yet failed, it appends exactly the accepted payload |
| Client.RunAccounting | src/mytftpclient.cpp:86-144 | over the whole loop, for any datagrams: block number = start + accepted steps; sent count = start + accepting and resending steps; when every datagram has its 4 header bytes, the file grows by the accepted payloads, in order |
| Client.RfcNextBlockAccepted | src/mytftpclient.cpp:92-127 | an RFC 1350 DATA datagram for the next block in 1..9 is accepted, written and ACKed; the loop continues exactly when the payload is full |
| Client.RfcRunFirst | src/mytftpclient.cpp:86-144 | the first pass over RFC 1350 blocks accepts the first block when its number is within 1..9, however many blocks follow; the run ends there or continues with the rest |
| Client.CleanTransferEnds | src/mytftpclient.cpp:86-144 | full blocks followed by a short one, numbered within 1..9, end the loop `Finished` with the stream good and the block number advanced by their count |
| Client.CleanTransferWrites | src/mytftpclient.cpp:114-117 | the file of such a transfer is the concatenation of the payloads |
| Client.CleanTransferAcks | src/mytftpclient.cpp:119-124 | such a transfer sends one ACK per block, in order |
| Client.CleanTransfer | src/mytftpclient.cpp:86-144 | a clean transfer of blocks within 1..9 ends `Finished`, writes the concatenated payloads and sends one ACK per block, in order |
| Client.RfcBlockTenIsOutOfSync | src/mytftpclient.cpp:92-95 | after block 9, RFC 1350 block 10 reads as 0: out of sync, nothing written or sent, and a full block keeps the loop waiting |
| Client.ReadSession.constructor | src/mytftpclient.cpp:78-85 | the in-place state starts as `Initial` on fresh buffers |
| Client.ReadSession.StepOnce | src/mytftpclient.cpp:89-143 | one pass of the loop body on the arrays leaves the state `Step` gives and returns its result |
| Client.ReadSession.AcceptBlock | src/mytftpclient.cpp:114-127 | the accepting branch on the arrays leaves the state `Accept` gives |
| Client.ReadSession.Transfer | src/mytftpclient.cpp:86-144 | the do-while on the arrays produces the final state, steps and outcome that `Run` gives |
| Client.CopyPrefix | src/mytftpclient.cpp:125 | `memcpy` of `n` bytes leaves `Overwrite(old destination, source, n)` |
| Client.ParseServerConfigRoundTrip | src/mytftpclient.cpp:183-197 | "host,port", with a comma-free host and an `int` port, parses to that host and port |
| Client.DefaultServerConfig | src/arguments.cpp:16 | the default "127.0.0.1,69" parses to server 127.0.0.1 and port 69 |
| Arguments.Words | src/arguments.cpp:41-43 | every word read from the line is non-empty and has no whitespace |
| Arguments.WordsFirst | src/arguments.cpp:41-43 | a word followed by whitespace (or the end) is read first and whole |
| Arguments.WordsOfUnwords | src/arguments.cpp:41-43 | words joined by single spaces are read back as the same words |
| Arguments.StrNCopy | src/arguments.cpp:54 | `strncpy` writes the C string of the source, then NUL padding up to `n`, and leaves the rest of the destination alone |
| Arguments.StrNCpyOfWord | src/arguments.cpp:49-55 | a NUL-free word copied into `len + 1` bytes is the word followed by NUL |
| Arguments.StrNCpyCutsAtNul | src/arguments.cpp:54 | a word with an embedded NUL is cut there, and the rest of its array is NUL |
| Arguments.CustomArgLine.constructor | src/arguments.cpp:39-56 | `count` is the word count plus one; element 0 is the empty string; element `i` holds word `i - 1` as `strncpy` copies it |
| Arguments.CustomArgLine.FreeWords | src/arguments.cpp:31-34 | the `delete[]` loop with bound `n` releases exactly the first `n` word arrays |
| Arguments.CustomArgLine.Destroy | src/arguments.cpp:26-38 | as written: `count` becomes 0 and `separated` null, and only the outer array is released |
| Arguments.CustomArgLine.DestroyAll | src/arguments.cpp:26-38 | corrected: the outer array and every word array are released |
| Arguments.DestroyLeaksWords | src/arguments.cpp:26-38 | for any list of words, the written destructor leaves every word array allocated, each still holding its word |
| Arguments.DestroyAllFreesWords | src/arguments.cpp:26-38 | with the corrected destructor, every word array of the line is released |

## Left out

- The transport, `src/udp.cpp`, is not modelled: sockets, `getaddrinfo`, `sendto`/`recvfrom`,
  `select` timeouts and the `ioctl` MTU query. The MTU is a parameter of `BlockSize`, and a
  receive is an `Arrival`. `UDP::send` also puts the string's NUL terminator on the wire; the
  model records the strings handed to it, not the wire bytes.
- `TFTP::sendRRQ` and the timeout branches of `send` and `receive` are left out. They only
  choose a transport call.
- The REPL of `main` is left out: `std::getline` on `std::cin`, the exception-based control
  flow, and the `new`/`delete` pairs of the loop buffers. Also left out are the connection
  setup and closing, the Read/Write argument checks, and `printTimestamp`, `printError` and
  all console output. None of these is visible in the loop's state.
- `setupArguments`, `parseArguments` and `requiredArgumentGet` are thin wrappers over the
  cxxopts library, whose source is not part of this model. Only the default address text
  they supply is used, in `DefaultServerConfig`.
- OACK interpretation, 16-bit block wrap-around and the upload transfer are left out, because
  no source implements them. An opcode-6 datagram takes the unusual-opcode path, which is
  modelled.
- Blocksizes below 4 are excluded by the `ValidSession` and `ReadSession.Valid` requirements.
  A size of 0..3 makes the loop read header bytes outside the buffer, which is undefined
  behaviour with no semantics to model. A negative size (`-s -1`) makes `new char[blocksize]`
  (`src/mytftpclient.cpp:79`) throw `std::bad_array_new_length`, which the handler at
  `src/mytftpclient.cpp:167` reports; by then the read request has been sent and the file
  truncated. That path is not modelled.
- Integer widths are unbounded in the model. `length * 2` in `send` and `words.size() + 1` in
  the `CustomArgLine` constructor are not wrapped, because every length they can see is far
  below 2^31. The stream extraction clamps to the `int` range, as libstdc++ does. The stale
  `blockNumber` of an `Arrival` is any integer rather than an `int`; every property is
  proved for all of them, so it holds for the 32-bit ones. `lastBlockNumber + 1` is not wrapped: from `Initial`,
  `lastBlockNumber` equals the number of accepted steps (`RunAccounting`), so it overflows
  only after 2^31 - 1 accepted datagrams.
- Client.ReplayIsIdempotent: reading the uninitialised `blockNumber` is undefined behaviour
  in C++. The model gives it an arbitrary `int` per arrival, which covers every value it can
  hold but not an optimiser's freedom to do something else.
- Memory release is a ghost set of released arrays. Using an array after release is not
  modelled.
- `Client.CleanTransfer`, `Client.CleanTransferEnds`, `Client.CleanTransferWrites` and
  `Client.CleanTransferAcks` hold only for blocks numbered within 1..9. Beyond that, the code
  mis-reads block numbers (see `RfcBlockTenIsOutOfSync`).

## Findings

| source | as written | input that shows it | evidently intended | confidence | as-written member | corrected member |
|---|---|---|---|---|---|---|
| src/arguments.cpp:26-38 | the destructor sets `count` to 0 and then runs `for (i = 0; i < count; i++) delete[] separated[i]`, so the loop never runs | the line "-R -d f", or any line, even an empty one (`count` is at least 1): none of the word arrays, nor the empty string at index 0, is released | release every `separated[i]` for `i < count` before zeroing `count` | not executed; follows from the order of the two statements | Arguments.CustomArgLine.Destroy, Arguments.DestroyLeaksWords | Arguments.CustomArgLine.DestroyAll, Arguments.DestroyAllFreesWords |
