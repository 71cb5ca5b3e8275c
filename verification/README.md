# A verified model of ideviceexec's debug-stream handling and the AFC shell helpers

This project models the core of a libimobiledevice fork in Dafny:

- **ideviceexec.** This tool launches an app on an iOS device through the device's remote debug server. It speaks the GDB remote serial protocol:
  - hex-encodes bytes and decodes them back;
  - frames packets as `$payload#cs`, where `cs` is the modulo-256 byte sum as two lowercase hex digits;
  - uploads the executable path in an `A` packet;
  - checks for the `+` / `$OK#..` acknowledgement;
  - runs a receive loop that reassembles frames from a growing buffer. The loop prints `O` (console output) frames, answers other frames with `+$?#3f`, and returns the code of a `W` (exit) or `X` (signal) stop reply.
- **osx/gstring.c.** This is the small GString replacement that the loop uses for its buffer.
- **The AFC helpers** of `src/afc_error.c` and `src/afc_extras.c`:
  - error messages and the errno mapping;
  - `afc_stat`, which decodes a key/value file-info list;
  - the `fts`-like directory walk. Its visiting order is proved against a reference traversal, `AfcFtsOrder.Order`: pre-order `D`, the listed names in listing order, post-order `DP`.
- **The two AFC shells:**
  - `tools/afccl.c`: path building and cleansing, command words, `cmd_cd`, `infolist_get_value`, and the command-line tokenizer;
  - `tools/afccl/afccl.c`: its error table, command words, `cmd_cd` and `do_cmd`.

Everything is pure functions over immutable values:

- The device connection is a `Link`. It holds a scripted inbox of received chunks, a script of results for sends, and the log of what was sent.
- A C buffer is a `seq<char>` together with the lengths the C code keeps.
- Each place where the C code is wrong can be modelled two ways, chosen by a `Policy` parameter:
  - `AsWritten` follows the code;
  - `Repaired` is the evident intent.

  Both are proved about, and the section "Findings" lists each discrepancy.
- Memory faults are results, not crashes: where the model tracks a block, reading past it is `Err(OutOfBounds)`, a failed `assert` is `Err(AssertionFailed)`, and a read of the loop's uninitialised `fin` is the outcome `Undefined`.

Two facts about the code that the model keeps exact:

- **Bytes consumed per frame.** `pkg_end` points at the second checksum digit, so `pkg_end - str + 1` removes exactly the frame: `k + 3` bytes when the `#` is at index `k`. `StreamScan.ScanOneFrame` states this.
- **The `A` packet's count field.** It is `argc - 1` of the count passed to `gdb_send_a_packet`, printed with `%u` (modelled as 32-bit unsigned). The hex-length field comes first.

## Model

| member | source | states |
|---|---|---|
| CText.CDiv | src/afc_extras.c:50-57 | C division truncates toward zero: the remainder `a - q*b` lies in [0, b) for a non-negative numerator and in (-b, 0] for a negative one |
| CText.U32 | tools/ideviceexec.c:197-205 | a value stored into a 32-bit unsigned lies below 2^32, differs from the value by a multiple of 2^32 (so -1 becomes 2^32-1), and is unchanged when it already fits |
| CText.U16 | src/afc_extras.c:97 | a value stored into a 16-bit unsigned lies below 2^16, differs from the value by a multiple of 2^16, and is unchanged when it already fits |
| CText.DigitsValueOfDecimal | tools/ideviceexec.c:197-205 | reading the digits of a printed number gives the number back |
| CText.CStringAtTerminated | tools/ideviceexec.c:611-613 | reading a C string from a NUL-free text followed by NUL yields exactly the text from that point |
| HexCodec.ToHex | tools/ideviceexec.c:78-84 | every nibble 0..15 becomes a lowercase hex digit |
| HexCodec.FromHex | tools/ideviceexec.c:33-43 | a value exists only for a digit of either case, and the value is the nibble whose digit that is; every other character has none (the source's assertion) |
| HexCodec.FromHexToHex | tools/ideviceexec.c:33-84 | `fromhex` inverts `tohex` on every nibble |
| HexCodec.FromHexUpper | tools/ideviceexec.c:33-43 | uppercase `A`..`F` read back as the same nibbles as lowercase |
| HexCodec.HexPair | tools/ideviceexec.c:93-105 | each byte becomes two hex digits, high nibble first, that read back as the byte |
| HexCodec.Bin2Hex | tools/ideviceexec.c:93-105 | reports as converted exactly the number of input bytes and emits two characters per byte |
| HexCodec.Bin2HexLayout | tools/ideviceexec.c:93-105 | byte j's digit pair sits at positions 2j and 2j+1, and every emitted character is a lowercase hex digit |
| HexCodec.Hex2Bin | tools/ideviceexec.c:52-70 | on success the count is twice the number of bytes produced and never exceeds len+1 (the loop `i < len` steps by 2, so an odd len enters its last pair at len-1 and the count can reach len+1) |
| HexCodec.Hex2BinStops | tools/ideviceexec.c:52-70 | no converted character is NUL; conversion stops before len only at a pair holding a NUL |
| HexCodec.Hex2BinPairs | tools/ideviceexec.c:52-70 | every produced byte is the value of the hex pair at twice its index |
| HexCodec.PairValue | tools/ideviceexec.c:66 | a pair has a value exactly when both characters are hex digits, and that value is a byte |
| HexCodec.Hex2BinExact | tools/ideviceexec.c:52-70 | decoding with the exact hex length returns the original bytes, whatever follows |
| HexCodec.Hex2BinOverruns | tools/ideviceexec.c:52-70 | a length running past the hex text into a non-hex, non-NUL pair fails `fromhex`'s assertion |
| HexCodec.Hex2BinOfBin2Hex | tools/ideviceexec.c:52-105 | round trip: decoding `bin2hex` output followed by NUL returns the original bytes for any length from the exact one to the end of the buffer, because decoding stops at the NUL |
| GdbPacket.SignedByte | tools/ideviceexec.c:154-161 | a `gchar` value lies in -128..127 and agrees with the byte modulo 256 |
| GdbPacket.ChecksumLoop | tools/ideviceexec.c:154-161 | the signed 8-bit accumulator wraps but stays congruent, modulo 256, to the byte sum |
| GdbPacket.Checksum | tools/ideviceexec.c:154-161 | the checksum is a byte value below 256; `PrefixSumIsByteSum` shows it is the byte sum modulo 256 |
| GdbPacket.PrefixSumIsByteSum | tools/ideviceexec.c:159-161 | summing byte by byte over the whole payload gives its byte sum |
| GdbPacket.AppendChecksum | tools/ideviceexec.c:154-167 | the trailer adds exactly three characters |
| GdbPacket.AppendChecksumTrailer | tools/ideviceexec.c:154-167 | the payload is kept, then `#`, then two lowercase digits whose value is the modulo-256 byte sum |
| GdbPacket.AppendChecksumIs | tools/ideviceexec.c:163-166 | the two digits are the high and low nibbles of the checksum |
| GdbPacket.FrameOfPayload | tools/ideviceexec.c:213-216 | `$` plus a `#`-free payload plus its trailer is a frame whose payload is that payload |
| GdbPacket.LaunchQueryIsFramed | tools/ideviceexec.c:543 | the hard-coded `$qLaunchSuccess#a5` is the correctly framed `qLaunchSuccess` packet |
| GdbPacket.LaunchQueryIsFramedChecksum | tools/ideviceexec.c:543 | the checksum of `qLaunchSuccess` is 0xa5 |
| GdbPacket.ContinueIsFramed | tools/ideviceexec.c:554 | the hard-coded `$c#63` is the correctly framed `c` packet |
| GdbPacket.HaltQueryIsFramed | tools/ideviceexec.c:626 | `+$?#3f` is an acknowledgement followed by the correctly framed `?` packet |
| GdbPacket.OkReplyIsFramed | tools/ideviceexec.c:231-239 | the `$OK#9a` reply that `gdb_check_ok` expects is correctly framed |
| CText.Decimal | tools/ideviceexec.c:197-205 | `%u` output is a non-empty string of digits with no leading zero |
| GdbPacket.ParseDecimalOfDecimal | tools/ideviceexec.c:197-205 | reading a printed number gives the number back |
| GdbPacket.ParseDecimal | tools/ideviceexec.c:200-207 | iff: a text reads as a number exactly when it is non-empty and all decimal digits |
| GdbPacket.APacket | tools/ideviceexec.c:179-223 | the `A` packet starts `$A` and is 7 bytes longer than its two decimal numbers and the path's hex text together |
| GdbPacket.APacketWireForm | tools/ideviceexec.c:179-223 | the `A` packet is a frame whose payload is `A`, the hex length, `,`, the 32-bit `argc - 1`, `,`, and the hex of the path |
| GdbPacket.SplitAtJoin | tools/ideviceexec.c:179-223 | cutting at a separator absent from the first field recovers both fields |
| GdbPacket.DecodeAPacketOfAPacket | tools/ideviceexec.c:179-223 | round trip: a reader of the `A` packet recovers the hex length, the count and the path bytes |
| GdbPacket.DecodeAPacket | tools/ideviceexec.c:179-223 | only a well-formed frame whose checksum matches is read, and its fields come from its payload |
| GdbPacket.DecodeAFields | tools/ideviceexec.c:179-223 | a payload is read only when it starts with `A`; the two numbers and the hex text are then split at the commas |
| GdbLink.Receive | tools/ideviceexec.c:133-148 | a read delivers at most the requested number of bytes from the front of the stream; with nothing left it fails; the send script and log are untouched |
| GdbLink.Send | tools/ideviceexec.c:114-123 | a send is logged and reports the scripted count, or the whole length when nothing is scripted; nothing is received |
| GdbLink.CheckOk | tools/ideviceexec.c:231-239 | the check sends nothing or one `+`; with nothing to read it fails and changes nothing; otherwise it always consumes a reply |
| GdbLink.CheckOkReads | tools/ideviceexec.c:231-239 | a passed check means the stream began with `+$OK#` and two more characters, which were consumed, and a `+` was sent |
| GdbLink.CheckOkIgnoresChecksum | tools/ideviceexec.c:231-239 | any two characters after `$OK#` pass, whether or not they are the right checksum |
| GdbLink.CheckOkNeedsAck | tools/ideviceexec.c:231-239 | a first byte other than `+` fails the check, and nothing is sent |
| GdbLink.CheckOkNeedsSend | tools/ideviceexec.c:231-239 | a short send of the `+` fails the check after the reply was read |
| GdbStream.LastHashFrom | tools/ideviceexec.c:577-584 | the as-written scan finds the last `#` after the leading byte, or reports that there is none |
| GdbStream.FirstFrameEnd | tools/ideviceexec.c:577-584 | the repaired scan finds the first `#` that has two characters after it, or reports that there is none |
| GdbStream.FindTerminator | tools/ideviceexec.c:577-584 | a found terminator is a `#` inside the buffer, after the leading `$` |
| GdbStream.Consume | tools/ideviceexec.c:619 | erasing removes exactly the first n bytes when there are that many; an over-long erase leaves the buffer (the glib `g_string_erase` that the tool links on Linux) |
| GdbStream.Printed | tools/ideviceexec.c:611-613 | `printf("%s")` output holds no NUL, and a NUL-free text is printed whole |
| GdbStream.InitialFin | tools/ideviceexec.c:435 | the loop's flag starts unassigned as written, and `FIN_NO` repaired |
| GdbStream.Outer | tools/ideviceexec.c:557-642 | the outer loop only appends to what was printed and to the messages sent; it spins for ever only once the connection has nothing left |
| GdbStream.Drain | tools/ideviceexec.c:571-639 | the same for a drain pass over a non-empty buffer |
| GdbStream.Answer | tools/ideviceexec.c:625-642 | the halt query `+$?#3f` is sent first, and printed output and sent messages are only added to |
| GdbStream.Continue | tools/ideviceexec.c:639-642 | going on after a packet only appends to what was printed and sent; a hang means the connection is exhausted |
| GdbStream.Launch | tools/ideviceexec.c:531-535 | the first message sent is the `A` packet for the path and argument count, and sends are only added to; a hang means the connection is exhausted |
| GdbStream.Handshake | tools/ideviceexec.c:537-546 | the acknowledgement check and the `qLaunchSuccess` query only add to the messages sent; a hang means the connection is exhausted |
| GdbStream.Resume | tools/ideviceexec.c:548-558 | the second check, `$c#63` and the receive loop only add to the messages sent; a hang means the connection is exhausted |
| StreamScan.ScanAsWritten | tools/ideviceexec.c:577-584 | iff: the as-written terminator is k exactly when k is the last `#` at index 1 or later; there is none exactly when no such `#` exists |
| StreamScan.ScanRepaired | tools/ideviceexec.c:577-584 | iff: the repaired terminator is k exactly when k is the first `#` with both checksum digits present |
| StreamScan.RepairedScanStable | tools/ideviceexec.c:577-584 | once a complete frame is found, later bytes never change which one |
| StreamScan.ScanOneFrame | tools/ideviceexec.c:577-619 | for a frame at the head of the buffer, the terminator is its `#` and the erase removes exactly that frame (k+3 bytes) |
| StreamScan.AsWrittenScanLastFrame | tools/ideviceexec.c:577-619 | as written, two buffered frames are consumed as one, at the second's `#` |
| StreamScan.AsWrittenTakesBareTerminator | tools/ideviceexec.c:577-619 | as written, a `#` in the last buffered byte counts as a frame end, and the erase then asks for more bytes than the buffer holds |
| StreamDispatch.ExitReplyReturnsCode | tools/ideviceexec.c:590-655 | a `W` reply with two hex digits ends the run with the exit code they spell |
| StreamDispatch.SignalReplyReturnsZero | tools/ideviceexec.c:597-655 | an `X` reply ends the run with 0, whatever the signal |
| StreamDispatch.StopReplyNeedsHexDigits | tools/ideviceexec.c:590-602 | a `W` or `X` whose digits are not hex fails `fromhex`'s assertion |
| StreamDispatch.OutputReplyDecodes | tools/ideviceexec.c:604-611 | the hex of an `O` reply decodes to its text |
| StreamDispatch.DrainPrints | tools/ideviceexec.c:604-626 | an `O` packet whose hex decodes is printed, erased with its trailer, and followed by the halt query |
| StreamDispatch.AnswerContinues | tools/ideviceexec.c:625-642 | an answered halt query hands over to the inner loop's condition on what is left |
| StreamDispatch.ConsoleOutputPrinted | tools/ideviceexec.c:604-639 | an `O` frame's text is printed, the frame is removed, `+$?#3f` is sent and its one-byte answer read, and the loop goes on with the rest |
| StreamDispatch.OtherPacketDropped | tools/ideviceexec.c:616-639 | any other frame is removed unprinted, with the same acknowledgement and query |
| StreamDispatch.DroppedPacketNeedsAnswer | tools/ideviceexec.c:625-634 | when the query is not answered with one byte, the run returns -1 |
| StreamDispatch.NoTerminatorReadsMore | tools/ideviceexec.c:586-589 | with no complete frame, the loop keeps the buffer and reads again (`FIN_RETRY`) |
| StreamRuns.OuterDefined | tools/ideviceexec.c:557-642 | once the flag has been assigned, the loop never reads it undefined, on any stream |
| StreamRuns.DrainDefined | tools/ideviceexec.c:571-639 | draining a non-empty buffer never reads the flag undefined |
| StreamRuns.AnswerDefined | tools/ideviceexec.c:625-642 | sending the halt query and going on never reads the flag undefined |
| StreamRuns.ContinueDefined | tools/ideviceexec.c:639-642 | continuing after a consumed frame never reads the flag undefined |
| StreamRuns.RepairedNeverUndefined | tools/ideviceexec.c:435-655 | with the flag initialised, no launch on any stream reaches an undefined read |
| StreamRuns.RepairedShortFirstReadReadsOn | tools/ideviceexec.c:561-642 | repaired, a first read of at most 4 bytes just waits for more |
| StreamRuns.HandshakeAccepted | tools/ideviceexec.c:231-239 | the scripted `+`, `$OK#9a` reply passes the check and is consumed |
| StreamRuns.FirstReadIsExit | tools/ideviceexec.c:557-655 | an exit reply read whole ends the loop with its code |
| StreamRuns.LaunchSucceeds | tools/ideviceexec.c:531-558 | when the load, both checks and the launch query succeed, the tool sends `$c#63`, reads one byte and enters the loop |
| StreamRuns.ExitScriptLaunches | tools/ideviceexec.c:531-555 | the scripted device accepts every launch step, in the order the tool sends them |
| StreamRuns.LaunchToExit | tools/ideviceexec.c:531-655 | end to end: against a device that acknowledges everything and then sends `W`, the tool sends the `A` packet, `+`, the launch query, `+` and `$c#63`, and returns the exit code |
| StreamRuns.LaunchNeedsLoadSent | tools/ideviceexec.c:531-535 | a load command sent short (under 5 bytes) makes the tool return -1 without reading anything |
| StreamRuns.EmptyConnectionHangs | tools/ideviceexec.c:561-567 | a connection that yields nothing more keeps the loop polling for ever |
| StreamRuns.OutputThenFrameOverruns | tools/ideviceexec.c:604-611 | as written, an `O` frame followed by another frame is decoded up to the second frame's `#`, which is not hex |
| GString.New | osx/gstring.c:24-43 | the new string holds the C string of the initialiser, NUL-terminated, with capacity len+1 |
| GString.NewLen | osx/gstring.c:45-60 | the new string holds the first len bytes, NUL-terminated, with capacity len+1 |
| GString.AppendC | osx/gstring.c:100-113 | a valid string gains the character, stays terminated, and keeps room for the NUL |
| GString.AppendLen | osx/gstring.c:120-133 | writes past the block exactly when len+n equals the capacity; otherwise the content gains the first n bytes and stays valid |
| GString.Prepend | osx/gstring.c:140-153 | the content becomes the C string of val followed by the old content; on growth the block is exactly len bytes, smaller than the recorded capacity |
| GString.Erase | osx/gstring.c:200-214 | n < -1 changes nothing; a position outside the string fails the assertion; the length drops by n with 64-bit `gsize` wrap-around, or becomes pos for -1 |
| GString.EraseShortTail | osx/gstring.c:208-211 | when the tail after the erased range is no longer than the range, the as-written move gives the right content |
| GString.EraseRange | osx/gstring.c:200-214 | the intended erase: fails exactly when the range leaves the string, otherwise removes it and keeps the string valid |
| GString.GSizeSub | osx/gstring.c:211 | `len -= n` on an unsigned 64-bit field subtracts, wrapping below zero |
| GString.Free | osx/gstring.c:226-238 | returns the character block unless the segment is freed, and then returns NULL |
| AfcError.StrError | src/afc_error.c:13-76 | codes without a message of their own read "unknown error" |
| AfcError.MessageCodeOfStrError | src/afc_error.c:13-76 | every message names its code back; all other codes share the unknown-error message |
| AfcError.StrErrorDistinct | src/afc_error.c:13-76 | different listed codes have different messages, none of them "unknown error" |
| AfcError.PosixErrToAfc | src/afc_error.c:78-91 | iff, per AFC code: which errno values map to permission denied, not found, no memory, I/O error, object exists (`EEXIST` and `ENOTDIR`), is a directory, and unknown |
| AfcStat.FileType | src/afc_extras.c:33-49 | the `S_IFMT` mask keeps a type field and leaves a pure type unchanged |
| AfcStat.AtollOfDecimal | src/afc_extras.c:24-57 | `atoll` reads back any printed number, negated ones too |
| AfcStat.AtollOfDigits | src/afc_extras.c:24-57 | `atoll` of a digit string is its decimal value |
| AfcStat.Atoll | src/afc_extras.c:24-57 | a negative value needs a `-` followed by a digit after the white space; blank text reads 0 |
| AfcStat.SkipSpace | src/afc_extras.c:24-57 | what `atoll` reads after its leading white space: a suffix of the input that does not start with white space |
| AfcStat.LeadingDigits | src/afc_extras.c:24-57 | the digits `atoll` reads: the longest prefix made only of decimal digits |
| AfcStat.AtollOfNegatedDigits | src/afc_extras.c:24-57 | a `-` followed by digits reads as the negated decimal value |
| AfcStat.IfmtOf | src/afc_extras.c:33-49 | a recognised `st_ifmt` name gives one of the seven file types |
| AfcStat.IfmtRoundTrip | src/afc_extras.c:33-49 | names and file types correspond one to one, in both directions |
| AfcStat.Seconds | src/afc_extras.c:50-57 | nanoseconds become whole seconds, truncated, stored 32-bit; in range, t seconds cover the given nanoseconds |
| AfcStat.Apply | src/afc_extras.c:22-63 | each known key writes its field: `st_size` and `st_blocks` the `atoll` value, `st_nlink` that value cut to a `short`, `st_ifmt` the recognised file type, `st_mtime` and `st_birthtime` the whole seconds of the nanoseconds; unknown keys and unknown file-type names change nothing |
| AfcStat.ApplyKeepsOthers | src/afc_extras.c:22-63 | a pair changes no field but its own key's |
| AfcStat.Call | src/afc_extras.c:12-70 | an info request that fails returns its code and leaves the stat buffer untouched; otherwise the result is success |
| AfcStat.DecodeSnoc | src/afc_extras.c:22-66 | the list is applied pair by pair, in order |
| AfcStat.DecodeKeepsAbsent | src/afc_extras.c:22-66 | a field whose key does not appear keeps its old value |
| AfcStat.DecodeLastWins | src/afc_extras.c:22-66 | for a repeated key, the last occurrence decides |
| AfcStat.DecodeSplit | src/afc_extras.c:22-66 | decoding two lists one after the other equals decoding their concatenation |
| AfcStat.Decode | src/afc_extras.c:22-66 | applies the pairs of an even list in order to the caller's buffer; what that means field by field is `DecodeSnoc`, `DecodeKeepsAbsent` and `DecodeLastWins` |
| AfcFts.InfoOf | src/afc_extras.c:121-129 | `.` and `..` are `DOT`; `D` only for directories; creation never yields `DP` |
| AfcFts.JoinPath | src/afc_extras.c:93-96 | the child path is the parent path, a `/` unless it already ends in one, and the name |
| AfcFts.LastByteAsRecorded | src/afc_extras.c:93 | reading `path[pathlen - 1]` is in bounds exactly when 1 <= pathlen <= length+1 |
| AfcFts.CreateEntry | src/afc_extras.c:82-134 | roots get the name as path and level 0; children get level+1 as 16-bit; as written, pathlen is left 0 for children; stat, errno, info and accpath as the code sets them |
| AfcFts.EnumerateEntry | src/afc_extras.c:136-189 | the entry is announced first; a directory as `D`, and then a failing `D` answer is returned with nothing more, a stop returns success with nothing more, and a failed listing returns its code with nothing more; a non-directory is announced once, its answer decides the result, and a stop with success becomes `OP_INTERRUPTED` |
| AfcFts.EnumerateChildren | src/afc_extras.c:156-176 | repaired, the loop stops with nothing more once an error, a non-success result or a stop is recorded |
| AfcFts.EnumeratePath | src/afc_extras.c:191-212 | the walk starts by announcing the root at level 0 under its own name |
| AfcFtsProps.WalkFacts | src/afc_extras.c:136-189 | every announced entry has a consistent kind, and dot entries appear only when asked for |
| AfcFtsProps.LoopFacts | src/afc_extras.c:156-176 | the same holds for everything announced inside a directory |
| AfcFtsProps.WalkAnnouncesRightly | src/afc_extras.c:191-212 | the whole walk announces only well-formed entries |
| AfcFtsProps.DirectoryBracketed | src/afc_extras.c:143-180 | a directory is announced `D` before its children and `DP` after them, and the `DP` answer decides the result |
| AfcFtsProps.AsWrittenLoopOfTwoFiles | src/afc_extras.c:156-179 | as written, both children of a two-file directory are visited |
| AfcFtsProps.StopsJoin | src/afc_extras.c:156-189 | a trace with no stop followed by one that stops only at its end stops only at the end of the whole |
| AfcFtsProps.RepairedWalkStops | src/afc_extras.c:136-189 | repaired, the walk of an entry ends at the first callback call that asks to stop: no call follows it, and the walk reports that call's result, a file's success turned into `OP_INTERRUPTED` |
| AfcFtsProps.RepairedLoopStops | src/afc_extras.c:156-176 | repaired, the same for the loop over a directory listing from any position |
| AfcFtsProps.RepairedPathStops | src/afc_extras.c:191-212 | repaired, a whole walk ends at the first call that asks to stop, at any depth, and reports that call's result |
| AfcFtsProps.RepairedStopsAtStop | src/afc_extras.c:156-189 | repaired, the two-file walk ends at the stop at `/a` with `OP_INTERRUPTED` |
| AfcFtsProps.AsWrittenLoopAfterA | src/afc_extras.c:156-176 | as written, the loop goes on to `/b` after the callback stopped at `/a` |
| AfcFtsProps.AsWrittenLoopIgnoresFailures | src/afc_extras.c:156-176 | as written, the recorded errors and results never change which children are visited or what the callback sees |
| AfcFtsOrder.Order | src/afc_extras.c:136-189 | the reference walk (pre-order `D`, then each listed name's walk in listing order at the parent path joined with its name, `.` and `..` left out unless `AFC_FTS_SEEDOT`, then `DP`) is never empty, opens at the entry's own path, and opens with `D` exactly for a directory |
| AfcFtsOrder.RepairedFollowsOrder | src/afc_extras.c:136-189 | repaired, when every stat and listing succeeds and the callback always succeeds without stopping, an entry's walk succeeds, does not stop, and announces exactly the reference's paths and kinds, in its order |
| AfcFtsOrder.RepairedDirFollowsOrder | src/afc_extras.c:143-180 | the same for a directory: `D`, the loop's visits in listing order, then `DP` |
| AfcFtsOrder.RepairedLoopFollowsOrder | src/afc_extras.c:156-176 | repaired, under the same conditions the loop from any position records no error and no failure, does not stop, and visits each walked name's reference walk in listing order |
| AfcFtsOrder.RepairedPathFollowsOrder | src/afc_extras.c:191-212 | repaired, under the same conditions the whole walk from the root succeeds and follows the reference |
| AfcFtsOrder.RepairedDirectoryBracketed | src/afc_extras.c:143-180 | repaired, after a `D` visit that neither fails nor stops, `DP` follows the loop exactly when the loop ended with no stop, failure or recorded error, and its answer decides the result; a stopped or failed loop ends the walk with its trace and result, a recorded error with its code |
| AfcFtsOrder.SkippedLoop | src/afc_extras.c:156-176 | a listing whose remaining names are all `.` or `..` (without `AFC_FTS_SEEDOT`) ends the loop with nothing visited, and the reference visits nothing for it |
| AfcFtsOrder.AsWrittenShallowWalk | src/afc_extras.c:136-189 | as written, a file, or a directory listing nothing to walk, is walked as the reference says |
| AfcFtsOrder.AsWrittenChild | src/afc_extras.c:92-97 | as written, a child of an entry whose `pathlen` is recorded gets the joined path, its stat and kind, and `pathlen` 0 |
| AfcFtsOrder.AsWrittenLoopFlat | src/afc_extras.c:156-176 | as written, the root's loop over a listing whose directories list nothing to walk visits each walked name's reference walk, in listing order |
| AfcFtsOrder.ZeroPathlenLoopFaults | src/afc_extras.c:93 | as written, the loop of an entry with `pathlen` 0 faults at the first name it walks |
| AfcFtsOrder.DeepDirFaults | src/afc_extras.c:143-176 | as written, a directory below the root that lists a name to walk faults |
| AfcFtsOrder.AsWrittenLoopDeepFaults | src/afc_extras.c:156-176 | as written, the root's loop faults when any directory it walks lists a name to walk |
| AfcFtsOrder.AsWrittenFlatDir | src/afc_extras.c:143-180 | as written, a root directory with nothing two levels down is walked as the reference says |
| AfcFtsOrder.AsWrittenDeepDir | src/afc_extras.c:143-180 | as written, a root directory with something two levels down faults |
| AfcFtsOrder.AsWrittenPathFollowsOrder | src/afc_extras.c:191-212 | iff: as written, under the same conditions and with a root name of 1 to 65535 bytes, the walk succeeds exactly when no directory below the root lists a name to walk, and then it follows the reference |
| AfcclPath.TrimFrom | tools/afccl.c:81-82 | the loop only removes trailing `/`, never shortens below two characters, and from the last index it clears the trailing slashes |
| AfcclPath.BuildAbsolutePath | tools/afccl.c:69-85 | fails exactly when a relative path meets an `asprintf` failure; an absolute path is kept; a relative one is joined to `cwd` (`""` for `/`); repaired, trailing slashes are removed |
| AfcclPath.SplitSlash | tools/afccl.c:95-97 | `strsep` on `/` yields at least one token, none containing `/` |
| AfcclPath.JoinSplitSlash | tools/afccl.c:95-97 | rejoining the tokens with `/` gives back the path |
| AfcclPath.Normalize | tools/afccl.c:97-113 | the reference stack of components stays free of empty, `.` and `..` entries, and draws them from the input |
| AfcclPath.NormalizeClean | tools/afccl.c:97-113 | clean components pass through unchanged |
| AfcclPath.LastSlash | tools/afccl.c:102 | `strrchr` finds the last `/`, or reports none |
| AfcclPath.DropLast | tools/afccl.c:101-107 | `..` cuts the path back to a prefix |
| AfcclPath.StepPathIsStep | tools/afccl.c:98-112 | one string step of the loop equals one stack step of the reference |
| AfcclPath.FoldIsNormalize | tools/afccl.c:97-113 | the string loop over all tokens equals the reference normaliser |
| AfcclPath.CleanseIsNormalize | tools/afccl.c:87-117 | `cleanse_path` equals the reference normaliser applied to the path's tokens |
| AfcclPath.CleanseShape | tools/afccl.c:87-117 | the result is `/` or `/`-separated components that are none of empty, `.` or `..` |
| AfcclPath.CleanseIdempotent | tools/afccl.c:87-117 | cleansing a cleansed path changes nothing |
| AfcclPath.CleanseDrawsFromInput | tools/afccl.c:97-113 | every component of the result is a token of the input |
| AfcclPath.CleanseDotDot | tools/afccl.c:101-107 | appending `/..` drops the last component, staying at `/` at the root |
| AfcclPath.StepPath | tools/afccl.c:98-112 | one pass of the `strsep` loop; `StepPathIsStep` shows it is one step of the reference normaliser |
| AfcclPath.Fold | tools/afccl.c:97-113 | the whole loop over the tokens; `FoldIsNormalize` shows it equals the reference normaliser |
| AfcclPath.Cleanse | tools/afccl.c:87-117 | `cleanse_path` started at `/`; `CleanseIsNormalize`, `CleanseShape` and `CleanseIdempotent` state what it computes |
| AfcclPath.Peak | tools/afccl.c:92-113 | the high-water mark always has room for the current string and its NUL |
| AfcclPath.PeakCoversResult | tools/afccl.c:92-113 | the high-water mark has room for the final string and its NUL |
| AfcclPath.PeakBound | tools/afccl.c:92-113 | no string the loop builds is longer than the larger of 1 and the input bytes consumed so far, so the high-water mark is at most that plus one for the NUL |
| AfcclPath.CleanseIn | tools/afccl.c:92-113 | the in-buffer run fails exactly when its high-water mark outgrows the block, and otherwise equals `Cleanse` |
| AfcclShell.CmdName | tools/afccl.c:556-584 | exactly the commands 0 to 10 and `quit` have a word |
| AfcclShell.StrToCmdOfName | tools/afccl.c:556-584 | every command is recognised from its word |
| AfcclShell.StrToCmdOnlyNames | tools/afccl.c:556-584 | iff: a string is recognised exactly when it is a command's word |
| AfcclShell.StrToCmd | tools/afccl.c:556-584 | a recognised word gives a command whose word it is; everything else is `CMD_UNKNOWN` |
| AfcclShell.InfolistGetValue | tools/afccl.c:266-278 | returns the value after the first matching key; none when no key matches; reads past the list exactly when the list is odd and no key matches |
| AfcclShell.CmdCd | tools/afccl.c:120-151 | no path means `/`; a failure keeps `cwd`; success sets `cwd` to the cleansed absolute path, which the device accepted |
| AfcclShell.CmdCdKeepsCwdClean | tools/afccl.c:120-151 | a clean current directory stays clean after any `cd` |
| AfcclShell.CmdCdUp | tools/afccl.c:120-151 | `cd ..` goes to the parent directory, and stays at `/` at the root |
| AfcclTokenizer.Step | tools/afccl.c:609-665 | one pass of the state machine keeps the scan invariant, makes progress, and never rewrites output or earlier argv entries |
| AfcclTokenizer.Run | tools/afccl.c:609-665 | the scan reaches the end of the input and keeps what was already written |
| AfcclTokenizer.Tokenize | tools/afccl.c:590-676 | a NULL or empty line gives no words; any other line is refused exactly when the scan ends inside quotes |
| AfcclTokenizer.WordRest | tools/afccl.c:624-647 | the reference reading of the rest of a word: white space or the end of the line ends it, a backslash takes the next byte as it is, a quote goes on inside quotes; it always moves on and yields no NUL |
| AfcclTokenizer.QuoteRest | tools/afccl.c:649-660 | the reference reading inside quotes: a quote goes back to the word, `\"` is a quote, any other byte is kept; it fails when the line ends first |
| AfcclTokenizer.Words | tools/afccl.c:590-676 | the reference splitter: white space between words is skipped, and no word holds a NUL |
| AfcclTokenizer.IdleAgrees | tools/afccl.c:609-665 | from any idle state of the scan, the rest of the scan refuses exactly when the reference does, and otherwise the new word pointers hold the reference's words |
| AfcclTokenizer.WordAgrees | tools/afccl.c:624-647 | the same from any state inside a word, the word so far included |
| AfcclTokenizer.QuoteAgrees | tools/afccl.c:649-660 | the same from any state inside quotes |
| AfcclTokenizer.TokenizeIsWords | tools/afccl.c:590-676 | repaired, every NUL-free line splits exactly as the reference splits it, refusals included |
| AfcclTokenizer.EndsInWord | tools/afccl.c:624-665 | the scan ends inside a word, with no NUL written for the last word, only if the line's last byte is a quote |
| AfcclTokenizer.AsWrittenIsWords | tools/afccl.c:590-676 | as written, the same as the reference for every NUL-free line whose last byte is not a quote |
| AfcclTokenizer.TokenizeRefuses | tools/afccl.c:667-671 | iff: a line is refused exactly when the reference finds a quote left open, under either policy |
| AfcclTokenizer.PlainWords | tools/afccl.c:609-647 | on a line without quotes or backslashes the reference is plain splitting at white space |
| AfcclTokenizer.TokenizePlain | tools/afccl.c:590-676 | a line without quotes or backslashes splits into exactly its whitespace-separated words, under either policy |
| AfcclTokenizer.StepIdle | tools/afccl.c:613-622 | idle: whitespace is skipped; any other character opens a word at the output pointer |
| AfcclTokenizer.WordRestOrdinary | tools/afccl.c:639-646 | bytes with no meaning to the scanner go into the word unchanged |
| AfcclTokenizer.QuoteRestPlain | tools/afccl.c:655-659 | inside quotes, bytes other than quotes and backslashes, white space included, go into the word unchanged |
| AfcclTokenizer.QuoteRestUnclosed | tools/afccl.c:649-671 | inside quotes with no quote ahead, the reading fails |
| AfcclTokenizer.TokenizeEscape | tools/afccl.c:637-641 | for any ordinary texts `a`, `b` and any byte `c`, a space or a quote too, the line `a\cb` is the one word `acb` |
| AfcclTokenizer.TokenizeQuoted | tools/afccl.c:649-660 | for any ordinary texts `a`, `b` and any quoted text `q`, white space included, the line `a"q"b` is the one word `aqb` |
| AfcclTokenizer.TokenizeUnterminated | tools/afccl.c:667-671 | for any plain text `a` and any text `q` without a quote, the line `a"q` is refused under either policy |
| AfcclLegacy.StrError | tools/afccl/afccl.c:44-107 | codes without a message read "unknown error" |
| AfcclLegacy.StrErrorAgrees | tools/afccl/afccl.c:44-107 | the older shell's message table is the library's, code for code |
| AfcclLegacy.StrErrorNamesCode | tools/afccl/afccl.c:44-107 | each listed code's message names that code back |
| AfcclLegacy.CmdName | tools/afccl/afccl.c:391-413 | exactly the nine command words have a command |
| AfcclLegacy.StrToCmdOfName | tools/afccl/afccl.c:391-413 | every command is recognised from its word |
| AfcclLegacy.StrToCmdOnlyNames | tools/afccl/afccl.c:391-413 | iff: a string is recognised exactly when it is a command word; `pwd` is not one |
| AfcclLegacy.StrToCmd | tools/afccl/afccl.c:391-413 | a recognised word gives a command whose word it is; everything else is `CMD_INTERACTIVE` |
| AfcclLegacy.CmdCd | tools/afccl/afccl.c:144-171 | no path is an invalid argument; a join failure is an internal error; a failure keeps `cwd`; success sets `cwd` to the joined path |
| AfcclLegacy.CmdCdKeepsDotDot | tools/afccl/afccl.c:144-171 | unlike the newer shell, `cd ..` leaves `/..` in the current directory |
| AfcclLegacy.DoCmd | tools/afccl/afccl.c:420-455 | only `cd` changes `cwd`; interactive and `cp` are refused; the device commands return their own result; unknown numbers give -1 |
| AfcclLegacy.UnknownWordRefused | tools/afccl/afccl.c:391-455 | a word that is no command reaches the interactive case and is refused |

## Left out

- The device transport (`idevice_connect`, sockets, lockdown and the debug-server start-up) is not modelled. The connection is the scripted `Link`.
- `get_app_path`, device selection and command-line parsing in `main` of tools/ideviceexec.c are left out; the app path and argument count are parameters.
- The extra launch arguments are not modelled: `gdb_send_a_packet` only ever encodes the path.
- Debug printing, `warn`/`warnx` and `afc_warn` are left out, because they only write diagnostics.
- The thin AFC command wrappers of tools/afccl.c are left out because they only call the device: `cmd_ls`, `cmd_mkdir`, `cmd_ln`, `cmd_rm`, `cmd_mv`, `cmd_cat`, `cmd_stat`, `remove_path` and `cmd_pwd`. In the older shell these are the `run` oracle of `AfcclLegacy.DoCmd`.
- `do_cmd` of tools/afccl.c is left out for the same reason. `cmd_cp` is modelled through `AfcclLegacy.DoCmd` only: it refuses in both shells.
- `cmd_loop`, readline and history are left out, because they are interactive I/O. This includes the loop guard at tools/afccl.c:720.
- The g_string functions that only `assert(FALSE)` are left out, and so is the `cf_string` code that is commented out.
- Allocation failures are not modelled, apart from `asprintf` in `build_absolute_path` and the out-of-bounds writes the model tracks.
- AfcStat.Call: requires an even-length list on success. An odd list makes the source pass `NULL` to `atoll`, and that case is not modelled.
- AfcStat.AtollOfDecimal: `atoll` overflow beyond 64 bits is not modelled.
- afc.h and the libimobiledevice library itself are not part of this model. The device's answers to `afc_get_file_info` and `afc_read_directory` are parameters: `lookup`, the directory tree `Node`, and the stat results.
- The `fts` walk's `chdir` and the error-printing callback are left out. The callback is a parameter.
- GdbStream.Consume: models the glib `g_string_erase` the tool links outside OS X, which drops the first n bytes and refuses when n is too large. osx/gstring.c's own erase is modelled separately by `GString.Erase`.

- GdbStream.LastHashFrom: the scan at tools/ideviceexec.c:580-581 reads `*idx` for every `idx` up to `str + 1 + len`, so its last read is `str[len + 1]`, one byte past the NUL. That read lands outside the block when the allocation is exactly `len + 1`. The model reads `buf[k]` only where the bound test would pass, so this over-read is not modelled.
- AfcFts.EnumerateEntry: with `AFC_FTS_SEEDOT`, the C creates an entry for `.`, which a device reports as the directory itself. `_afc_fts_enumerate_entry` then recurses into `path/.` without end unless the callback stops it. The model's directory tree is finite and a `.` child is a separate node, so the walk always terminates and this endless recursion is not modelled.
- GdbPacket.APacket: `sprintf(args, "%u", argc - 1)` at tools/ideviceexec.c:198 writes into `char args[10]`. For `argc - 1 == -1` it prints `4294967295`, ten digits and a NUL, one byte past the array. The model computes the digits with `U32` but records no fault for this write.
- AfcFtsProps.RepairedWalkStops: a stop at a file reports `OP_INTERRUPTED`, as src/afc_extras.c:183-184 does, not the `AFC_E_SUCCESS` that the comment at src/afc_extras.h:76 promises for a stopped enumeration. A stop at a directory's `D` visit reports success, as line 148 does.
- AfcclTokenizer.AsWrittenIsWords: covers only lines whose last byte is not a quote. A line ending in an escaped `\"` is scanned as in the repaired code but is not covered. A line ending in a closing quote is the finding below.
- AfcclTokenizer.TokenizeEscape: for the as-written code, a line that ends in `\"` is not covered, for the reason given for `AsWrittenIsWords`.
- AfcclTokenizer.TokenizeQuoted: a `\"` inside quotes is stated only through `QuoteRest` and `TokenizeIsWords`, not by a lemma of this shape.

## Findings

| source | as written | input that shows it | evidently intended | confidence | as-written member | corrected member |
|---|---|---|---|---|---|---|
| tools/ideviceexec.c:580-584 | `end = in + len` lies one past the last byte, so `idx + 2 <= end` accepts a `#` whose checksum digits have not arrived | buffer `$O41#`, then `b4` arrives | a frame ends only when both checksum digits are buffered | not executed | StreamRuns.AsWrittenReprintsIncompleteFrame | StreamRuns.RepairedWaitsForDigits |
| tools/ideviceexec.c:580-584 | the scan keeps the last `#`, so two frames read together are consumed as one | a dropped frame followed in the same read by `$W2a#..` | each frame is handled in order, the first complete one first | not executed | StreamRuns.AsWrittenSwallowsExitReply | StreamRuns.RepairedReachesExitReply |
| tools/ideviceexec.c:604-611 | the `O` payload length runs to the last `#`, into the next frame | console output followed by an exit reply in one read | decode only the `O` frame's own hex | not executed | StreamRuns.AsWrittenAbortsOnOutputThenFrame | StreamRuns.RepairedPrintsThenExits |
| tools/ideviceexec.c:435 | `fin` is read by the loop condition without ever being assigned | a first read of 1 to 4 bytes | `fin` starts as `FIN_NO` | not executed | StreamRuns.AsWrittenShortFirstReadUndefined | StreamRuns.RepairedNeverUndefined |
| osx/gstring.c:122 | the buffer grows only when `len + n > allocated_len`, so the NUL lands one past the block | appending `b` to `g_string_new("a")` | grow when `len + n >= allocated_len` | not executed | GString.AppendLenFillsBlock | GString.AppendLenRepaired |
| osx/gstring.c:144-150 | the realloc is `len + strlen(val)` bytes with no room for the NUL, the capacity is recorded as larger, and no NUL is written | prepending `a` to `g_string_new("b")` | keep room for the terminator and move it too | not executed | GString.PrependLosesTerminator | GString.PrependRepaired |
| osx/gstring.c:210 | the erase moves `len` bytes, not the tail after the range | erasing 1 byte at 0 from `abc` gives `bb` | move the whole tail with its NUL | not executed | GString.EraseKeepsStaleByte | GString.EraseRepaired |
| osx/gstring.c:210-211 | the tail's NUL is not moved when the tail is no shorter than the range | erasing 1 byte at 1 from `abc` | the string stays NUL-terminated | not executed | GString.EraseLosesTerminator | GString.EraseRepaired |
| osx/gstring.c:210 | the move reads `len` bytes past the erased range, beyond the block | erasing 3 bytes at 0 from `abcd` | read only the tail inside the string | not executed | GString.EraseReadsPastBlock | GString.EraseRepaired |
| tools/afccl.c:81-82 | the loop starts at `strlen(path)`, the NUL, so it never removes a trailing `/` | `cd /var/` | start at the last character | not executed | AfcclPath.AsWrittenKeepsTrailingSlash | AfcclPath.RepairedClearsTrailingSlash |
| tools/afccl.c:92 | `malloc(strlen(inpath))` leaves no room for the terminator of a path that is already clean | `/a` | allocate room for the result and its NUL | not executed | AfcclPath.AsWrittenCleanseOverruns | AfcclPath.RepairedCleanseFits |
| tools/afccl.c:649-653 | a closing quote at the end of input `continue`s past the check that terminates the word | `x"y"` | the last word is NUL-terminated | not executed | AfcclTokenizer.AsWrittenQuoteAtEndUnterminated | AfcclTokenizer.RepairedQuoteAtEndTerminated |
| src/afc_extras.c:93 | `pathlen` is set only for the root, so a grandchild reads `path[-1]` | walking a directory inside a directory | record `pathlen` for every entry | not executed | AfcFtsProps.AsWrittenGrandchildFaults | AfcFtsProps.RepairedGrandchildPath |
| src/afc_extras.c:165 | the loop guard's second alternative `stop == false` is always true, so a callback's stop and earlier failures are ignored | a callback that stops at `/a` in a directory of `/a`, `/b` | leave the loop once a visit fails or asks to stop, and end the whole walk at a stop | not executed | AfcFtsProps.AsWrittenLoopAfterA | AfcFtsProps.RepairedPathStops |
