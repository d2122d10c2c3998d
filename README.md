# cati: Kitty graphics protocol detection and chunked image transfer

cati shows images in the terminal. Before it sends an image, it asks the terminal whether it speaks the
Kitty graphics protocol. The question goes out as an APC string, and the answer is recognised by a marker
in the reply. The repository holds three versions of that detection routine:
`smaller_kitty.c`, `kitty.c` and the Rust crate (`src/kitty.rs` over `src/termios.rs`).
`smaller_kitty.c` also holds the transfer side: a base64 encoder
(the encoding of section 4 of RFC 4648), a serializer for one graphics command, and a writer that cuts the
encoded image into 4096-character chunks flagged `m=1` / `m=0`. `src/main.rs` parses the command line and
runs the Rust detection.

The detection routines and the termios helpers work by changing the terminal step by step. The model
gives the terminal as a value:
`Device.Tty` holds the line discipline, the file-status flags, and a scripted kernel and terminal.
The script says which `tcgetattr`/`tcsetattr`/`fcntl` calls fail, what each `select` reports, and what
each `read` delivers. A log records every change to the device, every write and every `select` budget.
Each system call is a function from that value to the new value and the call's result. Each routine
that loops or fills a buffer is then written twice:

- a specification function (`Detect`, `Loop`, `IsKitty`, `Encode`, `Frames`) that the lemmas talk about;
- the routine itself as a `method`, with the source's loop, buffer (`array<byte>`) and early returns,
  proved equal to that function.

The command line of `src/main.rs` has no loop of its own (`filter` and `collect` over the arguments), so
`Cli.Parse` and `Cli.Run` are functions only.

The project has these modules: `Common`, `Device`, `Marker` (the two reply markers and the scans),
`CSession` (steps shared by the two C programs), `SmallerKitty`, `KittyC`, `RawTerminal`
(`src/termios.rs`), `KittyRs`, `Cli` (`src/main.rs`), `Base64` and `Chunked`.

Where the code misbehaves, the model keeps the code as written. Beside it, the model gives the
evidently intended behaviour, so that both can be stated: through a switch (`Marker.Scan`, `KittyRs.Slice`), or through
a separate corrected function beside the one as written (`Chunked.IntendedFrames`, and
`SmallerKitty.LoopEofEnds`, the select/read loop that ends on end of file); see "## Findings".

## Model

| member | source | states |
|---|---|---|
| Device.MakeRaw | src/termios.rs:74-78 | the raw copy clears exactly ICANON and ECHO in `c_lflag`, sets VMIN to 0 and VTIME to 1, and leaves every other field and control character as it was |
| Device.RawCopy | smaller_kitty.c:44-47 | copying the saved attributes and changing them field by field gives exactly the raw copy |
| Device.TcGetAttr | smaller_kitty.c:38-41 | `tcgetattr` succeeds exactly when the device allows it and returns the current attributes; a failure changes only errno |
| Device.TcSetAttr | smaller_kitty.c:49-52 | `tcsetattr` succeeds exactly when allowed, installs the attributes and logs the change; a failure changes only errno |
| Device.GetFl | smaller_kitty.c:55 | `F_GETFL` returns the current flags, or EBADF changing only errno |
| Device.SetFl | smaller_kitty.c:56 | `F_SETFL` installs the flags and logs them, or fails with EBADF changing only errno |
| Device.Write | smaller_kitty.c:59 | a write adds exactly its bytes to what the terminal has received |
| Device.Select | src/kitty.rs:58-64 | select logs its budget and changes neither attributes, flags nor input; it consumes a scripted outcome when it reports input; a failure sets errno |
| Device.Read | smaller_kitty.c:74-75 | a read delivers at most the count asked for, taken from the front of what is pending (the rest stays pending); a failure sets errno and consumes no bytes |
| Device.ReadInto | smaller_kitty.c:74-75 | reading into `buf[start..]` returns -1 or the count read, stores exactly the bytes `Read` delivers there, and leaves the rest of the buffer alone |
| Device.Drain | smaller_kitty.c:115-116 | the drain loop changes neither attributes, flags, faults, waits nor the log |
| Device.DrainEmpties | smaller_kitty.c:115-116 | when the terminal sends only bytes (no end of file, no error), draining leaves nothing pending |
| Device.DrainOfSilentTerminal | src/kitty.rs:160-168 | with nothing pending the drain reads once, gets EAGAIN and stops |
| Device.DrainInput | src/kitty.rs:160-168 | the drain loop over a buffer ends in the state `Drain` describes |
| Marker.ScanForMarker | smaller_kitty.c:88-96 | the hand-written scan returns true exactly when `_Gi` starts at some `i < total - 3` |
| Marker.ScanForMarkerFixed | smaller_kitty.c:88-96 | the scan with the bound corrected returns true exactly when `_Gi` occurs anywhere in the bytes read |
| Marker.ScanMissesOnlyTheEnd | src/kitty.rs:133-139 | the scan as written sees a marker exactly when one lies within all but the last byte received |
| Marker.ScanFindsOnlyMarkers | smaller_kitty.c:88-96 | whatever the scan reports is a real `_Gi` |
| Marker.TrailingMarkerMissed | smaller_kitty.c:89 | the three bytes `_Gi` contain a marker that the scan as written does not report |
| Marker.ReplyAtEndFound | kitty.c:64-67 | `memmem` finds `_Gi=` wherever it lies, the last four bytes included |
| Marker.ReplyImpliesMarker | kitty.c:64-67 | `_Gi=` implies `_Gi`, but not the other way round |
| Marker.QueryShape | smaller_kitty.c:59 | the query is a 35-byte APC string: `ESC _`, a command starting with `G`, then `ESC \` |
| Marker.OkReplyRecognised | kitty.c:64-67 | the reply of a supporting terminal, `ESC _Gi=31;OK ESC \`, is recognised by both scans and by `memmem` |
| CSession.SavedFlags | smaller_kitty.c:55 | the saved flags are those F_GETFL returned, or all ones (-1) when it failed, since the result is not checked |
| CSession.Queried | smaller_kitty.c:44-59 | after raw mode and the query, the attributes are the raw copy and the flags have O_NONBLOCK added to the saved flags, unless F_SETFL fails; script and faults are untouched |
| CSession.RestoreLog | smaller_kitty.c:119-120 | restoring puts the attributes back, then the flags when they can be set, and writes and waits for nothing |
| CSession.RestoreTail | smaller_kitty.c:119-120 | restoring keeps the earlier log and ends it with the saved attributes followed by the saved flags (or only the attributes when F_SETFL fails) |
| CSession.QueriedAppends | smaller_kitty.c:49-59 | entering raw mode and querying appends the raw copy, the non-blocking flags when they can be set, and the one write |
| CSession.QueriedLog | smaller_kitty.c:49-59 | entering raw mode and querying makes the raw copy the first change, writes only the query, and waits for nothing |
| SmallerKitty.Turn | smaller_kitty.c:72-112 | one turn of the loop either stops with the outcome of the whole loop, retries with the same budget after EAGAIN, or continues with the 50 ms budget after bytes that neither contain the marker nor fill the buffer |
| SmallerKitty.AwaitReply | smaller_kitty.c:62-112 | the select/read loop over the 256-byte buffer ends as the loop function does from an empty reply and 500 ms |
| SmallerKitty.DetectKittyGraphicsProtocol | smaller_kitty.c:30-123 | the routine returns the support verdict and leaves the device in the state `Detect` describes with the scan as written |
| SmallerKitty.QueryTerminal | smaller_kitty.c:54-120 | from raw mode on, the routine ends as `RawSession` says |
| SmallerKitty.AwaitAndRestore | smaller_kitty.c:62-120 | the loop, the drain and the restoring end as `Exchange` says |
| SmallerKitty.LoopConserves | smaller_kitty.c:72-112 | the loop touches neither attributes, flags nor what was written; the bytes it holds plus those still pending are what was pending before; it holds at most 255 bytes |
| SmallerKitty.LoopExtendsLog | smaller_kitty.c:72-112 | the loop only appends to the log, at least one wait |
| SmallerKitty.LoopReportsScan | smaller_kitty.c:88-105 | the loop reports support exactly when the scan sees the marker in the bytes it received |
| SmallerKitty.LoopBudgets | smaller_kitty.c:65-111 | the first select waits the given budget and every later one waits that budget or 50 ms |
| SmallerKitty.LoopKeepsOnlyData | smaller_kitty.c:72-112 | when the terminal sends only bytes, the loop leaves only bytes pending |
| SmallerKitty.NoTerminalNoProbe | smaller_kitty.c:38-52 | when the attributes cannot be read or set, the routine reports no support, sends nothing and changes only errno |
| SmallerKitty.DetectIsExchange | smaller_kitty.c:30-123 | past raw mode, the routine is the exchange started from the queried device state, with the saved attributes and flags |
| SmallerKitty.DetectWritesAndRestores | smaller_kitty.c:44-120 | the 36-byte query (NUL included) is the only thing written; the first change is the raw copy; the device ends with the saved attributes and then the saved flags |
| SmallerKitty.ExchangeLog | smaller_kitty.c:62-120 | the exchange only appends to the log, writes nothing, and ends with the saved attributes and then, when settable, the saved flags |
| SmallerKitty.DetectReportsScan | smaller_kitty.c:72-112 | support is reported exactly when the scan sees the marker in the bytes received; those bytes are a prefix of what the terminal sent, at most 255 of them |
| SmallerKitty.DetectDrainsReply | smaller_kitty.c:115-116 | when the terminal sends only bytes, nothing of its reply is left pending after the routine |
| SmallerKitty.DetectBudgets | smaller_kitty.c:65-111 | the first select waits 500 ms and every later one 500 or 50 ms |
| SmallerKitty.FirstReplyDetected | smaller_kitty.c:72-105 | a first read that delivers a reply the scan recognises is reported as support, with exactly that reply received |
| SmallerKitty.FirstReadDetected | smaller_kitty.c:72-105 | from nothing received, the loop stops on such a first read with that reply |
| SmallerKitty.OkReplyDetected | smaller_kitty.c:88-105 | a terminal answering at once with the OK reply is detected |
| SmallerKitty.CutReplyMissed | smaller_kitty.c:89 | a reply ending right after `_Gi` is not detected as written, and is detected with the scan bound fixed |
| SmallerKitty.RetriedAfterEagain | smaller_kitty.c:77-83 | a read failing with EAGAIN is retried, and the OK reply that follows is detected |
| SmallerKitty.LoopRetries | smaller_kitty.c:77-83 | a ready select followed by an EAGAIN read sends the loop round again with the same budget, one wait and one input consumed |
| SmallerKitty.HungUpTerminalSpins | smaller_kitty.c:77-80 | once errno holds EAGAIN, a terminal whose every select reports input and every read returns 0 keeps the loop going with the same budget for as many turns as select answers (`k + 1` waits for any `k`), receiving nothing |
| SmallerKitty.HungUpTerminalEndsLoop | smaller_kitty.c:77-82 | with the retry limited to reads that fail with EAGAIN, a read that returns 0 ends the loop after that one select, reporting no support |
| SmallerKitty.LoopEofEndsAgrees | smaller_kitty.c:72-112 | the corrected loop ends exactly as the loop as written on every terminal that never signals end of file |
| KittyC.DetectKittyGraphicsProtocol | kitty.c:11-86 | the routine returns the verdict and the device state `Detect` describes |
| KittyC.QueryTerminal | kitty.c:35-83 | from raw mode on, the routine ends as `RawSession` says |
| KittyC.Turn | kitty.c:52-79 | one turn either stops with the outcome of the whole loop, or continues with 50 ms after bytes that neither contain `_Gi=` nor fill the 256-byte buffer |
| KittyC.AwaitReply | kitty.c:43-79 | the select/read loop ends as the loop function does from an empty reply and 500 ms |
| KittyC.LoopConserves | kitty.c:52-79 | the loop touches neither attributes, flags nor what was written; held plus pending bytes are what was pending; it holds at most 256 bytes |
| KittyC.LoopReportsReply | kitty.c:64-72 | the loop reports support exactly when `_Gi=` occurs in the bytes it received |
| KittyC.LoopBudgets | kitty.c:44-78 | the loop waits once per turn: the given budget on the first select and 50 ms on every later one |
| KittyC.DetectBudgets | kitty.c:44-83 | past raw mode, the first select waits 500 ms and every later one 50 ms |
| KittyC.DetectIsExchange | kitty.c:11-86 | past raw mode, the routine is the exchange started from the queried device state |
| KittyC.NoTerminalNoProbe | kitty.c:19-33 | without readable, settable attributes the routine gives up at once, changing only errno |
| KittyC.DetectReportsReply | kitty.c:52-79 | support is reported exactly when `_Gi=` is in the bytes received, a prefix of what was sent, at most 256 bytes |
| KittyC.DetectWritesAndRestores | kitty.c:35-83 | the 35-byte query (no NUL) is the only thing written, and the device ends with the saved attributes, then the saved flags |
| KittyC.OkReplyDetected | kitty.c:64-67 | the OK reply sent at once is detected |
| KittyC.EagainEndsTheLoop | kitty.c:57-59 | a read failing with EAGAIN ends the loop, so the OK reply that follows is missed |
| KittyC.RestOfReplyLeftPending | kitty.c:79-83 | nothing is drained: after a first read that holds the marker, the rest of the reply is still pending |
| KittyC.ProgramReports | kitty.c:88-98 | `main` returns 0, and prints the supported line exactly when support was detected |
| RawTerminal.DisplayDistinguishes | src/termios.rs:25-32 | the two error messages differ exactly when the errors do |
| RawTerminal.RawMode | src/termios.rs:68-86 | `TCGettAttr` when the attributes cannot be read (nothing set); `TCSetAttr` when the raw copy cannot be installed; otherwise the raw copy is installed and the original returned |
| RawTerminal.SetTermiosRawMode | src/termios.rs:68-86 | the step-by-step routine gives what `RawMode` gives |
| RawTerminal.RestoreTermios | src/termios.rs:54-61 | restore succeeds exactly when the attributes can be set and then installs exactly the saved ones |
| RawTerminal.RawModeUndone | src/termios.rs:54-86 | raw mode undone with the value it returned gives back the device as it was, with two attribute changes logged |
| RawTerminal.Nonblocking | src/termios.rs:37-46 | `set_nonblocking` fails, changing only errno, exactly when the flags cannot be read or cannot be set; otherwise it installs them with O_NONBLOCK and returns the original |
| RawTerminal.SetNonblocking | src/termios.rs:37-46 | the step-by-step routine gives what `Nonblocking` gives |
| RawTerminal.InsertSetsOnlyNonblock | src/termios.rs:42 | inserting O_NONBLOCK sets that bit and leaves every other bit unchanged |
| RawTerminal.RestoreFlags | src/termios.rs:49-52 | restore succeeds exactly when the flags can be set and installs exactly the given ones |
| RawTerminal.NonblockingUndone | src/termios.rs:37-52 | non-blocking mode undone with the flags it returned gives back the device as it was |
| KittyRs.FdSet.constructor | src/kitty.rs:51 | a new descriptor set is empty |
| KittyRs.InsertFdIntoSet | src/kitty.rs:36-47 | a negative descriptor is refused and the set left alone; any other is added and true returned |
| KittyRs.ReadOutcome | src/kitty.rs:50-87 | EBADF without a select for a negative descriptor; otherwise one logged wait; bytes come from the front of what is pending and at most the count asked for; a timeout, EAGAIN or error consumes no bytes |
| KittyRs.ReadWithTimeout | src/kitty.rs:50-87 | reading into `buf[start..]` returns the outcome `ReadOutcome` describes, with the bytes in place and the rest of the buffer untouched |
| KittyRs.WindowLength | src/kitty.rs:122 | the slice as written is `255 - 2*total` long; the intended window reaches byte 255 |
| KittyRs.IsKittyProtocolSupported | src/kitty.rs:89-188 | the routine returns the verdict, the device state and the panic that `IsKitty` describes with the slice as written |
| KittyRs.AwaitAndRestore | src/kitty.rs:111-179 | the loop, and unless it panicked the drain and both restores, end as `Exchange` says |
| KittyRs.ReadTurn | src/kitty.rs:118-128 | one read into the slice as written either ends the loop with what was received or hands the new bytes to the scan, as the loop function does |
| KittyRs.Turn | src/kitty.rs:118-147 | one turn either stops with the outcome of the whole loop or continues with 50 ms |
| KittyRs.AwaitReply | src/kitty.rs:111-158 | the `'read_loop` returns the verdict, state and panic of the loop function with the slice as written |
| KittyRs.LoopConserves | src/kitty.rs:118-158 | the loop touches neither attributes, flags, faults nor what was written |
| KittyRs.LoopReceives | src/kitty.rs:118-158 | the loop holds at most 255 bytes; held plus pending bytes are what was pending |
| KittyRs.LoopReportsScan | src/kitty.rs:133-144 | support is reported exactly when the scan finds `_Gi` in the bytes held |
| KittyRs.LoopPanics | src/kitty.rs:122 | the loop panics only with the slice as written, only after more than 127 bytes, and never while reporting support |
| KittyRs.LoopPanicsExactly | src/kitty.rs:118-158 | with the slice as written the loop panics exactly when it ends holding 128 to 254 bytes without a marker: every such run panics, and no other |
| KittyRs.LoopBudgets | src/kitty.rs:111-147 | one wait per turn: the given budget first, 50 ms after; no wait at all when the slice panics at once |
| KittyRs.Prepared | src/kitty.rs:95-108 | on a terminal with no faults, raw mode, non-blocking mode and the query leave the raw copy, the non-blocking flags and the three logged events |
| KittyRs.PreparedLog | src/kitty.rs:95-108 | getting ready writes exactly the query and waits for nothing |
| KittyRs.IsKittyIsExchange | src/kitty.rs:89-188 | on a terminal with no faults the routine is the exchange from the prepared state |
| KittyRs.RawModeFailureProbesNothing | src/kitty.rs:182-185 | when raw mode cannot be set, the routine reports no support, sends nothing and changes only errno |
| KittyRs.NonblockingFailureRestoresAttributes | src/kitty.rs:174-179 | when non-blocking mode fails, no query is sent, raw mode is undone and the flags are left alone |
| KittyRs.IsKittyRestores | src/kitty.rs:160-179 | the query is written once; without a panic the routine ends by restoring the flags and then the attributes; after a panic the terminal stays raw and non-blocking |
| KittyRs.IsKittyReportsScan | src/kitty.rs:118-158 | support is reported exactly when the scan finds `_Gi` in the bytes held, a prefix of what was sent, at most 255 bytes |
| KittyRs.IsKittyBudgets | src/kitty.rs:111-147 | the first wait is 500 ms and every later one 50 ms |
| KittyRs.IntendedNeverPanics | src/kitty.rs:122 | with the intended window the routine never panics |
| KittyRs.IsKittyPanicsExactly | src/kitty.rs:118-185 | on a terminal with no faults the routine as written panics exactly when its loop ends holding 128 to 254 bytes without a marker |
| KittyRs.LongReplyPanics | src/kitty.rs:122 | a 128-byte first read without a marker makes the slice as written panic; the intended window reads on and restores the terminal |
| KittyRs.OkReplyDetected | src/kitty.rs:133-139 | the OK reply sent at once is detected, with either window |
| KittyRs.EagainEndsTheLoop | src/kitty.rs:149-156 | EAGAIN counts as a timeout: the loop ends and the OK reply that follows is missed |
| Cli.Files | src/main.rs:26-31 | the files are exactly the arguments that do not start with `--`, and there are no more of them than arguments |
| Cli.FilesAppend | src/main.rs:26-31 | filtering a concatenation filters each part, so the files keep the order they were given in |
| Cli.FilesKeepsNonFlags | src/main.rs:26-31 | when no argument is a flag, every argument is a file |
| Cli.Parse | src/main.rs:16-38 | parsing fails with "Not enough arguments" exactly when no argument after the program name is a file; `ascii` holds exactly when `--ascii` is among the arguments; the files are the non-flag arguments |
| Cli.Run | src/main.rs:41-60 | a parse error or `--ascii` ends the run before the terminal is touched; otherwise the probe runs, its panic ends the program, and the file count is reported |
| Cli.ExitStatuses | src/main.rs:62-72 | the program exits with 1 exactly when no file is named, and then leaves the terminal alone; it exits with 0 exactly when parsing succeeds without `--ascii` and the probe does not panic |
| Cli.AsciiPanics | src/main.rs:44-46 | `--ascii` with a file panics before the terminal is touched |
| Cli.FlagsBetweenFilesDropped | src/main.rs:26-31 | a flag between two files is dropped and both files are kept in order |
| Base64.TableIsAlphabet | smaller_kitty.c:126-127 | entry `v` of the table is the character RFC 4648 assigns to `v` |
| Base64.AlphabetInverse | smaller_kitty.c:126-127 | every table character is in the alphabet and stands for its own index |
| Base64.Encode | smaller_kitty.c:129-152 | the encoding has length `4 * ceil(n / 3)` |
| Base64.PaddingShape | smaller_kitty.c:146-149 | exactly the last 0, 2 or 1 characters (for `n % 3` = 0, 1, 2) are `=` and all before them are alphabet characters |
| Base64.PaddingFieldIsZero | smaller_kitty.c:146-149 | every position the padding overwrites held a zero field, so no data bits are lost |
| Base64.EncodedCharValue | smaller_kitty.c:133-144 | the character at field `f` of group `g` stands for the six bits `f` of that group's 24-bit value |
| Base64.GroupValueOfEncode | smaller_kitty.c:133-144 | the four characters of a group recombine into the group's 24-bit value |
| Base64.DecodedByteOfEncode | smaller_kitty.c:133-144 | decoding the encoding gives back every input byte at its position |
| Base64.DecodeEncode | smaller_kitty.c:129-152 | decoding the encoding of any byte sequence gives it back |
| Base64.EncodeInjective | smaller_kitty.c:129-152 | different inputs have different encodings |
| Base64.EncodeAppend | smaller_kitty.c:129-152 | an input whose length is a multiple of 3 encodes independently of what follows it |
| Base64.EncodeGroup | smaller_kitty.c:134-143 | one turn of the encoding loop writes the four characters of group `g` and leaves every other cell alone |
| Base64.EncodeInto | smaller_kitty.c:129-152 | the routine returns the encoded length and fills exactly that much of the buffer with the encoding, leaving the rest untouched |
| Chunked.ParseSerialize | smaller_kitty.c:155-166 | a serialized command parses back to its control data and payload whenever the control data has no `;` |
| Chunked.FramesClosedForm | smaller_kitty.c:186-200 | the loop emits `ceil(n / 4096)` frames, frame `k` carrying characters `4096k` up to `4096(k+1)` or the end |
| Chunked.PayloadsFrom | smaller_kitty.c:186-200 | the payloads from any offset concatenate to the rest of the encoded text |
| Chunked.PayloadsReassemble | smaller_kitty.c:186-200 | the payloads of all frames concatenate to exactly the encoded image |
| Chunked.ChunkSizes | smaller_kitty.c:187-188 | every payload is non-empty and at most 4096 characters, and all but the last are exactly 4096 |
| Chunked.ContinuationFlags | smaller_kitty.c:189-195 | only the first command carries the parameters, and only the last says `m=0` |
| Chunked.TwoFramesFor6144Bytes | smaller_kitty.c:169-203 | 6144 bytes are sent as two full frames, `params,m=1` then `m=0` |
| Chunked.EmptyInputEmitsNoFrame | smaller_kitty.c:186 | an empty image produces no frame at all |
| Chunked.IntendedFramesShape | smaller_kitty.c:186-200 | the intended transfer always has a frame: the first carries the parameters, only the last says `m=0`, and the payloads reassemble the text |
| Chunked.IntendedEmptyTransfer | smaller_kitty.c:186-200 | the intended transfer of an empty image is the single command `params,m=0` with no payload |
| Chunked.OutStream.constructor | smaller_kitty.c:155-166 | a fresh output stream holds no text, and none has been flushed |
| Chunked.OutStream.Put | smaller_kitty.c:157-163 | writing appends exactly the text and flushes nothing |
| Chunked.OutStream.Flush | smaller_kitty.c:165 | `fflush` delivers all text written so far |
| Chunked.SerializeGrCommand | smaller_kitty.c:155-166 | one command appends exactly its serialization and flushes it |
| Chunked.WriteChunked | smaller_kitty.c:169-203 | the writer appends exactly the rendering of the frames of the encoded image, flushed, and nothing at all for an empty image |
| Chunked.SendChunk | smaller_kitty.c:186-200 | one loop turn advances the offset and writes the frame at it, so text written plus frames still to come stays constant |

## Findings

| source | as written | input that shows it | evidently intended | confidence | as-written member | corrected member |
|---|---|---|---|---|---|---|
| smaller_kitty.c:89 | the scan for `_Gi` tries only `i < total_read - 3`, so a marker ending at the last byte received is missed | one read of `ESC _ G i` (`SmallerKitty.CutReply`) | try every `i` with `i + 2 < total_read` | not executed | SmallerKitty.CutReplyMissed | Marker.ScanForMarkerFixed |
| src/kitty.rs:133 | the same bound, `total_read.saturating_sub(3)`, misses a trailing `_Gi` | the three bytes `_Gi` | scan every start position that leaves room for three bytes | not executed | Marker.TrailingMarkerMissed | Marker.ScanForMarkerFixed |
| src/kitty.rs:122 | the read slice is `buf[total_read..curr_len - total_read - 1]`: it shrinks twice as fast as it should, and once more than 127 bytes are held its end is before its start, so indexing panics with the terminal left raw and non-blocking | a first read of 128 bytes with no marker (`KittyRs.LongReply`) | `buf[total_read..curr_len - 1]` | not executed | KittyRs.LongReplyPanics | KittyRs.IntendedNeverPanics |
| smaller_kitty.c:77-80 | after a read that brings nothing the loop tests `errno` even when `read` returned 0 (end of file), and errno still holds the EAGAIN of an earlier failed read; a terminal that has hung up is reported readable by every select and read as empty every time, so the loop goes round for ever | one read failing with EAGAIN, then a hang-up: every select reports input and every read returns 0 | retry only a read that failed with EAGAIN, and end the loop on end of file | not executed | SmallerKitty.HungUpTerminalSpins | SmallerKitty.HungUpTerminalEndsLoop |
| smaller_kitty.c:186 | `while (offset < encoded_size)` never runs for an empty image, so no command at all is sent, not even a final `m=0` | empty image data | one command `params,m=0` with an empty payload | not executed | Chunked.EmptyInputEmitsNoFrame | Chunked.IntendedEmptyTransfer |

## Left out

- Real system calls, the kernel and time: the terminal's answers are a script inside `Device.Tty`. A `select` reports the next scripted outcome and does not lower its `timeval`; the scripted timeouts stand for the passing of time.
- Select: the budget is logged in milliseconds; the `timeval` arithmetic, and the `FdSet` built from a `BorrowedFd`, are not modelled.
- The 10 ms pause before an EAGAIN retry is not modelled; it changes no state. In smaller_kitty.c it is the `usleep(10000)` inside the select/read loop (smaller_kitty.c:79), and in src/kitty.rs the `thread::sleep` in `read_with_timeout` (src/kitty.rs:73). The drain loops have no pause.
- Every loop of the model ends, because the script of `select` outcomes is finite and every turn uses one of them up. A loop that would run for ever on a real terminal ends here when the script runs out; see the finding on smaller_kitty.c:77-80, whose as-written lemma shows the loop spinning for as long as the script lasts. Termination of the real loops is therefore not a property the model shows.
- Write errors and partial writes on the terminal (`write`, `printf`, `write_all`, `flush`) are not modelled: every write delivers all its bytes. The Rust routine only logs such errors, so they do not change its course.
- Messages printed on failure (`perror`, `error!`, `println!`, `usage()`) are not modelled, except for the two lines `kitty.c`'s `main` prints and the error values that `Cli.Run` returns.
- RawTerminal.Nonblocking: `OFlag::from_bits_truncate` is taken as the identity on the flags read, since the model's flags are all known bits.
- Cli.Run: the "Found N files" line is modelled as the file count; reading and showing the files is not part of this model.
- Cli.Run: `unreachable!` for `--ascii` and the slice panic are both the outcome `Panicked`, which `Cli.ExitStatus` maps to status 101; unwinding itself is not modelled.
- `query_window_size` and the image display stubs of the C programs are not part of this model.
- `smaller_kitty.c`'s `main` is not modelled: its argument check (status 1 with fewer than two arguments), its call of `query_window_size`, its reading of each file with `fopen`/`fseek`/`ftell`/`malloc`/`fread`, and its exit statuses (1 when the terminal lacks support and on every file error).
- The allocation failure of `malloc` in `base64_encode` and `write_chunked` is not modelled: the model always has memory.
- The truncation of the command by `snprintf` into its 4096-byte buffer is not modelled: the parameters are taken to fit.
- A fault is persistent: a device that refuses a call refuses it every time, so a routine that sets raw mode successfully will also succeed when restoring it.
- `Base64.Decode` is a decoder written from section 4 of RFC 4648 so that the encoder has an inverse; the program itself has no decoder.
