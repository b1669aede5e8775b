# Just4Trionic bridge and J2534 status codes, in Dafny

This project models two parts of a CAN adapter library written in Go.

The first is the **Just4Trionic serial bridge** (`adapter/just4trionic/just4trionic.go`). It covers:

- how `New` resolves the configured filter list and CAN bit rate into adapter commands;
- the handshake `Init` writes to the serial port;
- `Close`'s `closed` flag;
- the byte-level framer `parse`, which turns serial bytes into lines and `w` lines into frames on a 10-slot inbound queue;
- the line decoder `decodeFrame`;
- the `t` line that `sendManager` builds for an outgoing frame.

The second is the **J2534 status-code mapping** (`adapter/j2534/errors.go`). `CheckError` maps a PassThru return code to nil, to one of 26 sentinel errors, or to a formatted "unknown error".

Files:

- `text.dfy` (module `Text`): bytes, and the hex and decimal behaviour of Go's `strconv` and `encoding/hex` that the code relies on.
- `codec.dfy` (module `Codec`): the `Frame` datatype, `decodeFrame`, the encoder and its round trip.
- `framer.dfy` (module `Framer`): the per-byte step of `parse` as a pure function, its fold over everything read, and its properties. It also holds the corrected framer described under Findings.
- `just4trionic.dfy` (module `Just4Trionic`): the `Adapter` class with its fields and methods, and the serial port as an abstract `Port` object. `Adapter.Parse` is a loop over the chunk that is proved to perform the framer's fold.
- `j2534.dfy` (module `J2534`): the sentinels, `int32(ret)` and `CheckError`.

Two Go behaviours are modelled explicitly:

- A panic in Go ends the process. The model returns a `Panic` outcome from the decoder, and the read side then carries a `crashed` flag after which nothing changes.
- The J2534 status codes themselves are defined outside the modelled files. They take the SAE J2534-1 values listed in the commented-out handler in `errors.go`: 0 for success and 0x01 to 0x1A for the named errors.

Behaviours of the code worth knowing:

- A decoding failure leaves the line buffer untouched; it is not cleared.
- A `w` line whose payload holds more hex pairs than its declared length makes `hex.Decode` panic. For example, `w0053AABBCCDDEE` LF declares 3 bytes. Once its last byte is dropped, the body still holds a fourth pair `DD` after `AA BB CC`, and storing that pair panics.
- A payload with fewer pairs than its declared length is zero-filled, not rejected.
- No maximum line length is enforced, since the code has none.
- The encoder always writes a 16-character payload section for frames of at most 8 bytes.
- A `w` line shorter than six bytes does not always panic. `ParseUint` reads the three identifier bytes before `buff[3]` is indexed, so a non-hex byte among them gives the identifier error, and the line stays in the buffer like any other failed line. `w` CR LF and `wZZZ` CR LF are two examples.

## Model

| member | source | states |
|---|---|---|
| Text.ParseUintHex32 | adapter/just4trionic/just4trionic.go:225 | base-16 `ParseUint` succeeds exactly on a non-empty run of hex digits whose value fits in 32 bits, and then returns that value; up to eight digits every such run fits |
| Text.ParseThreeHexDigits | adapter/just4trionic/just4trionic.go:225-228 | `ParseUint(…, 16, 32)` of three bytes succeeds iff all three are hex digits, and then the value is below 0x1000 |
| Text.FormatHex | adapter/just4trionic/just4trionic.go:245 | `FormatUint(…, 16)` writes at least one digit, all lowercase hex |
| Text.Decimal | adapter/just4trionic/just4trionic.go:246 | `Itoa` of a length writes at least one digit, all decimal |
| Text.HexEncode | adapter/just4trionic/just4trionic.go:247 | `hex.EncodeToString` writes exactly two lowercase hex digits per byte |
| Text.FormatHexRoundTrip | adapter/just4trionic/just4trionic.go:245 | the identifier's hex text, read back as hex, gives the identifier |
| Text.FormatHexLength | adapter/just4trionic/just4trionic.go:245 | the identifier text has 1, 2 or 3 digits exactly when the value is below 0x10, in 0x10..0xFF, or in 0x100..0xFFF, so leading zeros are dropped |
| Text.DecimalInjective | adapter/j2534/errors.go:96 | different values have different `%d` texts |
| Codec.DeclaredLength | adapter/just4trionic/just4trionic.go:229 | a decimal digit gives its own value; a byte below `0` wraps around to 208 or more, as byte arithmetic does |
| Codec.DecodeHexInto | adapter/just4trionic/just4trionic.go:229-232 | `hex.Decode` into a slice of the declared length: a success has an even source and exactly half as many bytes, and never more than fit |
| Codec.DecodeFrame | adapter/just4trionic/just4trionic.go:224-238 | a decoded frame's identifier is the hex value of the first three bytes (so below 0x1000), and it has exactly the declared number of payload bytes |
| Codec.DecodeHexFits | adapter/just4trionic/just4trionic.go:229-232 | when the pairs fit, decoding never panics, succeeds iff the text is an even run of hex digits, and yields each pair's value in order |
| Codec.IdentifierFailure | adapter/just4trionic/just4trionic.go:225-228 | the identifier error is returned iff one of the first three bytes is not a hex digit |
| Codec.BadIdentifierOnlyFromIdentifier | adapter/just4trionic/just4trionic.go:230-232 | the payload decoder never reports an identifier error |
| Codec.ShortPayloadZeroFilled | adapter/just4trionic/just4trionic.go:229-237 | a payload shorter than the declared length is accepted: the identifier is the hex value of the first three bytes, the pairs fill the front of the data and the rest is zero |
| Codec.DecodeHexOverrun | adapter/just4trionic/just4trionic.go:229-230 | `hex.Decode` panics exactly when the source holds one hex pair more than the destination has room for, every pair before it being hex |
| Codec.DecodeFramePanics | adapter/just4trionic/just4trionic.go:224-232 | `decodeFrame` panics exactly when the identifier parses and the payload holds more hex pairs than the declared length |
| Codec.OverrunExample | adapter/just4trionic/just4trionic.go:229-230 | the body of `w0053AABBCCDDEE` declares 3 bytes but holds a fourth pair, and decoding it panics |
| Codec.IdentifierExamples | adapter/just4trionic/just4trionic.go:225 | the identifier keeps its leading zeros and accepts upper case: `0050` is frame 0x005 and `7E80` frame 0x7E8 |
| Codec.Padding | adapter/just4trionic/just4trionic.go:249-251 | the padding is all `0`; for at most 8 data bytes it brings the payload section to 16 characters, and for 8 or more it is empty |
| Codec.FrameLine | adapter/just4trionic/just4trionic.go:245-252 | the line starts with `t` and ends with CR, and its length is the identifier's and length's digits plus 16 payload characters, or twice the data length beyond 8 bytes |
| Codec.Zeros | adapter/just4trionic/just4trionic.go:249-251 | k rounds of `+= "00"` add 2k characters, all `0` |
| Codec.EncodeFrame | adapter/just4trionic/just4trionic.go:245-252 | the `+=` loop builds exactly the line `FrameLine` describes |
| Codec.FrameLineShape | adapter/just4trionic/just4trionic.go:245-252 | for at most 8 data bytes, the line starts with `t` and ends with CR, and its payload section is exactly 16 hex characters: the data's own digits, then zeros |
| Codec.HexEncodeRoundTrip | adapter/just4trionic/just4trionic.go:230 | the bytes of `EncodeToString(data)` hex-decode back to `data` |
| Codec.EncodeDecodeRoundTrip | adapter/just4trionic/just4trionic.go:224-238 | for 0x100 ≤ id ≤ 0xFFF and at most 8 bytes, the encoded line without `t`, padding and CR decodes to the same frame |
| Codec.ShortIdentifierLosesDigits | adapter/just4trionic/just4trionic.go:245 | the hex text of an identifier below 0x100 has fewer than three digits |
| Codec.EncodeExample | adapter/just4trionic/just4trionic.go:245-252 | frame 0x7e8 with payload 02 10 01 is written as `t7e830210010000000000` CR |
| Framer.Enqueue | adapter/just4trionic/just4trionic.go:208-212 | the non-blocking send appends the frame iff fewer than 10 are queued, never removes one, and never takes the queue past 10 |
| Framer.LineBody | adapter/just4trionic/just4trionic.go:203 | the text handed to `decodeFrame` is the line without its first and last byte |
| Framer.IdentifierBytes | adapter/just4trionic/just4trionic.go:225 | the identifier bytes `ParseUint` reads that lie inside the line: three, or fewer for lines shorter than four bytes |
| Framer.Dispatch | adapter/just4trionic/just4trionic.go:199-218 | a completed line only ever appends at most one frame to the queue, and afterwards the buffer is empty, the reader has panicked, or nothing changed |
| Framer.DispatchKeepsOnlyFailures | adapter/just4trionic/just4trionic.go:203-206 | a completed line leaves the reader unchanged iff it is a `w` line that fails to decode; a non-hex identifier byte inside the line is such a failure at any length |
| Framer.DispatchCrashes | adapter/just4trionic/just4trionic.go:201-230 | completing a `w` line panics exactly for a one-byte line (`by[1:0]`), a line of 2 to 5 bytes whose identifier bytes inside the line are hex (`buff[3]` is past the body; for 2 or 3 bytes see Left out), or a payload that overruns the frame |
| Framer.ShortLineExamples | adapter/just4trionic/just4trionic.go:203-229 | `w` CR LF and `wZZZ` CR LF stay in the buffer, while `w123` CR LF panics |
| Framer.Step | adapter/just4trionic/just4trionic.go:194-220 | a panicked reader stays as it is; only LF can queue a frame or panic; the queue only ever grows by at most one frame |
| Framer.CompletedLine | adapter/just4trionic/just4trionic.go:194-220 | a line read into an empty buffer and ended by LF is dispatched as a whole |
| Framer.ParseChunks | adapter/just4trionic/just4trionic.go:187-222 | the buffer persists, so parsing A then B gives the same state as parsing A ++ B |
| Framer.CrashIsFinal | adapter/just4trionic/just4trionic.go:203 | after a panic in the read path nothing more happens |
| Framer.StepPreserves | adapter/just4trionic/just4trionic.go:194-220 | one byte keeps the queue within 10, keeps LF out of the buffer and CR off its front, and only appends to the queue |
| Framer.ParsePreserves | adapter/just4trionic/just4trionic.go:187-222 | the same holds for any run of bytes |
| Framer.IgnoredWhileEmpty | adapter/just4trionic/just4trionic.go:194-198 | CR and LF arriving on an empty buffer change nothing |
| Framer.Accumulates | adapter/just4trionic/just4trionic.go:220 | bytes other than LF, CR included, are appended to a non-empty buffer |
| Framer.LineOutcomes | adapter/just4trionic/just4trionic.go:199-218 | a completed line that is not a `w` line is discarded; a `w` line that decodes is queued, or dropped when 10 are queued, and the buffer is cleared; a `w` line that fails stays in the buffer |
| Framer.EncodedFrameArrives | adapter/just4trionic/just4trionic.go:199-213 | the adapter's `w` echo of an encoded frame, ended by CR LF, puts exactly that frame on the queue |
| Framer.FailureExtends | adapter/just4trionic/just4trionic.go:203-206 | a CR-terminated `w` line of any length that fails to decode still fails after any bytes are appended |
| Framer.IdentifierFailureExtends | adapter/just4trionic/just4trionic.go:203-206 | a `w` line whose identifier bytes inside the line are not all hex keeps failing whatever is appended, since those bytes stay in front |
| Framer.DecodeFailureIsSticky | adapter/just4trionic/just4trionic.go:203-207 | after a CR-terminated `w` line of any length fails, the queue never changes again and the failed line stays at the front of the buffer |
| Framer.StuckExample | adapter/just4trionic/just4trionic.go:203-207 | `w1000` CR LF alone yields frame 0x100, but after `wZZZ0` CR LF it yields nothing |
| Framer.CorrectedAgreesWithinLine | adapter/just4trionic/just4trionic.go:194-220 | the corrected framer differs from the original only when LF completes a line |
| Framer.CorrectedRecovers | adapter/just4trionic/just4trionic.go:203-217 | with the buffer cleared on failure, the next good line after any line that fails to decode, short ones included, yields its frame |
| Framer.CorrectedExample | adapter/just4trionic/just4trionic.go:203-217 | the corrected framer delivers frame 0x100 on the input where the original delivers nothing |
| Just4Trionic.FilterToken | adapter/just4trionic/just4trionic.go:46-57 | exactly the identifiers 0x05, 0x220 and 0x7E0 select a filter command, each a two-character `t` or `f` command |
| Just4Trionic.ScanFilters | adapter/just4trionic/just4trionic.go:45-58 | the filter is the command of the first recognised identifier (0x05 → t5, 0x220 → f7, 0x7E0 → f8), or empty if none is recognised |
| Just4Trionic.FirstMatchUnique | adapter/just4trionic/just4trionic.go:45-58 | that description determines a single filter command |
| Just4Trionic.RateToken | adapter/just4trionic/just4trionic.go:135-162 | a rate has a command iff it is one of the ten supported rates, and every command is a two-character S/s command |
| Just4Trionic.RateTokensDistinct | adapter/just4trionic/just4trionic.go:136-156 | different supported rates select different commands |
| Just4Trionic.Commands | adapter/just4trionic/just4trionic.go:87-93 | the handshake is four commands: the fixed ESC and `O`, then the configured filter and rate |
| Just4Trionic.AttemptedSendsInOrder | adapter/just4trionic/just4trionic.go:97-110 | writing the first n commands sends exactly those n commands, in order, each followed by CR |
| Just4Trionic.InputResetOnlyBeforeRate | adapter/just4trionic/just4trionic.go:97-100 | the input buffer is reset only on the way to the fourth command |
| Just4Trionic.HandshakeWhenAllWritesSucceed | adapter/just4trionic/just4trionic.go:87-110 | a successful handshake writes ESC CR, `O` CR, filter CR (a bare CR when unfiltered), resets the input, then writes the rate CR |
| Just4Trionic.Port.Write | adapter/just4trionic/just4trionic.go:104-108 | the stand-in for `serial.Port.Write`: reports the next scripted outcome and records the data as written or failed |
| Just4Trionic.Adapter.constructor | adapter/just4trionic/just4trionic.go:38-43 | a new adapter has no filter, no rate, no port, an empty buffer and queue, and is not closed |
| Just4Trionic.Adapter.New | adapter/just4trionic/just4trionic.go:37-65 | construction fails with the rate error iff the rate is unsupported; otherwise the filter is the first match and the rate command is set |
| Just4Trionic.Adapter.SetCANrate | adapter/just4trionic/just4trionic.go:135-162 | a supported rate sets its command; any other rate returns an error and leaves the field as it was |
| Just4Trionic.Adapter.Init | adapter/just4trionic/just4trionic.go:85-110 | the output buffer is reset, then the four commands are written in order. Init succeeds iff all four writes succeed. The first failing write closes the port, returns the error, and nothing after it is written |
| Just4Trionic.Adapter.Close | adapter/just4trionic/just4trionic.go:126-133 | the adapter is marked closed, ESC is written and the port is closed |
| Just4Trionic.Adapter.Parse | adapter/just4trionic/just4trionic.go:187-222 | the loop over a chunk leaves the buffer, queue and crash flag exactly as the framer's fold over that chunk does |
| Just4Trionic.Adapter.Recv | adapter/just4trionic/just4trionic.go:118-120 | a non-blocking receive takes the oldest queued frame, or nothing when the queue is empty |
| Just4Trionic.Adapter.Transmit | adapter/just4trionic/just4trionic.go:244-256 | one send writes the encoded line to the port; a failed write changes nothing else |
| J2534.NamedByCode | adapter/j2534/errors.go:100-158 | each of the 26 named errors stands for a code from 0x01 to 0x1A and is the entry at that place in the code table, so no two share a code |
| J2534.Int32 | adapter/j2534/errors.go:39 | `int32(ret)` is in the 32-bit signed range and agrees with `ret` modulo 2^32 |
| J2534.CheckError | adapter/j2534/errors.go:38-98 | nil iff the low 32 bits are STATUS_NOERROR; a sentinel only for its own code, never `ErrUnknown`; otherwise `unknown error: ` followed by the full decimal value |
| J2534.NamedCodesYieldSentinels | adapter/j2534/errors.go:43-94 | every code from 0x01 to 0x1A yields its sentinel |
| J2534.CheckErrorSentinel | adapter/j2534/errors.go:39-94 | a sentinel is returned iff its own code is in the low 32 bits |
| J2534.CheckErrorInjective | adapter/j2534/errors.go:9-34 | the sentinels are pairwise distinct, so different known codes give different errors |
| J2534.CheckErrorFallback | adapter/j2534/errors.go:95-96 | the formatted error is returned exactly for codes outside 0 to 0x1A |
| J2534.NeverErrUnknown | adapter/j2534/errors.go:35 | `ErrUnknown` is declared but never returned |
| J2534.HighBitsIgnored | adapter/j2534/errors.go:39 | codes that differ only above bit 31 map to the same result when they land on success or a named code |
| J2534.HighBitsInMessage | adapter/j2534/errors.go:96 | different unknown codes give different messages, even when their low 32 bits agree |
| J2534.TimeoutAboveBit31 | adapter/j2534/errors.go:59-60 | 0xFFFF_FFFF_0000_0009 is reported as ERR_TIMEOUT |

## Left out

- Serial I/O is not modelled. This covers opening the port with its mode, `SetReadTimeout`, the read loop of `recvManager` and the `time.Sleep` pacing. The port is an abstract `Port` object that records what was done to it; whether each write succeeds is given to it up front.
- Just4Trionic.Adapter.Init: starts from a port that is already open, so the "failed to open com port" error is not modelled.
- Concurrency is not modelled: the goroutines, the `close` channel, `ctx.Done()` cancellation (including `parse` returning part-way through a chunk) and the `sendManager` loop. `Transmit` models one iteration of that loop.
- Just4Trionic.Adapter.Recv: `Recv()` only returns the channel. The model's `Recv` is a non-blocking receive from it, so an empty queue gives nothing; a Go receive on an empty channel waits instead.
- Just4Trionic.Adapter.Close: requires an opened port. In Go, `Close` on an adapter whose `Init` never opened the port panics on the nil port at adapter/just4trionic/just4trionic.go:130; that panic is not modelled.
- Just4Trionic.Adapter.Close: does not model the blocking of a second call on the one-slot `close` channel. The error from closing the port is not modelled either.
- The texts of the J2534 sentinels (adapter/j2534/errors.go:9-35) are not modelled. Go's `errors.New` values are told apart by identity, and each sentinel is one constructor of `J2534.Sentinel`.
- `Name()` and `Send()` only return a constant or a channel, so they are left out.
- The `debug` flag and all logging are left out.
- The rate is a `real` compared by exact equality, standing in for Go's `float64`. The rate error carries the rate rather than the `%f` text.
- Framer.Dispatch and Framer.DispatchCrashes: a `w` line of two or three bytes whose identifier bytes inside the line are all hex is treated as a panic. In Go, `ParseUint` then reads one or two stale bytes past the line's end, left over from earlier lines, so such a line may instead give the identifier error; that depends on buffer history the model does not keep. Every other short `w` line is modelled as the code behaves: a one-byte line panics, a line of four or five bytes with a hex identifier panics at `buff[3]`, and a line with a non-hex identifier byte gives the identifier error and stays in the buffer.
- Just4Trionic.Adapter.Parse: follows `Framer.Dispatch`, so it also treats a `w` line of two or three bytes with hex identifier bytes as a panic.
- `gocan.CANFrame` is replaced by `Frame(id, data)`. A frame's length is the length of its data, and the `Incoming` direction flag is not kept.
- The corrected framer of the finding below is stated and proved beside the original. `Adapter.Parse` keeps the behaviour of the code.

## Findings

| source | as written | input that shows it | evidently intended | confidence | as-written member | corrected member |
|---|---|---|---|---|---|---|
| adapter/just4trionic/just4trionic.go:203-207 | when `decodeFrame` fails, the `continue` skips both `buff.Reset()` calls, so the failed line stays in the buffer; lines from the adapter end in CR, so every later line is appended to it and also fails | `wZZZ0` CR LF followed by `w1000` CR LF: the second line's frame 0x100 is never queued | a line that fails to decode is logged and discarded, and the buffer is cleared as for every other completed line | not executed | Framer.DecodeFailureIsSticky | Framer.CorrectedRecovers |
