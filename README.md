# Synaptics TCM transport and Xiaomi touch broker, in Dafny

This project models two parts of a Qualcomm SM8450 Android kernel's touchscreen stack:

- The host side of the Synaptics TouchComm (TCM) protocol, from `synaptics_tcm_core.c`:
  - the chunked bus writes of raw and framed commands;
  - message reading: the 4-byte header with its retries, the continued read in chunks, the padding check and the predictive read length;
  - the raw read into a caller's buffer;
  - the dispatch of a message to the command in flight, to the report consumers and to the helper work;
  - the command engine that frames a command, writes it and waits for its response;
  - the module registry with its deferred insertion and removal;
  - the command helpers built on the engine: identify and the info queries, the mode switches with their retry, dynamic configuration and data location.
- The Xiaomi touch broker, from `xiaomi_touch.c`:
  - the table of touchscreen clients, one per panel;
  - the oneshot gesture sensors: pending events, requested states, and the states pushed to each panel's driver;
  - touch-mode get and set, including the fold status that selects the active panel;
  - the ioctl entry point;
  - the suspended flag that panel blank and unblank events drive.

The files are:

| file | contents |
|---|---|
| `Errno.dfy` | the kernel error numbers used |
| `TcmProtocol.dfy` | bytes, codes, LE16 fields, `ceil_div`, what a bus read clocks in |
| `TcmChunks.dfy` | the shared chunk loop: transfer lengths, write frames, the continuation gather |
| `TcmBus.dfy` | the bus as a scripted environment: reads delivered or failed, writes accepted or rejected and logged, messages sent during a wait |
| `TcmRead.dfy` | `read_message` as a specification function of the bus script (header retries, assembly, padding, next read length) and `raw_read` |
| `TcmDispatch.dfy` | `dispatch_message` / `_response` / `_report` as functions of the host state, with the guarantees of dispatch |
| `TcmFields.dfy` | fields taken out of responses and reports: partial copies, the write chunk size, dynamic-config and data-location layouts |
| `TcmModules.dfy` | the module registry: a specification on sequences, and the `ModulePool` class with its work and fan-out methods |
| `TcmCore.dfy` | the `TcmDevice` class (struct `syna_tcm_hcd`), whose methods perform the reads, dispatches, writes and helpers on its fields; each is proved to end in the state the specification functions describe |
| `XiaomiTouch.dfy` | the broker: pure table and sensor functions with their lemmas, and the `Broker` class over the module-level state |

Code that updates state in place is modelled as classes:

- The core device is a class. Its chunk loops are `while` loops over the buffers, with invariants tying them to the chunk specification.
- The broker is a class. `oneshot_sensor_update_driver` is a loop over the sensors.

Fixed structures and their rules are datatypes and functions: frames, transfer lengths, dispatch and the registry's rules.

The bus, the completion wait and the client callbacks are the environment:

- Each bus read comes from a script of delivered byte strings or failures.
- Each bus write is accepted or rejected by a script, and accepted writes are logged.
- The number of messages the device sends while a command waits comes from a script as well. The interrupt handler runs `read_message` once per message.
- The broker logs each `set_mode_value` call. The answer `get_mode_value` would give is a parameter.

The protocol codes (`MESSAGE_MARKER`, `STATUS_*`, `REPORT_*`, `CMD_*`, the firmware modes) are defined in `synaptics_tcm_core.h`, which is not part of this model. They are given the conventional TCM values. No proof relies on a particular value, only on the codes being distinct and on `STATUS_ERROR < REPORT_IDENTIFY`. The header size 4 follows from the header rewrite in `read_message`.

The enums of `linux/xiaomi_touch.h` are not part of this model either:

- Touch modes and ioctl numbers are datatypes.
- The two fold statuses are 0 and 1; only their distinctness matters.

## Model

| member | source | states |
|---|---|---|
| TcmProtocol.Le16 | drivers/input/touchscreen/synaptics_s3907/synaptics_tcm_core.c:1832 | `le2_to_uint` of a header length field is a 16-bit value |
| TcmProtocol.Le16Bytes | drivers/input/touchscreen/synaptics_s3907/synaptics_tcm_core.c:2062-2063 | a length or value is sent as exactly two bytes |
| TcmProtocol.Le16RoundTrip | drivers/input/touchscreen/synaptics_s3907/synaptics_tcm_core.c:1900-1901 | rewriting a 16-bit payload length as two bytes and reading it back with `le2_to_uint` gives the length back |
| TcmProtocol.Le16Injective | drivers/input/touchscreen/synaptics_s3907/synaptics_tcm_core.c:1832 | two length fields that decode to the same value are the same bytes |
| TcmProtocol.CeilDivFormula | drivers/input/touchscreen/synaptics_s3907/synaptics_tcm_core.c:1706 | the chunk count, counted one chunk at a time, is `(x + d - 1) / d` |
| TcmProtocol.CeilDiv | drivers/input/touchscreen/synaptics_s3907/synaptics_tcm_core.c:1706 | `ceil_div`, counting the divisor-sized pieces one at a time, with a quotient of 0 for a zero divisor; its meaning is `CeilDivFormula` and `CeilDivBounds` |
| TcmProtocol.CeilDivBounds | drivers/input/touchscreen/synaptics_s3907/synaptics_tcm_core.c:1706 | `ceil_div` rounds up: the chunks cover the length, and one chunk fewer would not |
| TcmProtocol.Clocked | drivers/input/touchscreen/synaptics_s3907/synaptics_tcm_core.c:1796 | a bus read of n bytes yields exactly n bytes, agreeing with what the device sent as far as it sent anything |
| TcmChunks.NumChunks | drivers/input/touchscreen/synaptics_s3907/synaptics_tcm_core.c:1706-1708 | a chunk loop always runs at least once (`chunks == 0 ? 1 : chunks`) |
| TcmChunks.NumChunksBounds | drivers/input/touchscreen/synaptics_s3907/synaptics_tcm_core.c:1706-1708 | with a positive space the chunks cover the length, and one fewer would not unless the length is 0 |
| TcmChunks.Xfers | drivers/input/touchscreen/synaptics_s3907/synaptics_tcm_core.c:1712-1716 | the transfer lengths of the next n iterations are n values |
| TcmChunks.Transfers | drivers/input/touchscreen/synaptics_s3907/synaptics_tcm_core.c:1697-1757 | a whole chunk loop has `max(1, ceil(L/space))` transfers and never transfers more than L bytes |
| TcmChunks.XfersSum | drivers/input/touchscreen/synaptics_s3907/synaptics_tcm_core.c:1712-1757 | n iterations of `min(space, remaining)` transfer `min(n * space, remaining)` bytes |
| TcmChunks.XfersWithin | drivers/input/touchscreen/synaptics_s3907/synaptics_tcm_core.c:1712-1757 | a chunk loop never transfers more than it has left |
| TcmChunks.XfersBounded | drivers/input/touchscreen/synaptics_s3907/synaptics_tcm_core.c:1713-1716 | each transfer is at most the chunk space and at most what is left |
| TcmChunks.XfersFull | drivers/input/touchscreen/synaptics_s3907/synaptics_tcm_core.c:1713-1716 | when the count is `ceil(L/space)`, every transfer but the last is a full chunk |
| TcmChunks.TransfersCover | drivers/input/touchscreen/synaptics_s3907/synaptics_tcm_core.c:1697-1757 | with a positive space, the transfers add up to the length, none exceeds the space, and all but the last are full |
| TcmChunks.WriteFrames | drivers/input/touchscreen/synaptics_s3907/synaptics_tcm_core.c:1728-1748 | there is one bus write per transfer |
| TcmChunks.ChunkOffsetIsProduct | drivers/input/touchscreen/synaptics_s3907/synaptics_tcm_core.c:1736 | write idx copies from `idx * chunk_space` |
| TcmChunks.FrameOffsetBound | drivers/input/touchscreen/synaptics_s3907/synaptics_tcm_core.c:1733-1737 | the data a write copies lies within the bytes the loop transfers |
| TcmChunks.FrameAt | drivers/input/touchscreen/synaptics_s3907/synaptics_tcm_core.c:1728-1748 | write i is its leading byte followed by the xs[i] data bytes that start after the earlier transfers |
| TcmChunks.FramesTail | drivers/input/touchscreen/synaptics_s3907/synaptics_tcm_core.c:1728-1731 | every write after the first is a write of a `CMD_CONTINUE_WRITE` loop over the rest of the stream |
| TcmChunks.XfersOffset | drivers/input/touchscreen/synaptics_s3907/synaptics_tcm_core.c:1713-1737 | in a loop of `min(cs, remaining)` transfers, write i starts at `i * cs` and carries `min(cs, what is left)` bytes |
| TcmChunks.XferFrameAt | drivers/input/touchscreen/synaptics_s3907/synaptics_tcm_core.c:1733-1748 | write i of a loop over data carries the bytes from `i * cs` on, `min(cs, what is left)` of them |
| TcmChunks.ChunkFrameAt | drivers/input/touchscreen/synaptics_s3907/synaptics_tcm_core.c:1712-1757 | iteration idx, with `remaining` bytes left, writes exactly the loop's write idx, copied from `idx * cs`; the next iteration starts a chunk further on |
| TcmChunks.NextChunkStart | drivers/input/touchscreen/synaptics_s3907/synaptics_tcm_core.c:1756 | after `remaining_length -= xfer_length`, the next chunk starts one chunk space further on |
| TcmChunks.WriteFramesShape | drivers/input/touchscreen/synaptics_s3907/synaptics_tcm_core.c:1718-1748 | write i is `xs[i] + 1` bytes; the first leads with the command, later ones with `CMD_CONTINUE_WRITE` |
| TcmChunks.WriteFramesJoin | drivers/input/touchscreen/synaptics_s3907/synaptics_tcm_core.c:1733-1748 | the data parts of the writes, concatenated, are the transferred prefix of the stream |
| TcmChunks.ChunkedWrites | drivers/input/touchscreen/synaptics_s3907/synaptics_tcm_core.c:1697-1757 | with space cs > 0 there are `max(1, ceil(L/cs))` writes, each with at most cs data bytes; the first leads with the command, the others with `CMD_CONTINUE_WRITE`; their data parts concatenated are the stream |
| TcmChunks.RawWriteChunking | drivers/input/touchscreen/synaptics_s3907/synaptics_tcm_core.c:1697-1757 | `raw_write` sends the command and then the data in chunks of at most `wr_chunk_size - 1` bytes (all of it at once when the chunk size is 0); later writes lead with `CMD_CONTINUE_WRITE`, and the device reassembles the data unchanged |
| TcmChunks.WriteSpace | drivers/input/touchscreen/synaptics_s3907/synaptics_tcm_core.c:1701-1704 | the write chunk space: `wr_chunk_size - 1`, or the whole stream when the chunk size is 0 |
| TcmChunks.RawWriteFrames | drivers/input/touchscreen/synaptics_s3907/synaptics_tcm_core.c:1697-1757 | the bus writes `raw_write` issues: the chunk loop's frames over the data; their shape is `RawWriteChunking` |
| TcmChunks.FramedWriteLayout | drivers/input/touchscreen/synaptics_s3907/synaptics_tcm_core.c:2016-2113 | the stream a framed command sends is `[len_lo, len_hi] ++ payload`; the first write is `[command][len_lo][len_hi][payload prefix]`, later writes lead with `CMD_CONTINUE_WRITE`, no write exceeds the space, and the device reassembles the stream |
| TcmChunks.FramedStream | drivers/input/touchscreen/synaptics_s3907/synaptics_tcm_core.c:2060-2063 | the byte stream a framed command carries: the LE16 payload length, then the payload |
| TcmChunks.FramedSpace | drivers/input/touchscreen/synaptics_s3907/synaptics_tcm_core.c:2016-2033 | the chunk space of `write_message`: the raw-write space, or for a ROM-boot download the largest multiple of `ROMBOOT_DOWNLOAD_UNIT` below `WR_CHUNK_SIZE`; bounds in `RombootSpaceAligned` |
| TcmChunks.FramedWriteFrames | drivers/input/touchscreen/synaptics_s3907/synaptics_tcm_core.c:2016-2113 | the bus writes of a framed command (corrected continuation offset; see Findings); their layout is `FramedWriteLayout` |
| TcmChunks.RombootSpaceAligned | drivers/input/touchscreen/synaptics_s3907/synaptics_tcm_core.c:2025-2033 | the chunk space of a ROM-boot download is the largest multiple of `ROMBOOT_DOWNLOAD_UNIT` that fits in `wr_chunk_size - 1` |
| TcmChunks.AsWrittenOffsetAgrees | drivers/input/touchscreen/synaptics_s3907/synaptics_tcm_core.c:2084 | with a chunk space of at least 2, copying continuation chunks from `&payload[idx * chunk_space - 2]` reads exactly the payload bytes the framed stream holds there |
| TcmChunks.AsWrittenContinuationOffset | drivers/input/touchscreen/synaptics_s3907/synaptics_tcm_core.c:2084 | the payload offset the source copies continuation chunk idx from, `idx * chunk_space - 2`, as an integer that can be negative |
| TcmChunks.AsWrittenOffsetSpaceOne | drivers/input/touchscreen/synaptics_s3907/synaptics_tcm_core.c:2084 | with a chunk space of 1, as written, chunk 1 is copied from `payload[-1]`, while the framed stream holds the high length byte there |
| TcmChunks.Gather | drivers/input/touchscreen/synaptics_s3907/synaptics_tcm_core.c:1480-1548 | the continuation loop consumes no more bus reads than there are and ends with 0 or -EIO |
| TcmChunks.ReadSpace | drivers/input/touchscreen/synaptics_s3907/synaptics_tcm_core.c:1466-1469 | the read chunk space: `rd_chunk_size - 2`, or everything left when the chunk size is 0 |
| TcmChunks.ContinuationHeaderOk | drivers/input/touchscreen/synaptics_s3907/synaptics_tcm_core.c:1514-1531 | a continuation chunk's header is acceptable: marker (when checked) and `STATUS_CONTINUED_READ`; used by `GatherRejectsBadHeader` |
| TcmChunks.GatherSuccess | drivers/input/touchscreen/synaptics_s3907/synaptics_tcm_core.c:1480-1548 | a successful continuation loop reads one bus entry per non-padding transfer; every entry was delivered with a correct marker and `STATUS_CONTINUED_READ`; the loop yields exactly the announced byte count |
| TcmChunks.GatherLength | drivers/input/touchscreen/synaptics_s3907/synaptics_tcm_core.c:1533-1547 | a successful continuation loop yields exactly the sum of the transfer lengths |
| TcmChunks.GatherReads | drivers/input/touchscreen/synaptics_s3907/synaptics_tcm_core.c:1504-1531 | a successful loop consumed one delivered entry with a good header per read transfer |
| TcmChunks.GatherEndsInPadding | drivers/input/touchscreen/synaptics_s3907/synaptics_tcm_core.c:1486-1491 | a 1-byte final transfer supplies `MESSAGE_PADDING` without a bus read |
| TcmChunks.GatherHead | drivers/input/touchscreen/synaptics_s3907/synaptics_tcm_core.c:1480-1548 | a successful loop is its first transfer's bytes followed by a successful loop over the rest |
| TcmChunks.GatherRejectsBadHeader | drivers/input/touchscreen/synaptics_s3907/synaptics_tcm_core.c:1514-1531 | a delivered chunk with a wrong marker or code ends the read with -EIO, having consumed only that chunk |
| TcmChunks.XfersHead | drivers/input/touchscreen/synaptics_s3907/synaptics_tcm_core.c:1481-1484 | the next transfer is `min(space, remaining)`, and the rest follow from what it leaves |
| TcmBus.Accepted | drivers/input/touchscreen/synaptics_s3907/synaptics_tcm_core.c:1747-1754 | a loop of n writes gets at most n of them through |
| TcmBus.AcceptedAll | drivers/input/touchscreen/synaptics_s3907/synaptics_tcm_core.c:1747-1754 | all n writes go through exactly when none of the first n is rejected; otherwise the loop stops at the first rejection |
| TcmBus.SendAll | drivers/input/touchscreen/synaptics_s3907/synaptics_tcm_core.c:1712-1757 | the frames a run of bus writes puts on the bus, given which writes the bus accepts, up to the first rejected one; its meaning is `SendAllAccepted` |
| TcmBus.SendAllAccepted | drivers/input/touchscreen/synaptics_s3907/synaptics_tcm_core.c:1712-1757 | a write loop logs exactly the frames before the first rejected write, and fails with the bus error exactly when one is rejected |
| TcmBus.SendStep | drivers/input/touchscreen/synaptics_s3907/synaptics_tcm_core.c:1747-1756 | one write either goes through and the loop continues, or ends the loop with the bus error |
| TcmBus.TcmBus.constructor | drivers/input/touchscreen/synaptics_s3907/synaptics_tcm_core.c:1796 | the bus starts with the given scripts and an empty write log |
| TcmBus.TcmBus.Read | drivers/input/touchscreen/synaptics_s3907/synaptics_tcm_core.c:1796-1807 | `syna_tcm_read` clocks in n bytes from the next scripted read, or fails with the bus error |
| TcmBus.TcmBus.Write | drivers/input/touchscreen/synaptics_s3907/synaptics_tcm_core.c:1747-1754 | `syna_tcm_write` logs the frame when the device accepts it, and otherwise fails with the bus error |
| TcmBus.TcmBus.Attention | drivers/input/touchscreen/synaptics_s3907/synaptics_tcm_core.c:2128-2129 | the number of messages the device sends before `RESPONSE_TIMEOUT_MS` runs out |
| TcmRead.Overwrite | drivers/input/touchscreen/synaptics_s3907/synaptics_tcm_core.c:1533-1536 | copying data into the input buffer keeps the buffer's size |
| TcmRead.Grow | drivers/input/touchscreen/synaptics_s3907/synaptics_tcm_core.c:1456 | `syna_tcm_realloc_mem` gives at least the requested size and keeps the contents |
| TcmRead.ReadHeader | drivers/input/touchscreen/synaptics_s3907/synaptics_tcm_core.c:1793-1869 | the header read keeps the buffer's size, makes at least one bus read, and fails only with a negative error |
| TcmRead.ReadHeaderTakes | drivers/input/touchscreen/synaptics_s3907/synaptics_tcm_core.c:1830-1869 | a header taken for assembly has a code that is neither a control status nor a retried INVALID, and its length is a 16-bit field, or 0 for INVALID |
| TcmRead.ReadHeaderBounded | drivers/input/touchscreen/synaptics_s3907/synaptics_tcm_core.c:1793-1828 | a header read makes at most 22 bus reads |
| TcmRead.ReadHeaderGivesUp | drivers/input/touchscreen/synaptics_s3907/synaptics_tcm_core.c:1811-1827 | a device that always answers with a wrong marker is read exactly 22 times, and the read fails with -ENXIO |
| TcmRead.BusFailureRetriedOnce | drivers/input/touchscreen/synaptics_s3907/synaptics_tcm_core.c:1796-1807 | a bus failure is retried once, and a second failure in a row is returned |
| TcmRead.InvalidRetriedOnce | drivers/input/touchscreen/synaptics_s3907/synaptics_tcm_core.c:1854-1867 | `STATUS_INVALID` is read again once, and a second INVALID is taken with payload length 0 |
| TcmRead.GoodHeaderTaken | drivers/input/touchscreen/synaptics_s3907/synaptics_tcm_core.c:1830-1853 | IDLE, BUSY and CONTINUED_READ end the read with 0 and nothing to dispatch; any other code is a message with the header's LE16 length |
| TcmRead.NextReadLengthBounds | drivers/input/touchscreen/synaptics_s3907/synaptics_tcm_core.c:1915-1920 | the next read length is never below `MIN_READ_LENGTH` (or a smaller chunk size), never above a set chunk size, and is either the chunk size or enough for the whole last message |
| TcmRead.NextReadLength | drivers/input/touchscreen/synaptics_s3907/synaptics_tcm_core.c:1915-1920 | the predictive read length `MAX(total, MIN_READ_LENGTH)`, capped by `rd_chunk_size`; its bounds are `NextReadLengthBounds` |
| TcmRead.ContinuationXfers | drivers/input/touchscreen/synaptics_s3907/synaptics_tcm_core.c:1450-1474 | the continued read's transfers are the chunk loop over `total - read_length` bytes in chunks of `rd_chunk_size - 2` |
| TcmRead.ContinuationTransfers | drivers/input/touchscreen/synaptics_s3907/synaptics_tcm_core.c:1450-1474 | the transfer lengths of a continued read; `ContinuationXfers` ties them to the chunk loop |
| TcmRead.CheckPadding | drivers/input/touchscreen/synaptics_s3907/synaptics_tcm_core.c:1903-1911 | a message whose last byte is not `MESSAGE_PADDING` fails with -EIO; `AssembledMessage` states the padding of a successful read |
| TcmRead.Assemble | drivers/input/touchscreen/synaptics_s3907/synaptics_tcm_core.c:1871-1911 | (corrected pad store; see Findings) assembly leaves a buffer longer than the message and the read length, and ends with 0 or -EIO |
| TcmRead.Continuation | drivers/input/touchscreen/synaptics_s3907/synaptics_tcm_core.c:1887-1911 | reading on leaves a buffer holding the whole message, and ends with 0 or -EIO |
| TcmRead.ContinuationEnds | drivers/input/touchscreen/synaptics_s3907/synaptics_tcm_core.c:1889-1904 | a failed continued read is the result; otherwise the header bytes are rewritten and the padding checked |
| TcmRead.ContinuedRead | drivers/input/touchscreen/synaptics_s3907/synaptics_tcm_core.c:1437-1554 | the input buffer is grown to `total + 1` bytes, and the continued read ends with 0 or -EIO |
| TcmRead.ContinuedReadGathers | drivers/input/touchscreen/synaptics_s3907/synaptics_tcm_core.c:1437-1554 | the continued read writes the continuation loop's bytes into the grown buffer from `read_length` on |
| TcmRead.GatherPadding | drivers/input/touchscreen/synaptics_s3907/synaptics_tcm_core.c:1486-1491 | a 1-byte transfer supplies the padding byte and reads nothing |
| TcmRead.GatherChunk | drivers/input/touchscreen/synaptics_s3907/synaptics_tcm_core.c:1504-1547 | a delivered chunk with a good header adds its data bytes |
| TcmRead.GatherStops | drivers/input/touchscreen/synaptics_s3907/synaptics_tcm_core.c:1504-1531 | a bus failure, or a wrong header, ends the loop with what was copied before it; the error is the bus error or -EIO |
| TcmRead.ChunkLoopStart | drivers/input/touchscreen/synaptics_s3907/synaptics_tcm_core.c:1450-1476 | the loop starts at `read_length` with `ceil_div(remaining, space)` chunks and the whole gather ahead |
| TcmRead.ContinuedReadEnds | drivers/input/touchscreen/synaptics_s3907/synaptics_tcm_core.c:1480-1553 | a loop that gathered the whole continuation has performed the continued read |
| TcmRead.ChunkLoopPadding | drivers/input/touchscreen/synaptics_s3907/synaptics_tcm_core.c:1486-1491 | `in.buf[offset] = MESSAGE_PADDING` stays inside the buffer and advances the loop |
| TcmRead.ChunkLoopRead | drivers/input/touchscreen/synaptics_s3907/synaptics_tcm_core.c:1504-1547 | a good chunk is copied to `offset`, inside the buffer, and the loop advances |
| TcmRead.ChunkLoopStops | drivers/input/touchscreen/synaptics_s3907/synaptics_tcm_core.c:1506-1531 | a failed read or a bad header ends the loop with its error |
| TcmRead.GatherDone | drivers/input/touchscreen/synaptics_s3907/synaptics_tcm_core.c:1550-1553 | once every transfer is done, the result is what was copied, with no error |
| TcmRead.GatherWithin | drivers/input/touchscreen/synaptics_s3907/synaptics_tcm_core.c:1480-1548 | the gathered data never exceed the announced transfer lengths |
| TcmRead.AssembledMessage | drivers/input/touchscreen/synaptics_s3907/synaptics_tcm_core.c:1871-1911 | an assembled message is at least `4 + payload_length + 1` bytes; it starts with the marker, the code and the LE16 length, and ends in `MESSAGE_PADDING` |
| TcmRead.ContinuedMessage | drivers/input/touchscreen/synaptics_s3907/synaptics_tcm_core.c:1889-1901 | a continued read that succeeds leaves at least the whole message, led by the marker, the code and the LE16 length of the header read |
| TcmRead.ContinuedMessageBody | drivers/input/touchscreen/synaptics_s3907/synaptics_tcm_core.c:1889-1901 | after the bytes already read, the message holds exactly what the continuation chunks brought in |
| TcmRead.ContinuationLength | drivers/input/touchscreen/synaptics_s3907/synaptics_tcm_core.c:1450-1548 | a successful continuation with a positive space brings in exactly the `total - read_length` bytes left |
| TcmRead.FramingKeepsBody | drivers/input/touchscreen/synaptics_s3907/synaptics_tcm_core.c:1898-1901 | rewriting the four header bytes leaves the payload alone |
| TcmRead.RawRead | drivers/input/touchscreen/synaptics_s3907/synaptics_tcm_core.c:1566-1673 | `raw_read` ends with 0 or a negative error |
| TcmRead.RawReadFills | drivers/input/touchscreen/synaptics_s3907/synaptics_tcm_core.c:1580-1668 | a successful raw read whose first chunk is more than one byte fills exactly `length` bytes: the first chunk as read, then the data of continuation chunks that each carried `STATUS_CONTINUED_READ` |
| TcmRead.RawReadPaddingOnly | drivers/input/touchscreen/synaptics_s3907/synaptics_tcm_core.c:1580-1609 | a first chunk of one byte happens only for a 3-byte read or `rd_chunk_size` 3; then every transfer stores `MESSAGE_PADDING`, no bus read is made, the read returns 0, and `length - 2` bytes are filled |
| TcmRead.ReadMessageSpec | drivers/input/touchscreen/synaptics_s3907/synaptics_tcm_core.c:1775-1937 | (corrected pad store; see Findings) a read_message result is 0 or negative; a message is dispatched only after a successful read, and the buffer then holds all of it |
| TcmRead.ReadKeepsBufferRoom | drivers/input/touchscreen/synaptics_s3907/synaptics_tcm_core.c:1873-1920 | the input buffer never shrinks and keeps one more byte than the next read asks for (the corrected padding branch) |
| TcmReadAsWritten.PadStoreOverrun | drivers/input/touchscreen/synaptics_s3907/synaptics_tcm_core.c:1876-1878 | as written, a 10-byte message and then an 11-byte one store the second padding byte one past the end of the 10-byte input buffer |
| TcmReadAsWritten.PadStoresInBounds | drivers/input/touchscreen/synaptics_s3907/synaptics_tcm_core.c:1873-1920 | as written: whether every padding-only store over a run of messages lands inside the input buffer |
| TcmDispatch.TakeIdentify | drivers/input/touchscreen/synaptics_s3907/synaptics_tcm_core.c:1332-1359 | taking an identify report keeps the identification record's size |
| TcmDispatch.QueueHelper | drivers/input/touchscreen/synaptics_s3907/synaptics_tcm_core.c:1219-1224 | a helper task is queued only when none is active, and handed on as an event; guarded by `ReportDispatchHelperGuard` |
| TcmDispatch.IdentifyCompletion | drivers/input/touchscreen/synaptics_s3907/synaptics_tcm_core.c:1365-1382 | how an identify report resolves the command in flight; its meaning is `IdentifyResolvesCommand` |
| TcmDispatch.ResponseDispatch | drivers/input/touchscreen/synaptics_s3907/synaptics_tcm_core.c:1262-1314 | `dispatch_response` on the command in flight; its meaning is `ResponseDispatchExact` |
| TcmDispatch.ReportDispatch | drivers/input/touchscreen/synaptics_s3907/synaptics_tcm_core.c:1193-1253 | report dispatch never changes the identification or the command in flight |
| TcmDispatch.RouteOf | drivers/input/touchscreen/synaptics_s3907/synaptics_tcm_core.c:1384-1424 | where `dispatch_message` sends a message: withheld, a report or a response; `DispatchFollowsRoute` states what each route does |
| TcmDispatch.IdentifyStage | drivers/input/touchscreen/synaptics_s3907/synaptics_tcm_core.c:1332-1418 | the identify stage keeps the identification record's size |
| TcmDispatch.Dispatch | drivers/input/touchscreen/synaptics_s3907/synaptics_tcm_core.c:1325-1427 | dispatch keeps the identification record's size |
| TcmDispatch.FailRead | drivers/input/touchscreen/synaptics_s3907/synaptics_tcm_core.c:1926-1932 | a failed read fails the command in flight with CMD_ERROR and signals it; its meaning is `FailReadCompletion` |
| TcmDispatch.ReadStep | drivers/input/touchscreen/synaptics_s3907/synaptics_tcm_core.c:1921-1932 | the host state after one `read_message`: a failure, a dispatch, or nothing; its meaning is `ReadStepCompletion` |
| TcmDispatch.DispatchCompletion | drivers/input/touchscreen/synaptics_s3907/synaptics_tcm_core.c:1262-1427 | whenever dispatch moves the command out of CMD_BUSY it signals `response_complete`, and a command that is not busy is never changed |
| TcmDispatch.FailReadCompletion | drivers/input/touchscreen/synaptics_s3907/synaptics_tcm_core.c:1926-1932 | a failed read while busy sets CMD_ERROR and signals the waiter, and leaves the command not busy |
| TcmDispatch.ReadStepCompletion | drivers/input/touchscreen/synaptics_s3907/synaptics_tcm_core.c:1921-1932 | every `read_message` keeps the completion discipline of the command in flight |
| TcmDispatch.ReportDispatchHelperGuard | drivers/input/touchscreen/synaptics_s3907/synaptics_tcm_core.c:1217-1225 | an active helper task is never replaced; a task is queued only into an idle helper and handed on as it is queued |
| TcmDispatch.DispatchHelperGuard | drivers/input/touchscreen/synaptics_s3907/synaptics_tcm_core.c:1384-1397 | the one-task helper guard holds for a whole dispatch, including the ROM-boot download request |
| TcmDispatch.IdentifyResolvesCommand | drivers/input/touchscreen/synaptics_s3907/synaptics_tcm_core.c:1365-1382 | an identify report while busy completes the reset and run-firmware commands with STATUS_OK and Idle; any other command becomes Error; `response_complete` is signalled |
| TcmDispatch.IdentifySetsChunkSize | drivers/input/touchscreen/synaptics_s3907/synaptics_tcm_core.c:1332-1359 | an identify report copies as much of its payload as fits into `id_info`, and sets `wr_chunk_size` to `min(max_write_size, WR_CHUNK_SIZE)`, or `max_write_size` when that is 0; no other message changes them |
| TcmDispatch.ResponseDispatchExact | drivers/input/touchscreen/synaptics_s3907/synaptics_tcm_core.c:1262-1314 | a response reaches only a busy command, which ends Idle with the response code and exactly the payload, or Error when the response buffer cannot be allocated; the rest of the state is untouched |
| TcmDispatch.DispatchFollowsRoute | drivers/input/touchscreen/synaptics_s3907/synaptics_tcm_core.c:1414-1424 | a routed report becomes the current report and, unless it is a touch report, reaches the syncbox of exactly the settled modules; a withheld one reaches no module and no response |
| TcmFields.InfoQueryByMode | drivers/input/touchscreen/synaptics_s3907/synaptics_tcm_core.c:2885-2923 | identify queries the application info exactly in the firmware modes, the ROM-boot info exactly in the ROM bootloader, and nothing outside the firmware and bootloader modes |
| TcmFields.InfoQuery | drivers/input/touchscreen/synaptics_s3907/synaptics_tcm_core.c:2885-2923 | the info query `identify` makes in each firmware mode; its meaning is `InfoQueryByMode` |
| TcmFields.PartialCopy | drivers/input/touchscreen/synaptics_s3907/synaptics_tcm_core.c:2862-2865 | the record keeps its size, and its first `MIN(sizeof, resp_length)` bytes come from the response |
| TcmFields.PartialCopyPrefix | drivers/input/touchscreen/synaptics_s3907/synaptics_tcm_core.c:2711-2714 | the copy is the response prefix followed by the rest of the old record |
| TcmFields.Le32 | drivers/input/touchscreen/synaptics_s3907/synaptics_tcm_core.c:2872 | `le4_to_uint` of the build id is a 32-bit value |
| TcmFields.WrChunkFromIdentifyBounds | drivers/input/touchscreen/synaptics_s3907/synaptics_tcm_core.c:2874-2877 | the adopted write chunk size never exceeds the device's `max_write_size`; it is within `WR_CHUNK_SIZE` when both are set, is the device's value when there is no limit, and is 0 only when the device reports 0 |
| TcmFields.WrChunkFromIdentify | drivers/input/touchscreen/synaptics_s3907/synaptics_tcm_core.c:2874-2877 | `MIN(max_write_size, WR_CHUNK_SIZE)`, or `max_write_size` when that is 0; bounds in `WrChunkFromIdentifyBounds` |
| TcmFields.SetDynamicConfigPayload | drivers/input/touchscreen/synaptics_s3907/synaptics_tcm_core.c:3203-3205 | the SET_DYNAMIC_CONFIG payload is three bytes |
| TcmFields.DynamicConfigRoundTrip | drivers/input/touchscreen/synaptics_s3907/synaptics_tcm_core.c:3174-3205 | a 16-bit value sent by SET_DYNAMIC_CONFIG decodes back unchanged the way GET_DYNAMIC_CONFIG reads it; the first payload byte is the truncated id |
| TcmFields.DynamicConfigValue | drivers/input/touchscreen/synaptics_s3907/synaptics_tcm_core.c:3173-3179 | a GET_DYNAMIC_CONFIG response shorter than two bytes is -EINVAL, otherwise its first two bytes as LE16; round trip in `DynamicConfigRoundTrip` |
| TcmFields.DataAreaCode | drivers/input/touchscreen/synaptics_s3907/synaptics_tcm_core.c:3263-3276 | the code sent for each flash area, -EINVAL for any other area; distinctness in `DataLocationDecoding` |
| TcmFields.DataLocation | drivers/input/touchscreen/synaptics_s3907/synaptics_tcm_core.c:3291-3298 | a data-location response other than 4 bytes is -EINVAL, otherwise two LE16 fields; decoding in `DataLocationDecoding` |
| TcmFields.DataLocationDecoding | drivers/input/touchscreen/synaptics_s3907/synaptics_tcm_core.c:3263-3298 | distinct areas get distinct codes and any other area is -EINVAL; a location decodes exactly from a 4-byte response, as two LE16 fields |
| TcmModules.VisitsAppend | drivers/input/touchscreen/synaptics_s3907/synaptics_tcm_core.c:1230-1238 | a fan-out visits the list in order |
| TcmModules.Visits | drivers/input/touchscreen/synaptics_s3907/synaptics_tcm_core.c:1230-1238 | the callbacks a fan-out makes: settled handlers providing the callback, in list order; see `VisitsOnlySettled` |
| TcmModules.VisitsOnlySettled | drivers/input/touchscreen/synaptics_s3907/synaptics_tcm_core.c:1230-1238 | every callback goes to a handler with neither flag set that provides the callback, and every such handler gets its call; a list with no such handler gets no calls |
| TcmModules.PendingInsertNotVisited | drivers/input/touchscreen/synaptics_s3907/synaptics_tcm_core.c:1073-1084 | a module just added is not notified until the module work has run |
| TcmModules.WorkAppend | drivers/input/touchscreen/synaptics_s3907/synaptics_tcm_core.c:1113-1128 | the module work processes the list in order |
| TcmModules.WorkCalls | drivers/input/touchscreen/synaptics_s3907/synaptics_tcm_core.c:1113-1128 | the init and remove calls of the module work, in list order; see `InsertThenWork` |
| TcmModules.AfterWork | drivers/input/touchscreen/synaptics_s3907/synaptics_tcm_core.c:1113-1128 | the list the module work leaves; see `WorkSettlesAll` |
| TcmModules.WorkCallsAppend | drivers/input/touchscreen/synaptics_s3907/synaptics_tcm_core.c:1113-1128 | the work's init and remove calls for a concatenation are those of each part in turn |
| TcmModules.AfterWorkAppend | drivers/input/touchscreen/synaptics_s3907/synaptics_tcm_core.c:1113-1128 | the list the work leaves for a concatenation is that of each part in turn |
| TcmModules.WorkSettlesAll | drivers/input/touchscreen/synaptics_s3907/synaptics_tcm_core.c:1113-1128 | after the module work every remaining handler is settled and detached ones are gone; running the work again changes nothing and calls nothing |
| TcmModules.InsertThenWork | drivers/input/touchscreen/synaptics_s3907/synaptics_tcm_core.c:1073-1128 | inserting a module and running the work calls its init after the rest of the list's calls, and leaves it settled at the tail |
| TcmModules.MarkFirstDetachExact | drivers/input/touchscreen/synaptics_s3907/synaptics_tcm_core.c:1085-1093 | removal flags exactly the first handler of the type; the others are unchanged, and a list without one is left as it is |
| TcmModules.MarkFirstDetach | drivers/input/touchscreen/synaptics_s3907/synaptics_tcm_core.c:1085-1093 | removal flags the first handler of the type; its meaning is `MarkFirstDetachExact` |
| TcmModules.MarkFirstDetachNone | drivers/input/touchscreen/synaptics_s3907/synaptics_tcm_core.c:1085-1093 | removal keeps the length and leaves a list without a handler of that type unchanged |
| TcmModules.MarkFirstDetachAt | drivers/input/touchscreen/synaptics_s3907/synaptics_tcm_core.c:1085-1093 | removal flags the handler at j when it is the first of the type, and nothing else |
| TcmModules.VisitsStep | drivers/input/touchscreen/synaptics_s3907/synaptics_tcm_core.c:1230-1238 | a fan-out visiting one more handler adds that handler's call, if any |
| TcmModules.WorkStep | drivers/input/touchscreen/synaptics_s3907/synaptics_tcm_core.c:1113-1128 | the work processing one more handler adds its init or remove call and keeps or unlinks it |
| TcmModules.ModulePool.constructor | drivers/input/touchscreen/synaptics_s3907/synaptics_tcm_core.c:271 | the pool starts empty, uninitialised and with no waits counted |
| TcmModules.ModulePool.Open | drivers/input/touchscreen/synaptics_s3907/synaptics_tcm_core.c:4633-4637 | the core's probe makes the pool usable and lets module work be queued |
| TcmModules.ModulePool.AddModule | drivers/input/touchscreen/synaptics_s3907/synaptics_tcm_core.c:1026-1102 | waits for the pool only on the first registration and gives up after the wait; insert appends a pending-insert handler at the tail; remove flags the first handler of the type; the work is queued |
| TcmModules.ModulePool.ModuleWork | drivers/input/touchscreen/synaptics_s3907/synaptics_tcm_core.c:1105-1133 | the list becomes `AfterWork` of the old list and the calls made are `WorkCalls` of it, in list order |
| TcmModules.ModulePool.Notify | drivers/input/touchscreen/synaptics_s3907/synaptics_tcm_core.c:1228-1242 | a fan-out calls each settled handler providing the callback, in list order, and changes nothing else |
| TcmCore.CommandResultMeaning | drivers/input/touchscreen/synaptics_s3907/synaptics_tcm_core.c:2128-2160 | a waited command returns 0 exactly when the response arrived, left CMD_IDLE and carries STATUS_OK; -ETIME exactly on timeout; otherwise -EIO |
| TcmCore.CommandResult | drivers/input/touchscreen/synaptics_s3907/synaptics_tcm_core.c:2128-2160 | the return value of a waited-for command; its meaning is `CommandResultMeaning` |
| TcmCore.Repeat | drivers/input/touchscreen/synaptics_s3907/synaptics_tcm_core.c:2700-2728 | a command issued n times is logged n times |
| TcmCore.FirstSwitchCommand | drivers/input/touchscreen/synaptics_s3907/synaptics_tcm_core.c:3103-3133 | the first command `switch_mode` sends for each target mode, the ROM-boot variant when the ROM bootloader is running (lines 3047-3049), and none for an invalid mode; used by `SwitchMode` |
| TcmCore.TcmDevice.constructor | drivers/input/touchscreen/synaptics_s3907/synaptics_tcm_core.c:4567-4624 | probe sets the chunk sizes, `read_length = MIN_READ_LENGTH`, an input buffer of `read_length + 1` bytes, CMD_IDLE and HELP_NONE, and no device detected |
| TcmCore.TcmDevice.WriteChunks | drivers/input/touchscreen/synaptics_s3907/synaptics_tcm_core.c:1712-1757 | the chunk loop's bus log and error are those of writing the loop's frames until the first rejection |
| TcmCore.TcmDevice.RawWrite | drivers/input/touchscreen/synaptics_s3907/synaptics_tcm_core.c:1686-1762 | `raw_write` sends exactly the raw write frames up to the first rejection, and returns 0 or the bus error |
| TcmCore.TcmDevice.ReadMessageHeader | drivers/input/touchscreen/synaptics_s3907/synaptics_tcm_core.c:1791-1869 | the header read loop ends in the state and outcome `ReadHeader` specifies |
| TcmCore.TcmDevice.HeaderAttempt | drivers/input/touchscreen/synaptics_s3907/synaptics_tcm_core.c:1793-1869 | one pass of the retry loop either stops with `ReadHeader`'s outcome or goes round with the retry flag and count it specifies |
| TcmCore.TcmDevice.ContinuedRead | drivers/input/touchscreen/synaptics_s3907/synaptics_tcm_core.c:1437-1554 | the continued read leaves the input buffer, bus queue and error `TcmRead.ContinuedRead` specifies |
| TcmCore.TcmDevice.ContinuationChunks | drivers/input/touchscreen/synaptics_s3907/synaptics_tcm_core.c:1480-1548 | the chunk loop writes exactly the gathered bytes into the buffer, from the start offset on |
| TcmCore.TcmDevice.ContinuationChunk | drivers/input/touchscreen/synaptics_s3907/synaptics_tcm_core.c:1481-1547 | one pass stores the padding byte or one chunk's data, or stops with the loop's error and the buffer unchanged |
| TcmCore.TcmDevice.DispatchResponse | drivers/input/touchscreen/synaptics_s3907/synaptics_tcm_core.c:1262-1314 | the command in flight becomes `ResponseDispatch` of the message |
| TcmCore.TcmDevice.TakeIdentifyReport | drivers/input/touchscreen/synaptics_s3907/synaptics_tcm_core.c:1332-1359 | the identification becomes `TakeIdentify` of the payload |
| TcmCore.TcmDevice.QueueHelperTask | drivers/input/touchscreen/synaptics_s3907/synaptics_tcm_core.c:1219-1224 | a helper task is queued only when none is active |
| TcmCore.TcmDevice.CompleteByIdentify | drivers/input/touchscreen/synaptics_s3907/synaptics_tcm_core.c:1365-1382 | the command in flight is resolved by the identify report |
| TcmCore.TcmDevice.DispatchReport | drivers/input/touchscreen/synaptics_s3907/synaptics_tcm_core.c:1193-1253 | the host state becomes `ReportDispatch` of the message, and the module list is untouched |
| TcmCore.TcmDevice.IdentifyPrologue | drivers/input/touchscreen/synaptics_s3907/synaptics_tcm_core.c:1332-1418 | the identify-report part of dispatch ends as `IdentifyStage` says |
| TcmCore.TcmDevice.DispatchMessage | drivers/input/touchscreen/synaptics_s3907/synaptics_tcm_core.c:1325-1427 | the host state becomes `Dispatch` of the message |
| TcmCore.TcmDevice.AssembleMessage | drivers/input/touchscreen/synaptics_s3907/synaptics_tcm_core.c:1871-1911 | (corrected pad store; see Findings) the assembly leaves the buffer, bus queue and error `Assemble` specifies |
| TcmCore.TcmDevice.ReadOn | drivers/input/touchscreen/synaptics_s3907/synaptics_tcm_core.c:1887-1911 | the continued-read branch ends as `Continuation` specifies |
| TcmCore.TcmDevice.ReadTransport | drivers/input/touchscreen/synaptics_s3907/synaptics_tcm_core.c:1791-1920 | (corrected pad store; see Findings) the transport part of `read_message` ends in the state `ReadMessageSpec` specifies |
| TcmCore.TcmDevice.ReadMessage | drivers/input/touchscreen/synaptics_s3907/synaptics_tcm_core.c:1775-1937 | (corrected pad store; see Findings) `read_message` ends as `ReadMessageSpec` says, and the host state becomes `ReadStep` of it: a dispatch, or the command failed on a read error |
| TcmCore.TcmDevice.WaitResponse | drivers/input/touchscreen/synaptics_s3907/synaptics_tcm_core.c:2128-2138 | during the wait the command either stays busy and unsignalled, or is resolved and signalled |
| TcmCore.TcmDevice.BeginCommand | drivers/input/touchscreen/synaptics_s3907/synaptics_tcm_core.c:1997-2011 | CMD_BUSY, `response_complete` re-armed, an empty response, and the command recorded |
| TcmCore.TcmDevice.FramedCommand | drivers/input/touchscreen/synaptics_s3907/synaptics_tcm_core.c:1992-2169 | the framed writes are sent with the chunk size the command started with; a write error, 0 for an HDL reset, or the outcome of the wait is returned; the response is handed back only after an Idle completion |
| TcmCore.TcmDevice.WriteMessage | drivers/input/touchscreen/synaptics_s3907/synaptics_tcm_core.c:1956-2179 | -EINVAL from the interrupt context without polling, with nothing changed; otherwise a raw write or a framed command, and every exit leaves CMD_NONE and CMD_IDLE, also after a timeout |
| TcmCore.TcmDevice.Query | drivers/input/touchscreen/synaptics_s3907/synaptics_tcm_core.c:2750-2758 | one framed command from process context is logged, its frames written, nothing is left in flight, and success means a STATUS_OK response handed back |
| TcmCore.TcmDevice.AppInfoAttempt | drivers/input/touchscreen/synaptics_s3907/synaptics_tcm_core.c:2700-2721 | one application-info query copies the response into the record on success |
| TcmCore.TcmDevice.GetAppInfo | drivers/input/touchscreen/synaptics_s3907/synaptics_tcm_core.c:2687-2738 | 1 to `MAX_APP_INFO_QUERIES` application-info queries; on success the record holds the last response, `app_status` is its status field, and a status still booting or updating means every allowed query was made |
| TcmCore.TcmDevice.GetBootInfo | drivers/input/touchscreen/synaptics_s3907/synaptics_tcm_core.c:2740-2776 | one CMD_GET_BOOT_INFO; the boot info is the partial copy of the response on success and unchanged otherwise |
| TcmCore.TcmDevice.GetRombootInfo | drivers/input/touchscreen/synaptics_s3907/synaptics_tcm_core.c:2778-2834 | one CMD_GET_ROMBOOT_INFO; the ROM-boot info is the partial copy of the response on success and unchanged otherwise |
| TcmCore.TcmDevice.IdentifyAttempt | drivers/input/touchscreen/synaptics_s3907/synaptics_tcm_core.c:2852-2877 | CMD_IDENTIFY, and on success the identification is the copied response |
| TcmCore.TcmDevice.Identify | drivers/input/touchscreen/synaptics_s3907/synaptics_tcm_core.c:2836-2933 | optionally CMD_IDENTIFY, then exactly the info queries its mode calls for (none outside the firmware and bootloader modes), and at least one on success; after an IDENTIFY, that mode is the one the IDENTIFY response carries |
| TcmCore.TcmDevice.InfoQueryFor | drivers/input/touchscreen/synaptics_s3907/synaptics_tcm_core.c:2882-2923 | the switch on the firmware mode issues the info query `InfoQuery` names, possibly polled, or none |
| TcmCore.TcmDevice.RunProductionTestFirmware | drivers/input/touchscreen/synaptics_s3907/synaptics_tcm_core.c:2935-2980 | one or two CMD_ENTER_PRODUCTION_TEST_MODE; success means the production-test firmware runs; -EINVAL only after two attempts that did not reach it |
| TcmCore.TcmDevice.RunApplicationAttempt | drivers/input/touchscreen/synaptics_s3907/synaptics_tcm_core.c:2996-3012 | CMD_RUN_APPLICATION_FIRMWARE first, then the info query of identify |
| TcmCore.TcmDevice.RunApplicationFirmware | drivers/input/touchscreen/synaptics_s3907/synaptics_tcm_core.c:2982-3035 | one or two attempts; success means a firmware mode; -EINVAL only after two attempts that did not reach one |
| TcmCore.TcmDevice.RunBootloaderFirmware | drivers/input/touchscreen/synaptics_s3907/synaptics_tcm_core.c:3037-3090 | the ROM-boot variant from the ROM bootloader, otherwise the plain command followed by identify's info query, which must leave the firmware modes (-EINVAL otherwise) |
| TcmCore.TcmDevice.SwitchMode | drivers/input/touchscreen/synaptics_s3907/synaptics_tcm_core.c:3092-3147 | an unknown mode is -EINVAL and sends nothing; a successful switch reaches the requested kind of firmware |
| TcmCore.TcmDevice.GetDynamicConfig | drivers/input/touchscreen/synaptics_s3907/synaptics_tcm_core.c:3149-3188 | CMD_GET_DYNAMIC_CONFIG with the id as payload; success yields the 16-bit value of the response's first two bytes; -EINVAL for a shorter response |
| TcmCore.TcmDevice.SetDynamicConfig | drivers/input/touchscreen/synaptics_s3907/synaptics_tcm_core.c:3190-3223 | CMD_SET_DYNAMIC_CONFIG with the id and the value low byte first |
| TcmCore.TcmDevice.GetDataLocation | drivers/input/touchscreen/synaptics_s3907/synaptics_tcm_core.c:3253-3306 | an unknown area is -EINVAL and sends nothing; otherwise the area's code is sent; success decodes the 4-byte response, and -EINVAL for a known area means the response was not 4 bytes |
| TcmCore.TcmDevice.WaitHdl | drivers/input/touchscreen/synaptics_s3907/synaptics_tcm_core.c:2181-2203 | a pending host download stays pending only when a signal interrupts the wait; -EIO exactly when one was pending and the wait timed out, 0 otherwise, including after a signal |
| XiaomiTouch.SensorModeDistinct | drivers/input/touchscreen/xiaomi/xiaomi_touch.c:278-286 | the three sensors are switched through three distinct touch modes, none of which the broker answers itself |
| XiaomiTouch.Register | drivers/input/touchscreen/xiaomi/xiaomi_touch.c:107-115 | registration returns 0 or -EINVAL, and a refused one leaves the table as it was |
| XiaomiTouch.Unregister | drivers/input/touchscreen/xiaomi/xiaomi_touch.c:118-125 | unregistration returns 0 or -EINVAL, and a successful one leaves the slot empty |
| XiaomiTouch.RegisterTakesEmptySlot | drivers/input/touchscreen/xiaomi/xiaomi_touch.c:110-112 | registration succeeds exactly for an existing, empty slot, which then holds the client while no other slot changes |
| XiaomiTouch.RegisterKeepsClient | drivers/input/touchscreen/xiaomi/xiaomi_touch.c:110-111 | a registered client cannot be replaced |
| XiaomiTouch.UnregisterUndoesRegister | drivers/input/touchscreen/xiaomi/xiaomi_touch.c:107-125 | unregistering undoes a registration |
| XiaomiTouch.UnregisterIdempotent | drivers/input/touchscreen/xiaomi/xiaomi_touch.c:118-125 | unregistering twice is unregistering once |
| XiaomiTouch.StatusReadOnce | drivers/input/touchscreen/xiaomi/xiaomi_touch.c:198-203 | a status read shows the pending event; an event of 1 is seen once and then reads 0, while any other value stays |
| XiaomiTouch.ReadStatus | drivers/input/touchscreen/xiaomi/xiaomi_touch.c:198-203 | `atomic_cmpxchg(pending_event, 1, 0)`: the value shown and the value left; its meaning is `StatusReadOnce` |
| XiaomiTouch.Target | drivers/input/touchscreen/xiaomi/xiaomi_touch.c:172-173 | there is one stored value per sensor |
| XiaomiTouch.TargetBits | drivers/input/touchscreen/xiaomi/xiaomi_touch.c:172-173 | disabling stores 0 for every sensor and enabling stores the requested states, which stay 0/1 |
| XiaomiTouch.Changes | drivers/input/touchscreen/xiaomi/xiaomi_touch.c:171-181 | the calls go to the panel's client, at most one per sensor, and never with a mode the broker answers itself |
| XiaomiTouch.ChangesNext | drivers/input/touchscreen/xiaomi/xiaomi_touch.c:174-180 | a sensor whose value changes adds its call after the earlier ones; an unchanged one adds none |
| XiaomiTouch.ChangesExactly | drivers/input/touchscreen/xiaomi/xiaomi_touch.c:174-180 | `set_mode_value` is called for a sensor exactly when its stored value changes, and with the new value |
| XiaomiTouch.ChangesNone | drivers/input/touchscreen/xiaomi/xiaomi_touch.c:174-180 | when nothing changes, nothing is called |
| XiaomiTouch.UpdateDriverMeaning | drivers/input/touchscreen/xiaomi/xiaomi_touch.c:160-182 | with a usable client the panel's row ends as the requested states (all 0 when disabling) and the other panel's row is untouched; the client hears exactly about the changed sensors; without one nothing happens |
| XiaomiTouch.UpdateTable | drivers/input/touchscreen/xiaomi/xiaomi_touch.c:160-182 | the per-panel table after `oneshot_sensor_update_driver`; its meaning is `UpdateDriverMeaning` |
| XiaomiTouch.UpdateCalls | drivers/input/touchscreen/xiaomi/xiaomi_touch.c:166-181 | the `set_mode_value` calls of `oneshot_sensor_update_driver`; its meaning is `UpdateDriverMeaning` and `ChangesExactly` |
| XiaomiTouch.UpdateDriverSettles | drivers/input/touchscreen/xiaomi/xiaomi_touch.c:160-182 | pushing the same request twice: the second push changes nothing and calls nobody |
| XiaomiTouch.FoldStatusRoundTrip | drivers/input/touchscreen/xiaomi/xiaomi_touch.c:310-318 | fold statuses and panels correspond one to one, as get reports them and set reads them |
| XiaomiTouch.FoldStatusOf | drivers/input/touchscreen/xiaomi/xiaomi_touch.c:310-318 | the fold status `touch_mode_get` reports for the active panel |
| XiaomiTouch.FoldTouchId | drivers/input/touchscreen/xiaomi/xiaomi_touch.c:344-355 | the panel a fold status asks for; inverse of `FoldStatusOf` by `FoldStatusRoundTrip` |
| XiaomiTouch.FoldSwitchAsWrittenIgnoresFold | drivers/input/touchscreen/xiaomi/xiaomi_touch.c:344-364 | as written, reporting "folded" while unfolded returns 0 and still reports "unfolded" afterwards |
| XiaomiTouch.FoldSwitchAsWritten | drivers/input/touchscreen/xiaomi/xiaomi_touch.c:344-364 | as written: a valid fold status returns 0 without changing the active panel |
| XiaomiTouch.FoldSwitchReported | drivers/input/touchscreen/xiaomi/xiaomi_touch.c:344-364 | corrected: an accepted fold status is the one reported afterwards; any other is -EINVAL and changes nothing |
| XiaomiTouch.FoldSwitch | drivers/input/touchscreen/xiaomi/xiaomi_touch.c:344-364 | corrected: a valid fold status makes its panel the active one; see `FoldSwitchReported` |
| XiaomiTouch.Broker.constructor | drivers/input/touchscreen/xiaomi/xiaomi_touch.c:25-100 | the broker starts with no clients, nothing pending, requested or enabled, the primary panel active, and resumed |
| XiaomiTouch.Broker.RegisterClient | drivers/input/touchscreen/xiaomi/xiaomi_touch.c:107-115 | the client table and result are those of `Register` |
| XiaomiTouch.Broker.UnregisterClient | drivers/input/touchscreen/xiaomi/xiaomi_touch.c:118-125 | the client table and result are those of `Unregister` |
| XiaomiTouch.Broker.NotifyOneshotSensor | drivers/input/touchscreen/xiaomi/xiaomi_touch.c:128-148 | an unknown or unmapped sensor is -EINVAL with no change; otherwise 0, and the event becomes the pending one unless gestures are disabled by pocket or non-UI mode |
| XiaomiTouch.Broker.StatusShow | drivers/input/touchscreen/xiaomi/xiaomi_touch.c:191-204 | the status read of one sensor is `ReadStatus` of its pending event, and the other sensors are untouched |
| XiaomiTouch.Broker.EnabledShow | drivers/input/touchscreen/xiaomi/xiaomi_touch.c:206-217 | the requested state shown is 0 or 1 |
| XiaomiTouch.Broker.EnabledStore | drivers/input/touchscreen/xiaomi/xiaomi_touch.c:219-245 | only 0 and 1 are taken (-EINVAL otherwise, with no change); the requested state is stored; the enable work is requeued exactly when it changed; the whole input is consumed |
| XiaomiTouch.Broker.UpdateDriver | drivers/input/touchscreen/xiaomi/xiaomi_touch.c:160-182 | the loop over the sensors leaves exactly `UpdateTable` and logs exactly `UpdateCalls` |
| XiaomiTouch.Broker.EnableHandler | drivers/input/touchscreen/xiaomi/xiaomi_touch.c:184-189 | requested states reach the active panel only while suspended |
| XiaomiTouch.Broker.RunEnableWork | drivers/input/touchscreen/xiaomi/xiaomi_touch.c:237-240 | the queued enable work runs the handler and is no longer queued |
| XiaomiTouch.Broker.TouchModeGet | drivers/input/touchscreen/xiaomi/xiaomi_touch.c:300-328 | the fold status names the active panel; other modes are the client's answer, or -EFAULT without a client that can answer |
| XiaomiTouch.Broker.SwitchPanel | drivers/input/touchscreen/xiaomi/xiaomi_touch.c:356-363 | corrected panel change: the gestures of the old panel are enabled on the new one, the old one is disabled, and the new one becomes active |
| XiaomiTouch.Broker.ModeSetDone | drivers/input/touchscreen/xiaomi/xiaomi_touch.c:330-376 | what `touch_mode_set` leaves behind (corrected fold switch; see Findings): local modes stored and read back, a valid fold status switching the panel and an invalid one -EINVAL with no change, other modes forwarded to the client or -EFAULT |
| XiaomiTouch.Broker.TouchModeSet | drivers/input/touchscreen/xiaomi/xiaomi_touch.c:330-376 | (corrected fold switch; see Findings) ends as `ModeSetDone` says: a local mode that was set reads back as the value set; a valid fold status switches the active panel and an invalid one is -EINVAL with no change; other modes are forwarded, or -EFAULT |
| XiaomiTouch.Broker.PanelEventCallback | drivers/input/touchscreen/xiaomi/xiaomi_touch.c:481-520 | a blank that has happened suspends and queues the enable work; an unblank about to happen resumes and cancels it; anything else, or no notification, changes nothing |
| XiaomiTouch.Broker.Ioctl | drivers/input/touchscreen/xiaomi/xiaomi_touch.c:445-474 | a failed copy-in is -EFAULT and an unknown command -EINVAL, both with no change; GET hands back the value, or -EINVAL for a negative one, with no change; SET ends exactly as `touch_mode_set` does (`ModeSetDone`, corrected fold switch; see Findings) |

## Left out

- Memory management is not modelled: `syna_tcm_alloc_mem`, `syna_tcm_realloc_mem` and `secure_memcpy` always succeed and copy within bounds. The one exception is the response buffer allocation in `dispatch_response`, modelled by a flag.
- An allocation failure of the out buffer inside `write_message`'s chunk loop is not modelled, for the same reason.
- The report buffer is modelled as a copy of the payload, not as a view into the input buffer.
- Locks, mutexes, the interrupt handler and concurrency are left out. The wait for a response is sequential: the interrupt handler runs `read_message` once per message the bus script announces for the wait.
- Timing is left out: `usleep_range`, `msleep`, the `RESPONSE_TIMEOUT_MS` and `HOST_DOWNLOAD_TIMEOUT_MS` timeouts, and the 300 ms delay of the enable work. Delayed work is a queued flag. How the interruptible host-download wait ends (finished, timed out, or interrupted by a signal) is the `HdlWait` parameter of `TcmCore.TcmDevice.WaitHdl`.
- The polling work, the watchdog and its counter, and the body of the helper work (touch reinit, ROM-boot download) are left out. Only the queuing of a helper task is modelled.
- The `FORCE_RUN_APPLICATION_FIRMWARE` build option of `dispatch_message` is left out.
- The non-`PREDICTIVE_READING` build of `read_message` is left out; the predictive build is modelled.
- Module callbacks are recorded as calls, not run. The reinit, suspend and resume fan-outs are `ModulePool.Notify` with another callback.
- The sizes of the boot and ROM-boot info records are parameters. The application info record is modelled by its first four bytes, version and status.
- A chunk space of 0 makes `ceil_div` (synaptics_tcm_core.c:1706, 1471, 1595, 2035) divide by zero in C. This happens with `wr_chunk_size` 1 in `raw_write` and `write_message`, with `rd_chunk_size` 2 in `continued_read` and `raw_read`, with a `WR_CHUNK_SIZE` below `ROMBOOT_DOWNLOAD_UNIT + 1` for a ROM-boot download, and with a chunk size of 0 and nothing left to transfer. The model takes the quotient to be 0, the AArch64 `UDIV` result, so such a loop makes one transfer that moves no data; the chunking lemmas (`RawWriteChunking`, `FramedWriteLayout`, `ContinuationLength`) exclude these sizes.
- An `rd_chunk_size` of 1 is excluded: `rd_chunk_size - 2` wraps around to a huge unsigned chunk space in C. `TcmCore.TcmDevice.constructor` requires a read chunk size of 0 or at least 2.
- Log messages are left out, and so are branches that only log.
- `sysfs_notify` is left out.
- The text formatting of the sysfs show and store handlers is left out. `kstrtouint`'s result is a parameter of `EnabledStore`.
- `touch_mode_show`, `touch_mode_store` and the other sysfs attributes are thin wrappers of `touch_mode_get` and `touch_mode_set`, and are left out.
- `get_mode_value` of a client is not run: its answer is a parameter of `TouchModeGet` and `Ioctl`. `set_mode_value`'s return value is ignored by the broker and is not modelled.
- `copy_to_user` is modelled only by the number of bytes it leaves uncopied.
- Module init and exit, device and misc-device creation, and panel notifier registration are left out.
- `linux/xiaomi_touch.h` (enum values) and `synaptics_tcm_core.h` (protocol codes, chunk sizes) are not part of this model; see above.
- TcmBus.TcmBus.Read: a failed bus read yields `BUS_ERROR` (-EIO), where `syna_tcm_read` passes on the bus driver's own negative code (synaptics_tcm_core.c:1796-1807, 1506-1512, 1609-1615); that driver is not part of this model.
- TcmBus.TcmBus.Write: a rejected write yields `BUS_ERROR` (-EIO) instead of the bus driver's code, and an accepted one yields 0 instead of the driver's return value.
- TcmCore.TcmDevice.RawWrite: returns `BUS_ERROR` for a rejected write where `raw_write` returns the driver's code (1747-1753).
- TcmCore.TcmDevice.FramedCommand: returns `BUS_ERROR` for a rejected write where `write_message` returns the driver's code (2098-2107); an HDL-reset command returns 0 where the source returns the last `syna_tcm_write` result (2119-2120).
- TcmCore.TcmDevice.WriteMessage: inherits both of the above from `RawWrite` and `FramedCommand`.
- XiaomiTouch.Broker.UpdateDriver: exchanges the entries of a copy of the panel's row and stores the row when the pass is over, instead of exchanging entry by entry in place. No other code runs during the pass, so the end state is the same.
- TcmCore.TcmDevice.GetAppInfo: does not state what the record holds after a failed query.

## Findings

| source | as written | input that shows it | evidently intended | confidence | as-written member | corrected member |
|---|---|---|---|---|---|---|
| drivers/input/touchscreen/xiaomi/xiaomi_touch.c:344-364 | each valid fold status returns 0 inside the inner switch, so the panel change at lines 356-363 is unreachable and the active panel never changes | `touch_mode_set(TOUCH_MODE_FOLD_STATUS, FOLDED)` while the primary panel is active: returns 0, and `touch_mode_get` still reports UNFOLDED | a valid fold status moves the enabled gestures to the requested panel and makes it the active one | high, not executed | XiaomiTouch.FoldSwitchAsWrittenIgnoresFold | XiaomiTouch.FoldSwitchReported |
| drivers/input/touchscreen/synaptics_s3907/synaptics_tcm_core.c:1876-1878 | when the message is one byte longer than the read, the padding byte is stored at `in.buf[read_length]` without growing the buffer, and `read_length` then grows past the buffer's size | after probe (10-byte buffer, read length 9), a 10-byte message raises the read length to 10; a following 11-byte message stores its padding byte at index 10 of the 10-byte buffer | the buffer is grown to `total` bytes before the padding byte is stored, so it always keeps one byte more than the read length | medium, not executed | TcmReadAsWritten.PadStoreOverrun | TcmRead.ReadKeepsBufferRoom |
| drivers/input/touchscreen/synaptics_s3907/synaptics_tcm_core.c:2084 | continuation chunk idx of a framed command is copied from `&payload[idx * chunk_space - 2]` | a write chunk size of 2 (chunk space 1) and a payload of one byte or more: chunk 1 is copied from `payload[-1]` | chunk idx carries the framed stream from offset `idx * chunk_space`, here the high length byte | low, not executed | TcmChunks.AsWrittenOffsetSpaceOne | TcmChunks.FramedWriteLayout |
