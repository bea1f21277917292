/**
 * The TCM core device (struct syna_tcm_hcd) and its transport: the message
 * read path run from the interrupt handler, the dispatch of what it reads to
 * the command in flight, to the report consumers and to the helper work, and
 * the command engine that frames a command, writes it in chunks and waits for
 * its response.
 *
 * Concurrency is modelled by its effect: while a command waits for its
 * response, the interrupt handler runs read_message once per message the
 * device sends (the count comes from the bus script); completion of the
 * response is the `completed` flag.
 */
module TcmCore {
  import opened Errno
  import opened TcmProtocol
  import opened TcmChunks
  import opened TcmRead
  import opened TcmModules
  import opened TcmBus
  import opened TcmFields
  import opened TcmDispatch

  /** The return value of a framed command whose chunks were all written and that was waited for. */
  function CommandResult(completed: bool, statusAtWake: CommandStatus, responseCode: byte): int
  {
    if !completed then -ETIME
    else if statusAtWake != Idle then -EIO
    else if responseCode != STATUS_OK then -EIO
    else 0
  }

  /**
   * A waited-for command succeeds exactly when its response arrived, was
   * taken in without error and carries STATUS_OK; every failure is a
   * timeout or an I/O error.
   */
  lemma CommandResultMeaning(completed: bool, statusAtWake: CommandStatus, responseCode: byte)
    ensures CommandResult(completed, statusAtWake, responseCode) == 0
            <==> completed && statusAtWake == Idle && responseCode == STATUS_OK
    ensures CommandResult(completed, statusAtWake, responseCode) == -ETIME <==> !completed
    ensures CommandResult(completed, statusAtWake, responseCode) in {0, -ETIME, -EIO}
  {
  }

  /** `n` copies of a command, as a helper that issues it `n` times logs it. */
  function Repeat(command: byte, n: nat): (cs: seq<byte>)
    ensures |cs| == n && forall i :: 0 <= i < n ==> cs[i] == command
  {
    if n == 0 then [] else Repeat(command, n - 1) + [command]
  }

  /** enum firmware_mode as syna_tcm_switch_mode accepts it; any other value is OtherMode. */
  datatype FirmwareMode = FwBootloader | FwApplication | FwProductionTest | OtherMode

  /** How the interruptible wait for a host download ends: the download finishes, the timeout expires, or a signal arrives. */
  datatype HdlWait = HdlFinished | HdlTimedOut | HdlInterrupted

  /** The first command syna_tcm_switch_mode sends for a target mode, from the current firmware mode. */
  function FirstSwitchCommand(target: FirmwareMode, current: byte): byte
  {
    match target
    case FwBootloader =>
      if current == MODE_ROMBOOTLOADER then CMD_ROMBOOT_RUN_BOOTLOADER_FIRMWARE else CMD_RUN_BOOTLOADER_FIRMWARE
    case FwApplication => CMD_RUN_APPLICATION_FIRMWARE
    case FwProductionTest => CMD_ENTER_PRODUCTION_TEST_MODE
    case OtherMode => CMD_NONE
  }

  class TcmDevice {
    const bus: TcmBus
    const pool: ModulePool
    /** RD_CHUNK_SIZE: largest bus read, 0 for unlimited. */
    const rdChunkSize: nat
    /** WR_CHUNK_SIZE: compile-time bound on the write chunk size, 0 for none. */
    const wrChunkLimit: nat
    /** sizeof(struct syna_tcm_boot_info) and sizeof(struct syna_tcm_romboot_info). */
    const bootInfoSize: nat
    const rombootInfoSize: nat

    // ---- transport ----
    var inBuf: seq<byte>
    var readLength: nat
    var statusReportCode: byte
    var payloadLength: nat

    // ---- command engine ----
    var cmd: Command
    var command: byte
    /** Whether allocating the response buffer fails (environment). */
    var respAllocFails: bool
    /** The commands started by write_message, in order. */
    ghost var issued: seq<byte>

    // ---- reports ----
    var report: Report
    /** report_touch is set. */
    var reportTouch: bool
    var events: seq<Event>

    // ---- device identity ----
    var ident: Identity
    var appInfo: seq<byte>
    var appStatus: nat
    var bootInfo: seq<byte>
    var rombootInfo: seq<byte>

    // ---- flags ----
    var isDetected: bool
    var inHdlMode: bool
    var hostDownloading: bool
    var doPolling: bool
    var helperTask: HelperTask

    predicate Valid()
      reads this
    {
      (rdChunkSize == 0 || rdChunkSize >= 2)
      && readLength < |inBuf| && MIN_READ_LENGTH < |inBuf|
      && |ident.info| == ID_INFO_SIZE && |appInfo| == APP_INFO_SIZE
      && |bootInfo| == bootInfoSize && |rombootInfo| == rombootInfoSize
    }

    /** The firmware mode of the last identification. */
    function Mode(): byte
      requires Valid()
      reads this
    {
      ident.info[ID_MODE_OFFSET]
    }

    /** Fields the read and dispatch paths never change. */
    twostate predicate SameSession()
      reads this
    {
      command == old(command) && issued == old(issued) && isDetected == old(isDetected)
      && inHdlMode == old(inHdlMode) && hostDownloading == old(hostDownloading) && doPolling == old(doPolling)
      && appInfo == old(appInfo) && appStatus == old(appStatus) && bootInfo == old(bootInfo)
      && rombootInfo == old(rombootInfo) && respAllocFails == old(respAllocFails) && reportTouch == old(reportTouch)
    }

    /** The message just read stays where it is. */
    twostate predicate TransportKept()
      reads this
    {
      inBuf == old(inBuf) && readLength == old(readLength) && statusReportCode == old(statusReportCode)
      && payloadLength == old(payloadLength)
    }

    /** Everything of the module pool but the callbacks it has made. */
    twostate predicate PoolKept()
      reads pool
    {
      pool.handlers == old(pool.handlers) && pool.initialized == old(pool.initialized)
      && pool.queueWork == old(pool.queueWork) && pool.workPending == old(pool.workPending)
      && pool.waitCount == old(pool.waitCount)
    }

    /** The state syna_tcm_probe sets up on the zeroed device structure. */
    constructor(bus: TcmBus, pool: ModulePool, rdChunkSize: nat, wrChunkLimit: nat, bootInfoSize: nat, rombootInfoSize: nat)
      requires rdChunkSize == 0 || rdChunkSize >= 2
      ensures Valid()
      ensures this.bus == bus && this.pool == pool
      ensures this.rdChunkSize == rdChunkSize && this.wrChunkLimit == wrChunkLimit && ident.wrChunkSize == wrChunkLimit
      ensures readLength == MIN_READ_LENGTH && |inBuf| == MIN_READ_LENGTH + 1
      ensures cmd.status == Idle && helperTask == HelpNone && command == CMD_NONE
      ensures !isDetected && !inHdlMode && !hostDownloading && !doPolling && !reportTouch
      ensures events == [] && issued == []
    {
      this.bus := bus;
      this.pool := pool;
      this.rdChunkSize := rdChunkSize;
      this.wrChunkLimit := wrChunkLimit;
      this.bootInfoSize := bootInfoSize;
      this.rombootInfoSize := rombootInfoSize;
      readLength := MIN_READ_LENGTH;
      inBuf := seq(MIN_READ_LENGTH + 1, _ => 0);
      statusReportCode := 0;
      payloadLength := 0;
      cmd := Command(Idle, false, 0, []);
      command := CMD_NONE;
      respAllocFails := false;
      issued := [];
      report := Report(0, [], 0);
      reportTouch := false;
      events := [];
      ident := Identity(seq(ID_INFO_SIZE, _ => 0), 0, wrChunkLimit);
      appInfo := seq(APP_INFO_SIZE, _ => 0);
      appStatus := 0;
      bootInfo := seq(bootInfoSize, _ => 0);
      rombootInfo := seq(rombootInfoSize, _ => 0);
      isDetected := false;
      inHdlMode := false;
      hostDownloading := false;
      doPolling := false;
      helperTask := HelpNone;
    }

    /** The part of the device state a dispatch may change. */
    function Snapshot(): Host
      reads this, pool
    {
      Host(cmd, report, ident, helperTask, events, pool.calls)
    }

    /** What a dispatch reads and does not change. */
    function Ctx(): Context
      reads this, pool
    {
      Context(command, inHdlMode, hostDownloading, reportTouch, respAllocFails, pool.handlers, wrChunkLimit)
    }

    /** The payload of the message in the input buffer. */
    function Payload(): seq<byte>
      requires MESSAGE_HEADER_SIZE + payloadLength <= |inBuf|
      reads this
    {
      inBuf[MESSAGE_HEADER_SIZE .. MESSAGE_HEADER_SIZE + payloadLength]
    }

    // -------------------------------------------------------------------
    // Writing
    // -------------------------------------------------------------------

    /**
     * The chunk loop of syna_tcm_raw_write and syna_tcm_write_message over a
     * byte stream with chunk space `cs`: chunk idx carries
     * stream[idx * cs ..] after its leading byte, and the loop stops at the
     * first write the bus rejects.
     */
    method WriteChunks(first: byte, stream: seq<byte>, cs: nat) returns (r: int)
      modifies bus
      ensures Sent(bus.tx, bus.writeOutcomes, r)
              == SendAll(old(bus.tx), old(bus.writeOutcomes), WriteFrames(first, stream, Transfers(|stream|, cs)))
      ensures bus.rx == old(bus.rx) && bus.attention == old(bus.attention)
    {
      var remaining: nat := |stream|;
      var chunks := NumChunks(remaining, cs);
      ghost var frames := WriteFrames(first, stream, Transfers(|stream|, cs));
      ghost var goal := SendAll(old(bus.tx), old(bus.writeOutcomes), frames);
      var idx := 0;
      while idx < chunks
        invariant 0 <= idx <= chunks == |frames|
        invariant idx < chunks ==> idx * cs + remaining == |stream|
        invariant goal == SendAll(bus.tx, bus.writeOutcomes, frames[idx..])
        invariant bus.rx == old(bus.rx) && bus.attention == old(bus.attention)
      {
        var xfer := if remaining > cs then cs else remaining;
        ChunkFrameAt(first, stream, cs, idx, remaining);
        var frame := [if idx == 0 then first else CMD_CONTINUE_WRITE] + stream[idx * cs .. idx * cs + xfer];
        SendStep(bus.tx, bus.writeOutcomes, frames, idx);
        r := bus.Write(frame);
        if r < 0 {
          return;
        }
        remaining := remaining - xfer;
        idx := idx + 1;
      }
      assert frames[idx..] == [];
      r := 0;
    }

    /** syna_tcm_raw_write: `command` and `data`, chunked by the write chunk size, with no response awaited. */
    method RawWrite(cmd: byte, data: seq<byte>) returns (r: int)
      modifies bus
      ensures Sent(bus.tx, bus.writeOutcomes, r)
              == SendAll(old(bus.tx), old(bus.writeOutcomes), RawWriteFrames(cmd, data, ident.wrChunkSize))
      ensures bus.rx == old(bus.rx) && bus.attention == old(bus.attention)
      ensures r == 0 || r == BUS_ERROR
    {
      var cs := if ident.wrChunkSize == 0 then |data| else ident.wrChunkSize - 1;
      SendAllAccepted(bus.tx, bus.writeOutcomes, RawWriteFrames(cmd, data, ident.wrChunkSize));
      r := WriteChunks(cmd, data, cs);
    }

    // -------------------------------------------------------------------
    // Reading
    // -------------------------------------------------------------------

    /**
     * The header read of syna_tcm_read_message with its retries: read_length
     * bytes into the input buffer; status_report_code and payload_length are
     * set from every header that carries the marker.
     */
    method ReadMessageHeader() returns (outcome: HeaderOutcome)
      requires Valid()
      modifies this`inBuf, this`statusReportCode, this`payloadLength, bus
      ensures Valid()
      ensures var h := ReadHeader(old(bus.rx), old(inBuf), readLength, true, 0, old(statusReportCode), old(payloadLength));
        outcome == h.outcome && inBuf == h.buf && bus.rx == h.rest
        && statusReportCode == h.code && payloadLength == h.payloadLength
      ensures bus.tx == old(bus.tx) && bus.writeOutcomes == old(bus.writeOutcomes) && bus.attention == old(bus.attention)
    {
      var retry := true;
      var cnt: nat := 0;
      ghost var target := ReadHeader(bus.rx, inBuf, readLength, true, 0, statusReportCode, payloadLength).(readCount := 0);
      while true
        invariant Valid() && |inBuf| == old(|inBuf|) && cnt <= MARKER_RETRIES
        invariant target == ReadHeader(bus.rx, inBuf, readLength, retry, cnt, statusReportCode, payloadLength).(readCount := 0)
        invariant bus.tx == old(bus.tx) && bus.writeOutcomes == old(bus.writeOutcomes) && bus.attention == old(bus.attention)
        decreases if retry then MAX_HEADER_READS - cnt else 0
      {
        var stop;
        stop, outcome, retry, cnt := HeaderAttempt(retry, cnt);
        if stop {
          return;
        }
      }
    }

    /**
     * One pass of the header read loop: read read_length bytes into the
     * input buffer, then either stop with an outcome or go round again
     * (retry cleared after a bus failure or an INVALID status, the retry
     * count advanced after a bad marker).
     */
    method HeaderAttempt(retry: bool, cnt: nat) returns (stop: bool, outcome: HeaderOutcome, retry': bool, cnt': nat)
      requires Valid() && cnt <= MARKER_RETRIES
      modifies this`inBuf, this`statusReportCode, this`payloadLength, bus
      ensures Valid() && |inBuf| == old(|inBuf|) && cnt' <= MARKER_RETRIES
      ensures var h := ReadHeader(old(bus.rx), old(inBuf), readLength, retry, cnt, old(statusReportCode), old(payloadLength));
        if stop then
          outcome == h.outcome && inBuf == h.buf && bus.rx == h.rest
          && statusReportCode == h.code && payloadLength == h.payloadLength
        else
          h.(readCount := 0) == ReadHeader(bus.rx, inBuf, readLength, retry', cnt', statusReportCode, payloadLength).(readCount := 0)
          && (if retry' then MAX_HEADER_READS - cnt' else 0) < (if retry then MAX_HEADER_READS - cnt else 0)
      ensures bus.tx == old(bus.tx) && bus.writeOutcomes == old(bus.writeOutcomes) && bus.attention == old(bus.attention)
    {
      stop, outcome, retry', cnt' := true, HeaderFailed(0), retry, cnt;
      var r, bytes := bus.Read(readLength);
      if r < 0 {
        if retry {
          stop, retry' := false, false;
          return;
        }
        outcome := HeaderFailed(r);
        return;
      }
      inBuf := Overwrite(inBuf, 0, bytes);
      if inBuf[0] != MESSAGE_MARKER {
        if retry {
          stop := false;
          if cnt < MARKER_RETRIES {
            cnt' := cnt + 1;
          } else {
            cnt', retry' := 0, false;
          }
          return;
        }
        outcome := HeaderFailed(-ENXIO);
        return;
      }
      statusReportCode := inBuf[1];
      payloadLength := Le16(inBuf[2], inBuf[3]);
      var code := statusReportCode;
      if code <= STATUS_ERROR || code == STATUS_INVALID {
        if code == STATUS_CONTINUED_READ || code == STATUS_IDLE || code == STATUS_BUSY {
          payloadLength := 0;
          outcome := ControlStatus(code);
          return;
        } else if code == STATUS_INVALID {
          if retry {
            stop, retry' := false, false;
            return;
          }
          payloadLength := 0;
        }
      }
      outcome := Header(code, payloadLength);
    }

    /**
     * syna_tcm_continued_read: grow the input buffer to total + 1 bytes and
     * read the rest of the message in chunks of at most rd_chunk_size bytes,
     * each with its own marker and STATUS_CONTINUED_READ header, from
     * offset read_length on; a 1-byte remainder is the padding byte.
     */
    method ContinuedRead() returns (r: int)
      requires rdChunkSize == 0 || rdChunkSize >= 2
      requires readLength < |inBuf| && MESSAGE_HEADER_SIZE + payloadLength + 1 > readLength
      modifies this`inBuf, bus
      ensures TcmRead.ContinuedRead(old(inBuf), old(bus.rx), readLength, rdChunkSize, payloadLength)
              == Assembled(r, inBuf, bus.rx)
      ensures bus.tx == old(bus.tx) && bus.writeOutcomes == old(bus.writeOutcomes) && bus.attention == old(bus.attention)
    {
      var at, length, chunkSize := readLength, payloadLength, rdChunkSize;
      var total := MESSAGE_HEADER_SIZE + length + 1;
      var remaining: nat := total - at;
      ghost var buf0, rx0 := inBuf, bus.rx;
      ghost var todo := ContinuationTransfers(total, at, chunkSize);
      var buf: seq<byte> := Grow(inBuf, total + 1);
      var space := ReadSpace(chunkSize, remaining);
      ChunkLoopStart(buf0, rx0, at, chunkSize, length, buf, remaining, space, todo);
      ghost var done;
      r, buf, done := ContinuationChunks(buf, at, remaining, space, Gather(rx0, todo, true), todo);
      ContinuedReadEnds(buf0, rx0, at, chunkSize, length, r, buf, done, bus.rx);
      inBuf := buf;
    }

    /** The chunk loop of syna_tcm_continued_read, from its first transfer to its end or its first failure. */
    method ContinuationChunks(buf: seq<byte>, at: nat, length: nat, space: nat, ghost g0: Gathered, ghost xs: seq<nat>)
      returns (e: int, buf': seq<byte>, ghost done: seq<byte>)
      requires |xs| == NumChunks(length, space)
      requires ChunkLoop(g0, buf, at, space, buf, at, length, [], xs, bus.rx)
      modifies bus
      ensures at + |done| <= |buf| && g0 == Gathered(done, bus.rx, e) && buf' == Overwrite(buf, at, done)
      ensures bus.tx == old(bus.tx) && bus.writeOutcomes == old(bus.writeOutcomes) && bus.attention == old(bus.attention)
    {
      var chunks := NumChunks(length, space);
      var offset := at;
      var remaining := length;
      ghost var base := buf;
      ghost var todo := xs;
      buf', done := buf, [];
      var idx := 0;
      while idx < chunks
        invariant 0 <= idx <= chunks && |todo| == chunks - idx
        invariant ChunkLoop(g0, base, at, space, buf', offset, remaining, done, todo, bus.rx)
        invariant bus.tx == old(bus.tx) && bus.writeOutcomes == old(bus.writeOutcomes) && bus.attention == old(bus.attention)
      {
        e, buf', offset, remaining, done, todo := ContinuationChunk(buf', at, offset, remaining, space, g0, base, done, todo);
        if e < 0 {
          return;
        }
        idx := idx + 1;
      }
      GatherDone(g0, done, bus.rx, true);
      e := 0;
    }

    /**
     * One pass of the chunk loop of syna_tcm_continued_read: a transfer of
     * min(space, remaining) bytes. A 1-byte transfer stores the padding byte
     * at `offset`; any other reads xfer + 2 bytes, fails on a bus error or a
     * wrong marker or status code, and otherwise copies the chunk's data to
     * `offset`. The ghost parameters carry the loop's progress (ChunkLoop).
     */
    method ContinuationChunk(buf: seq<byte>, ghost at: nat, offset: nat, remaining: nat, space: nat,
                             ghost g0: Gathered, ghost base: seq<byte>, ghost done: seq<byte>, ghost todo: seq<nat>)
      returns (e: int, buf': seq<byte>, offset': nat, remaining': nat, ghost done': seq<byte>, ghost todo': seq<nat>)
      requires todo != [] && ChunkLoop(g0, base, at, space, buf, offset, remaining, done, todo, bus.rx)
      modifies bus
      ensures e == 0 ==> |todo'| == |todo| - 1
                         && ChunkLoop(g0, base, at, space, buf', offset', remaining', done', todo', bus.rx)
      ensures e != 0 ==> e < 0 && buf' == buf && done' == done && g0 == Gathered(done, bus.rx, e)
      ensures bus.tx == old(bus.tx) && bus.writeOutcomes == old(bus.writeOutcomes) && bus.attention == old(bus.attention)
    {
      var xfer := if remaining > space then space else remaining;
      offset', remaining', todo' := offset + xfer, remaining - xfer, todo[1..];
      if xfer == 1 {
        ChunkLoopPadding(g0, base, at, space, buf, offset, remaining, done, todo, bus.rx);
        e, buf', done' := 0, buf[offset := MESSAGE_PADDING], done + [MESSAGE_PADDING];
        return;
      }
      ghost var rx := bus.rx;
      var chunk;
      e, chunk := bus.Read(xfer + 2);
      if e < 0 {
        ChunkLoopStops(g0, base, at, space, buf, offset, remaining, done, todo, rx, xfer);
        buf', done' := buf, done;
        return;
      }
      if chunk[0] != MESSAGE_MARKER || chunk[1] != STATUS_CONTINUED_READ {
        ChunkLoopStops(g0, base, at, space, buf, offset, remaining, done, todo, rx, xfer);
        e, buf', done' := -EIO, buf, done;
        return;
      }
      ChunkLoopRead(g0, base, at, space, buf, offset, remaining, done, todo, rx, xfer);
      e, buf', done' := 0, Overwrite(buf, offset, chunk[2..]), done + chunk[2..];
    }

    // -------------------------------------------------------------------
    // Dispatch
    // -------------------------------------------------------------------

    /** syna_tcm_dispatch_response on the message in the input buffer. */
    method DispatchResponse()
      requires MESSAGE_HEADER_SIZE + payloadLength <= |inBuf|
      modifies this`cmd
      ensures cmd == ResponseDispatch(old(cmd), statusReportCode, Payload(), respAllocFails)
    {
      if cmd.status != Busy {
        return;
      }
      cmd := cmd.(responseCode := statusReportCode);
      if payloadLength == 0 {
        cmd := cmd.(status := Idle);
      } else if respAllocFails {
        cmd := cmd.(status := Error);
      } else {
        cmd := cmd.(resp := Payload(), status := Idle);
      }
      cmd := cmd.(completed := true);
    }

    /**
     * The identification part of syna_tcm_dispatch_message: copy as much of
     * the payload as fits into the identification record, then take the
     * packrat number and the write chunk size from it.
     */
    method TakeIdentifyReport()
      requires |ident.info| == ID_INFO_SIZE && MESSAGE_HEADER_SIZE + payloadLength <= |inBuf|
      modifies this`ident
      ensures ident == TakeIdentify(old(ident), Payload(), wrChunkLimit)
    {
      var info := PartialCopy(ident.info, Payload());
      var packrat := Le32(info[ID_BUILD_ID_OFFSET .. ID_BUILD_ID_OFFSET + 4]);
      var maxWriteSize := Le16(info[ID_MAX_WRITE_SIZE_OFFSET], info[ID_MAX_WRITE_SIZE_OFFSET + 1]);
      var chunk := if maxWriteSize < wrChunkLimit then maxWriteSize else wrChunkLimit;
      if chunk == 0 {
        chunk := maxWriteSize;
      }
      ident := Identity(info, packrat, chunk);
    }

    /** queue_work on the helper work: a task already pending is not queued again. */
    method QueueHelperTask(task: HelperTask)
      modifies this`helperTask, this`events
      ensures Snapshot() == QueueHelper(old(Snapshot()), task)
    {
      if helperTask == HelpNone {
        helperTask := task;
        events := events + [HelperQueued(task)];
      }
    }

    /** The command in flight is done by an identify report: the reset commands succeed, any other fails. */
    method CompleteByIdentify()
      modifies this`cmd
      ensures cmd == IdentifyCompletion(old(cmd), command)
    {
      if cmd.status == Busy {
        if CompletedByIdentify(command) {
          cmd := cmd.(responseCode := STATUS_OK, status := Idle);
        } else {
          cmd := cmd.(status := Error);
        }
        cmd := cmd.(completed := true);
      }
    }

    /** syna_tcm_dispatch_report on the message in the input buffer. */
    method DispatchReport()
      requires |ident.info| == ID_INFO_SIZE && MESSAGE_HEADER_SIZE + payloadLength <= |inBuf|
      modifies this`report, this`events, this`helperTask, pool
      ensures PoolKept()
      ensures Snapshot() == ReportDispatch(old(Snapshot()), statusReportCode, Payload(), reportTouch, pool.handlers)
    {
      report := report.(id := statusReportCode, data := Payload());
      if report.id == REPORT_TOUCH {
        if reportTouch {
          events := events + [TouchReported];
        }
      } else {
        if report.id == REPORT_IDENTIFY && IsFwMode(ident.info[ID_MODE_OFFSET]) {
          QueueHelperTask(HelpTouchReinit);
        }
        pool.Notify(Syncbox);
        report := report.(asyncId := statusReportCode);
      }
    }

    /**
     * The identify-report part of syna_tcm_dispatch_message; `go` is whether
     * the report is passed on to syna_tcm_dispatch_report.
     */
    method IdentifyPrologue() returns (go: bool)
      requires |ident.info| == ID_INFO_SIZE && MESSAGE_HEADER_SIZE + payloadLength <= |inBuf|
      modifies this`ident, this`cmd, this`helperTask, this`events
      ensures |ident.info| == ID_INFO_SIZE
      ensures Stage(Snapshot(), go) == IdentifyStage(old(Snapshot()), old(Ctx()), Payload())
    {
      TakeIdentifyReport();
      go := true;
      if cmd.status == Busy {
        CompleteByIdentify();
      } else if ident.info[ID_MODE_OFFSET] == MODE_ROMBOOTLOADER && inHdlMode {
        QueueHelperTask(HelpSendRombootHdl);
        go := false;
        return;
      }
      if hostDownloading {
        go := false;
      }
    }

    /** syna_tcm_dispatch_message on the message in the input buffer. */
    method DispatchMessage()
      requires Valid() && MESSAGE_HEADER_SIZE + payloadLength <= |inBuf|
      modifies this`cmd, this`report, this`events, this`helperTask, this`ident, pool
      ensures Valid() && PoolKept()
      ensures Snapshot() == Dispatch(old(Snapshot()), old(Ctx()), statusReportCode, Payload())
    {
      var go := true;
      if statusReportCode == REPORT_IDENTIFY {
        go := IdentifyPrologue();
      }
      if !go {
        return;
      }
      if statusReportCode >= REPORT_IDENTIFY {
        DispatchReport();
      } else {
        DispatchResponse();
      }
    }

    // -------------------------------------------------------------------
    // The whole read
    // -------------------------------------------------------------------

    /**
     * The rest of syna_tcm_read_message after a header: check the padding
     * of a message read whole, supply the padding byte of a message one byte
     * longer than the read (growing the buffer for it), or read the rest with
     * syna_tcm_continued_read and rewrite the header bytes.
     */
    method AssembleMessage() returns (r: int)
      requires Valid()
      modifies this`inBuf, bus
      ensures Assemble(old(inBuf), old(bus.rx), readLength, rdChunkSize, statusReportCode, payloadLength)
              == Assembled(r, inBuf, bus.rx)
      ensures bus.tx == old(bus.tx) && bus.writeOutcomes == old(bus.writeOutcomes) && bus.attention == old(bus.attention)
    {
      var total := MESSAGE_HEADER_SIZE + payloadLength + 1;
      if total <= readLength {
      } else if total - 1 == readLength {
        inBuf := Grow(inBuf, total + 1)[readLength := MESSAGE_PADDING];
      } else {
        r := ReadOn();
        return;
      }
      r := if inBuf[total - 1] != MESSAGE_PADDING then -EIO else 0;
    }

    /** The continued-read branch of syna_tcm_read_message. */
    method ReadOn() returns (r: int)
      requires Valid() && MESSAGE_HEADER_SIZE + payloadLength > readLength
      modifies this`inBuf, bus
      ensures Continuation(old(inBuf), old(bus.rx), readLength, rdChunkSize, statusReportCode, payloadLength)
              == Assembled(r, inBuf, bus.rx)
      ensures bus.tx == old(bus.tx) && bus.writeOutcomes == old(bus.writeOutcomes) && bus.attention == old(bus.attention)
    {
      var at, chunkSize, code, length := readLength, rdChunkSize, statusReportCode, payloadLength;
      var total := MESSAGE_HEADER_SIZE + length + 1;
      ghost var buf0, rx0 := inBuf, bus.rx;
      r := ContinuedRead();
      ContinuationEnds(buf0, rx0, at, chunkSize, code, length, r, inBuf, bus.rx);
      if r != 0 {
        return;
      }
      var buf := inBuf[0 := MESSAGE_MARKER][1 := code][2 := LowByte(length)][3 := HighByte(length)];
      inBuf := buf;
      r := if buf[total - 1] != MESSAGE_PADDING then -EIO else 0;
    }

    /**
     * The transport part of syna_tcm_read_message: the header read, the
     * assembly of a message and the new predictive read length.
     */
    method ReadTransport() returns (r: int, dispatch: bool)
      requires Valid()
      modifies this`inBuf, this`statusReportCode, this`payloadLength, this`readLength, bus
      ensures Valid()
      ensures ReadMessageSpec(old(bus.rx), old(inBuf), old(readLength), rdChunkSize, old(statusReportCode), old(payloadLength))
              == ReadResult(r, dispatch, inBuf, bus.rx, readLength, statusReportCode, payloadLength)
      ensures bus.tx == old(bus.tx) && bus.writeOutcomes == old(bus.writeOutcomes) && bus.attention == old(bus.attention)
    {
      var at, chunkSize := readLength, rdChunkSize;
      ghost var rx0, buf0, code0, length0 := bus.rx, inBuf, statusReportCode, payloadLength;
      ReadKeepsBufferRoom(rx0, buf0, at, chunkSize, code0, length0);
      ReadHeaderTakes(rx0, buf0, at, true, 0, code0, length0);
      ghost var spec := ReadMessageSpec(rx0, buf0, at, chunkSize, code0, length0);
      var outcome := ReadMessageHeader();
      dispatch := false;
      match outcome {
        case HeaderFailed(e) =>
          r := e;
        case ControlStatus(_) =>
          r := 0;
        case Header(_, _) =>
          var length := payloadLength;
          r := AssembleMessage();
          if r == 0 {
            readLength := NextReadLength(MESSAGE_HEADER_SIZE + length + 1, chunkSize);
            dispatch := true;
          }
      }
    }

    /**
     * syna_tcm_read_message: read a message and, on a device that has been
     * detected, dispatch it; a failed read fails the command in flight.
     */
    method ReadMessage() returns (r: int)
      requires Valid()
      modifies this`inBuf, this`statusReportCode, this`payloadLength, this`readLength, bus
      modifies this`cmd, this`report, this`events, this`helperTask, this`ident, pool
      ensures Valid() && PoolKept()
      ensures var s := ReadMessageSpec(old(bus.rx), old(inBuf), old(readLength), rdChunkSize,
                                       old(statusReportCode), old(payloadLength));
        r == s.err && inBuf == s.buf && bus.rx == s.rest && readLength == s.readLength
        && statusReportCode == s.code && payloadLength == s.payloadLength
        && Snapshot() == ReadStep(old(Snapshot()), old(Ctx()), s.code, if s.dispatch then Payload() else [],
                                  r < 0, s.dispatch && isDetected)
      ensures bus.tx == old(bus.tx) && bus.writeOutcomes == old(bus.writeOutcomes) && bus.attention == old(bus.attention)
    {
      var dispatch;
      r, dispatch := ReadTransport();
      if dispatch && isDetected {
        DispatchMessage();
      }
      if r < 0 && cmd.status == Busy {
        cmd := cmd.(status := Error, completed := true);
      }
    }

    // -------------------------------------------------------------------
    // Commands
    // -------------------------------------------------------------------

    /**
     * The interrupt handler while a command waits for its response: it runs
     * read_message once for each message the device sends before
     * RESPONSE_TIMEOUT_MS runs out, and the wait ends early once
     * response_complete is signalled. The command is then either resolved
     * and signalled, or still busy and unsignalled.
     */
    method WaitResponse()
      requires Valid() && cmd.status == Busy && !cmd.completed
      modifies this`inBuf, this`statusReportCode, this`payloadLength, this`readLength, bus
      modifies this`cmd, this`report, this`events, this`helperTask, this`ident, pool
      ensures Valid() && PoolKept()
      ensures cmd == old(cmd) || (cmd.completed && cmd.status != Busy)
      ensures bus.tx == old(bus.tx) && bus.writeOutcomes == old(bus.writeOutcomes)
    {
      var k := bus.Attention();
      var i := 0;
      while i < k && !cmd.completed
        invariant i <= k && Valid() && PoolKept()
        invariant cmd == old(cmd) || (cmd.completed && cmd.status != Busy)
        invariant bus.tx == old(bus.tx) && bus.writeOutcomes == old(bus.writeOutcomes)
        decreases k - i
      {
        ghost var h, ctx := Snapshot(), Ctx();
        ghost var s := ReadMessageSpec(bus.rx, inBuf, readLength, rdChunkSize, statusReportCode, payloadLength);
        var r := ReadMessage();
        ReadStepCompletion(h, ctx, s.code, if s.dispatch then Payload() else [], r < 0, s.dispatch && isDetected);
        i := i + 1;
      }
    }

    /** The start of a framed command: CMD_BUSY, response_complete re-armed, an empty response. */
    method BeginCommand(command: byte)
      modifies this`cmd, this`command, this`issued
      ensures cmd == Command(Busy, false, old(cmd.responseCode), [])
      ensures this.command == command && issued == old(issued) + [command]
    {
      cmd := Command(Busy, false, cmd.responseCode, []);
      this.command := command;
      issued := issued + [command];
    }

    /**
     * The outcome of a framed command: the chunked writes of
     * [command][len_lo][len_hi][payload] with the write chunk size it
     * started with, the command logged as issued, the error of a failed
     * write, 0 for a reset in host-download mode (no response awaited), and
     * otherwise CommandResult of the wait; the response code and response
     * are handed back only when the response arrived and left CMD_IDLE.
     * `wake` is the command status when the wait ended.
     */
    twostate predicate FramedCommandDone(command: byte, payload: seq<byte>, r: int, responseCode: byte,
                                         resp: seq<byte>, wake: CommandStatus)
      reads this, bus
    {
      var sent := SendAll(old(bus.tx), old(bus.writeOutcomes),
                          FramedWriteFrames(command, payload, old(ident.wrChunkSize), wrChunkLimit));
      var waited := sent.err == 0 && !(command == CMD_RESET && old(inHdlMode));
      bus.tx == sent.tx && bus.writeOutcomes == sent.outcomes && issued == old(issued) + [command]
      && (sent.err != 0 ==> r == sent.err)
      && (sent.err == 0 && !waited ==> r == 0)
      && (waited ==> r == CommandResult(cmd.completed, wake, cmd.responseCode) && (wake == Busy <==> !cmd.completed))
      && (waited && cmd.completed && wake == Idle ==> responseCode == cmd.responseCode && resp == cmd.resp)
      && (!(waited && cmd.completed && wake == Idle) ==> responseCode == STATUS_INVALID)
    }

    /** The framed part of syna_tcm_write_message, up to its exit. */
    method FramedCommand(command: byte, payload: seq<byte>)
      returns (r: int, responseCode: byte, resp: seq<byte>, ghost wake: CommandStatus)
      requires Valid()
      modifies this`inBuf, this`statusReportCode, this`payloadLength, this`readLength, bus
      modifies this`cmd, this`report, this`events, this`helperTask, this`ident, pool
      modifies this`command, this`issued
      ensures Valid() && inHdlMode == old(inHdlMode)
      ensures FramedCommandDone(command, payload, r, responseCode, resp, wake)
      ensures r == 0 || r == -EIO || r == -ETIME
    {
      responseCode, resp, wake := STATUS_INVALID, [], Idle;
      var hdlReset := command == CMD_RESET && inHdlMode;
      var chunkSize := ident.wrChunkSize;
      SendAllAccepted(bus.tx, bus.writeOutcomes, FramedWriteFrames(command, payload, chunkSize, wrChunkLimit));
      BeginCommand(command);
      var stream := FramedStream(payload);
      r := WriteChunks(command, stream, FramedSpace(command, |stream|, chunkSize, wrChunkLimit));
      if r == 0 && !hdlReset {
        WaitResponse();
        wake := cmd.status;
        r := CommandResult(cmd.completed, cmd.status, cmd.responseCode);
        if cmd.completed && cmd.status == Idle {
          responseCode, resp := cmd.responseCode, cmd.resp;
        }
      }
    }

    /**
     * syna_tcm_write_message. Called from the interrupt context without
     * polling it fails with -EINVAL and touches nothing. Without a response
     * buffer (`rawMode`) it is a raw write; otherwise a framed command
     * (FramedCommandDone). Every exit after the context check leaves no
     * command in flight: CMD_NONE and CMD_IDLE, also after a timeout.
     */
    method WriteMessage(command: byte, payload: seq<byte>, rawMode: bool, inIsr: bool)
      returns (r: int, responseCode: byte, resp: seq<byte>, ghost wake: CommandStatus)
      requires Valid()
      modifies this`inBuf, this`statusReportCode, this`payloadLength, this`readLength, bus
      modifies this`cmd, this`report, this`events, this`helperTask, this`ident, pool
      modifies this`command, this`issued
      ensures Valid()
      ensures r == 0 || r == -EIO || r == -ETIME || (r == -EINVAL && inIsr && !doPolling)
      ensures inIsr && !doPolling ==>
        r == -EINVAL && responseCode == STATUS_INVALID && unchanged(this) && unchanged(bus) && unchanged(pool)
      ensures !(inIsr && !doPolling) ==> this.command == CMD_NONE && cmd.status == Idle
      ensures !(inIsr && !doPolling) && rawMode ==>
        Sent(bus.tx, bus.writeOutcomes, r)
          == SendAll(old(bus.tx), old(bus.writeOutcomes), RawWriteFrames(command, payload, old(ident.wrChunkSize)))
        && cmd == old(cmd).(status := Idle) && responseCode == STATUS_INVALID
      ensures !(inIsr && !doPolling) && !rawMode ==> FramedCommandDone(command, payload, r, responseCode, resp, wake)
    {
      responseCode, resp, wake := STATUS_INVALID, [], Idle;
      if inIsr && !doPolling {
        return -EINVAL, responseCode, resp, wake;
      }
      if rawMode {
        r := RawWrite(command, payload);
      } else {
        r, responseCode, resp, wake := FramedCommand(command, payload);
      }
      this.command := CMD_NONE;
      cmd := cmd.(status := Idle);
    }

    // -------------------------------------------------------------------
    // Command helpers
    // -------------------------------------------------------------------

    /**
     * One framed command and its response, as every helper below issues it
     * through write_message from process context: the command is logged and
     * its frames written, no command is left in flight, and success means the
     * response arrived with STATUS_OK and is handed back.
     */
    method Query(command: byte, payload: seq<byte>) returns (r: int, resp: seq<byte>)
      requires Valid() && command != CMD_RESET
      modifies this`inBuf, this`statusReportCode, this`payloadLength, this`readLength, bus
      modifies this`cmd, this`report, this`events, this`helperTask, this`ident, pool
      modifies this`command, this`issued
      ensures Valid()
      ensures this.command == CMD_NONE && cmd.status == Idle && issued == old(issued) + [command]
      ensures bus.tx == SendAll(old(bus.tx), old(bus.writeOutcomes),
                                FramedWriteFrames(command, payload, old(ident.wrChunkSize), wrChunkLimit)).tx
      ensures r == 0 || r == -EIO || r == -ETIME
      ensures r == 0 ==> cmd.completed && cmd.responseCode == STATUS_OK && resp == cmd.resp
    {
      var code;
      ghost var wake;
      r, code, resp, wake := WriteMessage(command, payload, false, false);
    }

    /**
     * One pass of syna_tcm_get_app_info: CMD_GET_APPLICATION_INFO, and on
     * success the application info copied in from the response and the
     * status read from it.
     */
    method AppInfoAttempt() returns (r: int)
      requires Valid()
      modifies this`inBuf, this`statusReportCode, this`payloadLength, this`readLength, bus
      modifies this`cmd, this`report, this`events, this`helperTask, this`ident, pool
      modifies this`command, this`issued
      modifies this`appInfo, this`appStatus
      ensures Valid()
      ensures issued == old(issued) + [CMD_GET_APPLICATION_INFO]
      ensures r == 0 || r == -EIO || r == -ETIME
      ensures r == 0 ==> appInfo == PartialCopy(old(appInfo), cmd.resp)
                         && appStatus == Le16(appInfo[APP_STATUS_OFFSET], appInfo[APP_STATUS_OFFSET + 1])
    {
      var resp;
      r, resp := Query(CMD_GET_APPLICATION_INFO, []);
      if r == 0 {
        appInfo := PartialCopy(appInfo, resp);
        appStatus := Le16(appInfo[APP_STATUS_OFFSET], appInfo[APP_STATUS_OFFSET + 1]);
      }
    }

    /**
     * syna_tcm_get_app_info: query the application info, and while the
     * application is still booting or updating, query again every
     * APP_STATUS_POLL_MS until APP_STATUS_POLL_TIMEOUT_MS is spent. The
     * first APP_INFO_SIZE bytes of the last response are copied in and the
     * application status is read from them.
     */
    method GetAppInfo() returns (r: int, ghost queries: nat)
      requires Valid()
      modifies this`inBuf, this`statusReportCode, this`payloadLength, this`readLength, bus
      modifies this`cmd, this`report, this`events, this`helperTask, this`ident, pool
      modifies this`command, this`issued
      modifies this`appInfo, this`appStatus
      ensures Valid()
      ensures 1 <= queries <= MAX_APP_INFO_QUERIES
      ensures issued == old(issued) + Repeat(CMD_GET_APPLICATION_INFO, queries)
      ensures r == 0 || r == -EIO || r == -ETIME
      // The record's first bytes are the last response's; the rest is whatever
      // earlier polls left there, hence a fixed point rather than old(appInfo).
      ensures r == 0 ==> appInfo == PartialCopy(appInfo, cmd.resp)
                         && appStatus == Le16(appInfo[APP_STATUS_OFFSET], appInfo[APP_STATUS_OFFSET + 1])
                         && (AppStillStarting(appStatus) ==> queries == MAX_APP_INFO_QUERIES)
    {
      var timeout: nat := APP_STATUS_POLL_TIMEOUT_MS;
      queries := 0;
      while true
        invariant Valid() && queries * APP_STATUS_POLL_MS + timeout == APP_STATUS_POLL_TIMEOUT_MS
        invariant issued == old(issued) + Repeat(CMD_GET_APPLICATION_INFO, queries)
        decreases timeout
      {
        r := AppInfoAttempt();
        queries := queries + 1;
        if r < 0 {
          return;
        }
        if !(AppStillStarting(appStatus) && timeout > 0) {
          return 0, queries;
        }
        timeout := timeout - APP_STATUS_POLL_MS;
      }
    }

    /** syna_tcm_get_boot_info: CMD_GET_BOOT_INFO, its response copied into the boot info. */
    method GetBootInfo() returns (r: int)
      requires Valid()
      modifies this`inBuf, this`statusReportCode, this`payloadLength, this`readLength, bus
      modifies this`cmd, this`report, this`events, this`helperTask, this`ident, pool
      modifies this`command, this`issued
      modifies this`bootInfo
      ensures Valid()
      ensures issued == old(issued) + [CMD_GET_BOOT_INFO]
      ensures r == 0 || r == -EIO || r == -ETIME
      ensures r == 0 ==> bootInfo == PartialCopy(old(bootInfo), cmd.resp)
      ensures r != 0 ==> bootInfo == old(bootInfo)
    {
      var resp;
      r, resp := Query(CMD_GET_BOOT_INFO, []);
      if r == 0 {
        bootInfo := PartialCopy(bootInfo, resp);
      }
    }

    /** syna_tcm_get_romboot_info: CMD_GET_ROMBOOT_INFO, its response copied into the ROM-boot info. */
    method GetRombootInfo() returns (r: int)
      requires Valid()
      modifies this`inBuf, this`statusReportCode, this`payloadLength, this`readLength, bus
      modifies this`cmd, this`report, this`events, this`helperTask, this`ident, pool
      modifies this`command, this`issued
      modifies this`rombootInfo
      ensures Valid()
      ensures issued == old(issued) + [CMD_GET_ROMBOOT_INFO]
      ensures r == 0 || r == -EIO || r == -ETIME
      ensures r == 0 ==> rombootInfo == PartialCopy(old(rombootInfo), cmd.resp)
      ensures r != 0 ==> rombootInfo == old(rombootInfo)
    {
      var resp;
      r, resp := Query(CMD_GET_ROMBOOT_INFO, []);
      if r == 0 {
        rombootInfo := PartialCopy(rombootInfo, resp);
      }
    }

    /**
     * The identify part of syna_tcm_identify: CMD_IDENTIFY, and on success
     * the identification record copied in from the response with the build
     * id and the write chunk size taken from it (TakeIdentify).
     */
    method IdentifyAttempt() returns (r: int)
      requires Valid()
      modifies this`inBuf, this`statusReportCode, this`payloadLength, this`readLength, bus
      modifies this`cmd, this`report, this`events, this`helperTask, this`ident, pool
      modifies this`command, this`issued
      ensures Valid()
      ensures issued == old(issued) + [CMD_IDENTIFY]
      ensures r == 0 || r == -EIO || r == -ETIME
      // The record's first bytes are the response's; identify reports dispatched
      // during the wait may rewrite the record, hence a fixed point rather than old(ident).
      ensures r == 0 ==> ident.info == PartialCopy(ident.info, cmd.resp)
                         && ident.packratNumber == Le32(ident.info[ID_BUILD_ID_OFFSET .. ID_MAX_WRITE_SIZE_OFFSET])
                         && ident.wrChunkSize == WrChunkFromIdentify(Le16(ident.info[ID_MAX_WRITE_SIZE_OFFSET],
                                                                          ident.info[ID_MAX_WRITE_SIZE_OFFSET + 1]),
                                                                     wrChunkLimit)
    {
      var resp;
      r, resp := Query(CMD_IDENTIFY, []);
      if r == 0 {
        ident := TakeIdentify(ident, resp, wrChunkLimit);
      }
    }

    /**
     * syna_tcm_identify: with `id`, identify the device first; then, by the
     * firmware mode `mode` of the identification, query the application
     * info (polling), the boot info or the ROM-boot info, or nothing. With
     * `id`, `idResp` is the IDENTIFY response, and the mode that picks the
     * query is the one it carries.
     */
    method Identify(id: bool) returns (r: int, ghost mode: byte, ghost queries: nat, ghost idResp: seq<byte>)
      requires Valid()
      modifies this`inBuf, this`statusReportCode, this`payloadLength, this`readLength, bus
      modifies this`cmd, this`report, this`events, this`helperTask, this`ident, pool
      modifies this`command, this`issued
      modifies this`appInfo, this`appStatus, this`bootInfo, this`rombootInfo
      ensures Valid()
      ensures !id ==> mode == old(Mode())
      ensures issued == old(issued) + (if id then [CMD_IDENTIFY] else []) + Repeat(InfoQuery(mode), queries)
      ensures queries <= MAX_APP_INFO_QUERIES && (InfoQuery(mode) == CMD_NONE ==> queries == 0)
      ensures r == 0 || r == -EIO || r == -ETIME
      ensures r == 0 && InfoQuery(mode) != CMD_NONE ==> queries >= 1
      ensures id && (r == 0 || queries > 0) && |idResp| > ID_MODE_OFFSET ==> mode == idResp[ID_MODE_OFFSET]
    {
      r, queries, idResp := 0, 0, [];
      if id {
        r := IdentifyAttempt();
        idResp := cmd.resp;
        if r < 0 {
          mode := Mode();
          return;
        }
      }
      var m := Mode();
      mode := m;
      r, queries := InfoQueryFor(m);
    }

    /** The switch of syna_tcm_identify on the firmware mode: the info query it makes, if any. */
    method InfoQueryFor(mode: byte) returns (r: int, ghost queries: nat)
      requires Valid()
      modifies this`inBuf, this`statusReportCode, this`payloadLength, this`readLength, bus
      modifies this`cmd, this`report, this`events, this`helperTask, this`ident, pool
      modifies this`command, this`issued
      modifies this`appInfo, this`appStatus, this`bootInfo, this`rombootInfo
      ensures Valid()
      ensures issued == old(issued) + Repeat(InfoQuery(mode), queries)
      ensures queries <= MAX_APP_INFO_QUERIES && (InfoQuery(mode) == CMD_NONE ==> queries == 0)
      ensures r == 0 || r == -EIO || r == -ETIME
      ensures r == 0 && InfoQuery(mode) != CMD_NONE ==> queries >= 1
    {
      r, queries := 0, 0;
      if mode == MODE_APPLICATION_FIRMWARE || mode == MODE_HOSTDOWNLOAD_FIRMWARE {
        r, queries := GetAppInfo();
      } else if mode == MODE_BOOTLOADER || mode == MODE_TDDI_BOOTLOADER {
        r := GetBootInfo();
        queries := 1;
      } else if mode == MODE_ROMBOOTLOADER {
        r := GetRombootInfo();
        queries := 1;
      }
    }

    /**
     * syna_tcm_run_production_test_firmware: CMD_ENTER_PRODUCTION_TEST_MODE,
     * sent once more if the identification (as the identify report during
     * the wait updated it) is not the production-test firmware, and
     * -EINVAL if it still is not after the second attempt.
     */
    method RunProductionTestFirmware() returns (r: int, ghost attempts: nat)
      requires Valid()
      modifies this`inBuf, this`statusReportCode, this`payloadLength, this`readLength, bus
      modifies this`cmd, this`report, this`events, this`helperTask, this`ident, pool
      modifies this`command, this`issued
      modifies this`appInfo, this`appStatus, this`bootInfo, this`rombootInfo
      ensures Valid()
      ensures 1 <= attempts <= 2 && issued == old(issued) + Repeat(CMD_ENTER_PRODUCTION_TEST_MODE, attempts)
      ensures r == 0 || r == -EINVAL || r == -EIO || r == -ETIME
      ensures r == 0 ==> Mode() == MODE_PRODUCTIONTEST_FIRMWARE
      ensures r == -EINVAL ==> attempts == 2 && Mode() != MODE_PRODUCTIONTEST_FIRMWARE
    {
      var retry := true;
      attempts := 0;
      while true
        invariant Valid() && attempts <= 1 && (retry <==> attempts == 0)
        invariant issued == old(issued) + Repeat(CMD_ENTER_PRODUCTION_TEST_MODE, attempts)
        decreases if retry then 1 else 0
      {
        var resp;
        r, resp := Query(CMD_ENTER_PRODUCTION_TEST_MODE, []);
        attempts := attempts + 1;
        if r < 0 {
          return;
        }
        if Mode() != MODE_PRODUCTIONTEST_FIRMWARE {
          if retry {
            retry := false;
            continue;
          }
          return -EINVAL, attempts;
        }
        return 0, attempts;
      }
    }

    /**
     * One attempt of syna_tcm_run_application_firmware:
     * CMD_RUN_APPLICATION_FIRMWARE, then the info query of
     * syna_tcm_identify without a new identification.
     */
    method RunApplicationAttempt() returns (r: int)
      requires Valid()
      modifies this`inBuf, this`statusReportCode, this`payloadLength, this`readLength, bus
      modifies this`cmd, this`report, this`events, this`helperTask, this`ident, pool
      modifies this`command, this`issued
      modifies this`appInfo, this`appStatus, this`bootInfo, this`rombootInfo
      ensures Valid()
      ensures |issued| > |old(issued)| && issued[..|old(issued)| + 1] == old(issued) + [CMD_RUN_APPLICATION_FIRMWARE]
      ensures r == 0 || r == -EIO || r == -ETIME
    {
      var resp;
      r, resp := Query(CMD_RUN_APPLICATION_FIRMWARE, []);
      ghost var started := issued;
      if r == 0 {
        ghost var mode, queries, idResp;
        r, mode, queries, idResp := Identify(false);
        assert issued[..|started|] == started;
      }
    }

    /**
     * syna_tcm_run_application_firmware: run the application firmware and
     * refresh the info; sent once more if the device is not in a firmware
     * mode, and -EINVAL if it still is not after the second attempt.
     */
    method RunApplicationFirmware() returns (r: int, ghost attempts: nat)
      requires Valid()
      modifies this`inBuf, this`statusReportCode, this`payloadLength, this`readLength, bus
      modifies this`cmd, this`report, this`events, this`helperTask, this`ident, pool
      modifies this`command, this`issued
      modifies this`appInfo, this`appStatus, this`bootInfo, this`rombootInfo
      ensures Valid()
      ensures 1 <= attempts <= 2
      ensures |issued| > |old(issued)| && issued[|old(issued)|] == CMD_RUN_APPLICATION_FIRMWARE
      ensures r == 0 || r == -EINVAL || r == -EIO || r == -ETIME
      ensures r == 0 ==> IsFwMode(Mode())
      ensures r == -EINVAL ==> attempts == 2 && !IsFwMode(Mode())
    {
      var retry := true;
      attempts := 0;
      while true
        invariant Valid() && attempts <= 1 && (retry <==> attempts == 0)
        invariant attempts == 0 ==> issued == old(issued)
        invariant attempts == 1 ==> |issued| > |old(issued)| && issued[|old(issued)|] == CMD_RUN_APPLICATION_FIRMWARE
        decreases if retry then 1 else 0
      {
        ghost var before := issued;
        r := RunApplicationAttempt();
        assert issued[|before|] == CMD_RUN_APPLICATION_FIRMWARE;
        assert issued[|old(issued)|] == CMD_RUN_APPLICATION_FIRMWARE by {
          if attempts == 1 {
            assert issued[..|before| + 1][|old(issued)|] == before[|old(issued)|];
          }
        }
        attempts := attempts + 1;
        if r < 0 {
          return;
        }
        if !IsFwMode(Mode()) {
          if retry {
            retry := false;
            continue;
          }
          return -EINVAL, attempts;
        }
        return 0, attempts;
      }
    }

    /**
     * syna_tcm_run_bootloader_firmware: CMD_ROMBOOT_RUN_BOOTLOADER_FIRMWARE
     * from the ROM bootloader, otherwise CMD_RUN_BOOTLOADER_FIRMWARE followed
     * by the info query of syna_tcm_identify, which must find the device out
     * of the firmware modes (-EINVAL otherwise).
     */
    method RunBootloaderFirmware() returns (r: int)
      requires Valid()
      modifies this`inBuf, this`statusReportCode, this`payloadLength, this`readLength, bus
      modifies this`cmd, this`report, this`events, this`helperTask, this`ident, pool
      modifies this`command, this`issued
      modifies this`appInfo, this`appStatus, this`bootInfo, this`rombootInfo
      ensures Valid()
      ensures var command := if old(Mode()) == MODE_ROMBOOTLOADER then CMD_ROMBOOT_RUN_BOOTLOADER_FIRMWARE
                             else CMD_RUN_BOOTLOADER_FIRMWARE;
        |issued| > |old(issued)| && issued[|old(issued)|] == command
        && (command == CMD_ROMBOOT_RUN_BOOTLOADER_FIRMWARE ==> issued == old(issued) + [command])
      ensures r == 0 || r == -EINVAL || r == -EIO || r == -ETIME
      ensures r == 0 && old(Mode()) != MODE_ROMBOOTLOADER ==> !IsFwMode(Mode())
      ensures r == -EINVAL ==> old(Mode()) != MODE_ROMBOOTLOADER && IsFwMode(Mode())
    {
      var command := if Mode() == MODE_ROMBOOTLOADER then CMD_ROMBOOT_RUN_BOOTLOADER_FIRMWARE
                     else CMD_RUN_BOOTLOADER_FIRMWARE;
      var resp;
      r, resp := Query(command, []);
      if r < 0 || command == CMD_ROMBOOT_RUN_BOOTLOADER_FIRMWARE {
        return;
      }
      ghost var started := issued;
      ghost var mode, queries, idResp;
      r, mode, queries, idResp := Identify(false);
      assert issued[..|started|] == started;
      if r < 0 {
        return;
      }
      if IsFwMode(Mode()) {
        return -EINVAL;
      }
      r := 0;
    }

    /**
     * syna_tcm_switch_mode: run the bootloader, application or
     * production-test firmware; any other mode is -EINVAL and sends nothing.
     */
    method SwitchMode(mode: FirmwareMode) returns (r: int)
      requires Valid()
      modifies this`inBuf, this`statusReportCode, this`payloadLength, this`readLength, bus
      modifies this`cmd, this`report, this`events, this`helperTask, this`ident, pool
      modifies this`command, this`issued
      modifies this`appInfo, this`appStatus, this`bootInfo, this`rombootInfo
      ensures Valid()
      ensures r == 0 || r == -EINVAL || r == -EIO || r == -ETIME
      ensures mode == OtherMode ==> r == -EINVAL && issued == old(issued)
      ensures mode != OtherMode ==> |issued| > |old(issued)|
                                    && issued[|old(issued)|] == FirstSwitchCommand(mode, old(Mode()))
      ensures r == 0 && mode == FwProductionTest ==> Mode() == MODE_PRODUCTIONTEST_FIRMWARE
      ensures r == 0 && mode == FwApplication ==> IsFwMode(Mode())
      ensures r == 0 && mode == FwBootloader && old(Mode()) != MODE_ROMBOOTLOADER ==> !IsFwMode(Mode())
    {
      ghost var attempts;
      match mode {
        case FwBootloader =>
          r := RunBootloaderFirmware();
        case FwApplication =>
          r, attempts := RunApplicationFirmware();
        case FwProductionTest =>
          r, attempts := RunProductionTestFirmware();
          assert issued[|old(issued)|] == Repeat(CMD_ENTER_PRODUCTION_TEST_MODE, attempts)[0];
        case OtherMode =>
          r := -EINVAL;
      }
    }

    /**
     * syna_tcm_get_dynamic_config: CMD_GET_DYNAMIC_CONFIG with the id as its
     * one-byte payload; the value is the response's first two bytes, and a
     * response shorter than two bytes is -EINVAL.
     */
    method GetDynamicConfig(id: nat) returns (r: int, value: nat)
      requires Valid()
      modifies this`inBuf, this`statusReportCode, this`payloadLength, this`readLength, bus
      modifies this`cmd, this`report, this`events, this`helperTask, this`ident, pool
      modifies this`command, this`issued
      ensures Valid()
      ensures issued == old(issued) + [CMD_GET_DYNAMIC_CONFIG]
      ensures bus.tx == SendAll(old(bus.tx), old(bus.writeOutcomes),
                                FramedWriteFrames(CMD_GET_DYNAMIC_CONFIG, [LowByte(id)], old(ident.wrChunkSize), wrChunkLimit)).tx
      ensures r == 0 || r == -EINVAL || r == -EIO || r == -ETIME
      ensures r == 0 ==> DynamicConfigValue(cmd.resp) == Success(value) && value < 0x1_0000
      ensures r == -EINVAL ==> DynamicConfigValue(cmd.resp).Failure?
    {
      var resp;
      value := 0;
      r, resp := Query(CMD_GET_DYNAMIC_CONFIG, [LowByte(id)]);
      if r < 0 {
        return;
      }
      match DynamicConfigValue(resp) {
        case Failure(e) =>
          r := e;
        case Success(v) =>
          value := v;
      }
    }

    /**
     * syna_tcm_set_dynamic_config: CMD_SET_DYNAMIC_CONFIG with the id and the
     * 16-bit value, low byte first.
     */
    method SetDynamicConfig(id: nat, value: nat) returns (r: int)
      requires Valid() && value < 0x1_0000
      modifies this`inBuf, this`statusReportCode, this`payloadLength, this`readLength, bus
      modifies this`cmd, this`report, this`events, this`helperTask, this`ident, pool
      modifies this`command, this`issued
      ensures Valid()
      ensures issued == old(issued) + [CMD_SET_DYNAMIC_CONFIG]
      ensures bus.tx == SendAll(old(bus.tx), old(bus.writeOutcomes),
                                FramedWriteFrames(CMD_SET_DYNAMIC_CONFIG, SetDynamicConfigPayload(id, value),
                                                  old(ident.wrChunkSize), wrChunkLimit)).tx
      ensures r == 0 || r == -EIO || r == -ETIME
    {
      var resp;
      r, resp := Query(CMD_SET_DYNAMIC_CONFIG, SetDynamicConfigPayload(id, value));
    }

    /**
     * syna_tcm_get_data_location: for the LCM, OEM and PPDT areas
     * CMD_GET_DATA_LOCATION with the area's code; the response must be
     * exactly four bytes (-EINVAL otherwise). Any other area is -EINVAL and
     * sends nothing.
     */
    method GetDataLocation(area: FlashArea) returns (r: int, addr: nat, length: nat)
      requires Valid()
      modifies this`inBuf, this`statusReportCode, this`payloadLength, this`readLength, bus
      modifies this`cmd, this`report, this`events, this`helperTask, this`ident, pool
      modifies this`command, this`issued
      ensures Valid()
      ensures r == 0 || r == -EINVAL || r == -EIO || r == -ETIME
      ensures area == OtherArea ==> r == -EINVAL && issued == old(issued) && bus.tx == old(bus.tx)
      ensures area != OtherArea ==>
        issued == old(issued) + [CMD_GET_DATA_LOCATION]
        && bus.tx == SendAll(old(bus.tx), old(bus.writeOutcomes),
                             FramedWriteFrames(CMD_GET_DATA_LOCATION, [DataAreaCode(area).value],
                                               old(ident.wrChunkSize), wrChunkLimit)).tx
      ensures r == 0 ==> DataLocation(cmd.resp) == Success((addr, length))
      ensures area != OtherArea && r == -EINVAL ==> DataLocation(cmd.resp).Failure?
    {
      addr, length := 0, 0;
      var code := DataAreaCode(area);
      if code.Failure? {
        return code.err, addr, length;
      }
      var resp;
      r, resp := Query(CMD_GET_DATA_LOCATION, [code.value]);
      if r < 0 {
        return;
      }
      match DataLocation(resp) {
        case Failure(e) =>
          r := e;
        case Success(loc) =>
          addr, length := loc.0, loc.1;
      }
    }

    /**
     * syna_tcm_wait_hdl: nothing to wait for unless a host download is in
     * progress; otherwise the interruptible wait ends as `outcome` says. The
     * download finishes in time (the helper clears the flag), or the wait
     * times out, clears the flag itself and fails with -EIO, or a signal
     * interrupts it and it returns 0 with the download still pending.
     */
    method WaitHdl(outcome: HdlWait) returns (r: int)
      modifies this`hostDownloading
      ensures hostDownloading == (old(hostDownloading) && outcome == HdlInterrupted)
      ensures r == if old(hostDownloading) && outcome == HdlTimedOut then -EIO else 0
    {
      if !hostDownloading {
        return 0;
      }
      match outcome {
        case HdlFinished =>
          hostDownloading := false;
          r := 0;
        case HdlTimedOut =>
          hostDownloading := false;
          r := -EIO;
        case HdlInterrupted =>
          r := 0;
      }
    }
  }
}
