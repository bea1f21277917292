/**
 * Where a message read from the device goes (syna_tcm_dispatch_message,
 * syna_tcm_dispatch_response, syna_tcm_dispatch_report), as functions of the
 * part of the device state they change. The device class in TcmCore performs
 * these steps on its own fields and is proved to end in the state computed
 * here; the lemmas state what dispatch guarantees about the command in
 * flight, the helper task and the report consumers.
 */
module TcmDispatch {
  import opened Errno
  import opened TcmProtocol
  import opened TcmFields
  import opened TcmModules

  /** command_status */
  datatype CommandStatus = Idle | Busy | Error

  /** helper.task */
  datatype HelperTask = HelpNone | HelpTouchReinit | HelpSendRombootHdl

  /** What the core hands on to other parts of the driver. */
  datatype Event = TouchReported | HelperQueued(task: HelperTask)

  /**
   * The command in flight: command_status, whether response_complete has
   * been signalled since write_message reinitialised it, response_code and
   * the response data.
   */
  datatype Command = Command(status: CommandStatus, completed: bool, responseCode: byte, resp: seq<byte>)

  /** The last report (report.id and report.buffer) and async_report_id. */
  datatype Report = Report(id: byte, data: seq<byte>, asyncId: byte)

  /** id_info, and the packrat number and write chunk size taken from it. */
  datatype Identity = Identity(info: seq<byte>, packratNumber: nat, wrChunkSize: nat)

  /**
   * The device state a dispatch may change: the command in flight, the last
   * report, the identification, the helper task, the events handed on and
   * the module callbacks made.
   */
  datatype Host = Host(cmd: Command, report: Report, ident: Identity, helperTask: HelperTask,
                       events: seq<Event>, calls: seq<Call>)

  /** What a dispatch reads and never changes. */
  datatype Context = Context(command: byte, inHdlMode: bool, hostDownloading: bool, reportTouch: bool,
                             respAllocFails: bool, handlers: seq<Handler>, wrChunkLimit: nat)

  /** Commands whose completion the device reports with an identify report rather than a response. */
  predicate CompletedByIdentify(command: byte)
  {
    command == CMD_RESET || command == CMD_RUN_BOOTLOADER_FIRMWARE || command == CMD_RUN_APPLICATION_FIRMWARE
    || command == CMD_ENTER_PRODUCTION_TEST_MODE || command == CMD_ROMBOOT_RUN_BOOTLOADER_FIRMWARE
  }

  /** A helper task is queued only when none is active; a queued task is handed on as an event. */
  function QueueHelper(h: Host, task: HelperTask): Host
  {
    if h.helperTask == HelpNone then h.(helperTask := task, events := h.events + [HelperQueued(task)]) else h
  }

  /**
   * An identify report taken in: the identification record gets the first
   * MIN(sizeof(id_info), payload_length) payload bytes, the packrat number is
   * its build id and the write chunk size is MIN(max_write_size,
   * WR_CHUNK_SIZE), or max_write_size when that minimum is 0.
   */
  function TakeIdentify(id: Identity, payload: seq<byte>, wrChunkLimit: nat): (id': Identity)
    requires |id.info| == ID_INFO_SIZE
    ensures |id'.info| == ID_INFO_SIZE
  {
    var info := PartialCopy(id.info, payload);
    Identity(info, Le32(info[ID_BUILD_ID_OFFSET..ID_BUILD_ID_OFFSET + 4]),
             WrChunkFromIdentify(Le16(info[ID_MAX_WRITE_SIZE_OFFSET], info[ID_MAX_WRITE_SIZE_OFFSET + 1]), wrChunkLimit))
  }

  /**
   * An identify report while a command is in flight: the commands that
   * reset the firmware complete with STATUS_OK, any other command fails
   * (the device has been reset); response_complete is signalled either way.
   */
  function IdentifyCompletion(c: Command, command: byte): Command
  {
    if c.status != Busy then c
    else if CompletedByIdentify(command) then c.(responseCode := STATUS_OK, status := Idle, completed := true)
    else c.(status := Error, completed := true)
  }

  /**
   * syna_tcm_dispatch_response: nothing unless a command is in flight;
   * otherwise the response code is taken, a payload is copied into the
   * response buffer (or the command fails when that buffer cannot be
   * allocated), and response_complete is signalled.
   */
  function ResponseDispatch(c: Command, code: byte, payload: seq<byte>, allocFails: bool): Command
  {
    if c.status != Busy then c
    else if payload == [] then c.(responseCode := code, status := Idle, completed := true)
    else if allocFails then c.(responseCode := code, status := Error, completed := true)
    else c.(responseCode := code, resp := payload, status := Idle, completed := true)
  }

  /**
   * syna_tcm_dispatch_report: the report is the payload; a touch report goes
   * to the touch reporter when there is one; any other report goes to the
   * syncbox of every settled module, after an identify report in a firmware
   * mode has queued a touch reinitialisation.
   */
  function ReportDispatch(h: Host, code: byte, payload: seq<byte>, reportTouch: bool, handlers: seq<Handler>): (h': Host)
    requires |h.ident.info| == ID_INFO_SIZE
    ensures h'.ident == h.ident && h'.cmd == h.cmd
  {
    var h1 := h.(report := h.report.(id := code, data := payload));
    if code == REPORT_TOUCH then
      h1.(events := h1.events + if reportTouch then [TouchReported] else [])
    else
      var h2 := if code == REPORT_IDENTIFY && IsFwMode(h.ident.info[ID_MODE_OFFSET]) then QueueHelper(h1, HelpTouchReinit)
                else h1;
      h2.(calls := h2.calls + Visits(handlers, Syncbox), report := h2.report.(asyncId := code))
  }

  /** Where syna_tcm_dispatch_message sends a message. */
  datatype Route = ToReport | ToResponse | Withheld

  /**
   * The route of a message with status/report code `code`: an identify
   * report is withheld when it announces the ROM bootloader in host-download
   * mode with no command waiting, or while a host download is in progress;
   * otherwise codes from REPORT_IDENTIFY up are reports and lower codes are
   * responses. `mode` is the firmware mode after the report was taken in.
   */
  function RouteOf(code: byte, busy: bool, mode: byte, inHdlMode: bool, hostDownloading: bool): Route
  {
    if code == REPORT_IDENTIFY && !busy && mode == MODE_ROMBOOTLOADER && inHdlMode then Withheld
    else if code == REPORT_IDENTIFY && hostDownloading then Withheld
    else if code >= REPORT_IDENTIFY then ToReport
    else ToResponse
  }

  /** The state after a step of dispatch, and whether dispatch goes on to a report or response. */
  datatype Stage = Stage(h: Host, go: bool)

  /**
   * What syna_tcm_dispatch_message does with an identify report before
   * passing it on: take it in; then, with no command waiting, a ROM
   * bootloader announced in host-download mode queues the ROM boot download
   * and stops; otherwise the waiting command is resolved and the report is
   * passed on unless a host download is in progress.
   */
  function IdentifyStage(h: Host, ctx: Context, payload: seq<byte>): (s: Stage)
    requires |h.ident.info| == ID_INFO_SIZE
    ensures |s.h.ident.info| == ID_INFO_SIZE
  {
    var h1 := h.(ident := TakeIdentify(h.ident, payload, ctx.wrChunkLimit));
    if h.cmd.status != Busy && h1.ident.info[ID_MODE_OFFSET] == MODE_ROMBOOTLOADER && ctx.inHdlMode then
      Stage(QueueHelper(h1, HelpSendRombootHdl), false)
    else Stage(h1.(cmd := IdentifyCompletion(h.cmd, ctx.command)), !ctx.hostDownloading)
  }

  /** syna_tcm_dispatch_message for a message with status/report code `code` and payload `payload`. */
  function Dispatch(h: Host, ctx: Context, code: byte, payload: seq<byte>): (h': Host)
    requires |h.ident.info| == ID_INFO_SIZE
    ensures |h'.ident.info| == ID_INFO_SIZE
  {
    var s := if code == REPORT_IDENTIFY then IdentifyStage(h, ctx, payload) else Stage(h, true);
    if !s.go then s.h
    else if code >= REPORT_IDENTIFY then ReportDispatch(s.h, code, payload, ctx.reportTouch, ctx.handlers)
    else s.h.(cmd := ResponseDispatch(s.h.cmd, code, payload, ctx.respAllocFails))
  }

  /** A read that fails while a command is in flight fails the command and signals response_complete. */
  function FailRead(c: Command): Command
  {
    if c.status == Busy then c.(status := Error, completed := true) else c
  }

  /**
   * What one syna_tcm_read_message does to the host state: a failed read
   * fails the command in flight, a message read on a detected device is
   * dispatched, anything else leaves the state as it was.
   */
  function ReadStep(h: Host, ctx: Context, code: byte, payload: seq<byte>, failed: bool, dispatched: bool): Host
    requires |h.ident.info| == ID_INFO_SIZE
  {
    if failed then h.(cmd := FailRead(h.cmd))
    else if dispatched then Dispatch(h, ctx, code, payload)
    else h
  }

  // ---------------------------------------------------------------------
  // What dispatch guarantees
  // ---------------------------------------------------------------------

  /**
   * response_complete is signalled whenever the command in flight leaves
   * CMD_BUSY, and a status other than CMD_BUSY is never changed: a message
   * can only resolve the command that is waiting.
   */
  predicate CompletionFollows(c: Command, c': Command)
  {
    (c.status != Busy ==> c' == c)
    && (c'.status != Busy ==> c'.completed || c' == c)
    && (c'.status == Busy ==> c' == c)
  }

  lemma DispatchCompletion(h: Host, ctx: Context, code: byte, payload: seq<byte>)
    requires |h.ident.info| == ID_INFO_SIZE
    ensures CompletionFollows(h.cmd, Dispatch(h, ctx, code, payload).cmd)
  {
    if code == REPORT_IDENTIFY {
      var s := IdentifyStage(h, ctx, payload);
      assert CompletionFollows(h.cmd, s.h.cmd);
      if s.go {
        assert Dispatch(h, ctx, code, payload).cmd == s.h.cmd;
      }
    }
  }

  lemma FailReadCompletion(c: Command)
    ensures CompletionFollows(c, FailRead(c))
    ensures FailRead(c).status != Busy
  {
  }

  /** Every read_message keeps the completion discipline of the command in flight. */
  lemma ReadStepCompletion(h: Host, ctx: Context, code: byte, payload: seq<byte>, failed: bool, dispatched: bool)
    requires |h.ident.info| == ID_INFO_SIZE
    ensures CompletionFollows(h.cmd, ReadStep(h, ctx, code, payload, failed, dispatched).cmd)
  {
    if failed {
      FailReadCompletion(h.cmd);
    } else if dispatched {
      DispatchCompletion(h, ctx, code, payload);
    }
  }

  /**
   * An active helper task is never replaced, a task is queued only into an
   * idle helper and is handed on as it is queued, and otherwise the only
   * event is a touch report.
   */
  predicate HelperGuard(h: Host, h': Host)
  {
    (h.helperTask != HelpNone ==> h'.helperTask == h.helperTask)
    && (h'.helperTask != h.helperTask ==>
          h.helperTask == HelpNone && h'.events == h.events + [HelperQueued(h'.helperTask)])
    && (h'.helperTask == h.helperTask ==> h'.events == h.events || h'.events == h.events + [TouchReported])
  }

  lemma ReportDispatchHelperGuard(h: Host, code: byte, payload: seq<byte>, reportTouch: bool, handlers: seq<Handler>)
    requires |h.ident.info| == ID_INFO_SIZE
    ensures HelperGuard(h, ReportDispatch(h, code, payload, reportTouch, handlers))
  {
    var h1 := h.(report := h.report.(id := code, data := payload));
    if code != REPORT_TOUCH && code == REPORT_IDENTIFY && IsFwMode(h.ident.info[ID_MODE_OFFSET]) {
      assert HelperGuard(h, QueueHelper(h1, HelpTouchReinit));
    }
  }

  lemma DispatchHelperGuard(h: Host, ctx: Context, code: byte, payload: seq<byte>)
    requires |h.ident.info| == ID_INFO_SIZE
    ensures HelperGuard(h, Dispatch(h, ctx, code, payload))
  {
    var s := if code == REPORT_IDENTIFY then IdentifyStage(h, ctx, payload) else Stage(h, true);
    if code == REPORT_IDENTIFY && s.go {
      assert s.h.helperTask == h.helperTask && s.h.events == h.events;
    }
    if s.go && code >= REPORT_IDENTIFY {
      ReportDispatchHelperGuard(s.h, code, payload, ctx.reportTouch, ctx.handlers);
    }
  }

  /**
   * An identify report that arrives while a command waits resolves it: the
   * commands that reset the firmware succeed with STATUS_OK, every other
   * command fails, and response_complete is signalled.
   */
  lemma IdentifyResolvesCommand(h: Host, ctx: Context, payload: seq<byte>)
    requires |h.ident.info| == ID_INFO_SIZE && h.cmd.status == Busy
    ensures var c := Dispatch(h, ctx, REPORT_IDENTIFY, payload).cmd;
      c.completed
      && (CompletedByIdentify(ctx.command) ==> c.status == Idle && c.responseCode == STATUS_OK)
      && (!CompletedByIdentify(ctx.command) ==> c.status == Error && c.responseCode == h.cmd.responseCode)
  {
    var s := IdentifyStage(h, ctx, payload);
    assert s.h.cmd == IdentifyCompletion(h.cmd, ctx.command);
  }

  /**
   * An identify report always updates the identification with its payload
   * (as much of it as fits) and sets the write chunk size from the reported
   * max_write_size, within WR_CHUNK_SIZE when that is set; nothing else
   * updates them.
   */
  lemma IdentifySetsChunkSize(h: Host, ctx: Context, code: byte, payload: seq<byte>)
    requires |h.ident.info| == ID_INFO_SIZE
    ensures var id := Dispatch(h, ctx, code, payload).ident;
      var maxWrite := Le16(id.info[ID_MAX_WRITE_SIZE_OFFSET], id.info[ID_MAX_WRITE_SIZE_OFFSET + 1]);
      (code == REPORT_IDENTIFY ==>
         (forall i :: 0 <= i < ID_INFO_SIZE && i < |payload| ==> id.info[i] == payload[i])
         && id.wrChunkSize <= maxWrite
         && (ctx.wrChunkLimit > 0 ==> id.wrChunkSize <= ctx.wrChunkLimit)
         && (id.wrChunkSize == 0 <==> maxWrite == 0))
      && (code != REPORT_IDENTIFY ==> id == h.ident)
  {
    if code == REPORT_IDENTIFY {
      var id := TakeIdentify(h.ident, payload, ctx.wrChunkLimit);
      assert Dispatch(h, ctx, code, payload).ident == id;
      WrChunkFromIdentifyBounds(Le16(id.info[ID_MAX_WRITE_SIZE_OFFSET], id.info[ID_MAX_WRITE_SIZE_OFFSET + 1]),
                                ctx.wrChunkLimit);
    }
  }

  /**
   * A response reaches the command only while it is in flight: then the
   * command ends Idle with the response code and exactly the payload, or
   * Error when the response buffer cannot be allocated for a payload; the
   * rest of the state is untouched.
   */
  lemma ResponseDispatchExact(h: Host, ctx: Context, code: byte, payload: seq<byte>)
    requires |h.ident.info| == ID_INFO_SIZE && code < REPORT_IDENTIFY
    ensures var h' := Dispatch(h, ctx, code, payload);
      var c, c' := h.cmd, h'.cmd;
      (c.status != Busy ==> h' == h)
      && (c.status == Busy ==>
            c'.completed && c'.responseCode == code
            && (c'.status == Idle <==> payload == [] || !ctx.respAllocFails)
            && (c'.status != Idle ==> c'.status == Error)
            && (payload != [] && !ctx.respAllocFails ==> c'.resp == payload)
            && (payload == [] || ctx.respAllocFails ==> c'.resp == c.resp))
      && h' == h.(cmd := c')
  {
  }

  /**
   * Reports go where RouteOf says: a routed report becomes the current report
   * and, unless it is a touch report, reaches the syncbox of exactly the
   * settled modules; a withheld one reaches no module and no response.
   */
  lemma DispatchFollowsRoute(h: Host, ctx: Context, code: byte, payload: seq<byte>)
    requires |h.ident.info| == ID_INFO_SIZE && code >= REPORT_IDENTIFY
    ensures var h' := Dispatch(h, ctx, code, payload);
      var route := RouteOf(code, h.cmd.status == Busy, h'.ident.info[ID_MODE_OFFSET], ctx.inHdlMode, ctx.hostDownloading);
      route != ToResponse
      && (route == ToReport ==>
            h'.report.id == code && h'.report.data == payload
            && h'.calls == h.calls + (if code == REPORT_TOUCH then [] else Visits(ctx.handlers, Syncbox)))
      && (route == Withheld ==> h'.report == h.report && h'.calls == h.calls && h'.cmd.resp == h.cmd.resp)
  {
    if code == REPORT_IDENTIFY {
      var s := IdentifyStage(h, ctx, payload);
      assert s.h.report == h.report && s.h.calls == h.calls && s.h.cmd.resp == h.cmd.resp;
      assert s.h.ident.info[ID_MODE_OFFSET] == Dispatch(h, ctx, code, payload).ident.info[ID_MODE_OFFSET];
    }
  }
}
