/**
  The ULog endpoint as the router sees it (`ULog::write_msg` and
  `ULog::alive_check_timeout`): a filter on the MAVLink message id that
  hands LOGGING_DATA chunks to the reassembly engine, answers
  LOGGING_DATA_ACKED with a LOGGING_ACK, and turns the accepted
  MAV_CMD_LOGGING_START acknowledgement into the periodic liveness check.

  Messages arrive already decoded: the model receives the message id, the
  length of the whole packet and the payload fields the code reads.
 */
module UlogEndpoint {
  import opened Common
  import opened UlogSeq
  import opened UlogBuffer
  import opened UlogEngine

  const MsgIdCommandAck: nat := 77
  const MsgIdLoggingData: nat := 266
  const MsgIdLoggingDataAcked: nat := 267

  const MavCmdLoggingStart: nat := 2510
  const MavResultAccepted: nat := 0
  /** MAV_COMP_ID_ALL */
  const CompIdAll: nat := 0

  /** The system the engine sends its commands and acknowledgements to. */
  const TargetSystemId: nat := 1
  /** The system id the engine signs its own messages with. */
  const SystemId: nat := 2

  /** ALIVE_TIMEOUT of ulog.cpp, in seconds. */
  const AliveTimeout: nat := 5

  /** `flush_pending_msgs` is not supported by the log sink. */
  const FlushPendingResult: int := -ENOSYS
  /** `_read_msg` never produces a byte: the sink only consumes traffic. */
  const ReadResult: int := 0

  /** A decoded packet: its id and total length, and the payload fields
      that the code reads for the three ids it handles. */
  datatype Frame = Frame(msgId: nat, len: nat, command: nat, result: nat, chunk: Chunk)

  /** The endpoint's state besides the engine: whether the start command is
      still waiting for its acknowledgement, the period of the liveness
      timer when one is armed, and the write statistics. */
  datatype Sink = Sink(
    engine: Engine,
    startPending: bool,
    alive: Option<nat>,
    writeTotal: nat,
    writeBytes: nat,
    checkedTotal: nat)

  /** LOGGING_ACK as sent back to the vehicle. */
  datatype LoggingAck = LoggingAck(sequence: Seq16, targetSystem: nat, targetComponent: nat, sender: nat)

  datatype Written = Written(s: Sink, ret: int, ack: Option<LoggingAck>, rest: seq<WriteOutcome>, dup: nat)

  predicate Handled(id: nat) {
    id == MsgIdCommandAck || id == MsgIdLoggingData || id == MsgIdLoggingDataAcked
  }

  predicate CarriesData(id: nat) {
    id == MsgIdLoggingData || id == MsgIdLoggingDataAcked
  }

  /** The acknowledgement that arms the liveness check. */
  predicate StartAccepted(s: Sink, f: Frame) {
    f.msgId == MsgIdCommandAck && s.startPending && f.command == MavCmdLoggingStart && f.result == MavResultAccepted
  }

  /** Which packets the statistics count: every data chunk, and a command
      acknowledgement only when it answers the pending start command. */
  predicate Counted(s: Sink, f: Frame) {
    CarriesData(f.msgId) || (f.msgId == MsgIdCommandAck && s.startPending && f.command == MavCmdLoggingStart)
  }

  /** What the engine requires of a chunk that reaches it. */
  predicate Acceptable(s: Sink, f: Frame) {
    Inv(s.engine) && (CarriesData(f.msgId) ==> ChunkValid(f.chunk) && OffsetFits(s.engine, f.chunk))
  }

  /**
    `ULog::write_msg`.  `timerOk` says whether `add_timeout` managed to arm
    the liveness timer; `outs` is the file's answer to each `write` call of
    the flush.  The packet length is returned in every case.
  */
  function WriteMsg(s: Sink, f: Frame, timerOk: bool, outs: seq<WriteOutcome>): (w: Written)
    requires Acceptable(s, f)
    ensures Inv(w.s.engine) && w.ret == f.len && |w.rest| <= |outs|
    ensures !Counted(s, f) ==> w.s == s && w.rest == outs && w.ack == None
    ensures Counted(s, f) ==> w.s.writeTotal == s.writeTotal + 1 && w.s.writeBytes == s.writeBytes + f.len
    ensures !Counted(s, f) ==> w.s.writeTotal == s.writeTotal && w.s.writeBytes == s.writeBytes
    ensures w.s.checkedTotal == s.checkedTotal
    ensures w.ack.Some? <==> f.msgId == MsgIdLoggingDataAcked
    ensures w.ack.Some? ==> w.ack.value == LoggingAck(f.chunk.sequence, TargetSystemId, CompIdAll, SystemId)
    ensures CarriesData(f.msgId) ==>
      var p := DataProcess(s.engine, f.chunk, outs);
      w.s.engine == p.g && w.rest == p.rest && w.dup == p.dup
    ensures !CarriesData(f.msgId) ==> w.s.engine == s.engine && w.rest == outs && w.dup == 0
    ensures StartAccepted(s, f) ==> !w.s.startPending && w.s.alive == (if timerOk then Some(MsecPerSec * AliveTimeout) else None)
    ensures !StartAccepted(s, f) ==> w.s.startPending == s.startPending && w.s.alive == s.alive
  {
    if !Handled(f.msgId) then
      Written(s, f.len, None, outs, 0)
    else if f.msgId == MsgIdCommandAck then
      if !s.startPending || f.command != MavCmdLoggingStart then
        Written(s, f.len, None, outs, 0)
      else
        var t := if f.result == MavResultAccepted then
          s.(startPending := false, alive := if timerOk then Some(MsecPerSec * AliveTimeout) else None)
        else s;
        Written(Count(t, f), f.len, None, outs, 0)
    else
      var ack := if f.msgId == MsgIdLoggingDataAcked
        then Some(LoggingAck(f.chunk.sequence, TargetSystemId, CompIdAll, SystemId))
        else None;
      var p := DataProcess(s.engine, f.chunk, outs);
      Written(Count(s.(engine := p.g), f), f.len, ack, p.rest, p.dup)
  }

  function Count(s: Sink, f: Frame): Sink {
    s.(writeTotal := s.writeTotal + 1, writeBytes := s.writeBytes + f.len)
  }

  /**
    The partial-buffer loop of `ULog::stop`: `_logging_flush` is called
    again and again while held bytes remain.  The window was emptied first,
    so each call only writes the held bytes.  The loop ends when they are
    all written, when a write fails, or when `outs`, the file's answers,
    runs out (the code would go on retrying a write that keeps answering
    EAGAIN).
  */
  function StopDrain(e: Buffers, outs: seq<WriteOutcome>): (r: FlushResult)
    requires Valid(e)
    ensures Valid(r.e) && r.e.index == e.index && r.e.window == e.window && r.dup == 0
    ensures e.file <= r.e.file && r.e.file + r.e.partial == e.file + e.partial
    ensures |r.rest| <= |outs|
    ensures r.ok ==> r.e.partial == [] || r.rest == []
    decreases |outs|
  {
    if e.partial == [] then FlushResult(e, outs, true, 0)
    else
      var d := DrainPartial(e, outs);
      if !d.ok || outs == [] then d
      else
        DrainConsumes(e, outs);
        var r := StopDrain(d.e, d.rest);
        AppendAssoc(e.file, d.e.file[|e.file|..], r.e.file[|d.e.file|..]);
        r
  }

  /** Writing held bytes uses up at least one of the file's answers. */
  lemma DrainConsumes(e: Buffers, outs: seq<WriteOutcome>)
    requires Valid(e) && e.partial != [] && outs != []
    ensures |DrainPartial(e, outs).rest| < |outs|
  {
  }

  /** The engine after `ULog::stop`: the window is dropped (`_buffer_len =
      0`) and the held bytes are drained; the sequence state is left as it
      was, and the file is then closed. */
  function StopEngine(g: Engine, outs: seq<WriteOutcome>): (h: Engine)
    requires Inv(g)
    ensures Inv(h)
    ensures h.expectedSeq == g.expectedSeq && h.waitingHeader == g.waitingHeader && h.waitingOffset == g.waitingOffset
    ensures h.buf.window == [] && h.buf.index == g.buf.index
    ensures g.buf.file <= h.buf.file && h.buf.file + h.buf.partial == g.buf.file + g.buf.partial
  {
    g.(buf := StopDrain(g.buf.(window := []), outs).e)
  }

  datatype Checked = Checked(s: Sink, restart: bool, keep: bool)

  /**
    `ULog::alive_check_timeout`: a restart is due exactly when no packet was
    counted since the previous check.  The restart is the code's `stop();
    start();`.  The check only runs while its timer is armed, so the file
    is open and `stop` acts in full: it cancels both timers, drains the
    held bytes (`stopOuts` answers its writes) and closes the file.
    `started` says whether the following `start` opened a new file and
    armed the start timer; it then resets the engine and waits for the
    acknowledgement of MAV_CMD_LOGGING_START again.  Either way the check
    remembers the current total and the callback returns true, although
    after a restart its timer has already been cancelled.
  */
  function AliveCheck(s: Sink, stopOuts: seq<WriteOutcome>, started: bool): (c: Checked)
    requires Inv(s.engine)
    ensures c.keep && Inv(c.s.engine)
    ensures c.restart <==> s.writeTotal == s.checkedTotal
    ensures c.s.writeTotal == s.writeTotal && c.s.writeBytes == s.writeBytes && c.s.checkedTotal == s.writeTotal
    ensures !c.restart ==> c.s == s.(checkedTotal := s.writeTotal)
    ensures c.restart ==> c.s.alive == None && c.s.startPending == started
    ensures c.restart && started ==> c.s.engine == Fresh()
    ensures c.restart && !started ==> c.s.engine == StopEngine(s.engine, stopOuts)
  {
    if s.writeTotal == s.checkedTotal then
      var stopped := s.(engine := StopEngine(s.engine, stopOuts), startPending := false, alive := None);
      var restarted := if started then stopped.(engine := Fresh(), startPending := true) else stopped;
      Checked(restarted.(checkedTotal := s.writeTotal), true, true)
    else
      Checked(s.(checkedTotal := s.writeTotal), false, true)
  }

  /** Two checks with no counted packet in between: the second one restarts. */
  lemma IdleIntervalRestarts(s: Sink, stopOuts: seq<WriteOutcome>, started: bool,
                             stopOuts': seq<WriteOutcome>, started': bool)
    requires Inv(s.engine)
    ensures AliveCheck(AliveCheck(s, stopOuts, started).s, stopOuts', started').restart
  {
  }

  /** A restart cancels the liveness check: none runs until the new start
      command is acknowledged.  After a successful start, the next accepted
      acknowledgement is counted and arms the check again; after a failed
      one, no acknowledgement is ever taken as the start's. */
  lemma RestartAwaitsNewAck(s: Sink, stopOuts: seq<WriteOutcome>, f: Frame, timerOk: bool, outs: seq<WriteOutcome>)
    requires Inv(s.engine) && s.writeTotal == s.checkedTotal
    requires f.msgId == MsgIdCommandAck && f.command == MavCmdLoggingStart && f.result == MavResultAccepted
    ensures
      var c := AliveCheck(s, stopOuts, true);
      && c.restart && c.s.alive == None && Counted(c.s, f) && StartAccepted(c.s, f)
      && WriteMsg(c.s, f, timerOk, outs).s.alive == (if timerOk then Some(MsecPerSec * AliveTimeout) else None)
    ensures
      var c := AliveCheck(s, stopOuts, false);
      c.restart && c.s.alive == None && !Counted(c.s, f) && !StartAccepted(c.s, f)
  {
    var c := AliveCheck(s, stopOuts, true);
    assert Acceptable(c.s, f);
  }

  /** A counted packet between two checks keeps the second one from
      restarting the log; any other packet does not. */
  lemma CountedPacketKeepsAlive(s: Sink, stopOuts: seq<WriteOutcome>, started: bool, f: Frame, timerOk: bool,
                                 outs: seq<WriteOutcome>, stopOuts': seq<WriteOutcome>, started': bool)
    requires Inv(s.engine) && Acceptable(AliveCheck(s, stopOuts, started).s, f)
    ensures
      var c := AliveCheck(s, stopOuts, started);
      var w := WriteMsg(c.s, f, timerOk, outs);
      AliveCheck(w.s, stopOuts', started').restart <==> !Counted(c.s, f)
  {
  }

  /** A packet the filter does not handle changes nothing at all. */
  lemma UnhandledIgnored(s: Sink, f: Frame, timerOk: bool, outs: seq<WriteOutcome>)
    requires Acceptable(s, f) && !Handled(f.msgId)
    ensures WriteMsg(s, f, timerOk, outs) == Written(s, f.len, None, outs, 0)
  {
  }

  /** A data chunk reaches the engine in exactly the same way whether or
      not it asks for an acknowledgement. */
  lemma AckedChunkProcessedAlike(s: Sink, f: Frame, timerOk: bool, outs: seq<WriteOutcome>)
    requires Acceptable(s, f) && f.msgId == MsgIdLoggingData
    ensures
      var w := WriteMsg(s, f, timerOk, outs);
      var v := WriteMsg(s, f.(msgId := MsgIdLoggingDataAcked), timerOk, outs);
      v.s == w.s && v.rest == w.rest && v.dup == w.dup && w.ack == None && v.ack.Some?
  {
  }

  /** The sink as it is right after construction. */
  function Initial(): (s: Sink)
    ensures Inv(s.engine) && s.engine.expectedSeq == 0 && s.engine.waitingHeader && !s.engine.waitingOffset
    ensures s.engine.buf.window == [] && s.engine.buf.partial == [] && s.engine.buf.index == 0
    ensures !s.startPending && s.alive == None && s.writeTotal == 0 && s.checkedTotal == 0
  {
    Sink(Fresh(), false, None, 0, 0, 0)
  }
}
