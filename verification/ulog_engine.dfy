/**
  `ULog::_logging_data_process`: one LOGGING_DATA chunk through the sequence
  check, the ULog file header check, the resynchronisation after a gap or an
  overflow, the append to the window and the flush.

  A chunk is the decoded payload of the MAVLink message: its sequence
  number, `first_message_offset` and the `length` valid bytes of `data`.
 */
module UlogEngine {
  import opened Common
  import opened UlogSeq
  import opened UlogBuffer

  /** ULOG_HEADER_SIZE */
  const UlogHeaderSize: nat := 16
  /** ULOG_MAGIC */
  const Magic: seq<byte> := [0x55, 0x4C, 0x6F, 0x67, 0x01, 0x12, 0x35]
  /** NO_FIRST_MSG_OFFSET */
  const NoFirstMsgOffset: byte := 255

  datatype Chunk = Chunk(sequence: Seq16, firstOffset: byte, data: seq<byte>)

  /** `length` is a uint8_t. */
  predicate ChunkValid(c: Chunk) {
    |c.data| < 256
  }

  datatype Engine = Engine(expectedSeq: Seq16, waitingHeader: bool, waitingOffset: bool, buf: Buffers)

  /** The engine's invariant: the buffer bounds, and nothing is buffered
      while the file header has not arrived. */
  predicate Inv(g: Engine) {
    && Valid(g.buf)
    && (g.waitingHeader ==> g.buf.partial == [] && g.buf.window == [])
  }

  /** The state of a new endpoint, and the state `start` restores. */
  function Fresh(): (g: Engine)
    ensures Inv(g)
  {
    Engine(0, true, false, Buffers(0, [], [], []))
  }

  /** The result of processing one chunk: the new state, the unused write
      outcomes, and the `dup` of the last flush (see `FlushResult`). */
  datatype Processed = Processed(g: Engine, rest: seq<WriteOutcome>, dup: nat)

  /** A chunk that passes the header check, with its header stripped. */
  datatype Stripped = Stripped(g: Engine, data: seq<byte>)

  /** The header check: while waiting for the header, a chunk shorter than
      the header or without the magic is ignored; a good one moves its 16
      header bytes to the partial buffer and keeps the rest. */
  function HeaderStage(g: Engine, c: Chunk): (r: Option<Stripped>)
    requires Inv(g)
    ensures !g.waitingHeader ==> r == Some(Stripped(g, c.data))
    ensures g.waitingHeader ==>
      (r.Some? <==> |c.data| >= UlogHeaderSize && c.data[..|Magic|] == Magic)
    ensures r.Some? && g.waitingHeader ==>
      && r.value.g == g.(waitingHeader := false, buf := g.buf.(partial := c.data[..UlogHeaderSize]))
      && c.data == r.value.g.buf.partial + r.value.data
  {
    if !g.waitingHeader then
      Some(Stripped(g, c.data))
    else if |c.data| < UlogHeaderSize then
      None
    else if c.data[..|Magic|] != Magic then
      None
    else
      Some(Stripped(g.(waitingHeader := false, buf := g.buf.(partial := c.data[..UlogHeaderSize])), c.data[UlogHeaderSize..]))
  }

  /** Whether the append step will wait for a first-message offset: it did
      before, or this chunk follows a gap, or the chunk does not fit next to
      what is buffered. */
  predicate WaitsForOffset(g: Engine, drop: bool, len: nat) {
    var kept := if drop then 0 else |g.buf.window|;
    g.waitingOffset || drop || kept + len > BufferLen
  }

  /** The steps between the header check and the offset check: after a gap,
      flush and empty the window; when the chunk does not fit, drop the
      window; when it does not fit at the end, move the window to the start
      of the buffer. */
  function GapStage(g: Engine, drop: bool, len: nat, outs: seq<WriteOutcome>): (p: Processed)
    requires Inv(g) && !g.waitingHeader && len < 256
    ensures Inv(p.g) && !p.g.waitingHeader && p.g.expectedSeq == g.expectedSeq
    ensures p.g.waitingOffset == WaitsForOffset(g, drop, len)
    ensures p.g.buf.index + |p.g.buf.window| + len <= BufferLen
    ensures drop || |g.buf.window| + len > BufferLen ==> p.g.buf.window == []
    ensures drop ==> p.g.buf.index == 0
    ensures !drop ==> p.rest == outs && p.g.buf.partial == g.buf.partial && p.g.buf.file == g.buf.file
    ensures !drop && |g.buf.window| + len <= BufferLen ==> p.g.buf.window == g.buf.window
    ensures |p.rest| <= |outs|
  {
    var q :=
      if drop then
        var f := Flush(g.buf, outs);
        Processed(g.(waitingOffset := true, buf := f.e.(index := 0, window := [])), f.rest, f.dup)
      else
        Processed(g, outs, 0);
    var g1 := q.g;
    var g2 :=
      if |g1.buf.window| + len > BufferLen then
        g1.(waitingOffset := true, buf := g1.buf.(window := []))
      else
        g1;
    var g3 :=
      if g2.buf.index + |g2.buf.window| + len > BufferLen then
        g2.(buf := g2.buf.(index := 0))
      else
        g2;
    Processed(g3, q.rest, 0)
  }

  /** The bytes the append step adds to the window: none while waiting for
      an offset that the chunk does not carry, none from an empty chunk,
      otherwise the data from the offset on when resuming, or all of it. */
  function Appended(g: Engine, offset: byte, data: seq<byte>): (a: seq<byte>)
    requires g.waitingOffset && offset != NoFirstMsgOffset && |data| > 0 ==> offset <= |data|
    ensures g.waitingOffset && offset == NoFirstMsgOffset ==> a == []
    ensures !g.waitingOffset ==> a == data
    ensures g.waitingOffset && offset != NoFirstMsgOffset && |data| > 0 ==> data == data[..offset] + a
  {
    if g.waitingOffset && offset == NoFirstMsgOffset then []
    else if |data| == 0 then []
    else if g.waitingOffset then data[offset..]
    else data
  }

  /** The offset check and the append: while waiting for an offset, a chunk
      without one appends nothing and keeps waiting; otherwise the engine
      stops waiting, appends `Appended` and flushes.  An empty chunk
      appends nothing and does not flush. */
  function AppendStage(g: Engine, offset: byte, data: seq<byte>, outs: seq<WriteOutcome>): (p: Processed)
    requires Inv(g) && !g.waitingHeader
    requires g.buf.index + |g.buf.window| + |data| <= BufferLen
    requires g.waitingOffset && offset != NoFirstMsgOffset && |data| > 0 ==> offset <= |data|
    ensures Inv(p.g) && !p.g.waitingHeader && p.g.expectedSeq == g.expectedSeq
    ensures g.waitingOffset && offset == NoFirstMsgOffset ==> p == Processed(g, outs, 0)
    ensures p.g.waitingOffset <==> g.waitingOffset && offset == NoFirstMsgOffset
    ensures |data| == 0 ==> p.g.buf == g.buf && p.rest == outs
    ensures |p.rest| <= |outs|
  {
    if g.waitingOffset && offset == NoFirstMsgOffset then
      Processed(g, outs, 0)
    else
      var g1 := g.(waitingOffset := false);
      if |data| == 0 then
        Processed(g1, outs, 0)
      else
        var f := Flush(g1.buf.(window := g1.buf.window + Appended(g, offset, data)), outs);
        Processed(g1.(buf := f.e), f.rest, f.dup)
  }

  /** The condition under which line 401 of the C code does not wrap:
      whenever a chunk reaches the append with an offset to resume at, the
      offset lies within the chunk's (stripped) data. */
  predicate OffsetFits(g: Engine, c: Chunk)
    requires Inv(g)
  {
    var v := LoggingSeq(g.expectedSeq, c.sequence, false);
    var h := HeaderStage(g.(expectedSeq := v.expected), c);
    (v.accept && h.Some? && WaitsForOffset(h.value.g, v.drop, |h.value.data|)
     && c.firstOffset != NoFirstMsgOffset && |h.value.data| > 0)
    ==> c.firstOffset <= |h.value.data|
  }

  /** `_logging_data_process`. */
  function DataProcess(g: Engine, c: Chunk, outs: seq<WriteOutcome>): (p: Processed)
    requires Inv(g) && ChunkValid(c) && OffsetFits(g, c)
    ensures Inv(p.g)
    ensures |p.rest| <= |outs|
    ensures !LoggingSeq(g.expectedSeq, c.sequence, false).accept ==> p == Processed(g, outs, 0)
    ensures LoggingSeq(g.expectedSeq, c.sequence, false).accept ==> p.g.expectedSeq == Next(c.sequence)
  {
    var v := LoggingSeq(g.expectedSeq, c.sequence, false);
    if !v.accept then
      Processed(g, outs, 0)
    else
      var g1 := g.(expectedSeq := v.expected);
      var h := HeaderStage(g1, c);
      if h.None? then
        Processed(g1, outs, 0)
      else
        var data := h.value.data;
        var q := GapStage(h.value.g, v.drop, |data|, outs);
        AppendStage(q.g, c.firstOffset, data, q.rest)
  }

  /** The data a chunk contributes once its header check passed. */
  function Payload(g: Engine, c: Chunk): seq<byte>
    requires Inv(g)
    requires HeaderStage(g, c).Some?
  {
    HeaderStage(g, c).value.data
  }

  /** While waiting for the header, a chunk that is too short or lacks the
      magic is ignored: only the expected sequence number moved on. */
  lemma BadHeaderIgnored(g: Engine, c: Chunk, outs: seq<WriteOutcome>)
    requires Inv(g) && ChunkValid(c) && OffsetFits(g, c)
    requires LoggingSeq(g.expectedSeq, c.sequence, false).accept && g.waitingHeader
    requires |c.data| < UlogHeaderSize || c.data[..|Magic|] != Magic
    ensures DataProcess(g, c, outs) == Processed(g.(expectedSeq := Next(c.sequence)), outs, 0)
  {
  }

  /** Appending and flushing loses and reorders nothing: the file followed
      by the pending bytes grows by exactly the appended bytes, except on
      the corrupt path of the flush. */
  lemma AppendConserves(g: Engine, offset: byte, data: seq<byte>, outs: seq<WriteOutcome>)
    requires Inv(g) && !g.waitingHeader
    requires g.buf.index + |g.buf.window| + |data| <= BufferLen
    requires g.waitingOffset && offset != NoFirstMsgOffset && |data| > 0 ==> offset <= |data|
    ensures
      var p := AppendStage(g, offset, data, outs);
      && g.buf.file <= p.g.buf.file
      && (p.dup == 0 ==> p.g.buf.file + Pending(p.g.buf) == g.buf.file + Pending(g.buf) + Appended(g, offset, data))
  {
    var p := AppendStage(g, offset, data, outs);
    if !(g.waitingOffset && offset == NoFirstMsgOffset) && |data| > 0 {
      var a := Appended(g, offset, data);
      var b := g.buf.(window := g.buf.window + a);
      FlushSpec(b, outs);
      AppendAssoc(g.buf.file, g.buf.partial, g.buf.window);
      AppendAssoc(g.buf.file + g.buf.partial, g.buf.window, a);
      AppendAssoc(g.buf.partial, g.buf.window, a);
      AppendAssoc(g.buf.file, g.buf.partial + g.buf.window, a);
    }
  }

  /** The gap step: held bytes are flushed before the window is emptied, so
      none of them is lost. */
  lemma GapKeepsHeld(g: Engine, drop: bool, len: nat, outs: seq<WriteOutcome>)
    requires Inv(g) && !g.waitingHeader && len < 256
    ensures
      var p := GapStage(g, drop, len, outs);
      && g.buf.file <= p.g.buf.file
      && g.buf.file + g.buf.partial <= p.g.buf.file + p.g.buf.partial
  {
    if drop {
      FlushSpec(g.buf, outs);
    }
  }

  /** The stages before the append, for an in-order chunk that fits: no
      flush, no dropped window, no offset awaited, and the header bytes,
      when the chunk carried them, held in front of the payload. */
  lemma InOrderStages(g: Engine, c: Chunk, outs: seq<WriteOutcome>)
    requires Inv(g) && ChunkValid(c) && OffsetFits(g, c)
    requires c.sequence == g.expectedSeq && !g.waitingOffset
    requires HeaderStage(g, c).Some?
    requires |g.buf.window| + |Payload(g, c)| <= BufferLen
    ensures
      var v := LoggingSeq(g.expectedSeq, c.sequence, false);
      var h := HeaderStage(g.(expectedSeq := v.expected), c);
      && v.accept && !v.drop && h.Some?
      && var q := GapStage(h.value.g, false, |h.value.data|, outs);
      && DataProcess(g, c, outs) == AppendStage(q.g, c.firstOffset, h.value.data, q.rest)
      && !q.g.waitingOffset && q.g.buf.file == g.buf.file
      && Pending(q.g.buf) + h.value.data == Pending(g.buf) + c.data
  {
    var v := LoggingSeq(g.expectedSeq, c.sequence, false);
    var g1 := g.(expectedSeq := v.expected);
    var h := HeaderStage(g1, c);
    assert h.value.data == Payload(g, c);
    var q := GapStage(h.value.g, false, |h.value.data|, outs);
    assert !WaitsForOffset(h.value.g, false, |h.value.data|);
    assert q.g.buf.partial == h.value.g.buf.partial && q.g.buf.window == h.value.g.buf.window;
    if g.waitingHeader {
      assert Pending(g.buf) == [];
      assert h.value.g.buf.window == [];
      assert Pending(q.g.buf) == c.data[..UlogHeaderSize];
    } else {
      assert h.value.g.buf == g.buf;
      AppendAssoc(g.buf.partial, g.buf.window, c.data);
    }
  }

  /** An in-order chunk that fits: every byte of it, header included,
      lands after what was already written or pending, in order. */
  lemma InOrderChunkConserves(g: Engine, c: Chunk, outs: seq<WriteOutcome>)
    requires Inv(g) && ChunkValid(c) && OffsetFits(g, c)
    requires c.sequence == g.expectedSeq && !g.waitingOffset
    requires HeaderStage(g, c).Some?
    requires |g.buf.window| + |Payload(g, c)| <= BufferLen
    ensures
      var p := DataProcess(g, c, outs);
      && g.buf.file <= p.g.buf.file
      && !p.g.waitingHeader && !p.g.waitingOffset
      && (p.dup == 0 ==> p.g.buf.file + Pending(p.g.buf) == g.buf.file + Pending(g.buf) + c.data)
  {
    InOrderStages(g, c, outs);
    var v := LoggingSeq(g.expectedSeq, c.sequence, false);
    var h := HeaderStage(g.(expectedSeq := v.expected), c);
    var data := h.value.data;
    var q := GapStage(h.value.g, false, |data|, outs);
    AppendConserves(q.g, c.firstOffset, data, q.rest);
    assert Appended(q.g, c.firstOffset, data) == data;
    AppendAssoc(q.g.buf.file, Pending(q.g.buf), data);
    AppendAssoc(g.buf.file, Pending(g.buf), c.data);
  }

  /** A gap loses nothing already written. */
  lemma GapKeepsFile(g: Engine, c: Chunk, outs: seq<WriteOutcome>)
    requires Inv(g) && ChunkValid(c) && OffsetFits(g, c)
    requires LoggingSeq(g.expectedSeq, c.sequence, false).accept && c.sequence != g.expectedSeq
    requires HeaderStage(g, c).Some?
    ensures g.buf.file <= DataProcess(g, c, outs).g.buf.file
  {
    var v := LoggingSeq(g.expectedSeq, c.sequence, false);
    var g1 := g.(expectedSeq := v.expected);
    var h := HeaderStage(g1, c);
    var data := h.value.data;
    var q := GapStage(h.value.g, v.drop, |data|, outs);
    GapKeepsHeld(h.value.g, v.drop, |data|, outs);
    AppendConserves(q.g, c.firstOffset, data, q.rest);
    assert DataProcess(g, c, outs) == AppendStage(q.g, c.firstOffset, data, q.rest);
  }

  /** After a gap with no offset in the chunk the window stays empty and
      the engine keeps waiting for an offset. */
  lemma GapWaitsForOffset(g: Engine, c: Chunk, outs: seq<WriteOutcome>)
    requires Inv(g) && ChunkValid(c) && OffsetFits(g, c)
    requires LoggingSeq(g.expectedSeq, c.sequence, false).accept && c.sequence != g.expectedSeq
    requires HeaderStage(g, c).Some?
    requires c.firstOffset == NoFirstMsgOffset
    ensures
      var p := DataProcess(g, c, outs);
      p.g.waitingOffset && p.g.buf.window == [] && p.g.buf.index == 0
  {
    var v := LoggingSeq(g.expectedSeq, c.sequence, false);
    var g1 := g.(expectedSeq := v.expected);
    var h := HeaderStage(g1, c);
    var data := h.value.data;
    var q := GapStage(h.value.g, v.drop, |data|, outs);
    assert q.g.waitingOffset && q.g.buf.window == [] && q.g.buf.index == 0;
    assert DataProcess(g, c, outs) == AppendStage(q.g, c.firstOffset, data, q.rest);
  }

  /** After a gap with an offset in the chunk, appending resumes at the
      offset, after the held bytes that the gap flush kept. */
  lemma GapResync(g: Engine, c: Chunk, outs: seq<WriteOutcome>)
    requires Inv(g) && ChunkValid(c) && OffsetFits(g, c)
    requires LoggingSeq(g.expectedSeq, c.sequence, false).accept && c.sequence != g.expectedSeq
    requires HeaderStage(g, c).Some?
    requires c.firstOffset != NoFirstMsgOffset && |Payload(g, c)| > 0
    ensures
      var p := DataProcess(g, c, outs);
      var a := Payload(g, c)[c.firstOffset..];
      var all := p.g.buf.file + Pending(p.g.buf);
      !p.g.waitingOffset &&
      (p.dup == 0 ==> |a| <= |all| && all[|all| - |a|..] == a && g.buf.file + g.buf.partial <= all[..|all| - |a|])
  {
    var v := LoggingSeq(g.expectedSeq, c.sequence, false);
    var g1 := g.(expectedSeq := v.expected);
    var h := HeaderStage(g1, c);
    assert h.value.data == Payload(g, c);
    var data := h.value.data;
    var q := GapStage(h.value.g, v.drop, |data|, outs);
    GapKeepsHeld(h.value.g, v.drop, |data|, outs);
    AppendConserves(q.g, c.firstOffset, data, q.rest);
    var p := DataProcess(g, c, outs);
    assert p == AppendStage(q.g, c.firstOffset, data, q.rest);
    if p.dup == 0 {
      var a := data[c.firstOffset..];
      var all := p.g.buf.file + Pending(p.g.buf);
      assert q.g.buf.window == [] && q.g.waitingOffset;
      assert Pending(q.g.buf) == q.g.buf.partial;
      assert Appended(q.g, c.firstOffset, data) == a;
      assert all == q.g.buf.file + q.g.buf.partial + a;
      assert all[..|all| - |a|] == q.g.buf.file + q.g.buf.partial;
    }
  }

  /** A chunk that does not fit next to the window: the window is dropped,
      the held partial bytes are kept, and appending resumes at the chunk's
      offset, or waits for one. */
  lemma OverflowDiscards(g: Engine, c: Chunk, outs: seq<WriteOutcome>)
    requires Inv(g) && ChunkValid(c) && OffsetFits(g, c)
    requires c.sequence == g.expectedSeq && !g.waitingHeader
    requires |g.buf.window| + |c.data| > BufferLen
    ensures c.firstOffset == NoFirstMsgOffset ==>
      var p := DataProcess(g, c, outs);
      p.g.waitingOffset && p.g.buf.window == [] && p.g.buf.file == g.buf.file && p.g.buf.partial == g.buf.partial
    ensures c.firstOffset != NoFirstMsgOffset ==>
      var p := DataProcess(g, c, outs);
      !p.g.waitingOffset &&
      (p.dup == 0 ==> p.g.buf.file + Pending(p.g.buf) == g.buf.file + g.buf.partial + c.data[c.firstOffset..])
  {
    var v := LoggingSeq(g.expectedSeq, c.sequence, false);
    var g1 := g.(expectedSeq := v.expected);
    assert !v.drop;
    assert HeaderStage(g1, c) == Some(Stripped(g1, c.data));
    var q := GapStage(g1, false, |c.data|, outs);
    AppendConserves(q.g, c.firstOffset, c.data, q.rest);
    assert DataProcess(g, c, outs) == AppendStage(q.g, c.firstOffset, c.data, q.rest);
    assert q.g.buf.window == [] && q.g.waitingOffset;
    assert Pending(q.g.buf) == q.g.buf.partial;
  }
}
