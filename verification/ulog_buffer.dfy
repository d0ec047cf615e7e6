/**
  The buffers of the ULog endpoint and `ULog::_logging_flush`.

  The valid region of the 2048-byte `_buffer` is `window`, starting at
  offset `index` (`_buffer_index`); its length is `_buffer_len`.  The bytes
  outside the window are never read, so the model does not keep them;
  `Memmove` below shows that the compaction of the physical buffer keeps the
  window.  `partial` holds the `_buffer_partial_len` bytes of
  `_buffer_partial` that a short write left behind.  `file` is the
  sequence of bytes the engine has handed to `write(2)` and that the file
  accepted, in order; it is how the model states ordering and no-loss.

  Each `write(2)` call consumes the next outcome of a list of outcomes
  supplied by the caller; an exhausted list behaves as EAGAIN.
 */
module UlogBuffer {
  import opened Common

  /** BUFFER_LEN */
  const BufferLen: nat := 2048
  /** sizeof(_buffer_partial) == BUFFER_LEN / 2 */
  const PartialLen: nat := 1024
  /** sizeof(struct ulog_msg_header): uint16 msg_size, uint8 msg_type */
  const RecordHeaderSize: nat := 3

  /** The buffers of the engine and the file they feed. */
  datatype Buffers = Buffers(index: nat, window: seq<byte>, partial: seq<byte>, file: seq<byte>)

  /** The bounds the buffers always keep. */
  predicate Valid(e: Buffers) {
    && e.index + |e.window| <= BufferLen
    && |e.partial| <= PartialLen
  }

  /** The window as the `_buffer_len` bytes at `_buffer_index` of the
      physical buffer. */
  predicate InBuffer(e: Buffers, buf: seq<byte>) {
    |buf| == BufferLen && e.index + |e.window| <= BufferLen && buf[e.index..e.index + |e.window|] == e.window
  }

  /** `memmove(_buffer, &_buffer[_buffer_index], _buffer_len)`. */
  function Memmove(buf: seq<byte>, index: nat, len: nat): (buf': seq<byte>)
    requires index + len <= |buf|
    ensures |buf'| == |buf|
    ensures buf'[..len] == buf[index..index + len]
    ensures buf'[len..] == buf[len..]
  {
    buf[index..index + len] + buf[len..]
  }

  /** Compacting the physical buffer moves the window to offset 0 with its
      contents unchanged. */
  lemma CompactionKeepsWindow(e: Buffers, buf: seq<byte>)
    requires InBuffer(e, buf)
    ensures InBuffer(e.(index := 0), Memmove(buf, e.index, |e.window|))
  {
  }

  /** Bytes accepted by the engine and not yet in the file, in file order. */
  function Pending(e: Buffers): seq<byte> {
    e.partial + e.window
  }

  /** What one `write(fd, p, count)` call did: `Wrote(n)` returned n, `Again`
      is -1 with EAGAIN, `Failed` is -1 with any other errno. */
  datatype WriteOutcome = Wrote(n: nat) | Again | Failed

  /** Bytes the file accepted: a write never takes more than it was given. */
  function Taken(o: WriteOutcome, count: nat): (k: nat)
    ensures k <= count
    ensures k > 0 ==> o.Wrote?
  {
    if o.Wrote? then Min(o.n, count) else 0
  }

  function Head(outs: seq<WriteOutcome>): WriteOutcome {
    if |outs| == 0 then Again else outs[0]
  }

  function Tail(outs: seq<WriteOutcome>): (rest: seq<WriteOutcome>)
    ensures |outs| > 0 ==> |rest| < |outs|
    ensures |outs| == 0 ==> rest == []
  {
    if |outs| == 0 then [] else outs[1..]
  }

  /** `header->msg_size + sizeof(struct ulog_msg_header)` computed without
      16-bit truncation; msg_size is little-endian. */
  function RecordSize(w: seq<byte>): (n: nat)
    requires |w| >= 2
    ensures RecordHeaderSize <= n <= 0xFFFF + RecordHeaderSize
  {
    w[0] + 256 * w[1] + RecordHeaderSize
  }

  /** `k` bytes from the start of `w` are a whole number of ULog records. */
  predicate RecordAligned(w: seq<byte>, k: nat)
    decreases k
  {
    k == 0 ||
    (|w| >= 2 && RecordSize(w) <= k <= |w| && RecordAligned(w[RecordSize(w)..], k - RecordSize(w)))
  }

  /** Outcome of a flush: the new state, the unused write outcomes, the
      function's return value and `dup`, the number of bytes of a record that
      reached the file while the record itself stayed in the window (the
      "ULog file is now corrupt" path); zero otherwise. */
  datatype FlushResult = FlushResult(e: Buffers, rest: seq<WriteOutcome>, ok: bool, dup: nat)

  /** What every flush keeps: the bounds hold, the window only loses bytes
      at its front and the file only grows at its end. */
  predicate FlushFrame(e: Buffers, outs: seq<WriteOutcome>, r: FlushResult) {
    && Valid(r.e)
    && |r.rest| <= |outs|
    && e.index <= r.e.index
    && r.e.index + |r.e.window| == e.index + |e.window|
    && r.e.window == e.window[r.e.index - e.index..]
    && e.file <= r.e.file
  }

  /** The "now corrupt" path: the partial buffer is empty, the first `dup`
      bytes of the window also sit at the end of the file, and apart from
      them nothing was lost or reordered. */
  predicate DuplicatedRecordStart(e: Buffers, r: FlushResult) {
    && r.e.partial == []
    && r.dup < |r.e.window|
    && r.dup <= |r.e.file|
    && r.e.file + r.e.window[r.dup..] == e.file + Pending(e)
    && r.e.file[|r.e.file| - r.dup..] == r.e.window[..r.dup]
  }

  /** No byte is lost or reordered: the file followed by the pending bytes
      is unchanged, except on the corrupt path. */
  predicate Conserved(e: Buffers, r: FlushResult) {
    && (r.dup == 0 ==> r.e.file + Pending(r.e) == e.file + Pending(e))
    && (r.dup > 0 ==> DuplicatedRecordStart(e, r))
  }

  /** The first loop of `_logging_flush`: write the held partial bytes. */
  function DrainPartial(e: Buffers, outs: seq<WriteOutcome>): (r: FlushResult)
    requires Valid(e)
    ensures FlushFrame(e, outs, r)
    ensures r.dup == 0 && r.e.index == e.index && r.e.window == e.window
    ensures r.e.file + r.e.partial == e.file + e.partial
    ensures !r.ok ==> r.e.partial != []
    decreases |outs|
  {
    if |e.partial| == 0 then
      FlushResult(e, outs, true, 0)
    else
      var o := Head(outs);
      var k := Taken(o, |e.partial|);
      if o.Failed? then
        FlushResult(e, Tail(outs), false, 0)
      else if k == 0 then
        FlushResult(e, Tail(outs), true, 0)
      else
        var e' := e.(file := e.file + e.partial[..k], partial := e.partial[k..]);
        assert e'.file + e'.partial == e.file + e.partial by {
          assert e.partial == e.partial[..k] + e.partial[k..];
        }
        DrainPartial(e', Tail(outs))
  }

  /** The state after the record at the front of the window was fully
      written. */
  function Consume(e: Buffers, size: nat): Buffers
    requires size <= |e.window|
  {
    e.(file := e.file + e.window[..size], index := e.index + size, window := e.window[size..])
  }

  /** One iteration of the record loop: either it wrote a whole record and
      the loop goes on, or the loop ends with the function's result. */
  datatype RecordStep = Continue(e: Buffers, rest: seq<WriteOutcome>) | Done(r: FlushResult)

  function RecordLoopStep(e: Buffers, outs: seq<WriteOutcome>): (s: RecordStep)
    requires Valid(e) && e.partial == []
    ensures s.Continue? ==> Valid(s.e) && s.e.partial == [] && |s.rest| < |outs|
  {
    if |e.window| < RecordHeaderSize then
      Done(FlushResult(e, outs, true, 0))
    else
      var size := RecordSize(e.window);
      if size > |e.window| then
        Done(FlushResult(e, outs, true, 0))
      else
        var o := Head(outs);
        var k := Taken(o, size);
        if k == size then
          Continue(Consume(e, size), Tail(outs))
        else if o.Failed? then
          Done(FlushResult(e, Tail(outs), false, 0))
        else if k == 0 then
          Done(FlushResult(e, Tail(outs), true, 0))
        else if size - k > PartialLen then
          Done(FlushResult(e.(file := e.file + e.window[..k]), Tail(outs), true, k))
        else
          Done(FlushResult(Consume(e, size).(file := e.file + e.window[..k], partial := e.window[k..size]), Tail(outs), true, 0))
  }

  /** The second loop of `_logging_flush`: write whole records from the
      front of the window while the partial buffer is empty.  A record is
      written only when all of it is in the window; after a short write the
      rest of the record moves to the partial buffer, unless it is larger
      than that buffer. */
  function WriteRecords(e: Buffers, outs: seq<WriteOutcome>): (r: FlushResult)
    requires Valid(e) && e.partial == []
    ensures Valid(r.e) && |r.rest| <= |outs|
    ensures e.index <= r.e.index <= e.index + |e.window|
    ensures RecordAligned(e.window, r.e.index - e.index)
    decreases |outs|
  {
    var s := RecordLoopStep(e, outs);
    if s.Continue? then
      var r := WriteRecords(s.e, s.rest);
      AlignedAfterStep(e, outs, s.e, s.rest, r.e.index);
      r
    else
      StepAligned(e, outs);
      s.r
  }

  /** The records of one iteration followed by those of the remaining
      iterations. */
  lemma AlignedAfterStep(e: Buffers, outs: seq<WriteOutcome>, m: Buffers, rest: seq<WriteOutcome>, end: nat)
    requires Valid(e) && e.partial == [] && RecordLoopStep(e, outs) == Continue(m, rest)
    requires m.index <= end <= m.index + |m.window| && RecordAligned(m.window, end - m.index)
    ensures e.index <= end <= e.index + |e.window|
    ensures RecordAligned(e.window, end - e.index)
  {
    StepAligned(e, outs);
    AlignedThrough(e, m, end);
  }

  /** A whole record written: the record moves from the window to the file. */
  lemma RecordWritten(e: Buffers, rest: seq<WriteOutcome>, outs: seq<WriteOutcome>, size: nat)
    requires Valid(e) && e.partial == [] && |rest| <= |outs|
    requires |e.window| >= 2 && size == RecordSize(e.window) <= |e.window|
    ensures FlushFrame(e, outs, FlushResult(Consume(e, size), rest, true, 0))
    ensures Conserved(e, FlushResult(Consume(e, size), rest, true, 0))
    ensures RecordAligned(e.window, size)
  {
    var w := e.window;
    assert w == w[..size] + w[size..];
    assert RecordAligned(w[size..], 0);
  }

  /** A short write of a record whose rest fits the partial buffer: the rest
      moves to the partial buffer and the record leaves the window. */
  lemma RecordShort(e: Buffers, rest: seq<WriteOutcome>, outs: seq<WriteOutcome>, size: nat, k: nat)
    requires Valid(e) && e.partial == [] && |rest| <= |outs|
    requires |e.window| >= 2 && size == RecordSize(e.window) <= |e.window|
    requires 0 < k < size && size - k <= PartialLen
    ensures
      var r := FlushResult(Consume(e, size).(file := e.file + e.window[..k], partial := e.window[k..size]), rest, true, 0);
      FlushFrame(e, outs, r) && Conserved(e, r)
    ensures RecordAligned(e.window, size)
  {
    var w := e.window;
    assert w == w[..k] + w[k..size] + w[size..];
    assert RecordAligned(w[size..], 0);
  }

  /** A short write of a record whose rest does not fit the partial buffer:
      the written bytes stay in the window as well. */
  lemma RecordCorrupt(e: Buffers, rest: seq<WriteOutcome>, outs: seq<WriteOutcome>, size: nat, k: nat)
    requires Valid(e) && e.partial == [] && |rest| <= |outs|
    requires |e.window| >= 2 && size == RecordSize(e.window) <= |e.window|
    requires 0 < k < size && size - k > PartialLen
    ensures
      var r := FlushResult(e.(file := e.file + e.window[..k]), rest, true, k);
      FlushFrame(e, outs, r) && Conserved(e, r)
  {
    var w := e.window;
    assert w == w[..k] + w[k..];
  }

  /** A loop exit that wrote nothing. */
  lemma RecordNone(e: Buffers, rest: seq<WriteOutcome>, outs: seq<WriteOutcome>, ok: bool)
    requires Valid(e) && |rest| <= |outs|
    ensures FlushFrame(e, outs, FlushResult(e, rest, ok, 0)) && Conserved(e, FlushResult(e, rest, ok, 0))
    ensures RecordAligned(e.window, 0)
  {
    assert e.window[0..] == e.window;
  }

  /** Every iteration keeps the frame, the bytes and the record alignment. */
  lemma StepSpec(e: Buffers, outs: seq<WriteOutcome>)
    requires Valid(e) && e.partial == []
    ensures RecordLoopStep(e, outs).Continue? ==>
      var s := RecordLoopStep(e, outs);
      && FlushFrame(e, outs, FlushResult(s.e, s.rest, true, 0))
      && Conserved(e, FlushResult(s.e, s.rest, true, 0))
      && RecordAligned(e.window, s.e.index - e.index)
    ensures RecordLoopStep(e, outs).Done? ==>
      var r := RecordLoopStep(e, outs).r;
      && FlushFrame(e, outs, r)
      && Conserved(e, r)
      && RecordAligned(e.window, r.e.index - e.index)
      && (r.dup > 0 ==> 2 <= |r.e.window| && r.dup + PartialLen < RecordSize(r.e.window) <= |r.e.window|)
  {
    var w := e.window;
    if |w| < RecordHeaderSize || RecordSize(w) > |w| {
      assert RecordLoopStep(e, outs) == Done(FlushResult(e, outs, true, 0));
      RecordNone(e, outs, outs, true);
    } else {
      var size := RecordSize(w);
      var o := Head(outs);
      var k := Taken(o, size);
      if k == size {
        assert RecordLoopStep(e, outs) == Continue(Consume(e, size), Tail(outs));
        RecordWritten(e, Tail(outs), outs, size);
      } else if o.Failed? {
        assert RecordLoopStep(e, outs) == Done(FlushResult(e, Tail(outs), false, 0));
        RecordNone(e, Tail(outs), outs, false);
      } else if k == 0 {
        assert RecordLoopStep(e, outs) == Done(FlushResult(e, Tail(outs), true, 0));
        RecordNone(e, Tail(outs), outs, true);
      } else if size - k > PartialLen {
        assert RecordLoopStep(e, outs) == Done(FlushResult(e.(file := e.file + e.window[..k]), Tail(outs), true, k));
        RecordCorrupt(e, Tail(outs), outs, size, k);
      } else {
        assert RecordLoopStep(e, outs) ==
          Done(FlushResult(Consume(e, size).(file := e.file + e.window[..k], partial := e.window[k..size]), Tail(outs), true, 0));
        RecordShort(e, Tail(outs), outs, size, k);
      }
    }
  }

  /** The alignment part of `StepSpec`, on its own. */
  lemma StepAligned(e: Buffers, outs: seq<WriteOutcome>)
    requires Valid(e) && e.partial == []
    ensures RecordLoopStep(e, outs).Continue? ==>
      var s := RecordLoopStep(e, outs);
      && e.index <= s.e.index <= e.index + |e.window|
      && s.e.window == e.window[s.e.index - e.index..]
      && RecordAligned(e.window, s.e.index - e.index)
    ensures RecordLoopStep(e, outs).Done? ==>
      var r := RecordLoopStep(e, outs).r;
      && e.index <= r.e.index <= e.index + |e.window|
      && RecordAligned(e.window, r.e.index - e.index)
  {
    StepSpec(e, outs);
  }

  /** Two frames in a row make a frame, and bytes conserved twice are
      conserved. */
  lemma FrameTrans(e: Buffers, outs: seq<WriteOutcome>, m: FlushResult, r: FlushResult)
    requires FlushFrame(e, outs, m) && m.dup == 0 && Conserved(e, m)
    requires FlushFrame(m.e, m.rest, r) && Conserved(m.e, r)
    ensures FlushFrame(e, outs, r) && Conserved(e, r)
  {
    assert e.window[m.e.index - e.index..][r.e.index - m.e.index..] == e.window[r.e.index - e.index..];
  }

  /** The whole record loop keeps the frame and the bytes. */
  lemma {:induction false} WriteRecordsSpec(e: Buffers, outs: seq<WriteOutcome>)
    requires Valid(e) && e.partial == []
    ensures FlushFrame(e, outs, WriteRecords(e, outs))
    ensures Conserved(e, WriteRecords(e, outs))
    ensures WriteRecords(e, outs).dup > 0 ==>
      var r := WriteRecords(e, outs);
      2 <= |r.e.window| && r.dup + PartialLen < RecordSize(r.e.window) <= |r.e.window|
    decreases |outs|
  {
    StepSpec(e, outs);
    var s := RecordLoopStep(e, outs);
    if s.Continue? {
      WriteRecordsSpec(s.e, s.rest);
      var r := WriteRecords(s.e, s.rest);
      assert WriteRecords(e, outs) == r;
      FrameTrans(e, outs, FlushResult(s.e, s.rest, true, 0), r);
    } else {
      assert WriteRecords(e, outs) == s.r;
    }
  }

  /** Alignment up to an intermediate state and from there on is alignment
      up to the end. */
  lemma AlignedThrough(e: Buffers, m: Buffers, end: nat)
    requires e.index <= m.index <= e.index + |e.window|
    requires m.window == e.window[m.index - e.index..]
    requires RecordAligned(e.window, m.index - e.index)
    requires m.index <= end <= m.index + |m.window| && RecordAligned(m.window, end - m.index)
    ensures e.index <= end <= e.index + |e.window|
    ensures RecordAligned(e.window, end - e.index)
  {
    AlignedConcat(e.window, m.index - e.index, end - m.index);
  }

  lemma AlignedCongruence(w: seq<byte>, k: nat, w': seq<byte>, k': nat)
    requires w == w' && k == k' && RecordAligned(w, k)
    ensures RecordAligned(w', k')
  {
  }

  /** Records after records are records. */
  lemma {:induction false} AlignedConcat(w: seq<byte>, j: nat, k: nat)
    requires RecordAligned(w, j) && RecordAligned(w[j..], k)
    ensures RecordAligned(w, j + k)
    decreases j
  {
    if j > 0 {
      var size := RecordSize(w);
      assert w[size..][j - size..] == w[j..];
      AlignedConcat(w[size..], j - size, k);
    }
  }

  /** `_logging_flush`: drain the partial bytes first; only when they are
      all written, write whole records.  `ok` is the C return value. */
  function Flush(e: Buffers, outs: seq<WriteOutcome>): (r: FlushResult)
    requires Valid(e)
    ensures Valid(r.e) && |r.rest| <= |outs|
    ensures e.index <= r.e.index <= e.index + |e.window|
  {
    var d := DrainPartial(e, outs);
    if !d.ok || d.e.partial != [] then d else WriteRecords(d.e, d.rest)
  }

  /** A flush advances the window only by whole ULog records. */
  lemma FlushAligned(e: Buffers, outs: seq<WriteOutcome>)
    requires Valid(e)
    ensures RecordAligned(e.window, Flush(e, outs).e.index - e.index)
  {
    AdvanceAligned(e, outs, Flush(e, outs).e.index - e.index);
  }

  /** The advance `k` of a flush is a whole number of records. */
  lemma AdvanceAligned(e: Buffers, outs: seq<WriteOutcome>, k: int)
    requires Valid(e) && k == Flush(e, outs).e.index - e.index
    ensures k >= 0 && RecordAligned(e.window, k)
  {
    var d := DrainPartial(e, outs);
    FlushAdvance(e, outs, k);
    if d.ok && d.e.partial == [] {
      RecordsAfterDrainAligned(e, d.e, d.rest, k);
    }
  }

  /** How far a flush advances the window: nothing unless the held bytes
      were all written, and then as far as the record loop went. */
  lemma FlushAdvance(e: Buffers, outs: seq<WriteOutcome>, k: int)
    requires Valid(e) && k == Flush(e, outs).e.index - e.index
    ensures
      var d := DrainPartial(e, outs);
      k == if !d.ok || d.e.partial != [] then 0 else WriteRecords(d.e, d.rest).e.index - e.index
  {
  }

  /** The record loop started right after a complete drain advances by
      whole records of the window the flush started with: `k`, its
      advance, is a whole number of records. */
  lemma RecordsAfterDrainAligned(e: Buffers, drained: Buffers, rest: seq<WriteOutcome>, k: int)
    requires Valid(drained) && drained.partial == [] && drained.window == e.window && drained.index == e.index
    requires k == WriteRecords(drained, rest).e.index - e.index
    ensures k >= 0 && RecordAligned(e.window, k)
  {
  }

  /** The full promise of a flush: the held bytes are written before any
      record, and nothing is lost or reordered except on the corrupt path,
      where the start of the record at the front of the window was written
      although the record stays in the window. */
  lemma FlushSpec(e: Buffers, outs: seq<WriteOutcome>)
    requires Valid(e)
    ensures FlushFrame(e, outs, Flush(e, outs))
    ensures Conserved(e, Flush(e, outs))
    ensures Flush(e, outs).e.index != e.index ==> e.file + e.partial <= Flush(e, outs).e.file
    ensures Flush(e, outs).dup > 0 ==>
      var r := Flush(e, outs);
      2 <= |r.e.window| && r.dup + PartialLen < RecordSize(r.e.window) <= |r.e.window|
    ensures e.file + e.partial <= Flush(e, outs).e.file + Flush(e, outs).e.partial
  {
    var d := DrainPartial(e, outs);
    if d.ok && d.e.partial == [] {
      var r := WriteRecords(d.e, d.rest);
      assert Flush(e, outs) == r;
      WriteRecordsSpec(d.e, d.rest);
      AfterDrain(e, outs, d, r);
    } else {
      assert Flush(e, outs) == d;
      DrainOnly(e, outs, d);
    }
  }

  /** A flush that stopped in the drain loop. */
  lemma DrainOnly(e: Buffers, outs: seq<WriteOutcome>, d: FlushResult)
    requires Valid(e) && FlushFrame(e, outs, d)
    requires d.dup == 0 && d.e.index == e.index && d.e.window == e.window
    requires d.e.file + d.e.partial == e.file + e.partial
    ensures Conserved(e, d)
  {
    AppendAssoc(d.e.file, d.e.partial, e.window);
    AppendAssoc(e.file, e.partial, e.window);
  }

  /** The record loop after a complete drain, seen from the state before
      the drain. */
  lemma AfterDrain(e: Buffers, outs: seq<WriteOutcome>, d: FlushResult, r: FlushResult)
    requires Valid(e) && FlushFrame(e, outs, d)
    requires d.e.partial == [] && d.e.file == e.file + e.partial && d.e.window == e.window && d.e.index == e.index
    requires FlushFrame(d.e, d.rest, r) && Conserved(d.e, r)
    requires r.dup > 0 ==> 2 <= |r.e.window| && r.dup + PartialLen < RecordSize(r.e.window) <= |r.e.window|
    ensures FlushFrame(e, outs, r) && Conserved(e, r)
    ensures e.file + e.partial <= r.e.file
    ensures e.file + e.partial <= r.e.file + r.e.partial
  {
    assert Pending(d.e) == e.window;
    AppendAssoc(e.file, e.partial, e.window);
  }

  lemma AppendAssoc<T>(a: seq<T>, b: seq<T>, c: seq<T>)
    ensures a + b + c == a + (b + c)
  {
  }

  /** Every iteration that goes on has written a whole record of at least
      the header's size, so the record loop always advances. */
  lemma RecordLoopProgress(e: Buffers, outs: seq<WriteOutcome>)
    requires Valid(e) && e.partial == []
    ensures RecordLoopStep(e, outs).Continue? ==>
      var s := RecordLoopStep(e, outs);
      s.e.index >= e.index + RecordHeaderSize && |s.e.window| + RecordHeaderSize <= |e.window|
  {
  }

  /** `full_msg_size` as the C code computes it: in a uint16_t, so that a
      `msg_size` of 65533 to 65535 wraps to 0, 1 or 2. */
  function RecordSize16(w: seq<byte>): (n: nat)
    requires |w| >= 2
    ensures n < 0x1_0000
    ensures n == RecordSize(w) || n + 0x1_0000 == RecordSize(w)
    ensures n < RecordHeaderSize <==> w[0] + 256 * w[1] > 0xFFFF - RecordHeaderSize
  {
    (w[0] + 256 * w[1] + RecordHeaderSize) % 0x1_0000
  }

  /** What `write(2)` returned for a request of `count` bytes. */
  function Returned(o: WriteOutcome, count: nat): (r: int)
    ensures o.Wrote? ==> r == Taken(o, count)
    ensures !o.Wrote? ==> r == -1
  {
    if o.Wrote? then Min(o.n, count) else -1
  }

  /** One iteration of the record loop exactly as written, with the 16-bit
      record size and the comparison of the raw return value. */
  function RecordLoopStepAsWritten(e: Buffers, outs: seq<WriteOutcome>): (s: RecordStep)
    requires Valid(e) && e.partial == []
  {
    if |e.window| < RecordHeaderSize then
      Done(FlushResult(e, outs, true, 0))
    else
      var size := RecordSize16(e.window);
      if size > |e.window| then
        Done(FlushResult(e, outs, true, 0))
      else
        var o := Head(outs);
        var r := Returned(o, size);
        if r == size then
          Continue(Consume(e, size), Tail(outs))
        else if r == 0 || o.Again? then
          Done(FlushResult(e, Tail(outs), true, 0))
        else if r < 0 then
          Done(FlushResult(e, Tail(outs), false, 0))
        else if size - r > PartialLen then
          Done(FlushResult(e.(file := e.file + e.window[..r]), Tail(outs), true, r))
        else
          Done(FlushResult(Consume(e, size).(file := e.file + e.window[..r], partial := e.window[r..size]), Tail(outs), true, 0))
  }

  /** With a record header whose `msg_size` is 65533 the 16-bit size is 0;
      `write(fd, p, 0)` returns 0, which equals the size, so the iteration
      "writes the whole record" without consuming anything and the loop
      goes on from the very same state: the C loop never terminates. */
  lemma WrappedRecordSizeNoProgress(e: Buffers, outs: seq<WriteOutcome>)
    requires Valid(e) && e.partial == []
    requires |e.window| >= RecordHeaderSize && e.window[0] == 0xFD && e.window[1] == 0xFF
    requires Head(outs).Wrote?
    ensures RecordLoopStepAsWritten(e, outs) == Continue(e, Tail(outs))
  {
    assert e.window[..0] == [] && e.window[0..] == e.window;
  }

  /** A concrete window on which the loop as written spins. */
  lemma WrappedRecordSizeExample()
    ensures
      var e := Buffers(0, [0xFD, 0xFF, 0x41], [], []);
      RecordLoopStepAsWritten(e, [Wrote(0)]) == Continue(e, [])
  {
    var e := Buffers(0, [0xFD, 0xFF, 0x41], [], []);
    WrappedRecordSizeNoProgress(e, [Wrote(0)]);
  }
}
