/**
  Acceptance of a LOGGING_DATA chunk by its 16-bit wrapping sequence number
  (`ULog::_logging_seq`).

  The thresholds follow the code, not serial-number arithmetic: a chunk
  numerically above the expected value is stale when it is more than
  UINT16_MAX / 2 = 32767 ahead; a chunk numerically below it is a
  retransmission when it is less than 32767 behind.  Everything else is a
  forward jump, i.e. a gap.
 */
module UlogSeq {

  const SeqModulus: int := 0x1_0000
  /** UINT16_MAX / 2 in C integer division. */
  const HalfRange: int := 32767

  type Seq16 = x: int | 0 <= x < 0x1_0000

  /** Result of `_logging_seq`: whether the chunk is handled, the value left
      in the caller's `drop` flag, and the new expected sequence number. */
  datatype Verdict = Verdict(accept: bool, drop: bool, expected: Seq16)

  function Next(s: Seq16): Seq16 {
    (s + 1) % SeqModulus
  }

  /** Forward distance from `expected` to `s` in the modular sequence space. */
  function Forward(expected: Seq16, s: Seq16): (d: int)
    ensures 0 <= d < SeqModulus
    ensures (expected + d) % SeqModulus == s
  {
    (s - expected) % SeqModulus
  }

  /**
    `_logging_seq(seq, &drop)`; `dropIn` is the caller's flag, which the
    function leaves untouched when it rejects the chunk.  The contract
    classifies the chunk by its modular forward distance alone, except for
    the two distances 32768 and 32769 where the code's answer depends on
    whether the numbers wrapped.
  */
  function LoggingSeq(expected: Seq16, s: Seq16, dropIn: bool): (v: Verdict)
    ensures Forward(expected, s) == 0 ==> v.accept && !v.drop
    ensures 1 <= Forward(expected, s) <= HalfRange ==> v.accept && v.drop
    ensures Forward(expected, s) >= HalfRange + 3 ==> !v.accept
    ensures HalfRange + 1 <= Forward(expected, s) <= HalfRange + 2 ==> (v.accept <==> s < expected)
    ensures v.accept ==> v.expected == Next(s)
    ensures !v.accept ==> v.expected == expected && v.drop == dropIn
  {
    if expected == s then
      Verdict(true, false, Next(s))
    else if s > expected && s - expected > HalfRange then
      Verdict(false, dropIn, expected)
    else if s < expected && expected - s < HalfRange then
      Verdict(false, dropIn, expected)
    else
      Verdict(true, true, Next(s))
  }

  /** Every accepted chunk, in order or after a gap, leaves the expected
      sequence number just after its own, modulo 2^16. */
  lemma AcceptedAdvancesPastChunk(expected: Seq16, s: Seq16, dropIn: bool)
    requires LoggingSeq(expected, s, dropIn).accept
    ensures LoggingSeq(expected, s, dropIn).expected == Next(s)
    ensures Forward(s, LoggingSeq(expected, s, dropIn).expected) == 1
  {
  }

  /** A chunk is a gap exactly when it is accepted but is not the expected one. */
  lemma GapIffAcceptedOutOfOrder(expected: Seq16, s: Seq16)
    ensures LoggingSeq(expected, s, false).drop <==> LoggingSeq(expected, s, false).accept && s != expected
  {
  }

  /** The same modular distance 32768 gets two answers: rejected when the
      chunk is numerically above the expected value, accepted as a gap when
      the numbers wrapped. */
  lemma HalfRangeAsymmetry()
    ensures Forward(0, 32768) == Forward(32768, 0)
    ensures !LoggingSeq(0, 32768, false).accept
    ensures LoggingSeq(32768, 0, false).accept && LoggingSeq(32768, 0, false).drop
  {
  }
}
