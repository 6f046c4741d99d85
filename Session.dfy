/** The host's download session against the thermometer: write "QD 0", check
    the acknowledgement, decode the header, write "QD 1" and read the announced
    number of 8-byte record frames, taking each frame's record-kind bit.

    The serial link is abstract: what the instrument sends is a finite byte
    sequence read through a cursor, and what the host writes is a log of bytes.
    Every failed read and a wrong acknowledgement end the session (the host
    panics), so a session either completes or aborts with the reason. */
module Session {
  import opened Bits
  import opened Frames

  /** The read during which the session stopped. */
  datatype Stage = AckStage | HeaderStage | FrameStage(index: nat)

  /** Why a session aborts: the error the host panics with. */
  datatype Failure =
    | EndOfInput(stage: Stage)     // no byte of the read arrived (io.EOF)
    | UnexpectedEnd(stage: Stage)  // some but not all bytes arrived (io.ErrUnexpectedEOF)
    | InvalidResponse              // the acknowledgement is not "0\rQD,"

  /** What a completed session yields: the header fields and, per record
      frame in arrival order, its discriminator (0 or 128). */
  datatype Reading = Reading(header: Header, discriminators: seq<Byte>)

  datatype Outcome = Complete(reading: Reading) | Aborted(failure: Failure)

  /** A whole session: its outcome, every byte the host wrote and the number
      of bytes it took from the link. */
  datatype Trace = Trace(outcome: Outcome, written: seq<Byte>, consumed: nat)

  /** How a full read ends, as `io.ReadFull` reports it. */
  datatype ReadStatus = Filled | Eof | UnexpectedEof

  /** The abort a failed read causes during `stage`. */
  function ReadFailure(status: ReadStatus, stage: Stage): Failure
    requires status != Filled
  {
    if status == Eof then EndOfInput(stage) else UnexpectedEnd(stage)
  }

  /** Reads `buffer.Length` bytes from the link at `cursor` into `buffer`,
      overwriting it; on a short read the buffer holds what did arrive. */
  method ReadFull(input: seq<Byte>, cursor: nat, buffer: array<Byte>) returns (n: nat, status: ReadStatus)
    requires cursor <= |input|
    modifies buffer
    ensures n == if cursor + buffer.Length <= |input| then buffer.Length else |input| - cursor
    ensures buffer[..n] == input[cursor..cursor + n]
    ensures buffer[n..] == old(buffer[n..])
    ensures status == if n == buffer.Length then Filled else if n == 0 then Eof else UnexpectedEof
  {
    n := 0;
    while n < buffer.Length && cursor + n < |input|
      invariant n <= buffer.Length && cursor + n <= |input|
      invariant buffer[..n] == input[cursor..cursor + n]
      invariant buffer[n..] == old(buffer[n..])
    {
      buffer[n] := input[cursor + n];
      n := n + 1;
    }
    status := if n == buffer.Length then Filled else if n == 0 then Eof else UnexpectedEof;
  }

  /** Where record frame `i` starts in the instrument's byte stream. */
  function FrameStart(i: nat): nat
  {
    AckLength + HeaderLength + FrameLength * i
  }

  /** Record frame `i` of the stream. */
  function FrameAt(input: seq<Byte>, i: nat): (frame: seq<Byte>)
    requires FrameStart(i + 1) <= |input|
    ensures |frame| == FrameLength
  {
    input[FrameStart(i)..FrameStart(i + 1)]
  }

  /** The discriminators of the first `n` record frames of the stream. */
  function Discriminators(input: seq<Byte>, n: nat): (d: seq<Byte>)
    requires FrameStart(n) <= |input|
    ensures |d| == n
  {
    seq(n, i requires 0 <= i < n => Discriminator(FrameAt(input, i)))
  }

  lemma DiscriminatorsSnoc(input: seq<Byte>, i: nat)
    requires FrameStart(i + 1) <= |input|
    ensures Discriminators(input, i + 1) == Discriminators(input, i) + [Discriminator(FrameAt(input, i))]
  {
  }

  /** The session, stated on the whole stream at once: which prefix of it
      decides each step, and what the host has written by then. */
  function Run(input: seq<Byte>): (t: Trace)
    ensures t.consumed <= |input|
    ensures t.written == CountQuery || t.written == CountQuery + DataQuery
    ensures t.written == CountQuery + DataQuery <==> |input| >= FrameStart(0) && input[..AckLength] == AckReply
  {
    if |input| < AckLength then
      Trace(Aborted(ShortRead(|input|, AckStage)), CountQuery, |input|)
    else if !IsAck(input[..AckLength]) then
      Trace(Aborted(InvalidResponse), CountQuery, AckLength)
    else if |input| < FrameStart(0) then
      Trace(Aborted(ShortRead(|input| - AckLength, HeaderStage)), CountQuery, |input|)
    else
      RecordPhase(input, HeaderOf(input[AckLength..FrameStart(0)]))
  }

  /** The session after "QD 1": the frames `header` announces, or the abort
      in the frame the stream ends in. */
  function RecordPhase(input: seq<Byte>, header: Header): (t: Trace)
    requires FrameStart(0) <= |input|
    ensures t.consumed <= |input| && t.written == CountQuery + DataQuery
  {
    if |input| < FrameStart(header.count) then
      var index := (|input| - FrameStart(0)) / FrameLength;
      Trace(Aborted(ShortRead(|input| - FrameStart(index), FrameStage(index))),
            CountQuery + DataQuery, |input|)
    else
      Trace(Complete(Reading(header, Discriminators(input, header.count))),
            CountQuery + DataQuery, FrameStart(header.count))
  }

  /** The abort of a read that got `got` bytes, fewer than it asked for. */
  function ShortRead(got: nat, stage: Stage): Failure
  {
    if got == 0 then EndOfInput(stage) else UnexpectedEnd(stage)
  }

  /** The session as the host runs it: one reused buffer per stage, a cursor
      into the stream and a log of written bytes. */
  method Acquire(input: seq<Byte>) returns (outcome: Outcome, written: seq<Byte>, consumed: nat)
    ensures Trace(outcome, written, consumed) == Run(input)
  {
    var cursor: nat := 0;
    written := CountQuery;

    var buffer := new Byte[AckLength];
    var n, status := ReadFull(input, cursor, buffer);
    cursor := cursor + n;
    if status != Filled {
      outcome, consumed := Aborted(ReadFailure(status, AckStage)), cursor;
      return;
    }
    assert buffer[..] == input[..AckLength];
    if !IsAck(buffer[..]) {
      outcome, consumed := Aborted(InvalidResponse), cursor;
      return;
    }

    buffer := new Byte[HeaderLength];
    n, status := ReadFull(input, cursor, buffer);
    cursor := cursor + n;
    if status != Filled {
      outcome, consumed := Aborted(ReadFailure(status, HeaderStage)), cursor;
      return;
    }
    assert buffer[..] == input[AckLength..FrameStart(0)];
    var count, time, clockSet := DecodeHeader(buffer);
    var header := Header(count, time, clockSet);
    assert Run(input) == RecordPhase(input, header);

    written := written + DataQuery;
    outcome, consumed := ReadRecords(input, header);
  }

  /** The frame loop after "QD 1": read `header.count` frames of 8 bytes into
      one reused buffer, taking the discriminator of each. */
  method ReadRecords(input: seq<Byte>, header: Header) returns (outcome: Outcome, consumed: nat)
    requires FrameStart(0) <= |input|
    ensures Trace(outcome, CountQuery + DataQuery, consumed) == RecordPhase(input, header)
  {
    var cursor: nat := FrameStart(0);
    var buffer := new Byte[FrameLength];
    var discriminators: seq<Byte> := [];
    var i: nat := 0;
    while i < header.count
      invariant i <= header.count
      invariant cursor == FrameStart(i) <= |input|
      invariant discriminators == Discriminators(input, i)
    {
      var n, status := ReadFull(input, cursor, buffer);
      cursor := cursor + n;
      if status != Filled {
        assert FrameStart(i) <= |input| < FrameStart(i + 1);
        assert (|input| - FrameStart(0)) / FrameLength == i;
        outcome, consumed := Aborted(ReadFailure(status, FrameStage(i))), cursor;
        return;
      }
      assert buffer[..] == buffer[..n] == FrameAt(input, i);
      DiscriminatorsSnoc(input, i);
      discriminators := discriminators + [Discriminator(buffer[..])];
      i := i + 1;
    }
    outcome := Complete(Reading(header, discriminators));
    consumed := cursor;
  }
}
