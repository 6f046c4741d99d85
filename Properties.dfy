/** Properties of the download session that relate several runs: what decides
    acceptance of the acknowledgement, that the host stops exactly after the
    announced frames, that any truncation of a good stream aborts, and that
    every stream the instrument can send for a header and a list of frames is
    decoded back to that header and those frames' discriminators. */
module SessionProperties {
  import opened Bits
  import opened Frames
  import opened Session

  /** The acknowledgement alone decides whether the session goes on after
      it: any other 5 bytes abort with an invalid response, having written
      only "QD 0" and having read nothing past the acknowledgement. */
  lemma AckDecides(input: seq<Byte>)
    requires |input| >= AckLength
    ensures Run(input).outcome == Aborted(InvalidResponse) <==> input[..AckLength] != AckReply
    ensures input[..AckLength] != AckReply ==>
      Run(input).written == CountQuery && Run(input).consumed == AckLength
  {
  }

  /** A completed session read the acknowledgement, the header and exactly
      `count` frames, 5 + 7 + 8 * count bytes, with count in [1, 65536]; the
      discriminator of frame `i` is 128 or 0 by the high bit of its byte 7. */
  lemma CompleteReading(input: seq<Byte>)
    requires Run(input).outcome.Complete?
    ensures var h := Run(input).outcome.reading.header;
      ValidHeader(h) && Run(input).consumed == AckLength + HeaderLength + FrameLength * h.count &&
      |Run(input).outcome.reading.discriminators| == h.count &&
      forall i :: 0 <= i < h.count ==>
        Run(input).outcome.reading.discriminators[i] == if input[FrameStart(i) + 7] >= 128 then 128 else 0
  {
    var h := Run(input).outcome.reading.header;
    forall i | 0 <= i < h.count
      ensures Run(input).outcome.reading.discriminators[i] == if input[FrameStart(i) + 7] >= 128 then 128 else 0
    {
      assert FrameAt(input, i)[7] == input[FrameStart(i) + 7];
    }
  }

  /** A session completes exactly when the acknowledgement is right and the
      stream holds the header and all the frames the header announces. */
  lemma CompleteIff(input: seq<Byte>)
    ensures Run(input).outcome.Complete? <==>
      |input| >= FrameStart(0) && input[..AckLength] == AckReply &&
      |input| >= FrameStart(HeaderOf(input[AckLength..FrameStart(0)]).count)
  {
  }

  /** The host reads exactly the announced number of frames and never looks
      past them: bytes after the last frame change nothing. */
  lemma {:induction false} StopsAtCount(input: seq<Byte>, rest: seq<Byte>)
    requires Run(input).outcome.Complete?
    ensures Run(input + rest) == Run(input)
  {
    var s := input + rest;
    assert s[..AckLength] == input[..AckLength];
    assert s[AckLength..FrameStart(0)] == input[AckLength..FrameStart(0)];
    var count := HeaderOf(input[AckLength..FrameStart(0)]).count;
    forall i | 0 <= i < count
      ensures FrameAt(s, i) == FrameAt(input, i)
    {
    }
    assert Discriminators(s, count) == Discriminators(input, count);
  }

  /** Cutting a complete stream anywhere before its last byte makes the
      session abort on a short read: no partial result is ever produced. */
  lemma {:induction false} TruncationAborts(input: seq<Byte>, p: nat)
    requires Run(input).outcome.Complete?
    requires p < Run(input).consumed
    ensures Run(input[..p]).outcome.Aborted?
    ensures Run(input[..p]).outcome.failure != InvalidResponse
  {
    var t := input[..p];
    if p >= AckLength {
      assert t[..AckLength] == input[..AckLength];
      if p >= FrameStart(0) {
        assert t[AckLength..FrameStart(0)] == input[AckLength..FrameStart(0)];
      }
    }
  }

  /** The bytes of a list of frames sent back to back. */
  function Flatten(frames: seq<seq<Byte>>): (s: seq<Byte>)
  {
    if frames == [] then [] else frames[0] + Flatten(frames[1..])
  }

  predicate AllFrames(frames: seq<seq<Byte>>)
  {
    forall i :: 0 <= i < |frames| ==> |frames[i]| == FrameLength
  }

  lemma {:induction false} FlattenFrames(frames: seq<seq<Byte>>, i: nat)
    requires AllFrames(frames) && i < |frames|
    ensures |Flatten(frames)| == FrameLength * |frames|
    ensures Flatten(frames)[FrameLength * i..FrameLength * (i + 1)] == frames[i]
  {
    if i > 0 {
      FlattenFrames(frames[1..], i - 1);
    } else if |frames| > 1 {
      FlattenFrames(frames[1..], 0);
    } else {
      assert frames[1..] == [];
    }
  }

  /** What the instrument sends for a header and its record frames. */
  function Script(h: Header, frames: seq<seq<Byte>>): (s: seq<Byte>)
    requires ValidHeader(h)
  {
    AckReply + EncodeHeader(h) + Flatten(frames)
  }

  /** Every stream the instrument can send is decoded back: the header comes
      out as sent and the discriminators are those of the sent frames, in
      order, one per frame. */
  lemma ScriptedSession(h: Header, frames: seq<seq<Byte>>)
    requires ValidHeader(h) && AllFrames(frames) && |frames| == h.count
    ensures Run(Script(h, frames)) ==
      Trace(Complete(Reading(h, seq(|frames|, i requires 0 <= i < |frames| => Discriminator(frames[i])))),
            CountQuery + DataQuery, FrameStart(h.count))
  {
    var s := Script(h, frames);
    FlattenFrames(frames, 0);
    assert s[..AckLength] == AckReply;
    assert s[AckLength..FrameStart(0)] == EncodeHeader(h);
    HeaderRoundTrip(h);
    forall i | 0 <= i < h.count
      ensures FrameAt(s, i) == frames[i]
    {
      FlattenFrames(frames, i);
      assert FrameAt(s, i) == Flatten(frames)[FrameLength * i..FrameLength * (i + 1)];
    }
    assert |s| == FrameStart(h.count);
    assert HeaderOf(s[AckLength..FrameStart(0)]) == h;
    assert Discriminators(s, h.count) ==
      seq(|frames|, i requires 0 <= i < |frames| => Discriminator(frames[i]));
  }
}
