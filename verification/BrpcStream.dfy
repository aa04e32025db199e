/**
 * A brpc connection over time: bytes arrive in pieces, and after each arrival frames are decoded until
 * one is incomplete (the OnTraffic loops of pkg/net2/examples/server/server.go and client.go).
 */
module BrpcStream {
  import opened Go
  import opened BrpcFrame

  /** Messages delivered, bytes left over, and why decoding stopped. */
  datatype Progress = Progress(msgs: seq<Message>, rest: seq<byte>, stop: DecodeResult)

  /** Decode until something other than a message comes out. */
  function Drain(pr: Proto, all: bool, buf: seq<byte>): Progress
    decreases |buf|
  {
    DecodeProgress(pr, all, buf);
    var (r, rest) := DecodeFrame(pr, all, buf);
    if r.Decoded? then
      var d := Drain(pr, all, rest);
      d.(msgs := [r.msg] + d.msgs)
    else Progress([], rest, r)
  }

  /** The connection after the given arrivals.  Anything but an incomplete frame closes it. */
  function Feed(pr: Proto, all: bool, chunks: seq<seq<byte>>): Progress {
    if chunks == [] then Progress([], [], Incomplete)
    else
      var before := Feed(pr, all, chunks[..|chunks| - 1]);
      if !before.stop.Incomplete? then before
      else
        var d := Drain(pr, all, before.rest + chunks[|chunks| - 1]);
        d.(msgs := before.msgs + d.msgs)
  }

  function Concat(chunks: seq<seq<byte>>): seq<byte> {
    if chunks == [] then [] else Concat(chunks[..|chunks| - 1]) + chunks[|chunks| - 1]
  }

  // ---------------------------------------------------------------- decoding does not look ahead

  /**
   * The header leaves room for itself and the meta, and if zero-length reads return everything, it
   * asks for none.
   */
  predicate Plain(all: bool, buf: seq<byte>) {
    Accepted(buf) ==>
      && BodySize(buf) >= HEAD + MetaSize(buf)
      && (all ==> BodySize(buf) > HEAD + MetaSize(buf) && MetaSize(buf) > 0)
  }

  /** Every frame decoded from `buf` is plain. */
  predicate AllPlain(pr: Proto, all: bool, buf: seq<byte>)
    decreases |buf|
  {
    DecodeProgress(pr, all, buf);
    && Plain(all, buf)
    && (DecodeFrame(pr, all, buf).0.Decoded? ==> AllPlain(pr, all, DecodeFrame(pr, all, buf).1))
  }

  lemma HeaderOfLonger(buf: seq<byte>, x: seq<byte>)
    requires |buf| >= HEAD
    ensures (buf + x)[..4] == buf[..4] && BodySize(buf + x) == BodySize(buf) && MetaSize(buf + x) == MetaSize(buf)
    ensures (buf + x)[HEAD..] == buf[HEAD..] + x
  {
    assert (buf + x)[..4] == buf[..4];
    assert (buf + x)[4..8] == buf[4..8];
    assert (buf + x)[8..12] == buf[8..12];
    assert (buf + x)[HEAD..] == buf[HEAD..] + x;
  }

  lemma NextBytesOfLonger(all: bool, buf: seq<byte>, x: seq<byte>, n: int)
    requires 0 <= n <= |buf| && (all ==> n > 0)
    ensures NextBytes(all, buf + x, n) == (NextBytes(all, buf, n).0, NextBytes(all, buf, n).1 + x)
  {
    assert (buf + x)[..n] == buf[..n] && (buf + x)[n..] == buf[n..] + x;
  }

  /** Once Decode gives an answer, bytes arriving later do not change it. */
  lemma DecodeStable(pr: Proto, all: bool, buf: seq<byte>, x: seq<byte>)
    requires Plain(all, buf) && !DecodeFrame(pr, all, buf).0.Incomplete?
    ensures DecodeFrame(pr, all, buf + x) == (DecodeFrame(pr, all, buf).0, DecodeFrame(pr, all, buf).1 + x)
  {
    hide BodySize;
    hide MetaSize;
    hide NextBytes;
    hide Split;
    HeaderOfLonger(buf, x);
    if Accepted(buf) {
      var n := BodySize(buf) - HEAD - MetaSize(buf);
      NextBytesOfLonger(all, buf[HEAD..], x, n);
      NextBytesOfLonger(all, NextBytes(all, buf[HEAD..], n).1, x, MetaSize(buf));
    }
  }

  lemma PlainPrefix(all: bool, buf: seq<byte>, x: seq<byte>)
    requires Plain(all, buf + x)
    ensures Plain(all, buf)
  {
    if |buf| >= HEAD { HeaderOfLonger(buf, x); }
  }

  // ---------------------------------------------------------------- answers that do not depend on arrival

  /** Decode answers the same on `y` as on `buf`, and takes the same bytes. */
  predicate AnswersAlike(pr: Proto, all: bool, y: seq<byte>, buf: seq<byte>)
    requires y <= buf
  {
    var (r, rest) := DecodeFrame(pr, all, y);
    var (r', rest') := DecodeFrame(pr, all, buf);
    r == r' && (r.Decoded? ==> rest + buf[|y|..] == rest')
  }

  /** As soon as Decode has an answer, it is the one it gives with all of `buf` there. */
  ghost predicate Steady(pr: Proto, all: bool, buf: seq<byte>) {
    forall y | y <= buf && !DecodeFrame(pr, all, y).0.Incomplete? :: AnswersAlike(pr, all, y, buf)
  }

  ghost predicate AllSteady(pr: Proto, all: bool, buf: seq<byte>)
    decreases |buf|
  {
    DecodeProgress(pr, all, buf);
    && Steady(pr, all, buf)
    && (DecodeFrame(pr, all, buf).0.Decoded? ==> AllSteady(pr, all, DecodeFrame(pr, all, buf).1))
  }

  lemma PlainIsSteady(pr: Proto, all: bool, buf: seq<byte>)
    requires Plain(all, buf)
    ensures Steady(pr, all, buf)
  {
    hide DecodeFrame;
    hide Plain;
    forall y | y <= buf && !DecodeFrame(pr, all, y).0.Incomplete?
      ensures AnswersAlike(pr, all, y, buf)
    {
      assert y + buf[|y|..] == buf;
      PlainPrefix(all, y, buf[|y|..]);
      DecodeStable(pr, all, y, buf[|y|..]);
    }
  }

  lemma {:induction false} AllPlainIsSteady(pr: Proto, all: bool, buf: seq<byte>)
    requires AllPlain(pr, all, buf)
    ensures AllSteady(pr, all, buf)
    decreases |buf|
  {
    hide DecodeFrame;
    hide Plain;
    hide Steady;
    DecodeProgress(pr, all, buf);
    PlainIsSteady(pr, all, buf);
    if DecodeFrame(pr, all, buf).0.Decoded? { AllPlainIsSteady(pr, all, DecodeFrame(pr, all, buf).1); }
  }

  lemma NotIncomplete(pr: Proto, all: bool, buf: seq<byte>)
    ensures DecodeFrame(pr, all, buf).0.Incomplete? <==>
              |buf| < HEAD || (Accepted(buf) && |buf| < BodySize(buf))
  {
    hide BodySize;
    hide MetaSize;
    hide NextBytes;
  }

  /** A frame that is complete stays complete. */
  lemma CompleteStays(pr: Proto, all: bool, buf: seq<byte>, x: seq<byte>)
    requires !DecodeFrame(pr, all, buf).0.Incomplete?
    ensures !DecodeFrame(pr, all, buf + x).0.Incomplete?
  {
    hide BodySize;
    hide MetaSize;
    hide NextBytes;
    hide Split;
    NotIncomplete(pr, all, buf);
    HeaderOfLonger(buf, x);
    NotIncomplete(pr, all, buf + x);
  }

  lemma SteadyPrefix(pr: Proto, all: bool, buf: seq<byte>, x: seq<byte>)
    requires Steady(pr, all, buf + x)
    ensures Steady(pr, all, buf)
    ensures !DecodeFrame(pr, all, buf).0.Incomplete? ==> AnswersAlike(pr, all, buf, buf + x)
  {
    hide DecodeFrame;
    assert (buf + x)[|buf|..] == x;
    forall y | y <= buf && !DecodeFrame(pr, all, y).0.Incomplete?
      ensures AnswersAlike(pr, all, y, buf)
    {
      CompleteStays(pr, all, y, buf[|y|..]);
      assert y + buf[|y|..] == buf && y <= buf + x;
      assert AnswersAlike(pr, all, y, buf + x) && AnswersAlike(pr, all, buf, buf + x);
      var rest, rest' := DecodeFrame(pr, all, y).1, DecodeFrame(pr, all, buf).1;
      assert (buf + x)[|y|..] == buf[|y|..] + x;
      if DecodeFrame(pr, all, y).0.Decoded? {
        assert (rest + buf[|y|..]) + x == rest + (buf[|y|..] + x) == rest' + x;
        assert rest + buf[|y|..] == ((rest + buf[|y|..]) + x)[..|rest + buf[|y|..]|];
        assert rest' == (rest' + x)[..|rest'|];
      }
    }
  }

  /** Draining a longer buffer is draining its beginning, and then what that leaves with the rest. */
  lemma {:induction false} DrainAppend(pr: Proto, all: bool, buf: seq<byte>, x: seq<byte>)
    requires AllSteady(pr, all, buf + x)
    ensures AllSteady(pr, all, buf)
    ensures var d := Drain(pr, all, buf);
            if d.stop.Incomplete? then
              && AllSteady(pr, all, d.rest + x)
              && var e := Drain(pr, all, d.rest + x);
              Drain(pr, all, buf + x) == e.(msgs := d.msgs + e.msgs)
            else
              && Drain(pr, all, buf + x).msgs == d.msgs
              && Drain(pr, all, buf + x).stop == d.stop
    decreases |buf|
  {
    hide DecodeFrame;
    hide Steady;
    SteadyPrefix(pr, all, buf, x);
    DecodeProgress(pr, all, buf);
    var (r, rest) := DecodeFrame(pr, all, buf);
    if r.Incomplete? {
      var e := Drain(pr, all, buf + x);
      assert [] + e.msgs == e.msgs;
    } else {
      assert (buf + x)[|buf|..] == x;
      if r.Decoded? {
        DrainAppend(pr, all, rest, x);
        var d, e := Drain(pr, all, rest), Drain(pr, all, Drain(pr, all, rest).rest + x);
        assert [r.msg] + (d.msgs + e.msgs) == [r.msg] + d.msgs + e.msgs;
      }
    }
  }

  /** The same messages, the same reason to stop, and on an open connection the same rest. */
  predicate SameOutcome(fed: Progress, drained: Progress) {
    fed.msgs == drained.msgs && fed.stop == drained.stop && (fed.stop.Incomplete? ==> fed.rest == drained.rest)
  }

  lemma DrainNothing(pr: Proto, all: bool)
    ensures Drain(pr, all, []) == Progress([], [], Incomplete) && AllPlain(pr, all, [])
  {
  }

  lemma {:induction false} SteadyChunks(pr: Proto, all: bool, chunks: seq<seq<byte>>)
    requires AllSteady(pr, all, Concat(chunks))
    ensures SameOutcome(Feed(pr, all, chunks), Drain(pr, all, Concat(chunks)))
  {
    if chunks == [] {
      DrainNothing(pr, all);
    } else {
      var init, last := chunks[..|chunks| - 1], chunks[|chunks| - 1];
      DrainAppend(pr, all, Concat(init), last);
      SteadyChunks(pr, all, init);
    }
  }

  // ---------------------------------------------------------------- streams of encoded messages

  predicate AllFramable(pr: Proto, all: bool, ms: seq<Message>) {
    forall m | m in ms :: Framable(pr, all, m)
  }

  function StreamOf(pr: Proto, ms: seq<Message>): seq<byte>
    requires forall m | m in ms :: MetaData(pr, m).Some?
  {
    if ms == [] then [] else Encoded(pr, ms[0]) + StreamOf(pr, ms[1..])
  }

  function StampedAll(ms: seq<Message>): (r: seq<Message>)
    ensures |r| == |ms|
  {
    seq(|ms|, i requires 0 <= i < |ms| => Stamped(ms[i]))
  }

  lemma EncodedIsPlain(pr: Proto, all: bool, m: Message, x: seq<byte>)
    requires Framable(pr, all, m)
    ensures Plain(all, Encoded(pr, m) + x)
  {
    hide Encoded;
    hide BodySize;
    hide MetaSize;
    HeaderOfEncoded(pr, m, x);
    LowWord(TotalSize(pr, m));
    LowWord(|MetaData(pr, m).value|);
  }

  /** Part of a frame is recognised as incomplete. */
  lemma PartialFrame(pr: Proto, all: bool, m: Message, part: seq<byte>)
    requires Framable(pr, all, m) && part < Encoded(pr, m)
    ensures DecodeFrame(pr, all, part) == (Incomplete, part)
    ensures Plain(all, part)
  {
    hide Encoded;
    hide BodySize;
    hide MetaSize;
    var x := Encoded(pr, m)[|part|..];
    assert part + x == Encoded(pr, m) == Encoded(pr, m) + [];
    EncodedIsPlain(pr, all, m, []);
    PlainPrefix(all, part, x);
    if |part| >= HEAD {
      HeaderOfLonger(part, x);
      HeaderOfEncoded(pr, m, []);
      LowWord(TotalSize(pr, m));
      LowWord(|MetaData(pr, m).value|);
    }
  }

  /** The frames of `ms`, then anything else: the messages come out, then whatever the rest gives. */
  lemma {:induction false} DrainStream(pr: Proto, all: bool, ms: seq<Message>, x: seq<byte>)
    requires RoundTrips(pr) && AllFramable(pr, all, ms)
    ensures var d := Drain(pr, all, x);
            Drain(pr, all, StreamOf(pr, ms) + x) == d.(msgs := StampedAll(ms) + d.msgs)
    ensures AllPlain(pr, all, x) ==> AllPlain(pr, all, StreamOf(pr, ms) + x)
    decreases |ms|
  {
    hide DecodeFrame;
    hide Plain;
    hide Encoded;
    if ms == [] {
      assert StreamOf(pr, ms) + x == x;
      assert StampedAll(ms) + Drain(pr, all, x).msgs == Drain(pr, all, x).msgs;
    } else {
      assert Framable(pr, all, ms[0]) && AllFramable(pr, all, ms[1..]);
      var tail := StreamOf(pr, ms[1..]) + x;
      assert StreamOf(pr, ms) + x == Encoded(pr, ms[0]) + tail;
      FrameReturns(pr, all, ms[0], tail);
      EncodedIsPlain(pr, all, ms[0], tail);
      DrainStream(pr, all, ms[1..], x);
      var d := Drain(pr, all, x);
      assert [Stamped(ms[0])] + (StampedAll(ms[1..]) + d.msgs) == StampedAll(ms) + d.msgs;
    }
  }

  /**
   * However the concatenated encodings of a list of framable messages are cut into arrivals, exactly
   * those messages are delivered, in order, and the buffer ends up empty.
   */
  lemma StreamDelivered(pr: Proto, all: bool, ms: seq<Message>, chunks: seq<seq<byte>>)
    requires RoundTrips(pr) && AllFramable(pr, all, ms)
    requires Concat(chunks) == StreamOf(pr, ms)
    ensures Feed(pr, all, chunks) == Progress(StampedAll(ms), [], Incomplete)
  {
    DrainNothing(pr, all);
    DrainStream(pr, all, ms, []);
    assert StreamOf(pr, ms) + [] == StreamOf(pr, ms);
    assert StampedAll(ms) + [] == StampedAll(ms);
    AllPlainIsSteady(pr, all, Concat(chunks));
    SteadyChunks(pr, all, chunks);
  }

  lemma {:induction false} StreamCut(pr: Proto, ms: seq<Message>, p: nat) returns (j: nat)
    requires forall m | m in ms :: MetaData(pr, m).Some?
    requires p <= |StreamOf(pr, ms)|
    ensures j <= |ms|
    ensures StreamOf(pr, ms[..j]) <= StreamOf(pr, ms)[..p]
    ensures var part := StreamOf(pr, ms)[..p][|StreamOf(pr, ms[..j])|..];
            if j < |ms| then part < Encoded(pr, ms[j]) else part == []
    decreases |ms|
  {
    hide Encoded;
    if ms == [] {
      j := 0;
    } else {
      var first, rest := Encoded(pr, ms[0]), StreamOf(pr, ms[1..]);
      if p < |first| {
        j := 0;
        assert StreamOf(pr, ms)[..p] == first[..p];
      } else {
        var i := StreamCut(pr, ms[1..], p - |first|);
        j := i + 1;
        assert ms[..j][1..] == ms[1..][..i];
        assert StreamOf(pr, ms)[..p] == first + rest[..p - |first|];
        var n := |StreamOf(pr, ms[1..][..i])|;
        assert StreamOf(pr, ms)[..p][|first| + n..] == rest[..p - |first|][n..];
      }
    }
  }

  /** While the stream is still arriving, every message whose last byte is in has been delivered, and no other. */
  lemma StreamSoFar(pr: Proto, all: bool, ms: seq<Message>, chunks: seq<seq<byte>>) returns (j: nat)
    requires RoundTrips(pr) && AllFramable(pr, all, ms)
    requires Concat(chunks) <= StreamOf(pr, ms)
    ensures j <= |ms|
    ensures var fed := Feed(pr, all, chunks);
            && fed.msgs == StampedAll(ms[..j]) && fed.stop == Incomplete
            && StreamOf(pr, ms[..j]) + fed.rest == Concat(chunks)
            && (j < |ms| ==> fed.rest < Encoded(pr, ms[j]))
  {
    hide Encoded;
    var got := Concat(chunks);
    assert got == StreamOf(pr, ms)[..|got|];
    j := StreamCut(pr, ms, |got|);
    var part := got[|StreamOf(pr, ms[..j])|..];
    assert got == StreamOf(pr, ms[..j]) + part;
    if j < |ms| {
      PartialFrame(pr, all, ms[j], part);
    } else {
      DrainNothing(pr, all);
    }
    assert Drain(pr, all, part) == Progress([], part, Incomplete);
    assert StampedAll(ms[..j]) + [] == StampedAll(ms[..j]);
    DrainStream(pr, all, ms[..j], part);
    AllPlainIsSteady(pr, all, Concat(chunks));
    SteadyChunks(pr, all, chunks);
  }
}
