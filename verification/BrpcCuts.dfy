/**
 * Exactly which byte streams are decoded the same however they are cut into arrivals.  Decode trusts the
 * sizes in a header: a total that leaves no room for the meta makes it read past its frame, and a read of
 * zero bytes may return everything that has arrived.
 */
module BrpcCuts {
  import opened Go
  import opened BrpcFrame
  import opened BrpcStream

  /** No bytes parse to a meta without attachment size, the default of protocol buffers. */
  predicate EmptyIsDefault(pr: Proto) {
    pr.unmarshal([]).attachmentSize == 0
  }

  /** The total leaves room for the header and the meta. */
  predicate Roomy(buf: seq<byte>)
    requires |buf| >= HEAD
  {
    BodySize(buf) >= HEAD + MetaSize(buf)
  }

  /**
   * The frame at the front of `buf` does not depend on what else has arrived.  If reads of zero bytes
   * return nothing, a frame without room must not decode.  If they return everything, a frame whose
   * body or meta is empty must be the last thing in the stream; one without room always crashes.
   */
  predicate Settled(pr: Proto, all: bool, buf: seq<byte>) {
    Accepted(buf) && BodySize(buf) <= |buf| ==>
      if !all then DecodeFrame(pr, all, buf).0.Decoded? ==> Roomy(buf)
      else !Roomy(buf) || (BodySize(buf) > HEAD + MetaSize(buf) && MetaSize(buf) > 0) || |buf| == BodySize(buf)
  }

  /** Every frame decoded from `buf` is settled. */
  predicate AllSettled(pr: Proto, all: bool, buf: seq<byte>)
    decreases |buf|
  {
    DecodeProgress(pr, all, buf);
    && Settled(pr, all, buf)
    && (DecodeFrame(pr, all, buf).0.Decoded? ==> AllSettled(pr, all, DecodeFrame(pr, all, buf).1))
  }

  // ---------------------------------------------------------------- what Decode makes of odd frames

  /** A complete frame without room: its meta is read whole, or not at all. */
  lemma TightFrame(pr: Proto, all: bool, buf: seq<byte>)
    requires EmptyIsDefault(pr) && Accepted(buf) && BodySize(buf) <= |buf| && !Roomy(buf)
    ensures all || |buf| < HEAD + MetaSize(buf) ==>
              DecodeFrame(pr, all, buf) == (Crashed, if all then [] else buf[HEAD..])
    ensures !all && |buf| >= HEAD + MetaSize(buf) ==>
              DecodeFrame(pr, all, buf) == (Split(pr.unmarshal(buf[HEAD..][..MetaSize(buf)]), [],
                                                  BodySize(buf) - HEAD - MetaSize(buf)),
                                            buf[HEAD..][MetaSize(buf)..])
  {
    hide BodySize;
    hide MetaSize;
    var n := BodySize(buf) - HEAD - MetaSize(buf);
    assert NextBytes(all, buf[HEAD..], n) == if all then (buf[HEAD..], []) else ([], buf[HEAD..]);
    var rest := NextBytes(all, buf[HEAD..], n).1;
    var metaData := NextBytes(all, rest, MetaSize(buf));
    assert DecodeFrame(pr, all, buf) ==
           (Split(pr.unmarshal(metaData.0), NextBytes(all, buf[HEAD..], n).0, n), metaData.1);
    if all || |buf| < HEAD + MetaSize(buf) { assert metaData.0 == []; }
  }

  /** If reads of zero bytes return everything: a frame without body takes all there is for its attachment. */
  lemma BodilessFrame(pr: Proto, buf: seq<byte>)
    requires EmptyIsDefault(pr) && Accepted(buf) && BodySize(buf) <= |buf| && BodySize(buf) == HEAD + MetaSize(buf)
    ensures DecodeFrame(pr, true, buf) == (Decoded(Message(pr.unmarshal([]), [], buf[HEAD..])), [])
  {
    hide BodySize;
    hide MetaSize;
    assert NextBytes(true, buf[HEAD..], 0) == (buf[HEAD..], []);
    assert NextBytes(true, [], MetaSize(buf)) == ([], []);
    assert buf[HEAD..][..0] == [] && buf[HEAD..][0..] == buf[HEAD..];
  }

  /** ... and a frame without meta takes all there is for its meta. */
  lemma MetalessFrame(pr: Proto, buf: seq<byte>)
    requires Accepted(buf) && BodySize(buf) <= |buf| && BodySize(buf) > HEAD && MetaSize(buf) == 0
    ensures DecodeFrame(pr, true, buf) ==
              (Split(pr.unmarshal(buf[BodySize(buf)..]), buf[HEAD..BodySize(buf)], BodySize(buf) - HEAD), [])
  {
    hide BodySize;
    hide MetaSize;
    var n := BodySize(buf) - HEAD;
    assert buf[HEAD..][..n] == buf[HEAD..BodySize(buf)] && buf[HEAD..][n..] == buf[BodySize(buf)..];
    assert NextBytes(true, buf[HEAD..], n) == (buf[HEAD..BodySize(buf)], buf[BodySize(buf)..]);
    assert NextBytes(true, buf[BodySize(buf)..], 0) == (buf[BodySize(buf)..], []);
  }

  // ---------------------------------------------------------------- settled streams

  lemma SettledAnswer(pr: Proto, all: bool, y: seq<byte>, x: seq<byte>, buf: seq<byte>)
    requires EmptyIsDefault(pr) && Settled(pr, all, buf) && y + x == buf
    requires !DecodeFrame(pr, all, y).0.Incomplete?
    ensures AnswersAlike(pr, all, y, buf)
  {
    NotIncomplete(pr, all, y);
    HeaderOfLonger(y, x);
    assert x == buf[|y|..];
    hide BodySize;
    hide MetaSize;
    hide NextBytes;
    if Plain(all, y) {
      DecodeStable(pr, all, y, x);
    } else if Roomy(y) {
      assert x == [] && y == buf;
    } else {
      hide DecodeFrame;
      TightFrame(pr, all, y);
      TightFrame(pr, all, buf);
      if !all && |y| >= HEAD + MetaSize(y) { assert buf[HEAD..][..MetaSize(y)] == y[HEAD..][..MetaSize(y)]; }
    }
  }

  lemma SettledIsSteady(pr: Proto, all: bool, buf: seq<byte>)
    requires EmptyIsDefault(pr) && Settled(pr, all, buf)
    ensures Steady(pr, all, buf)
  {
    forall y | y <= buf && !DecodeFrame(pr, all, y).0.Incomplete?
      ensures AnswersAlike(pr, all, y, buf)
    {
      SettledAnswer(pr, all, y, buf[|y|..], buf);
    }
  }

  lemma {:induction false} AllSettledIsSteady(pr: Proto, all: bool, buf: seq<byte>)
    requires EmptyIsDefault(pr) && AllSettled(pr, all, buf)
    ensures AllSteady(pr, all, buf)
    decreases |buf|
  {
    hide DecodeFrame;
    hide Settled;
    hide Steady;
    DecodeProgress(pr, all, buf);
    SettledIsSteady(pr, all, buf);
    if DecodeFrame(pr, all, buf).0.Decoded? { AllSettledIsSteady(pr, all, DecodeFrame(pr, all, buf).1); }
  }

  // ---------------------------------------------------------------- unsettled streams

  /** What becomes of a stream that arrives in two pieces. */
  function TwoPieces(pr: Proto, all: bool, first: seq<byte>, second: seq<byte>): Progress {
    var d := Drain(pr, all, first);
    if !d.stop.Incomplete? then d
    else
      var e := Drain(pr, all, d.rest + second);
      e.(msgs := d.msgs + e.msgs)
  }

  lemma FeedTwo(pr: Proto, all: bool, first: seq<byte>, second: seq<byte>)
    ensures Feed(pr, all, [first, second]) == TwoPieces(pr, all, first, second)
    ensures Concat([first, second]) == first + second
  {
    hide Drain;
    var chunks, d := [first, second], Drain(pr, all, first);
    assert chunks[..1] == [first] && [] + first == first && [] + d.msgs == d.msgs;
    assert Feed(pr, all, chunks[..1]) == d;
    assert Concat(chunks[..1]) == first;
  }

  lemma TwoPiecesAfterOne(pr: Proto, all: bool, first: seq<byte>, second: seq<byte>)
    requires DecodeFrame(pr, all, first).0.Decoded?
    ensures var (r, rest) := DecodeFrame(pr, all, first);
            var t := TwoPieces(pr, all, rest, second);
            TwoPieces(pr, all, first, second) == t.(msgs := [r.msg] + t.msgs)
  {
    hide DecodeFrame;
    var (r, rest) := DecodeFrame(pr, all, first);
    var d := Drain(pr, all, rest);
    var e := Drain(pr, all, d.rest + second);
    assert [r.msg] + d.msgs + e.msgs == [r.msg] + (d.msgs + e.msgs);
  }

  lemma DrainStep(pr: Proto, all: bool, buf: seq<byte>)
    requires DecodeFrame(pr, all, buf).0.Decoded?
    ensures var (r, rest) := DecodeFrame(pr, all, buf);
            var d := Drain(pr, all, rest);
            Drain(pr, all, buf) == d.(msgs := [r.msg] + d.msgs)
  {
    hide DecodeFrame;
  }

  lemma TightCut(pr: Proto, all: bool, y: seq<byte>, x: seq<byte>)
    requires EmptyIsDefault(pr) && Accepted(y) && BodySize(y) <= |y| < HEAD + MetaSize(y) && !Roomy(y)
    requires DecodeFrame(pr, all, y + x).0.Decoded?
    ensures !SameOutcome(TwoPieces(pr, all, y, x), Drain(pr, all, y + x))
  {
    TightFrame(pr, all, y);
    hide DecodeFrame;
    DrainStep(pr, all, y + x);
    assert Drain(pr, all, y) == Progress([], DecodeFrame(pr, all, y).1, Crashed);
  }

  lemma BodilessCut(pr: Proto, y: seq<byte>, x: seq<byte>)
    requires EmptyIsDefault(pr) && Accepted(y) && |y| == BodySize(y) == HEAD + MetaSize(y) && x != []
    ensures !SameOutcome(TwoPieces(pr, true, y, x), Drain(pr, true, y + x))
  {
    HeaderOfLonger(y, x);
    BodilessFrame(pr, y);
    BodilessFrame(pr, y + x);
    TwoPiecesAfterOne(pr, true, y, x);
    hide DecodeFrame;
    assert |y[HEAD..]| != |(y + x)[HEAD..]|;
    assert TwoPieces(pr, true, y, x).msgs[0] != Drain(pr, true, y + x).msgs[0];
  }

  lemma DrainKeepsRest(pr: Proto, all: bool, x: seq<byte>)
    requires Drain(pr, all, x).msgs == [] && Drain(pr, all, x).stop.Incomplete?
    ensures Drain(pr, all, x).rest == x
  {
    hide DecodeFrame;
    DecodeProgress(pr, all, x);
  }

  lemma MetalessCut(pr: Proto, y: seq<byte>, x: seq<byte>)
    requires EmptyIsDefault(pr) && Accepted(y) && |y| == BodySize(y) > HEAD && MetaSize(y) == 0 && x != []
    ensures !SameOutcome(TwoPieces(pr, true, y, x), Drain(pr, true, y + x))
  {
    HeaderOfLonger(y, x);
    MetalessFrame(pr, y);
    MetalessFrame(pr, y + x);
    TwoPiecesAfterOne(pr, true, y, x);
    DrainNothing(pr, true);
    hide DecodeFrame;
    hide BodySize;
    hide MetaSize;
    assert y[|y|..] == [] && [] + x == x;
    var whole, d := Drain(pr, true, y + x), Drain(pr, true, x);
    assert |TwoPieces(pr, true, y, x).msgs| == 1 + |d.msgs|;
    assert |whole.msgs| <= 1 && (whole.stop.Incomplete? ==> whole.rest == []);
    if d.msgs == [] && d.stop.Incomplete? { DrainKeepsRest(pr, true, x); }
  }

  lemma HeaderOfPart(buf: seq<byte>, p: nat)
    requires HEAD <= p <= |buf|
    ensures buf[..p][..4] == buf[..4] && BodySize(buf[..p]) == BodySize(buf) && MetaSize(buf[..p]) == MetaSize(buf)
  {
    assert buf[..p][4..8] == buf[4..8] && buf[..p][8..12] == buf[8..12];
  }

  /** Right behind the total that an unsettled frame states. */
  lemma BehindTotal(pr: Proto, all: bool, buf: seq<byte>) returns (y: seq<byte>, x: seq<byte>)
    requires EmptyIsDefault(pr) && !Settled(pr, all, buf)
    ensures y + x == buf && Accepted(y)
    ensures |y| >= HEAD
    ensures !Roomy(y) ==> !all && DecodeFrame(pr, all, buf).0.Decoded?
                          && BodySize(y) <= |y| < HEAD + MetaSize(y)
    ensures Roomy(y) ==> all && |y| == BodySize(y) && x != []
                         && (BodySize(y) == HEAD + MetaSize(y) || (BodySize(y) > HEAD && MetaSize(y) == 0))
  {
    hide BodySize;
    hide MetaSize;
    hide DecodeFrame;
    var p := if BodySize(buf) < HEAD then HEAD else BodySize(buf);
    HeaderOfPart(buf, p);
    if !Roomy(buf) && MetaSize(buf) == 0 {
      TightFrame(pr, all, buf);
      assert buf[HEAD..][..0] == [];
    }
    y, x := buf[..p], buf[p..];
    assert |x| == |buf| - p;
    assert y + x == buf;
  }

  lemma UnsettledCut(pr: Proto, all: bool, buf: seq<byte>) returns (p: nat)
    requires EmptyIsDefault(pr) && !Settled(pr, all, buf)
    ensures p <= |buf|
    ensures !SameOutcome(TwoPieces(pr, all, buf[..p], buf[p..]), Drain(pr, all, buf))
  {
    hide *;
    var y, x := BehindTotal(pr, all, buf);
    p := |y|;
    assert buf[..p] == y && buf[p..] == x;
    if !Roomy(y) {
      TightCut(pr, all, y, x);
    } else if BodySize(y) == HEAD + MetaSize(y) {
      BodilessCut(pr, y, x);
    } else {
      MetalessCut(pr, y, x);
    }
  }

  /** A settled frame takes exactly the bytes of its total, unless a read of zero bytes took the last of them. */
  lemma SettledTakes(pr: Proto, all: bool, buf: seq<byte>)
    requires EmptyIsDefault(pr) && Settled(pr, all, buf) && DecodeFrame(pr, all, buf).0.Decoded?
    ensures HEAD <= BodySize(buf) <= |buf| && DecodeFrame(pr, all, buf).1 == buf[BodySize(buf)..]
  {
    NotIncomplete(pr, all, buf);
    hide BodySize;
    hide MetaSize;
    if !Roomy(buf) { TightFrame(pr, all, buf); }
    var n := BodySize(buf) - HEAD - MetaSize(buf);
    if |buf| == BodySize(buf) && all && n == 0 { BodilessFrame(pr, buf); }
    if |buf| == BodySize(buf) && all && n > 0 && MetaSize(buf) == 0 { MetalessFrame(pr, buf); }
    assert n > 0 && MetaSize(buf) > 0 ==> buf[HEAD..][n..][MetaSize(buf)..] == buf[BodySize(buf)..];
    assert n >= 0 && !all ==> buf[HEAD..][n..][MetaSize(buf)..] == buf[BodySize(buf)..];
  }

  /** The part of a stream up to somewhere behind its first frame starts with the same frame. */
  lemma FrameOfPrefix(pr: Proto, all: bool, buf: seq<byte>, q: nat)
    requires EmptyIsDefault(pr) && Settled(pr, all, buf) && DecodeFrame(pr, all, buf).0.Decoded?
    requires HEAD <= BodySize(buf) <= BodySize(buf) + q <= |buf|
    requires DecodeFrame(pr, all, buf).1 == buf[BodySize(buf)..]
    ensures var n := BodySize(buf);
            DecodeFrame(pr, all, buf[..n + q]) == (DecodeFrame(pr, all, buf).0, buf[n..][..q])
  {
    var n := BodySize(buf);
    var y, x := buf[..n + q], buf[n + q..];
    assert y + x == buf && buf[n..][q..] == x;
    NotIncomplete(pr, all, buf);
    HeaderOfLonger(y, x);
    NotIncomplete(pr, all, y);
    hide BodySize;
    hide DecodeFrame;
    SettledAnswer(pr, all, y, x, buf);
    var left := DecodeFrame(pr, all, y).1;
    assert left + x == buf[n..] == buf[n..][..q] + x;
    assert left == (left + x)[..|left + x| - |x|];
  }

  lemma PrependOutcome(m: Message, fed: Progress, drained: Progress)
    ensures SameOutcome(fed.(msgs := [m] + fed.msgs), drained.(msgs := [m] + drained.msgs)) <==>
              SameOutcome(fed, drained)
  {
    assert ([m] + fed.msgs)[1..] == fed.msgs && ([m] + drained.msgs)[1..] == drained.msgs;
  }

  lemma CutBehindFrame(pr: Proto, all: bool, buf: seq<byte>, n: nat, q: nat)
    requires EmptyIsDefault(pr) && Settled(pr, all, buf) && DecodeFrame(pr, all, buf).0.Decoded?
    requires HEAD <= n <= |buf| && n == BodySize(buf) && n + q <= |buf| && DecodeFrame(pr, all, buf).1 == buf[n..]
    requires !SameOutcome(TwoPieces(pr, all, buf[n..][..q], buf[n..][q..]), Drain(pr, all, buf[n..]))
    ensures !SameOutcome(TwoPieces(pr, all, buf[..n + q], buf[n + q..]), Drain(pr, all, buf))
  {
    hide *;
    FrameOfPrefix(pr, all, buf, q);
    assert buf[n..][q..] == buf[n + q..];
    TwoPiecesAfterOne(pr, all, buf[..n + q], buf[n + q..]);
    DrainStep(pr, all, buf);
    PrependOutcome(DecodeFrame(pr, all, buf).0.msg, TwoPieces(pr, all, buf[n..][..q], buf[n..][q..]),
                   Drain(pr, all, buf[n..]));
  }

  lemma LaterUnsettled(pr: Proto, all: bool, buf: seq<byte>) returns (n: nat)
    requires EmptyIsDefault(pr) && Settled(pr, all, buf) && !AllSettled(pr, all, buf)
    ensures DecodeFrame(pr, all, buf).0.Decoded?
    ensures 0 < HEAD <= n <= |buf| && n == BodySize(buf) && DecodeFrame(pr, all, buf).1 == buf[n..]
    ensures !AllSettled(pr, all, buf[n..])
  {
    hide DecodeFrame;
    hide Settled;
    hide BodySize;
    SettledTakes(pr, all, buf);
    n := BodySize(buf);
  }

  /** A stream that is not settled throughout can be cut in two so that it comes out differently. */
  lemma {:induction false} SomeCutMatters(pr: Proto, all: bool, buf: seq<byte>) returns (p: nat)
    requires EmptyIsDefault(pr) && !AllSettled(pr, all, buf)
    ensures p <= |buf|
    ensures !SameOutcome(TwoPieces(pr, all, buf[..p], buf[p..]), Drain(pr, all, buf))
    decreases |buf|
  {
    hide *;
    if !Settled(pr, all, buf) {
      p := UnsettledCut(pr, all, buf);
    } else {
      var n := LaterUnsettled(pr, all, buf);
      var q := SomeCutMatters(pr, all, buf[n..]);
      p := n + q;
      CutBehindFrame(pr, all, buf, n, q);
    }
  }

  // ---------------------------------------------------------------- the exact condition

  /**
   * All ways of cutting a byte stream into arrivals deliver the same messages, stop for the same reason
   * and leave an open connection with the same rest, if and only if every frame in it is settled.
   */
  lemma ChunksDoNotMatter(pr: Proto, all: bool, b: seq<byte>)
    requires EmptyIsDefault(pr)
    ensures AllSettled(pr, all, b) <==>
              forall chunks | Concat(chunks) == b :: SameOutcome(Feed(pr, all, chunks), Drain(pr, all, b))
  {
    hide AllSettled;
    hide Drain;
    hide Feed;
    if AllSettled(pr, all, b) {
      AllSettledIsSteady(pr, all, b);
      forall chunks | Concat(chunks) == b
        ensures SameOutcome(Feed(pr, all, chunks), Drain(pr, all, b))
      {
        SteadyChunks(pr, all, chunks);
      }
    } else {
      var p := SomeCutMatters(pr, all, b);
      FeedTwo(pr, all, b[..p], b[p..]);
      assert b[..p] + b[p..] == b;
    }
  }

  // ---------------------------------------------------------------- inputs on which it fails

  /** A header with the smallest total that Decode accepts for a meta of `n` bytes. */
  lemma ShortTotal(n: nat, x: seq<byte>)
    requires n <= HEAD
    ensures var buf := Header(HEAD, n) + x;
            Accepted(buf) && BodySize(buf) == HEAD && MetaSize(buf) == n
  {
    var buf := Header(HEAD, n) + x;
    assert buf[4..8] == PutUint32(HEAD);
    assert buf[8..12] == PutUint32(n);
    Uint32OfPut(HEAD);
    Uint32OfPut(n);
  }

  /**
   * Reads of zero bytes return nothing: behind such a header, a meta that states the right negative
   * attachment size is a message in one piece, and a crash in two.
   */
  lemma CutMatters(pr: Proto, metaData: seq<byte>)
    requires EmptyIsDefault(pr) && 0 < |metaData| <= HEAD
    requires pr.unmarshal(metaData).attachmentSize == -|metaData|
    ensures var header := Header(HEAD, |metaData|);
            && Drain(pr, false, header + metaData).msgs == [Message(pr.unmarshal(metaData), [], [])]
            && Feed(pr, false, [header, metaData]) == Progress([], [], Crashed)
  {
    var header := Header(HEAD, |metaData|);
    ShortTotal(|metaData|, metaData);
    ShortTotal(|metaData|, []);
    assert header + [] == header;
    TightFrame(pr, false, header);
    TightFrame(pr, false, header + metaData);
    DrainNothing(pr, false);
    FeedTwo(pr, false, header, metaData);
    hide Header;
    hide BodySize;
    hide MetaSize;
    hide DecodeFrame;
    assert (header + metaData)[HEAD..] == metaData && header[HEAD..] == [];
    assert metaData[..|metaData|] == metaData && metaData[|metaData|..] == [];
  }

  lemma EmptyMessageFrame(pr: Proto, m: Message, x: seq<byte>)
    requires EmptyIsDefault(pr) && m.payload == m.attachment == []
    requires MetaData(pr, m).Some? && TotalSize(pr, m) <= MAX_BODY
    ensures DecodeFrame(pr, true, Encoded(pr, m) + x) ==
              (Decoded(Message(pr.unmarshal([]), [], MetaData(pr, m).value + x)), [])
  {
    HeaderOfEncoded(pr, m, x);
    LowWord(TotalSize(pr, m));
    LowWord(|MetaData(pr, m).value|);
    var b, metaData := Encoded(pr, m), MetaData(pr, m).value;
    assert m.payload + m.attachment + metaData + x == metaData + x;
    hide Encoded;
    hide BodySize;
    hide MetaSize;
    BodilessFrame(pr, b + x);
  }

  /**
   * Reads of zero bytes return everything: an ordinary message without payload and attachment gets as
   * its attachment the bytes of its own meta and whatever arrived behind it.
   */
  lemma EmptyMessageCutMatters(pr: Proto, m: Message, x: seq<byte>)
    requires EmptyIsDefault(pr) && m.payload == m.attachment == [] && x != []
    requires MetaData(pr, m).Some? && TotalSize(pr, m) <= MAX_BODY
    ensures var b := Encoded(pr, m);
            && DecodeFrame(pr, true, b + x) == (Decoded(Message(pr.unmarshal([]), [], MetaData(pr, m).value + x)), [])
            && [Message(pr.unmarshal([]), [], MetaData(pr, m).value)] <= Feed(pr, true, [b, x]).msgs
            && !SameOutcome(Feed(pr, true, [b, x]), Drain(pr, true, b + x))
  {
    var b, metaData := Encoded(pr, m), MetaData(pr, m).value;
    EmptyMessageFrame(pr, m, []);
    EmptyMessageFrame(pr, m, x);
    assert b + [] == b && metaData + [] == metaData;
    FeedTwo(pr, true, b, x);
    TwoPiecesAfterOne(pr, true, b, x);
    hide DecodeFrame;
    hide Encoded;
    assert |metaData + x| != |metaData|;
    assert Feed(pr, true, [b, x]).msgs[0] != Drain(pr, true, b + x).msgs[0];
  }
}
