/**
 * pkg/net2/brpc/baidu_rpc_codec.go: the frame format.  A frame is the magic "PRBC", the total size
 * and the meta size (32-bit little-endian, the total counting the 12 header bytes), the payload, the
 * attachment, and the serialised meta last.
 */
module BrpcFrame {
  import opened Go

  // ---------------------------------------------------------------- the message types

  datatype RpcRequestMeta = RpcRequestMeta(serviceName: string, methodName: string, logId: int64, traceId: int64,
                                           spanId: int64, parentSpanId: int64)

  datatype RpcResponseMeta = RpcResponseMeta(errorCode: int32, errorText: string)

  datatype MTProtoMeta = MTProtoMeta(authKeyId: int64, sessionId: int64, messageId: int64, layer: int32, userId: int32,
                                     accessHash: int64, serverId: int32, clientConnId: int64, clientAddr: string,
                                     from: string, receiveTime: int64)

  datatype Meta = Meta(request: Option<RpcRequestMeta>, response: Option<RpcResponseMeta>, compressType: int32,
                       correlationId: int64, attachmentSize: int32, mtprotoMeta: Option<MTProtoMeta>)

  const EMPTY_META := Meta(None, None, 0, 0, 0, None)

  datatype Message = Message(meta: Meta, payload: seq<byte>, attachment: seq<byte>)

  /**
   * Protocol-buffer serialisation of the meta, which may refuse a value.  Parsing always gives a meta:
   * Decode ignores its error.
   */
  datatype Proto = Proto(marshal: Meta -> Option<seq<byte>>, unmarshal: seq<byte> -> Meta)

  ghost predicate RoundTrips(pr: Proto) {
    forall m: Meta :: pr.marshal(m).Some? ==> pr.unmarshal(pr.marshal(m).value) == m
  }

  // ---------------------------------------------------------------- little-endian integers

  function PutUint32(x: int): (b: seq<byte>)
    requires 0 <= x < TWO_32
    ensures |b| == 4
  {
    [x % 0x100, x / 0x100 % 0x100, x / 0x1_0000 % 0x100, x / 0x100_0000]
  }

  function Uint32(b: seq<byte>): (x: int)
    requires |b| == 4
    ensures 0 <= x < TWO_32
  {
    b[0] + 0x100 * b[1] as int + 0x1_0000 * b[2] as int + 0x100_0000 * b[3] as int
  }

  lemma Uint32OfPut(x: int)
    requires 0 <= x < TWO_32
    ensures Uint32(PutUint32(x)) == x
  {
    var y := x / 0x100;
    var z := y / 0x100;
    assert x / 0x1_0000 == z && x / 0x100_0000 == z / 0x100;
  }

  // ---------------------------------------------------------------- encoding

  const MAGIC: seq<byte> := [0x50, 0x52, 0x42, 0x43] // "PRBC"
  const HEAD := 12
  const MAX_BODY := 64 * 1024 * 1024

  /** What Encode leaves in the meta: the attachment's size, unless there is no attachment. */
  function Stamped(m: Message): Message {
    if |m.attachment| > 0 then m.(meta := m.meta.(attachmentSize := ToInt32(|m.attachment|))) else m
  }

  function Header(total: nat, metaSize: nat): (h: seq<byte>)
    ensures |h| == HEAD
  {
    MAGIC + PutUint32(total % TWO_32) + PutUint32(metaSize % TWO_32)
  }

  function MetaData(pr: Proto, m: Message): Option<seq<byte>> { pr.marshal(Stamped(m).meta) }

  function TotalSize(pr: Proto, m: Message): nat
    requires MetaData(pr, m).Some?
  {
    HEAD + |m.payload| + |m.attachment| + |MetaData(pr, m).value|
  }

  /** The bytes Encode hands to the connection. */
  function Encoded(pr: Proto, m: Message): (b: seq<byte>)
    requires MetaData(pr, m).Some?
    ensures |b| == TotalSize(pr, m)
  {
    var metaData := MetaData(pr, m).value;
    Header(TotalSize(pr, m), |metaData|) + m.payload + m.attachment + metaData
  }

  // ---------------------------------------------------------------- decoding

  datatype DecodeResult =
    | Decoded(msg: Message)
    | Incomplete
    | BadMagic
    | TooBig
    | MetaTooBig
    | Crashed

  /**
   * Reading `n` bytes off the connection.  More than there are: nothing.  What a request for zero or
   * fewer bytes returns is the connection library's choice: nothing, or (`all`) everything buffered.
   */
  function NextBytes(all: bool, buf: seq<byte>, n: int): (r: (seq<byte>, seq<byte>))
    ensures |r.1| <= |buf|
    ensures 0 <= n <= |buf| && (all ==> n > 0) ==> |r.0| == n && |r.1| == |buf| - n
    ensures n <= 0 && all ==> r.1 == []
    ensures n <= 0 && !all ==> r == ([], buf)
  {
    if n > |buf| then ([], buf)
    else if n <= 0 then (if all then (buf, []) else ([], buf))
    else (buf[..n], buf[n..])
  }

  /** The two sizes in a header. */
  function BodySize(buf: seq<byte>): nat
    requires |buf| >= HEAD
  {
    Uint32(buf[4..8])
  }

  function MetaSize(buf: seq<byte>): nat
    requires |buf| >= HEAD
  {
    Uint32(buf[8..12])
  }

  /** The header is there and passes the checks of Decode. */
  predicate Accepted(buf: seq<byte>) {
    |buf| >= HEAD && buf[..4] == MAGIC && BodySize(buf) <= MAX_BODY && MetaSize(buf) <= BodySize(buf)
  }

  /** The slices `bodyData[:n-attachmentSize]` and `bodyData[n-attachmentSize:]`, which may be out of range. */
  function Split(meta: Meta, bodyData: seq<byte>, n: int): DecodeResult {
    var cut := n - meta.attachmentSize;
    if 0 <= cut <= |bodyData| then Decoded(Message(meta, bodyData[..cut], bodyData[cut..])) else Crashed
  }

  /** Decode on a connection holding `buf`: its result, and what it leaves. */
  function DecodeFrame(pr: Proto, all: bool, buf: seq<byte>): (DecodeResult, seq<byte>) {
    if |buf| < HEAD then (Incomplete, buf)
    else if buf[..4] != MAGIC then (BadMagic, buf)
    else if BodySize(buf) > MAX_BODY then (TooBig, buf)
    else if MetaSize(buf) > BodySize(buf) then (MetaTooBig, buf)
    else if |buf| < BodySize(buf) then (Incomplete, buf)
    else
      var n := BodySize(buf) - HEAD - MetaSize(buf);
      var (bodyData, rest1) := NextBytes(all, buf[HEAD..], n);
      var (metaData, rest2) := NextBytes(all, rest1, MetaSize(buf));
      (Split(pr.unmarshal(metaData), bodyData, n), rest2)
  }

  lemma DecodeProgress(pr: Proto, all: bool, buf: seq<byte>)
    ensures DecodeFrame(pr, all, buf).0.Decoded? ==> |DecodeFrame(pr, all, buf).1| + HEAD <= |buf|
    ensures DecodeFrame(pr, all, buf).0.Incomplete? ==> DecodeFrame(pr, all, buf).1 == buf
  {
  }

  // ---------------------------------------------------------------- one frame, there and back

  /**
   * What a message must be like to come back: within the size limit, no stale attachment size when
   * there is no attachment, and no zero-length read if such reads return everything.
   */
  predicate Framable(pr: Proto, all: bool, m: Message) {
    && MetaData(pr, m).Some?
    && TotalSize(pr, m) <= MAX_BODY
    && (m.attachment == [] ==> m.meta.attachmentSize == 0)
    && (all ==> m.payload + m.attachment != [] && MetaData(pr, m).value != [])
  }

  lemma HeaderOfEncoded(pr: Proto, m: Message, x: seq<byte>)
    requires MetaData(pr, m).Some?
    ensures var buf := Encoded(pr, m) + x;
            && buf[..4] == MAGIC
            && BodySize(buf) == TotalSize(pr, m) % TWO_32
            && MetaSize(buf) == |MetaData(pr, m).value| % TWO_32
            && buf[HEAD..] == m.payload + m.attachment + MetaData(pr, m).value + x
  {
    var total, n := TotalSize(pr, m) % TWO_32, |MetaData(pr, m).value| % TWO_32;
    var buf := Encoded(pr, m) + x;
    assert buf[4..8] == PutUint32(total);
    assert buf[8..12] == PutUint32(n);
    Uint32OfPut(total);
    Uint32OfPut(n);
  }

  lemma ReadBack(all: bool, a: seq<byte>, b: seq<byte>)
    requires all ==> a != []
    ensures NextBytes(all, a + b, |a|) == (a, b)
  {
    if a == [] { assert a + b == b; }
  }

  /** Decode on a buffer known to hold an accepted header, a body, a meta, and the rest. */
  lemma DecodeParts(pr: Proto, all: bool, buf: seq<byte>, body: seq<byte>, metaData: seq<byte>, x: seq<byte>)
    requires Accepted(buf) && BodySize(buf) == HEAD + |body| + |metaData| && MetaSize(buf) == |metaData|
    requires buf[HEAD..] == body + (metaData + x)
    requires all ==> body != [] && metaData != []
    ensures DecodeFrame(pr, all, buf) == (Split(pr.unmarshal(metaData), body, |body|), x)
  {
    hide BodySize;
    hide MetaSize;
    hide NextBytes;
    hide Split;
    assert |buf| == HEAD + |body| + |metaData| + |x|;
    ReadBack(all, body, metaData + x);
    ReadBack(all, metaData, x);
  }

  lemma LowWord(x: nat)
    ensures 0 <= x % TWO_32 <= x
    ensures x < TWO_32 ==> x % TWO_32 == x
  {
  }

  lemma FrameReturns(pr: Proto, all: bool, m: Message, x: seq<byte>)
    requires RoundTrips(pr) && Framable(pr, all, m)
    ensures DecodeFrame(pr, all, Encoded(pr, m) + x) == (Decoded(Stamped(m)), x)
  {
    hide Encoded;
    hide BodySize;
    hide MetaSize;
    hide DecodeFrame;
    HeaderOfEncoded(pr, m, x);
    var body, metaData := m.payload + m.attachment, MetaData(pr, m).value;
    LowWord(TotalSize(pr, m));
    LowWord(|metaData|);
    assert m.payload + m.attachment + metaData + x == body + (metaData + x);
    DecodeParts(pr, all, Encoded(pr, m) + x, body, metaData, x);
    assert pr.unmarshal(metaData) == Stamped(m).meta;
    assert body[..|m.payload|] == m.payload && body[|m.payload|..] == m.attachment;
  }

  /** What a successful Decode took off the connection. */
  lemma DecodeTakes(pr: Proto, all: bool, buf: seq<byte>)
    requires DecodeFrame(pr, all, buf).0.Decoded?
    ensures var (r, rest) := DecodeFrame(pr, all, buf);
            var n := BodySize(buf) - HEAD - MetaSize(buf);
            if all && (n <= 0 || MetaSize(buf) == 0) then rest == []
            else if n < 0 then
              rest == buf[if |buf| < HEAD + MetaSize(buf) then HEAD else HEAD + MetaSize(buf)..]
              && r.msg.payload == r.msg.attachment == [] && r.msg.meta.attachmentSize == n
            else |rest| == |buf| - BodySize(buf) && |r.msg.attachment| == r.msg.meta.attachmentSize
  {
    hide BodySize;
    hide MetaSize;
    var n := BodySize(buf) - HEAD - MetaSize(buf);
    var (bodyData, rest1) := NextBytes(all, buf[HEAD..], n);
    var (metaData, rest2) := NextBytes(all, rest1, MetaSize(buf));
    if n < 0 && !all && |buf| >= HEAD + MetaSize(buf) {
      assert buf[HEAD..][MetaSize(buf)..] == buf[HEAD + MetaSize(buf)..];
    }
    assert DecodeFrame(pr, all, buf) == (Split(pr.unmarshal(metaData), bodyData, n), rest2);
  }

  lemma FrameLost(pr: Proto, all: bool, m: Message)
    requires RoundTrips(pr) && MetaData(pr, m).Some? && !Framable(pr, all, m)
    ensures DecodeFrame(pr, all, Encoded(pr, m) + [0]) != (Decoded(Stamped(m)), [0])
  {
    hide Encoded;
    hide BodySize;
    hide MetaSize;
    HeaderOfEncoded(pr, m, [0]);
    LowWord(TotalSize(pr, m));
    LowWord(|MetaData(pr, m).value|);
    var buf := Encoded(pr, m) + [0];
    var (r, rest) := DecodeFrame(pr, all, buf);
    if r.Decoded? {
      DecodeTakes(pr, all, buf);
      assert BodySize(buf) <= MAX_BODY && MetaSize(buf) <= BodySize(buf);
      hide DecodeFrame;
    }
  }

  /** A frame comes back whole, whatever follows it, exactly when the message is framable. */
  lemma FrameRoundTrip(pr: Proto, all: bool, m: Message)
    requires RoundTrips(pr) && MetaData(pr, m).Some?
    ensures Framable(pr, all, m)
            <==> forall x :: DecodeFrame(pr, all, Encoded(pr, m) + x) == (Decoded(Stamped(m)), x)
  {
    if Framable(pr, all, m) {
      forall x
        ensures DecodeFrame(pr, all, Encoded(pr, m) + x) == (Decoded(Stamped(m)), x)
      {
        FrameReturns(pr, all, m, x);
      }
    } else {
      FrameLost(pr, all, m);
    }
  }

  /** A size left over from an attachment that is gone cuts the end off the payload. */
  lemma StaleSizeCutsPayload(pr: Proto, all: bool, m: Message, x: seq<byte>)
    requires RoundTrips(pr) && MetaData(pr, m).Some? && TotalSize(pr, m) <= MAX_BODY
    requires m.attachment == [] && 0 < m.meta.attachmentSize <= |m.payload|
    requires all ==> MetaData(pr, m).value != []
    ensures var cut := |m.payload| - m.meta.attachmentSize;
            DecodeFrame(pr, all, Encoded(pr, m) + x) ==
              (Decoded(Message(m.meta, m.payload[..cut], m.payload[cut..])), x)
  {
    var metaData := MetaData(pr, m).value;
    HeaderOfEncoded(pr, m, x);
    LowWord(TotalSize(pr, m));
    LowWord(|metaData|);
    hide Encoded;
    hide BodySize;
    hide MetaSize;
    hide DecodeFrame;
    assert m.payload + m.attachment + metaData + x == m.payload + (metaData + x);
    DecodeParts(pr, all, Encoded(pr, m) + x, m.payload, metaData, x);
    assert pr.unmarshal(metaData) == m.meta;
  }
}
