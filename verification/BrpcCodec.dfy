/**
 * pkg/net2/brpc/baidu_rpc_codec.go in its own form: a message whose meta is a shared, mutable record,
 * and a codec that consumes the inbound buffer of a connection.
 */
module BrpcCodec {
  import opened Go
  import opened BrpcFrame
  import opened BrpcStream
  import opened BrpcWire

  /** The record behind a `*RpcMeta`. */
  class RpcMeta {
    var value: Meta

    constructor (value: Meta)
      ensures this.value == value
    {
      this.value := value;
    }
  }

  lemma ConcatFour(p: seq<seq<byte>>)
    requires |p| == 4
    ensures Concat(p) == p[0] + p[1] + p[2] + p[3]
  {
    assert p[..3][..2] == p[..2] && p[..2][..1] == p[..1] && p[..1][..0] == [];
    assert Concat(p[..1]) == p[0];
    assert Concat(p[..2]) == p[0] + p[1];
    assert Concat(p[..3]) == p[0] + p[1] + p[2];
  }

  class BaiduRpcMessage {
    const meta: RpcMeta?
    const payload: seq<byte>
    const attachment: seq<byte>

    constructor (meta: RpcMeta?, payload: seq<byte>, attachment: seq<byte>)
      ensures this.meta == meta && this.payload == payload && this.attachment == attachment
    {
      this.meta, this.payload, this.attachment := meta, payload, attachment;
    }

    /** A nil meta reads, and serialises, like the empty one. */
    function Value(): Message
      reads meta
    {
      Message(if meta == null then EMPTY_META else meta.value, payload, attachment)
    }

    /**
     * Stamps the attachment's size into the shared meta, which must not be nil then, and frames.  The
     * pieces returned are written one after the other.  A meta that cannot be serialised is an error,
     * after the stamping.
     */
    method Encode(pr: Proto) returns (r: Outcome<Option<seq<seq<byte>>>>)
      modifies meta
      ensures r.Panics? <==> meta == null && attachment != []
      ensures r.Returns? ==> Value() == Stamped(old(Value()))
      ensures r.Returns? ==> (r.value.Some? <==> MetaData(pr, old(Value())).Some?)
      ensures r.Returns? && r.value.Some? ==> Concat(r.value.value) == Encoded(pr, old(Value()))
      ensures r.Returns? && attachment == [] ==> Value().meta == old(Value().meta)
      ensures r.Returns? && attachment != [] ==>
                Value().meta == old(Value().meta).(attachmentSize := ToInt32(|attachment|))
      ensures r.Returns? && r.value.Some? ==>
                && pr.marshal(Value().meta).Some?
                && WireFrame(Concat(r.value.value), payload, attachment, pr.marshal(Value().meta).value)
    {
      hide WireFrame;
      ghost var m := Value();
      if |attachment| > 0 {
        if meta == null { return Panics; }
        meta.value := meta.value.(attachmentSize := ToInt32(|attachment|));
      }
      var metaData := pr.marshal(if meta == null then EMPTY_META else meta.value);
      if metaData.None? { return Returns(None); }
      var headBuf := new byte[12];
      var total := HEAD + |payload| + |attachment| + |metaData.value|;
      var sizes := PutUint32(total % TWO_32) + PutUint32(|metaData.value| % TWO_32);
      for i := 0 to 12
        invariant headBuf[..i] == (MAGIC + sizes)[..i]
        invariant Value() == Stamped(m)
      {
        headBuf[i] := if i < 4 then MAGIC[i] else sizes[i - 4];
      }
      assert headBuf[..] == headBuf[..12] == Header(total, |metaData.value|);
      var pieces := [headBuf[..], payload, attachment, metaData.value];
      ConcatFour(pieces);
      EncodedIsWireFrame(pr, m);
      return Returns(Some(pieces));
    }
  }

  /** The inbound side of a gnet connection: a queue of bytes. */
  class Conn {
    /** What a read of zero or fewer bytes returns: everything, or nothing. */
    const zeroReadsAll: bool
    var inbound: seq<byte>

    constructor (zeroReadsAll: bool)
      ensures this.zeroReadsAll == zeroReadsAll && inbound == []
    {
      this.zeroReadsAll, inbound := zeroReadsAll, [];
    }

    /** Bytes arrive. */
    method Receive(chunk: seq<byte>)
      modifies this
      ensures inbound == old(inbound) + chunk
    {
      inbound := inbound + chunk;
    }

    /** The next `n` bytes, left in place; short if there are fewer. */
    method Peek(n: nat) returns (buf: seq<byte>, short: bool)
      ensures short == (|inbound| < n)
      ensures buf == if short then [] else inbound[..n]
    {
      if |inbound| < n { return [], true; }
      return inbound[..n], false;
    }

    method Discard(n: nat)
      requires n <= |inbound|
      modifies this
      ensures inbound == old(inbound)[n..]
    {
      inbound := inbound[n..];
    }

    method Next(n: int) returns (buf: seq<byte>)
      modifies this
      ensures (buf, inbound) == NextBytes(zeroReadsAll, old(inbound), n)
    {
      if n > |inbound| { return []; }
      if n <= 0 {
        if zeroReadsAll {
          buf, inbound := inbound, [];
        } else {
          buf := [];
        }
        return;
      }
      buf, inbound := inbound[..n], inbound[n..];
    }

    method InboundBuffered() returns (n: nat)
      ensures n == |inbound|
    {
      n := |inbound|;
    }
  }

  /** Decode peeks at the header, and takes the frame off the connection once all of it is there. */
  method Decode(pr: Proto, c: Conn) returns (r: DecodeResult)
    modifies c
    ensures (r, c.inbound) == DecodeFrame(pr, c.zeroReadsAll, old(c.inbound))
    ensures AnswersHeader(old(c.inbound), r, c.inbound)
  {
    ghost var buf := c.inbound;
    DecodeAnswersHeader(pr, c.zeroReadsAll, buf);
    hide AnswersHeader;
    var headBuf, short := c.Peek(12);
    if short { return Incomplete; }
    assert headBuf[..4] == buf[..4] && headBuf[4..8] == buf[4..8] && headBuf[8..] == buf[8..12];
    if headBuf[..4] != MAGIC { return BadMagic; }
    var bodySize: int := Uint32(headBuf[4..8]);
    var metaSize: int := Uint32(headBuf[8..]);
    if bodySize > 64 * 1024 * 1024 { return TooBig; }
    if metaSize > bodySize { return MetaTooBig; }
    var buffered := c.InboundBuffered();
    if buffered < bodySize { return Incomplete; }
    c.Discard(12);
    bodySize := bodySize - 12 - metaSize;
    var bodyData := c.Next(bodySize);
    var metaData := c.Next(metaSize);
    var meta := pr.unmarshal(metaData);
    var attachmentSize: int := meta.attachmentSize;
    if !(0 <= bodySize - attachmentSize <= |bodyData|) { return Crashed; }
    return Decoded(Message(meta, bodyData[..bodySize - attachmentSize], bodyData[bodySize - attachmentSize..]));
  }

  /** The event handler of the example server and client: decode until a frame is incomplete or broken. */
  method OnTraffic(pr: Proto, c: Conn) returns (msgs: seq<Message>, stop: DecodeResult)
    modifies c
    ensures Progress(msgs, c.inbound, stop) == Drain(pr, c.zeroReadsAll, old(c.inbound))
  {
    hide AnswersHeader;
    hide DecodeFrame;
    msgs := [];
    while true
      invariant var d := Drain(pr, c.zeroReadsAll, c.inbound);
                Drain(pr, c.zeroReadsAll, old(c.inbound)) == d.(msgs := msgs + d.msgs)
      decreases |c.inbound|
    {
      DecodeProgress(pr, c.zeroReadsAll, c.inbound);
      ghost var d := Drain(pr, c.zeroReadsAll, c.inbound);
      stop := Decode(pr, c);
      if !stop.Decoded? { break; }
      ghost var d' := Drain(pr, c.zeroReadsAll, c.inbound);
      assert msgs + d.msgs == msgs + [stop.msg] + d'.msgs;
      msgs := msgs + [stop.msg];
    }
  }

  /**
   * A connection that lives through a list of arrivals, handling traffic after each, until something
   * closes it.
   */
  method Serve(pr: Proto, c: Conn, chunks: seq<seq<byte>>) returns (msgs: seq<Message>, stop: DecodeResult)
    requires c.inbound == []
    modifies c
    ensures Progress(msgs, c.inbound, stop) == Feed(pr, c.zeroReadsAll, chunks)
  {
    msgs, stop := [], Incomplete;
    for i := 0 to |chunks|
      invariant Progress(msgs, c.inbound, stop) == Feed(pr, c.zeroReadsAll, chunks[..i])
    {
      assert chunks[..i + 1][..i] == chunks[..i];
      if stop.Incomplete? {
        c.Receive(chunks[i]);
        var more, why := OnTraffic(pr, c);
        msgs, stop := msgs + more, why;
      }
    }
    assert chunks[..|chunks|] == chunks;
  }
}
