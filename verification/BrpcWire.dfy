/**
 * The frame on the wire, byte by byte: "PRBC", two 32-bit numbers with the low byte first, then the
 * payload, the attachment and the meta.
 */
module BrpcWire {
  import opened Go
  import opened BrpcFrame

  /** `b` is the frame of these parts; the two sizes are cut to 32 bits. */
  predicate WireFrame(b: seq<byte>, payload: seq<byte>, attachment: seq<byte>, metaData: seq<byte>) {
    && |b| == 12 + |payload| + |attachment| + |metaData|
    && b[0] == 'P' as int && b[1] == 'R' as int && b[2] == 'B' as int && b[3] == 'C' as int
    && b[4] as int + 0x100 * b[5] as int + 0x1_0000 * b[6] as int + 0x100_0000 * b[7] as int == |b| % 0x1_0000_0000
    && b[8] as int + 0x100 * b[9] as int + 0x1_0000 * b[10] as int + 0x100_0000 * b[11] as int
       == |metaData| % 0x1_0000_0000
    && b[12..] == payload + attachment + metaData
  }

  /** What the bytes of a header say must become of it; `rest` is what is left on the connection. */
  predicate AnswersHeader(buf: seq<byte>, r: DecodeResult, rest: seq<byte>) {
    if |buf| < 12 then r == Incomplete && rest == buf
    else
      var total := buf[4] as int + 0x100 * buf[5] as int + 0x1_0000 * buf[6] as int + 0x100_0000 * buf[7] as int;
      var metaSize := buf[8] as int + 0x100 * buf[9] as int + 0x1_0000 * buf[10] as int + 0x100_0000 * buf[11] as int;
      if buf[..4] != ['P' as int, 'R' as int, 'B' as int, 'C' as int] then r == BadMagic && rest == buf
      else if total > 67_108_864 then r == TooBig && rest == buf
      else if metaSize > total then r == MetaTooBig && rest == buf
      else if |buf| < total then r == Incomplete && rest == buf
      else r.Decoded? || r.Crashed?
  }

  /**
   * The parts of a complete frame: `n` bytes of payload and attachment, of which the meta says how many
   * are the attachment.
   */
  predicate TakesParts(pr: Proto, buf: seq<byte>, n: nat, metaSize: nat, r: DecodeResult, rest: seq<byte>)
    requires 12 + n + metaSize <= |buf|
  {
    var meta := pr.unmarshal(buf[12 + n..12 + n + metaSize]);
    var cut := 12 + n - meta.attachmentSize;
    && rest == buf[12 + n + metaSize..]
    && r == if 12 <= cut <= 12 + n then Decoded(Message(meta, buf[12..cut], buf[cut..12 + n])) else Crashed
  }

  lemma SizesOfHeader(buf: seq<byte>)
    requires |buf| >= 12
    ensures BodySize(buf) ==
              buf[4] as int + 0x100 * buf[5] as int + 0x1_0000 * buf[6] as int + 0x100_0000 * buf[7] as int
    ensures MetaSize(buf) ==
              buf[8] as int + 0x100 * buf[9] as int + 0x1_0000 * buf[10] as int + 0x100_0000 * buf[11] as int
  {
  }

  /** Every frame that is sent. */
  lemma EncodedIsWireFrame(pr: Proto, m: Message)
    requires MetaData(pr, m).Some?
    ensures WireFrame(Encoded(pr, m), m.payload, m.attachment, MetaData(pr, m).value)
  {
    var b, metaData := Encoded(pr, m), MetaData(pr, m).value;
    HeaderOfEncoded(pr, m, []);
    assert b + [] == b;
    assert b[12..] == m.payload + m.attachment + metaData + [];
    assert b[..4][0] == b[0] && b[..4][1] == b[1] && b[..4][2] == b[2] && b[..4][3] == b[3];
    assert b[4..8][0] == b[4] && b[8..12][0] == b[8];
  }

  /** Every answer that Decode gives. */
  lemma DecodeAnswersHeader(pr: Proto, all: bool, buf: seq<byte>)
    ensures AnswersHeader(buf, DecodeFrame(pr, all, buf).0, DecodeFrame(pr, all, buf).1)
  {
    if |buf| >= 12 { SizesOfHeader(buf); }
    hide BodySize;
    hide MetaSize;
    hide NextBytes;
  }

  lemma CutBody(buf: seq<byte>, n: nat, cut: int)
    requires 12 + n <= |buf|
    ensures 0 <= cut <= n ==>
              buf[12..12 + n][..cut] == buf[12..12 + cut] && buf[12..12 + n][cut..] == buf[12 + cut..12 + n]
  {
  }

  /** Every frame that Decode takes, unless it has no room for its meta, or a read of zero bytes takes all. */
  lemma DecodeTakesParts(pr: Proto, all: bool, buf: seq<byte>, n: nat, metaSize: nat)
    requires |buf| >= 12 && buf[..4] == ['P' as int, 'R' as int, 'B' as int, 'C' as int]
    requires buf[4] as int + 0x100 * buf[5] as int + 0x1_0000 * buf[6] as int + 0x100_0000 * buf[7] as int
             == 12 + n + metaSize
    requires buf[8] as int + 0x100 * buf[9] as int + 0x1_0000 * buf[10] as int + 0x100_0000 * buf[11] as int
             == metaSize
    requires 12 + n + metaSize <= 67_108_864 && 12 + n + metaSize <= |buf|
    requires all ==> n > 0 && metaSize > 0
    ensures TakesParts(pr, buf, n, metaSize, DecodeFrame(pr, all, buf).0, DecodeFrame(pr, all, buf).1)
  {
    SizesOfHeader(buf);
    hide BodySize;
    hide MetaSize;
    hide DecodeFrame;
    var body, metaData, x := buf[12..12 + n], buf[12 + n..12 + n + metaSize], buf[12 + n + metaSize..];
    assert buf[12..] == body + (metaData + x);
    DecodeParts(pr, all, buf, body, metaData, x);
    var meta := pr.unmarshal(metaData);
    var cut := n - meta.attachmentSize;
    CutBody(buf, n, cut);
  }
}
