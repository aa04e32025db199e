/**
 * pkg/net2/brpc/brpc_controller.go: the controller keeps a meta record and an attachment, and has to
 * keep the meta's AttachmentSize in step with the attachment.  Messages made from a controller share
 * its meta record.  Runs over several of them are about a World of values; BrpcSharing proves that the
 * objects step along with it.
 */
module BrpcController {
  import opened Go
  import opened BrpcFrame
  import opened BrpcCodec

  const EMPTY_REQUEST := RpcRequestMeta("", "", 0, 0, 0, 0)
  const EMPTY_RESPONSE := RpcResponseMeta(0, "")
  const EMPTY_MTPROTO := MTProtoMeta(0, 0, 0, 0, 0, 0, 0, 0, "", "", 0)

  /** Serialisation of the payload types, found by method name. */
  datatype Bodies<!Z> = Bodies(marshal: Z -> Option<seq<byte>>, unmarshal: (string, seq<byte>) -> Option<Z>,
                               registered: string -> bool)

  class ZRpcController {
    var meta: RpcMeta?
    var attachment: seq<byte>

    /** The meta a nil record stands for is the empty one. */
    function MetaValue(): Meta
      reads this, meta
    {
      if meta == null then EMPTY_META else meta.value
    }

    predicate InSync()
      reads this, meta
    {
      MetaValue().attachmentSize == ToInt32(|attachment|)
    }

    constructor NewController()
      ensures fresh(meta) && MetaValue() == Meta(None, None, 0, 0, 0, None) && attachment == [] && InSync()
    {
      meta := new RpcMeta(EMPTY_META);
      attachment := [];
    }

    constructor Of(meta: RpcMeta?, attachment: seq<byte>)
      ensures this.meta == meta && this.attachment == attachment
    {
      this.meta, this.attachment := meta, attachment;
    }

    /** A controller of its own: later changes to either do not show in the other. */
    method Clone() returns (c: ZRpcController)
      ensures fresh(c) && (meta == null <==> c.meta == null) && (c.meta != null ==> fresh(c.meta))
      ensures c.MetaValue() == MetaValue() && c.attachment == attachment
      ensures c.InSync() == InSync()
    {
      var md: RpcMeta? := null;
      if meta != null { md := new RpcMeta(meta.value); }
      c := new ZRpcController.Of(md, attachment);
    }

    /** The first line of every setter. */
    method EnsureMeta()
      modifies this`meta
      ensures meta != null && (old(meta) != null ==> meta == old(meta)) && (old(meta) == null ==> fresh(meta))
      ensures MetaValue() == old(MetaValue())
    {
      if meta == null { meta := new RpcMeta(EMPTY_META); }
    }

    method SetMethodName(v: string)
      modifies this`meta, meta
      ensures MetaValue().request.Some? && MetaValue().request.value.methodName == v
      ensures MetaValue() == old(MetaValue()).(request := MetaValue().request)
      ensures old(MetaValue()).request.Some? ==>
                MetaValue().request.value == old(MetaValue()).request.value.(methodName := v)
      ensures old(MetaValue()).request.None? ==> MetaValue().request.value == RpcRequestMeta("", v, 0, 0, 0, 0)
      ensures old(meta) != null ==> meta == old(meta)
      ensures InSync() == old(InSync())
    {
      EnsureMeta();
      var request := if meta.value.request.None? then EMPTY_REQUEST else meta.value.request.value;
      meta.value := meta.value.(request := Some(request.(methodName := v)));
    }

    method SetErrorCode(v: int32)
      modifies this`meta, meta
      ensures MetaValue().response.Some? && MetaValue().response.value.errorCode == v
      ensures MetaValue() == old(MetaValue()).(response := MetaValue().response)
      ensures old(MetaValue()).response.Some? ==>
                MetaValue().response.value == old(MetaValue()).response.value.(errorCode := v)
      ensures old(MetaValue()).response.None? ==> MetaValue().response.value == RpcResponseMeta(v, "")
      ensures old(meta) != null ==> meta == old(meta)
      ensures InSync() == old(InSync())
    {
      EnsureMeta();
      var response := if meta.value.response.None? then EMPTY_RESPONSE else meta.value.response.value;
      meta.value := meta.value.(response := Some(response.(errorCode := v)));
    }

    method SetCorrelationId(v: int64)
      modifies this`meta, meta
      ensures MetaValue() == old(MetaValue()).(correlationId := v)
      ensures old(meta) != null ==> meta == old(meta)
      ensures InSync() == old(InSync())
    {
      EnsureMeta();
      meta.value := meta.value.(correlationId := v);
    }

    method SetAuthKeyId(v: int64)
      modifies this`meta, meta
      ensures MetaValue().mtprotoMeta.Some? && MetaValue().mtprotoMeta.value.authKeyId == v
      ensures MetaValue() == old(MetaValue()).(mtprotoMeta := MetaValue().mtprotoMeta)
      ensures old(MetaValue()).mtprotoMeta.Some? ==>
                MetaValue().mtprotoMeta.value == old(MetaValue()).mtprotoMeta.value.(authKeyId := v)
      ensures old(MetaValue()).mtprotoMeta.None? ==>
                MetaValue().mtprotoMeta.value == MTProtoMeta(v, 0, 0, 0, 0, 0, 0, 0, "", "", 0)
      ensures old(meta) != null ==> meta == old(meta)
      ensures InSync() == old(InSync())
    {
      EnsureMeta();
      var mt := if meta.value.mtprotoMeta.None? then EMPTY_MTPROTO else meta.value.mtprotoMeta.value;
      meta.value := meta.value.(mtprotoMeta := Some(mt.(authKeyId := v)));
    }

    method SetAttachmentSize(v: int32)
      modifies this`meta, meta
      ensures MetaValue() == old(MetaValue()).(attachmentSize := v)
      ensures old(meta) != null ==> meta == old(meta)
    {
      EnsureMeta();
      meta.value := meta.value.(attachmentSize := v);
    }

    method SetAttachment(b: seq<byte>)
      modifies this, meta
      ensures attachment == b && InSync()
      ensures MetaValue() == old(MetaValue()).(attachmentSize := ToInt32(|b|))
      ensures old(meta) != null ==> meta == old(meta)
    {
      attachment := b;
      SetAttachmentSize(ToInt32(|b|));
    }

    method MoveAttachment() returns (move: seq<byte>)
      modifies this, meta
      ensures move == old(attachment) && attachment == [] && InSync()
      ensures MetaValue() == old(MetaValue()).(attachmentSize := 0)
      ensures old(meta) != null ==> meta == old(meta)
    {
      move := attachment;
      SetAttachmentSize(0);
      attachment := [];
    }
  }

  /** The message shares the controller's meta record, nil included.  A payload not serialisable is sent empty. */
  method MakeBaiduRpcMessage<Z>(bodies: Bodies<Z>, cntl: ZRpcController, zmsg: Z) returns (bmsg: BaiduRpcMessage)
    ensures fresh(bmsg) && bmsg.meta == cntl.meta && bmsg.attachment == cntl.attachment
    ensures bmsg.payload == if bodies.marshal(zmsg).Some? then bodies.marshal(zmsg).value else []
  {
    var payload := bodies.marshal(zmsg);
    bmsg := new BaiduRpcMessage(cntl.meta, if payload.Some? then payload.value else [], cntl.attachment);
  }

  /** The method name picks the type of the payload; without a known one, or if the payload does not parse, an error. */
  method SplitBaiduRpcMessage<Z>(bodies: Bodies<Z>, bmsg: BaiduRpcMessage)
    returns (cntl: ZRpcController?, zmsg: Option<Z>)
    ensures cntl != null <==> zmsg.Some?
    ensures cntl != null ==> fresh(cntl) && cntl.meta == bmsg.meta && cntl.attachment == bmsg.attachment
    ensures var request := bmsg.Value().meta.request;
            zmsg == if request.None? || request.value.methodName == "" || !bodies.registered(request.value.methodName)
                    then None
                    else bodies.unmarshal(request.value.methodName, bmsg.payload)
  {
    var request := bmsg.Value().meta.request;
    var methodName := if request.None? then "" else request.value.methodName;
    if methodName == "" || !bodies.registered(methodName) { return null, None; }
    zmsg := bodies.unmarshal(methodName, bmsg.payload);
    if zmsg.None? { return null, None; }
    cntl := new ZRpcController.Of(bmsg.meta, bmsg.attachment);
  }

  // ------------------------------------------------------- runs over several controllers and messages

  /** A controller or a message, with the number of its meta record. */
  datatype Ctl = Ctl(meta: nat, attachment: seq<byte>)
  datatype Msg = Msg(meta: nat, payload: seq<byte>, attachment: seq<byte>)

  datatype World = World(metas: seq<Meta>, ctls: seq<Ctl>, msgs: seq<Msg>)

  /** Set stands for all the setters, SetAttachmentSize included: `edited` is the meta afterwards. */
  datatype Op =
    | New
    | Clone(c: nat)
    | Set(c: nat, edited: Meta)
    | SetAttachment(c: nat, b: seq<byte>)
    | MoveAttachment(c: nat)
    | Make(c: nat, payload: seq<byte>)
    | Encode(m: nat)
    | Receive(message: Message)
    | Split(m: nat)

  predicate WellFormed(w: World) {
    && (forall i | 0 <= i < |w.ctls| :: w.ctls[i].meta < |w.metas|)
    && (forall i | 0 <= i < |w.msgs| :: w.msgs[i].meta < |w.metas|)
  }

  /** The operation names things that exist. */
  predicate Enabled(w: World, op: Op)
    requires WellFormed(w)
  {
    match op
    case New => true
    case Clone(c) => c < |w.ctls|
    case Set(c, _) => c < |w.ctls|
    case SetAttachment(c, _) => c < |w.ctls|
    case MoveAttachment(c) => c < |w.ctls|
    case Make(c, _) => c < |w.ctls|
    case Encode(m) => m < |w.msgs|
    case Receive(_) => true
    case Split(m) => m < |w.msgs|
  }

  function WithSize(metas: seq<Meta>, i: nat, size: int32): seq<Meta>
    requires i < |metas|
  {
    metas[i := metas[i].(attachmentSize := size)]
  }

  function Apply(w: World, op: Op): (w': World)
    requires WellFormed(w) && Enabled(w, op)
    ensures WellFormed(w')
  {
    match op
    case New => World(w.metas + [EMPTY_META], w.ctls + [Ctl(|w.metas|, [])], w.msgs)
    case Clone(c) =>
      World(w.metas + [w.metas[w.ctls[c].meta]], w.ctls + [Ctl(|w.metas|, w.ctls[c].attachment)], w.msgs)
    case Set(c, edited) => w.(metas := w.metas[w.ctls[c].meta := edited])
    case SetAttachment(c, b) =>
      World(WithSize(w.metas, w.ctls[c].meta, ToInt32(|b|)), w.ctls[c := w.ctls[c].(attachment := b)], w.msgs)
    case MoveAttachment(c) =>
      World(WithSize(w.metas, w.ctls[c].meta, 0), w.ctls[c := w.ctls[c].(attachment := [])], w.msgs)
    case Make(c, payload) => w.(msgs := w.msgs + [Msg(w.ctls[c].meta, payload, w.ctls[c].attachment)])
    case Encode(m) =>
      var stamped := Stamped(Message(w.metas[w.msgs[m].meta], w.msgs[m].payload, w.msgs[m].attachment));
      w.(metas := w.metas[w.msgs[m].meta := stamped.meta])
    case Receive(message) =>
      World(w.metas + [message.meta], w.ctls, w.msgs + [Msg(|w.metas|, message.payload, message.attachment)])
    case Split(m) => w.(ctls := w.ctls + [Ctl(w.msgs[m].meta, w.msgs[m].attachment)])
  }

  predicate CtlInSync(w: World, i: nat)
    requires WellFormed(w) && i < |w.ctls|
  {
    w.metas[w.ctls[i].meta].attachmentSize == ToInt32(|w.ctls[i].attachment|)
  }

  /** Every controller is in step, and no two share a meta record. */
  predicate AllInSync(w: World)
    requires WellFormed(w)
  {
    && (forall i | 0 <= i < |w.ctls| :: CtlInSync(w, i))
    && (forall i, j | 0 <= i < j < |w.ctls| :: w.ctls[i].meta != w.ctls[j].meta)
  }

  /**
   * Three operations can do harm: setting the size to something else than that of the attachment,
   * encoding a message with an attachment after its controller's was changed, and splitting a message
   * whose meta already has a controller, or does not fit its attachment.
   */
  predicate Harmless(w: World, op: Op)
    requires WellFormed(w) && Enabled(w, op)
  {
    match op
    case Set(c, edited) => edited.attachmentSize == ToInt32(|w.ctls[c].attachment|)
    case Encode(m) =>
      w.msgs[m].attachment == [] ||
      forall i | 0 <= i < |w.ctls| && w.ctls[i].meta == w.msgs[m].meta ::
        ToInt32(|w.msgs[m].attachment|) == ToInt32(|w.ctls[i].attachment|)
    case Split(m) =>
      && (forall i | 0 <= i < |w.ctls| :: w.ctls[i].meta != w.msgs[m].meta)
      && w.metas[w.msgs[m].meta].attachmentSize == ToInt32(|w.msgs[m].attachment|)
    case _ => true
  }

  lemma EncodeKeepsSync(w: World, m: nat)
    requires WellFormed(w) && Enabled(w, Encode(m)) && AllInSync(w)
    ensures AllInSync(Apply(w, Encode(m))) <==> Harmless(w, Encode(m))
  {
    hide ToInt32;
    var w' := Apply(w, Encode(m));
    if Harmless(w, Encode(m)) {
      forall i | 0 <= i < |w'.ctls|
        ensures CtlInSync(w', i)
      {
        assert CtlInSync(w, i);
      }
    } else {
      var i :| 0 <= i < |w.ctls| && w.ctls[i].meta == w.msgs[m].meta
               && ToInt32(|w.msgs[m].attachment|) != ToInt32(|w.ctls[i].attachment|);
      assert !CtlInSync(w', i);
    }
  }

  lemma SplitKeepsSync(w: World, m: nat)
    requires WellFormed(w) && Enabled(w, Split(m)) && AllInSync(w)
    ensures AllInSync(Apply(w, Split(m))) <==> Harmless(w, Split(m))
  {
    hide ToInt32;
    var w', n := Apply(w, Split(m)), |w.ctls|;
    assert forall i | 0 <= i < n :: w'.ctls[i] == w.ctls[i] && CtlInSync(w', i) == CtlInSync(w, i);
    assert w'.ctls[n].meta == w.msgs[m].meta;
    assert CtlInSync(w', n) == (w.metas[w.msgs[m].meta].attachmentSize == ToInt32(|w.msgs[m].attachment|));
    if AllInSync(w') {
      assert forall i | 0 <= i < n :: w'.ctls[i].meta != w'.ctls[n].meta;
    }
  }

  /** An operation keeps every controller in step exactly when it is harmless. */
  lemma StepKeepsSync(w: World, op: Op)
    requires WellFormed(w) && Enabled(w, op) && AllInSync(w)
    ensures AllInSync(Apply(w, op)) <==> Harmless(w, op)
  {
    assert ToInt32(0) == 0;
    hide ToInt32;
    if op.Encode? {
      EncodeKeepsSync(w, op.m);
    } else if op.Split? {
      SplitKeepsSync(w, op.m);
    } else {
      var w' := Apply(w, op);
      if op.Set? { assert CtlInSync(w', op.c) == Harmless(w, op); }
      forall i | 0 <= i < |w'.ctls| && Harmless(w, op)
        ensures CtlInSync(w', i)
      {
        if i < |w.ctls| { assert CtlInSync(w, i); }
        if op.Clone? { assert CtlInSync(w, op.c); }
      }
    }
  }

  /** The worlds a run goes through. */
  predicate Run(ws: seq<World>, ops: seq<Op>) {
    && |ws| == |ops| + 1
    && ws[0] == World([], [], [])
    && forall i | 0 <= i < |ops| ::
         WellFormed(ws[i]) && Enabled(ws[i], ops[i]) && ws[i + 1] == Apply(ws[i], ops[i])
  }

  /** After any run of harmless operations, every controller is in step. */
  lemma {:induction false} RunKeepsSync(ws: seq<World>, ops: seq<Op>)
    requires Run(ws, ops)
    requires forall i | 0 <= i < |ops| :: Harmless(ws[i], ops[i])
    ensures WellFormed(ws[|ops|]) && AllInSync(ws[|ops|])
  {
    if ops == [] {
    } else {
      var n := |ops| - 1;
      var ws', ops' := ws[..n + 1], ops[..n];
      assert forall i | 0 <= i < n :: ws'[i] == ws[i] && ops'[i] == ops[i];
      RunKeepsSync(ws', ops');
      StepKeepsSync(ws[n], ops[n]);
    }
  }

  /**
   * What a controller in step sends arrives: the message made from it, encoded, decodes to the same
   * meta, payload and attachment, if it can be serialised and is within the limits.
   */
  lemma ControllerRoundTrip(pr: Proto, all: bool, w: World, c: nat, payload: seq<byte>, x: seq<byte>)
    requires RoundTrips(pr) && WellFormed(w) && AllInSync(w) && c < |w.ctls|
    requires var m := Message(w.metas[w.ctls[c].meta], payload, w.ctls[c].attachment);
             && MetaData(pr, m).Some? && TotalSize(pr, m) <= MAX_BODY
             && (all ==> payload + m.attachment != [] && MetaData(pr, m).value != [])
    ensures var m := Message(w.metas[w.ctls[c].meta], payload, w.ctls[c].attachment);
            DecodeFrame(pr, all, Encoded(pr, m) + x) == (Decoded(m), x)
  {
    var m := Message(w.metas[w.ctls[c].meta], payload, w.ctls[c].attachment);
    assert CtlInSync(w, c);
    FrameReturns(pr, all, m, x);
  }

  /** Encoding a message after its controller lost the attachment leaves that controller out of step. */
  lemma LateEncodeDesyncs(b: byte, payload: seq<byte>)
    ensures var w := Apply(Apply(Apply(Apply(World([], [], []), New), SetAttachment(0, [b])), Make(0, payload)),
                           MoveAttachment(0));
            AllInSync(w) && !CtlInSync(Apply(w, Encode(0)), 0)
  {
  }
}
