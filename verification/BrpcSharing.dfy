/**
 * Controllers and messages as objects that share meta records, stepping together with the World of
 * BrpcController: whatever a method does to the objects is what Apply does to the World.
 */
module BrpcSharing {
  import opened Go
  import opened BrpcFrame
  import opened BrpcStream
  import opened BrpcCodec
  import opened BrpcController

  /** All the meta records, controllers and messages in play. */
  datatype Heap = Heap(metas: seq<RpcMeta>, ctls: seq<ZRpcController>, msgs: seq<BaiduRpcMessage>)

  ghost predicate Distinct(h: Heap) {
    && (forall i, j | 0 <= i < j < |h.metas| :: h.metas[i] != h.metas[j])
    && (forall i, j | 0 <= i < j < |h.ctls| :: h.ctls[i] != h.ctls[j])
  }

  /** `w` is what the objects hold; a shared record is in it once. */
  ghost predicate Shows(h: Heap, w: World)
    reads h.metas, h.ctls
  {
    && Distinct(h)
    && |w.metas| == |h.metas| && |w.ctls| == |h.ctls| && |w.msgs| == |h.msgs|
    && WellFormed(w)
    && (forall i | 0 <= i < |h.metas| :: w.metas[i] == h.metas[i].value)
    && (forall i | 0 <= i < |h.ctls| ::
          h.ctls[i].meta == h.metas[w.ctls[i].meta] && h.ctls[i].attachment == w.ctls[i].attachment)
    && (forall i | 0 <= i < |h.msgs| ::
          && h.msgs[i].meta == h.metas[w.msgs[i].meta]
          && h.msgs[i].payload == w.msgs[i].payload && h.msgs[i].attachment == w.msgs[i].attachment)
  }

  method StepNew(h: Heap, ghost w: World) returns (h': Heap)
    requires Shows(h, w)
    ensures Shows(h', Apply(w, New))
  {
    var c := new ZRpcController.NewController();
    h' := Heap(h.metas + [c.meta], h.ctls + [c], h.msgs);
  }

  method StepClone(h: Heap, ghost w: World, c: nat) returns (h': Heap)
    requires Shows(h, w) && Enabled(w, Op.Clone(c))
    ensures Shows(h', Apply(w, Op.Clone(c)))
  {
    var k := h.ctls[c].Clone();
    h' := Heap(h.metas + [k.meta], h.ctls + [k], h.msgs);
  }

  datatype Setter =
    | MethodName(name: string)
    | ErrorCode(code: int32)
    | CorrelationId(id: int64)
    | AuthKeyId(key: int64)
    | AttachmentSize(size: int32)

  method StepSet(h: Heap, ghost w: World, c: nat, s: Setter)
    requires Shows(h, w) && c < |h.ctls|
    modifies h.ctls[c], h.ctls[c].meta
    ensures Shows(h, Apply(w, Set(c, h.ctls[c].MetaValue())))
    ensures !s.AttachmentSize? ==> h.ctls[c].MetaValue().attachmentSize == w.metas[w.ctls[c].meta].attachmentSize
    ensures s.AttachmentSize? ==> h.ctls[c].MetaValue().attachmentSize == s.size
  {
    match s
    case MethodName(v) => h.ctls[c].SetMethodName(v);
    case ErrorCode(v) => h.ctls[c].SetErrorCode(v);
    case CorrelationId(v) => h.ctls[c].SetCorrelationId(v);
    case AuthKeyId(v) => h.ctls[c].SetAuthKeyId(v);
    case AttachmentSize(v) => h.ctls[c].SetAttachmentSize(v);
  }

  method StepSetAttachment(h: Heap, ghost w: World, c: nat, b: seq<byte>)
    requires Shows(h, w) && c < |h.ctls|
    modifies h.ctls[c], h.ctls[c].meta
    ensures Shows(h, Apply(w, Op.SetAttachment(c, b)))
  {
    h.ctls[c].SetAttachment(b);
  }

  method StepMoveAttachment(h: Heap, ghost w: World, c: nat) returns (move: seq<byte>)
    requires Shows(h, w) && c < |h.ctls|
    modifies h.ctls[c], h.ctls[c].meta
    ensures Shows(h, Apply(w, Op.MoveAttachment(c))) && move == w.ctls[c].attachment
  {
    move := h.ctls[c].MoveAttachment();
  }

  method StepMake<Z>(h: Heap, ghost w: World, bodies: Bodies<Z>, c: nat, zmsg: Z) returns (h': Heap)
    requires Shows(h, w) && c < |h.ctls|
    ensures Shows(h', Apply(w, Make(c, if bodies.marshal(zmsg).Some? then bodies.marshal(zmsg).value else [])))
  {
    var m := MakeBaiduRpcMessage(bodies, h.ctls[c], zmsg);
    h' := h.(msgs := h.msgs + [m]);
  }

  method StepEncode(h: Heap, ghost w: World, pr: Proto, m: nat) returns (r: Outcome<Option<seq<seq<byte>>>>)
    requires Shows(h, w) && m < |h.msgs|
    modifies h.msgs[m].meta
    ensures Shows(h, Apply(w, Encode(m)))
    ensures var v := Message(w.metas[w.msgs[m].meta], w.msgs[m].payload, w.msgs[m].attachment);
            && r.Returns? && (r.value.Some? <==> MetaData(pr, v).Some?)
            && (r.value.Some? ==> Concat(r.value.value) == Encoded(pr, v))
  {
    r := h.msgs[m].Encode(pr);
  }

  /** Decode makes a message with a meta of its own. */
  method StepReceive(h: Heap, ghost w: World, message: Message) returns (h': Heap)
    requires Shows(h, w)
    ensures Shows(h', Apply(w, Op.Receive(message)))
  {
    var meta := new RpcMeta(message.meta);
    var m := new BaiduRpcMessage(meta, message.payload, message.attachment);
    h' := h.(metas := h.metas + [meta], msgs := h.msgs + [m]);
  }

  method StepSplit<Z>(h: Heap, ghost w: World, bodies: Bodies<Z>, m: nat) returns (h': Heap, split: bool)
    requires Shows(h, w) && m < |h.msgs|
    ensures Shows(h', if split then Apply(w, Op.Split(m)) else w)
  {
    var cntl, zmsg := SplitBaiduRpcMessage(bodies, h.msgs[m]);
    if cntl == null { return h, false; }
    return h.(ctls := h.ctls + [cntl]), true;
  }
}
