/**
 * pkg/deduplication/redis_duplicate_messag.go: many callers ask a shared, timed store whether a message
 * is a duplicate.  INCR and EXPIRE are separate commands, any number of callers may be between them,
 * and each command may fail, before or after it took effect.
 */
module Deduplication {
  import opened Go
  import opened DedupKeys

  /** expireTimeout, in milliseconds. */
  const TTL := 60_000

  datatype Value = Num(n: int) | Text(data: seq<byte>)
  datatype Entry = Entry(value: Value, expiresAt: Option<nat>)
  type Store = map<string, Entry>

  /** What a caller gets to know of a command: its reply, or an error, with or without its effect. */
  datatype Reply = Done | ReplyLost | NotDone

  predicate Live(store: Store, k: string, now: nat) {
    k in store && (store[k].expiresAt.None? || now < store[k].expiresAt.value)
  }

  // ---------------------------------------------------------------- the commands

  /** INCR: a missing or expired key counts from zero, without an expiry; a text is an error. */
  function Incr(store: Store, k: string, now: nat): Option<(Store, int)> {
    if !Live(store, k, now) then Some((store[k := Entry(Num(1), None)], 1))
    else
      match store[k].value
      case Num(n) => Some((store[k := Entry(Num(n + 1), store[k].expiresAt)], n + 1))
      case Text(_) => None
  }

  /** EXPIRE: a missing key is left alone. */
  function Expire(store: Store, k: string, now: nat): Store {
    if Live(store, k, now) then store[k := Entry(store[k].value, Some(now + TTL))] else store
  }

  function Setex(store: Store, k: string, data: seq<byte>, now: nat): Store {
    store[k := Entry(Text(data), Some(now + TTL))]
  }

  /** GET: empty if there is nothing. */
  function Get(store: Store, k: string, now: nat): seq<byte> {
    if Live(store, k, now) && store[k].value.Text? then store[k].value.data else []
  }

  // ---------------------------------------------------------------- one caller at a time

  /** Serialisation of the cached updates; the error of serialising is ignored. */
  datatype Codec<!U> = Codec(marshal: U -> Option<seq<byte>>, unmarshal: seq<byte> -> Option<U>) {
    function Data(u: U): seq<byte> {
      if marshal(u).Some? then marshal(u).value else []
    }
  }

  /** Nothing is the nil result without an error; the last two are the errors. */
  datatype Lookup<+U> = Found(value: U) | Nothing | ParseFailed | StoreFailed

  function Cached<U>(codec: Codec<U>, store: Store, sender: int64, id: int64, now: nat): Lookup<U> {
    var cacheData := Get(store, Key(DUPLICATE_MESSAGE_DATA, sender, id), now);
    if cacheData == [] then Nothing
    else if codec.unmarshal(cacheData).None? then ParseFailed
    else Found(codec.unmarshal(cacheData).value)
  }

  class MessageDeDuplicate {
    var now: nat
    var store: Store

    constructor ()
      ensures now == 0 && store == map[]
    {
      now, store := 0, map[];
    }

    /** `between` is how long the caller takes from INCR to EXPIRE; nobody else acts meanwhile. */
    method HasDuplicateMessage(senderUserId: int64, deDuplicateId: int64, incr: Reply, between: nat, expire: Reply)
      returns (duplicate: bool, failed: bool)
      modifies this
      ensures var k := Key(DUPLICATE_MESSAGE_ID, senderUserId, deDuplicateId);
              var counted := Incr(old(store), k, old(now));
              if incr == NotDone || counted.None? then
                failed && !duplicate && now == old(now) && store == old(store)
              else if incr == ReplyLost then
                failed && !duplicate && now == old(now) && store == counted.value.0
              else
                && now == old(now) + between
                && store == (if expire == NotDone then counted.value.0 else Expire(counted.value.0, k, now))
                && failed == (expire != Done)
                && duplicate == (!failed && counted.value.1 > 1)
    {
      var k := Key(DUPLICATE_MESSAGE_ID, senderUserId, deDuplicateId);
      if incr == NotDone { return false, true; }
      var counted := Incr(store, k, now);
      if counted.None? { return false, true; }
      store := counted.value.0;
      if incr == ReplyLost { return false, true; }
      var seq1 := counted.value.1;
      now := now + between;
      if expire != NotDone { store := Expire(store, k, now); }
      if expire != Done { return false, true; }
      return seq1 > 1, false;
    }

    method PutDuplicateMessage<U>(codec: Codec<U>, senderUserId: int64, deDuplicateId: int64, upd: U, setex: Reply)
      returns (failed: bool)
      modifies this`store
      ensures failed == (setex != Done)
      ensures store == if setex == NotDone then old(store)
                       else Setex(old(store), Key(DUPLICATE_MESSAGE_DATA, senderUserId, deDuplicateId),
                                  codec.Data(upd), now)
    {
      var k := Key(DUPLICATE_MESSAGE_DATA, senderUserId, deDuplicateId);
      var cacheData := codec.Data(upd);
      if setex != NotDone { store := Setex(store, k, cacheData, now); }
      return setex != Done;
    }

    method GetDuplicateMessage<U>(codec: Codec<U>, senderUserId: int64, clientRandomId: int64, getFails: bool)
      returns (r: Lookup<U>)
      ensures r == if getFails then StoreFailed else Cached(codec, store, senderUserId, clientRandomId, now)
    {
      var k := Key(DUPLICATE_MESSAGE_DATA, senderUserId, clientRandomId);
      if getFails { return StoreFailed; }
      var cacheData := Get(store, k, now);
      if cacheData == [] { return Nothing; }
      var rUpdates := codec.unmarshal(cacheData);
      if rUpdates.None? { return ParseFailed; }
      return Found(rUpdates.value);
    }
  }

  // ---------------------------------------------------------------- many callers at once

  /** A message is named by its sender and the sender's random number. */
  type MessageId = (int64, int64)

  function IdKey(m: MessageId): string { Key(DUPLICATE_MESSAGE_ID, m.0, m.1) }
  function DataKey(m: MessageId): string { Key(DUPLICATE_MESSAGE_DATA, m.0, m.1) }

  /** How far a call of HasDuplicateMessage is; `seq1` is what INCR returned, at time `at`. */
  datatype Caller =
    | Counted(m: MessageId, seq1: int, at: nat)
    | Told(m: MessageId, seq1: int, at: nat, duplicate: bool)
    | FailedAfter(m: MessageId, seq1: int, at: nat)
    | FailedBefore

  /** `puts` remembers the last value stored for each message, and when. */
  datatype State<U> = State(now: nat, store: Store, callers: map<nat, Caller>, puts: map<MessageId, (U, nat)>)

  datatype Step<U> =
    | Tick(d: nat)
    | Count(c: nat, m: MessageId, reply: Reply)
    | SetExpiry(c: nat, reply: Reply)
    | Put(m: MessageId, u: U, reply: Reply)

  predicate Enabled<U>(s: State<U>, step: Step<U>) {
    match step
    case Count(c, _, _) => c !in s.callers
    case SetExpiry(c, _) => c in s.callers && s.callers[c].Counted?
    case _ => true
  }

  function Apply<U>(codec: Codec<U>, s: State<U>, step: Step<U>): State<U>
    requires Enabled(s, step)
  {
    match step
    case Tick(d) => s.(now := s.now + d)
    case Count(c, m, reply) =>
      var counted := Incr(s.store, IdKey(m), s.now);
      if reply == NotDone || counted.None? then s.(callers := s.callers[c := FailedBefore])
      else
        var (store, n) := counted.value;
        s.(store := store,
           callers := s.callers[c := if reply == Done then Counted(m, n, s.now) else FailedAfter(m, n, s.now)])
    case SetExpiry(c, reply) =>
      var w := s.callers[c];
      s.(store := if reply == NotDone then s.store else Expire(s.store, IdKey(w.m), s.now),
         callers := s.callers[c := if reply == Done then Told(w.m, w.seq1, w.at, w.seq1 > 1)
                                   else FailedAfter(w.m, w.seq1, w.at)])
    case Put(m, u, reply) =>
      if reply == NotDone then s
      else s.(store := Setex(s.store, DataKey(m), codec.Data(u), s.now), puts := s.puts[m := (u, s.now)])
  }

  /** This call's INCR took effect and returned 1. */
  predicate CountedFirst(w: Caller) {
    !w.FailedBefore? && w.seq1 == 1
  }

  // ---------------------------------------------------------------- the invariant

  /** The key cannot start over before a whole window after `t` has passed. */
  predicate Guarded(now: nat, store: Store, k: string, t: nat) {
    && t <= now
    && (now >= t + TTL
        || (k in store && (store[k].expiresAt.None? || store[k].expiresAt.value >= t + TTL)))
  }

  predicate Spaced(w: Caller, v: Caller) {
    CountedFirst(w) && CountedFirst(v) && w.m == v.m ==> w.at + TTL <= v.at || v.at + TTL <= w.at
  }

  ghost predicate CountersOk(store: Store) {
    forall m: MessageId | IdKey(m) in store :: store[IdKey(m)].value.Num? && store[IdKey(m)].value.n >= 1
  }

  ghost predicate DataOk<U>(codec: Codec<U>, store: Store, puts: map<MessageId, (U, nat)>) {
    forall m: MessageId ::
      if m in puts then
        DataKey(m) in store && store[DataKey(m)] == Entry(Text(codec.Data(puts[m].0)), Some(puts[m].1 + TTL))
      else DataKey(m) !in store
  }

  ghost predicate CallersOk<U>(s: State<U>) {
    && (forall c | c in s.callers && !s.callers[c].FailedBefore? :: s.callers[c].seq1 >= 1)
    && (forall c | c in s.callers && s.callers[c].Told? :: s.callers[c].duplicate == (s.callers[c].seq1 > 1))
    && (forall c | c in s.callers && CountedFirst(s.callers[c]) ::
          Guarded(s.now, s.store, IdKey(s.callers[c].m), s.callers[c].at))
    && (forall c, e | c in s.callers && e in s.callers && c != e :: Spaced(s.callers[c], s.callers[e]))
  }

  ghost predicate Inv<U>(codec: Codec<U>, s: State<U>) {
    CountersOk(s.store) && DataOk(codec, s.store, s.puts) && CallersOk(s)
  }

  function Init<U>(): State<U> { State(0, map[], map[], map[]) }

  lemma IdKeysDiffer(m: MessageId, m': MessageId)
    ensures IdKey(m) == IdKey(m') <==> m == m'
  {
    if IdKey(m) == IdKey(m') { KeyInjective(DUPLICATE_MESSAGE_ID, m.0, m.1, m'.0, m'.1); }
  }

  lemma DataKeysDiffer(m: MessageId, m': MessageId)
    ensures DataKey(m) == DataKey(m') <==> m == m'
  {
    if DataKey(m) == DataKey(m') { KeyInjective(DUPLICATE_MESSAGE_DATA, m.0, m.1, m'.0, m'.1); }
  }

  lemma CountersStay(store: Store, store': Store, m: MessageId)
    requires CountersOk(store) && store'.Keys <= store.Keys + {IdKey(m)}
    requires forall k | k in store && k != IdKey(m) :: k in store' && store'[k] == store[k]
    requires IdKey(m) in store' ==> store'[IdKey(m)].value.Num? && store'[IdKey(m)].value.n >= 1
    ensures CountersOk(store')
  {
    forall x: MessageId | IdKey(x) in store'
      ensures store'[IdKey(x)].value.Num? && store'[IdKey(x)].value.n >= 1
    {
      IdKeysDiffer(x, m);
    }
  }

  lemma DataStays<U>(codec: Codec<U>, store: Store, store': Store, puts: map<MessageId, (U, nat)>, m: MessageId)
    requires DataOk(codec, store, puts) && store'.Keys <= store.Keys + {IdKey(m)}
    requires forall k | k in store && k != IdKey(m) :: k in store' && store'[k] == store[k]
    ensures DataOk(codec, store', puts)
  {
    forall x: MessageId
      ensures if x in puts then
                DataKey(x) in store' && store'[DataKey(x)] == Entry(Text(codec.Data(puts[x].0)), Some(puts[x].1 + TTL))
              else DataKey(x) !in store'
    {
      PrefixesDisjoint(m.0, m.1, x.0, x.1);
    }
  }

  /** A guard survives whatever happens to its key later. */
  lemma GuardStays(now: nat, store: Store, now': nat, store': Store, k: string, t: nat)
    requires Guarded(now, store, k, t) && now <= now'
    requires k in store && Live(store, k, now) ==>
               k in store' && (store'[k].expiresAt == store[k].expiresAt || store'[k].expiresAt == Some(now + TTL))
    ensures Guarded(now', store', k, t)
  {
  }

  /** Replacing one caller, on a store that keeps every guard. */
  lemma CallersStay<U>(s: State<U>, s': State<U>, c: nat, w: Caller)
    requires CallersOk(s) && s'.callers == s.callers[c := w]
    requires forall m: MessageId, t: nat | Guarded(s.now, s.store, IdKey(m), t) ::
               Guarded(s'.now, s'.store, IdKey(m), t)
    requires !w.FailedBefore? ==> w.seq1 >= 1
    requires w.Told? ==> w.duplicate == (w.seq1 > 1)
    requires CountedFirst(w) ==> Guarded(s'.now, s'.store, IdKey(w.m), w.at)
    requires forall e | e in s.callers && e != c :: Spaced(w, s.callers[e])
    ensures CallersOk(s')
  {
  }

  lemma CountKeepsInv<U>(codec: Codec<U>, s: State<U>, c: nat, m: MessageId, reply: Reply)
    requires Inv(codec, s) && Enabled(s, Step<U>.Count(c, m, reply))
    ensures Inv(codec, Apply(codec, s, Step<U>.Count(c, m, reply)))
  {
    var s' := Apply(codec, s, Step<U>.Count(c, m, reply));
    var k := IdKey(m);
    var w := s'.callers[c];
    hide IdKey;
    forall x: MessageId, t: nat | Guarded(s.now, s.store, IdKey(x), t)
      ensures Guarded(s'.now, s'.store, IdKey(x), t)
    {
      GuardStays(s.now, s.store, s'.now, s'.store, IdKey(x), t);
    }
    forall e | e in s.callers && e != c
      ensures Spaced(w, s.callers[e])
    {
      var v := s.callers[e];
      if CountedFirst(w) && CountedFirst(v) && w.m == v.m {
        assert Guarded(s.now, s.store, k, v.at);
        assert !Live(s.store, k, s.now);
      }
    }
    CountersStay(s.store, s'.store, m);
    DataStays(codec, s.store, s'.store, s.puts, m);
    CallersStay(s, s', c, w);
  }

  lemma ExpiryKeepsInv<U>(codec: Codec<U>, s: State<U>, c: nat, reply: Reply)
    requires Inv(codec, s) && Enabled(s, Step<U>.SetExpiry(c, reply))
    ensures Inv(codec, Apply(codec, s, Step<U>.SetExpiry(c, reply)))
  {
    var s' := Apply(codec, s, Step<U>.SetExpiry(c, reply));
    var v, w := s.callers[c], s'.callers[c];
    hide IdKey;
    forall x: MessageId, t: nat | Guarded(s.now, s.store, IdKey(x), t)
      ensures Guarded(s'.now, s'.store, IdKey(x), t)
    {
      GuardStays(s.now, s.store, s'.now, s'.store, IdKey(x), t);
    }
    forall e | e in s.callers && e != c
      ensures Spaced(w, s.callers[e])
    {
      assert Spaced(v, s.callers[e]);
    }
    CountersStay(s.store, s'.store, v.m);
    DataStays(codec, s.store, s'.store, s.puts, v.m);
    CallersStay(s, s', c, w);
  }

  lemma PutKeepsData<U>(codec: Codec<U>, store: Store, puts: map<MessageId, (U, nat)>, m: MessageId, u: U, now: nat)
    requires DataOk(codec, store, puts)
    ensures DataOk(codec, Setex(store, DataKey(m), codec.Data(u), now), puts[m := (u, now)])
  {
    forall x: MessageId
      ensures DataKey(x) == DataKey(m) <==> x == m
    {
      DataKeysDiffer(x, m);
    }
    hide DataKey;
    assert DataOk(codec, store, puts);
  }

  lemma PutKeepsInv<U>(codec: Codec<U>, s: State<U>, m: MessageId, u: U)
    requires Inv(codec, s)
    ensures Inv(codec, s.(store := Setex(s.store, DataKey(m), codec.Data(u), s.now), puts := s.puts[m := (u, s.now)]))
  {
    var s' := s.(store := Setex(s.store, DataKey(m), codec.Data(u), s.now), puts := s.puts[m := (u, s.now)]);
    forall x: MessageId
      ensures IdKey(x) != DataKey(m)
    {
      PrefixesDisjoint(x.0, x.1, m.0, m.1);
    }
    PutKeepsData(codec, s.store, s.puts, m, u, s.now);
    hide IdKey;
    hide DataKey;
    hide DataOk;
    assert CountersOk(s'.store);
    assert CallersOk(s');
  }

  lemma StepKeepsInv<U>(codec: Codec<U>, s: State<U>, step: Step<U>)
    requires Inv(codec, s) && Enabled(s, step)
    ensures Inv(codec, Apply(codec, s, step))
  {
    match step
    case Tick(d) =>
    case Count(c, m, reply) => CountKeepsInv(codec, s, c, m, reply);
    case SetExpiry(c, reply) => ExpiryKeepsInv(codec, s, c, reply);
    case Put(m, u, reply) => if reply != NotDone { PutKeepsInv(codec, s, m, u); }
  }

  /** The state after a list of steps, if each was possible. */
  function After<U>(codec: Codec<U>, steps: seq<Step<U>>): Option<State<U>> {
    if steps == [] then Some(Init())
    else
      var before := After(codec, steps[..|steps| - 1]);
      var last := steps[|steps| - 1];
      if before.Some? && Enabled(before.value, last) then Some(Apply(codec, before.value, last)) else None
  }

  lemma InitHolds<U>(codec: Codec<U>)
    ensures Inv(codec, Init<U>())
  {
  }

  lemma {:induction false} AfterHolds<U>(codec: Codec<U>, steps: seq<Step<U>>)
    requires After(codec, steps).Some?
    ensures Inv(codec, After(codec, steps).value)
  {
    hide Apply;
    hide Inv;
    if steps == [] {
      InitHolds(codec);
    } else {
      AfterHolds(codec, steps[..|steps| - 1]);
      StepKeepsInv(codec, After(codec, steps[..|steps| - 1]).value, steps[|steps| - 1]);
    }
  }

  // ---------------------------------------------------------------- what callers can rely on

  /**
   * In every run, two INCRs for one message that both returned 1 are at least 60 seconds apart,
   * whatever became of the callers and of their EXPIREs.
   */
  lemma FirstsAreSpaced<U>(codec: Codec<U>, steps: seq<Step<U>>, c: nat, e: nat)
    requires After(codec, steps).Some?
    requires var callers := After(codec, steps).value.callers;
             && c in callers && e in callers && c != e
             && CountedFirst(callers[c]) && CountedFirst(callers[e]) && callers[c].m == callers[e].m
    ensures var callers := After(codec, steps).value.callers;
            callers[c].at + 60_000 <= callers[e].at || callers[e].at + 60_000 <= callers[c].at
  {
    AfterHolds(codec, steps);
    var callers := After(codec, steps).value.callers;
    assert Spaced(callers[c], callers[e]);
  }

  /** So in any 60 seconds at most one call is told, without error, that a message is no duplicate. */
  lemma OneWinnerPerWindow<U>(codec: Codec<U>, steps: seq<Step<U>>, c: nat, e: nat)
    requires After(codec, steps).Some?
    requires var callers := After(codec, steps).value.callers;
             && c in callers && e in callers && callers[c].Told? && callers[e].Told?
             && !callers[c].duplicate && !callers[e].duplicate && callers[c].m == callers[e].m
             && callers[c].at <= callers[e].at < callers[c].at + 60_000
    ensures c == e
  {
    AfterHolds(codec, steps);
    if c != e { FirstsAreSpaced(codec, steps, c, e); }
  }

  ghost predicate CodecRoundTrips<U(!new)>(codec: Codec<U>) {
    forall u: U :: codec.marshal(u).Some? ==> codec.unmarshal(codec.marshal(u).value) == Some(u)
  }

  /**
   * In every run, GetDuplicateMessage returns a value exactly when one was put for this very message
   * within the last 60 seconds and serialises to something; and then it is the one put last.
   */
  lemma GetReturnsLatestPut<U(!new)>(codec: Codec<U>, steps: seq<Step<U>>, m: MessageId)
    requires CodecRoundTrips(codec) && After(codec, steps).Some?
    ensures var s := After(codec, steps).value;
            var r := Cached(codec, s.store, m.0, m.1, s.now);
            if m in s.puts && s.now < s.puts[m].1 + 60_000 && codec.marshal(s.puts[m].0).Some?
               && codec.marshal(s.puts[m].0).value != []
            then r == Found(s.puts[m].0)
            else r == Nothing
  {
    AfterHolds(codec, steps);
    var s := After(codec, steps).value;
    assert DataOk(codec, s.store, s.puts);
    assert DataKey(m) == Key(DUPLICATE_MESSAGE_DATA, m.0, m.1);
  }
}
