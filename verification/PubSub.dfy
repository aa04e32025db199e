/**
 * pkg/pubsub/pussub.go under concurrency.  Threads subscribe, unsubscribe, publish and receive in
 * interleaved steps; `lock` is a read/write lock, and every channel buffers one token.  The channel
 * list is a Go slice: a length into a backing array that append and removal write in place.
 */
module PubSub {
  import opened Go

  type Chan = nat
  type Tid = nat

  /** A slice header: which backing array, and how much of it is in use. */
  datatype Slice = Slice(arr: nat, len: nat)

  /** A channel: tokens buffered, whether it was closed, and how many tokens went in and out so far. */
  datatype ChanState = ChanState(buf: nat, closed: bool, sent: nat, received: nat)

  /** Where a thread is.  A publisher holds the slice it ranges over; `listed` is what that held at first. */
  datatype PC =
    | Idle
    | Subscribing
    | Subscribed(c: Chan)
    | Unsubscribing(c: Chan)
    | Closing(c: Chan)
    | Unsubscribed
    | Publishing(view: Slice, listed: seq<Chan>, done: seq<Chan>)

  datatype State = State(arrays: seq<seq<Chan>>, channels: Slice, chans: seq<ChanState>,
                         writer: Option<Tid>, readers: set<Tid>, pcs: map<Tid, PC>, panicked: bool)

  function Pc(s: State, t: Tid): PC { if t in s.pcs then s.pcs[t] else Idle }

  /** NewPubSub: an empty list on an array without room. */
  const INIT := State([[]], Slice(0, 0), [], None, {}, map[], false)

  // ---------------------------------------------------------------- the slice operations

  /** `append(p.channels, c)`: in place if there is room, else on a new array with `room` to spare. */
  function Append(arrays: seq<seq<Chan>>, sl: Slice, c: Chan, room: nat): (r: (seq<seq<Chan>>, Slice))
    requires sl.arr < |arrays| && sl.len <= |arrays[sl.arr]|
    ensures r.1.arr < |r.0| && r.1.len == sl.len + 1 <= |r.0[r.1.arr]|
    ensures r.0[r.1.arr][..sl.len + 1] == arrays[sl.arr][..sl.len] + [c]
  {
    var a: seq<Chan> := arrays[sl.arr];
    if sl.len < |a| then (arrays[sl.arr := a[sl.len := c]], Slice(sl.arr, sl.len + 1))
    else (arrays + [a[..sl.len] + [c] + seq(room, _ => 0)], Slice(|arrays|, sl.len + 1))
  }

  function IndexOf(list: seq<Chan>, c: Chan): (i: nat)
    ensures i <= |list|
    ensures i < |list| ==> list[i] == c
    ensures c !in list[..i]
  {
    if list == [] || list[0] == c then 0 else 1 + IndexOf(list[1..], c)
  }

  /** `append(p.channels[:i], p.channels[i+1:]...)`: the tail moves down, the last slot keeps its value. */
  function RemoveAt(a: seq<Chan>, len: nat, i: nat): (r: seq<Chan>)
    requires i < len <= |a|
    ensures |r| == |a|
    ensures r[..len - 1] == a[..len][..i] + a[..len][i + 1..]
  {
    a[..i] + a[i + 1..len] + a[len - 1..]
  }

  /** The copy inside that append. */
  method MoveDown(a: array<Chan>, len: nat, i: nat)
    requires i < len <= a.Length
    modifies a
    ensures a[..] == RemoveAt(old(a[..]), len, i)
  {
    ghost var was := a[..];
    for j := i to len - 1
      invariant forall k | i <= k < j :: a[k] == was[k + 1]
      invariant forall k | (0 <= k < i) || (j <= k < a.Length) :: a[k] == was[k]
    {
      a[j] := a[j + 1];
    }
    assert a[..] == RemoveAt(was, len, i);
  }

  lemma {:induction false} IndexOfUnique(list: seq<Chan>, c: Chan, i: nat)
    requires i <= |list| && c !in list[..i] && (i < |list| ==> list[i] == c)
    ensures IndexOf(list, c) == i
  {
    if i == 0 {
    } else {
      assert list[0] in list[..i];
      assert list[1..][..i - 1] == list[..i][1..];
      IndexOfUnique(list[1..], c, i - 1);
    }
  }

  /** The loop of the unsubscribe closure, on the backing array itself. */
  method RemoveInPlace(a: array<Chan>, len: nat, c: Chan) returns (len': nat)
    requires len <= a.Length
    modifies a
    ensures var i := IndexOf(old(a[..len]), c);
            if i < len then len' == len - 1 && a[..] == RemoveAt(old(a[..]), len, i)
            else len' == len && a[..] == old(a[..])
  {
    for i := 0 to len
      invariant c !in a[..i] && a[..] == old(a[..])
    {
      if a[i] == c {
        IndexOfUnique(a[..len], c, i);
        MoveDown(a, len, i);
        return len - 1;
      }
    }
    assert c !in a[..len];
    return len;
  }

  // ---------------------------------------------------------------- steps

  datatype Step =
    | LockSubscribe(t: Tid)
    | Subscribe(t: Tid, room: nat)
    | LockUnsubscribe(t: Tid, c: Chan)
    | Remove(t: Tid)
    | Close(t: Tid)
    | Unlock(t: Tid)
    | RLock(t: Tid)
    | Send(t: Tid)
    | RUnlock(t: Tid)
    | Receive(c: Chan)

  function List(s: State): seq<Chan>
    requires s.channels.arr < |s.arrays| && s.channels.len <= |s.arrays[s.channels.arr]|
  {
    s.arrays[s.channels.arr][..s.channels.len]
  }

  predicate PcWellFormed(s: State, pc: PC) {
    match pc
    case Unsubscribing(c) => c < |s.chans|
    case Closing(c) => c < |s.chans|
    case Publishing(view, listed, done) =>
      && view.arr < |s.arrays| && view.len <= |s.arrays[view.arr]|
      && forall c | c in s.arrays[view.arr][..view.len] :: c < |s.chans|
    case _ => true
  }

  /** What every state has, whatever the steps: slices lie in their arrays, and channels exist. */
  predicate WellFormed(s: State) {
    && s.channels.arr < |s.arrays| && s.channels.len <= |s.arrays[s.channels.arr]|
    && (forall c | c in List(s) :: c < |s.chans|)
    && forall t | t in s.pcs :: PcWellFormed(s, s.pcs[t])
  }

  /** The channel a publisher sends to next. */
  function Target(s: State, pc: PC): (c: Chan)
    requires PcWellFormed(s, pc) && pc.Publishing? && |pc.done| < pc.view.len
    ensures c < |s.chans|
  {
    var seen := s.arrays[pc.view.arr][..pc.view.len];
    assert seen[|pc.done|] in seen;
    seen[|pc.done|]
  }

  predicate Enabled(s: State, step: Step)
    requires WellFormed(s)
  {
    match step
    case LockSubscribe(t) => Pc(s, t).Idle? && s.writer.None? && s.readers == {}
    case Subscribe(t, _) => Pc(s, t).Subscribing?
    case LockUnsubscribe(t, c) => Pc(s, t).Idle? && c < |s.chans| && s.writer.None? && s.readers == {}
    case Remove(t) => Pc(s, t).Unsubscribing?
    case Close(t) => Pc(s, t).Closing?
    case Unlock(t) => Pc(s, t).Subscribed? || Pc(s, t).Unsubscribed?
    case RLock(t) => Pc(s, t).Idle? && s.writer.None?
    case Send(t) =>
      var pc := Pc(s, t);
      pc.Publishing? && |pc.done| < pc.view.len
      && (s.chans[Target(s, pc)].closed || s.chans[Target(s, pc)].buf == 0)
    case RUnlock(t) => Pc(s, t).Publishing? && |Pc(s, t).done| >= Pc(s, t).view.len
    case Receive(c) => c < |s.chans| && s.chans[c].buf > 0
  }

  /** Sending on a closed channel and closing one twice both panic. */
  function Apply(s: State, step: Step): State
    requires WellFormed(s) && Enabled(s, step)
  {
    match step
    case LockSubscribe(t) => s.(writer := Some(t), pcs := s.pcs[t := Subscribing])
    case Subscribe(t, room) =>
      var (arrays, channels) := Append(s.arrays, s.channels, |s.chans|, room);
      s.(arrays := arrays, channels := channels, chans := s.chans + [ChanState(0, false, 0, 0)],
         pcs := s.pcs[t := Subscribed(|s.chans|)])
    case LockUnsubscribe(t, c) => s.(writer := Some(t), pcs := s.pcs[t := Unsubscribing(c)])
    case Remove(t) =>
      var c, i := Pc(s, t).c, IndexOf(List(s), Pc(s, t).c);
      if i == s.channels.len then s.(pcs := s.pcs[t := Unsubscribed])
      else
        s.(arrays := s.arrays[s.channels.arr := RemoveAt(s.arrays[s.channels.arr], s.channels.len, i)],
           channels := s.channels.(len := s.channels.len - 1),
           pcs := s.pcs[t := Closing(c)])
    case Close(t) =>
      var c := Pc(s, t).c;
      s.(chans := s.chans[c := s.chans[c].(closed := true)], pcs := s.pcs[t := Unsubscribed],
         panicked := s.panicked || s.chans[c].closed)
    case Unlock(t) => s.(writer := None, pcs := s.pcs[t := Idle])
    case RLock(t) => s.(readers := s.readers + {t}, pcs := s.pcs[t := Publishing(s.channels, List(s), [])])
    case Send(t) =>
      var pc := Pc(s, t);
      var c := Target(s, pc);
      if s.chans[c].closed then s.(panicked := true)
      else
        s.(chans := s.chans[c := s.chans[c].(buf := 1, sent := s.chans[c].sent + 1)],
           pcs := s.pcs[t := pc.(done := pc.done + [c])])
    case RUnlock(t) => s.(readers := s.readers - {t}, pcs := s.pcs[t := Idle])
    case Receive(c) =>
      s.(chans := s.chans[c := s.chans[c].(buf := s.chans[c].buf - 1, received := s.chans[c].received + 1)])
  }

  // ---------------------------------------------------------------- the invariant

  predicate Distinct(list: seq<Chan>) {
    forall i, j | 0 <= i < j < |list| :: list[i] != list[j]
  }

  /** A thread holds the lock its place in the code says, and what it relies on is so. */
  predicate PcHolds(s: State, t: Tid, pc: PC)
    requires WellFormed(s)
  {
    && (pc.Publishing? <==> t in s.readers)
    && (!pc.Idle? && !pc.Publishing? <==> s.writer == Some(t))
    && match pc
       case Closing(c) => c < |s.chans| && c !in List(s) && !s.chans[c].closed
       case Publishing(view, listed, done) => view == s.channels && listed == List(s) && done <= listed
       case _ => true
  }

  predicate ChanHolds(c: ChanState) {
    c.buf <= 1 && c.sent == c.received + c.buf
  }

  ghost predicate Inv(s: State) {
    && WellFormed(s) && !s.panicked
    && (s.writer.Some? ==> s.readers == {})
    && Distinct(List(s))
    && (forall c | c in List(s) :: !s.chans[c].closed)
    && (forall c | 0 <= c < |s.chans| :: ChanHolds(s.chans[c]))
    && (forall t: Tid :: PcHolds(s, t, Pc(s, t)))
  }

  lemma InitHolds()
    ensures Inv(INIT)
  {
  }

  lemma {:induction false} RemoveKeepsOthers(list: seq<Chan>, i: nat)
    requires Distinct(list) && i < |list|
    ensures var r := list[..i] + list[i + 1..];
            && Distinct(r) && list[i] !in r
            && forall c :: c in r <==> c in list && c != list[i]
  {
    var r := list[..i] + list[i + 1..];
    assert forall k | 0 <= k < |r| :: r[k] == if k < i then list[k] else list[k + 1];
    forall c | c in list && c != list[i]
      ensures c in r
    {
      var k :| 0 <= k < |list| && list[k] == c;
      assert r[if k < i then k else k - 1] == c;
    }
  }

  // ---------------------------------------------------------------- every step keeps it

  /** While the write lock is held nobody publishes, so no slice is in use. */
  lemma WriterIsAlone(s: State, t: Tid)
    requires Inv(s) && !Pc(s, t).Idle? && !Pc(s, t).Publishing?
    ensures forall u: Tid :: !Pc(s, u).Publishing?
  {
    assert PcHolds(s, t, Pc(s, t));
    forall u: Tid
      ensures !Pc(s, u).Publishing?
    {
      assert PcHolds(s, u, Pc(s, u));
    }
  }

  lemma AppendSafe(s: State, t: Tid, room: nat)
    requires Inv(s) && Enabled(s, Subscribe(t, room))
    ensures var s' := Apply(s, Subscribe(t, room));
            && WellFormed(s') && List(s') == List(s) + [|s.chans|]
            && forall u: Tid :: !Pc(s', u).Publishing?
  {
    var s' := Apply(s, Subscribe(t, room));
    WriterIsAlone(s, t);
    assert forall u: Tid :: u != t ==> Pc(s', u) == Pc(s, u);
    assert List(s') == List(s) + [|s.chans|];
    forall u | u in s'.pcs
      ensures PcWellFormed(s', s'.pcs[u])
    {
      if u != t { assert PcHolds(s, u, Pc(s, u)); }
    }
  }

  lemma SubscribeKeepsInv(s: State, t: Tid, room: nat)
    requires Inv(s) && Enabled(s, Subscribe(t, room))
    ensures Inv(Apply(s, Subscribe(t, room)))
  {
    var s' := Apply(s, Subscribe(t, room));
    AppendSafe(s, t, room);
    assert PcHolds(s, t, Pc(s, t));
    assert forall i | 0 <= i < |List(s)| :: List(s)[i] in List(s);
    assert Distinct(List(s) + [|s.chans|]);
    forall u: Tid
      ensures PcHolds(s', u, Pc(s', u))
    {
      assert PcHolds(s, u, Pc(s, u));
    }
  }

  lemma RemoveSafe(s: State, t: Tid)
    requires Inv(s) && Enabled(s, Remove(t)) && IndexOf(List(s), Pc(s, t).c) < s.channels.len
    ensures var s', i := Apply(s, Remove(t)), IndexOf(List(s), Pc(s, t).c);
            && WellFormed(s') && List(s') == List(s)[..i] + List(s)[i + 1..]
            && forall u: Tid :: !Pc(s', u).Publishing?
  {
    var s', i := Apply(s, Remove(t)), IndexOf(List(s), Pc(s, t).c);
    WriterIsAlone(s, t);
    assert forall u: Tid :: u != t ==> Pc(s', u) == Pc(s, u);
    assert List(s') == List(s)[..i] + List(s)[i + 1..];
    RemoveKeepsOthers(List(s), i);
    assert PcHolds(s, t, Pc(s, t));
    forall u | u in s'.pcs
      ensures PcWellFormed(s', s'.pcs[u])
    {
      if u != t { assert PcHolds(s, u, Pc(s, u)); }
    }
  }

  lemma RemoveKeepsInv(s: State, t: Tid)
    requires Inv(s) && Enabled(s, Remove(t))
    ensures Inv(Apply(s, Remove(t)))
  {
    var s', i := Apply(s, Remove(t)), IndexOf(List(s), Pc(s, t).c);
    assert PcHolds(s, t, Pc(s, t));
    if i < s.channels.len {
      RemoveSafe(s, t);
      RemoveKeepsOthers(List(s), i);
    }
    forall u: Tid
      ensures PcHolds(s', u, Pc(s', u))
    {
      assert PcHolds(s, u, Pc(s, u));
    }
  }

  lemma SendKeepsInv(s: State, t: Tid)
    requires Inv(s) && Enabled(s, Send(t))
    ensures Inv(Apply(s, Send(t)))
    ensures var pc := Pc(s, t); Target(s, pc) == pc.listed[|pc.done|] && !s.chans[Target(s, pc)].closed
  {
    var s', pc := Apply(s, Send(t)), Pc(s, t);
    assert PcHolds(s, t, pc);
    var c := Target(s, pc);
    assert c == List(s)[|pc.done|];
    forall u: Tid
      ensures PcHolds(s', u, Pc(s', u))
    {
      assert PcHolds(s, u, Pc(s, u));
    }
  }

  lemma CloseKeepsInv(s: State, t: Tid)
    requires Inv(s) && Enabled(s, Close(t))
    ensures Inv(Apply(s, Close(t)))
  {
    var s' := Apply(s, Close(t));
    assert PcHolds(s, t, Pc(s, t));
    forall u: Tid
      ensures PcHolds(s', u, Pc(s', u))
    {
      assert PcHolds(s, u, Pc(s, u));
    }
  }

  lemma LockingKeepsInv(s: State, step: Step)
    requires Inv(s) && Enabled(s, step)
    requires !step.Subscribe? && !step.Remove? && !step.Send? && !step.Close?
    ensures Inv(Apply(s, step))
  {
    var s' := Apply(s, step);
    forall u: Tid
      ensures PcHolds(s', u, Pc(s', u))
    {
      assert PcHolds(s, u, Pc(s, u));
      if !step.Receive? { assert PcHolds(s, step.t, Pc(s, step.t)); }
    }
  }

  /** Whatever step is taken, by whichever thread, the invariant stays. */
  lemma StepKeepsInv(s: State, step: Step)
    requires Inv(s) && Enabled(s, step)
    ensures Inv(Apply(s, step))
  {
    match step
    case Subscribe(t, room) => SubscribeKeepsInv(s, t, room);
    case Remove(t) => RemoveKeepsInv(s, t);
    case Send(t) => SendKeepsInv(s, t);
    case Close(t) => CloseKeepsInv(s, t);
    case _ => LockingKeepsInv(s, step);
  }

  // ---------------------------------------------------------------- runs

  predicate Follows(s: State, step: Step, s': State) {
    WellFormed(s) && Enabled(s, step) && s' == Apply(s, step)
  }

  ghost predicate Run(states: seq<State>, steps: seq<Step>) {
    && |states| == |steps| + 1 && states[0] == INIT
    && forall i | 0 <= i < |steps| :: Follows(states[i], steps[i], states[i + 1])
  }

  /**
   * In every interleaving: no send hits a closed channel and none is closed twice, the list holds
   * distinct open channels, and every token sent was received or is the one buffered.
   */
  lemma {:induction false} RunIsSafe(states: seq<State>, steps: seq<Step>, i: nat)
    requires Run(states, steps) && i < |states|
    ensures Inv(states[i])
    ensures !states[i].panicked && Distinct(List(states[i]))
    ensures forall c | c in List(states[i]) :: !states[i].chans[c].closed
    ensures forall c | 0 <= c < |states[i].chans| ::
              states[i].chans[c].sent == states[i].chans[c].received + states[i].chans[c].buf
              && states[i].chans[c].buf <= 1
  {
    hide Apply;
    if i == 0 {
      InitHolds();
    } else {
      RunIsSafe(states, steps, i - 1);
      assert Follows(states[i - 1], steps[i - 1], states[i]);
      StepKeepsInv(states[i - 1], steps[i - 1]);
    }
    assert forall c | 0 <= c < |states[i].chans| :: ChanHolds(states[i].chans[c]);
  }

  /** The channels thread `t` sent to between two moments of a run, in order. */
  ghost function SentBy(states: seq<State>, steps: seq<Step>, t: Tid, i: nat, j: nat): seq<Chan>
    requires Run(states, steps) && i <= j <= |steps|
    decreases j
  {
    if i == j then []
    else
      assert Follows(states[j - 1], steps[j - 1], states[j]);
      SentBy(states, steps, t, i, j - 1)
      + if steps[j - 1] == Send(t) then [Target(states[j - 1], Pc(states[j - 1], t))] else []
  }

  lemma PublisherSeesList(s: State, t: Tid)
    requires Inv(s) && Pc(s, t).Publishing?
    ensures Pc(s, t).view == s.channels && Pc(s, t).listed == List(s) && Pc(s, t).done <= List(s)
  {
    assert PcHolds(s, t, Pc(s, t));
  }

  /** While one thread publishes, no other is inside a critical section that writes. */
  lemma NobodyWrites(s: State, t: Tid, u: Tid)
    requires Inv(s) && Pc(s, t).Publishing?
    ensures s.writer.None? && (Pc(s, u).Idle? || Pc(s, u).Publishing?)
  {
    assert PcHolds(s, t, Pc(s, t)) && PcHolds(s, u, Pc(s, u));
  }

  /** What a step does to a publisher: its own send adds to what it has sent, others leave it alone. */
  lemma PublisherStep(s: State, step: Step, t: Tid)
    requires Inv(s) && Enabled(s, step) && Pc(s, t).Publishing? && step != RUnlock(t)
    ensures Inv(Apply(s, step)) && List(Apply(s, step)) == List(s)
    ensures var pc := Pc(s, t);
            Pc(Apply(s, step), t) == if step == Send(t) then pc.(done := pc.done + [Target(s, pc)]) else pc
  {
    StepKeepsInv(s, step);
    PublisherSeesList(s, t);
    if step == Send(t) {
      SendKeepsInv(s, t);
    } else {
      if !step.Receive? { NobodyWrites(s, t, step.t); }
    }
  }

  lemma PublisherStarts(s: State, t: Tid)
    requires WellFormed(s) && Enabled(s, RLock(t)) && WellFormed(Apply(s, RLock(t)))
    ensures Pc(Apply(s, RLock(t)), t) == Publishing(s.channels, List(s), [])
    ensures List(Apply(s, RLock(t))) == List(s)
  {
  }

  lemma SafeStep(states: seq<State>, steps: seq<Step>, i: nat)
    requires Run(states, steps) && i < |steps|
    ensures Inv(states[i]) && Inv(states[i + 1])
    ensures WellFormed(states[i]) && WellFormed(states[i + 1])
    ensures Enabled(states[i], steps[i]) && states[i + 1] == Apply(states[i], steps[i])
  {
    hide Apply;
    RunIsSafe(states, steps, i);
    RunIsSafe(states, steps, i + 1);
    assert Follows(states[i], steps[i], states[i + 1]);
  }

  /** While a publisher iterates, its place is given by what it has sent, and its list stands still. */
  lemma {:induction false} PublisherAt(states: seq<State>, steps: seq<Step>, t: Tid, i: nat, j: nat)
    requires Run(states, steps) && i < j <= |steps| && steps[i] == RLock(t)
    requires forall k | i < k < j :: steps[k] != RUnlock(t)
    ensures Inv(states[i]) && Inv(states[j])
    ensures Pc(states[j], t) == Publishing(states[i].channels, List(states[i]), SentBy(states, steps, t, i + 1, j))
    ensures List(states[j]) == List(states[i])
    decreases j
  {
    hide Inv;
    hide Apply;
    hide WellFormed;
    SafeStep(states, steps, i);
    SafeStep(states, steps, j - 1);
    if j == i + 1 {
      PublisherStarts(states[i], t);
    } else {
      PublisherAt(states, steps, t, i, j - 1);
      PublisherStep(states[j - 1], steps[j - 1], t);
    }
  }

  lemma ListLength(s: State)
    requires WellFormed(s)
    ensures |List(s)| == s.channels.len
    ensures forall t | Enabled(s, RUnlock(t)) :: |Pc(s, t).done| >= Pc(s, t).view.len
  {
  }

  lemma {:induction false} SentFromLater(states: seq<State>, steps: seq<Step>, t: Tid, i: nat, j: nat)
    requires Run(states, steps) && i < j <= |steps| && steps[i] == RLock(t)
    ensures SentBy(states, steps, t, i, j) == SentBy(states, steps, t, i + 1, j)
    decreases j
  {
    hide Apply;
    hide Target;
    if j == i + 1 {
      assert SentBy(states, steps, t, i, i) == [];
    } else {
      SentFromLater(states, steps, t, i, j - 1);
    }
  }

  /**
   * A Publish that returns has sent one token to each channel that was listed when it took the lock,
   * in list order, and none to any other.
   */
  lemma PublishSendsToAll(states: seq<State>, steps: seq<Step>, t: Tid, i: nat, j: nat)
    requires Run(states, steps) && i < j < |steps| && steps[i] == RLock(t) && steps[j] == RUnlock(t)
    requires forall k | i < k < j :: steps[k] != RUnlock(t)
    ensures WellFormed(states[i]) && SentBy(states, steps, t, i, j) == List(states[i]) && Distinct(List(states[i]))
  {
    hide Inv;
    hide Apply;
    hide WellFormed;
    PublisherAt(states, steps, t, i, j);
    RunIsSafe(states, steps, i);
    SafeStep(states, steps, i);
    SafeStep(states, steps, j);
    PublisherSeesList(states[j], t);
    ListLength(states[j]);
    SentFromLater(states, steps, t, i, j);
  }

  // ---------------------------------------------------------------- progress

  /** A publisher with channels left can send exactly when the next one's buffer is empty. */
  lemma OnlyFullBlocks(s: State, t: Tid)
    requires Inv(s) && Pc(s, t).Publishing? && |Pc(s, t).done| < Pc(s, t).view.len
    ensures Enabled(s, Send(t)) <==> s.chans[Target(s, Pc(s, t))].buf == 0
  {
    PublisherSeesList(s, t);
    assert Target(s, Pc(s, t)) in List(s);
  }

  /** `t` waits to send on `c`, whose buffer is full. */
  predicate Blocked(s: State, t: Tid, c: Chan)
    requires WellFormed(s)
  {
    var pc := Pc(s, t);
    pc.Publishing? && |pc.done| < pc.view.len && Target(s, pc) == c && s.chans[c].buf > 0 && !s.chans[c].closed
  }

  lemma StaysBlocked(s: State, t: Tid, c: Chan, step: Step)
    requires Inv(s) && Blocked(s, t, c) && Enabled(s, step) && step != Receive(c)
    requires WellFormed(Apply(s, step))
    ensures Blocked(Apply(s, step), t, c)
  {
    if !step.Receive? { NobodyWrites(s, t, step.t); }
    PublisherSeesList(s, t);
    if step.Send? { PublisherSeesList(s, step.t); }
  }

  lemma BlockedStep(s: State, t: Tid, c: Chan, step: Step)
    requires Inv(s) && Blocked(s, t, c) && Enabled(s, step) && step != Receive(c)
    ensures !step.LockSubscribe? && !step.LockUnsubscribe? && step != Send(t) && step != RUnlock(t)
    ensures WellFormed(Apply(s, step)) && Blocked(Apply(s, step), t, c)
  {
    hide Apply;
    StepKeepsInv(s, step);
    PublisherSeesList(s, t);
    assert PcHolds(s, t, Pc(s, t));
    StaysBlocked(s, t, c, step);
  }

  /**
   * In every run, until somebody receives from that channel the publisher stays blocked, and no thread
   * gets the write lock: nobody can subscribe or unsubscribe, the receiver of `c` included.
   */
  lemma {:induction false} BlockedUntilReceive(states: seq<State>, steps: seq<Step>, t: Tid, c: Chan, i: nat, j: nat)
    requires Run(states, steps) && i <= j <= |steps|
    requires WellFormed(states[i]) && Blocked(states[i], t, c)
    requires forall k | i <= k < j :: steps[k] != Receive(c)
    ensures WellFormed(states[j]) && Blocked(states[j], t, c)
    ensures forall k | i <= k < j ::
              !steps[k].LockSubscribe? && !steps[k].LockUnsubscribe? && steps[k] != Send(t) && steps[k] != RUnlock(t)
    decreases j
  {
    hide Apply;
    hide Inv;
    hide Blocked;
    hide WellFormed;
    if i == j {
    } else {
      BlockedUntilReceive(states, steps, t, c, i, j - 1);
      SafeStep(states, steps, j - 1);
      BlockedStep(states[j - 1], t, c, steps[j - 1]);
    }
  }

  /** Running `steps` from `s` is possible and ends in `s'`. */
  ghost predicate Reaches(s: State, steps: seq<Step>, s': State)
    decreases |steps|
  {
    if steps == [] then s == s'
    else WellFormed(s) && Enabled(s, steps[0]) && Reaches(Apply(s, steps[0]), steps[1..], s')
  }

  lemma OneBuffered(s: State, c: Chan)
    requires Inv(s) && c < |s.chans|
    ensures s.chans[c].buf <= 1
  {
    assert ChanHolds(s.chans[c]);
  }

  /**
   * If the receivers drain, a Publish finishes: at most one receive and one send for each channel it
   * still has to serve, and then it can return.
   */
  lemma {:induction false} PublishCanFinish(s: State, t: Tid) returns (steps: seq<Step>, s': State)
    requires Inv(s) && Pc(s, t).Publishing?
    ensures Reaches(s, steps, s') && Inv(s') && Enabled(s', RUnlock(t))
    ensures |steps| <= 2 * (Pc(s, t).view.len - |Pc(s, t).done|)
    ensures forall x | x in steps :: x == Send(t) || (x.Receive? && x.c in List(s))
    decreases Pc(s, t).view.len - |Pc(s, t).done|, 1
  {
    PublisherSeesList(s, t);
    var pc := Pc(s, t);
    if |pc.done| >= pc.view.len {
      return [], s;
    }
    var c := Target(s, pc);
    OnlyFullBlocks(s, t);
    if s.chans[c].buf == 0 {
      steps, s' := SendAndFinish(s, t);
    } else {
      OneBuffered(s, c);
      var s1 := Apply(s, Receive(c));
      PublisherStep(s, Receive(c), t);
      assert Enabled(s1, Send(t));
      var more, last := SendAndFinish(s1, t);
      steps, s' := [Receive(c)] + more, last;
      assert steps[1..] == more;
    }
  }

  lemma {:induction false} SendAndFinish(s: State, t: Tid) returns (steps: seq<Step>, s': State)
    requires Inv(s) && Enabled(s, Send(t))
    ensures Reaches(s, steps, s') && Inv(s') && Enabled(s', RUnlock(t))
    ensures |steps| <= 2 * (Pc(s, t).view.len - |Pc(s, t).done|) - 1
    ensures forall x | x in steps :: x == Send(t) || (x.Receive? && x.c in List(s))
    decreases Pc(s, t).view.len - |Pc(s, t).done|, 0
  {
    PublisherStep(s, Send(t), t);
    assert WellFormed(s) && WellFormed(Apply(s, Send(t)));
    hide Inv;
    hide Apply;
    PublisherSeesList(Apply(s, Send(t)), t);
    var more, last := PublishCanFinish(Apply(s, Send(t)), t);
    steps, s' := [Send(t)] + more, last;
    assert steps[1..] == more;
  }

  /** So any Publish that starts while the first listed channel is full is blocked at once. */
  lemma FullBufferBlocksPublish(s: State, t: Tid)
    requires Inv(s) && Enabled(s, RLock(t)) && List(s) != []
    requires List(s)[0] < |s.chans| && s.chans[List(s)[0]].buf == 1
    ensures WellFormed(Apply(s, RLock(t))) && Blocked(Apply(s, RLock(t)), t, List(s)[0])
  {
    StepKeepsInv(s, RLock(t));
    PublisherStarts(s, t);
    assert List(s)[0] in List(s);
  }

  /** Channel 0 is listed, and nothing was received from it yet. */
  function OneListed(readers: set<Tid>, buf: nat, pcs: map<Tid, PC>): State {
    State([[], [0]], Slice(1, 1), [ChanState(buf, false, buf, 0)], None, readers, pcs, false)
  }

  function Sending(done: seq<Chan>): PC { Publishing(Slice(1, 1), [0], done) }

  lemma FirstSubscription(s: State, s1: State, s2: State)
    requires s == OneListed({}, 0, map[0 := Idle])
    requires s1 == INIT.(writer := Some(0), pcs := map[0 := Subscribing])
    requires s2 == s.(writer := Some(0), pcs := map[0 := Subscribed(0)])
    ensures Follows(INIT, LockSubscribe(0), s1) && Follows(s1, Subscribe(0, 0), s2) && Follows(s2, Unlock(0), s)
  {
    assert List(INIT) == [] && List(s1) == [] && List(s2) == [0];
    var arrays := Append(s1.arrays, s1.channels, 0, 0).0;
    assert |arrays| == 2 && |arrays[1]| == 1 && arrays[1][0] == 0;
    assert arrays[1] == [0];
    assert arrays == [[], [0]];
  }

  lemma StartsPublishing(buf: nat, pcs: map<Tid, PC>)
    requires pcs == map[0 := Idle] || pcs == map[0 := Idle, 1 := Idle]
    ensures Follows(OneListed({}, buf, pcs), RLock(1), OneListed({1}, buf, map[0 := Idle, 1 := Sending([])]))
  {
    var s := OneListed({}, buf, pcs);
    assert List(s) == [0];
    assert pcs[1 := Sending([])] == map[0 := Idle, 1 := Sending([])];
  }

  lemma SendsOnce()
    ensures Follows(OneListed({1}, 0, map[0 := Idle, 1 := Sending([])]), Send(1),
                    OneListed({1}, 1, map[0 := Idle, 1 := Sending([0])]))
  {
    var s := OneListed({1}, 0, map[0 := Idle, 1 := Sending([])]);
    assert List(s) == [0];
    assert PcWellFormed(s, Sending([]));
    assert Target(s, Sending([])) == 0;
    assert [] + [0] == [0 as Chan];
  }

  lemma StopsPublishing()
    ensures Follows(OneListed({1}, 1, map[0 := Idle, 1 := Sending([0])]), RUnlock(1),
                    OneListed({}, 1, map[0 := Idle, 1 := Idle]))
  {
    var s := OneListed({1}, 1, map[0 := Idle, 1 := Sending([0])]);
    assert List(s) == [0];
    assert {1} - {1} == {};
  }

  lemma FullIsBlocked(s: State)
    requires s == OneListed({1}, 1, map[0 := Idle, 1 := Sending([])])
    ensures WellFormed(s) && Blocked(s, 1, 0)
  {
    assert List(s) == [0];
  }

  lemma RunOf(states: seq<State>, steps: seq<Step>)
    requires |steps| == 7 && |states| == 8 && states[0] == INIT
    requires Follows(states[0], steps[0], states[1]) && Follows(states[1], steps[1], states[2])
    requires Follows(states[2], steps[2], states[3]) && Follows(states[3], steps[3], states[4])
    requires Follows(states[4], steps[4], states[5]) && Follows(states[5], steps[5], states[6])
    requires Follows(states[6], steps[6], states[7])
    ensures Run(states, steps)
  {
    hide Follows;
  }

  /** Such a state is reached: one subscription and two publications without a receive in between. */
  lemma BlockedRun() returns (states: seq<State>, steps: seq<Step>)
    ensures Run(states, steps) && |steps| == 7 && WellFormed(states[7]) && Blocked(states[7], 1, 0)
    ensures steps == [LockSubscribe(0), Subscribe(0, 0), Unlock(0), RLock(1), Send(1), RUnlock(1), RLock(1)]
  {
    hide *;
    steps := [LockSubscribe(0), Subscribe(0, 0), Unlock(0), RLock(1), Send(1), RUnlock(1), RLock(1)];
    var s3 := OneListed({}, 0, map[0 := Idle]);
    var s1 := INIT.(writer := Some(0), pcs := map[0 := Subscribing]);
    var s2 := s3.(writer := Some(0), pcs := map[0 := Subscribed(0)]);
    states := [INIT, s1, s2, s3,
               OneListed({1}, 0, map[0 := Idle, 1 := Sending([])]),
               OneListed({1}, 1, map[0 := Idle, 1 := Sending([0])]),
               OneListed({}, 1, map[0 := Idle, 1 := Idle]), OneListed({1}, 1, map[0 := Idle, 1 := Sending([])])];
    FirstSubscription(s3, s1, s2);
    StartsPublishing(0, map[0 := Idle]);
    SendsOnce();
    StopsPublishing();
    StartsPublishing(1, map[0 := Idle, 1 := Idle]);
    FullIsBlocked(states[7]);
    RunOf(states, steps);
  }
}
