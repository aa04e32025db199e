/**
 * The life of a channel: listed and open from its subscription, closed and gone after its unsubscription.
 */
module PubSubLife {
  import opened Go
  import opened PubSub

  // ---------------------------------------------------------------- which channels are closed

  /** No thread is about to close the channel. */
  ghost predicate NobodyCloses(s: State, c: Chan) {
    forall t: Tid :: Pc(s, t) != Closing(c)
  }

  /** Closed are exactly the channels that are neither listed nor about to be closed. */
  ghost predicate ClosedExactly(s: State) {
    WellFormed(s) && forall c | 0 <= c < |s.chans| :: s.chans[c].closed <==> c !in List(s) && NobodyCloses(s, c)
  }

  /** While a thread holds the write lock, the others can only receive. */
  lemma WriterStep(s: State, t: Tid, step: Step)
    requires Inv(s) && Enabled(s, step) && !Pc(s, t).Idle? && !Pc(s, t).Publishing?
    ensures step.Receive? || step.t == t
  {
    assert PcHolds(s, t, Pc(s, t));
    if !step.Receive? { assert PcHolds(s, step.t, Pc(s, step.t)); }
  }

  /** A step that touches neither the list, nor what is closed, nor who is closing. */
  lemma SameLife(s: State, s': State)
    requires ClosedExactly(s) && WellFormed(s') && List(s') == List(s) && |s'.chans| == |s.chans|
    requires forall c | 0 <= c < |s.chans| :: s'.chans[c].closed == s.chans[c].closed
    requires forall t: Tid, c: Chan :: Pc(s', t) == Closing(c) <==> Pc(s, t) == Closing(c)
    ensures ClosedExactly(s')
  {
    forall c: Chan
      ensures NobodyCloses(s', c) <==> NobodyCloses(s, c)
    {
    }
  }

  lemma SubscribeKeepsLife(s: State, t: Tid, room: nat)
    requires Inv(s) && Enabled(s, Subscribe(t, room)) && ClosedExactly(s)
    ensures ClosedExactly(Apply(s, Subscribe(t, room)))
  {
    var s' := Apply(s, Subscribe(t, room));
    AppendSafe(s, t, room);
    forall c: Chan
      ensures NobodyCloses(s', c) <==> NobodyCloses(s, c)
    {
      assert forall u: Tid | u != t :: Pc(s', u) == Pc(s, u);
    }
    hide NobodyCloses;
    assert |s.chans| in List(s');
  }

  lemma RemoveKeepsLife(s: State, t: Tid)
    requires Inv(s) && Enabled(s, Remove(t)) && ClosedExactly(s)
    ensures ClosedExactly(Apply(s, Remove(t)))
  {
    var s', c, i := Apply(s, Remove(t)), Pc(s, t).c, IndexOf(List(s), Pc(s, t).c);
    assert forall u: Tid | u != t :: Pc(s', u) == Pc(s, u);
    if i < s.channels.len {
      RemoveSafe(s, t);
      RemoveKeepsOthers(List(s), i);
      assert Pc(s', t) == Closing(c);
      assert !NobodyCloses(s', c);
      forall d: Chan | d != c
        ensures NobodyCloses(s', d) <==> NobodyCloses(s, d)
      {
      }
    } else {
      SameLife(s, s');
    }
  }

  lemma CloseKeepsLife(s: State, t: Tid)
    requires Inv(s) && Enabled(s, Close(t)) && ClosedExactly(s)
    ensures ClosedExactly(Apply(s, Close(t)))
  {
    var s', c := Apply(s, Close(t)), Pc(s, t).c;
    CloseKeepsInv(s, t);
    assert PcHolds(s, t, Pc(s, t));
    forall u: Tid | u != t
      ensures Pc(s', u) == Pc(s, u) && !Pc(s, u).Closing?
    {
      assert PcHolds(s, u, Pc(s, u));
    }
    assert NobodyCloses(s', c);
    forall d: Chan | d != c
      ensures NobodyCloses(s', d) <==> NobodyCloses(s, d)
    {
    }
  }

  lemma OtherStepsKeepLife(s: State, step: Step)
    requires Inv(s) && Enabled(s, step) && ClosedExactly(s)
    requires !step.Subscribe? && !step.Remove? && !step.Close?
    ensures ClosedExactly(Apply(s, step))
  {
    StepKeepsInv(s, step);
    hide Inv;
    hide ClosedExactly;
    SameLife(s, Apply(s, step));
  }

  lemma StepKeepsLife(s: State, step: Step)
    requires Inv(s) && Enabled(s, step) && ClosedExactly(s)
    ensures ClosedExactly(Apply(s, step))
  {
    match step
    case Subscribe(t, room) => SubscribeKeepsLife(s, t, room);
    case Remove(t) => RemoveKeepsLife(s, t);
    case Close(t) => CloseKeepsLife(s, t);
    case _ => OtherStepsKeepLife(s, step);
  }

  /**
   * In every reachable state a channel is closed if and only if it is not listed and no thread is about
   * to close it.
   */
  lemma {:induction false} ClosedInRuns(states: seq<State>, steps: seq<Step>, i: nat)
    requires Run(states, steps) && i < |states|
    ensures ClosedExactly(states[i])
  {
    if i == 0 {
    } else {
      hide Apply;
      hide ClosedExactly;
      ClosedInRuns(states, steps, i - 1);
      SafeStep(states, steps, i - 1);
      StepKeepsLife(states[i - 1], steps[i - 1]);
    }
  }

  /** In every run, whatever is sent to is open, and so is whatever is closed: nothing panics. */
  lemma NothingPanics(states: seq<State>, steps: seq<Step>, i: nat)
    requires Run(states, steps) && i < |steps|
    ensures WellFormed(states[i]) && Enabled(states[i], steps[i])
    ensures var s, step := states[i], steps[i];
            && (step.Send? ==> !s.chans[Target(s, Pc(s, step.t))].closed)
            && (step.Close? ==> Pc(s, step.t).c < |s.chans| && !s.chans[Pc(s, step.t).c].closed)
  {
    SafeStep(states, steps, i);
    var s, step := states[i], steps[i];
    if step.Send? { SendKeepsInv(s, step.t); }
    if step.Close? { assert PcHolds(s, step.t, Pc(s, step.t)); }
  }

  // ---------------------------------------------------------------- one subscription, one unsubscription

  /** The list without `c`, the others in their order. */
  function Without(list: seq<Chan>, c: Chan): (r: seq<Chan>)
    ensures c !in r
  {
    if list == [] then [] else (if list[0] == c then [] else [list[0]]) + Without(list[1..], c)
  }

  lemma {:induction false} WithoutAbsent(list: seq<Chan>, c: Chan)
    requires c !in list
    ensures Without(list, c) == list
  {
    if list == [] {
    } else {
      WithoutAbsent(list[1..], c);
    }
  }

  lemma {:induction false} WithoutOne(list: seq<Chan>, i: nat)
    requires Distinct(list) && i < |list|
    ensures Without(list, list[i]) == list[..i] + list[i + 1..]
  {
    if i == 0 {
      WithoutAbsent(list[1..], list[0]);
      assert list[..0] + list[1..] == list[1..];
    } else {
      WithoutOne(list[1..], i - 1);
      assert list[0] != list[i];
      assert [list[0]] + (list[1..][..i - 1] + list[1..][i..]) == list[..i] + list[i + 1..];
    }
  }

  lemma RemoveIsWithout(s: State, t: Tid)
    requires Inv(s) && Enabled(s, Remove(t))
    ensures var s', c := Apply(s, Remove(t)), Pc(s, t).c;
            && WellFormed(s') && List(s') == Without(List(s), c)
            && Pc(s', t) == if c in List(s) then Closing(c) else Unsubscribed
  {
    var i := IndexOf(List(s), Pc(s, t).c);
    if i < s.channels.len {
      RemoveSafe(s, t);
      WithoutOne(List(s), i);
    } else {
      StepKeepsInv(s, Remove(t));
      WithoutAbsent(List(s), Pc(s, t).c);
    }
  }

  /** Where the closure is between its two lock operations, and what the list is there. */
  ghost predicate Unsubscribes(s: State, t: Tid, c: Chan, list: seq<Chan>) {
    && WellFormed(s)
    && match Pc(s, t)
       case Unsubscribing(d) => d == c && List(s) == list
       case Closing(d) => d == c && List(s) == Without(list, c)
       case Unsubscribed => List(s) == Without(list, c)
       case _ => false
  }

  lemma UnsubscribeStep(s: State, t: Tid, c: Chan, list: seq<Chan>, step: Step)
    requires Inv(s) && Enabled(s, step) && step != Unlock(t) && Unsubscribes(s, t, c, list)
    ensures Unsubscribes(Apply(s, step), t, c, list) && |Apply(s, step).chans| == |s.chans|
  {
    WriterStep(s, t, step);
    StepKeepsInv(s, step);
    if step == Remove(t) { RemoveIsWithout(s, t); }
  }

  lemma {:induction false} UnsubscribesUntil(states: seq<State>, steps: seq<Step>, t: Tid, c: Chan, i: nat, j: nat)
    requires Run(states, steps) && i < j <= |steps| && steps[i] == LockUnsubscribe(t, c)
    requires forall k | i < k < j :: steps[k] != Unlock(t)
    ensures WellFormed(states[i]) && Unsubscribes(states[j], t, c, List(states[i]))
    ensures c < |states[i].chans| == |states[j].chans|
    decreases j
  {
    hide Inv;
    SafeStep(states, steps, i);
    if j == i + 1 {
    } else {
      UnsubscribesUntil(states, steps, t, c, i, j - 1);
      SafeStep(states, steps, j - 1);
      hide Apply;
      hide Unsubscribes;
      hide WellFormed;
      UnsubscribeStep(states[j - 1], t, c, List(states[i]), steps[j - 1]);
    }
  }

  lemma AtUnlock(s: State, t: Tid, c: Chan)
    requires Inv(s) && Enabled(s, Unlock(t)) && ClosedExactly(s) && c < |s.chans|
    ensures WellFormed(Apply(s, Unlock(t))) && List(Apply(s, Unlock(t))) == List(s)
    ensures Apply(s, Unlock(t)).chans == s.chans
    ensures c !in List(s) ==> s.chans[c].closed
  {
    StepKeepsInv(s, Unlock(t));
    assert PcHolds(s, t, Pc(s, t));
    forall u: Tid
      ensures Pc(s, u) != Closing(c)
    {
      assert PcHolds(s, u, Pc(s, u));
    }
  }

  /**
   * In every run: when the closure of a subscription has returned, its channel is closed and not listed,
   * and all the other channels are listed in the order they had when it took the lock.
   */
  lemma UnsubscribeCloses(states: seq<State>, steps: seq<Step>, t: Tid, c: Chan, i: nat, j: nat)
    requires Run(states, steps) && i < j < |steps|
    requires steps[i] == LockUnsubscribe(t, c) && steps[j] == Unlock(t)
    requires forall k | i < k < j :: steps[k] != Unlock(t)
    ensures WellFormed(states[i]) && WellFormed(states[j + 1])
    ensures List(states[j + 1]) == Without(List(states[i]), c)
    ensures c < |states[j + 1].chans| && states[j + 1].chans[c].closed
  {
    UnsubscribesUntil(states, steps, t, c, i, j);
    SafeStep(states, steps, i);
    SafeStep(states, steps, j);
    ClosedInRuns(states, steps, j);
    AtUnlock(states[j], t, c);
  }

  /** Where Subscribe is between its two lock operations. */
  ghost predicate Subscribes(s: State, t: Tid, list: seq<Chan>, c: Chan) {
    && WellFormed(s)
    && match Pc(s, t)
       case Subscribing => List(s) == list && |s.chans| == c
       case Subscribed(d) => d == c && List(s) == list + [c] && |s.chans| == c + 1
       case _ => false
  }

  lemma SubscribeStep(s: State, t: Tid, list: seq<Chan>, c: Chan, step: Step)
    requires Inv(s) && Enabled(s, step) && step != Unlock(t) && Subscribes(s, t, list, c)
    ensures Subscribes(Apply(s, step), t, list, c)
  {
    WriterStep(s, t, step);
    StepKeepsInv(s, step);
    if step.Subscribe? { AppendSafe(s, t, step.room); }
  }

  lemma {:induction false} SubscribesUntil(states: seq<State>, steps: seq<Step>, t: Tid, i: nat, j: nat)
    requires Run(states, steps) && i < j <= |steps| && steps[i] == LockSubscribe(t)
    requires forall k | i < k < j :: steps[k] != Unlock(t)
    ensures WellFormed(states[i]) && Subscribes(states[j], t, List(states[i]), |states[i].chans|)
    decreases j
  {
    hide Inv;
    SafeStep(states, steps, i);
    if j == i + 1 {
    } else {
      SubscribesUntil(states, steps, t, i, j - 1);
      SafeStep(states, steps, j - 1);
      hide Apply;
      hide Subscribes;
      hide WellFormed;
      SubscribeStep(states[j - 1], t, List(states[i]), |states[i].chans|, steps[j - 1]);
    }
  }

  /** In every run: when Subscribe has returned, one new channel is listed, at the end, and it is open. */
  lemma SubscribeLists(states: seq<State>, steps: seq<Step>, t: Tid, i: nat, j: nat)
    requires Run(states, steps) && i < j < |steps|
    requires steps[i] == LockSubscribe(t) && steps[j] == Unlock(t)
    requires forall k | i < k < j :: steps[k] != Unlock(t)
    ensures WellFormed(states[i]) && WellFormed(states[j + 1])
    ensures var c := |states[i].chans|;
            && List(states[j + 1]) == List(states[i]) + [c]
            && |states[j + 1].chans| == c + 1 && !states[j + 1].chans[c].closed
  {
    SubscribesUntil(states, steps, t, i, j);
    SafeStep(states, steps, j);
    var c := |states[i].chans|;
    ClosedInRuns(states, steps, j + 1);
    assert (List(states[i]) + [c])[|List(states[i])|] == c;
    assert c in List(states[i]) + [c];
    hide Inv;
  }
}
