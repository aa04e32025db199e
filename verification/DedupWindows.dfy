/**
 * When a message counts as new again: the counter of a message lives for 60 seconds from the last EXPIRE
 * that reached the store, and for ever if none did.
 */
module DedupWindows {
  import opened Gaps
  import opened Go
  import opened DedupKeys
  import opened Deduplication

  /** What a step is to the counter of one message: an INCR returning 1 or more, or an EXPIRE. */
  datatype Mark = First | Again | Expiry(at: nat) | Other

  function MarkOf<U>(s: State<U>, step: Step<U>, m: MessageId): Mark
    requires Enabled(s, step)
  {
    match step
    case Count(c, x, reply) =>
      var counted := Incr(s.store, IdKey(m), s.now);
      if x != m || reply == NotDone || counted.None? then Other
      else if counted.value.1 == 1 then First
      else Again
    case SetExpiry(c, reply) => if s.callers[c].m == m && reply != NotDone then Expiry(s.now) else Other
    case _ => Other
  }

  /** The marks of a run, one for each step. */
  function Marks<U>(codec: Codec<U>, steps: seq<Step<U>>, m: MessageId): (h: seq<Mark>)
    requires After(codec, steps).Some?
    ensures |h| == |steps|
  {
    if steps == [] then []
    else
      var n := |steps| - 1;
      Marks(codec, steps[..n], m) + [MarkOf(After(codec, steps[..n]).value, steps[n], m)]
  }

  // ---------------------------------------------------------------- windows

  predicate LatestFirst(h: seq<Mark>, i: int) {
    0 <= i < |h| && h[i].First? && forall j | i < j < |h| :: !h[j].First?
  }

  /** Where an EXPIRE reached the store. */
  function Expiries(h: seq<Mark>): (on: seq<bool>)
    ensures |on| == |h|
  {
    seq(|h|, i requires 0 <= i < |h| => h[i].Expiry?)
  }

  /** After `i` there was a whole window between an EXPIRE and the next one, or now. */
  ghost predicate Lapsed(h: seq<Mark>, i: int, now: int) {
    exists j, k :: i < j && Neighbours(Expiries(h), j, k) && (if k < |h| then h[k].at else now) - h[j].at >= 60_000
  }

  /** The counter started last is still in its window. */
  ghost predicate Counting(h: seq<Mark>, now: int) {
    exists i :: LatestFirst(h, i) && !Lapsed(h, i, now)
  }

  lemma LapsedExtends(h: seq<Mark>, e: Mark, i: int, now: int)
    requires 0 <= i < |h|
    ensures Lapsed(h + [e], i, now) <==>
              if e.Expiry? then Lapsed(h, i, e.at) || now - e.at >= TTL else Lapsed(h, i, now)
  {
    var g := h + [e];
    assert forall x | 0 <= x < |h| :: g[x] == h[x];
    assert g[|h|] == e;
    assert Expiries(g) == Expiries(h) + [e.Expiry?];
    var t := if e.Expiry? then e.at else now;
    if j, k :| i < j && Neighbours(Expiries(g), j, k) && (if k < |g| then g[k].at else now) - g[j].at >= TTL {
      NeighboursExtend(Expiries(h), e.Expiry?, j, k);
      assert Lapsed(g, i, now);
      if j < |h| { assert Neighbours(Expiries(h), j, if k < |h| then k else |h|); }
    }
    if j, k :| i < j && Neighbours(Expiries(h), j, k) && (if k < |h| then h[k].at else t) - h[j].at >= TTL {
      var k' := if k < |h| || e.Expiry? then k else |h| + 1;
      NeighboursBound(Expiries(h), j, k);
      NeighboursExtend(Expiries(h), e.Expiry?, j, k');
      assert Neighbours(Expiries(g), j, k');
    }
    if e.Expiry? {
      NeighboursExtend(Expiries(h), e.Expiry?, |h|, |h| + 1);
      assert Neighbours(Expiries(g), |h|, |h| + 1);
    }
  }

  lemma LatestExtends(h: seq<Mark>, e: Mark, i: int)
    ensures LatestFirst(h + [e], i) <==> if e.First? then i == |h| else LatestFirst(h, i)
  {
    var g := h + [e];
    assert forall x | 0 <= x < |h| :: g[x] == h[x];
    assert g[|h|] == e;
  }

  lemma CountingExtends(h: seq<Mark>, e: Mark, now: int)
    ensures Counting(h + [e], now) <==>
              if e.First? then true
              else if e.Expiry? then Counting(h, e.at) && now - e.at < TTL
              else Counting(h, now)
  {
    var g := h + [e];
    forall i
      ensures LatestFirst(g, i) <==> if e.First? then i == |h| else LatestFirst(h, i)
      ensures 0 <= i < |h| ==> (Lapsed(g, i, now) <==>
                if e.Expiry? then Lapsed(h, i, e.at) || now - e.at >= TTL else Lapsed(h, i, now))
    {
      LatestExtends(h, e, i);
      if 0 <= i < |h| { LapsedExtends(h, e, i, now); }
    }
    if e.First? {
      assert LatestFirst(g, |h|);
      forall j, k | Neighbours(Expiries(g), j, k)
        ensures j < |h|
      {
        NeighboursBound(Expiries(g), j, k);
      }
    }
    assert forall i | LatestFirst(h, i) :: 0 <= i < |h|;
    hide LatestFirst;
    hide Lapsed;
  }

  // ---------------------------------------------------------------- the store keeps to the windows

  /** What a step does to the counter of `m`. */
  lemma StepOnCounter<U>(codec: Codec<U>, s: State<U>, step: Step<U>, m: MessageId)
    requires Inv(codec, s) && Enabled(s, step)
    ensures var k, store, store' := IdKey(m), s.store, Apply(codec, s, step).store;
            match MarkOf(s, step, m)
            case First => !Live(store, k, s.now) && k in store' && store'[k].expiresAt == None
            case Again => Live(store, k, s.now) && k in store' && store'[k].expiresAt == store[k].expiresAt
            case Expiry(_) =>
              if Live(store, k, s.now) then k in store' && store'[k].expiresAt == Some(s.now + TTL)
              else (k in store <==> k in store') && (k in store ==> store'[k] == store[k])
            case Other => (k in store <==> k in store') && (k in store ==> store'[k] == store[k])
  {
    assert CountersOk(s.store);
    match step
    case Tick(d) =>
    case Count(c, x, reply) => IdKeysDiffer(x, m);
    case SetExpiry(c, reply) => IdKeysDiffer(s.callers[c].m, m);
    case Put(x, u, reply) => PrefixesDisjoint(m.0, m.1, x.0, x.1);
  }

  lemma ClockOnward<U>(codec: Codec<U>, s: State<U>, step: Step<U>)
    requires Enabled(s, step)
    ensures s.now <= Apply(codec, s, step).now
    ensures !step.Tick? ==> Apply(codec, s, step).now == s.now
  {
  }

  lemma {:induction false} LiveWhileCounting<U>(codec: Codec<U>, steps: seq<Step<U>>, m: MessageId, now: nat)
    requires After(codec, steps).Some? && After(codec, steps).value.now <= now
    ensures Live(After(codec, steps).value.store, IdKey(m), now) <==> Counting(Marks(codec, steps, m), now)
  {
    if steps == [] {
      assert Marks(codec, steps, m) == [];
    } else {
      var before, e := steps[..|steps| - 1], steps[|steps| - 1];
      var s, h := After(codec, before).value, Marks(codec, before, m);
      AfterHolds(codec, before);
      StepOnCounter(codec, s, e, m);
      ClockOnward(codec, s, e);
      CountingExtends(h, MarkOf(s, e, m), now);
      LiveWhileCounting(codec, before, m, s.now);
      LiveWhileCounting(codec, before, m, now);
      hide Counting;
      hide Inv;
      hide Apply;
      hide IdKey;
    }
  }

  lemma StaysAbsent<U>(codec: Codec<U>, s: State<U>, step: Step<U>, m: MessageId)
    requires Inv(codec, s) && Enabled(s, step) && IdKey(m) !in s.store && !MarkOf(s, step, m).First?
    ensures IdKey(m) !in Apply(codec, s, step).store && !MarkOf(s, step, m).Again?
  {
    StepOnCounter(codec, s, step, m);
    hide Inv;
    hide Apply;
    hide IdKey;
    hide MarkOf;
  }

  predicate NoFirst(h: seq<Mark>) {
    forall i | 0 <= i < |h| :: !h[i].First?
  }

  predicate Uncounted(h: seq<Mark>) {
    forall i | 0 <= i < |h| :: !h[i].First? && !h[i].Again?
  }

  /** The first INCR that takes effect returns 1. */
  lemma {:induction false} SomeFirst<U>(codec: Codec<U>, steps: seq<Step<U>>, m: MessageId)
    requires After(codec, steps).Some? && NoFirst(Marks(codec, steps, m))
    ensures IdKey(m) !in After(codec, steps).value.store && Uncounted(Marks(codec, steps, m))
  {
    if steps == [] {
      assert Marks(codec, steps, m) == [];
    } else {
      var before, e := steps[..|steps| - 1], steps[|steps| - 1];
      var s := After(codec, before).value;
      AfterHolds(codec, before);
      var h, g := Marks(codec, before, m), Marks(codec, steps, m);
      assert g == h + [MarkOf(s, e, m)];
      assert forall i | 0 <= i < |h| :: h[i] == g[i];
      assert g[|h|] == MarkOf(s, e, m);
      SomeFirst(codec, before, m);
      StaysAbsent(codec, s, e, m);
    }
  }

  lemma {:induction false} FindLatest(h: seq<Mark>)
    ensures NoFirst(h) || exists i :: LatestFirst(h, i)
  {
    if h == [] {
    } else {
      var before, e := h[..|h| - 1], h[|h| - 1];
      assert before + [e] == h;
      FindLatest(before);
      forall i
        ensures LatestFirst(h, i) <==> if e.First? then i == |before| else LatestFirst(before, i)
      {
        LatestExtends(before, e, i);
      }
      if i :| 0 <= i < |h| && h[i].First? {
        if e.First? {
          assert LatestFirst(h, |before|);
        } else {
          assert before[i].First?;
          var j :| LatestFirst(before, j);
          assert LatestFirst(h, j);
        }
      }
    }
  }

  // ---------------------------------------------------------------- when a message is new

  /** Nobody counted the message yet, or a whole window passed since the counter was last started. */
  ghost predicate New(h: seq<Mark>, now: int) {
    || Uncounted(h)
    || (exists i :: LatestFirst(h, i) && Lapsed(h, i, now))
  }

  lemma CountingIsNotNew(h: seq<Mark>, now: int)
    requires Uncounted(h) || exists i :: LatestFirst(h, i)
    ensures Counting(h, now) <==> !New(h, now)
  {
    forall i, j | LatestFirst(h, i) && LatestFirst(h, j)
      ensures i == j
    {
    }
    hide Lapsed;
  }

  /**
   * In every run: the next INCR of a message to take effect returns 1 if and only if none took effect
   * yet, or, since the last one that returned 1, an EXPIRE reached the store and 60 seconds passed
   * until the next EXPIRE or now.
   */
  lemma NewExactly<U>(codec: Codec<U>, steps: seq<Step<U>>, m: MessageId)
    requires After(codec, steps).Some?
    ensures var s := After(codec, steps).value;
            var counted := Incr(s.store, IdKey(m), s.now);
            counted.Some? && (counted.value.1 == 1 <==> New(Marks(codec, steps, m), s.now))
  {
    var s, h := After(codec, steps).value, Marks(codec, steps, m);
    AfterHolds(codec, steps);
    assert CountersOk(s.store);
    LiveWhileCounting(codec, steps, m, s.now);
    if NoFirst(h) { SomeFirst(codec, steps, m); } else { FindLatest(h); }
    CountingIsNotNew(h, s.now);
  }

  lemma StepKeepsReply<U>(codec: Codec<U>, s: State<U>, step: Step<U>, c: nat)
    requires Enabled(s, step) && c in s.callers
    ensures var w, callers := s.callers[c], Apply(codec, s, step).callers;
            && c in callers
            && (!callers[c].FailedBefore? ==> !w.FailedBefore? && callers[c].m == w.m && callers[c].seq1 == w.seq1)
  {
    hide Incr;
    hide Expire;
    hide Setex;
    hide IdKey;
    hide DataKey;
  }

  lemma CountedReply<U>(codec: Codec<U>, s: State<U>, step: Step<U>)
    requires Enabled(s, step) && step.Count?
    ensures var callers, counted := Apply(codec, s, step).callers, Incr(s.store, IdKey(step.m), s.now);
            && step.c in callers
            && (!callers[step.c].FailedBefore? ==>
                  callers[step.c].m == step.m && counted.Some? && callers[step.c].seq1 == counted.value.1)
  {
    hide Incr;
    hide IdKey;
  }

  /** A call keeps the message and the reply of its INCR. */
  lemma {:induction false} CallKeepsReply<U>(codec: Codec<U>, steps: seq<Step<U>>, i: nat)
    requires After(codec, steps).Some? && i < |steps| && steps[i].Count?
    ensures After(codec, steps[..i]).Some? && steps[i].c in After(codec, steps).value.callers
    ensures var s, w := After(codec, steps[..i]).value, After(codec, steps).value.callers[steps[i].c];
            var counted := Incr(s.store, IdKey(steps[i].m), s.now);
            !w.FailedBefore? ==> w.m == steps[i].m && counted.Some? && w.seq1 == counted.value.1
    decreases |steps|
  {
    hide Incr;
    hide IdKey;
    hide Apply;
    var n := |steps| - 1;
    var s := After(codec, steps[..n]).value;
    if i == n {
      CountedReply(codec, s, steps[n]);
    } else {
      CallKeepsReply(codec, steps[..n], i);
      assert steps[..n][..i] == steps[..i];
      StepKeepsReply(codec, s, steps[n], steps[i].c);
    }
  }

  /**
   * In every run: a call that gets an answer is told that its message is no duplicate if and only if the
   * message was new when it was counted.
   */
  lemma ToldExactly<U>(codec: Codec<U>, steps: seq<Step<U>>, i: nat)
    requires After(codec, steps).Some? && i < |steps| && steps[i].Count?
    requires steps[i].c in After(codec, steps).value.callers && After(codec, steps).value.callers[steps[i].c].Told?
    ensures After(codec, steps[..i]).Some?
    ensures !After(codec, steps).value.callers[steps[i].c].duplicate <==>
              New(Marks(codec, steps[..i], steps[i].m), After(codec, steps[..i]).value.now)
  {
    CallKeepsReply(codec, steps, i);
    NewExactly(codec, steps[..i], steps[i].m);
    AfterHolds(codec, steps);
    var s := After(codec, steps).value;
    hide After;
    assert CallersOk(s);
    assert s.callers[steps[i].c].seq1 >= 1;
  }

  lemma NoExpiryNoLapse(h: seq<Mark>, i: nat, now: int)
    requires i < |h| && h[i].First? && forall j | i < j < |h| :: !h[j].Expiry?
    ensures !New(h, now)
  {
    forall x | LatestFirst(h, x)
      ensures !Lapsed(h, x, now)
    {
      forall j, k | Neighbours(Expiries(h), j, k)
        ensures j < i
      {
        NeighboursBound(Expiries(h), j, k);
      }
    }
  }

  /**
   * In every run: while no EXPIRE of a message reached the store since its counter started, every call
   * counts above 1, however long that is ago.
   */
  lemma StuckStays<U>(codec: Codec<U>, steps: seq<Step<U>>, m: MessageId, i: nat)
    requires After(codec, steps).Some? && i < |steps|
    requires var h := Marks(codec, steps, m); h[i].First? && forall j | i < j < |h| :: !h[j].Expiry?
    ensures var s := After(codec, steps).value;
            var counted := Incr(s.store, IdKey(m), s.now);
            counted.Some? && counted.value.1 > 1
  {
    var h, now := Marks(codec, steps, m), After(codec, steps).value.now;
    NewExactly(codec, steps, m);
    NoExpiryNoLapse(h, i, now);
    assert !New(h, now);
    AfterHolds(codec, steps);
    assert CountersOk(After(codec, steps).value.store);
    hide New;
    hide CallersOk;
    hide DataOk;
  }

  /** Such a run: the EXPIRE of the first call fails, and a whole window later the message is a duplicate. */
  lemma FailedExpiryRun<U>(codec: Codec<U>, m: MessageId)
    ensures var steps: seq<Step<U>> := [Count(0, m, Done), SetExpiry(0, NotDone), Tick(60_000), Count(1, m, Done)];
            && After(codec, steps).Some?
            && 1 in After(codec, steps).value.callers
            && After(codec, steps).value.callers[1] == Counted(m, 2, 60_000)
  {
    var steps: seq<Step<U>> := [Count(0, m, Done), SetExpiry(0, NotDone), Tick(TTL), Count(1, m, Done)];
    assert steps[..4] == steps;
    assert steps[..4][..3] == steps[..3] && steps[..3][..2] == steps[..2] && steps[..2][..1] == steps[..1];
    assert steps[..1][..0] == [];
    var s0 := Init<U>();
    var s1 := Apply(codec, s0, steps[0]);
    assert After(codec, steps[..1]) == Some(s1);
    var s2 := Apply(codec, s1, steps[1]);
    assert After(codec, steps[..2]) == Some(s2);
    var s3 := Apply(codec, s2, steps[2]);
    assert After(codec, steps[..3]) == Some(s3);
  }
}
