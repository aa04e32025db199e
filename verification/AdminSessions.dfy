/**
 * Sliding-expiry sessions of the admin server, app/admin/internal/server/server.go: tokens live in a map,
 * every use moves the expiry, logins and logouts write the map to a file, and a restart reads it back.
 * Times are nanoseconds; the file keeps whole seconds.
 */
module AdminSessions {
  import opened Gaps
  import opened Go

  const SECOND := 1_000_000_000
  const LIFETIME := 8 * 3600 * SECOND

  type Token = string

  /** The expiry of each session. */
  type Sessions = map<Token, int>

  /** What os.WriteFile left behind: the new contents, the old ones, or something that is not JSON. */
  datatype Write = Written | Kept | Broken

  predicate Valid(sessions: Sessions, token: Token, now: int) {
    token in sessions && now <= sessions[token]
  }

  // ---------------------------------------------------------------- the steps of the server

  /** validToken reads the clock twice: `now` to compare, `renewed` to move the expiry. */
  function Checked(sessions: Sessions, token: Token, now: int, renewed: int): Sessions {
    if Valid(sessions, token, now) then sessions[token := renewed + LIFETIME] else sessions - {token}
  }

  function Persisted(sessions: Sessions): map<Token, int> {
    map t | t in sessions :: sessions[t] / SECOND
  }

  function Restored(raw: map<Token, int>, now: int): Sessions {
    map t | t in raw && raw[t] * SECOND > now :: raw[t] * SECOND
  }

  lemma RestoredGrows(raw: map<Token, int>, left: set<Token>, token: Token, now: int)
    requires token in left && token in raw
    ensures var before, after := Restored(raw - left, now), Restored(raw - (left - {token}), now);
            after == if raw[token] * SECOND > now then before[token := raw[token] * SECOND] else before
  {
  }

  function FileAfter(file: Option<map<Token, int>>, sessions: Sessions, write: Write): Option<map<Token, int>> {
    match write
    case Written => Some(Persisted(sessions))
    case Kept => file
    case Broken => None
  }

  // ---------------------------------------------------------------- events

  /** Login: accepted credentials.  Use: any other request that goes through requireAuth. */
  datatype Event =
    | Login(token: Token, at: int, write: Write)
    | Use(token: Token, at: int, renewed: int)
    | Logout(token: Token, at: int, renewed: int, write: Write)
    | Restart(at: int)

  datatype World = World(sessions: Sessions, file: Option<map<Token, int>>)

  function Apply(w: World, e: Event): World {
    match e
    case Login(token, at, write) =>
      var sessions := w.sessions[token := at + LIFETIME];
      World(sessions, FileAfter(w.file, sessions, write))
    case Use(token, at, renewed) => w.(sessions := Checked(w.sessions, token, at, renewed))
    case Logout(token, at, renewed, write) =>
      var sessions := w.sessions - {token};
      World(sessions, if Valid(w.sessions, token, at) then FileAfter(w.file, sessions, write) else w.file)
    case Restart(at) => w.(sessions := if w.file.None? then map[] else Restored(w.file.value, at))
  }

  // ---------------------------------------------------------------- the server

  datatype Response = Ok | MethodNotAllowed | BadRequest | Unauthorized

  datatype Body = Malformed | Credentials(username: string, password: string)

  class Server {
    const username: string
    const password: string
    var sessions: Sessions
    var file: Option<map<Token, int>>

    ghost function State(): World
      reads this
    {
      World(sessions, file)
    }

    /** A start of the process: whatever an earlier one left in the file is loaded. */
    constructor (username: string, password: string, file: Option<map<Token, int>>, now: int)
      ensures this.username == username && this.password == password
      ensures State() == Apply(World(map[], file), Restart(now))
    {
      this.username, this.password, this.file, this.sessions := username, password, file, map[];
      new;
      LoadSessions(now);
    }

    method LoadSessions(now: int)
      modifies this`sessions
      ensures sessions == if file.None? then old(sessions) else old(sessions) + Restored(file.value, now)
    {
      if file.None? { return; }
      var raw := file.value;
      var left := raw.Keys;
      while left != {}
        invariant left <= raw.Keys
        invariant sessions == old(sessions) + Restored(raw - left, now)
      {
        var token :| token in left;
        RestoredGrows(raw, left, token, now);
        left := left - {token};
        var exp := raw[token] * SECOND;
        if exp > now { sessions := sessions[token := exp]; }
      }
      assert raw - left == raw;
    }

    method SaveSessions(write: Write)
      modifies this`file
      ensures file == FileAfter(old(file), sessions, write)
    {
      var raw: map<Token, int> := map[];
      var left := sessions.Keys;
      while left != {}
        invariant left <= sessions.Keys
        invariant raw == Persisted(sessions - left)
      {
        var token :| token in left;
        left := left - {token};
        raw := raw[token := sessions[token] / SECOND];
      }
      assert sessions - left == sessions;
      match write
      case Written => file := Some(raw);
      case Kept =>
      case Broken => file := None;
    }

    method ValidToken(token: Token, now: int, renewed: int) returns (valid: bool)
      modifies this`sessions
      ensures valid == Valid(old(sessions), token, now)
      ensures State() == Apply(old(State()), Use(token, now, renewed))
    {
      if token !in sessions { return false; }
      if now > sessions[token] {
        sessions := sessions - {token};
        return false;
      }
      sessions := sessions[token := renewed + LIFETIME];
      return true;
    }

    method HandleLogin(post: bool, body: Body, token: Token, now: int, write: Write) returns (r: Response)
      modifies this
      ensures r == Ok <==> post && body == Credentials(username, password)
      ensures State() == if r == Ok then Apply(old(State()), Login(token, now, write)) else old(State())
    {
      if !post { return MethodNotAllowed; }
      if body.Malformed? { return BadRequest; }
      if body.username != username || body.password != password { return Unauthorized; }
      sessions := sessions[token := now + LIFETIME];
      SaveSessions(write);
      return Ok;
    }

    /** The route of /api/logout: requireAuth, then handleLogout. */
    method Logout(token: Token, now: int, renewed: int, write: Write) returns (r: Response)
      modifies this
      ensures r == if Valid(old(sessions), token, now) then Ok else Unauthorized
      ensures State() == Apply(old(State()), Event.Logout(token, now, renewed, write)) && token !in sessions
    {
      var valid := ValidToken(token, now, renewed);
      if !valid { return Unauthorized; }
      sessions := sessions - {token};
      assert sessions == old(sessions) - {token};
      SaveSessions(write);
      return Ok;
    }
  }

  // ---------------------------------------------------------------- histories

  function After(h: seq<Event>): World {
    if h == [] then World(map[], None) else Apply(After(h[..|h| - 1]), h[|h| - 1])
  }

  predicate Concerns(e: Event, token: Token) {
    !e.Restart? && e.token == token
  }

  /** When the last clock reading of an event was taken. */
  function End(e: Event): int {
    match e
    case Login(_, at, _) => at
    case Use(_, _, renewed) => renewed
    case Logout(_, _, renewed, _) => renewed
    case Restart(at) => at
  }

  // ---------------------------------------------------------------- what a session is for

  /** Where the history concerns the token. */
  function Concerned(h: seq<Event>, token: Token): (on: seq<bool>)
    ensures |on| == |h|
  {
    seq(|h|, i requires 0 <= i < |h| => Concerns(h[i], token))
  }

  ghost predicate AliveSince(h: seq<Event>, token: Token, now: int, i: int) {
    && 0 <= i < |h| && h[i].Login? && h[i].token == token
    && (forall k | i < k < |h| && Concerns(h[k], token) :: h[k].Use?)
    && (forall j, k | i <= j && Neighbours(Concerned(h, token), j, k) ::
          (if k < |h| then h[k].at else now) - End(h[j]) <= 28_800_000_000_000)
  }

  /**
   * The token came from a login, it was not logged out since, and from the login through all its
   * uses to now there was never a gap of more than 8 hours.
   */
  ghost predicate Alive(h: seq<Event>, token: Token, now: int) {
    exists i :: AliveSince(h, token, now, i)
  }

  /** The two lists agree on the gaps inside `h`; what is left is the gap that ends now. */
  lemma AliveSinceExtends(h: seq<Event>, e: Event, token: Token, now: int, i: int)
    requires 0 <= i < |h| && (Concerns(e, token) ==> e.Use?)
    ensures AliveSince(h + [e], token, now, i) <==>
              if Concerns(e, token) then AliveSince(h, token, e.at, i) && now <= e.renewed + LIFETIME
              else AliveSince(h, token, now, i)
  {
    var g, on := h + [e], Concerned(h, token);
    assert Concerned(g, token) == on + [Concerns(e, token)];
    forall j, k
      ensures Neighbours(Concerned(g, token), j, k) <==>
                if k < |h| then Neighbours(on, j, k)
                else if k == |h| then Concerns(e, token) && Neighbours(on, j, |h|)
                else k == |h| + 1 && if Concerns(e, token) then j == |h| else Neighbours(on, j, |h|)
    {
      NeighboursExtend(on, Concerns(e, token), j, k);
    }
    hide Neighbours;
    assert forall m | 0 <= m < |h| :: g[m] == h[m];
    assert g[|h|] == e;
    if Concerns(e, token) { assert Neighbours(Concerned(g, token), |h|, |h| + 1); }
    if AliveSince(g, token, now, i) {
      assert forall k | i < k < |h| && Concerns(h[k], token) :: g[k].Use?;
      var t := if Concerns(e, token) then e.at else now;
      forall j, k | i <= j && Neighbours(Concerned(h, token), j, k)
        ensures (if k < |h| then h[k].at else t) - End(h[j]) <= LIFETIME
      {
        assert 0 <= j < k <= |h| by { NeighboursBound(Concerned(h, token), j, k); }
        assert Neighbours(Concerned(g, token), j, if k < |h| || Concerns(e, token) then k else |h| + 1);
      }
    }
  }

  lemma AliveOther(h: seq<Event>, e: Event, token: Token, now: int)
    requires !Concerns(e, token)
    ensures Alive(h + [e], token, now) <==> Alive(h, token, now)
  {
    var g := h + [e];
    forall i | 0 <= i < |h|
      ensures AliveSince(g, token, now, i) <==> AliveSince(h, token, now, i)
    {
      AliveSinceExtends(h, e, token, now, i);
    }
    assert !AliveSince(g, token, now, |h|);
    assert forall i :: AliveSince(g, token, now, i) ==> 0 <= i < |h|;
  }

  lemma AliveLogin(h: seq<Event>, e: Event, token: Token, now: int)
    requires e.Login? && e.token == token
    ensures Alive(h + [e], token, now) <==> now <= e.at + LIFETIME
  {
    var g := h + [e];
    assert Neighbours(Concerned(g, token), |h|, |h| + 1);
    assert now <= e.at + LIFETIME ==> AliveSince(g, token, now, |h|);
  }

  lemma AliveLogout(h: seq<Event>, e: Event, token: Token, now: int)
    requires e.Logout? && e.token == token
    ensures !Alive(h + [e], token, now)
  {
    var g := h + [e];
    assert g[|h|] == e;
  }

  lemma AliveUse(h: seq<Event>, e: Event, token: Token, now: int)
    requires e.Use? && e.token == token
    ensures Alive(h + [e], token, now) <==> Alive(h, token, e.at) && now <= e.renewed + LIFETIME
  {
    var g := h + [e];
    forall i | 0 <= i < |h|
      ensures AliveSince(g, token, now, i) <==> AliveSince(h, token, e.at, i) && now <= e.renewed + LIFETIME
    {
      AliveSinceExtends(h, e, token, now, i);
    }
    assert !AliveSince(g, token, now, |h|);
    assert forall i :: AliveSince(g, token, now, i) ==> 0 <= i < |h|;
  }

  /** The sessions of a server that is never restarted. */
  function Uninterrupted(h: seq<Event>): Sessions {
    if h == [] then map[]
    else
      var before := Uninterrupted(h[..|h| - 1]);
      var e := h[|h| - 1];
      if e.Restart? then before else Apply(World(before, None), e).sessions
  }

  lemma {:induction false} AliveIsValid(h: seq<Event>, token: Token, now: int)
    ensures Valid(Uninterrupted(h), token, now) <==> Alive(h, token, now)
  {
    if h == [] {
    } else {
      var before, e := h[..|h| - 1], h[|h| - 1];
      assert before + [e] == h;
      hide Alive;
      if !Concerns(e, token) {
        AliveOther(before, e, token, now);
        AliveIsValid(before, token, now);
      } else if e.Login? {
        AliveLogin(before, e, token, now);
      } else if e.Logout? {
        AliveLogout(before, e, token, now);
      } else {
        AliveUse(before, e, token, now);
        AliveIsValid(before, token, e.at);
      }
    }
  }

  lemma {:induction false} WithoutRestarts(h: seq<Event>)
    requires forall i | 0 <= i < |h| :: !h[i].Restart?
    ensures After(h).sessions == Uninterrupted(h)
  {
    if h == [] {
    } else {
      WithoutRestarts(h[..|h| - 1]);
    }
  }

  /** Without restarts, validToken says yes exactly while the session is alive. */
  lemma ValidExactlyWhileAlive(h: seq<Event>, token: Token, now: int)
    requires forall i | 0 <= i < |h| :: !h[i].Restart?
    ensures Valid(After(h).sessions, token, now) <==> Alive(h, token, now)
  {
    WithoutRestarts(h);
    AliveIsValid(h, token, now);
  }

  // ---------------------------------------------------------------- restarts

  /** The clock does not run backwards. */
  predicate Timely(h: seq<Event>) {
    && (forall i | 0 <= i < |h| :: h[i].at <= End(h[i]))
    && (forall i, j | 0 <= i < j < |h| :: End(h[i]) <= h[j].at)
  }

  /** The expiry of the token in memory is at least `exp`. */
  predicate Covers(sessions: Sessions, token: Token, exp: int) {
    token in sessions && exp <= sessions[token]
  }

  /** Event `j` is a logout that requireAuth let through. */
  predicate LogsOut(h: seq<Event>, j: int)
    requires 0 <= j < |h|
  {
    h[j].Logout? && Valid(After(h[..j]).sessions, h[j].token, h[j].at)
  }

  /** Event `j` wrote nothing: it is neither a login nor an accepted logout, or its write failed. */
  predicate LeavesFile(h: seq<Event>, j: int)
    requires 0 <= j < |h|
  {
    h[j].Login? || LogsOut(h, j) ==> h[j].write == Kept
  }

  ghost predicate UnsavedSince(h: seq<Event>, token: Token, i: int) {
    && 0 <= i < |h| && LogsOut(h, i) && h[i].token == token
    && forall j | i <= j < |h| :: LeavesFile(h, j) && !h[j].Restart? && !(h[j].Login? && h[j].token == token)
  }

  /** The token was logged out, and since then no write took effect, nor did it come back. */
  ghost predicate UnsavedLogout(h: seq<Event>, token: Token) {
    exists i :: UnsavedSince(h, token, i)
  }

  lemma UnsavedExtends(h: seq<Event>, e: Event, token: Token)
    ensures var g := h + [e];
            UnsavedLogout(g, token) <==>
              && LeavesFile(g, |h|) && !e.Restart? && !(e.Login? && e.token == token)
              && (UnsavedLogout(h, token) || (LogsOut(g, |h|) && e.token == token))
  {
    var g := h + [e];
    forall j | 0 <= j < |h|
      ensures LogsOut(g, j) <==> LogsOut(h, j)
    {
      assert g[..j] == h[..j];
    }
    forall j | 0 <= j < |h|
      ensures LeavesFile(g, j) <==> LeavesFile(h, j)
    {
      assert g[j] == h[j];
    }
    hide LogsOut;
    hide LeavesFile;
    forall i | UnsavedSince(h, token, i) && UnsavedSince(g, token, |h|)
      ensures UnsavedSince(g, token, i)
    {
    }
    if UnsavedLogout(h, token) && LeavesFile(g, |h|) && !e.Restart? && !(e.Login? && e.token == token) {
      var i :| UnsavedSince(h, token, i);
      assert UnsavedSince(g, token, i);
    }
    if LogsOut(g, |h|) && e.token == token && LeavesFile(g, |h|) {
      assert UnsavedSince(g, token, |h|);
    }
    if UnsavedLogout(g, token) {
      var i :| UnsavedSince(g, token, i);
      assert LeavesFile(g, |h|);
      if i < |h| { assert UnsavedSince(h, token, i); }
    }
  }

  /** What the file says of a token, when the clock shows `now`. */
  ghost predicate FileOk(w: World, h: seq<Event>, token: Token, now: int) {
    && (token in w.sessions ==> w.sessions[token] <= now + LIFETIME)
    && (UnsavedLogout(h, token) ==> token !in w.sessions)
    && (w.file.Some? && token in w.file.value ==>
          var exp := w.file.value[token] * SECOND;
          && exp <= now + LIFETIME
          && (Covers(w.sessions, token, exp) || exp <= now || UnsavedLogout(h, token)))
  }

  function Clock(h: seq<Event>): int
    requires h != []
  {
    End(h[|h| - 1])
  }

  lemma SavedIsEarlier(sessions: Sessions, token: Token)
    requires token in sessions
    ensures sessions[token] - SECOND < Persisted(sessions)[token] * SECOND <= sessions[token]
  {
  }

  lemma StepKeepsFileOk(h: seq<Event>, e: Event, token: Token, now: int)
    requires FileOk(After(h), h, token, now) && now <= e.at <= End(e)
    ensures FileOk(Apply(After(h), e), h + [e], token, End(e))
  {
    var w := After(h);
    var w' := Apply(w, e);
    var g := h + [e];
    assert g[..|h|] == h;
    UnsavedExtends(h, e, token);
    hide UnsavedLogout;
    hide After;
    if token in w'.sessions { SavedIsEarlier(w'.sessions, token); }
  }

  lemma {:induction false} FileOkAlways(h: seq<Event>, token: Token)
    requires h != [] && Timely(h)
    ensures FileOk(After(h), h, token, Clock(h))
  {
    var before, e := h[..|h| - 1], h[|h| - 1];
    assert before + [e] == h;
    if before == [] {
      assert FileOk(After(before), before, token, e.at);
      StepKeepsFileOk(before, e, token, e.at);
    } else {
      FileOkAlways(before, token);
      StepKeepsFileOk(before, e, token, Clock(before));
    }
  }

  /**
   * A restart gives back a token that was no longer valid exactly if the file still holds an unexpired
   * session for it, it was logged out, and no write took effect since.
   */
  lemma RestartRevives(h: seq<Event>, at: int, token: Token, now: int)
    requires Timely(h + [Restart(at)]) && at <= now
    ensures var before, after := After(h), After(h + [Restart(at)]);
            (Valid(after.sessions, token, now) && !Valid(before.sessions, token, now)) <==>
              && UnsavedLogout(h, token)
              && before.file.Some? && token in before.file.value
              && at < before.file.value[token] * SECOND && now <= before.file.value[token] * SECOND
  {
    var g := h + [Restart(at)];
    assert g[..|h|] == h;
    if h != [] {
      assert Timely(h) by {
        assert forall i | 0 <= i < |h| :: h[i] == g[i];
      }
      FileOkAlways(h, token);
      assert Clock(h) <= at by { assert g[|h| - 1] == h[|h| - 1]; }
    }
    assert After(g) == Apply(After(h), Restart(at));
    hide UnsavedLogout;
    hide After;
  }

  /** What the last write left in the file is still there. */
  lemma {:induction false} FileOfLastWrite(h: seq<Event>, i: nat)
    requires i < |h| && (h[i].Login? || LogsOut(h, i)) && h[i].write == Written
    requires forall j | i < j < |h| :: LeavesFile(h, j)
    ensures After(h).file == Some(Persisted(After(h[..i + 1]).sessions))
    decreases |h|
  {
    var n := |h| - 1;
    if i == n {
      assert h[..i + 1] == h;
    } else {
      var before := h[..n];
      assert before[..i] == h[..i] && before[..i + 1] == h[..i + 1];
      forall j | i < j < n
        ensures LeavesFile(before, j)
      {
        assert before[..j] == h[..j] && LeavesFile(h, j);
      }
      FileOfLastWrite(before, i);
      assert LeavesFile(h, n);
      hide Persisted;
    }
  }

  /**
   * After a restart exactly those sessions are valid that were in memory at the last write that took
   * effect, each up to the whole second in which it was to expire then.
   */
  lemma RestartRestores(h: seq<Event>, i: nat, at: int, token: Token, now: int)
    requires i < |h| && (h[i].Login? || LogsOut(h, i)) && h[i].write == Written
    requires forall j | i < j < |h| :: LeavesFile(h, j)
    ensures var saved := After(h[..i + 1]).sessions;
            Valid(After(h + [Restart(at)]).sessions, token, now) <==>
              && token in saved
              && at < saved[token] - saved[token] % 1_000_000_000
              && now <= saved[token] - saved[token] % 1_000_000_000
  {
    FileOfLastWrite(h, i);
    var g := h + [Restart(at)];
    assert g[..|h|] == h;
    assert After(g) == Apply(After(h), Restart(at));
    hide After;
  }

  /** Every restart in the history finds the logouts of the token saved. */
  ghost predicate LogoutsSaved(h: seq<Event>, token: Token) {
    forall i | 0 <= i < |h| && h[i].Restart? :: !UnsavedLogout(h[..i], token)
  }

  lemma {:induction false} RestartsForget(h: seq<Event>, token: Token)
    requires Timely(h) && LogoutsSaved(h, token)
    ensures token in After(h).sessions ==> Covers(Uninterrupted(h), token, After(h).sessions[token])
  {
    if h == [] {
    } else {
      var before, e := h[..|h| - 1], h[|h| - 1];
      assert forall i | 0 <= i < |before| :: before[i] == h[i] && before[..i] == h[..i];
      RestartsForget(before, token);
      if e.Restart? && before != [] { FileOkAlways(before, token); }
      hide UnsavedLogout;
    }
  }

  /**
   * In every run, with any number of restarts and failed writes: if each restart finds the logouts of
   * the token saved, a token that validToken accepts is one that a server without restarts would accept.
   */
  lemma RestartsNeverExtend(h: seq<Event>, token: Token, now: int)
    requires Timely(h) && LogoutsSaved(h, token)
    ensures Valid(After(h).sessions, token, now) ==> Alive(h, token, now)
  {
    RestartsForget(h, token);
    AliveIsValid(h, token, now);
  }

  /** That is so when no write fails. */
  lemma WritesSaveLogouts(h: seq<Event>, token: Token)
    requires forall i | 0 <= i < |h| :: h[i].Login? || h[i].Logout? ==> h[i].write == Written
    ensures LogoutsSaved(h, token) && !UnsavedLogout(h, token)
  {
    forall k, i | 0 <= i < k <= |h| && LogsOut(h[..k], i)
      ensures !LeavesFile(h[..k], i)
    {
      assert h[..k][i] == h[i];
    }
    assert h[..|h|] == h;
  }

  /** So with successful writes a restart never makes a token valid that was not valid just before it. */
  lemma RestartNeverRevives(h: seq<Event>, at: int, token: Token, now: int)
    requires Timely(h + [Restart(at)]) && at <= now
    requires forall i | 0 <= i < |h| :: h[i].Login? || h[i].Logout? ==> h[i].write == Written
    ensures Valid(After(h + [Restart(at)]).sessions, token, now) ==> Valid(After(h).sessions, token, now)
  {
    WritesSaveLogouts(h, token);
    RestartRevives(h, at, token, now);
  }

  /** A failed write does revive a token: login, logout whose write fails, restart. */
  lemma FailedWriteRevives()
    ensures var h := [Login("t", 0, Written), Logout("t", SECOND, SECOND, Kept)];
            && !Valid(After(h).sessions, "t", 2 * SECOND)
            && Valid(After(h + [Restart(2 * SECOND)]).sessions, "t", 2 * SECOND)
  {
    var e, f, g := Login("t", 0, Written), Logout("t", SECOND, SECOND, Kept), Restart(2 * SECOND);
    assert [e][..0] == [] && [e, f][..1] == [e] && [e, f, g][..2] == [e, f] && [e, f] + [g] == [e, f, g];
    assert After([e]) == Apply(After([]), e);
    assert After([e, f]) == Apply(After([e]), f);
    assert After([e, f, g]) == Apply(After([e, f]), g);
  }

  // ---------------------------------------------------------------- nothing comes from nothing

  /**
   * `h[login]` issued the token; `h[touch]`, a login with it or a request that was accepted, moved its
   * expiry to `exp` or beyond.
   */
  predicate BackedBy(h: seq<Event>, token: Token, exp: int, login: int, touch: int) {
    && 0 <= login <= touch < |h|
    && h[login].Login? && h[login].token == token
    && Concerns(h[touch], token) && !h[touch].Logout?
    && (h[touch].Use? ==> Valid(After(h[..touch]).sessions, token, h[touch].at))
    && exp <= End(h[touch]) + 28_800_000_000_000
  }

  ghost predicate Backed(h: seq<Event>, token: Token, exp: int) {
    exists login, touch :: BackedBy(h, token, exp, login, touch)
  }

  lemma BackedStays(h: seq<Event>, e: Event, token: Token, exp: int)
    requires Backed(h, token, exp)
    ensures Backed(h + [e], token, exp)
    ensures e.Use? && e.token == token && Valid(After(h).sessions, token, e.at) ==>
              Backed(h + [e], token, e.renewed + LIFETIME)
  {
    var login, touch :| BackedBy(h, token, exp, login, touch);
    assert (h + [e])[..touch] == h[..touch];
    assert BackedBy(h + [e], token, exp, login, touch);
    if e.Use? && e.token == token && Valid(After(h).sessions, token, e.at) {
      assert (h + [e])[..|h|] == h;
      assert BackedBy(h + [e], token, e.renewed + LIFETIME, login, |h|);
    }
  }

  lemma PersistedBacked(h: seq<Event>, token: Token)
    requires token in After(h).sessions
    ensures var sessions := After(h).sessions;
            Backed(h, token, sessions[token]) ==> Backed(h, token, Persisted(sessions)[token] * SECOND)
  {
    var sessions := After(h).sessions;
    SavedIsEarlier(sessions, token);
    if Backed(h, token, sessions[token]) {
      var login, touch :| BackedBy(h, token, sessions[token], login, touch);
      assert BackedBy(h, token, Persisted(sessions)[token] * SECOND, login, touch);
    }
  }

  lemma {:induction false} AllBacked(h: seq<Event>, token: Token)
    ensures var w := After(h);
            && (token in w.sessions ==> Backed(h, token, w.sessions[token]))
            && (w.file.Some? && token in w.file.value ==> Backed(h, token, w.file.value[token] * SECOND))
  {
    if h == [] {
    } else {
      var before, e := h[..|h| - 1], h[|h| - 1];
      assert before + [e] == h;
      AllBacked(before, token);
      var w := After(before);
      if token in w.sessions { BackedStays(before, e, token, w.sessions[token]); }
      if w.file.Some? && token in w.file.value { BackedStays(before, e, token, w.file.value[token] * SECOND); }
      if e.Login? && e.token == token { assert BackedBy(h, token, e.at + LIFETIME, |before|, |before|); }
      if token in After(h).sessions { PersistedBacked(h, token); }
    }
  }

  /**
   * In every run, whatever writes failed and however often the server was restarted, a token that is
   * accepted was issued by a login, and a login or an accepted request with it is at most 8 hours ago.
   */
  lemma AcceptedIsRecent(h: seq<Event>, token: Token, now: int)
    requires Valid(After(h).sessions, token, now)
    ensures Backed(h, token, now)
  {
    AllBacked(h, token);
    var exp := After(h).sessions[token];
    var login, touch :| BackedBy(h, token, exp, login, touch);
    assert BackedBy(h, token, now, login, touch);
  }
}
