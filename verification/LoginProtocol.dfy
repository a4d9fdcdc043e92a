/**
 Whole runs of the login registry: one call at a time holds the registry lock,
 while sessions are dropped and closed and other code of the process opens
 sessions, logs in and out and changes PINs at any moment in between.
 */
module LoginProtocol {
  import opened Wrappers
  import opened Bytes
  import opened LoginRecords

  // ---- States and steps ---------------------------------------------------

  /** What the token and the process know of one token. The last three fields
      are history, read by no step. */
  datatype Token = Token(
    pin: Pin,                 // the PIN set on the token
    login: Option<Pin>,       // the PIN the login in effect was made with
    open: set<SessionId>,     // riptering's sessions that are not closed
    alive: set<SessionId>,    // those of them still referenced
    outside: nat,             // sessions opened past riptering
    lastOk: Option<Pin>,      // the PIN of riptering's latest successful C_Login
    unbroken: bool,           // some riptering session was open ever since
    loggedOut: bool)          // C_Logout was called since

  /** The call that holds the registry lock. */
  datatype Call = Call(token: TokenIdentity, pin: Pin, verifier: Octets)

  datatype Pending =
    | Idle
    | AfterTrack(call: Call)
    | AfterOpen(call: Call, session: SessionId)
    | AfterLogin(call: Call, session: SessionId, answer: LoginAnswer)

  datatype State = State(
    registry: RegistryState, tokens: map<TokenIdentity, Token>, pending: Pending, next: SessionId)

  datatype Event =
    // open_session_on_slot, in the order of its calls
    | Acquire(token: TokenIdentity, pin: Pin, random: Octets)
    | OpenSession(ok: bool)
    | CLogin(fail: bool)
    | Finish
    // one that ends before `track`: the generator or the digest failed
    | Refuse(token: TokenIdentity, drawn: Result<Octets>)
    // the rest of the process
    | Drop(token: TokenIdentity, session: SessionId)
    | Close(token: TokenIdentity, session: SessionId)
    | OutsideOpen(token: TokenIdentity)
    | OutsideClose(token: TokenIdentity)
    | OutsideLogin(token: TokenIdentity)
    | SetPin(token: TokenIdentity, pin: Pin)
    | Logout(token: TokenIdentity)

  /** The session a call holds before it is granted; nobody else can close it. */
  function HeldSession(p: Pending): Option<SessionId> {
    match p
    case AfterOpen(_, session) => Some(session)
    case AfterLogin(_, session, _) => Some(session)
    case _ => None
  }

  predicate Enabled(s: State, e: Event) {
    match e
    case Acquire(t, _, random) => s.pending.Idle? && t in s.tokens && |random| == PIN_VERIFIER_KEY_LEN
    case OpenSession(_) => s.pending.AfterTrack? && s.pending.call.token in s.tokens
    case CLogin(_) => s.pending.AfterOpen? && s.pending.call.token in s.tokens
    case Finish => s.pending.AfterLogin? && s.pending.call.token in s.tokens
    case Refuse(t, drawn) =>
      s.pending.Idle? && t in s.tokens && (drawn.Ok? ==> |drawn.value| == PIN_VERIFIER_KEY_LEN)
    case Drop(t, session) => t in s.tokens && session in s.tokens[t].alive
    case Close(t, session) =>
      t in s.tokens && session in s.tokens[t].open - s.tokens[t].alive
      && HeldSession(s.pending) != Some(session)
    case OutsideOpen(t) => t in s.tokens
    case OutsideClose(t) => t in s.tokens && s.tokens[t].outside > 0
    case OutsideLogin(t) => t in s.tokens && s.tokens[t].login.None? && s.tokens[t].outside > 0
    case SetPin(t, _) => t in s.tokens
    case Logout(t) => t in s.tokens && s.tokens[t].login.Some?
  }

  /** Login state lasts while any session of the application is open. */
  predicate InUse(t: Token) {
    t.open != {} || t.outside > 0
  }

  function Closed(t: Token, session: SessionId): Token {
    var left := t.(open := t.open - {session}, alive := t.alive - {session});
    left.(login := if InUse(left) then t.login else None,
          unbroken := t.unbroken && left.open != {})
  }

  function TokenAnswer(t: Token, pin: Pin, fail: bool): LoginAnswer {
    if fail then Failed
    else if t.login.Some? then AlreadyLoggedIn
    else if t.pin == pin then LoggedIn
    else Failed
  }

  function Next(s: State, mac: Mac, e: Event): State
    requires Enabled(s, e)
  {
    match e
    case Acquire(t, pin, random) =>
      var keyed := Keyed(s.registry, Ok(random));
      s.(registry := Put(keyed, t, Tracked(Lookup(keyed, t), s.tokens[t].alive)),
         pending := AfterTrack(Call(t, pin, mac(keyed.key.value, pin))))
    case OpenSession(ok) =>
      var c := s.pending.call;
      if !ok then s.(pending := Idle) else
      s.(tokens := s.tokens[c.token := s.tokens[c.token].(open := s.tokens[c.token].open + {s.next})],
         next := s.next + 1,
         pending := AfterOpen(c, s.next))
    case CLogin(fail) =>
      var c := s.pending.call;
      var t := s.tokens[c.token];
      var answer := TokenAnswer(t, c.pin, fail);
      s.(pending := AfterLogin(c, s.pending.session, answer),
         tokens := s.tokens[c.token :=
           if answer == LoggedIn then
             t.(login := Some(c.pin), lastOk := Some(c.pin), unbroken := true, loggedOut := false)
           else t])
    case Finish =>
      var (c, session) := (s.pending.call, s.pending.session);
      var t := s.tokens[c.token];
      var (record, granted) := Answered(Lookup(s.registry, c.token), c.verifier, s.pending.answer);
      State(Put(s.registry, c.token, if granted then Joined(record, session) else record),
            s.tokens[c.token := if granted then t.(alive := t.alive + {session}) else Closed(t, session)],
            Idle, s.next)
    case Refuse(_, drawn) =>
      s.(registry := Keyed(s.registry, drawn))
    case Drop(t, session) =>
      s.(tokens := s.tokens[t := s.tokens[t].(alive := s.tokens[t].alive - {session})])
    case Close(t, session) =>
      s.(tokens := s.tokens[t := Closed(s.tokens[t], session)])
    case OutsideOpen(t) =>
      s.(tokens := s.tokens[t := s.tokens[t].(outside := s.tokens[t].outside + 1)])
    case OutsideClose(t) =>
      var left := s.tokens[t].(outside := s.tokens[t].outside - 1);
      s.(tokens := s.tokens[t := left.(login := if InUse(left) then left.login else None)])
    case OutsideLogin(t) =>
      s.(tokens := s.tokens[t := s.tokens[t].(login := Some(s.tokens[t].pin))])
    case SetPin(t, pin) =>
      s.(tokens := s.tokens[t := s.tokens[t].(pin := pin)])
    case Logout(t) =>
      s.(tokens := s.tokens[t := s.tokens[t].(login := None, loggedOut := true)])
  }

  /** A process that starts, with logins made past riptering perhaps in place. */
  predicate Init(s: State) {
    && s.registry == RegistryState(None, map[])
    && s.pending == Idle
    && (forall t :: t in s.tokens ==>
          && s.tokens[t].open == {} && s.tokens[t].alive == {}
          && (s.tokens[t].login.Some? ==> s.tokens[t].outside > 0)
          && s.tokens[t].lastOk == None && !s.tokens[t].unbroken && !s.tokens[t].loggedOut)
  }

  predicate Runs(s: State, mac: Mac, es: seq<Event>)
    decreases |es|
  {
    es == [] || (Enabled(s, es[0]) && Runs(Next(s, mac, es[0]), mac, es[1..]))
  }

  function After(s: State, mac: Mac, es: seq<Event>): State
    requires Runs(s, mac, es)
    decreases |es|
  {
    if es == [] then s else After(Next(s, mac, es[0]), mac, es[1..])
  }

  /** HMAC under one key: distinct PINs, distinct nonempty verifiers. */
  ghost predicate MacOk(mac: Mac) {
    && (forall k, p, q :: mac(k, p) == mac(k, q) ==> p == q)
    && (forall k, p :: mac(k, p) != [])
  }

  function Record(s: State, t: TokenIdentity): RecordState {
    Lookup(s.registry, t)
  }

  // ---- The grants ---------------------------------------------------------

  predicate Grants(s: State, e: Event) {
    && e.Finish? && s.pending.AfterLogin?
    && Answered(Record(s, s.pending.call.token), s.pending.call.verifier, s.pending.answer).1
  }

  /** What a granted PIN must be: the PIN of riptering's latest successful
      C_Login, with a riptering session open ever since; and the PIN of the login
      in effect, unless C_Logout intervened. */
  predicate RightGrant(s: State)
    requires s.pending.AfterLogin? && s.pending.call.token in s.tokens
  {
    var (t, pin) := (s.tokens[s.pending.call.token], s.pending.call.pin);
    t.lastOk == Some(pin) && t.unbroken && (!t.loggedOut ==> t.login == Some(pin))
  }

  predicate GrantsAreRight(s: State, mac: Mac, es: seq<Event>)
    requires Runs(s, mac, es)
    decreases |es|
  {
    es != [] ==>
      && (Grants(s, es[0]) ==> RightGrant(s))
      && GrantsAreRight(Next(s, mac, es[0]), mac, es[1..])
  }

  /** When C_OpenSession is called, a session riptering recorded on the token is
      still open, or the PIN does not match the record. */
  predicate Covered(s: State)
    requires s.pending.AfterTrack?
  {
    var t := s.pending.call.token;
    t in s.tokens && (Judge(Record(s, t), s.pending.call.verifier) != Match || RecordedOpen(s, t))
  }

  predicate RecordedOpen(s: State, t: TokenIdentity)
    requires t in s.tokens
  {
    exists x :: x in Record(s, t).sessions && x in s.tokens[t].open
  }

  predicate Gapless(s: State, mac: Mac, es: seq<Event>)
    requires Runs(s, mac, es)
    decreases |es|
  {
    es != [] ==>
      && (es[0].OpenSession? ==> Covered(s))
      && Gapless(Next(s, mac, es[0]), mac, es[1..])
  }

  // ---- The invariant ------------------------------------------------------

  predicate TokenInv(t: Token, next: SessionId) {
    && t.alive <= t.open
    && (forall x :: x in t.open ==> x < next)
    && (t.login.Some? ==> InUse(t))
    && (t.lastOk.Some? && t.unbroken && !t.loggedOut ==> t.login == t.lastOk)
    && (t.unbroken ==> t.open != {})
  }

  /** A token accepted the PIN of the pending call, not yet recorded. */
  predicate Accepting(p: Pending, t: TokenIdentity) {
    p.AfterLogin? && p.call.token == t && p.answer == LoggedIn
  }

  predicate VerifierInv(s: State, mac: Mac, t: TokenIdentity)
    requires t in s.tokens
  {
    Record(s, t).verifier.Some? && !Accepting(s.pending, t) ==>
      && s.registry.key.Some? && s.tokens[t].lastOk.Some?
      && Record(s, t).verifier.value == mac(s.registry.key.value, s.tokens[t].lastOk.value)
      && (RecordedOpen(s, t) ==> s.tokens[t].unbroken)
  }

  predicate PendingInv(s: State, mac: Mac) {
    s.pending.Idle? ||
    (var c := s.pending.call;
     && c.token in s.tokens && s.registry.key.Some?
     && c.verifier == mac(s.registry.key.value, c.pin)
     && (s.pending.AfterTrack? || HoldingInv(s)))
  }

  /** A call that holds a session: if its PIN matches the record, riptering
      sessions have been open since the login the record is of. */
  predicate HoldingInv(s: State)
    requires HeldSession(s.pending).Some? && s.pending.call.token in s.tokens
  {
    var (c, t) := (s.pending.call, s.tokens[s.pending.call.token]);
    && s.pending.session in t.open - t.alive
    && (Judge(Record(s, c.token), c.verifier) == Match && !Accepting(s.pending, c.token) ==> t.unbroken)
    && (Accepting(s.pending, c.token) ==> t.lastOk == Some(c.pin) && t.unbroken)
  }

  /** Everything that is kept about one token. */
  predicate At(s: State, mac: Mac, t: TokenIdentity)
    requires t in s.tokens
  {
    && TokenInv(s.tokens[t], s.next)
    && RecordInv(Record(s, t))
    && (forall x :: x in Record(s, t).sessions ==> x < s.next)
    && (forall x :: x in s.tokens[t].alive ==> x in Record(s, t).sessions)
    && VerifierInv(s, mac, t)
  }

  ghost predicate Inv(s: State, mac: Mac) {
    && (forall t :: t in s.tokens ==> At(s, mac, t))
    && PendingInv(s, mac)
  }

  lemma InitInv(s: State, mac: Mac)
    requires Init(s)
    ensures Inv(s, mac)
  {
  }

  lemma AcquireInv(s: State, mac: Mac, e: Event)
    requires MacOk(mac) && Inv(s, mac) && Enabled(s, e) && e.Acquire?
    ensures Inv(Next(s, mac, e), mac)
  {
    var s' := Next(s, mac, e);
    forall t | t in s'.tokens
      ensures At(s', mac, t)
    {
      assert At(s, mac, t);
    }
  }

  lemma OpenSessionInv(s: State, mac: Mac, e: Event)
    requires Inv(s, mac) && Enabled(s, e) && e.OpenSession? && Covered(s)
    ensures Inv(Next(s, mac, e), mac)
  {
    var s' := Next(s, mac, e);
    forall t | t in s'.tokens
      ensures At(s', mac, t)
    {
      assert At(s, mac, t);
    }
    assert At(s, mac, s.pending.call.token);
  }

  lemma CLoginInv(s: State, mac: Mac, e: Event)
    requires Inv(s, mac) && Enabled(s, e) && e.CLogin?
    ensures Inv(Next(s, mac, e), mac)
  {
    var s' := Next(s, mac, e);
    forall t | t in s'.tokens
      ensures At(s', mac, t)
    {
      assert At(s, mac, t);
    }
  }

  lemma AnsweredKeeps(r: RecordState, verifier: Octets, answer: LoginAnswer)
    requires RecordInv(r) && verifier != []
    ensures var (r', granted) := Answered(r, verifier, answer);
            && RecordInv(r') && r'.sessions == r.sessions
            && (answer == LoggedIn ==> granted && r'.verifier == Some(verifier))
            && (answer != LoggedIn && r'.verifier.Some? ==> r'.verifier == r.verifier)
            && (answer != LoggedIn && granted ==> r'.verifier == r.verifier == Some(verifier))
  {
  }

  lemma FinishAtToken(s: State, mac: Mac, t: TokenIdentity)
    requires MacOk(mac) && Inv(s, mac) && Enabled(s, Finish) && t == s.pending.call.token
    ensures At(Next(s, mac, Finish), mac, t)
  {
    var c := s.pending.call;
    assert At(s, mac, t);
    AnsweredKeeps(Record(s, t), c.verifier, s.pending.answer);
    var s' := Next(s, mac, Finish);
    assert TokenInv(s'.tokens[t], s'.next);
    if Grants(s, Finish) {
      assert s'.tokens[t].unbroken;
      assert s'.tokens[t].lastOk == Some(c.pin);
    } else {
      assert Record(s', t).sessions == Record(s, t).sessions;
      assert RecordedOpen(s', t) ==> RecordedOpen(s, t) && s'.tokens[t].open != {};
    }
  }

  lemma FinishInv(s: State, mac: Mac, e: Event)
    requires MacOk(mac) && Inv(s, mac) && Enabled(s, e) && e.Finish?
    ensures Inv(Next(s, mac, e), mac)
  {
    FinishAtToken(s, mac, s.pending.call.token);
    var s' := Next(s, mac, e);
    forall t | t in s'.tokens && t != s.pending.call.token
      ensures At(s', mac, t)
    {
      assert At(s, mac, t);
    }
  }

  predicate IsOutside(e: Event) {
    !e.Acquire? && !e.OpenSession? && !e.CLogin? && !e.Finish? && !e.Refuse?
  }

  lemma OutsidePending(s: State, mac: Mac, e: Event)
    requires Inv(s, mac) && Enabled(s, e) && IsOutside(e)
    ensures PendingInv(Next(s, mac, e), mac)
  {
    if HeldSession(s.pending).Some? {
      var t := s.pending.call.token;
      assert At(s, mac, t);
      var s' := Next(s, mac, e);
      assert Record(s', t) == Record(s, t);
      assert s.pending.session in s'.tokens[t].open;
      assert s'.tokens[t].lastOk == s.tokens[t].lastOk;
      assert s.tokens[t].unbroken ==> s'.tokens[t].unbroken;
    }
  }

  /** What steps outside a call can do to a token. */
  lemma OutsideToken(s: State, mac: Mac, e: Event, t: TokenIdentity)
    requires Enabled(s, e) && IsOutside(e) && t in s.tokens && TokenInv(s.tokens[t], s.next)
    ensures var s' := Next(s, mac, e);
            && s'.registry == s.registry && s'.pending == s.pending && s'.next == s.next
            && t in s'.tokens && TokenInv(s'.tokens[t], s.next)
            && s'.tokens[t].lastOk == s.tokens[t].lastOk
            && s'.tokens[t].alive <= s.tokens[t].alive && s'.tokens[t].open <= s.tokens[t].open
            && (s'.tokens[t].unbroken <==> s.tokens[t].unbroken && s'.tokens[t].open != {})
  {
  }

  lemma OutsideAt(s: State, mac: Mac, e: Event, t: TokenIdentity)
    requires Inv(s, mac) && Enabled(s, e) && IsOutside(e) && t in s.tokens
    ensures t in Next(s, mac, e).tokens && At(Next(s, mac, e), mac, t)
  {
    assert At(s, mac, t);
    OutsideToken(s, mac, e, t);
    assert RecordedOpen(Next(s, mac, e), t) ==> RecordedOpen(s, t);
  }

  lemma OutsideInv(s: State, mac: Mac, e: Event)
    requires Inv(s, mac) && Enabled(s, e) && IsOutside(e)
    ensures Inv(Next(s, mac, e), mac)
  {
    OutsidePending(s, mac, e);
    var s' := Next(s, mac, e);
    assert s'.tokens.Keys == s.tokens.Keys;
    forall t | t in s'.tokens
      ensures At(s', mac, t)
    {
      OutsideAt(s, mac, e, t);
    }
  }

  lemma RefuseInv(s: State, mac: Mac, e: Event)
    requires Inv(s, mac) && Enabled(s, e) && e.Refuse?
    ensures Inv(Next(s, mac, e), mac)
  {
    var s' := Next(s, mac, e);
    forall t | t in s'.tokens
      ensures At(s', mac, t)
    {
      assert At(s, mac, t);
      assert Record(s', t) == Record(s, t);
    }
  }

  /** Every step keeps the invariant, a gap at C_OpenSession excepted. */
  lemma {:induction false} NextInv(s: State, mac: Mac, e: Event)
    requires MacOk(mac) && Inv(s, mac) && Enabled(s, e)
    requires e.OpenSession? ==> Covered(s)
    ensures Inv(Next(s, mac, e), mac)
  {
    match e
    case Acquire(_, _, _) => AcquireInv(s, mac, e);
    case OpenSession(_) => OpenSessionInv(s, mac, e);
    case CLogin(_) => CLoginInv(s, mac, e);
    case Finish => FinishInv(s, mac, e);
    case Refuse(_, _) => RefuseInv(s, mac, e);
    case _ => OutsideInv(s, mac, e);
  }

  lemma GrantIsRight(s: State, mac: Mac, e: Event)
    requires MacOk(mac) && Inv(s, mac) && Enabled(s, e) && Grants(s, e)
    ensures RightGrant(s)
  {
    assert At(s, mac, s.pending.call.token);
  }

  // ---- Safety of whole runs -----------------------------------------------

  /** In every run from the start in which no gap opens, every grant is right. */
  lemma {:induction false} SafeFrom(s: State, mac: Mac, es: seq<Event>)
    requires MacOk(mac) && Inv(s, mac) && Runs(s, mac, es) && Gapless(s, mac, es)
    ensures GrantsAreRight(s, mac, es)
    ensures Inv(After(s, mac, es), mac)
    decreases |es|
  {
    if es != [] {
      if Grants(s, es[0]) {
        GrantIsRight(s, mac, es[0]);
      }
      NextInv(s, mac, es[0]);
      SafeFrom(Next(s, mac, es[0]), mac, es[1..]);
    }
  }

  predicate WithoutLogout(es: seq<Event>) {
    forall i :: 0 <= i < |es| ==> !es[i].Logout?
  }

  /** Every grant is for the PIN of the login in effect on its token. */
  predicate GrantsJoinTheLogin(s: State, mac: Mac, es: seq<Event>)
    requires Runs(s, mac, es)
    decreases |es|
  {
    es != [] ==>
      && (Grants(s, es[0]) ==> s.tokens[s.pending.call.token].login == Some(s.pending.call.pin))
      && GrantsJoinTheLogin(Next(s, mac, es[0]), mac, es[1..])
  }

  predicate NeverLoggedOut(s: State) {
    forall t :: t in s.tokens ==> !s.tokens[t].loggedOut
  }

  lemma StaysLoggedIn(s: State, mac: Mac, e: Event)
    requires NeverLoggedOut(s) && Enabled(s, e) && !e.Logout?
    ensures NeverLoggedOut(Next(s, mac, e))
  {
  }

  lemma {:induction false} SafeWithoutLogoutFrom(s: State, mac: Mac, es: seq<Event>)
    requires MacOk(mac) && Inv(s, mac) && Runs(s, mac, es) && Gapless(s, mac, es)
    requires NeverLoggedOut(s) && WithoutLogout(es)
    ensures GrantsJoinTheLogin(s, mac, es)
    decreases |es|
  {
    if es != [] {
      if Grants(s, es[0]) {
        GrantIsRight(s, mac, es[0]);
      }
      NextInv(s, mac, es[0]);
      StaysLoggedIn(s, mac, es[0]);
      SafeWithoutLogoutFrom(Next(s, mac, es[0]), mac, es[1..]);
    }
  }

  /** Where nobody logs out, right grants join the login. */
  lemma {:induction false} RightGrantsJoin(s: State, mac: Mac, es: seq<Event>)
    requires Runs(s, mac, es) && NeverLoggedOut(s) && WithoutLogout(es) && GrantsAreRight(s, mac, es)
    requires s.pending.Idle? || s.pending.call.token in s.tokens
    ensures GrantsJoinTheLogin(s, mac, es)
    decreases |es|
  {
    if es != [] {
      StaysLoggedIn(s, mac, es[0]);
      RightGrantsJoin(Next(s, mac, es[0]), mac, es[1..]);
    }
  }

  /** The promise of the registry: in a run from the start without a gap, every
      granted PIN is that of riptering's latest successful C_Login, with a
      session of its own open ever since; without C_Logout it is the PIN of the
      login in effect. */
  lemma GrantedPins(s: State, mac: Mac, es: seq<Event>)
    requires MacOk(mac) && Init(s) && Runs(s, mac, es) && Gapless(s, mac, es)
    ensures GrantsAreRight(s, mac, es)
    ensures WithoutLogout(es) ==> GrantsJoinTheLogin(s, mac, es)
  {
    InitInv(s, mac);
    SafeFrom(s, mac, es);
    if WithoutLogout(es) {
      SafeWithoutLogoutFrom(s, mac, es);
    }
  }

  // ---- Runs put together --------------------------------------------------

  lemma OneStep(s: State, mac: Mac, e: Event)
    requires Enabled(s, e)
    ensures Runs(s, mac, [e]) && After(s, mac, [e]) == Next(s, mac, e)
  {
    assert Runs(Next(s, mac, e), mac, [e][1..]);
  }

  lemma MoreSteps(s: State, mac: Mac, e: Event, es: seq<Event>)
    requires Enabled(s, e) && Runs(Next(s, mac, e), mac, es)
    ensures Runs(s, mac, [e] + es) && After(s, mac, [e] + es) == After(Next(s, mac, e), mac, es)
  {
    assert ([e] + es)[1..] == es;
  }

  lemma {:induction false} RunsAppend(s: State, mac: Mac, es: seq<Event>, e: Event)
    requires Runs(s, mac, es) && Enabled(After(s, mac, es), e)
    ensures Runs(s, mac, es + [e])
    ensures After(s, mac, es + [e]) == Next(After(s, mac, es), mac, e)
    decreases |es|
  {
    if es == [] {
      assert es + [e] == [e];
      OneStep(s, mac, e);
    } else {
      RunsAppend(Next(s, mac, es[0]), mac, es[1..], e);
      assert (es + [e])[1..] == es[1..] + [e];
    }
  }

  // ---- Lockout ------------------------------------------------------------

  /** The pending call on t finishes with "already logged in" judged so. */
  predicate Finishes(s: State, e: Event, t: TokenIdentity, verdict: Verdict) {
    && e.Finish? && s.pending.AfterLogin? && s.pending.call.token == t
    && s.pending.answer == AlreadyLoggedIn
    && Judge(Record(s, t), s.pending.call.verifier) == verdict
  }

  /** The ways out of a lockout: the token accepts a C_Login of riptering's, or
      none of its sessions is left. */
  predicate StartsAfresh(s: State, e: Event, t: TokenIdentity)
    requires Enabled(s, e)
  {
    || (e.Finish? && Accepting(s.pending, t))
    || (e.Acquire? && e.token == t && Retain(Record(s, t).sessions, s.tokens[t].alive) == [])
  }

  /** The wrong PINs a run compares with the verifier of t. */
  function WrongPins(s: State, mac: Mac, es: seq<Event>, t: TokenIdentity): nat
    requires Runs(s, mac, es)
    decreases |es|
  {
    if es == [] then 0
    else (if Finishes(s, es[0], t, Mismatch) then 1 else 0) + WrongPins(Next(s, mac, es[0]), mac, es[1..], t)
  }

  /** No fresh start on t, and no match either unless `matches` allows it. */
  predicate Uninterrupted(s: State, mac: Mac, es: seq<Event>, t: TokenIdentity, matches: bool)
    requires Runs(s, mac, es)
    decreases |es|
  {
    es != [] ==>
      && !StartsAfresh(s, es[0], t)
      && (!matches ==> !Finishes(s, es[0], t, Match))
      && Uninterrupted(Next(s, mac, es[0]), mac, es[1..], t, matches)
  }

  lemma MismatchStep(s: State, mac: Mac, e: Event, t: TokenIdentity)
    requires Enabled(s, e) && !StartsAfresh(s, e, t)
    requires Record(s, t).mismatches <= MAX_PIN_MISMATCHES
    ensures var (before, after) := (Record(s, t).mismatches, Record(Next(s, mac, e), t).mismatches);
            && after <= MAX_PIN_MISMATCHES
            && (Finishes(s, e, t, Mismatch) ==> after == before + 1)
            && (!Finishes(s, e, t, Mismatch) && !Finishes(s, e, t, Match) ==> after == before)
            && (before == MAX_PIN_MISMATCHES ==> after == before && !Finishes(s, e, t, Match))
  {
  }

  /** The pending call on t finishes with a PIN compared with the verifier of t,
      and equal to it or not. */
  predicate Compares(s: State, e: Event, t: TokenIdentity, equal: bool) {
    && e.Finish? && s.pending.AfterLogin? && s.pending.call.token == t
    && s.pending.answer == AlreadyLoggedIn
    && Record(s, t).mismatches < 3 && Record(s, t).verifier.Some?
    && (equal <==> Record(s, t).verifier.value == s.pending.call.verifier)
  }

  /** What each step does to the counter and the verifier of a token. */
  lemma CounterStep(s: State, mac: Mac, e: Event, t: TokenIdentity)
    requires Enabled(s, e)
    ensures var (before, after) := (Record(s, t), Record(Next(s, mac, e), t));
            && (StartsAfresh(s, e, t) ==> after.mismatches == 0)
            && (StartsAfresh(s, e, t) && e.Finish? ==> after.verifier == Some(s.pending.call.verifier))
            && (StartsAfresh(s, e, t) && e.Acquire? ==> after.verifier == None)
            && (Compares(s, e, t, true) ==> after.mismatches == 0 && after.verifier == before.verifier)
            && (Compares(s, e, t, false) ==>
                  && after.mismatches == before.mismatches + 1
                  && after.verifier == if before.mismatches == 2 then None else before.verifier)
            && (!StartsAfresh(s, e, t) && !Compares(s, e, t, true) && !Compares(s, e, t, false) ==>
                  after.mismatches == before.mismatches && after.verifier == before.verifier)
  {
  }

  /** The wrong PINs compared with the verifier of t since the latest match or
      fresh start, or with `count` before the run. */
  function WrongPinsSince(s: State, mac: Mac, es: seq<Event>, t: TokenIdentity, count: nat): nat
    requires Runs(s, mac, es)
    decreases |es|
  {
    if es == [] then count
    else
      WrongPinsSince(Next(s, mac, es[0]), mac, es[1..], t,
                     if StartsAfresh(s, es[0], t) || Compares(s, es[0], t, true) then 0
                     else if Compares(s, es[0], t, false) then count + 1
                     else count)
  }

  /** At most three wrong PINs, and after the third no verifier. */
  predicate Guarded(r: RecordState) {
    r.mismatches < 3 || (r.mismatches == 3 && r.verifier == None)
  }

  /** In every run the counter is the number of wrong PINs in a row, at most
      three, and the third one takes the verifier. */
  lemma {:induction false} CounterIsWrongPins(s: State, mac: Mac, es: seq<Event>, t: TokenIdentity)
    requires Runs(s, mac, es)
    ensures Record(After(s, mac, es), t).mismatches == WrongPinsSince(s, mac, es, t, Record(s, t).mismatches)
    ensures Guarded(Record(s, t)) ==> Guarded(Record(After(s, mac, es), t))
    decreases |es|
  {
    if es != [] {
      CounterStep(s, mac, es[0], t);
      CounterIsWrongPins(Next(s, mac, es[0]), mac, es[1..], t);
    }
  }

  /** From a start the count begins at none. */
  lemma CounterFromStart(s: State, mac: Mac, es: seq<Event>, t: TokenIdentity)
    requires Init(s) && Runs(s, mac, es)
    ensures Record(After(s, mac, es), t).mismatches == WrongPinsSince(s, mac, es, t, 0) <= 3
  {
    CounterIsWrongPins(s, mac, es, t);
  }

  /** Between fresh starts and matches the counter counts the wrong PINs, and
      there are at most three of them. */
  lemma {:induction false} WrongPinsCounted(s: State, mac: Mac, es: seq<Event>, t: TokenIdentity)
    requires Runs(s, mac, es) && Uninterrupted(s, mac, es, t, false)
    requires Record(s, t).mismatches <= MAX_PIN_MISMATCHES
    ensures Record(After(s, mac, es), t).mismatches == Record(s, t).mismatches + WrongPins(s, mac, es, t)
    ensures WrongPins(s, mac, es, t) <= 3 - Record(s, t).mismatches
    decreases |es|
  {
    if es != [] {
      MismatchStep(s, mac, es[0], t);
      WrongPinsCounted(Next(s, mac, es[0]), mac, es[1..], t);
    }
  }

  /** No join of t is granted in the run, whatever the PIN. */
  predicate NoJoin(s: State, mac: Mac, es: seq<Event>, t: TokenIdentity)
    requires Runs(s, mac, es)
    decreases |es|
  {
    es != [] ==> !Finishes(s, es[0], t, Match) && NoJoin(Next(s, mac, es[0]), mac, es[1..], t)
  }

  /** After the third wrong PIN every join is refused, the right PIN included,
      until riptering logs in afresh or has no session left. */
  lemma {:induction false} LockedOut(s: State, mac: Mac, es: seq<Event>, t: TokenIdentity)
    requires Runs(s, mac, es) && Uninterrupted(s, mac, es, t, true)
    requires Record(s, t).mismatches == MAX_PIN_MISMATCHES
    ensures NoJoin(s, mac, es, t)
    ensures Record(After(s, mac, es), t).mismatches == MAX_PIN_MISMATCHES
    decreases |es|
  {
    if es != [] {
      MismatchStep(s, mac, es[0], t);
      LockedOut(Next(s, mac, es[0]), mac, es[1..], t);
    }
  }

  /** What holds of every record in every run, gaps or not. */
  ghost predicate Consistent(s: State) {
    && (forall t :: RecordInv(Record(s, t)))
    && (!s.pending.Idle? ==> s.pending.call.verifier != [])
  }

  lemma {:induction false} RecordsStayConsistent(s: State, mac: Mac, es: seq<Event>)
    requires MacOk(mac) && Runs(s, mac, es) && (Init(s) || Consistent(s))
    ensures Consistent(After(s, mac, es))
    decreases |es|
  {
    assert Consistent(s);
    if es != [] {
      var s' := Next(s, mac, es[0]);
      forall t
        ensures RecordInv(Record(s', t))
      {
        assert RecordInv(Record(s, t));
      }
      RecordsStayConsistent(s', mac, es[1..]);
    }
  }

  // ---- What calls leave alone ---------------------------------------------

  /** The token a step concerns. */
  function Subject(s: State, e: Event): TokenIdentity
    requires Enabled(s, e)
  {
    match e
    case Acquire(t, _, _) => t
    case Refuse(t, _) => t
    case Drop(t, _) => t
    case Close(t, _) => t
    case OutsideOpen(t) => t
    case OutsideClose(t) => t
    case OutsideLogin(t) => t
    case SetPin(t, _) => t
    case Logout(t) => t
    case _ => s.pending.call.token
  }

  /** A step leaves every other token's record and state alone, and a key, once
      drawn, stays. */
  lemma {:induction false} OthersUntouched(s: State, mac: Mac, es: seq<Event>, t: TokenIdentity)
    requires Runs(s, mac, es) && NeverSubject(s, mac, es, t)
    ensures Record(After(s, mac, es), t) == Record(s, t)
    ensures (t in After(s, mac, es).tokens) == (t in s.tokens)
    ensures t in s.tokens ==> After(s, mac, es).tokens[t] == s.tokens[t]
    decreases |es|
  {
    if es != [] {
      OthersUntouched(Next(s, mac, es[0]), mac, es[1..], t);
    }
  }

  predicate NeverSubject(s: State, mac: Mac, es: seq<Event>, t: TokenIdentity)
    requires Runs(s, mac, es)
    decreases |es|
  {
    es != [] ==> Subject(s, es[0]) != t && NeverSubject(Next(s, mac, es[0]), mac, es[1..], t)
  }

  lemma {:induction false} KeyIsDrawnOnce(s: State, mac: Mac, es: seq<Event>)
    requires Runs(s, mac, es) && s.registry.key.Some?
    ensures After(s, mac, es).registry.key == s.registry.key
    decreases |es|
  {
    if es != [] {
      KeyIsDrawnOnce(Next(s, mac, es[0]), mac, es[1..]);
    }
  }

  /** The answers a call gets when nothing interrupts it. */
  predicate AnswersOf(s: State, t: TokenIdentity, pin: Pin, fail: bool, a: Answers)
    requires t in s.tokens
  {
    && (a.random.Ok? ==> |a.random.value| == PIN_VERIFIER_KEY_LEN)
    && a.live == s.tokens[t].alive
    && (a.session.Ok? ==> a.session.value == s.next)
    && a.login == TokenAnswer(s.tokens[t], pin, fail)
  }

  predicate Refused(s: State, a: Answers) {
    (s.registry.key.None? && a.random.Err?) || a.digest.Err?
  }

  function Drawn(a: Answers): Octets {
    if a.random.Ok? then a.random.value else Zeros(PIN_VERIFIER_KEY_LEN)
  }

  /** The steps of the call before its last. */
  function CallSteps(s: State, t: TokenIdentity, pin: Pin, fail: bool, a: Answers): seq<Event> {
    if Refused(s, a) then []
    else if a.session.Err? then [Acquire(t, pin, Drawn(a))]
    else [Acquire(t, pin, Drawn(a))] + [OpenSession(true)] + [CLogin(fail)]
  }

  function CallEnd(s: State, t: TokenIdentity, a: Answers): Event {
    if Refused(s, a) then Refuse(t, a.random) else if a.session.Err? then OpenSession(false) else Finish
  }

  /** What the run of an uninterrupted call leaves, and whether it grants, is what
      `OpenSessionOnSlot` is proved to leave and return. */
  ghost predicate RunsAsOpened(s: State, mac: Mac, t: TokenIdentity, pin: Pin, fail: bool, a: Answers) {
    var (es, e) := (CallSteps(s, t, pin, fail, a), CallEnd(s, t, a));
    && Runs(s, mac, es)
    && Enabled(After(s, mac, es), e)
    && var s' := Next(After(s, mac, es), mac, e);
    && s'.pending.Idle?
    && (s'.registry, Grants(After(s, mac, es), e))
       == (Opened(s.registry, mac, t, pin, a).0, Opened(s.registry, mac, t, pin, a).1.Ok?)
  }

  /** On every path of the call: no verifier, no session, and each answer of C_Login. */
  lemma UninterruptedCall(s: State, mac: Mac, t: TokenIdentity, pin: Pin, fail: bool, a: Answers)
    requires s.pending.Idle? && t in s.tokens && AnswersOf(s, t, pin, fail, a)
    ensures RunsAsOpened(s, mac, t, pin, fail, a)
  {
    if !Refused(s, a) {
      OneStep(s, mac, Acquire(t, pin, Drawn(a)));
      if a.session.Ok? {
        AnsweredCall(s, mac, t, pin, fail, a);
      }
    }
  }

  lemma AnsweredCall(s: State, mac: Mac, t: TokenIdentity, pin: Pin, fail: bool, a: Answers)
    requires s.pending.Idle? && t in s.tokens && AnswersOf(s, t, pin, fail, a)
    requires !Refused(s, a) && a.session.Ok?
    ensures RunsAsOpened(s, mac, t, pin, fail, a)
  {
    var es1 := [Acquire(t, pin, Drawn(a))];
    OneStep(s, mac, es1[0]);
    RunsAppend(s, mac, es1, OpenSession(true));
    RunsAppend(s, mac, es1 + [OpenSession(true)], CLogin(fail));
    var keyed := Keyed(s.registry, a.random);
    var r := Tracked(Lookup(keyed, t), a.live);
    var (answered, granted) := Answered(r, mac(keyed.key.value, pin), a.login);
    PutTwice(keyed, t, r, if granted then Joined(answered, s.next) else answered);
  }
}
