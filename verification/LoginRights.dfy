/**
 The promise that remains when other code may call C_Logout: a granted PIN is that
 of riptering's latest accepted C_Login, with a session of its own open ever since.
 Exactly when a caller can rely on it.
 */
module LoginRights {
  import opened Wrappers
  import opened LoginRecords
  import opened LoginProtocol
  import opened LoginPromise

  // ---- The promise for one call -------------------------------------------

  /** The steps of one call after `call`, and of the rest of the process during
      and after it, C_Logout included; the sessions in `keep` stay referenced
      until C_OpenSession. */
  predicate AnyCallRun(s: State, mac: Mac, call: Event, rest: seq<Event>, keep: set<SessionId>)
    requires call.Acquire?
  {
    && Runs(s, mac, [call] + rest)
    && (forall i :: 0 <= i < |rest| ==> !rest[i].Acquire?)
    && (forall x :: x in keep ==> HeldUntilOpen(rest, call.token, x))
  }

  /** Whatever happens during the call, a grant is right. */
  ghost predicate CallIsRight(s: State, mac: Mac, call: Event, keep: set<SessionId>)
    requires call.Acquire?
  {
    forall rest: seq<Event> :: AnyCallRun(s, mac, call, rest, keep) ==> GrantsAreRight(s, mac, [call] + rest)
  }

  /** A grant for this PIN would be right now. */
  predicate RightNow(t: Token, pin: Pin) {
    t.lastOk == Some(pin) && t.unbroken && (!t.loggedOut ==> t.login == Some(pin))
  }

  // ---- Sufficient ---------------------------------------------------------

  /** A call under way whose grant can only be right: its PIN matches no record,
      or a session of riptering's keeps the login the record is of unbroken. */
  predicate OnRightCourse(s: State, es: seq<Event>, x: SessionId) {
    s.pending.Idle? ||
    (var (c, t) := (s.pending.call, s.pending.call.token);
     && t in s.tokens
     && (HeldSession(s.pending).Some? ==> s.pending.session in s.tokens[t].open)
     && (Accepting(s.pending, t) ==> RightNow(s.tokens[t], c.pin))
     && (Judge(Record(s, t), c.verifier) == Match && !Accepting(s.pending, t) ==>
           && RightNow(s.tokens[t], c.pin)
           && (s.pending.AfterTrack? ==>
                 x in s.tokens[t].open && x in s.tokens[t].alive && HeldUntilOpen(es, t, x))))
  }

  /** While one session stays open, a right login stays right. */
  lemma RightStays(s: State, mac: Mac, e: Event, t: TokenIdentity, x: SessionId, pin: Pin)
    requires Enabled(s, e) && IsOutside(e) && t in s.tokens && RightNow(s.tokens[t], pin)
    requires x in Next(s, mac, e).tokens[t].open
    ensures RightNow(Next(s, mac, e).tokens[t], pin)
  {
  }

  lemma OnRightCourseOutside(s: State, mac: Mac, es: seq<Event>, x: SessionId)
    requires es != [] && OnRightCourse(s, es, x) && Enabled(s, es[0]) && IsOutside(es[0]) && !s.pending.Idle?
    ensures OnRightCourse(Next(s, mac, es[0]), es[1..], x)
  {
    var (c, t, s') := (s.pending.call, s.pending.call.token, Next(s, mac, es[0]));
    assert s'.pending == s.pending && Record(s', t) == Record(s, t);
    if HeldSession(s.pending).Some? {
      assert s.pending.session in s'.tokens[t].open;
      if RightNow(s.tokens[t], c.pin) {
        RightStays(s, mac, es[0], t, s.pending.session, c.pin);
      }
    } else if Judge(Record(s, t), c.verifier) == Match {
      assert x in s'.tokens[t].open;
      RightStays(s, mac, es[0], t, x, c.pin);
    }
  }

  lemma OnRightCourseStep(s: State, mac: Mac, es: seq<Event>, x: SessionId)
    requires es != [] && OnRightCourse(s, es, x) && Enabled(s, es[0]) && !es[0].Acquire?
    ensures OnRightCourse(Next(s, mac, es[0]), es[1..], x)
    ensures Grants(s, es[0]) ==> s.pending.call.token in s.tokens && RightGrant(s)
  {
    if !s.pending.Idle? && IsOutside(es[0]) {
      OnRightCourseOutside(s, mac, es, x);
    }
  }

  lemma {:induction false} OnRightCourseToTheEnd(s: State, mac: Mac, es: seq<Event>, x: SessionId)
    requires Runs(s, mac, es) && OnRightCourse(s, es, x) && forall i :: 0 <= i < |es| ==> !es[i].Acquire?
    ensures GrantsAreRight(s, mac, es)
    decreases |es|
  {
    if es != [] {
      OnRightCourseStep(s, mac, es, x);
      OnRightCourseToTheEnd(Next(s, mac, es[0]), mac, es[1..], x);
    }
  }

  lemma RightWhenKept(s: State, mac: Mac, call: Event, keep: set<SessionId>)
    requires Grounded(s) && call.Acquire? && Enabled(s, call)
    requires PinMatches(s, mac, call) ==>
               KeepsOne(s, call.token, keep) && RightNow(s.tokens[call.token], call.pin)
    ensures CallIsRight(s, mac, call, keep)
  {
    var x := 0;
    if PinMatches(s, mac, call) {
      x :| x in keep && x in s.tokens[call.token].alive;
    }
    forall rest: seq<Event> | AnyCallRun(s, mac, call, rest, keep)
      ensures GrantsAreRight(s, mac, [call] + rest)
    {
      assert ([call] + rest)[1..] == rest;
      OnRightCourseToTheEnd(Next(s, mac, call), mac, rest, x);
    }
  }

  // ---- Necessary ----------------------------------------------------------

  /** A call that holds a session can be answered "already logged in" with the
      token's history as it is, and with another login where there was none. */
  lemma AlreadyLoggedInNext(s: State, mac: Mac) returns (es: seq<Event>)
    requires s.pending.AfterOpen? && s.pending.call.token in s.tokens
    requires s.pending.session in s.tokens[s.pending.call.token].open
    requires Judge(Record(s, s.pending.call.token), s.pending.call.verifier) == Match
    requires !RightNow(s.tokens[s.pending.call.token], s.pending.call.pin)
    ensures Runs(s, mac, es) && forall i :: 0 <= i < |es| ==> !es[i].Acquire?
    ensures var (s', c) := (After(s, mac, es), s.pending.call);
            && s'.pending == AfterLogin(c, s.pending.session, AlreadyLoggedIn) && Grants(s', Finish)
            && c.token in s'.tokens && !RightNow(s'.tokens[c.token], c.pin)
  {
    var c := s.pending.call;
    if s.tokens[c.token].login.Some? {
      es := [CLogin(false)];
      OneStep(s, mac, CLogin(false));
    } else {
      es := OtherLogin(c.token, c.pin);
      OtherLoginJoined(s, mac);
    }
  }

  /** From C_OpenSession on, a matching call may be granted wrongly. */
  lemma WrongGrantFromOpen(s: State, mac: Mac) returns (es: seq<Event>)
    requires s.pending.AfterTrack? && s.pending.call.token in s.tokens
    requires Judge(Record(s, s.pending.call.token), s.pending.call.verifier) == Match
    requires !RightNow(s.tokens[s.pending.call.token], s.pending.call.pin)
    ensures Runs(s, mac, es) && !GrantsAreRight(s, mac, es)
    ensures es != [] && es[0].OpenSession? && forall i :: 0 <= i < |es| ==> !es[i].Acquire?
  {
    var s' := Next(s, mac, OpenSession(true));
    var more := AlreadyLoggedInNext(s', mac);
    var granted := After(s', mac, more);
    OneStep(granted, mac, Finish);
    assert !GrantsAreRight(granted, mac, [Finish]);
    RunsJoin(s', mac, more, [Finish]);
    MoreSteps(s, mac, OpenSession(true), more + [Finish]);
    es := [OpenSession(true)] + (more + [Finish]);
    assert es[1..] == more + [Finish];
  }

  lemma WrongBy(s: State, mac: Mac, call: Event, keep: set<SessionId>, es: seq<Event>)
    requires call.Acquire? && Enabled(s, call) && PinMatches(s, mac, call)
    requires var s1 := Next(s, mac, call);
             && Runs(s1, mac, es) && Draining(es, call.token, keep)
             && var s2 := After(s1, mac, es);
             && s2.pending == s1.pending && s2.registry == s1.registry && call.token in s2.tokens
             && !RightNow(s2.tokens[call.token], call.pin)
    ensures !CallIsRight(s, mac, call, keep)
  {
    var s1 := Next(s, mac, call);
    var last := WrongGrantFromOpen(After(s1, mac, es), mac);
    RunsJoin(s1, mac, es, last);
    WrongRun(s, mac, call, keep, es, last);
  }

  lemma WrongRun(s: State, mac: Mac, call: Event, keep: set<SessionId>, es: seq<Event>, last: seq<Event>)
    requires call.Acquire? && Enabled(s, call) && Draining(es, call.token, keep)
    requires last != [] && last[0].OpenSession? && forall i :: 0 <= i < |last| ==> !last[i].Acquire?
    requires Runs(Next(s, mac, call), mac, es + last)
    requires !GrantsAreRight(Next(s, mac, call), mac, es + last)
    ensures !CallIsRight(s, mac, call, keep)
  {
    var rest := es + last;
    MoreSteps(s, mac, call, rest);
    assert ([call] + rest)[1..] == rest;
    forall x | x in keep
      ensures HeldUntilOpen(rest, call.token, x)
    {
      HeldWhileDraining(es, last, call.token, keep, x);
    }
    assert AnyCallRun(s, mac, call, rest, keep);
  }

  // ---- Exactly ------------------------------------------------------------

  /** In any state any run can reach, whatever was logged out before or is during
      the call: its grant is right if and only if its PIN does not match the
      record, or the caller keeps a session of riptering's on the token referenced
      until C_OpenSession and a grant would be right before the call. */
  lemma CallIsRightExactly(s: State, mac: Mac, call: Event, keep: set<SessionId>)
    requires Grounded(s) && call.Acquire? && Enabled(s, call)
    ensures CallIsRight(s, mac, call, keep) <==>
              (PinMatches(s, mac, call) ==>
                 KeepsOne(s, call.token, keep) && RightNow(s.tokens[call.token], call.pin))
  {
    var s1 := Next(s, mac, call);
    if !PinMatches(s, mac, call) {
      RightWhenKept(s, mac, call, keep);
    } else if !KeepsOne(s, call.token, keep) {
      GroundedStep(s, mac, call);
      assert s1.tokens == s.tokens;
      var es := Drained(s1, mac, keep);
      WrongBy(s, mac, call, keep, es);
    } else if !RightNow(s.tokens[call.token], call.pin) {
      WrongBy(s, mac, call, keep, []);
    } else {
      RightWhenKept(s, mac, call, keep);
    }
  }

  /** A record that can be matched is that of a login a grant would be right for. */
  lemma MatchedIsRight(s: State, mac: Mac, call: Event)
    requires MacOk(mac) && Inv(s, mac) && call.Acquire? && Enabled(s, call) && PinMatches(s, mac, call)
    ensures RightNow(s.tokens[call.token], call.pin)
  {
    var (t, r) := (call.token, Record(s, call.token));
    assert At(s, mac, t);
    assert Retain(r.sessions, s.tokens[t].alive) != [];
    var x := Retain(r.sessions, s.tokens[t].alive)[0];
    assert x in r.sessions && x in s.tokens[t].open;
    assert RecordedOpen(s, t);
  }

  /** While the invariant holds, C_Logout or not, the kept session is all that
      counts: a call is right if and only if, should its PIN match, it keeps one. */
  lemma RightIffKept(s: State, mac: Mac, call: Event, keep: set<SessionId>)
    requires MacOk(mac) && Inv(s, mac) && call.Acquire? && Enabled(s, call)
    ensures CallIsRight(s, mac, call, keep) <==> (PinMatches(s, mac, call) ==> KeepsOne(s, call.token, keep))
  {
    if PinMatches(s, mac, call) {
      MatchedIsRight(s, mac, call);
    }
    InvIsGrounded(s, mac);
    CallIsRightExactly(s, mac, call, keep);
  }

  /** After every run from the start in which the calls met the condition, it
      decides the next call in both directions. */
  lemma NextCallRightExactly(s: State, mac: Mac, es: seq<Event>, call: Event, keep: set<SessionId>)
    requires MacOk(mac) && Init(s) && Runs(s, mac, es) && EveryCallKeeps(s, mac, es)
    requires call.Acquire? && Enabled(After(s, mac, es), call)
    ensures var s' := After(s, mac, es);
            CallIsRight(s', mac, call, keep) <==> (PinMatches(s', mac, call) ==> KeepsOne(s', call.token, keep))
  {
    InitInv(s, mac);
    KeptIsGapless(s, mac, es);
    SafeFrom(s, mac, es);
    RightIffKept(After(s, mac, es), mac, call, keep);
  }
}
