/**
 What the login registry promises of a granted PIN, and exactly when a caller can
 rely on it.
 */
module LoginPromise {
  import opened Wrappers
  import opened Bytes
  import opened LoginRecords
  import opened LoginProtocol

  // ---- After C_OpenSession ------------------------------------------------

  /** A caller that keeps one recorded session referenced leaves no gap. */
  lemma {:induction false} HeldAcross(s: State, mac: Mac, es: seq<Event>, x: SessionId)
    requires Inv(s, mac) && Runs(s, mac, es) && s.pending.AfterTrack?
    requires var t := s.pending.call.token; x in Record(s, t).sessions && x in s.tokens[t].alive
    requires forall i :: 0 <= i < |es| ==>
               !es[i].OpenSession? && es[i] != Drop(s.pending.call.token, x)
    ensures After(s, mac, es).pending == s.pending && Covered(After(s, mac, es))
    decreases |es|
  {
    assert At(s, mac, s.pending.call.token);
    if es != [] {
      OutsideInv(s, mac, es[0]);
      HeldAcross(Next(s, mac, es[0]), mac, es[1..], x);
    }
  }

  /** A run, without C_Logout, in which the pending call of s comes to match the
      recorded verifier although the login in effect was made with another PIN. */
  ghost predicate Misjoins(s: State, mac: Mac, es: seq<Event>) {
    && Runs(s, mac, es) && s.pending.AfterOpen? && s.pending.call.token in s.tokens
    && (forall i :: 0 <= i < |es| ==> !es[i].Logout? && !es[i].Finish? && !es[i].Acquire?)
    && var (s', c) := (After(s, mac, es), s.pending.call);
    && s'.pending == AfterLogin(c, s.pending.session, AlreadyLoggedIn) && Grants(s', Finish)
    && c.token in s'.tokens && s'.tokens[c.token].login != Some(c.pin)
  }

  /** Holding a session keeps a login in place. */
  lemma {:induction false} LoginStays(s: State, mac: Mac, es: seq<Event>)
    requires Runs(s, mac, es) && HeldSession(s.pending).Some?
    requires s.pending.call.token in s.tokens
    requires s.pending.session in s.tokens[s.pending.call.token].open
    requires s.tokens[s.pending.call.token].login.Some?
    requires forall i :: 0 <= i < |es| ==> !es[i].Logout? && !es[i].Finish?
    ensures var t := s.pending.call.token;
            t in After(s, mac, es).tokens && After(s, mac, es).tokens[t].login == s.tokens[t].login
    decreases |es|
  {
    if es != [] {
      var s1 := Next(s, mac, es[0]);
      assert s1.tokens[s.pending.call.token].login == s.tokens[s.pending.call.token].login;
      LoginStays(s1, mac, es[1..]);
    }
  }

  /** Other code of the process logs in with a PIN changed meanwhile, then C_Login. */
  function OtherLogin(t: TokenIdentity, pin: Pin): seq<Event> {
    [OutsideOpen(t)] + ([SetPin(t, pin + [0])] + ([OutsideLogin(t)] + [CLogin(false)]))
  }

  lemma OtherLoginJoined(s: State, mac: Mac)
    requires s.pending.AfterOpen? && s.pending.call.token in s.tokens
    requires s.pending.session in s.tokens[s.pending.call.token].open
    requires Judge(Record(s, s.pending.call.token), s.pending.call.verifier) == Match
    requires s.tokens[s.pending.call.token].login.None?
    ensures Misjoins(s, mac, OtherLogin(s.pending.call.token, s.pending.call.pin))
    ensures var (c, s') := (s.pending.call, After(s, mac, OtherLogin(s.pending.call.token, s.pending.call.pin)));
            var (t, t') := (s.tokens[c.token], s'.tokens[c.token]);
            t'.lastOk == t.lastOk && t'.unbroken == t.unbroken && t'.loggedOut == t.loggedOut
  {
    var (t, pin) := (s.pending.call.token, s.pending.call.pin);
    var s1 := Next(s, mac, OutsideOpen(t));
    var s2 := Next(s1, mac, SetPin(t, pin + [0]));
    var s3 := Next(s2, mac, OutsideLogin(t));
    OneStep(s3, mac, CLogin(false));
    MoreSteps(s2, mac, OutsideLogin(t), [CLogin(false)]);
    MoreSteps(s1, mac, SetPin(t, pin + [0]), [OutsideLogin(t)] + [CLogin(false)]);
    MoreSteps(s, mac, OutsideOpen(t), [SetPin(t, pin + [0])] + ([OutsideLogin(t)] + [CLogin(false)]));
  }

  /** Exactly when the login in effect after C_OpenSession is not one for the
      call's PIN can a call whose PIN matches the record join another login. */
  lemma MisjoinsExactly(s: State, mac: Mac)
    requires s.pending.AfterOpen? && s.pending.call.token in s.tokens
    requires s.pending.session in s.tokens[s.pending.call.token].open
    requires Judge(Record(s, s.pending.call.token), s.pending.call.verifier) == Match
    ensures (exists es :: Misjoins(s, mac, es))
            <==> s.tokens[s.pending.call.token].login != Some(s.pending.call.pin)
  {
    var c := s.pending.call;
    if s.tokens[c.token].login == Some(c.pin) {
      forall es: seq<Event>
        ensures !Misjoins(s, mac, es)
      {
        if Runs(s, mac, es) && forall i :: 0 <= i < |es| ==> !es[i].Logout? && !es[i].Finish? {
          LoginStays(s, mac, es);
        }
      }
    } else if s.tokens[c.token].login.Some? {
      OneStep(s, mac, CLogin(false));
      assert Misjoins(s, mac, [CLogin(false)]);
    } else {
      OtherLoginJoined(s, mac);
    }
  }

  /** Covered at C_OpenSession, never logged out: a matching call has its login. */
  lemma CoveredJoinsItsLogin(s: State, mac: Mac)
    requires MacOk(mac) && Inv(s, mac) && s.pending.AfterTrack? && Covered(s)
    requires var c := s.pending.call;
             Judge(Record(s, c.token), c.verifier) == Match && !s.tokens[c.token].loggedOut
    ensures var (s', c) := (Next(s, mac, OpenSession(true)), s.pending.call);
            s'.tokens[c.token].login == Some(c.pin) && !exists es :: Misjoins(s', mac, es)
  {
    var s' := Next(s, mac, OpenSession(true));
    NextInv(s, mac, OpenSession(true));
    assert At(s', mac, s.pending.call.token);
    MisjoinsExactly(s', mac);
  }

  // ---- Runs split ---------------------------------------------------------

  /** Two runs one after the other; what holds of the grants of both, holds of the second. */
  lemma {:induction false} RunsJoin(s: State, mac: Mac, es: seq<Event>, more: seq<Event>)
    requires Runs(s, mac, es) && Runs(After(s, mac, es), mac, more)
    ensures Runs(s, mac, es + more)
    ensures After(s, mac, es + more) == After(After(s, mac, es), mac, more)
    ensures GrantsJoinTheLogin(s, mac, es + more) ==> GrantsJoinTheLogin(After(s, mac, es), mac, more)
    ensures GrantsAreRight(s, mac, es + more) ==> GrantsAreRight(After(s, mac, es), mac, more)
    decreases |es|
  {
    if es == [] {
      assert es + more == more;
    } else {
      RunsJoin(Next(s, mac, es[0]), mac, es[1..], more);
      assert (es + more)[1..] == es[1..] + more;
    }
  }

  /** A misjoin that is finished is a grant for a PIN that is not the login's. */
  lemma MisjoinGranted(s: State, mac: Mac, more: seq<Event>)
    requires Misjoins(s, mac, more)
    ensures Runs(s, mac, more + [Finish]) && !GrantsJoinTheLogin(s, mac, more + [Finish])
  {
    var s' := After(s, mac, more);
    OneStep(s', mac, Finish);
    RunsJoin(s, mac, more, [Finish]);
  }

  // ---- States of all runs, gaps or not ------------------------------------

  predicate GroundedToken(t: Token) {
    && t.alive <= t.open
    && (t.login.Some? ==> InUse(t))
    && (t.unbroken ==> t.open != {})
  }

  /** Referenced sessions are open, a login is kept by some session, and the
      session a call holds is open. */
  predicate Grounded(s: State) {
    && (forall t :: t in s.tokens ==> GroundedToken(s.tokens[t]))
    && (HeldSession(s.pending).Some? ==>
          s.pending.call.token in s.tokens && s.pending.session in s.tokens[s.pending.call.token].open)
  }

  lemma GroundedStep(s: State, mac: Mac, e: Event)
    requires Grounded(s) && Enabled(s, e)
    ensures Grounded(Next(s, mac, e))
  {
  }

  lemma {:induction false} RunsStayGrounded(s: State, mac: Mac, es: seq<Event>)
    requires Runs(s, mac, es) && (Init(s) || Grounded(s))
    ensures Grounded(After(s, mac, es))
    decreases |es|
  {
    if es != [] {
      GroundedStep(s, mac, es[0]);
      RunsStayGrounded(Next(s, mac, es[0]), mac, es[1..]);
    }
  }

  lemma InvIsGrounded(s: State, mac: Mac)
    requires Inv(s, mac)
    ensures Grounded(s)
  {
    forall t | t in s.tokens
      ensures GroundedToken(s.tokens[t])
    {
      assert At(s, mac, t);
    }
  }

  // ---- Sessions kept during a call ----------------------------------------

  /** Session x stays referenced until the next C_OpenSession. */
  predicate HeldUntilOpen(es: seq<Event>, t: TokenIdentity, x: SessionId)
    decreases |es|
  {
    es == [] || es[0].OpenSession? || (es[0] != Drop(t, x) && HeldUntilOpen(es[1..], t, x))
  }

  predicate Draining(es: seq<Event>, t: TokenIdentity, keep: set<SessionId>) {
    forall i :: 0 <= i < |es| ==>
      es[i].Close? || es[i].OutsideClose? || (es[i].Drop? && !(es[i].token == t && es[i].session in keep))
  }

  /** When a call keeps none of the referenced sessions, every session can go
      before C_OpenSession, and the login with the last of them. */
  lemma {:induction false} Drained(s: State, mac: Mac, keep: set<SessionId>) returns (es: seq<Event>)
    requires Grounded(s) && s.pending.AfterTrack? && s.pending.call.token in s.tokens
    requires keep !! s.tokens[s.pending.call.token].alive
    ensures Runs(s, mac, es) && Draining(es, s.pending.call.token, keep)
    ensures var (s', t) := (After(s, mac, es), s.pending.call.token);
            && s'.pending == s.pending && s'.registry == s.registry && s'.next == s.next
            && t in s'.tokens && s'.tokens[t].open == {} && s'.tokens[t].login.None? && !s'.tokens[t].unbroken
    decreases var t := s.tokens[s.pending.call.token]; |t.open| + |t.alive| + t.outside
  {
    var t := s.pending.call.token;
    var token := s.tokens[t];
    if token.open == {} && token.outside == 0 {
      es := [];
    } else {
      var e;
      if x :| x in token.alive {
        e := Drop(t, x);
      } else if x :| x in token.open {
        e := Close(t, x);
      } else {
        e := OutsideClose(t);
      }
      GroundedStep(s, mac, e);
      var rest := Drained(Next(s, mac, e), mac, keep);
      MoreSteps(s, mac, e, rest);
      es := [e] + rest;
    }
  }

  lemma {:induction false} HeldWhileDraining(es: seq<Event>, rest: seq<Event>, t: TokenIdentity,
                                             keep: set<SessionId>, x: SessionId)
    requires Draining(es, t, keep) && x in keep && rest != [] && rest[0].OpenSession?
    ensures HeldUntilOpen(es + rest, t, x)
    decreases |es|
  {
    if es == [] {
      assert es + rest == rest;
    } else {
      assert (es + rest)[1..] == es[1..] + rest;
      HeldWhileDraining(es[1..], rest, t, keep, x);
    }
  }

  // ---- The exact condition for one call -----------------------------------

  /** The steps of one call after `call`, and of the rest of the process during
      and after it, without C_Logout; the sessions in `keep` stay referenced until
      C_OpenSession. */
  predicate CallRun(s: State, mac: Mac, call: Event, rest: seq<Event>, keep: set<SessionId>)
    requires call.Acquire?
  {
    && Runs(s, mac, [call] + rest)
    && (forall i :: 0 <= i < |rest| ==> !rest[i].Acquire? && !rest[i].Logout?)
    && (forall x :: x in keep ==> HeldUntilOpen(rest, call.token, x))
  }

  /** Whatever happens during the call, a grant is for the PIN of the login in effect. */
  ghost predicate CallIsSafe(s: State, mac: Mac, call: Event, keep: set<SessionId>)
    requires call.Acquire?
  {
    forall rest: seq<Event> :: CallRun(s, mac, call, rest, keep) ==> GrantsJoinTheLogin(s, mac, [call] + rest)
  }

  /** One of the sessions the caller keeps is a referenced session on the token. */
  predicate KeepsOne(s: State, t: TokenIdentity, keep: set<SessionId>)
    requires t in s.tokens
  {
    exists x :: x in keep && x in s.tokens[t].alive
  }

  /** The call's PIN matches the record it finds. */
  predicate PinMatches(s: State, mac: Mac, call: Event)
    requires call.Acquire? && Enabled(s, call)
  {
    var s1 := Next(s, mac, call);
    Judge(Record(s1, call.token), s1.pending.call.verifier) == Match
  }

  /** A call under way that cannot go wrong: its PIN matches no record, or the
      login in effect is one for it and a session keeps it there. */
  predicate OnCourse(s: State, es: seq<Event>, x: SessionId) {
    s.pending.Idle? ||
    (var (c, t) := (s.pending.call, s.pending.call.token);
     && t in s.tokens
     && (HeldSession(s.pending).Some? ==> s.pending.session in s.tokens[t].open)
     && (Accepting(s.pending, t) ==> s.tokens[t].login == Some(c.pin))
     && (Judge(Record(s, t), c.verifier) == Match && !Accepting(s.pending, t) ==>
           && s.tokens[t].login == Some(c.pin)
           && (s.pending.AfterTrack? ==>
                 x in s.tokens[t].open && x in s.tokens[t].alive && HeldUntilOpen(es, t, x))))
  }

  lemma OnCourseStep(s: State, mac: Mac, es: seq<Event>, x: SessionId)
    requires es != [] && OnCourse(s, es, x) && Enabled(s, es[0]) && !es[0].Acquire? && !es[0].Logout?
    ensures OnCourse(Next(s, mac, es[0]), es[1..], x)
    ensures Grants(s, es[0]) ==> s.tokens[s.pending.call.token].login == Some(s.pending.call.pin)
  {
    if !s.pending.Idle? && IsOutside(es[0]) {
      assert Record(Next(s, mac, es[0]), s.pending.call.token) == Record(s, s.pending.call.token);
    }
  }

  lemma {:induction false} OnCourseToTheEnd(s: State, mac: Mac, es: seq<Event>, x: SessionId)
    requires Runs(s, mac, es) && OnCourse(s, es, x)
    requires forall i :: 0 <= i < |es| ==> !es[i].Acquire? && !es[i].Logout?
    ensures GrantsJoinTheLogin(s, mac, es)
    decreases |es|
  {
    if es != [] {
      OnCourseStep(s, mac, es, x);
      OnCourseToTheEnd(Next(s, mac, es[0]), mac, es[1..], x);
    }
  }

  lemma SafeWhenKept(s: State, mac: Mac, call: Event, keep: set<SessionId>)
    requires Grounded(s) && call.Acquire? && Enabled(s, call)
    requires PinMatches(s, mac, call) ==>
               KeepsOne(s, call.token, keep) && s.tokens[call.token].login == Some(call.pin)
    ensures CallIsSafe(s, mac, call, keep)
  {
    var s1 := Next(s, mac, call);
    var x := 0;
    if PinMatches(s, mac, call) {
      x :| x in keep && x in s.tokens[call.token].alive;
    }
    forall rest: seq<Event> | CallRun(s, mac, call, rest, keep)
      ensures GrantsJoinTheLogin(s, mac, [call] + rest)
    {
      assert ([call] + rest)[1..] == rest;
      OnCourseToTheEnd(s1, mac, rest, x);
    }
  }

  /** From C_OpenSession on, a matching call may join another login. */
  lemma WrongFromOpen(s: State, mac: Mac) returns (es: seq<Event>)
    requires s.pending.AfterTrack? && s.pending.call.token in s.tokens
    requires Judge(Record(s, s.pending.call.token), s.pending.call.verifier) == Match
    requires s.tokens[s.pending.call.token].login != Some(s.pending.call.pin)
    ensures Runs(s, mac, es) && !GrantsJoinTheLogin(s, mac, es)
    ensures es != [] && es[0].OpenSession? && forall i :: 0 <= i < |es| ==> !es[i].Acquire? && !es[i].Logout?
  {
    var s' := Next(s, mac, OpenSession(true));
    MisjoinsExactly(s', mac);
    var more: seq<Event> :| Misjoins(s', mac, more);
    MisjoinGranted(s', mac, more);
    MoreSteps(s, mac, OpenSession(true), more + [Finish]);
    es := [OpenSession(true)] + (more + [Finish]);
    assert es[1..] == more + [Finish];
  }

  /** Any steps up to a matching call's C_OpenSession after which another login
      can be joined make the call unsafe. */
  lemma UnsafeBy(s: State, mac: Mac, call: Event, keep: set<SessionId>, es: seq<Event>)
    requires call.Acquire? && Enabled(s, call) && PinMatches(s, mac, call)
    requires var s1 := Next(s, mac, call);
             && Runs(s1, mac, es) && Draining(es, call.token, keep)
             && var s2 := After(s1, mac, es);
             && s2.pending == s1.pending && s2.registry == s1.registry && call.token in s2.tokens
             && s2.tokens[call.token].login != Some(call.pin)
    ensures !CallIsSafe(s, mac, call, keep)
  {
    var s1 := Next(s, mac, call);
    var last := WrongFromOpen(After(s1, mac, es), mac);
    RunsJoin(s1, mac, es, last);
    UnsafeRun(s, mac, call, keep, es, last);
  }

  lemma UnsafeRun(s: State, mac: Mac, call: Event, keep: set<SessionId>, es: seq<Event>, last: seq<Event>)
    requires call.Acquire? && Enabled(s, call) && Draining(es, call.token, keep)
    requires last != [] && last[0].OpenSession?
    requires forall i :: 0 <= i < |last| ==> !last[i].Acquire? && !last[i].Logout?
    requires Runs(Next(s, mac, call), mac, es + last)
    requires !GrantsJoinTheLogin(Next(s, mac, call), mac, es + last)
    ensures !CallIsSafe(s, mac, call, keep)
  {
    var rest := es + last;
    MoreSteps(s, mac, call, rest);
    assert ([call] + rest)[1..] == rest;
    forall x | x in keep
      ensures HeldUntilOpen(rest, call.token, x)
    {
      HeldWhileDraining(es, last, call.token, keep, x);
    }
    assert CallRun(s, mac, call, rest, keep);
  }

  /** In any state any run can reach, a call is safe if and only if its PIN does
      not match the record, or the caller keeps a session of riptering's on the
      token referenced until C_OpenSession and the login is one for its PIN. */
  lemma CallIsSafeExactly(s: State, mac: Mac, call: Event, keep: set<SessionId>)
    requires Grounded(s) && call.Acquire? && Enabled(s, call)
    ensures CallIsSafe(s, mac, call, keep) <==>
              (PinMatches(s, mac, call) ==>
                 KeepsOne(s, call.token, keep) && s.tokens[call.token].login == Some(call.pin))
  {
    var s1 := Next(s, mac, call);
    if !PinMatches(s, mac, call) {
      SafeWhenKept(s, mac, call, keep);
    } else if !KeepsOne(s, call.token, keep) {
      GroundedStep(s, mac, call);
      assert s1.tokens == s.tokens;
      var es := Drained(s1, mac, keep);
      UnsafeBy(s, mac, call, keep, es);
    } else if s.tokens[call.token].login != Some(call.pin) {
      UnsafeBy(s, mac, call, keep, []);
    } else {
      SafeWhenKept(s, mac, call, keep);
    }
  }

  /** While the invariant holds and nobody logged out, the kept session is all
      that counts: a call is safe if and only if, should its PIN match, it keeps one. */
  lemma SafeIffKept(s: State, mac: Mac, call: Event, keep: set<SessionId>)
    requires MacOk(mac) && Inv(s, mac) && call.Acquire? && Enabled(s, call)
    requires !s.tokens[call.token].loggedOut
    ensures CallIsSafe(s, mac, call, keep) <==> (PinMatches(s, mac, call) ==> KeepsOne(s, call.token, keep))
  {
    if PinMatches(s, mac, call) {
      MatchedLogin(s, mac, call);
    }
    InvIsGrounded(s, mac);
    CallIsSafeExactly(s, mac, call, keep);
  }

  /** A record that can be matched is that of the login in effect. */
  lemma MatchedLogin(s: State, mac: Mac, call: Event)
    requires MacOk(mac) && Inv(s, mac) && call.Acquire? && Enabled(s, call)
    requires !s.tokens[call.token].loggedOut && PinMatches(s, mac, call)
    ensures s.tokens[call.token].login == Some(call.pin)
  {
    var (t, r) := (call.token, Record(s, call.token));
    assert At(s, mac, t);
    assert Retain(r.sessions, s.tokens[t].alive) != [];
    var x := Retain(r.sessions, s.tokens[t].alive)[0];
    assert x in r.sessions && x in s.tokens[t].open;
    assert RecordedOpen(s, t);
  }

  // ---- Seen from the call, after pruning ----------------------------------

  /** Between `track` and C_OpenSession a matching call can be led to another
      login if and only if no recorded session that is referenced is kept. */
  lemma MisjoinReachedExactly(s: State, mac: Mac, keep: set<SessionId>)
    requires MacOk(mac) && Inv(s, mac) && s.pending.AfterTrack?
    requires var c := s.pending.call;
             Judge(Record(s, c.token), c.verifier) == Match && !s.tokens[c.token].loggedOut
    ensures (exists es :: ReachesMisjoin(s, mac, es, keep))
            <==> !exists x :: x in keep && x in Record(s, s.pending.call.token).sessions
                              && x in s.tokens[s.pending.call.token].alive
  {
    var (c, t) := (s.pending.call, s.pending.call.token);
    assert At(s, mac, t);
    if x :| x in keep && x in Record(s, t).sessions && x in s.tokens[t].alive {
      forall es: seq<Event>
        ensures !ReachesMisjoin(s, mac, es, keep)
      {
        if BeforeOpen(s, mac, es, keep) {
          HeldAcross(s, mac, es, x);
          KeptLogin(s, mac, es);
          CoveredJoinsItsLogin(After(s, mac, es), mac);
        }
      }
    } else {
      InvIsGrounded(s, mac);
      var es := Drained(s, mac, keep);
      DrainedBeforeOpen(s, mac, es, keep);
      MisjoinsExactly(Next(After(s, mac, es), mac, OpenSession(true)), mac);
      assert ReachesMisjoin(s, mac, es, keep);
    }
  }

  /** A run without C_Logout up to C_OpenSession that drops no session of `keep`. */
  predicate BeforeOpen(s: State, mac: Mac, es: seq<Event>, keep: set<SessionId>)
    requires s.pending.AfterTrack?
  {
    && Runs(s, mac, es)
    && forall i :: 0 <= i < |es| ==>
         && !es[i].OpenSession? && !es[i].Finish? && !es[i].Logout?
         && !(es[i].Drop? && es[i].token == s.pending.call.token && es[i].session in keep)
  }

  ghost predicate ReachesMisjoin(s: State, mac: Mac, es: seq<Event>, keep: set<SessionId>)
    requires s.pending.AfterTrack?
  {
    && BeforeOpen(s, mac, es, keep)
    && Enabled(After(s, mac, es), OpenSession(true))
    && exists more :: Misjoins(Next(After(s, mac, es), mac, OpenSession(true)), mac, more)
  }

  lemma DrainedBeforeOpen(s: State, mac: Mac, es: seq<Event>, keep: set<SessionId>)
    requires s.pending.AfterTrack? && Runs(s, mac, es) && Draining(es, s.pending.call.token, keep)
    ensures BeforeOpen(s, mac, es, keep)
  {
  }

  lemma KeptLoginStep(s: State, mac: Mac, e: Event)
    requires Inv(s, mac) && Enabled(s, e) && s.pending.AfterTrack? && !e.OpenSession? && !e.Logout?
    ensures Inv(Next(s, mac, e), mac)
    ensures var (s', t) := (Next(s, mac, e), s.pending.call.token);
            && s'.pending == s.pending && Record(s', t) == Record(s, t)
            && t in s.tokens && t in s'.tokens && s'.tokens[t].loggedOut == s.tokens[t].loggedOut
  {
    OutsideInv(s, mac, e);
  }

  /** What a call finds of its token stays, up to C_OpenSession. */
  lemma {:induction false} KeptLogin(s: State, mac: Mac, es: seq<Event>)
    requires Inv(s, mac) && Runs(s, mac, es) && s.pending.AfterTrack?
    requires forall i :: 0 <= i < |es| ==> !es[i].OpenSession? && !es[i].Logout?
    ensures Inv(After(s, mac, es), mac)
    ensures var (s', t) := (After(s, mac, es), s.pending.call.token);
            && s'.pending == s.pending && Record(s', t) == Record(s, t)
            && t in s'.tokens && s'.tokens[t].loggedOut == s.tokens[t].loggedOut
    decreases |es|
  {
    if es != [] {
      KeptLoginStep(s, mac, es[0]);
      KeptLogin(Next(s, mac, es[0]), mac, es[1..]);
    }
  }

  // ---- Whole runs ---------------------------------------------------------

  /** The pending call's PIN matches no record, or it keeps a referenced session up
      to C_OpenSession. */
  predicate CallKeeps(s: State, es: seq<Event>)
    requires s.pending.AfterTrack?
  {
    var t := s.pending.call.token;
    && t in s.tokens
    && (Judge(Record(s, t), s.pending.call.verifier) == Match ==>
          exists x :: x in s.tokens[t].alive && HeldUntilOpen(es, t, x))
  }

  predicate EveryCallKeeps(s: State, mac: Mac, es: seq<Event>)
    requires Runs(s, mac, es)
    decreases |es|
  {
    es != [] ==>
      && (es[0].Acquire? ==> CallKeeps(Next(s, mac, es[0]), es[1..]))
      && EveryCallKeeps(Next(s, mac, es[0]), mac, es[1..])
  }

  lemma CallKeepsOn(s: State, mac: Mac, es: seq<Event>)
    requires es != [] && s.pending.AfterTrack? && Enabled(s, es[0]) && !es[0].OpenSession?
    requires CallKeeps(s, es)
    ensures Next(s, mac, es[0]).pending == s.pending && CallKeeps(Next(s, mac, es[0]), es[1..])
  {
    var (s', t) := (Next(s, mac, es[0]), s.pending.call.token);
    assert Record(s', t) == Record(s, t);
    if Judge(Record(s, t), s.pending.call.verifier) == Match {
      var x :| x in s.tokens[t].alive && HeldUntilOpen(es, t, x);
      assert x in s'.tokens[t].alive && HeldUntilOpen(es[1..], t, x);
    }
  }

  lemma {:induction false} KeptIsGapless(s: State, mac: Mac, es: seq<Event>)
    requires MacOk(mac) && Inv(s, mac) && Runs(s, mac, es) && EveryCallKeeps(s, mac, es)
    requires s.pending.AfterTrack? ==> CallKeeps(s, es)
    ensures Gapless(s, mac, es)
    decreases |es|
  {
    if es != [] {
      if es[0].OpenSession? {
        assert At(s, mac, s.pending.call.token);
      } else if s.pending.AfterTrack? {
        CallKeepsOn(s, mac, es);
      }
      NextInv(s, mac, es[0]);
      KeptIsGapless(Next(s, mac, es[0]), mac, es[1..]);
    }
  }

  /** The promise of the registry, for callers that meet the condition: in every
      run in which each call whose PIN matches the record keeps one of the token's
      sessions referenced up to C_OpenSession, every grant is right. */
  lemma GrantedPinsWhenKept(s: State, mac: Mac, es: seq<Event>)
    requires MacOk(mac) && Init(s) && Runs(s, mac, es) && EveryCallKeeps(s, mac, es)
    ensures GrantsAreRight(s, mac, es)
    ensures WithoutLogout(es) ==> GrantsJoinTheLogin(s, mac, es)
  {
    InitInv(s, mac);
    KeptIsGapless(s, mac, es);
    GrantedPins(s, mac, es);
  }

  lemma {:induction false} NobodyLoggedOut(s: State, mac: Mac, es: seq<Event>)
    requires Runs(s, mac, es) && NeverLoggedOut(s) && WithoutLogout(es)
    ensures NeverLoggedOut(After(s, mac, es))
    decreases |es|
  {
    if es != [] {
      StaysLoggedIn(s, mac, es[0]);
      NobodyLoggedOut(Next(s, mac, es[0]), mac, es[1..]);
    }
  }

  /** And the condition is exact at every call: after any such run without C_Logout
      the next call is safe if and only if, should its PIN match, it keeps one too. */
  lemma NextCallExactly(s: State, mac: Mac, es: seq<Event>, call: Event, keep: set<SessionId>)
    requires MacOk(mac) && Init(s) && Runs(s, mac, es) && EveryCallKeeps(s, mac, es) && WithoutLogout(es)
    requires call.Acquire? && Enabled(After(s, mac, es), call)
    ensures var s' := After(s, mac, es);
            CallIsSafe(s', mac, call, keep) <==> (PinMatches(s', mac, call) ==> KeepsOne(s', call.token, keep))
  {
    InitInv(s, mac);
    KeptIsGapless(s, mac, es);
    SafeFrom(s, mac, es);
    NobodyLoggedOut(s, mac, es);
    SafeIffKept(After(s, mac, es), mac, call, keep);
  }

  // ---- A run that breaks it -----------------------------------------------

  /** A riptering login, then a second call during which the first session is
      dropped and closed before C_OpenSession. */
  function GapRun(t: TokenIdentity, pin: Pin, random: Octets, x: SessionId): seq<Event> {
    [Acquire(t, pin, random)] + [OpenSession(true)] + [CLogin(false)] + [Finish]
    + [Acquire(t, pin, random)] + [Drop(t, x)] + [Close(t, x)] + [OpenSession(true)]
  }

  /** Its first half: the login, then the second call's pruning. */
  lemma GapRunBegins(s: State, mac: Mac, t: TokenIdentity)
    requires MacOk(mac) && Init(s) && t in s.tokens && s.tokens[t].outside == 0
    ensures var (p, k, x) := (s.tokens[t].pin, Zeros(PIN_VERIFIER_KEY_LEN), s.next);
            var es := [Acquire(t, p, k)] + [OpenSession(true)] + [CLogin(false)] + [Finish] + [Acquire(t, p, k)];
            && Runs(s, mac, es)
            && var s' := After(s, mac, es);
            && s'.pending == AfterTrack(Call(t, p, mac(k, p))) && t in s'.tokens
            && Record(s', t) == RecordState(Some(mac(k, p)), [x], 0)
            && s'.tokens[t].open == {x} && s'.tokens[t].alive == {x} && s'.tokens[t].outside == 0
  {
    var (p, k, x) := (s.tokens[t].pin, Zeros(PIN_VERIFIER_KEY_LEN), s.next);
    OneStep(s, mac, Acquire(t, p, k));
    var es1 := [Acquire(t, p, k)];
    RunsAppend(s, mac, es1, OpenSession(true));
    var es2 := es1 + [OpenSession(true)];
    RunsAppend(s, mac, es2, CLogin(false));
    var es3 := es2 + [CLogin(false)];
    RunsAppend(s, mac, es3, Finish);
    var es4 := es3 + [Finish];
    var s4 := After(s, mac, es4);
    assert Record(s4, t) == RecordState(Some(mac(k, p)), [x], 0);
    assert s4.tokens[t].open == {x} && s4.tokens[t].alive == {x} && s4.tokens[t].outside == 0;
    RunsAppend(s, mac, es4, Acquire(t, p, k));
    assert Retain([x], {x}) == [x] + Retain([x][1..], {x}) == [x];
  }

  lemma GapRunCloses(s: State, mac: Mac, t: TokenIdentity)
    requires MacOk(mac) && Init(s) && t in s.tokens && s.tokens[t].outside == 0
    ensures var (p, k, x) := (s.tokens[t].pin, Zeros(PIN_VERIFIER_KEY_LEN), s.next);
            var es := [Acquire(t, p, k)] + [OpenSession(true)] + [CLogin(false)] + [Finish] + [Acquire(t, p, k)]
                      + [Drop(t, x)] + [Close(t, x)];
            && Runs(s, mac, es)
            && var s' := After(s, mac, es);
            && s'.pending == AfterTrack(Call(t, p, mac(k, p))) && t in s'.tokens
            && Record(s', t) == RecordState(Some(mac(k, p)), [x], 0)
            && s'.tokens[t].open == {} && s'.tokens[t].alive == {} && s'.tokens[t].outside == 0
            && s'.tokens[t].login == None
  {
    var (p, k, x) := (s.tokens[t].pin, Zeros(PIN_VERIFIER_KEY_LEN), s.next);
    var es5 := [Acquire(t, p, k)] + [OpenSession(true)] + [CLogin(false)] + [Finish] + [Acquire(t, p, k)];
    GapRunBegins(s, mac, t);
    RunsAppend(s, mac, es5, Drop(t, x));
    RunsAppend(s, mac, es5 + [Drop(t, x)], Close(t, x));
  }

  lemma GapRunOpens(s: State, mac: Mac, t: TokenIdentity)
    requires MacOk(mac) && Init(s) && t in s.tokens && s.tokens[t].outside == 0
    ensures var (p, k, x) := (s.tokens[t].pin, Zeros(PIN_VERIFIER_KEY_LEN), s.next);
            && Runs(s, mac, GapRun(t, p, k, x))
            && var s' := After(s, mac, GapRun(t, p, k, x));
            && s'.pending.AfterOpen? && s'.pending.call == Call(t, p, mac(k, p)) && t in s'.tokens
            && s'.pending.session in s'.tokens[t].open
            && Judge(Record(s', t), s'.pending.call.verifier) == Match
            && s'.tokens[t].login.None?
  {
    var (p, k, x) := (s.tokens[t].pin, Zeros(PIN_VERIFIER_KEY_LEN), s.next);
    var es7 := [Acquire(t, p, k)] + [OpenSession(true)] + [CLogin(false)] + [Finish] + [Acquire(t, p, k)]
               + [Drop(t, x)] + [Close(t, x)];
    GapRunCloses(s, mac, t);
    RunsAppend(s, mac, es7, OpenSession(true));
  }

  /** The gap, another login, and the grant. */
  function BrokenRun(t: TokenIdentity, pin: Pin, random: Octets, x: SessionId): seq<Event> {
    GapRun(t, pin, random, x) + (OtherLogin(t, pin) + [Finish])
  }

  lemma BrokenRunLogsNobodyOut(t: TokenIdentity, pin: Pin, random: Octets, x: SessionId)
    ensures WithoutLogout(BrokenRun(t, pin, random, x))
  {
  }

  /** The promise does not hold of every run: every process with an unused token
      has this run, without C_Logout, in which a PIN is granted that is not the
      login's and after which no session of riptering's has been open all along. */
  lemma GapOccurs(s: State, mac: Mac, t: TokenIdentity)
    requires MacOk(mac) && Init(s) && t in s.tokens && s.tokens[t].outside == 0
    ensures var es := BrokenRun(t, s.tokens[t].pin, Zeros(PIN_VERIFIER_KEY_LEN), s.next);
            && Runs(s, mac, es) && WithoutLogout(es)
            && !GrantsJoinTheLogin(s, mac, es) && !GrantsAreRight(s, mac, es)
  {
    var (p, k, x) := (s.tokens[t].pin, Zeros(PIN_VERIFIER_KEY_LEN), s.next);
    GapRunOpens(s, mac, t);
    var s8 := After(s, mac, GapRun(t, p, k, x));
    OtherLoginJoined(s8, mac);
    MisjoinGranted(s8, mac, OtherLogin(t, p));
    RunsJoin(s, mac, GapRun(t, p, k, x), OtherLogin(t, p) + [Finish]);
    BrokenRunLogsNobodyOut(t, p, k, x);
    if GrantsAreRight(s, mac, BrokenRun(t, p, k, x)) {
      RightGrantsJoin(s, mac, BrokenRun(t, p, k, x));
    }
  }
}
