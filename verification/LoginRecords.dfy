/**
 The registry of PIN verifiers kept for tokens this process logged in to
 (src/pkcs11/mod.rs). The classes hold the mutable state; each method is proved
 against a function of the record's or the registry's value, which LoginProtocol
 then runs against a token and the rest of the process.
 */
module LoginRecords {
  import opened Wrappers
  import opened Bytes
  import opened Bits

  type SessionId = nat

  type Pin = Octets

  /** HMAC-SHA-256 as a function of key and message. */
  type Mac = (Octets, Octets) -> Octets

  /** The module a token was loaded through, its slot, and what it reports. */
  datatype TokenIdentity = TokenIdentity(library: nat, slot: nat, serial: string, name: string)

  const PIN_VERIFIER_KEY_LEN: nat := 32
  const MAX_PIN_MISMATCHES: nat := 3

  // ---- Values -------------------------------------------------------------

  datatype RecordState = RecordState(
    verifier: Option<Octets>, sessions: seq<SessionId>, mismatches: nat)

  const EMPTY_RECORD: RecordState := RecordState(None, [], 0)

  datatype RegistryState = RegistryState(
    key: Option<Octets>, tokens: map<TokenIdentity, RecordState>)

  /** Consistency of a record: nothing is left to guess against after the third
      wrong PIN, and only then does a wrong PIN cost the verifier. */
  predicate RecordInv(r: RecordState) {
    && r.mismatches <= MAX_PIN_MISMATCHES
    && (r.verifier.Some? ==> r.mismatches < MAX_PIN_MISMATCHES && r.verifier.value != [])
    && (r.verifier.None? ==> r.mismatches == 0 || r.mismatches == MAX_PIN_MISMATCHES)
  }

  function Retain(sessions: seq<SessionId>, live: set<SessionId>): (kept: seq<SessionId>)
    ensures forall x :: x in kept <==> x in sessions && x in live
  {
    if sessions == [] then []
    else
      var rest := Retain(sessions[1..], live);
      assert sessions == [sessions[0]] + sessions[1..];
      if sessions[0] in live then [sessions[0]] + rest else rest
  }

  /** The live sessions are kept in their order, each as often as it occurs. */
  lemma {:induction false} RetainInOrder(a: seq<SessionId>, x: SessionId, b: seq<SessionId>, live: set<SessionId>)
    ensures Retain(a + [x] + b, live) == Retain(a, live) + (if x in live then [x] else []) + Retain(b, live)
  {
    if a == [] {
      assert [] + [x] + b == [x] + b;
    } else {
      RetainInOrder(a[1..], x, b, live);
      assert (a + [x] + b)[1..] == a[1..] + [x] + b;
    }
  }

  /** The record after closed sessions are pruned; with none left the login may
      have ended, and nothing of it is kept. */
  function Tracked(r: RecordState, live: set<SessionId>): RecordState {
    var kept := Retain(r.sessions, live);
    if kept == [] then EMPTY_RECORD else r.(sessions := kept)
  }

  function Lookup(s: RegistryState, token: TokenIdentity): RecordState {
    if token in s.tokens then s.tokens[token] else EMPTY_RECORD
  }

  datatype Verdict = Match | Mismatch | Refused

  /** How an answer "already logged in" is judged for a PIN's verifier. */
  function Judge(r: RecordState, verifier: Octets): (v: Verdict)
    ensures v == Match <==> r.mismatches < 3 && r.verifier == Some(verifier)
    ensures v == Refused <==> r.mismatches >= 3 || r.verifier == None
  {
    if r.mismatches >= MAX_PIN_MISMATCHES || r.verifier.None? then Refused
    else if r.verifier.value == verifier then Match
    else Mismatch
  }

  function Judged(r: RecordState, verifier: Octets): RecordState {
    match Judge(r, verifier)
    case Match => r.(mismatches := 0)
    case Mismatch =>
      r.(mismatches := r.mismatches + 1,
         verifier := if r.mismatches + 1 >= MAX_PIN_MISMATCHES then None else r.verifier)
    case Refused => r
  }

  function LoggedInWith(r: RecordState, verifier: Octets): RecordState {
    r.(verifier := Some(verifier), mismatches := 0)
  }

  function Joined(r: RecordState, session: SessionId): RecordState {
    r.(sessions := r.sessions + [session])
  }

  // ---- Classes ------------------------------------------------------------

  class LoginRecord {
    var verifier: Option<Octets>
    var sessions: seq<SessionId>
    var mismatches: nat

    constructor ()
      ensures View() == EMPTY_RECORD && Valid()
    {
      verifier, sessions, mismatches := None, [], 0;
    }

    function View(): RecordState
      reads this
    {
      RecordState(verifier, sessions, mismatches)
    }

    predicate Valid()
      reads this
    {
      RecordInv(View())
    }

    method LoggedIn(accepted: Octets)
      requires Valid() && accepted != []
      modifies this
      ensures Valid() && View() == LoggedInWith(old(View()), accepted)
      ensures verifier == Some(accepted) && mismatches == 0 && sessions == old(sessions)
    {
      verifier := Some(accepted);
      mismatches := 0;
    }

    method Check(supplied: Octets) returns (r: Result<()>)
      requires Valid()
      modifies this
      ensures Valid() && View() == Judged(old(View()), supplied)
      ensures r.Ok? <==> Judge(old(View()), supplied) == Match
      ensures r.Ok? <==> old(mismatches) < 3 && old(verifier) == Some(supplied)
      ensures sessions == old(sessions)
      ensures r.Ok? ==> mismatches == 0 && verifier == old(verifier)
      ensures r.Err? && old(mismatches) < 3 && old(verifier).Some? ==>
                && mismatches == old(mismatches) + 1
                && verifier == if mismatches == 3 then None else old(verifier)
      ensures old(mismatches) >= 3 || old(verifier).None? ==>
                mismatches == old(mismatches) && verifier == old(verifier)
    {
      if mismatches >= MAX_PIN_MISMATCHES {
        return Err(Pkcs11);
      }
      match verifier
      case Some(recorded) =>
        if ConstantTimeEq(recorded, supplied) {
          mismatches := 0;
          return Ok(());
        }
        mismatches := mismatches + 1;
        if mismatches >= MAX_PIN_MISMATCHES {
          verifier := None;
        }
        return Err(Pkcs11);
      case None =>
        return Err(Pkcs11);
    }

    method Prune(live: set<SessionId>)
      requires Valid()
      modifies this
      ensures Valid() && View() == Tracked(old(View()), live)
      ensures sessions == Retain(old(sessions), live)
      ensures sessions == [] ==> verifier == None && mismatches == 0
      ensures sessions != [] ==> verifier == old(verifier) && mismatches == old(mismatches)
    {
      sessions := Retain(sessions, live);
      if sessions == [] {
        verifier := None;
        mismatches := 0;
      }
    }

    method Push(session: SessionId)
      requires Valid()
      modifies this
      ensures Valid() && View() == Joined(old(View()), session)
      ensures sessions == old(sessions) + [session]
      ensures verifier == old(verifier) && mismatches == old(mismatches)
    {
      sessions := sessions + [session];
    }
  }

  /** What `C_Login` answered. */
  datatype LoginAnswer = LoggedIn | AlreadyLoggedIn | Failed

  /** The answers one call gets from outside: the random generator, the digest,
      the liveness of sessions when it prunes, `C_OpenSession` and `C_Login`. */
  datatype Answers = Answers(
    random: Result<Octets>, digest: Result<()>, live: set<SessionId>,
    session: Result<SessionId>, login: LoginAnswer)

  lemma UpdateTwice<K, V>(m: map<K, V>, k: K, v: V, w: V)
    ensures m[k := v][k := w] == m[k := w]
  {
  }

  class LoginRegistry {
    var key: Option<Octets>
    var tokens: map<TokenIdentity, LoginRecord>
    /** The values of the records. */
    ghost var records: map<TokenIdentity, RecordState>

    constructor ()
      ensures Valid() && View() == RegistryState(None, map[])
    {
      key, tokens, records := None, map[], map[];
    }

    ghost predicate Valid()
      reads this, tokens.Values
    {
      && records.Keys == tokens.Keys
      && (forall t :: t in tokens ==> tokens[t].View() == records[t] && RecordInv(records[t]))
      && (forall t, u :: t in tokens && u in tokens && t != u ==> tokens[t] != tokens[u])
    }

    ghost function View(): RegistryState
      reads this
    {
      RegistryState(key, records)
    }

    /** The key is drawn on first use, then never replaced. */
    method Verifier(mac: Mac, pin: Pin, random: Result<Octets>, digest: Result<()>)
      returns (r: Result<Octets>)
      requires Valid()
      modifies this`key
      ensures Valid()
      ensures View() == Keyed(old(View()), random)
      ensures r.Ok? <==> key.Some? && digest.Ok?
      ensures r.Ok? ==> r.value == mac(key.value, pin)
    {
      if key.None? {
        if random.Err? {
          return Err(random.error);
        }
        key := Some(random.value);
      }
      if digest.Err? {
        return Err(digest.error);
      }
      return Ok(mac(key.value, pin));
    }

    /** The record of a token, created empty at its first use. */
    method Entry(token: TokenIdentity) returns (record: LoginRecord)
      requires Valid()
      modifies this`tokens, this`records
      ensures Valid()
      ensures tokens == old(tokens)[token := record]
      ensures token in old(tokens) ==> record == old(tokens)[token]
      ensures token !in old(tokens) ==> fresh(record)
      ensures records == old(records)[token := Lookup(old(View()), token)]
    {
      if token !in tokens {
        record := new LoginRecord();
        tokens := tokens[token := record];
        records := records[token := EMPTY_RECORD];
      } else {
        assert records == records[token := records[token]];
      }
      record := tokens[token];
    }

    method Track(token: TokenIdentity, live: set<SessionId>) returns (record: LoginRecord)
      requires Valid()
      modifies this`tokens, this`records, tokens.Values
      ensures Valid() && key == old(key)
      ensures tokens == old(tokens)[token := record]
      ensures token in old(tokens) ==> record == old(tokens)[token]
      ensures token !in old(tokens) ==> fresh(record)
      ensures records == old(records)[token := Tracked(Lookup(old(View()), token), live)]
    {
      record := Entry(token);
      ghost var found := records[token];
      Prune(token, live);
      UpdateTwice(old(records), token, found, records[token]);
    }

    /** Drops the sessions that have ended; the last one takes the login with it. */
    method Prune(token: TokenIdentity, live: set<SessionId>)
      requires Valid() && token in tokens
      modifies this`records, tokens[token]
      ensures Valid() && records == old(records)[token := Tracked(old(records[token]), live)]
    {
      tokens[token].Prune(live);
      records := records[token := tokens[token].View()];
    }

    /** `LoginRecord.logged_in` on the record of a token. */
    method Accept(token: TokenIdentity, verifier: Octets)
      requires Valid() && token in tokens && verifier != []
      modifies this`records, tokens[token]
      ensures Valid() && records == old(records)[token := LoggedInWith(old(records[token]), verifier)]
    {
      tokens[token].LoggedIn(verifier);
      records := records[token := tokens[token].View()];
    }

    /** `LoginRecord.check` on the record of a token. */
    method Check(token: TokenIdentity, verifier: Octets) returns (r: Result<()>)
      requires Valid() && token in tokens
      modifies this`records, tokens[token]
      ensures Valid() && records == old(records)[token := Judged(old(records[token]), verifier)]
      ensures r.Ok? <==> Judge(old(records[token]), verifier) == Match
    {
      r := tokens[token].Check(verifier);
      records := records[token := tokens[token].View()];
    }

    /** What `C_Login`'s answer means for the record, and whether it grants the session. */
    method Answer(token: TokenIdentity, verifier: Octets, login: LoginAnswer) returns (granted: bool)
      requires Valid() && token in tokens && verifier != []
      modifies this`records, tokens[token]
      ensures Valid()
      ensures (records, granted) ==
              var (answered, grant) := Answered(old(records[token]), verifier, login);
              (old(records)[token := answered], grant)
    {
      match login {
        case LoggedIn =>
          Accept(token, verifier);
          granted := true;
        case AlreadyLoggedIn =>
          var accepted := Check(token, verifier);
          granted := accepted.Ok?;
        case Failed =>
          assert records == records[token := records[token]];
          granted := false;
      }
    }

    method Join(token: TokenIdentity, session: SessionId)
      requires Valid() && token in tokens
      modifies this`records, tokens[token]
      ensures Valid() && records == old(records)[token := Joined(old(records[token]), session)]
    {
      tokens[token].Push(session);
      records := records[token := tokens[token].View()];
    }

    /** From `C_Login`'s answer to the tracked session. */
    method Finish(token: TokenIdentity, verifier: Octets, login: LoginAnswer, session: SessionId)
      returns (granted: bool)
      requires Valid() && token in tokens && verifier != []
      modifies this`records, tokens[token]
      ensures Valid()
      ensures (records, granted) ==
              var (answered, grant) := Answered(old(records[token]), verifier, login);
              (old(records)[token := if grant then Joined(answered, session) else answered], grant)
    {
      granted := Answer(token, verifier, login);
      ghost var answered := records[token];
      if granted {
        Join(token, session);
        UpdateTwice(old(records), token, answered, records[token]);
      }
    }
  }

  function Put(s: RegistryState, token: TokenIdentity, r: RecordState): RegistryState {
    s.(tokens := s.tokens[token := r])
  }

  lemma PutTwice(s: RegistryState, token: TokenIdentity, r: RecordState, r': RecordState)
    ensures Put(Put(s, token, r), token, r') == Put(s, token, r')
  {
    UpdateTwice(s.tokens, token, r, r');
  }

  /** The registry after the key was looked up or drawn. */
  function Keyed(s: RegistryState, random: Result<Octets>): RegistryState {
    if s.key.None? && random.Ok? then s.(key := Some(random.value)) else s
  }

  /** The record after `C_Login` answered, and whether the session is granted. */
  function Answered(r: RecordState, verifier: Octets, login: LoginAnswer): (RecordState, bool) {
    match login
    case LoggedIn => (LoggedInWith(r, verifier), true)
    case AlreadyLoggedIn => (Judged(r, verifier), Judge(r, verifier) == Match)
    case Failed => (r, false)
  }

  /** From tracking the session on: the registry's value after the call, and its result. */
  function Attached(s: RegistryState, token: TokenIdentity, verifier: Octets, a: Answers)
    : (RegistryState, Result<SessionId>)
  {
    var record := Tracked(Lookup(s, token), a.live);
    if a.session.Err? then (Put(s, token, record), Err(Pkcs11)) else
    var (answered, granted) := Answered(record, verifier, a.login);
    if !granted then (Put(s, token, answered), Err(Pkcs11))
    else (Put(s, token, Joined(answered, a.session.value)), Ok(a.session.value))
  }

  /** The registry's value after one `open_session_on_slot`, and its result. */
  function Opened(s: RegistryState, mac: Mac, token: TokenIdentity, pin: Pin, a: Answers)
    : (RegistryState, Result<SessionId>)
  {
    var s1 := Keyed(s, a.random);
    if s1.key.None? || a.digest.Err? then (s1, Err(Pkcs11))
    else Attached(s1, token, mac(s1.key.value, pin), a)
  }

  /** A call that gets a verifier and a session: the record it leaves and its
      result, for each answer of `C_Login`. `kept` are the sessions still alive,
      `v` and `n` the verifier and the count that count while there is one. */
  lemma OpenedByAnswer(s: RegistryState, mac: Mac, token: TokenIdentity, pin: Pin, a: Answers,
                       kept: seq<SessionId>, v: Option<Octets>, n: nat, mine: Octets)
    requires (s.key.Some? || a.random.Ok?) && a.digest.Ok? && a.session.Ok?
    requires mine == mac(if s.key.Some? then s.key.value else a.random.value, pin)
    requires token in s.tokens ==> kept == Retain(s.tokens[token].sessions, a.live)
    requires token !in s.tokens ==> kept == []
    requires kept == [] ==> v == None && n == 0
    requires kept != [] ==> v == s.tokens[token].verifier && n == s.tokens[token].mismatches
    ensures var (s', r) := Opened(s, mac, token, pin, a);
            && token in s'.tokens
            && s'.tokens == s.tokens[token := s'.tokens[token]]
            && (r == if a.login == LoginAnswer.LoggedIn || (a.login == AlreadyLoggedIn && n < 3 && v == Some(mine))
                     then Ok(a.session.value) else Err(Pkcs11))
            && s'.tokens[token] ==
               match a.login
               case LoggedIn => RecordState(Some(mine), kept + [a.session.value], 0)
               case Failed => RecordState(v, kept, n)
               case AlreadyLoggedIn =>
                 if n >= 3 || v == None then RecordState(v, kept, n)
                 else if v == Some(mine) then RecordState(v, kept + [a.session.value], 0)
                 else RecordState(if n == 2 then None else v, kept, n + 1)
  {
    var s1 := Keyed(s, a.random);
    var tracked := Tracked(Lookup(s1, token), a.live);
    assert tracked == RecordState(v, kept, n);
    var (answered, granted) := Answered(tracked, mine, a.login);
  }

  /** A call that fails before: without a verifier nothing is looked at, without
      a session only the pruning stays. */
  lemma OpenedWithoutSession(s: RegistryState, mac: Mac, token: TokenIdentity, pin: Pin, a: Answers)
    ensures var (s', r) := Opened(s, mac, token, pin, a);
            && s'.key == (if s.key.Some? then s.key else if a.random.Ok? then Some(a.random.value) else None)
            && ((s.key.None? && a.random.Err?) || a.digest.Err? ==> r == Err(Pkcs11) && s'.tokens == s.tokens)
            && (a.session.Err? ==> r == Err(Pkcs11))
            && (a.session.Err? && s'.key.Some? && a.digest.Ok? ==>
                  && token in s'.tokens && s'.tokens == s.tokens[token := s'.tokens[token]]
                  && var before := if token in s.tokens then s.tokens[token] else RecordState(None, [], 0);
                  && s'.tokens[token].sessions == Retain(before.sessions, a.live)
                  && s'.tokens[token] ==
                     if s'.tokens[token].sessions == [] then RecordState(None, [], 0)
                     else before.(sessions := s'.tokens[token].sessions))
  {
  }

  method AttachSession(logins: LoginRegistry, token: TokenIdentity, verifier: Octets, a: Answers)
    returns (r: Result<SessionId>)
    requires logins.Valid() && verifier != []
    modifies logins, logins.tokens.Values
    ensures logins.Valid()
    ensures (logins.View(), r) == Attached(old(logins.View()), token, verifier, a)
  {
    var record := logins.Track(token, a.live);
    ghost var tracked := logins.records[token];
    if a.session.Err? {
      return Err(Pkcs11);
    }
    var granted := logins.Finish(token, verifier, a.login, a.session.value);
    UpdateTwice(old(logins.records), token, tracked, logins.records[token]);
    if !granted {
      return Err(Pkcs11);
    }
    return Ok(a.session.value);
  }

  method OpenSessionOnSlot(logins: LoginRegistry, mac: Mac, token: TokenIdentity, pin: Pin, a: Answers)
    returns (r: Result<SessionId>)
    requires logins.Valid()
    requires forall k, m :: mac(k, m) != []
    modifies logins, logins.tokens.Values
    ensures logins.Valid()
    ensures (logins.View(), r) == Opened(old(logins.View()), mac, token, pin, a)
  {
    var verifier := logins.Verifier(mac, pin, a.random, a.digest);
    if verifier.Err? {
      return Err(Pkcs11);
    }
    r := AttachSession(logins, token, verifier.value, a);
  }
}
