/** internal/aghuser/sessionstorage.go: web sessions in memory and in the database. */
module Sessions {
  import opened Net
  import opened Wire
  import opened Runs

  type Token = t: bytes | |t| == 16 witness seq(16, _ => 0)
  type Login = bytes
  type UserId = nat

  const SECOND: int := 1_000_000_000
  const EXPIRE_LEN: nat := 4
  const NAME_LEN: nat := 2

  /** Times are nanoseconds since the Unix epoch. */
  datatype Session = Session(token: Token, userId: UserId, login: Login, expire: int)

  /** What a record keeps of a session: whole seconds and no user identifier. */
  datatype Stored = Stored(login: Login, second: nat)

  /** time.Unix of a moment: the second it falls into. */
  function UnixSecond(t: int): (s: int)
    ensures s * SECOND <= t < (s + 1) * SECOND
  {
    t / SECOND
  }

  // ---- The record format ----

  /** uint32(expire) and uint16(len(login)) keep only the low bits. */
  function EncodeSpec(login: Login, second: int): bytes {
    ToBE(second % TWO_32, EXPIRE_LEN) + ToBE(|login| % 0x1_0000, NAME_LEN) + login
  }

  /** bboltDecode */
  function Decode(data: bytes): Option<Stored> {
    if |data| < EXPIRE_LEN + NAME_LEN then None
    else
      var name := data[EXPIRE_LEN + NAME_LEN..];
      if |name| != FromBE(data[EXPIRE_LEN..EXPIRE_LEN + NAME_LEN]) then None
      else Some(Stored(name, FromBE(data[..EXPIRE_LEN])))
  }

  /** bboltEncode: fills a buffer field by field. */
  method Encode(login: Login, second: int) returns (data: array<byte>)
    ensures fresh(data) && data[..] == EncodeSpec(login, second)
  {
    var n := EXPIRE_LEN + NAME_LEN + |login|;
    data := new byte[n](_ => 0);
    Put(data, 0, ToBE(second % TWO_32, EXPIRE_LEN));
    Put(data, EXPIRE_LEN, ToBE(|login| % 0x1_0000, NAME_LEN));
    Put(data, EXPIRE_LEN + NAME_LEN, login);
    assert data[..] == data[..4] + data[4..6] + data[6..];
  }

  /** Writes a field at a position of the buffer and leaves the rest alone. */
  method Put(data: array<byte>, at: nat, field: bytes)
    requires at + |field| <= data.Length
    modifies data
    ensures data[at..at + |field|] == field
    ensures data[..at] == old(data[..at]) && data[at + |field|..] == old(data[at + |field|..])
  {
    for i := 0 to |field|
      invariant data[at..at + i] == field[..i]
      invariant data[..at] == old(data[..at]) && data[at + |field|..] == old(data[at + |field|..])
    {
      data[at + i] := field[i];
    }
  }

  lemma {:induction false} RecordParts(a: bytes, b: bytes, c: bytes)
    requires |a| == 4 && |b| == 2
    ensures var d := a + b + c; d[..4] == a && d[4..6] == b && d[6..] == c
  {
  }

  /** A record reads back as what was written exactly when the login has at most 65535
      octets and the expiry fits 32 bits. */
  lemma {:induction false} RecordReadsBackIff(login: Login, second: int)
    ensures (second >= 0 && Decode(EncodeSpec(login, second)) == Some(Stored(login, second))) <==>
            |login| < 0x1_0000 && 0 <= second < TWO_32
    ensures |login| >= 0x1_0000 ==> Decode(EncodeSpec(login, second)).None?
  {
    DecodeWritten(login, second);
  }

  /** The octets of a record: four of the expiry second and two of the length of the login,
      most significant first, and then the login. */
  lemma {:induction false} RecordLayout(login: Login, second: int)
    ensures var d := EncodeSpec(login, second);
            && |d| == 6 + |login| && d[6..] == login
            && NumberAt(d, 0, 4, second % TWO_32) && NumberAt(d, 4, 2, |login| % 0x1_0000)
  {
    var e, n := ToBE(second % TWO_32, 4), ToBE(|login| % 0x1_0000, 2);
    WrittenAt([], second % TWO_32, 4, n + login);
    assert [] + e + (n + login) == EncodeSpec(login, second);
    WrittenAt(e, |login| % 0x1_0000, 2, login);
  }

  /** Exactly the octet strings of the length they name are records, and each is what would be
      written for the login and second it holds. */
  lemma {:induction false} DecodeIff(data: bytes)
    ensures Decode(data).Some? <==> |data| >= 6 && |data| == 6 + FromBE(data[4..6])
    ensures Decode(data).Some? ==> EncodeSpec(Decode(data).value.login, Decode(data).value.second) == data
  {
    if Decode(data).Some? {
      Widths();
      WritesBack(data[..4]);
      WritesBack(data[4..6]);
      assert data == data[..4] + data[4..6] + data[6..];
    }
  }

  lemma {:induction false} DecodeWritten(login: Login, second: int)
    ensures Decode(EncodeSpec(login, second)) ==
            if |login| < 0x1_0000 then Some(Stored(login, second % TWO_32)) else None
  {
    var a, b := ToBE(second % TWO_32, EXPIRE_LEN), ToBE(|login| % 0x1_0000, NAME_LEN);
    RecordParts(a, b, login);
    Widths();
    ReadsBack(second % TWO_32, EXPIRE_LEN);
    ReadsBack(|login| % 0x1_0000, NAME_LEN);
  }

  // ---- The storage ----

  type Users = map<Login, UserId>

  /** The record is of a session that a restart at `now` keeps. */
  predicate Survives(data: bytes, users: Users, now: int) {
    var d := Decode(data);
    d.Some? && !(now > d.value.second * SECOND) && d.value.login in users
  }

  function Restored(t: Token, data: bytes, users: Users, now: int): Session
    requires Survives(data, users, now)
  {
    var d := Decode(data).value;
    Session(t, users[d.login], d.login, d.second * SECOND)
  }

  /** The sessions a start at `now` takes from the records. */
  function Loadable(records: map<Token, bytes>, users: Users, now: int): map<Token, Session> {
    map t | t in records && Survives(records[t], users, now) :: Restored(t, records[t], users, now)
  }

  /** The loop of processSessions over the records, in whatever order. */
  method Scan(records: map<Token, bytes>, users: Users, now: int)
    returns (loaded: map<Token, Session>, invalid: set<Token>)
    ensures loaded == Loadable(records, users, now)
    ensures invalid == records.Keys - loaded.Keys
  {
    loaded, invalid := map[], {};
    var left := records.Keys;
    while left != {}
      invariant left <= records.Keys
      invariant forall t :: t in loaded <==> t in records && t !in left && Survives(records[t], users, now)
      invariant forall t :: t in loaded ==> loaded[t] == Restored(t, records[t], users, now)
      invariant forall t :: t in invalid <==> t in records && t !in left && !Survives(records[t], users, now)
      decreases left
    {
      var t :| t in left;
      left := left - {t};
      var s := Decode(records[t]);
      if s.None? || now > s.value.second * SECOND || s.value.login !in users {
        invalid := invalid + {t};
      } else {
        loaded := loaded[t := Session(t, users[s.value.login], s.value.login, s.value.second * SECOND)];
      }
    }
  }

  ghost predicate Recorded(records: map<Token, bytes>, s: Session) {
    s.token in records && UnixSecond(s.expire) >= 0 &&
    Decode(records[s.token]) == Some(Stored(s.login, UnixSecond(s.expire)))
  }

  /** The database holds a record of every session, in memory or on its way there, that
      decodes to its login and expiry second, and no other record. */
  ghost predicate Agree(records: map<Token, bytes>, sessions: map<Token, Session>, pending: map<Token, Session>) {
    && (forall t :: t in sessions ==> sessions[t].token == t && Recorded(records, sessions[t]))
    && (forall t :: t in pending ==> pending[t].token == t && Recorded(records, pending[t]))
    && sessions.Keys !! pending.Keys
    && records.Keys == sessions.Keys + pending.Keys
  }

  lemma {:induction false} AgreeWithout(
      records: map<Token, bytes>, sessions: map<Token, Session>, pending: map<Token, Session>, t: Token)
    requires Agree(records, sessions, pending) && t !in pending
    ensures Agree(records - {t}, sessions - {t}, pending)
  {
  }

  /** The record format can hold the login and the expiry second. */
  predicate Fits(login: Login, expire: int) {
    |login| < 0x1_0000 && 0 <= UnixSecond(expire) < TWO_32
  }

  lemma {:induction false} AgreeWith(
      records: map<Token, bytes>, sessions: map<Token, Session>, pending: map<Token, Session>, s: Session, data: bytes)
    requires Agree(records, sessions, pending)
    ensures Agree(records[s.token := data], sessions, pending[s.token := s]) <==>
            s.token !in sessions && Recorded(map[s.token := data], s)
  {
    var r, p := records[s.token := data], pending[s.token := s];
    assert Recorded(r, s) <==> Recorded(map[s.token := data], s);
    if s.token in sessions {
      assert s.token in p.Keys;
    } else if Recorded(r, s) {
      AgreeWithNew(records, sessions, pending, s, data);
    } else {
      assert s.token in p && p[s.token] == s;
    }
  }

  lemma {:induction false} AgreeWithNew(
      records: map<Token, bytes>, sessions: map<Token, Session>, pending: map<Token, Session>, s: Session, data: bytes)
    requires Agree(records, sessions, pending) && s.token !in sessions && Recorded(records[s.token := data], s)
    ensures Agree(records[s.token := data], sessions, pending[s.token := s])
  {
    StillRecorded(records, records[s.token := data], sessions, s.token);
    StillRecorded(records, records[s.token := data], pending, s.token);
  }

  lemma {:induction false} StillRecorded(
      records: map<Token, bytes>, r: map<Token, bytes>, m: map<Token, Session>, token: Token)
    requires forall t :: t in m ==> m[t].token == t && Recorded(records, m[t])
    requires forall t :: t in records && t != token ==> t in r && r[t] == records[t]
    ensures forall t :: t in m && t != token ==> Recorded(r, m[t])
  {
  }

  // ---- The store as one would describe it ----

  /** The sessions in memory and those on their way there. */
  datatype Simple = Simple(sessions: map<Token, Session>, pending: map<Token, Session>)
  {
    predicate Has(t: Token) { t in sessions || t in pending }

    function Get(t: Token): Session
      requires Has(t)
    {
      if t in sessions then sessions[t] else pending[t]
    }
  }

  datatype Op =
    | StoreOp(token: Token, userId: UserId, login: Login, expire: int)
    | InsertOp(token: Token)
    | FindOp(token: Token, now: int)
    | DeleteOp(token: Token)
    | RestartOp(users: Users, now: int)

  /** New makes a new token, its login and expiry fit, its halves come in order, and nobody
      deletes a session that was not returned yet. */
  predicate Allowed(m: Simple, op: Op) {
    match op
    case StoreOp(token, _, login, expire) => !m.Has(token) && Fits(login, expire)
    case InsertOp(token) => token in m.pending
    case FindOp(_, _) => true
    case DeleteOp(token) => token !in m.pending
    case RestartOp(_, _) => true
  }

  function Found(m: Simple, token: Token, now: int): Option<Session> {
    if token in m.sessions && now <= m.sessions[token].expire then Some(m.sessions[token]) else None
  }

  function AfterRestart(m: Simple, users: Users, now: int): map<Token, Session> {
    map t | t in m.sessions.Keys + m.pending.Keys && Kept(m.Get(t), users, now) ::
      Session(t, users[m.Get(t).login], m.Get(t).login, UnixSecond(m.Get(t).expire) * SECOND)
  }

  /** Where memory and database agree, the records load into what a restart should leave. */
  lemma {:induction false} LoadableIs(records: map<Token, bytes>, m: Simple, users: Users, now: int)
    requires Agree(records, m.sessions, m.pending)
    ensures Loadable(records, users, now) == AfterRestart(m, users, now)
  {
    var a, b := Loadable(records, users, now), AfterRestart(m, users, now);
    forall t | t in records ensures m.Has(t) && (t in a <==> t in b) && (t in a ==> a[t] == b[t]) {
      RecordSurvives(records, m.Get(t), users, now);
    }
    assert a.Keys == b.Keys;
  }

  lemma {:induction false} RecordSurvives(records: map<Token, bytes>, s: Session, users: Users, now: int)
    requires Recorded(records, s)
    ensures Survives(records[s.token], users, now) <==> Kept(s, users, now)
    ensures Kept(s, users, now) ==>
              Restored(s.token, records[s.token], users, now) ==
              Session(s.token, users[s.login], s.login, UnixSecond(s.expire) * SECOND)
  {
  }

  /** What an operation does to the sessions; the database is not mentioned. */
  function After(m: Simple, op: Op): Simple {
    match op
    case StoreOp(token, userId, login, expire) =>
      m.(pending := m.pending[token := Session(token, userId, login, expire)])
    case InsertOp(token) =>
      if token in m.pending then Simple(m.sessions[token := m.pending[token]], m.pending - {token}) else m
    case FindOp(token, now) => if Found(m, token, now).Some? then m else m.(sessions := m.sessions - {token})
    case DeleteOp(token) => m.(sessions := m.sessions - {token})
    case RestartOp(users, now) => Simple(AfterRestart(m, users, now), map[])
  }

  function Stepping(): (Simple, Op) -> Simple {
    (m: Simple, op: Op) => After(m, op)
  }

  function IsAllowed(): (Simple, Op) -> bool {
    (m: Simple, op: Op) => Allowed(m, op)
  }

  /** What a lookup must give, for the sessions of its moment. */
  function Looked(): (Simple, Op) -> Option<Session> {
    (m: Simple, op: Op) => if op.FindOp? then Found(m, op.token, op.now) else None
  }

  // ---- Nobody's session is extended ----

  /** What a restart leaves: the sessions of existing logins that are not past the whole
      second of their expiry. */
  lemma {:induction false} RestartKeepsIff(m: Simple, users: Users, now: int, t: Token)
    ensures t in AfterRestart(m, users, now) <==>
            m.Has(t) && m.Get(t).login in users && now <= m.Get(t).expire - m.Get(t).expire % SECOND
  {
  }

  /** A restart gives nobody more time than before, nor takes a whole second away, and what
      it leaves is not past. */
  lemma {:induction false} RestartNeverExtends(m: Simple, users: Users, now: int, t: Token)
    requires t in AfterRestart(m, users, now)
    ensures m.Has(t)
    ensures var s := AfterRestart(m, users, now)[t];
            && s.token == t && s.login == m.Get(t).login && s.login in users && s.userId == users[s.login]
            && now <= s.expire <= m.Get(t).expire < s.expire + SECOND
  {
  }

  /** The session of the token as New last made it, or as it was at the start. */
  function Promised(start: Simple, ops: seq<Op>, k: nat, t: Token): Option<Session>
    requires k <= |ops|
  {
    if k == 0 then if start.Has(t) then Some(start.Get(t)) else None
    else if ops[k - 1].StoreOp? && ops[k - 1].token == t then
      Some(Session(t, ops[k - 1].userId, ops[k - 1].login, ops[k - 1].expire))
    else Promised(start, ops, k - 1, t)
  }

  /** s is the promised session, or what restarts have left of it. */
  predicate Traces(s: Session, p: Option<Session>) {
    && p.Some? && s.login == p.value.login
    && (s.expire == p.value.expire || s.expire == UnixSecond(p.value.expire) * SECOND)
  }

  ghost predicate AllTrace(start: Simple, ops: seq<Op>, k: nat, m: Simple)
    requires k <= |ops|
  {
    && m.sessions.Keys !! m.pending.Keys
    && forall t :: m.Has(t) ==> Traces(m.Get(t), Promised(start, ops, k, t))
  }

  lemma {:induction false} WholeSecond(t: int)
    ensures UnixSecond(UnixSecond(t) * SECOND) == UnixSecond(t)
  {
  }

  lemma {:induction false} StepTraces(start: Simple, ops: seq<Op>, k: nat, m: Simple)
    requires k < |ops| && AllTrace(start, ops, k, m) && Allowed(m, ops[k])
    ensures AllTrace(start, ops, k + 1, After(m, ops[k]))
  {
    var n := After(m, ops[k]);
    forall t | n.Has(t) ensures Traces(n.Get(t), Promised(start, ops, k + 1, t)) {
      if m.Has(t) {
        assert Traces(m.Get(t), Promised(start, ops, k, t));
        WholeSecond(m.Get(t).expire);
        WholeSecond(Promised(start, ops, k, t).value.expire);
      }
    }
  }

  ghost function Tracing(start: Simple, ops: seq<Op>): (nat, Simple) -> bool {
    (k: nat, m: Simple) => k <= |ops| && AllTrace(start, ops, k, m)
  }

  lemma {:induction false} StepKeepsTraces(start: Simple, ops: seq<Op>, n: nat, m: Simple)
    requires n < |ops|
    ensures KeepsAt(Stepping(), Tracing(start, ops), IsAllowed(), ops, n, m)
  {
    if AllTrace(start, ops, n, m) && Allowed(m, ops[n]) { StepTraces(start, ops, n, m); }
  }

  lemma {:induction false} StartTraces(start: Simple, ops: seq<Op>)
    requires start.sessions.Keys !! start.pending.Keys
    ensures Tracing(start, ops)(0, start)
  {
  }

  lemma {:induction false} RunTraces(start: Simple, ops: seq<Op>, k: nat)
    requires k <= |ops| && start.sessions.Keys !! start.pending.Keys
    requires EveryStep(Stepping(), start, ops, IsAllowed())
    ensures Tracing(start, ops)(k, StateAt(Stepping(), start, ops, k))
  {
    forall n: nat, m | n < |ops| ensures KeepsAt(Stepping(), Tracing(start, ops), IsAllowed(), ops, n, m) {
      StepKeepsTraces(start, ops, n, m);
    }
    StartTraces(start, ops);
    HistoryAt(Stepping(), Tracing(start, ops), IsAllowed(), start, ops, k);
  }

  /** The session found by operation i is the one promised for its token, and the lookup is
      not later than the expiry promised then. */
  ghost predicate InTime(start: Simple, ops: seq<Op>, i: nat, s: Session)
    requires i < |ops| && ops[i].FindOp?
  {
    var p := Promised(start, ops, i, ops[i].token);
    p.Some? && s.login == p.value.login && ops[i].now <= s.expire <= p.value.expire
  }

  /** No lookup of a run, before or after restarts, gives a session later than the expiry that
      New gave it. */
  lemma {:induction false} FoundInTime(start: Simple, ops: seq<Op>, i: nat)
    requires i < |ops| && ops[i].FindOp? && start.sessions.Keys !! start.pending.Keys
    requires EveryStep(Stepping(), start, ops, IsAllowed())
    ensures var s := Looked()(StateAt(Stepping(), start, ops, i), ops[i]);
            s.Some? ==> InTime(start, ops, i, s.value)
  {
    RunTraces(start, ops, i);
    var m := StateAt(Stepping(), start, ops, i);
    if Found(m, ops[i].token, ops[i].now).Some? {
      assert m.Has(ops[i].token);
    }
  }

  class SessionStorage {
    /** The sessions bucket, if it was created. */
    var bucket: Option<map<Token, bytes>>
    var sessions: map<Token, Session>
    /** Sessions that New has written to the database but not yet put into memory. */
    var pending: map<Token, Session>

    ghost function Records(): map<Token, bytes>
      reads this
    {
      if bucket.Some? then bucket.value else map[]
    }

    ghost predicate Valid()
      reads this
    {
      Agree(Records(), sessions, pending)
    }

    /** NewDefaultSessionStorage over whatever database is found. */
    constructor (bucket: Option<map<Token, bytes>>, users: Users, now: int)
      ensures Valid() && pending == map[]
      ensures sessions == Loadable(if bucket.Some? then bucket.value else map[], users, now)
    {
      this.bucket, sessions, pending := bucket, map[], map[];
      new;
      LoadSessions(users, now);
    }

    /** loadSessions: reads all records, keeps the surviving ones in memory and deletes the
        others from the database. */
    method LoadSessions(users: Users, now: int)
      modifies this
      ensures Valid() && pending == map[]
      ensures sessions == Loadable(old(Records()), users, now)
      ensures Records() == map t | t in old(Records()) && Survives(old(Records())[t], users, now) :: old(Records())[t]
    {
      sessions, pending := map[], map[];
      if bucket.None? {
        return;
      }
      ghost var all := bucket.value;
      var loaded, invalid := Scan(bucket.value, users, now);
      sessions := loaded;
      bucket := Some(bucket.value - invalid);
      forall t | t in sessions ensures sessions[t].token == t && Recorded(bucket.value, sessions[t]) {
        assert UnixSecond(sessions[t].expire) == Decode(all[t]).value.second;
      }
    }

    /** The first half of New: the record is written to the database.  Memory and database agree
        afterwards exactly if the token is not in memory already and the login and the expiry
        fit the record format. */
    method Store(token: Token, userId: UserId, login: Login, expire: int)
      requires Valid()
      modifies this
      ensures sessions == old(sessions) && Records() == old(Records())[token := EncodeSpec(login, UnixSecond(expire))]
      ensures pending == old(pending)[token := Session(token, userId, login, expire)]
      ensures Valid() <==> token !in sessions && Fits(login, expire)
    {
      var data := Encode(login, UnixSecond(expire));
      RecordReadsBackIff(login, UnixSecond(expire));
      bucket := Some((if bucket.Some? then bucket.value else map[])[token := data[..]]);
      pending := pending[token := Session(token, userId, login, expire)];
      AgreeWith(old(Records()), sessions, old(pending), pending[token], Records()[token]);
    }

    /** The second half of New: the session is put into memory and returned. */
    method Insert(token: Token) returns (s: Session)
      requires Valid() && token in pending
      modifies this
      ensures Valid() && s == old(pending)[token]
      ensures sessions == old(sessions)[token := s] && pending == old(pending) - {token}
    {
      s := pending[token];
      pending := pending - {token};
      sessions := sessions[token := s];
    }

    /** deleteByToken.  Memory and database agree afterwards exactly if the token is not one
        whose New has yet to put it into memory. */
    method DeleteByToken(token: Token) returns (ok: bool)
      requires Valid()
      modifies this
      ensures pending == old(pending) && ok == old(bucket).Some?
      ensures sessions == old(sessions) - {token} && Records() == old(Records()) - {token}
      ensures Valid() <==> token !in pending
    {
      if bucket.None? {
        assert sessions - {token} == sessions;
        return false;
      }
      bucket := Some(bucket.value - {token});
      sessions := sessions - {token};
      if token !in pending { AgreeWithout(old(Records()), old(sessions), pending, token); }
      ok := true;
    }

    /** FindByToken: never returns an expired session, and forgets it for good instead. */
    method FindByToken(token: Token, now: int) returns (s: Option<Session>)
      requires Valid()
      modifies this
      ensures Valid() && pending == old(pending)
      ensures s == Found(old(Described()), token, now)
      ensures s.Some? <==> token in old(sessions) && now <= old(sessions)[token].expire
      ensures s.Some? ==> s.value == old(sessions)[token]
      ensures sessions == if s.None? then old(sessions) - {token} else old(sessions)
      ensures Records() == if token in old(sessions) && s.None? then old(Records()) - {token} else old(Records())
    {
      if token !in sessions {
        assert sessions - {token} == sessions;
        return None;
      }
      if now > sessions[token].expire {
        var _ := DeleteByToken(token);
        return None;
      }
      s := Some(sessions[token]);
    }

    /** A restart: memory is lost and rebuilt from the database.  Exactly the sessions not
        past their expiry second whose login still exists come back, with that second as
        their expiry, including those whose New was interrupted. */
    method Restart(users: Users, now: int)
      requires Valid()
      modifies this
      ensures Valid() && pending == map[]
      ensures sessions == AfterRestart(old(Described()), users, now)
    {
      LoadableIs(Records(), Described(), users, now);
      LoadSessions(users, now);
    }

    ghost function Described(): Simple
      reads this
    {
      Simple(sessions, pending)
    }

    /** One operation; only a lookup has a result. */
    method Apply(op: Op) returns (found: Option<Session>)
      requires Valid() && Allowed(Described(), op)
      modifies this
      ensures Valid() && Described() == Stepping()(old(Described()), op) && found == Looked()(old(Described()), op)
    {
      found := None;
      match op
      case StoreOp(token, userId, login, expire) => Store(token, userId, login, expire);
      case InsertOp(token) => var _ := Insert(token);
      case FindOp(token, now) => found := FindByToken(token, now);
      case DeleteOp(token) => var _ := DeleteByToken(token);
      case RestartOp(users, now) => Restart(users, now);
    }

    /** In every run of operations memory and database agree, the store does what the plain
        description does, and every lookup gives the session of its moment if there is one
        that has not expired. */
    method Run(ops: seq<Op>) returns (found: seq<Option<Session>>)
      requires Valid() && EveryStep(Stepping(), Described(), ops, IsAllowed())
      modifies this
      ensures Valid() && Described() == StateAt(Stepping(), old(Described()), ops, |ops|)
      ensures found == OutputsOf(Stepping(), Looked(), old(Described()), ops, |ops|)
      ensures forall i :: 0 <= i < |ops| && ops[i].FindOp? && found[i].Some? ==>
                InTime(old(Described()), ops, i, found[i].value)
    {
      found := [];
      ghost var start := Described();
      forall i | 0 <= i < |ops| && ops[i].FindOp? ensures
        var s := Looked()(StateAt(Stepping(), start, ops, i), ops[i]); s.Some? ==> InTime(start, ops, i, s.value)
      {
        FoundInTime(start, ops, i);
      }
      for i := 0 to |ops|
        invariant Valid() && Described() == StateAt(Stepping(), start, ops, i)
        invariant found == OutputsOf(Stepping(), Looked(), start, ops, i)
      {
        assert IsAllowed()(StateAt(Stepping(), start, ops, i), ops[i]);
        var s := Apply(ops[i]);
        OneMoreStep(Stepping(), Looked(), start, ops, i, Described(), s);
        found := found + [s];
      }
    }
  }

  /** Not past its expiry second, and its user still exists. */
  predicate Kept(s: Session, users: Users, now: int) {
    now <= UnixSecond(s.expire) * SECOND && s.login in users
  }
}
