/**
 The `refresh_sessions` table, the statements the repository runs on it, what each use
 case does to the table when it runs alone, and logs of committed events.  `Replay` folds
 a log into a table and accepts it only if every event is legal; the lemmas state what such
 a log guarantees.  Without row locks fewer conditions are left for an event to be legal,
 and a log need not be one that the use cases produce one after another.

 A token hash is a constructor applied to the token, so hashing is injective.
 */
module Sessions {
  import opened Prelude

  type Token = nat
  type SessionId = nat
  type UserId = nat
  type TaskId = nat
  type Instant = int

  datatype Hash = Hash(token: Token)

  /** Why a use case raises. */
  datatype Error =
    | InvalidCredentials | UserNotFound | InvalidToken | ExpiredToken | SigningFailed | Interrupted
    | IntegrityError | NestedScope | InactiveScope | BeginFailed | FinishFailed | CloseFailed

  datatype Row = Row(
    id: SessionId,
    hash: Hash,
    user: UserId,
    userAgent: string,
    ipAddressTrace: string,
    createdAt: Instant,
    lastUsedAt: Option<Instant>,
    expiresAt: Instant,
    revokedAt: Option<Instant>,
    rotationCounter: nat
  ) {
    predicate IsActiveAt(now: Instant) {
      revokedAt.None? && expiresAt > now
    }

    function LastSeen(): Instant {
      if lastUsedAt.Some? then lastUsedAt.value else createdAt
    }
  }

  type Table = map<SessionId, Row>

  /** `ttl` is the configured lifetime.  `locking` says whether the database honours
      the row lock of `SELECT ... FOR UPDATE`. */
  datatype Rules = Rules(ttl: nat, locking: bool)

  // ----- Statements -----

  function NewRow(id: SessionId, token: Token, user: UserId, userAgent: string,
                  ipAddressTrace: Option<string>, createdAt: Instant, ttl: nat): Row {
    Row(id, Hash(token), user, userAgent,
        if ipAddressTrace.Some? then ipAddressTrace.value else "",
        createdAt, None, createdAt + ttl, None, 0)
  }

  /** `found` is a possible answer of the lookup by token hash. */
  ghost predicate Finds(rows: Table, hash: Hash, found: Option<SessionId>) {
    match found
    case None => forall id :: id in rows ==> rows[id].hash != hash
    case Some(id) => id in rows && rows[id].hash == hash
  }

  ghost function Lookup(rows: Table, hash: Hash): (found: Option<SessionId>)
    ensures Finds(rows, hash, found)
  {
    if exists id :: id in rows && rows[id].hash == hash then
      var id :| id in rows && rows[id].hash == hash;
      Some(id)
    else None
  }

  /** The guarded update: the new row when it matches one row, nothing otherwise. */
  function ReplaceTokenHash(rows: Table, id: SessionId, expected: Hash, replacement: Hash,
                            usedAt: Instant, counter: nat): Option<Row> {
    if id in rows && rows[id].hash == expected then
      Some(rows[id].(hash := replacement, lastUsedAt := Some(usedAt), rotationCounter := counter))
    else
      None
  }

  function MarkRevoked(rows: Table, id: SessionId, at: Instant): Option<Row> {
    if id in rows then Some(rows[id].(revokedAt := Some(at))) else None
  }

  // ----- One use case at a time -----

  /** What the table must satisfy, by its primary key, its unique constraint and the monotone clock. */
  ghost predicate Consistent(rows: Table, now: Instant) {
    HashesDistinct(rows) && forall id :: id in rows ==> rows[id].id == id && rows[id].LastSeen() <= now
  }

  /** A row with this identifier and this hash can be inserted. */
  predicate IsFree(rows: Table, id: SessionId, hash: Hash) {
    id !in rows && forall other :: other in rows ==> rows[other].hash != hash
  }

  /** Another row than this one has the hash. */
  predicate IsTaken(rows: Table, id: SessionId, hash: Hash) {
    exists other :: other in rows && other != id && rows[other].hash == hash
  }

  predicate IsActiveUser(users: map<UserId, bool>, user: UserId) {
    user in users && users[user]
  }

  /** The error of a lookup followed by the activity check. */
  ghost function UseError(rows: Table, token: Token, now: Instant): Option<Error> {
    var found := Lookup(rows, Hash(token));
    if found.None? then Some(InvalidToken)
    else if !rows[found.value].IsActiveAt(now) then Some(ExpiredToken)
    else None
  }

  ghost function RotateError(rows: Table, token: Token, newToken: Token, now: Instant): Option<Error> {
    if UseError(rows, token, now).Some? then UseError(rows, token, now)
    else if IsTaken(rows, Lookup(rows, Hash(token)).value, Hash(newToken)) then Some(IntegrityError)
    else None
  }

  /** What a refresh raises, if anything. */
  ghost function RefreshError(rows: Table, users: map<UserId, bool>, token: Token, newToken: Token, now: Instant,
                              signed: bool): Option<Error> {
    if RotateError(rows, token, newToken, now).Some? then RotateError(rows, token, newToken, now)
    else if !IsActiveUser(users, rows[Lookup(rows, Hash(token)).value].user) then Some(InvalidToken)
    else if !signed then Some(SigningFailed)
    else None
  }

  ghost function RevokeError(rows: Table, users: map<UserId, bool>, token: Token, actor: UserId, now: Instant)
    : Option<Error>
  {
    if !IsActiveUser(users, actor) then Some(UserNotFound)
    else if UseError(rows, token, now).Some? then UseError(rows, token, now)
    else if rows[Lookup(rows, Hash(token)).value].user != actor then Some(InvalidToken)
    else None
  }

  ghost function IssueError(rows: Table, users: map<UserId, bool>, user: UserId, passwordOk: bool,
                            id: SessionId, token: Token, signed: bool): Option<Error> {
    if !IsActiveUser(users, user) || !passwordOk then Some(InvalidCredentials)
    else if !IsFree(rows, id, Hash(token)) then Some(IntegrityError)
    else if !signed then Some(SigningFailed)
    else None
  }

  // ----- When a use case answers -----

  /** The row a refresh or a revocation with this token may use at this time. */
  ghost predicate UsableAt(rows: Table, id: SessionId, token: Token, now: Instant) {
    id in rows && rows[id].hash == Hash(token) && rows[id].revokedAt.None? && now < rows[id].expiresAt
  }

  /** Without row or with the wrong one a lookup raises; the row it finds has to be usable. */
  lemma UseErrorMeans(rows: Table, token: Token, now: Instant)
    requires HashesDistinct(rows)
    ensures UseError(rows, token, now) == Some(InvalidToken) <==>
            forall id :: id in rows ==> rows[id].hash != Hash(token)
    ensures UseError(rows, token, now) == Some(ExpiredToken) <==>
            exists id :: id in rows && rows[id].hash == Hash(token) &&
                         (rows[id].revokedAt.Some? || rows[id].expiresAt <= now)
    ensures forall id: SessionId :: UsableAt(rows, id, token, now) ==>
              UseError(rows, token, now) == None && Lookup(rows, Hash(token)) == Some(id)
    ensures UseError(rows, token, now) == None ==> UsableAt(rows, Lookup(rows, Hash(token)).value, token, now)
  {
  }

  /** A refresh raises nothing exactly when it can sign, no other row has the new hash, and a usable row
      has the token and belongs to a user whose account is there and is not deactivated. */
  lemma RefreshAnswersIff(rows: Table, users: map<UserId, bool>, token: Token, newToken: Token, now: Instant,
                          signed: bool)
    requires HashesDistinct(rows)
    ensures RefreshError(rows, users, token, newToken, now, signed) == None <==>
            signed && exists id :: UsableAt(rows, id, token, now) && rows[id].user in users && users[rows[id].user] &&
                                   forall other :: other in rows && other != id ==> rows[other].hash != Hash(newToken)
  {
    UseErrorMeans(rows, token, now);
    if id :| UsableAt(rows, id, token, now) {
      assert IsTaken(rows, id, Hash(newToken)) <==>
             exists other :: other in rows && other != id && rows[other].hash == Hash(newToken);
    }
  }

  /** A revocation raises nothing exactly when the actor's account is there and is not deactivated, and
      the actor owns a usable row with the token. */
  lemma RevokeAnswersIff(rows: Table, users: map<UserId, bool>, token: Token, actor: UserId, now: Instant)
    requires HashesDistinct(rows)
    ensures RevokeError(rows, users, token, actor, now) == None <==>
            actor in users && users[actor] && exists id :: UsableAt(rows, id, token, now) && rows[id].user == actor
  {
    UseErrorMeans(rows, token, now);
  }

  /** Issuing raises nothing exactly when it can sign, identifier and hash are free, the password is
      right, and the user's account is there and is not deactivated. */
  lemma IssueAnswersIff(rows: Table, users: map<UserId, bool>, user: UserId, passwordOk: bool, id: SessionId,
                        token: Token, signed: bool)
    ensures IssueError(rows, users, user, passwordOk, id, token, signed) == None <==>
            signed && passwordOk && user in users && users[user] && id !in rows &&
            forall other :: other in rows ==> rows[other].hash != Hash(token)
  {
  }

  // ----- Logs -----

  datatype Event =
    | Created(row: Row)
    | Rotated(id: SessionId, consumed: Hash, replacement: Hash, checkedAt: Instant, usedAt: Instant)
    | Revoked(id: SessionId, presented: Hash, actor: UserId, checkedAt: Instant, revokedAt: Instant)
  {
    function Session(): SessionId {
      if Created? then row.id else id
    }

    /** The hash that becomes current when the event commits. */
    function Writes(): Option<Hash> {
      match this
      case Created(row) => Some(row.hash)
      case Rotated(_, _, replacement, _, _) => Some(replacement)
      case Revoked(_, _, _, _, _) => None
    }

    /** The hash of the token a client handed in. */
    function Presents(): Option<Hash> {
      match this
      case Created(_) => None
      case Rotated(_, consumed, _, _, _) => Some(consumed)
      case Revoked(_, presented, _, _, _) => Some(presented)
    }
  }

  datatype Commit = Commit(task: TaskId, event: Event)

  ghost predicate Legal(rules: Rules, rows: Table, event: Event) {
    match event
    case Created(row) =>
      row.id !in rows && row.lastUsedAt.None? && row.revokedAt.None? && row.rotationCounter == 0 &&
      row.expiresAt == row.createdAt + rules.ttl
    case Rotated(id, consumed, _, checkedAt, usedAt) =>
      id in rows && rows[id].hash == consumed && checkedAt < rows[id].expiresAt &&
      rows[id].LastSeen() <= usedAt && (rules.locking ==> rows[id].revokedAt.None?)
    case Revoked(id, presented, actor, checkedAt, _) =>
      id in rows && rows[id].user == actor && checkedAt < rows[id].expiresAt &&
      (rules.locking ==> rows[id].hash == presented && rows[id].revokedAt.None?)
  }

  function Apply(rows: Table, event: Event): Table
    requires !event.Created? ==> event.id in rows
  {
    match event
    case Created(row) => rows[row.id := row]
    case Rotated(id, _, replacement, _, usedAt) =>
      rows[id := rows[id].(hash := replacement, lastUsedAt := Some(usedAt),
      rotationCounter := rows[id].rotationCounter + 1)]
    case Revoked(id, _, _, _, revokedAt) => rows[id := rows[id].(revokedAt := Some(revokedAt))]
  }

  ghost function WrittenHashes(log: seq<Commit>): set<Hash> {
    set i | 0 <= i < |log| && log[i].event.Writes().Some? :: log[i].event.Writes().value
  }

  /** With row locks, a legal event changes the table. */
  lemma LegalChanges(rules: Rules, rows: Table, event: Event)
    requires Legal(rules, rows, event) && rules.locking
    ensures Apply(rows, event) != rows
  {
    var id := event.Session();
    assert id in rows ==> Apply(rows, event)[id] != rows[id];
  }

  /** The table after committing the events one at a time, or nothing if one is not legal. */
  ghost function Replay(rules: Rules, log: seq<Commit>): Option<Table> {
    if log == [] then Some(map[])
    else
      var before := log[..|log| - 1];
      var event := log[|log| - 1].event;
      var rows := Replay(rules, before);
      if rows.Some? && Legal(rules, rows.value, event) &&
         (event.Writes().Some? ==> event.Writes().value !in WrittenHashes(before))
      then Some(Apply(rows.value, event))
      else None
  }

  lemma ReplayAppend(rules: Rules, log: seq<Commit>, rows: Table, commit: Commit)
    requires Replay(rules, log) == Some(rows) && Legal(rules, rows, commit.event)
    requires commit.event.Writes().Some? ==> commit.event.Writes().value !in WrittenHashes(log)
    ensures Replay(rules, log + [commit]) == Some(Apply(rows, commit.event))
  {
    assert (log + [commit])[..|log|] == log;
  }

  lemma {:induction false} ReplayPrefix(rules: Rules, log: seq<Commit>, n: nat)
    requires Replay(rules, log).Some? && n <= |log|
    ensures Replay(rules, log[..n]).Some?
  {
    if n < |log| {
      ReplayPrefix(rules, log[..|log| - 1], n);
      assert log[..|log| - 1][..n] == log[..n];
    } else {
      assert log[..n] == log;
    }
  }

  // ----- What a serial execution guarantees -----

  function Rotations(log: seq<Commit>, id: SessionId): nat {
    if log == [] then 0
    else
      var last := log[|log| - 1].event;
      Rotations(log[..|log| - 1], id) + if last.Rotated? && last.id == id then 1 else 0
  }

  /** The events of one session, in commit order. */
  function History(log: seq<Commit>, id: SessionId): seq<Event> {
    if log == [] then []
    else
      var last := log[|log| - 1].event;
      History(log[..|log| - 1], id) + if last.Session() == id then [last] else []
  }

  /** Created, then rotations each presenting the hash written just before it, then at most
      one revocation presenting the current hash, then nothing. */
  predicate WellShaped(history: seq<Event>) {
    history == [] ||
    var before, last := history[..|history| - 1], history[|history| - 1];
    if last.Created? then before == []
    else
      before != [] && WellShaped(before) &&
      before[|before| - 1].Writes().Some? && last.Presents() == before[|before| - 1].Writes()
  }

  function CurrentHash(history: seq<Event>): Option<Hash> {
    if history == [] then None
    else
      var last := history[|history| - 1];
      if last.Writes().Some? then last.Writes() else CurrentHash(history[..|history| - 1])
  }

  ghost predicate HashesDistinct(rows: Table) {
    forall a, b :: a in rows && b in rows && a != b ==> rows[a].hash != rows[b].hash
  }

  lemma HistoryAppend(log: seq<Commit>, id: SessionId)
    requires log != []
    ensures var last := log[|log| - 1].event;
            var before, after := History(log[..|log| - 1], id), History(log, id);
            if last.Session() == id then
              |after| == |before| + 1 && after[..|before|] == before && after[|before|] == last &&
              CurrentHash(after) == if last.Writes().Some? then last.Writes() else CurrentHash(before)
            else
              after == before
  {
    var before, after := History(log[..|log| - 1], id), History(log, id);
    var last := log[|log| - 1].event;
    if last.Session() == id {
      assert after == before + [last];
      assert after[..|after| - 1] == before;
    }
  }

  /** The stored row is determined by the session's own history, with or without row locks. */
  lemma {:induction false} RowReflectsHistory(rules: Rules, log: seq<Commit>, id: SessionId)
    requires Replay(rules, log).Some?
    ensures var rows, history := Replay(rules, log).value, History(log, id);
            if id in rows then
              history != [] && history[0].Created? && rows[id].id == id &&
              rows[id].rotationCounter == Rotations(log, id) &&
              CurrentHash(history) == Some(rows[id].hash) &&
              rows[id].hash in WrittenHashes(log) &&
              rows[id].createdAt == history[0].row.createdAt &&
              rows[id].user == history[0].row.user &&
              rows[id].expiresAt == history[0].row.createdAt + rules.ttl
            else
              history == [] && Rotations(log, id) == 0
  {
    if log != [] {
      var before := log[..|log| - 1];
      RowReflectsHistory(rules, before, id);
      assert WrittenHashes(before) <= WrittenHashes(log);
      var last := log[|log| - 1].event;
      assert last.Writes().Some? ==> last.Writes().value in WrittenHashes(log);
      HistoryAppend(log, id);
    }
  }

  lemma {:induction false} StoredHashesDistinct(rules: Rules, log: seq<Commit>)
    requires Replay(rules, log).Some?
    ensures HashesDistinct(Replay(rules, log).value)
  {
    if log != [] {
      var before := log[..|log| - 1];
      StoredHashesDistinct(rules, before);
      forall id | id in Replay(rules, before).value
        ensures Replay(rules, before).value[id].hash in WrittenHashes(before)
      {
        RowReflectsHistory(rules, before, id);
      }
    }
  }

  /** With row locks, every session's history has the protocol's shape, and a session is
      revoked in the table exactly when its history ends with a revocation. */
  lemma {:induction false} HistoryIsWellShaped(rules: Rules, log: seq<Commit>, id: SessionId)
    requires Replay(rules, log).Some? && rules.locking
    ensures WellShaped(History(log, id))
    ensures id in Replay(rules, log).value ==>
              var history := History(log, id);
              history != [] &&
              (Replay(rules, log).value[id].revokedAt.Some? <==> history[|history| - 1].Revoked?)
  {
    if log != [] {
      var before := log[..|log| - 1];
      HistoryIsWellShaped(rules, before, id);
      RowReflectsHistory(rules, before, id);
      RowReflectsHistory(rules, log, id);
      var last := log[|log| - 1].event;
      HistoryAppend(log, id);
      if last.Session() == id {
        var history := History(before, id);
        if history != [] && !last.Created? {
          assert history[|history| - 1].Writes().Some?;
          assert CurrentHash(history) == history[|history| - 1].Writes();
        }
      }
    }
  }

  /** Without any lock: a consumed hash is never again the hash of a row. */
  lemma {:induction false} ConsumedHashIsGone(rules: Rules, log: seq<Commit>, i: nat, id: SessionId)
    requires Replay(rules, log).Some? && i < |log| && log[i].event.Rotated?
    requires id in Replay(rules, log).value
    ensures Replay(rules, log).value[id].hash != log[i].event.consumed
    ensures log[i].event.consumed in WrittenHashes(log)
  {
    var before := log[..|log| - 1];
    var last := log[|log| - 1].event;
    assert WrittenHashes(before) <= WrittenHashes(log);
    if i < |log| - 1 {
      if id in Replay(rules, before).value {
        ConsumedHashIsGone(rules, before, i, id);
      } else {
        ReplayPrefix(rules, log, i + 1);
        ConsumedWasWritten(rules, before, i);
      }
    } else {
      RowReflectsHistory(rules, before, last.id);
      StoredHashesDistinct(rules, before);
    }
  }

  lemma ConsumedWasWritten(rules: Rules, log: seq<Commit>, i: nat)
    requires Replay(rules, log).Some? && i < |log| && log[i].event.Rotated?
    ensures log[i].event.consumed in WrittenHashes(log)
  {
    ReplayPrefix(rules, log, i + 1);
    ReplayPrefix(rules, log, i);
    assert log[..i + 1][..i] == log[..i];
    RowReflectsHistory(rules, log[..i], log[i].event.id);
    assert WrittenHashes(log[..i]) <= WrittenHashes(log);
  }

  /** Single use: no two committed rotations consume the same token, even without row locks. */
  lemma RotationsConsumeOnce(rules: Rules, log: seq<Commit>, i: nat, j: nat)
    requires Replay(rules, log).Some? && i < j < |log|
    requires log[i].event.Rotated? && log[j].event.Rotated?
    ensures log[i].event.consumed != log[j].event.consumed
  {
    ReplayPrefix(rules, log, j + 1);
    ReplayPrefix(rules, log, j);
    assert log[..j + 1][..j] == log[..j];
    ConsumedHashIsGone(rules, log[..j], i, log[j].event.id);
  }

  /** With row locks: once a hash has been handed in by a committed transaction, no
      session carrying it can ever be used again. */
  lemma {:induction false} PresentedHashIsDead(rules: Rules, log: seq<Commit>, i: nat, id: SessionId)
    requires Replay(rules, log).Some? && rules.locking && i < |log| && log[i].event.Presents().Some?
    requires id in Replay(rules, log).value
    ensures Some(Replay(rules, log).value[id].hash) == log[i].event.Presents() ==>
              Replay(rules, log).value[id].revokedAt.Some?
  {
    var before, last := log[..|log| - 1], log[|log| - 1].event;
    if i < |log| - 1 {
      PresentedWasWritten(rules, before, i);
      if id in Replay(rules, before).value {
        PresentedHashIsDead(rules, before, i, id);
      }
    } else {
      RowReflectsHistory(rules, before, last.id);
      StoredHashesDistinct(rules, before);
    }
  }

  lemma PresentedWasWritten(rules: Rules, log: seq<Commit>, i: nat)
    requires Replay(rules, log).Some? && rules.locking && i < |log| && log[i].event.Presents().Some?
    ensures log[i].event.Presents().value in WrittenHashes(log)
  {
    ReplayPrefix(rules, log, i + 1);
    ReplayPrefix(rules, log, i);
    assert log[..i + 1][..i] == log[..i];
    RowReflectsHistory(rules, log[..i], log[i].event.id);
    assert WrittenHashes(log[..i]) <= WrittenHashes(log);
  }

  /** With row locks, a token is accepted by at most one committed rotation or revocation. */
  lemma TokenAcceptedOnce(rules: Rules, log: seq<Commit>, i: nat, j: nat)
    requires Replay(rules, log).Some? && rules.locking && i < j < |log|
    requires log[i].event.Presents().Some?
    ensures log[i].event.Presents() != log[j].event.Presents()
  {
    ReplayPrefix(rules, log, j + 1);
    ReplayPrefix(rules, log, j);
    assert log[..j + 1][..j] == log[..j];
    if !log[j].event.Created? {
      PresentedHashIsDead(rules, log[..j], i, log[j].event.id);
    }
  }

  /** The lifetime is absolute: every accepted use was checked before creation time plus the
      lifetime, however many rotations came first; and recorded use times never go back. */
  lemma {:induction false} LifetimeIsAbsolute(rules: Rules, log: seq<Commit>, i: nat, j: nat)
    requires Replay(rules, log).Some? && i < j < |log| && !log[j].event.Created?
    requires log[i].event.Session() == log[j].event.Session()
    ensures History(log[..j], log[j].event.id) != []
    ensures History(log[..j], log[j].event.id)[0].Created?
    ensures log[j].event.checkedAt < History(log[..j], log[j].event.id)[0].row.createdAt + rules.ttl
    ensures log[i].event.Rotated? && log[j].event.Rotated? ==> log[i].event.usedAt <= log[j].event.usedAt
  {
    var id := log[j].event.id;
    ReplayPrefix(rules, log, j + 1);
    ReplayPrefix(rules, log, j);
    assert log[..j + 1][..j] == log[..j];
    RowReflectsHistory(rules, log[..j], id);
    if log[i].event.Rotated? {
      LastSeenIsRecent(rules, log[..j], i);
    }
  }

  lemma {:induction false} LastSeenIsRecent(rules: Rules, log: seq<Commit>, i: nat)
    requires Replay(rules, log).Some? && i < |log| && log[i].event.Rotated?
    ensures log[i].event.id in Replay(rules, log).value
    ensures log[i].event.usedAt <= Replay(rules, log).value[log[i].event.id].LastSeen()
  {
    if i < |log| - 1 {
      LastSeenIsRecent(rules, log[..|log| - 1], i);
    }
  }
}
