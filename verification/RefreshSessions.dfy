/**
 The refresh-session service and the three use cases, each run by one task in one unit of
 work.  What the program reads from its surroundings is a parameter: the new token and
 identifier, the clock at each reading, whether signing works, and whether the transaction
 can be begun and finished and its session closed.
 */
module RefreshSessions {
  import opened Prelude
  import opened Sessions
  import opened RefreshSessionRepositories
  import UnitOfWork

  // ----- Service -----

  class RefreshSessionService {
    const ttl: nat

    constructor (ttl: nat)
      ensures this.ttl == ttl
    {
      this.ttl := ttl;
    }

    /** Inserts one legal new session, unless the identifier or the token's hash is in use. */
    method CreateRefreshSession(repository: RefreshSessionRepository, user: UserId, userAgent: string,
                                ipAddressTrace: Option<string>, token: Token, id: SessionId, createdAt: Instant)
      returns (r: Result<Row, Error>)
      modifies repository
      ensures var rows := old(repository.Rows());
              var row := NewRow(id, token, user, userAgent, ipAddressTrace, createdAt, ttl);
              if IsFree(rows, id, Hash(token)) then
                r == Success(row) && Legal(Rules(ttl, true), rows, Created(row)) &&
                repository.Rows() == Apply(rows, Created(row))
              else r == Failure(IntegrityError) && repository.Rows() == rows
    {
      var row := NewRow(id, token, user, userAgent, ipAddressTrace, createdAt, ttl);
      var error := repository.Create(row);
      r := if error.Some? then Failure(error.value) else Success(row);
    }

    method GetActiveRefreshSession(repository: RefreshSessionRepository, hash: Hash, now: Instant)
      returns (r: Result<Row, Error>)
      requires HashesDistinct(repository.Rows())
      ensures match UseError(repository.Rows(), hash.token, now)
              case Some(error) => r == Failure(error)
              case None => r == Success(repository.Rows()[Lookup(repository.Rows(), hash).value])
    {
      var row := repository.GetByTokenHash(hash);
      if row.None? {
        return Failure(InvalidToken);
      }
      if !row.value.IsActiveAt(now) {
        return Failure(ExpiredToken);
      }
      return Success(row.value);
    }

    /** On success the table changes by one legal rotation, on failure not at all. */
    method RotateRefreshToken(repository: RefreshSessionRepository, token: Token, newToken: Token,
                              checkedAt: Instant, usedAt: Instant) returns (r: Result<Row, Error>)
      requires Consistent(repository.Rows(), checkedAt) && checkedAt <= usedAt
      modifies repository
      ensures match RotateError(old(repository.Rows()), token, newToken, checkedAt)
              case Some(error) => r == Failure(error) && repository.Rows() == old(repository.Rows())
              case None =>
                var id := Lookup(old(repository.Rows()), Hash(token)).value;
                var event := Rotated(id, Hash(token), Hash(newToken), checkedAt, usedAt);
                Legal(Rules(ttl, true), old(repository.Rows()), event) &&
                repository.Rows() == Apply(old(repository.Rows()), event) &&
                r == Success(repository.Rows()[id])
    {
      var session := GetActiveRefreshSession(repository, Hash(token), checkedAt);
      if session.Failure? {
        return Failure(session.error);
      }
      var rotated := repository.ReplaceTokenHash(session.value.id, Hash(token), Hash(newToken), usedAt,
                                                 session.value.rotationCounter + 1);
      if rotated.Failure? {
        return Failure(rotated.error);
      }
      if rotated.value.None? {
        return Failure(InvalidToken);
      }
      return Success(rotated.value.value);
    }

    /** On success the table changes by one legal revocation, on failure not at all. */
    method RevokeRefreshToken(repository: RefreshSessionRepository, token: Token, user: UserId,
                              checkedAt: Instant, revokedAt: Instant) returns (error: Option<Error>)
      requires Consistent(repository.Rows(), checkedAt)
      modifies repository
      ensures var found := Lookup(old(repository.Rows()), Hash(token));
              error ==
              if UseError(old(repository.Rows()), token, checkedAt).Some? then
                UseError(old(repository.Rows()), token, checkedAt)
              else if old(repository.Rows())[found.value].user != user then Some(InvalidToken)
              else None
      ensures error.Some? ==> repository.Rows() == old(repository.Rows())
      ensures error.None? ==>
                var id := Lookup(old(repository.Rows()), Hash(token)).value;
                var event := Revoked(id, Hash(token), user, checkedAt, revokedAt);
                Legal(Rules(ttl, true), old(repository.Rows()), event) &&
                repository.Rows() == Apply(old(repository.Rows()), event)
    {
      var session := GetActiveRefreshSession(repository, Hash(token), checkedAt);
      if session.Failure? {
        return Some(session.error);
      }
      if session.value.user != user {
        return Some(InvalidToken);
      }
      repository.Revoke(session.value.id, revokedAt);
      return None;
    }
  }

  // ----- Use cases -----

  /** What the caller gets: an error on leaving the unit of work replaces the body's own. */
  function Outcome<T>(body: Option<Error>, value: T, finishes: bool, closes: bool): Result<T, Error> {
    if !closes then Failure(CloseFailed)
    else if !finishes then Failure(FinishFailed)
    else if body.Some? then Failure(body.value)
    else Success(value)
  }

  /** An error raised on leaving the scope replaces the body's. */
  function Leave<T>(left: Option<Error>, body: Option<Error>, value: T): Result<T, Error> {
    if left.Some? then Failure(left.value) else if body.Some? then Failure(body.value) else Success(value)
  }

  /** The rows change by exactly the event if the body raised nothing and the commit succeeded. */
  ghost predicate Does(ttl: nat, before: Table, after: Table, body: Option<Error>, event: Event, finishes: bool) {
    if body.None? && finishes then Legal(Rules(ttl, true), before, event) && after == Apply(before, event)
    else after == before
  }

  /** Raising leaves no trace. */
  ghost predicate RaisesCleanly<T>(r: Result<T, Error>, before: Table, after: Table) {
    r.Failure? ==> after == before
  }

  /** A use case raises cleanly if and only if it is not the case that its commit succeeded and
      closing the session failed. */
  lemma CleanUnlessCloseFails<T>(ttl: nat, before: Table, after: Table, body: Option<Error>, event: Event, value: T,
                                 finishes: bool, closes: bool)
    requires Does(ttl, before, after, body, event, finishes)
    ensures RaisesCleanly(Outcome(body, value, finishes, closes), before, after) <==>
            !(body.None? && finishes && !closes)
  {
    if body.None? && finishes { LegalChanges(Rules(ttl, true), before, event); }
  }

  class UseCases {
    const uow: UnitOfWork.SQLAlchemyUnitOfWork
    const service: RefreshSessionService
    const users: map<UserId, bool>

    constructor (uow: UnitOfWork.SQLAlchemyUnitOfWork, service: RefreshSessionService, users: map<UserId, bool>)
      ensures this.uow == uow && this.service == service && this.users == users
    {
      this.uow, this.service, this.users := uow, service, users;
    }

    /** Rotates the token and answers, or raises.  A refresh that raises leaves the rows as they
        were if and only if it is not the case that its commit succeeded and closing failed. */
    method RefreshToken(task: TaskId, token: Token, newToken: Token, checkedAt: Instant, usedAt: Instant,
                        signed: bool, begins: bool, finishes: bool, closes: bool) returns (r: Result<Token, Error>)
      requires Consistent(uow.store.rows, checkedAt) && checkedAt <= usedAt
      modifies uow, uow.store
      ensures task in old(uow.scopes) || !begins ==>
                r == Failure(if task in old(uow.scopes) then NestedScope else BeginFailed) &&
                uow.store.rows == old(uow.store.rows)
      ensures task !in old(uow.scopes) && begins ==>
                var before, after := old(uow.store.rows), uow.store.rows;
                var body := RefreshError(before, users, token, newToken, checkedAt, signed);
                r == Outcome(body, newToken, finishes, closes) &&
                (body.None? ==>
                   var event := Rotated(Lookup(before, Hash(token)).value, Hash(token), Hash(newToken), checkedAt,
                                        usedAt);
                   Does(service.ttl, before, after, body, event, finishes)) &&
                (body.Some? ==> after == before) &&
                (RaisesCleanly(r, before, after) <==> !(body.None? && finishes && !closes))
      ensures r.Success? ==>
                var before := old(uow.store.rows);
                exists id :: UsableAt(before, id, token, checkedAt) &&
                             before[id].user in users && users[before[id].user] && r.value == newToken &&
                             uow.store.rows ==
                               before[id := before[id].(hash := Hash(newToken), lastUsedAt := Some(usedAt),
                                                        rotationCounter := before[id].rotationCounter + 1)]
      ensures (forall id :: UsableAt(old(uow.store.rows), id, token, checkedAt) ==>
                              var user := old(uow.store.rows)[id].user; !(user in users && users[user])) ==>
                r.Failure? && uow.store.rows == old(uow.store.rows)
    {
      var entered := uow.Enter(task, begins);
      if entered.Some? {
        return Failure(entered.value);
      }
      var repository := uow.scopes[task].repository;
      ghost var before := uow.store.rows;
      assert repository.Rows() == before;
      var rotated := service.RotateRefreshToken(repository, token, newToken, checkedAt, usedAt);
      var error :=
        if rotated.Failure? then Some(rotated.error)
        else if !IsActiveUser(users, rotated.value.user) then Some(InvalidToken)
        else if !signed then Some(SigningFailed)
        else None;
      ghost var written := repository.Rows();
      var left := uow.Exit(task, error.Some?, finishes, closes);
      assert error.None? && finishes ==> uow.store.rows == written;
      if error.None? {
        CleanUnlessCloseFails(service.ttl, before, uow.store.rows, error,
                              Rotated(Lookup(before, Hash(token)).value, Hash(token), Hash(newToken), checkedAt,
                                      usedAt),
                              newToken, finishes, closes);
      }
      RefreshAnswersIff(before, users, token, newToken, checkedAt, signed);
      UseErrorMeans(before, token, checkedAt);
      r := Leave(left, error, newToken);
    }

    /** Authenticates and creates the session, or raises; raising leaves no trace with the same exception. */
    method IssueToken(task: TaskId, user: UserId, passwordOk: bool, userAgent: string, ipAddressTrace: Option<string>,
                      token: Token, id: SessionId, createdAt: Instant,
                      signed: bool, begins: bool, finishes: bool, closes: bool) returns (r: Result<Token, Error>)
      modifies uow, uow.store
      ensures task in old(uow.scopes) || !begins ==>
                r == Failure(if task in old(uow.scopes) then NestedScope else BeginFailed) &&
                uow.store.rows == old(uow.store.rows)
      ensures task !in old(uow.scopes) && begins ==>
                var before, after := old(uow.store.rows), uow.store.rows;
                var body := IssueError(before, users, user, passwordOk, id, token, signed);
                var event := Created(NewRow(id, token, user, userAgent, ipAddressTrace, createdAt, service.ttl));
                r == Outcome(body, token, finishes, closes) &&
                Does(service.ttl, before, after, body, event, finishes) &&
                (RaisesCleanly(r, before, after) <==> !(body.None? && finishes && !closes))
      ensures r.Success? ==>
                var before := old(uow.store.rows);
                user in users && users[user] && passwordOk && id !in before && r.value == token &&
                uow.store.rows ==
                  before[id := Row(id, Hash(token), user, userAgent,
                                   if ipAddressTrace.Some? then ipAddressTrace.value else "",
                                   createdAt, None, createdAt + service.ttl, None, 0)]
      ensures !(user in users && users[user]) ==> r.Failure? && uow.store.rows == old(uow.store.rows)
    {
      var entered := uow.Enter(task, begins);
      if entered.Some? {
        return Failure(entered.value);
      }
      var repository := uow.scopes[task].repository;
      ghost var before := uow.store.rows;
      assert repository.Rows() == before;
      var error := None;
      if !IsActiveUser(users, user) || !passwordOk {
        error := Some(InvalidCredentials);
      } else {
        var created := service.CreateRefreshSession(repository, user, userAgent, ipAddressTrace, token, id, createdAt);
        error := if created.Failure? then Some(created.error) else if !signed then Some(SigningFailed) else None;
      }
      ghost var written := repository.Rows();
      var left := uow.Exit(task, error.Some?, finishes, closes);
      assert error.None? && finishes ==> uow.store.rows == written;
      CleanUnlessCloseFails(service.ttl, before, uow.store.rows, error,
                            Created(NewRow(id, token, user, userAgent, ipAddressTrace, createdAt, service.ttl)),
                            token, finishes, closes);
      r := Leave(left, error, token);
    }

    /** Loads the active actor and revokes the token, or raises; raising leaves no trace with the
        same exception. */
    method RevokeToken(task: TaskId, token: Token, actor: UserId, checkedAt: Instant, revokedAt: Instant,
                       begins: bool, finishes: bool, closes: bool) returns (r: Result<(), Error>)
      requires Consistent(uow.store.rows, checkedAt)
      modifies uow, uow.store
      ensures task in old(uow.scopes) || !begins ==>
                r == Failure(if task in old(uow.scopes) then NestedScope else BeginFailed) &&
                uow.store.rows == old(uow.store.rows)
      ensures task !in old(uow.scopes) && begins ==>
                var before, after := old(uow.store.rows), uow.store.rows;
                var body := RevokeError(before, users, token, actor, checkedAt);
                r == Outcome(body, (), finishes, closes) &&
                (body.None? ==>
                   var event := Revoked(Lookup(before, Hash(token)).value, Hash(token), actor, checkedAt, revokedAt);
                   Does(service.ttl, before, after, body, event, finishes)) &&
                (body.Some? ==> after == before) &&
                (RaisesCleanly(r, before, after) <==> !(body.None? && finishes && !closes))
      ensures r.Success? ==>
                var before := old(uow.store.rows);
                actor in users && users[actor] &&
                exists id :: UsableAt(before, id, token, checkedAt) && before[id].user == actor &&
                             uow.store.rows == before[id := before[id].(revokedAt := Some(revokedAt))]
      ensures !(actor in users && users[actor]) ==> r.Failure? && uow.store.rows == old(uow.store.rows)
    {
      var entered := uow.Enter(task, begins);
      if entered.Some? {
        return Failure(entered.value);
      }
      var repository := uow.scopes[task].repository;
      ghost var before := uow.store.rows;
      assert repository.Rows() == before;
      var error := None;
      if !IsActiveUser(users, actor) {
        error := Some(UserNotFound);
      } else {
        error := service.RevokeRefreshToken(repository, token, actor, checkedAt, revokedAt);
      }
      ghost var written := repository.Rows();
      var left := uow.Exit(task, error.Some?, finishes, closes);
      assert error.None? && finishes ==> uow.store.rows == written;
      if error.None? {
        CleanUnlessCloseFails(service.ttl, before, uow.store.rows, error,
                              Revoked(Lookup(before, Hash(token)).value, Hash(token), actor, checkedAt, revokedAt),
                              (), finishes, closes);
      }
      RevokeAnswersIff(before, users, token, actor, checkedAt);
      UseErrorMeans(before, token, checkedAt);
      r := Leave(left, error, ());
    }
  }
}
