/**
 What the row lock of `SELECT ... FOR UPDATE` is needed for: exactly on the systems where sessions
 can be used at all and the database ignores the lock, a rotation can slip past a revocation.
 */
module ProtocolLocks {
  import opened Prelude
  import opened Sessions
  import opened Protocol
  import opened ProtocolTheorems

  /** No token can ever be used: sessions end as they begin, or nobody can log in. */
  ghost predicate NoneUsable(sys: System) {
    sys.rules.ttl == 0 || forall user: UserId :: !sys.IsActive(user)
  }

  ghost predicate AlwaysWellShaped(sys: System) {
    forall actions: seq<Action>, id: SessionId ::
      Run(sys, actions).Some? ==> WellShaped(History(Run(sys, actions).value.log, id))
  }

  ghost predicate AlwaysSerial(sys: System) {
    forall actions: seq<Action> :: Run(sys, actions).Some? ==> IsSerial(sys, Run(sys, actions).value)
  }

  /** No token is handed in by two commits. */
  ghost predicate AlwaysOnce(sys: System) {
    forall actions: seq<Action>, i: nat, j: nat ::
      Run(sys, actions).Some? && i < j < |Run(sys, actions).value.log| ==>
        HandedInOnce(Run(sys, actions).value.log, i, j)
  }

  predicate HandedInOnce(log: seq<Commit>, i: nat, j: nat)
    requires i < j < |log|
  {
    log[i].event.Presents().Some? ==> log[i].event.Presents() != log[j].event.Presents()
  }

  // ----- A rotation past a revocation -----

  function FirstRow(sys: System, user: UserId): Row {
    NewRow(100, 10, user, "", None, 0, sys.rules.ttl)
  }

  function Login(user: UserId): Request {
    Issue(user, true, "", None)
  }

  lemma Then(sys: System, actions: seq<Action>, s: State, a: Action) returns (actions': seq<Action>, s': State)
    requires Run(sys, actions) == Some(s) && Step(sys, s, a).Some?
    ensures actions' == actions + [a] && Some(s') == Step(sys, s, a) == Run(sys, actions')
  {
    actions', s' := actions + [a], Step(sys, s, a).value;
    assert actions'[..|actions|] == actions;
  }

  /** Only task 0 has run, and nothing is committed. */
  ghost predicate Issuing(sys: System, actions: seq<Action>, s: State, task: Task) {
    Run(sys, actions) == Some(s) && s.tasks == map[0 := task] && s.committed == map[] && s.locks == map[] &&
    s.now == 0 && s.log == []
  }

  lemma LoginLoaded(sys: System, user: UserId) returns (actions: seq<Action>, s: State)
    requires sys.IsActive(user)
    ensures Issuing(sys, actions, s, Task(Login(user), UserLoaded, None, 0, None, 0, None))
    ensures s.tokens == {} && s.ids == {}
  {
    actions, s := Then(sys, [], START, Enter(0, Login(user)));
    actions, s := Then(sys, actions, s, LoadUser(0));
  }

  lemma LoginWritten(sys: System, user: UserId) returns (actions: seq<Action>, s: State)
    requires sys.IsActive(user)
    ensures Issuing(sys, actions, s, Task(Login(user), Written, None, 0, Some(10), 0, Some(FirstRow(sys, user))))
    ensures s.tokens == {10}
  {
    actions, s := LoginLoaded(sys, user);
    actions, s := Then(sys, actions, s, Create(0, 10, 100));
  }

  lemma LoginReady(sys: System, user: UserId) returns (actions: seq<Action>, s: State)
    requires sys.IsActive(user)
    ensures Issuing(sys, actions, s, Task(Login(user), Ready, None, 0, Some(10), 0, Some(FirstRow(sys, user))))
    ensures s.tokens == {10}
  {
    actions, s := LoginWritten(sys, user);
    actions, s := Then(sys, actions, s, Answer(0, true));
  }

  lemma SessionIssued(sys: System, user: UserId) returns (actions: seq<Action>, s: State)
    requires sys.IsActive(user)
    ensures Run(sys, actions) == Some(s)
    ensures s.committed == map[100 := FirstRow(sys, user)] && s.locks == map[] && s.now == 0 && s.tokens == {10}
    ensures s.tasks.Keys == {0} && s.log == [Commit(0, Created(FirstRow(sys, user)))]
  {
    actions, s := LoginReady(sys, user);
    actions, s := Then(sys, actions, s, Finish(0, true, true));
  }

  ghost predicate HasRead(s: State, t: TaskId, request: Request, row: Row) {
    t in s.tasks && s.tasks[t].request == request && s.tasks[t].stage.Checked? &&
    s.tasks[t].seen == Some(row) && s.tasks[t].checkedAt == 0 && s.tasks[t].issued.None?
  }

  /** The database ignores row locks, and this user can log in and use a session. */
  predicate CanRace(sys: System, user: UserId) {
    !sys.rules.locking && sys.rules.ttl > 0 && sys.IsActive(user)
  }

  lemma RefreshHasRead(sys: System, user: UserId, before: seq<Action>, s: State)
    returns (actions: seq<Action>, s': State)
    requires CanRace(sys, user) && Run(sys, before) == Some(s)
    requires s.committed == map[100 := FirstRow(sys, user)] && s.tasks.Keys == {0} && s.now == 0
    ensures Run(sys, actions) == Some(s') && s' == s.(tasks := s'.tasks)
    ensures s'.tasks.Keys == {0, 1} && HasRead(s', 1, Refresh(10), FirstRow(sys, user))
  {
    actions, s' := Then(sys, before, s, Enter(1, Refresh(10)));
    actions, s' := Then(sys, actions, s', Load(1, Some(100)));
    actions, s' := Then(sys, actions, s', CheckActive(1));
  }

  lemma RevocationHasRead(sys: System, user: UserId, before: seq<Action>, s: State)
    returns (actions: seq<Action>, s': State)
    requires CanRace(sys, user) && Run(sys, before) == Some(s)
    requires s.committed == map[100 := FirstRow(sys, user)] && s.tasks.Keys == {0, 1} && s.now == 0
    ensures Run(sys, actions) == Some(s') && 2 in s'.tasks && s' == s.(tasks := s.tasks[2 := s'.tasks[2]])
    ensures s'.tasks.Keys == {0, 1, 2} && HasRead(s', 2, Revoke(10, user), FirstRow(sys, user))
  {
    actions, s' := Then(sys, before, s, Enter(2, Revoke(10, user)));
    actions, s' := Then(sys, actions, s', LoadUser(2));
    actions, s' := Then(sys, actions, s', Load(2, Some(100)));
    actions, s' := Then(sys, actions, s', CheckActive(2));
  }

  lemma RevocationCommitted(sys: System, user: UserId, before: seq<Action>, s: State)
    returns (actions: seq<Action>, s': State)
    requires CanRace(sys, user) && Run(sys, before) == Some(s)
    requires HasRead(s, 2, Revoke(10, user), FirstRow(sys, user)) && s.now == 0
    requires s.committed == map[100 := FirstRow(sys, user)] && s.locks == map[]
    ensures Run(sys, actions) == Some(s') && 2 in s'.tasks && s'.tasks == s.tasks[2 := s'.tasks[2]]
    ensures s'.committed == map[100 := FirstRow(sys, user).(revokedAt := Some(0))]
    ensures s'.locks == map[] && s'.tokens == s.tokens && s'.now == 0
    ensures s'.log == s.log + [Commit(2, Revoked(100, Hash(10), user, 0, 0))]
  {
    actions, s' := Then(sys, before, s, Stamp(2, 0));
    actions, s' := Then(sys, actions, s', Write(2));
    actions, s' := Then(sys, actions, s', Finish(2, true, true));
  }

  lemma RotationCommitted(sys: System, user: UserId, before: seq<Action>, s: State)
    returns (actions: seq<Action>, s': State)
    requires CanRace(sys, user) && Run(sys, before) == Some(s)
    requires HasRead(s, 1, Refresh(10), FirstRow(sys, user)) && s.now == 0
    requires s.committed == map[100 := FirstRow(sys, user).(revokedAt := Some(0))]
    requires s.locks == map[] && 11 !in s.tokens
    ensures Run(sys, actions) == Some(s') && 1 in s'.tasks && s'.tasks[1].request == Refresh(10)
    ensures s'.log == s.log + [Commit(1, Rotated(100, Hash(10), Hash(11), 0, 0))]
  {
    actions, s' := Then(sys, before, s, Stamp(1, 11));
    actions, s' := Then(sys, actions, s', Write(1));
    actions, s' := Then(sys, actions, s', Answer(1, true));
    actions, s' := Then(sys, actions, s', Finish(1, true, true));
  }

  function Slipped(row: Row): seq<Commit> {
    [Commit(0, Created(row)), Commit(2, Revoked(row.id, row.hash, row.user, 0, 0)),
     Commit(1, Rotated(row.id, row.hash, Hash(11), 0, 0))]
  }

  lemma SlippedHistory(row: Row)
    ensures History(Slipped(row), row.id) == [Slipped(row)[0].event, Slipped(row)[1].event, Slipped(row)[2].event]
    ensures !WellShaped(History(Slipped(row), row.id))
  {
    var log := Slipped(row);
    assert log[..2][..1] == log[..1] && log[..1][..0] == [];
    HistoryAppend(log, row.id);
    HistoryAppend(log[..2], row.id);
    HistoryAppend(log[..1], row.id);
    assert History(log[..2], row.id) == [log[0].event, log[1].event];
  }

  /** The race, up to the commit of the revocation and of the rotation. */
  lemma Race(sys: System, user: UserId) returns (before: seq<Action>, actions: seq<Action>, s: State, s': State)
    requires CanRace(sys, user)
    ensures Run(sys, before) == Some(s) && s.committed == map[100 := FirstRow(sys, user).(revokedAt := Some(0))]
    ensures Run(sys, actions) == Some(s') && 1 in s'.tasks && s'.tasks[1].request == Refresh(10)
    ensures s'.log == Slipped(FirstRow(sys, user)) && s.log == s'.log[..2]
  {
    var s0, s1, s2;
    actions, s0 := SessionIssued(sys, user);
    actions, s1 := RefreshHasRead(sys, user, actions, s0);
    actions, s2 := RevocationHasRead(sys, user, actions, s1);
    before, s := RevocationCommitted(sys, user, actions, s2);
    actions, s' := RotationCommitted(sys, user, before, s);
  }

  /** On every database that ignores locking reads, as soon as someone can use a session, a
      rotation can commit after a revocation that was handed the same token: the history loses its
      shape, and no refresh that ran after the revocation would have done this. */
  lemma RotationSlipsPastRevocation(sys: System, user: UserId) returns (actions: seq<Action>)
    requires CanRace(sys, user)
    ensures Run(sys, actions).Some?
    ensures var log := Run(sys, actions).value.log;
            |log| == 3 && History(log, 100) == [log[0].event, log[1].event, log[2].event] &&
            log[1].event.Revoked? && log[2].event.Rotated? && log[1].event.presented == log[2].event.consumed
    ensures !WellShaped(History(Run(sys, actions).value.log, 100)) && !IsSerial(sys, Run(sys, actions).value)
  {
    var before, s, s';
    before, actions, s, s' := Race(sys, user);
    SlippedHistory(FirstRow(sys, user));
    CommittedIsLogged(sys, before);
    assert !ServedAt(sys, s', 2);
  }

  // ----- Where nothing can be used -----

  /** No refresh or revocation gets past its activity check. */
  predicate IdleTask(now: Instant, task: Task) {
    if task.request.Issue? then task.pending.Some? ==> task.pending.value.expiresAt <= now
    else
      !task.stage.Checked? && !task.stage.Stamped? && !task.stage.Written? && !task.stage.Ready? &&
      task.pending.None? && (task.seen.Some? ==> task.seen.value.expiresAt <= now)
  }

  ghost predicate Idle(s: State) {
    && (forall id :: id in s.committed ==> s.committed[id].expiresAt <= s.now)
    && (forall t :: t in s.tasks ==> IdleTask(s.now, s.tasks[t]))
    && (forall i :: 0 <= i < |s.log| ==> s.log[i].event.Created?)
  }

  lemma MoveStaysIdle(sys: System, s: State, a: Action, move: Move)
    requires NoneUsable(sys) && Inv(sys, s) && Idle(s) && IsMove(a) && a.t in s.tasks
    requires TaskMove(sys, s, a, s.tasks[a.t]) == Some(move)
    ensures IdleTask(s.now, move.task)
  {
    assert TaskOk(sys, s, a.t, s.tasks[a.t]) && IdleTask(s.now, s.tasks[a.t]);
  }

  lemma CommitStaysIdle(sys: System, s: State, t: TaskId, closes: bool, s': State)
    requires Inv(sys, s) && Idle(s) && Step(sys, s, Finish(t, true, closes)) == Some(s')
    ensures Idle(s')
  {
    assert TaskOk(sys, s, t, s.tasks[t]) && IdleTask(s.now, s.tasks[t]);
  }

  lemma StepStaysIdle(sys: System, s: State, a: Action, s': State)
    requires NoneUsable(sys) && Inv(sys, s) && Idle(s) && Step(sys, s, a) == Some(s')
    ensures Idle(s')
  {
    if IsMove(a) {
      MoveStaysIdle(sys, s, a, TaskMove(sys, s, a, s.tasks[a.t]).value);
      assert s' == s.Make(a.t, TaskMove(sys, s, a, s.tasks[a.t]).value);
    } else if a.Finish? && a.succeeds {
      CommitStaysIdle(sys, s, a.t, a.closes, s');
    }
  }

  lemma {:induction false} RunStaysIdle(sys: System, actions: seq<Action>)
    requires NoneUsable(sys) && Run(sys, actions).Some?
    ensures Idle(Run(sys, actions).value)
  {
    if actions != [] {
      var before := actions[..|actions| - 1];
      RunStaysIdle(sys, before);
      RunKeepsInv(sys, before);
      StepStaysIdle(sys, Run(sys, before).value, actions[|actions| - 1], Run(sys, actions).value);
    }
  }

  /** For creations the row lock makes no difference. */
  lemma {:induction false} CreationsNeedNoLock(ttl: nat, log: seq<Commit>)
    requires forall i :: 0 <= i < |log| ==> log[i].event.Created?
    ensures Replay(Rules(ttl, true), log) == Replay(Rules(ttl, false), log)
  {
    if log != [] { CreationsNeedNoLock(ttl, log[..|log| - 1]); }
  }

  lemma IdleIsWellShapedAndSerial(sys: System, actions: seq<Action>, id: SessionId)
    requires NoneUsable(sys) && Run(sys, actions).Some?
    ensures WellShaped(History(Run(sys, actions).value.log, id)) && IsSerial(sys, Run(sys, actions).value)
  {
    var s := Run(sys, actions).value;
    RunStaysIdle(sys, actions);
    CommittedIsLogged(sys, actions);
    CreationsNeedNoLock(sys.rules.ttl, s.log);
    assert sys.rules == Rules(sys.rules.ttl, sys.rules.locking);
    HistoryIsWellShaped(Rules(sys.rules.ttl, true), s.log, id);
    forall i | 0 <= i < |s.log| ensures ServedAt(sys, s, i) {
      CommitsServe(sys, actions, i);
    }
  }

  // ----- Exactly when -----

  /** Every history of every schedule has the protocol's shape if and only if the database honours
      row locks or no token can ever be used. */
  lemma WellShapedIff(sys: System)
    ensures AlwaysWellShaped(sys) <==> sys.rules.locking || NoneUsable(sys)
  {
    if !sys.rules.locking && !NoneUsable(sys) {
      var user :| sys.IsActive(user);
      var actions := RotationSlipsPastRevocation(sys, user);
    } else {
      forall actions: seq<Action>, id: SessionId | Run(sys, actions).Some?
        ensures WellShaped(History(Run(sys, actions).value.log, id))
      {
        if sys.rules.locking {
          EveryHistoryIsWellShaped(sys, actions, id);
        } else {
          IdleIsWellShapedAndSerial(sys, actions, id);
        }
      }
    }
  }

  /** Every schedule is serial under the same condition. */
  lemma SerialIff(sys: System)
    ensures AlwaysSerial(sys) <==> sys.rules.locking || NoneUsable(sys)
  {
    if !sys.rules.locking && !NoneUsable(sys) {
      var user :| sys.IsActive(user);
      var actions := RotationSlipsPastRevocation(sys, user);
    } else {
      forall actions: seq<Action> | Run(sys, actions).Some? ensures IsSerial(sys, Run(sys, actions).value) {
        if sys.rules.locking {
          EveryScheduleIsSerial(sys, actions);
        } else {
          IdleIsWellShapedAndSerial(sys, actions, 0);
        }
      }
    }
  }

  /** And under the same condition no token is ever handed in by two committed transactions. */
  lemma AcceptedOnceIff(sys: System)
    ensures AlwaysOnce(sys) <==> sys.rules.locking || NoneUsable(sys)
  {
    if !sys.rules.locking && !NoneUsable(sys) {
      var user :| sys.IsActive(user);
      var actions := RotationSlipsPastRevocation(sys, user);
      assert !HandedInOnce(Run(sys, actions).value.log, 1, 2);
    } else {
      forall actions: seq<Action>, i: nat, j: nat | Run(sys, actions).Some? && i < j < |Run(sys, actions).value.log|
        ensures HandedInOnce(Run(sys, actions).value.log, i, j)
      {
        CommittedIsLogged(sys, actions);
        if !sys.rules.locking {
          RunStaysIdle(sys, actions);
        } else if Run(sys, actions).value.log[i].event.Presents().Some? {
          TokenAcceptedOnce(sys.rules, Run(sys, actions).value.log, i, j);
        }
      }
    }
  }
}
