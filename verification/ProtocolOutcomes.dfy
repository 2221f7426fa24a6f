/**
 How tasks end: under row locks a task that raises for an invalid token, an expired session or a missing
 user raises what its use case alone would raise on the table as it was committed when the task failed; no
 task takes more than nine actions of its own; and from every reachable state all tasks can be brought to
 their ends.
 */
module ProtocolOutcomes {
  import opened Prelude
  import opened Sessions
  import opened Protocol
  import opened ProtocolTheorems

  // ----- Raising alone -----

  /** What is raised because of the request and the table, not because something broke. */
  predicate IsVerdict(error: Error) {
    error.InvalidCredentials? || error.UserNotFound? || error.InvalidToken? || error.ExpiredToken?
  }

  /** A use case with this request, running alone on these rows at this time, raises this whatever
      fresh token it makes and whether or not it could sign. */
  ghost predicate RaisesAlone(sys: System, rows: Table, request: Request, at: Instant, error: Error) {
    match request
    case Issue(user, passwordOk, _, _) =>
      forall id: SessionId, token: Token, signed: bool ::
        IssueError(rows, sys.users, user, passwordOk, id, token, signed) == Some(error)
    case Refresh(token) =>
      forall newToken: Token, signed: bool ::
        (forall id :: id in rows ==> rows[id].hash != Hash(newToken)) ==>
          RefreshError(rows, sys.users, token, newToken, at, signed) == Some(error)
    case Revoke(token, actor) => RevokeError(rows, sys.users, token, actor, at) == Some(error)
  }

  ghost predicate UsedAlone(rows: Table, token: Token, at: Instant, error: Error) {
    UseError(rows, token, at) == Some(error)
  }

  lemma UseFailsAlone(sys: System, rows: Table, request: Request, at: Instant, error: Error)
    requires !request.Issue? && HasActor(sys, request) && UsedAlone(rows, request.token, at, error)
    ensures RaisesAlone(sys, rows, request, at, error)
  {
  }

  /** The session the task has read and locked is the one a lookup finds. */
  lemma SeenIsFound(sys: System, s: State, t: TaskId, task: Task)
    requires sys.rules.locking && StoreOk(sys, s) && SeenOk(sys, s, t, task)
    ensures Lookup(s.committed, Hash(task.request.token)) == Some(task.seen.value.id)
    ensures s.committed[task.seen.value.id] == task.seen.value
  {
    StoredHashesDistinct(sys.rules, s.log);
    FoundById(s.committed, task.seen.value.id);
  }

  lemma LoadUserFailsAlone(sys: System, s: State, task: Task, error: Error)
    requires LoadUserMove(sys, task) == Some(Move(task.Fail(error), None, None, None))
    ensures RaisesAlone(sys, s.committed, task.request, s.now, error)
  {
  }

  lemma LoadFailsAlone(sys: System, s: State, t: TaskId, task: Task, found: Option<SessionId>, error: Error)
    requires TaskOk(sys, s, t, task)
    requires LoadMove(sys, s, t, task, found) == Some(Move(task.Fail(error), None, None, None))
    ensures RaisesAlone(sys, s.committed, task.request, s.now, error)
  {
    UseFailsAlone(sys, s.committed, task.request, s.now, error);
  }

  lemma CheckFailsAlone(sys: System, s: State, t: TaskId, task: Task, error: Error)
    requires sys.rules.locking && StoreOk(sys, s) && TaskOk(sys, s, t, task)
    requires CheckActiveMove(s, task) == Some(Move(task.Fail(error), None, None, None))
    ensures RaisesAlone(sys, s.committed, task.request, s.now, error)
  {
    SeenIsFound(sys, s, t, task);
    UseFailsAlone(sys, s.committed, task.request, s.now, error);
  }

  lemma StampFailsAlone(sys: System, s: State, t: TaskId, task: Task, token: Token, error: Error)
    requires sys.rules.locking && StoreOk(sys, s) && TaskOk(sys, s, t, task)
    requires StampMove(sys, s, t, task, token) == Some(Move(task.Fail(error), None, None, None))
    ensures RaisesAlone(sys, s.committed, task.request, task.checkedAt, error)
  {
    SeenIsFound(sys, s, t, task);
  }

  lemma WriteDoesNotFail(sys: System, s: State, t: TaskId, task: Task, error: Error)
    requires sys.rules.locking && StoreOk(sys, s) && TaskOk(sys, s, t, task)
    ensures WriteMove(s, t, task) != Some(Move(task.Fail(error), None, None, None))
  {
    if task.stage.Stamped? { SeenIsFound(sys, s, t, task); }
  }

  lemma AnswerFailsAlone(sys: System, s: State, t: TaskId, task: Task, signed: bool, error: Error)
    requires sys.rules.locking && StoreOk(sys, s) && TaskOk(sys, s, t, task) && IsVerdict(error)
    requires AnswerMove(sys, task, signed) == Some(Move(task.Fail(error), None, None, None))
    ensures RaisesAlone(sys, s.committed, task.request, task.checkedAt, error)
  {
    var id := task.Event().Session();
    StoredHashesDistinct(sys.rules, s.log);
    FoundById(s.committed, id);
    assert Apply(s.committed, task.Event())[id] == task.pending.value;
  }

  /** The task has passed its activity check and is still at work. */
  predicate HasChecked(task: Task) {
    !task.request.Issue? &&
    (task.stage.Checked? || task.stage.Stamped? || task.stage.Written? || task.stage.Ready?)
  }

  /** At the step in which a task fails with a verdict, its use case alone would raise it on the committed
      table, by the clock of its activity check or of now. */
  lemma FailsAlone(sys: System, s: State, a: Action, move: Move, error: Error) returns (at: Instant)
    requires sys.rules.locking && StoreOk(sys, s) && IsMove(a) && a.t in s.tasks && IsVerdict(error)
    requires TaskOk(sys, s, a.t, s.tasks[a.t])
    requires TaskMove(sys, s, a, s.tasks[a.t]) == Some(move) && move.task.stage == Failing(error)
    ensures RaisesAlone(sys, s.committed, s.tasks[a.t].request, at, error)
    ensures at == s.now || (at == s.tasks[a.t].checkedAt && HasChecked(s.tasks[a.t]))
    ensures error.ExpiredToken? ==> at == s.now
  {
    var task := s.tasks[a.t];
    at := s.now;
    match a {
      case LoadUser(_) => LoadUserFailsAlone(sys, s, task, error);
      case Load(t, found) => LoadFailsAlone(sys, s, t, task, found, error);
      case CheckActive(t) => CheckFailsAlone(sys, s, t, task, error);
      case Stamp(t, token) =>
        at := task.checkedAt;
        StampFailsAlone(sys, s, t, task, token, error);
      case Write(t) => WriteDoesNotFail(sys, s, t, task, error);
      case Answer(t, signed) =>
        at := task.checkedAt;
        AnswerFailsAlone(sys, s, t, task, signed, error);
      case _ =>
    }
  }

  predicate HasRaised(task: Task, error: Error) {
    task.stage == Failing(error) || task.stage == Done(Raised(error))
  }

  lemma RaisingStep(sys: System, s: State, a: Action, s': State, t: TaskId, error: Error)
    requires Inv(sys, s) && Step(sys, s, a) == Some(s')
    requires IsVerdict(error) && t in s'.tasks && HasRaised(s'.tasks[t], error)
    requires t in s.tasks ==> !HasRaised(s.tasks[t], error)
    ensures IsMove(a) && a.t == t && t in s.tasks && TaskMove(sys, s, a, s.tasks[t]).Some?
    ensures TaskMove(sys, s, a, s.tasks[t]).value.task == s'.tasks[t] && s'.tasks[t].stage == Failing(error)
  {
    if IsMove(a) && a.t == t {
      MoveKeepsTask(sys, s, a, s.tasks[t], TaskMove(sys, s, a, s.tasks[t]).value);
    }
  }

  lemma CheckedStep(sys: System, s: State, a: Action, s': State, t: TaskId)
    requires Step(sys, s, a) == Some(s') && t in s'.tasks && HasChecked(s'.tasks[t])
    requires !(t in s.tasks && HasChecked(s.tasks[t]))
    ensures a == CheckActive(t) && s'.tasks[t].checkedAt == s.now
  {
  }

  lemma ClockIsKept(sys: System, s: State, a: Action, s': State, t: TaskId)
    requires Step(sys, s, a) == Some(s') && t in s.tasks && HasChecked(s.tasks[t])
    ensures t in s'.tasks && (HasChecked(s'.tasks[t]) ==> s'.tasks[t].checkedAt == s.tasks[t].checkedAt)
  {
  }

  /** The action by which the task read the clock for its activity check. */
  lemma {:induction false} CheckOf(sys: System, actions: seq<Action>, t: TaskId) returns (c: nat)
    requires Run(sys, actions).Some? && t in Run(sys, actions).value.tasks
    requires HasChecked(Run(sys, actions).value.tasks[t])
    ensures c < |actions| && actions[c] == CheckActive(t) && Run(sys, actions[..c]).Some?
    ensures Run(sys, actions[..c]).value.now == Run(sys, actions).value.tasks[t].checkedAt
  {
    var before, a := actions[..|actions| - 1], actions[|actions| - 1];
    var s, s' := Run(sys, before).value, Run(sys, actions).value;
    if t in s.tasks && HasChecked(s.tasks[t]) {
      c := CheckOf(sys, before, t);
      assert before[..c] == actions[..c];
      ClockIsKept(sys, s, a, s', t);
    } else {
      CheckedStep(sys, s, a, s', t);
      c := |before|;
      assert actions[..c] == before;
    }
  }

  /** The `n`th action is the one by which the task, still at work until then, failed with this error. */
  ghost predicate FailedAt(sys: System, actions: seq<Action>, t: TaskId, error: Error, n: nat) {
    && n < |actions| && Run(sys, actions[..n]).Some?
    && var s, a := Run(sys, actions[..n]).value, actions[n];
    && IsMove(a) && a.t == t && t in s.tasks && s.tasks[t].InProgress()
    && var move := TaskMove(sys, s, a, s.tasks[t]);
    && move.Some? && move.value.task.stage == Failing(error)
  }

  /** The `c`th action is the task's activity check, or the one by which it failed. */
  ghost predicate ReadsClock(sys: System, actions: seq<Action>, t: TaskId, n: nat, c: nat) {
    c <= n < |actions| && Run(sys, actions[..c]).Some? && (c == n || actions[c] == CheckActive(t))
  }

  lemma LongerFails(sys: System, actions: seq<Action>, before: seq<Action>, t: TaskId, error: Error, n: nat)
    requires actions != [] && before == actions[..|actions| - 1] && FailedAt(sys, before, t, error, n)
    ensures FailedAt(sys, actions, t, error, n) && before[..n] == actions[..n]
  {
    assert before[..n] == actions[..n];
  }

  /** A task that has raised did so by one of the actions. */
  lemma {:induction false} FailureOf(sys: System, actions: seq<Action>, t: TaskId, error: Error) returns (n: nat)
    requires Run(sys, actions).Some? && t in Run(sys, actions).value.tasks
    requires IsVerdict(error) && HasRaised(Run(sys, actions).value.tasks[t], error)
    ensures FailedAt(sys, actions, t, error, n)
    ensures Run(sys, actions[..n]).value.tasks[t].request == Run(sys, actions).value.tasks[t].request
  {
    var before, a := actions[..|actions| - 1], actions[|actions| - 1];
    var s, s' := Run(sys, before).value, Run(sys, actions).value;
    RunKeepsInv(sys, before);
    if t in s.tasks && HasRaised(s.tasks[t], error) {
      n := FailureOf(sys, before, t, error);
      LongerFails(sys, actions, before, t, error, n);
    } else {
      RaisingStep(sys, s, a, s', t, error);
      n := |before|;
      assert actions[..n] == before;
    }
    RequestStays(sys, s, a, s', t);
  }

  /** Under row locks a task that raises for a reason of its request raises what its use case would raise
      alone on the table as it was committed when the task failed, by the clock as it stood then or, if the
      task had passed its activity check, at that check; an expired session is expired when the task fails. */
  lemma RaisedIsSerial(sys: System, actions: seq<Action>, t: TaskId, error: Error) returns (n: nat, c: nat)
    requires Run(sys, actions).Some? && sys.rules.locking && t in Run(sys, actions).value.tasks
    requires IsVerdict(error) && HasRaised(Run(sys, actions).value.tasks[t], error)
    ensures FailedAt(sys, actions, t, error, n) && ReadsClock(sys, actions, t, n, c)
    ensures error.ExpiredToken? ==> c == n
    ensures RaisesAlone(sys, Run(sys, actions[..n]).value.committed, Run(sys, actions).value.tasks[t].request,
                        Run(sys, actions[..c]).value.now, error)
  {
    n := FailureOf(sys, actions, t, error);
    var before, a := actions[..n], actions[n];
    var s := Run(sys, before).value;
    RunKeepsInv(sys, before);
    assert TaskOk(sys, s, t, s.tasks[t]);
    var at := FailsAlone(sys, s, a, TaskMove(sys, s, a, s.tasks[t]).value, error);
    c := n;
    if at != s.now {
      c := CheckOf(sys, before, t);
      assert before[..c] == actions[..c];
    }
  }

  // ----- No task goes on for ever -----

  function Rank(task: Task): nat {
    match task.stage
    case Entered => 1
    case UserLoaded => 2
    case Loaded => 3
    case Checked => 4
    case Stamped => 5
    case Written => 6
    case Ready => 7
    case Failing(_) => 8
    case Done(_) => 9
  }

  /** How many of the actions are the task's own, interruptions included. */
  function OwnActions(actions: seq<Action>, t: TaskId): nat {
    if actions == [] then 0
    else
      var last := actions[|actions| - 1];
      OwnActions(actions[..|actions| - 1], t) + if !last.Tick? && last.t == t then 1 else 0
  }

  lemma MoveRaisesRank(sys: System, s: State, a: Action, task: Task, move: Move)
    requires IsMove(a) && TaskMove(sys, s, a, task) == Some(move)
    ensures Rank(task) < Rank(move.task)
  {
  }

  lemma StepRaisesRank(sys: System, s: State, a: Action, s': State, t: TaskId)
    requires Step(sys, s, a) == Some(s')
    ensures t in s.tasks ==> t in s'.tasks
    ensures t in s'.tasks && (a.Tick? || a.t != t) ==> t in s.tasks && s'.tasks[t] == s.tasks[t]
    ensures !a.Tick? && a.t == t ==> t in s'.tasks && (t in s.tasks ==> Rank(s.tasks[t]) < Rank(s'.tasks[t]))
  {
    if IsMove(a) { MoveRaisesRank(sys, s, a, s.tasks[a.t], TaskMove(sys, s, a, s.tasks[a.t]).value); }
  }

  /** No task takes more than nine actions, whatever the schedule. */
  lemma {:induction false} FewActions(sys: System, actions: seq<Action>, t: TaskId)
    requires Run(sys, actions).Some?
    ensures OwnActions(actions, t) <= 9
    ensures var s := Run(sys, actions).value;
            if t in s.tasks then OwnActions(actions, t) <= Rank(s.tasks[t]) else OwnActions(actions, t) == 0
  {
    if actions != [] {
      var before, a := actions[..|actions| - 1], actions[|actions| - 1];
      FewActions(sys, before, t);
      StepRaisesRank(sys, Run(sys, before).value, a, Run(sys, actions).value, t);
    }
  }

  // ----- All tasks can end -----

  ghost function Undone(s: State): set<TaskId> {
    set t | t in s.tasks && !s.tasks[t].stage.Done?
  }

  /** Nobody enters, nobody is interrupted, and the clock stands still. */
  predicate IsRegular(a: Action) {
    !a.Tick? && !a.Enter? && !a.Interrupt?
  }

  /** After `more`, in which only regular actions happen, `t` is done, and so is whatever was done. */
  ghost predicate Ends(sys: System, actions: seq<Action>, more: seq<Action>, t: TaskId) {
    && Run(sys, actions).Some? && Run(sys, actions + more).Some?
    && (forall k :: 0 <= k < |more| ==> IsRegular(more[k]))
    && var s, s' := Run(sys, actions).value, Run(sys, actions + more).value;
    && s'.tasks.Keys == s.tasks.Keys && t in Undone(s) && Undone(s') <= Undone(s) - {t}
  }

  ghost predicate HoldsLock(s: State, t: TaskId) {
    exists id :: id in s.locks && s.locks[id] == t
  }

  lemma OneMore(sys: System, actions: seq<Action>, a: Action) returns (s: State)
    requires Run(sys, actions).Some? && Step(sys, Run(sys, actions).value, a).Some?
    ensures Run(sys, actions + [a]) == Some(s) == Step(sys, Run(sys, actions).value, a)
  {
    assert (actions + [a])[..|actions|] == actions;
    s := Step(sys, Run(sys, actions).value, a).value;
  }

  lemma LockIsKept(sys: System, s: State, a: Action, s': State, t: TaskId)
    requires Inv(sys, s) && Step(sys, s, a) == Some(s') && IsRegular(a) && a.t == t && HoldsLock(s, t)
    requires !s'.tasks[t].stage.Done?
    ensures HoldsLock(s', t)
  {
    var id :| id in s.locks && s.locks[id] == t;
    assert id in s'.locks && s'.locks[id] == t;
  }

  lemma OwnStep(sys: System, s: State, a: Action, s': State, t: TaskId)
    requires Step(sys, s, a) == Some(s') && IsRegular(a) && a.t == t && t in Undone(s)
    ensures s'.tasks.Keys == s.tasks.Keys
    ensures Undone(s') == if s'.tasks[t].stage.Done? then Undone(s) - {t} else Undone(s)
    ensures t in s'.tasks && Rank(s.tasks[t]) < Rank(s'.tasks[t]) <= 9
  {
    StepRaisesRank(sys, s, a, s', t);
    forall u | u in s.tasks || u in s'.tasks
      ensures u in s.tasks && u in s'.tasks && (u != t ==> s'.tasks[u] == s.tasks[u])
    {
      StepRaisesRank(sys, s, a, s', u);
    }
  }

  lemma EndsAfter(sys: System, actions: seq<Action>, a: Action, rest: seq<Action>, t: TaskId, more: seq<Action>)
    requires Run(sys, actions).Some? && Run(sys, actions + [a]).Some? && IsRegular(a)
    requires Run(sys, actions + [a]).value.tasks.Keys == Run(sys, actions).value.tasks.Keys
    requires Undone(Run(sys, actions + [a]).value) == Undone(Run(sys, actions).value)
    requires Ends(sys, actions + [a], rest, t) && more == [a] + rest
    ensures Ends(sys, actions, more, t)
  {
    assert actions + more == actions + [a] + rest;
  }

  /** Whoever holds a lock is never kept waiting. */
  lemma {:induction false} HolderEnds(sys: System, actions: seq<Action>, t: TaskId) returns (more: seq<Action>)
    requires Run(sys, actions).Some? && t in Undone(Run(sys, actions).value) && HoldsLock(Run(sys, actions).value, t)
    ensures Ends(sys, actions, more, t)
    decreases 9 - Rank(Run(sys, actions).value.tasks[t])
  {
    RunKeepsInv(sys, actions);
    var s := Run(sys, actions).value;
    assert TaskOk(sys, s, t, s.tasks[t]);
    var a := NextAction(sys, s, t);
    var s' := OneMore(sys, actions, a);
    OwnStep(sys, s, a, s', t);
    if s'.tasks[t].stage.Done? {
      more := [a];
    } else {
      LockIsKept(sys, s, a, s', t);
      var rest := HolderEnds(sys, actions + [a], t);
      more := [a] + rest;
      EndsAfter(sys, actions, a, rest, t, more);
    }
  }

  lemma EndsThen(sys: System, actions: seq<Action>, first: seq<Action>, u: TaskId, rest: seq<Action>, t: TaskId,
                 more: seq<Action>)
    requires Ends(sys, actions, first, u) && Ends(sys, actions + first, rest, t) && more == first + rest
    ensures Ends(sys, actions, more, t)
  {
    assert actions + more == actions + first + rest;
  }

  /** Any task can be brought to its end, after the tasks it waits for. */
  lemma {:induction false} TaskEnds(sys: System, actions: seq<Action>, t: TaskId) returns (more: seq<Action>)
    requires Run(sys, actions).Some? && t in Undone(Run(sys, actions).value)
    ensures Ends(sys, actions, more, t)
    decreases Undone(Run(sys, actions).value), 9 - Rank(Run(sys, actions).value.tasks[t])
  {
    RunKeepsInv(sys, actions);
    var s := Run(sys, actions).value;
    assert TaskOk(sys, s, t, s.tasks[t]);
    var a := NextAction(sys, s, t);
    if Step(sys, s, a).Some? {
      var s' := OneMore(sys, actions, a);
      OwnStep(sys, s, a, s', t);
      if s'.tasks[t].stage.Done? {
        more := [a];
      } else {
        var rest := TaskEnds(sys, actions + [a], t);
        more := [a] + rest;
        EndsAfter(sys, actions, a, rest, t, more);
      }
    } else {
      var id :| id in s.locks && s.locks[id] != t;
      var first := HolderEnds(sys, actions, s.locks[id]);
      if t in Undone(Run(sys, actions + first).value) {
        var rest := TaskEnds(sys, actions + first, t);
        more := first + rest;
        EndsThen(sys, actions, first, s.locks[id], rest, t, more);
      } else {
        more := first;
      }
    }
  }

  /** From every reachable state all tasks can be brought to their ends, without anyone being interrupted. */
  lemma {:induction false} AllCanEnd(sys: System, actions: seq<Action>) returns (more: seq<Action>)
    requires Run(sys, actions).Some?
    ensures Run(sys, actions + more).Some? && Undone(Run(sys, actions + more).value) == {}
    ensures Run(sys, actions + more).value.tasks.Keys == Run(sys, actions).value.tasks.Keys
    ensures forall k :: 0 <= k < |more| ==> IsRegular(more[k])
    decreases Undone(Run(sys, actions).value)
  {
    if Undone(Run(sys, actions).value) == {} {
      more := [];
      assert actions + more == actions;
    } else {
      var t :| t in Undone(Run(sys, actions).value);
      var first := TaskEnds(sys, actions, t);
      var rest := AllCanEnd(sys, actions + first);
      more := first + rest;
      assert actions + more == actions + first + rest;
    }
  }
}
