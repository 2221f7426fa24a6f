/**
 A task that runs alone in the protocol does what the use cases do in one call: it ends with the
 same answer or error and leaves the same table.
 */
module ProtocolAlone {
  import opened Prelude
  import opened Sessions
  import opened Protocol
  import ProtocolTheorems
  import RefreshSessions

  /** The state after these actions, starting from `s`. */
  ghost function RunFrom(sys: System, s: State, actions: seq<Action>): Option<State>
    decreases |actions|
  {
    if actions == [] then Some(s)
    else
      var next := Step(sys, s, actions[0]);
      if next.None? then None else RunFrom(sys, next.value, actions[1..])
  }

  /** Running on from where a schedule leads is running the longer schedule. */
  lemma {:induction false} RunGoesOn(sys: System, actions: seq<Action>, more: seq<Action>)
    requires Run(sys, actions).Some?
    ensures Run(sys, actions + more) == RunFrom(sys, Run(sys, actions).value, more)
    decreases |more|
  {
    if more == [] {
      assert actions + more == actions;
    } else {
      var longer := actions + [more[0]];
      assert longer[..|actions|] == actions && actions + more == longer + more[1..];
      assert (actions + more)[..|longer|] == longer;
      if Run(sys, longer).Some? {
        RunGoesOn(sys, longer, more[1..]);
      } else if Run(sys, actions + more).Some? {
        ProtocolTheorems.PrefixRuns(sys, actions + more, |longer|);
      }
    }
  }

  /** The actions are the task's own, and lead to a state in which it is done with this outcome and
      these are the rows. */
  ghost predicate Ends(sys: System, s: State, actions: seq<Action>, t: TaskId, outcome: Outcome, rows: Table) {
    && (forall k :: 0 <= k < |actions| ==> !actions[k].Tick? && actions[k].t == t)
    && var last := RunFrom(sys, s, actions);
    && last.Some? && t in last.value.tasks && last.value.tasks[t].stage == Done(outcome)
    && last.value.committed == rows
  }

  lemma First(sys: System, s: State, a: Action, next: State, rest: seq<Action>, t: TaskId, outcome: Outcome,
              rows: Table)
    returns (actions: seq<Action>)
    requires !a.Tick? && a.t == t && Step(sys, s, a) == Some(next) && Ends(sys, next, rest, t, outcome, rows)
    ensures Ends(sys, s, actions, t, outcome, rows)
  {
    actions := [a] + rest;
    assert actions[1..] == rest;
  }

  lemma One(sys: System, s: State, a: Action, next: State, t: TaskId, outcome: Outcome)
    returns (actions: seq<Action>)
    requires !a.Tick? && a.t == t && Step(sys, s, a) == Some(next)
    requires t in next.tasks && next.tasks[t].stage == Done(outcome)
    ensures Ends(sys, s, actions, t, outcome, next.committed)
  {
    actions := [a];
    assert actions[1..] == [];
    assert RunFrom(sys, next, []) == Some(next);
  }

  /** How leaving the unit of work goes. */
  datatype Exit = Exit(finishes: bool, closes: bool)

  /** What the task ends with when its body has this error, if any: what the method returns. */
  function OutcomeOf(body: Option<Error>, token: Option<Token>, exit: Exit): Outcome {
    match RefreshSessions.Outcome(body, token, exit.finishes, exit.closes)
    case Success(answer) => Answered(answer)
    case Failure(error) => Raised(error)
  }

  /** The error a task has when it leaves its unit of work. */
  function BodyError(task: Task): Option<Error> {
    if task.stage.Failing? then Some(task.stage.error) else None
  }

  /** In the transition system, however a task leaves, it ends with what the method returns. */
  lemma OutcomesAgree(sys: System, s: State, t: TaskId, exit: Exit)
    requires t in s.tasks && (s.tasks[t].stage.Ready? || s.tasks[t].stage.Failing?)
    ensures var a := if s.tasks[t].stage.Ready? then Finish(t, exit.finishes, exit.closes)
                     else RollBack(t, exit.finishes, exit.closes);
            Step(sys, s, a).Some? && t in Step(sys, s, a).value.tasks &&
            Step(sys, s, a).value.tasks[t].stage == Done(OutcomeOf(BodyError(s.tasks[t]), s.tasks[t].issued, exit))
  {
  }

  // ----- The ends of a task -----

  lemma RolledBack(sys: System, s: State, t: TaskId, error: Error, exit: Exit) returns (actions: seq<Action>)
    requires t in s.tasks && s.tasks[t].stage == Failing(error)
    ensures Ends(sys, s, actions, t, OutcomeOf(Some(error), None, exit), s.committed)
  {
    var raised := ExitError(error, exit.finishes, exit.closes);
    actions := One(sys, s, RollBack(t, exit.finishes, exit.closes), s.Discard(t, raised), t, Raised(raised));
  }

  lemma Finished(sys: System, s: State, t: TaskId, exit: Exit) returns (actions: seq<Action>)
    requires t in s.tasks && s.tasks[t].stage.Ready? && s.tasks[t].Complete()
    ensures var task := s.tasks[t];
            Ends(sys, s, actions, t, OutcomeOf(None, task.issued, exit),
                 if exit.finishes then s.committed[task.pending.value.id := task.pending.value] else s.committed)
  {
    var next := FinishStep(s, t, s.tasks[t], exit.finishes, exit.closes).value;
    actions := One(sys, s, Finish(t, exit.finishes, exit.closes), next, t, OutcomeOf(None, s.tasks[t].issued, exit));
  }

  // ----- A lone refresh -----

  /** No other task holds a lock. */
  ghost predicate Alone(s: State, t: TaskId) {
    forall id :: id in s.locks ==> s.locks[id] == t
  }

  /** Rows are stored by identifier, and what they use is not fresh. */
  ghost predicate RowsRecorded(s: State) {
    forall id :: id in s.committed ==> s.committed[id].id == id && id in s.ids && s.committed[id].hash.token in s.tokens
  }

  lemma ReachableIsRecorded(sys: System, actions: seq<Action>)
    requires Run(sys, actions).Some?
    ensures RowsRecorded(Run(sys, actions).value)
  {
    RunKeepsInv(sys, actions);
    var s := Run(sys, actions).value;
    forall id | id in s.committed
      ensures s.committed[id].id == id && id in s.ids && s.committed[id].hash.token in s.tokens
    {
      RowReflectsHistory(sys.rules, s.log, id);
    }
  }

  function WithTask(s: State, t: TaskId, task: Task): State {
    s.(tasks := s.tasks[t := task])
  }

  lemma RefreshFromWritten(sys: System, s: State, t: TaskId, signed: bool, exit: Exit) returns (actions: seq<Action>)
    requires t in s.tasks && s.tasks[t].stage.Written? && s.tasks[t].request.Refresh? && s.tasks[t].Complete()
    ensures var task := s.tasks[t];
            var error := if !sys.IsActive(task.pending.value.user) then Some(InvalidToken)
                         else if !signed then Some(SigningFailed) else None;
            Ends(sys, s, actions, t, OutcomeOf(error, task.issued, exit),
                 if error.None? && exit.finishes then s.committed[task.pending.value.id := task.pending.value]
                 else s.committed)
  {
    var task := s.tasks[t];
    var a := Answer(t, signed);
    if !sys.IsActive(task.pending.value.user) {
      var next := WithTask(s, t, task.Fail(InvalidToken));
      var rest := RolledBack(sys, next, t, InvalidToken, exit);
      actions := First(sys, s, a, next, rest, t, OutcomeOf(Some(InvalidToken), None, exit), s.committed);
    } else if !signed {
      var next := WithTask(s, t, task.Fail(SigningFailed));
      var rest := RolledBack(sys, next, t, SigningFailed, exit);
      actions := First(sys, s, a, next, rest, t, OutcomeOf(Some(SigningFailed), None, exit), s.committed);
    } else {
      var next := WithTask(s, t, task.(stage := Ready));
      var rest := Finished(sys, next, t, exit);
      actions := First(sys, s, a, next, rest, t, OutcomeOf(None, task.issued, exit),
                       if exit.finishes then s.committed[task.pending.value.id := task.pending.value] else s.committed);
    }
  }

  /** What a refresh ends with once it has stamped its write at `now`. */
  ghost predicate RefreshEnds(sys: System, s: State, actions: seq<Action>, t: TaskId, row: Row, newToken: Token,
                              now: Instant,
                              signed: bool, exit: Exit) {
    var error := if !sys.IsActive(row.user) then Some(InvalidToken) else if !signed then Some(SigningFailed) else None;
    var written := row.(hash := Hash(newToken), lastUsedAt := Some(now), rotationCounter := row.rotationCounter + 1);
    Ends(sys, s, actions, t, OutcomeOf(error, Some(newToken), exit),
         if error.None? && exit.finishes then s.committed[row.id := written] else s.committed)
  }

  ghost predicate HoldsRow(s: State, t: TaskId, row: Row) {
    row.id in s.committed && s.committed[row.id] == row && Alone(s, t)
  }

  lemma RefreshFromStamped(sys: System, s: State, t: TaskId, row: Row, newToken: Token, signed: bool, exit: Exit)
    returns (actions: seq<Action>)
    requires t in s.tasks && s.tasks[t].stage.Stamped? && s.tasks[t].request == Refresh(row.hash.token)
    requires s.tasks[t].seen == Some(row) && s.tasks[t].issued == Some(newToken) && HoldsRow(s, t, row)
    ensures RefreshEnds(sys, s, actions, t, row, newToken, s.tasks[t].wroteAt, signed, exit)
  {
    var task := s.tasks[t];
    var written := row.(hash := Hash(newToken), lastUsedAt := Some(task.wroteAt),
                        rotationCounter := row.rotationCounter + 1);
    var move := Move(task.(stage := Written, pending := Some(written)), Some(row.id), None, None);
    var next := s.Make(t, move);
    assert WriteMove(s, t, task) == Some(move);
    var rest := RefreshFromWritten(sys, next, t, signed, exit);
    var error := if !sys.IsActive(row.user) then Some(InvalidToken) else if !signed then Some(SigningFailed) else None;
    actions := First(sys, s, Write(t), next, rest, t, OutcomeOf(error, Some(newToken), exit),
                     if error.None? && exit.finishes then s.committed[row.id := written] else s.committed);
  }

  lemma RefreshFromChecked(sys: System, s: State, t: TaskId, row: Row, newToken: Token, signed: bool, exit: Exit)
    returns (actions: seq<Action>)
    requires t in s.tasks && s.tasks[t].stage.Checked? && s.tasks[t].request == Refresh(row.hash.token)
    requires s.tasks[t].seen == Some(row) && newToken !in s.tokens && HoldsRow(s, t, row)
    ensures RefreshEnds(sys, s, actions, t, row, newToken, s.now, signed, exit)
  {
    var task := s.tasks[t];
    var move := Move(task.(stage := Stamped, issued := Some(newToken), wroteAt := s.now), None, Some(newToken), None);
    var next := s.Make(t, move);
    assert StampMove(sys, s, t, task, newToken) == Some(move);
    actions := RefreshFromStamped(sys, next, t, row, newToken, signed, exit);
    var error := if !sys.IsActive(row.user) then Some(InvalidToken) else if !signed then Some(SigningFailed) else None;
    var written := row.(hash := Hash(newToken), lastUsedAt := Some(s.now), rotationCounter := row.rotationCounter + 1);
    actions := First(sys, s, Stamp(t, newToken), next, actions, t, OutcomeOf(error, Some(newToken), exit),
                     if error.None? && exit.finishes then s.committed[row.id := written] else s.committed);
  }

  /** What a refresh ends with, by the specification of the method. */
  ghost predicate RefreshAnswers(sys: System, s: State, actions: seq<Action>, t: TaskId, token: Token, newToken: Token,
                                 now: Instant, signed: bool, exit: Exit) {
    var rows := s.committed;
    var body := RefreshError(rows, sys.users, token, newToken, now, signed);
    Ends(sys, s, actions, t, OutcomeOf(body, Some(newToken), exit),
         if body.None? && exit.finishes
         then Apply(rows, Rotated(Lookup(rows, Hash(token)).value, Hash(token), Hash(newToken), now, now))
         else rows)
  }

  lemma RefreshFromLoaded(sys: System, s: State, t: TaskId, token: Token, newToken: Token, signed: bool, exit: Exit)
    returns (actions: seq<Action>)
    requires t in s.tasks && s.tasks[t].stage.Loaded? && s.tasks[t].request == Refresh(token)
    requires newToken !in s.tokens && RowsRecorded(s)
    requires var found := Lookup(s.committed, Hash(token));
             found.Some? && s.committed[found.value].id == found.value &&
             s.tasks[t].seen == Some(s.committed[found.value])
    requires Alone(s, t)
    ensures RefreshAnswers(sys, s, actions, t, token, newToken, s.now, signed, exit)
  {
    var task, row := s.tasks[t], s.tasks[t].seen.value;
    if row.IsActiveAt(s.now) {
      var next := WithTask(s, t, task.(stage := Checked, checkedAt := s.now));
      actions := RefreshFromChecked(sys, next, t, row, newToken, signed, exit);
      var body := RefreshError(s.committed, sys.users, token, newToken, s.now, signed);
      var written := row.(hash := Hash(newToken), lastUsedAt := Some(s.now),
                          rotationCounter := row.rotationCounter + 1);
      actions := First(sys, s, CheckActive(t), next, actions, t, OutcomeOf(body, Some(newToken), exit),
                       if body.None? && exit.finishes then s.committed[row.id := written] else s.committed);
    } else {
      var next := WithTask(s, t, task.Fail(ExpiredToken));
      actions := RolledBack(sys, next, t, ExpiredToken, exit);
      actions := First(sys, s, CheckActive(t), next, actions, t, OutcomeOf(Some(ExpiredToken), None, exit),
                       s.committed);
    }
  }

  /** A refresh that runs alone, from any state without a task of its name, ends as the use case
      does on the committed rows. */
  lemma RefreshAlone(sys: System, s: State, t: TaskId, token: Token, newToken: Token, signed: bool, exit: Exit)
    returns (actions: seq<Action>)
    requires sys.rules.locking && t !in s.tasks && newToken !in s.tokens && Alone(s, t)
    requires RowsRecorded(s)
    ensures RefreshAnswers(sys, s, actions, t, token, newToken, s.now, signed, exit)
  {
    var entered := WithTask(s, t, Task(Refresh(token), Entered, None, 0, None, 0, None));
    var task, found := entered.tasks[t], Lookup(s.committed, Hash(token));
    var body := RefreshError(s.committed, sys.users, token, newToken, s.now, signed);
    var rows := if body.None? && exit.finishes
                then Apply(s.committed, Rotated(found.value, Hash(token), Hash(newToken), s.now, s.now))
                else s.committed;
    if found.None? {
      var next := WithTask(entered, t, task.Fail(InvalidToken));
      actions := RolledBack(sys, next, t, InvalidToken, exit);
      actions := First(sys, entered, Load(t, None), next, actions, t, OutcomeOf(Some(InvalidToken), None, exit), rows);
    } else {
      var move := Move(task.(stage := Loaded, seen := Some(s.committed[found.value])), found, None, None);
      var next := entered.Make(t, move);
      assert LoadMove(sys, entered, t, task, found) == Some(move);
      actions := RefreshFromLoaded(sys, next, t, token, newToken, signed, exit);
      actions := First(sys, entered, Load(t, found), next, actions, t, OutcomeOf(body, Some(newToken), exit), rows);
    }
    actions := First(sys, s, Enter(t, Refresh(token)), entered, actions, t, OutcomeOf(body, Some(newToken), exit),
                     rows);
  }

  /** A lone refresh with a token of deactivated or missing users' sessions raises and changes nothing, from
      any state, whatever became of the accounts since the sessions were created. */
  lemma DeactivatedRefreshAlone(sys: System, s: State, t: TaskId, token: Token, newToken: Token, signed: bool,
                                exit: Exit)
    returns (actions: seq<Action>, error: Error)
    requires sys.rules.locking && t !in s.tasks && newToken !in s.tokens && Alone(s, t)
    requires RowsRecorded(s) && HashesDistinct(s.committed)
    requires forall id :: id in s.committed && s.committed[id].hash == Hash(token) ==>
                            !(s.committed[id].user in sys.users && sys.users[s.committed[id].user])
    ensures Ends(sys, s, actions, t, Raised(error), s.committed)
  {
    actions := RefreshAlone(sys, s, t, token, newToken, signed, exit);
    RefreshAnswersIff(s.committed, sys.users, token, newToken, s.now, signed);
    var body := RefreshError(s.committed, sys.users, token, newToken, s.now, signed);
    error := OutcomeOf(body, Some(newToken), exit).error;
  }

  // ----- A lone issue -----

  lemma IssueFromWritten(sys: System, s: State, t: TaskId, signed: bool, exit: Exit) returns (actions: seq<Action>)
    requires t in s.tasks && s.tasks[t].stage.Written? && s.tasks[t].request.Issue? && s.tasks[t].Complete()
    ensures var task := s.tasks[t];
            var error := if !signed then Some(SigningFailed) else None;
            Ends(sys, s, actions, t, OutcomeOf(error, task.issued, exit),
                 if error.None? && exit.finishes then s.committed[task.pending.value.id := task.pending.value]
                 else s.committed)
  {
    var task := s.tasks[t];
    if !signed {
      var next := WithTask(s, t, task.Fail(SigningFailed));
      var rest := RolledBack(sys, next, t, SigningFailed, exit);
      actions := First(sys, s, Answer(t, signed), next, rest, t, OutcomeOf(Some(SigningFailed), None, exit),
                       s.committed);
    } else {
      var next := WithTask(s, t, task.(stage := Ready));
      var rest := Finished(sys, next, t, exit);
      actions := First(sys, s, Answer(t, signed), next, rest, t, OutcomeOf(None, task.issued, exit),
                       if exit.finishes then s.committed[task.pending.value.id := task.pending.value] else s.committed);
    }
  }

  /** An issue that runs alone ends as the use case does. */
  lemma IssueAlone(sys: System, s: State, t: TaskId, request: Request, token: Token, id: SessionId, signed: bool,
                   exit: Exit)
    returns (actions: seq<Action>)
    requires request.Issue? && t !in s.tasks && token !in s.tokens && id !in s.ids && RowsRecorded(s)
    ensures var body := IssueError(s.committed, sys.users, request.user, request.passwordOk, id, token, signed);
            var row := NewRow(id, token, request.user, request.userAgent, request.ipAddressTrace, s.now, sys.rules.ttl);
            Ends(sys, s, actions, t, OutcomeOf(body, Some(token), exit),
                 if body.None? && exit.finishes then Apply(s.committed, Created(row)) else s.committed)
  {
    var entered := WithTask(s, t, Task(request, Entered, None, 0, None, 0, None));
    var task := entered.tasks[t];
    var body := IssueError(s.committed, sys.users, request.user, request.passwordOk, id, token, signed);
    var row := NewRow(id, token, request.user, request.userAgent, request.ipAddressTrace, s.now, sys.rules.ttl);
    var rows := if body.None? && exit.finishes then s.committed[id := row] else s.committed;
    var outcome := OutcomeOf(body, Some(token), exit);
    if sys.IsActive(request.user) && request.passwordOk {
      var loaded := WithTask(entered, t, task.(stage := UserLoaded));
      var move := Move(task.(stage := Written, issued := Some(token), wroteAt := s.now, pending := Some(row)), None,
                       Some(token), Some(id));
      var created := loaded.Make(t, move);
      assert CreateMove(sys, loaded, loaded.tasks[t], token, id) == Some(move);
      actions := IssueFromWritten(sys, created, t, signed, exit);
      actions := First(sys, loaded, Create(t, token, id), created, actions, t, outcome, rows);
      actions := First(sys, entered, LoadUser(t), loaded, actions, t, outcome, rows);
    } else {
      var next := WithTask(entered, t, task.Fail(InvalidCredentials));
      actions := RolledBack(sys, next, t, InvalidCredentials, exit);
      actions := First(sys, entered, LoadUser(t), next, actions, t, outcome, rows);
    }
    actions := First(sys, s, Enter(t, request), entered, actions, t, outcome, rows);
  }

  // ----- A lone revocation -----

  /** What a revocation ends with from a state of its own, when this is its error. */
  ghost predicate RevokeEnds(sys: System, s: State, actions: seq<Action>, t: TaskId, error: Option<Error>, row: Row,
                             exit: Exit) {
    Ends(sys, s, actions, t, OutcomeOf(error, None, exit),
         if error.None? && exit.finishes then s.committed[row.id := row.(revokedAt := Some(s.now))] else s.committed)
  }

  lemma RevokeFromStamped(sys: System, s: State, t: TaskId, row: Row, exit: Exit) returns (actions: seq<Action>)
    requires t in s.tasks && s.tasks[t].stage.Stamped? && s.tasks[t].request.Revoke? && s.tasks[t].wroteAt == s.now
    requires s.tasks[t].seen == Some(row) && s.tasks[t].issued.None? && HoldsRow(s, t, row)
    ensures RevokeEnds(sys, s, actions, t, None, row, exit)
  {
    var task := s.tasks[t];
    var revoked := row.(revokedAt := Some(s.now));
    var move := Move(task.(stage := Ready, pending := Some(revoked)), Some(row.id), None, None);
    var next := s.Make(t, move);
    assert WriteMove(s, t, task) == Some(move);
    actions := Finished(sys, next, t, exit);
    actions := First(sys, s, Write(t), next, actions, t, OutcomeOf(None, None, exit),
                     if exit.finishes then s.committed[row.id := revoked] else s.committed);
  }

  lemma RevokeFromChecked(sys: System, s: State, t: TaskId, row: Row, exit: Exit) returns (actions: seq<Action>)
    requires sys.rules.locking && t in s.tasks && s.tasks[t].stage.Checked? && s.tasks[t].request.Revoke?
    requires s.tasks[t].seen == Some(row) && s.tasks[t].issued.None? && HoldsRow(s, t, row)
    ensures var error := if row.user != s.tasks[t].request.actor then Some(InvalidToken) else None;
            RevokeEnds(sys, s, actions, t, error, row, exit)
  {
    var task := s.tasks[t];
    var a := Stamp(t, 0);
    if row.user != task.request.actor {
      var next := WithTask(s, t, task.Fail(InvalidToken));
      actions := RolledBack(sys, next, t, InvalidToken, exit);
      actions := First(sys, s, a, next, actions, t, OutcomeOf(Some(InvalidToken), None, exit), s.committed);
    } else {
      var move := Move(task.(stage := Stamped, wroteAt := s.now), Some(row.id), None, None);
      var next := s.Make(t, move);
      assert StampMove(sys, s, t, task, 0) == Some(move);
      actions := RevokeFromStamped(sys, next, t, row, exit);
      actions := First(sys, s, a, next, actions, t, OutcomeOf(None, None, exit),
                       if exit.finishes then s.committed[row.id := row.(revokedAt := Some(s.now))] else s.committed);
    }
  }

  /** What a revocation ends with, by the specification of the method. */
  ghost predicate RevokeAnswers(sys: System, s: State, actions: seq<Action>, t: TaskId, token: Token, actor: UserId,
                                exit: Exit) {
    var rows := s.committed;
    var body := RevokeError(rows, sys.users, token, actor, s.now);
    Ends(sys, s, actions, t, OutcomeOf(body, None, exit),
         if body.None? && exit.finishes
         then Apply(rows, Revoked(Lookup(rows, Hash(token)).value, Hash(token), actor, s.now, s.now))
         else rows)
  }

  lemma RevokeFromLoaded(sys: System, s: State, t: TaskId, token: Token, actor: UserId, exit: Exit)
    returns (actions: seq<Action>)
    requires sys.rules.locking && sys.IsActive(actor) && t in s.tasks && s.tasks[t].stage.Loaded?
    requires s.tasks[t].request == Revoke(token, actor) && s.tasks[t].issued.None? && Alone(s, t)
    requires var found := Lookup(s.committed, Hash(token));
             found.Some? && s.committed[found.value].id == found.value &&
             s.tasks[t].seen == Some(s.committed[found.value])
    ensures RevokeAnswers(sys, s, actions, t, token, actor, exit)
  {
    var task, row := s.tasks[t], s.tasks[t].seen.value;
    var body := RevokeError(s.committed, sys.users, token, actor, s.now);
    if row.IsActiveAt(s.now) {
      var next := WithTask(s, t, task.(stage := Checked, checkedAt := s.now));
      actions := RevokeFromChecked(sys, next, t, row, exit);
      actions := First(sys, s, CheckActive(t), next, actions, t, OutcomeOf(body, None, exit),
                       if body.None? && exit.finishes then s.committed[row.id := row.(revokedAt := Some(s.now))]
                       else s.committed);
    } else {
      var next := WithTask(s, t, task.Fail(ExpiredToken));
      actions := RolledBack(sys, next, t, ExpiredToken, exit);
      actions := First(sys, s, CheckActive(t), next, actions, t, OutcomeOf(Some(ExpiredToken), None, exit),
                       s.committed);
    }
  }

  /** A revocation that runs alone ends as the use case does. */
  lemma RevokeAlone(sys: System, s: State, t: TaskId, token: Token, actor: UserId, exit: Exit)
    returns (actions: seq<Action>)
    requires sys.rules.locking && t !in s.tasks && Alone(s, t)
    requires RowsRecorded(s)
    ensures RevokeAnswers(sys, s, actions, t, token, actor, exit)
  {
    var entered := WithTask(s, t, Task(Revoke(token, actor), Entered, None, 0, None, 0, None));
    var task, found := entered.tasks[t], Lookup(s.committed, Hash(token));
    var body := RevokeError(s.committed, sys.users, token, actor, s.now);
    var rows := if body.None? && exit.finishes
                then Apply(s.committed, Revoked(found.value, Hash(token), actor, s.now, s.now)) else s.committed;
    var outcome := OutcomeOf(body, None, exit);
    if !sys.IsActive(actor) {
      var next := WithTask(entered, t, task.Fail(UserNotFound));
      actions := RolledBack(sys, next, t, UserNotFound, exit);
      actions := First(sys, entered, LoadUser(t), next, actions, t, outcome, rows);
    } else {
      var loaded := WithTask(entered, t, task.(stage := UserLoaded));
      actions := RevokeFromUserLoaded(sys, loaded, t, token, actor, exit);
      actions := First(sys, entered, LoadUser(t), loaded, actions, t, outcome, rows);
    }
    actions := First(sys, s, Enter(t, Revoke(token, actor)), entered, actions, t, outcome, rows);
  }

  lemma RevokeFromUserLoaded(sys: System, s: State, t: TaskId, token: Token, actor: UserId, exit: Exit)
    returns (actions: seq<Action>)
    requires sys.rules.locking && sys.IsActive(actor) && t in s.tasks && s.tasks[t].stage.UserLoaded? && Alone(s, t)
    requires s.tasks[t].request == Revoke(token, actor) && s.tasks[t].issued.None?
    requires RowsRecorded(s)
    ensures RevokeAnswers(sys, s, actions, t, token, actor, exit)
  {
    var task, found := s.tasks[t], Lookup(s.committed, Hash(token));
    var body := RevokeError(s.committed, sys.users, token, actor, s.now);
    if found.None? {
      var next := WithTask(s, t, task.Fail(InvalidToken));
      actions := RolledBack(sys, next, t, InvalidToken, exit);
      actions := First(sys, s, Load(t, None), next, actions, t, OutcomeOf(Some(InvalidToken), None, exit), s.committed);
    } else {
      var move := Move(task.(stage := Loaded, seen := Some(s.committed[found.value])), found, None, None);
      var next := s.Make(t, move);
      assert LoadMove(sys, s, t, task, found) == Some(move);
      actions := RevokeFromLoaded(sys, next, t, token, actor, exit);
      actions := First(sys, s, Load(t, found), next, actions, t, OutcomeOf(body, None, exit),
                       if body.None? && exit.finishes
                       then Apply(s.committed, Revoked(found.value, Hash(token), actor, s.now, s.now))
                       else s.committed);
    }
  }
}
