/**
 The unit of work: one database session and transaction per task, opened on entry and
 finished and closed on exit, with any of begin, commit, rollback and close failing.
 */
module UnitOfWork {
  import opened Prelude
  import opened Sessions
  import opened RefreshSessionRepositories

  type SessionNo = nat

  datatype Effect =
    | Begun(session: SessionNo)
    | Finished(session: SessionNo, commit: bool, succeeds: bool)
    | Closed(session: SessionNo, succeeds: bool)

  datatype Call =
    | Enter(task: TaskId, begins: bool)
    | Exit(task: TaskId, hasError: bool, finishes: bool, closes: bool)

  /** The sessions of the open scopes, how many sessions were begun, and all effects so far. */
  datatype Scopes = Scopes(open: map<TaskId, SessionNo>, begun: nat, effects: seq<Effect>)

  const NO_SCOPES := Scopes(map[], 0, [])

  // ----- Specification -----

  function After(s: Scopes, call: Call): Scopes {
    match call
    case Enter(task, begins) =>
      if task in s.open || !begins then s
      else Scopes(s.open[task := s.begun], s.begun + 1, s.effects + [Begun(s.begun)])
    case Exit(task, hasError, finishes, closes) =>
      if task !in s.open then s
      else
        var session := s.open[task];
        s.(open := if closes then s.open - {task} else s.open,
        effects := s.effects + [Finished(session, !hasError, finishes), Closed(session, closes)])
  }

  /** The error the call raises, if any. */
  function ErrorOf(s: Scopes, call: Call): Option<Error> {
    match call
    case Enter(task, begins) =>
      if task in s.open then Some(NestedScope) else if !begins then Some(BeginFailed) else None
    case Exit(task, _, finishes, closes) =>
      if task !in s.open then Some(InactiveScope)
      else if !closes then Some(CloseFailed) else if !finishes then Some(FinishFailed) else None
  }

  function AfterAll(calls: seq<Call>): Scopes {
    if calls == [] then NO_SCOPES
    else After(AfterAll(calls[..|calls| - 1]), calls[|calls| - 1])
  }

  // ----- Scope conservation -----

  /** The effects on one session, in order. */
  function Life(effects: seq<Effect>, session: SessionNo): seq<Effect> {
    if effects == [] then []
    else
      var last := effects[|effects| - 1];
      Life(effects[..|effects| - 1], session) + if last.session == session then [last] else []
  }

  /** Begun once; then each finish attempt is followed at once by a close attempt, up to the
      first close that succeeds, and nothing after it. */
  ghost predicate ProperLife(life: seq<Effect>, open: bool) {
    && |life| % 2 == 1 && life[0].Begun?
    && (forall k :: 0 < k < |life| && k % 2 == 1 ==> life[k].Finished?)
    && (forall k :: 0 < k < |life| && k % 2 == 0 ==>
          life[k].Closed? && (life[k].succeeds <==> k == |life| - 1 && !open))
    && (|life| == 1 ==> open)
  }

  lemma LifeAppend(effects: seq<Effect>, effect: Effect, session: SessionNo)
    ensures Life(effects + [effect], session) ==
              Life(effects, session) + if effect.session == session then [effect] else []
  {
    assert (effects + [effect])[..|effects|] == effects;
  }

  ghost predicate IsOpen(s: Scopes, session: SessionNo) {
    exists task :: task in s.open && s.open[task] == session
  }

  ghost predicate Conserved(s: Scopes, session: SessionNo) {
    if session < s.begun then ProperLife(Life(s.effects, session), IsOpen(s, session))
    else Life(s.effects, session) == [] && !IsOpen(s, session)
  }

  ghost predicate SessionsDistinct(s: Scopes) {
    forall t, u :: t in s.open && u in s.open && t != u ==> s.open[t] != s.open[u]
  }

  lemma EnterConserves(s: Scopes, call: Call, session: SessionNo)
    requires call.Enter? && SessionsDistinct(s) && Conserved(s, session) && Conserved(s, s.begun)
    ensures SessionsDistinct(After(s, call)) && Conserved(After(s, call), session)
  {
    var s' := After(s, call);
    LifeAppend(s.effects, Begun(s.begun), session);
    if s' != s {
      assert s'.open[call.task] == s.begun;
      forall t | t in s.open ensures t in s'.open && s'.open[t] == s.open[t] != s.begun {}
      assert IsOpen(s', session) <==> IsOpen(s, session) || session == s.begun;
    }
  }

  lemma ExitOpens(s: Scopes, call: Call, session: SessionNo)
    requires call.Exit? && SessionsDistinct(s) && call.task in s.open
    ensures var s' := After(s, call);
            IsOpen(s', session) <==> IsOpen(s, session) && (session == s.open[call.task] ==> !call.closes)
  {
    var s' := After(s, call);
    forall t | t in s.open && (t != call.task || !call.closes) ensures t in s'.open && s'.open[t] == s.open[t] {}
  }

  lemma ExitKeepsDistinct(s: Scopes, call: Call)
    requires call.Exit? && SessionsDistinct(s)
    ensures SessionsDistinct(After(s, call))
  {
  }

  lemma LifeGoesOn(life: seq<Effect>, finished: Effect, closed: Effect)
    requires ProperLife(life, true) && finished.Finished? && closed.Closed?
    ensures ProperLife(life + [finished, closed], !closed.succeeds)
  {
  }

  lemma ExitLengthensLife(s: Scopes, call: Call, session: SessionNo)
    requires call.Exit? && call.task in s.open
    ensures var mine := s.open[call.task];
            Life(After(s, call).effects, session) ==
              if session == mine
              then Life(s.effects, mine) + [Finished(mine, !call.hasError, call.finishes), Closed(mine, call.closes)]
              else Life(s.effects, session)
  {
    var mine := s.open[call.task];
    var finished := Finished(mine, !call.hasError, call.finishes);
    LifeAppend(s.effects, finished, session);
    LifeAppend(s.effects + [finished], Closed(mine, call.closes), session);
    assert After(s, call).effects == s.effects + [finished] + [Closed(mine, call.closes)];
  }

  lemma ExitConserves(s: Scopes, call: Call, session: SessionNo)
    requires call.Exit? && SessionsDistinct(s) && Conserved(s, session)
    ensures SessionsDistinct(After(s, call)) && Conserved(After(s, call), session)
  {
    ExitKeepsDistinct(s, call);
    if call.task in s.open {
      var mine := s.open[call.task];
      ExitOpens(s, call, session);
      ExitLengthensLife(s, call, session);
      assert IsOpen(s, mine);
      if session == mine {
        LifeGoesOn(Life(s.effects, mine), Finished(mine, !call.hasError, call.finishes), Closed(mine, call.closes));
      }
    }
  }

  /** Over any run of enters and exits by any number of tasks, with any of begin, commit,
      rollback and close failing, every begun session lives a proper life and sessions never
      begun have no effects; open scopes have distinct sessions. */
  lemma {:induction false} EverySessionLivesProperly(calls: seq<Call>, session: SessionNo)
    ensures Conserved(AfterAll(calls), session) && SessionsDistinct(AfterAll(calls))
  {
    if calls != [] {
      var rest, call := calls[..|calls| - 1], calls[|calls| - 1];
      EverySessionLivesProperly(rest, session);
      if call.Enter? {
        EverySessionLivesProperly(rest, AfterAll(rest).begun);
        EnterConserves(AfterAll(rest), call, session);
      } else {
        ExitConserves(AfterAll(rest), call, session);
      }
    }
  }

  function Closures(effects: seq<Effect>): nat {
    if effects == [] then 0
    else
      var last := effects[|effects| - 1];
      Closures(effects[..|effects| - 1]) + if last.Closed? && last.succeeds then 1 else 0
  }

  lemma ClosuresAppend(effects: seq<Effect>, effect: Effect)
    ensures Closures(effects + [effect]) == Closures(effects) + if effect.Closed? && effect.succeeds then 1 else 0
  {
    assert (effects + [effect])[..|effects|] == effects;
  }

  ghost predicate Balanced(s: Scopes) {
    |s.open| == s.begun - Closures(s.effects)
  }

  lemma EnterBalances(s: Scopes, call: Call)
    requires call.Enter? && Balanced(s)
    ensures Balanced(After(s, call))
  {
    var s' := After(s, call);
    ClosuresAppend(s.effects, Begun(s.begun));
    if s' != s { assert s'.open.Keys == s.open.Keys + {call.task}; }
  }

  lemma ExitCloses(s: Scopes, call: Call, mine: SessionNo)
    requires call.Exit? && call.task in s.open && mine == s.open[call.task]
    ensures Closures(After(s, call).effects) == Closures(s.effects) + if call.closes then 1 else 0
  {
    var finished, closed := Finished(mine, !call.hasError, call.finishes), Closed(mine, call.closes);
    ClosuresAppend(s.effects, finished);
    ClosuresAppend(s.effects + [finished], closed);
    assert After(s, call).effects == s.effects + [finished] + [closed];
  }

  lemma FewerOpen(open: map<TaskId, SessionNo>, task: TaskId)
    requires task in open
    ensures |open - {task}| == |open| - 1
  {
    assert (open - {task}).Keys == open.Keys - {task};
  }

  lemma ExitBalances(s: Scopes, call: Call)
    requires call.Exit? && Balanced(s)
    ensures Balanced(After(s, call))
  {
    if call.task in s.open {
      ExitCloses(s, call, s.open[call.task]);
      FewerOpen(s.open, call.task);
    }
  }

  /** Open scopes are the sessions begun minus the sessions closed. */
  lemma {:induction false} OpenIsBegunMinusClosed(calls: seq<Call>)
    ensures var s := AfterAll(calls); |s.open| == s.begun - Closures(s.effects)
  {
    if calls != [] {
      var s, call := AfterAll(calls[..|calls| - 1]), calls[|calls| - 1];
      OpenIsBegunMinusClosed(calls[..|calls| - 1]);
      if call.Enter? { EnterBalances(s, call); } else { ExitBalances(s, call); }
    }
  }

  /** A session that is over was finished by exactly one commit or rollback attempt and closed
      once, if and only if its first close attempt succeeded. */
  lemma FinishedOnceUnlessCloseFails(calls: seq<Call>, session: SessionNo)
    requires session < AfterAll(calls).begun && !IsOpen(AfterAll(calls), session)
    ensures var life := Life(AfterAll(calls).effects, session);
            |life| >= 3 && life[2].Closed? && (|life| == 3 <==> life[2].succeeds)
  {
    EverySessionLivesProperly(calls, session);
  }

  // ----- The class -----

  datatype Scope = Scope(session: SessionNo, repository: RefreshSessionRepository)

  class SQLAlchemyUnitOfWork {
    const store: Store
    var scopes: map<TaskId, Scope>
    var begun: nat
    var effects: seq<Effect>

    constructor (store: Store)
      ensures this.store == store && State() == NO_SCOPES
    {
      this.store := store;
      scopes, begun, effects := map[], 0, [];
    }

    ghost function State(): Scopes
      reads this
    {
      Scopes(map t | t in scopes :: scopes[t].session, begun, effects)
    }

    /** Opens a scope whose repository sees the committed rows and has nothing written. */
    method Enter(task: TaskId, begins: bool) returns (error: Option<Error>)
      modifies this
      ensures var call := Call.Enter(task, begins);
              State() == After(old(State()), call) && error == ErrorOf(old(State()), call)
      ensures error.None? ==>
                scopes.Keys == old(scopes).Keys + {task} && fresh(scopes[task].repository) &&
                scopes[task].repository.store == store && scopes[task].repository.writes == map[]
      ensures forall t :: t in old(scopes) ==> t in scopes && scopes[t] == old(scopes)[t]
      ensures error.Some? ==> scopes == old(scopes)
    {
      if task in scopes {
        return Some(NestedScope);
      }
      if !begins {
        return Some(BeginFailed);
      }
      var repository := new RefreshSessionRepository(store);
      scopes := scopes[task := Scope(begun, repository)];
      effects := effects + [Begun(begun)];
      begun := begun + 1;
      return None;
    }

    /** Commits or rolls back, then closes the session and the scope whatever came of that.  The
        committed rows change exactly when a commit is attempted and succeeds, and then in exactly
        the rows this transaction wrote, so what other scopes committed meanwhile is kept. */
    method Exit(task: TaskId, hasError: bool, finishes: bool, closes: bool) returns (error: Option<Error>)
      modifies this, store
      ensures var call := Call.Exit(task, hasError, finishes, closes);
              State() == After(old(State()), call) && error == ErrorOf(old(State()), call)
      ensures store.rows ==
                if task in old(scopes) && !hasError && finishes
                then old(store.rows) + old(scopes[task].repository.writes)
                else old(store.rows)
      ensures scopes == if closes then old(scopes) - {task} else old(scopes)
    {
      if task !in scopes {
        return Some(InactiveScope);
      }
      var scope := scopes[task];
      if !hasError && finishes {
        store.rows := store.rows + scope.repository.writes;
      }
      effects := effects + [Finished(scope.session, !hasError, finishes)];
      effects := effects + [Closed(scope.session, closes)];
      if !closes {
        return Some(CloseFailed);
      }
      scopes := scopes - {task};
      return if finishes then None else Some(FinishFailed);
    }
  }
}
