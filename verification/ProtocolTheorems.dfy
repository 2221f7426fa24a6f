/**
 What the protocol guarantees in every schedule: any number of tasks, any interleaving,
 any interruption, any failed signing or commit.
 */
module ProtocolTheorems {
  import opened Prelude
  import opened Sessions
  import opened Protocol

  /** The committed table is the fold of the logged events, with or without row locks.  A task's
      commit has succeeded exactly when the log holds its event, and then holds it once; a task
      that has committed has answered, unless closing its session failed. */
  lemma CommittedIsLogged(sys: System, actions: seq<Action>)
    requires Run(sys, actions).Some?
    ensures var s := Run(sys, actions).value;
            Replay(sys.rules, s.log) == Some(s.committed)
    ensures var s := Run(sys, actions).value;
            forall t :: t in s.tasks ==>
              (s.tasks[t].HasCommitted() <==> exists i :: 0 <= i < |s.log| && s.log[i].task == t)
    ensures var s := Run(sys, actions).value;
            forall t :: t in s.tasks && s.tasks[t].HasCommitted() ==>
              s.tasks[t].Complete() && Commit(t, s.tasks[t].Event()) in s.log
    ensures var s := Run(sys, actions).value;
            forall t :: t in s.tasks ==>
              (s.tasks[t].HasAnswered() <==>
                 s.tasks[t].HasCommitted() && s.tasks[t].stage.outcome != Raised(CloseFailed))
    ensures var s := Run(sys, actions).value;
            forall i, j :: 0 <= i < j < |s.log| ==> s.log[i].task != s.log[j].task
  {
    RunKeepsInv(sys, actions);
    var s := Run(sys, actions).value;
    forall t | t in s.tasks
      ensures s.tasks[t].HasCommitted() <==> exists i :: 0 <= i < |s.log| && s.log[i].task == t
      ensures s.tasks[t].HasCommitted() ==> s.tasks[t].Complete() && Commit(t, s.tasks[t].Event()) in s.log
      ensures s.tasks[t].HasAnswered() <==>
                s.tasks[t].HasCommitted() && s.tasks[t].stage.outcome != Raised(CloseFailed)
    {
      assert TaskOk(sys, s, t, s.tasks[t]);
    }
  }

  // ----- Serializability -----

  /** A use case with this request, running alone on these rows, raises nothing and does this. */
  ghost predicate Serves(sys: System, rows: Table, request: Request, event: Event) {
    match request
    case Issue(user, passwordOk, userAgent, ipAddressTrace) =>
      && event.Created?
      && var row := event.row;
      && row == NewRow(row.id, row.hash.token, user, userAgent, ipAddressTrace, row.createdAt, sys.rules.ttl)
      && IssueError(rows, sys.users, user, passwordOk, row.id, row.hash.token, true) == None
    case Refresh(token) =>
      && event.Rotated? && event.consumed == Hash(token)
      && RefreshError(rows, sys.users, token, event.replacement.token, event.checkedAt, true) == None
      && Lookup(rows, Hash(token)) == Some(event.id)
    case Revoke(token, actor) =>
      && event.Revoked? && event.presented == Hash(token) && event.actor == actor
      && RevokeError(rows, sys.users, token, actor, event.checkedAt) == None
      && Lookup(rows, Hash(token)) == Some(event.id)
  }

  /** The `i`th commit is what the use case of its task does alone on the table before it. */
  ghost predicate ServedAt(sys: System, s: State, i: nat)
    requires i < |s.log|
  {
    var before, commit := Replay(sys.rules, s.log[..i]), s.log[i];
    before.Some? && commit.task in s.tasks && Serves(sys, before.value, s.tasks[commit.task].request, commit.event)
  }

  ghost predicate IsSerial(sys: System, s: State) {
    forall i :: 0 <= i < |s.log| ==> ServedAt(sys, s, i)
  }

  lemma StoredHashesAreWritten(sys: System, s: State, hash: Hash)
    requires Replay(sys.rules, s.log) == Some(s.committed) && hash !in WrittenHashes(s.log)
    ensures forall id :: id in s.committed ==> s.committed[id].hash != hash
  {
    forall id | id in s.committed ensures s.committed[id].hash in WrittenHashes(s.log) {
      RowReflectsHistory(sys.rules, s.log, id);
    }
  }

  /** The lookup that only one row can answer. */
  lemma FoundById(rows: Table, id: SessionId)
    requires HashesDistinct(rows) && id in rows
    ensures Lookup(rows, rows[id].hash) == Some(id)
  {
  }

  /** What the lemmas for the three requests rely on. */
  ghost predicate MayCommit(sys: System, s: State, t: TaskId, task: Task) {
    PendingOk(sys, s, t, task) && AnswerOk(sys, task) && HashesDistinct(s.committed) &&
    (!task.request.Revoke? ==> forall id :: id in s.committed ==> s.committed[id].hash != Hash(task.issued.value))
  }

  lemma IssueServes(sys: System, s: State, t: TaskId, task: Task)
    requires MayCommit(sys, s, t, task) && task.request.Issue?
    ensures Serves(sys, s.committed, task.request, task.Event())
  {
  }

  lemma RefreshServes(sys: System, s: State, t: TaskId, task: Task)
    requires MayCommit(sys, s, t, task) && task.request.Refresh? && sys.rules.locking
    ensures Serves(sys, s.committed, task.request, task.Event())
  {
    var id := task.seen.value.id;
    FoundById(s.committed, id);
    assert Apply(s.committed, task.Event())[id] == task.pending.value;
  }

  lemma RevokeServes(sys: System, s: State, t: TaskId, task: Task)
    requires MayCommit(sys, s, t, task) && task.request.Revoke? && sys.rules.locking
    ensures Serves(sys, s.committed, task.request, task.Event())
  {
    FoundById(s.committed, task.seen.value.id);
  }

  lemma MayCommitWhenReady(sys: System, s: State, t: TaskId, task: Task)
    requires StoreOk(sys, s) && TaskOk(sys, s, t, task) && task.stage.Ready?
    ensures MayCommit(sys, s, t, task)
  {
    StoredHashesDistinct(sys.rules, s.log);
    if !task.request.Revoke? { StoredHashesAreWritten(sys, s, Hash(task.issued.value)); }
  }

  lemma CommitServes(sys: System, s: State, t: TaskId, closes: bool)
    requires Inv(sys, s) && Step(sys, s, Finish(t, true, closes)).Some?
    requires sys.rules.locking || s.tasks[t].request.Issue?
    ensures s.tasks[t].Complete() && Serves(sys, s.committed, s.tasks[t].request, s.tasks[t].Event())
  {
    var task := s.tasks[t];
    MayCommitWhenReady(sys, s, t, task);
    match task.request {
      case Issue(_, _, _, _) => IssueServes(sys, s, t, task);
      case Refresh(_) => RefreshServes(sys, s, t, task);
      case Revoke(_, _) => RevokeServes(sys, s, t, task);
    }
  }

  lemma RequestStays(sys: System, s: State, a: Action, s': State, t: TaskId)
    requires Inv(sys, s) && Step(sys, s, a) == Some(s') && t in s.tasks
    ensures t in s'.tasks && s'.tasks[t].request == s.tasks[t].request
  {
    if IsMove(a) && a.t == t {
      MoveKeepsTask(sys, s, a, s.tasks[t], TaskMove(sys, s, a, s.tasks[t]).value);
    }
  }

  lemma OnlyCommitsAreLogged(sys: System, s: State, a: Action, s': State)
    requires Inv(sys, s) && Step(sys, s, a) == Some(s') && s'.log != s.log
    ensures a.Finish? && a.succeeds && a.t in s.tasks && s.tasks[a.t].Complete()
    ensures s'.log == s.log + [Commit(a.t, s.tasks[a.t].Event())]
  {
  }

  lemma {:induction false} CommitsServe(sys: System, actions: seq<Action>, i: nat)
    requires Run(sys, actions).Some? && i < |Run(sys, actions).value.log|
    requires sys.rules.locking || Run(sys, actions).value.log[i].event.Created?
    ensures ServedAt(sys, Run(sys, actions).value, i)
  {
    var before, a := actions[..|actions| - 1], actions[|actions| - 1];
    var s, s' := Run(sys, before).value, Run(sys, actions).value;
    RunKeepsInv(sys, before);
    if i < |s.log| {
      if s'.log != s.log { OnlyCommitsAreLogged(sys, s, a, s'); }
      assert s'.log[..i] == s.log[..i] && s'.log[i] == s.log[i];
      CommitsServe(sys, before, i);
      RequestStays(sys, s, a, s', s.log[i].task);
    } else {
      OnlyCommitsAreLogged(sys, s, a, s');
      assert s'.log[..i] == s.log;
      CommitServes(sys, s, a.t, a.closes);
      RequestStays(sys, s, a, s', a.t);
    }
  }

  /** With row locks every schedule is serial: each commit is what the use case of its task does
      alone, without raising, on the table that the earlier commits left, and the committed table
      is the one they leave together. */
  lemma EveryScheduleIsSerial(sys: System, actions: seq<Action>)
    requires Run(sys, actions).Some? && sys.rules.locking
    ensures var s := Run(sys, actions).value;
            IsSerial(sys, s) && Replay(sys.rules, s.log) == Some(s.committed)
  {
    CommittedIsLogged(sys, actions);
    forall i | 0 <= i < |Run(sys, actions).value.log| ensures ServedAt(sys, Run(sys, actions).value, i) {
      CommitsServe(sys, actions, i);
    }
  }

  /** With row locks no rotation slips past a committed revocation: the committed history of
      every session is a creation, rotations chained by their hashes, at most one revocation,
      then nothing; and the row is revoked exactly when the history ends that way. */
  lemma EveryHistoryIsWellShaped(sys: System, actions: seq<Action>, id: SessionId)
    requires Run(sys, actions).Some? && sys.rules.locking
    ensures var s := Run(sys, actions).value;
            var history := History(s.log, id);
            WellShaped(history) && (id in s.committed <==> history != []) &&
            (id in s.committed ==>
               (s.committed[id].revokedAt.Some? <==> history[|history| - 1].Revoked?))
  {
    CommittedIsLogged(sys, actions);
    var s := Run(sys, actions).value;
    HistoryIsWellShaped(sys.rules, s.log, id);
    RowReflectsHistory(sys.rules, s.log, id);
  }

  /** With row locks a token is good for one commit: of all the tasks that hand in the same
      token, to refresh or to revoke, at most one ever commits, and so at most one answers. */
  lemma TokenAnswersOnce(sys: System, actions: seq<Action>, t: TaskId, u: TaskId)
    requires Run(sys, actions).Some? && sys.rules.locking
    requires var s := Run(sys, actions).value;
             t in s.tasks && u in s.tasks && t != u && s.tasks[t].HasCommitted() && s.tasks[u].HasCommitted() &&
             !s.tasks[t].request.Issue? && !s.tasks[u].request.Issue?
    ensures var s := Run(sys, actions).value;
            s.tasks[t].request.token != s.tasks[u].request.token
  {
    CommittedIsLogged(sys, actions);
    var s := Run(sys, actions).value;
    var i :| 0 <= i < |s.log| && s.log[i] == Commit(t, s.tasks[t].Event());
    var j :| 0 <= j < |s.log| && s.log[j] == Commit(u, s.tasks[u].Event());
    TokenAcceptedOnce(sys.rules, s.log, if i < j then i else j, if i < j then j else i);
  }

  /** Single use rests on the expected hash and the row count alone: even on a database that
      ignores locking reads, at most one refresh with a given token commits, and so at most one answers. */
  lemma RefreshAnswersOnceWithoutLocks(sys: System, actions: seq<Action>, t: TaskId, u: TaskId)
    requires Run(sys, actions).Some?
    requires var s := Run(sys, actions).value;
             t in s.tasks && u in s.tasks && t != u && s.tasks[t].HasCommitted() && s.tasks[u].HasCommitted() &&
             s.tasks[t].request.Refresh? && s.tasks[u].request.Refresh?
    ensures var s := Run(sys, actions).value;
            s.tasks[t].request.token != s.tasks[u].request.token
  {
    CommittedIsLogged(sys, actions);
    var s := Run(sys, actions).value;
    var i :| 0 <= i < |s.log| && s.log[i] == Commit(t, s.tasks[t].Event());
    var j :| 0 <= j < |s.log| && s.log[j] == Commit(u, s.tasks[u].Event());
    RotationsConsumeOnce(sys.rules, s.log, if i < j then i else j, if i < j then j else i);
  }

  /** No lost update, with or without row locks: the stored counter is the number of committed
      rotations, the stored hash is the last one written, and stored hashes are distinct. */
  lemma NoLostUpdate(sys: System, actions: seq<Action>, id: SessionId)
    requires Run(sys, actions).Some? && id in Run(sys, actions).value.committed
    ensures var s := Run(sys, actions).value;
            s.committed[id].rotationCounter == Rotations(s.log, id) &&
            CurrentHash(History(s.log, id)) == Some(s.committed[id].hash) &&
            HashesDistinct(s.committed)
  {
    CommittedIsLogged(sys, actions);
    var s := Run(sys, actions).value;
    RowReflectsHistory(sys.rules, s.log, id);
    StoredHashesDistinct(sys.rules, s.log);
  }

  /** The lifetime is absolute: it is fixed by the creation time however many rotations follow,
      every later committed use of the session passed its activity check before it ended, and
      recorded use times never go back. */
  lemma LifetimeIsFixedAtCreation(sys: System, actions: seq<Action>, id: SessionId, i: nat, j: nat)
    requires Run(sys, actions).Some? && id in Run(sys, actions).value.committed
    ensures var s := Run(sys, actions).value;
            History(s.log, id) != [] && History(s.log, id)[0].Created? &&
            s.committed[id].expiresAt == History(s.log, id)[0].row.createdAt + sys.rules.ttl
    ensures var s := Run(sys, actions).value;
            i < j < |s.log| && s.log[i].event.Session() == s.log[j].event.Session() == id &&
            !s.log[j].event.Created? ==>
              s.log[j].event.checkedAt < s.committed[id].expiresAt &&
              (s.log[i].event.Rotated? && s.log[j].event.Rotated? ==>
                 s.log[i].event.usedAt <= s.log[j].event.usedAt)
  {
    CommittedIsLogged(sys, actions);
    var s := Run(sys, actions).value;
    RowReflectsHistory(sys.rules, s.log, id);
    if i < j < |s.log| && s.log[i].event.Session() == s.log[j].event.Session() == id && !s.log[j].event.Created? {
      LifetimeIsAbsolute(sys.rules, s.log, i, j);
      FirstEventStays(s.log, j, id);
    }
  }

  lemma {:induction false} FirstEventStays(log: seq<Commit>, n: nat, id: SessionId)
    requires n <= |log| && History(log[..n], id) != []
    ensures History(log, id) != [] && History(log, id)[0] == History(log[..n], id)[0]
  {
    if n < |log| {
      assert log[..|log| - 1][..n] == log[..n];
      FirstEventStays(log[..|log| - 1], n, id);
    } else {
      assert log[..n] == log;
    }
  }

  /** A token some request would accept now. */
  ghost predicate Acceptable(s: State, token: Token) {
    exists id :: id in s.committed && s.committed[id].hash == Hash(token) && s.committed[id].IsActiveAt(s.now)
  }

  /** Each active session has exactly one acceptable token, the last one a committed step
      issued for it; and a token issued by a task that has not committed is not acceptable,
      whether the task is still running, was rolled back or failed to commit. */
  lemma AcceptableTokens(sys: System, actions: seq<Action>, token: Token)
    requires Run(sys, actions).Some?
    ensures var s := Run(sys, actions).value;
            Acceptable(s, token) <==>
            exists id :: id in s.committed && s.committed[id].IsActiveAt(s.now) &&
                         CurrentHash(History(s.log, id)) == Some(Hash(token))
    ensures var s := Run(sys, actions).value;
            forall a, b :: a in s.committed && b in s.committed && a != b ==>
              CurrentHash(History(s.log, a)) != CurrentHash(History(s.log, b))
    ensures var s := Run(sys, actions).value;
            forall t :: t in s.tasks && s.tasks[t].issued == Some(token) && !s.tasks[t].HasCommitted() ==>
              !Acceptable(s, token)
  {
    RunKeepsInv(sys, actions);
    var s := Run(sys, actions).value;
    forall id | id in s.committed
      ensures CurrentHash(History(s.log, id)) == Some(s.committed[id].hash)
      ensures s.committed[id].hash in WrittenHashes(s.log)
    {
      RowReflectsHistory(sys.rules, s.log, id);
    }
    StoredHashesDistinct(sys.rules, s.log);
  }

  /** An answer implies durability: at the step in which issue or refresh answers with a token,
      the committed table holds exactly one session with that token's hash, unrevoked when
      locks are honoured, and its user is active. */
  lemma AnswerIsDurable(sys: System, actions: seq<Action>, a: Action, t: TaskId)
    requires Run(sys, actions + [a]).Some? && Run(sys, actions).Some?
    requires t in Run(sys, actions + [a]).value.tasks
    requires var s, s' := Run(sys, actions).value, Run(sys, actions + [a]).value;
             !s'.tasks[t].request.Revoke? && s'.tasks[t].HasAnswered() &&
             (t in s.tasks ==> !s.tasks[t].HasAnswered())
    ensures var s' := Run(sys, actions + [a]).value;
            s'.tasks[t].stage.outcome.refreshToken.Some? &&
            exists id :: id in s'.committed &&
              s'.committed[id].hash == Hash(s'.tasks[t].stage.outcome.refreshToken.value) &&
              s'.committed[id].user in sys.users && sys.users[s'.committed[id].user] &&
              (sys.rules.locking ==> s'.committed[id].revokedAt.None?)
  {
    assert (actions + [a])[..|actions|] == actions;
    RunKeepsInv(sys, actions);
    var s := Run(sys, actions).value;
    var s' := Run(sys, actions + [a]).value;
    assert Step(sys, s, a) == Some(s');
    OnlyCommitAnswers(sys, s, a, s', t);
    assert TaskOk(sys, s, t, s.tasks[t]);
    var id := s.tasks[t].pending.value.id;
    assert s'.committed[id].hash == Hash(s.tasks[t].issued.value);
  }

  lemma OnlyCommitAnswers(sys: System, s: State, a: Action, s': State, t: TaskId)
    requires Inv(sys, s) && Step(sys, s, a) == Some(s') && t in s'.tasks && s'.tasks[t].HasAnswered()
    requires t in s.tasks ==> !s.tasks[t].HasAnswered()
    ensures a == Finish(t, true, true)
  {
    if IsMove(a) && a.t == t {
      MoveKeepsTask(sys, s, a, s.tasks[t], TaskMove(sys, s, a, s.tasks[t]).value);
    }
  }

  // ----- What raising leaves behind -----

  lemma {:induction false} PrefixRuns(sys: System, actions: seq<Action>, n: nat)
    requires Run(sys, actions).Some? && n <= |actions|
    ensures Run(sys, actions[..n]).Some?
  {
    if n < |actions| {
      assert actions[..|actions| - 1][..n] == actions[..n];
      PrefixRuns(sys, actions[..|actions| - 1], n);
    } else {
      assert actions[..n] == actions;
    }
  }

  /** The state before the `n`th action, and the one after it. */
  lemma StepOf(sys: System, actions: seq<Action>, n: nat) returns (s: State, s': State)
    requires Run(sys, actions).Some? && n < |actions|
    ensures Run(sys, actions[..n]) == Some(s) && Run(sys, actions[..n + 1]) == Some(s')
    ensures Step(sys, s, actions[n]) == Some(s') && Inv(sys, s)
  {
    PrefixRuns(sys, actions, n);
    PrefixRuns(sys, actions, n + 1);
    assert actions[..n + 1][..n] == actions[..n];
    RunKeepsInv(sys, actions[..n]);
    s, s' := Run(sys, actions[..n]).value, Run(sys, actions[..n + 1]).value;
  }

  lemma DoneIsLeft(sys: System, s: State, a: Action, s': State, t: TaskId)
    requires Step(sys, s, a) == Some(s') && t in s.tasks && s.tasks[t].stage.Done?
    ensures t in s'.tasks && s'.tasks[t] == s.tasks[t]
  {
  }

  lemma StepCommits(sys: System, s: State, a: Action, s': State, t: TaskId)
    requires Inv(sys, s) && Step(sys, s, a) == Some(s') && t in s'.tasks && s'.tasks[t].HasCommitted()
    requires t in s.tasks ==> !s.tasks[t].HasCommitted()
    ensures a == Finish(t, true, s'.tasks[t].HasAnswered())
  {
    if IsMove(a) && a.t == t {
      MoveKeepsTask(sys, s, a, s.tasks[t], TaskMove(sys, s, a, s.tasks[t]).value);
    }
  }

  lemma StepChanges(sys: System, s: State, a: Action, s': State)
    requires Inv(sys, s) && Step(sys, s, a) == Some(s') && s'.committed != s.committed
    ensures !a.Tick? && a.t in s'.tasks && s'.tasks[a.t].stage.Done?
    ensures a == Finish(a.t, true, s'.tasks[a.t].HasAnswered())
  {
  }

  lemma {:induction false} DoneStays(sys: System, actions: seq<Action>, n: nat, t: TaskId)
    requires Run(sys, actions).Some? && n <= |actions| && Run(sys, actions[..n]).Some?
    requires t in Run(sys, actions[..n]).value.tasks && Run(sys, actions[..n]).value.tasks[t].stage.Done?
    ensures t in Run(sys, actions).value.tasks
    ensures Run(sys, actions).value.tasks[t] == Run(sys, actions[..n]).value.tasks[t]
  {
    if n < |actions| {
      var before := actions[..|actions| - 1];
      assert before[..n] == actions[..n];
      DoneStays(sys, before, n, t);
      DoneIsLeft(sys, Run(sys, before).value, actions[|actions| - 1], Run(sys, actions).value, t);
    } else {
      assert actions[..n] == actions;
    }
  }

  /** The action by which the task committed. */
  lemma {:induction false} CommitOf(sys: System, actions: seq<Action>, t: TaskId) returns (n: nat)
    requires Run(sys, actions).Some? && t in Run(sys, actions).value.tasks
    requires Run(sys, actions).value.tasks[t].HasCommitted()
    ensures n < |actions| && actions[n] == Finish(t, true, Run(sys, actions).value.tasks[t].HasAnswered())
  {
    var before, a := actions[..|actions| - 1], actions[|actions| - 1];
    var s, s' := Run(sys, before).value, Run(sys, actions).value;
    RunKeepsInv(sys, before);
    if t in s.tasks && s.tasks[t].HasCommitted() {
      n := CommitOf(sys, before, t);
      DoneIsLeft(sys, s, a, s', t);
    } else {
      StepCommits(sys, s, a, s', t);
      n := |actions| - 1;
    }
  }

  /** Some action of the task changed the committed table. */
  ghost predicate ChangedTable(sys: System, actions: seq<Action>, t: TaskId) {
    exists n :: 0 <= n < |actions| && ChangesAt(sys, actions, n) && !actions[n].Tick? && actions[n].t == t
  }

  ghost predicate ChangesAt(sys: System, actions: seq<Action>, n: nat)
    requires n < |actions|
  {
    var before, after := Run(sys, actions[..n]), Run(sys, actions[..n + 1]);
    before.Some? && after.Some? && before.value.committed != after.value.committed
  }

  lemma ChangeIsCommit(sys: System, actions: seq<Action>, n: nat, t: TaskId)
    requires Run(sys, actions).Some? && n < |actions| && ChangesAt(sys, actions, n)
    requires !actions[n].Tick? && actions[n].t == t
    ensures t in Run(sys, actions).value.tasks
    ensures actions[n] == Finish(t, true, Run(sys, actions).value.tasks[t].HasAnswered())
  {
    var s, s' := StepOf(sys, actions, n);
    StepChanges(sys, s, actions[n], s');
    DoneStays(sys, actions, n + 1, t);
  }

  lemma CommitChanges(sys: System, actions: seq<Action>, n: nat, t: TaskId, closes: bool)
    requires Run(sys, actions).Some? && n < |actions| && actions[n] == Finish(t, true, closes)
    ensures sys.rules.locking ==> ChangesAt(sys, actions, n)
    ensures var s := Run(sys, actions).value;
            t in s.tasks && s.tasks[t].HasCommitted() && (s.tasks[t].HasAnswered() <==> closes)
  {
    var s, s' := StepOf(sys, actions, n);
    CommitEffect(sys, s, t, closes, s');
    if sys.rules.locking { LegalChanges(sys.rules, s.committed, s.tasks[t].Event()); }
    DoneStays(sys, actions, n + 1, t);
  }

  /** A task that has not answered, be it for an invalid token, an inactive user, failed signing or
      a failed commit, leaves the table and the log as if it had never run, with one exception: it
      is in the log if and only if its commit succeeded and closing its session failed afterwards,
      and under row locks then and only then an action of it has changed the table. */
  lemma RaisingLeavesATraceIff(sys: System, actions: seq<Action>, t: TaskId)
    requires Run(sys, actions).Some? && t in Run(sys, actions).value.tasks
    requires !Run(sys, actions).value.tasks[t].HasAnswered()
    ensures (exists i :: 0 <= i < |Run(sys, actions).value.log| && Run(sys, actions).value.log[i].task == t) <==>
            Finish(t, true, false) in actions
    ensures ChangedTable(sys, actions, t) ==> Finish(t, true, false) in actions
    ensures sys.rules.locking && Finish(t, true, false) in actions ==> ChangedTable(sys, actions, t)
  {
    CommittedIsLogged(sys, actions);
    if Run(sys, actions).value.tasks[t].HasCommitted() {
      var n := CommitOf(sys, actions, t);
    }
    if Finish(t, true, false) in actions {
      var n :| 0 <= n < |actions| && actions[n] == Finish(t, true, false);
      CommitChanges(sys, actions, n, t, false);
    }
    if ChangedTable(sys, actions, t) {
      var n :| 0 <= n < |actions| && ChangesAt(sys, actions, n) && !actions[n].Tick? && actions[n].t == t;
      ChangeIsCommit(sys, actions, n, t);
    }
  }

  // ----- What a commit does -----

  /** The transaction of this request leaves this row, and the table is otherwise as it was. */
  ghost predicate Leaves(sys: System, before: Table, request: Request, row: Row, after: Table) {
    && after == before[row.id := row]
    && match request
       case Issue(user, passwordOk, userAgent, ipAddressTrace) =>
         && user in sys.users && sys.users[user] && passwordOk && row.id !in before
         && row == Row(row.id, row.hash, user, userAgent,
                       if ipAddressTrace.Some? then ipAddressTrace.value else "",
                       row.createdAt, None, row.createdAt + sys.rules.ttl, None, 0)
       case Refresh(token) =>
         && row.user in sys.users && sys.users[row.user] && row.id in before && before[row.id].hash == Hash(token)
         && (sys.rules.locking ==> row.revokedAt.None?) && row.lastUsedAt.Some?
         && row == before[row.id].(hash := row.hash, lastUsedAt := row.lastUsedAt,
                                   rotationCounter := before[row.id].rotationCounter + 1)
       case Revoke(token, actor) =>
         && actor in sys.users && sys.users[actor] && row.id in before && row.user == actor
         && (sys.rules.locking ==> before[row.id].revokedAt.None? && row.hash == Hash(token))
         && row.revokedAt.Some? && row == before[row.id].(revokedAt := row.revokedAt)
  }

  lemma CommitLeaves(sys: System, s: State, t: TaskId, closes: bool, s': State)
    requires Inv(sys, s) && Step(sys, s, Finish(t, true, closes)) == Some(s')
    ensures s.tasks[t].pending.Some?
    ensures Leaves(sys, s.committed, s.tasks[t].request, s.tasks[t].pending.value, s'.committed)
    ensures s'.tasks[t].pending == s.tasks[t].pending && s'.tasks[t].request == s.tasks[t].request
    ensures !s.tasks[t].request.Revoke? ==> s.tasks[t].issued == Some(s.tasks[t].pending.value.hash.token)
    ensures s'.tasks[t].stage == Done(if closes then Answered(s.tasks[t].issued) else Raised(CloseFailed))
  {
    var task := s.tasks[t];
    assert TaskOk(sys, s, t, task);
    assert Apply(s.committed, task.Event())[task.pending.value.id] == task.pending.value;
  }

  /** Whatever a task has committed, it did so in one step: with the account of its user there and not
      deactivated, issuing inserts one row of the request's data, refreshing replaces the hash of the
      row that has the token and counts it, and revoking sets the time on a row of the actor; nothing
      else in the table changes, and an answer carries the token of the row. */
  lemma CommitMeans(sys: System, actions: seq<Action>, t: TaskId) returns (n: nat, row: Row)
    requires Run(sys, actions).Some? && t in Run(sys, actions).value.tasks
    requires Run(sys, actions).value.tasks[t].HasCommitted()
    ensures n < |actions| && actions[n].Finish? && actions[n].t == t
    ensures Run(sys, actions[..n]).Some? && Run(sys, actions[..n + 1]).Some?
    ensures var task := Run(sys, actions).value.tasks[t];
            Leaves(sys, Run(sys, actions[..n]).value.committed, task.request, row,
                   Run(sys, actions[..n + 1]).value.committed) &&
            (task.HasAnswered() && !task.request.Revoke? ==>
               task.stage.outcome.refreshToken == Some(row.hash.token))
  {
    n := CommitOf(sys, actions, t);
    var s, s' := StepOf(sys, actions, n);
    CommitLeaves(sys, s, t, actions[n].closes, s');
    row := s.tasks[t].pending.value;
    DoneStays(sys, actions, n + 1, t);
  }

  /** Whose account must be there and not deactivated: the user who logs in, the actor who revokes, and
      for a refresh the owner of whatever session has the token at some moment. */
  ghost predicate MayServe(sys: System, actions: seq<Action>, request: Request, user: UserId) {
    match request
    case Issue(u, _, _, _) => user == u
    case Revoke(_, actor) => user == actor
    case Refresh(token) =>
      exists n: nat, id ::
        n <= |actions| && Run(sys, actions[..n]).Some? && id in Run(sys, actions[..n]).value.committed &&
        Run(sys, actions[..n]).value.committed[id].hash == Hash(token) &&
        Run(sys, actions[..n]).value.committed[id].user == user
  }

  /** A task for a missing or deactivated account never commits and never answers, it is not in the log,
      and no action of it changes the table. */
  lemma DeactivatedIsRefused(sys: System, actions: seq<Action>, t: TaskId)
    requires Run(sys, actions).Some? && t in Run(sys, actions).value.tasks
    requires forall user: UserId :: MayServe(sys, actions, Run(sys, actions).value.tasks[t].request, user) ==>
                                      !(user in sys.users && sys.users[user])
    ensures var s := Run(sys, actions).value;
            !s.tasks[t].HasAnswered() && (forall i :: 0 <= i < |s.log| ==> s.log[i].task != t) &&
            !ChangedTable(sys, actions, t)
  {
    var s := Run(sys, actions).value;
    CommittedIsLogged(sys, actions);
    if s.tasks[t].HasCommitted() {
      var n, row := CommitMeans(sys, actions, t);
      assert MayServe(sys, actions, s.tasks[t].request, row.user);
    }
    RaisingLeavesATraceIff(sys, actions, t);
  }

  // ----- Progress -----

  /** Some action of the task itself, other than being interrupted, is possible. */
  ghost predicate CanAdvance(sys: System, s: State, t: TaskId) {
    exists a: Action :: !a.Tick? && !a.Interrupt? && a.t == t && Step(sys, s, a).Some?
  }

  lemma FreshToken(tokens: set<Token>) returns (token: Token)
    ensures token !in tokens
  {
    token := 0;
    var rest := tokens;
    while exists x :: x in rest && x >= token
      invariant forall x :: x in tokens && x >= token ==> x in rest
      decreases rest
    {
      var x :| x in rest && x >= token;
      token := x + 1;
      rest := rest - {x};
    }
  }

  /** The action the task's own code asks for next: it is possible unless the task waits for a
      row lock of another task, and then the task holds no lock itself. */
  lemma NextAction(sys: System, s: State, t: TaskId) returns (a: Action)
    requires LocksOk(s) && t in s.tasks && TaskOk(sys, s, t, s.tasks[t]) && !s.tasks[t].stage.Done?
    ensures !a.Tick? && !a.Interrupt? && a.t == t
    ensures Step(sys, s, a).None? ==>
              (exists id :: id in s.locks && s.locks[id] != t) && forall id :: id in s.locks ==> s.locks[id] != t
  {
    var task := s.tasks[t];
    var token := FreshToken(s.tokens);
    var id := FreshToken(s.ids);
    var found := if task.request.Issue? then None else Lookup(s.committed, Hash(task.request.token));
    a := match task.stage
      case Entered => if task.request.Refresh? then Load(t, found) else LoadUser(t)
      case UserLoaded => if task.request.Issue? then Create(t, token, id) else Load(t, found)
      case Loaded => CheckActive(t)
      case Checked => Stamp(t, token)
      case Stamped => Write(t)
      case Written => Answer(t, true)
      case Ready => Finish(t, true, true)
      case _ => RollBack(t, true, true);
  }

  /** No deadlock: in every reachable state, a task that is not done can take a step, or it
      waits for a row lock whose holder can. */
  lemma NoDeadlock(sys: System, actions: seq<Action>, t: TaskId)
    requires Run(sys, actions).Some? && t in Run(sys, actions).value.tasks
    requires !Run(sys, actions).value.tasks[t].stage.Done?
    ensures var s := Run(sys, actions).value;
            CanAdvance(sys, s, t) ||
            exists id :: id in s.locks && s.locks[id] != t && CanAdvance(sys, s, s.locks[id])
  {
    RunKeepsInv(sys, actions);
    var s := Run(sys, actions).value;
    assert TaskOk(sys, s, t, s.tasks[t]);
    var a := NextAction(sys, s, t);
    if Step(sys, s, a).None? {
      var id :| id in s.locks && s.locks[id] != t;
      assert TaskOk(sys, s, s.locks[id], s.tasks[s.locks[id]]);
      var b := NextAction(sys, s, s.locks[id]);
    }
  }
}
