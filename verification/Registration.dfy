/**
 Racing registrations: any number of tasks, each of which looks for a clash and then inserts an
 account in one transaction, a statement at a time.

 The database has a unique index on the username and one on the email. An insert that clashes with
 a committed row fails; one that clashes with a row another transaction has inserted but not
 finished waits for it. Identities are compared as normalized; statements and commits may fail.
 */
module Registration {
  import opened Prelude
  import opened Text
  import opened QuotedText

  type TaskId = nat

  /** A registration after normalization, with the password hashed. */
  datatype Data = Data(username: string, email: string, firstName: string, lastName: string, passwordHash: string)

  datatype User = User(username: string, email: string, firstName: string, lastName: string, passwordHash: string,
                       isActive: bool, isStaff: bool, isSuperuser: bool)

  function PersistUserData(data: Data): User {
    User(data.username, data.email, data.firstName, data.lastName, data.passwordHash, true, false, false)
  }

  /** Same username or same email. */
  predicate Clash(a: User, b: User) {
    a.username == b.username || a.email == b.email
  }

  // ----- The machine -----

  datatype Error = UserAlreadyExists | StoreFailed

  datatype Stage = Entered | NoneFound | Inserted | Failing(error: Error) | Registered | Raised(error: Error)

  datatype Task = Task(data: Data, stage: Stage) {
    function User(): User {
      PersistUserData(data)
    }

    predicate InProgress() {
      stage.Entered? || stage.NoneFound? || stage.Inserted?
    }

    predicate IsDone() {
      stage.Registered? || stage.Raised?
    }

    predicate HasLost() {
      stage == Failing(UserAlreadyExists) || stage == Raised(UserAlreadyExists)
    }
  }

  datatype Row = Row(task: TaskId, user: User)

  datatype State = State(committed: seq<Row>, tasks: map<TaskId, Task>) {
    predicate ClashesWithCommitted(user: User) {
      exists k :: 0 <= k < |committed| && Clash(committed[k].user, user)
    }

    /** Another transaction holds an entry of a unique index that the insert needs. */
    predicate MustWait(t: TaskId)
      requires t in tasks
    {
      exists other ::
        other in tasks && other != t && tasks[other].stage.Inserted? &&
        Clash(tasks[other].User(), tasks[t].User())
    }

    function Put(t: TaskId, stage: Stage): State
      requires t in tasks
    {
      this.(tasks := tasks[t := tasks[t].(stage := stage)])
    }
  }

  const START := State([], map[])

  datatype Action =
    | Arrive(t: TaskId, data: Data)
    | LookUp(t: TaskId)
    | Insert(t: TaskId)
    | Commit(t: TaskId)
    | CommitFails(t: TaskId)
    | Interrupt(t: TaskId)
    | Rollback(t: TaskId)

  predicate Enabled(s: State, a: Action) {
    match a
    case Arrive(t, data) => t !in s.tasks
    case LookUp(t) => t in s.tasks && s.tasks[t].stage.Entered?
    case Insert(t) => t in s.tasks && s.tasks[t].stage.NoneFound? && !s.MustWait(t)
    case Commit(t) => t in s.tasks && s.tasks[t].stage.Inserted?
    case CommitFails(t) => t in s.tasks && s.tasks[t].stage.Inserted?
    case Interrupt(t) => t in s.tasks && s.tasks[t].InProgress()
    case Rollback(t) => t in s.tasks && s.tasks[t].stage.Failing?
  }

  function Next(s: State, a: Action): State
    requires Enabled(s, a)
  {
    match a
    case Arrive(t, data) => s.(tasks := s.tasks[t := Task(data, Entered)])
    case LookUp(t) =>
      if s.ClashesWithCommitted(s.tasks[t].User()) then s.Put(t, Failing(UserAlreadyExists)) else s.Put(t, NoneFound)
    case Insert(t) =>
      if s.ClashesWithCommitted(s.tasks[t].User()) then s.Put(t, Failing(UserAlreadyExists)) else s.Put(t, Inserted)
    case Commit(t) => s.Put(t, Registered).(committed := s.committed + [Row(t, s.tasks[t].User())])
    case CommitFails(t) => s.Put(t, Raised(StoreFailed))
    case Interrupt(t) => s.Put(t, Failing(StoreFailed))
    case Rollback(t) => s.Put(t, Raised(s.tasks[t].stage.error))
  }

  /** Where a schedule leads; actions that are not enabled are passed over. */
  function Run(actions: seq<Action>): State {
    if actions == [] then START
    else
      var s, a := Run(actions[..|actions| - 1]), actions[|actions| - 1];
      if Enabled(s, a) then Next(s, a) else s
  }

  // ----- The invariant -----

  ghost predicate RowsDistinct(s: State) {
    forall i, j :: 0 <= i < j < |s.committed| ==>
      !Clash(s.committed[i].user, s.committed[j].user) && s.committed[i].task != s.committed[j].task
  }

  /** Every row is the account of a task that was answered. */
  ghost predicate RowsRegistered(s: State) {
    forall k :: 0 <= k < |s.committed| ==>
      var row := s.committed[k];
      row.task in s.tasks && s.tasks[row.task].stage.Registered? && row.user == s.tasks[row.task].User()
  }

  ghost predicate HasRow(s: State, t: TaskId) {
    exists k :: 0 <= k < |s.committed| && s.committed[k].task == t
  }

  ghost predicate RegisteredHaveRows(s: State) {
    forall t :: t in s.tasks && s.tasks[t].stage.Registered? ==> HasRow(s, t)
  }

  /** Pending rows clash with no committed row and not with each other. */
  ghost predicate PendingDistinct(s: State) {
    forall t :: t in s.tasks && s.tasks[t].stage.Inserted? ==>
      !s.ClashesWithCommitted(s.tasks[t].User()) && !s.MustWait(t)
  }

  ghost predicate LosersClash(s: State) {
    forall t :: t in s.tasks && s.tasks[t].HasLost() ==> s.ClashesWithCommitted(s.tasks[t].User())
  }

  ghost predicate Inv(s: State) {
    RowsDistinct(s) && RowsRegistered(s) && RegisteredHaveRows(s) && PendingDistinct(s) && LosersClash(s)
  }

  lemma CommittedOnlyGrows(s: State, a: Action, user: User)
    requires Enabled(s, a) && s.ClashesWithCommitted(user)
    ensures Next(s, a).ClashesWithCommitted(user)
  {
    var k :| 0 <= k < |s.committed| && Clash(s.committed[k].user, user);
    assert Next(s, a).committed[k] == s.committed[k];
  }

  lemma CommitKeepsInv(s: State, t: TaskId)
    requires Inv(s) && Enabled(s, Commit(t))
    ensures Inv(Next(s, Commit(t)))
  {
    var next := Next(s, Commit(t));
    var user, n := s.tasks[t].User(), |s.committed|;
    assert next.committed[n] == Row(t, user);
    forall i | 0 <= i < n ensures !Clash(next.committed[i].user, user) && next.committed[i].task != t {
      assert next.committed[i] == s.committed[i];
      assert s.tasks[s.committed[i].task].stage.Registered?;
    }
    assert RowsDistinct(next);
    forall other | other in next.tasks && next.tasks[other].stage.Registered? ensures HasRow(next, other) {
      if other != t {
        assert HasRow(s, other);
        var k :| 0 <= k < n && s.committed[k].task == other;
        assert next.committed[k].task == other;
      }
    }
    forall other | other in next.tasks && next.tasks[other].stage.Inserted?
      ensures !next.ClashesWithCommitted(next.tasks[other].User()) && !next.MustWait(other)
    {
      assert !s.MustWait(other) && !s.ClashesWithCommitted(s.tasks[other].User());
      forall k | 0 <= k < |next.committed| ensures !Clash(next.committed[k].user, next.tasks[other].User()) {
        assert k < n ==> next.committed[k] == s.committed[k];
      }
    }
    forall other | other in next.tasks && next.tasks[other].HasLost()
      ensures next.ClashesWithCommitted(next.tasks[other].User())
    {
      CommittedOnlyGrows(s, Commit(t), s.tasks[other].User());
    }
  }

  lemma OtherKeepsInv(s: State, a: Action)
    requires Inv(s) && Enabled(s, a) && !a.Commit?
    ensures Inv(Next(s, a))
  {
    var next := Next(s, a);
    assert next.committed == s.committed;
    forall t | t in next.tasks && next.tasks[t].stage.Registered? ensures HasRow(next, t) { assert HasRow(s, t); }
    forall t | t in next.tasks && next.tasks[t].stage.Inserted?
      ensures !next.ClashesWithCommitted(next.tasks[t].User()) && !next.MustWait(t)
    {
      if t in s.tasks && s.tasks[t].stage.Inserted? { assert !s.MustWait(t); }
    }
  }

  lemma {:induction false} RunKeepsInv(actions: seq<Action>)
    ensures Inv(Run(actions))
  {
    if actions != [] {
      var s, a := Run(actions[..|actions| - 1]), actions[|actions| - 1];
      RunKeepsInv(actions[..|actions| - 1]);
      if Enabled(s, a) {
        if a.Commit? { CommitKeepsInv(s, a.t); } else { OtherKeepsInv(s, a); }
      }
    }
  }

  // ----- Over every schedule -----

  /** At most one registration commits per username and per email, and every committed account is
      that of one registered task: active, without staff or superuser rights. */
  lemma RegistrationsAreUnique(actions: seq<Action>)
    ensures var s := Run(actions);
            && (forall i, j :: 0 <= i < j < |s.committed| ==>
                  s.committed[i].user.username != s.committed[j].user.username &&
                  s.committed[i].user.email != s.committed[j].user.email &&
                  s.committed[i].task != s.committed[j].task)
            && (forall k :: 0 <= k < |s.committed| ==>
                  var row := s.committed[k];
                  row.task in s.tasks && s.tasks[row.task].stage.Registered? &&
                  var data := s.tasks[row.task].data;
                  row.user == User(data.username, data.email, data.firstName, data.lastName, data.passwordHash,
                                   true, false, false))
  {
    RunKeepsInv(actions);
  }

  /** The data of a task are those it arrived with. */
  lemma {:induction false} TaskArrived(actions: seq<Action>, t: TaskId) returns (n: nat)
    requires t in Run(actions).tasks
    ensures n < |actions| && actions[n] == Arrive(t, Run(actions).tasks[t].data)
  {
    var before, a := actions[..|actions| - 1], actions[|actions| - 1];
    if t in Run(before).tasks {
      n := TaskArrived(before, t);
    } else {
      n := |before|;
    }
  }

  /** A task has a row exactly when it was answered; any other task leaves none. */
  lemma RowsAreAnswers(actions: seq<Action>, t: TaskId)
    ensures var s := Run(actions);
            HasRow(s, t) <==> t in s.tasks && s.tasks[t].stage.Registered?
  {
    RunKeepsInv(actions);
  }

  /** The committed account that this task clashes with. */
  ghost predicate Winner(s: State, t: TaskId, winner: TaskId)
    requires t in s.tasks
  {
    winner != t && winner in s.tasks && s.tasks[winner].stage.Registered? &&
    Clash(s.tasks[winner].User(), s.tasks[t].User())
  }

  /** A task that ends without failing of the store is registered exactly when no registered task
      clashes with it; otherwise it ends with user-already-exists. */
  lemma ExactlyTheWinnersRegister(actions: seq<Action>, t: TaskId)
    requires var s := Run(actions); t in s.tasks && s.tasks[t].IsDone() && s.tasks[t].stage != Raised(StoreFailed)
    ensures var s := Run(actions);
            && (s.tasks[t].stage.Registered? <==> !exists winner :: Winner(s, t, winner))
            && (s.tasks[t].stage == Raised(UserAlreadyExists) <==> exists winner :: Winner(s, t, winner))
  {
    var s := Run(actions);
    RunKeepsInv(actions);
    if s.tasks[t].stage.Registered? {
      assert HasRow(s, t);
      var k :| 0 <= k < |s.committed| && s.committed[k].task == t;
      forall winner ensures !Winner(s, t, winner) {
        if winner != t && winner in s.tasks && s.tasks[winner].stage.Registered? {
          assert HasRow(s, winner);
          var j :| 0 <= j < |s.committed| && s.committed[j].task == winner;
          assert !Clash(s.committed[k].user, s.committed[j].user);
        }
      }
    } else {
      var error := s.tasks[t].stage.error;
      assert error.UserAlreadyExists?;
      assert s.ClashesWithCommitted(s.tasks[t].User());
      var k :| 0 <= k < |s.committed| && Clash(s.committed[k].user, s.tasks[t].User());
      assert Winner(s, t, s.committed[k].task);
    }
  }

  /** Committed accounts stay, in order. */
  lemma {:induction false} AccountsStay(actions: seq<Action>, n: nat)
    requires n <= |actions|
    ensures Run(actions[..n]).committed <= Run(actions).committed
  {
    if n < |actions| {
      AccountsStay(actions[..|actions| - 1], n);
      assert actions[..|actions| - 1][..n] == actions[..n];
    } else {
      assert actions[..n] == actions;
    }
  }

  /** While a task is unfinished, some task can take its next step without failing or being
      interrupted: inserts that wait for each other cannot block all of them. */
  lemma SomeoneProceeds(s: State, t: TaskId) returns (a: Action)
    requires t in s.tasks && !s.tasks[t].IsDone()
    ensures Enabled(s, a) && !a.Arrive? && !a.CommitFails? && !a.Interrupt?
  {
    match s.tasks[t].stage
    case Entered => a := LookUp(t);
    case NoneFound =>
      if s.MustWait(t) {
        var other :| other in s.tasks && other != t && s.tasks[other].stage.Inserted? &&
            Clash(s.tasks[other].User(), s.tasks[t].User());
        a := Commit(other);
      } else {
        a := Insert(t);
      }
    case Inserted => a := Commit(t);
    case Failing(_) => a := Rollback(t);
    case Registered => assert false; a := Commit(t);
    case Raised(_) => assert false; a := Commit(t);
  }

  // ----- The use case -----

  datatype IntegrityError = IntegrityError(constraintName: Option<string>, message: string)

  datatype Column = Username | Email {
    function Name(): string {
      if Username? then "username" else "email"
    }

    function Of(user: User): string {
      if Username? then user.username else user.email
    }
  }

  /** The error names the unique index on this column, as PostgreSQL or as SQLite does. */
  predicate Reports(error: IntegrityError, column: Column) {
    error.constraintName == Some("uq_users_" + column.Name()) ||
    Contains(LowerCase(error.message), "unique constraint failed: users." + column.Name())
  }

  predicate IsDuplicateUserError(error: IntegrityError) {
    Reports(error, Email) || Reports(error, Username)
  }

  /** Nothing but these names of constraints, and these messages in any case, report a duplicate. */
  lemma DuplicateMeans(error: IntegrityError)
    ensures IsDuplicateUserError(error) <==>
            || error.constraintName == Some("uq_users_email") || error.constraintName == Some("uq_users_username")
            || Contains(LowerCase(error.message), "unique constraint failed: users.email")
            || Contains(LowerCase(error.message), "unique constraint failed: users.username")
  {
    assert "uq_users_" + Email.Name() == "uq_users_email" && "uq_users_" + Username.Name() == "uq_users_username";
    assert "unique constraint failed: users." + Email.Name() == "unique constraint failed: users.email";
    assert "unique constraint failed: users." + Username.Name() == "unique constraint failed: users.username";
  }

  datatype RepositoryError = UserRepositoryConflict | Integrity(error: IntegrityError)

  datatype UseCaseError = AlreadyExists | StoreError(error: IntegrityError)

  ghost predicate ClashIn(rows: seq<User>, user: User) {
    exists u :: u in rows && Clash(u, user)
  }

  /** What the database may answer to an insert: it refuses whatever breaks a unique index, and
      reports a duplicate only of a column in which there is one.  It may refuse for other reasons. */
  ghost predicate IsAnswer(rows: seq<User>, user: User, answer: Option<IntegrityError>) {
    match answer
    case None => !ClashIn(rows, user)
    case Some(error) =>
      forall column :: Reports(error, column) ==> exists u :: u in rows && column.Of(u) == column.Of(user)
  }

  lemma DuplicatesClash(rows: seq<User>, user: User, error: IntegrityError)
    requires IsAnswer(rows, user, Some(error)) && IsDuplicateUserError(error)
    ensures ClashIn(rows, user)
  {
    var column := if Reports(error, Email) then Email else Username;
    var u :| u in rows && column.Of(u) == column.Of(user);
    assert Clash(u, user);
  }

  /** The repository bound to one transaction; `rows` are the accounts that transaction sees. */
  class SQLAlchemyUserRepository {
    var rows: seq<User>

    constructor (rows: seq<User>)
      ensures this.rows == rows
    {
      this.rows := rows;
    }

    /** The first account with this username or this email. */
    method GetByUsernameOrEmail(username: string, email: string) returns (user: Option<User>)
      ensures match user
              case Some(u) => u in rows && (u.username == username || u.email == email)
              case None => forall u :: u in rows ==> u.username != username && u.email != email
    {
      for n := 0 to |rows|
        invariant forall k :: 0 <= k < n ==> rows[k].username != username && rows[k].email != email
      {
        if rows[n].username == username || rows[n].email == email {
          return Some(rows[n]);
        }
      }
      return None;
    }

    /** Inserts the account unless the database refuses.  By now others have committed the accounts
        `arrived`.  A conflict is only reported when a row clashes, and nothing is inserted then. */
    method Create(user: User, arrived: seq<User>, answer: Option<IntegrityError>)
      returns (result: Result<User, RepositoryError>)
      requires IsAnswer(rows + arrived, user, answer)
      modifies this
      ensures match result
              case Success(created) =>
                created == user && answer.None? && rows == old(rows) + arrived + [user] &&
                !ClashIn(old(rows) + arrived, user)
              case Failure(error) =>
                rows == old(rows) + arrived && answer.Some? &&
                if error.UserRepositoryConflict? then
                  IsDuplicateUserError(answer.value) && ClashIn(old(rows) + arrived, user)
                else !IsDuplicateUserError(answer.value) && error.error == answer.value
    {
      rows := rows + arrived;
      if answer.Some? {
        if !IsDuplicateUserError(answer.value) {
          return Failure(Integrity(answer.value));
        }
        DuplicatesClash(rows, user, answer.value);
        return Failure(UserRepositoryConflict);
      }
      rows := rows + [user];
      return Success(user);
    }
  }

  /** What a registration ends with, by the accounts at its check and the answer to its insert. */
  ghost function Outcome(before: seq<User>, user: User, answer: Option<IntegrityError>): Result<User, UseCaseError>
  {
    if ClashIn(before, user) then Failure(AlreadyExists)
    else if answer.None? then Success(user)
    else if IsDuplicateUserError(answer.value) then Failure(AlreadyExists)
    else Failure(StoreError(answer.value))
  }

  /** Checks, then inserts.  A refused duplicate is reported like one found by the check; the account
      is inserted exactly when it is returned. */
  method RegisterUser(repository: SQLAlchemyUserRepository, data: Data, arrived: seq<User>,
                      answer: Option<IntegrityError>) returns (result: Result<User, UseCaseError>)
    requires IsAnswer(repository.rows + arrived, PersistUserData(data), answer)
    modifies repository
    ensures var before := old(repository.rows);
            result == Outcome(before, PersistUserData(data), answer) &&
            (result.Success? <==> repository.rows == before + arrived + [PersistUserData(data)]) &&
            (result.Failure? ==> repository.rows == before || repository.rows == before + arrived)
    ensures result.Success? ==> !ClashIn(old(repository.rows) + arrived, PersistUserData(data))
    ensures result.Success? ==>
              result.value == User(data.username, data.email, data.firstName, data.lastName, data.passwordHash,
                                   true, false, false) &&
              forall u :: u in old(repository.rows) + arrived ==> u.username != data.username && u.email != data.email
    ensures (exists u :: u in old(repository.rows) && (u.username == data.username || u.email == data.email)) ==>
              result == Failure(AlreadyExists)
    ensures result == Failure(AlreadyExists) ==> ClashIn(old(repository.rows) + arrived, PersistUserData(data))
  {
    var user := PersistUserData(data);
    var existing := repository.GetByUsernameOrEmail(data.username, data.email);
    if existing.Some? {
      assert Clash(existing.value, user) && existing.value in repository.rows + arrived;
      assert |repository.rows + arrived + [user]| > |repository.rows|;
      return Failure(AlreadyExists);
    }
    assert |repository.rows + arrived + [user]| > |repository.rows + arrived|;
    var created := repository.Create(user, arrived, answer);
    match created
    case Success(u) => return Success(u);
    case Failure(UserRepositoryConflict) => return Failure(AlreadyExists);
    case Failure(Integrity(error)) => return Failure(StoreError(error));
  }

  // ----- The use case in a schedule -----

  function Users(rows: seq<Row>): seq<User> {
    seq(|rows|, k requires 0 <= k < |rows| => rows[k].user)
  }

  lemma CommittedClash(s: State, user: User)
    ensures ClashIn(Users(s.committed), user) <==> s.ClashesWithCommitted(user)
  {
    if s.ClashesWithCommitted(user) {
      var k :| 0 <= k < |s.committed| && Clash(s.committed[k].user, user);
      assert Users(s.committed)[k] == s.committed[k].user;
    }
    if ClashIn(Users(s.committed), user) {
      var u :| u in Users(s.committed) && Clash(u, user);
      var k :| 0 <= k < |s.committed| && Users(s.committed)[k] == u;
    }
  }

  lemma Then(actions: seq<Action>, a: Action) returns (s: State)
    ensures s == Run(actions + [a]) == if Enabled(Run(actions), a) then Next(Run(actions), a) else Run(actions)
  {
    s := Run(actions + [a]);
    assert (actions + [a])[..|actions|] == actions;
  }

  /** What other tasks do leaves a task and the committed accounts alone. */
  lemma {:induction false} OthersRun(actions: seq<Action>, others: seq<Action>, t: TaskId)
    requires t in Run(actions).tasks && forall k :: 0 <= k < |others| ==> others[k].t != t
    ensures t in Run(actions + others).tasks && Run(actions + others).tasks[t] == Run(actions).tasks[t]
    ensures Run(actions).committed <= Run(actions + others).committed
  {
    if others == [] {
      assert actions + others == actions;
    } else {
      var rest := others[..|others| - 1];
      OthersRun(actions, rest, t);
      var s := Then(actions + rest, others[|others| - 1]);
      assert actions + rest + [others[|others| - 1]] == actions + others;
    }
  }

  /** How the machine writes the outcome of the method. */
  function StageOf(result: Result<User, UseCaseError>): Stage {
    match result
    case Success(_) => Registered
    case Failure(AlreadyExists) => Raised(UserAlreadyExists)
    case Failure(StoreError(_)) => Raised(StoreFailed)
  }

  /** The schedule of one task, and what the others do between its check and its insert. */
  function Schedule(t: TaskId, data: Data, others: seq<Action>): seq<Action> {
    [Arrive(t, data), LookUp(t)] + others + [Insert(t), Commit(t), Rollback(t)]
  }

  lemma Checked(actions: seq<Action>, t: TaskId, data: Data) returns (s: State)
    requires t !in Run(actions).tasks
    ensures s == Run(actions + [Arrive(t, data), LookUp(t)]) && s.committed == Run(actions).committed
    ensures t in s.tasks && s.tasks[t].data == data
    ensures s.tasks[t].stage == if s.ClashesWithCommitted(PersistUserData(data))
                                then Failing(UserAlreadyExists) else NoneFound
  {
    s := Then(actions, Arrive(t, data));
    s := Then(actions + [Arrive(t, data)], LookUp(t));
    assert actions + [Arrive(t, data)] + [LookUp(t)] == actions + [Arrive(t, data), LookUp(t)];
  }

  lemma Ended(actions: seq<Action>, t: TaskId) returns (s: State)
    requires t in Run(actions).tasks
    requires var task := Run(actions).tasks[t];
             task.stage == Failing(UserAlreadyExists) || (task.stage.NoneFound? && !Run(actions).MustWait(t))
    ensures s == Run(actions + [Insert(t), Commit(t), Rollback(t)]) && t in s.tasks
    ensures var s0, user := Run(actions), Run(actions).tasks[t].User();
            if s0.tasks[t].stage.NoneFound? && !s0.ClashesWithCommitted(user) then
              s.tasks[t].stage.Registered? && s.committed == s0.committed + [Row(t, user)]
            else s.tasks[t].stage == Raised(UserAlreadyExists) && s.committed == s0.committed
  {
    s := Then(actions, Insert(t));
    s := Then(actions + [Insert(t)], Commit(t));
    s := Then(actions + [Insert(t)] + [Commit(t)], Rollback(t));
    assert actions + [Insert(t)] + [Commit(t)] + [Rollback(t)] == actions + [Insert(t), Commit(t), Rollback(t)];
  }

  /** One shape of schedule, step by step: a task arrives and checks, other tasks do whatever they do, and
      then it inserts and commits.  As long as the insert need not wait and the store does not fail, the
      task ends as the method says and the committed accounts grow by exactly the one it returns. */
  lemma RegistersInSchedule(actions: seq<Action>, others: seq<Action>, t: TaskId, data: Data,
                            answer: Option<IntegrityError>)
    requires t !in Run(actions).tasks && forall k :: 0 <= k < |others| ==> others[k].t != t
    requires var s := Run(actions + ([Arrive(t, data), LookUp(t)] + others));
             t in s.tasks && (s.tasks[t].stage.NoneFound? ==> !s.MustWait(t)) &&
             IsAnswer(Users(s.committed), PersistUserData(data), answer) &&
             (answer.Some? ==> IsDuplicateUserError(answer.value))
    ensures var s := Run(actions + ([Arrive(t, data), LookUp(t)] + others));
            var last := Run(actions + Schedule(t, data, others));
            var result := Outcome(Users(Run(actions).committed), PersistUserData(data), answer);
            t in last.tasks && last.tasks[t].stage == StageOf(result) &&
            last.committed == s.committed + if result.Success? then [Row(t, result.value)] else []
  {
    var begin, user := [Arrive(t, data), LookUp(t)], PersistUserData(data);
    var checked := Checked(actions, t, data);
    OthersRun(actions + begin, others, t);
    assert actions + begin + others == actions + (begin + others);
    var s := Run(actions + (begin + others));
    var last := Ended(actions + (begin + others), t);
    assert actions + (begin + others) + [Insert(t), Commit(t), Rollback(t)] == actions + Schedule(t, data, others);
    CommittedClash(checked, user);
    CommittedClash(s, user);
    if answer.Some? { DuplicatesClash(Users(s.committed), user, answer.value); }
  }

  // ----- Every task that is done -----

  predicate HasLooked(task: Task) {
    task.stage.NoneFound? || task.stage.Inserted? || task.stage.Registered? || task.HasLost()
  }

  /** The task looked at `n` and, if it got so far, inserted at `m`, and its stage is what it found. */
  ghost predicate Path(actions: seq<Action>, task: Task, t: TaskId, n: nat, m: nat) {
    && n <= m < |actions| && actions[n] == LookUp(t) && (n < m ==> actions[m] == Insert(t))
    && Enabled(Run(actions[..n]), actions[n]) && Enabled(Run(actions[..m]), actions[m])
    && var found, refused := Run(actions[..n]).ClashesWithCommitted(task.User()),
                             Run(actions[..m]).ClashesWithCommitted(task.User());
    && (task.stage.NoneFound? ==> !found)
    && (task.stage.Inserted? || task.stage.Registered? ==> n < m && !found && !refused)
    && (task.HasLost() ==> if n < m then !found && refused else found)
  }

  lemma PathGoesOn(actions: seq<Action>, a: Action, task: Task, after: Task, t: TaskId, n: nat, m: nat)
    requires Path(actions, task, t, n, m) && after.data == task.data
    requires after.stage == task.stage || (task.stage.Inserted? && after.stage.Registered?) ||
             (task.HasLost() && after.HasLost())
    ensures Path(actions + [a], after, t, n, m)
  {
    assert (actions + [a])[..n] == actions[..n] && (actions + [a])[..m] == actions[..m];
  }

  lemma PathBegins(actions: seq<Action>, t: TaskId, after: Task)
    requires Enabled(Run(actions), LookUp(t)) && after == Next(Run(actions), LookUp(t)).tasks[t]
    ensures Path(actions + [LookUp(t)], after, t, |actions|, |actions|)
  {
    assert (actions + [LookUp(t)])[..|actions|] == actions;
  }

  lemma PathInserts(actions: seq<Action>, t: TaskId, after: Task, n: nat, m: nat)
    requires Enabled(Run(actions), Insert(t)) && after == Next(Run(actions), Insert(t)).tasks[t]
    requires Path(actions, Run(actions).tasks[t], t, n, m)
    ensures Path(actions + [Insert(t)], after, t, n, |actions|)
  {
    assert (actions + [Insert(t)])[..|actions|] == actions && (actions + [Insert(t)])[..n] == actions[..n];
  }

  /** What one action does to the stage of a task that has looked after it. */
  lemma StageChanges(s: State, a: Action, t: TaskId)
    requires Enabled(s, a) && t in Next(s, a).tasks && HasLooked(Next(s, a).tasks[t])
    ensures t in s.tasks && s.tasks[t].data == Next(s, a).tasks[t].data
    ensures var before, after := s.tasks[t], Next(s, a).tasks[t];
            || (a == LookUp(t)) || (a == Insert(t) && before.stage.NoneFound?)
            || (HasLooked(before) && after.stage == before.stage)
            || (before.stage.Inserted? && after.stage.Registered?) || (before.HasLost() && after.HasLost())
  {
  }

  lemma {:induction false} PathOf(actions: seq<Action>, t: TaskId) returns (n: nat, m: nat)
    requires t in Run(actions).tasks && HasLooked(Run(actions).tasks[t])
    ensures Path(actions, Run(actions).tasks[t], t, n, m)
  {
    var before, a := actions[..|actions| - 1], actions[|actions| - 1];
    var s, after := Run(before), Run(actions).tasks[t];
    assert actions == before + [a];
    if !Enabled(s, a) {
      n, m := PathOf(before, t);
      PathGoesOn(before, a, after, after, t, n, m);
    } else {
      StageChanges(s, a, t);
      if a == LookUp(t) {
        n, m := |before|, |before|;
        PathBegins(before, t, after);
      } else {
        n, m := PathOf(before, t);
        if a == Insert(t) {
          PathInserts(before, t, after, n, m);
          m := |before|;
        } else {
          PathGoesOn(before, a, s.tasks[t], after, t, n, m);
        }
      }
    }
  }

  /** In every schedule, whatever the other tasks do and however long the insert waits, a task that is
      done and for which the store did not fail ends as the method does, given the accounts committed
      when it looked and an answer the database may give to its insert. */
  lemma DoneAsTheMethodEnds(actions: seq<Action>, t: TaskId) returns (n: nat, m: nat)
    requires t in Run(actions).tasks && Run(actions).tasks[t].IsDone()
    requires Run(actions).tasks[t].stage != Raised(StoreFailed)
    ensures n <= m < |actions| && actions[n] == LookUp(t) && (n < m ==> actions[m] == Insert(t))
    ensures Enabled(Run(actions[..n]), actions[n]) && Enabled(Run(actions[..m]), actions[m])
    ensures Run(actions[..n]).committed <= Run(actions[..m]).committed
    ensures var before, now, task := Run(actions[..n]), Run(actions[..m]), Run(actions).tasks[t];
            forall answer :: IsAnswer(Users(now.committed), task.User(), answer) &&
                             (answer.Some? ==> IsDuplicateUserError(answer.value)) ==>
                               task.stage == StageOf(Outcome(Users(before.committed), task.User(), answer))
  {
    var task := Run(actions).tasks[t];
    assert task.stage.Raised? ==> task.stage.error.UserAlreadyExists?;
    n, m := PathOf(actions, t);
    AccountsStay(actions[..m], n);
    assert actions[..m][..n] == actions[..n];
    CommittedClash(Run(actions[..n]), task.User());
    CommittedClash(Run(actions[..m]), task.User());
    forall answer | IsAnswer(Users(Run(actions[..m]).committed), task.User(), answer) &&
                    (answer.Some? ==> IsDuplicateUserError(answer.value))
      ensures task.stage == StageOf(Outcome(Users(Run(actions[..n]).committed), task.User(), answer))
    {
      if answer.Some? { DuplicatesClash(Users(Run(actions[..m]).committed), task.User(), answer.value); }
    }
  }
}
