/**
 The refresh-session protocol as any number of concurrent tasks.  Each task runs one use
 case in one transaction, a statement at a time; `Step` performs one action of a scheduler
 that may interleave tasks freely, interrupt any of them, and let signing, commit, rollback
 and the closing of a session fail.

 A transaction sees the committed rows and its own pending row.  A row lock is held until
 commit or rollback.  Locking reads wait for the lock only when `rules.locking`; updates
 always do.  Tokens and session identifiers are fresh and the clock is monotone.
 */
module Protocol {
  import opened Prelude
  import opened Sessions

  datatype System = System(rules: Rules, users: map<UserId, bool>) {
    predicate IsActive(user: UserId) {
      IsActiveUser(users, user)
    }
  }

  datatype Request =
    | Issue(user: UserId, passwordOk: bool, userAgent: string, ipAddressTrace: Option<string>)
    | Refresh(token: Token)
    | Revoke(token: Token, actor: UserId)

  datatype Outcome = Answered(refreshToken: Option<Token>) | Raised(error: Error)

  datatype Stage =
    | Entered | UserLoaded | Loaded | Checked | Stamped | Written | Ready
    | Failing(error: Error) | Done(outcome: Outcome)

  datatype Task = Task(
    request: Request,
    stage: Stage,
    seen: Option<Row>,
    checkedAt: Instant,
    issued: Option<Token>,
    wroteAt: Instant,
    pending: Option<Row>
  ) {
    predicate InProgress() {
      !stage.Failing? && !stage.Done?
    }

    predicate HasAnswered() {
      stage.Done? && stage.outcome.Answered?
    }

    /** Its commit succeeded, whether or not the task has answered: closing may have failed. */
    predicate HasCommitted() {
      stage.Done? && pending.Some?
    }

    function Fail(error: Error): Task {
      this.(stage := Failing(error))
    }

    /** What the transaction does to the table if it commits. */
    function Event(): Event
      requires Complete()
    {
      match request
      case Issue(_, _, _, _) => Created(pending.value)
      case Refresh(token) => Rotated(seen.value.id, Hash(token), Hash(issued.value), checkedAt, wroteAt)
      case Revoke(token, actor) => Revoked(seen.value.id, Hash(token), actor, checkedAt, wroteAt)
    }

    predicate Complete() {
      pending.Some? && (!request.Issue? ==> seen.Some?) && (!request.Revoke? ==> issued.Some?)
    }
  }

  datatype State = State(
    committed: Table,
    locks: map<SessionId, TaskId>,
    tasks: map<TaskId, Task>,
    now: Instant,
    tokens: set<Token>,
    ids: set<SessionId>,
    log: seq<Commit>
  ) {
    predicate MayLock(t: TaskId, id: SessionId) {
      id in locks ==> locks[id] == t
    }

    function Make(t: TaskId, move: Move): State {
      this.(tasks := tasks[t := move.task],
            locks := if move.lock.Some? then locks[move.lock.value := t] else locks,
            tokens := if move.token.Some? then tokens + {move.token.value} else tokens,
            ids := if move.id.Some? then ids + {move.id.value} else ids)
    }

    /** The transaction ends without a trace and its locks are released. */
    function Discard(t: TaskId, error: Error): State
      requires t in tasks
    {
      this.(tasks := tasks[t := tasks[t].(stage := Done(Raised(error)), pending := None)],
            locks := Released(locks, t))
    }
  }

  function Released(locks: map<SessionId, TaskId>, t: TaskId): map<SessionId, TaskId> {
    map id | id in locks && locks[id] != t :: locks[id]
  }

  const START := State(map[], map[], map[], 0, {}, {}, [])

  datatype Action =
    | Tick(elapsed: nat)
    | Enter(t: TaskId, request: Request)
    | LoadUser(t: TaskId)
    | Load(t: TaskId, found: Option<SessionId>)
    | CheckActive(t: TaskId)
    | Create(t: TaskId, token: Token, id: SessionId)
    | Stamp(t: TaskId, token: Token)
    | Write(t: TaskId)
    | Answer(t: TaskId, signed: bool)
    | Finish(t: TaskId, succeeds: bool, closes: bool)
    | RollBack(t: TaskId, succeeds: bool, closes: bool)
    | Interrupt(t: TaskId)

  // ----- Steps -----

  /** One task's progress: its new record, a row lock it takes, and what it makes fresh. */
  datatype Move = Move(task: Task, lock: Option<SessionId>, token: Option<Token>, id: Option<SessionId>)

  function Only(task: Task): Option<Move> {
    Some(Move(task, None, None, None))
  }

  /** The state after the action, or nothing when the action is not possible now. */
  ghost function Step(sys: System, s: State, a: Action): Option<State> {
    if a.Tick? then Some(s.(now := s.now + a.elapsed))
    else if a.Enter? then
      if a.t in s.tasks then None
      else Some(s.(tasks := s.tasks[a.t := Task(a.request, Entered, None, 0, None, 0, None)]))
    else if a.t !in s.tasks then None
    else if a.Finish? then FinishStep(s, a.t, s.tasks[a.t], a.succeeds, a.closes)
    else if a.RollBack? then
      if s.tasks[a.t].stage.Failing?
      then Some(s.Discard(a.t, ExitError(s.tasks[a.t].stage.error, a.succeeds, a.closes))) else None
    else
      var move := TaskMove(sys, s, a, s.tasks[a.t]);
      if move.Some? then Some(s.Make(a.t, move.value)) else None
  }

  predicate IsMove(a: Action) {
    !a.Tick? && !a.Enter? && !a.Finish? && !a.RollBack?
  }

  ghost function TaskMove(sys: System, s: State, a: Action, task: Task): Option<Move>
    requires IsMove(a)
  {
    match a
    case LoadUser(_) => LoadUserMove(sys, task)
    case Load(t, found) => LoadMove(sys, s, t, task, found)
    case CheckActive(_) => CheckActiveMove(s, task)
    case Create(_, token, id) => CreateMove(sys, s, task, token, id)
    case Stamp(t, token) => StampMove(sys, s, t, task, token)
    case Write(t) => WriteMove(s, t, task)
    case Answer(_, signed) => AnswerMove(sys, task, signed)
    case Interrupt(_) => if task.InProgress() then Only(task.Fail(Interrupted)) else None
  }

  /** Issue authenticates the credentials; revoke loads the active actor. */
  function LoadUserMove(sys: System, task: Task): Option<Move> {
    if !task.stage.Entered? then None
    else
      match task.request
      case Issue(user, passwordOk, _, _) =>
        if sys.IsActive(user) && passwordOk then Only(task.(stage := UserLoaded))
        else Only(task.Fail(InvalidCredentials))
      case Revoke(_, actor) =>
        if sys.IsActive(actor) then Only(task.(stage := UserLoaded))
        else Only(task.Fail(UserNotFound))
      case Refresh(_) => None
  }

  /** The locking read by token hash. */
  ghost function LoadMove(sys: System, s: State, t: TaskId, task: Task, found: Option<SessionId>): Option<Move> {
    if task.request.Issue? || task.stage != (if task.request.Refresh? then Entered else UserLoaded) then None
    else if !Finds(s.committed, Hash(task.request.token), found) then None
    else if found.None? then Only(task.Fail(InvalidToken))
    else
      var loaded := task.(stage := Loaded, seen := Some(s.committed[found.value]));
      if !sys.rules.locking then Only(loaded)
      else if s.MayLock(t, found.value) then Some(Move(loaded, found, None, None))
      else None
  }

  function CheckActiveMove(s: State, task: Task): Option<Move> {
    if !task.stage.Loaded? || task.seen.None? then None
    else if task.seen.value.IsActiveAt(s.now) then Only(task.(stage := Checked, checkedAt := s.now))
    else Only(task.Fail(ExpiredToken))
  }

  /** Issue inserts the new session. */
  function CreateMove(sys: System, s: State, task: Task, token: Token, id: SessionId): Option<Move> {
    if !task.request.Issue? || !task.stage.UserLoaded? || token in s.tokens || id in s.ids then None
    else
      var row := NewRow(id, token, task.request.user, task.request.userAgent, task.request.ipAddressTrace,
                        s.now, sys.rules.ttl);
      Some(Move(task.(stage := Written, issued := Some(token), wroteAt := s.now, pending := Some(row)),
                None, Some(token), Some(id)))
  }

  /** Refresh issues the new token and reads the clock; revoke checks the owner, locks the row
      by identifier and sets the revocation time on the loaded model. */
  function StampMove(sys: System, s: State, t: TaskId, task: Task, token: Token): Option<Move> {
    if !task.stage.Checked? || task.seen.None? then None
    else
      match task.request
      case Refresh(_) =>
        if token in s.tokens then None
        else Some(Move(task.(stage := Stamped, issued := Some(token), wroteAt := s.now), None, Some(token), None))
      case Revoke(_, actor) =>
        var id := task.seen.value.id;
        var stamped := task.(stage := Stamped, wroteAt := s.now);
        if task.seen.value.user != actor then Only(task.Fail(InvalidToken))
        else if id !in s.committed then Only(task.(stage := Ready))
        else if !sys.rules.locking then Only(stamped)
        else if s.MayLock(t, id) then Some(Move(stamped, Some(id), None, None))
        else None
      case Issue(_, _, _, _) => None
  }

  /** Refresh runs the guarded update; revoke flushes the revocation time. */
  function WriteMove(s: State, t: TaskId, task: Task): Option<Move> {
    if !task.stage.Stamped? || task.seen.None? || !s.MayLock(t, task.seen.value.id) then None
    else
      var id := task.seen.value.id;
      match task.request
      case Refresh(token) =>
        if task.issued.None? then None
        else
          var updated := ReplaceTokenHash(s.committed, id, Hash(token), Hash(task.issued.value),
                                          task.wroteAt, task.seen.value.rotationCounter + 1);
          if updated.None? then Only(task.Fail(InvalidToken))
          else Some(Move(task.(stage := Written, pending := updated), Some(id), None, None))
      case Revoke(_, _) =>
        var updated := MarkRevoked(s.committed, id, task.wroteAt);
        if updated.None? then None
        else Some(Move(task.(stage := Ready, pending := updated), Some(id), None, None))
      case Issue(_, _, _, _) => None
  }

  /** Refresh rejects an inactive user; issue and refresh sign the access token. */
  function AnswerMove(sys: System, task: Task, signed: bool): Option<Move> {
    if !task.stage.Written? || task.pending.None? then None
    else if task.request.Refresh? && !sys.IsActive(task.pending.value.user) then Only(task.Fail(InvalidToken))
    else if !signed then Only(task.Fail(SigningFailed))
    else Only(task.(stage := Ready))
  }

  /** What is raised on leaving the unit of work: a failure to finish or to close replaces the error. */
  function ExitError(error: Error, succeeds: bool, closes: bool): Error {
    if !closes then CloseFailed else if !succeeds then FinishFailed else error
  }

  /** Leaving the unit of work without an exception: commit, then close; either may fail. */
  function FinishStep(s: State, t: TaskId, task: Task, succeeds: bool, closes: bool): Option<State>
    requires t in s.tasks && s.tasks[t] == task
  {
    if !task.stage.Ready? then None
    else if !succeeds then Some(s.Discard(t, ExitError(FinishFailed, succeeds, closes)))
    else
      var outcome := if closes then Answered(task.issued) else Raised(CloseFailed);
      var finished := s.(tasks := s.tasks[t := task.(stage := Done(outcome))], locks := Released(s.locks, t));
      if !task.Complete() then Some(finished)
      else Some(finished.(committed := s.committed[task.pending.value.id := task.pending.value],
                          log := s.log + [Commit(t, task.Event())]))
  }

  /** The state after a whole schedule, or nothing if some action was not possible. */
  ghost function Run(sys: System, actions: seq<Action>): Option<State> {
    if actions == [] then Some(START)
    else
      var before := Run(sys, actions[..|actions| - 1]);
      if before.None? then None else Step(sys, before.value, actions[|actions| - 1])
  }

  // ----- Invariant -----

  /** A row as some transaction read it, against what is committed now: unless the hash has
      changed, only the revocation can differ. */
  ghost predicate StillDescribes(seen: Row, row: Row) {
    && seen.id == row.id && seen.user == row.user && seen.expiresAt == row.expiresAt
    && (seen.hash == row.hash ==>
          seen.rotationCounter == row.rotationCounter && seen.LastSeen() == row.LastSeen())
  }

  /** A revocation is asked for by an active user. */
  predicate HasActor(sys: System, request: Request) {
    request.Revoke? ==> sys.IsActive(request.actor)
  }

  ghost predicate SeenOk(sys: System, s: State, t: TaskId, task: Task) {
    && task.seen.Some? && !task.request.Issue? && HasActor(sys, task.request)
    && var seen := task.seen.value;
    && seen.hash == Hash(task.request.token) && seen.hash in WrittenHashes(s.log)
    && seen.id in s.committed && StillDescribes(seen, s.committed[seen.id])
    && seen.LastSeen() <= s.now
    && (sys.rules.locking ==>
          seen.id in s.locks && s.locks[seen.id] == t && s.committed[seen.id] == seen)
  }

  ghost predicate CheckedOk(sys: System, s: State, t: TaskId, task: Task) {
    && SeenOk(sys, s, t, task)
    && task.seen.value.revokedAt.None? && task.checkedAt < task.seen.value.expiresAt
  }

  /** The row is the new session of an authenticated active user. */
  predicate IssuedRow(sys: System, task: Task, row: Row)
    requires task.request.Issue?
  {
    var request := task.request;
    sys.IsActive(request.user) && request.passwordOk && task.issued.Some? &&
    row == NewRow(row.id, task.issued.value, request.user, request.userAgent, request.ipAddressTrace, task.wroteAt,
                  sys.rules.ttl)
  }

  /** The pending row is what the sequential specification would store. */
  ghost predicate PendingOk(sys: System, s: State, t: TaskId, task: Task) {
    && task.Complete() && HasActor(sys, task.request)
    && Legal(sys.rules, s.committed, task.Event())
    && task.pending.value.id == task.Event().Session()
    && Apply(s.committed, task.Event()) == s.committed[task.pending.value.id := task.pending.value]
    && (!task.request.Revoke? ==> task.pending.value.hash == Hash(task.issued.value))
    && (if task.request.Issue? then IssuedRow(sys, task, task.pending.value)
        else task.pending.value.id in s.locks && s.locks[task.pending.value.id] == t)
    && task.pending.value.LastSeen() <= s.now
  }

  ghost predicate StageOk(sys: System, s: State, t: TaskId, task: Task) {
    match task.stage
    case Entered => task.issued.None? && task.seen.None?
    case UserLoaded =>
      task.issued.None? && task.seen.None? && !task.request.Refresh? &&
      sys.IsActive(if task.request.Issue? then task.request.user else task.request.actor) &&
      (task.request.Issue? ==> task.request.passwordOk)
    case Loaded => task.issued.None? && SeenOk(sys, s, t, task)
    case Checked => task.issued.None? && CheckedOk(sys, s, t, task)
    case Stamped =>
      CheckedOk(sys, s, t, task) && task.seen.value.LastSeen() <= task.wroteAt <= s.now &&
      (task.request.Refresh? <==> task.issued.Some?) &&
      (task.request.Revoke? ==> task.seen.value.user == task.request.actor)
    case Written =>
      PendingOk(sys, s, t, task) && !task.request.Revoke?
    case Ready => PendingOk(sys, s, t, task) && AnswerOk(sys, task)
    case Failing(_) => true
    case Done(Answered(token)) => Logged(s, t, task) && token == task.issued && AnswerOk(sys, task)
    case Done(Raised(error)) =>
      task.pending.Some? ==> error == CloseFailed && Logged(s, t, task) && AnswerOk(sys, task)
  }

  ghost predicate Logged(s: State, t: TaskId, task: Task) {
    task.Complete() && exists i :: 0 <= i < |s.log| && s.log[i] == Commit(t, task.Event())
  }

  ghost predicate AnswerOk(sys: System, task: Task) {
    task.pending.Some? && (task.request.Revoke? <==> task.issued.None?) &&
    (!task.request.Revoke? ==>
       sys.IsActive(task.pending.value.user) && task.pending.value.hash == Hash(task.issued.value))
  }

  ghost predicate TaskOk(sys: System, s: State, t: TaskId, task: Task) {
    && StageOk(sys, s, t, task)
    && (task.issued.Some? && !task.HasCommitted() ==> Hash(task.issued.value) !in WrittenHashes(s.log))
    && ((forall i :: 0 <= i < |s.log| ==> s.log[i].task != t) || task.HasCommitted())
  }

  /** No two tasks share a token or a new session identifier, and all of these are recorded. */
  ghost predicate TasksApart(s: State) {
    && (forall t :: t in s.tasks ==> Recorded(s, s.tasks[t]))
    && (forall t, u :: t in s.tasks && u in s.tasks && t != u ==> Apart(s.tasks[t], s.tasks[u]))
  }

  predicate Recorded(s: State, task: Task) {
    (task.issued.Some? ==> task.issued.value in s.tokens) &&
    (task.request.Issue? && task.pending.Some? ==> task.pending.value.id in s.ids)
  }

  predicate Apart(a: Task, b: Task) {
    (a.issued.Some? ==> a.issued != b.issued) &&
    (a.request.Issue? && b.request.Issue? && a.pending.Some? && b.pending.Some? ==>
       a.pending.value.id != b.pending.value.id)
  }

  ghost predicate StoreOk(sys: System, s: State) {
    && Replay(sys.rules, s.log) == Some(s.committed)
    && (forall hash :: hash in WrittenHashes(s.log) ==> hash.token in s.tokens)
    && (forall id :: id in s.committed ==> id in s.ids && s.committed[id].LastSeen() <= s.now)
    && (forall i :: 0 <= i < |s.log| ==> s.log[i].task in s.tasks)
    && (forall i, j :: 0 <= i < j < |s.log| ==> s.log[i].task != s.log[j].task)
  }

  ghost predicate LocksOk(s: State) {
    forall id :: id in s.locks ==>
      s.locks[id] in s.tasks &&
      var task := s.tasks[s.locks[id]];
      !task.stage.Done? && task.seen.Some? && task.seen.value.id == id && !task.request.Issue?
  }

  ghost predicate Inv(sys: System, s: State) {
    && StoreOk(sys, s)
    && LocksOk(s)
    && TasksApart(s)
    && forall t :: t in s.tasks ==> TaskOk(sys, s, t, s.tasks[t])
  }

  // ----- Preservation -----

  /** `u` is untouched by the step and keeps its locks. */
  ghost predicate Bystander(s: State, s': State, u: TaskId) {
    && u in s.tasks && u in s'.tasks && s'.tasks[u] == s.tasks[u]
    && s.now <= s'.now && s.tokens <= s'.tokens && s.ids <= s'.ids
    && forall id :: id in s.locks && s.locks[id] == u ==> id in s'.locks && s'.locks[id] == u
  }

  lemma BystanderKept(sys: System, s: State, s': State, u: TaskId)
    requires Bystander(s, s', u) && s'.committed == s.committed && s'.log == s.log
    requires TaskOk(sys, s, u, s.tasks[u])
    ensures TaskOk(sys, s', u, s'.tasks[u])
  {
  }

  lemma OthersKept(sys: System, s: State, s': State, others: set<TaskId>)
    requires s'.committed == s.committed && s'.log == s.log
    requires forall u :: u in others ==> Bystander(s, s', u)
    requires forall u :: u in others ==> u in s.tasks && TaskOk(sys, s, u, s.tasks[u])
    ensures forall u :: u in others ==> u in s'.tasks && TaskOk(sys, s', u, s'.tasks[u])
  {
    forall u | u in others ensures TaskOk(sys, s', u, s'.tasks[u]) {
      BystanderKept(sys, s, s', u);
    }
  }

  lemma TickPreserves(sys: System, s: State, a: Action, s': State)
    requires Inv(sys, s) && a.Tick? && Step(sys, s, a) == Some(s')
    ensures Inv(sys, s')
  {
    OthersKept(sys, s, s', s.tasks.Keys);
  }

  /** Taking a free lock, making fresh names, keeping the rest of the task's identity. */
  ghost predicate MoveOk(s: State, task: Task, t: TaskId, move: Move) {
    && move.task.request == task.request && !task.stage.Done? && !move.task.stage.Done?
    && (task.seen.Some? ==> move.task.seen == task.seen)
    && (move.lock.Some? ==>
          s.MayLock(t, move.lock.value) && !task.request.Issue? &&
          move.task.seen.Some? && move.task.seen.value.id == move.lock.value)
    && (if move.token.Some? then move.token.value !in s.tokens && move.task.issued == move.token
        else move.task.issued == task.issued)
    && (if move.id.Some? then
          move.id.value !in s.ids && move.task.pending.Some? && move.task.pending.value.id == move.id.value
        else task.request.Issue? ==> move.task.pending == task.pending)
  }

  lemma MoveKeepsLocks(s: State, t: TaskId, move: Move)
    requires t in s.tasks && MoveOk(s, s.tasks[t], t, move) && LocksOk(s)
    ensures LocksOk(s.Make(t, move))
  {
  }

  lemma MoveKeepsApart(s: State, t: TaskId, move: Move)
    requires t in s.tasks && MoveOk(s, s.tasks[t], t, move) && TasksApart(s)
    ensures TasksApart(s.Make(t, move))
  {
  }

  lemma MoveLeavesBystanders(s: State, t: TaskId, move: Move)
    requires t in s.tasks && MoveOk(s, s.tasks[t], t, move)
    ensures forall u :: u in s.tasks && u != t ==> Bystander(s, s.Make(t, move), u)
  {
  }

  /** What the lemma for one kind of move may rely on, and what it establishes. */
  ghost predicate Before(sys: System, s: State, t: TaskId, task: Task) {
    StoreOk(sys, s) && t in s.tasks && s.tasks[t] == task && TaskOk(sys, s, t, task)
  }

  ghost predicate MoveKept(sys: System, s: State, t: TaskId, task: Task, move: Move) {
    MoveOk(s, task, t, move) && TaskOk(sys, s.Make(t, move), t, move.task)
  }

  lemma LoadKeeps(sys: System, s: State, t: TaskId, task: Task, found: Option<SessionId>, move: Move)
    requires Before(sys, s, t, task) && LoadMove(sys, s, t, task, found) == Some(move)
    ensures MoveKept(sys, s, t, task, move)
  {
    if found.Some? {
      RowReflectsHistory(sys.rules, s.log, found.value);
    }
  }

  lemma CreateKeeps(sys: System, s: State, t: TaskId, task: Task, token: Token, id: SessionId, move: Move)
    requires Before(sys, s, t, task) && CreateMove(sys, s, task, token, id) == Some(move)
    ensures MoveKept(sys, s, t, task, move)
  {
  }

  lemma StampKeeps(sys: System, s: State, t: TaskId, task: Task, token: Token, move: Move)
    requires Before(sys, s, t, task) && StampMove(sys, s, t, task, token) == Some(move)
    ensures MoveKept(sys, s, t, task, move)
  {
  }

  lemma WriteKeeps(sys: System, s: State, t: TaskId, task: Task, move: Move)
    requires Before(sys, s, t, task) && WriteMove(s, t, task) == Some(move)
    ensures MoveKept(sys, s, t, task, move)
  {
  }

  lemma AnswerKeeps(sys: System, s: State, t: TaskId, task: Task, signed: bool, move: Move)
    requires Before(sys, s, t, task) && AnswerMove(sys, task, signed) == Some(move)
    ensures MoveKept(sys, s, t, task, move)
  {
  }

  lemma MoveKeepsTask(sys: System, s: State, a: Action, task: Task, move: Move)
    requires IsMove(a) && Before(sys, s, a.t, task) && TaskMove(sys, s, a, task) == Some(move)
    ensures MoveKept(sys, s, a.t, task, move)
  {
    match a {
      case Load(t, found) => LoadKeeps(sys, s, t, task, found, move);
      case Create(t, token, id) => CreateKeeps(sys, s, t, task, token, id, move);
      case Stamp(t, token) => StampKeeps(sys, s, t, task, token, move);
      case Write(t) => WriteKeeps(sys, s, t, task, move);
      case Answer(t, signed) => AnswerKeeps(sys, s, t, task, signed, move);
      case _ =>
    }
  }

  lemma MovePreserves(sys: System, s: State, a: Action, s': State)
    requires Inv(sys, s) && IsMove(a) && Step(sys, s, a) == Some(s')
    ensures Inv(sys, s')
  {
    var move := TaskMove(sys, s, a, s.tasks[a.t]).value;
    MoveKeepsTask(sys, s, a, s.tasks[a.t], move);
    MoveKeepsLocks(s, a.t, move);
    MoveKeepsApart(s, a.t, move);
    MoveLeavesBystanders(s, a.t, move);
    OthersKept(sys, s, s', s.tasks.Keys - {a.t});
  }

  lemma DiscardKeepsRest(s: State, t: TaskId, error: Error)
    requires t in s.tasks && LocksOk(s) && TasksApart(s)
    ensures LocksOk(s.Discard(t, error)) && TasksApart(s.Discard(t, error))
  {
  }

  lemma DiscardPreserves(sys: System, s: State, t: TaskId, error: Error)
    requires Inv(sys, s) && t in s.tasks && !s.tasks[t].stage.Done?
    ensures Inv(sys, s.Discard(t, error))
  {
    var s' := s.Discard(t, error);
    DiscardKeepsRest(s, t, error);
    forall u | u in s.tasks ensures TaskOk(sys, s', u, s'.tasks[u]) {
      if u != t { BystanderKept(sys, s, s', u); }
    }
  }

  lemma EnterKeepsRest(sys: System, s: State, a: Action, s': State)
    requires LocksOk(s) && TasksApart(s) && a.Enter? && Step(sys, s, a) == Some(s')
    ensures LocksOk(s') && TasksApart(s')
  {
  }

  lemma EnterPreserves(sys: System, s: State, a: Action, s': State)
    requires Inv(sys, s) && a.Enter? && Step(sys, s, a) == Some(s')
    ensures Inv(sys, s')
  {
    EnterKeepsRest(sys, s, a, s');
    OthersKept(sys, s, s', s.tasks.Keys);
  }

  lemma LogGrows(log: seq<Commit>, commit: Commit)
    ensures WrittenHashes(log + [commit]) ==
              WrittenHashes(log) + if commit.event.Writes().Some? then {commit.event.Writes().value} else {}
  {
    var after := log + [commit];
    forall hash | hash in WrittenHashes(log) ensures hash in WrittenHashes(after) {
      var i :| 0 <= i < |log| && log[i].event.Writes() == Some(hash);
      assert after[i].event.Writes() == Some(hash);
    }
    if commit.event.Writes().Some? {
      assert after[|log|].event.Writes() == commit.event.Writes();
    }
  }

  /** What a successful commit of a reachable task does. */
  ghost predicate Commits(sys: System, s: State, t: TaskId, closes: bool, s': State) {
    && t in s.tasks && s.tasks[t].Complete()
    && var task := s.tasks[t];
    && PendingOk(sys, s, t, task)
    && s'.committed == Apply(s.committed, task.Event())
    && s'.log == s.log + [Commit(t, task.Event())]
    && s'.tasks == s.tasks[t := task.(stage := Done(if closes then Answered(task.issued) else Raised(CloseFailed)))]
    && s'.locks == Released(s.locks, t)
    && s'.now == s.now && s'.tokens == s.tokens && s'.ids == s.ids
    && (task.Event().Writes().Some? ==> task.Event().Writes() == Some(Hash(task.issued.value)))
    && (task.Event().Writes().Some? ==> task.Event().Writes().value !in WrittenHashes(s.log))
  }

  lemma CommitEffect(sys: System, s: State, t: TaskId, closes: bool, s': State)
    requires Inv(sys, s) && Step(sys, s, Finish(t, true, closes)) == Some(s')
    ensures Commits(sys, s, t, closes, s')
  {
    assert TaskOk(sys, s, t, s.tasks[t]);
  }

  lemma CommitKeepsSeen(sys: System, s: State, t: TaskId, closes: bool, s': State, u: TaskId)
    requires Commits(sys, s, t, closes, s') && u in s.tasks && u != t
    requires SeenOk(sys, s, u, s.tasks[u])
    ensures SeenOk(sys, s', u, s.tasks[u])
  {
    LogGrows(s.log, Commit(t, s.tasks[t].Event()));
  }

  lemma CommitKeepsPending(sys: System, s: State, t: TaskId, closes: bool, s': State, u: TaskId)
    requires Commits(sys, s, t, closes, s') && u in s.tasks && u != t
    requires PendingOk(sys, s, u, s.tasks[u]) && Apart(s.tasks[u], s.tasks[t])
    ensures PendingOk(sys, s', u, s.tasks[u])
  {
    var id, row := s.tasks[u].pending.value.id, s.tasks[u].pending.value;
    assert id != s.tasks[t].Event().Session();
    assert s.committed[id := row][id] == row;
    assert Apply(s'.committed, s.tasks[u].Event())[id] == row;
  }

  lemma CommitKeepsOther(sys: System, s: State, t: TaskId, closes: bool, s': State, u: TaskId)
    requires Commits(sys, s, t, closes, s') && u in s.tasks && u != t
    requires TaskOk(sys, s, u, s.tasks[u]) && Apart(s.tasks[u], s.tasks[t])
    ensures TaskOk(sys, s', u, s.tasks[u])
  {
    var other := s.tasks[u];
    LogGrows(s.log, Commit(t, s.tasks[t].Event()));
    match other.stage {
      case Loaded | Checked | Stamped => CommitKeepsSeen(sys, s, t, closes, s', u);
      case Written | Ready => CommitKeepsPending(sys, s, t, closes, s', u);
      case Done(_) =>
        if other.pending.Some? {
          var i :| 0 <= i < |s.log| && s.log[i] == Commit(u, other.Event());
          assert s'.log[i] == Commit(u, other.Event());
        }
      case _ =>
    }
  }

  lemma CommitKeepsStore(sys: System, s: State, t: TaskId, closes: bool, s': State)
    requires Commits(sys, s, t, closes, s') && Before(sys, s, t, s.tasks[t]) && s.tasks[t].stage.Ready?
    requires Recorded(s, s.tasks[t])
    ensures StoreOk(sys, s')
  {
    var commit := Commit(t, s.tasks[t].Event());
    LogGrows(s.log, commit);
    ReplayAppend(sys.rules, s.log, s.committed, commit);
  }

  lemma CommitKeepsOwnTask(sys: System, s: State, t: TaskId, closes: bool, s': State)
    requires Commits(sys, s, t, closes, s') && TaskOk(sys, s, t, s.tasks[t]) && s.tasks[t].stage.Ready?
    ensures TaskOk(sys, s', t, s'.tasks[t])
  {
    assert s'.log[|s.log|] == Commit(t, s.tasks[t].Event());
  }

  lemma CommitKeepsApart(sys: System, s: State, t: TaskId, closes: bool, s': State)
    requires Commits(sys, s, t, closes, s') && LocksOk(s) && TasksApart(s)
    ensures LocksOk(s') && TasksApart(s')
  {
  }

  lemma CommitPreserves(sys: System, s: State, t: TaskId, closes: bool, s': State)
    requires Inv(sys, s) && Step(sys, s, Finish(t, true, closes)) == Some(s')
    ensures Inv(sys, s')
  {
    CommitEffect(sys, s, t, closes, s');
    CommitKeepsStore(sys, s, t, closes, s');
    CommitKeepsApart(sys, s, t, closes, s');
    CommitKeepsOwnTask(sys, s, t, closes, s');
    forall u | u in s.tasks && u != t ensures TaskOk(sys, s', u, s'.tasks[u]) {
      CommitKeepsOther(sys, s, t, closes, s', u);
    }
  }

  lemma StepPreserves(sys: System, s: State, a: Action, s': State)
    requires Inv(sys, s) && Step(sys, s, a) == Some(s')
    ensures Inv(sys, s')
  {
    match a {
      case Tick(_) => TickPreserves(sys, s, a, s');
      case Enter(_, _) => EnterPreserves(sys, s, a, s');
      case RollBack(t, succeeds, closes) =>
        DiscardPreserves(sys, s, t, ExitError(s.tasks[t].stage.error, succeeds, closes));
      case Finish(t, succeeds, closes) =>
        if succeeds { CommitPreserves(sys, s, t, closes, s'); } else {
          DiscardPreserves(sys, s, t, ExitError(FinishFailed, succeeds, closes));
        }
      case _ => MovePreserves(sys, s, a, s');
    }
  }

  lemma {:induction false} RunKeepsInv(sys: System, actions: seq<Action>)
    requires Run(sys, actions).Some?
    ensures Inv(sys, Run(sys, actions).value)
  {
    if actions != [] {
      var before := actions[..|actions| - 1];
      RunKeepsInv(sys, before);
      StepPreserves(sys, Run(sys, before).value, actions[|actions| - 1], Run(sys, actions).value);
    }
  }
}
