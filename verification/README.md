# Verified models of fastapi-template

Dafny 4.11 models of the parts of this repository where being right takes an argument, with the
argument. `dafny verify dfyconfig.toml` checks all of it.

**Refresh sessions and units of work.** Any number of tasks issue, rotate and revoke refresh tokens,
each in one transaction. `Protocol` is the transition system: a scheduler interleaves the tasks
statement by statement, lets the clock advance, interrupts tasks, and lets signing, commits, rollbacks
and the closing of sessions fail. Its invariant ties together the stored hash, the rotation counter,
the row locks, what each task has read and what it is about to write. `Sessions` says what each use
case does when it runs alone, and what logs of committed events guarantee. `ProtocolTheorems` shows
that under row locks every schedule is serial, each commit being what the use case of its task does
alone on the table before it, and draws the conclusions for tokens, answers and errors. `ProtocolLocks`
shows that the row lock is needed, on exactly the systems where a session can be used at all.
`ProtocolOutcomes` adds that what a task raises for a reason of its request is also what its use case
raises alone, on the table as committed at the very action by which the task failed, and that all tasks
can end. `ProtocolAlone` shows that a task that runs alone does what
one call of the use case does.
`RefreshSessions`, `RefreshSessionRepositories` and `UnitOfWork` are the classes themselves, method by
method. The rule `locking` says whether the database honours `SELECT ... FOR UPDATE`. PostgreSQL does;
SQLite ignores it, and what is then left is stated too: the table is still the fold of the logged
events, but no longer one that the use cases could produce one after another.

**Registrations.** `Registration` is a second, smaller transition system: tasks check for a clash and
then insert, against two unique indexes. It also holds the method, and shows that in any
schedule a task that is done, and for which the store did not fail, has ended as the method does.

**Dependency updater.** `ContainerTags`, `ContainerTagChoice` and `ContainerTagCycle` parse, rank and
choose image tags; `ContainerImages` reads references and collects replacements; `ContainerRefs`
rewrites references in text; `ContainerUpdates` puts choice and rewriting together. `Requirements`,
`RequirementPatterns`, `LowerBounds`, `VersionOrder`, `QuotedText` and `PyprojectSync` raise the lower
bounds of a `pyproject.toml`. `Lines`, `WorkflowVersions`, `WorkflowRewriting`, `WorkflowActions` and
`WorkflowTexts` rewrite workflow files. `Parallel` collects results in completion order. Every regular
expression is replaced by a matcher on characters that makes the same lazy and greedy choices and
backtracks where the expression would; for the tag, the `version:` line, the `uses:` pattern, the
extras and the bounds of a requirement a lemma states the language of the pattern independently of the
matcher. `Text` and `Versions` hold what they share.

What these modules say in terms of their own definitions, the modules whose names end in `Rules` say with
the characters, numbers and names written out: `ContainerTagRules` for reading, ranking and choosing tags,
`ContainerRefRules` for the boundaries of a reference, `ContainerImageRules` for images and replacements,
`RequirementRules` for bounds, clauses and package names, `WorkflowRules` for `uses:` references and
versions, `TextRules` for white space and line breaks; `Decimals` says how written numbers compare.

**Exception bases.** `ExceptionBases` is the search over base-class names in the architecture tests.

Where the code does not do what one would expect of it, a lemma says so and the condition under which
it does is proved as well:

- A rotation can slip past a committed revocation, and a schedule need not be serial, if and only if
  the database ignores locking reads and some session can be used at all (`WellShapedIff`, `SerialIff`,
  `AcceptedOnceIff`).
- A use case can raise although its commit succeeded, in exactly one case: closing the session failed
  afterwards (`CleanUnlessCloseFails` for the methods, `RaisingLeavesATraceIff` for every schedule).
- The tag choice can lower the rank: an unlisted tag can go down to its listed major version
  (`UnlistedTagCanGoDown`), and a listed tag to a lower version that pins it, as from `9` to `1-9`
  (`PinnedTagCanGoDown`). A move does not lower the rank if and only if some listed tag of the rule that
  fires ranks at least as high as the current one (`MoveKeepsRankIff`); within its variant a listed tag
  never goes down.
- Repeated tag choices can go round in a circle when listed tags that pin others contain line breaks
  (`LineBreaksGoRound`); otherwise they settle. Whatever the list, they settle if and only if they have
  after as many moves as there are tags, and one (`SettlesIff`).
- The updater's replacements can chain, so that a text is not rewritten in one pass: when an image uses
  the tag another one moves to, and the updater does not rest there (`ResolvedIsSettledIff`,
  `UnrestedTagsChain`). Longest first, such a chain is followed exactly when the reference gets shorter,
  or stays as long and comes later (`LongestFirstIff`, `ChainIsFollowedIff`).
- Substituting references one after another differs from one simultaneous pass exactly when a new
  reference is the old one of a later substitution.
- When a requirement has a lower bound, white space between its name and its extras is lost, and what
  is written keeps the white space behind the extras. If the first clause behind the extras allows the
  version, the next run rewrites what was written exactly when there is such white space: `a [b] >1`
  takes two runs (`RunsTwice`). If it does not, what was written excludes the version it was written
  for, and no run rewrites it: so for `a [b] <3,>1` and version 5 (`ExcludesItsVersion`).
  `SpacedRequirement` covers both, whatever the name, the extras, the white space, the bounds and the
  marker; `WrittenIsPendingIff` and `WrittenExcludesIff` say when each happens to any requirement.
- A second run over a file changes nothing exactly when no pending requirement leaves white space with
  upper bounds behind it that the version meets (`SyncTwice`). A third changes
  nothing as long as what the first run wrote and left pending stands in quotes only as an entry
  (`SyncThrice`). With `"a[b] >=5"` in other quotes in front of the entry `"a [b] >1"` the second run
  rewrites that other text, and the third the entry.

## Model

| member | source | states |
|---|---|---|
| `ProtocolTheorems.EveryScheduleIsSerial` | src/fastapi_template/core/authentication/services/refresh_session.py:59-163 | With row locks every schedule is serial: each commit is what the use case of its task does alone, raising nothing, active users included, on the table the earlier commits left; the committed table is the one they leave together |
| `ProtocolTheorems.CommittedIsLogged` | src/fastapi_template/infrastructure/sqlalchemy/unit_of_work.py:124-139 | With or without row locks the table is the fold of the logged events; a task has committed exactly when its event is in the log, once; it has answered exactly when it has committed and closing its session did not fail |
| `Protocol.RunKeepsInv` | src/fastapi_template/core/authentication/infrastructure/sqlalchemy/repositories/refresh_session.py:59-127 | Every reachable state satisfies the invariant over rows, locks, reads, pending writes and log |
| `ProtocolTheorems.EveryHistoryIsWellShaped` | src/fastapi_template/core/authentication/infrastructure/sqlalchemy/repositories/refresh_session.py:59-127 | With row locks held until commit or rollback, every session's committed history is one creation, rotations chained by their hashes, at most one revocation, then nothing |
| `ProtocolLocks.WellShapedIff` | src/fastapi_template/core/authentication/infrastructure/sqlalchemy/repositories/refresh_session.py:67-74 | Every history of every schedule has the protocol's shape if and only if the database honours row locks or no token can ever be used |
| `ProtocolLocks.SerialIff` | src/fastapi_template/core/authentication/infrastructure/sqlalchemy/repositories/refresh_session.py:67-74 | Every schedule is serial under the same condition |
| `ProtocolLocks.AcceptedOnceIff` | src/fastapi_template/core/authentication/infrastructure/sqlalchemy/repositories/refresh_session.py:67-74 | No token is handed in by two committed transactions, under the same condition |
| `ProtocolLocks.RotationSlipsPastRevocation` | src/fastapi_template/core/authentication/infrastructure/sqlalchemy/repositories/refresh_session.py:67-74 | On every database that ignores the lock clause, as soon as someone can use a session, a rotation can commit after a revocation with the same token, which no refresh running after the revocation would do |
| `ProtocolTheorems.TokenAnswersOnce` | src/fastapi_template/core/authentication/services/refresh_session.py:101-118 | With row locks, of all tasks that hand in the same token, to refresh or to revoke, at most one ever commits, and so at most one answers |
| `ProtocolTheorems.RefreshAnswersOnceWithoutLocks` | src/fastapi_template/core/authentication/infrastructure/sqlalchemy/repositories/refresh_session.py:78-114 | Single use rests on the expected hash and the row count alone: at most one refresh per token commits even without row locks |
| `ProtocolTheorems.NoLostUpdate` | src/fastapi_template/core/authentication/services/refresh_session.py:102-116 | The stored counter is the number of committed rotations although it was computed from an earlier read; the stored hash is the last one written; stored hashes are pairwise distinct |
| `ProtocolTheorems.LifetimeIsFixedAtCreation` | src/fastapi_template/core/authentication/services/refresh_session.py:73-86 | The expiry stays creation time plus the lifetime however many rotations follow, every committed use was checked before it, and the last use never moves back |
| `ProtocolTheorems.AcceptableTokens` | src/fastapi_template/core/authentication/services/refresh_session.py:72-120 | An active session has exactly one acceptable token, the last one committed; a token issued by a task that has not committed is never acceptable |
| `ProtocolTheorems.AnswerIsDurable` | src/fastapi_template/core/authentication/use_cases/refresh_token.py:34-46 | When issue or refresh answers, the committed table holds a session with the hash of the answered token, of a user whose account is there and is not deactivated |
| `ProtocolTheorems.CommitMeans` | src/fastapi_template/core/authentication/services/refresh_session.py:59-163 | Column by column, what one committed issue, refresh or revocation has changed in the table, in one step, with or without row locks: nothing else, and only for a user whose account is there and is not deactivated |
| `ProtocolTheorems.DeactivatedIsRefused` | src/fastapi_template/core/authentication/use_cases/refresh_token.py:39-40 | Over every schedule: a task for a missing or deactivated user, for a refresh the owner of whatever session has the token, never commits and never answers, is not in the log, and changes nothing |
| `ProtocolTheorems.RaisingLeavesATraceIff` | src/fastapi_template/infrastructure/sqlalchemy/unit_of_work.py:110-139 | Over every schedule: a task that has not answered is in the log if and only if its commit succeeded and closing its session failed; under row locks then and only then one of its actions changed the table, so a refresh that fails before does not burn its token |
| `ProtocolTheorems.NextAction` | src/fastapi_template/core/authentication/services/refresh_session.py:59-163 | The next action of a task is possible unless it waits for a row lock of another task, and then it holds no lock itself |
| `ProtocolTheorems.NoDeadlock` | src/fastapi_template/core/authentication/infrastructure/sqlalchemy/repositories/refresh_session.py:59-127 | A task that is not done can take a step, or waits for a lock whose holder can |
| `ProtocolAlone.RefreshAlone` | src/fastapi_template/core/authentication/use_cases/refresh_token.py:28-46 | A refresh that runs alone in the transition system ends, by actions of its own, with the outcome and the table that the specification of the use case gives, errors included |
| `ProtocolAlone.DeactivatedRefreshAlone` | src/fastapi_template/core/authentication/use_cases/refresh_token.py:39-40 | From any state, also one in which accounts have been deactivated since their sessions were created: a lone refresh with the token of such an account raises and leaves the table |
| `ProtocolAlone.OutcomesAgree` | src/fastapi_template/infrastructure/sqlalchemy/unit_of_work.py:124-139 | However a task of the transition system leaves its unit of work, it ends with what the method returns |
| `ProtocolAlone.RunGoesOn` | src/fastapi_template/core/authentication/services/refresh_session.py:59-163 | Lone runs are ends of schedules: running on from where a schedule leads is running the longer schedule |
| `ProtocolOutcomes.RaisedIsSerial` | src/fastapi_template/core/authentication/services/refresh_session.py:90-163 | With row locks, a task that raises for invalid credentials, an unknown user, an invalid token or an expired session raises what its use case raises alone on the table as committed at the action by which the task itself failed, by the clock as it stood then or at the task's own activity check; for an expired session, as it stood then |
| `ProtocolOutcomes.FewActions` | src/fastapi_template/core/authentication/services/refresh_session.py:59-163 | No task takes more than nine actions, whatever the schedule |
| `ProtocolOutcomes.AllCanEnd` | src/fastapi_template/core/authentication/services/refresh_session.py:59-163 | From every reachable state all tasks can be brought to their ends without interruption, each after the lock holders it waits for |
| `ProtocolAlone.ReachableIsRecorded` | src/fastapi_template/core/authentication/infrastructure/sqlalchemy/models/refresh_session.py:17-19 | Every reachable state meets what the lone runs ask for: rows are stored by identifier, and what they use is not fresh |
| `ProtocolAlone.IssueAlone` | src/fastapi_template/core/authentication/use_cases/issue_token.py:31-62 | The same for issuing |
| `ProtocolAlone.RevokeAlone` | src/fastapi_template/core/authentication/use_cases/revoke_token.py:28-39 | The same for revoking |
| `Sessions.UseErrorMeans` | src/fastapi_template/core/authentication/services/refresh_session.py:142-163 | A token is refused as invalid exactly when no row has it, and as expired exactly when the row that has it is revoked or past its expiry |
| `Sessions.RefreshAnswersIff` | src/fastapi_template/core/authentication/use_cases/refresh_token.py:28-46 | A refresh raises nothing exactly when it can sign, no other row has the new hash, and the row with the token is unrevoked, unexpired and of a user whose account is there and is not deactivated |
| `Sessions.IssueAnswersIff` | src/fastapi_template/core/authentication/use_cases/issue_token.py:31-62 | Issuing raises nothing exactly when it can sign, identifier and hash are free, the password is right and the account is there and not deactivated |
| `Sessions.RevokeAnswersIff` | src/fastapi_template/core/authentication/use_cases/revoke_token.py:28-39 | A revocation raises nothing exactly when the account of the actor is there and not deactivated, and the actor owns an unrevoked, unexpired row with the token |
| `Sessions.RowReflectsHistory` | src/fastapi_template/core/authentication/infrastructure/sqlalchemy/repositories/refresh_session.py:35-114 | The stored row is determined by the session's own committed events |
| `Sessions.HistoryIsWellShaped` | src/fastapi_template/core/authentication/services/refresh_session.py:90-140 | A legal log gives every session a history of the protocol's shape, and a session is revoked in the table exactly when its history ends with a revocation |
| `Sessions.ConsumedHashIsGone` | src/fastapi_template/core/authentication/services/refresh_session.py:101-118 | A consumed hash is never again the hash of a row |
| `Sessions.RotationsConsumeOnce` | src/fastapi_template/core/authentication/infrastructure/sqlalchemy/repositories/refresh_session.py:88-105 | No two committed rotations consume the same token |
| `Sessions.PresentedHashIsDead` | src/fastapi_template/core/authentication/services/refresh_session.py:148-163 | Once a committed transaction has handed in a hash, no session carrying it can be used again |
| `Sessions.TokenAcceptedOnce` | src/fastapi_template/core/authentication/services/refresh_session.py:90-140 | A token is accepted by at most one committed rotation or revocation |
| `Sessions.LifetimeIsAbsolute` | src/fastapi_template/core/authentication/entities/refresh_session.py:23-29 | Every accepted use was checked before creation time plus the lifetime, and recorded uses do not go back in time |
| `RefreshSessionRepositories.RefreshSessionRepository.Create` | src/fastapi_template/core/authentication/infrastructure/sqlalchemy/repositories/refresh_session.py:35-57 | Inserts the row and nothing else unless its identifier or its hash is in use; then it raises and inserts nothing |
| `RefreshSessionRepositories.RefreshSessionRepository.GetByTokenHash` | src/fastapi_template/core/authentication/infrastructure/sqlalchemy/repositories/refresh_session.py:59-76 | Finds the row with the hash, or none if there is none |
| `RefreshSessionRepositories.RefreshSessionRepository.ReplaceTokenHash` | src/fastapi_template/core/authentication/infrastructure/sqlalchemy/repositories/refresh_session.py:78-114 | Compare and swap: changes the row and returns it only if the stored hash is the expected one; raises, changing nothing, if the new hash is another row's |
| `RefreshSessionRepositories.RefreshSessionRepository.Revoke` | src/fastapi_template/core/authentication/infrastructure/sqlalchemy/repositories/refresh_session.py:116-127 | Sets the revocation time of the row if it exists |
| `RefreshSessions.RefreshSessionService.CreateRefreshSession` | src/fastapi_template/core/authentication/services/refresh_session.py:59-88 | The table changes by one legal creation, or not at all when identifier or hash is in use |
| `RefreshSessions.RefreshSessionService.GetActiveRefreshSession` | src/fastapi_template/core/authentication/services/refresh_session.py:148-163 | Unknown tokens and inactive sessions raise different errors; otherwise the row is returned |
| `RefreshSessions.RefreshSessionService.RotateRefreshToken` | src/fastapi_template/core/authentication/services/refresh_session.py:90-120 | On success the table changes by one legal rotation, on failure not at all |
| `RefreshSessions.RefreshSessionService.RevokeRefreshToken` | src/fastapi_template/core/authentication/services/refresh_session.py:122-140 | On success the table changes by one legal revocation by the owner, on failure not at all |
| `RefreshSessions.UseCases.RefreshToken` | src/fastapi_template/core/authentication/use_cases/refresh_token.py:28-46 | Which error is raised in which case; the committed rows change by exactly the rotation, only if nothing raised before the commit and the commit succeeded; raising leaves no trace if and only if it is not the case that the commit succeeded and closing failed; for a missing or deactivated user it fails and changes nothing, and an answer means that exactly the row with the token got the new hash, its time of use and one more rotation |
| `RefreshSessions.UseCases.IssueToken` | src/fastapi_template/core/authentication/use_cases/issue_token.py:31-62 | The same for the creation of a session, whose every column is written out |
| `RefreshSessions.UseCases.RevokeToken` | src/fastapi_template/core/authentication/use_cases/revoke_token.py:28-39 | The same for a revocation, by its actor |
| `RefreshSessions.CleanUnlessCloseFails` | src/fastapi_template/infrastructure/sqlalchemy/unit_of_work.py:124-139 | What the three methods ensure about raising: no trace if and only if it is not the case that the commit succeeded and closing failed; that the event changes the table is derived from its being legal |
| `UnitOfWork.EverySessionLivesProperly` | src/fastapi_template/infrastructure/sqlalchemy/unit_of_work.py:39-139 | Over any run of enters and exits by any number of tasks, with begin, commit, rollback and close failing at will, every begun session is finished and closed in turn, up to its one successful close, and never touched afterwards; open scopes have distinct sessions |
| `UnitOfWork.OpenIsBegunMinusClosed` | src/fastapi_template/infrastructure/sqlalchemy/unit_of_work.py:89-139 | Open scopes are the sessions begun minus the sessions closed |
| `UnitOfWork.FinishedOnceUnlessCloseFails` | src/fastapi_template/infrastructure/sqlalchemy/unit_of_work.py:51-57 | A session that is over had exactly one commit or rollback attempt and one close if and only if its first close attempt succeeded |
| `UnitOfWork.SQLAlchemyUnitOfWork.Enter` | src/fastapi_template/infrastructure/sqlalchemy/unit_of_work.py:89-108 | Opens a scope that sees the committed rows; a nested enter or a failing begin raises and changes no scope |
| `UnitOfWork.SQLAlchemyUnitOfWork.Exit` | src/fastapi_template/infrastructure/sqlalchemy/unit_of_work.py:110-139 | Commits or rolls back, then closes whatever came of that; a successful commit changes exactly the rows this transaction wrote, so what other scopes committed is kept; the scope stays when closing fails |
| `Registration.RegistrationsAreUnique` | src/fastapi_template/core/user/use_cases/register_user.py:38-69 | Under every schedule at most one registration commits per username and per email, and every committed account holds exactly the data of its task, active and without staff or superuser rights |
| `Registration.TaskArrived` | src/fastapi_template/core/user/use_cases/register_user.py:32-58 | The data a task works with are those it arrived with |
| `Registration.RowsAreAnswers` | src/fastapi_template/core/user/use_cases/register_user.py:44-58 | A task has a committed row exactly when it was answered |
| `Registration.ExactlyTheWinnersRegister` | src/fastapi_template/core/user/use_cases/register_user.py:44-58 | A task that ends without a store failure is registered exactly when no registered task clashes with it, and otherwise ends with user-already-exists |
| `Registration.AccountsStay` | src/fastapi_template/core/user/infrastructure/sqlalchemy/repositories/user.py:102-128 | Committed accounts are never removed or changed by later registrations |
| `Registration.SomeoneProceeds` | src/fastapi_template/core/user/infrastructure/sqlalchemy/repositories/user.py:119-128 | Inserts that wait for each other's unique index entries cannot block all tasks |
| `Registration.RunKeepsInv` | src/fastapi_template/core/user/use_cases/register_user.py:44-58 | Every reachable state satisfies the invariant over committed rows, pending rows and losers |
| `Registration.SQLAlchemyUserRepository.GetByUsernameOrEmail` | src/fastapi_template/core/user/infrastructure/sqlalchemy/repositories/user.py:79-100 | Returns an account with this username or this email, or none only if there is none |
| `Registration.SQLAlchemyUserRepository.Create` | src/fastapi_template/core/user/infrastructure/sqlalchemy/repositories/user.py:102-169 | Against a database that refuses whatever breaks a unique index: a conflict is reported, by constraint name or message, only when a row clashes; an account is inserted only when none does; any other refusal is passed on |
| `Registration.DuplicateMeans` | src/fastapi_template/core/user/infrastructure/sqlalchemy/repositories/user.py:13-18 | The two constraint names and the two messages that report a duplicate, and nothing else |
| `Registration.RegisterUser` | src/fastapi_template/core/user/use_cases/register_user.py:32-58 | With whatever others commit between check and insert: the account is returned exactly when it is inserted, and then clashes with nothing; already-exists is reported only if some row clashes |
| `Registration.DoneAsTheMethodEnds` | src/fastapi_template/core/user/use_cases/register_user.py:44-58 | In every schedule a task that is done, and for which the store did not fail, has ended as the method does, by the accounts committed at its look-up and any answer the database may give to its insert, each an action of the task that was possible when it came |
| `Registration.RegistersInSchedule` | src/fastapi_template/core/user/use_cases/register_user.py:44-58 | One schedule of it, step by step: with any actions of others between check and insert, and none after it, the committed accounts grow by exactly the one the method returns |
| `ContainerTags.MatchIsParsed` | management/dependency_updater/update_container_image_versions.py:562-575 | A tag fails to parse only if the pattern matches nowhere on its first line |
| `ContainerTags.ParseIsFirstMatch` | management/dependency_updater/update_container_image_versions.py:26-28 | The parse is the match with the shortest prefix and the longest version |
| `ContainerTags.RanksTotallyOrdered` | management/dependency_updater/update_container_image_versions.py:520-599 | Ranks are totally ordered, lexicographically on kind, integer tuple of any length, and preference |
| `ContainerTags.RankedIffParsed` | management/dependency_updater/update_container_image_versions.py:535-559 | A tag has a rank exactly when the version pattern matches it, dated releases included |
| `ContainerTags.BestIsFirstGreatest` | management/dependency_updater/update_container_image_versions.py:443-532 | Choosing among the tags that pass a filter yields nothing exactly when none of them has a rank, and otherwise the first of greatest rank |
| `ContainerTags.BestRankedTag` | management/dependency_updater/update_container_image_versions.py:520-532 | The ranking loop returns none exactly when no tag has a rank, and otherwise the first tag of greatest rank |
| `Decimals.NumbersCompare` | management/dependency_updater/update_container_image_versions.py:578-584 | Written numbers of one length compare as text, and a longer one without leading zero is larger |
| `Decimals.LeadingZero` | management/dependency_updater/update_container_image_versions.py:578-584 | Leading zeros do not count |
| `ContainerTagRules.WrittenTagIsRead` | management/dependency_updater/update_container_image_versions.py:25-27 | A tag written as prefix without digits, optional `v`, numbers with dots and suffix after a dash or an underscore is read as exactly these |
| `ContainerTagRules.WrittenTagIsRanked` | management/dependency_updater/update_container_image_versions.py:535-559 | Without a date it ranks by its numbers, with the number of `-p` and digits behind it as one more, and a plain version or such a build before any other suffix |
| `ContainerTagRules.RanksCompare` | management/dependency_updater/update_container_image_versions.py:520-532 | The kind decides, then the first number that differs, a missing one being below any, then the preference |
| `ContainerTagRules.DatedTagsCompare` | management/dependency_updater/update_container_image_versions.py:28-30 | Dated tags rank above all others and among each other by their stamps as text, year first; with one stamp the suffix decides |
| `ContainerTagRules.SmallerNumberRanksLower` | management/dependency_updater/update_container_image_versions.py:535-592 | Of two written tags with one suffix the one whose number is smaller at the first difference ranks lower |
| `ContainerTagRules.NineRanksBelowTen` | management/dependency_updater/update_container_image_versions.py:535-592 | `1.9` ranks below `1.10` |
| `ContainerTagChoice.VariantNarrows` | management/dependency_updater/update_container_image_versions.py:470-506 | The class of a tag of my variant is contained in mine, even when the Python rule goes from one required component to two |
| `ContainerTagChoice.SameVariantIsIdempotent` | management/dependency_updater/update_container_image_versions.py:443-467 | From the tag it chose, the same-variant choice chooses that tag again |
| `ContainerTagRules.SameVariantMeans` | management/dependency_updater/update_container_image_versions.py:443-506 | The same-variant choice has the prefix, the suffix and the first number of the current tag, for the three names of the Python image or a tag starting with `python` also the second number; among the ranked listed tags with these it is one of greatest rank, and it is none only if there are none |
| `ContainerTagRules.MoveMeans` | management/dependency_updater/update_container_image_versions.py:419-440 | A move goes to such a tag, or, if that is the current tag or none, to one of greatest rank among those that end with a dash and the current tag; otherwise there is no move |
| `ContainerTagRules.FloatingMeans` | management/dependency_updater/update_container_image_versions.py:275-287 | Without a tag or with `latest` the choice is a tag of greatest rank of all |
| `ContainerTagRules.OtherVersionIsNoMove` | management/dependency_updater/update_container_image_versions.py:470-506 | From `18.3-alpine` there is no move to `19.0-alpine`, and for Python none from `3.14` to `3.15`: for all prefixes, suffixes and numbers |
| `ContainerTagChoice.MoveKeepsRankIff` | management/dependency_updater/update_container_image_versions.py:419-517 | A move does not lower the rank if and only if some listed tag of the rule that fires, same variant or pinning, ranks at least as high as the current one |
| `ContainerTagChoice.SameVariantKeepsRank` | management/dependency_updater/update_container_image_versions.py:443-467 | The same-variant choice does not go below the current rank under the same condition, which a listed current tag meets |
| `ContainerTagChoice.PinnedTagCanGoDown` | management/dependency_updater/update_container_image_versions.py:419-440 | A listed tag is moved to a listed tag that pins it, whatever lower version stands in front |
| `ContainerTagChoice.UnlistedTagCanGoDown` | management/dependency_updater/update_container_image_versions.py:419-440 | An unlisted tag with a minor version is moved down to its listed major version |
| `ContainerTagChoice.PinnedWeighsMore` | management/dependency_updater/update_container_image_versions.py:509-517 | A tag on one line that pins the current one has a longer prefix and suffix together |
| `ContainerTagChoice.Settle` | management/dependency_updater/update_container_image_versions.py:275-287 | From any starting tag, repeated choice over a fixed list of tags, in which ranked tags weigh more than those they pin, ends at a tag from which there is no move; a tag with a version weighs one more than its prefix and suffix are long, and one without nothing |
| `ContainerTagChoice.MovesMakeProgress` | management/dependency_updater/update_container_image_versions.py:419-440 | A same-variant move keeps that weight and cannot be repeated, every other move increases it, and it is bounded, under the premise of `Settle` |
| `ContainerTagChoice.LatestTagIsListed` | management/dependency_updater/update_container_image_versions.py:275-287 | Whatever the updater moves to is listed and ranked, and differs from the current tag unless that is missing or `latest` |
| `ContainerTagCycle.LineBreaksGoRound` | management/dependency_updater/update_container_image_versions.py:26-28 | With line breaks in the listed tags the choice cycles through four tags for ever |
| `ContainerTagCycle.SettlesIff` | management/dependency_updater/update_container_image_versions.py:275-287 | Repeated choice over any fixed list comes to an end if and only if it has after as many moves as there are tags, and one |
| `ContainerImages.WrittenRefIsRead` | management/dependency_updater/update_container_image_versions.py:169-204 | A written reference reads back as its repository and tag if and only if the repository is one and the tag holds no separator |
| `ContainerImages.WrittenDigestIsRead` | management/dependency_updater/update_container_image_versions.py:169-190 | A digest is read along and does not disturb repository and tag |
| `ContainerImages.ReadRefIsWritten` | management/dependency_updater/update_container_image_versions.py:169-204 | A reference without digest is written back from what was read, up to an empty tag |
| `ContainerImageRules.UntaggedRefIsRead` | management/dependency_updater/update_container_image_versions.py:169-190 | A colon in front of the last slash belongs to the repository, as a port does |
| `ContainerImages.RemoteImagesAreRemote` | management/dependency_updater/update_container_image_versions.py:142-154 | The dictionary of images holds exactly the references that read as an image that is not skipped |
| `ContainerImageRules.RemoteImagesMean` | management/dependency_updater/update_container_image_versions.py:142-200 | An image is looked up unless it has a digest, is `scratch`, starts with `localhost/` or is tagged `local` |
| `ContainerImages.ContainerImageReplacements` | management/dependency_updater/update_container_image_versions.py:117-139 | Every outdated reference is replaced by its new one; a bare repository follows its reference tagged latest unless it has a replacement of its own; nothing else is replaced |
| `ContainerImageRules.ReplacementsMean` | management/dependency_updater/update_container_image_versions.py:117-139 | Every reference whose latest tag is known and another one is replaced by its repository, a colon and that tag; with one tagged `latest` also the bare name of a repository with a slash; nothing else is replaced |
| `ContainerImages.ReplacementsAreProper` | management/dependency_updater/update_container_image_versions.py:117-139 | The dictionary holds references only and replaces none by itself |
| `ContainerImages.SettledTagsDoNotChain` | management/dependency_updater/update_container_image_versions.py:117-139 | When the latest tag of a latest tag is itself, no new reference is an old one |
| `ContainerImages.ImagesAreReplacedAtOnce` | management/dependency_updater/update_container_image_versions.py:211-257 | Then rewriting a text with the whole dictionary is one simultaneous pass, and doing it again changes nothing |
| `ContainerUpdates.RestsIff` | management/dependency_updater/update_container_image_versions.py:419-440 | The updater does not move from a tag if and only if it is the best of its variant and no ranked listed tag pins it |
| `ContainerUpdates.RestsUnlessPinned` | management/dependency_updater/update_container_image_versions.py:275-287 | After a move to the best tag of all or of the variant, the updater moves again if and only if a ranked listed tag pins the new one |
| `ContainerUpdates.ResolvedIsSettledIff` | management/dependency_updater/update_container_image_versions.py:117-139 | The latest tags as the updater resolves them are settled if and only if it rests at every new tag that is in use as well |
| `ContainerUpdates.UpdatesAreMadeAtOnce` | management/dependency_updater/update_container_image_versions.py:211-257 | Then rewriting with the updater's own replacements is one simultaneous pass and idempotent |
| `ContainerUpdates.UnrestedTagsChain` | management/dependency_updater/update_container_image_versions.py:117-139 | Otherwise they can chain: the new reference of an image tagged latest is the old one of an image tagged with what it moves to |
| `ContainerUpdates.ChainIsFollowedIff` | management/dependency_updater/update_container_image_versions.py:211-222 | Longest first, that chain is followed exactly when the tag is shorter than latest, or as long and substituted later |
| `ContainerUpdates.SecondRunIff` | management/dependency_updater/update_container_image_versions.py:37-68 | A second run, which collects the replaced references and looks up the same tags, replaces nothing if and only if the updater rests at every tag the first run moved to |
| `ContainerRefs.LongestFirstIff` | management/dependency_updater/update_container_image_versions.py:211-222 | Substituting longest first equals one simultaneous pass on every text if and only if no reference is replaced by a shorter one, or one as long and later, that is replaced itself |
| `ContainerRefs.SubstituteIsRewrite` | management/dependency_updater/update_container_image_versions.py:249-257 | A boundary-guarded substitution replaces exactly the maximal reference runs that equal the old reference |
| `ContainerRefRules.ReplacedWhereAlone` | management/dependency_updater/update_container_image_versions.py:33-34 | Standing at one place without a letter, a digit or one of `_.:/@-` before it and without a letter, a digit, one of `_:/@-`, or a dot and a word character behind it, a reference is replaced there and all else stays |
| `ContainerRefRules.NowhereAlone` | management/dependency_updater/update_container_image_versions.py:33-34 | Standing so nowhere, it is replaced nowhere |
| `ContainerRefRules.AfterCharacter` | management/dependency_updater/update_container_image_versions.py:33-33 | Behind one character `redis:latest` is replaced unless that is one of those |
| `ContainerRefRules.InFrontOf` | management/dependency_updater/update_container_image_versions.py:34-34 | In front of one character, or of a dot and one, it is replaced unless these are of those: never inside `redis:latest-alpine` |
| `ContainerRefs.SequentialIsSimultaneousIff` | management/dependency_updater/update_container_image_versions.py:211-257 | One substitution after another equals one simultaneous pass on every text if and only if no new reference is the old one of a later substitution |
| `ContainerRefs.SequentialIsSimultaneous` | management/dependency_updater/update_container_image_versions.py:211-257 | The equality itself, for one text |
| `ContainerRefs.OrderDoesNotMatter` | management/dependency_updater/update_container_image_versions.py:217-222 | When no new reference is an old one, longest first and any other order give the same text |
| `ContainerRefs.RewritingAgainChangesNothing` | management/dependency_updater/update_container_image_versions.py:211-257 | Then rewriting the rewritten text changes nothing |
| `ContainerRefs.ReportedAreOccurring` | management/dependency_updater/update_container_image_versions.py:224-241 | The updates reported for a file are exactly those whose old reference was a run of the original text |
| `ContainerRefs.ReplaceContainerRefs` | management/dependency_updater/update_container_image_versions.py:211-246 | The loop over the references of one file, against all of the above; no update means no change |
| `VersionOrder.ComparisonMeans` | management/dependency_updater/sync_pyproject_dependency_versions.py:190-206 | Padding and tuple comparison decide at the first component where the versions, continued with zeros, differ |
| `VersionOrder.VersionsTotallyPreordered` | management/dependency_updater/sync_pyproject_dependency_versions.py:190-214 | Comparison is a total preorder on the versions that start with a release number, and undefined exactly when one does not |
| `VersionOrder.EqualUpToTrailingZeros` | management/dependency_updater/sync_pyproject_dependency_versions.py:196-206 | Versions compare equal exactly when the longer one only adds zeros |
| `VersionOrder.OnlyReleaseCounts` | management/dependency_updater/sync_pyproject_dependency_versions.py:209-214 | A version compares as its leading release number alone, whatever follows that: `1.2rc1` as `1.2` |
| `RequirementRules.WrittenVersionKey` | management/dependency_updater/sync_pyproject_dependency_versions.py:209-214 | The key of a version written with digits and dots is its numbers, whatever follows them |
| `Versions.ReleaseIsUnique` | management/dependency_updater/sync_pyproject_dependency_versions.py:15 | The release match is greedy and the only one after which no digit or component follows |
| `RequirementPatterns.ExtrasMean` | management/dependency_updater/sync_pyproject_dependency_versions.py:12 | The extras matcher matches exactly a bracket, at least one other character than a closing bracket, and a closing bracket |
| `RequirementPatterns.FirstLowerMeans` | management/dependency_updater/sync_pyproject_dependency_versions.py:13 | The search for a lower bound finds the leftmost place where the pattern matches, and there the match that its ordered and greedy choices come to |
| `RequirementPatterns.UpperMeans` | management/dependency_updater/sync_pyproject_dependency_versions.py:169-187 | A clause gives an upper bound exactly when the pattern matches at its start, and the one its choices come to |
| `RequirementRules.SatisfiesMeans` | management/dependency_updater/sync_pyproject_dependency_versions.py:169-187 | A version satisfies the upper bounds if and only if, at the start and after every comma, it is below the version of a `<` that matches there and not above that of a `<=`, both having a release number |
| `RequirementRules.TargetIsAllowed` | management/dependency_updater/sync_pyproject_dependency_versions.py:99-120 | The target is the known version if all upper bounds allow it, so it is below every exclusive one; otherwise there is none |
| `RequirementRules.BoundIsNoTarget` | management/dependency_updater/sync_pyproject_dependency_versions.py:181-185 | For `<0.12.0` the version `0.12.0` is no target |
| `RequirementRules.MadeRequirement` | management/dependency_updater/sync_pyproject_dependency_versions.py:99-187 | For a requirement made of name, extras, clauses with blanks, and marker: the target is the known version if it is what every clause asks; raising changes the first clause with `>` or `>=`, or adds one in front, and nothing else |
| `RequirementRules.MadeIsReplaced` | management/dependency_updater/sync_pyproject_dependency_versions.py:44-80 | Such a requirement is replaced by that exactly when it has a target and does not name it as its lower bound yet |
| `RequirementRules.CanonicalMeans` | management/dependency_updater/sync_pyproject_dependency_versions.py:217-218 | Names are looked up with their words in lower case and one hyphen for each run of hyphens, underscores and dots |
| `RequirementRules.LockedComesFirst` | management/dependency_updater/sync_pyproject_dependency_versions.py:99-120 | With a version in the lock file the latest one does not matter; without, the latest under the name as written counts |
| `Requirements.RaisedHasBound` | management/dependency_updater/sync_pyproject_dependency_versions.py:144-166 | The first lower bound of a raised specifier is `>=` and exactly the version |
| `Requirements.ReadAgain` | management/dependency_updater/sync_pyproject_dependency_versions.py:144-166 | A written requirement reads back with its marker, and with its name and extras except for what joins them |
| `LowerBounds.RaisedChangesOneBound` | management/dependency_updater/sync_pyproject_dependency_versions.py:154-161 | Raising changes one lower bound, or adds one in front, and leaves every other character |
| `LowerBounds.NamePartStays` | management/dependency_updater/sync_pyproject_dependency_versions.py:144-166 | Name, extras and marker stay apart from what joins them; the name stays if and only if there is no lower bound or the specifier does not start like a name |
| `LowerBounds.RaisingAgain` | management/dependency_updater/sync_pyproject_dependency_versions.py:144-166 | Raising to the same version again changes nothing if and only if no white space is left after the name part |
| `LowerBounds.UpperBoundsStay` | management/dependency_updater/sync_pyproject_dependency_versions.py:169-187 | A version satisfies the written requirement's upper bounds if and only if it satisfies those of the old one that stand after what joins the name: all of them when nothing joins |
| `LowerBounds.WrittenHasNo` | management/dependency_updater/sync_pyproject_dependency_versions.py:144-166 | Raising brings in no character but those of the version and of the bound |
| `PyprojectSync.SpacedRequirement` | management/dependency_updater/sync_pyproject_dependency_versions.py:144-187 | For every requirement with a target and white space before its extras, and no bracket closing after its first lower bound: without a lower bound what is written is settled; with one it is pending again exactly when white space follows the extras and the first clause behind them allows the version, and has no target and excludes the version exactly when that clause does not allow it |
| `PyprojectSync.RunsTwice` | management/dependency_updater/sync_pyproject_dependency_versions.py:44-80 | `a [b] >1` with version 5: what is written is pending again |
| `PyprojectSync.ExcludesItsVersion` | management/dependency_updater/sync_pyproject_dependency_versions.py:44-80 | `a [b] <3,>1` with version 5: what is written excludes 5 and is not pending |
| `PyprojectSync.WrittenExcludesIff` | management/dependency_updater/sync_pyproject_dependency_versions.py:99-187 | What is written finds no target, and so is not rewritten, exactly when the version does not meet the upper bounds behind what joins the name part |
| `PyprojectSync.TwoRunsSettle` | management/dependency_updater/sync_pyproject_dependency_versions.py:99-187 | What is pending again is settled by the next run |
| `PyprojectSync.TargetAgain` | management/dependency_updater/sync_pyproject_dependency_versions.py:99-120 | The target of a written requirement is the same version as long as it meets the upper bounds |
| `PyprojectSync.WrittenIsPendingIff` | management/dependency_updater/sync_pyproject_dependency_versions.py:46-62 | A written requirement is pending again if and only if it keeps white space after its name part and the target meets its upper bounds |
| `PyprojectSync.WrittenIsSettled` | management/dependency_updater/sync_pyproject_dependency_versions.py:99-187 | When nothing joins the name part, the written requirement is not pending and the target meets all of its upper bounds |
| `RequirementRules.WrittenIsAllowed` | management/dependency_updater/sync_pyproject_dependency_versions.py:99-187 | The target is then strictly below every exclusive bound of the written requirement |
| `PyprojectSync.SyncPyprojectDependencyVersions` | management/dependency_updater/sync_pyproject_dependency_versions.py:44-80 | The sync loop with its early exit when a requirement is not found, against its specification |
| `PyprojectSync.SyncSucceeds` | management/dependency_updater/sync_pyproject_dependency_versions.py:44-80 | The first run does not raise, and reports the updates of exactly the pending requirements, in order |
| `PyprojectSync.SyncAgainIff` | management/dependency_updater/sync_pyproject_dependency_versions.py:44-80 | A second run over the written file, whatever the order of its entries, makes no update and does not raise if and only if no requirement the first run wrote is pending |
| `PyprojectSync.SyncTwice` | management/dependency_updater/sync_pyproject_dependency_versions.py:44-80 | The same condition on the file before the first run: no pending requirement leaves white space after its name part with upper bounds behind it that the target meets |
| `PyprojectSync.SyncThrice` | management/dependency_updater/sync_pyproject_dependency_versions.py:44-80 | A third run makes no update and does not raise, when what the first run writes and leaves pending stands in quotes only as entries |
| `PyprojectSync.OtherTextIsFree` | management/dependency_updater/sync_pyproject_dependency_versions.py:83-96 | What else stands in quotes in the file does not matter, not even a name that the lock file knows a version of |
| `QuotedText.ReplaceInJoin` | management/dependency_updater/sync_pyproject_dependency_versions.py:64-71 | Replacing the first quoted occurrence in the text replaces the first stretch between quotes that is the requirement, and the text contains it exactly if there is one |
| `WorkflowVersions.MatchIsVersionLine` | management/dependency_updater/update_github_action_versions.py:16-18 | The version pattern matches exactly the lines of its form, in one way only |
| `WorkflowVersions.PlaceMeans` | management/dependency_updater/update_github_action_versions.py:163-177 | A line is in a step of the action exactly when the last line that used the action opened a step that no other step has ended since |
| `WorkflowRules.PlaceIsItem` | management/dependency_updater/update_github_action_versions.py:221-246 | The same with the name of the action, the dash and the blank written out |
| `WorkflowVersions.SetupComposeVersionRefs` | management/dependency_updater/update_github_action_versions.py:221-246 | The collecting scanner, against its specification |
| `WorkflowVersions.UpdatedSetupComposeVersionText` | management/dependency_updater/update_github_action_versions.py:149-218 | The rewriting scanner, against its specification |
| `WorkflowVersions.ScannersAgree` | management/dependency_updater/update_github_action_versions.py:149-246 | On the same text, the versions the rewriter replaces are exactly the collected ones that differ from the latest, in order |
| `WorkflowRules.VersionIsUpdatedIff` | management/dependency_updater/update_github_action_versions.py:149-218 | A line of blanks, `version:`, blanks, a version and a comment or nothing: its version is collected, and replaced by the latest with all else on the line kept, exactly when the line is in such an item |
| `WorkflowRewriting.OtherLinesStay` | management/dependency_updater/update_github_action_versions.py:149-218 | The rewritten text splits into the same number of lines, and only lines with an outdated version change, only in the version |
| `WorkflowRewriting.NewPlaces` | management/dependency_updater/update_github_action_versions.py:163-177 | After rewriting, every line is in the step it was in |
| `WorkflowRewriting.RewritingAgain` | management/dependency_updater/update_github_action_versions.py:149-218 | Rewriting again changes nothing and reports nothing |
| `TextRules.BreaksEndLines` | management/dependency_updater/update_github_action_versions.py:163-163 | The characters that end a line |
| `TextRules.WhiteSpaceIsStripped` | management/dependency_updater/sync_pyproject_dependency_versions.py:153-153 | The characters that are white space |
| `WorkflowActions.MatchUsesMeans` | management/dependency_updater/update_github_action_versions.py:13-15 | The action pattern matches exactly the texts of its form, in one way only |
| `WorkflowActions.UpdatedActionRefs` | management/dependency_updater/update_github_action_versions.py:81-110 | The substitution with its collected updates, against its specification |
| `WorkflowActions.NoNewMatch` | management/dependency_updater/update_github_action_versions.py:81-110 | Where nothing matched before rewriting, nothing matches after it |
| `WorkflowActions.ActionsSettle` | management/dependency_updater/update_github_action_versions.py:68-110 | Rewriting the references again changes nothing and reports nothing |
| `WorkflowActions.NothingReported` | management/dependency_updater/update_github_action_versions.py:81-110 | Without an update the text stays as it is |
| `WorkflowActions.UpdatesAreMajor` | management/dependency_updater/update_github_action_versions.py:68-78 | Every update goes to the latest tag of its repository and to another major version |
| `WorkflowRules.UseIsUpdatedIff` | management/dependency_updater/update_github_action_versions.py:68-110 | Every match that the scan comes to: the latest tag of its repository stands in the rewritten text and the update is reported if and only if both references are `v` and digits, and the numbers of these differ; otherwise it is copied and not reported |
| `WorkflowRules.OneUse` | management/dependency_updater/update_github_action_versions.py:12-14 | A text with one `uses:`, blanks, owner, slash, name, at sign and reference, character by character: exactly the reference changes, unless it is not outdated or a word character stands before the `uses:` |
| `WorkflowTexts.UpdatedWorkflowActionText` | management/dependency_updater/update_github_action_versions.py:81-123 | Both rewritings one after the other, against their specifications |
| `WorkflowTexts.VersionsLeaveActions` | management/dependency_updater/update_github_action_versions.py:81-123 | Rewriting versions does not change what is to be updated about the actions, as long as no version holds `uses:` |
| `WorkflowTexts.UpdatingAgain` | management/dependency_updater/update_github_action_versions.py:81-123 | Updating an updated workflow file changes nothing and reports nothing |
| `Parallel.ResolveInParallel` | management/dependency_updater/parallel.py:7-23 | Whatever the completion order, the call succeeds exactly if every entry resolves, and then the dictionary is the resolver tabulated on the entries |
| `ExceptionBases.SearchIsComplete` | tests/architecture/test_exception_contracts.py:451-474 | On any class graph, cyclic or not, the search finds the root exactly when some chain of known classes leads to one that has it as a base |

## Left out

- Tokens, hashing and time: refresh tokens and session identifiers are fresh values, hashing is injective, the clock is monotone. Cryptographic strength is not modelled.
- Transactions: a select returns the current committed row and the task's own pending row; a failed commit commits nothing; closing discards pending work; updates wait for row locks; an interrupted task rolls back. SQLAlchemy's identity map, drivers and isolation levels are not part of this model.
- Authentication: password verification, password hashing, user lookup by credentials and JWT signing are inputs of the use cases. Users are constant while the protocol runs, since no code changes `is_active` of an account; that registrations add accounts meanwhile is not modelled. A lone run may start from any table, so also after a change of accounts (`DeactivatedRefreshAlone`).
- Scope context: each task has its own scope; that child tasks inherit a copy of the context variable is not modelled.
- Protocol.RunKeepsInv: beginning a transaction does not fail in the transition system, as nothing has happened then, and row locks are released when the transaction ends, however that goes; the classes in `UnitOfWork` and `RefreshSessions` let begin fail as well.
- Registration.RegistrationsAreUnique: usernames and emails are compared after normalization, which is an input; other writers of the table, such as the access-flag commands, do not run.
- ContainerTagChoice.Settle: asks that a ranked listed tag has a longer prefix and suffix together than the current or listed tags it pins, which holds of all that are on one line (`OneLineWeighsMore`); `ContainerTagCycle.LineBreaksGoRound` shows why, and `ContainerTagCycle.SettlesIff` has no such premise, but its condition is the walk itself, cut off at its bound. Registries do not admit tags with line breaks.
- ContainerTagChoice.MovesMakeProgress: asks the same, for the same reason.
- ContainerRefs.SequentialIsSimultaneousIff: references consist of reference characters, with every dot followed by a letter, digit or underscore; old references are distinct and not replaced by themselves. The replacement text of `re.sub` is taken literally, which holds for references without backslashes.
- ContainerImages.SettledTagsDoNotChain: that the latest tag of a latest tag is itself is a premise; `ContainerUpdates.ResolvedIsSettledIff` says for which lists of tags the updater's own choice meets it.
- LowerBounds.RaisingAgain: a version is not empty and contains no white space, comma, semicolon, closing bracket, quote or backslash, and no bracket closes after the first lower bound of the specifier.
- LowerBounds.UpperBoundsStay: the same premises as for `RaisingAgain`.
- LowerBounds.NamePartStays: the same premises as for `RaisingAgain`.
- PyprojectSync.SyncTwice: a pending requirement does not start its specifier like a name, and no bracket closes after its first lower bound; `PyprojectSync.SyncAgainIff` asks neither.
- PyprojectSync.SyncThrice: asks the same as `SyncTwice`, and that what the first run writes and leaves pending does not stand in other quotes.
- PyprojectSync.SpacedRequirement: no bracket closes after the first lower bound of the specifier.
- PyprojectSync.SyncAgainIff: a pending requirement stands in double quotes only as a dependency entry; the file is its stretches between double quotes, so TOML escapes, single quotes and comments are not modelled.
- ContainerUpdates.SecondRunIff: that the text holds the replaced references, as after one pass, is a premise.
- ProtocolOutcomes.AllCanEnd: says that the tasks can end, and `ProtocolOutcomes.FewActions` how soon; fairness of infinite schedules is not modelled.
- RequirementRules.MadeRequirement: versions are printable characters without brackets, commas, semicolons and comparison signs; other texts are covered by `SatisfiesMeans` and `RaisedChangesOneBound`.
- WorkflowRules.OneUse: the text holds no other colon; `UseIsUpdatedIff` covers every text, match by match.
- WorkflowRewriting.RewritingAgain: the latest version is not empty and contains no white space or hash sign.
- WorkflowActions.ActionsSettle: the same for the latest tags.
- WorkflowTexts.UpdatingAgain: asks both, and that neither the latest version nor a replaced one holds `uses:`; a match of the action pattern could otherwise begin inside a version.
- Registration.RegisterUser: password validation and hashing come before the transaction and are inputs; its unit of work is not the class in `UnitOfWork`, which holds the refresh-session repository only.
- Characters: digits and word characters are the ASCII ones, where Python's `\d` and `\b` also take others; white space and line breaks are exactly Python's.
- Requests to registries, GitHub and PyPI, pagination, TOML parsing, walking the file tree, dry runs, the order of files and the command line: inputs or not part of this model.
- Extracting image references from Compose and Docker files, and choosing the registry of a repository: straightforward matching that feeds the inputs of `ContainerImages`.
- Throttling, settings, logging, controllers, schemas, application factory and the other architecture tests: adapters over libraries, or small.
