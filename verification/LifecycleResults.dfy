/** What holds over every interleaving of the lifecycle. */
module LifecycleResults {
  import opened Wrappers
  import opened SessionStore
  import opened Lifecycle

  // ---------- runs ----------

  lemma {:induction false} OneMoreAction(space: char -> bool, w: World, run: seq<Action>, a: Action)
    requires Possible(space, w, run) && Enabled(After(space, w, run), a)
    ensures Possible(space, w, run + [a]) && After(space, w, run + [a]) == Next(space, After(space, w, run), a)
    decreases |run|
  {
    if run == [] {
      assert run + [a] == [a] && [a][1..] == [];
    } else {
      OneMoreAction(space, Next(space, w, run[0]), run[1..], a);
      assert (run + [a])[1..] == run[1..] + [a];
    }
  }

  /** A world with one session and nothing else but what is said here. */
  function OneSession(user: UserId, id: SessionId, status: Status, stored: map<SessionId, seq<LoggedTurn>>,
                      live: map<string, seq<LoggedTurn>>, history: map<SessionId, seq<Message>>,
                      pushes: map<SessionId, seq<bool>>, left: set<SessionId>, missing: set<SessionId>): World
  {
    World(Db(map[id := Session(user, RoomName(id), status, None, 0)], stored, map[], live),
          history, pushes, left, map[], missing, {}, map[])
  }

  lemma Opened(space: char -> bool, user: UserId, id: SessionId) returns (run: seq<Action>)
    ensures Possible(space, START, run) && forall a | a in run :: !a.Speak?
    ensures After(space, START, run) == OneSession(user, id, InProgress, map[], map[], map[], map[], {}, {})
  {
    run := [PreCheck(0, user), Insert(0, id, 0)];
    OneMoreAction(space, START, [], PreCheck(0, user));
    assert [] + [PreCheck(0, user)] == [PreCheck(0, user)];
    OneMoreAction(space, START, [PreCheck(0, user)], Insert(0, id, 0));
    assert [PreCheck(0, user)] + [Insert(0, id, 0)] == run;
    var w := After(space, START, run);
    assert w.db.sessions == map[id := Session(user, RoomName(id), InProgress, None, 0)];
    assert w.starters == map[];
  }

  // ---------- sessions ----------

  ghost predicate RoomsOk(sessions: map<SessionId, Session>) {
    forall id | id in sessions :: sessions[id].room == RoomName(id)
  }

  /** Rooms are named after their session, and no user has two sessions in progress. */
  ghost predicate SessionsOk(sessions: map<SessionId, Session>) {
    && RoomsOk(sessions)
    && (forall a, b | a in sessions && b in sessions && sessions[a].status == InProgress
                      && sessions[b].status == InProgress && sessions[a].user == sessions[b].user :: a == b)
  }

  /** Sessions are never dropped, keep user, room and start, and once ended never return to progress. */
  ghost predicate SessionsMove(before: map<SessionId, Session>, after: map<SessionId, Session>) {
    forall id | id in before ::
      && id in after && after[id].user == before[id].user && after[id].room == before[id].room
      && after[id].createdAt == before[id].createdAt
      && (before[id].status != InProgress ==> after[id].status != InProgress)
      && (before[id].status == Failed ==> after[id].status == Failed)
  }

  /** Some sessions may have ended, and failed ones stay failed; nothing else has happened to the table. */
  ghost predicate EndedOnly(before: map<SessionId, Session>, after: map<SessionId, Session>) {
    && after.Keys == before.Keys
    && forall id | id in before :: after[id] == before[id] || Ended(before[id], after[id])
  }

  ghost predicate Ended(s: Session, s': Session) {
    s'.status != InProgress && s' == s.(status := s'.status, reason := s'.reason) && (s.status == Failed ==> s'.status == Failed)
  }

  lemma EndedOnlyMoves(before: map<SessionId, Session>, after: map<SessionId, Session>)
    requires EndedOnly(before, after)
    ensures SessionsMove(before, after) && (SessionsOk(before) ==> SessionsOk(after))
  {
  }

  lemma MarkFailedEndsOnly(db: Db, id: SessionId, why: string)
    ensures EndedOnly(db.sessions, MarkFailed(db, id, why).sessions)
  {
  }

  lemma EndSessionEndsOnly(db: Db, caller: UserId, id: SessionId, up: bool)
    ensures EndedOnly(db.sessions, EndSession(db, caller, id, up).0.sessions)
    ensures EndSession(db, caller, id, up).0.reports == db.reports
    ensures EndSession(db, caller, id, up).1 == EndOutcome.Ended ==> IsOver(EndSession(db, caller, id, up).0.sessions, id)
  {
  }

  lemma FailStaleEndsOnly(db: Db, cutoff: int)
    ensures EndedOnly(db.sessions, FailStale(db, cutoff).sessions)
  {
  }

  lemma TaskStepEndsOnly(db: Db, t: Task, step: TaskStep)
    requires Fits(t, step)
    ensures EndedOnly(db.sessions, TakeStep(db, t, step).0.sessions)
  {
    match step {
      case Check(_) =>
      case Read(_) =>
      case Score(_, _) =>
      case Fail(_, why, _, _) => MarkFailedEndsOnly(db, t.session, why);
      case Save(_, _, _) => MarkFailedEndsOnly(db, t.session, INTEGRITY_ERROR);
      case FailSave(why, _, _) => MarkFailedEndsOnly(db, t.session, why);
    }
  }

  /** Actions that leave sessions and reports alone. */
  predicate Quiet(a: Action) {
    !a.Work? && !a.Insert? && !a.End? && !a.TimeOut?
  }

  lemma QuietKeepsTables(space: char -> bool, w: World, a: Action)
    requires Enabled(w, a) && Quiet(a)
    ensures Next(space, w, a).db.sessions == w.db.sessions && Next(space, w, a).db.reports == w.db.reports
  {
  }

  lemma StepKeepsSessions(space: char -> bool, w: World, a: Action)
    requires SessionsOk(w.db.sessions) && Enabled(w, a)
    ensures SessionsOk(Next(space, w, a).db.sessions)
    ensures SessionsMove(w.db.sessions, Next(space, w, a).db.sessions)
  {
    if a.Insert? {
      InsertKeepsSessions(w.db, w.starters[a.p], a.id, a.now);
    } else {
      if a.Work? {
        TaskStepEndsOnly(w.db, w.tasks[a.t], a.step);
      } else if a.End? {
        EndSessionEndsOnly(w.db, a.caller, a.id, a.up);
      } else if a.TimeOut? {
        FailStaleEndsOnly(w.db, a.cutoff);
      } else {
        QuietKeepsTables(space, w, a);
      }
      EndedOnlyMoves(w.db.sessions, Next(space, w, a).db.sessions);
    }
  }

  lemma InsertKeepsSessions(db: Db, user: UserId, id: SessionId, now: int)
    requires SessionsOk(db.sessions) && id !in db.sessions
    ensures var (db', created) := CreateSession(db, user, id, now);
            SessionsOk(db'.sessions) && SessionsMove(db.sessions, db'.sessions)
            && (created <==> !HasActive(db.sessions, user))
            && (created ==> id in db'.sessions && db'.sessions[id] == Session(user, RoomName(id), InProgress, None, now))
            && (forall other | other != id :: other in db'.sessions <==> other in db.sessions)
            && (forall other | other in db.sessions :: db'.sessions[other] == db.sessions[other])
            && db' == db.(sessions := db'.sessions)
  {
    forall other | other in db.sessions
      ensures db.sessions[other].room != RoomName(id)
    {
      if RoomName(other) == RoomName(id) {
        RoomNamesDiffer(other, id);
      }
    }
  }

  /**
    After the time-out has run a user can start a session exactly when none of their sessions in
    progress was started at or after the cutoff: abandoned sessions block nobody.
  */
  lemma TimeOutUnblocks(db: Db, cutoff: int, user: UserId, id: SessionId, now: int)
    requires SessionsOk(db.sessions) && id !in db.sessions
    ensures CreateSession(FailStale(db, cutoff), user, id, now).1
            <==> forall s | s in db.sessions && db.sessions[s].user == user && db.sessions[s].status == InProgress ::
                   db.sessions[s].createdAt < cutoff
  {
    var db' := FailStale(db, cutoff);
    FailStaleEndsOnly(db, cutoff);
    EndedOnlyMoves(db.sessions, db'.sessions);
    InsertKeepsSessions(db', user, id, now);
    assert forall s | s in db.sessions :: db'.sessions[s].user == db.sessions[s].user;
  }

  /**
    What every action does to the sessions: an insert starts one for the user checked, now, unless they
    have one in progress; ending completes one; the time-out fails the stale ones; a report task may
    fail its own; nothing else touches them.
  */
  lemma SessionsChange(space: char -> bool, w: World, a: Action)
    requires SessionsOk(w.db.sessions) && Enabled(w, a)
    ensures var sessions, sessions' := w.db.sessions, Next(space, w, a).db.sessions;
            match a
            case Insert(p, id, now) =>
              sessions' == if HasActive(sessions, w.starters[p]) then sessions
                           else sessions[id := Session(w.starters[p], RoomName(id), InProgress, None, now)]
            case End(caller, id, _, _) =>
              sessions' == if id in sessions && sessions[id].user == caller && sessions[id].status == InProgress
                           then sessions[id := sessions[id].(status := Completed)] else sessions
            case TimeOut(cutoff) =>
              sessions'.Keys == sessions.Keys && forall id | id in sessions ::
                sessions'[id] == if sessions[id].status == InProgress && sessions[id].createdAt < cutoff
                                 then sessions[id].(status := Failed, reason := Some("Session timed out due to inactivity."))
                                 else sessions[id]
            case Work(t, _) =>
              sessions'.Keys == sessions.Keys && forall id | id in sessions ::
                sessions'[id] == sessions[id]
                || (id == w.tasks[t].session && sessions'[id].reason.Some?
                    && sessions'[id] == sessions[id].(status := Failed, reason := sessions'[id].reason))
            case _ => sessions' == sessions
  {
    if a.Insert? {
      InsertKeepsSessions(w.db, w.starters[a.p], a.id, a.now);
    } else if a.Work? {
      TaskStepFailsItsOwn(w.db, w.tasks[a.t], a.step);
    } else if Quiet(a) {
      QuietKeepsTables(space, w, a);
    }
  }

  lemma TaskStepFailsItsOwn(db: Db, t: Task, step: TaskStep)
    requires Fits(t, step)
    ensures var sessions' := TakeStep(db, t, step).0.sessions;
            && sessions'.Keys == db.sessions.Keys
            && forall id | id in db.sessions ::
                 sessions'[id] == db.sessions[id]
                 || (id == t.session && sessions'[id].reason.Some?
                     && sessions'[id] == db.sessions[id].(status := Failed, reason := sessions'[id].reason))
  {
  }

  lemma {:induction false} SessionsOverRuns(space: char -> bool, w: World, run: seq<Action>)
    requires SessionsOk(w.db.sessions) && Possible(space, w, run)
    ensures SessionsOk(After(space, w, run).db.sessions)
    ensures SessionsMove(w.db.sessions, After(space, w, run).db.sessions)
    decreases |run|
  {
    if run != [] {
      var w' := Next(space, w, run[0]);
      StepKeepsSessions(space, w, run[0]);
      SessionsOverRuns(space, w', run[1..]);
    }
  }

  /**
    However starts, ends, time-outs and failing tasks interleave: no user ever has two sessions in
    progress, no two sessions share a room, and a session that has left progress never returns.
  */
  lemma SessionStateMachine(space: char -> bool, before: seq<Action>, after: seq<Action>)
    requires Possible(space, START, before) && Possible(space, After(space, START, before), after)
    ensures var u := After(space, START, before).db.sessions;
            var v := After(space, After(space, START, before), after).db.sessions;
            && (forall a, b | a in v && b in v && a != b ::
                  v[a].room != v[b].room
                  && !(v[a].user == v[b].user && v[a].status == InProgress && v[b].status == InProgress))
            && (forall id | id in u && u[id].status != InProgress :: id in v && v[id].status != InProgress)
            && (forall id | id in u ::
                  id in v && v[id].user == u[id].user && v[id].room == u[id].room && v[id].createdAt == u[id].createdAt)
  {
    SessionsOverRuns(space, START, before);
    SessionsOverRuns(space, After(space, START, before), after);
    var v := After(space, After(space, START, before), after).db.sessions;
    forall a, b | a in v && b in v && a != b
      ensures v[a].room != v[b].room
    {
      if v[a].room == v[b].room {
        RoomNamesDiffer(a, b);
      }
    }
  }

  /** Exactly the sessions in progress since before the cutoff fail, for inactivity; nothing else changes. */
  lemma TimeOutFails(db: Db, cutoff: int)
    ensures var db' := FailStale(db, cutoff);
            && db' == db.(sessions := db'.sessions) && db'.sessions.Keys == db.sessions.Keys
            && forall id | id in db.sessions ::
                 if db.sessions[id].status == InProgress && db.sessions[id].createdAt < cutoff
                 then db'.sessions[id].status == Failed && db'.sessions[id].reason == Some("Session timed out due to inactivity.")
                      && db'.sessions[id] == db.sessions[id].(status := Failed, reason := db'.sessions[id].reason)
                 else db'.sessions[id] == db.sessions[id]
  {
  }

  /** Who may end a session and when, what it is then, and what the others are told. */
  lemma EndIsForTheOwner(db: Db, caller: UserId, id: SessionId, up: bool)
    ensures var (db', outcome) := EndSession(db, caller, id, up);
            && (outcome == EndOutcome.Ended
                <==> id in db.sessions && db.sessions[id].user == caller && db.sessions[id].status == InProgress)
            && (outcome == NotFound <==> id !in db.sessions)
            && (outcome == Forbidden <==> id in db.sessions && db.sessions[id].user != caller)
            && (outcome == EndOutcome.Ended ==>
                  && db'.sessions == db.sessions[id := db.sessions[id].(status := Completed)]
                  && db' == db.(sessions := db'.sessions, transcripts := db'.transcripts))
            && (outcome != EndOutcome.Ended ==> db' == db)
  {
  }

  /**
    A session can be ended once, and by its owner: after a successful end, and whatever happens then,
    ending it again is refused and changes nothing.
  */
  lemma EndsOnceByItsOwner(space: char -> bool, before: seq<Action>, end: Action, after: seq<Action>, again: UserId, up: bool)
    requires Possible(space, START, before) && end.End? && Enabled(After(space, START, before), end)
    requires EndSession(After(space, START, before).db, end.caller, end.id, end.up).1 == EndOutcome.Ended
    requires Possible(space, Next(space, After(space, START, before), end), after)
    ensures var w := After(space, START, before);
            end.id in w.db.sessions && w.db.sessions[end.id].user == end.caller
    ensures var w' := After(space, Next(space, After(space, START, before), end), after);
            EndSession(w'.db, again, end.id, up) == (w'.db, if again == end.caller then NotActive else Forbidden)
  {
    var w := After(space, START, before);
    SessionsOverRuns(space, START, before);
    StepKeepsSessions(space, w, end);
    EndSessionEndsOnly(w.db, end.caller, end.id, end.up);
    SessionsOverRuns(space, Next(space, w, end), after);
  }

  // ---------- reports and tasks ----------

  /** The session exists and is no longer in progress. */
  ghost predicate IsOver(sessions: map<SessionId, Session>, id: SessionId) {
    id in sessions && sessions[id].status != InProgress
  }

  ghost predicate OneReportEach(reports: map<ReportId, Report>) {
    forall r, s | r in reports && s in reports && reports[r].session == reports[s].session :: r == s
  }

  ghost predicate ReportsOver(sessions: map<SessionId, Session>, reports: map<ReportId, Report>) {
    forall r | r in reports :: IsOver(sessions, reports[r].session)
  }

  ghost predicate TasksOver(sessions: map<SessionId, Session>, tasks: map<TaskId, Task>) {
    forall t | t in tasks :: IsOver(sessions, tasks[t].session)
  }

  ghost predicate DueOver(sessions: map<SessionId, Session>, due: set<SessionId>) {
    forall id | id in due :: IsOver(sessions, id)
  }

  /** One report a session at most; reports, tasks and due sessions concern ended sessions only. */
  ghost predicate ReportsOk(w: World) {
    && OneReportEach(w.db.reports) && ReportsOver(w.db.sessions, w.db.reports)
    && TasksOver(w.db.sessions, w.tasks) && DueOver(w.db.sessions, w.due)
  }

  ghost predicate ReportsStay(before: map<ReportId, Report>, after: map<ReportId, Report>) {
    forall r | r in before :: r in after && after[r] == before[r]
  }

  /** A task step stores at most one report, for its own session, and only where there is none. */
  ghost predicate StoresAtMostOne(db: Db, id: SessionId, reports: map<ReportId, Report>) {
    reports == db.reports
    || (!Reported(db, id) && exists r: ReportId, content | r !in db.reports :: reports == db.reports[r := Report(id, content)])
  }

  lemma TaskStepReports(db: Db, t: Task, step: TaskStep)
    requires Fits(t, step)
    ensures TakeStep(db, t, step).1.session == t.session
    ensures StoresAtMostOne(db, t.session, TakeStep(db, t, step).0.reports)
  {
    if step.Save? {
      var (db', committed) := SaveReport(db, step.r, t.session, t.phase.content);
      assert committed ==> step.r !in db.reports && db'.reports == db.reports[step.r := Report(t.session, t.phase.content)];
    }
  }

  lemma OnlyWorkReports(space: char -> bool, w: World, a: Action)
    requires Enabled(w, a) && !a.Work?
    ensures Next(space, w, a).db.reports == w.db.reports
  {
    if a.End? {
      EndSessionEndsOnly(w.db, a.caller, a.id, a.up);
    }
  }

  lemma OneMoreReport(db: Db, id: SessionId, reports: map<ReportId, Report>, sessions: map<SessionId, Session>)
    requires OneReportEach(db.reports) && ReportsOver(db.sessions, db.reports)
    requires IsOver(db.sessions, id) && SessionsMove(db.sessions, sessions) && StoresAtMostOne(db, id, reports)
    ensures OneReportEach(reports) && ReportsOver(sessions, reports) && ReportsStay(db.reports, reports)
  {
  }

  lemma StepKeepsStoredReports(space: char -> bool, w: World, a: Action)
    requires ReportsOk(w) && Enabled(w, a) && SessionsMove(w.db.sessions, Next(space, w, a).db.sessions)
    ensures var db := Next(space, w, a).db;
            OneReportEach(db.reports) && ReportsOver(db.sessions, db.reports) && ReportsStay(w.db.reports, db.reports)
  {
    var db := Next(space, w, a).db;
    if a.Work? {
      TaskStepReports(w.db, w.tasks[a.t], a.step);
      OneMoreReport(w.db, w.tasks[a.t].session, db.reports, db.sessions);
    } else {
      OnlyWorkReports(space, w, a);
    }
  }

  /** An action leaves a task alone, lets it step, or starts it anew with nothing spent in this attempt. */
  lemma TasksAfter(space: char -> bool, w: World, a: Action, t: TaskId)
    requires Enabled(w, a) && t in Next(space, w, a).tasks
    ensures var t' := Next(space, w, a).tasks[t];
            if a.Work? && a.t == t then t in w.tasks && t' == TakeStep(w.db, w.tasks[t], a.step).1
            else if t in w.tasks then t' == w.tasks[t]
            else if a.Redeliver? then t' == Redelivered(w.tasks[a.t])
            else t' == NewTask(t'.session)
  {
  }

  /** Ending with a task sent, reconciliation, a request and a redelivery each start a delivery of their session. */
  lemma DeliveriesBegin(space: char -> bool, w: World, a: Action)
    requires Enabled(w, a)
    ensures var tasks := Next(space, w, a).tasks;
            match a
            case End(caller, id, up, dispatched) =>
              tasks == if EndSession(w.db, caller, id, up).1 == EndOutcome.Ended && dispatched.Some?
                       then w.tasks[dispatched.value := Task(id, Waiting, 0, 0, 0.0, 0.0)] else w.tasks
            case Dispatch(id, t) => tasks == w.tasks[t := Task(id, Waiting, 0, 0, 0.0, 0.0)]
            case Request(id, t) => tasks == w.tasks[t := Task(id, Waiting, 0, 0, 0.0, 0.0)]
            case Redeliver(t, copy) =>
              && tasks.Keys == w.tasks.Keys + {copy} && (forall u | u in w.tasks :: tasks[u] == w.tasks[u])
              && tasks[copy] == Task(w.tasks[t].session, Waiting, w.tasks[t].retries, 0, 0.0, w.tasks[t].waited)
            case Work(t, _) => tasks.Keys == w.tasks.Keys && forall u | u in w.tasks && u != t :: tasks[u] == w.tasks[u]
            case _ => tasks == w.tasks
  {
  }

  lemma TaskStays(space: char -> bool, w: World, a: Action, t: TaskId)
    requires Enabled(w, a) && t in w.tasks
    ensures t in Next(space, w, a).tasks
  {
  }

  /** A new task is for a due session, one just ended, or one already completed. */
  lemma NewTasksAreOver(space: char -> bool, w: World, a: Action, t: TaskId)
    requires Enabled(w, a) && DueOver(w.db.sessions, w.due) && SessionsMove(w.db.sessions, Next(space, w, a).db.sessions)
    requires !a.Work? && !a.Redeliver? && t !in w.tasks && t in Next(space, w, a).tasks
    ensures IsOver(Next(space, w, a).db.sessions, Next(space, w, a).tasks[t].session)
  {
    if a.End? {
      EndSessionEndsOnly(w.db, a.caller, a.id, a.up);
    }
  }

  lemma StepKeepsTasksOver(space: char -> bool, w: World, a: Action)
    requires ReportsOk(w) && Enabled(w, a) && SessionsMove(w.db.sessions, Next(space, w, a).db.sessions)
    ensures TasksOver(Next(space, w, a).db.sessions, Next(space, w, a).tasks)
  {
    forall t | t in Next(space, w, a).tasks
      ensures IsOver(Next(space, w, a).db.sessions, Next(space, w, a).tasks[t].session)
    {
      TasksAfter(space, w, a, t);
      if a.Work? && a.t == t {
        TaskStepReports(w.db, w.tasks[t], a.step);
      } else if t !in w.tasks && !a.Redeliver? {
        NewTasksAreOver(space, w, a, t);
      }
    }
  }

  lemma StepKeepsDueOver(space: char -> bool, w: World, a: Action)
    requires DueOver(w.db.sessions, w.due) && Enabled(w, a) && SessionsMove(w.db.sessions, Next(space, w, a).db.sessions)
    ensures DueOver(Next(space, w, a).db.sessions, Next(space, w, a).due)
  {
    assert forall id | id in Next(space, w, a).due :: id in w.due || (a.FindDue? && a.id == id);
  }

  lemma StepKeepsReports(space: char -> bool, w: World, a: Action)
    requires SessionsOk(w.db.sessions) && ReportsOk(w) && Enabled(w, a)
    ensures ReportsOk(Next(space, w, a)) && ReportsStay(w.db.reports, Next(space, w, a).db.reports)
  {
    StepKeepsSessions(space, w, a);
    StepKeepsStoredReports(space, w, a);
    StepKeepsTasksOver(space, w, a);
    StepKeepsDueOver(space, w, a);
  }

  lemma {:induction false} ReportsOverRuns(space: char -> bool, w: World, run: seq<Action>)
    requires SessionsOk(w.db.sessions) && ReportsOk(w) && Possible(space, w, run)
    ensures ReportsOk(After(space, w, run)) && ReportsStay(w.db.reports, After(space, w, run).db.reports)
    decreases |run|
  {
    if run != [] {
      StepKeepsSessions(space, w, run[0]);
      StepKeepsReports(space, w, run[0]);
      ReportsOverRuns(space, Next(space, w, run[0]), run[1..]);
    }
  }

  /**
    However many deliveries of the report task interleave at check, evaluation and save: a session
    has at most one report, a stored report never changes, and neither a task nor a report exists for
    a session still in progress.
  */
  lemma DuplicateDeliveriesAreSafe(space: char -> bool, before: seq<Action>, after: seq<Action>)
    requires Possible(space, START, before) && Possible(space, After(space, START, before), after)
    ensures ReportsOk(After(space, After(space, START, before), after))
    ensures ReportsStay(After(space, START, before).db.reports,
                        After(space, After(space, START, before), after).db.reports)
  {
    SessionsOverRuns(space, START, before);
    ReportsOverRuns(space, START, before);
    ReportsOverRuns(space, After(space, START, before), after);
  }

}
