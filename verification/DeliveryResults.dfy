/** How deliveries of the report task end, whatever runs beside them and whichever of their calls fail. */
module DeliveryResults {
  import opened Wrappers
  import opened Retry
  import opened SessionStore
  import opened Lifecycle
  import opened LifecycleResults

  // ---------- conclusions and crashes ----------

  /** A delivery that has finished without crashing leaves a report, or a failed session. */
  ghost predicate Concluded(db: Db, t: Task) {
    t.phase.Finished? && t.phase.result != Crashed ==>
      if t.phase.result == GaveUp then t.session in db.sessions && db.sessions[t.session].status == Failed
      else Reported(db, t.session)
  }

  /** The exception being handled cannot be: the call that this takes is not answered. */
  predicate Stranded(t: Task, support: Support) {
    if t.retries < MAX_RETRIES then !support.send else !support.mark
  }

  /** The step makes a call that no handler guards, and the call is not answered. */
  predicate Crashes(db: Db, t: Task, step: TaskStep)
    requires Fits(t, step)
  {
    match step
    case Check(up) => !up
    case Read(_) => false
    case Score(_, _) => false
    case Fail(_, _, _, support) => Stranded(t, support)
    case Save(r, _, support) =>
      (r in db.reports || Reported(db, t.session))
      && (!support.lookup || (!Reported(db, t.session) && Stranded(t, support)))
    case FailSave(_, _, support) => Stranded(t, support)
  }

  /** A step of delivery `t` crashes in the course of the run. */
  ghost predicate HasCrash(space: char -> bool, w: World, run: seq<Action>, t: TaskId)
    requires Possible(space, w, run)
    decreases |run|
  {
    run != [] && ((run[0].Work? && run[0].t == t && Crashes(w.db, w.tasks[t], run[0].step))
                  || HasCrash(space, Next(space, w, run[0]), run[1..], t))
  }

  /**
    The step that finishes a delivery leaves a report or a failed session, where there was neither,
    exactly when it does not crash.
  */
  lemma EndsWellIff(db: Db, t: Task, step: TaskStep)
    requires Fits(t, step) && TakeStep(db, t, step).1.phase.Finished?
    requires t.session in db.sessions && db.sessions[t.session].status != Failed && !Reported(db, t.session)
    ensures var db' := TakeStep(db, t, step).0;
            Reported(db', t.session) || db'.sessions[t.session].status == Failed <==> !Crashes(db, t, step)
  {
    if step.Save? {
      var (db', committed) := SaveReport(db, step.r, t.session, t.phase.content);
      assert committed ==> db'.reports[step.r].session == t.session;
    }
  }

  lemma CrashedIfCrashes(db: Db, t: Task, step: TaskStep)
    requires Fits(t, step)
    ensures TakeStep(db, t, step).1.phase == Finished(Crashed) <==> Crashes(db, t, step)
    ensures Crashes(db, t, step) ==> TakeStep(db, t, step).0 == db
  {
  }

  lemma ConclusionsLast(db: Db, db': Db, t: Task)
    requires Concluded(db, t) && SessionsMove(db.sessions, db'.sessions) && ReportsStay(db.reports, db'.reports)
    ensures Concluded(db', t)
  {
    if Reported(db, t.session) {
      ReportedStays(db, db', t.session);
    }
  }

  lemma TaskStepConcludes(db: Db, t: Task, step: TaskStep)
    requires Fits(t, step) && t.session in db.sessions
    ensures Concluded(TakeStep(db, t, step).0, TakeStep(db, t, step).1)
  {
    if step.Save? {
      var (db', committed) := SaveReport(db, step.r, t.session, t.phase.content);
      assert committed ==> db'.reports[step.r].session == t.session;
    }
  }

  /** Loading reads the buffer at most three times, so at most nine steps lie between waiting and the end. */
  function Rank(p: Phase): int {
    match p
    case Waiting => 9
    case ReadingStored(k) => 8 - 2 * k
    case ReadingMirror(k) => 7 - 2 * k
    case Scoring(_) => 2
    case Saving(_) => 1
    case Finished(_) => 0
  }

  /** An upper bound on the steps a delivery can still take. */
  function StepsLeft(t: Task): int {
    10 * (MAX_RETRIES - t.retries) + Rank(t.phase)
  }

  function AttemptsScored(t: Task): nat {
    if t.phase.Saving? || t.phase.Finished? then t.retries + 1 else t.retries
  }

  /** Twice the longest sleep within one attempt. */
  const ATTEMPT_SLEEP: real := BASE_DELAY * (INNER_RETRIES * (INNER_RETRIES + 1)) as real

  /** The model calls of an attempt, and the sleep between them, stay within what `call_with_retry` allows. */
  ghost predicate CallsWithinBudget(t: Task) {
    && t.calls <= AttemptsScored(t) * (INNER_RETRIES + 1)
    && 2.0 * t.slept <= ATTEMPT_SLEEP * AttemptsScored(t) as real
  }

  /** n retries wait 10(2^n - 1) and the jitter. */
  ghost predicate WaitWithinBudget(t: Task) {
    10.0 * (Pow2(t.retries) - 1) as real <= t.waited <= 10.0 * (Pow2(t.retries) - 1) as real + JITTER * t.retries as real
  }

  ghost predicate WithinBudget(t: Task) {
    && t.retries <= MAX_RETRIES
    && (t.phase.ReadingStored? || t.phase.ReadingMirror? ==> t.phase.attempt < READ_ATTEMPTS)
    && CallsWithinBudget(t) && WaitWithinBudget(t)
  }

  /** What one attempt spends on the model. */
  lemma SpentWithinBudget(t: Task, made: seq<Outcome<string>>, retries: nat)
    requires made == [] || CallsMade(made, INNER_RETRIES)
    requires t.calls <= retries * (INNER_RETRIES + 1) && 2.0 * t.slept <= ATTEMPT_SLEEP * retries as real
    ensures Spent(t, made).calls <= (retries + 1) * (INNER_RETRIES + 1)
    ensures 2.0 * Spent(t, made).slept <= ATTEMPT_SLEEP * (retries + 1) as real
  {
    if made != [] {
      RetryBudget(made, INNER_RETRIES, BASE_DELAY);
    }
    assert ATTEMPT_SLEEP * (retries + 1) as real == ATTEMPT_SLEEP * retries as real + ATTEMPT_SLEEP;
  }

  lemma RetryKeepsBudget(db: Db, t: Task, why: string, jitter: real, support: Support)
    requires t.retries <= MAX_RETRIES && 0.0 <= jitter <= JITTER && WaitWithinBudget(t)
    requires t.calls <= (t.retries + 1) * (INNER_RETRIES + 1) && 2.0 * t.slept <= ATTEMPT_SLEEP * (t.retries + 1) as real
    ensures WithinBudget(Retried(db, t, why, jitter, support).1)
  {
    assert Pow2(t.retries + 1) == 2 * Pow2(t.retries);
    assert (2 * Pow2(t.retries) - 1) as real == (Pow2(t.retries) - 1) as real + Pow2(t.retries) as real;
    assert JITTER * (t.retries + 1) as real == JITTER * t.retries as real + JITTER;
  }

  lemma RetryUsesUp(db: Db, t: Task, why: string, jitter: real, support: Support)
    requires t.retries <= MAX_RETRIES && Rank(t.phase) > 0
    ensures 0 <= StepsLeft(Retried(db, t, why, jitter, support).1) < StepsLeft(t)
  {
  }

  lemma CheckKeepsBudget(db: Db, t: Task, up: bool)
    requires WithinBudget(t) && Fits(t, Check(up))
    ensures WithinBudget(TakeStep(db, t, Check(up)).1)
    ensures 0 <= StepsLeft(TakeStep(db, t, Check(up)).1) < StepsLeft(t)
  {
    SpentWithinBudget(t, [], t.retries);
  }

  lemma ReadKeepsBudget(db: Db, t: Task, up: bool)
    requires WithinBudget(t) && Fits(t, Read(up))
    ensures WithinBudget(TakeStep(db, t, Read(up)).1)
    ensures 0 <= StepsLeft(TakeStep(db, t, Read(up)).1) < StepsLeft(t)
  {
  }

  lemma ScoreKeepsBudget(db: Db, t: Task, made: seq<Outcome<string>>, content: string)
    requires WithinBudget(t) && Fits(t, Score(made, content))
    ensures WithinBudget(TakeStep(db, t, Score(made, content)).1)
    ensures 0 <= StepsLeft(TakeStep(db, t, Score(made, content)).1) < StepsLeft(t)
  {
    SpentWithinBudget(t, made, t.retries);
  }

  lemma FailKeepsBudget(db: Db, t: Task, made: seq<Outcome<string>>, why: string, jitter: real, support: Support)
    requires WithinBudget(t) && Fits(t, Fail(made, why, jitter, support))
    ensures WithinBudget(TakeStep(db, t, Fail(made, why, jitter, support)).1)
    ensures 0 <= StepsLeft(TakeStep(db, t, Fail(made, why, jitter, support)).1) < StepsLeft(t)
  {
    SpentWithinBudget(t, made, t.retries);
    RetryKeepsBudget(db, Spent(t, made), why, jitter, support);
    RetryUsesUp(db, Spent(t, made), why, jitter, support);
    assert StepsLeft(Spent(t, made)) == StepsLeft(t);
  }

  lemma SaveKeepsBudget(db: Db, t: Task, step: TaskStep)
    requires WithinBudget(t) && Fits(t, step) && (step.Save? || step.FailSave?)
    ensures WithinBudget(TakeStep(db, t, step).1)
    ensures 0 <= StepsLeft(TakeStep(db, t, step).1) < StepsLeft(t)
  {
    RetryKeepsBudget(db, t, if step.Save? then INTEGRITY_ERROR else step.why, step.jitter, step.support);
    if step.Save? {
      EndsKeepBudget(t);
    }
  }

  lemma EndsKeepBudget(t: Task)
    requires WithinBudget(t) && t.phase.Saving?
    ensures forall result :: WithinBudget(t.(phase := Finished(result)))
  {
  }

  lemma TaskStepKeepsBudget(db: Db, t: Task, step: TaskStep)
    requires WithinBudget(t) && Fits(t, step)
    ensures WithinBudget(TakeStep(db, t, step).1)
    ensures 0 <= StepsLeft(TakeStep(db, t, step).1) < StepsLeft(t)
  {
    match step {
      case Check(up) => CheckKeepsBudget(db, t, up);
      case Read(up) => ReadKeepsBudget(db, t, up);
      case Score(made, content) => ScoreKeepsBudget(db, t, made, content);
      case Fail(made, why, jitter, support) => FailKeepsBudget(db, t, made, why, jitter, support);
      case Save(_, _, _) => SaveKeepsBudget(db, t, step);
      case FailSave(_, _, _) => SaveKeepsBudget(db, t, step);
    }
  }

  /** An unfinished delivery can always take a step. */
  lemma UnfinishedCanStep(t: Task)
    requires !t.phase.Finished?
    ensures exists step :: Fits(t, step)
  {
    match t.phase {
      case Waiting => assert Fits(t, Check(true));
      case ReadingStored(_) => assert Fits(t, Read(true));
      case ReadingMirror(_) => assert Fits(t, Read(true));
      case Scoring(_) => assert Fits(t, Score([Value("")], ""));
      case Saving(_) => assert Fits(t, FailSave("", 0.0, Support(true, true, true)));
    }
  }

  ghost predicate TasksOk(w: World) {
    forall t | t in w.tasks :: Concluded(w.db, w.tasks[t]) && WithinBudget(w.tasks[t])
  }

  lemma NewOrCopyIsFine(db: Db, t: Task, id: SessionId)
    ensures Concluded(db, NewTask(id)) && WithinBudget(NewTask(id))
    ensures WithinBudget(t) ==> Concluded(db, Redelivered(t)) && WithinBudget(Redelivered(t))
  {
    assert Pow2(0) == 1;
    SpentWithinBudget(NewTask(id), [], 0);
    assert 0.0 <= ATTEMPT_SLEEP * t.retries as real;
  }

  lemma StepKeepsTask(space: char -> bool, w: World, a: Action, t: TaskId)
    requires TasksOk(w) && TasksOver(w.db.sessions, w.tasks) && Enabled(w, a) && t in Next(space, w, a).tasks
    requires SessionsMove(w.db.sessions, Next(space, w, a).db.sessions)
    requires ReportsStay(w.db.reports, Next(space, w, a).db.reports)
    ensures Concluded(Next(space, w, a).db, Next(space, w, a).tasks[t]) && WithinBudget(Next(space, w, a).tasks[t])
  {
    TasksAfter(space, w, a, t);
    if a.Work? && t == a.t {
      TaskStepConcludes(w.db, w.tasks[t], a.step);
      TaskStepKeepsBudget(w.db, w.tasks[t], a.step);
    } else if t in w.tasks {
      ConclusionsLast(w.db, Next(space, w, a).db, w.tasks[t]);
    } else {
      NewOrCopyIsFine(Next(space, w, a).db, if a.Redeliver? then w.tasks[a.t] else NewTask(""), Next(space, w, a).tasks[t].session);
    }
  }

  lemma StepKeepsTasks(space: char -> bool, w: World, a: Action)
    requires SessionsOk(w.db.sessions) && ReportsOk(w) && TasksOk(w) && Enabled(w, a)
    ensures TasksOk(Next(space, w, a))
  {
    StepKeepsSessions(space, w, a);
    StepKeepsReports(space, w, a);
    forall t | t in Next(space, w, a).tasks
      ensures Concluded(Next(space, w, a).db, Next(space, w, a).tasks[t]) && WithinBudget(Next(space, w, a).tasks[t])
    {
      StepKeepsTask(space, w, a, t);
    }
  }

  lemma {:induction false} TasksOverRuns(space: char -> bool, w: World, run: seq<Action>)
    requires SessionsOk(w.db.sessions) && ReportsOk(w) && TasksOk(w) && Possible(space, w, run)
    ensures TasksOk(After(space, w, run))
    decreases |run|
  {
    if run != [] {
      StepKeepsSessions(space, w, run[0]);
      StepKeepsReports(space, w, run[0]);
      StepKeepsTasks(space, w, run[0]);
      TasksOverRuns(space, Next(space, w, run[0]), run[1..]);
    }
  }

  /** How often delivery `t` steps in a run. */
  function StepsOf(run: seq<Action>, t: TaskId): nat {
    if run == [] then 0 else (if run[0].Work? && run[0].t == t then 1 else 0) + StepsOf(run[1..], t)
  }

  /** The steps a delivery takes are paid for by what it has left; nothing else touches it. */
  lemma {:induction false} DeliveryIsBounded(space: char -> bool, w: World, run: seq<Action>, t: TaskId)
    requires SessionsOk(w.db.sessions) && ReportsOk(w) && TasksOk(w) && Possible(space, w, run) && t in w.tasks
    ensures t in After(space, w, run).tasks
    ensures StepsOf(run, t) + StepsLeft(After(space, w, run).tasks[t]) <= StepsLeft(w.tasks[t])
    ensures 0 <= StepsLeft(After(space, w, run).tasks[t])
    decreases |run|
  {
    if run != [] {
      var w' := Next(space, w, run[0]);
      StepKeepsSessions(space, w, run[0]);
      StepKeepsReports(space, w, run[0]);
      StepKeepsTasks(space, w, run[0]);
      TaskStays(space, w, run[0], t);
      TasksAfter(space, w, run[0], t);
      if run[0].Work? && run[0].t == t {
        TaskStepKeepsBudget(w.db, w.tasks[t], run[0].step);
      }
      DeliveryIsBounded(space, w', run[1..], t);
    }
  }

  lemma ReportedStays(db: Db, db': Db, id: SessionId)
    requires Reported(db, id) && ReportsStay(db.reports, db'.reports)
    ensures Reported(db', id)
  {
    var r :| r in db.reports && db.reports[r].session == id;
    assert r in db'.reports && db'.reports[r].session == id;
  }

  /** Not started yet, or ended before doing anything. */
  predicate Idle(p: Phase) {
    p == Waiting || p == Finished(AlreadyThere) || p == Finished(Crashed)
  }

  lemma StaysIdle(db: Db, t: Task, step: TaskStep)
    requires Fits(t, step) && Reported(db, t.session) && Idle(t.phase)
    ensures var t' := TakeStep(db, t, step).1;
            Idle(t'.phase) && t'.calls == t.calls && t'.session == t.session
  {
  }

  lemma ActionLeavesIdle(space: char -> bool, w: World, a: Action, t: TaskId)
    requires Enabled(w, a) && t in w.tasks && Reported(w.db, w.tasks[t].session) && Idle(w.tasks[t].phase)
    ensures var w' := Next(space, w, a);
            && t in w'.tasks && Idle(w'.tasks[t].phase)
            && w'.tasks[t].calls == w.tasks[t].calls && w'.tasks[t].session == w.tasks[t].session
  {
    TaskStays(space, w, a, t);
    TasksAfter(space, w, a, t);
    if a.Work? && a.t == t {
      StaysIdle(w.db, w.tasks[t], a.step);
    }
  }

  /** A delivery that starts when the session has its report makes no model call. */
  lemma {:induction false} ReportedCostsNothing(space: char -> bool, w: World, run: seq<Action>, t: TaskId)
    requires SessionsOk(w.db.sessions) && ReportsOk(w) && Possible(space, w, run) && t in w.tasks
    requires Reported(w.db, w.tasks[t].session) && Idle(w.tasks[t].phase)
    ensures var w' := After(space, w, run);
            t in w'.tasks && w'.tasks[t].calls == w.tasks[t].calls && Idle(w'.tasks[t].phase)
    decreases |run|
  {
    if run != [] {
      var w' := Next(space, w, run[0]);
      StepKeepsSessions(space, w, run[0]);
      StepKeepsReports(space, w, run[0]);
      ActionLeavesIdle(space, w, run[0], t);
      ReportedStays(w.db, w'.db, w.tasks[t].session);
      ReportedCostsNothing(space, w', run[1..], t);
    }
  }

  lemma BudgetInNumbers(t: Task)
    requires WithinBudget(t)
    ensures t.retries <= MAX_RETRIES && StepsLeft(t) <= 39
    ensures t.calls <= 12 && t.slept <= 12.0
    ensures WaitWithinBudget(t)
  {
    assert AttemptsScored(t) <= MAX_RETRIES + 1;
    Monotone(ATTEMPT_SLEEP, AttemptsScored(t), MAX_RETRIES + 1);
  }

  /** A delivery has crashed exactly when one of its steps has. */
  lemma {:induction false} CrashedIff(space: char -> bool, w: World, run: seq<Action>, t: TaskId)
    requires Possible(space, w, run) && t in w.tasks
    ensures t in After(space, w, run).tasks
    ensures After(space, w, run).tasks[t].phase == Finished(Crashed)
            <==> w.tasks[t].phase == Finished(Crashed) || HasCrash(space, w, run, t)
    decreases |run|
  {
    if run != [] {
      TaskStays(space, w, run[0], t);
      TasksAfter(space, w, run[0], t);
      if run[0].Work? && run[0].t == t {
        CrashedIfCrashes(w.db, w.tasks[t], run[0].step);
      }
      CrashedIff(space, Next(space, w, run[0]), run[1..], t);
    }
  }

  /**
    Every delivery of the report task ends: it takes at most 39 steps in any run, and as long as it
    has not finished it can take one more.  Finished, it has left a report or a failed session, unless
    one of its steps has crashed, which it then records.  In its at most four attempts it makes at most
    12 model calls and sleeps at most 12 seconds between them, and its countdowns add up to 10(2^k - 1)
    plus jitter of at most 3k for the k retries it took.
  */
  lemma DeliveriesEnd(space: char -> bool, before: seq<Action>, after: seq<Action>, t: TaskId)
    requires Possible(space, START, before) && Possible(space, After(space, START, before), after)
    requires t in After(space, START, before).tasks && !After(space, START, before).tasks[t].phase.Finished?
    ensures StepsOf(after, t) <= 39
    ensures var w := After(space, After(space, START, before), after);
            && t in w.tasks
            && (!w.tasks[t].phase.Finished? ==> exists step :: Fits(w.tasks[t], step))
            && (w.tasks[t].phase == Finished(Crashed) <==> HasCrash(space, After(space, START, before), after, t))
            && Concluded(w.db, w.tasks[t])
            && w.tasks[t].retries <= 3 && w.tasks[t].calls <= 12 && w.tasks[t].slept <= 12.0
            && WaitWithinBudget(w.tasks[t])
  {
    SessionsOverRuns(space, START, before);
    ReportsOverRuns(space, START, before);
    TasksOverRuns(space, START, before);
    var w := After(space, START, before);
    DeliveryIsBounded(space, w, after, t);
    TasksOverRuns(space, w, after);
    CrashedIff(space, w, after, t);
    var w' := After(space, w, after);
    BudgetInNumbers(w.tasks[t]);
    BudgetInNumbers(w'.tasks[t]);
    if !w'.tasks[t].phase.Finished? {
      UnfinishedCanStep(w'.tasks[t]);
    }
  }

  // ---------- after a crash ----------

  /** A crash changes no table; a completed session without a report is still found by reconciliation, which starts a new delivery. */
  lemma CrashLeavesItDue(space: char -> bool, w: World, a: Action, anew: TaskId)
    requires Enabled(w, a) && a.Work? && Crashes(w.db, w.tasks[a.t], a.step) && anew !in w.tasks
    requires var id := w.tasks[a.t].session;
             id in w.db.sessions && w.db.sessions[id].status == Completed && !Reported(w.db, id)
    ensures var w', id := Next(space, w, a), w.tasks[a.t].session;
            && w'.db == w.db
            && Possible(space, w', [FindDue(id), Dispatch(id, anew)])
            && anew in After(space, w', [FindDue(id), Dispatch(id, anew)]).tasks
            && After(space, w', [FindDue(id), Dispatch(id, anew)]).tasks[anew] == NewTask(id)
  {
    var w', id := Next(space, w, a), w.tasks[a.t].session;
    CrashedIfCrashes(w.db, w.tasks[a.t], a.step);
    OneMoreAction(space, w', [], FindDue(id));
    assert [] + [FindDue(id)] == [FindDue(id)];
    OneMoreAction(space, w', [FindDue(id)], Dispatch(id, anew));
    assert [FindDue(id)] + [Dispatch(id, anew)] == [FindDue(id), Dispatch(id, anew)];
  }

  const OUTAGE: Support := Support(false, false, false)
  const NO_OUTAGE: Support := Support(true, true, true)

  lemma WorkOn(space: char -> bool, w: World, run: seq<Action>, t: TaskId, step: TaskStep) returns (longer: seq<Action>)
    requires Possible(space, w, run) && t in After(space, w, run).tasks && Fits(After(space, w, run).tasks[t], step)
    ensures Possible(space, w, longer) && (WorkersOnly(run) ==> WorkersOnly(longer))
    ensures var u, u' := After(space, w, run), After(space, w, longer);
            && t in u'.tasks && u'.db == TakeStep(u.db, u.tasks[t], step).0 && u'.tasks[t] == TakeStep(u.db, u.tasks[t], step).1
  {
    OneMoreAction(space, w, run, Work(t, step));
    longer := run + [Work(t, step)];
  }

  /** Only reconciliation of reports and the report tasks act. */
  ghost predicate WorkersOnly(run: seq<Action>) {
    forall a | a in run :: a.FindDue? || a.Dispatch? || a.Work?
  }

  /** An attempt that fails while loading and is retried. */
  lemma FailedAttempt(space: char -> bool, run: seq<Action>, t: TaskId) returns (longer: seq<Action>)
    requires Possible(space, START, run) && t in After(space, START, run).tasks
    requires var w := After(space, START, run);
             w.tasks[t].phase == Waiting && w.tasks[t].retries < MAX_RETRIES && !Reported(w.db, w.tasks[t].session)
    ensures Possible(space, START, longer) && t in After(space, START, longer).tasks
    ensures var w, w' := After(space, START, run), After(space, START, longer);
            && w'.db == w.db && w'.tasks[t].phase == Waiting && w'.tasks[t].session == w.tasks[t].session
            && w'.tasks[t].retries == w.tasks[t].retries + 1
  {
    longer := WorkOn(space, START, run, t, Check(true));
    longer := WorkOn(space, START, longer, t, Fail([], "", 0.0, NO_OUTAGE));
  }

  predicate Loading(p: Phase) {
    p.Scoring? || ((p.ReadingStored? || p.ReadingMirror?) && p.attempt < READ_ATTEMPTS)
  }

  lemma ReadLeadsOn(db: Db, t: Task)
    requires Loading(t.phase) && !t.phase.Scoring?
    ensures Fits(t, Read(true))
    ensures var (db', t') := TakeStep(db, t, Read(true));
            && db' == db && Loading(t'.phase) && 0 <= Rank(t'.phase) < Rank(t.phase)
            && t'.session == t.session && t'.retries == t.retries
  {
  }

  /** Loading comes to an end, and the delivery gets as far as scoring. */
  lemma {:induction false} LoadedInTheEnd(space: char -> bool, w: World, run: seq<Action>, t: TaskId) returns (longer: seq<Action>)
    requires Possible(space, w, run) && t in After(space, w, run).tasks && Loading(After(space, w, run).tasks[t].phase)
    ensures Possible(space, w, longer) && t in After(space, w, longer).tasks && (WorkersOnly(run) ==> WorkersOnly(longer))
    ensures var u, u' := After(space, w, run), After(space, w, longer);
            && u'.db == u.db && u'.tasks[t].phase.Scoring? && u'.tasks[t].session == u.tasks[t].session
            && u'.tasks[t].retries == u.tasks[t].retries
    decreases Rank(After(space, w, run).tasks[t].phase)
  {
    longer := run;
    if !After(space, w, run).tasks[t].phase.Scoring? {
      ReadLeadsOn(After(space, w, run).db, After(space, w, run).tasks[t]);
      longer := WorkOn(space, w, run, t, Read(true));
      longer := LoadedInTheEnd(space, w, longer, t);
    }
  }

  /** An attempt that gets as far as saving. */
  lemma AttemptUpToSaving(space: char -> bool, w: World, run: seq<Action>, t: TaskId) returns (longer: seq<Action>)
    requires Possible(space, w, run) && t in After(space, w, run).tasks
    requires var u := After(space, w, run); u.tasks[t].phase == Waiting && !Reported(u.db, u.tasks[t].session)
    ensures Possible(space, w, longer) && t in After(space, w, longer).tasks && (WorkersOnly(run) ==> WorkersOnly(longer))
    ensures var u, u' := After(space, w, run), After(space, w, longer);
            && u'.db == u.db && u'.tasks[t].phase == Saving("") && u'.tasks[t].session == u.tasks[t].session
            && u'.tasks[t].retries == u.tasks[t].retries
  {
    longer := WorkOn(space, w, run, t, Check(true));
    longer := LoadedInTheEnd(space, w, longer, t);
    longer := WorkOn(space, w, longer, t, Score([Value("")], ""));
  }

  lemma EndedWithDelivery(space: char -> bool, user: UserId, id: SessionId, t: TaskId) returns (run: seq<Action>)
    ensures Possible(space, START, run)
    ensures var w := After(space, START, run);
            && w.db == Db(map[id := Session(user, RoomName(id), Completed, None, 0)], map[], map[], map[])
            && t in w.tasks && w.tasks[t] == NewTask(id)
  {
    run := Opened(space, user, id);
    OneMoreAction(space, START, run, End(user, id, true, Some(t)));
    run := run + [End(user, id, true, Some(t))];
    assert After(space, START, run).db.sessions == map[id := Session(user, RoomName(id), Completed, None, 0)];
  }

  /**
    The database goes down while the last attempt saves: the save fails, so does marking the session,
    and the delivery ends with neither a report nor a failed session.
  */
  lemma OutageLeavesNothing(space: char -> bool, user: UserId, id: SessionId, t: TaskId) returns (run: seq<Action>)
    ensures Possible(space, START, run)
    ensures var w := After(space, START, run);
            && t in w.tasks && w.tasks[t].session == id && w.tasks[t].phase == Finished(Crashed) && w.tasks[t].retries == MAX_RETRIES
            && !Reported(w.db, id) && id in w.db.sessions && w.db.sessions[id].status == Completed
  {
    run := EndedWithDelivery(space, user, id, t);
    run := FailedAttempt(space, run, t);
    run := FailedAttempt(space, run, t);
    run := FailedAttempt(space, run, t);
    run := AttemptUpToSaving(space, START, run, t);
    run := WorkOn(space, START, run, t, FailSave("", 0.0, OUTAGE));
  }

  // ---------- no dead end ----------

  lemma {:induction false} FreshNumber(used: set<nat>) returns (n: nat)
    ensures forall k | k in used :: k < n
  {
    if used == {} {
      n := 0;
    } else {
      var k :| k in used;
      var bound := FreshNumber(used - {k});
      n := if k < bound then bound else k + 1;
      forall j | j in used
        ensures j < n
      {
        assert j == k || j in used - {k};
      }
    }
  }

  lemma NewDelivery(space: char -> bool, w: World, id: SessionId) returns (run: seq<Action>, t: TaskId)
    requires id in w.db.sessions && w.db.sessions[id].status == Completed && !Reported(w.db, id)
    ensures Possible(space, w, run) && WorkersOnly(run)
    ensures var u := After(space, w, run); u.db == w.db && t in u.tasks && u.tasks[t] == NewTask(id)
  {
    t := FreshNumber(w.tasks.Keys);
    run := [FindDue(id)];
    OneMoreAction(space, w, [], FindDue(id));
    assert [] + [FindDue(id)] == run;
    OneMoreAction(space, w, run, Dispatch(id, t));
    run := run + [Dispatch(id, t)];
  }

  /**
    There is no dead end: whatever has happened, a completed session without a report can still get
    one, by reconciliation and one delivery alone and without any other change to the tables.
  */
  lemma NoDeadEnd(space: char -> bool, w: World, id: SessionId) returns (after: seq<Action>, r: ReportId)
    requires id in w.db.sessions && w.db.sessions[id].status == Completed && !Reported(w.db, id)
    ensures Possible(space, w, after) && WorkersOnly(after)
    ensures r !in w.db.reports && After(space, w, after).db == w.db.(reports := w.db.reports[r := Report(id, "")])
    ensures Reported(After(space, w, after).db, id)
  {
    var t;
    after, t := NewDelivery(space, w, id);
    after := AttemptUpToSaving(space, w, after, t);
    r := FreshNumber(w.db.reports.Keys);
    after := WorkOn(space, w, after, t, Save(r, 0.0, NO_OUTAGE));
    assert After(space, w, after).db.reports[r].session == id;
  }
}
