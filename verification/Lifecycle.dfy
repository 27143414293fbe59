/**
  The interview lifecycle as a transition system: API requests, the voice agent, report tasks and the
  periodic workers act on the shared tables in any order.
*/
module Lifecycle {
  import opened Wrappers
  import opened Retry
  import opened SessionStore

  type ProcessId = nat
  type TaskId = nat

  const MAX_RETRIES: nat := 3   // outer retries of a report task
  const INNER_RETRIES: nat := 2 // retries of the model call within one attempt
  const BASE_DELAY: real := 1.0
  const READ_ATTEMPTS: nat := 3 // reads of the live buffer while loading the turns
  const JITTER: real := 3.0

  /** `Crashed`: the delivery ended in an exception that nothing handles. */
  datatype Result = Stored | AlreadyThere | GaveUp | Crashed

  /** Where a delivery of the report task stands; loading alternates between the table and the live buffer. */
  datatype Phase =
    | Waiting
    | ReadingStored(attempt: nat)
    | ReadingMirror(attempt: nat)
    | Scoring(turns: seq<LoggedTurn>)
    | Saving(content: string)
    | Finished(result: Result)

  /** `calls` counts model calls, `slept` and `waited` sum the pauses between them and between attempts. */
  datatype Task = Task(session: SessionId, phase: Phase, retries: nat, calls: nat, slept: real, waited: real)

  function NewTask(id: SessionId): Task {
    Task(id, Waiting, 0, 0, 0.0, 0.0)
  }

  /** The message of `t`'s current attempt, delivered once more; the copy counts its own calls. */
  function Redelivered(t: Task): Task {
    t.(phase := Waiting, calls := 0, slept := 0.0)
  }

  /**
    Which of the calls made while an error is being handled are answered: looking for a report after
    a refused insert, marking the session failed, and sending the message of the next attempt.
  */
  datatype Support = Support(lookup: bool, mark: bool, send: bool)

  /** What a task does next; outcomes the code does not control are parameters. */
  datatype TaskStep =
    | Check(up: bool)
    | Read(up: bool)
    | Score(made: seq<Outcome<string>>, content: string)
    | Fail(made: seq<Outcome<string>>, why: string, jitter: real, support: Support)
    | Save(r: ReportId, jitter: real, support: Support)
    | FailSave(why: string, jitter: real, support: Support)

  function Pow2(n: nat): nat {
    if n == 0 then 1 else 2 * Pow2(n - 1)
  }

  /** `_backoff_countdown` */
  function Countdown(retries: nat, jitter: real): real {
    10.0 * Pow2(retries) as real + jitter
  }

  /**
    How an exception is handled: try again later, or mark the session failed once retries are used
    up.  The delivery crashes if the call that this takes is not answered.
  */
  function Retried(db: Db, t: Task, why: string, jitter: real, support: Support): (Db, Task) {
    if t.retries >= MAX_RETRIES then
      if support.mark then (MarkFailed(db, t.session, why), t.(phase := Finished(GaveUp)))
      else (db, t.(phase := Finished(Crashed)))
    else if support.send then
      (db, t.(phase := Waiting, retries := t.retries + 1, waited := t.waited + Countdown(t.retries, jitter)))
    else (db, t.(phase := Finished(Crashed)))
  }

  /** The model calls of one attempt put on the account. */
  function Spent(t: Task, made: seq<Outcome<string>>): Task {
    t.(calls := t.calls + |made|, slept := t.slept + SleptOver(BASE_DELAY, |made|))
  }

  /** The turns found by one read, or the next read, or nothing after the last. */
  function AfterRead(found: seq<LoggedTurn>, next: Phase): Phase {
    if found != [] then Scoring(found) else next
  }

  const INTEGRITY_ERROR: string := "Database integrity error while saving the report."

  predicate Fits(t: Task, step: TaskStep) {
    match step
    case Check(_) => t.phase.Waiting?
    case Read(_) => t.phase.ReadingStored? || t.phase.ReadingMirror?
    case Score(made, _) => t.phase.Scoring? && CallsMade(made, INNER_RETRIES) && made[|made| - 1].Value?
    case Fail(made, _, jitter, _) =>
      0.0 <= jitter <= JITTER &&
      (if t.phase.Scoring? then made == [] || CallsMade(made, INNER_RETRIES)
       else (t.phase.ReadingStored? || t.phase.ReadingMirror?) && made == [])
    case Save(_, jitter, _) => t.phase.Saving? && 0.0 <= jitter <= JITTER
    case FailSave(_, jitter, _) => t.phase.Saving? && 0.0 <= jitter <= JITTER
  }

  function TakeStep(db: Db, t: Task, step: TaskStep): (Db, Task)
    requires Fits(t, step)
  {
    match step
    case Check(up) =>
      (db, t.(phase := if !up then Finished(Crashed)
                       else if Reported(db, t.session) then Finished(AlreadyThere) else ReadingStored(0)))
    case Read(up) =>
      if t.phase.ReadingStored?
      then (db, t.(phase := AfterRead(StoredOf(db, t.session), ReadingMirror(t.phase.attempt))))
      else
        var live := if up && t.session in db.sessions then MirrorOf(db, db.sessions[t.session].room) else [];
        var next := if t.phase.attempt + 1 < READ_ATTEMPTS then ReadingStored(t.phase.attempt + 1) else Scoring([]);
        (db, t.(phase := AfterRead(live, next)))
    case Score(made, content) => (db, Spent(t, made).(phase := Saving(content)))
    case Fail(made, why, jitter, support) => Retried(db, Spent(t, made), why, jitter, support)
    case Save(r, jitter, support) =>
      var (db', committed) := SaveReport(db, r, t.session, t.phase.content);
      if committed then (db', t.(phase := Finished(Stored)))
      else if !support.lookup then (db, t.(phase := Finished(Crashed)))
      else if Reported(db, t.session) then (db, t.(phase := Finished(AlreadyThere)))
      else Retried(db, t, INTEGRITY_ERROR, jitter, support)
    case FailSave(why, jitter, support) => Retried(db, t, why, jitter, support)
  }

  // ---------- the whole system ----------

  /**
    `starters` have passed the readiness check but not inserted yet; `missing` and `due` are the
    sessions found by transcript and report reconciliation but not acted on yet; `pushes` says
    of the messages of a history handled so far whether their turn has reached the live buffer;
    `left` are the sessions whose agent has gone.
  */
  datatype World = World(db: Db, history: map<SessionId, seq<Message>>, pushes: map<SessionId, seq<bool>>,
                         left: set<SessionId>, starters: map<ProcessId, UserId>,
                         missing: set<SessionId>, due: set<SessionId>, tasks: map<TaskId, Task>)

  datatype Action =
    | PreCheck(p: ProcessId, user: UserId)
    | Insert(p: ProcessId, id: SessionId, now: int)
    | Speak(id: SessionId, message: Message)
    | Mirror(id: SessionId, now: int, pushed: bool)
    | End(caller: UserId, id: SessionId, up: bool, dispatched: Option<TaskId>)
    | FetchTranscript(caller: UserId, id: SessionId, up: bool)
    | Leave(id: SessionId, historyUp: bool, now: int, up: bool, writable: bool)
    | FindMissing(id: SessionId)
    | Recover(id: SessionId)
    | TimeOut(cutoff: int)
    | FindDue(id: SessionId)
    | Dispatch(id: SessionId, t: TaskId)
    | Request(id: SessionId, t: TaskId)
    | Redeliver(t: TaskId, copy: TaskId)
    | Work(t: TaskId, step: TaskStep)

  function HistoryOf(w: World, id: SessionId): seq<Message> {
    if id in w.history then w.history[id] else []
  }

  function PushesOf(w: World, id: SessionId): seq<bool> {
    if id in w.pushes then w.pushes[id] else []
  }

  predicate Enabled(w: World, a: Action) {
    match a
    case PreCheck(p, user) => p !in w.starters && !HasActive(w.db.sessions, user)
    case Insert(p, id, _) => p in w.starters && id !in w.db.sessions
    case Speak(id, _) => id in w.db.sessions && id !in w.left
    case Mirror(id, _, _) => id in w.db.sessions && |PushesOf(w, id)| < |HistoryOf(w, id)|
    case End(_, _, _, dispatched) => dispatched.Some? ==> dispatched.value !in w.tasks
    case FetchTranscript(_, _, _) => true
    case Leave(id, _, _, _, _) => id in w.db.sessions && id !in w.left
    case FindMissing(id) =>
      id in w.db.sessions && w.db.sessions[id].status != InProgress && id !in w.db.transcripts
    case Recover(id) => id in w.missing && id in w.db.sessions
    case TimeOut(_) => true
    case FindDue(id) => id in w.db.sessions && w.db.sessions[id].status == Completed && !Reported(w.db, id)
    case Dispatch(id, t) => id in w.due && t !in w.tasks
    case Request(id, t) => id in w.db.sessions && w.db.sessions[id].status == Completed && t !in w.tasks
    case Redeliver(t, copy) => t in w.tasks && copy !in w.tasks
    case Work(t, step) => t in w.tasks && Fits(w.tasks[t], step)
  }

  /** The live buffer after the turn of the next message has been pushed. */
  function Mirrored(space: char -> bool, w: World, id: SessionId, now: int): map<string, seq<LoggedTurn>>
    requires id in w.db.sessions && |PushesOf(w, id)| < |HistoryOf(w, id)|
  {
    var room := w.db.sessions[id].room;
    var turn := BuildTurn(space, HistoryOf(w, id)[|PushesOf(w, id)|], now);
    if turn.Some? then w.db.mirror[room := MirrorOf(w.db, room) + [turn.value]] else w.db.mirror
  }

  function Next(space: char -> bool, w: World, a: Action): World
    requires Enabled(w, a)
  {
    match a
    case PreCheck(p, user) => w.(starters := w.starters[p := user])
    case Insert(p, id, now) => w.(starters := w.starters - {p}, db := CreateSession(w.db, w.starters[p], id, now).0)
    case Speak(id, message) => w.(history := w.history[id := HistoryOf(w, id) + [message]])
    case Mirror(id, now, pushed) =>
      w.(db := w.db.(mirror := if pushed then Mirrored(space, w, id, now) else w.db.mirror),
         pushes := w.pushes[id := PushesOf(w, id) + [pushed]])
    case End(caller, id, up, dispatched) =>
      var (db', outcome) := EndSession(w.db, caller, id, up);
      w.(db := db',
         tasks := if outcome == Ended && dispatched.Some? then w.tasks[dispatched.value := NewTask(id)] else w.tasks)
    case FetchTranscript(caller, id, up) => w.(db := ReadTranscript(w.db, caller, id, up).0)
    case Leave(id, historyUp, now, up, writable) =>
      var turns := if historyUp then BuildTurns(space, HistoryOf(w, id), now) else [];
      w.(db := AgentExit(w.db, id, turns, up, writable), left := w.left + {id})
    case FindMissing(id) => w.(missing := w.missing + {id})
    case Recover(id) => w.(db := RecoverTranscript(w.db, id), missing := w.missing - {id})
    case TimeOut(cutoff) => w.(db := FailStale(w.db, cutoff))
    case FindDue(id) => w.(due := w.due + {id})
    case Dispatch(id, t) => w.(due := w.due - {id}, tasks := w.tasks[t := NewTask(id)])
    case Request(id, t) => w.(tasks := w.tasks[t := NewTask(id)])
    case Redeliver(t, copy) => w.(tasks := w.tasks[copy := Redelivered(w.tasks[t])])
    case Work(t, step) =>
      var (db', task') := TakeStep(w.db, w.tasks[t], step);
      w.(db := db', tasks := w.tasks[t := task'])
  }

  const START: World := World(Db(map[], map[], map[], map[]), map[], map[], {}, map[], {}, {}, map[])

  /** Every action of the run is enabled when its turn comes. */
  predicate Possible(space: char -> bool, w: World, run: seq<Action>)
    decreases |run|
  {
    run == [] || (Enabled(w, run[0]) && Possible(space, Next(space, w, run[0]), run[1..]))
  }

  function After(space: char -> bool, w: World, run: seq<Action>): World
    requires Possible(space, w, run)
    decreases |run|
  {
    if run == [] then w else After(space, Next(space, w, run[0]), run[1..])
  }
}
