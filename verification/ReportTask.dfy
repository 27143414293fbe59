/** The report task as it is written: load the turns in a loop, evaluate, save, or try again later. */
module ReportTask {
  import opened Wrappers
  import opened Retry
  import opened SessionStore
  import opened Lifecycle

  // ---------- loading the turns ----------

  const READS: nat := 6

  /**
    What the k-th read finds: even reads go to the table, odd ones to the live buffer when it is up.
    `seen(k)` are the tables at that moment; others may write between reads.
  */
  function Found(seen: nat -> Db, up: nat -> bool, id: SessionId, k: nat): seq<LoggedTurn> {
    if k % 2 == 0 then StoredOf(seen(k), id)
    else if up(k) && id in seen(k).sessions then MirrorOf(seen(k), seen(k).sessions[id].room)
    else []
  }

  /** `turns` is what the first read that finds any turns finds, or nothing if none does. */
  ghost predicate FirstFound(seen: nat -> Db, up: nat -> bool, id: SessionId, turns: seq<LoggedTurn>) {
    if turns == [] then forall k: nat | k < READS :: Found(seen, up, id, k) == []
    else exists k: nat | k < READS :: Found(seen, up, id, k) == turns && forall j: nat | j < k :: Found(seen, up, id, j) == []
  }

  method LoadTurns(seen: nat -> Db, up: nat -> bool, id: SessionId) returns (turns: seq<LoggedTurn>)
    ensures FirstFound(seen, up, id, turns)
  {
    turns := StoredOf(seen(0), id);
    assert turns == Found(seen, up, id, 0);
    var attempt := 0;
    while turns == [] && attempt < READ_ATTEMPTS
      invariant attempt <= READ_ATTEMPTS
      invariant turns == [] ==> forall k: nat | k <= 2 * attempt && k < READS :: Found(seen, up, id, k) == []
      invariant turns != [] ==> exists k: nat | k < READS ::
                  Found(seen, up, id, k) == turns && forall j: nat | j < k :: Found(seen, up, id, j) == []
      decreases READ_ATTEMPTS - attempt
    {
      var k := 2 * attempt + 1;
      if up(k) && id in seen(k).sessions {
        turns := MirrorOf(seen(k), seen(k).sessions[id].room);
      }
      assert turns == Found(seen, up, id, k);
      if turns == [] && attempt + 1 < READ_ATTEMPTS {
        turns := StoredOf(seen(k + 1), id);
        assert turns == Found(seen, up, id, k + 1);
      }
      attempt := attempt + 1;
    }
  }

  function NextRead(p: Phase): nat
    requires p.ReadingStored? || p.ReadingMirror?
  {
    if p.ReadingStored? then 2 * p.attempt else 2 * p.attempt + 1
  }

  /** The reading steps of a delivery, taken one after the other. */
  function ReadOn(seen: nat -> Db, up: nat -> bool, t: Task): Task
    requires t.phase.ReadingStored? || t.phase.ReadingMirror? ==> NextRead(t.phase) < READS
    decreases if t.phase.ReadingStored? || t.phase.ReadingMirror? then READS - NextRead(t.phase) else 0
  {
    if !t.phase.ReadingStored? && !t.phase.ReadingMirror? then t
    else
      var k := NextRead(t.phase);
      ReadOn(seen, up, TakeStep(seen(k), t, Read(up(k))).1)
  }

  lemma {:induction false} ReadOnFinds(seen: nat -> Db, up: nat -> bool, t: Task, turns: seq<LoggedTurn>)
    requires (t.phase.ReadingStored? || t.phase.ReadingMirror?) && NextRead(t.phase) < READS
    requires FirstFound(seen, up, t.session, turns)
    requires forall j: nat | j < NextRead(t.phase) :: Found(seen, up, t.session, j) == []
    ensures ReadOn(seen, up, t) == t.(phase := Scoring(turns))
    decreases READS - NextRead(t.phase)
  {
    var k := NextRead(t.phase);
    var t' := TakeStep(seen(k), t, Read(up(k))).1;
    if Found(seen, up, t.session, k) == [] && k + 1 < READS {
      ReadOnFinds(seen, up, t', turns);
    } else {
      assert t'.phase == Scoring(Found(seen, up, t.session, k));
    }
  }

  /** The loop and the reading steps of the transition system find the same turns, whatever is written meanwhile. */
  lemma LoadingRefines(seen: nat -> Db, up: nat -> bool, t: Task, turns: seq<LoggedTurn>)
    requires t.phase == ReadingStored(0) && FirstFound(seen, up, t.session, turns)
    ensures ReadOn(seen, up, t) == t.(phase := Scoring(turns))
  {
    ReadOnFinds(seen, up, t, turns);
  }

  // ---------- one attempt ----------

  /** The report that an answer of the model parses to, if the calls made ended in one. */
  function Evaluated(parse: string -> Option<string>, made: seq<Outcome<string>>): Option<string> {
    if made != [] && made[|made| - 1].Value? then parse(made[|made| - 1].value) else None
  }

  /**
    What befalls an attempt: whether the first look for a report is answered, whether saving fails for
    a reason other than the unique key, the text of the exception, and which calls are answered while
    it is handled.
  */
  datatype Circumstances = Circumstances(up: bool, saves: bool, why: string, jitter: real, support: Support)

  /** The steps of an attempt that nobody interrupts after loading. */
  function AttemptSteps(db: Db, t: Task, turns: seq<LoggedTurn>, parse: string -> Option<string>, made: seq<Outcome<string>>,
                        r: ReportId, c: Circumstances): (Db, Task)
    requires t.phase.Waiting? && (made == [] || CallsMade(made, INNER_RETRIES)) && 0.0 <= c.jitter <= JITTER
  {
    var checked := TakeStep(db, t, Check(c.up)).1;
    if checked.phase.Finished? then (db, checked)
    else
      var loaded := checked.(phase := Scoring(turns));
      var content := Evaluated(parse, made);
      if content.None? then TakeStep(db, loaded, Fail(made, c.why, c.jitter, c.support))
      else
        var scored := TakeStep(db, loaded, Score(made, content.value)).1;
        TakeStep(db, scored, if c.saves then Save(r, c.jitter, c.support) else FailSave(c.why, c.jitter, c.support))
  }

  /** The attempt ends in an exception that is handled. */
  predicate Handled(db: Db, t: Task, content: Option<string>, r: ReportId, c: Circumstances) {
    && (content.Some? && c.saves ==> r in db.reports && c.support.lookup)
    && if t.retries < MAX_RETRIES then c.support.send else c.support.mark
  }

  /**
    An attempt nobody interrupts: if the first look is not answered it crashes; an existing report ends
    it at once; a score that can be saved leaves the session's report; and anything else, handled,
    changes nothing until the retries are used up, when it fails the session, and unhandled changes
    nothing at all.
  */
  lemma AttemptEndsIn(db: Db, t: Task, turns: seq<LoggedTurn>, parse: string -> Option<string>, made: seq<Outcome<string>>,
                      r: ReportId, c: Circumstances)
    requires t.phase.Waiting? && (made == [] || CallsMade(made, INNER_RETRIES)) && 0.0 <= c.jitter <= JITTER
    requires t.session in db.sessions
    ensures var (db', t') := AttemptSteps(db, t, turns, parse, made, r, c);
            var content := Evaluated(parse, made);
            if !c.up then db' == db && t'.phase == Finished(Crashed)
            else if Reported(db, t.session) then db' == db && t'.phase == Finished(AlreadyThere)
            else if content.Some? && c.saves && r !in db.reports then
              && db' == db.(reports := db'.reports) && db'.reports == db.reports[r := Report(t.session, content.value)]
              && Reported(db', t.session) && t'.phase == Finished(Stored)
            else if !Handled(db, t, content, r, c) then db' == db && t'.phase == Finished(Crashed)
            else if t.retries < 3 then
              db' == db && t'.phase == Waiting && t'.retries == t.retries + 1
              && t'.waited == t.waited + 10.0 * Pow2(t.retries) as real + c.jitter
            else
              && db'.sessions[t.session].status == Failed && db' == db.(sessions := db'.sessions)
              && db'.sessions[t.session].reason
                 == Some(if content.Some? && c.saves then "Database integrity error while saving the report." else c.why)
              && (forall id | id in db.sessions && id != t.session :: db'.sessions[id] == db.sessions[id])
              && t'.phase == Finished(GaveUp)
  {
    var db' := AttemptSteps(db, t, turns, parse, made, r, c).0;
    var content := Evaluated(parse, made);
    if c.up && !Reported(db, t.session) && content.Some? && c.saves && r !in db.reports {
      assert db'.reports[r].session == t.session;
    }
  }

  /**
    One attempt; `outcomes(k)` is what the k-th model call would come to, and `calls` how many are made.
  */
  method Attempt(store: InterviewStore, t: Task, turns: seq<LoggedTurn>, parse: string -> Option<string>,
                 outcomes: nat -> Outcome<string>, r: ReportId, c: Circumstances)
    returns (t': Task, calls: nat)
    requires t.phase.Waiting? && 0.0 <= c.jitter <= JITTER
    modifies store`sessions, store`reports
    ensures calls > 0 ==> CallsMade(FirstCalls(outcomes, calls), 2) && t'.slept == t.slept + SleptOver(1.0, calls)
    ensures calls == 0 <==> !c.up || Reported(old(store.Contents()), t.session)
    ensures (store.Contents(), t') == AttemptSteps(old(store.Contents()), t, turns, parse, FirstCalls(outcomes, calls), r, c)
  {
    calls := 0;
    if !c.up {
      return t.(phase := Finished(Crashed)), calls;
    }
    if Reported(store.Contents(), t.session) {
      return t.(phase := Finished(AlreadyThere)), calls;
    }
    var result, slept;
    result, calls, slept := CallWithRetry(outcomes, INNER_RETRIES, BASE_DELAY);
    assert FirstCalls(outcomes, calls)[calls - 1] == outcomes(calls - 1);
    t' := t.(calls := t.calls + calls, slept := t.slept + slept);
    var content := if result.Returned? then parse(result.value) else None;
    var why := c.why;
    if content.Some? && c.saves {
      var committed := store.InsertReport(r, t.session, content.value);
      if committed {
        return t'.(phase := Finished(Stored)), calls;
      }
      if !c.support.lookup {
        return t'.(phase := Finished(Crashed)), calls;
      }
      if Reported(store.Contents(), t.session) {
        return t'.(phase := Finished(AlreadyThere)), calls;
      }
      why := INTEGRITY_ERROR;
    }
    if t'.retries >= MAX_RETRIES {
      if !c.support.mark {
        return t'.(phase := Finished(Crashed)), calls;
      }
      store.MarkSessionFailed(t.session, why);
      return t'.(phase := Finished(GaveUp)), calls;
    }
    if !c.support.send {
      return t'.(phase := Finished(Crashed)), calls;
    }
    t' := t'.(phase := Waiting, retries := t'.retries + 1, waited := t'.waited + Countdown(t'.retries, c.jitter));
  }
}
