/** From the spoken interview through the stored transcript to the answers that are scored. */
module EndToEnd {
  import Matching
  import opened SessionStore
  import opened Lifecycle
  import opened LifecycleResults
  import opened TranscriptResults
  import opened Conversation

  /** Where a delivery can stand that has not read anything but the whole conversation. */
  predicate Late(said: seq<LoggedTurn>, p: Phase) {
    p == Waiting || p == ReadingStored(0) || p == Scoring(said) || p.Saving? || p.Finished?
  }

  /** Deliveries for the session that are none of the `early` ones. */
  ghost predicate LateOnes(said: seq<LoggedTurn>, tasks: map<TaskId, Task>, id: SessionId, early: set<TaskId>) {
    forall t | t in tasks && tasks[t].session == id && t !in early :: Late(said, tasks[t].phase)
  }

  lemma StepStaysLate(db: Db, t: Task, step: TaskStep, said: seq<LoggedTurn>)
    requires Fits(t, step) && Late(said, t.phase) && said != [] && StoredOf(db, t.session) == said
    ensures Late(said, TakeStep(db, t, step).1.phase) && TakeStep(db, t, step).1.session == t.session
  {
  }

  lemma ActionKeepsLate(space: char -> bool, w: World, a: Action, id: SessionId, said: seq<LoggedTurn>, early: set<TaskId>)
    requires Enabled(w, a) && said != [] && StoredOf(w.db, id) == said
    requires LateOnes(said, w.tasks, id, early) && early <= w.tasks.Keys
    ensures LateOnes(said, Next(space, w, a).tasks, id, early) && early <= Next(space, w, a).tasks.Keys
  {
    var w' := Next(space, w, a);
    forall t | t in w'.tasks && w'.tasks[t].session == id && t !in early
      ensures Late(said, w'.tasks[t].phase)
    {
      TasksAfter(space, w, a, t);
      if a.Work? && a.t == t {
        TaskStepReports(w.db, w.tasks[t], a.step);
        StepStaysLate(w.db, w.tasks[t], a.step, said);
      }
    }
    forall t | t in early
      ensures t in w'.tasks
    {
      TaskStays(space, w, a, t);
    }
  }

  lemma {:induction false} LateOverRuns(space: char -> bool, w: World, run: seq<Action>, id: SessionId, early: set<TaskId>)
    requires SessionsOk(w.db.sessions) && TranscriptsOk(space, w) && TasksScoreOk(space, w)
    requires Possible(space, w, run) && SpeaksTimed(space, run)
    requires forall a | a in run :: !(a.Recover? && a.id == id)
    requires id in w.left && StoredOf(w.db, id) == Said(space, HistoryOf(w, id)) != []
    requires LateOnes(Said(space, HistoryOf(w, id)), w.tasks, id, early) && early <= w.tasks.Keys
    ensures LateOnes(Said(space, HistoryOf(w, id)), After(space, w, run).tasks, id, early)
    decreases |run|
  {
    if run != [] {
      assert run[0] in run;
      StepKeepsSessions(space, w, run[0]);
      StepKeepsTalk(space, w, run[0]);
      StepKeepsWhole(space, w, run[0], id);
      ActionKeepsLate(space, w, run[0], id, Said(space, HistoryOf(w, id)), early);
      LateOverRuns(space, Next(space, w, run[0]), run[1..], id, early);
    }
  }

  /** The deliveries that have begun when the agent leaves. */
  function Begun(w: World): set<TaskId> {
    set t | t in w.tasks && w.tasks[t].phase != Waiting
  }

  /**
    Once an agent has left with its history at hand and the table writable, every delivery that begins
    later scores the whole conversation, as long as reconciliation does not touch the session.
  */
  lemma {:induction false} LateDeliveriesScoreEverything(space: char -> bool, before: seq<Action>, leave: Action, after: seq<Action>, t: TaskId)
    requires leave.Leave? && leave.historyUp && leave.writable
    requires Possible(space, START, before) && SpeaksTimed(space, before) && SpeaksTimed(space, after)
    requires Enabled(After(space, START, before), leave)
    requires Possible(space, Next(space, After(space, START, before), leave), after)
    requires forall a | a in after :: !(a.Recover? && a.id == leave.id)
    requires Said(space, HistoryOf(After(space, START, before), leave.id)) != []
    requires var w := After(space, Next(space, After(space, START, before), leave), after);
             && t in w.tasks && w.tasks[t].session == leave.id && w.tasks[t].phase.Scoring?
             && t !in Begun(After(space, START, before))
    ensures After(space, Next(space, After(space, START, before), leave), after).tasks[t].phase.turns
         == Said(space, HistoryOf(After(space, START, before), leave.id))
  {
    ReachedTalk(space, before);
    var w := After(space, START, before);
    var w1 := Next(space, w, leave);
    LeavingStores(space, w, leave);
    StepKeepsSessions(space, w, leave);
    StepKeepsTalk(space, w, leave);
    LateOverRuns(space, w1, after, leave.id, Begun(w));
  }

  lemma LogIsNotEmpty(space: char -> bool, opening: seq<Message>, talks: seq<Talk>)
    requires AskedByAssistant(space, talks) && talks != []
    ensures Said(space, opening + Conversed(talks)) != []
  {
    InterviewIsLogged(space, opening, talks);
    assert Interview.LogOf(Exchanges(space, talks)) != [];
  }

  /** The prepared questions are asked by the assistant, verbatim and in order, and taken for nothing else before. */
  ghost predicate HeldAsIntended(m: Matching.Matcher, raw: seq<Pairing.Prepared>, opening: seq<Message>, talks: seq<Talk>) {
    && AskedByAssistant(m.abc.space, talks)
    && Interview.HeldInOrder(m, raw, LogOfHistory(m.abc.space, opening), Exchanges(m.abc.space, talks))
  }

  /** What the user wrote in reply is scored, up to the reply that still counts, and all of it exactly if nothing is said behind. */
  lemma {:induction false} ConversationRoundTrip(m: Matching.Matcher, raw: seq<Pairing.Prepared>, opening: seq<Message>,
                                                 talks: seq<Talk>, i: nat)
    requires HeldAsIntended(m, raw, opening, talks) && i < |talks|
    ensures var space, r, exchanges := m.abc.space, Matching.RecogniserOf(m), Exchanges(m.abc.space, talks);
            var scored := Interview.ScoredOn(r, raw, LogOfHistory(space, opening + Conversed(talks)), i);
            && scored == Pairing.Spoken(space, exchanges[i].replies[..Interview.Counted(r, raw, exchanges, i)])
            && (scored == Text.Join(" ", RoleTexts(space, talks[i].replies, "user")) <==> Interview.Undisturbed(r, raw, exchanges, i))
  {
    InterviewIsLogged(m.abc.space, opening, talks);
    SpokenIsWhatTheUserWrote(m.abc.space, talks[i].replies);
    Interview.HeldInterviewRoundTrip(m, raw, LogOfHistory(m.abc.space, opening), Exchanges(m.abc.space, talks), i);
  }

  /**
    End to end, from the messages spoken to the answers scored: the assistant asks the prepared
    questions as intended, the agent leaves and its transcript can be written.  Then every later
    delivery of the report task, however it interleaves with everything else short of transcript
    reconciliation, scores each question asked on exactly the replies to it that count, and these are
    all the user wrote in reply, if and only if the user writes nothing behind them.
  */
  lemma {:induction false} InterviewIsScoredAsHeld(m: Matching.Matcher, raw: seq<Pairing.Prepared>, opening: seq<Message>,
                                talks: seq<Talk>, i: nat,
                                before: seq<Action>, leave: Action, after: seq<Action>, t: TaskId)
    requires HeldAsIntended(m, raw, opening, talks) && i < |talks|
    requires leave.Leave? && leave.historyUp && leave.writable
    requires Possible(m.abc.space, START, before) && SpeaksTimed(m.abc.space, before) && SpeaksTimed(m.abc.space, after)
    requires Enabled(After(m.abc.space, START, before), leave)
    requires HistoryOf(After(m.abc.space, START, before), leave.id) == opening + Conversed(talks)
    requires Possible(m.abc.space, Next(m.abc.space, After(m.abc.space, START, before), leave), after)
    requires forall a | a in after :: !(a.Recover? && a.id == leave.id)
    requires var w := After(m.abc.space, Next(m.abc.space, After(m.abc.space, START, before), leave), after);
             && t in w.tasks && w.tasks[t].session == leave.id && w.tasks[t].phase.Scoring?
             && t !in Begun(After(m.abc.space, START, before))
    ensures var w := After(m.abc.space, Next(m.abc.space, After(m.abc.space, START, before), leave), after);
            var r, exchanges := Matching.RecogniserOf(m), Exchanges(m.abc.space, talks);
            var scored := Interview.ScoredOn(r, raw, Plain(w.tasks[t].phase.turns), i);
            && scored == Pairing.Spoken(m.abc.space, exchanges[i].replies[..Interview.Counted(r, raw, exchanges, i)])
            && (scored == Text.Join(" ", RoleTexts(m.abc.space, talks[i].replies, "user"))
                <==> Interview.Undisturbed(r, raw, exchanges, i))
  {
    LogIsNotEmpty(m.abc.space, opening, talks);
    LateDeliveriesScoreEverything(m.abc.space, before, leave, after, t);
    ConversationRoundTrip(m, raw, opening, talks, i);
  }
}
