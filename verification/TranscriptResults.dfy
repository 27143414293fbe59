/** What the stored transcript may be, however speaking, mirroring and the writers of the transcript interleave. */
module TranscriptResults {
  import opened Wrappers
  import opened SessionStore
  import opened Lifecycle
  import opened LifecycleResults

  /** The turns of a conversation. */
  function Said(space: char -> bool, history: seq<Message>): seq<LoggedTurn> {
    BuildTurns(space, history, 0)
  }

  ghost predicate Timed(space: char -> bool, history: seq<Message>) {
    forall m | m in history :: TimeFixed(space, m)
  }

  /** Every message spoken in the run is no turn or carries its own time. */
  ghost predicate SpeaksTimed(space: char -> bool, run: seq<Action>) {
    forall a | a in run && a.Speak? :: TimeFixed(space, a.message)
  }

  /** The messages whose turn has reached the live buffer. */
  function KeptOf(history: seq<Message>, pushes: seq<bool>): seq<Message>
    requires |pushes| <= |history|
    decreases |pushes|
  {
    if pushes == [] then []
    else
      var n := |pushes| - 1;
      KeptOf(history, pushes[..n]) + if pushes[n] then [history[n]] else []
  }

  predicate IsTurn(space: char -> bool, m: Message) {
    BuildTurn(space, m, 0).Some?
  }

  /** The push of message `i` has failed, and with it a turn is missing. */
  predicate Dropped(space: char -> bool, history: seq<Message>, pushes: seq<bool>, i: nat)
    requires i < |pushes| <= |history|
  {
    IsTurn(space, history[i]) && !pushes[i]
  }

  predicate Kept(space: char -> bool, history: seq<Message>, pushes: seq<bool>, i: nat)
    requires i < |pushes| <= |history|
  {
    IsTurn(space, history[i]) && pushes[i]
  }

  /** No turn has been dropped before one that was kept. */
  ghost predicate Gapless(space: char -> bool, history: seq<Message>, pushes: seq<bool>)
    requires |pushes| <= |history|
  {
    forall i: nat, j: nat | i < j < |pushes| && Dropped(space, history, pushes, i) :: !Kept(space, history, pushes, j)
  }

  ghost predicate GaplessAt(space: char -> bool, w: World, id: SessionId) {
    |PushesOf(w, id)| <= |HistoryOf(w, id)| && Gapless(space, HistoryOf(w, id), PushesOf(w, id))
  }

  /** `s` is `t` with some elements left out. */
  predicate Within(s: seq<LoggedTurn>, t: seq<LoggedTurn>) {
    s == []
    || (t != [] && (Within(s, t[..|t| - 1])
                    || (s[|s| - 1] == t[|t| - 1] && Within(s[..|s| - 1], t[..|t| - 1]))))
  }

  /**
    The live buffer holds the turns of the messages pushed, and the stored transcript the first of
    these or, once the agent has left, the whole conversation.
  */
  ghost predicate Consistent(space: char -> bool, w: World, id: SessionId) {
    && Timed(space, HistoryOf(w, id))
    && |PushesOf(w, id)| <= |HistoryOf(w, id)|
    && MirrorOf(w.db, RoomName(id)) == Said(space, KeptOf(HistoryOf(w, id), PushesOf(w, id)))
    && (StoredOf(w.db, id) <= MirrorOf(w.db, RoomName(id))
        || (id in w.left && StoredOf(w.db, id) == Said(space, HistoryOf(w, id))))
  }

  ghost predicate TranscriptsOk(space: char -> bool, w: World) {
    forall id: SessionId :: Consistent(space, w, id)
  }

  /** What a report task is about to score are turns of the conversation, its first ones if there is no gap. */
  ghost predicate ScoresOk(space: char -> bool, w: World, t: Task) {
    t.phase.Scoring? ==>
      && Within(t.phase.turns, Said(space, HistoryOf(w, t.session)))
      && (GaplessAt(space, w, t.session) ==> t.phase.turns <= Said(space, HistoryOf(w, t.session)))
  }

  ghost predicate TasksScoreOk(space: char -> bool, w: World) {
    forall t | t in w.tasks :: ScoresOk(space, w, w.tasks[t])
  }

  // ---------- turns left out ----------

  lemma {:induction false} WithinItself(s: seq<LoggedTurn>)
    ensures Within(s, s)
    decreases |s|
  {
    if s != [] {
      WithinItself(s[..|s| - 1]);
    }
  }

  lemma {:induction false} WithinLonger(s: seq<LoggedTurn>, t: seq<LoggedTurn>, longer: seq<LoggedTurn>)
    requires Within(s, t) && t <= longer
    ensures Within(s, longer)
    decreases |longer|
  {
    if t == longer {
    } else {
      var rest := longer[..|longer| - 1];
      assert t == longer[..|t|] == rest[..|t|];
      WithinLonger(s, t, rest);
    }
  }

  lemma WithinBoth(s: seq<LoggedTurn>, t: seq<LoggedTurn>, turn: LoggedTurn)
    requires Within(s, t)
    ensures Within(s + [turn], t + [turn])
  {
    assert (s + [turn])[..|s|] == s && (t + [turn])[..|t|] == t;
  }

  lemma {:induction false} WithinShorter(shorter: seq<LoggedTurn>, s: seq<LoggedTurn>, t: seq<LoggedTurn>)
    requires shorter <= s && Within(s, t)
    ensures Within(shorter, t)
    decreases |t|
  {
    if shorter != s {
      var rest := t[..|t| - 1];
      assert shorter == s[..|shorter|] == s[..|s| - 1][..|shorter|];
      WithinShorter(shorter, if Within(s, rest) then s else s[..|s| - 1], rest);
    }
  }

  /** With nothing left out. */
  lemma {:induction false} WithinIsShorter(s: seq<LoggedTurn>, t: seq<LoggedTurn>)
    requires Within(s, t)
    ensures |s| <= |t| && (|s| == |t| ==> s == t)
    decreases |t|
  {
    if s != [] {
      var rest := t[..|t| - 1];
      if Within(s, rest) {
        WithinIsShorter(s, rest);
      } else {
        WithinIsShorter(s[..|s| - 1], rest);
        assert s == s[..|s| - 1] + [s[|s| - 1]] && t == rest + [t[|t| - 1]];
      }
    }
  }

  // ---------- turns of prefixes and of what was kept ----------

  lemma SaidMore(space: char -> bool, history: seq<Message>, m: Message)
    ensures Said(space, history + [m]) == Said(space, history) + match BuildTurn(space, m, 0) case Some(turn) => [turn] case None => []
  {
    assert (history + [m])[..|history|] == history;
  }

  /** Message by message. */
  lemma SaidUpTo(space: char -> bool, history: seq<Message>, k: nat)
    requires k < |history|
    ensures Said(space, history[..k + 1])
         == Said(space, history[..k]) + match BuildTurn(space, history[k], 0) case Some(turn) => [turn] case None => []
  {
    assert history[..k + 1] == history[..k] + [history[k]];
    SaidMore(space, history[..k], history[k]);
  }

  lemma {:induction false} SaidPrefix(space: char -> bool, history: seq<Message>, k: nat)
    requires k <= |history|
    ensures Said(space, history[..k]) <= Said(space, history)
    decreases |history| - k
  {
    if k == |history| {
      assert history[..k] == history;
    } else {
      SaidUpTo(space, history, k);
      SaidPrefix(space, history, k + 1);
    }
  }

  lemma KeptMore(space: char -> bool, history: seq<Message>, pushes: seq<bool>, pushed: bool)
    requires |pushes| < |history|
    ensures Said(space, KeptOf(history, pushes + [pushed]))
         == Said(space, KeptOf(history, pushes))
            + if pushed && IsTurn(space, history[|pushes|]) then [BuildTurn(space, history[|pushes|], 0).value] else []
  {
    assert (pushes + [pushed])[..|pushes|] == pushes;
    var kept := KeptOf(history, pushes);
    if pushed {
      SaidMore(space, kept, history[|pushes|]);
    } else {
      assert kept + [] == kept;
    }
  }

  lemma {:induction false} KeptIgnoresLater(history: seq<Message>, pushes: seq<bool>, m: Message)
    requires |pushes| <= |history|
    ensures KeptOf(history + [m], pushes) == KeptOf(history, pushes)
    decreases |pushes|
  {
    if pushes != [] {
      KeptIgnoresLater(history, pushes[..|pushes| - 1], m);
    }
  }

  lemma {:induction false} KeptIsWithin(space: char -> bool, history: seq<Message>, pushes: seq<bool>)
    requires |pushes| <= |history|
    ensures Within(Said(space, KeptOf(history, pushes)), Said(space, history[..|pushes|]))
    decreases |pushes|
  {
    if pushes != [] {
      var n := |pushes| - 1;
      var before := pushes[..n];
      assert pushes == before + [pushes[n]];
      KeptIsWithin(space, history, before);
      KeptMore(space, history, before, pushes[n]);
      SaidUpTo(space, history, n);
      var kept, said := Said(space, KeptOf(history, before)), Said(space, history[..n]);
      assert kept + [] == kept && said + [] == said;
      if IsTurn(space, history[n]) {
        var turn := BuildTurn(space, history[n], 0).value;
        WithinBoth(kept, said, turn);
        WithinLonger(kept, said, said + [turn]);
      }
    }
  }

  lemma FewerPushesStayGapless(space: char -> bool, history: seq<Message>, pushes: seq<bool>, pushed: bool)
    requires |pushes| < |history| && Gapless(space, history, pushes + [pushed])
    ensures Gapless(space, history, pushes)
    ensures pushed && IsTurn(space, history[|pushes|]) ==> forall i: nat | i < |pushes| :: !Dropped(space, history, pushes, i)
  {
    var all := pushes + [pushed];
    forall i: nat, j: nat | i < j < |pushes| && Dropped(space, history, pushes, i)
      ensures !Kept(space, history, pushes, j)
    {
      assert Dropped(space, history, all, i) && !Kept(space, history, all, j);
    }
    if pushed && IsTurn(space, history[|pushes|]) {
      assert Kept(space, history, all, |pushes|);
      forall i: nat | i < |pushes|
        ensures !Dropped(space, history, pushes, i)
      {
        assert !Dropped(space, history, all, i);
      }
    }
  }

  /** Without a gap the turns kept are first turns, and all turns so far if none was dropped. */
  lemma {:induction false} GaplessIsPrefix(space: char -> bool, history: seq<Message>, pushes: seq<bool>)
    requires |pushes| <= |history| && Gapless(space, history, pushes)
    ensures Said(space, KeptOf(history, pushes)) <= Said(space, history[..|pushes|])
    ensures (forall i: nat | i < |pushes| :: !Dropped(space, history, pushes, i))
            ==> Said(space, KeptOf(history, pushes)) == Said(space, history[..|pushes|])
    decreases |pushes|
  {
    if pushes != [] {
      var n := |pushes| - 1;
      var before := pushes[..n];
      assert pushes == before + [pushes[n]];
      FewerPushesStayGapless(space, history, before, pushes[n]);
      GaplessIsPrefix(space, history, before);
      KeptMore(space, history, before, pushes[n]);
      SaidUpTo(space, history, n);
      assert forall i: nat | i < n :: Dropped(space, history, before, i) <==> Dropped(space, history, pushes, i);
      assert Dropped(space, history, pushes, n) <==> IsTurn(space, history[n]) && !pushes[n];
    }
  }

  // ---------- actions that touch neither buffer nor transcripts ----------

  predicate Silent(a: Action) {
    !a.Speak? && !a.Mirror? && !a.End? && !a.FetchTranscript? && !a.Leave? && !a.Recover?
  }

  lemma TaskStepIsSilent(db: Db, t: Task, step: TaskStep)
    requires Fits(t, step)
    ensures TakeStep(db, t, step).0.transcripts == db.transcripts && TakeStep(db, t, step).0.mirror == db.mirror
  {
  }

  lemma SilentKeepsTalk(space: char -> bool, w: World, a: Action)
    requires Enabled(w, a) && Silent(a)
    ensures var w' := Next(space, w, a);
            && w'.db.transcripts == w.db.transcripts && w'.db.mirror == w.db.mirror
            && w'.history == w.history && w'.pushes == w.pushes && w'.left == w.left
  {
    if a.Work? {
      TaskStepIsSilent(w.db, w.tasks[a.t], a.step);
    }
  }

  // ---------- each of the other actions ----------

  lemma LaterMessageKeepsGaps(space: char -> bool, history: seq<Message>, pushes: seq<bool>, m: Message)
    requires |pushes| <= |history|
    ensures Gapless(space, history + [m], pushes) <==> Gapless(space, history, pushes)
  {
    assert forall i: nat | i < |pushes| ::
             (Dropped(space, history + [m], pushes, i) <==> Dropped(space, history, pushes, i))
             && (Kept(space, history + [m], pushes, i) <==> Kept(space, history, pushes, i));
  }

  lemma SpeakWrites(space: char -> bool, w: World, a: Action)
    requires Enabled(w, a) && a.Speak?
    ensures var w' := Next(space, w, a);
            && w'.db == w.db && w'.pushes == w.pushes && w'.left == w.left && a.id !in w.left
            && HistoryOf(w', a.id) == HistoryOf(w, a.id) + [a.message]
            && forall id | id != a.id :: HistoryOf(w', id) == HistoryOf(w, id)
  {
  }

  lemma SpeakKeepsOwn(space: char -> bool, w: World, a: Action)
    requires Enabled(w, a) && a.Speak? && TimeFixed(space, a.message) && Consistent(space, w, a.id)
    ensures Consistent(space, Next(space, w, a), a.id)
  {
    var before := HistoryOf(w, a.id);
    SpeakWrites(space, w, a);
    SaidMore(space, before, a.message);
    KeptIgnoresLater(before, PushesOf(w, a.id), a.message);
  }

  lemma SpeakKeeps(space: char -> bool, w: World, a: Action, id: SessionId)
    requires Enabled(w, a) && a.Speak? && TimeFixed(space, a.message) && Consistent(space, w, id)
    ensures Consistent(space, Next(space, w, a), id)
  {
    if id == a.id {
      SpeakKeepsOwn(space, w, a);
    } else {
      SpeakWrites(space, w, a);
    }
  }

  lemma MirrorWrites(space: char -> bool, w: World, a: Action)
    requires Enabled(w, a) && a.Mirror? && RoomsOk(w.db.sessions)
    ensures var w' := Next(space, w, a);
            && w'.db.transcripts == w.db.transcripts && w'.history == w.history && w'.left == w.left
            && PushesOf(w', a.id) == PushesOf(w, a.id) + [a.pushed]
            && MirrorOf(w'.db, RoomName(a.id)) == MirrorOf(w.db, RoomName(a.id))
                 + (if a.pushed then (match BuildTurn(space, HistoryOf(w, a.id)[|PushesOf(w, a.id)|], a.now)
                                      case Some(turn) => [turn] case None => []) else [])
            && forall id | id != a.id :: PushesOf(w', id) == PushesOf(w, id)
                                         && (RoomName(id) != RoomName(a.id) ==> MirrorOf(w'.db, RoomName(id)) == MirrorOf(w.db, RoomName(id)))
  {
  }

  lemma MirrorKeepsOwn(space: char -> bool, w: World, a: Action)
    requires Enabled(w, a) && a.Mirror? && Consistent(space, w, a.id) && RoomsOk(w.db.sessions)
    ensures Consistent(space, Next(space, w, a), a.id)
  {
    var history, pushes, w' := HistoryOf(w, a.id), PushesOf(w, a.id), Next(space, w, a);
    MirrorWrites(space, w, a);
    KeptMore(space, history, pushes, a.pushed);
    assert TimeFixed(space, history[|pushes|]);
    assert BuildTurn(space, history[|pushes|], a.now) == BuildTurn(space, history[|pushes|], 0);
  }

  lemma MirrorKeeps(space: char -> bool, w: World, a: Action, id: SessionId)
    requires Enabled(w, a) && a.Mirror? && Consistent(space, w, id) && RoomsOk(w.db.sessions)
    ensures Consistent(space, Next(space, w, a), id)
  {
    if id == a.id {
      MirrorKeepsOwn(space, w, a);
    } else {
      MirrorWrites(space, w, a);
      if RoomName(a.id) == RoomName(id) {
        RoomNamesDiffer(a.id, id);
      }
    }
  }

  /** The buffer against the conversation. */
  lemma BufferHoldsTurns(space: char -> bool, w: World, id: SessionId)
    requires Consistent(space, w, id)
    ensures Within(MirrorOf(w.db, RoomName(id)), Said(space, HistoryOf(w, id)))
    ensures GaplessAt(space, w, id) ==> MirrorOf(w.db, RoomName(id)) <= Said(space, HistoryOf(w, id))
  {
    var history, pushes := HistoryOf(w, id), PushesOf(w, id);
    KeptIsWithin(space, history, pushes);
    SaidPrefix(space, history, |pushes|);
    WithinLonger(MirrorOf(w.db, RoomName(id)), Said(space, history[..|pushes|]), Said(space, history));
    if Gapless(space, history, pushes) {
      GaplessIsPrefix(space, history, pushes);
    }
  }

  /** The stored transcript against the conversation. */
  lemma StoredHoldsTurns(space: char -> bool, w: World, id: SessionId)
    requires Consistent(space, w, id)
    ensures Within(StoredOf(w.db, id), Said(space, HistoryOf(w, id)))
    ensures GaplessAt(space, w, id) ==> StoredOf(w.db, id) <= Said(space, HistoryOf(w, id))
  {
    BufferHoldsTurns(space, w, id);
    if StoredOf(w.db, id) <= MirrorOf(w.db, RoomName(id)) {
      WithinShorter(StoredOf(w.db, id), MirrorOf(w.db, RoomName(id)), Said(space, HistoryOf(w, id)));
    } else {
      WithinItself(Said(space, HistoryOf(w, id)));
    }
  }

  /** A transcript is consistent after a write that stores the live buffer, the whole history, or nothing new. */
  lemma WriteKeeps(space: char -> bool, w: World, w': World, id: SessionId)
    requires Consistent(space, w, id) && w'.history == w.history && w'.pushes == w.pushes && w'.db.mirror == w.db.mirror
    requires w.left <= w'.left
    requires var stored := StoredOf(w'.db, id);
             || stored == StoredOf(w.db, id) || stored == MirrorOf(w.db, RoomName(id))
             || (id in w'.left && stored == Said(space, HistoryOf(w, id)))
    ensures Consistent(space, w', id)
  {
  }

  lemma SyncWrites(db: Db, of: SessionId, up: bool, id: SessionId)
    requires of in db.sessions && RoomsOk(db.sessions)
    ensures SyncTranscript(db, of, up).mirror == db.mirror
    ensures var stored := StoredOf(SyncTranscript(db, of, up), id);
            stored == StoredOf(db, id) || (StoredOf(db, id) == [] && stored == MirrorOf(db, RoomName(id)))
  {
  }

  lemma FetchWrites(db: Db, caller: UserId, of: SessionId, up: bool, id: SessionId)
    requires RoomsOk(db.sessions)
    ensures ReadTranscript(db, caller, of, up).0.mirror == db.mirror
    ensures var stored := StoredOf(ReadTranscript(db, caller, of, up).0, id);
            stored == StoredOf(db, id) || (StoredOf(db, id) == [] && stored == MirrorOf(db, RoomName(id)))
  {
    if of in db.sessions {
      SyncWrites(db, of, up, id);
    }
  }

  lemma EndWrites(db: Db, caller: UserId, of: SessionId, up: bool, id: SessionId)
    requires RoomsOk(db.sessions)
    ensures EndSession(db, caller, of, up).0.mirror == db.mirror
    ensures var stored := StoredOf(EndSession(db, caller, of, up).0, id);
            stored == StoredOf(db, id) || (StoredOf(db, id) == [] && stored == MirrorOf(db, RoomName(id)))
  {
    if EndSession(db, caller, of, up).1 == Ended {
      var ended := db.(sessions := db.sessions[of := db.sessions[of].(status := Completed)]);
      SyncWrites(ended, of, up, id);
    }
  }

  lemma LeaveWrites(space: char -> bool, w: World, a: Action, id: SessionId)
    requires Enabled(w, a) && a.Leave? && Timed(space, HistoryOf(w, a.id)) && RoomsOk(w.db.sessions)
    ensures Next(space, w, a).db.mirror == w.db.mirror
    ensures var stored := StoredOf(Next(space, w, a).db, id);
            || stored == StoredOf(w.db, id)
            || (id == a.id && (stored == MirrorOf(w.db, RoomName(id)) || stored == Said(space, HistoryOf(w, id))))
  {
    FixedTimesGiveFixedTurns(space, HistoryOf(w, a.id), a.now, 0);
  }

  /** What each step may do to the transcript of a session. */
  lemma StepWrites(space: char -> bool, w: World, a: Action, id: SessionId)
    requires Enabled(w, a) && RoomsOk(w.db.sessions) && Timed(space, if a.Leave? then HistoryOf(w, a.id) else [])
    ensures var stored := StoredOf(Next(space, w, a).db, id);
            || stored == StoredOf(w.db, id)
            || ((a.End? || a.FetchTranscript?) && StoredOf(w.db, id) == [] && stored == MirrorOf(w.db, RoomName(id)))
            || (a.Leave? && id == a.id && (stored == MirrorOf(w.db, RoomName(id)) || stored == Said(space, HistoryOf(w, id))))
            || (a.Recover? && id == a.id && stored == MirrorOf(w.db, RoomName(id)))
  {
    if Silent(a) {
      SilentKeepsTalk(space, w, a);
    } else if a.End? {
      EndWrites(w.db, a.caller, a.id, a.up, id);
    } else if a.FetchTranscript? {
      FetchWrites(w.db, a.caller, a.id, a.up, id);
    } else if a.Leave? {
      LeaveWrites(space, w, a, id);
    }
  }

  lemma WriterFrame(space: char -> bool, w: World, a: Action)
    requires Enabled(w, a) && RoomsOk(w.db.sessions)
    requires a.End? || a.FetchTranscript? || a.Leave? || a.Recover?
    ensures var w' := Next(space, w, a);
            && w'.history == w.history && w'.pushes == w.pushes && w'.db.mirror == w.db.mirror
            && w'.left == if a.Leave? then w.left + {a.id} else w.left
  {
    if a.End? {
      EndWrites(w.db, a.caller, a.id, a.up, a.id);
    } else if a.FetchTranscript? {
      FetchWrites(w.db, a.caller, a.id, a.up, a.id);
    }
  }

  /** Ending, fetching, leaving and reconciling. */
  lemma WriterKeepsTranscript(space: char -> bool, w: World, a: Action, id: SessionId)
    requires Enabled(w, a) && RoomsOk(w.db.sessions) && Consistent(space, w, id)
    requires a.End? || a.FetchTranscript? || a.Leave? || a.Recover?
    requires Timed(space, if a.Leave? then HistoryOf(w, a.id) else [])
    ensures Consistent(space, Next(space, w, a), id)
  {
    WriterFrame(space, w, a);
    StepWrites(space, w, a, id);
    WriteKeeps(space, w, Next(space, w, a), id);
  }

  lemma StepKeepsTranscript(space: char -> bool, w: World, a: Action, id: SessionId)
    requires Enabled(w, a) && RoomsOk(w.db.sessions) && TranscriptsOk(space, w) && (a.Speak? ==> TimeFixed(space, a.message))
    ensures Consistent(space, Next(space, w, a), id)
  {
    assert Consistent(space, w, id);
    if Silent(a) {
      SilentKeepsTalk(space, w, a);
    } else if a.Speak? {
      SpeakKeeps(space, w, a, id);
    } else if a.Mirror? {
      MirrorKeeps(space, w, a, id);
    } else {
      if a.Leave? {
        assert Consistent(space, w, a.id);
      }
      WriterKeepsTranscript(space, w, a, id);
    }
  }

  // ---------- report tasks ----------

  /** A task step that starts scoring has found turns in the table, in the buffer, or none at all. */
  lemma TaskStepReads(db: Db, t: Task, step: TaskStep)
    requires Fits(t, step) && RoomsOk(db.sessions)
    ensures var t' := TakeStep(db, t, step).1;
            && t'.session == t.session
            && (t'.phase.Scoring? ==> t'.phase.turns in {[], StoredOf(db, t.session), MirrorOf(db, RoomName(t.session))})
  {
  }

  lemma SaidGrows(space: char -> bool, w: World, a: Action, id: SessionId)
    requires Enabled(w, a)
    ensures Said(space, HistoryOf(w, id)) <= Said(space, HistoryOf(Next(space, w, a), id))
    ensures id in w.left ==> HistoryOf(Next(space, w, a), id) == HistoryOf(w, id)
  {
    if a.Speak? && a.id == id {
      SaidMore(space, HistoryOf(w, id), a.message);
    } else if Silent(a) {
      SilentKeepsTalk(space, w, a);
    }
  }

  /** A gap is never closed again. */
  lemma GapsStay(space: char -> bool, w: World, a: Action, id: SessionId)
    requires Enabled(w, a) && RoomsOk(w.db.sessions)
    requires |PushesOf(w, id)| <= |HistoryOf(w, id)| && GaplessAt(space, Next(space, w, a), id)
    ensures GaplessAt(space, w, id)
  {
    if a.Speak? && a.id == id {
      LaterMessageKeepsGaps(space, HistoryOf(w, id), PushesOf(w, id), a.message);
    } else if a.Mirror? && a.id == id {
      FewerPushesStayGapless(space, HistoryOf(w, id), PushesOf(w, id), a.pushed);
    } else if Silent(a) {
      SilentKeepsTalk(space, w, a);
    }
  }

  lemma ScoringStays(space: char -> bool, w: World, a: Action, t: Task)
    requires Enabled(w, a) && RoomsOk(w.db.sessions) && Consistent(space, w, t.session) && ScoresOk(space, w, t)
    ensures ScoresOk(space, Next(space, w, a), t)
  {
    if t.phase.Scoring? {
      var id, w' := t.session, Next(space, w, a);
      SaidGrows(space, w, a, id);
      WithinLonger(t.phase.turns, Said(space, HistoryOf(w, id)), Said(space, HistoryOf(w', id)));
      if GaplessAt(space, w', id) {
        GapsStay(space, w, a, id);
      }
    }
  }

  lemma StepReadsTurns(space: char -> bool, w: World, t: Task, step: TaskStep)
    requires Fits(t, step) && RoomsOk(w.db.sessions) && Consistent(space, w, t.session)
    ensures ScoresOk(space, w, TakeStep(w.db, t, step).1)
  {
    TaskStepReads(w.db, t, step);
    BufferHoldsTurns(space, w, t.session);
    StoredHoldsTurns(space, w, t.session);
  }

  lemma StepKeepsScoring(space: char -> bool, w: World, a: Action, t: TaskId)
    requires Enabled(w, a) && RoomsOk(w.db.sessions) && TranscriptsOk(space, w) && TasksScoreOk(space, w)
    requires t in Next(space, w, a).tasks
    ensures ScoresOk(space, Next(space, w, a), Next(space, w, a).tasks[t])
  {
    TasksAfter(space, w, a, t);
    if a.Work? && a.t == t {
      TaskStepReads(w.db, w.tasks[t], a.step);
      assert Consistent(space, w, w.tasks[t].session);
      StepReadsTurns(space, w, w.tasks[t], a.step);
      ScoringStays(space, w, a, Next(space, w, a).tasks[t]);
    } else if t in w.tasks {
      assert Consistent(space, w, w.tasks[t].session);
      ScoringStays(space, w, a, w.tasks[t]);
    }
  }

  // ---------- all runs ----------

  lemma StepKeepsTalk(space: char -> bool, w: World, a: Action)
    requires SessionsOk(w.db.sessions) && TranscriptsOk(space, w) && TasksScoreOk(space, w)
    requires Enabled(w, a) && (a.Speak? ==> TimeFixed(space, a.message))
    ensures TranscriptsOk(space, Next(space, w, a)) && TasksScoreOk(space, Next(space, w, a))
  {
    forall id: SessionId
      ensures Consistent(space, Next(space, w, a), id)
    {
      StepKeepsTranscript(space, w, a, id);
    }
    forall t | t in Next(space, w, a).tasks
      ensures ScoresOk(space, Next(space, w, a), Next(space, w, a).tasks[t])
    {
      StepKeepsScoring(space, w, a, t);
    }
  }

  lemma {:induction false} TalkOverRuns(space: char -> bool, w: World, run: seq<Action>)
    requires SessionsOk(w.db.sessions) && TranscriptsOk(space, w) && TasksScoreOk(space, w)
    requires Possible(space, w, run) && SpeaksTimed(space, run)
    ensures TranscriptsOk(space, After(space, w, run)) && TasksScoreOk(space, After(space, w, run))
    ensures SessionsOk(After(space, w, run).db.sessions)
    decreases |run|
  {
    if run != [] {
      assert run[0] in run;
      StepKeepsSessions(space, w, run[0]);
      StepKeepsTalk(space, w, run[0]);
      TalkOverRuns(space, Next(space, w, run[0]), run[1..]);
    }
  }

  lemma ReachedTalk(space: char -> bool, run: seq<Action>)
    requires Possible(space, START, run) && SpeaksTimed(space, run)
    ensures var w := After(space, START, run);
            TranscriptsOk(space, w) && TasksScoreOk(space, w) && SessionsOk(w.db.sessions)
  {
    forall id: SessionId
      ensures Consistent(space, START, id)
    {
    }
    TalkOverRuns(space, START, run);
  }

  /**
    However speaking, mirroring, ending, reading, leaving and reconciling interleave: the stored
    transcript, the live buffer and whatever a report task scores are turns of the conversation in
    their order, and as long as no turn was dropped before one that reached the buffer, its first turns.
  */
  lemma TranscriptsAreSafe(space: char -> bool, run: seq<Action>, id: SessionId)
    requires Possible(space, START, run) && SpeaksTimed(space, run)
    ensures var w := After(space, START, run);
            && Within(StoredOf(w.db, id), Said(space, HistoryOf(w, id)))
            && Within(MirrorOf(w.db, RoomName(id)), Said(space, HistoryOf(w, id)))
            && forall t | t in w.tasks && w.tasks[t].session == id && w.tasks[t].phase.Scoring? ::
                 Within(w.tasks[t].phase.turns, Said(space, HistoryOf(w, id)))
    ensures var w := After(space, START, run);
            GaplessAt(space, w, id) ==>
              && StoredOf(w.db, id) <= Said(space, HistoryOf(w, id))
              && MirrorOf(w.db, RoomName(id)) <= Said(space, HistoryOf(w, id))
              && forall t | t in w.tasks && w.tasks[t].session == id && w.tasks[t].phase.Scoring? ::
                   w.tasks[t].phase.turns <= Said(space, HistoryOf(w, id))
  {
    ReachedTalk(space, run);
    var w := After(space, START, run);
    assert Consistent(space, w, id);
    BufferHoldsTurns(space, w, id);
    StoredHoldsTurns(space, w, id);
    assert forall t | t in w.tasks :: ScoresOk(space, w, w.tasks[t]);
  }

  /**
    In every run an action extends what is stored, with two exceptions: what leaving does to its own
    session is stated by `LeavingExtendsIff`, and reconciliation extends what its session has stored
    exactly when the buffer it writes is empty or no shorter, so always until the agent has left.
  */
  lemma WritesExtend(space: char -> bool, run: seq<Action>, a: Action, id: SessionId)
    requires Possible(space, START, run) && SpeaksTimed(space, run) && Enabled(After(space, START, run), a)
    requires !(a.Leave? && a.id == id)
    ensures var w := After(space, START, run);
            StoredOf(w.db, id) <= StoredOf(Next(space, w, a).db, id)
            <==> (a.Recover? && a.id == id ==>
                    MirrorOf(w.db, RoomName(id)) == [] || |StoredOf(w.db, id)| <= |MirrorOf(w.db, RoomName(id))|)
    ensures id !in After(space, START, run).left ==>
              StoredOf(After(space, START, run).db, id) <= StoredOf(Next(space, After(space, START, run), a).db, id)
  {
    ReachedTalk(space, run);
    var w := After(space, START, run);
    assert Consistent(space, w, id);
    if a.Recover? && a.id == id {
      RecoveryExtends(space, w, id);
    } else {
      if a.Leave? {
        assert Consistent(space, w, a.id);
      }
      StepWrites(space, w, a, id);
    }
  }

  lemma RecoveryExtends(space: char -> bool, w: World, id: SessionId)
    requires Consistent(space, w, id) && RoomsOk(w.db.sessions) && id in w.db.sessions
    ensures var live := MirrorOf(w.db, RoomName(id));
            StoredOf(w.db, id) <= StoredOf(RecoverTranscript(w.db, id), id) <==> live == [] || |StoredOf(w.db, id)| <= |live|
  {
    BufferHoldsTurns(space, w, id);
    WithinIsShorter(MirrorOf(w.db, RoomName(id)), Said(space, HistoryOf(w, id)));
  }

  // ---------- gaps ----------

  ghost predicate AllDifferent(turns: seq<LoggedTurn>) {
    forall i, j | 0 <= i < j < |turns| :: turns[i] != turns[j]
  }

  /** Where the turn of message `i` stands among the turns of the conversation. */
  function PlaceOf(space: char -> bool, history: seq<Message>, i: nat): nat
    requires i <= |history|
  {
    |Said(space, history[..i])|
  }

  lemma TurnStandsThere(space: char -> bool, history: seq<Message>, i: nat)
    requires i < |history| && IsTurn(space, history[i])
    ensures PlaceOf(space, history, i) < |Said(space, history)|
    ensures Said(space, history)[PlaceOf(space, history, i)] == BuildTurn(space, history[i], 0).value
    ensures PlaceOf(space, history, i + 1) == PlaceOf(space, history, i) + 1
  {
    SaidUpTo(space, history, i);
    SaidPrefix(space, history, i + 1);
    assert Said(space, history[..i + 1])[PlaceOf(space, history, i)] == BuildTurn(space, history[i], 0).value;
  }

  lemma PlacesIncrease(space: char -> bool, history: seq<Message>, i: nat, j: nat)
    requires i < j <= |history| && IsTurn(space, history[i])
    ensures PlaceOf(space, history, i) < PlaceOf(space, history, j)
  {
    TurnStandsThere(space, history, i);
    assert history[..j][..i + 1] == history[..i + 1];
    SaidPrefix(space, history[..j], i + 1);
  }

  /** With all turns different, two messages with the same turn are the same. */
  lemma TurnTellsMessage(space: char -> bool, history: seq<Message>, i: nat, j: nat)
    requires AllDifferent(Said(space, history)) && i < |history| && j < |history|
    requires IsTurn(space, history[i]) && BuildTurn(space, history[i], 0) == BuildTurn(space, history[j], 0)
    ensures i == j
  {
    TurnStandsThere(space, history, i);
    TurnStandsThere(space, history, j);
    if i < j {
      PlacesIncrease(space, history, i, j);
    } else if j < i {
      PlacesIncrease(space, history, j, i);
    }
  }

  lemma {:induction false} KeptTurnsAreThere(space: char -> bool, history: seq<Message>, pushes: seq<bool>, turn: LoggedTurn)
    requires |pushes| <= |history|
    ensures turn in Said(space, KeptOf(history, pushes))
            <==> exists k: nat | k < |pushes| :: Kept(space, history, pushes, k) && BuildTurn(space, history[k], 0).value == turn
    decreases |pushes|
  {
    if pushes != [] {
      var n := |pushes| - 1;
      var before := pushes[..n];
      assert pushes == before + [pushes[n]];
      KeptTurnsAreThere(space, history, before, turn);
      KeptMore(space, history, before, pushes[n]);
      assert forall k: nat | k < n :: Kept(space, history, before, k) <==> Kept(space, history, pushes, k);
      assert Kept(space, history, pushes, n) <==> IsTurn(space, history[n]) && pushes[n];
    }
  }

  /** With all turns different, the turns kept are first turns exactly when no turn was dropped before one that was kept. */
  lemma KeptIsPrefixIff(space: char -> bool, history: seq<Message>, pushes: seq<bool>)
    requires |pushes| <= |history| && AllDifferent(Said(space, history))
    ensures Said(space, KeptOf(history, pushes)) <= Said(space, history) <==> Gapless(space, history, pushes)
  {
    if Gapless(space, history, pushes) {
      GaplessIsPrefix(space, history, pushes);
      SaidPrefix(space, history, |pushes|);
    } else {
      var i: nat, j: nat :| i < j < |pushes| && Dropped(space, history, pushes, i) && Kept(space, history, pushes, j);
      GapShows(space, history, pushes, i, j);
    }
  }

  lemma GapShows(space: char -> bool, history: seq<Message>, pushes: seq<bool>, i: nat, j: nat)
    requires i < j < |pushes| <= |history| && AllDifferent(Said(space, history))
    requires Dropped(space, history, pushes, i) && Kept(space, history, pushes, j)
    ensures !(Said(space, KeptOf(history, pushes)) <= Said(space, history))
  {
    var kept, said := Said(space, KeptOf(history, pushes)), Said(space, history);
    var missing, present := BuildTurn(space, history[i], 0).value, BuildTurn(space, history[j], 0).value;
    DroppedIsMissing(space, history, pushes, i);
    KeptTurnsAreThere(space, history, pushes, present);
    TurnStandsThere(space, history, i);
    TurnStandsThere(space, history, j);
    PlacesIncrease(space, history, i, j);
    var q :| 0 <= q < |kept| && kept[q] == present;
    if kept <= said {
      PrefixReaches(kept, said, PlaceOf(space, history, i), PlaceOf(space, history, j), q);
    }
  }

  lemma PrefixReaches(kept: seq<LoggedTurn>, said: seq<LoggedTurn>, p: nat, later: nat, q: nat)
    requires kept <= said && AllDifferent(said) && p < later < |said| && q < |kept| && kept[q] == said[later]
    ensures said[p] in kept
  {
    assert said[q] == said[later];
    assert q == later;
    assert kept[p] == said[p];
  }

  lemma DroppedIsMissing(space: char -> bool, history: seq<Message>, pushes: seq<bool>, i: nat)
    requires i < |pushes| <= |history| && AllDifferent(Said(space, history)) && Dropped(space, history, pushes, i)
    ensures BuildTurn(space, history[i], 0).value !in Said(space, KeptOf(history, pushes))
  {
    var turn := BuildTurn(space, history[i], 0).value;
    KeptTurnsAreThere(space, history, pushes, turn);
    if k: nat :| k < |pushes| && Kept(space, history, pushes, k) && BuildTurn(space, history[k], 0).value == turn {
      TurnTellsMessage(space, history, i, k);
    }
  }

  /**
    When the turns of a conversation are all different, the live buffer holds its first turns exactly
    as long as no turn was dropped before one that reached it.
  */
  lemma BufferIsPrefixIff(space: char -> bool, run: seq<Action>, id: SessionId)
    requires Possible(space, START, run) && SpeaksTimed(space, run)
    requires AllDifferent(Said(space, HistoryOf(After(space, START, run), id)))
    ensures var w := After(space, START, run);
            MirrorOf(w.db, RoomName(id)) <= Said(space, HistoryOf(w, id)) <==> GaplessAt(space, w, id)
  {
    ReachedTalk(space, run);
    var w := After(space, START, run);
    assert Consistent(space, w, id);
    KeptIsPrefixIff(space, HistoryOf(w, id), PushesOf(w, id));
  }

  // ---------- what each action stores ----------

  /** The caller may read the transcript of the session, or end it. */
  predicate SyncsFor(w: World, a: Action, id: SessionId) {
    && (a.End? || a.FetchTranscript?) && a.id == id && id in w.db.sessions && w.db.sessions[id].user == a.caller
    && (a.End? ==> w.db.sessions[id].status == InProgress)
  }

  /**
    Exactly what every action leaves stored for a session: reading and ending by its owner take the
    buffer over if nothing is stored yet, leaving the conversation or else the buffer, reconciliation
    the buffer, each unless it is empty or cannot be reached; nothing else touches it.
  */
  lemma ActionsStore(space: char -> bool, w: World, a: Action, id: SessionId)
    requires Enabled(w, a) && RoomsOk(w.db.sessions) && (a.Leave? ==> Timed(space, HistoryOf(w, a.id)))
    ensures var stored, live, said := StoredOf(w.db, id), MirrorOf(w.db, RoomName(id)), Said(space, HistoryOf(w, id));
            StoredOf(Next(space, w, a).db, id)
            == if SyncsFor(w, a, id) && stored == [] && a.up then live
               else if a.Leave? && a.id == id && a.writable && a.historyUp && said != [] then said
               else if a.Leave? && a.id == id && a.writable && a.up && live != [] then live
               else if a.Recover? && a.id == id && live != [] then live
               else stored
  {
    if Silent(a) {
      SilentKeepsTalk(space, w, a);
    } else if a.End? {
      EndStores(w.db, a.caller, a.id, a.up, id);
    } else if a.FetchTranscript? {
      FetchStores(w.db, a.caller, a.id, a.up, id);
    } else if a.Leave? {
      FixedTimesGiveFixedTurns(space, HistoryOf(w, a.id), a.now, 0);
      LeaveStoresTurns(w.db, a.id, if a.historyUp then BuildTurns(space, HistoryOf(w, a.id), a.now) else [], a.up, a.writable, id);
    } else if a.Recover? {
      RecoveryStores(w.db, a.id, id);
    }
  }

  lemma LeaveStoresTurns(db: Db, of: SessionId, turns: seq<LoggedTurn>, up: bool, writable: bool, id: SessionId)
    requires of in db.sessions && RoomsOk(db.sessions)
    ensures StoredOf(AgentExit(db, of, turns, up, writable), id)
         == if id == of && writable && turns != [] then turns
            else if id == of && writable && up && MirrorOf(db, RoomName(id)) != [] then MirrorOf(db, RoomName(id))
            else StoredOf(db, id)
  {
  }

  lemma RecoveryStores(db: Db, of: SessionId, id: SessionId)
    requires of in db.sessions && RoomsOk(db.sessions)
    ensures StoredOf(RecoverTranscript(db, of), id)
         == if id == of && MirrorOf(db, RoomName(id)) != [] then MirrorOf(db, RoomName(id)) else StoredOf(db, id)
  {
  }

  lemma SyncStores(db: Db, of: SessionId, up: bool, id: SessionId)
    requires of in db.sessions && RoomsOk(db.sessions)
    ensures StoredOf(SyncTranscript(db, of, up), id)
         == if id == of && StoredOf(db, id) == [] && up then MirrorOf(db, RoomName(id)) else StoredOf(db, id)
  {
  }

  lemma EndStores(db: Db, caller: UserId, of: SessionId, up: bool, id: SessionId)
    requires RoomsOk(db.sessions)
    ensures StoredOf(EndSession(db, caller, of, up).0, id)
         == if id == of && of in db.sessions && db.sessions[of].user == caller && db.sessions[of].status == InProgress
               && StoredOf(db, id) == [] && up
            then MirrorOf(db, RoomName(id)) else StoredOf(db, id)
  {
    if EndSession(db, caller, of, up).1 == Ended {
      SyncStores(db.(sessions := db.sessions[of := db.sessions[of].(status := Completed)]), of, up, id);
    }
  }

  lemma FetchStores(db: Db, caller: UserId, of: SessionId, up: bool, id: SessionId)
    requires RoomsOk(db.sessions)
    ensures StoredOf(ReadTranscript(db, caller, of, up).0, id)
         == if id == of && of in db.sessions && db.sessions[of].user == caller && StoredOf(db, id) == [] && up
            then MirrorOf(db, RoomName(id)) else StoredOf(db, id)
  {
    if of in db.sessions {
      SyncStores(db, of, up, id);
    }
  }

  /**
    In every run only the owner is handed a transcript: what is stored, or else what the buffer holds if
    it can be read, and if that is nothing it is not ready yet.
  */
  lemma OnlyTheOwnerReads(space: char -> bool, run: seq<Action>, caller: UserId, id: SessionId, up: bool)
    requires Possible(space, START, run)
    ensures var db := After(space, START, run).db;
            var turns := if StoredOf(db, id) != [] then StoredOf(db, id) else if up then MirrorOf(db, RoomName(id)) else [];
            ReadTranscript(db, caller, id, up).1
            == if id !in db.sessions then NoSession
               else if db.sessions[id].user != caller then NotYours
               else if turns == [] then NotReady else Turns(turns)
  {
    SessionsOverRuns(space, START, run);
    FetchStores(After(space, START, run).db, caller, id, up, id);
  }

  // ---------- leaving after a gap ----------

  /** No turn has been dropped before one that is stored. */
  ghost predicate NoneDroppedBefore(space: char -> bool, history: seq<Message>, pushes: seq<bool>, stored: seq<LoggedTurn>)
    requires |pushes| <= |history|
  {
    forall i: nat, j: nat | i < j < |pushes| && Dropped(space, history, pushes, i) && Kept(space, history, pushes, j) ::
      BuildTurn(space, history[j], 0).value !in stored
  }

  lemma FewerPushesDropNoMore(space: char -> bool, history: seq<Message>, pushes: seq<bool>, pushed: bool, stored: seq<LoggedTurn>)
    requires |pushes| < |history| && NoneDroppedBefore(space, history, pushes + [pushed], stored)
    ensures NoneDroppedBefore(space, history, pushes, stored)
    ensures pushed && IsTurn(space, history[|pushes|]) && BuildTurn(space, history[|pushes|], 0).value in stored ==>
              forall i: nat | i < |pushes| + 1 :: !Dropped(space, history, pushes + [pushed], i)
  {
    var all, n := pushes + [pushed], |pushes|;
    forall i: nat, j: nat | i < j < n && Dropped(space, history, pushes, i) && Kept(space, history, pushes, j)
      ensures BuildTurn(space, history[j], 0).value !in stored
    {
      assert Dropped(space, history, all, i) && Kept(space, history, all, j);
    }
    if pushed && IsTurn(space, history[n]) && BuildTurn(space, history[n], 0).value in stored {
      assert Kept(space, history, all, n);
      forall i: nat | i < n + 1
        ensures !Dropped(space, history, all, i)
      {
      }
    }
  }

  /** What was stored of the buffer are first turns of the conversation if no turn was dropped before one of them. */
  lemma {:induction false} StoredIsPrefix(space: char -> bool, history: seq<Message>, pushes: seq<bool>, stored: seq<LoggedTurn>)
    requires |pushes| <= |history| && stored <= Said(space, KeptOf(history, pushes))
    requires NoneDroppedBefore(space, history, pushes, stored)
    ensures stored <= Said(space, history[..|pushes|])
    decreases |pushes|
  {
    if pushes != [] {
      var n := |pushes| - 1;
      var before := pushes[..n];
      assert pushes == before + [pushes[n]];
      KeptMore(space, history, before, pushes[n]);
      FewerPushesDropNoMore(space, history, before, pushes[n], stored);
      if stored <= Said(space, KeptOf(history, before)) {
        StoredIsPrefix(space, history, before, stored);
        SaidUpTo(space, history, n);
      } else {
        assert stored == Said(space, KeptOf(history, pushes));
        assert stored[|stored| - 1] == BuildTurn(space, history[n], 0).value;
        GaplessIsPrefix(space, history, pushes);
      }
    }
  }

  /** With all turns different it is first turns of the conversation only then. */
  lemma StoredIsPrefixIff(space: char -> bool, history: seq<Message>, pushes: seq<bool>, stored: seq<LoggedTurn>)
    requires |pushes| <= |history| && stored <= Said(space, KeptOf(history, pushes))
    ensures NoneDroppedBefore(space, history, pushes, stored) ==> stored <= Said(space, history)
    ensures AllDifferent(Said(space, history)) ==>
              (stored <= Said(space, history) <==> NoneDroppedBefore(space, history, pushes, stored))
  {
    if NoneDroppedBefore(space, history, pushes, stored) {
      StoredIsPrefix(space, history, pushes, stored);
      SaidPrefix(space, history, |pushes|);
    } else if AllDifferent(Said(space, history)) {
      var i: nat, j: nat :| i < j < |pushes| && Dropped(space, history, pushes, i) && Kept(space, history, pushes, j)
                            && BuildTurn(space, history[j], 0).value in stored;
      StoredGapShows(space, history, pushes, stored, i, j);
    }
  }

  lemma StoredGapShows(space: char -> bool, history: seq<Message>, pushes: seq<bool>, stored: seq<LoggedTurn>, i: nat, j: nat)
    requires i < j < |pushes| <= |history| && AllDifferent(Said(space, history)) && stored <= Said(space, KeptOf(history, pushes))
    requires Dropped(space, history, pushes, i) && Kept(space, history, pushes, j) && BuildTurn(space, history[j], 0).value in stored
    ensures !(stored <= Said(space, history))
  {
    var said := Said(space, history);
    DroppedIsMissing(space, history, pushes, i);
    TurnStandsThere(space, history, i);
    TurnStandsThere(space, history, j);
    PlacesIncrease(space, history, i, j);
    var q :| 0 <= q < |stored| && stored[q] == BuildTurn(space, history[j], 0).value;
    if stored <= said {
      PrefixReaches(stored, said, PlaceOf(space, history, i), PlaceOf(space, history, j), q);
    }
  }

  /** What leaving stores. */
  lemma LeaveStores(space: char -> bool, w: World, leave: Action)
    requires SessionsOk(w.db.sessions) && leave.Leave? && Consistent(space, w, leave.id) && Enabled(w, leave)
    ensures var said, live := Said(space, HistoryOf(w, leave.id)), MirrorOf(w.db, RoomName(leave.id));
            StoredOf(Next(space, w, leave).db, leave.id)
            == if !leave.writable then StoredOf(w.db, leave.id)
               else if leave.historyUp && said != [] then said
               else if leave.up && live != [] then live
               else StoredOf(w.db, leave.id)
  {
    FixedTimesGiveFixedTurns(space, HistoryOf(w, leave.id), leave.now, 0);
  }

  /** The agent does not write its history, or no turn has been dropped before one that is stored. */
  ghost predicate LeavesSafely(space: char -> bool, w: World, leave: Action)
    requires leave.Leave? && |PushesOf(w, leave.id)| <= |HistoryOf(w, leave.id)|
  {
    leave.historyUp && leave.writable ==>
      NoneDroppedBefore(space, HistoryOf(w, leave.id), PushesOf(w, leave.id), StoredOf(w.db, leave.id))
  }

  /**
    In every run the agent's leaving extends what is stored if it does not write its history, or if no
    turn was dropped before one that is stored; when the turns are all different, only then.
  */
  lemma LeavingExtendsIff(space: char -> bool, run: seq<Action>, leave: Action)
    requires Possible(space, START, run) && SpeaksTimed(space, run)
    requires leave.Leave? && Enabled(After(space, START, run), leave)
    ensures var w, id := After(space, START, run), leave.id;
            && |PushesOf(w, id)| <= |HistoryOf(w, id)|
            && (LeavesSafely(space, w, leave) ==> StoredOf(w.db, id) <= StoredOf(Next(space, w, leave).db, id))
            && (AllDifferent(Said(space, HistoryOf(w, id))) ==>
                  (StoredOf(w.db, id) <= StoredOf(Next(space, w, leave).db, id) <==> LeavesSafely(space, w, leave)))
  {
    ReachedTalk(space, run);
    var w, id := After(space, START, run), leave.id;
    assert Consistent(space, w, id);
    LeaveStores(space, w, leave);
    StoredHoldsTurns(space, w, id);
    WithinIsShorter(StoredOf(w.db, id), Said(space, HistoryOf(w, id)));
    StoredIsPrefixIff(space, HistoryOf(w, id), PushesOf(w, id), StoredOf(w.db, id));
  }

  // ---------- what leaving secures ----------

  lemma StepKeepsWhole(space: char -> bool, w: World, a: Action, id: SessionId)
    requires SessionsOk(w.db.sessions) && TranscriptsOk(space, w) && Enabled(w, a) && !(a.Recover? && a.id == id)
    requires id in w.left && StoredOf(w.db, id) == Said(space, HistoryOf(w, id))
    ensures var w' := Next(space, w, a);
            id in w'.left && StoredOf(w'.db, id) == Said(space, HistoryOf(w', id)) && HistoryOf(w', id) == HistoryOf(w, id)
  {
    SaidGrows(space, w, a, id);
    assert Consistent(space, w, id);
    BufferHoldsTurns(space, w, id);
    if a.Leave? {
      assert Consistent(space, w, a.id);
    }
    StepWrites(space, w, a, id);
  }

  lemma {:induction false} WholeOverRuns(space: char -> bool, w: World, run: seq<Action>, id: SessionId)
    requires SessionsOk(w.db.sessions) && TranscriptsOk(space, w) && TasksScoreOk(space, w)
    requires Possible(space, w, run) && SpeaksTimed(space, run)
    requires forall a | a in run :: !(a.Recover? && a.id == id)
    requires id in w.left && StoredOf(w.db, id) == Said(space, HistoryOf(w, id))
    ensures var w' := After(space, w, run);
            StoredOf(w'.db, id) == Said(space, HistoryOf(w', id)) && HistoryOf(w', id) == HistoryOf(w, id)
    decreases |run|
  {
    if run != [] {
      assert run[0] in run;
      StepKeepsSessions(space, w, run[0]);
      StepKeepsTalk(space, w, run[0]);
      StepKeepsWhole(space, w, run[0], id);
      WholeOverRuns(space, Next(space, w, run[0]), run[1..], id);
    }
  }

  lemma LeavingStores(space: char -> bool, w: World, leave: Action)
    requires SessionsOk(w.db.sessions) && TranscriptsOk(space, w) && Enabled(w, leave)
    requires leave.Leave? && leave.historyUp && leave.writable
    ensures var w' := Next(space, w, leave);
            && leave.id in w'.left && HistoryOf(w', leave.id) == HistoryOf(w, leave.id)
            && StoredOf(w'.db, leave.id) == Said(space, HistoryOf(w, leave.id))
  {
    assert Consistent(space, w, leave.id);
    BufferHoldsTurns(space, w, leave.id);
    FixedTimesGiveFixedTurns(space, HistoryOf(w, leave.id), leave.now, 0);
  }

  /**
    An agent that leaves with its history at hand and the table writable stores the whole
    conversation, and it stays stored as long as reconciliation does not touch that session.
  */
  lemma LeavingStoresTheConversation(space: char -> bool, before: seq<Action>, leave: Action, after: seq<Action>)
    requires leave.Leave? && leave.historyUp && leave.writable
    requires Possible(space, START, before) && SpeaksTimed(space, before) && SpeaksTimed(space, after)
    requires Enabled(After(space, START, before), leave)
    requires Possible(space, Next(space, After(space, START, before), leave), after)
    requires forall a | a in after :: !(a.Recover? && a.id == leave.id)
    ensures var w := After(space, START, before);
            var w' := After(space, Next(space, w, leave), after);
            StoredOf(w'.db, leave.id) == Said(space, HistoryOf(w, leave.id)) && HistoryOf(w', leave.id) == HistoryOf(w, leave.id)
  {
    ReachedTalk(space, before);
    var w := After(space, START, before);
    LeavingStores(space, w, leave);
    StepKeepsSessions(space, w, leave);
    StepKeepsTalk(space, w, leave);
    WholeOverRuns(space, Next(space, w, leave), after, leave.id);
  }

  // ---------- the exceptions do happen ----------

  lemma FirstSpoken(space: char -> bool, user: UserId, id: SessionId, m: Message)
    returns (run: seq<Action>)
    requires TimeFixed(space, m)
    ensures Possible(space, START, run) && SpeaksTimed(space, run)
    ensures After(space, START, run) == OneSession(user, id, InProgress, map[], map[], map[id := [m]], map[], {}, {})
  {
    run := Opened(space, user, id);
    OneMoreAction(space, START, run, Speak(id, m));
    run := run + [Speak(id, m)];
    assert [] + [m] == [m];
  }

  lemma FirstMirrored(space: char -> bool, user: UserId, id: SessionId, m: Message)
    returns (run: seq<Action>)
    requires TimeFixed(space, m) && BuildTurn(space, m, 0).Some?
    ensures Possible(space, START, run) && SpeaksTimed(space, run)
    ensures After(space, START, run)
         == OneSession(user, id, InProgress, map[], map[RoomName(id) := [BuildTurn(space, m, 0).value]],
                       map[id := [m]], map[id := [true]], {}, {})
  {
    run := FirstSpoken(space, user, id, m);
    OneMoreAction(space, START, run, Mirror(id, 0, true));
    run := run + [Mirror(id, 0, true)];
    var turn := BuildTurn(space, m, 0).value;
    assert [] + [turn] == [turn] && [] + [true] == [true];
    assert After(space, START, run).db.mirror == map[RoomName(id) := [turn]];
  }

  /** Both messages are spoken, only the first is mirrored. */
  lemma HalfMirrored(space: char -> bool, user: UserId, id: SessionId, m: Message, n: Message)
    returns (run: seq<Action>)
    requires TimeFixed(space, m) && TimeFixed(space, n) && BuildTurn(space, m, 0).Some?
    ensures Possible(space, START, run) && SpeaksTimed(space, run)
    ensures After(space, START, run)
         == OneSession(user, id, InProgress, map[], map[RoomName(id) := [BuildTurn(space, m, 0).value]],
                       map[id := [m, n]], map[id := [true]], {}, {})
  {
    run := FirstMirrored(space, user, id, m);
    OneMoreAction(space, START, run, Speak(id, n));
    run := run + [Speak(id, n)];
    assert [m] + [n] == [m, n];
    assert After(space, START, run).history == map[id := [m, n]];
  }

  /** The interview ends while the buffer is down, and reconciliation finds it without a transcript. */
  lemma FoundMissing(space: char -> bool, user: UserId, id: SessionId, m: Message, n: Message)
    returns (run: seq<Action>)
    requires TimeFixed(space, m) && TimeFixed(space, n) && BuildTurn(space, m, 0).Some?
    ensures Possible(space, START, run) && SpeaksTimed(space, run)
    ensures After(space, START, run)
         == OneSession(user, id, Completed, map[], map[RoomName(id) := [BuildTurn(space, m, 0).value]],
                       map[id := [m, n]], map[id := [true]], {}, {id})
  {
    run := HalfMirrored(space, user, id, m, n);
    var live := map[RoomName(id) := [BuildTurn(space, m, 0).value]];
    OneMoreAction(space, START, run, End(user, id, false, None));
    run := run + [End(user, id, false, None)];
    assert After(space, START, run).db.sessions == map[id := Session(user, RoomName(id), Completed, None, 0)];
    assert After(space, START, run) == OneSession(user, id, Completed, map[], live, map[id := [m, n]], map[id := [true]], {}, {});
    OneMoreAction(space, START, run, FindMissing(id));
    run := run + [FindMissing(id)];
  }

  /**
    Reconciliation finds a session without a transcript, the agent stores the whole conversation, and
    reconciliation then writes its shorter buffer over it: the second turn is gone.
  */
  lemma RecoveryCanLoseTurns(space: char -> bool, user: UserId, id: SessionId, m: Message, n: Message)
    returns (run: seq<Action>)
    requires BuildTurn(space, m, 0).Some? && BuildTurn(space, n, 0).Some? && m.createdAt != 0 && n.createdAt != 0
    ensures Possible(space, START, run) && SpeaksTimed(space, run) && Enabled(After(space, START, run), Recover(id))
    ensures var w := After(space, START, run);
            && StoredOf(w.db, id) == [BuildTurn(space, m, 0).value, BuildTurn(space, n, 0).value]
            && StoredOf(Next(space, w, Recover(id)).db, id) == [BuildTurn(space, m, 0).value]
  {
    run := FoundMissing(space, user, id, m, n);
    BothTurns(space, m, n);
    OneMoreAction(space, START, run, Leave(id, true, 0, true, true));
    run := run + [Leave(id, true, 0, true, true)];
  }

  lemma BothSpoken(space: char -> bool, user: UserId, id: SessionId, m: Message, n: Message)
    returns (run: seq<Action>)
    requires TimeFixed(space, m) && TimeFixed(space, n)
    ensures Possible(space, START, run) && SpeaksTimed(space, run)
    ensures After(space, START, run) == OneSession(user, id, InProgress, map[], map[], map[id := [m, n]], map[], {}, {})
  {
    run := FirstSpoken(space, user, id, m);
    OneMoreAction(space, START, run, Speak(id, n));
    run := run + [Speak(id, n)];
    assert [m] + [n] == [m, n];
    assert After(space, START, run).history == map[id := [m, n]];
  }

  /** Both messages are spoken; the push of the first turn fails, that of the second does not. */
  lemma SecondMirrored(space: char -> bool, user: UserId, id: SessionId, m: Message, n: Message)
    returns (run: seq<Action>)
    requires TimeFixed(space, m) && TimeFixed(space, n) && BuildTurn(space, n, 0).Some?
    ensures Possible(space, START, run) && SpeaksTimed(space, run)
    ensures After(space, START, run)
         == OneSession(user, id, InProgress, map[], map[RoomName(id) := [BuildTurn(space, n, 0).value]],
                       map[id := [m, n]], map[id := [false, true]], {}, {})
  {
    run := BothSpoken(space, user, id, m, n);
    OneMoreAction(space, START, run, Mirror(id, 0, false));
    run := run + [Mirror(id, 0, false)];
    assert [] + [false] == [false];
    assert After(space, START, run).pushes == map[id := [false]];
    OneMoreAction(space, START, run, Mirror(id, 0, true));
    run := run + [Mirror(id, 0, true)];
    var turn := BuildTurn(space, n, 0).value;
    assert [] + [turn] == [turn] && [false] + [true] == [false, true];
    assert After(space, START, run).pushes == map[id := [false, true]];
    assert After(space, START, run).db.mirror == map[RoomName(id) := [turn]];
  }

  lemma FalseThenTrueIsAGap(space: char -> bool, m: Message, n: Message)
    requires BuildTurn(space, m, 0).Some? && BuildTurn(space, n, 0).Some?
    ensures !Gapless(space, [m, n], [false, true])
  {
    assert Dropped(space, [m, n], [false, true], 0) && Kept(space, [m, n], [false, true], 1);
  }

  /** The push of the first turn fails, that of the second does not: the buffer holds the second turn alone. */
  lemma BufferCanHaveAGap(space: char -> bool, user: UserId, id: SessionId, m: Message, n: Message)
    returns (run: seq<Action>)
    requires BuildTurn(space, m, 0).Some? && BuildTurn(space, n, 0).Some? && m.createdAt != 0 && n.createdAt != 0
    ensures Possible(space, START, run) && SpeaksTimed(space, run)
    ensures var w := After(space, START, run);
            && Said(space, HistoryOf(w, id)) == [BuildTurn(space, m, 0).value, BuildTurn(space, n, 0).value]
            && MirrorOf(w.db, RoomName(id)) == [BuildTurn(space, n, 0).value] && !GaplessAt(space, w, id)
  {
    run := SecondMirrored(space, user, id, m, n);
    BothTurns(space, m, n);
    FalseThenTrueIsAGap(space, m, n);
  }

  /**
    The API ends the interview and stores such a buffer, then the agent leaves and stores its history:
    the second turn is no longer the first of what is stored, which is not extended if the two differ.
  */
  lemma LeavingCanRewrite(space: char -> bool, user: UserId, id: SessionId, m: Message, n: Message)
    returns (run: seq<Action>)
    requires BuildTurn(space, m, 0).Some? && BuildTurn(space, n, 0).Some? && m.createdAt != 0 && n.createdAt != 0
    ensures Possible(space, START, run) && SpeaksTimed(space, run)
    ensures Enabled(After(space, START, run), Leave(id, true, 0, true, true))
    ensures var w, first, second := After(space, START, run), BuildTurn(space, m, 0).value, BuildTurn(space, n, 0).value;
            var stored, stored' := StoredOf(w.db, id), StoredOf(Next(space, w, Leave(id, true, 0, true, true)).db, id);
            stored == [second] && stored' == [first, second] && (first != second ==> !(stored <= stored'))
  {
    run := SecondMirrored(space, user, id, m, n);
    OneMoreAction(space, START, run, End(user, id, true, None));
    run := run + [End(user, id, true, None)];
    BothTurns(space, m, n);
  }

  lemma BothTurns(space: char -> bool, m: Message, n: Message)
    requires BuildTurn(space, m, 0).Some? && BuildTurn(space, n, 0).Some?
    ensures BuildTurns(space, [m, n], 0) == [BuildTurn(space, m, 0).value, BuildTurn(space, n, 0).value]
  {
    SaidMore(space, [], m);
    SaidMore(space, [m], n);
    assert [] + [m] == [m] && [m] + [n] == [m, n];
  }
}
