/**
  The tables and the live buffer that the API process, the voice agent and the periodic workers
  share, and what each of them does to these in one go.
*/
module SessionStore {
  import opened Wrappers
  import opened Text

  type UserId = nat
  type SessionId = string
  type ReportId = nat

  datatype Status = InProgress | Completed | Failed

  datatype Session = Session(user: UserId, room: string, status: Status, reason: Option<string>, createdAt: int)

  /** A turn as it is logged. */
  datatype LoggedTurn = LoggedTurn(speaker: string, text: string, timestamp: int)

  datatype Report = Report(session: SessionId, content: string)

  /** `transcripts` has a row for a session or not; `mirror` is the live buffer, one list a room. */
  datatype Db = Db(sessions: map<SessionId, Session>, transcripts: map<SessionId, seq<LoggedTurn>>,
                   reports: map<ReportId, Report>, mirror: map<string, seq<LoggedTurn>>)

  // ---------- turns ----------

  /** A chat message; `createdAt` is 0 when the message carries no creation time. */
  datatype Message = Message(role: string, text: string, createdAt: int)

  function SpeakerOf(role: string): Option<string> {
    if role == "user" then Some("candidate") else if role == "assistant" then Some("agent") else None
  }

  /** `build_turn`: the turn of a message, or nothing for other roles and empty texts. */
  function BuildTurn(space: char -> bool, m: Message, now: int): Option<LoggedTurn> {
    if SpeakerOf(m.role).None? || Strip(space, m.text) == "" then None
    else Some(LoggedTurn(SpeakerOf(m.role).value, Strip(space, m.text), if m.createdAt != 0 then m.createdAt else now))
  }

  /** `build_turns`: the turns of a history, in order. */
  function BuildTurns(space: char -> bool, history: seq<Message>, now: int): seq<LoggedTurn> {
    if history == [] then []
    else
      var last := BuildTurn(space, history[|history| - 1], now);
      BuildTurns(space, history[..|history| - 1], now) + if last.Some? then [last.value] else []
  }

  /** The message is no turn, or carries its own time. */
  predicate TimeFixed(space: char -> bool, m: Message) {
    SpeakerOf(m.role).None? || Strip(space, m.text) == "" || m.createdAt != 0
  }

  lemma {:induction false} FixedTimesGiveFixedTurns(space: char -> bool, history: seq<Message>, t: int, u: int)
    requires forall m | m in history :: TimeFixed(space, m)
    ensures BuildTurns(space, history, t) == BuildTurns(space, history, u)
    decreases |history|
  {
    if history != [] {
      var rest, last := history[..|history| - 1], history[|history| - 1];
      FixedTimesGiveFixedTurns(space, rest, t, u);
      assert TimeFixed(space, last);
      assert BuildTurn(space, last, t) == BuildTurn(space, last, u);
    }
  }

  lemma {:induction false} OpenTimesShow(space: char -> bool, history: seq<Message>, m: Message)
    requires m in history && !TimeFixed(space, m)
    ensures BuildTurns(space, history, 0) != BuildTurns(space, history, 1)
    decreases |history|
  {
    var rest, last := history[..|history| - 1], history[|history| - 1];
    var earlier, later := BuildTurns(space, history, 0), BuildTurns(space, history, 1);
    if !TimeFixed(space, last) {
      assert earlier[|earlier| - 1] != later[|later| - 1];
    } else {
      assert history == rest + [last];
      OpenTimesShow(space, rest, m);
      var turn := BuildTurn(space, last, 0);
      assert turn == BuildTurn(space, last, 1);
      if turn.Some? {
        assert earlier == BuildTurns(space, rest, 0) + [turn.value] && later == BuildTurns(space, rest, 1) + [turn.value];
        assert earlier[..|earlier| - 1] == BuildTurns(space, rest, 0) && later[..|later| - 1] == BuildTurns(space, rest, 1);
      } else {
        assert earlier == BuildTurns(space, rest, 0) && later == BuildTurns(space, rest, 1);
      }
    }
  }

  /** A history gives the same turns whenever it is converted exactly when each of its messages does. */
  lemma ConversionTimeIrrelevant(space: char -> bool, history: seq<Message>)
    ensures (forall t, u :: BuildTurns(space, history, t) == BuildTurns(space, history, u))
        <==> forall m | m in history :: TimeFixed(space, m)
  {
    if m :| m in history && !TimeFixed(space, m) {
      OpenTimesShow(space, history, m);
    } else {
      forall t, u
        ensures BuildTurns(space, history, t) == BuildTurns(space, history, u)
      {
        FixedTimesGiveFixedTurns(space, history, t, u);
      }
    }
  }

  // ---------- sessions ----------

  function RoomName(id: SessionId): string {
    "room_" + id
  }

  lemma RoomNamesDiffer(a: SessionId, b: SessionId)
    requires RoomName(a) == RoomName(b)
    ensures a == b
  {
    assert a == RoomName(a)[5..] && b == RoomName(b)[5..];
  }

  predicate HasActive(sessions: map<SessionId, Session>, user: UserId) {
    exists id | id in sessions :: sessions[id].user == user && sessions[id].status == InProgress
  }

  predicate RoomTaken(sessions: map<SessionId, Session>, room: string) {
    exists id | id in sessions :: sessions[id].room == room
  }

  /** Insert and commit; the unique indexes on active user and on room name refuse a conflicting row. */
  function CreateSession(db: Db, user: UserId, id: SessionId, now: int): (Db, bool) {
    if id in db.sessions || HasActive(db.sessions, user) || RoomTaken(db.sessions, RoomName(id)) then (db, false)
    else (db.(sessions := db.sessions[id := Session(user, RoomName(id), InProgress, None, now)]), true)
  }

  function MirrorOf(db: Db, room: string): seq<LoggedTurn> {
    if room in db.mirror then db.mirror[room] else []
  }

  function StoredOf(db: Db, id: SessionId): seq<LoggedTurn> {
    if id in db.transcripts then db.transcripts[id] else []
  }

  /** Take the live buffer over if no turns are stored yet. */
  function SyncTranscript(db: Db, id: SessionId, mirrorUp: bool): Db
    requires id in db.sessions
  {
    var live := MirrorOf(db, db.sessions[id].room);
    if StoredOf(db, id) == [] && mirrorUp && live != [] then db.(transcripts := db.transcripts[id := live]) else db
  }

  datatype TranscriptReply = NoSession | NotYours | NotReady | Turns(turns: seq<LoggedTurn>)

  function ReadTranscript(db: Db, caller: UserId, id: SessionId, mirrorUp: bool): (Db, TranscriptReply) {
    if id !in db.sessions then (db, NoSession)
    else if db.sessions[id].user != caller then (db, NotYours)
    else
      var db' := SyncTranscript(db, id, mirrorUp);
      (db', if StoredOf(db', id) == [] then NotReady else Turns(StoredOf(db', id)))
  }

  datatype EndOutcome = NotFound | Forbidden | NotActive | Ended

  function EndSession(db: Db, caller: UserId, id: SessionId, mirrorUp: bool): (Db, EndOutcome) {
    if id !in db.sessions then (db, NotFound)
    else if db.sessions[id].user != caller then (db, Forbidden)
    else if db.sessions[id].status != InProgress then (db, NotActive)
    else
      var ended := db.(sessions := db.sessions[id := db.sessions[id].(status := Completed)]);
      (SyncTranscript(ended, id, mirrorUp), Ended)
  }

  /** Upsert. */
  function SaveTranscript(db: Db, id: SessionId, turns: seq<LoggedTurn>): Db {
    db.(transcripts := db.transcripts[id := turns])
  }

  /** The agent leaves: store its history, or else the live buffer, unless both are empty or the write fails. */
  function AgentExit(db: Db, id: SessionId, fromHistory: seq<LoggedTurn>, mirrorUp: bool, writable: bool): Db
    requires id in db.sessions
  {
    var turns := if fromHistory != [] then fromHistory
                 else if mirrorUp then MirrorOf(db, db.sessions[id].room) else [];
    if turns != [] && writable then SaveTranscript(db, id, turns) else db
  }

  /** Reconciliation writes the live buffer over whatever is stored. */
  function RecoverTranscript(db: Db, id: SessionId): Db
    requires id in db.sessions
  {
    var live := MirrorOf(db, db.sessions[id].room);
    if live != [] then SaveTranscript(db, id, live) else db
  }

  const TIMED_OUT: string := "Session timed out due to inactivity."

  predicate Stale(s: Session, cutoff: int) {
    s.status == InProgress && s.createdAt < cutoff
  }

  function FailStale(db: Db, cutoff: int): Db {
    db.(sessions := map id | id in db.sessions ::
          if Stale(db.sessions[id], cutoff)
          then db.sessions[id].(status := Failed, reason := Some(TIMED_OUT)) else db.sessions[id])
  }

  function MarkFailed(db: Db, id: SessionId, why: string): Db {
    if id in db.sessions
    then db.(sessions := db.sessions[id := db.sessions[id].(status := Failed, reason := Some(why))]) else db
  }

  predicate Reported(db: Db, id: SessionId) {
    exists r | r in db.reports :: db.reports[r].session == id
  }

  /** Insert and commit; the unique session key refuses a second report. */
  function SaveReport(db: Db, r: ReportId, id: SessionId, content: string): (Db, bool) {
    if r in db.reports || Reported(db, id) then (db, false)
    else (db.(reports := db.reports[r := Report(id, content)]), true)
  }

  // ---------- the same, as performed on the tables ----------

  class InterviewStore {
    var sessions: map<SessionId, Session>
    var transcripts: map<SessionId, seq<LoggedTurn>>
    var reports: map<ReportId, Report>
    var mirror: map<string, seq<LoggedTurn>>

    function Contents(): Db
      reads this
    {
      Db(sessions, transcripts, reports, mirror)
    }

    method CreateActiveSession(user: UserId, id: SessionId, now: int) returns (created: bool)
      modifies this`sessions
      ensures (Contents(), created) == CreateSession(old(Contents()), user, id, now)
    {
      if id in sessions || HasActive(sessions, user) || RoomTaken(sessions, RoomName(id)) {
        return false;
      }
      sessions := sessions[id := Session(user, RoomName(id), InProgress, None, now)];
      created := true;
    }

    /** The explicit sync of `end_session` and of the transcript endpoint. */
    method Sync(id: SessionId, mirrorUp: bool)
      requires id in sessions
      modifies this`transcripts
      ensures Contents() == SyncTranscript(old(Contents()), id, mirrorUp)
    {
      if id !in transcripts || transcripts[id] == [] {
        if mirrorUp {
          var live := MirrorOf(Contents(), sessions[id].room);
          if live != [] {
            transcripts := transcripts[id := live];
          }
        }
      }
    }

    method End(caller: UserId, id: SessionId, mirrorUp: bool) returns (outcome: EndOutcome)
      modifies this`sessions, this`transcripts
      ensures (Contents(), outcome) == EndSession(old(Contents()), caller, id, mirrorUp)
    {
      if id !in sessions {
        return NotFound;
      }
      if sessions[id].user != caller {
        return Forbidden;
      }
      if sessions[id].status != InProgress {
        return NotActive;
      }
      sessions := sessions[id := sessions[id].(status := Completed)];
      Sync(id, mirrorUp);
      outcome := Ended;
    }

    /** The transcript endpoint: sync, then hand out what is stored. */
    method GetTranscript(caller: UserId, id: SessionId, mirrorUp: bool) returns (reply: TranscriptReply)
      modifies this`transcripts
      ensures (Contents(), reply) == ReadTranscript(old(Contents()), caller, id, mirrorUp)
    {
      if id !in sessions {
        return NoSession;
      }
      if sessions[id].user != caller {
        return NotYours;
      }
      Sync(id, mirrorUp);
      if id !in transcripts || transcripts[id] == [] {
        return NotReady;
      }
      reply := Turns(transcripts[id]);
    }

    method OnExit(id: SessionId, fromHistory: seq<LoggedTurn>, mirrorUp: bool, writable: bool)
      requires id in sessions
      modifies this`transcripts
      ensures Contents() == AgentExit(old(Contents()), id, fromHistory, mirrorUp, writable)
    {
      var turns := fromHistory;
      if turns == [] && mirrorUp {
        turns := MirrorOf(Contents(), sessions[id].room);
      }
      if turns != [] && writable {
        transcripts := transcripts[id := turns];
      }
    }

    /** One reconciled session; `recovered` says which of the two counters goes up. */
    method RecoverFromMirror(id: SessionId) returns (recovered: bool)
      requires id in sessions
      modifies this`transcripts
      ensures Contents() == RecoverTranscript(old(Contents()), id)
      ensures recovered <==> MirrorOf(old(Contents()), sessions[id].room) != []
    {
      var turns := MirrorOf(Contents(), sessions[id].room);
      if turns == [] {
        return false;
      }
      transcripts := transcripts[id := turns];
      recovered := true;
    }

    /** Close out every session that has been in progress since before the cutoff. */
    method FailStaleSessions(cutoff: int) returns (failed: nat)
      modifies this`sessions
      ensures Contents() == FailStale(old(Contents()), cutoff)
      ensures failed == |set id | id in old(sessions) && Stale(old(sessions)[id], cutoff)|
    {
      var stale := set id | id in sessions && Stale(sessions[id], cutoff);
      var todo := stale;
      while todo != {}
        invariant todo <= stale && sessions.Keys == old(sessions).Keys
        invariant forall id | id in sessions ::
                    sessions[id] == if id in stale - todo
                                    then old(sessions)[id].(status := Failed, reason := Some(TIMED_OUT))
                                    else old(sessions)[id]
        decreases todo
      {
        var id :| id in todo;
        sessions := sessions[id := sessions[id].(status := Failed, reason := Some(TIMED_OUT))];
        todo := todo - {id};
      }
      failed := |stale|;
      ghost var want := FailStale(old(Contents()), cutoff).sessions;
      assert sessions.Keys == want.Keys;
      assert forall id | id in sessions :: sessions[id] == want[id];
    }

    method MarkSessionFailed(id: SessionId, why: string)
      modifies this`sessions
      ensures Contents() == MarkFailed(old(Contents()), id, why)
    {
      if id in sessions {
        sessions := sessions[id := sessions[id].(status := Failed, reason := Some(why))];
      }
    }

    method InsertReport(r: ReportId, id: SessionId, content: string) returns (committed: bool)
      modifies this`reports
      ensures (Contents(), committed) == SaveReport(old(Contents()), r, id, content)
    {
      if r in reports || Reported(Contents(), id) {
        return false;
      }
      reports := reports[r := Report(id, content)];
      committed := true;
    }
  }
}
