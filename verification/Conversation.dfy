/** What a chat history says in the terms of an interview: who spoke what, in which order, and when. */
module Conversation {
  import opened Wrappers
  import opened Text
  import opened SessionStore
  import opened Pairing
  import opened PairingRules
  import opened Interview

  // ---------- turns and messages ----------

  /**
    Message by message: a user message that is not blank is logged as a turn of the candidate, an
    assistant message as a turn of the agent, with its stripped text and its own time or else the
    current one; nothing else is logged.
  */
  lemma TurnsMessageByMessage(space: char -> bool, history: seq<Message>, now: int, k: nat)
    requires k < |history|
    ensures BuildTurns(space, history[..0], now) == [] && history[..|history|] == history
    ensures var m, text := history[k], Strip(space, history[k].text);
            var time := if m.createdAt != 0 then m.createdAt else now;
            BuildTurns(space, history[..k + 1], now)
            == BuildTurns(space, history[..k], now)
               + if text == "" then []
                 else if m.role == "user" then [LoggedTurn("candidate", text, time)]
                 else if m.role == "assistant" then [LoggedTurn("agent", text, time)]
                 else []
  {
    assert history[..k + 1] == history[..k] + [history[k]];
    assert history[..k + 1][..k] == history[..k];
  }

  /** The stripped texts of the messages of a role that are not blank. */
  function RoleTexts(space: char -> bool, history: seq<Message>, role: string): seq<string> {
    if history == [] then []
    else
      var last := history[|history| - 1];
      RoleTexts(space, history[..|history| - 1], role)
      + if last.role == role && Strip(space, last.text) != "" then [Strip(space, last.text)] else []
  }

  /** The texts of a speaker. */
  function SpeakerTexts(turns: seq<LoggedTurn>, speaker: string): seq<string> {
    if turns == [] then []
    else
      var last := turns[|turns| - 1];
      SpeakerTexts(turns[..|turns| - 1], speaker) + if last.speaker == speaker then [last.text] else []
  }

  lemma SpeakerTextsMore(turns: seq<LoggedTurn>, more: Option<LoggedTurn>, speaker: string)
    ensures SpeakerTexts(turns + if more.Some? then [more.value] else [], speaker)
         == SpeakerTexts(turns, speaker) + if more.Some? && more.value.speaker == speaker then [more.value.text] else []
  {
    if more.Some? {
      assert (turns + [more.value])[..|turns|] == turns;
    } else {
      assert turns + [] == turns && SpeakerTexts(turns, speaker) + [] == SpeakerTexts(turns, speaker);
    }
  }

  /** The candidate's turns are the user's messages, the agent's turns the assistant's, and there are no others. */
  lemma {:induction false} SpeakersAreRoles(space: char -> bool, history: seq<Message>, now: int)
    ensures var turns := BuildTurns(space, history, now);
            && SpeakerTexts(turns, "candidate") == RoleTexts(space, history, "user")
            && SpeakerTexts(turns, "agent") == RoleTexts(space, history, "assistant")
            && |turns| == |RoleTexts(space, history, "user")| + |RoleTexts(space, history, "assistant")|
    decreases |history|
  {
    if history != [] {
      var before, last := history[..|history| - 1], history[|history| - 1];
      SpeakersAreRoles(space, before, now);
      SpeakerTextsMore(BuildTurns(space, before, now), BuildTurn(space, last, now), "candidate");
      SpeakerTextsMore(BuildTurns(space, before, now), BuildTurn(space, last, now), "agent");
    }
  }

  lemma {:induction false} BuildTurnsSplits(space: char -> bool, a: seq<Message>, b: seq<Message>, now: int)
    ensures BuildTurns(space, a + b, now) == BuildTurns(space, a, now) + BuildTurns(space, b, now)
    decreases |b|
  {
    if b == [] {
      assert a + b == a;
    } else {
      var rest := b[..|b| - 1];
      assert (a + b)[..|a + b| - 1] == a + rest;
      BuildTurnsSplits(space, a, rest, now);
    }
  }

  // ---------- as the reconstruction reads them ----------

  /** A logged turn as the reconstruction reads it. */
  function Plain(turns: seq<LoggedTurn>): (r: seq<Turn>)
    ensures |r| == |turns| && forall i | 0 <= i < |turns| :: r[i] == Turn(turns[i].speaker, turns[i].text)
  {
    if turns == [] then []
    else Plain(turns[..|turns| - 1]) + [Turn(turns[|turns| - 1].speaker, turns[|turns| - 1].text)]
  }

  function LogOfHistory(space: char -> bool, history: seq<Message>): seq<Turn> {
    Plain(BuildTurns(space, history, 0))
  }

  lemma LogOfHistorySplits(space: char -> bool, a: seq<Message>, b: seq<Message>)
    ensures LogOfHistory(space, a + b) == LogOfHistory(space, a) + LogOfHistory(space, b)
  {
    BuildTurnsSplits(space, a, b, 0);
  }

  /** The candidate's texts in the log are the user's messages. */
  lemma {:induction false} CandidateTextsAreUserTexts(space: char -> bool, history: seq<Message>)
    ensures CandidateTexts(LogOfHistory(space, history)) == RoleTexts(space, history, "user")
    decreases |history|
  {
    if history != [] {
      var before, last := history[..|history| - 1], history[|history| - 1];
      assert history == before + [last];
      CandidateTextsAreUserTexts(space, before);
      LogOfHistorySplits(space, before, [last]);
      OneMessage(space, last);
      PairingResults.CandidateTextsSplit(LogOfHistory(space, before), LogOfHistory(space, [last]));
    }
  }

  lemma OneMessage(space: char -> bool, m: Message)
    ensures CandidateTexts(LogOfHistory(space, [m])) == if m.role == "user" && Strip(space, m.text) != "" then [Strip(space, m.text)] else []
  {
    assert [m][..0] == [];
    var turn := BuildTurn(space, m, 0);
    assert BuildTurns(space, [], 0) == [];
    assert BuildTurns(space, [m], 0) == if turn.Some? then [turn.value] else [];
    if turn.Some? {
      var log := LogOfHistory(space, [m]);
      assert log == [Turn(turn.value.speaker, turn.value.text)] && log[1..] == [];
    }
  }

  lemma StrippedIsStripped(space: char -> bool, s: string)
    ensures Strip(space, Strip(space, s)) == Strip(space, s) && Trimmed(space, Strip(space, s))
  {
    var core := Strip(space, s);
    var _, _ := StripDrops(space, s);
    StripUndoesPadding(space, "", core, "");
    assert "" + core + "" == core;
  }

  lemma {:induction false} RoleTextsAreTidy(space: char -> bool, history: seq<Message>, role: string, text: string)
    requires text in RoleTexts(space, history, role)
    ensures text != "" && Trimmed(space, text) && Strip(space, text) == text
    decreases |history|
  {
    var before, last := history[..|history| - 1], history[|history| - 1];
    if text in RoleTexts(space, before, role) {
      RoleTextsAreTidy(space, before, role, text);
    } else {
      StrippedIsStripped(space, last.text);
    }
  }

  /** What the candidate says in a stretch of the conversation: the user's messages, stripped, with a blank between neighbours. */
  lemma SpokenIsWhatTheUserWrote(space: char -> bool, history: seq<Message>)
    ensures Spoken(space, LogOfHistory(space, history)) == Join(" ", RoleTexts(space, history, "user"))
    ensures ReadBack.Audible(space, LogOfHistory(space, history))
  {
    var log, texts := LogOfHistory(space, history), RoleTexts(space, history, "user");
    CandidateTextsAreUserTexts(space, history);
    forall s | s in texts
      ensures s != "" && Trimmed(space, s) && Strip(space, s) == s
    {
      RoleTextsAreTidy(space, history, "user", s);
    }
    if texts != [] {
      JoinIsTrimmed(space, texts);
    }
    forall u | 0 <= u < |log| && ReadBack.Speaks(log, u)
      ensures Strip(space, log[u].text) != ""
    {
      ReadBack.CandidateTextsAre(log, log[u].text);
    }
  }

  // ---------- an interview as a conversation ----------

  /** A message of the assistant that asks a prepared question, and the messages that follow it. */
  datatype Talk = Talk(question: string, asking: Message, replies: seq<Message>)

  function Conversed(talks: seq<Talk>): seq<Message> {
    if talks == [] then [] else [talks[0].asking] + talks[0].replies + Conversed(talks[1..])
  }

  function ExchangeOf(space: char -> bool, t: Talk): Exchange {
    Exchange(t.question, Strip(space, t.asking.text), LogOfHistory(space, t.replies))
  }

  function Exchanges(space: char -> bool, talks: seq<Talk>): (es: seq<Exchange>)
    ensures |es| == |talks| && forall i | 0 <= i < |talks| :: es[i] == ExchangeOf(space, talks[i])
  {
    if talks == [] then [] else [ExchangeOf(space, talks[0])] + Exchanges(space, talks[1..])
  }

  /** The questions are asked by the assistant. */
  ghost predicate AskedByAssistant(space: char -> bool, talks: seq<Talk>) {
    forall i | 0 <= i < |talks| :: talks[i].asking.role == "assistant" && Strip(space, talks[i].asking.text) != ""
  }

  lemma AskingIsUtterance(space: char -> bool, t: Talk)
    requires t.asking.role == "assistant" && Strip(space, t.asking.text) != ""
    ensures LogOfHistory(space, [t.asking]) == [Utterance(ExchangeOf(space, t))]
  {
    assert [t.asking][..0] == [] && BuildTurns(space, [], 0) == [];
    assert BuildTurns(space, [t.asking], 0) == [BuildTurn(space, t.asking, 0).value];
  }

  lemma {:induction false} ConversationIsLogged(space: char -> bool, talks: seq<Talk>)
    requires AskedByAssistant(space, talks)
    ensures LogOfHistory(space, Conversed(talks)) == LogOf(Exchanges(space, talks))
    decreases |talks|
  {
    if talks == [] {
      assert BuildTurns(space, [], 0) == [];
    } else {
      var t := talks[0];
      ConversationIsLogged(space, talks[1..]);
      AskingIsUtterance(space, t);
      LogOfHistorySplits(space, [t.asking], t.replies);
      LogOfHistorySplits(space, [t.asking] + t.replies, Conversed(talks[1..]));
      assert Exchanges(space, talks)[1..] == Exchanges(space, talks[1..]);
    }
  }

  /** The log of an interview is the log of its messages. */
  lemma InterviewIsLogged(space: char -> bool, opening: seq<Message>, talks: seq<Talk>)
    requires AskedByAssistant(space, talks)
    ensures LogOfHistory(space, opening + Conversed(talks)) == LogOfHistory(space, opening) + LogOf(Exchanges(space, talks))
  {
    LogOfHistorySplits(space, opening, Conversed(talks));
    ConversationIsLogged(space, talks);
  }
}
