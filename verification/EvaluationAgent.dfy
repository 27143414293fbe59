/** The loops of the evaluation agent, tied to the functions of Pairing and PairingResults. */
module EvaluationAgent {
  import opened Text
  import opened Matching
  import opened Pairing
  import opened PairingResults

  /** What the scoring prompt is built from, one entry a question. */
  datatype Entry = Entry(question: string, category: string, difficulty: string, answer: string)

  /** The numbers of the agent's turns among the first `n`. */
  function AgentTurns(turns: seq<Turn>, n: nat): (r: seq<nat>)
    requires n <= |turns|
    ensures forall i :: i in r <==> i < n && IsAgentTurn(turns, i)
    ensures forall a, b | 0 <= a < b < |r| :: r[a] < r[b]
  {
    if n == 0 then []
    else if turns[n - 1].speaker == "agent" then
      var earlier := AgentTurns(turns, n - 1);
      assert forall a | 0 <= a < |earlier| :: earlier[a] in earlier;
      earlier + [n - 1]
    else AgentTurns(turns, n - 1)
  }

  /** The first agent turn at or after `from` whose text is taken for question `k`. */
  method FindQuestion(r: Recogniser, qs: seq<Question>, turns: seq<Turn>, k: nat, from: nat) returns (idx: nat)
    requires k < |qs| && from <= |turns| && Strip(r.space, qs[k].question) != ""
    ensures idx == FirstAsking(Matched(r, qs, turns), turns, k, from)
  {
    ghost var asks := Matched(r, qs, turns);
    var text := Strip(r.space, qs[k].question);
    idx := from;
    while idx < |turns| && !(turns[idx].speaker == "agent" && r.takes(text, turns[idx].text))
      invariant from <= idx <= |turns|
      invariant FirstAsking(asks, turns, k, from) == FirstAsking(asks, turns, k, idx)
    {
      assert !Asks(asks, turns, k, idx);
      idx := idx + 1;
    }
  }

  /** The greedy pass: match each question at or after the turn behind the previous match. */
  method GreedyPass(r: Recogniser, qs: seq<Question>, turns: seq<Turn>) returns (positions: map<nat, nat>)
    requires forall i | 0 <= i < |qs| :: qs[i].id == i
    ensures positions == FirstPass(Matched(r, qs, turns), turns, |qs|).positions
  {
    ghost var asks := Matched(r, qs, turns);
    positions := map[];
    var searchFrom: nat := 0;
    for k := 0 to |qs|
      invariant FirstPass(asks, turns, k) == Cursor(positions, searchFrom)
    {
      if Strip(r.space, qs[k].question) != "" {
        var idx := FindQuestion(r, qs, turns, k, searchFrom);
        if idx < |turns| {
          positions := positions[qs[k].id := idx];
          searchFrom := idx + 1;
        }
      } else {
        BlankIsNeverAsked(r, qs, turns, k, searchFrom);
      }
    }
  }

  lemma {:induction false} BlankIsNeverAsked(r: Recogniser, qs: seq<Question>, turns: seq<Turn>, k: nat, from: nat)
    requires k < |qs| && from <= |turns| && Strip(r.space, qs[k].question) == ""
    ensures FirstAsking(Matched(r, qs, turns), turns, k, from) == |turns|
    decreases |turns| - from
  {
    if from < |turns| {
      assert !Asks(Matched(r, qs, turns), turns, k, from);
      BlankIsNeverAsked(r, qs, turns, k, from + 1);
    }
  }

  /** The fallback pass: give each question left over the first agent turn still free behind its predecessor. */
  method FallbackPass(qs: seq<Question>, turns: seq<Turn>, first: map<nat, nat>) returns (positions: map<nat, nat>)
    requires forall i | 0 <= i < |qs| :: qs[i].id == i
    ensures positions == SecondPass(turns, first, |qs|).positions
  {
    positions := first;
    var agents := AgentTurns(turns, |turns|);
    if agents != [] {
      var lastMatched: int := -1;
      for k := 0 to |qs|
        invariant SecondPass(turns, first, k) == Fallback(positions, lastMatched)
      {
        var qid := qs[k].id;
        if qid in positions {
          lastMatched := positions[qid];
        } else {
          var a := 0;
          while a < |agents| && !(agents[a] > lastMatched && agents[a] !in positions.Values)
            invariant a <= |agents|
            invariant forall b | 0 <= b < a :: !Available(turns, positions, lastMatched, agents[b])
          {
            a := a + 1;
          }
          FirstFreeAgent(turns, positions, lastMatched, agents, a);
          if a < |agents| {
            positions := positions[qid := agents[a]];
            lastMatched := agents[a];
          }
        }
      }
    } else {
      SilentFallback(turns, first, |qs|);
    }
  }

  /** Scanning the list of agent turns finds the first available turn of the log. */
  lemma FirstFreeAgent(turns: seq<Turn>, positions: map<nat, nat>, last: int, agents: seq<nat>, a: nat)
    requires agents == AgentTurns(turns, |turns|) && a <= |agents|
    requires forall b | 0 <= b < a :: !Available(turns, positions, last, agents[b])
    requires a < |agents| ==> Available(turns, positions, last, agents[a])
    ensures FirstAvailable(turns, positions, last, 0) == if a < |agents| then agents[a] else |turns|
  {
    var i := FirstAvailable(turns, positions, last, 0);
    if i < |turns| {
      assert i in agents;
      var b :| 0 <= b < |agents| && agents[b] == i;
      assert b >= a;
    }
    if a < |agents| {
      assert agents[a] in agents;
    }
  }

  lemma {:induction false} SilentFallback(turns: seq<Turn>, first: map<nat, nat>, k: nat)
    requires AgentTurns(turns, |turns|) == []
    ensures SecondPass(turns, first, k).positions == first
  {
    if k > 0 {
      SilentFallback(turns, first, k - 1);
      var f := SecondPass(turns, first, k - 1);
      var i := FirstAvailable(turns, f.positions, f.lastMatched, 0);
      NobodyAvailable(turns, f.positions, f.lastMatched);
    }
  }

  lemma NobodyAvailable(turns: seq<Turn>, positions: map<nat, nat>, last: int)
    requires AgentTurns(turns, |turns|) == []
    ensures FirstAvailable(turns, positions, last, 0) == |turns|
  {
    FirstFreeAgent(turns, positions, last, [], 0);
  }

  /** One answer for each paired question, in the order of their turns. */
  method CollectAnswers(space: char -> bool, turns: seq<Turn>, positions: map<nat, nat>, ids: seq<nat>)
    returns (answers: seq<Answer>)
    requires Placed(turns, positions, ids)
    ensures answers == WindowAnswers(space, turns, positions, ids)
  {
    answers := [];
    for pos := 0 to |ids|
      invariant answers == WindowAnswers(space, turns, positions, ids)[..pos]
    {
      assert ids[pos] in ids && (pos + 1 < |ids| ==> ids[pos + 1] in ids);
      var start := positions[ids[pos]] + 1;
      var end := if pos + 1 < |ids| then positions[ids[pos + 1]] else |turns|;
      answers := answers + [Answer(ids[pos], Spoken(space, turns[start..end]))];
    }
  }

  /** The reconstruction: both passes, then the windows, or the whole log if nothing was paired. */
  method PairQuestionsAndAnswers(r: Recogniser, raw: seq<Prepared>, turns: seq<Turn>)
    returns (qs: seq<Question>, answers: seq<Answer>)
    ensures qs == IndexQuestions(raw)
    ensures answers == PairedAnswers(r.space, Matched(r, qs, turns), turns, |raw|)
  {
    qs := IndexQuestions(raw);
    var first := GreedyPass(r, qs, turns);
    var positions := FallbackPass(qs, turns, first);
    assert positions == Positions(Matched(r, qs, turns), turns, |qs|);
    var orderedIds := OrderedIds(positions, |qs|);
    OrderIsPlaced(Matched(r, qs, turns), turns, |qs|);
    if orderedIds != [] {
      answers := CollectAnswers(r.space, turns, positions, orderedIds);
    } else {
      var all := Spoken(r.space, turns);
      answers := [];
      for i := 0 to |qs|
        invariant answers == WholeLogAnswers(r.space, turns, |qs|)[..i]
      {
        answers := answers + [Answer(qs[i].id, if qs[i].id == 0 then all else "")];
      }
    }
  }

  /** The join: the first answer recorded for each question, or the empty string. */
  method JoinAnswers(qs: seq<Question>, answers: seq<Answer>) returns (data: seq<Entry>)
    ensures |data| == |qs|
    ensures forall i | 0 <= i < |qs| ::
              data[i] == Entry(qs[i].question, qs[i].category, qs[i].difficulty, AnswerFor(answers, qs[i].id))
  {
    data := [];
    for i := 0 to |qs|
      invariant |data| == i
      invariant forall j | 0 <= j < i ::
                  data[j] == Entry(qs[j].question, qs[j].category, qs[j].difficulty, AnswerFor(answers, qs[j].id))
    {
      var a := 0;
      while a < |answers| && answers[a].questionId != qs[i].id
        invariant a <= |answers|
        invariant AnswerFor(answers, qs[i].id) == AnswerFor(answers[a..], qs[i].id)
      {
        assert answers[a..][1..] == answers[a + 1..];
        a := a + 1;
      }
      var answer := if a < |answers| then answers[a].answer else "";
      data := data + [Entry(qs[i].question, qs[i].category, qs[i].difficulty, answer)];
    }
  }

  /**
    From the turn log to the scoring prompt: every question is scored on the candidate's speech
    between its own turn and the next claimed one, except that question 0 gets everything when the
    agent never spoke.
  */
  method ScoringInput(r: Recogniser, raw: seq<Prepared>, turns: seq<Turn>) returns (data: seq<Entry>)
    ensures |data| == |raw|
    ensures forall i | 0 <= i < |raw| ::
              data[i].question == raw[i].question.GetOr("") &&
              data[i].category == raw[i].category.GetOr("General") && data[i].difficulty == raw[i].difficulty.GetOr("medium") &&
              data[i].answer ==
                if forall t | 0 <= t < |turns| :: turns[t].speaker != "agent"
                then (if i == 0 then Spoken(r.space, turns) else "")
                else OwnAnswer(r.space, turns, Positions(Matched(r, IndexQuestions(raw), turns), turns, |raw|), i)
  {
    var qs, answers := PairQuestionsAndAnswers(r, raw, turns);
    data := JoinAnswers(qs, answers);
    if |raw| > 0 {
      JoinGivesOwnAnswers(r.space, Matched(r, qs, turns), turns, |raw|);
    }
  }

  lemma JoinGivesOwnAnswers(space: char -> bool, asks: Asking, turns: seq<Turn>, n: nat)
    requires n > 0
    ensures forall i: nat | i < n ::
              AnswerFor(PairedAnswers(space, asks, turns, n), i) ==
                if forall t | 0 <= t < |turns| :: turns[t].speaker != "agent"
                then (if i == 0 then Spoken(space, turns) else "")
                else OwnAnswer(space, turns, Positions(asks, turns, n), i)
  {
    NothingPairedIffAgentSilent(asks, turns, n);
    forall i: nat | i < n
      ensures AnswerFor(PairedAnswers(space, asks, turns, n), i) ==
                if forall t | 0 <= t < |turns| :: turns[t].speaker != "agent"
                then (if i == 0 then Spoken(space, turns) else "")
                else OwnAnswer(space, turns, Positions(asks, turns, n), i)
    {
      if forall t | 0 <= t < |turns| :: turns[t].speaker != "agent" {
        WholeLogWhenAgentSilent(space, asks, turns, n);
        var answers := PairedAnswers(space, asks, turns, n);
        assert forall j | 0 <= j < n :: answers[j].questionId == j;
        AnswerForUnique(answers, i);
      } else {
        EachQuestionGetsItsOwnAnswer(space, asks, turns, n, i);
      }
    }
  }
}
