/**
  The live side of an interview: questions are served one by one, verbatim, and spoken by the agent;
  the log of such an interview is read back by the reconstruction, exactly as far as it is complete.
*/
module Interview {
  import opened Text
  import opened Matching
  import opened Pairing
  import opened PairingResults
  import opened ReadBack
  import opened PairingRules

  const NO_MORE_QUESTIONS: string := "There are no more prepared questions. Thank the candidate and wrap up the interview."

  /** The interviewer's walk over the prepared questions. */
  class InterviewerAgent {
    const questions: seq<string>
    var nextIndex: nat
    ghost var served: seq<string>  // the question texts handed out so far

    ghost predicate Valid()
      reads this
    {
      nextIndex <= |questions| && served == questions[..nextIndex]
    }

    constructor (questions: seq<string>)
      ensures Valid() && this.questions == questions && nextIndex == 0 && served == []
    {
      this.questions := questions;
      nextIndex := 0;
      served := [];
    }

    /** The next question exactly as prepared, or the closing message once all have been served. */
    method GetNextQuestion() returns (text: string)
      requires Valid()
      modifies this
      ensures Valid()
      ensures old(nextIndex) < |questions| ==>
                text == questions[old(nextIndex)] && served == old(served) + [text] && nextIndex == old(nextIndex) + 1
      ensures old(nextIndex) >= |questions| ==>
                text == NO_MORE_QUESTIONS && served == old(served) == questions && nextIndex == old(nextIndex)
    {
      if nextIndex >= |questions| {
        return NO_MORE_QUESTIONS;
      }
      text := questions[nextIndex];
      nextIndex := nextIndex + 1;
      served := served + [text];
    }
  }

  /** A prepared question, the utterance of the agent that asks it, and the turns that follow. */
  datatype Exchange = Exchange(question: string, utterance: string, replies: seq<Turn>)

  function Utterance(e: Exchange): Turn {
    Turn("agent", e.utterance)
  }

  function LogOf(exchanges: seq<Exchange>): seq<Turn> {
    if exchanges == [] then []
    else [Utterance(exchanges[0])] + exchanges[0].replies + LogOf(exchanges[1..])
  }

  /** The number of the turn in which question `i` is spoken. */
  function AskedAt(opening: seq<Turn>, exchanges: seq<Exchange>, i: nat): nat
    requires i <= |exchanges|
  {
    if i == 0 then |opening| else AskedAt(opening, exchanges, i - 1) + 1 + |exchanges[i - 1].replies|
  }

  lemma RestOfTail(log: seq<Turn>, at: nat, head: seq<Turn>, rest: seq<Turn>)
    requires at <= |log| && log[at..] == head + rest
    ensures at + |head| <= |log| && log[at + |head|..] == rest
  {
    assert log[at..][|head|..] == rest;
  }

  lemma {:induction false} LogFrom(opening: seq<Turn>, exchanges: seq<Exchange>, i: nat)
    requires i <= |exchanges|
    ensures var log := opening + LogOf(exchanges);
            AskedAt(opening, exchanges, i) <= |log| && log[AskedAt(opening, exchanges, i)..] == LogOf(exchanges[i..])
  {
    var log := opening + LogOf(exchanges);
    if i == 0 {
      assert exchanges[0..] == exchanges;
    } else {
      LogFrom(opening, exchanges, i - 1);
      var rest, at := exchanges[i - 1..], AskedAt(opening, exchanges, i - 1);
      assert rest[1..] == exchanges[i..] && rest[0] == exchanges[i - 1];
      var head := [Utterance(rest[0])] + rest[0].replies;
      assert log[at..] == head + LogOf(exchanges[i..]);
      RestOfTail(log, at, head, LogOf(exchanges[i..]));
    }
  }

  /** The first turn behind exchange `i`. */
  function EndOf(log: seq<Turn>, asked: seq<nat>, i: nat): nat
    requires i < |asked|
  {
    if i + 1 < |asked| then asked[i + 1] else |log|
  }

  ghost predicate ExchangeAt(log: seq<Turn>, asked: seq<nat>, e: Exchange, i: nat)
    requires i < |asked|
  {
    asked[i] < EndOf(log, asked, i) <= |log| && log[asked[i]] == Utterance(e)
    && log[asked[i] + 1..EndOf(log, asked, i)] == e.replies
  }

  /** The log is the opening followed by the exchanges, the `i`-th of them starting at turn `asked[i]`. */
  ghost predicate LaidOut(opening: seq<Turn>, exchanges: seq<Exchange>, log: seq<Turn>, asked: seq<nat>) {
    && |asked| == |exchanges|
    && (|asked| > 0 ==> asked[0] <= |log| && log[..asked[0]] == opening)
    && (forall i | 0 <= i < |asked| :: ExchangeAt(log, asked, exchanges[i], i))
    && (forall h, i | 0 <= h < i < |asked| :: asked[h] < asked[i])
  }

  lemma SliceOfTail(log: seq<Turn>, at: nat, i: nat, j: nat)
    requires at <= |log| && i <= j <= |log| - at
    ensures log[at..][i..j] == log[at + i..at + j]
  {
  }

  lemma LogAround(opening: seq<Turn>, exchanges: seq<Exchange>, i: nat)
    requires i < |exchanges|
    ensures var log, at, next := opening + LogOf(exchanges), AskedAt(opening, exchanges, i), AskedAt(opening, exchanges, i + 1);
            && at < next <= |log| && (i + 1 == |exchanges| ==> next == |log|)
            && log[at] == Utterance(exchanges[i]) && log[at + 1..next] == exchanges[i].replies
  {
    var log, at, e := opening + LogOf(exchanges), AskedAt(opening, exchanges, i), exchanges[i];
    LogFrom(opening, exchanges, i);
    LogFrom(opening, exchanges, i + 1);
    var rest := exchanges[i..];
    assert rest[0] == e && rest[1..] == exchanges[i + 1..];
    var tail := log[at..];
    assert tail == [Utterance(e)] + e.replies + LogOf(rest[1..]);
    assert log[at] == tail[0];
    assert tail[1..1 + |e.replies|] == e.replies;
    SliceOfTail(log, at, 1, 1 + |e.replies|);
    assert i + 1 == |exchanges| ==> LogOf(rest[1..]) == [];
  }

  lemma {:induction false} AskedAtIncreases(opening: seq<Turn>, exchanges: seq<Exchange>, h: nat, i: nat)
    requires h < i <= |exchanges|
    ensures AskedAt(opening, exchanges, h) < AskedAt(opening, exchanges, i)
    decreases i
  {
    if h + 1 < i {
      AskedAtIncreases(opening, exchanges, h, i - 1);
    }
  }

  lemma LogIsLaidOut(opening: seq<Turn>, exchanges: seq<Exchange>) returns (asked: seq<nat>)
    ensures LaidOut(opening, exchanges, opening + LogOf(exchanges), asked)
  {
    var log := opening + LogOf(exchanges);
    asked := seq(|exchanges|, k requires 0 <= k < |exchanges| => AskedAt(opening, exchanges, k));
    forall i | 0 <= i < |asked|
      ensures ExchangeAt(log, asked, exchanges[i], i)
    {
      LogAround(opening, exchanges, i);
    }
    forall h, i | 0 <= h < i < |asked|
      ensures asked[h] < asked[i]
    {
      AskedAtIncreases(opening, exchanges, h, i);
    }
  }

  /**
    The interview as the reconstruction sees it: the first prepared questions, all of them or as many
    as there was time for, are recognised where they are spoken, in order, and before one comes up the
    agent says nothing that is taken for it.
  */
  ghost predicate RecognisedInOrder(r: Recogniser, raw: seq<Prepared>, opening: seq<Turn>, exchanges: seq<Exchange>) {
    && |exchanges| <= |raw|
    && (forall i | 0 <= i < |exchanges| ::
          exchanges[i].question == raw[i].question.GetOr("") && Recognised(r, exchanges[i]))
    && (|exchanges| > 0 ==> NeverTaken(r, exchanges[0].question, opening))
    && (forall h, i | 0 <= h < i < |exchanges| && h + 1 == i :: NeverTaken(r, exchanges[i].question, exchanges[h].replies))
  }

  ghost predicate Recognised(r: Recogniser, e: Exchange) {
    Strip(r.space, e.question) != "" && r.takes(Strip(r.space, e.question), Utterance(e).text)
  }

  /** No agent turn among `turns` is taken for `question`. */
  ghost predicate NeverTaken(r: Recogniser, question: string, turns: seq<Turn>) {
    forall j | 0 <= j < |turns| :: turns[j].speaker == "agent" ==> !r.takes(Strip(r.space, question), turns[j].text)
  }

  lemma AskedAtUtterance(r: Recogniser, raw: seq<Prepared>, exchanges: seq<Exchange>, log: seq<Turn>, asked: seq<nat>, i: nat)
    requires |asked| == |exchanges| <= |raw| && i < |asked| && ExchangeAt(log, asked, exchanges[i], i)
    requires exchanges[i].question == raw[i].question.GetOr("") && Recognised(r, exchanges[i])
    ensures Asks(Matched(r, IndexQuestions(raw), log), log, i, asked[i])
  {
  }

  lemma NotAskedAmong(r: Recogniser, raw: seq<Prepared>, log: seq<Turn>, i: nat, from: nat, to: nat, j: nat)
    requires i < |raw| && from <= j < to <= |log| && NeverTaken(r, raw[i].question.GetOr(""), log[from..to])
    ensures !Asks(Matched(r, IndexQuestions(raw), log), log, i, j)
  {
    assert log[from..to][j - from] == log[j];
  }

  lemma NotAskedEarlier(r: Recogniser, raw: seq<Prepared>, opening: seq<Turn>, exchanges: seq<Exchange>,
                        log: seq<Turn>, asked: seq<nat>)
    requires RecognisedInOrder(r, raw, opening, exchanges) && LaidOut(opening, exchanges, log, asked)
    ensures NotAskedBefore(Matched(r, IndexQuestions(raw), log), log, asked)
  {
    forall j: nat | |asked| > 0 && j < asked[0]
      ensures !Asks(Matched(r, IndexQuestions(raw), log), log, 0, j)
    {
      NotAskedAmong(r, raw, log, 0, 0, asked[0], j);
    }
    forall h: nat, i: nat, j: nat | h + 1 == i < |asked| && asked[h] < j < asked[i]
      ensures !Asks(Matched(r, IndexQuestions(raw), log), log, i, j)
    {
      assert ExchangeAt(log, asked, exchanges[h], h);
      NotAskedAmong(r, raw, log, i, asked[h] + 1, asked[i], j);
    }
  }

  lemma RecognisedIsAskedInOrder(r: Recogniser, raw: seq<Prepared>, opening: seq<Turn>, exchanges: seq<Exchange>,
                                 log: seq<Turn>, asked: seq<nat>)
    requires RecognisedInOrder(r, raw, opening, exchanges) && LaidOut(opening, exchanges, log, asked)
    ensures AskedInOrder(Matched(r, IndexQuestions(raw), log), log, asked)
  {
    var asks := Matched(r, IndexQuestions(raw), log);
    forall k | 0 <= k < |asked|
      ensures Asks(asks, log, k, asked[k])
    {
      AskedAtUtterance(r, raw, exchanges, log, asked, k);
    }
    NotAskedEarlier(r, raw, opening, exchanges, log, asked);
  }

  /** The answer question `i` is scored on. */
  function ScoredOn(r: Recogniser, raw: seq<Prepared>, log: seq<Turn>, i: nat): string {
    AnswerFor(PairedAnswers(r.space, Matched(r, IndexQuestions(raw), log), log, |raw|), i)
  }

  /**
    How many of the replies count as the answer: all of them, unless a question never came up; then
    those before the turn that the next question takes.
  */
  function Counted(r: Recogniser, raw: seq<Prepared>, exchanges: seq<Exchange>, i: nat): (n: nat)
    requires i < |exchanges|
    ensures n <= |exchanges[i].replies|
  {
    var replies := exchanges[i].replies;
    if i + 1 == |exchanges| < |raw| then TurnTaken(Matched(r, IndexQuestions(raw), replies), replies, i + 1, 0)
    else |replies|
  }

  /** The candidate says nothing behind the replies that count. */
  ghost predicate Undisturbed(r: Recogniser, raw: seq<Prepared>, exchanges: seq<Exchange>, i: nat)
    requires i < |exchanges|
  {
    SilentBehind(exchanges[i].replies, Counted(r, raw, exchanges, i))
  }

  lemma AskedInReplies(r: Recogniser, qs: seq<Question>, log: seq<Turn>, replies: seq<Turn>, q: nat, from: nat, j: nat)
    requires from <= |log| && log[from..] == replies
    ensures Asks(Matched(r, qs, log), log, q, from + j) <==> Asks(Matched(r, qs, replies), replies, q, j)
    ensures IsAgentTurn(log, from + j) <==> IsAgentTurn(replies, j)
  {
    if j < |replies| {
      assert log[from + j] == replies[j];
    }
  }

  /** Which turn a question takes can be read off the replies. */
  lemma TakenInReplies(r: Recogniser, qs: seq<Question>, log: seq<Turn>, replies: seq<Turn>, q: nat, from: nat)
    requires from <= |log| && log[from..] == replies
    ensures TurnTaken(Matched(r, qs, log), log, q, from) == from + TurnTaken(Matched(r, qs, replies), replies, q, 0)
  {
    var inLog, inReplies := FirstAsking(Matched(r, qs, log), log, q, from), FirstAsking(Matched(r, qs, replies), replies, q, 0);
    AskedInReplies(r, qs, log, replies, q, from, inLog - from);
    AskedInReplies(r, qs, log, replies, q, from, inReplies);
    assert inLog == from + inReplies;
    var ofLog, ofReplies := NextAgentTurn(log, from), NextAgentTurn(replies, 0);
    AskedInReplies(r, qs, log, replies, q, from, ofLog - from);
    AskedInReplies(r, qs, log, replies, q, from, ofReplies);
  }

  /**
    If each question asked is recognised where it was spoken, it is scored on exactly the replies that
    count; these are all replies, unless the candidate says something behind a turn that the next
    question takes, and only then if nothing the candidate says is blank.
  */
  lemma {:induction false} RecognisedRoundTrip(r: Recogniser, raw: seq<Prepared>, opening: seq<Turn>, exchanges: seq<Exchange>, i: nat)
    requires RecognisedInOrder(r, raw, opening, exchanges) && i < |exchanges|
    ensures ScoredOn(r, raw, opening + LogOf(exchanges), i) == Spoken(r.space, exchanges[i].replies[..Counted(r, raw, exchanges, i)])
    ensures Undisturbed(r, raw, exchanges, i) ==>
              ScoredOn(r, raw, opening + LogOf(exchanges), i) == Spoken(r.space, exchanges[i].replies)
    ensures Audible(r.space, exchanges[i].replies) ==>
              (ScoredOn(r, raw, opening + LogOf(exchanges), i) == Spoken(r.space, exchanges[i].replies)
               <==> Undisturbed(r, raw, exchanges, i))
  {
    var asked := LogIsLaidOut(opening, exchanges);
    LaidOutRoundTrip(r, raw, opening, exchanges, opening + LogOf(exchanges), asked, i);
    CountedIsWholeIff(r, raw, exchanges, i);
  }

  lemma CountedIsWholeIff(r: Recogniser, raw: seq<Prepared>, exchanges: seq<Exchange>, i: nat)
    requires i < |exchanges|
    ensures var replies, n := exchanges[i].replies, Counted(r, raw, exchanges, i);
            && (Undisturbed(r, raw, exchanges, i) ==> Spoken(r.space, replies[..n]) == Spoken(r.space, replies))
            && (Audible(r.space, replies) ==>
                  (Spoken(r.space, replies[..n]) == Spoken(r.space, replies) <==> Undisturbed(r, raw, exchanges, i)))
  {
    var replies := exchanges[i].replies;
    CutIsWholeIff(r.space, replies, 0, Counted(r, raw, exchanges, i));
    assert replies[0..] == replies;
  }

  lemma {:induction false} LaidOutRoundTrip(r: Recogniser, raw: seq<Prepared>, opening: seq<Turn>, exchanges: seq<Exchange>,
                         log: seq<Turn>, asked: seq<nat>, i: nat)
    requires RecognisedInOrder(r, raw, opening, exchanges) && LaidOut(opening, exchanges, log, asked) && i < |exchanges|
    ensures ScoredOn(r, raw, log, i) == Spoken(r.space, exchanges[i].replies[..Counted(r, raw, exchanges, i)])
  {
    RecognisedIsAskedInOrder(r, raw, opening, exchanges, log, asked);
    ScoredOnAsked(r, raw, log, Matched(r, IndexQuestions(raw), log), asked, i);
    EndsWithTheReplies(r, raw, exchanges, log, asked, i);
  }

  lemma {:induction false} ScoredOnAsked(r: Recogniser, raw: seq<Prepared>, log: seq<Turn>, asks: Asking, asked: seq<nat>, i: nat)
    requires asks == Matched(r, IndexQuestions(raw), log) && AskedInOrder(asks, log, asked) && i < |asked| <= |raw|
    ensures asked[i] < |log| && asked[i] < AnswerEnd(asks, log, asked, |raw|, i) <= |log|
    ensures ScoredOn(r, raw, log, i) == Spoken(r.space, log[asked[i] + 1..AnswerEnd(asks, log, asked, |raw|, i)])
  {
    AskedInOrderRoundTrip(r.space, asks, log, asked, |raw|, i);
  }

  /** The answer in the log and the replies that count. */
  lemma {:induction false} EndsWithTheReplies(r: Recogniser, raw: seq<Prepared>, exchanges: seq<Exchange>, log: seq<Turn>,
                                              asked: seq<nat>, i: nat)
    requires i < |asked| == |exchanges| <= |raw| && ExchangeAt(log, asked, exchanges[i], i)
    requires asked[i] < AnswerEnd(Matched(r, IndexQuestions(raw), log), log, asked, |raw|, i) <= |log|
    ensures log[asked[i] + 1..AnswerEnd(Matched(r, IndexQuestions(raw), log), log, asked, |raw|, i)]
         == exchanges[i].replies[..Counted(r, raw, exchanges, i)]
  {
    var at, end := asked[i], AnswerEnd(Matched(r, IndexQuestions(raw), log), log, asked, |raw|, i);
    var replies := exchanges[i].replies;
    var last := EndOf(log, asked, i);
    assert log[at + 1..last] == replies;
    if i + 1 == |asked| {
      assert log[at + 1..] == replies;
      TakenInReplies(r, IndexQuestions(raw), log, replies, i + 1, at + 1);
    }
    assert end - at - 1 == Counted(r, raw, exchanges, i);
    assert log[at + 1..end] == log[at + 1..last][..end - at - 1];
  }

  /** If the next question is not taken to be asked among the replies, undisturbed means that the agent has the last word. */
  lemma UndisturbedIff(r: Recogniser, raw: seq<Prepared>, exchanges: seq<Exchange>, i: nat)
    requires i + 1 == |exchanges| < |raw|
    requires var next := raw[i + 1].question.GetOr(""); Strip(r.space, next) == "" || NeverTaken(r, next, exchanges[i].replies)
    ensures Undisturbed(r, raw, exchanges, i) <==> AgentHasTheLastWord(exchanges[i].replies, -1)
  {
    var replies := exchanges[i].replies;
    NeverAskedTakesNextTurn(Matched(r, IndexQuestions(raw), replies), replies, i + 1, 0);
  }

  /**
    The utterance contains the question verbatim, but for space around it; the cleaned question is not
    empty, and lowercasing the utterance lowercases the question in place.
  */
  ghost predicate Recognisable(m: Matcher, e: Exchange) {
    var core := Strip(m.abc.space, e.question);
    Clean(m.abc, core) != "" &&
    exists left, right | e.utterance == left + core + right :: SigmaStable(m.abc, left, core, right)
  }

  lemma UtteranceIsRecognised(m: Matcher, e: Exchange)
    requires Recognisable(m, e)
    ensures Recognised(RecogniserOf(m), e)
  {
    var core := Strip(m.abc.space, e.question);
    var left, right :| e.utterance == left + core + right && SigmaStable(m.abc, left, core, right);
    VerbatimSpeechMatches(m, left, core, right);
    EmptyIsClean(m.abc);
  }

  lemma EmptyIsClean(abc: Alphabet)
    ensures Clean(abc, "") == ""
  {
  }

  /** A question without capital sigma whose cleaned text is not empty is recognisable in every utterance that contains it. */
  lemma PlainQuestionIsRecognisable(m: Matcher, e: Exchange)
    requires Clean(m.abc, Strip(m.abc.space, e.question)) != "" && SIGMA !in e.question
    requires Contains(e.utterance, Strip(m.abc.space, e.question))
    ensures Recognisable(m, e)
  {
    var core := Strip(m.abc.space, e.question);
    StrippingAddsNothing(m.abc.space, e.question, SIGMA);
    var left, right := PartsAround(e.utterance, core);
    NoSigmaAgrees(m.abc, left, "", core, right);
  }

  lemma StrippingAddsNothing(space: char -> bool, s: string, c: char)
    requires c !in s
    ensures c !in Strip(space, s)
  {
    var a, b := StripDrops(space, s);
    assert forall d | d in Strip(space, s) :: d in a + Strip(space, s) + b;
  }

  lemma PartsAround(s: string, t: string) returns (left: string, right: string)
    requires Contains(s, t)
    ensures s == left + t + right
  {
    var i: nat :| i <= |s| && OccursAt(s, t, i);
    left, right := s[..i], s[i + |t|..];
  }

  /**
    An interview held as intended: the prepared questions, as far as it gets, are spoken verbatim, in
    order, each inside some utterance of the agent, and before one comes up the agent says nothing the
    matcher takes for it.
  */
  ghost predicate HeldInOrder(m: Matcher, raw: seq<Prepared>, opening: seq<Turn>, exchanges: seq<Exchange>) {
    && |exchanges| <= |raw|
    && (forall i | 0 <= i < |exchanges| ::
          exchanges[i].question == raw[i].question.GetOr("") && Recognisable(m, exchanges[i]))
    && (|exchanges| > 0 ==> NeverTaken(RecogniserOf(m), exchanges[0].question, opening))
    && (forall h, i | 0 <= h < i < |exchanges| && h + 1 == i ::
          NeverTaken(RecogniserOf(m), exchanges[i].question, exchanges[h].replies))
  }

  lemma {:induction false} HeldIsRecognised(m: Matcher, raw: seq<Prepared>, opening: seq<Turn>, exchanges: seq<Exchange>)
    requires HeldInOrder(m, raw, opening, exchanges)
    ensures RecognisedInOrder(RecogniserOf(m), raw, opening, exchanges)
  {
    forall i | 0 <= i < |exchanges|
      ensures Recognised(RecogniserOf(m), exchanges[i])
    {
      UtteranceIsRecognised(m, exchanges[i]);
    }
  }

  /**
    Round trip: in an interview held as intended each question asked is scored on exactly the replies
    to it that count.  If nothing the candidate says is blank these make up the whole answer if and
    only if the candidate says nothing behind them.
  */
  lemma {:induction false} HeldInterviewRoundTrip(m: Matcher, raw: seq<Prepared>, opening: seq<Turn>, exchanges: seq<Exchange>, i: nat)
    requires HeldInOrder(m, raw, opening, exchanges) && i < |exchanges|
    ensures var scored, replies := ScoredOn(RecogniserOf(m), raw, opening + LogOf(exchanges), i), exchanges[i].replies;
            && scored == Spoken(m.abc.space, replies[..Counted(RecogniserOf(m), raw, exchanges, i)])
            && (Undisturbed(RecogniserOf(m), raw, exchanges, i) ==> scored == Spoken(m.abc.space, replies))
            && (Audible(m.abc.space, replies) ==>
                  (scored == Spoken(m.abc.space, replies) <==> Undisturbed(RecogniserOf(m), raw, exchanges, i)))
  {
    HeldIsRecognised(m, raw, opening, exchanges);
    RecognisedRoundTrip(RecogniserOf(m), raw, opening, exchanges, i);
  }

  // ---------- questions that never come up ----------

  /** Turn `i` of the log is the agent's and is taken for prepared question `q`. */
  predicate TakenFor(r: Recogniser, raw: seq<Prepared>, log: seq<Turn>, q: nat, i: nat) {
    && q < |raw| && i < |log| && log[i].speaker == "agent"
    && Strip(r.space, raw[q].question.GetOr("")) != "" && r.takes(Strip(r.space, raw[q].question.GetOr("")), log[i].text)
  }

  /**
    Whichever questions were missed: one that is taken to be asked behind the turns of all earlier ones
    recognised keeps the first such turn, and every question is scored on what is said from its own turn
    to the next one paired.
  */
  lemma {:induction false} ScoredByTheRules(r: Recogniser, raw: seq<Prepared>, log: seq<Turn>,
                                            greedy: map<nat, nat>, pairs: map<nat, nat>, q: nat, end: nat)
    requires IsGreedy(Matched(r, IndexQuestions(raw), log), log, |raw|, greedy) && IsFallback(log, |raw|, greedy, pairs)
    requires q in pairs && EndsAt(log, pairs, q, end)
    ensures forall p: nat, i: nat :: Asks(Matched(r, IndexQuestions(raw), log), log, p, i) <==> TakenFor(r, raw, log, p, i)
    ensures q in greedy ==> pairs[q] == greedy[q]
    ensures ScoredOn(r, raw, log, q) == Spoken(r.space, log[pairs[q] + 1..end])
  {
    AnswersFollowTheRules(r.space, Matched(r, IndexQuestions(raw), log), log, |raw|, greedy, pairs, q);
  }
}
