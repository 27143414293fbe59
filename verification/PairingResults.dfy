/**
  What the reconstruction promises, whatever relation decides which turn asks which question: no
  answer is lost or duplicated, a question stays unpaired only when nothing is left for it, and each
  question gets its own answer.
*/
module PairingResults {
  import opened Pairing

  // ---------- conservation of what the candidate said ----------

  lemma {:induction false} CandidateTextsSplit(a: seq<Turn>, b: seq<Turn>)
    ensures CandidateTexts(a + b) == CandidateTexts(a) + CandidateTexts(b)
  {
    if a == [] {
      assert a + b == b;
    } else {
      assert (a + b)[1..] == a[1..] + b;
      CandidateTextsSplit(a[1..], b);
    }
  }

  /** The candidate's texts of the windows from the `p`-th on, concatenated. */
  function WindowTexts(turns: seq<Turn>, positions: map<nat, nat>, ids: seq<nat>, p: nat): seq<string>
    requires Placed(turns, positions, ids) && p <= |ids|
    decreases |ids| - p
  {
    if p == |ids| then []
    else CandidateTexts(Window(turns, positions, ids, p)) + WindowTexts(turns, positions, ids, p + 1)
  }

  /** An agent turn separates without contributing. */
  lemma AgentTurnSeparates(turns: seq<Turn>, start: nat, next: nat)
    requires start <= next && IsAgentTurn(turns, next)
    ensures CandidateTexts(turns[start..next]) + CandidateTexts(turns[next + 1..]) == CandidateTexts(turns[start..])
  {
    assert turns[start..] == turns[start..next] + turns[next..];
    CandidateTextsSplit(turns[start..next], turns[next..]);
    assert turns[next..][1..] == turns[next + 1..];
  }

  /** Increasing numbers of agent turns. */
  ghost predicate Marked(turns: seq<Turn>, at: seq<nat>) {
    && (forall p | 0 <= p < |at| :: IsAgentTurn(turns, at[p]))
    && (forall p, q | 0 <= p < q < |at| :: at[p] < at[q])
  }

  function MarkEnd(turns: seq<Turn>, at: seq<nat>, p: nat): nat {
    if p + 1 < |at| then at[p + 1] else |turns|
  }

  /** The candidate's texts between the marks from the `p`-th on, concatenated. */
  function MarkTexts(turns: seq<Turn>, at: seq<nat>, p: nat): seq<string>
    requires Marked(turns, at) && p <= |at|
    decreases |at| - p
  {
    if p == |at| then []
    else CandidateTexts(turns[at[p] + 1..MarkEnd(turns, at, p)]) + MarkTexts(turns, at, p + 1)
  }

  lemma MarkTextsFrom(turns: seq<Turn>, at: seq<nat>, p: nat)
    requires Marked(turns, at) && p < |at|
    ensures at[p] + 1 <= MarkEnd(turns, at, p) <= |turns|
    ensures MarkTexts(turns, at, p) == CandidateTexts(turns[at[p] + 1..MarkEnd(turns, at, p)]) + MarkTexts(turns, at, p + 1)
  {
  }

  lemma {:induction false} MarksConserve(turns: seq<Turn>, at: seq<nat>, p: nat)
    requires Marked(turns, at) && p < |at|
    ensures MarkTexts(turns, at, p) == CandidateTexts(turns[at[p] + 1..])
    decreases |at| - p
  {
    MarkTextsFrom(turns, at, p);
    if p + 1 < |at| {
      MarksConserve(turns, at, p + 1);
      assert IsAgentTurn(turns, at[p + 1]);
      AgentTurnSeparates(turns, at[p] + 1, at[p + 1]);
    } else {
      var last := CandidateTexts(turns[at[p] + 1..]);
      assert turns[at[p] + 1..|turns|] == turns[at[p] + 1..];
      assert last + [] == last;
    }
  }

  /** Where the listed questions stand. */
  function MarksOf(turns: seq<Turn>, positions: map<nat, nat>, ids: seq<nat>): (at: seq<nat>)
    requires Placed(turns, positions, ids)
    ensures |at| == |ids| && forall p: nat | p < |ids| :: ids[p] in positions && at[p] == positions[ids[p]]
  {
    assert forall p | 0 <= p < |ids| :: ids[p] in ids;
    seq(|ids|, p requires 0 <= p < |ids| => positions[ids[p]])
  }

  lemma PlacedIsMarked(turns: seq<Turn>, positions: map<nat, nat>, ids: seq<nat>)
    requires Injective(turns, positions) && Placed(turns, positions, ids)
    ensures Marked(turns, MarksOf(turns, positions, ids))
  {
    var at := MarksOf(turns, positions, ids);
    forall p, q | 0 <= p < q < |at|
      ensures at[p] < at[q]
    {
      assert positions[ids[p]] < positions[ids[q]];
    }
    forall p | 0 <= p < |at|
      ensures IsAgentTurn(turns, at[p])
    {
      assert ids[p] in positions;
    }
  }

  lemma WindowOfMark(turns: seq<Turn>, positions: map<nat, nat>, ids: seq<nat>, at: seq<nat>, p: nat)
    requires Placed(turns, positions, ids) && at == MarksOf(turns, positions, ids) && p < |ids|
    ensures at[p] + 1 <= MarkEnd(turns, at, p) <= |turns|
    ensures Window(turns, positions, ids, p) == turns[at[p] + 1..MarkEnd(turns, at, p)]
  {
    assert ids[p] in ids;
    assert p + 1 < |ids| ==> ids[p + 1] in ids;
  }

  lemma WindowTextsFrom(turns: seq<Turn>, positions: map<nat, nat>, ids: seq<nat>, p: nat)
    requires Placed(turns, positions, ids) && p < |ids|
    ensures WindowTexts(turns, positions, ids, p)
         == CandidateTexts(Window(turns, positions, ids, p)) + WindowTexts(turns, positions, ids, p + 1)
  {
  }

  lemma {:induction false} WindowTextsOfMarks(turns: seq<Turn>, positions: map<nat, nat>, ids: seq<nat>, at: seq<nat>, p: nat)
    requires Placed(turns, positions, ids) && at == MarksOf(turns, positions, ids) && Marked(turns, at) && p <= |ids|
    ensures WindowTexts(turns, positions, ids, p) == MarkTexts(turns, at, p)
    decreases |ids| - p
  {
    if p < |ids| {
      WindowOfMark(turns, positions, ids, at, p);
      MarkTextsFrom(turns, at, p);
      WindowTextsFrom(turns, positions, ids, p);
      WindowTextsOfMarks(turns, positions, ids, at, p + 1);
    }
  }

  /** The windows from the first on contain everything said after the first matched turn, once, in order. */
  lemma WindowsConserve(turns: seq<Turn>, positions: map<nat, nat>, ids: seq<nat>)
    requires Injective(turns, positions) && Placed(turns, positions, ids) && ids != []
    ensures positions[ids[0]] < |turns|
    ensures WindowTexts(turns, positions, ids, 0) == CandidateTexts(turns[positions[ids[0]] + 1..])
  {
    var at := MarksOf(turns, positions, ids);
    PlacedIsMarked(turns, positions, ids);
    MarksConserve(turns, at, 0);
    WindowTextsOfMarks(turns, positions, ids, at, 0);
  }

  function Members(ids: seq<nat>): set<nat> {
    set id | id in ids
  }

  lemma OrderedIdsDistinct(turns: seq<Turn>, positions: map<nat, nat>, ids: seq<nat>)
    requires Placed(turns, positions, ids) && forall id :: id in ids <==> id in positions
    ensures |ids| == |positions| && forall p, q | 0 <= p < q < |ids| :: ids[p] != ids[q]
  {
    forall p, q | 0 <= p < q < |ids|
      ensures ids[p] != ids[q]
    {
      assert positions[ids[p]] < positions[ids[q]];
    }
    DistinctCount(ids);
    assert Members(ids) == positions.Keys;
  }

  lemma {:induction false} DistinctCount(ids: seq<nat>)
    requires forall p, q | 0 <= p < q < |ids| :: ids[p] != ids[q]
    ensures |Members(ids)| == |ids|
  {
    if ids != [] {
      DistinctCount(ids[1..]);
      assert ids[0] !in Members(ids[1..]);
      assert Members(ids) == {ids[0]} + Members(ids[1..]);
    }
  }

  /** What the sorted list of paired questions looks like. */
  lemma OrderedIdsShape(asks: Asking, turns: seq<Turn>, n: nat)
    ensures var positions, ids := Positions(asks, turns, n), PairedInOrder(asks, turns, n);
            && Injective(turns, positions) && Placed(turns, positions, ids)
            && (forall id :: id in ids <==> id in positions)
            && |ids| == |positions| && (forall p, q | 0 <= p < q < |ids| :: ids[p] != ids[q])
  {
    PositionsAreDistinctAgentTurns(asks, turns, n);
    OrderIsPlaced(asks, turns, n);
    var positions := Positions(asks, turns, n);
    forall id: nat
      ensures id in PairedInOrder(asks, turns, n) <==> id in positions
    {
      OrderedIdsMembers(positions, n, id);
    }
    OrderedIdsDistinct(turns, positions, PairedInOrder(asks, turns, n));
  }

  /** The earliest matched turn is the first in the sorted list. */
  lemma FirstIsEarliest(turns: seq<Turn>, positions: map<nat, nat>, ids: seq<nat>, id: nat)
    requires Placed(turns, positions, ids) && id in ids
    ensures positions[ids[0]] <= positions[id]
  {
    var p :| 0 <= p < |ids| && ids[p] == id;
  }

  /** Each window ends where the next matched turn stands. */
  lemma WindowsTouch(turns: seq<Turn>, positions: map<nat, nat>, ids: seq<nat>, p: nat)
    requires Placed(turns, positions, ids) && 0 < p < |ids|
    ensures positions[ids[p - 1]] + 1 + |Window(turns, positions, ids, p - 1)| == positions[ids[p]]
  {
    assert ids[p] in ids;
  }

  /** Neighbouring windows are separated by a matched turn only, and together they hold all speech from the first on. */
  ghost predicate WindowsCover(turns: seq<Turn>, positions: map<nat, nat>, ids: seq<nat>)
    requires Placed(turns, positions, ids)
  {
    && ids != []
    && (forall h, p | 0 <= h && h + 1 == p < |ids| ::
          positions[ids[h]] + 1 + |Window(turns, positions, ids, h)| == positions[ids[p]])
    && (forall id | id in ids :: positions[ids[0]] <= positions[id])
    && WindowTexts(turns, positions, ids, 0) == CandidateTexts(turns[positions[ids[0]] + 1..])
  }

  lemma PlacedWindowsCover(turns: seq<Turn>, positions: map<nat, nat>, ids: seq<nat>)
    requires Injective(turns, positions) && Placed(turns, positions, ids) && ids != []
    ensures WindowsCover(turns, positions, ids)
  {
    WindowsConserve(turns, positions, ids);
    forall h, p | 0 <= h && h + 1 == p < |ids|
      ensures positions[ids[h]] + 1 + |Window(turns, positions, ids, h)| == positions[ids[p]]
    {
      WindowsTouch(turns, positions, ids, p);
    }
    forall id | id in ids
      ensures positions[ids[0]] <= positions[id]
    {
      FirstIsEarliest(turns, positions, ids, id);
    }
  }

  /**
    Conservation: once something is paired there is one answer for each paired question, ordered by
    position; each is the stripped, joined speech of its window; the windows follow one another,
    separated by the matched turns only; and together they are exactly what the candidate said after
    the earliest matched turn.
  */
  lemma AnswersConserveSpeech(space: char -> bool, asks: Asking, turns: seq<Turn>, n: nat)
    requires Positions(asks, turns, n) != map[]
    ensures var positions, ids := Positions(asks, turns, n), PairedInOrder(asks, turns, n);
            && Placed(turns, positions, ids) && |ids| == |positions| > 0
            && (forall id :: id in ids <==> id in positions)
            && PairedAnswers(space, asks, turns, n) == WindowAnswers(space, turns, positions, ids)
            && WindowsCover(turns, positions, ids)
  {
    OrderedIdsShape(asks, turns, n);
    PlacedWindowsCover(turns, Positions(asks, turns, n), PairedInOrder(asks, turns, n));
  }

  // ---------- completeness of the fallback pass ----------

  /** The position of the nearest paired question before `q`, or -1. */
  function PositionBefore(positions: map<nat, nat>, q: nat): int {
    if q == 0 then -1
    else if q - 1 in positions then positions[q - 1]
    else PositionBefore(positions, q - 1)
  }

  /** Later steps of the fallback pass keep what is there and leave earlier questions alone. */
  lemma {:induction false} SecondPassGrows(turns: seq<Turn>, first: map<nat, nat>, k: nat, n: nat)
    requires k <= n
    ensures var f, g := SecondPass(turns, first, k).positions, SecondPass(turns, first, n).positions;
            && (forall q | q in f :: q in g && g[q] == f[q])
            && (forall q | q in g && q < k :: q in f)
    decreases n
  {
    if k < n {
      SecondPassGrows(turns, first, k, n - 1);
    }
  }

  lemma {:induction false} SecondPassRemembers(turns: seq<Turn>, first: map<nat, nat>, k: nat, n: nat)
    requires k <= n
    ensures SecondPass(turns, first, k).lastMatched == PositionBefore(SecondPass(turns, first, n).positions, k)
  {
    if k > 0 {
      SecondPassRemembers(turns, first, k - 1, n);
      SecondPassGrows(turns, first, k, n);
    }
  }

  /** A question passed over finds no agent turn beyond the last match that is not taken. */
  lemma PassedOver(turns: seq<Turn>, first: map<nat, nat>, q: nat, i: nat)
    requires q !in SecondPass(turns, first, q + 1).positions
    requires IsAgentTurn(turns, i) && i > SecondPass(turns, first, q).lastMatched
    ensures q !in SecondPass(turns, first, q).positions
    ensures i in SecondPass(turns, first, q).positions.Values
  {
    var f := SecondPass(turns, first, q);
    assert !Available(turns, f.positions, f.lastMatched, i);
  }

  /**
    A question ends unpaired only when every agent turn after its nearest paired predecessor is
    taken by another question.
  */
  lemma UnpairedOnlyWhenNothingLeft(asks: Asking, turns: seq<Turn>, n: nat, q: nat, i: nat)
    requires q < n && q !in Positions(asks, turns, n)
    requires IsAgentTurn(turns, i) && i > PositionBefore(Positions(asks, turns, n), q)
    ensures exists p :: p in Positions(asks, turns, n) && p != q && Positions(asks, turns, n)[p] == i
  {
    var first := FirstPass(asks, turns, n).positions;
    var positions := Positions(asks, turns, n);
    SecondPassGrows(turns, first, q, n);
    SecondPassGrows(turns, first, q + 1, n);
    SecondPassRemembers(turns, first, q, n);
    PassedOver(turns, first, q, i);
    var p :| p in SecondPass(turns, first, q).positions && SecondPass(turns, first, q).positions[p] == i;
    assert p in positions && positions[p] == i;
  }

  /** With at least one question, nothing is paired exactly when the agent never spoke. */
  lemma NothingPairedIffAgentSilent(asks: Asking, turns: seq<Turn>, n: nat)
    requires n > 0
    ensures Positions(asks, turns, n) == map[] <==> forall i | 0 <= i < |turns| :: turns[i].speaker != "agent"
  {
    var positions := Positions(asks, turns, n);
    PositionsAreDistinctAgentTurns(asks, turns, n);
    if positions != map[] {
      var q :| q in positions;
      assert IsAgentTurn(turns, positions[q]);
    } else {
      forall i | 0 <= i < |turns|
        ensures turns[i].speaker != "agent"
      {
        if IsAgentTurn(turns, i) {
          UnpairedOnlyWhenNothingLeft(asks, turns, n, 0, i);
        }
      }
    }
  }

  lemma {:induction false} NothingToOrder(n: nat)
    ensures OrderedIds(map[], n) == []
  {
    if n > 0 {
      NothingToOrder(n - 1);
    }
  }

  /** When the agent never spoke, question 0 gets the whole log and every other question the empty answer. */
  lemma WholeLogWhenAgentSilent(space: char -> bool, asks: Asking, turns: seq<Turn>, n: nat)
    requires n > 0 && forall i | 0 <= i < |turns| :: turns[i].speaker != "agent"
    ensures var answers := PairedAnswers(space, asks, turns, n);
            |answers| == n && answers[0] == Answer(0, Spoken(space, turns)) &&
            forall i | 0 < i < n :: answers[i] == Answer(i, "")
  {
    NothingPairedIffAgentSilent(asks, turns, n);
    NothingToOrder(n);
  }

  /**
    Why the code sorts: when only question 1 is recognised, and in the first of two agent turns, the
    fallback pass puts question 0 behind it.
  */
  lemma FallbackCanReverseTheOrder(first: string, second: string)
    ensures var turns := [Turn("agent", first), Turn("agent", second)];
            var positions := Positions((q, i) => q == 1 && i == 0, turns, 2);
            positions == map[1 := 0, 0 := 1] && OrderedIds(positions, 2) == [1, 0]
  {
    var turns := [Turn("agent", first), Turn("agent", second)];
    var asks: Asking := (q, i) => q == 1 && i == 0;
    assert FirstAsking(asks, turns, 0, 0) == 2;
    assert FirstPass(asks, turns, 1) == Cursor(map[], 0);
    assert FirstAsking(asks, turns, 1, 0) == 0;
    assert FirstPass(asks, turns, 2) == Cursor(map[1 := 0], 1);
    var paired := map[1 := 0];
    assert paired[1] == 0 && 0 in paired.Values;
    assert FirstAvailable(turns, paired, -1, 0) == 1;
    assert SecondPass(turns, paired, 1) == Fallback(map[1 := 0, 0 := 1], 1);
    var positions: map<nat, nat> := map[1 := 0, 0 := 1];
    assert OrderedIds(positions, 1) == [0];
    assert PlaceIn(positions)(1) < PlaceIn(positions)(0);
    assert OrderedIds(positions, 2) == [1] + [0];
  }

  // ---------- each question with its own answer ----------

  /** The first answer recorded for question `id`, or the empty string. */
  function AnswerFor(answers: seq<Answer>, id: nat): string {
    if answers == [] then ""
    else if answers[0].questionId == id then answers[0].answer
    else AnswerFor(answers[1..], id)
  }

  lemma {:induction false} AnswerForUnique(answers: seq<Answer>, p: nat)
    requires p < |answers|
    requires forall i, j | 0 <= i < j < |answers| :: answers[i].questionId != answers[j].questionId
    ensures AnswerFor(answers, answers[p].questionId) == answers[p].answer
  {
    if p > 0 {
      AnswerForUnique(answers[1..], p - 1);
    }
  }

  lemma {:induction false} AnswerForMissing(answers: seq<Answer>, id: nat)
    requires forall i | 0 <= i < |answers| :: answers[i].questionId != id
    ensures AnswerFor(answers, id) == ""
  {
    if answers != [] {
      AnswerForMissing(answers[1..], id);
    }
  }

  /** The first claimed position at or after `from`, or the end of the log. */
  function NextClaimed(turns: seq<Turn>, positions: map<nat, nat>, from: nat): (i: nat)
    requires from <= |turns|
    ensures from <= i <= |turns|
    ensures i < |turns| ==> i in positions.Values
    ensures forall j | from <= j < i :: j !in positions.Values
    decreases |turns| - from
  {
    if from == |turns| || from in positions.Values then from else NextClaimed(turns, positions, from + 1)
  }

  lemma NextClaimedIs(turns: seq<Turn>, positions: map<nat, nat>, from: nat, t: nat)
    requires from <= t <= |turns| && (t == |turns| || t in positions.Values)
    requires forall j | j in positions :: positions[j] < from || positions[j] >= t
    ensures NextClaimed(turns, positions, from) == t
  {
    var next := NextClaimed(turns, positions, from);
    if next < |turns| {
      var j :| j in positions && positions[j] == next;
    }
  }

  /** No listed question stands within a window. */
  lemma NoneInWindow(turns: seq<Turn>, positions: map<nat, nat>, ids: seq<nat>, p: nat, id: nat)
    requires Placed(turns, positions, ids) && p < |ids| && id in ids
    ensures ids[p] in positions && id in positions && positions[id] < |turns|
    ensures positions[id] <= positions[ids[p]]
            || (p + 1 < |ids| && ids[p + 1] in positions && positions[id] >= positions[ids[p + 1]])
  {
    assert ids[p] in ids;
    var r :| 0 <= r < |ids| && ids[r] == id;
    if r > p {
      assert ids[p + 1] in ids;
      assert r == p + 1 || positions[ids[p + 1]] < positions[ids[r]];
    }
  }

  lemma WindowEndsAtNextClaim(turns: seq<Turn>, positions: map<nat, nat>, ids: seq<nat>, p: nat)
    requires Placed(turns, positions, ids) && p < |ids|
    requires forall id :: id in ids <==> id in positions
    ensures NextClaimed(turns, positions, positions[ids[p]] + 1)
         == if p + 1 < |ids| then positions[ids[p + 1]] else |turns|
  {
    var end := if p + 1 < |ids| then positions[ids[p + 1]] else |turns|;
    NoneInWindow(turns, positions, ids, p, ids[p]);
    if p + 1 < |ids| {
      NoneInWindow(turns, positions, ids, p, ids[p + 1]);
      assert positions[ids[p]] < positions[ids[p + 1]];
    }
    forall id | id in positions
      ensures positions[id] < positions[ids[p]] + 1 || positions[id] >= end
    {
      NoneInWindow(turns, positions, ids, p, id);
    }
    NextClaimedIs(turns, positions, positions[ids[p]] + 1, end);
  }

  /** The answer of question `q`, said without any sorting: the speech from its turn to the next claimed one. */
  function OwnAnswer(space: char -> bool, turns: seq<Turn>, positions: map<nat, nat>, q: nat): string {
    if q in positions && positions[q] < |turns|
    then Spoken(space, turns[positions[q] + 1..NextClaimed(turns, positions, positions[q] + 1)])
    else ""
  }

  /** What is said in a window is the answer of its question. */
  lemma WindowIsOwnAnswer(space: char -> bool, turns: seq<Turn>, positions: map<nat, nat>, ids: seq<nat>, p: nat)
    requires Placed(turns, positions, ids) && p < |ids| && ids[p] in positions && positions[ids[p]] < |turns|
    requires NextClaimed(turns, positions, positions[ids[p]] + 1) == if p + 1 < |ids| then positions[ids[p + 1]] else |turns|
    ensures Spoken(space, Window(turns, positions, ids, p)) == OwnAnswer(space, turns, positions, ids[p])
  {
    var next := NextClaimed(turns, positions, positions[ids[p]] + 1);
    assert Window(turns, positions, ids, p) == turns[positions[ids[p]] + 1..next];
  }

  lemma WindowAnswersLookup(space: char -> bool, turns: seq<Turn>, positions: map<nat, nat>, ids: seq<nat>, q: nat)
    requires Injective(turns, positions) && Placed(turns, positions, ids)
    requires forall id :: id in ids <==> id in positions
    requires forall i, j | 0 <= i < j < |ids| :: ids[i] != ids[j]
    ensures AnswerFor(WindowAnswers(space, turns, positions, ids), q) == OwnAnswer(space, turns, positions, q)
  {
    var answers := WindowAnswers(space, turns, positions, ids);
    if q in positions {
      var p :| 0 <= p < |ids| && ids[p] == q;
      AnswerForUnique(answers, p);
      WindowEndsAtNextClaim(turns, positions, ids, p);
      WindowIsOwnAnswer(space, turns, positions, ids, p);
    } else {
      AnswerForMissing(answers, q);
    }
  }

  /** Looking a question up in the recorded answers gives its own answer, and nothing if it was not paired. */
  lemma EachQuestionGetsItsOwnAnswer(space: char -> bool, asks: Asking, turns: seq<Turn>, n: nat, q: nat)
    requires Positions(asks, turns, n) != map[]
    ensures AnswerFor(PairedAnswers(space, asks, turns, n), q)
         == OwnAnswer(space, turns, Positions(asks, turns, n), q)
  {
    OrderedIdsShape(asks, turns, n);
    AnswersConserveSpeech(space, asks, turns, n);
    WindowAnswersLookup(space, turns, Positions(asks, turns, n), PairedInOrder(asks, turns, n), q);
  }
}
