/**
  Reconstruction of (question, answer) pairs from the flat chronological turn log: a greedy pass that
  looks for each question in order, a fallback pass for the questions left over, and answer windows
  between neighbouring matched positions.
*/
module Pairing {
  import opened Wrappers
  import opened Text
  import opened Matching

  /** A log entry; a missing or null field is the empty string. */
  datatype Turn = Turn(speaker: string, text: string)

  /** A prepared question as stored on the session; each key may be missing. */
  datatype Prepared = Prepared(question: Option<string>, category: Option<string>, difficulty: Option<string>)

  datatype Question = Question(id: nat, question: string, category: string, difficulty: string)

  datatype Answer = Answer(questionId: nat, answer: string)

  /** What the first pass carries from question to question. */
  datatype Cursor = Cursor(positions: map<nat, nat>, searchFrom: nat)

  /** What the second pass carries from question to question. */
  datatype Fallback = Fallback(positions: map<nat, nat>, lastMatched: int)

  // ---------- the passes, as functions of the number of questions handled ----------

  function IndexQuestions(raw: seq<Prepared>): (qs: seq<Question>)
    ensures |qs| == |raw|
    ensures forall i | 0 <= i < |qs| :: qs[i].id == i
  {
    seq(|raw|, i requires 0 <= i < |raw| =>
      Question(i, raw[i].question.GetOr(""), raw[i].category.GetOr("General"), raw[i].difficulty.GetOr("medium")))
  }

  /** A relation between question numbers and turn numbers: this turn asks this question. */
  type Asking = (nat, nat) -> bool

  predicate IsAgentTurn(turns: seq<Turn>, i: int) {
    0 <= i < |turns| && turns[i].speaker == "agent"
  }

  predicate Asks(asks: Asking, turns: seq<Turn>, q: nat, i: nat) {
    IsAgentTurn(turns, i) && asks(q, i)
  }

  /** The relation of the matcher: a question that is not blank, and a text that is taken for it. */
  function Matched(r: Recogniser, qs: seq<Question>, turns: seq<Turn>): Asking {
    (q: nat, i: nat) =>
      q < |qs| && i < |turns| && Strip(r.space, qs[q].question) != ""
      && r.takes(Strip(r.space, qs[q].question), turns[i].text)
  }

  /** The first turn at or after `from` that asks `q`, or the length of the log. */
  function FirstAsking(asks: Asking, turns: seq<Turn>, q: nat, from: nat): (i: nat)
    requires from <= |turns|
    ensures from <= i <= |turns|
    ensures i < |turns| ==> Asks(asks, turns, q, i)
    ensures forall j: nat | from <= j < i :: !Asks(asks, turns, q, j)
    decreases |turns| - from
  {
    if from == |turns| || Asks(asks, turns, q, from) then from else FirstAsking(asks, turns, q, from + 1)
  }

  function FirstPass(asks: Asking, turns: seq<Turn>, k: nat): (c: Cursor)
    ensures c.searchFrom <= |turns|
    ensures forall q | q in c.positions :: q < k && c.positions[q] < c.searchFrom
  {
    if k == 0 then Cursor(map[], 0)
    else
      var c := FirstPass(asks, turns, k - 1);
      var i := FirstAsking(asks, turns, k - 1, c.searchFrom);
      if i < |turns| then Cursor(c.positions[k - 1 := i], i + 1) else c
  }

  /** An agent turn beyond `last` that no question has claimed. */
  predicate Available(turns: seq<Turn>, positions: map<nat, nat>, last: int, i: int) {
    IsAgentTurn(turns, i) && i > last && i !in positions.Values
  }

  /** The first available turn at or after `from`, or the length of the log. */
  function FirstAvailable(turns: seq<Turn>, positions: map<nat, nat>, last: int, from: nat): (i: nat)
    requires from <= |turns|
    ensures from <= i <= |turns|
    ensures i < |turns| ==> Available(turns, positions, last, i)
    ensures forall j | from <= j < i :: !Available(turns, positions, last, j)
    decreases |turns| - from
  {
    if from == |turns| || Available(turns, positions, last, from) then from
    else FirstAvailable(turns, positions, last, from + 1)
  }

  function SecondPass(turns: seq<Turn>, first: map<nat, nat>, k: nat): (f: Fallback)
  {
    if k == 0 then Fallback(first, -1)
    else
      var f := SecondPass(turns, first, k - 1);
      if k - 1 in f.positions then Fallback(f.positions, f.positions[k - 1])
      else
        var i := FirstAvailable(turns, f.positions, f.lastMatched, 0);
        if i < |turns| then Fallback(f.positions[k - 1 := i], i) else f
  }

  /** The position given to each paired question out of `n`. */
  function Positions(asks: Asking, turns: seq<Turn>, n: nat): map<nat, nat> {
    SecondPass(turns, FirstPass(asks, turns, n).positions, n).positions
  }

  // ---------- ordering by position ----------

  /** Where a question stands. */
  type Place = nat -> nat

  function PlaceIn(positions: map<nat, nat>): Place {
    (id: nat) => if id in positions then positions[id] else 0
  }

  predicate Sorted(place: Place, ids: seq<nat>) {
    forall p, q | 0 <= p < q < |ids| :: place(ids[p]) < place(ids[q])
  }

  /** `x` put into a sorted list. */
  function InsertByPlace(place: Place, ids: seq<nat>, x: nat): seq<nat> {
    if ids == [] || place(x) < place(ids[0]) then [x] + ids else [ids[0]] + InsertByPlace(place, ids[1..], x)
  }

  /** The paired questions, sorted by position. */
  function PairedInOrder(asks: Asking, turns: seq<Turn>, n: nat): (ids: seq<nat>)
    ensures Placed(turns, Positions(asks, turns, n), ids)
  {
    OrderIsPlaced(asks, turns, n);
    OrderedIds(Positions(asks, turns, n), n)
  }

  /** The paired questions among the first `n`, sorted by position. */
  function OrderedIds(positions: map<nat, nat>, n: nat): seq<nat> {
    if n == 0 then []
    else if n - 1 in positions then InsertByPlace(PlaceIn(positions), OrderedIds(positions, n - 1), n - 1)
    else OrderedIds(positions, n - 1)
  }

  // ---------- answers ----------

  /** The non-empty texts of the candidate's turns, in order. */
  function CandidateTexts(turns: seq<Turn>): seq<string> {
    if turns == [] then []
    else
      (if turns[0].speaker == "candidate" && turns[0].text != "" then [turns[0].text] else [])
      + CandidateTexts(turns[1..])
  }

  function Spoken(space: char -> bool, turns: seq<Turn>): string {
    Strip(space, Join(" ", CandidateTexts(turns)))
  }

  ghost predicate Placed(turns: seq<Turn>, positions: map<nat, nat>, ids: seq<nat>) {
    && (forall id | id in ids :: id in positions && positions[id] < |turns|)
    && (forall p, q | 0 <= p < q < |ids| :: positions[ids[p]] < positions[ids[q]])
  }

  /** The turns after the `p`-th matched position and before the next one. */
  function Window(turns: seq<Turn>, positions: map<nat, nat>, ids: seq<nat>, p: nat): seq<Turn>
    requires Placed(turns, positions, ids) && p < |ids|
  {
    turns[positions[ids[p]] + 1..if p + 1 < |ids| then positions[ids[p + 1]] else |turns|]
  }

  function WindowAnswers(space: char -> bool, turns: seq<Turn>, positions: map<nat, nat>, ids: seq<nat>): (r: seq<Answer>)
    requires Placed(turns, positions, ids)
  {
    seq(|ids|, p requires 0 <= p < |ids| => Answer(ids[p], Spoken(space, Window(turns, positions, ids, p))))
  }

  /** Without a single agent turn, everything the candidate said goes to question 0. */
  function WholeLogAnswers(space: char -> bool, turns: seq<Turn>, n: nat): seq<Answer> {
    seq(n, i requires 0 <= i < n => Answer(i, if i == 0 then Spoken(space, turns) else ""))
  }

  /** The answers recorded for `n` questions. */
  function PairedAnswers(space: char -> bool, asks: Asking, turns: seq<Turn>, n: nat): seq<Answer> {
    var positions := Positions(asks, turns, n);
    var ids := PairedInOrder(asks, turns, n);
    if ids != [] then WindowAnswers(space, turns, positions, ids) else WholeLogAnswers(space, turns, n)
  }

  // ---------- what the passes establish ----------

  /** Distinct questions sit on distinct agent turns. */
  ghost predicate Injective(turns: seq<Turn>, positions: map<nat, nat>) {
    && (forall q | q in positions :: IsAgentTurn(turns, positions[q]))
    && (forall p, q | p in positions && q in positions && p != q :: positions[p] != positions[q])
  }

  /** The greedy pass pairs a question only with a turn that asks it. */
  lemma {:induction false} FirstPassAsks(asks: Asking, turns: seq<Turn>, k: nat, q: nat)
    requires q in FirstPass(asks, turns, k).positions
    ensures Asks(asks, turns, q, FirstPass(asks, turns, k).positions[q])
  {
    if q < k - 1 {
      FirstPassAsks(asks, turns, k - 1, q);
    }
  }

  /** The greedy pass puts later questions on later turns. */
  lemma {:induction false} FirstPassMonotone(asks: Asking, turns: seq<Turn>, k: nat, p: nat, q: nat)
    requires p < q && p in FirstPass(asks, turns, k).positions && q in FirstPass(asks, turns, k).positions
    ensures FirstPass(asks, turns, k).positions[p] < FirstPass(asks, turns, k).positions[q]
  {
    if q < k - 1 {
      FirstPassMonotone(asks, turns, k - 1, p, q);
    }
  }

  /** The fallback pass only adds pairs, and keeps positions distinct agent turns. */
  lemma {:induction false} SecondPassInjective(turns: seq<Turn>, first: map<nat, nat>, k: nat)
    requires Injective(turns, first)
    ensures var f := SecondPass(turns, first, k);
            && Injective(turns, f.positions)
            && f.lastMatched < |turns|
            && (forall q | q in first :: q in f.positions && f.positions[q] == first[q])
            && (forall q | q in f.positions :: q in first || q < k)
  {
    if k > 0 {
      SecondPassInjective(turns, first, k - 1);
    }
  }

  /** Both passes together: every paired question has an agent turn of its own. */
  lemma PositionsAreDistinctAgentTurns(asks: Asking, turns: seq<Turn>, n: nat)
    ensures Injective(turns, Positions(asks, turns, n))
    ensures forall q | q in Positions(asks, turns, n) :: q < n
  {
    var first := FirstPass(asks, turns, n).positions;
    forall q | q in first
      ensures IsAgentTurn(turns, first[q])
    {
      FirstPassAsks(asks, turns, n, q);
    }
    forall p, q | p in first && q in first && p != q
      ensures first[p] != first[q]
    {
      FirstPassMonotone(asks, turns, n, if p < q then p else q, if p < q then q else p);
    }
    SecondPassInjective(turns, first, n);
  }

  // ---------- what sorting establishes ----------

  lemma {:induction false} InsertMembers(place: Place, ids: seq<nat>, x: nat, id: nat)
    ensures id in InsertByPlace(place, ids, x) <==> id in ids || id == x
  {
    if ids != [] && place(x) >= place(ids[0]) {
      InsertMembers(place, ids[1..], x, id);
      assert ids == [ids[0]] + ids[1..];
    }
  }

  lemma FrontKeepsOrder(place: Place, front: nat, ids: seq<nat>)
    requires Sorted(place, ids) && forall q | 0 <= q < |ids| :: place(front) < place(ids[q])
    ensures Sorted(place, [front] + ids)
  {
    var all := [front] + ids;
    forall p, q | 0 <= p < q < |all|
      ensures place(all[p]) < place(all[q])
    {
      assert all[q] == ids[q - 1];
      assert p > 0 ==> all[p] == ids[p - 1];
    }
  }

  lemma {:induction false} InsertKeepsOrder(place: Place, ids: seq<nat>, x: nat)
    requires Sorted(place, ids) && forall id | id in ids :: place(id) != place(x)
    ensures Sorted(place, InsertByPlace(place, ids, x))
  {
    if ids == [] {
    } else if place(x) < place(ids[0]) {
      FrontKeepsOrder(place, x, ids);
    } else {
      var tail := ids[1..];
      assert ids[0] in ids && forall id | id in tail :: id in ids;
      InsertKeepsOrder(place, tail, x);
      var rest := InsertByPlace(place, tail, x);
      forall q | 0 <= q < |rest|
        ensures place(ids[0]) < place(rest[q])
      {
        InsertMembers(place, tail, x, rest[q]);
        if rest[q] in tail {
          var j :| 0 <= j < |tail| && tail[j] == rest[q];
          assert ids[j + 1] == rest[q];
        }
      }
      FrontKeepsOrder(place, ids[0], rest);
    }
  }

  lemma {:induction false} OrderedIdsMembers(positions: map<nat, nat>, n: nat, id: nat)
    ensures id in OrderedIds(positions, n) <==> id in positions && id < n
  {
    if n > 0 {
      OrderedIdsMembers(positions, n - 1, id);
      InsertMembers(PlaceIn(positions), OrderedIds(positions, n - 1), n - 1, id);
    }
  }

  lemma {:induction false} OrderedIdsSorted(positions: map<nat, nat>, n: nat)
    requires forall p, q | p in positions && q in positions && p != q :: positions[p] != positions[q]
    ensures Sorted(PlaceIn(positions), OrderedIds(positions, n))
  {
    if n > 0 {
      OrderedIdsSorted(positions, n - 1);
      if n - 1 in positions {
        var place, earlier := PlaceIn(positions), OrderedIds(positions, n - 1);
        forall id | id in earlier
          ensures place(id) != place(n - 1)
        {
          OrderedIdsMembers(positions, n - 1, id);
        }
        InsertKeepsOrder(place, earlier, n - 1);
      }
    }
  }

  lemma SortedIsPlaced(turns: seq<Turn>, positions: map<nat, nat>, ids: seq<nat>)
    requires Sorted(PlaceIn(positions), ids)
    requires forall id | id in ids :: id in positions && positions[id] < |turns|
    ensures Placed(turns, positions, ids)
  {
    forall p, q | 0 <= p < q < |ids|
      ensures ids[p] in positions && ids[q] in positions && positions[ids[p]] < positions[ids[q]]
    {
      assert ids[p] in ids && ids[q] in ids;
      assert PlaceIn(positions)(ids[p]) < PlaceIn(positions)(ids[q]);
    }
  }

  lemma OrderIsPlaced(asks: Asking, turns: seq<Turn>, n: nat)
    ensures Placed(turns, Positions(asks, turns, n), OrderedIds(Positions(asks, turns, n), n))
  {
    var positions := Positions(asks, turns, n);
    var ids := OrderedIds(positions, n);
    PositionsAreDistinctAgentTurns(asks, turns, n);
    OrderedIdsSorted(positions, n);
    forall id | id in ids
      ensures id in positions && positions[id] < |turns|
    {
      OrderedIdsMembers(positions, n, id);
      assert IsAgentTurn(turns, positions[id]);
    }
    SortedIsPlaced(turns, positions, ids);
  }
}
