/**
  Questions asked in order are read back: each with the turn where it was asked, and with what was
  said behind it, exactly as far as the reconstruction takes it when the interview ends early.
*/
module ReadBack {
  import opened Text
  import opened Pairing
  import opened PairingResults

  // ---------- where questions asked in order are paired ----------

  ghost predicate Increasing(asked: seq<nat>) {
    forall h, i | 0 <= h < i < |asked| :: asked[h] < asked[i]
  }

  ghost predicate AskedAt(asks: Asking, turns: seq<Turn>, asked: seq<nat>) {
    forall i: nat | i < |asked| :: Asks(asks, turns, i, asked[i])
  }

  ghost predicate NotAskedBefore(asks: Asking, turns: seq<Turn>, asked: seq<nat>) {
    && (forall j: nat | |asked| > 0 && j < asked[0] :: !Asks(asks, turns, 0, j))
    && (forall h: nat, i: nat, j: nat | h + 1 == i < |asked| && asked[h] < j < asked[i] :: !Asks(asks, turns, i, j))
  }

  /** Question `i` is asked at turn `asked[i]`, in order, and at no agent turn since the previous question. */
  ghost predicate AskedInOrder(asks: Asking, turns: seq<Turn>, asked: seq<nat>) {
    AskedAt(asks, turns, asked) && Increasing(asked) && NotAskedBefore(asks, turns, asked)
  }

  lemma FirstAskingIsAsked(asks: Asking, turns: seq<Turn>, asked: seq<nat>, i: nat, from: nat)
    requires AskedInOrder(asks, turns, asked) && i < |asked| && from == if i == 0 then 0 else asked[i - 1] + 1
    ensures from <= asked[i] < |turns| && FirstAsking(asks, turns, i, from) == asked[i]
  {
    assert Asks(asks, turns, i, asked[i]);
    var found := FirstAsking(asks, turns, i, from);
    if i > 0 {
      assert asked[i - 1] < asked[i];
    }
  }

  /** Question `i` is searched for from `starts[i]` on and found where it is asked; the next search starts behind that. */
  ghost predicate SearchesFind(asks: Asking, turns: seq<Turn>, asked: seq<nat>, starts: seq<nat>) {
    && |starts| == |asked| + 1 && starts[0] == 0
    && (forall i: nat | i < |asked| ::
          starts[i] <= asked[i] < |turns| && FirstAsking(asks, turns, i, starts[i]) == asked[i])
    && (forall h: nat, i: nat | h + 1 == i < |starts| :: starts[i] == asked[h] + 1)
  }

  lemma {:induction false} FirstPassFindsAsked(asks: Asking, turns: seq<Turn>, asked: seq<nat>, starts: seq<nat>, k: nat)
    requires SearchesFind(asks, turns, asked, starts) && k <= |asked|
    ensures FirstPass(asks, turns, k).searchFrom == starts[k]
    ensures var positions := FirstPass(asks, turns, k).positions;
            forall j: nat :: (j in positions <==> j < k) && (j in positions ==> positions[j] == asked[j])
  {
    if k > 0 {
      FirstPassFindsAsked(asks, turns, asked, starts, k - 1);
      assert starts[k] == asked[k - 1] + 1;
    }
  }

  /** Where each search starts. */
  lemma SearchStarts(asked: seq<nat>) returns (starts: seq<nat>)
    ensures |starts| == |asked| + 1 && starts[0] == 0
    ensures forall h: nat, i: nat | h + 1 == i < |starts| :: starts[i] == asked[h] + 1
  {
    starts := seq(|asked| + 1, i requires 0 <= i <= |asked| => if i == 0 then 0 else asked[i - 1] + 1);
  }

  lemma AskedInOrderIsSearched(asks: Asking, turns: seq<Turn>, asked: seq<nat>) returns (starts: seq<nat>)
    requires AskedInOrder(asks, turns, asked)
    ensures SearchesFind(asks, turns, asked, starts)
  {
    starts := SearchStarts(asked);
    forall i: nat | i < |asked|
      ensures starts[i] <= asked[i] < |turns| && FirstAsking(asks, turns, i, starts[i]) == asked[i]
    {
      assert i > 0 ==> starts[i] == asked[i - 1] + 1;
      FirstAskingIsAsked(asks, turns, asked, i, starts[i]);
    }
  }

  lemma {:induction false} SecondPassIdle(turns: seq<Turn>, first: map<nat, nat>, k: nat)
    requires forall i: nat | i < k :: i in first
    ensures SecondPass(turns, first, k).positions == first
  {
    if k > 0 {
      SecondPassIdle(turns, first, k - 1);
    }
  }

  /** Questions asked in order are paired with exactly the turns at which they were asked. */
  lemma AskedInOrderIsRecovered(asks: Asking, turns: seq<Turn>, asked: seq<nat>)
    requires AskedInOrder(asks, turns, asked)
    ensures var positions := Positions(asks, turns, |asked|);
            forall i: nat :: (i in positions <==> i < |asked|) && (i in positions ==> positions[i] == asked[i])
  {
    var starts := AskedInOrderIsSearched(asks, turns, asked);
    FirstPassFindsAsked(asks, turns, asked, starts, |asked|);
    SecondPassIdle(turns, FirstPass(asks, turns, |asked|).positions, |asked|);
  }

  /**
    The first questions are paired with the turns where they were asked, and every other question that
    is paired has a turn behind all of these.
  */
  ghost predicate AskedComeFirst(positions: map<nat, nat>, asked: seq<nat>) {
    && (forall i: nat | i < |asked| :: i in positions && positions[i] == asked[i])
    && (forall i: nat, j: nat | i < |asked| <= j && j in positions :: asked[i] < positions[j])
  }

  /** Later steps of the greedy pass keep what is there and go on behind it. */
  lemma {:induction false} FirstPassGoesOn(asks: Asking, turns: seq<Turn>, k: nat, n: nat)
    requires k <= n
    ensures var c, d := FirstPass(asks, turns, k), FirstPass(asks, turns, n);
            && d.searchFrom >= c.searchFrom
            && (forall q | q in c.positions :: q in d.positions && d.positions[q] == c.positions[q])
            && (forall q | q in d.positions && q >= k :: d.positions[q] >= c.searchFrom)
    decreases n
  {
    if k < n {
      FirstPassGoesOn(asks, turns, k, n - 1);
    }
  }

  /** From question `k` on the fallback pass claims only turns behind that of question `k - 1`. */
  lemma {:induction false} SecondPassGoesOn(turns: seq<Turn>, first: map<nat, nat>, k: nat, n: nat)
    requires 0 < k <= n && forall i: nat | i < k :: i in first
    requires forall j | j in first && j >= k :: first[k - 1] < first[j]
    ensures var f := SecondPass(turns, first, n);
            && f.lastMatched >= first[k - 1]
            && (forall i: nat | i < k :: i in f.positions && f.positions[i] == first[i])
            && (forall j | j in f.positions && j >= k :: first[k - 1] < f.positions[j])
    decreases n
  {
    if n == k {
      SecondPassIdle(turns, first, k);
      SecondPassIdle(turns, first, k - 1);
    } else {
      SecondPassGoesOn(turns, first, k, n - 1);
    }
  }

  /** In an interview that ends early the questions that were asked are paired with their own turns, and the others behind them. */
  lemma AskedPrefixIsRecovered(asks: Asking, turns: seq<Turn>, asked: seq<nat>, n: nat)
    requires AskedInOrder(asks, turns, asked) && |asked| <= n
    ensures AskedComeFirst(Positions(asks, turns, n), asked)
  {
    var k := |asked|;
    if k > 0 {
      var starts := AskedInOrderIsSearched(asks, turns, asked);
      var first := FirstPass(asks, turns, n).positions;
      FirstPassFindsAsked(asks, turns, asked, starts, k);
      FirstPassGoesOn(asks, turns, k, n);
      assert starts[k] == asked[k - 1] + 1;
      SecondPassGoesOn(turns, first, k, n);
      var positions := Positions(asks, turns, n);
      forall i: nat, j: nat | i < k <= j && j in positions
        ensures asked[i] < positions[j]
      {
        assert asked[i] <= asked[k - 1] < positions[j];
      }
    }
  }

  /** No question is paired between the turns of two questions asked one after the other. */
  lemma NoneBetween(asked: seq<nat>, positions: map<nat, nat>, i: nat, j: nat)
    requires AskedComeFirst(positions, asked) && Increasing(asked) && i + 1 < |asked| && j in positions
    ensures positions[j] <= asked[i] || positions[j] >= asked[i + 1]
  {
    if j < |asked| {
      assert positions[j] == asked[j];
    } else {
      assert asked[i + 1] < positions[j];
    }
  }

  /** Behind a question asked, the next claimed turn is that of the next one asked; behind the last there is none if all were asked. */
  lemma OwnAnswerEnds(turns: seq<Turn>, asked: seq<nat>, positions: map<nat, nat>, i: nat)
    requires Increasing(asked) && i < |asked| && AskedComeFirst(positions, asked)
    requires forall h | 0 <= h < |asked| :: asked[h] < |turns|
    requires i + 1 == |asked| ==> forall q | q in positions :: q < |asked|
    ensures NextClaimed(turns, positions, asked[i] + 1) == if i + 1 < |asked| then asked[i + 1] else |turns|
  {
    var end := if i + 1 < |asked| then asked[i + 1] else |turns|;
    assert i + 1 < |asked| ==> i + 1 in positions && positions[i + 1] == asked[i + 1];
    forall j | j in positions
      ensures positions[j] < asked[i] + 1 || positions[j] >= end
    {
      if i + 1 < |asked| {
        NoneBetween(asked, positions, i, j);
      } else {
        assert positions[j] == asked[j];
      }
    }
    NextClaimedIs(turns, positions, asked[i] + 1, end);
  }

  // ---------- what the first question never asked takes ----------

  /** The agent's first turn at or after `from`, or the end of the log. */
  function NextAgentTurn(turns: seq<Turn>, from: nat): (i: nat)
    requires from <= |turns|
    ensures from <= i <= |turns| && (i < |turns| ==> IsAgentTurn(turns, i))
    ensures forall j | from <= j < i :: !IsAgentTurn(turns, j)
    decreases |turns| - from
  {
    if from == |turns| || IsAgentTurn(turns, from) then from else NextAgentTurn(turns, from + 1)
  }

  /**
    What `q` or a question after it claims: the first turn from `from` on that asks `q`, failing that the
    agent's next turn, or the end of the log.
  */
  function TurnTaken(asks: Asking, turns: seq<Turn>, q: nat, from: nat): (i: nat)
    requires from <= |turns|
    ensures from <= i <= |turns| && (i < |turns| ==> IsAgentTurn(turns, i))
  {
    var i := FirstAsking(asks, turns, q, from);
    if i < |turns| then i else NextAgentTurn(turns, from)
  }

  /** What the greedy pass has not given a question in its own step it never gives it. */
  lemma {:induction false} FirstPassLeavesOut(asks: Asking, turns: seq<Turn>, q: nat, n: nat)
    requires q < n && q !in FirstPass(asks, turns, q + 1).positions
    ensures q !in FirstPass(asks, turns, n).positions
  {
    if q + 1 < n {
      FirstPassLeavesOut(asks, turns, q, n - 1);
    }
  }

  lemma {:induction false} FirstPassSkips(asks: Asking, turns: seq<Turn>, q: nat, n: nat)
    requires q < n && FirstAsking(asks, turns, q, FirstPass(asks, turns, q).searchFrom) == |turns|
    ensures q !in FirstPass(asks, turns, n).positions
  {
    assert FirstPass(asks, turns, q + 1) == FirstPass(asks, turns, q);
    FirstPassLeavesOut(asks, turns, q, n);
  }

  /**
    When the questions before `q` have their turns and `q` has none, the fallback pass sees to it that
    the agent's next turn is claimed.
  */
  lemma NextTurnIsClaimed(turns: seq<Turn>, first: map<nat, nat>, q: nat, n: nat)
    requires 0 < q < n && q !in first && forall i: nat | i < q :: i in first
    requires first[q - 1] < |turns|
    ensures var next := NextAgentTurn(turns, first[q - 1] + 1);
            next < |turns| ==> next in SecondPass(turns, first, n).positions.Values
  {
    var at := first[q - 1];
    var next := NextAgentTurn(turns, at + 1);
    SecondPassIdle(turns, first, q - 1);
    SecondPassIdle(turns, first, q);
    assert SecondPass(turns, first, q) == Fallback(first, at);
    if next < |turns| {
      var i := FirstAvailable(turns, first, at, 0);
      if next !in first.Values {
        assert Available(turns, first, at, next);
        assert i == next;
        assert SecondPass(turns, first, q + 1).positions[q] == next;
      }
      SecondPassGrows(turns, first, q, n);
      SecondPassGrows(turns, first, q + 1, n);
      var claimed, final := SecondPass(turns, first, q + 1).positions, SecondPass(turns, first, n).positions;
      var p :| p in claimed && claimed[p] == next;
      assert p in final && final[p] == next;
    }
  }

  /** `all` is `asked` and one more. */
  ghost predicate OneMore(asked: seq<nat>, all: seq<nat>) {
    |all| == |asked| + 1 && forall i | 0 <= i < |asked| :: all[i] == asked[i]
  }

  lemma IncreasesOn(asked: seq<nat>, all: seq<nat>)
    requires Increasing(asked) && OneMore(asked, all) && (asked != [] ==> asked[|asked| - 1] < all[|asked|])
    ensures Increasing(all)
  {
    forall h, i | 0 <= h < i < |all|
      ensures all[h] < all[i]
    {
      assert h < |asked| - 1 ==> asked[h] < asked[|asked| - 1];
    }
  }

  lemma NotAskedBeforeEither(asks: Asking, turns: seq<Turn>, asked: seq<nat>, all: seq<nat>)
    requires NotAskedBefore(asks, turns, asked) && OneMore(asked, all) && asked != []
    requires forall j: nat | asked[|asked| - 1] < j < all[|asked|] :: !Asks(asks, turns, |asked|, j)
    ensures NotAskedBefore(asks, turns, all)
  {
    assert all[0] == asked[0];
    forall h: nat, i: nat, j: nat | h + 1 == i < |all| && all[h] < j < all[i]
      ensures !Asks(asks, turns, i, j)
    {
      assert all[h] == asked[h];
    }
  }

  /** If the next question is asked later on, it belongs to the questions asked. */
  lemma AskedGoesOn(asks: Asking, turns: seq<Turn>, asked: seq<nat>, next: nat)
    requires AskedInOrder(asks, turns, asked) && asked != [] && asked[|asked| - 1] < |turns|
    requires next == FirstAsking(asks, turns, |asked|, asked[|asked| - 1] + 1) < |turns|
    ensures AskedInOrder(asks, turns, asked + [next])
  {
    IncreasesOn(asked, asked + [next]);
    NotAskedBeforeEither(asks, turns, asked, asked + [next]);
  }

  /** What the greedy pass leaves to the other pass. */
  lemma FirstPassStopsAtAsked(asks: Asking, turns: seq<Turn>, asked: seq<nat>, starts: seq<nat>, n: nat) returns (first: map<nat, nat>)
    requires SearchesFind(asks, turns, asked, starts) && 0 < |asked| < n && asked[|asked| - 1] < |turns|
    requires FirstAsking(asks, turns, |asked|, asked[|asked| - 1] + 1) == |turns|
    ensures first == FirstPass(asks, turns, n).positions
    ensures |asked| !in first && forall i: nat | i < |asked| :: i in first && first[i] == asked[i]
  {
    first := FirstPass(asks, turns, n).positions;
    FirstPassFindsAsked(asks, turns, asked, starts, |asked|);
    assert starts[|asked|] == asked[|asked| - 1] + 1;
    FirstPassGoesOn(asks, turns, |asked|, n);
    FirstPassSkips(asks, turns, |asked|, n);
  }

  lemma NextAgentTurnIsClaimed(asks: Asking, turns: seq<Turn>, asked: seq<nat>, starts: seq<nat>, n: nat)
    requires SearchesFind(asks, turns, asked, starts) && 0 < |asked| < n && asked[|asked| - 1] < |turns|
    requires FirstAsking(asks, turns, |asked|, asked[|asked| - 1] + 1) == |turns|
    ensures var next := NextAgentTurn(turns, asked[|asked| - 1] + 1);
            next < |turns| ==> next in Positions(asks, turns, n).Values
  {
    var first := FirstPassStopsAtAsked(asks, turns, asked, starts, n);
    NextTurnIsClaimed(turns, first, |asked|, n);
  }

  /** How the questions asked are paired, with everything the pairing promises. */
  lemma PairedAsAsked(asks: Asking, turns: seq<Turn>, asked: seq<nat>, n: nat) returns (positions: map<nat, nat>)
    requires AskedInOrder(asks, turns, asked) && |asked| <= n
    ensures positions == Positions(asks, turns, n) && AskedComeFirst(positions, asked) && Injective(turns, positions)
    ensures forall q | q in positions :: q < n
    ensures Increasing(asked) && forall i | 0 <= i < |asked| :: asked[i] < |turns|
  {
    AskedAreTurns(asks, turns, asked);
    AskedPrefixIsRecovered(asks, turns, asked, n);
    PositionsAreDistinctAgentTurns(asks, turns, n);
    positions := Positions(asks, turns, n);
  }

  lemma NextAskedIsClaimed(asks: Asking, turns: seq<Turn>, asked: seq<nat>, n: nat, i: nat)
    requires AskedInOrder(asks, turns, asked) && i + 1 < |asked| <= n && asked[i] < |turns|
    ensures NextClaimed(turns, Positions(asks, turns, n), asked[i] + 1) == asked[i + 1]
  {
    var positions := PairedAsAsked(asks, turns, asked, n);
    OwnAnswerEnds(turns, asked, positions, i);
  }

  lemma NextClaimedIsNextTurn(turns: seq<Turn>, positions: map<nat, nat>, from: nat)
    requires from <= |turns| && Injective(turns, positions)
    requires NextAgentTurn(turns, from) < |turns| ==> NextAgentTurn(turns, from) in positions.Values
    ensures NextClaimed(turns, positions, from) == NextAgentTurn(turns, from)
  {
    var next := NextClaimed(turns, positions, from);
    if next < |turns| {
      var p :| p in positions && positions[p] == next;
      assert IsAgentTurn(turns, next);
    }
  }

  /** Behind the last question asked, the next claimed turn is the one the next question takes. */
  lemma NextClaimedIsTaken(asks: Asking, turns: seq<Turn>, asked: seq<nat>, n: nat)
    requires AskedInOrder(asks, turns, asked) && 0 < |asked| < n && asked[|asked| - 1] < |turns|
    ensures var from := asked[|asked| - 1] + 1;
            NextClaimed(turns, Positions(asks, turns, n), from) == TurnTaken(asks, turns, |asked|, from)
  {
    var from := asked[|asked| - 1] + 1;
    var next := FirstAsking(asks, turns, |asked|, from);
    if next < |turns| {
      AskedGoesOn(asks, turns, asked, next);
      NextAskedIsClaimed(asks, turns, asked + [next], n, |asked| - 1);
    } else {
      var starts := AskedInOrderIsSearched(asks, turns, asked);
      var positions := PairedAsAsked(asks, turns, asked, n);
      NextAgentTurnIsClaimed(asks, turns, asked, starts, n);
      NextClaimedIsNextTurn(turns, positions, from);
    }
  }

  // ---------- each question asked and its answer ----------

  lemma AskedAreTurns(asks: Asking, turns: seq<Turn>, asked: seq<nat>)
    requires AskedInOrder(asks, turns, asked)
    ensures Increasing(asked) && forall i | 0 <= i < |asked| :: asked[i] < |turns|
  {
    assert forall i | 0 <= i < |asked| :: Asks(asks, turns, i, asked[i]);
  }

  /** Where the answer of question `i` ends: at the next question asked, or behind the last one at the turn that the next takes. */
  function AnswerEnd(asks: Asking, turns: seq<Turn>, asked: seq<nat>, n: nat, i: nat): nat
    requires i < |asked| && asked[i] < |turns|
  {
    if i + 1 < |asked| then asked[i + 1]
    else if |asked| < n then TurnTaken(asks, turns, |asked|, asked[i] + 1)
    else |turns|
  }

  /**
    In an interview that may end early each question that was asked gets what the candidate said from
    its own turn up to the turn of the next one.  The last one gets all the rest if no question is left;
    otherwise the next question cuts it off where it is taken to be asked, or at the agent's next turn.
  */
  lemma AskedInOrderRoundTrip(space: char -> bool, asks: Asking, turns: seq<Turn>, asked: seq<nat>, n: nat, i: nat)
    requires AskedInOrder(asks, turns, asked) && i < |asked| <= n
    ensures asked[i] < |turns| && asked[i] < AnswerEnd(asks, turns, asked, n, i) <= |turns|
    ensures AnswerFor(PairedAnswers(space, asks, turns, n), i)
         == Spoken(space, turns[asked[i] + 1..AnswerEnd(asks, turns, asked, n, i)])
  {
    var at, end := AskedAndEnd(asks, turns, asked, n, i);
    EachQuestionGetsItsOwnAnswer(space, asks, turns, n, i);
    OwnAnswerIs(space, turns, Positions(asks, turns, n), i, at, end);
  }

  /** Where question `i` stands, and where the next claimed turn is. */
  lemma AskedAndEnd(asks: Asking, turns: seq<Turn>, asked: seq<nat>, n: nat, i: nat) returns (at: nat, end: nat)
    requires AskedInOrder(asks, turns, asked) && i < |asked| <= n
    ensures at == asked[i] < |turns| && at < end == AnswerEnd(asks, turns, asked, n, i) <= |turns|
    ensures i in Positions(asks, turns, n) && Positions(asks, turns, n)[i] == at
    ensures NextClaimed(turns, Positions(asks, turns, n), at + 1) == end
  {
    var positions := PairedAsAsked(asks, turns, asked, n);
    at := asked[i];
    end := AnswerEnd(asks, turns, asked, n, i);
    if i + 1 == |asked| < n {
      NextClaimedIsTaken(asks, turns, asked, n);
    } else {
      OwnAnswerEnds(turns, asked, positions, i);
    }
  }

  lemma OwnAnswerIs(space: char -> bool, turns: seq<Turn>, positions: map<nat, nat>, i: nat, at: nat, end: nat)
    requires i in positions && positions[i] == at < end <= |turns| && NextClaimed(turns, positions, at + 1) == end
    ensures OwnAnswer(space, turns, positions, i) == Spoken(space, turns[at + 1..end])
  {
  }

  // ---------- when the last answer is whole ----------

  /** The candidate has something to say at this turn. */
  predicate Speaks(turns: seq<Turn>, u: int) {
    0 <= u < |turns| && turns[u].speaker == "candidate" && turns[u].text != ""
  }

  ghost predicate SilentBehind(turns: seq<Turn>, t: int) {
    forall u | u > t :: !Speaks(turns, u)
  }

  /** Behind turn `at` the candidate says nothing more once the agent has spoken. */
  ghost predicate AgentHasTheLastWord(turns: seq<Turn>, at: int) {
    forall t, u | at < t < u && IsAgentTurn(turns, t) :: !Speaks(turns, u)
  }

  /** Nothing the candidate says is blank. */
  ghost predicate Audible(space: char -> bool, turns: seq<Turn>) {
    forall u | 0 <= u < |turns| && Speaks(turns, u) :: Strip(space, turns[u].text) != ""
  }

  lemma {:induction false} CandidateTextsAre(turns: seq<Turn>, text: string)
    ensures text in CandidateTexts(turns) <==> exists u :: Speaks(turns, u) && turns[u].text == text
  {
    if turns != [] {
      var rest := turns[1..];
      CandidateTextsAre(rest, text);
      assert Speaks(turns, 0) <==> turns[0].speaker == "candidate" && turns[0].text != "";
      assert forall u :: Speaks(rest, u) ==> Speaks(turns, u + 1) && turns[u + 1] == rest[u];
      assert forall u | u > 0 && Speaks(turns, u) :: Speaks(rest, u - 1) && rest[u - 1] == turns[u];
    }
  }

  /** What is said behind an agent turn. */
  lemma SaidBehind(turns: seq<Turn>, t: nat)
    requires t < |turns|
    ensures CandidateTexts(turns[t + 1..]) == [] <==> SilentBehind(turns, t)
  {
    var tail := turns[t + 1..];
    if u :| u > t && Speaks(turns, u) {
      assert Speaks(tail, u - t - 1) && tail[u - t - 1] == turns[u];
      CandidateTextsAre(tail, turns[u].text);
    } else if CandidateTexts(tail) != [] {
      CandidateTextsAre(tail, CandidateTexts(tail)[0]);
      var u :| Speaks(tail, u);
      assert Speaks(turns, u + t + 1);
    }
  }

  function Solid(space: char -> bool): char -> bool {
    c => !space(c)
  }

  lemma {:induction false} SpaceIsNotSolid(space: char -> bool, s: string)
    requires forall c | c in s :: space(c)
    ensures Filter(Solid(space), s) == ""
  {
    if s != "" {
      SpaceIsNotSolid(space, s[1..]);
    }
  }

  lemma SolidWithin(space: char -> bool, left: string, core: string, right: string)
    requires (forall c | c in left :: space(c)) && (forall c | c in right :: space(c))
    ensures Filter(Solid(space), left + core + right) == Filter(Solid(space), core)
  {
    SpaceIsNotSolid(space, left);
    SpaceIsNotSolid(space, right);
    FilterSplits(Solid(space), left + core, right);
    FilterSplits(Solid(space), left, core);
  }

  lemma StrippingKeepsSolid(space: char -> bool, s: string)
    ensures Filter(Solid(space), Strip(space, s)) == Filter(Solid(space), s)
    ensures Strip(space, s) != "" ==> Filter(Solid(space), s) != ""
  {
    var left, right := StripDrops(space, s);
    assert forall c | c in left :: c in left + right;
    assert forall c | c in right :: c in left + right;
    SolidWithin(space, left, Strip(space, s), right);
  }

  /** Joined texts hold at least the solid characters of their parts. */
  lemma {:induction false} JoinAddsUp(space: char -> bool, a: seq<string>, b: seq<string>)
    ensures |Filter(Solid(space), Join(" ", a + b))| >= |Filter(Solid(space), Join(" ", a))| + |Filter(Solid(space), Join(" ", b))|
  {
    if a == [] {
      assert a + b == b;
    } else if b == [] {
      assert a + b == a;
    } else {
      var rest := a[1..];
      assert (a + b)[1..] == rest + b;
      JoinAddsUp(space, rest, b);
      FilterSplits(Solid(space), a[0] + " ", Join(" ", rest + b));
      FilterSplits(Solid(space), a[0] + " ", Join(" ", rest));
      FilterSplits(Solid(space), a[0], " ");
    }
  }

  /** Texts that are not blank can be heard at the end of a joined, stripped text. */
  lemma MoreIsHeard(space: char -> bool, a: seq<string>, b: seq<string>)
    requires b != [] && forall s | s in b :: Strip(space, s) != ""
    ensures Strip(space, Join(" ", a + b)) != Strip(space, Join(" ", a))
  {
    assert [b[0]] + b[1..] == b;
    JoinAddsUp(space, a, b);
    JoinAddsUp(space, [b[0]], b[1..]);
    StrippingKeepsSolid(space, b[0]);
    StrippingKeepsSolid(space, Join(" ", a));
    StrippingKeepsSolid(space, Join(" ", a + b));
  }

  /**
    Speech cut off at an agent turn, or not at all, is whole if the candidate says nothing behind it,
    and only then unless that is blank.
  */
  lemma CutIsWholeIff(space: char -> bool, turns: seq<Turn>, from: nat, end: nat)
    requires from <= end <= |turns| && (end < |turns| ==> IsAgentTurn(turns, end))
    ensures CandidateTexts(turns[from..end]) == CandidateTexts(turns[from..]) <==> SilentBehind(turns, end)
    ensures SilentBehind(turns, end) ==> Spoken(space, turns[from..end]) == Spoken(space, turns[from..])
    ensures Audible(space, turns) ==>
              (Spoken(space, turns[from..end]) == Spoken(space, turns[from..]) <==> SilentBehind(turns, end))
  {
    if end == |turns| {
      assert turns[from..end] == turns[from..];
    } else {
      var cut, lost := CandidateTexts(turns[from..end]), CandidateTexts(turns[end + 1..]);
      AgentTurnSeparates(turns, from, end);
      SaidBehind(turns, end);
      if lost == [] {
        assert cut + lost == cut;
      } else if Audible(space, turns) {
        forall s | s in lost
          ensures Strip(space, s) != ""
        {
          LostIsAudible(space, turns, end, s);
        }
        MoreIsHeard(space, cut, lost);
      }
    }
  }

  lemma LostIsAudible(space: char -> bool, turns: seq<Turn>, end: nat, s: string)
    requires end < |turns| && Audible(space, turns) && s in CandidateTexts(turns[end + 1..])
    ensures Strip(space, s) != ""
  {
    var tail := turns[end + 1..];
    CandidateTextsAre(tail, s);
    var u :| Speaks(tail, u) && tail[u].text == s;
    assert Speaks(turns, end + 1 + u);
  }

  /** From `from` on no turn asks `q`. */
  ghost predicate NeverAsked(asks: Asking, turns: seq<Turn>, q: nat, from: nat) {
    forall j: nat | from <= j :: !Asks(asks, turns, q, j)
  }

  /** If the next question is never asked, nothing is lost exactly when the agent has the last word. */
  lemma NeverAskedTakesNextTurn(asks: Asking, turns: seq<Turn>, q: nat, from: nat)
    requires from <= |turns| && NeverAsked(asks, turns, q, from)
    ensures SilentBehind(turns, TurnTaken(asks, turns, q, from)) <==> AgentHasTheLastWord(turns, from - 1)
  {
    var next := NextAgentTurn(turns, from);
    assert TurnTaken(asks, turns, q, from) == next;
    if next < |turns| {
      assert from - 1 < next && IsAgentTurn(turns, next);
      if SilentBehind(turns, next) {
        forall t, u | from - 1 < t < u && IsAgentTurn(turns, t)
          ensures !Speaks(turns, u)
        {
          assert t >= next;
        }
      }
    }
  }

  /**
    When a question never came up, the last one asked gets all the candidate said after it if and only
    if the candidate says nothing behind the turn that the next question takes.  If that one is never
    asked, this means that the candidate says nothing more once the agent has spoken again.
  */
  lemma LastAnswerIsWholeIff(space: char -> bool, asks: Asking, turns: seq<Turn>, asked: seq<nat>, n: nat, i: nat)
    requires AskedInOrder(asks, turns, asked) && i + 1 == |asked| < n && Audible(space, turns)
    ensures asked[i] < |turns|
    ensures AnswerFor(PairedAnswers(space, asks, turns, n), i) == Spoken(space, turns[asked[i] + 1..])
            <==> SilentBehind(turns, TurnTaken(asks, turns, i + 1, asked[i] + 1))
    ensures NeverAsked(asks, turns, i + 1, asked[i] + 1) ==>
              (AnswerFor(PairedAnswers(space, asks, turns, n), i) == Spoken(space, turns[asked[i] + 1..])
               <==> AgentHasTheLastWord(turns, asked[i]))
  {
    AskedInOrderRoundTrip(space, asks, turns, asked, n, i);
    CutIsWholeIff(space, turns, asked[i] + 1, TurnTaken(asks, turns, i + 1, asked[i] + 1));
    if NeverAsked(asks, turns, i + 1, asked[i] + 1) {
      NeverAskedTakesNextTurn(asks, turns, i + 1, asked[i] + 1);
    }
  }

  /** A question never asked takes the agent's next turn, and with it what the candidate goes on to say. */
  lemma UnaskedCanClaim(space: char -> bool, question: string, answer: string, remark: string, more: string)
    ensures var turns := [Turn("agent", question), Turn("candidate", answer), Turn("agent", remark), Turn("candidate", more)];
            var answers := PairedAnswers(space, (q, i) => q == 0 && i == 0, turns, 2);
            AnswerFor(answers, 0) == Spoken(space, [turns[1]]) && AnswerFor(answers, 1) == Spoken(space, [turns[3]])
  {
    var turns := [Turn("agent", question), Turn("candidate", answer), Turn("agent", remark), Turn("candidate", more)];
    var asks: Asking := (q, i) => q == 0 && i == 0;
    ClaimedPositions(asks, turns);
    assert 0 in Positions(asks, turns, 2);
    EachQuestionGetsItsOwnAnswer(space, asks, turns, 2, 0);
    EachQuestionGetsItsOwnAnswer(space, asks, turns, 2, 1);
    ClaimedAnswers(space, turns);
  }

  lemma ClaimedAnswers(space: char -> bool, turns: seq<Turn>)
    requires |turns| == 4
    ensures OwnAnswer(space, turns, map[0 := 0, 1 := 2], 0) == Spoken(space, [turns[1]])
    ensures OwnAnswer(space, turns, map[0 := 0, 1 := 2], 1) == Spoken(space, [turns[3]])
  {
    var positions: map<nat, nat> := map[0 := 0, 1 := 2];
    assert positions[1] == 2 && 2 in positions.Values;
    NextClaimedIs(turns, positions, 1, 2);
    NextClaimedIs(turns, positions, 3, 4);
    assert turns[1..2] == [turns[1]] && turns[3..4] == [turns[3]];
  }

  lemma ClaimedPositions(asks: Asking, turns: seq<Turn>)
    requires forall q: nat, i: nat :: asks(q, i) <==> q == 0 && i == 0
    requires |turns| == 4 && turns[0].speaker == turns[2].speaker == "agent" && turns[1].speaker == turns[3].speaker == "candidate"
    ensures Positions(asks, turns, 2) == map[0 := 0, 1 := 2]
  {
    assert FirstAsking(asks, turns, 0, 0) == 0;
    assert FirstPass(asks, turns, 1) == Cursor(map[0 := 0], 1);
    assert FirstAsking(asks, turns, 1, 1) == 4;
    assert FirstPass(asks, turns, 2) == Cursor(map[0 := 0], 1);
    var paired := map[0 := 0];
    assert SecondPass(turns, paired, 1) == Fallback(paired, 0);
    assert paired[0] == 0 && 0 in paired.Values && forall q | q in paired :: paired[q] == 0;
    assert !Available(turns, paired, 0, 0) && !Available(turns, paired, 0, 1) && Available(turns, paired, 0, 2);
    assert FirstAvailable(turns, paired, 0, 0) == 2;
  }
}
