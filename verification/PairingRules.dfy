/**
  The pairing told by rules instead of passes: which question is paired with which turn, whatever was
  missed in between, what is said in its answer, and how it is put together.
*/
module PairingRules {
  import opened Text
  import opened Pairing
  import opened PairingResults
  import opened ReadBack

  // ---------- the greedy pass ----------

  /** Turn `i` asks `q` and lies behind the turns of all earlier questions paired. */
  ghost predicate AskedBehind(asks: Asking, turns: seq<Turn>, pairs: map<nat, nat>, q: nat, i: nat) {
    Asks(asks, turns, q, i) && forall p | p in pairs && p < q :: pairs[p] < i
  }

  /** A question is paired if and only if some turn behind all earlier pairs asks it, and then with the first of these. */
  ghost predicate IsGreedy(asks: Asking, turns: seq<Turn>, n: nat, pairs: map<nat, nat>) {
    && (forall q | q in pairs :: q < n && AskedBehind(asks, turns, pairs, q, pairs[q]))
    && (forall q: nat, i: nat | q < n && AskedBehind(asks, turns, pairs, q, i) :: q in pairs && pairs[q] <= i)
  }

  /** The search goes on right behind the turns paired so far. */
  lemma {:induction false} SearchGoesOnBehind(asks: Asking, turns: seq<Turn>, k: nat, i: nat)
    ensures var c := FirstPass(asks, turns, k); i >= c.searchFrom <==> forall p | p in c.positions :: c.positions[p] < i
  {
    if k > 0 {
      var before, c := FirstPass(asks, turns, k - 1), FirstPass(asks, turns, k);
      SearchGoesOnBehind(asks, turns, k - 1, i);
      if c.searchFrom != before.searchFrom || c.positions != before.positions {
        var found := FirstAsking(asks, turns, k - 1, before.searchFrom);
        assert k - 1 in c.positions && c.positions[k - 1] == found;
        assert forall p | p in before.positions :: p in c.positions && c.positions[p] == before.positions[p];
        if i > found {
          SearchGoesOnBehind(asks, turns, k - 1, found);
        }
      }
    }
  }

  /** The step for question `q` decides what becomes of it. */
  lemma StepDecides(asks: Asking, turns: seq<Turn>, q: nat, n: nat)
    requires q < n
    ensures var c, pairs := FirstPass(asks, turns, q), FirstPass(asks, turns, n).positions;
            var found := FirstAsking(asks, turns, q, c.searchFrom);
            && (forall p: nat | p < q :: p in pairs <==> p in c.positions)
            && (forall p | p in c.positions :: p in pairs && pairs[p] == c.positions[p])
            && (q in pairs <==> found < |turns|) && (q in pairs ==> pairs[q] == found)
  {
    FirstPassGoesOn(asks, turns, q, n);
    FirstPassGoesOn(asks, turns, q + 1, n);
    var c, pairs := FirstPass(asks, turns, q), FirstPass(asks, turns, n).positions;
    if FirstAsking(asks, turns, q, c.searchFrom) == |turns| {
      FirstPassSkips(asks, turns, q, n);
    }
    forall p: nat | p < q && p !in c.positions
      ensures p !in pairs
    {
      StaysOut(asks, turns, p, q, n);
    }
  }

  lemma {:induction false} StaysOut(asks: Asking, turns: seq<Turn>, p: nat, k: nat, n: nat)
    requires p < k <= n && p !in FirstPass(asks, turns, k).positions
    ensures p !in FirstPass(asks, turns, n).positions
  {
    if k < n {
      StaysOut(asks, turns, p, k, n - 1);
    }
  }

  lemma GreedyAt(asks: Asking, turns: seq<Turn>, n: nat, q: nat)
    requires q < n
    ensures var pairs := FirstPass(asks, turns, n).positions;
            && (q in pairs ==> AskedBehind(asks, turns, pairs, q, pairs[q]))
            && (forall i: nat | AskedBehind(asks, turns, pairs, q, i) :: q in pairs && pairs[q] <= i)
  {
    var c, pairs := FirstPass(asks, turns, q), FirstPass(asks, turns, n).positions;
    StepDecides(asks, turns, q, n);
    var found := FirstAsking(asks, turns, q, c.searchFrom);
    SearchGoesOnBehind(asks, turns, q, found);
    forall i: nat | AskedBehind(asks, turns, pairs, q, i)
      ensures found <= i < |turns|
    {
      SearchGoesOnBehind(asks, turns, q, i);
    }
  }

  /** The greedy pass obeys the rule, whichever questions it misses. */
  lemma GreedyPassObeys(asks: Asking, turns: seq<Turn>, n: nat)
    ensures IsGreedy(asks, turns, n, FirstPass(asks, turns, n).positions)
  {
    forall q: nat | q < n
      ensures var pairs := FirstPass(asks, turns, n).positions;
              && (q in pairs ==> AskedBehind(asks, turns, pairs, q, pairs[q]))
              && (forall i: nat | AskedBehind(asks, turns, pairs, q, i) :: q in pairs && pairs[q] <= i)
    {
      GreedyAt(asks, turns, n, q);
    }
  }

  /** The pairs of the first `k` questions agree. */
  ghost predicate AgreeBelow(a: map<nat, nat>, b: map<nat, nat>, k: nat) {
    forall q: nat | q < k :: (q in a <==> q in b) && (q in a ==> a[q] == b[q])
  }

  lemma {:induction false} GreedyAgrees(asks: Asking, turns: seq<Turn>, n: nat, a: map<nat, nat>, b: map<nat, nat>, k: nat)
    requires IsGreedy(asks, turns, n, a) && IsGreedy(asks, turns, n, b) && k <= n
    ensures AgreeBelow(a, b, k)
  {
    if k > 0 {
      GreedyAgrees(asks, turns, n, a, b, k - 1);
      var q := k - 1;
      assert forall i: nat :: AskedBehind(asks, turns, a, q, i) <==> AskedBehind(asks, turns, b, q, i);
    }
  }

  lemma AgreementIsEquality(a: map<nat, nat>, b: map<nat, nat>, n: nat)
    requires AgreeBelow(a, b, n) && (forall q | q in a :: q < n) && forall q | q in b :: q < n
    ensures a == b
  {
    assert a.Keys == b.Keys;
  }

  /** The rule leaves no choice. */
  lemma GreedyIsUnique(asks: Asking, turns: seq<Turn>, n: nat, a: map<nat, nat>, b: map<nat, nat>)
    requires IsGreedy(asks, turns, n, a) && IsGreedy(asks, turns, n, b)
    ensures a == b
  {
    GreedyAgrees(asks, turns, n, a, b, n);
    AgreementIsEquality(a, b, n);
  }

  // ---------- the fallback pass ----------

  /** An agent turn behind that of the nearest paired predecessor, given neither to a recognised nor to an earlier question. */
  ghost predicate FreeBehind(turns: seq<Turn>, greedy: map<nat, nat>, pairs: map<nat, nat>, q: nat, i: nat) {
    && IsAgentTurn(turns, i) && i > PositionBefore(pairs, q)
    && (forall g | g in greedy :: greedy[g] != i)
    && (forall p | p in pairs && p < q :: pairs[p] != i)
  }

  /** Recognised questions keep their turns; another is paired if and only if there is a free turn, and then with the first. */
  ghost predicate IsFallback(turns: seq<Turn>, n: nat, greedy: map<nat, nat>, pairs: map<nat, nat>) {
    && (forall g | g in greedy :: g in pairs && pairs[g] == greedy[g])
    && (forall q | q in pairs && q !in greedy :: q < n && FreeBehind(turns, greedy, pairs, q, pairs[q]))
    && (forall q: nat, i: nat | q < n && q !in greedy && FreeBehind(turns, greedy, pairs, q, i) :: q in pairs && pairs[q] <= i)
  }

  /** What has been claimed when question `q` comes up: the greedy turns, and those of earlier questions. */
  lemma {:induction false} ClaimedSoFar(turns: seq<Turn>, greedy: map<nat, nat>, q: nat)
    ensures forall p | p in SecondPass(turns, greedy, q).positions :: p in greedy || p < q
    ensures forall g | g in greedy :: g in SecondPass(turns, greedy, q).positions && SecondPass(turns, greedy, q).positions[g] == greedy[g]
  {
    if q > 0 {
      ClaimedSoFar(turns, greedy, q - 1);
    }
  }

  lemma FallbackAt(turns: seq<Turn>, greedy: map<nat, nat>, n: nat, q: nat)
    requires q < n && q !in greedy
    ensures var pairs := SecondPass(turns, greedy, n).positions;
            && (q in pairs ==> FreeBehind(turns, greedy, pairs, q, pairs[q]))
            && (forall i: nat | FreeBehind(turns, greedy, pairs, q, i) :: q in pairs && pairs[q] <= i)
  {
    var f, pairs := SecondPass(turns, greedy, q), SecondPass(turns, greedy, n).positions;
    SecondPassGrows(turns, greedy, q, n);
    SecondPassGrows(turns, greedy, q + 1, n);
    SecondPassRemembers(turns, greedy, q, n);
    ClaimedSoFar(turns, greedy, q);
    forall i: nat
      ensures Available(turns, f.positions, f.lastMatched, i) <==> FreeBehind(turns, greedy, pairs, q, i)
    {
      AvailableIsFree(turns, greedy, f.positions, pairs, f.lastMatched, q, i);
    }
    var found := FirstAvailable(turns, f.positions, f.lastMatched, 0);
    assert found < |turns| ==> Available(turns, f.positions, f.lastMatched, found);
    assert q in pairs <==> found < |turns|;
    assert q in pairs ==> pairs[q] == found;
  }

  lemma AvailableIsFree(turns: seq<Turn>, greedy: map<nat, nat>, claimed: map<nat, nat>, pairs: map<nat, nat>, last: int, q: nat, i: nat)
    requires last == PositionBefore(pairs, q)
    requires forall p | p in claimed :: (p in greedy || p < q) && p in pairs && pairs[p] == claimed[p]
    requires forall g | g in greedy :: g in claimed && claimed[g] == greedy[g]
    requires forall p | p in pairs && p < q :: p in claimed
    ensures Available(turns, claimed, last, i) <==> FreeBehind(turns, greedy, pairs, q, i)
  {
    if i in claimed.Values {
      var p :| p in claimed && claimed[p] == i;
    }
  }

  /** The fallback pass obeys its rule. */
  lemma FallbackPassObeys(turns: seq<Turn>, greedy: map<nat, nat>, n: nat)
    ensures IsFallback(turns, n, greedy, SecondPass(turns, greedy, n).positions)
  {
    ClaimedSoFar(turns, greedy, n);
    forall q: nat | q < n && q !in greedy
      ensures var pairs := SecondPass(turns, greedy, n).positions;
              && (q in pairs ==> FreeBehind(turns, greedy, pairs, q, pairs[q]))
              && (forall i: nat | FreeBehind(turns, greedy, pairs, q, i) :: q in pairs && pairs[q] <= i)
    {
      FallbackAt(turns, greedy, n, q);
    }
  }

  lemma {:induction false} BeforeAgrees(a: map<nat, nat>, b: map<nat, nat>, k: nat)
    requires AgreeBelow(a, b, k)
    ensures PositionBefore(a, k) == PositionBefore(b, k)
  {
    if k > 0 {
      BeforeAgrees(a, b, k - 1);
    }
  }

  lemma FreeAgrees(turns: seq<Turn>, greedy: map<nat, nat>, a: map<nat, nat>, b: map<nat, nat>, q: nat, i: nat)
    requires AgreeBelow(a, b, q)
    ensures FreeBehind(turns, greedy, a, q, i) <==> FreeBehind(turns, greedy, b, q, i)
  {
    BeforeAgrees(a, b, q);
  }

  lemma FallbackAgreesAt(turns: seq<Turn>, n: nat, greedy: map<nat, nat>, a: map<nat, nat>, b: map<nat, nat>, q: nat)
    requires IsFallback(turns, n, greedy, a) && IsFallback(turns, n, greedy, b) && q < n && AgreeBelow(a, b, q)
    ensures q in a ==> q in b && b[q] <= a[q]
  {
    if q in a && q !in greedy {
      FreeAgrees(turns, greedy, a, b, q, a[q]);
    }
  }

  lemma AgreeBySymmetry(a: map<nat, nat>, b: map<nat, nat>, q: nat)
    requires AgreeBelow(a, b, q)
    ensures AgreeBelow(b, a, q)
    ensures (q in a ==> q in b && b[q] <= a[q]) && (q in b ==> q in a && a[q] <= b[q]) ==> AgreeBelow(a, b, q + 1)
  {
  }

  lemma FallbackAgreesStep(turns: seq<Turn>, n: nat, greedy: map<nat, nat>, a: map<nat, nat>, b: map<nat, nat>, q: nat)
    requires IsFallback(turns, n, greedy, a) && IsFallback(turns, n, greedy, b) && q < n && AgreeBelow(a, b, q)
    ensures AgreeBelow(a, b, q + 1)
  {
    AgreeBySymmetry(a, b, q);
    FallbackAgreesAt(turns, n, greedy, a, b, q);
    FallbackAgreesAt(turns, n, greedy, b, a, q);
  }

  lemma {:induction false} FallbackAgrees(turns: seq<Turn>, n: nat, greedy: map<nat, nat>, a: map<nat, nat>, b: map<nat, nat>, k: nat)
    requires IsFallback(turns, n, greedy, a) && IsFallback(turns, n, greedy, b) && k <= n
    ensures AgreeBelow(a, b, k)
  {
    if k > 0 {
      FallbackAgrees(turns, n, greedy, a, b, k - 1);
      FallbackAgreesStep(turns, n, greedy, a, b, k - 1);
    }
  }

  lemma FallbackIsUnique(turns: seq<Turn>, n: nat, greedy: map<nat, nat>, a: map<nat, nat>, b: map<nat, nat>)
    requires IsFallback(turns, n, greedy, a) && IsFallback(turns, n, greedy, b) && forall g | g in greedy :: g < n
    ensures a == b
  {
    FallbackAgrees(turns, n, greedy, a, b, n);
    AgreementIsEquality(a, b, n);
  }

  /** Maps that obey the rules are the pairing. */
  lemma RulesGiveThePairing(asks: Asking, turns: seq<Turn>, n: nat, greedy: map<nat, nat>, pairs: map<nat, nat>)
    requires IsGreedy(asks, turns, n, greedy) && IsFallback(turns, n, greedy, pairs)
    ensures greedy == FirstPass(asks, turns, n).positions && pairs == Positions(asks, turns, n)
  {
    GreedyPassObeys(asks, turns, n);
    GreedyIsUnique(asks, turns, n, greedy, FirstPass(asks, turns, n).positions);
    FallbackPassObeys(turns, greedy, n);
    FallbackIsUnique(turns, n, greedy, pairs, Positions(asks, turns, n));
  }

  // ---------- answers ----------

  /** Where the answer to question `q` ends: at the next turn paired, or with the log. */
  ghost predicate EndsAt(turns: seq<Turn>, pairs: map<nat, nat>, q: nat, end: nat)
    requires q in pairs
  {
    && pairs[q] < end <= |turns| && (end == |turns| || exists p :: p in pairs && pairs[p] == end)
    && forall p | p in pairs :: pairs[p] <= pairs[q] || end <= pairs[p]
  }

  /**
    Whatever was missed: each question paired by the rules, the recognised ones with their own turns
    among them, is scored on what is said from its turn to the next turn paired, and the others on
    nothing, once anything is paired at all.
  */
  lemma AnswersFollowTheRules(space: char -> bool, asks: Asking, turns: seq<Turn>, n: nat,
                              greedy: map<nat, nat>, pairs: map<nat, nat>, q: nat)
    requires IsGreedy(asks, turns, n, greedy) && IsFallback(turns, n, greedy, pairs) && pairs != map[]
    ensures q in greedy ==> q in pairs && pairs[q] == greedy[q]
    ensures q !in pairs ==> AnswerFor(PairedAnswers(space, asks, turns, n), q) == ""
    ensures forall end: nat | q in pairs && EndsAt(turns, pairs, q, end) ::
              AnswerFor(PairedAnswers(space, asks, turns, n), q) == Spoken(space, turns[pairs[q] + 1..end])
  {
    RulesGiveThePairing(asks, turns, n, greedy, pairs);
    EachQuestionGetsItsOwnAnswer(space, asks, turns, n, q);
    forall end: nat | q in pairs && EndsAt(turns, pairs, q, end)
      ensures OwnAnswer(space, turns, pairs, q) == Spoken(space, turns[pairs[q] + 1..end])
    {
      OwnAnswerEndsThere(space, turns, pairs, q, end);
    }
  }

  lemma OwnAnswerEndsThere(space: char -> bool, turns: seq<Turn>, pairs: map<nat, nat>, q: nat, end: nat)
    requires q in pairs && EndsAt(turns, pairs, q, end)
    ensures OwnAnswer(space, turns, pairs, q) == Spoken(space, turns[pairs[q] + 1..end])
  {
    if end < |turns| {
      var p :| p in pairs && pairs[p] == end;
    }
    NextClaimedIs(turns, pairs, pairs[q] + 1, end);
  }

  /** There is always such an end. */
  lemma AnswersEnd(asks: Asking, turns: seq<Turn>, n: nat, q: nat) returns (end: nat)
    requires q in Positions(asks, turns, n)
    ensures EndsAt(turns, Positions(asks, turns, n), q, end)
  {
    var pairs := Positions(asks, turns, n);
    PositionsAreDistinctAgentTurns(asks, turns, n);
    end := NextClaimed(turns, pairs, pairs[q] + 1);
    forall p | p in pairs
      ensures pairs[p] <= pairs[q] || end <= pairs[p]
    {
      assert pairs[p] in pairs.Values;
    }
  }

  /**
    Question 1 never comes up and question 2 does: question 2 keeps the turn at which it is asked, and
    question 1 gets the agent's first remark.
  */
  lemma MissedQuestionIsPassedOver(asks: Asking, turns: seq<Turn>)
    requires |turns| == 8 && forall i | 0 <= i < 8 :: turns[i].speaker == if i % 2 == 0 then "agent" else "candidate"
    requires forall q: nat, i: nat :: asks(q, i) <==> (q == 0 && i == 0) || (q == 2 && i == 6)
    ensures Positions(asks, turns, 3) == map[0 := 0, 1 := 2, 2 := 6]
  {
    var greedy: map<nat, nat> := map[0 := 0, 2 := 6];
    var pairs: map<nat, nat> := map[0 := 0, 1 := 2, 2 := 6];
    assert IsGreedy(asks, turns, 3, greedy);
    assert PositionBefore(pairs, 0) == -1 && PositionBefore(pairs, 1) == 0;
    assert greedy[0] == 0 && greedy[2] == 6;
    assert IsFallback(turns, 3, greedy, pairs);
    RulesGiveThePairing(asks, turns, 3, greedy, pairs);
  }

  // ---------- what is said in an answer ----------

  /**
    The texts of an answer are those of the candidate's turns that say anything, each once and in order:
    turn by turn one more text, or none.
  */
  lemma TextsTurnByTurn(turns: seq<Turn>, u: nat)
    requires u < |turns|
    ensures CandidateTexts(turns[..0]) == [] && turns[..|turns|] == turns
    ensures CandidateTexts(turns[..u + 1]) == CandidateTexts(turns[..u]) + if Speaks(turns, u) then [turns[u].text] else []
  {
    assert turns[..u + 1] == turns[..u] + [turns[u]];
    CandidateTextsSplit(turns[..u], [turns[u]]);
    assert [turns[u]][1..] == [];
  }

  /** The candidate's texts have no space at their ends and are not empty. */
  ghost predicate Tidy(space: char -> bool, turns: seq<Turn>) {
    forall s | s in CandidateTexts(turns) :: s != "" && Trimmed(space, s)
  }

  lemma {:induction false} JoinSplits(a: seq<string>, b: seq<string>)
    requires a != [] && b != []
    ensures Join(" ", a + b) == Join(" ", a) + " " + Join(" ", b)
  {
    if |a| == 1 {
      assert (a + b)[1..] == b && a + b == [a[0]] + b;
    } else {
      assert (a + b)[1..] == a[1..] + b;
      JoinSplits(a[1..], b);
    }
  }

  lemma {:induction false} JoinIsTrimmed(space: char -> bool, a: seq<string>)
    requires a != [] && forall s | s in a :: s != "" && Trimmed(space, s)
    ensures Join(" ", a) != "" && Trimmed(space, Join(" ", a)) && Strip(space, Join(" ", a)) == Join(" ", a)
  {
    if |a| > 1 {
      assert forall s | s in a[1..] :: s in a;
      JoinIsTrimmed(space, a[1..]);
    }
    assert a[0] in a;
    var all := Join(" ", a);
    StripUndoesPadding(space, "", all, "");
    assert "" + all + "" == all;
  }

  /** Space is taken off both ends of an answer, and nothing else. */
  lemma AnswerIsTrimmed(space: char -> bool, turns: seq<Turn>) returns (left: string, right: string)
    ensures Trimmed(space, Spoken(space, turns))
    ensures Join(" ", CandidateTexts(turns)) == left + Spoken(space, turns) + right && forall c | c in left + right :: space(c)
  {
    left, right := StripDrops(space, Join(" ", CandidateTexts(turns)));
  }

  /** Tidy replies are put together as they are, with one blank between neighbours. */
  lemma RepliesAreJoined(space: char -> bool, first: seq<Turn>, more: seq<Turn>)
    requires Tidy(space, first) && Tidy(space, more)
    ensures CandidateTexts(first) == [] ==> Spoken(space, first) == "" && Spoken(space, first + more) == Spoken(space, more)
    ensures CandidateTexts(more) == [] ==> Spoken(space, first + more) == Spoken(space, first)
    ensures |CandidateTexts(first)| == 1 ==> Spoken(space, first) == CandidateTexts(first)[0]
    ensures CandidateTexts(first) != [] && CandidateTexts(more) != [] ==>
              Spoken(space, first + more) == Spoken(space, first) + " " + Spoken(space, more)
  {
    var a, b := CandidateTexts(first), CandidateTexts(more);
    CandidateTextsSplit(first, more);
    assert [] + b == b && a + [] == a;
    if a != [] {
      JoinIsTrimmed(space, a);
    }
    if b != [] {
      JoinIsTrimmed(space, b);
    }
    if a != [] && b != [] {
      JoinSplits(a, b);
      JoinIsTrimmed(space, a + b);
    }
  }
}
