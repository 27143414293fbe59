/** Which questions keep the form of their capital sigmas wherever they are spoken. */
module SigmaForms {
  import opened Text
  import opened Matching

  predicate AllIgnorable(abc: Alphabet, s: string) {
    forall c | c in s :: abc.ignorable(c)
  }

  /**
    Each capital sigma knows its form from the text itself: if nothing but ignorable characters stands
    before it a cased one follows, and if nothing else stands behind it no cased one precedes.
  */
  predicate Settled(abc: Alphabet, q: string) {
    forall j | 0 <= j < |q| && q[j] == SIGMA :: SettledAt(abc, q[..j], q[j + 1..])
  }

  predicate SettledAt(abc: Alphabet, before: string, after: string) {
    && (AllIgnorable(abc, before) ==> StartsCased(abc, after))
    && (AllIgnorable(abc, after) ==> !EndsCased(abc, before))
  }

  /** Text in front matters only when all that follows it is ignorable. */
  lemma {:induction false} EndsCasedBehind(abc: Alphabet, front: string, s: string)
    ensures EndsCased(abc, front + s) == if AllIgnorable(abc, s) then EndsCased(abc, front) else EndsCased(abc, s)
    decreases |s|
  {
    if s == "" {
      assert front + s == front;
    } else {
      var last := s[|s| - 1];
      var rest := s[..|s| - 1];
      assert s == rest + [last];
      assert (front + s)[..|front + s| - 1] == front + rest && (front + s)[|front + s| - 1] == last;
      if abc.ignorable(last) {
        EndsCasedBehind(abc, front, rest);
        assert AllIgnorable(abc, s) <==> AllIgnorable(abc, rest);
      } else {
        assert last in s;
      }
    }
  }

  lemma {:induction false} StartsCasedBefore(abc: Alphabet, s: string, back: string)
    ensures StartsCased(abc, s + back) == if AllIgnorable(abc, s) then StartsCased(abc, back) else StartsCased(abc, s)
    decreases |s|
  {
    if s == "" {
      assert s + back == back;
    } else {
      assert s == [s[0]] + s[1..];
      assert (s + back)[1..] == s[1..] + back && (s + back)[0] == s[0];
      if abc.ignorable(s[0]) {
        StartsCasedBefore(abc, s[1..], back);
        assert AllIgnorable(abc, s) <==> AllIgnorable(abc, s[1..]);
      } else {
        assert s[0] in s;
      }
    }
  }

  lemma IgnorableDecidesNothing(abc: Alphabet, s: string)
    ensures AllIgnorable(abc, s) ==> !EndsCased(abc, s) && !StartsCased(abc, s)
  {
    EndsCasedBehind(abc, "", s);
    StartsCasedBefore(abc, s, "");
    assert "" + s == s && s + "" == s;
  }

  /** The sigma between `p` and `s` takes the same form in the surroundings as alone. */
  predicate SameForm(abc: Alphabet, x: string, y: string, p: string, s: string, after: string) {
    FinalPosition(abc, x + p, s + after) <==> FinalPosition(abc, y + p, s)
  }

  /** The recursive definition, sigma by sigma. */
  lemma {:induction false} SigmaAgreesIff(abc: Alphabet, x: string, y: string, s: string, after: string)
    ensures SigmaAgrees(abc, x, y, s, after)
            <==> forall j | 0 <= j < |s| && s[j] == SIGMA :: SameForm(abc, x, y, s[..j], s[j + 1..], after)
    decreases |s|
  {
    if s != "" {
      var c, rest := s[0], s[1..];
      SigmaAgreesIff(abc, x + [c], y + [c], rest, after);
      assert s[..0] == "" && x + "" == x && y + "" == y;
      assert c == SIGMA ==> (SameForm(abc, x, y, s[..0], s[0 + 1..], after)
                             <==> (FinalPosition(abc, x, rest + after) <==> FinalPosition(abc, y, rest)));
      forall j | 0 <= j < |rest|
        ensures rest[j] == s[j + 1]
        ensures SameForm(abc, x + [c], y + [c], rest[..j], rest[j + 1..], after) == SameForm(abc, x, y, s[..j + 1], s[j + 2..], after)
      {
        Shifted(abc, x, y, s, after, j);
      }
      if forall j | 0 <= j < |s| && s[j] == SIGMA :: SameForm(abc, x, y, s[..j], s[j + 1..], after) {
        forall j | 0 <= j < |rest| && rest[j] == SIGMA
          ensures SameForm(abc, x + [c], y + [c], rest[..j], rest[j + 1..], after)
        {
          assert s[j + 1] == SIGMA && SameForm(abc, x, y, s[..j + 1], s[j + 1 + 1..], after);
        }
      }
      if SigmaAgrees(abc, x, y, s, after) {
        forall j | 0 <= j < |s| && s[j] == SIGMA
          ensures SameForm(abc, x, y, s[..j], s[j + 1..], after)
        {
          if j > 0 {
            assert rest[j - 1] == SIGMA && SameForm(abc, x + [c], y + [c], rest[..j - 1], rest[j - 1 + 1..], after);
          }
        }
      }
    }
  }

  lemma Shifted(abc: Alphabet, x: string, y: string, s: string, after: string, j: nat)
    requires j + 1 < |s|
    ensures s[1..][j] == s[j + 1]
    ensures SameForm(abc, x + [s[0]], y + [s[0]], s[1..][..j], s[1..][j + 1..], after)
         == SameForm(abc, x, y, s[..j + 1], s[j + 2..], after)
  {
    assert s[1..][j + 1..] == s[j + 2..];
    assert x + [s[0]] + s[1..][..j] == x + s[..j + 1];
    assert y + [s[0]] + s[1..][..j] == y + s[..j + 1];
  }

  lemma SettledKeepsForm(abc: Alphabet, before: string, p: string, s: string, after: string)
    requires SettledAt(abc, p, s)
    ensures SameForm(abc, before, "", p, s, after)
  {
    EndsCasedBehind(abc, before, p);
    StartsCasedBefore(abc, s, after);
    IgnorableDecidesNothing(abc, p);
    IgnorableDecidesNothing(abc, s);
    assert "" + p == p;
  }

  /** A sigma that is not settled changes its form next to another one. */
  lemma UnsettledChangesForm(abc: Alphabet, p: string, s: string)
    requires abc.cased(SIGMA) && !abc.ignorable(SIGMA) && !SettledAt(abc, p, s)
    ensures !SameForm(abc, [SIGMA], "", p, s, "") || !SameForm(abc, "", "", p, s, [SIGMA])
  {
    EndsCasedBehind(abc, [SIGMA], p);
    StartsCasedBefore(abc, s, [SIGMA]);
    IgnorableDecidesNothing(abc, p);
    IgnorableDecidesNothing(abc, s);
    assert "" + p == p && s + "" == s;
    assert EndsCased(abc, [SIGMA]) && StartsCased(abc, [SIGMA]);
  }

  /** A text keeps the form of its capital sigmas in all surroundings exactly when each of them is settled. */
  lemma StableEverywhereIff(abc: Alphabet, q: string)
    requires abc.cased(SIGMA) && !abc.ignorable(SIGMA)
    ensures (forall before, after :: SigmaStable(abc, before, q, after)) <==> Settled(abc, q)
  {
    if Settled(abc, q) {
      forall before, after
        ensures SigmaStable(abc, before, q, after)
      {
        SettledIsStable(abc, before, q, after);
      }
    } else {
      var j :| 0 <= j < |q| && q[j] == SIGMA && !SettledAt(abc, q[..j], q[j + 1..]);
      UnsettledChangesForm(abc, q[..j], q[j + 1..]);
      SigmaAgreesIff(abc, [SIGMA], "", q, "");
      SigmaAgreesIff(abc, "", "", q, [SIGMA]);
      assert !SigmaStable(abc, [SIGMA], q, "") || !SigmaStable(abc, "", q, [SIGMA]);
    }
  }

  lemma SettledIsStable(abc: Alphabet, before: string, q: string, after: string)
    requires Settled(abc, q)
    ensures SigmaStable(abc, before, q, after)
  {
    SigmaAgreesIff(abc, before, "", q, after);
    forall j | 0 <= j < |q| && q[j] == SIGMA
      ensures SameForm(abc, before, "", q[..j], q[j + 1..], after)
    {
      SettledKeepsForm(abc, before, q[..j], q[j + 1..], after);
    }
  }

  /** A settled question is recognised in every turn that contains it verbatim. */
  lemma SettledQuestionMatches(m: Matcher, before: string, question: string, after: string)
    requires Clean(m.abc, question) != "" && Settled(m.abc, question)
    ensures IsQuestionMatch(m, question, before + question + after)
  {
    SettledIsStable(m.abc, before, question, after);
    VerbatimSpeechMatches(m, before, question, after);
  }
}
