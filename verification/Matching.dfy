/**
  Does an agent turn ask a given question?  The cleaned texts are compared by containment, then by
  word overlap, then by a similarity measure that is a parameter here.
*/
module Matching {
  import opened Text

  /** A character table and the verdict "similarity at least one half" of the sequence matcher. */
  datatype Matcher = Matcher(abc: Alphabet, similar: (string, string) -> bool)

  function Kept(abc: Alphabet): char -> bool {
    c => abc.word(c) || abc.space(c)
  }

  /** Lowercase, drop what is neither a word character nor a space, strip. */
  function Clean(abc: Alphabet, s: string): string {
    Strip(abc.space, Filter(Kept(abc), Lower(abc, s)))
  }

  predicate IsQuestionMatch(m: Matcher, question: string, turn: string) {
    var q, t := Clean(m.abc, question), Clean(m.abc, turn);
    q != "" && t != "" &&
    (Contains(t, q) || Contains(q, t) || OverlapsByHalf(m.abc, q, t) || m.similar(q, t))
  }

  /** At least half of the words of `q` occur in `t`. */
  predicate OverlapsByHalf(abc: Alphabet, q: string, t: string) {
    var qWords, tWords := Words(abc.space, q), Words(abc.space, t);
    qWords != {} && 2 * |qWords * tWords| >= |qWords|
  }

  /** What the reconstruction needs to know: what a blank is, and which texts are taken for which question. */
  datatype Recogniser = Recogniser(space: char -> bool, takes: (string, string) -> bool)

  function RecogniserOf(m: Matcher): Recogniser {
    Recogniser(m.abc.space, (question, turn) => IsQuestionMatch(m, question, turn))
  }

  /** Stripping keeps containment. */
  lemma StrippingKeepsContainment(space: char -> bool, a: string, q: string, b: string)
    requires Strip(space, q) != ""
    ensures Contains(Strip(space, a + q + b), Strip(space, q))
  {
    var core := Strip(space, q);
    var left, right := StripDrops(space, q);
    assert a + q + b == (a + left) + core + (right + b);
    StripKeepsCore(space, a + left, core, right + b);
    ContainsMiddle(StripLeft(space, a + left), core, StripRight(space, right + b));
  }

  /** Filtering keeps containment, and so do filtering and stripping together. */
  lemma CleaningKeepsContainment(keep: char -> bool, space: char -> bool, a: string, q: string, b: string)
    requires Strip(space, Filter(keep, q)) != ""
    ensures Contains(Strip(space, Filter(keep, a + q + b)), Strip(space, Filter(keep, q)))
  {
    FilterSplits(keep, a + q, b);
    FilterSplits(keep, a, q);
    StrippingKeepsContainment(space, Filter(keep, a), Filter(keep, q), Filter(keep, b));
  }

  /**
    A question spoken verbatim inside a turn is recognised, whatever stands around it, provided
    none of its capital sigmas changes form there.
  */
  lemma VerbatimSpeechMatches(m: Matcher, before: string, question: string, after: string)
    requires Clean(m.abc, question) != ""
    requires SigmaStable(m.abc, before, question, after)
    ensures IsQuestionMatch(m, question, before + question + after)
  {
    LowerInPlace(m.abc, before, question, after);
    CleaningKeepsContainment(Kept(m.abc), m.abc.space, LowerWithin(m.abc, "", before, question + after),
                             Lower(m.abc, question), LowerWithin(m.abc, before + question, after, ""));
    assert Contains("", Clean(m.abc, question)) ==> Clean(m.abc, question) == "";
  }

  /** Without a capital sigma there is no proviso. */
  lemma VerbatimSpeechWithoutSigmaMatches(m: Matcher, before: string, question: string, after: string)
    requires Clean(m.abc, question) != "" && SIGMA !in question
    ensures IsQuestionMatch(m, question, before + question + after)
  {
    NoSigmaAgrees(m.abc, before, "", question, after);
    VerbatimSpeechMatches(m, before, question, after);
  }

  const ALPHA: char := '\U{0391}'
  const SMALL_ALPHA: char := '\U{03B1}'

  /** A table of Greek letters: everything but the blank is a cased word character. */
  function GreekAlphabet(): Alphabet {
    Alphabet(c => c != ' ', c => c == ' ', c => if c == ALPHA then [SMALL_ALPHA] else [c], c => c != ' ', c => false)
  }

  /** A closing sigma takes its final form, a sigma before a letter does not. */
  lemma GreekLowercase()
    ensures var abc := GreekAlphabet();
            Lower(abc, [ALPHA, SIGMA]) == [SMALL_ALPHA, FINAL_SIGMA] &&
            Lower(abc, [ALPHA, SIGMA, ALPHA]) == [SMALL_ALPHA, MEDIAL_SIGMA, SMALL_ALPHA] &&
            LowerWithin(abc, "", [ALPHA, SIGMA], [ALPHA]) == [SMALL_ALPHA, MEDIAL_SIGMA]
  {
    var abc := GreekAlphabet();
    assert "" + [ALPHA] == [ALPHA] && [ALPHA, SIGMA][1..] == [SIGMA] && [SIGMA][1..] == "";
    assert LowerWithin(abc, [ALPHA], [SIGMA], "") == [FINAL_SIGMA];
    assert [SIGMA][1..] + [ALPHA] == [ALPHA];
    assert LowerWithin(abc, [ALPHA], [SIGMA], [ALPHA]) == [MEDIAL_SIGMA];
    assert [ALPHA, SIGMA, ALPHA][1..] == [SIGMA, ALPHA] && [SIGMA, ALPHA][1..] == [ALPHA] && [ALPHA][1..] == "";
    assert LowerWithin(abc, [ALPHA] + [SIGMA], [ALPHA], "") == [SMALL_ALPHA];
    assert LowerWithin(abc, [ALPHA], [SIGMA, ALPHA], "") == [MEDIAL_SIGMA] + [SMALL_ALPHA];
  }

  /** The proviso is needed: alpha-sigma is not recognised inside alpha-sigma-alpha. */
  lemma FinalSigmaDefeatsVerbatimSpeech()
    ensures var m := Matcher(GreekAlphabet(), (q, t) => false);
            Clean(m.abc, [ALPHA, SIGMA]) != "" && !SigmaStable(m.abc, "", [ALPHA, SIGMA], [ALPHA]) &&
            !IsQuestionMatch(m, [ALPHA, SIGMA], [ALPHA, SIGMA, ALPHA])
  {
    var abc := GreekAlphabet();
    GreekLowercase();
    var q, t := [SMALL_ALPHA, FINAL_SIGMA], [SMALL_ALPHA, MEDIAL_SIGMA, SMALL_ALPHA];
    assert Clean(abc, [ALPHA, SIGMA]) == q && Words(abc.space, q) == {q} by {
      CleanKeepsWord(abc, q);
      SingleWord(abc, q);
    }
    assert Clean(abc, [ALPHA, SIGMA, ALPHA]) == t && Words(abc.space, t) == {t} by {
      CleanKeepsWord(abc, t);
      SingleWord(abc, t);
    }
    NotContained(q, t);
    assert {q} * {t} == {} && |{q}| == 1;
    LowerInPlace(abc, "", [ALPHA, SIGMA], [ALPHA]);
  }

  lemma NotContained(q: string, t: string)
    requires |q| == 2 && |t| == 3 && q[1] != t[1] && q[1] != t[2]
    ensures !Contains(t, q) && !Contains(q, t)
  {
    forall i: nat
      ensures !OccursAt(t, q, i)
    {
      if i + 2 <= 3 {
        assert t[i..i + 2][1] == t[i + 1];
      }
    }
  }

  /** A blank-free text of table characters survives filtering and stripping. */
  lemma {:induction false} CleanKeepsWord(abc: Alphabet, s: string)
    requires forall c | c in s :: Kept(abc)(c) && !abc.space(c)
    ensures Filter(Kept(abc), s) == s && Strip(abc.space, s) == s
  {
    if s != "" {
      CleanKeepsWord(abc, s[1..]);
      assert s == [s[0]] + s[1..];
    }
  }

  /** A non-empty text without blanks is its own only word. */
  lemma {:induction false} SingleWord(abc: Alphabet, s: string)
    requires s != "" && forall c | c in s :: !abc.space(c)
    ensures WordLength(abc.space, s) == |s| && Words(abc.space, s) == {s}
  {
    if |s| > 1 {
      SingleWord(abc, s[1..]);
    } else {
      assert s[1..] == "";
    }
    assert WordLength(abc.space, s) == |s|;
    assert s[..|s|] == s && s[|s|..] == "";
  }
}
