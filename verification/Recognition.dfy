/**
  When is a question recognised wherever it is spoken verbatim, whatever the similarity measure says?
  Either its capital sigmas keep their form in all surroundings, or at least half of its words stand
  between two spaces, out of reach of what is said around it.
*/
module Recognition {
  import opened Text
  import opened Matching
  import opened SigmaForms

  /** What any table of characters does with sigmas and spaces. */
  ghost predicate Regular(abc: Alphabet) {
    && abc.cased(SIGMA) && !abc.ignorable(SIGMA) && !abc.space(SIGMA)
    && abc.word(FINAL_SIGMA) && !abc.space(FINAL_SIGMA) && abc.word(MEDIAL_SIGMA) && !abc.space(MEDIAL_SIGMA)
    && (forall c | abc.space(c) :: !abc.cased(c) && !abc.ignorable(c) && abc.lower(c) == [c])
    && (forall c, d | d in abc.lower(c) && abc.space(d) :: abc.space(c))
  }

  /** A small letter. */
  ghost predicate IsLetter(abc: Alphabet, x: char) {
    x != SIGMA && abc.word(x) && !abc.space(x) && abc.cased(x) && !abc.ignorable(x) && abc.lower(x) == [x]
  }

  /** The table of `FinalSigmaDefeatsVerbatimSpeech` is one of these. */
  lemma GreekIsRegular()
    ensures Regular(GreekAlphabet()) && IsLetter(GreekAlphabet(), 'x')
  {
  }

  // ---------- the part between the first space and the last ----------

  /** The text up to its last space. */
  function UpToLastSpace(space: char -> bool, s: string): string {
    if s == "" || space(s[|s| - 1]) then s else UpToLastSpace(space, s[..|s| - 1])
  }

  /** The text from its first space to its last. */
  function Inner(space: char -> bool, s: string): string {
    UpToLastSpace(space, s[WordLength(space, s)..])
  }

  ghost predicate NoSpace(space: char -> bool, s: string) {
    forall c | c in s :: !space(c)
  }

  /** Empty, or a space at both ends. */
  predicate Sheltered(space: char -> bool, s: string) {
    s != "" ==> space(s[0]) && space(s[|s| - 1])
  }

  lemma {:induction false} WordLengthStops(space: char -> bool, s: string)
    ensures var n := WordLength(space, s); NoSpace(space, s[..n]) && (n < |s| ==> space(s[n]))
  {
    if s != "" && !space(s[0]) {
      WordLengthStops(space, s[1..]);
      assert s[..WordLength(space, s)] == [s[0]] + s[1..][..WordLength(space, s[1..])];
    }
  }

  lemma {:induction false} LastSpaceStops(space: char -> bool, s: string) returns (tail: string)
    requires s != "" ==> space(s[0])
    ensures s == UpToLastSpace(space, s) + tail && NoSpace(space, tail) && Sheltered(space, UpToLastSpace(space, s))
    ensures UpToLastSpace(space, s) == "" ==> tail == ""
    decreases |s|
  {
    if s == "" || space(s[|s| - 1]) {
      tail := "";
    } else {
      tail := LastSpaceStops(space, s[..|s| - 1]);
      tail := tail + [s[|s| - 1]];
    }
  }

  /** A text is a space-free start, its inner part, and a space-free end, which is empty if there is no space at all. */
  lemma InnerStands(space: char -> bool, s: string) returns (a: string, c: string)
    ensures s == a + Inner(space, s) + c && NoSpace(space, a) && NoSpace(space, c) && Sheltered(space, Inner(space, s))
    ensures Inner(space, s) == "" ==> c == ""
  {
    WordLengthStops(space, s);
    a := s[..WordLength(space, s)];
    c := LastSpaceStops(space, s[WordLength(space, s)..]);
  }

  // ---------- the words of texts put together ----------

  lemma {:induction false} WordLengthOf(space: char -> bool, s: string, t: string)
    requires WordLength(space, s) < |s| || t == "" || space(t[0])
    ensures WordLength(space, s + t) == WordLength(space, s)
  {
    if s == "" {
      assert s + t == t;
    } else {
      assert (s + t)[1..] == s[1..] + t;
      if !space(s[0]) {
        WordLengthOf(space, s[1..], t);
      }
    }
  }

  /** A space where two texts meet keeps their words apart. */
  lemma {:induction false} WordsApart(space: char -> bool, s: string, t: string)
    requires t == "" || space(t[0]) || s == "" || space(s[|s| - 1])
    ensures Words(space, s + t) == Words(space, s) + Words(space, t)
    decreases |s|
  {
    if s == "" {
      assert s + t == t;
    } else {
      var n := WordLength(space, s);
      WordLengthStops(space, s);
      assert n == |s| ==> s[|s| - 1] in s[..n];
      WordLengthOf(space, s, t);
      var k := if n == 0 then 1 else n;
      assert (s + t)[k..] == s[k..] + t && (n > 0 ==> (s + t)[..n] == s[..n]);
      WordsApart(space, s[k..], t);
    }
  }

  lemma {:induction false} NoWords(space: char -> bool, s: string)
    requires forall c | c in s :: space(c)
    ensures Words(space, s) == {}
  {
    if s != "" {
      assert s[0] in s;
      NoWords(space, s[1..]);
    }
  }

  lemma WordsOfStripped(space: char -> bool, s: string)
    ensures Words(space, Strip(space, s)) == Words(space, s)
  {
    var left, right := StripDrops(space, s);
    var core := Strip(space, s);
    assert forall c | c in left :: c in left + right;
    assert forall c | c in right :: c in left + right;
    NoWords(space, left);
    NoWords(space, right);
    assert left != "" ==> left[|left| - 1] in left;
    assert right != "" ==> right[0] in right;
    WordsApart(space, left, core);
    WordsApart(space, left + core, right);
  }

  /** Around a sheltered text. */
  lemma WordsAround(space: char -> bool, a: string, s: string, c: string)
    requires Sheltered(space, s) && s != ""
    ensures Words(space, a + s + c) == Words(space, a) + Words(space, s) + Words(space, c)
  {
    WordsApart(space, a, s);
    assert (a + s)[|a + s| - 1] == s[|s| - 1];
    WordsApart(space, a + s, c);
  }

  lemma {:induction false} WordsAreMadeOf(space: char -> bool, s: string, x: char, w: string)
    requires w in Words(space, s) && x !in s
    ensures x !in w
    decreases |s|
  {
    var n := WordLength(space, s);
    if n == 0 {
      WordsAreMadeOf(space, s[1..], x, w);
    } else if w != s[..n] {
      WordsAreMadeOf(space, s[n..], x, w);
    }
  }

  lemma OneWord(space: char -> bool, s: string)
    requires NoSpace(space, s)
    ensures Words(space, s) == if s == "" then {} else {s}
  {
    if s != "" {
      var abc := Alphabet(c => true, space, c => [c], c => true, c => true);
      SingleWord(abc, s);
    }
  }

  lemma WordsThere(space: char -> bool, s: string)
    requires s != "" && !space(s[0])
    ensures Words(space, s) != {}
  {
    assert s[..WordLength(space, s)] in Words(space, s);
  }

  // ---------- lowercasing and filtering in place ----------

  /** `s` lowercased where it stands, without what is neither a word character nor a space. */
  function Cleared(abc: Alphabet, before: string, s: string, after: string): string {
    Filter(Kept(abc), LowerWithin(abc, before, s, after))
  }

  lemma ClearedSplits(abc: Alphabet, before: string, s: string, t: string, after: string)
    ensures Cleared(abc, before, s + t, after) == Cleared(abc, before, s, t + after) + Cleared(abc, before + s, t, after)
  {
    LowerSplits(abc, before, s, t, after);
    FilterSplits(Kept(abc), LowerWithin(abc, before, s, t + after), LowerWithin(abc, before + s, t, after));
  }

  lemma ClearedHead(abc: Alphabet, before: string, s: string, after: string)
    requires s != ""
    ensures Cleared(abc, before, s, after)
         == Filter(Kept(abc), LowerChar(abc, before, s[0], s[1..] + after)) + Cleared(abc, before + [s[0]], s[1..], after)
  {
    FilterSplits(Kept(abc), LowerChar(abc, before, s[0], s[1..] + after), LowerWithin(abc, before + [s[0]], s[1..], after));
  }

  lemma {:induction false} FilterTakes(keep: char -> bool, s: string, c: char)
    requires c in Filter(keep, s)
    ensures c in s
  {
    if !(keep(s[0]) && c == s[0]) {
      FilterTakes(keep, s[1..], c);
    }
  }

  lemma {:induction false} ClearedHasNoSpace(abc: Alphabet, before: string, s: string, after: string)
    requires Regular(abc) && NoSpace(abc.space, s)
    ensures NoSpace(abc.space, Cleared(abc, before, s, after))
    decreases |s|
  {
    if s != "" {
      ClearedHead(abc, before, s, after);
      ClearedHasNoSpace(abc, before + [s[0]], s[1..], after);
      var head := LowerChar(abc, before, s[0], s[1..] + after);
      assert s[0] in s;
      forall c | c in Filter(Kept(abc), head)
        ensures !abc.space(c)
      {
        FilterTakes(Kept(abc), head, c);
      }
    }
  }

  lemma FilterOne(keep: char -> bool, c: char)
    ensures Filter(keep, [c]) == if keep(c) then [c] else ""
  {
    assert [c][1..] == "" && Filter(keep, "") == "";
  }

  lemma LowerOne(abc: Alphabet, before: string, c: char, after: string)
    ensures LowerWithin(abc, before, [c], after) == LowerChar(abc, before, c, after)
  {
    assert [c][1..] == "" && "" + after == after && LowerWithin(abc, before + [c], "", after) == "";
  }

  lemma ClearedSpace(abc: Alphabet, before: string, c: char, after: string)
    requires Regular(abc) && abc.space(c)
    ensures Cleared(abc, before, [c], after) == [c]
  {
    LowerOne(abc, before, c, after);
    FilterOne(Kept(abc), c);
  }

  lemma ShelteredIsSettled(abc: Alphabet, s: string)
    requires Regular(abc) && Sheltered(abc.space, s)
    ensures Settled(abc, s)
  {
    forall j | 0 <= j < |s| && s[j] == SIGMA
      ensures SettledAt(abc, s[..j], s[j + 1..])
    {
      assert s[0] in s[..j] && s[|s| - 1] in s[j + 1..];
    }
  }

  lemma ShelteredEnds(abc: Alphabet, s: string)
    requires Regular(abc) && Sheltered(abc.space, s) && s != ""
    ensures Sheltered(abc.space, Cleared(abc, "", s, "")) && Cleared(abc, "", s, "") != ""
  {
    var last := |s| - 1;
    assert s == [s[0]] + s[1..] && s == s[..last] + [s[last]];
    ClearedSplits(abc, "", [s[0]], s[1..], "");
    ClearedSpace(abc, "", s[0], s[1..] + "");
    ClearedSplits(abc, "", s[..last], [s[last]], "");
    ClearedSpace(abc, "" + s[..last], s[last], "");
  }

  /** What stands between two spaces is lowercased alike in all surroundings, and stays between them. */
  lemma ShelteredStays(abc: Alphabet, before: string, s: string, after: string)
    requires Regular(abc) && Sheltered(abc.space, s)
    ensures Cleared(abc, before, s, after) == Cleared(abc, "", s, "")
    ensures Sheltered(abc.space, Cleared(abc, "", s, "")) && (s != "" ==> Cleared(abc, "", s, "") != "")
  {
    ShelteredIsSettled(abc, s);
    SettledIsStable(abc, before, s, after);
    LowerInPlace(abc, before, s, after);
    if s != "" {
      ShelteredEnds(abc, s);
    }
  }

  /** The texts differ at most in characters that are no spaces. */
  ghost predicate SpacedAlike(space: char -> bool, e: string, f: string) {
    |e| == |f| && forall k | 0 <= k < |e| :: e[k] == f[k] || (!space(e[k]) && !space(f[k]))
  }

  lemma SpacedAlikeTogether(space: char -> bool, e: string, f: string, e': string, f': string)
    requires SpacedAlike(space, e, f) && SpacedAlike(space, e', f')
    ensures SpacedAlike(space, e + e', f + f') && (e + e' == f + f' <==> e == f && e' == f')
  {
    if e + e' == f + f' {
      assert e == (e + e')[..|e|] && e' == (e + e')[|e|..];
      assert f == (f + f')[..|f|] && f' == (f + f')[|f|..];
    }
  }

  /** The form of one character shows. */
  lemma FormShows(abc: Alphabet, x: string, y: string, c: char, rest: string, after: string)
    requires Regular(abc)
    ensures var here, alone := Filter(Kept(abc), LowerChar(abc, x, c, rest + after)), Filter(Kept(abc), LowerChar(abc, y, c, rest));
            && SpacedAlike(abc.space, here, alone)
            && (here == alone <==> (c == SIGMA ==> (FinalPosition(abc, x, rest + after) <==> FinalPosition(abc, y, rest))))
  {
    if c == SIGMA {
      FilterOne(Kept(abc), FINAL_SIGMA);
      FilterOne(Kept(abc), MEDIAL_SIGMA);
    }
  }

  /** Where a text is cleared in two surroundings, only the forms of sigmas can differ, and they show. */
  lemma {:induction false} FormsShow(abc: Alphabet, x: string, y: string, s: string, after: string)
    requires Regular(abc)
    ensures SpacedAlike(abc.space, Cleared(abc, x, s, after), Cleared(abc, y, s, ""))
    ensures Cleared(abc, x, s, after) == Cleared(abc, y, s, "") <==> SigmaAgrees(abc, x, y, s, after)
    decreases |s|
  {
    if s != "" {
      var c, rest := s[0], s[1..];
      FormsShow(abc, x + [c], y + [c], rest, after);
      FormShows(abc, x, y, c, rest, after);
      ClearedHead(abc, x, s, after);
      ClearedHead(abc, y, s, "");
      assert rest + "" == rest;
      SpacedAlikeTogether(abc.space, Filter(Kept(abc), LowerChar(abc, x, c, rest + after)), Filter(Kept(abc), LowerChar(abc, y, c, rest)),
                          Cleared(abc, x + [c], rest, after), Cleared(abc, y + [c], rest, ""));
    }
  }

  // ---------- when half of the words are out of reach ----------

  /** The words of a question that stand between two spaces. */
  function ShelteredWords(abc: Alphabet, q: string): set<string> {
    Words(abc.space, Cleared(abc, "", Inner(abc.space, q), ""))
  }

  lemma ClearedAround(abc: Alphabet, before: string, a: string, s: string, c: string, after: string)
    requires Regular(abc) && Sheltered(abc.space, s)
    ensures Cleared(abc, before, a + s + c, after)
         == Cleared(abc, before, a, s + c + after) + Cleared(abc, "", s, "") + Cleared(abc, before + a + s, c, after)
  {
    assert before + a + s == before + (a + s) && s + (c + after) == s + c + after;
    ClearedSplits(abc, before, a + s, c, after);
    ClearedSplits(abc, before, a, s, c + after);
    ShelteredStays(abc, before + a, s, c + after);
  }

  lemma WordsOfPart(abc: Alphabet, a: string, s: string, c: string)
    requires Regular(abc) && Sheltered(abc.space, s) && s != ""
    ensures Words(abc.space, Cleared(abc, "", s, "")) <= Words(abc.space, Cleared(abc, "", a + s + c, ""))
  {
    ShelteredStays(abc, "", s, "");
    ClearedAround(abc, "", a, s, c, "");
    WordsAround(abc.space, Cleared(abc, "", a, s + c + ""), Cleared(abc, "", s, ""), Cleared(abc, "" + a + s, c, ""));
  }

  /** Their words are among those of every text the question is spoken in. */
  lemma ShelteredWordsStay(abc: Alphabet, before: string, q: string, after: string)
    requires Regular(abc)
    ensures ShelteredWords(abc, q) <= Words(abc.space, Clean(abc, before + q + after))
  {
    var s := Inner(abc.space, q);
    var a, c := InnerStands(abc.space, q);
    WordsOfClean(abc, before + q + after);
    if s != "" {
      Regroup(before, a, s, c, after);
      WordsOfPart(abc, before + a, s, c + after);
    }
  }

  lemma Regroup(before: string, a: string, s: string, c: string, after: string)
    ensures before + (a + s + c) + after == (before + a) + s + (c + after)
  {
  }

  lemma WordsOfClean(abc: Alphabet, s: string)
    ensures Words(abc.space, Clean(abc, s)) == Words(abc.space, Cleared(abc, "", s, ""))
  {
    WordsOfStripped(abc.space, Cleared(abc, "", s, ""));
  }

  lemma ShelteredHalfMatches(m: Matcher, before: string, q: string, after: string)
    requires Regular(m.abc) && Clean(m.abc, q) != ""
    requires 2 * |ShelteredWords(m.abc, q)| >= |Words(m.abc.space, Clean(m.abc, q))|
    ensures IsQuestionMatch(m, q, before + q + after)
  {
    ShelteredWordsStay(m.abc, before, q, after);
    ShelteredWordsStay(m.abc, "", q, "");
    assert "" + q + "" == q;
    CleanStartsWord(m.abc, q);
    OverlapByCommonWords(m.abc, Clean(m.abc, q), Clean(m.abc, before + q + after), ShelteredWords(m.abc, q));
  }

  lemma OverlapByCommonWords(abc: Alphabet, q: string, t: string, common: set<string>)
    requires q != "" && !abc.space(q[0]) && common <= Words(abc.space, q) && common <= Words(abc.space, t)
    requires 2 * |common| >= |Words(abc.space, q)|
    ensures t != "" && OverlapsByHalf(abc, q, t)
  {
    WordsThere(abc.space, q);
    Larger(common, Words(abc.space, q) * Words(abc.space, t));
  }

  lemma CleanStartsWord(abc: Alphabet, s: string)
    requires Clean(abc, s) != ""
    ensures !abc.space(Clean(abc, s)[0])
  {
    var _, _ := StripDrops(abc.space, Filter(Kept(abc), Lower(abc, s)));
  }

  lemma Larger(s: set<string>, t: set<string>)
    requires s <= t
    ensures |s| <= |t|
  {
    assert t == s + (t - s);
  }

  // ---------- when they are not ----------

  /** A sigma whose form is not settled changes it next to a letter: in front, or on both sides. */
  lemma UnsettledChangesByLetters(abc: Alphabet, x: char, p: string, s: string) returns (after: string)
    requires Regular(abc) && IsLetter(abc, x) && !SettledAt(abc, p, s)
    ensures !SameForm(abc, [x], "", p, s, after)
    ensures after == [x] || (after == "" && NoSpace(abc.space, p) && NoSpace(abc.space, s))
  {
    after := if AllIgnorable(abc, p) && AllIgnorable(abc, s) then "" else [x];
    EndsCasedBehind(abc, [x], p);
    StartsCasedBefore(abc, s, after);
    IgnorableDecidesNothing(abc, p);
    IgnorableDecidesNothing(abc, s);
    assert "" + p == p && s + "" == s && EndsCased(abc, [x]) && StartsCased(abc, [x]);
  }

  lemma ChangeShows(abc: Alphabet, x: string, q: string, after: string, j: nat)
    requires j < |q| && q[j] == SIGMA && !SameForm(abc, x, "", q[..j], q[j + 1..], after)
    ensures !SigmaStable(abc, x, q, after)
  {
    SigmaAgreesIff(abc, x, "", q, after);
  }

  lemma NoSpaceAround(space: char -> bool, q: string, j: nat)
    requires j < |q| && !space(q[j]) && NoSpace(space, q[..j]) && NoSpace(space, q[j + 1..])
    ensures NoSpace(space, q)
  {
    assert q == q[..j] + [q[j]] + q[j + 1..];
  }

  lemma UnsettledChanges(abc: Alphabet, x: char, q: string) returns (after: string)
    requires Regular(abc) && IsLetter(abc, x) && !Settled(abc, q)
    ensures !SigmaStable(abc, [x], q, after) && (after == [x] || (after == "" && NoSpace(abc.space, q)))
  {
    var j :| 0 <= j < |q| && q[j] == SIGMA && !SettledAt(abc, q[..j], q[j + 1..]);
    after := UnsettledChangesByLetters(abc, x, q[..j], q[j + 1..]);
    ChangeShows(abc, [x], q, after, j);
    if after == "" {
      NoSpaceAround(abc.space, q, j);
    }
  }

  lemma LettersStay(abc: Alphabet, x: char, q: string, after: string)
    requires IsLetter(abc, x) && (after == [x] || after == "")
    ensures Cleared(abc, "", [x] + q + after, "") == [x] + Cleared(abc, [x], q, after) + after
  {
    assert [x] + q + after == [x] + (q + after) && (q + after) + "" == q + after && after + "" == after;
    assert "" + [x] == [x];
    LowerOne(abc, "", x, q + after);
    LowerOne(abc, [x] + q, x, "");
    FilterOne(Kept(abc), x);
    ClearedSplits(abc, "", [x], q + after, "");
    ClearedSplits(abc, [x], q, after, "");
    assert Cleared(abc, "", [x], q + after) == [x];
    assert Cleared(abc, [x] + q, after, "") == after;
  }

  lemma OccurrenceLies(x: char, core: string, g: string, after: string, i: nat)
    requires core != "" && x !in core && (after == [x] || after == "") && OccursAt([x] + g + after, core, i)
    ensures 0 < i && i + |core| <= 1 + |g| && g[i - 1..i - 1 + |core|] == core
  {
    var t := [x] + g + after;
    assert t[i..i + |core|][0] == t[i] && t[i..i + |core|][|core| - 1] == t[i + |core| - 1];
    assert core[0] in core && core[|core| - 1] in core;
    assert t[i..i + |core|] == g[i - 1..i - 1 + |core|];
  }

  lemma SpaceOutside(space: char -> bool, left: string, core: string, right: string, k: nat)
    requires (forall c | c in left :: space(c)) && (forall c | c in right :: space(c)) && k < |left + core + right|
    ensures k < |left| || k >= |left| + |core| ==> space((left + core + right)[k])
  {
    var f := left + core + right;
    if k < |left| {
      assert f[k] == left[k] && left[k] in left;
    } else if k >= |left| + |core| {
      assert f[k] == right[k - |left| - |core|] && right[k - |left| - |core|] in right;
    }
  }

  /** Where a trimmed text is found in one spaced alike, both are the same. */
  lemma FoundInPlace(space: char -> bool, left: string, core: string, right: string, g: string, d: nat)
    requires core != "" && Trimmed(space, core) && SpacedAlike(space, g, left + core + right)
    requires (forall c | c in left :: space(c)) && (forall c | c in right :: space(c))
    requires d + |core| <= |g| && g[d..d + |core|] == core
    ensures g == left + core + right
  {
    var f := left + core + right;
    assert g[d] == core[0] && g[d + |core| - 1] == core[|core| - 1];
    SpaceOutside(space, left, core, right, d);
    SpaceOutside(space, left, core, right, d + |core| - 1);
    assert d == |left|;
    forall k | 0 <= k < |g|
      ensures g[k] == f[k]
    {
      SpaceOutside(space, left, core, right, k);
      if d <= k < d + |core| {
        assert g[k] == g[d..d + |core|][k - d] && f[k] == core[k - d];
      }
    }
  }

  /** A cleaned question cannot be found in a text spaced like it that is not the same, with a foreign letter around. */
  lemma NotFoundAround(space: char -> bool, x: char, left: string, core: string, right: string, g: string, after: string)
    requires core != "" && Trimmed(space, core) && x !in core && (after == [x] || after == "")
    requires (forall c | c in left :: space(c)) && (forall c | c in right :: space(c))
    requires SpacedAlike(space, g, left + core + right) && g != left + core + right
    ensures !Contains([x] + g + after, core) && !Contains(core, [x] + g + after)
  {
    if i: nat :| OccursAt([x] + g + after, core, i) {
      OccurrenceLies(x, core, g, after, i);
      FoundInPlace(space, left, core, right, g, i - 1);
    }
    assert |[x] + g + after| > |core|;
  }

  /** Glued to foreign letters, a question has no words in common with the turn but the sheltered ones. */
  lemma OnlyShelteredInCommon(abc: Alphabet, x: char, q: string, after: string)
    requires Regular(abc) && IsLetter(abc, x) && (after == [x] || (after == "" && NoSpace(abc.space, q)))
    requires x !in Clean(abc, q)
    ensures Words(abc.space, Clean(abc, q)) * Words(abc.space, Clean(abc, [x] + q + after)) <= ShelteredWords(abc, q)
  {
    LettersStay(abc, x, q, after);
    WordsOfClean(abc, [x] + q + after);
    var ofTurn := Words(abc.space, [x] + Cleared(abc, [x], q, after) + after);
    var a, c := InnerStands(abc.space, q);
    var s := Inner(abc.space, q);
    forall w | w in Words(abc.space, Clean(abc, q)) && w in ofTurn
      ensures w in ShelteredWords(abc, q)
    {
      WordsAreMadeOf(abc.space, Clean(abc, q), x, w);
      WordWithoutLetter(abc, x, q, a, s, c, after, w);
    }
  }

  /** A question behind a letter: start, inner part and end. */
  lemma GluedParts(abc: Alphabet, x: char, a: string, s: string, c: string, after: string)
    returns (front: string, back: string)
    requires Regular(abc) && NoSpace(abc.space, a) && NoSpace(abc.space, c) && Sheltered(abc.space, s)
    ensures Cleared(abc, [x], a + s + c, after) == front + Cleared(abc, "", s, "") + back
    ensures NoSpace(abc.space, front) && NoSpace(abc.space, back) && (c == "" ==> back == "")
  {
    front, back := Cleared(abc, [x], a, s + c + after), Cleared(abc, [x] + a + s, c, after);
    ClearedHasNoSpace(abc, [x], a, s + c + after);
    ClearedHasNoSpace(abc, [x] + a + s, c, after);
    ClearedAround(abc, [x], a, s, c, after);
  }

  lemma WordWithoutLetter(abc: Alphabet, x: char, q: string, a: string, s: string, c: string, after: string, w: string)
    requires Regular(abc) && IsLetter(abc, x) && (after == [x] || (after == "" && NoSpace(abc.space, q)))
    requires q == a + s + c && NoSpace(abc.space, a) && NoSpace(abc.space, c) && Sheltered(abc.space, s) && (s == "" ==> c == "")
    requires x !in w && w in Words(abc.space, [x] + Cleared(abc, [x], q, after) + after)
    ensures w in Words(abc.space, Cleared(abc, "", s, ""))
  {
    var front, back := GluedParts(abc, x, a, s, c, after);
    var inner := Cleared(abc, "", s, "");
    ShelteredStays(abc, "", s, "");
    assert s != "" ==> s[0] in q && after == [x];
    WordInTheGlued(abc.space, x, front, inner, back, after, w);
  }

  lemma WordInTheGlued(space: char -> bool, x: char, front: string, inner: string, back: string, after: string, w: string)
    requires !space(x) && NoSpace(space, front) && NoSpace(space, back) && Sheltered(space, inner) && x !in w
    requires (inner != "" && after == [x]) || (inner == "" && back == "" && (after == [x] || after == ""))
    requires w in Words(space, [x] + (front + inner + back) + after)
    ensures w in Words(space, inner)
  {
    if inner == "" {
      assert [x] + (front + inner + back) + after == [x] + front + after;
      OneWordWithLetter(space, x, front, after, w);
    } else {
      assert [x] + (front + inner + back) + after == ([x] + front) + inner + (back + [x]);
      WordAmong(space, x, [x] + front, inner, back + [x], w);
    }
  }

  lemma OneWordWithLetter(space: char -> bool, x: char, front: string, after: string, w: string)
    requires !space(x) && NoSpace(space, front) && (after == [x] || after == "") && x !in w
    ensures w !in Words(space, [x] + front + after)
  {
    OneWord(space, [x] + front + after);
    assert x in [x] + front + after;
  }

  lemma WordAmong(space: char -> bool, x: char, front: string, inner: string, back: string, w: string)
    requires NoSpace(space, front) && NoSpace(space, back) && x in front && x in back && inner != "" && Sheltered(space, inner)
    requires x !in w && w in Words(space, front + inner + back)
    ensures w in Words(space, inner)
  {
    WordsAround(space, front, inner, back);
    OneWord(space, front);
    OneWord(space, back);
  }

  function Never(): (string, string) -> bool {
    (q, t) => false
  }

  lemma UnsettledCanBeMissed(abc: Alphabet, x: char, q: string) returns (after: string)
    requires Regular(abc) && IsLetter(abc, x) && x !in Clean(abc, q) && Clean(abc, q) != ""
    requires !Settled(abc, q) && 2 * |ShelteredWords(abc, q)| < |Words(abc.space, Clean(abc, q))|
    ensures !IsQuestionMatch(Matcher(abc, Never()), q, [x] + q + after)
  {
    after := UnsettledChanges(abc, x, q);
    NotContainedThere(abc, x, q, after);
    OnlyShelteredInCommon(abc, x, q, after);
    Larger(Words(abc.space, Clean(abc, q)) * Words(abc.space, Clean(abc, [x] + q + after)), ShelteredWords(abc, q));
  }

  lemma NotContainedThere(abc: Alphabet, x: char, q: string, after: string)
    requires Regular(abc) && IsLetter(abc, x) && x !in Clean(abc, q) && Clean(abc, q) != ""
    requires !SigmaStable(abc, [x], q, after) && (after == [x] || (after == "" && NoSpace(abc.space, q)))
    ensures !Contains(Clean(abc, [x] + q + after), Clean(abc, q)) && !Contains(Clean(abc, q), Clean(abc, [x] + q + after))
  {
    var g, f := Cleared(abc, [x], q, after), Cleared(abc, "", q, "");
    FormsShow(abc, [x], "", q, after);
    LettersStay(abc, x, q, after);
    TurnIsTrimmed(abc, x, q, after);
    var left, right := StripDrops(abc.space, f);
    assert forall c | c in left :: c in left + right;
    assert forall c | c in right :: c in left + right;
    NotFoundAround(abc.space, x, left, Clean(abc, q), right, g, after);
  }

  lemma TurnIsTrimmed(abc: Alphabet, x: char, q: string, after: string)
    requires Regular(abc) && IsLetter(abc, x) && (after == [x] || (after == "" && NoSpace(abc.space, q)))
    ensures Clean(abc, [x] + q + after) == [x] + Cleared(abc, [x], q, after) + after
  {
    LettersStay(abc, x, q, after);
    var t := [x] + Cleared(abc, [x], q, after) + after;
    if after == "" {
      ClearedHasNoSpace(abc, [x], q, after);
      assert NoSpace(abc.space, t);
      assert t[|t| - 1] in t;
    }
    assert "" + t + "" == t;
    StripUndoesPadding(abc.space, "", t, "");
  }

  /**
    A question is recognised in every turn that contains it verbatim, whatever the similarity measure
    says, if and only if its text settles the form of each of its capital sigmas or at least half of its
    words stand between two spaces.
  */
  lemma RecognisedEverywhereIff(abc: Alphabet, q: string, x: char)
    requires Regular(abc) && Clean(abc, q) != "" && IsLetter(abc, x) && x !in Clean(abc, q)
    ensures (forall similar, before, after :: IsQuestionMatch(Matcher(abc, similar), q, before + q + after))
            <==> Settled(abc, q) || 2 * |ShelteredWords(abc, q)| >= |Words(abc.space, Clean(abc, q))|
  {
    if Settled(abc, q) || 2 * |ShelteredWords(abc, q)| >= |Words(abc.space, Clean(abc, q))| {
      forall similar, before, after
        ensures IsQuestionMatch(Matcher(abc, similar), q, before + q + after)
      {
        if Settled(abc, q) {
          SettledQuestionMatches(Matcher(abc, similar), before, q, after);
        } else {
          ShelteredHalfMatches(Matcher(abc, similar), before, q, after);
        }
      }
    } else {
      var after := UnsettledCanBeMissed(abc, x, q);
    }
  }

  // ---------- other ways to be recognised ----------

  /** `w` is a word of `s`: a stretch without space between spaces or the ends. */
  predicate IsWordAt(space: char -> bool, s: string, w: string, i: nat) {
    && w != "" && OccursAt(s, w, i) && (forall c | c in w :: !space(c))
    && (i > 0 ==> space(s[i - 1])) && (i + |w| < |s| ==> space(s[i + |w|]))
  }

  lemma RestOccurs(s: string, t: string, k: nat, j: nat)
    requires k <= |s| && OccursAt(s[k..], t, j)
    ensures OccursAt(s, t, k + j)
  {
    assert s[k..][j..j + |t|] == s[k + j..k + j + |t|];
  }

  lemma WordOfRest(space: char -> bool, s: string, w: string, k: nat, j: nat)
    requires 0 < k <= |s| && (space(s[k - 1]) || (k < |s| && space(s[k]))) && IsWordAt(space, s[k..], w, j)
    ensures IsWordAt(space, s, w, k + j)
  {
    RestOccurs(s, w, k, j);
    assert s[k..][j..j + |w|][0] == s[k + j] && w[0] in w;
    assert j > 0 ==> s[k..][j - 1] == s[k + j - 1];
    assert j + |w| < |s[k..]| ==> s[k..][j + |w|] == s[k + j + |w|];
  }

  lemma {:induction false} WordsStandThere(space: char -> bool, s: string, w: string) returns (i: nat)
    requires w in Words(space, s)
    ensures IsWordAt(space, s, w, i)
    decreases |s|
  {
    var n := WordLength(space, s);
    WordLengthStops(space, s);
    if n > 0 && w == s[..n] {
      i := 0;
    } else {
      var skipped := if n == 0 then 1 else n;
      var j := WordsStandThere(space, s[skipped..], w);
      WordOfRest(space, s, w, skipped, j);
      i := skipped + j;
    }
  }

  lemma {:induction false} WordsAreFound(space: char -> bool, s: string, w: string, i: nat)
    requires IsWordAt(space, s, w, i)
    ensures w in Words(space, s)
  {
    var a, b := s[..i], s[i + |w|..];
    assert s == a + w + b;
    OneWord(space, w);
    WordsApart(space, a, w);
    assert (a + w)[|a + w| - 1] == w[|w| - 1];
    WordsApart(space, a + w, b);
  }

  /** The words of a text are its stretches without space, bounded by spaces or its ends. */
  lemma WordsAre(space: char -> bool, s: string, w: string)
    ensures w in Words(space, s) <==> exists i: nat :: IsWordAt(space, s, w, i)
  {
    if w in Words(space, s) {
      var i := WordsStandThere(space, s, w);
    } else if i: nat :| IsWordAt(space, s, w, i) {
      WordsAreFound(space, s, w, i);
    }
  }

  /** A turn whose text is a verbatim part of the question is taken for it, unless a sigma of the turn changes form. */
  lemma PartOfTheQuestionMatches(m: Matcher, before: string, turn: string, after: string)
    requires Clean(m.abc, turn) != "" && SigmaStable(m.abc, before, turn, after)
    ensures IsQuestionMatch(m, before + turn + after, turn)
  {
    LowerInPlace(m.abc, before, turn, after);
    CleaningKeepsContainment(Kept(m.abc), m.abc.space, LowerWithin(m.abc, "", before, turn + after),
                             Lower(m.abc, turn), LowerWithin(m.abc, before + turn, after, ""));
    assert Contains("", Clean(m.abc, turn)) ==> Clean(m.abc, turn) == "";
  }

  /** A turn that shares half of the question's words is taken for it, and so is one the similarity measure finds alike. */
  lemma SharedWordsMatch(m: Matcher, question: string, turn: string, shared: set<string>)
    requires Clean(m.abc, question) != "" && Clean(m.abc, turn) != ""
    requires (forall w | w in shared :: exists i: nat :: IsWordAt(m.abc.space, Clean(m.abc, question), w, i))
    requires (forall w | w in shared :: exists i: nat :: IsWordAt(m.abc.space, Clean(m.abc, turn), w, i))
    requires 2 * |shared| >= |Words(m.abc.space, Clean(m.abc, question))| || m.similar(Clean(m.abc, question), Clean(m.abc, turn))
    ensures IsQuestionMatch(m, question, turn)
  {
    forall w | w in shared
      ensures w in Words(m.abc.space, Clean(m.abc, question)) && w in Words(m.abc.space, Clean(m.abc, turn))
    {
      WordsAre(m.abc.space, Clean(m.abc, question), w);
      WordsAre(m.abc.space, Clean(m.abc, turn), w);
    }
    if 2 * |shared| >= |Words(m.abc.space, Clean(m.abc, question))| {
      CleanStartsWord(m.abc, question);
      OverlapByCommonWords(m.abc, Clean(m.abc, question), Clean(m.abc, turn), shared);
    }
  }

  /** Nothing else makes a match, and a text with nothing left after cleaning matches nothing. */
  lemma MatchesForAReason(m: Matcher, question: string, turn: string)
    requires IsQuestionMatch(m, question, turn)
    ensures var q, t := Clean(m.abc, question), Clean(m.abc, turn);
            && q != "" && t != ""
            && (Contains(t, q) || Contains(q, t) || m.similar(q, t)
                || exists shared: set<string> ::
                     2 * |shared| >= |Words(m.abc.space, q)|
                     && shared <= Words(m.abc.space, q) && shared <= Words(m.abc.space, t))
  {
    var q, t := Clean(m.abc, question), Clean(m.abc, turn);
    if OverlapsByHalf(m.abc, q, t) {
      var shared := Words(m.abc.space, q) * Words(m.abc.space, t);
      assert 2 * |shared| >= |Words(m.abc.space, q)|;
    }
  }

  lemma {:induction false} ClearedVanishes(abc: Alphabet, before: string, p: string, after: string)
    requires SIGMA !in p && forall c, d | c in p && d in abc.lower(c) :: !Kept(abc)(d)
    ensures Cleared(abc, before, p, after) == ""
    decreases p
  {
    if p != "" {
      ClearedHead(abc, before, p, after);
      assert p[0] in p;
      NothingKept(Kept(abc), abc.lower(p[0]));
      ClearedVanishes(abc, before + [p[0]], p[1..], after);
    }
  }

  lemma {:induction false} NothingKept(keep: char -> bool, s: string)
    requires forall d | d in s :: !keep(d)
    ensures Filter(keep, s) == ""
  {
    if s != "" {
      assert s[0] in s;
      NothingKept(keep, s[1..]);
    }
  }

  lemma ClearedAlone(abc: Alphabet, before: string, s: string, after: string)
    requires SIGMA !in s
    ensures Cleared(abc, before, s, after) == Cleared(abc, "", s, "")
  {
    NoSigmaAgrees(abc, before, "", s, after);
    LowerAgrees(abc, before, "", s, after);
  }

  /** Characters that are neither word characters nor spaces make no difference. */
  lemma PunctuationIsIgnored(abc: Alphabet, a: string, p: string, b: string)
    requires SIGMA !in a && SIGMA !in p && SIGMA !in b
    requires forall c, d | c in p && d in abc.lower(c) :: !abc.word(d) && !abc.space(d)
    ensures Clean(abc, a + p + b) == Clean(abc, a + b)
  {
    ClearedSplits(abc, "", a + p, b, "");
    ClearedSplits(abc, "", a, p, b + "");
    ClearedVanishes(abc, "" + a, p, b + "");
    ClearedSplits(abc, "", a, b, "");
    ClearedAlone(abc, "", a, p + (b + ""));
    ClearedAlone(abc, "", a, b + "");
    ClearedAlone(abc, "" + (a + p), b, "");
    ClearedAlone(abc, "" + a, b, "");
    var front := Cleared(abc, "", a, "");
    assert front + "" == front;
    assert Cleared(abc, "", a + p + b, "") == Cleared(abc, "", a + b, "");
  }
}
