/**
  The string operations the transcript code leans on: lowercasing, stripping, filtering, splitting
  and joining.  What a character is (letter, space, cased, ...) is a parameter, so that everything
  proved here holds for every character table.
*/
module Text {
  const SIGMA: char := '\U{03A3}'
  const MEDIAL_SIGMA: char := '\U{03C3}'
  const FINAL_SIGMA: char := '\U{03C2}'

  /**
    A character table.  `lower` gives the lowercase of one character, possibly several characters;
    capital sigma is not looked up there, since its lowercase depends on its neighbours.
  */
  datatype Alphabet = Alphabet(word: char -> bool, space: char -> bool, lower: char -> string,
                               cased: char -> bool, ignorable: char -> bool)

  predicate OccursAt(s: string, t: string, i: nat) {
    i + |t| <= |s| && s[i..i + |t|] == t
  }

  predicate Contains(s: string, t: string) {
    exists i: nat | i <= |s| :: OccursAt(s, t, i)
  }

  lemma ContainsMiddle(a: string, t: string, b: string)
    ensures Contains(a + t + b, t)
  {
    assert OccursAt(a + t + b, t, |a|);
  }

  // ---------- lowercasing ----------

  /** The last character of `s` that is not ignorable exists and is cased. */
  predicate EndsCased(abc: Alphabet, s: string) {
    s != "" && if abc.ignorable(s[|s| - 1]) then EndsCased(abc, s[..|s| - 1]) else abc.cased(s[|s| - 1])
  }

  /** The first character of `s` that is not ignorable exists and is cased. */
  predicate StartsCased(abc: Alphabet, s: string) {
    s != "" && if abc.ignorable(s[0]) then StartsCased(abc, s[1..]) else abc.cased(s[0])
  }

  /** A capital sigma between `before` and `after` is word-final. */
  predicate FinalPosition(abc: Alphabet, before: string, after: string) {
    EndsCased(abc, before) && !StartsCased(abc, after)
  }

  function LowerChar(abc: Alphabet, before: string, c: char, after: string): string {
    if c != SIGMA then abc.lower(c)
    else if FinalPosition(abc, before, after) then [FINAL_SIGMA]
    else [MEDIAL_SIGMA]
  }

  /** The lowercase of `s` where it stands between `before` and `after`. */
  function LowerWithin(abc: Alphabet, before: string, s: string, after: string): string
    decreases s
  {
    if s == "" then ""
    else LowerChar(abc, before, s[0], s[1..] + after) + LowerWithin(abc, before + [s[0]], s[1..], after)
  }

  function Lower(abc: Alphabet, s: string): string {
    LowerWithin(abc, "", s, "")
  }

  /**
    Each capital sigma of `s` is word-final when `s` stands between `x` and `after` just when it is
    word-final when `s` stands behind `y` at the end of the text.
  */
  predicate SigmaAgrees(abc: Alphabet, x: string, y: string, s: string, after: string)
    decreases s
  {
    s == "" ||
    ((s[0] == SIGMA ==> (FinalPosition(abc, x, s[1..] + after) <==> FinalPosition(abc, y, s[1..]))) &&
     SigmaAgrees(abc, x + [s[0]], y + [s[0]], s[1..], after))
  }

  /** No capital sigma of `s` changes its form when `before` and `after` are put around `s`. */
  predicate SigmaStable(abc: Alphabet, before: string, s: string, after: string) {
    SigmaAgrees(abc, before, "", s, after)
  }

  lemma {:induction false} NoSigmaAgrees(abc: Alphabet, x: string, y: string, s: string, after: string)
    requires SIGMA !in s
    ensures SigmaAgrees(abc, x, y, s, after)
    decreases s
  {
    if s != "" {
      NoSigmaAgrees(abc, x + [s[0]], y + [s[0]], s[1..], after);
    }
  }

  lemma {:induction false} LowerSplits(abc: Alphabet, before: string, s: string, t: string, after: string)
    ensures LowerWithin(abc, before, s + t, after)
         == LowerWithin(abc, before, s, t + after) + LowerWithin(abc, before + s, t, after)
    decreases s
  {
    if s == "" {
      assert s + t == t && before + s == before;
    } else {
      assert (s + t)[1..] == s[1..] + t;
      assert (s[1..] + t) + after == s[1..] + (t + after);
      assert (before + [s[0]]) + s[1..] == before + s;
      LowerSplits(abc, before + [s[0]], s[1..], t, after);
    }
  }

  /** Surroundings that agree on every sigma give the same lowercase, and only they do. */
  lemma {:induction false} LowerAgrees(abc: Alphabet, x: string, y: string, s: string, after: string)
    ensures SigmaAgrees(abc, x, y, s, after) <==> LowerWithin(abc, x, s, after) == LowerWithin(abc, y, s, "")
    decreases s
  {
    if s != "" {
      var c, rest := s[0], s[1..];
      LowerAgrees(abc, x + [c], y + [c], rest, after);
      assert rest + "" == rest;
      var here, alone := LowerChar(abc, x, c, rest + after), LowerChar(abc, y, c, rest);
      var p, q := LowerWithin(abc, x + [c], rest, after), LowerWithin(abc, y + [c], rest, "");
      if here + p == alone + q {
        assert here == (here + p)[..|here|] && p == (here + p)[|here|..];
        assert alone == (alone + q)[..|alone|] && q == (alone + q)[|alone|..];
      }
    }
  }

  /**
    Lowercasing a text that contains `s` lowercases `s` in place exactly when no capital sigma of
    `s` changes form.
  */
  lemma LowerInPlace(abc: Alphabet, before: string, s: string, after: string)
    ensures Lower(abc, before + s + after)
         == LowerWithin(abc, "", before, s + after) + LowerWithin(abc, before, s, after)
            + LowerWithin(abc, before + s, after, "")
    ensures SigmaStable(abc, before, s, after) <==> LowerWithin(abc, before, s, after) == Lower(abc, s)
  {
    assert before + s + after == before + (s + after);
    assert (s + after) + "" == s + after && "" + before == before && after + "" == after;
    LowerSplits(abc, "", before, s + after, "");
    LowerSplits(abc, before, s, after, "");
    LowerAgrees(abc, before, "", s, after);
  }

  // ---------- filtering, stripping, splitting, joining ----------

  /** The characters of `s` that satisfy `keep`, in order. */
  function Filter(keep: char -> bool, s: string): string {
    if s == "" then "" else (if keep(s[0]) then [s[0]] else "") + Filter(keep, s[1..])
  }

  lemma {:induction false} FilterSplits(keep: char -> bool, s: string, t: string)
    ensures Filter(keep, s + t) == Filter(keep, s) + Filter(keep, t)
  {
    if s == "" {
      assert s + t == t;
    } else {
      assert (s + t)[1..] == s[1..] + t;
      FilterSplits(keep, s[1..], t);
      var head := if keep(s[0]) then [s[0]] else "";
      assert Filter(keep, s + t) == head + Filter(keep, s[1..] + t);
      assert head + (Filter(keep, s[1..]) + Filter(keep, t)) == (head + Filter(keep, s[1..])) + Filter(keep, t);
    }
  }

  function StripLeft(space: char -> bool, s: string): string {
    if s != "" && space(s[0]) then StripLeft(space, s[1..]) else s
  }

  function StripRight(space: char -> bool, s: string): string {
    if s != "" && space(s[|s| - 1]) then StripRight(space, s[..|s| - 1]) else s
  }

  function Strip(space: char -> bool, s: string): string {
    StripRight(space, StripLeft(space, s))
  }

  /** Neither end of `s` is a space: what a non-empty stripped string looks like. */
  predicate Trimmed(space: char -> bool, s: string) {
    s != "" ==> !space(s[0]) && !space(s[|s| - 1])
  }

  lemma {:induction false} StripLeftDrops(space: char -> bool, s: string) returns (left: string)
    ensures s == left + StripLeft(space, s)
    ensures forall c | c in left :: space(c)
    ensures StripLeft(space, s) != "" ==> !space(StripLeft(space, s)[0])
  {
    if s != "" && space(s[0]) {
      left := StripLeftDrops(space, s[1..]);
      left := [s[0]] + left;
    } else {
      left := "";
    }
  }

  lemma {:induction false} StripRightDrops(space: char -> bool, s: string) returns (right: string)
    ensures s == StripRight(space, s) + right
    ensures forall c | c in right :: space(c)
    ensures StripRight(space, s) != "" ==> !space(StripRight(space, s)[|StripRight(space, s)| - 1])
  {
    if s != "" && space(s[|s| - 1]) {
      right := StripRightDrops(space, s[..|s| - 1]);
      right := right + [s[|s| - 1]];
    } else {
      right := "";
    }
  }

  /** Stripping takes spaces, and only spaces, off both ends. */
  lemma StripDrops(space: char -> bool, s: string) returns (left: string, right: string)
    ensures s == left + Strip(space, s) + right
    ensures forall c | c in left + right :: space(c)
    ensures Trimmed(space, Strip(space, s))
  {
    left := StripLeftDrops(space, s);
    right := StripRightDrops(space, StripLeft(space, s));
    var core := Strip(space, s);
    if core != "" {
      assert StripLeft(space, s)[0] == core[0];
    }
  }

  lemma {:induction false} StripLeftStops(space: char -> bool, a: string, core: string)
    requires core != "" && !space(core[0])
    ensures StripLeft(space, a + core) == StripLeft(space, a) + core
  {
    if a == "" {
      assert a + core == core;
    } else {
      assert (a + core)[1..] == a[1..] + core;
      StripLeftStops(space, a[1..], core);
    }
  }

  lemma {:induction false} StripRightStops(space: char -> bool, core: string, b: string)
    requires core != "" && !space(core[|core| - 1])
    ensures StripRight(space, core + b) == core + StripRight(space, b)
    decreases |b|
  {
    if b == "" {
      assert core + b == core;
    } else {
      assert (core + b)[..|core + b| - 1] == core + b[..|b| - 1];
      StripRightStops(space, core, b[..|b| - 1]);
    }
  }

  /** Stripping never reaches into a trimmed part of the text. */
  lemma StripKeepsCore(space: char -> bool, a: string, core: string, b: string)
    requires core != "" && Trimmed(space, core)
    ensures Strip(space, a + core + b) == StripLeft(space, a) + core + StripRight(space, b)
  {
    assert (core + b)[0] == core[0];
    assert a + core + b == a + (core + b);
    StripLeftStops(space, a, core + b);
    var x := StripLeft(space, a) + core;
    assert StripLeft(space, a) + (core + b) == x + b;
    assert x[|x| - 1] == core[|core| - 1];
    StripRightStops(space, x, b);
  }

  /** A trimmed string is left alone, and surrounding spaces are all that is removed. */
  lemma StripUndoesPadding(space: char -> bool, a: string, core: string, b: string)
    requires Trimmed(space, core) && forall c | c in a + b :: space(c)
    ensures Strip(space, a + core + b) == core
  {
    if core == "" {
      AllSpaceStrips(space, a + core + b);
    } else {
      StripKeepsCore(space, a, core, b);
      assert forall c | c in a :: c in a + b;
      assert forall c | c in b :: c in a + b;
      AllSpaceStrips(space, a);
      AllSpaceStrips(space, b);
    }
  }

  lemma {:induction false} AllSpaceStrips(space: char -> bool, s: string)
    requires forall c | c in s :: space(c)
    ensures StripLeft(space, s) == "" && StripRight(space, s) == "" && Strip(space, s) == ""
  {
    if s != "" {
      AllSpaceStrips(space, s[1..]);
      AllSpaceStrips(space, s[..|s| - 1]);
    }
  }

  /** The length of the longest prefix of `s` without a space. */
  function WordLength(space: char -> bool, s: string): (n: nat)
    ensures n <= |s|
  {
    if s == "" || space(s[0]) then 0 else 1 + WordLength(space, s[1..])
  }

  /** The set of maximal space-free pieces of `s`. */
  function Words(space: char -> bool, s: string): set<string>
    decreases |s|
  {
    if s == "" then {}
    else
      var n := WordLength(space, s);
      if n == 0 then Words(space, s[1..]) else {s[..n]} + Words(space, s[n..])
  }

  /** The texts of `parts`, in order, with `sep` between neighbours. */
  function Join(sep: string, parts: seq<string>): string {
    if |parts| == 0 then ""
    else if |parts| == 1 then parts[0]
    else parts[0] + sep + Join(sep, parts[1..])
  }
}
