/** The cache of prepared interviews, keyed by a fingerprint of what they are prepared from. */
module PrepCache {
  import opened Text

  const SEPARATOR: char := '\U{241F}'
  const CACHE_TTL: int := 24 * 3600

  /** What a fingerprint is taken of. */
  datatype Inputs = Inputs(cv: string, title: string, description: string, count: int)

  function Normal(space: char -> bool, x: Inputs): Inputs {
    Inputs(Strip(space, x.cv), Strip(space, x.title), Strip(space, x.description), x.count)
  }

  function Digit(d: nat): char
    requires d < 10
  {
    ('0' as int + d) as char
  }

  function Digits(n: nat): (s: string)
    ensures s != "" && forall c | c in s :: '0' <= c <= '9'
  {
    if n < 10 then [Digit(n)] else Digits(n / 10) + [Digit(n % 10)]
  }

  function Decimal(n: int): string {
    if n < 0 then "-" + Digits(-n) else Digits(n)
  }

  /** The text that is hashed. */
  function Raw(space: char -> bool, x: Inputs): string {
    Join([SEPARATOR], [Strip(space, x.cv), Strip(space, x.title), Strip(space, x.description), Decimal(x.count)])
  }

  // ---------- when the text gives the inputs back ----------

  /** A separator with no space beside it. */
  predicate BareSeparatorAt(space: char -> bool, s: string, i: int) {
    && 0 <= i < |s| && s[i] == SEPARATOR
    && (i > 0 ==> !space(s[i - 1])) && (i + 1 < |s| ==> !space(s[i + 1]))
  }

  predicate Ambiguous(space: char -> bool, s: string) {
    exists i | 0 <= i < |s| :: BareSeparatorAt(space, s, i)
  }

  /** No stripped field holds a bare separator. */
  predicate Unambiguous(space: char -> bool, x: Inputs) {
    var n := Normal(space, x);
    !Ambiguous(space, n.cv) && !Ambiguous(space, n.title) && !Ambiguous(space, n.description)
  }

  function Body(a: string, b: string, c: string): string {
    a + [SEPARATOR] + b + [SEPARATOR] + c
  }

  lemma JoinOneMore(sep: string, head: string, rest: seq<string>)
    requires rest != []
    ensures Join(sep, [head] + rest) == head + sep + Join(sep, rest)
  {
    assert ([head] + rest)[1..] == rest;
  }

  lemma JoinFour(a: string, b: string, c: string, d: string)
    ensures Join([SEPARATOR], [a, b, c, d]) == a + [SEPARATOR] + (b + [SEPARATOR] + (c + [SEPARATOR] + d))
  {
    JoinOneMore([SEPARATOR], c, [d]);
    JoinOneMore([SEPARATOR], b, [c] + [d]);
    JoinOneMore([SEPARATOR], a, [b] + ([c] + [d]));
    assert [a] + ([b] + ([c] + [d])) == [a, b, c, d];
  }

  lemma Ungroup(a: string, b: string, c: string, d: string)
    ensures a + [SEPARATOR] + (b + [SEPARATOR] + (c + [SEPARATOR] + d)) == Body(a, b, c) + [SEPARATOR] + d
  {
  }

  lemma RawShape(space: char -> bool, x: Inputs)
    ensures var n := Normal(space, x);
            Raw(space, x) == Body(n.cv, n.title, n.description) + [SEPARATOR] + Decimal(x.count)
  {
    var n := Normal(space, x);
    JoinFour(n.cv, n.title, n.description, Decimal(x.count));
    Ungroup(n.cv, n.title, n.description, Decimal(x.count));
  }

  lemma {:induction false} DigitsTell(m: nat, n: nat)
    requires Digits(m) == Digits(n)
    ensures m == n
  {
    var s := Digits(m);
    if m < 10 || n < 10 {
      assert |s| == 1 ==> m < 10 && n < 10;
    } else {
      assert s[..|s| - 1] == Digits(m / 10) && s[..|s| - 1] == Digits(n / 10);
      assert s[|s| - 1] == Digit(m % 10) == Digit(n % 10);
      DigitsTell(m / 10, n / 10);
    }
  }

  lemma SignShows(n: int)
    ensures Decimal(n) != "" && (Decimal(n)[0] == '-' <==> n < 0)
    ensures n < 0 ==> Decimal(n)[1..] == Digits(-n)
  {
    if n < 0 {
      assert Decimal(n)[1..] == Digits(-n);
    } else {
      assert Digits(n)[0] in Digits(n);
    }
  }

  lemma DecimalTells(m: int, n: int)
    requires Decimal(m) == Decimal(n)
    ensures m == n
  {
    SignShows(m);
    SignShows(n);
    if m < 0 {
      DigitsTell(-m, -n);
    } else {
      DigitsTell(m, n);
    }
  }

  lemma SeparatorWithin(a: string, b: string, a': string, longer: string)
    requires a + [SEPARATOR] + b == a' + [SEPARATOR] + longer && |b| < |longer|
    ensures SEPARATOR in longer
  {
    var s := a + [SEPARATOR] + b;
    assert s[|a|] == SEPARATOR;
    assert s[|a|] == longer[|a| - |a'| - 1];
  }

  lemma CountIsLast(a: string, m: int, b: string, n: int)
    requires a + [SEPARATOR] + Decimal(m) == b + [SEPARATOR] + Decimal(n)
    ensures a == b && m == n
  {
    if |Decimal(m)| < |Decimal(n)| {
      SeparatorWithin(a, Decimal(m), b, Decimal(n));
    } else if |Decimal(n)| < |Decimal(m)| {
      SeparatorWithin(b, Decimal(n), a, Decimal(m));
    } else {
      var s := a + [SEPARATOR] + Decimal(m);
      assert s[..|a|] == a && s[..|b|] == b && s[|a| + 1..] == Decimal(m) && s[|b| + 1..] == Decimal(n);
      DecimalTells(m, n);
    }
  }

  lemma JointsAreBare(space: char -> bool, a: string, b: string, c: string)
    requires !space(SEPARATOR) && Trimmed(space, a) && Trimmed(space, b) && Trimmed(space, c)
    ensures BareSeparatorAt(space, Body(a, b, c), |a|) && BareSeparatorAt(space, Body(a, b, c), |a| + 1 + |b|)
  {
  }

  lemma BareIsJointOrWithin(space: char -> bool, a: string, b: string, c: string, i: int)
    requires BareSeparatorAt(space, Body(a, b, c), i)
    ensures i == |a| || i == |a| + 1 + |b| || Ambiguous(space, a) || Ambiguous(space, b) || Ambiguous(space, c)
  {
    var s := Body(a, b, c);
    if i < |a| {
      assert s[..|a|] == a;
      assert BareSeparatorAt(space, a, i);
    } else if |a| < i < |a| + 1 + |b| {
      assert s[|a| + 1..|a| + 1 + |b|] == b;
      assert BareSeparatorAt(space, b, i - |a| - 1);
    } else if i > |a| + 1 + |b| {
      assert s[|a| + 2 + |b|..] == c;
      assert BareSeparatorAt(space, c, i - |a| - 2 - |b|);
    }
  }

  lemma StripTrims(space: char -> bool, s: string)
    ensures Trimmed(space, Strip(space, s))
  {
    var _, _ := StripDrops(space, s);
  }

  lemma TrimmedStaysAsIs(space: char -> bool, s: string)
    requires Trimmed(space, s)
    ensures Strip(space, s) == s
  {
    StripUndoesPadding(space, "", s, "");
    assert "" + s + "" == s;
  }

  lemma BodyTells(space: char -> bool, a: string, b: string, c: string, a': string, b': string, c': string)
    requires !space(SEPARATOR) && Body(a, b, c) == Body(a', b', c')
    requires Trimmed(space, a') && Trimmed(space, b') && Trimmed(space, c')
    requires !Ambiguous(space, a) && !Ambiguous(space, b) && !Ambiguous(space, c)
    ensures a == a' && b == b' && c == c'
  {
    var s := Body(a, b, c);
    JointsAreBare(space, a', b', c');
    BareIsJointOrWithin(space, a, b, c, |a'|);
    BareIsJointOrWithin(space, a, b, c, |a'| + 1 + |b'|);
    assert |a'| == |a| && |b'| == |b|;
    assert s[..|a|] == a && s[..|a'|] == a';
    assert s[|a| + 1..|a| + 1 + |b|] == b && s[|a'| + 1..|a'| + 1 + |b'|] == b';
    assert s[|a| + 2 + |b|..] == c && s[|a'| + 2 + |b'|..] == c';
  }

  /** Without a bare separator in its stripped fields, inputs share their text with no others. */
  lemma UnambiguousTextTells(space: char -> bool, x: Inputs, y: Inputs)
    requires !space(SEPARATOR) && Raw(space, x) == Raw(space, y)
    requires Unambiguous(space, x)
    ensures Normal(space, x) == Normal(space, y)
  {
    var n, n' := Normal(space, x), Normal(space, y);
    RawShape(space, x);
    RawShape(space, y);
    CountIsLast(Body(n.cv, n.title, n.description), x.count, Body(n'.cv, n'.title, n'.description), y.count);
    StripTrims(space, y.cv);
    StripTrims(space, y.title);
    StripTrims(space, y.description);
    BodyTells(space, n.cv, n.title, n.description, n'.cv, n'.title, n'.description);
  }

  /** A field cut at a bare separator gives two trimmed fields. */
  lemma CutIsTrimmed(space: char -> bool, s: string, i: int)
    requires Trimmed(space, s) && BareSeparatorAt(space, s, i)
    ensures Trimmed(space, s[..i]) && Trimmed(space, s[i + 1..]) && s == s[..i] + [SEPARATOR] + s[i + 1..]
  {
  }

  lemma JoinedIsTrimmed(space: char -> bool, a: string, b: string)
    requires !space(SEPARATOR) && Trimmed(space, a) && Trimmed(space, b)
    ensures Trimmed(space, a + [SEPARATOR] + b)
  {
  }

  lemma SameBodySameText(space: char -> bool, x: Inputs, y: Inputs)
    requires Trimmed(space, y.cv) && Trimmed(space, y.title) && Trimmed(space, y.description) && y.count == x.count
    requires var n := Normal(space, x); Body(n.cv, n.title, n.description) == Body(y.cv, y.title, y.description)
    ensures Raw(space, x) == Raw(space, y) && Normal(space, y) == y
  {
    TrimmedStaysAsIs(space, y.cv);
    TrimmedStaysAsIs(space, y.title);
    TrimmedStaysAsIs(space, y.description);
    RawShape(space, x);
    RawShape(space, y);
  }

  /** Of three separators any two can be the ones between fields. */
  lemma Regroup(a: string, b: string, c: string, d: string)
    ensures Body(a + [SEPARATOR] + b, c, d) == Body(a, b, c + [SEPARATOR] + d)
    ensures Body(a, b + [SEPARATOR] + c, d) == Body(a, b, c + [SEPARATOR] + d)
  {
    assert a + [SEPARATOR] + (b + [SEPARATOR] + c) + [SEPARATOR] + d == a + [SEPARATOR] + b + [SEPARATOR] + (c + [SEPARATOR] + d);
    assert (a + [SEPARATOR] + b) + [SEPARATOR] + c + [SEPARATOR] + d == a + [SEPARATOR] + b + [SEPARATOR] + (c + [SEPARATOR] + d);
  }

  lemma CutFirst(space: char -> bool, a: string, b: string, c: string) returns (a': string, b': string, c': string)
    requires !space(SEPARATOR) && Trimmed(space, a) && Trimmed(space, b) && Trimmed(space, c) && Ambiguous(space, a)
    ensures Trimmed(space, a') && Trimmed(space, b') && Trimmed(space, c')
    ensures Body(a', b', c') == Body(a, b, c) && a' != a
  {
    var i :| 0 <= i < |a| && BareSeparatorAt(space, a, i);
    CutIsTrimmed(space, a, i);
    JoinedIsTrimmed(space, b, c);
    a', b', c' := a[..i], a[i + 1..], b + [SEPARATOR] + c;
    Regroup(a', b', b, c);
  }

  lemma CutSecond(space: char -> bool, a: string, b: string, c: string) returns (a': string, b': string, c': string)
    requires !space(SEPARATOR) && Trimmed(space, a) && Trimmed(space, b) && Trimmed(space, c) && Ambiguous(space, b)
    ensures Trimmed(space, a') && Trimmed(space, b') && Trimmed(space, c')
    ensures Body(a', b', c') == Body(a, b, c) && b' != b
  {
    var i :| 0 <= i < |b| && BareSeparatorAt(space, b, i);
    CutIsTrimmed(space, b, i);
    JoinedIsTrimmed(space, b[i + 1..], c);
    a', b', c' := a, b[..i], b[i + 1..] + [SEPARATOR] + c;
    Regroup(a, b', b[i + 1..], c);
    assert |b'| < |b|;
  }

  lemma CutThird(space: char -> bool, a: string, b: string, c: string) returns (a': string, b': string, c': string)
    requires !space(SEPARATOR) && Trimmed(space, a) && Trimmed(space, b) && Trimmed(space, c) && Ambiguous(space, c)
    ensures Trimmed(space, a') && Trimmed(space, b') && Trimmed(space, c')
    ensures Body(a', b', c') == Body(a, b, c) && a' != a
  {
    var i :| 0 <= i < |c| && BareSeparatorAt(space, c, i);
    CutIsTrimmed(space, c, i);
    JoinedIsTrimmed(space, a, b);
    a', b', c' := a + [SEPARATOR] + b, c[..i], c[i + 1..];
    Regroup(a, b, b', c');
    assert |a'| > |a|;
  }

  /** A bare separator in a field can be taken for one between fields. */
  lemma AmbiguousTextMisleads(space: char -> bool, x: Inputs) returns (y: Inputs)
    requires !space(SEPARATOR)
    requires !Unambiguous(space, x)
    ensures Raw(space, y) == Raw(space, x) && Normal(space, y) != Normal(space, x)
  {
    var n := Normal(space, x);
    StripTrims(space, x.cv);
    StripTrims(space, x.title);
    StripTrims(space, x.description);
    var a, b, c;
    if Ambiguous(space, n.cv) {
      a, b, c := CutFirst(space, n.cv, n.title, n.description);
    } else if Ambiguous(space, n.title) {
      a, b, c := CutSecond(space, n.cv, n.title, n.description);
    } else {
      a, b, c := CutThird(space, n.cv, n.title, n.description);
    }
    y := Inputs(a, b, c, x.count);
    SameBodySameText(space, x, y);
  }

  /**
    Inputs are told from all others, up to surrounding space, exactly when no stripped field holds a
    separator that has no space beside it.
  */
  lemma TextTellsIff(space: char -> bool, x: Inputs)
    requires !space(SEPARATOR)
    ensures (forall y :: Raw(space, y) == Raw(space, x) ==> Normal(space, y) == Normal(space, x))
            <==> Unambiguous(space, x)
  {
    if Unambiguous(space, x) {
      forall y | Raw(space, y) == Raw(space, x)
        ensures Normal(space, y) == Normal(space, x)
      {
        UnambiguousTextTells(space, x, y);
      }
    } else {
      var y := AmbiguousTextMisleads(space, x);
    }
  }
}
