/** Getting a JSON object out of a model's answer, which may be fenced or surrounded by prose. */
module JsonExtraction {
  import opened Wrappers
  import opened Text

  /** `same(c, d)`: `c` matches the letter `d` when case is ignored.  `parse` is the JSON parser. */
  datatype Reader<!V> = Reader(space: char -> bool, same: (char, char) -> bool, parse: string -> Option<V>)

  const FENCE: string := "```"

  /** The first position of `c`, or the length. */
  function Index(s: string, c: char): (i: nat)
    ensures i <= |s| && (forall k | 0 <= k < i :: s[k] != c) && (i < |s| ==> s[i] == c)
  {
    if s == "" || s[0] == c then 0 else 1 + Index(s[1..], c)
  }

  /** One more than the last position of `c`, or 0. */
  function LastIndex(s: string, c: char): (j: nat)
    ensures j <= |s| && (forall k | j <= k < |s| :: s[k] != c) && (j > 0 ==> s[j - 1] == c)
  {
    if s == "" then 0 else if s[|s| - 1] == c then |s| else LastIndex(s[..|s| - 1], c)
  }

  /** The longest stretch from a '{' to a '}'. */
  function Braced(s: string): Option<string> {
    var i, j := Index(s, '{'), LastIndex(s, '}');
    if i < j then Some(s[i..j]) else None
  }

  predicate TagAt<V>(reader: Reader<V>, s: string) {
    |s| >= 4 && reader.same(s[0], 'j') && reader.same(s[1], 's') && reader.same(s[2], 'o') && reader.same(s[3], 'n')
  }

  predicate Fenced(s: string) {
    FENCE <= s
  }

  function WithoutOpening<V>(reader: Reader<V>, s: string): string
    requires Fenced(s)
  {
    var rest := s[3..];
    StripLeft(reader.space, if TagAt(reader, rest) then rest[4..] else rest)
  }

  function WithoutClosing<V>(reader: Reader<V>, s: string): string {
    if |s| >= 3 && s[|s| - 3..] == FENCE then StripRight(reader.space, s[..|s| - 3]) else s
  }

  function Unfenced<V>(reader: Reader<V>, raw: string): Option<string> {
    var cleaned := Strip(reader.space, raw);
    if Fenced(cleaned) then Some(Strip(reader.space, WithoutClosing(reader, WithoutOpening(reader, cleaned)))) else None
  }

  function Attempt<V>(reader: Reader<V>, text: Option<string>): Option<V> {
    if text.Some? then reader.parse(text.value) else None
  }

  /** `_parse_json_response`; nothing stands for the error. */
  function ParseResponse<V>(reader: Reader<V>, raw: string): Option<V> {
    if raw == "" then None
    else if reader.parse(raw).Some? then reader.parse(raw)
    else if Attempt(reader, Unfenced(reader, raw)).Some? then Attempt(reader, Unfenced(reader, raw))
    else
      var braced := Braced(raw);
      if braced.Some? then reader.parse(Strip(reader.space, braced.value)) else None
  }

  // ---------- wrapping ----------

  /** A text from '{' to '}'. */
  predicate ObjectText(t: string) {
    |t| >= 2 && t[0] == '{' && t[|t| - 1] == '}'
  }

  predicate Blank(space: char -> bool, s: string) {
    forall c | c in s :: space(c)
  }

  /** Braces and backticks are no spaces; a space or a brace is not the letter j. */
  ghost predicate Sensible<V>(reader: Reader<V>) {
    && !reader.space('{') && !reader.space('}') && !reader.space('`')
    && forall c | reader.same(c, 'j') :: !reader.space(c) && c != '{'
  }

  /** No tag, or "json" in any case. */
  predicate IsTag<V>(reader: Reader<V>, tag: string) {
    tag == ""
    || (|tag| == 4 && reader.same(tag[0], 'j') && reader.same(tag[1], 's') && reader.same(tag[2], 'o') && reader.same(tag[3], 'n'))
  }

  function InFence(tag: string, a: string, t: string, b: string): string {
    "```" + tag + a + t + b + "```"
  }

  lemma OpeningIsTaken<V>(reader: Reader<V>, tag: string, a: string, t: string, b: string)
    requires Sensible(reader) && ObjectText(t) && Blank(reader.space, a) && IsTag(reader, tag)
    ensures Fenced(InFence(tag, a, t, b))
    ensures WithoutOpening(reader, InFence(tag, a, t, b)) == t + b + FENCE
  {
    var s, tail := InFence(tag, a, t, b), t + b + FENCE;
    assert s[3..] == tag + (a + tail);
    assert s[..3] == FENCE;
    if tag == "" {
      assert tag + (a + tail) == a + tail;
      assert (a + tail)[0] == if a == "" then '{' else a[0];
      assert !TagAt(reader, a + tail);
    } else {
      assert (tag + (a + tail))[..4] == tag;
      assert (tag + (a + tail))[4..] == a + tail;
    }
    AllSpaceStrips(reader.space, a);
    assert tail[0] == '{';
    StripLeftStops(reader.space, a, tail);
    assert "" + tail == tail;
  }

  lemma ClosingIsTaken<V>(reader: Reader<V>, t: string, b: string)
    requires Sensible(reader) && ObjectText(t) && Blank(reader.space, b)
    ensures WithoutClosing(reader, t + b + FENCE) == t
  {
    var s := t + b + FENCE;
    assert s[|s| - 3..] == FENCE && s[..|s| - 3] == t + b;
    AllSpaceStrips(reader.space, b);
    StripRightStops(reader.space, t, b);
    assert t + "" == t;
  }

  lemma UnfencingUndoesFencing<V>(reader: Reader<V>, x: string, tag: string, a: string, t: string, b: string, y: string)
    requires Sensible(reader) && ObjectText(t) && IsTag(reader, tag)
    requires Blank(reader.space, a) && Blank(reader.space, b) && Blank(reader.space, x + y)
    ensures Unfenced(reader, x + InFence(tag, a, t, b) + y) == Some(t)
  {
    var s := InFence(tag, a, t, b);
    assert s[0] == '`' && s[|s| - 1] == '`';
    StripUndoesPadding(reader.space, x, s, y);
    OpeningIsTaken(reader, tag, a, t, b);
    ClosingIsTaken(reader, t, b);
    StripUndoesPadding(reader.space, "", t, "");
    assert "" + t + "" == t;
  }

  /**
    An object put in a code fence, with or without the json tag in any case, and with any space inside
    and around the fence, comes out as the parse of the object, unless the parser accepts the fence too.
  */
  lemma FencedObjectIsParsed<V>(reader: Reader<V>, x: string, tag: string, a: string, t: string, b: string, y: string)
    requires Sensible(reader) && ObjectText(t) && IsTag(reader, tag)
    requires Blank(reader.space, a) && Blank(reader.space, b) && Blank(reader.space, x + y)
    requires reader.parse(t).Some? && reader.parse(x + InFence(tag, a, t, b) + y).None?
    ensures ParseResponse(reader, x + InFence(tag, a, t, b) + y) == reader.parse(t)
  {
    UnfencingUndoesFencing(reader, x, tag, a, t, b, y);
  }

  lemma IndexFinds(before: string, rest: string, c: char)
    requires rest != "" && rest[0] == c
    ensures Index(before + rest, c) <= |before| && (Index(before + rest, c) == |before| <==> c !in before)
  {
    var s := before + rest;
    assert s[|before|] == c;
    assert s[..|before|] == before;
    if k :| 0 <= k < |before| && before[k] == c {
      assert s[k] == c;
    } else {
      assert forall k | 0 <= k < |before| :: s[k] == before[k];
    }
  }

  lemma LastIndexFinds(rest: string, after: string, c: char)
    requires rest != "" && rest[|rest| - 1] == c
    ensures LastIndex(rest + after, c) >= |rest| && (LastIndex(rest + after, c) == |rest| <==> c !in after)
  {
    var s := rest + after;
    assert s[|rest| - 1] == c;
    if k :| 0 <= k < |after| && after[k] == c {
      assert s[|rest| + k] == c;
    } else {
      assert forall k | |rest| <= k < |s| :: s[k] == after[k - |rest|];
    }
  }

  /** An object is found in its prose exactly when the prose has no brace that faces it. */
  lemma BracedFindsIff(before: string, t: string, after: string)
    requires ObjectText(t)
    ensures Braced(before + t + after) == Some(t) <==> '{' !in before && '}' !in after
  {
    var s := before + t + after;
    assert s == before + (t + after);
    IndexFinds(before, t + after, '{');
    LastIndexFinds(before + t, after, '}');
    var i, j := Index(s, '{'), LastIndex(s, '}');
    assert s[|before|..|before| + |t|] == t;
    assert |s[i..j]| == j - i;
  }

  /**
    An object surrounded by prose that has no '{' before it and no '}' after it comes out as the
    parse of the object, unless an earlier stage has succeeded on the whole.
  */
  lemma ObjectInProseIsParsed<V>(reader: Reader<V>, before: string, t: string, after: string)
    requires Sensible(reader) && ObjectText(t) && '{' !in before && '}' !in after
    requires var raw := before + t + after;
             reader.parse(raw).None? && Attempt(reader, Unfenced(reader, raw)).None?
    ensures ParseResponse(reader, before + t + after) == reader.parse(t)
  {
    BracedFindsIff(before, t, after);
    StripUndoesPadding(reader.space, "", t, "");
    assert "" + t + "" == t;
  }

  // ---------- what comes out, and when nothing does ----------

  /** The parser accepts the text. */
  predicate Accepts<V>(reader: Reader<V>, text: string) {
    reader.parse(text).Some?
  }

  /** A text the parser accepts comes out as its own parse, whatever braces or fences it holds. */
  lemma PlainJsonIsItsOwnParse<V>(reader: Reader<V>, raw: string)
    requires raw != "" && Accepts(reader, raw)
    ensures ParseResponse(reader, raw) == reader.parse(raw)
  {
  }

  /** The text is a fence around `t`: space, opening, tag, space, `t`, space, closing or none, space. */
  ghost predicate FencedAs<V>(reader: Reader<V>, raw: string, t: string, x: string, tag: string, a: string, b: string,
                              close: string, y: string)
  {
    && raw == x + "```" + tag + a + t + b + close + y && IsTag(reader, tag) && (close == "" || close == "```")
    && Blank(reader.space, x) && Blank(reader.space, a) && Blank(reader.space, b) && Blank(reader.space, y)
    && Trimmed(reader.space, t)
  }

  /** `t` is what a fence at the start of the text holds. */
  ghost predicate FenceHolds<V>(reader: Reader<V>, raw: string, t: string) {
    exists x, tag, a, b, close, y :: FencedAs(reader, raw, t, x, tag, a, b, close, y)
  }

  lemma OpeningComesOff<V>(reader: Reader<V>, s: string) returns (tag: string, a: string)
    requires Fenced(s)
    ensures s == "```" + tag + a + WithoutOpening(reader, s) && IsTag(reader, tag) && Blank(reader.space, a)
  {
    var rest, tail := s[3..], s[3..];
    tag := "";
    if TagAt(reader, rest) {
      tag, tail := rest[..4], rest[4..];
    }
    a := StripLeftDrops(reader.space, tail);
    Reassembled(s, rest, tag, tail, a, StripLeft(reader.space, tail));
  }

  lemma Reassembled(s: string, rest: string, tag: string, tail: string, a: string, body: string)
    requires Fenced(s) && rest == s[3..] && rest == tag + tail && tail == a + body
    ensures s == "```" + tag + a + body
  {
    assert s == s[..3] + s[3..];
  }

  lemma ClosingComesOff<V>(reader: Reader<V>, s: string) returns (b: string, close: string)
    ensures s == WithoutClosing(reader, s) + b + close && Blank(reader.space, b) && (close == "" || close == "```")
  {
    b, close := "", "";
    if |s| >= 3 && s[|s| - 3..] == FENCE {
      close := FENCE;
      b := StripRightDrops(reader.space, s[..|s| - 3]);
      assert s == s[..|s| - 3] + FENCE;
    }
  }

  /** What is read in the second stage is what the fence holds, and there is one exactly if the stripped text starts with a fence. */
  lemma UnfencedIsHeld<V>(reader: Reader<V>, raw: string)
    ensures Unfenced(reader, raw).Some? <==> "```" <= Strip(reader.space, raw)
    ensures Unfenced(reader, raw).Some? ==> FenceHolds(reader, raw, Unfenced(reader, raw).value)
  {
    var s := Strip(reader.space, raw);
    if Fenced(s) {
      var x, y := StripDrops(reader.space, raw);
      var tag, a := OpeningComesOff(reader, s);
      var body := WithoutOpening(reader, s);
      var b, close := ClosingComesOff(reader, body);
      var inner := WithoutClosing(reader, body);
      var c, d := StripDrops(reader.space, inner);
      var t := Strip(reader.space, inner);
      PutTogether(x, tag, a, c, t, d, b, close, y, raw);
      BlankTogether(reader.space, a, c, d, b);
      BlankTogether(reader.space, "", x, y, "");
      assert "" + x == x && y + "" == y;
      assert FencedAs(reader, raw, t, x, tag, a + c, d + b, close, y);
    }
  }

  lemma BlankTogether(space: char -> bool, a: string, c: string, d: string, b: string)
    requires forall k | k in c + d :: space(k)
    requires Blank(space, a) && Blank(space, b)
    ensures Blank(space, a + c) && Blank(space, d + b)
  {
    assert forall k | k in c :: k in c + d;
    assert forall k | k in d :: k in c + d;
  }

  lemma PutTogether(x: string, tag: string, a: string, c: string, t: string, d: string, b: string, close: string, y: string, raw: string)
    requires raw == x + ("```" + tag + a + ((c + t + d) + b + close)) + y
    ensures raw == x + "```" + tag + (a + c) + t + (d + b) + close + y
  {
  }

  /**
    Nothing comes out if and only if the text is empty, or the parser rejects the text, what its fence
    holds if there is one, and the stripped stretch between its outer braces if there is one; otherwise
    the parse of the first of these that it accepts.
  */
  lemma NothingComesOutIff<V>(reader: Reader<V>, raw: string)
    ensures ParseResponse(reader, raw).None?
            <==> raw == "" || (!Accepts(reader, raw)
                               && (Unfenced(reader, raw).Some? ==> !Accepts(reader, Unfenced(reader, raw).value))
                               && (Braced(raw).Some? ==> !Accepts(reader, Strip(reader.space, Braced(raw).value))))
    ensures ParseResponse(reader, raw).Some? ==>
              ParseResponse(reader, raw) ==
                if Accepts(reader, raw) then reader.parse(raw)
                else if Unfenced(reader, raw).Some? && Accepts(reader, Unfenced(reader, raw).value)
                then reader.parse(Unfenced(reader, raw).value)
                else if Braced(raw).Some? then reader.parse(Strip(reader.space, Braced(raw).value)) else None
  {
  }

  /** The stretch between the outer braces runs from the first '{' to the last '}', if that comes later. */
  lemma BracedIsOuter(raw: string)
    ensures Braced(raw).None? <==> forall i, j | 0 <= i < j < |raw| :: !(raw[i] == '{' && raw[j] == '}')
    ensures Braced(raw).Some? ==>
              exists i, j | 0 <= i < j < |raw| ::
                && raw[i] == '{' && raw[j] == '}' && Braced(raw).value == raw[i..j + 1]
                && '{' !in raw[..i] && '}' !in raw[j + 1..]
  {
    var i, j := Index(raw, '{'), LastIndex(raw, '}');
    if i < j {
      assert raw[i] == '{' && raw[j - 1] == '}';
      assert raw[i..j - 1 + 1] == raw[i..j];
    } else {
      forall h, k | 0 <= h < k < |raw|
        ensures !(raw[h] == '{' && raw[k] == '}')
      {
        assert h >= i || raw[h] != '{';
      }
    }
  }
}
