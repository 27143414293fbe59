/**
  What the client sees: which presented tokens are granted and what is then answered, told from the
  requests and replies so far alone.
*/
module TokenReplies {
  import opened RefreshTokens
  import opened TokenChains
  import opened TokenLog

  // ---------- what a log says ----------

  /** At `j` a token of family `f` is presented for logout or detected as reused. */
  ghost predicate Ends(log: seq<Exchange>, j: nat, f: FamilyId)
    requires j < |log|
  {
    Revokes(log[j]) && exists i | 0 <= i < j :: Mints(log[i], log[j].event.op.presented) && TokenOf(log[i]).family == f
  }

  /** `raw` is minted at `k` as the last of its family, which has not ended since. */
  ghost predicate LastOfFamily(log: seq<Exchange>, k: nat, raw: RawToken) {
    && k < |log| && Mints(log[k], raw)
    && forall j: nat | k < j < |log| :: !MintsFor(log[j], TokenOf(log[k]).family) && !Ends(log, j, TokenOf(log[k]).family)
  }

  /** At `j` the token `raw` was exchanged for a new one. */
  predicate Exchanged(log: seq<Exchange>, j: nat, raw: RawToken) {
    j < |log| && IsMint(log[j]) && log[j].event.op.Refresh? && log[j].event.op.presented == raw
  }

  // ---------- the facts, told from the log ----------

  lemma {:induction false} TokenIs(log: seq<Exchange>, k: nat)
    requires Orderly(log) && k < |log| && IsMint(log[k])
    ensures TokenOf(log[k]).raw in FactsOf(log).tokens && FactsOf(log).tokens[TokenOf(log[k]).raw] == TokenOf(log[k])
    decreases |log|
  {
    if k < |log| - 1 {
      TokenIs(log[..|log| - 1], k);
      assert Follows(log[k], log[|log| - 1]);
    }
  }

  lemma {:induction false} MintOfToken(log: seq<Exchange>, raw: RawToken) returns (k: nat)
    requires raw in FactsOf(log).tokens
    ensures k < |log| && IsMint(log[k]) && TokenOf(log[k]) == FactsOf(log).tokens[raw] && (IsMint(log[k]) ==> TokenOf(log[k]).raw == raw)
    decreases |log|
  {
    var last := |log| - 1;
    if Mints(log[last], raw) {
      k := last;
    } else {
      k := MintOfToken(log[..last], raw);
    }
  }

  lemma {:induction false} RotationIs(log: seq<Exchange>, j: nat, raw: RawToken)
    requires Orderly(log) && Exchanged(log, j, raw)
    ensures raw in FactsOf(log).rotated
    ensures FactsOf(log).rotated[raw] == Rotation(TokenOf(log[j]), log[j].event.now, log[j].event.op.writable)
    decreases |log|
  {
    if j < |log| - 1 {
      assert Exchanged(log[..|log| - 1], j, raw);
      RotationIs(log[..|log| - 1], j, raw);
      assert Follows(log[j], log[|log| - 1]);
    }
  }

  lemma {:induction false} ExchangeOfRotation(log: seq<Exchange>, raw: RawToken) returns (j: nat)
    requires raw in FactsOf(log).rotated
    ensures Exchanged(log, j, raw)
    ensures FactsOf(log).rotated[raw] == Rotation(TokenOf(log[j]), log[j].event.now, log[j].event.op.writable)
    decreases |log|
  {
    var last := |log| - 1;
    if Exchanged(log, last, raw) {
      j := last;
    } else {
      j := ExchangeOfRotation(log[..last], raw);
    }
  }

  /** Among the first `n` exchanges an end is the same as among all. */
  lemma EndsAmongFirst(log: seq<Exchange>, n: nat, j: nat, f: FamilyId)
    requires j < n <= |log|
    ensures Ends(log[..n], j, f) <==> Ends(log, j, f)
  {
    assert forall i | 0 <= i < j :: log[..n][i] == log[i];
  }

  lemma RevokesUnknown(log: seq<Exchange>, f: FamilyId)
    requires log != [] && Orderly(log) && Ends(log, |log| - 1, f)
    ensures var before, p := FactsOf(log[..|log| - 1]), log[|log| - 1].event.op.presented;
            p in before.tokens && before.tokens[p].family == f
  {
    var last := |log| - 1;
    var i :| 0 <= i < last && Mints(log[i], log[last].event.op.presented) && TokenOf(log[i]).family == f;
    TokenIs(log[..last], i);
  }

  lemma {:induction false} CurrentIsLast(log: seq<Exchange>, f: FamilyId) returns (k: nat)
    requires Orderly(log) && f in FactsOf(log).current
    ensures LastOfFamily(log, k, FactsOf(log).current[f]) && TokenOf(log[k]).family == f
    decreases |log|
  {
    var last := |log| - 1;
    var before, x := log[..last], log[last];
    if MintsFor(x, f) {
      k := last;
    } else {
      k := CurrentIsLast(before, f);
      forall j: nat | k < j < |log|
        ensures !MintsFor(log[j], f) && !Ends(log, j, f)
      {
        if j < last {
          assert before[j] == log[j];
          EndsAmongFirst(log, last, j, f);
        } else if Ends(log, last, f) {
          RevokesUnknown(log, f);
        }
      }
    }
  }

  lemma {:induction false} LastIsCurrent(log: seq<Exchange>, k: nat, raw: RawToken)
    requires Orderly(log) && LastOfFamily(log, k, raw)
    ensures TokenOf(log[k]).family in FactsOf(log).current && FactsOf(log).current[TokenOf(log[k]).family] == raw
    decreases |log|
  {
    var last := |log| - 1;
    if k < last {
      var before, x, f := log[..last], log[last], TokenOf(log[k]).family;
      forall j: nat | k < j < last
        ensures !MintsFor(before[j], f) && !Ends(before, j, f)
      {
        EndsAmongFirst(log, last, j, f);
      }
      LastIsCurrent(before, k, raw);
      if Revokes(x) && x.event.op.presented in FactsOf(before).tokens {
        var i := MintOfToken(before, x.event.op.presented);
        assert log[i] == before[i] && !Ends(log, last, f);
      }
    }
  }

  /** A clean-up has run after this time. */
  ghost predicate CleanedUp(log: seq<Exchange>, time: int) {
    exists j | 0 <= j < |log| :: log[j].event.op.Cleanup? && log[j].event.now > time
  }

  lemma {:induction false} CleanedIs(log: seq<Exchange>, time: int)
    requires Orderly(log)
    ensures CleanedPast(FactsOf(log), time) <==> CleanedUp(log, time)
    ensures var c := FactsOf(log).cleaned; c.Some? ==> log != [] && c.value <= log[|log| - 1].event.now
    decreases |log|
  {
    if log != [] {
      var last := |log| - 1;
      var before, x := log[..last], log[last];
      CleanedIs(before, time);
      assert forall j | 0 <= j < last :: before[j] == log[j];
      assert last > 0 ==> Follows(log[last - 1], x);
    }
  }

  /** The token has the user of the login that started its family, and the expiry fixed then, 30 days later. */
  ghost predicate FromLogin(log: seq<Exchange>, t: Issued) {
    exists b: nat | b < |log| ::
      log[b].event.op.Login? && log[b].event.op.family == t.family && log[b].event.op.user == t.user
      && t.expiresAt == log[b].event.now + 30 * 24 * 3600 * SECOND
  }

  lemma {:induction false} StartIsLogin(log: seq<Exchange>, f: FamilyId) returns (b: nat)
    requires f in FactsOf(log).starts
    ensures b < |log| && log[b].event.op.Login? && log[b].event.op.family == f
    ensures FactsOf(log).starts[f] == Start(log[b].event.op.user, log[b].event.now)
    decreases |log|
  {
    var last := |log| - 1;
    if IsMint(log[last]) && log[last].event.op.Login? && log[last].event.op.family == f {
      b := last;
    } else {
      b := StartIsLogin(log[..last], f);
    }
  }

  // ---------- which tokens are granted ----------

  /** The token presented is the last of its family, which has neither ended nor reached its cap. */
  ghost predicate Good(log: seq<Exchange>, k: nat, e: Event)
    requires e.op.Refresh?
  {
    LastOfFamily(log, k, e.op.presented) && e.now <= TokenOf(log[k]).expiresAt
  }

  /** The token presented was exchanged less than five seconds ago, and the cache took note and can be read. */
  ghost predicate InGrace(log: seq<Exchange>, j: nat, e: Event)
    requires e.op.Refresh?
  {
    && Exchanged(log, j, e.op.presented) && log[j].event.op.writable && e.op.readable
    && e.now < log[j].event.now + 5 * SECOND && e.now <= TokenOf(log[j]).expiresAt
  }

  /** What is answered, in view of the facts. */
  predicate DueByFacts(k: Facts, e: Event, reply: Outcome)
    requires e.op.Refresh?
  {
    var p := e.op.presented;
    if p !in k.tokens then reply == Rejected(InvalidToken)
    else if e.now > k.tokens[p].expiresAt then
      reply == Rejected(if CleanedPast(k, k.tokens[p].expiresAt) then InvalidToken else SessionExpired)
    else if IsCurrent(k, p) then reply == Granted(k.tokens[p].(raw := e.op.raw))
    else if p in k.rotated && k.rotated[p].noted && e.op.readable && e.now < k.rotated[p].at + GRACE_PERIOD then
      reply == Granted(k.rotated[p].issued)
    else reply == Rejected(ReuseDetected)
  }

  ghost predicate TokensInherit(k: Facts) {
    forall raw | raw in k.tokens :: Inherits(k, k.tokens[raw])
  }

  /** The answer, from the facts. */
  lemma AnswerFromFacts(s: Store, l: Ledger, clock: int, k: Facts, e: Event)
    requires AllKnown(l, s.rows) && Book(s, l, clock, k) && clock <= e.now && e.op.Refresh? && Fresh(l, e.op)
    ensures Apply(s, e).1.Some? && DueByFacts(k, e, Apply(s, e).1.value)
    ensures TokensInherit(k)
  {
    var h := Digest(e.op.presented);
    if h in s.rows {
      assert RowKnown(l, h, s.rows[h]);
    }
  }

  lemma GoodIs(log: seq<Exchange>, k: nat, e: Event)
    requires Orderly(log) && e.op.Refresh? && Good(log, k, e)
    ensures var facts, p := FactsOf(log), e.op.presented;
            IsCurrent(facts, p) && facts.tokens[p] == TokenOf(log[k]) && e.now <= facts.tokens[p].expiresAt
  {
    TokenIs(log, k);
    LastIsCurrent(log, k, e.op.presented);
  }

  lemma CurrentIsGood(log: seq<Exchange>, e: Event)
    requires Orderly(log) && e.op.Refresh? && IsCurrent(FactsOf(log), e.op.presented)
    requires e.now <= FactsOf(log).tokens[e.op.presented].expiresAt
    ensures exists k: nat :: Good(log, k, e)
  {
    var k := CurrentIsLast(log, FactsOf(log).tokens[e.op.presented].family);
    TokenIs(log, k);
    assert Good(log, k, e);
  }

  lemma GraceIs(log: seq<Exchange>, j: nat, e: Event)
    requires Orderly(log) && e.op.Refresh? && InGrace(log, j, e)
    ensures var facts, p := FactsOf(log), e.op.presented;
            && p in facts.rotated && facts.rotated[p].noted && facts.rotated[p].issued == TokenOf(log[j])
            && e.now < facts.rotated[p].at + GRACE_PERIOD && e.now <= facts.rotated[p].issued.expiresAt
  {
    RotationIs(log, j, e.op.presented);
  }

  lemma RotatedIsInGrace(log: seq<Exchange>, e: Event)
    requires Orderly(log) && e.op.Refresh? && e.op.readable && e.op.presented in FactsOf(log).rotated
    requires var r := FactsOf(log).rotated[e.op.presented];
             r.noted && e.now < r.at + GRACE_PERIOD && e.now <= r.issued.expiresAt
    ensures exists j: nat :: InGrace(log, j, e)
  {
    var j := ExchangeOfRotation(log, e.op.presented);
    assert InGrace(log, j, e);
  }

  /** What a presented token has to be answered, in view of the log. */
  ghost predicate Due(log: seq<Exchange>, e: Event, reply: Outcome)
    requires e.op.Refresh?
  {
    && (reply.Granted? <==> (exists k: nat :: Good(log, k, e)) || exists j: nat :: InGrace(log, j, e))
    && (forall k: nat | Good(log, k, e) :: reply == Granted(TokenOf(log[k]).(raw := e.op.raw)) && FromLogin(log, TokenOf(log[k])))
    && (forall j: nat | InGrace(log, j, e) :: reply == Granted(TokenOf(log[j])))
    && ((forall i | 0 <= i < |log| :: !Mints(log[i], e.op.presented)) ==> reply == Rejected(InvalidToken))
    && (forall i | 0 <= i < |log| && Mints(log[i], e.op.presented) && reply.Rejected? ::
          reply.why == if e.now <= TokenOf(log[i]).expiresAt then ReuseDetected
                       else if CleanedUp(log, TokenOf(log[i]).expiresAt) then InvalidToken else SessionExpired)
  }

  lemma GrantsAreDue(log: seq<Exchange>, e: Event, reply: Outcome)
    requires Orderly(log) && e.op.Refresh? && DueByFacts(FactsOf(log), e, reply) && RotationsOk(FactsOf(log))
    ensures forall k: nat | Good(log, k, e) :: reply == Granted(TokenOf(log[k]).(raw := e.op.raw))
    ensures forall j: nat | InGrace(log, j, e) :: reply == Granted(TokenOf(log[j]))
    ensures reply.Granted? ==> (exists k: nat :: Good(log, k, e)) || exists j: nat :: InGrace(log, j, e)
  {
    forall k: nat | Good(log, k, e)
      ensures reply == Granted(TokenOf(log[k]).(raw := e.op.raw))
    {
      GoodIs(log, k, e);
    }
    forall j: nat | InGrace(log, j, e)
      ensures reply == Granted(TokenOf(log[j]))
    {
      GraceIs(log, j, e);
    }
    if reply.Granted? {
      if IsCurrent(FactsOf(log), e.op.presented) {
        CurrentIsGood(log, e);
      } else {
        RotatedIsInGrace(log, e);
      }
    }
  }

  lemma TokensStemFromLogins(log: seq<Exchange>, k: nat)
    requires Orderly(log) && TokensInherit(FactsOf(log)) && k < |log| && IsMint(log[k])
    ensures FromLogin(log, TokenOf(log[k]))
  {
    TokenIs(log, k);
    var b := StartIsLogin(log, TokenOf(log[k]).family);
    assert Inherits(FactsOf(log), TokenOf(log[k]));
  }

  lemma RejectionsAreDue(log: seq<Exchange>, e: Event, reply: Outcome)
    requires Orderly(log) && e.op.Refresh? && DueByFacts(FactsOf(log), e, reply)
    ensures (forall i | 0 <= i < |log| :: !Mints(log[i], e.op.presented)) ==> reply == Rejected(InvalidToken)
    ensures forall i | 0 <= i < |log| && Mints(log[i], e.op.presented) && reply.Rejected? ::
              reply.why == if e.now <= TokenOf(log[i]).expiresAt then ReuseDetected
                           else if CleanedUp(log, TokenOf(log[i]).expiresAt) then InvalidToken else SessionExpired
  {
    if e.op.presented in FactsOf(log).tokens {
      var k := MintOfToken(log, e.op.presented);
    }
    forall i | 0 <= i < |log| && Mints(log[i], e.op.presented) && reply.Rejected?
      ensures reply.why == if e.now <= TokenOf(log[i]).expiresAt then ReuseDetected
                           else if CleanedUp(log, TokenOf(log[i]).expiresAt) then InvalidToken else SessionExpired
    {
      TokenIs(log, i);
      CleanedIs(log, TokenOf(log[i]).expiresAt);
    }
  }

  lemma FactsAreDue(log: seq<Exchange>, e: Event, reply: Outcome)
    requires Orderly(log) && e.op.Refresh? && DueByFacts(FactsOf(log), e, reply)
    requires RotationsOk(FactsOf(log)) && TokensInherit(FactsOf(log))
    ensures Due(log, e, reply)
  {
    GrantsAreDue(log, e, reply);
    RejectionsAreDue(log, e, reply);
    forall k: nat | Good(log, k, e)
      ensures FromLogin(log, TokenOf(log[k]))
    {
      TokensStemFromLogins(log, k);
    }
  }

  lemma CurrentIsActive(s: Store, l: Ledger, clock: int, k: Facts, raw: RawToken, now: int)
    requires Book(s, l, clock, k) && clock <= now && IsCurrent(k, raw) && now <= k.tokens[raw].expiresAt
    ensures Digest(raw) in s.rows && s.rows[Digest(raw)].status == Active && RowTells(s.rows[Digest(raw)], k.tokens[raw])
  {
  }

  lemma OneActive(rows: map<Digest, Row>, k: Facts, raw: RawToken)
    requires RowsOk(rows, k) && ActiveOk(rows, k) && raw in k.tokens && Digest(raw) in rows && IsCurrent(k, raw)
    ensures rows[Digest(raw)].family == k.tokens[raw].family
    ensures forall h | h in rows && rows[h].family == k.tokens[raw].family :: rows[h].status == Active <==> h == Digest(raw)
  {
  }

  lemma ExchangeByFacts(s: Store, l: Ledger, clock: int, k: Facts, e: Event)
    requires Book(s, l, clock, k) && clock <= e.now && e.op.Refresh? && Fresh(l, e.op)
    requires IsCurrent(k, e.op.presented) && e.now <= k.tokens[e.op.presented].expiresAt
    ensures var rows, f := Apply(s, e).0.rows, k.tokens[e.op.presented].family;
            && Digest(e.op.raw) in rows && rows[Digest(e.op.raw)].family == f
            && forall h | h in rows && rows[h].family == f :: rows[h].status == Active <==> h == Digest(e.op.raw)
  {
    var x := Exchange(e, Apply(s, e).1);
    CurrentIsActive(s, l, clock, k, e.op.presented, e.now);
    RotationStep(s, l, clock, k, x);
    var row, heir := RotationWrites(s, x);
    OneActive(Apply(s, e).0.rows, Learned(k, x), e.op.raw);
  }

  /** The store and the log when event `n` comes up. */
  lemma {:induction false} TrackedAt(clock: int, events: seq<Event>, n: nat)
    returns (s: Store, l: Ledger, log: seq<Exchange>, clock': int)
    requires ValidRun(NOTHING_YET, clock, events) && n < |events|
    ensures AllKnown(l, s.rows) && Tracked(s, l, clock', log) && clock' <= events[n].now && Fresh(l, events[n].op)
    ensures s == After(EMPTY, events[..n]) && |Log(EMPTY, events)| == |events| && log == Log(EMPTY, events)[..n]
    ensures Log(EMPTY, events)[n] == Exchange(events[n], Apply(s, events[n]).1) && After(EMPTY, events[..n + 1]) == Apply(s, events[n]).0
  {
    RunUpTo(NOTHING_YET, clock, events, n);
    LogUpTo(EMPTY, events, n);
    TrackedUpTo(clock, events, n);
    var chains := InvAfter(clock, events[..n]);
    s, l, log := After(EMPTY, events[..n]), Recorded(NOTHING_YET, events[..n]), Log(EMPTY, events)[..n];
    clock' := TimeAt(clock, events, n);
  }

  /**
    Over every run from the empty store, a token presented for refresh is granted if and only if it is
    the last of its family, no logout or reuse has been seen for the family since, and its cap is not
    reached, or it was exchanged within the grace period and the cache knows of that.  In the first case
    it is exchanged for the fresh token, with the user and family of the login and the expiry fixed
    then; in the second the token given then is given again.  A token never minted is invalid, one past
    its cap expired, or invalid once cleaned up, and any other one not granted is reused.
  */
  lemma {:induction false} RefreshIsAnsweredAsDue(clock: int, events: seq<Event>, n: nat)
    requires ValidRun(NOTHING_YET, clock, events) && n < |events| && events[n].op.Refresh?
    ensures |Replies(EMPTY, events)| == |Log(EMPTY, events)| == |events|
    ensures Replies(EMPTY, events)[n].Some? && Due(Log(EMPTY, events)[..n], events[n], Replies(EMPTY, events)[n].value)
  {
    var s, l, log, clock' := TrackedAt(clock, events, n);
    LogHoldsReplies(EMPTY, events, n);
    AnswerFromFacts(s, l, clock', FactsOf(log), events[n]);
    FactsAreDue(log, events[n], Apply(s, events[n]).1.value);
  }

  /** After a good token has been exchanged, its family has exactly one active row, that of the fresh token. */
  lemma {:induction false} ExchangeLeavesOneActive(clock: int, events: seq<Event>, n: nat, k: nat)
    requires ValidRun(NOTHING_YET, clock, events) && n < |events| && events[n].op.Refresh?
    requires |Log(EMPTY, events)| == |events| && Good(Log(EMPTY, events)[..n], k, events[n])
    ensures var rows, f := After(EMPTY, events[..n + 1]).rows, TokenOf(Log(EMPTY, events)[k]).family;
            && Digest(events[n].op.raw) in rows && rows[Digest(events[n].op.raw)].family == f
            && forall h | h in rows && rows[h].family == f :: rows[h].status == Active <==> h == Digest(events[n].op.raw)
  {
    var s, l, log, clock' := TrackedAt(clock, events, n);
    GoodIs(log, k, events[n]);
    assert log[k] == Log(EMPTY, events)[k];
    ExchangeByFacts(s, l, clock', FactsOf(log), events[n]);
  }
}
