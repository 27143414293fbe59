/**
  What the token system guarantees over whole runs: revoked rows are frozen, revoked families stay
  dead, no token outlives its family's cap, a re-presented token within the grace period gets the
  identical replacement, and the daily clean-up cannot be observed.
*/
module TokenResults {
  import opened Wrappers
  import opened RefreshTokens
  import opened TokenChains

  // ---------- revoked rows never change ----------

  /** Apart from clean-up, a step leaves a revoked row in place as it is. */
  lemma RevokedRowStays(s: Store, l: Ledger, e: Event, h: Digest)
    requires Fresh(l, e.op) && !e.op.Cleanup? && h.raw in l.raws && h in s.rows && s.rows[h].status == Revoked
    ensures h in Apply(s, e).0.rows && Apply(s, e).0.rows[h] == s.rows[h]
  {
  }

  lemma StepFreezes(s: Store, l: Ledger, chains: map<FamilyId, seq<Digest>>, e: Event, h: Digest)
    requires Chained(s.rows, chains) && Fresh(l, e.op) && h.raw in l.raws
    requires h in s.rows && s.rows[h].status == Revoked && h in Apply(s, e).0.rows
    ensures Apply(s, e).0.rows[h] == s.rows[h]
  {
    if e.op.Cleanup? {
      CleanedRows(s, chains, e.now);
    } else {
      RevokedRowStays(s, l, e, h);
    }
  }

  /** A minted hash whose row is gone never gets a row again. */
  lemma StepForgets(s: Store, l: Ledger, e: Event, h: Digest)
    requires Fresh(l, e.op) && h !in s.rows && h.raw in l.raws
    ensures h !in Apply(s, e).0.rows && h.raw in Record(l, e).raws
  {
  }

  lemma {:induction false} RunForgets(s: Store, l: Ledger, clock: int, events: seq<Event>, h: Digest)
    requires ValidRun(l, clock, events) && h !in s.rows && h.raw in l.raws
    ensures h !in After(s, events).rows
    decreases |events|
  {
    if events != [] {
      StepForgets(s, l, events[0], h);
      RunForgets(Apply(s, events[0]).0, Record(l, events[0]), events[0].now, events[1..], h);
    }
  }

  /** As long as it is there, a revoked row keeps its revocation time and its replacement, whatever happens. */
  lemma {:induction false} RevokedRowsAreFrozen(s: Store, l: Ledger, chains: map<FamilyId, seq<Digest>>, clock: int,
                                                events: seq<Event>, h: Digest)
    requires Inv(s, l, chains) && ValidRun(l, clock, events)
    requires h in s.rows && s.rows[h].status == Revoked && h in After(s, events).rows
    ensures After(s, events).rows[h] == s.rows[h]
    decreases |events|
  {
    if events != [] {
      var s', l' := Apply(s, events[0]).0, Record(l, events[0]);
      var chains' := StepKeeps(s, l, chains, events[0]);
      assert RowKnown(l, h, s.rows[h]);
      if h in s'.rows {
        StepFreezes(s, l, chains, events[0], h);
        RevokedRowsAreFrozen(s', l', chains', events[0].now, events[1..], h);
      } else {
        RunForgets(s', l', events[0].now, events[1..], h);
      }
    }
  }

  // ---------- dead families stay dead ----------

  ghost predicate Dead(s: Store, f: FamilyId) {
    forall h | h in s.rows && s.rows[h].family == f :: s.rows[h].status == Revoked
  }

  /** The active rows of the family are revoked now, and nothing else about any row changes. */
  ghost predicate RevokedNow(before: map<Digest, Row>, after: map<Digest, Row>, f: FamilyId, now: int) {
    && after.Keys == before.Keys
    && forall h | h in before ::
         var row, row' := before[h], after[h];
         if row.family == f && row.status == Active
         then row' == Row(row.id, row.user, f, row.familyCreatedAt, Revoked, Some(now), row.replacedBy, row.expiresAt)
         else row' == row
  }

  /** Logout and reuse handling revoke the active rows of the family, and leave it without one. */
  lemma LogoutKills(s: Store, now: int, raw: RawToken)
    requires Digest(raw) in s.rows
    ensures Dead(RevokeByToken(s, now, raw), s.rows[Digest(raw)].family)
    ensures RevokedNow(s.rows, RevokeByToken(s, now, raw).rows, s.rows[Digest(raw)].family, now)
    ensures RevokeByToken(s, now, raw).cache == s.cache
  {
  }

  lemma ReuseKills(s: Store, now: int, presented: RawToken, id: RowId, raw: RawToken, readable: bool, writable: bool)
    requires Rotate(s, now, presented, id, raw, readable, writable).1 == Rejected(ReuseDetected)
    ensures Digest(presented) in s.rows
    ensures Dead(Rotate(s, now, presented, id, raw, readable, writable).0, s.rows[Digest(presented)].family)
    ensures RevokedNow(s.rows, Rotate(s, now, presented, id, raw, readable, writable).0.rows, s.rows[Digest(presented)].family, now)
    ensures Rotate(s, now, presented, id, raw, readable, writable).0.cache == s.cache
  {
  }

  lemma RefreshKeepsDead(s: Store, e: Event, f: FamilyId)
    requires e.op.Refresh? && Dead(s, f)
    ensures Dead(Apply(s, e).0, f)
  {
    var h := Digest(e.op.presented);
    if h in s.rows && e.now <= s.rows[h].expiresAt && s.rows[h].status == Active {
      assert s.rows[h].family != f;
      assert Successor(s.rows[h], e.op.id).family != f;
    }
  }

  lemma StepKeepsDead(s: Store, l: Ledger, chains: map<FamilyId, seq<Digest>>, e: Event, f: FamilyId)
    requires Chained(s.rows, chains) && Fresh(l, e.op) && f in l.born && Dead(s, f)
    ensures f in Record(l, e).born && Dead(Apply(s, e).0, f)
  {
    match e.op {
      case Login(_, _, _, _) =>
      case Refresh(_, _, _, _, _) => RefreshKeepsDead(s, e, f);
      case Logout(_) =>
      case Cleanup => CleanedRows(s, chains, e.now);
    }
  }

  /** Once a family has no active row, no later run gives it one. */
  lemma {:induction false} DeadFamiliesStayDead(s: Store, l: Ledger, chains: map<FamilyId, seq<Digest>>, clock: int,
                                                events: seq<Event>, f: FamilyId)
    requires Inv(s, l, chains) && ValidRun(l, clock, events) && f in l.born && Dead(s, f)
    ensures Dead(After(s, events), f)
    decreases |events|
  {
    if events != [] {
      var chains' := StepKeeps(s, l, chains, events[0]);
      StepKeepsDead(s, l, chains, events[0], f);
      DeadFamiliesStayDead(Apply(s, events[0]).0, Record(l, events[0]), chains', events[0].now, events[1..], f);
    }
  }

  // ---------- the absolute cap ----------

  /** An issued token carries the cap of its family, and was issued no later than that. */
  ghost predicate WithinCap(l: Ledger, now: int, issued: Issued) {
    issued.family in l.born && issued.expiresAt == l.born[issued.family] + ABSOLUTE_LIFETIME && now <= issued.expiresAt
  }

  lemma StepRespectsCap(s: Store, l: Ledger, chains: map<FamilyId, seq<Digest>>, e: Event, issued: Issued)
    requires Inv(s, l, chains) && Fresh(l, e.op) && Apply(s, e).1 == Some(Granted(issued))
    ensures WithinCap(Record(l, e), e.now, issued)
  {
    if e.op.Refresh? {
      var h := Digest(e.op.presented);
      assert RowKnown(l, h, s.rows[h]);
      assert s.rows[h].status == Revoked ==> Names(s.rows, s.rows[h], s.cache[h]);
    }
  }

  lemma {:induction false} BirthsAreFixed(l: Ledger, clock: int, events: seq<Event>, f: FamilyId)
    requires ValidRun(l, clock, events) && f in l.born
    ensures f in Recorded(l, events).born && Recorded(l, events).born[f] == l.born[f]
    decreases |events|
  {
    if events != [] {
      BirthsAreFixed(Record(l, events[0]), events[0].now, events[1..], f);
    }
  }

  /**
    However often a family is rotated, every token issued or reissued for it carries one expiry time,
    fixed when the family was started, and none is issued after that time.
  */
  lemma {:induction false} NoTokenOutlivesTheCap(s: Store, l: Ledger, chains: map<FamilyId, seq<Digest>>, clock: int,
                                                 events: seq<Event>, k: nat, issued: Issued)
    requires Inv(s, l, chains) && ValidRun(l, clock, events)
    requires k < |events| && k < |Replies(s, events)| && Replies(s, events)[k] == Some(Granted(issued))
    ensures WithinCap(Recorded(l, events), events[k].now, issued)
    decreases |events|
  {
    var s', l' := Apply(s, events[0]).0, Record(l, events[0]);
    if k == 0 {
      StepRespectsCap(s, l, chains, events[0], issued);
      BirthsAreFixed(l', events[0].now, events[1..], issued.family);
    } else {
      var chains' := StepKeeps(s, l, chains, events[0]);
      NoTokenOutlivesTheCap(s', l', chains', events[0].now, events[1..], k - 1, issued);
    }
  }

  // ---------- the grace period ----------

  /**
    Presenting a revoked, unexpired token: it is granted exactly when a live cache entry can be read;
    then the grant is the row that replaced it and nothing changes; otherwise the family is dead.
  */
  lemma PresentingARevokedToken(s: Store, l: Ledger, now: int, presented: RawToken,
                                id: RowId, raw: RawToken, readable: bool, writable: bool)
    requires AllKnown(l, s.rows) && CacheNames(l, s) && Digest(presented) in s.rows
    requires s.rows[Digest(presented)].status == Revoked && now <= s.rows[Digest(presented)].expiresAt
    ensures var h := Digest(presented);
            var (s', outcome) := Rotate(s, now, presented, id, raw, readable, writable);
            && (outcome.Granted? <==> readable && h in s.cache && now < s.cache[h].liveUntil)
            && (outcome.Granted? ==>
                  && s' == s && outcome.issued == s.cache[h].issued
                  && Digest(outcome.issued.raw) in s.rows
                  && s.rows[h].replacedBy == Some(s.rows[Digest(outcome.issued.raw)].id))
            && (!outcome.Granted? ==> outcome == Rejected(ReuseDetected) && Dead(s', s.rows[h].family))
  {
    var h := Digest(presented);
    assert RowKnown(l, h, s.rows[h]);
    assert h in s.cache ==> Names(s.rows, s.rows[h], s.cache[h]);
  }

  function EndTime(clock: int, events: seq<Event>): int
    decreases |events|
  {
    if events == [] then clock else EndTime(events[0].now, events[1..])
  }

  lemma {:induction false} ClockAdvances(l: Ledger, clock: int, events: seq<Event>)
    requires ValidRun(l, clock, events)
    ensures clock <= EndTime(clock, events)
    decreases |events|
  {
    if events != [] {
      ClockAdvances(Record(l, events[0]), events[0].now, events[1..]);
    }
  }

  /** A cache entry under the hash of a revoked row is never overwritten. */
  lemma EntryStays(s: Store, e: Event, h: Digest)
    requires h in s.rows && s.rows[h].status == Revoked && h in s.cache
    ensures h in Apply(s, e).0.cache && Apply(s, e).0.cache[h] == s.cache[h]
  {
  }

  lemma StepKeepsEntry(s: Store, l: Ledger, chains: map<FamilyId, seq<Digest>>, e: Event, h: Digest)
    requires Chained(s.rows, chains) && Fresh(l, e.op) && h.raw in l.raws
    requires h in s.rows && s.rows[h].status == Revoked && h in s.cache && e.now <= s.rows[h].expiresAt
    ensures var s' := Apply(s, e).0; h in s'.rows && s'.rows[h] == s.rows[h] && h in s'.cache && s'.cache[h] == s.cache[h]
  {
    EntryStays(s, e, h);
    if e.op.Cleanup? {
      CleanedRows(s, chains, e.now);
    } else {
      RevokedRowStays(s, l, e, h);
    }
  }

  /** Until the cap is reached, a rotated row and its cache entry survive everything that happens. */
  lemma {:induction false} RunKeepsEntry(s: Store, l: Ledger, chains: map<FamilyId, seq<Digest>>, clock: int,
                                         events: seq<Event>, h: Digest)
    requires Inv(s, l, chains) && ValidRun(l, clock, events)
    requires h in s.rows && s.rows[h].status == Revoked && h in s.cache && EndTime(clock, events) <= s.rows[h].expiresAt
    ensures var s' := After(s, events);
            h in s'.rows && s'.rows[h] == s.rows[h] && h in s'.cache && s'.cache[h] == s.cache[h]
    decreases |events|
  {
    if events != [] {
      var chains' := StepKeeps(s, l, chains, events[0]);
      assert RowKnown(l, h, s.rows[h]);
      ClockAdvances(Record(l, events[0]), events[0].now, events[1..]);
      StepKeepsEntry(s, l, chains, events[0], h);
      RunKeepsEntry(Apply(s, events[0]).0, Record(l, events[0]), chains', events[0].now, events[1..], h);
    }
  }

  lemma LiveEntryIsGranted(s: Store, presented: RawToken, issued: Issued, rotatedAt: int, now: int,
                           id: RowId, raw: RawToken, writable: bool)
    requires Digest(presented) in s.rows && s.rows[Digest(presented)].status == Revoked
    requires s.rows[Digest(presented)].revokedAt == Some(rotatedAt) && now <= s.rows[Digest(presented)].expiresAt
    requires Digest(presented) in s.cache && s.cache[Digest(presented)] == CacheEntry(issued, rotatedAt + GRACE_PERIOD)
    requires now < rotatedAt + GRACE_PERIOD
    ensures Rotate(s, now, presented, id, raw, true, writable) == (s, Granted(issued))
  {
  }

  lemma RotationLeaves(s: Store, e: Event, issued: Issued)
    requires e.op.Refresh? && e.op.writable && Digest(e.op.presented) in s.rows
    requires s.rows[Digest(e.op.presented)].status == Active && Apply(s, e).1 == Some(Granted(issued))
    ensures var h, s' := Digest(e.op.presented), Apply(s, e).0;
            && h in s'.rows && s'.rows[h].status == Revoked && s'.rows[h].revokedAt == Some(e.now)
            && s'.rows[h].expiresAt == issued.expiresAt
            && h in s'.cache && s'.cache[h] == CacheEntry(issued, e.now + GRACE_PERIOD)
  {
  }

  lemma EntryAnswersLater(s: Store, l: Ledger, chains: map<FamilyId, seq<Digest>>, clock: int, events: seq<Event>,
                          presented: RawToken, issued: Issued, rotatedAt: int, now: int,
                          id: RowId, raw: RawToken, writable: bool)
    requires Inv(s, l, chains) && ValidRun(l, clock, events)
    requires Digest(presented) in s.rows && s.rows[Digest(presented)].status == Revoked
    requires s.rows[Digest(presented)].revokedAt == Some(rotatedAt) && s.rows[Digest(presented)].expiresAt == issued.expiresAt
    requires Digest(presented) in s.cache && s.cache[Digest(presented)] == CacheEntry(issued, rotatedAt + GRACE_PERIOD)
    requires EndTime(clock, events) <= now < rotatedAt + GRACE_PERIOD && now <= issued.expiresAt
    ensures Rotate(After(s, events), now, presented, id, raw, true, writable) == (After(s, events), Granted(issued))
  {
    RunKeepsEntry(s, l, chains, clock, events, Digest(presented));
    LiveEntryIsGranted(After(s, events), presented, issued, rotatedAt, now, id, raw, writable);
  }

  /**
    Grace-period idempotence: after a rotation whose cache write succeeded, and any further events,
    presenting the same token again before the grace period ends returns the identical token and
    changes nothing.
  */
  lemma GracePeriodIsIdempotent(s: Store, l: Ledger, chains: map<FamilyId, seq<Digest>>, e: Event, issued: Issued,
                                events: seq<Event>, now: int, id: RowId, raw: RawToken, writable: bool)
    requires Inv(s, l, chains) && Fresh(l, e.op) && e.op.Refresh? && e.op.writable
    requires Digest(e.op.presented) in s.rows && s.rows[Digest(e.op.presented)].status == Active
    requires Apply(s, e).1 == Some(Granted(issued))
    requires ValidRun(Record(l, e), e.now, events)
    requires EndTime(e.now, events) <= now < e.now + GRACE_PERIOD && now <= issued.expiresAt
    ensures var s' := After(Apply(s, e).0, events);
            Rotate(s', now, e.op.presented, id, raw, true, writable) == (s', Granted(issued))
  {
    var chains' := StepKeeps(s, l, chains, e);
    RotationLeaves(s, e, issued);
    EntryAnswersLater(Apply(s, e).0, Record(l, e), chains', e.now, events, e.op.presented, issued, e.now, now, id, raw, writable);
  }

  // ---------- when a dead family is dead for good ----------

  /** The last rotation of the family lies a grace period or more before `end`. */
  ghost predicate RotatedBefore(s: Store, f: FamilyId, end: int) {
    forall h | h in s.rows && s.rows[h].family == f && s.rows[h].replacedBy.Some? && s.rows[h].revokedAt.Some? ::
      s.rows[h].revokedAt.value + GRACE_PERIOD <= end
  }

  lemma StepRefusesDead(s: Store, l: Ledger, chains: map<FamilyId, seq<Digest>>, e: Event, f: FamilyId, end: int)
    requires Inv(s, l, chains) && Fresh(l, e.op) && f in l.born && Dead(s, f) && RotatedBefore(s, f, end)
    requires e.now >= end && Apply(s, e).1.Some? && Apply(s, e).1.value.Granted?
    ensures Apply(s, e).1.value.issued.family != f
  {
    if e.op.Refresh? {
      var h := Digest(e.op.presented);
      assert RowKnown(l, h, s.rows[h]);
      if s.rows[h].status == Revoked {
        assert Names(s.rows, s.rows[h], s.cache[h]);
      }
    }
  }

  /** The rows of a dead family stay as they are or go. */
  lemma DeadRowsOnlyGo(s: Store, l: Ledger, chains: map<FamilyId, seq<Digest>>, e: Event, f: FamilyId, h: Digest)
    requires Inv(s, l, chains) && Fresh(l, e.op) && f in l.born && Dead(s, f)
    requires h in Apply(s, e).0.rows && Apply(s, e).0.rows[h].family == f
    ensures h in s.rows && Apply(s, e).0.rows[h] == s.rows[h]
  {
    StepKeepsDead(s, l, chains, e, f);
    if h in s.rows {
      assert RowKnown(l, h, s.rows[h]);
      if e.op.Cleanup? {
        CleanedRows(s, chains, e.now);
      } else if s.rows[h].status == Revoked {
        RevokedRowStays(s, l, e, h);
      } else {
        FamilyOfRowStays(s, l, e, h);
      }
    } else {
      NewRowsAreActive(s, l, chains, e, h);
    }
  }

  lemma FamilyOfRowStays(s: Store, l: Ledger, e: Event, h: Digest)
    requires Fresh(l, e.op) && !e.op.Cleanup? && h.raw in l.raws && h in s.rows
    ensures h in Apply(s, e).0.rows && Apply(s, e).0.rows[h].family == s.rows[h].family
  {
  }

  lemma NewRowsAreActive(s: Store, l: Ledger, chains: map<FamilyId, seq<Digest>>, e: Event, h: Digest)
    requires Inv(s, l, chains) && h !in s.rows && h in Apply(s, e).0.rows
    ensures Apply(s, e).0.rows[h].status == Active
  {
  }

  lemma StepRotatesNothingDead(s: Store, l: Ledger, chains: map<FamilyId, seq<Digest>>, e: Event, f: FamilyId, end: int)
    requires Inv(s, l, chains) && Fresh(l, e.op) && f in l.born && Dead(s, f) && RotatedBefore(s, f, end)
    ensures RotatedBefore(Apply(s, e).0, f, end)
  {
    forall h | h in Apply(s, e).0.rows && Apply(s, e).0.rows[h].family == f
      ensures h in s.rows && Apply(s, e).0.rows[h] == s.rows[h]
    {
      DeadRowsOnlyGo(s, l, chains, e, f, h);
    }
  }

  /**
    At and after the grace period that follows the last rotation of a dead family nothing presented is
    ever granted a token of it, whatever happens in between.
  */
  lemma {:induction false} DeadFamilyIsRefused(s: Store, l: Ledger, chains: map<FamilyId, seq<Digest>>, clock: int,
                                               events: seq<Event>, f: FamilyId, end: int, k: nat)
    requires Inv(s, l, chains) && ValidRun(l, clock, events) && f in l.born && Dead(s, f) && RotatedBefore(s, f, end)
    requires k < |events| && k < |Replies(s, events)| && events[k].now >= end
    requires Replies(s, events)[k].Some? && Replies(s, events)[k].value.Granted?
    ensures Replies(s, events)[k].value.issued.family != f
    decreases |events|
  {
    if k == 0 {
      StepRefusesDead(s, l, chains, events[0], f, end);
    } else {
      var chains' := StepKeeps(s, l, chains, events[0]);
      StepKeepsDead(s, l, chains, events[0], f);
      StepRotatesNothingDead(s, l, chains, events[0], f, end);
      DeadFamilyIsRefused(Apply(s, events[0]).0, Record(l, events[0]), chains', events[0].now, events[1..], f, end, k - 1);
    }
  }

  // ---------- clean-up cannot be observed ----------

  /** The same step in a system that never cleans up. */
  function ApplyUncleaned(s: Store, e: Event): (Store, Option<Outcome>) {
    if e.op.Cleanup? then (s, None) else Apply(s, e)
  }

  function RepliesUncleaned(s: Store, events: seq<Event>): seq<Option<Outcome>>
    decreases |events|
  {
    if events == [] then []
    else [ApplyUncleaned(s, events[0]).1] + RepliesUncleaned(ApplyUncleaned(s, events[0]).0, events[1..])
  }

  /** Two replies that differ at most in the code of a rejection. */
  predicate SameVerdict(x: Option<Outcome>, y: Option<Outcome>) {
    x == y || (x.Some? && y.Some? && x.value.Rejected? && y.value.Rejected?)
  }

  /**
    The cleaned store `a` and the uncleaned store `b` agree on the rows of `a` and on the cache; the
    rows only `b` still has belong to families `a` no longer has, all expired by `clock`.
  */
  ghost predicate Cleaner(a: Store, b: Store, l: Ledger, clock: int) {
    && (forall h | h in a.rows :: h in b.rows && b.rows[h] == a.rows[h])
    && (forall h | h in b.rows && h !in a.rows :: Leftover(a, b.rows[h], h, l, clock))
    && a.cache == b.cache
  }

  ghost predicate Leftover(a: Store, row: Row, h: Digest, l: Ledger, clock: int) {
    row.expiresAt < clock && h.raw in l.raws && row.family in l.born && forall g | g in a.rows :: a.rows[g].family != row.family
  }

  lemma SimulateRevoking(a: Store, b: Store, l: Ledger, clock: int, f: FamilyId, now: int)
    requires Cleaner(a, b, l, clock)
    ensures Cleaner(a.(rows := RevokeActive(a.rows, f, now)), b.(rows := RevokeActive(b.rows, f, now)), l, clock)
  {
    var rows' := RevokeActive(b.rows, f, now);
    forall h | h in rows' && h !in a.rows
      ensures Leftover(a.(rows := RevokeActive(a.rows, f, now)), rows'[h], h, l, clock)
    {
      assert Leftover(a, b.rows[h], h, l, clock);
    }
  }

  /** Revoking a family the cleaned store no longer has cannot be seen there. */
  lemma SimulateRevokingLeftovers(a: Store, b: Store, l: Ledger, clock: int, f: FamilyId, now: int)
    requires Cleaner(a, b, l, clock) && forall g | g in a.rows :: a.rows[g].family != f
    ensures Cleaner(a, b.(rows := RevokeActive(b.rows, f, now)), l, clock)
  {
    var rows' := RevokeActive(b.rows, f, now);
    forall h | h in rows' && h !in a.rows
      ensures Leftover(a, rows'[h], h, l, clock)
    {
      assert Leftover(a, b.rows[h], h, l, clock);
    }
  }

  lemma LaterIsCleaner(a: Store, b: Store, l: Ledger, clock: int, l': Ledger, clock': int)
    requires Cleaner(a, b, l, clock) && clock <= clock' && l.raws <= l'.raws && l.born.Keys <= l'.born.Keys
    ensures Cleaner(a, b, l', clock')
  {
    forall h | h in b.rows && h !in a.rows
      ensures Leftover(a, b.rows[h], h, l', clock')
    {
      assert Leftover(a, b.rows[h], h, l, clock);
    }
  }

  lemma SimulateAdding(a: Store, b: Store, l: Ledger, clock: int, h: Digest, row: Row)
    requires Cleaner(a, b, l, clock)
    requires h in a.rows || h !in b.rows
    requires (exists g :: g in a.rows && a.rows[g].family == row.family) || row.family !in l.born
    ensures Cleaner(a.(rows := a.rows[h := row]), b.(rows := b.rows[h := row]), l, clock)
  {
    forall k | k in b.rows[h := row] && k !in a.rows[h := row]
      ensures Leftover(a.(rows := a.rows[h := row]), b.rows[k], k, l, clock)
    {
      assert Leftover(a, b.rows[k], k, l, clock);
    }
  }

  lemma SimulateLogin(a: Store, b: Store, l: Ledger, clock: int, e: Event)
    requires Cleaner(a, b, l, clock) && Fresh(l, e.op) && e.op.Login?
    requires forall h | h in a.rows :: h.raw in l.raws
    ensures Cleaner(Apply(a, e).0, Apply(b, e).0, l, clock)
  {
    var h := Digest(e.op.raw);
    assert h !in b.rows by {
      assert h in b.rows && h !in a.rows ==> Leftover(a, b.rows[h], h, l, clock);
    }
    SimulateAdding(a, b, l, clock, h, FirstRow(e.op.user, e.op.family, e.op.id, e.now));
  }

  lemma SimulateRotated(a: Store, b: Store, l: Ledger, clock: int, now: int, h: Digest, id: RowId, raw: RawToken, writable: bool)
    requires Cleaner(a, b, l, clock) && h in a.rows && h in b.rows && raw !in l.raws
    requires forall g | g in a.rows :: g.raw in l.raws
    ensures Cleaner(Rotated(a, now, h, id, raw, writable), Rotated(b, now, h, id, raw, writable), l, clock)
  {
    var next, row := Digest(raw), a.rows[h];
    assert next !in b.rows by {
      assert next in b.rows && next !in a.rows ==> Leftover(a, b.rows[next], next, l, clock);
    }
    var a1, b1 := a.(rows := a.rows[next := Successor(row, id)]), b.(rows := b.rows[next := Successor(row, id)]);
    SimulateAdding(a, b, l, clock, next, Successor(row, id));
    SimulateAdding(a1, b1, l, clock, h, row.(status := Revoked, revokedAt := Some(now), replacedBy := Some(id)));
  }

  /** The outcome and the new store depend only on the presented row and its cache entry. */
  lemma SimulatePresent(a: Store, b: Store, l: Ledger, clock: int, e: Event)
    requires Cleaner(a, b, l, clock) && Fresh(l, e.op) && e.op.Refresh? && Digest(e.op.presented) in a.rows
    requires forall g | g in a.rows :: g.raw in l.raws
    ensures Cleaner(Apply(a, e).0, Apply(b, e).0, l, clock) && Apply(a, e).1 == Apply(b, e).1
  {
    var h := Digest(e.op.presented);
    if e.now <= a.rows[h].expiresAt {
      if a.rows[h].status == Active {
        SimulateRotated(a, b, l, clock, e.now, h, e.op.id, e.op.raw, e.op.writable);
      } else {
        SimulateRevoking(a, b, l, clock, a.rows[h].family, e.now);
      }
    }
  }

  lemma SimulateRefresh(a: Store, b: Store, l: Ledger, clock: int, e: Event)
    requires Cleaner(a, b, l, clock) && Fresh(l, e.op) && e.op.Refresh? && clock <= e.now
    requires forall g | g in a.rows :: g.raw in l.raws
    ensures Cleaner(Apply(a, e).0, Apply(b, e).0, l, clock)
    ensures SameVerdict(Apply(a, e).1, Apply(b, e).1)
  {
    var h := Digest(e.op.presented);
    if h in a.rows {
      SimulatePresent(a, b, l, clock, e);
    } else if h in b.rows {
      assert Leftover(a, b.rows[h], h, l, clock);
    }
  }

  lemma SimulateLogout(a: Store, b: Store, l: Ledger, clock: int, e: Event)
    requires Cleaner(a, b, l, clock) && e.op.Logout?
    ensures Cleaner(Apply(a, e).0, Apply(b, e).0, l, clock)
  {
    var h := Digest(e.op.presented);
    if h in a.rows {
      SimulateRevoking(a, b, l, clock, a.rows[h].family, e.now);
    } else if h in b.rows {
      assert Leftover(a, b.rows[h], h, l, clock);
      SimulateRevokingLeftovers(a, b, l, clock, b.rows[h].family, e.now);
    }
  }

  lemma SimulateCleanup(a: Store, b: Store, l: Ledger, chains: map<FamilyId, seq<Digest>>, clock: int, now: int)
    requires Cleaner(a, b, l, clock) && Inv(a, l, chains) && clock <= now
    ensures Cleaner(Cleaned(a, now), b, l, now)
  {
    var a' := Cleaned(a, now);
    CleanedRows(a, chains, now);
    forall h | h in b.rows && h !in a'.rows
      ensures Leftover(a', b.rows[h], h, l, now)
    {
      if h in a.rows {
        assert RowKnown(l, h, a.rows[h]);
        forall g | g in a'.rows
          ensures a'.rows[g].family != b.rows[h].family
        {
          if a.rows[g].family == a.rows[h].family {
            CleanedAsAWhole(a, l, now, g, h);
          }
        }
      } else {
        assert Leftover(a, b.rows[h], h, l, clock);
      }
    }
  }

  lemma SimulateStep(a: Store, b: Store, l: Ledger, chains: map<FamilyId, seq<Digest>>, clock: int, e: Event)
    requires Cleaner(a, b, l, clock) && Inv(a, l, chains) && Fresh(l, e.op) && clock <= e.now
    ensures Cleaner(Apply(a, e).0, ApplyUncleaned(b, e).0, Record(l, e), e.now)
    ensures SameVerdict(Apply(a, e).1, ApplyUncleaned(b, e).1)
  {
    match e.op {
      case Login(_, _, _, _) =>
        assert forall g | g in a.rows :: RowKnown(l, g, a.rows[g]);
        SimulateLogin(a, b, l, clock, e);
        LaterIsCleaner(Apply(a, e).0, Apply(b, e).0, l, clock, Record(l, e), e.now);
      case Refresh(_, _, _, _, _) =>
        assert forall g | g in a.rows :: RowKnown(l, g, a.rows[g]);
        SimulateRefresh(a, b, l, clock, e);
        LaterIsCleaner(Apply(a, e).0, Apply(b, e).0, l, clock, Record(l, e), e.now);
      case Logout(_) =>
        SimulateLogout(a, b, l, clock, e);
        LaterIsCleaner(Apply(a, e).0, Apply(b, e).0, l, clock, Record(l, e), e.now);
      case Cleanup =>
        SimulateCleanup(a, b, l, chains, clock, e.now);
    }
  }

  lemma {:induction false} SimulateRun(a: Store, b: Store, l: Ledger, chains: map<FamilyId, seq<Digest>>, clock: int,
                                       events: seq<Event>)
    requires Cleaner(a, b, l, clock) && Inv(a, l, chains) && ValidRun(l, clock, events)
    ensures |Replies(a, events)| == |RepliesUncleaned(b, events)| == |events|
    ensures forall k | 0 <= k < |events| :: SameVerdict(Replies(a, events)[k], RepliesUncleaned(b, events)[k])
    decreases |events|
  {
    if events != [] {
      var a', b', l' := Apply(a, events[0]).0, ApplyUncleaned(b, events[0]).0, Record(l, events[0]);
      SimulateStep(a, b, l, chains, clock, events[0]);
      var chains' := StepKeeps(a, l, chains, events[0]);
      SimulateRun(a', b', l', chains', events[0].now, events[1..]);
    }
  }

  /**
    Whatever the times at which clean-up runs, every login, refresh and logout gets the same reply as
    in a system that never cleans up; at most the code of a rejection differs.
  */
  lemma CleanupIsUnobservable(clock: int, events: seq<Event>)
    requires ValidRun(NOTHING_YET, clock, events)
    ensures |Replies(EMPTY, events)| == |RepliesUncleaned(EMPTY, events)| == |events|
    ensures forall k | 0 <= k < |events| :: SameVerdict(Replies(EMPTY, events)[k], RepliesUncleaned(EMPTY, events)[k])
  {
    SimulateRun(EMPTY, EMPTY, NOTHING_YET, map[], clock, events);
  }

  // ---------- from the very start ----------

  /**
    Over every run of logins, refreshes, logouts and clean-ups from the empty store: a row once
    revoked never changes while it exists, and a family once without an active row never gets one.
  */
  lemma FamiliesNeverRevive(clock: int, before: seq<Event>, after: seq<Event>)
    requires ValidRun(NOTHING_YET, clock, before)
    requires ValidRun(Recorded(NOTHING_YET, before), EndTime(clock, before), after)
    ensures var s, t := After(EMPTY, before), After(After(EMPTY, before), after);
            && (forall h | h in s.rows && s.rows[h].status == Revoked && h in t.rows :: t.rows[h] == s.rows[h])
            && (forall f | f in Recorded(NOTHING_YET, before).born && Dead(s, f) :: Dead(t, f))
  {
    var s, l := After(EMPTY, before), Recorded(NOTHING_YET, before);
    var chains := RunKeeps(EMPTY, NOTHING_YET, map[], clock, before);
    forall h | h in s.rows && s.rows[h].status == Revoked && h in After(s, after).rows
      ensures After(s, after).rows[h] == s.rows[h]
    {
      RevokedRowsAreFrozen(s, l, chains, EndTime(clock, before), after, h);
    }
    forall f | f in l.born && Dead(s, f)
      ensures Dead(After(s, after), f)
    {
      DeadFamiliesStayDead(s, l, chains, EndTime(clock, before), after, f);
    }
  }
}
