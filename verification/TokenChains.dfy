/**
  Runs of the token system, and the invariant they keep: the rows of a family form one chain from
  its first token, only the last of which can be active.
*/
module TokenChains {
  import opened Wrappers
  import opened RefreshTokens

  datatype Op =
    | Login(user: UserId, family: FamilyId, id: RowId, raw: RawToken)
    | Refresh(presented: RawToken, id: RowId, raw: RawToken, readable: bool, writable: bool)
    | Logout(presented: RawToken)
    | Cleanup

  datatype Event = Event(now: int, op: Op)

  /** Everything ever minted: row ids, raw tokens, and the families with the time they were started. */
  datatype Ledger = Ledger(ids: set<RowId>, raws: set<RawToken>, born: map<FamilyId, int>)

  /** One step and its reply to the client, if it has one. */
  function Apply(s: Store, e: Event): (Store, Option<Outcome>) {
    match e.op
    case Login(user, family, id, raw) =>
      (NewFamily(s, e.now, user, family, id, raw), Some(Granted(Issued(raw, user, family, e.now + ABSOLUTE_LIFETIME))))
    case Refresh(presented, id, raw, readable, writable) =>
      var (s', outcome) := Rotate(s, e.now, presented, id, raw, readable, writable);
      (s', Some(outcome))
    case Logout(presented) => (RevokeByToken(s, e.now, presented), None)
    case Cleanup => (Cleaned(s, e.now), None)
  }

  /** What a step mints has never been minted before. */
  predicate Fresh(l: Ledger, op: Op) {
    match op
    case Login(_, family, id, raw) => family !in l.born && id !in l.ids && raw !in l.raws
    case Refresh(_, id, raw, _, _) => id !in l.ids && raw !in l.raws
    case _ => true
  }

  function Record(l: Ledger, e: Event): Ledger {
    match e.op
    case Login(_, family, id, raw) => Ledger(l.ids + {id}, l.raws + {raw}, l.born[family := e.now])
    case Refresh(_, id, raw, _, _) => Ledger(l.ids + {id}, l.raws + {raw}, l.born)
    case _ => l
  }

  /** The clock never runs backwards and everything minted is new. */
  predicate ValidRun(l: Ledger, clock: int, events: seq<Event>)
    decreases |events|
  {
    events == [] ||
    (clock <= events[0].now && Fresh(l, events[0].op) && ValidRun(Record(l, events[0]), events[0].now, events[1..]))
  }

  function After(s: Store, events: seq<Event>): Store
    decreases |events|
  {
    if events == [] then s else After(Apply(s, events[0]).0, events[1..])
  }

  function Recorded(l: Ledger, events: seq<Event>): Ledger
    decreases |events|
  {
    if events == [] then l else Recorded(Record(l, events[0]), events[1..])
  }

  function Replies(s: Store, events: seq<Event>): seq<Option<Outcome>>
    decreases |events|
  {
    if events == [] then [] else [Apply(s, events[0]).1] + Replies(Apply(s, events[0]).0, events[1..])
  }

  // ---------- the invariant ----------

  /** `row` was revoked and replaced by `next`, a row of the same user with the same birth and expiry time. */
  ghost predicate Replaces(row: Row, next: Row) {
    && row.status == Revoked && row.replacedBy == Some(next.id)
    && next.user == row.user && next.family == row.family
    && next.familyCreatedAt == row.familyCreatedAt && next.expiresAt == row.expiresAt
  }

  /** The rows of one family: each revoked and replaced by the next, the last replaced by none. */
  ghost predicate Chain(rows: map<Digest, Row>, f: FamilyId, c: seq<Digest>) {
    && c != []
    && (forall i | 0 <= i < |c| :: c[i] in rows && rows[c[i]].family == f)
    && (forall i, j | 0 <= i < j < |c| :: c[i] != c[j])
    && (forall i, j | 0 <= i < j < |c| && i + 1 == j :: Replaces(rows[c[i]], rows[c[j]]))
    && rows[c[|c| - 1]].replacedBy == None
  }

  /** Every row lies on the chain of its family. */
  ghost predicate Covered(rows: map<Digest, Row>, chains: map<FamilyId, seq<Digest>>) {
    forall h | h in rows :: rows[h].family in chains && h in chains[rows[h].family]
  }

  ghost predicate Chained(rows: map<Digest, Row>, chains: map<FamilyId, seq<Digest>>) {
    Covered(rows, chains) && forall f | f in chains :: Chain(rows, f, chains[f])
  }

  /** The row was minted, carries the birth time of its family, and has a revocation time just when revoked. */
  ghost predicate RowKnown(l: Ledger, h: Digest, row: Row) {
    && h.raw in l.raws && row.id in l.ids && row.family in l.born
    && row.familyCreatedAt == l.born[row.family] && row.expiresAt == l.born[row.family] + ABSOLUTE_LIFETIME
    && (row.revokedAt.Some? <==> row.status == Revoked)
  }

  ghost predicate AllKnown(l: Ledger, rows: map<Digest, Row>) {
    forall h | h in rows :: RowKnown(l, h, rows[h])
  }

  ghost predicate UniqueIds(rows: map<Digest, Row>) {
    forall g, h | g in rows && h in rows && rows[g].id == rows[h].id :: g == h
  }

  /** A cache entry names exactly the row that replaced `row`, and lives for the grace period after that. */
  ghost predicate Names(rows: map<Digest, Row>, row: Row, entry: CacheEntry) {
    var next := Digest(entry.issued.raw);
    && next in rows && Replaces(row, rows[next])
    && entry.issued == Issued(next.raw, row.user, row.family, row.expiresAt)
    && row.revokedAt.Some? && entry.liveUntil == row.revokedAt.value + GRACE_PERIOD
  }

  /** Entries are filed under minted hashes, and under the hash of a present row they name its successor. */
  ghost predicate CacheNames(l: Ledger, s: Store) {
    && (forall h | h in s.cache :: h.raw in l.raws)
    && (forall h | h in s.cache && h in s.rows :: Names(s.rows, s.rows[h], s.cache[h]))
  }

  ghost predicate Inv(s: Store, l: Ledger, chains: map<FamilyId, seq<Digest>>) {
    AllKnown(l, s.rows) && UniqueIds(s.rows) && Chained(s.rows, chains) && CacheNames(l, s)
  }

  // ---------- how chains change ----------

  /** What a row may go through without breaking its chain: being revoked. */
  ghost predicate KeepsLinks(row: Row, row': Row) {
    row' == row || exists now :: row' == RevokedRow(row, now)
  }

  /** A chain is untouched by changes outside it, and by revocations. */
  lemma ChainFrame(rows: map<Digest, Row>, rows': map<Digest, Row>, f: FamilyId, c: seq<Digest>)
    requires Chain(rows, f, c)
    requires forall i | 0 <= i < |c| :: c[i] in rows' && KeepsLinks(rows[c[i]], rows'[c[i]])
    ensures Chain(rows', f, c)
  {
    forall i, j | 0 <= i < j < |c| && i + 1 == j
      ensures Replaces(rows'[c[i]], rows'[c[j]])
    {
      assert Replaces(rows[c[i]], rows[c[j]]);
    }
  }

  lemma ChainedAfterRevoking(rows: map<Digest, Row>, chains: map<FamilyId, seq<Digest>>, family: FamilyId, now: int)
    requires Chained(rows, chains)
    ensures Chained(RevokeActive(rows, family, now), chains)
  {
    forall f | f in chains
      ensures Chain(RevokeActive(rows, family, now), f, chains[f])
    {
      ChainFrame(rows, RevokeActive(rows, family, now), f, chains[f]);
    }
  }

  lemma ChainedAfterStarting(rows: map<Digest, Row>, chains: map<FamilyId, seq<Digest>>, h: Digest, row: Row)
    requires Chained(rows, chains) && h !in rows && row.family !in chains && row.replacedBy == None
    ensures Chained(rows[h := row], chains[row.family := [h]])
  {
    var rows', chains' := rows[h := row], chains[row.family := [h]];
    forall f | f in chains'
      ensures Chain(rows', f, chains'[f])
    {
      if f != row.family {
        ChainFrame(rows, rows', f, chains[f]);
      }
    }
    assert h in chains'[row.family];
  }

  /** An active row is the last of its chain. */
  lemma ActiveIsLast(rows: map<Digest, Row>, chains: map<FamilyId, seq<Digest>>, h: Digest)
    requires Chained(rows, chains) && h in rows && rows[h].status == Active
    ensures rows[h].family in chains && chains[rows[h].family] != []
    ensures var c := chains[rows[h].family]; c[|c| - 1] == h
  {
    var c := chains[rows[h].family];
    assert Chain(rows, rows[h].family, c);
    var i :| 0 <= i < |c| && c[i] == h;
    assert i + 1 < |c| ==> Replaces(rows[c[i]], rows[c[i + 1]]);
  }

  lemma ChainAfterExtending(rows: map<Digest, Row>, f: FamilyId, c: seq<Digest>, h: Digest, row: Row, next: Digest, heir: Row)
    requires Chain(rows, f, c) && c[|c| - 1] == h && next !in rows
    requires Replaces(row, heir) && row.id == rows[h].id && Same(rows[h], row) && heir.replacedBy == None
    ensures Chain(rows[next := heir][h := row], f, c + [next])
  {
    var c', rows' := c + [next], rows[next := heir][h := row];
    assert next !in c;
    forall i, j | 0 <= i < j < |c'| && i + 1 == j
      ensures Replaces(rows'[c'[i]], rows'[c'[j]])
    {
      assert j < |c| ==> Replaces(rows[c[i]], rows[c[j]]);
    }
  }

  ghost predicate Same(row: Row, row': Row) {
    row'.user == row.user && row'.family == row.family
    && row'.familyCreatedAt == row.familyCreatedAt && row'.expiresAt == row.expiresAt
  }

  lemma ChainedAfterRotating(rows: map<Digest, Row>, chains: map<FamilyId, seq<Digest>>, h: Digest, row: Row,
                             next: Digest, heir: Row)
    requires Chained(rows, chains) && h in rows && rows[h].status == Active && next !in rows
    requires Replaces(row, heir) && row.id == rows[h].id && Same(rows[h], row) && heir.replacedBy == None
    ensures row.family in chains
    ensures Chained(rows[next := heir][h := row], chains[row.family := chains[row.family] + [next]])
  {
    var f := row.family;
    ActiveIsLast(rows, chains, h);
    var rows', chains' := rows[next := heir][h := row], chains[f := chains[f] + [next]];
    ChainAfterExtending(rows, f, chains[f], h, row, next, heir);
    forall g | g in chains'
      ensures Chain(rows', g, chains'[g])
    {
      if g != f {
        ChainFrame(rows, rows', g, chains[g]);
      }
    }
    forall k | k in rows'
      ensures rows'[k].family in chains' && k in chains'[rows'[k].family]
    {
      assert k != next ==> k in rows && k in chains[rows[k].family];
    }
  }

  // ---------- clean-up ----------

  /** A family is cleaned up as a whole: its rows share one expiry time. */
  lemma CleanedAsAWhole(s: Store, l: Ledger, now: int, g: Digest, h: Digest)
    requires AllKnown(l, s.rows) && g in s.rows && h in s.rows && s.rows[g].family == s.rows[h].family
    ensures g in Cleaned(s, now).rows <==> h in Cleaned(s, now).rows
  {
    assert RowKnown(l, g, s.rows[g]) && RowKnown(l, h, s.rows[h]);
  }

  /** A row that has a successor is not the last of its chain. */
  lemma HasNext(rows: map<Digest, Row>, chains: map<FamilyId, seq<Digest>>, h: Digest) returns (next: Digest)
    requires Chained(rows, chains) && h in rows && rows[h].replacedBy.Some?
    ensures next in rows && Replaces(rows[h], rows[next])
  {
    var c := chains[rows[h].family];
    assert Chain(rows, rows[h].family, c);
    var i :| 0 <= i < |c| && c[i] == h;
    assert i + 1 < |c| && Replaces(rows[c[i]], rows[c[i + 1]]);
    next := c[i + 1];
  }

  /** No surviving row refers to a deleted one, so clean-up leaves surviving rows exactly as they were. */
  lemma CleanedLeavesNoDangling(s: Store, chains: map<FamilyId, seq<Digest>>, now: int, h: Digest)
    requires Chained(s.rows, chains) && h in s.rows && s.rows[h].expiresAt >= now
    ensures h in Cleaned(s, now).rows && Cleaned(s, now).rows[h] == s.rows[h]
    ensures s.rows[h].replacedBy.Some? ==> IdPresent(Cleaned(s, now).rows, s.rows[h].replacedBy.value)
  {
    if s.rows[h].replacedBy.Some? {
      var next := HasNext(s.rows, chains, h);
      var kept := map g | g in s.rows && s.rows[g].expiresAt >= now :: s.rows[g];
      assert next in kept;
      assert IdPresent(kept, s.rows[h].replacedBy.value);
      assert next in Cleaned(s, now).rows && Cleaned(s, now).rows[next].id == s.rows[h].replacedBy.value;
    }
  }

  /** Clean-up keeps exactly the unexpired rows, unchanged. */
  lemma CleanedRows(s: Store, chains: map<FamilyId, seq<Digest>>, now: int)
    requires Chained(s.rows, chains)
    ensures Cleaned(s, now).rows == map h | h in s.rows && s.rows[h].expiresAt >= now :: s.rows[h]
  {
    forall h | h in s.rows && s.rows[h].expiresAt >= now
      ensures h in Cleaned(s, now).rows && Cleaned(s, now).rows[h] == s.rows[h]
    {
      CleanedLeavesNoDangling(s, chains, now, h);
    }
  }

  function SurvivingChains(rows: map<Digest, Row>, chains: map<FamilyId, seq<Digest>>): map<FamilyId, seq<Digest>> {
    map f | f in chains && chains[f] != [] && chains[f][0] in rows :: chains[f]
  }

  lemma ChainedAfterCleaning(s: Store, l: Ledger, chains: map<FamilyId, seq<Digest>>, now: int)
    requires AllKnown(l, s.rows) && Chained(s.rows, chains)
    ensures Chained(Cleaned(s, now).rows, SurvivingChains(Cleaned(s, now).rows, chains))
  {
    var rows' := Cleaned(s, now).rows;
    var chains' := SurvivingChains(rows', chains);
    CleanedRows(s, chains, now);
    forall h | h in rows'
      ensures rows'[h].family in chains' && h in chains'[rows'[h].family]
    {
      var f := s.rows[h].family;
      assert Chain(s.rows, f, chains[f]);
      CleanedAsAWhole(s, l, now, h, chains[f][0]);
    }
    forall f | f in chains'
      ensures Chain(rows', f, chains'[f])
    {
      var c := chains[f];
      forall i | 0 <= i < |c|
        ensures c[i] in rows' && KeepsLinks(s.rows[c[i]], rows'[c[i]])
      {
        CleanedAsAWhole(s, l, now, c[i], c[0]);
      }
      ChainFrame(s.rows, rows', f, c);
    }
  }

  // ---------- each step keeps the invariant ----------

  lemma ChainsAreBorn(rows: map<Digest, Row>, l: Ledger, chains: map<FamilyId, seq<Digest>>)
    requires AllKnown(l, rows) && Chained(rows, chains)
    ensures forall f | f in chains :: f in l.born
  {
    forall f | f in chains
      ensures f in l.born
    {
      assert Chain(rows, f, chains[f]);
      assert RowKnown(l, chains[f][0], rows[chains[f][0]]);
    }
  }

  lemma NewFamilyKeeps(s: Store, l: Ledger, chains: map<FamilyId, seq<Digest>>, e: Event)
    requires Inv(s, l, chains) && Fresh(l, e.op) && e.op.Login?
    ensures Inv(Apply(s, e).0, Record(l, e), chains[e.op.family := [Digest(e.op.raw)]])
  {
    var h, row := Digest(e.op.raw), FirstRow(e.op.user, e.op.family, e.op.id, e.now);
    assert h !in s.rows by {
      assert h in s.rows ==> RowKnown(l, h, s.rows[h]);
    }
    ChainsAreBorn(s.rows, l, chains);
    ChainedAfterStarting(s.rows, chains, h, row);
    TableAfterAdding(s.rows, l, Record(l, e), h, row);
    CacheAfterAdding(s, l, Record(l, e), h, row);
  }

  lemma TableAfterAdding(rows: map<Digest, Row>, l: Ledger, l': Ledger, h: Digest, row: Row)
    requires AllKnown(l, rows) && UniqueIds(rows) && h !in rows && row.id !in l.ids
    requires l.ids <= l'.ids && l.raws <= l'.raws && RowKnown(l', h, row)
    requires forall f | f in l.born :: f in l'.born && l'.born[f] == l.born[f]
    ensures AllKnown(l', rows[h := row]) && UniqueIds(rows[h := row])
  {
    forall g | g in rows
      ensures RowKnown(l', g, rows[g]) && rows[g].id != row.id
    {
      assert RowKnown(l, g, rows[g]);
    }
  }

  lemma CacheAfterAdding(s: Store, l: Ledger, l': Ledger, h: Digest, row: Row)
    requires CacheNames(l, s) && h !in s.rows && h.raw !in l.raws && l.raws <= l'.raws
    ensures CacheNames(l', s.(rows := s.rows[h := row]))
  {
    var rows' := s.rows[h := row];
    forall k | k in s.cache && k in rows'
      ensures Names(rows', rows'[k], s.cache[k])
    {
      assert k in s.rows && Names(s.rows, s.rows[k], s.cache[k]);
    }
  }

  lemma TableAfterRevokingFamily(rows: map<Digest, Row>, l: Ledger, family: FamilyId, now: int)
    requires AllKnown(l, rows) && UniqueIds(rows)
    ensures AllKnown(l, RevokeActive(rows, family, now)) && UniqueIds(RevokeActive(rows, family, now))
  {
    forall h | h in rows
      ensures RowKnown(l, h, RevokeActive(rows, family, now)[h])
    {
      assert RowKnown(l, h, rows[h]);
    }
  }

  lemma CacheAfterRevokingFamily(s: Store, l: Ledger, family: FamilyId, now: int)
    requires CacheNames(l, s)
    ensures CacheNames(l, s.(rows := RevokeActive(s.rows, family, now)))
  {
    var rows' := RevokeActive(s.rows, family, now);
    forall h | h in s.cache && h in rows'
      ensures Names(rows', rows'[h], s.cache[h])
    {
      assert Names(s.rows, s.rows[h], s.cache[h]);
    }
  }

  lemma RevokeKeeps(s: Store, l: Ledger, chains: map<FamilyId, seq<Digest>>, family: FamilyId, now: int)
    requires Inv(s, l, chains)
    ensures Inv(s.(rows := RevokeActive(s.rows, family, now)), l, chains)
  {
    ChainedAfterRevoking(s.rows, chains, family, now);
    TableAfterRevokingFamily(s.rows, l, family, now);
    CacheAfterRevokingFamily(s, l, family, now);
  }

  lemma RotatedKeeps(s: Store, l: Ledger, chains: map<FamilyId, seq<Digest>>, now: int, h: Digest, id: RowId,
                     raw: RawToken, writable: bool)
    requires Inv(s, l, chains) && h in s.rows && s.rows[h].status == Active && id !in l.ids && raw !in l.raws
    ensures s.rows[h].family in chains
    ensures Inv(Rotated(s, now, h, id, raw, writable), Ledger(l.ids + {id}, l.raws + {raw}, l.born),
                chains[s.rows[h].family := chains[s.rows[h].family] + [Digest(raw)]])
  {
    var next, l' := Digest(raw), Ledger(l.ids + {id}, l.raws + {raw}, l.born);
    var heir, row := Successor(s.rows[h], id), s.rows[h].(status := Revoked, revokedAt := Some(now), replacedBy := Some(id));
    assert RowKnown(l, h, s.rows[h]);
    assert next !in s.rows by {
      assert next in s.rows ==> RowKnown(l, next, s.rows[next]);
    }
    ChainedAfterRotating(s.rows, chains, h, row, next, heir);
    TableAfterAdding(s.rows, l, l', next, heir);
    TableAfterRevoking(s.rows[next := heir], l', h, row);
    CacheAfterRotating(s, l, l', h, row, next, heir, writable, now);
  }

  lemma TableAfterRevoking(rows: map<Digest, Row>, l: Ledger, h: Digest, row: Row)
    requires AllKnown(l, rows) && UniqueIds(rows) && h in rows && row.id == rows[h].id && RowKnown(l, h, row)
    ensures AllKnown(l, rows[h := row]) && UniqueIds(rows[h := row])
  {
  }

  /** Nothing is cached under the hash of a row that has not been replaced. */
  lemma ActiveHasNoEntry(s: Store, l: Ledger, h: Digest)
    requires CacheNames(l, s) && h in s.rows && s.rows[h].status == Active
    ensures h !in s.cache
  {
  }

  lemma CacheAfterRotating(s: Store, l: Ledger, l': Ledger, h: Digest, row: Row, next: Digest, heir: Row,
                           writable: bool, now: int)
    requires CacheNames(l, s) && h in s.rows && s.rows[h].status == Active && next !in s.rows && next.raw !in l.raws
    requires h.raw in l.raws && l.raws <= l'.raws
    requires Replaces(row, heir) && row.id == s.rows[h].id && Same(s.rows[h], row) && row.revokedAt == Some(now)
    ensures var entry := CacheEntry(Issued(next.raw, row.user, row.family, row.expiresAt), now + GRACE_PERIOD);
            CacheNames(l', Store(s.rows[next := heir][h := row], if writable then s.cache[h := entry] else s.cache))
  {
    var rows' := s.rows[next := heir][h := row];
    var entry := CacheEntry(Issued(next.raw, row.user, row.family, row.expiresAt), now + GRACE_PERIOD);
    var cache' := if writable then s.cache[h := entry] else s.cache;
    ActiveHasNoEntry(s, l, h);
    forall k | k in cache' && k in rows'
      ensures Names(rows', rows'[k], cache'[k])
    {
      if k == h {
        assert next in rows' && rows'[next] == heir;
      } else {
        assert k in s.cache && k != next && k in s.rows;
        assert Names(s.rows, s.rows[k], s.cache[k]);
        var t := Digest(s.cache[k].issued.raw);
        assert Replaces(s.rows[k], s.rows[t]);
        assert t == h ==> Replaces(rows'[k], rows'[t]);
      }
    }
  }

  lemma CleanedKeeps(s: Store, l: Ledger, chains: map<FamilyId, seq<Digest>>, now: int)
    requires Inv(s, l, chains)
    ensures Inv(Cleaned(s, now), l, SurvivingChains(Cleaned(s, now).rows, chains))
  {
    ChainedAfterCleaning(s, l, chains, now);
    CleanedRows(s, chains, now);
    var rows' := Cleaned(s, now).rows;
    forall h | h in s.cache && h in rows'
      ensures Names(rows', rows'[h], s.cache[h])
    {
      assert Names(s.rows, s.rows[h], s.cache[h]);
    }
  }

  lemma LedgerGrows(s: Store, l: Ledger, l': Ledger, chains: map<FamilyId, seq<Digest>>)
    requires Inv(s, l, chains) && l.ids <= l'.ids && l.raws <= l'.raws && l.born == l'.born
    ensures Inv(s, l', chains)
  {
    forall h | h in s.rows
      ensures RowKnown(l', h, s.rows[h])
    {
      assert RowKnown(l, h, s.rows[h]);
    }
  }

  /** The event is the login that started family `f` with the token hashed to `h`. */
  predicate Starts(e: Event, f: FamilyId, h: Digest) {
    e.op.Login? && e.op.family == f && h == Digest(e.op.raw)
  }

  /** A chain keeps its first token; a new one starts with the token minted at login. */
  ghost predicate KeepsFirst(chains: map<FamilyId, seq<Digest>>, chains': map<FamilyId, seq<Digest>>, e: Event) {
    forall f | f in chains' && chains'[f] != [] ::
      (f in chains && chains[f] != [] && chains'[f][0] == chains[f][0]) || Starts(e, f, chains'[f][0])
  }

  lemma RefreshKeeps(s: Store, l: Ledger, chains: map<FamilyId, seq<Digest>>, e: Event)
    returns (chains': map<FamilyId, seq<Digest>>)
    requires Inv(s, l, chains) && Fresh(l, e.op) && e.op.Refresh?
    ensures Inv(Apply(s, e).0, Record(l, e), chains') && KeepsFirst(chains, chains', e)
  {
    var h := Digest(e.op.presented);
    if h in s.rows && e.now <= s.rows[h].expiresAt && s.rows[h].status == Active {
      RotatedKeeps(s, l, chains, e.now, h, e.op.id, e.op.raw, e.op.writable);
      chains' := chains[s.rows[h].family := chains[s.rows[h].family] + [Digest(e.op.raw)]];
      assert Chain(s.rows, s.rows[h].family, chains[s.rows[h].family]);
    } else {
      chains' := chains;
      LedgerGrows(s, l, Record(l, e), chains);
      if h in s.rows {
        RevokeKeeps(s, Record(l, e), chains, s.rows[h].family, e.now);
      }
    }
  }

  /** Every step keeps the invariant, for suitable chains. */
  lemma StepKeeps(s: Store, l: Ledger, chains: map<FamilyId, seq<Digest>>, e: Event)
    returns (chains': map<FamilyId, seq<Digest>>)
    requires Inv(s, l, chains) && Fresh(l, e.op)
    ensures Inv(Apply(s, e).0, Record(l, e), chains') && KeepsFirst(chains, chains', e)
  {
    match e.op {
      case Login(user, family, id, raw) =>
        chains' := chains[family := [Digest(raw)]];
        NewFamilyKeeps(s, l, chains, e);
      case Refresh(presented, id, raw, readable, writable) =>
        chains' := RefreshKeeps(s, l, chains, e);
      case Logout(presented) =>
        chains' := chains;
        if Digest(presented) in s.rows {
          RevokeKeeps(s, l, chains, s.rows[Digest(presented)].family, e.now);
        }
      case Cleanup =>
        chains' := SurvivingChains(Cleaned(s, e.now).rows, chains);
        CleanedKeeps(s, l, chains, e.now);
    }
  }

  const NOTHING_YET: Ledger := Ledger({}, {}, map[])
  const EMPTY: Store := Store(map[], map[])

  lemma {:induction false} RunKeeps(s: Store, l: Ledger, chains: map<FamilyId, seq<Digest>>, clock: int, events: seq<Event>)
    returns (chains': map<FamilyId, seq<Digest>>)
    requires Inv(s, l, chains) && ValidRun(l, clock, events)
    ensures Inv(After(s, events), Recorded(l, events), chains')
    ensures forall f | f in chains' && chains'[f] != [] ::
              (f in chains && chains[f] != [] && chains'[f][0] == chains[f][0])
              || exists e | e in events :: Starts(e, f, chains'[f][0])
    decreases |events|
  {
    chains' := chains;
    if events != [] {
      var next := StepKeeps(s, l, chains, events[0]);
      chains' := RunKeeps(Apply(s, events[0]).0, Record(l, events[0]), next, events[0].now, events[1..]);
      assert forall e | e in events[1..] :: e in events;
      assert events[0] in events;
    }
  }

  /** What the invariant says of single rows and entries. */
  lemma ChainedFacts(s: Store, l: Ledger, chains: map<FamilyId, seq<Digest>>)
    requires Inv(s, l, chains)
    ensures forall f | f in chains :: chains[f] != []
    ensures forall h | h in s.rows && s.rows[h].status == Active ::
              s.rows[h].family in chains && var c := chains[s.rows[h].family]; c != [] && c[|c| - 1] == h
    ensures forall h | h in s.rows :: s.rows[h].revokedAt.Some? <==> s.rows[h].status == Revoked
    ensures forall h | h in s.cache && h in s.rows :: Names(s.rows, s.rows[h], s.cache[h])
  {
    forall f | f in chains
      ensures chains[f] != []
    {
      assert Chain(s.rows, f, chains[f]);
    }
    forall h | h in s.rows && s.rows[h].status == Active
      ensures s.rows[h].family in chains && var c := chains[s.rows[h].family]; c != [] && c[|c| - 1] == h
    {
      assert Chain(s.rows, s.rows[h].family, chains[s.rows[h].family]);
      ActiveIsLast(s.rows, chains, h);
    }
    forall h | h in s.rows
      ensures s.rows[h].revokedAt.Some? <==> s.rows[h].status == Revoked
    {
      assert RowKnown(l, h, s.rows[h]);
    }
  }

  /**
    In every reachable state the rows of each family form one chain through `replacedBy`, without
    repetition, starting at the token minted by the login that started the family and covering all its
    rows; at most the last is active; a row has a revocation time exactly when it is revoked; and every
    cache entry under the hash of a present row names the row that replaced it.
  */
  lemma ReachableStatesAreChained(clock: int, events: seq<Event>) returns (chains: map<FamilyId, seq<Digest>>)
    requires ValidRun(NOTHING_YET, clock, events)
    ensures var s := After(EMPTY, events);
            && Chained(s.rows, chains)
            && (forall f | f in chains :: chains[f] != [] && exists e | e in events :: Starts(e, f, chains[f][0]))
            && (forall h | h in s.rows && s.rows[h].status == Active ::
                  var c := chains[s.rows[h].family]; c[|c| - 1] == h)
            && (forall h | h in s.rows :: s.rows[h].revokedAt.Some? <==> s.rows[h].status == Revoked)
            && (forall h | h in s.cache && h in s.rows :: Names(s.rows, s.rows[h], s.cache[h]))
  {
    chains := RunKeeps(EMPTY, NOTHING_YET, map[], clock, events);
    ChainedFacts(After(EMPTY, events), Recorded(NOTHING_YET, events), chains);
  }
}
