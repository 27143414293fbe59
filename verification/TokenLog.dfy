/**
  The log of requests and replies, and how the token table and the cache mirror what has been minted,
  exchanged, ended and cleaned up in it.
*/
module TokenLog {
  import opened Wrappers
  import opened RefreshTokens
  import opened TokenChains

  /** A request, or a clean-up, and what was answered. */
  datatype Exchange = Exchange(event: Event, reply: Option<Outcome>)

  function Log(s: Store, events: seq<Event>): seq<Exchange>
    decreases |events|
  {
    if events == [] then [] else [Exchange(events[0], Apply(s, events[0]).1)] + Log(Apply(s, events[0]).0, events[1..])
  }

  // ---------- what a log says ----------

  /** A token is handed out that did not exist before. */
  predicate IsMint(x: Exchange) {
    && (x.event.op.Login? || x.event.op.Refresh?)
    && x.reply.Some? && x.reply.value.Granted? && x.reply.value.issued.raw == x.event.op.raw
  }

  function TokenOf(x: Exchange): Issued
    requires IsMint(x)
  {
    x.reply.value.issued
  }

  predicate Mints(x: Exchange, raw: RawToken) {
    IsMint(x) && TokenOf(x).raw == raw
  }

  predicate MintsFor(x: Exchange, f: FamilyId) {
    IsMint(x) && TokenOf(x).family == f
  }

  /** A logout, or a refresh in which reuse is detected. */
  predicate Revokes(x: Exchange) {
    x.event.op.Logout? || (x.event.op.Refresh? && x.reply == Some(Rejected(ReuseDetected)))
  }

  // ---------- what is kept of a log ----------

  /** A login that started a family. */
  datatype Start = Start(user: UserId, at: int)

  /** The exchange of a token for `issued`, and whether the cache took note of it. */
  datatype Rotation = Rotation(issued: Issued, at: int, noted: bool)

  /** `current` is the last token of each family that has not ended since, `cleaned` the time of the last clean-up. */
  datatype Facts = Facts(tokens: map<RawToken, Issued>, starts: map<FamilyId, Start>, current: map<FamilyId, RawToken>,
                         rotated: map<RawToken, Rotation>, cleaned: Option<int>)

  const NO_FACTS: Facts := Facts(map[], map[], map[], map[], None)

  function Minted(k: Facts, x: Exchange): Facts
    requires IsMint(x)
  {
    var t, op := TokenOf(x), x.event.op;
    Facts(k.tokens[t.raw := t],
          if op.Login? then k.starts[op.family := Start(op.user, x.event.now)] else k.starts,
          k.current[t.family := t.raw],
          if op.Refresh? then k.rotated[op.presented := Rotation(t, x.event.now, op.writable)] else k.rotated,
          k.cleaned)
  }

  function Learned(k: Facts, x: Exchange): Facts {
    if IsMint(x) then Minted(k, x)
    else if Revokes(x) && x.event.op.presented in k.tokens
    then k.(current := k.current - {k.tokens[x.event.op.presented].family})
    else if x.event.op.Cleanup? then k.(cleaned := Some(x.event.now))
    else k
  }

  function FactsOf(log: seq<Exchange>): Facts {
    if log == [] then NO_FACTS else Learned(FactsOf(log[..|log| - 1]), log[|log| - 1])
  }

  // ---------- the facts and the store ----------

  predicate CleanedPast(k: Facts, time: int) {
    k.cleaned.Some? && k.cleaned.value > time
  }

  /** The token has the user of the login that started its family, and the expiry it fixed. */
  predicate Inherits(k: Facts, t: Issued) {
    t.family in k.starts && t.user == k.starts[t.family].user && t.expiresAt == k.starts[t.family].at + ABSOLUTE_LIFETIME
  }

  ghost predicate TokensOk(l: Ledger, clock: int, k: Facts) {
    && (forall raw | raw in k.tokens :: raw in l.raws && k.tokens[raw].raw == raw && Inherits(k, k.tokens[raw]))
    && (forall f | f in k.starts :: f in l.born)
    && (k.cleaned.Some? ==> k.cleaned.value <= clock)
  }

  ghost predicate RowTells(row: Row, t: Issued) {
    row.user == t.user && row.family == t.family && row.expiresAt == t.expiresAt
  }

  /** Exactly the tokens minted have rows, until they are cleaned up. */
  ghost predicate RowsOk(rows: map<Digest, Row>, k: Facts) {
    && (forall h | h in rows :: h.raw in k.tokens && RowTells(rows[h], k.tokens[h.raw]))
    && (forall raw | raw in k.tokens :: Digest(raw) in rows <==> !CleanedPast(k, k.tokens[raw].expiresAt))
  }

  /** The active rows are those of the current tokens. */
  ghost predicate ActiveOk(rows: map<Digest, Row>, k: Facts) {
    && (forall h | h in rows ::
          rows[h].status == Active <==> rows[h].family in k.current && k.current[rows[h].family] == h.raw)
    && (forall f | f in k.current :: k.current[f] in k.tokens && k.tokens[k.current[f]].family == f)
  }

  predicate IsCurrent(k: Facts, raw: RawToken) {
    raw in k.tokens && k.tokens[raw].family in k.current && k.current[k.tokens[raw].family] == raw
  }

  /** A token exchanged is no longer current, and its successor has its expiry. */
  ghost predicate RotationsOk(k: Facts) {
    forall raw | raw in k.rotated :: raw in k.tokens && !IsCurrent(k, raw) && k.tokens[raw].expiresAt == k.rotated[raw].issued.expiresAt
  }

  ghost predicate RotatedOk(rows: map<Digest, Row>, k: Facts) {
    && (forall raw | raw in k.rotated && Digest(raw) in rows ::
          rows[Digest(raw)].status == Revoked && rows[Digest(raw)].revokedAt == Some(k.rotated[raw].at))
    && RotationsOk(k)
  }

  /** The cache holds the tokens of the rotations it took note of. */
  ghost predicate CacheOk(cache: map<Digest, CacheEntry>, k: Facts) {
    && (forall h | h in cache ::
          && h.raw in k.rotated && k.rotated[h.raw].noted
          && cache[h] == CacheEntry(k.rotated[h.raw].issued, k.rotated[h.raw].at + GRACE_PERIOD))
    && (forall raw | raw in k.rotated && k.rotated[raw].noted :: Digest(raw) in cache)
  }

  ghost predicate Book(s: Store, l: Ledger, clock: int, k: Facts) {
    TokensOk(l, clock, k) && RowsOk(s.rows, k) && ActiveOk(s.rows, k) && RotatedOk(s.rows, k) && CacheOk(s.cache, k)
  }

  ghost predicate LedgerOn(l: Ledger, l': Ledger) {
    l.raws <= l'.raws && forall f | f in l.born :: f in l'.born
  }

  // ---------- each kind of step ----------

  lemma QuietStep(s: Store, l: Ledger, l': Ledger, clock: int, k: Facts, x: Exchange)
    requires Book(s, l, clock, k) && LedgerOn(l, l') && clock <= x.event.now
    requires !IsMint(x) && !x.event.op.Cleanup? && (Revokes(x) ==> x.event.op.presented !in k.tokens)
    ensures Book(s, l', x.event.now, Learned(k, x))
  {
  }

  lemma RowsAfterRevoking(s: Store, k: Facts, f: FamilyId, now: int)
    requires RowsOk(s.rows, k) && ActiveOk(s.rows, k) && RotatedOk(s.rows, k)
    ensures var s', k' := s.(rows := RevokeActive(s.rows, f, now)), k.(current := k.current - {f});
            RowsOk(s'.rows, k') && ActiveOk(s'.rows, k') && RotatedOk(s'.rows, k')
  {
  }

  lemma RevocationIsLearned(s: Store, k: Facts, x: Exchange)
    requires RowsOk(s.rows, k) && !IsMint(x) && Revokes(x) && Digest(x.event.op.presented) in s.rows
    ensures Learned(k, x) == k.(current := k.current - {s.rows[Digest(x.event.op.presented)].family})
  {
    assert RowTells(s.rows[Digest(x.event.op.presented)], k.tokens[x.event.op.presented]);
  }

  lemma TokensStay(l: Ledger, l': Ledger, clock: int, clock': int, k: Facts, k': Facts)
    requires TokensOk(l, clock, k) && LedgerOn(l, l') && clock <= clock' && k' == k.(current := k'.current)
    ensures TokensOk(l', clock', k')
  {
    forall raw | raw in k.tokens
      ensures Inherits(k', k.tokens[raw])
    {
      assert Inherits(k, k.tokens[raw]);
    }
  }

  lemma RevokingStep(s: Store, l: Ledger, l': Ledger, clock: int, k: Facts, x: Exchange)
    requires Book(s, l, clock, k) && LedgerOn(l, l') && clock <= x.event.now
    requires !IsMint(x) && Revokes(x) && Digest(x.event.op.presented) in s.rows
    ensures Book(s.(rows := RevokeActive(s.rows, s.rows[Digest(x.event.op.presented)].family, x.event.now)), l', x.event.now, Learned(k, x))
  {
    var f := s.rows[Digest(x.event.op.presented)].family;
    RevocationIsLearned(s, k, x);
    RowsAfterRevoking(s, k, f, x.event.now);
    TokensStay(l, l', clock, x.event.now, k, k.(current := k.current - {f}));
  }

  /** Once one token of a family has been cleaned up, so has every other. */
  lemma LateLogoutStep(s: Store, l: Ledger, l': Ledger, clock: int, k: Facts, x: Exchange)
    requires Book(s, l, clock, k) && LedgerOn(l, l') && clock <= x.event.now
    requires x.event.op.Logout? && Digest(x.event.op.presented) !in s.rows && x.event.op.presented in k.tokens
    ensures Book(s, l', x.event.now, Learned(k, x))
  {
    forall h | h in s.rows
      ensures s.rows[h].family != k.tokens[x.event.op.presented].family
    {
      assert Inherits(k, k.tokens[h.raw]) && Inherits(k, k.tokens[x.event.op.presented]);
    }
  }

  function Unexpired(rows: map<Digest, Row>, now: int): map<Digest, Row> {
    map h | h in rows && rows[h].expiresAt >= now :: rows[h]
  }

  lemma RowsAfterCleanup(rows: map<Digest, Row>, clock: int, k: Facts, now: int)
    requires RowsOk(rows, k) && clock <= now && (k.cleaned.Some? ==> k.cleaned.value <= clock)
    ensures RowsOk(Unexpired(rows, now), k.(cleaned := Some(now)))
  {
  }

  lemma RestAfterCleanup(rows: map<Digest, Row>, k: Facts, now: int)
    requires ActiveOk(rows, k) && RotatedOk(rows, k)
    ensures ActiveOk(Unexpired(rows, now), k.(cleaned := Some(now))) && RotatedOk(Unexpired(rows, now), k.(cleaned := Some(now)))
  {
  }

  lemma TokensAfterCleanup(l: Ledger, clock: int, k: Facts, now: int)
    requires TokensOk(l, clock, k) && clock <= now
    ensures TokensOk(l, now, k.(cleaned := Some(now)))
  {
    forall raw | raw in k.tokens
      ensures Inherits(k.(cleaned := Some(now)), k.tokens[raw])
    {
      assert Inherits(k, k.tokens[raw]);
    }
  }

  lemma CleanupStep(s: Store, l: Ledger, clock: int, k: Facts, x: Exchange, chains: map<FamilyId, seq<Digest>>)
    requires Book(s, l, clock, k) && Chained(s.rows, chains) && clock <= x.event.now && x.event.op.Cleanup?
    ensures Book(Cleaned(s, x.event.now), l, x.event.now, Learned(k, x))
  {
    var now := x.event.now;
    CleanedRows(s, chains, now);
    assert Cleaned(s, now).rows == Unexpired(s.rows, now);
    TokensAfterCleanup(l, clock, k, now);
    RowsAfterCleanup(s.rows, clock, k, now);
    RestAfterCleanup(s.rows, k, now);
  }

  /** What a new token has to satisfy. */
  ghost predicate MintOk(l: Ledger, l': Ledger, k: Facts, x: Exchange) {
    && IsMint(x) && TokenOf(x).raw !in l.raws && TokenOf(x).raw in l'.raws && TokenOf(x).family in l'.born
    && x.event.now <= TokenOf(x).expiresAt && Inherits(Minted(k, x), TokenOf(x))
    && (x.event.op.Login? ==> x.event.op.family !in l.born)
  }

  lemma TokensAfterMint(l: Ledger, l': Ledger, clock: int, k: Facts, x: Exchange)
    requires TokensOk(l, clock, k) && LedgerOn(l, l') && clock <= x.event.now && MintOk(l, l', k, x)
    requires x.event.op.Login? ==> x.event.op.family in l'.born
    ensures TokensOk(l', x.event.now, Minted(k, x))
  {
    forall raw | raw in k.tokens
      ensures Inherits(Minted(k, x), k.tokens[raw])
    {
      assert Inherits(k, k.tokens[raw]);
    }
  }

  lemma RowsAfterMint(s: Store, s': Store, l: Ledger, l': Ledger, clock: int, k: Facts, x: Exchange)
    requires TokensOk(l, clock, k) && RowsOk(s.rows, k) && clock <= x.event.now && MintOk(l, l', k, x)
    requires s'.rows.Keys == s.rows.Keys + {Digest(TokenOf(x).raw)} && RowTells(s'.rows[Digest(TokenOf(x).raw)], TokenOf(x))
    requires forall h | h in s.rows ::
               s'.rows[h].user == s.rows[h].user && s'.rows[h].family == s.rows[h].family && s'.rows[h].expiresAt == s.rows[h].expiresAt
    ensures Digest(TokenOf(x).raw) !in s.rows && TokenOf(x).raw !in k.tokens && RowsOk(s'.rows, Minted(k, x))
  {
  }

  lemma LoginMints(s: Store, l: Ledger, k: Facts, x: Exchange)
    requires x.event.op.Login? && Fresh(l, x.event.op) && x.reply == Apply(s, x.event).1
    ensures MintOk(l, Record(l, x.event), k, x) && LedgerOn(l, Record(l, x.event))
  {
  }

  lemma RowsAfterLogin(s: Store, l: Ledger, clock: int, k: Facts, x: Exchange)
    requires TokensOk(l, clock, k) && RowsOk(s.rows, k) && clock <= x.event.now && x.event.op.Login? && Fresh(l, x.event.op)
    requires x.reply == Apply(s, x.event).1 && MintOk(l, Record(l, x.event), k, x)
    ensures RowsOk(Apply(s, x.event).0.rows, Minted(k, x)) && TokenOf(x).raw !in k.tokens
    ensures forall h | h in s.rows :: s.rows[h].family != x.event.op.family && h != Digest(x.event.op.raw)
  {
    assert x.event.op.raw !in k.tokens;
    RowsAfterMint(s, Apply(s, x.event).0, l, Record(l, x.event), clock, k, x);
    forall h | h in s.rows
      ensures s.rows[h].family != x.event.op.family
    {
      assert Inherits(k, k.tokens[h.raw]);
    }
  }

  lemma RestAfterLogin(s: Store, k: Facts, x: Exchange)
    requires ActiveOk(s.rows, k) && RotatedOk(s.rows, k) && CacheOk(s.cache, k) && IsMint(x) && x.event.op.Login? && TokenOf(x).raw !in k.tokens
    requires x.reply == Apply(s, x.event).1
    requires forall h | h in s.rows :: s.rows[h].family != x.event.op.family && h != Digest(x.event.op.raw)
    ensures ActiveOk(Apply(s, x.event).0.rows, Minted(k, x)) && RotatedOk(Apply(s, x.event).0.rows, Minted(k, x))
    ensures CacheOk(Apply(s, x.event).0.cache, Minted(k, x))
  {
  }

  lemma LoginStep(s: Store, l: Ledger, clock: int, k: Facts, x: Exchange)
    requires Book(s, l, clock, k) && clock <= x.event.now && x.event.op.Login? && Fresh(l, x.event.op)
    requires x.reply == Apply(s, x.event).1
    ensures IsMint(x) && TokenOf(x).raw !in k.tokens
    ensures Book(Apply(s, x.event).0, Record(l, x.event), x.event.now, Learned(k, x))
  {
    LoginMints(s, l, k, x);
    TokensAfterMint(l, Record(l, x.event), clock, k, x);
    RowsAfterLogin(s, l, clock, k, x);
    RestAfterLogin(s, k, x);
  }

  lemma RotationMints(s: Store, l: Ledger, clock: int, k: Facts, x: Exchange)
    requires TokensOk(l, clock, k) && RowsOk(s.rows, k) && x.event.op.Refresh? && Fresh(l, x.event.op) && x.reply == Apply(s, x.event).1
    requires var h := Digest(x.event.op.presented);
             h in s.rows && s.rows[h].status == Active && x.event.now <= s.rows[h].expiresAt
    ensures MintOk(l, Record(l, x.event), k, x) && LedgerOn(l, Record(l, x.event))
    ensures var row := s.rows[Digest(x.event.op.presented)]; TokenOf(x) == Issued(x.event.op.raw, row.user, row.family, row.expiresAt)
  {
    assert Inherits(k, k.tokens[x.event.op.presented]);
  }

  lemma ActiveAfterRotation(s: Store, k: Facts, x: Exchange, h: Digest, next: Digest, row: Row, heir: Row)
    requires RowsOk(s.rows, k) && ActiveOk(s.rows, k) && IsMint(x) && x.event.op.Refresh? && h in s.rows && s.rows[h].status == Active
    requires next == Digest(TokenOf(x).raw) && next !in s.rows && next.raw !in k.tokens
    requires TokenOf(x).family == s.rows[h].family == row.family == heir.family && row.status == Revoked && heir.status == Active
    ensures ActiveOk(s.rows[next := heir][h := row], Minted(k, x))
  {
  }

  lemma RotatedAfterRotation(s: Store, k: Facts, x: Exchange, h: Digest, next: Digest, row: Row, heir: Row)
    requires RowsOk(s.rows, k) && RotatedOk(s.rows, k) && IsMint(x) && x.event.op.Refresh? && h in s.rows && s.rows[h].status == Active
    requires next == Digest(TokenOf(x).raw) && next !in s.rows && next.raw !in k.tokens && h == Digest(x.event.op.presented)
    requires TokenOf(x).expiresAt == s.rows[h].expiresAt && TokenOf(x).family == s.rows[h].family
    requires row.status == Revoked && row.revokedAt == Some(x.event.now)
    ensures RotatedOk(s.rows[next := heir][h := row], Minted(k, x)) && x.event.op.presented !in k.rotated
  {
  }

  lemma CacheAfterRotation(s: Store, k: Facts, x: Exchange)
    requires CacheOk(s.cache, k) && IsMint(x) && x.event.op.Refresh? && x.event.op.presented !in k.rotated
    ensures var entry := CacheEntry(TokenOf(x), x.event.now + GRACE_PERIOD);
            CacheOk(if x.event.op.writable then s.cache[Digest(x.event.op.presented) := entry] else s.cache, Minted(k, x))
  {
  }

  /** What a rotation does to the table and to the cache. */
  ghost predicate RotationDone(s: Store, s': Store, x: Exchange, row: Row, heir: Row)
    requires x.event.op.Refresh?
  {
    var h := Digest(x.event.op.presented);
    && IsMint(x) && h in s.rows && s.rows[h].status == Active && RowTells(s.rows[h], TokenOf(x))
    && s'.rows == s.rows[Digest(TokenOf(x).raw) := heir][h := row]
    && s'.cache == (if x.event.op.writable then s.cache[h := CacheEntry(TokenOf(x), x.event.now + GRACE_PERIOD)] else s.cache)
    && RowTells(heir, TokenOf(x)) && heir.status == Active
    && RowTells(row, TokenOf(x)) && row.status == Revoked && row.revokedAt == Some(x.event.now)
  }

  lemma RotationWrites(s: Store, x: Exchange) returns (row: Row, heir: Row)
    requires x.event.op.Refresh? && x.reply == Apply(s, x.event).1
    requires var h := Digest(x.event.op.presented);
             h in s.rows && s.rows[h].status == Active && x.event.now <= s.rows[h].expiresAt
    ensures RotationDone(s, Apply(s, x.event).0, x, row, heir)
  {
    var h, op := Digest(x.event.op.presented), x.event.op;
    row := s.rows[h].(status := Revoked, revokedAt := Some(x.event.now), replacedBy := Some(op.id));
    heir := Successor(s.rows[h], op.id);
  }

  lemma RotationKeepsRows(s: Store, s': Store, l: Ledger, l': Ledger, clock: int, k: Facts, x: Exchange, row: Row, heir: Row)
    requires TokensOk(l, clock, k) && RowsOk(s.rows, k) && clock <= x.event.now && MintOk(l, l', k, x) && LedgerOn(l, l')
    requires x.event.op.Refresh? && RotationDone(s, s', x, row, heir)
    ensures TokenOf(x).raw !in k.tokens && Digest(TokenOf(x).raw) !in s.rows
    ensures TokensOk(l', x.event.now, Learned(k, x)) && RowsOk(s'.rows, Learned(k, x))
  {
    TokensAfterMint(l, l', clock, k, x);
    RowsAfterMint(s, s', l, l', clock, k, x);
  }

  lemma RotationKeepsRest(s: Store, s': Store, k: Facts, x: Exchange, row: Row, heir: Row)
    requires RowsOk(s.rows, k) && ActiveOk(s.rows, k) && RotatedOk(s.rows, k) && CacheOk(s.cache, k)
    requires x.event.op.Refresh? && RotationDone(s, s', x, row, heir)
    requires TokenOf(x).raw !in k.tokens && Digest(TokenOf(x).raw) !in s.rows
    ensures x.event.op.presented !in k.rotated
    ensures ActiveOk(s'.rows, Learned(k, x)) && RotatedOk(s'.rows, Learned(k, x)) && CacheOk(s'.cache, Learned(k, x))
  {
    var h, next := Digest(x.event.op.presented), Digest(TokenOf(x).raw);
    ActiveAfterRotation(s, k, x, h, next, row, heir);
    RotatedAfterRotation(s, k, x, h, next, row, heir);
    CacheAfterRotation(s, k, x);
  }

  lemma RotationStep(s: Store, l: Ledger, clock: int, k: Facts, x: Exchange)
    requires Book(s, l, clock, k) && clock <= x.event.now && x.event.op.Refresh? && Fresh(l, x.event.op)
    requires var h := Digest(x.event.op.presented);
             h in s.rows && s.rows[h].status == Active && x.event.now <= s.rows[h].expiresAt
    requires x.reply == Apply(s, x.event).1
    ensures IsMint(x) && TokenOf(x).raw !in k.tokens && x.event.op.presented !in k.rotated
    ensures Book(Apply(s, x.event).0, Record(l, x.event), x.event.now, Learned(k, x))
  {
    RotationMints(s, l, clock, k, x);
    var row, heir := RotationWrites(s, x);
    RotationKeepsRows(s, Apply(s, x.event).0, l, Record(l, x.event), clock, k, x, row, heir);
    RotationKeepsRest(s, Apply(s, x.event).0, k, x, row, heir);
  }

  // ---------- runs ----------

  /** Nothing is minted twice, and no token is exchanged twice. */
  ghost predicate NewTo(k: Facts, x: Exchange) {
    IsMint(x) ==> TokenOf(x).raw !in k.tokens && (x.event.op.Refresh? ==> x.event.op.presented !in k.rotated)
  }

  lemma ReissueIsNoMint(s: Store, l: Ledger, e: Event)
    requires AllKnown(l, s.rows) && CacheNames(l, s) && e.op.Refresh? && Fresh(l, e.op)
    requires Digest(e.op.presented) in s.rows && s.rows[Digest(e.op.presented)].status == Revoked
    ensures !IsMint(Exchange(e, Apply(s, e).1))
  {
    var h := Digest(e.op.presented);
    if h in s.cache {
      assert Names(s.rows, s.rows[h], s.cache[h]);
      assert RowKnown(l, Digest(s.cache[h].issued.raw), s.rows[Digest(s.cache[h].issued.raw)]);
    }
  }

  lemma RefreshKeepsBook(s: Store, l: Ledger, clock: int, k: Facts, e: Event)
    requires AllKnown(l, s.rows) && CacheNames(l, s) && Book(s, l, clock, k) && clock <= e.now && Fresh(l, e.op) && e.op.Refresh?
    ensures var x := Exchange(e, Apply(s, e).1); NewTo(k, x) && Book(Apply(s, e).0, Record(l, e), e.now, Learned(k, x))
  {
    var x, h := Exchange(e, Apply(s, e).1), Digest(e.op.presented);
    if h !in s.rows || e.now > s.rows[h].expiresAt {
      QuietStep(s, l, Record(l, e), clock, k, x);
    } else if s.rows[h].status == Active {
      RotationStep(s, l, clock, k, x);
    } else {
      ReissueIsNoMint(s, l, e);
      if x.reply.value.Granted? {
        QuietStep(s, l, Record(l, e), clock, k, x);
      } else {
        RevokingStep(s, l, Record(l, e), clock, k, x);
      }
    }
  }

  lemma StepKeepsBook(s: Store, l: Ledger, chains: map<FamilyId, seq<Digest>>, clock: int, k: Facts, e: Event)
    requires Inv(s, l, chains) && Book(s, l, clock, k) && clock <= e.now && Fresh(l, e.op)
    ensures var x := Exchange(e, Apply(s, e).1); NewTo(k, x) && Book(Apply(s, e).0, Record(l, e), e.now, Learned(k, x))
  {
    var x := Exchange(e, Apply(s, e).1);
    match e.op {
      case Login(_, _, _, _) => LoginStep(s, l, clock, k, x);
      case Refresh(_, _, _, _, _) => RefreshKeepsBook(s, l, clock, k, e);
      case Logout(presented) =>
        if Digest(presented) in s.rows {
          RevokingStep(s, l, l, clock, k, x);
        } else if presented in k.tokens {
          LateLogoutStep(s, l, l, clock, k, x);
        } else {
          QuietStep(s, l, l, clock, k, x);
        }
      case Cleanup => CleanupStep(s, l, clock, k, x, chains);
    }
  }

  predicate Rotates(x: Exchange) {
    IsMint(x) && x.event.op.Refresh?
  }

  /** Time goes on, no token is minted twice, and none is exchanged twice. */
  ghost predicate Follows(x: Exchange, y: Exchange) {
    && x.event.now <= y.event.now
    && (IsMint(x) && IsMint(y) ==> TokenOf(x).raw != TokenOf(y).raw)
    && (Rotates(x) && Rotates(y) ==> x.event.op.presented != y.event.op.presented)
  }

  ghost predicate Orderly(log: seq<Exchange>) {
    forall j, k | 0 <= j < k < |log| :: Follows(log[j], log[k])
  }

  lemma {:induction false} MintsAreFacts(log: seq<Exchange>, j: nat)
    requires j < |log|
    ensures IsMint(log[j]) ==> TokenOf(log[j]).raw in FactsOf(log).tokens
    ensures Rotates(log[j]) ==> log[j].event.op.presented in FactsOf(log).rotated
    decreases |log|
  {
    if j < |log| - 1 {
      MintsAreFacts(log[..|log| - 1], j);
    }
  }

  lemma FactsMore(log: seq<Exchange>, x: Exchange)
    ensures FactsOf(log + [x]) == Learned(FactsOf(log), x)
  {
    assert (log + [x])[..|log|] == log;
  }

  lemma OrderlyMore(log: seq<Exchange>, x: Exchange)
    requires Orderly(log) && NewTo(FactsOf(log), x) && forall k | 0 <= k < |log| :: log[k].event.now <= x.event.now
    ensures Orderly(log + [x])
  {
    forall j | 0 <= j < |log|
      ensures Follows(log[j], x)
    {
      MintsAreFacts(log, j);
    }
  }

  function TimeAt(clock: int, events: seq<Event>, n: nat): int
    requires n <= |events|
  {
    if n == 0 then clock else events[n - 1].now
  }

  /** The run up to event `n`, and event `n` itself. */
  lemma {:induction false} RunUpTo(l: Ledger, clock: int, events: seq<Event>, n: nat)
    requires ValidRun(l, clock, events) && n < |events|
    ensures ValidRun(l, clock, events[..n]) && Fresh(Recorded(l, events[..n]), events[n].op)
    ensures TimeAt(clock, events, n) <= events[n].now
    ensures Recorded(l, events[..n + 1]) == Record(Recorded(l, events[..n]), events[n])
    decreases n
  {
    if n > 0 {
      assert events[..n][1..] == events[1..][..n - 1] && events[..n][0] == events[0];
      assert events[..n + 1][1..] == events[1..][..n] && events[..n + 1][0] == events[0];
      RunUpTo(Record(l, events[0]), events[0].now, events[1..], n - 1);
    } else {
      assert events[..1][1..] == [];
    }
  }

  lemma {:induction false} LogUpTo(s: Store, events: seq<Event>, n: nat)
    requires n < |events|
    ensures |Log(s, events)| == |events| && Log(s, events)[..n] == Log(s, events[..n])
    ensures Log(s, events)[n] == Exchange(events[n], Apply(After(s, events[..n]), events[n]).1)
    ensures After(s, events[..n + 1]) == Apply(After(s, events[..n]), events[n]).0
    decreases n
  {
    var rest, s' := events[1..], Apply(s, events[0]).0;
    LogLength(s', rest);
    if n > 0 {
      assert events[..n][1..] == rest[..n - 1] && events[..n + 1][1..] == rest[..n];
      LogUpTo(s', rest, n - 1);
    } else {
      assert events[..1][1..] == [];
    }
  }

  lemma {:induction false} LogLength(s: Store, events: seq<Event>)
    ensures |Log(s, events)| == |events|
    decreases |events|
  {
    if events != [] {
      LogLength(Apply(s, events[0]).0, events[1..]);
    }
  }

  /** The log holds the replies. */
  lemma {:induction false} LogHoldsReplies(s: Store, events: seq<Event>, n: nat)
    requires n < |events|
    ensures |Log(s, events)| == |Replies(s, events)| == |events|
    ensures Log(s, events)[n] == Exchange(events[n], Replies(s, events)[n])
    decreases |events|
  {
    if |events| > 1 {
      LogHoldsReplies(Apply(s, events[0]).0, events[1..], if n > 0 then n - 1 else 0);
    }
  }

  /** The store and the log after a run belong together. */
  ghost predicate Tracked(s: Store, l: Ledger, clock: int, log: seq<Exchange>) {
    Book(s, l, clock, FactsOf(log)) && Orderly(log) && forall k | 0 <= k < |log| :: log[k].event.now <= clock
  }

  lemma TrackedStep(s: Store, l: Ledger, chains: map<FamilyId, seq<Digest>>, clock: int, log: seq<Exchange>, e: Event)
    requires Inv(s, l, chains) && Tracked(s, l, clock, log) && clock <= e.now && Fresh(l, e.op)
    ensures Tracked(Apply(s, e).0, Record(l, e), e.now, log + [Exchange(e, Apply(s, e).1)])
  {
    var x := Exchange(e, Apply(s, e).1);
    StepKeepsBook(s, l, chains, clock, FactsOf(log), e);
    FactsMore(log, x);
    OrderlyMore(log, x);
  }

  lemma InvAfter(clock: int, events: seq<Event>) returns (chains: map<FamilyId, seq<Digest>>)
    requires ValidRun(NOTHING_YET, clock, events)
    ensures Inv(After(EMPTY, events), Recorded(NOTHING_YET, events), chains)
  {
    chains := RunKeeps(EMPTY, NOTHING_YET, map[], clock, events);
  }

  lemma {:induction false} TrackedOneMore(clock: int, events: seq<Event>, m: nat)
    requires ValidRun(NOTHING_YET, clock, events) && m < |events| && |Log(EMPTY, events)| == |events|
    requires Tracked(After(EMPTY, events[..m]), Recorded(NOTHING_YET, events[..m]), TimeAt(clock, events, m), Log(EMPTY, events)[..m])
    ensures Tracked(After(EMPTY, events[..m + 1]), Recorded(NOTHING_YET, events[..m + 1]), TimeAt(clock, events, m + 1),
                    Log(EMPTY, events)[..m + 1])
  {
    RunUpTo(NOTHING_YET, clock, events, m);
    LogUpTo(EMPTY, events, m);
    var chains := InvAfter(clock, events[..m]);
    var log := Log(EMPTY, events);
    assert log[..m + 1] == log[..m] + [log[m]];
    TrackedStep(After(EMPTY, events[..m]), Recorded(NOTHING_YET, events[..m]), chains, TimeAt(clock, events, m), log[..m], events[m]);
  }

  lemma NothingTracked(clock: int)
    ensures Tracked(EMPTY, NOTHING_YET, clock, [])
  {
  }

  lemma {:induction false} TrackedUpTo(clock: int, events: seq<Event>, n: nat)
    requires ValidRun(NOTHING_YET, clock, events) && n <= |events|
    ensures |Log(EMPTY, events)| == |events|
    ensures Tracked(After(EMPTY, events[..n]), Recorded(NOTHING_YET, events[..n]), TimeAt(clock, events, n), Log(EMPTY, events)[..n])
  {
    LogLength(EMPTY, events);
    if n == 0 {
      NothingTracked(clock);
      assert Log(EMPTY, events)[..0] == [];
    } else {
      TrackedUpTo(clock, events, n - 1);
      TrackedOneMore(clock, events, n - 1);
    }
  }
}
