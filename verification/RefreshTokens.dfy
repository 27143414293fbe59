/**
  Rotating refresh tokens grouped into families (refresh token rotation, section 4.14.2 of RFC 9700):
  the operations on the token table and on the grace-period cache, each as one atomic step.
*/
module RefreshTokens {
  import opened Wrappers

  // Times are whole microseconds.
  const SECOND: int := 1_000_000
  const GRACE_PERIOD: int := 5 * SECOND
  const ABSOLUTE_LIFETIME: int := 30 * 24 * 3600 * SECOND

  type UserId = nat
  type FamilyId = nat
  type RowId = nat
  type RawToken = nat

  /** The stored hash of a raw token; different tokens have different hashes. */
  datatype Digest = Digest(raw: RawToken)

  datatype Status = Active | Revoked

  /** A row of the token table; the table has at most one row for a hash. */
  datatype Row = Row(id: RowId, user: UserId, family: FamilyId, familyCreatedAt: int, status: Status,
                     revokedAt: Option<int>, replacedBy: Option<RowId>, expiresAt: int)

  datatype Issued = Issued(raw: RawToken, user: UserId, family: FamilyId, expiresAt: int)

  /** A cached reissue, readable before `liveUntil`. */
  datatype CacheEntry = CacheEntry(issued: Issued, liveUntil: int)

  datatype Store = Store(rows: map<Digest, Row>, cache: map<Digest, CacheEntry>)

  datatype Rejection = InvalidToken | SessionExpired | ReuseDetected

  datatype Outcome = Granted(issued: Issued) | Rejected(why: Rejection)

  // ---------- the operations ----------

  function RevokedRow(row: Row, now: int): Row {
    row.(status := Revoked, revokedAt := Some(now))
  }

  /** Every active row of the family is revoked at `now`; nothing else changes. */
  function RevokeActive(rows: map<Digest, Row>, family: FamilyId, now: int): (r: map<Digest, Row>)
    ensures r.Keys == rows.Keys
  {
    map h | h in rows ::
      if rows[h].family == family && rows[h].status == Active then RevokedRow(rows[h], now) else rows[h]
  }

  function FirstRow(user: UserId, family: FamilyId, id: RowId, now: int): Row {
    Row(id, user, family, now, Active, None, None, now + ABSOLUTE_LIFETIME)
  }

  function NewFamily(s: Store, now: int, user: UserId, family: FamilyId, id: RowId, raw: RawToken): Store {
    s.(rows := s.rows[Digest(raw) := FirstRow(user, family, id, now)])
  }

  function RevokeByToken(s: Store, now: int, raw: RawToken): Store {
    if Digest(raw) in s.rows then s.(rows := RevokeActive(s.rows, s.rows[Digest(raw)].family, now)) else s
  }

  /** What the cache still says about a hash; a failing cache says nothing. */
  function Cached(s: Store, h: Digest, now: int, readable: bool): Option<Issued> {
    if readable && h in s.cache && now < s.cache[h].liveUntil then Some(s.cache[h].issued) else None
  }

  function Successor(row: Row, id: RowId): Row {
    Row(id, row.user, row.family, row.familyCreatedAt, Active, None, None, row.expiresAt)
  }

  function Rotated(s: Store, now: int, h: Digest, id: RowId, raw: RawToken, writable: bool): Store
    requires h in s.rows
  {
    var row := s.rows[h];
    var rows := s.rows[Digest(raw) := Successor(row, id)];
    Store(rows[h := row.(status := Revoked, revokedAt := Some(now), replacedBy := Some(id))],
          if writable
          then s.cache[h := CacheEntry(Issued(raw, row.user, row.family, row.expiresAt), now + GRACE_PERIOD)]
          else s.cache)
  }

  /** `rotate_refresh_token`; `readable` and `writable` say whether the cache answers at those two points. */
  function Rotate(s: Store, now: int, presented: RawToken, id: RowId, raw: RawToken, readable: bool, writable: bool)
    : (Store, Outcome)
  {
    var h := Digest(presented);
    if h !in s.rows then (s, Rejected(InvalidToken))
    else
      var row := s.rows[h];
      if now > row.expiresAt then (s, Rejected(SessionExpired))
      else if row.status == Revoked then
        var cached := if now <= row.revokedAt.GetOr(now) + GRACE_PERIOD then Cached(s, h, now, readable) else None;
        if cached.Some? then (s, Granted(cached.value))
        else (s.(rows := RevokeActive(s.rows, row.family, now)), Rejected(ReuseDetected))
      else
        (Rotated(s, now, h, id, raw, writable), Granted(Issued(raw, row.user, row.family, row.expiresAt)))
  }

  predicate IdPresent(rows: map<Digest, Row>, id: RowId) {
    exists h | h in rows :: rows[h].id == id
  }

  /** Expired rows go, and a reference to a deleted row is set to null, as the foreign key demands. */
  function Cleaned(s: Store, now: int): Store {
    var kept := map h | h in s.rows && s.rows[h].expiresAt >= now :: s.rows[h];
    s.(rows := map h | h in kept ::
         if kept[h].replacedBy.Some? && !IdPresent(kept, kept[h].replacedBy.value)
         then kept[h].(replacedBy := None) else kept[h])
  }

  // ---------- the same operations, as performed on the table ----------

  class TokenService {
    var rows: map<Digest, Row>
    var cache: map<Digest, CacheEntry>

    ghost function Contents(): Store
      reads this
    {
      Store(rows, cache)
    }

    constructor ()
      ensures Contents() == Store(map[], map[])
    {
      rows, cache := map[], map[];
    }

    method IssueNewFamily(now: int, user: UserId, family: FamilyId, id: RowId, raw: RawToken) returns (issued: Issued)
      requires Digest(raw) !in rows && !IdPresent(rows, id)
      modifies this
      ensures Contents() == NewFamily(old(Contents()), now, user, family, id, raw)
      ensures issued == Issued(raw, user, family, now + ABSOLUTE_LIFETIME)
    {
      rows := rows[Digest(raw) := FirstRow(user, family, id, now)];
      issued := Issued(raw, user, family, now + ABSOLUTE_LIFETIME);
    }

    /** Revoke the active rows of a family, one by one. */
    method RevokeFamily(now: int, family: FamilyId)
      modifies this`rows
      ensures rows == RevokeActive(old(rows), family, now)
    {
      var active := set h | h in rows && rows[h].family == family && rows[h].status == Active;
      var todo := active;
      while todo != {}
        invariant todo <= active && rows.Keys == old(rows).Keys
        invariant forall h | h in rows ::
                    rows[h] == if h in active - todo then RevokedRow(old(rows)[h], now) else old(rows)[h]
        decreases todo
      {
        var h :| h in todo;
        rows := rows[h := rows[h].(status := Revoked, revokedAt := Some(now))];
        todo := todo - {h};
      }
    }

    /** Logout: revoke every member of the presented token's family that is not revoked yet. */
    method RevokeFamilyByToken(now: int, raw: RawToken)
      modifies this`rows
      ensures Contents() == RevokeByToken(old(Contents()), now, raw)
    {
      if Digest(raw) !in rows {
        return;
      }
      var family := rows[Digest(raw)].family;
      var members := set h | h in rows && rows[h].family == family;
      var todo := members;
      while todo != {}
        invariant todo <= members && rows.Keys == old(rows).Keys
        invariant forall h | h in rows ::
                    rows[h] == if h in members - todo && old(rows)[h].status == Active
                               then RevokedRow(old(rows)[h], now) else old(rows)[h]
        decreases todo
      {
        var h :| h in todo;
        if rows[h].status != Revoked {
          rows := rows[h := rows[h].(status := Revoked, revokedAt := Some(now))];
        }
        todo := todo - {h};
      }
    }

    method RotateRefreshToken(now: int, presented: RawToken, id: RowId, raw: RawToken, readable: bool, writable: bool)
      returns (outcome: Outcome)
      requires Digest(raw) !in rows && !IdPresent(rows, id)
      modifies this
      ensures (Contents(), outcome) == Rotate(old(Contents()), now, presented, id, raw, readable, writable)
    {
      var h := Digest(presented);
      if h !in rows {
        return Rejected(InvalidToken);
      }
      var row := rows[h];
      if now > row.expiresAt {
        return Rejected(SessionExpired);
      }
      if row.status == Revoked {
        var deadline := row.revokedAt.GetOr(now) + GRACE_PERIOD;
        if now <= deadline {
          if readable && h in cache && now < cache[h].liveUntil {
            return Granted(cache[h].issued);
          }
        }
        RevokeFamily(now, row.family);
        return Rejected(ReuseDetected);
      }
      rows := rows[Digest(raw) := Successor(row, id)];
      rows := rows[h := row.(status := Revoked, revokedAt := Some(now), replacedBy := Some(id))];
      var issued := Issued(raw, row.user, row.family, row.expiresAt);
      if writable {
        cache := cache[h := CacheEntry(issued, now + GRACE_PERIOD)];
      }
      outcome := Granted(issued);
    }

    method CleanupExpired(now: int)
      modifies this`rows
      ensures Contents() == Cleaned(old(Contents()), now)
    {
      rows := map h | h in rows && rows[h].expiresAt >= now :: rows[h];
      rows := map h | h in rows ::
        if rows[h].replacedBy.Some? && !IdPresent(rows, rows[h].replacedBy.value)
        then rows[h].(replacedBy := None) else rows[h];
    }
  }
}
