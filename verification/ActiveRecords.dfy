/**
  Saving a row as a user's only active one: deactivate, insert, commit under a partial unique index
  on active rows, and once more if the index refuses.  Savers interleave between deactivation and
  commit.
*/
module ActiveRecords {
  import opened Wrappers

  type UserId = nat
  type RowId = nat
  type ProcessId = nat

  const ATTEMPTS: nat := 2

  datatype Row = Row(user: UserId, active: bool, content: string)

  type Table = map<RowId, Row>

  /** What the partial unique index admits. */
  predicate OneActiveEach(rows: Table) {
    forall r, s | r in rows && s in rows && rows[r].active && rows[s].active && rows[r].user == rows[s].user :: r == s
  }

  function ActiveRows(rows: Table, user: UserId): set<RowId> {
    set r | r in rows && rows[r].user == user && rows[r].active
  }

  function Deactivated(rows: Table, seen: set<RowId>): Table {
    map r | r in rows :: if r in seen then rows[r].(active := false) else rows[r]
  }

  /** The table as a commit would leave it: the rows seen active are so no longer, the new one is. */
  function Replacing(rows: Table, seen: set<RowId>, r: RowId, user: UserId, content: string): Table {
    Deactivated(rows, seen)[r := Row(user, true, content)]
  }

  /** Of an admitted table, what stands in the way of a commit is an active row that was not seen. */
  lemma CommitIsAdmittedIff(rows: Table, seen: set<RowId>, r: RowId, user: UserId, content: string)
    requires OneActiveEach(rows) && r !in rows && seen <= rows.Keys
    requires forall s | s in seen :: rows[s].user == user
    ensures OneActiveEach(Replacing(rows, seen, r, user, content)) <==> ActiveRows(rows, user) <= seen
    ensures ActiveRows(rows, user) <= seen ==> ActiveRows(Replacing(rows, seen, r, user, content), user) == {r}
    ensures forall other | other != user :: ActiveRows(Replacing(rows, seen, r, user, content), other) == ActiveRows(rows, other)
  {
    var rows' := Replacing(rows, seen, r, user, content);
    if s :| s in ActiveRows(rows, user) && s !in seen {
      assert rows'[s].active && rows'[r].active && rows'[s].user == rows'[r].user && s != r;
    }
    assert r in rows' && rows'[r].active;
  }

  // ---------- concurrent savers ----------

  /** `mark` is the number of commits when the attempt began. */
  datatype Phase = Ready | Pending(seen: set<RowId>, mark: nat) | Returned(row: RowId) | Raised

  /** `lost` are the stretches of the commit log that failed attempts ran through. */
  datatype Saver = Saver(user: UserId, phase: Phase, lost: seq<(nat, nat)>)

  datatype Commit = Commit(process: ProcessId, user: UserId)

  datatype State = State(rows: Table, savers: map<ProcessId, Saver>, log: seq<Commit>)

  datatype Action =
    | Start(p: ProcessId, user: UserId)
    | Deactivate(p: ProcessId)
    | TryCommit(p: ProcessId, r: RowId, content: string)

  ghost predicate Enabled(s: State, a: Action) {
    match a
    case Start(p, _) => p !in s.savers
    case Deactivate(p) => p in s.savers && s.savers[p].phase.Ready?
    case TryCommit(p, r, _) => p in s.savers && s.savers[p].phase.Pending? && r !in s.rows
  }

  ghost function Next(s: State, a: Action): State
    requires Enabled(s, a)
  {
    match a
    case Start(p, user) => s.(savers := s.savers[p := Saver(user, Ready, [])])
    case Deactivate(p) =>
      var saver := s.savers[p];
      s.(savers := s.savers[p := saver.(phase := Pending(ActiveRows(s.rows, saver.user), |s.log|))])
    case TryCommit(p, r, content) =>
      var saver := s.savers[p];
      var rows' := Replacing(s.rows, saver.phase.seen, r, saver.user, content);
      if OneActiveEach(rows')
      then State(rows', s.savers[p := saver.(phase := Returned(r))], s.log + [Commit(p, saver.user)])
      else
        var lost := saver.lost + [(saver.phase.mark, |s.log|)];
        s.(savers := s.savers[p := Saver(saver.user, if |lost| == ATTEMPTS then Raised else Ready, lost)])
  }

  ghost predicate Possible(s: State, run: seq<Action>)
    decreases |run|
  {
    run == [] || (Enabled(s, run[0]) && Possible(Next(s, run[0]), run[1..]))
  }

  ghost function After(s: State, run: seq<Action>): State
    requires Possible(s, run)
    decreases |run|
  {
    if run == [] then s else After(Next(s, run[0]), run[1..])
  }

  // ---------- the invariant ----------

  /** Another saver of the same user has committed in this stretch of the log. */
  ghost predicate Contended(log: seq<Commit>, from: nat, to: nat, p: ProcessId, user: UserId)
    requires from <= to <= |log|
  {
    exists i | from <= i < to :: log[i].user == user && log[i].process != p
  }

  /** A pending attempt overlooks an active row exactly when a competitor has committed since it began. */
  ghost predicate PendingOk(s: State, p: ProcessId, saver: Saver) {
    saver.phase.Pending? ==>
      && saver.phase.seen <= s.rows.Keys
      && (forall r | r in saver.phase.seen :: s.rows[r].user == saver.user)
      && saver.phase.mark <= |s.log|
      && (ActiveRows(s.rows, saver.user) <= saver.phase.seen <==> !Contended(s.log, saver.phase.mark, |s.log|, p, saver.user))
  }

  /** Each failed attempt has been contended, one after the other. */
  ghost predicate LostOk(s: State, p: ProcessId, saver: Saver) {
    && (forall k | 0 <= k < |saver.lost| ::
          saver.lost[k].0 <= saver.lost[k].1 <= |s.log| && Contended(s.log, saver.lost[k].0, saver.lost[k].1, p, saver.user))
    && (|saver.lost| == 2 ==> saver.lost[0].1 <= saver.lost[1].0)
    && (saver.phase.Pending? && |saver.lost| == 1 ==> saver.lost[0].1 <= saver.phase.mark)
    && (if saver.phase.Raised? then |saver.lost| == ATTEMPTS else |saver.lost| < ATTEMPTS)
  }

  /** Commits were made by savers that have returned, one commit each. */
  ghost predicate LogOk(s: State) {
    && (forall i | 0 <= i < |s.log| ::
          s.log[i].process in s.savers && s.savers[s.log[i].process].phase.Returned?
          && s.savers[s.log[i].process].user == s.log[i].user)
    && (forall i, j | 0 <= i < j < |s.log| :: s.log[i].process != s.log[j].process)
  }

  ghost predicate Inv(s: State) {
    && OneActiveEach(s.rows)
    && LogOk(s)
    && (forall p | p in s.savers :: PendingOk(s, p, s.savers[p]) && LostOk(s, p, s.savers[p]))
  }

  lemma ContentionLasts(log: seq<Commit>, more: seq<Commit>, from: nat, to: nat, p: ProcessId, user: UserId)
    requires from <= to <= |log|
    ensures Contended(log + more, from, to, p, user) <==> Contended(log, from, to, p, user)
  {
    assert forall i | from <= i < to :: (log + more)[i] == log[i];
  }

  lemma ContentionGrows(log: seq<Commit>, c: Commit, from: nat, p: ProcessId, user: UserId)
    requires from <= |log|
    ensures Contended(log + [c], from, |log| + 1, p, user)
         <==> Contended(log, from, |log|, p, user) || (c.user == user && c.process != p)
  {
    var log' := log + [c];
    assert log'[|log|] == c;
    assert forall i | from <= i < |log| :: log'[i] == log[i];
  }

  /** A commit is admitted exactly when no competitor has committed since the attempt began. */
  lemma CommitFailsIffContended(s: State, p: ProcessId, r: RowId, content: string)
    requires Inv(s) && Enabled(s, TryCommit(p, r, content))
    ensures var saver, s' := s.savers[p], Next(s, TryCommit(p, r, content));
            if Contended(s.log, saver.phase.mark, |s.log|, p, saver.user)
            then s'.rows == s.rows && s'.log == s.log && !s'.savers[p].phase.Returned?
            else s'.savers[p].phase == Returned(r) && ActiveRows(s'.rows, saver.user) == {r}
                 && s'.log == s.log + [Commit(p, saver.user)] && OneActiveEach(s'.rows)
                 && s'.rows == Replacing(s.rows, saver.phase.seen, r, saver.user, content)
  {
    var saver := s.savers[p];
    assert PendingOk(s, p, saver);
    CommitIsAdmittedIff(s.rows, saver.phase.seen, r, saver.user, content);
  }

  /** What a commit of `p` means for another saver `q`. */
  lemma OthersAfterCommit(s: State, p: ProcessId, r: RowId, content: string, q: ProcessId)
    requires Inv(s) && Enabled(s, TryCommit(p, r, content)) && q in s.savers && q != p
    ensures var s' := Next(s, TryCommit(p, r, content));
            PendingOk(s', q, s.savers[q]) && LostOk(s', q, s.savers[q])
  {
    CommitFailsIffContended(s, p, r, content);
    var saver, other, s' := s.savers[p], s.savers[q], Next(s, TryCommit(p, r, content));
    assert PendingOk(s, q, other) && LostOk(s, q, other);
    if s'.log != s.log {
      LostSurvives(s, s', q, other, Commit(p, saver.user));
      if other.phase.Pending? {
        ContentionGrows(s.log, Commit(p, saver.user), other.phase.mark, q, other.user);
        assert PendingOk(s, p, saver);
        CommitIsAdmittedIff(s.rows, saver.phase.seen, r, saver.user, content);
        assert r !in other.phase.seen;
      }
    }
  }

  lemma LostSurvives(s: State, s': State, q: ProcessId, other: Saver, c: Commit)
    requires LostOk(s, q, other) && s'.log == s.log + [c]
    ensures LostOk(s', q, other)
  {
    forall k | 0 <= k < |other.lost|
      ensures Contended(s'.log, other.lost[k].0, other.lost[k].1, q, other.user)
    {
      ContentionLasts(s.log, [c], other.lost[k].0, other.lost[k].1, q, other.user);
    }
  }

  lemma SelfAfterCommit(s: State, p: ProcessId, r: RowId, content: string)
    requires Inv(s) && Enabled(s, TryCommit(p, r, content))
    ensures var s' := Next(s, TryCommit(p, r, content));
            PendingOk(s', p, s'.savers[p]) && LostOk(s', p, s'.savers[p])
  {
    CommitFailsIffContended(s, p, r, content);
    var s' := Next(s, TryCommit(p, r, content));
    assert LostOk(s, p, s.savers[p]) && PendingOk(s, p, s.savers[p]);
    if s'.log != s.log {
      LostSurvives(s, s', p, s.savers[p], Commit(p, s.savers[p].user));
    }
  }

  lemma CommitKeepsLog(s: State, p: ProcessId, r: RowId, content: string)
    requires Inv(s) && Enabled(s, TryCommit(p, r, content))
    ensures LogOk(Next(s, TryCommit(p, r, content)))
  {
  }

  lemma CommitKeepsInv(s: State, p: ProcessId, r: RowId, content: string)
    requires Inv(s) && Enabled(s, TryCommit(p, r, content))
    ensures Inv(Next(s, TryCommit(p, r, content)))
  {
    var s' := Next(s, TryCommit(p, r, content));
    CommitFailsIffContended(s, p, r, content);
    CommitKeepsLog(s, p, r, content);
    forall q | q in s'.savers
      ensures PendingOk(s', q, s'.savers[q]) && LostOk(s', q, s'.savers[q])
    {
      if q == p {
        SelfAfterCommit(s, p, r, content);
      } else {
        OthersAfterCommit(s, p, r, content, q);
      }
    }
  }

  lemma StartKeepsInv(s: State, p: ProcessId, user: UserId)
    requires Inv(s) && Enabled(s, Start(p, user))
    ensures Inv(Next(s, Start(p, user)))
  {
  }

  /** A fresh attempt has seen every active row of its user. */
  lemma DeactivateKeepsInv(s: State, p: ProcessId)
    requires Inv(s) && Enabled(s, Deactivate(p))
    ensures Inv(Next(s, Deactivate(p)))
  {
    assert LostOk(s, p, s.savers[p]);
  }

  lemma StepKeepsInv(s: State, a: Action)
    requires Inv(s) && Enabled(s, a)
    ensures Inv(Next(s, a))
  {
    match a {
      case Start(p, user) => StartKeepsInv(s, p, user);
      case Deactivate(p) => DeactivateKeepsInv(s, p);
      case TryCommit(p, r, content) => CommitKeepsInv(s, p, r, content);
    }
  }

  lemma {:induction false} RunKeepsInv(s: State, run: seq<Action>)
    requires Inv(s) && Possible(s, run)
    ensures Inv(After(s, run))
    decreases |run|
  {
    if run != [] {
      StepKeepsInv(s, run[0]);
      RunKeepsInv(Next(s, run[0]), run[1..]);
    }
  }

  // ---------- main results ----------

  /**
    However many savers interleave, starting from any admitted table: no user ever has two active
    rows, and a save that raises has been overtaken in both of its attempts, by two different savers
    of the same user that have both returned.
  */
  lemma SavesAreSafe(rows: Table, run: seq<Action>)
    requires OneActiveEach(rows) && Possible(State(rows, map[], []), run)
    ensures var s := After(State(rows, map[], []), run);
            && OneActiveEach(s.rows)
            && forall p | p in s.savers && s.savers[p].phase.Raised? ::
                 exists q1, q2 | q1 in s.savers && q2 in s.savers ::
                   && q1 != q2 && q1 != p && q2 != p
                   && s.savers[q1].user == s.savers[q2].user == s.savers[p].user
                   && s.savers[q1].phase.Returned? && s.savers[q2].phase.Returned?
  {
    RunKeepsInv(State(rows, map[], []), run);
    var s := After(State(rows, map[], []), run);
    forall p | p in s.savers && s.savers[p].phase.Raised?
      ensures exists q1, q2 | q1 in s.savers && q2 in s.savers ::
                   && q1 != q2 && q1 != p && q2 != p
                   && s.savers[q1].user == s.savers[q2].user == s.savers[p].user
                   && s.savers[q1].phase.Returned? && s.savers[q2].phase.Returned?
    {
      RaisedWasOvertakenTwice(s, p);
    }
  }

  lemma RaisedWasOvertakenTwice(s: State, p: ProcessId)
    requires Inv(s) && p in s.savers && s.savers[p].phase.Raised?
    ensures exists q1, q2 | q1 in s.savers && q2 in s.savers ::
                   && q1 != q2 && q1 != p && q2 != p
                   && s.savers[q1].user == s.savers[q2].user == s.savers[p].user
                   && s.savers[q1].phase.Returned? && s.savers[q2].phase.Returned?
  {
    var saver := s.savers[p];
    assert LostOk(s, p, saver);
    var i :| saver.lost[0].0 <= i < saver.lost[0].1 && s.log[i].user == saver.user && s.log[i].process != p;
    var j :| saver.lost[1].0 <= j < saver.lost[1].1 && s.log[j].user == saver.user && s.log[j].process != p;
    assert i < j;
    var q1, q2 := s.log[i].process, s.log[j].process;
    assert q1 != q2;
  }

  /** In every reachable state a commit is refused exactly when overtaken, and then leaves the table as it was. */
  lemma RefusedIffOvertaken(rows: Table, run: seq<Action>, p: ProcessId, r: RowId, content: string)
    requires OneActiveEach(rows) && Possible(State(rows, map[], []), run)
    requires Enabled(After(State(rows, map[], []), run), TryCommit(p, r, content))
    ensures var s := After(State(rows, map[], []), run);
            var saver, s' := s.savers[p], Next(s, TryCommit(p, r, content));
            saver.phase.mark <= |s.log|
            && if Contended(s.log, saver.phase.mark, |s.log|, p, saver.user)
               then s'.rows == s.rows && !s'.savers[p].phase.Returned?
               else s'.savers[p].phase == Returned(r) && ActiveRows(s'.rows, saver.user) == {r}
  {
    RunKeepsInv(State(rows, map[], []), run);
    var s := After(State(rows, map[], []), run);
    assert PendingOk(s, p, s.savers[p]);
    CommitFailsIffContended(s, p, r, content);
  }

  // ---------- what is stored ----------

  /** No row is ever dropped; its user and content stay, and it may only cease to be active. */
  ghost predicate OnlyDeactivates(before: Table, after: Table) {
    forall r | r in before ::
      r in after && after[r].user == before[r].user && after[r].content == before[r].content && (after[r].active ==> before[r].active)
  }

  lemma {:induction false} RowsKeepTheirContent(s: State, run: seq<Action>)
    requires Possible(s, run)
    ensures OnlyDeactivates(s.rows, After(s, run).rows)
    decreases |run|
  {
    if run != [] {
      RowsKeepTheirContent(Next(s, run[0]), run[1..]);
    }
  }

  /** A saver that has returned does nothing more. */
  lemma {:induction false} ReturnedIsDone(s: State, run: seq<Action>, p: ProcessId)
    requires Possible(s, run) && p in s.savers && s.savers[p].phase.Returned?
    ensures p in After(s, run).savers && After(s, run).savers[p] == s.savers[p]
    ensures forall j | 0 <= j < |run| :: run[j].p != p
    decreases |run|
  {
    if run != [] {
      assert run[0].p != p;
      ReturnedIsDone(Next(s, run[0]), run[1..], p);
      forall j | 0 <= j < |run|
        ensures run[j].p != p
      {
        assert j > 0 ==> run[j] == run[1..][j - 1];
      }
    }
  }

  lemma CommitStores(s: State, a: Action)
    requires Enabled(s, a) && !(a.p in s.savers && s.savers[a.p].phase.Returned?)
    requires a.p in Next(s, a).savers && Next(s, a).savers[a.p].phase.Returned?
    ensures a.TryCommit? && a.r == Next(s, a).savers[a.p].phase.row
    ensures a.r in Next(s, a).rows && Next(s, a).rows[a.r] == Row(Next(s, a).savers[a.p].user, true, a.content)
  {
  }

  lemma OthersStayAsTheyAre(s: State, a: Action, p: ProcessId)
    requires Enabled(s, a) && a.p != p
    ensures (p in Next(s, a).savers <==> p in s.savers) && (p in s.savers ==> Next(s, a).savers[p] == s.savers[p])
  {
  }

  /**
    In every run a saver that has returned has made a commit, its last action, and its row has the
    saver's user and the content of that commit from then on.
  */
  lemma {:induction false} SavedAsGiven(s: State, run: seq<Action>, p: ProcessId) returns (i: nat)
    requires Possible(s, run) && !(p in s.savers && s.savers[p].phase.Returned?)
    requires p in After(s, run).savers && After(s, run).savers[p].phase.Returned?
    ensures i < |run| && run[i].TryCommit? && run[i].p == p && forall j | i < j < |run| :: run[j].p != p
    ensures var s', saver := After(s, run), After(s, run).savers[p];
            && saver.phase.row == run[i].r && run[i].r in s'.rows
            && s'.rows[run[i].r].user == saver.user && s'.rows[run[i].r].content == run[i].content
    decreases |run|
  {
    var s', rest := Next(s, run[0]), run[1..];
    if p in s'.savers && s'.savers[p].phase.Returned? {
      i := 0;
      if run[0].p != p {
        OthersStayAsTheyAre(s, run[0], p);
      } else {
        CommitStores(s, run[0]);
        ReturnedIsDone(s', rest, p);
        RowsKeepTheirContent(s', rest);
        forall j | 0 < j < |run|
          ensures run[j].p != p
        {
          assert run[j] == rest[j - 1];
        }
      }
    } else {
      i := SavedAsGiven(s', rest, p);
      forall j | i + 1 < j < |run|
        ensures run[j].p != p
      {
        assert run[j] == rest[j - 1];
      }
      i := i + 1;
    }
  }

  // ---------- the retry can fail too ----------

  lemma {:induction false} OneMoreAction(s: State, run: seq<Action>, a: Action)
    requires Possible(s, run) && Enabled(After(s, run), a)
    ensures Possible(s, run + [a]) && After(s, run + [a]) == Next(After(s, run), a)
    decreases |run|
  {
    if run == [] {
      assert run + [a] == [a] && [a][1..] == [];
    } else {
      OneMoreAction(Next(s, run[0]), run[1..], a);
      assert (run + [a])[1..] == run[1..] + [a];
    }
  }

  const EMPTY: State := State(map[], map[], [])

  function Three(first: Saver, second: Saver, third: Saver): map<ProcessId, Saver> {
    map[0 := first, 1 := second, 2 := third]
  }

  lemma ThreeStart(user: UserId) returns (run: seq<Action>)
    ensures Possible(EMPTY, run)
    ensures After(EMPTY, run) == State(map[], Three(Saver(user, Ready, []), Saver(user, Ready, []), Saver(user, Ready, [])), [])
  {
    OneMoreAction(EMPTY, [], Start(0, user));
    run := [] + [Start(0, user)];
    OneMoreAction(EMPTY, run, Start(1, user));
    run := run + [Start(1, user)];
    OneMoreAction(EMPTY, run, Start(2, user));
    run := run + [Start(2, user)];
  }

  lemma TwoDeactivate(user: UserId) returns (run: seq<Action>)
    ensures Possible(EMPTY, run)
    ensures After(EMPTY, run)
         == State(map[], Three(Saver(user, Pending({}, 0), []), Saver(user, Pending({}, 0), []), Saver(user, Ready, [])), [])
  {
    run := ThreeStart(user);
    assert ActiveRows(map[], user) == {};
    OneMoreAction(EMPTY, run, Deactivate(0));
    run := run + [Deactivate(0)];
    OneMoreAction(EMPTY, run, Deactivate(1));
    run := run + [Deactivate(1)];
  }

  lemma Wins(s: State, p: ProcessId, r: RowId)
    requires Inv(s) && Enabled(s, TryCommit(p, r, "")) && s.savers[p].phase.mark == |s.log|
    ensures var s', saver := Next(s, TryCommit(p, r, "")), s.savers[p];
            && Inv(s') && s'.savers == s.savers[p := saver.(phase := Returned(r))]
            && s'.log == s.log + [Commit(p, saver.user)] && s'.rows.Keys == s.rows.Keys + {r}
  {
    CommitFailsIffContended(s, p, r, "");
    StepKeepsInv(s, TryCommit(p, r, ""));
  }

  lemma Loses(s: State, p: ProcessId, r: RowId)
    requires Inv(s) && Enabled(s, TryCommit(p, r, "")) && s.savers[p].phase.mark + 1 == |s.log|
    requires s.log[|s.log| - 1].user == s.savers[p].user && s.log[|s.log| - 1].process != p
    ensures var s', lost := Next(s, TryCommit(p, r, "")), s.savers[p].lost + [(s.savers[p].phase.mark, |s.log|)];
            && s'.savers == s.savers[p := Saver(s.savers[p].user, if |lost| == ATTEMPTS then Raised else Ready, lost)]
            && s'.log == s.log && s'.rows == s.rows
  {
    CommitFailsIffContended(s, p, r, "");
  }

  /** `p` overtakes saver 0: `p` commits, and then saver 0 cannot. */
  lemma Overtake(run: seq<Action>, p: ProcessId) returns (longer: seq<Action>)
    requires Possible(EMPTY, run) && p != 0
    requires Enabled(After(EMPTY, run), TryCommit(p, p, "")) && Enabled(After(EMPTY, run), TryCommit(0, 0, ""))
    requires var s := After(EMPTY, run);
             s.savers[p].phase.mark == s.savers[0].phase.mark == |s.log| && s.savers[p].user == s.savers[0].user
    ensures Possible(EMPTY, longer)
    ensures var s, s' := After(EMPTY, run), After(EMPTY, longer);
            var lost := s.savers[0].lost + [(|s.log|, |s.log| + 1)];
            && s'.savers == s.savers[p := s.savers[p].(phase := Returned(p))]
                                    [0 := Saver(s.savers[0].user, if |lost| == ATTEMPTS then Raised else Ready, lost)]
            && s'.log == s.log + [Commit(p, s.savers[p].user)] && s'.rows.Keys == s.rows.Keys + {p}
  {
    RunKeepsInv(EMPTY, run);
    var s := After(EMPTY, run);
    Wins(s, p, p);
    Loses(Next(s, TryCommit(p, p, "")), 0, 0);
    OneMoreAction(EMPTY, run, TryCommit(p, p, ""));
    OneMoreAction(EMPTY, run + [TryCommit(p, p, "")], TryCommit(0, 0, ""));
    longer := run + [TryCommit(p, p, "")] + [TryCommit(0, 0, "")];
  }

  lemma OvertakenOnce(user: UserId) returns (run: seq<Action>)
    ensures Possible(EMPTY, run)
    ensures var s := After(EMPTY, run);
            && s.savers == Three(Saver(user, Ready, [(0, 1)]), Saver(user, Returned(1), []), Saver(user, Ready, []))
            && |s.log| == 1 && s.rows.Keys == {1}
  {
    run := TwoDeactivate(user);
    run := Overtake(run, 1);
    assert [] + [(0, 1)] == [(0, 1)];
  }

  lemma TryAgain(user: UserId) returns (run: seq<Action>)
    ensures Possible(EMPTY, run)
    ensures var s := After(EMPTY, run);
            && 0 in s.savers && 2 in s.savers && s.savers.Keys == {0, 1, 2}
            && s.savers[0].(phase := Ready) == Saver(user, Ready, [(0, 1)]) && s.savers[2].(phase := Ready) == Saver(user, Ready, [])
            && s.savers[0].phase.Pending? && s.savers[0].phase.mark == 1
            && s.savers[2].phase.Pending? && s.savers[2].phase.mark == 1
            && |s.log| == 1 && s.rows.Keys == {1}
  {
    run := OvertakenOnce(user);
    OneMoreAction(EMPTY, run, Deactivate(0));
    run := run + [Deactivate(0)];
    OneMoreAction(EMPTY, run, Deactivate(2));
    run := run + [Deactivate(2)];
  }

  /** Three savers of one user suffice for a save to raise: the retry is not sure to succeed. */
  lemma RetryCanRaise(user: UserId) returns (run: seq<Action>)
    ensures Possible(EMPTY, run)
    ensures var savers := After(EMPTY, run).savers;
            savers.Keys == {0, 1, 2} && savers[0] == Saver(user, Raised, [(0, 1), (1, 2)])
  {
    run := TryAgain(user);
    run := Overtake(run, 2);
    assert [(0, 1)] + [(1, 2)] == [(0, 1), (1, 2)];
  }

  // ---------- the loop of one call ----------

  /** A whole save by someone else. */
  datatype Save = Save(row: RowId, user: UserId, content: string)

  function Saved(rows: Table, save: Save): Table {
    Replacing(rows, ActiveRows(rows, save.user), save.row, save.user, save.content)
  }

  function AllSaved(rows: Table, saves: seq<Save>): Table {
    if saves == [] then rows else Saved(AllSaved(rows, saves[..|saves| - 1]), saves[|saves| - 1])
  }

  predicate Overtaken(saves: seq<Save>, user: UserId) {
    exists save | save in saves :: save.user == user
  }

  /** Every save brings a row of its own. */
  predicate NewRows(rows: Table, saves: seq<Save>) {
    && (forall save | save in saves :: save.row !in rows)
    && (forall i, j | 0 <= i < j < |saves| :: saves[i].row != saves[j].row)
  }

  lemma {:induction false} AllSavedKeys(rows: Table, saves: seq<Save>)
    ensures AllSaved(rows, saves).Keys == rows.Keys + (set save | save in saves :: save.row)
    decreases |saves|
  {
    if saves != [] {
      AllSavedKeys(rows, saves[..|saves| - 1]);
      assert saves == saves[..|saves| - 1] + [saves[|saves| - 1]];
    }
  }

  lemma {:induction false} AfterAllSaved(rows: Table, saves: seq<Save>, user: UserId)
    requires OneActiveEach(rows) && NewRows(rows, saves)
    ensures OneActiveEach(AllSaved(rows, saves))
    ensures if Overtaken(saves, user) then exists r :: r in ActiveRows(AllSaved(rows, saves), user) && r !in rows
            else ActiveRows(AllSaved(rows, saves), user) == ActiveRows(rows, user)
    decreases |saves|
  {
    if saves != [] {
      var before, last := saves[..|saves| - 1], saves[|saves| - 1];
      assert saves == before + [last];
      AfterAllSaved(rows, before, user);
      var rows' := AllSaved(rows, before);
      AllSavedKeys(rows, before);
      CommitIsAdmittedIff(rows', ActiveRows(rows', last.user), last.row, last.user, last.content);
      assert last.user == user ==> last.row in ActiveRows(Saved(rows', last), user);
      assert last in saves;
    }
  }

  /** Saves never change whose row it is. */
  lemma {:induction false} AllSavedKeepsUsers(rows: Table, saves: seq<Save>)
    requires NewRows(rows, saves)
    ensures forall r | r in rows :: r in AllSaved(rows, saves) && AllSaved(rows, saves)[r].user == rows[r].user
    decreases |saves|
  {
    if saves != [] {
      AllSavedKeepsUsers(rows, saves[..|saves| - 1]);
      assert saves[|saves| - 1] in saves;
    }
  }

  lemma LaterRowsAreNew(rows: Table, first: seq<Save>, second: seq<Save>)
    requires NewRows(rows, first + second)
    ensures NewRows(rows, first) && NewRows(AllSaved(rows, first), second)
  {
    var all := first + second;
    assert forall i | 0 <= i < |first| :: all[i] == first[i];
    assert forall i | 0 <= i < |second| :: all[|first| + i] == second[i];
    AllSavedKeys(rows, first);
  }

  lemma SavedOnlyDeactivates(rows: Table, save: Save)
    requires save.row !in rows
    ensures OnlyDeactivates(rows, Saved(rows, save)) && Saved(rows, save)[save.row] == Row(save.user, true, save.content)
  {
  }

  lemma DeactivatingAddsUp(a: Table, b: Table, c: Table)
    requires OnlyDeactivates(a, b) && OnlyDeactivates(b, c)
    ensures OnlyDeactivates(a, c)
  {
  }

  /** Whole saves drop no row and change no content. */
  lemma {:induction false} AllSavedOnlyDeactivates(rows: Table, saves: seq<Save>)
    requires NewRows(rows, saves)
    ensures OnlyDeactivates(rows, AllSaved(rows, saves))
    decreases |saves|
  {
    if saves != [] {
      var before, last := saves[..|saves| - 1], saves[|saves| - 1];
      assert saves == before + [last];
      LaterRowsAreNew(rows, before, [last]);
      AllSavedOnlyDeactivates(rows, before);
      assert last in [last];
      SavedOnlyDeactivates(AllSaved(rows, before), last);
      DeactivatingAddsUp(rows, AllSaved(rows, before), AllSaved(rows, saves));
    }
  }

  /** One attempt: the commit is admitted unless the attempt is overtaken. */
  lemma AttemptSucceedsIff(rows: Table, saves: seq<Save>, r: RowId, user: UserId, content: string)
    requires OneActiveEach(rows) && NewRows(rows, saves) && r !in rows && forall save | save in saves :: save.row != r
    ensures var rows' := AllSaved(rows, saves);
            var candidate := Replacing(rows', ActiveRows(rows, user), r, user, content);
            && r !in rows' && OneActiveEach(rows')
            && (OneActiveEach(candidate) <==> !Overtaken(saves, user))
            && (!Overtaken(saves, user) ==> candidate == Saved(rows', Save(r, user, content)) && ActiveRows(candidate, user) == {r})
  {
    AfterAllSaved(rows, saves, user);
    AllSavedKeys(rows, saves);
    AllSavedKeepsUsers(rows, saves);
    CommitIsAdmittedIff(AllSaved(rows, saves), ActiveRows(rows, user), r, user, content);
  }

  /** The table after a call: that of the others' saves, with the new row on top unless both attempts are overtaken. */
  function Outcome(rows: Table, user: UserId, content: string, ids: seq<RowId>, others: seq<seq<Save>>): Table
    requires |ids| == |others| == ATTEMPTS
  {
    var once := AllSaved(rows, others[0]);
    if !Overtaken(others[0], user) then Saved(once, Save(ids[0], user, content))
    else if !Overtaken(others[1], user) then Saved(AllSaved(once, others[1]), Save(ids[1], user, content))
    else AllSaved(once, others[1])
  }

  /** The row put on top is stored as it was built, and all others keep their user and content. */
  lemma OutcomeStores(rows: Table, user: UserId, content: string, ids: seq<RowId>, others: seq<seq<Save>>)
    requires |ids| == |others| == ATTEMPTS && NewRows(rows, others[0] + others[1])
    requires forall k | 0 <= k < ATTEMPTS :: ids[k] !in rows && forall save | save in others[0] + others[1] :: save.row != ids[k]
    ensures var rows' := Outcome(rows, user, content, ids, others);
            && OnlyDeactivates(rows, rows')
            && (!Overtaken(others[0], user) ==> ids[0] in rows' && rows'[ids[0]] == Row(user, true, content))
            && (Overtaken(others[0], user) && !Overtaken(others[1], user) ==>
                  ids[1] in rows' && rows'[ids[1]] == Row(user, true, content))
  {
    var once := AllSaved(rows, others[0]);
    var twice := AllSaved(once, others[1]);
    LaterRowsAreNew(rows, others[0], others[1]);
    AllSavedKeys(rows, others[0]);
    AllSavedKeys(once, others[1]);
    AllSavedOnlyDeactivates(rows, others[0]);
    AllSavedOnlyDeactivates(once, others[1]);
    DeactivatingAddsUp(rows, once, twice);
    assert ids[0] !in once && ids[1] !in twice;
    SavedOnlyDeactivates(once, Save(ids[0], user, content));
    SavedOnlyDeactivates(twice, Save(ids[1], user, content));
    DeactivatingAddsUp(rows, once, Saved(once, Save(ids[0], user, content)));
    DeactivatingAddsUp(rows, twice, Saved(twice, Save(ids[1], user, content)));
  }

  class ActiveTable {
    var rows: Table

    /**
      `others[k]` are the saves that other callers complete between deactivation and commit of the
      k-th attempt, `ids` the keys of the rows built.
    */
    method SaveAsActive(user: UserId, content: string, ids: seq<RowId>, others: seq<seq<Save>>) returns (saved: Option<RowId>)
      requires OneActiveEach(rows)
      requires |ids| == |others| == ATTEMPTS
      requires NewRows(rows, others[0] + others[1])
      requires forall k | 0 <= k < ATTEMPTS :: ids[k] !in rows && forall save | save in others[0] + others[1] :: save.row != ids[k]
      modifies this
      ensures OneActiveEach(rows)
      ensures saved.None? <==> Overtaken(others[0], user) && Overtaken(others[1], user)
      ensures saved.Some? ==> ActiveRows(rows, user) == {saved.value}
      ensures saved.Some? ==> saved.value in ids && saved.value in rows && rows[saved.value] == Row(user, true, content)
      ensures OnlyDeactivates(old(rows), rows)
      ensures rows == Outcome(old(rows), user, content, ids, others)
    {
      OutcomeStores(rows, user, content, ids, others);
      LaterRowsAreNew(rows, others[0], others[1]);
      AllSavedKeys(rows, others[0]);
      var attempt := 0;
      saved := None;
      while attempt < ATTEMPTS
        invariant attempt <= ATTEMPTS && saved.None? && OneActiveEach(rows)
        invariant attempt >= 1 ==> Overtaken(others[0], user)
        invariant attempt == 2 ==> Overtaken(others[1], user)
        invariant rows == if attempt == 0 then old(rows)
                          else if attempt == 1 then AllSaved(old(rows), others[0])
                          else AllSaved(AllSaved(old(rows), others[0]), others[1])
      {
        var seen := ActiveRows(rows, user);
        AttemptSucceedsIff(rows, others[attempt], ids[attempt], user, content);
        rows := AllSaved(rows, others[attempt]);
        var candidate := Replacing(rows, seen, ids[attempt], user, content);
        if OneActiveEach(candidate) {
          rows := candidate;
          return Some(ids[attempt]);
        }
        attempt := attempt + 1;
      }
    }
  }
}
