/**
  Counters that expire a fixed time after their last increment, and the two guards built on them:
  request rate limits and behaviour alerts.
*/
module Counters {
  import opened Wrappers

  datatype Counter = Counter(value: nat, expires: int)

  type Store = map<string, Counter>

  /** INCR then EXPIRE: a counter that is gone or has expired starts over at 1. */
  function Increment(store: Store, key: string, ttl: int, now: int): (Store, nat) {
    var count := if key in store && now < store[key].expires then store[key].value + 1 else 1;
    (store[key := Counter(count, now + ttl)], count)
  }

  class RedisCounters {
    var store: Store

    method IncrementCounter(key: string, ttl: int, now: int) returns (count: nat)
      modifies this
      ensures (store, count) == Increment(old(store), key, ttl, now)
    {
      count := 1;
      if key in store && now < store[key].expires {
        count := store[key].value + 1;
      }
      store := store[key := Counter(count, now + ttl)];
    }

    method ResetCounter(key: string)
      modifies this
      ensures store == old(store) - {key}
    {
      store := store - {key};
    }
  }

  // ---------- what a counter counts ----------

  datatype Op = Hit(time: int) | Reset(time: int)

  datatype Event = Event(key: string, op: Op)

  /** Each key is always incremented with the same time to live. */
  type Ttl = string -> int

  function Perform(store: Store, e: Event, ttl: Ttl): Store {
    if e.op.Hit? then Increment(store, e.key, ttl(e.key), e.op.time).0 else store - {e.key}
  }

  function StoreAfter(events: seq<Event>, ttl: Ttl): Store {
    if events == [] then map[] else Perform(StoreAfter(events[..|events| - 1], ttl), events[|events| - 1], ttl)
  }

  /** The operations on one key, in order. */
  function OpsOn(events: seq<Event>, key: string): seq<Op> {
    if events == [] then []
    else
      var last := events[|events| - 1];
      OpsOn(events[..|events| - 1], key) + if last.key == key then [last.op] else []
  }

  /** The last `n` operations are increments, each less than `ttl` after the one before. */
  ghost predicate IsRun(ops: seq<Op>, ttl: int, n: nat) {
    && n <= |ops|
    && (forall i | |ops| - n <= i < |ops| :: ops[i].Hit?)
    && (forall h, i | |ops| - n <= h && h + 1 == i < |ops| :: ops[i].time - ops[h].time < ttl)
  }

  /** There is exactly one longest run. */
  ghost predicate IsLongestRun(ops: seq<Op>, ttl: int, n: nat) {
    IsRun(ops, ttl, n) && !IsRun(ops, ttl, n + 1)
  }

  lemma {:induction false} ShorterRuns(ops: seq<Op>, ttl: int, n: nat, m: nat)
    requires IsRun(ops, ttl, n) && m <= n
    ensures IsRun(ops, ttl, m)
  {
  }

  lemma OneMoreHit(ops: seq<Op>, ttl: int, hit: Op, n: nat)
    requires hit.Hit? && IsRun(ops, ttl, n) && (n > 0 ==> hit.time - ops[|ops| - 1].time < ttl)
    ensures IsRun(ops + [hit], ttl, n + 1)
  {
  }

  lemma OneLessHit(ops: seq<Op>, ttl: int, hit: Op, n: nat)
    requires IsRun(ops + [hit], ttl, n + 1)
    ensures IsRun(ops, ttl, n) && (n > 0 ==> hit.time - ops[|ops| - 1].time < ttl)
  {
    var all := ops + [hit];
    assert all[..|ops|] == ops && all[|ops|] == hit;
    forall i | |ops| - n <= i < |ops|
      ensures ops[i].Hit?
    {
      assert all[i] == ops[i];
    }
    forall h, i | |ops| - n <= h && h + 1 == i < |ops|
      ensures ops[i].time - ops[h].time < ttl
    {
      assert all[i] == ops[i] && all[h] == ops[h];
    }
    if n > 0 {
      assert all[|ops| - 1] == ops[|ops| - 1];
    }
  }

  /**
    Whatever happens to other keys, a counter holds the length of the longest run of increments that
    ends with the last operation on its key, and lives for a further `ttl`.
  */
  lemma {:induction false} CounterIsLongestRun(events: seq<Event>, ttl: Ttl, key: string)
    ensures var ops, store := OpsOn(events, key), StoreAfter(events, ttl);
            if ops == [] || ops[|ops| - 1].Reset? then key !in store
            else key in store && IsLongestRun(ops, ttl(key), store[key].value)
                 && store[key].expires == ops[|ops| - 1].time + ttl(key)
    decreases |events|
  {
    if events != [] {
      var before, last := events[..|events| - 1], events[|events| - 1];
      CounterIsLongestRun(before, ttl, key);
      var ops, store := OpsOn(before, key), StoreAfter(before, ttl);
      if last.key != key {
        assert OpsOn(events, key) == ops;
      } else if last.op.Hit? {
        NextCount(ops, ttl(key), last.op, if key in store then Some(store[key]) else None);
      }
    }
  }

  lemma NextCount(ops: seq<Op>, ttl: int, hit: Op, c: Option<Counter>)
    requires hit.Hit?
    requires if ops == [] || ops[|ops| - 1].Reset? then c.None?
             else c.Some? && IsLongestRun(ops, ttl, c.value.value) && c.value.expires == ops[|ops| - 1].time + ttl
    ensures IsLongestRun(ops + [hit], ttl, if c.Some? && hit.time < c.value.expires then c.value.value + 1 else 1)
  {
    if c.Some? && hit.time < c.value.expires {
      HitExtendsRun(ops, ttl, hit, c.value.value);
    } else {
      HitStartsRun(ops, ttl, hit);
    }
  }

  lemma HitExtendsRun(ops: seq<Op>, ttl: int, hit: Op, n: nat)
    requires hit.Hit? && IsLongestRun(ops, ttl, n) && ops != [] && hit.time - ops[|ops| - 1].time < ttl
    ensures IsLongestRun(ops + [hit], ttl, n + 1)
  {
    OneMoreHit(ops, ttl, hit, n);
    if IsRun(ops + [hit], ttl, n + 2) {
      OneLessHit(ops, ttl, hit, n + 1);
    }
  }

  lemma HitStartsRun(ops: seq<Op>, ttl: int, hit: Op)
    requires hit.Hit? && (ops == [] || ops[|ops| - 1].Reset? || hit.time - ops[|ops| - 1].time >= ttl)
    ensures IsLongestRun(ops + [hit], ttl, 1)
  {
    OneMoreHit(ops, ttl, hit, 0);
    if IsRun(ops + [hit], ttl, 2) {
      OneLessHit(ops, ttl, hit, 1);
    }
  }

  /** The value returned by an increment reaches a level exactly when a run of that length ends with it. */
  lemma IncrementReachesIff(events: seq<Event>, ttl: Ttl, key: string, now: int, level: nat)
    ensures Increment(StoreAfter(events, ttl), key, ttl(key), now).1 >= level
            <==> IsRun(OpsOn(events, key) + [Hit(now)], ttl(key), level)
  {
    var all := events + [Event(key, Hit(now))];
    assert all[..|events|] == events;
    CounterIsLongestRun(all, ttl, key);
    var ops, n := OpsOn(all, key), StoreAfter(all, ttl)[key].value;
    if level <= n {
      ShorterRuns(ops, ttl(key), n, level);
    } else if IsRun(ops, ttl(key), level) {
      ShorterRuns(ops, ttl(key), level, n + 1);
    }
  }

  // ---------- rate limits ----------

  datatype Verdict = Admitted | Refused

  function RateKey(action: string, ip: string): string {
    "rate-limit:" + action + ":" + ip
  }

  /** A limiter's decision; with Redis down every request is let through uncounted. */
  method EnforceRateLimit(counters: RedisCounters, action: string, ip: string, maxAttempts: nat, window: int, now: int, up: bool)
    returns (verdict: Verdict)
    modifies counters
    ensures if up then
              var (store', attempts) := Increment(old(counters.store), RateKey(action, ip), window, now);
              counters.store == store' && (verdict.Refused? <==> attempts > maxAttempts)
            else counters.store == old(counters.store) && verdict.Admitted?
  {
    if !up {
      return Admitted;
    }
    var attempts := counters.IncrementCounter(RateKey(action, ip), window, now);
    verdict := if attempts > maxAttempts then Refused else Admitted;
  }

  lemma ColonWithin(a: string, b: string, longer: string, b': string)
    requires a + ":" + b == longer + ":" + b' && |a| < |longer|
    ensures ':' in longer
  {
    assert (a + ":" + b)[|a|] == ':' && (longer + ":" + b')[|a|] == longer[|a|];
  }

  /** No two actions or clients share a counter. */
  lemma RateKeysDiffer(a: string, ip: string, a': string, ip': string)
    requires ':' !in a && ':' !in a' && RateKey(a, ip) == RateKey(a', ip')
    ensures a == a' && ip == ip'
  {
    var rest, rest' := a + ":" + ip, a' + ":" + ip';
    assert RateKey(a, ip)[11..] == rest && RateKey(a', ip')[11..] == rest';
    if |a| < |a'| {
      ColonWithin(a, ip, a', ip');
    } else if |a'| < |a| {
      ColonWithin(a', ip', a, ip);
    } else {
      assert rest[..|a|] == a && rest'[..|a'|] == a' && rest[|a| + 1..] == ip && rest'[|a'| + 1..] == ip';
    }
  }

  /** Whether the request at position `k` of a key's operations is refused. */
  ghost predicate RefusedAt(ops: seq<Op>, ttl: int, maxAttempts: nat, k: nat)
    requires k < |ops|
  {
    IsRun(ops[..k + 1], ttl, maxAttempts + 1)
  }

  /**
    A request is refused exactly when it and the `maxAttempts` operations on its key before it are
    requests that follow each other within less than the window.
  */
  lemma RefusedIff(events: seq<Event>, ttl: Ttl, key: string, now: int, maxAttempts: nat)
    ensures var ops := OpsOn(events, key) + [Hit(now)];
            Increment(StoreAfter(events, ttl), key, ttl(key), now).1 > maxAttempts
            <==> RefusedAt(ops, ttl(key), maxAttempts, |ops| - 1)
  {
    var ops := OpsOn(events, key) + [Hit(now)];
    assert ops[..|ops|] == ops;
    IncrementReachesIff(events, ttl, key, now, maxAttempts + 1);
  }

  ghost predicate InOrder(ops: seq<Op>) {
    forall h, i | 0 <= h < i < |ops| :: ops[h].time <= ops[i].time
  }

  /** The requests from `from` on that are let through. */
  ghost function AdmittedFrom(ops: seq<Op>, ttl: int, maxAttempts: nat, from: nat, to: nat): set<int>
    requires from <= to <= |ops|
  {
    set k | from <= k < to && !RefusedAt(ops, ttl, maxAttempts, k)
  }

  lemma LateInWindowIsRefused(ops: seq<Op>, ttl: int, maxAttempts: nat, from: nat, k: nat)
    requires from + maxAttempts <= k < |ops| && InOrder(ops)
    requires (forall i | from <= i <= k :: ops[i].Hit?) && ops[k].time - ops[from].time < ttl
    ensures RefusedAt(ops, ttl, maxAttempts, k)
  {
    var run := ops[..k + 1];
    forall h, i | |run| - (maxAttempts + 1) <= h && h + 1 == i < |run|
      ensures run[i].time - run[h].time < ttl
    {
      assert ops[from].time <= ops[h].time && ops[i].time <= ops[k].time;
    }
  }

  /** In a stretch without resets that is shorter than the window, at most `maxAttempts` requests are let through. */
  lemma WindowAdmitsAtMostMax(ops: seq<Op>, ttl: int, maxAttempts: nat, from: nat, to: nat)
    requires from < to <= |ops| && InOrder(ops)
    requires (forall k | from <= k < to :: ops[k].Hit?) && ops[to - 1].time - ops[from].time < ttl
    ensures |AdmittedFrom(ops, ttl, maxAttempts, from, to)| <= maxAttempts
  {
    forall k | k in AdmittedFrom(ops, ttl, maxAttempts, from, to)
      ensures k in Span(from, maxAttempts)
    {
      if k >= from + maxAttempts {
        LateInWindowIsRefused(ops, ttl, maxAttempts, from, k);
      }
    }
    NoLarger(AdmittedFrom(ops, ttl, maxAttempts, from, to), from, maxAttempts);
  }

  function Span(from: int, n: nat): (s: set<int>)
    ensures |s| == n && forall k :: k in s <==> from <= k < from + n
  {
    if n == 0 then {} else Span(from, n - 1) + {from + n - 1}
  }

  lemma NoLarger(s: set<int>, from: int, n: nat)
    requires s <= Span(from, n)
    ensures |s| <= n
  {
    assert Span(from, n) == s + (Span(from, n) - s);
  }

  /** A refused client stays refused until it pauses for the window or its counter is reset. */
  lemma {:induction false} StaysRefused(ops: seq<Op>, ttl: int, maxAttempts: nat, from: nat, k: nat)
    requires from <= k < |ops| && RefusedAt(ops, ttl, maxAttempts, from)
    requires forall i | from < i <= k :: ops[i].Hit?
    requires forall h, i | from <= h && h + 1 == i <= k :: ops[i].time - ops[h].time < ttl
    ensures RefusedAt(ops, ttl, maxAttempts, k)
    decreases k
  {
    if k > from {
      StaysRefused(ops, ttl, maxAttempts, from, k - 1);
      var run := ops[..k];
      assert ops[..k + 1] == run + [ops[k]] && run[|run| - 1] == ops[k - 1];
      OneMoreHit(run, ttl, ops[k], maxAttempts + 1);
      ShorterRuns(ops[..k + 1], ttl, maxAttempts + 2, maxAttempts + 1);
    }
  }

  lemma RefusalNeedsARun(ops: seq<Op>, ttl: int, maxAttempts: nat, k: nat)
    requires 0 < k < |ops| && maxAttempts > 0 && RefusedAt(ops, ttl, maxAttempts, k)
    ensures ops[k - 1].Hit? && ops[k].time - ops[k - 1].time < ttl
  {
    assert ops[..k + 1] == ops[..k] + [ops[k]] && ops[..k][|ops[..k]| - 1] == ops[k - 1];
    OneLessHit(ops[..k], ttl, ops[k], maxAttempts);
  }

  /** After such a pause or a reset the next request is let through, whenever any is. */
  lemma PauseOrResetReopens(ops: seq<Op>, ttl: int, maxAttempts: nat, k: nat)
    requires 0 < k < |ops| && maxAttempts > 0 && (ops[k - 1].Reset? || ops[k].time - ops[k - 1].time >= ttl)
    ensures !RefusedAt(ops, ttl, maxAttempts, k)
  {
    if RefusedAt(ops, ttl, maxAttempts, k) {
      RefusalNeedsARun(ops, ttl, maxAttempts, k);
    }
  }

  // ---------- alerts ----------

  const EYE_CONTACT_THRESHOLD: nat := 10
  const POSTURE_THRESHOLD: nat := 15
  const ALERT_TTL: int := 60

  datatype Frame = Frame(session: string, looking: bool, slouching: bool, time: int)

  datatype Alert = EyeContactLost | BadPosture

  function EyeKey(session: string): string {
    "session:" + session + ":eye_lost_count"
  }

  function SlouchKey(session: string): string {
    "session:" + session + ":slouch_count"
  }

  /** One of the two checks of a frame: the new store and whether the alert fires. */
  function CheckSign(store: Store, key: string, bad: bool, threshold: nat, now: int): (Store, bool) {
    if bad then
      var (store', count) := Increment(store, key, ALERT_TTL, now);
      (store', count >= threshold)
    else (store - {key}, false)
  }

  function Process(store: Store, f: Frame): (Store, bool, bool) {
    var (store', eye) := CheckSign(store, EyeKey(f.session), !f.looking, EYE_CONTACT_THRESHOLD, f.time);
    var (store'', slouch) := CheckSign(store', SlouchKey(f.session), f.slouching, POSTURE_THRESHOLD, f.time);
    (store'', eye, slouch)
  }

  method ProcessMetadata(counters: RedisCounters, f: Frame) returns (alerts: seq<Alert>)
    modifies counters
    ensures var (store, eye, slouch) := Process(old(counters.store), f);
            counters.store == store
            && alerts == (if eye then [EyeContactLost] else []) + (if slouch then [BadPosture] else [])
  {
    alerts := [];
    if !f.looking {
      var count := counters.IncrementCounter(EyeKey(f.session), ALERT_TTL, f.time);
      if count >= EYE_CONTACT_THRESHOLD {
        alerts := alerts + [EyeContactLost];
      }
    } else {
      counters.ResetCounter(EyeKey(f.session));
    }
    if f.slouching {
      var count := counters.IncrementCounter(SlouchKey(f.session), ALERT_TTL, f.time);
      if count >= POSTURE_THRESHOLD {
        alerts := alerts + [BadPosture];
      }
    } else {
      counters.ResetCounter(SlouchKey(f.session));
    }
  }

  function StoreAfterFrames(frames: seq<Frame>): Store {
    if frames == [] then map[] else Process(StoreAfterFrames(frames[..|frames| - 1]), frames[|frames| - 1]).0
  }

  function FramesOf(frames: seq<Frame>, session: string): seq<Frame> {
    if frames == [] then []
    else
      var last := frames[|frames| - 1];
      FramesOf(frames[..|frames| - 1], session) + if last.session == session then [last] else []
  }

  function SignOp(bad: bool, time: int): Op {
    if bad then Hit(time) else Reset(time)
  }

  /** What a frame does to the counters. */
  function EventsOf(frames: seq<Frame>): seq<Event> {
    if frames == [] then []
    else
      var f := frames[|frames| - 1];
      EventsOf(frames[..|frames| - 1])
      + [Event(EyeKey(f.session), SignOp(!f.looking, f.time))] + [Event(SlouchKey(f.session), SignOp(f.slouching, f.time))]
  }

  function EyeOps(frames: seq<Frame>): seq<Op> {
    seq(|frames|, i requires 0 <= i < |frames| => SignOp(!frames[i].looking, frames[i].time))
  }

  function SlouchOps(frames: seq<Frame>): seq<Op> {
    seq(|frames|, i requires 0 <= i < |frames| => SignOp(frames[i].slouching, frames[i].time))
  }

  lemma KeysDiffer(s: string, t: string)
    ensures EyeKey(s) != SlouchKey(t)
    ensures (EyeKey(s) == EyeKey(t) <==> s == t) && (SlouchKey(s) == SlouchKey(t) <==> s == t)
  {
    var a, b := EyeKey(s), SlouchKey(t);
    assert a[|a| - 7] == 't' && b[|b| - 7] == 'h';
    assert a[8..|a| - 15] == s && b[8..|b| - 13] == t;
    assert EyeKey(t)[8..|EyeKey(t)| - 15] == t && SlouchKey(s)[8..|SlouchKey(s)| - 13] == s;
  }

  function AlertTtl(): Ttl {
    (key: string) => ALERT_TTL
  }

  lemma {:induction false} FramesAreEvents(frames: seq<Frame>)
    ensures StoreAfterFrames(frames) == StoreAfter(EventsOf(frames), AlertTtl())
    decreases |frames|
  {
    if frames != [] {
      var before, f := frames[..|frames| - 1], frames[|frames| - 1];
      FramesAreEvents(before);
      var first, second := Event(EyeKey(f.session), SignOp(!f.looking, f.time)), Event(SlouchKey(f.session), SignOp(f.slouching, f.time));
      var events := EventsOf(before);
      assert (events + [first])[..|events|] == events;
      assert (events + [first] + [second])[..|events| + 1] == events + [first];
    }
  }

  lemma OpsOnMore(events: seq<Event>, e: Event, key: string)
    ensures OpsOn(events + [e], key) == OpsOn(events, key) + if e.key == key then [e.op] else []
  {
    assert (events + [e])[..|events|] == events;
  }

  lemma SignOpsMore(events: seq<Event>, f: Frame, session: string)
    ensures var all := events + [Event(EyeKey(f.session), SignOp(!f.looking, f.time))]
                              + [Event(SlouchKey(f.session), SignOp(f.slouching, f.time))];
            && OpsOn(all, EyeKey(session))
               == OpsOn(events, EyeKey(session)) + (if f.session == session then [SignOp(!f.looking, f.time)] else [])
            && OpsOn(all, SlouchKey(session))
               == OpsOn(events, SlouchKey(session)) + (if f.session == session then [SignOp(f.slouching, f.time)] else [])
  {
    var first, second := Event(EyeKey(f.session), SignOp(!f.looking, f.time)), Event(SlouchKey(f.session), SignOp(f.slouching, f.time));
    KeysDiffer(session, f.session);
    KeysDiffer(f.session, session);
    OpsOnMore(events, first, EyeKey(session));
    OpsOnMore(events, first, SlouchKey(session));
    OpsOnMore(events + [first], second, EyeKey(session));
    OpsOnMore(events + [first], second, SlouchKey(session));
  }

  lemma OneMoreFrame(own: seq<Frame>, f: Frame)
    ensures EyeOps(own + [f]) == EyeOps(own) + [SignOp(!f.looking, f.time)]
    ensures SlouchOps(own + [f]) == SlouchOps(own) + [SignOp(f.slouching, f.time)]
  {
  }

  lemma {:induction false} SignOps(frames: seq<Frame>, session: string)
    ensures OpsOn(EventsOf(frames), EyeKey(session)) == EyeOps(FramesOf(frames, session))
    ensures OpsOn(EventsOf(frames), SlouchKey(session)) == SlouchOps(FramesOf(frames, session))
    decreases |frames|
  {
    if frames != [] {
      var before, f := frames[..|frames| - 1], frames[|frames| - 1];
      SignOps(before, session);
      SignOpsMore(EventsOf(before), f, session);
      var own := FramesOf(before, session);
      if f.session == session {
        OneMoreFrame(own, f);
      } else {
        assert FramesOf(frames, session) == own;
      }
    }
  }

  /** The last `n` frames are all bad, each less than a minute after the one before. */
  ghost predicate BadRun(ops: seq<Op>, n: nat) {
    IsRun(ops, 60, n)
  }

  /**
    With the frames of many sessions interleaved, a frame raises the eye contact alert exactly when it
    and the nine frames of its session before it all look away, and the posture alert exactly when it
    and the fourteen before it all slouch; a gap of a minute breaks a run.
  */
  lemma AlertsFireIff(frames: seq<Frame>, f: Frame)
    ensures var (_, eye, slouch) := Process(StoreAfterFrames(frames), f);
            var own := FramesOf(frames, f.session) + [f];
            && (eye <==> BadRun(EyeOps(own), 10))
            && (slouch <==> BadRun(SlouchOps(own), 15))
  {
    var own, events := FramesOf(frames, f.session), EventsOf(frames);
    FramesAreEvents(frames);
    SignOps(frames, f.session);
    OneMoreFrame(own, f);
    if !f.looking {
      IncrementReachesIff(events, AlertTtl(), EyeKey(f.session), f.time, EYE_CONTACT_THRESHOLD);
    } else {
      assert EyeOps(own + [f])[|own|].Reset?;
    }
    if f.slouching {
      KeysDiffer(f.session, f.session);
      IncrementReachesIff(events, AlertTtl(), SlouchKey(f.session), f.time, POSTURE_THRESHOLD);
    } else {
      assert SlouchOps(own + [f])[|own|].Reset?;
    }
  }
}
