/** Preparing an interview: two agents, or what they once answered to the same text. */
module Preparation {
  import opened Wrappers
  import opened PrepCache

  /** What the agents are given. */
  datatype Request = Request(inputs: Inputs, fullName: string)

  datatype Entry = Entry(payload: string, expires: int)

  type Cache = map<string, Entry>

  datatype Prepared = Prepared(payload: string, fromCache: bool)

  /** How characters are read and texts hashed. */
  datatype Tools = Tools(space: char -> bool, hash: string -> string)

  ghost predicate Injective(hash: string -> string) {
    forall s, t :: hash(s) == hash(t) ==> s == t
  }

  function Fingerprint(tools: Tools, r: Request): string {
    tools.hash(Raw(tools.space, r.inputs))
  }

  function Lookup(cache: Cache, key: string): Option<Entry> {
    if key in cache then Some(cache[key]) else None
  }

  /** What a call finds in the cache. */
  function Found(tools: Tools, cache: Cache, r: Request, force: bool, now: int): Option<string> {
    match Lookup(cache, Fingerprint(tools, r))
    case Some(e) => if !force && now < e.expires then Some(e.payload) else None
    case None => None
  }

  /** The cache after a call has put the agents' answer there. */
  function Written(tools: Tools, cache: Cache, r: Request, payload: string, now: int): Cache {
    cache[Fingerprint(tools, r) := Entry(payload, now + CACHE_TTL)]
  }

  class PipelineManager {
    var cache: Cache

    method FindCached(tools: Tools, r: Request, force: bool, now: int) returns (found: Option<string>)
      ensures found == Found(tools, cache, r, force, now)
    {
      var key := Fingerprint(tools, r);
      found := None;
      if !force && key in cache && now < cache[key].expires {
        found := Some(cache[key].payload);
      }
    }

    method StoreAnswer(tools: Tools, r: Request, payload: string, now: int)
      modifies this
      ensures cache == Written(tools, old(cache), r, payload, now)
    {
      cache := cache[Fingerprint(tools, r) := Entry(payload, now + CACHE_TTL)];
    }

    /**
      A call that no other one overlaps.  `produced` is what the agents answer, nothing if one of them
      fails; they take from `asked` to `answered`.
    */
    method PrepareInterview(tools: Tools, r: Request, force: bool, asked: int, produced: Option<string>, answered: int)
      returns (result: Option<Prepared>)
      modifies this
      ensures var found := Found(tools, old(cache), r, force, asked);
              if found.Some? then cache == old(cache) && result == Some(Prepared(found.value, true))
              else if produced.None? then cache == old(cache) && result == None
              else cache == Written(tools, old(cache), r, produced.value, answered)
                   && result == Some(Prepared(produced.value, false))
    {
      var cached := FindCached(tools, r, force, asked);
      if cached.Some? {
        return Some(Prepared(cached.value, true));
      }
      if produced.None? {
        return None;
      }
      StoreAnswer(tools, r, produced.value, answered);
      result := Some(Prepared(produced.value, false));
    }
  }

  // ---------- calls that overlap ----------

  type CallId = nat

  /** A call looks into the cache; its agents answer, and it writes the answer; or one of them fails. */
  datatype Event =
    | Ask(p: CallId, request: Request, force: bool, now: int)
    | Answer(p: CallId, payload: string, now: int)
    | Fail(p: CallId)

  /** `waiting` are the calls that found nothing and wait for their agents. */
  datatype State = State(cache: Cache, waiting: map<CallId, Request>)

  /** Calls that wait do not ask again, and only these are answered. */
  function Next(tools: Tools, s: State, e: Event): State {
    match e
    case Ask(p, r, force, now) =>
      if p in s.waiting || Found(tools, s.cache, r, force, now).Some? then s else s.(waiting := s.waiting[p := r])
    case Answer(p, payload, now) =>
      if p in s.waiting then State(Written(tools, s.cache, s.waiting[p], payload, now), s.waiting - {p}) else s
    case Fail(p) => s.(waiting := s.waiting - {p})
  }

  function After(tools: Tools, events: seq<Event>): State {
    if events == [] then State(map[], map[])
    else Next(tools, After(tools, events[..|events| - 1]), events[|events| - 1])
  }

  lemma OneMore(tools: Tools, events: seq<Event>, e: Event)
    ensures After(tools, events + [e]) == Next(tools, After(tools, events), e)
  {
    assert (events + [e])[..|events|] == events;
  }

  function WaitingAt(tools: Tools, events: seq<Event>, k: nat): map<CallId, Request>
    requires k <= |events|
  {
    After(tools, events[..k]).waiting
  }

  predicate SameText(tools: Tools, r: Request, s: Request) {
    Raw(tools.space, r.inputs) == Raw(tools.space, s.inputs)
  }

  /** At event `k` a call that was given `r` writes its answer. */
  predicate Writes(tools: Tools, events: seq<Event>, k: nat, r: Request)
    requires k < |events|
  {
    events[k].Answer? && events[k].p in WaitingAt(tools, events, k) && WaitingAt(tools, events, k)[events[k].p] == r
  }

  /** At event `k` the answer to the text of `r` is written. */
  predicate WritesFor(tools: Tools, events: seq<Event>, k: nat, r: Request)
    requires k < |events|
  {
    events[k].Answer? && events[k].p in WaitingAt(tools, events, k)
    && SameText(tools, WaitingAt(tools, events, k)[events[k].p], r)
  }

  /** Event `k` is the last to write an answer to the text of `r`. */
  ghost predicate LastWrite(tools: Tools, events: seq<Event>, r: Request, k: nat) {
    && k < |events| && WritesFor(tools, events, k, r)
    && forall j: nat | k < j < |events| :: !WritesFor(tools, events, j, r)
  }

  lemma EarlierAsBefore(tools: Tools, events: seq<Event>, e: Event, r: Request, k: nat)
    requires k < |events|
    ensures WritesFor(tools, events + [e], k, r) <==> WritesFor(tools, events, k, r)
  {
    assert (events + [e])[..k] == events[..k];
  }

  lemma LastWriteStays(tools: Tools, events: seq<Event>, e: Event, r: Request, k: nat)
    requires LastWrite(tools, events, r, k) && !WritesFor(tools, events + [e], |events|, r)
    ensures LastWrite(tools, events + [e], r, k)
  {
    EarlierAsBefore(tools, events, e, r, k);
    forall j: nat | k < j < |events| + 1
      ensures !WritesFor(tools, events + [e], j, r)
    {
      if j < |events| {
        EarlierAsBefore(tools, events, e, r, j);
      }
    }
  }

  /** The entry is the answer last written to the text of `r`, good for a day; without one there is none. */
  ghost predicate IsLastAnswer(tools: Tools, events: seq<Event>, r: Request, entry: Option<Entry>) {
    match entry
    case Some(e) =>
      exists k: nat :: LastWrite(tools, events, r, k) && events[k].payload == e.payload && e.expires == events[k].now + CACHE_TTL
    case None => forall k: nat | k < |events| :: !WritesFor(tools, events, k, r)
  }

  ghost predicate HoldsLastAnswer(tools: Tools, events: seq<Event>, r: Request) {
    IsLastAnswer(tools, events, r, Lookup(After(tools, events).cache, Fingerprint(tools, r)))
  }

  /** However calls overlap, the cache holds for each text the answer last written to it, and nothing else. */
  lemma {:induction false} CacheHoldsLastAnswer(tools: Tools, events: seq<Event>, r: Request)
    requires Injective(tools.hash)
    ensures HoldsLastAnswer(tools, events, r)
    decreases |events|
  {
    if events != [] {
      var before, e := events[..|events| - 1], events[|events| - 1];
      assert events == before + [e];
      CacheHoldsLastAnswer(tools, before, r);
      AnotherEvent(tools, before, e, r);
    }
  }

  /** Only an answer to the same text changes an entry. */
  lemma EntryAfter(tools: Tools, events: seq<Event>, e: Event, r: Request)
    requires Injective(tools.hash)
    ensures var key := Fingerprint(tools, r);
            var before, after := Lookup(After(tools, events).cache, key), Lookup(After(tools, events + [e]).cache, key);
            if WritesFor(tools, events + [e], |events|, r)
            then e.Answer? && after == Some(Entry(e.payload, e.now + CACHE_TTL))
            else after == before
  {
    OneMore(tools, events, e);
    LastEvent(tools, events, e, r);
    NextWrites(tools, After(tools, events), e, r);
  }

  lemma NextWrites(tools: Tools, s: State, e: Event, r: Request)
    requires Injective(tools.hash)
    ensures var key := Fingerprint(tools, r);
            Lookup(Next(tools, s, e).cache, key)
            == if e.Answer? && e.p in s.waiting && SameText(tools, s.waiting[e.p], r)
               then Some(Entry(e.payload, e.now + CACHE_TTL)) else Lookup(s.cache, key)
  {
    if e.Answer? && e.p in s.waiting {
      SameKeyIff(tools, s.waiting[e.p], r);
    }
  }

  lemma LastEvent(tools: Tools, events: seq<Event>, e: Event, r: Request)
    ensures WritesFor(tools, events + [e], |events|, r)
            <==> e.Answer? && e.p in After(tools, events).waiting && SameText(tools, After(tools, events).waiting[e.p], r)
  {
    assert (events + [e])[..|events|] == events;
  }

  lemma SameKeyIff(tools: Tools, r: Request, s: Request)
    requires Injective(tools.hash)
    ensures SameText(tools, r, s) <==> Fingerprint(tools, r) == Fingerprint(tools, s)
  {
  }

  lemma AnotherEvent(tools: Tools, events: seq<Event>, e: Event, r: Request)
    requires Injective(tools.hash) && HoldsLastAnswer(tools, events, r)
    ensures HoldsLastAnswer(tools, events + [e], r)
  {
    EntryAfter(tools, events, e, r);
    if WritesFor(tools, events + [e], |events|, r) {
      assert LastWrite(tools, events + [e], r, |events|);
    } else {
      NothingNew(tools, events, e, r, Lookup(After(tools, events).cache, Fingerprint(tools, r)));
    }
  }

  lemma NothingNew(tools: Tools, events: seq<Event>, e: Event, r: Request, entry: Option<Entry>)
    requires IsLastAnswer(tools, events, r, entry) && !WritesFor(tools, events + [e], |events|, r)
    ensures IsLastAnswer(tools, events + [e], r, entry)
  {
    var all := events + [e];
    if entry.Some? {
      var k: nat :| LastWrite(tools, events, r, k) && events[k].payload == entry.value.payload
                    && entry.value.expires == events[k].now + CACHE_TTL;
      LastWriteStays(tools, events, e, r, k);
      assert all[k] == events[k];
    } else {
      forall k: nat | k < |all|
        ensures !WritesFor(tools, all, k, r)
      {
        if k < |events| {
          EarlierAsBefore(tools, events, e, r, k);
        }
      }
    }
  }

  lemma LastWriteIsUnique(tools: Tools, events: seq<Event>, r: Request, j: nat, k: nat)
    requires LastWrite(tools, events, r, j) && LastWrite(tools, events, r, k)
    ensures j == k
  {
  }

  /** Call `p` asked at event `j`, was given `r`, and has been neither answered nor failed since. */
  ghost predicate AskedSince(events: seq<Event>, p: CallId, r: Request, j: nat) {
    && j < |events| && events[j].Ask? && events[j].p == p && events[j].request == r
    && forall i | j < i < |events| && events[i].p == p :: events[i].Ask?
  }

  lemma {:induction false} WaitingHasAsked(tools: Tools, events: seq<Event>, p: CallId) returns (j: nat)
    requires p in After(tools, events).waiting
    ensures AskedSince(events, p, After(tools, events).waiting[p], j)
    decreases |events|
  {
    var before, e := events[..|events| - 1], events[|events| - 1];
    if p in After(tools, before).waiting {
      j := WaitingHasAsked(tools, before, p);
    } else {
      j := |events| - 1;
    }
  }

  /**
    However calls overlap, forced ones included: a call is served from the cache exactly when it is not
    forced and an answer to its text was last written less than a day ago, and is then served that
    answer, which an earlier call got that had asked for it.  If the text is unambiguous, that call had
    the same stripped inputs and question count.
  */
  lemma HitsAreSound(tools: Tools, events: seq<Event>, r: Request, force: bool, now: int)
    requires Injective(tools.hash)
    ensures var found := Found(tools, After(tools, events).cache, r, force, now);
            && (found.Some? <==> !force && exists k: nat :: LastWrite(tools, events, r, k) && now < events[k].now + 24 * 3600)
            && forall k: nat | found.Some? && LastWrite(tools, events, r, k) ::
                 events[k].payload == found.value && GotByACallFor(tools, events, r, k)
  {
    CacheHoldsLastAnswer(tools, events, r);
    forall j: nat, k: nat | LastWrite(tools, events, r, j) && LastWrite(tools, events, r, k)
      ensures j == k
    {
      LastWriteIsUnique(tools, events, r, j, k);
    }
    forall k: nat | LastWrite(tools, events, r, k)
      ensures GotByACallFor(tools, events, r, k)
    {
      WriterHasAsked(tools, events, r, k);
    }
  }

  /**
    The answer written at event `k` is that of a call with the text of `r`, and if this text is
    unambiguous with the stripped inputs of `r`.
  */
  ghost predicate GotByACallFor(tools: Tools, events: seq<Event>, r: Request, k: nat)
    requires k < |events|
  {
    exists asked: Request, j: nat ::
      && AskedSince(events[..k], events[k].p, asked, j) && SameText(tools, asked, r)
      && (!tools.space(SEPARATOR) && Unambiguous(tools.space, r.inputs)
          ==> Normal(tools.space, asked.inputs) == Normal(tools.space, r.inputs))
  }

  lemma WriterHasAsked(tools: Tools, events: seq<Event>, r: Request, k: nat)
    requires k < |events| && WritesFor(tools, events, k, r)
    ensures GotByACallFor(tools, events, r, k)
  {
    var asked := WaitingAt(tools, events, k)[events[k].p];
    var j := WaitingHasAsked(tools, events[..k], events[k].p);
    if !tools.space(SEPARATOR) && Unambiguous(tools.space, r.inputs) {
      UnambiguousTextTells(tools.space, r.inputs, asked.inputs);
    }
    assert AskedSince(events[..k], events[k].p, asked, j);
  }

  // ---------- the candidate's name ----------

  /** The answer served from the cache was made for the same stripped inputs and the same name. */
  ghost predicate MadeForTheCaller(tools: Tools, events: seq<Event>, r: Request) {
    exists k: nat, asked: Request ::
      && LastWrite(tools, events, r, k) && Writes(tools, events, k, asked)
      && Normal(tools.space, asked.inputs) == Normal(tools.space, r.inputs) && asked.fullName == r.fullName
  }

  /** The last answer written to the text of `r` was made for the name in `r`. */
  ghost predicate LastAnsweredForTheName(tools: Tools, events: seq<Event>, r: Request) {
    forall k: nat, asked: Request | LastWrite(tools, events, r, k) && Writes(tools, events, k, asked) :: asked.fullName == r.fullName
  }

  /**
    The name is given to the agents but is no part of the key: a hit, on unambiguous inputs, is made for
    the caller if and only if the last answer written to that text was made for the caller's name.
  */
  lemma HitIsForTheCallerIff(tools: Tools, events: seq<Event>, r: Request, force: bool, now: int)
    requires Injective(tools.hash) && !tools.space(SEPARATOR) && Unambiguous(tools.space, r.inputs)
    requires Found(tools, After(tools, events).cache, r, force, now).Some?
    ensures MadeForTheCaller(tools, events, r) <==> LastAnsweredForTheName(tools, events, r)
  {
    HitsAreSound(tools, events, r, force, now);
    var k: nat :| LastWrite(tools, events, r, k);
    var asked := WaitingAt(tools, events, k)[events[k].p];
    assert Writes(tools, events, k, asked);
    UnambiguousTextTells(tools.space, r.inputs, asked.inputs);
    forall j: nat | LastWrite(tools, events, r, j)
      ensures j == k
    {
      LastWriteIsUnique(tools, events, r, j, k);
    }
  }

  /** As long as every call of a text carries one name, every hit of it is made for the caller. */
  lemma OneNameIsSafe(tools: Tools, events: seq<Event>, r: Request, force: bool, now: int)
    requires Injective(tools.hash) && !tools.space(SEPARATOR) && Unambiguous(tools.space, r.inputs)
    requires Found(tools, After(tools, events).cache, r, force, now).Some?
    requires forall e | e in events && e.Ask? && SameText(tools, e.request, r) :: e.request.fullName == r.fullName
    ensures MadeForTheCaller(tools, events, r)
  {
    HitIsForTheCallerIff(tools, events, r, force, now);
    forall k: nat, asked: Request | LastWrite(tools, events, r, k) && Writes(tools, events, k, asked)
      ensures asked.fullName == r.fullName
    {
      var j := WaitingHasAsked(tools, events[..k], events[k].p);
      assert events[..k][j] == events[j];
      assert events[j] in events;
    }
  }

  // ---------- two runs ----------

  /** The state after a first call has been answered. */
  lemma FirstAnswered(tools: Tools, r: Request, payload: string)
    ensures After(tools, [Ask(0, r, false, 0), Answer(0, payload, 0)])
         == State(map[Fingerprint(tools, r) := Entry(payload, CACHE_TTL)], map[])
    ensures LastWrite(tools, [Ask(0, r, false, 0), Answer(0, payload, 0)], r, 1)
    ensures Writes(tools, [Ask(0, r, false, 0), Answer(0, payload, 0)], 1, r)
  {
    var asked := [Ask(0, r, false, 0)];
    assert [] + asked == asked && asked + [Answer(0, payload, 0)] == [Ask(0, r, false, 0), Answer(0, payload, 0)];
    OneMore(tools, [], Ask(0, r, false, 0));
    OneMore(tools, asked, Answer(0, payload, 0));
    assert [Ask(0, r, false, 0), Answer(0, payload, 0)][..1] == asked;
    assert After(tools, asked) == State(map[], map[0 := r]);
    assert map[0 := r] - {0} == map[];
  }

  /** Two candidates with the same inputs and different names: the second is served what was made for the first. */
  lemma NameIsNotInTheKey(tools: Tools, inputs: Inputs, first: string, second: string, payload: string)
    returns (events: seq<Event>)
    requires first != second
    ensures events == [Ask(0, Request(inputs, first), false, 0), Answer(0, payload, 0)]
    ensures Found(tools, After(tools, events).cache, Request(inputs, second), false, 1) == Some(payload)
    ensures !MadeForTheCaller(tools, events, Request(inputs, second))
  {
    var r, r' := Request(inputs, first), Request(inputs, second);
    events := [Ask(0, r, false, 0), Answer(0, payload, 0)];
    FirstAnswered(tools, r, payload);
    assert Fingerprint(tools, r) == Fingerprint(tools, r');
    forall k: nat, asked: Request | LastWrite(tools, events, r', k) && Writes(tools, events, k, asked)
      ensures asked.fullName != second
    {
      assert events[k].Answer?;
    }
  }

  /**
    A call that began first may be answered last: what a forced call has just put into the cache is
    replaced by an older call's answer, and the next call is served that one.
  */
  lemma OverlapCanOverwrite(tools: Tools, r: Request, stale: string, anew: string) returns (events: seq<Event>)
    ensures events == [Ask(0, r, false, 0), Ask(1, r, true, 1), Answer(1, anew, 2), Answer(0, stale, 3)]
    ensures Found(tools, After(tools, events[..3]).cache, r, false, 3) == Some(anew)
    ensures Found(tools, After(tools, events).cache, r, false, 4) == Some(stale)
  {
    var asked := [Ask(0, r, false, 0)];
    var both := [Ask(0, r, false, 0), Ask(1, r, true, 1)];
    var answered := [Ask(0, r, false, 0), Ask(1, r, true, 1), Answer(1, anew, 2)];
    events := [Ask(0, r, false, 0), Ask(1, r, true, 1), Answer(1, anew, 2), Answer(0, stale, 3)];
    assert [] + asked == asked && asked + [Ask(1, r, true, 1)] == both && both + [Answer(1, anew, 2)] == answered;
    assert answered + [Answer(0, stale, 3)] == events && events[..3] == answered;
    OneMore(tools, [], Ask(0, r, false, 0));
    OneMore(tools, asked, Ask(1, r, true, 1));
    OneMore(tools, both, Answer(1, anew, 2));
    OneMore(tools, answered, Answer(0, stale, 3));
    assert After(tools, asked) == State(map[], map[0 := r]);
    assert After(tools, both) == State(map[], map[0 := r, 1 := r]);
    assert 0 in After(tools, answered).waiting;
  }
}
