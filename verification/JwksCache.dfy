/** The cache of identity-provider verification keys. A caller that needs a fetch claims the slot
    under the lock, fetches without it, and commits under the lock again, so several callers
    interleave. Times are nanoseconds; a zero time means "never". */
module JwksCache {
  import opened Prelude

  const SECOND := 1_000_000_000
  const REFRESH_MIN := 30 * SECOND
  const MAX_KEYS := 64

  datatype Key = Rsa(n: nat, e: nat) | Ec(x: nat, y: nat)

  type Keys = map<string, Key>

  // ---- One fetch ----

  /** One entry of the key set; `key` is absent when it is unsupported or weak. */
  datatype Jwk = Jwk(kid: string, use: string, key: Option<Key>) {
    predicate Usable() { kid != "" && (use == "" || use == "sig") && key.Some? }
  }

  datatype Response = Unreachable | Malformed | Document(keys: seq<Jwk>)

  ghost predicate DistinctKids(keys: seq<Jwk>) {
    forall i, j :: 0 <= i < j < |keys| && keys[i].kid != "" ==> keys[i].kid != keys[j].kid
  }

  /** `out` holds the usable keys of `keys` and nothing else. */
  ghost predicate HoldsUsable(out: Keys, keys: seq<Jwk>) {
    && (forall i :: 0 <= i < |keys| && keys[i].Usable() ==> keys[i].kid in out && out[keys[i].kid] == keys[i].key.value)
    && (forall kid :: kid in out ==> exists i :: 0 <= i < |keys| && keys[i].Usable() && keys[i].kid == kid)
  }

  ghost predicate Mentions(keys: seq<Jwk>, kid: string) {
    exists i :: 0 <= i < |keys| && keys[i].kid == kid
  }

  lemma DistinctStep(keys: seq<Jwk>, j: Jwk)
    requires DistinctKids(keys)
    ensures DistinctKids(keys + [j]) <==> (j.kid != "" ==> !Mentions(keys, j.kid))
  {
    var more := keys + [j];
    assert more[|keys|] == j && forall i :: 0 <= i < |keys| ==> more[i] == keys[i];
    if j.kid != "" && Mentions(keys, j.kid) {
      var i :| 0 <= i < |keys| && keys[i].kid == j.kid;
      assert more[i].kid == more[|keys|].kid;
    }
  }

  lemma UsableStep(out: Keys, keys: seq<Jwk>, j: Jwk)
    requires HoldsUsable(out, keys) && (j.Usable() ==> !Mentions(keys, j.kid))
    ensures HoldsUsable(if j.Usable() then out[j.kid := j.key.value] else out, keys + [j])
  {
    var more := keys + [j];
    assert more[|keys|] == j && forall i :: 0 <= i < |keys| ==> more[i] == keys[i];
    forall kid | kid in out ensures exists i :: 0 <= i < |more| && more[i].Usable() && more[i].kid == kid {
      var i :| 0 <= i < |keys| && keys[i].Usable() && keys[i].kid == kid;
      assert more[i] == keys[i];
    }
  }

  lemma PrefixDistinct(keys: seq<Jwk>, n: nat)
    requires n <= |keys|
    ensures DistinctKids(keys) ==> DistinctKids(keys[..n])
  {
  }

  lemma MentionsStep(keys: seq<Jwk>, j: Jwk, kid: string)
    ensures Mentions(keys + [j], kid) <==> Mentions(keys, kid) || j.kid == kid
  {
    var more := keys + [j];
    assert more[|keys|] == j && forall i :: 0 <= i < |keys| ==> more[i] == keys[i];
  }

  /** A fetch succeeds exactly on a document of at most 64 entries without repeated key ids, and
      then yields its usable keys. */
  method Fetch(r: Response) returns (out: Option<Keys>)
    ensures out.Some? <==> r.Document? && |r.keys| <= MAX_KEYS && DistinctKids(r.keys)
    ensures out.Some? ==> HoldsUsable(out.value, r.keys)
  {
    if !r.Document? { return None; }
    if |r.keys| > MAX_KEYS { return None; }
    hide DistinctKids, HoldsUsable, Mentions;
    var keys: Keys := map[];
    var seen: set<string> := {};
    EmptyFacts();
    for i := 0 to |r.keys|
      invariant DistinctKids(r.keys[..i]) && HoldsUsable(keys, r.keys[..i])
      invariant forall kid :: kid in seen <==> kid != "" && Mentions(r.keys[..i], kid)
    {
      var j := r.keys[i];
      assert r.keys[..i + 1] == r.keys[..i] + [j];
      DistinctStep(r.keys[..i], j);
      forall kid ensures Mentions(r.keys[..i + 1], kid) <==> Mentions(r.keys[..i], kid) || j.kid == kid {
        MentionsStep(r.keys[..i], j, kid);
      }
      PrefixDistinct(r.keys, i + 1);
      if j.kid !in seen { UsableStep(keys, r.keys[..i], j); }
      if j.kid == "" { continue; }
      if j.kid in seen { return None; }
      seen := seen + {j.kid};
      if j.use != "" && j.use != "sig" { continue; }
      if j.key.Some? {
        keys := keys[j.kid := j.key.value];
      }
    }
    assert r.keys[..|r.keys|] == r.keys;
    out := Some(keys);
  }

  lemma EmptyFacts()
    ensures DistinctKids([]) && HoldsUsable(map[], []) && forall kid :: !Mentions([], kid)
  {
  }

  // ---- The two critical sections of a lookup ----

  datatype Error = Unavailable | InvalidToken

  datatype Cache = Cache(keys: Keys, fetchedAt: int, lastAttempt: int, lastErr: bool)

  /** What a caller carries across its fetch. */
  datatype Caller = Caller(kid: string, enteredAt: int, known: Option<Key>, canServeStale: bool)

  datatype Entered = Answer(result: Result<Key, Error>) | MustFetch(caller: Caller)

  function Enter(maxAge: int, c: Cache, kid: string, now: int): (Cache, Entered)
  {
    var known := if kid in c.keys then Some(c.keys[kid]) else None;
    var age := now - c.fetchedAt;
    if known.Some? && age <= maxAge then (c, Answer(Ok(known.value)))
    else
      var canServeStale := known.Some? && age <= 2 * maxAge;
      if c.lastAttempt != 0 && now - c.lastAttempt < REFRESH_MIN then
        (c, Answer(
          if canServeStale then Ok(known.value)
          else if known.Some? || c.lastErr then Err(Unavailable)
          else Err(InvalidToken)))
      else (c.(lastAttempt := now), MustFetch(Caller(kid, now, known, canServeStale)))
  }

  function Commit(c: Cache, caller: Caller, fetched: Option<Keys>): (Cache, Result<Key, Error>)
    requires caller.canServeStale ==> caller.known.Some?
  {
    match fetched
    case None =>
      (c.(lastErr := true), if caller.canServeStale then Ok(caller.known.value) else Err(Unavailable))
    case Some(keys) =>
      (Cache(keys, caller.enteredAt, c.lastAttempt, false),
       if caller.kid in keys then Ok(keys[caller.kid]) else Err(InvalidToken))
  }

  class KeySet {
    const maxAge: int
    var keys: Keys
    var fetchedAt: int
    var lastAttempt: int
    var lastErr: bool

    function Contents(): Cache reads this { Cache(keys, fetchedAt, lastAttempt, lastErr) }

    constructor (maxAge: int)
      ensures this.maxAge == maxAge && Contents() == Cache(map[], 0, 0, false)
    {
      this.maxAge, keys, fetchedAt, lastAttempt, lastErr := maxAge, map[], 0, 0, false;
    }

    /** The first critical section of a lookup. */
    method GetBegin(kid: string, now: int) returns (r: Entered)
      modifies this
      ensures (Contents(), r) == Enter(maxAge, old(Contents()), kid, now)
    {
      var known := None;
      if kid in keys { known := Some(keys[kid]); }
      var age := now - fetchedAt;
      if known.Some? && age <= maxAge { return Answer(Ok(known.value)); }
      var canServeStale := known.Some? && age <= 2 * maxAge;
      if lastAttempt != 0 && now - lastAttempt < REFRESH_MIN {
        if canServeStale { return Answer(Ok(known.value)); }
        if known.Some? || lastErr { return Answer(Err(Unavailable)); }
        return Answer(Err(InvalidToken));
      }
      lastAttempt := now;
      return MustFetch(Caller(kid, now, known, canServeStale));
    }

    /** The second critical section, after the fetch. */
    method GetEnd(caller: Caller, fetched: Option<Keys>) returns (r: Result<Key, Error>)
      requires caller.canServeStale ==> caller.known.Some?
      modifies this
      ensures (Contents(), r) == Commit(old(Contents()), caller, fetched)
    {
      lastErr := fetched.None?;
      if fetched.None? {
        if caller.canServeStale { return Ok(caller.known.value); }
        return Err(Unavailable);
      }
      keys := fetched.value;
      fetchedAt := caller.enteredAt;
      if caller.kid in keys { return Ok(keys[caller.kid]); }
      return Err(InvalidToken);
    }

    /** The mandatory fetch at startup; `now` is read after it. */
    method Refresh(fetched: Option<Keys>, now: int) returns (ok: bool)
      modifies this
      ensures ok == fetched.Some? && lastAttempt == now && lastErr == !ok
      ensures if ok then keys == fetched.value && fetchedAt == now
              else keys == old(keys) && fetchedAt == old(fetchedAt)
    {
      lastAttempt := now;
      lastErr := fetched.None?;
      if fetched.None? { return false; }
      keys := fetched.value;
      fetchedAt := lastAttempt;
      return true;
    }
  }

  // ---- Interleavings ----

  datatype Fetched = Fetched(at: int, keys: Keys)

  /** An answer, with how many sets had been fetched and how many fetches had ended when it was given. */
  datatype Returned = Returned(kid: string, enteredAt: int, result: Result<Key, Error>, fetched: nat, ended: nat)

  /** How old a key may get before it is refetched, and how long one fetch may take. */
  datatype Setup = Setup(maxAge: int, timeout: int)

  /** The deadline of every fetch. */
  const FETCH_TIMEOUT := 5 * SECOND

  /** The cache, the callers between their critical sections, and the history of the run: when fetches
      started, when attempts were noted (a startup fetch is when it ends), the sets fetched in the order
      they were committed, whether each ended fetch succeeded, and how many sets had been fetched when
      each caller claimed its fetch. */
  datatype System = System(
    cache: Cache, inFlight: map<nat, Caller>, now: int,
    starts: seq<int>, attempts: seq<int>, fetches: seq<Fetched>, outcomes: seq<bool>, claimed: map<nat, nat>,
    returned: seq<Returned>)
  {
    function Answering(kid: string, enteredAt: int, result: Result<Key, Error>): Returned
    {
      Returned(kid, enteredAt, result, |fetches|, |outcomes|)
    }
  }

  datatype Event =
    | Get(id: nat, kid: string, at: int)
    | Finish(id: nat, fetched: Option<Keys>, at: int)

  /** The system once the startup fetch, begun at `begun`, has succeeded at `now`. */
  function Started(begun: int, now: int, keys: Keys): System
  {
    System(Cache(keys, now, now, false), map[], now, [begun], [now], [Fetched(now, keys)], [true], map[], [])
  }

  /** The system without a startup fetch. */
  function Unstarted(now: int): System
  {
    System(Cache(map[], 0, 0, false), map[], now, [], [], [], [], map[], [])
  }

  /** The clock can read `at`: it never runs backwards, and a fetch has ended, if only with a failure,
      by its deadline. */
  predicate CanRead(timeout: int, s: System, at: int) {
    s.now <= at && forall id :: id in s.inFlight ==> at - s.inFlight[id].enteredAt <= timeout
  }

  /** One event; one whose time the clock cannot read, a caller id in use or an unknown caller change
      nothing. */
  function Apply(c: Setup, s: System, e: Event): System
  {
    match e
    case Get(id, kid, at) =>
      if id in s.inFlight || !CanRead(c.timeout, s, at) then s else Looked(c, s, id, kid, at)
    case Finish(id, fetched, at) =>
      if id !in s.inFlight || !CanRead(c.timeout, s, at) || (s.inFlight[id].canServeStale && s.inFlight[id].known.None?) then s
      else Finished(s, id, fetched, at)
  }

  function Looked(c: Setup, s: System, id: nat, kid: string, at: int): System
  {
    var (cache, entered) := Enter(c.maxAge, s.cache, kid, at);
    match entered
    case Answer(result) =>
      s.(cache := cache, now := at, returned := s.returned + [s.Answering(kid, at, result)])
    case MustFetch(caller) =>
      s.(cache := cache, now := at, starts := s.starts + [at], attempts := s.attempts + [at],
         claimed := s.claimed[id := |s.fetches|], inFlight := s.inFlight[id := caller])
  }

  function Finished(s: System, id: nat, fetched: Option<Keys>, at: int): System
    requires id in s.inFlight && (s.inFlight[id].canServeStale ==> s.inFlight[id].known.Some?)
  {
    var caller := s.inFlight[id];
    var (cache, result) := Commit(s.cache, caller, fetched);
    var t := s.(cache := cache, now := at, inFlight := s.inFlight - {id},
                fetches := s.fetches + (if fetched.Some? then [Fetched(caller.enteredAt, fetched.value)] else []),
                outcomes := s.outcomes + [fetched.Some?]);
    t.(returned := s.returned + [t.Answering(caller.kid, caller.enteredAt, result)])
  }

  function Run(c: Setup, s: System, events: seq<Event>): System
  {
    if events == [] then s
    else Apply(c, Run(c, s, events[..|events| - 1]), events[|events| - 1])
  }

  /** The key for `kid` came from a successful fetch at most 2 * maxAge before `at`. */
  ghost predicate FreshKey(maxAge: int, fetches: seq<Fetched>, kid: string, key: Key, at: int) {
    exists i :: 0 <= i < |fetches| && kid in fetches[i].keys && fetches[i].keys[kid] == key && at - fetches[i].at <= 2 * maxAge
  }

  ghost predicate Spaced(starts: seq<int>) {
    forall i :: 0 < i < |starts| ==> starts[i] - starts[i - 1] >= REFRESH_MIN
  }

  /** What an answer promises. A key is fresh. A token is called invalid when the last fetch to end had
      succeeded and the latest set lacks the key id. Keys are called unavailable when the last fetch to
      end had failed, or the key of the latest set is too old. */
  ghost predicate Justified(maxAge: int, s: System, r: Returned) {
    && r.fetched <= |s.fetches| && r.ended <= |s.outcomes|
    && match r.result
       case Ok(key) => FreshKey(maxAge, s.fetches, r.kid, key, r.enteredAt)
       case Err(InvalidToken) =>
         0 < r.fetched && r.kid !in s.fetches[r.fetched - 1].keys && 0 < r.ended && s.outcomes[r.ended - 1]
       case Err(Unavailable) =>
         || (0 < r.ended && !s.outcomes[r.ended - 1])
         || (0 < r.fetched && r.kid in s.fetches[r.fetched - 1].keys && r.enteredAt - s.fetches[r.fetched - 1].at > 2 * maxAge)
  }

  /** The key a caller may fall back on: that of the set that was the latest when it claimed its fetch, if
      that set was not too old then. */
  function FallbackKey(maxAge: int, latest: Fetched, kid: string, at: int): Option<Key>
  {
    if kid in latest.keys && at - latest.at <= 2 * maxAge then Some(latest.keys[kid]) else None
  }

  /** A caller in flight carries what it saw when it claimed its fetch. */
  ghost predicate CallerOk(maxAge: int, s: System, id: nat, c: Caller) {
    && c.enteredAt <= s.now
    && id in s.claimed && 0 < s.claimed[id] <= |s.fetches|
    && FallbackKey(maxAge, s.fetches[s.claimed[id] - 1], c.kid, c.enteredAt) == (if c.canServeStale then c.known else None)
    && (c.canServeStale ==> c.known.Some?)
  }

  ghost predicate Inv(maxAge: int, s: System) {
    && s.starts != [] && Spaced(s.starts)
    && 0 < s.cache.lastAttempt <= s.now && s.starts[|s.starts| - 1] <= s.cache.lastAttempt
    && s.attempts != [] && s.attempts[|s.attempts| - 1] == s.cache.lastAttempt
    && s.fetches != [] && s.fetches[|s.fetches| - 1] == Fetched(s.cache.fetchedAt, s.cache.keys)
    && s.outcomes != [] && s.outcomes[|s.outcomes| - 1] == !s.cache.lastErr
    && (forall id :: id in s.inFlight ==> CallerOk(maxAge, s, id, s.inFlight[id]))
    && (forall i :: 0 <= i < |s.returned| ==> Justified(maxAge, s, s.returned[i]))
  }

  lemma FreshKeyGrows(maxAge: int, fetches: seq<Fetched>, more: seq<Fetched>, kid: string, key: Key, at: int)
    requires FreshKey(maxAge, fetches, kid, key, at) && IsPrefix(fetches, more)
    ensures FreshKey(maxAge, more, kid, key, at)
  {
    var i :| 0 <= i < |fetches| && kid in fetches[i].keys && fetches[i].keys[kid] == key && at - fetches[i].at <= 2 * maxAge;
    assert more[i] == fetches[i];
  }

  /** Answers already given and callers already in flight stay as they should be while the history grows. */
  lemma OldPartsHold(maxAge: int, s: System, t: System)
    requires Inv(maxAge, s) && IsPrefix(s.fetches, t.fetches) && IsPrefix(s.outcomes, t.outcomes) && s.now <= t.now
    ensures forall j :: 0 <= j < |s.returned| ==> Justified(maxAge, t, s.returned[j])
    requires forall id :: id in s.inFlight ==> id in t.claimed && t.claimed[id] == s.claimed[id]
    ensures forall id :: id in s.inFlight ==> CallerOk(maxAge, t, id, s.inFlight[id])
  {
    forall j | 0 <= j < |s.returned| ensures Justified(maxAge, t, s.returned[j]) { JustifiedGrows(maxAge, s, t, s.returned[j]); }
    forall id | id in s.inFlight ensures CallerOk(maxAge, t, id, s.inFlight[id]) {
      assert t.fetches[s.claimed[id] - 1] == s.fetches[s.claimed[id] - 1];
    }
  }

  lemma JustifiedGrows(maxAge: int, s: System, t: System, r: Returned)
    requires Justified(maxAge, s, r) && IsPrefix(s.fetches, t.fetches) && IsPrefix(s.outcomes, t.outcomes)
    ensures Justified(maxAge, t, r)
  {
    assert r.fetched > 0 ==> t.fetches[r.fetched - 1] == s.fetches[r.fetched - 1];
    assert r.ended > 0 ==> t.outcomes[r.ended - 1] == s.outcomes[r.ended - 1];
    if r.result.Ok? { FreshKeyGrows(maxAge, s.fetches, t.fetches, r.kid, r.result.value, r.enteredAt); }
    hide FreshKey;
  }

  /** What the history says about the outcome of the first critical section. */
  lemma EnteredFacts(maxAge: int, s: System, kid: string, at: int)
    requires maxAge >= 0 && Inv(maxAge, s) && at >= s.now
    ensures var (cache, entered) := Enter(maxAge, s.cache, kid, at);
      match entered
      case Answer(result) => cache == s.cache && Justified(maxAge, s, s.Answering(kid, at, result))
      case MustFetch(caller) =>
        && cache == s.cache.(lastAttempt := at) && at - s.cache.lastAttempt >= REFRESH_MIN
        && caller.kid == kid && caller.enteredAt == at
        && FallbackKey(maxAge, s.fetches[|s.fetches| - 1], kid, at) == (if caller.canServeStale then caller.known else None)
        && (caller.canServeStale ==> caller.known.Some?)
  {
    CachedKeyFresh(maxAge, s, kid, at);
    hide FreshKey, Spaced;
  }

  lemma CachedKeyFresh(maxAge: int, s: System, kid: string, at: int)
    requires Inv(maxAge, s)
    ensures kid in s.cache.keys && at - s.cache.fetchedAt <= 2 * maxAge ==> FreshKey(maxAge, s.fetches, kid, s.cache.keys[kid], at)
  {
    assert s.fetches[|s.fetches| - 1] == Fetched(s.cache.fetchedAt, s.cache.keys);
  }

  lemma GetKeepsInv(c: Setup, s: System, id: nat, kid: string, at: int)
    requires c.maxAge >= 0 && Inv(c.maxAge, s) && id !in s.inFlight && at >= s.now
    ensures Inv(c.maxAge, Looked(c, s, id, kid, at))
  {
    var t := Looked(c, s, id, kid, at);
    EnteredFacts(c.maxAge, s, kid, at);
    OldPartsHold(c.maxAge, s, t);
    var (cache, entered) := Enter(c.maxAge, s.cache, kid, at);
    hide Enter, FreshKey;
    if entered.Answer? {
      JustifiedGrows(c.maxAge, s, t, s.Answering(kid, at, entered.result));
    } else {
      StartSpaced(s.starts, at);
    }
    hide Justified, Spaced;
  }

  lemma StartSpaced(starts: seq<int>, at: int)
    requires Spaced(starts) && (starts != [] ==> at - starts[|starts| - 1] >= REFRESH_MIN)
    ensures Spaced(starts + [at])
  {
    forall j | 0 < j < |starts + [at]| ensures (starts + [at])[j] - (starts + [at])[j - 1] >= REFRESH_MIN {
      if j < |starts| { assert starts[j] - starts[j - 1] >= REFRESH_MIN; }
    }
  }

  lemma FinishKeepsInv(maxAge: int, s: System, id: nat, fetched: Option<Keys>, at: int)
    requires maxAge >= 0 && Inv(maxAge, s) && id in s.inFlight && at >= s.now
    ensures s.inFlight[id].canServeStale ==> s.inFlight[id].known.Some?
    ensures Inv(maxAge, Finished(s, id, fetched, at))
  {
    assert CallerOk(maxAge, s, id, s.inFlight[id]);
    var t := Finished(s, id, fetched, at);
    OldPartsHold(maxAge, s, t);
    CommitJustified(maxAge, s, id, fetched, at);
    hide Commit, Justified, FreshKey, Spaced;
  }

  lemma CommitJustified(maxAge: int, s: System, id: nat, fetched: Option<Keys>, at: int)
    requires maxAge >= 0 && Inv(maxAge, s) && id in s.inFlight && CallerOk(maxAge, s, id, s.inFlight[id])
    ensures var t := Finished(s, id, fetched, at);
      && t.returned == s.returned + [t.returned[|s.returned|]] && Justified(maxAge, t, t.returned[|s.returned|])
      && t.fetches[|t.fetches| - 1] == Fetched(t.cache.fetchedAt, t.cache.keys)
      && t.outcomes[|t.outcomes| - 1] == !t.cache.lastErr
      && t.cache.lastAttempt == s.cache.lastAttempt
  {
    var t, caller := Finished(s, id, fetched, at), s.inFlight[id];
    if fetched.Some? {
      var i := |s.fetches|;
      assert t.fetches[i] == Fetched(caller.enteredAt, fetched.value);
      assert caller.kid in fetched.value ==>
        FreshKey(maxAge, t.fetches, caller.kid, fetched.value[caller.kid], caller.enteredAt);
    } else {
      assert t.fetches == s.fetches;
      var latest := s.fetches[s.claimed[id] - 1];
      assert caller.canServeStale ==> FallbackKey(maxAge, latest, caller.kid, caller.enteredAt) == caller.known;
      assert caller.canServeStale ==> FreshKey(maxAge, t.fetches, caller.kid, caller.known.value, caller.enteredAt);
    }
    hide FreshKey, Spaced;
  }

  /** Over every interleaving of lookups that follow a successful startup fetch, whatever the fetches
      return and however long they may take: fetches start at least 30 s apart, and every answer is
      justified by what had been fetched when it was given. */
  lemma {:induction false} EveryInterleaving(c: Setup, begun: int, now: int, keys: Keys, events: seq<Event>)
    requires c.maxAge >= 0 && 0 < begun <= now
    ensures var s := Run(c, Started(begun, now, keys), events);
      Inv(c.maxAge, s) && Spaced(s.starts)
      && forall i :: 0 <= i < |s.returned| ==> Justified(c.maxAge, s, s.returned[i])
  {
    if events != [] {
      var before, e := events[..|events| - 1], events[|events| - 1];
      EveryInterleaving(c, begun, now, keys, before);
      var s := Run(c, Started(begun, now, keys), before);
      match e
      case Get(id, kid, at) => if id !in s.inFlight && at >= s.now { GetKeepsInv(c, s, id, kid, at); }
      case Finish(id, fetched, at) => if id in s.inFlight && at >= s.now { FinishKeepsInv(c.maxAge, s, id, fetched, at); }
      hide Looked, Finished, Justified, CallerOk, Spaced;
    }
  }

  // ---- What a lookup does, in terms of the history ----

  /** The latest set, in the state a run reaches. */
  function Latest(s: System): Fetched
    requires s.fetches != []
  {
    s.fetches[|s.fetches| - 1]
  }

  /** A lookup does not need a fetch: the latest set has the key and is young enough. */
  ghost predicate Current(maxAge: int, s: System, kid: string, at: int)
    requires s.fetches != []
  {
    kid in Latest(s).keys && at - Latest(s).at <= maxAge
  }

  /** The last attempt is far enough back for another one. */
  ghost predicate Due(s: System, at: int)
    requires s.attempts != []
  {
    at - s.attempts[|s.attempts| - 1] >= REFRESH_MIN
  }

  /** When a lookup starts a fetch, exactly, and what it answers otherwise. It fetches when the latest set
      lacks the key or is older than maxAge, and the last attempt is at least 30 s back. Otherwise it
      answers at once: with the key of the latest set if that is not twice as old, and if not, that keys
      are unavailable when the key is known or the last fetch failed, and that the token is invalid when
      neither is so. */
  ghost predicate LooksUpRightly(maxAge: int, s: System, t: System, id: nat, kid: string, at: int) {
    && s.fetches != [] && s.outcomes != [] && s.attempts != []
    && t.fetches == s.fetches && t.outcomes == s.outcomes
    && if !Current(maxAge, s, kid, at) && Due(s, at) then
         && t.starts == s.starts + [at] && t.attempts == s.attempts + [at] && t.returned == s.returned
         && t.inFlight.Keys == s.inFlight.Keys + {id} && t.inFlight[id].kid == kid && t.inFlight[id].enteredAt == at
         && t.claimed == s.claimed[id := |s.fetches|]
       else
         && t.starts == s.starts && t.attempts == s.attempts && t.inFlight == s.inFlight
         && t.returned == s.returned + [Returned(kid, at,
              if kid in Latest(s).keys && at - Latest(s).at <= 2 * maxAge then Ok(Latest(s).keys[kid])
              else if kid in Latest(s).keys || !s.outcomes[|s.outcomes| - 1] then Err(Unavailable)
              else Err(InvalidToken), |s.fetches|, |s.outcomes|)]
  }

  lemma LookupStep(c: Setup, s: System, id: nat, kid: string, at: int)
    requires c.maxAge >= 0 && Inv(c.maxAge, s) && id !in s.inFlight && CanRead(c.timeout, s, at)
    ensures LooksUpRightly(c.maxAge, s, Apply(c, s, Get(id, kid, at)), id, kid, at)
  {
    assert Latest(s) == Fetched(s.cache.fetchedAt, s.cache.keys);
    hide Justified, CallerOk, Spaced;
  }

  lemma LookupExactly(c: Setup, begun: int, now: int, keys: Keys, events: seq<Event>, id: nat, kid: string, at: int)
    requires c.maxAge >= 0 && 0 < begun <= now
    requires var s := Run(c, Started(begun, now, keys), events); id !in s.inFlight && CanRead(c.timeout, s, at)
    ensures var s := Run(c, Started(begun, now, keys), events);
      LooksUpRightly(c.maxAge, s, Apply(c, s, Get(id, kid, at)), id, kid, at)
  {
    EveryInterleaving(c, begun, now, keys, events);
    hide Inv, LooksUpRightly, CanRead;
    LookupStep(c, Run(c, Started(begun, now, keys), events), id, kid, at);
  }

  /** What the end of a fetch does and answers, exactly: a fetched set becomes the latest, dated by the
      entry of its caller, and answers the caller; a failure answers with the key of the set that was the
      latest when the fetch was claimed, if that was not too old then. */
  ghost predicate FinishesRightly(maxAge: int, s: System, t: System, id: nat, fetched: Option<Keys>)
    requires id in s.inFlight
  {
    var kid, enteredAt := s.inFlight[id].kid, s.inFlight[id].enteredAt;
    && id in s.claimed && 0 < s.claimed[id] <= |s.fetches|
    && t.starts == s.starts && t.attempts == s.attempts && t.inFlight == s.inFlight - {id}
    && t.outcomes == s.outcomes + [fetched.Some?]
    && t.fetches == s.fetches + (if fetched.Some? then [Fetched(enteredAt, fetched.value)] else [])
    && var seen := s.fetches[s.claimed[id] - 1];
    && t.returned == s.returned + [Returned(kid, enteredAt,
         if fetched.Some? then (if kid in fetched.value then Ok(fetched.value[kid]) else Err(InvalidToken))
         else if kid in seen.keys && enteredAt - seen.at <= 2 * maxAge then Ok(seen.keys[kid])
         else Err(Unavailable), |t.fetches|, |t.outcomes|)]
  }

  lemma FinishStep(c: Setup, s: System, id: nat, fetched: Option<Keys>, at: int)
    requires c.maxAge >= 0 && Inv(c.maxAge, s) && id in s.inFlight && CanRead(c.timeout, s, at)
    ensures FinishesRightly(c.maxAge, s, Apply(c, s, Finish(id, fetched, at)), id, fetched)
  {
    assert CallerOk(c.maxAge, s, id, s.inFlight[id]);
    var seen := s.fetches[s.claimed[id] - 1];
    assert s.fetches + [] == s.fetches;
    hide Justified, Spaced, Inv;
  }

  lemma FinishExactly(c: Setup, begun: int, now: int, keys: Keys, events: seq<Event>, id: nat, fetched: Option<Keys>, at: int)
    requires c.maxAge >= 0 && 0 < begun <= now
    requires var s := Run(c, Started(begun, now, keys), events); id in s.inFlight && CanRead(c.timeout, s, at)
    ensures var s := Run(c, Started(begun, now, keys), events);
      FinishesRightly(c.maxAge, s, Apply(c, s, Finish(id, fetched, at)), id, fetched)
  {
    EveryInterleaving(c, begun, now, keys, events);
    hide Inv, FinishesRightly, CanRead;
    FinishStep(c, Run(c, Started(begun, now, keys), events), id, fetched, at);
  }

  /** A key of the latest set no older than maxAge is always answered, without a fetch; a key whose set is
      older is answered at once only within 30 s of an attempt; and after a fetch that succeeded, only a key
      of the fetched set is answered. */
  lemma StaleOnlyMeanwhile(c: Setup, begun: int, now: int, keys: Keys, events: seq<Event>, e: Event)
    requires c.maxAge >= 0 && 0 < begun <= now
    ensures var s := Run(c, Started(begun, now, keys), events);
      var t := Apply(c, s, e);
      && s.fetches != [] && s.attempts != []
      && (e.Get? && e.id !in s.inFlight && CanRead(c.timeout, s, e.at) && Current(c.maxAge, s, e.kid, e.at) ==>
            t.starts == s.starts && |t.returned| == |s.returned| + 1 && t.returned[|s.returned|].result == Ok(Latest(s).keys[e.kid]))
      && (e.Get? && |t.returned| > |s.returned| && t.returned[|s.returned|].result.Ok? && !Current(c.maxAge, s, e.kid, e.at) ==>
            !Due(s, e.at))
      && (e.Finish? && e.fetched.Some? && |t.returned| > |s.returned| && t.returned[|s.returned|].result.Ok? ==>
            var r := t.returned[|s.returned|]; r.kid in e.fetched.value && r.result == Ok(e.fetched.value[r.kid]))
  {
    var s := Run(c, Started(begun, now, keys), events);
    EveryInterleaving(c, begun, now, keys, events);
    if e.Get? && e.id !in s.inFlight && CanRead(c.timeout, s, e.at) { LookupStep(c, s, e.id, e.kid, e.at); }
    if e.Finish? && e.id in s.inFlight && CanRead(c.timeout, s, e.at) { FinishStep(c, s, e.id, e.fetched, e.at); }
    hide Inv, Looked, Finished, Run;
  }

  /** Without the startup fetch the promise fails: two lookups at once, and the second calls the
      token invalid although nothing was ever fetched. */
  lemma StartupFetchNeeded(c: Setup, at: int)
    requires at > 0 && c.timeout >= 0
    ensures var s := Run(c, Unstarted(at), [Get(0, "k", at), Get(1, "k", at)]);
      s.fetches == [] && s.returned == [Returned("k", at, Err(InvalidToken), 0, 0)]
      && !Justified(c.maxAge, s, s.returned[0])
  {
    var e0, e1 := Get(0, "k", at), Get(1, "k", at);
    assert [e0, e1][..1] == [e0] && [e0][..0] == [];
    var s0 := Unstarted(at);
    assert Run(c, s0, [e0]) == Apply(c, Run(c, s0, []), e0);
    assert Run(c, s0, [e0, e1]) == Apply(c, Apply(c, s0, e0), e1);
  }

  // ---- Fetches end by their deadline ----

  /** At most one fetch is in flight, it holds the latest claim, and no newer set is cached. */
  ghost predicate SingleFlight(s: System) {
    && (forall a, b :: a in s.inFlight && b in s.inFlight ==> a == b)
    && (forall a :: a in s.inFlight ==> s.inFlight[a].enteredAt == s.cache.lastAttempt)
    && s.cache.fetchedAt <= s.cache.lastAttempt && 0 < s.cache.lastAttempt <= s.now
  }

  /** With a deadline shorter than the refresh minimum, a step keeps single flight and the cached set
      does not become older. */
  lemma StepIsSerial(c: Setup, s: System, e: Event)
    requires c.timeout < REFRESH_MIN && SingleFlight(s)
    ensures SingleFlight(Apply(c, s, e)) && s.cache.fetchedAt <= Apply(c, s, e).cache.fetchedAt
  {
    if e.Get? && e.id !in s.inFlight && CanRead(c.timeout, s, e.at) {
      if id :| id in s.inFlight { assert e.at - s.inFlight[id].enteredAt <= c.timeout; }
    }
  }

  lemma {:induction false} RunIsSerial(c: Setup, begun: int, now: int, keys: Keys, events: seq<Event>)
    requires c.timeout < REFRESH_MIN && 0 < begun <= now
    ensures SingleFlight(Run(c, Started(begun, now, keys), events))
  {
    if events != [] {
      RunIsSerial(c, begun, now, keys, events[..|events| - 1]);
      StepIsSerial(c, Run(c, Started(begun, now, keys), events[..|events| - 1]), events[|events| - 1]);
    }
  }

  /** In every run, no step makes the cached set older. */
  ghost predicate NeverOlder(c: Setup) {
    forall begun: int, now: int, keys: Keys, events: seq<Event>, e: Event :: 0 < begun <= now ==>
      StepNotOlder(c, Run(c, Started(begun, now, keys), events), e)
  }

  ghost predicate StepNotOlder(c: Setup, s: System, e: Event) {
    s.cache.fetchedAt <= Apply(c, s, e).cache.fetchedAt
  }

  /** Every fetch has a deadline of 5 s, so there is never more than one in flight and the cached set
      never becomes older. */
  lemma FetchesAreSerial(maxAge: int, begun: int, now: int, keys: Keys, events: seq<Event>, e: Event)
    requires 0 < begun <= now
    ensures var c := Setup(maxAge, FETCH_TIMEOUT);
      SingleFlight(Run(c, Started(begun, now, keys), events)) && StepNotOlder(c, Run(c, Started(begun, now, keys), events), e)
  {
    var c := Setup(maxAge, FETCH_TIMEOUT);
    RunIsSerial(c, begun, now, keys, events);
    StepIsSerial(c, Run(c, Started(begun, now, keys), events), e);
  }

  /** The deadlines under which the cached set never becomes older are those below the refresh minimum:
      otherwise a second fetch may start before the first ends, and end before it. */
  lemma NeverOlderExactly(c: Setup)
    ensures NeverOlder(c) <==> c.timeout < REFRESH_MIN
  {
    if c.timeout < REFRESH_MIN {
      forall begun: int, now: int, keys: Keys, events: seq<Event>, e: Event | 0 < begun <= now
        ensures StepNotOlder(c, Run(c, Started(begun, now, keys), events), e)
      {
        RunIsSerial(c, begun, now, keys, events);
        StepIsSerial(c, Run(c, Started(begun, now, keys), events), e);
      }
    } else {
      var events := [Get(0, "k", 1 + REFRESH_MIN), Get(1, "k", 1 + 2 * REFRESH_MIN), Finish(1, Some(map[]), 1 + 2 * REFRESH_MIN)];
      var e := Finish(0, Some(map[]), 1 + 2 * REFRESH_MIN);
      OverlappingFetches(c, events);
      assert !StepNotOlder(c, Run(c, Started(1, 1, map[]), events), e);
    }
  }

  lemma OverlappingFetches(c: Setup, events: seq<Event>)
    requires c.timeout >= REFRESH_MIN
    requires events == [Get(0, "k", 1 + REFRESH_MIN), Get(1, "k", 1 + 2 * REFRESH_MIN), Finish(1, Some(map[]), 1 + 2 * REFRESH_MIN)]
    ensures var s := Run(c, Started(1, 1, map[]), events);
      && s.inFlight == map[0 := Caller("k", 1 + REFRESH_MIN, None, false)]
      && s.now == s.cache.fetchedAt == 1 + 2 * REFRESH_MIN
  {
    var s0, e1, e2 := Started(1, 1, map[]), events[..1], events[..2];
    assert e1[..0] == [] && e2[..1] == e1;
    assert Run(c, s0, []) == s0;
    assert Run(c, s0, e1) == Apply(c, s0, events[0]);
    var s1 := Apply(c, s0, events[0]);
    assert s1.inFlight == map[0 := Caller("k", 1 + REFRESH_MIN, None, false)];
    assert Run(c, s0, e2) == Apply(c, s1, events[1]);
    var s2 := Apply(c, s1, events[1]);
    assert s2.inFlight == map[0 := Caller("k", 1 + REFRESH_MIN, None, false), 1 := Caller("k", 1 + 2 * REFRESH_MIN, None, false)];
    assert Run(c, s0, events) == Apply(c, s2, events[2]);
    assert s2.inFlight - {1} == s1.inFlight;
  }
}
