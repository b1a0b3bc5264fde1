/** The per-key token bucket that guards the admin API, with eviction of idle keys.
    Token counts and times are reals; times are seconds on a nondecreasing clock. */
module RateLimiter {
  import opened Prelude

  const CLEANUP_INTERVAL := 60.0

  datatype Config = Config(rate: real, burst: int, idle: real) {
    ghost predicate Valid() { rate >= 0.0 && idle >= 0.0 }
  }

  datatype Bucket = Bucket(tokens: real, lastUpdate: real, lastAccess: real)

  datatype State = State(lastCleanup: real, buckets: map<string, Bucket>)

  function Min(a: real, b: real): real { if a <= b then a else b }

  /** Tokens gained over `seconds`. */
  function Gain(rate: real, seconds: real): real { rate * seconds }

  // ---- What one call does ----

  /** Once per cleanup interval, drops every key not accessed for the idle timeout. */
  function Evict(cfg: Config, s: State, now: real): State
  {
    if now - s.lastCleanup >= CLEANUP_INTERVAL then
      State(now, map k | k in s.buckets && now - s.buckets[k].lastAccess < cfg.idle :: s.buckets[k])
    else s
  }

  /** The bucket as it stands at `now`: new, reset after an idle period, or refilled. */
  function Refreshed(cfg: Config, b: Option<Bucket>, now: real): Bucket
  {
    if b.None? || now - b.value.lastAccess >= cfg.idle then Bucket(cfg.burst as real, now, now)
    else
      var elapsed := now - b.value.lastUpdate;
      if elapsed > 0.0 then
        Bucket(Min(b.value.tokens + Gain(cfg.rate, elapsed), cfg.burst as real), now, now)
      else b.value.(lastAccess := now)
  }

  function Spend(b: Bucket): (Bucket, bool)
  {
    if b.tokens >= 1.0 then (b.(tokens := b.tokens - 1.0), true) else (b, false)
  }

  function Touch(cfg: Config, b: Option<Bucket>, now: real): (Bucket, bool)
  {
    Spend(Refreshed(cfg, b, now))
  }

  function Find(s: State, key: string): Option<Bucket>
  {
    if key in s.buckets then Some(s.buckets[key]) else None
  }

  function Step(cfg: Config, s: State, key: string, now: real): (State, bool)
  {
    var kept := Evict(cfg, s, now);
    var (b, ok) := Touch(cfg, Find(kept, key), now);
    (kept.(buckets := kept.buckets[key := b]), ok)
  }

  class Limiter {
    const cfg: Config
    var lastCleanup: real
    var buckets: map<string, Bucket>

    function Contents(): State reads this { State(lastCleanup, buckets) }

    constructor (cfg: Config, now: real)
      ensures this.cfg == cfg && Contents() == State(now, map[])
    {
      this.cfg := cfg;
      lastCleanup, buckets := now, map[];
    }

    /** Reports whether an event for `key` is permitted at `now`. */
    method Allow(key: string, now: real) returns (ok: bool)
      modifies this
      ensures (Contents(), ok) == Step(cfg, old(Contents()), key, now)
    {
      if now - lastCleanup >= CLEANUP_INTERVAL {
        EvictIdle(now);
        lastCleanup := now;
      }
      assert Contents() == Evict(cfg, old(Contents()), now);
      var b;
      if key !in buckets {
        b := Bucket(cfg.burst as real, now, now);
      } else {
        b := buckets[key];
        if now - b.lastAccess >= cfg.idle {
          b := Bucket(cfg.burst as real, now, now);
        } else {
          var elapsed := now - b.lastUpdate;
          if elapsed > 0.0 {
            b := b.(tokens := b.tokens + Gain(cfg.rate, elapsed));
            if b.tokens > cfg.burst as real {
              b := b.(tokens := cfg.burst as real);
            }
            b := b.(lastUpdate := now);
          }
          b := b.(lastAccess := now);
        }
      }
      ok := b.tokens >= 1.0;
      if ok {
        b := b.(tokens := b.tokens - 1.0);
      }
      buckets := buckets[key := b];
    }

    method EvictIdle(now: real)
      modifies this`buckets
      ensures buckets == map k | k in old(buckets) && now - old(buckets)[k].lastAccess < cfg.idle :: old(buckets)[k]
    {
      var todo := buckets.Keys;
      while todo != {}
        invariant todo <= old(buckets).Keys
        invariant forall k :: k in buckets <==>
          k in old(buckets) && (k in todo || now - old(buckets)[k].lastAccess < cfg.idle)
        invariant forall k :: k in buckets ==> buckets[k] == old(buckets)[k]
      {
        var k :| k in todo;
        if now - buckets[k].lastAccess >= cfg.idle {
          buckets := buckets - {k};
        }
        todo := todo - {k};
      }
    }
  }

  // ---- Runs ----

  datatype Call = Call(key: string, at: real)

  ghost predicate Nondecreasing(t0: real, calls: seq<Call>) {
    && (forall i :: 0 <= i < |calls| ==> t0 <= calls[i].at)
    && (forall i, j :: 0 <= i < j < |calls| ==> calls[i].at <= calls[j].at)
  }

  /** The limiter created at `t0` after `calls`. */
  function After(cfg: Config, t0: real, calls: seq<Call>): State
  {
    if calls == [] then State(t0, map[])
    else
      var c := calls[|calls| - 1];
      Step(cfg, After(cfg, t0, calls[..|calls| - 1]), c.key, c.at).0
  }

  /** The answer the limiter gives to `c` when it comes after `calls`. */
  function Admits(cfg: Config, t0: real, calls: seq<Call>, c: Call): bool
  {
    Step(cfg, After(cfg, t0, calls), c.key, c.at).1
  }

  /** When the calls for `key` that were admitted happened. */
  function AdmittedTimes(cfg: Config, t0: real, calls: seq<Call>, key: string): seq<real>
  {
    if calls == [] then []
    else
      var before, c := calls[..|calls| - 1], calls[|calls| - 1];
      AdmittedTimes(cfg, t0, before, key)
      + if c.key == key && Admits(cfg, t0, before, c) then [c.at] else []
  }

  // ---- A limiter for one key that never evicts ----

  function OwnTimes(calls: seq<Call>, key: string): seq<real>
  {
    if calls == [] then []
    else
      var c := calls[|calls| - 1];
      OwnTimes(calls[..|calls| - 1], key) + if c.key == key then [c.at] else []
  }

  function SoloAfter(cfg: Config, times: seq<real>): Option<Bucket>
  {
    if times == [] then None
    else Some(Touch(cfg, SoloAfter(cfg, times[..|times| - 1]), times[|times| - 1]).0)
  }

  function SoloAdmits(cfg: Config, times: seq<real>, t: real): bool
  {
    Touch(cfg, SoloAfter(cfg, times), t).1
  }

  /** What the evicting limiter stores for `key` and what the other one stores differ only
      when the latter has been idle long enough to be reset anyway. */
  ghost predicate Agrees(cfg: Config, s: State, key: string, solo: Option<Bucket>, now: real) {
    Find(s, key) == solo || (key !in s.buckets && solo.Some? && now - solo.value.lastAccess >= cfg.idle)
  }

  lemma {:induction false} EvictionKeepsAgreement(cfg: Config, t0: real, calls: seq<Call>, key: string, now: real)
    requires Nondecreasing(t0, calls) && t0 <= now
    requires forall i :: 0 <= i < |calls| ==> calls[i].at <= now
    ensures Agrees(cfg, After(cfg, t0, calls), key, SoloAfter(cfg, OwnTimes(calls, key)), now)
  {
    if calls != [] {
      var before, c := calls[..|calls| - 1], calls[|calls| - 1];
      EvictionKeepsAgreement(cfg, t0, before, key, c.at);
      var s, solo := After(cfg, t0, before), SoloAfter(cfg, OwnTimes(before, key));
      assert Agrees(cfg, Evict(cfg, s, c.at), key, solo, c.at);
      if c.key == key {
        var own := OwnTimes(calls, key);
        assert own[..|own| - 1] == OwnTimes(before, key) && own[|own| - 1] == c.at;
      } else {
        assert OwnTimes(calls, key) == OwnTimes(before, key);
      }
    }
  }

  /** Eviction is invisible: with a nondecreasing clock every answer is the one a limiter that
      never evicts would give, and it depends only on the times of that key's own calls. */
  lemma EvictionInvisible(cfg: Config, t0: real, calls: seq<Call>, c: Call)
    requires Nondecreasing(t0, calls + [c])
    ensures Admits(cfg, t0, calls, c) == SoloAdmits(cfg, OwnTimes(calls, c.key), c.at)
  {
    assert (calls + [c])[|calls|] == c;
    assert forall i :: 0 <= i < |calls| ==> (calls + [c])[i] == calls[i];
    EvictionKeepsAgreement(cfg, t0, calls, c.key, c.at);
  }

  /** When the last call for a key was made. */
  function LastCall(calls: seq<Call>, key: string): Option<real>
  {
    var own := OwnTimes(calls, key);
    if own == [] then None else Some(own[|own| - 1])
  }

  /** What the limiter keeps of a key, and since when it has not looked for idle ones. */
  ghost predicate KeepsRecent(cfg: Config, t0: real, calls: seq<Call>, key: string) {
    var s := After(cfg, t0, calls);
    && (forall i :: 0 <= i < |calls| ==> calls[i].at - s.lastCleanup < CLEANUP_INTERVAL)
    && (key in s.buckets ==>
          && LastCall(calls, key) == Some(s.buckets[key].lastAccess)
          && s.lastCleanup - s.buckets[key].lastAccess < cfg.idle)
  }

  lemma {:induction false} IdleKeysKept(cfg: Config, t0: real, calls: seq<Call>, key: string)
    requires cfg.idle > 0.0 && Nondecreasing(t0, calls)
    ensures KeepsRecent(cfg, t0, calls, key)
  {
    if calls != [] {
      var before, c := calls[..|calls| - 1], calls[|calls| - 1];
      assert calls == before + [c];
      NondecreasingPrefix(t0, before, c);
      IdleKeysKept(cfg, t0, before, key);
      CleanupNotAfter(cfg, t0, before, c.at);
      OneMoreOwnCall(before, c, key);
      hide Gain, Nondecreasing, LastCall;
      StillRecent(cfg, t0, before, c, key);
    }
  }

  lemma StillRecent(cfg: Config, t0: real, before: seq<Call>, c: Call, key: string)
    requires cfg.idle > 0.0 && KeepsRecent(cfg, t0, before, key) && After(cfg, t0, before).lastCleanup <= c.at
    requires LastCall(before + [c], key) == if c.key == key then Some(c.at) else LastCall(before, key)
    ensures KeepsRecent(cfg, t0, before + [c], key)
  {
    assert (before + [c])[..|before|] == before;
    hide LastCall, Gain;
  }

  lemma {:induction false} CleanupNotAfter(cfg: Config, t0: real, calls: seq<Call>, now: real)
    requires Nondecreasing(t0, calls) && t0 <= now && forall i :: 0 <= i < |calls| ==> calls[i].at <= now
    ensures After(cfg, t0, calls).lastCleanup <= now
  {
    if calls != [] {
      var before, c := calls[..|calls| - 1], calls[|calls| - 1];
      assert calls == before + [c];
      NondecreasingPrefix(t0, before, c);
      CleanupNotAfter(cfg, t0, before, c.at);
    }
  }

  lemma OneMoreOwnCall(before: seq<Call>, c: Call, key: string)
    ensures LastCall(before + [c], key) == if c.key == key then Some(c.at) else LastCall(before, key)
  {
    assert (before + [c])[..|before|] == before;
    assert OwnTimes(before, key) + [] == OwnTimes(before, key);
  }

  /** Memory is bounded by recent use: after any call, the limiter keeps a key only if it was called less
      than the idle timeout and one cleanup interval before. */
  lemma IdleKeysForgotten(cfg: Config, t0: real, calls: seq<Call>, key: string)
    requires cfg.idle > 0.0 && Nondecreasing(t0, calls) && calls != []
    requires key in After(cfg, t0, calls).buckets
    ensures LastCall(calls, key).Some?
    ensures calls[|calls| - 1].at - LastCall(calls, key).value < cfg.idle + 60.0
  {
    IdleKeysKept(cfg, t0, calls, key);
    hide After, OwnTimes, Nondecreasing;
  }

  // ---- The window bound ----

  /** How many of `times` lie at or after `s`. */
  function Count(times: seq<real>, s: real): nat
  {
    if times == [] then 0
    else Count(times[..|times| - 1], s) + if times[|times| - 1] >= s then 1 else 0
  }

  /** One more event at `t` keeps every window [s, t] within burst + rate * (t - s) events. */
  ghost predicate FitsAllWindows(cfg: Config, admitted: seq<real>, t: real) {
    forall s: real :: s <= t ==>
      Count(admitted, s) as real + 1.0 <= cfg.burst as real + Gain(cfg.rate, t - s)
  }

  ghost predicate Ascending(times: seq<real>, bound: real) {
    && (forall i :: 0 <= i < |times| ==> times[i] <= bound)
    && (forall i, j :: 0 <= i < j < |times| ==> times[i] <= times[j])
  }

  /** The room left at `t` in the tightest window, given the admitted times. */
  function Level(cfg: Config, admitted: seq<real>, t: real): real
  {
    if admitted == [] then cfg.burst as real
    else
      var x := admitted[|admitted| - 1];
      Min(cfg.burst as real, Level(cfg, admitted[..|admitted| - 1], x) - 1.0 + Gain(cfg.rate, t - x))
  }

  lemma {:induction false} CountZero(times: seq<real>, s: real)
    requires forall i :: 0 <= i < |times| ==> times[i] < s
    ensures Count(times, s) == 0
  {
    if times != [] { CountZero(times[..|times| - 1], s); }
  }

  lemma RateSplit(r: real, a: real, b: real, c: real)
    ensures Gain(r, c - a) == Gain(r, b - a) + Gain(r, c - b)
  {
  }

  lemma NoGain(r: real)
    ensures Gain(r, 0.0) == 0.0
  {
  }

  lemma RateMonotone(r: real, a: real, b: real)
    requires r >= 0.0 && a <= b
    ensures a >= 0.0 ==> Gain(r, a) >= 0.0
    ensures Gain(r, a) <= Gain(r, b)
  {
  }

  lemma {:induction false} LevelBelowEveryWindow(cfg: Config, admitted: seq<real>, t: real, s: real)
    requires cfg.Valid() && Ascending(admitted, t) && s <= t
    ensures Level(cfg, admitted, t) <= cfg.burst as real + Gain(cfg.rate, t - s) - Count(admitted, s) as real
  {
    hide Gain;
    RateMonotone(cfg.rate, 0.0, t - s);
    if admitted != [] {
      var before, x := admitted[..|admitted| - 1], admitted[|admitted| - 1];
      if s <= x {
        LevelBelowEveryWindow(cfg, before, x, s);
        RateSplit(cfg.rate, s, x, t);
      } else {
        CountZero(admitted, s);
      }
    }
  }

  lemma {:induction false} LevelIsSomeWindow(cfg: Config, admitted: seq<real>, t: real) returns (s: real)
    requires cfg.Valid() && Ascending(admitted, t)
    ensures s <= t
    ensures Level(cfg, admitted, t) == cfg.burst as real + Gain(cfg.rate, t - s) - Count(admitted, s) as real
  {
    hide Gain;
    NoGain(cfg.rate);
    if admitted == [] {
      s := t;
    } else {
      var before, x := admitted[..|admitted| - 1], admitted[|admitted| - 1];
      LevelBelowEveryWindow(cfg, before, x, x);
      if Level(cfg, before, x) - 1.0 + Gain(cfg.rate, t - x) <= cfg.burst as real {
        s := LevelIsSomeWindow(cfg, before, x);
        RateSplit(cfg.rate, s, x, t);
      } else {
        s := t;
        CountZero(admitted, t);
      }
    }
  }

  lemma LevelDecides(cfg: Config, admitted: seq<real>, t: real)
    requires cfg.Valid() && Ascending(admitted, t)
    ensures Level(cfg, admitted, t) >= 1.0 <==> FitsAllWindows(cfg, admitted, t)
  {
    hide Gain;
    if Level(cfg, admitted, t) >= 1.0 {
      forall s: real | s <= t
        ensures Count(admitted, s) as real + 1.0 <= cfg.burst as real + Gain(cfg.rate, t - s)
      {
        LevelBelowEveryWindow(cfg, admitted, t, s);
      }
    } else {
      var s := LevelIsSomeWindow(cfg, admitted, t);
      assert !(Count(admitted, s) as real + 1.0 <= cfg.burst as real + Gain(cfg.rate, t - s));
    }
  }

  /** Admitted times of the never-evicting limiter. */
  function SoloAdmitted(cfg: Config, times: seq<real>): seq<real>
  {
    if times == [] then []
    else
      var before, t := times[..|times| - 1], times[|times| - 1];
      SoloAdmitted(cfg, before) + if SoloAdmits(cfg, before, t) then [t] else []
  }

  lemma {:induction false} SoloAdmittedAscending(cfg: Config, times: seq<real>, bound: real)
    requires Ascending(times, bound)
    ensures Ascending(SoloAdmitted(cfg, times), bound)
    ensures |SoloAdmitted(cfg, times)| <= |times|
  {
    if times != [] {
      SoloAdmittedAscending(cfg, times[..|times| - 1], times[|times| - 1]);
    }
  }

  lemma LevelLater(cfg: Config, admitted: seq<real>, u: real, t: real)
    requires cfg.Valid() && Ascending(admitted, u) && u <= t
    ensures Level(cfg, admitted, t) == Min(cfg.burst as real, Level(cfg, admitted, u) + Gain(cfg.rate, t - u))
  {
    hide Gain;
    RateMonotone(cfg.rate, 0.0, t - u);
    if admitted != [] {
      RateSplit(cfg.rate, admitted[|admitted| - 1], u, t);
    }
  }

  /** When an idle period refills a whole burst, the stored tokens are the level of the admitted times. */
  lemma {:induction false} TokensAreLevel(cfg: Config, times: seq<real>, bound: real)
    requires cfg.Valid() && Gain(cfg.rate, cfg.idle) >= cfg.burst as real && Ascending(times, bound)
    ensures times == [] <==> SoloAfter(cfg, times).None?
    ensures times != [] ==>
      var b, u := SoloAfter(cfg, times).value, times[|times| - 1];
      b.lastUpdate == b.lastAccess == u && b.tokens == Level(cfg, SoloAdmitted(cfg, times), u)
      && (b.tokens >= 0.0 || b.tokens == cfg.burst as real)
  {
    hide Gain;
    if times != [] {
      var before, u := times[..|times| - 1], times[|times| - 1];
      TokensAreLevel(cfg, before, u);
      RefreshedIsLevel(cfg, before, u);
      SoloAdmittedAscending(cfg, before, u);
      assert SoloAfter(cfg, times) == Some(Spend(Refreshed(cfg, SoloAfter(cfg, before), u)).0);
      assert SoloAdmits(cfg, before, u) == Spend(Refreshed(cfg, SoloAfter(cfg, before), u)).1;
      LevelAfterOne(cfg, SoloAdmitted(cfg, before), u);
      hide Ascending, Level, SoloAfter, Refreshed, SoloAdmits;
      assert SoloAdmitted(cfg, before) + [] == SoloAdmitted(cfg, before);
    }
  }

  /** Right after an admitted event the room is one less. */
  lemma LevelAfterOne(cfg: Config, admitted: seq<real>, u: real)
    requires cfg.Valid() && Ascending(admitted, u)
    ensures Level(cfg, admitted + [u], u) == Level(cfg, admitted, u) - 1.0
  {
    assert (admitted + [u])[..|admitted|] == admitted;
    LevelBelowEveryWindow(cfg, admitted, u, u);
    NoGain(cfg.rate);
    hide Gain;
  }

  lemma RefreshedIsLevel(cfg: Config, times: seq<real>, t: real)
    requires cfg.Valid() && Gain(cfg.rate, cfg.idle) >= cfg.burst as real && Ascending(times, t)
    requires times == [] <==> SoloAfter(cfg, times).None?
    requires times != [] ==>
      var b, u := SoloAfter(cfg, times).value, times[|times| - 1];
      b.lastUpdate == b.lastAccess == u && b.tokens == Level(cfg, SoloAdmitted(cfg, times), u)
      && (b.tokens >= 0.0 || b.tokens == cfg.burst as real)
    ensures Refreshed(cfg, SoloAfter(cfg, times), t) == Bucket(Level(cfg, SoloAdmitted(cfg, times), t), t, t)
    ensures var level := Level(cfg, SoloAdmitted(cfg, times), t); level >= 0.0 || level == cfg.burst as real
  {
    if times == [] {
      assert SoloAdmitted(cfg, times) == [];
      hide Gain, SoloAfter;
    } else {
      var u := times[|times| - 1];
      assert u <= t && Ascending(times, u);
      hide Gain, SoloAdmitted, SoloAfter, Level, Refreshed, Ascending;
      SoloAdmittedAscending(cfg, times, u);
      LevelLater(cfg, SoloAdmitted(cfg, times), u, t);
      LevelAtMostBurst(cfg, SoloAdmitted(cfg, times), u);
      RefreshFollowsLevel(cfg, SoloAfter(cfg, times).value, u, t, Level(cfg, SoloAdmitted(cfg, times), u),
                          Level(cfg, SoloAdmitted(cfg, times), t));
    }
  }

  lemma LevelAtMostBurst(cfg: Config, admitted: seq<real>, t: real)
    ensures Level(cfg, admitted, t) <= cfg.burst as real
  {
    hide Gain;
  }

  /** A bucket last touched at `u` with `level` tokens holds at `t` what the level has become by then:
      after an idle period, after a refill, and in the same instant. */
  lemma RefreshFollowsLevel(cfg: Config, b: Bucket, u: real, t: real, level: real, later: real)
    requires cfg.Valid() && Gain(cfg.rate, cfg.idle) >= cfg.burst as real && u <= t
    requires b == Bucket(level, u, u) && level <= cfg.burst as real && (level >= 0.0 || level == cfg.burst as real)
    requires later == Min(cfg.burst as real, level + Gain(cfg.rate, t - u))
    ensures Refreshed(cfg, Some(b), t) == Bucket(later, t, t)
    ensures later >= 0.0 || later == cfg.burst as real
  {
    hide Gain;
    NoGain(cfg.rate);
    RateMonotone(cfg.rate, 0.0, t - u);
    if t - u >= cfg.idle { RateMonotone(cfg.rate, cfg.idle, t - u); }
  }

  lemma SoloExact(cfg: Config, times: seq<real>, t: real)
    requires cfg.Valid() && Gain(cfg.rate, cfg.idle) >= cfg.burst as real && Ascending(times, t)
    ensures SoloAdmits(cfg, times, t) <==> FitsAllWindows(cfg, SoloAdmitted(cfg, times), t)
  {
    hide Gain;
    TokensAreLevel(cfg, times, t);
    RefreshedIsLevel(cfg, times, t);
    SoloAdmittedAscending(cfg, times, t);
    LevelDecides(cfg, SoloAdmitted(cfg, times), t);
  }

  lemma OneMoreOwn(cfg: Config, own: seq<real>, at: real)
    ensures SoloAdmitted(cfg, own + [at]) == SoloAdmitted(cfg, own) + if SoloAdmits(cfg, own, at) then [at] else []
  {
    hide SoloAdmits;
    assert (own + [at])[..|own|] == own;
  }

  lemma OneMoreCall(cfg: Config, t0: real, before: seq<Call>, c: Call, key: string)
    requires Nondecreasing(t0, before + [c])
    ensures OwnTimes(before + [c], key) == OwnTimes(before, key) + if c.key == key then [c.at] else []
    ensures AdmittedTimes(cfg, t0, before + [c], key)
      == AdmittedTimes(cfg, t0, before, key) + if c.key == key && SoloAdmits(cfg, OwnTimes(before, key), c.at) then [c.at] else []
  {
    assert (before + [c])[..|before|] == before;
    EvictionInvisible(cfg, t0, before, c);
    hide Admits, SoloAdmits, Nondecreasing;
  }

  lemma NondecreasingPrefix(t0: real, before: seq<Call>, c: Call)
    requires Nondecreasing(t0, before + [c])
    ensures Nondecreasing(t0, before) && forall i :: 0 <= i < |before| ==> before[i].at <= c.at
  {
    var calls := before + [c];
    assert calls[|before|] == c && forall i :: 0 <= i < |before| ==> calls[i] == before[i];
  }

  lemma AscendingMore(times: seq<real>, u: real, bound: real)
    requires Ascending(times, u) && u <= bound
    ensures Ascending(times, bound) && Ascending(times + [u], bound)
  {
  }

  lemma {:induction false} OwnTimesAscend(t0: real, calls: seq<Call>, key: string, bound: real)
    requires Nondecreasing(t0, calls) && forall i :: 0 <= i < |calls| ==> calls[i].at <= bound
    ensures Ascending(OwnTimes(calls, key), bound)
  {
    if calls != [] {
      var before, c := calls[..|calls| - 1], calls[|calls| - 1];
      assert calls == before + [c];
      NondecreasingPrefix(t0, before, c);
      OwnTimesAscend(t0, before, key, c.at);
      AscendingMore(OwnTimes(before, key), c.at, bound);
      assert OwnTimes(before, key) + [] == OwnTimes(before, key);
      hide Ascending, Nondecreasing;
    }
  }

  lemma {:induction false} AdmittedAreSolo(cfg: Config, t0: real, calls: seq<Call>, key: string)
    requires Nondecreasing(t0, calls)
    ensures AdmittedTimes(cfg, t0, calls, key) == SoloAdmitted(cfg, OwnTimes(calls, key))
  {
    if calls != [] {
      var before, c := calls[..|calls| - 1], calls[|calls| - 1];
      assert calls == before + [c];
      NondecreasingPrefix(t0, before, c);
      AdmittedAreSolo(cfg, t0, before, key);
      OneMoreCall(cfg, t0, before, c, key);
      OneMoreOwn(cfg, OwnTimes(before, key), c.at);
      hide SoloAdmits, SoloAdmitted, AdmittedTimes, OwnTimes, Nondecreasing;
      if c.key != key {
        assert OwnTimes(before, key) + [] == OwnTimes(before, key);
        assert AdmittedTimes(cfg, t0, before, key) + [] == AdmittedTimes(cfg, t0, before, key);
      }
    }
  }

  /** The limiter is an exact token bucket: it respects every window and refuses only when it must. */
  ghost predicate Exact(cfg: Config) {
    forall t0: real, calls: seq<Call>, c: Call :: Nondecreasing(t0, calls + [c]) ==>
      (Admits(cfg, t0, calls, c) <==> FitsAllWindows(cfg, AdmittedTimes(cfg, t0, calls, c.key), c.at))
  }

  lemma ExactWhenIdleRefills(cfg: Config, t0: real, calls: seq<Call>, c: Call)
    requires cfg.Valid() && Gain(cfg.rate, cfg.idle) >= cfg.burst as real
    requires Nondecreasing(t0, calls + [c])
    ensures Admits(cfg, t0, calls, c) <==> FitsAllWindows(cfg, AdmittedTimes(cfg, t0, calls, c.key), c.at)
  {
    hide Gain;
    assert (calls + [c])[|calls|] == c;
    assert forall i :: 0 <= i < |calls| ==> (calls + [c])[i] == calls[i];
    EvictionInvisible(cfg, t0, calls, c);
    OwnTimesAscend(t0, calls, c.key, c.at);
    AdmittedAreSolo(cfg, t0, calls, c.key);
    SoloExact(cfg, OwnTimes(calls, c.key), c.at);
  }

  // ---- Without the premise the bound fails ----

  /** `n` calls at time zero followed by `m` at the idle timeout. */
  function TwoBursts(cfg: Config, n: nat, m: nat): seq<Call>
  {
    seq(n, i => Call("k", 0.0)) + seq(m, i => Call("k", cfg.idle))
  }

  /** The state and the admitted calls of a run that has admitted everything so far. */
  ghost predicate AllAdmitted(cfg: Config, calls: seq<Call>, tokens: int, at: real) {
    && Count(AdmittedTimes(cfg, 0.0, calls, "k"), 0.0) == |calls|
    && Find(After(cfg, 0.0, calls), "k") == Some(Bucket(tokens as real, at, at))
  }

  /** One more call at `at` after a last one at `u`: it spends a stored token, or the first
      of a fresh burst once the idle timeout has passed. */
  lemma NextAdmitted(cfg: Config, calls: seq<Call>, tokens: int, u: real, at: real, left: int)
    requires cfg.Valid() && cfg.idle > 0.0 && 0.0 <= u <= at && left >= 0
    requires calls == [] || AllAdmitted(cfg, calls, tokens, u)
    requires calls != [] && u == at ==> tokens == left + 1
    requires calls != [] && u != at ==> at - u >= cfg.idle
    requires calls == [] || u != at ==> left == cfg.burst - 1
    ensures AllAdmitted(cfg, calls + [Call("k", at)], left, at)
    ensures Admits(cfg, 0.0, calls, Call("k", at))
  {
    hide Gain, Count, AdmittedTimes, Nondecreasing;
    var c := Call("k", at);
    var s := After(cfg, 0.0, calls);
    assert Step(cfg, s, "k", at).1 && Find(Step(cfg, s, "k", at).0, "k") == Some(Bucket(left as real, at, at)) by {
      hide After, AllAdmitted;
      if calls == [] { assert s == State(0.0, map[]) by { NothingYet(cfg); } }
      else { assert Find(s, "k") == Some(Bucket(tokens as real, u, u)) by { AllAdmittedState(cfg, calls, tokens, u); } }
    }
    AppendAdmitted(cfg, calls, c);
    if calls == [] {
      NothingYet(cfg);
    }
  }

  lemma AllAdmittedState(cfg: Config, calls: seq<Call>, tokens: int, at: real)
    requires AllAdmitted(cfg, calls, tokens, at)
    ensures Find(After(cfg, 0.0, calls), "k") == Some(Bucket(tokens as real, at, at))
  {
  }

  lemma AllAdmittedCount(cfg: Config, calls: seq<Call>, tokens: int, at: real)
    requires AllAdmitted(cfg, calls, tokens, at)
    ensures Count(AdmittedTimes(cfg, 0.0, calls, "k"), 0.0) == |calls|
  {
  }

  lemma NothingYet(cfg: Config)
    ensures Count(AdmittedTimes(cfg, 0.0, [], "k"), 0.0) == 0
    ensures After(cfg, 0.0, []) == State(0.0, map[])
  {
  }

  lemma {:induction false} TwoBurstsAdmitted(cfg: Config, n: nat, m: nat)
    requires cfg.Valid() && cfg.idle > 0.0 && 0 < n <= cfg.burst && m <= cfg.burst && (m > 0 ==> n == cfg.burst)
    ensures AllAdmitted(cfg, TwoBursts(cfg, n, m),
                        cfg.burst - (if m > 0 then m else n), if m > 0 then cfg.idle else 0.0)
    decreases n + m
  {
    hide Gain, Admits, AllAdmitted;
    if m > 0 {
      TwoBurstsAdmitted(cfg, n, m - 1);
      assert TwoBursts(cfg, n, m) == TwoBursts(cfg, n, m - 1) + [Call("k", cfg.idle)];
      NextAdmitted(cfg, TwoBursts(cfg, n, m - 1), cfg.burst - (if m > 1 then m - 1 else n),
        if m > 1 then cfg.idle else 0.0, cfg.idle, cfg.burst - m);
    } else if n > 1 {
      TwoBurstsAdmitted(cfg, n - 1, 0);
      assert TwoBursts(cfg, n, 0) == TwoBursts(cfg, n - 1, 0) + [Call("k", 0.0)];
      NextAdmitted(cfg, TwoBursts(cfg, n - 1, 0), cfg.burst - n + 1, 0.0, 0.0, cfg.burst - n);
    } else {
      assert TwoBursts(cfg, 1, 0) == [] + [Call("k", 0.0)];
      NextAdmitted(cfg, [], cfg.burst, 0.0, 0.0, cfg.burst - 1);
    }
  }

  lemma AppendAdmitted(cfg: Config, calls: seq<Call>, c: Call)
    requires c.key == "k" && c.at >= 0.0 && Admits(cfg, 0.0, calls, c)
    ensures Count(AdmittedTimes(cfg, 0.0, calls + [c], "k"), 0.0) == Count(AdmittedTimes(cfg, 0.0, calls, "k"), 0.0) + 1
    ensures After(cfg, 0.0, calls + [c]) == Step(cfg, After(cfg, 0.0, calls), c.key, c.at).0
  {
    hide Admits, Step;
    assert (calls + [c])[..|calls + [c]| - 1] == calls;
    var a := AdmittedTimes(cfg, 0.0, calls, "k");
    assert AdmittedTimes(cfg, 0.0, calls + [c], "k") == a + [c.at];
    assert (a + [c.at])[..|a + [c.at]| - 1] == a;
  }

  /** The configurations under which the limiter is exact are those where the idle timeout
      alone refills a whole burst. */
  lemma ExactIffIdleRefillsBurst(cfg: Config)
    requires cfg.Valid() && cfg.idle > 0.0
    ensures Exact(cfg) <==> Gain(cfg.rate, cfg.idle) >= cfg.burst as real
  {
    hide Gain;
    if Gain(cfg.rate, cfg.idle) >= cfg.burst as real {
      forall t0: real, calls: seq<Call>, c: Call | Nondecreasing(t0, calls + [c])
        ensures Admits(cfg, t0, calls, c) <==> FitsAllWindows(cfg, AdmittedTimes(cfg, t0, calls, c.key), c.at)
      {
        ExactWhenIdleRefills(cfg, t0, calls, c);
      }
    } else {
      BurstTooMany(cfg);
    }
  }

  /** The failing run: a burst, the idle timeout, another burst. */
  lemma BurstTooMany(cfg: Config)
    requires cfg.Valid() && cfg.idle > 0.0 && Gain(cfg.rate, cfg.idle) < cfg.burst as real
    ensures var calls, c := TwoBursts(cfg, cfg.burst, cfg.burst - 1), Call("k", cfg.idle);
      Nondecreasing(0.0, calls + [c]) && Admits(cfg, 0.0, calls, c)
      && !FitsAllWindows(cfg, AdmittedTimes(cfg, 0.0, calls, c.key), c.at)
  {
    hide Gain, Admits, Count, AdmittedTimes;
    RateMonotone(cfg.rate, 0.0, cfg.idle);
    var n := cfg.burst;
    var calls, c := TwoBursts(cfg, n, n - 1), Call("k", cfg.idle);
    TwoBurstsAdmitted(cfg, n, n - 1);
    NextAdmitted(cfg, calls, cfg.burst - (if n > 1 then n - 1 else n), if n > 1 then cfg.idle else 0.0, cfg.idle,
      if n > 1 then 0 else cfg.burst - 1);
    AllAdmittedCount(cfg, calls, cfg.burst - (if n > 1 then n - 1 else n), if n > 1 then cfg.idle else 0.0);
    var admitted := AdmittedTimes(cfg, 0.0, calls, "k");
    assert cfg.idle - 0.0 == cfg.idle;
    assert Count(admitted, 0.0) as real + 1.0 > cfg.burst as real + Gain(cfg.rate, cfg.idle - 0.0);
  }

  // ---- Without the premise the bound still holds between idle gaps ----

  /** No two consecutive calls in `times[from..]` are an idle timeout apart. */
  ghost predicate NoIdleGap(cfg: Config, times: seq<real>, from: nat) {
    forall i :: from < i < |times| ==> times[i] - times[i - 1] < cfg.idle
  }

  /** A refill over less than the idle timeout adds at most the gain of that time. */
  lemma RefillAtMostGain(cfg: Config, b: Bucket, t: real)
    requires cfg.Valid() && b.lastAccess == b.lastUpdate <= t && t - b.lastAccess < cfg.idle
    requires 0.0 <= b.tokens <= cfg.burst as real
    ensures var r := Touch(cfg, Some(b), t);
      0.0 <= r.0.tokens <= cfg.burst as real && r.0.lastAccess == r.0.lastUpdate == t
      && (if r.1 then 1.0 else 0.0) + r.0.tokens <= b.tokens + Gain(cfg.rate, t - b.lastAccess)
  {
    hide Gain;
    NoGain(cfg.rate);
    RateMonotone(cfg.rate, 0.0, t - b.lastAccess);
  }

  /** After the calls `times`, what is left in the bucket and what was admitted from place `from` on
      stay within one burst plus the gain since then. */
  ghost predicate WithinBudget(cfg: Config, times: seq<real>, from: nat)
    requires from < |times|
  {
    && SoloAfter(cfg, times).Some?
    && var b, t := SoloAfter(cfg, times).value, times[|times| - 1];
    && 0.0 <= b.tokens <= cfg.burst as real && b.lastAccess == b.lastUpdate == t
    && (|SoloAdmitted(cfg, times)| - |SoloAdmitted(cfg, times[..from])|) as real + b.tokens
       <= cfg.burst as real + Gain(cfg.rate, t - times[from])
  }

  lemma BudgetStart(cfg: Config, before: seq<real>, t: real)
    requires cfg.Valid() && cfg.burst >= 0 && Ascending(before + [t], t)
    ensures WithinBudget(cfg, before + [t], |before|)
  {
    var times := before + [t];
    assert times[..|before|] == before && times[|before|] == t;
    assert forall i :: 0 <= i < |before| ==> before[i] == times[i];
    TokensInRange(cfg, before, t);
    NoGain(cfg.rate);
    OneMoreOwn(cfg, before, t);
    hide Gain, Refreshed, SoloAdmitted, Ascending;
  }

  lemma BudgetStep(cfg: Config, before: seq<real>, from: nat, t: real)
    requires cfg.Valid() && from < |before| && WithinBudget(cfg, before, from)
    requires before[|before| - 1] <= t && t - before[|before| - 1] < cfg.idle
    ensures WithinBudget(cfg, before + [t], from)
  {
    var times := before + [t];
    assert times[..|before|] == before && times[..from] == before[..from] && times[from] == before[from];
    RefillAtMostGain(cfg, SoloAfter(cfg, before).value, t);
    RateSplit(cfg.rate, times[from], before[|before| - 1], t);
    OneMoreOwn(cfg, before, t);
    assert SoloAfter(cfg, times) == Some(Touch(cfg, SoloAfter(cfg, before), t).0);
    assert SoloAdmits(cfg, before, t) == Touch(cfg, SoloAfter(cfg, before), t).1;
    hide Gain, Touch, SoloAdmitted, SoloAfter, SoloAdmits;
  }

  lemma {:induction false} NoGapBudget(cfg: Config, times: seq<real>, from: nat)
    requires cfg.Valid() && cfg.burst >= 0 && from < |times| && Ascending(times, times[|times| - 1])
    requires NoIdleGap(cfg, times, from)
    ensures WithinBudget(cfg, times, from)
  {
    var before, t := times[..|times| - 1], times[|times| - 1];
    assert times == before + [t];
    if from == |before| {
      BudgetStart(cfg, before, t);
    } else {
      forall i | from < i < |before| ensures before[i] - before[i - 1] < cfg.idle {
        assert times[i] - times[i - 1] < cfg.idle;
      }
      hide WithinBudget;
      NoGapBudget(cfg, before, from);
      assert times[|before|] - times[|before| - 1] < cfg.idle;
      BudgetStep(cfg, before, from, t);
    }
  }

  lemma {:induction false} TokensInRange(cfg: Config, times: seq<real>, t: real)
    requires cfg.Valid() && cfg.burst >= 0 && Ascending(times, t)
    ensures var b := Refreshed(cfg, SoloAfter(cfg, times), t);
      0.0 <= b.tokens <= cfg.burst as real && b.lastAccess == b.lastUpdate == t
  {
    hide Gain;
    if times != [] {
      var u := times[|times| - 1];
      TokensInRange(cfg, times[..|times| - 1], u);
      RateMonotone(cfg.rate, 0.0, t - u);
    }
  }

  lemma AscendingToLast(times: seq<real>, bound: real)
    requires Ascending(times, bound) && times != []
    ensures Ascending(times, times[|times| - 1])
  {
    assert forall i :: 0 <= i < |times| - 1 ==> times[i] <= times[|times| - 1];
  }

  lemma {:induction false} OwnTimesOfPrefix(calls: seq<Call>, n: nat, key: string)
    requires n <= |calls|
    ensures IsPrefix(OwnTimes(calls[..n], key), OwnTimes(calls, key))
  {
    if n == |calls| {
      assert calls[..n] == calls;
    } else {
      assert calls[..|calls| - 1][..n] == calls[..n];
      OwnTimesOfPrefix(calls[..|calls| - 1], n, key);
    }
  }

  /** Whatever the idle timeout, a stretch of a key's calls without an idle gap admits at most
      burst + rate * length events. The stretch is what comes after the first `n` calls. */
  lemma WindowBoundBetweenIdleGaps(cfg: Config, t0: real, calls: seq<Call>, key: string, n: nat)
    requires cfg.Valid() && cfg.burst >= 0 && Nondecreasing(t0, calls) && n <= |calls|
    requires |OwnTimes(calls[..n], key)| < |OwnTimes(calls, key)|
    requires NoIdleGap(cfg, OwnTimes(calls, key), |OwnTimes(calls[..n], key)|)
    ensures var times, from := OwnTimes(calls, key), |OwnTimes(calls[..n], key)|;
      (|AdmittedTimes(cfg, t0, calls, key)| - |AdmittedTimes(cfg, t0, calls[..n], key)|) as real
      <= cfg.burst as real + Gain(cfg.rate, times[|times| - 1] - times[from])
  {
    hide Gain, Nondecreasing, SoloAdmitted, AdmittedTimes, OwnTimes, Ascending, NoIdleGap;
    StretchOfOwnTimes(cfg, t0, calls, key, n);
    NoGapBound(cfg, OwnTimes(calls, key), |OwnTimes(calls[..n], key)|);
  }

  lemma NoGapBound(cfg: Config, times: seq<real>, from: nat)
    requires cfg.Valid() && cfg.burst >= 0 && from < |times| && Ascending(times, times[|times| - 1])
    requires NoIdleGap(cfg, times, from)
    ensures (|SoloAdmitted(cfg, times)| - |SoloAdmitted(cfg, times[..from])|) as real
            <= cfg.burst as real + Gain(cfg.rate, times[|times| - 1] - times[from])
  {
    NoGapBudget(cfg, times, from);
    hide Gain, SoloAdmitted, SoloAfter, Ascending, NoIdleGap;
  }

  lemma StretchOfOwnTimes(cfg: Config, t0: real, calls: seq<Call>, key: string, n: nat)
    requires Nondecreasing(t0, calls) && n <= |calls| && OwnTimes(calls, key) != []
    ensures var times, from := OwnTimes(calls, key), |OwnTimes(calls[..n], key)|;
      && from <= |times| && Ascending(times, times[|times| - 1])
      && AdmittedTimes(cfg, t0, calls, key) == SoloAdmitted(cfg, times)
      && AdmittedTimes(cfg, t0, calls[..n], key) == SoloAdmitted(cfg, times[..from])
  {
    assert calls != [];
    hide AdmittedTimes, SoloAdmitted, Ascending, Nondecreasing, OwnTimes;
    OwnTimesOfPrefix(calls, n, key);
    AdmittedAreSolo(cfg, t0, calls, key);
    NondecreasingTake(t0, calls, n);
    AdmittedAreSolo(cfg, t0, calls[..n], key);
    OwnTimesAscend(t0, calls, key, calls[|calls| - 1].at);
    AscendingToLast(OwnTimes(calls, key), calls[|calls| - 1].at);
  }

  lemma NondecreasingTake(t0: real, calls: seq<Call>, n: nat)
    requires Nondecreasing(t0, calls) && n <= |calls|
    ensures Nondecreasing(t0, calls[..n])
    ensures forall i :: 0 <= i < |calls| ==> calls[i].at <= calls[|calls| - 1].at
  {
  }
}
