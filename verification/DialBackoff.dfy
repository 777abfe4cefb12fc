/** Dial backoff of `libp2p/dial_backoff.nim`: the growing wait of a key that keeps failing, and the capped
    table it is kept in. Times are integers of nanoseconds. */
module DialBackoff {
  import opened Basics

  const MAX_BACKOFF_ENTRIES := 1024

  datatype Config = Config(tolerance: int, base: int, factor: int, maxDelay: int)

  datatype Entry = Entry(failures: int, until: int)

  function Pow(b: int, n: nat): int {
    if n == 0 then 1 else b * Pow(b, n - 1)
  }

  function Min(a: int, b: int): int {
    if a <= b then a else b
  }

  /** The wait after a number of consecutive failures. */
  function DelayAfter(c: Config, failures: int): int {
    if failures <= c.tolerance || c.base <= 0 || c.maxDelay <= 0 then 0
    else if c.factor <= 1 then Min(c.base, c.maxDelay)
    else Min(c.base * Pow(c.factor, failures - c.tolerance - 1), c.maxDelay)
  }

  lemma {:induction false} PowStep(base: int, factor: int, n: nat)
    ensures base * Pow(factor, n + 1) == base * Pow(factor, n) * factor
  {
    var p := Pow(factor, n);
    assert base * (factor * p) == base * p * factor;
  }

  lemma {:induction false} PowPositive(factor: int, n: nat)
    requires factor >= 1
    ensures Pow(factor, n) >= 1
  {
    if n > 0 {
      PowPositive(factor, n - 1);
      assert factor * Pow(factor, n - 1) >= 1 * 1;
    }
  }

  /** Once over the ceiling, the wait stays over it. */
  lemma {:induction false} StaysAbove(base: int, factor: int, k: nat, n: nat, cap: int)
    requires base >= 1 && factor >= 1 && k <= n
    requires base * Pow(factor, k) > cap >= 0
    ensures base * Pow(factor, n) > cap
    decreases n - k
  {
    if k < n {
      PowStep(base, factor, k);
      assert base * Pow(factor, k) * factor >= base * Pow(factor, k);
      StaysAbove(base, factor, k + 1, n, cap);
    }
  }

  lemma {:induction false} DividesOver(delay: int, cap: int, factor: int)
    requires delay >= 0 && cap >= 0 && factor >= 1
    ensures delay > cap / factor <==> delay * factor > cap
  {
    var q, r := cap / factor, cap % factor;
    assert cap == q * factor + r && 0 <= r < factor;
    if delay > q {
      assert delay * factor >= (q + 1) * factor;
    } else {
      assert delay * factor <= q * factor;
    }
  }

  /** The uncapped wait after `k` raises. */
  function Raised(c: Config, k: nat): int {
    c.base * Pow(c.factor, k)
  }

  lemma {:induction false} RaisedStep(c: Config, k: nat)
    requires c.base >= 1 && c.factor >= 2
    ensures Raised(c, k) >= 1
    ensures Raised(c, k + 1) == Raised(c, k) * c.factor
    ensures Raised(c, 0) == c.base
  {
    PowPositive(c.factor, k);
    PowStep(c.base, c.factor, k);
    assert c.base * Pow(c.factor, k) >= 1 * 1;
  }

  /** `delay`. `peak` is the largest product computed on the way: it never passes the ceiling. */
  method Delay(c: Config, failures: int) returns (r: int, ghost peak: int)
    ensures r == DelayAfter(c, failures)
    ensures failures <= c.tolerance || c.base <= 0 || c.maxDelay <= 0 ==> r == 0
    ensures failures > c.tolerance && c.base > 0 && c.maxDelay > 0 && c.factor <= 1 ==> r == Min(c.base, c.maxDelay)
    ensures failures > c.tolerance && c.base > 0 && c.maxDelay > 0 && c.factor > 1 ==>
              r == Min(c.base * Pow(c.factor, failures - c.tolerance - 1), c.maxDelay)
    ensures 0 <= r && (r > 0 ==> r <= c.maxDelay)
    ensures c.maxDelay > 0 ==> peak <= c.maxDelay
  {
    hide Raised, Pow;
    peak := 0;
    if failures <= c.tolerance {
      return 0, 0;
    }
    if c.base <= 0 || c.maxDelay <= 0 {
      return 0, 0;
    }
    if c.factor <= 1 {
      return Min(c.base, c.maxDelay), 0;
    }
    var n := failures - c.tolerance;
    r := c.base;
    RaisedStep(c, 0);
    var i := 1;
    while i < n
      invariant 1 <= i <= n
      invariant r == Raised(c, i - 1) && r >= 1
      invariant peak <= c.maxDelay
    {
      DividesOver(r, c.maxDelay, c.factor);
      RaisedStep(c, i - 1);
      RaisedStep(c, i);
      if r > c.maxDelay / c.factor {
        RaisedStaysAbove(c, i, n - 1);
        return c.maxDelay, peak;
      }
      r := r * c.factor;
      peak := r;
      i := i + 1;
    }
    RaisedIs(c, n - 1);
    r := Min(r, c.maxDelay);
  }

  lemma {:induction false} RaisedIs(c: Config, k: nat)
    ensures Raised(c, k) == c.base * Pow(c.factor, k)
  {
  }

  lemma {:induction false} RaisedStaysAbove(c: Config, k: nat, n: nat)
    requires c.base >= 1 && c.factor >= 2 && k <= n
    requires Raised(c, k) > c.maxDelay >= 0
    ensures c.base * Pow(c.factor, n) > c.maxDelay
  {
    StaysAbove(c.base, c.factor, k, n, c.maxDelay);
  }

  /** The wait never shrinks as failures add up, and never passes the ceiling. */
  lemma {:induction false} DelayGrows(c: Config, f: int, g: int)
    requires f <= g
    ensures 0 <= DelayAfter(c, f) <= DelayAfter(c, g)
    ensures DelayAfter(c, g) <= if c.maxDelay > 0 then c.maxDelay else 0
  {
    if f > c.tolerance && c.base > 0 && c.maxDelay > 0 && c.factor > 1 {
      var k, n := f - c.tolerance - 1, g - c.tolerance - 1;
      PowPositive(c.factor, k);
      PowPositive(c.factor, n);
      assert c.base * Pow(c.factor, k) >= 1 && c.base * Pow(c.factor, n) >= 1;
      StaysAbove(c.base, c.factor, k, n, c.base * Pow(c.factor, k) - 1);
    } else if g > c.tolerance && c.base > 0 && c.maxDelay > 0 && c.factor > 1 {
      PowPositive(c.factor, g - c.tolerance - 1);
      assert c.base * Pow(c.factor, g - c.tolerance - 1) >= 1;
    }
  }

  /** An entry that has blocked nothing for a whole `maxDelay`. */
  predicate Decayed(c: Config, e: Entry, now: int) {
    e.until + c.maxDelay <= now
  }

  function Ceiling(c: Config): int {
    if c.maxDelay > 0 then c.maxDelay else 0
  }

  /** Takes a part of any wait. */
  ghost predicate IsJitter(jittered: int -> int) {
    forall d :: d >= 0 ==> 0 <= jittered(d) <= d
  }

  /** What happened to a table: a failure of a key with the wait it drew, a success, or keys that made way. */
  datatype Event<K> =
    | FailedAt(key: K, now: int, jittered: int -> int, until: int)
    | Succeeded(key: K)
    | Dropped(keys: set<K>)

  /** The end of the key's last wait. */
  ghost function LastUntil<K(!new)>(h: seq<Event<K>>, key: K): int {
    if h == [] then 0
    else
      var e := h[|h| - 1];
      if e.FailedAt? && e.key == key then e.until else LastUntil(h[..|h| - 1], key)
  }

  /** The failures of a key since its last success, since it made way, or since a whole `maxDelay` went by after
      its wait. */
  ghost function Streak<K(!new)>(c: Config, h: seq<Event<K>>, key: K): nat {
    if h == [] then 0
    else
      var front, e := h[..|h| - 1], h[|h| - 1];
      match e
      case FailedAt(k, now, _, _) =>
        if k != key then Streak(c, front, key)
        else if LastUntil(front, key) + c.maxDelay <= now then 1
        else Streak(c, front, key) + 1
      case Succeeded(k) => if k == key then 0 else Streak(c, front, key)
      case Dropped(keys) => if key in keys then 0 else Streak(c, front, key)
  }

  /** The table holds exactly the keys with a streak, each with its count and the end of its wait. */
  ghost predicate Tracks<K(!new)>(c: Config, entries: map<K, Entry>, h: seq<Event<K>>) {
    forall k :: (k in entries <==> Streak(c, h, k) > 0) &&
                (k in entries ==> entries[k] == Entry(Streak(c, h, k), LastUntil(h, k)))
  }

  /** The n-th failure of a streak waits what it drew of `base * factor^(n - tolerance - 1)`, or of `maxDelay`. */
  ghost predicate Pays<K(!new)>(c: Config, e: Event<K>, n: int)
    requires e.FailedAt?
  {
    if n <= c.tolerance || c.base <= 0 || c.maxDelay <= 0 then e.until == e.now + e.jittered(0)
    else if c.factor <= 1 then e.until == e.now + e.jittered(Min(c.base, c.maxDelay))
    else e.until == e.now + e.jittered(Min(c.base * Pow(c.factor, n - c.tolerance - 1), c.maxDelay))
  }

  /** Keys make way only for the failure of a new key in a full table: all whose last wait ended a `maxDelay`
      ago, or without one of those a key whose wait ends first. */
  ghost predicate MakeWay<K(!new)>(c: Config, entries: map<K, Entry>, keys: set<K>, now: int) {
    && |entries| == MAX_BACKOFF_ENTRIES && keys != {}
    && if exists k :: k in entries && entries[k].until + c.maxDelay <= now
       then forall k :: k in keys <==> k in entries && entries[k].until + c.maxDelay <= now
       else exists s :: Soonest(entries, s) && keys == {s}
  }

  /** Every wait is the one its place in the streak asks for. */
  ghost predicate Waits<K(!new)>(c: Config, h: seq<Event<K>>) {
    forall i :: 0 <= i < |h| && h[i].FailedAt? ==>
      h[i].now <= h[i].until <= h[i].now + Ceiling(c) && Pays(c, h[i], Streak(c, h[..i + 1], h[i].key))
  }

  /** Keys made way only for a new key that failed next, and only as the full table of that time has it. */
  ghost predicate Drops<K(!new)>(c: Config, h: seq<Event<K>>) {
    forall i :: 0 <= i < |h| && h[i].Dropped? ==>
      && i + 1 < |h| && h[i + 1].FailedAt? && Streak(c, h[..i], h[i + 1].key) == 0
      && exists entries :: Tracks(c, entries, h[..i]) && MakeWay(c, entries, h[i].keys, h[i + 1].now)
  }

  /** The calls behind the events. */
  ghost function Calls<K(!new)>(h: seq<Event<K>>): seq<Op<K>> {
    if h == [] then []
    else
      Calls(h[..|h| - 1]) +
      match h[|h| - 1]
      case FailedAt(key, now, jittered, _) => [Failure(key, now, jittered)]
      case Succeeded(key) => [Success(key)]
      case Dropped(_) => []
  }

  lemma {:induction false} OneEvent<K(!new)>(c: Config, h: seq<Event<K>>, e: Event<K>, key: K)
    ensures LastUntil(h + [e], key) == if e.FailedAt? && e.key == key then e.until else LastUntil(h, key)
    ensures Streak(c, h + [e], key) ==
            match e
            case FailedAt(k, now, _, _) =>
              (if k != key then Streak(c, h, key)
               else if LastUntil(h, key) + c.maxDelay <= now then 1
               else Streak(c, h, key) + 1)
            case Succeeded(k) => (if k == key then 0 else Streak(c, h, key))
            case Dropped(keys) => if key in keys then 0 else Streak(c, h, key)
  {
    assert (h + [e])[..|h + [e]| - 1] == h;
  }

  lemma {:induction false} OneCall<K(!new)>(h: seq<Event<K>>, e: Event<K>)
    ensures e.FailedAt? ==> Calls(h + [e]) == Calls(h) + [Failure(e.key, e.now, e.jittered)]
    ensures e.Succeeded? ==> Calls(h + [e]) == Calls(h) + [Success(e.key)]
    ensures e.Dropped? ==> Calls(h + [e]) == Calls(h)
  {
    assert (h + [e])[..|h + [e]| - 1] == h;
  }

  lemma {:induction false} TracksDrop<K(!new)>(c: Config, entries: map<K, Entry>, h: seq<Event<K>>, keys: set<K>)
    requires Tracks(c, entries, h)
    ensures Tracks(c, entries - keys, h + [Dropped(keys)])
  {
    hide Streak, LastUntil;
    forall k
      ensures Streak(c, h + [Dropped(keys)], k) == if k in keys then 0 else Streak(c, h, k)
      ensures LastUntil(h + [Dropped(keys)], k) == LastUntil(h, k)
    {
      OneEvent(c, h, Dropped(keys), k);
    }
  }

  lemma {:induction false} TracksSuccess<K(!new)>(c: Config, entries: map<K, Entry>, h: seq<Event<K>>, key: K)
    requires Tracks(c, entries, h)
    ensures Tracks(c, entries - {key}, h + [Succeeded(key)])
  {
    hide Streak, LastUntil;
    forall k
      ensures Streak(c, h + [Succeeded(key)], k) == if k == key then 0 else Streak(c, h, k)
      ensures LastUntil(h + [Succeeded(key)], k) == LastUntil(h, k)
    {
      OneEvent(c, h, Succeeded(key), k);
    }
  }

  lemma {:induction false} TracksFailure<K(!new)>(
    c: Config, entries: map<K, Entry>, h: seq<Event<K>>, key: K, now: int, jittered: int -> int, entry: Entry)
    requires Tracks(c, entries, h)
    requires entry.failures == if key in entries && entries[key].until + c.maxDelay > now then entries[key].failures + 1 else 1
    ensures var e := FailedAt(key, now, jittered, entry.until);
            Tracks(c, entries[key := entry], h + [e]) && Streak(c, h + [e], key) == entry.failures
  {
    hide Streak, LastUntil;
    var e := FailedAt(key, now, jittered, entry.until);
    OneEvent(c, h, e, key);
    forall k | k != key
      ensures Streak(c, h + [e], k) == Streak(c, h, k) && LastUntil(h + [e], k) == LastUntil(h, k)
    {
      OneEvent(c, h, e, k);
    }
  }

  lemma {:induction false} WaitsMore<K(!new)>(c: Config, h: seq<Event<K>>, e: Event<K>)
    requires Waits(c, h)
    requires e.FailedAt? ==> e.now <= e.until <= e.now + Ceiling(c) && Pays(c, e, Streak(c, h + [e], e.key))
    ensures Waits(c, h + [e])
  {
    hide Pays, Streak;
    var g := h + [e];
    forall i | 0 <= i < |g| && g[i].FailedAt?
      ensures g[i].now <= g[i].until <= g[i].now + Ceiling(c) && Pays(c, g[i], Streak(c, g[..i + 1], g[i].key))
    {
      if i < |h| {
        assert g[i] == h[i] && g[..i + 1] == h[..i + 1];
      } else {
        assert g[..i + 1] == g;
      }
    }
  }

  lemma {:induction false} DropsMore<K(!new)>(c: Config, h: seq<Event<K>>, e: Event<K>)
    requires Drops(c, h) && !e.Dropped?
    ensures Drops(c, h + [e])
  {
    hide Streak, Tracks, MakeWay;
    var g := h + [e];
    forall i | 0 <= i < |g| && g[i].Dropped?
      ensures i + 1 < |g| && g[i + 1].FailedAt? && Streak(c, g[..i], g[i + 1].key) == 0
      ensures exists entries :: Tracks(c, entries, g[..i]) && MakeWay(c, entries, g[i].keys, g[i + 1].now)
    {
      assert h[i].Dropped? && g[i + 1] == h[i + 1] && g[..i] == h[..i];
    }
  }

  lemma {:induction false} DropsOnce<K(!new)>(c: Config, h: seq<Event<K>>, entries: map<K, Entry>, keys: set<K>, e: Event<K>)
    requires Drops(c, h) && Tracks(c, entries, h)
    requires e.FailedAt? && e.key !in entries && MakeWay(c, entries, keys, e.now)
    ensures Drops(c, h + [Dropped(keys)] + [e])
  {
    hide Streak, MakeWay, Tracks;
    var g := h + [Dropped(keys)] + [e];
    assert Streak(c, h, e.key) == 0 by {
      NoStreak(c, entries, h, e.key);
    }
    assert g[..|h|] == h && g[|h|] == Dropped(keys) && g[|h| + 1] == e;
    forall i | 0 <= i < |g| && g[i].Dropped?
      ensures i + 1 < |g| && g[i + 1].FailedAt? && Streak(c, g[..i], g[i + 1].key) == 0
      ensures exists entries :: Tracks(c, entries, g[..i]) && MakeWay(c, entries, g[i].keys, g[i + 1].now)
    {
      if i < |h| {
        assert h[i].Dropped? && g[i + 1] == h[i + 1] && g[..i] == h[..i];
      }
    }
  }

  lemma {:induction false} NoStreak<K(!new)>(c: Config, entries: map<K, Entry>, h: seq<Event<K>>, key: K)
    requires Tracks(c, entries, h) && key !in entries
    ensures Streak(c, h, key) == 0
  {
  }

  /** A key in the table waits until no later than the ceiling after its last failure. */
  lemma {:induction false} LastFailure<K(!new)>(c: Config, h: seq<Event<K>>, key: K) returns (i: nat)
    requires Waits(c, h) && Streak(c, h, key) > 0
    ensures i < |h| && h[i].FailedAt? && h[i].key == key
    ensures forall j :: i < j < |h| ==> !(h[j].FailedAt? && h[j].key == key)
    ensures LastUntil(h, key) == h[i].until <= h[i].now + Ceiling(c)
    decreases |h|
  {
    hide Pays;
    var front, e := h[..|h| - 1], h[|h| - 1];
    if e.FailedAt? && e.key == key {
      i := |h| - 1;
    } else {
      assert Waits(c, front) by {
        assert forall j :: 0 <= j < |front| ==> front[j] == h[j] && front[..j + 1] == h[..j + 1];
      }
      i := LastFailure(c, front, key);
    }
  }

  /** One of the two tables. */
  class BackoffTable<K(==,!new)> {
    const config: Config
    var entries: map<K, Entry>
    ghost var history: seq<Event<K>>

    ghost predicate Valid()
      reads this
    {
      && |entries| <= MAX_BACKOFF_ENTRIES
      && Tracks(config, entries, history) && Waits(config, history) && Drops(config, history)
    }

    constructor (c: Config)
      ensures Valid() && entries == map[] && history == [] && config == c
    {
      config := c;
      entries, history := map[], [];
    }

    /** The keys whose entries have blocked nothing for a whole `maxDelay`. */
    method Stale(now: int) returns (stale: seq<K>)
      ensures forall k :: k in stale <==> k in entries && entries[k].until + config.maxDelay <= now
    {
      stale := [];
      var todo := entries.Keys;
      while todo != {}
        invariant todo <= entries.Keys
        invariant forall k :: k in stale <==> k in entries && k !in todo && entries[k].until + config.maxDelay <= now
        decreases |todo|
      {
        var k :| k in todo;
        if Decayed(config, entries[k], now) {
          stale := stale + [k];
        }
        todo := todo - {k};
      }
    }

    /** Drops exactly the stale entries. */
    method Prune(now: int)
      modifies this`entries
      ensures forall k :: k in entries <==> k in old(entries) && old(entries)[k].until + config.maxDelay > now
      ensures forall k :: k in entries ==> entries[k] == old(entries)[k]
    {
      ghost var was := entries;
      var stale := Stale(now);
      for i := 0 to |stale|
        invariant forall k :: k in entries <==> k in was && k !in stale[..i]
        invariant forall k :: k in entries ==> entries[k] == was[k]
      {
        assert stale[..i + 1] == stale[..i] + [stale[i]];
        entries := entries - {stale[i]};
      }
      assert stale[..|stale|] == stale;
    }

    /** The entry whose wait ends first goes; an empty table stays empty. */
    method EvictSoonest()
      modifies this`entries
      ensures old(entries) == map[] ==> entries == map[]
      ensures old(entries) != map[] ==>
                exists s :: Soonest(old(entries), s) && entries == old(entries) - {s}
    {
      var soonest: Option<K> := None;
      var todo := entries.Keys;
      while todo != {}
        invariant todo <= entries.Keys
        invariant soonest.None? ==> todo == entries.Keys
        invariant soonest.Some? ==>
                    soonest.value in entries &&
                    forall k :: k in entries && k !in todo ==> entries[soonest.value].until <= entries[k].until
        decreases |todo|
      {
        var k :| k in todo;
        if soonest.None? || entries[k].until < entries[soonest.value].until {
          soonest := Some(k);
        }
        todo := todo - {k};
      }
      if soonest.Some? {
        assert Soonest(entries, soonest.value);
        entries := entries - {soonest.value};
      }
    }

    /** Makes room for a new key: stale entries go first, else the one that ends soonest. */
    method MakeRoom(now: int) returns (ghost gone: set<K>)
      requires |entries| == MAX_BACKOFF_ENTRIES
      modifies this`entries
      ensures MakeWay(config, old(entries), gone, now)
      ensures entries == old(entries) - gone && |entries| < MAX_BACKOFF_ENTRIES
    {
      hide Soonest, MakeWay;
      ghost var was := entries;
      Prune(now);
      ghost var left := entries;
      Pruned(config, was, left, now);
      gone := was.Keys - left.Keys;
      if |entries| >= MAX_BACKOFF_ENTRIES {
        EvictSoonest();
        ghost var s :| Soonest(left, s) && entries == left - {s};
        gone := {s};
        Evicted(config, was, s, now);
      }
    }

    /** `countFailure`; the jitter takes any part of the wait. The keys in `gone` made way. */
    method CountFailure(key: K, now: int, jittered: int -> int) returns (ghost gone: set<K>)
      requires Valid()
      requires IsJitter(jittered)
      modifies this
      ensures Valid()
      ensures key in entries
      ensures history == old(history) + (if gone == {} then [] else [Dropped(gone)]) +
                         [FailedAt(key, now, jittered, entries[key].until)]
      ensures gone == {} <==> key in old(entries) || |old(entries)| < MAX_BACKOFF_ENTRIES
      ensures gone != {} ==> MakeWay(config, old(entries), gone, now)
      ensures entries[key].failures ==
              if key in old(entries) && old(entries)[key].until + config.maxDelay > now
              then old(entries)[key].failures + 1 else 1
      ensures Pays(config, FailedAt(key, now, jittered, entries[key].until), entries[key].failures)
      ensures forall k :: k != key ==> (k in entries <==> k in old(entries) && k !in gone)
      ensures forall k :: k != key && k in entries ==> entries[k] == old(entries)[k]
    {
      hide DelayAfter, MakeWay, Tracks, Waits, Drops, Pow, Pays;
      gone := {};
      ghost var was := entries;
      ghost var h := history;
      if |entries| >= MAX_BACKOFF_ENTRIES && key !in entries {
        gone := MakeRoom(now);
        WayIsMade(config, was, gone, now);
        TracksDrop(config, was, h, gone);
        WaitsMore(config, h, Dropped(gone));
        h := h + [Dropped(gone)];
      }
      ghost var kept := entries;
      var entry := if key in entries then entries[key] else Entry(0, now);
      if Decayed(config, entry, now) {
        entry := Entry(0, now);
      }
      entry := entry.(failures := entry.failures + 1);
      var delay, _ := Delay(config, entry.failures);
      DelayGrows(config, entry.failures, entry.failures);
      entry := entry.(until := now + jittered(delay));
      ghost var e := FailedAt(key, now, jittered, entry.until);
      PaysFor(config, e, entry.failures, delay);
      TracksFailure(config, kept, h, key, now, jittered, entry);
      WaitsMore(config, h, e);
      OneMore(kept, key, entry);
      if gone == {} {
        DropsMore(config, history, e);
      } else {
        DropsOnce(config, history, was, gone, e);
      }
      entries := entries[key := entry];
      history := h + [e];
    }

    method RecordSuccess(key: K)
      requires Valid()
      modifies this
      ensures Valid()
      ensures entries == old(entries) - {key}
      ensures history == old(history) + [Succeeded(key)]
    {
      hide Tracks, Waits, Drops;
      ghost var was := entries;
      entries := entries - {key};
      assert entries.Keys <= was.Keys;
      KeptCount(was, entries);
      TracksSuccess(config, was, history, key);
      WaitsMore(config, history, Succeeded(key));
      DropsMore(config, history, Succeeded(key));
      history := history + [Succeeded(key)];
    }

    /** `blockedIn`: exactly while the wait of the key's last failure lasts, in a streak that still counts; `i`
        is that failure. */
    method Blocked(key: K, now: int) returns (blocked: bool, ghost i: nat)
      requires Valid()
      ensures blocked <==> Streak(config, history, key) > 0 && LastUntil(history, key) > now
      ensures blocked ==>
                && i < |history| && history[i].FailedAt? && history[i].key == key
                && (forall j :: i < j < |history| ==> !(history[j].FailedAt? && history[j].key == key))
                && now < history[i].until <= history[i].now + Ceiling(config)
    {
      hide Waits, Drops, Streak, LastUntil;
      blocked := key in entries && entries[key].until > now;
      i := 0;
      if blocked {
        i := LastFailure(config, history, key);
      }
    }
  }

  /** No entry ends before this one. */
  ghost predicate Soonest<K(!new)>(entries: map<K, Entry>, s: K) {
    s in entries && forall k :: k in entries ==> entries[s].until <= entries[k].until
  }

  lemma {:induction false} PaysFor<K(!new)>(c: Config, e: Event<K>, n: int, delay: int)
    requires e.FailedAt? && delay == DelayAfter(c, n) && e.until == e.now + e.jittered(delay)
    ensures Pays(c, e, n)
  {
    hide Pow;
  }

  /** Only keys of the table make way. */
  lemma {:induction false} WayIsMade<K(!new)>(c: Config, entries: map<K, Entry>, keys: set<K>, now: int)
    requires MakeWay(c, entries, keys, now)
    ensures keys != {} && keys <= entries.Keys
  {
  }

  lemma {:induction false} OneLess<K(!new)>(entries: map<K, Entry>, s: K)
    requires s in entries
    ensures |entries - {s}| == |entries| - 1
  {
    var r := entries - {s};
    assert r.Keys == entries.Keys - {s};
    assert |r| == |r.Keys| && |entries| == |entries.Keys|;
  }

  lemma {:induction false} Pruned<K(!new)>(c: Config, was: map<K, Entry>, left: map<K, Entry>, now: int)
    requires |was| == MAX_BACKOFF_ENTRIES
    requires forall k :: k in left <==> k in was && was[k].until + c.maxDelay > now
    requires forall k :: k in left ==> left[k] == was[k]
    ensures left == was - (was.Keys - left.Keys)
    ensures |left| < |was| ==> MakeWay(c, was, was.Keys - left.Keys, now)
    ensures |left| >= |was| ==> left == was && left != map[]
  {
    KeptCount(was, left);
    var gone := was.Keys - left.Keys;
    if |left| < |was| {
      assert gone == {} ==> left == was;
      var k :| k in gone;
      assert k in was && was[k].until + c.maxDelay <= now;
    }
  }

  lemma {:induction false} Evicted<K(!new)>(c: Config, was: map<K, Entry>, s: K, now: int)
    requires |was| == MAX_BACKOFF_ENTRIES && Soonest(was, s)
    requires forall k :: k in was ==> was[k].until + c.maxDelay > now
    ensures MakeWay(c, was, {s}, now) && |was - {s}| < MAX_BACKOFF_ENTRIES
  {
    OneLess(was, s);
  }

  lemma {:induction false} OneMore<K(!new)>(entries: map<K, Entry>, key: K, e: Entry)
    ensures |entries[key := e]| == if key in entries then |entries| else |entries| + 1
  {
    var r := entries[key := e];
    assert r.Keys == entries.Keys + {key};
    assert |r| == |r.Keys| && |entries| == |entries.Keys|;
    if key in entries {
      assert r.Keys == entries.Keys;
    }
  }

  lemma {:induction false} KeptCount<K(!new)>(before: map<K, Entry>, kept: map<K, Entry>)
    requires kept.Keys <= before.Keys
    requires forall k :: k in kept ==> kept[k] == before[k]
    ensures |kept| <= |before|
    ensures |kept| == |before| ==> kept == before
  {
    assert |kept| == |kept.Keys| && |before| == |before.Keys|;
    assert before.Keys == kept.Keys + (before.Keys - kept.Keys);
    if |kept| == |before| {
      assert before.Keys - kept.Keys == {};
    }
  }

  /** A failure with the jitter drawn for it, or a success. */
  datatype Op<K> = Failure(key: K, now: int, jittered: int -> int) | Success(key: K)

  /** However dials fail and succeed, the table stays within its cap, and every key in it has the count of its
      streak and the wait that the streak asks for. */
  method Drive<K(==,!new)>(table: BackoffTable<K>, ops: seq<Op<K>>)
    requires table.Valid()
    requires forall i :: 0 <= i < |ops| && ops[i].Failure? ==> IsJitter(ops[i].jittered)
    modifies table
    ensures table.Valid() && |table.entries| <= MAX_BACKOFF_ENTRIES
    ensures old(table.history) <= table.history && Calls(table.history) == old(Calls(table.history)) + ops
    ensures forall k :: k in table.entries <==> Streak(table.config, table.history, k) > 0
    ensures forall k :: k in table.entries ==>
              && table.entries[k].failures == Streak(table.config, table.history, k)
              && table.entries[k].until == LastUntil(table.history, k)
    ensures forall i :: 0 <= i < |table.history| && table.history[i].FailedAt? ==>
              Pays(table.config, table.history[i],
                   Streak(table.config, table.history[..i + 1], table.history[i].key))
    ensures Drops(table.config, table.history)
  {
    hide IsJitter, Calls, Drops, Streak, LastUntil, Pays, MakeWay;
    ghost var h0 := table.history;
    for i := 0 to |ops|
      invariant table.Valid() && h0 <= table.history
      invariant Calls(table.history) == Calls(h0) + ops[..i]
    {
      assert ops[..i + 1] == ops[..i] + [ops[i]];
      ghost var h := table.history;
      match ops[i]
      case Failure(key, now, jittered) =>
        ghost var gone := table.CountFailure(key, now, jittered);
        ghost var e := FailedAt(key, now, jittered, table.entries[key].until);
        OneCall(h, Dropped(gone));
        OneCall(if gone == {} then h else h + [Dropped(gone)], e);
        assert table.history == (if gone == {} then h else h + [Dropped(gone)]) + [e];
      case Success(key) =>
        table.RecordSuccess(key);
        OneCall(h, Succeeded(key));
    }
    assert ops[..|ops|] == ops;
  }
}
