/**
 The bounded cache whose entries expire. A log of what was asked of it says
 what it may answer; clock readings are arguments.
 */
module TtlCache {
  import opened Prelude

  datatype Entry<+V> = Entry(value: V, expiresAt: int)

  // A Put reads the clock to sweep, then again to stamp the entry.
  datatype Event<+V> = PutAt(key: string, value: V, sweepAt: int, at: int) | DeleteOf(key: string)
    | GetAt(key: string, now: int)

  datatype Config = Config(ttl: int, maxEntries: nat)

  const DEFAULT_MAX_ENTRIES: nat := 4096

  type Entries<V> = map<string, Entry<V>>

  predicate Expired<V>(e: Entry<V>, now: int) { now > e.expiresAt }

  function Swept<V>(entries: Entries<V>, now: int): Entries<V> {
    map k | k in entries && !Expired(entries[k], now) :: entries[k]
  }

  // What a Put of the key keeps: a full cache is swept to make room for a new one.
  function Kept<V>(config: Config, entries: Entries<V>, key: string, now: int): Entries<V> {
    if key !in entries && |entries| >= config.maxEntries then Swept(entries, now) else entries
  }

  // There is no room for a new key, even once the dead are swept.
  predicate Full<V>(config: Config, entries: Entries<V>, key: string, now: int) {
    key !in entries && |entries| >= config.maxEntries && |Swept(entries, now)| >= config.maxEntries
  }

  function Step<V>(config: Config, entries: Entries<V>, event: Event<V>): Entries<V> {
    match event
    case PutAt(key, value, sweepAt, at) =>
      var kept := Kept(config, entries, key, sweepAt);
      if Full(config, entries, key, sweepAt) then kept else kept[key := Entry(value, at + config.ttl)]
    case DeleteOf(key) => entries - {key}
    case GetAt(key, now) => if key in entries && Expired(entries[key], now) then entries - {key} else entries
  }

  function Run<V>(config: Config, log: seq<Event<V>>): Entries<V> {
    if log == [] then map[] else Step(config, Run(config, log[..|log| - 1]), log[|log| - 1])
  }

  function Answer<V>(entries: Entries<V>, key: string, now: int): Option<V> {
    if key in entries && !Expired(entries[key], now) then Some(entries[key].value) else None
  }

  /******* What may be answered *******/

  // The latest Put of the key and when it was made, if no Delete came since.
  // A Put that found no room wrote nothing. It is read off the log alone.
  ghost function Latest<V>(config: Config, log: seq<Event<V>>, key: string): Option<(V, int)>
    decreases |log|, 0
  {
    if log == [] then None
    else
      var before, event := log[..|log| - 1], log[|log| - 1];
      match event
      case PutAt(k, value, sweepAt, at) =>
        if k != key then Latest(config, before, key)
        else if Crowded(config, before, key, sweepAt) then None
        else Some((value, at))
      case DeleteOf(k) => if k == key then None else Latest(config, before, key)
      case GetAt(_, _) => Latest(config, before, key)
  }

  ghost predicate LiveAt<V>(config: Config, log: seq<Event<V>>, key: string, now: int)
    decreases |log|, 1
  {
    Latest(config, log, key) != None && now <= Latest(config, log, key).value.1 + config.ttl
  }

  ghost function OthersLive<V>(config: Config, log: seq<Event<V>>, key: string, now: int): set<string>
    decreases |log|, 2
  {
    set k | k in PutKeys(log) && k != key && LiveAt(config, log, k, now)
  }

  // As many other keys are live as the cache may hold.
  ghost predicate Crowded<V>(config: Config, log: seq<Event<V>>, key: string, now: int)
    decreases |log|, 3
  {
    |OthersLive(config, log, key, now)| >= config.maxEntries
  }

  function PutKeys<V>(log: seq<Event<V>>): set<string> {
    if log == [] then {}
    else PutKeys(log[..|log| - 1]) + if log[|log| - 1].PutAt? then {log[|log| - 1].key} else {}
  }

  // The last clock reading of the log, `start` before any.
  function Clock<V>(start: int, log: seq<Event<V>>): int {
    if log == [] then start
    else
      match log[|log| - 1]
      case PutAt(_, _, _, at) => at
      case DeleteOf(_) => Clock(start, log[..|log| - 1])
      case GetAt(_, now) => now
  }

  predicate Follows<V>(clock: int, event: Event<V>) {
    match event
    case PutAt(_, _, sweepAt, at) => clock <= sweepAt <= at
    case DeleteOf(_) => true
    case GetAt(_, now) => clock <= now
  }

  predicate Monotone<V>(start: int, log: seq<Event<V>>) {
    log != [] ==>
      && Monotone(start, log[..|log| - 1])
      && Follows(Clock(start, log[..|log| - 1]), log[|log| - 1])
  }

  /******* The invariant *******/

  // An entry is the latest Put; a latest Put without an entry has run out.
  ghost predicate Agrees<V>(config: Config, held: Option<Entry<V>>, latest: Option<(V, int)>, clock: int) {
    match held
    case Some(e) => latest == Some((e.value, e.expiresAt - config.ttl))
    case None => latest == None || clock > latest.value.1 + config.ttl
  }

  function Held<V>(entries: Entries<V>, key: string): Option<Entry<V>> {
    if key in entries then Some(entries[key]) else None
  }

  // What one step does to one key.
  ghost function HeldAfter<V>(config: Config, entries: Entries<V>, event: Event<V>, key: string): Option<Entry<V>> {
    match event
    case PutAt(k, value, sweepAt, at) =>
      if k == key then if Full(config, entries, key, sweepAt) then None else Some(Entry(value, at + config.ttl))
      else if k !in entries && |entries| >= config.maxEntries && key in entries
        && Expired(entries[key], sweepAt) then None
      else Held(entries, key)
    case DeleteOf(k) => if k == key then None else Held(entries, key)
    case GetAt(k, now) => if k == key && key in entries && Expired(entries[key], now) then None else Held(entries, key)
  }

  lemma {:induction false} StepHolds<V>(config: Config, entries: Entries<V>, event: Event<V>, key: string)
    ensures Held(Step(config, entries, event), key) == HeldAfter(config, entries, event, key)
  {
  }

  ghost function LatestAfter<V>(latest: Option<(V, int)>, event: Event<V>, key: string, skipped: bool): Option<(V, int)>
  {
    match event
    case PutAt(k, value, _, at) => if k != key then latest else if skipped then None else Some((value, at))
    case DeleteOf(k) => if k == key then None else latest
    case GetAt(_, _) => latest
  }

  // Whether the event is a Put of the key that finds no room.
  ghost predicate Skips<V>(config: Config, entries: Entries<V>, event: Event<V>, key: string) {
    event.PutAt? && event.key == key && Full(config, entries, key, event.sweepAt)
  }

  function ClockAfter<V>(clock: int, event: Event<V>): int {
    match event
    case PutAt(_, _, _, at) => at
    case DeleteOf(_) => clock
    case GetAt(_, now) => now
  }

  lemma {:induction false} StepAgrees<V>(config: Config, entries: Entries<V>, latest: Option<(V, int)>, clock: int,
                                         event: Event<V>, key: string)
    requires Agrees(config, Held(entries, key), latest, clock) && Follows(clock, event)
    ensures Agrees(config, HeldAfter(config, entries, event, key),
                   LatestAfter(latest, event, key, Skips(config, entries, event, key)),
                   ClockAfter(clock, event))
  {
    hide Full;
  }

  // The entries agree with the log, key by key.
  ghost predicate AllAgree<V>(config: Config, entries: Entries<V>, log: seq<Event<V>>, clock: int) {
    forall key :: Agrees(config, Held(entries, key), Latest(config, log, key), clock)
  }

  lemma {:induction false} LatestWasPut<V>(config: Config, log: seq<Event<V>>, key: string)
    requires Latest(config, log, key) != None
    ensures key in PutKeys(log)
  {
    if log == [] {
    } else {
      var before, event := log[..|log| - 1], log[|log| - 1];
      hide Crowded;
      if !(event.PutAt? && event.key == key) { LatestWasPut(config, before, key); }
    }
  }

  // What survives a sweep is what the log says is live.
  lemma {:induction false} SweptIsLive<V>(config: Config, entries: Entries<V>, log: seq<Event<V>>, clock: int,
                                          key: string, now: int)
    requires AllAgree(config, entries, log, clock) && clock <= now
    ensures Swept(entries, now).Keys - {key} == OthersLive(config, log, key, now)
  {
    var swept, live := Swept(entries, now).Keys, OthersLive(config, log, key, now);
    hide Latest, PutKeys;
    forall k ensures k in swept - {key} <==> k in live {
      assert Agrees(config, Held(entries, k), Latest(config, log, k), clock);
      if Latest(config, log, k) != None { LatestWasPut(config, log, k); }
    }
  }

  // So a Put finds no room exactly when as many other keys are live as the
  // cache may hold.
  lemma {:induction false} FullIsCrowded<V>(config: Config, entries: Entries<V>, log: seq<Event<V>>, clock: int,
                                            key: string, now: int)
    requires AllAgree(config, entries, log, clock) && clock <= now && |entries| <= config.maxEntries
    ensures config.maxEntries > 0 ==> (Full(config, entries, key, now) <==> Crowded(config, log, key, now))
  {
    SweptIsLive(config, entries, log, clock, key, now);
    var swept, others := Swept(entries, now), OthersLive(config, log, key, now);
    assert swept.Keys <= entries.Keys;
    hide Swept, OthersLive, AllAgree;
    SmallerMap(swept, entries);
    if key in entries {
      assert others <= entries.Keys - {key};
      SubsetSize(others, entries.Keys - {key});
    } else {
      assert swept.Keys - {key} == swept.Keys;
    }
  }

  lemma {:induction false} RunAgrees<V>(config: Config, start: int, log: seq<Event<V>>)
    requires Monotone(start, log) && config.maxEntries > 0
    ensures AllAgree(config, Run(config, log), log, Clock(start, log))
  {
    if log == [] {
    } else {
      var before, event := log[..|log| - 1], log[|log| - 1];
      var entries, clock := Run(config, before), Clock(start, before);
      RunAgrees(config, start, before);
      NeverOverLimit(config, before);
      assert Run(config, log) == Step(config, entries, event) && Clock(start, log) == ClockAfter(clock, event);
      hide Run, Step, Clock;
      forall key ensures Agrees(config, Held(Run(config, log), key), Latest(config, log, key), Clock(start, log)) {
        StepHolds(config, entries, event, key);
        StepAgrees(config, entries, Latest(config, before, key), clock, event, key);
        LatestUnfolds(config, log, key);
        if event.PutAt? { FullIsCrowded(config, entries, before, clock, key, event.sweepAt); }
        hide Agrees, HeldAfter, LatestAfter, Latest, Full, Crowded;
      }
    }
  }

  lemma {:induction false} LatestUnfolds<V>(config: Config, log: seq<Event<V>>, key: string)
    requires log != []
    ensures var before, event := log[..|log| - 1], log[|log| - 1];
            Latest(config, log, key) ==
            LatestAfter(Latest(config, before, key), event, key,
                        event.PutAt? && event.key == key && Crowded(config, before, key, event.sweepAt))
  {
    hide Crowded;
  }

  // A hit is the latest Put of the key, made at most the lifetime ago with no
  // Delete since; and such a Put is always a hit.
  lemma {:induction false} HitIsLatestPut<V>(config: Config, start: int, log: seq<Event<V>>, key: string, now: int)
    requires Monotone(start, log) && Clock(start, log) <= now && config.maxEntries > 0
    ensures var latest := Latest(config, log, key);
            Answer(Run(config, log), key, now) ==
            if latest != None && now <= latest.value.1 + config.ttl then Some(latest.value.0) else None
  {
    RunAgrees(config, start, log);
    hide Run, Latest, Clock;
    assert Agrees(config, Held(Run(config, log), key), Latest(config, log, key), Clock(start, log));
  }

  // A Put that finds as many other keys live as the cache may hold leaves
  // nothing older of its key to be found, at any time.
  lemma {:induction false} SkippedPutHidesNothing<V>(config: Config, start: int, log: seq<Event<V>>, key: string,
                                                     value: V, sweepAt: int, at: int, now: int)
    requires Monotone(start, log) && Clock(start, log) <= sweepAt && config.maxEntries > 0
    requires Crowded(config, log, key, sweepAt)
    ensures Answer(Run(config, log + [PutAt(key, value, sweepAt, at)]), key, now) == None
  {
    var event := PutAt(key, value, sweepAt, at);
    RunAgrees(config, start, log);
    NeverOverLimit(config, log);
    FullIsCrowded(config, Run(config, log), log, Clock(start, log), key, sweepAt);
    RunMore(config, log, event);
    StepHolds(config, Run(config, log), event, key);
    hide Run, Step, Full, AllAgree, Crowded, Latest, Clock;
  }

  /******* The bound *******/

  lemma {:induction false} SmallerMap<V>(a: map<string, Entry<V>>, b: map<string, Entry<V>>)
    requires a.Keys <= b.Keys
    ensures |a| <= |b|
  {
    SubsetSize(a.Keys, b.Keys);
  }

  lemma {:induction false} InsertedSize<V>(entries: map<string, Entry<V>>, key: string, e: Entry<V>)
    ensures |entries[key := e]| == if key in entries then |entries| else |entries| + 1
  {
    var keys := entries[key := e].Keys;
    assert keys == entries.Keys + {key};
    if key in entries { assert keys == entries.Keys; }
  }

  lemma {:induction false} StepBounded<V>(config: Config, entries: Entries<V>, event: Event<V>)
    requires config.maxEntries > 0 && |entries| <= config.maxEntries
    ensures |Step(config, entries, event)| <= config.maxEntries
  {
    match event
    case PutAt(key, value, sweepAt, at) =>
      SmallerMap(Swept(entries, sweepAt), entries);
      InsertedSize(Kept(config, entries, key, sweepAt), key, Entry(value, at + config.ttl));
      assert key in entries ==> key in Kept(config, entries, key, sweepAt);
      hide Swept;
    case DeleteOf(key) => SmallerMap(entries - {key}, entries);
    case GetAt(key, _) => SmallerMap(entries - {key}, entries);
  }

  lemma {:induction false} NeverOverLimit<V>(config: Config, log: seq<Event<V>>)
    requires config.maxEntries > 0
    ensures |Run(config, log)| <= config.maxEntries
  {
    if log == [] {
    } else {
      NeverOverLimit(config, log[..|log| - 1]);
      StepBounded(config, Run(config, log[..|log| - 1]), log[|log| - 1]);
    }
  }

  lemma {:induction false} RunMore<V>(config: Config, log: seq<Event<V>>, event: Event<V>)
    ensures Run(config, log + [event]) == Step(config, Run(config, log), event)
  {
    assert (log + [event])[..|log|] == log;
  }

  class Cache<V> {
    var entries: map<string, Entry<V>>
    const config: Config
    ghost var log: seq<Event<V>>

    ghost predicate Valid()
      reads this
    {
      config.maxEntries > 0 && entries == Run(config, log)
    }

    constructor (ttl: int, maxEntries: int)
      ensures Valid() && log == [] && config.ttl == ttl
      ensures config.maxEntries == if maxEntries <= 0 then DEFAULT_MAX_ENTRIES else maxEntries
    {
      entries := map[];
      config := Config(ttl, if maxEntries <= 0 then DEFAULT_MAX_ENTRIES else maxEntries);
      log := [];
    }

    // What the log says of the key, in every run whose clock never steps back.
    method Get(key: string, now: int) returns (r: Option<V>)
      requires Valid()
      modifies this`entries, this`log
      ensures Valid() && log == old(log) + [GetAt(key, now)] && |entries| <= config.maxEntries
      ensures forall start :: Monotone(start, old(log)) && Clock(start, old(log)) <= now ==>
                var latest := Latest(config, old(log), key);
                r == if latest != None && now <= latest.value.1 + config.ttl then Some(latest.value.0) else None
    {
      ghost var before := log;
      log := log + [GetAt(key, now)];
      RunMore(config, before, GetAt(key, now));
      NeverOverLimit(config, log);
      forall start | Monotone(start, before) && Clock(start, before) <= now
        ensures var latest := Latest(config, before, key);
                Answer(Run(config, before), key, now) ==
                if latest != None && now <= latest.value.1 + config.ttl then Some(latest.value.0) else None
      {
        HitIsLatestPut(config, start, before, key, now);
      }
      hide Run, Latest, Clock, Monotone;
      if key !in entries { return None; }
      var e := entries[key];
      if now > e.expiresAt {
        entries := entries - {key};
        return None;
      }
      return Some(e.value);
    }

    method EvictExpired(now: int)
      modifies this`entries
      ensures entries == Swept(old(entries), now)
    {
      var pending := entries.Keys;
      while pending != {}
        invariant pending <= old(entries).Keys
        invariant entries.Keys <= old(entries).Keys
        invariant forall k :: k in entries ==>
                  entries[k] == old(entries)[k] && (k in pending || !Expired(entries[k], now))
        invariant forall k :: k in old(entries) && (k in pending || !Expired(old(entries)[k], now)) ==> k in entries
        decreases |pending|
      {
        var key :| key in pending;
        pending := pending - {key};
        if now > entries[key].expiresAt { entries := entries - {key}; }
      }
    }

    method Store(key: string, value: V, sweepAt: int, at: int)
      modifies this`entries
      ensures entries == Step(config, old(entries), PutAt(key, value, sweepAt, at))
    {
      hide Swept;
      if key !in entries && |entries| >= config.maxEntries {
        EvictExpired(sweepAt);
        if |entries| >= config.maxEntries { return; }
      }
      entries := entries[key := Entry(value, at + config.ttl)];
    }

    method Put(key: string, value: V, sweepAt: int, at: int)
      requires Valid()
      modifies this`entries, this`log
      ensures Valid() && log == old(log) + [PutAt(key, value, sweepAt, at)] && |entries| <= config.maxEntries
    {
      ghost var event := PutAt(key, value, sweepAt, at);
      RunMore(config, log, event);
      NeverOverLimit(config, log + [event]);
      hide Run, Step;
      Store(key, value, sweepAt, at);
      log := log + [event];
    }

    method Delete(key: string)
      requires Valid()
      modifies this`entries, this`log
      ensures Valid() && log == old(log) + [DeleteOf(key)] && |entries| <= config.maxEntries
    {
      RunMore(config, log, DeleteOf(key));
      log := log + [DeleteOf(key)];
      NeverOverLimit(config, log);
      hide Run;
      entries := entries - {key};
    }
  }
}
