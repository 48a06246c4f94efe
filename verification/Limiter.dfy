/**
  The bounded fixed-window limiter of internal/ratelimit/memory.go.

  Go iterates over a map in an arbitrary order and several entries can share the
  oldest window start, so which entry makeRoom deletes is not determined. Every
  definition below therefore takes the deleted key, the `victim`, as an argument,
  and LegalVictim says which victims the loop can come up with.
 */
module Limiter {
  import opened Basics

  type Key = string
  datatype Entry = Entry(count: int, windowStart: int)
  type Table = map<Key, Entry>

  /** maxKeys <= 0 turns bounding and eviction off. */
  datatype Config = Config(rate: int, window: int, maxKeys: int)

  datatype Decision = Decision(allowed: bool, retryAfter: int)

  /** A request of `key` at `now` opens a new window. */
  predicate Opens(cfg: Config, t: Table, key: Key, now: int) {
    key !in t || now - t[key].windowStart >= cfg.window
  }

  function Decide(cfg: Config, t: Table, key: Key, now: int): Decision {
    if Opens(cfg, t, key, now) || t[key].count < cfg.rate then Decision(true, 0)
    else Decision(false, Max(cfg.window - (now - t[key].windowStart), SECOND))
  }

  predicate Full(cfg: Config, t: Table) {
    cfg.maxKeys > 0 && |t| >= cfg.maxKeys
  }

  predicate Oldest(t: Table, key: Key) {
    key in t && forall k :: k in t ==> t[key].windowStart <= t[k].windowStart
  }

  /** A request of `key` asks for room in a full table. */
  predicate Crowds(cfg: Config, t: Table, key: Key) {
    key !in t && Full(cfg, t)
  }

  predicate LegalVictim(cfg: Config, t: Table, key: Key, victim: Key) {
    Crowds(cfg, t, key) ==> Oldest(t, victim)
  }

  /** The empty key is never deleted: makeRoom takes it for "nothing found". */
  function Evicted(t: Table, victim: Key): Table {
    if victim != "" then t - {victim} else t
  }

  function Next(cfg: Config, t: Table, key: Key, now: int, victim: Key): Table {
    if Opens(cfg, t, key, now) then
      (if Crowds(cfg, t, key) then Evicted(t, victim) else t)[key := Entry(1, now)]
    else if t[key].count < cfg.rate then
      t[key := Entry(t[key].count + 1, t[key].windowStart)]
    else t
  }

  class MemoryLimiter {
    const rate: int
    const window: int
    const maxKeys: int
    var keys: Table

    ghost function Settings(): Config {
      Config(rate, window, maxKeys)
    }

    constructor (cfg: Config)
      ensures Settings() == cfg && keys == map[]
    {
      rate, window, maxKeys := cfg.rate, cfg.window, cfg.maxKeys;
      keys := map[];
    }

    method Allow(key: Key, now: int) returns (d: Decision, ghost victim: Key)
      modifies this
      ensures LegalVictim(Settings(), old(keys), key, victim)
      ensures d == Decide(Settings(), old(keys), key, now)
      ensures keys == Next(Settings(), old(keys), key, now, victim)
    {
      victim := "";
      if key !in keys || now - keys[key].windowStart >= window {
        if key !in keys {
          victim := MakeRoom();
        }
        keys := keys[key := Entry(1, now)];
        return Decision(true, 0), victim;
      }
      var e := keys[key];
      if e.count >= rate {
        var remaining := window - (now - e.windowStart);
        if remaining < SECOND {
          remaining := SECOND;
        }
        return Decision(false, remaining), victim;
      }
      e := e.(count := e.count + 1);
      keys := keys[key := e];
      return Decision(true, 0), victim;
    }

    /** A full table loses an entry no younger than any other, unless that entry's key is empty. */
    method MakeRoom() returns (ghost victim: Key)
      modifies this
      ensures !Full(Settings(), old(keys)) ==> keys == old(keys)
      ensures Full(Settings(), old(keys)) ==> Oldest(old(keys), victim) && keys == Evicted(old(keys), victim)
    {
      victim := "";
      if maxKeys <= 0 || |keys| < maxKeys {
        return;
      }
      var oldestKey, oldestStart, first := "", 0, true;
      var rest := keys.Keys;
      while rest != {}
        invariant rest <= keys.Keys && (first <==> rest == keys.Keys)
        invariant !first ==> oldestKey in keys && oldestStart == keys[oldestKey].windowStart
        invariant forall k :: k in keys && k !in rest ==> oldestStart <= keys[k].windowStart
      {
        var k :| k in rest;
        if first || keys[k].windowStart < oldestStart {
          oldestKey, oldestStart, first := k, keys[k].windowStart, false;
        }
        rest := rest - {k};
      }
      victim := oldestKey;
      if oldestKey != "" {
        keys := keys - {oldestKey};
      }
    }
  }
}
