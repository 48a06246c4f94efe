/** What a refused client is told to wait, and what happens if it does. */
module LimiterWait {
  import opened Basics
  import opened Limiter
  import opened LimiterRuns

  /** The Retry-After header in whole seconds (internal/httpapi/ratelimit.go:19-22). */
  function HeaderSeconds(retryAfter: int): int {
    Max(retryAfter / SECOND, 1)
  }

  /** The instant at which a client that sleeps exactly its header tries again. */
  function RetryAt(cfg: Config, t: Table, key: Key, at: int): int {
    at + HeaderSeconds(Decide(cfg, t, key, at).retryAfter) * SECOND
  }

  /** A wait is never longer than the window exactly when windows last a second or more. */
  lemma WaitWithinWindowIff(cfg: Config, t: Table, key: Key, at: int)
    requires !Decide(cfg, t, key, at).allowed && t[key].windowStart <= at
    ensures 0 < Decide(cfg, t, key, at).retryAfter
    ensures Decide(cfg, t, key, at).retryAfter <= cfg.window <==> cfg.window >= SECOND
  {
  }

  predicate Quiet(es: seq<Request>, key: Key) {
    forall i :: 0 <= i < |es| ==> es[i].key != key
  }

  /** Other clients can remove an entry but not change it. */
  lemma {:induction false} OthersCannotTouch(cfg: Config, start: Table, es: seq<Request>, key: Key)
    requires Quiet(es, key)
    ensures var t := TableFrom(cfg, start, es); key in t ==> key in start && t[key] == start[key]
  {
    if es == [] {
    } else {
      OthersCannotTouch(cfg, start, es[..|es| - 1], key);
    }
  }

  /** A refused client that stays quiet for its wait is admitted, whatever the others do. */
  lemma WaitSuffices(cfg: Config, start: Table, key: Key, at: int, others: seq<Request>, later: int)
    requires !Decide(cfg, start, key, at).allowed && Quiet(others, key)
    requires later >= at + Decide(cfg, start, key, at).retryAfter
    ensures Decide(cfg, TableFrom(cfg, start, others), key, later).allowed
  {
    OthersCannotTouch(cfg, start, others, key);
  }

  /** `key` is never the entry deleted while the run goes on from `start`. */
  predicate NeverEvicted(cfg: Config, start: Table, es: seq<Request>, key: Key) {
    forall i :: 0 <= i < |es| && Crowds(cfg, TableFrom(cfg, start, es[..i]), es[i].key) ==> es[i].victim != key
  }

  lemma {:induction false} SpentEntryStays(cfg: Config, start: Table, key: Key, es: seq<Request>)
    requires key in start && start[key].count >= cfg.rate && NeverEvicted(cfg, start, es, key)
    requires forall i :: 0 <= i < |es| ==> es[i].at < start[key].windowStart + cfg.window
    ensures var t := TableFrom(cfg, start, es); key in t && t[key] == start[key]
  {
    if es == [] {
    } else {
      var n := |es| - 1;
      KeptPrefix(cfg, start, es, key, n);
      SpentEntryStays(cfg, start, key, es[..n]);
      assert es[n].at < start[key].windowStart + cfg.window;
    }
  }

  lemma KeptPrefix(cfg: Config, start: Table, es: seq<Request>, key: Key, n: nat)
    requires NeverEvicted(cfg, start, es, key) && n <= |es|
    ensures NeverEvicted(cfg, start, es[..n], key)
  {
    forall i | 0 <= i < n
      ensures es[..n][..i] == es[..i]
    {
      PrefixOf(es, n, i);
    }
  }

  /**
    The wait is tight: while its entry is kept, a refused client stays refused until its
    window ends, however often it tries, and trying does not change its counter.
   */
  lemma WaitIsTight(cfg: Config, start: Table, key: Key, at: int, es: seq<Request>)
    requires !Decide(cfg, start, key, at).allowed && NeverEvicted(cfg, start, es, key)
    requires forall i :: 0 <= i < |es| ==> es[i].at < start[key].windowStart + cfg.window
    ensures var t := TableFrom(cfg, start, es); key in t && t[key] == start[key]
    ensures forall i :: 0 <= i < |es| && es[i].key == key ==>
              !Decide(cfg, TableFrom(cfg, start, es[..i]), key, es[i].at).allowed
  {
    SpentEntryStays(cfg, start, key, es);
    forall i | 0 <= i < |es| && es[i].key == key
      ensures !Decide(cfg, TableFrom(cfg, start, es[..i]), key, es[i].at).allowed
    {
      KeptPrefix(cfg, start, es, key, i);
      SpentEntryStays(cfg, start, key, es[..i]);
    }
  }

  /**
    Sleeping exactly the header is one try too early in general: if the entry is still
    there, the retry is admitted exactly when the rest of the window at refusal time was
    no longer than a second or a whole number of seconds.
   */
  lemma HeaderSufficesIffWholeSeconds(cfg: Config, start: Table, key: Key, at: int, others: seq<Request>)
    requires !Decide(cfg, start, key, at).allowed && Quiet(others, key)
    requires key in TableFrom(cfg, start, others)
    ensures var rest := start[key].windowStart + cfg.window - at;
            Decide(cfg, TableFrom(cfg, start, others), key, RetryAt(cfg, start, key, at)).allowed
            <==> rest <= SECOND || rest % SECOND == 0
  {
    OthersCannotTouch(cfg, start, others, key);
  }

  /** The failing case is real: 1.5 seconds are left, the header says 1, the retry is refused. */
  lemma HeaderCanBeShort()
    ensures var cfg := Config(1, 2 * SECOND, 10);
            var t := map["a" := Entry(1, 0)];
            var at := SECOND / 2;
            var d := Decide(cfg, t, "a", at);
            !d.allowed && HeaderSeconds(d.retryAfter) == 1 && !Decide(cfg, t, "a", at + SECOND).allowed
  {
    assert map["a" := Entry(1, 0)]["a"] == Entry(1, 0);
  }

  /** The header drops less than a second of the wait. */
  lemma HeaderFloors(retryAfter: int)
    requires retryAfter >= SECOND
    ensures HeaderSeconds(retryAfter) * SECOND <= retryAfter < HeaderSeconds(retryAfter) * SECOND + SECOND
  {
  }

  lemma RetryNearWindowEnd(cfg: Config, t: Table, key: Key, at: int)
    requires !Decide(cfg, t, key, at).allowed
    ensures var end := t[key].windowStart + cfg.window;
            RetryAt(cfg, t, key, at) > end - SECOND
            && (at > end - SECOND ==> RetryAt(cfg, t, key, at) >= end)
  {
    HeaderFloors(Decide(cfg, t, key, at).retryAfter);
  }

  /**
    A client alone on its key that sleeps exactly the header it is given is refused at
    most once more, whatever other keys do before and between its retries.
   */
  lemma ObedientClient(cfg: Config, start: Table, key: Key, at: int, others: seq<Request>, others': seq<Request>)
    requires !Decide(cfg, start, key, at).allowed && Quiet(others, key) && Quiet(others', key)
    ensures var t1 := TableFrom(cfg, start, others);
            var at1 := RetryAt(cfg, start, key, at);
            var t2 := TableFrom(cfg, t1, others');
            Decide(cfg, t1, key, at1).allowed || Decide(cfg, t2, key, RetryAt(cfg, t1, key, at1)).allowed
  {
    var t1 := TableFrom(cfg, start, others);
    var at1 := RetryAt(cfg, start, key, at);
    RetryNearWindowEnd(cfg, start, key, at);
    OthersCannotTouch(cfg, start, others, key);
    if !Decide(cfg, t1, key, at1).allowed {
      RetryNearWindowEnd(cfg, t1, key, at1);
      OthersCannotTouch(cfg, t1, others', key);
    }
  }
}
