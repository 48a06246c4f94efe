/** How many requests of one client the limiter lets through in a stretch of time. */
module LimiterRate {
  import opened Basics
  import opened Limiter
  import opened LimiterRuns
  import opened LimiterCapacity

  /** Admissions of `key` in [lo, hi). */
  function Admitted(cfg: Config, es: seq<Request>, key: Key, lo: int, hi: int): nat {
    if es == [] then 0
    else
      var n := |es| - 1;
      Admitted(cfg, es[..n], key, lo, hi)
      + if es[n].key == key && lo <= es[n].at < hi
           && Decide(cfg, TableAfter(cfg, es[..n]), key, es[n].at).allowed then 1 else 0
  }

  lemma {:induction false} NothingAdmittedYet(cfg: Config, es: seq<Request>, key: Key, lo: int, hi: int)
    requires Clocked(es) && (|es| > 0 ==> es[|es| - 1].at < lo)
    ensures Admitted(cfg, es, key, lo, hi) == 0
  {
    if |es| > 1 {
      NothingAdmittedYet(cfg, es[..|es| - 1], key, lo, hi);
    }
  }

  /** A counter counts: it is the number of admissions since its window opened. */
  lemma {:induction false} CountIsAdmissions(cfg: Config, es: seq<Request>, key: Key, hi: int)
    requires cfg.rate >= 1 && cfg.window > 0 && Clocked(es) && Spares(cfg, es, key)
    requires Solo(cfg, es, key).Some? && es[|es| - 1].at < hi
    ensures var e := Solo(cfg, es, key).value;
            e.count == Admitted(cfg, es, key, e.windowStart, hi) && e.windowStart <= es[|es| - 1].at
  {
    var n := |es| - 1;
    var before := Solo(cfg, es[..n], key);
    PrefixKeepsRun(cfg, es, n);
    SoloStep(cfg, es, key);
    if before.Some? {
      CountIsAdmissions(cfg, es[..n], key, hi);
    }
    if es[n].key == key {
      SparedKeyAgrees(cfg, es, n);
      if before.None? || es[n].at - before.value.windowStart >= cfg.window {
        NoneAtOpening(cfg, es[..n], key, es[n].at, hi);
      }
    }
  }

  /** A client that opens a window has not been admitted at that very instant before. */
  lemma {:induction false} NoneAtOpening(cfg: Config, es: seq<Request>, key: Key, at: int, hi: int)
    requires cfg.rate >= 1 && cfg.window > 0 && Clocked(es) && Spares(cfg, es, key)
    requires |es| > 0 ==> es[|es| - 1].at <= at
    requires Solo(cfg, es, key).Some? ==> at - Solo(cfg, es, key).value.windowStart >= cfg.window
    ensures Admitted(cfg, es, key, at, hi) == 0
  {
    if es == [] {
    } else {
      var n := |es| - 1;
      PrefixKeepsRun(cfg, es, n);
      SoloStep(cfg, es, key);
      if es[n].at < at {
        NothingAdmittedYet(cfg, es, key, at, hi);
      } else {
        NoneAtOpening(cfg, es[..n], key, at, hi);
      }
    }
  }

  lemma TableCountIsAdmissions(cfg: Config, es: seq<Request>, key: Key, now: int)
    requires cfg.rate >= 1 && cfg.window > 0 && Clocked(es) && Spares(cfg, es, key)
    requires (|es| > 0 ==> es[|es| - 1].at <= now) && key in TableAfter(cfg, es)
    ensures TableAfter(cfg, es)[key].count == Admitted(cfg, es, key, TableAfter(cfg, es)[key].windowStart, now + 1)
  {
    SparedKeyTracks(cfg, es, key, now);
    CountIsAdmissions(cfg, es, key, now + 1);
  }

  /** A request is refused exactly when its client has had `rate` admissions in a window that is still open. */
  lemma RefusedIffRateSpent(cfg: Config, es: seq<Request>, key: Key, now: int)
    requires cfg.rate >= 1 && cfg.window > 0 && Clocked(es) && Spares(cfg, es, key)
    requires |es| > 0 ==> es[|es| - 1].at <= now
    ensures var t := TableAfter(cfg, es);
            !Decide(cfg, t, key, now).allowed
            <==> && key in t && now - t[key].windowStart < cfg.window
                 && Admitted(cfg, es, key, t[key].windowStart, now + 1) >= cfg.rate
  {
    if key in TableAfter(cfg, es) {
      TableCountIsAdmissions(cfg, es, key, now);
    }
  }

  /** The most that can have been admitted since lo when the current window began at s with `count` uses. */
  function Allowance(cfg: Config, lo: int, s: int, count: int): int
    requires cfg.window > 0
  {
    if s < lo then count - 1
    else ((s - lo) / cfg.window + 1) * cfg.rate - 1 + count
  }

  /** A new window, at least one window length after the previous one, is worth one more rate. */
  lemma NewWindow(cfg: Config, lo: int, s: int, s': int)
    requires cfg.window > 0 && cfg.rate >= 1 && s' - s >= cfg.window
    ensures s' >= lo ==> Allowance(cfg, lo, s, cfg.rate) + 1 <= Allowance(cfg, lo, s', 1)
  {
    if s' >= lo {
      var q' := (s' - lo) / cfg.window;
      assert q' >= 0 by { DivAtLeast(s' - lo, cfg.window, 0); }
      if s < lo {
        MulMonotone(1, q' + 1, cfg.rate);
      } else {
        var q := (s - lo) / cfg.window;
        assert q * cfg.window <= s - lo;
        DivAtLeast(s' - lo, cfg.window, q + 1);
        MulMonotone(q + 2, q' + 1, cfg.rate);
      }
    }
  }

  lemma DivAtLeast(x: int, w: int, q: int)
    requires w > 0 && q * w <= x
    ensures x / w >= q
  {
    assert x < (x / w + 1) * w;
    if x / w < q {
      MulMonotone(x / w + 1, q, w);
    }
  }

  lemma DivBelow(x: int, w: int, q: int)
    requires w > 0 && x < q * w
    ensures x / w + 1 <= q
  {
    if x / w >= q {
      MulMonotone(q, x / w, w);
    }
  }

  lemma MulMonotone(a: int, b: int, c: int)
    requires a <= b && c >= 0
    ensures a * c <= b * c
  {
    assert (b - a) * c >= 0;
  }

  /** What a private counter says about the number of admissions since lo, at instant `now`. */
  predicate Within(cfg: Config, e: Option<Entry>, admitted: int, lo: int, hi: int, now: int)
    requires cfg.window > 0
  {
    && (e.None? || now < lo ==> admitted == 0)
    && (e.Some? ==>
          && 1 <= e.value.count <= cfg.rate
          && e.value.windowStart <= now
          && (e.value.windowStart < hi ==> admitted <= Allowance(cfg, lo, e.value.windowStart, e.value.count)))
  }

  lemma CounterStep(cfg: Config, e: Option<Entry>, admitted: int, lo: int, hi: int, now: int, at: int)
    requires cfg.rate >= 1 && cfg.window > 0 && now <= at && Within(cfg, e, admitted, lo, hi, now)
    ensures Within(cfg, Some(SoloNext(cfg, e, at)),
                   admitted + if lo <= at < hi && SoloDecide(cfg, e, at).allowed then 1 else 0, lo, hi, at)
  {
    if e.None? {
      if lo <= at {
        DivAtLeast(at - lo, cfg.window, 0);
        MulMonotone(1, (at - lo) / cfg.window + 1, cfg.rate);
      }
    } else if at - e.value.windowStart >= cfg.window {
      NewWindow(cfg, lo, e.value.windowStart, at);
      assert Allowance(cfg, lo, e.value.windowStart, e.value.count)
          <= Allowance(cfg, lo, e.value.windowStart, cfg.rate);
    } else {
      assert Allowance(cfg, lo, e.value.windowStart, e.value.count + 1)
          == Allowance(cfg, lo, e.value.windowStart, e.value.count) + 1;
    }
  }

  lemma {:induction false} AdmittedWithin(cfg: Config, es: seq<Request>, key: Key, lo: int, hi: int, now: int)
    requires cfg.rate >= 1 && cfg.window > 0 && Clocked(es) && Spares(cfg, es, key)
    requires |es| > 0 ==> es[|es| - 1].at <= now
    ensures Within(cfg, Solo(cfg, es, key), Admitted(cfg, es, key, lo, hi), lo, hi, now)
  {
    if es == [] {
    } else {
      var n := |es| - 1;
      PrefixKeepsRun(cfg, es, n);
      AdmittedWithin(cfg, es[..n], key, lo, hi, es[n].at);
      SoloStep(cfg, es, key);
      if es[n].key == key {
        SparedKeyAgrees(cfg, es, n);
        CounterStep(cfg, Solo(cfg, es[..n], key), Admitted(cfg, es[..n], key, lo, hi), lo, hi, es[n].at, es[n].at);
      }
    }
  }

  lemma AllowanceBelow(cfg: Config, lo: int, s: int, count: int, n: nat)
    requires cfg.rate >= 1 && cfg.window > 0 && s < lo + n * cfg.window && count <= cfg.rate
    ensures Allowance(cfg, lo, s, count) <= (n + 1) * cfg.rate - 1
  {
    MulMonotone(1, n + 1, cfg.rate);
    if s >= lo {
      DivBelow(s - lo, cfg.window, n);
      MulMonotone((s - lo) / cfg.window + 1, n, cfg.rate);
      assert (n + 1) * cfg.rate == n * cfg.rate + cfg.rate;
    }
  }

  /**
    A client whose live entry is never evicted gets at most (n + 1) * rate - 1 requests
    through in any half-open interval of n windows.
   */
  lemma {:induction false} RateBound(cfg: Config, es: seq<Request>, key: Key, lo: int, n: nat)
    requires cfg.rate >= 1 && cfg.window > 0 && Clocked(es) && Spares(cfg, es, key)
    ensures Admitted(cfg, es, key, lo, lo + n * cfg.window) <= (n + 1) * cfg.rate - 1
  {
    var hi := lo + n * cfg.window;
    if es == [] || Solo(cfg, es, key).None? {
      AdmittedWithin(cfg, es, key, lo, hi, if es == [] then 0 else es[|es| - 1].at);
      MulMonotone(1, n + 1, cfg.rate);
    } else if es[|es| - 1].at >= hi {
      PrefixKeepsRun(cfg, es, |es| - 1);
      RateBound(cfg, es[..|es| - 1], key, lo, n);
    } else {
      AdmittedWithin(cfg, es, key, lo, hi, es[|es| - 1].at);
      var e := Solo(cfg, es, key).value;
      AllowanceBelow(cfg, lo, e.windowStart, e.count, n);
    }
  }

  // ----- The bound is attained -----

  lemma {:induction false} AdmittedExtend(cfg: Config, es: seq<Request>, e: Request, lo: int, hi: int)
    ensures Admitted(cfg, es + [e], e.key, lo, hi) == Admitted(cfg, es, e.key, lo, hi)
            + if lo <= e.at < hi && Decide(cfg, TableAfter(cfg, es), e.key, e.at).allowed then 1 else 0
  {
    assert (es + [e])[..|es|] == es;
  }

  /** A legal run of `key` alone, up to instant `at`, that leaves it with entry e after so many admissions. */
  predicate Leaves(cfg: Config, es: seq<Request>, key: Key, at: int, hi: int, e: Entry, admitted: int) {
    && Legal(cfg, es) && Clocked(es) && From(es, {key}) && |es| > 0 && es[|es| - 1].at <= at
    && TableAfter(cfg, es) == map[key := e] && Admitted(cfg, es, key, 0, hi) == admitted
  }

  lemma SendOne(cfg: Config, es: seq<Request>, key: Key, at: int, hi: int, e: Entry, admitted: int)
      returns (fs: seq<Request>)
    requires Leaves(cfg, es, key, at, hi, e, admitted) && 0 <= at < hi
    requires at - e.windowStart >= cfg.window || e.count < cfg.rate
    ensures Leaves(cfg, fs, key, at, hi, SoloNext(cfg, Some(e), at), admitted + 1)
  {
    var r := Request(key, at, key);
    Extend(cfg, es, r);
    AdmittedExtend(cfg, es, r, 0, hi);
    fs := es + [r];
  }

  /** The window of e has room for m more requests. */
  lemma {:induction false} SendMore(cfg: Config, es: seq<Request>, key: Key, at: int, hi: int, e: Entry, admitted: int,
                                    m: nat)
      returns (fs: seq<Request>)
    requires Leaves(cfg, es, key, at, hi, e, admitted) && 0 <= at < hi
    requires at - e.windowStart < cfg.window && e.count + m <= cfg.rate
    ensures Leaves(cfg, fs, key, at, hi, Entry(e.count + m, e.windowStart), admitted + m)
  {
    if m == 0 {
      fs := es;
    } else {
      fs := SendMore(cfg, es, key, at, hi, e, admitted, m - 1);
      fs := SendOne(cfg, fs, key, at, hi, Entry(e.count + m - 1, e.windowStart), admitted + m - 1);
    }
  }

  lemma Opening(cfg: Config, key: Key, hi: int, none: seq<Request>) returns (es: seq<Request>)
    requires cfg.rate >= 1 && cfg.window > 0 && none == []
    ensures Leaves(cfg, es, key, -1, hi, Entry(1, -1), 0)
  {
    var open := Request(key, -1, key);
    assert TableAfter(cfg, none) == map[] && Admitted(cfg, none, key, 0, hi) == 0;
    Extend(cfg, none, open);
    AdmittedExtend(cfg, none, open, 0, hi);
    es := none + [open];
  }

  /** A window opened just before 0 leaves rate - 1 admissions for instant 0. */
  lemma OpeningBurst(cfg: Config, key: Key, hi: int) returns (es: seq<Request>)
    requires cfg.rate >= 1 && cfg.window >= 2 && hi > 0
    ensures Leaves(cfg, es, key, 0, hi, Entry(cfg.rate, -1), cfg.rate - 1)
  {
    es := Opening(cfg, key, hi, []);
    es := SendMore(cfg, es, key, 0, hi, Entry(1, -1), 0, cfg.rate - 1);
  }

  lemma LateBurst(cfg: Config, es: seq<Request>, key: Key, at: int, hi: int, admitted: int) returns (fs: seq<Request>)
    requires cfg.rate >= 1 && cfg.window >= 2 && 0 <= at < hi
    requires Leaves(cfg, es, key, at, hi, Entry(cfg.rate, at - cfg.window), admitted)
    ensures Leaves(cfg, fs, key, at, hi, Entry(cfg.rate, at), admitted + cfg.rate)
  {
    fs := SendOne(cfg, es, key, at, hi, Entry(cfg.rate, at - cfg.window), admitted);
    fs := SendMore(cfg, fs, key, at, hi, Entry(1, at), admitted + 1, cfg.rate - 1);
  }

  /** One client opens a window one tick before 0 and then fills n windows at their last instant. */
  lemma {:induction false} LateBursts(cfg: Config, key: Key, n: nat, end: int, hi: int) returns (es: seq<Request>)
    requires cfg.rate >= 1 && cfg.window >= 2 && end == n * cfg.window && hi > 0 && hi >= end
    ensures Leaves(cfg, es, key, if n == 0 then 0 else end - 1, hi, Entry(cfg.rate, end - 1), (n + 1) * cfg.rate - 1)
  {
    if n == 0 {
      es := OpeningBurst(cfg, key, hi);
    } else {
      MulMonotone(1, n, cfg.window);
      assert (n - 1) * cfg.window == end - cfg.window;
      assert (n + 1) * cfg.rate == n * cfg.rate + cfg.rate;
      es := LateBursts(cfg, key, n - 1, end - cfg.window, hi);
      es := LateBurst(cfg, es, key, end - 1, hi, n * cfg.rate - 1);
    }
  }

  /** No smaller bound holds: for every n >= 1 some legal run admits (n + 1) * rate - 1 in n windows. */
  lemma RateBoundAttained(cfg: Config, key: Key, n: nat)
    requires cfg.rate >= 1 && cfg.window >= 2 && n >= 1
    ensures exists es :: Legal(cfg, es) && Clocked(es) && From(es, {key}) && Spares(cfg, es, key)
                         && Admitted(cfg, es, key, 0, n * cfg.window) == (n + 1) * cfg.rate - 1
  {
    MulMonotone(1, n, cfg.window);
    var es := LateBursts(cfg, key, n, n * cfg.window, n * cfg.window);
    forall i | 0 <= i < |es|
      ensures !EvictsAt(cfg, es, i, key)
    {
    }
    assert Spares(cfg, es, key);
  }
}
