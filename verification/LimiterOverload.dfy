/**
  The rate bound without any assumption on evictions: what a client gains by having its
  own live entry pushed out, it has to pay for in requests of other keys.
 */
module LimiterOverload {
  import opened Basics
  import opened Limiter
  import opened LimiterRuns
  import LimiterCapacity
  import opened LimiterRate

  /** No request of `key` follows one of another key at the same instant. */
  predicate NeverTrails(es: seq<Request>, key: Key) {
    forall i, j :: 0 <= i < j < |es| && es[i].key != key && es[j].key == key ==> es[i].at < es[j].at
  }

  /** Request i deletes the entry of `key` before it has expired. */
  predicate RobsAt(cfg: Config, es: seq<Request>, i: nat, key: Key)
    requires i < |es|
  {
    EvictsAt(cfg, es, i, key) && es[i].at - TableAfter(cfg, es[..i])[key].windowStart < cfg.window
  }

  /** How often that happens in [lo, hi). */
  function Robberies(cfg: Config, es: seq<Request>, key: Key, lo: int, hi: int): nat {
    if es == [] then 0
    else
      var n := |es| - 1;
      Robberies(cfg, es[..n], key, lo, hi) + if lo <= es[n].at < hi && RobsAt(cfg, es, n, key) then 1 else 0
  }

  /** Windows opened by other keys in [lo, hi). */
  function ForeignOpenings(cfg: Config, es: seq<Request>, key: Key, lo: int, hi: int): nat {
    if es == [] then 0
    else
      var n := |es| - 1;
      ForeignOpenings(cfg, es[..n], key, lo, hi)
      + if es[n].key != key && lo <= es[n].at < hi && OpensAt(cfg, es, n) then 1 else 0
  }

  /** A price for each robbery. */
  function Price(each: int, robberies: nat): int {
    if robberies == 0 then 0 else Price(each, robberies - 1) + each
  }

  lemma {:induction false} PriceIsProduct(each: int, robberies: nat)
    ensures Price(each, robberies) == robberies * each
  {
    if robberies > 0 {
      PriceIsProduct(each, robberies - 1);
    }
  }

  lemma {:induction false} PriceIsNatural(each: nat, robberies: nat)
    ensures Price(each, robberies) >= 0
    ensures robberies >= 1 ==> Price(each, robberies - 1) >= 0
  {
    if robberies > 0 {
      PriceIsNatural(each, robberies - 1);
    }
  }

  // ----- What the client gains -----

  /** The entry of `key`, or the one it had last. */
  function LastEntry(cfg: Config, es: seq<Request>, key: Key): Option<Entry> {
    if es == [] then None
    else if key in TableAfter(cfg, es) then Some(TableAfter(cfg, es)[key])
    else LastEntry(cfg, es[..|es| - 1], key)
  }

  /**
    Admissions since lo are covered by the allowance of the present window plus one rate
    for every robbery. A client without an entry has not been admitted yet, or its last
    window is over, or there is a robbery that nothing has been charged to so far.
   */
  predicate Covered(cfg: Config, tracked: bool, e: Option<Entry>, admitted: int, robberies: nat,
                    lo: int, hi: int, now: int)
    requires cfg.window > 0
  {
    && (now < lo || e.None? ==> admitted == 0)
    && (tracked ==> e.Some?)
    && (e.Some? ==> 1 <= e.value.count <= cfg.rate && e.value.windowStart <= now)
    && (e.Some? && e.value.windowStart < hi ==>
          if tracked then
            admitted <= Allowance(cfg, lo, e.value.windowStart, e.value.count) + Price(cfg.rate, robberies)
          else
            || admitted == 0
            || (now - e.value.windowStart >= cfg.window
                && admitted <= Allowance(cfg, lo, e.value.windowStart, cfg.rate) + Price(cfg.rate, robberies))
            || (robberies >= 1
                && admitted <= Allowance(cfg, lo, e.value.windowStart, cfg.rate) + Price(cfg.rate, robberies - 1)))
  }

  /** Reopening early is worth at most one more rate than the window it cuts short. */
  lemma EarlyReopening(cfg: Config, lo: int, s: int, s': int)
    requires cfg.window > 0 && cfg.rate >= 1 && s <= s' && lo <= s'
    ensures Allowance(cfg, lo, s, cfg.rate) + 1 <= Allowance(cfg, lo, s', 1) + cfg.rate
    ensures 1 <= Allowance(cfg, lo, s', 1)
  {
    var q' := (s' - lo) / cfg.window;
    DivAtLeast(s' - lo, cfg.window, 0);
    MulMonotone(1, q' + 1, cfg.rate);
    if s >= lo {
      var q := (s - lo) / cfg.window;
      assert q * cfg.window <= s - lo;
      DivAtLeast(s' - lo, cfg.window, q);
      MulMonotone(q + 1, q' + 1, cfg.rate);
    }
  }

  /** The client opens a window. */
  lemma CoveredWhenOpening(cfg: Config, tracked: bool, e: Option<Entry>, admitted: int, robberies: nat,
                           lo: int, hi: int, now: int, at: int)
    requires cfg.window > 0 && cfg.rate >= 1 && now <= at < hi
    requires Covered(cfg, tracked, e, admitted, robberies, lo, hi, now)
    requires tracked ==> at - e.value.windowStart >= cfg.window
    ensures Covered(cfg, true, Some(Entry(1, at)), admitted + if lo <= at then 1 else 0, robberies, lo, hi, at)
  {
    PriceIsNatural(cfg.rate, robberies);
    if lo <= at {
      EarlyReopening(cfg, lo, at, at);
      if e.Some? {
        var s := e.value.windowStart;
        EarlyReopening(cfg, lo, s, at);
        if at - s >= cfg.window {
          NewWindow(cfg, lo, s, at);
          assert Allowance(cfg, lo, s, e.value.count) <= Allowance(cfg, lo, s, cfg.rate);
        }
      }
    }
  }

  /** The client uses its open window, or is refused. */
  lemma CoveredInWindow(cfg: Config, e: Entry, admitted: int, robberies: nat, lo: int, hi: int, now: int, at: int)
    requires cfg.window > 0 && cfg.rate >= 1 && now <= at < hi
    requires Covered(cfg, true, Some(e), admitted, robberies, lo, hi, now)
    requires at - e.windowStart < cfg.window
    ensures e.count < cfg.rate ==>
              Covered(cfg, true, Some(Entry(e.count + 1, e.windowStart)), admitted + if lo <= at then 1 else 0,
                      robberies, lo, hi, at)
    ensures Covered(cfg, true, Some(e), admitted, robberies, lo, hi, at)
  {
    PriceIsNatural(cfg.rate, robberies);
    assert Allowance(cfg, lo, e.windowStart, e.count + 1) == Allowance(cfg, lo, e.windowStart, e.count) + 1;
    assert e.windowStart < lo ==> Allowance(cfg, lo, e.windowStart, e.count) >= 0;
    if e.windowStart >= lo {
      EarlyReopening(cfg, lo, e.windowStart, e.windowStart);
    }
  }

  /** Somebody else's request, which may delete the client's entry. */
  lemma CoveredThroughOthers(cfg: Config, tracked: bool, tracked': bool, e: Option<Entry>, admitted: int,
                             robberies: nat, lo: int, hi: int, now: int, at: int)
    requires cfg.window > 0 && cfg.rate >= 1 && now <= at < hi
    requires Covered(cfg, tracked, e, admitted, robberies, lo, hi, now)
    requires tracked' ==> tracked
    ensures var robbed := tracked && !tracked' && lo <= at && at - e.value.windowStart < cfg.window;
            Covered(cfg, tracked', e, admitted, robberies + if robbed then 1 else 0, lo, hi, at)
  {
    PriceIsNatural(cfg.rate, robberies);
    if e.Some? {
      var s := e.value.windowStart;
      assert Allowance(cfg, lo, s, e.value.count) <= Allowance(cfg, lo, s, cfg.rate);
    }
  }

  /** The run so far is covered at instant `now`. */
  predicate RunCovered(cfg: Config, es: seq<Request>, key: Key, lo: int, hi: int, now: int)
    requires cfg.window > 0
  {
    Covered(cfg, key in TableAfter(cfg, es), LastEntry(cfg, es, key),
            Admitted(cfg, es, key, lo, hi), Robberies(cfg, es, key, lo, hi), lo, hi, now)
  }

  lemma OthersStep(cfg: Config, es: seq<Request>, key: Key, lo: int, hi: int)
    requires key != "" && |es| > 0 && LegalAt(cfg, es, |es| - 1) && es[|es| - 1].key != key && es[|es| - 1].at < hi
    ensures var n := |es| - 1;
            var t, u, e := TableAfter(cfg, es[..n]), TableAfter(cfg, es), LastEntry(cfg, es[..n], key);
            var robbed := key in t && key !in u && lo <= es[n].at && es[n].at - t[key].windowStart < cfg.window;
            && (key in u ==> key in t) && (key in t ==> e == Some(t[key])) && LastEntry(cfg, es, key) == e
            && Admitted(cfg, es, key, lo, hi) == Admitted(cfg, es[..n], key, lo, hi)
            && Robberies(cfg, es, key, lo, hi) == Robberies(cfg, es[..n], key, lo, hi) + if robbed then 1 else 0
  {
    LastEntryStep(cfg, es, key);
  }

  lemma OwnStep(cfg: Config, es: seq<Request>, key: Key, lo: int, hi: int)
    requires key != "" && |es| > 0 && LegalAt(cfg, es, |es| - 1) && es[|es| - 1].key == key && es[|es| - 1].at < hi
    ensures var n := |es| - 1;
            var t, u, at := TableAfter(cfg, es[..n]), TableAfter(cfg, es), es[n].at;
            var admitted := Opens(cfg, t, key, at) || t[key].count < cfg.rate;
            && (key in t ==> LastEntry(cfg, es[..n], key) == Some(t[key]))
            && key in u && LastEntry(cfg, es, key) == Some(u[key])
            && (Opens(cfg, t, key, at) <==> key !in t || at - t[key].windowStart >= cfg.window)
            && u[key] == (if Opens(cfg, t, key, at) then Entry(1, at)
                          else if admitted then Entry(t[key].count + 1, t[key].windowStart) else t[key])
            && Admitted(cfg, es, key, lo, hi)
               == Admitted(cfg, es[..n], key, lo, hi) + (if lo <= at && admitted then 1 else 0)
            && Robberies(cfg, es, key, lo, hi) == Robberies(cfg, es[..n], key, lo, hi)
  {
    LastEntryStep(cfg, es, key);
  }

  lemma RunCoveredThroughOthers(cfg: Config, es: seq<Request>, key: Key, lo: int, hi: int)
    requires cfg.rate >= 1 && cfg.window > 0 && key != "" && |es| > 0 && LegalAt(cfg, es, |es| - 1)
    requires es[|es| - 1].at < hi && RunCovered(cfg, es[..|es| - 1], key, lo, hi, es[|es| - 1].at)
    requires es[|es| - 1].key != key
    ensures RunCovered(cfg, es, key, lo, hi, es[|es| - 1].at)
  {
    var before, at := es[..|es| - 1], es[|es| - 1].at;
    OthersStep(cfg, es, key, lo, hi);
    CoveredThroughOthers(cfg, key in TableAfter(cfg, before), key in TableAfter(cfg, es), LastEntry(cfg, before, key),
                         Admitted(cfg, before, key, lo, hi), Robberies(cfg, before, key, lo, hi), lo, hi, at, at);
  }

  lemma RunCoveredWhenOpening(cfg: Config, es: seq<Request>, key: Key, lo: int, hi: int)
    requires cfg.rate >= 1 && cfg.window > 0 && key != "" && |es| > 0 && LegalAt(cfg, es, |es| - 1)
    requires es[|es| - 1].at < hi && RunCovered(cfg, es[..|es| - 1], key, lo, hi, es[|es| - 1].at)
    requires es[|es| - 1].key == key && OpensAt(cfg, es, |es| - 1)
    ensures RunCovered(cfg, es, key, lo, hi, es[|es| - 1].at)
  {
    var before, at := es[..|es| - 1], es[|es| - 1].at;
    OwnStep(cfg, es, key, lo, hi);
    CoveredWhenOpening(cfg, key in TableAfter(cfg, before), LastEntry(cfg, before, key),
                       Admitted(cfg, before, key, lo, hi), Robberies(cfg, before, key, lo, hi), lo, hi, at, at);
  }

  lemma RunCoveredInWindow(cfg: Config, es: seq<Request>, key: Key, lo: int, hi: int)
    requires cfg.rate >= 1 && cfg.window > 0 && key != "" && |es| > 0 && LegalAt(cfg, es, |es| - 1)
    requires es[|es| - 1].at < hi && RunCovered(cfg, es[..|es| - 1], key, lo, hi, es[|es| - 1].at)
    requires es[|es| - 1].key == key && !OpensAt(cfg, es, |es| - 1)
    ensures RunCovered(cfg, es, key, lo, hi, es[|es| - 1].at)
  {
    var before, at := es[..|es| - 1], es[|es| - 1].at;
    OwnStep(cfg, es, key, lo, hi);
    CoveredInWindow(cfg, TableAfter(cfg, before)[key], Admitted(cfg, before, key, lo, hi),
                    Robberies(cfg, before, key, lo, hi), lo, hi, at, at);
  }

  lemma RunCoveredStep(cfg: Config, es: seq<Request>, key: Key, lo: int, hi: int)
    requires cfg.rate >= 1 && cfg.window > 0 && key != "" && |es| > 0 && LegalAt(cfg, es, |es| - 1)
    requires es[|es| - 1].at < hi && RunCovered(cfg, es[..|es| - 1], key, lo, hi, es[|es| - 1].at)
    ensures RunCovered(cfg, es, key, lo, hi, es[|es| - 1].at)
  {
    if es[|es| - 1].key != key {
      RunCoveredThroughOthers(cfg, es, key, lo, hi);
    } else if OpensAt(cfg, es, |es| - 1) {
      RunCoveredWhenOpening(cfg, es, key, lo, hi);
    } else {
      RunCoveredInWindow(cfg, es, key, lo, hi);
    }
  }

  lemma {:induction false} AdmissionsAreCovered(cfg: Config, es: seq<Request>, key: Key, lo: int, hi: int, now: int)
    requires cfg.rate >= 1 && cfg.window > 0 && key != "" && Clocked(es) && Legal(cfg, es)
    requires now < hi && (|es| > 0 ==> es[|es| - 1].at <= now)
    ensures RunCovered(cfg, es, key, lo, hi, now)
  {
    if es != [] {
      var n := |es| - 1;
      PrefixKeepsRun(cfg, es, n);
      AdmissionsAreCovered(cfg, es[..n], key, lo, hi, es[n].at);
      RunCoveredStep(cfg, es, key, lo, hi);
      CoveredLater(cfg, key in TableAfter(cfg, es), LastEntry(cfg, es, key), Admitted(cfg, es, key, lo, hi),
                   Robberies(cfg, es, key, lo, hi), lo, hi, es[n].at, now);
    }
  }

  lemma CoveredLater(cfg: Config, tracked: bool, e: Option<Entry>, admitted: int, robberies: nat,
                     lo: int, hi: int, now: int, later: int)
    requires cfg.window > 0 && cfg.rate >= 1 && now <= later
    requires Covered(cfg, tracked, e, admitted, robberies, lo, hi, now)
    ensures Covered(cfg, tracked, e, admitted, robberies, lo, hi, later)
  {
  }

  /** The table and the last entry after one more request, as far as `key` is concerned. */
  lemma LastEntryStep(cfg: Config, es: seq<Request>, key: Key)
    requires |es| > 0 && key != "" && LegalAt(cfg, es, |es| - 1)
    ensures var n := |es| - 1;
            var t, u := TableAfter(cfg, es[..n]), TableAfter(cfg, es);
            && (key in t ==> LastEntry(cfg, es[..n], key) == Some(t[key]))
            && LastEntry(cfg, es, key) == (if key in u then Some(u[key]) else LastEntry(cfg, es[..n], key))
            && (es[n].key != key ==>
                  && (key in u ==> key in t && u[key] == t[key])
                  && (EvictsAt(cfg, es, n, key) <==> key in t && key !in u))
            && (es[n].key == key ==> !EvictsAt(cfg, es, n, key) && key in u)
  {
    var n := |es| - 1;
    assert n > 0 || TableAfter(cfg, es[..n]) == map[];
  }

  lemma CoveredWithinBound(cfg: Config, tracked: bool, e: Option<Entry>, admitted: int, robberies: nat,
                           lo: int, hi: int, n: nat, now: int)
    requires cfg.rate >= 1 && cfg.window > 0 && hi == lo + n * cfg.window && now < hi
    requires Covered(cfg, tracked, e, admitted, robberies, lo, hi, now)
    ensures admitted <= (n + 1) * cfg.rate - 1 + Price(cfg.rate, robberies)
  {
    PriceIsNatural(cfg.rate, robberies);
    MulMonotone(1, n + 1, cfg.rate);
    if e.Some? {
      AllowanceBelow(cfg, lo, e.value.windowStart, e.value.count, n);
      AllowanceBelow(cfg, lo, e.value.windowStart, cfg.rate, n);
    }
  }

  lemma LatecomersDoNotCount(cfg: Config, es: seq<Request>, key: Key, lo: int, hi: int)
    requires |es| > 0 && es[|es| - 1].at >= hi
    ensures Admitted(cfg, es, key, lo, hi) == Admitted(cfg, es[..|es| - 1], key, lo, hi)
    ensures Robberies(cfg, es, key, lo, hi) == Robberies(cfg, es[..|es| - 1], key, lo, hi)
    ensures forall from ::
              ForeignOpenings(cfg, es, key, from, hi) == ForeignOpenings(cfg, es[..|es| - 1], key, from, hi)
  {
  }

  lemma {:induction false} AdmittedWithinPrice(cfg: Config, es: seq<Request>, key: Key, lo: int, hi: int, n: nat)
    requires cfg.rate >= 1 && cfg.window > 0 && key != "" && Clocked(es) && Legal(cfg, es)
    requires hi == lo + n * cfg.window
    ensures Admitted(cfg, es, key, lo, hi) <= (n + 1) * cfg.rate - 1 + Price(cfg.rate, Robberies(cfg, es, key, lo, hi))
  {
    if es == [] {
      MulMonotone(1, n + 1, cfg.rate);
    } else if es[|es| - 1].at >= hi {
      PrefixKeepsRun(cfg, es, |es| - 1);
      LatecomersDoNotCount(cfg, es, key, lo, hi);
      AdmittedWithinPrice(cfg, es[..|es| - 1], key, lo, hi, n);
    } else {
      var now := es[|es| - 1].at;
      AdmissionsAreCovered(cfg, es, key, lo, hi, now);
      CoveredWithinBound(cfg, key in TableAfter(cfg, es), LastEntry(cfg, es, key), Admitted(cfg, es, key, lo, hi),
                         Robberies(cfg, es, key, lo, hi), lo, hi, n, now);
    }
  }

  /** Whatever is evicted, a client gains at most one rate for each time it is robbed of a live entry. */
  lemma RateBoundWithRobberies(cfg: Config, es: seq<Request>, key: Key, lo: int, n: nat)
    requires cfg.rate >= 1 && cfg.window > 0 && key != "" && Clocked(es) && Legal(cfg, es)
    ensures var hi := lo + n * cfg.window;
            Admitted(cfg, es, key, lo, hi) <= (n + 1) * cfg.rate - 1 + Robberies(cfg, es, key, lo, hi) * cfg.rate
  {
    var hi := lo + n * cfg.window;
    AdmittedWithinPrice(cfg, es, key, lo, hi, n);
    InProducts(Admitted(cfg, es, key, lo, hi), (n + 1) * cfg.rate - 1, cfg.rate, Robberies(cfg, es, key, lo, hi));
  }

  lemma InProducts(admitted: int, bound: int, rate: int, robberies: nat)
    requires admitted <= bound + Price(rate, robberies)
    ensures admitted <= bound + robberies * rate
  {
    PriceIsProduct(rate, robberies);
  }

  // ----- What the others pay -----

  lemma OpenersGrow(cfg: Config, es: seq<Request>, lo: int, hi: int)
    requires |es| > 0
    ensures var n := |es| - 1;
            Openers(cfg, es, lo, hi)
            <= Openers(cfg, es[..n], lo, hi) + if lo <= es[n].at <= hi && OpensAt(cfg, es, n) then {es[n].key} else {}
  {
    var n := |es| - 1;
    forall k | k in Openers(cfg, es, lo, hi)
      ensures k in Openers(cfg, es[..n], lo, hi) || (lo <= es[n].at <= hi && OpensAt(cfg, es, n) && k == es[n].key)
    {
      var i :| 0 <= i < |es| && lo <= es[i].at <= hi && OpensAt(cfg, es, i) && es[i].key == k;
      if i < n {
        PrefixOf(es, n, i);
        assert OpensAt(cfg, es[..n], i) && es[..n][i] == es[i];
      }
    }
  }

  /** Every other key that opened a window in [lo, hi] accounts for an opening of its own. */
  lemma {:induction false} OpenersAreOpenings(cfg: Config, es: seq<Request>, key: Key, lo: int, hi: int)
    ensures |Openers(cfg, es, lo, hi) - {key}| <= ForeignOpenings(cfg, es, key, lo, hi + 1)
  {
    if es == [] {
    } else {
      var n := |es| - 1;
      var before, after := Openers(cfg, es[..n], lo, hi), Openers(cfg, es, lo, hi);
      OpenersAreOpenings(cfg, es[..n], key, lo, hi);
      var counted := es[n].key != key && lo <= es[n].at <= hi && OpensAt(cfg, es, n);
      OpenersGrow(cfg, es, lo, hi);
      SubsetSize(after - {key}, if counted then before - {key} + {es[n].key} else before - {key});
    }
  }

  lemma {:induction false} OpeningsSplit(cfg: Config, es: seq<Request>, key: Key, lo: int, mid: int, hi: int)
    requires lo <= mid <= hi
    ensures ForeignOpenings(cfg, es, key, lo, hi)
         == ForeignOpenings(cfg, es, key, lo, mid) + ForeignOpenings(cfg, es, key, mid, hi)
  {
    if es == [] {
    } else {
      OpeningsSplit(cfg, es[..|es| - 1], key, lo, mid, hi);
    }
  }

  /** A robbery costs maxKeys openings since the robbed window began. */
  lemma RobberyCosts(cfg: Config, es: seq<Request>, key: Key, s: int, at: int)
    requires |es| > 0 && Clocked(es) && Legal(cfg, es) && EvictsAt(cfg, es, |es| - 1, key)
    requires s == TableAfter(cfg, es[..|es| - 1])[key].windowStart && at == es[|es| - 1].at
    ensures ForeignOpenings(cfg, es, key, s, at + 1) >= cfg.maxKeys
  {
    EvictionCost(cfg, es, key);
    assert |Openers(cfg, es, s, at) - {key}| >= cfg.maxKeys;
    OpenersAreOpenings(cfg, es, key, s, at);
  }

  lemma {:induction false} OpeningsGrow(cfg: Config, es: seq<Request>, key: Key, lo: int, hi: int, hi': int)
    requires hi <= hi'
    ensures ForeignOpenings(cfg, es, key, lo, hi) <= ForeignOpenings(cfg, es, key, lo, hi')
    ensures |es| > 0 ==> ForeignOpenings(cfg, es[..|es| - 1], key, lo, hi) <= ForeignOpenings(cfg, es, key, lo, hi')
  {
    if es != [] {
      OpeningsGrow(cfg, es[..|es| - 1], key, lo, hi, hi');
    }
  }

  /** When the present window of `key` began, or `end` if it has none. */
  function StartOr(t: Table, key: Key, end: int): int {
    if key in t then t[key].windowStart else end
  }

  /** Robberies do not share their cost: all of it was paid before `end`. */
  predicate PaidUp(cfg: Config, es: seq<Request>, key: Key, lo: int, hi: int, end: int) {
    Price(cfg.maxKeys, Robberies(cfg, es, key, lo, hi)) <= ForeignOpenings(cfg, es, key, lo - cfg.window, end)
  }

  lemma RobberyIsExtra(cfg: Config, es: seq<Request>, key: Key, from: int, end: int)
    requires |es| > 0 && Clocked(es) && Legal(cfg, es) && es[|es| - 1].at < end && EvictsAt(cfg, es, |es| - 1, key)
    requires from <= TableAfter(cfg, es[..|es| - 1])[key].windowStart <= es[|es| - 1].at
    ensures var s := TableAfter(cfg, es[..|es| - 1])[key].windowStart;
            ForeignOpenings(cfg, es, key, from, end) >= ForeignOpenings(cfg, es[..|es| - 1], key, from, s) + cfg.maxKeys
  {
    var n := |es| - 1;
    var at, s := es[n].at, TableAfter(cfg, es[..n])[key].windowStart;
    RobberyCosts(cfg, es, key, s, at);
    OpeningsSplit(cfg, es, key, from, s, at + 1);
    OpeningsGrow(cfg, es, key, from, s, s);
    OpeningsGrow(cfg, es, key, from, at + 1, end);
  }

  lemma RobberiesStep(cfg: Config, es: seq<Request>, key: Key, lo: int, hi: int)
    requires |es| > 0
    ensures var n := |es| - 1;
            Price(cfg.maxKeys, Robberies(cfg, es, key, lo, hi))
            == Price(cfg.maxKeys, Robberies(cfg, es[..n], key, lo, hi))
               + if lo <= es[n].at < hi && RobsAt(cfg, es, n, key) then cfg.maxKeys else 0
  {
  }

  /** A request leaves a window start alone, or deletes it, or is its key's own and sets it to its time. */
  lemma StartMovesOn(cfg: Config, es: seq<Request>, key: Key, end: int)
    requires |es| > 0 && key != "" && LegalAt(cfg, es, |es| - 1) && es[|es| - 1].at < end
    ensures var n := |es| - 1;
            var t := TableAfter(cfg, es[..n]);
            var s, s' := StartOr(t, key, es[n].at + 1), StartOr(TableAfter(cfg, es), key, end);
            && (s' == s || s' == end || (es[n].key == key && s' == es[n].at))
            && (EvictsAt(cfg, es, n, key) ==> s' == end && s == t[key].windowStart)
  {
    LastEntryStep(cfg, es, key);
  }

  lemma {:induction false} NoOpeningsAt(cfg: Config, es: seq<Request>, key: Key, lo: int, at: int)
    requires forall i :: 0 <= i < |es| && es[i].key != key ==> es[i].at < at
    ensures ForeignOpenings(cfg, es, key, lo, at + 1) == ForeignOpenings(cfg, es, key, lo, at)
  {
    if es != [] {
      NoOpeningsAt(cfg, es[..|es| - 1], key, lo, at);
    }
  }

  /** What the others have opened by the time of the last request is enough for the window it leaves. */
  lemma OpeningsCarryOver(cfg: Config, es: seq<Request>, key: Key, from: int, s: int, s': int, end: int)
    requires |es| > 0 && NeverTrails(es, key) && es[|es| - 1].at < end && s <= es[|es| - 1].at + 1
    requires s' == s || s' == end || (es[|es| - 1].key == key && s' == es[|es| - 1].at)
    ensures ForeignOpenings(cfg, es[..|es| - 1], key, from, s) <= ForeignOpenings(cfg, es, key, from, s')
  {
    var n := |es| - 1;
    if s <= s' {
      OpeningsGrow(cfg, es, key, from, s, s');
    } else {
      forall i | 0 <= i < n && es[..n][i].key != key
        ensures es[..n][i].at < es[n].at
      {
        assert es[i].key != key && es[n].key == key;
      }
      NoOpeningsAt(cfg, es[..n], key, from, es[n].at);
      OpeningsGrow(cfg, es[..n], key, from, s, es[n].at + 1);
      OpeningsGrow(cfg, es, key, from, s', s');
    }
  }

  lemma StartsInThePast(cfg: Config, es: seq<Request>, key: Key)
    requires Clocked(es) && key in TableAfter(cfg, es)
    ensures |es| > 0 && TableAfter(cfg, es)[key].windowStart <= es[|es| - 1].at
  {
    var i := Anchored(cfg, es, key);
  }

  lemma PaidUpAfterRobbery(cfg: Config, es: seq<Request>, key: Key, lo: int, hi: int, end: int)
    requires |es| > 0 && Clocked(es) && Legal(cfg, es) && es[|es| - 1].at < end
    requires RobsAt(cfg, es, |es| - 1, key) && lo <= es[|es| - 1].at < hi
    requires PaidUp(cfg, es[..|es| - 1], key, lo, hi, TableAfter(cfg, es[..|es| - 1])[key].windowStart)
    ensures PaidUp(cfg, es, key, lo, hi, end)
  {
    PrefixKeepsRun(cfg, es, |es| - 1);
    StartsInThePast(cfg, es[..|es| - 1], key);
    RobberiesStep(cfg, es, key, lo, hi);
    RobberyIsExtra(cfg, es, key, lo - cfg.window, end);
  }

  lemma PaidUpOtherwise(cfg: Config, es: seq<Request>, key: Key, lo: int, hi: int, s: int, s': int, end: int)
    requires |es| > 0 && NeverTrails(es, key) && es[|es| - 1].at < end && s <= es[|es| - 1].at + 1
    requires s' == s || s' == end || (es[|es| - 1].key == key && s' == es[|es| - 1].at)
    requires !(RobsAt(cfg, es, |es| - 1, key) && lo <= es[|es| - 1].at < hi)
    requires PaidUp(cfg, es[..|es| - 1], key, lo, hi, s)
    ensures PaidUp(cfg, es, key, lo, hi, s')
  {
    RobberiesStep(cfg, es, key, lo, hi);
    OpeningsCarryOver(cfg, es, key, lo - cfg.window, s, s', end);
  }

  lemma {:induction false} RobberiesArePaid(cfg: Config, es: seq<Request>, key: Key, lo: int, hi: int, end: int)
    requires key != "" && Clocked(es) && NeverTrails(es, key) && Legal(cfg, es)
    requires |es| > 0 ==> es[|es| - 1].at < end
    ensures PaidUp(cfg, es, key, lo, hi, StartOr(TableAfter(cfg, es), key, end))
  {
    if es != [] {
      var n := |es| - 1;
      var s := StartOr(TableAfter(cfg, es[..n]), key, es[n].at + 1);
      PrefixKeepsRun(cfg, es, n);
      RobberiesArePaid(cfg, es[..n], key, lo, hi, es[n].at + 1);
      StartMovesOn(cfg, es, key, end);
      if RobsAt(cfg, es, n, key) && lo <= es[n].at < hi {
        PaidUpAfterRobbery(cfg, es, key, lo, hi, end);
      } else {
        StartIsNotLater(cfg, es, key);
        PaidUpOtherwise(cfg, es, key, lo, hi, s, StartOr(TableAfter(cfg, es), key, end), end);
      }
    }
  }

  lemma StartIsNotLater(cfg: Config, es: seq<Request>, key: Key)
    requires |es| > 0 && Clocked(es)
    ensures StartOr(TableAfter(cfg, es[..|es| - 1]), key, es[|es| - 1].at + 1) <= es[|es| - 1].at + 1
  {
    if key in TableAfter(cfg, es[..|es| - 1]) {
      StartsInThePast(cfg, es[..|es| - 1], key);
    }
  }

  lemma {:induction false} RobberiesCost(cfg: Config, es: seq<Request>, key: Key, lo: int, hi: int)
    requires key != "" && Clocked(es) && NeverTrails(es, key) && Legal(cfg, es)
    ensures PaidUp(cfg, es, key, lo, hi, hi)
  {
    if |es| > 0 && es[|es| - 1].at >= hi {
      PrefixKeepsRun(cfg, es, |es| - 1);
      LatecomersDoNotCount(cfg, es, key, lo, hi);
      RobberiesCost(cfg, es[..|es| - 1], key, lo, hi);
    } else {
      RobberiesArePaid(cfg, es, key, lo, hi, hi);
      if key in TableAfter(cfg, es) {
        StartsInThePast(cfg, es, key);
      }
      OpeningsGrow(cfg, es, key, lo - cfg.window, StartOr(TableAfter(cfg, es), key, hi), hi);
    }
  }

  /**
    The price of going over the limit. Each rate's worth of requests a client gets
    through beyond (n+1)*rate-1 in n windows takes maxKeys windows opened by other keys,
    in those n windows or the one before, as long as the client does not reopen at an
    instant at which others have just opened.
   */
  lemma GainIsPaidFor(cfg: Config, es: seq<Request>, key: Key, lo: int, n: nat)
    requires cfg.rate >= 1 && cfg.window > 0 && cfg.maxKeys >= 1 && key != ""
    requires Clocked(es) && NeverTrails(es, key) && Legal(cfg, es)
    ensures var hi := lo + n * cfg.window;
            (Admitted(cfg, es, key, lo, hi) - ((n + 1) * cfg.rate - 1)) * cfg.maxKeys
            <= cfg.rate * ForeignOpenings(cfg, es, key, lo - cfg.window, hi)
  {
    var hi := lo + n * cfg.window;
    var gain := Admitted(cfg, es, key, lo, hi) - ((n + 1) * cfg.rate - 1);
    var robberies := Robberies(cfg, es, key, lo, hi);
    RateBoundWithRobberies(cfg, es, key, lo, n);
    RobberiesCost(cfg, es, key, lo, hi);
    PriceIsProduct(cfg.maxKeys, robberies);
    Scale(gain, robberies, cfg.rate, cfg.maxKeys, ForeignOpenings(cfg, es, key, lo - cfg.window, hi));
  }

  lemma Scale(gain: int, robberies: int, rate: nat, cap: nat, paid: int)
    requires gain <= robberies * rate && robberies * cap <= paid
    ensures gain * cap <= rate * paid
  {
    MulMonotone(gain, robberies * rate, cap);
    MulMonotone(robberies * cap, paid, rate);
    assert robberies * rate * cap == robberies * cap * rate;
  }

  // ----- At one instant -----

  /** A run at instant 0 with the keys it leaves, the admissions of a and the openings of the others. */
  predicate Tallies(cfg: Config, es: seq<Request>, a: Key, keys: set<Key>, admitted: nat, openings: nat) {
    && Legal(cfg, es) && (forall i :: 0 <= i < |es| ==> es[i].at == 0)
    && TableAfter(cfg, es) == (map k | k in keys :: Entry(1, 0))
    && Admitted(cfg, es, a, 0, cfg.window) == admitted
    && ForeignOpenings(cfg, es, a, -cfg.window, cfg.window) == openings
  }

  /** A key comes in, pushing out another if there are two already. */
  lemma TalliesNext(cfg: Config, es: seq<Request>, a: Key, keys: set<Key>, admitted: nat, openings: nat,
                    key: Key, victim: Key)
    requires cfg.maxKeys == 2 && cfg.window > 0 && Tallies(cfg, es, a, keys, admitted, openings)
    requires key !in keys && if |keys| < 2 then victim == key else victim in keys && victim != ""
    ensures Tallies(cfg, es + [Request(key, 0, victim)], a, keys - {victim} + {key},
                    admitted + if key == a then 1 else 0, openings + if key == a then 0 else 1)
  {
    var e, t := Request(key, 0, victim), TableAfter(cfg, es);
    assert t.Keys == keys;
    LimiterCapacity.Extend(cfg, es, e);
    assert (es + [e])[..|es|] == es;
  }

  lemma ScrambleStarts(cfg: Config, a: Key, b: Key, none: seq<Request>)
    requires cfg.maxKeys == 2 && cfg.window > 0 && a != b && none == []
    ensures Tallies(cfg, none + [Request(a, 0, a)] + [Request(b, 0, b)], a, {a, b}, 1, 1)
  {
    assert Tallies(cfg, none, a, {}, 0, 0);
    TalliesNext(cfg, none, a, {}, 0, 0, a, a);
    assert {} - {a} + {a} == {a} && {a} - {b} + {b} == {a, b};
    TalliesNext(cfg, none + [Request(a, 0, a)], a, {a}, 1, 0, b, b);
  }

  /** Full tables that differ in a and c only. */
  predicate Trade(ab: set<Key>, bc: set<Key>, a: Key, c: Key) {
    && |ab| == 2 && a in ab && c !in ab && ab - {a} + {c} == bc && a != ""
    && |bc| == 2 && c in bc && a !in bc && bc - {c} + {a} == ab && c != ""
  }

  /** In a table of two a and c push each other out, b being as old as both. */
  lemma ScrambleOnce(cfg: Config, es: seq<Request>, ab: set<Key>, bc: set<Key>, a: Key, c: Key, m: nat)
    requires cfg.maxKeys == 2 && cfg.window > 0 && Trade(ab, bc, a, c) && Tallies(cfg, es, a, ab, m, m)
    ensures Tallies(cfg, es + [Request(c, 0, a)] + [Request(a, 0, c)], a, ab, m + 1, m + 1)
  {
    TalliesNext(cfg, es, a, ab, m, m, c, a);
    TalliesNext(cfg, es + [Request(c, 0, a)], a, bc, m, m + 1, a, c);
  }

  lemma {:induction false} Scramble(cfg: Config, es: seq<Request>, ab: set<Key>, bc: set<Key>, a: Key, c: Key, m: nat)
      returns (fs: seq<Request>)
    requires cfg.maxKeys == 2 && cfg.window > 0 && Trade(ab, bc, a, c) && Tallies(cfg, es, a, ab, 1, 1)
    ensures Tallies(cfg, fs, a, ab, m + 1, m + 1)
  {
    fs := es;
    if m > 0 {
      fs := Scramble(cfg, es, ab, bc, a, c, m - 1);
      ScrambleOnce(cfg, fs, ab, bc, a, c, m);
      fs := fs + [Request(c, 0, a)] + [Request(a, 0, c)];
    }
  }

  /**
    Without NeverTrails the gain need not be paid for: at one instant the same openings
    are charged again and again. Here every opening of another key is worth an admission,
    where the bound asks for two openings each.
   */
  lemma GainCanBeCheapAtOneInstant(m: nat) returns (cfg: Config, es: seq<Request>)
    requires m >= 2
    ensures cfg.rate == 1 && cfg.window == 10 && cfg.maxKeys == 2 && Clocked(es) && Legal(cfg, es)
    ensures Admitted(cfg, es, "a", 0, 10) == ForeignOpenings(cfg, es, "a", -10, 10) == m + 1
    ensures (Admitted(cfg, es, "a", 0, 10) - ((1 + 1) * cfg.rate - 1)) * cfg.maxKeys
            > cfg.rate * ForeignOpenings(cfg, es, "a", -10, 10)
  {
    cfg := Config(1, 10, 2);
    var a, b, c := "a", "b", "c";
    ScrambleStarts(cfg, a, b, []);
    assert {a, b} - {a} + {c} == {b, c} && {b, c} - {c} + {a} == {a, b};
    es := Scramble(cfg, [] + [Request(a, 0, a)] + [Request(b, 0, b)], {a, b}, {b, c}, a, c, m);
  }
}
