/**
  Whole runs of the limiter: what eviction costs whoever provokes it, when the bounded
  limiter behaves like one private counter per client, and how large the table gets.
 */
module LimiterRuns {
  import opened Basics
  import opened Limiter

  datatype Request = Request(key: Key, at: int, victim: Key)

  function TableFrom(cfg: Config, start: Table, es: seq<Request>): Table {
    if es == [] then start
    else
      var e := es[|es| - 1];
      Next(cfg, TableFrom(cfg, start, es[..|es| - 1]), e.key, e.at, e.victim)
  }

  function TableAfter(cfg: Config, es: seq<Request>): Table {
    TableFrom(cfg, map[], es)
  }

  function DecisionAt(cfg: Config, es: seq<Request>, i: nat): Decision
    requires i < |es|
  {
    Decide(cfg, TableAfter(cfg, es[..i]), es[i].key, es[i].at)
  }

  predicate Clocked(es: seq<Request>) {
    forall i, j :: 0 <= i <= j < |es| ==> es[i].at <= es[j].at
  }

  predicate LegalAt(cfg: Config, es: seq<Request>, i: nat)
    requires i < |es|
  {
    LegalVictim(cfg, TableAfter(cfg, es[..i]), es[i].key, es[i].victim)
  }

  predicate Legal(cfg: Config, es: seq<Request>) {
    forall i :: 0 <= i < |es| ==> LegalAt(cfg, es, i)
  }

  predicate OpensAt(cfg: Config, es: seq<Request>, i: nat)
    requires i < |es|
  {
    Opens(cfg, TableAfter(cfg, es[..i]), es[i].key, es[i].at)
  }

  /** Request i makes the limiter delete the entry of `key`. */
  predicate EvictsAt(cfg: Config, es: seq<Request>, i: nat, key: Key)
    requires i < |es|
  {
    var t := TableAfter(cfg, es[..i]);
    key != "" && key in t && Crowds(cfg, t, es[i].key) && es[i].victim == key
  }

  /** The keys that opened a window in [lo, hi]. */
  function Openers(cfg: Config, es: seq<Request>, lo: int, hi: int): set<Key> {
    set i | 0 <= i < |es| && lo <= es[i].at <= hi && OpensAt(cfg, es, i) :: es[i].key
  }

  lemma PrefixOf<T>(es: seq<T>, n: nat, i: nat)
    requires i <= n <= |es|
    ensures es[..n][..i] == es[..i]
  {
  }

  /** Every tracked entry stems from a request that opened its window. */
  lemma {:induction false} Anchored(cfg: Config, es: seq<Request>, key: Key) returns (i: nat)
    requires key in TableAfter(cfg, es)
    ensures i < |es| && es[i].key == key && OpensAt(cfg, es, i)
    ensures es[i].at == TableAfter(cfg, es)[key].windowStart
  {
    var n := |es| - 1;
    if es[n].key == key && OpensAt(cfg, es, n) {
      i := n;
    } else {
      i := Anchored(cfg, es[..n], key);
      PrefixOf(es, n, i);
    }
  }

  /**
    Eviction is never cheap: pushing out a key whose window started at s takes at least
    maxKeys other distinct keys that opened a window between s and now, whatever the
    iteration order and however ties are broken.
   */
  lemma EvictionCost(cfg: Config, es: seq<Request>, key: Key)
    requires |es| > 0 && Clocked(es) && Legal(cfg, es) && EvictsAt(cfg, es, |es| - 1, key)
    ensures var n := |es| - 1;
            var s := TableAfter(cfg, es[..n])[key].windowStart;
            |Openers(cfg, es, s, es[n].at) - {key}| >= cfg.maxKeys
  {
    var n := |es| - 1;
    var t := TableAfter(cfg, es[..n]);
    var s := t[key].windowStart;
    var rivals := t.Keys - {key} + {es[n].key};
    assert LegalAt(cfg, es, n);
    assert |t.Keys - {key}| == |t.Keys| - 1;
    forall k | k in rivals
      ensures k in Openers(cfg, es, s, es[n].at)
    {
      if k == es[n].key {
        assert OpensAt(cfg, es, n);
        var a := Anchored(cfg, es[..n], key);
        assert es[a].at == s <= es[n].at;
      } else {
        var i := Anchored(cfg, es[..n], k);
        PrefixOf(es, n, i);
        assert OpensAt(cfg, es, i);
      }
    }
    SubsetSize(rivals, Openers(cfg, es, s, es[n].at) - {key});
  }

  lemma SubsetSize<T>(a: set<T>, b: set<T>)
    requires a <= b
    ensures |a| <= |b|
  {
    assert b == a + (b - a);
  }

  // ----- One private counter per client, as reference -----

  /** A client's counter when nobody else exists: no table, no cap, no eviction. */
  function SoloNext(cfg: Config, e: Option<Entry>, now: int): Entry {
    if e.None? || now - e.value.windowStart >= cfg.window then Entry(1, now)
    else if e.value.count < cfg.rate then Entry(e.value.count + 1, e.value.windowStart)
    else e.value
  }

  function SoloDecide(cfg: Config, e: Option<Entry>, now: int): Decision {
    if e.None? || now - e.value.windowStart >= cfg.window || e.value.count < cfg.rate then Decision(true, 0)
    else Decision(false, Max(cfg.window - (now - e.value.windowStart), SECOND))
  }

  function SoloFrom(cfg: Config, start: Option<Entry>, times: seq<int>): Option<Entry> {
    if times == [] then start
    else Some(SoloNext(cfg, SoloFrom(cfg, start, times[..|times| - 1]), times[|times| - 1]))
  }

  function Times(es: seq<Request>, key: Key): seq<int> {
    if es == [] then []
    else
      var e := es[|es| - 1];
      Times(es[..|es| - 1], key) + if e.key == key then [e.at] else []
  }

  function Solo(cfg: Config, es: seq<Request>, key: Key): Option<Entry> {
    SoloFrom(cfg, None, Times(es, key))
  }

  lemma SoloStep(cfg: Config, es: seq<Request>, key: Key)
    requires |es| > 0
    ensures var e := es[|es| - 1];
            var before := Solo(cfg, es[..|es| - 1], key);
            Solo(cfg, es, key) == if e.key == key then Some(SoloNext(cfg, before, e.at)) else before
  {
    var n := |es| - 1;
    if es[n].key == key {
      assert Times(es, key)[..|Times(es, key)| - 1] == Times(es[..n], key);
    } else {
      assert Times(es, key) == Times(es[..n], key);
    }
  }

  /** The table and a private counter agree on `key`, up to an entry that has run out by `now`. */
  predicate Tracks(cfg: Config, t: Table, e: Option<Entry>, key: Key, now: int) {
    if key in t then e == Some(t[key])
    else e.Some? ==> now - e.value.windowStart >= cfg.window
  }

  /** No unexpired entry of `key` is evicted during the run. */
  predicate Spares(cfg: Config, es: seq<Request>, key: Key) {
    forall i :: 0 <= i < |es| && EvictsAt(cfg, es, i, key) ==>
      es[i].at - TableAfter(cfg, es[..i])[key].windowStart >= cfg.window
  }

  lemma PrefixKeepsRun(cfg: Config, es: seq<Request>, n: nat)
    requires n <= |es|
    ensures Legal(cfg, es) ==> Legal(cfg, es[..n])
    ensures Clocked(es) ==> Clocked(es[..n])
    ensures forall k :: Spares(cfg, es, k) ==> Spares(cfg, es[..n], k)
  {
    forall i | 0 <= i < n
      ensures es[..n][..i] == es[..i]
      ensures LegalAt(cfg, es, i) <==> LegalAt(cfg, es[..n], i)
      ensures forall k :: EvictsAt(cfg, es, i, k) <==> EvictsAt(cfg, es[..n], i, k)
    {
      PrefixOf(es, n, i);
    }
  }

  lemma TracksStep(cfg: Config, t: Table, e: Option<Entry>, key: Key, r: Request, now: int)
    requires Tracks(cfg, t, e, key, r.at) && r.at <= now
    requires key != "" && key in t && Crowds(cfg, t, r.key) && r.victim == key ==>
               r.at - t[key].windowStart >= cfg.window
    ensures Tracks(cfg, Next(cfg, t, r.key, r.at, r.victim),
                   if r.key == key then Some(SoloNext(cfg, e, r.at)) else e, key, now)
  {
  }

  lemma {:induction false} SparedKeyTracks(cfg: Config, es: seq<Request>, key: Key, now: int)
    requires Clocked(es) && Spares(cfg, es, key)
    requires |es| > 0 ==> es[|es| - 1].at <= now
    ensures Tracks(cfg, TableAfter(cfg, es), Solo(cfg, es, key), key, now)
  {
    if es == [] {
    } else {
      var n := |es| - 1;
      PrefixKeepsRun(cfg, es, n);
      SparedKeyTracks(cfg, es[..n], key, es[n].at);
      SoloStep(cfg, es, key);
      assert EvictsAt(cfg, es, n, key) ==> es[n].at - TableAfter(cfg, es[..n])[key].windowStart >= cfg.window;
      TracksStep(cfg, TableAfter(cfg, es[..n]), Solo(cfg, es[..n], key), key, es[n], now);
    }
  }

  /** A client whose live entry is never evicted cannot tell the shared table from a private counter. */
  lemma SparedKeyAgrees(cfg: Config, es: seq<Request>, i: nat)
    requires i < |es| && Clocked(es) && Spares(cfg, es, es[i].key)
    ensures DecisionAt(cfg, es, i) == SoloDecide(cfg, Solo(cfg, es[..i], es[i].key), es[i].at)
  {
    PrefixKeepsRun(cfg, es, i);
    SparedKeyTracks(cfg, es[..i], es[i].key, es[i].at);
  }

  // ----- Agreement under bounded load -----

  /** The keys that sent a request in [a, a + window). */
  function ActiveKeys(cfg: Config, es: seq<Request>, a: int): set<Key> {
    set i | 0 <= i < |es| && a <= es[i].at < a + cfg.window :: es[i].key
  }

  ghost predicate LoadAtMost(cfg: Config, es: seq<Request>, n: int) {
    forall a :: |ActiveKeys(cfg, es, a)| <= n
  }

  /** Evicting an unexpired entry means that more than maxKeys keys were active since it opened. */
  lemma UnexpiredEvictionIsOverload(cfg: Config, es: seq<Request>, key: Key)
    requires |es| > 0 && Clocked(es) && Legal(cfg, es) && EvictsAt(cfg, es, |es| - 1, key)
    requires es[|es| - 1].at - TableAfter(cfg, es[..|es| - 1])[key].windowStart < cfg.window
    ensures |ActiveKeys(cfg, es, TableAfter(cfg, es[..|es| - 1])[key].windowStart)| > cfg.maxKeys
  {
    var n := |es| - 1;
    var s := TableAfter(cfg, es[..n])[key].windowStart;
    EvictionCost(cfg, es, key);
    var rivals := Openers(cfg, es, s, es[n].at) - {key};
    var a := Anchored(cfg, es[..n], key);
    assert es[a].key == key && es[a].at == s <= es[n].at;
    SubsetSize(rivals + {key}, ActiveKeys(cfg, es, s));
  }

  lemma ActiveKeysGrow(cfg: Config, es: seq<Request>, n: nat, a: int)
    requires n <= |es|
    ensures |ActiveKeys(cfg, es[..n], a)| <= |ActiveKeys(cfg, es, a)|
  {
    SubsetSize(ActiveKeys(cfg, es[..n], a), ActiveKeys(cfg, es, a));
  }

  /** Under the load the table is sized for, no unexpired entry is ever evicted. */
  lemma LightLoadSpares(cfg: Config, es: seq<Request>, key: Key)
    requires Clocked(es) && Legal(cfg, es)
    requires cfg.maxKeys > 0 ==> LoadAtMost(cfg, es, cfg.maxKeys)
    ensures Spares(cfg, es, key)
  {
    forall i | 0 <= i < |es| && EvictsAt(cfg, es, i, key)
      ensures es[i].at - TableAfter(cfg, es[..i])[key].windowStart >= cfg.window
    {
      var s := TableAfter(cfg, es[..i])[key].windowStart;
      PrefixOf(es, i + 1, i);
      assert |ActiveKeys(cfg, es, s)| <= cfg.maxKeys;
      if es[i].at - s < cfg.window {
        PrefixKeepsRun(cfg, es, i + 1);
        UnexpiredEvictionIsOverload(cfg, es[..i + 1], key);
        ActiveKeysGrow(cfg, es, i + 1, s);
        assert false;
      }
    }
  }

  /**
    If at most maxKeys distinct keys are active in any interval of one window length,
    every decision and every wait is that of a private counter per client. The same
    holds without any load condition when bounding is off.
   */
  lemma BoundedAgreesUnderLoad(cfg: Config, es: seq<Request>, i: nat)
    requires Clocked(es) && Legal(cfg, es) && i < |es|
    requires cfg.maxKeys > 0 ==> LoadAtMost(cfg, es, cfg.maxKeys)
    ensures DecisionAt(cfg, es, i) == SoloDecide(cfg, Solo(cfg, es[..i], es[i].key), es[i].at)
  {
    LightLoadSpares(cfg, es, es[i].key);
    SparedKeyAgrees(cfg, es, i);
  }
}
