/**
  How much the table can hold, and exactly which populations of clients it serves
  without anybody noticing the cap.
 */
module LimiterCapacity {
  import opened Basics
  import opened Limiter
  import opened LimiterRuns

  /** Every request of the run comes from one of the `clients`. */
  predicate From(es: seq<Request>, clients: set<Key>) {
    forall i :: 0 <= i < |es| ==> es[i].key in clients
  }

  lemma Extend(cfg: Config, es: seq<Request>, e: Request)
    requires LegalVictim(cfg, TableAfter(cfg, es), e.key, e.victim)
    requires Legal(cfg, es)
    ensures Legal(cfg, es + [e])
    ensures TableAfter(cfg, es + [e]) == Next(cfg, TableAfter(cfg, es), e.key, e.at, e.victim)
    ensures DecisionAt(cfg, es + [e], |es|) == Decide(cfg, TableAfter(cfg, es), e.key, e.at)
  {
    var fs := es + [e];
    assert fs[..|es|] == es;
    forall i | 0 <= i < |es|
      ensures LegalAt(cfg, fs, i)
    {
      assert fs[..i] == es[..i];
      assert LegalAt(cfg, es, i);
    }
  }

  lemma {:induction false} TableWithin(cfg: Config, es: seq<Request>, clients: set<Key>)
    requires From(es, clients)
    ensures TableAfter(cfg, es).Keys <= clients
  {
    if es == [] {
    } else {
      TableWithin(cfg, es[..|es| - 1], clients);
    }
  }

  /** In every state a named client can reach, every count is in 1..rate and the cap holds. */
  lemma {:induction false} CapacityInvariant(cfg: Config, es: seq<Request>)
    requires cfg.rate >= 1 && Legal(cfg, es)
    ensures forall k :: k in TableAfter(cfg, es) ==> 1 <= TableAfter(cfg, es)[k].count <= cfg.rate
    ensures cfg.maxKeys >= 1 && (forall i :: 0 <= i < |es| ==> es[i].key != "") ==>
              "" !in TableAfter(cfg, es) && |TableAfter(cfg, es)| <= cfg.maxKeys
  {
    if es == [] {
    } else {
      var n := |es| - 1;
      PrefixKeepsRun(cfg, es, n);
      CapacityInvariant(cfg, es[..n]);
      assert LegalAt(cfg, es, n);
      var t := TableAfter(cfg, es[..n]);
      if Crowds(cfg, t, es[n].key) && es[n].victim != "" {
        assert (t - {es[n].victim}).Keys == t.Keys - {es[n].victim};
      }
    }
  }

  lemma AnotherThan<T>(s: set<T>, x: T) returns (y: T)
    requires x in s && s != {x}
    ensures y in s && y != x
  {
    y :| y in s && y != x;
  }

  /** A run that tracks every client at once, keeping the unevictable empty key the oldest. */
  lemma {:induction false} GrowPastCap(cfg: Config, clients: set<Key>) returns (es: seq<Request>)
    requires cfg.rate >= 1 && cfg.window > 0 && "" in clients
    ensures Legal(cfg, es) && Clocked(es) && From(es, clients)
    ensures TableAfter(cfg, es).Keys == clients
    ensures forall i :: 0 <= i < |es| ==> es[i].at == 0
    ensures forall k :: k in TableAfter(cfg, es) ==> TableAfter(cfg, es)[k].windowStart == 0
    decreases |clients|
  {
    var last := Request("", 0, "");
    var before := [];
    if clients != {""} {
      var k := AnotherThan(clients, "");
      before := GrowPastCap(cfg, clients - {k});
      last := Request(k, 0, "");
    } else {
      assert TableAfter(cfg, []) == map[];
    }
    Extend(cfg, before, last);
    es := before + [last];
  }

  /**
    The cap is kept by every run of a population exactly when the population fits
    anyway or does not contain the empty key, the one key makeRoom cannot delete.
   */
  lemma CapHoldsIffEvictable(cfg: Config, clients: set<Key>)
    requires cfg.rate >= 1 && cfg.window > 0 && cfg.maxKeys >= 1
    ensures (forall es :: Legal(cfg, es) && Clocked(es) && From(es, clients) ==> |TableAfter(cfg, es)| <= cfg.maxKeys)
       <==> "" !in clients || |clients| <= cfg.maxKeys
  {
    if "" !in clients || |clients| <= cfg.maxKeys {
      forall es | Legal(cfg, es) && Clocked(es) && From(es, clients)
        ensures |TableAfter(cfg, es)| <= cfg.maxKeys
      {
        CapacityInvariant(cfg, es);
        TableWithin(cfg, es, clients);
        SubsetSize(TableAfter(cfg, es).Keys, clients);
      }
    } else {
      var es := GrowPastCap(cfg, clients);
      assert |TableAfter(cfg, es).Keys| == |clients|;
    }
  }

  // ----- Which populations never notice the cap -----

  /** Every decision of the run is that of a private counter per client. */
  predicate Faithful(cfg: Config, es: seq<Request>) {
    forall i :: 0 <= i < |es| ==>
      DecisionAt(cfg, es, i) == SoloDecide(cfg, Solo(cfg, es[..i], es[i].key), es[i].at)
  }

  lemma SoloExtend(cfg: Config, es: seq<Request>, e: Request, key: Key)
    ensures Solo(cfg, es + [e], key) ==
            if e.key == key then Some(SoloNext(cfg, Solo(cfg, es, key), e.at)) else Solo(cfg, es, key)
  {
    assert (es + [e])[..|es|] == es;
    SoloStep(cfg, es + [e], key);
  }

  /** `key` spends n of its requests at instant 0. */
  lemma {:induction false} Spend(cfg: Config, key: Key, n: nat) returns (es: seq<Request>)
    requires n <= cfg.rate && cfg.window > 0
    ensures Legal(cfg, es) && Clocked(es) && From(es, {key})
    ensures forall i :: 0 <= i < |es| ==> es[i].at == 0
    ensures TableAfter(cfg, es) == if n == 0 then map[] else map[key := Entry(n, 0)]
    ensures Solo(cfg, es, key) == if n == 0 then None else Some(Entry(n, 0))
  {
    es := [];
    if n > 0 {
      var before := Spend(cfg, key, n - 1);
      var e := Request(key, 0, key);
      Extend(cfg, before, e);
      SoloExtend(cfg, before, e, key);
      es := before + [e];
    }
  }

  /** `key` has spent its allowance and the rest of the crowd has arrived since, all at instant 0. */
  lemma {:induction false} SpendAmongCrowd(cfg: Config, key: Key, crowd: set<Key>) returns (es: seq<Request>)
    requires cfg.rate >= 1 && cfg.window > 0 && key in crowd && |crowd| <= cfg.maxKeys
    ensures Legal(cfg, es) && Clocked(es) && From(es, crowd)
    ensures forall i :: 0 <= i < |es| ==> es[i].at == 0
    ensures TableAfter(cfg, es).Keys == crowd
    ensures forall k :: k in crowd ==> TableAfter(cfg, es)[k].windowStart == 0
    ensures Solo(cfg, es, key) == Some(Entry(cfg.rate, 0))
    decreases |crowd|
  {
    if crowd == {key} {
      es := Spend(cfg, key, cfg.rate);
    } else {
      var k := AnotherThan(crowd, key);
      assert |crowd - {k}| == |crowd| - 1;
      var before := SpendAmongCrowd(cfg, key, crowd - {k});
      var e := Request(k, 0, key);
      assert |TableAfter(cfg, before).Keys| == |crowd - {k}|;
      Extend(cfg, before, e);
      SoloExtend(cfg, before, e, key);
      es := before + [e];
    }
  }

  lemma {:induction false} PickSubset<T>(s: set<T>, n: nat) returns (r: set<T>)
    requires n <= |s|
    ensures r <= s && |r| == n
  {
    if n == |s| {
      r := s;
    } else {
      var x :| x in s;
      r := PickSubset(s - {x}, n);
    }
  }

  /** A newcomer then pushes `key` out of the full table. */
  lemma PushOut(cfg: Config, key: Key, crowd: set<Key>, late: Key) returns (es: seq<Request>)
    requires cfg.rate >= 1 && cfg.window > 0 && key in crowd && key != "" && |crowd| == cfg.maxKeys && late !in crowd
    ensures Legal(cfg, es) && Clocked(es) && From(es, crowd + {late})
    ensures forall i :: 0 <= i < |es| ==> es[i].at == 0
    ensures TableAfter(cfg, es).Keys == crowd - {key} + {late}
    ensures Oldest(TableAfter(cfg, es), late)
    ensures Solo(cfg, es, key) == Some(Entry(cfg.rate, 0))
  {
    var settled := SpendAmongCrowd(cfg, key, crowd);
    var push := Request(late, 0, key);
    assert |TableAfter(cfg, settled).Keys| == cfg.maxKeys;
    Extend(cfg, settled, push);
    SoloExtend(cfg, settled, push, key);
    es := settled + [push];
  }

  lemma Member<T>(s: set<T>) returns (x: T)
    requires |s| > 0
    ensures x in s
  {
    x :| x in s;
  }

  lemma Outsider<T>(s: set<T>, part: set<T>) returns (x: T)
    requires part <= s && |part| < |s|
    ensures x in s && x !in part
  {
    assert s == part + (s - part);
    x :| x in s && x !in part;
  }

  /** One client more than the table holds is enough to be let in early. */
  lemma OneTooMany(cfg: Config, clients: set<Key>) returns (es: seq<Request>)
    requires cfg.rate >= 1 && cfg.window > 0 && cfg.maxKeys >= 1 && |clients| > cfg.maxKeys
    ensures Legal(cfg, es) && Clocked(es) && From(es, clients) && |es| > 0
    ensures var n := |es| - 1;
            DecisionAt(cfg, es, n).allowed && !SoloDecide(cfg, Solo(cfg, es[..n], es[n].key), es[n].at).allowed
  {
    var named := clients - {""};
    SubsetSize(clients, named + {""});
    assert |named + {""}| == |named| + 1;
    var crowd := PickSubset(named, cfg.maxKeys);
    var key := Member(crowd);
    var late := Outsider(clients, crowd);
    var crowded := PushOut(cfg, key, crowd, late);
    var back := Request(key, 0, late);
    Extend(cfg, crowded, back);
    es := crowded + [back];
    assert es[..|es| - 1] == crowded;
  }

  /**
    A population of clients gets private-counter service in every run exactly when it is
    no larger than the table.
   */
  lemma CapUnnoticedIffPopulationFits(cfg: Config, clients: set<Key>)
    requires cfg.rate >= 1 && cfg.window > 0 && cfg.maxKeys >= 1
    ensures (forall es :: Legal(cfg, es) && Clocked(es) && From(es, clients) ==> Faithful(cfg, es))
       <==> |clients| <= cfg.maxKeys
  {
    if |clients| <= cfg.maxKeys {
      forall es: seq<Request>, i | Legal(cfg, es) && Clocked(es) && From(es, clients) && 0 <= i < |es|
        ensures DecisionAt(cfg, es, i) == SoloDecide(cfg, Solo(cfg, es[..i], es[i].key), es[i].at)
      {
        forall a
          ensures |ActiveKeys(cfg, es, a)| <= cfg.maxKeys
        {
          SubsetSize(ActiveKeys(cfg, es, a), clients);
        }
        BoundedAgreesUnderLoad(cfg, es, i);
      }
    } else {
      var es := OneTooMany(cfg, clients);
      assert !Faithful(cfg, es);
    }
  }

  // ----- What evicting one entry does to its owner -----

  predicate Ascending(times: seq<int>) {
    forall i, j :: 0 <= i <= j < |times| ==> times[i] <= times[j]
  }

  /** The decisions of a client's own requests, starting from the given counter. */
  function SoloDecisions(cfg: Config, start: Option<Entry>, times: seq<int>): seq<Decision> {
    if times == [] then []
    else
      var n := |times| - 1;
      SoloDecisions(cfg, start, times[..n]) + [SoloDecide(cfg, SoloFrom(cfg, start, times[..n]), times[n])]
  }

  lemma {:induction false} ExpiredIsAbsent(cfg: Config, e: Entry, now: int, times: seq<int>)
    requires now - e.windowStart >= cfg.window
    requires forall i :: 0 <= i < |times| ==> times[i] >= now
    ensures SoloDecisions(cfg, Some(e), times) == SoloDecisions(cfg, None, times)
    ensures |times| > 0 ==> SoloFrom(cfg, Some(e), times) == SoloFrom(cfg, None, times)
  {
    if times == [] {
    } else {
      ExpiredIsAbsent(cfg, e, now, times[..|times| - 1]);
    }
  }

  lemma {:induction false} Burst(cfg: Config, e: Option<Entry>, now: int, n: nat)
    requires cfg.rate >= 1 && cfg.window > 0
    requires e.Some? ==> now - e.value.windowStart < cfg.window && 1 <= e.value.count <= cfg.rate
    ensures var c := if e.None? then n else e.value.count + n;
            var f := SoloFrom(cfg, e, seq(n, _ => now));
            n > 0 ==> f.Some? && now - f.value.windowStart < cfg.window
                      && f.value.count == if c < cfg.rate then c else cfg.rate
  {
    if n > 0 {
      assert seq(n, _ => now)[..n - 1] == seq(n - 1, _ => now);
      Burst(cfg, e, now, n - 1);
    }
  }

  lemma BurstTells(cfg: Config, e: Entry, now: int)
    requires cfg.rate >= 1 && cfg.window > 0 && 1 <= e.count <= cfg.rate && now - e.windowStart < cfg.window
    ensures var times := seq(cfg.rate, _ => now);
            SoloDecisions(cfg, Some(e), times) != SoloDecisions(cfg, None, times)
  {
    var n := cfg.rate - 1;
    var times := seq(cfg.rate, _ => now);
    assert times[..n] == seq(n, _ => now);
    Burst(cfg, Some(e), now, n);
    Burst(cfg, None, now, n);
    var kept, lost := SoloDecisions(cfg, Some(e), times), SoloDecisions(cfg, None, times);
    assert !kept[|kept| - 1].allowed && lost[|lost| - 1].allowed;
  }

  /**
    Deleting a client's entry can never be noticed by that client exactly when the
    entry has expired: an unexpired one is betrayed by a burst of `rate` requests.
   */
  lemma EvictionUnnoticedIffExpired(cfg: Config, e: Entry, now: int)
    requires cfg.rate >= 1 && cfg.window > 0 && 1 <= e.count <= cfg.rate
    ensures (forall times | Ascending(times) && (forall i :: 0 <= i < |times| ==> times[i] >= now) ::
               SoloDecisions(cfg, Some(e), times) == SoloDecisions(cfg, None, times))
       <==> now - e.windowStart >= cfg.window
  {
    if now - e.windowStart >= cfg.window {
      forall times | Ascending(times) && (forall i :: 0 <= i < |times| ==> times[i] >= now)
        ensures SoloDecisions(cfg, Some(e), times) == SoloDecisions(cfg, None, times)
      {
        ExpiredIsAbsent(cfg, e, now, times);
      }
    } else {
      BurstTells(cfg, e, now);
      assert Ascending(seq(cfg.rate, _ => now));
    }
  }

  const SMALL := Config(1, 10, 1)
  const LATE_RETURN := [Request("a", 0, ""), Request("b", 5, "a"), Request("a", 9, "b"), Request("a", 10, "")]

  lemma LateReturnEvicted()
    ensures Legal(SMALL, LATE_RETURN[..2])
    ensures TableAfter(SMALL, LATE_RETURN[..2]) == map["b" := Entry(1, 5)]
  {
    var es := LATE_RETURN;
    assert es[..0] + [es[0]] == es[..1] && es[..1] + [es[1]] == es[..2];
    Extend(SMALL, es[..0], es[0]);
    assert TableAfter(SMALL, es[..1]) == map["a" := Entry(1, 0)];
    Extend(SMALL, es[..1], es[1]);
  }

  lemma LateReturnReopened()
    ensures Legal(SMALL, LATE_RETURN)
    ensures TableAfter(SMALL, LATE_RETURN[..3]) == map["a" := Entry(1, 9)]
  {
    var es := LATE_RETURN;
    assert es[..2] + [es[2]] == es[..3] && es[..3] + [es[3]] == es;
    LateReturnEvicted();
    Extend(SMALL, es[..2], es[2]);
    assert TableAfter(SMALL, es[..3]) == map["a" := Entry(1, 9)];
    Extend(SMALL, es[..3], es[3]);
  }

  lemma LateReturnSolos()
    ensures Solo(SMALL, LATE_RETURN[..2], "a") == Solo(SMALL, LATE_RETURN[..3], "a") == Some(Entry(1, 0))
  {
    var es := LATE_RETURN;
    assert es[..0] + [es[0]] == es[..1] && es[..1] + [es[1]] == es[..2] && es[..2] + [es[2]] == es[..3];
    SoloExtend(SMALL, es[..0], es[0], "a");
    SoloExtend(SMALL, es[..1], es[1], "a");
    SoloExtend(SMALL, es[..2], es[2], "a");
  }

  /**
    The cap does not make the limiter more permissive either: here an evicted client
    reopens its window late and is then refused where its private counter admits it.
   */
  lemma EvictionCanAlsoRefuse()
    ensures Legal(SMALL, LATE_RETURN) && Clocked(LATE_RETURN)
    ensures DecisionAt(SMALL, LATE_RETURN, 2).allowed
    ensures !SoloDecide(SMALL, Solo(SMALL, LATE_RETURN[..2], "a"), 9).allowed
    ensures !DecisionAt(SMALL, LATE_RETURN, 3).allowed
    ensures SoloDecide(SMALL, Solo(SMALL, LATE_RETURN[..3], "a"), 10).allowed
  {
    LateReturnEvicted();
    LateReturnReopened();
    LateReturnSolos();
  }
}
