/**
  The sweeper is housekeeping: exactly when can no client tell whether, how often and how
  successfully it ran?
 */
module SweepErasure {
  import opened Basics
  import opened Ttl
  import opened ClipStore
  import opened ClipService
  import opened Leases

  /** What the clients are told, in order. Sweeps answer nobody. */
  function Answers(run: seq<Event>): seq<Outcome> {
    if run == [] then []
    else
      var n := |run| - 1;
      Answers(run[..n]) + if run[n].op.Sweep? then [] else [OutcomeAt(run, n)]
  }

  /** The same for the events that the mask keeps. */
  function MaskedAnswers(run: seq<Event>, mask: seq<bool>): seq<Outcome>
    requires |mask| == |run|
  {
    if run == [] then []
    else
      var n := |run| - 1;
      MaskedAnswers(run[..n], mask[..n]) + if run[n].op.Sweep? || !mask[n] then [] else [OutcomeAt(run, n)]
  }

  /** The run without the events that the mask drops. */
  function Kept(run: seq<Event>, mask: seq<bool>): seq<Event>
    requires |mask| == |run|
  {
    if run == [] then []
    else
      var n := |run| - 1;
      Kept(run[..n], mask[..n]) + if mask[n] then [run[n]] else []
  }

  /** Only claims have to stay: reads, hints and sweeps may be dropped. */
  predicate KeepsClaims(run: seq<Event>, mask: seq<bool>) {
    |mask| == |run| && forall i :: 0 <= i < |run| && run[i].op.Create? ==> mask[i]
  }

  lemma {:induction false} KeptIsSubsequence(run: seq<Event>, mask: seq<bool>)
    requires |mask| == |run|
    ensures forall e :: e in Kept(run, mask) ==> e in run
    ensures SweepsNotAhead(run) ==> SweepsNotAhead(Kept(run, mask))
  {
    if run == [] {
    } else {
      var n := |run| - 1;
      var before := Kept(run[..n], mask[..n]);
      KeptIsSubsequence(run[..n], mask[..n]);
      if SweepsNotAhead(run) && mask[n] {
        var kept := Kept(run, mask);
        assert kept == before + [run[n]];
        forall i, j | 0 <= i < j < |kept| && kept[i].op.Sweep? && !kept[j].op.Sweep?
          ensures kept[i].snap <= kept[j].snap
        {
          if j == |before| {
            assert before[i] in run[..n];
            var k :| 0 <= k < n && run[..n][k] == before[i];
            assert run[k].op.Sweep?;
          } else {
            assert before[i].snap <= before[j].snap;
          }
        }
      }
    }
  }

  lemma {:induction false} LogIgnoresTheRest(run: seq<Event>, mask: seq<bool>)
    requires KeepsClaims(run, mask)
    ensures LogAfter(Kept(run, mask)) == LogAfter(run)
  {
    if run == [] {
    } else {
      var n := |run| - 1;
      LogIgnoresTheRest(run[..n], mask[..n]);
      if mask[n] {
        assert Kept(run, mask)[..|Kept(run, mask)| - 1] == Kept(run[..n], mask[..n]);
      } else {
        assert Kept(run, mask) == Kept(run[..n], mask[..n]);
      }
    }
  }

  lemma SweepsNotAheadPrefix(run: seq<Event>, n: nat)
    requires SweepsNotAhead(run) && n <= |run|
    ensures SweepsNotAhead(run[..n])
  {
  }

  /**
    Deleting any sweeps, successful or not, and any reads and hints from a run changes
    no answer to the events that remain, as long as no statement uses a clock sample
    older than an earlier sweep's. Read from right to left it is about inserting them.
   */
  lemma {:induction false} SweepErasure(run: seq<Event>, mask: seq<bool>)
    requires SweepsNotAhead(run) && KeepsClaims(run, mask)
    ensures Answers(Kept(run, mask)) == MaskedAnswers(run, mask)
  {
    if run == [] {
    } else {
      var n := |run| - 1;
      SweepsNotAheadPrefix(run, n);
      SweepErasure(run[..n], mask[..n]);
      if mask[n] {
        var kept := Kept(run, mask);
        var k := |kept| - 1;
        assert kept[..k] == Kept(run[..n], mask[..n]) && kept[k] == run[n];
        KeptIsSubsequence(run, mask);
        if !run[n].op.Sweep? {
          TableRefinesLog(run, n);
          TableRefinesLog(kept, k);
          LogIgnoresTheRest(run[..n], mask[..n]);
        }
      } else {
        assert Kept(run, mask) == Kept(run[..n], mask[..n]);
      }
    }
  }

  /** The same for the in-memory store's locked clock. */
  lemma AtomicSweepErasure(run: seq<Event>, mask: seq<bool>)
    requires Atomic(run) && KeepsClaims(run, mask)
    ensures Answers(Kept(run, mask)) == MaskedAnswers(run, mask)
  {
    AtomicSweepsNotAhead(run);
    SweepErasure(run, mask);
  }

  function ClientEvents(run: seq<Event>): seq<Event> {
    if run == [] then []
    else
      var n := |run| - 1;
      ClientEvents(run[..n]) + if run[n].op.Sweep? then [] else [run[n]]
  }

  lemma {:induction false} DropSweeps(run: seq<Event>)
    ensures var mask := seq(|run|, i requires 0 <= i < |run| => !run[i].op.Sweep?);
            Kept(run, mask) == ClientEvents(run) && MaskedAnswers(run, mask) == Answers(run)
  {
    if run == [] {
    } else {
      var n := |run| - 1;
      DropSweeps(run[..n]);
      var mask := seq(|run|, i requires 0 <= i < |run| => !run[i].op.Sweep?);
      assert mask[..n] == seq(n, i requires 0 <= i < n => !run[..n][i].op.Sweep?);
    }
  }

  /** Two deployments that differ only in their sweepers give their clients the same answers. */
  lemma SweeperIsUnobservable(run: seq<Event>, run': seq<Event>)
    requires Atomic(run) && Atomic(run') && ClientEvents(run) == ClientEvents(run')
    ensures Answers(run) == Answers(run')
  {
    DropSweeps(run);
    DropSweeps(run');
    AtomicSweepErasure(run, seq(|run|, i requires 0 <= i < |run| => !run[i].op.Sweep?));
    AtomicSweepErasure(run', seq(|run'|, i requires 0 <= i < |run'| => !run'[i].op.Sweep?));
  }

  // ----- Where erasure fails: Postgres -----

  /** The table before and after a sweep with clock sample `swept` give the same answer to e. */
  predicate SweepUnseen(t: Table, reached: set<Slug>, swept: int, e: Event) {
    OutcomeOf(Swept(t, reached, swept), e) == OutcomeOf(t, e)
  }

  /**
    A sweep changes the answer to a well-formed claim exactly when it deletes the row of
    that name and the claim's own clock sample is older than the row's expiry.
   */
  lemma SweepSeenIff(t: Table, reached: set<Slug>, swept: int, e: Event)
    requires e.op.Create? && Requested(e.op.input, e.op.svcNow).Ok?
    ensures var slug := e.op.input.slug;
            !SweepUnseen(t, reached, swept, e)
            <==> slug in t && slug in reached && e.snap < t[slug].expiresAt <= swept
  {
  }

  const LEASE := CreateInput("abc", [], (10 * MINUTE) as int64)

  /** A claim, a sweep once it expired, and a claim whose now() predates that expiry. */
  const LATE_CLAIM := [
    Event(Create(LEASE, 0), 0, 0),
    Event(Sweep({"abc"}), 10 * MINUTE, 10 * MINUTE),
    Event(Create(LEASE, 10 * MINUTE), 10 * MINUTE - 1, 10 * MINUTE)]

  lemma LeaseIsWellFormed(svcNow: int)
    ensures Requested(LEASE, svcNow) == Ok(Row("abc", [], svcNow, svcNow + 10 * MINUTE))
  {
    PresetMembership(LEASE.ttl);
    assert SlugError("abc").None?;
  }

  const FIRST := Row("abc", [], 0, 10 * MINUTE)
  const SECOND_LEASE := Row("abc", [], 10 * MINUTE, 20 * MINUTE)
  const WITHOUT_SWEEP := [LATE_CLAIM[0], LATE_CLAIM[2]]

  lemma FirstClaim(run: seq<Event>)
    requires run == [LATE_CLAIM[0]]
    ensures TableAfter(run) == map["abc" := FIRST] && Answers(run) == [Claim(FIRST)]
    ensures MaskedAnswers(run, [true]) == [Claim(FIRST)] && Kept(run, [true]) == run
  {
    LeaseIsWellFormed(0);
    assert run[..0] == [] && TableAfter([]) == map[];
  }

  lemma LateClaimWinsAfterSweep()
    ensures MaskedAnswers(LATE_CLAIM, [true, false, true]) == [Claim(FIRST), Claim(SECOND_LEASE)]
    ensures Kept(LATE_CLAIM, [true, false, true]) == WITHOUT_SWEEP
  {
    var run, mask := LATE_CLAIM, [true, false, true];
    FirstClaim(run[..1]);
    LeaseIsWellFormed(10 * MINUTE);
    assert run[..2][..1] == run[..1] && mask[..2][..1] == [true];
    assert TableAfter(run[..2]) == map[];
    assert MaskedAnswers(run[..2], mask[..2]) == [Claim(FIRST)];
    assert Kept(run[..2], mask[..2]) == [run[0]];
  }

  lemma LateClaimLosesWithoutSweep()
    ensures Answers(WITHOUT_SWEEP) == [Claim(FIRST), Refused(SlugInUse)]
  {
    FirstClaim(WITHOUT_SWEEP[..1]);
    LeaseIsWellFormed(10 * MINUTE);
  }

  /** A reachable table that a sweep at `swept` empties, though a reader at `snap` still sees its row. */
  lemma LeaseEndingAt(swept: int, snap: int)
    requires snap < swept
    ensures var run := [Event(Create(LEASE, swept - 10 * MINUTE), swept, swept)];
            var sweep, read := Event(Sweep({"abc"}), swept, swept), Event(Read("abc"), snap, swept);
            Stale(run + [sweep] + [read])
            && OutcomeOf(After(TableAfter(run), sweep), read) != OutcomeOf(TableAfter(run), read)
  {
    var run := [Event(Create(LEASE, swept - 10 * MINUTE), swept, swept)];
    LeaseIsWellFormed(swept - 10 * MINUTE);
    assert run[..0] == [] && TableAfter([]) == map[];
    assert TableAfter(run) == map["abc" := Row("abc", [], swept - 10 * MINUTE, swept)];
  }

  /**
    Sweeping with clock sample `swept` is invisible to a statement with sample `snap`
    that follows it, in every run with statement-time clocks, exactly when swept <= snap.
   */
  lemma SweepInvisibleIffNotAhead(swept: int, snap: int)
    ensures (forall run, sweep: Event, e: Event ::
               sweep.op.Sweep? && sweep.snap == swept && !e.op.Sweep? && e.snap == snap && Stale(run + [sweep] + [e])
               ==> OutcomeOf(After(TableAfter(run), sweep), e) == OutcomeOf(TableAfter(run), e))
       <==> swept <= snap
  {
    if swept > snap {
      LeaseEndingAt(swept, snap);
    } else {
      forall run, sweep: Event, e: Event |
        sweep.op.Sweep? && sweep.snap == swept && !e.op.Sweep? && e.snap == snap && Stale(run + [sweep] + [e])
        ensures OutcomeOf(After(TableAfter(run), sweep), e) == OutcomeOf(TableAfter(run), e)
      {
      }
    }
  }

  /**
    With statement-time clocks the promise that stopping the sweeper changes nothing
    observable does not hold: the same stale claim wins with the sweep and loses without.
   */
  lemma SweepErasureFailsUnderStaleClocks()
    ensures Stale(LATE_CLAIM) && KeepsClaims(LATE_CLAIM, [true, false, true])
    ensures MaskedAnswers(LATE_CLAIM, [true, false, true]) == [Claim(FIRST), Claim(SECOND_LEASE)]
    ensures Answers(Kept(LATE_CLAIM, [true, false, true])) == [Claim(FIRST), Refused(SlugInUse)]
  {
    LateClaimWinsAfterSweep();
    LateClaimLosesWithoutSweep();
  }
}
