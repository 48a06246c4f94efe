/** What the rows of the lease table are like, how many there are, and what a hint is worth. */
module LeaseTable {
  import opened Basics
  import opened Ttl
  import opened ClipStore
  import opened ClipService
  import opened Leases

  // ----- Rows -----

  /** A lease that some admissible request asked for. */
  predicate WellFormed(row: Row) {
    && SlugError(row.slug).None?
    && |row.body| <= MAX_BODY_BYTES
    && IsPreset(row.expiresAt - row.createdAt)
  }

  lemma RequestedIsWellFormed(input: CreateInput, svcNow: int)
    requires Requested(input, svcNow).Ok?
    ensures var row := Requested(input, svcNow).value;
            WellFormed(row) && row.createdAt == svcNow && row.slug == input.slug && row.body == input.body
  {
    ResolvedIsPreset(input.ttl);
  }

  /** Every row of every reachable table is stored under its own name with a preset lease. */
  lemma {:induction false} RowsAreWellFormed(run: seq<Event>)
    ensures forall s :: s in TableAfter(run) ==> TableAfter(run)[s].slug == s && WellFormed(TableAfter(run)[s])
    ensures forall s :: s in TableAfter(run) ==>
              TableAfter(run)[s].expiresAt - TableAfter(run)[s].createdAt <= ANON_CEILING
  {
    if run == [] {
    } else {
      var e := run[|run| - 1];
      RowsAreWellFormed(run[..|run| - 1]);
      if e.op.Create? && Requested(e.op.input, e.op.svcNow).Ok? {
        RequestedIsWellFormed(e.op.input, e.op.svcNow);
      }
    }
  }

  // ----- The ledger -----

  /** Claims that took a name no row stood under. */
  function FreshInserts(run: seq<Event>): nat {
    if run == [] then 0
    else
      var n := |run| - 1;
      var outcome := OutcomeAt(run, n);
      FreshInserts(run[..n]) + if outcome.Claim? && outcome.row.slug !in TableAfter(run[..n]) then 1 else 0
  }

  /** The sum of the counts that sweeps reported. */
  function TotalDeleted(run: seq<Event>): int {
    if run == [] then 0
    else
      var n := |run| - 1;
      var outcome := OutcomeAt(run, n);
      TotalDeleted(run[..n]) + if outcome.Deleted? then outcome.count else 0
  }

  /** No row is gained or lost unaccounted for, under any clocks. */
  lemma {:induction false} LedgerBalances(run: seq<Event>)
    ensures |TableAfter(run)| == FreshInserts(run) - TotalDeleted(run)
  {
    if run == [] {
    } else {
      LedgerBalances(run[..|run| - 1]);
    }
  }

  // ----- Freshness -----

  predicate ReachesAll(run: seq<Event>, i: nat)
    requires i < |run|
  {
    run[i].op.Sweep? && run[i].op.reached >= TableAfter(run[..i]).Keys
  }

  /** Service clocks lag the store clock by less than the shortest preset. */
  predicate SmallLag(run: seq<Event>) {
    forall i :: 0 <= i < |run| && run[i].op.Create? ==> run[i].snap - run[i].op.svcNow < 10 * MINUTE
  }

  /**
    A successful claim is one that no statement with a sample as late as its own will
    ever be able to read, whatever else happens, exactly when the service clock lagged
    the store clock by the whole lifetime.
   */
  lemma UnreadableIffLagged(run: seq<Event>, e: Event)
    requires e.op.Create? && OutcomeOf(TableAfter(run), e).Claim?
    ensures var row := OutcomeOf(TableAfter(run), e).row;
            (forall rest: seq<Event>, read: Event | read.op == Read(row.slug) && read.snap >= e.snap ::
               OutcomeOf(TableAfter(run + [e] + rest), read) != Found(row))
            <==> e.snap - e.op.svcNow >= ResolveTtl(e.op.input.ttl).value as int
  {
    var row := OutcomeOf(TableAfter(run), e).row;
    if e.snap - e.op.svcNow < ResolveTtl(e.op.input.ttl).value as int {
      var read, rest := Event(Read(row.slug), e.snap, e.at), [];
      assert run + [e] + rest == run + [e] && (run + [e])[..|run|] == run;
      assert OutcomeOf(TableAfter(run + [e] + rest), read) == Found(row);
    } else {
      forall rest: seq<Event>, read: Event | read.op == Read(row.slug) && read.snap >= e.snap
        ensures OutcomeOf(TableAfter(run + [e] + rest), read) != Found(row)
      {
        ReadFindsLive(TableAfter(run + [e] + rest), read, row);
      }
    }
  }

  lemma ReadFindsLive(t: Table, read: Event, row: Row)
    requires read.op.Read? && row.expiresAt <= read.snap
    ensures OutcomeOf(t, read) != Found(row)
  {
  }

  /**
    After a complete sweep no row has an expiry up to its clock sample, and so none was
    created two hours or more before it, however many claims, failed and partial sweeps follow.
   */
  lemma {:induction false} TableStaysFresh(run: seq<Event>, i: nat)
    requires SweepsNotAhead(run) && SmallLag(run) && i < |run| && ReachesAll(run, i)
    ensures forall s :: s in TableAfter(run) ==>
              TableAfter(run)[s].expiresAt > run[i].snap && TableAfter(run)[s].createdAt > run[i].snap - ANON_CEILING
  {
    RowsAreWellFormed(run);
    var n := |run| - 1;
    if i < n {
      assert run[..n][..i] == run[..i];
      TableStaysFresh(run[..n], i);
      var e := run[n];
      if e.op.Create? && Requested(e.op.input, e.op.svcNow).Ok? {
        assert run[i].snap <= e.snap;
        RequestedIsWellFormed(e.op.input, e.op.svcNow);
      }
    }
  }

  // ----- The hint -----

  /** A name is hinted free exactly when any admissible claim of it would succeed at that moment. */
  lemma HintAgreesWithClaim(t: Table, slug: Slug, input: CreateInput, svcNow: int, snap: int, at: int)
    requires input.slug == slug && |input.body| <= MAX_BODY_BYTES && ResolveTtl(input.ttl).Some?
    ensures OutcomeOf(t, Event(Availability(slug), snap, at)) == Hint(true)
       <==> OutcomeOf(t, Event(Create(input, svcNow), snap, at)).Claim?
    ensures SlugError(slug).Some? ==>
              OutcomeOf(t, Event(Availability(slug), snap, at)) == OutcomeOf(t, Event(Create(input, svcNow), snap, at))
              == Refused(SlugError(slug).value)
  {
  }

  /** A granted lease is what a reader sees until it expires, and the name is not free before. */
  lemma GrantIsReadable(t: Table, e: Event, snap: int, at: int)
    requires OutcomeOf(t, e).Claim?
    ensures var row := OutcomeOf(t, e).row;
            && OutcomeOf(After(t, e), Event(Read(row.slug), snap, at)) ==
                 (if snap < row.expiresAt then Found(row) else Refused(NotFound))
            && (OutcomeOf(After(t, e), Event(Availability(row.slug), snap, at)) == Hint(true)
                <==> snap >= row.expiresAt)
  {
    RequestedIsWellFormed(e.op.input, e.op.svcNow);
  }
}
