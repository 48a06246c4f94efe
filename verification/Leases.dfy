/**
  Whole runs of the lease protocol.

  Every operation is one atomic step on the table. It compares expiries with `snap`, the
  store clock it sampled, and takes effect at instant `at`. Under the in-memory store's
  lock both are one instant (Atomic). In Postgres now() is fixed when the statement
  starts, so it may be older than the moment the row is touched (Stale). The service's
  own clock is a third, unrelated sample.
 */
module Leases {
  import opened Basics
  import opened ClipStore
  import opened ClipService

  /** A sweep step deletes the expired rows among those it reaches: none when it fails. */
  datatype Op =
    | Create(input: CreateInput, svcNow: int)
    | Read(slug: Slug)
    | Availability(slug: Slug)
    | Sweep(reached: set<Slug>)

  datatype Event = Event(op: Op, snap: int, at: int)

  datatype Outcome =
    | Claim(row: Row)
    | Found(row: Row)
    | Hint(free: bool)
    | Refused(error: Error)
    | Deleted(count: int)

  function After(t: Table, e: Event): Table {
    match e.op
    case Create(input, svcNow) =>
      (match Requested(input, svcNow)
       case Ok(row) => Claimed(t, row, e.snap)
       case Err(_) => t)
    case Sweep(reached) => Swept(t, reached, e.snap)
    case _ => t
  }

  function OutcomeOf(t: Table, e: Event): Outcome {
    match e.op
    case Create(input, svcNow) =>
      (match Requested(input, svcNow)
       case Ok(row) => if LiveAt(t, row.slug, e.snap) then Refused(SlugInUse) else Claim(row)
       case Err(error) => Refused(error))
    case Read(slug) => if LiveAt(t, slug, e.snap) then Found(t[slug]) else Refused(NotFound)
    case Availability(slug) =>
      if SlugError(slug).Some? then Refused(SlugError(slug).value) else Hint(!LiveAt(t, slug, e.snap))
    case Sweep(reached) => Deleted(|t| - |Swept(t, reached, e.snap)|)
  }

  function TableAfter(run: seq<Event>): Table {
    if run == [] then map[] else After(TableAfter(run[..|run| - 1]), run[|run| - 1])
  }

  function OutcomeAt(run: seq<Event>, i: nat): Outcome
    requires i < |run|
  {
    OutcomeOf(TableAfter(run[..i]), run[i])
  }

  /** Every statement sampled its clock no later than it takes effect, in order of effect. */
  predicate Stale(run: seq<Event>) {
    && (forall i :: 0 <= i < |run| ==> run[i].snap <= run[i].at)
    && (forall i, j :: 0 <= i <= j < |run| ==> run[i].at <= run[j].at)
  }

  /** Clock sampled under the lock. */
  predicate Atomic(run: seq<Event>) {
    Stale(run) && forall i :: 0 <= i < |run| ==> run[i].snap == run[i].at
  }

  /** No client's statement uses a clock sample older than that of a sweep before it. */
  predicate SweepsNotAhead(run: seq<Event>) {
    forall i, j :: 0 <= i < j < |run| && run[i].op.Sweep? && !run[j].op.Sweep? ==> run[i].snap <= run[j].snap
  }

  lemma AtomicSweepsNotAhead(run: seq<Event>)
    requires Atomic(run)
    ensures SweepsNotAhead(run)
  {
    forall i, j | 0 <= i < j < |run| && run[i].op.Sweep? && !run[j].op.Sweep?
      ensures run[i].snap <= run[j].snap
    {
      assert run[i].at <= run[j].at;
    }
  }

  lemma PrefixOf<T>(s: seq<T>, n: nat, i: nat)
    requires i <= n <= |s|
    ensures s[..n][..i] == s[..i]
  {
  }

  /** A claim puts its row where no live one is; any other step leaves what rows it leaves as they were. */
  lemma StepEffect(t: Table, e: Event, slug: Slug)
    ensures var outcome, u := OutcomeOf(t, e), After(t, e);
            if outcome.Claim? then !LiveAt(t, outcome.row.slug, e.snap) && u == t[outcome.row.slug := outcome.row]
            else slug in u ==> slug in t && u[slug] == t[slug]
  {
  }

  // ----- The log of successful claims -----

  datatype Grant = Grant(row: Row, at: int)

  /** The successful claims of a run in order, as the table decided them. */
  function Grants(run: seq<Event>): seq<Grant> {
    if run == [] then []
    else
      var n := |run| - 1;
      var outcome := OutcomeAt(run, n);
      Grants(run[..n]) + if outcome.Claim? then [Grant(outcome.row, run[n].at)] else []
  }

  function LastGrant(log: seq<Grant>, slug: Slug): Option<Grant> {
    if log == [] then None
    else if log[|log| - 1].row.slug == slug then Some(log[|log| - 1])
    else LastGrant(log[..|log| - 1], slug)
  }

  lemma LastGrantOfAppend(log: seq<Grant>, g: Grant, slug: Slug)
    ensures LastGrant(log + [g], slug) == if g.row.slug == slug then Some(g) else LastGrant(log, slug)
  {
    assert (log + [g])[..|log|] == log;
  }

  lemma {:induction false} LastGrantIsLatest(log: seq<Grant>, slug: Slug)
    ensures var g := LastGrant(log, slug);
            if g.None? then forall i :: 0 <= i < |log| ==> log[i].row.slug != slug
            else exists i :: 0 <= i < |log| && log[i] == g.value && log[i].row.slug == slug
                             && forall j :: i < j < |log| ==> log[j].row.slug != slug
  {
    if log == [] {
    } else {
      LastGrantIsLatest(log[..|log| - 1], slug);
    }
  }

  /** Some sweep of the run used a clock sample of at least x. */
  predicate SweptPast(run: seq<Event>, x: int) {
    exists i :: 0 <= i < |run| && run[i].op.Sweep? && run[i].snap >= x
  }

  lemma SweptPastGrows(run: seq<Event>, x: int)
    requires |run| > 0 && SweptPast(run[..|run| - 1], x)
    ensures SweptPast(run, x)
  {
    var i :| 0 <= i < |run| - 1 && run[..|run| - 1][i].op.Sweep? && run[..|run| - 1][i].snap >= x;
    assert run[i].op.Sweep?;
  }

  /** A row in the table is the last grant of its name; a granted name without a row has been swept. */
  ghost predicate Provenance(run: seq<Event>, slug: Slug) {
    var t, g := TableAfter(run), LastGrant(Grants(run), slug);
    if slug in t then g.Some? && g.value.row == t[slug] && t[slug].slug == slug
    else g.Some? ==> SweptPast(run, g.value.row.expiresAt)
  }

  lemma {:induction false} ProvenanceHolds(run: seq<Event>, slug: Slug)
    ensures Provenance(run, slug)
  {
    if run == [] {
    } else {
      var n := |run| - 1;
      var t, log := TableAfter(run[..n]), Grants(run[..n]);
      ProvenanceHolds(run[..n], slug);
      var g := LastGrant(log, slug);
      if OutcomeAt(run, n).Claim? {
        LastGrantOfAppend(log, Grant(OutcomeAt(run, n).row, run[n].at), slug);
      } else {
        assert Grants(run) == log;
        if run[n].op.Sweep? && slug in t && slug !in TableAfter(run) {
          assert SweptPast(run, g.value.row.expiresAt);
        }
      }
      if g.Some? && SweptPast(run[..n], g.value.row.expiresAt) {
        SweptPastGrows(run, g.value.row.expiresAt);
      }
    }
  }

  // ----- Safety under stale clocks -----

  /** No step overwrites or deletes a row that is live when the step takes effect. */
  lemma LiveRowIsUntouchable(t: Table, e: Event, slug: Slug)
    requires e.snap <= e.at && LiveAt(t, slug, e.at)
    ensures slug in After(t, e) && After(t, e)[slug] == t[slug]
  {
  }

  /** From a claim until its expiry the row stands, whatever is claimed or swept in between. */
  lemma {:induction false} LiveLeasePersists(run: seq<Event>, i: nat, j: nat)
    requires Stale(run) && i < j <= |run| && OutcomeAt(run, i).Claim?
    requires forall k :: i < k < j ==> run[k].at < OutcomeAt(run, i).row.expiresAt
    ensures var row := OutcomeAt(run, i).row;
            row.slug in TableAfter(run[..j]) && TableAfter(run[..j])[row.slug] == row
  {
    var row := OutcomeAt(run, i).row;
    assert run[..j][..j - 1] == run[..j - 1];
    if i + 1 < j {
      LiveLeasePersists(run, i, j - 1);
      LiveRowIsUntouchable(TableAfter(run[..j - 1]), run[j - 1], row.slug);
    }
  }

  /** While a lease runs every other claim of its name is refused: of two racing creates exactly one wins. */
  lemma NoSecondWinner(run: seq<Event>, i: nat, j: nat)
    requires Stale(run) && i < j < |run| && OutcomeAt(run, i).Claim? && run[j].at < OutcomeAt(run, i).row.expiresAt
    requires run[j].op.Create? && Requested(run[j].op.input, run[j].op.svcNow).Ok?
    requires run[j].op.input.slug == OutcomeAt(run, i).row.slug
    ensures OutcomeAt(run, j) == Refused(SlugInUse)
  {
    forall k | i < k < j
      ensures run[k].at < OutcomeAt(run, i).row.expiresAt
    {
      assert run[k].at <= run[j].at;
    }
    LiveLeasePersists(run, i, j);
    assert run[j].snap <= run[j].at;
  }

  /**
    Two leases of one name never overlap: the later claim takes effect at or after the
    earlier expiry, for any interleaving, any staleness and any service clock.
   */
  lemma {:induction false} LeasesAreExclusive(run: seq<Event>, i: nat, j: nat)
    requires Stale(run) && i < j < |Grants(run)| && Grants(run)[i].row.slug == Grants(run)[j].row.slug
    ensures Grants(run)[i].row.expiresAt <= Grants(run)[j].at
    decreases |run|, 1
  {
    var n := |run| - 1;
    var log := Grants(run[..n]);
    if j < |log| {
      LeasesAreExclusive(run[..n], i, j);
    } else {
      ExclusiveAtClaim(run, i);
    }
  }

  lemma {:induction false} GrantsPrecede(run: seq<Event>, i: nat)
    requires Stale(run) && i < |Grants(run)|
    ensures |run| > 0 && Grants(run)[i].at <= run[|run| - 1].at
  {
    var n := |run| - 1;
    if i < |Grants(run[..n])| {
      GrantsPrecede(run[..n], i);
    }
  }

  /** The claim made by the last step finds every earlier lease of its name expired. */
  lemma ExclusiveAtClaim(run: seq<Event>, i: nat)
    requires Stale(run) && |run| > 0 && OutcomeAt(run, |run| - 1).Claim?
    requires i < |Grants(run[..|run| - 1])|
    requires Grants(run[..|run| - 1])[i].row.slug == OutcomeAt(run, |run| - 1).row.slug
    ensures Grants(run[..|run| - 1])[i].row.expiresAt <= run[|run| - 1].at
    decreases |run|, 0
  {
    var n := |run| - 1;
    var log, slug := Grants(run[..n]), OutcomeAt(run, n).row.slug;
    ProvenanceHolds(run[..n], slug);
    LastGrantIsLatest(log, slug);
    var k :| 0 <= k < |log| && log[k] == LastGrant(log, slug).value && log[k].row.slug == slug
             && forall m :: k < m < |log| ==> log[m].row.slug != slug;
    LastLeaseIsOver(run, log[k].row);
    if i < k {
      LeasesAreExclusive(run[..n], i, k);
      GrantsPrecede(run[..n], k);
      assert run[n - 1].at <= run[n].at;
    }
  }

  lemma LastLeaseIsOver(run: seq<Event>, row: Row)
    requires Stale(run) && |run| > 0 && OutcomeAt(run, |run| - 1).Claim?
    requires row.slug == OutcomeAt(run, |run| - 1).row.slug
    requires LastGrant(Grants(run[..|run| - 1]), row.slug).Some?
    requires LastGrant(Grants(run[..|run| - 1]), row.slug).value.row == row
    ensures row.expiresAt <= run[|run| - 1].at
  {
    var n := |run| - 1;
    ProvenanceHolds(run[..n], row.slug);
    if row.slug !in TableAfter(run[..n]) {
      var m :| 0 <= m < n && run[..n][m].op.Sweep? && run[..n][m].snap >= row.expiresAt;
      assert run[m].snap <= run[m].at <= run[n].at;
    }
  }

  /**
    A read under a stale clock never invents or mixes up a body: it returns the last
    grant of the name or nothing, it returns that grant if it is still live when the read
    takes effect, and it returns nothing if the grant had expired by the read's sample.
   */
  lemma StaleReadIsLastGrant(run: seq<Event>, i: nat)
    requires Stale(run) && i < |run| && run[i].op.Read?
    ensures var g := LastGrant(Grants(run[..i]), run[i].op.slug);
            && (OutcomeAt(run, i) == Refused(NotFound) || (g.Some? && OutcomeAt(run, i) == Found(g.value.row)))
            && (g.Some? && g.value.row.expiresAt > run[i].at ==> OutcomeAt(run, i) == Found(g.value.row))
            && (g.None? || g.value.row.expiresAt <= run[i].snap ==> OutcomeAt(run, i) == Refused(NotFound))
  {
    var slug := run[i].op.slug;
    ProvenanceHolds(run[..i], slug);
    var g := LastGrant(Grants(run[..i]), slug);
    if slug !in TableAfter(run[..i]) && g.Some? {
      var m :| 0 <= m < i && run[..i][m].op.Sweep? && run[..i][m].snap >= g.value.row.expiresAt;
      assert run[m].snap <= run[m].at <= run[i].at;
    }
  }

  // ----- The log alone explains every answer -----

  /** Is the last grant of `slug` in this log live by this clock? */
  predicate Held(log: seq<Grant>, slug: Slug, now: int) {
    LastGrant(log, slug).Some? && LastGrant(log, slug).value.row.expiresAt > now
  }

  /** What a client is told by a service that only ever appends to a log and never sweeps. */
  function LogOutcome(log: seq<Grant>, e: Event): Outcome {
    match e.op
    case Create(input, svcNow) =>
      (match Requested(input, svcNow)
       case Ok(row) => if Held(log, row.slug, e.snap) then Refused(SlugInUse) else Claim(row)
       case Err(error) => Refused(error))
    case Read(slug) => if Held(log, slug, e.snap) then Found(LastGrant(log, slug).value.row) else Refused(NotFound)
    case Availability(slug) =>
      if SlugError(slug).Some? then Refused(SlugError(slug).value) else Hint(!Held(log, slug, e.snap))
    case Sweep(_) => Deleted(0)
  }

  function LogAfter(run: seq<Event>): seq<Grant> {
    if run == [] then []
    else
      var n := |run| - 1;
      var outcome := LogOutcome(LogAfter(run[..n]), run[n]);
      LogAfter(run[..n]) + if outcome.Claim? then [Grant(outcome.row, run[n].at)] else []
  }

  lemma TableAnswersAsLog(run: seq<Event>, i: nat)
    requires SweepsNotAhead(run) && i < |run| && !run[i].op.Sweep?
    ensures OutcomeAt(run, i) == LogOutcome(Grants(run[..i]), run[i])
  {
    forall slug
      ensures LiveAt(TableAfter(run[..i]), slug, run[i].snap) <==> Held(Grants(run[..i]), slug, run[i].snap)
    {
      ProvenanceHolds(run[..i], slug);
      var g := LastGrant(Grants(run[..i]), slug);
      if slug !in TableAfter(run[..i]) && g.Some? {
        var m :| 0 <= m < i && run[..i][m].op.Sweep? && run[..i][m].snap >= g.value.row.expiresAt;
        assert run[m].op.Sweep? && run[m].snap <= run[i].snap;
      }
    }
    forall slug
      ensures LiveAt(TableAfter(run[..i]), slug, run[i].snap) ==>
                TableAfter(run[..i])[slug] == LastGrant(Grants(run[..i]), slug).value.row
    {
      ProvenanceHolds(run[..i], slug);
    }
  }

  lemma {:induction false} GrantsAreTheLog(run: seq<Event>)
    requires SweepsNotAhead(run)
    ensures Grants(run) == LogAfter(run)
  {
    if run == [] {
    } else {
      GrantsAreTheLog(run[..|run| - 1]);
      if !run[|run| - 1].op.Sweep? {
        TableAnswersAsLog(run, |run| - 1);
      }
    }
  }

  /**
    Refinement: unless a statement uses a clock older than an earlier sweep's, every
    answer a client gets from the overwritten, swept table is the answer of the
    append-only log. Never-claimed, expired and swept names are thus indistinguishable.
   */
  lemma TableRefinesLog(run: seq<Event>, i: nat)
    requires SweepsNotAhead(run) && i < |run| && !run[i].op.Sweep?
    ensures OutcomeAt(run, i) == LogOutcome(LogAfter(run[..i]), run[i])
  {
    TableAnswersAsLog(run, i);
    GrantsAreTheLog(run[..i]);
  }

  /** The same for the in-memory store, whose clock is sampled under its lock. */
  lemma AtomicTableRefinesLog(run: seq<Event>, i: nat)
    requires Atomic(run) && i < |run| && !run[i].op.Sweep?
    ensures OutcomeAt(run, i) == LogOutcome(LogAfter(run[..i]), run[i])
  {
    AtomicSweepsNotAhead(run);
    TableRefinesLog(run, i);
  }
}
