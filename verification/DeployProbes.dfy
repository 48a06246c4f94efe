/** How long a health check stays relevant: the schema may grow after it. */
module DeployProbes {
  import opened Basics
  import opened Deploy
  import opened DeployHistory
  import opened DeployGates
  import opened DeployTurns

  // ----- What a probe is worth later -----

  /** Has the schema grown after note n? */
  predicate GrownSince(trace: seq<Note>, n: nat)
    requires n < |trace|
  {
    exists k :: n < k < |trace| && trace[k].Grew?
  }

  lemma GrownSinceAppend(trace: seq<Note>, notes: seq<Note>, n: nat)
    requires n < |trace| && |notes| <= 1
    ensures GrownSince(trace + notes, n) <==> GrownSince(trace, n) || (notes != [] && notes[0].Grew?)
  {
    var longer := trace + notes;
    if GrownSince(trace, n) {
      var k :| n < k < |trace| && trace[k].Grew?;
      assert longer[k].Grew?;
    }
    if notes != [] && notes[0].Grew? {
      assert longer[|trace|].Grew?;
    }
    if GrownSince(longer, n) {
      var k :| n < k < |longer| && longer[k].Grew?;
      assert k < |trace| ==> trace[k].Grew?;
    }
  }

  /** The schema a probe saw is part of today's, and all of it exactly if nothing was migrated since. */
  predicate ProbeDated(host: Host, trace: seq<Note>, n: nat)
    requires n < |trace| && trace[n].Probed?
  {
    trace[n].schema <= host.schema && (trace[n].schema == host.schema <==> !GrownSince(trace, n))
  }

  predicate ProbesDated(host: Host, trace: seq<Note>) {
    forall n :: 0 <= n < |trace| && trace[n].Probed? ==> ProbeDated(host, trace, n)
  }

  lemma ActDatesProbes(host: Host, trace: seq<Note>, r: nat, run: Run, a: Action)
    requires Possible(host, run, a) && ProbesDated(host, trace)
    ensures ProbesDated(Act(host, r, run, a).host, trace + Act(host, r, run, a).notes)
  {
    var e := Act(host, r, run, a);
    ActGrowsSchema(host, r, run, a);
    var longer := trace + e.notes;
    forall n | 0 <= n < |longer| && longer[n].Probed?
      ensures ProbeDated(e.host, longer, n)
    {
      if n < |trace| {
        assert ProbeDated(host, trace, n);
        GrownSinceAppend(trace, e.notes, n);
      } else {
        assert e.notes[0] in e.notes;
      }
    }
  }

  lemma {:induction false} ProbesStayDated(s: System, moves: seq<Move>)
    requires Fresh(s) && Legal(s, moves)
    ensures ProbesDated(Execute(s, moves).host, Execute(s, moves).trace)
  {
    if moves == [] {
    } else {
      LegalPrefix(s, moves);
      ProbesStayDated(s, moves[..|moves| - 1]);
      var t, m := Execute(s, moves[..|moves| - 1]), moves[|moves| - 1];
      ActDatesProbes(t.host, t.trace, m.run, t.runs[m.run], m.action);
    }
  }

  predicate PassedOn(note: Note, image: Image, schema: set<Migration>) {
    note.Probed? && note.image == image && note.schema == schema
  }

  /** Some probe of the image passed against the schema now in place. */
  predicate ProvenOn(t: System, image: Image) {
    exists n :: 0 <= n < |t.trace| && PassedOn(t.trace[n], image, t.host.schema)
  }

  // ----- What a release does to it -----

  predicate PastMigration(stage: Stage) {
    !stage.Waiting? && !stage.Checking? && !stage.Pulling? && !stage.Migrating?
  }

  /** The probes noted from k on are on the schema now in place, and the run will not migrate after them. */
  predicate ProbesAreCurrent(host: Host, trace: seq<Note>, k: nat, run: Run) {
    forall n :: k <= n < |trace| && trace[n].Probed? ==> trace[n].schema == host.schema && PastMigration(run.stage)
  }

  lemma ActKeepsProbesCurrent(host: Host, trace: seq<Note>, k: nat, r: nat, run: Run, a: Action)
    requires Possible(host, run, a) && k <= |trace| && ProbesAreCurrent(host, trace, k, run)
    ensures var e := Act(host, r, run, a); ProbesAreCurrent(e.host, trace + e.notes, k, e.run)
  {
    var e := Act(host, r, run, a);
    forall n | k <= n < |trace + e.notes| && (trace + e.notes)[n].Probed?
      ensures (trace + e.notes)[n].schema == e.host.schema && PastMigration(e.run.stage)
    {
      assert n < |trace| ==> (trace + e.notes)[n] == trace[n];
    }
  }

  /** What a turn of run r has done by then to the trace, the schema and its own probes. */
  predicate ProbesSince(t: System, u: System, r: nat) {
    && r < |u.runs| && t.trace <= u.trace && t.host.schema <= u.host.schema
    && ProbesAreCurrent(u.host, u.trace, |t.trace|, u.runs[r])
  }

  lemma ProbesSinceStep(t: System, u: System, r: nat, m: Move)
    requires CanMove(u, m) && ProbesSince(t, u, r) && LockNames(u.host, m.run, u.runs[m.run])
    requires m.run == r || InTurn(u.host.lock, r)
    ensures ProbesSince(t, Step(u, m), r)
  {
    ActGrowsSchema(u.host, m.run, u.runs[m.run], m.action);
    if m.run == r {
      ActKeepsProbesCurrent(u.host, u.trace, |t.trace|, r, u.runs[r], m.action);
    } else {
      ActKeepsLock(u.host, m.run, u.runs[m.run], m.action);
      assert EffectOf(u, m).notes == [];
    }
  }

  lemma {:induction false} ReleaseProbesAreCurrent(s: System, moves: seq<Move>, i: nat, r: nat)
    requires Fresh(s) && Legal(s, moves) && OnlyRun(s, moves, i, r) && r < |s.runs|
    ensures ProbesSince(Execute(s, moves[..i]), Execute(s, moves), r)
  {
    MutualExclusion(s, moves);
    if i == |moves| {
      assert moves[..i] == moves;
    } else {
      var n := |moves| - 1;
      LegalPrefix(s, moves);
      assert forall j :: 0 <= j <= n ==> moves[..n][..j] == moves[..j];
      ReleaseProbesAreCurrent(s, moves[..n], i, r);
      LastActor(s, moves);
      ProbesSinceStep(Execute(s, moves[..i]), Execute(s, moves[..n]), r, moves[n]);
    }
  }

  /**
    While one run has the lock, an image that was tried on the schema in place stays so
    exactly if that run migrates nothing or its own gate passes for the image.
   */
  lemma StillProvenIff(s: System, moves: seq<Move>, i: nat, r: nat, image: Image)
    requires Fresh(s) && Legal(s, moves) && OnlyRun(s, moves, i, r) && r < |s.runs|
    requires ProvenOn(Execute(s, moves[..i]), image)
    ensures var t, u := Execute(s, moves[..i]), Execute(s, moves);
            t.trace <= u.trace
            && (ProvenOn(u, image)
                <==> u.host.schema == t.host.schema
                     || exists n :: |t.trace| <= n < |u.trace| && u.trace[n].Probed? && u.trace[n].image == image)
  {
    var t, u := Execute(s, moves[..i]), Execute(s, moves);
    LegalUpTo(s, moves, i);
    ReleaseProbesAreCurrent(s, moves, i, r);
    ProbesStayDated(s, moves[..i]);
    var p :| 0 <= p < |t.trace| && PassedOn(t.trace[p], image, t.host.schema);
    assert u.trace[p] == t.trace[p];
    if ProvenOn(u, image) {
      var n :| 0 <= n < |u.trace| && PassedOn(u.trace[n], image, u.host.schema);
      if n < |t.trace| {
        assert u.trace[n] == t.trace[n];
        assert ProbeDated(t.host, t.trace, n);
      }
    }
  }

  /** The moves go on until run r has ended, nobody else taking the lock, with the service as it was. */
  predicate EndsUnswapped(s: System, moves: seq<Move>, longer: seq<Move>, r: nat) {
    && moves <= longer && Legal(s, longer) && OnlyRun(s, longer, |moves|, r)
    && r < |Execute(s, longer).runs| && Execute(s, longer).runs[r].stage.Stopped?
    && Execute(s, longer).host.served == Execute(s, moves).host.served
  }

  /** The release will be turned away, or brings no migration the schema lacks. */
  predicate BringsNothing(host: Host, job: Job) {
    !Accepts(job, host.stateFile) || job.image.migrations <= host.schema
  }

  lemma BringsNothingSpares(s: System, moves: seq<Move>, longer: seq<Move>, r: nat, image: Image)
    requires Fresh(s) && Legal(s, longer) && moves <= longer && OnlyRun(s, longer, |moves|, r) && r < |s.runs|
    requires ProvenOn(Execute(s, moves), image) && BringsNothing(Execute(s, moves).host, s.runs[r].job)
    ensures ProvenOn(Execute(s, longer), image)
  {
    var i := |moves|;
    assert longer[..i] == moves;
    ReleaseIsBounded(s, longer, i, r);
    ReleaseProbesAreCurrent(s, longer, i, r);
    StillProvenIff(s, longer, i, r, image);
  }

  /** No probe of the image from note k on. */
  predicate Unprobed(trace: seq<Note>, k: nat, image: Image) {
    forall n :: k <= n < |trace| && trace[n].Probed? ==> trace[n].image != image
  }

  lemma ReadyToMigrate(s: System, moves: seq<Move>, r: nat, image: Image) returns (ready: seq<Move>)
    requires Fresh(s) && Legal(s, moves) && r < |s.runs|
    requires var t := Execute(s, moves);
             r < |t.runs| && t.runs[r].stage.Waiting? && Admitted(t.host, t.runs[r].job)
    ensures Smoothly(moves, ready, r) && Unprobed(Execute(s, ready).trace, |Execute(s, moves).trace|, image)
    ensures var t := Execute(s, moves);
            var p := Progress(t.host, r, t.runs[r], 3);
            Reaches(s, ready, p.host, t.runs[r := p.run])
  {
    var t, i := Execute(s, moves), |moves|;
    ready := ReleaseReaches(s, moves, t.host, t.runs, r, 3);
    assert ready[..i] == moves;
    SoloMoves(s, ready, i, r);
    ReleaseProbesAreCurrent(s, ready, i, r);
  }

  lemma MigrationEnds(s: System, moves: seq<Move>, longer: seq<Move>, r: nat, image: Image)
    requires Fresh(s) && Legal(s, longer) && r < |s.runs| && ProvenOn(Execute(s, moves), image)
    requires moves <= longer && forall k :: |moves| <= k < |longer| ==> longer[k].run == r
    requires var t, u := Execute(s, moves), Execute(s, longer);
             t.host.lock.None? && u.host.schema != t.host.schema && Unprobed(u.trace, |t.trace|, image)
    ensures OnlyRun(s, longer, |moves|, r) && !ProvenOn(Execute(s, longer), image)
  {
    assert longer[..|moves|] == moves;
    SoloMoves(s, longer, |moves|, r);
    StillProvenIff(s, longer, |moves|, r, image);
  }

  lemma MigrationThenDeath(s: System, moves: seq<Move>, r: nat, image: Image) returns (longer: seq<Move>)
    requires Fresh(s) && Legal(s, moves) && r < |s.runs| && ProvenOn(Execute(s, moves), image)
    requires var t := Execute(s, moves); t.host.lock.None? && r < |t.runs| && t.runs[r].stage.Waiting?
    requires !BringsNothing(Execute(s, moves).host, Execute(s, moves).runs[r].job)
    ensures EndsUnswapped(s, moves, longer, r) && !ProvenOn(Execute(s, longer), image)
  {
    var t := Execute(s, moves);
    var ready := ReadyToMigrate(s, moves, r, image);
    longer := MigrateAndDie(s, ready, t.host, t.runs, r);
    MigrationEnds(s, moves, longer, r, image);
  }

  lemma MigrateAndDie(s: System, ready: seq<Move>, host: Host, runs: seq<Run>, r: nat) returns (longer: seq<Move>)
    requires r < |runs| && !(runs[r].job.image.migrations <= host.schema)
    requires var p := Progress(host, r, runs[r], 3); Reaches(s, ready, p.host, runs[r := p.run])
    ensures ready <= longer && Legal(s, longer)
    ensures forall k :: |ready| <= k < |longer| ==> longer[k].run == r
    ensures var u := Execute(s, longer);
            && r < |u.runs| && u.runs[r].stage.Stopped? && u.trace == Execute(s, ready).trace + [Grew(r)]
            && u.host == host.(lock := None, schema := host.schema + runs[r].job.image.migrations)
  {
    var p, q, missing := Progress(host, r, runs[r], 3), Progress(host, r, runs[r], 4), Missing(host, runs[r].job);
    assert missing != {} && host.schema + missing == host.schema + runs[r].job.image.migrations;
    ReachesNext(s, ready, p.host, runs[r := p.run], r, Migrate(missing, true));
    assert runs[r := p.run][r := q.run] == runs[r := q.run];
    var migrated := ready + [Move(r, Migrate(missing, true))];
    ReachesNext(s, migrated, q.host, runs[r := q.run], r, Die);
    longer := migrated + [Move(r, Die)];
  }

  /**
    Before a release starts one can tell whether it may cost the served image its proof:
    the image stays proven through every way the release can end without a swap if and
    only if the release will be turned away or brings no migration the schema lacks.
   */
  lemma RefusalSparesProofIff(s: System, moves: seq<Move>, r: nat, image: Image)
    requires Fresh(s) && Legal(s, moves) && r < |s.runs| && ProvenOn(Execute(s, moves), image)
    requires var t := Execute(s, moves); t.host.lock.None? && r < |t.runs| && t.runs[r].stage.Waiting?
    ensures (forall longer :: EndsUnswapped(s, moves, longer, r) ==> ProvenOn(Execute(s, longer), image))
            <==> BringsNothing(Execute(s, moves).host, s.runs[r].job)
  {
    MutualExclusion(s, moves);
    if BringsNothing(Execute(s, moves).host, s.runs[r].job) {
      forall longer | EndsUnswapped(s, moves, longer, r)
        ensures ProvenOn(Execute(s, longer), image)
      {
        BringsNothingSpares(s, moves, longer, r, image);
      }
    } else {
      var longer := MigrationThenDeath(s, moves, r, image);
    }
  }

  /** The same at the migration itself. */
  lemma MigrationSparesProofIff(s: System, moves: seq<Move>, r: nat, image: Image)
    requires Fresh(s) && Legal(s, moves) && ProvenOn(Execute(s, moves), image)
    requires var t := Execute(s, moves); r < |t.runs| && t.runs[r].stage.Migrating?
    ensures var t := Execute(s, moves);
            (forall applied, ok :: Possible(t.host, t.runs[r], Migrate(applied, ok)) ==>
               ProvenOn(Step(t, Move(r, Migrate(applied, ok))), image))
            <==> t.runs[r].job.image.migrations <= t.host.schema
  {
    var t := Execute(s, moves);
    var missing := t.runs[r].job.image.migrations - t.host.schema;
    ProbesStayDated(s, moves);
    assert t.runs[r].job.image.migrations <= t.host.schema + missing;
    if missing == {} {
      var n :| 0 <= n < |t.trace| && PassedOn(t.trace[n], image, t.host.schema);
      forall applied, ok | Possible(t.host, t.runs[r], Migrate(applied, ok))
        ensures ProvenOn(Step(t, Move(r, Migrate(applied, ok))), image)
      {
        var u := Step(t, Move(r, Migrate(applied, ok)));
        assert u.trace[n] == t.trace[n] && u.host.schema == t.host.schema;
      }
    } else {
      var u := Step(t, Move(r, Migrate(missing, true)));
      assert Possible(t.host, t.runs[r], Migrate(missing, true));
      forall n | 0 <= n < |u.trace| && u.trace[n].Probed?
        ensures u.trace[n].schema != u.host.schema
      {
        assert u.trace[n] == t.trace[n] && ProbeDated(t.host, t.trace, n);
      }
    }
  }

  // ----- Where the guarantees end -----

  const OLD_IMAGE := Image("app", "old", {1})
  const NEW_IMAGE := Image("app", "new", {1, 2})

  /** The old image is served; a release of the new one with a previous-image gate is waiting. */
  const BEFORE_RELEASE := System(
    Host(None, Some("old"), {1}, Some(OLD_IMAGE)),
    [Run(Job(NEW_IMAGE, Some(OLD_IMAGE), Some("old")), Waiting, None, None)],
    [])

  /** Migrated, then refused by the previous-image gate. */
  const REFUSED_RELEASE := [
    Move(0, TakeLock), Move(0, Check), Move(0, Pull), Move(0, Migrate({2}, true)),
    Move(0, GatePrevious([false, false]))]

  /** The release at each stage, with the schema and the trace it has come to. */
  function Released(stage: Stage, schema: set<Migration>, trace: seq<Note>): System {
    System(Host(if Holding(stage) then Some(0) else None, Some("old"), schema, Some(OLD_IMAGE)),
           [Run(BEFORE_RELEASE.runs[0].job, stage,
                if Committed(stage) || stage.Stopped? then Some("old") else None,
                if stage.Waiting? then None else Some(OLD_IMAGE))],
           trace)
  }

  lemma ReleaseIsMigrated()
    ensures BEFORE_RELEASE == Released(Waiting, {1}, [])
    ensures CanMove(Released(Waiting, {1}, []), REFUSED_RELEASE[0])
    ensures Step(Released(Waiting, {1}, []), REFUSED_RELEASE[0]) == Released(Checking, {1}, [])
    ensures CanMove(Released(Checking, {1}, []), REFUSED_RELEASE[1])
    ensures Step(Released(Checking, {1}, []), REFUSED_RELEASE[1]) == Released(Pulling, {1}, [])
    ensures CanMove(Released(Pulling, {1}, []), REFUSED_RELEASE[2])
    ensures Step(Released(Pulling, {1}, []), REFUSED_RELEASE[2]) == Released(Migrating, {1}, [])
  {
  }

  lemma ReleaseIsRefused()
    ensures CanMove(Released(Migrating, {1}, []), REFUSED_RELEASE[3])
    ensures Step(Released(Migrating, {1}, []), REFUSED_RELEASE[3]) == Released(Gating, {1, 2}, [Grew(0)])
    ensures CanMove(Released(Gating, {1, 2}, [Grew(0)]), REFUSED_RELEASE[4])
    ensures Step(Released(Gating, {1, 2}, [Grew(0)]), REFUSED_RELEASE[4]) == Released(Stopped, {1, 2}, [Grew(0)])
  {
    assert {1} + {2} == {1, 2};
  }

  /**
    The image in service need not have been tried on the schema in place: a release can
    migrate and then be refused, and nothing undoes the migration.
   */
  lemma RefusedReleaseLeavesSchemaMigrated()
    ensures Fresh(BEFORE_RELEASE) && Legal(BEFORE_RELEASE, REFUSED_RELEASE)
    ensures var t := Execute(BEFORE_RELEASE, REFUSED_RELEASE);
            && t.runs[0].stage == Stopped && t.host.served == Some(OLD_IMAGE)
            && t.host.schema == {1, 2} && !ProvenOn(t, OLD_IMAGE)
  {
    ReleaseIsMigrated();
    ReleaseIsRefused();
    Unfold(BEFORE_RELEASE, REFUSED_RELEASE,
           [Released(Waiting, {1}, []), Released(Checking, {1}, []), Released(Pulling, {1}, []),
            Released(Migrating, {1}, []), Released(Gating, {1, 2}, [Grew(0)]), Released(Stopped, {1, 2}, [Grew(0)])]);
  }

  /** A list of moves with the systems between them is an execution. */
  lemma {:induction false} Unfold(s: System, moves: seq<Move>, states: seq<System>)
    requires |states| == |moves| + 1 && states[0] == s
    requires forall i :: 0 <= i < |moves| ==> CanMove(states[i], moves[i]) && states[i + 1] == Step(states[i], moves[i])
    ensures Legal(s, moves) && Execute(s, moves) == states[|moves|]
  {
    if moves == [] {
    } else {
      var n := |moves| - 1;
      Unfold(s, moves[..n], states[..n + 1]);
    }
  }
}
