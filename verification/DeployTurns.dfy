/**
  One run's turn: what a deploy run does to the host from the moment it finds the lock free
  until somebody else takes it, and the releases on which everything goes well.
 */
module DeployTurns {
  import opened Basics
  import opened Deploy
  import opened DeployHistory

  // ----- What a turn can do -----

  predicate InTurn(lock: Option<nat>, r: nat) {
    lock.None? || lock == Some(r)
  }

  /** From move i on nobody but run r has the lock. */
  predicate OnlyRun(s: System, moves: seq<Move>, i: nat, r: nat) {
    i <= |moves| && forall j :: i <= j <= |moves| ==> InTurn(Execute(s, moves[..j]).host.lock, r)
  }

  lemma ActStaysInTurn(host: Host, r: nat, run: Run, a: Action)
    requires InTurn(host.lock, r)
    ensures InTurn(Act(host, r, run, a).host.lock, r)
  {
  }

  lemma LastStaysInTurn(s: System, moves: seq<Move>, r: nat)
    requires |moves| > 0 && moves[|moves| - 1].run == r && InTurn(Execute(s, moves[..|moves| - 1]).host.lock, r)
    ensures InTurn(Execute(s, moves).host.lock, r)
  {
    var t := Execute(s, moves[..|moves| - 1]);
    if r < |t.runs| {
      ActStaysInTurn(t.host, r, t.runs[r], moves[|moves| - 1].action);
    }
  }

  lemma {:induction false} LockStays(s: System, moves: seq<Move>, i: nat, r: nat, j: nat)
    requires i <= j <= |moves| && InTurn(Execute(s, moves[..i]).host.lock, r)
    requires forall k :: i <= k < |moves| ==> moves[k].run == r
    ensures InTurn(Execute(s, moves[..j]).host.lock, r)
  {
    if i < j {
      LockStays(s, moves, i, r, j - 1);
      assert moves[..j][..j - 1] == moves[..j - 1];
      LastStaysInTurn(s, moves[..j], r);
    }
  }

  /** Moves of run r alone are a turn of it. */
  lemma SoloMoves(s: System, moves: seq<Move>, i: nat, r: nat)
    requires i <= |moves| && InTurn(Execute(s, moves[..i]).host.lock, r)
    requires forall k :: i <= k < |moves| ==> moves[k].run == r
    ensures OnlyRun(s, moves, i, r)
  {
    forall j | i <= j <= |moves|
      ensures InTurn(Execute(s, moves[..j]).host.lock, r)
    {
      LockStays(s, moves, i, r, j);
    }
  }

  /** What a run can do to the host: add its migrations, and nothing without passing the check. */
  predicate Bounded(job: Job, before: Host, after: Host) {
    && after.schema <= before.schema + job.image.migrations
    && (!Accepts(job, before.stateFile) ==> after == before.(lock := after.lock))
  }

  lemma ActIsBounded(host: Host, r: nat, run: Run, a: Action)
    requires Possible(host, run, a) && HolderIsCurrent(host, run)
    ensures Bounded(run.job, host, Act(host, r, run, a).host)
  {
  }

  lemma {:induction false} ReleaseIsBounded(s: System, moves: seq<Move>, i: nat, r: nat)
    requires Fresh(s) && Legal(s, moves) && OnlyRun(s, moves, i, r) && r < |s.runs|
    ensures Bounded(s.runs[r].job, Execute(s, moves[..i]).host, Execute(s, moves).host)
  {
    if i == |moves| {
      assert moves[..i] == moves;
    } else {
      var n := |moves| - 1;
      LegalPrefix(s, moves);
      assert forall j :: 0 <= j <= n ==> moves[..n][..j] == moves[..j];
      ReleaseIsBounded(s, moves[..n], i, r);
      LastActor(s, moves);
      var u, m := Execute(s, moves[..n]), moves[n];
      if m.run == r {
        ActIsBounded(u.host, r, u.runs[r], m.action);
      } else {
        ActKeepsLock(u.host, m.run, u.runs[m.run], m.action);
      }
    }
  }

  /** The previous image, if one is named, can be healthy once the new one has migrated. */
  predicate GateCanPass(host: Host, job: Job) {
    job.previous.Some? ==> job.previous.value.migrations <= host.schema + job.image.migrations
  }

  /** Held up by its gate: no further than the gate, and the service as it was. */
  predicate HeldUp(run: Run, before: Host, host: Host) {
    && !run.stage.Probing? && !run.stage.Swapping? && !run.stage.Recording? && !run.stage.Done?
    && host.served == before.served
  }

  lemma ActIsHeldUp(before: Host, host: Host, r: nat, run: Run, a: Action)
    requires Possible(host, run, a) && Bounded(run.job, before, host) && HeldUp(run, before, host)
    requires !GateCanPass(before, run.job)
    ensures HeldUp(Act(host, r, run, a).run, before, Act(host, r, run, a).host)
  {
  }

  /** Without its gate a release gets nowhere near the service. */
  lemma {:induction false} NoGateNoSwap(s: System, moves: seq<Move>, i: nat, r: nat)
    requires Fresh(s) && Legal(s, moves) && OnlyRun(s, moves, i, r) && r < |s.runs|
    requires var t := Execute(s, moves[..i]);
             r < |t.runs| && t.runs[r].stage.Waiting? && !GateCanPass(t.host, s.runs[r].job)
    ensures var u := Execute(s, moves); r < |u.runs| && HeldUp(u.runs[r], Execute(s, moves[..i]).host, u.host)
  {
    if i == |moves| {
      assert moves[..i] == moves;
    } else {
      var n := |moves| - 1;
      LegalPrefix(s, moves);
      assert forall j :: 0 <= j <= n ==> moves[..n][..j] == moves[..j];
      NoGateNoSwap(s, moves[..n], i, r);
      ReleaseIsBounded(s, moves[..n], i, r);
      LastActor(s, moves);
      var t, u, m := Execute(s, moves[..i]), Execute(s, moves[..n]), moves[n];
      if m.run == r {
        ActIsHeldUp(t.host, u.host, r, u.runs[r], m.action);
      } else {
        ActKeepsLock(u.host, m.run, u.runs[m.run], m.action);
      }
    }
  }

  // ----- A turn on which everything goes well -----

  /** The host and the runs that a list of legal moves comes to. */
  predicate Reaches(s: System, moves: seq<Move>, host: Host, runs: seq<Run>) {
    Legal(s, moves) && Execute(s, moves).host == host && Execute(s, moves).runs == runs
  }

  lemma ReachesNext(s: System, moves: seq<Move>, host: Host, runs: seq<Run>, r: nat, a: Action)
    requires Reaches(s, moves, host, runs) && r < |runs| && Possible(host, runs[r], a)
    ensures var e := Act(host, r, runs[r], a);
            && Reaches(s, moves + [Move(r, a)], e.host, runs[r := e.run])
            && Execute(s, moves + [Move(r, a)]).trace == Execute(s, moves).trace + e.notes
  {
    var longer := moves + [Move(r, a)];
    assert longer[..|longer| - 1] == moves;
  }

  function Missing(host: Host, job: Job): set<Migration> {
    job.image.migrations - host.schema
  }

  /** The i-th action of a release on which everything goes well. */
  function Smooth(missing: set<Migration>, i: nat): Action
    requires i < 8
  {
    [TakeLock, Check, Pull, Migrate(missing, true), GatePrevious([true]), GateCandidate([true]), Swap(Replaced, true),
     Record(Written)][i]
  }

  /** The run is let in. */
  predicate Admitted(host: Host, job: Job) {
    host.lock.None? && Accepts(job, host.stateFile)
  }

  /** The host and the run after the first i steps of such a release. */
  function Progress(host: Host, r: nat, run: Run, i: nat): Effect
    requires i <= 8
  {
    Effect(
      Run(run.job, [Waiting, Checking, Pulling, Migrating, Gating, Probing, Swapping, Recording, Done][i],
          if i >= 2 then host.stateFile else run.seen, if i >= 1 then host.served else run.found),
      Host(if i == 0 || i == 8 then None else Some(r),
           if i == 8 then Some(run.job.image.pin) else host.stateFile,
           if i >= 4 then host.schema + run.job.image.migrations else host.schema,
           if i >= 7 then Some(run.job.image) else host.served),
      [])
  }

  lemma ProgressStep(host: Host, r: nat, run: Run, i: nat)
    requires i < 8 && run.stage.Waiting? && Admitted(host, run.job) && (i >= 4 ==> GateCanPass(host, run.job))
    ensures var before, after := Progress(host, r, run, i), Progress(host, r, run, i + 1);
            var a := Smooth(Missing(host, run.job), i);
            Possible(before.host, before.run, a) && Act(before.host, r, before.run, a).(notes := []) == after
  {
    assert host.schema + Missing(host, run.job) == host.schema + run.job.image.migrations;
  }

  lemma ReachesProgress(s: System, moves: seq<Move>, host: Host, runs: seq<Run>, r: nat, i: nat)
    requires r < |runs| && i < 8 && runs[r].stage.Waiting?
    requires Admitted(host, runs[r].job) && (i >= 4 ==> GateCanPass(host, runs[r].job))
    requires var p := Progress(host, r, runs[r], i); Reaches(s, moves, p.host, runs[r := p.run])
    ensures var p := Progress(host, r, runs[r], i + 1);
            Reaches(s, moves + [Move(r, Smooth(Missing(host, runs[r].job), i))], p.host, runs[r := p.run])
  {
    var p, q := Progress(host, r, runs[r], i), Progress(host, r, runs[r], i + 1);
    ProgressStep(host, r, runs[r], i);
    ReachesNext(s, moves, p.host, runs[r := p.run], r, Smooth(Missing(host, runs[r].job), i));
    assert runs[r := p.run][r := q.run] == runs[r := q.run];
  }

  /** Moves of run r alone, none of them its death. */
  predicate Smoothly(moves: seq<Move>, longer: seq<Move>, r: nat) {
    moves <= longer && forall k :: |moves| <= k < |longer| ==> longer[k].run == r && !longer[k].action.Die?
  }

  lemma {:induction false} ReleaseReaches(s: System, moves: seq<Move>, host: Host, runs: seq<Run>, r: nat, i: nat)
      returns (longer: seq<Move>)
    requires Reaches(s, moves, host, runs) && r < |runs| && i <= 8 && runs[r].stage.Waiting?
    requires Admitted(host, runs[r].job) && (i >= 5 ==> GateCanPass(host, runs[r].job))
    ensures var p := Progress(host, r, runs[r], i); Reaches(s, longer, p.host, runs[r := p.run])
    ensures Smoothly(moves, longer, r)
  {
    if i == 0 {
      longer := moves;
      assert runs[r := runs[r]] == runs;
    } else {
      var before := ReleaseReaches(s, moves, host, runs, r, i - 1);
      ReachesProgress(s, before, host, runs, r, i - 1);
      longer := before + [Move(r, Smooth(Missing(host, runs[r].job), i - 1))];
    }
  }

  /** A release swaps its image in. */
  lemma ReleaseSwaps(s: System, moves: seq<Move>, host: Host, runs: seq<Run>, r: nat) returns (longer: seq<Move>)
    requires Reaches(s, moves, host, runs) && r < |runs| && runs[r].stage.Waiting?
    requires Admitted(host, runs[r].job) && GateCanPass(host, runs[r].job)
    ensures Smoothly(moves, longer, r)
    ensures var job := runs[r].job;
            Reaches(s, longer,
                    Host(Some(r), host.stateFile, host.schema + job.image.migrations, Some(job.image)),
                    runs[r := Run(job, Recording, host.stateFile, host.served)])
  {
    longer := ReleaseReaches(s, moves, host, runs, r, 7);
  }

  /** And dies before it has recorded it. */
  lemma ReleaseCrashes(s: System, moves: seq<Move>, host: Host, runs: seq<Run>, r: nat) returns (longer: seq<Move>)
    requires Reaches(s, moves, host, runs) && r < |runs| && runs[r].stage.Waiting?
    requires Admitted(host, runs[r].job) && GateCanPass(host, runs[r].job)
    ensures moves <= longer && forall k :: |moves| <= k < |longer| ==> longer[k].run == r
    ensures var job := runs[r].job;
            Reaches(s, longer,
                    Host(None, host.stateFile, host.schema + job.image.migrations, Some(job.image)),
                    runs[r := Run(job, Stopped, host.stateFile, host.served)])
  {
    var job := runs[r].job;
    var swapped := Run(job, Recording, host.stateFile, host.served);
    var before := ReleaseSwaps(s, moves, host, runs, r);
    ReachesNext(s, before, Host(Some(r), host.stateFile, host.schema + job.image.migrations, Some(job.image)),
                runs[r := swapped], r, Die);
    assert runs[r := swapped][r := swapped.(stage := Stopped)] == runs[r := swapped.(stage := Stopped)];
    longer := before + [Move(r, Die)];
  }

  /** Or records it. */
  lemma ReleaseCompletes(s: System, moves: seq<Move>, host: Host, runs: seq<Run>, r: nat) returns (longer: seq<Move>)
    requires Reaches(s, moves, host, runs) && r < |runs| && runs[r].stage.Waiting?
    requires Admitted(host, runs[r].job) && GateCanPass(host, runs[r].job)
    ensures Smoothly(moves, longer, r)
    ensures var job := runs[r].job;
            Reaches(s, longer, Deployed(host, job.image), runs[r := Run(job, Done, host.stateFile, host.served)])
  {
    longer := ReleaseReaches(s, moves, host, runs, r, 8);
  }

  /** The host after a completed deployment of the image. */
  function Deployed(host: Host, image: Image): Host {
    Host(None, Some(image.pin), host.schema + image.migrations, Some(image))
  }
}
