/**
  The deployment protocol of deploy/deploy.sh as a state machine: any number of runs of
  the script on one host, each command one step, in any interleaving. What docker, the
  network and the migration runner do is not determined, any command may fail, and a run
  may die between any two commands. Only these runs change the host.
 */
module Deploy {
  import opened Basics

  type Migration = nat

  /** A pinned image: `pin` is its digest or full commit SHA, the identity the state file holds. */
  datatype Image = Image(repo: string, pin: string, migrations: set<Migration>)

  /** The arguments of a run: IMAGE, PREVIOUS_IMAGE and a nonempty EXPECTED_PREVIOUS_SHA. */
  datatype Job = Job(image: Image, previous: Option<Image>, expected: Option<string>)

  datatype Host = Host(lock: Option<nat>, stateFile: Option<string>, schema: set<Migration>, served: Option<Image>)

  /** Where a run is in the script: what it will do next. */
  datatype Stage =
    | Waiting     // deploy.sh:109, before the lock
    | Checking    // 115, holding the lock
    | Pulling     // 151
    | Migrating   // 155
    | Gating      // 162, previous image
    | Probing     // 184, candidate
    | Swapping    // 202
    | Recording   // 205
    | Done
    | Stopped

  /** `seen` is the state file as read at the check, `found` the image served when the lock was taken. */
  datatype Run = Run(job: Job, stage: Stage, seen: Option<string>, found: Option<Image>)

  /** What happened, for the record. */
  datatype Note =
    | Probed(run: nat, image: Image, schema: set<Migration>)
    | Grew(run: nat)
    | Swapped(run: nat, image: Image, schema: set<Migration>)
    | Vanished(run: nat)
    | Wrote(run: nat, before: Option<string>, now: string)
    | Tore(run: nat, before: Option<string>)

  /** A failing `compose up` may have replaced the container, or removed it, or done nothing. */
  datatype SwapEffect = Replaced | Removed | Kept

  /** A failing write may have truncated the file first. */
  datatype WriteEffect = Written | Truncated | Unwritten

  datatype Action =
    | TakeLock
    | Check
    | Pull
    | Migrate(applied: set<Migration>, ok: bool)
    | GatePrevious(polls: seq<bool>)
    | GateCandidate(polls: seq<bool>)
    | Swap(effect: SwapEffect, ok: bool)
    | Record(write: WriteEffect)
    | Die

  predicate Holding(stage: Stage) {
    !stage.Waiting? && !stage.Done? && !stage.Stopped?
  }

  /** The compare in the compare-and-swap. */
  predicate Accepts(job: Job, file: Option<string>) {
    job.expected.Some? && file.Some? ==> file == job.expected || file.value == job.image.pin
  }

  /** wait_healthy: one poll that succeeds is enough. */
  predicate Passes(polls: seq<bool>) {
    true in polls
  }

  predicate GatesPrevious(job: Job) {
    job.previous.Some? && job.previous.value != job.image
  }

  datatype Effect = Effect(run: Run, host: Host, notes: seq<Note>)

  function Stop(run: Run, host: Host, notes: seq<Note>): Effect {
    Effect(run.(stage := Stopped), host.(lock := None), notes)
  }

  function Advance(run: Run, stage: Stage, host: Host, notes: seq<Note>): Effect {
    Effect(run.(stage := stage), host, notes)
  }

  /** Is the action next for a run at this stage? Dying always is. */
  predicate Due(stage: Stage, a: Action) {
    match a
    case TakeLock => stage.Waiting?
    case Check => stage.Checking?
    case Pull => stage.Pulling?
    case Migrate(_, _) => stage.Migrating?
    case GatePrevious(_) => stage.Gating?
    case GateCandidate(_) => stage.Probing?
    case Swap(_, _) => stage.Swapping?
    case Record(_) => stage.Recording?
    case Die => stage.Waiting? || Holding(stage)
  }

  /**
    What the environment can do. Migrating up only adds migrations of the image, all of
    them if it succeeds; an image answers healthy only without pending migrations
    (internal/httpapi/health.go:116-124); a command that succeeds has had its effect.
   */
  predicate Possible(host: Host, run: Run, a: Action) {
    Due(run.stage, a) &&
    match a
    case Migrate(applied, ok) =>
      applied <= run.job.image.migrations - host.schema && (ok ==> run.job.image.migrations <= host.schema + applied)
    case GatePrevious(polls) =>
      GatesPrevious(run.job) && Passes(polls) ==> run.job.previous.value.migrations <= host.schema
    case GateCandidate(polls) => Passes(polls) ==> run.job.image.migrations <= host.schema
    case Swap(effect, ok) => ok ==> effect == Replaced
    case _ => true
  }

  function Act(host: Host, r: nat, run: Run, a: Action): Effect {
    match a
    case TakeLock =>
      if host.lock.Some? then Effect(run.(stage := Stopped), host, [])
      else Effect(run.(stage := Checking, found := host.served), host.(lock := Some(r)), [])
    case Check =>
      var seen := run.(seen := host.stateFile);
      if Accepts(run.job, host.stateFile) then Advance(seen, Pulling, host, []) else Stop(seen, host, [])
    case Pull => Advance(run, Migrating, host, [])
    case Migrate(applied, ok) =>
      var migrated := host.(schema := host.schema + applied);
      var notes := if applied == {} then [] else [Grew(r)];
      if ok then Advance(run, Gating, migrated, notes) else Stop(run, migrated, notes)
    case GatePrevious(polls) =>
      if !GatesPrevious(run.job) then Advance(run, Probing, host, [])
      else if Passes(polls) then Advance(run, Probing, host, [Probed(r, run.job.previous.value, host.schema)])
      else Stop(run, host, [])
    case GateCandidate(polls) =>
      if Passes(polls) then Advance(run, Swapping, host, [Probed(r, run.job.image, host.schema)])
      else Stop(run, host, [])
    case Swap(effect, ok) =>
      var swapped := match effect
                     case Replaced => host.(served := Some(run.job.image))
                     case Removed => host.(served := None)
                     case Kept => host;
      var notes := match effect
                   case Replaced => [Swapped(r, run.job.image, host.schema)]
                   case Removed => [Vanished(r)]
                   case Kept => [];
      if ok then Advance(run, Recording, swapped, notes) else Stop(run, swapped, notes)
    case Record(write) =>
      (match write
       case Written =>
         var recorded := host.(stateFile := Some(run.job.image.pin), lock := None);
         Effect(run.(stage := Done), recorded, [Wrote(r, host.stateFile, run.job.image.pin)])
       case Truncated => Stop(run, host.(stateFile := Some("")), [Tore(r, host.stateFile)])
       case Unwritten => Stop(run, host, []))
    case Die => if run.stage.Waiting? then Effect(run.(stage := Stopped), host, []) else Stop(run, host, [])
  }

  datatype System = System(host: Host, runs: seq<Run>, trace: seq<Note>)

  datatype Move = Move(run: nat, action: Action)

  function Step(s: System, m: Move): System
    requires m.run < |s.runs|
  {
    var e := Act(s.host, m.run, s.runs[m.run], m.action);
    System(e.host, s.runs[m.run := e.run], s.trace + e.notes)
  }

  predicate CanMove(s: System, m: Move) {
    m.run < |s.runs| && Possible(s.host, s.runs[m.run], m.action)
  }

  /** A host nobody is deploying to, and runs that have not started. */
  predicate Fresh(s: System) {
    s.host.lock.None? && s.trace == [] && forall i :: 0 <= i < |s.runs| ==> s.runs[i].stage.Waiting?
  }

  function Execute(s: System, moves: seq<Move>): System {
    if moves == [] then s
    else
      var before := Execute(s, moves[..|moves| - 1]);
      var m := moves[|moves| - 1];
      if m.run < |before.runs| then Step(before, m) else before
  }

  /** Every move is possible when it is made. */
  predicate Legal(s: System, moves: seq<Move>) {
    moves == [] ||
    var n := |moves| - 1;
    Legal(s, moves[..n]) && CanMove(Execute(s, moves[..n]), moves[n])
  }
}
