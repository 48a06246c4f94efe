/**
  deploy/deploy.sh as the sequence of commands it is, on a host it mutates: what one
  script alone achieves, and that scripts side by side are the state machine.
 */
module DeployScript {
  import opened Basics
  import opened Deploy
  import opened DeployHistory
  import opened DeployGuard

  class Production {
    var lock: Option<nat>
    var stateFile: Option<string>
    var schema: set<Migration>
    var served: Option<Image>

    constructor (host: Host)
      ensures Now() == host
    {
      lock, stateFile, schema, served := host.lock, host.stateFile, host.schema, host.served;
    }

    ghost function Now(): Host
      reads this
    {
      Host(lock, stateFile, schema, served)
    }
  }

  /** How the commands of one run turn out. */
  datatype Outcomes = Outcomes(
    pulled: bool,
    applied: set<Migration>,
    migrated: bool,
    previousPolls: seq<bool>,
    candidatePolls: seq<bool>,
    swap: SwapEffect,
    swapped: bool,
    write: WriteEffect)

  /** What docker and the migration runner can do on this host. */
  predicate Plausible(host: Host, job: Job, o: Outcomes) {
    var schema := host.schema + o.applied;
    && o.applied <= job.image.migrations - host.schema
    && (o.migrated ==> job.image.migrations <= schema)
    && (job.previous.Some? && job.previous.value != job.image && true in o.previousPolls ==>
          job.previous.value.migrations <= schema)
    && (true in o.candidatePolls ==> job.image.migrations <= schema)
    && (o.swapped ==> o.swap == Replaced)
  }

  // ----- The commands -----

  /** Polls until the first success: at most one poll per second of the timeout. */
  method WaitHealthy(polls: seq<bool>) returns (ok: bool, used: nat)
    ensures ok <==> true in polls
    ensures used <= |polls| && (if ok then used > 0 && polls[used - 1] else used == |polls|)
    ensures forall i :: 0 <= i < (if ok then used - 1 else used) ==> !polls[i]
  {
    used := 0;
    while used < |polls|
      invariant used <= |polls|
      invariant forall i :: 0 <= i < used ==> !polls[i]
    {
      used := used + 1;
      if polls[used - 1] {
        return true, used;
      }
    }
    return false, used;
  }

  /** A shell process in the course of the script; `run` says how far it has got. */
  class Script {
    const host: Production
    const id: nat
    const job: Job
    ghost var run: Run

    constructor (host: Production, id: nat, job: Job)
      ensures this.host == host && this.id == id && this.job == job && run == Run(job, Waiting, None, None)
    {
      this.host, this.id, this.job := host, id, job;
      run := Run(job, Waiting, None, None);
    }

    /** Since the host was h and the run r, exactly this action has been performed. */
    ghost predicate Did(h: Host, r: Run, a: Action)
      reads this, host
    {
      host.Now() == Act(h, id, r, a).host && run == Act(h, id, r, a).run
    }

    /** The process ends before it is done: its lock goes with it. */
    method Exit()
      modifies this, host
      ensures host.Now() == old(host.Now()).(lock := None) && run == old(run).(stage := Stopped)
    {
      host.lock := None;
      run := run.(stage := Stopped);
    }

    method TakeLock() returns (ok: bool)
      requires run.stage.Waiting?
      modifies this, host
      ensures Did(old(host.Now()), old(run), Action.TakeLock) && (ok <==> old(host.lock).None?)
    {
      if host.lock.Some? {
        run := run.(stage := Stopped);
        return false;
      }
      host.lock := Some(id);
      run := run.(stage := Checking, found := host.served);
      return true;
    }

    method Check() returns (ok: bool)
      requires run.job == job && run.stage.Checking?
      modifies this, host
      ensures Did(old(host.Now()), old(run), Action.Check)
      ensures ok <==> job.expected.None? || old(host.stateFile).None?
                      || old(host.stateFile).value in {job.expected.value, job.image.pin}
    {
      var newId := job.image.pin;
      run := run.(seen := host.stateFile);
      if job.expected.Some? && host.stateFile.Some? {
        var live := host.stateFile.value;
        if live != job.expected.value && live != newId {
          Exit();
          return false;
        }
      }
      run := run.(stage := Pulling);
      return true;
    }

    method Pull()
      requires run.stage.Pulling?
      modifies this
      ensures Did(host.Now(), old(run), Action.Pull)
    {
      run := run.(stage := Migrating);
    }

    method Migrate(applied: set<Migration>, ok: bool)
      requires Possible(host.Now(), run, Action.Migrate(applied, ok))
      modifies this, host
      ensures Did(old(host.Now()), old(run), Action.Migrate(applied, ok))
    {
      host.schema := host.schema + applied;
      if ok {
        run := run.(stage := Gating);
      } else {
        Exit();
      }
    }

    method GatePrevious(polls: seq<bool>) returns (ok: bool)
      requires run.job == job && Possible(host.Now(), run, Action.GatePrevious(polls))
      modifies this, host
      ensures Did(old(host.Now()), old(run), Action.GatePrevious(polls))
      ensures ok <==> (job.previous.Some? && job.previous.value != job.image ==> true in polls)
    {
      if job.previous.Some? && job.previous.value != job.image {
        var healthy, _ := WaitHealthy(polls);
        if !healthy {
          Exit();
          return false;
        }
      }
      run := run.(stage := Probing);
      return true;
    }

    method GateCandidate(polls: seq<bool>) returns (ok: bool)
      requires Possible(host.Now(), run, Action.GateCandidate(polls))
      modifies this, host
      ensures Did(old(host.Now()), old(run), Action.GateCandidate(polls)) && (ok <==> true in polls)
    {
      var healthy, _ := WaitHealthy(polls);
      if !healthy {
        Exit();
        return false;
      }
      run := run.(stage := Swapping);
      return true;
    }

    method Swap(effect: SwapEffect, ok: bool)
      requires run.job == job && Possible(host.Now(), run, Action.Swap(effect, ok))
      modifies this, host
      ensures Did(old(host.Now()), old(run), Action.Swap(effect, ok))
    {
      match effect {
        case Replaced => host.served := Some(job.image);
        case Removed => host.served := None;
        case Kept =>
      }
      if ok {
        run := run.(stage := Recording);
      } else {
        Exit();
      }
    }

    method Record(write: WriteEffect)
      requires run.job == job && run.stage.Recording?
      modifies this, host
      ensures Did(old(host.Now()), old(run), Action.Record(write))
    {
      match write {
        case Written => host.stateFile := Some(job.image.pin);
        case Truncated => host.stateFile := Some("");
        case Unwritten =>
      }
      Exit();
      run := run.(stage := if write == Written then Done else Stopped);
    }

    /** Killed: the operating system drops whatever lock the process has. */
    method Die()
      requires Possible(host.Now(), run, Action.Die) && LockNames(host.Now(), id, run)
      modifies this, host
      ensures Did(old(host.Now()), old(run), Action.Die)
    {
      if host.lock == Some(id) {
        Exit();
      } else {
        run := run.(stage := Stopped);
      }
    }

    /** The next command. */
    method Do(a: Action)
      requires run.job == job && Possible(host.Now(), run, a) && LockNames(host.Now(), id, run)
      modifies this, host
      ensures Did(old(host.Now()), old(run), a) && run.job == job
    {
      match a {
        case TakeLock => var _ := TakeLock();
        case Check => var _ := Check();
        case Pull => Pull();
        case Migrate(applied, ok) => Migrate(applied, ok);
        case GatePrevious(polls) => var _ := GatePrevious(polls);
        case GateCandidate(polls) => var _ := GateCandidate(polls);
        case Swap(effect, ok) => Swap(effect, ok);
        case Record(write) => Record(write);
        case Die => Die();
      }
    }

    /** The script up to the migration; false is an exit. */
    method Prepare(o: Outcomes) returns (ok: bool)
      requires run.job == job && run.stage.Waiting? && Plausible(host.Now(), job, o)
      modifies this, host
      ensures run.job == job && (ok <==> run.stage.Gating?) && !run.stage.Done?
      ensures host.served == old(host.served) && host.stateFile == old(host.stateFile)
      ensures host.schema ==
              old(host.schema)
              + if old(host.lock).None? && Accepts(job, old(host.stateFile)) && o.pulled then o.applied else {}
      ensures ok <==> old(host.lock).None? && Accepts(job, old(host.stateFile)) && o.pulled && o.migrated
      ensures ok ==> host.lock == Some(id) && host.schema == old(host.schema) + o.applied
      ensures !ok ==> host.lock == old(host.lock)
    {
      ok := TakeLock();
      if !ok {
        return;
      }
      ok := Check();
      if !ok {
        return;
      }
      if !o.pulled {
        Exit();
        return false;
      }
      Pull();
      Migrate(o.applied, o.migrated);
      return o.migrated;
    }

    /** The gates, the swap and the record; 0 is "deploy complete". */
    method Release(o: Outcomes) returns (code: int)
      requires run.job == job && run.stage.Gating? && host.lock == Some(id)
      requires job.previous.Some? && job.previous.value != job.image && true in o.previousPolls ==>
                 job.previous.value.migrations <= host.schema
      requires true in o.candidatePolls ==> job.image.migrations <= host.schema
      requires o.swapped ==> o.swap == Replaced
      modifies this, host
      ensures host.lock.None? && host.schema == old(host.schema) && code in {0, 1}
      ensures code == 0 <==>
                && (job.previous.Some? && job.previous.value != job.image ==> true in o.previousPolls)
                && true in o.candidatePolls && o.swapped && o.write == Written
      ensures code == 0 ==> host.served == Some(job.image) && host.stateFile == Some(job.image.pin)
      ensures host.served != old(host.served) ==>
                && (job.previous.Some? && job.previous.value != job.image ==> true in o.previousPolls)
                && true in o.candidatePolls && (host.served == Some(job.image) || host.served == None)
      ensures host.stateFile != old(host.stateFile) ==>
                host.served == Some(job.image) && (host.stateFile == Some(job.image.pin) || host.stateFile == Some(""))
    {
      var ok := GatePrevious(o.previousPolls);
      if !ok {
        return 1;
      }
      ok := GateCandidate(o.candidatePolls);
      if !ok {
        return 1;
      }
      Swap(o.swap, o.swapped);
      if !o.swapped {
        return 1;
      }
      Record(o.write);
      return if o.write == Written then 0 else 1;
    }

    /**
      The script from the lock on, when nobody interferes. It completes exactly when the
      lock is free, the state file is accepted and every command succeeds, and then the
      state file names what is served. However it ends, it gives its lock back, and the
      service changes only past both gates.
     */
    method Deploy(o: Outcomes) returns (code: int)
      requires run.job == job && run.stage.Waiting? && Plausible(host.Now(), job, o)
      modifies this, host
      ensures code in {0, 1}
      ensures code == 0 <==>
                && old(host.lock).None? && o.pulled && o.migrated
                && (job.expected.None? || old(host.stateFile).None?
                    || old(host.stateFile).value in {job.expected.value, job.image.pin})
                && (job.previous.Some? && job.previous.value != job.image ==> true in o.previousPolls)
                && true in o.candidatePolls && o.swapped && o.write == Written
      ensures code == 0 ==> host.served == Some(job.image) && host.stateFile == Some(job.image.pin)
      ensures host.served != old(host.served) ==>
                && old(host.lock).None? && Accepts(job, old(host.stateFile)) && job.image.migrations <= host.schema
                && (job.previous.Some? && job.previous.value != job.image ==> true in o.previousPolls)
                && true in o.candidatePolls && (host.served == Some(job.image) || host.served == None)
      ensures host.stateFile != old(host.stateFile) ==>
                host.served == Some(job.image) && (host.stateFile == Some(job.image.pin) || host.stateFile == Some(""))
      ensures job.previous.Some? && job.previous.value != job.image && true !in o.previousPolls ==>
                code == 1 && host.served == old(host.served)
      ensures host.lock == old(host.lock)
      ensures host.schema ==
              old(host.schema)
              + if old(host.lock).None? && Accepts(job, old(host.stateFile)) && o.pulled then o.applied else {}
    {
      var ok := Prepare(o);
      if !ok {
        return 1;
      }
      code := Release(o);
    }
  }

  // ----- Scripts side by side -----

  /** Run i of the system is what script i has come to, all on the one host. */
  ghost predicate Running(host: Production, scripts: seq<Script>, t: System)
    reads host, scripts
  {
    && host.Now() == t.host && |scripts| == |t.runs|
    && forall i :: 0 <= i < |scripts| ==>
         scripts[i].host == host && scripts[i].id == i && scripts[i].run == t.runs[i] && scripts[i].job == t.runs[i].job
  }

  /**
    Any number of scripts on one host, their commands in any possible order, do to the
    host and to each other what the state machine says.
   */
  method Interleave(host: Production, scripts: seq<Script>, moves: seq<Move>, ghost s: System)
    requires forall i, j :: 0 <= i < j < |scripts| ==> scripts[i] != scripts[j]
    requires Running(host, scripts, s) && Fresh(s) && Legal(s, moves)
    modifies host, scripts
    ensures Running(host, scripts, Execute(s, moves))
  {
    ghost var t := s;
    for n := 0 to |moves|
      invariant t == Execute(s, moves[..n]) && Running(host, scripts, t)
    {
      NextMove(s, moves, n);
      assert LockNames(t.host, moves[n].run, t.runs[moves[n].run]);
      scripts[moves[n].run].Do(moves[n].action);
      t := Step(t, moves[n]);
    }
    assert moves[..|moves|] == moves;
  }

  lemma NextMove(s: System, moves: seq<Move>, n: nat)
    requires Fresh(s) && Legal(s, moves) && n < |moves|
    ensures var t := Execute(s, moves[..n]);
            CanMove(t, moves[n]) && LockNamesHolder(t) && Execute(s, moves[..n + 1]) == Step(t, moves[n])
  {
    LegalUpTo(s, moves, n + 1);
    assert moves[..n + 1][..n] == moves[..n];
    MutualExclusion(s, moves[..n]);
  }
}
