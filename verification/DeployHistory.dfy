/** What every interleaving of deploy runs keeps, crashes included. */
module DeployHistory {
  import opened Basics
  import opened Deploy

  lemma LegalPrefix(s: System, moves: seq<Move>)
    requires Legal(s, moves) && |moves| > 0
    ensures var n := |moves| - 1;
            Legal(s, moves[..n]) && CanMove(Execute(s, moves[..n]), moves[n])
            && Execute(s, moves) == Step(Execute(s, moves[..n]), moves[n])
  {
  }

  lemma {:induction false} LegalUpTo(s: System, moves: seq<Move>, i: nat)
    requires Legal(s, moves) && i <= |moves|
    ensures Legal(s, moves[..i])
  {
    if i == |moves| {
      assert moves[..i] == moves;
    } else {
      LegalUpTo(s, moves[..|moves| - 1], i);
      assert moves[..|moves| - 1][..i] == moves[..i];
    }
  }

  /** What the acting run takes part in when one of its actions is performed. */
  function EffectOf(t: System, m: Move): Effect
    requires m.run < |t.runs|
  {
    Act(t.host, m.run, t.runs[m.run], m.action)
  }

  // ----- The lock -----

  /** The lock is held by exactly the run that is between taking it and ending. */
  predicate LockNames(host: Host, i: nat, run: Run) {
    Holding(run.stage) <==> host.lock == Some(i)
  }

  predicate LockNamesHolder(t: System) {
    forall i :: 0 <= i < |t.runs| ==> LockNames(t.host, i, t.runs[i])
  }

  lemma ActKeepsLock(host: Host, r: nat, run: Run, a: Action)
    requires Possible(host, run, a) && LockNames(host, r, run)
    ensures var e := Act(host, r, run, a);
            && e.run.job == run.job
            && LockNames(e.host, r, e.run)
            && (forall i: nat :: i != r ==> (e.host.lock == Some(i) <==> host.lock == Some(i)))
            && (host.lock != Some(r) ==> e.host == host.(lock := e.host.lock) && e.notes == [])
  {
  }

  lemma StepKeepsLock(t: System, m: Move)
    requires CanMove(t, m) && LockNamesHolder(t)
    ensures LockNamesHolder(Step(t, m))
  {
    assert LockNames(t.host, m.run, t.runs[m.run]);
    ActKeepsLock(t.host, m.run, t.runs[m.run], m.action);
    forall i | 0 <= i < |t.runs|
      ensures LockNames(Step(t, m).host, i, Step(t, m).runs[i])
    {
      assert LockNames(t.host, i, t.runs[i]);
    }
  }

  predicate SameJobs(s: System, t: System) {
    |t.runs| == |s.runs| && forall i :: 0 <= i < |s.runs| ==> t.runs[i].job == s.runs[i].job
  }

  /** At any moment of any execution at most one run is past the lock, and it is the one the lock names. */
  lemma {:induction false} MutualExclusion(s: System, moves: seq<Move>)
    requires Fresh(s) && Legal(s, moves)
    ensures LockNamesHolder(Execute(s, moves)) && SameJobs(s, Execute(s, moves))
  {
    if moves == [] {
    } else {
      var n := |moves| - 1;
      LegalPrefix(s, moves);
      MutualExclusion(s, moves[..n]);
      var t, m := Execute(s, moves[..n]), moves[n];
      StepKeepsLock(t, m);
      assert LockNames(t.host, m.run, t.runs[m.run]);
      ActKeepsLock(t.host, m.run, t.runs[m.run], m.action);
    }
  }

  // ----- What the holder knows -----

  /** Past the check, the run goes by a state file it has accepted. */
  predicate Committed(stage: Stage) {
    Holding(stage) && !stage.Checking?
  }

  /** What a run holding the lock read is still so: the state file since the check, the service since the lock. */
  predicate HolderIsCurrent(host: Host, run: Run) {
    && (Committed(run.stage) ==> host.stateFile == run.seen && Accepts(run.job, run.seen))
    && (Holding(run.stage) && !run.stage.Recording? ==> host.served == run.found)
    && (run.stage.Recording? ==> host.served == Some(run.job.image))
  }

  predicate HoldersAreCurrent(t: System) {
    forall i :: 0 <= i < |t.runs| ==> HolderIsCurrent(t.host, t.runs[i])
  }

  lemma ActKeepsCurrent(host: Host, r: nat, run: Run, a: Action)
    requires Possible(host, run, a) && HolderIsCurrent(host, run)
    ensures HolderIsCurrent(Act(host, r, run, a).host, Act(host, r, run, a).run)
  {
  }

  lemma StepKeepsCurrent(t: System, m: Move)
    requires CanMove(t, m) && LockNamesHolder(t) && HoldersAreCurrent(t)
    ensures HoldersAreCurrent(Step(t, m))
  {
    var u := Step(t, m);
    assert LockNames(t.host, m.run, t.runs[m.run]) && HolderIsCurrent(t.host, t.runs[m.run]);
    ActKeepsLock(t.host, m.run, t.runs[m.run], m.action);
    ActKeepsCurrent(t.host, m.run, t.runs[m.run], m.action);
    forall i | 0 <= i < |t.runs|
      ensures HolderIsCurrent(u.host, u.runs[i])
    {
      assert LockNames(t.host, i, t.runs[i]) && HolderIsCurrent(t.host, t.runs[i]);
    }
  }

  lemma {:induction false} AllCurrent(s: System, moves: seq<Move>)
    requires Fresh(s) && Legal(s, moves)
    ensures HoldersAreCurrent(Execute(s, moves))
  {
    if moves == [] {
    } else {
      LegalPrefix(s, moves);
      MutualExclusion(s, moves[..|moves| - 1]);
      AllCurrent(s, moves[..|moves| - 1]);
      StepKeepsCurrent(Execute(s, moves[..|moves| - 1]), moves[|moves| - 1]);
    }
  }

  /** The acting run of the last move, with what it knows when it acts. */
  lemma LastActor(s: System, moves: seq<Move>)
    requires Fresh(s) && Legal(s, moves) && |moves| > 0
    ensures var n := |moves| - 1;
            var t := Execute(s, moves[..n]);
            && CanMove(t, moves[n]) && Execute(s, moves) == Step(t, moves[n])
            && SameJobs(s, t)
            && LockNames(t.host, moves[n].run, t.runs[moves[n].run])
            && HolderIsCurrent(t.host, t.runs[moves[n].run])
  {
    LegalPrefix(s, moves);
    MutualExclusion(s, moves[..|moves| - 1]);
    AllCurrent(s, moves[..|moves| - 1]);
  }

  lemma ActorAccepts(host: Host, r: nat, run: Run, a: Action)
    requires Possible(host, run, a) && HolderIsCurrent(host, run)
    ensures var e := Act(host, r, run, a);
            && (e.host.(lock := host.lock) != host || e.notes != [] ==> Accepts(run.job, host.stateFile))
            && (!a.Swap? ==> e.host.served == host.served)
  {
  }

  /**
    A run that does not accept the state file does nothing: whenever a step changes the
    schema, the service or the state file, the file at that moment is one the stepping run
    accepts. What that is worth to the service, which the file may have stopped naming, is
    the subject of DeployGuard.
   */
  lemma OnlyExpectedSuccessorsAct(s: System, moves: seq<Move>)
    requires Fresh(s) && Legal(s, moves) && |moves| > 0
    ensures var n := |moves| - 1;
            var before, after := Execute(s, moves[..n]).host, Execute(s, moves).host;
            moves[n].run < |s.runs|
            && (after.(lock := before.lock) != before ==> Accepts(s.runs[moves[n].run].job, before.stateFile))
  {
    LastActor(s, moves);
    var t, m := Execute(s, moves[..|moves| - 1]), moves[|moves| - 1];
    ActorAccepts(t.host, m.run, t.runs[m.run], m.action);
  }

  /**
    Until its own swap, a run that ends, however it ends, leaves the very service it
    found when it took the lock.
   */
  lemma EndingBeforeSwapKeepsService(s: System, moves: seq<Move>)
    requires Fresh(s) && Legal(s, moves) && |moves| > 0 && !moves[|moves| - 1].action.Swap?
    ensures var n := |moves| - 1;
            var t, u := Execute(s, moves[..n]), Execute(s, moves);
            moves[n].run < |t.runs|
            && u.host.served == t.host.served
            && (var run := t.runs[moves[n].run];
                Holding(run.stage) && !run.stage.Recording? ==> u.host.served == run.found)
  {
    LastActor(s, moves);
    var t, m := Execute(s, moves[..|moves| - 1]), moves[|moves| - 1];
    ActorAccepts(t.host, m.run, t.runs[m.run], m.action);
  }

  // ----- The state file is a chain -----

  /** What the trace says is in the state file. */
  function FileAfter(file: Option<string>, trace: seq<Note>): Option<string> {
    if trace == [] then file
    else
      var note := trace[|trace| - 1];
      match note
      case Wrote(_, _, now) => Some(now)
      case Tore(_, _) => Some("")
      case _ => FileAfter(file, trace[..|trace| - 1])
  }

  predicate Writes(note: Note) {
    note.Wrote? || note.Tore?
  }

  /** A write over `before` by a run that accepts it, of the run's identity, unless it broke off. */
  predicate SoundWrite(job: Job, before: Option<string>, note: Note)
    requires Writes(note)
  {
    note.before == before && Accepts(job, before) && (note.Wrote? ==> note.now == job.image.pin)
  }

  lemma ActWritesSoundly(host: Host, r: nat, run: Run, a: Action)
    requires Possible(host, run, a) && HolderIsCurrent(host, run)
    ensures var e := Act(host, r, run, a);
            && |e.notes| <= 1
            && e.host.stateFile == FileAfter(host.stateFile, e.notes)
            && (e.notes != [] && Writes(e.notes[0]) ==>
                  e.notes[0].run == r && SoundWrite(run.job, host.stateFile, e.notes[0]))
  {
  }

  lemma FileAfterAppend(file: Option<string>, trace: seq<Note>, notes: seq<Note>)
    requires |notes| <= 1
    ensures FileAfter(file, trace + notes) == FileAfter(FileAfter(file, trace), notes)
  {
    if notes == [] {
      assert trace + notes == trace;
    } else {
      assert (trace + notes)[..|trace|] == trace && notes[..0] == [];
    }
  }

  /** Write n replaces what the write before it left. */
  predicate LinkAt(s: System, trace: seq<Note>, n: nat)
    requires n < |trace| && Writes(trace[n])
  {
    trace[n].run < |s.runs|
    && SoundWrite(s.runs[trace[n].run].job, FileAfter(s.host.stateFile, trace[..n]), trace[n])
  }

  /**
    The history of the state file is a chain. Every write replaces exactly what the
    previous write left, and a run that expected a predecessor and found a file replaces
    that predecessor or its own identity, over any interleaving with any crashes.
   */
  lemma {:induction false} StateFileIsChain(s: System, moves: seq<Move>)
    requires Fresh(s) && Legal(s, moves)
    ensures var t := Execute(s, moves);
            t.host.stateFile == FileAfter(s.host.stateFile, t.trace)
            && forall n :: 0 <= n < |t.trace| && Writes(t.trace[n]) ==> LinkAt(s, t.trace, n)
  {
    if moves == [] {
    } else {
      LastActor(s, moves);
      LegalPrefix(s, moves);
      StateFileIsChain(s, moves[..|moves| - 1]);
      var t, m := Execute(s, moves[..|moves| - 1]), moves[|moves| - 1];
      var notes := EffectOf(t, m).notes;
      ActWritesSoundly(t.host, m.run, t.runs[m.run], m.action);
      FileAfterAppend(s.host.stateFile, t.trace, notes);
      LinksExtend(s, t.trace, notes);
    }
  }

  lemma LinksExtend(s: System, trace: seq<Note>, notes: seq<Note>)
    requires |notes| <= 1
    requires forall n :: 0 <= n < |trace| && Writes(trace[n]) ==> LinkAt(s, trace, n)
    requires notes != [] && Writes(notes[0]) ==>
               && notes[0].run < |s.runs|
               && SoundWrite(s.runs[notes[0].run].job, FileAfter(s.host.stateFile, trace), notes[0])
    ensures var longer := trace + notes;
            forall n :: 0 <= n < |longer| && Writes(longer[n]) ==> LinkAt(s, longer, n)
  {
    var longer := trace + notes;
    forall n | 0 <= n < |longer| && Writes(longer[n])
      ensures LinkAt(s, longer, n)
    {
      assert longer[..n] == trace[..n];
      if n < |trace| {
        assert LinkAt(s, trace, n);
      } else {
        assert trace[..n] == trace;
      }
    }
  }

  // ----- The host in terms of the commands alone -----

  /** All migrations applied, by failing runs of the migration too. */
  function Applied(moves: seq<Move>): set<Migration> {
    if moves == [] then {}
    else
      var a := moves[|moves| - 1].action;
      Applied(moves[..|moves| - 1]) + if a.Migrate? then a.applied else {}
  }

  /** What the last effective swap left in service. */
  function LastServed(s: System, moves: seq<Move>): Option<Image> {
    if moves == [] then s.host.served
    else
      var m := moves[|moves| - 1];
      if m.action.Swap? && m.action.effect == Replaced && m.run < |s.runs| then Some(s.runs[m.run].job.image)
      else if m.action.Swap? && m.action.effect == Removed then None
      else LastServed(s, moves[..|moves| - 1])
  }

  /** What the last write left in the state file. */
  function LastRecorded(s: System, moves: seq<Move>): Option<string> {
    if moves == [] then s.host.stateFile
    else
      var m := moves[|moves| - 1];
      if m.action == Record(Written) && m.run < |s.runs| then Some(s.runs[m.run].job.image.pin)
      else if m.action == Record(Truncated) then Some("")
      else LastRecorded(s, moves[..|moves| - 1])
  }

  lemma ActChangesHost(host: Host, r: nat, run: Run, a: Action)
    requires Possible(host, run, a)
    ensures var after := Act(host, r, run, a).host;
            && after.schema == host.schema + (if a.Migrate? then a.applied else {})
            && after.served == (if a.Swap? && a.effect == Replaced then Some(run.job.image)
                                else if a.Swap? && a.effect == Removed then None else host.served)
            && after.stateFile == (if a == Record(Written) then Some(run.job.image.pin)
                                   else if a == Record(Truncated) then Some("") else host.stateFile)
  {
  }

  /**
    Schema, service and state file are what the commands so far have made of them and
    nothing more: no run leaves anything behind by ending, and nothing is undone.
   */
  lemma {:induction false} HostIsSumOfMoves(s: System, moves: seq<Move>)
    requires Fresh(s) && Legal(s, moves)
    ensures var host := Execute(s, moves).host;
            && host.schema == s.host.schema + Applied(moves)
            && host.served == LastServed(s, moves)
            && host.stateFile == LastRecorded(s, moves)
  {
    if moves != [] {
      var n := |moves| - 1;
      var t, m := Execute(s, moves[..n]), moves[n];
      LegalPrefix(s, moves);
      MutualExclusion(s, moves[..n]);
      HostIsSumOfMoves(s, moves[..n]);
      ActChangesHost(t.host, m.run, t.runs[m.run], m.action);
    }
  }
}
