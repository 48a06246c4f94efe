/**
  What the compare-and-swap on the state file protects. It is about expected predecessors:
  a run with an expectation replaces that or its own image. The script compares with the
  file, not with the service, so this depends on whether the file still names what is
  served. And it knows no age: what it does against older runs depends on when they took
  their expectation.
 */
module DeployGuard {
  import opened Basics
  import opened Deploy
  import opened DeployHistory
  import opened DeployTurns

  // ----- When file and service part -----

  /** The state file names what is served. */
  predicate FileNamesServed(host: Host) {
    host.served.Some? && host.stateFile == Some(host.served.value.pin)
  }

  /**
    From its swap on, a run that ends without a record leaves a state file that does not
    name the served image, except when it was redeploying what the file named already. A
    failing swap that has replaced the container counts. Completing the record always
    makes the file right.
   */
  lemma StaleFileIffUnrecorded(s: System, moves: seq<Move>)
    requires Fresh(s) && Legal(s, moves) && |moves| > 0
    requires var t := Execute(s, moves[..|moves| - 1]);
             moves[|moves| - 1].run < |t.runs|
             && (t.runs[moves[|moves| - 1].run].stage.Swapping? || t.runs[moves[|moves| - 1].run].stage.Recording?)
    ensures var n := |moves| - 1;
            var t, u, a := Execute(s, moves[..n]), Execute(s, moves), moves[n].action;
            var run := t.runs[moves[n].run];
            && (a == Record(Written) ==> FileNamesServed(u.host))
            && (a == Record(Unwritten) || (a == Die && run.stage.Recording?) || (a.Swap? && a.effect == Replaced) ==>
                  (FileNamesServed(u.host) <==> run.seen == Some(run.job.image.pin)))
            && ((a.Swap? && a.effect == Removed) || (a == Record(Truncated) && run.job.image.pin != "") ==>
                  !FileNamesServed(u.host))
            && ((a.Swap? && a.effect == Kept) || (a == Die && run.stage.Swapping?) ==>
                  (FileNamesServed(u.host) <==> FileNamesServed(t.host)))
  {
    LastActor(s, moves);
  }

  /** Nothing else can part the two: only a swap and a broken record can. */
  lemma FileKeepsNamingServed(s: System, moves: seq<Move>)
    requires Fresh(s) && Legal(s, moves) && |moves| > 0
    requires FileNamesServed(Execute(s, moves[..|moves| - 1]).host)
    ensures var a := moves[|moves| - 1].action;
            FileNamesServed(Execute(s, moves).host) || (a.Swap? && a.effect != Kept) || a == Record(Truncated)
  {
    LastActor(s, moves);
  }

  /** Changes the service or the state file. */
  predicate Touches(note: Note) {
    note.Swapped? || note.Vanished? || note.Wrote? || note.Tore?
  }

  /** A change that parts them, made while `file` is in the state file. */
  predicate Parting(file: Option<string>, note: Note) {
    match note
    case Swapped(_, image, _) => file != Some(image.pin)
    case Vanished(_) => true
    case Tore(_, _) => true
    case _ => false
  }

  /** Note n parts file and service, and nobody has touched either since. */
  predicate LooseEnd(file: Option<string>, trace: seq<Note>, n: nat) {
    && n < |trace| && Parting(FileAfter(file, trace[..n]), trace[n])
    && forall k :: n < k < |trace| ==> !Touches(trace[k])
  }

  ghost predicate Parted(file: Option<string>, trace: seq<Note>) {
    exists n: nat :: LooseEnd(file, trace, n)
  }

  lemma PartedAppend(file: Option<string>, trace: seq<Note>, notes: seq<Note>)
    requires |notes| <= 1
    ensures Parted(file, trace + notes)
       <==> if notes != [] && Touches(notes[0]) then Parting(FileAfter(file, trace), notes[0]) else Parted(file, trace)
  {
    var longer := trace + notes;
    forall n | 0 <= n <= |trace|
      ensures longer[..n] == trace[..n]
    {
    }
    assert trace[..|trace|] == trace;
    if Parted(file, trace) && !(notes != [] && Touches(notes[0])) {
      var n: nat :| LooseEnd(file, trace, n);
      assert LooseEnd(file, longer, n);
    }
    if notes != [] && Parting(FileAfter(file, trace), notes[0]) {
      assert LooseEnd(file, longer, |trace|);
    }
    if Parted(file, longer) {
      var n: nat :| LooseEnd(file, longer, n);
      if n < |trace| {
        assert notes != [] ==> !Touches(longer[|trace|]);
        assert forall k :: n < k < |trace| ==> longer[k] == trace[k];
        assert LooseEnd(file, trace, n);
      }
    }
  }

  /** Identities are never empty (deploy.sh:10-25), nor is an expectation (deploy.sh:117). */
  predicate Proper(job: Job) {
    job.image.pin != "" && job.expected != Some("")
  }

  predicate AllProper(s: System) {
    forall i :: 0 <= i < |s.runs| ==> Proper(s.runs[i].job)
  }

  lemma ActParts(host: Host, r: nat, run: Run, a: Action)
    requires Possible(host, run, a) && HolderIsCurrent(host, run) && Proper(run.job)
    ensures var e := Act(host, r, run, a);
            && |e.notes| <= 1
            && (FileNamesServed(e.host)
                <==> if e.notes != [] && Touches(e.notes[0]) then !Parting(host.stateFile, e.notes[0])
                     else FileNamesServed(host))
  {
  }

  /**
    Over every interleaving with any crashes, the state file names what is served exactly
    as long as the last change to either was not a swap or a torn write left unrecorded.
   */
  lemma {:induction false} FileNamesServedIffNoLooseEnd(s: System, moves: seq<Move>)
    requires Fresh(s) && Legal(s, moves) && AllProper(s) && FileNamesServed(s.host)
    ensures var t := Execute(s, moves);
            FileNamesServed(t.host) <==> !Parted(s.host.stateFile, t.trace)
  {
    if moves != [] {
      var n := |moves| - 1;
      LegalPrefix(s, moves);
      LastActor(s, moves);
      FileNamesServedIffNoLooseEnd(s, moves[..n]);
      StateFileIsChain(s, moves[..n]);
      var t, m := Execute(s, moves[..n]), moves[n];
      ActParts(t.host, m.run, t.runs[m.run], m.action);
      PartedAppend(s.host.stateFile, t.trace, EffectOf(t, m).notes);
    }
  }

  // ----- Expected predecessors -----

  /** What is served is what the run expected to replace, or the run's own image. */
  predicate Expected(job: Job, served: Option<Image>) {
    job.expected.Some? && served.Some? && (served.value.pin == job.expected.value || served.value.pin == job.image.pin)
  }

  /** Every run that has an expectation and passes the check finds it fulfilled by the service. */
  ghost predicate Guarded(host: Host) {
    forall job :: Proper(job) && job.expected.Some? && Accepts(job, host.stateFile) ==> Expected(job, host.served)
  }

  /**
    The check sees to expected predecessors iff the file names the service, or has been
    torn, which keeps everyone out.
   */
  lemma GuardedIff(host: Host)
    ensures Guarded(host) <==> FileNamesServed(host) || host.stateFile == Some("")
  {
    if Guarded(host) && host.stateFile != Some("") {
      var served := if host.served.Some? then host.served.value.pin else "";
      var file := if host.stateFile.Some? then host.stateFile.value else served + "gone";
      var other := Job(Image("app", file + served + "other", {}), None, Some(file));
      assert Proper(other) && Accepts(other, host.stateFile);
      assert Expected(other, host.served);
      assert |served| < |other.image.pin|;
    }
  }

  /** The same over whole runs: the guard stands until a swap is left unrecorded over a file that is not torn. */
  lemma GuardedIffNoLooseEnd(s: System, moves: seq<Move>)
    requires Fresh(s) && Legal(s, moves) && AllProper(s) && FileNamesServed(s.host)
    ensures var t := Execute(s, moves);
            Guarded(t.host) <==> !Parted(s.host.stateFile, t.trace) || t.host.stateFile == Some("")
  {
    FileNamesServedIffNoLooseEnd(s, moves);
    GuardedIff(Execute(s, moves).host);
  }

  lemma FileAfterNote(file: Option<string>, trace: seq<Note>, n: nat)
    requires n < |trace| && forall k :: n < k < |trace| ==> !Touches(trace[k])
    ensures FileAfter(file, trace) == FileAfter(file, trace[..n + 1])
  {
    if n == |trace| - 1 {
      assert trace[..n + 1] == trace;
    } else {
      var shorter := trace[..|trace| - 1];
      FileAfterNote(file, shorter, n);
      assert shorter[..n + 1] == trace[..n + 1];
    }
  }

  lemma TornAtLast(file: Option<string>, trace: seq<Note>, n: nat)
    requires LooseEnd(file, trace, n) && trace[n].Tore?
    ensures FileAfter(file, trace) == Some("")
  {
    FileAfterNote(file, trace, n);
    assert trace[..n + 1][..n] == trace[..n];
  }

  lemma ActGoesByFile(host: Host, r: nat, run: Run, a: Action)
    requires Possible(host, run, a) && HolderIsCurrent(host, run) && Proper(run.job) && run.job.expected.Some?
    requires Act(host, r, run, a).host.served != host.served && host.stateFile.Some?
    ensures host.stateFile.value in {run.job.expected.value, run.job.image.pin}
  {
  }

  lemma FileStays(file: Option<string>, trace: seq<Note>)
    requires file.Some?
    ensures FileAfter(file, trace).Some?
  {
  }

  /**
    A run with an expectation takes away an image it did not expect only after somebody
    swapped, or lost, the service and did not live to record it. A torn file does not let
    it through.
   */
  lemma ClobberNeedsLooseSwap(s: System, moves: seq<Move>)
    requires Fresh(s) && Legal(s, moves) && |moves| > 0 && AllProper(s) && FileNamesServed(s.host)
    requires moves[|moves| - 1].run < |s.runs| && s.runs[moves[|moves| - 1].run].job.expected.Some?
    requires var t := Execute(s, moves[..|moves| - 1]);
             && Execute(s, moves).host.served != t.host.served
             && !Expected(s.runs[moves[|moves| - 1].run].job, t.host.served)
    ensures var trace := Execute(s, moves[..|moves| - 1]).trace;
            exists k: nat :: LooseEnd(s.host.stateFile, trace, k) && (trace[k].Swapped? || trace[k].Vanished?)
  {
    var n := |moves| - 1;
    var t, m := Execute(s, moves[..n]), moves[n];
    LegalPrefix(s, moves);
    LastActor(s, moves);
    FileNamesServedIffNoLooseEnd(s, moves[..n]);
    StateFileIsChain(s, moves[..n]);
    FileStays(s.host.stateFile, t.trace);
    ActGoesByFile(t.host, m.run, t.runs[m.run], m.action);
    var k: nat :| LooseEnd(s.host.stateFile, t.trace, k);
    if t.trace[k].Tore? {
      TornAtLast(s.host.stateFile, t.trace, k);
    }
  }

  lemma {:induction false} TraceGrows(s: System, moves: seq<Move>, i: nat)
    requires i <= |moves|
    ensures Execute(s, moves[..i]).trace <= Execute(s, moves).trace
  {
    if i == |moves| {
      assert moves[..i] == moves;
    } else {
      assert moves[..|moves| - 1][..i] == moves[..i];
      TraceGrows(s, moves[..|moves| - 1], i);
    }
  }

  // ----- Older and newer deployments -----

  /** From note k on the state file has been written, and what it was last left with is not for this job to replace. */
  predicate OvertakenAt(trace: seq<Note>, k: nat, job: Job, n: nat) {
    && k <= n < |trace| && Writes(trace[n]) && (forall m :: n < m < |trace| ==> !Writes(trace[m]))
    && !(trace[n].Wrote? && (job.expected == Some(trace[n].now) || job.image.pin == trace[n].now))
  }

  ghost predicate Overtaken(trace: seq<Note>, k: nat, job: Job) {
    exists n: nat :: OvertakenAt(trace, k, job, n)
  }

  /** The state file is as it was at note k, or as the last write since then left it. */
  lemma {:induction false} LastWrite(file: Option<string>, trace: seq<Note>, k: nat) returns (n: nat)
    requires k <= |trace|
    ensures k <= n <= |trace| && forall m :: n < m < |trace| ==> !Writes(trace[m])
    ensures if n == |trace| then
              && FileAfter(file, trace) == FileAfter(file, trace[..k])
              && forall m :: k <= m < |trace| ==> !Writes(trace[m])
            else
              Writes(trace[n]) && FileAfter(file, trace) == Some(if trace[n].Wrote? then trace[n].now else "")
  {
    if k == |trace| {
      assert trace[..k] == trace;
      n := k;
    } else if Writes(trace[|trace| - 1]) {
      n := |trace| - 1;
    } else {
      var shorter := trace[..|trace| - 1];
      n := LastWrite(file, shorter, k);
      assert shorter[..k] == trace[..k];
      if n == |shorter| {
        n := |trace|;
      } else {
        assert trace[n] == shorter[n];
      }
    }
  }

  lemma AcceptedUnlessOvertaken(file: Option<string>, trace: seq<Note>, k: nat, job: Job)
    requires k <= |trace| && Proper(job) && job.expected.Some? && job.expected == FileAfter(file, trace[..k])
    ensures Accepts(job, FileAfter(file, trace)) <==> !Overtaken(trace, k, job)
  {
    var n := LastWrite(file, trace, k);
    if n < |trace| && !Accepts(job, FileAfter(file, trace)) {
      assert OvertakenAt(trace, k, job, n);
    }
    if Overtaken(trace, k, job) {
      var m: nat :| OvertakenAt(trace, k, job, m);
      assert m == n;
    }
  }

  /**
    A run whose expectation was what the state file held at some moment is accepted later
    exactly if nobody has meanwhile recorded, or begun to record, something else than that
    and its own image.
   */
  lemma AcceptedIffNotOvertaken(s: System, moves: seq<Move>, i: nat, job: Job)
    requires Fresh(s) && Legal(s, moves) && i <= |moves| && Proper(job)
    requires job.expected.Some? && job.expected == Execute(s, moves[..i]).host.stateFile
    ensures var t, u := Execute(s, moves[..i]), Execute(s, moves);
            Accepts(job, u.host.stateFile) <==> !Overtaken(u.trace, |t.trace|, job)
  {
    var t, u := Execute(s, moves[..i]), Execute(s, moves);
    LegalUpTo(s, moves, i);
    StateFileIsChain(s, moves[..i]);
    StateFileIsChain(s, moves);
    TraceGrows(s, moves, i);
    assert u.trace[..|t.trace|] == t.trace;
    AcceptedUnlessOvertaken(s.host.stateFile, u.trace, |t.trace|, job);
  }

  /**
    What the check does against older runs: a run that took its expectation from the
    state file at move i is turned away at its check if and only if something else than that
    and its own image was the last to be written since, and changes nothing while that is
    so. What was recorded before move i, however much newer, does not stop it.
   */
  lemma TurnedAwayIffOvertaken(s: System, moves: seq<Move>, i: nat)
    requires Fresh(s) && Legal(s, moves) && i < |moves| && AllProper(s)
    requires var m := moves[|moves| - 1];
             m.run < |s.runs| && s.runs[m.run].job.expected.Some?
             && s.runs[m.run].job.expected == Execute(s, moves[..i]).host.stateFile
    ensures var n := |moves| - 1;
            var t, u, m, k := Execute(s, moves[..n]), Execute(s, moves), moves[n], |Execute(s, moves[..i]).trace|;
            && (m.action == Check ==>
                  m.run < |u.runs| && (u.runs[m.run].stage.Stopped? <==> Overtaken(t.trace, k, s.runs[m.run].job)))
            && (u.host.(lock := t.host.lock) != t.host ==> !Overtaken(t.trace, k, s.runs[m.run].job))
  {
    LastMoveGoesByFile(s, moves);
    AcceptedBeforeLast(s, moves, i, s.runs[moves[|moves| - 1].run].job);
  }

  lemma AcceptedBeforeLast(s: System, moves: seq<Move>, i: nat, job: Job)
    requires Fresh(s) && Legal(s, moves) && i < |moves| && Proper(job)
    requires job.expected.Some? && job.expected == Execute(s, moves[..i]).host.stateFile
    ensures var t := Execute(s, moves[..|moves| - 1]);
            Accepts(job, t.host.stateFile) <==> !Overtaken(t.trace, |Execute(s, moves[..i]).trace|, job)
  {
    var before := moves[..|moves| - 1];
    LegalPrefix(s, moves);
    assert before[..i] == moves[..i];
    AcceptedIffNotOvertaken(s, before, i, job);
  }

  lemma CheckDecides(host: Host, r: nat, run: Run)
    ensures Act(host, r, run, Check).run.stage.Stopped? <==> !Accepts(run.job, host.stateFile)
  {
  }

  lemma LastMoveGoesByFile(s: System, moves: seq<Move>)
    requires Fresh(s) && Legal(s, moves) && |moves| > 0
    ensures var t, u, m := Execute(s, moves[..|moves| - 1]), Execute(s, moves), moves[|moves| - 1];
            && m.run < |s.runs| && m.run < |u.runs|
            && (m.action == Check ==>
                  (u.runs[m.run].stage.Stopped? <==> !Accepts(s.runs[m.run].job, t.host.stateFile)))
            && (u.host.(lock := t.host.lock) != t.host ==> Accepts(s.runs[m.run].job, t.host.stateFile))
  {
    var t, m := Execute(s, moves[..|moves| - 1]), moves[|moves| - 1];
    LegalPrefix(s, moves);
    MutualExclusion(s, moves[..|moves| - 1]);
    OnlyExpectedSuccessorsAct(s, moves);
    if m.action == Check {
      CheckDecides(t.host, m.run, t.runs[m.run]);
    }
  }

  /** Run r, taking its turn now, could come to serve its image. */
  ghost predicate CanTakeOver(s: System, moves: seq<Move>, r: nat, image: Image) {
    exists longer :: TakesOver(s, moves, r, image, longer)
  }

  predicate TakesOver(s: System, moves: seq<Move>, r: nat, image: Image, longer: seq<Move>) {
    && moves <= longer && Legal(s, longer) && OnlyRun(s, longer, |moves|, r)
    && Execute(s, longer).host.served == Some(image)
  }

  /**
    From any reachable state a waiting run can replace what is served if and only if it
    accepts the state file and its gate can pass.
   */
  lemma CanTakeOverIff(s: System, moves: seq<Move>, r: nat)
    requires Fresh(s) && Legal(s, moves) && r < |s.runs|
    requires var t := Execute(s, moves);
             && t.host.lock.None? && r < |t.runs| && t.runs[r].stage.Waiting?
             && t.host.served != Some(s.runs[r].job.image)
    ensures var host, job := Execute(s, moves).host, s.runs[r].job;
            CanTakeOver(s, moves, r, job.image) <==> Accepts(job, host.stateFile) && GateCanPass(host, job)
  {
    var t, job := Execute(s, moves), s.runs[r].job;
    MutualExclusion(s, moves);
    if Accepts(job, t.host.stateFile) && GateCanPass(t.host, job) {
      var longer := ReleaseSwaps(s, moves, t.host, t.runs, r);
      assert longer[..|moves|] == moves;
      SoloMoves(s, longer, |moves|, r);
      assert TakesOver(s, moves, r, job.image, longer);
    }
    if CanTakeOver(s, moves, r, job.image) {
      var longer :| TakesOver(s, moves, r, job.image, longer);
      assert longer[..|moves|] == moves;
      ReleaseIsBounded(s, longer, |moves|, r);
      if !GateCanPass(t.host, job) {
        NoGateNoSwap(s, longer, |moves|, r);
      }
    }
  }

  /**
    While the state file names the service, a run can replace another image if and only if
    it has no expectation or expects just that image. Which of the two is older plays no
    part.
   */
  lemma ReplacesWhatItExpects(s: System, moves: seq<Move>, r: nat)
    requires Fresh(s) && Legal(s, moves) && r < |s.runs|
    requires var t := Execute(s, moves);
             && t.host.lock.None? && r < |t.runs| && t.runs[r].stage.Waiting? && FileNamesServed(t.host)
             && t.host.served.value.pin != s.runs[r].job.image.pin && GateCanPass(t.host, s.runs[r].job)
    ensures var host, job := Execute(s, moves).host, s.runs[r].job;
            CanTakeOver(s, moves, r, job.image) <==> job.expected.None? || job.expected.value == host.served.value.pin
  {
    CanTakeOverIff(s, moves, r);
  }

  /**
    "An older run cannot overwrite a newer deployment" fails without any crash: a run of an
    older image that starts when the newer one has been recorded, and takes its expectation
    from the state file as .github/workflows/ci.yml does, is the expected successor.
   */
  lemma OlderRunCanFollow(host: Host, newer: Job, older: Job)
      returns (s: System, first: seq<Move>, second: seq<Move>)
    requires Admitted(host, newer) && GateCanPass(host, newer)
    requires older.expected == Some(newer.image.pin) && GateCanPass(Deployed(host, newer.image), older)
    ensures s == System(host, [Run(newer, Waiting, None, None), Run(older, Waiting, None, None)], [])
    ensures Fresh(s) && Legal(s, first) && Legal(s, second) && first <= second
    ensures forall k :: 0 <= k < |second| ==> !second[k].action.Die?
    ensures Execute(s, first).host == Deployed(host, newer.image)
    ensures FileNamesServed(Execute(s, first).host) && Guarded(Execute(s, first).host)
    ensures Execute(s, second).host == Deployed(Deployed(host, newer.image), older.image)
    ensures forall run :: run in Execute(s, second).runs ==> run.stage.Done?
  {
    var runs := [Run(newer, Waiting, None, None), Run(older, Waiting, None, None)];
    s := System(host, runs, []);
    assert Reaches(s, [], host, runs);
    first := ReleaseCompletes(s, [], host, runs, 0);
    GuardedIff(Deployed(host, newer.image));
    var done := Run(newer, Done, host.stateFile, host.served);
    second := ReleaseCompletes(s, first, Deployed(host, newer.image), runs[0 := done], 1);
  }

  /**
    It also fails where the file, and with it the expectation, has fallen behind: the newer
    release swaps and dies before its record, and an older one that expects the same
    predecessor still finds it in the state file.
   */
  lemma OlderRunCanClobber(host: Host, newer: Job, older: Job)
      returns (s: System, crash: seq<Move>, clobber: seq<Move>)
    requires FileNamesServed(host) && newer.expected == older.expected == host.stateFile && host.lock.None?
    requires GateCanPass(host, newer) && GateCanPass(host.(schema := host.schema + newer.image.migrations), older)
    ensures s == System(host, [Run(newer, Waiting, None, None), Run(older, Waiting, None, None)], [])
    ensures Fresh(s) && Legal(s, crash) && Legal(s, clobber) && crash <= clobber
    ensures forall i :: |crash| <= i < |clobber| ==> clobber[i].run == 1
    ensures Execute(s, crash).host
            == host.(schema := host.schema + newer.image.migrations, served := Some(newer.image))
    ensures FileNamesServed(Execute(s, crash).host) <==> newer.image.pin == host.stateFile.value
    ensures Execute(s, clobber).host.served == Some(older.image) && Execute(s, clobber).host.stateFile == older.expected
  {
    var runs := [Run(newer, Waiting, None, None), Run(older, Waiting, None, None)];
    s := System(host, runs, []);
    assert Reaches(s, [], host, runs);
    crash := ReleaseCrashes(s, [], host, runs, 0);
    var left := host.(schema := host.schema + newer.image.migrations, served := Some(newer.image));
    clobber := ReleaseSwaps(s, crash, left, runs[0 := Run(newer, Stopped, host.stateFile, host.served)], 1);
  }
}
