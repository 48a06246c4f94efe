/** Which images go live on which schema. */
module DeployGates {
  import opened Basics
  import opened Deploy
  import opened DeployHistory

  // ----- The gates -----

  /** The evidence a run has at its stage, against the schema now in place. */
  predicate Gated(host: Host, trace: seq<Note>, r: nat, run: Run) {
    && (run.stage.Probing? || run.stage.Swapping? ==>
          (GatesPrevious(run.job) ==> Probed(r, run.job.previous.value, host.schema) in trace))
    && (run.stage.Swapping? ==> Probed(r, run.job.image, host.schema) in trace)
  }

  predicate AllGated(t: System) {
    forall r :: 0 <= r < |t.runs| ==> Gated(t.host, t.trace, r, t.runs[r])
  }

  lemma ActKeepsGated(host: Host, trace: seq<Note>, r: nat, run: Run, a: Action)
    requires Possible(host, run, a) && Gated(host, trace, r, run)
    ensures var e := Act(host, r, run, a); Gated(e.host, trace + e.notes, r, e.run)
  {
    var e := Act(host, r, run, a);
    assert forall note :: note in trace ==> note in trace + e.notes;
    assert forall note :: note in e.notes ==> note in trace + e.notes;
    if a.GatePrevious? && GatesPrevious(run.job) && Passes(a.polls) {
      assert e.notes[0] in trace + e.notes;
    }
    if a.GateCandidate? && Passes(a.polls) {
      assert e.notes[0] in trace + e.notes;
    }
  }

  lemma StepKeepsGated(t: System, m: Move)
    requires CanMove(t, m) && LockNamesHolder(t) && AllGated(t)
    ensures AllGated(Step(t, m))
  {
    var u := Step(t, m);
    assert LockNames(t.host, m.run, t.runs[m.run]) && Gated(t.host, t.trace, m.run, t.runs[m.run]);
    ActKeepsLock(t.host, m.run, t.runs[m.run], m.action);
    ActKeepsGated(t.host, t.trace, m.run, t.runs[m.run], m.action);
    forall r | 0 <= r < |t.runs|
      ensures Gated(u.host, u.trace, r, u.runs[r])
    {
      assert LockNames(t.host, r, t.runs[r]) && Gated(t.host, t.trace, r, t.runs[r]);
    }
  }

  lemma {:induction false} GatesHold(s: System, moves: seq<Move>)
    requires Fresh(s) && Legal(s, moves)
    ensures AllGated(Execute(s, moves))
  {
    if moves == [] {
    } else {
      LegalPrefix(s, moves);
      MutualExclusion(s, moves[..|moves| - 1]);
      GatesHold(s, moves[..|moves| - 1]);
      StepKeepsGated(Execute(s, moves[..|moves| - 1]), moves[|moves| - 1]);
    }
  }

  /** A swap by a run that has its own probe and its predecessor's, both on this very schema, in the trace so far. */
  predicate GatedSwap(job: Job, before: seq<Note>, note: Note)
    requires note.Swapped?
  {
    && note.image == job.image
    && Probed(note.run, job.image, note.schema) in before
    && (job.previous.Some? ==> Probed(note.run, job.previous.value, note.schema) in before)
  }

  lemma ActSwapsGated(host: Host, trace: seq<Note>, r: nat, run: Run, a: Action)
    requires Possible(host, run, a) && Gated(host, trace, r, run)
    ensures var e := Act(host, r, run, a);
            && |e.notes| <= 1
            && (e.notes != [] && e.notes[0].Swapped? ==> e.notes[0].run == r && GatedSwap(run.job, trace, e.notes[0]))
            && (e.host.served.Some? && e.host.served != host.served ==>
                  e.notes == [Swapped(r, run.job.image, host.schema)])
  {
  }

  predicate SwapWasGated(s: System, trace: seq<Note>, n: nat)
    requires n < |trace| && trace[n].Swapped?
  {
    trace[n].run < |s.runs| && GatedSwap(s.runs[trace[n].run].job, trace[..n], trace[n])
  }

  lemma SwapsExtend(s: System, trace: seq<Note>, notes: seq<Note>)
    requires |notes| <= 1
    requires forall n :: 0 <= n < |trace| && trace[n].Swapped? ==> SwapWasGated(s, trace, n)
    requires notes != [] && notes[0].Swapped? ==>
               notes[0].run < |s.runs| && GatedSwap(s.runs[notes[0].run].job, trace, notes[0])
    ensures var longer := trace + notes;
            forall n :: 0 <= n < |longer| && longer[n].Swapped? ==> SwapWasGated(s, longer, n)
  {
    var longer := trace + notes;
    forall n | 0 <= n < |longer| && longer[n].Swapped?
      ensures SwapWasGated(s, longer, n)
    {
      assert longer[..n] == trace[..n];
      if n < |trace| {
        assert SwapWasGated(s, trace, n);
      } else {
        assert trace[..n] == trace;
      }
    }
  }

  /**
    No image goes live before it and, if another one is named as previous, that one
    passed a probe by the same run against exactly the schema it goes live on.
   */
  lemma {:induction false} EverySwapWasGated(s: System, moves: seq<Move>)
    requires Fresh(s) && Legal(s, moves)
    ensures var trace := Execute(s, moves).trace;
            forall n :: 0 <= n < |trace| && trace[n].Swapped? ==> SwapWasGated(s, trace, n)
  {
    if moves == [] {
    } else {
      LastActor(s, moves);
      LegalPrefix(s, moves);
      GatesHold(s, moves[..|moves| - 1]);
      EverySwapWasGated(s, moves[..|moves| - 1]);
      var t, m := Execute(s, moves[..|moves| - 1]), moves[|moves| - 1];
      assert Gated(t.host, t.trace, m.run, t.runs[m.run]);
      ActSwapsGated(t.host, t.trace, m.run, t.runs[m.run], m.action);
      SwapsExtend(s, t.trace, EffectOf(t, m).notes);
    }
  }

  // ----- What the probes stand for -----

  /** The run of the note passed this very probe with move j: some poll of the named image was healthy. */
  predicate PolledAt(s: System, moves: seq<Move>, j: nat, note: Note)
    requires note.Probed?
  {
    && j < |moves| && moves[j].run == note.run && note.run < |s.runs|
    && Execute(s, moves[..j]).host.schema == note.schema
    && match moves[j].action
       case GateCandidate(polls) => true in polls && note.image == s.runs[note.run].job.image
       case GatePrevious(polls) =>
         true in polls && Some(note.image) == s.runs[note.run].job.previous && note.image != s.runs[note.run].job.image
       case _ => false
  }

  lemma ActProbes(host: Host, r: nat, run: Run, a: Action, note: Note)
    requires Possible(host, run, a) && note in Act(host, r, run, a).notes && note.Probed?
    ensures note.run == r && note.schema == host.schema
    ensures || (a.GateCandidate? && true in a.polls && note.image == run.job.image)
            || (a.GatePrevious? && true in a.polls && Some(note.image) == run.job.previous
                && note.image != run.job.image)
  {
  }

  /** No probe is noted that did not take place. */
  lemma {:induction false} ProbesTookPlace(s: System, moves: seq<Move>, note: Note) returns (j: nat)
    requires Fresh(s) && Legal(s, moves) && note.Probed? && note in Execute(s, moves).trace
    ensures PolledAt(s, moves, j, note)
  {
    var n := |moves| - 1;
    var t := Execute(s, moves[..n]);
    LegalPrefix(s, moves);
    LastActor(s, moves);
    if note in t.trace {
      j := ProbesTookPlace(s, moves[..n], note);
      assert moves[..n][..j] == moves[..j];
    } else {
      j := n;
      ActProbes(t.host, moves[n].run, t.runs[moves[n].run], moves[n].action, note);
    }
  }

  /**
    The release gate in terms of the commands alone. Before a run's swap it has polled its
    candidate healthy, and the previous image if another one is named, with the schema as
    it is at the swap.
   */
  lemma SwapsFollowHealthyPolls(s: System, moves: seq<Move>, i: nat)
    requires Fresh(s) && Legal(s, moves) && i < |moves| && moves[i].action.Swap?
    ensures moves[i].run < |s.runs|
    ensures var r, job, schema := moves[i].run, s.runs[moves[i].run].job, Execute(s, moves[..i]).host.schema;
            && (exists j: nat :: j < i && moves[j].run == r && moves[j].action.GateCandidate?
                                 && true in moves[j].action.polls && Execute(s, moves[..j]).host.schema == schema)
            && (job.previous.Some? && job.previous.value != job.image ==>
                  exists j: nat :: j < i && moves[j].run == r && moves[j].action.GatePrevious?
                                   && true in moves[j].action.polls && Execute(s, moves[..j]).host.schema == schema)
  {
    var r, before := moves[i].run, moves[..i];
    SwapperIsGated(s, moves, i);
    var job, schema := s.runs[r].job, Execute(s, before).host.schema;
    var j := ProbesTookPlace(s, before, Probed(r, job.image, schema));
    assert before[..j] == moves[..j];
    if job.previous.Some? && job.previous.value != job.image {
      var k := ProbesTookPlace(s, before, Probed(r, job.previous.value, schema));
      assert before[..k] == moves[..k];
    }
  }

  lemma SwapperIsGated(s: System, moves: seq<Move>, i: nat)
    requires Fresh(s) && Legal(s, moves) && i < |moves| && moves[i].action.Swap?
    ensures moves[i].run < |s.runs| && Legal(s, moves[..i])
    ensures var r, t := moves[i].run, Execute(s, moves[..i]);
            var job := s.runs[r].job;
            && Probed(r, job.image, t.host.schema) in t.trace
            && (job.previous.Some? ==> Probed(r, job.previous.value, t.host.schema) in t.trace)
  {
    var t := Execute(s, moves[..i]);
    ActorAt(s, moves, i);
    GatesHold(s, moves[..i]);
    assert Gated(t.host, t.trace, moves[i].run, t.runs[moves[i].run]);
    SwapNeedsProbes(t.host, t.trace, moves[i].run, t.runs[moves[i].run], moves[i].action);
  }

  lemma ActorAt(s: System, moves: seq<Move>, i: nat)
    requires Fresh(s) && Legal(s, moves) && i < |moves|
    ensures var t := Execute(s, moves[..i]);
            Legal(s, moves[..i]) && CanMove(t, moves[i]) && SameJobs(s, t)
  {
    LegalUpTo(s, moves, i + 1);
    assert moves[..i + 1][..i] == moves[..i];
    MutualExclusion(s, moves[..i]);
  }

  lemma SwapNeedsProbes(host: Host, trace: seq<Note>, r: nat, run: Run, a: Action)
    requires Possible(host, run, a) && a.Swap? && Gated(host, trace, r, run)
    ensures Probed(r, run.job.image, host.schema) in trace
    ensures run.job.previous.Some? ==> Probed(r, run.job.previous.value, host.schema) in trace
  {
  }

  // ----- The schema -----

  lemma ActGrowsSchema(host: Host, r: nat, run: Run, a: Action)
    requires Possible(host, run, a)
    ensures var e := Act(host, r, run, a);
            && host.schema <= e.host.schema
            && (e.host.schema == host.schema <==> Grew(r) !in e.notes)
            && |e.notes| <= 1
            && (forall note :: note in e.notes && note.Probed? ==> note.schema == host.schema == e.host.schema)
            && (forall note :: note in e.notes && note.Grew? ==> note == Grew(r))
  {
  }

  /** No run ever moves the schema backwards. */
  lemma {:induction false} SchemaOnlyGrows(s: System, moves: seq<Move>, i: nat)
    requires Legal(s, moves) && i <= |moves|
    ensures Execute(s, moves[..i]).host.schema <= Execute(s, moves).host.schema
  {
    if i == |moves| {
      assert moves[..i] == moves;
    } else {
      var n := |moves| - 1;
      LegalPrefix(s, moves);
      assert moves[..n][..i] == moves[..i];
      SchemaOnlyGrows(s, moves[..n], i);
      var t, m := Execute(s, moves[..n]), moves[n];
      ActGrowsSchema(t.host, m.run, t.runs[m.run], m.action);
    }
  }

  /** An image that is about to go live, or is live, has no pending migrations. */
  predicate NothingPending(host: Host, run: Run) {
    && (run.stage.Swapping? ==> run.job.image.migrations <= host.schema)
    && (host.served.Some? ==> host.served.value.migrations <= host.schema)
  }

  lemma ActLeavesNothingPending(host: Host, r: nat, run: Run, a: Action)
    requires Possible(host, run, a) && NothingPending(host, run)
    ensures NothingPending(Act(host, r, run, a).host, Act(host, r, run, a).run)
  {
    ActGrowsSchema(host, r, run, a);
  }

  predicate NothingPendingAnywhere(t: System) {
    && (t.host.served.Some? ==> t.host.served.value.migrations <= t.host.schema)
    && forall i :: 0 <= i < |t.runs| ==> NothingPending(t.host, t.runs[i])
  }

  /**
    Whatever is served, through refused releases, failed swaps and crashes, the schema
    has every migration it ships.
   */
  lemma {:induction false} ServedHasNoPendingMigrations(s: System, moves: seq<Move>)
    requires Fresh(s) && Legal(s, moves)
    requires s.host.served.Some? ==> s.host.served.value.migrations <= s.host.schema
    ensures NothingPendingAnywhere(Execute(s, moves))
  {
    if moves == [] {
    } else {
      var n := |moves| - 1;
      LegalPrefix(s, moves);
      ServedHasNoPendingMigrations(s, moves[..n]);
      var t, m := Execute(s, moves[..n]), moves[n];
      var u := Step(t, m);
      assert NothingPending(t.host, t.runs[m.run]);
      ActLeavesNothingPending(t.host, m.run, t.runs[m.run], m.action);
      ActGrowsSchema(t.host, m.run, t.runs[m.run], m.action);
      forall i | 0 <= i < |u.runs|
        ensures NothingPending(u.host, u.runs[i])
      {
        assert NothingPending(t.host, t.runs[i]);
      }
    }
  }
}
