/** How runs of the executor end: exactly when they return, and that taking steps in any order reaches an end. */
module BatchRuns {
  import opened BatchExecutor
  import opened Options

  // ---------------------------------------------------------------- progress, exactly

  /** The only way a run can end without returning. */
  predicate Starved(c: Config, s: State) {
    && s.main.Dispatching? && s.main.stage == Added
    && s.semaphore == c.maxWorkers == |Senders(s.workers)|
    && (forall w: nat | w < |s.workers| :: s.workers[w].Sending? || s.workers[w].Finished? || s.workers[w].Unborn?)
  }

  predicate Settled(w: Worker) { w.Sending? || w.Finished? || w.Unborn? }

  /** A worker in the middle of its work can move, or the holder of the mutex can. */
  lemma WorkerCanMove(c: Config, s: State, w: nat) returns (t: Step)
    requires Inv(c, s) && w < |s.workers| && !Settled(s.workers[w])
    ensures Enabled(c, s, t)
  {
    match s.workers[w] {
      case Processing => t := Process(w);
      case Locking =>
        if s.lock == None {
          t := Lock(w);
        } else {
          t := HolderCanMove(c, s, s.lock.value);
        }
      case Merging(_) => t := HolderCanMove(c, s, w);
      case Releasing =>
        assert w in Holders(s.workers);
        t := SemReceive(w);
      case Freed => t := WgDone(w);
    }
  }

  lemma HolderCanMove(c: Config, s: State, w: nat) returns (t: Step)
    requires Inv(c, s) && w < |s.workers| && s.workers[w].Merging?
    ensures Enabled(c, s, t)
  {
    assert s.lock == Some(w);
    if s.workers[w].todo == {} {
      t := Unlock(w);
    } else {
      var k :| k in s.workers[w].todo;
      t := Write(w, k);
    }
  }

  lemma SettledHolders(ws: seq<Worker>)
    requires forall w: nat | w < |ws| :: Settled(ws[w])
    ensures Holders(ws) == Senders(ws) == LiveWorkers(ws)
  {
  }

  /** Anywhere short of returning, either some step is possible or the dispatcher is starved. */
  lemma Progress(c: Config, s: State) returns (t: Step)
    requires Inv(c, s) && s.main != Returned && !Starved(c, s)
    ensures Enabled(c, s, t)
  {
    if w: nat :| w < |s.workers| && !Settled(s.workers[w]) {
      t := WorkerCanMove(c, s, w);
      return;
    }
    SettledHolders(s.workers);
    match s.main {
      case Dispatching(next, stage) =>
        match stage {
          case BeforeAdd => t := if next < |s.workers| then WgAdd else StartWaiter;
          case Added => t := SemSend;
          case Acquired => t := Spawn;
        }
      case Collecting =>
        if w: nat :| w in Senders(s.workers) {
          t := Deliver(w);
        } else {
          assert Senders(s.workers) == {};
          t := match s.waiter case Waiting => WaitReturns case Woken => CloseWait case _ => Return;
        }
    }
  }

  /** Fewer than maxWorkers of the chunks dispatched before the last one fail, or there is nothing to dispatch. */
  ghost predicate EnoughSlots(c: Config) {
    |c.outcomes| == 0 || |Failures(c, |c.outcomes| - 1)| < c.maxWorkers
  }

  lemma SubsetSize(a: set<nat>, b: set<nat>)
    requires a <= b
    ensures |a| <= |b|
  {
    assert b == a + (b - a);
  }

  /** Until the dispatcher is done, a failed chunk that was dispatched still holds its slot. */
  lemma FailedChunksHoldSlots(c: Config, s: State)
    requires Inv(c, s) && s.main.Dispatching?
    ensures Failures(c, s.main.next) <= Holders(s.workers)
  {
    forall w: nat | w in Failures(c, s.main.next) ensures w in Holders(s.workers) {
      assert w !in s.errs && w !in Delivered(c, s.workers);
    }
  }

  /** Without enough slots the dispatcher never gets past acquiring a slot for the last chunk. */
  ghost predicate BeforeLastAcquire(c: Config, s: State) {
    s.main.Dispatching? && s.main.next < |c.outcomes| && (s.main.next == |c.outcomes| - 1 ==> s.main.stage != Acquired)
  }

  lemma {:induction false} StarvedForever(c: Config, run: seq<Step>)
    requires IsRun(c, run) && !EnoughSlots(c)
    ensures BeforeLastAcquire(c, After(c, run))
  {
    if run != [] {
      var before := run[..|run| - 1];
      StarvedForever(c, before);
      RunInv(c, before);
      StaysBeforeLast(c, After(c, before), run[|run| - 1]);
    }
  }

  lemma StaysBeforeLast(c: Config, s: State, t: Step)
    requires Inv(c, s) && Enabled(c, s, t) && !EnoughSlots(c) && BeforeLastAcquire(c, s)
    ensures BeforeLastAcquire(c, Apply(c, s, t))
  {
    if s.main.next == |c.outcomes| - 1 && s.main.stage == Added {
      FailedChunksHoldSlots(c, s);
      SubsetSize(Failures(c, s.main.next), Holders(s.workers));
    }
  }

  lemma StarvedLacksSlots(c: Config, s: State)
    requires Shape(c, s) && Starved(c, s)
    ensures !EnoughSlots(c)
  {
    assert Senders(s.workers) <= Failures(c, |c.outcomes| - 1);
    SubsetSize(Senders(s.workers), Failures(c, |c.outcomes| - 1));
  }

  /**
   The exact progress condition. A run that cannot be extended has returned if and only if fewer than maxWorkers of the
   chunks before the last one fail; otherwise it is stuck with the dispatcher waiting for a slot and every slot
   held by a worker that is blocked on the error channel.
   */
  lemma MaximalRunsReturnIff(c: Config, run: seq<Step>)
    requires IsRun(c, run) && Quiescent(c, After(c, run))
    ensures After(c, run).main == Returned <==> EnoughSlots(c)
    ensures After(c, run).main != Returned ==> Starved(c, After(c, run))
  {
    RunInv(c, run);
    var s := After(c, run);
    if s.main != Returned {
      if !Starved(c, s) {
        var t := Progress(c, s);
        assert false;
      }
      StarvedLacksSlots(c, s);
    } else if !EnoughSlots(c) {
      StarvedForever(c, run);
    }
  }

  /** With no more chunks than workers every maximal run returns, whatever fails. */
  lemma FewChunksAlwaysReturn(c: Config, run: seq<Step>)
    requires IsRun(c, run) && Quiescent(c, After(c, run))
    requires |c.outcomes| <= c.maxWorkers
    ensures After(c, run).main == Returned
  {
    if |c.outcomes| > 0 {
      FailureCount(c, |c.outcomes| - 1);
    }
    MaximalRunsReturnIff(c, run);
  }

  lemma {:induction false} FailureCount(c: Config, m: nat)
    ensures |Failures(c, m)| <= m
  {
    if m > 0 {
      FailureCount(c, m - 1);
      SubsetSize(Failures(c, m), Failures(c, m - 1) + {m - 1});
    }
  }

  // ---------------------------------------------------------------- running to the end

  lemma StarvedIsQuiescent(c: Config, s: State)
    requires WaiterInv(s) && Starved(c, s)
    ensures Quiescent(c, s)
  {
  }

  lemma OneMoreStep(c: Config, run: seq<Step>, t: Step)
    requires IsRun(c, run) && Enabled(c, After(c, run), t)
    ensures IsRun(c, run + [t]) && After(c, run + [t]) == Apply(c, After(c, run), t)
  {
    assert (run + [t])[..|run|] == run;
  }

  /** Every run can be continued to a maximal one. */
  lemma {:induction false} ExtendsToMaximal(c: Config, run: seq<Step>) returns (longer: seq<Step>)
    requires IsRun(c, run)
    ensures run <= longer && IsRun(c, longer) && Quiescent(c, After(c, longer))
    decreases StepsLeft(c, After(c, run))
  {
    if Quiescent(c, After(c, run)) {
      longer := run;
    } else {
      var t: Step :| Enabled(c, After(c, run), t);
      OneMoreStep(c, run, t);
      EveryRunIsBounded(c, run);
      EveryRunIsBounded(c, run + [t]);
      longer := ExtendsToMaximal(c, run + [t]);
    }
  }

  /** Takes steps in some order until none is left; this is one call of processInConcurrentBatches. */
  method RunToTheEnd(c: Config) returns (s: State, run: seq<Step>)
    ensures IsRun(c, run) && s == After(c, run) && Quiescent(c, s)
  {
    s, run := Init(c), [];
    while s.main != Returned && !Starved(c, s)
      invariant IsRun(c, run) && s == After(c, run)
      decreases StepsLeft(c, s)
    {
      EveryRunIsBounded(c, run);
      RunInv(c, run);
      ghost var possible := Progress(c, s);
      var t: Step :| Enabled(c, s, t);
      OneMoreStep(c, run, t);
      EveryRunIsBounded(c, run + [t]);
      s, run := Apply(c, s, t), run + [t];
    }
    if s.main == Returned {
      SafeOnReturn(c, run);
    } else {
      RunInv(c, run);
      StarvedIsQuiescent(c, s);
    }
  }
}
