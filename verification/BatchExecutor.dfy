/**
 The concurrent batch executor as a transition system: one dispatcher that becomes the collector, one worker per
 chunk, and one waiter. They share a bounded semaphore channel, a WaitGroup, an unbuffered error channel, a mutex
 around the result map and a channel that is closed when every worker is done.

 A run is any interleaving of the steps below. What the database answers for a chunk is fixed by the configuration,
 so a statement about every configuration covers every pattern of successes and failures.
 */
module BatchExecutor {
  import opened Options

  /** What processBatch returned for one chunk. */
  datatype Outcome = Values(values: map<string, string>) | Failed(error: string)

  datatype Config = Config(outcomes: seq<Outcome>, maxWorkers: nat)

  /** Where the dispatcher is inside one call of acquire-then-go. */
  datatype Stage = BeforeAdd | Added | Acquired

  datatype Main = Dispatching(next: nat, stage: Stage) | Collecting | Returned

  datatype Waiter = NotStarted | Waiting | Woken | Closed

  datatype Worker =
    | Unborn
    | Processing                  // inside processBatch
    | Sending                     // blocked on the unbuffered error channel
    | Locking                     // blocked on the mutex
    | Merging(todo: set<string>)  // holds the mutex, these keys not yet written
    | Releasing                   // about to receive from the semaphore
    | Freed                       // about to call Done on the WaitGroup
    | Finished

  /** `executed` and `merged` are history: the order in which chunks were processed and took the mutex. */
  datatype State = State(
    main: Main,
    waiter: Waiter,
    workers: seq<Worker>,
    wg: int,
    semaphore: int,
    lock: Option<nat>,
    result: map<string, string>,
    errs: seq<nat>,
    executed: seq<nat>,
    merged: seq<nat>)

  datatype Step =
    | WgAdd | SemSend | Spawn | StartWaiter | WaitReturns | CloseWait | Return
    | Process(w: nat) | Lock(w: nat) | Write(w: nat, k: string) | Unlock(w: nat)
    | Deliver(w: nat) | SemReceive(w: nat) | WgDone(w: nat)

  function Init(c: Config): State {
    State(Dispatching(0, BeforeAdd), NotStarted, seq(|c.outcomes|, i => Unborn), 0, 0, None, map[], [], [], [])
  }

  predicate Enabled(c: Config, s: State, t: Step) {
    var n := |s.workers|;
    match t
    case WgAdd => s.main.Dispatching? && s.main.stage == BeforeAdd && s.main.next < n
    case SemSend => s.main.Dispatching? && s.main.stage == Added && s.semaphore < c.maxWorkers
    case Spawn => s.main.Dispatching? && s.main.stage == Acquired && s.main.next < n
    case StartWaiter => s.main == Dispatching(n, BeforeAdd)
    case WaitReturns => s.waiter == Waiting && s.wg == 0
    case CloseWait => s.waiter == Woken
    case Return => s.main == Collecting && s.waiter == Closed
    case Process(w) => w < n && w < |c.outcomes| && s.workers[w] == Processing
    case Lock(w) => w < n && w < |c.outcomes| && s.workers[w] == Locking && s.lock == None
    case Write(w, k) => w < n && s.workers[w].Merging? && k in s.workers[w].todo && k in ValuesOf(c, w)
    case Unlock(w) => w < n && s.workers[w] == Merging({})
    case Deliver(w) => s.main == Collecting && w < n && s.workers[w] == Sending
    case SemReceive(w) => w < n && s.workers[w] == Releasing && s.semaphore > 0
    case WgDone(w) => w < n && s.workers[w] == Freed
  }

  function Apply(c: Config, s: State, t: Step): State
    requires Enabled(c, s, t)
  {
    match t
    case WgAdd => s.(wg := s.wg + 1, main := Dispatching(s.main.next, Added))
    case SemSend => s.(semaphore := s.semaphore + 1, main := Dispatching(s.main.next, Acquired))
    case Spawn => s.(workers := s.workers[s.main.next := Processing], main := Dispatching(s.main.next + 1, BeforeAdd))
    case StartWaiter => s.(main := Collecting, waiter := Waiting)
    case WaitReturns => s.(waiter := Woken)
    case CloseWait => s.(waiter := Closed)
    case Return => s.(main := Returned)
    case Process(w) =>
      s.(workers := s.workers[w := if c.outcomes[w].Failed? then Sending else Locking], executed := s.executed + [w])
    case Lock(w) =>
      s.(workers := s.workers[w := Merging(ValuesOf(c, w).Keys)], lock := Some(w), merged := s.merged + [w])
    case Write(w, k) =>
      s.(workers := s.workers[w := Merging(s.workers[w].todo - {k})], result := s.result[k := ValuesOf(c, w)[k]])
    case Unlock(w) => s.(workers := s.workers[w := Releasing], lock := None)
    case Deliver(w) => s.(workers := s.workers[w := Releasing], errs := s.errs + [w])
    case SemReceive(w) => s.(workers := s.workers[w := Freed], semaphore := s.semaphore - 1)
    case WgDone(w) => s.(workers := s.workers[w := Finished], wg := s.wg - 1)
  }

  function ValuesOf(c: Config, w: nat): map<string, string> {
    if w < |c.outcomes| && c.outcomes[w].Values? then c.outcomes[w].values else map[]
  }

  // ---------------------------------------------------------------- runs

  ghost predicate IsRun(c: Config, run: seq<Step>)
    decreases |run|, 1
  {
    run == [] || (IsRun(c, run[..|run| - 1]) && Enabled(c, After(c, run[..|run| - 1]), run[|run| - 1]))
  }

  ghost function After(c: Config, run: seq<Step>): State
    requires IsRun(c, run)
    decreases |run|, 2
  {
    if run == [] then Init(c) else Apply(c, After(c, run[..|run| - 1]), run[|run| - 1])
  }

  ghost predicate Quiescent(c: Config, s: State) {
    forall t: Step :: !Enabled(c, s, t)
  }

  // ---------------------------------------------------------------- sets of workers and chunks

  predicate Holds(w: Worker) { w.Processing? || w.Sending? || w.Locking? || w.Merging? || w.Releasing? }

  predicate Live(w: Worker) { Holds(w) || w.Freed? }

  predicate PastProcessing(w: Worker) { !w.Unborn? && !w.Processing? }

  predicate PastHandOff(w: Worker) { w.Releasing? || w.Freed? || w.Finished? }

  ghost function Holders(ws: seq<Worker>): set<nat> { set w: nat | w < |ws| && Holds(ws[w]) }

  ghost function LiveWorkers(ws: seq<Worker>): set<nat> { set w: nat | w < |ws| && Live(ws[w]) }

  function Senders(ws: seq<Worker>): set<nat> { set w: nat | w < |ws| && ws[w].Sending? }

  /** The chunks among the first `m` that fail. */
  ghost function Failures(c: Config, m: nat): set<nat> { set w: nat | w < m && w < |c.outcomes| && c.outcomes[w].Failed? }

  ghost function AllChunks(c: Config): set<nat> {
    set w: nat | w < |c.outcomes| && (c.outcomes[w].Failed? || c.outcomes[w].Values?)
  }

  ghost function Successes(c: Config): set<nat> { set w: nat | w < |c.outcomes| && c.outcomes[w].Values? }

  ghost predicate Enumerates(order: seq<nat>, elements: set<nat>) {
    && (forall i, j | 0 <= i < j < |order| :: order[i] != order[j])
    && (forall w: nat :: w in order <==> w in elements)
  }

  /** The map obtained by merging whole chunk results, one chunk after another. */
  ghost function MergeAll(c: Config, order: seq<nat>): map<string, string> {
    if order == [] then map[] else MergeAll(c, order[..|order| - 1]) + ValuesOf(c, order[|order| - 1])
  }

  // ---------------------------------------------------------------- the invariant

  function Next(c: Config, s: State): nat { if s.main.Dispatching? then s.main.next else |c.outcomes| }

  ghost predicate Shape(c: Config, s: State) {
    && |s.workers| == |c.outcomes|
    && Next(c, s) <= |c.outcomes|
    && (s.main.Dispatching? && s.main.stage != BeforeAdd ==> s.main.next < |c.outcomes|)
    && (forall w: nat | w < |s.workers| :: s.workers[w].Unborn? <==> w >= Next(c, s))
    && (forall w: nat | w < |s.workers| :: s.workers[w].Sending? ==> c.outcomes[w].Failed?)
    && (forall w: nat | w < |s.workers| :: s.workers[w].Locking? || s.workers[w].Merging? ==> c.outcomes[w].Values?)
  }

  ghost predicate Counters(c: Config, s: State) {
    && s.semaphore == |Holders(s.workers)| + (if s.main.Dispatching? && s.main.stage == Acquired then 1 else 0)
    && s.wg == |LiveWorkers(s.workers)| + (if s.main.Dispatching? && s.main.stage != BeforeAdd then 1 else 0)
    && s.semaphore <= c.maxWorkers
  }

  ghost predicate WaiterInv(s: State) {
    && (s.main.Dispatching? <==> s.waiter == NotStarted)
    && (s.waiter == Woken || s.waiter == Closed ==> s.wg == 0)
    && (s.main == Returned ==> s.waiter == Closed)
  }

  /** Failed chunks whose error has been handed to the collector. */
  ghost function Delivered(c: Config, ws: seq<Worker>): set<nat>
    requires |ws| == |c.outcomes|
  {
    set w: nat | w < |ws| && c.outcomes[w].Failed? && PastHandOff(ws[w])
  }

  /** Successful chunks whose worker has taken the mutex. */
  ghost function TookMutex(c: Config, ws: seq<Worker>): set<nat>
    requires |ws| == |c.outcomes|
  {
    set w: nat | w < |ws| && c.outcomes[w].Values? && (ws[w].Merging? || PastHandOff(ws[w]))
  }

  ghost function Processed(ws: seq<Worker>): set<nat> { set w: nat | w < |ws| && PastProcessing(ws[w]) }

  ghost predicate HistoryInv(c: Config, s: State)
    requires |s.workers| == |c.outcomes|
  {
    && Enumerates(s.errs, Delivered(c, s.workers))
    && Enumerates(s.executed, Processed(s.workers))
    && Enumerates(s.merged, TookMutex(c, s.workers))
    && (s.main.Dispatching? ==> s.errs == [])
  }

  ghost predicate MutexInv(s: State) {
    forall w: nat | w < |s.workers| :: s.workers[w].Merging? <==> s.lock == Some(w)
  }

  /** The part of a chunk's result already copied while the keys `todo` are left. */
  ghost function Written(c: Config, w: nat, todo: set<string>): map<string, string> {
    map k | k in ValuesOf(c, w) && k !in todo :: ValuesOf(c, w)[k]
  }

  /** The shared map is the completed merges plus what the holder of the mutex has written. */
  ghost predicate ResultInv(c: Config, s: State) {
    match s.lock
    case None => s.result == MergeAll(c, s.merged)
    case Some(w) =>
      && w < |s.workers| && s.workers[w].Merging?
      && s.merged != [] && s.merged[|s.merged| - 1] == w
      && s.workers[w].todo <= ValuesOf(c, w).Keys
      && s.result == MergeAll(c, s.merged[..|s.merged| - 1]) + Written(c, w, s.workers[w].todo)
  }

  ghost predicate Inv(c: Config, s: State) {
    Shape(c, s) && Counters(c, s) && WaiterInv(s) && HistoryInv(c, s) && MutexInv(s) && ResultInv(c, s)
  }

  lemma InitInv(c: Config)
    ensures Inv(c, Init(c))
  {
    var s := Init(c);
    assert Holders(s.workers) == {} && LiveWorkers(s.workers) == {};
  }

  lemma ShapeStep(c: Config, s: State, t: Step)
    requires Inv(c, s) && Enabled(c, s, t)
    ensures Shape(c, Apply(c, s, t)) && WaiterInv(Apply(c, s, t))
  {
    if t.WgDone? {
      assert t.w in LiveWorkers(s.workers);
    }
  }

  // Replacing one worker changes a count by what that worker alone contributes.

  lemma ReplaceHolder(ws: seq<Worker>, w: nat, x: Worker)
    requires w < |ws|
    ensures |Holders(ws[w := x])| == |Holders(ws)| + (if Holds(x) then 1 else 0) - (if Holds(ws[w]) then 1 else 0)
  {
    var rest := Holders(ws) - {w};
    assert Holders(ws) == if Holds(ws[w]) then rest + {w} else rest;
    assert Holders(ws[w := x]) == if Holds(x) then rest + {w} else rest;
  }

  lemma ReplaceLive(ws: seq<Worker>, w: nat, x: Worker)
    requires w < |ws|
    ensures |LiveWorkers(ws[w := x])| == |LiveWorkers(ws)| + (if Live(x) then 1 else 0) - (if Live(ws[w]) then 1 else 0)
  {
    var rest := LiveWorkers(ws) - {w};
    assert LiveWorkers(ws) == if Live(ws[w]) then rest + {w} else rest;
    assert LiveWorkers(ws[w := x]) == if Live(x) then rest + {w} else rest;
  }

  lemma ReplaceWorker(ws: seq<Worker>, w: nat, x: Worker)
    requires w < |ws|
    ensures |Holders(ws[w := x])| == |Holders(ws)| + (if Holds(x) then 1 else 0) - (if Holds(ws[w]) then 1 else 0)
    ensures |LiveWorkers(ws[w := x])| == |LiveWorkers(ws)| + (if Live(x) then 1 else 0) - (if Live(ws[w]) then 1 else 0)
  {
    ReplaceHolder(ws, w, x);
    ReplaceLive(ws, w, x);
  }

  /** A step of worker `w` that moves the counters by what this worker contributes. */
  lemma WorkerCounters(c: Config, s: State, s': State, w: nat, x: Worker)
    requires Counters(c, s) && w < |s.workers| && s'.workers == s.workers[w := x] && s'.main == s.main
    requires s'.semaphore == s.semaphore + (if Holds(x) then 1 else 0) - (if Holds(s.workers[w]) then 1 else 0)
    requires s'.wg == s.wg + (if Live(x) then 1 else 0) - (if Live(s.workers[w]) then 1 else 0)
    requires s'.semaphore <= c.maxWorkers
    ensures Counters(c, s')
  {
    ReplaceWorker(s.workers, w, x);
  }

  lemma SpawnCounters(c: Config, s: State)
    requires Shape(c, s) && Counters(c, s) && Enabled(c, s, Spawn)
    ensures Counters(c, Apply(c, s, Spawn))
  {
    ReplaceWorker(s.workers, s.main.next, Processing);
  }

  lemma CountersStep(c: Config, s: State, t: Step)
    requires Inv(c, s) && Enabled(c, s, t)
    ensures Counters(c, Apply(c, s, t))
  {
    var s' := Apply(c, s, t);
    match t {
      case Spawn => SpawnCounters(c, s);
      case Process(w) => WorkerCounters(c, s, s', w, s'.workers[w]);
      case Lock(w) => WorkerCounters(c, s, s', w, s'.workers[w]);
      case Write(w, k) => WorkerCounters(c, s, s', w, s'.workers[w]);
      case Unlock(w) => WorkerCounters(c, s, s', w, s'.workers[w]);
      case Deliver(w) => WorkerCounters(c, s, s', w, s'.workers[w]);
      case SemReceive(w) => WorkerCounters(c, s, s', w, s'.workers[w]);
      case WgDone(w) => WorkerCounters(c, s, s', w, s'.workers[w]);
      case _ =>
    }
  }

  lemma EnumeratesOneMore(order: seq<nat>, a: set<nat>, w: nat)
    requires Enumerates(order, a) && w !in a
    ensures Enumerates(order + [w], a + {w})
  {
    forall v: nat ensures v in order + [w] <==> v in a + {w} {
      assert v in order + [w] <==> v in order || v == w;
    }
  }

  lemma DeliveredStep(c: Config, s: State, t: Step)
    requires Enabled(c, s, t) && Shape(c, s) && Shape(c, Apply(c, s, t))
    requires Enumerates(s.errs, Delivered(c, s.workers))
    ensures Enumerates(Apply(c, s, t).errs, Delivered(c, Apply(c, s, t).workers))
  {
    var before, after := Delivered(c, s.workers), Delivered(c, Apply(c, s, t).workers);
    if t.Deliver? {
      EnumeratesOneMore(s.errs, before, t.w);
      assert after == before + {t.w};
    } else {
      assert after == before;
    }
  }

  lemma ProcessedStep(c: Config, s: State, t: Step)
    requires Enabled(c, s, t) && Shape(c, s) && Shape(c, Apply(c, s, t))
    requires Enumerates(s.executed, Processed(s.workers))
    ensures Enumerates(Apply(c, s, t).executed, Processed(Apply(c, s, t).workers))
  {
    var before, after := Processed(s.workers), Processed(Apply(c, s, t).workers);
    if t.Process? {
      EnumeratesOneMore(s.executed, before, t.w);
      assert after == before + {t.w};
    } else {
      assert after == before;
    }
  }

  lemma TookMutexStep(c: Config, s: State, t: Step)
    requires Enabled(c, s, t) && Shape(c, s) && Shape(c, Apply(c, s, t))
    requires Enumerates(s.merged, TookMutex(c, s.workers))
    ensures Enumerates(Apply(c, s, t).merged, TookMutex(c, Apply(c, s, t).workers))
  {
    var before, after := TookMutex(c, s.workers), TookMutex(c, Apply(c, s, t).workers);
    if t.Lock? {
      EnumeratesOneMore(s.merged, before, t.w);
      assert after == before + {t.w};
    } else {
      assert after == before;
    }
  }

  lemma MutexStep(c: Config, s: State, t: Step)
    requires Enabled(c, s, t) && Shape(c, s) && MutexInv(s)
    ensures MutexInv(Apply(c, s, t))
  {
  }

  lemma WrittenOneMore(c: Config, w: nat, todo: set<string>, k: string)
    requires k in ValuesOf(c, w)
    ensures Written(c, w, todo - {k}) == Written(c, w, todo)[k := ValuesOf(c, w)[k]]
    ensures Written(c, w, {}) == ValuesOf(c, w)
  {
  }

  lemma LockResult(c: Config, s: State, w: nat)
    requires Enabled(c, s, Lock(w)) && ResultInv(c, s)
    ensures ResultInv(c, Apply(c, s, Lock(w)))
  {
    assert (s.merged + [w])[..|s.merged|] == s.merged;
    assert Written(c, w, ValuesOf(c, w).Keys) == map[];
    assert s.result + map[] == s.result;
  }

  lemma WriteResult(c: Config, s: State, w: nat, k: string)
    requires Enabled(c, s, Write(w, k)) && MutexInv(s) && ResultInv(c, s)
    ensures ResultInv(c, Apply(c, s, Write(w, k)))
  {
    assert s.lock == Some(w);
    WrittenOneMore(c, w, s.workers[w].todo, k);
    AddThenPut(MergeAll(c, s.merged[..|s.merged| - 1]), Written(c, w, s.workers[w].todo), k, ValuesOf(c, w)[k]);
  }

  lemma AddThenPut(a: map<string, string>, b: map<string, string>, k: string, v: string)
    ensures (a + b)[k := v] == a + b[k := v]
  {
  }

  lemma UnlockResult(c: Config, s: State, w: nat)
    requires Enabled(c, s, Unlock(w)) && MutexInv(s) && ResultInv(c, s)
    ensures ResultInv(c, Apply(c, s, Unlock(w)))
  {
    assert s.lock == Some(w);
    assert Written(c, w, {}) == ValuesOf(c, w);
  }

  lemma ResultStep(c: Config, s: State, t: Step)
    requires Enabled(c, s, t) && Shape(c, s) && MutexInv(s) && ResultInv(c, s)
    ensures ResultInv(c, Apply(c, s, t))
  {
    match t {
      case Lock(w) => LockResult(c, s, w);
      case Write(w, k) => WriteResult(c, s, w, k);
      case Unlock(w) => UnlockResult(c, s, w);
      case _ =>
        assert s.lock.Some? ==> Apply(c, s, t).workers[s.lock.value] == s.workers[s.lock.value];
    }
  }

  lemma StepInv(c: Config, s: State, t: Step)
    requires Inv(c, s) && Enabled(c, s, t)
    ensures Inv(c, Apply(c, s, t))
  {
    ShapeStep(c, s, t);
    CountersStep(c, s, t);
    DeliveredStep(c, s, t);
    ProcessedStep(c, s, t);
    TookMutexStep(c, s, t);
    MutexStep(c, s, t);
    ResultStep(c, s, t);
  }

  lemma {:induction false} RunInv(c: Config, run: seq<Step>)
    requires IsRun(c, run)
    ensures Inv(c, After(c, run))
  {
    if run == [] {
      InitInv(c);
    } else {
      RunInv(c, run[..|run| - 1]);
      StepInv(c, After(c, run[..|run| - 1]), run[|run| - 1]);
    }
  }

  // ---------------------------------------------------------------- every run has a fixed length

  function WorkLeft(c: Config, w: nat, x: Worker): nat {
    var writes := |ValuesOf(c, w)|;
    match x
    case Unborn => if w < |c.outcomes| && c.outcomes[w].Failed? then 5 else 6 + writes
    case Processing => if w < |c.outcomes| && c.outcomes[w].Failed? then 4 else 5 + writes
    case Sending => 3
    case Locking => 4 + writes
    case Merging(todo) => 3 + |todo|
    case Releasing => 2
    case Freed => 1
    case Finished => 0
  }

  function AllWorkLeft(c: Config, ws: seq<Worker>): nat {
    if ws == [] then 0 else AllWorkLeft(c, ws[..|ws| - 1]) + WorkLeft(c, |ws| - 1, ws[|ws| - 1])
  }

  function MainLeft(c: Config, m: Main): int {
    match m
    case Dispatching(next, BeforeAdd) => 2 * (|c.outcomes| - next) + 2
    case Dispatching(next, Added) => 2 * (|c.outcomes| - next) + 1
    case Dispatching(next, Acquired) => 2 * (|c.outcomes| - next)
    case Collecting => 1
    case Returned => 0
  }

  function WaiterLeft(w: Waiter): nat {
    match w case NotStarted => 2 case Waiting => 2 case Woken => 1 case Closed => 0
  }

  function StepsLeft(c: Config, s: State): int {
    MainLeft(c, s.main) + WaiterLeft(s.waiter) + AllWorkLeft(c, s.workers)
  }

  lemma {:induction false} ReplaceWork(c: Config, ws: seq<Worker>, w: nat, x: Worker)
    requires w < |ws|
    ensures AllWorkLeft(c, ws[w := x]) == AllWorkLeft(c, ws) - WorkLeft(c, w, ws[w]) + WorkLeft(c, w, x)
  {
    var last := |ws| - 1;
    if w < last {
      ReplaceWork(c, ws[..last], w, x);
      assert ws[w := x][..last] == ws[..last][w := x];
    } else {
      assert ws[w := x][..last] == ws[..last];
    }
  }

  lemma WorkerCost(c: Config, ws: seq<Worker>, w: nat, x: Worker)
    requires w < |ws| && WorkLeft(c, w, x) == WorkLeft(c, w, ws[w]) - 1
    ensures AllWorkLeft(c, ws[w := x]) == AllWorkLeft(c, ws) - 1
  {
    ReplaceWork(c, ws, w, x);
  }

  lemma LockCost(c: Config, ws: seq<Worker>, w: nat)
    requires w < |ws| && ws[w] == Locking
    ensures AllWorkLeft(c, ws[w := Merging(ValuesOf(c, w).Keys)]) == AllWorkLeft(c, ws) - 1
  {
    assert |ValuesOf(c, w).Keys| == |ValuesOf(c, w)|;
    WorkerCost(c, ws, w, Merging(ValuesOf(c, w).Keys));
  }

  lemma WriteCost(c: Config, ws: seq<Worker>, w: nat, k: string)
    requires w < |ws| && ws[w].Merging? && k in ws[w].todo
    ensures AllWorkLeft(c, ws[w := Merging(ws[w].todo - {k})]) == AllWorkLeft(c, ws) - 1
  {
    WorkerCost(c, ws, w, Merging(ws[w].todo - {k}));
  }

  /** Every step does exactly one unit of the work left. */
  lemma StepCost(c: Config, s: State, t: Step)
    requires Shape(c, s) && WaiterInv(s) && Enabled(c, s, t)
    ensures StepsLeft(c, Apply(c, s, t)) == StepsLeft(c, s) - 1
  {
    match t {
      case Spawn => WorkerCost(c, s.workers, s.main.next, Processing);
      case Process(w) => WorkerCost(c, s.workers, w, if c.outcomes[w].Failed? then Sending else Locking);
      case Lock(w) => LockCost(c, s.workers, w);
      case Write(w, k) => WriteCost(c, s.workers, w, k);
      case Unlock(w) => WorkerCost(c, s.workers, w, Releasing);
      case Deliver(w) => WorkerCost(c, s.workers, w, Releasing);
      case SemReceive(w) => WorkerCost(c, s.workers, w, Freed);
      case WgDone(w) => WorkerCost(c, s.workers, w, Finished);
      case _ =>
    }
  }

  /** No run is infinite: the steps taken and the steps left always add up to the same number. */
  lemma {:induction false} EveryRunIsBounded(c: Config, run: seq<Step>)
    requires IsRun(c, run)
    ensures |run| + StepsLeft(c, After(c, run)) == StepsLeft(c, Init(c))
    ensures StepsLeft(c, After(c, run)) >= 0
  {
    RunInv(c, run);
    if run != [] {
      var before := run[..|run| - 1];
      EveryRunIsBounded(c, before);
      RunInv(c, before);
      StepCost(c, After(c, before), run[|run| - 1]);
    }
  }

  // ---------------------------------------------------------------- safety

  /** At every point of every run. */
  lemma SafeThroughout(c: Config, run: seq<Step>)
    requires IsRun(c, run)
    ensures var s := After(c, run);
      && |Holders(s.workers)| <= c.maxWorkers
      && s.wg >= 0 && 0 <= s.semaphore <= c.maxWorkers
      && (forall v: nat, w: nat | v < |s.workers| && w < |s.workers| && s.workers[v].Merging? && s.workers[w].Merging? :: v == w)
      && (s.waiter == Closed ==> forall w: nat | w < |s.workers| :: s.workers[w].Finished?)
  {
    RunInv(c, run);
    var s := After(c, run);
    if s.waiter == Closed {
      NoLiveWorkers(c, s);
    }
  }

  lemma NoLiveWorkers(c: Config, s: State)
    requires Shape(c, s) && Counters(c, s) && !s.main.Dispatching? && s.wg == 0
    ensures forall w: nat | w < |s.workers| :: s.workers[w].Finished?
  {
    forall w: nat | w < |s.workers| ensures s.workers[w].Finished? {
      assert w !in LiveWorkers(s.workers);
    }
  }

  /** What a caller gets: nothing lost, nothing twice, and the map is a merge of whole chunk results in some order. */
  lemma SafeOnReturn(c: Config, run: seq<Step>)
    requires IsRun(c, run) && After(c, run).main == Returned
    ensures var s := After(c, run);
      && (forall w: nat | w < |s.workers| :: s.workers[w].Finished?)
      && Enumerates(s.errs, Failures(c, |c.outcomes|))
      && Enumerates(s.executed, AllChunks(c))
      && Enumerates(s.merged, Successes(c))
      && s.result == MergeAll(c, s.merged)
      && s.semaphore == 0
      && Quiescent(c, s)
  {
    RunInv(c, run);
    var s := After(c, run);
    NoLiveWorkers(c, s);
    AllFinished(c, s.workers);
    ReturnedIsQuiescent(c, s);
  }

  lemma ReturnedIsQuiescent(c: Config, s: State)
    requires s.main == Returned && s.waiter == Closed
    requires forall w: nat | w < |s.workers| :: s.workers[w].Finished?
    ensures Quiescent(c, s)
  {
  }

  lemma AllFinished(c: Config, ws: seq<Worker>)
    requires |ws| == |c.outcomes| && forall w: nat | w < |ws| :: ws[w].Finished?
    ensures Delivered(c, ws) == Failures(c, |c.outcomes|) && Processed(ws) == AllChunks(c)
    ensures TookMutex(c, ws) == Successes(c) && Holders(ws) == {}
  {
  }

  lemma {:induction false} MergeAllKeys(c: Config, order: seq<nat>)
    ensures forall k :: k in MergeAll(c, order) <==> exists w :: w in order && k in ValuesOf(c, w)
    ensures forall k | k in MergeAll(c, order) ::
      exists w :: w in order && k in ValuesOf(c, w) && MergeAll(c, order)[k] == ValuesOf(c, w)[k]
  {
    if order != [] {
      var before, last := order[..|order| - 1], order[|order| - 1];
      MergeAllKeys(c, before);
      assert order == before + [last];
    }
  }

  /** The result's keys are exactly those of the successful chunks, each value taken from one of them. */
  lemma ResultOnReturn(c: Config, run: seq<Step>)
    requires IsRun(c, run) && After(c, run).main == Returned
    ensures var r := After(c, run).result;
      && (forall k :: k in r <==> exists w :: w in Successes(c) && k in c.outcomes[w].values)
      && (forall k | k in r :: exists w :: w in Successes(c) && k in c.outcomes[w].values && r[k] == c.outcomes[w].values[k])
  {
    SafeOnReturn(c, run);
    var s := After(c, run);
    MergeAllKeys(c, s.merged);
    forall k | k in s.result
      ensures exists w :: w in Successes(c) && k in c.outcomes[w].values && s.result[k] == c.outcomes[w].values[k]
    {
      var w :| w in s.merged && k in ValuesOf(c, w) && s.result[k] == ValuesOf(c, w)[k];
      assert w in Successes(c) && k in c.outcomes[w].values;
    }
    forall k, w | w in Successes(c) && k in c.outcomes[w].values ensures k in s.result {
      assert w in s.merged && k in ValuesOf(c, w);
    }
  }
}
