/**
 The two bounded-retry schemes: the loop of retry.Do used for every Neptune request, and the recursion of the Neo4j
 writers through checkAttempts. Times are in nanoseconds in 64-bit integers.
 */
module Retry {
  import opened Options

  datatype Result = Done(value: string) | Failed(error: string)

  datatype RetryError =
    | Cancelled
    | FromDoer(error: string)
    | AttemptsExceeded(last: Option<string>)

  datatype Answer = Success(value: string) | Error(error: RetryError)

  /** What one attempt meets: whether the context is found cancelled before it or while it sleeps, its jitter, its result. */
  datatype Attempt = Attempt(cancelledBefore: bool, cancelledAsleep: bool, jitter: int, result: Result)

  const MILLISECOND: int := 1_000_000

  function Pow2(n: nat): nat { if n == 0 then 1 else 2 * Pow2(n - 1) }

  function Wrap64(n: int): int { (n + 0x8000_0000_0000_0000) % 0x1_0000_0000_0000_0000 - 0x8000_0000_0000_0000 }

  /** The sleep asked for before an attempt, in 64-bit arithmetic; the jitter is 1 to 4 milliseconds. */
  function GetSleepTime(attempt: nat, retryTime: int, jitter: int): int {
    Wrap64(Wrap64(Pow2(attempt) * retryTime) - jitter * MILLISECOND)
  }

  // ---------------------------------------------------------------- the loop

  /** Whether the attempt with this number calls the doer. */
  predicate Reaches(a: Attempt, number: nat) { !a.cancelledBefore && (number > 1 ==> !a.cancelledAsleep) }

  /** What the attempts from `attempt` on come to, after so many calls and sleeps, when the last error is `last`. */
  function Outcome(
      script: seq<Attempt>, wantRetry: string -> bool, maxAttempts: int, retryTime: int,
      attempt: int, last: Option<string>, calls: nat, slept: seq<int>)
      : (Answer, nat, seq<int>)
    requires maxAttempts <= |script| && attempt >= 1
    decreases maxAttempts - attempt
  {
    if attempt > maxAttempts then (Error(AttemptsExceeded(last)), calls, slept)
    else
      var a := script[attempt - 1];
      if a.cancelledBefore then (Error(Cancelled), calls, slept)
      else
        var slept' := if attempt > 1 then slept + [GetSleepTime(attempt, retryTime, a.jitter)] else slept;
        if attempt > 1 && a.cancelledAsleep then (Error(Cancelled), calls, slept')
        else match a.result
             case Done(v) => (Success(v), calls + 1, slept')
             case Failed(e) =>
               if !wantRetry(e) then (Error(FromDoer(e)), calls + 1, slept')
               else Outcome(script, wantRetry, maxAttempts, retryTime, attempt + 1, Some(e), calls + 1, slept')
  }

  /**
   The loop. `script` says what each attempt would meet. `calls` counts calls of the doer and `slept` lists the sleeps
   asked for.
   */
  method Do(script: seq<Attempt>, wantRetry: string -> bool, maxAttempts: int, retryTime: int)
      returns (answer: Answer, calls: nat, slept: seq<int>)
    requires maxAttempts <= |script|
    ensures (answer, calls, slept) == Outcome(script, wantRetry, maxAttempts, retryTime, 1, None, 0, [])
  {
    calls, slept := 0, [];
    var err: Option<string> := None;
    var attempt := 1;
    while attempt <= maxAttempts
      invariant 1 <= attempt
      invariant Outcome(script, wantRetry, maxAttempts, retryTime, attempt, err, calls, slept)
                == Outcome(script, wantRetry, maxAttempts, retryTime, 1, None, 0, [])
    {
      var a := script[attempt - 1];
      if a.cancelledBefore {
        return Error(Cancelled), calls, slept;
      }
      if attempt > 1 {
        slept := slept + [GetSleepTime(attempt, retryTime, a.jitter)];
        if a.cancelledAsleep {
          return Error(Cancelled), calls, slept;
        }
      }
      calls := calls + 1;
      match a.result {
        case Done(v) => return Success(v), calls, slept;
        case Failed(e) =>
          if !wantRetry(e) {
            return Error(FromDoer(e)), calls, slept;
          }
          err := Some(e);
      }
      attempt := attempt + 1;
    }
    return Error(AttemptsExceeded(err)), calls, slept;
  }

  // ---------------------------------------------------------------- how often, and with what answer

  /** The loop goes on after this attempt. */
  predicate GoesOn(a: Attempt, number: nat, wantRetry: string -> bool) {
    Reaches(a, number) && a.result.Failed? && wantRetry(a.result.error)
  }

  /** The first attempt from `attempt` on after which the loop does not go on, or one more than the maximum. */
  ghost function StopsAt(script: seq<Attempt>, wantRetry: string -> bool, maxAttempts: int, attempt: int): (k: int)
    requires maxAttempts <= |script| && attempt >= 1
    ensures attempt <= maxAttempts ==> attempt <= k <= maxAttempts + 1
    ensures attempt > maxAttempts ==> k == attempt
    ensures forall i | attempt - 1 <= i < k - 1 :: GoesOn(script[i], i + 1, wantRetry)
    ensures k <= maxAttempts ==> !GoesOn(script[k - 1], k, wantRetry)
    decreases maxAttempts - attempt
  {
    if attempt > maxAttempts || !GoesOn(script[attempt - 1], attempt, wantRetry) then attempt
    else StopsAt(script, wantRetry, maxAttempts, attempt + 1)
  }

  /** The sleeps asked for before attempts `first` to `final`. */
  ghost function Sleeps(script: seq<Attempt>, retryTime: int, first: int, final: int): seq<int>
    requires 1 <= first && (final < first || final <= |script|)
    decreases final - first
  {
    if first > final then []
    else (if first > 1 then [GetSleepTime(first, retryTime, script[first - 1].jitter)] else [])
         + Sleeps(script, retryTime, first + 1, final)
  }

  lemma {:induction false} OutcomeFrom(
      script: seq<Attempt>, wantRetry: string -> bool, maxAttempts: int, retryTime: int,
      attempt: int, last: Option<string>, before: nat, slept: seq<int>)
    requires maxAttempts <= |script| && 1 <= attempt
    ensures var (answer, calls, sleeps) := Outcome(script, wantRetry, maxAttempts, retryTime, attempt, last, before, slept);
      var k := StopsAt(script, wantRetry, maxAttempts, attempt);
      if k > maxAttempts then
        && calls == before + k - attempt && sleeps == slept + Sleeps(script, retryTime, attempt, k - 1)
        && answer == Error(AttemptsExceeded(if k == attempt then last else Some(script[k - 2].result.error)))
      else
        var a := script[k - 1];
        && calls == before + k - attempt + (if Reaches(a, k) then 1 else 0)
        && sleeps == slept + Sleeps(script, retryTime, attempt, if a.cancelledBefore then k - 1 else k)
        && answer == if !Reaches(a, k) then Error(Cancelled)
                     else match a.result case Done(v) => Success(v) case Failed(e) => Error(FromDoer(e))
    decreases maxAttempts - attempt
  {
    if attempt <= maxAttempts {
      var a := script[attempt - 1];
      var mine := if attempt > 1 then [GetSleepTime(attempt, retryTime, a.jitter)] else [];
      var k := StopsAt(script, wantRetry, maxAttempts, attempt);
      if GoesOn(a, attempt, wantRetry) {
        OutcomeFrom(script, wantRetry, maxAttempts, retryTime, attempt + 1, Some(a.result.error), before + 1, slept + mine);
        assert slept + [] == slept;
        var until := if k > maxAttempts || script[k - 1].cancelledBefore then k - 1 else k;
        assert Sleeps(script, retryTime, attempt, until) == mine + Sleeps(script, retryTime, attempt + 1, until);
        Associative(slept, mine, Sleeps(script, retryTime, attempt + 1, until));
      } else {
        assert Sleeps(script, retryTime, attempt, attempt) == mine + [];
        assert mine + [] == mine && slept + [] == slept;
      }
    }
  }

  lemma Associative(a: seq<int>, b: seq<int>, c: seq<int>)
    ensures (a + b) + c == a + (b + c)
  {
  }

  ghost predicate NeverCancelled(script: seq<Attempt>) {
    forall i | 0 <= i < |script| :: !script[i].cancelledBefore && !script[i].cancelledAsleep
  }

  /**
   Without cancellation the doer is called exactly up to the first success, the first error that is not wanted back or
   the maximum, and its last answer decides what is returned.
   */
  lemma CallsUpToFirstStop(script: seq<Attempt>, wantRetry: string -> bool, maxAttempts: int, retryTime: int)
    requires maxAttempts <= |script| && NeverCancelled(script)
    ensures var (answer, calls, slept) := Outcome(script, wantRetry, maxAttempts, retryTime, 1, None, 0, []);
      && calls <= (if maxAttempts > 0 then maxAttempts else 0)
      && (forall i | 0 <= i < calls - 1 :: script[i].result.Failed? && wantRetry(script[i].result.error))
      && (calls == 0 <==> maxAttempts <= 0)
      && (calls == 0 ==> answer == Error(AttemptsExceeded(None)))
      && (calls > 0 ==>
            answer == match script[calls - 1].result
                      case Done(v) => Success(v)
                      case Failed(e) => Error(if wantRetry(e) then AttemptsExceeded(Some(e)) else FromDoer(e)))
      && (calls > 0 && script[calls - 1].result.Failed? && wantRetry(script[calls - 1].result.error) ==> calls == maxAttempts)
      && slept == Sleeps(script, retryTime, 1, calls)
  {
    OutcomeFrom(script, wantRetry, maxAttempts, retryTime, 1, None, 0, []);
    var k := StopsAt(script, wantRetry, maxAttempts, 1);
    assert forall i | 0 <= i < k - 1 :: GoesOn(script[i], i + 1, wantRetry);
    assert forall s: seq<int> :: [] + s == s;
  }

  // ---------------------------------------------------------------- how long

  ghost function Sum(times: seq<int>): int { if times == [] then 0 else times[0] + Sum(times[1..]) }

  predicate JitterOk(a: Attempt) { 1 <= a.jitter <= 4 }

  lemma WrapIs(n: int)
    ensures -0x8000_0000_0000_0000 <= Wrap64(n) < 0x8000_0000_0000_0000
    ensures (n - Wrap64(n)) % 0x1_0000_0000_0000_0000 == 0
  {
  }

  /** In any case it differs from the intended one, in nanoseconds, by a multiple of 2^64. */
  lemma SleepIsCongruent(attempt: nat, retryTime: int, jitter: int)
    ensures -0x8000_0000_0000_0000 <= GetSleepTime(attempt, retryTime, jitter) < 0x8000_0000_0000_0000
    ensures (Pow2(attempt) * retryTime - jitter * 1_000_000 - GetSleepTime(attempt, retryTime, jitter))
            % 0x1_0000_0000_0000_0000 == 0
  {
    var p := Pow2(attempt) * retryTime;
    WrapIs(p);
    WrapIs(Wrap64(p) - jitter * MILLISECOND);
  }

  /** The sleep is the intended one if and only if it fits into 64 bits. */
  lemma SleepIsExactIff(attempt: nat, retryTime: nat, jitter: int)
    requires 1 <= jitter <= 4
    ensures GetSleepTime(attempt, retryTime, jitter) == Pow2(attempt) * retryTime - jitter * 1_000_000
            <==> Pow2(attempt) * retryTime - jitter * 1_000_000 < 0x8000_0000_0000_0000
  {
    var p := Pow2(attempt) * retryTime;
    assert p >= 0;
    SleepWraps(p, jitter);
  }

  lemma SleepWraps(p: nat, jitter: int)
    requires 1 <= jitter <= 4
    ensures Wrap64(Wrap64(p) - jitter * MILLISECOND) == p - jitter * MILLISECOND
            <==> p - jitter * MILLISECOND < 0x8000_0000_0000_0000
  {
  }

  ghost function Doubled(t: nat, n: nat): nat { if n == 0 then t else 2 * Doubled(t, n - 1) }

  lemma {:induction false} DoubledIs(t: nat, n: nat)
    ensures Doubled(t, n) == Pow2(n) * t
  {
    if n > 0 {
      DoubledIs(t, n - 1);
      assert 2 * Pow2(n - 1) * t == 2 * (Pow2(n - 1) * t);
    }
  }

  lemma {:induction false} DoubledGrows(t: nat, m: nat, n: nat)
    requires m <= n
    ensures Doubled(t, m) <= Doubled(t, n)
  {
    if m < n {
      DoubledGrows(t, m, n - 1);
    }
  }

  lemma SleepIs(attempt: nat, retryTime: nat, jitter: int)
    requires 1 <= jitter <= 4 && Doubled(retryTime, attempt) < 0x8000_0000_0000_0000
    ensures GetSleepTime(attempt, retryTime, jitter) == Doubled(retryTime, attempt) - jitter * MILLISECOND
  {
    DoubledIs(retryTime, attempt);
    SleepIsExactIff(attempt, retryTime, jitter);
  }

  /** The sleeps before attempts `first` to `final`: a geometric sum less the jitters. */
  lemma {:induction false} SleepBounds(script: seq<Attempt>, retryTime: nat, first: nat, final: nat)
    requires 2 <= first <= final + 1 && final <= |script| && (forall i | 0 <= i < |script| :: JitterOk(script[i]))
    requires Doubled(retryTime, final) < 0x8000_0000_0000_0000
    ensures Doubled(retryTime, final + 1) - Doubled(retryTime, first) - 4 * (final - first + 1) * MILLISECOND
            <= Sum(Sleeps(script, retryTime, first, final))
            <= Doubled(retryTime, final + 1) - Doubled(retryTime, first) - (final - first + 1) * MILLISECOND
    decreases final - first
  {
    if first <= final {
      SleepBounds(script, retryTime, first + 1, final);
      DoubledGrows(retryTime, first, final);
      var j := script[first - 1].jitter;
      SleepIs(first, retryTime, j);
      var head := GetSleepTime(first, retryTime, j);
      var rest := Sleeps(script, retryTime, first + 1, final);
      assert Sleeps(script, retryTime, first, final) == [head] + rest;
      assert Sum([head] + rest) == head + Sum(rest) by {
        assert ([head] + rest)[1..] == rest;
      }
    }
  }

  lemma FourTimes(t: nat, p: int)
    ensures Doubled(t, 2) == 4 * t && (p - 4) * t == p * t - 4 * t
  {
    assert Doubled(t, 2) == 2 * Doubled(t, 1) && Doubled(t, 1) == 2 * Doubled(t, 0);
  }

  /** The total sleep of a run of `k` calls doubles with every call, less 1 to 4 milliseconds per sleep. */
  lemma TotalSleep(script: seq<Attempt>, wantRetry: string -> bool, maxAttempts: int, retryTime: nat)
    requires maxAttempts <= |script| && NeverCancelled(script) && (forall i | 0 <= i < |script| :: JitterOk(script[i]))
    requires Pow2(Outcome(script, wantRetry, maxAttempts, retryTime, 1, None, 0, []).1) * retryTime < 0x8000_0000_0000_0000
    ensures var (answer, k, slept) := Outcome(script, wantRetry, maxAttempts, retryTime, 1, None, 0, []);
      k >= 1 ==>
        (Pow2(k + 1) - 4) * retryTime - 4 * (k - 1) * 1_000_000
        <= Sum(slept)
        <= (Pow2(k + 1) - 4) * retryTime - (k - 1) * 1_000_000
  {
    CallsUpToFirstStop(script, wantRetry, maxAttempts, retryTime);
    var (answer, k, slept) := Outcome(script, wantRetry, maxAttempts, retryTime, 1, None, 0, []);
    if k >= 1 {
      DoubledIs(retryTime, k);
      DoubledIs(retryTime, k + 1);
      SleepBounds(script, retryTime, 2, k);
      FourTimes(retryTime, Pow2(k + 1));
      assert Sleeps(script, retryTime, 1, k) == Sleeps(script, retryTime, 2, k);
    }
  }

  // ---------------------------------------------------------------- the recursion

  datatype ExecResult = Applied | Transient(error: string) | Permanent(error: string)

  datatype WriteError = NonRetriable(error: string) | ExceededLimit(error: string)

  /** The recursion of a Neo4j writer from the given attempt; `script` says how each execution ends. */
  function WriteOutcome(script: seq<ExecResult>, attempt: nat, maxRetries: int): (Option<WriteError>, nat)
    requires |script| > 0 && |script| >= maxRetries - attempt + 1
    decreases maxRetries - attempt
  {
    match script[0]
    case Applied => (None, 1)
    case Permanent(e) => (Some(NonRetriable(e)), 1)
    case Transient(e) =>
      if attempt >= maxRetries then (Some(ExceededLimit(e)), 1)
      else
        var (err, calls) := WriteOutcome(script[1..], attempt + 1, maxRetries);
        (err, calls + 1)
  }

  class Neo4jStore<G(!new)> {
    var graph: G

    constructor (graph: G)
      ensures this.graph == graph
    {
      this.graph := graph;
    }

    /** One of the writers: every execution either applies the statement or fails and leaves the graph alone. */
    method Write(statement: G -> G, script: seq<ExecResult>, attempt: nat, maxRetries: int)
        returns (err: Option<WriteError>, calls: nat)
      requires |script| > 0 && |script| >= maxRetries - attempt + 1
      modifies this
      ensures (err, calls) == WriteOutcome(script, attempt, maxRetries)
      ensures graph == if err == None then statement(old(graph)) else old(graph)
      decreases maxRetries - attempt
    {
      match script[0] {
        case Applied =>
          graph := statement(graph);
          return None, 1;
        case Permanent(e) =>
          return Some(NonRetriable(e)), 1;
        case Transient(e) =>
          if attempt >= maxRetries {
            return Some(ExceededLimit(e)), 1;
          }
          err, calls := Write(statement, script[1..], attempt + 1, maxRetries);
          calls := calls + 1;
      }
    }
  }

  /**
   A writer started at attempt `a` executes its statement at most max(1, maxRetries - a + 1) times: until the first
   execution that does not fail transiently, and all of those times when there is none.
   */
  lemma {:induction false} WritesAtMost(script: seq<ExecResult>, attempt: nat, maxRetries: int)
    requires |script| > 0 && |script| >= maxRetries - attempt + 1
    ensures var (err, calls) := WriteOutcome(script, attempt, maxRetries);
      var most := if maxRetries - attempt + 1 > 1 then maxRetries - attempt + 1 else 1;
      && 1 <= calls <= most
      && (forall i | 0 <= i < calls - 1 :: script[i].Transient?)
      && (err == None <==> script[calls - 1].Applied?)
      && (script[calls - 1].Permanent? ==> err == Some(NonRetriable(script[calls - 1].error)))
      && (script[calls - 1].Transient? ==> calls == most && err == Some(ExceededLimit(script[calls - 1].error)))
    decreases maxRetries - attempt
  {
    if script[0].Transient? && attempt < maxRetries {
      WritesAtMost(script[1..], attempt + 1, maxRetries);
      var calls := WriteOutcome(script, attempt, maxRetries).1;
      assert forall i | 1 <= i < calls :: script[i] == script[1..][i - 1];
    }
  }
}
