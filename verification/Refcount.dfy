/** The saturating reference count (`refcount.cc`) as a step system: any number of threads run the two
    weak compare-and-swap loops, one atomic access at a time, in any order. */
module Refcount {

  const REFCOUNT_MAX := 0xffff_ffff

  type u32 = x: int | 0 <= x <= REFCOUNT_MAX

  /** The values a thread may carry into a compare-and-swap: the loops leave or abort on the others. */
  type IncExpected = x: int | 0 <= x < REFCOUNT_MAX
  type DecExpected = x: int | 0 < x < REFCOUNT_MAX witness 1

  datatype Pc =
    | Idle
    | IncLoad | IncTry(incExpected: IncExpected)
    | DecLoad | DecTry(decExpected: DecExpected)
    | Aborted

  /** A thread and the references it holds. A call to dec gives up one of them when it starts. */
  datatype Thread = Thread(pc: Pc, held: nat)

  /** `zeroReturns` counts the calls to dec that returned one. */
  datatype State = State(count: u32, threads: seq<Thread>, zeroReturns: nat)

  datatype Action =
    | StartInc(t: nat)
    | StartDec(t: nat)
    | Load(t: nat)
    | CompareExchange(t: nat, spuriousFailure: bool)
    | Give(t: nat, to: nat)

  /** Callers inc only while they hold a reference, and release only references they hold. */
  predicate Enabled(s: State, a: Action) {
    a.t < |s.threads| &&
    var th := s.threads[a.t];
    match a
    case StartInc(_) => th.pc.Idle? && th.held > 0
    case StartDec(_) => th.pc.Idle? && th.held > 0
    case Load(_) => th.pc.IncLoad? || th.pc.DecLoad?
    case CompareExchange(_, _) => th.pc.IncTry? || th.pc.DecTry?
    case Give(_, to) => th.pc.Idle? && th.held > 0 && to < |s.threads| && to != a.t
  }

  function SetThread(s: State, t: nat, th: Thread): State
    requires t < |s.threads|
  {
    s.(threads := s.threads[t := th])
  }

  /** The tests that follow a read of the count: leave the loop, abort, or try. */
  function AfterRead(s: State, t: nat, seen: u32): State
    requires t < |s.threads|
  {
    var th := s.threads[t];
    if th.pc.IncLoad? || th.pc.IncTry? then
      if seen == REFCOUNT_MAX then SetThread(s, t, Thread(Idle, th.held + 1))
      else SetThread(s, t, th.(pc := IncTry(seen)))
    else
      if seen == 0 then SetThread(s, t, th.(pc := Aborted))
      else if seen == REFCOUNT_MAX then SetThread(s, t, th.(pc := Idle))
      else SetThread(s, t, th.(pc := DecTry(seen)))
  }

  /** One atomic step. A weak compare-and-swap may fail even when the values agree; a failed one
      reloads the expected value. */
  function Step(s: State, a: Action): State
    requires Enabled(s, a)
  {
    var th := s.threads[a.t];
    match a
    case StartInc(t) => SetThread(s, t, th.(pc := IncLoad))
    case StartDec(t) => SetThread(s, t, Thread(DecLoad, th.held - 1))
    case Load(t) => AfterRead(s, t, s.count)
    case CompareExchange(t, spuriousFailure) =>
      if th.pc.IncTry? then
        if s.count != th.pc.incExpected || spuriousFailure then AfterRead(s, t, s.count)
        else SetThread(s.(count := th.pc.incExpected + 1), t, Thread(Idle, th.held + 1))
      else
        if s.count != th.pc.decExpected || spuriousFailure then AfterRead(s, t, s.count)
        else
          var newValue := th.pc.decExpected - 1;
          var returned := s.zeroReturns + (if newValue == 0 then 1 else 0);
          SetThread(s.(count := newValue, zeroReturns := returned), t, th.(pc := Idle))
    case Give(t, to) =>
      var given := SetThread(s, t, th.(held := th.held - 1));
      SetThread(given, to, given.threads[to].(held := given.threads[to].held + 1))
  }

  // ----- outstanding references

  /** The references a thread accounts for: those it holds, and the one a running dec gives up. */
  function Weight(th: Thread): nat {
    th.held + (if th.pc.DecLoad? || th.pc.DecTry? then 1 else 0)
  }

  function Outstanding(threads: seq<Thread>): nat {
    if threads == [] then 0 else Outstanding(threads[..|threads| - 1]) + Weight(threads[|threads| - 1])
  }

  lemma {:induction false} OutstandingUpdate(threads: seq<Thread>, t: nat, th: Thread)
    requires t < |threads|
    ensures Outstanding(threads[t := th]) == Outstanding(threads) - Weight(threads[t]) + Weight(th)
    ensures Weight(threads[t]) <= Outstanding(threads)
  {
    var last := |threads| - 1;
    if t == last {
      assert threads[t := th][..last] == threads[..last];
    } else {
      assert threads[t := th][..last] == threads[..last][t := th];
      OutstandingUpdate(threads[..last], t, th);
    }
  }

  // ----- runs

  ghost predicate Init(s: State) {
    && s.count == Outstanding(s.threads)
    && s.count > 0
    && s.zeroReturns == 0
    && forall t :: 0 <= t < |s.threads| ==> s.threads[t].pc.Idle?
  }

  predicate ThreadInv(th: Thread) {
    !th.pc.Aborted? && (th.pc.IncLoad? || th.pc.IncTry? ==> th.held > 0)
  }

  ghost predicate Inv(s: State) {
    && (s.count == REFCOUNT_MAX || s.count == Outstanding(s.threads))
    && s.zeroReturns == (if s.count == 0 then 1 else 0)
    && forall t :: 0 <= t < |s.threads| ==> ThreadInv(s.threads[t])
  }

  lemma StepKeepsInv(s: State, a: Action)
    requires Inv(s) && Enabled(s, a)
    ensures Inv(Step(s, a))
    ensures s.count == REFCOUNT_MAX ==> Step(s, a).count == REFCOUNT_MAX
    ensures Outstanding(Step(s, a).threads) < REFCOUNT_MAX && s.count < REFCOUNT_MAX ==> Step(s, a).count < REFCOUNT_MAX
  {
    if a.Give? {
      GiveKeepsInv(s, a);
    } else {
      OwnStep(s, a);
      OutstandingUpdate(s.threads, a.t, Step(s, a).threads[a.t]);
      assert ThreadInv(s.threads[a.t]);
    }
  }

  lemma GiveKeepsInv(s: State, a: Action)
    requires Inv(s) && Enabled(s, a) && a.Give?
    ensures Inv(Step(s, a)) && Step(s, a).count == s.count && Outstanding(Step(s, a).threads) == Outstanding(s.threads)
  {
    GiveMovesOne(s.threads, a.t, a.to);
  }

  lemma GiveMovesOne(threads: seq<Thread>, t: nat, to: nat)
    requires t < |threads| && to < |threads| && t != to && threads[t].pc.Idle? && threads[t].held > 0
    ensures var given := threads[t := threads[t].(held := threads[t].held - 1)];
      Outstanding(given[to := given[to].(held := given[to].held + 1)]) == Outstanding(threads)
  {
    var given := threads[t := threads[t].(held := threads[t].held - 1)];
    OutstandingUpdate(threads, t, given[t]);
    OutstandingUpdate(given, to, given[to].(held := given[to].held + 1));
  }

  /** A step of the two loops changes no thread but its own. */
  lemma OwnStep(s: State, a: Action)
    requires Enabled(s, a) && !a.Give?
    ensures Step(s, a).threads == s.threads[a.t := Step(s, a).threads[a.t]]
  {}

  ghost predicate ValidRun(s: State, run: seq<Action>)
    decreases |run|, 0
  {
    run == [] || (ValidRun(s, run[..|run| - 1]) && Enabled(Exec(s, run[..|run| - 1]), run[|run| - 1]))
  }

  ghost function Exec(s: State, run: seq<Action>): State
    requires ValidRun(s, run)
    decreases |run|, 1
  {
    if run == [] then s else Step(Exec(s, run[..|run| - 1]), run[|run| - 1])
  }

  /** In every interleaving, the count is the number of outstanding references or is saturated. */
  lemma {:induction false} CountIsOutstandingOrSaturated(s: State, run: seq<Action>)
    requires Init(s) && ValidRun(s, run)
    ensures Inv(Exec(s, run))
    ensures Exec(s, run).count == 4294967295 || Exec(s, run).count == Outstanding(Exec(s, run).threads)
  {
    if run != [] {
      CountIsOutstandingOrSaturated(s, run[..|run| - 1]);
      StepKeepsInv(Exec(s, run[..|run| - 1]), run[|run| - 1]);
    }
  }

  lemma {:induction false} PrefixOfRun(s: State, run: seq<Action>, k: nat)
    requires ValidRun(s, run) && k <= |run|
    ensures ValidRun(s, run[..k])
  {
    if k == |run| {
      assert run[..k] == run;
    } else {
      assert run[..|run| - 1][..k] == run[..k];
      PrefixOfRun(s, run[..|run| - 1], k);
    }
  }

  /** The state after the first `k` steps. */
  ghost function After(s: State, run: seq<Action>, k: nat): State
    requires ValidRun(s, run) && k <= |run|
  {
    PrefixOfRun(s, run, k);
    Exec(s, run[..k])
  }

  lemma AfterPrefix(s: State, run: seq<Action>, k: nat)
    requires ValidRun(s, run) && run != [] && k < |run|
    ensures After(s, run, k) == After(s, run[..|run| - 1], k)
  {
    assert run[..|run| - 1][..k] == run[..k];
  }

  lemma AfterAll(s: State, run: seq<Action>)
    requires ValidRun(s, run)
    ensures After(s, run, |run|) == Exec(s, run)
  {
    assert run[..|run|] == run;
  }

  /** Once saturated, the count never moves again. */
  lemma {:induction false} SaturationIsForever(s: State, run: seq<Action>, k: nat)
    requires Init(s) && ValidRun(s, run) && k <= |run| && After(s, run, k).count == REFCOUNT_MAX
    ensures Exec(s, run).count == REFCOUNT_MAX
  {
    if k == |run| {
      AfterAll(s, run);
    } else {
      var front := run[..|run| - 1];
      AfterPrefix(s, run, k);
      SaturationIsForever(s, front, k);
      CountIsOutstandingOrSaturated(s, front);
      StepKeepsInv(Exec(s, front), run[|run| - 1]);
    }
  }

  /** While fewer than the maximum are outstanding, the count is exact. */
  lemma {:induction false} ExactBelowTheLimit(s: State, run: seq<Action>)
    requires Init(s) && ValidRun(s, run)
    requires forall k :: 0 <= k <= |run| ==> Outstanding(After(s, run, k).threads) < REFCOUNT_MAX
    ensures Exec(s, run).count == Outstanding(Exec(s, run).threads)
  {
    AfterAll(s, run);
    if run != [] {
      var front := run[..|run| - 1];
      forall k | 0 <= k <= |front| ensures Outstanding(After(s, front, k).threads) < REFCOUNT_MAX {
        AfterPrefix(s, run, k);
      }
      ExactBelowTheLimit(s, front);
      AfterAll(s, front);
      CountIsOutstandingOrSaturated(s, front);
      StepKeepsInv(Exec(s, front), run[|run| - 1]);
    }
  }

  /** No interleaving reaches the abort. */
  lemma AbortIsUnreachable(s: State, run: seq<Action>, t: nat)
    requires Init(s) && ValidRun(s, run) && t < |s.threads|
    ensures |Exec(s, run).threads| == |s.threads| && !Exec(s, run).threads[t].pc.Aborted?
  {
    CountIsOutstandingOrSaturated(s, run);
    SameThreads(s, run);
    assert ThreadInv(Exec(s, run).threads[t]);
  }

  lemma {:induction false} SameThreads(s: State, run: seq<Action>)
    requires ValidRun(s, run)
    ensures |Exec(s, run).threads| == |s.threads|
  {
    if run != [] {
      SameThreads(s, run[..|run| - 1]);
    }
  }

  /** When a dec has returned one, no reference is left and no thread can touch the count again. */
  lemma ZeroMeansUnreferenced(s: State, run: seq<Action>, a: Action)
    requires Init(s) && ValidRun(s, run) && Exec(s, run).zeroReturns > 0
    ensures Exec(s, run).zeroReturns == 1 && Outstanding(Exec(s, run).threads) == 0 && !Enabled(Exec(s, run), a)
  {
    CountIsOutstandingOrSaturated(s, run);
    var u := Exec(s, run);
    if a.t < |u.threads| {
      OutstandingUpdate(u.threads, a.t, u.threads[a.t]);
      assert ThreadInv(u.threads[a.t]);
    }
  }

  /** When every reference has been released, exactly one dec has returned one, or none if the count
      ever saturated. */
  lemma ExactlyOneZero(s: State, run: seq<Action>)
    requires Init(s) && ValidRun(s, run) && Outstanding(Exec(s, run).threads) == 0
    ensures Exec(s, run).zeroReturns ==
            if exists k :: 0 <= k <= |run| && After(s, run, k).count == REFCOUNT_MAX then 0 else 1
  {
    CountIsOutstandingOrSaturated(s, run);
    AfterAll(s, run);
    if exists k :: 0 <= k <= |run| && After(s, run, k).count == REFCOUNT_MAX {
      var k :| 0 <= k <= |run| && After(s, run, k).count == REFCOUNT_MAX;
      SaturationIsForever(s, run, k);
    }
  }

  // ----- what the two calls do

  /** Which call a thread is in. */
  predicate InInc(th: Thread) {
    th.pc.IncLoad? || th.pc.IncTry?
  }

  predicate InDec(th: Thread) {
    th.pc.DecLoad? || th.pc.DecTry?
  }

  /** An inc that returns has gained its thread one reference, and the count one more unless it is
      saturated. Until then it changes nothing, and tries with the count it has just read. */
  lemma IncMeans(s: State, a: Action)
    requires Enabled(s, a) && InInc(s.threads[a.t])
    ensures var th, next, u := s.threads[a.t], Step(s, a).threads[a.t], Step(s, a);
      if next.pc.Idle? then
        && next.held == th.held + 1 && u.zeroReturns == s.zeroReturns
        && (if s.count == 4294967295 then u.count == 4294967295 else u.count == s.count + 1)
      else
        next == Thread(IncTry(s.count), th.held) && u.count == s.count < 4294967295 && u.zeroReturns == s.zeroReturns
  {}

  /** A dec that returns has kept a saturated count, or taken one from it, and has returned one exactly if
      that left zero. It aborts exactly if it reads zero. Until then it changes nothing, and tries with the
      count it has just read. The reference itself was given up when the call began. */
  lemma DecMeans(s: State, a: Action)
    requires Enabled(s, a) && InDec(s.threads[a.t])
    ensures var th, next, u := s.threads[a.t], Step(s, a).threads[a.t], Step(s, a);
      && next.held == th.held
      && (next.pc.Aborted? ==> s.count == 0)
      && if next.pc.Idle? then
           && u.count == (if s.count == 4294967295 then s.count else s.count - 1) && s.count > 0
           && u.zeroReturns == s.zeroReturns + (if u.count == 0 then 1 else 0)
         else
           && u.count == s.count && u.zeroReturns == s.zeroReturns
           && (s.count == 0 ==> next.pc.Aborted?)
           && (s.count > 0 ==> s.count < 4294967295 && next.pc == DecTry(s.count))
  {}

  /** Between calls nothing happens to the count, references move from thread to thread, and each call
      begins with a read. */
  lemma StartMeans(s: State, a: Action)
    requires Enabled(s, a) && s.threads[a.t].pc.Idle?
    ensures var th, next, u := s.threads[a.t], Step(s, a).threads[a.t], Step(s, a);
      && u.count == s.count && u.zeroReturns == s.zeroReturns && th.held > 0
      && (a.StartInc? ==> next == Thread(IncLoad, th.held))
      && (a.StartDec? ==> next == Thread(DecLoad, th.held - 1))
      && (a.Give? ==>
          next == Thread(Idle, th.held - 1) && u.threads[a.to] == s.threads[a.to].(held := s.threads[a.to].held + 1))
  {}
}
