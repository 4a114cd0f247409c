/** Thread-local values and their destructors (`thread_pthread.cc`) as a step system: any number of
    threads set values, exit, and share one table of destructors behind a mutex. Memory, the mutex and
    the pthread key may fail at every call of `CRYPTO_set_thread_local`. */
module ThreadLocal {
  import opened Options

  const NUM_THREAD_LOCALS := 5

  type Destructor = nat

  /** A pointer; `None` is null. */
  type Pointer = Option<nat>

  /** How far a call of set has come: entered, pointer array at hand, mutex held, destructor recorded,
      mutex released. */
  datatype Stage = Begun | Ready | Locked | Written | Released

  datatype Pc =
    | Idle
    | Setting(stage: Stage, index: nat, value: Pointer)
    | ExitBegun
    | ExitLocked
    | ExitCopied(copy: seq<Option<Destructor>>)
    | ExitRunning(copy: seq<Option<Destructor>>, next: nat)
    | Exited
    | Leaked

  /** A thread: its pointer array once allocated, the destructor calls it has made, and every non-null
      value handed to it together with its destructor. */
  datatype Thread = Thread(pc: Pc, pointers: Option<seq<Pointer>>, calls: seq<(Destructor, Pointer)>,
                           given: multiset<(Destructor, nat)>)

  /** `expected` is the destructor callers use for each index; `table` is what has been recorded. */
  datatype State = State(
    expected: seq<Destructor>, keyCreated: bool, table: seq<Option<Destructor>>, lock: Option<nat>,
    threads: seq<Thread>)

  datatype Action =
    | StartSet(t: nat, index: nat, value: Pointer)
    | Prepare(t: nat, memory: bool)
    | LockForSet(t: nat, ok: bool)
    | WriteTable(t: nat)
    | UnlockAfterSet(t: nat)
    | StorePointer(t: nat)
    | StartExit(t: nat)
    | LockForExit(t: nat, ok: bool)
    | CopyTable(t: nat)
    | UnlockAfterCopy(t: nat)
    | RunDestructor(t: nat)
    | FreePointers(t: nat)

  predicate Enabled(s: State, a: Action) {
    a.t < |s.threads| &&
    var th := s.threads[a.t];
    match a
    // a thread sets an index only while no live value is stored there
    case StartSet(_, index, _) => th.pc.Idle? && index < NUM_THREAD_LOCALS && Slot(th, index).None?
    case Prepare(_, _) => At(th, Begun)
    case LockForSet(_, ok) => At(th, Ready) && (ok ==> s.lock.None?)
    case WriteTable(_) => At(th, Locked)
    case UnlockAfterSet(_) => At(th, Written)
    case StorePointer(_) => At(th, Released)
    case StartExit(_) => th.pc.Idle?
    case LockForExit(_, ok) => th.pc.ExitBegun? && (ok ==> s.lock.None?)
    case CopyTable(_) => th.pc.ExitLocked?
    case UnlockAfterCopy(_) => th.pc.ExitCopied?
    case RunDestructor(_) => th.pc.ExitRunning? && th.pc.next < NUM_THREAD_LOCALS
    case FreePointers(_) => th.pc.ExitRunning? && th.pc.next >= NUM_THREAD_LOCALS
  }

  predicate At(th: Thread, stage: Stage) {
    th.pc.Setting? && th.pc.stage == stage
  }

  /** The value a thread has stored at an index. */
  function Slot(th: Thread, index: nat): Pointer {
    if th.pointers.Some? && index < |th.pointers.value| then th.pointers.value[index] else None
  }

  function Pair(d: Destructor, p: Pointer): multiset<(Destructor, nat)> {
    if p.None? then multiset{} else multiset{(d, p.value)}
  }

  const EMPTY_POINTERS: seq<Pointer> := [None, None, None, None, None]

  predicate Valid(s: State) {
    |s.expected| == |s.table| == NUM_THREAD_LOCALS
  }

  /** Indices and array lengths the program relies on. */
  predicate Shape(th: Thread) {
    && (th.pointers.Some? ==> |th.pointers.value| == NUM_THREAD_LOCALS)
    && (th.pc.Setting? ==> th.pc.index < NUM_THREAD_LOCALS && (th.pc.stage != Begun ==> th.pointers.Some?))
    && (th.pc.ExitBegun? || th.pc.ExitLocked? || th.pc.ExitCopied? || th.pc.ExitRunning? || th.pc.Leaked? ==>
        th.pointers.Some?)
    && (th.pc.ExitCopied? || th.pc.ExitRunning? ==> |th.pc.copy| == NUM_THREAD_LOCALS)
    && (th.pc.ExitRunning? ==> th.pc.next <= NUM_THREAD_LOCALS)
    && (th.pc.Exited? ==> th.pointers.None?)
  }

  function StartSetting(th: Thread, expected: seq<Destructor>, index: nat, value: Pointer): Thread
    requires index < |expected|
  {
    th.(pc := Setting(Begun, index, value), given := th.given + Pair(expected[index], value))
  }

  /** A failing set destroys the value on the spot and returns zero. */
  function Fail(th: Thread, expected: seq<Destructor>): Thread
    requires th.pc.Setting? && th.pc.index < |expected|
  {
    th.(pc := Idle, calls := th.calls + [(expected[th.pc.index], th.pc.value)])
  }

  /** The key and the pointer array, allocated on a thread's first set. */
  function PrepareArray(th: Thread, expected: seq<Destructor>, keyCreated: bool, memory: bool): Thread
    requires th.pc.Setting? && th.pc.index < |expected|
  {
    if !keyCreated then Fail(th, expected)
    else if th.pointers.Some? then th.(pc := th.pc.(stage := Ready))
    else if !memory then Fail(th, expected)
    else th.(pc := th.pc.(stage := Ready), pointers := Some(EMPTY_POINTERS))
  }

  function Store(th: Thread): Thread
    requires th.pc.Setting? && th.pointers.Some? && th.pc.index < |th.pointers.value|
  {
    th.(pc := Idle, pointers := Some(th.pointers.value[th.pc.index := th.pc.value]))
  }

  /** Calls the destructor recorded for the next index, null values included. */
  function RunNext(th: Thread): Thread
    requires th.pc.ExitRunning? && th.pc.next < |th.pc.copy| && th.pointers.Some? && th.pc.next < |th.pointers.value|
  {
    var d := th.pc.copy[th.pc.next];
    var calls := if d.Some? then th.calls + [(d.value, th.pointers.value[th.pc.next])] else th.calls;
    th.(pc := ExitRunning(th.pc.copy, th.pc.next + 1), calls := calls)
  }

  /** What a step does to its own thread. */
  function ThreadStep(s: State, a: Action): Thread
    requires Valid(s) && Enabled(s, a) && Shape(s.threads[a.t])
  {
    var th := s.threads[a.t];
    match a
    case StartSet(_, index, value) => StartSetting(th, s.expected, index, value)
    case Prepare(_, memory) => PrepareArray(th, s.expected, s.keyCreated, memory)
    case LockForSet(_, ok) => if ok then th.(pc := th.pc.(stage := Locked)) else Fail(th, s.expected)
    case WriteTable(_) => th.(pc := th.pc.(stage := Written))
    case UnlockAfterSet(_) => th.(pc := th.pc.(stage := Released))
    case StorePointer(_) => Store(th)
    case StartExit(_) => th.(pc := if th.pointers.None? then Exited else ExitBegun)
    case LockForExit(_, ok) => th.(pc := if ok then ExitLocked else Leaked)
    case CopyTable(_) => th.(pc := ExitCopied(s.table))
    case UnlockAfterCopy(_) => th.(pc := ExitRunning(th.pc.copy, 0))
    case RunDestructor(_) => RunNext(th)
    case FreePointers(_) => th.(pc := Exited, pointers := None)
  }

  function TableStep(s: State, a: Action): seq<Option<Destructor>>
    requires Valid(s) && Enabled(s, a) && Shape(s.threads[a.t])
  {
    var pc := s.threads[a.t].pc;
    if a.WriteTable? then s.table[pc.index := Some(s.expected[pc.index])] else s.table
  }

  function LockStep(s: State, a: Action): Option<nat> {
    if (a.LockForSet? || a.LockForExit?) && a.ok then Some(a.t)
    else if a.UnlockAfterSet? || a.UnlockAfterCopy? then None
    else s.lock
  }

  function Step(s: State, a: Action): State
    requires Valid(s) && Enabled(s, a) && Shape(s.threads[a.t])
  {
    s.(table := TableStep(s, a), lock := LockStep(s, a), threads := s.threads[a.t := ThreadStep(s, a)])
  }

  // ----- the books of one thread

  /** The non-null values destroyed by a list of calls. */
  function Destroyed(calls: seq<(Destructor, Pointer)>): multiset<(Destructor, nat)> {
    if calls == [] then multiset{}
    else Destroyed(calls[..|calls| - 1]) + Pair(calls[|calls| - 1].0, calls[|calls| - 1].1)
  }

  lemma DestroyedOneMore(calls: seq<(Destructor, Pointer)>, d: Destructor, p: Pointer)
    ensures Destroyed(calls + [(d, p)]) == Destroyed(calls) + Pair(d, p)
  {
    assert (calls + [(d, p)])[..|calls|] == calls;
  }

  /** The non-null values stored from an index on. */
  function Stored(pointers: seq<Pointer>, expected: seq<Destructor>, from: nat): multiset<(Destructor, nat)>
    requires |pointers| == |expected|
    decreases |pointers| - from
  {
    if from >= |pointers| then multiset{}
    else Pair(expected[from], pointers[from]) + Stored(pointers, expected, from + 1)
  }

  lemma {:induction false} StoredUpdate(pointers: seq<Pointer>, expected: seq<Destructor>, from: nat, index: nat,
                                        value: Pointer)
    requires |pointers| == |expected| && index < |pointers| && pointers[index].None?
    ensures Stored(pointers[index := value], expected, from) ==
      Stored(pointers, expected, from) + (if from <= index then Pair(expected[index], value) else multiset{})
    decreases |pointers| - from
  {
    if from < |pointers| {
      StoredUpdate(pointers, expected, from + 1, index, value);
      var updated := pointers[index := value];
      NothingMore(Stored(pointers, expected, from + 1));
      PairsUpdate(Pair(expected[from], pointers[from]), Pair(expected[from], updated[from]),
                  Stored(pointers, expected, from + 1), Stored(updated, expected, from + 1),
                  Pair(expected[index], value), from == index, from < index);
    }
  }

  lemma NothingMore(a: multiset<(Destructor, nat)>)
    ensures a + multiset{} == a
  {}

  lemma PairsUpdate(a: multiset<(Destructor, nat)>, b: multiset<(Destructor, nat)>, s: multiset<(Destructor, nat)>,
                    t: multiset<(Destructor, nat)>, given: multiset<(Destructor, nat)>, here: bool, later: bool)
    requires if here then a == multiset{} && b == given && t == s && !later
             else b == a && t == (if later then s + given else s)
    ensures b + t == (a + s) + (if here || later then given else multiset{})
  {}

  lemma {:induction false} StoredEmpty(pointers: seq<Pointer>, expected: seq<Destructor>, from: nat)
    requires |pointers| == |expected| && forall i :: 0 <= i < |pointers| ==> pointers[i].None?
    ensures Stored(pointers, expected, from) == multiset{}
    decreases |pointers| - from
  {
    if from < |pointers| {
      StoredEmpty(pointers, expected, from + 1);
    }
  }

  /** The value a set call has taken and neither stored nor destroyed. */
  function InFlight(th: Thread, expected: seq<Destructor>): multiset<(Destructor, nat)>
    requires |expected| == NUM_THREAD_LOCALS && Shape(th)
  {
    if th.pc.Setting? then Pair(expected[th.pc.index], th.pc.value) else multiset{}
  }

  /** The values still to be destroyed at exit. */
  function Kept(th: Thread, expected: seq<Destructor>): multiset<(Destructor, nat)>
    requires |expected| == NUM_THREAD_LOCALS && Shape(th)
  {
    if th.pointers.None? then multiset{}
    else Stored(th.pointers.value, expected, if th.pc.ExitRunning? then th.pc.next else 0)
  }

  /** Every value handed to a thread is destroyed, stored or in flight, and is so once. */
  ghost predicate Balanced(th: Thread, expected: seq<Destructor>)
    requires |expected| == NUM_THREAD_LOCALS && Shape(th)
  {
    th.given == Destroyed(th.calls) + Kept(th, expected) + InFlight(th, expected)
  }

  /** A stored value has its destructor in the table. */
  ghost predicate Covered(th: Thread, expected: seq<Destructor>, table: seq<Option<Destructor>>)
    requires |expected| == |table| == NUM_THREAD_LOCALS
  {
    forall i :: 0 <= i < NUM_THREAD_LOCALS && Slot(th, i).Some? ==> table[i] == Some(expected[i])
  }

  ghost predicate TableOk(expected: seq<Destructor>, table: seq<Option<Destructor>>)
    requires |expected| == |table| == NUM_THREAD_LOCALS
  {
    forall i :: 0 <= i < NUM_THREAD_LOCALS && table[i].Some? ==> table[i] == Some(expected[i])
  }

  /** The slot of a running set is empty, and recorded before the value is stored; a copy made at exit
      covers the stored values. */
  ghost predicate ThreadInv(th: Thread, expected: seq<Destructor>, table: seq<Option<Destructor>>)
    requires |expected| == |table| == NUM_THREAD_LOCALS
  {
    && Shape(th)
    && Balanced(th, expected)
    && Covered(th, expected, table)
    && (th.pc.Setting? ==> Slot(th, th.pc.index).None?)
    && (At(th, Written) || At(th, Released) ==> table[th.pc.index] == Some(expected[th.pc.index]))
    && (th.pc.ExitCopied? || th.pc.ExitRunning? ==> TableOk(expected, th.pc.copy) && Covered(th, expected, th.pc.copy))
  }

  predicate HoldsLock(pc: Pc) {
    (pc.Setting? && (pc.stage == Locked || pc.stage == Written)) || pc.ExitLocked? || pc.ExitCopied?
  }

  ghost predicate ThreadsInv(threads: seq<Thread>, expected: seq<Destructor>, table: seq<Option<Destructor>>)
    requires |expected| == |table| == NUM_THREAD_LOCALS
  {
    forall t :: 0 <= t < |threads| ==> ThreadInv(threads[t], expected, table)
  }

  ghost predicate LocksInv(threads: seq<Thread>, lock: Option<nat>) {
    forall t :: 0 <= t < |threads| ==> (HoldsLock(threads[t].pc) <==> lock == Some(t))
  }

  ghost predicate Inv(s: State) {
    && Valid(s)
    && TableOk(s.expected, s.table)
    && ThreadsInv(s.threads, s.expected, s.table)
    && LocksInv(s.threads, s.lock)
  }

  // ----- every step keeps it

  lemma StartSettingKeeps(th: Thread, e: seq<Destructor>, table: seq<Option<Destructor>>, index: nat, value: Pointer)
    requires |e| == |table| == NUM_THREAD_LOCALS && ThreadInv(th, e, table)
    requires th.pc.Idle? && index < NUM_THREAD_LOCALS && Slot(th, index).None?
    ensures ThreadInv(StartSetting(th, e, index, value), e, table)
  {
    assert Covered(StartSetting(th, e, index, value), e, table) by {
      assert forall i: nat :: Slot(StartSetting(th, e, index, value), i) == Slot(th, i);
    }
  }

  lemma FailKeeps(th: Thread, e: seq<Destructor>, table: seq<Option<Destructor>>)
    requires |e| == |table| == NUM_THREAD_LOCALS && ThreadInv(th, e, table) && th.pc.Setting?
    ensures ThreadInv(Fail(th, e), e, table)
  {
    DestroyedOneMore(th.calls, e[th.pc.index], th.pc.value);
    assert forall i: nat :: Slot(Fail(th, e), i) == Slot(th, i);
  }

  lemma FirstArrayKeeps(th: Thread, e: seq<Destructor>, table: seq<Option<Destructor>>)
    requires |e| == |table| == NUM_THREAD_LOCALS && ThreadInv(th, e, table) && At(th, Begun) && th.pointers.None?
    ensures ThreadInv(th.(pc := th.pc.(stage := Ready), pointers := Some(EMPTY_POINTERS)), e, table)
  {
    StoredEmpty(EMPTY_POINTERS, e, 0);
    assert forall i: nat :: Slot(th.(pc := th.pc.(stage := Ready), pointers := Some(EMPTY_POINTERS)), i).None?;
  }

  lemma NextStageKeeps(th: Thread, e: seq<Destructor>, table: seq<Option<Destructor>>, stage: Stage)
    requires |e| == |table| == NUM_THREAD_LOCALS && ThreadInv(th, e, table) && th.pc.Setting? && th.pointers.Some?
    requires stage == Written || stage == Released ==> table[th.pc.index] == Some(e[th.pc.index])
    ensures ThreadInv(th.(pc := th.pc.(stage := stage)), e, table)
  {
    assert forall i: nat :: Slot(th.(pc := th.pc.(stage := stage)), i) == Slot(th, i);
  }

  lemma StoreKeeps(th: Thread, e: seq<Destructor>, table: seq<Option<Destructor>>)
    requires |e| == |table| == NUM_THREAD_LOCALS && ThreadInv(th, e, table) && At(th, Released)
    ensures ThreadInv(Store(th), e, table)
  {
    var i := th.pc.index;
    StoreKeepsBooks(th, e);
    forall j | 0 <= j < NUM_THREAD_LOCALS && Slot(Store(th), j).Some? ensures table[j] == Some(e[j]) {
      if j != i { assert Slot(Store(th), j) == Slot(th, j); }
    }
  }

  lemma StoreKeepsBooks(th: Thread, e: seq<Destructor>)
    requires |e| == NUM_THREAD_LOCALS && Shape(th) && Balanced(th, e) && At(th, Released) && Slot(th, th.pc.index).None?
    ensures Shape(Store(th)) && Balanced(Store(th), e)
  {
    var p, i, v := th.pointers.value, th.pc.index, th.pc.value;
    assert Slot(th, i) == p[i];
    StoredUpdate(p, e, 0, i, v);
    assert Kept(Store(th), e) == Kept(th, e) + InFlight(th, e);
  }

  /** Steps of an exit before the first destructor runs. */
  lemma ExitStepKeeps(th: Thread, e: seq<Destructor>, table: seq<Option<Destructor>>, pc: Pc)
    requires |e| == |table| == NUM_THREAD_LOCALS && ThreadInv(th, e, table) && !th.pc.Setting? && !th.pc.ExitRunning?
      && th.pointers.Some?
    requires pc.ExitBegun? || pc.ExitLocked? || pc.Leaked? || pc.ExitCopied? || (pc.ExitRunning? && pc.next == 0)
    requires pc.ExitCopied? || pc.ExitRunning? ==>
      |pc.copy| == NUM_THREAD_LOCALS && TableOk(e, pc.copy) && Covered(th, e, pc.copy)
    ensures ThreadInv(th.(pc := pc), e, table)
  {
    assert forall i: nat :: Slot(th.(pc := pc), i) == Slot(th, i);
  }

  lemma RunNextKeeps(th: Thread, e: seq<Destructor>, table: seq<Option<Destructor>>)
    requires |e| == |table| == NUM_THREAD_LOCALS && ThreadInv(th, e, table) && th.pc.ExitRunning?
      && th.pc.next < NUM_THREAD_LOCALS
    ensures ThreadInv(RunNext(th), e, table)
  {
    var d := th.pc.copy[th.pc.next];
    assert Slot(th, th.pc.next) == th.pointers.value[th.pc.next];
    if d.Some? { DestroyedOneMore(th.calls, d.value, th.pointers.value[th.pc.next]); }
    assert forall i: nat :: Slot(RunNext(th), i) == Slot(th, i);
  }

  lemma FreeKeeps(th: Thread, e: seq<Destructor>, table: seq<Option<Destructor>>)
    requires |e| == |table| == NUM_THREAD_LOCALS && ThreadInv(th, e, table)
    requires (th.pc.ExitRunning? && th.pc.next >= NUM_THREAD_LOCALS) || (th.pc.Idle? && th.pointers.None?)
    ensures ThreadInv(th.(pc := Exited, pointers := None), e, table)
  {
    assert forall i: nat :: Slot(th.(pc := Exited, pointers := None), i).None?;
  }

  /** Recording a destructor takes nothing away from any thread. */
  lemma TableGrows(th: Thread, e: seq<Destructor>, table: seq<Option<Destructor>>, index: nat)
    requires |e| == |table| == NUM_THREAD_LOCALS && index < NUM_THREAD_LOCALS && ThreadInv(th, e, table)
    ensures ThreadInv(th, e, table[index := Some(e[index])])
  {}

  lemma OwnThreadStep(s: State, a: Action)
    requires Inv(s) && Enabled(s, a)
    ensures ThreadInv(ThreadStep(s, a), s.expected, TableStep(s, a))
  {
    var th, e, table := s.threads[a.t], s.expected, s.table;
    assert ThreadInv(th, e, table);
    match a
    case StartSet(_, index, value) => StartSettingKeeps(th, e, table, index, value);
    case Prepare(_, memory) =>
      if !s.keyCreated || (th.pointers.None? && !memory) { FailKeeps(th, e, table); }
      else if th.pointers.Some? { NextStageKeeps(th, e, table, Ready); }
      else { FirstArrayKeeps(th, e, table); }
    case LockForSet(_, ok) => if ok { NextStageKeeps(th, e, table, Locked); } else { FailKeeps(th, e, table); }
    case WriteTable(_) =>
      TableGrows(th, e, table, th.pc.index);
      NextStageKeeps(th, e, TableStep(s, a), Written);
    case UnlockAfterSet(_) => NextStageKeeps(th, e, table, Released);
    case StorePointer(_) => StoreKeeps(th, e, table);
    case StartExit(_) =>
      if th.pointers.None? { FreeKeeps(th, e, table); } else { ExitStepKeeps(th, e, table, ExitBegun); }
    case LockForExit(_, ok) => ExitStepKeeps(th, e, table, if ok then ExitLocked else Leaked);
    case CopyTable(_) => ExitStepKeeps(th, e, table, ExitCopied(table));
    case UnlockAfterCopy(_) => ExitStepKeeps(th, e, table, ExitRunning(th.pc.copy, 0));
    case RunDestructor(_) => RunNextKeeps(th, e, table);
    case FreePointers(_) => FreeKeeps(th, e, table);
  }

  /** A step takes, keeps or gives back the mutex as its own program counter says. */
  lemma OwnLock(s: State, a: Action)
    requires Valid(s) && Enabled(s, a) && Shape(s.threads[a.t])
    ensures HoldsLock(ThreadStep(s, a).pc) <==>
            (HoldsLock(s.threads[a.t].pc) && !a.UnlockAfterSet? && !a.UnlockAfterCopy?)
                || ((a.LockForSet? || a.LockForExit?) && a.ok)
    ensures a.UnlockAfterSet? || a.UnlockAfterCopy? ==> HoldsLock(s.threads[a.t].pc)
    ensures (a.LockForSet? || a.LockForExit?) && a.ok ==> s.lock.None?
    ensures a.LockForSet? || a.LockForExit? ==> !HoldsLock(s.threads[a.t].pc)
  {}

  lemma LocksStep(s: State, a: Action, t: nat)
    requires Valid(s) && Enabled(s, a) && Shape(s.threads[a.t]) && t < |s.threads|
    requires HoldsLock(s.threads[a.t].pc) <==> s.lock == Some(a.t)
    requires HoldsLock(s.threads[t].pc) <==> s.lock == Some(t)
    ensures HoldsLock(if t == a.t then ThreadStep(s, a).pc else s.threads[t].pc) <==> LockStep(s, a) == Some(t)
  {
    OwnLock(s, a);
  }

  lemma LocksInvStep(s: State, a: Action)
    requires Valid(s) && Enabled(s, a) && Shape(s.threads[a.t]) && LocksInv(s.threads, s.lock)
    ensures LocksInv(s.threads[a.t := ThreadStep(s, a)], LockStep(s, a))
  {
    forall t | 0 <= t < |s.threads|
      ensures HoldsLock(s.threads[a.t := ThreadStep(s, a)][t].pc) <==> LockStep(s, a) == Some(t)
    {
      LocksStep(s, a, t);
    }
  }

  lemma ThreadsInvStep(threads: seq<Thread>, e: seq<Destructor>, table: seq<Option<Destructor>>, t: nat, th: Thread,
                       more: seq<Option<Destructor>>)
    requires |e| == |table| == NUM_THREAD_LOCALS && ThreadsInv(threads, e, table) && t < |threads|
    requires more == table || exists i: nat :: i < NUM_THREAD_LOCALS && more == table[i := Some(e[i])]
    requires |more| == NUM_THREAD_LOCALS && ThreadInv(th, e, more)
    ensures ThreadsInv(threads[t := th], e, more)
  {
    forall k | 0 <= k < |threads| && k != t ensures ThreadInv(threads[k], e, more) {
      if more != table {
        var i: nat :| i < NUM_THREAD_LOCALS && more == table[i := Some(e[i])];
        TableGrows(threads[k], e, table, i);
      }
    }
  }

  lemma StepKeepsInv(s: State, a: Action)
    requires Inv(s) && Enabled(s, a)
    ensures Shape(s.threads[a.t])
    ensures Inv(Step(s, a)) && Step(s, a).expected == s.expected && |Step(s, a).threads| == |s.threads|
  {
    assert ThreadInv(s.threads[a.t], s.expected, s.table);
    OwnThreadStep(s, a);
    LocksInvStep(s, a);
    ThreadsInvStep(s.threads, s.expected, s.table, a.t, ThreadStep(s, a), TableStep(s, a));
  }

  // ----- runs

  ghost predicate Init(s: State) {
    && Valid(s)
    && s.lock.None?
    && (forall i :: 0 <= i < NUM_THREAD_LOCALS ==> s.table[i].None?)
    && forall t :: 0 <= t < |s.threads| ==> s.threads[t] == Thread(Idle, None, [], multiset{})
  }

  ghost predicate Reaches(s: State, run: seq<Action>, u: State)
    decreases |run|
  {
    if run == [] then s == u
    else Valid(s) && Enabled(s, run[0]) && Shape(s.threads[run[0].t]) && Reaches(Step(s, run[0]), run[1..], u)
  }

  lemma {:induction false} RunKeepsInv(s: State, run: seq<Action>, u: State)
    requires Inv(s) && Reaches(s, run, u)
    ensures Inv(u) && u.expected == s.expected && |u.threads| == |s.threads|
    decreases |run|
  {
    if run != [] {
      StepKeepsInv(s, run[0]);
      RunKeepsInv(Step(s, run[0]), run[1..], u);
    }
  }

  lemma InitInv(s: State)
    requires Init(s)
    ensures Inv(s)
  {}

  lemma ReachedThread(s: State, run: seq<Action>, u: State, t: nat)
    requires Init(s) && Reaches(s, run, u) && t < |u.threads|
    ensures Valid(u) && ThreadInv(u.threads[t], u.expected, u.table) && LocksInv(u.threads, u.lock)
  {
    InitInv(s);
    RunKeepsInv(s, run, u);
  }

  /** In every interleaving, a thread that has exited has destroyed each value it was given exactly
      once, with the destructor it came with. */
  lemma ExitDestroysEverythingOnce(s: State, run: seq<Action>, u: State, t: nat)
    requires Init(s) && Reaches(s, run, u) && t < |u.threads| && u.threads[t].pc.Exited?
    ensures Destroyed(u.threads[t].calls) == u.threads[t].given
  {
    ReachedThread(s, run, u, t);
  }

  /** Between calls, what a thread was given is what failed sets destroyed and what is still stored. */
  lemma LiveThreadKeepsTheRest(s: State, run: seq<Action>, u: State, t: nat)
    requires Init(s) && Reaches(s, run, u) && t < |u.threads| && (u.threads[t].pc.Idle? || u.threads[t].pc.Leaked?)
    ensures u.threads[t].pointers.Some? ==> |u.threads[t].pointers.value| == |u.expected|
    ensures u.threads[t].given == Destroyed(u.threads[t].calls)
         + (if u.threads[t].pointers.None? then multiset{} else Stored(u.threads[t].pointers.value, u.expected, 0))
  {
    ReachedThread(s, run, u, t);
  }

  /** The mutex keeps a copy of the table apart from every update of it. */
  lemma CopyExcludesWrite(s: State, run: seq<Action>, u: State, t: nat, w: nat)
    requires Init(s) && Reaches(s, run, u) && Enabled(u, CopyTable(t)) && t != w
    ensures !Enabled(u, WriteTable(w)) && !Enabled(u, CopyTable(w))
  {
    ReachedThread(s, run, u, t);
    assert HoldsLock(u.threads[t].pc) <==> u.lock == Some(t);
    if w < |u.threads| { assert HoldsLock(u.threads[w].pc) <==> u.lock == Some(w); }
  }

  // ----- what was handed over, and what the exit calls

  /** The non-null values that thread `t` hands over in a run, each with the destructor of its index. */
  function Handed(run: seq<Action>, t: nat, expected: seq<Destructor>): multiset<(Destructor, nat)> {
    if run == [] then multiset{}
    else
      (if run[0].StartSet? && run[0].t == t && run[0].index < |expected| then Pair(expected[run[0].index], run[0].value)
       else multiset{}) + Handed(run[1..], t, expected)
  }

  lemma {:induction false} GivenIsHanded(s: State, run: seq<Action>, u: State, t: nat)
    requires Inv(s) && Reaches(s, run, u) && t < |s.threads|
    ensures t < |u.threads| && u.threads[t].given == s.threads[t].given + Handed(run, t, s.expected)
    decreases |run|
  {
    if run != [] {
      StepKeepsInv(s, run[0]);
      GivenIsHanded(Step(s, run[0]), run[1..], u, t);
      GivenStep(s, run[0], t);
      HandedFirst(run, t, s.expected);
      PairsAssociate(s.threads[t].given, Handed([run[0]], t, s.expected), Handed(run[1..], t, s.expected));
    }
  }

  lemma HandedFirst(run: seq<Action>, t: nat, expected: seq<Destructor>)
    requires run != []
    ensures Handed(run, t, expected) == Handed([run[0]], t, expected) + Handed(run[1..], t, expected)
  {
    assert [run[0]][1..] == [];
  }

  lemma GivenStep(s: State, a: Action, t: nat)
    requires Valid(s) && Enabled(s, a) && Shape(s.threads[a.t]) && t < |s.threads|
    ensures Step(s, a).threads[t].given == s.threads[t].given + Handed([a], t, s.expected)
  {
    assert [a][1..] == [];
  }

  lemma PairsAssociate(a: multiset<(Destructor, nat)>, b: multiset<(Destructor, nat)>, c: multiset<(Destructor, nat)>)
    ensures (a + b) + c == a + (b + c) && b + multiset{} == b
  {}

  /** In every interleaving, a thread that has exited has destroyed exactly what it handed over in its set
      calls, each value once and with the destructor of its index. */
  lemma ExitDestroysWhatWasHanded(s: State, run: seq<Action>, u: State, t: nat)
    requires Init(s) && Reaches(s, run, u) && t < |u.threads| && u.threads[t].pc.Exited?
    ensures Destroyed(u.threads[t].calls) == Handed(run, t, s.expected)
  {
    InitInv(s);
    RunKeepsInv(s, run, u);
    ExitDestroysEverythingOnce(s, run, u, t);
    GivenIsHanded(s, run, u, t);
    PairsAssociate(multiset{}, Handed(run, t, s.expected), multiset{});
  }

  /** The calls for indices from `from` up to `to`: one for each recorded destructor, null values included. */
  function ExitCalls(copy: seq<Option<Destructor>>, pointers: seq<Pointer>, from: nat, to: nat): seq<(Destructor,
      Pointer)>
    requires from <= to <= |copy| && to <= |pointers|
    decreases |copy| - from
  {
    if from == to then []
    else
      (if copy[from].Some? then [(copy[from].value, pointers[from])] else []) + ExitCalls(copy, pointers, from + 1, to)
  }

  /** From one state of an exiting thread to a later one: the copied destructors between have been called
      in the order of their indices, on the values stored. */
  ghost predicate ExitProgress(before: Thread, now: Thread) {
    && before.pc.ExitRunning? && now.pc.ExitRunning? && before.pointers.Some?
    && now.pc.copy == before.pc.copy && now.pointers == before.pointers
    && before.pc.next <= now.pc.next <= NUM_THREAD_LOCALS
    && |before.pc.copy| == |before.pointers.value| == NUM_THREAD_LOCALS
    && now.calls == before.calls + ExitCalls(before.pc.copy, before.pointers.value, before.pc.next, now.pc.next)
  }

  /** While a thread exits, whatever the others do, it calls the destructors in order. */
  lemma {:induction false} ExitCallsInOrder(s: State, run: seq<Action>, u: State, t: nat)
    requires Inv(s) && Reaches(s, run, u) && t < |s.threads| && s.threads[t].pc.ExitRunning? && Shape(s.threads[t])
    requires t < |u.threads| && u.threads[t].pc.ExitRunning?
    ensures ExitProgress(s.threads[t], u.threads[t])
    decreases |run|
  {
    if run == [] {
      NoProgress(s.threads[t]);
    } else {
      StepKeepsInv(s, run[0]);
      var next := Step(s, run[0]);
      ExitStep(s, run[0], t);
      if next.threads[t].pc.Exited? {
        ExitedStays(next, run[1..], u, t);
      } else {
        assert ThreadInv(next.threads[t], next.expected, next.table);
        ExitCallsInOrder(next, run[1..], u, t);
        if next.threads[t] != s.threads[t] { OneExitCall(s.threads[t], u.threads[t]); }
      }
    }
  }

  lemma NoProgress(th: Thread)
    requires Shape(th) && th.pc.ExitRunning?
    ensures ExitProgress(th, th)
  {
    assert th.calls + [] == th.calls;
  }

  lemma ExitStep(s: State, a: Action, t: nat)
    requires Valid(s) && Enabled(s, a) && Shape(s.threads[a.t]) && t < |s.threads| && s.threads[t].pc.ExitRunning?
    ensures var next := Step(s, a).threads[t];
      || next.pc.Exited? || next == s.threads[t]
      || (s.threads[t].pc.next < NUM_THREAD_LOCALS && Shape(s.threads[t]) && next == RunNext(s.threads[t]))
  {}

  lemma OneExitCall(th: Thread, now: Thread)
    requires Shape(th) && th.pc.ExitRunning? && th.pc.next < NUM_THREAD_LOCALS && ExitProgress(RunNext(th), now)
    ensures ExitProgress(th, now)
  {}

  lemma {:induction false} ExitedStays(s: State, run: seq<Action>, u: State, t: nat)
    requires Inv(s) && Reaches(s, run, u) && t < |s.threads| && s.threads[t].pc.Exited?
    ensures t < |u.threads| && u.threads[t].pc.Exited?
    decreases |run|
  {
    if run != [] {
      StepKeepsInv(s, run[0]);
      ExitedStays(Step(s, run[0]), run[1..], u, t);
    }
  }

  // ----- one call of set, from its start to its return

  /** From `s`, where thread `t` is in a call, the run leads to `u`, where it has just returned. The other
      threads may do anything in between. */
  ghost predicate Completes(s: State, run: seq<Action>, t: nat, u: State)
    decreases |run|
  {
    && run != [] && t < |s.threads|
    && Valid(s) && Enabled(s, run[0]) && Shape(s.threads[run[0].t])
    && var next := Step(s, run[0]);
       if next.threads[t].pc.Setting? then Completes(next, run[1..], t, u) else run[1..] == [] && u == next
  }

  ghost predicate SameSlots(before: Thread, after: Thread) {
    forall i: nat :: Slot(after, i) == Slot(before, i)
  }

  /** Stored, and nothing destroyed; or destroyed, and nothing stored. */
  ghost predicate SetOutcome(before: Thread, after: Thread, index: nat, value: Pointer, d: Destructor) {
    || (after.calls == before.calls && forall i: nat :: Slot(after, i) == if i == index then value else Slot(before, i))
    || (after.calls == before.calls + [(d, value)] && SameSlots(before, after))
  }

  /** A step of the call either goes on, with slots and destructor calls as they were, or ends it. */
  ghost predicate SetGoesOn(before: Thread, after: Thread, expected: seq<Destructor>)
    requires before.pc.Setting? && before.pc.index < |expected|
  {
    if after.pc.Setting? then
      && SameSlots(before, after) && after.calls == before.calls
      && after.pc.index == before.pc.index && after.pc.value == before.pc.value
    else
      after.pc.Idle? && SetOutcome(before, after, before.pc.index, before.pc.value, expected[before.pc.index])
  }

  lemma StoreEnds(th: Thread, e: seq<Destructor>)
    requires th.pc.Setting? && th.pc.index < |e| && th.pointers.Some? && th.pc.index < |th.pointers.value|
    ensures SetGoesOn(th, Store(th), e)
  {
    assert forall i: nat :: Slot(Store(th), i) == if i == th.pc.index then th.pc.value else Slot(th, i);
  }

  lemma FailEnds(th: Thread, e: seq<Destructor>)
    requires th.pc.Setting? && th.pc.index < |e|
    ensures SetGoesOn(th, Fail(th, e), e)
  {
    assert SameSlots(th, Fail(th, e));
  }

  lemma StageGoesOn(th: Thread, e: seq<Destructor>, stage: Stage)
    requires th.pc.Setting? && th.pc.index < |e|
    ensures SetGoesOn(th, th.(pc := th.pc.(stage := stage)), e)
    ensures th.pointers.None? ==> SetGoesOn(th, th.(pc := th.pc.(stage := stage), pointers := Some(EMPTY_POINTERS)), e)
  {
    assert SameSlots(th, th.(pc := th.pc.(stage := stage)));
    assert th.pointers.None? ==> SameSlots(th, th.(pc := th.pc.(stage := stage), pointers := Some(EMPTY_POINTERS)));
  }

  lemma SetStep(s: State, a: Action)
    requires Valid(s) && Enabled(s, a) && Shape(s.threads[a.t]) && s.threads[a.t].pc.Setting?
    ensures SetGoesOn(s.threads[a.t], ThreadStep(s, a), s.expected)
  {
    var th, e := s.threads[a.t], s.expected;
    match a
    case Prepare(_, memory) =>
      if !s.keyCreated || (th.pointers.None? && !memory) { FailEnds(th, e); } else { StageGoesOn(th, e, Ready); }
    case LockForSet(_, ok) => if ok { StageGoesOn(th, e, Locked); } else { FailEnds(th, e); }
    case WriteTable(_) => StageGoesOn(th, e, Written);
    case UnlockAfterSet(_) => StageGoesOn(th, e, Released);
    case StorePointer(_) => StoreEnds(th, e);
    case _ =>
  }

  /** A call of set fails exactly when the key could not be created, when the array is missing and there is
      no memory for it, or when the mutex cannot be taken. */
  lemma SetFailsExactly(s: State, a: Action)
    requires Valid(s) && Enabled(s, a) && Shape(s.threads[a.t]) && s.threads[a.t].pc.Setting?
    ensures var th, next := s.threads[a.t], ThreadStep(s, a);
      next.pc.Idle? && !a.StorePointer? <==>
        || (a.Prepare? && !s.keyCreated)
        || (a.Prepare? && th.pointers == None && !a.memory)
        || (a.LockForSet? && !a.ok)
  {}

  lemma {:induction false} CallInProgress(s: State, run: seq<Action>, t: nat, u: State)
    requires Inv(s) && t < |s.threads| && s.threads[t].pc.Setting? && Completes(s, run, t, u)
    ensures t < |u.threads| && u.threads[t].pc.Idle? && s.threads[t].pc.index < |s.expected|
    ensures SetOutcome(s.threads[t], u.threads[t], s.threads[t].pc.index, s.threads[t].pc.value,
                       s.expected[s.threads[t].pc.index])
    decreases |run|
  {
    var a := run[0];
    assert ThreadInv(s.threads[t], s.expected, s.table);
    StepKeepsInv(s, a);
    if a.t == t { SetStep(s, a); }
    var next := Step(s, a);
    if next.threads[t].pc.Setting? {
      CallInProgress(next, run[1..], t, u);
    }
  }

  /** In every interleaving, a call of set ends in one of two ways: the value is stored at its index, and
      no destructor has been called; or its destructor has been called, once, and every slot is as it was
      when the call started. */
  lemma SetStoresOrDestroys(s: State, t: nat, index: nat, value: Pointer, run: seq<Action>, u: State)
    requires Inv(s) && Enabled(s, StartSet(t, index, value))
    requires Shape(s.threads[t]) && Completes(Step(s, StartSet(t, index, value)), run, t, u)
    ensures t < |u.threads| && u.threads[t].pc.Idle? && index < |s.expected|
    ensures SetOutcome(s.threads[t], u.threads[t], index, value, s.expected[index])
  {
    var a := StartSet(t, index, value);
    StepKeepsInv(s, a);
    CallInProgress(Step(s, a), run, t, u);
    assert SameSlots(s.threads[t], Step(s, a).threads[t]);
  }
}
