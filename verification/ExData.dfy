/** Registration of ex_data indices (`ex_data.cc`) as a step system. Registrars append to a linked list
    under a lock; readers walk the list without it, up to the count they loaded. */
module ExData {
  import opened Options

  const INT_MAX := 0x7fff_ffff

  /** A list entry. `next` is a plain pointer cell: reading it while it is written would be a race. */
  datatype Node = Node(hasFree: bool, next: Option<nat>)

  datatype Cell = Head | NextOf(node: nat)

  /** What the owner of the lock has done so far, with its local copy of the count. */
  datatype Stage = Locked | Loaded(n: nat) | Overflowed | Linked(n: nat) | Appended(n: nat) | Stored(n: nat)

  datatype Lock = Free | Held(owner: nat, node: nat, stage: Stage)

  /** A reader has visited `i` entries of the `n` it loaded at step `loadedAt`; `cell` is the pointer
      cell it holds the address of, `calls` the free functions it called, by entry and index. */
  datatype Pc =
    | Idle
    | Allocated(node: nat)
    | Registering
    | Walking(n: nat, i: nat, cell: Cell, calls: seq<(nat, int)>, loadedAt: nat)
    | Visited(n: nat, i: nat, cell: Cell, calls: seq<(nat, int)>, loadedAt: nat)
    | Crashed

  /** The shared memory, the threads, and a history: the entries in list order, the step at which each
      one was linked and counted, and the indices returned. */
  datatype State = State(
    reserved: nat, heap: seq<Node>, funcs: Option<nat>, last: Option<nat>, numFuncs: nat, lock: Lock, threads: seq<Pc>,
    chain: seq<nat>, linkedAt: seq<nat>, countedAt: seq<nat>, returned: seq<int>, clock: nat)

  datatype Action =
    | Allocate(t: nat, hasFree: bool)
    | Acquire(t: nat)
    | LoadCount(t: nat)
    | CheckAndLink(t: nat)
    | SetLast(t: nat)
    | StoreCount(t: nat)
    | Release(t: nat)
    | StartWalk(t: nat)
    | Visit(t: nat)
    | Advance(t: nat)
    | FinishWalk(t: nat)

  predicate Owns(s: State, t: nat) {
    s.lock.Held? && s.lock.owner == t
  }

  predicate Enabled(s: State, a: Action) {
    a.t < |s.threads| &&
    var pc := s.threads[a.t];
    match a
    case Allocate(_, _) => pc.Idle?
    case Acquire(_) => pc.Allocated? && s.lock.Free?
    case LoadCount(t) => Owns(s, t) && s.lock.stage.Locked?
    case CheckAndLink(t) => Owns(s, t) && s.lock.stage.Loaded?
    case SetLast(t) => Owns(s, t) && s.lock.stage.Linked?
    case StoreCount(t) => Owns(s, t) && s.lock.stage.Appended?
    case Release(t) => Owns(s, t) && (s.lock.stage.Stored? || s.lock.stage.Overflowed?)
    case StartWalk(_) => pc.Idle?
    case Visit(_) => pc.Walking? && pc.i < pc.n
    case Advance(_) => pc.Visited?
    case FinishWalk(_) => pc.Walking? && pc.i == pc.n
  }

  /** The contents of a pointer cell; a dangling address reads as null. */
  function Read(heap: seq<Node>, funcs: Option<nat>, c: Cell): Option<nat> {
    match c
    case Head => funcs
    case NextOf(node) => if node < |heap| then heap[node].next else None
  }

  function SetPc(s: State, t: nat, pc: Pc): State
    requires t < |s.threads|
  {
    s.(threads := s.threads[t := pc], clock := s.clock + 1)
  }

  function SetStage(s: State, stage: Stage): State
    requires s.lock.Held?
  {
    s.(lock := s.lock.(stage := stage), clock := s.clock + 1)
  }

  /** The cell the owner is about to write when it links its entry. */
  function WriteTarget(s: State): Option<Cell> {
    if s.lock.Held? && s.lock.stage.Loaded? && !(s.lock.stage.n > INT_MAX - s.reserved)
    then Some(if s.last.None? then Head else NextOf(s.last.value))
    else None
  }

  /** The cell a reader is about to read. */
  function ReadTarget(s: State, t: nat): Option<Cell>
    requires t < |s.threads|
  {
    var pc := s.threads[t];
    if (pc.Walking? && pc.i < pc.n) || pc.Visited? then Some(pc.cell) else None
  }

  function Link(s: State): State
    requires s.lock.Held? && s.lock.stage.Loaded? && (s.last.Some? ==> s.last.value < |s.heap|)
  {
    var node := s.lock.node;
    var t := s.(chain := s.chain + [node], linkedAt := s.linkedAt + [s.clock]);
    var u := if s.last.None? then t.(funcs := Some(node))
             else t.(heap := s.heap[s.last.value := s.heap[s.last.value].(next := Some(node))]);
    SetStage(u, Linked(s.lock.stage.n))
  }

  function Step(s: State, a: Action): State
    requires Enabled(s, a)
    requires s.last.Some? ==> s.last.value < |s.heap|
  {
    var pc := s.threads[a.t];
    match a
    case Allocate(t, hasFree) => SetPc(s.(heap := s.heap + [Node(hasFree, None)]), t, Allocated(|s.heap|))
    case Acquire(t) => SetPc(s.(lock := Held(t, pc.node, Locked)), t, Registering)
    case LoadCount(_) => SetStage(s, Loaded(s.numFuncs))
    case CheckAndLink(_) =>
      if s.lock.stage.n > INT_MAX - s.reserved then SetStage(s, Overflowed) else Link(s)
    case SetLast(_) => SetStage(s.(last := Some(s.lock.node)), Appended(s.lock.stage.n))
    case StoreCount(_) =>
      var n := s.lock.stage.n;
      SetStage(s.(numFuncs := n + 1, countedAt := s.countedAt + [s.clock]), Stored(n))
    case Release(t) =>
      var returned := if s.lock.stage.Stored? then s.returned + [s.lock.stage.n + s.reserved] else s.returned;
      SetPc(s.(lock := Free, returned := returned), t, Idle)
    case StartWalk(t) => SetPc(s, t, Walking(s.numFuncs, 0, Head, [], s.clock))
    case Visit(t) => SetPc(s, t, AfterVisit(pc, s.heap, s.funcs, s.reserved))
    case Advance(t) => SetPc(s, t, AfterAdvance(pc, s.heap, s.funcs))
    case FinishWalk(t) => SetPc(s, t, Idle)
  }

  /** Reads the entry behind the cell and calls its free function, if it has one. */
  function AfterVisit(pc: Pc, heap: seq<Node>, funcs: Option<nat>, reserved: nat): Pc
    requires pc.Walking?
  {
    var p := Read(heap, funcs, pc.cell);
    if p.None? || p.value >= |heap| then Crashed
    else Visited(pc.n, pc.i, pc.cell, pc.calls + CallOf(heap[p.value], p.value, pc.i + reserved), pc.loadedAt)
  }

  /** Moves to the cell inside the entry, without reading that cell. */
  function AfterAdvance(pc: Pc, heap: seq<Node>, funcs: Option<nat>): Pc
    requires pc.Visited?
  {
    var p := Read(heap, funcs, pc.cell);
    if p.None? then Crashed else Walking(pc.n, pc.i + 1, NextOf(p.value), pc.calls, pc.loadedAt)
  }

  function CallOf(node: Node, id: nat, index: int): seq<(nat, int)> {
    if node.hasFree then [(id, index)] else []
  }

  // ----- the invariant

  /** The cell that points to entry `k` of the list. */
  function CellAt(chain: seq<nat>, k: nat): Cell
    requires k <= |chain|
  {
    if k == 0 then Head else NextOf(chain[k - 1])
  }

  predicate InHeap(heap: seq<Node>, chain: seq<nat>) {
    forall j :: 0 <= j < |chain| ==> chain[j] < |heap|
  }

  /** The calls a complete walk over the first `k` entries makes. */
  function CallsUpTo(heap: seq<Node>, chain: seq<nat>, reserved: nat, k: nat): seq<(nat, int)>
    requires k <= |chain| && InHeap(heap, chain)
  {
    if k == 0 then []
    else CallsUpTo(heap, chain, reserved, k - 1) + CallOf(heap[chain[k - 1]], chain[k - 1], k - 1 + reserved)
  }

  /** The pointers form one list through the entries, in order, ending in null. */
  ghost predicate ListInv(heap: seq<Node>, funcs: Option<nat>, chain: seq<nat>) {
    && InHeap(heap, chain)
    && (forall j, k :: 0 <= j < |chain| && 0 <= k < |chain| && j != k ==> chain[j] != chain[k])
    && (forall k {:trigger CellAt(chain, k)} :: 0 <= k < |chain| ==>
        Read(heap, funcs, CellAt(chain, k)) == Some(chain[k]))
    && Read(heap, funcs, CellAt(chain, |chain|)) == None
  }

  /** An entry still private to a thread: allocated, not in the list, without a successor. */
  ghost predicate Private(heap: seq<Node>, chain: seq<nat>, node: nat) {
    node < |heap| && node !in chain && heap[node].next.None?
  }

  ghost predicate PrivateInv(heap: seq<Node>, chain: seq<nat>, lock: Lock, threads: seq<Pc>) {
    && (forall t :: 0 <= t < |threads| && threads[t].Allocated? ==> Private(heap, chain, threads[t].node))
    && (forall t :: 0 <= t < |threads| && threads[t].Allocated? && lock.Held? ==> lock.node != threads[t].node)
    && (forall t, u ::
          0 <= t < |threads| && 0 <= u < |threads| && t != u && threads[t].Allocated? && threads[u].Allocated? ==>
          threads[t].node != threads[u].node)
    && (lock.Held? ==> lock.node < |heap|)
    && (lock.Held? && (lock.stage.Locked? || lock.stage.Loaded? || lock.stage.Overflowed?) ==>
        Private(heap, chain, lock.node))
  }

  /** The last entry, or none. */
  function LastOf(chain: seq<nat>): Option<nat> {
    if chain == [] then None else Some(chain[|chain| - 1])
  }

  /** The count, the tail pointer and the owner's local copy, stage by stage. */
  ghost predicate LockInv(s: State) {
    if s.lock.Free? then |s.chain| == s.numFuncs && s.last == LastOf(s.chain)
    else
      && s.lock.owner < |s.threads|
      && s.threads[s.lock.owner].Registering?
      && match s.lock.stage
         case Locked => |s.chain| == s.numFuncs && s.last == LastOf(s.chain)
         case Loaded(n) => n == |s.chain| == s.numFuncs && s.last == LastOf(s.chain)
         case Overflowed => |s.chain| == s.numFuncs && s.last == LastOf(s.chain)
         case Linked(n) => n == s.numFuncs <= INT_MAX - s.reserved && |s.chain| == n + 1
             && LastOf(s.chain) == Some(s.lock.node)
                           && s.last == LastOf(s.chain[..n])
         case Appended(n) => n == s.numFuncs <= INT_MAX - s.reserved && |s.chain| == n + 1
             && s.last == LastOf(s.chain) == Some(s.lock.node)
         case Stored(n) => n + 1 == s.numFuncs == |s.chain| && s.last == LastOf(s.chain) == Some(s.lock.node)
  }

  /** Indices are handed out in order, and the count stays within the bound the guard gives. */
  ghost predicate IndexInv(s: State) {
    && s.reserved <= 0xff
    && s.numFuncs <= INT_MAX - s.reserved + 1
    && |s.returned| == s.numFuncs - (if s.lock.Held? && s.lock.stage.Stored? then 1 else 0)
    && forall k :: 0 <= k < |s.returned| ==> s.returned[k] == k + s.reserved
  }

  /** Every entry is linked before it is counted. */
  ghost predicate TimeInv(s: State) {
    && |s.linkedAt| == |s.chain|
    && |s.countedAt| == s.numFuncs <= |s.chain|
    && (forall k :: 0 <= k < |s.linkedAt| ==> s.linkedAt[k] < s.clock)
    && (forall k :: 0 <= k < |s.countedAt| ==> s.linkedAt[k] < s.countedAt[k] < s.clock)
  }

  /** A reader stands at a cell of the published part, has seen the store that published it, and has
      called exactly the functions of the entries behind it. */
  ghost predicate ReaderInv(pc: Pc, heap: seq<Node>, chain: seq<nat>, reserved: nat, countedAt: seq<nat>)
    requires InHeap(heap, chain)
  {
    && !pc.Crashed?
    && (pc.Walking? || pc.Visited? ==>
          && pc.i <= pc.n <= |countedAt| <= |chain|
          && pc.cell == CellAt(chain, pc.i)
          && (pc.Visited? ==> pc.i < pc.n)
          && pc.calls == CallsUpTo(heap, chain, reserved, if pc.Visited? then pc.i + 1 else pc.i)
          && forall k :: 0 <= k < pc.n ==> countedAt[k] < pc.loadedAt)
  }

  ghost predicate Inv(s: State) {
    && ListInv(s.heap, s.funcs, s.chain) && PrivateInv(s.heap, s.chain, s.lock, s.threads)
    && LockInv(s) && IndexInv(s) && TimeInv(s)
    && forall t :: 0 <= t < |s.threads| ==> ReaderInv(s.threads[t], s.heap, s.chain, s.reserved, s.countedAt)
  }

  // ----- every step keeps it

  /** What no step ever undoes: the entries, their data, their order, and the history. */
  ghost predicate Grows(s: State, u: State) {
    && s.reserved == u.reserved
    && SameData(s.heap, u.heap)
    && s.chain <= u.chain
    && s.linkedAt <= u.linkedAt
    && s.countedAt <= u.countedAt
    && s.returned <= u.returned
  }

  ghost predicate SameData(heap: seq<Node>, more: seq<Node>) {
    |heap| <= |more| && forall j :: 0 <= j < |heap| ==> more[j].hasFree == heap[j].hasFree
  }

  predicate Links(s: State, a: Action) {
    a.CheckAndLink? && s.lock.Held? && s.lock.stage.Loaded? && !(s.lock.stage.n > INT_MAX - s.reserved)
  }

  /** Writing the pointer behind the last entry. */
  function LinkedHeap(heap: seq<Node>, chain: seq<nat>, node: nat): seq<Node>
    requires chain == [] || chain[|chain| - 1] < |heap|
  {
    if chain == [] then heap else heap[chain[|chain| - 1] := heap[chain[|chain| - 1]].(next := Some(node))]
  }

  function LinkedFuncs(funcs: Option<nat>, chain: seq<nat>, node: nat): Option<nat> {
    if chain == [] then Some(node) else funcs
  }

  lemma LinkedCell(heap: seq<Node>, funcs: Option<nat>, chain: seq<nat>, node: nat, k: nat)
    requires ListInv(heap, funcs, chain) && Private(heap, chain, node) && k <= |chain|
    ensures Read(LinkedHeap(heap, chain, node), LinkedFuncs(funcs, chain, node), CellAt(chain, k))
         == Some(if k < |chain| then chain[k] else node)
  {
    if k < |chain| {
      assert Read(heap, funcs, CellAt(chain, k)) == Some(chain[k]);
      if k > 0 { assert chain[k - 1] != chain[|chain| - 1]; }
    }
  }

  /** Linking a private entry behind the last one extends the list by it. */
  lemma Extend(heap: seq<Node>, funcs: Option<nat>, chain: seq<nat>, node: nat)
    requires ListInv(heap, funcs, chain) && Private(heap, chain, node)
    ensures ListInv(LinkedHeap(heap, chain, node), LinkedFuncs(funcs, chain, node), chain + [node])
  {
    var heap', funcs', more := LinkedHeap(heap, chain, node), LinkedFuncs(funcs, chain, node), chain + [node];
    forall k | 0 <= k < |more| ensures Read(heap', funcs', CellAt(more, k)) == Some(more[k]) {
      LinkedCell(heap, funcs, chain, node, k);
      assert CellAt(more, k) == CellAt(chain, k);
    }
    forall j, k | 0 <= j < |more| && 0 <= k < |more| && j != k ensures more[j] != more[k] {
      if j < |chain| { assert chain[j] in chain; }
      if k < |chain| { assert chain[k] in chain; }
    }
    assert |heap'| == |heap| && heap'[node].next == heap[node].next by {
      if chain != [] { assert chain[|chain| - 1] in chain; }
    }
  }

  /** A fresh entry disturbs no pointer. */
  lemma FreshEntry(heap: seq<Node>, funcs: Option<nat>, chain: seq<nat>, node: Node)
    requires ListInv(heap, funcs, chain)
    ensures ListInv(heap + [node], funcs, chain)
  {
    forall k | 0 <= k <= |chain|
      ensures Read(heap + [node], funcs, CellAt(chain, k)) == Read(heap, funcs, CellAt(chain, k))
    {
      if k > 0 { assert chain[k - 1] < |heap|; }
    }
    assert forall k :: 0 <= k < |chain| ==> Read(heap, funcs, CellAt(chain, k)) == Some(chain[k]);
  }

  lemma ListStep(s: State, a: Action)
    requires ListInv(s.heap, s.funcs, s.chain) && PrivateInv(s.heap, s.chain, s.lock, s.threads) && LockInv(s)
      && Enabled(s, a) && (s.last.Some? ==> s.last.value < |s.heap|)
    ensures var u := Step(s, a); ListInv(u.heap, u.funcs, u.chain)
  {
    if Links(s, a) {
      Extend(s.heap, s.funcs, s.chain, s.lock.node);
      assert s.last == LastOf(s.chain);
    } else if a.Allocate? {
      FreshEntry(s.heap, s.funcs, s.chain, Node(a.hasFree, None));
    }
  }

  lemma GrowsStep(s: State, a: Action)
    requires Enabled(s, a) && (s.last.Some? ==> s.last.value < |s.heap|)
    ensures Grows(s, Step(s, a))
  {}

  lemma LockStep(s: State, a: Action)
    requires LockInv(s) && Enabled(s, a) && (s.last.Some? ==> s.last.value < |s.heap|)
    ensures LockInv(Step(s, a))
  {
    if Links(s, a) {
      assert Step(s, a).chain[..s.lock.stage.n] == s.chain;
    }
  }

  lemma IndexStep(s: State, a: Action)
    requires LockInv(s) && IndexInv(s) && Enabled(s, a) && (s.last.Some? ==> s.last.value < |s.heap|)
    ensures IndexInv(Step(s, a))
  {}

  lemma TimeStep(s: State, a: Action)
    requires LockInv(s) && TimeInv(s) && Enabled(s, a) && (s.last.Some? ==> s.last.value < |s.heap|)
    ensures TimeInv(Step(s, a))
  {}

  lemma PrivateStep(s: State, a: Action)
    requires PrivateInv(s.heap, s.chain, s.lock, s.threads) && InHeap(s.heap, s.chain) && LockInv(s) && Enabled(s, a)
      && (s.last.Some? ==> s.last.value < |s.heap|)
    ensures var u := Step(s, a); PrivateInv(u.heap, u.chain, u.lock, u.threads)
  {
    if Links(s, a) {
      PrivateWhileLinking(s, a);
    } else if a.Allocate? {
      PrivateWhileAllocating(s, a);
    } else {
      var u := Step(s, a);
      assert u.heap == s.heap && u.chain == s.chain;
      assert forall t :: 0 <= t < |u.threads| && u.threads[t].Allocated? ==> u.threads[t] == s.threads[t];
    }
  }

  lemma PrivateWhileAllocating(s: State, a: Action)
    requires PrivateInv(s.heap, s.chain, s.lock, s.threads) && InHeap(s.heap, s.chain)
    requires Enabled(s, a) && a.Allocate? && (s.last.Some? ==> s.last.value < |s.heap|)
    ensures var u := Step(s, a); PrivateInv(u.heap, u.chain, u.lock, u.threads)
  {
    var u := Step(s, a);
    assert forall t :: 0 <= t < |u.threads| && t != a.t ==> u.threads[t] == s.threads[t];
  }

  lemma PrivateWhileLinking(s: State, a: Action)
    requires PrivateInv(s.heap, s.chain, s.lock, s.threads) && InHeap(s.heap, s.chain) && LockInv(s) && Enabled(s, a)
      && (s.last.Some? ==> s.last.value < |s.heap|) && Links(s, a)
    ensures var u := Step(s, a); PrivateInv(u.heap, u.chain, u.lock, u.threads)
  {
    var u := Step(s, a);
    assert u.threads == s.threads && u.lock.node == s.lock.node && u.chain == s.chain + [s.lock.node];
    forall t | 0 <= t < |s.threads| && s.threads[t].Allocated? ensures Private(u.heap, u.chain, s.threads[t].node) {
      assert Private(s.heap, s.chain, s.threads[t].node);
      if s.chain != [] { assert s.chain[|s.chain| - 1] in s.chain; }
    }
  }

  lemma {:induction false} CallsGrow(heap: seq<Node>, more: seq<Node>, chain: seq<nat>, longer: seq<nat>, reserved: nat,
                                     k: nat)
    requires SameData(heap, more) && chain <= longer && k <= |chain| && InHeap(heap, chain) && InHeap(more, longer)
    ensures CallsUpTo(more, longer, reserved, k) == CallsUpTo(heap, chain, reserved, k)
  {
    if k > 0 {
      CallsGrow(heap, more, chain, longer, reserved, k - 1);
    }
  }

  /** A reader that does not move keeps its place while the list grows. */
  lemma ReaderStays(pc: Pc, s: State, u: State)
    requires Grows(s, u) && InHeap(s.heap, s.chain) && InHeap(u.heap, u.chain) && |u.countedAt| <= |u.chain|
    requires ReaderInv(pc, s.heap, s.chain, s.reserved, s.countedAt)
    ensures ReaderInv(pc, u.heap, u.chain, u.reserved, u.countedAt)
  {
    if pc.Walking? || pc.Visited? {
      CallsGrow(s.heap, u.heap, s.chain, u.chain, s.reserved, if pc.Visited? then pc.i + 1 else pc.i);
    }
  }

  predicate Walks(a: Action) {
    a.StartWalk? || a.Visit? || a.Advance? || a.FinishWalk?
  }

  lemma VisitKeeps(pc: Pc, s: State)
    requires ListInv(s.heap, s.funcs, s.chain) && ReaderInv(pc, s.heap, s.chain, s.reserved, s.countedAt) && pc.Walking?
      && pc.i < pc.n
    ensures ReaderInv(AfterVisit(pc, s.heap, s.funcs, s.reserved), s.heap, s.chain, s.reserved, s.countedAt)
  {
    assert Read(s.heap, s.funcs, CellAt(s.chain, pc.i)) == Some(s.chain[pc.i]);
  }

  lemma AdvanceKeeps(pc: Pc, s: State)
    requires ListInv(s.heap, s.funcs, s.chain) && ReaderInv(pc, s.heap, s.chain, s.reserved, s.countedAt) && pc.Visited?
    ensures ReaderInv(AfterAdvance(pc, s.heap, s.funcs), s.heap, s.chain, s.reserved, s.countedAt)
  {
    assert Read(s.heap, s.funcs, CellAt(s.chain, pc.i)) == Some(s.chain[pc.i]);
  }

  lemma StartKeeps(s: State)
    requires InHeap(s.heap, s.chain) && TimeInv(s)
    ensures ReaderInv(Walking(s.numFuncs, 0, Head, [], s.clock), s.heap, s.chain, s.reserved, s.countedAt)
  {}

  lemma ReaderMoves(s: State, a: Action)
    requires Inv(s) && Enabled(s, a) && (s.last.Some? ==> s.last.value < |s.heap|) && Walks(a)
    ensures ReaderInv(Step(s, a).threads[a.t], s.heap, s.chain, s.reserved, s.countedAt)
  {
    match a
    case Visit(t) => VisitKeeps(s.threads[t], s);
    case Advance(t) => AdvanceKeeps(s.threads[t], s);
    case StartWalk(t) => StartKeeps(s);
    case FinishWalk(t) =>
    case _ =>
  }

  /** What a step leaves alone. */
  lemma StepFrame(s: State, a: Action)
    requires Enabled(s, a) && (s.last.Some? ==> s.last.value < |s.heap|)
    ensures var u := Step(s, a);
            && |u.threads| == |s.threads|
            && (forall t :: 0 <= t < |s.threads| && t != a.t ==> u.threads[t] == s.threads[t])
            && (Walks(a) ==>
                u.heap == s.heap && u.funcs == s.funcs && u.chain == s.chain && u.reserved == s.reserved
                && u.countedAt == s.countedAt)
            && (!Walks(a) && u.threads[a.t] != s.threads[a.t] ==>
                !u.threads[a.t].Walking? && !u.threads[a.t].Visited? && !u.threads[a.t].Crashed?)
  {}

  lemma ReadersStep(s: State, u: State, a: Action, t: nat)
    requires Inv(s) && Enabled(s, a) && (s.last.Some? ==> s.last.value < |s.heap|) && t < |s.threads| && u == Step(s, a)
    requires ListInv(u.heap, u.funcs, u.chain) && Grows(s, u) && TimeInv(u)
    ensures t < |u.threads| && ReaderInv(u.threads[t], u.heap, u.chain, u.reserved, u.countedAt)
  {
    StepFrame(s, a);
    if t == a.t && Walks(a) {
      ReaderMoves(s, a);
    } else if u.threads[t] == s.threads[t] {
      ReaderStays(s.threads[t], s, u);
    }
  }

  lemma LastInHeap(s: State)
    requires Inv(s)
    ensures s.last.Some? ==> s.last.value < |s.heap|
  {}

  lemma StepKeepsInv(s: State, a: Action)
    requires Inv(s) && Enabled(s, a)
    ensures s.last.Some? ==> s.last.value < |s.heap|
    ensures Inv(Step(s, a)) && Grows(s, Step(s, a))
  {
    LastInHeap(s);
    ListStep(s, a);
    LockStep(s, a);
    IndexStep(s, a);
    TimeStep(s, a);
    PrivateStep(s, a);
    GrowsStep(s, a);
    forall t | 0 <= t < |s.threads|
      ensures var u := Step(s, a); t < |u.threads| && ReaderInv(u.threads[t], u.heap, u.chain, u.reserved, u.countedAt)
    {
      ReadersStep(s, Step(s, a), a, t);
    }
    StepFrame(s, a);
  }

  // ----- runs

  /** An empty class with idle threads. */
  ghost predicate Init(s: State) {
    && s.reserved <= 0xff
    && s.heap == [] && s.funcs.None? && s.last.None? && s.numFuncs == 0 && s.lock.Free?
    && s.chain == [] && s.linkedAt == [] && s.countedAt == [] && s.returned == [] && s.clock == 0
    && forall t :: 0 <= t < |s.threads| ==> s.threads[t].Idle?
  }

  ghost predicate Reaches(s: State, run: seq<Action>, u: State)
    decreases |run|
  {
    if run == [] then s == u
    else Enabled(s, run[0]) && (s.last.Some? ==> s.last.value < |s.heap|) && Reaches(Step(s, run[0]), run[1..], u)
  }

  ghost predicate Reachable(s: State, u: State) {
    exists run :: Reaches(s, run, u)
  }

  lemma {:induction false} RunKeepsInv(s: State, run: seq<Action>, u: State)
    requires Inv(s) && Reaches(s, run, u)
    ensures Inv(u) && Grows(s, u)
    decreases |run|
  {
    if run != [] {
      var t := Step(s, run[0]);
      StepKeepsInv(s, run[0]);
      RunKeepsInv(t, run[1..], u);
      SameDataTransitive(s.heap, t.heap, u.heap);
    }
  }

  lemma SameDataTransitive(a: seq<Node>, b: seq<Node>, c: seq<Node>)
    requires SameData(a, b) && SameData(b, c)
    ensures SameData(a, c)
  {}

  lemma ReachableInv(s: State, u: State)
    requires Init(s) && Reachable(s, u)
    ensures Inv(u)
  {
    var run :| Reaches(s, run, u);
    RunKeepsInv(s, run, u);
  }

  /** In every interleaving, a walk in progress is safe: the cell it reads next was linked before it was
      counted, and counted before the reader loaded the count; it holds the entry with that number; and
      no owner of the lock is about to write it. */
  lemma WalksAreSafe(s: State, u: State, t: nat)
    requires Init(s) && Reachable(s, u) && t < |u.threads|
    ensures !u.threads[t].Crashed?
    ensures ReadTarget(u, t).Some? ==>
      var pc := u.threads[t];
      && pc.i < pc.n <= |u.countedAt| <= |u.chain| == |u.linkedAt|
      && u.linkedAt[pc.i] < u.countedAt[pc.i] < pc.loadedAt
      && Read(u.heap, u.funcs, pc.cell) == Some(u.chain[pc.i])
      && WriteTarget(u) != ReadTarget(u, t)
  {
    ReachableInv(s, u);
    assert ReaderInv(u.threads[t], u.heap, u.chain, u.reserved, u.countedAt);
    if ReadTarget(u, t).Some? && WriteTarget(u).Some? {
      NeverTheTail(u, u.threads[t].i);
    }
  }

  /** No step changes the contents of another cell than the one its owner was about to write, and a reader
      goes on by the cell it holds. */
  lemma TargetsMean(s: State, a: Action)
    requires Enabled(s, a) && (s.last.Some? ==> s.last.value < |s.heap|)
    ensures var u := Step(s, a);
      forall c: Cell :: (c.NextOf? ==> c.node < |s.heap|) && Read(s.heap, s.funcs, c) != Read(u.heap, u.funcs, c) ==>
        a.CheckAndLink? && WriteTarget(s) == Some(c)
    ensures a.Visit? || a.Advance? ==> ReadTarget(s, a.t) == Some(s.threads[a.t].cell)
  {}

  /** The owner writes the last cell, a reader reads an earlier one. */
  lemma NeverTheTail(s: State, i: nat)
    requires InHeap(s.heap, s.chain) && LockInv(s) && WriteTarget(s).Some? && i < |s.chain|
    requires forall j, k :: 0 <= j < |s.chain| && 0 <= k < |s.chain| && j != k ==> s.chain[j] != s.chain[k]
    ensures WriteTarget(s) == Some(CellAt(s.chain, |s.chain|)) && CellAt(s.chain, i) != CellAt(s.chain, |s.chain|)
  {
    if i > 0 { assert s.chain[i - 1] != s.chain[|s.chain| - 1]; }
  }

  /** A cell in front of a linked entry keeps its contents for the rest of every run. */
  lemma LinkedCellsAreFinal(s: State, u: State, v: State, k: nat)
    requires Init(s) && Reachable(s, u) && Reachable(u, v) && k < |u.chain|
    ensures k < |v.chain| && CellAt(v.chain, k) == CellAt(u.chain, k)
      && Read(v.heap, v.funcs, CellAt(v.chain, k)) == Some(u.chain[k])
  {
    ReachableInv(s, u);
    var more :| Reaches(u, more, v);
    RunKeepsInv(u, more, v);
    if k > 0 { assert v.chain[k - 1] == u.chain[k - 1]; }
  }

  /** A finished walk has called the free functions of its first `n` entries, in order, each with its
      own index. */
  lemma FinishedWalk(s: State, u: State, t: nat)
    requires Init(s) && Reachable(s, u) && t < |u.threads| && u.threads[t].Walking? && u.threads[t].i == u.threads[t].n
    ensures u.threads[t].n <= |u.chain| && InHeap(u.heap, u.chain)
    ensures u.threads[t].calls == CallsUpTo(u.heap, u.chain, u.reserved, u.threads[t].n)
  {
    ReachableInv(s, u);
    assert ReaderInv(u.threads[t], u.heap, u.chain, u.reserved, u.countedAt);
  }

  /** A call for entry `j` of the list: the entry has a free function, and the index is the entry's number
      and the reserved ones. */
  predicate IsCallFor(c: (nat, int), j: nat, heap: seq<Node>, chain: seq<nat>, reserved: nat)
    requires j < |chain| && InHeap(heap, chain)
  {
    heap[chain[j]].hasFree && c.0 == chain[j] && c.1 == j + reserved
  }

  /** Every call is for one of the first `k` entries. */
  ghost predicate CallsAreSound(calls: seq<(nat, int)>, k: nat, heap: seq<Node>, chain: seq<nat>, reserved: nat)
    requires k <= |chain| && InHeap(heap, chain)
  {
    forall p :: 0 <= p < |calls| ==> IsSomeCall(calls[p], k, heap, chain, reserved)
  }

  ghost predicate IsSomeCall(c: (nat, int), k: nat, heap: seq<Node>, chain: seq<nat>, reserved: nat)
    requires k <= |chain| && InHeap(heap, chain)
  {
    exists j: nat :: j < k && IsCallFor(c, j, heap, chain, reserved)
  }

  /** Every one of them that has a free function is called. */
  ghost predicate CallsAreComplete(calls: seq<(nat, int)>, k: nat, heap: seq<Node>, chain: seq<nat>, reserved: nat)
    requires k <= |chain| && InHeap(heap, chain)
  {
    forall j: nat :: j < k && heap[chain[j]].hasFree ==> HasCall(calls, j, heap, chain, reserved)
  }

  ghost predicate HasCall(calls: seq<(nat, int)>, j: nat, heap: seq<Node>, chain: seq<nat>, reserved: nat)
    requires j < |chain| && InHeap(heap, chain)
  {
    exists p :: 0 <= p < |calls| && IsCallFor(calls[p], j, heap, chain, reserved)
  }

  /** The calls come in the order of their indices, so none comes twice. */
  predicate CallsAreOrdered(calls: seq<(nat, int)>) {
    forall p, q :: 0 <= p < q < |calls| ==> calls[p].1 < calls[q].1
  }

  /** The calls of a finished walk are those of the first `n` entries that have a free function, one each,
      in order; and where a registrar has returned an entry's index, it is the one its call is given. */
  lemma CallsOfFinishedWalk(s: State, u: State, t: nat)
    requires Init(s) && Reachable(s, u) && t < |u.threads| && u.threads[t].Walking? && u.threads[t].i == u.threads[t].n
    ensures u.threads[t].n <= |u.chain| && InHeap(u.heap, u.chain)
    ensures CallsAreSound(u.threads[t].calls, u.threads[t].n, u.heap, u.chain, u.reserved)
    ensures CallsAreComplete(u.threads[t].calls, u.threads[t].n, u.heap, u.chain, u.reserved)
    ensures CallsAreOrdered(u.threads[t].calls)
    ensures |u.returned| <= |u.chain|
    ensures forall p, j: nat :: 0 <= p < |u.threads[t].calls| && j < |u.returned| ==>
      (u.threads[t].calls[p].0 == u.chain[j] ==> u.threads[t].calls[p].1 == u.returned[j])
  {
    FinishedWalk(s, u, t);
    SoundCalls(u.heap, u.chain, u.reserved, u.threads[t].n);
    CompleteCalls(u.heap, u.chain, u.reserved, u.threads[t].n);
    OrderedCalls(u.heap, u.chain, u.reserved, u.threads[t].n);
    ReachableInv(s, u);
    IndicesOfCalls(u.threads[t].calls, u.threads[t].n, u);
  }

  lemma IndicesOfCalls(calls: seq<(nat, int)>, k: nat, u: State)
    requires InHeap(u.heap, u.chain) && ListInv(u.heap, u.funcs, u.chain) && IndexInv(u) && TimeInv(u) && k <= |u.chain|
    requires CallsAreSound(calls, k, u.heap, u.chain, u.reserved)
    ensures |u.returned| <= |u.chain|
    ensures forall p, j: nat :: 0 <= p < |calls| && j < |u.returned| && calls[p].0 == u.chain[j] ==>
      calls[p].1 == u.returned[j]
  {
    forall p, j: nat | 0 <= p < |calls| && j < |u.returned| && calls[p].0 == u.chain[j]
      ensures calls[p].1 == u.returned[j]
    {
      var i: nat :| i < k && IsCallFor(calls[p], i, u.heap, u.chain, u.reserved);
      assert u.chain[i] == u.chain[j];
    }
  }

  lemma {:induction false} SoundCalls(heap: seq<Node>, chain: seq<nat>, reserved: nat, k: nat)
    requires k <= |chain| && InHeap(heap, chain)
    ensures CallsAreSound(CallsUpTo(heap, chain, reserved, k), k, heap, chain, reserved)
  {
    if k > 0 {
      SoundCalls(heap, chain, reserved, k - 1);
      var before, calls := CallsUpTo(heap, chain, reserved, k - 1), CallsUpTo(heap, chain, reserved, k);
      forall p | 0 <= p < |calls|
        ensures IsSomeCall(calls[p], k, heap, chain, reserved)
      {
        if p < |before| {
          assert calls[p] == before[p] && IsSomeCall(before[p], k - 1, heap, chain, reserved);
        } else {
          assert IsCallFor(calls[p], k - 1, heap, chain, reserved);
        }
      }
    }
  }

  lemma {:induction false} CompleteCalls(heap: seq<Node>, chain: seq<nat>, reserved: nat, k: nat)
    requires k <= |chain| && InHeap(heap, chain)
    ensures CallsAreComplete(CallsUpTo(heap, chain, reserved, k), k, heap, chain, reserved)
  {
    if k > 0 {
      CompleteCalls(heap, chain, reserved, k - 1);
      forall j: nat | j < k && heap[chain[j]].hasFree
        ensures HasCall(CallsUpTo(heap, chain, reserved, k), j, heap, chain, reserved)
      {
        CompleteStep(heap, chain, reserved, k, j);
      }
    }
  }

  lemma CompleteStep(heap: seq<Node>, chain: seq<nat>, reserved: nat, k: nat, j: nat)
    requires j < k <= |chain| && InHeap(heap, chain) && heap[chain[j]].hasFree
    requires j < k - 1 ==> HasCall(CallsUpTo(heap, chain, reserved, k - 1), j, heap, chain, reserved)
    ensures HasCall(CallsUpTo(heap, chain, reserved, k), j, heap, chain, reserved)
  {
    var before, calls := CallsUpTo(heap, chain, reserved, k - 1), CallsUpTo(heap, chain, reserved, k);
    if j < k - 1 {
      var p :| 0 <= p < |before| && IsCallFor(before[p], j, heap, chain, reserved);
      assert IsCallFor(calls[p], j, heap, chain, reserved);
    } else {
      assert IsCallFor(calls[|before|], j, heap, chain, reserved);
    }
  }

  lemma {:induction false} OrderedCalls(heap: seq<Node>, chain: seq<nat>, reserved: nat, k: nat)
    requires k <= |chain| && InHeap(heap, chain)
    ensures CallsAreOrdered(CallsUpTo(heap, chain, reserved, k))
  {
    if k > 0 {
      OrderedCalls(heap, chain, reserved, k - 1);
      SoundCalls(heap, chain, reserved, k - 1);
      var before, calls := CallsUpTo(heap, chain, reserved, k - 1), CallsUpTo(heap, chain, reserved, k);
      forall p | 0 <= p < |before|
        ensures before[p].1 < k - 1 + reserved && calls[p] == before[p]
      {
        var j: nat :| j < k - 1 && IsCallFor(before[p], j, heap, chain, reserved);
      }
      assert |calls| > |before| ==> |calls| == |before| + 1 && calls[|before|].1 == k - 1 + reserved;
    }
  }

  /** Returned indices count up from the reserved ones, so they are distinct, and fit an int. */
  lemma IndicesAreConsecutive(s: State, u: State, k: nat)
    requires Init(s) && Reachable(s, u) && k < |u.returned|
    ensures u.returned[k] == k + u.reserved <= INT_MAX == 2147483647
    ensures u.numFuncs <= INT_MAX - u.reserved + 1
  {
    ReachableInv(s, u);
  }

  /** A thread between the allocation of an entry and its release of the lock. */
  predicate Registers(s: State, t: nat, node: nat) {
    && t < |s.threads|
    && (s.threads[t] == Allocated(node) || (s.threads[t].Registering? && Owns(s, t) && s.lock.node == node))
  }

  /** In every interleaving, a registration ends in one of two ways: the registrar is handed the index under
      which walks call the function of its own entry, or it is refused and its entry is in no list. */
  lemma RegistrationEnds(s: State, t: nat, hasFree: bool, run: seq<Action>, u: State)
    requires Inv(s) && Enabled(s, Allocate(t, hasFree)) && Reaches(Step(s, Allocate(t, hasFree)), run, u)
    requires Release(t) !in run && Enabled(u, Release(t))
    ensures u.last.Some? ==> u.last.value < |u.heap|
    ensures InHeap(u.heap, u.chain) && |s.heap| < |u.heap|
    ensures HandedItsIndex(u, Step(u, Release(t)), |s.heap|, hasFree) || Refused(u, Step(u, Release(t)), |s.heap|)
  {
    var first := Step(s, Allocate(t, hasFree));
    StepKeepsInv(s, Allocate(t, hasFree));
    RegistrationGoesOn(first, run, u, t, |s.heap|);
    RunKeepsInv(first, run, u);
    StepKeepsInv(u, Release(t));
    AtRelease(u, t, |s.heap|);
  }

  /** The step returns the index of the entry in the order of the list, counted from the reserved ones. */
  ghost predicate HandedItsIndex(u: State, after: State, node: nat, hasFree: bool) {
    exists k: nat :: k < |u.chain| && u.chain[k] == node && node < |u.heap| && u.heap[node].hasFree == hasFree
      && after.returned == u.returned + [k + u.reserved]
  }

  ghost predicate Refused(u: State, after: State, node: nat) {
    after.returned == u.returned && node !in u.chain
  }

  lemma AtRelease(u: State, t: nat, node: nat)
    requires Inv(u) && Registers(u, t, node) && Enabled(u, Release(t)) && (u.last.Some? ==> u.last.value < |u.heap|)
    ensures node < |u.heap|
    ensures HandedItsIndex(u, Step(u, Release(t)), node, u.heap[node].hasFree) || Refused(u, Step(u, Release(t)), node)
  {
    if u.lock.stage.Stored? { assert u.chain[u.lock.stage.n] == node; }
  }

  lemma {:induction false} RegistrationGoesOn(s: State, run: seq<Action>, u: State, t: nat, node: nat)
    requires Inv(s) && Reaches(s, run, u) && Release(t) !in run && Registers(s, t, node)
    ensures Inv(u) && Registers(u, t, node)
    decreases |run|
  {
    if run != [] {
      StepKeepsInv(s, run[0]);
      StaysRegistering(s, run[0], t, node);
      RegistrationGoesOn(Step(s, run[0]), run[1..], u, t, node);
    }
  }

  lemma StaysRegistering(s: State, a: Action, t: nat, node: nat)
    requires Inv(s) && Enabled(s, a) && (s.last.Some? ==> s.last.value < |s.heap|)
    requires a != Release(t) && Registers(s, t, node)
    ensures Registers(Step(s, a), t, node)
  {}

  /** The assertion of the traversal holds exactly until the index `INT_MAX` is handed out: nobody has
      it yet, and nobody has just counted its entry. */
  lemma AssertionHoldsExactly(s: State, u: State)
    requires Init(s) && Reachable(s, u)
    ensures u.numFuncs <= INT_MAX - u.reserved <==>
      INT_MAX !in u.returned && !(u.lock.Held? && u.lock.stage.Stored? && u.lock.stage.n == INT_MAX - u.reserved)
  {
    ReachableInv(s, u);
    if u.numFuncs > INT_MAX - u.reserved && |u.returned| == u.numFuncs {
      assert u.returned[INT_MAX - u.reserved] == INT_MAX;
    }
  }

  // ----- a walk misses nothing

  /** A reader walks at least the entries that were counted before its load. */
  ghost predicate Complete(pc: Pc, countedAt: seq<nat>) {
    pc.Walking? || pc.Visited? ==> forall k :: 0 <= k < |countedAt| && countedAt[k] < pc.loadedAt ==> k < pc.n
  }

  ghost predicate LoadedEarlier(pc: Pc, clock: nat) {
    pc.Walking? || pc.Visited? ==> pc.loadedAt < clock
  }

  ghost predicate ReadersComplete(s: State) {
    forall t :: 0 <= t < |s.threads| ==> Complete(s.threads[t], s.countedAt) && LoadedEarlier(s.threads[t], s.clock)
  }

  lemma StepKeepsComplete(s: State, a: Action)
    requires Inv(s) && Enabled(s, a) && ReadersComplete(s)
    requires s.last.Some? ==> s.last.value < |s.heap|
    ensures ReadersComplete(Step(s, a))
  {
    CountsLater(s, a);
    var u := Step(s, a);
    forall t | 0 <= t < |u.threads|
      ensures Complete(u.threads[t], u.countedAt) && LoadedEarlier(u.threads[t], u.clock)
    {
      assert Complete(s.threads[t], s.countedAt) && LoadedEarlier(s.threads[t], s.clock);
      ReaderAfter(s, a, t);
    }
  }

  /** A reader after a step was the same reader before, or has just loaded the count. */
  lemma ReaderAfter(s: State, a: Action, t: nat)
    requires Enabled(s, a) && (s.last.Some? ==> s.last.value < |s.heap|) && t < |s.threads|
    ensures |Step(s, a).threads| == |s.threads|
    ensures var pc, next := s.threads[t], Step(s, a).threads[t];
            next.Walking? || next.Visited? ==>
              || ((pc.Walking? || pc.Visited?) && next.n == pc.n && next.loadedAt == pc.loadedAt)
              || (a.StartWalk? && next.n == s.numFuncs && next.loadedAt == s.clock)
  {}

  /** An entry is counted at the present time, after every load there has been. */
  lemma CountsLater(s: State, a: Action)
    requires Enabled(s, a) && (s.last.Some? ==> s.last.value < |s.heap|)
    ensures Step(s, a).clock == s.clock + 1
    ensures Step(s, a).countedAt == s.countedAt || Step(s, a).countedAt == s.countedAt + [s.clock]
    ensures a.StartWalk? ==> Step(s, a).countedAt == s.countedAt
  {}

  lemma {:induction false} RunKeepsComplete(s: State, run: seq<Action>, u: State)
    requires Inv(s) && ReadersComplete(s) && Reaches(s, run, u)
    ensures ReadersComplete(u)
    decreases |run|
  {
    if run != [] {
      StepKeepsInv(s, run[0]);
      StepKeepsComplete(s, run[0]);
      RunKeepsComplete(Step(s, run[0]), run[1..], u);
    }
  }

  /** In every interleaving, a walk covers every entry that was counted before the walk loaded the
      count, so no registration that was finished by then is missed. */
  lemma WalkMissesNothing(s: State, u: State, t: nat, k: nat)
    requires Init(s) && Reachable(s, u) && t < |u.threads| && (u.threads[t].Walking? || u.threads[t].Visited?)
    requires k < |u.countedAt| && u.countedAt[k] < u.threads[t].loadedAt
    ensures k < u.threads[t].n
  {
    var run :| Reaches(s, run, u);
    RunKeepsComplete(s, run, u);
    assert Complete(u.threads[t], u.countedAt);
  }

  // ----- the bound is reached

  lemma {:induction false} ReachesThen(s: State, run: seq<Action>, u: State, a: Action)
    requires Reaches(s, run, u) && Enabled(u, a) && (u.last.Some? ==> u.last.value < |u.heap|)
    ensures Reaches(s, run + [a], Step(u, a))
    decreases |run|
  {
    if run != [] {
      ReachesThen(Step(s, run[0]), run[1..], u, a);
      assert (run + [a])[1..] == run[1..] + [a];
    }
  }

  lemma ReachStep(s: State, u: State, a: Action) returns (v: State)
    requires Reachable(s, u) && Inv(u) && Enabled(u, a)
    ensures u.last.Some? ==> u.last.value < |u.heap|
    ensures v == Step(u, a) && Reachable(s, v) && Inv(v)
  {
    StepKeepsInv(u, a);
    v := Step(u, a);
    var run :| Reaches(s, run, u);
    ReachesThen(s, run, u, a);
  }

  ghost predicate Quiet(u: State, k: nat) {
    Inv(u) && u.numFuncs == k && u.lock.Free? && |u.threads| > 0 && u.threads[0].Idle?
  }

  ghost predicate Appending(u: State, k: nat) {
    Inv(u) && u.numFuncs == k && |u.threads| > 0 && Owns(u, 0) && u.lock.stage == Linked(k) && u.threads[0].Registering?
  }

  lemma LinkOne(s: State, u: State, k: nat) returns (v: State)
    requires Reachable(s, u) && Quiet(u, k) && k <= INT_MAX - u.reserved
    ensures Reachable(s, v) && Appending(v, k) && v.reserved == u.reserved
  {
    v := ReachStep(s, u, Allocate(0, false));
    v := ReachStep(s, v, Acquire(0));
    v := ReachStep(s, v, LoadCount(0));
    v := ReachStep(s, v, CheckAndLink(0));
  }

  lemma CountOne(s: State, u: State, k: nat) returns (v: State)
    requires Reachable(s, u) && Appending(u, k)
    ensures Reachable(s, v) && Quiet(v, k + 1) && v.reserved == u.reserved
  {
    v := ReachStep(s, u, SetLast(0));
    v := ReachStep(s, v, StoreCount(0));
    v := ReachStep(s, v, Release(0));
  }

  /** One undisturbed call registers one more index, up to the guard. */
  lemma RegisterOne(s: State, u: State, k: nat) returns (v: State)
    requires Reachable(s, u) && Quiet(u, k) && k <= INT_MAX - u.reserved
    ensures Reachable(s, v) && Quiet(v, k + 1) && v.reserved == u.reserved
  {
    v := LinkOne(s, u, k);
    v := CountOne(s, v, k);
  }

  lemma {:induction false} RegisterMany(s: State, k: nat) returns (u: State)
    requires Init(s) && |s.threads| > 0 && k <= INT_MAX - s.reserved + 1
    ensures Reachable(s, u) && Quiet(u, k) && u.reserved == s.reserved
  {
    if k == 0 {
      u := s;
      assert Reaches(s, [], s);
    } else {
      u := RegisterMany(s, k - 1);
      u := RegisterOne(s, u, k - 1);
    }
  }

  ghost predicate WalksBeyond(u: State, t: nat) {
    t < |u.threads| && u.threads[t].Walking? && u.threads[t].n == INT_MAX - u.reserved + 1
  }

  /** The guard lets the count reach one more than the traversal asserts: some reader loads
      `INT_MAX - num_reserved + 1`. */
  lemma CountBoundIsReached(s: State)
    requires Init(s) && |s.threads| > 0
    ensures exists u :: Reachable(s, u) && WalksBeyond(u, 0)
  {
    var u := RegisterMany(s, INT_MAX - s.reserved + 1);
    u := ReachStep(s, u, StartWalk(0));
  }

  // ----- the slots of one object

  /** The pointers attached to an object; `None` is the null pointer. */
  class Slots {
    var sk: Option<seq<Option<nat>>>

    constructor ()
      ensures sk.None?
    {
      sk := None;
    }

    function Get(index: int): Option<nat>
      reads this
    {
      if sk.None? || index < 0 || index >= |sk.value| then None else sk.value[index]
    }

    /** How many allocations a call needs: the stack itself and one push for each missing slot. */
    function Needed(index: nat): nat
      reads this
    {
      if sk.None? then index + 2 else if index < |sk.value| then 0 else index + 1 - |sk.value|
    }

    /** `memory` is how many allocations still succeed. A failed call leaves every slot as it was. */
    method Set(index: nat, val: Option<nat>, memory: nat) returns (ok: bool)
      modifies this
      ensures ok <==> old(Needed(index)) <= memory
      ensures forall i :: Get(i) == if ok && i == index then val else old(Get(i))
    {
      var left := memory;
      if sk.None? {
        if left == 0 { return false; }
        left := left - 1;
        sk := Some([]);
      }
      var before := sk.value;
      var i := |before|;
      while i <= index
        invariant sk.Some? && |sk.value| == i && |before| <= i && (i <= index + 1 || i == |before|)
        invariant forall j :: 0 <= j < i ==> sk.value[j] == if j < |before| then before[j] else None
        invariant left == memory - (if old(sk.None?) then 1 else 0) - (i - |before|)
      {
        if left == 0 { return false; }
        left := left - 1;
        sk := Some(sk.value + [None]);
        i := i + 1;
      }
      sk := Some(sk.value[index := val]);
      return true;
    }
  }
}
