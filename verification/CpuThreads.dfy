/** The cpu list of src/cpus.c shared by any number of threads under the spin lock CPUS_LOCK.

    A state holds the lock word, the ring, every node ever allocated, and for each thread its
    position in the code and the handles it owns.  A schedule interleaves the threads' steps
    arbitrarily.  A step is one access to shared data, except that the search of the ring, the
    making and linking of a node, and the unlinking of one are each a single step: the thread
    holds the lock throughout, so no other thread can touch what they touch. */
module CpuThreads {
  import opened Counting
  import opened Rings

  type Node = nat

  /** users is num_users; frees counts how often the node was handed to papi_free. */
  datatype NodeInfo = NodeInfo(cpuNum: nat, users: int, frees: nat)

  /** Where a thread is: Acq positions in _papi_hwi_lookup_or_create_cpu, Rel positions in
      free_cpu.  The node is the pointer the thread works with. */
  datatype Pc =
    | Outside
    | AcqLock(cpuNum: nat)
    | AcqSearch(cpuNum: nat)
    | AcqInit(cpuNum: nat)
    | AcqCount(cpuNum: nat, node: Node)
    | AcqReturn(cpuNum: nat, node: Node)
    | AcqUnlock
    | RelLock(node: Node)
    | RelCount(node: Node)
    | RelRead(node: Node)
    | RelRemove(node: Node)
    | RelUnlock(node: Node, users: int)
    | RelFree(node: Node)

  datatype Thread = Thread(pc: Pc, held: multiset<Node>)

  datatype State = State(locked: bool, ring: seq<Node>, nodes: seq<NodeInfo>, threads: seq<Thread>)

  /** What a thread outside the code does next; inside it just continues. */
  datatype Action = Acquire(cpuNum: nat) | Release(node: Node) | Continue

  predicate InCritical(pc: Pc) {
    !(pc.Outside? || pc.AcqLock? || pc.RelLock? || pc.RelFree?)
  }

  function Init(n: nat): State {
    State(false, [], [], seq(n, _ => Thread(Outside, multiset{})))
  }

  // ---------------------------------------------------------------- the steps

  predicate AllAllocated(ring: seq<Node>, nodes: seq<NodeInfo>) {
    forall i :: 0 <= i < |ring| ==> ring[i] < |nodes|
  }

  /** Position of the first ring node with the given cpu number, or |ring|. */
  function Find(ring: seq<Node>, nodes: seq<NodeInfo>, cpuNum: nat): (k: nat)
    requires AllAllocated(ring, nodes)
    ensures k <= |ring|
    ensures k < |ring| ==> nodes[ring[k]].cpuNum == cpuNum
    ensures forall i :: 0 <= i < k ==> nodes[ring[i]].cpuNum != cpuNum
  {
    if ring == [] then 0
    else if nodes[ring[0]].cpuNum == cpuNum then 0
    else 1 + Find(ring[1..], nodes, cpuNum)
  }

  function Goto(s: State, t: nat, pc: Pc): State
    requires t < |s.threads|
  {
    s.(threads := s.threads[t := s.threads[t].(pc := pc)])
  }

  /** AO_test_and_set_acquire, repeated while the word was already set. */
  function TakeLock(s: State, t: nat, pc: Pc): State
    requires t < |s.threads|
  {
    if s.locked then s else Goto(s.(locked := true), t, pc)
  }

  function AddUsers(s: State, n: Node, d: int): State
    requires n < |s.nodes|
  {
    s.(nodes := s.nodes[n := s.nodes[n].(users := s.nodes[n].users + d)])
  }

  /** Memory that has been allocated and not been given back. */
  predicate Live(nodes: seq<NodeInfo>, n: Node) {
    n < |nodes| && nodes[n].frees == 0
  }

  predicate RingLive(s: State) {
    forall i :: 0 <= i < |s.ring| ==> Live(s.nodes, s.ring[i])
  }

  /** Every pointer that the step of thread t follows leads to a live node, and remove_cpu's walk
      finds its entry. */
  predicate PointersOk(s: State, t: nat)
    requires t < |s.threads|
  {
    match s.threads[t].pc
    case AcqSearch(_) => RingLive(s)
    case AcqInit(_) => RingLive(s)
    case AcqCount(_, n) => Live(s.nodes, n)
    case AcqReturn(_, n) => Live(s.nodes, n)
    case RelCount(n) => Live(s.nodes, n)
    case RelRead(n) => Live(s.nodes, n)
    case RelRemove(n) => n in s.ring && RingLive(s)
    case RelFree(n) => Live(s.nodes, n)
    case _ => true
  }

  function Step(s: State, t: nat, act: Action): State
    requires t < |s.threads| && PointersOk(s, t)
  {
    var th := s.threads[t];
    match th.pc
    case Outside =>
      if act.Acquire? then Goto(s, t, AcqLock(act.cpuNum))
      else if act.Release? && act.node in th.held then
        s.(threads := s.threads[t := Thread(RelLock(act.node), th.held - multiset{act.node})])
      else s
    case AcqLock(c) => TakeLock(s, t, AcqSearch(c))
    case AcqSearch(c) =>
      var k := Find(s.ring, s.nodes, c);
      if k == |s.ring| then Goto(s, t, AcqInit(c))
      else Goto(s.(ring := RotateTo(s.ring, k)), t, AcqCount(c, s.ring[k]))
    case AcqInit(c) =>
      var n := |s.nodes|;
      Goto(s.(nodes := s.nodes + [NodeInfo(c, 0, 0)], ring := InsertHead(s.ring, n)), t, AcqCount(c, n))
    case AcqCount(c, n) => Goto(AddUsers(s, n, 1), t, AcqReturn(c, n))
    case AcqReturn(c, n) =>
      s.(threads := s.threads[t := Thread(AcqUnlock, th.held + multiset{n})])
    case AcqUnlock => Goto(s.(locked := false), t, Outside)
    case RelLock(n) => TakeLock(s, t, RelCount(n))
    case RelCount(n) => Goto(AddUsers(s, n, -1), t, RelRead(n))
    case RelRead(n) =>
      var users := s.nodes[n].users;
      Goto(s, t, if users == 0 then RelRemove(n) else RelUnlock(n, users))
    case RelRemove(n) =>
      Goto(s.(ring := Without(s.ring, IndexOf(s.ring, n))), t, RelUnlock(n, 0))
    case RelUnlock(n, users) =>
      Goto(s.(locked := false), t, if users == 0 then RelFree(n) else Outside)
    case RelFree(n) =>
      Goto(s.(nodes := s.nodes[n := s.nodes[n].(frees := s.nodes[n].frees + 1)]), t, Outside)
  }

  // ---------------------------------------------------------------- what threads own

  datatype Kind = Handle | Reaper

  /** Handle: how many users of n this thread accounts for.  Reaper: whether it is the thread
      that has unlinked n and is about to free it. */
  function Weight(kind: Kind, th: Thread, n: Node): nat {
    match kind
    case Handle =>
      th.held[n] +
      if (th.pc.AcqReturn? || th.pc.RelLock? || th.pc.RelCount?) && th.pc.node == n then 1 else 0
    case Reaper =>
      if th.pc == RelFree(n) || th.pc == RelUnlock(n, 0) then 1 else 0
  }

  function Sum(kind: Kind, ts: seq<Thread>, n: Node): nat {
    if ts == [] then 0 else Weight(kind, ts[0], n) + Sum(kind, ts[1..], n)
  }

  lemma {:induction false} SumUpdate(kind: Kind, ts: seq<Thread>, t: nat, th: Thread, n: Node)
    requires t < |ts|
    ensures Sum(kind, ts[t := th], n) == Sum(kind, ts, n) - Weight(kind, ts[t], n) + Weight(kind, th, n)
  {
    if t > 0 {
      assert ts[t := th][1..] == ts[1..][t - 1 := th];
      SumUpdate(kind, ts[1..], t - 1, th, n);
    } else {
      assert ts[t := th][1..] == ts[1..];
    }
  }

  lemma {:induction false} SumAtLeast(kind: Kind, ts: seq<Thread>, t: nat, n: Node)
    requires t < |ts|
    ensures Sum(kind, ts, n) >= Weight(kind, ts[t], n)
  {
    if t > 0 { SumAtLeast(kind, ts[1..], t - 1, n); }
  }

  lemma {:induction false} SumAtLeastTwo(kind: Kind, ts: seq<Thread>, t: nat, u: nat, n: Node)
    requires t < |ts| && u < |ts| && t != u
    ensures Sum(kind, ts, n) >= Weight(kind, ts[t], n) + Weight(kind, ts[u], n)
  {
    var idle := Thread(Outside, multiset{});
    SumUpdate(kind, ts, t, idle, n);
    SumAtLeast(kind, ts[t := idle], u, n);
  }

  lemma {:induction false} SumZero(kind: Kind, ts: seq<Thread>, n: Node)
    requires forall t :: 0 <= t < |ts| ==> Weight(kind, ts[t], n) == 0
    ensures Sum(kind, ts, n) == 0
  {
    if ts != [] { SumZero(kind, ts[1..], n); }
  }

  // ---------------------------------------------------------------- the invariant

  ghost predicate LockInv(s: State) {
    && (forall t, u | 0 <= t < |s.threads| && 0 <= u < |s.threads| ::
          InCritical(s.threads[t].pc) && InCritical(s.threads[u].pc) ==> t == u)
    && (s.locked <==> exists t :: 0 <= t < |s.threads| && InCritical(s.threads[t].pc))
  }

  ghost predicate RingInv(s: State) {
    && Distinct(s.ring)
    && AllAllocated(s.ring, s.nodes)
    && (forall n, m | n in s.ring && m in s.ring && n < |s.nodes| && m < |s.nodes| ::
          s.nodes[n].cpuNum == s.nodes[m].cpuNum ==> n == m)
  }

  /** What a thread knows about its node at each position. */
  ghost predicate PcInv(s: State, pc: Pc) {
    match pc
    case AcqInit(c) => forall n :: n in s.ring && n < |s.nodes| ==> s.nodes[n].cpuNum != c
    case AcqCount(c, n) => n in s.ring && n < |s.nodes| && s.nodes[n].cpuNum == c
    case AcqReturn(c, n) => n in s.ring && n < |s.nodes| && s.nodes[n].cpuNum == c
    case RelRead(n) => n in s.ring
    case RelRemove(n) => n in s.ring && n < |s.nodes| && s.nodes[n].users == 0
    case _ => true
  }

  /** A listed node may have no users only while the lock holder works on it. */
  predicate Working(pc: Pc, n: Node) {
    (pc.AcqCount? || pc.RelRead? || pc.RelRemove?) && pc.node == n
  }

  /** users counts the handles; a node is listed, being freed by one thread, or freed once;
      an unlisted node has no users. */
  ghost predicate NodeInv(s: State, n: Node) {
    if n < |s.nodes| then
      && s.nodes[n].users == Sum(Handle, s.threads, n)
      && s.nodes[n].frees + Sum(Reaper, s.threads, n) + (if n in s.ring then 1 else 0) == 1
      && (n !in s.ring ==> s.nodes[n].users == 0)
      && (n in s.ring && s.nodes[n].users == 0 ==>
            exists t :: 0 <= t < |s.threads| && Working(s.threads[t].pc, n))
    else
      Sum(Handle, s.threads, n) == 0 && Sum(Reaper, s.threads, n) == 0
  }

  ghost predicate Inv(s: State) {
    && LockInv(s)
    && RingInv(s)
    && (forall t :: 0 <= t < |s.threads| ==> PcInv(s, s.threads[t].pc))
    && (forall n: nat :: NodeInv(s, n))
  }

  lemma {:induction false} InitInv(n: nat)
    ensures Inv(Init(n))
  {
    forall k: nat ensures NodeInv(Init(n), k) {
      SumZero(Handle, Init(n).threads, k);
      SumZero(Reaper, Init(n).threads, k);
    }
  }

  /** The invariant makes every step memory safe. */
  lemma {:induction false} ListedIsLive(s: State)
    requires Inv(s)
    ensures RingLive(s) && forall n :: n in s.ring ==> Live(s.nodes, n)
  {
    forall i | 0 <= i < |s.ring| ensures Live(s.nodes, s.ring[i]) {
      assert s.ring[i] in s.ring && NodeInv(s, s.ring[i]);
    }
  }

  lemma {:induction false} InvPointersOk(s: State, t: nat)
    requires Inv(s) && t < |s.threads|
    ensures PointersOk(s, t)
  {
    ListedIsLive(s);
    var pc := s.threads[t].pc;
    assert PcInv(s, pc);
    if pc.RelCount? || pc.RelFree? {
      SumAtLeast(if pc.RelCount? then Handle else Reaper, s.threads, t, pc.node);
      assert NodeInv(s, pc.node);
    }
  }

  // ---------------------------------------------------------------- preservation

  /** s' is s after thread t moved from th to th', with the lock word following suit. */
  ghost predicate Moves(s: State, s': State, t: nat, th': Thread) {
    && t < |s.threads| && s'.threads == s.threads[t := th']
    && (InCritical(s.threads[t].pc) == InCritical(th'.pc) ==> s'.locked == s.locked)
    && (!InCritical(s.threads[t].pc) && InCritical(th'.pc) ==> !s.locked && s'.locked)
    && (InCritical(s.threads[t].pc) && !InCritical(th'.pc) ==> !s'.locked)
  }

  lemma {:induction false} MovesLock(s: State, s': State, t: nat, th': Thread)
    requires Moves(s, s', t, th') && LockInv(s)
    ensures LockInv(s')
  {
    if InCritical(th'.pc) {
      assert InCritical(s'.threads[t].pc);
    }
    forall u | 0 <= u < |s.threads| && u != t ensures s'.threads[u] == s.threads[u] {}
  }

  /** n's counters change exactly as the thread's share of them does. */
  ghost predicate NodeMoves(s: State, s': State, th: Thread, th': Thread, n: Node) {
    if n < |s.nodes| then
      && n < |s'.nodes|
      && s'.nodes[n].users - s.nodes[n].users == Weight(Handle, th', n) - Weight(Handle, th, n)
      && s'.nodes[n].frees + Weight(Reaper, th', n) + (if n in s'.ring then 1 else 0)
         == s.nodes[n].frees + Weight(Reaper, th, n) + (if n in s.ring then 1 else 0)
      && (n !in s'.ring ==> s'.nodes[n].users == 0)
      && (n in s'.ring && s'.nodes[n].users == 0 ==>
            Working(th'.pc, n) || (n in s.ring && s.nodes[n].users == 0 && !Working(th.pc, n)))
    else if n < |s'.nodes| then
      && s'.nodes[n].users == s'.nodes[n].frees == 0 && n in s'.ring && Working(th'.pc, n)
      && (forall kind :: Weight(kind, th', n) == Weight(kind, th, n))
    else
      forall kind :: Weight(kind, th', n) == Weight(kind, th, n)
  }

  lemma {:induction false} NodeMovesKeeps(s: State, s': State, t: nat, th': Thread, n: Node)
    requires t < |s.threads| && s'.threads == s.threads[t := th']
    requires NodeInv(s, n) && NodeMoves(s, s', s.threads[t], th', n)
    ensures NodeInv(s', n)
  {
    SumUpdate(Handle, s.threads, t, th', n);
    SumUpdate(Reaper, s.threads, t, th', n);
    assert s'.threads[t] == th';
    if n < |s.nodes| && n in s'.ring && s'.nodes[n].users == 0 && !Working(th'.pc, n) {
      var u :| 0 <= u < |s.threads| && Working(s.threads[u].pc, n);
      assert Working(s'.threads[u].pc, n);
    }
  }

  /** Threads other than t, none of them in the critical section, still know what they knew. */
  lemma {:induction false} OthersKeep(s: State, s': State, t: nat, th': Thread)
    requires Moves(s, s', t, th') && LockInv(s) && LockInv(s')
    requires forall u :: 0 <= u < |s.threads| ==> PcInv(s, s.threads[u].pc)
    requires InCritical(s.threads[t].pc) || InCritical(th'.pc) || SameList(s, s')
    ensures forall u :: 0 <= u < |s.threads| && u != t ==> PcInv(s', s'.threads[u].pc)
  {
    forall u | 0 <= u < |s.threads| && u != t ensures PcInv(s', s'.threads[u].pc) {
      assert PcInv(s, s.threads[u].pc) && s'.threads[u] == s.threads[u];
    }
  }

  /** The parts of the shared data that the positions speak about are unchanged. */
  ghost predicate SameList(s: State, s': State) {
    && s'.ring == s.ring && |s'.nodes| == |s.nodes|
    && forall n :: 0 <= n < |s.nodes| ==>
         s'.nodes[n].users == s.nodes[n].users && s'.nodes[n].cpuNum == s.nodes[n].cpuNum
  }

  lemma {:induction false} MoveKeeps(s: State, s': State, t: nat, th': Thread)
    requires Inv(s) && Moves(s, s', t, th')
    requires InCritical(s.threads[t].pc) || InCritical(th'.pc) || SameList(s, s')
    requires RingInv(s') && PcInv(s', th'.pc)
    requires forall n: nat :: NodeMoves(s, s', s.threads[t], th', n)
    ensures Inv(s')
  {
    MovesLock(s, s', t, th');
    OthersKeep(s, s', t, th');
    forall n: nat ensures NodeInv(s', n) {
      NodeMovesKeeps(s, s', t, th', n);
    }
  }

  /** A thread outside starts an acquisition. */
  lemma {:induction false} AcquireKeeps(s: State, t: nat, act: Action)
    requires Inv(s) && t < |s.threads| && s.threads[t].pc.Outside? && act.Acquire?
    ensures Inv(Step(s, t, act))
  {
    var s' := Step(s, t, act);
    forall n: nat ensures NodeMoves(s, s', s.threads[t], s'.threads[t], n) { assert NodeInv(s, n); }
    MoveKeeps(s, s', t, s'.threads[t]);
  }

  /** Of one handle more in hand, or on its way out of hand, the share is the same. */
  lemma {:induction false} HandleWeight(th: Thread, n0: Node, n: Node)
    requires th.pc.Outside? && n0 in th.held
    ensures var th' := Thread(RelLock(n0), th.held - multiset{n0});
      forall kind :: Weight(kind, th', n) == Weight(kind, th, n)
  {}

  /** A thread outside starts to give a handle back. */
  lemma {:induction false} ReleaseKeeps(s: State, t: nat, act: Action)
    requires Inv(s) && t < |s.threads| && s.threads[t].pc.Outside?
    requires act.Release? && act.node in s.threads[t].held
    ensures Inv(Step(s, t, act))
  {
    var s' := Step(s, t, act);
    forall n: nat ensures NodeMoves(s, s', s.threads[t], s'.threads[t], n) {
      assert NodeInv(s, n);
      HandleWeight(s.threads[t], act.node, n);
    }
    MoveKeeps(s, s', t, s'.threads[t]);
  }

  /** A thread outside starts a call, or stays outside. */
  lemma {:induction false} OutsideKeeps(s: State, t: nat, act: Action)
    requires Inv(s) && t < |s.threads| && s.threads[t].pc.Outside?
    ensures Inv(Step(s, t, act))
  {
    if act.Acquire? {
      AcquireKeeps(s, t, act);
    } else if act.Release? && act.node in s.threads[t].held {
      ReleaseKeeps(s, t, act);
    }
  }

  lemma {:induction false} LockKeeps(s: State, t: nat, act: Action)
    requires Inv(s) && t < |s.threads| && (s.threads[t].pc.AcqLock? || s.threads[t].pc.RelLock?)
    ensures Inv(Step(s, t, act))
  {
    if !s.locked {
      var s' := Step(s, t, act);
      assert forall n: nat :: NodeInv(s, n) ==> NodeMoves(s, s', s.threads[t], s'.threads[t], n);
      MoveKeeps(s, s', t, s'.threads[t]);
    }
  }

  lemma {:induction false} SearchKeeps(s: State, t: nat, act: Action)
    requires Inv(s) && t < |s.threads| && s.threads[t].pc.AcqSearch? && PointersOk(s, t)
    ensures Inv(Step(s, t, act))
  {
    var s' := Step(s, t, act);
    var c := s.threads[t].pc.cpuNum;
    var k := Find(s.ring, s.nodes, c);
    if k < |s.ring| {
      RotateKeeps(s.ring, k);
      assert s.ring[k] in s.ring;
      assert s'.ring == RotateTo(s.ring, k) && s'.nodes == s.nodes;
    } else {
      assert s'.ring == s.ring && s'.nodes == s.nodes;
      assert PcInv(s', AcqInit(c));
    }
    NodesStay(s, s', s.threads[t], s'.threads[t]);
    MoveKeeps(s, s', t, s'.threads[t]);
  }

  /** Nothing happens to any node when the thread only looks at them. */
  lemma {:induction false} NodesStay(s: State, s': State, th: Thread, th': Thread)
    requires s'.nodes == s.nodes && th'.held == th.held
    requires forall n :: n in s'.ring <==> n in s.ring
    requires th.pc.AcqSearch? && (th'.pc.AcqInit? || th'.pc.AcqCount?)
    requires forall n: nat :: NodeInv(s, n)
    ensures forall n: nat :: NodeMoves(s, s', th, th', n)
  {
    assert forall n: nat :: NodeInv(s, n) ==> NodeMoves(s, s', th, th', n);
  }

  /** The new node is the only one that moves. */
  lemma {:induction false} InitNode(s: State, t: nat, act: Action, n: nat)
    requires Inv(s) && t < |s.threads| && s.threads[t].pc.AcqInit? && PointersOk(s, t)
    ensures var s' := Step(s, t, act); NodeMoves(s, s', s.threads[t], s'.threads[t], n)
  {
    assert NodeInv(s, n) && |s.nodes| !in s.ring;
    InsertKeeps(s.ring, |s.nodes|);
  }

  lemma {:induction false} InitRing(s: State, t: nat, act: Action)
    requires Inv(s) && t < |s.threads| && s.threads[t].pc.AcqInit? && PointersOk(s, t)
    ensures RingInv(Step(s, t, act))
  {
    assert |s.nodes| !in s.ring && PcInv(s, s.threads[t].pc);
    InsertKeeps(s.ring, |s.nodes|);
  }

  lemma {:induction false} InitKeeps(s: State, t: nat, act: Action)
    requires Inv(s) && t < |s.threads| && s.threads[t].pc.AcqInit? && PointersOk(s, t)
    ensures Inv(Step(s, t, act))
  {
    var s' := Step(s, t, act);
    InitRing(s, t, act);
    InsertKeeps(s.ring, |s.nodes|);
    forall n: nat ensures NodeMoves(s, s', s.threads[t], s'.threads[t], n) { InitNode(s, t, act, n); }
    MoveKeeps(s, s', t, s'.threads[t]);
  }

  lemma {:induction false} CountKeeps(s: State, t: nat, act: Action)
    requires Inv(s) && t < |s.threads| && (s.threads[t].pc.AcqCount? || s.threads[t].pc.RelCount?)
    ensures PointersOk(s, t) && Inv(Step(s, t, act))
  {
    InvPointersOk(s, t);
    var s', n0 := Step(s, t, act), s.threads[t].pc.node;
    assert PcInv(s, s.threads[t].pc) && NodeInv(s, n0);
    if s.threads[t].pc.RelCount? {
      SumAtLeast(Handle, s.threads, t, n0);
      assert n0 in s.ring;
    }
    assert forall n: nat :: NodeInv(s, n) ==> NodeMoves(s, s', s.threads[t], s'.threads[t], n);
    MoveKeeps(s, s', t, s'.threads[t]);
  }

  lemma {:induction false} ReturnKeeps(s: State, t: nat, act: Action)
    requires Inv(s) && t < |s.threads| && s.threads[t].pc.AcqReturn?
    ensures PointersOk(s, t) && Inv(Step(s, t, act))
  {
    InvPointersOk(s, t);
    var s' := Step(s, t, act);
    assert forall n: nat :: NodeInv(s, n) ==> NodeMoves(s, s', s.threads[t], s'.threads[t], n);
    MoveKeeps(s, s', t, s'.threads[t]);
  }

  lemma {:induction false} ReadKeeps(s: State, t: nat, act: Action)
    requires Inv(s) && t < |s.threads| && s.threads[t].pc.RelRead?
    ensures PointersOk(s, t) && Inv(Step(s, t, act))
  {
    InvPointersOk(s, t);
    var s' := Step(s, t, act);
    assert PcInv(s, s.threads[t].pc);
    assert forall n: nat :: NodeInv(s, n) ==> NodeMoves(s, s', s.threads[t], s'.threads[t], n);
    MoveKeeps(s, s', t, s'.threads[t]);
  }

  lemma {:induction false} RemoveKeeps(s: State, t: nat, act: Action)
    requires Inv(s) && t < |s.threads| && s.threads[t].pc.RelRemove?
    ensures PointersOk(s, t) && Inv(Step(s, t, act))
  {
    InvPointersOk(s, t);
    var s', n0 := Step(s, t, act), s.threads[t].pc.node;
    assert PcInv(s, s.threads[t].pc);
    WithoutKeeps(s.ring, IndexOf(s.ring, n0));
    assert forall i :: 0 <= i < |s'.ring| ==> s'.ring[i] in s.ring;
    assert forall n: nat :: NodeInv(s, n) ==> NodeMoves(s, s', s.threads[t], s'.threads[t], n);
    MoveKeeps(s, s', t, s'.threads[t]);
  }

  lemma {:induction false} UnlockKeeps(s: State, t: nat, act: Action)
    requires Inv(s) && t < |s.threads| && (s.threads[t].pc.AcqUnlock? || s.threads[t].pc.RelUnlock?)
    ensures Inv(Step(s, t, act))
  {
    var s' := Step(s, t, act);
    assert forall n: nat :: NodeInv(s, n) ==> NodeMoves(s, s', s.threads[t], s'.threads[t], n);
    MoveKeeps(s, s', t, s'.threads[t]);
  }

  lemma {:induction false} FreeKeeps(s: State, t: nat, act: Action)
    requires Inv(s) && t < |s.threads| && s.threads[t].pc.RelFree?
    ensures PointersOk(s, t) && Inv(Step(s, t, act))
  {
    InvPointersOk(s, t);
    var s' := Step(s, t, act);
    assert forall n: nat :: NodeInv(s, n) ==> NodeMoves(s, s', s.threads[t], s'.threads[t], n);
    MoveKeeps(s, s', t, s'.threads[t]);
  }

  lemma {:induction false} StepKeeps(s: State, t: nat, act: Action)
    requires Inv(s) && t < |s.threads|
    ensures PointersOk(s, t) && Inv(Step(s, t, act))
  {
    InvPointersOk(s, t);
    match s.threads[t].pc
    case Outside => OutsideKeeps(s, t, act);
    case AcqLock(_) => LockKeeps(s, t, act);
    case AcqSearch(_) => SearchKeeps(s, t, act);
    case AcqInit(_) => InitKeeps(s, t, act);
    case AcqCount(_, _) => CountKeeps(s, t, act);
    case AcqReturn(_, _) => ReturnKeeps(s, t, act);
    case AcqUnlock => UnlockKeeps(s, t, act);
    case RelLock(_) => LockKeeps(s, t, act);
    case RelCount(_) => CountKeeps(s, t, act);
    case RelRead(_) => ReadKeeps(s, t, act);
    case RelRemove(_) => RemoveKeeps(s, t, act);
    case RelUnlock(_, _) => UnlockKeeps(s, t, act);
    case RelFree(_) => FreeKeeps(s, t, act);
  }

  // ---------------------------------------------------------------- whole runs

  /** The state after the threads have followed a schedule, which says who moves next and what a
      thread outside starts.  Entries that name no thread, and steps that would follow a
      dead pointer, are skipped; RunIsSafe shows the latter never come up. */
  function After(s: State, schedule: seq<(nat, Action)>): State {
    if schedule == [] then s else
      var s' := After(s, schedule[..|schedule| - 1]);
      var (t, act) := schedule[|schedule| - 1];
      if t < |s'.threads| && PointersOk(s', t) then Step(s', t, act) else s'
  }

  function Run(n: nat, schedule: seq<(nat, Action)>): State {
    After(Init(n), schedule)
  }

  lemma {:induction false} AfterInv(s: State, schedule: seq<(nat, Action)>)
    requires Inv(s)
    ensures Inv(After(s, schedule)) && |After(s, schedule).threads| == |s.threads|
  {
    if schedule != [] {
      AfterInv(s, schedule[..|schedule| - 1]);
      var s' := After(s, schedule[..|schedule| - 1]);
      var (t, act) := schedule[|schedule| - 1];
      if t < |s'.threads| { StepKeeps(s', t, act); }
    }
  }

  lemma {:induction false} RunInv(n: nat, schedule: seq<(nat, Action)>)
    ensures Inv(Run(n, schedule))
  {
    InitInv(n);
    AfterInv(Init(n), schedule);
  }

  /** In every interleaving no step follows a pointer to memory that was freed or never allocated,
      the lock admits one thread, and it is set because of that thread. */
  lemma {:induction false} RunIsSafe(n: nat, schedule: seq<(nat, Action)>)
    ensures var s := Run(n, schedule);
      && (forall t :: 0 <= t < |s.threads| ==> PointersOk(s, t))
      && (forall t, u | 0 <= t < |s.threads| && 0 <= u < |s.threads| ::
            InCritical(s.threads[t].pc) && InCritical(s.threads[u].pc) ==> t == u)
      && (s.locked <==> exists t :: 0 <= t < |s.threads| && InCritical(s.threads[t].pc))
  {
    RunInv(n, schedule);
    var s := Run(n, schedule);
    forall t | 0 <= t < |s.threads| ensures PointersOk(s, t) {
      InvPointersOk(s, t);
    }
  }

  /** num_users is the number of outstanding handles, and whenever the lock is free the ring
      lists exactly the nodes that have one. */
  lemma {:induction false} UsersAreHandles(n: nat, schedule: seq<(nat, Action)>)
    ensures var s := Run(n, schedule);
      forall k :: 0 <= k < |s.nodes| ==>
        && s.nodes[k].users == Sum(Handle, s.threads, k)
        && (!s.locked ==> (k in s.ring <==> s.nodes[k].users >= 1))
  {
    RunInv(n, schedule);
    var s := Run(n, schedule);
    forall k: nat | k < |s.nodes|
      ensures s.nodes[k].users == Sum(Handle, s.threads, k)
      ensures !s.locked ==> (k in s.ring <==> s.nodes[k].users >= 1)
    {
      assert NodeInv(s, k);
    }
  }

  /** The thread owns n or is at a point from which it still follows its pointer to n. */
  predicate Reaches(th: Thread, n: Node) {
    || th.held[n] > 0
    || ((th.pc.AcqCount? || th.pc.AcqReturn? || th.pc.RelLock? || th.pc.RelCount? || th.pc.RelRead?
         || th.pc.RelRemove? || th.pc.RelFree?) && th.pc.node == n)
    || th.pc == RelUnlock(n, 0)
  }

  /** A node is freed at most once; a thread about to free a node is the only way left to reach
      it, and once it is freed there is none. */
  lemma {:induction false} FreedOnceAndLast(n: nat, schedule: seq<(nat, Action)>)
    ensures var s := Run(n, schedule);
      && (forall k :: 0 <= k < |s.nodes| ==> 0 <= s.nodes[k].frees <= 1)
      && (forall k, t | 0 <= k < |s.nodes| && 0 <= t < |s.threads| && s.threads[t].pc == RelFree(k) ::
            && s.nodes[k].frees == 0 && k !in s.ring && s.threads[t].held[k] == 0
            && forall u :: 0 <= u < |s.threads| && u != t ==> !Reaches(s.threads[u], k))
      && (forall k | 0 <= k < |s.nodes| && s.nodes[k].frees == 1 ::
            k !in s.ring && forall u :: 0 <= u < |s.threads| ==> !Reaches(s.threads[u], k))
  {
    RunInv(n, schedule);
    var s := Run(n, schedule);
    forall k: nat | k < |s.nodes|
      ensures 0 <= s.nodes[k].frees <= 1
    {
      assert NodeInv(s, k);
    }
    forall k: nat, t: nat | k < |s.nodes| && t < |s.threads| && s.threads[t].pc == RelFree(k)
      ensures s.nodes[k].frees == 0 && k !in s.ring && s.threads[t].held[k] == 0
      ensures forall u :: 0 <= u < |s.threads| && u != t ==> !Reaches(s.threads[u], k)
    {
      ReaperIsLast(s, k, t);
    }
    forall k: nat | k < |s.nodes| && s.nodes[k].frees == 1
      ensures k !in s.ring && forall u :: 0 <= u < |s.threads| ==> !Reaches(s.threads[u], k)
    {
      FreedIsGone(s, k);
    }
  }

  lemma {:induction false} ReaperIsLast(s: State, k: nat, t: nat)
    requires Inv(s) && k < |s.nodes| && t < |s.threads| && s.threads[t].pc == RelFree(k)
    ensures s.nodes[k].frees == 0 && k !in s.ring && s.threads[t].held[k] == 0
    ensures forall u :: 0 <= u < |s.threads| && u != t ==> !Reaches(s.threads[u], k)
  {
    assert NodeInv(s, k);
    SumAtLeast(Reaper, s.threads, t, k);
    SumAtLeast(Handle, s.threads, t, k);
    forall u: nat | u < |s.threads| && u != t ensures !Reaches(s.threads[u], k) {
      assert PcInv(s, s.threads[u].pc);
      SumAtLeast(Handle, s.threads, u, k);
      SumAtLeastTwo(Reaper, s.threads, t, u, k);
    }
  }

  lemma {:induction false} FreedIsGone(s: State, k: nat)
    requires Inv(s) && k < |s.nodes| && s.nodes[k].frees == 1
    ensures k !in s.ring && forall u :: 0 <= u < |s.threads| ==> !Reaches(s.threads[u], k)
  {
    assert NodeInv(s, k);
    forall u: nat | u < |s.threads| ensures !Reaches(s.threads[u], k) {
      assert PcInv(s, s.threads[u].pc);
      SumAtLeast(Handle, s.threads, u, k);
      SumAtLeast(Reaper, s.threads, u, k);
    }
  }

  /** Two live handles for the same cpu are the same node, whoever holds them. */
  lemma {:induction false} OneNodePerCpu(n: nat, schedule: seq<(nat, Action)>, t: nat, u: nat, k: Node, m: Node)
    requires t < |Run(n, schedule).threads| && u < |Run(n, schedule).threads|
    requires k in Run(n, schedule).threads[t].held && m in Run(n, schedule).threads[u].held
    ensures k < |Run(n, schedule).nodes| && m < |Run(n, schedule).nodes|
    ensures Run(n, schedule).nodes[k].cpuNum == Run(n, schedule).nodes[m].cpuNum ==> k == m
  {
    RunInv(n, schedule);
    var s := Run(n, schedule);
    HeldIsListed(s, t, k);
    HeldIsListed(s, u, m);
  }

  lemma {:induction false} HeldIsListed(s: State, t: nat, k: Node)
    requires Inv(s) && t < |s.threads| && k in s.threads[t].held
    ensures k < |s.nodes| && k in s.ring
  {
    SumAtLeast(Handle, s.threads, t, k);
    assert NodeInv(s, k);
  }

  /** A call for a cpu hands out a listed node of that cpu. */
  lemma {:induction false} HandleIsForCpu(n: nat, schedule: seq<(nat, Action)>, t: nat)
    requires t < |Run(n, schedule).threads| && Run(n, schedule).threads[t].pc.AcqReturn?
    ensures var s := Run(n, schedule);
      var pc := s.threads[t].pc;
      pc.node in s.ring && pc.node < |s.nodes| && s.nodes[pc.node].cpuNum == pc.cpuNum
  {
    RunInv(n, schedule);
    assert PcInv(Run(n, schedule), Run(n, schedule).threads[t].pc);
  }

  /** Nothing leaks: with every call finished and every handle given back, the ring is empty,
      the lock free, and every node ever allocated has been freed exactly once. */
  lemma {:induction false} NothingLeaks(n: nat, schedule: seq<(nat, Action)>)
    requires forall t :: 0 <= t < |Run(n, schedule).threads| ==>
      Run(n, schedule).threads[t] == Thread(Outside, multiset{})
    ensures var s := Run(n, schedule);
      s.ring == [] && !s.locked && forall k :: 0 <= k < |s.nodes| ==> s.nodes[k].frees == 1
  {
    RunInv(n, schedule);
    var s := Run(n, schedule);
    assert s.ring != [] ==> s.ring[0] < |s.nodes| && s.ring[0] in s.ring;
    forall k: nat | k < |s.nodes| ensures k !in s.ring && s.nodes[k].frees == 1 {
      assert NodeInv(s, k);
      SumZero(Handle, s.threads, k);
      SumZero(Reaper, s.threads, k);
    }
  }

  // ---------------------------------------------------------------- progress

  /** The state after thread t has gone on n times, nobody else moving. */
  function Alone(s: State, t: nat, n: nat): State
    decreases n
  {
    if n > 0 && t < |s.threads| && PointersOk(s, t) then Alone(Step(s, t, Continue), t, n - 1) else s
  }

  lemma {:induction false} AloneMoves(s: State, t: nat, n: nat)
    requires Inv(s) && t < |s.threads| && n > 0
    ensures PointersOk(s, t) && Inv(Step(s, t, Continue)) && Alone(s, t, n) == Alone(Step(s, t, Continue), t, n - 1)
  {
    StepKeeps(s, t, Continue);
  }

  lemma {:induction false} AloneOutside(s: State, t: nat, n: nat)
    requires t < |s.threads| && s.threads[t].pc.Outside?
    ensures Alone(s, t, n) == s
  {
    if n > 0 { AloneOutside(s, t, n - 1); }
  }

  /** A free lock is taken at the first attempt. */
  lemma {:induction false} FreeLockIsTaken(s: State, t: nat, act: Action)
    requires Inv(s) && t < |s.threads| && !s.locked
    requires s.threads[t].pc.AcqLock? || s.threads[t].pc.RelLock?
    ensures PointersOk(s, t)
    ensures var s' := Step(s, t, act);
      var pc := s.threads[t].pc;
      && s'.locked && s'.ring == s.ring && s'.nodes == s.nodes
      && s'.threads == s.threads[t := Thread(s'.threads[t].pc, s.threads[t].held)]
      && s'.threads[t].pc == if pc.AcqLock? then AcqSearch(pc.cpuNum) else RelCount(pc.node)
  {}

  /** From the state s thread t has obtained a handle for node k, of cpu c, and is done. */
  ghost predicate Acquired(s: State, s': State, t: nat, c: nat, k: Node) {
    && t < |s.threads|
    && s'.threads == s.threads[t := Thread(Outside, s.threads[t].held + multiset{k})]
    && !s'.locked && s'.ring != [] && s'.ring[0] == k
    && (forall x :: x in s'.ring <==> x == k || x in s.ring)
    && if k < |s.nodes| then
         && k in s.ring && s.nodes[k].cpuNum == c
         && s'.nodes == s.nodes[k := s.nodes[k].(users := s.nodes[k].users + 1)]
       else
         && k == |s.nodes| && s'.nodes == s.nodes + [NodeInfo(c, 1, 0)]
         && forall x :: x in s.ring && x < |s.nodes| ==> s.nodes[x].cpuNum != c
  }

  /** The last three steps of an acquisition: counting, returning, unlocking. */
  lemma {:induction false} AloneFromCount(s: State, t: nat, m: nat)
    requires Inv(s) && t < |s.threads| && s.threads[t].pc.AcqCount? && m >= 3
    ensures var k := s.threads[t].pc.node;
      && k < |s.nodes|
      && Alone(s, t, m) ==
         State(false, s.ring, s.nodes[k := s.nodes[k].(users := s.nodes[k].users + 1)],
               s.threads[t := Thread(Outside, s.threads[t].held + multiset{k})])
  {
    AloneMoves(s, t, m);
    var s1 := Step(s, t, Continue);
    AloneMoves(s1, t, m - 1);
    var s2 := Step(s1, t, Continue);
    AloneMoves(s2, t, m - 2);
    AloneOutside(Step(s2, t, Continue), t, m - 3);
  }

  lemma {:induction false} AloneFromInit(s: State, t: nat, m: nat)
    requires Inv(s) && t < |s.threads| && s.threads[t].pc.AcqInit? && m >= 4
    ensures Acquired(s, Alone(s, t, m), t, s.threads[t].pc.cpuNum, |s.nodes|)
  {
    AloneMoves(s, t, m);
    AloneFromCount(Step(s, t, Continue), t, m - 1);
    assert PcInv(s, s.threads[t].pc) && |s.nodes| !in s.ring;
    InsertKeeps(s.ring, |s.nodes|);
  }

  lemma {:induction false} AloneFound(s: State, t: nat, m: nat, i: nat)
    requires Inv(s) && t < |s.threads| && s.threads[t].pc.AcqSearch? && m >= 5
    requires i < |s.ring| && i == Find(s.ring, s.nodes, s.threads[t].pc.cpuNum)
    ensures Acquired(s, Alone(s, t, m), t, s.threads[t].pc.cpuNum, s.ring[i])
  {
    AloneMoves(s, t, m);
    AloneFromCount(Step(s, t, Continue), t, m - 1);
    RotateKeeps(s.ring, i);
    assert s.ring[i] in s.ring;
  }

  lemma {:induction false} AloneFromSearch(s: State, t: nat, m: nat)
    requires Inv(s) && t < |s.threads| && s.threads[t].pc.AcqSearch? && m >= 5
    ensures exists k :: Acquired(s, Alone(s, t, m), t, s.threads[t].pc.cpuNum, k)
  {
    var c := s.threads[t].pc.cpuNum;
    AloneMoves(s, t, m);
    var s1 := Step(s, t, Continue);
    var i := Find(s.ring, s.nodes, c);
    if i < |s.ring| {
      AloneFound(s, t, m, i);
      assert Acquired(s, Alone(s, t, m), t, c, s.ring[i]);
    } else {
      AloneFromInit(s1, t, m - 1);
      assert Acquired(s, Alone(s, t, m), t, c, |s.nodes|);
    }
  }

  /** An acquisition that finds the lock free and is left to itself is over within seven steps:
      the caller has one more handle, for a live node of the cpu it asked for, old if one was
      listed and new otherwise. */
  lemma {:induction false} AcquireCompletes(s: State, t: nat, c: nat)
    requires Inv(s) && t < |s.threads| && s.threads[t].pc.Outside? && !s.locked
    ensures exists k :: Acquired(s, Alone(Step(s, t, Acquire(c)), t, 6), t, c, k)
  {
    StepKeeps(s, t, Acquire(c));
    var s1 := Step(s, t, Acquire(c));
    AloneMoves(s1, t, 6);
    var s2 := Step(s1, t, Continue);
    AloneFromSearch(s2, t, 5);
    var k :| Acquired(s2, Alone(s2, t, 5), t, c, k);
    AcquiredFromStart(s, s2, Alone(s1, t, 6), t, c, k);
  }

  lemma {:induction false} AcquiredFromStart(s: State, s1: State, s': State, t: nat, c: nat, k: Node)
    requires t < |s.threads| && s1.threads == s.threads[t := Thread(AcqSearch(c), s.threads[t].held)]
    requires s1.ring == s.ring && s1.nodes == s.nodes && Acquired(s1, s', t, c, k)
    ensures Acquired(s, s', t, c, k)
  {}

  /** From the state s thread t has given back a handle for node k, has the others still in hand,
      and is done. */
  ghost predicate Released(s: State, s': State, t: nat, k: Node, held: multiset<Node>) {
    && t < |s.threads| && k < |s.nodes|
    && s'.threads == s.threads[t := Thread(Outside, held)]
    && !s'.locked
    && if s.nodes[k].users > 1 then
         s'.ring == s.ring && s'.nodes == s.nodes[k := s.nodes[k].(users := s.nodes[k].users - 1)]
       else
         && (forall x :: x in s'.ring <==> x != k && x in s.ring)
         && s'.nodes == s.nodes[k := NodeInfo(s.nodes[k].cpuNum, 0, 1)]
  }

  /** Unlocking, and freeing if there are no users. */
  lemma {:induction false} AloneFromRelUnlock(s: State, t: nat, m: nat)
    requires Inv(s) && t < |s.threads| && s.threads[t].pc.RelUnlock? && m >= 2
    requires s.threads[t].pc.node < |s.nodes|
    ensures var pc := s.threads[t].pc;
      Alone(s, t, m) ==
        State(false, s.ring,
              if pc.users == 0 then
                s.nodes[pc.node := s.nodes[pc.node].(frees := s.nodes[pc.node].frees + 1)]
              else
                s.nodes,
              s.threads[t := Thread(Outside, s.threads[t].held)])
  {
    AloneMoves(s, t, m);
    var s1 := Step(s, t, Continue);
    if s.threads[t].pc.users == 0 {
      AloneMoves(s1, t, m - 1);
      AloneOutside(Step(s1, t, Continue), t, m - 2);
    } else {
      AloneOutside(s1, t, m - 1);
    }
  }

  lemma {:induction false} AloneFromRemove(s: State, t: nat, m: nat)
    requires Inv(s) && t < |s.threads| && s.threads[t].pc.RelRemove? && m >= 3
    ensures var k := s.threads[t].pc.node;
      && k < |s.nodes| && s.nodes[k].users == 0 && s.nodes[k].frees == 0
      && k in s.ring
      && Alone(s, t, m) ==
         State(false, Without(s.ring, IndexOf(s.ring, k)), s.nodes[k := NodeInfo(s.nodes[k].cpuNum, 0, 1)],
               s.threads[t := Thread(Outside, s.threads[t].held)])
  {
    var k := s.threads[t].pc.node;
    assert PcInv(s, s.threads[t].pc) && NodeInv(s, k);
    AloneMoves(s, t, m);
    AloneFromRelUnlock(Step(s, t, Continue), t, m - 1);
  }

  /** Reading the count, and what follows from it. */
  lemma {:induction false} AloneFromRead(s: State, t: nat, m: nat)
    requires Inv(s) && t < |s.threads| && s.threads[t].pc.RelRead? && m >= 4
    ensures var k := s.threads[t].pc.node;
      && k < |s.nodes| && k in s.ring
      && Alone(s, t, m) ==
         State(false, if s.nodes[k].users == 0 then Without(s.ring, IndexOf(s.ring, k)) else s.ring,
               if s.nodes[k].users == 0 then s.nodes[k := NodeInfo(s.nodes[k].cpuNum, 0, 1)] else s.nodes,
               s.threads[t := Thread(Outside, s.threads[t].held)])
  {
    assert PcInv(s, s.threads[t].pc);
    AloneMoves(s, t, m);
    var s1 := Step(s, t, Continue);
    if s.nodes[s.threads[t].pc.node].users == 0 {
      AloneFromRemove(s1, t, m - 1);
    } else {
      AloneFromRelUnlock(s1, t, m - 1);
    }
  }

  lemma {:induction false} AloneFromRelCount(s: State, t: nat, m: nat)
    requires Inv(s) && t < |s.threads| && s.threads[t].pc.RelCount? && m >= 5
    ensures Released(s, Alone(s, t, m), t, s.threads[t].pc.node, s.threads[t].held)
  {
    var k := s.threads[t].pc.node;
    AloneMoves(s, t, m);
    assert NodeInv(s, k);
    SumAtLeast(Handle, s.threads, t, k);
    AloneFromRead(Step(s, t, Continue), t, m - 1);
    WithoutKeeps(s.ring, IndexOf(s.ring, k));
  }

  /** Giving a handle back, with the lock free and left to itself, is over within seven steps: the
      node has one user less, and if that was the last it is unlisted and freed, once. */
  lemma {:induction false} ReleaseCompletes(s: State, t: nat, k: Node)
    requires Inv(s) && t < |s.threads| && s.threads[t].pc.Outside? && !s.locked && k in s.threads[t].held
    ensures Released(s, Alone(Step(s, t, Release(k)), t, 6), t, k, s.threads[t].held - multiset{k})
  {
    StepKeeps(s, t, Release(k));
    var s1 := Step(s, t, Release(k));
    AloneMoves(s1, t, 6);
    AloneFromRelCount(Step(s1, t, Continue), t, 5);
  }

  /** How many of its own steps a thread inside the lock needs at most to give it up. */
  function StepsLeft(pc: Pc): nat {
    match pc
    case AcqSearch(_) => 5
    case AcqInit(_) => 4
    case AcqCount(_, _) => 3
    case AcqReturn(_, _) => 2
    case AcqUnlock => 1
    case RelCount(_) => 4
    case RelRead(_) => 3
    case RelRemove(_) => 2
    case RelUnlock(_, _) => 1
    case _ => 0
  }

  /** How often a schedule moves thread t. */
  function StepsOf(schedule: seq<(nat, Action)>, t: nat): nat {
    if schedule == [] then 0 else
      StepsOf(schedule[..|schedule| - 1], t) + if schedule[|schedule| - 1].0 == t then 1 else 0
  }

  /** A step of the holder brings it closer to giving the lock up, or gives it up; a step of any
      other thread neither moves the holder nor touches the lock. */
  lemma {:induction false} HolderStep(s: State, t: nat, u: nat, act: Action)
    requires Inv(s) && t < |s.threads| && u < |s.threads| && InCritical(s.threads[t].pc)
    ensures PointersOk(s, u)
    ensures var s' := Step(s, u, act);
      if u != t then s'.locked && s'.threads[t] == s.threads[t]
      else if s'.locked then
        InCritical(s'.threads[t].pc) && StepsLeft(s'.threads[t].pc) < StepsLeft(s.threads[t].pc)
      else !InCritical(s'.threads[t].pc)
  {
    InvPointersOk(s, u);
    assert s.locked;
    assert u != t ==> !InCritical(s.threads[u].pc);
  }

  /** As long as the lock has not been given up, its holder has moved fewer times than it needs. */
  lemma {:induction false} HolderMoves(s: State, schedule: seq<(nat, Action)>, t: nat)
    requires Inv(s) && t < |s.threads| && InCritical(s.threads[t].pc)
    requires forall j :: 0 <= j <= |schedule| ==> After(s, schedule[..j]).locked
    ensures var s' := After(s, schedule);
      && Inv(s') && |s'.threads| == |s.threads| && InCritical(s'.threads[t].pc)
      && StepsLeft(s'.threads[t].pc) + StepsOf(schedule, t) <= StepsLeft(s.threads[t].pc)
  {
    if schedule != [] {
      var n := |schedule| - 1;
      var before := schedule[..n];
      forall j | 0 <= j <= n ensures After(s, before[..j]).locked {
        assert before[..j] == schedule[..j];
      }
      HolderMoves(s, before, t);
      assert schedule[..n + 1] == schedule;
      AfterInv(s, schedule);
      if schedule[n].0 < |s.threads| {
        HolderStep(After(s, before), t, schedule[n].0, schedule[n].1);
      }
    }
  }

  /** Whatever the other threads do, a thread that holds the lock has given it up by the time it
      has moved five times. */
  lemma {:induction false} HolderGivesUp(s: State, schedule: seq<(nat, Action)>, t: nat)
    requires Inv(s) && t < |s.threads| && InCritical(s.threads[t].pc)
    requires StepsOf(schedule, t) >= 5
    ensures exists j :: 0 <= j <= |schedule| && !After(s, schedule[..j]).locked
  {
    if forall j :: 0 <= j <= |schedule| ==> After(s, schedule[..j]).locked {
      HolderMoves(s, schedule, t);
    }
  }

  /** A thread that a schedule does not move stays where it is. */
  lemma {:induction false} UnmovedStays(s: State, schedule: seq<(nat, Action)>, t: nat)
    requires Inv(s) && t < |s.threads| && StepsOf(schedule, t) == 0
    ensures var s' := After(s, schedule);
      Inv(s') && |s'.threads| == |s.threads| && s'.threads[t] == s.threads[t]
  {
    AfterInv(s, schedule);
    if schedule != [] {
      UnmovedStays(s, schedule[..|schedule| - 1], t);
    }
  }

  /** Nothing but one thread moving. */
  function Only(u: nat, n: nat): seq<(nat, Action)> {
    seq(n, _ => (u, Continue))
  }

  lemma {:induction false} StepsOfOnly(u: nat, n: nat, t: nat)
    ensures StepsOf(Only(u, n), t) == if t == u then n else 0
  {
    if n > 0 {
      assert Only(u, n)[..n - 1] == Only(u, n - 1);
      StepsOfOnly(u, n - 1, t);
    }
  }

  /** There is no deadlock: at most six steps take a waiting thread inside the lock. */
  lemma {:induction false} WaitingCanEnter(s: State, t: nat)
    requires Inv(s) && t < |s.threads| && (s.threads[t].pc.AcqLock? || s.threads[t].pc.RelLock?)
    ensures exists schedule :: |schedule| <= 6 && Inside(After(s, schedule), t)
  {
    if s.locked {
      var u, j := LockComesFree(s, t);
      EntersNext(s, Only(u, j), t);
    } else {
      EntersNext(s, [], t);
    }
  }

  /** The holder alone gives the lock up, and the waiting thread still waits. */
  lemma {:induction false} LockComesFree(s: State, t: nat) returns (u: nat, j: nat)
    requires Inv(s) && t < |s.threads| && !InCritical(s.threads[t].pc) && s.locked
    ensures j <= 5
    ensures var s' := After(s, Only(u, j));
      Inv(s') && |s'.threads| == |s.threads| && s'.threads[t] == s.threads[t] && !s'.locked
  {
    u :| u < |s.threads| && InCritical(s.threads[u].pc);
    StepsOfOnly(u, 5, u);
    HolderGivesUp(s, Only(u, 5), u);
    j :| j <= 5 && !After(s, Only(u, 5)[..j]).locked;
    assert Only(u, 5)[..j] == Only(u, j);
    StepsOfOnly(u, j, t);
    UnmovedStays(s, Only(u, j), t);
  }

  predicate Inside(s: State, t: nat) {
    t < |s.threads| && InCritical(s.threads[t].pc)
  }

  lemma {:induction false} EntersNext(s: State, schedule: seq<(nat, Action)>, t: nat)
    requires var s' := After(s, schedule);
      && Inv(s') && t < |s'.threads| && !s'.locked
      && (s'.threads[t].pc.AcqLock? || s'.threads[t].pc.RelLock?)
    ensures Inside(After(s, schedule + [(t, Continue)]), t)
  {
    var longer := schedule + [(t, Continue)];
    assert longer[..|longer| - 1] == schedule;
    FreeLockIsTaken(After(s, schedule), t, Continue);
  }
}
