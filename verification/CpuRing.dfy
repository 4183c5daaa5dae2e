/** The cpu list of src/cpus.c: a circular singly linked list with a head that moves. */
module CpuRing {
  import opened Counting
  import opened Rings

  class CpuInfo {
    const cpuNum: nat
    var next: CpuInfo?
    var numUsers: int

    constructor (cpuNum: nat)
      ensures this.cpuNum == cpuNum && numUsers == 0 && next == null
    {
      this.cpuNum := cpuNum;
      next, numUsers := null, 0;
    }
  }

  ghost function Succ(ring: seq<CpuInfo>, i: nat): CpuInfo
    requires i < |ring|
  {
    if i + 1 < |ring| then ring[i + 1] else ring[0]
  }

  /** The next pointers follow the sequence and close the ring. */
  ghost predicate Linked(ring: seq<CpuInfo>)
    reads ring
  {
    forall i :: 0 <= i < |ring| ==> ring[i].next == Succ(ring, i)
  }

  ghost predicate DistinctNumbers(ring: seq<CpuInfo>) {
    forall i, j :: 0 <= i < |ring| && 0 <= j < |ring| && i != j ==> ring[i].cpuNum != ring[j].cpuNum
  }

  ghost predicate Lists(ring: seq<CpuInfo>, cpuNum: nat) {
    exists i :: 0 <= i < |ring| && ring[i].cpuNum == cpuNum
  }

  class CpuList {
    var head: CpuInfo?
    ghost var ring: seq<CpuInfo>

    ghost predicate Valid()
      reads this, ring
    {
      && (head == null <==> ring == [])
      && (ring != [] ==> head == ring[0])
      && Distinct(ring)
      && DistinctNumbers(ring)
      && Linked(ring)
    }

    constructor ()
      ensures Valid() && ring == []
    {
      head, ring := null, [];
    }

    /** The walk once around the ring for an entry with this number; k is where it ends. */
    method FindCpu(cpuNum: nat) returns (tmp: CpuInfo?, ghost k: nat)
      requires Valid()
      ensures k <= |ring| && (tmp == null <==> k == |ring|)
      ensures tmp != null ==> tmp == ring[k] && tmp.cpuNum == cpuNum
      ensures forall i :: 0 <= i < k ==> ring[i].cpuNum != cpuNum
    {
      tmp := head;
      k := 0;
      while tmp != null
        invariant k <= |ring| && (tmp == null <==> k == |ring|)
        invariant tmp != null ==> tmp == ring[k]
        invariant forall i :: 0 <= i < k ==> ring[i].cpuNum != cpuNum
        decreases |ring| - k
      {
        if tmp.cpuNum == cpuNum {
          break;
        }
        tmp := tmp.next;
        k := k + 1;
        if tmp == head {
          assert k == |ring|;
          tmp := null;
          break;
        }
      }
    }

    /** Finds the entry of a cpu number if there is one, and makes it the head. */
    method LookupCpu(cpuNum: nat) returns (tmp: CpuInfo?)
      requires Valid()
      modifies this
      ensures Valid()
      ensures tmp == null <==> !Lists(old(ring), cpuNum)
      ensures tmp == null ==> ring == old(ring)
      ensures tmp != null ==> tmp.cpuNum == cpuNum && tmp in old(ring)
                              && ring == RotateTo(old(ring), IndexOf(old(ring), tmp))
    {
      ghost var k;
      tmp, k := FindCpu(cpuNum);
      if tmp != null {
        assert IndexOf(ring, tmp) == k;
        MoveHead(tmp, k);
      }
    }

    /** Lets the ring start at another of its entries. */
    method MoveHead(tmp: CpuInfo, ghost k: nat)
      requires Valid() && k < |ring| && ring[k] == tmp
      modifies this
      ensures Valid() && ring == RotateTo(old(ring), k)
    {
      RotateKeeps(ring, k);
      RotateLinked(ring, k);
      head := tmp;
      ring := RotateTo(ring, k);
    }

    /** Puts a new entry in front: the ring [h] + r becomes [entry] + r + [h]. */
    method InsertCpu(entry: CpuInfo)
      requires Valid() && entry !in ring && !Lists(ring, entry.cpuNum)
      modifies this, entry`next, (if head == null then {} else {head})`next
      ensures Valid() && ring == InsertHead(old(ring), entry)
    {
      InsertKeeps(ring, entry);
      if head == null {
        entry.next := entry;
      } else if head.next == head {
        assert |ring| == 1;
        head.next := entry;
        entry.next := head;
      } else {
        entry.next := head.next;
        head.next := entry;
      }
      head := entry;
      ring := InsertHead(ring, entry);
    }

    /** The walk of remove_cpu: goes round the ring from the head, past the head itself, to the
        entry, and returns the element before it. */
    method PrecedingCpu(entry: CpuInfo) returns (prev: CpuInfo)
      requires Valid() && entry in ring
      ensures var at := IndexOf(ring, entry);
              prev == ring[Before(ring, at)]
    {
      ghost var at := IndexOf(ring, entry);
      ghost var steps := if at == 0 then |ring| else at;
      ghost var k := 0;
      var before: CpuInfo? := null;
      var tmp := head;
      while entry != tmp || before == null
        invariant k <= steps && tmp == Around(ring, k)
        invariant if k == 0 then before == null else before == ring[k - 1]
        decreases steps - k
      {
        NextAround(ring, k);
        NotYetAround(ring, at, k);
        before := tmp;
        tmp := tmp.next;
        k := k + 1;
      }
      NotYetAround(ring, at, k);
      prev := before;
    }

    /** Unlinks an entry of the list; the head moves only if it is the one removed. */
    method RemoveCpu(entry: CpuInfo)
      requires Valid() && entry in ring
      modifies this, (set c | c in ring)`next
      ensures Valid() && ring == Without(old(ring), IndexOf(old(ring), entry))
      ensures old(head) != entry ==> head == old(head)
    {
      ghost var at, was := IndexOf(ring, entry), ring;
      var prev := PrecedingCpu(entry);
      WithoutValid(was, at);
      if prev == entry {
        assert |was| == 1;
        head := null;
        entry.next := null;
        ring := [];
      } else {
        prev.next := entry.next;
        if head == entry {
          head := entry.next;
        }
        ring := Without(was, at);
        assert forall i :: 0 <= i < |was| && i != Before(was, at) ==> was[i] != prev;
        UnlinkLinked(was, at);
      }
    }

    /** Between calls every listed cpu has a user. */
    ghost predicate InUse()
      reads this, ring
    {
      forall c :: c in ring ==> c.numUsers >= 1
    }

    /** Hands out the entry of a cpu, listing it first if need be, and counts the new user. */
    method LookupOrCreateCpu(cpuNum: nat) returns (here: CpuInfo)
      requires Valid() && InUse()
      modifies this, ring
      ensures Valid() && InUse()
      ensures here.cpuNum == cpuNum && head == here
      ensures Lists(old(ring), cpuNum) ==>
                here in old(ring) && here.numUsers == old(here.numUsers) + 1
                && ring == RotateTo(old(ring), IndexOf(old(ring), here))
      ensures !Lists(old(ring), cpuNum) ==>
                fresh(here) && here.numUsers == 1 && ring == InsertHead(old(ring), here)
      ensures forall c :: c in old(ring) && c != here ==> c.numUsers == old(c.numUsers)
    {
      var tmp := LookupCpu(cpuNum);
      if tmp == null {
        tmp := InitializeCpu(cpuNum);
      } else {
        RotateKeeps(old(ring), IndexOf(old(ring), tmp));
      }
      tmp.numUsers := tmp.numUsers + 1;
      here := tmp;
    }

    /** Allocation and component initialisation, assumed to succeed. */
    method InitializeCpu(cpuNum: nat) returns (dest: CpuInfo)
      requires Valid() && !Lists(ring, cpuNum)
      modifies this, ring
      ensures fresh(dest) && dest.cpuNum == cpuNum && dest.numUsers == 0
      ensures Valid() && ring == InsertHead(old(ring), dest) && head == dest
      ensures forall c :: c in old(ring) ==> c.numUsers == old(c.numUsers)
      ensures forall c :: c in ring <==> c == dest || c in old(ring)
    {
      var cpu := new CpuInfo(cpuNum);
      InsertKeeps(ring, cpu);
      InsertCpu(cpu);
      dest := cpu;
    }

    /** Gives a handle back.  The entry is unlinked, and may then be deallocated, exactly when
        this was its last user. */
    method FreeCpu(cpu: CpuInfo) returns (freed: bool)
      requires Valid() && InUse() && cpu in ring
      modifies this, ring
      ensures Valid() && InUse()
      ensures cpu.numUsers == old(cpu.numUsers) - 1
      ensures freed <==> old(cpu.numUsers) == 1
      ensures freed <==> cpu !in ring
      ensures ring == if freed then Without(old(ring), IndexOf(old(ring), cpu)) else old(ring)
      ensures forall c :: c in old(ring) && c != cpu ==> c.numUsers == old(c.numUsers)
    {
      cpu.numUsers := cpu.numUsers - 1;
      var users := cpu.numUsers;
      ghost var was := ring;
      assert forall c :: c in was && c != cpu ==> c.numUsers >= 1;
      if users == 0 {
        RemoveCpu(cpu);
        WithoutKeeps(was, IndexOf(was, cpu));
        assert forall c :: c in ring ==> c in was && c != cpu;
      }
      freed := users == 0;
    }
  }

  /** Where a walk is after k steps, the first time round and back at the head. */
  ghost function Around(ring: seq<CpuInfo>, k: nat): CpuInfo
    requires k <= |ring| && ring != []
  {
    if k < |ring| then ring[k] else ring[0]
  }

  lemma {:induction false} NextAround(ring: seq<CpuInfo>, k: nat)
    requires Linked(ring) && k < |ring|
    ensures Around(ring, k).next == Around(ring, k + 1)
  {}

  /** Past its start the walk meets an entry only where it is listed. */
  lemma {:induction false} NotYetAround(ring: seq<CpuInfo>, at: nat, k: nat)
    requires Distinct(ring) && at < |ring| && k <= |ring|
    ensures k > 0 && Around(ring, k) == ring[at] <==> k == if at == 0 then |ring| else at
  {}

  /** The position a walk of n steps around a ring of m nodes ends at. */
  function Turn(n: nat, m: nat): (k: nat)
    requires m > 0
    ensures k < m && (n < m ==> k == n) && (n == m ==> k == 0)
  {
    if n == 0 then 0
    else if Turn(n - 1, m) + 1 < m then Turn(n - 1, m) + 1
    else 0
  }

  /** The node a walk along the next pointers reaches after n steps from the head. */
  ghost function Walk(ring: seq<CpuInfo>, n: nat): (c: CpuInfo)
    requires ring != [] && Linked(ring)
    reads ring
    ensures c == ring[Turn(n, |ring|)]
  {
    if n == 0 then ring[0] else Walk(ring, n - 1).next
  }

  /** The search of remove_cpu, which goes on at least one step, reaches its entry exactly if the
      entry is listed. */
  lemma {:induction false} SearchEndsIfListed(ring: seq<CpuInfo>, entry: CpuInfo)
    requires ring != [] && Linked(ring)
    ensures (exists n: nat :: n > 0 && Walk(ring, n) == entry) <==> entry in ring
  {
    if entry in ring {
      var k: nat :| k < |ring| && ring[k] == entry;
      var n := if k > 0 then k else |ring|;
      assert Walk(ring, n) == entry;
    }
  }

  lemma {:induction false} WithoutValid(ring: seq<CpuInfo>, at: nat)
    requires at < |ring| && Distinct(ring) && DistinctNumbers(ring)
    ensures Distinct(Without(ring, at)) && DistinctNumbers(Without(ring, at))
  {
    WithoutKeeps(ring, at);
  }

  ghost function Before(ring: seq<CpuInfo>, at: nat): nat
    requires at < |ring|
  {
    if at == 0 then |ring| - 1 else at - 1
  }

  /** Once the element before position at points past it, the others form a ring. */
  lemma {:induction false} UnlinkLinked(ring: seq<CpuInfo>, at: nat)
    requires at < |ring| && |ring| > 1
    requires forall i :: 0 <= i < |ring| && i != Before(ring, at) ==> ring[i].next == Succ(ring, i)
    requires ring[Before(ring, at)].next == Succ(ring, at)
    ensures Linked(Without(ring, at))
  {
    var r := Without(ring, at);
    forall i | 0 <= i < |r| ensures r[i].next == Succ(r, i) {
      var j := if i < at then i else i + 1;
      assert r[i] == ring[j];
    }
  }

  lemma {:induction false} RotateLinked(ring: seq<CpuInfo>, k: nat)
    requires Linked(ring) && k < |ring|
    ensures Linked(RotateTo(ring, k))
  {}
}
