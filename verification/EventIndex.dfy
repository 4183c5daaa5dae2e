/** PAPI_get_overflow_event_index (src/papi.c): from an overflow vector back to event indexes. */
module EventIndex {
  import opened PapiCodes
  import opened Words
  import opened FirstSet
  import opened Dispatch

  /** The event counts on this counter and is reported for it. */
  predicate Matches(e: EventInfo, bit: nat) {
    HasPos(e, bit) && !IsDerived(e)
  }

  /** The matching events among the first n, each with the bit. */
  function BitPairs(events: seq<EventInfo>, bit: nat, n: nat): (r: seq<(nat, nat)>)
    requires n <= |events|
    ensures |r| <= n
  {
    if n == 0 then [] else
      BitPairs(events, bit, n - 1) + if Matches(events[n - 1], bit) then [(bit, n - 1)] else []
  }

  /** All pairs of a set bit and an event that matches it, as the two loops meet them. */
  function Pairs(v: nat, events: seq<EventInfo>): seq<(nat, nat)> {
    if v == 0 then [] else
      ClearLeast(v);
      BitPairs(events, Ffs(v) - 1, |events|) + Pairs(Xor(v, Pow2(Ffs(v) - 1)), events)
  }

  function Indexes(ps: seq<(nat, nat)>): (r: seq<int>)
    ensures |r| == |ps|
  {
    seq(|ps|, i requires 0 <= i < |ps| => ps[i].1)
  }

  predicate Before(p: (nat, nat), q: (nat, nat)) {
    p.0 < q.0 || (p.0 == q.0 && p.1 < q.1)
  }

  /** By bit, then by event index. */
  ghost predicate Ordered(ps: seq<(nat, nat)>) {
    forall m, n :: 0 <= m < n < |ps| ==> Before(ps[m], ps[n])
  }

  /** The bit is set, and the event has its counter among its terms and is not derived, or compound. */
  ghost predicate Wanted(p: (nat, nat), v: nat, events: seq<EventInfo>) {
    && Bit(v, p.0) && p.1 < |events| && HasPos(events[p.1], p.0)
    && (events[p.1].derived == NOT_DERIVED || events[p.1].derived == DERIVED_CMPD)
  }

  lemma {:induction false} BitPairsAreAll(events: seq<EventInfo>, bit: nat, n: nat)
    requires n <= |events|
    ensures Ordered(BitPairs(events, bit, n))
    ensures forall p :: p in BitPairs(events, bit, n) <==> p.0 == bit && p.1 < n && Matches(events[p.1], bit)
  {
    if n > 0 {
      BitPairsAreAll(events, bit, n - 1);
    }
  }

  lemma {:induction false} OrderedJoin(a: seq<(nat, nat)>, b: seq<(nat, nat)>)
    requires Ordered(a) && Ordered(b)
    requires forall p, q | p in a && q in b :: p.0 < q.0
    ensures Ordered(a + b)
  {
    forall m, n | 0 <= m < n < |a + b| ensures Before((a + b)[m], (a + b)[n]) {
      if m < |a| <= n {
        assert a[m] in a && b[n - |a|] in b;
      }
    }
  }

  /** The list is exactly the wanted pairs, each once, ordered by bit and then event index. */
  lemma {:induction false} PairsAreAll(v: nat, events: seq<EventInfo>)
    ensures Ordered(Pairs(v, events))
    ensures forall p :: p in Pairs(v, events) <==> Wanted(p, v, events)
    decreases v
  {
    if v == 0 {
      forall k: nat ensures !Bit(v, k) { ZeroBit(k); }
    } else {
      ClearLeast(v);
      var k := Ffs(v) - 1;
      var w := Xor(v, Pow2(k));
      BitPairsAreAll(events, k, |events|);
      PairsAreAll(w, events);
      forall b: nat ensures (Bit(w, b) <==> Bit(v, b) && b != k) && (Bit(v, b) ==> k <= b) && Bit(v, k) {
        WithoutLeast(v, b);
      }
      OrderedJoin(BitPairs(events, k, |events|), Pairs(w, events));
    }
  }

  lemma {:induction false} BitPairsGrow(events: seq<EventInfo>, bit: nat, m: nat, n: nat)
    requires m <= n <= |events|
    ensures BitPairs(events, bit, m) <= BitPairs(events, bit, n)
    decreases n
  {
    if m < n { BitPairsGrow(events, bit, m, n - 1); }
  }

  /** The scan of one event's terms: the derived test sits inside the loop over the terms. */
  method EventMatches(e: EventInfo, setBit: nat) returns (found: bool)
    ensures found == Matches(e, setBit)
  {
    var k, pos := 0, 0;
    while k < |e.pos| && pos >= 0
      invariant 0 <= k <= |e.pos|
      invariant forall u :: 0 <= u < k ==> e.pos[u] != setBit || IsDerived(e)
      invariant pos >= 0 ==> forall u :: 0 <= u < k ==> e.pos[u] >= 0
      invariant pos < 0 ==> k > 0 && e.pos[k - 1] < 0
    {
      pos := e.pos[k];
      if setBit == pos && (e.derived == NOT_DERIVED || e.derived == DERIVED_CMPD) {
        return true;
      }
      k := k + 1;
    }
    return false;
  }

  /** The array holds the indexes of done, and nothing after them has been written. */
  ghost predicate Listed(now: seq<int>, was: seq<int>, done: seq<(nat, nat)>) {
    |done| <= |now| == |was| && now == Indexes(done) + was[|done|..]
  }

  lemma {:induction false} ListOneMore(now: seq<int>, was: seq<int>, done: seq<(nat, nat)>, p: (nat, nat))
    requires Listed(now, was, done) && |done| < |now|
    ensures Listed(now[|done| := p.1], was, done + [p])
  {
    assert Indexes(done + [p]) == Indexes(done) + [p.1];
  }

  /** The loop over the events for one bit; it stops as soon as the array is full. */
  method ListBit(events: seq<EventInfo>, bit: nat, out: array<int>, number: nat, ghost was: seq<int>,
                 ghost done: seq<(nat, nat)>, count0: nat) returns (count: nat, ghost done': seq<(nat, nat)>)
    requires number <= out.Length && count0 == |done| < number && Listed(out[..], was, done)
    modifies out
    ensures count == |done'| <= number && Listed(out[..], was, done')
    ensures if count == number then done' <= done + BitPairs(events, bit, |events|)
            else done' == done + BitPairs(events, bit, |events|)
  {
    count, done' := count0, done;
    var j := 0;
    while j < |events|
      invariant j <= |events| && count == |done'| < number && Listed(out[..], was, done')
      invariant done' == done + BitPairs(events, bit, j)
    {
      var found := EventMatches(events[j], bit);
      if found {
        ListOneMore(out[..], was, done', (bit, j));
        out[count] := j;
        count, done' := count + 1, done' + [(bit, j)];
        if count == number {
          BitPairsGrow(events, bit, j + 1, |events|);
          return;
        }
      }
      j := j + 1;
    }
  }

  /** One bit, the least one: the wanted pairs of its own and those of the rest make up the list. */
  method ListLeast(events: seq<EventInfo>, vector: nat, out: array<int>, number: nat, ghost was: seq<int>,
                   ghost done: seq<(nat, nat)>, count0: nat)
    returns (count: nat, rest: nat, ghost done': seq<(nat, nat)>)
    requires 0 < vector < WORD64
    requires number <= out.Length && count0 == |done| < number && Listed(out[..], was, done)
    modifies out
    ensures count == |done'| <= number && Listed(out[..], was, done') && rest < vector
    ensures if count == number then done' <= done + Pairs(vector, events)
            else done' + Pairs(rest, events) == done + Pairs(vector, events)
  {
    ClearLeast(vector);
    var bit := Ffsll(FromWord(vector));
    count, done' := ListBit(events, bit - 1, out, number, was, done, count0);
    rest := Xor(vector, Pow2(bit - 1));
    assert done + Pairs(vector, events) == done + BitPairs(events, bit - 1, |events|) + Pairs(rest, events);
  }

  /** The loop over the bits. */
  method ListBits(events: seq<EventInfo>, vector0: nat, out: array<int>, number: nat) returns (count: nat)
    requires vector0 < WORD64 && 0 < number <= out.Length
    modifies out
    ensures count == if |Pairs(vector0, events)| < number then |Pairs(vector0, events)| else number
    ensures out[..] == Indexes(Pairs(vector0, events)[..count]) + old(out[count..])
  {
    ghost var all, was := Pairs(vector0, events), out[..];
    ghost var done: seq<(nat, nat)> := [];
    var vector: nat := vector0;
    count := 0;
    assert Indexes(done) == [] && done + all == all;
    while vector != 0
      invariant 0 <= vector <= vector0 && count == |done| < number
      invariant Listed(out[..], was, done) && done + Pairs(vector, events) == all
      decreases vector
    {
      count, vector, done := ListLeast(events, vector, out, number, was, done, count);
      if count == number {
        assert done == all[..count];
        return;
      }
    }
    assert done == all == all[..count];
  }

  /** The first min(capacity, total) event indexes, in the order of set bit and then event index. */
  method GetOverflowEventIndex(events: seq<EventInfo>, overflowVector: longlong, out: array?<int>, number: Box?<int>)
    returns (ret: int)
    requires out != null && number != null ==> number.value <= out.Length
    modifies out, number
    ensures ret == if overflowVector == 0 || out == null || number == null || old(number.value) < 1 || events == []
                   then PAPI_EINVAL else PAPI_OK
    ensures ret == PAPI_OK ==>
      var all := Pairs(ToWord(overflowVector), events);
      && number.value == (if |all| < old(number.value) then |all| else old(number.value))
      && 0 <= number.value <= |all|
      && out[..] == Indexes(all[..number.value]) + old(out[..])[number.value..]
    ensures ret != PAPI_OK && out != null ==> out[..] == old(out[..])
    ensures ret != PAPI_OK && number != null ==> number.value == old(number.value)
  {
    if overflowVector == 0 { return PAPI_EINVAL; }
    if out == null || number == null { return PAPI_EINVAL; }
    if number.value < 1 { return PAPI_EINVAL; }
    if |events| == 0 { return PAPI_EINVAL; }
    var count := ListBits(events, ToWord(overflowVector), out, number.value);
    number.value := count;
    return PAPI_OK;
  }
}
