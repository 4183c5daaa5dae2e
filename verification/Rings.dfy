/** A circular list seen from its head as a sequence, and what the list operations do to it. */
module Rings {
  import opened Counting

  /** The same ring with the head moved to position k. */
  function RotateTo<T>(ring: seq<T>, k: nat): seq<T>
    requires k < |ring|
  {
    ring[k..] + ring[..k]
  }

  /** A new element becomes the head; the old head becomes the last element. */
  function InsertHead<T>(ring: seq<T>, e: T): seq<T> {
    if ring == [] then [e] else [e] + ring[1..] + [ring[0]]
  }

  function Without<T>(ring: seq<T>, k: nat): seq<T>
    requires k < |ring|
  {
    ring[..k] + ring[k + 1..]
  }

  function IndexOf<T(==)>(ring: seq<T>, e: T): (k: nat)
    requires e in ring
    ensures k < |ring| && ring[k] == e
  {
    if ring[0] == e then 0 else 1 + IndexOf(ring[1..], e)
  }

  lemma {:induction false} RotateKeeps<T>(ring: seq<T>, k: nat)
    requires k < |ring| && Distinct(ring)
    ensures Distinct(RotateTo(ring, k))
    ensures forall x :: x in RotateTo(ring, k) <==> x in ring
  {
    assert ring == ring[..k] + ring[k..];
  }

  lemma {:induction false} InsertKeeps<T>(ring: seq<T>, e: T)
    requires Distinct(ring) && e !in ring
    ensures Distinct(InsertHead(ring, e))
    ensures forall x :: x in InsertHead(ring, e) <==> x == e || x in ring
  {
    if ring != [] {
      assert ring == [ring[0]] + ring[1..];
      assert forall x :: x in InsertHead(ring, e) <==> x == e || x in ring[1..] || x == ring[0];
    }
  }

  lemma {:induction false} WithoutKeeps<T>(ring: seq<T>, k: nat)
    requires k < |ring| && Distinct(ring)
    ensures Distinct(Without(ring, k))
    ensures forall x :: x in Without(ring, k) <==> x in ring && x != ring[k]
  {
    assert ring == ring[..k] + [ring[k]] + ring[k + 1..];
    assert ring[k] !in ring[..k] && ring[k] !in ring[k + 1..];
  }

  /** After rotation the element that was k places on comes next, and so on all the way round. */
  lemma {:induction false} RotatedAt<T>(ring: seq<T>, k: nat, i: nat)
    requires k < |ring| && i < |ring|
    ensures |RotateTo(ring, k)| == |ring|
    ensures RotateTo(ring, k)[i] == ring[if i + k < |ring| then i + k else i + k - |ring|]
  {
    assert i + k < |ring| ==> ring[k..][i] == ring[i + k];
  }

  /** The new element is first, the old head last, and between them the others keep their order. */
  lemma {:induction false} InsertedAt<T>(ring: seq<T>, e: T, i: nat)
    requires i < |ring|
    ensures |InsertHead(ring, e)| == |ring| + 1 && InsertHead(ring, e)[0] == e
    ensures InsertHead(ring, e)[if i == 0 then |ring| else i] == ring[i]
  {}

  /** The others keep their order. */
  lemma {:induction false} WithoutAt<T>(ring: seq<T>, k: nat, i: nat)
    requires k < |ring| && i < |ring| && i != k
    ensures |Without(ring, k)| == |ring| - 1
    ensures Without(ring, k)[if i < k then i else i - 1] == ring[i]
  {}
}
