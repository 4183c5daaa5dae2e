/** Assignments of pairwise distinct counters to events, each drawn from the event's own set.

    This is what counter allocation is for: sels[i] is the set of counters event i may
    live on, a[i] the counter it is given. */
module Assignments {

  ghost predicate IsAssignment(a: seq<nat>, sels: seq<set<nat>>) {
    && |a| == |sels|
    && (forall i :: 0 <= i < |a| ==> a[i] in sels[i])
    && (forall i, j :: 0 <= i < |a| && 0 <= j < |a| && i != j ==> a[i] != a[j])
  }

  ghost predicate Feasible(sels: seq<set<nat>>) {
    exists a :: IsAssignment(a, sels)
  }

  ghost predicate FirstLess(a: seq<nat>, b: seq<nat>, k: int)
    requires |a| == |b| && 0 <= k < |a|
  {
    a[k] < b[k] && forall j :: 0 <= j < k ==> a[j] == b[j]
  }

  /** a comes no later than b in the order that compares the first event first. */
  ghost predicate LexLe(a: seq<nat>, b: seq<nat>) {
    && |a| == |b|
    && (a == b || exists k :: 0 <= k < |a| && FirstLess(a, b, k))
  }

  ghost predicate IsLeast(a: seq<nat>, sels: seq<set<nat>>) {
    IsAssignment(a, sels) && forall b :: IsAssignment(b, sels) ==> LexLe(a, b)
  }

  /** Every event has been cut down to the one counter that a gives it. */
  ghost predicate CutTo(a: seq<nat>, sels: seq<set<nat>>) {
    |a| == |sels| && forall i :: 0 <= i < |a| ==> sels[i] == {a[i]}
  }

  ghost predicate SameAssignments(s: seq<set<nat>>, t: seq<set<nat>>) {
    forall a :: IsAssignment(a, s) <==> IsAssignment(a, t)
  }

  /** There is at most one least assignment. */
  lemma {:induction false} LeastUnique(a: seq<nat>, b: seq<nat>, sels: seq<set<nat>>)
    requires IsLeast(a, sels) && IsLeast(b, sels)
    ensures a == b
  {
    assert LexLe(a, b) && LexLe(b, a);
  }

  /** Taking the only counter of event q away from another event loses no assignment. */
  lemma {:induction false} StrikeKeeps(sels: seq<set<nat>>, i: nat, q: nat)
    requires i < |sels| && q < |sels| && i != q && |sels[q]| == 1
    ensures SameAssignments(sels, sels[i := sels[i] - sels[q]])
  {
    var c :| c in sels[q];
    OnlyMember(sels[q], c);
    var t := sels[i := sels[i] - sels[q]];
    forall a ensures IsAssignment(a, sels) <==> IsAssignment(a, t) {
      if IsAssignment(a, sels) {
        assert a[q] == c && a[i] != a[q];
      }
      if IsAssignment(a, t) {
        forall j | 0 <= j < |a| ensures a[j] in sels[j] {
          assert a[j] in t[j];
        }
      }
    }
  }

  lemma {:induction false} OnlyMember(s: set<nat>, c: nat)
    requires |s| == 1 && c in s
    ensures s == {c}
  {
    assert |s - {c}| == 0;
  }

  /** Two events confined to the same single counter cannot both be placed. */
  lemma {:induction false} ClashInfeasible(sels: seq<set<nat>>, i: nat, q: nat)
    requires i < |sels| && q < |sels| && i != q
    requires |sels[i]| == 1 && |sels[q]| == 1 && sels[i] * sels[q] != {}
    ensures !Feasible(sels)
  {
    var c :| c in sels[i] * sels[q];
    OnlyMember(sels[i], c);
    OnlyMember(sels[q], c);
    assert forall a: seq<nat> :: |a| == |sels| && a[i] in sels[i] && a[q] in sels[q] ==> a[i] == a[q];
  }

  // ------------------------------------------------- splitting off the placed events

  /** The indexes whose mark is still 0, in ascending order. */
  function Unmapped(m: seq<int>): (p: seq<nat>)
    ensures forall k :: 0 <= k < |p| ==> p[k] < |m| && m[p[k]] == 0
    ensures forall k, l :: 0 <= k < l < |p| ==> p[k] < p[l]
    ensures |p| <= |m|
  {
    if m == [] then [] else
      var n := |m| - 1;
      var front := Unmapped(m[..n]);
      if m[n] == 0 then front + [n] else front
  }

  /** Index i, if unmapped, is listed right after the unmapped indexes before it. */
  lemma {:induction false} UnmappedAt(m: seq<int>, i: nat)
    requires i < |m| && m[i] == 0
    ensures |Unmapped(m[..i])| < |Unmapped(m)|
    ensures Unmapped(m)[|Unmapped(m[..i])|] == i
  {
    var n := |m| - 1;
    if i < n {
      assert m[..n][..i] == m[..i];
      UnmappedAt(m[..n], i);
    }
  }

  function Pick<T>(s: seq<T>, p: seq<nat>): (r: seq<T>)
    requires forall k :: 0 <= k < |p| ==> p[k] < |s|
    ensures |r| == |p| && forall k :: 0 <= k < |p| ==> r[k] == s[p[k]]
  {
    seq(|p|, k requires 0 <= k < |p| => s[p[k]])
  }

  /** Marked events are confined to one counter, f[i], which nobody else can use. */
  ghost predicate Forced(m: seq<int>, f: seq<nat>, sels: seq<set<nat>>) {
    && |m| == |f| == |sels|
    && (forall i :: 0 <= i < |m| && m[i] != 0 ==> sels[i] == {f[i]})
    && (forall i, j :: 0 <= i < |m| && 0 <= j < |m| && m[i] != 0 && i != j ==> f[i] !in sels[j])
  }

  /** The forced counters together with the counters b chosen for the unmapped events. */
  ghost predicate Merges(a: seq<nat>, m: seq<int>, f: seq<nat>, b: seq<nat>) {
    && |a| == |m| == |f| && |b| == |Unmapped(m)|
    && (forall i :: 0 <= i < |m| && m[i] != 0 ==> a[i] == f[i])
    && Pick(a, Unmapped(m)) == b
  }

  function Merge(m: seq<int>, f: seq<nat>, b: seq<nat>): (a: seq<nat>)
    requires |m| == |f| && |b| == |Unmapped(m)|
    ensures Merges(a, m, f, b)
  {
    var a := seq(|m|, i requires 0 <= i < |m| =>
      if m[i] != 0 then f[i] else (UnmappedAt(m, i); b[|Unmapped(m[..i])|]));
    assert forall k :: 0 <= k < |b| ==> a[Unmapped(m)[k]] == b[k] by {
      forall k | 0 <= k < |b| ensures a[Unmapped(m)[k]] == b[k] {
        MergeAt(m, k);
      }
    }
    a
  }

  lemma {:induction false} MergeAt(m: seq<int>, k: nat)
    requires k < |Unmapped(m)|
    ensures |Unmapped(m[..Unmapped(m)[k]])| == k
  {
    var p := Unmapped(m);
    var i := p[k];
    UnmappedAt(m, i);
    var l := |Unmapped(m[..i])|;
    assert p[l] == i;
    assert !(l < k) && !(k < l);
  }

  lemma {:induction false} SplitAssignment(a: seq<nat>, m: seq<int>, f: seq<nat>, sels: seq<set<nat>>)
    requires Forced(m, f, sels) && IsAssignment(a, sels)
    ensures IsAssignment(Pick(a, Unmapped(m)), Pick(sels, Unmapped(m)))
    ensures Merges(a, m, f, Pick(a, Unmapped(m)))
  {
    forall i | 0 <= i < |m| && m[i] != 0 ensures a[i] == f[i] {
      assert a[i] in sels[i];
    }
  }

  lemma {:induction false} JoinAssignment(a: seq<nat>, m: seq<int>, f: seq<nat>, b: seq<nat>, sels: seq<set<nat>>)
    requires Forced(m, f, sels) && Merges(a, m, f, b)
    requires IsAssignment(b, Pick(sels, Unmapped(m)))
    ensures IsAssignment(a, sels)
  {
    var p := Unmapped(m);
    forall i | 0 <= i < |a| ensures a[i] in sels[i] {
      if m[i] == 0 { PickedAt(a, m, i, b); }
    }
    forall i, j | 0 <= i < |a| && 0 <= j < |a| && i != j ensures a[i] != a[j] {
      if m[i] == 0 && m[j] == 0 {
        PickedAt(a, m, i, b);
        PickedAt(a, m, j, b);
      }
    }
  }

  lemma {:induction false} PickedAt(a: seq<nat>, m: seq<int>, i: nat, b: seq<nat>)
    requires |a| == |m| && i < |m| && m[i] == 0 && Pick(a, Unmapped(m)) == b
    ensures var l := |Unmapped(m[..i])|; l < |b| && Unmapped(m)[l] == i && a[i] == b[l]
  {
    UnmappedAt(m, i);
  }

  /** Least for the unmapped events makes least for all. */
  lemma {:induction false} LeastJoins(a: seq<nat>, m: seq<int>, f: seq<nat>, b: seq<nat>, sels: seq<set<nat>>)
    requires Forced(m, f, sels) && Merges(a, m, f, b)
    requires IsLeast(b, Pick(sels, Unmapped(m)))
    ensures IsLeast(a, sels)
  {
    JoinAssignment(a, m, f, b, sels);
    forall c | IsAssignment(c, sels) ensures LexLe(a, c) {
      SplitAssignment(c, m, f, sels);
      LexJoins(a, c, m, f, b, Pick(c, Unmapped(m)));
    }
  }

  lemma {:induction false} LexJoins(a: seq<nat>, c: seq<nat>, m: seq<int>, f: seq<nat>, b: seq<nat>, d: seq<nat>)
    requires Merges(a, m, f, b) && Merges(c, m, f, d) && LexLe(b, d)
    ensures LexLe(a, c)
  {
    var p := Unmapped(m);
    if b == d {
      forall i | 0 <= i < |a| ensures a[i] == c[i] {
        if m[i] == 0 { PickedAt(a, m, i, b); PickedAt(c, m, i, d); }
      }
    } else {
      var k :| 0 <= k < |b| && FirstLess(b, d, k);
      forall i | 0 <= i < p[k] ensures a[i] == c[i] {
        if m[i] == 0 {
          PickedAt(a, m, i, b);
          PickedAt(c, m, i, d);
          var l := |Unmapped(m[..i])|;
          assert !(k < l) && l != k;
        }
      }
      assert FirstLess(a, c, p[k]);
    }
  }

  /** If no event is left unmapped the forced counters are the only assignment. */
  lemma {:induction false} AllForced(m: seq<int>, f: seq<nat>, sels: seq<set<nat>>)
    requires Forced(m, f, sels) && Unmapped(m) == []
    ensures IsLeast(f, sels) && CutTo(f, sels)
  {
    forall i | 0 <= i < |m| ensures m[i] != 0 {
      if m[i] == 0 { UnmappedAt(m, i); }
    }
    forall b | IsAssignment(b, sels) ensures b == f {
      forall i | 0 <= i < |b| ensures b[i] == f[i] {
        assert b[i] in sels[i];
      }
    }
  }

  // ------------------------------------------------- choosing for the first event

  /** Giving counter c to the first event and taking it away from all the others. */
  function Choose(sels: seq<set<nat>>, c: nat): (t: seq<set<nat>>)
    requires |sels| > 0
    ensures |t| == |sels|
  {
    seq(|sels|, i requires 0 <= i < |sels| => if i == 0 then {c} else sels[i] - {c})
  }

  lemma {:induction false} ChosenAssignments(a: seq<nat>, sels: seq<set<nat>>, c: nat)
    requires |sels| > 0 && c in sels[0]
    ensures IsAssignment(a, Choose(sels, c)) <==> IsAssignment(a, sels) && a[0] == c
  {
    var t := Choose(sels, c);
    if IsAssignment(a, t) {
      assert a[0] in t[0];
      forall i | 0 <= i < |a| ensures a[i] in sels[i] { assert a[i] in t[i]; }
    }
    if IsAssignment(a, sels) && a[0] == c {
      forall i | 0 <= i < |a| ensures a[i] in t[i] { assert a[i] in sels[i]; }
    }
  }

  /** The least feasible counter for the first event, completed least, is least. */
  lemma {:induction false} LeastChoice(a: seq<nat>, sels: seq<set<nat>>, c: nat)
    requires |sels| > 0 && c in sels[0]
    requires IsLeast(a, Choose(sels, c))
    requires forall b :: IsAssignment(b, sels) ==> b[0] >= c
    ensures IsLeast(a, sels)
  {
    ChosenAssignments(a, sels, c);
    forall b | IsAssignment(b, sels) ensures LexLe(a, b) {
      ChosenAssignments(b, sels, c);
      if b[0] != c {
        assert FirstLess(a, b, 0);
      }
    }
  }
}
