/** Permutations of 1..n as sequences of length n + 1 with a pad at slot 0. */
module Permutations {
  import opened Graphs

  ghost predicate IsPermutation(s: seq<nat>) {
    && |s| >= 1
    && (forall v :: 0 < v < |s| ==> 0 < s[v] < |s|)
    && (forall u, v :: 0 < u < |s| && 0 < v < |s| && s[u] == s[v] ==> u == v)
  }

  ghost predicate Inverses(s: seq<nat>, t: seq<nat>) {
    && |s| == |t| >= 1
    && (forall v :: 0 < v < |s| ==> 0 < s[v] < |s| && t[s[v]] == v)
    && (forall v :: 0 < v < |t| ==> 0 < t[v] < |t| && s[t[v]] == v)
  }

  lemma InversesArePermutations(s: seq<nat>, t: seq<nat>)
    requires Inverses(s, t)
    ensures IsPermutation(s) && IsPermutation(t)
  {
  }

  ghost function Image(s: seq<nat>, k: nat): (r: set<nat>)
    requires k < |s|
    ensures forall x :: x in r <==> exists v :: 0 < v <= k && s[v] == x
  {
    if k == 0 then {} else Image(s, k - 1) + {s[k]}
  }

  lemma {:induction false} ImageSize(s: seq<nat>, k: nat)
    requires IsPermutation(s) && k < |s|
    ensures |Image(s, k)| == k
  {
    if k > 0 {
      ImageSize(s, k - 1);
      var before: set<nat> := Image(s, k - 1);
      assert forall v :: 0 < v <= k - 1 ==> s[v] != s[k];
      hide Image, IsPermutation;
      assert s[k] !in before;
    }
  }

  lemma {:induction false} UpToSize(k: nat)
    ensures |UpTo(k)| == k
  {
    if k > 0 { UpToSize(k - 1); }
  }

  lemma SubsetOfSameSize(a: set<nat>, b: set<nat>)
    requires a <= b && |a| == |b|
    ensures a == b
  {
    if a != b {
      var x :| x in b && x !in a;
      assert a <= b - {x};
      SubsetSize(a, b - {x});
    }
  }

  lemma {:induction false} SubsetSize(a: set<nat>, b: set<nat>)
    requires a <= b
    ensures |a| <= |b|
  {
    if a != {} {
      var x :| x in a;
      SubsetSize(a - {x}, b - {x});
    }
  }

  /** An injective relabelling of 1..n reaches every label. */
  lemma PermutationIsOnto(s: seq<nat>, x: nat)
    requires IsPermutation(s) && 0 < x < |s|
    ensures exists v :: 0 < v < |s| && s[v] == x
  {
    var n := |s| - 1;
    ImageSize(s, n);
    UpToSize(n);
    SubsetOfSameSize(Image(s, n), UpTo(n));
    assert x in Image(s, n);
  }

  /** Relabelling s followed by relabelling t. */
  function Composed(s: seq<nat>, t: seq<nat>): (r: seq<nat>)
    requires |s| == |t| && forall v :: 0 < v < |s| ==> 0 < s[v] < |s|
    ensures |r| == |s| && forall v :: 0 < v < |s| ==> r[v] == t[s[v]]
  {
    seq(|s|, v requires 0 <= v < |s| => if v == 0 then s[0] else t[s[v]])
  }

  lemma ComposedIsPermutation(s: seq<nat>, t: seq<nat>)
    requires IsPermutation(s) && IsPermutation(t) && |s| == |t|
    ensures IsPermutation(Composed(s, t))
  {
  }
}
