/** The supernodal tree as a quotient of the column tree. */
module Supernodes {
  import opened EliminationTrees

  /** xsuper splits the columns 1..n into |xsuper| - 1 blocks; block s is xsuper[s-1] .. xsuper[s]-1. */
  ghost predicate IsPartition(xsuper: seq<nat>, n: nat) {
    && |xsuper| >= 1 && xsuper[0] == 1 && xsuper[|xsuper| - 1] == n + 1
    && forall a, b :: 0 <= a < b < |xsuper| ==> xsuper[a] < xsuper[b]
  }

  ghost predicate InBlock(xsuper: seq<nat>, s: nat, c: nat) {
    0 < s < |xsuper| && xsuper[s - 1] <= c < xsuper[s]
  }

  ghost predicate IsMembership(xsuper: seq<nat>, member: seq<nat>, n: nat) {
    && |member| == n + 1
    && forall c :: 0 < c <= n ==> InBlock(xsuper, member[c], c)
  }

  function LastColumn(xsuper: seq<nat>, s: nat): int
    requires 0 < s < |xsuper|
  {
    xsuper[s] as int - 1
  }

  /** Inside a block each column's parent is the next column. */
  ghost predicate BlocksAreChains(xsuper: seq<nat>, q: seq<nat>) {
    forall s: nat, c: nat :: 0 < s < |xsuper| && InBlock(xsuper, s, c) && c + 1 < xsuper[s] && c < |q| ==> q[c] == c + 1
  }

  /** The supernodal parent: the block that holds the parent of the last column. */
  ghost predicate IsQuotient(q: seq<nat>, xsuper: seq<nat>, member: seq<nat>, Q: seq<nat>) {
    && |Q| == |xsuper|
    && forall s :: 0 < s < |Q| && 0 <= LastColumn(xsuper, s) < |q| && q[LastColumn(xsuper, s)] < |member| ==>
         Q[s] == var p := q[LastColumn(xsuper, s)]; if p == 0 then 0 else member[p]
  }

  /** Everything the quotient theorem needs. */
  ghost predicate Supernodal(q: seq<nat>, xsuper: seq<nat>, member: seq<nat>, Q: seq<nat>) {
    && Forest(q) && IsPartition(xsuper, |q| - 1) && IsMembership(xsuper, member, |q| - 1)
    && IsQuotient(q, xsuper, member, Q)
  }

  lemma LastIsColumn(q: seq<nat>, xsuper: seq<nat>, member: seq<nat>, Q: seq<nat>, s: nat)
    requires Supernodal(q, xsuper, member, Q) && 0 < s < |Q|
    ensures 0 < LastColumn(xsuper, s) < |q| && InBlock(xsuper, s, LastColumn(xsuper, s))
    ensures var p := q[LastColumn(xsuper, s)];
      && p < |member| && (p == 0 ==> Q[s] == 0)
      && (p != 0 ==> InBlock(xsuper, Q[s], p) && s < Q[s] < |Q|)
  {
    assert xsuper[0] <= xsuper[s - 1] < xsuper[s];
    assert s < |xsuper| - 1 ==> xsuper[s] < xsuper[|xsuper| - 1];
    var c := LastColumn(xsuper, s);
    var p := q[c];
    if p != 0 {
      var t := member[p];
      assert InBlock(xsuper, t, p);
    }
  }

  /** The supernodal tree is a forest again. */
  lemma QuotientIsForest(q: seq<nat>, xsuper: seq<nat>, member: seq<nat>, Q: seq<nat>)
    requires Supernodal(q, xsuper, member, Q)
    ensures Forest(Q)
  {
    forall s | 0 < s < |Q|
      ensures Q[s] == 0 || s < Q[s] < |Q|
    {
      LastIsColumn(q, xsuper, member, Q, s);
    }
  }

  /** A block is climbed column by column up to its last one. */
  lemma {:induction false} ChainToLast(q: seq<nat>, xsuper: seq<nat>, s: nat, c: nat, d: nat)
    requires Forest(q) && BlocksAreChains(xsuper, q) && InBlock(xsuper, s, c) && xsuper[s] <= |q| && 0 < c
    ensures 0 < LastColumn(xsuper, s) < |q| && AncestorOrSelf(q, LastColumn(xsuper, s), c)
    ensures AncestorOrSelf(q, d, c) && d >= xsuper[s] ==> Ancestor(q, d, LastColumn(xsuper, s))
    decreases xsuper[s] - c
  {
    if c + 1 < xsuper[s] {
      ChainToLast(q, xsuper, s, c + 1, d);
      assert q[c] == c + 1;
      AncestorOrSelfUp(q, LastColumn(xsuper, s), c);
    }
  }

  lemma AncestorOrSelfUp(q: seq<nat>, a: nat, c: nat)
    requires Forest(q) && 0 < c < |q| && q[c] != 0 && AncestorOrSelf(q, a, q[c])
    ensures Ancestor(q, a, c)
  {
  }

  lemma BlockIsUnique(xsuper: seq<nat>, n: nat, s: nat, t: nat, c: nat)
    requires IsPartition(xsuper, n) && InBlock(xsuper, s, c) && InBlock(xsuper, t, c)
    ensures s == t
  {
  }

  lemma {:induction false} AncestorBlock(q: seq<nat>, xsuper: seq<nat>, member: seq<nat>, Q: seq<nat>, s: nat, t: nat)
    returns (d: nat)
    requires Supernodal(q, xsuper, member, Q) && BlocksAreChains(xsuper, q) && Forest(Q)
    requires 0 < s < |Q| && AncestorOrSelf(Q, t, s)
    ensures InBlock(xsuper, t, d) && 0 < LastColumn(xsuper, s) && AncestorOrSelf(q, d, LastColumn(xsuper, s))
    decreases |Q| - s
  {
    LastIsColumn(q, xsuper, member, Q, s);
    var last := LastColumn(xsuper, s);
    if t == s {
      d := last;
    } else {
      var s1, p := Q[s], q[last];
      LastIsColumn(q, xsuper, member, Q, s1);
      d := AncestorBlock(q, xsuper, member, Q, s1, t);
      assert s1 < |xsuper| - 1 ==> xsuper[s1] < xsuper[|xsuper| - 1];
      ChainToLast(q, xsuper, s1, p, d);
      var last1 := LastColumn(xsuper, s1);
      if d != last1 && last1 != p { AncestorTrans(q, d, last1, p); }
      AncestorOrSelfUp(q, d, last);
    }
  }

  lemma {:induction false} BlockAncestor(q: seq<nat>, xsuper: seq<nat>, member: seq<nat>, Q: seq<nat>, s: nat, t: nat,
                                         d: nat)
    requires Supernodal(q, xsuper, member, Q) && BlocksAreChains(xsuper, q) && Forest(Q)
    requires 0 < s < |Q| && InBlock(xsuper, t, d)
    requires 0 < LastColumn(xsuper, s) && AncestorOrSelf(q, d, LastColumn(xsuper, s))
    ensures AncestorOrSelf(Q, t, s)
    decreases |Q| - s
  {
    LastIsColumn(q, xsuper, member, Q, s);
    var last := LastColumn(xsuper, s);
    if d == last {
      BlockIsUnique(xsuper, |q| - 1, s, t, d);
    } else {
      var s1, p := Q[s], q[last];
      assert s1 < |xsuper| - 1 ==> xsuper[s1] < xsuper[|xsuper| - 1];
      if InBlock(xsuper, s1, d) {
        BlockIsUnique(xsuper, |q| - 1, s1, t, d);
      } else {
        if d != p { AncestorIsLarger(q, d, p); }
        ChainToLast(q, xsuper, s1, p, d);
        BlockAncestor(q, xsuper, member, Q, s1, t, d);
      }
    }
  }

  /** Block t is an ancestor-or-self of block s exactly when a column of t is an ancestor-or-self of
      the last column of s. */
  lemma SupernodalAncestors(q: seq<nat>, xsuper: seq<nat>, member: seq<nat>, Q: seq<nat>, s: nat, t: nat)
    requires Supernodal(q, xsuper, member, Q) && BlocksAreChains(xsuper, q) && Forest(Q) && 0 < s < |Q|
    ensures 0 < LastColumn(xsuper, s)
    ensures AncestorOrSelf(Q, t, s) <==>
            exists d :: InBlock(xsuper, t, d) && AncestorOrSelf(q, d, LastColumn(xsuper, s))
  {
    LastIsColumn(q, xsuper, member, Q, s);
    if AncestorOrSelf(Q, t, s) {
      var d := AncestorBlock(q, xsuper, member, Q, s, t);
    }
    if d :| InBlock(xsuper, t, d) && AncestorOrSelf(q, d, LastColumn(xsuper, s)) {
      BlockAncestor(q, xsuper, member, Q, s, t, d);
    }
  }
}
