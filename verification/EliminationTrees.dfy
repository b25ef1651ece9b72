/** What an elimination tree is, independently of how it is computed, and what identifies it.
    Parent arrays have length n + 1: vertex v is at index v, slot 0 is a pad, and parent 0 means root. */
module EliminationTrees {
  import opened Graphs

  /** Every parent is 0 or larger than its child. */
  ghost predicate Forest(par: seq<nat>) {
    && |par| >= 1
    && forall v :: 0 < v < |par| ==> par[v] == 0 || v < par[v] < |par|
  }

  /** a is a proper ancestor of v. */
  ghost predicate Ancestor(par: seq<nat>, a: nat, v: nat)
    requires Forest(par)
    decreases |par| - v
  {
    0 < v < |par| && par[v] != 0 && (par[v] == a || Ancestor(par, a, par[v]))
  }

  ghost predicate AncestorOrSelf(par: seq<nat>, a: nat, v: nat)
    requires Forest(par)
  {
    0 < v < |par| && (a == v || Ancestor(par, a, v))
  }

  lemma {:induction false} AncestorIsLarger(par: seq<nat>, a: nat, v: nat)
    requires Forest(par) && Ancestor(par, a, v)
    ensures v < a < |par|
    decreases |par| - v
  {
    if par[v] != a {
      AncestorIsLarger(par, a, par[v]);
    }
  }

  lemma {:induction false} AncestorTrans(par: seq<nat>, a: nat, b: nat, v: nat)
    requires Forest(par) && Ancestor(par, a, b) && Ancestor(par, b, v)
    ensures Ancestor(par, a, v)
    decreases |par| - v
  {
    if par[v] != b {
      AncestorTrans(par, a, b, par[v]);
    }
  }

  /** Two ancestors of one vertex lie on one path. */
  lemma {:induction false} AncestorsAreOrdered(par: seq<nat>, a: nat, b: nat, v: nat)
    requires Forest(par) && Ancestor(par, a, v) && Ancestor(par, b, v) && a < b
    ensures Ancestor(par, b, a)
    decreases |par| - v
  {
    if par[v] == b {
      AncestorIsLarger(par, a, par[v]);
    } else if par[v] != a {
      AncestorsAreOrdered(par, a, b, par[v]);
    }
  }

  /** k is joined to j using only the vertices 1..k. */
  ghost predicate Joined(E: Edges, j: nat, k: nat) {
    Connected(E, UpTo(k), j, k)
  }

  /** p is the least vertex above j that is joined to j, or 0 when there is none up to n. */
  ghost predicate IsParent(E: Edges, n: nat, j: nat, p: nat) {
    if p == 0 then
      forall k :: j < k <= n ==> !Joined(E, j, k)
    else
      && j < p <= n
      && Joined(E, j, p)
      && forall k :: j < k < p ==> !Joined(E, j, k)
  }

  ghost predicate IsEtree(E: Edges, par: seq<nat>) {
    && |par| >= 1
    && forall j :: 0 < j < |par| ==> IsParent(E, |par| - 1, j, par[j])
  }

  lemma EtreeIsForest(E: Edges, par: seq<nat>)
    requires IsEtree(E, par)
    ensures Forest(par)
  {
    forall v | 0 < v < |par|
      ensures par[v] == 0 || v < par[v] < |par|
    {
      assert IsParent(E, |par| - 1, v, par[v]);
    }
  }

  /** The least vertex from k on that is joined to j, or 0. */
  ghost function FirstJoined(E: Edges, n: nat, j: nat, k: nat): (p: nat)
    requires 0 < k <= n + 1
    ensures p == 0 ==> forall i :: k <= i <= n ==> !Joined(E, j, i)
    ensures p != 0 ==> k <= p <= n && Joined(E, j, p) && forall i :: k <= i < p ==> !Joined(E, j, i)
    decreases n + 1 - k
  {
    if k == n + 1 then 0 else if Joined(E, j, k) then k else FirstJoined(E, n, j, k + 1)
  }

  /** Every graph has an elimination tree ... */
  lemma EtreeExists(E: Edges, n: nat) returns (par: seq<nat>)
    ensures |par| == n + 1 && IsEtree(E, par)
  {
    par := seq(n + 1, j requires 0 <= j <= n => if j == 0 then 0 else FirstJoined(E, n, j, j + 1));
    forall j | 0 < j < |par| ensures IsParent(E, n, j, par[j]) {
      assert par[j] == FirstJoined(E, n, j, j + 1);
    }
  }

  /** ... and only one (slot 0 apart). */
  lemma EtreeIsUnique(E: Edges, p: seq<nat>, q: seq<nat>)
    requires IsEtree(E, p) && IsEtree(E, q) && |p| == |q|
    ensures p[1..] == q[1..]
  {
    forall j | 0 < j < |p|
      ensures p[j] == q[j]
    {
      assert IsParent(E, |p| - 1, j, p[j]);
      assert IsParent(E, |p| - 1, j, q[j]);
    }
    assert forall i :: 0 <= i < |p| - 1 ==> p[1..][i] == p[i + 1] && q[1..][i] == q[i + 1];
  }

  /** Whatever joins j to k among 1..k is a tree path: k is an ancestor of j. */
  lemma {:induction false} JoinedIsAncestor(E: Edges, par: seq<nat>, j: nat, k: nat)
    requires Symmetric(E) && IsEtree(E, par) && Forest(par)
    requires 0 < j < k < |par| && Joined(E, j, k)
    ensures Ancestor(par, k, j)
    decreases |par| - j
  {
    assert IsParent(E, |par| - 1, j, par[j]);
    var q := par[j];
    if q != k {
      assert 0 < q < k;
      ConnectedMono(E, UpTo(q), UpTo(k), j, q);
      ConnectedSym(E, UpTo(k), j, q);
      ConnectedTrans(E, UpTo(k), q, j, k);
      JoinedIsAncestor(E, par, q, k);
    }
  }

  // ------------------------------------------------------------------------------------------
  // A labelling-independent description: a forest is the elimination tree iff every edge runs
  // along an ancestor path and every vertex is joined to its parent inside the parent's subtree.
  // ------------------------------------------------------------------------------------------

  /** The subtree rooted at r. */
  ghost predicate IsSubtree(par: seq<nat>, r: nat, S: set<nat>)
    requires Forest(par)
  {
    forall v :: v in S <==> AncestorOrSelf(par, r, v)
  }

  ghost function Subtree(par: seq<nat>, r: nat): (S: set<nat>)
    requires Forest(par)
    ensures IsSubtree(par, r, S)
  {
    set v | v in UpTo(|par| - 1) && AncestorOrSelf(par, r, v)
  }

  ghost predicate EdgesFollowTree(E: Edges, par: seq<nat>)
    requires Forest(par)
  {
    forall x, y :: (x, y) in E && 0 < y < x < |par| ==> Ancestor(par, x, y)
  }

  ghost predicate ChildrenAreAttached(E: Edges, par: seq<nat>)
    requires Forest(par)
  {
    forall v :: 0 < v < |par| && par[v] != 0 ==> Connected(E, Subtree(par, par[v]), v, par[v])
  }

  lemma EtreeEdgesFollowTree(E: Edges, par: seq<nat>)
    requires Symmetric(E) && IsEtree(E, par) && Forest(par)
    ensures EdgesFollowTree(E, par)
  {
    forall x, y | (x, y) in E && 0 < y < x < |par|
      ensures Ancestor(par, x, y)
    {
      ConnectedEdge(E, UpTo(x), y, x);
      JoinedIsAncestor(E, par, y, x);
    }
  }

  lemma EtreeChildrenAreAttached(E: Edges, par: seq<nat>)
    requires Symmetric(E) && IsEtree(E, par) && Forest(par)
    ensures ChildrenAreAttached(E, par)
  {
    forall v | 0 < v < |par| && par[v] != 0
      ensures Connected(E, Subtree(par, par[v]), v, par[v])
    {
      var p := par[v];
      assert IsParent(E, |par| - 1, v, p);
      var C := set u | u in UpTo(p) && Connected(E, UpTo(p), v, u);
      ConnectedInsideComponent(E, UpTo(p), C, v, p);
      forall u | u in C
        ensures u in Subtree(par, p)
      {
        if u != p {
          ConnectedSym(E, UpTo(p), v, u);
          ConnectedTrans(E, UpTo(p), u, v, p);
          JoinedIsAncestor(E, par, u, p);
        }
      }
      ConnectedMono(E, C, Subtree(par, p), v, p);
    }
  }

  /** An edge that leaves the subtree of j for a vertex below par[j] cannot exist. */
  lemma SubtreeIsClosedBelowParent(E: Edges, par: seq<nat>, j: nat, k: nat)
    requires Symmetric(E) && Forest(par) && EdgesFollowTree(E, par)
    requires 0 < j < |par| && k < |par| && (par[j] == 0 || k < par[j])
    ensures ClosedIn(E, UpTo(k), Subtree(par, j))
  {
    var S := Subtree(par, j);
    forall x, y | (x, y) in E && x in S && x in UpTo(k) && y in UpTo(k)
      ensures y in S
    {
      if y < x {
        assert Ancestor(par, x, y);
        if x != j { AncestorTrans(par, j, x, y); }
      } else if x < y {
        assert (y, x) in E;
        assert Ancestor(par, y, x);
        EscapeIsAtLeastParent(par, j, x, y);
      }
    }
  }

  /** A proper ancestor y of x in the subtree of j is in the subtree, or par[j] or above. */
  lemma EscapeIsAtLeastParent(par: seq<nat>, j: nat, x: nat, y: nat)
    requires Forest(par) && 0 < j < |par| && AncestorOrSelf(par, j, x) && Ancestor(par, y, x)
    ensures AncestorOrSelf(par, j, y) || (par[j] != 0 && par[j] <= y)
  {
    if x == j {
      if par[j] != y { AncestorIsLarger(par, y, par[j]); }
    } else if y < j {
      AncestorsAreOrdered(par, y, j, x);
      AncestorIsLarger(par, y, x);
    } else if j < y {
      AncestorsAreOrdered(par, j, y, x);
      if par[j] != y { AncestorIsLarger(par, y, par[j]); }
    } else {
      AncestorIsLarger(par, y, x);
    }
  }

  lemma AttachedIsEtree(E: Edges, par: seq<nat>)
    requires Symmetric(E) && Forest(par) && EdgesFollowTree(E, par) && ChildrenAreAttached(E, par)
    ensures IsEtree(E, par)
  {
    forall j | 0 < j < |par|
      ensures IsParent(E, |par| - 1, j, par[j])
    {
      var p := par[j];
      forall k | j < k < |par| && (p == 0 || k < p)
        ensures !Joined(E, j, k)
      {
        if Joined(E, j, k) {
          SubtreeIsClosedBelowParent(E, par, j, k);
          ConnectedStaysClosed(E, UpTo(k), Subtree(par, j), j, k);
          AncestorIsLarger(par, j, k);
        }
      }
      if p != 0 {
        forall v | v in Subtree(par, p)
          ensures v in UpTo(p)
        {
          if v != p { AncestorIsLarger(par, p, v); }
        }
        ConnectedMono(E, Subtree(par, p), UpTo(p), j, p);
      }
    }
  }

  /** The elimination tree is the one forest along whose paths all edges run and in which every
      vertex is joined to its parent inside the parent's subtree. */
  lemma EtreeCharacterised(E: Edges, par: seq<nat>)
    requires Symmetric(E) && Forest(par)
    ensures IsEtree(E, par) <==> EdgesFollowTree(E, par) && ChildrenAreAttached(E, par)
  {
    if IsEtree(E, par) {
      EtreeEdgesFollowTree(E, par);
      EtreeChildrenAreAttached(E, par);
    } else if EdgesFollowTree(E, par) && ChildrenAreAttached(E, par) {
      AttachedIsEtree(E, par);
    }
  }
}
