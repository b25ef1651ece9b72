/** Postorders of a forest: child lists, the order in which a depth-first walk leaves the vertices,
    and what it means to be a postorder. */
module Postorders {
  import opened Sequences
  import opened Graphs
  import opened EliminationTrees
  import opened Permutations
  import opened Relabelling
  import opened Sorting

  /** A postorder numbering: children before parents, every subtree a contiguous block that ends
      with its root. */
  ghost predicate IsPostorder(par: seq<nat>, s: seq<nat>)
    requires Forest(par)
  {
    && |s| == |par| && IsPermutation(s) && Topological(par, s)
    && forall v: nat, x: nat, y: nat ::
         v < |par| && Ancestor(par, v, x) && 0 < y < |par| && s[x] < s[y] < s[v] ==> Ancestor(par, v, y)
  }

  /** The forest hung under one extra root n + 1. */
  function Rooted(par: seq<nat>): (t: seq<nat>)
    requires |par| >= 1
    ensures |t| == |par| + 1
    ensures forall v :: 0 < v < |par| ==> t[v] == if par[v] == 0 then |par| else par[v]
    ensures t[|par|] == 0
    ensures Forest(par) ==> Forest(t)
  {
    seq(|par| + 1, v requires 0 <= v <= |par| => if v == |par| then 0 else if par[v] == 0 then |par| else par[v])
  }

  lemma {:induction false} RootedAncestor(par: seq<nat>, a: nat, v: nat)
    requires Forest(par) && 0 < a < |par| && 0 < v < |par|
    ensures Ancestor(Rooted(par), a, v) <==> Ancestor(par, a, v)
    decreases |par| - v
  {
    var t := Rooted(par);
    if par[v] != 0 {
      RootedAncestor(par, a, par[v]);
    } else {
      assert !Ancestor(t, a, |par|);
    }
  }

  lemma {:induction false} UnderRoot(par: seq<nat>, v: nat)
    requires Forest(par)
    ensures Ancestor(Rooted(par), |par|, v) <==> 0 < v < |par|
    decreases |par| - v
  {
    if 0 < v < |par| && par[v] != 0 { UnderRoot(par, par[v]); }
  }

  // ------------------------------------------------------------------------------------------
  // Child lists and the order of the walk.
  // ------------------------------------------------------------------------------------------

  type Lists = seq<seq<nat>>

  /** The list of u holds smaller, nonzero vertices only. */
  ghost predicate Descending(kids: Lists) {
    forall u, i :: 0 < u < |kids| && 0 <= i < |kids[u]| ==> 0 < kids[u][i] < u
  }

  /** Vertices in the order the walk leaves them, over the lists of u from position i on. */
  ghost function Order(kids: Lists, u: nat, i: nat): seq<nat>
    requires Descending(kids) && 0 < u < |kids| && i <= |kids[u]|
    decreases u, |kids[u]| - i
  {
    if i == |kids[u]| then [] else
      Order(kids, kids[u][i], 0) + [kids[u][i]] + Order(kids, u, i + 1)
  }

  /** The list of u holds exactly the children of u, each once. */
  ghost predicate ChildrenOf(t: seq<nat>, kids: Lists, u: nat)
    requires 0 < u < |kids|
  {
    && (forall v :: v in kids[u] <==> 0 < v < |t| && t[v] == u)
    && (forall i, j :: 0 <= i < j < |kids[u]| ==> kids[u][i] != kids[u][j])
  }

  ghost predicate ChildLists(t: seq<nat>, kids: Lists) {
    && |kids| == |t| && Descending(kids)
    && forall u :: 0 < u < |kids| ==> ChildrenOf(t, kids, u)
  }

  /** The child of u on the path from its descendant x. */
  ghost function Toward(t: seq<nat>, u: nat, x: nat): (c: nat)
    requires Forest(t) && Ancestor(t, u, x)
    ensures 0 < c < |t| && t[c] == u && AncestorOrSelf(t, c, x)
    decreases |t| - x
  {
    if t[x] == u then x else Toward(t, u, t[x])
  }

  lemma {:induction false} TowardThrough(t: seq<nat>, u: nat, c: nat, x: nat)
    requires Forest(t) && 0 < c < |t| && t[c] == u != 0 && AncestorOrSelf(t, c, x)
    ensures Ancestor(t, u, x) && Toward(t, u, x) == c
    decreases |t| - x
  {
    if x != c {
      AncestorIsLarger(t, c, x);
      TowardThrough(t, u, c, t[x]);
      AncestorIsLarger(t, u, t[x]);
    }
  }

  /** The walk from position i of u's list visits the subtrees of the children from i on. */
  lemma {:induction false} OrderMembers(t: seq<nat>, kids: Lists, u: nat, i: nat, x: nat)
    requires Forest(t) && ChildLists(t, kids) && 0 < u < |kids| && i <= |kids[u]|
    ensures x in Order(kids, u, i) <==> Ancestor(t, u, x) && Toward(t, u, x) in kids[u][i..]
    decreases u, |kids[u]| - i
  {
    assert ChildrenOf(t, kids, u);
    if i < |kids[u]| {
      var c := kids[u][i];
      assert c in kids[u] && t[c] == u;
      assert ChildrenOf(t, kids, c);
      OrderMembers(t, kids, c, 0, x);
      OrderMembers(t, kids, u, i + 1, x);
      assert kids[u][i..] == [c] + kids[u][i + 1..];
      if x == c || Ancestor(t, c, x) {
        TowardThrough(t, u, c, x);
      }
      if Ancestor(t, c, x) {
        assert Toward(t, c, x) in kids[c];
        assert kids[c][0..] == kids[c];
      }
    }
  }

  lemma OrderIsSubtree(t: seq<nat>, kids: Lists, u: nat, x: nat)
    requires Forest(t) && ChildLists(t, kids) && 0 < u < |kids|
    ensures x in Order(kids, u, 0) <==> Ancestor(t, u, x)
  {
    OrderMembers(t, kids, u, 0, x);
    assert ChildrenOf(t, kids, u) && kids[u][0..] == kids[u];
    if Ancestor(t, u, x) {
      assert Toward(t, u, x) in kids[u];
    }
  }

  lemma DistinctParts(a: seq<nat>, c: nat, b: seq<nat>)
    requires NoRepeats(a) && NoRepeats(b) && c !in a && c !in b && forall x :: x in a ==> x !in b
    ensures NoRepeats(a + [c] + b)
  {
    var s := a + [c] + b;
    forall i, j | 0 <= i < j < |s|
      ensures s[i] != s[j]
    {
      if i < |a| { assert s[i] in a; }
      if j > |a| { assert s[j] in b; }
    }
  }

  lemma {:induction false} OrderDistinct(t: seq<nat>, kids: Lists, u: nat, i: nat)
    requires Forest(t) && ChildLists(t, kids) && 0 < u < |kids| && i <= |kids[u]|
    ensures NoRepeats(Order(kids, u, i))
    decreases u, |kids[u]| - i
  {
    assert ChildrenOf(t, kids, u);
    if i < |kids[u]| {
      var c := kids[u][i];
      assert c in kids[u] && t[c] == u;
      OrderDistinct(t, kids, c, 0);
      OrderDistinct(t, kids, u, i + 1);
      assert c !in kids[u][i + 1..];
      assert Order(kids, u, i) == Order(kids, c, 0) + [c] + Order(kids, u, i + 1);
      hide Order, NoRepeats, ChildrenOf, Toward, Ancestor;
      forall x | x == c || x in Order(kids, c, 0)
        ensures x !in Order(kids, u, i + 1)
      {
        OrderIsSubtree(t, kids, c, x);
        TowardThrough(t, u, c, x);
        OrderMembers(t, kids, u, i + 1, x);
      }
      OrderIsSubtree(t, kids, c, c);
      if Ancestor(t, c, c) { AncestorIsLarger(t, c, c); }
      DistinctParts(Order(kids, c, 0), c, Order(kids, u, i + 1));
    }
  }

  /** The block stands at k, directly followed by v. */
  ghost predicate BlockAt(s: seq<nat>, k: nat, block: seq<nat>, v: nat) {
    k + |block| < |s| && s[k..k + |block|] == block && s[k + |block|] == v
  }

  lemma BlockInFront(a: seq<nat>, b: seq<nat>, block: seq<nat>, v: nat, k: nat)
    requires BlockAt(a, k, block, v)
    ensures BlockAt(a + b, k, block, v)
  {
    SliceOfFirst(a, b, k, k + |block|);
  }

  lemma BlockBehind(a: seq<nat>, b: seq<nat>, block: seq<nat>, v: nat, k: nat)
    requires BlockAt(b, k, block, v)
    ensures BlockAt(a + b, |a| + k, block, v)
  {
    SliceOfSecond(a, b, k, k + |block|);
  }

  lemma BlockHere(a: seq<nat>, b: seq<nat>, v: nat)
    ensures BlockAt(a + [v] + b, 0, a, v)
  {
  }

  /** The subtree of v is a block of the walk, directly followed by v. */
  lemma {:induction false} SubtreeIsBlock(kids: Lists, u: nat, i: nat, v: nat) returns (k: nat)
    requires Descending(kids) && 0 < u < |kids| && i <= |kids[u]| && v in Order(kids, u, i)
    ensures 0 < v < u && BlockAt(Order(kids, u, i), k, Order(kids, v, 0), v)
    decreases u, |kids[u]| - i
  {
    var c := kids[u][i];
    var a, b := Order(kids, c, 0), Order(kids, u, i + 1);
    assert Order(kids, u, i) == a + [c] + b;
    hide Order, BlockAt;
    if v == c {
      k := 0;
      BlockHere(a, b, c);
    } else if v in a {
      k := SubtreeIsBlock(kids, c, 0, v);
      BlockInFront(a, [c] + b, Order(kids, v, 0), v, k);
      assert a + [c] + b == a + ([c] + b);
    } else {
      var k' := SubtreeIsBlock(kids, u, i + 1, v);
      k := |a| + 1 + k';
      BlockBehind(a + [c], b, Order(kids, v, 0), v, k');
    }
  }

  /** s numbers the vertices of `order` from 1 on. */
  ghost predicate Numbers(order: seq<nat>, s: seq<nat>) {
    && |s| == |order| + 1
    && forall k :: 0 <= k < |order| ==> 0 < order[k] < |s| && s[order[k]] == k + 1
  }

  /** The walk visits all n vertices. */
  lemma OrderIsComplete(par: seq<nat>, kids: Lists)
    requires Forest(par) && ChildLists(Rooted(par), kids)
    ensures var order := Order(kids, |par|, 0);
      && |order| == |par| - 1 && NoRepeats(order)
      && forall v: nat :: v in order <==> 0 < v < |par|
  {
    var t, n := Rooted(par), |par| - 1;
    var order := Order(kids, n + 1, 0);
    OrderDistinct(t, kids, n + 1, 0);
    forall v: nat
      ensures v in order <==> 0 < v <= n
    {
      OrderIsSubtree(t, kids, n + 1, v);
      UnderRoot(par, v);
    }
    DistinctSize(order, n);
  }

  ghost function Elements(s: seq<nat>): (r: set<nat>)
    ensures forall v :: v in r <==> v in s
  {
    if s == [] then {} else Elements(s[..|s| - 1]) + {s[|s| - 1]}
  }

  lemma {:induction false} ElementsSize(s: seq<nat>)
    requires NoRepeats(s)
    ensures |Elements(s)| == |s|
  {
    if s != [] {
      ElementsSize(s[..|s| - 1]);
      assert s[|s| - 1] !in s[..|s| - 1];
    }
  }

  lemma DistinctSize(order: seq<nat>, n: nat)
    requires NoRepeats(order) && forall v: nat :: v in order <==> 0 < v <= n
    ensures |order| == n
  {
    assert Elements(order) == UpTo(n);
    UpToSize(n);
    ElementsSize(order);
  }

  lemma NumbersIsPermutation(order: seq<nat>, s: seq<nat>)
    requires Numbers(order, s) && forall v: nat :: 0 < v < |s| ==> v in order
    ensures IsPermutation(s)
  {
    forall v | 0 < v < |s|
      ensures 0 < s[v] < |s| && order[s[v] - 1] == v
    {
      assert v in order;
      var k :| 0 <= k < |order| && order[k] == v;
    }
  }

  /** What lies between two numbers of a block directly followed by v is in the block. */
  lemma BlockNumbers(order: seq<nat>, s: seq<nat>, k: nat, block: seq<nat>, v: nat, x: nat, y: nat)
    requires Numbers(order, s) && k + |block| < |order|
    requires order[k..k + |block|] == block && order[k + |block|] == v && x in block
    requires y in order
    ensures x < |s| && y < |s| && v < |s| && s[x] < s[v]
    ensures s[x] < s[y] < s[v] ==> y in block
  {
    var i :| 0 <= i < |block| && block[i] == x;
    assert order[k + i] == x;
    var j :| 0 <= j < |order| && order[j] == y;
    if k + i < j < k + |block| {
      assert block[j - k] == y;
    }
  }

  lemma OrderBlock(t: seq<nat>, kids: Lists, r: nat, s: seq<nat>, v: nat, x: nat, y: nat)
    requires Forest(t) && ChildLists(t, kids) && 0 < r < |kids| && Numbers(Order(kids, r, 0), s)
    requires v in Order(kids, r, 0) && y in Order(kids, r, 0) && Ancestor(t, v, x)
    ensures x < |s| && y < |s| && v < |s| && s[x] < s[v]
    ensures s[x] < s[y] < s[v] ==> Ancestor(t, v, y)
  {
    hide Order, Numbers, ChildrenOf;
    var k := SubtreeIsBlock(kids, r, 0, v);
    OrderIsSubtree(t, kids, v, x);
    OrderIsSubtree(t, kids, v, y);
    BlockNumbers(Order(kids, r, 0), s, k, Order(kids, v, 0), v, x, y);
  }

  lemma WalkBlock(par: seq<nat>, kids: Lists, s: seq<nat>, v: nat, x: nat, y: nat)
    requires Forest(par) && ChildLists(Rooted(par), kids)
    requires Numbers(Order(kids, |par|, 0), s) && v < |par| && Ancestor(par, v, x) && 0 < y < |par|
    ensures |s| == |par| && s[x] < s[v]
    ensures s[x] < s[y] < s[v] ==> Ancestor(par, v, y)
  {
    OrderIsComplete(par, kids);
    AncestorIsLarger(par, v, x);
    RootedAncestor(par, v, x);
    RootedAncestor(par, v, y);
    OrderBlock(Rooted(par), kids, |par|, s, v, x, y);
  }

  /** Numbering the vertices as the walk leaves them is a postorder, whatever the list order. */
  lemma WalkIsPostorder(par: seq<nat>, kids: Lists, s: seq<nat>)
    requires Forest(par) && ChildLists(Rooted(par), kids)
    requires Numbers(Order(kids, |par|, 0), s)
    ensures IsPostorder(par, s)
  {
    OrderIsComplete(par, kids);
    NumbersIsPermutation(Order(kids, |par|, 0), s);
    forall v: nat, x: nat, y: nat | v < |par| && Ancestor(par, v, x) && 0 < y < |par| && s[x] < s[y] < s[v]
      ensures Ancestor(par, v, y)
    {
      WalkBlock(par, kids, s, v, x, y);
    }
    forall v | 0 < v < |par| && 0 < par[v] < |s|
      ensures s[v] < s[par[v]]
    {
      WalkBlock(par, kids, s, par[v], v, v);
    }
  }
}
