/** When SortChildren moves the keys by the permutation that it moves the ordering by. */
module KeyMoves {
  import opened EliminationTrees
  import opened Permutations
  import opened Relabelling
  import opened Postorders
  import opened ChildListsBuild
  import opened Postordering
  import opened ETrees
  import opened Reorderings

  ghost predicate OneRoot(par: seq<nat>) {
    forall v, w :: 0 < v < w < |par| ==> par[v] != 0 || par[w] != 0
  }

  ghost predicate MovesNothing(s: seq<nat>) {
    forall v :: 0 < v < |s| ==> s[v] == v
  }

  function Identity(n: nat): (s: seq<nat>)
    ensures |s| == n && forall v :: 0 <= v < n ==> s[v] == v
  {
    seq(n, v requires 0 <= v < n => v)
  }

  lemma {:induction false} AncestorsComeLater(par: seq<nat>, s: seq<nat>, a: nat, v: nat)
    requires Forest(par) && Topological(par, s) && Ancestor(par, a, v)
    ensures a < |s| && s[v] < s[a]
    decreases |par| - v
  {
    if par[v] != a { AncestorsComeLater(par, s, a, par[v]); }
  }

  lemma {:induction false} RootIsAboveAll(par: seq<nat>, root: nat, v: nat)
    requires Forest(par) && OneRoot(par) && 0 < root < |par| && par[root] == 0 && 0 < v < |par|
    ensures AncestorOrSelf(par, root, v)
    decreases |par| - v
  {
    if par[v] != 0 { RootIsAboveAll(par, root, par[v]); }
  }

  /** Vertices that are not above each other hang below, or are, two different siblings. */
  lemma {:induction false} AsideOfEachOther(par: seq<nat>, a: nat, b: nat) returns (c: nat, d: nat)
    requires Forest(par) && OneRoot(par) && 0 < a < |par| && 0 < b < |par|
    requires !AncestorOrSelf(par, a, b) && !AncestorOrSelf(par, b, a)
    ensures 0 < c < |par| && 0 < d < |par| && c != d && par[c] == par[d] != 0
    ensures AncestorOrSelf(par, c, a) && AncestorOrSelf(par, d, b)
    decreases 2 * |par| - a - b, a > b
  {
    if a > b {
      d, c := AsideOfEachOther(par, b, a);
    } else if AncestorOrSelf(par, par[a], b) {
      c := a;
      d := ChildTowards(par, par[a], b);
    } else {
      if par[a] == 0 { RootIsAboveAll(par, a, b); }
      c, d := AsideOfEachOther(par, par[a], b);
    }
  }

  /** The child of p on the way down to v. */
  lemma {:induction false} ChildTowards(par: seq<nat>, p: nat, v: nat) returns (c: nat)
    requires Forest(par) && Ancestor(par, p, v)
    ensures 0 < c < |par| && AncestorOrSelf(par, c, v) && par[c] == p
    decreases |par| - v
  {
    if par[v] == p { c := v; } else { c := ChildTowards(par, p, par[v]); }
  }

  lemma SiblingIsNotAbove(par: seq<nat>, d: nat, c: nat)
    requires Forest(par) && 0 < c < |par| && 0 < d < |par| && c != d && par[c] == par[d] != 0
    ensures !Ancestor(par, d, c)
  {
    if Ancestor(par, d, par[c]) { AncestorIsLarger(par, d, par[c]); }
  }

  /** In a postorder, what hangs below siblings is numbered in the order of the siblings. */
  lemma BelowSiblings(par: seq<nat>, s: seq<nat>, c: nat, d: nat, a: nat, b: nat)
    requires Forest(par) && IsPostorder(par, s) && 0 < c < |par| && 0 < d < |par| && c != d && par[c] == par[d] != 0
    requires AncestorOrSelf(par, c, a) && AncestorOrSelf(par, d, b) && s[c] < s[d]
    ensures s[a] < s[b]
  {
    if a != c { AncestorsComeLater(par, s, c, a); }
    SiblingIsNotAbove(par, d, c);
  }

  /** PostOrderTree keeps the numbers of a tree with one root that is numbered in postorder already. */
  lemma PostorderStays(par: seq<nat>, s: seq<nat>, q: seq<nat>)
    requires FirstPostordered(par, s, q) && OneRoot(par) && Postordered(par)
    ensures MovesNothing(s)
  {
    forall a, b | 0 < a < b < |par| ensures s[a] < s[b] {
      OrderStays(par, s, q, a, b);
    }
    forall v | 0 < v < |s| ensures s[v] == v {
      GrowsAtLeast(s, v);
      GrowsAtMost(s, v);
    }
  }

  lemma OrderStays(par: seq<nat>, s: seq<nat>, q: seq<nat>, a: nat, b: nat)
    requires FirstPostordered(par, s, q) && OneRoot(par) && Postordered(par) && 0 < a < b < |par|
    ensures s[a] < s[b]
  {
    FirstIsPostorder(par, s, q);
    IdentityIsPostorder(par);
    hide FirstPostordered, IsPostorder, Postordered, OneRoot, Topological, Ancestor;
    if Ancestor(par, b, a) {
      AncestorsComeLater(par, s, b, a);
    } else {
      if Ancestor(par, a, b) { AncestorIsLarger(par, a, b); }
      var c, d := AsideOfEachOther(par, a, b);
      var id := Identity(|par|);
      if d < c { BelowSiblings(par, id, d, c, b, a); }
      PostOrderOfSiblings(par, s, q, c, d);
      BelowSiblings(par, s, c, d, a, b);
    }
  }

  lemma FirstIsPostorder(par: seq<nat>, s: seq<nat>, q: seq<nat>)
    requires FirstPostordered(par, s, q)
    ensures Forest(par) && IsPostorder(par, s) && Topological(par, s) && |s| == |par|
  {
    WalkNumbersPostorder(par, NoKeys(|par|), s);
  }

  lemma IdentityIsPostorder(par: seq<nat>)
    requires Forest(par) && Postordered(par)
    ensures IsPostorder(par, Identity(|par|))
  {
  }

  lemma {:induction false} GrowsAtLeast(s: seq<nat>, v: nat)
    requires IsPermutation(s) && 0 < v < |s| && forall a, b :: 0 < a < b < |s| ==> s[a] < s[b]
    ensures s[v] >= v
  {
    if v > 1 { GrowsAtLeast(s, v - 1); }
  }

  lemma {:induction false} GrowsAtMost(s: seq<nat>, v: nat)
    requires IsPermutation(s) && 0 < v < |s| && forall a, b :: 0 < a < b < |s| ==> s[a] < s[b]
    ensures s[v] <= v
    decreases |s| - v
  {
    if v + 1 < |s| { GrowsAtMost(s, v + 1); }
  }

  lemma FirstMovesNothing(par: seq<nat>, s: seq<nat>, q: seq<nat>)
    requires FirstPostordered(par, s, q)
    ensures MovesNothing(s) <==> OneRoot(par) && Postordered(par)
  {
    FirstIsPostorder(par, s, q);
    if OneRoot(par) && Postordered(par) {
      PostorderStays(par, s, q);
    }
    hide FirstPostordered;
    if MovesNothing(s) {
      forall v, w | 0 < v < w < |par| ensures par[v] != 0 || par[w] != 0 {
        if par[v] == par[w] == 0 { PostOrderOfSiblings(par, s, q, v, w); }
      }
      forall v: nat, x: nat, y: nat | Ancestor(par, v, x) && x < y < v ensures Ancestor(par, v, y) {
        AncestorIsLarger(par, v, x);
        assert s[x] < s[y] < s[v];
      }
    }
  }

  lemma SkippedIfNothingMoves(invp: seq<nat>, s0: seq<nat>, s: seq<nat>)
    requires |invp| == |s0| == |s| && IsPermutation(invp) && IsPermutation(s0) && IsPermutation(s)
    ensures |Composed(invp, s0)| == |s| && IsPermutation(Composed(invp, s0))
    ensures Composed(Composed(invp, s0), s)[1..] == Composed(invp, s)[1..] <==> MovesNothing(s0)
  {
    ComposedIsPermutation(invp, s0);
    var twice, once := Composed(Composed(invp, s0), s), Composed(invp, s);
    if twice[1..] == once[1..] {
      forall v | 0 < v < |s0| ensures s0[v] == v {
        PermutationIsOnto(invp, v);
        var u :| 0 < u < |invp| && invp[u] == v;
        assert twice[u] == twice[1..][u - 1] == once[1..][u - 1] == once[u];
      }
    }
  }

  /** SortChildren on a tree that is not marked as postordered renumbers twice, by s0 and by s, and moves
      the keys by s only. Ordering and keys are moved alike exactly when the parents are those of one
      tree numbered in postorder already. */
  lemma KeysFollowOrdering(par: seq<nat>, s0: seq<nat>, q0: seq<nat>, invp: seq<nat>, s: seq<nat>)
    requires FirstPostordered(par, s0, q0) && |invp| == |par| == |s| && IsPermutation(invp) && IsPermutation(s)
    ensures |Composed(invp, s0)| == |s| && IsPermutation(Composed(invp, s0))
    ensures Composed(Composed(invp, s0), s)[1..] == Composed(invp, s)[1..] <==> OneRoot(par) && Postordered(par)
  {
    FirstMovesNothing(par, s0, q0);
    SkippedIfNothingMoves(invp, s0, s);
  }

  // ---- Two vertices without an edge ----

  lemma FirstIn(list: seq<nat>)
    ensures list != [] ==> list[0] in list
  {
  }

  lemma TwoRootsList(kids: Lists)
    requires kids == ListsFrom([0, 0, 0], NoKeys(3), 1)
    ensures Descending(kids) && |kids| == 4 && Order(kids, 3, 0) == [2, 1]
  {
    var par, cc: seq<int> := [0, 0, 0], NoKeys(3);
    ListsAreChildLists(par, cc);
    assert kids[1] == ListOf(par, cc, 1, 1) && kids[2] == ListOf(par, cc, 2, 1) && kids[3] == ListOf(par, cc, 3, 1);
    assert ListOf(par, cc, 3, 2) == [2] && ListOf(par, cc, 3, 1) == [2] + [1];
    FirstIn(kids[1]);
    FirstIn(kids[2]);
    assert kids[1] == [] && kids[2] == [];
    OrderOfTwo(kids);
  }

  lemma OrderOfTwo(kids: Lists)
    requires Descending(kids) && |kids| == 4 && kids[1] == kids[2] == [] && kids[3] == [2, 1]
    ensures Order(kids, 3, 0) == [2, 1]
  {
    assert Order(kids, 3, 2) == [];
    assert Order(kids, 3, 1) == Order(kids, 1, 0) + [1] + Order(kids, 3, 2) == [1];
    assert Order(kids, 3, 0) == Order(kids, 2, 0) + [2] + Order(kids, 3, 1);
  }

  lemma TwoRootsPostordered()
    ensures FirstPostordered([0, 0, 0], [0, 2, 1], [0, 0, 0])
  {
    var par, s0: seq<nat> := [0, 0, 0], [0, 2, 1];
    var kids := ListsFrom(par, NoKeys(3), 1);
    ListsAreChildLists(par, NoKeys(3));
    TwoRootsList(kids);
    assert WalkNumbers(par, NoKeys(3), s0) by {
      hide ListsFrom, Order, ChildLists;
      assert Numbers([2, 1], s0);
    }
    hide WalkNumbers, ListsFrom;
  }

  /** The two are numbered the other way round first, so that keys and ordering part, whatever the labels
      and whatever renumbering follows. */
  lemma TwoRootsTurnTwice(invp: seq<nat>, s: seq<nat>)
    requires |invp| == |s| == 3 && IsPermutation(invp) && IsPermutation(s)
    ensures FirstPostordered([0, 0, 0], [0, 2, 1], [0, 0, 0])
    ensures |Composed(invp, [0, 2, 1])| == 3 && IsPermutation(Composed(invp, [0, 2, 1]))
    ensures Composed(Composed(invp, [0, 2, 1]), s)[1..] != Composed(invp, s)[1..]
  {
    TwoRootsPostordered();
    NotOneRoot();
    hide *;
    KeysFollowOrdering([0, 0, 0], [0, 2, 1], [0, 0, 0], invp, s);
  }

  lemma NotOneRoot()
    ensures !OneRoot([0, 0, 0])
  {
    var par: seq<nat> := [0, 0, 0];
    assert par[1] == par[2] == 0;
  }
}
