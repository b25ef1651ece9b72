/** What PostOrderTree and any number of SortChildren calls keep, and what each numbering looks like. */
module Reorderings {
  import opened Graphs
  import opened EliminationTrees
  import opened Permutations
  import opened Relabelling
  import opened Postorders
  import opened ChildListsBuild
  import opened Postordering
  import opened ETrees

  /** The parents, the labels of the original vertices and the vertices of the labels. */
  datatype Labelled = Labelled(parents: seq<nat>, invp: seq<nat>, perm: seq<nat>)

  /** Labels and vertices are inverse to each other, and the parents are what tree construction would
      compute afresh for the graph under these labels. */
  ghost predicate TreeOf(E: Edges, st: Labelled) {
    && |st.parents| == |st.invp| >= 2 && Inverses(st.invp, st.perm) && EdgesWithin(E, |st.invp| - 1)
    && IsEtree(RelabelledEdges(E, st.invp), st.parents)
  }

  /** The labels follow the renaming, and perm is written from them. */
  ghost predicate Relabels(a: Labelled, b: Labelled, s: seq<nat>) {
    && |a.invp| == |s| && IsPermutation(a.invp) && IsPermutation(s) && b.invp == Composed(a.invp, s)
    && |b.perm| == |b.invp| && forall v :: 0 < v < |b.invp| && 0 < b.invp[v] < |b.perm| ==> b.perm[b.invp[v]] == v
  }

  ghost predicate PostOrderStep(a: Labelled, b: Labelled, s: seq<nat>) {
    && FirstPostordered(a.parents, s, b.parents)
    && Relabels(a, b, s)
  }

  ghost predicate SortStep(a: Labelled, b: Labelled, cc: seq<int>, s: seq<nat>, cc': seq<int>) {
    && Resorted(a.parents, cc, s, b.parents, cc')
    && Relabels(a, b, s)
  }

  lemma RenamingKeepsTree(E: Edges, a: Labelled, b: Labelled, s: seq<nat>)
    requires Symmetric(E) && TreeOf(E, a) && Forest(a.parents)
    requires |s| == |a.parents| && IsPermutation(s) && IsPostorder(a.parents, s)
    requires IsRelabelledTree(a.parents, s, b.parents) && Relabels(a, b, s)
    ensures TreeOf(E, b)
  {
    RelabelledEdgesBasics(E, a.invp);
    RelabelledTwice(E, a.invp, s);
    EquivalentReordering(RelabelledEdges(E, a.invp), a.parents, s, b.parents);
    ComposedIsPermutation(a.invp, s);
    forall w | 0 < w < |b.perm|
      ensures 0 < b.perm[w] < |b.invp| && b.invp[b.perm[w]] == w
    {
      PermutationIsOnto(b.invp, w);
    }
  }

  lemma PostOrderKeepsTree(E: Edges, a: Labelled, b: Labelled, s: seq<nat>)
    requires Symmetric(E) && TreeOf(E, a) && PostOrderStep(a, b, s)
    ensures TreeOf(E, b)
  {
    WalkNumbersPostorder(a.parents, NoKeys(|a.parents|), s);
    RenamingKeepsTree(E, a, b, s);
  }

  lemma SortKeepsTree(E: Edges, a: Labelled, b: Labelled, cc: seq<int>, s: seq<nat>, cc': seq<int>)
    requires Symmetric(E) && TreeOf(E, a) && SortStep(a, b, cc, s, cc')
    ensures TreeOf(E, b)
  {
    WalkNumbersPostorder(a.parents, cc, s);
    RenamingKeepsTree(E, a, b, s);
  }

  /** The states after PostOrderTree and after each further SortChildren call, with any keys. */
  ghost predicate Run(start: Labelled, run: seq<Labelled>) {
    && |run| >= 1
    && (exists s :: PostOrderStep(start, run[0], s))
    && forall k :: 0 < k < |run| ==> SortsInto(run[k - 1], run[k])
  }

  ghost predicate SortsInto(a: Labelled, b: Labelled) {
    exists cc, s, cc' :: SortStep(a, b, cc, s, cc')
  }

  /** Equivalent reordering over whole runs: the array kept up to date through PostOrderTree and any
      number of SortChildren calls is the elimination tree of the graph under the composed ordering, whose
      two arrays stay inverse to each other. */
  lemma {:induction false} RunKeepsTree(E: Edges, start: Labelled, run: seq<Labelled>, k: nat)
    requires Symmetric(E) && TreeOf(E, start) && Run(start, run) && k < |run|
    ensures TreeOf(E, run[k])
  {
    if k == 0 {
      var s :| PostOrderStep(start, run[0], s);
      PostOrderKeepsTree(E, start, run[0], s);
    } else {
      RunKeepsTree(E, start, run, k - 1);
      assert SortsInto(run[k - 1], run[k]);
      var cc, s, cc' :| SortStep(run[k - 1], run[k], cc, s, cc');
      SortKeepsTree(E, run[k - 1], run[k], cc, s, cc');
    }
  }

  // ------------------------------------------------------------------------------------------
  // The renamed tree read in its own labels.
  // ------------------------------------------------------------------------------------------

  /** Every subtree is an interval of labels that ends at its root. */
  ghost predicate Postordered(q: seq<nat>)
    requires Forest(q)
  {
    forall v: nat, x: nat, y: nat :: Ancestor(q, v, x) && x < y < v ==> Ancestor(q, v, y)
  }

  lemma {:induction false} AncestorRelabelledBack(par: seq<nat>, s: seq<nat>, q: seq<nat>, a: nat, v: nat)
    requires Forest(par) && IsPermutation(s) && Topological(par, s) && IsRelabelledTree(par, s, q) && Forest(q)
    requires 0 < v < |par| && 0 < a < |par| && Ancestor(q, s[a], s[v])
    ensures Ancestor(par, a, v)
    decreases |par| - v
  {
    assert q[s[v]] == if par[v] == 0 then 0 else s[par[v]];
    if par[v] != a {
      AncestorRelabelledBack(par, s, q, a, par[v]);
    }
  }

  lemma RenamedIsPostordered(par: seq<nat>, s: seq<nat>, q: seq<nat>)
    requires Forest(par) && |s| == |par| && IsPermutation(s) && IsPostorder(par, s) && IsRelabelledTree(par, s, q)
    ensures Forest(q) && Postordered(q)
  {
    RelabelledTreeIsForest(par, s, q);
    forall v: nat, x: nat, y: nat | Ancestor(q, v, x) && x < y < v
      ensures Ancestor(q, v, y)
    {
      AncestorIsLarger(q, v, x);
      PermutationIsOnto(s, v);
      PermutationIsOnto(s, x);
      PermutationIsOnto(s, y);
      var v0 :| 0 < v0 < |s| && s[v0] == v;
      var x0 :| 0 < x0 < |s| && s[x0] == x;
      var y0 :| 0 < y0 < |s| && s[y0] == y;
      AncestorRelabelledBack(par, s, q, v0, x0);
      assert Ancestor(par, v0, y0);
      AncestorRelabelled(par, s, q, v0, y0);
    }
  }

  lemma {:induction false} OrderEndsWithLastChild(kids: Lists, u: nat, i: nat)
    requires Descending(kids) && 0 < u < |kids| && i < |kids[u]|
    ensures var order := Order(kids, u, i); order != [] && order[|order| - 1] == kids[u][|kids[u]| - 1]
    decreases |kids[u]| - i
  {
    if i + 1 < |kids[u]| { OrderEndsWithLastChild(kids, u, i + 1); }
  }

  /** The last child in the list of v is numbered just before v. */
  lemma LastChildPrecedesParent(par: seq<nat>, cc: seq<int>, s: seq<nat>, v: nat)
    requires Forest(par) && |par| >= 2 && |cc| == |par| && WalkNumbers(par, cc, s) && 0 < v < |par|
    requires ListOf(par, cc, v, 1) != []
    ensures |s| == |par| && var list := ListOf(par, cc, v, 1); var last := list[|list| - 1];
      0 < last < |par| && par[last] == v && s[last] + 1 == s[v]
  {
    var kids := ListsFrom(par, cc, 1);
    ListsAreChildLists(par, cc);
    OrderIsComplete(par, kids);
    assert v in Order(kids, |par|, 0);
    var k := SubtreeIsBlock(kids, |par|, 0, v);
    var order, block := Order(kids, |par|, 0), Order(kids, v, 0);
    OrderEndsWithLastChild(kids, v, 0);
    var last := kids[v][|kids[v]| - 1];
    assert last in kids[v];
    assert order[k + |block| - 1] == block[|block| - 1] == last;
  }

  /** The child numbered just before its parent, next to any other child. */
  lemma LastChild(par: seq<nat>, cc: seq<int>, s: seq<nat>, v: nat, c: nat) returns (last: nat)
    requires Forest(par) && |par| >= 2 && |cc| == |par| == |s| && WalkNumbers(par, cc, s)
    requires 0 < v < |par| && 0 < c < |par| && par[c] == v
    ensures 0 < last < |par| && par[last] == v && s[last] + 1 == s[v] && cc[last] <= cc[c]
  {
    hide ListOf, WalkNumbers;
    var list := ListOf(par, cc, v, 1);
    assert c in list;
    LastChildPrecedesParent(par, cc, s, v);
    LastHasLeastKey(par, cc, v, 1);
    last := list[|list| - 1];
  }

  lemma ResortedParts(q: seq<nat>, cc: seq<int>, s: seq<nat>, q': seq<nat>, cc': seq<int>)
    requires Resorted(q, cc, s, q', cc')
    ensures Forest(q) && |q| == |s| == |q'| == |cc| == |cc'| >= 2 && WalkNumbers(q, cc, s)
  {
  }

  lemma ResortedAt(q: seq<nat>, cc: seq<int>, s: seq<nat>, q': seq<nat>, cc': seq<int>, v: nat)
    requires Resorted(q, cc, s, q', cc') && 0 < v < |q|
    ensures 0 < s[v] < |q'| && q[v] < |s| && q'[s[v]] == (if q[v] == 0 then 0 else s[q[v]]) && cc'[s[v]] == cc[v]
  {
    hide WalkNumbers;
  }

  /** A vertex and its parent under their labels before SortChildren. */
  lemma OldLabels(q: seq<nat>, cc: seq<int>, s: seq<nat>, q': seq<nat>, cc': seq<int>, u: nat, c: nat)
    returns (v: nat, c0: nat)
    requires Resorted(q, cc, s, q', cc') && 0 < u < |q'| && 0 < c < |q'| && q'[c] == u
    ensures 0 < v < |s| == |q| && s[v] == u && 0 < c0 < |s| && s[c0] == c && q[c0] == v
  {
    hide WalkNumbers;
    PermutationIsOnto(s, u);
    PermutationIsOnto(s, c);
    v :| 0 < v < |s| && s[v] == u;
    c0 :| 0 < c0 < |s| && s[c0] == c;
    assert q'[s[c0]] == (if q[c0] == 0 then 0 else s[q[c0]]);
  }

  /** After SortChildren, in the new labels: the vertex just below a parent is its child, and no
      child of that parent has a smaller key. */
  lemma LeastKeyBeforeParent(q: seq<nat>, cc: seq<int>, s: seq<nat>, q': seq<nat>, cc': seq<int>, u: nat, c: nat)
    requires Resorted(q, cc, s, q', cc') && 0 < u < |q'| && 0 < c < |q'| && q'[c] == u
    ensures 1 < u && q'[u - 1] == u && cc'[u - 1] <= cc'[c]
  {
    var v, c0 := OldLabels(q, cc, s, q', cc', u, c);
    ResortedParts(q, cc, s, q', cc');
    ResortedAt(q, cc, s, q', cc', c0);
    hide Resorted, WalkNumbers;
    var last := LastChild(q, cc, s, v, c0);
    ResortedAt(q, cc, s, q', cc', last);
  }

  lemma {:induction false} OrderHasChild(kids: Lists, u: nat, i: nat, j: nat) returns (b: nat)
    requires Descending(kids) && 0 < u < |kids| && i <= j < |kids[u]|
    ensures b < |Order(kids, u, i)| && Order(kids, u, i)[b] == kids[u][j]
    decreases |kids[u]| - i
  {
    b := |Order(kids, kids[u][i], 0)|;
    if i < j {
      var b' := OrderHasChild(kids, u, i + 1, j);
      b := b + 1 + b';
    }
  }

  lemma {:induction false} OrderKeepsListOrder(kids: Lists, u: nat, i0: nat, i: nat, j: nat) returns (a: nat, b: nat)
    requires Descending(kids) && 0 < u < |kids| && i0 <= i < j < |kids[u]|
    ensures a < b < |Order(kids, u, i0)|
    ensures Order(kids, u, i0)[a] == kids[u][i] && Order(kids, u, i0)[b] == kids[u][j]
    decreases |kids[u]| - i0
  {
    var skip := |Order(kids, kids[u][i0], 0)| + 1;
    if i0 == i {
      a := skip - 1;
      b := OrderHasChild(kids, u, i0 + 1, j);
    } else {
      a, b := OrderKeepsListOrder(kids, u, i0 + 1, i, j);
      a := skip + a;
    }
    b := skip + b;
  }

  /** Siblings are numbered in the order of their list. */
  lemma SiblingsNumberedInListOrder(par: seq<nat>, cc: seq<int>, s: seq<nat>, u: nat, i: nat, j: nat)
    requires Forest(par) && |par| >= 2 && |cc| == |par| && WalkNumbers(par, cc, s) && 0 < u <= |par|
    requires i < j < |ListOf(par, cc, u, 1)|
    ensures var list := ListOf(par, cc, u, 1);
      |s| == |par| && list[i] < |s| && list[j] < |s| && s[list[i]] < s[list[j]]
  {
    var kids := ListsFrom(par, cc, 1);
    ListsAreChildLists(par, cc);
    OrderIsComplete(par, kids);
    var order := Order(kids, |par|, 0);
    var a, b := OrderKeepsListOrder(kids, u, 0, i, j);
    if u < |par| {
      assert u in order;
      var k := SubtreeIsBlock(kids, |par|, 0, u);
      assert order[k + a] == Order(kids, u, 0)[a] && order[k + b] == Order(kids, u, 0)[b];
    }
  }

  lemma {:induction false} RootsDescend(par: seq<nat>, cc: seq<int>, lo: nat, i: nat, j: nat)
    requires Forest(par) && |par| >= 2 && |cc| == |par| && 0 < lo
    requires i < j < |ListOf(par, cc, |par|, lo)|
    ensures ListOf(par, cc, |par|, lo)[j] < ListOf(par, cc, |par|, lo)[i]
    decreases |par| - lo
  {
    var list := ListOf(par, cc, |par|, lo);
    if lo < |par| - 1 {
      var rest := ListOf(par, cc, |par|, lo + 1);
      if j < |rest| { RootsDescend(par, cc, lo + 1, i, j); } else { assert rest[i] in rest; }
    }
  }

  /** The key of c is below those of all its larger siblings. */
  ghost predicate BelowLaterSiblings(par: seq<nat>, cc: seq<int>, c: nat)
    requires c < |par| == |cc|
  {
    forall e :: c < e < |par| && par[e] == par[c] ==> cc[c] < cc[e]
  }

  lemma BelowAllOfRest(par: seq<nat>, cc: seq<int>, c: nat)
    requires Forest(par) && |par| >= 2 && |cc| == |par| && 0 < c < |par| - 1 && par[c] != 0
    ensures var rest := ListOf(par, cc, par[c], c + 1);
      && (rest != [] ==> rest[|rest| - 1] < |cc|)
      && (rest != [] ==> (cc[c] < cc[rest[|rest| - 1]] <==> BelowLaterSiblings(par, cc, c)))
  {
    var rest := ListOf(par, cc, par[c], c + 1);
    LastHasLeastKey(par, cc, par[c], c + 1);
    hide ListOf;
    if rest != [] {
      assert rest[|rest| - 1] in rest;
      forall e | c < e < |par| && par[e] == par[c] ensures e in rest {
      }
    }
  }

  /** The two are in the list at these places, in the order that their keys ask for. */
  ghost predicate PlacedByKeys(par: seq<nat>, cc: seq<int>, c: nat, d: nat, list: seq<nat>, i: nat, j: nat)
    requires c < |par| == |cc|
  {
    && i < |list| && j < |list| && list[i] == c && list[j] == d
    && (j < i <==> BelowLaterSiblings(par, cc, c))
  }

  lemma LaterIsListed(par: seq<nat>, cc: seq<int>, c: nat, d: nat)
    requires Forest(par) && |par| >= 2 && |cc| == |par| && 0 < c < d < |par| && par[c] == par[d] != 0
    ensures d in ListOf(par, cc, par[c], c + 1)
  {
    hide Forest;
  }

  lemma PutInPlaces(c: nat, d: nat, rest: seq<nat>, list: seq<nat>, front: bool) returns (i: nat, j: nat)
    requires d in rest && list == if front then [c] + rest else rest + [c]
    ensures i < |list| && j < |list| && list[i] == c && list[j] == d && (j < i <==> !front)
  {
    var k :| 0 <= k < |rest| && rest[k] == d;
    if front {
      i, j := 0, k + 1;
    } else {
      i, j := |rest|, k;
    }
  }

  lemma PlacedWhenPutIn(par: seq<nat>, cc: seq<int>, c: nat, d: nat) returns (i: nat, j: nat)
    requires Forest(par) && |par| >= 2 && |cc| == |par| && 0 < c < d < |par| && par[c] == par[d] != 0
    ensures PlacedByKeys(par, cc, c, d, ListOf(par, cc, par[c], c), i, j)
  {
    hide ListOf, BelowLaterSiblings, Forest, LeastIsLast;
    var rest := ListOf(par, cc, par[c], c + 1);
    BelowAllOfRest(par, cc, c);
    OwnListGrows(par, cc, c);
    LaterIsListed(par, cc, c, d);
    i, j := PutInPlaces(c, d, rest, ListOf(par, cc, par[c], c), cc[c] >= cc[rest[|rest| - 1]]);
  }

  lemma PlacesShift(par: seq<nat>, cc: seq<int>, c: nat, d: nat, rest: seq<nat>, list: seq<nat>, x: nat, front: bool,
                    i: nat, j: nat) returns (i': nat, j': nat)
    requires c < |par| == |cc| && PlacedByKeys(par, cc, c, d, rest, i, j)
    requires list == if front then [x] + rest else rest + [x]
    ensures PlacedByKeys(par, cc, c, d, list, i', j')
  {
    hide BelowLaterSiblings;
    i', j' := if front then i + 1 else i, if front then j + 1 else j;
  }

  /** The places of two siblings in a list that both have gone into. */
  lemma {:induction false} SiblingPlaces(par: seq<nat>, cc: seq<int>, c: nat, d: nat, lo: nat) returns (i: nat, j: nat)
    requires Forest(par) && |par| >= 2 && |cc| == |par|
    requires 0 < lo <= c < d < |par| && par[c] == par[d] != 0
    ensures PlacedByKeys(par, cc, c, d, ListOf(par, cc, par[c], lo), i, j)
    decreases c - lo
  {
    assert par[c] < |par|;
    hide ListOf, BelowLaterSiblings, Forest, PlacedByKeys;
    if lo == c {
      i, j := PlacedWhenPutIn(par, cc, c, d);
    } else {
      i, j := SiblingPlaces(par, cc, c, d, lo + 1);
      if par[lo] != par[c] {
        OtherListsKept(par, cc, lo, par[c]);
      } else {
        OwnListGrows(par, cc, lo);
        var list, rest := ListOf(par, cc, par[c], lo), ListOf(par, cc, par[c], lo + 1);
        i, j := PlacesShift(par, cc, c, d, rest, list, lo, list == [lo] + rest, i, j);
      }
    }
  }

  /** SortChildren numbers the smaller of two siblings after the larger exactly when its key is below those of
      all siblings larger than itself; of two roots the larger always comes first. */
  lemma SortedSiblings(q: seq<nat>, cc: seq<int>, s: seq<nat>, q': seq<nat>, cc': seq<int>, c: nat, d: nat)
    requires Resorted(q, cc, s, q', cc') && 0 < c < d < |q| && q[c] == q[d]
    ensures |s| == |q| == |cc|
    ensures s[d] < s[c] <==> q[c] == 0 || forall e :: c < e < |q| && q[e] == q[c] ==> cc[c] < cc[e]
  {
    ResortedParts(q, cc, s, q', cc');
    hide Resorted, WalkNumbers;
    if q[c] == 0 {
      RootsInOrder(q, cc, s, c, d);
    } else {
      var i, j := SiblingPlaces(q, cc, c, d, 1);
      hide ListOf;
      if i < j {
        SiblingsNumberedInListOrder(q, cc, s, q[c], i, j);
      } else {
        SiblingsNumberedInListOrder(q, cc, s, q[c], j, i);
      }
    }
  }

  /** The larger of two roots is numbered first, whatever the keys. */
  lemma RootsInOrder(par: seq<nat>, cc: seq<int>, s: seq<nat>, c: nat, d: nat)
    requires Forest(par) && |par| >= 2 && |cc| == |par| && WalkNumbers(par, cc, s)
    requires 0 < c < d < |par| && par[c] == par[d] == 0
    ensures |s| == |par| && s[d] < s[c]
  {
    var list := ListOf(par, cc, |par|, 1);
    assert c in list && d in list;
    var i :| 0 <= i < |list| && list[i] == c;
    var j :| 0 <= j < |list| && list[j] == d;
    hide ListOf, WalkNumbers;
    if i < j { RootsDescend(par, cc, 1, i, j); }
    SiblingsNumberedInListOrder(par, cc, s, |par|, j, i);
  }

  /** PostOrderTree keeps siblings in ascending order and visits the trees by descending root. */
  lemma PostOrderOfSiblings(par: seq<nat>, s: seq<nat>, q: seq<nat>, c: nat, d: nat)
    requires FirstPostordered(par, s, q) && 0 < c < d < |par| && par[c] == par[d]
    ensures if par[c] != 0 then s[c] < s[d] else s[d] < s[c]
  {
    var cc := NoKeys(|par|);
    if par[c] == 0 {
      RootsInOrder(par, cc, s, c, d);
    } else {
      var list := ListOf(par, cc, par[c], 1);
      assert c in list && d in list;
      var i :| 0 <= i < |list| && list[i] == c;
      var j :| 0 <= j < |list| && list[j] == d;
      NoKeysAscending(par, par[c], 1);
      SiblingsNumberedInListOrder(par, cc, s, par[c], i, j);
    }
  }
}
