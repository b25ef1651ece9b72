/** The steps of PostOrderTree and SortChildren on their arrays. */
module Postordering {
  import opened EliminationTrees
  import opened Permutations
  import opened Relabelling
  import opened Postorders
  import opened TreeWalk
  import opened ChildListsBuild

  /** First-son/brother form with the children in ascending order. The slot of the last root keeps
      whatever the array held. */
  method LinkChildren(parent: array<nat>, fson: array<nat>, brother: array<nat>) returns (lroot: nat)
    requires parent.Length == fson.Length == brother.Length >= 2
    requires parent != fson && parent != brother && fson != brother
    requires Forest(parent[..]) && forall u :: 0 < u < fson.Length ==> fson[u] == 0
    modifies fson, brother
    ensures Built(parent[..], NoKeys(parent.Length), 1, fson[..], brother[..], lroot)
  {
    hide Built, ListOf;
    ghost var par, cc := parent[..], NoKeys(parent.Length);
    var n := parent.Length - 1;
    lroot := n;
    NothingBuilt(par, cc, fson[..], brother[..]);
    var vertex: nat := n - 1;
    while vertex > 0
      invariant 0 <= vertex <= n - 1 && parent[..] == par
      invariant Built(par, cc, vertex + 1, fson[..], brother[..], lroot)
      invariant vertex < lroot <= n
    {
      var curParent := parent[vertex];
      ghost var f: seq<nat>, b: seq<nat> := fson[..], brother[..];
      if curParent == 0 || curParent == vertex {
        BuildRoot(par, cc, vertex, f, b, lroot);
        brother[lroot] := vertex;
        assert brother[..] == b[lroot := vertex];
        lroot := vertex;
      } else {
        EqualKeysGoToFront(par, vertex);
        BuildFront(par, cc, vertex, f, b, lroot);
        brother[vertex] := fson[curParent];
        fson[curParent] := vertex;
        assert brother[..] == b[vertex := f[curParent]];
        assert fson[..] == f[curParent := vertex];
      }
      vertex := vertex - 1;
    }
  }

  lemma EqualKeysGoToFront(par: seq<nat>, lo: nat)
    requires Forest(par) && |par| >= 2 && 0 < lo < |par| - 1 && par[lo] != 0
    ensures var rest := ListOf(par, NoKeys(|par|), par[lo], lo + 1);
      rest != [] ==> rest[|rest| - 1] < |par|
  {
    LastHasLeastKey(par, NoKeys(|par|), par[lo], lo + 1);
  }

  /** First-son/brother form with the child of least key last in every list. */
  method LinkChildrenByKey(parent: array<nat>, cc: array<int>, fson: array<nat>, brother: array<nat>)
    returns (lroot: nat)
    requires parent.Length == fson.Length == brother.Length == cc.Length >= 2
    requires parent != fson && parent != brother && fson != brother
    requires Forest(parent[..])
    requires forall u :: 0 < u < fson.Length ==> fson[u] == 0 && brother[u] == 0
    modifies fson, brother
    ensures Built(parent[..], cc[..], 1, fson[..], brother[..], lroot)
    ensures lroot < brother.Length && brother[lroot] == 0
  {
    hide Built, ListOf, LastSons;
    ghost var par, keys := parent[..], cc[..];
    var n := parent.Length - 1;
    var lson := new nat[n + 1](_ => 0);
    lroot := n;
    NothingBuilt(par, keys, fson[..], brother[..]);
    NoLastSons(par, keys, lson[..]);
    var vertex: nat := n - 1;
    while vertex > 0
      invariant 0 <= vertex <= n - 1 && parent[..] == par && cc[..] == keys
      invariant Built(par, keys, vertex + 1, fson[..], brother[..], lroot)
      invariant LastSons(par, keys, vertex + 1, lson[..])
      invariant vertex < lroot <= n && brother[lroot] == 0 && par[lroot] == 0
      invariant forall v :: 0 < v <= vertex ==> brother[v] == 0
    {
      var curParent := parent[vertex];
      ghost var f: seq<nat>, b: seq<nat>, l: seq<nat> := fson[..], brother[..], lson[..];
      if curParent == 0 || curParent == vertex {
        BuildRoot(par, keys, vertex, f, b, lroot);
        brother[lroot] := vertex;
        assert brother[..] == b[lroot := vertex];
        lroot := vertex;
      } else {
        LastSonTells(par, keys, vertex, f, b, l, lroot);
        var ndlson := lson[curParent];
        if ndlson > 0 {
          if cc[vertex] >= cc[ndlson] {
            BuildFront(par, keys, vertex, f, b, lroot);
            brother[vertex] := fson[curParent];
            fson[curParent] := vertex;
            assert brother[..] == b[vertex := f[curParent]];
            assert fson[..] == f[curParent := vertex];
          } else {
            BuildLast(par, keys, vertex, f, b, lroot, ndlson);
            brother[ndlson] := vertex;
            lson[curParent] := vertex;
            assert brother[..] == b[ndlson := vertex];
            assert lson[..] == l[curParent := vertex];
          }
        } else {
          BuildFront(par, keys, vertex, f, b, lroot);
          fson[curParent] := vertex;
          lson[curParent] := vertex;
          assert brother[..] == b[vertex := f[curParent]];
          assert fson[..] == f[curParent := vertex];
          assert lson[..] == l[curParent := vertex];
        }
      }
      LastSonStep(par, keys, vertex, l, lson[..]);
      vertex := vertex - 1;
    }
    ghost var b := brother[..];
    brother[lroot] := 0;
    assert brother[..] == b;
  }

  function LastOf(list: seq<nat>): (v: nat)
    ensures list == [] || v in list
  {
    if list == [] then 0 else list[|list| - 1]
  }

  /** lson[u] is the last entry of the list of u, 0 when the list is empty. */
  ghost predicate LastSons(par: seq<nat>, cc: seq<int>, lo: nat, lson: seq<nat>)
    requires Forest(par) && |par| >= 2 && |cc| == |par| && 0 < lo
  {
    |lson| == |par| && forall u :: 0 < u < |par| ==> lson[u] == LastOf(ListOf(par, cc, u, lo))
  }

  lemma NoLastSons(par: seq<nat>, cc: seq<int>, lson: seq<nat>)
    requires Forest(par) && |par| >= 2 && |cc| == |par| == |lson|
    requires forall u :: 0 < u < |par| ==> lson[u] == 0
    ensures LastSons(par, cc, |par| - 1, lson)
  {
  }

  /** What the branch on lson decides. */
  lemma LastSonTells(par: seq<nat>, cc: seq<int>, lo: nat, fson: seq<nat>, brother: seq<nat>, lson: seq<nat>,
                     lroot: nat)
    requires Forest(par) && |par| >= 2 && |cc| == |par| && 0 < lo < |par| - 1 && par[lo] != 0
    requires LastSons(par, cc, lo + 1, lson) && Built(par, cc, lo + 1, fson, brother, lroot)
    ensures var rest := ListOf(par, cc, par[lo], lo + 1); var last := lson[par[lo]];
      && (last == 0 <==> rest == [])
      && (last > 0 ==> lo < last == rest[|rest| - 1] < |cc| && par[last] != 0)
      && (last == 0 ==> fson[par[lo]] == 0)
  {
    hide ListOf;
    var rest := ListOf(par, cc, par[lo], lo + 1);
    assert lson[par[lo]] == LastOf(rest);
    assert fson[par[lo]] == At(ListsFrom(par, cc, lo + 1), par[lo], 0);
  }

  /** How lson follows the lists. */
  lemma LastSonStep(par: seq<nat>, cc: seq<int>, lo: nat, lson: seq<nat>, next: seq<nat>)
    requires Forest(par) && |par| >= 2 && |cc| == |par| && 0 < lo < |par| - 1 && LastSons(par, cc, lo + 1, lson)
    requires |next| == |lson| && forall u :: 0 < u < |par| && u != par[lo] ==> next[u] == lson[u]
    requires par[lo] != 0 ==> var last := lson[par[lo]];
      last < |cc| && next[par[lo]] == if last > 0 && cc[lo] >= cc[last] then last else lo
    ensures LastSons(par, cc, lo, next)
  {
    hide ListOf, LastOf;
    forall u | 0 < u < |par|
      ensures next[u] == LastOf(ListOf(par, cc, u, lo))
    {
      LastSonAt(par, cc, lo, lson[u], u);
    }
  }

  lemma LastSonAt(par: seq<nat>, cc: seq<int>, lo: nat, last: nat, u: nat)
    requires Forest(par) && |par| >= 2 && |cc| == |par| && 0 < lo < |par| - 1 && 0 < u < |par|
    requires last == LastOf(ListOf(par, cc, u, lo + 1))
    ensures last < |cc| && LastOf(ListOf(par, cc, u, lo)) ==
      if u != par[lo] || (last > 0 && cc[lo] >= cc[last]) then last else lo
  {
    if u == par[lo] {
      OwnListGrows(par, cc, lo);
    } else {
      OtherListsKept(par, cc, lo, u);
    }
    hide ListOf;
  }

  /** Carries the parent links over to the new numbers. */
  method RelabelParents(source: array<nat>, invpos: array<nat>, target: array<nat>)
    requires source.Length == invpos.Length == target.Length >= 1
    requires target != source && target != invpos
    requires Forest(source[..]) && IsPermutation(invpos[..])
    modifies target
    ensures IsRelabelledTree(source[..], invpos[..], target[..])
  {
    ghost var par, s := source[..], invpos[..];
    var n := source.Length - 1;
    var i := 1;
    while i <= n
      invariant 1 <= i <= n + 1 && source[..] == par && invpos[..] == s
      invariant forall v :: 0 < v < i ==> target[s[v]] == if par[v] == 0 then 0 else s[par[v]]
    {
      var nunode := invpos[i];
      var ndpar := source[i];
      if ndpar > 0 {
        ndpar := invpos[ndpar];
      }
      target[nunode] := ndpar;
      i := i + 1;
    }
  }

  /** moved holds the keys at the new numbers. */
  ghost predicate MovedBy(s: seq<nat>, keys: seq<int>, moved: seq<int>) {
    |s| == |keys| == |moved| && forall v :: 0 < v < |s| ==> 0 < s[v] < |moved| && moved[s[v]] == keys[v]
  }

  method Scatter(cc: array<int>, invpos: array<nat>, stack: array<int>)
    requires cc.Length == invpos.Length == stack.Length >= 1 && stack != cc
    requires IsPermutation(invpos[..])
    modifies stack
    ensures MovedBy(invpos[..], cc[..], stack[..])
  {
    ghost var s := invpos[..];
    var node := 1;
    while node < cc.Length
      invariant 1 <= node <= cc.Length && invpos[..] == s
      invariant forall v :: 0 < v < node ==> stack[s[v]] == cc[v]
    {
      stack[invpos[node]] := cc[node];
      node := node + 1;
    }
  }

  /** Moves the keys to the new numbers, through a second array. */
  method PermuteKeys(cc: array<int>, invpos: array<nat>)
    requires cc.Length == invpos.Length >= 1
    requires IsPermutation(invpos[..])
    modifies cc
    ensures MovedBy(invpos[..], old(cc[..]), cc[..])
  {
    ghost var keys, s := cc[..], invpos[..];
    var n := cc.Length - 1;
    var stack := new int[n + 1];
    Scatter(cc, invpos, stack);
    hide IsPermutation, MovedBy;
    ghost var moved := stack[..];
    var node := 1;
    while node <= n
      invariant 1 <= node <= n + 1 && invpos[..] == s && stack[..] == moved
      invariant forall w :: 0 < w < node ==> cc[w] == moved[w]
    {
      cc[node] := stack[node];
      node := node + 1;
    }
    SameMoved(s, keys, moved, cc[..]);
  }

  lemma SameMoved(s: seq<nat>, keys: seq<int>, moved: seq<int>, result: seq<int>)
    requires |result| == |moved| && MovedBy(s, keys, moved)
    requires forall w :: 0 < w < |moved| ==> result[w] == moved[w]
    ensures MovedBy(s, keys, result)
  {
  }

  /** s is the postorder that the lists for these keys give. */
  ghost predicate WalkNumbers(par: seq<nat>, cc: seq<int>, s: seq<nat>)
    requires Forest(par) && |par| >= 2 && |cc| == |par|
  {
    ListsAreChildLists(par, cc);
    Numbers(Order(ListsFrom(par, cc, 1), |par|, 0), s)
  }

  lemma WalkNumbersPostorder(par: seq<nat>, cc: seq<int>, s: seq<nat>)
    requires Forest(par) && |par| >= 2 && |cc| == |par| && WalkNumbers(par, cc, s)
    ensures |s| == |par| && IsPermutation(s) && IsPostorder(par, s)
  {
    ListsAreChildLists(par, cc);
    OrderIsComplete(par, ListsFrom(par, cc, 1));
    WalkIsPostorder(par, ListsFrom(par, cc, 1), s);
  }

  /** The walk over finished lists. */
  method NumberByWalk(fson: array<nat>, brother: array<nat>, ghost par: seq<nat>, ghost cc: seq<int>, ghost lroot: nat)
    returns (invpos: array<nat>)
    requires Forest(par) && |par| >= 2 && |cc| == |par| == fson.Length == brother.Length
    requires Built(par, cc, 1, fson[..], brother[..], lroot)
    ensures fresh(invpos) && WalkNumbers(par, cc, invpos[..])
    ensures invpos.Length == |par| && IsPostorder(par, invpos[..])
  {
    ghost var kids := ListsFrom(par, cc, 1);
    ListsAreChildLists(par, cc);
    OrderIsComplete(par, kids);
    RootListStartsAtN(par, cc, 1);
    invpos := BTreeToPO(fson.Length - 1, fson, brother, kids);
    WalkNumbersPostorder(par, cc, invpos[..]);
  }
}
