/** Building the first-son/brother lists by going over the vertices from n - 1 down to 1. */
module ChildListsBuild {
  import opened EliminationTrees
  import opened Postorders
  import opened TreeWalk
  import opened Sorting

  /** The list of u after the vertices lo.. have been put in. A child goes to the front, unless its
      key is below that of the current last one: then it becomes the new last. Roots hang under the
      extra root n + 1, n first and each further root at the end. */
  ghost function ListOf(par: seq<nat>, cc: seq<int>, u: nat, lo: nat): (list: seq<nat>)
    requires Forest(par) && |par| >= 2 && |cc| == |par| && 0 < lo
    ensures forall v :: v in list <==> (lo <= v < |par| - 1 || v == |par| - 1) && Rooted(par)[v] == u
    ensures NoRepeats(list)
    decreases |par| - lo
  {
    if lo >= |par| - 1 then (if u == |par| then [|par| - 1] else []) else
      var rest := ListOf(par, cc, u, lo + 1);
      assert rest != [] ==> rest[|rest| - 1] in rest;
      if Rooted(par)[lo] != u then rest
      else if u < |par| && (rest == [] || cc[lo] >= cc[rest[|rest| - 1]]) then [lo] + rest
      else rest + [lo]
  }

  ghost function ListsFrom(par: seq<nat>, cc: seq<int>, lo: nat): (kids: Lists)
    requires Forest(par) && |par| >= 2 && |cc| == |par| && 0 < lo
    ensures |kids| == |par| + 1
    ensures forall u :: 0 < u <= |par| ==> kids[u] == ListOf(par, cc, u, lo)
  {
    seq(|par| + 1, u requires 0 <= u <= |par| => if u == 0 then [] else ListOf(par, cc, u, lo))
  }

  /** Equal keys: the lists PostOrderTree builds, which puts every child at the front. */
  function NoKeys(n: nat): (cc: seq<int>)
    ensures |cc| == n && forall v :: 0 <= v < n ==> cc[v] == 0
  {
    seq(n, _ => 0)
  }

  lemma ListsAreChildLists(par: seq<nat>, cc: seq<int>)
    requires Forest(par) && |par| >= 2 && |cc| == |par|
    ensures ChildLists(Rooted(par), ListsFrom(par, cc, 1))
  {
    var t, kids := Rooted(par), ListsFrom(par, cc, 1);
    forall u | 0 < u < |kids|
      ensures ChildrenOf(t, kids, u)
      ensures forall i :: 0 <= i < |kids[u]| ==> 0 < kids[u][i] < u
    {
      forall i | 0 <= i < |kids[u]|
        ensures 0 < kids[u][i] < u
      {
        assert kids[u][i] in kids[u];
      }
    }
  }

  lemma {:induction false} RootListStartsAtN(par: seq<nat>, cc: seq<int>, lo: nat)
    requires Forest(par) && |par| >= 2 && |cc| == |par| && 0 < lo
    ensures ListOf(par, cc, |par|, lo) != [] && ListOf(par, cc, |par|, lo)[0] == |par| - 1
    decreases |par| - lo
  {
    if lo < |par| - 1 { RootListStartsAtN(par, cc, lo + 1); }
  }

  lemma OtherListsKept(par: seq<nat>, cc: seq<int>, lo: nat, w: nat)
    requires Forest(par) && |par| >= 2 && |cc| == |par| && 0 < lo < |par| - 1 && 0 < w < |par|
    ensures w != par[lo] ==> ListOf(par, cc, w, lo) == ListOf(par, cc, w, lo + 1)
  {
  }

  lemma OwnListGrows(par: seq<nat>, cc: seq<int>, lo: nat)
    requires Forest(par) && |par| >= 2 && |cc| == |par| && 0 < lo < |par| - 1 && par[lo] != 0
    ensures var rest := ListOf(par, cc, par[lo], lo + 1);
      && (rest != [] ==> rest[|rest| - 1] < |cc|)
      && ListOf(par, cc, par[lo], lo) ==
           if rest == [] || cc[lo] >= cc[rest[|rest| - 1]] then [lo] + rest else rest + [lo]
  {
    var rest := ListOf(par, cc, par[lo], lo + 1);
    assert rest != [] ==> rest[|rest| - 1] in rest;
  }

  /** The last entry has the least key of all. */
  ghost predicate LeastIsLast(list: seq<nat>, cc: seq<int>) {
    list != [] ==>
      && list[|list| - 1] < |cc|
      && forall v :: v in list ==> v < |cc| && cc[list[|list| - 1]] <= cc[v]
  }

  lemma LeastStaysLast(x: nat, rest: seq<nat>, cc: seq<int>)
    requires x < |cc| && LeastIsLast(rest, cc) && (rest != [] ==> rest[|rest| - 1] < |cc|)
    ensures LeastIsLast(if rest == [] || cc[x] >= cc[rest[|rest| - 1]] then [x] + rest else rest + [x], cc)
  {
  }

  /** The last child in a list has the least key of the list. */
  lemma {:induction false} LastHasLeastKey(par: seq<nat>, cc: seq<int>, u: nat, lo: nat)
    requires Forest(par) && |par| >= 2 && |cc| == |par| && 0 < lo && 0 < u < |par|
    ensures LeastIsLast(ListOf(par, cc, u, lo), cc)
    decreases |par| - lo
  {
    if lo < |par| - 1 {
      LastHasLeastKey(par, cc, u, lo + 1);
      if u != par[lo] {
        OtherListsKept(par, cc, lo, u);
      } else {
        OwnListGrows(par, cc, lo);
        LeastStaysLast(lo, ListOf(par, cc, u, lo + 1), cc);
      }
      hide ListOf, LeastIsLast;
    }
  }

  lemma FrontAscends(x: nat, rest: seq<nat>)
    requires Ascending(rest) && forall j :: 0 <= j < |rest| ==> rest[j] > x
    ensures Ascending([x] + rest)
  {
  }

  /** With equal keys the children are listed in ascending order. */
  lemma {:induction false} NoKeysAscending(par: seq<nat>, u: nat, lo: nat)
    requires Forest(par) && |par| >= 2 && 0 < lo && u < |par|
    ensures Ascending(ListOf(par, NoKeys(|par|), u, lo))
    decreases |par| - lo
  {
    if lo < |par| - 1 {
      NoKeysAscending(par, u, lo + 1);
      var rest := ListOf(par, NoKeys(|par|), u, lo + 1);
      forall j | 0 <= j < |rest|
        ensures rest[j] > lo
      {
        assert rest[j] in rest;
      }
      assert rest != [] ==> rest[|rest| - 1] in rest;
      FrontAscends(lo, rest);
    }
  }

  // ------------------------------------------------------------------------------------------
  // The arrays while the lists grow.
  // ------------------------------------------------------------------------------------------

  /** Every vertex is in one place of one list at most. */
  ghost predicate OnePlace(kids: Lists) {
    forall u, i, u', i' ::
      0 < u < |kids| && 0 <= i < |kids[u]| && 0 < u' < |kids| && 0 <= i' < |kids[u']| && kids[u][i] == kids[u'][i'] ==>
        u == u' && i == i'
  }

  lemma ListsOnePlace(par: seq<nat>, cc: seq<int>, lo: nat)
    requires Forest(par) && |par| >= 2 && |cc| == |par| && 0 < lo
    ensures OnePlace(ListsFrom(par, cc, lo))
  {
    var kids := ListsFrom(par, cc, lo);
    forall u, i, u', i' | 0 < u < |kids| && 0 <= i < |kids[u]| && 0 < u' < |kids| && 0 <= i' < |kids[u']|
      && kids[u][i] == kids[u'][i']
      ensures u == u' && i == i'
    {
      assert kids[u][i] in kids[u] && kids[u'][i'] in kids[u'];
    }
  }

  ghost predicate NotListed(kids: Lists, v: nat) {
    forall u, i :: 0 < u < |kids| && 0 <= i < |kids[u]| ==> kids[u][i] != v
  }

  lemma PutFront(fson: seq<nat>, brother: seq<nat>, kids: Lists, u: nat, v: nat)
    requires Holds(fson, brother, kids) && 0 < u < |fson| && v < |brother| && NotListed(kids, v)
    ensures Holds(fson[u := v], brother[v := fson[u]], kids[u := [v] + kids[u]])
  {
    var kids' := kids[u := [v] + kids[u]];
    forall w: nat, i: nat | HasBrotherLink(kids', w, i) && kids'[w][i] < |brother|
      ensures brother[v := fson[u]][kids'[w][i]] == At(kids', w, i + 1)
    {
      if w == u && i > 0 {
        assert kids'[w][i] == kids[u][i - 1];
        assert HasBrotherLink(kids, u, i - 1);
      } else if w != u {
        assert HasBrotherLink(kids, w, i);
      }
    }
  }

  lemma PutLast(fson: seq<nat>, brother: seq<nat>, kids: Lists, u: nat, v: nat)
    requires Holds(fson, brother, kids) && OnePlace(kids) && 0 < u < |kids| && 0 < v < |brother| && NotListed(kids, v)
    requires kids[u] != [] && kids[u][|kids[u]| - 1] < |brother| && (u < |kids| - 1 ==> brother[v] == 0)
    ensures Holds(fson, brother[kids[u][|kids[u]| - 1] := v], kids[u := kids[u] + [v]])
  {
    var kids' := kids[u := kids[u] + [v]];
    var last := kids[u][|kids[u]| - 1];
    forall w: nat, i: nat | HasBrotherLink(kids', w, i) && kids'[w][i] < |brother|
      ensures brother[last := v][kids'[w][i]] == At(kids', w, i + 1)
    {
      if w == u && i < |kids[u]| {
        assert kids'[w][i] == kids[u][i];
        if i + 1 < |kids[u]| { assert HasBrotherLink(kids, u, i); }
      } else if w != u {
        assert HasBrotherLink(kids, w, i);
      }
    }
  }

  /** Taking vertex lo in changes the list of its parent only. */
  lemma ListsStep(par: seq<nat>, cc: seq<int>, lo: nat)
    requires Forest(par) && |par| >= 2 && |cc| == |par| && 0 < lo < |par| - 1
    ensures var u := Rooted(par)[lo];
      && 0 < u <= |par| && NotListed(ListsFrom(par, cc, lo + 1), lo)
      && ListsFrom(par, cc, lo) == ListsFrom(par, cc, lo + 1)[u := ListOf(par, cc, u, lo)]
  {
    var kids := ListsFrom(par, cc, lo + 1);
    forall u, i | 0 < u < |kids| && 0 <= i < |kids[u]|
      ensures kids[u][i] != lo
    {
      assert kids[u][i] in kids[u];
    }
  }

  /** The arrays, the last root and (for SortChildren) the last children after vertices lo.. are in. */
  ghost predicate Built(par: seq<nat>, cc: seq<int>, lo: nat, fson: seq<nat>, brother: seq<nat>, lroot: nat)
    requires Forest(par) && |par| >= 2 && |cc| == |par| && 0 < lo
  {
    && Holds(fson, brother, ListsFrom(par, cc, lo))
    && 0 < lroot < |par|
    && var roots := ListOf(par, cc, |par|, lo); roots != [] && roots[|roots| - 1] == lroot
  }

  lemma NothingBuilt(par: seq<nat>, cc: seq<int>, fson: seq<nat>, brother: seq<nat>)
    requires Forest(par) && |par| >= 2 && |cc| == |par| == |fson| == |brother|
    requires forall u :: 0 < u < |fson| ==> fson[u] == 0
    ensures Built(par, cc, |par| - 1, fson, brother, |par| - 1)
  {
  }

  lemma BuildRoot(par: seq<nat>, cc: seq<int>, lo: nat, fson: seq<nat>, brother: seq<nat>, lroot: nat)
    requires Forest(par) && |par| >= 2 && |cc| == |par| && 0 < lo < |par| - 1 && par[lo] == 0
    requires Built(par, cc, lo + 1, fson, brother, lroot)
    ensures lroot < |brother| && Built(par, cc, lo, fson, brother[lroot := lo], lo)
  {
    ListsStep(par, cc, lo);
    ListsOnePlace(par, cc, lo + 1);
    PutLast(fson, brother, ListsFrom(par, cc, lo + 1), |par|, lo);
  }

  lemma BuildFront(par: seq<nat>, cc: seq<int>, lo: nat, fson: seq<nat>, brother: seq<nat>, lroot: nat)
    requires Forest(par) && |par| >= 2 && |cc| == |par| && 0 < lo < |par| - 1 && par[lo] != 0
    requires Built(par, cc, lo + 1, fson, brother, lroot)
    requires var rest := ListOf(par, cc, par[lo], lo + 1);
      rest != [] ==> rest[|rest| - 1] < |cc| && cc[lo] >= cc[rest[|rest| - 1]]
    ensures par[lo] < |fson| == |brother| && lo < |brother|
    ensures Built(par, cc, lo, fson[par[lo] := lo], brother[lo := fson[par[lo]]], lroot)
  {
    ListsStep(par, cc, lo);
    PutFront(fson, brother, ListsFrom(par, cc, lo + 1), par[lo], lo);
  }

  lemma BuildLast(par: seq<nat>, cc: seq<int>, lo: nat, fson: seq<nat>, brother: seq<nat>, lroot: nat, last: nat)
    requires Forest(par) && |par| >= 2 && |cc| == |par| && 0 < lo < |par| - 1 && par[lo] != 0
    requires Built(par, cc, lo + 1, fson, brother, lroot) && lo < |brother| && brother[lo] == 0
    requires var rest := ListOf(par, cc, par[lo], lo + 1);
      rest != [] && last == rest[|rest| - 1] < |cc| && cc[lo] < cc[last]
    ensures last < |brother| && Built(par, cc, lo, fson, brother[last := lo], lroot)
  {
    ListsStep(par, cc, lo);
    ListsOnePlace(par, cc, lo + 1);
    PutLast(fson, brother, ListsFrom(par, cc, lo + 1), par[lo], lo);
  }
}
