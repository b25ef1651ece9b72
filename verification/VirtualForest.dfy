/** The virtual forest of Liu's algorithm: ancestor links shortened by path compression.
    ancstr[v] is 0 at a root and larger than v elsewhere. */
module VirtualForest {
  import opened EliminationTrees

  function Root(anc: seq<nat>, v: nat): (r: nat)
    requires Forest(anc) && 0 < v < |anc|
    ensures v <= r < |anc| && anc[r] == 0
    decreases |anc| - v
  {
    if anc[v] == 0 then v else Root(anc, anc[v])
  }

  /** Pointing x at a root i above it moves to i only vertices of x's own tree, and nothing above x. */
  lemma {:induction false} Redirected(anc: seq<nat>, x: nat, i: nat, v: nat)
    requires Forest(anc) && 0 < x < i < |anc| && anc[i] == 0 && 0 < v < |anc|
    ensures Forest(anc[x := i])
    ensures Root(anc[x := i], v) == Root(anc, v) || (Root(anc, v) == Root(anc, x) && Root(anc[x := i], v) == i)
    ensures v > x ==> Root(anc[x := i], v) == Root(anc, v)
    ensures anc[x] == 0 && Root(anc, v) == x ==> Root(anc[x := i], v) == i
    decreases |anc| - v
  {
    assert Forest(anc[x := i]);
    if v != x && anc[v] != 0 {
      Redirected(anc, x, i, anc[v]);
    }
  }

  /** Part of the tree of r has been moved under i; zeros and the other trees are as before. */
  ghost predicate PartlyMerged(was: seq<nat>, now: seq<nat>, r: nat, i: nat) {
    && Forest(was) && Forest(now) && |was| == |now| && 0 < i < |now|
    && (forall v :: 0 < v < |now| ==> (now[v] == 0 <==> was[v] == 0))
    && (forall v :: 0 < v <= i ==> now[v] <= i)
    && (forall v :: 0 < v < |now| ==>
          Root(now, v) == Root(was, v) || (Root(was, v) == r && Root(now, v) == i))
  }

  /** The tree of r has become part of the tree of i; every other vertex keeps its root. */
  ghost predicate Merged(was: seq<nat>, now: seq<nat>, r: nat, i: nat) {
    && Forest(was) && Forest(now) && |was| == |now| && 0 < i < |now|
    && (forall v :: 0 < v < |now| ==> (now[v] == 0 <==> was[v] == 0 && (v != r || r == i)))
    && (forall v :: 0 < v <= i ==> now[v] <= i)
    && (forall v :: 0 < v < |now| ==>
          Root(now, v) == if Root(was, v) == r then i else Root(was, v))
  }

  lemma CompressOne(was: seq<nat>, now: seq<nat>, r: nat, i: nat, x: nat)
    requires PartlyMerged(was, now, r, i) && 0 < x < i && now[x] != 0 && now[i] == 0 && Root(now, x) == r
    ensures PartlyMerged(was, now[x := i], r, i)
    ensures Root(now[x := i], now[x]) == r
  {
    forall v | 0 < v < |now|
      ensures Forest(now[x := i])
      ensures Root(now[x := i], v) == Root(was, v) || (Root(was, v) == r && Root(now[x := i], v) == i)
    {
      Redirected(now, x, i, v);
    }
    Redirected(now, x, i, now[x]);
  }

  lemma MergeRoot(was: seq<nat>, now: seq<nat>, r: nat, i: nat)
    requires PartlyMerged(was, now, r, i) && 0 < r < i && now[r] == 0 && now[i] == 0
    ensures Merged(was, now[r := i], r, i)
  {
    forall v | 0 < v < |now|
      ensures Forest(now[r := i])
      ensures Root(now[r := i], v) == if Root(was, v) == r then i else Root(was, v)
    {
      Redirected(now, r, i, v);
    }
  }

  /** Takes in one neighbour of vertex i: the walk from nbr to its root compresses the path it
      crosses, and the root, unless it is i already, gets i as its parent. */
  method LinkNeighbour(parent: array<nat>, ancstr: array<nat>, i: nat, neighbour: nat)
    requires parent != ancstr && parent.Length == ancstr.Length
    requires Forest(ancstr[..]) && 0 < neighbour < i < ancstr.Length
    requires forall v :: 0 < v <= i ==> ancstr[v] <= i
    modifies parent, ancstr
    ensures Forest(old(ancstr[..])) && 0 < neighbour < |old(ancstr[..])|
    ensures var r := Root(old(ancstr[..]), neighbour);
      && Merged(old(ancstr[..]), ancstr[..], r, i)
      && parent[..] == if r == i then old(parent[..]) else old(parent[..])[r := i]
  {
    ghost var before := ancstr[..];
    ghost var r := Root(before, neighbour);
    assert before[i] == 0;
    var nbr := neighbour;
    if ancstr[nbr] != i {
      var found := false;
      while ancstr[nbr] > 0
        invariant 0 < nbr < i && !found
        invariant PartlyMerged(before, ancstr[..], r, i)
        invariant Root(ancstr[..], nbr) == r
        invariant parent[..] == old(parent[..])
        decreases i - nbr
      {
        if ancstr[nbr] == i {
          found := true;
          assert Root(ancstr[..], nbr) == Root(ancstr[..], i);
          break;
        }
        var next := ancstr[nbr];
        CompressOne(before, ancstr[..], r, i, nbr);
        ghost var now := ancstr[..];
        ancstr[nbr] := i;
        assert ancstr[..] == now[nbr := i];
        nbr := next;
      }
      if !found {
        MergeRoot(before, ancstr[..], r, i);
        ghost var now := ancstr[..];
        parent[nbr] := i;
        ancstr[nbr] := i;
        assert ancstr[..] == now[r := i];
      }
    } else {
      assert r == Root(before, i);
    }
  }
}
