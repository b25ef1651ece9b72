/** Undirected graphs on vertices 1..n and connectivity inside a vertex set.
    A graph is the set of its ordered vertex pairs; `Symmetric` says each edge is present both ways. */
module Graphs {

  type Edges = set<(nat, nat)>

  ghost predicate Symmetric(E: Edges) {
    forall a, b :: (a, b) in E ==> (b, a) in E
  }

  /** The vertices 1..k. */
  function UpTo(k: nat): (s: set<nat>)
    ensures forall v :: v in s <==> 1 <= v <= k
  {
    if k == 0 then {} else UpTo(k - 1) + {k}
  }

  /** A walk from a to b whose vertices all lie in S; `via` lists the vertices after a. */
  ghost predicate Walk(E: Edges, S: set<nat>, a: nat, via: seq<nat>, b: nat)
    decreases |via|
  {
    && a in S
    && if via == [] then a == b
       else (a, via[0]) in E && Walk(E, S, via[0], via[1..], b)
  }

  /** a and b are joined by a walk inside S. */
  ghost predicate Connected(E: Edges, S: set<nat>, a: nat, b: nat) {
    exists via :: Walk(E, S, a, via, b)
  }

  lemma ConnectedSelf(E: Edges, S: set<nat>, a: nat)
    requires a in S
    ensures Connected(E, S, a, a)
  {
    assert Walk(E, S, a, [], a);
  }

  lemma ConnectedEdge(E: Edges, S: set<nat>, a: nat, b: nat)
    requires (a, b) in E && a in S && b in S
    ensures Connected(E, S, a, b)
  {
    assert Walk(E, S, b, [], b);
    assert Walk(E, S, a, [b], b);
  }

  lemma {:induction false} WalkAppend(E: Edges, S: set<nat>, a: nat, via: seq<nat>, b: nat, via': seq<nat>, c: nat)
    requires Walk(E, S, a, via, b) && Walk(E, S, b, via', c)
    ensures Walk(E, S, a, via + via', c)
    decreases |via|
  {
    if via == [] {
      assert via + via' == via';
    } else {
      WalkAppend(E, S, via[0], via[1..], b, via', c);
      assert (via + via')[1..] == via[1..] + via';
    }
  }

  lemma ConnectedTrans(E: Edges, S: set<nat>, a: nat, b: nat, c: nat)
    requires Connected(E, S, a, b) && Connected(E, S, b, c)
    ensures Connected(E, S, a, c)
  {
    var p :| Walk(E, S, a, p, b);
    var q :| Walk(E, S, b, q, c);
    WalkAppend(E, S, a, p, b, q, c);
  }

  lemma {:induction false} WalkReversed(E: Edges, S: set<nat>, a: nat, via: seq<nat>, b: nat)
    requires Symmetric(E) && Walk(E, S, a, via, b)
    ensures Connected(E, S, b, a)
    decreases |via|
  {
    if via == [] {
      ConnectedSelf(E, S, a);
    } else {
      WalkReversed(E, S, via[0], via[1..], b);
      ConnectedEdge(E, S, via[0], a);
      ConnectedTrans(E, S, b, via[0], a);
    }
  }

  lemma ConnectedSym(E: Edges, S: set<nat>, a: nat, b: nat)
    requires Symmetric(E) && Connected(E, S, a, b)
    ensures Connected(E, S, b, a)
  {
    var p :| Walk(E, S, a, p, b);
    WalkReversed(E, S, a, p, b);
  }

  lemma {:induction false} WalkEnds(E: Edges, S: set<nat>, a: nat, via: seq<nat>, b: nat)
    requires Walk(E, S, a, via, b)
    ensures a in S && b in S
    decreases |via|
  {
    if via != [] {
      WalkEnds(E, S, via[0], via[1..], b);
    }
  }

  lemma ConnectedEnds(E: Edges, S: set<nat>, a: nat, b: nat)
    requires Connected(E, S, a, b)
    ensures a in S && b in S
  {
    var p :| Walk(E, S, a, p, b);
    WalkEnds(E, S, a, p, b);
  }

  lemma {:induction false} WalkMono(E: Edges, S: set<nat>, S': set<nat>, a: nat, via: seq<nat>, b: nat)
    requires Walk(E, S, a, via, b) && S <= S'
    ensures Walk(E, S', a, via, b)
    decreases |via|
  {
    if via != [] {
      WalkMono(E, S, S', via[0], via[1..], b);
    }
  }

  lemma ConnectedMono(E: Edges, S: set<nat>, S': set<nat>, a: nat, b: nat)
    requires Connected(E, S, a, b) && S <= S'
    ensures Connected(E, S', a, b)
  {
    var p :| Walk(E, S, a, p, b);
    WalkMono(E, S, S', a, p, b);
  }

  /** Following edges inside S from a vertex of C never leaves C. */
  ghost predicate ClosedIn(E: Edges, S: set<nat>, C: set<nat>) {
    forall a, b :: (a, b) in E && a in C && a in S && b in S ==> b in C
  }

  lemma {:induction false} WalkStaysClosed(E: Edges, S: set<nat>, C: set<nat>, a: nat, via: seq<nat>, b: nat)
    requires Walk(E, S, a, via, b) && ClosedIn(E, S, C) && a in C
    ensures b in C && Walk(E, S * C, a, via, b)
    decreases |via|
  {
    if via != [] {
      WalkEnds(E, S, via[0], via[1..], b);
      WalkStaysClosed(E, S, C, via[0], via[1..], b);
    }
  }

  /** Connectivity from a vertex of a closed set stays, as a walk, inside that set. */
  lemma ConnectedStaysClosed(E: Edges, S: set<nat>, C: set<nat>, a: nat, b: nat)
    requires Connected(E, S, a, b) && ClosedIn(E, S, C) && a in C
    ensures b in C && Connected(E, S * C, a, b)
  {
    var p :| Walk(E, S, a, p, b);
    WalkStaysClosed(E, S, C, a, p, b);
  }

  /** The component of a inside S, as a closed set; the walk to b lies inside it. */
  lemma ConnectedInsideComponent(E: Edges, S: set<nat>, C: set<nat>, a: nat, b: nat)
    requires Connected(E, S, a, b)
    requires forall v :: v in C <==> v in S && Connected(E, S, a, v)
    ensures Connected(E, C, a, b)
  {
    ConnectedEnds(E, S, a, b);
    ConnectedSelf(E, S, a);
    forall u, v | (u, v) in E && u in C && u in S && v in S
      ensures v in C
    {
      ConnectedEdge(E, S, u, v);
      ConnectedTrans(E, S, a, u, v);
    }
    ConnectedStaysClosed(E, S, C, a, b);
    ConnectedMono(E, S * C, C, a, b);
  }

  /** A walk that ends at a vertex i outside S enters it by an edge from inside S. */
  lemma {:induction false} LastStep(E: Edges, S: set<nat>, a: nat, via: seq<nat>, i: nat) returns (x: nat)
    requires Walk(E, S + {i}, a, via, i) && a in S && i !in S
    ensures Connected(E, S, a, x) && (x, i) in E
    decreases |via|
  {
    if via[0] == i {
      x := a;
      ConnectedSelf(E, S, a);
    } else {
      WalkEnds(E, S + {i}, via[0], via[1..], i);
      x := LastStep(E, S, via[0], via[1..], i);
      ConnectedEdge(E, S, a, via[0]);
      ConnectedTrans(E, S, a, via[0], x);
    }
  }
}
