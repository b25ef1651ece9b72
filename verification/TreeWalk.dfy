/** First-son/brother arrays and the stack walk over them. */
module TreeWalk {
  import opened Postorders
  import opened Sorting

  /** The arrays hold the lists: fson[u] starts the list of u, brother links its entries. The list
      of the extra root has no first-son slot; the walk starts at its first entry. The link of the
      last root may be anything: all vertices are numbered when the walk gets there. */
  ghost predicate Holds(fson: seq<nat>, brother: seq<nat>, kids: Lists) {
    && |fson| == |brother| == |kids| - 1 >= 1
    && (forall u :: 0 < u < |fson| ==> fson[u] == At(kids, u, 0))
    && (forall u: nat, i: nat ::
         HasBrotherLink(kids, u, i) && kids[u][i] < |brother| ==> brother[kids[u][i]] == At(kids, u, i + 1))
  }

  /** Entry i of u's list has its brother link set. */
  ghost predicate HasBrotherLink(kids: Lists, u: nat, i: nat) {
    0 < u < |kids| && i < |kids[u]| && (u < |kids| - 1 || i + 1 < |kids[u]|)
  }

  ghost function At(kids: Lists, u: nat, i: nat): nat
    requires 0 < u < |kids|
  {
    if i < |kids[u]| then kids[u][i] else 0
  }

  /** A stacked vertex is entry i of the list of u. */
  datatype Frame = Frame(u: nat, i: nat)

  ghost predicate InLists(kids: Lists, f: Frame) {
    0 < f.u < |kids| && f.i < |kids[f.u]|
  }

  ghost function Vertex(kids: Lists, f: Frame): nat
    requires InLists(kids, f)
  {
    kids[f.u][f.i]
  }

  /** The vertex whose list holds what comes above the stack: the top vertex, or the extra root. */
  ghost function Above(kids: Lists, frames: seq<Frame>): (u: nat)
    requires |kids| >= 1 && forall k :: 0 <= k < |frames| ==> InLists(kids, frames[k])
  {
    if frames == [] then |kids| - 1 else Vertex(kids, frames[|frames| - 1])
  }

  /** Each stacked vertex is a child of the one below it, so the stacked vertices decrease. */
  ghost predicate Chain(kids: Lists, frames: seq<Frame>)
    decreases |frames|
  {
    && |kids| >= 2
    && (forall k :: 0 <= k < |frames| ==> InLists(kids, frames[k]))
    && (frames != [] ==>
          && Chain(kids, frames[..|frames| - 1])
          && frames[|frames| - 1].u == Above(kids, frames[..|frames| - 1]))
  }

  lemma {:induction false} ChainIsShort(kids: Lists, frames: seq<Frame>)
    requires Descending(kids) && Chain(kids, frames)
    ensures 0 < Above(kids, frames) && Above(kids, frames) + |frames| <= |kids| - 1
    decreases |frames|
  {
    if frames != [] {
      ChainIsShort(kids, frames[..|frames| - 1]);
    }
  }

  /** What is still to be numbered when the stack is popped from its top. */
  ghost function Remaining(kids: Lists, frames: seq<Frame>): seq<nat>
    requires Descending(kids) && forall k :: 0 <= k < |frames| ==> InLists(kids, frames[k])
    decreases |frames|
  {
    if frames == [] then [] else
      var f := frames[|frames| - 1];
      [Vertex(kids, f)] + Order(kids, f.u, f.i + 1) + Remaining(kids, frames[..|frames| - 1])
  }

  /** The state of the walk: `out` is numbered, the walk stands at entry `at.i` of the list of `at.u`. */
  ghost predicate Walking(kids: Lists, out: seq<nat>, at: Frame, frames: seq<Frame>) {
    && Descending(kids) && Chain(kids, frames)
    && at.u == Above(kids, frames) && 0 < at.u < |kids| && at.i <= |kids[at.u]|
    && out + Order(kids, at.u, at.i) + Remaining(kids, frames) == Order(kids, |kids| - 1, 0)
  }

  /** Past the last root. */
  ghost predicate Over(kids: Lists, at: Frame) {
    at.u == |kids| - 1 && 0 < at.u && at.i == |kids[at.u]|
  }

  /** The walk as its variables show it. */
  ghost predicate Standing(kids: Lists, out: seq<nat>, at: Frame, frames: seq<Frame>, vertex: nat, stack: seq<nat>,
                           stacktop: nat) {
    && Walking(kids, out, at, frames)
    && stacktop == |frames| <= |stack|
    && (forall k :: 0 <= k < stacktop ==> stack[k] == Vertex(kids, frames[k]))
    && (vertex == At(kids, at.u, at.i) || Over(kids, at))
  }

  /** One more frame on the stack. */
  lemma FramePushed(kids: Lists, at: Frame, frames: seq<Frame>)
    requires Descending(kids) && Chain(kids, frames) && at.u == Above(kids, frames) && InLists(kids, at)
    ensures var v, more := Vertex(kids, at), frames + [at];
      && Chain(kids, more) && Above(kids, more) == v && 0 < v < at.u
      && Remaining(kids, more) == [v] + Order(kids, at.u, at.i + 1) + Remaining(kids, frames)
  {
    assert (frames + [at])[..|frames|] == frames;
  }

  /** Going down to the first son. */
  lemma Push(kids: Lists, out: seq<nat>, at: Frame, frames: seq<Frame>)
    requires Walking(kids, out, at, frames) && at.i < |kids[at.u]|
    ensures InLists(kids, at) && Walking(kids, out, Frame(Vertex(kids, at), 0), frames + [at])
  {
    var v := Vertex(kids, at);
    var a, b := Order(kids, v, 0), Order(kids, at.u, at.i + 1);
    assert Order(kids, at.u, at.i) == a + [v] + b;
    hide Order, Remaining, Chain;
    FramePushed(kids, at, frames);
    Regrouped(out, a, v, b, Remaining(kids, frames));
  }

  lemma Regrouped(out: seq<nat>, a: seq<nat>, v: nat, b: seq<nat>, rest: seq<nat>)
    ensures out + a + ([v] + b + rest) == out + (a + [v] + b) + rest
  {
  }

  /** Numbering the top vertex and going on to its brother. */
  lemma Pop(kids: Lists, out: seq<nat>, at: Frame, frames: seq<Frame>)
    requires Walking(kids, out, at, frames) && At(kids, at.u, at.i) == 0 && frames != []
    ensures var f := frames[|frames| - 1];
      && InLists(kids, f)
      && Walking(kids, out + [Vertex(kids, f)], Frame(f.u, f.i + 1), frames[..|frames| - 1])
  {
    var f := frames[|frames| - 1];
    var rest := frames[..|frames| - 1];
    calc {
      out + Order(kids, at.u, at.i) + Remaining(kids, frames);
      out + ([Vertex(kids, f)] + Order(kids, f.u, f.i + 1) + Remaining(kids, rest));
      out + [Vertex(kids, f)] + Order(kids, f.u, f.i + 1) + Remaining(kids, rest);
    }
  }

  lemma StartWalking(kids: Lists, n: nat, invpos: seq<nat>)
    requires |kids| == n + 2 && Descending(kids)
    ensures Walking(kids, [], Frame(n + 1, 0), []) && Numbered([], invpos)
  {
  }

  /** A vertex about to be pushed finds a free slot among the n of the stack. */
  lemma StackHasRoom(kids: Lists, out: seq<nat>, at: Frame, frames: seq<Frame>)
    requires Walking(kids, out, at, frames) && at.i < |kids[at.u]|
    ensures |frames| < |kids| - 2
  {
    ChainIsShort(kids, frames);
  }

  /** Numbers given so far. */
  ghost predicate Numbered(out: seq<nat>, invpos: seq<nat>) {
    forall k :: 0 <= k < |out| ==> 0 < out[k] < |invpos| && invpos[out[k]] == k + 1
  }

  /** What has been left so far is the beginning of the whole walk. */
  lemma OutIsPrefix(kids: Lists, out: seq<nat>, at: Frame, frames: seq<Frame>)
    requires Walking(kids, out, at, frames)
    ensures Descending(kids) && out <= Order(kids, |kids| - 1, 0)
    ensures frames == [] && At(kids, at.u, at.i) == 0 ==> out == Order(kids, |kids| - 1, 0)
    ensures Over(kids, at) ==> out == Order(kids, |kids| - 1, 0)
  {
    if Over(kids, at) && frames != [] {
      ChainIsShort(kids, frames);
      assert false;
    }
  }

  lemma NumberNext(kids: Lists, out: seq<nat>, v: nat, invpos: seq<nat>)
    requires |kids| == |invpos| + 1 >= 2 && Descending(kids) && NoRepeats(Order(kids, |kids| - 1, 0))
    requires out + [v] <= Order(kids, |kids| - 1, 0) && Numbered(out, invpos) && 0 < v < |invpos|
    ensures Numbered(out + [v], invpos[v := |out| + 1])
  {
    var whole := Order(kids, |kids| - 1, 0);
    forall k | 0 <= k < |out|
      ensures out[k] != v
    {
      assert whole[k] == out[k] && whole[|out|] == v;
    }
  }

  lemma FinishWalking(kids: Lists, n: nat, out: seq<nat>, invpos: seq<nat>)
    requires |kids| == n + 2 && Descending(kids) && |Order(kids, n + 1, 0)| == n && |invpos| == n + 1
    requires out <= Order(kids, n + 1, 0) && (|out| >= n || out == Order(kids, n + 1, 0)) && Numbered(out, invpos)
    ensures Numbers(Order(kids, n + 1, 0), invpos)
  {
    assert out == Order(kids, n + 1, 0);
  }

  /** Going down one step, with the stack. */
  lemma PushStep(kids: Lists, out: seq<nat>, at: Frame, frames: seq<Frame>, vertex: nat, stack: seq<nat>, stacktop: nat,
                 fson: seq<nat>, brother: seq<nat>)
    requires Standing(kids, out, at, frames, vertex, stack, stacktop) && vertex > 0 && !Over(kids, at)
    requires Holds(fson, brother, kids) && |stack| == |kids| - 2
    ensures !Over(kids, Frame(vertex, 0))
    ensures 0 < vertex < |fson| && fson[vertex] < vertex && stacktop < |stack|
    ensures Standing(kids, out, Frame(vertex, 0), frames + [at], fson[vertex], stack[stacktop := vertex], stacktop + 1)
  {
    hide Order, Remaining, Chain;
    Push(kids, out, at, frames);
    StackHasRoom(kids, out, at, frames);
  }

  /** Taking the top vertex off and going on to its brother, with the stack. */
  lemma PopStep(kids: Lists, out: seq<nat>, at: Frame, frames: seq<Frame>, stack: seq<nat>, stacktop: nat,
                fson: seq<nat>, brother: seq<nat>)
    requires Standing(kids, out, at, frames, 0, stack, stacktop) && stacktop > 0 && Holds(fson, brother, kids)
    ensures frames != [] && stacktop <= |stack| && 0 < stack[stacktop - 1] < |brother|
    ensures var v, f := stack[stacktop - 1], frames[|frames| - 1];
      Standing(kids, out + [v], Frame(f.u, f.i + 1), frames[..|frames| - 1], brother[v], stack, stacktop - 1)
  {
    hide Order, Remaining;
    Pop(kids, out, at, frames);
    var f := frames[|frames| - 1];
    assert Vertex(kids, f) == kids[f.u][f.i] == stack[stacktop - 1];
    VertexIsSmall(kids, out + [kids[f.u][f.i]], f, frames[..|frames| - 1]);
  }

  /** A listed vertex has a slot in the arrays: only the extra root has none. */
  lemma VertexIsSmall(kids: Lists, out: seq<nat>, f: Frame, frames: seq<Frame>)
    requires Descending(kids) && InLists(kids, f)
    ensures 0 < kids[f.u][f.i] < |kids| - 1
  {
  }

  /** Numbering the vertex that has been taken off. */
  lemma PopNumbers(kids: Lists, out: seq<nat>, v: nat, at: Frame, frames: seq<Frame>, vertex: nat, stack: seq<nat>,
                   stacktop: nat, invpos: seq<nat>)
    requires Standing(kids, out + [v], at, frames, vertex, stack, stacktop)
    requires |kids| == |invpos| + 1 >= 2 && 0 < v < |invpos|
    requires NoRepeats(Order(kids, |kids| - 1, 0)) && Numbered(out, invpos)
    ensures Numbered(out + [v], invpos[v := |out| + 1])
  {
    hide Order, Numbered, NoRepeats;
    OutIsPrefix(kids, out + [v], at, frames);
    NumberNext(kids, out, v, invpos);
  }

  /** While vertices are missing, the walk is not past the last root. */
  lemma NotOver(kids: Lists, n: nat, out: seq<nat>, at: Frame, frames: seq<Frame>, vertex: nat, stack: seq<nat>,
                stacktop: nat)
    requires Standing(kids, out, at, frames, vertex, stack, stacktop) && |out| < n
    requires |kids| == n + 2 && |Order(kids, n + 1, 0)| == n
    ensures !Over(kids, at)
  {
    hide Order, Remaining, Chain;
    OutIsPrefix(kids, out, at, frames);
  }

  lemma WalkOver(kids: Lists, n: nat, out: seq<nat>, at: Frame, frames: seq<Frame>, vertex: nat, stack: seq<nat>,
                 stacktop: nat, invpos: seq<nat>)
    requires Standing(kids, out, at, frames, vertex, stack, stacktop) && (|out| >= n || (stacktop == 0 && vertex == 0))
    requires |kids| == n + 2 && |Order(kids, n + 1, 0)| == n && |invpos| == n + 1 && Numbered(out, invpos)
    ensures Numbers(Order(kids, n + 1, 0), invpos)
  {
    hide Order, Remaining, Chain, Numbered, Numbers;
    OutIsPrefix(kids, out, at, frames);
    FinishWalking(kids, n, out, invpos);
  }

  /** Goes down along first sons, stacking the way. */
  method GoDown(fson: array<nat>, stack: array<nat>, start: nat, top: nat, ghost kids: Lists, ghost brother: seq<nat>,
                ghost out: seq<nat>, ghost at0: Frame, ghost frames0: seq<Frame>)
    returns (vertex: nat, stacktop: nat, ghost at: Frame, ghost frames: seq<Frame>)
    requires fson != stack && Holds(fson[..], brother, kids) && stack.Length == |kids| - 2 && start > 0
    requires !Over(kids, at0)
    requires Standing(kids, out, at0, frames0, start, stack[..], top)
    modifies stack
    ensures vertex == 0 && stacktop > 0 && Standing(kids, out, at, frames, 0, stack[..], stacktop)
  {
    hide Standing, Holds, Over;
    vertex, stacktop, at, frames := start, top, at0, frames0;
    while vertex > 0
      invariant Standing(kids, out, at, frames, vertex, stack[..], stacktop)
      invariant (vertex > 0 || stacktop > 0) && !Over(kids, at)
      decreases vertex
    {
      PushStep(kids, out, at, frames, vertex, stack[..], stacktop, fson[..], brother);
      ghost var before := stack[..];
      stacktop := stacktop + 1;
      stack[stacktop - 1] := vertex;
      assert stack[..] == before[stacktop - 1 := vertex];
      at, frames := Frame(vertex, 0), frames + [at];
      vertex := fson[vertex];
    }
  }

  /** Numbers stacked vertices until one has a brother or the stack is empty. */
  method NumberUp(brother: array<nat>, stack: array<nat>, invpos: array<nat>, top: nat, m0: nat, ghost kids: Lists,
                  ghost fson: seq<nat>,
                  ghost out0: seq<nat>, ghost at0: Frame, ghost frames0: seq<Frame>)
    returns (vertex: nat, stacktop: nat, m: nat, exit: bool, ghost out: seq<nat>, ghost at: Frame,
             ghost frames: seq<Frame>)
    requires brother != invpos && stack != invpos && Holds(fson, brother[..], kids) && |kids| == invpos.Length + 1 >= 2
    requires Standing(kids, out0, at0, frames0, 0, stack[..], top) && top > 0 && m0 == |out0|
    requires NoRepeats(Order(kids, |kids| - 1, 0)) && Numbered(out0, invpos[..])
    modifies invpos
    ensures Standing(kids, out, at, frames, vertex, stack[..], stacktop) && m == |out| > m0
    ensures Numbered(out, invpos[..]) && (exit <==> vertex == 0) && (exit ==> stacktop == 0)
  {
    hide Standing, Holds, Order, Numbered, NoRepeats;
    assert |fson| == brother.Length == invpos.Length by { HoldsSizes(fson, brother[..], kids); }
    vertex, stacktop, m, exit, out, at, frames := 0, top, m0, false, out0, at0, frames0;
    while vertex == 0
      invariant m0 <= m == |out| && (stacktop > 0 || m > m0) && (vertex > 0 ==> m > m0)
      invariant Standing(kids, out, at, frames, vertex, stack[..], stacktop)
      invariant Numbered(out, invpos[..])
      decreases stacktop
    {
      if stacktop <= 0 {
        exit := true;
        break;
      }
      PopStep(kids, out, at, frames, stack[..], stacktop, fson, brother[..]);
      ghost var f := frames[|frames| - 1];
      ghost var before := invpos[..];
      vertex := stack[stacktop - 1];
      PopNumbers(kids, out, vertex, Frame(f.u, f.i + 1), frames[..|frames| - 1], brother[vertex], stack[..],
                 stacktop - 1, before);
      stacktop := stacktop - 1;
      m := m + 1;
      invpos[vertex] := m;
      assert invpos[..] == before[vertex := m];
      out, at, frames := out + [vertex], Frame(f.u, f.i + 1), frames[..|frames| - 1];
      vertex := brother[vertex];
    }
  }

  lemma HoldsSizes(fson: seq<nat>, brother: seq<nat>, kids: Lists)
    requires Holds(fson, brother, kids)
    ensures |fson| == |brother| == |kids| - 1 >= 1
  {
  }

  /** Numbers the vertices 1..n as the walk leaves them, with an explicit stack of n slots. */
  method BTreeToPO(n: nat, fson: array<nat>, brother: array<nat>, ghost kids: Lists) returns (invpos: array<nat>)
    requires n > 0 && fson.Length == brother.Length == n + 1
    requires Descending(kids) && Holds(fson[..], brother[..], kids) && At(kids, n + 1, 0) == n
    requires |Order(kids, n + 1, 0)| == n && NoRepeats(Order(kids, n + 1, 0))
    ensures fresh(invpos) && invpos.Length == n + 1
    ensures Numbers(Order(kids, n + 1, 0), invpos[..])
  {
    var stack := new nat[n];
    invpos := new nat[n + 1](_ => 0);
    var stacktop: nat, vertex: nat, m: nat := 0, n, 0;
    ghost var out: seq<nat>, at, frames: seq<Frame> := [], Frame(n + 1, 0), [];
    StartWalking(kids, n, invpos[..]);
    assert Standing(kids, out, at, frames, vertex, stack[..], stacktop) && |kids| == n + 2;
    hide Standing, Over, Order, Numbered, Descending, NoRepeats, Numbers, Holds, At;
    var exit := false;
    while m < n && !exit
      invariant m == |out| && Standing(kids, out, at, frames, vertex, stack[..], stacktop)
      invariant Numbered(out, invpos[..]) && (exit <==> vertex == 0) && (exit ==> stacktop == 0)
      decreases n - m
    {
      NotOver(kids, n, out, at, frames, vertex, stack[..], stacktop);
      vertex, stacktop, at, frames := GoDown(fson, stack, vertex, stacktop, kids, brother[..], out, at, frames);
      vertex, stacktop, m, exit, out, at, frames :=
        NumberUp(brother, stack, invpos, stacktop, m, kids, fson[..], out, at, frames);
    }
    WalkOver(kids, n, out, at, frames, vertex, stack[..], stacktop, invpos[..]);
  }
}
