/** Function tokens: what a pointer becomes on the rank that sends it and what address it becomes on a
    rank that receives it. */
module FunctionTokens {
  import opened Segments
  import V = Verification
  import opened IndexRuns
  import opened Processes
  import W = WireTokens

  /** A distance into the program's own segment, into the segment with a hash, or into the one with an
      index. */
  datatype FnToken =
    | Single(offset: nat)
    | Multi(offset: nat, ident: Ident)
    | MultiIdx(offset: nat, idx: nat)

  /** A value, an exception, the end of the program, or a read past the end of the index table. */
  datatype Outcome<T> = Value(value: T) | Unverified | Fatal | Outside

  predicate InPrimary(primaryStart: nat, primaryEnd: nat, p: nat) { primaryStart <= p < primaryEnd }

  /** The token of a pointer into the segment, by the map alone. */
  function TokenOf(s: Segment, p: nat, primaryStart: nat, primaryEnd: nat, enforced: bool): Outcome<FnToken>
    requires s.Encloses(p)
  {
    if InPrimary(primaryStart, primaryEnd, p) then Value(Single(p - primaryStart))
    else if s.idx > 0 then Value(MultiIdx(p - s.start, s.idx))
    else if !enforced then Value(Multi(p - s.start, s.ident))
    else Unverified
  }

  /** The token names the segment by an index that the table holds for it, not always its latest. */
  ghost predicate NamedByIndex(o: Outcome<FnToken>, s: Segment, p: nat, starts: seq<nat>) {
    && o.Value? && o.value.MultiIdx? && s.start + o.value.offset == p
    && 0 < o.value.idx < |starts| && starts[o.value.idx] == s.start
  }

  /** The outcomes there may be for a pointer into the segment, by map and index table. A segment gets a
      second index when it is verified again after a failure; both name it. */
  ghost predicate IsTokenOf(o: Outcome<FnToken>, s: Segment, p: nat, starts: seq<nat>,
                            primaryStart: nat, primaryEnd: nat, enforced: bool)
    requires s.Encloses(p)
  {
    if !InPrimary(primaryStart, primaryEnd, p) && s.idx > 0 then NamedByIndex(o, s, p, starts)
    else o == TokenOf(s, p, primaryStart, primaryEnd, enforced)
  }

  /** The index the map has for a segment names it. */
  lemma MapNamesByIndex(r: V.Rank, p: nat)
    requires TableCovers(r)
    ensures forall s :: s in r.segs && s.Encloses(p) && s.idx > 0 ==>
      NamedByIndex(Value(MultiIdx(p - s.start, s.idx)), s, p, r.starts)
  {
  }

  /** The slot of an index table with so many slots, whose unused ones are zero. */
  function LookupAtIdx(starts: seq<nat>, slots: nat, idx: nat): Outcome<nat>
    requires idx <= |starts|
  {
    if idx < |starts| then Value(starts[idx]) else if idx < slots then Value(0) else Outside
  }

  /** The assertion that an index lookup makes. */
  predicate CanResolve(t: FnToken, starts: seq<nat>) { t.MultiIdx? ==> t.idx <= |starts| }

  /** The address a token stands for, by map and index table alone. */
  function Resolve(t: FnToken, segs: seq<Segment>, starts: seq<nat>, slots: nat, primaryStart: nat): Outcome<nat>
    requires CanResolve(t, starts)
  {
    match t
    case Single(offset) => Value(primaryStart + offset)
    case MultiIdx(offset, idx) =>
      var start := LookupAtIdx(starts, slots, idx);
      if start.Value? then Value(start.value + offset) else start
    case Multi(offset, ident) =>
      var i := Find(segs, ident);
      if i < |segs| then Value(segs[i].start + offset) else Fatal
  }

  /** What the assertion lets pass is outside a full table, and only the slot after the last used one. */
  lemma ReadsPastTheTable(t: FnToken, segs: seq<Segment>, starts: seq<nat>, slots: nat, primaryStart: nat)
    requires CanResolve(t, starts) && |starts| <= slots
    ensures Resolve(t, segs, starts, slots, primaryStart) == Outside <==> t.MultiIdx? && t.idx == |starts| == slots
  {
  }

  /** On one rank, a pointer strictly inside a segment survives becoming any of its tokens. */
  lemma TokenLeadsBack(r: V.Rank, s: Segment, p: nat, primaryStart: nat, primaryEnd: nat, enforced: bool,
                       token: FnToken, slots: nat)
    requires WellFormed(r.segs) && s in r.segs && s.Encloses(p)
    requires IsTokenOf(Value(token), s, p, r.starts, primaryStart, primaryEnd, enforced)
    ensures CanResolve(token, r.starts) && Resolve(token, r.segs, r.starts, slots, primaryStart) == Value(p)
  {
    FindIs(r.segs, s);
  }

  /** The segment on the receiving rank that the sender's segment corresponds to. */
  ghost predicate Counterpart(r: V.Rank, s: Segment, t: Segment) {
    t in r.segs && t.ident == s.ident
  }

  /** While the ranks agree on the indices, any token made on rank q leads on rank r to the same distance
      into the same segment, wherever that lies there. A pointer into the program's own segment needs
      that segment to be the same on both; a token that names its segment by hash needs rank r to have
      loaded it. */
  lemma TokenLeadsToSameCode(team: V.Team, q: nat, r: nat, s: Segment, t: Segment, p: nat,
                             home: Segment, away: Segment, enforced: bool, token: FnToken, slots: nat)
    requires V.Agreed(team) && q < |team| && r < |team|
    requires s in team[q].segs && s.Encloses(p) && Counterpart(team[r], s, t)
    requires home in team[q].segs && Counterpart(team[r], home, away)
    requires IsTokenOf(Value(token), s, p, team[q].starts, home.start, home.end, enforced)
    ensures
      && CanResolve(token, team[r].starts)
      && Resolve(token, team[r].segs, team[r].starts, slots, away.start) == Value(t.start + (p - s.start))
  {
    hide WellFormed, V.HoldsSlot, V.FollowsSegment;
    var names :| V.Agrees(team, names);
    assert V.Follows(team[q], names) && V.Follows(team[r], names);
    var segs := team[r].segs;
    if InPrimary(home.start, home.end, p) {
      SameSegment(team[q].segs, s, home);
      SameSegment(segs, t, away);
    } else if s.idx > 0 {
      SlotNamesOneSegment(team, q, r, s, token.idx);
      var u :| u in segs && u.ident == s.ident && u.start == team[r].starts[token.idx];
      SameSegment(segs, t, u);
    } else {
      FindIs(segs, t);
    }
  }

  // ---- Over the wire ----

  /** The token that the machine words of a wire token stand for. */
  function FromWire(w: W.Token): FnToken {
    match w
    case Single(offset) => Single(offset as nat)
    case Multi(offset, ident) => Multi(offset as nat, ident)
    case MultiIdx(offset, idx) => MultiIdx(offset as nat, idx as nat)
  }

  /** The whole way: made from a pointer on rank q, packed, unpacked and resolved on rank r, a token
      leads to the same distance into the same segment. */
  lemma PointerTravels(team: V.Team, q: nat, r: nat, s: Segment, t: Segment, p: nat,
                       home: Segment, away: Segment, enforced: bool, words: W.Token, rest: seq<W.Item>, slots: nat)
    requires V.Agreed(team) && q < |team| && r < |team|
    requires s in team[q].segs && s.Encloses(p) && Counterpart(team[r], s, t)
    requires home in team[q].segs && Counterpart(team[r], home, away)
    requires IsTokenOf(Value(FromWire(words)), s, p, team[q].starts, home.start, home.end, enforced) && W.InRange(words)
    ensures var read := W.Deserialize(W.Serialize([], words) + rest);
      && read.Read? && read.rest == rest
      && CanResolve(FromWire(read.token), team[r].starts)
      && Resolve(FromWire(read.token), team[r].segs, team[r].starts, slots, away.start)
        == Value(t.start + (p - s.start))
  {
    hide W.Serialize, W.Deserialize, W.InRange, V.Agreed, IsTokenOf, Resolve, CanResolve, FromWire;
    W.TokenRoundTrip(words, rest);
    TokenLeadsToSameCode(team, q, r, s, t, p, home, away, enforced, FromWire(words), slots);
  }
}
