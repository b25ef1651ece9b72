/** The collective steps that give segments an index shared by all processes, on values: each rank
    holds its own map, at its own addresses, and its own table from index to start address. */
module Verification {
  import opened Segments
  import opened Sorting

  /** starts is the used part of the index table. Slot 0 stands for "no index". */
  datatype Rank = Rank(segs: seq<Segment>, starts: seq<nat>)

  type Team = seq<Rank>

  // ---- Reduction of hashes ----

  function SeghashReduce(lhs: Ident, rhs: Ident): Ident {
    if lhs == rhs then lhs else NO_IDENT
  }

  /** An order in which a collective may combine the contributions of the ranks. */
  datatype Combining = One(hash: Ident) | Two(left: Combining, right: Combining)

  function Result(c: Combining): Ident {
    match c
    case One(hash) => hash
    case Two(left, right) => SeghashReduce(Result(left), Result(right))
  }

  function Hashes(c: Combining): (s: seq<Ident>)
    ensures s != []
  {
    match c
    case One(hash) => [hash]
    case Two(left, right) => Hashes(left) + Hashes(right)
  }

  function Unanimous(hashes: seq<Ident>): Ident
    requires hashes != []
  {
    if forall i :: 0 <= i < |hashes| ==> hashes[i] == hashes[0] then hashes[0] else NO_IDENT
  }

  /** Whatever the order, the reduction says whether all ranks contributed one hash. */
  lemma {:induction false} AnyOrderIsUnanimity(c: Combining)
    ensures Result(c) == Unanimous(Hashes(c))
  {
    match c
    case One(hash) =>
    case Two(left, right) =>
      AnyOrderIsUnanimity(left);
      AnyOrderIsUnanimity(right);
      var l, r := Hashes(left), Hashes(right);
      assert (l + r)[0] == l[0] && (l + r)[|l|] == r[0];
      if forall i :: 0 <= i < |l + r| ==> (l + r)[i] == (l + r)[0] {
        assert forall i :: 0 <= i < |l| ==> l[i] == (l + r)[i];
        assert forall i :: 0 <= i < |r| ==> r[i] == (l + r)[|l| + i];
      } else if forall i :: 0 <= i < |l| ==> l[i] == l[0] {
        if forall i :: 0 <= i < |r| ==> r[i] == r[0] {
          assert l[0] != r[0];
        }
      }
  }

  // ---- verify_segment ----

  /** The hash one rank contributes for the pointer. */
  function Located(segs: seq<Segment>, p: nat): Ident {
    var i := Scan(segs, p);
    if i < |segs| then segs[i].ident else NO_IDENT
  }

  predicate HitsBadSegment(segs: seq<Segment>, p: nat) {
    var i := Scan(segs, p);
    i < |segs| && segs[i].badSegment
  }

  /** What one rank does with the reduced hash. */
  function FinishSegment(r: Rank, hash: Ident, reduced: Ident): Rank {
    var i := Find(r.segs, hash);
    if i == |r.segs| then r
    else if reduced == NO_IDENT then
      Rank(r.segs[i := r.segs[i].SetBadVerification()], r.starts)
    else if r.segs[i].verified then r
    else
      Rank(r.segs[i := r.segs[i].SetVerified().(idx := |r.starts|)], r.starts + [r.segs[i].start])
  }

  /** The step takes the next index for the segment. */
  predicate AddsIndex(r: Rank, hash: Ident, reduced: Ident) {
    var i := Find(r.segs, hash);
    i < |r.segs| && reduced != NO_IDENT && !r.segs[i].verified
  }

  // ---- verify_all ----

  function Idents(segs: seq<Segment>): (s: seq<Ident>)
    ensures |s| == |segs|
    ensures forall i :: 0 <= i < |segs| ==> s[i] == segs[i].ident
  {
    seq(|segs|, i requires 0 <= i < |segs| => segs[i].ident)
  }

  /** One rank's entry of the checklist. */
  predicate Holds(segs: seq<Segment>, ident: Ident) { Find(segs, ident) < |segs| }

  function IndexOf(hashes: seq<Ident>, ident: Ident): (k: nat)
    ensures k <= |hashes|
    ensures k < |hashes| ==> hashes[k] == ident
    ensures forall i :: 0 <= i < k ==> hashes[i] != ident
  {
    if hashes == [] then 0
    else if hashes[0] == ident then 0
    else
      assert forall i :: 1 <= i < |hashes| ==> hashes[i] == hashes[1..][i - 1];
      1 + IndexOf(hashes[1..], ident)
  }

  /** The flags of one segment after the checklist has been gone through. */
  function Judged(s: Segment, hashes: seq<Ident>, checks: seq<bool>): Segment
    requires |hashes| == |checks|
  {
    var k := IndexOf(hashes, s.ident);
    if k < |hashes| then if checks[k] then s.SetVerified() else s.SetBadVerification()
    else if s.verified || s.badVerification then s
    else s.SetBadVerification()
  }

  function JudgedMap(segs: seq<Segment>, hashes: seq<Ident>, checks: seq<bool>): (r: seq<Segment>)
    requires |hashes| == |checks|
    ensures |r| == |segs|
    ensures forall i :: 0 <= i < |segs| ==> r[i] == Judged(segs[i], hashes, checks)
  {
    seq(|segs|, i requires 0 <= i < |segs| => Judged(segs[i], hashes, checks))
  }

  predicate NeedsIndex(s: Segment, starts: seq<nat>)
    requires starts != []
  {
    s.verified && s.start !in starts[1..]
  }

  function NewSegments(segs: seq<Segment>, starts: seq<nat>): (r: seq<Segment>)
    requires starts != []
    decreases |segs|
  {
    if segs == [] then [] else
      var front := NewSegments(segs[..|segs| - 1], starts);
      if NeedsIndex(segs[|segs| - 1], starts) then front + [segs[|segs| - 1]] else front
  }

  function SegmentIdent(s: Segment): nat { s.ident }

  function Starts(segs: seq<Segment>): (s: seq<nat>)
    ensures |s| == |segs|
    ensures forall i :: 0 <= i < |segs| ==> s[i] == segs[i].start
  {
    seq(|segs|, i requires 0 <= i < |segs| => segs[i].start)
  }

  /** The segment with the index it gets when the new segments are numbered from base on. */
  function Numbered(s: Segment, news: seq<nat>, base: nat): Segment {
    var k := IndexOf(news, s.start);
    if k < |news| then s.(idx := base + k) else s
  }

  function NumberedMap(segs: seq<Segment>, news: seq<nat>, base: nat): (r: seq<Segment>)
    ensures |r| == |segs|
    ensures forall i :: 0 <= i < |segs| ==> r[i] == Numbered(segs[i], news, base)
  {
    seq(|segs|, i requires 0 <= i < |segs| => Numbered(segs[i], news, base))
  }

  /** What one rank does with the reduced checklist. */
  function FinishAll(r: Rank, hashes: seq<Ident>, checks: seq<bool>): Rank
    requires |hashes| == |checks| && r.starts != []
  {
    var judged := JudgedMap(r.segs, hashes, checks);
    var news := Starts(SortedWith(NewSegments(judged, r.starts), SegmentIdent));
    Rank(NumberedMap(judged, news, |r.starts|), r.starts + news)
  }

  // ---- The team ----

  predicate OneEach<T>(team: Team, xs: seq<T>) { team != [] && |xs| == |team| }

  function RebuiltTeam(team: Team, loaded: seq<seq<Segment>>): (t: Team)
    requires OneEach(team, loaded)
    ensures |t| == |team|
    ensures forall r :: 0 <= r < |team| ==> t[r] == Rank(Rebuilt(team[r].segs, loaded[r]), team[r].starts)
  {
    seq(|team|, r requires 0 <= r < |team| => Rank(Rebuilt(team[r].segs, loaded[r]), team[r].starts))
  }

  function Contributions(team: Team, ps: seq<nat>): (hs: seq<Ident>)
    requires OneEach(team, ps)
    ensures |hs| == |team|
    ensures forall r :: 0 <= r < |team| ==> hs[r] == Located(team[r].segs, ps[r])
  {
    seq(|team|, r requires 0 <= r < |team| => Located(team[r].segs, ps[r]))
  }

  /** The map every rank looks its pointer up in, and the map it records the outcome in: other threads
      may have rebuilt it in between. */
  ghost predicate GrownTeam(early: Team, team: Team) {
    |early| == |team| && forall r, ident :: 0 <= r < |team| && Has(early[r].segs, ident) ==> Has(team[r].segs, ident)
  }

  /** verify_segment on every rank: hashes from the early maps, outcome recorded in the later ones. */
  function VerifySegment(early: Team, team: Team, ps: seq<nat>): (t: Team)
    requires OneEach(early, ps) && |team| == |early|
    ensures |t| == |team|
  {
    var hs := Contributions(early, ps);
    seq(|team|, r requires 0 <= r < |team| => FinishSegment(team[r], hs[r], Unanimous(hs)))
  }

  predicate Succeeds(team: Team, ps: seq<nat>)
    requires OneEach(team, ps)
  {
    Unanimous(Contributions(team, ps)) != NO_IDENT
  }

  /** The and-reduced checklist. */
  function Checks(team: Team, hashes: seq<Ident>): (c: seq<bool>)
    ensures |c| == |hashes|
    ensures forall k :: 0 <= k < |hashes| ==>
      (c[k] <==> forall r :: 0 <= r < |team| ==> Holds(team[r].segs, hashes[k]))
  {
    seq(|hashes|, k requires 0 <= k < |hashes| =>
      forall r :: 0 <= r < |team| ==> Holds(team[r].segs, hashes[k]))
  }

  /** verify_all on every rank: lists and checks from the early maps, outcome recorded in the later ones. */
  function VerifyAll(early: Team, team: Team): (t: Team)
    requires early != [] && |early| == |team| && forall r :: 0 <= r < |team| ==> team[r].starts != []
    ensures |t| == |team|
  {
    var hashes := Idents(early[0].segs);
    var checks := Checks(early, hashes);
    seq(|team|, r requires 0 <= r < |team| => FinishAll(team[r], hashes, checks))
  }

  // ---- Agreement ----

  /** The rank's table and map follow the list that says which segment each index names. */
  ghost predicate Follows(r: Rank, names: seq<Ident>) {
    && |r.starts| == |names| >= 1
    && WellFormed(r.segs)
    && (forall k :: 1 <= k < |names| ==> HoldsSlot(r, names, k))
    && (forall s :: s in r.segs ==> FollowsSegment(s, names))
  }

  ghost predicate HoldsSlot(r: Rank, names: seq<Ident>, k: nat)
    requires k < |names| == |r.starts|
  {
    exists s :: s in r.segs && s.ident == names[k] && s.start == r.starts[k]
  }

  ghost predicate FollowsSegment(s: Segment, names: seq<Ident>)
    requires names != []
  {
    && s.idx < |names|
    && (s.idx > 0 ==> names[s.idx] == s.ident)
    && (s.ident in names[1..] ==> s.idx > 0)
    && (s.verified ==> s.idx > 0)
  }

  /** All ranks give every index to the same segment. */
  ghost predicate Agrees(team: Team, names: seq<Ident>) {
    team != [] && names != [] && forall r :: 0 <= r < |team| ==> Follows(team[r], names)
  }

  ghost predicate Agreed(team: Team) {
    exists names :: Agrees(team, names)
  }

  ghost predicate VerifiedOn(r: Rank, ident: Ident) {
    exists s :: s in r.segs && s.ident == ident && s.verified
  }

  /** A segment verified on one rank is verified on all. */
  ghost predicate Uniform(team: Team) {
    forall q, r, ident :: 0 <= q < |team| && 0 <= r < |team| && VerifiedOn(team[q], ident)
      ==> VerifiedOn(team[r], ident)
  }
}
