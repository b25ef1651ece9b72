/** verify_all: every segment that all ranks have loaded gets one index, whatever came before. */
module VerifyingAll {
  import opened Segments
  import opened Sorting
  import opened Verification

  // ---- Ascending sequences ----

  /** An ascending sequence is determined by what is in it. */
  lemma {:induction false} AscendingIsUnique(s: seq<nat>, t: seq<nat>)
    requires Ascending(s) && Ascending(t) && forall x :: x in s <==> x in t
    ensures s == t
    decreases |s|
  {
    if s == [] {
      if t != [] {
        FirstIsIn(t);
      }
    } else {
      assert s[0] in t && t != [] && t[0] in s;
      LeastFirst(s, t[0]);
      LeastFirst(t, s[0]);
      TailContents(s);
      TailContents(t);
      AscendingIsUnique(s[1..], t[1..]);
    }
  }

  lemma FirstIsIn(s: seq<nat>)
    requires s != []
    ensures s[0] in s
  {
  }

  lemma LeastFirst(s: seq<nat>, x: nat)
    requires Ascending(s) && x in s
    ensures s[0] <= x
  {
  }

  lemma TailContents(s: seq<nat>)
    requires Ascending(s) && s != []
    ensures Ascending(s[1..]) && forall x :: x in s[1..] <==> x in s && x != s[0]
  {
    assert s == [s[0]] + s[1..];
  }

  lemma {:induction false} NoRepeatsCounts<T(!new)>(s: seq<T>, x: T)
    requires NoRepeats(s)
    ensures multiset(s)[x] <= 1
    decreases |s|
  {
    if s != [] {
      var front, last := s[..|s| - 1], s[|s| - 1];
      assert s == front + [last];
      NoRepeatsCounts(front, x);
      if x == last {
        assert x !in front;
      }
    }
  }

  lemma RepeatsCount<T(!new)>(s: seq<T>, i: nat, j: nat)
    requires i < j < |s| && s[i] == s[j]
    ensures multiset(s)[s[i]] >= 2
  {
    assert s == s[..j] + s[j..] && s[i] in s[..j] && s[j] in s[j..];
  }

  lemma SortingKeepsNoRepeats<T(!new)>(s: seq<T>, key: T -> nat)
    requires NoRepeats(s)
    ensures NoRepeats(SortedWith(s, key))
    ensures forall x :: x in SortedWith(s, key) <==> x in s
  {
    var t := SortedWith(s, key);
    forall i, j | 0 <= i < j < |t| ensures t[i] != t[j] {
      NoRepeatsCounts(s, t[i]);
      if t[i] == t[j] {
        RepeatsCount(t, i, j);
      }
    }
    forall x ensures x in t <==> x in s {
      assert x in t <==> x in multiset(t);
    }
  }

  // ---- The new segments of one rank ----

  lemma {:induction false} NewSegmentsContents(segs: seq<Segment>, starts: seq<nat>)
    requires starts != []
    ensures forall s :: s in NewSegments(segs, starts) <==> s in segs && NeedsIndex(s, starts)
    decreases |segs|
  {
    if segs != [] {
      var front, last := segs[..|segs| - 1], segs[|segs| - 1];
      NewSegmentsContents(front, starts);
      assert segs == front + [last];
    }
  }

  lemma WellFormedHasNoRepeats(segs: seq<Segment>)
    requires WellFormed(segs)
    ensures NoRepeats(segs)
  {
    forall i, j | 0 <= i < j < |segs| ensures segs[i] != segs[j] {
      assert Apart(segs[i], segs[j]);
    }
  }

  lemma {:induction false} NewSegmentsNoRepeats(segs: seq<Segment>, starts: seq<nat>)
    requires starts != [] && NoRepeats(segs)
    ensures NoRepeats(NewSegments(segs, starts))
    decreases |segs|
  {
    if segs != [] {
      var front, last := segs[..|segs| - 1], segs[|segs| - 1];
      assert last !in front;
      NewSegmentsNoRepeats(front, starts);
      NewSegmentsContents(front, starts);
    }
  }

  /** The segments to number, in the order of their hashes. */
  function Ordered(segs: seq<Segment>, starts: seq<nat>): seq<Segment>
    requires starts != []
  {
    SortedWith(NewSegments(segs, starts), SegmentIdent)
  }

  lemma OrderedAscends(segs: seq<Segment>, starts: seq<nat>)
    requires starts != [] && WellFormed(segs)
    ensures Ascending(Idents(Ordered(segs, starts)))
    ensures forall s :: s in Ordered(segs, starts) <==> s in segs && NeedsIndex(s, starts)
  {
    hide WellFormed, NewSegments, SortedWith;
    var news, ordered := NewSegments(segs, starts), Ordered(segs, starts);
    WellFormedHasNoRepeats(segs);
    NewSegmentsNoRepeats(segs, starts);
    NewSegmentsContents(segs, starts);
    SortingKeepsNoRepeats(news, SegmentIdent);
    SortedWithIsSorted(news, SegmentIdent);
    forall i, j | 0 <= i < j < |ordered| ensures ordered[i].ident < ordered[j].ident {
      assert SegmentIdent(ordered[i]) <= SegmentIdent(ordered[j]);
      assert ordered[i] in ordered && ordered[j] in ordered && ordered[i] != ordered[j];
      OthersAreApart(segs, ordered[i], ordered[j]);
    }
  }

  // ---- What a rank finds out ----

  ghost predicate Everywhere(team: Team, ident: Ident) {
    forall r :: 0 <= r < |team| ==> Has(team[r].segs, ident)
  }

  lemma NamedIsEverywhere(team: Team, names: seq<Ident>, ident: Ident)
    requires Agrees(team, names) && ident in names[1..]
    ensures Everywhere(team, ident)
  {
    var k :| 1 <= k < |names| && names[k] == ident;
    forall r | 0 <= r < |team| ensures Has(team[r].segs, ident) {
      assert Follows(team[r], names);
      assert HoldsSlot(team[r], names, k);
    }
  }

  /** The checklist, as verify_all uses it. */
  function Listed(team: Team): seq<Ident>
    requires team != []
  {
    Idents(team[0].segs)
  }

  ghost predicate Both(early: Team, team: Team, names: seq<Ident>) {
    Agrees(early, names) && Agrees(team, names) && GrownTeam(early, team)
  }

  /** After the checklist, a segment is verified exactly when every rank has it. */
  lemma JudgedMeansEverywhere(early: Team, team: Team, names: seq<Ident>, r: nat, s: Segment)
    requires Both(early, team, names) && r < |team| && s in team[r].segs
    ensures Judged(s, Listed(early), Checks(early, Listed(early))).verified <==> Everywhere(early, s.ident)
  {
    var hashes, checks := Listed(early), Checks(early, Listed(early));
    var k := IndexOf(hashes, s.ident);
    if k < |hashes| {
      forall q | 0 <= q < |early| ensures Holds(early[q].segs, hashes[k]) <==> Has(early[q].segs, s.ident) {
        FindFinds(early[q].segs, s.ident);
      }
    } else {
      if Everywhere(early, s.ident) {
        EverywhereIsListed(early, s.ident);
      }
      assert Follows(team[r], names);
      assert FollowsSegment(s, names);
      if s.idx > 0 {
        assert names[s.idx] in names[1..] by {
          assert names[1..][s.idx - 1] == names[s.idx];
        }
        NamedIsEverywhere(early, names, s.ident);
      }
    }
  }

  lemma EverywhereIsListed(early: Team, ident: Ident)
    requires early != [] && Everywhere(early, ident)
    ensures IndexOf(Listed(early), ident) < |Listed(early)|
  {
    FindFinds(early[0].segs, ident);
    var i := Find(early[0].segs, ident);
    assert Listed(early)[i] == ident;
  }

  /** Two maps that list the same places. */
  ghost predicate SamePlaces(segs: seq<Segment>, segs': seq<Segment>) {
    |segs| == |segs'| && forall i :: 0 <= i < |segs| ==> segs'[i].SamePlace(segs[i])
  }

  lemma SamePlacesWellFormed(segs: seq<Segment>, segs': seq<Segment>)
    requires WellFormed(segs) && SamePlaces(segs, segs')
    ensures WellFormed(segs')
  {
    forall i, j | 0 <= i < |segs'| && 0 <= j < |segs'| && i != j ensures Apart(segs'[i], segs'[j]) {
      assert Apart(segs[i], segs[j]);
    }
  }

  /** A start address is in a rank's table exactly when the list names its segment. */
  lemma TableMatchesNames(r: Rank, names: seq<Ident>, s: Segment)
    requires Follows(r, names) && s in r.segs
    ensures s.start in r.starts[1..] <==> s.ident in names[1..]
  {
    hide FollowsSegment;
    if s.start in r.starts[1..] {
      var k :| 1 <= k < |r.starts| && r.starts[k] == s.start;
      assert HoldsSlot(r, names, k);
      var t :| t in r.segs && t.ident == names[k] && t.start == r.starts[k];
      SameSegment(r.segs, s, t);
      assert names[1..][k - 1] == s.ident;
    }
    if s.ident in names[1..] {
      var k :| 1 <= k < |names| && names[k] == s.ident;
      assert HoldsSlot(r, names, k);
      var t :| t in r.segs && t.ident == names[k] && t.start == r.starts[k];
      SameSegment(r.segs, s, t);
      assert r.starts[1..][k - 1] == s.start;
    }
  }

  /** The map of one rank once the checklist has been gone through. */
  function JudgedOn(early: Team, team: Team, r: nat): seq<Segment>
    requires early != [] && r < |team|
  {
    JudgedMap(team[r].segs, Listed(early), Checks(early, Listed(early)))
  }

  lemma JudgedOnMap(early: Team, team: Team, names: seq<Ident>, r: nat)
    requires Both(early, team, names) && r < |team|
    ensures var judged := JudgedOn(early, team, r);
      && SamePlaces(team[r].segs, judged) && WellFormed(judged)
      && (forall i :: 0 <= i < |judged| ==> judged[i].idx == team[r].segs[i].idx)
      && (forall i :: 0 <= i < |judged| ==> (judged[i].verified <==> Everywhere(early, judged[i].ident)))
  {
    hide WellFormed, Everywhere;
    var segs, judged := team[r].segs, JudgedOn(early, team, r);
    assert Follows(team[r], names);
    forall i | 0 <= i < |segs|
      ensures judged[i].verified <==> Everywhere(early, judged[i].ident)
    {
      assert segs[i] in segs;
      JudgedMeansEverywhere(early, team, names, r, segs[i]);
    }
    SamePlacesWellFormed(segs, judged);
  }

  /** The hashes each rank numbers are those that all ranks have and the list does not. */
  lemma NewIdents(early: Team, team: Team, names: seq<Ident>, r: nat, ident: Ident)
    requires Both(early, team, names) && r < |team|
    ensures var ordered := Ordered(JudgedOn(early, team, r), team[r].starts);
      ident in Idents(ordered) <==> Everywhere(early, ident) && ident !in names[1..]
  {
    hide JudgedOn, Ordered, FollowsSegment, HoldsSlot;
    var segs, judged, starts := team[r].segs, JudgedOn(early, team, r), team[r].starts;
    var ordered := Ordered(judged, starts);
    assert Follows(team[r], names);
    JudgedOnMap(early, team, names, r);
    OrderedAscends(judged, starts);
    forall i | 0 <= i < |judged|
      ensures NeedsIndex(judged[i], starts)
        <==> Everywhere(early, judged[i].ident) && judged[i].ident !in names[1..]
    {
      assert segs[i] in segs;
      TableMatchesNames(team[r], names, segs[i]);
    }
    IdentsOf(judged, ordered, starts, ident);
    hide Follows, WellFormed, NeedsIndex, Everywhere, Idents;
    if Everywhere(early, ident) && ident !in names[1..] {
      IsLoaded(early, team, names, r, ident);
      var i :| 0 <= i < |segs| && segs[i].ident == ident;
      assert judged[i].ident == ident;
    }
  }

  lemma IsLoaded(early: Team, team: Team, names: seq<Ident>, r: nat, ident: Ident)
    requires Both(early, team, names) && r < |team| && Everywhere(early, ident)
    ensures exists i :: 0 <= i < |team[r].segs| && team[r].segs[i].ident == ident
  {
    assert Has(early[r].segs, ident);
    var s :| s in team[r].segs && s.ident == ident;
    var i :| 0 <= i < |team[r].segs| && team[r].segs[i] == s;
  }

  /** The hashes that are numbered are those of the segments that need an index. */
  lemma IdentsOf(judged: seq<Segment>, ordered: seq<Segment>, starts: seq<nat>, ident: Ident)
    requires starts != [] && forall s :: s in ordered <==> s in judged && NeedsIndex(s, starts)
    ensures ident in Idents(ordered) <==>
      exists i :: 0 <= i < |judged| && judged[i].ident == ident && NeedsIndex(judged[i], starts)
  {
    hide NeedsIndex;
    if ident in Idents(ordered) {
      var k :| 0 <= k < |ordered| && Idents(ordered)[k] == ident;
      assert ordered[k] in ordered;
      var i :| 0 <= i < |judged| && judged[i] == ordered[k];
    }
    if i :| 0 <= i < |judged| && judged[i].ident == ident && NeedsIndex(judged[i], starts) {
      assert judged[i] in ordered;
      var k :| 0 <= k < |ordered| && ordered[k] == judged[i];
      assert Idents(ordered)[k] == ident;
    }
  }

  // ---- Numbering ----

  /** Each rank's new hashes, in the order in which it numbers them. */
  function NewNames(early: Team, team: Team, r: nat): seq<Ident>
    requires early != [] && r < |team| && team[r].starts != []
  {
    Idents(Ordered(JudgedOn(early, team, r), team[r].starts))
  }

  lemma SameNewNames(early: Team, team: Team, names: seq<Ident>, q: nat, r: nat)
    requires Both(early, team, names) && q < |team| && r < |team|
    ensures NewNames(early, team, q) == NewNames(early, team, r)
  {
    hide Follows, JudgedOn, Ordered, Everywhere;
    NewNamesAscend(early, team, names, q);
    NewNamesAscend(early, team, names, r);
    forall ident ensures ident in NewNames(early, team, q) <==> ident in NewNames(early, team, r) {
      NewIdents(early, team, names, q, ident);
      NewIdents(early, team, names, r, ident);
    }
    AscendingIsUnique(NewNames(early, team, q), NewNames(early, team, r));
  }

  lemma NewNamesAscend(early: Team, team: Team, names: seq<Ident>, r: nat)
    requires Both(early, team, names) && r < |team|
    ensures team[r].starts != [] && Ascending(NewNames(early, team, r))
  {
    assert Follows(team[r], names);
    JudgedOnMap(early, team, names, r);
    OrderedAscends(JudgedOn(early, team, r), team[r].starts);
  }

  /** In a well-formed map a segment is in the numbered list exactly when its start is. */
  lemma NumberedIndex(segs: seq<Segment>, ordered: seq<Segment>, s: Segment)
    requires WellFormed(segs) && s in segs && forall t :: t in ordered ==> t in segs
    ensures var k := IndexOf(Starts(ordered), s.start);
      (k < |ordered| ==> ordered[k] == s) && (s.ident in Idents(ordered) ==> k < |ordered|)
  {
    var k := IndexOf(Starts(ordered), s.start);
    if k < |ordered| {
      assert ordered[k] in ordered;
      SameSegment(segs, ordered[k], s);
    }
    if s.ident in Idents(ordered) {
      var i :| 0 <= i < |ordered| && Idents(ordered)[i] == s.ident;
      assert ordered[i] in ordered;
      SameSegment(segs, ordered[i], s);
      assert Starts(ordered)[i] == s.start;
    }
  }

  lemma VerifyAllOn(early: Team, team: Team, r: nat)
    requires early != [] && |early| == |team| && (forall q :: 0 <= q < |team| ==> team[q].starts != []) && r < |team|
    ensures VerifyAll(early, team)[r].segs ==
      NumberedMap(JudgedOn(early, team, r), Starts(Ordered(JudgedOn(early, team, r), team[r].starts)), |team[r].starts|)
    ensures VerifyAll(early, team)[r].starts ==
      team[r].starts + Starts(Ordered(JudgedOn(early, team, r), team[r].starts))
  {
  }

  lemma TablesUsed(team: Team, names: seq<Ident>)
    requires Agrees(team, names)
    ensures forall r :: 0 <= r < |team| ==> team[r].starts != []
  {
    forall r | 0 <= r < |team| ensures team[r].starts != [] {
      assert Follows(team[r], names);
    }
  }

  /** The map of one rank afterwards: the same places, the flags of the checklist. */
  lemma MapAfterwards(early: Team, team: Team, names: seq<Ident>, r: nat)
    requires Both(early, team, names) && r < |team|
    requires forall q :: 0 <= q < |team| ==> team[q].starts != []
    ensures var segs := VerifyAll(early, team)[r].segs;
      && SamePlaces(team[r].segs, segs) && WellFormed(segs)
      && (forall i :: 0 <= i < |segs| ==> (segs[i].verified <==> Everywhere(early, segs[i].ident)))
  {
    hide WellFormed, Everywhere, JudgedOn, VerifyAll, Ordered;
    assert Follows(team[r], names);
    JudgedOnMap(early, team, names, r);
    VerifyAllOn(early, team, r);
    SamePlacesWellFormed(team[r].segs, VerifyAll(early, team)[r].segs);
  }

  /** The index of one segment afterwards. */
  lemma SegmentAfterwards(early: Team, team: Team, names: seq<Ident>, r: nat, i: nat)
    requires Both(early, team, names) && r < |team| && i < |team[r].segs|
    requires forall q :: 0 <= q < |team| ==> team[q].starts != []
    requires |VerifyAll(early, team)[r].segs| == |team[r].segs|
    ensures FollowsSegment(VerifyAll(early, team)[r].segs[i], names + NewNames(early, team, r))
  {
    hide WellFormed, Everywhere, JudgedOn, VerifyAll, Ordered;
    var judged, starts := JudgedOn(early, team, r), team[r].starts;
    var ordered, ns := Ordered(judged, starts), NewNames(early, team, r);
    assert Follows(team[r], names);
    JudgedOnMap(early, team, names, r);
    OrderedAscends(judged, starts);
    VerifyAllOn(early, team, r);
    assert team[r].segs[i] in team[r].segs;
    assert FollowsSegment(team[r].segs[i], names);
    assert judged[i] in judged;
    NumberedIndex(judged, ordered, judged[i]);
    NewIdents(early, team, names, r, judged[i].ident);
    assert (names + ns)[1..] == names[1..] + ns;
  }

  lemma SlotsAfterwards(early: Team, team: Team, names: seq<Ident>, r: nat, k: nat)
    requires Both(early, team, names) && r < |team|
    requires forall q :: 0 <= q < |team| ==> team[q].starts != []
    requires 1 <= k < |names| + |NewNames(early, team, r)|
    requires |VerifyAll(early, team)[r].starts| == |names| + |NewNames(early, team, r)|
    ensures HoldsSlot(VerifyAll(early, team)[r], names + NewNames(early, team, r), k)
  {
    hide WellFormed, Everywhere, JudgedOn, VerifyAll, Ordered, FollowsSegment;
    var judged, starts := JudgedOn(early, team, r), team[r].starts;
    var ordered, next := Ordered(judged, starts), VerifyAll(early, team)[r];
    assert Follows(team[r], names);
    JudgedOnMap(early, team, names, r);
    VerifyAllOn(early, team, r);
    if k < |names| {
      assert HoldsSlot(team[r], names, k);
      var s :| s in team[r].segs && s.ident == names[k] && s.start == starts[k];
      var i :| 0 <= i < |judged| && team[r].segs[i] == s;
      assert next.segs[i] in next.segs;
    } else {
      OrderedAscends(judged, starts);
      assert ordered[k - |names|] in ordered;
      var i :| 0 <= i < |judged| && judged[i] == ordered[k - |names|];
      assert next.segs[i] in next.segs;
    }
  }

  lemma RankFollowsAfterwards(early: Team, team: Team, names: seq<Ident>, r: nat)
    requires Both(early, team, names) && r < |team|
    requires forall q :: 0 <= q < |team| ==> team[q].starts != []
    ensures Follows(VerifyAll(early, team)[r], names + NewNames(early, team, r))
  {
    hide WellFormed, Everywhere, JudgedOn, VerifyAll, Ordered, FollowsSegment, HoldsSlot;
    var next, names' := VerifyAll(early, team)[r], names + NewNames(early, team, r);
    assert Follows(team[r], names);
    MapAfterwards(early, team, names, r);
    VerifyAllOn(early, team, r);
    forall k | 1 <= k < |names'| ensures HoldsSlot(next, names', k) {
      SlotsAfterwards(early, team, names, r, k);
    }
    forall s | s in next.segs ensures FollowsSegment(s, names') {
      var i :| 0 <= i < |next.segs| && next.segs[i] == s;
      SegmentAfterwards(early, team, names, r, i);
    }
  }

  lemma FlagsAfterwards(early: Team, team: Team, names: seq<Ident>, r: nat, ident: Ident)
    requires Both(early, team, names) && r < |team|
    requires forall q :: 0 <= q < |team| ==> team[q].starts != []
    ensures VerifiedOn(VerifyAll(early, team)[r], ident) <==> Everywhere(early, ident)
  {
    hide WellFormed, VerifyAll;
    var segs, next := team[r].segs, VerifyAll(early, team)[r];
    MapAfterwards(early, team, names, r);
    if VerifiedOn(next, ident) {
      var s :| s in next.segs && s.ident == ident && s.verified;
      var i :| 0 <= i < |next.segs| && next.segs[i] == s;
    }
    if Everywhere(early, ident) {
      assert Has(early[r].segs, ident);
      var s :| s in segs && s.ident == ident;
      var i :| 0 <= i < |segs| && segs[i] == s;
      assert next.segs[i] in next.segs;
    }
  }

  lemma NamesAfterwards(early: Team, team: Team, names: seq<Ident>)
    requires Both(early, team, names)
    requires forall q :: 0 <= q < |team| ==> team[q].starts != []
    ensures Agrees(VerifyAll(early, team), names + NewNames(early, team, 0))
  {
    hide VerifyAll, Follows, NewNames;
    var next, names' := VerifyAll(early, team), names + NewNames(early, team, 0);
    forall r | 0 <= r < |team| ensures Follows(next[r], names') {
      SameNewNames(early, team, names, 0, r);
      RankFollowsAfterwards(early, team, names, r);
    }
  }

  lemma EverywhereIsNamed(early: Team, team: Team, names: seq<Ident>, ident: Ident)
    requires Both(early, team, names) && team[0].starts != [] && Everywhere(early, ident)
    ensures ident in (names + NewNames(early, team, 0))[1..]
  {
    hide Follows, Everywhere, JudgedOn, Ordered;
    NewIdents(early, team, names, 0, ident);
    assert (names + NewNames(early, team, 0))[1..] == names[1..] + NewNames(early, team, 0);
  }

  lemma FlagsAreUniform(team: Team, next: Team)
    requires |next| == |team|
    requires forall r, ident :: 0 <= r < |next| ==> (VerifiedOn(next[r], ident) <==> Everywhere(team, ident))
    ensures Uniform(next)
  {
    hide VerifiedOn, Everywhere;
    forall q, r, ident | 0 <= q < |next| && 0 <= r < |next| && VerifiedOn(next[q], ident)
      ensures VerifiedOn(next[r], ident)
    {
      assert VerifiedOn(next[q], ident) <==> Everywhere(team, ident);
      assert VerifiedOn(next[r], ident) <==> Everywhere(team, ident);
    }
  }

  lemma AllFlagsAfterwards(early: Team, team: Team, names: seq<Ident>)
    requires Both(early, team, names)
    requires forall q :: 0 <= q < |team| ==> team[q].starts != []
    ensures forall r, ident :: 0 <= r < |team| ==>
      (VerifiedOn(VerifyAll(early, team)[r], ident) <==> Everywhere(early, ident))
    ensures Uniform(VerifyAll(early, team))
  {
    assert team != [];
    hide VerifyAll, Agrees, Everywhere, VerifiedOn;
    forall r, ident | 0 <= r < |team|
      ensures VerifiedOn(VerifyAll(early, team)[r], ident) <==> Everywhere(early, ident)
    {
      FlagsAfterwards(early, team, names, r, ident);
    }
    FlagsAreUniform(early, VerifyAll(early, team));
  }

  /** verify_all keeps the ranks in agreement in whatever state it finds the flags, gives every
      segment that all ranks have loaded an index, and leaves exactly those verified. */
  lemma VerifyAllKeepsAgreement(early: Team, team: Team, names: seq<Ident>)
    requires Both(early, team, names)
    ensures forall r :: 0 <= r < |team| ==> team[r].starts != []
    ensures Agrees(VerifyAll(early, team), names + NewNames(early, team, 0))
    ensures forall r, ident :: 0 <= r < |team| ==>
      (VerifiedOn(VerifyAll(early, team)[r], ident) <==> Everywhere(early, ident))
    ensures forall ident :: Everywhere(early, ident) ==> ident in (names + NewNames(early, team, 0))[1..]
    ensures Uniform(VerifyAll(early, team))
  {
    TablesUsed(team, names);
    NamesAfterwards(early, team, names);
    AllFlagsAfterwards(early, team, names);
    hide *;
    forall ident | Everywhere(early, ident) ensures ident in (names + NewNames(early, team, 0))[1..] {
      EverywhereIsNamed(early, team, names, ident);
    }
  }
}
