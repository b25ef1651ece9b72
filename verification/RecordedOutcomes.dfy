/** What the steps of the protocol look at and record, field by field. */
module RecordedOutcomes {
  import opened Segments
  import opened Sorting
  import opened Verification
  import opened VerifyingAll
  import opened IndexRuns

  // ---- verify_segment ----

  /** A scan reports the one segment that the pointer lies strictly inside of, if there is one. */
  lemma LocatedMeans(segs: seq<Segment>, p: nat)
    requires WellFormed(segs)
    ensures HitsBadSegment(segs, p) <==> exists s :: s in segs && s.start < p < s.end && s.badSegment
    ensures forall s :: s in segs && s.start < p < s.end ==> Located(segs, p) == s.ident
    ensures (forall s :: s in segs ==> !(s.start < p < s.end)) ==> Located(segs, p) == NO_IDENT
  {
    hide WellFormed;
    var i := Scan(segs, p);
    if i < |segs| {
      assert segs[i] in segs && segs[i].start < p < segs[i].end;
    }
    forall s | s in segs && s.start < p < s.end ensures i < |segs| && segs[i] == s {
      ScanFinds(segs, s, p);
    }
  }

  lemma RebuiltIsWellFormed(segs: seq<Segment>, loaded: seq<Segment>)
    requires WellFormed(loaded)
    ensures WellFormed(Rebuilt(segs, loaded))
  {
    hide Inherit;
    forall i | 0 <= i < |loaded| ensures Rebuilt(segs, loaded)[i].SamePlace(loaded[i]) {
      InheritKeepsPlace(loaded[i], segs);
    }
    SamePlacesWellFormed(loaded, Rebuilt(segs, loaded));
  }

  lemma EarlyIsWellFormed(team: Team, e: Event, r: nat)
    requires Lawful(team, e) && (e.OneSegment? || e.AllSegments?) && r < |team|
    ensures WellFormed(EarlyTeam(team, e)[r].segs)
  {
    hide WellFormed, Rebuilt, Fresh, Covers;
    assert Loads(e.early[r], team[r].segs);
    RebuiltIsWellFormed(team[r].segs, e.early[r]);
  }

  /** A step of verify_segment ends the program exactly when some rank's pointer lies in a segment that
      cannot be relocated, verified or not. */
  lemma AbortsOnBadSegment(team: Team, e: Event)
    requires Lawful(team, e) && e.OneSegment?
    ensures Step(team, e) == Aborted <==>
      exists r, s :: 0 <= r < |team| && s in EarlyTeam(team, e)[r].segs && s.start < e.ps[r] < s.end && s.badSegment
  {
    hide WellFormed, EarlyTeam, LateTeam, HitsBadSegment, VerifySegment;
    var early := EarlyTeam(team, e);
    forall r | 0 <= r < |team|
      ensures HitsBadSegment(early[r].segs, e.ps[r]) <==>
        exists s :: s in early[r].segs && s.start < e.ps[r] < s.end && s.badSegment
    {
      EarlyIsWellFormed(team, e, r);
      LocatedMeans(early[r].segs, e.ps[r]);
    }
  }

  ghost predicate PointsInto(segs: seq<Segment>, p: nat, ident: Ident) {
    exists s :: s in segs && s.start < p < s.end && s.ident == ident
  }

  /** Every rank's pointer lies strictly inside a segment with the hash. */
  ghost predicate AllPointInto(early: Team, ps: seq<nat>, ident: Ident)
    requires OneEach(early, ps)
  {
    forall r :: 0 <= r < |early| ==> PointsInto(early[r].segs, ps[r], ident)
  }

  /** The call succeeds exactly when there is one hash for which that is so. */
  lemma SucceedsMeans(early: Team, ps: seq<nat>)
    requires OneEach(early, ps) && forall r :: 0 <= r < |early| ==> WellFormed(early[r].segs)
    ensures Succeeds(early, ps) <==> exists ident :: AllPointInto(early, ps, ident)
  {
    hide WellFormed, Located;
    var hs := Contributions(early, ps);
    forall r | 0 <= r < |early|
      ensures forall s :: s in early[r].segs && s.start < ps[r] < s.end ==> hs[r] == s.ident != NO_IDENT
      ensures hs[r] != NO_IDENT ==> PointsInto(early[r].segs, ps[r], hs[r])
    {
      LocatedMeans(early[r].segs, ps[r]);
      HashesAreReal(early[r].segs);
    }
    if ident :| AllPointInto(early, ps, ident) {
      forall r | 0 <= r < |early| ensures hs[r] == ident != NO_IDENT {
        assert PointsInto(early[r].segs, ps[r], ident);
      }
    }
    if Succeeds(early, ps) {
      assert AllPointInto(early, ps, hs[0]);
    }
  }

  lemma HashesAreReal(segs: seq<Segment>)
    requires WellFormed(segs)
    ensures forall s :: s in segs ==> s.ident != NO_IDENT
  {
  }

  /** The second half of verify_segment on one segment of the map: one with another hash stays; a failure
      takes the verified flag away and marks the segment as bad; a success does the opposite and gives the
      next index, unless the segment was verified already. */
  lemma FinishSegmentMeans(r: Rank, hash: Ident, reduced: Ident, i: nat)
    requires WellFormed(r.segs) && i < |r.segs|
    ensures var f, s := FinishSegment(r, hash, reduced), r.segs[i];
      && |f.segs| == |r.segs|
      && (s.ident != hash ==> f.segs[i] == s)
      && (s.ident == hash && reduced == NO_IDENT ==>
        f.segs[i] == s.(verified := false, badVerification := true) && f.starts == r.starts)
      && (s.ident == hash && reduced != NO_IDENT && s.verified ==> f == r)
      && (s.ident == hash && reduced != NO_IDENT && !s.verified ==>
        && f.segs[i] == s.(verified := true, badVerification := false, idx := |r.starts|)
        && f.starts == r.starts + [s.start])
  {
    var k := Find(r.segs, hash);
    assert r.segs[i].ident == hash ==> k == i;
  }

  /** It changes nothing when the map has no such segment. */
  lemma FinishWithoutSegment(r: Rank, hash: Ident, reduced: Ident)
    requires forall s :: s in r.segs ==> s.ident != hash
    ensures FinishSegment(r, hash, reduced) == r
  {
    FindFinds(r.segs, hash);
  }

  /** One more index is needed exactly for a success on a segment not verified yet. */
  lemma AddsIndexMeans(r: Rank, hash: Ident, reduced: Ident)
    requires WellFormed(r.segs)
    ensures AddsIndex(r, hash, reduced) <==>
      reduced != NO_IDENT && exists s :: s in r.segs && s.ident == hash && !s.verified
  {
    var k := Find(r.segs, hash);
    if k < |r.segs| {
      assert r.segs[k] in r.segs;
    }
    forall s | s in r.segs && s.ident == hash ensures k < |r.segs| && r.segs[k] == s {
      FindIs(r.segs, s);
    }
  }

  // ---- verify_all ----

  /** The flags after the reduced checklist: those listed take its answer, the others are marked as bad
      unless they were judged before; nothing else of a segment changes. */
  lemma JudgedFlags(s: Segment, hashes: seq<Ident>, checks: seq<bool>)
    requires |hashes| == |checks| && NoRepeats(hashes)
    ensures var j := Judged(s, hashes, checks);
      && j == s.(verified := j.verified, badVerification := j.badVerification)
      && (forall k :: 0 <= k < |hashes| && hashes[k] == s.ident ==>
        j.verified == checks[k] && j.badVerification == !checks[k])
      && (s.ident !in hashes ==>
        j.verified == s.verified && j.badVerification == (s.badVerification || !s.verified))
  {
    var k := IndexOf(hashes, s.ident);
    assert k < |hashes| ==> hashes[k] in hashes;
  }

  /** A segment that has an index, or does not get one, keeps what it has; a verified one whose start the
      table lacks gets the place of its start in the longer table. */
  lemma FinishAllMeans(r: Rank, hashes: seq<Ident>, checks: seq<bool>, i: nat)
    requires |hashes| == |checks| && r.starts != [] && WellFormed(r.segs) && i < |r.segs|
    ensures var f, j := FinishAll(r, hashes, checks), Judged(r.segs[i], hashes, checks);
      && |f.segs| == |r.segs| && r.starts <= f.starts
      && f.segs[i] == j.(idx := f.segs[i].idx)
      && (!j.verified || j.start in r.starts[1..] ==> f.segs[i].idx == j.idx)
      && (j.verified && j.start !in r.starts[1..] ==>
        |r.starts| <= f.segs[i].idx < |f.starts| && f.starts[f.segs[i].idx] == j.start)
  {
    var judged := JudgedMap(r.segs, hashes, checks);
    forall k | 0 <= k < |r.segs| ensures judged[k].SamePlace(r.segs[k]) {
    }
    SamePlacesWellFormed(r.segs, judged);
    hide JudgedMap, WellFormed, NewSegments, SortedWith, Judged;
    var ordered := Ordered(judged, r.starts);
    OrderedAscends(judged, r.starts);
    assert judged[i] in judged;
    NumberedIndex(judged, ordered, judged[i]);
    var k := IndexOf(Starts(ordered), judged[i].start);
    if k < |ordered| {
      assert ordered[k] in ordered;
    }
  }

  /** The hashes that all ranks have loaded and the list does not name yet. */
  ghost function NotNamedYet(early: Team, names: seq<Ident>): (hashes: set<Ident>)
    requires early != [] && names != []
    ensures forall ident :: ident in hashes <==> Everywhere(early, ident) && ident !in names[1..]
  {
    forall ident | Everywhere(early, ident) ensures ident in Idents(early[0].segs) {
      assert Has(early[0].segs, ident);
      var s :| s in early[0].segs && s.ident == ident;
      var i :| 0 <= i < |early[0].segs| && early[0].segs[i] == s;
      assert Idents(early[0].segs)[i] == ident;
    }
    set ident | ident in Idents(early[0].segs) && Everywhere(early, ident) && ident !in names[1..]
  }

  lemma {:induction false} AscendingSize(s: seq<nat>, contents: set<nat>)
    requires Ascending(s) && forall x :: x in contents <==> x in s
    ensures |contents| == |s|
    decreases |s|
  {
    if s == [] {
      assert contents == {};
    } else {
      TailContents(s);
      FirstIsIn(s);
      AscendingSize(s[1..], contents - {s[0]});
    }
  }

  /** Every rank numbers as many segments as there are such hashes. */
  lemma IndicesNeeded(early: Team, team: Team, names: seq<Ident>, r: nat)
    requires Both(early, team, names) && r < |team|
    ensures |team[r].starts| == |names| >= 1
    ensures |FinishAll(team[r], Listed(early), Checks(early, Listed(early))).starts|
      == |names| + |NotNamedYet(early, names)|
  {
    assert Follows(team[r], names);
    NewNamesAscend(early, team, names, r);
    forall ident ensures ident in NotNamedYet(early, names) <==> ident in NewNames(early, team, r) {
      NewIdents(early, team, names, r, ident);
    }
    AscendingSize(NewNames(early, team, r), NotNamedYet(early, names));
  }
}
