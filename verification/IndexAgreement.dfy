/** Which collective steps keep all ranks naming the same segment by the same index. */
module IndexAgreement {
  import opened Segments
  import opened Verification

  // ---- Growth of one rank's map ----

  /** Segments of a grown map come from the old one, flags and index included, or are new. */
  lemma GrownFrom(olds: seq<Segment>, news: seq<Segment>, n: Segment)
    requires WellFormed(news) && Grown(olds, news) && n in news
    ensures (!Has(olds, n.ident) && n.idx == 0 && !n.verified)
      || exists o :: o in olds && n.SamePlace(o) && n.idx == o.idx && n.verified == o.verified
  {
    if Has(olds, n.ident) {
      var o :| o in olds && o.ident == n.ident;
      assert KeptIn(news, o);
      var m :| m in news && m.SamePlace(o) && m.idx == o.idx && m.verified == o.verified;
      SameSegment(news, m, n);
    }
  }

  lemma GrowthKeepsFollowing(r: Rank, news: seq<Segment>, names: seq<Ident>)
    requires Follows(r, names) && WellFormed(news) && Grown(r.segs, news)
    ensures Follows(Rank(news, r.starts), names)
    ensures forall ident :: VerifiedOn(Rank(news, r.starts), ident) <==> VerifiedOn(r, ident)
  {
    hide WellFormed;
    var g := Rank(news, r.starts);
    forall k | 1 <= k < |names| ensures HoldsSlot(g, names, k) {
      assert HoldsSlot(r, names, k);
      var s :| s in r.segs && s.ident == names[k] && s.start == r.starts[k];
      assert KeptIn(news, s);
    }
    forall n | n in news ensures FollowsSegment(n, names) {
      GrownFrom(r.segs, news, n);
      if n.ident in names[1..] {
        var k :| 1 <= k < |names| && names[k] == n.ident;
        assert HoldsSlot(r, names, k);
      }
    }
    forall ident ensures VerifiedOn(g, ident) <==> VerifiedOn(r, ident) {
      if VerifiedOn(g, ident) {
        var n :| n in news && n.ident == ident && n.verified;
        GrownFrom(r.segs, news, n);
      }
      if VerifiedOn(r, ident) {
        var o :| o in r.segs && o.ident == ident && o.verified;
        assert KeptIn(news, o);
      }
    }
  }

  // ---- One rank in verify_segment ----

  /** Only flags and index of one segment change. */
  lemma ReplaceKeepsMap(segs: seq<Segment>, i: nat, s: Segment)
    requires WellFormed(segs) && i < |segs| && s.SamePlace(segs[i])
    ensures WellFormed(segs[i := s])
    ensures forall t :: t in segs[i := s] <==> t == s || (t in segs && t != segs[i])
  {
    var segs' := segs[i := s];
    forall j, k | 0 <= j < |segs'| && 0 <= k < |segs'| && j != k ensures Apart(segs'[j], segs'[k]) {
      assert Apart(segs[j], segs[k]);
    }
    forall t ensures t in segs' <==> t == s || (t in segs && t != segs[i]) {
      if t in segs' {
        var k :| 0 <= k < |segs'| && segs'[k] == t;
        assert k != i ==> Apart(segs[k], segs[i]);
      }
      if t in segs && t != segs[i] {
        var k :| 0 <= k < |segs| && segs[k] == t;
        assert segs'[k] == t;
      }
      assert segs'[i] == s;
    }
  }

  lemma FailureKeepsFollowing(r: Rank, names: seq<Ident>, hash: Ident)
    requires Follows(r, names)
    ensures Follows(FinishSegment(r, hash, NO_IDENT), names)
    ensures forall ident ::
      VerifiedOn(FinishSegment(r, hash, NO_IDENT), ident) <==> VerifiedOn(r, ident) && ident != hash
  {
    hide WellFormed;
    var f := FinishSegment(r, hash, NO_IDENT);
    var i := Find(r.segs, hash);
    if i < |r.segs| {
      var s := r.segs[i].SetBadVerification();
      ReplaceKeepsMap(r.segs, i, s);
      assert f.segs == r.segs[i := s] && f.segs[i] == s;
      forall k | 1 <= k < |names| ensures HoldsSlot(f, names, k) {
        assert HoldsSlot(r, names, k);
        var t :| t in r.segs && t.ident == names[k] && t.start == r.starts[k];
        assert (if t == r.segs[i] then s else t) in f.segs;
      }
      assert FollowsSegment(r.segs[i], names);
      forall ident ensures VerifiedOn(f, ident) <==> VerifiedOn(r, ident) && ident != hash {
        if VerifiedOn(f, ident) {
          var t :| t in f.segs && t.ident == ident && t.verified;
          assert t in r.segs && t != r.segs[i];
          OthersAreApart(r.segs, t, r.segs[i]);
        }
        if VerifiedOn(r, ident) && ident != hash {
          var t :| t in r.segs && t.ident == ident && t.verified;
          assert t in f.segs;
        }
      }
    } else {
      FindFinds(r.segs, hash);
    }
  }

  lemma SuccessAppends(r: Rank, names: seq<Ident>, hash: Ident)
    requires Follows(r, names) && hash != NO_IDENT && Has(r.segs, hash)
    requires !VerifiedOn(r, hash)
    ensures Follows(FinishSegment(r, hash, hash), names + [hash])
    ensures forall ident ::
      VerifiedOn(FinishSegment(r, hash, hash), ident) <==> VerifiedOn(r, ident) || ident == hash
  {
    hide WellFormed;
    FindFinds(r.segs, hash);
    var f := FinishSegment(r, hash, hash);
    var i := Find(r.segs, hash);
    var was := r.segs[i];
    assert was in r.segs && !was.verified;
    var s := was.SetVerified().(idx := |r.starts|);
    ReplaceKeepsMap(r.segs, i, s);
    var names' := names + [hash];
    assert s in f.segs;
    forall k | 1 <= k < |names'| ensures HoldsSlot(f, names', k) {
      if k < |names| {
        assert HoldsSlot(r, names, k);
        var t :| t in r.segs && t.ident == names[k] && t.start == r.starts[k];
        assert (if t == was then s else t) in f.segs;
      }
    }
    forall t | t in f.segs ensures FollowsSegment(t, names') {
      if t != s {
        assert FollowsSegment(t, names);
        OthersAreApart(r.segs, t, was);
        assert names'[1..] == names[1..] + [hash];
      }
    }
    forall ident ensures VerifiedOn(f, ident) <==> VerifiedOn(r, ident) || ident == hash {
      if VerifiedOn(f, ident) {
        var t :| t in f.segs && t.ident == ident && t.verified;
        assert t == s || t in r.segs;
      }
      if VerifiedOn(r, ident) && ident != hash {
        var t :| t in r.segs && t.ident == ident && t.verified;
        assert t in f.segs;
      }
    }
  }

  lemma SuccessOnVerified(r: Rank, hash: Ident)
    requires WellFormed(r.segs) && hash != NO_IDENT && VerifiedOn(r, hash)
    ensures FinishSegment(r, hash, hash) == r
  {
    var s :| s in r.segs && s.ident == hash && s.verified;
    FindIs(r.segs, s);
  }

  // ---- verify_segment on the team ----

  /** Verified on some ranks only. */
  ghost predicate Mixed(team: Team, ident: Ident) {
    exists q, r :: 0 <= q < |team| && 0 <= r < |team| && VerifiedOn(team[q], ident) && !VerifiedOn(team[r], ident)
  }

  /** The hash every rank contributed, when they did. */
  function Common(early: Team, ps: seq<nat>): Ident
    requires OneEach(early, ps)
  {
    Unanimous(Contributions(early, ps))
  }

  lemma CommonIsEverywhere(early: Team, team: Team, ps: seq<nat>, r: nat)
    requires OneEach(early, ps) && GrownTeam(early, team) && Succeeds(early, ps) && r < |team|
    ensures Contributions(early, ps)[r] == Common(early, ps)
    ensures Has(team[r].segs, Common(early, ps))
  {
    var segs := early[r].segs;
    assert segs[Scan(segs, ps[r])] in segs;
  }

  lemma VerifySegmentOn(early: Team, team: Team, ps: seq<nat>, r: nat)
    requires OneEach(early, ps) && GrownTeam(early, team) && r < |team|
    ensures VerifySegment(early, team, ps)[r] == FinishSegment(team[r], Contributions(early, ps)[r], Common(early, ps))
  {
  }

  /** A failed step leaves every index as it was. */
  lemma FailedStepKeepsNames(early: Team, team: Team, ps: seq<nat>, names: seq<Ident>)
    requires OneEach(early, ps) && GrownTeam(early, team) && Agrees(team, names) && !Succeeds(early, ps)
    ensures Agrees(VerifySegment(early, team, ps), names)
  {
    hide Follows, FinishSegment;
    forall r | 0 <= r < |team| ensures Follows(VerifySegment(early, team, ps)[r], names) {
      VerifySegmentOn(early, team, ps, r);
      FailureKeepsFollowing(team[r], names, Contributions(early, ps)[r]);
    }
  }

  /** A successful step gives a segment that no rank has verified the same next index on all. */
  lemma FreshStepAppends(early: Team, team: Team, ps: seq<nat>, names: seq<Ident>)
    requires OneEach(early, ps) && GrownTeam(early, team) && Agrees(team, names) && Succeeds(early, ps)
    requires forall r :: 0 <= r < |team| ==> !VerifiedOn(team[r], Common(early, ps))
    ensures Agrees(VerifySegment(early, team, ps), names + [Common(early, ps)])
  {
    hide Follows, FinishSegment, VerifiedOn, Unanimous;
    forall r | 0 <= r < |team| ensures Follows(VerifySegment(early, team, ps)[r], names + [Common(early, ps)]) {
      VerifySegmentOn(early, team, ps, r);
      CommonIsEverywhere(early, team, ps, r);
      SuccessAppends(team[r], names, Common(early, ps));
    }
  }

  /** One that all ranks have verified already changes nothing. */
  lemma RepeatedStepIsIdle(early: Team, team: Team, ps: seq<nat>, names: seq<Ident>)
    requires OneEach(early, ps) && GrownTeam(early, team) && Agrees(team, names) && Succeeds(early, ps)
    requires forall r :: 0 <= r < |team| ==> VerifiedOn(team[r], Common(early, ps))
    ensures VerifySegment(early, team, ps) == team
  {
    forall r | 0 <= r < |team| ensures VerifySegment(early, team, ps)[r] == team[r] {
      VerifySegmentOn(early, team, ps, r);
      CommonIsEverywhere(early, team, ps, r);
      SuccessOnVerified(team[r], Common(early, ps));
    }
  }

  /** One that only some have verified gives the index counts of the ranks different values. */
  lemma MixedStepSplits(early: Team, team: Team, ps: seq<nat>, names: seq<Ident>)
    requires OneEach(early, ps) && GrownTeam(early, team) && Agrees(team, names) && Succeeds(early, ps)
    requires Mixed(team, Common(early, ps))
    ensures !Agreed(VerifySegment(early, team, ps))
  {
    hide FinishSegment, Unanimous, WellFormed, VerifiedOn, HoldsSlot, FollowsSegment;
    var h, next := Common(early, ps), VerifySegment(early, team, ps);
    var q, r :| 0 <= q < |team| && 0 <= r < |team| && VerifiedOn(team[q], h) && !VerifiedOn(team[r], h);
    VerifySegmentOn(early, team, ps, q);
    VerifySegmentOn(early, team, ps, r);
    CommonIsEverywhere(early, team, ps, q);
    CommonIsEverywhere(early, team, ps, r);
    assert Follows(team[q], names) && Follows(team[r], names);
    FollowsIsWellFormed(team[q], names);
    SuccessOnVerified(team[q], h);
    SuccessAppends(team[r], names, h);
    assert |next[q].starts| != |next[r].starts|;
  }

  /** A verify_segment step keeps the ranks in agreement exactly when it is not a successful step on
      a segment that only some of them hold as verified. */
  lemma VerifySegmentKeepsAgreement(early: Team, team: Team, ps: seq<nat>)
    requires OneEach(early, ps) && GrownTeam(early, team) && Agreed(team)
    ensures Agreed(VerifySegment(early, team, ps)) <==> !(Succeeds(early, ps) && Mixed(team, Common(early, ps)))
  {
    hide Follows, FinishSegment, VerifySegment, Succeeds, Common;
    var names :| Agrees(team, names);
    if !Succeeds(early, ps) {
      FailedStepKeepsNames(early, team, ps, names);
    } else if Mixed(team, Common(early, ps)) {
      MixedStepSplits(early, team, ps, names);
    } else if VerifiedOn(team[0], Common(early, ps)) {
      RepeatedStepIsIdle(early, team, ps, names);
    } else {
      FreshStepAppends(early, team, ps, names);
    }
  }

  // ---- When the flags stay uniform ----

  /** Some rank calls verify_segment with a pointer into a segment it holds as verified. */
  ghost predicate PointsIntoVerified(early: Team, team: Team, ps: seq<nat>)
    requires OneEach(early, ps) && |early| == |team|
  {
    exists r :: 0 <= r < |team| && VerifiedOn(team[r], Contributions(early, ps)[r])
  }

  lemma FinishedFlags(early: Team, team: Team, ps: seq<nat>, names: seq<Ident>, r: nat, ident: Ident)
    requires OneEach(early, ps) && GrownTeam(early, team) && Agrees(team, names) && r < |team|
    ensures VerifiedOn(VerifySegment(early, team, ps)[r], ident) <==>
      if Succeeds(early, ps) then VerifiedOn(team[r], ident) || ident == Common(early, ps)
      else VerifiedOn(team[r], ident) && ident != Contributions(early, ps)[r]
  {
    hide Follows, FinishSegment, Unanimous, VerifiedOn;
    VerifySegmentOn(early, team, ps, r);
    var h := Common(early, ps);
    assert Follows(team[r], names);
    if !Succeeds(early, ps) {
      FailureKeepsFollowing(team[r], names, Contributions(early, ps)[r]);
    } else {
      CommonIsEverywhere(early, team, ps, r);
      if VerifiedOn(team[r], h) {
        FollowsIsWellFormed(team[r], names);
        SuccessOnVerified(team[r], h);
      } else {
        SuccessAppends(team[r], names, h);
      }
    }
  }

  lemma FollowsIsWellFormed(r: Rank, names: seq<Ident>)
    requires Follows(r, names)
    ensures WellFormed(r.segs)
  {
  }

  lemma NoHashNotVerified(r: Rank, names: seq<Ident>)
    requires Follows(r, names)
    ensures !VerifiedOn(r, NO_IDENT)
  {
  }

  /** The flags stay uniform exactly when the step succeeds or no rank points into a segment it has
      verified: a failed step takes the flag away on the ranks that named that segment, and only
      there. */
  lemma VerifySegmentKeepsUniform(early: Team, team: Team, ps: seq<nat>)
    requires OneEach(early, ps) && GrownTeam(early, team) && Agreed(team) && Uniform(team)
    ensures Uniform(VerifySegment(early, team, ps)) <==> Succeeds(early, ps) || !PointsIntoVerified(early, team, ps)
  {
    hide Follows, VerifySegment, VerifiedOn, Contributions;
    var names :| Agrees(team, names);
    var next, hs := VerifySegment(early, team, ps), Contributions(early, ps);
    forall r, ident | 0 <= r < |team|
      ensures VerifiedOn(next[r], ident) <==>
        if Succeeds(early, ps) then VerifiedOn(team[r], ident) || ident == Common(early, ps)
        else VerifiedOn(team[r], ident) && ident != hs[r]
    {
      FinishedFlags(early, team, ps, names, r, ident);
    }
    if !Succeeds(early, ps) && PointsIntoVerified(early, team, ps) {
      var r :| 0 <= r < |team| && VerifiedOn(team[r], hs[r]);
      NoHashNotVerified(team[r], names);
      var q := SomeOther(hs, r);
      assert VerifiedOn(next[q], hs[r]) && !VerifiedOn(next[r], hs[r]);
    }
  }

  lemma SomeOther(hs: seq<Ident>, r: nat) returns (q: nat)
    requires r < |hs| && hs[r] != NO_IDENT && Unanimous(hs) == NO_IDENT
    ensures q < |hs| && hs[q] != hs[r]
  {
    q := if hs[0] != hs[r] then 0 else var i :| 0 <= i < |hs| && hs[i] != hs[0]; i;
  }
}
