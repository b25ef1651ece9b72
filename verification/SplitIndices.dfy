/** A run, on two ranks with two segments, after which one index means different segments. */
module SplitIndices {
  import opened Segments
  import opened Verification
  import opened IndexRuns

  function Loaded(start: nat, ident: Ident): Segment {
    Segment(start, start + 50, ident, false, false, false, false, 0)
  }

  /** What the loader reports all along: the two segments lie at different places on the two ranks. */
  function LoadedLists(): seq<seq<Segment>> {
    [[Loaded(100, 1), Loaded(300, 2)], [Loaded(100, 2), Loaded(500, 1)]]
  }

  function VerifyAt(ps: seq<nat>): Event { OneSegment(LoadedLists(), LoadedLists(), ps) }

  /** A map the loader has nothing to add to is rebuilt as it was. */
  lemma RebuildIsIdle(segs: seq<Segment>, loaded: seq<Segment>)
    requires WellFormed(segs) && Fresh(loaded) && |loaded| == |segs|
    requires forall i :: 0 <= i < |segs| ==> loaded[i].SamePlace(segs[i]) && loaded[i].badSegment == segs[i].badSegment
    ensures Rebuilt(segs, loaded) == segs && Loads(loaded, segs)
  {
    hide Inherit;
    forall i | 0 <= i < |segs| ensures Inherit(loaded[i], segs) == segs[i] {
      assert loaded[i] in loaded && segs[i] in segs;
      InheritRestores(loaded[i], segs, segs[i]);
    }
    assert Rebuilt(segs, loaded) == segs;
    forall i, j | 0 <= i < |loaded| && 0 <= j < |loaded| && i != j ensures Apart(loaded[i], loaded[j]) {
      assert Apart(segs[i], segs[j]);
    }
    forall s | s in segs ensures StillThere(loaded, s) {
      var i :| 0 <= i < |segs| && segs[i] == s;
      assert loaded[i] in loaded;
    }
  }

  ghost predicate Unchanged(team: Team) {
    |team| == 2 && forall r :: 0 <= r < 2 ==> UnchangedMap(team[r].segs, LoadedLists()[r])
  }

  ghost predicate UnchangedMap(segs: seq<Segment>, loaded: seq<Segment>) {
    |segs| == 2 == |loaded| && forall i :: 0 <= i < 2 ==> segs[i].SamePlace(loaded[i]) && !segs[i].badSegment
  }

  lemma StepIs(team: Team, ps: seq<nat>)
    requires Unchanged(team) && |ps| == 2
    ensures Lawful(team, VerifyAt(ps)) && Step(team, VerifyAt(ps)) == Running(VerifySegment(team, team, ps))
    ensures EarlyTeam(team, VerifyAt(ps)) == team == LateTeam(team, VerifyAt(ps))
  {
    hide Rebuilt, VerifySegment, Covers;
    var loaded := LoadedLists();
    forall r | 0 <= r < 2
      ensures Rebuilt(team[r].segs, loaded[r]) == team[r].segs && Loads(loaded[r], team[r].segs)
    {
      assert UnchangedMap(team[r].segs, loaded[r]);
      RebuildIsIdle(team[r].segs, loaded[r]);
    }
    assert RebuiltTeam(team, loaded) == team;
  }

  function Pair(a: seq<Segment>, aStarts: seq<nat>, b: seq<Segment>, bStarts: seq<nat>): Team {
    [Rank(a, aStarts), Rank(b, bStarts)]
  }

  function Ok(s: Segment, idx: nat): Segment { s.(verified := true, badVerification := false, idx := idx) }

  function Bad(s: Segment): Segment { s.(verified := false, badVerification := true) }

  lemma FinishAt(r: Rank, hash: Ident, reduced: Ident, i: nat)
    requires |r.segs| == 2 && i < 2 && r.segs[i].ident == hash && r.segs[1 - i].ident != hash
    ensures FinishSegment(r, hash, reduced) ==
      if reduced == NO_IDENT then Rank(r.segs[i := Bad(r.segs[i])], r.starts)
      else if r.segs[i].verified then r
      else Rank(r.segs[i := Ok(r.segs[i], |r.starts|)], r.starts + [r.segs[i].start])
  {
    var k := Find(r.segs, hash);
    assert k == i;
  }

  /** Each rank's pointer lies in the segment at its position. */
  ghost predicate PointsAt(team: Team, ps: seq<nat>, i: nat, j: nat) {
    && Unchanged(team) && |ps| == 2 && i < 2 && j < 2
    && team[0].segs[i].Encloses(ps[0]) && !team[0].segs[1 - i].Encloses(ps[0])
    && team[1].segs[j].Encloses(ps[1]) && !team[1].segs[1 - j].Encloses(ps[1])
  }

  lemma StepAt(team: Team, ps: seq<nat>, i: nat, j: nat)
    requires PointsAt(team, ps, i, j)
    ensures var reduced := SeghashReduce(team[0].segs[i].ident, team[1].segs[j].ident);
      VerifySegment(team, team, ps) ==
        [FinishSegment(team[0], team[0].segs[i].ident, reduced), FinishSegment(team[1], team[1].segs[j].ident, reduced)]
  {
    hide FinishSegment;
    var k, l := Scan(team[0].segs, ps[0]), Scan(team[1].segs, ps[1]);
    assert k == i && l == j;
  }

  /** The step ends where both ranks finish with what they contributed. */
  lemma StepEnds(team: Team, ps: seq<nat>, i: nat, j: nat, next: Team)
    requires PointsAt(team, ps, i, j) && |next| == 2
    requires team[0].segs[0].ident != team[0].segs[1].ident && team[1].segs[0].ident != team[1].segs[1].ident
    requires var reduced := SeghashReduce(team[0].segs[i].ident, team[1].segs[j].ident);
      && next[0] == FinishSegment(team[0], team[0].segs[i].ident, reduced)
      && next[1] == FinishSegment(team[1], team[1].segs[j].ident, reduced)
    ensures Lawful(team, VerifyAt(ps)) && Step(team, VerifyAt(ps)) == Running(next)
  {
    hide Step, Lawful, FinishSegment, VerifySegment;
    StepIs(team, ps);
    StepAt(team, ps, i, j);
    assert VerifySegment(team, team, ps) == next;
  }

  // ---- The run ----

  function A(): Segment { Loaded(100, 1) }
  function B(): Segment { Loaded(300, 2) }
  function C(): Segment { Loaded(100, 2) }
  function D(): Segment { Loaded(500, 1) }

  function Team0(): Team { Pair([A(), B()], [0], [C(), D()], [0]) }
  function Team1(): Team { Pair([Ok(A(), 1), B()], [0, 100], [C(), Ok(D(), 1)], [0, 500]) }
  function Team2(): Team { Pair([Bad(Ok(A(), 1)), B()], [0, 100], [Bad(C()), Ok(D(), 1)], [0, 500]) }
  function Team3(): Team { Pair([Ok(A(), 2), B()], [0, 100, 100], [Bad(C()), Ok(D(), 1)], [0, 500]) }
  function Team4(): Team { Pair([Ok(A(), 2), Ok(B(), 3)], [0, 100, 100, 300], [Ok(C(), 2), Ok(D(), 1)], [0, 500, 100]) }

  lemma FirstStep()
    ensures Lawful(Team0(), VerifyAt([110, 510])) && Step(Team0(), VerifyAt([110, 510])) == Running(Team1())
  {
    hide Step, Lawful, FinishSegment;
    FinishAt(Team0()[0], 1, 1, 0);
    FinishAt(Team0()[1], 1, 1, 1);
    StepEnds(Team0(), [110, 510], 0, 1, Team1());
  }

  lemma SecondStep()
    ensures Lawful(Team1(), VerifyAt([110, 110])) && Step(Team1(), VerifyAt([110, 110])) == Running(Team2())
  {
    hide Step, Lawful, FinishSegment;
    FinishAt(Team1()[0], 1, 0, 0);
    FinishAt(Team1()[1], 2, 0, 0);
    StepEnds(Team1(), [110, 110], 0, 0, Team2());
  }

  lemma ThirdStep()
    ensures Lawful(Team2(), VerifyAt([110, 510])) && Step(Team2(), VerifyAt([110, 510])) == Running(Team3())
  {
    hide Step, Lawful, FinishSegment;
    FinishAt(Team2()[0], 1, 1, 0);
    FinishAt(Team2()[1], 1, 1, 1);
    StepEnds(Team2(), [110, 510], 0, 1, Team3());
  }

  lemma FourthStep()
    ensures Lawful(Team3(), VerifyAt([310, 110])) && Step(Team3(), VerifyAt([310, 110])) == Running(Team4())
  {
    hide Step, Lawful, FinishSegment;
    FinishAt(Team3()[0], 2, 2, 1);
    FinishAt(Team3()[1], 2, 2, 0);
    StepEnds(Team3(), [310, 110], 1, 0, Team4());
  }

  /** Two verified segments with one index, and the table of the second rank holds the second one. */
  ghost predicate MeansTwoSegments(team: Team, idx: nat) {
    |team| == 2 && |team[1].starts| > idx
    && exists s, t :: s in team[0].segs && t in team[1].segs && TwoMeanings(s, t, idx, team[1].starts[idx])
  }

  ghost predicate TwoMeanings(s: Segment, t: Segment, idx: nat, start: nat) {
    s.verified && t.verified && s.idx == idx == t.idx && s.ident != t.ident && t.start == start
  }

  function Teams(): (t: seq<Team>)
    ensures |t| == 5
  {
    [Team0(), Team1(), Team2(), Team3(), Team4()]
  }

  function Events(): (e: seq<Event>)
    ensures |e| == 4
  {
    [VerifyAt([110, 510]), VerifyAt([110, 110]), VerifyAt([110, 510]), VerifyAt([310, 110])]
  }

  lemma Shape()
    ensures Teams()[0] == Team0() && Teams()[4] == Team4()
  {
    hide Team0, Team1, Team2, Team3, Team4;
  }

  lemma StepHolds(i: nat)
    requires i < 4
    ensures IsStep(Teams(), Events(), i)
  {
    hide Step, Lawful, Team0, Team1, Team2, Team3, Team4, VerifyAt;
    if i == 0 {
      FirstStep();
    } else if i == 1 {
      SecondStep();
    } else if i == 2 {
      ThirdStep();
    } else {
      FourthStep();
    }
  }

  lemma LoadedPair(s: Segment, t: Segment)
    requires 0 < s.start < s.end < t.start < t.end && s.ident != t.ident && s.ident > 0 && t.ident > 0
    requires s == Loaded(s.start, s.ident) && t == Loaded(t.start, t.ident)
    ensures WellFormed([s, t]) && Fresh([s, t])
  {
  }

  lemma InitialTeam()
    ensures Initial(Team0())
  {
    LoadedPair(A(), B());
    LoadedPair(C(), D());
    hide WellFormed, Fresh;
    forall r | 0 <= r < 2 ensures Team0()[r].starts == [0] && WellFormed(Team0()[r].segs) && Fresh(Team0()[r].segs) {
      assert r == 0 || r == 1;
    }
  }

  lemma LastTeam()
    ensures MeansTwoSegments(Team4(), 2)
  {
    assert Ok(A(), 2) in Team4()[0].segs && Ok(C(), 2) in Team4()[1].segs;
    assert TwoMeanings(Ok(A(), 2), Ok(C(), 2), 2, Team4()[1].starts[2]);
  }

  /** Segment 1 is verified on both ranks; a call in which rank 1 names segment 2 instead fails and
      takes the flag from rank 0 only; verifying segment 1 and then segment 2 succeeds, and now
      index 2 means segment 1 on rank 0 and segment 2 on rank 1. */
  lemma IndexMeansTwoSegments() returns (teams: seq<Team>, events: seq<Event>)
    ensures IsRun(teams, events) && |events| == 4 && Initial(teams[0])
    ensures MeansTwoSegments(teams[4], 2)
  {
    InitialTeam();
    LastTeam();
    hide Initial, MeansTwoSegments, IsStep, Teams, Events, Team0, Team4;
    teams, events := Teams(), Events();
    Shape();
    forall i | 0 <= i < |events| ensures IsStep(teams, events, i) {
      StepHolds(i);
    }
  }
}
