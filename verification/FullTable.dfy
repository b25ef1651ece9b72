/** A run on one rank in which verify_segment fills an index table and then stores past its end. */
module FullTable {
  import opened Segments
  import opened Verification
  import opened IndexRuns

  /** One of a row of loaded segments, of which the first so many have been verified in their order. */
  function Piece(i: nat, verified: nat): Segment {
    Segment(10 * i + 1, 10 * i + 9, i + 1, false, i < verified, false, false, if i < verified then i + 1 else 0)
  }

  function Pieces(n: nat, verified: nat): (s: seq<Segment>)
    ensures |s| == n && forall i :: 0 <= i < n ==> s[i] == Piece(i, verified)
  {
    seq(n, i requires 0 <= i < n => Piece(i, verified))
  }

  function Table(verified: nat): (s: seq<nat>)
    ensures |s| == verified + 1
  {
    seq(verified + 1, i requires 0 <= i <= verified => if i == 0 then 0 else 10 * i - 9)
  }

  /** One more segment is loaded than is verified. */
  function After(k: nat): Team { [Rank(Pieces(k + 1, k), Table(k))] }

  /** The one segment not verified yet is verified, and another one is loaded meanwhile. */
  function VerifyNext(k: nat): Event { OneSegment([Pieces(k + 1, 0)], [Pieces(k + 2, 0)], [10 * k + 5]) }

  lemma PiecesAreWellFormed(n: nat, k: nat)
    ensures WellFormed(Pieces(n, k)) && Fresh(Pieces(n, 0))
  {
    forall i, j | 0 <= i < n && 0 <= j < n && i != j ensures Apart(Pieces(n, k)[i], Pieces(n, k)[j]) {
    }
  }

  lemma RebuiltPieces(m: nat, n: nat, k: nat)
    requires k <= m <= n
    ensures Rebuilt(Pieces(m, k), Pieces(n, 0)) == Pieces(n, k) && Loads(Pieces(n, 0), Pieces(m, k))
  {
    PiecesAreWellFormed(m, k);
    PiecesAreWellFormed(n, 0);
    hide WellFormed, Inherit;
    var olds, loaded := Pieces(m, k), Pieces(n, 0);
    forall i | 0 <= i < n ensures Inherit(loaded[i], olds) == Piece(i, k) {
      if i < m {
        assert olds[i] in olds;
        InheritRestores(loaded[i], olds, olds[i]);
      } else {
        InheritKeepsPlace(loaded[i], olds);
      }
    }
    forall s | s in olds ensures StillThere(loaded, s) {
      var i :| 0 <= i < m && olds[i] == s;
      assert loaded[i] in loaded && loaded[i].SamePlace(s);
    }
  }

  lemma NextIsFinished(k: nat)
    ensures FinishSegment(Rank(Pieces(k + 2, k), Table(k)), k + 1, k + 1) == After(k + 1)[0]
  {
    var segs := Pieces(k + 2, k);
    var i := Find(segs, k + 1);
    assert segs[k].ident == k + 1;
    assert i == k;
    assert segs[k := segs[k].SetVerified().(idx := k + 1)] == Pieces(k + 2, k + 1);
    assert Table(k) + [segs[k].start] == Table(k + 1);
  }

  lemma NextIsLocated(k: nat)
    ensures Located(Pieces(k + 1, k), 10 * k + 5) == k + 1 && !HitsBadSegment(Pieces(k + 1, k), 10 * k + 5)
  {
    var segs := Pieces(k + 1, k);
    assert segs[k].Encloses(10 * k + 5);
    assert Scan(segs, 10 * k + 5) == k;
  }

  lemma StepIsTaken(k: nat)
    ensures Lawful(After(k), VerifyNext(k)) && Step(After(k), VerifyNext(k)) == Running(After(k + 1))
  {
    hide Rebuilt, Loads, FinishSegment, Located, HitsBadSegment, Pieces, Table;
    RebuiltPieces(k + 1, k + 1, k);
    RebuiltPieces(k + 1, k + 2, k);
    NextIsLocated(k);
    NextIsFinished(k);
    var team, e := After(k), VerifyNext(k);
    assert EarlyTeam(team, e) == team;
    assert LateTeam(team, e) == [Rank(Pieces(k + 2, k), Table(k))];
    assert Contributions(team, e.ps) == [k + 1];
    assert VerifySegment(team, LateTeam(team, e), e.ps) == After(k + 1);
  }

  /** Whatever the number of slots, as many segments loaded and verified one by one need slot `slots`:
      the last call stores there, where the table has ended. */
  lemma LastStoreIsOutside(slots: nat) returns (teams: seq<Team>, events: seq<Event>)
    requires slots >= 1
    ensures IsRun(teams, events) && |events| == slots && Initial(teams[0])
    ensures forall i :: 0 <= i < slots ==> |teams[i]| == 1 && |teams[i][0].starts| <= slots
    ensures |teams[slots]| == 1 && |teams[slots][0].starts| == slots + 1
  {
    hide Step, Lawful, Pieces;
    teams := seq(slots + 1, k requires 0 <= k <= slots => After(k));
    events := seq(slots, k requires 0 <= k < slots => VerifyNext(k));
    forall i | 0 <= i < slots ensures IsStep(teams, events, i) {
      StepIsTaken(i);
    }
    PiecesAreWellFormed(1, 0);
    assert Table(0) == [0];
  }
}
