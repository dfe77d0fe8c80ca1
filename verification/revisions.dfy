/** How the two revisions relate: the TypeScript revision's session is the
    compiled revision's session in which every player has already picked, its
    join-with-pick is a join followed by a pick, and both close a round alike. */
module Revisions {
  import opened Outcomes
  import opened Seqs
  import opened GameRules
  import opened Rounds
  import Src = SrcSession
  import Dist = DistSession

  function AsDistPlayer(p: Src.Player): Dist.Player {
    Dist.Player(p.username, Some(p.pick))
  }

  /** The TypeScript session seen as a compiled-revision session. */
  function AsDist(s: Src.Session): Dist.Session {
    Round(s.isActive, s.startedAt, s.endsAt, Project(s.players, AsDistPlayer), s.winningNumber)
  }

  lemma JoinedAgrees(ps: seq<Src.Player>, u: string)
    ensures Dist.Joined(Project(ps, AsDistPlayer), u) <==> Src.Joined(ps, u)
  {
    var dps := Project(ps, AsDistPlayer);
    if Dist.Joined(dps, u) {
      var i :| 0 <= i < |dps| && dps[i].username == u;
      assert ps[i].username == u;
    }
  }

  /** A join with a pick in the TypeScript revision succeeds exactly when, in
      the compiled revision, a join followed by a pick of the same value
      succeeds, and then both reach the same session. */
  lemma JoinWithPickIsJoinThenPick(s: Src.Session, u: string, pick: PickInput)
    ensures Src.Join(s, u, pick).Ok? <==>
              Dist.Join(AsDist(s), u).Ok? && Dist.Pick(Dist.Join(AsDist(s), u).value, u, pick).Ok?
    ensures Src.Join(s, u, pick).Ok? ==>
              AsDist(Src.Join(s, u, pick).value) == Dist.Pick(Dist.Join(AsDist(s), u).value, u, pick).value
  {
    var d := AsDist(s);
    JoinedAgrees(s.players, u);
    if Dist.Join(d, u).Ok? {
      var d1 := Dist.Join(d, u).value;
      var n := |s.players|;
      assert Dist.Find(d1.players, u) == Some(n) by {
        assert d1.players[n].username == u;
        forall k | 0 <= k < n
          ensures d1.players[k].username != u
        {
          assert d1.players[k] == d.players[k];
        }
      }
      if IsValidPick(pick) {
        var s' := Src.Join(s, u, pick).value;
        var d2 := Dist.Pick(d1, u, pick).value;
        assert AsDist(s').players == d2.players;
      }
    }
  }

  /** The guard orders differ: for a player already in the round who sends an
      invalid pick, the TypeScript join reports the invalid pick, while the
      compiled revision's join reports that the player has already joined. */
  lemma InvalidPickReportedFirst(s: Src.Session, u: string, pick: PickInput)
    requires s.isActive && !IsValidPick(pick) && Src.Joined(s.players, u)
    ensures Src.Join(s, u, pick) == Err(InvalidPick)
    ensures Dist.Join(AsDist(s), u) == Err(AlreadyJoined)
  {
    JoinedAgrees(s.players, u);
  }

  /** Both revisions close a round alike: same closed session, same winners and
      the same win credits. */
  lemma CloseAgrees(s: Src.Session, drawn: int)
    ensures AsDist(Src.Close(s, drawn).session) == Dist.Close(AsDist(s), drawn).session
    ensures Project(Src.Close(s, drawn).winners, AsDistPlayer) == Dist.Close(AsDist(s), drawn).winners
    ensures Src.Close(s, drawn).credited == Dist.Close(AsDist(s), drawn).credited
  {
    var keepSrc := (p: Src.Player) => Some(p.pick) == Some(drawn);
    var keepDist := (p: Dist.Player) => p.pick == Some(drawn);
    FilterThenProject(s.players, AsDistPlayer, keepSrc, keepDist);
    var src := Src.Close(s, drawn);
    var dist := Dist.Close(AsDist(s), drawn);
    assert |src.credited| == |dist.credited|;
    forall i | 0 <= i < |src.credited|
      ensures src.credited[i] == dist.credited[i]
    {
      assert dist.winners[i] == AsDistPlayer(src.winners[i]);
    }
  }
}
