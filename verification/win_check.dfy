/** The end of a round: the win condition and the move to the next round. */
module WinCheck {
  import opened Seats
  import opened GameState
  import Voting

  /** The result of a win check: a winner, or the game goes on. */
  datatype Verdict = VillagersWin | WolvesWin | Continue(g: Game)

  /** The alive seats on the Wolves' side and on the village's side. */
  function AliveWolfSet(g: Game): set<Seat> {
    set s: Seat | g.IsAlive(s) && g.RoleOf(s) == Wolf
  }

  function AliveVillageSet(g: Game): set<Seat> {
    set s: Seat | g.IsAlive(s) && g.RoleOf(s) != Wolf
  }

  /** `next_round`: the round counter moves on by one. */
  function NextRound(g: Game): (r: Game)
    ensures r.round == g.round + 1
    ensures r == g.(round := r.round)
  {
    g.(round := g.round + 1)
  }

  /** The two sides partition the alive seats. */
  lemma SidesPartitionAlive(g: Game)
    ensures |AliveSet(g)| == |AliveWolfSet(g)| + |AliveVillageSet(g)|
  {
    assert AliveSet(g) == AliveWolfSet(g) + AliveVillageSet(g);
    assert AliveWolfSet(g) !! AliveVillageSet(g);
  }

  /** `check_win_condition`: no alive Wolf means the villagers win; at least
      as many alive Wolves as alive others means the Wolves win (a tie goes
      to the Wolves); otherwise the next round begins. */
  function CheckWin(g: Game): (r: Verdict)
    ensures r == VillagersWin <==> |AliveWolfSet(g)| == 0
    ensures r == WolvesWin <==> 0 < |AliveWolfSet(g)| && |AliveWolfSet(g)| >= |AliveVillageSet(g)|
    ensures r.Continue? <==> 0 < |AliveWolfSet(g)| < |AliveVillageSet(g)|
    ensures r.Continue? ==> r.g.round == g.round + 1 && r.g == g.(round := r.g.round)
  {
    var alive := AliveSeats(g);
    var aliveRoles := RolesOf(g, alive);
    var wolfCount := Occurrences(aliveRoles, Wolf);
    var nonWolfCount: int := |aliveRoles| - wolfCount;
    OccurrencesOfRole(g, alive, Wolf);
    assert SeatsWithRole(g, alive, Wolf) == AliveWolfSet(g);
    AliveCount(g);
    SidesPartitionAlive(g);
    if wolfCount == 0 then VillagersWin
    else if wolfCount >= nonWolfCount then WolvesWin
    else Continue(NextRound(g))
  }

  /** What follows the vote: a banishment leads to the win check, an empty
      table straight to the next round without one. */
  function AfterVoting(v: Voting.VotingResult): (r: Verdict)
    ensures v.NoneBanished? ==> r == Continue(v.g.(round := v.g.round + 1))
    ensures v.BanishedSeat? ==> r == CheckWin(v.g)
  {
    match v
    case NoneBanished(g) => Continue(NextRound(g))
    case BanishedSeat(g, _) => CheckWin(g)
  }
}
