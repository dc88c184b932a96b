/** The night: the Wolves' kill and the Seer's check, with the random
    choices of the server passed in as indices into the legal-target lists. */
module Night {
  import opened Wrappers
  import opened Seats
  import opened GameState

  /** The alive Wolf seats, ascending. */
  function AliveWolves(g: Game): (r: seq<Seat>)
    ensures forall s: Seat :: s in r <==> g.IsAlive(s) && g.RoleOf(s) == Wolf
    ensures Ascending(r)
  {
    Filter(AliveSeats(g), (s: Seat) => g.RoleOf(s) == Wolf)
  }

  /** The seats the Wolves may kill: alive seats that are not alive Wolves. */
  function WolfTargets(g: Game): (r: seq<Seat>)
    ensures forall s: Seat :: s in r <==> g.IsAlive(s) && g.RoleOf(s) != Wolf
    ensures Ascending(r)
  {
    var wolves := AliveWolves(g);
    Filter(AliveSeats(g), (s: Seat) => s !in wolves)
  }

  /** The lowest alive seat holding the Seer role, if any. */
  function SeerSeat(g: Game): (r: Option<Seat>)
    ensures r.None? <==> forall s: Seat :: !(g.IsAlive(s) && g.RoleOf(s) == Seer)
    ensures r.Some? ==> g.IsAlive(r.value) && g.RoleOf(r.value) == Seer
    ensures r.Some? ==> forall s: Seat :: s < r.value ==> !(g.IsAlive(s) && g.RoleOf(s) == Seer)
  {
    var seers := Filter(AliveSeats(g), (s: Seat) => g.RoleOf(s) == Seer);
    if seers == [] then None
    else
      assert seers[0] in seers;
      assert forall s: Seat :: s in seers ==> seers[0] <= s by {
        forall s: Seat | s in seers ensures seers[0] <= s {
          var k :| 0 <= k < |seers| && seers[k] == s;
        }
      }
      Some(seers[0])
  }

  /** The seats the Seer may check: alive seats other than the Seer's own. */
  function SeerTargets(g: Game, seer: Seat): (r: seq<Seat>)
    ensures forall s: Seat :: s in r <==> g.IsAlive(s) && s != seer
    ensures Ascending(r)
  {
    Filter(AliveSeats(g), (s: Seat) => s != seer)
  }

  /** The random choices of one night are in range of their target lists
      (the server's `random.choice`). */
  predicate ValidPicks(g: Game, killPick: nat, seerPick: nat) {
    && (WolfTargets(g) != [] ==> killPick < |WolfTargets(g)|)
    && (SeerSeat(g).Some? && SeerTargets(g, SeerSeat(g).value) != [] ==>
          seerPick < |SeerTargets(g, SeerSeat(g).value)|)
  }

  /** How a night ends. `NoWolfTarget`: the server returns before recording
      anything and never prompts the Witch. `SeerFailed`: the Seer is the only
      alive seat, so the Seer's random choice has nothing to choose from and
      raises after the kill was recorded. `WitchPrompt`: the Witch is asked
      whether to heal `target`. */
  datatype NightOutcome =
    | NoWolfTarget(g: Game)
    | SeerFailed(g: Game)
    | WitchPrompt(g: Game, target: Seat)

  /** The Seer's check, in two layers: the outer None is the server's
      random choice failing because the Seer is the only alive seat; the
      inner None is a night without an alive Seer; otherwise the checked seat
      with its role. `seerPick` is the index `random.choice` picked in the
      ascending list of checkable seats. */
  function SeerCheck(g: Game, seerPick: nat): (r: Option<Option<(Seat, Role)>>)
    requires SeerSeat(g).Some? && SeerTargets(g, SeerSeat(g).value) != [] ==>
               seerPick < |SeerTargets(g, SeerSeat(g).value)|
    ensures r.None? <==>
              SeerSeat(g).Some? && forall s: Seat :: g.IsAlive(s) ==> s == SeerSeat(g).value
    ensures r.Some? ==> (r.value.None? <==> SeerSeat(g).None?)
    ensures r.Some? && r.value.Some? ==>
              && g.IsAlive(r.value.value.0)
              && r.value.value.0 != SeerSeat(g).value
              && r.value.value.1 == g.RoleOf(r.value.value.0)
    ensures r.Some? && r.value.Some? ==>
              && SeerSeat(g).Some?
              && seerPick < |SeerTargets(g, SeerSeat(g).value)|
              && r.value.value.0 == SeerTargets(g, SeerSeat(g).value)[seerPick]
  {
    match SeerSeat(g)
    case None => Some(None)
    case Some(seer) =>
      var checkable := SeerTargets(g, seer);
      if checkable == [] then
        assert forall s: Seat :: s !in checkable;
        None
      else
        assert checkable[0] in checkable;
        var checked := checkable[seerPick];
        assert checked in checkable;
        Some(Some((checked, g.RoleOf(checked))))
  }

  /** `night_phase`. */
  function NightPhase(g: Game, killPick: nat, seerPick: nat): (r: NightOutcome)
    requires ValidPicks(g, killPick, seerPick)
    ensures r.NoWolfTarget? <==> forall s: Seat :: !(g.IsAlive(s) && g.RoleOf(s) != Wolf)
    ensures r.NoWolfTarget? ==> r.g == g
    ensures !r.NoWolfTarget? ==>
              && r.g.nightKilled.Some?
              && g.IsAlive(r.g.nightKilled.value)
              && g.RoleOf(r.g.nightKilled.value) != Wolf
    ensures r.SeerFailed? <==>
              && !r.NoWolfTarget?
              && SeerSeat(g).Some?
              && forall s: Seat :: g.IsAlive(s) ==> s == SeerSeat(g).value
    ensures !r.NoWolfTarget? ==>
              killPick < |WolfTargets(g)| && r.g.nightKilled == Some(WolfTargets(g)[killPick])
    ensures r.SeerFailed? ==> r.g == g.(nightKilled := r.g.nightKilled)
    ensures r.WitchPrompt? ==> r.g.nightKilled == Some(r.target)
    ensures r.WitchPrompt? ==> (r.g.seerResult.None? <==> SeerSeat(g).None?)
    ensures r.WitchPrompt? && r.g.seerResult.Some? ==>
              && g.IsAlive(r.g.seerResult.value.0)
              && r.g.seerResult.value.0 != SeerSeat(g).value
              && r.g.seerResult.value.1 == g.RoleOf(r.g.seerResult.value.0)
    ensures r.g == g.(nightKilled := r.g.nightKilled, seerResult := r.g.seerResult)
  {
    var targets := WolfTargets(g);
    if targets == [] then
      assert forall s: Seat :: !(g.IsAlive(s) && g.RoleOf(s) != Wolf) by {
        forall s: Seat ensures !(g.IsAlive(s) && g.RoleOf(s) != Wolf) {
          assert s !in targets;
        }
      }
      NoWolfTarget(g)
    else
      assert targets[0] in targets;
      var killed := targets[killPick];
      assert killed in targets;
      var afterKill := g.(nightKilled := Some(killed));
      match SeerCheck(g, seerPick)
      case None => SeerFailed(afterKill)
      case Some(result) => WitchPrompt(afterKill.(seerResult := result), killed)
  }

  /** The recorded Seer result is the Seer's check with the night's own pick. */
  lemma NightSeerResultFollowsPick(g: Game, killPick: nat, seerPick: nat)
    requires ValidPicks(g, killPick, seerPick)
    ensures NightPhase(g, killPick, seerPick).WitchPrompt? ==>
              SeerCheck(g, seerPick) == Some(NightPhase(g, killPick, seerPick).g.seerResult)
  {
  }
}
