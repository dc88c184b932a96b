/** Whole-night outcomes: the Witch's decisions followed by the morning. */
module Scenarios {
  import opened Wrappers
  import opened Seats
  import opened GameState
  import opened Witch
  import opened Morning

  /** The morning after the Witch's two decisions. */
  function WitchThenMorning(g: Game, heal: bool, poisoned: Option<Seat>): MorningReport {
    MorningResolution(PoisonDecision(HealDecision(g, heal), poisoned))
  }

  /** A healed kill with no poisoning is a peaceful night: nobody's status
      changes although a kill was chosen. */
  lemma HealedKillIsPeaceful(g: Game)
    requires g.nightKilled.Some? && g.potions.healing > 0
    ensures WitchThenMorning(g, true, None).Peaceful()
    ensures WitchThenMorning(g, true, None).g.status == g.status
    ensures WitchThenMorning(g, true, None).g.potions.healing == g.potions.healing - 1
  {
  }

  /** An unsaved kill and a poisoning of another seat: both die, the victim
      announced first as killed, the other as poisoned, and the poison
      potion is spent. */
  lemma KillAndPoisonOfTwoSeats(g: Game, victim: Seat, target: Seat)
    requires g.nightKilled == Some(victim) && victim != target && g.potions.poison > 0
    ensures WitchThenMorning(g, false, Some(target)).deaths == [victim, target]
    ensures WitchThenMorning(g, false, Some(target)).causes == map[victim := Killed, target := Poisoned]
    ensures WitchThenMorning(g, false, Some(target)).g.StatusOf(victim) == Dead
    ensures WitchThenMorning(g, false, Some(target)).g.StatusOf(target) == Dead
    ensures WitchThenMorning(g, false, Some(target)).g.potions.poison == g.potions.poison - 1
  {
  }

  /** A seat that is both killed unsaved and poisoned is announced twice,
      recorded with the poison as its cause, and ends dead. */
  lemma KilledAndPoisonedSameSeat(g: Game, s: Seat)
    requires g.nightKilled == Some(s) && g.potions.poison > 0
    ensures WitchThenMorning(g, false, Some(s)).deaths == [s, s]
    ensures WitchThenMorning(g, false, Some(s)).causes == map[s := Poisoned]
    ensures WitchThenMorning(g, false, Some(s)).g.StatusOf(s) == Dead
  {
  }

  /** The poison decision does not check the Witch's own seat: poisoning
      seat 6 with a potion left kills the Witch, though the prompt never
      offers that seat. */
  lemma WitchCanPoisonOwnSeat(g: Game)
    requires g.potions.poison > 0
    ensures HumanSeat !in PoisonPrompt(g)
    ensures WitchThenMorning(g, false, Some(HumanSeat)).g.StatusOf(HumanSeat) == Dead
  {
  }
}
