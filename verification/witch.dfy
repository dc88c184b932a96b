/** The Witch's two decisions, each backed by a one-shot potion. */
module Witch {
  import opened Wrappers
  import opened Seats
  import opened GameState

  /** `handle_witch_heal_decision`: a heal request with a healing potion left
      consumes it and saves the night's kill target; any other request records
      that nobody was saved. */
  function HealDecision(g: Game, heal: bool): (r: Game)
    ensures r.potions.poison == g.potions.poison
    ensures r.potions.healing <= g.potions.healing
    ensures r.nightSaved.Some? ==> r.nightSaved == g.nightKilled
    ensures heal && g.potions.healing > 0 ==>
              r.potions.healing == g.potions.healing - 1 && r.nightSaved == g.nightKilled
    ensures !heal || g.potions.healing == 0 ==> r.potions == g.potions && r.nightSaved == None
    ensures r == g.(potions := r.potions, nightSaved := r.nightSaved)
  {
    if heal && g.potions.healing > 0 then
      g.(potions := g.potions.(healing := g.potions.healing - 1), nightSaved := g.nightKilled)
    else
      g.(nightSaved := None)
  }

  /** The poison prompt's target list: alive seats other than the Witch's
      seat 6, ascending. */
  function PoisonPrompt(g: Game): (r: seq<Seat>)
    ensures forall s: Seat :: s in r <==> g.IsAlive(s) && s != HumanSeat
    ensures Ascending(r)
  {
    Filter(AliveSeats(g), (s: Seat) => s != HumanSeat)
  }

  /** `handle_witch_poison_decision`: a chosen seat with a poison potion left
      consumes it and records the seat; otherwise nobody is poisoned. The
      chosen seat is not checked against the prompt list. */
  function PoisonDecision(g: Game, poisoned: Option<Seat>): (r: Game)
    ensures r.potions.healing == g.potions.healing
    ensures r.potions.poison <= g.potions.poison
    ensures r.nightPoisoned.Some? ==> r.nightPoisoned == poisoned
    ensures poisoned.Some? && g.potions.poison > 0 ==>
              r.potions.poison == g.potions.poison - 1 && r.nightPoisoned == poisoned
    ensures poisoned.None? || g.potions.poison == 0 ==>
              r.potions == g.potions && r.nightPoisoned == None
    ensures r == g.(potions := r.potions, nightPoisoned := r.nightPoisoned)
  {
    if poisoned.Some? && g.potions.poison > 0 then
      g.(potions := g.potions.(poison := g.potions.poison - 1), nightPoisoned := poisoned)
    else
      g.(nightPoisoned := None)
  }

  /** A decision event from the Witch's seat. */
  datatype WitchEvent = HealEvent(heal: bool) | PoisonEvent(poisoned: Option<Seat>)

  function WitchStep(g: Game, e: WitchEvent): Game {
    match e
    case HealEvent(heal) => HealDecision(g, heal)
    case PoisonEvent(poisoned) => PoisonDecision(g, poisoned)
  }

  /** The state after a run of Witch decisions. */
  function ApplyWitch(g: Game, es: seq<WitchEvent>): Game
    decreases |es|
  {
    if es == [] then g else ApplyWitch(WitchStep(g, es[0]), es[1..])
  }

  /** Whether an event takes effect in state `g`, consuming a potion. */
  predicate HealTakesEffect(g: Game, e: WitchEvent) {
    e.HealEvent? && e.heal && g.potions.healing > 0
  }

  predicate PoisonTakesEffect(g: Game, e: WitchEvent) {
    e.PoisonEvent? && e.poisoned.Some? && g.potions.poison > 0
  }

  /** How many events of a run took effect as a heal / as a poisoning. */
  function HealsTaken(g: Game, es: seq<WitchEvent>): nat
    decreases |es|
  {
    if es == [] then 0
    else (if HealTakesEffect(g, es[0]) then 1 else 0) + HealsTaken(WitchStep(g, es[0]), es[1..])
  }

  function PoisonsTaken(g: Game, es: seq<WitchEvent>): nat
    decreases |es|
  {
    if es == [] then 0
    else (if PoisonTakesEffect(g, es[0]) then 1 else 0) + PoisonsTaken(WitchStep(g, es[0]), es[1..])
  }

  /** Every effective heal and poisoning is paid for by one potion: the
      potions left plus the effects taken equal the potions at the start. */
  lemma {:induction false} PotionsAccountForEffects(g: Game, es: seq<WitchEvent>)
    ensures HealsTaken(g, es) + ApplyWitch(g, es).potions.healing == g.potions.healing
    ensures PoisonsTaken(g, es) + ApplyWitch(g, es).potions.poison == g.potions.poison
    decreases |es|
  {
    if es != [] {
      PotionsAccountForEffects(WitchStep(g, es[0]), es[1..]);
    }
  }

  /** From full potions, however many decisions are submitted, each potion
      takes effect at most once. */
  lemma EachPotionAtMostOnce(g: Game, es: seq<WitchEvent>)
    requires g.potions == Potions(1, 1)
    ensures HealsTaken(g, es) <= 1 && PoisonsTaken(g, es) <= 1
  {
    PotionsAccountForEffects(g, es);
  }
}
