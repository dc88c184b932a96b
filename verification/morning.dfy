/** The morning: the night's kill, heal and poison are applied to the seats. */
module Morning {
  import opened Wrappers
  import opened Seats
  import opened GameState

  /** Why a seat died in the night. */
  datatype Cause = Killed | Poisoned

  /** The resolved state, the death list in announcement order (a seat both
      killed and poisoned is listed twice) and the cause table sent to the
      client (where a later entry for the same seat overwrites). */
  datatype MorningReport = MorningReport(g: Game, deaths: seq<Seat>, causes: map<Seat, Cause>)
  {
    predicate Peaceful() { deaths == [] }
  }

  /** `s` is the Wolves' victim and was not saved by the Witch. */
  predicate KilledUnsaved(g: Game, s: Seat) {
    g.nightKilled == Some(s) && g.nightSaved != Some(s)
  }

  /** `s` dies this morning by the kill or by the poison. */
  predicate DiesAtDawn(g: Game, s: Seat) {
    KilledUnsaved(g, s) || g.nightPoisoned == Some(s)
  }

  /** `run_morning_phase`. */
  function MorningResolution(g: Game): (r: MorningReport)
    ensures forall s: Seat :: DiesAtDawn(g, s) ==> r.g.StatusOf(s) == Dead
    ensures forall s: Seat :: !DiesAtDawn(g, s) ==> r.g.StatusOf(s) == g.StatusOf(s)
    ensures forall s: Seat :: s in r.deaths <==> DiesAtDawn(g, s)
    ensures forall s: Seat :: s in r.causes <==> DiesAtDawn(g, s)
    ensures forall s: Seat :: g.nightPoisoned == Some(s) ==> s in r.causes && r.causes[s] == Poisoned
    ensures forall s: Seat :: KilledUnsaved(g, s) && g.nightPoisoned != Some(s) ==>
              s in r.causes && r.causes[s] == Killed
    ensures |r.deaths| == (if g.nightKilled.Some? && g.nightKilled != g.nightSaved then 1 else 0)
                        + (if g.nightPoisoned.Some? then 1 else 0)
    ensures forall k: Seat :: KilledUnsaved(g, k) ==> |r.deaths| > 0 && r.deaths[0] == k
    ensures g.nightPoisoned.Some? ==> |r.deaths| > 0 && r.deaths[|r.deaths| - 1] == g.nightPoisoned.value
    ensures r.Peaceful() <==> forall s: Seat :: !DiesAtDawn(g, s)
    ensures r.g == g.(status := r.g.status)
    ensures NoResurrection(g, r.g)
  {
    ApplyPoison(g, ApplyKill(g))
  }

  /** The first half of the morning: the unsaved kill dies. */
  function ApplyKill(g: Game): (r: MorningReport)
    ensures forall s: Seat :: r.g.StatusOf(s) == if KilledUnsaved(g, s) then Dead else g.StatusOf(s)
    ensures forall s: Seat :: s in r.deaths <==> KilledUnsaved(g, s)
    ensures forall s: Seat :: s in r.causes <==> KilledUnsaved(g, s)
    ensures forall s: Seat :: s in r.causes ==> r.causes[s] == Killed
    ensures |r.deaths| == if g.nightKilled.Some? && g.nightKilled != g.nightSaved then 1 else 0
    ensures forall k: Seat :: KilledUnsaved(g, k) ==> r.deaths == [k]
    ensures r.g == g.(status := r.g.status)
  {
    if g.nightKilled.Some? && g.nightKilled != g.nightSaved then
      var k := g.nightKilled.value;
      MorningReport(g.(status := g.status[k - 1 := Dead]), [k], map[k := Killed])
    else
      MorningReport(g, [], map[])
  }

  /** The second half of the morning: the poisoned seat dies after the kill
      and is listed after it; its cause overwrites an earlier one. */
  function ApplyPoison(g: Game, m: MorningReport): (r: MorningReport)
    ensures forall s: Seat :: r.g.StatusOf(s) == if g.nightPoisoned == Some(s) then Dead else m.g.StatusOf(s)
    ensures forall s: Seat :: s in r.deaths <==> s in m.deaths || g.nightPoisoned == Some(s)
    ensures forall s: Seat :: s in r.causes <==> s in m.causes || g.nightPoisoned == Some(s)
    ensures forall s: Seat :: s in r.causes ==>
              r.causes[s] == if g.nightPoisoned == Some(s) then Poisoned else m.causes[s]
    ensures |r.deaths| == |m.deaths| + if g.nightPoisoned.Some? then 1 else 0
    ensures forall j :: 0 <= j < |m.deaths| ==> r.deaths[j] == m.deaths[j]
    ensures g.nightPoisoned.Some? ==> r.deaths[|r.deaths| - 1] == g.nightPoisoned.value
    ensures r.g == m.g.(status := r.g.status)
  {
    if g.nightPoisoned.Some? then
      var p := g.nightPoisoned.value;
      MorningReport(m.g.(status := m.g.status[p - 1 := Dead]), m.deaths + [p], m.causes[p := Poisoned])
    else
      m
  }
}
