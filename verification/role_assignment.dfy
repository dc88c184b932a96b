/** Starting a match: dealing the roles and resetting the game-state record. */
module RoleAssignment {
  import opened Wrappers
  import opened Seats
  import opened GameState

  /** The list with its first entry equal to `x` removed; the server's
      `list.remove`, which raises when `x` is absent. */
  function RemoveFirst<T(==)>(xs: seq<T>, x: T): (r: seq<T>)
    requires x in xs
    ensures |r| == |xs| - 1
    ensures multiset(r) == multiset(xs) - multiset{x}
  {
    if xs[0] == x then
      assert xs == [xs[0]] + xs[1..];
      xs[1..]
    else
      assert xs == [xs[0]] + xs[1..];
      [xs[0]] + RemoveFirst(xs[1..], x)
  }

  /** The eight roles that are shuffled over the seats other than seat 6. */
  const RemainingRoles: seq<Role> := [Villager, Villager, Villager, Hunter, Seer, Wolf, Wolf, Wolf]

  /** They are the pool with its Witch removed. */
  lemma RemainingRolesArePoolWithoutWitch()
    ensures RemoveFirst(RolesList, Witch) == RemainingRoles
    ensures multiset(RemainingRoles) + multiset{Witch} == multiset(RolesList)
  {
    assert RolesList == RemainingRoles + [Witch];
    RemoveLastOnly(RemainingRoles, Witch);
  }

  lemma RemoveLastOnly<T>(xs: seq<T>, x: T)
    requires x !in xs
    ensures RemoveFirst(xs + [x], x) == xs
  {
    if xs != [] {
      assert (xs + [x])[1..] == xs[1..] + [x];
      RemoveLastOnly(xs[1..], x);
    }
  }

  /** `shuffled` is some order of the eight remaining roles: any outcome of
      the server's shuffle. */
  predicate IsShuffleOfRemaining(shuffled: seq<Role>) {
    multiset(shuffled) == multiset(RemainingRoles)
  }

  /** Deals the roles: seat 6 is the Witch and the shuffled roles fill the
      other seats in seat order. */
  method AssignRoles(shuffled: seq<Role>) returns (roles: Roles)
    requires IsShuffleOfRemaining(shuffled)
    ensures roles[HumanSeat - 1] == Witch
    ensures roles[..HumanSeat - 1] == shuffled[..HumanSeat - 1]
    ensures roles[HumanSeat..] == shuffled[HumanSeat - 1..]
    ensures multiset(roles) == multiset(RolesList)
    ensures multiset(roles)[Wolf] == 3 && multiset(roles)[Villager] == 3
    ensures multiset(roles)[Hunter] == 1 && multiset(roles)[Seer] == 1 && multiset(roles)[Witch] == 1
  {
    assert |shuffled| == |multiset(shuffled)| == 8;
    var layout := shuffled[..5] + [Witch] + shuffled[5..];
    var slots: seq<Option<Role>> := [None, None, None, None, None, None, None, None, None];
    slots := slots[5 := Some(Witch)];
    var idx := 0;
    for i := 0 to 9
      invariant |slots| == 9
      invariant idx == if i <= 5 then i else i - 1
      invariant forall j :: 0 <= j < i ==> slots[j] == Some(layout[j])
      invariant forall j :: i <= j < 9 ==> slots[j] == (if j == 5 then Some(Witch) else None)
    {
      if slots[i].None? {
        slots := slots[i := Some(shuffled[idx])];
        idx := idx + 1;
      }
    }
    roles := seq(9, j requires 0 <= j < 9 => slots[j].value);
    assert roles == layout;
    LayoutIsPermutation(shuffled);
    RolePoolCounts();
  }

  lemma LayoutIsPermutation(shuffled: seq<Role>)
    requires IsShuffleOfRemaining(shuffled)
    ensures |shuffled| == 8
    ensures multiset(shuffled[..5] + [Witch] + shuffled[5..]) == multiset(RolesList)
  {
    RemainingRolesArePoolWithoutWitch();
    assert |shuffled| == |multiset(shuffled)| == 8;
    InsertAddsToMultiset(shuffled, 5, Witch);
  }

  lemma InsertAddsToMultiset<T>(xs: seq<T>, i: nat, y: T)
    requires i <= |xs|
    ensures multiset(xs[..i] + [y] + xs[i..]) == multiset(xs) + multiset{y}
  {
    assert xs == xs[..i] + xs[i..];
  }

  /** `handle_start_game`: a fresh record for round 1 with the dealt roles,
      every seat alive, both potions full and nothing recorded. The speech
      cursor is not reset by the server and carries over from `prev`. */
  method StartGame(prev: Game, shuffled: seq<Role>) returns (g: Game)
    requires IsShuffleOfRemaining(shuffled)
    ensures g.RoleOf(HumanSeat) == Witch
    ensures g.roles[..HumanSeat - 1] == shuffled[..HumanSeat - 1]
    ensures g.roles[HumanSeat..] == shuffled[HumanSeat - 1..]
    ensures multiset(g.roles) == multiset(RolesList)
    ensures g.round == 1
    ensures forall s: Seat :: g.IsAlive(s)
    ensures g.potions == Potions(1, 1)
    ensures g.votes == []
    ensures g.nightKilled == None && g.nightSaved == None && g.nightPoisoned == None
    ensures g.seerResult == None && g.banished == None
    ensures g.speakers == prev.speakers && g.speakerIndex == prev.speakerIndex
  {
    var roles := AssignRoles(shuffled);
    var everyoneAlive: Statuses := seq(9, _ => Alive);
    g := Game(roles, 1, everyoneAlive,
              Potions(1, 1), [], None, None, None, None, None,
              prev.speakers, prev.speakerIndex);
  }
}
