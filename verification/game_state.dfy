/** The single game-state record the server keeps for the one running match:
    roles, seat statuses, the Witch's potions, the vote table, the night's
    records, the round counter and the day-speech cursor. */
module GameState {
  import opened Wrappers
  import opened Seats

  /** The canonical role pool, in the server's order. */
  const RolesList: seq<Role> :=
    [Villager, Villager, Villager, Hunter, Seer, Wolf, Wolf, Wolf, Witch]

  /** The pool holds three Wolves, three Villagers and one each of Hunter,
      Seer and Witch. */
  lemma RolePoolCounts()
    ensures multiset(RolesList)[Wolf] == 3 && multiset(RolesList)[Villager] == 3
    ensures multiset(RolesList)[Hunter] == 1 && multiset(RolesList)[Seer] == 1
    ensures multiset(RolesList)[Witch] == 1
  {
  }

  /** One role per seat; entry i is the role of seat i + 1. */
  type Roles = r: seq<Role> | |r| == 9
    witness [Villager, Villager, Villager, Hunter, Seer, Wolf, Wolf, Wolf, Witch]

  /** One status per seat; entry i is the status of seat i + 1. */
  type Statuses = s: seq<Status> | |s| == 9
    witness [Alive, Alive, Alive, Alive, Alive, Alive, Alive, Alive, Alive]

  /** The Witch's remaining potions. */
  datatype Potions = Potions(healing: nat, poison: nat)

  /** One entry of the vote table: `voter` currently votes for `target`. */
  datatype Ballot = Ballot(voter: Seat, target: Seat)

  /** The vote table is keyed by voter: no voter has two entries. */
  predicate DistinctVoters(votes: seq<Ballot>) {
    forall i, j :: 0 <= i < j < |votes| ==> votes[i].voter != votes[j].voter
  }

  /** The vote table in insertion order of its voters. */
  type Ballots = v: seq<Ballot> | DistinctVoters(v) witness []

  /** The game-state record. */
  datatype Game = Game(
    roles: Roles,
    round: int,
    status: Statuses,
    potions: Potions,
    votes: Ballots,
    nightKilled: Option<Seat>,
    nightSaved: Option<Seat>,
    nightPoisoned: Option<Seat>,
    seerResult: Option<(Seat, Role)>,
    banished: Option<Seat>,
    speakers: seq<Seat>,
    speakerIndex: nat)
  {
    function RoleOf(s: Seat): Role { roles[s - 1] }

    function StatusOf(s: Seat): Status { status[s - 1] }

    predicate IsAlive(s: Seat) { status[s - 1] == Alive }
  }

  /** The seats whose status is alive, in ascending seat order. */
  function AliveSeats(g: Game): (r: seq<Seat>)
    ensures forall s: Seat :: s in r <==> g.IsAlive(s)
    ensures Ascending(r)
  {
    AllSeatsListsEverySeat();
    Filter(AllSeats, (s: Seat) => g.IsAlive(s))
  }

  /** The set of alive seats. */
  function AliveSet(g: Game): set<Seat> {
    set s: Seat | g.IsAlive(s)
  }

  /** The alive list names each alive seat once. */
  lemma AliveCount(g: Game)
    ensures |AliveSeats(g)| == |AliveSet(g)|
  {
    var xs := AliveSeats(g);
    AscendingCardinality(xs);
    assert (set s: Seat | s in xs) == AliveSet(g);
  }

  lemma {:induction false} AscendingCardinality(xs: seq<Seat>)
    requires Ascending(xs)
    ensures |set s: Seat | s in xs| == |xs|
  {
    if xs == [] {
      assert (set s: Seat | s in xs) == {};
    } else {
      var tail := xs[1..];
      AscendingCardinality(tail);
      assert (set s: Seat | s in xs) == (set s: Seat | s in tail) + {xs[0]};
      assert xs[0] !in tail by {
        forall k | 0 <= k < |tail| ensures tail[k] != xs[0] {
          assert tail[k] == xs[k + 1];
        }
      }
    }
  }

  /** Seats alive after a step were alive before it: no step resurrects. */
  predicate NoResurrection(before: Game, after: Game) {
    forall s: Seat :: after.IsAlive(s) ==> before.IsAlive(s)
  }

  /** Number of entries equal to `x`. */
  function Occurrences<T(==)>(xs: seq<T>, x: T): nat {
    if xs == [] then 0
    else (if xs[0] == x then 1 else 0) + Occurrences(xs[1..], x)
  }

  /** The roles of the listed seats, in list order. */
  function RolesOf(g: Game, xs: seq<Seat>): (r: seq<Role>)
    ensures |r| == |xs|
    ensures forall i :: 0 <= i < |xs| ==> r[i] == g.RoleOf(xs[i])
  {
    if xs == [] then [] else [g.RoleOf(xs[0])] + RolesOf(g, xs[1..])
  }

  /** The listed seats that hold `role`. */
  function SeatsWithRole(g: Game, xs: seq<Seat>, role: Role): set<Seat> {
    set s: Seat | s in xs && g.RoleOf(s) == role
  }

  lemma SeatsWithRoleCons(g: Game, xs: seq<Seat>, role: Role)
    requires xs != []
    ensures SeatsWithRole(g, xs, role)
         == SeatsWithRole(g, xs[1..], role) + (if g.RoleOf(xs[0]) == role then {xs[0]} else {})
  {
  }

  /** Counting a role over the roles of a strictly increasing seat list
      counts the set of listed seats that hold that role. */
  lemma {:induction false} OccurrencesOfRole(g: Game, xs: seq<Seat>, role: Role)
    requires Ascending(xs)
    ensures Occurrences(RolesOf(g, xs), role) == |SeatsWithRole(g, xs, role)|
  {
    if xs == [] {
      assert SeatsWithRole(g, xs, role) == {};
    } else {
      var tail := xs[1..];
      assert Ascending(tail);
      OccurrencesOfRole(g, tail, role);
      assert RolesOf(g, xs)[1..] == RolesOf(g, tail);
      SeatsWithRoleCons(g, xs, role);
      assert xs[0] !in SeatsWithRole(g, tail, role) by {
        forall k | 0 <= k < |tail| ensures tail[k] != xs[0] {
          assert tail[k] == xs[k + 1];
        }
      }
    }
  }
}
