/** Seats, roles and statuses of the nine-seat Werewolf table.

    The server names seat n "Player<n>" (n in 1..9) and recovers the seat from
    a name by stripping the "Player" prefix. The model works with seat numbers
    and keeps the naming only where text is produced. */
module Seats {
  import opened Wrappers

  /** A seat of the table; seat n is the player the server calls "Player<n>". */
  type Seat = s: int | 1 <= s <= 9 witness 1

  /** Seat 6 belongs to the human participant, who always plays the Witch. */
  const HumanSeat: Seat := 6

  /** The five roles of the game. */
  datatype Role = Villager | Hunter | Seer | Wolf | Witch

  /** A seat is alive, killed at night, or banished by vote. */
  datatype Status = Alive | Dead | Banished

  /** Every seat, in the order the server's status table lists them. */
  const AllSeats: seq<Seat> := [1, 2, 3, 4, 5, 6, 7, 8, 9]

  /** Strictly increasing seat lists; they are the server's "alive players" lists. */
  predicate Ascending(xs: seq<Seat>) {
    forall i, j :: 0 <= i < j < |xs| ==> xs[i] < xs[j]
  }

  /** The display name of a seat. */
  function PlayerName(s: Seat): (name: string)
    ensures |name| == 7 && name[..6] == "Player"
    ensures name[6] as int - '0' as int == s
  {
    "Player" + [('0' as int + s) as char]
  }

  /** The seat a name denotes, read back the way the server does
      (strip "Player", parse the number); None where that lookup would fail. */
  function SeatOfName(name: string): (r: Option<Seat>)
    ensures r.Some? ==> PlayerName(r.value) == name
    ensures (exists s: Seat :: PlayerName(s) == name) ==> r.Some?
  {
    if |name| == 7 && name[..6] == "Player" && '1' <= name[6] <= '9' then
      var s: Seat := name[6] as int - '0' as int;
      assert PlayerName(s) == name[..6] + [name[6]];
      assert name == name[..6] + [name[6]];
      Some(s)
    else
      None
  }

  /** Naming a seat and reading the name back gives the seat again. */
  lemma NameRoundTrip(s: Seat)
    ensures SeatOfName(PlayerName(s)) == Some(s)
  {
  }

  lemma AllSeatsListsEverySeat()
    ensures Ascending(AllSeats)
    ensures forall s: Seat :: s in AllSeats
  {
  }

  /** A filtered seat list: the elements of `xs` that `keep` accepts, in their
      original order. Every "alive players" comprehension of the server is one. */
  function Filter(xs: seq<Seat>, keep: Seat -> bool): (r: seq<Seat>)
    ensures forall s :: s in r <==> s in xs && keep(s)
    ensures Ascending(xs) ==> Ascending(r)
    ensures |r| <= |xs|
  {
    if xs == [] then []
    else
      var rest := Filter(xs[1..], keep);
      assert Ascending(xs) ==> forall k :: 0 <= k < |rest| ==> xs[0] < rest[k] by {
        if Ascending(xs) {
          forall k | 0 <= k < |rest| ensures xs[0] < rest[k] {
            assert rest[k] in xs[1..];
            var m :| 0 <= m < |xs[1..]| && xs[1..][m] == rest[k];
            assert xs[m + 1] == rest[k];
          }
        }
      }
      if keep(xs[0]) then [xs[0]] + rest else rest
  }
}
