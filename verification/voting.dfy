/** Voting: the vote table keyed by voter, its completion rule, and the
    banishment tally with the server's tie-breaking. */
module Voting {
  import opened Wrappers
  import opened Seats
  import opened GameState

  /** `run_voting_phase`: the table is cleared and the alive seats are
      offered as voters and targets. */
  datatype VotingPrompt = VotingPrompt(g: Game, choices: seq<Seat>)

  function StartVoting(g: Game): (r: VotingPrompt)
    ensures r.g.votes == []
    ensures r.g == g.(votes := [])
    ensures forall s: Seat :: s in r.choices <==> g.IsAlive(s)
    ensures Ascending(r.choices)
  {
    VotingPrompt(g.(votes := []), AliveSeats(g))
  }

  /** Whether `voter` has an entry in the vote table. */
  predicate HasVoted(votes: seq<Ballot>, voter: Seat) {
    exists i :: 0 <= i < |votes| && votes[i].voter == voter
  }

  /** The seats that have an entry in the vote table. */
  function Voters(votes: seq<Ballot>): set<Seat> {
    set i | 0 <= i < |votes| :: votes[i].voter
  }

  /** `game_state['votes'][voter] = target`: an existing entry keeps its place
      and takes the new target, a new voter is appended. */
  function RecordVote(votes: Ballots, voter: Seat, target: Seat): (r: seq<Ballot>)
    ensures |r| == if HasVoted(votes, voter) then |votes| else |votes| + 1
    ensures forall i :: 0 <= i < |votes| ==>
              r[i] == if votes[i].voter == voter then Ballot(voter, target) else votes[i]
    ensures !HasVoted(votes, voter) ==> r[|votes|] == Ballot(voter, target)
  {
    if votes == [] then
      [Ballot(voter, target)]
    else if votes[0].voter == voter then
      [Ballot(voter, target)] + votes[1..]
    else
      var rest := RecordVote(votes[1..], voter, target);
      assert HasVoted(votes, voter) <==> HasVoted(votes[1..], voter) by {
        if HasVoted(votes, voter) {
          var k :| 0 <= k < |votes| && votes[k].voter == voter;
          assert votes[1..][k - 1].voter == voter;
        }
        if HasVoted(votes[1..], voter) {
          var k :| 0 <= k < |votes[1..]| && votes[1..][k].voter == voter;
          assert votes[k + 1].voter == voter;
        }
      }
      [votes[0]] + rest
  }

  /** Recording a vote keeps the table keyed by voter and adds exactly the
      voter to its set of voters. */
  lemma {:induction false} RecordVoteKeepsTableKeyed(votes: Ballots, voter: Seat, target: Seat)
    ensures DistinctVoters(RecordVote(votes, voter, target))
    ensures Voters(RecordVote(votes, voter, target)) == Voters(votes) + {voter}
    ensures Ballot(voter, target) in RecordVote(votes, voter, target)
  {
    var b := Ballot(voter, target);
    var r := RecordVote(votes, voter, target);
    if votes == [] {
      assert r == [b] + [];
      VotersCons(b, []);
    } else {
      var tail: Ballots := votes[1..];
      assert votes == [votes[0]] + tail;
      VotersCons(votes[0], tail);
      DistinctCons(votes[0], tail);
      if votes[0].voter == voter {
        assert r == [b] + tail;
        VotersCons(b, tail);
        DistinctCons(b, tail);
      } else {
        var rest := RecordVote(tail, voter, target);
        RecordVoteKeepsTableKeyed(tail, voter, target);
        assert r == [votes[0]] + rest;
        VotersCons(votes[0], rest);
        DistinctCons(votes[0], rest);
      }
    }
  }

  /** The voters of a table with one more entry in front. */
  lemma VotersCons(b: Ballot, rest: seq<Ballot>)
    ensures Voters([b] + rest) == {b.voter} + Voters(rest)
  {
    var xs := [b] + rest;
    forall s ensures s in Voters(xs) <==> s == b.voter || s in Voters(rest) {
      if s in Voters(xs) {
        var i :| 0 <= i < |xs| && xs[i].voter == s;
        if i > 0 { assert rest[i - 1].voter == s; }
      }
      if s in Voters(rest) {
        var i :| 0 <= i < |rest| && rest[i].voter == s;
        assert xs[i + 1].voter == s;
      }
      if s == b.voter { assert xs[0].voter == s; }
    }
  }

  /** A table with one more entry in front is keyed by voter exactly when
      the rest is and the new voter is not among its voters. */
  lemma DistinctCons(b: Ballot, rest: seq<Ballot>)
    ensures DistinctVoters([b] + rest) <==> DistinctVoters(rest) && b.voter !in Voters(rest)
  {
    var xs := [b] + rest;
    if DistinctVoters(xs) {
      forall i, j | 0 <= i < j < |rest| ensures rest[i].voter != rest[j].voter {
        assert xs[i + 1] == rest[i] && xs[j + 1] == rest[j];
      }
      forall i | 0 <= i < |rest| ensures rest[i].voter != b.voter {
        assert xs[0] == b && xs[i + 1] == rest[i];
        assert xs[0].voter != xs[i + 1].voter;
      }
    }
    if DistinctVoters(rest) && b.voter !in Voters(rest) {
      forall i, j | 0 <= i < j < |xs| ensures xs[i].voter != xs[j].voter {
        if i == 0 {
          assert xs[j] == rest[j - 1];
        } else {
          assert xs[i] == rest[i - 1] && xs[j] == rest[j - 1];
        }
      }
    }
  }

  /** A repeated vote from the same voter overwrites the first: the table is
      as if only the second had been cast. */
  lemma {:induction false} RepeatedVoteOverwrites(votes: Ballots, once: Ballots, voter: Seat, first: Seat, second: Seat)
    requires once == RecordVote(votes, voter, first)
    ensures RecordVote(once, voter, second) == RecordVote(votes, voter, second)
  {
    if votes != [] && votes[0].voter != voter {
      var tail: Ballots := votes[1..];
      RecordVoteKeepsTableKeyed(tail, voter, first);
      var tailOnce: Ballots := RecordVote(tail, voter, first);
      assert once == [votes[0]] + tailOnce;
      assert once[1..] == tailOnce;
      RepeatedVoteOverwrites(tail, tailOnce, voter, first, second);
    }
  }

  /** Keyed by voter, the table has one entry per distinct voter. */
  lemma {:induction false} VotersCount(votes: Ballots)
    ensures |Voters(votes)| == |votes|
  {
    if votes != [] {
      var tail: Ballots := votes[1..];
      VotersCount(tail);
      assert Voters(votes) == {votes[0].voter} + Voters(tail) by {
        forall s ensures s in Voters(votes) <==> s == votes[0].voter || s in Voters(tail) {
          if s in Voters(votes) {
            var i :| 0 <= i < |votes| && votes[i].voter == s;
            if i > 0 { assert tail[i - 1].voter == s; }
          }
          if s in Voters(tail) {
            var i :| 0 <= i < |tail| && tail[i].voter == s;
            assert votes[i + 1].voter == s;
          }
        }
      }
      assert votes[0].voter !in Voters(tail) by {
        forall i | 0 <= i < |tail| ensures tail[i].voter != votes[0].voter {
          assert tail[i] == votes[i + 1];
        }
      }
    }
  }

  /** `handle_player_vote`: the vote is recorded, and the vote is complete
      once there are as many distinct voters as alive seats. Neither the
      voter nor the target is checked against the alive seats. */
  datatype VoteCast = VoteCast(g: Game, complete: bool)

  function CastVote(g: Game, voter: Seat, target: Seat): (r: VoteCast)
    ensures r.g.votes == RecordVote(g.votes, voter, target)
    ensures Ballot(voter, target) in r.g.votes
    ensures Voters(r.g.votes) == Voters(g.votes) + {voter}
    ensures r.complete <==> |Voters(r.g.votes)| == |AliveSet(g)|
    ensures r.g == g.(votes := r.g.votes)
  {
    RecordVoteKeepsTableKeyed(g.votes, voter, target);
    var votes: Ballots := RecordVote(g.votes, voter, target);
    VotersCount(votes);
    AliveCount(g);
    VoteCast(g.(votes := votes), |votes| == |AliveSeats(g)|)
  }

  /** The targets of the table in voter insertion order: `votes.values()`. */
  function Targets(votes: seq<Ballot>): (ts: seq<Seat>)
    ensures |ts| == |votes|
    ensures forall i :: 0 <= i < |votes| ==> ts[i] == votes[i].target
  {
    seq(|votes|, i requires 0 <= i < |votes| => votes[i].target)
  }

  /** Position of the first entry equal to `t`. */
  function FirstIndex(ts: seq<Seat>, t: Seat): (k: nat)
    requires t in ts
    ensures k < |ts| && ts[k] == t
    ensures forall q :: 0 <= q < k ==> ts[q] != t
  {
    if ts[0] == t then 0 else 1 + FirstIndex(ts[1..], t)
  }

  predicate Distinct(xs: seq<Seat>) {
    forall i, j :: 0 <= i < j < |xs| ==> xs[i] != xs[j]
  }

  /** The targets without repeats, each at the place of its first vote: the
      key order of the server's `Counter`. */
  function FirstVotedOrder(ts: seq<Seat>): (r: seq<Seat>)
    ensures forall t :: t in r <==> t in ts
    ensures Distinct(r)
    ensures r == [] <==> ts == []
    decreases |ts|
  {
    if ts == [] then []
    else
      var prefix := ts[..|ts| - 1];
      var d := FirstVotedOrder(prefix);
      var x := ts[|ts| - 1];
      assert ts == prefix + [x];
      if x in d then d else d + [x]
  }

  lemma FirstIndexOfPrefix(p: seq<Seat>, x: Seat, y: Seat)
    requires y in p
    ensures y in p + [x]
    ensures FirstIndex(p + [x], y) == FirstIndex(p, y)
  {
    var b := FirstIndex(p, y);
    assert (p + [x])[b] == y;
    assert forall q :: 0 <= q < b ==> (p + [x])[q] == p[q];
  }

  /** Earlier in the Counter's key order means voted for earlier. */
  lemma {:induction false} FirstVotedOrderIsByFirstVote(ts: seq<Seat>, i: nat, j: nat)
    requires i < j < |FirstVotedOrder(ts)|
    ensures FirstVotedOrder(ts)[i] in ts && FirstVotedOrder(ts)[j] in ts
    ensures FirstIndex(ts, FirstVotedOrder(ts)[i]) < FirstIndex(ts, FirstVotedOrder(ts)[j])
    decreases |ts|
  {
    var r := FirstVotedOrder(ts);
    assert r[i] in r && r[j] in r;
    var p := ts[..|ts| - 1];
    var x := ts[|ts| - 1];
    assert ts == p + [x];
    var d := FirstVotedOrder(p);
    if j < |d| {
      assert r[i] == d[i] && r[j] == d[j];
      assert d[i] in d && d[j] in d;
      FirstVotedOrderIsByFirstVote(p, i, j);
      FirstIndexOfPrefix(p, x, d[i]);
      FirstIndexOfPrefix(p, x, d[j]);
    } else {
      assert x !in d && r == d + [x] && j == |d|;
      assert r[i] == d[i] && d[i] in d;
      FirstIndexOfPrefix(p, x, d[i]);
      assert x !in p;
      assert forall q :: 0 <= q < |p| ==> ts[q] == p[q];
    }
  }

  /** The banished seat of a tally: a most-voted target, and among the
      most-voted targets the one whose first vote came first. */
  predicate IsTallyWinner(ts: seq<Seat>, w: Seat) {
    && w in ts
    && (forall t :: t in ts ==> multiset(ts)[t] <= multiset(ts)[w])
    && (forall t :: t in ts && multiset(ts)[t] == multiset(ts)[w] ==> FirstIndex(ts, w) <= FirstIndex(ts, t))
  }

  /** A tally has at most one winner. */
  lemma TallyWinnerIsUnique(ts: seq<Seat>, w1: Seat, w2: Seat)
    requires IsTallyWinner(ts, w1) && IsTallyWinner(ts, w2)
    ensures w1 == w2
  {
  }

  /** The server's `Counter`: targets in first-vote order and their counts. */
  datatype Counter = Counter(order: seq<Seat>, counts: map<Seat, nat>)

  /** `c` is the Counter of the targets `ts`. */
  ghost predicate CountsOf(c: Counter, ts: seq<Seat>) {
    && c.order == FirstVotedOrder(ts)
    && (forall t :: t in c.counts <==> t in ts)
    && (forall t :: t in c.counts ==> c.counts[t] == multiset(ts)[t])
  }

  /** Counting one more vote. */
  function AddVote(c: Counter, t: Seat): Counter {
    if t in c.counts then Counter(c.order, c.counts[t := c.counts[t] + 1])
    else Counter(c.order + [t], c.counts[t := 1])
  }

  lemma AddVoteCounts(c: Counter, ts: seq<Seat>, i: nat)
    requires i < |ts| && CountsOf(c, ts[..i])
    ensures CountsOf(AddVote(c, ts[i]), ts[..i + 1])
  {
    assert ts[..i + 1] == ts[..i] + [ts[i]];
  }

  /** `Counter(votes.values())`. */
  method CountVotes(ts: seq<Seat>) returns (c: Counter)
    ensures c.order == FirstVotedOrder(ts)
    ensures forall t :: t in c.counts <==> t in ts
    ensures forall t :: t in c.counts ==> c.counts[t] == multiset(ts)[t]
  {
    c := Counter([], map[]);
    for i := 0 to |ts|
      invariant CountsOf(c, ts[..i])
    {
      AddVoteCounts(c, ts, i);
      c := AddVote(c, ts[i]);
    }
    assert ts[..|ts|] == ts;
  }

  /** `most_common(1)[0]`: the first key with the largest count. */
  method MostCommon(c: Counter) returns (k: nat)
    requires c.order != []
    requires forall t :: t in c.order ==> t in c.counts
    ensures k < |c.order|
    ensures forall j :: 0 <= j < |c.order| ==> c.counts[c.order[j]] <= c.counts[c.order[k]]
    ensures forall j :: 0 <= j < k ==> c.counts[c.order[j]] < c.counts[c.order[k]]
  {
    k := 0;
    for i := 1 to |c.order|
      invariant k < i
      invariant forall j :: 0 <= j < i ==> c.counts[c.order[j]] <= c.counts[c.order[k]]
      invariant forall j :: 0 <= j < k ==> c.counts[c.order[j]] < c.counts[c.order[k]]
    {
      if c.counts[c.order[i]] > c.counts[c.order[k]] {
        k := i;
      }
    }
  }

  /** How voting ends: nobody banished on an empty table, else one seat. */
  datatype VotingResult = NoneBanished(g: Game) | BanishedSeat(g: Game, seat: Seat)

  /** The key `most_common` picks from a Counter of `ts` meets the
      banishment rule. */
  lemma MostCommonKeyWins(ts: seq<Seat>, c: Counter, k: nat)
    requires c.order == FirstVotedOrder(ts)
    requires forall t :: t in c.counts <==> t in ts
    requires forall t :: t in c.counts ==> c.counts[t] == multiset(ts)[t]
    requires k < |c.order|
    requires forall j :: 0 <= j < |c.order| ==> c.counts[c.order[j]] <= c.counts[c.order[k]]
    requires forall j :: 0 <= j < k ==> c.counts[c.order[j]] < c.counts[c.order[k]]
    ensures IsTallyWinner(ts, c.order[k])
  {
    var w := c.order[k];
    assert w in c.order;
    forall t | t in ts ensures multiset(ts)[t] <= multiset(ts)[w] {
      assert t in c.order;
      var j :| 0 <= j < |c.order| && c.order[j] == t;
    }
    forall t | t in ts && multiset(ts)[t] == multiset(ts)[w]
      ensures FirstIndex(ts, w) <= FirstIndex(ts, t)
    {
      assert t in c.order;
      var j :| 0 <= j < |c.order| && c.order[j] == t;
      if j > k {
        FirstVotedOrderIsByFirstVote(ts, k, j);
      }
    }
  }

  /** Marking the banished seat: it alone changes status, to banished, and
      is recorded as the round's banished seat. */
  function Banish(g: Game, w: Seat): (r: Game)
    ensures r.StatusOf(w) == Banished && r.banished == Some(w)
    ensures forall s: Seat :: s != w ==> r.StatusOf(s) == g.StatusOf(s)
    ensures r == g.(status := r.status, banished := Some(w))
    ensures NoResurrection(g, r)
  {
    g.(status := g.status[w - 1 := Banished], banished := Some(w))
  }

  /** `finish_voting_phase`. */
  method FinishVoting(g: Game) returns (r: VotingResult)
    ensures r.NoneBanished? <==> g.votes == []
    ensures r.NoneBanished? ==> r.g == g
    ensures r.BanishedSeat? ==> IsTallyWinner(Targets(g.votes), r.seat)
    ensures r.BanishedSeat? ==> r.g.StatusOf(r.seat) == Banished && r.g.banished == Some(r.seat)
    ensures r.BanishedSeat? ==> forall s: Seat :: s != r.seat ==> r.g.StatusOf(s) == g.StatusOf(s)
    ensures r.g == g.(status := r.g.status, banished := r.g.banished)
    ensures NoResurrection(g, r.g)
  {
    var ts := Targets(g.votes);
    var c := CountVotes(ts);
    if c.order == [] {
      return NoneBanished(g);
    }
    assert c.order[0] in ts;
    var k := MostCommon(c);
    var w := c.order[k];
    MostCommonKeyWins(ts, c, k);
    r := BanishedSeat(Banish(g, w), w);
  }
}
