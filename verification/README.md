# Werewolf rules engine — a Dafny model

This project models the rules engine of a server for a nine-seat Werewolf
game (`app.py`). Eight seats are played by language-model agents; seat 6 is
the human participant and is always the Witch. The server keeps one
game-state record and moves it through a fixed cycle of phases:

night (the Wolves' kill and the Seer's check) → the Witch's heal decision →
the Witch's poison decision → morning resolution → day speeches → voting →
banishment → win check → next round.

With the web handlers, threads, pacing delays and the language backend
removed, each phase is a pure step function over an immutable `Game` record
(`GameState.Game`). Seats are the integers 1..9; the server's name
`"Player<n>"` stands for seat n. Every random choice of the server is a
parameter of the step. The kill and the Seer's check take an index into the
legal-target list. The role deal takes any order of the eight shuffled
roles. So every property holds for every possible random outcome.

Modules, one per component:

- `Wrappers` (`wrappers.dfy`): the optional value used for the server's `None`-or-value fields.
- `Seats` (`seats.dfy`): seats, roles, statuses, player names, and the filtered seat lists behind every "alive players" comprehension.
- `GameState` (`game_state.dfy`): the game-state record, the role pool, the alive-seat list and the counting lemmas.
- `RoleAssignment` (`role_assignment.dfy`): the role deal and the reset at game start.
- `Night` (`night.dfy`): the Wolves' legal targets and kill, and the Seer's check.
- `Witch` (`witch.dfy`): the heal and poison decisions, the poison prompt, and the potion accounting over any run of decisions.
- `Morning` (`morning.dfy`): applying the night's outcome to the seats, and the casualty report.
- `DaySpeech` (`day_speech.dfy`): the frozen speaking order, its cursor, and the role-specific prompts.
- `Voting` (`voting.dfy`): the vote table keyed by voter, the completion rule, the `Counter` tally and the tie-breaking.
- `WinCheck` (`win_check.dfy`): the win condition and the next round.
- `Scenarios` (`scenarios.dfy`): whole-night outcomes from the Witch's decisions through the morning.

Where the code departs from the game's intended rules, the model follows the code:

- The poison decision accepts seat 6. Only the prompt list leaves the Witch's own seat out (`Scenarios.WitchCanPoisonOwnSeat`).
- A seat that is both killed unsaved and poisoned appears twice in the death list. Its entry in the cause table is overwritten to "poisoned" (`Scenarios.KilledAndPoisonedSameSeat`). It is not reported with two causes.
- A vote tie goes to the target whose first vote comes earliest in the table's voter insertion order. It does not go to the lowest seat. A repeated vote keeps the voter's original place in the table.
- A submitted human speech advances the speaking cursor whoever's turn it is (`DaySpeech.HumanSpoke`). The handler does not check that the cursor is at seat 6.
- Votes are not checked against the alive seats. A vote from any seat counts toward completion, and any seat can be named as a target.
- When voting ends with an empty table, the server goes straight to the next round without a win check.
- When the Wolves have no legal target, the night step returns before recording anything. The Witch is never prompted, so the match stalls there.

## Model

| member | source | states |
|---|---|---|
| Seats.SeatOfName | app.py:148 | Reading a seat back from its name gives a seat whose name is that name, and every name the server produces reads back to a seat |
| Seats.NameRoundTrip | app.py:98 | Naming seat n "Player<n>" and reading the name back gives n |
| Seats.Filter | app.py:132 | A list comprehension over seats keeps exactly the accepted seats, and an ascending input gives an ascending result. Every comprehension in the server runs over the ascending seat table, so this fixes the result and its order |
| GameState.RolePoolCounts | app.py:30 | The role pool holds three Wolves, three Villagers, one Hunter, one Seer and one Witch |
| GameState.AliveSeats | app.py:132 | The alive-player list holds exactly the alive seats, in ascending seat order |
| GameState.AliveCount | app.py:252-253 | The alive list's length is the number of alive seats |
| GameState.OccurrencesOfRole | app.py:277-278 | Counting a role among the roles of the alive list counts the alive seats that hold it |
| RoleAssignment.RemoveFirst | app.py:84 | Removing one entry shortens the pool by one and removes exactly one copy of it from the pool's multiset |
| RoleAssignment.RemainingRolesArePoolWithoutWitch | app.py:81-84 | The roles that are shuffled are the pool without its Witch |
| RoleAssignment.LayoutIsPermutation | app.py:82-90 | Placing the Witch at seat 6 among any order of the remaining roles gives a permutation of the pool |
| RoleAssignment.AssignRoles | app.py:81-90 | For every shuffle, seat 6 is the Witch and the other seats take the shuffled roles in seat order. The deal is a permutation of the pool: 3 Wolves, 3 Villagers, 1 Hunter, 1 Seer, 1 Witch |
| RoleAssignment.StartGame | app.py:85-105 | A new match deals the given shuffle: seat 6 is the Witch and the other seats take the shuffled roles in order. It starts at round 1 with every seat alive, both potions at 1, an empty vote table and no night records. The speech cursor is carried over unchanged |
| Night.AliveWolves | app.py:133 | The Wolf list holds exactly the alive Wolf seats |
| Night.WolfTargets | app.py:134 | The Wolves may target exactly the alive seats that are not Wolves |
| Night.SeerSeat | app.py:145 | The Seer seat is the lowest alive Seer seat; there is none exactly when no Seer is alive |
| Night.SeerTargets | app.py:147 | The Seer may check exactly the alive seats other than its own |
| Night.SeerCheck | app.py:145-151 | With no Seer alive there is no check. Otherwise the checked seat is the picked entry of the ascending list of checkable seats. It is alive, is not the Seer, and is reported with its true role. The choice fails exactly when the Seer is the only alive seat |
| Night.NightPhase | app.py:132-151 | The step ends with nothing recorded and no Witch prompt exactly when no alive seat is a non-Wolf. Otherwise the recorded kill is the picked entry of the ascending list of alive non-Wolf seats, and it is the seat the Witch is asked about. When the Seer's random choice fails, only the kill has been recorded and the previous Seer result stays. Nothing but the kill and the Seer's result changes |
| Night.NightSeerResultFollowsPick | app.py:145-151 | When the night reaches the Witch, the recorded Seer result is exactly the Seer's check made with the night's own pick: none without a Seer, otherwise the picked seat with its role |
| Witch.HealDecision | app.py:160-167 | A heal request with a potion left spends one potion and saves the kill target. Otherwise nobody is saved and the potions stay as they are. Only the save record and the potions change |
| Witch.PoisonPrompt | app.py:169 | The poison prompt offers exactly the alive seats other than seat 6, ascending |
| Witch.PoisonDecision | app.py:173-179 | A named seat with a poison left spends the potion and records that seat, seat 6 included. Otherwise nobody is poisoned. Only the poison record and the potions change |
| Witch.PotionsAccountForEffects | app.py:163-176 | Over any run of Witch decisions, the heals (poisonings) that took effect plus the healing (poison) potions left equal the potions at the start |
| Witch.EachPotionAtMostOnce | app.py:99-176 | From full potions, each potion takes effect at most once, however many decisions are submitted |
| Morning.MorningResolution | app.py:184-201 | A seat becomes dead exactly when it is the unsaved kill or the poisoned seat; every other status is unchanged. The death list names the killed seat first and the poisoned seat last. A seat that is both appears twice and has cause "poisoned". The night is peaceful exactly when nobody dies |
| DaySpeech.JoinNames | app.py:222 | The joined name list has length 9 per name minus the last separator |
| DaySpeech.JoinNamesListsEach | app.py:222 | The i-th player's name sits at offset 9·i of the joined list and reads back to that seat |
| DaySpeech.PersonaOf | app.py:224-231 | Wolves get the werewolf prompt, the Seer the seer prompt and the Witch the witch prompt, each exactly. Exactly the Villager and the Hunter fall through to the villager prompt |
| DaySpeech.PromptText | app.py:222-231 | A prompt opens with its role's introduction, ends with its role's question, follows it with the list introduction, and names every speaker of the day at a fixed place, in order. Its length leaves room for exactly those names and no other |
| DaySpeech.AgentLine | app.py:70-72 | An agent says the backend's reply, or the fixed fallback line when the backend fails |
| DaySpeech.StartDay | app.py:205-207 | The speaking order is exactly the alive seats, ascending, and the cursor starts at 0. Nothing else changes |
| DaySpeech.NextSpeaker | app.py:212-238 | The day ends exactly when the cursor is past the list. Seat 6's turn waits for the human without moving the cursor. An agent's turn names the seat under the cursor and advances the cursor by one; nothing else changes |
| DaySpeech.HumanSpoke | app.py:294-300 | A submitted speech moves the cursor on by exactly one and changes nothing else. The handler does not check that the cursor is at seat 6 |
| DaySpeech.AgentSpeech | app.py:221-233 | An agent's prompt opens and closes with the texts chosen by the speaker's role and names every seat of the frozen speaking order, in order. Its length leaves room for no other name. Its line is the backend's reply or the fallback |
| DaySpeech.SpeakingOrderFollowsCursor | app.py:212-238 | From any cursor position, the seats that speak are the rest of the frozen list, in order |
| DaySpeech.DayFollowsAliveOrder | app.py:204-238 | A whole day's speeches come from exactly the seats alive at daybreak, each once, in ascending order |
| Voting.StartVoting | app.py:240-243 | The vote table is cleared and the alive seats are offered in ascending order. Nothing else changes |
| Voting.RecordVote | app.py:249 | A voter already in the table keeps its place and takes the new target. A new voter is appended. All other entries stay where they are |
| Voting.RecordVoteKeepsTableKeyed | app.py:249 | After a vote, the table still has one entry per voter, its voters are the old voters plus this one, and this vote is in the table |
| Voting.RepeatedVoteOverwrites | app.py:249 | Voting twice from the same seat leaves the table as if only the second vote had been cast |
| Voting.VotersCount | app.py:253 | The table's length is its number of distinct voters |
| Voting.CastVote | app.py:245-254 | The vote is recorded. Voting is complete exactly when the number of distinct voters equals the number of alive seats |
| Voting.FirstVotedOrder | app.py:258 | The tally's key order lists each voted-for target once, and nothing else |
| Voting.FirstVotedOrderIsByFirstVote | app.py:258 | A target earlier in the tally's key order received its first vote earlier |
| Voting.CountVotes | app.py:258 | The tally's keys are exactly the targets, in first-vote order, and each count is that target's number of votes |
| Voting.MostCommon | app.py:260 | The chosen key has the largest count, and every earlier key has a strictly smaller one: the first key with the maximum |
| Voting.TallyWinnerIsUnique | app.py:260 | At most one seat meets the banishment rule |
| Voting.MostCommonKeyWins | app.py:258-260 | The key `most_common(1)` picks from the Counter of the ballots' targets is the tally winner: no seat has more votes, and every seat with as many votes was first voted for later |
| Voting.Banish | app.py:261-262 | The banished seat's status becomes banished and it is recorded as the day's banished seat; every other status is unchanged and no one comes back to life |
| Voting.FinishVoting | app.py:256-269 | An empty table banishes nobody and changes nothing. Otherwise the banished seat has the most votes, and among tied seats its first vote came first. It becomes banished and is recorded; every other status is unchanged |
| WinCheck.NextRound | app.py:289-290 | The round counter goes up by exactly one and nothing else changes |
| WinCheck.SidesPartitionAlive | app.py:276-279 | The alive seats split into the alive Wolves and the alive others |
| WinCheck.CheckWin | app.py:275-287 | No alive Wolf means the villagers win. At least as many alive Wolves as alive others means the Wolves win, so a tie goes to the Wolves. Otherwise the game continues with the round counter up by one |
| WinCheck.AfterVoting | app.py:259-269 | An empty vote table goes to the next round without a win check; a banishment goes to the win check |
| Scenarios.HealedKillIsPeaceful | app.py:160-201 | A healed kill with no poisoning gives a peaceful night with every status unchanged, and it spends the healing potion |
| Scenarios.KillAndPoisonOfTwoSeats | app.py:173-201 | An unsaved kill plus a poisoning of another seat kills both. The victim is reported first as killed, the other seat as poisoned |
| Scenarios.KilledAndPoisonedSameSeat | app.py:184-196 | A seat both killed and poisoned is listed twice, with cause "poisoned", and ends dead |
| Scenarios.WitchCanPoisonOwnSeat | app.py:169-196 | Seat 6 is never offered in the poison prompt, but poisoning it with a potion left kills the Witch |

## Left out

- Web routes, SocketIO event wiring, background threads and the `time.sleep` pacing are left out. They are transport and scheduling. The narration messages are not modelled; each step returns the data those messages carry.
- The second `next_round` trigger from `final_words_done` is left out. It is a threading artifact: after a banishment the model goes to the win check only.
- The language backend (`WerewolfAgent.say`, the OpenAI client) is a foreign network call. Its reply is a parameter of `DaySpeech.AgentSpeech`, with None standing for a failed call.
- Agent construction is left out. The model assumes every seat has an agent and reads roles from the role list, so the path where construction failed and left an empty slot is not modelled.
- Loading the API key from the environment and starting the server are process configuration.
- The browser client (`static/js/game.js`) is UI only.
- Event payloads that are not seat names are left out. A poison target, voter or vote target is typed as a seat, and the `player_id` of a submitted human speech is ignored, as the cursor ignores it.
- The state before the first `start_game`, where the role list is empty, is not modelled. The record always holds nine roles and nine statuses.
- Seats.SeatOfName: accepts only the names the server itself produces, `Player1` to `Player9`. Python's `int()` also accepts spellings such as `"Player 3"`, which this model does not read.
- Witch.PotionsAccountForEffects: counts over runs of Witch decisions only, within one match. Every other step within a match leaves the potions unchanged, as each step's frame clause states; `RoleAssignment.StartGame` alone refills both potions for a new match.
