/** The day: a speaking order frozen at daybreak, walked by a cursor; the
    agents speak from a role-specific prompt and seat 6 speaks when the human
    submits a line. */
module DaySpeech {
  import opened Wrappers
  import opened Seats
  import opened GameState

  /** The players' names joined with ", ", as the prompts list them. */
  function JoinNames(xs: seq<Seat>): (r: string)
    ensures |r| == if xs == [] then 0 else 9 * |xs| - 2
  {
    if xs == [] then ""
    else if |xs| == 1 then PlayerName(xs[0])
    else PlayerName(xs[0]) + ", " + JoinNames(xs[1..])
  }

  /** The i-th listed player's name sits at offset 9 * i of the joined list. */
  lemma {:induction false} JoinNamesListsEach(xs: seq<Seat>, i: nat)
    requires i < |xs|
    ensures JoinNames(xs)[9 * i .. 9 * i + 7] == PlayerName(xs[i])
    ensures SeatOfName(JoinNames(xs)[9 * i .. 9 * i + 7]) == Some(xs[i])
  {
    NameRoundTrip(xs[i]);
    if i > 0 {
      JoinNamesListsEach(xs[1..], i - 1);
      var head := PlayerName(xs[0]) + ", ";
      assert JoinNames(xs) == head + JoinNames(xs[1..]);
      assert JoinNames(xs)[9 * i .. 9 * i + 7] == JoinNames(xs[1..])[9 * (i - 1) .. 9 * (i - 1) + 7];
    }
  }

  /** The four prompt templates; the choice is made on the speaker's role. */
  datatype Persona = WerewolfPersona | SeerPersona | WitchPersona | VillagerPersona

  /** Wolves, the Seer and the Witch get their own template; every other
      role, the Hunter included, is prompted as a villager. */
  function PersonaOf(role: Role): (p: Persona)
    ensures p == VillagerPersona <==> role == Villager || role == Hunter
    ensures p == WerewolfPersona <==> role == Wolf
    ensures p == SeerPersona <==> role == Seer
    ensures p == WitchPersona <==> role == Witch
  {
    match role
    case Wolf => WerewolfPersona
    case Seer => SeerPersona
    case Witch => WitchPersona
    case _ => VillagerPersona
  }

  function Opening(p: Persona): string {
    match p
    case WerewolfPersona => "You are a werewolf. "
    case SeerPersona => "You are the seer. "
    case WitchPersona => "You are the witch. "
    case VillagerPersona => "You are a villager. "
  }

  const ListIntro: string := "The alive players are: "

  function Question(p: Persona): string {
    match p
    case WerewolfPersona => "What do you say to mislead the villagers?"
    case SeerPersona | WitchPersona => "What do you say to help the village?"
    case VillagerPersona => "What do you say to help find the werewolves?"
  }

  /** The seven characters of `prompt` at offset `at` name seat `s`. */
  predicate NamedAt(prompt: string, at: int, s: Seat) {
    0 <= at && at + 7 <= |prompt| && SeatOfName(prompt[at .. at + 7]) == Some(s)
  }

  /** The length of the list of `n` names joined with ", ". */
  function ListedLength(n: nat): nat {
    if n == 0 then 0 else 9 * n - 2
  }

  /** A prompt built from an opening and a closing question around the list
      of the day's speakers: every listed player is named at a fixed place,
      and the length leaves room for no other name. */
  function PromptText(opening: string, question: string, speakers: seq<Seat>): (prompt: string)
    ensures |prompt| == |opening| + |ListIntro| + ListedLength(|speakers|) + 2 + |question|
    ensures prompt[..|opening|] == opening
    ensures prompt[|opening| .. |opening| + |ListIntro|] == ListIntro
    ensures prompt[|prompt| - |question|..] == question
    ensures forall i :: 0 <= i < |speakers| ==>
              NamedAt(prompt, |opening| + |ListIntro| + 9 * i, speakers[i])
  {
    var middle := ListIntro + JoinNames(speakers) + ". ";
    PrefixAndSuffix(opening, middle, question);
    IntroInText(opening, ListIntro, JoinNames(speakers), ". ", question);
    JoinNamesNamesEach(speakers);
    NamesInText(opening, ListIntro, ". ", question, JoinNames(speakers), speakers);
    opening + middle + question
  }

  /** `b` is read back right after `a` inside `a + (b + names + c) + d`. */
  lemma IntroInText(a: string, b: string, names: string, c: string, d: string)
    ensures (a + (b + names + c) + d)[|a| .. |a| + |b|] == b
  {
    SliceInMiddle(a, b + names + c, d, 0, |b|);
    assert (b + names + c)[0 .. |b|] == b;
  }

  /** Names listed at the offsets of a joined list are read back at the
      same offsets shifted by `|a| + |b|` inside `a + (b + names + c) + d`. */
  lemma NamesInText(a: string, b: string, c: string, d: string, names: string, speakers: seq<Seat>)
    requires forall i :: 0 <= i < |speakers| ==> NamedAt(names, 9 * i, speakers[i])
    ensures forall i :: 0 <= i < |speakers| ==>
              NamedAt(a + (b + names + c) + d, |a| + |b| + 9 * i, speakers[i])
  {
    forall i | 0 <= i < |speakers|
      ensures NamedAt(a + (b + names + c) + d, |a| + |b| + 9 * i, speakers[i])
    {
      NameInText(a, b, names, c, d, 9 * i, speakers[i]);
    }
  }

  /** Every player of a joined list is named at its offset. */
  lemma JoinNamesNamesEach(xs: seq<Seat>)
    ensures forall i :: 0 <= i < |xs| ==> NamedAt(JoinNames(xs), 9 * i, xs[i])
  {
    forall i | 0 <= i < |xs| ensures NamedAt(JoinNames(xs), 9 * i, xs[i]) {
      JoinNamesListsEach(xs, i);
    }
  }

  /** A name inside `names` is read back from inside `a + (b + names + c) + d`. */
  lemma NameInText(a: string, b: string, names: string, c: string, d: string, lo: nat, s: Seat)
    requires NamedAt(names, lo, s)
    ensures NamedAt(a + (b + names + c) + d, |a| + |b| + lo, s)
  {
    SliceInMiddle(b, names, c, lo, lo + 7);
    SliceInMiddle(a, b + names + c, d, |b| + lo, |b| + lo + 7);
  }

  lemma SliceInMiddle(a: string, b: string, c: string, lo: nat, hi: nat)
    requires lo <= hi <= |b|
    ensures (a + b + c)[|a| + lo .. |a| + hi] == b[lo..hi]
  {
  }

  lemma PrefixAndSuffix(a: string, b: string, c: string)
    ensures (a + b + c)[..|a|] == a
    ensures (a + b + c)[|a + b + c| - |c|..] == c
  {
  }

  /** What an agent says when the language backend fails. */
  const FallbackLine: string := "I'm having trouble thinking right now..."

  /** An agent's spoken line: the backend's reply, or the fallback when the
      backend failed (None). */
  function AgentLine(reply: Option<string>): (line: string)
    ensures reply.Some? ==> line == reply.value
    ensures reply.None? ==> line == FallbackLine
  {
    match reply
    case Some(text) => text
    case None => FallbackLine
  }

  /** `run_day_speech_phase`: freeze the alive seats as the speaking order and
      put the cursor on its first entry. */
  function StartDay(g: Game): (r: Game)
    ensures forall s: Seat :: s in r.speakers <==> g.IsAlive(s)
    ensures Ascending(r.speakers)
    ensures r.speakerIndex == 0
    ensures r == g.(speakers := r.speakers, speakerIndex := 0)
  {
    g.(speakers := AliveSeats(g), speakerIndex := 0)
  }

  /** One call of `next_player_speak`, as far as the cursor goes: the day
      is over, seat 6's turn waits for the human, or an agent speaks and the
      cursor moves on. */
  datatype SpeechTurn =
    | AwaitHuman(g: Game)
    | AgentTurn(g: Game, speaker: Seat)
    | DayOver(g: Game)

  function NextSpeaker(g: Game): (r: SpeechTurn)
    ensures r.DayOver? <==> g.speakerIndex >= |g.speakers|
    ensures r.AwaitHuman? <==> g.speakerIndex < |g.speakers| && g.speakers[g.speakerIndex] == HumanSeat
    ensures !r.AgentTurn? ==> r.g == g
    ensures r.AgentTurn? ==>
              && r.speaker == g.speakers[g.speakerIndex]
              && r.speaker != HumanSeat
              && r.g == g.(speakerIndex := g.speakerIndex + 1)
  {
    if g.speakerIndex < |g.speakers| then
      var speaker := g.speakers[g.speakerIndex];
      if speaker == HumanSeat then AwaitHuman(g)
      else AgentTurn(g.(speakerIndex := g.speakerIndex + 1), speaker)
    else
      DayOver(g)
  }

  /** What an agent's turn sends to the backend and what the agent says. */
  datatype AgentMessage = AgentMessage(prompt: string, line: string)

  /** The message of `speaker`'s turn in `next_player_speak`: the prompt is
      chosen by the speaker's role and lists the frozen speaking order; the
      line is the backend's reply or the fallback. */
  function AgentSpeech(g: Game, speaker: Seat, reply: Option<string>): (m: AgentMessage)
    ensures var opening := Opening(PersonaOf(g.RoleOf(speaker)));
            var question := Question(PersonaOf(g.RoleOf(speaker)));
            |m.prompt| == |opening| + |ListIntro| + ListedLength(|g.speakers|) + 2 + |question|
    ensures var opening := Opening(PersonaOf(g.RoleOf(speaker)));
            && m.prompt[..|opening|] == opening
            && m.prompt[|opening| .. |opening| + |ListIntro|] == ListIntro
    ensures var question := Question(PersonaOf(g.RoleOf(speaker)));
            && |m.prompt| >= |question|
            && m.prompt[|m.prompt| - |question|..] == question
    ensures forall i :: 0 <= i < |g.speakers| ==>
              NamedAt(m.prompt, |Opening(PersonaOf(g.RoleOf(speaker)))| + |ListIntro| + 9 * i, g.speakers[i])
    ensures m.line == AgentLine(reply)
  {
    var persona := PersonaOf(g.RoleOf(speaker));
    var prompt := PromptText(Opening(persona), Question(persona), g.speakers);
    AgentMessage(prompt, AgentLine(reply))
  }

  /** `handle_player_speak`: a submitted line moves the cursor on by one,
      whoever's turn it is; nothing else changes. */
  function HumanSpoke(g: Game): (r: Game)
    ensures r.speakerIndex == g.speakerIndex + 1
    ensures r == g.(speakerIndex := r.speakerIndex)
  {
    g.(speakerIndex := g.speakerIndex + 1)
  }

  /** The seats that speak, in order, from the cursor's position to the end
      of the day, each human turn answered by one submitted line. */
  function SpeakingOrder(g: Game): seq<Seat>
    decreases if g.speakerIndex <= |g.speakers| then |g.speakers| - g.speakerIndex else 0
  {
    match NextSpeaker(g)
    case DayOver(_) => []
    case AwaitHuman(_) => [HumanSeat] + SpeakingOrder(HumanSpoke(g))
    case AgentTurn(next, speaker) => [speaker] + SpeakingOrder(next)
  }

  /** The cursor walks the frozen list from its position to the end. */
  lemma {:induction false} SpeakingOrderFollowsCursor(g: Game)
    requires g.speakerIndex <= |g.speakers|
    ensures SpeakingOrder(g) == g.speakers[g.speakerIndex..]
    decreases |g.speakers| - g.speakerIndex
  {
    if g.speakerIndex < |g.speakers| {
      SpeakingOrderFollowsCursor(HumanSpoke(g));
      assert g.speakers[g.speakerIndex..]
          == [g.speakers[g.speakerIndex]] + g.speakers[g.speakerIndex + 1..];
    }
  }

  /** A whole day's speeches follow the seats alive at daybreak, ascending,
      each exactly once. */
  lemma DayFollowsAliveOrder(g: Game)
    ensures SpeakingOrder(StartDay(g)) == StartDay(g).speakers
    ensures forall s: Seat :: s in SpeakingOrder(StartDay(g)) <==> g.IsAlive(s)
    ensures Ascending(SpeakingOrder(StartDay(g)))
  {
    SpeakingOrderFollowsCursor(StartDay(g));
  }
}
