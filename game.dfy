/** The rock-paper-scissors bot of lab4/main.py without its chat plumbing:
    the rule deciding a round, the display names of the three choices, and
    the per-user score table the callback handler keeps. The bot's own
    choice, drawn at random in the source, is a parameter here. */
module RockPaperScissors {

  datatype Option<T> = None | Some(value: T)

  /** The result of a round from the player's point of view. */
  datatype Outcome = Win | Lose | Draw

  /** The three callback payloads the keyboard sends. */
  const Choices: set<string> := {"rock", "scissors", "paper"}

  /** The three ordered pairs in which the first choice beats the second. */
  const Beating: set<(string, string)> := {("rock", "scissors"), ("scissors", "paper"), ("paper", "rock")}

  /** `get_result`: equal strings draw, the three beating pairs win, and every
      other pair loses, including pairs with a string that is no choice. */
  function GetResult(player: string, bot: string): (r: Outcome)
    ensures r == Draw <==> player == bot
    ensures r == Win <==> (player, bot) in Beating
    ensures r == Lose <==> player != bot && (player, bot) !in Beating
  {
    if player == bot then Draw
    else if (player == "rock" && bot == "scissors")
         || (player == "scissors" && bot == "paper")
         || (player == "paper" && bot == "rock") then Win
    else Lose
  }

  /** Swapping two different valid choices swaps winning and losing. */
  lemma ResultAntisymmetric(p: string, b: string)
    requires p in Choices && b in Choices && p != b
    ensures GetResult(p, b) == Win <==> GetResult(b, p) == Lose
    ensures GetResult(p, b) == Lose <==> GetResult(b, p) == Win
  {
  }

  /** Against a bot choice, each valid choice has a single winning answer and
      a single losing one: the game has no dominant choice. */
  lemma ResultCyclic(b: string)
    requires b in Choices
    ensures exists p :: p in Choices && GetResult(p, b) == Win
    ensures forall p, q :: p in Choices && q in Choices && GetResult(p, b) == Win && GetResult(q, b) == Win ==> p == q
    ensures exists p :: p in Choices && GetResult(p, b) == Lose
    ensures forall p, q :: p in Choices && q in Choices && GetResult(p, b) == Lose && GetResult(q, b) == Lose ==> p == q
  {
    if b == "rock" {
      assert GetResult("paper", b) == Win && GetResult("scissors", b) == Lose;
    } else if b == "scissors" {
      assert GetResult("rock", b) == Win && GetResult("paper", b) == Lose;
    } else {
      assert GetResult("scissors", b) == Win && GetResult("rock", b) == Lose;
    }
  }

  /** `translate`: the Russian button label of a choice; any other key is a
      lookup error, here `None`. */
  function Translate(choice: string): (r: Option<string>)
    ensures r.Some? <==> choice in Choices
  {
    if choice == "rock" then Some("Камень")
    else if choice == "scissors" then Some("Ножницы")
    else if choice == "paper" then Some("Бумага")
    else None
  }

  /** Different choices get different labels, so a message names both
      moves unambiguously. */
  lemma TranslateInjective(p: string, q: string)
    requires p in Choices && q in Choices && Translate(p) == Translate(q)
    ensures p == q
  {
  }

  // ---------------------------------------------------------------------
  // The score table

  /** One user's entry of `stats`. */
  datatype Counters = Counters(wins: nat, losses: nat, draws: nat)

  /** The entry `setdefault` inserts and `stats.get` falls back to. */
  const Zero := Counters(0, 0, 0)

  function Games(c: Counters): nat {
    c.wins + c.losses + c.draws
  }

  /** Line 38: a user without an entry reads as all zeros. */
  function StatsFor(stats: map<int, Counters>, userId: int): (c: Counters)
    ensures userId !in stats ==> c == Zero
    ensures userId in stats ==> c == stats[userId]
  {
    if userId in stats then stats[userId] else Zero
  }

  /** Lines 51-59 as a function of the table: the user gets an entry, the
      counter matching the result moves by one, and nothing else changes. */
  function Tally(stats: map<int, Counters>, userId: int, result: Outcome): (s: map<int, Counters>)
    ensures s.Keys == stats.Keys + {userId}
    ensures forall u :: u in stats && u != userId ==> s[u] == stats[u]
    ensures var before, after := StatsFor(stats, userId), s[userId];
      && after.wins == before.wins + (if result == Win then 1 else 0)
      && after.losses == before.losses + (if result == Lose then 1 else 0)
      && after.draws == before.draws + (if result == Draw then 1 else 0)
  {
    var c := if userId in stats then stats[userId] else Zero;
    var c' := match result
      case Win => c.(wins := c.wins + 1)
      case Lose => c.(losses := c.losses + 1)
      case Draw => c.(draws := c.draws + 1);
    stats[userId := c']
  }

  /** Each round adds exactly one game to the user's record. */
  lemma TallyCountsOneGame(stats: map<int, Counters>, userId: int, result: Outcome)
    ensures Games(StatsFor(Tally(stats, userId, result), userId)) == Games(StatsFor(stats, userId)) + 1
  {
  }

  /** The number of rounds in `rs` played by `userId` with result `o`. */
  function CountFor(rs: seq<(int, Outcome)>, userId: int, o: Outcome): nat {
    if rs == [] then 0
    else CountFor(rs[..|rs| - 1], userId, o) + (if rs[|rs| - 1] == (userId, o) then 1 else 0)
  }

  /** The table after the rounds `rs`, each a user and its result, tallied in
      order; rounds of different users may interleave, as the bot's
      callbacks do. */
  function Replay(stats: map<int, Counters>, rs: seq<(int, Outcome)>): map<int, Counters> {
    if rs == [] then stats
    else Tally(Replay(stats, rs[..|rs| - 1]), rs[|rs| - 1].0, rs[|rs| - 1].1)
  }

  /** After any history of rounds, every user's counters are the old ones
      plus the numbers of that user's rounds won, lost and drawn, and the
      users with an entry are the old ones and those who played. */
  lemma {:induction false} ReplayCounts(stats: map<int, Counters>, rs: seq<(int, Outcome)>)
    ensures forall u :: StatsFor(Replay(stats, rs), u) == Counters(
      StatsFor(stats, u).wins + CountFor(rs, u, Win),
      StatsFor(stats, u).losses + CountFor(rs, u, Lose),
      StatsFor(stats, u).draws + CountFor(rs, u, Draw))
    ensures forall u :: u in Replay(stats, rs) <==> u in stats || exists k :: 0 <= k < |rs| && rs[k].0 == u
  {
    if rs != [] {
      var init, last := rs[..|rs| - 1], rs[|rs| - 1];
      ReplayCounts(stats, init);
      forall u ensures u in Replay(stats, rs) <==> u in stats || exists k :: 0 <= k < |rs| && rs[k].0 == u {
        if exists k :: 0 <= k < |init| && init[k].0 == u {
          var k :| 0 <= k < |init| && init[k].0 == u;
          assert rs[k] == init[k];
        }
        if exists k :: 0 <= k < |rs| && rs[k].0 == u {
          var k :| 0 <= k < |rs| && rs[k].0 == u;
          if k < |init| {
            assert init[k] == rs[k];
          }
        }
      }
    }
  }

  /** A user with no entry before a history has, after it, exactly the
      numbers of their own rounds won, lost and drawn. */
  lemma ReplayFromNoEntry(stats: map<int, Counters>, rs: seq<(int, Outcome)>, userId: int)
    requires userId !in stats
    ensures StatsFor(Replay(stats, rs), userId)
      == Counters(CountFor(rs, userId, Win), CountFor(rs, userId, Lose), CountFor(rs, userId, Draw))
  {
    ReplayCounts(stats, rs);
  }

  /** The global `stats` dictionary of the bot. */
  class Scoreboard {
    var stats: map<int, Counters>

    constructor()
      ensures stats == map[]
    {
      stats := map[];
    }

    /** `stats_handler`'s lookup (line 38). */
    function Lookup(userId: int): (c: Counters)
      reads this
      ensures userId !in stats ==> c == Zero
      ensures userId in stats ==> c == stats[userId]
    {
      StatsFor(stats, userId)
    }

    /** The tally step of `callback_handler` (lines 50-60). */
    method Record(userId: int, result: Outcome)
      modifies this
      ensures stats == Tally(old(stats), userId, result)
    {
      if userId !in stats {
        stats := stats[userId := Zero];
      }
      var c := stats[userId];
      if result == Win {
        stats := stats[userId := c.(wins := c.wins + 1)];
      } else if result == Lose {
        stats := stats[userId := c.(losses := c.losses + 1)];
      } else {
        stats := stats[userId := c.(draws := c.draws + 1)];
      }
    }

    /** `callback_handler` with the bot's random draw passed in: decide the
        round, tally it, and answer with the two labels. */
    method HandleCallback(userId: int, userChoice: string, botChoice: string)
        returns (result: Outcome, userLabel: string, botLabel: string)
      requires userChoice in Choices && botChoice in Choices
      modifies this
      ensures result == GetResult(userChoice, botChoice)
      ensures stats == Tally(old(stats), userId, result)
      ensures Some(userLabel) == Translate(userChoice) && Some(botLabel) == Translate(botChoice)
    {
      result := GetResult(userChoice, botChoice);
      Record(userId, result);
      userLabel := Translate(userChoice).value;
      botLabel := Translate(botChoice).value;
    }
  }
}
