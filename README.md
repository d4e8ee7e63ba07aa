# ddf_bot game and voting core, in Dafny

ddf_bot is a chat bot that runs an elimination game ("Der dümmste fliegt"). A
moderator starts a game and enrols players, each with a number of lives. The
moderator then opens voting rounds. In each round every living player casts one
ballot naming a living player. When the moderator closes the round, a single
top-voted player loses one life and is out once no life is left. A tie at the
top costs nobody a life.

This project models that core and proves properties of it:

- `GameState` (`game_state.dfy`) is the game record. `Game` is a class whose
  roster (`members`, player to lives) is changed in place by `AddPlayer`,
  `RemovePlayer` and `SetPlayerHealth`. `Voting` is a round: its creator and
  its ballots, each voter mapped to the nominee.
- `Data` (`data.dfy`) is the bot's shared state: a slot for the running game
  and a slot for the open round. Both are empty at start.
- `Checks` (`checks.dfy`) holds the six guard checks that run before a
  command. A command's checks form a list that runs in order and stops at the
  first failure. A check that relies on an earlier one (for example, that a
  game runs) panics when it is run without it. The module proves which check
  orders can never panic.
- `GameCommands` (`game_commands.dfy`) holds start-game (with its override
  prompt), add-user, remove-user and end-game, plus how show-game draws a
  player.
- `VoteTally` (`tally.dfy`) counts the ballots per nominee with a loop. It
  proves the counts add up to the number of ballots, and decides a clear
  winner or a tie.
- `VoteCommands` (`vote_commands.dfy`) holds start-voting, vote and
  end-voting.
- `SetLivesCommand` (`set_lives.dfy`) holds set-lives, both as written and
  corrected.
- `Scenario` (`scenario.dfy`) plays one whole round through the commands.
  Three players start with three lives each. Two of them vote for the third,
  who then has two lives.

The source signals failure in three ways, and the model keeps them apart:

- A command that succeeds returns `Done`.
- A refusal the source reports to the user returns `Failed(e)`, and nothing
  changes.
- A panic (an `unwrap` or `expect` on a missing value) returns `Panicked`, and
  nothing changes. In every case modelled, the panic happens before any state
  is written.

Things the model turns into parameters:

- The platform moderator role (`has_mod_role`) is a boolean parameter.
- The yes/no button prompt is an `Answer` parameter: `Yes`, `No`, or `Timeout`
  when nobody answered within 60 seconds.

## Model

| member | source | states |
|---|---|---|
| GameState.Game.constructor | src/commands/game.rs:120-124 | a new game records its creator and moderator and has no players |
| GameState.Game.ContainsPlayer | src/game.rs:23-25 | true exactly when the player is a key of the roster |
| GameState.Game.AddPlayer | src/game.rs:27-34 | a player already enrolled is refused with PlayerAlreadyAdded and the roster is unchanged; otherwise the player is added with the given lives and no one else changes |
| GameState.Game.RemovePlayer | src/game.rs:36-41 | succeeds exactly when the player was enrolled, and then removes exactly that player; otherwise PlayerNotInGame and the roster is unchanged |
| GameState.Game.SetPlayerHealth | src/game.rs:43-50 | succeeds exactly when the player is enrolled, and then sets only that player's lives; otherwise PlayerNotInGame and the roster is unchanged |
| GameState.AddThenRemove | src/game.rs:27-41 | adding a player who is not enrolled and then removing them gives back the original roster |
| Data.Session.constructor | src/data.rs:11-16 | the bot starts with no running game and no open round |
| Checks.NeedsActiveGame | src/checks.rs:5-10 | passes exactly when a game runs, otherwise NoActiveGame |
| Checks.NeedsActiveVoting | src/checks.rs:12-17 | passes exactly when a round is open, otherwise NoActiveVoting |
| Checks.DidNotVote | src/checks.rs:19-29 | passes exactly when the author has no ballot in the open round, otherwise AlreadyVoted |
| Checks.IsInGame | src/checks.rs:31-41 | passes exactly when the author is enrolled, otherwise NotJoined |
| Checks.IsGameModerator | src/checks.rs:43-53 | passes exactly when the author is the game's moderator, otherwise NotModerator |
| Checks.AuthorIsAlive | src/checks.rs:55-70 | passes exactly when the author has more than zero lives, otherwise AuthorEliminated |
| Checks.RunGateSpec | src/commands/vote.rs:138 | a list of checks passes exactly when every check passes; otherwise the command ends with the result of the first check that fails |
| Checks.PrerequisiteEstablishes | src/checks.rs:19-70 | once a check's prerequisite has passed, the assumption the check relies on holds |
| Checks.WellOrderedNeverPanics | src/checks.rs:19-70 | a check list in which every check comes after its prerequisite never panics, in any state |
| Checks.DeclaredOrdersAreSafe | src/commands/vote.rs:138 | the check lists of add-user, start-voting, vote and end-voting put every prerequisite first |
| Checks.ModeratorGate | src/commands/game.rs:146 | no game gives NoActiveGame, an author who is not the moderator gives NotModerator, and otherwise the command proceeds |
| Checks.VoteGate | src/commands/vote.rs:138 | the vote checks in order: NoActiveGame, NoActiveVoting, NotJoined, AlreadyVoted, AuthorEliminated, and otherwise the ballot proceeds |
| Checks.EndVotingGate | src/commands/vote.rs:222 | the end-voting checks in order: NoActiveVoting, NoActiveGame, NotModerator, and otherwise the round closes |
| Checks.RemoveUserGate | src/commands/game.rs:176 | the remove-user checks as declared: no game panics, an author who is not the moderator gives NotModerator, and otherwise the command proceeds |
| Checks.RemoveUserGatePanicsWithoutGame | src/commands/game.rs:176 | with no game the declared order is not well ordered and panics, where the game-first order reports NoActiveGame |
| Checks.RemoveUserGateAgreesWithGame | src/commands/game.rs:176 | whenever a game runs, the declared order and the safe order give the same result |
| GameCommands.CreateNewGame | src/commands/game.rs:104-144 | a fresh game with the invoker as creator, the chosen moderator and no players replaces the old one, and the open round is discarded |
| GameCommands.StartGame | src/commands/game.rs:38-102 | without the moderator role the command is refused; with no running game, or with a yes to the override prompt, a new game starts and the round is discarded; after no or a timeout both slots and the old roster are unchanged |
| GameCommands.AddUser | src/commands/game.rs:146-174 | after the moderator checks, a player already enrolled is refused; otherwise the player is added with the given lives, or three when none are given, and no one else changes |
| GameCommands.RemoveUser | src/commands/game.rs:176-203 | with no game it panics; a non-moderator is refused; a player who is not enrolled is refused; otherwise exactly that player is removed |
| GameCommands.RemoveMember | src/commands/game.rs:176-203 | corrected order: never panics; with no game it reports NoActiveGame; a non-moderator is refused; a player who is not enrolled is refused; otherwise exactly that player is removed |
| GameCommands.EndGame | src/commands/game.rs:250-322 | without the role it is refused; with no game it reports NoActiveGame; only a yes empties the game slot; the voting slot is never touched |
| GameCommands.ShownCrossedOut | src/commands/game.rs:219 | show-game strikes a player through exactly when they are eliminated and not below zero lives, so only eliminated players are struck through |
| GameCommands.NegativeLivesShownAsPlaying | src/commands/game.rs:217-237 | a player below zero lives is eliminated but show-game does not strike them through |
| VoteTally.CountPositive | src/commands/vote.rs:241 | a nominee appears in the counts exactly when some ballot names them, and then with at least one vote |
| VoteTally.TallyAdd | src/commands/vote.rs:241 | counting one more ballot adds one to its nominee's count, or enters the nominee with one vote, and no other count changes |
| VoteTally.CountVotes | src/commands/vote.rs:236-248 | the counting loop yields, for every nominee named on some ballot, the number of ballots naming them, and nobody else |
| VoteTally.TallyTotal | src/commands/vote.rs:236-248 | the counts add up to the number of ballots: every ballot is counted exactly once |
| VoteTally.MaxVotes | src/commands/vote.rs:187 | the largest count is one of the counts, and no count exceeds it |
| VoteTally.EvaluateVotes | src/commands/vote.rs:186-207 | a clear winner has the maximum count and every other nominee has strictly fewer votes; a tie reports the maximum and how many nominees share it, which is more than one |
| VoteTally.MaxByKey | src/commands/vote.rs:199-203 | the entry picked by `max_by_key` is one of the entries, no entry has more votes, and it sits at a position after which every entry has strictly fewer votes: the last of equal maxima |
| VoteTally.ClearWinnerIndependentOfOrder | src/commands/vote.rs:199-203 | when a round has a clear winner, `max_by_key` finds that winner in whatever order the counts are visited |
| VoteTally.PluralityExample | src/commands/vote.rs:186-248 | two ballots for x and one for y count as x:2, y:1, and x wins with two votes |
| VoteTally.TieExample | src/commands/vote.rs:186-248 | one ballot each for x and y is a tie of two nominees at one vote |
| VoteTally.UnanimousExample | src/commands/vote.rs:186-248 | two ballots for x count as x:2, and x wins with two votes |
| VoteCommands.CreateNewVote | src/commands/vote.rs:103-136 | a new round with the given creator and no ballots replaces the open one, and the game is untouched |
| VoteCommands.StartVoting | src/commands/vote.rs:39-101 | after the moderator checks, a round opens when none was open or the override prompt got a yes; after no or a timeout the open round keeps its ballots |
| VoteCommands.NominationCheck | src/commands/vote.rs:152-161 | a nominee is accepted exactly when enrolled with more than zero lives; an enrolled nominee at zero or fewer lives is refused as eliminated, and one not enrolled as not in the game |
| VoteCommands.SelfNominationAccepted | src/commands/vote.rs:138-163 | any author the vote checks let through may nominate themselves |
| VoteCommands.Vote | src/commands/vote.rs:138-173 | after the vote checks and the nominee check, exactly the author's ballot for the nominee is added; any refusal records nothing; the roster never changes |
| VoteCommands.SecondVoteRefused | src/checks.rs:19-29 | once a ballot is recorded, the same author's next vote in the round is refused |
| VoteCommands.EliminatedMatchesNomination | src/commands/game.rs:219 | for an enrolled player, being eliminated (the corrected test for striking through) holds exactly when no ballot may name them; show-game's zero-only test never strikes through a player who may still be named |
| VoteCommands.EndVoting | src/commands/vote.rs:222-305 | after the end-voting checks: no ballots panics; the outcome is the evaluation of the counted ballots; a clear winner who is still enrolled loses exactly one life, no one else changes, the round closes and `eliminated` says whether the winner is out; a winner who has left the roster panics with nothing changed; a tie changes no lives and closes the round |
| SetLivesCommand.SetLives | src/commands/set_lives.rs:14-19 | as written: after the moderator checks the amount is stored for the author, who is refused if not enrolled, and the named member's lives stay as they were |
| SetLivesCommand.SetMemberLives | src/commands/set_lives.rs:14-27 | corrected: after the moderator checks the named member's lives become the amount and no one else changes; a member who is not enrolled is refused |
| Scenario.EnrolThree | src/commands/game.rs:38-174 | starting a game and adding three players, with the default and with explicit lives, gives three players at three lives each |
| Scenario.CastBallots | src/commands/vote.rs:39-173 | after a round opens, two ballots for the same nominee are recorded, and a second ballot from the same voter is refused |
| Scenario.CloseRound | src/commands/vote.rs:222-305 | closing that round takes one life from the nominee, leaves the others at three lives and closes the round |

## Left out

- Network and chat-platform I/O is not modelled. This covers replies, embeds, button collectors, member lookups (`guild.member`) and the text of messages. A failed member lookup while counting ballots in end-voting is left out too.
- The two mutexes around the game slot and the voting slot are left out, and so are races between commands. Neither is re-checked after a prompt, so a command that waited on a prompt acts on whatever state it finds when answered. The model treats each command as one atomic step.
- `has_mod_role` and the `has_role!` macro (`src/utils.rs`) need a platform role lookup. The model takes the role as a boolean parameter.
- The error enum and its handler (`src/error.rs`), the bot start-up (`src/main.rs`, `src/lib.rs`) and the vote summary model (`src/models/vote_summary.rs`) are not part of this model.
- Lives and vote counts are unbounded integers. The 32-bit wrap-around of `i32` arithmetic (for example, taking a life from `i32::MIN`) is not modelled.
- `get_voting_count_overview` and the drawing of the roster in show-game are left out. This covers sorting, formatting and the lives string. Only the decision whether a player is drawn struck through is modelled (`GameCommands.ShownCrossedOut`).
- The iteration order of Rust's `HashMap` is not modelled. `VoteTally.ClearWinnerIndependentOfOrder` proves that it does not change a clear winner. A tie reports only counts, which do not depend on the order.
- `src/main.rs` registers only show-game, start-game, add-user, start-voting, vote and end-voting. remove-user, end-game and set-lives are modelled all the same.
- Lock order is not modelled. vote and end-voting take the voting lock before the game lock (src/commands/vote.rs:146-149, 224-225), while create_new_game takes them the other way round (src/commands/game.rs:109-110).

## Findings

| source | as written | input that shows it | evidently intended | confidence | as-written member | corrected member |
|---|---|---|---|---|---|---|
| src/commands/game.rs:176 | remove-user runs the moderator check, which expects a running game, before the running-game check | remove-user with no game running: the moderator check's `expect` panics | report that no game is running, as add-user does with the checks in the other order | not executed | Checks.RemoveUserGatePanicsWithoutGame | GameCommands.RemoveMember |
| src/commands/set_lives.rs:19 | set-lives stores the amount for the command's author | the moderator, enrolled, sets 1 life for player P: the moderator gets 1 life and P is unchanged, though the reply says P now has 1 life | store the amount for the named member | not executed | SetLivesCommand.SetLives | SetLivesCommand.SetMemberLives |
| src/commands/game.rs:219 | show-game strikes a player through only at exactly zero lives | add-user P with lives -1 (stored unclamped by src/commands/game.rs:162): show-game draws P as playing, though vote refuses P as eliminated at src/commands/vote.rs:154 | strike through every eliminated player (zero lives or fewer) | not executed | GameCommands.NegativeLivesShownAsPlaying | VoteCommands.EliminatedMatchesNomination |
