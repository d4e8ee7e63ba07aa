/**
 * The command checks (src/checks.rs) and the way the command framework runs
 * a command's list of checks: in the order they are listed, stopping at the
 * first one that fails.
 */
module Checks {
  import opened Outcomes
  import opened GameState
  import opened Data

  /** Every way a command can be refused, as the bot reports it. */
  datatype CommandError =
    | NoActiveGame
    | NoActiveVoting
    | AlreadyVoted
    | NotJoined
    | NotModerator
    | AuthorEliminated
    | MissingModRole
    | Player(player: PlayerError)
    | NomineeEliminated(nominee: UserId)

  /**
   * What a command (or a check) ends with: success, a reported error, or a
   * panic from an `expect`/`unwrap` on a state it assumed. A panic leaves
   * both slots as they were.
   */
  datatype CmdRet = Done | Failed(error: CommandError) | Panicked

  /** Succeeds exactly when a game is running. */
  function NeedsActiveGame(s: Session): (r: CmdRet)
    reads s
    ensures r == Done <==> s.game != null
    ensures r != Done ==> r == Failed(NoActiveGame)
  {
    if s.game != null then Done else Failed(NoActiveGame)
  }

  /** Succeeds exactly when a voting round is open. */
  function NeedsActiveVoting(s: Session): (r: CmdRet)
    reads s
    ensures r == Done <==> s.voting.Some?
    ensures r != Done ==> r == Failed(NoActiveVoting)
  {
    if s.voting.Some? then Done else Failed(NoActiveVoting)
  }

  /** Fails exactly when the author already has a ballot; assumes an open round. */
  function DidNotVote(s: Session, author: UserId): (r: CmdRet)
    requires s.voting.Some?
    reads s
    ensures r == Done <==> author !in s.voting.value.ballots
    ensures r != Done ==> r == Failed(AlreadyVoted)
  {
    if author in s.voting.value.ballots then Failed(AlreadyVoted) else Done
  }

  /** Succeeds exactly when the author is on the roster; assumes a running game. */
  function IsInGame(s: Session, author: UserId): (r: CmdRet)
    requires s.game != null
    reads s, s.game
    ensures r == Done <==> s.game.ContainsPlayer(author)
    ensures r != Done ==> r == Failed(NotJoined)
  {
    if author !in s.game.members then Failed(NotJoined) else Done
  }

  /** Succeeds exactly when the author is the game's moderator; assumes a running game. */
  function IsGameModerator(s: Session, author: UserId): (r: CmdRet)
    requires s.game != null
    reads s, s.game
    ensures r == Done <==> s.game.moderator == author
    ensures r != Done ==> r == Failed(NotModerator)
  {
    if s.game.moderator == author then Done else Failed(NotModerator)
  }

  /** Succeeds exactly when the author has lives left; assumes the author is a player. */
  function AuthorIsAlive(s: Session, author: UserId): (r: CmdRet)
    requires s.game != null && author in s.game.members
    reads s, s.game
    ensures r == Done <==> !Eliminated(s.game.members[author])
    ensures r != Done ==> r == Failed(AuthorEliminated)
  {
    if s.game.members[author] > 0 then Done else Failed(AuthorEliminated)
  }

  /** The checks a command can list. */
  datatype Check = ActiveGame | ActiveVoting | InGame | NotYetVoted | Moderator | AuthorAlive

  /** What a check takes for granted (it panics when this does not hold). */
  predicate Assumes(c: Check, s: Session, author: UserId)
    reads s, s.game
  {
    match c
    case ActiveGame => true
    case ActiveVoting => true
    case NotYetVoted => s.voting.Some?
    case InGame => s.game != null
    case Moderator => s.game != null
    case AuthorAlive => s.game != null && author in s.game.members
  }

  /** Runs one check whose assumption holds. */
  function Run(c: Check, s: Session, author: UserId): CmdRet
    requires Assumes(c, s, author)
    reads s, s.game
  {
    match c
    case ActiveGame => NeedsActiveGame(s)
    case ActiveVoting => NeedsActiveVoting(s)
    case NotYetVoted => DidNotVote(s, author)
    case InGame => IsInGame(s, author)
    case Moderator => IsGameModerator(s, author)
    case AuthorAlive => AuthorIsAlive(s, author)
  }

  /** The check passes: its assumption holds and it succeeds. */
  predicate Holds(c: Check, s: Session, author: UserId)
    reads s, s.game
  {
    Assumes(c, s, author) && Run(c, s, author) == Done
  }

  /** What a failing check ends the command with: its error, or a panic. */
  function Stop(c: Check, s: Session, author: UserId): CmdRet
    reads s, s.game
  {
    if Assumes(c, s, author) then Run(c, s, author) else Panicked
  }

  /** Runs a command's checks in the listed order; the first that does not pass decides. */
  function RunGate(cs: seq<Check>, s: Session, author: UserId): CmdRet
    reads s, s.game
  {
    if cs == [] then Done
    else if !Holds(cs[0], s, author) then Stop(cs[0], s, author)
    else RunGate(cs[1..], s, author)
  }

  /** Check `i` is the first in `cs` that does not pass. */
  predicate FirstFailure(cs: seq<Check>, i: int, s: Session, author: UserId)
    reads s, s.game
  {
    && 0 <= i < |cs|
    && (forall j | 0 <= j < i :: Holds(cs[j], s, author))
    && !Holds(cs[i], s, author)
  }

  /**
   * A command succeeds exactly when all its checks pass, and otherwise ends
   * with what its first failing check ends with.
   */
  lemma {:induction false} RunGateSpec(cs: seq<Check>, s: Session, author: UserId)
    ensures RunGate(cs, s, author) == Done <==> forall i | 0 <= i < |cs| :: Holds(cs[i], s, author)
    ensures RunGate(cs, s, author) != Done ==>
              exists i :: FirstFailure(cs, i, s, author) && RunGate(cs, s, author) == Stop(cs[i], s, author)
    decreases |cs|
  {
    if cs != [] {
      if Holds(cs[0], s, author) {
        RunGateSpec(cs[1..], s, author);
        if RunGate(cs, s, author) != Done {
          var i :| FirstFailure(cs[1..], i, s, author) && RunGate(cs[1..], s, author) == Stop(cs[1..][i], s, author);
          assert FirstFailure(cs, i + 1, s, author);
        } else {
          forall i | 0 <= i < |cs| ensures Holds(cs[i], s, author) {
            if i > 0 { assert cs[i] == cs[1..][i - 1]; }
          }
        }
      } else {
        assert FirstFailure(cs, 0, s, author);
      }
    }
  }

  /** The check that must pass before `c` so that `c`'s assumption holds. */
  function Prerequisite(c: Check): Option<Check> {
    match c
    case ActiveGame => None
    case ActiveVoting => None
    case NotYetVoted => Some(ActiveVoting)
    case InGame => Some(ActiveGame)
    case Moderator => Some(ActiveGame)
    case AuthorAlive => Some(InGame)
  }

  /** Once a check's prerequisite passed, the check's own assumption holds. */
  lemma PrerequisiteEstablishes(c: Check, s: Session, author: UserId)
    requires Prerequisite(c).Some? && Holds(Prerequisite(c).value, s, author)
    ensures Assumes(c, s, author)
  {
  }

  /** Every check in the list comes after its prerequisite. */
  predicate WellOrdered(cs: seq<Check>) {
    forall i | 0 <= i < |cs| && Prerequisite(cs[i]).Some? :: Prerequisite(cs[i]).value in cs[..i]
  }

  /** A command whose checks are well ordered never panics in its checks. */
  lemma WellOrderedNeverPanics(cs: seq<Check>, s: Session, author: UserId)
    requires WellOrdered(cs)
    ensures RunGate(cs, s, author) != Panicked
  {
    RunGateSpec(cs, s, author);
    if RunGate(cs, s, author) != Done {
      var i :| FirstFailure(cs, i, s, author) && RunGate(cs, s, author) == Stop(cs[i], s, author);
      var p := Prerequisite(cs[i]);
      if p.Some? {
        var j :| 0 <= j < i && cs[j] == p.value;
        assert Holds(cs[j], s, author);
        PrerequisiteEstablishes(cs[i], s, author);
      }
    }
  }

  /** Running a list of checks: its first check, then the rest. */
  lemma GateStep(c: Check, rest: seq<Check>, s: Session, author: UserId)
    ensures RunGate([c] + rest, s, author) ==
              if Holds(c, s, author) then RunGate(rest, s, author) else Stop(c, s, author)
  {
    assert ([c] + rest)[1..] == rest;
  }

  /** The check lists the commands declare, in their declared order. */
  const ModeratorChecks: seq<Check> := [ActiveGame, Moderator]
  const VoteChecks: seq<Check> := [ActiveGame, ActiveVoting, InGame, NotYetVoted, AuthorAlive]
  const EndVotingChecks: seq<Check> := [ActiveVoting, ActiveGame, Moderator]
  const RemoveUserChecks: seq<Check> := [Moderator, ActiveGame]

  /** The check lists whose order rules out a panic in the checks. */
  lemma DeclaredOrdersAreSafe()
    ensures WellOrdered(ModeratorChecks)
    ensures WellOrdered(VoteChecks)
    ensures WellOrdered(EndVotingChecks)
    ensures WellOrdered([ActiveGame])
  {
    assert VoteChecks[..2] == [ActiveGame, ActiveVoting];
    assert VoteChecks[..3] == [ActiveGame, ActiveVoting, InGame];
    assert VoteChecks[..4] == [ActiveGame, ActiveVoting, InGame, NotYetVoted];
    assert EndVotingChecks[..2] == [ActiveVoting, ActiveGame];
    assert ModeratorChecks[..1] == [ActiveGame];
  }

  /** Checks for a running game, then that the author moderates it. */
  function ModeratorGate(s: Session, author: UserId): (r: CmdRet)
    reads s, s.game
    ensures r == if s.game == null then Failed(NoActiveGame)
                 else if s.game.moderator != author then Failed(NotModerator)
                 else Done
  {
    GateStep(ActiveGame, [Moderator], s, author);
    GateStep(Moderator, [], s, author);
    RunGate(ModeratorChecks, s, author)
  }

  /** The checks of the vote command, in their order. */
  function VoteGate(s: Session, author: UserId): (r: CmdRet)
    reads s, s.game
    ensures r == if s.game == null then Failed(NoActiveGame)
                 else if s.voting.None? then Failed(NoActiveVoting)
                 else if author !in s.game.members then Failed(NotJoined)
                 else if author in s.voting.value.ballots then Failed(AlreadyVoted)
                 else if Eliminated(s.game.members[author]) then Failed(AuthorEliminated)
                 else Done
  {
    GateStep(ActiveGame, [ActiveVoting, InGame, NotYetVoted, AuthorAlive], s, author);
    GateStep(ActiveVoting, [InGame, NotYetVoted, AuthorAlive], s, author);
    GateStep(InGame, [NotYetVoted, AuthorAlive], s, author);
    GateStep(NotYetVoted, [AuthorAlive], s, author);
    GateStep(AuthorAlive, [], s, author);
    RunGate(VoteChecks, s, author)
  }

  /** The checks of end-voting: open round, running game, moderator. */
  function EndVotingGate(s: Session, author: UserId): (r: CmdRet)
    reads s, s.game
    ensures r == if s.voting.None? then Failed(NoActiveVoting)
                 else if s.game == null then Failed(NoActiveGame)
                 else if s.game.moderator != author then Failed(NotModerator)
                 else Done
  {
    GateStep(ActiveVoting, [ActiveGame, Moderator], s, author);
    GateStep(ActiveGame, [Moderator], s, author);
    GateStep(Moderator, [], s, author);
    RunGate(EndVotingChecks, s, author)
  }

  /**
   * The checks of remove-user as declared: the moderator check comes first
   * and expects a running game.
   */
  function RemoveUserGate(s: Session, author: UserId): (r: CmdRet)
    reads s, s.game
    ensures r == if s.game == null then Panicked
                 else if s.game.moderator != author then Failed(NotModerator)
                 else Done
  {
    GateStep(Moderator, [ActiveGame], s, author);
    GateStep(ActiveGame, [], s, author);
    RunGate(RemoveUserChecks, s, author)
  }

  /** With no game running, remove-user panics instead of reporting that no game runs. */
  lemma RemoveUserGatePanicsWithoutGame(s: Session, author: UserId)
    requires s.game == null
    ensures !WellOrdered(RemoveUserChecks)
    ensures RemoveUserGate(s, author) == Panicked
    ensures ModeratorGate(s, author) == Failed(NoActiveGame)
  {
    assert RemoveUserChecks[..0] == [];
  }

  /** Whenever a game runs, the declared order and the safe order agree. */
  lemma RemoveUserGateAgreesWithGame(s: Session, author: UserId)
    requires s.game != null
    ensures RemoveUserGate(s, author) == ModeratorGate(s, author)
  {
  }
}
