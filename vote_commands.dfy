/**
 * The voting commands (src/commands/vote.rs): open or override a round, cast
 * a ballot, and close the round, taking one life from a clear winner.
 */
module VoteCommands {
  import opened Outcomes
  import opened GameState
  import opened Data
  import opened Checks
  import opened VoteTally
  import GameCommands

  /** Opens a round with no ballots; the game slot is not touched. */
  method CreateNewVote(s: Session, creator: UserId)
    modifies s
    ensures s.voting == Some(Voting(creator, map[]))
    ensures s.game == old(s.game)
  {
    s.voting := Some(Voting(creator, map[]));
  }

  /**
   * start-voting: the moderator of the running game opens a round at once
   * when none is open; over an open round only a "yes" to the override
   * prompt replaces it, and "no" or a timeout keeps its ballots.
   */
  method StartVoting(s: Session, invoker: UserId, answer: Answer) returns (r: CmdRet)
    modifies s
    ensures r == old(ModeratorGate(s, invoker))
    ensures r == Done && (old(s.voting).None? || answer == Yes) ==> s.voting == Some(Voting(invoker, map[]))
    ensures !(r == Done && (old(s.voting).None? || answer == Yes)) ==> s.voting == old(s.voting)
    ensures s.game == old(s.game)
  {
    r := ModeratorGate(s, invoker);
    if r != Done {
      return;
    }
    if s.voting.None? || answer == Yes {
      CreateNewVote(s, invoker);
    }
  }

  /**
   * Whether `nominee` may receive a ballot: a player with lives left. The
   * voter is not looked at, so players may nominate themselves.
   */
  function NominationCheck(members: map<UserId, int>, nominee: UserId): (r: CmdRet)
    ensures r == Done <==> nominee in members && !Eliminated(members[nominee])
    ensures r == Failed(NomineeEliminated(nominee)) <==> nominee in members && Eliminated(members[nominee])
    ensures r == Failed(Player(PlayerNotInGame(nominee))) <==> nominee !in members
  {
    if nominee in members && members[nominee] <= 0 then Failed(NomineeEliminated(nominee))
    else if nominee !in members then Failed(Player(PlayerNotInGame(nominee)))
    else Done
  }

  /** Any player who may vote may nominate themselves. */
  lemma SelfNominationAccepted(s: Session, author: UserId)
    requires VoteGate(s, author) == Done
    ensures s.game != null && NominationCheck(s.game.members, author) == Done
  {
  }

  /**
   * vote: after the checks of the command, records the author's ballot for a
   * nominee who is a player with lives left. A rejected ballot records
   * nothing; the roster is never changed.
   */
  method Vote(s: Session, author: UserId, nominee: UserId) returns (r: CmdRet)
    modifies s
    ensures s.game == old(s.game)
    ensures old(VoteGate(s, author)) != Done ==> r == old(VoteGate(s, author))
    ensures old(VoteGate(s, author)) == Done ==> r == NominationCheck(s.game.members, nominee)
    ensures r == Done ==>
              && old(s.voting).Some?
              && s.voting == Some(old(s.voting).value.(ballots := old(s.voting).value.ballots[author := nominee]))
    ensures r != Done ==> s.voting == old(s.voting)
  {
    r := VoteGate(s, author);
    if r != Done {
      return;
    }
    r := NominationCheck(s.game.members, nominee);
    if r != Done {
      return;
    }
    var voting := s.voting.value;
    s.voting := Some(voting.(ballots := voting.ballots[author := nominee]));
  }

  /**
   * Striking a player through once `Eliminated` marks exactly the enrolled
   * players no ballot may name; show-game's zero-only drawing marks some of
   * them, never a player who may still be named.
   */
  lemma EliminatedMatchesNomination(members: map<UserId, int>, player: UserId)
    requires player in members
    ensures Eliminated(members[player]) <==> NominationCheck(members, player) != Done
    ensures GameCommands.ShownCrossedOut(members[player]) ==> NominationCheck(members, player) != Done
  {
  }

  /** A ballot, once recorded, cannot be replaced: a second vote is refused. */
  lemma SecondVoteRefused(s: Session, author: UserId)
    requires s.voting.Some? && author in s.voting.value.ballots
    ensures VoteGate(s, author) != Done
  {
  }

  /**
   * end-voting: counts the ballots and decides the round. A clear winner
   * loses exactly one life and a tie changes no lives; either way the round
   * is closed. No ballots at all panics (the maximum of no counts is
   * unwrapped), and so does a winner who has left the roster since; a panic
   * changes nothing. `eliminated` tells whether the winner is now out.
   */
  method EndVoting(s: Session, author: UserId) returns (r: CmdRet, outcome: Option<VoteOutcome>, eliminated: bool)
    modifies s, s.game
    ensures s.game == old(s.game)
    ensures old(EndVotingGate(s, author)) != Done ==>
              r == old(EndVotingGate(s, author)) && outcome == None && s.voting == old(s.voting)
    ensures old(EndVotingGate(s, author)) == Done && Tally(old(s.voting).value.ballots) == map[] ==>
              r == Panicked && outcome == None && s.voting == old(s.voting)
    ensures old(EndVotingGate(s, author)) == Done && Tally(old(s.voting).value.ballots) != map[] ==>
              outcome == Some(EvaluateVotes(Tally(old(s.voting).value.ballots)))
    ensures outcome.Some? && outcome.value.ClearWinner? && outcome.value.user in old(s.game.members) ==>
              && r == Done && s.voting == None
              && s.game.members == old(s.game.members)[outcome.value.user := old(s.game.members)[outcome.value.user] - 1]
              && eliminated == Eliminated(s.game.members[outcome.value.user])
    ensures outcome.Some? && outcome.value.ClearWinner? && outcome.value.user !in old(s.game.members) ==>
              r == Panicked && s.voting == old(s.voting)
    ensures outcome.Some? && outcome.value.NoClearWinner? ==> r == Done && s.voting == None && !eliminated
    ensures r != Done ==> s.game == null || s.game.members == old(s.game.members)
    ensures outcome.Some? && outcome.value.NoClearWinner? ==> s.game.members == old(s.game.members)
  {
    outcome, eliminated := None, false;
    r := EndVotingGate(s, author);
    if r != Done {
      return;
    }
    var votes := CountVotes(s.voting.value.ballots);
    if votes == map[] {
      return Panicked, None, false;
    }
    var decision := EvaluateVotes(votes);
    outcome := Some(decision);
    if decision.ClearWinner? {
      var user := decision.user;
      if user !in s.game.members {
        return Panicked, outcome, false;
      }
      s.game.members := s.game.members[user := s.game.members[user] - 1];
      eliminated := s.game.members[user] <= 0;
    }
    s.voting := None;
  }
}
