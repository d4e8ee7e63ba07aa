/**
 * The set-lives command (src/commands/set_lives.rs): the moderator of the
 * running game sets a lives count, stored as given with no clamping.
 */
module SetLivesCommand {
  import opened Outcomes
  import opened GameState
  import opened Data
  import opened Checks

  /**
   * set-lives as written: the amount goes to the command's author, not to the
   * named `member`, whose lives stay as they were. An author who is not a
   * player gets the not-in-game error and nothing changes.
   */
  method SetLives(s: Session, author: UserId, member: UserId, amount: int) returns (r: CmdRet)
    modifies s.game
    ensures old(ModeratorGate(s, author)) != Done ==> r == old(ModeratorGate(s, author))
    ensures old(ModeratorGate(s, author)) == Done && author !in old(s.game.members) ==>
              r == Failed(Player(PlayerNotInGame(author))) && s.game.members == old(s.game.members)
    ensures old(ModeratorGate(s, author)) == Done && author in old(s.game.members) ==>
              r == Done && s.game.members == old(s.game.members)[author := amount]
    ensures s.game != null && member != author && member in old(s.game.members) ==>
              member in s.game.members && s.game.members[member] == old(s.game.members)[member]
    ensures r != Done && s.game != null ==> s.game.members == old(s.game.members)
  {
    r := ModeratorGate(s, author);
    if r != Done {
      return;
    }
    var stored := s.game.SetPlayerHealth(author, amount);
    if stored.Err? {
      return Failed(Player(stored.error));
    }
    assert s.game.members == old(s.game.members)[author := amount];
  }

  /**
   * set-lives as its reply describes it: the amount goes to the named
   * `member`, every other player keeps their lives.
   */
  method SetMemberLives(s: Session, author: UserId, member: UserId, amount: int) returns (r: CmdRet)
    modifies s.game
    ensures old(ModeratorGate(s, author)) != Done ==> r == old(ModeratorGate(s, author))
    ensures old(ModeratorGate(s, author)) == Done && member !in old(s.game.members) ==>
              r == Failed(Player(PlayerNotInGame(member))) && s.game.members == old(s.game.members)
    ensures old(ModeratorGate(s, author)) == Done && member in old(s.game.members) ==>
              r == Done && s.game.members == old(s.game.members)[member := amount]
    ensures r != Done && s.game != null ==> s.game.members == old(s.game.members)
  {
    r := ModeratorGate(s, author);
    if r != Done {
      return;
    }
    var stored := s.game.SetPlayerHealth(member, amount);
    if stored.Err? {
      return Failed(Player(stored.error));
    }
    assert s.game.members == old(s.game.members)[member := amount];
  }
}
