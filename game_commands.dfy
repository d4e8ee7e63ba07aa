/**
 * The game commands (src/commands/game.rs): start or override a game, add
 * and remove players, show the roster, end the game. The yes/no prompt is
 * the `answer` parameter; the platform role check is `hasModRole`.
 */
module GameCommands {
  import opened Outcomes
  import opened GameState
  import opened Data
  import opened Checks

  /** Lives a player gets when add-user names no amount. */
  const DefaultLives := 3

  /**
   * Puts a fresh game with an empty roster in the game slot and clears the
   * voting slot: a round never outlives the game it was opened in.
   */
  method CreateNewGame(s: Session, invoker: UserId, moderator: UserId)
    modifies s
    ensures fresh(s.game)
    ensures s.game.creator == invoker && s.game.moderator == moderator && s.game.members == map[]
    ensures s.voting == None
  {
    s.game := new Game(invoker, moderator);
    s.voting := None;
  }

  /**
   * start-game: with no game running a new one starts at once; over a running
   * game only a "yes" to the override prompt replaces it, and "no" or a
   * timeout leaves both slots, and the running game's roster, as they were.
   */
  method StartGame(s: Session, invoker: UserId, moderator: UserId, hasModRole: bool, answer: Answer)
    returns (r: CmdRet)
    modifies s
    ensures r == if hasModRole then Done else Failed(MissingModRole)
    ensures hasModRole && (old(s.game) == null || answer == Yes) ==>
              && fresh(s.game)
              && s.game.creator == invoker && s.game.moderator == moderator && s.game.members == map[]
              && s.voting == None
    ensures !(hasModRole && (old(s.game) == null || answer == Yes)) ==>
              s.game == old(s.game) && s.voting == old(s.voting)
    ensures old(s.game) != null ==> unchanged(old(s.game))
  {
    if !hasModRole {
      return Failed(MissingModRole);
    }
    if s.game == null || answer == Yes {
      CreateNewGame(s, invoker, moderator);
    }
    r := Done;
  }

  /**
   * add-user: the moderator enrols a player with the given lives, three when
   * none are given; a player already enrolled is refused and nothing changes.
   */
  method AddUser(s: Session, author: UserId, member: UserId, lives: Option<int>) returns (r: CmdRet)
    modifies s.game
    ensures old(ModeratorGate(s, author)) != Done ==> r == old(ModeratorGate(s, author))
    ensures old(ModeratorGate(s, author)) == Done && member in old(s.game.members) ==>
              r == Failed(Player(PlayerAlreadyAdded(member)))
    ensures old(ModeratorGate(s, author)) == Done && member !in old(s.game.members) ==>
              r == Done && s.game.members == old(s.game.members)[member := lives.GetOr(DefaultLives)]
    ensures r != Done && s.game != null ==> s.game.members == old(s.game.members)
  {
    r := ModeratorGate(s, author);
    if r != Done {
      return;
    }
    if s.game.ContainsPlayer(member) {
      return Failed(Player(PlayerAlreadyAdded(member)));
    }
    s.game.members := s.game.members[member := lives.GetOr(DefaultLives)];
  }

  /**
   * remove-user, with its checks in their declared order: without a running
   * game the moderator check panics. Otherwise the moderator removes exactly
   * one enrolled player; a player not enrolled is refused.
   */
  method RemoveUser(s: Session, author: UserId, member: UserId) returns (r: CmdRet)
    modifies s.game
    ensures old(s.game) == null ==> r == Panicked
    ensures old(RemoveUserGate(s, author)) == Failed(NotModerator) ==> r == Failed(NotModerator)
    ensures old(RemoveUserGate(s, author)) == Done && member !in old(s.game.members) ==>
              r == Failed(Player(PlayerNotInGame(member)))
    ensures old(RemoveUserGate(s, author)) == Done && member in old(s.game.members) ==>
              r == Done && s.game.members == old(s.game.members) - {member}
    ensures r != Done && s.game != null ==> s.game.members == old(s.game.members)
  {
    r := RemoveUserGate(s, author);
    if r != Done {
      return;
    }
    if !s.game.ContainsPlayer(member) {
      return Failed(Player(PlayerNotInGame(member)));
    }
    s.game.members := s.game.members - {member};
  }

  /**
   * remove-user with its checks in the safe order, running game first: with
   * no game it reports that no game runs, and it never panics.
   */
  method RemoveMember(s: Session, author: UserId, member: UserId) returns (r: CmdRet)
    modifies s.game
    ensures r != Panicked
    ensures old(ModeratorGate(s, author)) != Done ==> r == old(ModeratorGate(s, author))
    ensures old(ModeratorGate(s, author)) == Done && member !in old(s.game.members) ==>
              r == Failed(Player(PlayerNotInGame(member)))
    ensures old(ModeratorGate(s, author)) == Done && member in old(s.game.members) ==>
              r == Done && s.game.members == old(s.game.members) - {member}
    ensures r != Done && s.game != null ==> s.game.members == old(s.game.members)
  {
    r := ModeratorGate(s, author);
    if r != Done {
      return;
    }
    if !s.game.ContainsPlayer(member) {
      return Failed(Player(PlayerNotInGame(member)));
    }
    s.game.members := s.game.members - {member};
  }

  /**
   * end-game: only a "yes" empties the game slot; the voting slot is left as
   * it was, even when a round is open.
   */
  method EndGame(s: Session, author: UserId, hasModRole: bool, answer: Answer) returns (r: CmdRet)
    modifies s
    ensures !hasModRole ==> r == Failed(MissingModRole)
    ensures hasModRole ==> r == old(NeedsActiveGame(s))
    ensures s.game == if r == Done && answer == Yes then null else old(s.game)
    ensures s.voting == old(s.voting)
    ensures old(s.game) != null ==> unchanged(old(s.game))
  {
    if !hasModRole {
      return Failed(MissingModRole);
    }
    r := NeedsActiveGame(s);
    if r != Done {
      return;
    }
    if answer == Yes {
      s.game := null;
    }
  }

  /**
   * How show-game draws a player: struck through only at exactly zero lives,
   * which is the eliminated players who are not below zero.
   */
  predicate ShownCrossedOut(lives: int)
    ensures ShownCrossedOut(lives) ==> Eliminated(lives)
    ensures ShownCrossedOut(lives) <==> Eliminated(lives) && lives >= 0
  {
    lives == 0
  }

  /**
   * A player below zero lives is eliminated yet show-game draws them as
   * playing; the drawing evidently meant is struck through exactly when
   * `Eliminated`.
   */
  lemma NegativeLivesShownAsPlaying(lives: int)
    requires lives < 0
    ensures Eliminated(lives) && !ShownCrossedOut(lives)
  {
  }
}
