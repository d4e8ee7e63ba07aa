/**
 * A whole round of play driven through the commands: a moderator starts a
 * game and enrols three players, then two of them vote the third out of a
 * life.
 */
module Scenario {
  import opened Outcomes
  import opened GameState
  import opened Data
  import opened Checks
  import opened VoteTally
  import opened GameCommands
  import opened VoteCommands

  /** A new session in which `moderator` runs a game of three players with three lives each. */
  method EnrolThree(moderator: UserId, a: UserId, b: UserId, c: UserId) returns (s: Session)
    ensures fresh(s) && fresh(s.game)
    ensures s.game.moderator == moderator && s.game.members == map[a := 3, b := 3, c := 3]
    ensures s.voting == None
  {
    s := new Session();
    var r := StartGame(s, moderator, moderator, true, Timeout);
    assert s.game.members == map[];
    r := AddUser(s, moderator, a, None);
    assert r == Done;
    r := AddUser(s, moderator, b, None);
    r := AddUser(s, moderator, c, Some(3));
    assert s.game.members == map[a := 3, b := 3, c := 3];
  }

  /** `a` and `b` both vote for `c`; a second ballot from `a` is refused. */
  method CastBallots(s: Session, moderator: UserId, a: UserId, b: UserId, c: UserId)
    requires s.game != null && s.game.moderator == moderator
    requires s.game.members == map[a := 3, b := 3, c := 3] && s.voting == None
    requires a != b && b != c && a != c
    modifies s
    ensures s.game == old(s.game)
    ensures s.voting == Some(Voting(moderator, map[a := c, b := c]))
  {
    var r := StartVoting(s, moderator, Timeout);
    assert s.voting == Some(Voting(moderator, map[]));
    r := Vote(s, a, c);
    assert r == Done;
    r := Vote(s, a, b);
    assert r == Failed(AlreadyVoted);
    r := Vote(s, b, c);
    assert r == Done;
  }

  /** Closing the round finds `c` the clear winner with two votes and takes one of their lives. */
  method CloseRound(s: Session, moderator: UserId, a: UserId, b: UserId, c: UserId)
    requires s.game != null && s.game.moderator == moderator
    requires s.game.members == map[a := 3, b := 3, c := 3]
    requires s.voting == Some(Voting(moderator, map[a := c, b := c]))
    requires a != b && b != c && a != c
    modifies s, s.game
    ensures s.game == old(s.game) && s.voting == None
    ensures s.game.members == map[a := 3, b := 3, c := 2]
  {
    UnanimousExample(a, b, c);
    var r, outcome, eliminated := EndVoting(s, moderator);
    assert outcome == Some(ClearWinner(c, 2));
  }

  method OneRound(moderator: UserId, a: UserId, b: UserId, c: UserId)
    requires a != b && b != c && a != c
  {
    var s := EnrolThree(moderator, a, b, c);
    CastBallots(s, moderator, a, b, c);
    CloseRound(s, moderator, a, b, c);
    assert s.game.members[c] == 2;
  }
}
