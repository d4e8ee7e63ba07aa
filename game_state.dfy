/**
 * The game record of the bot (src/game.rs): a roster mapping each player to
 * the lives they have left, the player errors, and the voting record.
 */
module GameState {
  import opened Outcomes

  /** A platform user id; the model never looks inside it. */
  type UserId(==)

  /** The two ways a roster operation can fail, each naming the player. */
  datatype PlayerError =
    | PlayerAlreadyAdded(id: UserId)
    | PlayerNotInGame(id: UserId)

  /** A player counts as eliminated once their lives drop to zero or below. */
  predicate Eliminated(lives: int) {
    lives <= 0
  }

  /** The running game: who created it, who moderates it, and the roster. */
  class Game {
    const creator: UserId
    const moderator: UserId
    var members: map<UserId, int>

    constructor (creator: UserId, moderator: UserId)
      ensures this.creator == creator && this.moderator == moderator
      ensures members == map[]
    {
      this.creator := creator;
      this.moderator := moderator;
      members := map[];
    }

    /** Whether `player` is enrolled in this game. */
    predicate ContainsPlayer(player: UserId)
      reads this
      ensures ContainsPlayer(player) <==> player in members
    {
      player in members
    }

    /** Enrols `player` with `health` lives; refuses a player already enrolled. */
    method AddPlayer(player: UserId, health: int) returns (r: Outcome<PlayerError>)
      modifies this
      ensures r == Err(PlayerAlreadyAdded(player)) <==> player in old(members)
      ensures r == Ok <==> player !in old(members)
      ensures members == if player in old(members) then old(members) else old(members)[player := health]
    {
      if player in members {
        return Err(PlayerAlreadyAdded(player));
      }
      members := members[player := health];
      r := Ok;
    }

    /** Drops `player` from the roster; refuses a player who is not enrolled. */
    method RemovePlayer(player: UserId) returns (r: Outcome<PlayerError>)
      modifies this
      ensures r == Ok <==> player in old(members)
      ensures r == Err(PlayerNotInGame(player)) <==> player !in old(members)
      ensures members.Keys == old(members).Keys - {player}
      ensures forall p | p in members :: members[p] == old(members)[p]
    {
      if player !in members {
        return Err(PlayerNotInGame(player));
      }
      members := members - {player};
      r := Ok;
    }

    /**
     * Overwrites the lives of an enrolled player with any amount (zero and
     * negative included); never inserts a new key.
     */
    method SetPlayerHealth(player: UserId, health: int) returns (r: Outcome<PlayerError>)
      modifies this
      ensures r == Ok <==> player in old(members)
      ensures r == Err(PlayerNotInGame(player)) <==> player !in old(members)
      ensures members.Keys == old(members).Keys
      ensures player in members ==> members[player] == health
      ensures forall p | p in members && p != player :: members[p] == old(members)[p]
    {
      if player !in members {
        return Err(PlayerNotInGame(player));
      }
      members := members[player := health];
      r := Ok;
    }
  }

  /**
   * Adding a fresh player and then removing them gives back the roster the
   * game started with, whatever the lives the player was given.
   */
  method AddThenRemove(game: Game, player: UserId, health: int)
    requires !game.ContainsPlayer(player)
    modifies game
    ensures game.members == old(game.members)
  {
    var added := game.AddPlayer(player, health);
    assert added == Ok;
    var removed := game.RemovePlayer(player);
    assert removed == Ok;
  }

  /** An open voting round: who opened it, and each voter's nominee. */
  datatype Voting = Voting(creator: UserId, ballots: map<UserId, UserId>)
}
