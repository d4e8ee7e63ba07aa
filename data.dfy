/**
 * The bot's shared state (src/data.rs): one slot for the running game and
 * one for the open voting round, both empty when the bot starts.
 */
module Data {
  import opened Outcomes
  import opened GameState

  /** How the invoker answers a yes/no confirmation prompt. */
  datatype Answer = Yes | No | Timeout

  class Session {
    var game: Game?
    var voting: Option<Voting>

    constructor ()
      ensures game == null && voting == None
    {
      game := null;
      voting := None;
    }
  }
}
