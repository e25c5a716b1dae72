/** Loading the saved player list at start-up. Reading the stored text and
    parsing it are done by the host; this is the fallback rule around them. */
module Persistence {
  import opened Wrappers
  import opened Players

  /** The fixed storage key of the player snapshot. */
  const StorageKey: string := "sketch_players_v1"

  /** `stored` is what the store holds under the key (None when the key is
      missing); `parsed` is the parser's outcome on that text (None when it
      throws). A missing or empty entry, or one that does not parse, gives an
      empty registry. */
  function LoadPlayers(stored: Option<string>, parsed: Option<seq<Player>>): (ps: seq<Player>)
    ensures (stored.None? || stored.value == [] || parsed.None?) ==> ps == []
    ensures stored.Some? && stored.value != [] && parsed.Some? ==> ps == parsed.value
  {
    match stored
    case None => []
    case Some(raw) => if raw == [] then [] else parsed.GetOr([])
  }
}
