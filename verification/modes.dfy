/** The interaction mode: "play" routes pointer drags to the players,
    "draw" routes pointer events to the free-draw stroke recorder. */
module Modes {
  datatype Mode = Play | Draw
}
