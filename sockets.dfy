/** Connections of the `ws` library, shared by the gateway and the relayer. */
module Sockets {

  /** A WebSocket connection, compared by identity (`!=` / `!==` on the socket object). */
  type SocketId = nat

  /** The raw bytes of one WebSocket message. */
  type Bytes = seq<bv8>
}
