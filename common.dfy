/**
  Shared vocabulary of the chat server model: optional values, the
  connection and record identifiers, and the events the server emits to
  connections through the transport.
 */
module Common {

  datatype Option<T> = None | Some(value: T)

  /** The transport's opaque connection (socket) id. */
  type SocketId = string

  /**
    An id produced by the store's id generator. The source formats it as
    the string "<timestamp>-<counter>"; the model keeps the two parts.
   */
  datatype Id = Id(stamp: int, serial: nat)

  /** What the server emits to one connection. */
  datatype Event =
    | Waiting(to: SocketId)
    | Matched(to: SocketId, conversationId: Id, partnerId: SocketId)
    | PairingError(to: SocketId)
    | PartnerDisconnected(to: SocketId)
    | ConversationTimeout(to: SocketId, conversationId: Id)

  /** The per-connection presence recorded in the server's socket store. */
  datatype UserState = WaitingState | MatchedState

  predicate Distinct<T(==)>(s: seq<T>)
  {
    forall i, j :: 0 <= i < j < |s| ==> s[i] != s[j]
  }
}
