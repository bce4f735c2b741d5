/** Vocabulary shared by every generation of the chat server. */
module Common {

  datatype Option<T> = None | Some(value: T)

  /** An abstract clock reading: the instant `new Date()` yields during one step. */
  type Time = nat

  /** An abstract timer handle: the value `setTimeout` hands back. */
  type Handle = nat

  /** Where socket.io delivers an emitted event. */
  datatype Target =
    | ToSocket(socketId: string)  // socket.emit(...)
    | ToRoom(roomId: string)      // io.to(roomId).emit(...)
    | ToAll                       // io.emit(...)

  /** One outbound event, recorded in the order the server emits it. */
  datatype Emit<P> = Emit(target: Target, name: string, payload: P)
}
