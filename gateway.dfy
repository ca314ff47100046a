/**
 * What the engine sends back: HTTP replies for the REST routes, and socket events,
 * each recorded with the socket that caused it and its target (the caller alone,
 * the caller's room without the caller, or the whole room).
 */
module Gateway {
  import opened Schema

  /** A socket.io connection id. */
  type SocketId = string

  /** An HTTP reply: a JSON body, or a status code with an error message. */
  datatype Reply<T> = Ok(body: T) | Fail(status: nat, error: string)

  datatype Target =
    | Caller                              // socket.emit
    | WholeRoom(roomId: RoomId)           // io.to(roomId).emit
    | RoomExceptCaller(roomId: RoomId)    // socket.to(roomId).emit

  datatype Event =
    | Error(message: string)
    | RoomJoined(roomId: RoomId)
    | UserJoined(user: User)
    | UserLeft(user: User)
    | AdminChanged(newAdminId: UserId)
    | VoteStarted(id: VoteId, name: string, startedBy: UserId)
    | VoteSubmitted(userId: UserId)
    | VotesRevealed(voteId: VoteId, responses: seq<ResponseView>)

  datatype Emit = Emit(from: SocketId, target: Target, event: Event)

  /** The sockets an emit reaches, given which sockets have joined which room. */
  function Recipients(groups: set<(SocketId, RoomId)>, e: Emit): (r: set<SocketId>)
    ensures e.target.Caller? ==> r == {e.from}
    ensures e.target.RoomExceptCaller? ==> e.from !in r
    ensures !e.target.Caller? ==> forall s :: s in r ==> (s, e.target.roomId) in groups
    ensures !e.target.Caller? ==>
              forall s :: (s, e.target.roomId) in groups && (s != e.from || e.target.WholeRoom?) ==> s in r
  {
    match e.target
    case Caller => {e.from}
    case WholeRoom(room) => set g | g in groups && g.1 == room :: g.0
    case RoomExceptCaller(room) => set g | g in groups && g.1 == room && g.0 != e.from :: g.0
  }

  /** The vote values an event puts on the wire. */
  function Disclosed(ev: Event): (values: set<string>)
    ensures values != {} ==> ev.VotesRevealed? && forall v :: v in values ==> exists x :: x in ev.responses && x.value == v
  {
    if ev.VotesRevealed? then set x | x in ev.responses :: x.value else {}
  }
}
