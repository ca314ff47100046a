/**
 * The planning-poker server: the database handle, the live-connection map
 * `activeUsers`, the socket.io rooms each socket has joined, and one method per
 * REST route and socket command. Every handler runs to completion as one
 * synchronous sequence of statements; what it sends is appended to `outbox`.
 */
module PokerServer {
  import opened Wrappers
  import opened Tables
  import opened Schema
  import opened Gateway
  import opened Queries

  /** An entry of `activeUsers`: the user id the socket claimed, the room it joined,
      and the user row read when it joined. */
  datatype Presence = Presence(userId: UserId, roomId: RoomId, user: User)

  /** The body of a successful POST /api/rooms. */
  datatype CreatedRoom = CreatedRoom(id: RoomId, name: string, adminId: UserId)

  /** A request field JavaScript reads as falsy: absent or empty. */
  predicate Missing(field: string) { field == "" }

  class Server {
    var db: Db
    /** socket id -> { userId, roomId, user } */
    var activeUsers: map<SocketId, Presence>
    /** (socket, room) for each socket.io room a socket has joined. */
    var groups: set<(SocketId, RoomId)>
    var clock: Time
    /** Every event emitted so far, in order. */
    var outbox: seq<Emit>

    ghost predicate Valid()
      reads this
    {
      Consistent(db, clock)
    }

    /** A server over freshly created, empty tables. */
    constructor ()
      ensures Valid()
      ensures db == Db([], [], [], [], []) && activeUsers == map[] && groups == {} && outbox == []
    {
      db := Db([], [], [], [], []);
      activeUsers := map[];
      groups := {};
      clock := 0;
      outbox := [];
    }

    /** Reads CURRENT_TIMESTAMP: the current tick, after which the clock moves on. */
    method Tick() returns (now: Time)
      modifies this`clock
      ensures now == old(clock) && clock == old(clock) + 1
    {
      now := clock;
      clock := clock + 1;
    }

    /** POST /api/rooms { userId, roomName, userName, userEmail }, with room code
        RoomCode(draw). The user row is written before the room insert can fail. */
    method CreateRoom(userId: UserId, roomName: string, userName: string, userEmail: string, draw: nat)
      returns (reply: Reply<CreatedRoom>)
      requires Valid()
      requires draw < 900
      modifies this`db, this`clock
      ensures Valid()
      ensures Missing(userId) || Missing(roomName) || Missing(userName) || Missing(userEmail) ==>
                reply == Fail(400, "User ID, room name, user name, and email are required")
                && db == old(db) && clock == old(clock)
      ensures !(Missing(userId) || Missing(roomName) || Missing(userName) || Missing(userEmail)) ==>
                && clock == old(clock) + 1
                && db.users == UpsertUser(old(db).users, userId, userEmail, userName, old(clock))
                && db.votes == old(db).votes && db.responses == old(db).responses
                && (reply.Fail? <==> HasRoom(old(db).rooms, RoomCode(draw)))
      ensures !(Missing(userId) || Missing(roomName) || Missing(userName) || Missing(userEmail))
              && HasRoom(old(db).rooms, RoomCode(draw)) ==>
                reply == Fail(500, "Database error")
                && db.rooms == old(db).rooms && db.participants == old(db).participants
      ensures reply.Ok? ==>
                && reply.body == CreatedRoom(RoomCode(draw), roomName, userId)
                && db.rooms == old(db).rooms + [Room(RoomCode(draw), roomName, userId, userId, old(clock))]
                && db.participants == old(db).participants + [Participant(RoomCode(draw), userId, old(clock))]
    {
      if Missing(userId) || Missing(roomName) || Missing(userName) || Missing(userEmail) {
        return Fail(400, "User ID, room name, user name, and email are required");
      }
      var roomId := RoomCode(draw);
      UpsertUserKeepsConsistent(db, clock, userId, userEmail, userName);
      var now := Tick();
      db := db.(users := UpsertUser(db.users, userId, userEmail, userName, now));
      reply := AddRoom(Room(roomId, roomName, userId, userId, now));
    }

    /** The writes of POST /api/rooms after the user upsert, stamped `room.createdAt`:
        the room, then its creator's membership. */
    method AddRoom(room: Room) returns (reply: Reply<CreatedRoom>)
      requires Consistent(db, room.createdAt) && clock == room.createdAt + 1
      modifies this`db
      ensures Valid()
      ensures db.users == old(db).users && db.votes == old(db).votes && db.responses == old(db).responses
      ensures reply.Fail? <==> HasRoom(old(db).rooms, room.id)
      ensures reply.Fail? ==> reply == Fail(500, "Database error") && db == old(db)
      ensures reply.Ok? ==>
                && reply.body == CreatedRoom(room.id, room.name, room.creatorId)
                && db.rooms == old(db).rooms + [room]
                && db.participants == old(db).participants + [Participant(room.id, room.creatorId, room.createdAt)]
    {
      var rooms := InsertRoom(db.rooms, room);
      if rooms.None? {
        return Fail(500, "Database error");
      }
      NewRoomKeepsConsistent(db, room.createdAt, room);
      db := db.(rooms := rooms.value);
      // The room is new and every membership refers to an existing room, so this
      // plain INSERT cannot clash.
      var members := InsertMember(db.participants, room.id, room.creatorId, room.createdAt);
      db := db.(participants := members.value);
      reply := Ok(CreatedRoom(room.id, room.name, room.creatorId));
    }

    /** POST /api/rooms/:roomId/join { userId, userName, userEmail }. The user row is
        written even when the room turns out not to exist. */
    method JoinRoom(roomId: RoomId, userId: UserId, userName: string, userEmail: string)
      returns (reply: Reply<Room>)
      requires Valid()
      modifies this`db, this`clock
      ensures Valid()
      ensures Missing(userId) || Missing(userName) || Missing(userEmail) ==>
                reply == Fail(400, "User ID, name, and email are required")
                && db == old(db) && clock == old(clock)
      ensures !(Missing(userId) || Missing(userName) || Missing(userEmail)) ==>
                && clock == old(clock) + 1
                && db.users == UpsertUser(old(db).users, userId, userEmail, userName, old(clock))
                && db.rooms == old(db).rooms && db.votes == old(db).votes && db.responses == old(db).responses
                && (reply.Fail? <==> !HasRoom(old(db).rooms, roomId))
      ensures !(Missing(userId) || Missing(userName) || Missing(userEmail)) && !HasRoom(old(db).rooms, roomId) ==>
                reply == Fail(404, "Room not found") && db.participants == old(db).participants
      ensures reply.Ok? ==>
                && reply.body in db.rooms && reply.body.id == roomId
                && db.participants == InsertOrIgnoreMember(old(db).participants, roomId, userId, old(clock))
    {
      if Missing(userId) || Missing(userName) || Missing(userEmail) {
        return Fail(400, "User ID, name, and email are required");
      }
      UpsertUserKeepsConsistent(db, clock, userId, userEmail, userName);
      var now := Tick();
      db := db.(users := UpsertUser(db.users, userId, userEmail, userName, now));
      reply := EnterRoom(roomId, userId, now);
    }

    /** The rest of the join route after the user upsert: look the room up, then
        record the membership unless it exists already. */
    method EnterRoom(roomId: RoomId, userId: UserId, now: Time) returns (reply: Reply<Room>)
      requires Consistent(db, now) && clock == now + 1
      modifies this`db
      ensures Valid()
      ensures db.users == old(db).users && db.rooms == old(db).rooms
      ensures db.votes == old(db).votes && db.responses == old(db).responses
      ensures reply.Fail? <==> !HasRoom(db.rooms, roomId)
      ensures reply.Fail? ==> reply == Fail(404, "Room not found") && db.participants == old(db).participants
      ensures reply.Ok? ==>
                && reply.body in db.rooms && reply.body.id == roomId
                && db.participants == InsertOrIgnoreMember(old(db).participants, roomId, userId, now)
    {
      var room := FindRoom(db.rooms, roomId);
      if room.None? {
        return Fail(404, "Room not found");
      }
      NewMemberKeepsConsistent(db, now, roomId, userId);
      db := db.(participants := InsertOrIgnoreMember(db.participants, roomId, userId, now));
      reply := Ok(room.value);
    }

    /** socket 'join-room' { userId, roomId }: the room itself is not looked up, and
        no membership row is written. */
    method OnJoinRoom(sock: SocketId, userId: UserId, roomId: RoomId)
      requires Valid()
      modifies this`activeUsers, this`groups, this`outbox
      ensures Valid()
      ensures FindUser(db.users, userId).None? ==>
                && activeUsers == old(activeUsers) && groups == old(groups)
                && outbox == old(outbox) + [Emit(sock, Caller, Error("User not found"))]
      ensures FindUser(db.users, userId).Some? ==>
                var user := FindUser(db.users, userId).value;
                && activeUsers == old(activeUsers)[sock := Presence(userId, roomId, user)]
                && groups == old(groups) + {(sock, roomId)}
                && outbox == old(outbox) + [Emit(sock, RoomExceptCaller(roomId), UserJoined(user)),
                                            Emit(sock, Caller, RoomJoined(roomId))]
    {
      var user := FindUser(db.users, userId);
      if user.None? {
        outbox := outbox + [Emit(sock, Caller, Error("User not found"))];
        return;
      }
      groups := groups + {(sock, roomId)};
      activeUsers := activeUsers[sock := Presence(userId, roomId, user.value)];
      outbox := outbox + [Emit(sock, RoomExceptCaller(roomId), UserJoined(user.value))];
      outbox := outbox + [Emit(sock, Caller, RoomJoined(roomId))];
    }

    /** socket 'set-admin' { roomId, newAdminId, requesterId }: allowed to the room's
        admin or creator; newAdminId is not checked against the users table. */
    method OnSetAdmin(sock: SocketId, roomId: RoomId, newAdminId: UserId, requesterId: UserId)
      requires Valid()
      modifies this`db, this`outbox
      ensures Valid()
      ensures !MayAssignAdmin(old(db).rooms, roomId, requesterId) ==>
                db == old(db) && outbox == old(outbox) + [Emit(sock, Caller, Error("Not authorized to set admin"))]
      ensures MayAssignAdmin(old(db).rooms, roomId, requesterId) ==>
                && db == old(db).(rooms := UpdateAdmin(old(db).rooms, roomId, newAdminId))
                && outbox == old(outbox) + [Emit(sock, WholeRoom(roomId), AdminChanged(newAdminId))]
    {
      if !MayAssignAdmin(db.rooms, roomId, requesterId) {
        outbox := outbox + [Emit(sock, Caller, Error("Not authorized to set admin"))];
        return;
      }
      SetAdminKeepsConsistent(db, clock, roomId, newAdminId);
      db := db.(rooms := UpdateAdmin(db.rooms, roomId, newAdminId));
      outbox := outbox + [Emit(sock, WholeRoom(roomId), AdminChanged(newAdminId))];
    }

    /** socket 'start-vote' { roomId, voteName, adminId }, with `voteId` the fresh
        uuid. Only the room's current admin may start a vote; the room's votes are
        deactivated before the insert, which fails on an id already in use. */
    method OnStartVote(sock: SocketId, roomId: RoomId, voteName: string, adminId: UserId, voteId: VoteId)
      requires Valid()
      modifies this`db, this`clock, this`outbox
      ensures Valid()
      ensures !IsAdmin(old(db).rooms, roomId, adminId) ==>
                && db == old(db) && clock == old(clock)
                && outbox == old(outbox) + [Emit(sock, Caller, Error("Not authorized to start vote"))]
      ensures IsAdmin(old(db).rooms, roomId, adminId) ==>
                && clock == old(clock) + 1
                && db.users == old(db).users && db.rooms == old(db).rooms
                && db.participants == old(db).participants && db.responses == old(db).responses
      ensures IsAdmin(old(db).rooms, roomId, adminId) && (exists v :: v in old(db).votes && v.id == voteId) ==>
                && db.votes == DeactivateVotes(old(db).votes, roomId)
                && outbox == old(outbox) + [Emit(sock, Caller, Error("Failed to create vote"))]
      ensures IsAdmin(old(db).rooms, roomId, adminId) && (forall v :: v in old(db).votes ==> v.id != voteId) ==>
                var vote := Vote(voteId, roomId, voteName, adminId, old(clock), None, true);
                && db.votes == DeactivateVotes(old(db).votes, roomId) + [vote]
                && outbox == old(outbox) + [Emit(sock, WholeRoom(roomId), VoteStarted(voteId, voteName, adminId))]
    {
      if !IsAdmin(db.rooms, roomId, adminId) {
        outbox := outbox + [Emit(sock, Caller, Error("Not authorized to start vote"))];
        return;
      }
      OpenVote(sock, roomId, voteName, adminId, voteId);
    }

    /** The writes of start-vote once the admin check has passed: deactivate the
        room's votes, then insert the new active vote. */
    method OpenVote(sock: SocketId, roomId: RoomId, voteName: string, adminId: UserId, voteId: VoteId)
      requires Valid()
      modifies this`db, this`clock, this`outbox
      ensures Valid()
      ensures clock == old(clock) + 1
      ensures db.users == old(db).users && db.rooms == old(db).rooms
      ensures db.participants == old(db).participants && db.responses == old(db).responses
      ensures (exists v :: v in old(db).votes && v.id == voteId) ==>
                && db.votes == DeactivateVotes(old(db).votes, roomId)
                && outbox == old(outbox) + [Emit(sock, Caller, Error("Failed to create vote"))]
      ensures (forall v :: v in old(db).votes ==> v.id != voteId) ==>
                && db.votes == DeactivateVotes(old(db).votes, roomId) + [Vote(voteId, roomId, voteName, adminId, old(clock), None, true)]
                && outbox == old(outbox) + [Emit(sock, WholeRoom(roomId), VoteStarted(voteId, voteName, adminId))]
    {
      var vote := Vote(voteId, roomId, voteName, adminId, clock, None, true);
      StartVoteKeepsConsistent(db, clock, vote);
      db := db.(votes := DeactivateVotes(db.votes, roomId));

      var now := Tick();
      var votes := InsertVote(db.votes, vote);
      if votes.None? {
        outbox := outbox + [Emit(sock, Caller, Error("Failed to create vote"))];
        return;
      }
      db := db.(votes := votes.value);
      outbox := outbox + [Emit(sock, WholeRoom(roomId), VoteStarted(voteId, voteName, adminId))];
    }

    /** socket 'submit-vote' { voteId, userId, value }: stored whatever the vote's
        state and whoever the socket is; announced, without the value, to the rest
        of the room the socket registered in. */
    method OnSubmitVote(sock: SocketId, voteId: VoteId, userId: UserId, value: string)
      requires Valid()
      modifies this`db, this`clock, this`outbox
      ensures Valid()
      ensures clock == old(clock) + 1
      ensures db == old(db).(responses := UpsertResponse(old(db).responses, voteId, userId, value, old(clock)))
      ensures sock in activeUsers ==>
                outbox == old(outbox) + [Emit(sock, RoomExceptCaller(activeUsers[sock].roomId), VoteSubmitted(userId))]
      ensures sock !in activeUsers ==> outbox == old(outbox)
      ensures forall e :: e in outbox[|old(outbox)|..] ==> Disclosed(e.event) == {} && sock !in Recipients(groups, e)
    {
      SubmitVoteKeepsConsistent(db, clock, voteId, userId, value);
      var now := Tick();
      db := db.(responses := UpsertResponse(db.responses, voteId, userId, value, now));
      if sock in activeUsers {
        var info := activeUsers[sock];
        outbox := outbox + [Emit(sock, RoomExceptCaller(info.roomId), VoteSubmitted(userId))];
      }
    }

    /** socket 'reveal-votes' { voteId, adminId, roomId }: only the admin of `roomId`
        may reveal, but the vote is looked up by id alone, in whatever room it is. */
    method OnRevealVotes(sock: SocketId, voteId: VoteId, adminId: UserId, roomId: RoomId)
      requires Valid()
      modifies this`db, this`clock, this`outbox
      ensures Valid()
      ensures !IsAdmin(old(db).rooms, roomId, adminId) ==>
                && db == old(db) && clock == old(clock)
                && outbox == old(outbox) + [Emit(sock, Caller, Error("Not authorized to reveal votes"))]
      ensures IsAdmin(old(db).rooms, roomId, adminId) ==>
                && clock == old(clock) + 1
                && db == old(db).(votes := MarkRevealed(old(db).votes, voteId, old(clock)))
                && outbox == old(outbox) + [Emit(sock, WholeRoom(roomId),
                                                 VotesRevealed(voteId, ResponsesOf(db.users, db.responses, voteId)))]
    {
      if !IsAdmin(db.rooms, roomId, adminId) {
        outbox := outbox + [Emit(sock, Caller, Error("Not authorized to reveal votes"))];
        return;
      }
      RevealKeepsConsistent(db, clock, voteId);
      var now := Tick();
      db := db.(votes := MarkRevealed(db.votes, voteId, now));
      var responses := ResponsesOf(db.users, db.responses, voteId);
      outbox := outbox + [Emit(sock, WholeRoom(roomId), VotesRevealed(voteId, responses))];
    }

    /** socket 'disconnect': socket.io takes the socket out of every room; if it had
        joined one, the rest of that room is told it left. Memberships stay. */
    method OnDisconnect(sock: SocketId)
      requires Valid()
      modifies this`activeUsers, this`groups, this`outbox
      ensures Valid()
      ensures activeUsers == old(activeUsers) - {sock}
      ensures groups == set g | g in old(groups) && g.0 != sock
      ensures sock in old(activeUsers) ==>
                outbox == old(outbox) + [Emit(sock, RoomExceptCaller(old(activeUsers)[sock].roomId),
                                              UserLeft(old(activeUsers)[sock].user))]
      ensures sock !in old(activeUsers) ==> outbox == old(outbox)
    {
      groups := set g | g in groups && g.0 != sock;
      if sock in activeUsers {
        var info := activeUsers[sock];
        outbox := outbox + [Emit(sock, RoomExceptCaller(info.roomId), UserLeft(info.user))];
        activeUsers := activeUsers - {sock};
      }
    }
  }
}
