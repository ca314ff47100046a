/**
 * The five SQLite tables of the planning-poker server (users, rooms,
 * room_participants, votes, vote_responses), the statements its handlers issue
 * on them, and the consistency the constraints and the handlers keep.
 */
module Schema {
  import opened Wrappers
  import opened Tables

  type UserId = string
  type RoomId = string
  type VoteId = string
  /** A tick of the server clock; stands for CURRENT_TIMESTAMP and datetime("now"). */
  type Time = nat

  datatype User = User(id: UserId, email: string, name: string, createdAt: Time)
  datatype Room = Room(id: RoomId, name: string, creatorId: UserId, adminId: UserId, createdAt: Time)
  datatype Participant = Participant(roomId: RoomId, userId: UserId, joinedAt: Time)
  datatype Vote = Vote(id: VoteId, roomId: RoomId, name: string, startedBy: UserId,
                       startedAt: Time, revealedAt: Option<Time>, isActive: bool)
  datatype VoteResponse = VoteResponse(voteId: VoteId, userId: UserId, value: string, submittedAt: Time)

  datatype Db = Db(users: seq<User>, rooms: seq<Room>, participants: seq<Participant>,
                   votes: seq<Vote>, responses: seq<VoteResponse>)

  /** Rows read through a join with users: a response with its submitter's name. */
  datatype ResponseView = ResponseView(voteId: VoteId, userId: UserId, value: string,
                                       submittedAt: Time, userName: string)

  // Uniqueness constraints: when an existing row clashes with a new one.

  /** users: PRIMARY KEY id, UNIQUE email. */
  predicate SameUser(a: User, b: User) { a.id == b.id || a.email == b.email }
  /** rooms: PRIMARY KEY id. */
  predicate SameRoom(a: Room, b: Room) { a.id == b.id }
  /** room_participants: PRIMARY KEY (room_id, user_id). */
  predicate SameMembership(a: Participant, b: Participant) { a.roomId == b.roomId && a.userId == b.userId }
  /** votes: PRIMARY KEY id. */
  predicate SameVote(a: Vote, b: Vote) { a.id == b.id }
  /** vote_responses: PRIMARY KEY (vote_id, user_id). */
  predicate SameResponse(a: VoteResponse, b: VoteResponse) { a.voteId == b.voteId && a.userId == b.userId }

  // How two rows of a consistent table, in table order, relate.

  predicate DistinctUsers(a: User, b: User) { !SameUser(a, b) }
  predicate DistinctRooms(a: Room, b: Room) { !SameRoom(a, b) }
  /** Memberships are unique and were appended in joining order. */
  predicate JoinedBefore(a: Participant, b: Participant) { !SameMembership(a, b) && a.joinedAt < b.joinedAt }
  /** Vote ids are unique and no room has two active votes. */
  predicate DistinctVotes(a: Vote, b: Vote) {
    !SameVote(a, b) && !(a.isActive && b.isActive && a.roomId == b.roomId)
  }
  predicate DistinctResponses(a: VoteResponse, b: VoteResponse) { !SameResponse(a, b) }

  ghost predicate HasRoom(rooms: seq<Room>, id: RoomId) {
    exists r :: r in rooms && r.id == id
  }

  /** The state every handler keeps: the table constraints hold, memberships are in
      joining order before `clock` and refer to existing rooms, and every room has
      at most one active vote. */
  ghost predicate Consistent(db: Db, clock: Time) {
    && Pairwise(db.users, DistinctUsers)
    && Pairwise(db.rooms, DistinctRooms)
    && Pairwise(db.participants, JoinedBefore)
    && (forall p :: p in db.participants ==> p.joinedAt < clock && HasRoom(db.rooms, p.roomId))
    && Pairwise(db.votes, DistinctVotes)
    && Pairwise(db.responses, DistinctResponses)
  }

  // Lookups.

  /** SELECT * FROM users WHERE id = ? */
  function FindUser(users: seq<User>, id: UserId): (r: Option<User>)
    ensures r.Some? ==> r.value in users && r.value.id == id
    ensures r.None? <==> forall u :: u in users ==> u.id != id
  {
    FirstWhere(users, (u: User) => u.id == id)
  }

  /** SELECT * FROM rooms WHERE id = ? */
  function FindRoom(rooms: seq<Room>, id: RoomId): (r: Option<Room>)
    ensures r.Some? ==> r.value in rooms && r.value.id == id
    ensures r.None? <==> !HasRoom(rooms, id)
  {
    FirstWhere(rooms, (x: Room) => x.id == id)
  }

  /** SELECT * FROM rooms WHERE id = ? AND admin_id = ? finds a row: the check of
      start-vote and reveal-votes. */
  function IsAdmin(rooms: seq<Room>, roomId: RoomId, userId: UserId): (b: bool)
    ensures b <==> exists r :: r in rooms && r.id == roomId && r.adminId == userId
  {
    FirstWhere(rooms, (x: Room) => x.id == roomId && x.adminId == userId).Some?
  }

  /** SELECT * FROM rooms WHERE id = ? AND (admin_id = ? OR creator_id = ?) finds a
      row: the check of set-admin. */
  function MayAssignAdmin(rooms: seq<Room>, roomId: RoomId, userId: UserId): (b: bool)
    ensures b <==> exists r :: r in rooms && r.id == roomId && (r.adminId == userId || r.creatorId == userId)
  {
    FirstWhere(rooms, (x: Room) => x.id == roomId && (x.adminId == userId || x.creatorId == userId)).Some?
  }

  // Writes.

  /** INSERT OR REPLACE INTO users (id, email, name): every row with this id or this
      email is deleted and the new row, with a fresh created_at, is appended. */
  function UpsertUser(users: seq<User>, id: UserId, email: string, name: string, now: Time): (r: seq<User>)
    ensures User(id, email, name, now) in r
    ensures forall u :: u in r ==> u == User(id, email, name, now) || (u in users && u.id != id && u.email != email)
    ensures forall u :: u in users && u.id != id && u.email != email ==> u in r
  {
    InsertOrReplace(users, User(id, email, name, now), SameUser)
  }

  /** INSERT INTO rooms: refused when the id is taken. */
  function InsertRoom(rooms: seq<Room>, room: Room): (r: Option<seq<Room>>)
    ensures r.None? <==> HasRoom(rooms, room.id)
    ensures r.Some? ==> r.value == rooms + [room]
  {
    Insert(rooms, room, SameRoom)
  }

  /** UPDATE rooms SET admin_id = ? WHERE id = ?: only admin_id of that room changes. */
  function UpdateAdmin(rooms: seq<Room>, roomId: RoomId, newAdminId: UserId): (r: seq<Room>)
    ensures |r| == |rooms|
    ensures forall i :: 0 <= i < |rooms| ==>
              r[i] == if rooms[i].id == roomId then rooms[i].(adminId := newAdminId) else rooms[i]
  {
    Update(rooms, (x: Room) => x.id == roomId, (x: Room) => x.(adminId := newAdminId))
  }

  /** INSERT INTO room_participants (room_id, user_id): refused when the user is
      already a member. */
  function InsertMember(ps: seq<Participant>, roomId: RoomId, userId: UserId, now: Time): (r: Option<seq<Participant>>)
    ensures r.None? <==> exists p :: p in ps && p.roomId == roomId && p.userId == userId
    ensures r.Some? ==> r.value == ps + [Participant(roomId, userId, now)]
  {
    Insert(ps, Participant(roomId, userId, now), SameMembership)
  }

  /** INSERT OR IGNORE INTO room_participants (room_id, user_id): joining twice keeps
      the first joined_at. */
  function InsertOrIgnoreMember(ps: seq<Participant>, roomId: RoomId, userId: UserId, now: Time): (r: seq<Participant>)
    ensures (exists p :: p in ps && p.roomId == roomId && p.userId == userId) ==> r == ps
    ensures (forall p :: p in ps ==> p.roomId != roomId || p.userId != userId) ==>
              r == ps + [Participant(roomId, userId, now)]
  {
    InsertOrIgnore(ps, Participant(roomId, userId, now), SameMembership)
  }

  /** UPDATE votes SET is_active = 0 WHERE room_id = ? AND is_active = 1: every vote
      of the room ends inactive and nothing else changes. */
  function DeactivateVotes(votes: seq<Vote>, roomId: RoomId): (r: seq<Vote>)
    ensures |r| == |votes|
    ensures forall i :: 0 <= i < |votes| ==>
              r[i] == if votes[i].roomId == roomId then votes[i].(isActive := false) else votes[i]
  {
    Update(votes, (v: Vote) => v.roomId == roomId && v.isActive, (v: Vote) => v.(isActive := false))
  }

  /** INSERT INTO votes: refused when the id is taken. */
  function InsertVote(votes: seq<Vote>, vote: Vote): (r: Option<seq<Vote>>)
    ensures r.None? <==> exists v :: v in votes && v.id == vote.id
    ensures r.Some? ==> r.value == votes + [vote]
  {
    Insert(votes, vote, SameVote)
  }

  /** UPDATE votes SET revealed_at = datetime("now") WHERE id = ?: whatever room the
      vote is in; an unknown id changes nothing. */
  function MarkRevealed(votes: seq<Vote>, voteId: VoteId, now: Time): (r: seq<Vote>)
    ensures |r| == |votes|
    ensures forall i :: 0 <= i < |votes| ==>
              r[i] == if votes[i].id == voteId then votes[i].(revealedAt := Some(now)) else votes[i]
  {
    Update(votes, (v: Vote) => v.id == voteId, (v: Vote) => v.(revealedAt := Some(now)))
  }

  /** INSERT OR REPLACE INTO vote_responses (vote_id, user_id, value): the previous
      response of this user to this vote, if any, is replaced. */
  function UpsertResponse(rs: seq<VoteResponse>, voteId: VoteId, userId: UserId, value: string, now: Time): (r: seq<VoteResponse>)
    ensures |r| > 0 && r[|r| - 1] == VoteResponse(voteId, userId, value, now)
    ensures forall i :: 0 <= i < |r| - 1 ==> r[i].voteId != voteId || r[i].userId != userId
    ensures forall x :: x in r && (x.voteId != voteId || x.userId != userId) ==> x in rs
    ensures forall x :: x in rs && (x.voteId != voteId || x.userId != userId) ==> x in r
  {
    InsertOrReplace(rs, VoteResponse(voteId, userId, value, now), SameResponse)
  }

  // What each write keeps.

  lemma UpsertUserKeepsDistinct(users: seq<User>, id: UserId, email: string, name: string, now: Time)
    requires Pairwise(users, DistinctUsers)
    ensures Pairwise(UpsertUser(users, id, email, name, now), DistinctUsers)
    ensures FindUser(UpsertUser(users, id, email, name, now), id) == Some(User(id, email, name, now))
  {
    InsertOrReplacePairwise(users, User(id, email, name, now), SameUser, DistinctUsers);
  }

  lemma UpdateAdminKeepsRooms(rooms: seq<Room>, roomId: RoomId, newAdminId: UserId)
    requires Pairwise(rooms, DistinctRooms)
    ensures Pairwise(UpdateAdmin(rooms, roomId, newAdminId), DistinctRooms)
    ensures forall id :: HasRoom(rooms, id) ==> HasRoom(UpdateAdmin(rooms, roomId, newAdminId), id)
  {
  }

  /** After set-admin hands the room to `b`: `b` passes the start/reveal check, nobody
      else does (the creator included), and the creator still passes the set-admin
      check, since creator_id never changes. */
  lemma AdminHandOver(rooms: seq<Room>, roomId: RoomId, b: UserId)
    requires HasRoom(rooms, roomId)
    ensures IsAdmin(UpdateAdmin(rooms, roomId, b), roomId, b)
    ensures forall a :: a != b ==> !IsAdmin(UpdateAdmin(rooms, roomId, b), roomId, a)
    ensures forall x :: x in rooms && x.id == roomId ==> MayAssignAdmin(UpdateAdmin(rooms, roomId, b), roomId, x.creatorId)
  {
    var r := UpdateAdmin(rooms, roomId, b);
    forall x | x in rooms && x.id == roomId
      ensures r[IndexOf(rooms, x)] == x.(adminId := b)
    {
    }
    var x :| x in rooms && x.id == roomId;
    assert r[IndexOf(rooms, x)] in r;
    forall a | a != b
      ensures !IsAdmin(r, roomId, a)
    {
      forall y | y in r && y.id == roomId
        ensures y.adminId == b
      {
        var k := IndexOf(r, y);
        assert r[k] == rooms[k].(adminId := b);
      }
    }
    forall x | x in rooms && x.id == roomId
      ensures MayAssignAdmin(r, roomId, x.creatorId)
    {
      assert r[IndexOf(rooms, x)] in r;
    }
  }

  /** Where a row stands in its table. */
  function IndexOf<T(==)>(s: seq<T>, x: T): (i: nat)
    requires x in s
    ensures i < |s| && s[i] == x
  {
    if s[0] == x then 0 else 1 + IndexOf(s[1..], x)
  }

  /** Starting a vote after deactivating the room's votes leaves the new vote the
      only active one of its room, and no other room loses or gains an active vote. */
  lemma StartedVoteIsOnlyActive(votes: seq<Vote>, vote: Vote)
    requires Pairwise(votes, DistinctVotes)
    requires vote.isActive && forall v :: v in votes ==> v.id != vote.id
    ensures Pairwise(DeactivateVotes(votes, vote.roomId) + [vote], DistinctVotes)
    ensures forall v :: v in DeactivateVotes(votes, vote.roomId) + [vote] && v.roomId == vote.roomId && v.isActive ==> v == vote
  {
    var d := DeactivateVotes(votes, vote.roomId);
    assert Pairwise(d, DistinctVotes) by {
      forall i, j | 0 <= i < j < |d|
        ensures DistinctVotes(d[i], d[j])
      {
        assert DistinctVotes(votes[i], votes[j]);
      }
    }
    forall v | v in d
      ensures DistinctVotes(v, vote)
    {
      var i :| 0 <= i < |d| && d[i] == v;
      assert votes[i] in votes;
    }
    AppendPairwise(d, vote, DistinctVotes);
  }

  lemma DeactivateKeepsDistinct(votes: seq<Vote>, roomId: RoomId)
    requires Pairwise(votes, DistinctVotes)
    ensures Pairwise(DeactivateVotes(votes, roomId), DistinctVotes)
  {
    var d := DeactivateVotes(votes, roomId);
    forall i, j | 0 <= i < j < |d|
      ensures DistinctVotes(d[i], d[j])
    {
      assert DistinctVotes(votes[i], votes[j]);
    }
  }

  lemma MarkRevealedKeepsDistinct(votes: seq<Vote>, voteId: VoteId, now: Time)
    requires Pairwise(votes, DistinctVotes)
    ensures Pairwise(MarkRevealed(votes, voteId, now), DistinctVotes)
  {
  }

  lemma UpsertResponseKeepsDistinct(rs: seq<VoteResponse>, voteId: VoteId, userId: UserId, value: string, now: Time)
    requires Pairwise(rs, DistinctResponses)
    ensures Pairwise(UpsertResponse(rs, voteId, userId, value, now), DistinctResponses)
  {
    InsertOrReplacePairwise(rs, VoteResponse(voteId, userId, value, now), SameResponse, DistinctResponses);
  }

  /** A membership added at tick `now`, later than every earlier one, keeps the
      table in joining order. */
  lemma AddMemberKeepsOrder(ps: seq<Participant>, roomId: RoomId, userId: UserId, now: Time)
    requires Pairwise(ps, JoinedBefore)
    requires forall p :: p in ps ==> p.joinedAt < now
    ensures Pairwise(InsertOrIgnoreMember(ps, roomId, userId, now), JoinedBefore)
    ensures InsertMember(ps, roomId, userId, now).Some? ==>
              Pairwise(InsertMember(ps, roomId, userId, now).value, JoinedBefore)
  {
    if forall p :: p in ps ==> p.roomId != roomId || p.userId != userId {
      AppendPairwise(ps, Participant(roomId, userId, now), JoinedBefore);
    }
  }

  // What each handler's writes keep, as one step of the clock.

  /** The users upsert (create-room and join, also on their failure paths): it
      touches no membership, so the clock it is stamped with may tick or not. */
  lemma UpsertUserKeepsConsistent(db: Db, clock: Time, id: UserId, email: string, name: string)
    requires Consistent(db, clock)
    ensures Consistent(db.(users := UpsertUser(db.users, id, email, name, clock)), clock)
    ensures Consistent(db.(users := UpsertUser(db.users, id, email, name, clock)), clock + 1)
  {
    UpsertUserKeepsDistinct(db.users, id, email, name, clock);
  }

  /** POST /api/rooms after the user upsert: the new room, and its creator's
      membership, which cannot clash since no membership refers to a room not yet
      created. */
  lemma NewRoomKeepsConsistent(db: Db, now: Time, room: Room)
    requires Consistent(db, now) && !HasRoom(db.rooms, room.id)
    ensures InsertMember(db.participants, room.id, room.creatorId, now).Some?
    ensures Consistent(db.(rooms := db.rooms + [room],
                           participants := db.participants + [Participant(room.id, room.creatorId, now)]),
                       now + 1)
  {
    forall x | x in db.rooms
      ensures DistinctRooms(x, room)
    {
    }
    AppendPairwise(db.rooms, room, DistinctRooms);
    AddMemberKeepsOrder(db.participants, room.id, room.creatorId, now);
    assert room in db.rooms + [room];
    forall p | p in db.participants
      ensures HasRoom(db.rooms + [room], p.roomId)
    {
      var x :| x in db.rooms && x.id == p.roomId;
      assert x in db.rooms + [room];
    }
  }

  /** POST /api/rooms/:roomId/join after the user upsert, on an existing room. */
  lemma NewMemberKeepsConsistent(db: Db, now: Time, roomId: RoomId, userId: UserId)
    requires Consistent(db, now) && HasRoom(db.rooms, roomId)
    ensures Consistent(db.(participants := InsertOrIgnoreMember(db.participants, roomId, userId, now)), now + 1)
  {
    AddMemberKeepsOrder(db.participants, roomId, userId, now);
  }

  /** set-admin: rooms keep their ids, so memberships still refer to existing rooms. */
  lemma SetAdminKeepsConsistent(db: Db, clock: Time, roomId: RoomId, newAdminId: UserId)
    requires Consistent(db, clock)
    ensures Consistent(db.(rooms := UpdateAdmin(db.rooms, roomId, newAdminId)), clock)
  {
    UpdateAdminKeepsRooms(db.rooms, roomId, newAdminId);
  }

  /** start-vote: the deactivation on its own keeps the state consistent, and the
      insert that follows fails exactly when the id was already in use. */
  lemma StartVoteKeepsConsistent(db: Db, clock: Time, vote: Vote)
    requires Consistent(db, clock) && vote.isActive
    ensures Consistent(db.(votes := DeactivateVotes(db.votes, vote.roomId)), clock + 1)
    ensures InsertVote(DeactivateVotes(db.votes, vote.roomId), vote).None? <==>
              exists v :: v in db.votes && v.id == vote.id
    ensures (forall v :: v in db.votes ==> v.id != vote.id) ==>
              Consistent(db.(votes := DeactivateVotes(db.votes, vote.roomId) + [vote]), clock + 1)
  {
    var d := DeactivateVotes(db.votes, vote.roomId);
    DeactivateKeepsDistinct(db.votes, vote.roomId);
    if exists v :: v in db.votes && v.id == vote.id {
      var v :| v in db.votes && v.id == vote.id;
      assert d[IndexOf(db.votes, v)] in d;
    } else {
      forall w | w in d
        ensures w.id != vote.id
      {
        assert db.votes[IndexOf(d, w)] in db.votes;
      }
      StartedVoteIsOnlyActive(db.votes, vote);
    }
  }

  /** submit-vote. */
  lemma SubmitVoteKeepsConsistent(db: Db, clock: Time, voteId: VoteId, userId: UserId, value: string)
    requires Consistent(db, clock)
    ensures Consistent(db.(responses := UpsertResponse(db.responses, voteId, userId, value, clock)), clock + 1)
  {
    UpsertResponseKeepsDistinct(db.responses, voteId, userId, value, clock);
  }

  /** reveal-votes. */
  lemma RevealKeepsConsistent(db: Db, clock: Time, voteId: VoteId)
    requires Consistent(db, clock)
    ensures Consistent(db.(votes := MarkRevealed(db.votes, voteId, clock)), clock + 1)
  {
    MarkRevealedKeepsDistinct(db.votes, voteId, clock);
  }
}
