/**
 * The read side of the server: room-code generation and GET /api/rooms/:roomId,
 * with the joins it performs (participants, the current vote, its responses).
 */
module Queries {
  import opened Wrappers
  import opened Tables
  import opened Schema
  import opened Gateway

  // Room codes.

  function DigitChar(d: nat): (c: char)
    requires d < 10
    ensures '0' <= c <= '9' && c as int - '0' as int == d
  {
    ('0' as int + d) as char
  }

  /** The number a string of decimal digits spells. */
  function DecimalValue(s: string): int
  {
    if s == [] then 0 else 10 * DecimalValue(s[..|s| - 1]) + (s[|s| - 1] as int - '0' as int)
  }

  /** Math.floor(100 + Math.random() * 900).toString(), where `draw` is the integer
      part of Math.random() * 900: a three-digit code from 100 to 999. */
  function RoomCode(draw: nat): (code: string)
    requires draw < 900
    ensures |code| == 3 && code[0] != '0'
    ensures forall i :: 0 <= i < |code| ==> '0' <= code[i] <= '9'
    ensures DecimalValue(code) == 100 + draw
  {
    var n := 100 + draw;
    var code := [DigitChar(n / 100), DigitChar(n / 10 % 10), DigitChar(n % 10)];
    assert DecimalValue(code[..1]) == n / 100 by {
      assert code[..1][..0] == [];
    }
    assert DecimalValue(code[..2]) == n / 10 by {
      assert code[..2][..1] == code[..1];
    }
    assert code[..3][..2] == code[..2];
    code
  }

  // The joins of GET /api/rooms/:roomId.

  datatype RoomView = RoomView(room: Room, adminName: string)
  datatype ParticipantView = ParticipantView(id: UserId, name: string, email: string, joinedAt: Time)
  datatype CurrentVote = CurrentVote(vote: Vote, startedByName: string)
  datatype RoomState = RoomState(room: RoomView, participants: seq<ParticipantView>,
                                 currentVote: Option<CurrentVote>, voteResponses: seq<ResponseView>)

  /** A membership row joined with its user, or None when the user row is missing. */
  function AsParticipant(users: seq<User>, p: Participant): (r: Option<ParticipantView>)
    ensures r.Some? <==> FindUser(users, p.userId).Some?
    ensures r.Some? ==> r.value.id == p.userId && r.value.joinedAt == p.joinedAt
    ensures r.Some? ==> r.value.name == FindUser(users, p.userId).value.name
                        && r.value.email == FindUser(users, p.userId).value.email
  {
    match FindUser(users, p.userId)
    case None => None
    case Some(u) => Some(ParticipantView(u.id, u.name, u.email, p.joinedAt))
  }

  /** A response row joined with its submitter, or None when the user row is missing. */
  function AsResponse(users: seq<User>, x: VoteResponse): (r: Option<ResponseView>)
    ensures r.Some? <==> FindUser(users, x.userId).Some?
    ensures r.Some? ==> r.value.voteId == x.voteId && r.value.userId == x.userId && r.value.value == x.value
    ensures r.Some? ==> r.value.submittedAt == x.submittedAt
                        && r.value.userName == FindUser(users, x.userId).value.name
  {
    match FindUser(users, x.userId)
    case None => None
    case Some(u) => Some(ResponseView(x.voteId, x.userId, x.value, x.submittedAt, u.name))
  }

  /** SELECT u.id, u.name, u.email, rp.joined_at FROM room_participants rp JOIN users u
      WHERE rp.room_id = ?: the members of the room that have a user row, in table order. */
  function ParticipantsOf(users: seq<User>, ps: seq<Participant>, roomId: RoomId): (r: seq<ParticipantView>)
    ensures forall v :: v in r ==> exists p :: p in ps && p.roomId == roomId && AsParticipant(users, p) == Some(v)
    ensures forall p :: p in ps && p.roomId == roomId && AsParticipant(users, p).Some? ==> AsParticipant(users, p).value in r
  {
    if ps == [] then []
    else
      var rest := ParticipantsOf(users, ps[1..], roomId);
      var m := AsParticipant(users, ps[0]);
      if ps[0].roomId == roomId && m.Some? then [m.value] + rest else rest
  }

  /** Strictly ordered by joined_at, and no user listed twice. */
  predicate InJoinOrder(vs: seq<ParticipantView>) {
    forall i, j :: 0 <= i < j < |vs| ==> vs[i].joinedAt < vs[j].joinedAt && vs[i].id != vs[j].id
  }

  /** The list comes out ORDER BY joined_at with no user twice: the table is in
      joining order, so no sort is needed. */
  lemma {:induction false} ParticipantsInJoinOrder(users: seq<User>, ps: seq<Participant>, roomId: RoomId)
    requires Pairwise(ps, JoinedBefore)
    ensures InJoinOrder(ParticipantsOf(users, ps, roomId))
  {
    if ps != [] {
      PairwiseTail(ps, JoinedBefore);
      ParticipantsInJoinOrder(users, ps[1..], roomId);
      var rest := ParticipantsOf(users, ps[1..], roomId);
      var m := AsParticipant(users, ps[0]);
      if ps[0].roomId == roomId && m.Some? {
        var r := [m.value] + rest;
        assert ParticipantsOf(users, ps, roomId) == r;
        assert r[0].id == ps[0].userId && r[0].joinedAt == ps[0].joinedAt;
        JoinedAfterHead(users, ps, roomId);
        forall i, j | 0 <= i < j < |r|
          ensures r[i].joinedAt < r[j].joinedAt && r[i].id != r[j].id
        {
          if i == 0 {
            assert r[j] == rest[j - 1];
            assert ps[0].joinedAt < rest[j - 1].joinedAt && ps[0].userId != rest[j - 1].id;
          } else {
            assert r[i] == rest[i - 1] && r[j] == rest[j - 1];
            assert rest[i - 1].joinedAt < rest[j - 1].joinedAt && rest[i - 1].id != rest[j - 1].id;
          }
        }
      }
    }
  }

  /** Everyone listed from the later memberships joined after the first one, and is
      another user when the first one is in the same room. */
  lemma JoinedAfterHead(users: seq<User>, ps: seq<Participant>, roomId: RoomId)
    requires ps != [] && Pairwise(ps, JoinedBefore) && ps[0].roomId == roomId
    ensures forall k :: 0 <= k < |ParticipantsOf(users, ps[1..], roomId)| ==>
              ps[0].joinedAt < ParticipantsOf(users, ps[1..], roomId)[k].joinedAt
              && ps[0].userId != ParticipantsOf(users, ps[1..], roomId)[k].id
  {
    PairwiseTail(ps, JoinedBefore);
    var rest := ParticipantsOf(users, ps[1..], roomId);
    forall k | 0 <= k < |rest|
      ensures ps[0].joinedAt < rest[k].joinedAt && ps[0].userId != rest[k].id
    {
      assert rest[k] in rest;
      var q :| q in ps[1..] && q.roomId == roomId && AsParticipant(users, q) == Some(rest[k]);
      assert JoinedBefore(ps[0], q);
    }
  }

  /** A vote that the current-vote query can return for the room. */
  predicate Candidate(users: seq<User>, roomId: RoomId, v: Vote) {
    v.roomId == roomId && v.isActive && FindUser(users, v.startedBy).Some?
  }

  /** SELECT v.*, u.name FROM votes v JOIN users u ON v.started_by = u.id
      WHERE v.room_id = ? AND v.is_active = 1 ORDER BY v.started_at DESC LIMIT 1 */
  function LatestActiveVote(users: seq<User>, votes: seq<Vote>, roomId: RoomId): (r: Option<CurrentVote>)
    ensures r.Some? ==> r.value.vote in votes && Candidate(users, roomId, r.value.vote)
    ensures r.Some? ==> r.value.startedByName == FindUser(users, r.value.vote.startedBy).value.name
    ensures r.Some? ==> forall v :: v in votes && Candidate(users, roomId, v) ==> v.startedAt <= r.value.vote.startedAt
    ensures r.None? <==> forall v :: v in votes ==> !Candidate(users, roomId, v)
  {
    if votes == [] then None
    else
      var rest := LatestActiveVote(users, votes[1..], roomId);
      var v := votes[0];
      if Candidate(users, roomId, v) && (rest.None? || rest.value.vote.startedAt < v.startedAt)
      then Some(CurrentVote(v, FindUser(users, v.startedBy).value.name))
      else rest
  }

  /** With at most one active vote per room, the current vote is that vote. */
  lemma CurrentIsTheActiveVote(users: seq<User>, votes: seq<Vote>, v: Vote)
    requires Pairwise(votes, DistinctVotes)
    requires v in votes && Candidate(users, v.roomId, v)
    ensures LatestActiveVote(users, votes, v.roomId) == Some(CurrentVote(v, FindUser(users, v.startedBy).value.name))
  {
    var r := LatestActiveVote(users, votes, v.roomId);
    var w := r.value.vote;
    var i :| 0 <= i < |votes| && votes[i] == v;
    var j :| 0 <= j < |votes| && votes[j] == w;
    assert i == j;
  }

  /** SELECT vr.*, u.name AS user_name FROM vote_responses vr JOIN users u
      WHERE vr.vote_id = ?: the responses to the vote whose submitter has a user row. */
  function ResponsesOf(users: seq<User>, rs: seq<VoteResponse>, voteId: VoteId): (r: seq<ResponseView>)
    ensures forall v :: v in r ==> exists x :: x in rs && x.voteId == voteId && AsResponse(users, x) == Some(v)
    ensures forall x :: x in rs && x.voteId == voteId && AsResponse(users, x).Some? ==> AsResponse(users, x).value in r
  {
    if rs == [] then []
    else
      var rest := ResponsesOf(users, rs[1..], voteId);
      var m := AsResponse(users, rs[0]);
      if rs[0].voteId == voteId && m.Some? then [m.value] + rest else rest
  }

  predicate OnePerUser(vs: seq<ResponseView>) {
    forall i, j :: 0 <= i < j < |vs| ==> vs[i].userId != vs[j].userId
  }

  /** A response row of the vote is the only one of its submitter's. */
  lemma HeadNotRepeated(users: seq<User>, rs: seq<VoteResponse>, voteId: VoteId)
    requires rs != [] && rs[0].voteId == voteId && Pairwise(rs, DistinctResponses)
    ensures forall v :: v in ResponsesOf(users, rs[1..], voteId) ==> v.userId != rs[0].userId
  {
  }

  /** Because a response is keyed by (vote, user), a vote's responses name each
      submitter once. */
  lemma {:induction false} OneResponsePerUser(users: seq<User>, rs: seq<VoteResponse>, voteId: VoteId)
    requires Pairwise(rs, DistinctResponses)
    ensures OnePerUser(ResponsesOf(users, rs, voteId))
  {
    if rs != [] {
      PairwiseTail(rs, DistinctResponses);
      OneResponsePerUser(users, rs[1..], voteId);
      var rest := ResponsesOf(users, rs[1..], voteId);
      var m := AsResponse(users, rs[0]);
      if rs[0].voteId == voteId && m.Some? {
        HeadNotRepeated(users, rs, voteId);
        var r := [m.value] + rest;
        assert ResponsesOf(users, rs, voteId) == r;
        forall i, j | 0 <= i < j < |r|
          ensures r[i].userId != r[j].userId
        {
          assert r[j] == rest[j - 1] && rest[j - 1] in rest;
          if i > 0 {
            assert r[i] == rest[i - 1];
          }
        }
      }
    }
  }

  /** GET /api/rooms/:roomId. The room is read joined with its admin's user row, so a
      room whose admin_id names no user answers 404 like a missing room. */
  function GetRoom(db: Db, roomId: RoomId): (r: Reply<RoomState>)
    ensures r.Fail? ==> r == Fail(404, "Room not found")
    ensures r.Fail? <==> !HasRoom(db.rooms, roomId) || FindUser(db.users, FindRoom(db.rooms, roomId).value.adminId).None?
    ensures r.Ok? ==> r.body.room.room in db.rooms && r.body.room.room.id == roomId
  {
    match FindRoom(db.rooms, roomId)
    case None => Fail(404, "Room not found")
    case Some(room) =>
      match FindUser(db.users, room.adminId)
      case None => Fail(404, "Room not found")
      case Some(admin) =>
        var current := LatestActiveVote(db.users, db.votes, roomId);
        Ok(RoomState(RoomView(room, admin.name),
                     ParticipantsOf(db.users, db.participants, roomId),
                     current,
                     if current.Some? then ResponsesOf(db.users, db.responses, current.value.vote.id) else []))
  }

  /** What the room state promises in a consistent database: the admin's name, the
      members in joining order and each once, the room's only active vote as the
      current vote, and exactly that vote's responses, one per submitter. */
  lemma RoomStateMeaning(db: Db, clock: Time, roomId: RoomId)
    requires Consistent(db, clock)
    requires GetRoom(db, roomId).Ok?
    ensures var s := GetRoom(db, roomId).body;
      && s.room.adminName == FindUser(db.users, s.room.room.adminId).value.name
      && (forall i, j :: 0 <= i < j < |s.participants| ==>
            s.participants[i].joinedAt < s.participants[j].joinedAt && s.participants[i].id != s.participants[j].id)
      && (forall v :: v in s.participants ==>
            exists p :: p in db.participants && p.roomId == roomId && AsParticipant(db.users, p) == Some(v))
      && (forall p :: p in db.participants && p.roomId == roomId && AsParticipant(db.users, p).Some? ==>
            AsParticipant(db.users, p).value in s.participants)
      && (s.currentVote.None? <==> forall v :: v in db.votes ==> !Candidate(db.users, roomId, v))
      && (forall v :: v in db.votes && Candidate(db.users, roomId, v) ==> s.currentVote.Some? && s.currentVote.value.vote == v)
      && (s.currentVote.None? ==> s.voteResponses == [])
      && (s.currentVote.Some? ==>
            (forall v :: v in s.voteResponses ==>
               exists x :: x in db.responses && x.voteId == s.currentVote.value.vote.id && AsResponse(db.users, x) == Some(v)) &&
            (forall x :: x in db.responses && x.voteId == s.currentVote.value.vote.id && AsResponse(db.users, x).Some? ==>
               AsResponse(db.users, x).value in s.voteResponses))
      && (forall i, j :: 0 <= i < j < |s.voteResponses| ==> s.voteResponses[i].userId != s.voteResponses[j].userId)
  {
    var s := GetRoom(db, roomId).body;
    assert s.participants == ParticipantsOf(db.users, db.participants, roomId);
    ParticipantsInJoinOrder(db.users, db.participants, roomId);
    forall v | v in db.votes && Candidate(db.users, roomId, v)
      ensures s.currentVote.Some? && s.currentVote.value.vote == v
    {
      CurrentIsTheActiveVote(db.users, db.votes, v);
    }
    if s.currentVote.Some? {
      OneResponsePerUser(db.users, db.responses, s.currentVote.value.vote.id);
    }
  }

  /** set-admin does not check that the new admin is a user: handing the room to an
      unknown id makes GET answer 404 for a room that exists. */
  lemma UnknownAdminHidesRoom(db: Db, roomId: RoomId, newAdminId: UserId)
    requires HasRoom(db.rooms, roomId)
    requires FindUser(db.users, newAdminId).None?
    ensures GetRoom(db.(rooms := UpdateAdmin(db.rooms, roomId, newAdminId)), roomId) == Fail(404, "Room not found")
  {
  }

  /** A second start-vote supersedes the first for good: even after a late reveal
      of the first vote, the room's current vote is the second one. */
  lemma LateRevealKeepsCurrentVote(users: seq<User>, votes: seq<Vote>, second: Vote, firstId: VoteId, now: Time)
    requires Pairwise(votes, DistinctVotes)
    requires second.isActive && FindUser(users, second.startedBy).Some?
    requires forall v :: v in votes ==> v.id != second.id
    requires firstId != second.id
    ensures LatestActiveVote(users, MarkRevealed(DeactivateVotes(votes, second.roomId) + [second], firstId, now), second.roomId)
            == Some(CurrentVote(second, FindUser(users, second.startedBy).value.name))
  {
    var started := DeactivateVotes(votes, second.roomId) + [second];
    StartedVoteIsOnlyActive(votes, second);
    MarkRevealedKeepsDistinct(started, firstId, now);
    var revealed := MarkRevealed(started, firstId, now);
    assert revealed[|started| - 1] == second;
    CurrentIsTheActiveVote(users, revealed, second);
  }
}
