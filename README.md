# Planning-poker room and vote engine, in Dafny

This project models the server of a planning-poker application (`server/index.js`):
five SQLite tables (`users`, `rooms`, `room_participants`, `votes`,
`vote_responses`), the in-memory `activeUsers` map from socket id to the user and
room it registered with, the REST routes that create, join and read a room, and the
socket commands `join-room`, `set-admin`, `start-vote`, `submit-vote`,
`reveal-votes` and `disconnect`.

Layout:

- `wrappers.dfy` — `Option`.
- `tables.dfy` — module `Tables`. A table is the sequence of its rows in rowid
  order. SQL statements are generic functions over it: `SELECT ... WHERE`, `UPDATE`,
  a single-row get, `INSERT` refused on a uniqueness clash, `INSERT OR IGNORE`, and
  `INSERT OR REPLACE` (which deletes every clashing row and appends the new one).
  `Pairwise` states how every two rows of a table relate.
- `schema.dfy` — module `Schema`. The five row types, their keys, and the statements
  the handlers issue. `Consistent(db, clock)` is the invariant every handler keeps:
  - the keys are unique, including `users.email`;
  - memberships are stored in joining order, stamped before `clock`, and name
    existing rooms;
  - no room has two active votes.
  One lemma per handler shows that its writes keep `Consistent`.
- `gateway.dfy` — module `Gateway`. HTTP replies, socket events, and the three emit
  targets:
  - the caller (`socket.emit`);
  - the room without the caller (`socket.to(room).emit`);
  - the whole room (`io.to(room).emit`).
  It also defines which sockets an emit reaches and which vote values it discloses.
- `queries.dfy` — module `Queries`. The room code, and `GET /api/rooms/:roomId` with
  its three joins. Lemmas say what the returned room state means in a consistent
  database.
- `server.dfy` — module `PokerServer`. The class `Server`, whose fields are updated
  in place, with one method per route and socket command:
  - `db` — the tables;
  - `activeUsers`;
  - `groups` — the socket.io rooms each socket has joined;
  - `clock`;
  - `outbox` — every emitted event, in order.
  Each database callback runs as one synchronous step. Where the source nests
  callbacks deeply, the inner steps are a second method: `AddRoom`, `EnterRoom`,
  `OpenVote`.

Inputs the source takes from outside are parameters:
- `draw < 900` is the integer part of `Math.random() * 900` in `generateRoomCode`.
- `voteId` is the `uuidv4()` of `start-vote`.
- `CURRENT_TIMESTAMP` and `datetime("now")` are the `clock` field. Each handler that
  writes a timestamp stamps it with the current tick, then advances the clock by one.

On the REST routes, a request field that is absent or empty is the empty string,
which is falsy in JavaScript, so both get the 400 reply. The socket handlers take
their payload fields as `string` too; what an absent socket field does in the
source is listed under "Left out".

Two consequences of the code as written are stated as lemmas:
- `set-admin` accepts any `newAdminId`. Handing a room to an id with no user row
  makes `GET /api/rooms/:roomId` answer 404 for that room (`UnknownAdminHidesRoom`).
- A later `reveal-votes` of a superseded vote does not make it current again
  (`LateRevealKeepsCurrentVote`).

## Model

| member | source | states |
|---|---|---|
| Tables.Where | server/index.js:110 | the rows kept are exactly the rows of the table that satisfy the condition, and there are no more of them than before |
| Tables.Update | server/index.js:318 | `UPDATE ... WHERE`: each row is rewritten in place if it satisfies the condition and kept otherwise; the length is unchanged |
| Tables.FirstWhere | server/index.js:171 | a single-row `db.get` returns a row of the table that satisfies the condition, and returns nothing exactly when no row does |
| Tables.Insert | server/index.js:121 | plain `INSERT` fails exactly when an existing row clashes with the new one on a key, and otherwise appends the row |
| Tables.InsertOrIgnore | server/index.js:183 | `INSERT OR IGNORE` leaves the table as it was on a clash and appends the row otherwise |
| Tables.InsertOrReplace | server/index.js:111 | `INSERT OR REPLACE`: the new row is last; no earlier row clashes with it; every other row was an old row that does not clash; every non-clashing old row is kept |
| Tables.WherePairwise | server/index.js:111 | deleting rows keeps any relation the remaining rows had in table order |
| Tables.AppendPairwise | server/index.js:121 | appending a row related to every existing row keeps the relation |
| Tables.InsertOrReplacePairwise | server/index.js:370 | `INSERT OR REPLACE` keeps a relation when the new row is related to every row it does not displace |
| Schema.FindUser | server/index.js:291 | finds a user with the requested id, and finds none exactly when no row has that id |
| Schema.FindRoom | server/index.js:171 | finds a room with the requested id, and finds none exactly when the room does not exist |
| Schema.IsAdmin | server/index.js:332 | true exactly when the room has the given user as `admin_id` |
| Schema.MayAssignAdmin | server/index.js:310-311 | true exactly when the room has the given user as `admin_id` or as `creator_id` |
| Schema.UpsertUser | server/index.js:110-111 | the new user row is present; every other row is an old row sharing neither its id nor its email; every old row sharing neither is kept |
| Schema.InsertRoom | server/index.js:120-122 | the insert fails exactly when the room id is taken, and otherwise appends the room |
| Schema.UpdateAdmin | server/index.js:318 | only `admin_id` of the rows with that room id changes; every other room is untouched |
| Schema.InsertMember | server/index.js:131 | the insert fails exactly when the user is already a member of the room, and otherwise appends the membership |
| Schema.InsertOrIgnoreMember | server/index.js:183 | joining twice keeps the first membership and its `joined_at`; a first join appends the membership |
| Schema.DeactivateVotes | server/index.js:339 | every vote of the room ends inactive; votes of other rooms and all other columns are untouched |
| Schema.InsertVote | server/index.js:347-349 | the insert fails exactly when the vote id is taken, and otherwise appends the vote |
| Schema.MarkRevealed | server/index.js:396 | sets `revealed_at` on the vote with that id, whatever its room; any other vote, or an unknown id, changes nothing |
| Schema.UpsertResponse | server/index.js:368-372 | the latest response is the last row and the only row for (vote, user); the other rows are exactly the old rows for other keys |
| Schema.UpsertUserKeepsDistinct | server/index.js:111 | after the upsert, ids and emails stay unique and looking the id up finds the new row |
| Schema.UpdateAdminKeepsRooms | server/index.js:318 | changing the admin keeps room ids unique and every room present |
| Schema.AdminHandOver | server/index.js:308-326 | after set-admin, the new admin passes the start/reveal check and nobody else does, not even the creator; the creator still passes the set-admin check |
| Schema.StartedVoteIsOnlyActive | server/index.js:339-350 | after deactivation and the insert of a fresh active vote, the new vote is the only active vote of its room, and vote ids stay unique |
| Schema.DeactivateKeepsDistinct | server/index.js:339 | deactivation keeps vote ids unique and at most one active vote per room |
| Schema.MarkRevealedKeepsDistinct | server/index.js:396 | revealing keeps vote ids unique and at most one active vote per room |
| Schema.UpsertResponseKeepsDistinct | server/index.js:370 | a response upsert keeps (vote, user) unique |
| Schema.AddMemberKeepsOrder | server/index.js:131 | a membership added later than every existing one keeps the table unique and in joining order |
| Schema.UpsertUserKeepsConsistent | server/index.js:110-118 | the users upsert keeps the whole invariant, before and after the clock ticks |
| Schema.NewRoomKeepsConsistent | server/index.js:120-137 | after a fresh room id, the creator's membership insert cannot fail, and room plus membership keep the invariant |
| Schema.NewMemberKeepsConsistent | server/index.js:182-185 | joining an existing room keeps the invariant |
| Schema.SetAdminKeepsConsistent | server/index.js:318 | set-admin keeps the invariant |
| Schema.StartVoteKeepsConsistent | server/index.js:339-354 | deactivation keeps the invariant; the vote insert fails exactly when the id was in use; otherwise the insert keeps the invariant |
| Schema.SubmitVoteKeepsConsistent | server/index.js:370 | submit-vote keeps the invariant |
| Schema.RevealKeepsConsistent | server/index.js:396 | reveal-votes keeps the invariant |
| Queries.RoomCode | server/index.js:92-95 | the room code has three decimal digits, no leading zero, and spells 100 + draw, a number from 100 to 999 |
| Queries.AsParticipant | server/index.js:220-222 | a membership joins with its user exactly when the user row exists; the result carries the user id and `joined_at` of the membership and the `name` and `email` of that user row |
| Queries.AsResponse | server/index.js:248-250 | a response joins with its submitter exactly when the user row exists; the result carries vote id, user id, value and `submitted_at` of the response, and the submitter's `name` as `user_name` |
| Queries.ParticipantsOf | server/index.js:219-225 | lists only members of the room that have a user row, and lists every such member |
| Queries.ParticipantsInJoinOrder | server/index.js:224 | in a table kept in joining order, the listed participants are in strictly increasing `joined_at` order, each user once, as the `ORDER BY rp.joined_at` asks |
| Queries.LatestActiveVote | server/index.js:232-239 | the current vote is an active vote of the room with a user row for `started_by` and the latest `started_at`, with that user's name; it is absent exactly when no vote qualifies |
| Queries.CurrentIsTheActiveVote | server/index.js:232-239 | with at most one active vote per room, the current vote is the room's active vote |
| Queries.ResponsesOf | server/index.js:247-252 | lists only responses to that vote with a user row, and lists every such response |
| Queries.OneResponsePerUser | server/index.js:76-84 | because responses are keyed by (vote, user), a vote's response list names each submitter once |
| Queries.GetRoom | server/index.js:200-277 | answers 404 "Room not found" exactly when the room does not exist or its admin has no user row; otherwise returns that room |
| Queries.RoomStateMeaning | server/index.js:200-277 | in a consistent database the room state gives: the admin's name; exactly the room's members that have a user row, in joining order, each once; as current vote, the room's active vote or none; exactly that vote's stored responses (each listed row is the join of a stored response of that vote), one per submitter |
| Queries.UnknownAdminHidesRoom | server/index.js:204-216 | after the admin is handed to an id with no user row, GET answers 404 for an existing room |
| Queries.LateRevealKeepsCurrentVote | server/index.js:387-397 | after a second start-vote, revealing the first vote leaves the second as the room's current vote |
| Gateway.Recipients | server/index.js:301 | an emit to the caller reaches only the caller; a `socket.to` emit never reaches the caller; a room emit reaches exactly the sockets that joined the room, less the caller for `socket.to` |
| Gateway.Disclosed | server/index.js:381 | only a `votes-revealed` event carries vote values, and only the values of its responses |
| PokerServer.Server.constructor | server/index.js:28-84 | a server with empty tables, no live users, no groups and no events, consistent |
| PokerServer.Server.Tick | server/index.js:35 | returns the current timestamp and advances the clock by one |
| PokerServer.Server.CreateRoom | server/index.js:100-149 | a missing field gives 400 and changes nothing. Otherwise: the user is upserted; a taken room code gives exactly 500 "Database error" and leaves rooms and memberships as they were; else the room has the creator as creator and admin, the creator is a member, and the reply carries code, name and admin; the invariant holds |
| PokerServer.Server.AddRoom | server/index.js:120-146 | the room insert fails with 500 exactly when the code is taken; otherwise room and creator membership are appended and the reply names the room |
| PokerServer.Server.JoinRoom | server/index.js:152-197 | a missing field gives 400 and changes nothing. Otherwise: the user is upserted; an unknown room gives exactly 404 "Room not found" and writes no membership; else the membership is inserted unless present and the room row is returned; the invariant holds |
| PokerServer.Server.EnterRoom | server/index.js:171-193 | 404 "Room not found" exactly when the room does not exist; otherwise INSERT OR IGNORE of the membership, and the room row |
| PokerServer.Server.OnJoinRoom | server/index.js:287-306 | an unknown user gets `error` "User not found" only. Otherwise: the socket joins the room group; `activeUsers` maps it to (user id, room, user row); `user-joined` goes to the others in the room, then `room-joined` to the caller. No table changes |
| PokerServer.Server.OnSetAdmin | server/index.js:308-328 | a requester who is neither admin nor creator gets `error` and nothing changes; otherwise only `admin_id` changes and `admin-changed` goes to the whole room |
| PokerServer.Server.OnStartVote | server/index.js:330-366 | a requester who is not the room's admin gets `error` "Not authorized to start vote" and no table or clock changes. Otherwise: the room's votes are deactivated; a taken id gives "Failed to create vote"; else the new active, unrevealed vote by the requester is appended and `vote-started` goes to the whole room |
| PokerServer.Server.OpenVote | server/index.js:338-364 | deactivation, then the vote insert: fails exactly when the id was in use, otherwise appends the vote and announces it to the whole room |
| PokerServer.Server.OnSubmitVote | server/index.js:368-385 | the response is upserted whether or not the vote exists, is active or is revealed. `vote-submitted` goes only if the socket is registered, to its room without the sender, and discloses no value |
| PokerServer.Server.OnRevealVotes | server/index.js:387-419 | a requester who is not the admin of `roomId` gets `error` and nothing changes. Otherwise `revealed_at` is set on the vote with that id in any room, and `votes-revealed` with exactly that vote's joined responses goes to the whole room |
| PokerServer.Server.OnDisconnect | server/index.js:421-430 | the socket leaves every group. If it was registered, `user-left` goes to the rest of its room and its entry is removed. Tables are untouched, so memberships stay |

## Left out

- Express, CORS, socket.io connection handling and `server.listen` are not modelled. Rooms are broadcast groups; emits are entries appended to `outbox`.
- Database failures other than key clashes are not modelled: disk and I/O errors, constraint failures caused by a NULL field (see below), and the 500 / "Database error" / "Failed to update admin" / "Failed to submit vote" branches they lead to. The key clashes that can happen are modelled: the room code on create, the vote id on start-vote. The membership clash on create is proved impossible.
- `Math.random()` (floating point) and `uuidv4()` (crypto randomness) are not modelled; their outputs are the parameters `draw` and `voteId`.
- Real timestamps have one-second resolution, so two rows written in the same second compare equal. The model's clock ticks once per writing handler, so its timestamps are strictly increasing. `ORDER BY joined_at` therefore agrees with table order in the model; on real equal timestamps SQLite leaves the order of ties open.
- Queries.LatestActiveVote: on equal `started_at` it picks the later row, while SQLite leaves the choice open. In a consistent database a room has at most one active vote, so the tie-break decides nothing in the model; that invariant itself rests on handlers running atomically (see below).
- Foreign keys are declared but not enforced, since SQLite enforces them only when `PRAGMA foreign_keys` is on, which the server never does. The model therefore lets memberships, votes and responses name missing users or votes, as the code does.
- Interleaving between handlers is not modelled. In the source each handler is a chain of database callbacks (for start-vote: the admin check, then the UPDATE, then the INSERT), and other handlers may run between them. Two overlapping `start-vote` commands for one room can both run their UPDATE before either INSERT and leave two active votes. The model runs every handler as one atomic step; the one-active-vote clause of Schema.Consistent and Schema.StartedVoteIsOnlyActive hold only under that atomicity.
- Request fields that are `null`, numbers or other non-string JSON values are not modelled. On the REST routes absent or empty is the empty string, as both fail the same truthiness check.
- PokerServer.Server.OnStartVote: a `start-vote` payload without `voteName` binds NULL, so the vote INSERT fails on `name NOT NULL` after the room's votes were already deactivated; the source then leaves the room with no active vote and sends only `error` "Failed to create vote". The model takes the field as a string and inserts a vote named `""` (likewise PokerServer.Server.OpenVote).
- PokerServer.Server.OnSubmitVote: a `submit-vote` payload without `voteId`, `userId` or `value` binds NULL, so the REPLACE fails on the NOT NULL column and the source stores nothing and sends `error` "Failed to submit vote". The model stores the row with `""` in that column.
- PokerServer.Server.OnSetAdmin: a `set-admin` payload without `newAdminId` binds NULL, so the UPDATE fails on `admin_id NOT NULL` and the source sends `error` "Failed to update admin". The model sets `admin_id` to `""` and broadcasts `admin-changed`.
- The constant `message` texts of successful replies ("Room created successfully", "Joined room successfully") are left out of the reply bodies.
- The `created_at` column of `users` and `rooms` is stamped with the handler's tick and carried in `User.createdAt` and `Room.createdAt`, so it reaches every reply and event that returns a whole row (`SELECT r.*`, `SELECT * FROM rooms`, `SELECT * FROM users`). No contract speaks about its value beyond the tick it was stamped with.
- Response lists (GET's `voteResponses` and the `votes-revealed` payload) are queried without `ORDER BY`, so SQLite may return them in any order, typically that of the (vote_id, user_id) key index. Queries.ResponsesOf returns them in table (rowid) order; that order is the model's choice, and PokerServer.Server.OnRevealVotes pins that sequence. Only the set of listed responses and their one-per-submitter property are what the source determines.
- Schema.UpsertUser: no contract says the row order beyond what `INSERT OR REPLACE` implies (old rows in order, new row last). Only membership and uniqueness are stated.
- The client application (React components, the socket hook, type declarations) and the process bootstrap files are not part of this model.
