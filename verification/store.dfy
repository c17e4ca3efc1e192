/** The persisted entities (User, DecisionRoom, Option, Vote) as one immutable store value. */
module Store {
  import opened Wrappers
  import opened Seqs

  type UserId = string
  type RoomId = nat
  type OptionId = nat
  type VoteId = nat

  datatype User = User(id: UserId, username: string)

  /** A decision room. Its creation time is its position in `Store.rooms`. */
  datatype Room = Room(id: RoomId, title: string, explanation: string, deadline: int, creatorId: UserId)

  /** One selectable option of a room (the `Option` table). */
  datatype RoomOption = RoomOption(id: OptionId, text: string, roomId: RoomId)

  /** A cast vote. `voterId` is the voter's identifier, `userId` the nullable link to the
      voter's User row; its creation time is its position in `Store.votes`. */
  datatype Vote = Vote(id: VoteId, roomId: RoomId, optionId: OptionId, voterId: UserId,
                       userId: Option<UserId>, comment: Option<string>)

  /** The database. Rooms, options and votes are kept in creation order; `nextId` is the
      next unused identifier for a room, option or vote. */
  datatype Store = Store(users: seq<User>, rooms: seq<Room>, options: seq<RoomOption>,
                         votes: seq<Vote>, nextId: nat)

  /** The failures a handler answers with. */
  datatype Error =
    | Unauthenticated   // 401
    | Validation        // 400, missing or malformed room fields
    | NotFound          // 404, no room with that id
    | Forbidden         // 403, live tally requested by a non-creator
    | VotingClosed      // 400, the deadline has passed
    | InvalidOption     // 400, the option is not one of the room's
    | DuplicateVote     // 409, the voter already voted in the room

  /** `findUnique` on rooms: the room with identifier `id`, if any. */
  function FindRoom(rooms: seq<Room>, id: RoomId): (r: Option<Room>)
    ensures r.Some? ==> r.value in rooms && r.value.id == id
    ensures r.None? <==> forall k :: 0 <= k < |rooms| ==> rooms[k].id != id
  {
    if |rooms| == 0 then None
    else if rooms[0].id == id then Some(rooms[0])
    else FindRoom(rooms[1..], id)
  }

  /** The User row with identifier `id`, if any. */
  function FindUser(users: seq<User>, id: UserId): (r: Option<User>)
    ensures r.Some? ==> r.value in users && r.value.id == id
    ensures r.None? <==> forall k :: 0 <= k < |users| ==> users[k].id != id
  {
    if |users| == 0 then None
    else if users[0].id == id then Some(users[0])
    else FindUser(users[1..], id)
  }

  /** The Option row with identifier `id`, if any. */
  function FindOption(options: seq<RoomOption>, id: OptionId): (r: Option<RoomOption>)
    ensures r.Some? ==> r.value in options && r.value.id == id
    ensures r.None? <==> forall k :: 0 <= k < |options| ==> options[k].id != id
  {
    if |options| == 0 then None
    else if options[0].id == id then Some(options[0])
    else FindOption(options[1..], id)
  }

  /** With unique room ids, looking a stored room up by its id finds that room. */
  lemma FindStoredRoom(s: Store, room: Room)
    requires IdsDistinct(s)
    requires room in s.rooms
    ensures FindRoom(s.rooms, room.id) == Some(room)
  {
    var j :| 0 <= j < |s.rooms| && s.rooms[j] == room;
    var m :| 0 <= m < |s.rooms| && s.rooms[m] == FindRoom(s.rooms, room.id).value;
  }

  /** Appending a room never hides an earlier room with the same id. */
  lemma {:induction false} FindRoomSnoc(rooms: seq<Room>, room: Room, id: RoomId)
    ensures FindRoom(rooms + [room], id) ==
      if FindRoom(rooms, id).Some? then FindRoom(rooms, id)
      else if room.id == id then Some(room) else None
  {
    if |rooms| > 0 {
      assert (rooms + [room])[1..] == rooms[1..] + [room];
      FindRoomSnoc(rooms[1..], room, id);
    }
  }

  /** Appending options never hides an earlier option with the same id. */
  lemma {:induction false} FindOptionAppend(options: seq<RoomOption>, more: seq<RoomOption>, id: OptionId)
    requires FindOption(options, id).Some?
    ensures FindOption(options + more, id) == FindOption(options, id)
  {
    if options[0].id != id {
      assert (options + more)[1..] == options[1..] + more;
      FindOptionAppend(options[1..], more, id);
    }
  }

  /** Looking past options that do not carry the id. */
  lemma {:induction false} FindOptionPast(options: seq<RoomOption>, more: seq<RoomOption>, id: OptionId)
    requires forall k :: 0 <= k < |options| ==> options[k].id != id
    ensures FindOption(options + more, id) == FindOption(more, id)
  {
    if |options| > 0 {
      assert (options + more)[0] == options[0];
      assert (options + more)[1..] == options[1..] + more;
      FindOptionPast(options[1..], more, id);
    } else {
      assert options + more == more;
    }
  }

  /** `option.findFirst({ id, decisionRoomId })`: the option exists and belongs to the room. */
  predicate OptionInRoom(options: seq<RoomOption>, optionId: OptionId, roomId: RoomId)
  {
    exists k :: 0 <= k < |options| && options[k].id == optionId && options[k].roomId == roomId
  }

  /** `vote.findFirst({ decisionRoomId, voterId })`: the voter already has a vote in the room. */
  predicate HasVoted(votes: seq<Vote>, roomId: RoomId, voter: UserId)
  {
    exists k :: 0 <= k < |votes| && votes[k].roomId == roomId && votes[k].voterId == voter
  }

  function OfRoom(roomId: RoomId): RoomOption -> bool
  {
    (o: RoomOption) => o.roomId == roomId
  }

  function InRoom(roomId: RoomId): Vote -> bool
  {
    (v: Vote) => v.roomId == roomId
  }

  /** The options of a room, in creation order. */
  function RoomOptions(s: Store, roomId: RoomId): seq<RoomOption>
  {
    Filter(s.options, OfRoom(roomId))
  }

  /** The votes of a room, in creation order. */
  function RoomVotes(s: Store, roomId: RoomId): seq<Vote>
  {
    Filter(s.votes, InRoom(roomId))
  }

  /** The single-vote invariant: no two votes share a (room, voter) pair. */
  predicate SingleVote(votes: seq<Vote>)
  {
    forall a, b :: 0 <= a < b < |votes| && votes[a].roomId == votes[b].roomId ==>
      votes[a].voterId != votes[b].voterId
  }

  /** Every stored identifier was drawn from the counter. */
  predicate IdsIssued(s: Store)
  {
    && (forall k :: 0 <= k < |s.rooms| ==> s.rooms[k].id < s.nextId)
    && (forall k :: 0 <= k < |s.options| ==> s.options[k].id < s.nextId)
    && (forall k :: 0 <= k < |s.votes| ==> s.votes[k].id < s.nextId)
  }

  /** Identifiers are unique within each table. */
  predicate IdsDistinct(s: Store)
  {
    && (forall a, b :: 0 <= a < b < |s.rooms| ==> s.rooms[a].id != s.rooms[b].id)
    && (forall a, b :: 0 <= a < b < |s.options| ==> s.options[a].id != s.options[b].id)
    && (forall a, b :: 0 <= a < b < |s.votes| ==> s.votes[a].id != s.votes[b].id)
  }

  /** Every option belongs to a stored room. */
  predicate OptionsOwned(s: Store)
  {
    forall k :: 0 <= k < |s.options| ==> FindRoom(s.rooms, s.options[k].roomId).Some?
  }

  /** Every vote names an option of its own room (no cross-room votes). */
  predicate VotesOnOwnOptions(s: Store)
  {
    forall k :: 0 <= k < |s.votes| ==> OptionInRoom(s.options, s.votes[k].optionId, s.votes[k].roomId)
  }

  /** Every room has between two and five options. */
  predicate OptionCounts(s: Store)
  {
    forall k :: 0 <= k < |s.rooms| ==> 2 <= |RoomOptions(s, s.rooms[k].id)| <= 5
  }

  /** The schema invariants a reachable database satisfies. */
  predicate Valid(s: Store)
  {
    && IdsIssued(s)
    && IdsDistinct(s)
    && OptionsOwned(s)
    && VotesOnOwnOptions(s)
    && SingleVote(s.votes)
    && OptionCounts(s)
  }

  /** A database with its registered users and nothing else. */
  function Initial(users: seq<User>): (s: Store)
    ensures Valid(s)
    ensures s.users == users
  {
    Store(users, [], [], [], 0)
  }
}
