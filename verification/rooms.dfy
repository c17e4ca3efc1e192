/** Room lifecycle: creation with validated options, the creator's listing, and the room view. */
module Rooms {
  import opened Wrappers
  import opened Seqs
  import opened Text
  import opened Store
  import opened Closure

  /** A created room, its options in the order given, and the database after the insert. */
  datatype RoomCreated = RoomCreated(room: Room, options: seq<RoomOption>, store: Store)

  /** The option rows inserted with a room: one per text, in order, with consecutive fresh ids. */
  function NewOptions(texts: seq<string>, roomId: RoomId, firstId: nat): seq<RoomOption>
  {
    seq(|texts|, i requires 0 <= i < |texts| => RoomOption(firstId + i, texts[i], roomId))
  }

  /** The request-body check of `createDecisionRoom`: title, explanation and deadline present and
      non-empty, an options array of two to five entries. Option texts themselves are not checked. */
  predicate WellFormedRequest(title: Option<string>, explanation: Option<string>,
                              options: Option<seq<string>>, deadline: Option<int>)
  {
    Truthy(title) && Truthy(explanation) && options.Some? && 2 <= |options.value| <= 5 && deadline.Some?
  }

  /** `createDecisionRoom`. The room and all its options are inserted together or not at all.
      The deadline is not compared with the current time, so a past deadline is accepted. */
  function CreateDecisionRoom(s: Store, caller: Option<UserId>, title: Option<string>,
                              explanation: Option<string>, options: Option<seq<string>>,
                              deadline: Option<int>): (r: Result<RoomCreated, Error>)
    ensures !Truthy(caller) ==> r == Failure(Unauthenticated)
    ensures Truthy(caller) && !WellFormedRequest(title, explanation, options, deadline) ==>
              r == Failure(Validation)
    ensures r.Success? <==> Truthy(caller) && WellFormedRequest(title, explanation, options, deadline)
    ensures r.Success? ==>
      var c := r.value;
      && c.room.creatorId == caller.value
      && c.room.title == title.value && c.room.explanation == explanation.value
      && c.room.deadline == deadline.value
      && |c.options| == |options.value|
      && (forall i :: 0 <= i < |c.options| ==>
            c.options[i].text == options.value[i] && c.options[i].roomId == c.room.id)
      && c.store.rooms == s.rooms + [c.room]
      && c.store.options == s.options + c.options
      && c.store.votes == s.votes
      && c.store.users == s.users
  {
    if !Truthy(caller) then Failure(Unauthenticated)
    else if !WellFormedRequest(title, explanation, options, deadline) then Failure(Validation)
    else
      var room := Room(s.nextId, title.value, explanation.value, deadline.value, caller.value);
      var opts := NewOptions(options.value, room.id, s.nextId + 1);
      Success(RoomCreated(room, opts, s.(rooms := s.rooms + [room], options := s.options + opts,
                                         nextId := s.nextId + 1 + |opts|)))
  }

  /** The database after inserting `room` with `opts`, as `CreateDecisionRoom` builds it. */
  predicate IsInsert(s: Store, room: Room, opts: seq<RoomOption>, s': Store)
  {
    && room.id == s.nextId
    && 2 <= |opts| <= 5
    && (forall k :: 0 <= k < |opts| ==> opts[k].id == s.nextId + 1 + k && opts[k].roomId == room.id)
    && s' == s.(rooms := s.rooms + [room], options := s.options + opts, nextId := s.nextId + 1 + |opts|)
  }

  lemma InsertKeepsIds(s: Store, room: Room, opts: seq<RoomOption>, s': Store)
    requires Valid(s) && IsInsert(s, room, opts, s')
    ensures IdsIssued(s') && IdsDistinct(s')
  {
  }

  lemma InsertKeepsOwnership(s: Store, room: Room, opts: seq<RoomOption>, s': Store)
    requires Valid(s) && IsInsert(s, room, opts, s')
    ensures OptionsOwned(s') && VotesOnOwnOptions(s') && SingleVote(s'.votes)
  {
    forall k | 0 <= k < |s'.options|
      ensures FindRoom(s'.rooms, s'.options[k].roomId).Some?
    {
      FindRoomSnoc(s.rooms, room, s'.options[k].roomId);
      if k < |s.options| {
        assert s'.options[k] == s.options[k];
      } else {
        assert s'.options[k] == opts[k - |s.options|];
      }
    }
    forall k | 0 <= k < |s'.votes|
      ensures OptionInRoom(s'.options, s'.votes[k].optionId, s'.votes[k].roomId)
    {
      assert OptionInRoom(s.options, s.votes[k].optionId, s.votes[k].roomId);
      var m :| 0 <= m < |s.options| && s.options[m].id == s.votes[k].optionId
               && s.options[m].roomId == s.votes[k].roomId;
      assert s'.options[m] == s.options[m];
    }
  }

  /** Every stored option belongs to a room whose id is below the counter. */
  lemma OwnersIssued(s: Store)
    requires Valid(s)
    ensures forall k :: 0 <= k < |s.options| ==> s.options[k].roomId < s.nextId
  {
    forall k | 0 <= k < |s.options| ensures s.options[k].roomId < s.nextId {
      var found := FindRoom(s.rooms, s.options[k].roomId).value;
      var j :| 0 <= j < |s.rooms| && s.rooms[j] == found;
    }
  }

  lemma InsertOptionsOfNewRoom(s: Store, room: Room, opts: seq<RoomOption>, s': Store)
    requires Valid(s) && IsInsert(s, room, opts, s')
    ensures RoomOptions(s', room.id) == opts
  {
    OwnersIssued(s);
    FilterAppend(s.options, opts, OfRoom(room.id));
    FilterNone(s.options, OfRoom(room.id));
    FilterAll(opts, OfRoom(room.id));
  }

  lemma InsertOptionsOfOldRoom(s: Store, room: Room, opts: seq<RoomOption>, s': Store, id: RoomId)
    requires Valid(s) && IsInsert(s, room, opts, s')
    requires id < s.nextId
    ensures RoomOptions(s', id) == RoomOptions(s, id)
  {
    FilterAppend(s.options, opts, OfRoom(id));
    FilterNone(opts, OfRoom(id));
  }

  lemma InsertKeepsCounts(s: Store, room: Room, opts: seq<RoomOption>, s': Store)
    requires Valid(s) && IsInsert(s, room, opts, s')
    ensures OptionCounts(s')
  {
    InsertOptionsOfNewRoom(s, room, opts, s');
    forall k | 0 <= k < |s'.rooms|
      ensures 2 <= |RoomOptions(s', s'.rooms[k].id)| <= 5
    {
      if k < |s.rooms| {
        assert s'.rooms[k] == s.rooms[k];
        InsertOptionsOfOldRoom(s, room, opts, s', s.rooms[k].id);
      }
    }
  }

  /** Each inserted option is found by its id and belongs to the new room. */
  lemma InsertedOptionsFound(s: Store, room: Room, opts: seq<RoomOption>, s': Store)
    requires IdsIssued(s) && IsInsert(s, room, opts, s')
    ensures forall i :: 0 <= i < |opts| ==> OptionInRoom(s'.options, opts[i].id, room.id)
    ensures forall i, j :: 0 <= i < j < |opts| ==> opts[i].id != opts[j].id
    ensures forall i :: 0 <= i < |opts| ==> FindOption(s'.options, opts[i].id) == Some(opts[i])
  {
    forall i | 0 <= i < |opts|
      ensures OptionInRoom(s'.options, opts[i].id, room.id)
      ensures FindOption(s'.options, opts[i].id) == Some(opts[i])
    {
      assert s'.options[|s.options| + i] == opts[i];
      FindOptionPast(s.options, opts, opts[i].id);
      var found := FindOption(opts, opts[i].id).value;
      var m :| 0 <= m < |opts| && opts[m] == found;
    }
  }

  /** Creation keeps every schema invariant: fresh distinct ids, options owned by their room,
      two to five options per room, votes untouched. The new room's id was unused, its options
      are exactly the ones inserted, and no earlier room gains or loses an option. */
  lemma CreatePreservesValid(s: Store, caller: Option<UserId>, title: Option<string>,
                             explanation: Option<string>, options: Option<seq<string>>,
                             deadline: Option<int>)
    requires Valid(s)
    ensures var r := CreateDecisionRoom(s, caller, title, explanation, options, deadline);
            r.Success? ==>
              && Valid(r.value.store)
              && FindRoom(s.rooms, r.value.room.id).None?
              && RoomOptions(r.value.store, r.value.room.id) == r.value.options
              && (forall k :: 0 <= k < |s.rooms| ==>
                    RoomOptions(r.value.store, s.rooms[k].id) == RoomOptions(s, s.rooms[k].id))
  {
    var r := CreateDecisionRoom(s, caller, title, explanation, options, deadline);
    if r.Success? {
      var c := r.value;
      assert IsInsert(s, c.room, c.options, c.store);
      InsertKeepsIds(s, c.room, c.options, c.store);
      InsertKeepsOwnership(s, c.room, c.options, c.store);
      InsertKeepsCounts(s, c.room, c.options, c.store);
      InsertOptionsOfNewRoom(s, c.room, c.options, c.store);
      forall k | 0 <= k < |s.rooms|
        ensures RoomOptions(c.store, s.rooms[k].id) == RoomOptions(s, s.rooms[k].id)
      {
        InsertOptionsOfOldRoom(s, c.room, c.options, c.store, s.rooms[k].id);
      }
    }
  }

  /** A room's summary in the creator's listing: the room with its options and votes. */
  datatype RoomSummary = RoomSummary(room: Room, options: seq<RoomOption>, votes: seq<Vote>)

  function CreatedBy(u: UserId): Room -> bool
  {
    (room: Room) => room.creatorId == u
  }

  function Summarize(s: Store, room: Room): RoomSummary
  {
    RoomSummary(room, RoomOptions(s, room.id), RoomVotes(s, room.id))
  }

  /** The rooms created by `u`, newest first (`orderBy: { createdAt: "desc" }`). */
  function CreatorRooms(s: Store, u: UserId): seq<Room>
  {
    Reverse(Filter(s.rooms, CreatedBy(u)))
  }

  /** `getDecisionRooms`: the caller's own rooms, newest first, each with its options and votes. */
  function GetDecisionRooms(s: Store, caller: Option<UserId>): (r: Result<seq<RoomSummary>, Error>)
    ensures r.Failure? <==> !Truthy(caller)
    ensures r.Failure? ==> r.error == Unauthenticated
    ensures r.Success? ==>
              && |r.value| == |CreatorRooms(s, caller.value)|
              && forall k :: 0 <= k < |r.value| ==>
                   && r.value[k].room == CreatorRooms(s, caller.value)[k]
                   && r.value[k].room.creatorId == caller.value
                   && r.value[k].options == RoomOptions(s, r.value[k].room.id)
                   && r.value[k].votes == RoomVotes(s, r.value[k].room.id)
  {
    if !Truthy(caller) then Failure(Unauthenticated)
    else
      var mine := CreatorRooms(s, caller.value);
      Success(seq(|mine|, k requires 0 <= k < |mine| => Summarize(s, mine[k])))
  }

  /** The listing holds every room of the caller and no other, each once: `ix` are the
      increasing store positions of exactly the caller's rooms, one per listed room. */
  lemma ListingMembers(s: Store, u: UserId)
    ensures |CreatorRooms(s, u)| == |Positions(s.rooms, CreatedBy(u))|
    ensures StrictlyIncreasing(Positions(s.rooms, CreatedBy(u)))
    ensures forall i :: 0 <= i < |s.rooms| ==>
              (i in Positions(s.rooms, CreatedBy(u)) <==> s.rooms[i].creatorId == u)
  {
    FilterExact(s.rooms, CreatedBy(u));
    forall i | 0 <= i < |s.rooms|
      ensures CreatedBy(u)(s.rooms[i]) <==> s.rooms[i].creatorId == u
    {
    }
  }

  /** The listing is newest first: the caller's `j`-th room in creation order, at store
      position `ix[j]`, is listed at position `|ix| - 1 - j`. */
  lemma ListingNewestFirst(s: Store, u: UserId)
    ensures var ix := Positions(s.rooms, CreatedBy(u));
            forall j :: 0 <= j < |ix| ==>
              ix[j] < |s.rooms| && CreatorRooms(s, u)[|ix| - 1 - j] == s.rooms[ix[j]]
  {
    var mine := Filter(s.rooms, CreatedBy(u));
    var ix := Positions(s.rooms, CreatedBy(u));
    forall j | 0 <= j < |ix|
      ensures ix[j] < |s.rooms| && CreatorRooms(s, u)[|ix| - 1 - j] == s.rooms[ix[j]]
    {
      assert CreatorRooms(s, u)[|ix| - 1 - j] == mine[j];
    }
  }

  /** The room as `getDecisionRoomById` shows it: never the requester's chosen option, only
      whether they voted. */
  datatype RoomView = RoomView(room: Room, options: seq<RoomOption>, hasVoted: bool,
                               isCreator: bool, votingClosed: bool)

  /** `getDecisionRoomById`. The handler itself does not reject an absent caller. */
  function GetDecisionRoomById(s: Store, id: RoomId, caller: Option<UserId>, now: int): (r: Result<RoomView, Error>)
    ensures r.Failure? <==> FindRoom(s.rooms, id).None?
    ensures r.Failure? ==> r.error == NotFound
    ensures r.Success? ==>
      && r.value.room in s.rooms && r.value.room.id == id
      && r.value.options == RoomOptions(s, id)
      && (r.value.hasVoted <==> Truthy(caller) && HasVoted(s.votes, id, caller.value))
      && (r.value.isCreator <==> caller == Some(r.value.room.creatorId))
      && (r.value.votingClosed <==> now > r.value.room.deadline)
  {
    match FindRoom(s.rooms, id)
    case None => Failure(NotFound)
    case Some(room) =>
      Success(RoomView(room, RoomOptions(s, id),
                       Truthy(caller) && HasVoted(s.votes, id, caller.value),
                       caller == Some(room.creatorId),
                       IsVotingClosed(room.deadline, now)))
  }

  /** The (room, voter) pairs of a vote list, with options and comments forgotten. */
  function Ballots(votes: seq<Vote>): seq<(RoomId, UserId)>
  {
    seq(|votes|, k requires 0 <= k < |votes| => (votes[k].roomId, votes[k].voterId))
  }

  /** The room view does not leak which option anyone chose or what they wrote: two databases
      with the same rooms, options and (room, voter) pairs give the same view. */
  lemma ViewHidesChoices(s1: Store, s2: Store, id: RoomId, caller: Option<UserId>, now: int)
    requires s1.rooms == s2.rooms && s1.options == s2.options
    requires Ballots(s1.votes) == Ballots(s2.votes)
    ensures GetDecisionRoomById(s1, id, caller, now) == GetDecisionRoomById(s2, id, caller, now)
  {
    if Truthy(caller) {
      var u := caller.value;
      assert |s1.votes| == |Ballots(s1.votes)| == |s2.votes|;
      if HasVoted(s1.votes, id, u) {
        var k :| 0 <= k < |s1.votes| && s1.votes[k].roomId == id && s1.votes[k].voterId == u;
        assert Ballots(s1.votes)[k] == Ballots(s2.votes)[k];
      }
      if HasVoted(s2.votes, id, u) {
        var k :| 0 <= k < |s2.votes| && s2.votes[k].roomId == id && s2.votes[k].voterId == u;
        assert Ballots(s1.votes)[k] == Ballots(s2.votes)[k];
      }
    }
  }

  /** Right after creation, the creator's view of the new room shows exactly the given option
      texts in order, marks the creator, reports no vote, and is closed iff the deadline is past. */
  lemma CreateThenView(s: Store, u: UserId, title: Option<string>, explanation: Option<string>,
                       options: Option<seq<string>>, deadline: Option<int>, now: int)
    requires Valid(s)
    requires u != ""
    requires WellFormedRequest(title, explanation, options, deadline)
    ensures var c := CreateDecisionRoom(s, Some(u), title, explanation, options, deadline).value;
            var v := GetDecisionRoomById(c.store, c.room.id, Some(u), now);
            && v.Success?
            && |v.value.options| == |options.value|
            && (forall i :: 0 <= i < |options.value| ==> v.value.options[i].text == options.value[i])
            && v.value.isCreator
            && !v.value.hasVoted
            && (v.value.votingClosed <==> now > deadline.value)
  {
    var c := CreateDecisionRoom(s, Some(u), title, explanation, options, deadline).value;
    CreatePreservesValid(s, Some(u), title, explanation, options, deadline);
    FindRoomSnoc(s.rooms, c.room, c.room.id);
    OwnersIssued(s);
  }

  /** A room created by `u` heads `u`'s listing. */
  lemma CreateThenListFirst(s: Store, u: UserId, title: Option<string>, explanation: Option<string>,
                            options: Option<seq<string>>, deadline: Option<int>)
    requires u != ""
    requires WellFormedRequest(title, explanation, options, deadline)
    ensures var c := CreateDecisionRoom(s, Some(u), title, explanation, options, deadline).value;
            var l := GetDecisionRooms(c.store, Some(u));
            l.Success? && |l.value| > 0 && l.value[0].room == c.room
  {
    var c := CreateDecisionRoom(s, Some(u), title, explanation, options, deadline).value;
    FilterSnoc(s.rooms, c.room, CreatedBy(u));
  }
}
