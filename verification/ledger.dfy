/** The vote ledger: `voteInDecisionRoom` and the invariants it keeps. */
module Ledger {
  import opened Wrappers
  import opened Seqs
  import opened Text
  import opened Store
  import opened Closure
  import opened Tally
  import opened Justifications

  /** A recorded vote: the room's recomputed tally and feed, and the database after the insert. */
  datatype VoteCast = VoteCast(newTally: map<OptionId, nat>, newJustifications: seq<Justification>, store: Store)

  /** `comment || null`: a missing or empty comment is stored as null, any other text as given. */
  function StoredComment(comment: Option<string>): (c: Option<string>)
    ensures c.None? <==> !Truthy(comment)
    ensures c.Some? ==> c == comment && c.value != ""
  {
    if Truthy(comment) then comment else None
  }

  /** `voteInDecisionRoom`: the checks run in a fixed order (caller, room, deadline, option,
      earlier vote) and the first that fails decides the error; when all pass exactly one vote
      is appended and the room's tally and feed are recomputed from the new database. */
  function VoteInDecisionRoom(s: Store, roomId: RoomId, caller: Option<UserId>, optionId: OptionId,
                              comment: Option<string>, now: int): (r: Result<VoteCast, Error>)
    ensures !Truthy(caller) ==> r == Failure(Unauthenticated)
    ensures Truthy(caller) && FindRoom(s.rooms, roomId).None? ==> r == Failure(NotFound)
    ensures (Truthy(caller) && FindRoom(s.rooms, roomId).Some? &&
             IsVotingClosed(FindRoom(s.rooms, roomId).value.deadline, now)) ==>
              r == Failure(VotingClosed)
    ensures (Truthy(caller) && FindRoom(s.rooms, roomId).Some? &&
             !IsVotingClosed(FindRoom(s.rooms, roomId).value.deadline, now) &&
             !OptionInRoom(s.options, optionId, roomId)) ==>
              r == Failure(InvalidOption)
    ensures (Truthy(caller) && FindRoom(s.rooms, roomId).Some? &&
             !IsVotingClosed(FindRoom(s.rooms, roomId).value.deadline, now) &&
             OptionInRoom(s.options, optionId, roomId) &&
             HasVoted(s.votes, roomId, caller.value)) ==>
              r == Failure(DuplicateVote)
    ensures r.Success? ==>
      var s' := r.value.store;
      && s'.users == s.users && s'.rooms == s.rooms && s'.options == s.options
      && |s'.votes| == |s.votes| + 1
      && s'.votes[..|s.votes|] == s.votes
      && s'.votes[|s.votes|].roomId == roomId
      && s'.votes[|s.votes|].optionId == optionId
      && s'.votes[|s.votes|].voterId == caller.value
      && s'.votes[|s.votes|].userId == caller
      && s'.votes[|s.votes|].comment == StoredComment(comment)
      && OptionInRoom(s'.options, optionId, roomId)
      && r.value.newTally == RoomTally(s', roomId)
      && r.value.newJustifications == RoomJustifications(s', roomId)
  {
    if !Truthy(caller) then Failure(Unauthenticated)
    else match FindRoom(s.rooms, roomId)
      case None => Failure(NotFound)
      case Some(room) =>
        if IsVotingClosed(room.deadline, now) then Failure(VotingClosed)
        else if !OptionInRoom(s.options, optionId, roomId) then Failure(InvalidOption)
        else if HasVoted(s.votes, roomId, caller.value) then Failure(DuplicateVote)
        else
          var v := Vote(s.nextId, roomId, optionId, caller.value, caller, StoredComment(comment));
          var s' := s.(votes := s.votes + [v], nextId := s.nextId + 1);
          Success(VoteCast(RoomTally(s', roomId), RoomJustifications(s', roomId), s'))
  }

  /** A vote succeeds exactly when every check passes. */
  lemma VoteSucceedsIff(s: Store, roomId: RoomId, caller: Option<UserId>, optionId: OptionId,
                        comment: Option<string>, now: int)
    ensures VoteInDecisionRoom(s, roomId, caller, optionId, comment, now).Success? <==>
      && Truthy(caller)
      && FindRoom(s.rooms, roomId).Some?
      && now <= FindRoom(s.rooms, roomId).value.deadline
      && OptionInRoom(s.options, optionId, roomId)
      && !HasVoted(s.votes, roomId, caller.value)
  {
  }

  /** Single-vote invariant: if no (room, voter) pair has two votes before a vote request,
      none has two after it. */
  lemma VoteKeepsSingleVote(s: Store, roomId: RoomId, caller: Option<UserId>, optionId: OptionId,
                            comment: Option<string>, now: int)
    requires SingleVote(s.votes)
    ensures var r := VoteInDecisionRoom(s, roomId, caller, optionId, comment, now);
            r.Success? ==> SingleVote(r.value.store.votes)
  {
    var r := VoteInDecisionRoom(s, roomId, caller, optionId, comment, now);
    if r.Success? {
      var vs := r.value.store.votes;
      forall a, b | 0 <= a < b < |vs| && vs[a].roomId == vs[b].roomId
        ensures vs[a].voterId != vs[b].voterId
      {
        if b == |s.votes| {
          assert vs[a] == s.votes[a];
        } else {
          assert vs[a] == s.votes[a] && vs[b] == s.votes[b];
        }
      }
    }
  }

  /** Appending a vote with a fresh id keeps identifiers issued and distinct. */
  lemma AppendVoteKeepsIds(s: Store, v: Vote, s': Store)
    requires IdsIssued(s) && IdsDistinct(s)
    requires v.id == s.nextId
    requires s' == s.(votes := s.votes + [v], nextId := s.nextId + 1)
    ensures IdsIssued(s') && IdsDistinct(s')
  {
  }

  /** Appending a vote on an option of its own room keeps options owned, votes on their own
      room's options, and every room's option count. */
  lemma AppendVoteKeepsOwnership(s: Store, v: Vote, s': Store)
    requires OptionsOwned(s) && VotesOnOwnOptions(s) && OptionCounts(s)
    requires OptionInRoom(s.options, v.optionId, v.roomId)
    requires s' == s.(votes := s.votes + [v], nextId := s.nextId + 1)
    ensures OptionsOwned(s') && VotesOnOwnOptions(s') && OptionCounts(s')
  {
    assert s'.rooms == s.rooms && s'.options == s.options;
    forall k | 0 <= k < |s'.votes|
      ensures OptionInRoom(s'.options, s'.votes[k].optionId, s'.votes[k].roomId)
    {
      if k < |s.votes| {
        assert s'.votes[k] == s.votes[k];
      }
    }
    forall k | 0 <= k < |s'.rooms|
      ensures RoomOptions(s', s'.rooms[k].id) == RoomOptions(s, s.rooms[k].id)
    {
    }
  }

  /** A vote keeps every schema invariant of the database. */
  lemma VotePreservesValid(s: Store, roomId: RoomId, caller: Option<UserId>, optionId: OptionId,
                           comment: Option<string>, now: int)
    requires Valid(s)
    ensures var r := VoteInDecisionRoom(s, roomId, caller, optionId, comment, now);
            r.Success? ==> Valid(r.value.store)
  {
    var r := VoteInDecisionRoom(s, roomId, caller, optionId, comment, now);
    if r.Success? {
      var s' := r.value.store;
      var v := s'.votes[|s.votes|];
      VoteKeepsSingleVote(s, roomId, caller, optionId, comment, now);
      assert s' == s.(votes := s.votes + [v], nextId := s.nextId + 1);
      AppendVoteKeepsIds(s, v, s');
      AppendVoteKeepsOwnership(s, v, s');
    }
  }

  /** After a successful vote, the voters of each room are the earlier ones plus the caller in
      the voted room. */
  lemma VoteRecordsVoter(s: Store, roomId: RoomId, caller: Option<UserId>, optionId: OptionId,
                         comment: Option<string>, now: int)
    requires VoteInDecisionRoom(s, roomId, caller, optionId, comment, now).Success?
    ensures var s' := VoteInDecisionRoom(s, roomId, caller, optionId, comment, now).value.store;
            forall rid, u :: HasVoted(s'.votes, rid, u) <==>
                             HasVoted(s.votes, rid, u) || (rid == roomId && u == caller.value)
  {
    var s' := VoteInDecisionRoom(s, roomId, caller, optionId, comment, now).value.store;
    forall rid, u
      ensures HasVoted(s'.votes, rid, u) <==> HasVoted(s.votes, rid, u) || (rid == roomId && u == caller.value)
    {
      if HasVoted(s'.votes, rid, u) {
        var k :| 0 <= k < |s'.votes| && s'.votes[k].roomId == rid && s'.votes[k].voterId == u;
        if k < |s.votes| {
          assert s'.votes[k] == s.votes[k];
        }
      }
      if HasVoted(s.votes, rid, u) {
        var k :| 0 <= k < |s.votes| && s.votes[k].roomId == rid && s.votes[k].voterId == u;
        assert s'.votes[k] == s.votes[k];
      }
      if rid == roomId && u == caller.value {
        assert s'.votes[|s.votes|].roomId == rid;
      }
    }
  }

  /** No second vote: once `u` has voted in a room, every later vote request by `u` in that
      room fails, whatever option, comment or time it names. */
  lemma NoSecondVote(s: Store, roomId: RoomId, u: UserId, optionId: OptionId, comment: Option<string>,
                     now: int, optionId2: OptionId, comment2: Option<string>, later: int)
    requires VoteInDecisionRoom(s, roomId, Some(u), optionId, comment, now).Success?
    ensures var s' := VoteInDecisionRoom(s, roomId, Some(u), optionId, comment, now).value.store;
            var r2 := VoteInDecisionRoom(s', roomId, Some(u), optionId2, comment2, later);
            r2 == Failure(VotingClosed) || r2 == Failure(InvalidOption) || r2 == Failure(DuplicateVote)
  {
    VoteRecordsVoter(s, roomId, Some(u), optionId, comment, now);
  }

  /** Closure monotonicity for the ledger: once a request is refused because voting closed,
      every request for that room at the same or a later time is refused the same way,
      whoever sends it and whatever option or comment it carries. */
  lemma ClosedStaysClosed(s: Store, roomId: RoomId, caller: Option<UserId>, optionId: OptionId,
                          comment: Option<string>, now: int,
                          caller2: Option<UserId>, optionId2: OptionId, comment2: Option<string>, later: int)
    requires VoteInDecisionRoom(s, roomId, caller, optionId, comment, now) == Failure(VotingClosed)
    requires now <= later
    requires Truthy(caller2)
    ensures VoteInDecisionRoom(s, roomId, caller2, optionId2, comment2, later) == Failure(VotingClosed)
  {
    var room := FindRoom(s.rooms, roomId).value;
    ClosureIsMonotone(room.deadline, now, later);
  }

  /** Option containment: naming an option that belongs to a different
      room is refused as an invalid option (option ids being unique) once the caller, room and deadline checks pass. */
  lemma ForeignOptionRefused(s: Store, roomId: RoomId, caller: Option<UserId>, optionId: OptionId,
                             comment: Option<string>, now: int, other: RoomOption)
    requires IdsDistinct(s)
    requires other in s.options && other.id == optionId && other.roomId != roomId
    requires Truthy(caller) && FindRoom(s.rooms, roomId).Some?
    requires !IsVotingClosed(FindRoom(s.rooms, roomId).value.deadline, now)
    ensures VoteInDecisionRoom(s, roomId, caller, optionId, comment, now) == Failure(InvalidOption)
  {
    var j :| 0 <= j < |s.options| && s.options[j] == other;
    forall m | 0 <= m < |s.options|
      ensures !(s.options[m].id == optionId && s.options[m].roomId == roomId)
    {
      if m < j {
        assert s.options[m].id != s.options[j].id;
      } else if j < m {
        assert s.options[j].id != s.options[m].id;
      }
    }
    assert !OptionInRoom(s.options, optionId, roomId);
  }

  /** A successful vote adds one to its option's count in the returned tally and changes no
      other count. */
  lemma VoteIncrementsTally(s: Store, roomId: RoomId, caller: Option<UserId>, optionId: OptionId,
                            comment: Option<string>, now: int)
    requires VoteInDecisionRoom(s, roomId, caller, optionId, comment, now).Success?
    ensures var t := VoteInDecisionRoom(s, roomId, caller, optionId, comment, now).value.newTally;
            var t0 := RoomTally(s, roomId);
            && optionId in t
            && t[optionId] == (if optionId in t0 then t0[optionId] else 0) + 1
            && (forall o :: o != optionId ==> (o in t <==> o in t0))
            && (forall o :: o != optionId && o in t ==> t[o] == t0[o])
            && Sum(t) == |RoomVotes(s, roomId)| + 1
  {
    var c := VoteInDecisionRoom(s, roomId, caller, optionId, comment, now).value;
    var v := c.store.votes[|s.votes|];
    assert c.store.votes == s.votes + [v];
    FilterSnoc(s.votes, v, InRoom(roomId));
    assert RoomVotes(c.store, roomId) == RoomVotes(s, roomId) + [v];
    TallySnoc(RoomVotes(s, roomId), v);
    TallyConservation(RoomVotes(c.store, roomId));
  }

  /** A successful vote extends the returned feed by its own entry exactly when its comment is
      non-empty; earlier entries are unchanged. */
  lemma VoteExtendsFeed(s: Store, roomId: RoomId, caller: Option<UserId>, optionId: OptionId,
                        comment: Option<string>, now: int)
    requires VoteInDecisionRoom(s, roomId, caller, optionId, comment, now).Success?
    ensures var c := VoteInDecisionRoom(s, roomId, caller, optionId, comment, now).value;
            var old0 := RoomJustifications(s, roomId);
            && (Truthy(comment) ==> c.newJustifications == old0 + [Entry(s, c.store.votes[|s.votes|])])
            && (!Truthy(comment) ==> c.newJustifications == old0)
  {
    var c := VoteInDecisionRoom(s, roomId, caller, optionId, comment, now).value;
    var v := c.store.votes[|s.votes|];
    assert c.store == s.(votes := s.votes + [v], nextId := s.nextId + 1);
    FeedSnoc(s.(nextId := s.nextId + 1), v, roomId);
    assert forall w :: Entry(s.(nextId := s.nextId + 1), w) == Entry(s, w);
    assert RoomJustifications(s.(nextId := s.nextId + 1), roomId) == RoomJustifications(s, roomId);
  }
}
