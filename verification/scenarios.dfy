/** End-to-end properties that span several requests or both client and server. */
module Scenarios {
  import opened Wrappers
  import opened Seqs
  import opened Text
  import opened Store
  import opened Tally
  import opened Justifications
  import opened Rooms
  import opened Ledger
  import opened Disclosure
  import OptionEditor

  /** A freshly created room has no votes yet. */
  lemma NewRoomHasNoVotes(s: Store, c: RoomCreated, caller: Option<UserId>, title: Option<string>,
                          explanation: Option<string>, options: Option<seq<string>>, deadline: Option<int>)
    requires Valid(s)
    requires CreateDecisionRoom(s, caller, title, explanation, options, deadline) == Success(c)
    ensures RoomVotes(c.store, c.room.id) == []
    ensures forall u :: !HasVoted(c.store.votes, c.room.id, u)
  {
    CreatePreservesValid(s, caller, title, explanation, options, deadline);
    OwnersIssued(s);
    forall k | 0 <= k < |s.votes| ensures s.votes[k].roomId != c.room.id {
      assert OptionInRoom(s.options, s.votes[k].optionId, s.votes[k].roomId);
    }
    FilterNone(s.votes, InRoom(c.room.id));
  }

  /** A room created with a deadline already in the past is accepted, is reported closed right
      away, and refuses every vote. */
  lemma PastDeadlineRoom(s: Store, u: UserId, title: Option<string>, explanation: Option<string>,
                         options: Option<seq<string>>, deadline: int, now: int,
                         voter: UserId, optionId: OptionId, comment: Option<string>)
    requires Valid(s)
    requires u != "" && voter != ""
    requires WellFormedRequest(title, explanation, options, Some(deadline))
    requires deadline < now
    ensures var r := CreateDecisionRoom(s, Some(u), title, explanation, options, Some(deadline));
            && r.Success?
            && GetDecisionRoomById(r.value.store, r.value.room.id, Some(u), now).Success?
            && GetDecisionRoomById(r.value.store, r.value.room.id, Some(u), now).value.votingClosed
            && VoteInDecisionRoom(r.value.store, r.value.room.id, Some(voter), optionId, comment, now)
                 == Failure(VotingClosed)
  {
    var c := CreateDecisionRoom(s, Some(u), title, explanation, options, Some(deadline)).value;
    FindRoomSnoc(s.rooms, c.room, c.room.id);
    CreatePreservesValid(s, Some(u), title, explanation, options, Some(deadline));
  }

  /** A room without votes has an empty feed and no voter. */
  lemma NoRoomVotes(s: Store, roomId: RoomId)
    requires RoomVotes(s, roomId) == []
    ensures forall k :: 0 <= k < |s.votes| ==> s.votes[k].roomId != roomId
    ensures RoomJustifications(s, roomId) == []
    ensures forall u :: !HasVoted(s.votes, roomId, u)
  {
    FilterExact(s.votes, InRoom(roomId));
    FilterNone(s.votes, Commented(roomId));
  }

  /** The first vote in a room yields a tally of one for its option and a feed of at most its own entry. */
  lemma FirstVote(s: Store, roomId: RoomId, voter: UserId, o: OptionId, comment: Option<string>, now: int)
    requires RoomVotes(s, roomId) == []
    requires VoteInDecisionRoom(s, roomId, Some(voter), o, comment, now).Success?
    ensures var c := VoteInDecisionRoom(s, roomId, Some(voter), o, comment, now).value;
            && c.newTally == map[o := 1]
            && c.newJustifications == (if Truthy(comment) then [Entry(s, c.store.votes[|s.votes|])] else [])
            && RoomVotes(c.store, roomId) == [c.store.votes[|s.votes|]]
            && forall u :: HasVoted(c.store.votes, roomId, u) <==> u == voter
  {
    var c := VoteInDecisionRoom(s, roomId, Some(voter), o, comment, now).value;
    NoRoomVotes(s, roomId);
    VoteIncrementsTally(s, roomId, Some(voter), o, comment, now);
    VoteExtendsFeed(s, roomId, Some(voter), o, comment, now);
    assert c.store.votes == s.votes + [c.store.votes[|s.votes|]];
    FilterSnoc(s.votes, c.store.votes[|s.votes|], InRoom(roomId));
    VoteRecordsVoter(s, roomId, Some(voter), o, comment, now);
  }

  /** A second voter's vote for another option adds that option with a count of one. */
  lemma SecondVote(s: Store, roomId: RoomId, voter: UserId, o1: OptionId, o2: OptionId, comment: Option<string>, now: int)
    requires RoomTally(s, roomId) == map[o1 := 1]
    requires o1 != o2
    requires VoteInDecisionRoom(s, roomId, Some(voter), o2, comment, now).Success?
    ensures VoteInDecisionRoom(s, roomId, Some(voter), o2, comment, now).value.newTally == map[o1 := 1, o2 := 1]
  {
    VoteIncrementsTally(s, roomId, Some(voter), o2, comment, now);
  }

  /** What a new room offers the requests that follow its creation. */
  lemma CreatedRoomReady(s: Store, c: RoomCreated, caller: Option<UserId>, title: Option<string>,
                         explanation: Option<string>, options: Option<seq<string>>, deadline: Option<int>)
    requires Valid(s)
    requires CreateDecisionRoom(s, caller, title, explanation, options, deadline) == Success(c)
    ensures FindRoom(c.store.rooms, c.room.id) == Some(c.room)
    ensures RoomVotes(c.store, c.room.id) == []
    ensures forall i :: 0 <= i < |c.options| ==> OptionInRoom(c.store.options, c.options[i].id, c.room.id)
    ensures forall i, j :: 0 <= i < j < |c.options| ==> c.options[i].id != c.options[j].id
    ensures forall i :: 0 <= i < |c.options| ==> FindOption(c.store.options, c.options[i].id) == Some(c.options[i])
  {
    assert IsInsert(s, c.room, c.options, c.store);
    assert FindRoom(s.rooms, c.room.id).None?;
    FindRoomSnoc(s.rooms, c.room, c.room.id);
    NewRoomHasNoVotes(s, c, caller, title, explanation, options, deadline);
    InsertedOptionsFound(s, c.room, c.options, c.store);
  }

  /** A vote response carries the live results: a voter who is not the room's creator is refused
      the tally of the still-open room, yet the successful vote itself returned exactly that
      tally and feed. */
  lemma VoteRevealsLiveResults(s: Store, roomId: RoomId, u: UserId, optionId: OptionId,
                               comment: Option<string>, now: int)
    requires VoteInDecisionRoom(s, roomId, Some(u), optionId, comment, now).Success?
    requires u != FindRoom(s.rooms, roomId).value.creatorId
    ensures var c := VoteInDecisionRoom(s, roomId, Some(u), optionId, comment, now).value;
            && GetDecisionTally(c.store, roomId, Some(u), now) == Failure(Forbidden)
            && c.newTally == RoomTally(c.store, roomId)
            && c.newJustifications == RoomJustifications(c.store, roomId)
  {
  }

  /** Two different users vote for the first and second option of a new room, with comments
      "x" and "": each option is counted once and the feed holds the one non-empty comment. */
  lemma TwoVoters(s: Store, c: RoomCreated, u: UserId, a: string, b: string, title: Option<string>,
                  explanation: Option<string>, deadline: int, now: int, v1: UserId, v2: UserId)
    requires Valid(s)
    requires v1 != "" && v2 != "" && v1 != v2
    requires CreateDecisionRoom(s, Some(u), title, explanation, Some([a, b]), Some(deadline)) == Success(c)
    requires now <= deadline
    ensures var r1 := VoteInDecisionRoom(c.store, c.room.id, Some(v1), c.options[0].id, Some("x"), now);
            && r1.Success?
            && var r2 := VoteInDecisionRoom(r1.value.store, c.room.id, Some(v2), c.options[1].id, Some(""), now);
            && r2.Success?
            && r2.value.newTally == map[c.options[0].id := 1, c.options[1].id := 1]
            && |r2.value.newJustifications| == 1
            && r2.value.newJustifications[0].comment == "x"
            && r2.value.newJustifications[0].optionText == a
  {
    var o1 := c.options[0].id;
    var o2 := c.options[1].id;
    CreatedRoomReady(s, c, Some(u), title, explanation, Some([a, b]), Some(deadline));
    NoRoomVotes(c.store, c.room.id);

    var r1 := VoteInDecisionRoom(c.store, c.room.id, Some(v1), o1, Some("x"), now);
    assert r1.Success?;
    FirstVote(c.store, c.room.id, v1, o1, Some("x"), now);
    var s1 := r1.value.store;
    var w := s1.votes[|c.store.votes|];

    assert !HasVoted(s1.votes, c.room.id, v2);
    var r2 := VoteInDecisionRoom(s1, c.room.id, Some(v2), o2, Some(""), now);
    VoteSucceedsIff(s1, c.room.id, Some(v2), o2, Some(""), now);
    assert r2.Success?;
    SecondVote(s1, c.room.id, v2, o1, o2, Some(""), now);
    VoteExtendsFeed(s1, c.room.id, Some(v2), o2, Some(""), now);
    assert r2.value.newJustifications == [Entry(c.store, w)];
  }

  /** Whatever a reachable creation form posts passes the server's option-count check: with a
      signed-in caller and the other fields filled in, the room is created with the posted
      options in order. */
  lemma ClientPostAccepted(f: OptionEditor.Form, s: Store, u: UserId, title: string,
                           explanation: string, deadline: int)
    requires OptionEditor.InBounds(f.options)
    requires u != "" && title != "" && explanation != ""
    requires OptionEditor.Submit(f, true).Post?
    ensures var posted := OptionEditor.Submit(f, true).options;
            var r := CreateDecisionRoom(s, Some(u), Some(title), Some(explanation), Some(posted), Some(deadline));
            r.Success? && |r.value.options| == |posted| &&
            forall i :: 0 <= i < |posted| ==> r.value.options[i].text == posted[i]
  {
  }

  /** The client trims a comment before sending it, so a comment of only whitespace typed in
      the form is stored as null and never enters the feed. */
  lemma ClientBlankCommentStoredNull(s: Store, roomId: RoomId, caller: Option<UserId>, optionId: OptionId,
                                     typed: string, now: int)
    requires forall i :: 0 <= i < |typed| ==> IsWhitespace(typed[i])
    ensures var r := VoteInDecisionRoom(s, roomId, caller, optionId, Some(Trim(typed)), now);
            r.Success? ==> r.value.store.votes[|s.votes|].comment.None? &&
                           r.value.newJustifications == RoomJustifications(s, roomId)
  {
    TrimEmptyIff(typed);
    var r := VoteInDecisionRoom(s, roomId, caller, optionId, Some(Trim(typed)), now);
    if r.Success? {
      VoteExtendsFeed(s, roomId, caller, optionId, Some(Trim(typed)), now);
    }
  }

  /** The server itself does not trim: a whitespace-only comment sent directly is stored as sent
      and appears in the feed. */
  lemma ServerKeepsBlankComment(s: Store, roomId: RoomId, caller: Option<UserId>, optionId: OptionId, now: int)
    ensures var r := VoteInDecisionRoom(s, roomId, caller, optionId, Some(" "), now);
            r.Success? ==> r.value.store.votes[|s.votes|].comment == Some(" ") &&
                           |r.value.newJustifications| == |RoomJustifications(s, roomId)| + 1
  {
    var r := VoteInDecisionRoom(s, roomId, caller, optionId, Some(" "), now);
    if r.Success? {
      VoteExtendsFeed(s, roomId, caller, optionId, Some(" "), now);
    }
  }
}
