/** The disclosure gate on a room's tally and justification feed. */
module Disclosure {
  import opened Wrappers
  import opened Store
  import opened Closure
  import opened Tally
  import opened Justifications

  /** What `getDecisionTally` returns: counts, the closure flag and the feed. */
  datatype TallyView = TallyView(tally: map<OptionId, nat>, votingClosed: bool, justifications: seq<Justification>)

  /** Results of an open room are visible to its creator only; a closed room's to every caller. */
  predicate MaySee(room: Room, caller: Option<UserId>, now: int)
  {
    IsVotingClosed(room.deadline, now) || caller == Some(room.creatorId)
  }

  /** `getDecisionTally`: 404 for an unknown room, 403 while the room is open and the caller is
      not its creator, otherwise the room's tally and feed as of this request. */
  function GetDecisionTally(s: Store, roomId: RoomId, caller: Option<UserId>, now: int): (r: Result<TallyView, Error>)
    ensures r == Failure(NotFound) <==> FindRoom(s.rooms, roomId).None?
    ensures r == Failure(Forbidden) <==>
              FindRoom(s.rooms, roomId).Some? && now <= FindRoom(s.rooms, roomId).value.deadline &&
              caller != Some(FindRoom(s.rooms, roomId).value.creatorId)
    ensures r.Success? <==> FindRoom(s.rooms, roomId).Some? && MaySee(FindRoom(s.rooms, roomId).value, caller, now)
    ensures r.Success? ==>
              && r.value.tally == RoomTally(s, roomId)
              && r.value.justifications == RoomJustifications(s, roomId)
              && (r.value.votingClosed <==> now > FindRoom(s.rooms, roomId).value.deadline)
  {
    match FindRoom(s.rooms, roomId)
    case None => Failure(NotFound)
    case Some(room) =>
      if !MaySee(room, caller, now) then Failure(Forbidden)
      else Success(TallyView(RoomTally(s, roomId), IsVotingClosed(room.deadline, now), RoomJustifications(s, roomId)))
  }

  /** Over a room's life: before and at the deadline only the creator sees results and every
      other caller gets 403; after it every caller, creator or not, sees them. */
  lemma DisclosureOverTime(s: Store, room: Room, other: Option<UserId>, now: int, later: int)
    requires room in s.rooms
    requires IdsDistinct(s)
    requires other != Some(room.creatorId)
    requires now <= room.deadline < later
    ensures GetDecisionTally(s, room.id, Some(room.creatorId), now).Success?
    ensures GetDecisionTally(s, room.id, other, now) == Failure(Forbidden)
    ensures GetDecisionTally(s, room.id, other, later).Success?
    ensures GetDecisionTally(s, room.id, Some(room.creatorId), later).Success?
  {
    FindStoredRoom(s, room);
  }
}
