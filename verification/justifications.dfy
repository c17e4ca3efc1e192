/** The justification feed: the commented votes of a room, oldest first. */
module Justifications {
  import opened Wrappers
  import opened Seqs
  import opened Text
  import opened Store

  /** One entry of the feed. */
  datatype Justification = Justification(voteId: VoteId, voterDisplay: string, optionText: string, comment: string)

  /** A vote carries a justification when its comment is neither null nor `""`. */
  predicate HasComment(v: Vote)
  {
    Truthy(v.comment)
  }

  function Commented(roomId: RoomId): Vote -> bool
  {
    (v: Vote) => v.roomId == roomId && HasComment(v)
  }

  /** The user row a vote links to through its nullable `userId`, if any (`vote.User`). */
  function LinkedUser(users: seq<User>, v: Vote): Option<User>
  {
    if v.userId.Some? then FindUser(users, v.userId.value) else None
  }

  /** The linked user has a non-empty username. */
  predicate HasUsername(users: seq<User>, v: Vote)
  {
    LinkedUser(users, v).Some? && LinkedUser(users, v).value.username != ""
  }

  /** The linked user has a non-empty id. */
  predicate HasUserId(users: seq<User>, v: Vote)
  {
    LinkedUser(users, v).Some? && LinkedUser(users, v).value.id != ""
  }

  /** `User?.username || User?.id || voterId || "Anonymous"`: the first non-empty of the linked
      user's name, the linked user's id and the voter id, else the fixed anonymous label. */
  function VoterDisplay(users: seq<User>, v: Vote): (d: string)
    ensures d != ""
    ensures HasUsername(users, v) ==> d == LinkedUser(users, v).value.username
    ensures !HasUsername(users, v) && HasUserId(users, v) ==> d == LinkedUser(users, v).value.id
    ensures !HasUsername(users, v) && !HasUserId(users, v) && v.voterId != "" ==> d == v.voterId
    ensures !HasUsername(users, v) && !HasUserId(users, v) && v.voterId == "" ==> d == "Anonymous"
  {
    var user := LinkedUser(users, v);
    if user.Some? && user.value.username != "" then user.value.username
    else if user.Some? && user.value.id != "" then user.value.id
    else if v.voterId != "" then v.voterId
    else "Anonymous"
  }

  /** The text of the option a vote chose (`vote.option.text`). */
  function OptionText(options: seq<RoomOption>, v: Vote): string
  {
    match FindOption(options, v.optionId)
    case Some(o) => o.text
    case None => ""
  }

  /** The feed entry for a commented vote. */
  function Entry(s: Store, v: Vote): Justification
  {
    Justification(v.id, VoterDisplay(s.users, v), OptionText(s.options, v),
                  match v.comment case Some(c) => c case None => "")
  }

  /** `getJustificationsForRoom`: the entries of the room's commented votes, oldest first. */
  function RoomJustifications(s: Store, roomId: RoomId): (js: seq<Justification>)
    ensures |js| <= |s.votes|
    ensures forall k :: 0 <= k < |js| ==> js[k].comment != "" && js[k].voterDisplay != ""
  {
    var vs := Filter(s.votes, Commented(roomId));
    seq(|vs|, k requires 0 <= k < |vs| => Entry(s, vs[k]))
  }

  /** The feed holds exactly the room's votes whose comment is non-null and non-empty, each once,
      in ascending creation order: entry `k` describes store vote `ix[k]`, the `ix` are increasing,
      and a vote's position is among them iff it is in the room with a non-empty comment. */
  lemma FeedExact(s: Store, roomId: RoomId)
    ensures var js := RoomJustifications(s, roomId);
            var ix := Positions(s.votes, Commented(roomId));
            && |js| == |ix|
            && StrictlyIncreasing(ix)
            && (forall k :: 0 <= k < |ix| ==> ix[k] < |s.votes| && js[k] == Entry(s, s.votes[ix[k]]))
            && (forall i :: 0 <= i < |s.votes| ==>
                  (i in ix <==> s.votes[i].roomId == roomId && s.votes[i].comment.Some? && s.votes[i].comment.value != ""))
  {
    var ix := Positions(s.votes, Commented(roomId));
    FilterExact(s.votes, Commented(roomId));
    forall i | 0 <= i < |s.votes|
      ensures Commented(roomId)(s.votes[i]) <==>
        s.votes[i].roomId == roomId && s.votes[i].comment.Some? && s.votes[i].comment.value != ""
    {
    }
  }

  /** Every entry carries a non-empty comment and a non-empty display name. */
  lemma FeedEntriesNonEmpty(s: Store, roomId: RoomId)
    ensures forall j :: j in RoomJustifications(s, roomId) ==> j.comment != "" && j.voterDisplay != ""
  {
    var vs := Filter(s.votes, Commented(roomId));
    forall j | j in RoomJustifications(s, roomId)
      ensures j.comment != "" && j.voterDisplay != ""
    {
      var k :| 0 <= k < |vs| && RoomJustifications(s, roomId)[k] == j;
      assert Commented(roomId)(vs[k]);
    }
  }

  /** In a valid store, a stored vote's entry names the text of the option it chose, and that
      option belongs to the vote's room. */
  lemma EntryOptionText(s: Store, v: Vote)
    requires Valid(s)
    requires v in s.votes
    ensures exists m :: 0 <= m < |s.options| && s.options[m].id == v.optionId &&
                        s.options[m].roomId == v.roomId && Entry(s, v).optionText == s.options[m].text
  {
    assert OptionInRoom(s.options, v.optionId, v.roomId);
    var m :| 0 <= m < |s.options| && s.options[m].id == v.optionId && s.options[m].roomId == v.roomId;
    var found := FindOption(s.options, v.optionId).value;
    var n :| 0 <= n < |s.options| && s.options[n] == found;
    assert n == m;
  }

  /** A vote appended after the feed was computed extends it by its own entry exactly when it is
      in the room and commented. */
  lemma FeedSnoc(s: Store, v: Vote, roomId: RoomId)
    ensures RoomJustifications(s.(votes := s.votes + [v]), roomId) ==
      RoomJustifications(s, roomId) + (if v.roomId == roomId && HasComment(v) then [Entry(s, v)] else [])
  {
    var s' := s.(votes := s.votes + [v]);
    FilterSnoc(s.votes, v, Commented(roomId));
    assert forall w :: Entry(s', w) == Entry(s, w);
  }
}
