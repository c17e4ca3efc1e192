# Decision rooms: voting ledger, tally and disclosure gate

A model of the server core of the "consensus" decision-room service and of the option editor on
its room-creation form, with proofs of the properties the code promises.

The server side is in `server/src/controllers/decisionController.ts`. A creator opens a *decision
room* with a title, an explanation, two to five options and a deadline. Signed-in users cast at
most one vote per room, optionally with a comment (a *justification*). The tally request
serves the live tally and the justification feed to the room's creator only, until the
deadline passes; after that it serves every caller. A successful vote, however, also returns
the room's current tally and feed to the voter (see below).

The model represents the database as one immutable `Store` value. It holds the users, rooms,
options and votes in creation order, plus a counter for fresh identifiers. Each handler is a
pure function of the store, the caller (`Option<UserId>`; `None` or `""` means not signed in)
and the current time `now` (an integer). Each handler returns `Result<_, Error>`. The two
writing handlers, room creation and voting, also return the new store when they succeed. The
three reading handlers (the listing, the room view and the tally) return no store, so they
leave the database unchanged. A failed request returns no store either, so on every failure
path the database is unchanged by construction.

Modules:

- `Wrappers`: `Option` and `Result`.
- `Seqs`: an order-preserving `Filter`, the `Positions` it keeps, and `Reverse`. Every query in
  the service (a room's options, a room's votes, the commented votes, the creator's rooms) is a
  filter of a table in creation order. `FilterExact` is the one lemma saying such a filter keeps
  exactly the matching rows, each once, in order.
- `Text`: JavaScript truthiness of an optional string, and `String.prototype.trim`.
- `Store`: the entities, the error vocabulary with its HTTP status codes, the lookups, and the
  schema invariant `Valid`. `Valid` says that identifiers are issued and distinct, that every
  option belongs to a stored room, that every vote names an option of its own room, that each
  (room, voter) pair has at most one vote, and that every room has 2–5 options.
- `Closure`: `isVotingClosed`.
- `Rooms`: `createDecisionRoom`, `getDecisionRooms`, `getDecisionRoomById`.
- `Tally`: `getTallyForRoom`, as a recursive function and as a loop.
- `Justifications`: `getJustificationsForRoom`.
- `Ledger`: `voteInDecisionRoom`.
- `Disclosure`: `getDecisionTally`.
- `OptionEditor`: the option list of `client/src/components/CreateRoom.tsx` and its submit filter.
- `Scenarios`: properties that span several requests, or both the client and the server.

Behaviour of the code worth knowing:

- The server checks only `options.length` (decisionController.ts:17-24), so blank option
  texts are accepted. Only the client drops blank options (CreateRoom.tsx:46).
- The server stores `comment || null` (decisionController.ts:184) and never trims, so only
  a missing or empty comment becomes null. Only the client trims (DecisionRoom.tsx:139).
  `Scenarios.ClientBlankCommentStoredNull` and `Scenarios.ServerKeepsBlankComment` state
  both sides of this.
- The 403 gate of `getDecisionTally` (decisionController.ts:217-222) is not the only way to the
  live results. A successful vote returns `newTally` and `newJustifications`, the room's current
  tally and feed (decisionController.ts:188-195), to any voter, creator or not, while the room
  is open. `Scenarios.VoteRevealsLiveResults` states this.
- `getDecisionRoomById` and `getDecisionTally` do not themselves reject a missing caller. The
  model does not either: with no caller, `hasVoted` and `isCreator` are false, and the tally
  of an open room is refused with 403.

## Model

| member | source | states |
|---|---|---|
| Closure.IsVotingClosed | server/src/controllers/decisionController.ts:7 | Voting has closed exactly when the current time is strictly after the deadline. |
| Closure.ClosureIsStrict | server/src/controllers/decisionController.ts:7 | At the deadline itself a room is still open; one time unit later it is closed. |
| Closure.ClosureIsMonotone | server/src/controllers/decisionController.ts:7 | Once a room is closed at `now` it is closed at every later time. |
| Rooms.CreateDecisionRoom | server/src/controllers/decisionController.ts:9-46 | No caller gives 401 before anything else. A missing or empty title, explanation or deadline, or an option count outside 2..5, gives 400. Creation succeeds iff neither holds, and a past deadline is accepted. On success the room has the caller as creator and the given fields. Its options are the given texts in order, each linked to the room. Exactly the room and its options are appended; users and votes are unchanged. |
| Rooms.NewOptions | server/src/controllers/decisionController.ts:40 | One option row per given text, in order, linked to the new room, with consecutive fresh ids. |
| Rooms.WellFormedRequest | server/src/controllers/decisionController.ts:17-24 | The request-body check: title, explanation and deadline present and non-empty, and an options array of two to five entries. Option texts are not checked. |
| Rooms.CreatePreservesValid | server/src/controllers/decisionController.ts:33-46 | Creating a room keeps every schema invariant of the database. |
| Rooms.InsertKeepsIds | server/src/controllers/decisionController.ts:33-46 | Inserting a room and its options with fresh ids keeps ids issued and distinct. |
| Rooms.InsertKeepsOwnership | server/src/controllers/decisionController.ts:33-46 | The insert keeps every option owned by a stored room, every vote on its own room's option, and single voting. |
| Rooms.InsertOptionsOfNewRoom | server/src/controllers/decisionController.ts:39-41 | After the insert, the new room's options are exactly the inserted ones, in order. |
| Rooms.InsertOptionsOfOldRoom | server/src/controllers/decisionController.ts:33-46 | The insert leaves the option list of every earlier room unchanged. |
| Rooms.InsertKeepsCounts | server/src/controllers/decisionController.ts:17-46 | After the insert every room, old and new, still has two to five options. |
| Rooms.InsertedOptionsFound | server/src/controllers/decisionController.ts:39-46 | The inserted options have distinct ids, each belongs to the new room, and each is what an id lookup finds. |
| Rooms.OwnersIssued | server/src/controllers/decisionController.ts:33-46 | In a valid database every option's room id was already issued. |
| Rooms.GetDecisionRooms | server/src/controllers/decisionController.ts:58-72 | 401 iff there is no caller. Otherwise the result lists the caller's rooms newest first, each with its own options and votes. |
| Rooms.ListingMembers | server/src/controllers/decisionController.ts:68-72 | The listing holds exactly the rooms whose creator is the caller, each once: one strictly increasing store position per listed room, and a room's position is among them iff the caller created it. |
| Rooms.ListingNewestFirst | server/src/controllers/decisionController.ts:71 | The caller's rooms appear in reverse creation order: the j-th oldest is listed at position count-1-j. |
| Rooms.CreateThenListFirst | server/src/controllers/decisionController.ts:9-72 | A room just created by a user heads that user's listing. |
| Rooms.GetDecisionRoomById | server/src/controllers/decisionController.ts:82-115 | 404 iff no room has the id. Otherwise the view holds the stored room and that room's options. `hasVoted` holds iff the caller is signed in and has a vote in the room. `isCreator` holds iff the caller is the creator. `votingClosed` holds iff `now` is past the deadline. |
| Rooms.ViewHidesChoices | server/src/controllers/decisionController.ts:91-115 | The room view never reveals an option choice or a comment. Two databases with the same rooms and options, and the same (room, voter) pair for every vote, give every caller the same view. |
| Rooms.CreateThenView | server/src/controllers/decisionController.ts:9-115 | Right after creation, the creator's view of the room shows the given option texts in order and isCreator. It reports no vote and is closed iff the deadline is past. |
| Tally.TallyCounts | server/src/controllers/decisionController.ts:247-251 | The count map's keys are exactly the options some vote chose, so options nobody chose are absent. Each count is that option's number of votes and is positive. |
| Tally.CountMap | server/src/controllers/decisionController.ts:247-250 | The count map built by incrementing `tally[optionId]` once per vote, from an empty map. `Tally.TallyCounts` and `Tally.TallyConservation` state what it holds. |
| Tally.ComputeTally | server/src/controllers/decisionController.ts:241-252 | The loop that increments `tally[optionId]` once per vote computes the count map, with keys the chosen options and values their vote counts. |
| Tally.RoomTally | server/src/controllers/decisionController.ts:241-252 | The room's tally has a key for exactly the options some stored vote of the room chose. Each count is that option's number of votes in the room and is positive. |
| Tally.TallyConservation | server/src/controllers/decisionController.ts:241-252 | The counts of the map sum to the number of votes counted. |
| Tally.ChosenInRoom | server/src/controllers/decisionController.ts:242-245 | An option is among those chosen by a room's votes iff some stored vote of that room chose it. |
| Tally.RoomTallyConserves | server/src/controllers/decisionController.ts:241-252 | A room's tally sums to the room's number of votes. Its keys are exactly the options some vote in that room chose, and each count is that option's number of votes in the room. |
| Justifications.VoterDisplay | server/src/controllers/decisionController.ts:289-290 | The display name is never empty and follows the fallback order. A linked user with a non-empty username gives that username. Otherwise a linked user with a non-empty id gives that id. Otherwise a non-empty voter id gives the voter id. Otherwise it is "Anonymous". |
| Justifications.RoomJustifications | server/src/controllers/decisionController.ts:255-293 | The feed of a room has no more entries than there are stored votes, and every entry has a non-empty comment and a non-empty display name. `Justifications.FeedExact` states which votes the entries describe. |
| Justifications.Entry | server/src/controllers/decisionController.ts:286-293 | The feed entry of a vote: its id, its display name, the text of its option, and its comment. |
| Justifications.FeedExact | server/src/controllers/decisionController.ts:255-293 | The feed holds exactly the room's votes whose comment is non-null and non-empty, each once, in ascending creation order. Entry k describes store vote ix[k], the ix increase, and a position is among them iff the vote there qualifies. |
| Justifications.FeedEntriesNonEmpty | server/src/controllers/decisionController.ts:255-293 | Every feed entry has a non-empty comment and a non-empty display name. |
| Justifications.EntryOptionText | server/src/controllers/decisionController.ts:291 | In a valid database, a vote's entry shows the text of the option it chose, which is an option of the vote's own room. |
| Justifications.FeedSnoc | server/src/controllers/decisionController.ts:255-293 | A vote stored later extends the feed by its own entry iff it is in the room and has a non-empty comment. Earlier entries are unchanged. |
| Ledger.StoredComment | server/src/controllers/decisionController.ts:184 | A missing or empty comment is stored as null; any other comment is stored as given. |
| Ledger.VoteInDecisionRoom | server/src/controllers/decisionController.ts:125-195 | The checks fail in a fixed order: no caller 401, unknown room 404, closed 400, option not in the room 400, earlier vote by the caller in the room 409. On success exactly one vote is appended: for the room and option, by the caller, linked to the caller's user id, with the normalised comment. The chosen option belongs to the room. Users, rooms, options and earlier votes are unchanged. The returned tally and feed are those of the new database. |
| Ledger.VoteSucceedsIff | server/src/controllers/decisionController.ts:132-176 | A vote succeeds iff the caller is signed in, the room exists, `now` is not past its deadline, the option is one of the room's, and the caller has not voted in the room. |
| Ledger.VoteKeepsSingleVote | server/src/controllers/decisionController.ts:164-186 | If no (room, voter) pair has two votes before a vote request, none has two after it. |
| Ledger.AppendVoteKeepsIds | server/src/controllers/decisionController.ts:178-186 | Storing a vote with a fresh id keeps ids issued and distinct. |
| Ledger.AppendVoteKeepsOwnership | server/src/controllers/decisionController.ts:154-186 | Storing a vote on an option of its own room keeps options owned, every vote on its own room's option, and every room's option count. |
| Ledger.VotePreservesValid | server/src/controllers/decisionController.ts:125-186 | A vote request keeps every schema invariant of the database. |
| Ledger.VoteRecordsVoter | server/src/controllers/decisionController.ts:178-186 | After a successful vote, the (room, voter) pairs that have voted are the earlier ones plus the caller in the voted room. |
| Ledger.NoSecondVote | server/src/controllers/decisionController.ts:149-176 | After a user's successful vote, every later vote request by that user in that room fails (closed, invalid option or duplicate), whatever option, comment or time it carries. |
| Ledger.ClosedStaysClosed | server/src/controllers/decisionController.ts:149-152 | A request refused because voting closed is refused the same way for every signed-in caller, option and comment at every later time. |
| Ledger.ForeignOptionRefused | server/src/controllers/decisionController.ts:154-162 | Naming an existing option of a different room is refused as an invalid option. |
| Ledger.VoteIncrementsTally | server/src/controllers/decisionController.ts:178-188 | A successful vote adds one to its option's count in the returned tally and changes no other count. The new counts sum to the room's earlier number of votes plus one. |
| Ledger.VoteExtendsFeed | server/src/controllers/decisionController.ts:178-189 | A successful vote extends the returned feed by its own entry iff its comment is non-empty. Otherwise the feed is the earlier one. |
| Disclosure.GetDecisionTally | server/src/controllers/decisionController.ts:204-231 | 404 iff no room has the id. 403 iff the room is open and the caller is not its creator. The request succeeds iff the room exists and the caller may see it, and then the result is the room's tally and feed, with the closure flag. |
| Disclosure.MaySee | server/src/controllers/decisionController.ts:217 | A caller may see a room's results when voting has closed or the caller is the room's creator. |
| Disclosure.DisclosureOverTime | server/src/controllers/decisionController.ts:209-231 | Until the deadline the creator sees results and any other caller gets 403. After it, every caller sees them. |
| Store.FindRoom | server/src/controllers/decisionController.ts:141-147 | The room lookup finds a stored room with the id, and finds none iff no stored room has it. |
| Store.FindStoredRoom | server/src/controllers/decisionController.ts:87-88 | With distinct ids, looking up a stored room's id finds that room. |
| Store.FindOption | server/src/controllers/decisionController.ts:273-291 | The lookup behind the `option` relation of a vote, which supplies its option text: it finds a stored option with the id, and finds none iff no stored option has it. |
| Store.OptionInRoom | server/src/controllers/decisionController.ts:154-157 | The option check of a vote: some stored option has the given id and belongs to the given room. |
| Store.HasVoted | server/src/controllers/decisionController.ts:164-171 | The existing-vote check: some stored vote of the room has the given voter. The room view uses the same test for `hasVoted`. |
| Store.Initial | server/src/controllers/decisionController.ts:9-46 | A database with only registered users satisfies the schema invariants the handlers preserve. |
| OptionEditor.Initial | client/src/components/CreateRoom.tsx:8 | The form starts with two empty options, within the 2..5 bounds, and no message. |
| OptionEditor.ChangeOption | client/src/components/CreateRoom.tsx:13-18 | Editing input i keeps the length, sets entry i, and leaves every other entry and the message unchanged. |
| OptionEditor.AddOption | client/src/components/CreateRoom.tsx:20-26 | Below five options, one empty option is appended. At five, the list is unchanged and the maximum message is set. |
| OptionEditor.WithoutIndex | client/src/components/CreateRoom.tsx:30 | Filtering by index removes exactly the entry at that index, keeping the others in order. An index outside the list removes nothing. |
| OptionEditor.RemoveOption | client/src/components/CreateRoom.tsx:28-35 | Above two options, removing index i drops exactly entry i and keeps the rest in order. At two, the list is unchanged and the minimum message is set. |
| OptionEditor.ApplyKeepsBounds | client/src/components/CreateRoom.tsx:13-35 | Any single change, add or remove keeps the option count within 2..5. |
| OptionEditor.RunKeepsBounds | client/src/components/CreateRoom.tsx:8-35 | Every sequence of edits keeps the option count within 2..5, so every reachable form does. |
| OptionEditor.Submit | client/src/components/CreateRoom.tsx:37-57 | Without a token the user is redirected to sign in. With one, the submission is refused, with the "at least two" message, iff fewer than two options are non-blank. Otherwise the non-blank options are posted. |
| OptionEditor.ValidOptions | client/src/components/CreateRoom.tsx:46 | The entries whose trimmed text is not empty, in order. `OptionEditor.PostedOptionsExact` states which they are. |
| OptionEditor.PostedOptionsExact | client/src/components/CreateRoom.tsx:46 | The posted options are exactly the entries with a non-whitespace character, each once, in input order. |
| OptionEditor.PostedCountInBounds | client/src/components/CreateRoom.tsx:46-57 | A reachable form posts between two and five options. |
| Text.Trim | client/src/components/CreateRoom.tsx:46 | The trimmed text is the slice of the string after its leading whitespace. Everything before and after that slice is whitespace, and the slice neither starts nor ends with whitespace. |
| Text.TrimEmptyIff | client/src/components/CreateRoom.tsx:46 | A string trims to empty iff every character is whitespace. |
| Scenarios.ClientPostAccepted | client/src/components/CreateRoom.tsx:46-57 | Whatever a reachable form posts passes the server's option-count check. With a signed-in caller and the other fields filled in, the room is created with the posted options in order. |
| Scenarios.ClientBlankCommentStoredNull | client/src/components/DecisionRoom.tsx:139 | A comment of only whitespace typed in the form is trimmed by the client. The server then stores it as null, and it never enters the feed. |
| Scenarios.ServerKeepsBlankComment | server/src/controllers/decisionController.ts:184 | The server does not trim: a whitespace-only comment sent directly is stored as sent and enters the feed. |
| Scenarios.NewRoomHasNoVotes | server/src/controllers/decisionController.ts:33-46 | A newly created room has no votes and no voters. |
| Scenarios.PastDeadlineRoom | server/src/controllers/decisionController.ts:7-152 | A room created with a past deadline is accepted, is reported closed at once, and refuses every vote with the closed error. |
| Scenarios.NoRoomVotes | server/src/controllers/decisionController.ts:241-293 | A room without votes has no voter and an empty feed. |
| Scenarios.FirstVote | server/src/controllers/decisionController.ts:178-195 | The first vote in a room gives a tally of one for its option, the room's only vote, one voter, and a feed of at most its own entry. |
| Scenarios.SecondVote | server/src/controllers/decisionController.ts:178-195 | After one vote for o1, a vote for a different option o2 gives the tally {o1: 1, o2: 1}. |
| Scenarios.CreatedRoomReady | server/src/controllers/decisionController.ts:33-46 | A created room is found by its id and has no votes. Its options have distinct ids, belong to it, and are found by their ids. |
| Scenarios.VoteRevealsLiveResults | server/src/controllers/decisionController.ts:188-231 | A voter who is not the room's creator is refused the tally of the open room with 403. Yet the voter's successful vote returned exactly that room's current tally and feed. |
| Scenarios.TwoVoters | server/src/controllers/decisionController.ts:125-195 | Two users vote for a new room's first and second options, with comments "x" and "". Both votes succeed, each option is counted once, and the feed holds the single entry "x" with the first option's text. |

## Left out

- Persistence: the Prisma client, its queries and its relations are replaced by sequences in
  one value. Database-generated string identifiers become natural numbers from one counter.
  `createdAt` is the position in its table, so "newest first" reverses store order and
  "oldest first" keeps it.
- Reads without `orderBy` return rows in creation order in the model. This covers a room's
  options (decisionController.ts:43-45, 70, 90) and a room's votes (decisionController.ts:70,
  242). The database does not guarantee that order. So "the options in order" in the rows
  above holds in the model, but a real response may list them differently. The tally, a map,
  does not depend on the order of the votes.
- The concurrent check-then-insert race in `voteInDecisionRoom` is not modelled. The model is
  sequential, so two concurrent requests by one voter cannot interleave, and the database's
  uniqueness constraint has no counterpart.
- Dates are integers: `new Date(deadline)` parsing, invalid dates and the wall clock are left
  out. The current time is the parameter `now`.
- Errors are an `Error` datatype. The HTTP status codes appear as comments, and the response
  messages, JSON bodies and the 500 paths of the `catch` blocks are not modelled.
- The request body is typed: a missing `optionId`, or one of another type, is left out; the
  source passes it on to the database query unchecked.
- Authentication is not modelled: the JWT middleware, password hashing and the auth
  controller. The resolved user id is the `caller` parameter.
- Server bootstrap, CORS, route wiring, the HTTP client wrapper, `localStorage` and styling
  are not modelled.
- React rendering is not modelled, including the display-only descending sort of the tally
  in `client/src/components/DecisionRoom.tsx`. The title, explanation and deadline inputs
  of the creation form, and their HTML `required` attributes, are also left out.
- OptionEditor.Submit: does not model the `required` attribute of the option inputs
  (`client/src/components/CreateRoom.tsx`). In a browser that enforces it, a form with an
  empty option input is never submitted. The filter then only ever drops entries of
  whitespace alone. The model submits every reachable form, which is the case with no such
  browser check.
- OptionEditor.Submit: does not model the reset of the message line at the start of
  `handleSubmit`. It also leaves out the server's response message and the error message
  shown after a post, because the server's reply is not part of the form model.
- OptionEditor.ChangeOption: requires the index to be an existing input. The form renders one
  input per entry, so no other index reaches the handler. In JavaScript an out-of-range index
  would extend the array.
- The `console.log` call in `handleOptionChange` and the navigation after a post are left out.
- Text.Trim: covers the whitespace code points listed for `String.prototype.trim`. Strings
  are sequences of characters, not UTF-16 code units.
