/** Per-option vote counts for a room, and their conservation. */
module Tally {
  import opened Store

  /** How many of `votes` chose option `o`. */
  function CountFor(votes: seq<Vote>, o: OptionId): nat
  {
    if |votes| == 0 then 0
    else CountFor(votes[..|votes| - 1], o) + (if votes[|votes| - 1].optionId == o then 1 else 0)
  }

  /** The options chosen by at least one of `votes`. */
  function Chosen(votes: seq<Vote>): set<OptionId>
  {
    set k | 0 <= k < |votes| :: votes[k].optionId
  }

  /** The count map built by incrementing `tally[optionId]` once per vote, starting from `{}`. */
  function CountMap(votes: seq<Vote>): map<OptionId, nat>
  {
    if |votes| == 0 then map[]
    else
      var t := CountMap(votes[..|votes| - 1]);
      var o := votes[|votes| - 1].optionId;
      t[o := (if o in t then t[o] else 0) + 1]
  }

  /** The tally has a key for exactly the options some vote chose, and each key's count is the
      number of votes for it, so options with no votes are absent rather than zero. */
  lemma {:induction false} TallyCounts(votes: seq<Vote>)
    ensures CountMap(votes).Keys == Chosen(votes)
    ensures forall o :: CountFor(votes, o) == (if o in CountMap(votes) then CountMap(votes)[o] else 0)
    ensures forall o :: o in CountMap(votes) ==> CountMap(votes)[o] > 0
  {
    if |votes| > 0 {
      var init := votes[..|votes| - 1];
      var o := votes[|votes| - 1].optionId;
      TallyCounts(init);
      assert Chosen(votes) == Chosen(init) + {o} by {
        forall x | x in Chosen(votes) ensures x in Chosen(init) + {o} {
          var k :| 0 <= k < |votes| && votes[k].optionId == x;
          if k < |votes| - 1 {
            assert init[k] == votes[k];
          }
        }
        forall x | x in Chosen(init) ensures x in Chosen(votes) {
          var k :| 0 <= k < |init| && init[k].optionId == x;
          assert votes[k] == init[k];
        }
      }
      assert forall x :: CountFor(votes, x) == CountFor(init, x) + (if x == o then 1 else 0);
    }
  }

  /** The loop over the room's votes that accumulates the tally one vote at a time. */
  method ComputeTally(votes: seq<Vote>) returns (tally: map<OptionId, nat>)
    ensures tally == CountMap(votes)
    ensures tally.Keys == Chosen(votes)
    ensures forall o :: o in tally ==> tally[o] == CountFor(votes, o)
  {
    tally := map[];
    var i := 0;
    while i < |votes|
      invariant 0 <= i <= |votes|
      invariant tally == CountMap(votes[..i])
    {
      var o := votes[i].optionId;
      tally := tally[o := (if o in tally then tally[o] else 0) + 1];
      assert votes[..i + 1][..i] == votes[..i];
      i := i + 1;
    }
    assert votes[..|votes|] == votes;
    TallyCounts(votes);
  }

  /** The sum of a count map's values. */
  ghost function Sum(m: map<OptionId, nat>): nat
    decreases |m|
  {
    if m == map[] then 0
    else
      var k :| k in m;
      m[k] + Sum(m - {k})
  }

  /** Any key can be taken out first when summing. */
  lemma {:induction false} SumRemove(m: map<OptionId, nat>, k: OptionId)
    requires k in m
    ensures Sum(m) == m[k] + Sum(m - {k})
    decreases |m|
  {
    var j :| j in m && Sum(m) == m[j] + Sum(m - {j});
    if j != k {
      var mj := m - {j};
      var mk := m - {k};
      assert k in mj && j in mk;
      SumRemove(mj, k);
      SumRemove(mk, j);
      assert mj - {k} == mk - {j};
    }
  }

  /** Incrementing one count raises the sum by one. */
  lemma SumIncrement(m: map<OptionId, nat>, k: OptionId)
    ensures Sum(m[k := (if k in m then m[k] else 0) + 1]) == Sum(m) + 1
  {
    var m' := m[k := (if k in m then m[k] else 0) + 1];
    SumRemove(m', k);
    if k in m {
      SumRemove(m, k);
      assert m' - {k} == m - {k};
    } else {
      assert m' - {k} == m;
    }
  }

  /** Tally conservation: the counts add up to the number of votes tallied. */
  lemma {:induction false} TallyConservation(votes: seq<Vote>)
    ensures Sum(CountMap(votes)) == |votes|
  {
    if |votes| > 0 {
      TallyConservation(votes[..|votes| - 1]);
      SumIncrement(CountMap(votes[..|votes| - 1]), votes[|votes| - 1].optionId);
    }
  }

  /** `getTallyForRoom`: the count map of the room's votes. Its keys are the options some vote of
      the room chose, and each count is that option's number of votes in the room. */
  function RoomTally(s: Store, roomId: RoomId): (t: map<OptionId, nat>)
    ensures forall o :: o in t <==>
      exists k :: 0 <= k < |s.votes| && s.votes[k].roomId == roomId && s.votes[k].optionId == o
    ensures forall o :: o in t ==> t[o] == CountFor(RoomVotes(s, roomId), o) && t[o] > 0
  {
    TallyCounts(RoomVotes(s, roomId));
    assert forall o :: o in Chosen(RoomVotes(s, roomId)) <==>
      exists k :: 0 <= k < |s.votes| && s.votes[k].roomId == roomId && s.votes[k].optionId == o
    by {
      forall o
        ensures o in Chosen(RoomVotes(s, roomId)) <==>
          exists k :: 0 <= k < |s.votes| && s.votes[k].roomId == roomId && s.votes[k].optionId == o
      {
        ChosenInRoom(s, roomId, o);
      }
    }
    CountMap(RoomVotes(s, roomId))
  }

  /** An option is chosen among a room's votes exactly when some vote of the room chose it. */
  lemma ChosenInRoom(s: Store, roomId: RoomId, o: OptionId)
    ensures o in Chosen(RoomVotes(s, roomId)) <==>
      exists k :: 0 <= k < |s.votes| && s.votes[k].roomId == roomId && s.votes[k].optionId == o
  {
    var vs := RoomVotes(s, roomId);
    var ix := Seqs.Positions(s.votes, InRoom(roomId));
    Seqs.FilterExact(s.votes, InRoom(roomId));
    if o in Chosen(vs) {
      var j :| 0 <= j < |vs| && vs[j].optionId == o;
      assert s.votes[ix[j]] == vs[j];
      assert InRoom(roomId)(vs[j]);
    }
    if exists k :: 0 <= k < |s.votes| && s.votes[k].roomId == roomId && s.votes[k].optionId == o {
      var k :| 0 <= k < |s.votes| && s.votes[k].roomId == roomId && s.votes[k].optionId == o;
      assert InRoom(roomId)(s.votes[k]);
      assert k in ix;
      var j :| 0 <= j < |ix| && ix[j] == k;
      assert vs[j].optionId == o;
    }
  }

  /** A room's tally counts exactly its votes: keys are the options voted for in the room
      (options nobody chose are absent), each count is that option's votes in the room,
      and the counts sum to the room's number of votes. */
  lemma RoomTallyConserves(s: Store, roomId: RoomId)
    ensures Sum(RoomTally(s, roomId)) == |RoomVotes(s, roomId)|
    ensures forall o :: o in RoomTally(s, roomId) <==>
      exists k :: 0 <= k < |s.votes| && s.votes[k].roomId == roomId && s.votes[k].optionId == o
    ensures forall o :: o in RoomTally(s, roomId) ==> RoomTally(s, roomId)[o] == CountFor(RoomVotes(s, roomId), o)
  {
    TallyConservation(RoomVotes(s, roomId));
    TallyCounts(RoomVotes(s, roomId));
    forall o {
      ChosenInRoom(s, roomId, o);
    }
  }

  /** Appending a vote to a room adds one to its option's count and changes no other count. */
  lemma TallySnoc(votes: seq<Vote>, v: Vote)
    ensures CountMap(votes + [v]) ==
      CountMap(votes)[v.optionId := (if v.optionId in CountMap(votes) then CountMap(votes)[v.optionId] else 0) + 1]
  {
    var vs := votes + [v];
    assert vs[..|vs| - 1] == votes;
    assert vs[|vs| - 1] == v;
  }
}
