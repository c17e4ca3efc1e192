/** The closure policy: the single definition of "voting has closed". */
module Closure {

  /** A room is closed at `now` exactly when `now` is strictly after its deadline. */
  predicate IsVotingClosed(deadline: int, now: int)
  {
    now > deadline
  }

  /** Closure is strict: at the deadline itself the room is still open, one tick later it is closed. */
  lemma ClosureIsStrict(deadline: int)
    ensures !IsVotingClosed(deadline, deadline)
    ensures IsVotingClosed(deadline, deadline + 1)
  {
  }

  /** Once closed, a room stays closed at every later time. */
  lemma ClosureIsMonotone(deadline: int, now: int, later: int)
    requires now <= later
    requires IsVotingClosed(deadline, now)
    ensures IsVotingClosed(deadline, later)
  {
  }
}
